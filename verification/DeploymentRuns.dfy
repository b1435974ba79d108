/** The optimized branch of `invoke` as a transition system: the main thread starts a wave's threads one by one,
    joins them, refreshes the module table and checks it, while the started threads finish in any order.
    Thread `k` deploys module `k` of the order. */
module DeploymentRuns {
  import opened DeploymentOrder

  datatype Pc =
    | Starting(wave: nat, i: nat)
    | Joining(wave: nat, i: nat)
    | Refreshing(wave: nat)
    | Checking(wave: nat, i: nat)
    | Finished
    | Aborted(wave: nat)

  /** `started` is the modules handed to threads so far. */
  datatype State = State(pc: Pc, running: set<nat>, started: seq<string>, table: map<string, ModuleInfo>)

  datatype Step =
    | Start
    | Finish(k: nat)
    | Join
    | Refresh(rows: map<string, ModuleInfo>)
    | RefreshFails
    | Check

  // ---------------------------------------------------------------- numbering the threads

  function Offset(waves: seq<Wave>, w: nat): nat
    requires w <= |waves|
  {
    if w == 0 then 0 else Offset(waves, w - 1) + |waves[w - 1].moduleIds|
  }

  lemma {:induction false} OffsetMonotone(waves: seq<Wave>, v: nat, w: nat)
    requires v <= w <= |waves|
    ensures Offset(waves, v) <= Offset(waves, w)
    decreases w
  {
    if v < w {
      OffsetMonotone(waves, v, w - 1);
    }
  }

  lemma {:induction false} OffsetIsLength(waves: seq<Wave>, w: nat)
    requires w <= |waves|
    ensures |Flatten(waves[..w])| == Offset(waves, w)
  {
    if w > 0 {
      assert waves[..w][..w - 1] == waves[..w - 1];
      OffsetIsLength(waves, w - 1);
    }
  }

  /** Thread `Offset(w) + i` is item `i` of wave `w`. */
  lemma {:induction false} ItemAt(waves: seq<Wave>, n: nat, w: nat, i: nat)
    requires w < n <= |waves| && i < |waves[w].moduleIds|
    ensures Offset(waves, w) + i < |Flatten(waves[..n])|
    ensures Flatten(waves[..n])[Offset(waves, w) + i] == Item(waves[w].moduleIds[i], waves[w].priority)
    decreases n
  {
    assert waves[..n][..n - 1] == waves[..n - 1];
    OffsetIsLength(waves, n - 1);
    if w < n - 1 {
      ItemAt(waves, n - 1, w, i);
    }
  }

  // ---------------------------------------------------------------- steps

  predicate InWave(waves: seq<Wave>, w: nat, i: nat) {
    w < |waves| && i < |waves[w].moduleIds|
  }

  /** The program counter points into the plan. */
  predicate Located(waves: seq<Wave>, pc: Pc) {
    match pc
    case Starting(w, i) => InWave(waves, w, i)
    case Joining(w, i) => InWave(waves, w, i)
    case Refreshing(w) => w < |waves|
    case Checking(w, i) => InWave(waves, w, i)
    case Finished => true
    case Aborted(w) => w < |waves|
  }

  predicate Enabled(waves: seq<Wave>, s: State, step: Step)
    requires Located(waves, s.pc)
  {
    match step
    case Start => s.pc.Starting?
    case Finish(k) => k in s.running
    case Join => s.pc.Joining? && Offset(waves, s.pc.wave) + s.pc.i !in s.running
    case Refresh(_) => s.pc.Refreshing?
    case RefreshFails => s.pc.Refreshing?
    case Check => s.pc.Checking? && waves[s.pc.wave].moduleIds[s.pc.i] in s.table
  }

  function Fire(waves: seq<Wave>, s: State, step: Step): State
    requires Located(waves, s.pc) && Enabled(waves, s, step)
  {
    match step
    case Start =>
      var w, i := s.pc.wave, s.pc.i;
      var ids := waves[w].moduleIds;
      s.(pc := if i + 1 < |ids| then Starting(w, i + 1) else Joining(w, 0),
         running := s.running + {Offset(waves, w) + i},
         started := s.started + [ids[i]])
    case Finish(k) => s.(running := s.running - {k})
    case Join =>
      var w, i := s.pc.wave, s.pc.i;
      s.(pc := if i + 1 < |waves[w].moduleIds| then Joining(w, i + 1) else Refreshing(w))
    case Refresh(rows) => s.(pc := Checking(s.pc.wave, 0), table := s.table + rows)
    case RefreshFails => s.(pc := Aborted(s.pc.wave))
    case Check =>
      var w, i := s.pc.wave, s.pc.i;
      var ids := waves[w].moduleIds;
      if s.table[ids[i]].status != DEPLOYED then s.(pc := Aborted(w))
      else
        s.(pc := if i + 1 < |ids| then Checking(w, i + 1) else if w + 1 < |waves| then Starting(w + 1, 0) else Finished)
  }

  function Initial(waves: seq<Wave>, table: map<string, ModuleInfo>): State {
    State(if waves == [] then Finished else Starting(0, 0), {}, [], table)
  }

  // ---------------------------------------------------------------- the invariant

  /** Threads started, threads joined and threads checked, as the program counter has them. */
  function StartedCount(waves: seq<Wave>, pc: Pc): nat
    requires Located(waves, pc)
  {
    match pc
    case Starting(w, i) => Offset(waves, w) + i
    case Joining(w, _) => Offset(waves, w + 1)
    case Refreshing(w) => Offset(waves, w + 1)
    case Checking(w, _) => Offset(waves, w + 1)
    case Finished => Offset(waves, |waves|)
    case Aborted(w) => Offset(waves, w + 1)
  }

  function JoinedCount(waves: seq<Wave>, pc: Pc): nat
    requires Located(waves, pc)
  {
    match pc
    case Starting(w, _) => Offset(waves, w)
    case Joining(w, i) => Offset(waves, w) + i
    case Refreshing(w) => Offset(waves, w + 1)
    case Checking(w, _) => Offset(waves, w + 1)
    case Finished => Offset(waves, |waves|)
    case Aborted(w) => Offset(waves, w + 1)
  }

  function CheckedCount(waves: seq<Wave>, pc: Pc): nat
    requires Located(waves, pc)
  {
    match pc
    case Starting(w, _) => Offset(waves, w)
    case Joining(w, _) => Offset(waves, w)
    case Refreshing(w) => Offset(waves, w)
    case Checking(w, i) => Offset(waves, w) + i
    case Finished => Offset(waves, |waves|)
    case Aborted(w) => Offset(waves, w)
  }

  ghost predicate Inv(waves: seq<Wave>, s: State) {
    && ProperWaves(waves) && Located(waves, s.pc)
    && StartedCount(waves, s.pc) <= |Flatten(waves)|
    && s.started == Ids(Flatten(waves)[..StartedCount(waves, s.pc)])
    && (forall k | k in s.running :: JoinedCount(waves, s.pc) <= k < StartedCount(waves, s.pc))
    && (forall k | 0 <= k < |Flatten(waves)| :: Flatten(waves)[k].moduleId in s.table)
  }

  lemma InvInitially(waves: seq<Wave>, table: map<string, ModuleInfo>)
    requires ProperWaves(waves)
    requires forall k | 0 <= k < |Flatten(waves)| :: Flatten(waves)[k].moduleId in table
    ensures Inv(waves, Initial(waves, table))
  {
    assert Flatten(waves)[..0] == [];
  }

  lemma FlattenLength(waves: seq<Wave>)
    ensures |Flatten(waves)| == Offset(waves, |waves|)
  {
    OffsetIsLength(waves, |waves|);
    assert waves[..|waves|] == waves;
  }

  lemma WaveItem(waves: seq<Wave>, w: nat, i: nat)
    requires InWave(waves, w, i)
    ensures Offset(waves, w) + i < |Flatten(waves)|
    ensures Flatten(waves)[Offset(waves, w) + i] == Item(waves[w].moduleIds[i], waves[w].priority)
  {
    ItemAt(waves, |waves|, w, i);
    assert waves[..|waves|] == waves;
  }

  lemma StartKeeps(waves: seq<Wave>, s: State)
    requires Inv(waves, s) && s.pc.Starting?
    ensures Inv(waves, Fire(waves, s, Start))
  {
    var w, i := s.pc.wave, s.pc.i;
    WaveItem(waves, w, i);
    var items, n := Flatten(waves), Offset(waves, w) + i;
    assert items[..n + 1] == items[..n] + [items[n]];
    assert Ids(items[..n + 1]) == Ids(items[..n]) + [items[n].moduleId];
  }

  /** Every step keeps the invariant. */
  lemma StepKeepsInvariant(waves: seq<Wave>, s: State, step: Step)
    requires Inv(waves, s) && Enabled(waves, s, step)
    ensures Inv(waves, Fire(waves, s, step))
  {
    match step
    case Start => StartKeeps(waves, s);
    case Check => CheckKeeps(waves, s);
    case _ => hide Flatten, Ids, ProperWaves;
  }

  lemma CheckKeeps(waves: seq<Wave>, s: State)
    requires Inv(waves, s) && Enabled(waves, s, Check)
    ensures Inv(waves, Fire(waves, s, Check))
  {
    FlattenLength(waves);
    OffsetMonotone(waves, s.pc.wave + 1, |waves|);
    hide Flatten, Ids;
  }

  predicate Legal(waves: seq<Wave>, s: State, steps: seq<Step>)
    decreases steps
  {
    steps == []
    || (Located(waves, s.pc) && Enabled(waves, s, steps[0]) && Legal(waves, Fire(waves, s, steps[0]), steps[1..]))
  }

  function Final(waves: seq<Wave>, s: State, steps: seq<Step>): State
    requires Legal(waves, s, steps)
    decreases steps
  {
    if steps == [] then s else Final(waves, Fire(waves, s, steps[0]), steps[1..])
  }

  lemma {:induction false} RunKeepsInvariant(waves: seq<Wave>, s: State, steps: seq<Step>)
    requires Inv(waves, s) && Legal(waves, s, steps)
    ensures Inv(waves, Final(waves, s, steps))
    decreases steps
  {
    if steps != [] {
      StepKeepsInvariant(waves, s, steps[0]);
      RunKeepsInvariant(waves, Fire(waves, s, steps[0]), steps[1..]);
    }
  }

  // ---------------------------------------------------------------- safety in every reachable state

  lemma {:induction false} WaveOf(waves: seq<Wave>, w: nat, k: nat)
    requires w < |waves| && Offset(waves, w) <= k < Offset(waves, w + 1)
    ensures k < |Flatten(waves)| && Flatten(waves)[k].priority == waves[w].priority
  {
    WaveItem(waves, w, k - Offset(waves, w));
  }

  lemma SafetyOfState(waves: seq<Wave>, s: State)
    requires Inv(waves, s)
    ensures var items := Flatten(waves);
            && s.started <= Ids(items)
            && (forall k | k in s.running :: k < |s.started|)
            && (forall k, l | k in s.running && l in s.running :: items[k].priority == items[l].priority)
            && (forall k, l | 0 <= k < l < |s.started| && items[k].priority < items[l].priority ::
                  k < CheckedCount(waves, s.pc) && k !in s.running)
  {
    var items := Flatten(waves);
    FlattenLength(waves);
    match s.pc
    case Finished =>
      assert s.running == {};
    case Aborted(w) => CurrentWave(waves, s, w);
    case Starting(w, _) => CurrentWave(waves, s, w);
    case Joining(w, _) => CurrentWave(waves, s, w);
    case Refreshing(w) => CurrentWave(waves, s, w);
    case Checking(w, _) => CurrentWave(waves, s, w);
  }

  lemma CurrentWave(waves: seq<Wave>, s: State, w: nat)
    requires Inv(waves, s) && w < |waves|
    requires Offset(waves, w) <= JoinedCount(waves, s.pc) && StartedCount(waves, s.pc) <= Offset(waves, w + 1)
    requires Offset(waves, w) <= CheckedCount(waves, s.pc)
    ensures forall k | k in s.running :: k < |Flatten(waves)| && Flatten(waves)[k].priority == waves[w].priority
    ensures forall k, l | 0 <= k < l < |s.started| && Flatten(waves)[k].priority < Flatten(waves)[l].priority ::
              k < CheckedCount(waves, s.pc) && k !in s.running
  {
    forall k | Offset(waves, w) <= k < Offset(waves, w + 1)
      ensures k < |Flatten(waves)| && Flatten(waves)[k].priority == waves[w].priority
    {
      WaveOf(waves, w, k);
    }
  }

  lemma {:induction false} FlattenPrefix(waves: seq<Wave>, w: nat)
    requires w <= |waves|
    ensures Flatten(waves[..w]) <= Flatten(waves) && |Flatten(waves[..w])| == Offset(waves, w)
    decreases |waves|
  {
    OffsetIsLength(waves, w);
    if w < |waves| {
      var before := waves[..|waves| - 1];
      assert before[..w] == waves[..w];
      FlattenPrefix(before, w);
    } else {
      assert waves[..w] == waves;
    }
  }

  lemma AbortedStops(waves: seq<Wave>, s: State, steps: seq<Step>)
    requires Inv(waves, s) && s.pc.Aborted? && Legal(waves, s, steps)
    ensures steps == [] && s.pc.wave < |waves| && s.started == Ids(Flatten(waves[..s.pc.wave + 1])) && s.running == {}
  {
    var w := s.pc.wave;
    FlattenPrefix(waves, w + 1);
    assert Flatten(waves)[..Offset(waves, w + 1)] == Flatten(waves[..w + 1]);
    assert s.running == {};
  }

  /** The invariant holds at the start of a deployment, and so throughout. */
  lemma DeploymentKeepsInvariant(ids: seq<string>, modules: map<string, ModuleInfo>, upgrade: bool, priority: string -> int,
                                 steps: seq<Step>)
    requires Order(ids, modules, upgrade, priority).Ok?
    requires var waves := Waves(Order(ids, modules, upgrade, priority).value);
             Legal(waves, Initial(waves, modules), steps)
    ensures var items := Order(ids, modules, upgrade, priority).value;
            var waves := Waves(items);
            && ProperWaves(waves) && Flatten(waves) == items && (forall k | 0 <= k < |items| :: items[k].moduleId in modules)
            && Inv(waves, Final(waves, Initial(waves, modules), steps))
  {
    var items := Order(ids, modules, upgrade, priority).value;
    var waves := Waves(items);
    OrderItems(ids, modules, upgrade, priority);
    StableSortSorts(Candidates(ids, modules, upgrade, priority).value);
    WavesRefineOrder(items);
    InvInitially(waves, modules);
    hide Inv, Waves, StableSort, Flatten;
    RunKeepsInvariant(waves, Initial(waves, modules), steps);
  }

  // ---------------------------------------------------------------- progress and termination

  /** As long as the run is not over some step is enabled: a thread being joined is finished, or can finish. */
  lemma NoDeadlock(waves: seq<Wave>, s: State) returns (step: Step)
    requires Inv(waves, s) && !s.pc.Finished? && !s.pc.Aborted?
    ensures Enabled(waves, s, step)
  {
    match s.pc
    case Starting(_, _) => step := Start;
    case Joining(w, i) => step := if Offset(waves, w) + i in s.running then Finish(Offset(waves, w) + i) else Join;
    case Refreshing(_) => step := RefreshFails;
    case Checking(w, i) =>
      WaveItem(waves, w, i);
      step := Check;
  }

  /** The main thread's steps in the waves from `w` on: a start, a join and a check a module, and a refresh a wave. */
  function WavesLeft(waves: seq<Wave>, w: nat): nat
    decreases |waves| - w
  {
    if w >= |waves| then 0 else 3 * |waves[w].moduleIds| + 1 + WavesLeft(waves, w + 1)
  }

  function MainLeft(waves: seq<Wave>, pc: Pc): nat
    requires Located(waves, pc)
  {
    match pc
    case Starting(w, i) => 3 * |waves[w].moduleIds| + 1 - i + WavesLeft(waves, w + 1)
    case Joining(w, i) => 2 * |waves[w].moduleIds| + 1 - i + WavesLeft(waves, w + 1)
    case Refreshing(w) => |waves[w].moduleIds| + 1 + WavesLeft(waves, w + 1)
    case Checking(w, i) => |waves[w].moduleIds| - i + WavesLeft(waves, w + 1)
    case Finished => 0
    case Aborted(_) => 0
  }

  /** The steps a run can still take: those of the main thread, and a finish for each thread not finished. */
  function StepsLeft(waves: seq<Wave>, s: State): int
    requires Located(waves, s.pc)
  {
    MainLeft(waves, s.pc) + |s.running| + |Flatten(waves)| - |s.started|
  }

  lemma StepCounts(waves: seq<Wave>, s: State, step: Step)
    requires Inv(waves, s) && Enabled(waves, s, step)
    ensures var s' := Fire(waves, s, step);
            Located(waves, s'.pc)
            && if s'.pc.Aborted? then StepsLeft(waves, s') < StepsLeft(waves, s)
               else StepsLeft(waves, s') == StepsLeft(waves, s) - 1
  {
    hide Flatten, Ids, CheckedCount;
    StepKeepsInvariant(waves, s, step);
    match step
    case Start => StartCounts(waves, s);
    case Check => CheckCounts(waves, s);
    case _ => hide Inv;
  }

  lemma StartCounts(waves: seq<Wave>, s: State)
    requires Inv(waves, s) && Enabled(waves, s, Start) && Located(waves, Fire(waves, s, Start).pc)
    ensures StepsLeft(waves, Fire(waves, s, Start)) == StepsLeft(waves, s) - 1
  {
    hide Flatten, Ids, CheckedCount;
    var k := Offset(waves, s.pc.wave) + s.pc.i;
    assert k !in s.running;
  }

  lemma CheckCounts(waves: seq<Wave>, s: State)
    requires Inv(waves, s) && Enabled(waves, s, Check) && Located(waves, Fire(waves, s, Check).pc)
    ensures var s' := Fire(waves, s, Check);
            if s'.pc.Aborted? then StepsLeft(waves, s') < StepsLeft(waves, s)
            else StepsLeft(waves, s') == StepsLeft(waves, s) - 1
  {
    hide Flatten, Ids, CheckedCount, Offset;
    assert waves[s.pc.wave].moduleIds != [];
  }

  lemma StepsLeftNonNegative(waves: seq<Wave>, s: State)
    requires Inv(waves, s)
    ensures StepsLeft(waves, s) >= 0
  {
  }

  /** No run is longer than the steps left, and one that ends in Finished takes exactly that many. */
  lemma {:induction false} RunLength(waves: seq<Wave>, s: State, steps: seq<Step>)
    requires Inv(waves, s) && Legal(waves, s, steps)
    ensures |steps| <= StepsLeft(waves, s)
    ensures Final(waves, s, steps).pc.Finished? ==> |steps| == StepsLeft(waves, s)
    decreases steps
  {
    if steps == [] {
      StepsLeftNonNegative(waves, s);
      FlattenLength(waves);
      if s.pc.Finished? {
        assert s.running == {};
      }
    } else {
      var s' := Fire(waves, s, steps[0]);
      StepCounts(waves, s, steps[0]);
      StepKeepsInvariant(waves, s, steps[0]);
      RunLength(waves, s', steps[1..]);
      if s'.pc.Aborted? {
        AbortedStops(waves, s', steps[1..]);
      }
    }
  }

  lemma {:induction false} WavesLeftTotal(waves: seq<Wave>, w: nat)
    requires w <= |waves|
    ensures WavesLeft(waves, w) == 3 * (Offset(waves, |waves|) - Offset(waves, w)) + |waves| - w
    decreases |waves| - w
  {
    if w < |waves| {
      WavesLeftTotal(waves, w + 1);
    }
  }

  lemma RunsOfWaves(waves: seq<Wave>, table: map<string, ModuleInfo>, steps: seq<Step>)
    requires ProperWaves(waves)
    requires forall k | 0 <= k < |Flatten(waves)| :: Flatten(waves)[k].moduleId in table
    requires Legal(waves, Initial(waves, table), steps)
    ensures |steps| <= 4 * |Flatten(waves)| + |waves|
    ensures var s := Final(waves, Initial(waves, table), steps);
            && Located(waves, s.pc)
            && ((forall step :: !Enabled(waves, s, step)) <==> s.pc.Finished? || s.pc.Aborted?)
            && (s.pc.Finished? ==> s.started == Ids(Flatten(waves)))
  {
    InvInitially(waves, table);
    RunLength(waves, Initial(waves, table), steps);
    FlattenLength(waves);
    WavesLeftTotal(waves, 0);
    RunKeepsInvariant(waves, Initial(waves, table), steps);
    var s := Final(waves, Initial(waves, table), steps);
    if s.pc.Finished? {
      assert Flatten(waves)[..|Flatten(waves)|] == Flatten(waves);
      assert s.running == {};
    } else if s.pc.Aborted? {
      assert s.running == {};
    } else {
      var step := NoDeadlock(waves, s);
    }
  }
}
