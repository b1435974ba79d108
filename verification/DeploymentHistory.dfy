/** Whole runs of the optimized branch of `invoke`, told by their steps alone: which threads are running, what the module
    table says, and which modules were read as deployed. */
module DeploymentHistory {
  import opened DeploymentOrder
  import opened DeploymentRuns

  // ---------------------------------------------------------------- what the steps say

  /** The number of threads started. */
  function Starts(steps: seq<Step>): nat {
    if steps == [] then 0 else Starts(steps[..|steps| - 1]) + if steps[|steps| - 1] == Start then 1 else 0
  }

  /** The thread is started and has not finished. */
  predicate IsRunning(steps: seq<Step>, k: nat) {
    k < Starts(steps) && Finish(k) !in steps
  }

  /** The module table: the one at the beginning, overwritten by the rows of each refresh. */
  function TableAfter(table: map<string, ModuleInfo>, steps: seq<Step>): map<string, ModuleInfo> {
    if steps == [] then table
    else
      var last, before := steps[|steps| - 1], TableAfter(table, steps[..|steps| - 1]);
      if last.Refresh? then before + last.rows else before
  }

  lemma CutAfterFirst(steps: seq<Step>, n: nat)
    requires 0 < n <= |steps|
    ensures steps[..n][0] == steps[0] && steps[..n][1..] == steps[1..][..n - 1] && steps[n..] == steps[1..][n - 1..]
  {
  }

  lemma {:induction false} RunSplit(waves: seq<Wave>, s: State, steps: seq<Step>, n: nat)
    requires Legal(waves, s, steps) && n <= |steps|
    ensures Legal(waves, s, steps[..n]) && Legal(waves, Final(waves, s, steps[..n]), steps[n..])
    ensures Final(waves, s, steps) == Final(waves, Final(waves, s, steps[..n]), steps[n..])
    decreases n
  {
    if n > 0 {
      CutAfterFirst(steps, n);
      hide Fire, Enabled, Located;
      RunSplit(waves, Fire(waves, s, steps[0]), steps[1..], n - 1);
    } else {
      assert steps[..0] == [] && steps[0..] == steps;
    }
  }

  /** The program counter after the first `n` steps. */
  function PcAt(waves: seq<Wave>, table: map<string, ModuleInfo>, steps: seq<Step>, n: nat): Pc
    requires Legal(waves, Initial(waves, table), steps) && n <= |steps|
  {
    RunSplit(waves, Initial(waves, table), steps, n);
    Final(waves, Initial(waves, table), steps[..n]).pc
  }

  /** Step `n` is a refresh of wave `w`. */
  predicate RefreshesAt(waves: seq<Wave>, table: map<string, ModuleInfo>, steps: seq<Step>, n: nat, w: nat)
    requires Legal(waves, Initial(waves, table), steps) && n < |steps|
  {
    steps[n].Refresh? && PcAt(waves, table, steps, n) == Refreshing(w)
  }

  /** Step `n` checks thread `k`, item `i` of wave `w`; the table then gives its module this status. */
  predicate ReadsAt(waves: seq<Wave>, table: map<string, ModuleInfo>, steps: seq<Step>, n: nat, w: nat, i: nat, status: string)
    requires Legal(waves, Initial(waves, table), steps) && n < |steps|
  {
    && steps[n] == Check && InWave(waves, w, i) && PcAt(waves, table, steps, n) == Checking(w, i)
    && waves[w].moduleIds[i] in TableAfter(table, steps[..n])
    && TableAfter(table, steps[..n])[waves[w].moduleIds[i]].status == status
  }

  ghost predicate Refreshed(waves: seq<Wave>, table: map<string, ModuleInfo>, steps: seq<Step>, n: nat, w: nat)
    requires Legal(waves, Initial(waves, table), steps) && n <= |steps|
  {
    exists m :: 0 <= m < n && RefreshesAt(waves, table, steps, m, w)
  }

  /** After a refresh of its wave, the module of thread `k` was read as deployed. */
  ghost predicate WasDeployed(waves: seq<Wave>, table: map<string, ModuleInfo>, steps: seq<Step>, k: nat)
    requires Legal(waves, Initial(waves, table), steps)
  {
    exists n: nat, w: nat, i: nat ::
      && n < |steps| && ReadsAt(waves, table, steps, n, w, i, "deployed") && k == Offset(waves, w) + i
      && Refreshed(waves, table, steps, n, w)
  }

  /** In wave `w` a refresh failed, or a module was read with another status than deployed. */
  ghost predicate HasFailed(waves: seq<Wave>, table: map<string, ModuleInfo>, steps: seq<Step>, w: nat)
    requires Legal(waves, Initial(waves, table), steps)
  {
    exists n: nat :: n < |steps| && FailsAt(waves, table, steps, n, w)
  }

  ghost predicate FailsAt(waves: seq<Wave>, table: map<string, ModuleInfo>, steps: seq<Step>, n: nat, w: nat)
    requires Legal(waves, Initial(waves, table), steps) && n < |steps|
  {
    || (steps[n] == RefreshFails && PcAt(waves, table, steps, n) == Refreshing(w))
    || exists i: nat, status :: status != "deployed" && ReadsAt(waves, table, steps, n, w, i, status)
  }

  // ---------------------------------------------------------------- the state is what the steps say

  lemma PcAtPrefix(waves: seq<Wave>, table: map<string, ModuleInfo>, steps: seq<Step>, m: nat, n: nat)
    requires Legal(waves, Initial(waves, table), steps) && n <= m <= |steps|
    ensures Legal(waves, Initial(waves, table), steps[..m])
    ensures PcAt(waves, table, steps[..m], n) == PcAt(waves, table, steps, n) && steps[..m][..n] == steps[..n]
  {
    RunSplit(waves, Initial(waves, table), steps, m);
    assert steps[..m][..n] == steps[..n];
  }

  lemma ReadsLater(waves: seq<Wave>, table: map<string, ModuleInfo>, steps: seq<Step>, m: nat, n: nat, w: nat, i: nat, status: string)
    requires Legal(waves, Initial(waves, table), steps) && n < m <= |steps|
    ensures Legal(waves, Initial(waves, table), steps[..m])
    ensures ReadsAt(waves, table, steps[..m], n, w, i, status) <==> ReadsAt(waves, table, steps, n, w, i, status)
    ensures RefreshesAt(waves, table, steps[..m], n, w) <==> RefreshesAt(waves, table, steps, n, w)
  {
    PcAtPrefix(waves, table, steps, m, n);
  }

  lemma RefreshedLater(waves: seq<Wave>, table: map<string, ModuleInfo>, steps: seq<Step>, m: nat, n: nat, w: nat)
    requires Legal(waves, Initial(waves, table), steps) && n <= m <= |steps|
    ensures Legal(waves, Initial(waves, table), steps[..m])
    ensures Refreshed(waves, table, steps[..m], n, w) <==> Refreshed(waves, table, steps, n, w)
  {
    PcAtPrefix(waves, table, steps, m, n);
    forall j | 0 <= j < n ensures RefreshesAt(waves, table, steps[..m], j, w) <==> RefreshesAt(waves, table, steps, j, w) {
      ReadsLater(waves, table, steps, m, j, w, 0, "");
    }
  }

  lemma WasDeployedLater(waves: seq<Wave>, table: map<string, ModuleInfo>, steps: seq<Step>, m: nat, k: nat)
    requires Legal(waves, Initial(waves, table), steps) && m <= |steps| && Legal(waves, Initial(waves, table), steps[..m])
    requires WasDeployed(waves, table, steps[..m], k)
    ensures WasDeployed(waves, table, steps, k)
  {
    var n: nat, w: nat, i: nat :|
      && n < m && ReadsAt(waves, table, steps[..m], n, w, i, "deployed") && k == Offset(waves, w) + i
      && Refreshed(waves, table, steps[..m], n, w);
    ReadsLater(waves, table, steps, m, n, w, i, "deployed");
    RefreshedLater(waves, table, steps, m, n, w);
  }

  /** What the state records is what the steps so far say. */
  ghost predicate Recorded(waves: seq<Wave>, table: map<string, ModuleInfo>, steps: seq<Step>, s: State)
    requires Legal(waves, Initial(waves, table), steps)
  {
    && s.table == TableAfter(table, steps) && |s.started| == Starts(steps)
    && (forall k: nat :: k in s.running <==> IsRunning(steps, k))
    && (forall k: nat | Finish(k) in steps :: k < Starts(steps))
    && Located(waves, s.pc)
    && (forall k: nat | k < CheckedCount(waves, s.pc) :: WasDeployed(waves, table, steps, k))
    && (s.pc.Checking? ==> Refreshed(waves, table, steps, |steps|, s.pc.wave))
    && (s.pc.Aborted? ==> HasFailed(waves, table, steps, s.pc.wave))
  }

  lemma LastStep(waves: seq<Wave>, s: State, steps: seq<Step>)
    requires Legal(waves, s, steps) && steps != []
    ensures var before, last := steps[..|steps| - 1], steps[|steps| - 1];
            && Legal(waves, s, before) && Located(waves, Final(waves, s, before).pc)
            && Enabled(waves, Final(waves, s, before), last)
            && Final(waves, s, steps) == Fire(waves, Final(waves, s, before), last)
  {
    var n := |steps| - 1;
    RunSplit(waves, s, steps, n);
    assert steps[n..] == [steps[n]] && steps[n..][1..] == [];
  }

  lemma CountsAre(table: map<string, ModuleInfo>, before: seq<Step>, last: Step)
    ensures Starts(before + [last]) == Starts(before) + if last == Start then 1 else 0
    ensures TableAfter(table, before + [last])
         == if last.Refresh? then TableAfter(table, before) + last.rows else TableAfter(table, before)
  {
    assert (before + [last])[..|before|] == before;
  }

  lemma RunningIs(waves: seq<Wave>, table: map<string, ModuleInfo>, before: seq<Step>, s: State, last: Step)
    requires Legal(waves, Initial(waves, table), before) && Inv(waves, s) && Enabled(waves, s, last)
    requires Recorded(waves, table, before, s)
    ensures var s', steps := Fire(waves, s, last), before + [last];
            && |s'.started| == Starts(steps) && s'.table == TableAfter(table, steps)
            && (forall k: nat :: k in s'.running <==> IsRunning(steps, k))
            && (forall k: nat | Finish(k) in steps :: k < Starts(steps))
  {
    CountsAre(table, before, last);
    assert |s.started| == StartedCount(waves, s.pc);
  }

  /** A step other than a successful check checks nothing. */
  lemma CheckedCountKept(waves: seq<Wave>, s: State, last: Step)
    requires Inv(waves, s) && Enabled(waves, s, last) && Located(waves, Fire(waves, s, last).pc)
    ensures var s' := Fire(waves, s, last);
            CheckedCount(waves, s'.pc) <= CheckedCount(waves, s.pc)
                                          + if last.Check? && !s'.pc.Aborted? then 1 else 0
  {
  }

  /** The last step is taken in state `s`. */
  ghost predicate TakesLast(waves: seq<Wave>, table: map<string, ModuleInfo>, steps: seq<Step>, s: State)
    requires Legal(waves, Initial(waves, table), steps)
  {
    && steps != []
    && var n := |steps| - 1;
       && Legal(waves, Initial(waves, table), steps[..n]) && PcAt(waves, table, steps, n) == s.pc
       && Located(waves, s.pc) && Enabled(waves, s, steps[n]) && Recorded(waves, table, steps[..n], s)
  }

  lemma StepIsRecorded(waves: seq<Wave>, table: map<string, ModuleInfo>, steps: seq<Step>, s: State)
    requires Legal(waves, Initial(waves, table), steps) && TakesLast(waves, table, steps, s) && Inv(waves, s)
    ensures Recorded(waves, table, steps, Fire(waves, s, steps[|steps| - 1]))
  {
    var n := |steps| - 1;
    var last := steps[n];
    assert steps[..n] + [last] == steps;
    StepKeepsInvariant(waves, s, last);
    RunningIs(waves, table, steps[..n], s, last);
    CheckedAreRecorded(waves, table, steps, s);
    RefreshIsRecorded(waves, table, steps, s);
    AbortIsRecorded(waves, table, steps, s);
    assert Located(waves, Fire(waves, s, last).pc);
    hide Starts, IsRunning, PcAt, WasDeployed, Refreshed, HasFailed, TableAfter, Legal, Fire, Enabled, CheckedCount, Inv, Located;
  }

  lemma CheckedAreRecorded(waves: seq<Wave>, table: map<string, ModuleInfo>, steps: seq<Step>, s: State)
    requires Legal(waves, Initial(waves, table), steps) && TakesLast(waves, table, steps, s) && Inv(waves, s)
    ensures var s' := Fire(waves, s, steps[|steps| - 1]);
            Located(waves, s'.pc) && forall k: nat | k < CheckedCount(waves, s'.pc) :: WasDeployed(waves, table, steps, k)
  {
    var n := |steps| - 1;
    var last := steps[n];
    var s' := Fire(waves, s, last);
    StepKeepsInvariant(waves, s, last);
    assert Located(waves, s'.pc);
    CheckedCountKept(waves, s, last);
    if last.Check? && !s'.pc.Aborted? {
      CheckIsRecorded(waves, table, steps, s);
    }
    hide Inv, Starts, IsRunning, PcAt, WasDeployed, Refreshed, HasFailed, TableAfter, Legal, Fire, CheckedCount, Enabled;
    forall k: nat | k < CheckedCount(waves, s'.pc) ensures WasDeployed(waves, table, steps, k) {
      if k < CheckedCount(waves, s.pc) {
        WasDeployedLater(waves, table, steps, n, k);
      }
    }
  }

  lemma CheckIsRecorded(waves: seq<Wave>, table: map<string, ModuleInfo>, steps: seq<Step>, s: State)
    requires Legal(waves, Initial(waves, table), steps) && TakesLast(waves, table, steps, s)
    requires steps[|steps| - 1] == Check && !Fire(waves, s, Check).pc.Aborted?
    ensures WasDeployed(waves, table, steps, CheckedCount(waves, s.pc))
  {
    hide WasDeployed, HasFailed, Refreshed, PcAt, TableAfter, Legal, Starts, IsRunning;
    var n, w, i := |steps| - 1, s.pc.wave, s.pc.i;
    RefreshedLater(waves, table, steps, n, n, w);
    assert ReadsAt(waves, table, steps, n, w, i, "deployed");
    Witness(waves, table, steps, n, w, i);
  }

  lemma Witness(waves: seq<Wave>, table: map<string, ModuleInfo>, steps: seq<Step>, n: nat, w: nat, i: nat)
    requires Legal(waves, Initial(waves, table), steps) && n < |steps|
    requires ReadsAt(waves, table, steps, n, w, i, "deployed") && Refreshed(waves, table, steps, n, w)
    ensures WasDeployed(waves, table, steps, Offset(waves, w) + i)
  {
  }

  lemma RefreshIsRecorded(waves: seq<Wave>, table: map<string, ModuleInfo>, steps: seq<Step>, s: State)
    requires Legal(waves, Initial(waves, table), steps) && TakesLast(waves, table, steps, s)
    ensures var s' := Fire(waves, s, steps[|steps| - 1]);
            s'.pc.Checking? ==> Refreshed(waves, table, steps, |steps|, s'.pc.wave)
  {
    hide WasDeployed, HasFailed, PcAt, TableAfter, Legal, Starts, IsRunning;
    var n := |steps| - 1;
    var s' := Fire(waves, s, steps[n]);
    if s'.pc.Checking? {
      var w := s'.pc.wave;
      if steps[n].Refresh? {
        assert RefreshesAt(waves, table, steps, n, w);
      } else {
        RefreshedLater(waves, table, steps, n, n, w);
        var m :| 0 <= m < n && RefreshesAt(waves, table, steps, m, w);
      }
    }
  }

  lemma AbortIsRecorded(waves: seq<Wave>, table: map<string, ModuleInfo>, steps: seq<Step>, s: State)
    requires Legal(waves, Initial(waves, table), steps) && TakesLast(waves, table, steps, s)
    ensures var s' := Fire(waves, s, steps[|steps| - 1]);
            s'.pc.Aborted? ==> HasFailed(waves, table, steps, s'.pc.wave)
  {
    hide WasDeployed, Refreshed, PcAt, TableAfter, Legal, Starts, IsRunning;
    var n := |steps| - 1;
    var s' := Fire(waves, s, steps[n]);
    if s'.pc.Aborted? {
      var w := s'.pc.wave;
      match steps[n]
      case RefreshFails =>
        assert FailsAt(waves, table, steps, n, w);
      case Check =>
        assert ReadsAt(waves, table, steps, n, w, s.pc.i, s.table[waves[w].moduleIds[s.pc.i]].status);
        assert FailsAt(waves, table, steps, n, w);
      case Finish(_) =>
        FailedLater(waves, table, steps, n, w);
      case _ =>
    }
  }

  lemma FailedLater(waves: seq<Wave>, table: map<string, ModuleInfo>, steps: seq<Step>, m: nat, w: nat)
    requires Legal(waves, Initial(waves, table), steps) && m <= |steps| && Legal(waves, Initial(waves, table), steps[..m])
    requires HasFailed(waves, table, steps[..m], w)
    ensures HasFailed(waves, table, steps, w)
  {
    var n: nat :| n < m && FailsAt(waves, table, steps[..m], n, w);
    PcAtPrefix(waves, table, steps, m, n);
    if steps[n] != RefreshFails || PcAt(waves, table, steps, n) != Refreshing(w) {
      var i: nat, status :| status != "deployed" && ReadsAt(waves, table, steps[..m], n, w, i, status);
      ReadsLater(waves, table, steps, m, n, w, i, status);
    }
    assert FailsAt(waves, table, steps, n, w);
  }

  lemma {:induction false} RunIsRecorded(waves: seq<Wave>, table: map<string, ModuleInfo>, steps: seq<Step>)
    requires Legal(waves, Initial(waves, table), steps) && Inv(waves, Initial(waves, table))
    ensures Recorded(waves, table, steps, Final(waves, Initial(waves, table), steps))
    decreases |steps|
  {
    if steps != [] {
      var before := steps[..|steps| - 1];
      LastStep(waves, Initial(waves, table), steps);
      RunIsRecorded(waves, table, before);
      RunKeepsInvariant(waves, Initial(waves, table), before);
      RunSplit(waves, Initial(waves, table), steps, |before|);
      hide Recorded, Inv;
      StepIsRecorded(waves, table, steps, Final(waves, Initial(waves, table), before));
    }
  }

  // ---------------------------------------------------------------- main results

  /** The waves of a deployment, and the state after some of its steps. */
  lemma DeploymentIsRecorded(ids: seq<string>, modules: map<string, ModuleInfo>, upgrade: bool, priority: string -> int,
                             steps: seq<Step>)
    requires Order(ids, modules, upgrade, priority).Ok?
    requires var waves := Waves(Order(ids, modules, upgrade, priority).value);
             Legal(waves, Initial(waves, modules), steps)
    ensures var waves := Waves(Order(ids, modules, upgrade, priority).value);
            var s := Final(waves, Initial(waves, modules), steps);
            Inv(waves, s) && Recorded(waves, modules, steps, s)
  {
    hide Inv, Waves, Order, Recorded;
    DeploymentKeepsInvariant(ids, modules, upgrade, priority, steps);
    DeploymentKeepsInvariant(ids, modules, upgrade, priority, []);
    RunIsRecorded(Waves(Order(ids, modules, upgrade, priority).value), modules, steps);
  }

  /** Whatever the interleaving: the modules started are a prefix of the deployment order; running modules share one
      priority; and when a module is started, each one of a smaller priority has stopped, and was read as deployed
      after a refresh of its wave. */
  lemma SafetyOfRuns(ids: seq<string>, modules: map<string, ModuleInfo>, upgrade: bool, priority: string -> int, steps: seq<Step>)
    requires Order(ids, modules, upgrade, priority).Ok?
    requires var waves := Waves(Order(ids, modules, upgrade, priority).value);
             Legal(waves, Initial(waves, modules), steps)
    ensures var items := Order(ids, modules, upgrade, priority).value;
            var waves := Waves(items);
            && Starts(steps) <= |items|
            && Final(waves, Initial(waves, modules), steps).started == Ids(items)[..Starts(steps)]
            && (forall k: nat, l: nat | IsRunning(steps, k) && IsRunning(steps, l) :: items[k].priority == items[l].priority)
            && (forall k: nat, l: nat | k < l < Starts(steps) && items[k].priority < items[l].priority ::
                  !IsRunning(steps, k) && WasDeployed(waves, modules, steps, k))
  {
    hide Inv, Waves, Order, WasDeployed, IsRunning, HasFailed, Refreshed;
    var waves := Waves(Order(ids, modules, upgrade, priority).value);
    DeploymentIsRecorded(ids, modules, upgrade, priority, steps);
    DeploymentKeepsInvariant(ids, modules, upgrade, priority, steps);
    SafetyOfState(waves, Final(waves, Initial(waves, modules), steps));
  }

  /** Once a deployment has aborted in a wave nothing happens any more, nothing is running, and the modules started are
      those of this wave and the waves before it. And it has a reason: the refresh after that wave failed, or a
      module of the wave was read with another status than deployed. */
  lemma AbortStops(ids: seq<string>, modules: map<string, ModuleInfo>, upgrade: bool, priority: string -> int,
                   steps: seq<Step>, more: seq<Step>)
    requires Order(ids, modules, upgrade, priority).Ok?
    requires var waves := Waves(Order(ids, modules, upgrade, priority).value);
             && Legal(waves, Initial(waves, modules), steps)
             && var s := Final(waves, Initial(waves, modules), steps); s.pc.Aborted? && Legal(waves, s, more)
    ensures var waves := Waves(Order(ids, modules, upgrade, priority).value);
            var s := Final(waves, Initial(waves, modules), steps);
            && more == [] && (forall k :: !IsRunning(steps, k))
            && s.pc.wave < |waves| && s.started == Ids(Flatten(waves[..s.pc.wave + 1])) && Starts(steps) == |s.started|
            && HasFailed(waves, modules, steps, s.pc.wave)
  {
    hide Inv, Waves, Flatten, Order, Ids, ProperWaves, HasFailed, WasDeployed, IsRunning;
    var waves := Waves(Order(ids, modules, upgrade, priority).value);
    DeploymentIsRecorded(ids, modules, upgrade, priority, steps);
    AbortedStops(waves, Final(waves, Initial(waves, modules), steps), more);
  }

  /** Every deployment of `n` modules in `m` waves stops within `4n + m` steps, however threads interleave; it can only
      stop finished or aborted, and if it finished every module was started in order and read as deployed. */
  lemma RunsTerminate(ids: seq<string>, modules: map<string, ModuleInfo>, upgrade: bool, priority: string -> int, steps: seq<Step>)
    requires Order(ids, modules, upgrade, priority).Ok?
    requires var waves := Waves(Order(ids, modules, upgrade, priority).value);
             Legal(waves, Initial(waves, modules), steps)
    ensures var items := Order(ids, modules, upgrade, priority).value;
            var waves := Waves(items);
            var s := Final(waves, Initial(waves, modules), steps);
            && |steps| <= 4 * |items| + |waves| && Located(waves, s.pc)
            && ((forall step :: !Enabled(waves, s, step)) <==> s.pc.Finished? || s.pc.Aborted?)
            && (s.pc.Finished? ==>
                  && s.started == Ids(items) && Starts(steps) == |items|
                  && forall k: nat | k < |items| :: WasDeployed(waves, modules, steps, k))
  {
    hide Inv, Flatten, Waves, Order, WasDeployed, HasFailed;
    var items := Order(ids, modules, upgrade, priority).value;
    var waves := Waves(items);
    DeploymentKeepsInvariant(ids, modules, upgrade, priority, steps);
    DeploymentIsRecorded(ids, modules, upgrade, priority, steps);
    RunsOfWaves(waves, modules, steps);
    FlattenLength(waves);
  }
}
