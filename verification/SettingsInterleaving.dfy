/** The stacks of several modules, each with its own life cycle, sharing the two tables. Their table operations
    interleave one by one; any run may fail anywhere and be rolled back, retried or undone. */
module SettingsInterleaving {
  import opened Wrappers
  import opened SettingsHandler
  import opened SettingsRuns
  import opened SettingsLifecycle

  datatype Phase =
    | Idle(current: seq<Setting>, last: Option<Request>)
    | Running(todo: seq<Op>, req: Request)
    | Broken(before: seq<Setting>, after: seq<Setting>)

  /** `last` is the request of the last run that was completed; `log` the operations performed so far. */
  datatype System = System(db: Db, phases: map<string, Phase>, log: seq<Op>)

  datatype Event =
    | Begin(moduleId: string, req: Request)
    | Exec(moduleId: string)
    | Finish(moduleId: string)
    | Fail(moduleId: string)

  // ---------------------------------------------------------------- what the events do

  function Before(req: Request): seq<Setting>
    requires req.settings.Some?
  {
    if req.kind.Delete? then req.settings.value else if req.previous.Some? then req.previous.value else []
  }

  function After(req: Request): seq<Setting>
    requires req.settings.Some?
  {
    if req.kind.Delete? then [] else req.settings.value
  }

  /** The row of a module after a completed run. */
  function RowOf(req: Request): ModuleRow {
    if req.kind == Delete then ModuleRow("not-deployed", None, None)
    else ModuleRow("deployed", Some(req.clusterName + "-" + req.moduleId), req.version)
  }

  /** CloudFormation's protocol: create from nothing, update from the current settings, delete the current settings;
      after a failure, roll the update back, retry it, undo a failed creation or retry a deletion. */
  predicate MayBegin(phase: Phase, req: Request) {
    && req.settings.Some? && IsDict(Before(req)) && IsDict(After(req))
    && (req.kind.Update? <==> req.previous.Some?)
    && match phase
       case Running(_, _) => false
       case Idle(current, _) => Before(req) == current
       case Broken(before, after) =>
         || (Before(req) == after && After(req) == before)
         || (Before(req) == before && After(req) == after)
  }

  predicate Enabled(sys: System, e: Event) {
    && e.moduleId in sys.phases
    && var phase := sys.phases[e.moduleId];
       match e
       case Begin(m, req) => req.moduleId == m && MayBegin(phase, req)
       case Exec(_) => phase.Running? && phase.todo != []
       case Finish(_) => phase.Running? && phase.todo == [] && phase.req.settings.Some?
       case Fail(_) => phase.Running? && phase.req.settings.Some?
  }

  function Fire(sys: System, e: Event): System
    requires Enabled(sys, e)
  {
    var m, phase := e.moduleId, sys.phases[e.moduleId];
    match e
    case Begin(_, req) => sys.(phases := sys.phases[m := Running(Plan(req), req)])
    case Exec(_) =>
      System(Apply(phase.todo[0], sys.db), sys.phases[m := phase.(todo := phase.todo[1..])], sys.log + [phase.todo[0]])
    case Finish(_) => sys.(phases := sys.phases[m := Idle(After(phase.req), Some(phase.req))])
    case Fail(_) => sys.(phases := sys.phases[m := Broken(Before(phase.req), After(phase.req))])
  }

  predicate Legal(sys: System, events: seq<Event>)
    decreases events
  {
    events == [] || (Enabled(sys, events[0]) && Legal(Fire(sys, events[0]), events[1..]))
  }

  function Final(sys: System, events: seq<Event>): System
    requires Legal(sys, events)
    decreases events
  {
    if events == [] then sys else Final(Fire(sys, events[0]), events[1..])
  }

  // ---------------------------------------------------------------- one module's part of the tables

  predicate FromStack(db: Db, key: string) {
    key in db.settings && db.settings[key].source == Some("stack")
  }

  ghost predicate Within(db: Db, m: string, s: seq<Setting>, t: seq<Setting>) {
    forall key | IsOf(m, key) && FromStack(db, key) :: InKeys(m, s, key) || InKeys(m, t, key)
  }

  /** The items of the module written by its stack are exactly these settings. */
  ghost predicate StackKeysAre(db: Db, m: string, s: seq<Setting>) {
    Holds(db, m, s) && Within(db, m, s, [])
  }

  ghost predicate RowIs(db: Db, m: string, row: ModuleRow) {
    m in db.modules && db.modules[m] == row
  }

  ghost predicate SamePart(a: Db, b: Db, m: string) {
    && (forall key | IsOf(m, key) :: Find(a.settings, key) == Find(b.settings, key))
    && Find(a.modules, m) == Find(b.modules, m)
  }

  lemma SamePartSameItems(a: Db, b: Db, m: string, s: seq<Setting>, t: seq<Setting>)
    requires SamePart(a, b, m)
    ensures Within(a, m, s, t) ==> Within(b, m, s, t)
    ensures Holds(a, m, s) ==> Holds(b, m, s)
    ensures forall row :: RowIs(a, m, row) ==> RowIs(b, m, row)
  {
    forall key | IsOf(m, key) ensures FromStack(a, key) <==> FromStack(b, key) {
      assert Find(a.settings, key) == Find(b.settings, key);
    }
    forall i | 0 <= i < |s| ensures Find(a.settings, ConfigKey(m, s[i].key)) == Find(b.settings, ConfigKey(m, s[i].key)) {
      KeyIsOf(m, s[i].key);
    }
  }

  lemma {:induction false} SamePartKept(ops: seq<Op>, a: Db, b: Db, m: string)
    requires SamePart(a, b, m)
    ensures SamePart(ApplyAll(ops, a), ApplyAll(ops, b), m)
    decreases ops
  {
    if ops != [] {
      SamePartKept(ops[1..], Apply(ops[0], a), Apply(ops[0], b), m);
    }
  }

  /** An operation of another module leaves this module's part alone. */
  lemma ForeignOp(op: Op, db: Db, m: string, n: string)
    requires m != n && '.' !in m && '.' !in n
    requires if op.Mark? then op.moduleId == n else IsOf(n, op.key)
    ensures SamePart(db, Apply(op, db), m)
  {
    forall key | IsOf(m, key) ensures Find(db.settings, key) == Find(Apply(op, db).settings, key) {
      if !op.Mark? && op.key == key {
        OwnersDiffer(m, n, key);
      }
    }
  }

  // ---------------------------------------------------------------- a whole plan

  lemma {:induction false} NoMark(ops: seq<Op>, db: Db)
    requires forall i | 0 <= i < |ops| :: !ops[i].Mark?
    ensures ApplyAll(ops, db).modules == db.modules
    decreases ops
  {
    if ops != [] {
      NoMark(ops[1..], Apply(ops[0], db));
    }
  }

  lemma PlanRow(req: Request, db: Db)
    requires req.settings.Some?
    ensures RowIs(ApplyAll(Plan(req), db), req.moduleId, RowOf(req))
  {
    var m, settings := req.moduleId, req.settings.value;
    var first := if req.kind.Delete? then Drops(m, settings) else Puts(m, settings);
    var mark := if req.kind.Delete? then NotDeployed(req) else Deployed(req);
    var last := if req.kind.Delete? || req.previous.None? then [] else Drops(m, NoLonger(req.previous.value, settings));
    assert Plan(req) == first + [mark] + last;
    ApplyAllConcat(first + [mark], last, db);
    ApplyAllSnoc(first, mark, db);
    NoMark(last, ApplyAll(first + [mark], db));
  }

  /** From any table whose stack items of the module are among the old and the new settings, a complete run
      leaves exactly the new ones. */
  lemma PlanReaches(req: Request, db: Db)
    requires req.settings.Some? && IsDict(req.settings.value) && (req.kind.Update? <==> req.previous.Some?)
    requires Within(db, req.moduleId, Before(req), After(req))
    ensures StackKeysAre(ApplyAll(Plan(req), db), req.moduleId, After(req))
  {
    var m := req.moduleId;
    var db' := ApplyAll(Plan(req), db);
    forall i | 0 <= i < |After(req)|
      ensures var key := ConfigKey(m, After(req)[i].key);
              key in db'.settings && db'.settings[key].value == After(req)[i].value && FromStack(db', key)
    {
      var key := ConfigKey(m, After(req)[i].key);
      assert InKeys(m, After(req), key);
      PlanLast(req, key);
      LastOpDecides(Plan(req), db, key);
      var j :| 0 <= j < |After(req)| && ConfigKey(m, After(req)[j].key) == key
               && LastOp(Plan(req), key) == Some(Put(key, After(req)[j].value));
      DictValue(m, After(req), i, j);
    }
    forall key | IsOf(m, key) && FromStack(db', key) ensures InKeys(m, After(req), key) {
      PlanLast(req, key);
      LastOpDecides(Plan(req), db, key);
    }
  }

  // ---------------------------------------------------------------- the invariant

  /** An idle module's stack items are its current settings. A running module's would be the new settings if its
      remaining operations ran now, and meanwhile lie among the old and the new ones. */
  ghost predicate PhaseHolds(db: Db, m: string, phase: Phase) {
    match phase
    case Idle(current, last) =>
      IsDict(current) && StackKeysAre(db, m, current) && (last.Some? ==> last.value.moduleId == m && RowIs(db, m, RowOf(last.value)))
    case Running(todo, req) =>
      && req.moduleId == m && req.settings.Some? && IsDict(Before(req)) && IsDict(After(req))
      && OnlyTouches(m, Before(req), After(req), todo) && Within(db, m, Before(req), After(req))
      && StackKeysAre(ApplyAll(todo, db), m, After(req)) && RowIs(ApplyAll(todo, db), m, RowOf(req))
    case Broken(before, after) => IsDict(before) && IsDict(after) && Within(db, m, before, after)
  }

  ghost predicate Inv(sys: System) {
    forall m | m in sys.phases :: '.' !in m && PhaseHolds(sys.db, m, sys.phases[m])
  }

  lemma PhaseKept(a: Db, b: Db, m: string, phase: Phase)
    requires SamePart(a, b, m) && PhaseHolds(a, m, phase)
    ensures PhaseHolds(b, m, phase)
  {
    match phase
    case Idle(current, _) => SamePartSameItems(a, b, m, current, []);
    case Running(todo, req) =>
      SamePartKept(todo, a, b, m);
      SamePartSameItems(a, b, m, Before(req), After(req));
      SamePartSameItems(ApplyAll(todo, a), ApplyAll(todo, b), m, After(req), []);
    case Broken(before, after) => SamePartSameItems(a, b, m, before, after);
  }

  lemma BeginHolds(db: Db, phase: Phase, req: Request)
    requires PhaseHolds(db, req.moduleId, phase) && MayBegin(phase, req)
    ensures PhaseHolds(db, req.moduleId, Running(Plan(req), req))
  {
    var m := req.moduleId;
    assert Within(db, m, Before(req), After(req));
    PlanReaches(req, db);
    PlanRow(req, db);
    PlanTouches(req, |Plan(req)|);
    assert Plan(req)[..|Plan(req)|] == Plan(req);
  }

  lemma ExecHolds(db: Db, m: string, phase: Phase)
    requires PhaseHolds(db, m, phase) && phase.Running? && phase.todo != []
    ensures PhaseHolds(Apply(phase.todo[0], db), m, phase.(todo := phase.todo[1..]))
  {
    var op, db' := phase.todo[0], Apply(phase.todo[0], db);
    forall key | IsOf(m, key) && FromStack(db', key)
      ensures InKeys(m, Before(phase.req), key) || InKeys(m, After(phase.req), key)
    {
      if Touches(op, key) {
        assert InKeys(m, Before(phase.req), op.key) || InKeys(m, After(phase.req), op.key);
      } else {
        assert FromStack(db, key);
      }
    }
  }

  /** Every event keeps the invariant. */
  lemma EventKeepsInvariant(sys: System, e: Event)
    requires Inv(sys) && Enabled(sys, e)
    ensures Inv(Fire(sys, e))
  {
    var m, sys' := e.moduleId, Fire(sys, e);
    var phase := sys.phases[m];
    assert PhaseHolds(sys.db, m, phase);
    match e {
      case Begin(_, req) => BeginHolds(sys.db, phase, req);
      case Exec(_) =>
        ExecHolds(sys.db, m, phase);
        var op := phase.todo[0];
        OwnKey(m, Before(phase.req), After(phase.req), op);
        forall n | n in sys.phases && n != m ensures PhaseHolds(sys'.db, n, sys.phases[n]) {
          ForeignOp(op, sys.db, n, m);
          PhaseKept(sys.db, sys'.db, n, sys.phases[n]);
        }
      case Finish(_) =>
        assert ApplyAll([], sys.db) == sys.db;
      case Fail(_) =>
    }
    forall n | n in sys'.phases ensures PhaseHolds(sys'.db, n, sys'.phases[n]) {
      if n != m {
        assert PhaseHolds(sys.db, n, sys.phases[n]);
      }
    }
  }

  lemma OwnKey(m: string, before: seq<Setting>, after: seq<Setting>, op: Op)
    requires !op.Mark? ==> InKeys(m, before, op.key) || InKeys(m, after, op.key)
    ensures !op.Mark? ==> IsOf(m, op.key)
  {
    if !op.Mark? {
      var s := if InKeys(m, before, op.key) then before else after;
      var i :| 0 <= i < |s| && ConfigKey(m, s[i].key) == op.key;
      KeyIsOf(m, s[i].key);
    }
  }

  /** In every reachable state, whatever the interleaving and the failures, the invariant holds. */
  lemma {:induction false} HistoryKeepsInvariant(sys: System, events: seq<Event>)
    requires Inv(sys) && Legal(sys, events)
    ensures Inv(Final(sys, events))
    decreases events
  {
    if events != [] {
      EventKeepsInvariant(sys, events[0]);
      HistoryKeepsInvariant(Fire(sys, events[0]), events[1..]);
    }
  }

  // ---------------------------------------------------------------- main results

  /** No stack exists yet, and no item claims to come from one. */
  ghost predicate Initial(sys: System) {
    && sys.log == []
    && (forall m | m in sys.phases :: '.' !in m && sys.phases[m] == Idle([], None))
    && (forall key | key in sys.db.settings :: sys.db.settings[key].source != Some("stack"))
  }

  /** After any legal history, each idle module's stack-written items are exactly its current settings, with
      their values (so none after a deletion), and its row says what its last completed run made of it. */
  lemma LifecycleInvariant(sys: System, events: seq<Event>, m: string)
    requires Initial(sys) && Legal(sys, events)
    requires m in Final(sys, events).phases && Final(sys, events).phases[m].Idle?
    ensures var end := Final(sys, events);
            && StackKeysAre(end.db, m, end.phases[m].current)
            && (end.phases[m].last.Some? ==>
                  var req := end.phases[m].last.value;
                  && m in end.db.modules
                  && end.db.modules[m] == if req.kind == Delete then ModuleRow("not-deployed", None, None)
                                          else ModuleRow("deployed", Some(req.clusterName + "-" + m), req.version))
  {
    HistoryKeepsInvariant(sys, events);
    assert PhaseHolds(Final(sys, events).db, m, Final(sys, events).phases[m]);
  }

  lemma {:induction false} LogIsHistory(sys: System, events: seq<Event>, db0: Db)
    requires Legal(sys, events) && sys.db == ApplyAll(sys.log, db0)
    ensures Final(sys, events).db == ApplyAll(Final(sys, events).log, db0)
    decreases events
  {
    if events != [] {
      if events[0].Exec? {
        ApplyAllSnoc(sys.log, sys.phases[events[0].moduleId].todo[0], db0);
      }
      LogIsHistory(Fire(sys, events[0]), events[1..], db0);
    }
  }

  /** An item absent at the start is there exactly when it was written since its last deletion, and its version
      is the number of those writes; whatever modules wrote it, in whatever order. */
  lemma VersionsInHistory(sys: System, events: seq<Event>, key: string)
    requires Initial(sys) && Legal(sys, events) && key !in sys.db.settings
    ensures var end := Final(sys, events);
            && (key in end.db.settings <==> Writes(end.log, key) > 0)
            && (key in end.db.settings ==> end.db.settings[key].version == Some(Writes(end.log, key)))
  {
    LogIsHistory(sys, events, sys.db);
    VersionCountsWrites(Final(sys, events).log, sys.db, key);
  }

  /** Items that belong to none of the modules are never touched. */
  lemma {:induction false} ForeignItemsUntouched(sys: System, events: seq<Event>, key: string)
    requires Inv(sys) && Legal(sys, events)
    requires forall m | m in sys.phases :: !IsOf(m, key)
    ensures Find(Final(sys, events).db.settings, key) == Find(sys.db.settings, key)
    decreases events
  {
    if events != [] {
      var e := events[0];
      if e.Exec? {
        var phase := sys.phases[e.moduleId];
        assert PhaseHolds(sys.db, e.moduleId, phase);
        OwnKey(e.moduleId, Before(phase.req), After(phase.req), phase.todo[0]);
      }
      EventKeepsInvariant(sys, e);
      ForeignItemsUntouched(Fire(sys, e), events[1..], key);
    }
  }

  /** The rows of modules that have no stack among these are never touched. */
  lemma ForeignRowsUntouched(sys: System, events: seq<Event>, moduleId: string)
    requires Initial(sys) && Legal(sys, events) && moduleId !in sys.phases
    ensures Find(Final(sys, events).db.modules, moduleId) == Find(sys.db.modules, moduleId)
  {
    RowsUntouched(sys, events, moduleId);
  }

  lemma {:induction false} RowsUntouched(sys: System, events: seq<Event>, moduleId: string)
    requires Inv(sys) && Legal(sys, events) && moduleId !in sys.phases
    requires forall m | m in sys.phases && sys.phases[m].Running? :: OwnRow(sys.phases[m].todo, m)
    ensures Find(Final(sys, events).db.modules, moduleId) == Find(sys.db.modules, moduleId)
    decreases events
  {
    if events != [] {
      var e := events[0];
      if e.Begin? {
        PlanRowsOwn(e.req);
      }
      EventKeepsInvariant(sys, e);
      RowsUntouched(Fire(sys, e), events[1..], moduleId);
    }
  }

  /** The operations write no row but that of the module. */
  ghost predicate OwnRow(ops: seq<Op>, m: string) {
    forall i | 0 <= i < |ops| && ops[i].Mark? :: ops[i].moduleId == m
  }

  lemma PlanRowsOwn(req: Request)
    ensures OwnRow(Plan(req), req.moduleId)
  {
    if req.settings.Some? {
      PlanSteps(req);
    }
  }
}
