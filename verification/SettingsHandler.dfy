/** The custom resource that copies a stack's settings into the cluster settings table: one invocation is a
    sequence of single-item table operations, any of which may raise. */
module SettingsHandler {
  import opened Wrappers

  // ---------------------------------------------------------------- the two tables

  /** An item of the settings table. Items written by other tools may lack a source or a version. */
  datatype Entry = Entry(value: string, source: Option<string>, version: Option<int>)

  datatype ModuleRow = ModuleRow(status: string, stackName: Option<string>, version: Option<string>)

  datatype Db = Db(settings: map<string, Entry>, modules: map<string, ModuleRow>)

  datatype Op =
    | Put(key: string, value: string)
    | Drop(key: string)
    | Mark(moduleId: string, row: ModuleRow)

  /** `SET #value=:value, #source=:source ADD #version :version` creates the item, or bumps its version. */
  function Written(item: Option<Entry>, value: string): Entry {
    var version := if item.Some? && item.value.version.Some? then item.value.version.value + 1 else 1;
    Entry(value, Some("stack"), Some(version))
  }

  function Find<V>(m: map<string, V>, key: string): Option<V> {
    if key in m then Some(m[key]) else None
  }

  function Apply(op: Op, db: Db): Db {
    match op
    case Put(key, value) => db.(settings := db.settings[key := Written(Find(db.settings, key), value)])
    case Drop(key) => db.(settings := db.settings - {key})
    case Mark(moduleId, row) => db.(modules := db.modules[moduleId := row])
  }

  function ApplyAll(ops: seq<Op>, db: Db): Db {
    if ops == [] then db else ApplyAll(ops[1..], Apply(ops[0], db))
  }

  lemma {:induction false} ApplyAllConcat(a: seq<Op>, b: seq<Op>, db: Db)
    ensures ApplyAll(a + b, db) == ApplyAll(b, ApplyAll(a, db))
    decreases a
  {
    if a == [] {
      assert a + b == b;
    } else {
      assert (a + b)[0] == a[0] && (a + b)[1..] == a[1..] + b;
      ApplyAllConcat(a[1..], b, Apply(a[0], db));
    }
  }

  lemma ApplyAllSnoc(ops: seq<Op>, op: Op, db: Db)
    ensures ApplyAll(ops + [op], db) == Apply(op, ApplyAll(ops, db))
  {
    ApplyAllConcat(ops, [op], db);
  }

  // ---------------------------------------------------------------- one request

  datatype Setting = Setting(key: string, value: string)

  /** A Python dict in its iteration order: no key twice. */
  predicate IsDict(s: seq<Setting>) {
    forall i, j | 0 <= i < j < |s| :: s[i].key != s[j].key
  }

  predicate HasKey(s: seq<Setting>, key: string) {
    exists i | 0 <= i < |s| :: s[i].key == key
  }

  datatype Kind = Create | Update | Delete

  /** A CloudFormation event. `previous` is the settings of
      `OldResourceProperties`, when the event carries any. */
  datatype Request = Request(kind: Kind, clusterName: string, moduleId: string, version: Option<string>,
                             settings: Option<seq<Setting>>, previous: Option<seq<Setting>>)

  function ConfigKey(moduleId: string, key: string): string {
    moduleId + "." + key
  }

  function Puts(moduleId: string, s: seq<Setting>): seq<Op> {
    seq(|s|, i requires 0 <= i < |s| => Put(ConfigKey(moduleId, s[i].key), s[i].value))
  }

  function Drops(moduleId: string, s: seq<Setting>): seq<Op> {
    seq(|s|, i requires 0 <= i < |s| => Drop(ConfigKey(moduleId, s[i].key)))
  }

  /** The settings of `previous` whose keys `settings` no longer has. */
  function NoLonger(previous: seq<Setting>, settings: seq<Setting>): seq<Setting> {
    if previous == [] then []
    else
      var rest := NoLonger(previous[..|previous| - 1], settings);
      var last := previous[|previous| - 1];
      if HasKey(settings, last.key) then rest else rest + [last]
  }

  function Deployed(req: Request): Op {
    Mark(req.moduleId, ModuleRow("deployed", Some(req.clusterName + "-" + req.moduleId), req.version))
  }

  function NotDeployed(req: Request): Op {
    Mark(req.moduleId, ModuleRow("not-deployed", None, None))
  }

  /** The table operations of one invocation, in order. */
  function Plan(req: Request): seq<Op> {
    match req.settings
    case None => []
    case Some(settings) =>
      if req.kind.Delete? then Drops(req.moduleId, settings) + [NotDeployed(req)]
      else
        Puts(req.moduleId, settings) + [Deployed(req)]
        + (match req.previous case None => [] case Some(previous) => Drops(req.moduleId, NoLonger(previous, settings)))
  }

  datatype Status = SUCCESS | FAILED

  // ---------------------------------------------------------------- running operations, one of which may raise

  /** Running `ops` from `db` when `left` more operations succeed before one raises (None: none raises):
      all of them go through, or exactly the first `left`. */
  ghost predicate Ran(ops: seq<Op>, db: Db, left: Option<nat>, ok: bool, db': Db, left': Option<nat>) {
    if left.Some? && left.value < |ops| then
      !ok && db' == ApplyAll(ops[..left.value], db) && left' == Some(0)
    else
      && ok && db' == ApplyAll(ops, db)
      && left' == match left case None => None case Some(n) => Some(n - |ops|)
  }

  lemma RanBoth(a: seq<Op>, b: seq<Op>, db: Db, left: Option<nat>, db1: Db, left1: Option<nat>,
                ok: bool, db2: Db, left2: Option<nat>)
    requires Ran(a, db, left, true, db1, left1) && Ran(b, db1, left1, ok, db2, left2)
    ensures Ran(a + b, db, left, ok, db2, left2)
  {
    if ok {
      ApplyAllConcat(a, b, db);
    } else {
      assert (a + b)[..left.value] == a + b[..left1.value];
      ApplyAllConcat(a, b[..left1.value], db);
    }
  }

  lemma RanFirst(a: seq<Op>, b: seq<Op>, db: Db, left: Option<nat>, db1: Db, left1: Option<nat>)
    requires Ran(a, db, left, false, db1, left1)
    ensures Ran(a + b, db, left, false, db1, left1)
  {
    assert (a + b)[..left.value] == a[..left.value];
  }

  /** Which operation of a plan is which: the settings are written one by one, then the row, then those no longer wanted
      are deleted; or they are all deleted, then the row is written. */
  lemma PlanSteps(req: Request)
    requires req.settings.Some?
    ensures var s, n := req.settings.value, |req.settings.value|;
            && |Plan(req)| == n + 1 + (if req.kind == Delete || req.previous.None? then 0 else |NoLonger(req.previous.value, s)|)
            && (forall i | 0 <= i < n ::
                  Plan(req)[i] == if req.kind == Delete then Drop(req.moduleId + "." + s[i].key)
                                  else Put(req.moduleId + "." + s[i].key, s[i].value))
            && Plan(req)[n] == Mark(req.moduleId,
                                    if req.kind == Delete then ModuleRow("not-deployed", None, None)
                                    else ModuleRow("deployed", Some(req.clusterName + "-" + req.moduleId), req.version))
            && (forall i | n < i < |Plan(req)| ::
                  Plan(req)[i] == Drop(req.moduleId + "." + NoLonger(req.previous.value, s)[i - n - 1].key))
  {
  }

  /** The module rows after the first `k` operations of a plan. */
  lemma {:induction false} PlanRows(req: Request, db: Db, k: nat)
    requires req.settings.Some? && k <= |Plan(req)|
    ensures ApplyAll(Plan(req)[..k], db).modules ==
            if k <= |req.settings.value| then db.modules
            else db.modules[req.moduleId := if req.kind == Delete then ModuleRow("not-deployed", None, None)
                                            else ModuleRow("deployed", Some(req.clusterName + "-" + req.moduleId), req.version)]
  {
    PlanSteps(req);
    if k > 0 {
      hide Plan, ApplyAll, ConfigKey, NoLonger;
      PlanRows(req, db, k - 1);
      assert Plan(req)[..k] == Plan(req)[..k - 1] + [Plan(req)[k - 1]];
      ApplyAllSnoc(Plan(req)[..k - 1], Plan(req)[k - 1], db);
    }
  }

  /** The two tables, written one item at a time. */
  class Tables {
    var settings: map<string, Entry>
    var modules: map<string, ModuleRow>
    var left: Option<nat>  // the operations that still succeed before one raises

    constructor (db: Db, left: Option<nat>)
      ensures Value() == db && this.left == left
    {
      settings, modules, this.left := db.settings, db.modules, left;
    }

    ghost function Value(): Db
      reads this
    {
      Db(settings, modules)
    }

    method Execute(op: Op) returns (ok: bool)
      modifies this
      ensures Ran([op], old(Value()), old(left), ok, Value(), left)
    {
      if left == Some(0) {
        return false;
      }
      match op {
        case Put(key, value) => settings := settings[key := Written(Find(settings, key), value)];
        case Drop(key) => settings := settings - {key};
        case Mark(moduleId, row) => modules := modules[moduleId := row];
      }
      if left.Some? {
        left := Some(left.value - 1);
      }
      ok := true;
      assert ApplyAll([op], old(Value())) == Apply(op, old(Value()));
    }

    /** `for key in settings: update_item(...)` */
    method PutAll(moduleId: string, s: seq<Setting>) returns (ok: bool)
      modifies this
      ensures Ran(Puts(moduleId, s), old(Value()), old(left), ok, Value(), left)
    {
      ghost var ops := Puts(moduleId, s);
      ok := true;
      for i := 0 to |s|
        invariant ok && Ran(ops[..i], old(Value()), old(left), true, Value(), left)
      {
        ghost var db, was := Value(), left;
        ok := Execute(Put(ConfigKey(moduleId, s[i].key), s[i].value));
        RanBoth(ops[..i], [ops[i]], old(Value()), old(left), db, was, ok, Value(), left);
        assert ops[..i] + [ops[i]] == ops[..i + 1];
        if !ok {
          RanFirst(ops[..i + 1], ops[i + 1..], old(Value()), old(left), Value(), left);
          assert ops[..i + 1] + ops[i + 1..] == ops;
          return;
        }
      }
      assert ops[..|s|] == ops;
    }

    /** `for key in settings: delete_item(...)` */
    method DropAll(moduleId: string, s: seq<Setting>) returns (ok: bool)
      modifies this
      ensures Ran(Drops(moduleId, s), old(Value()), old(left), ok, Value(), left)
    {
      ghost var ops := Drops(moduleId, s);
      ok := true;
      for i := 0 to |s|
        invariant ok && Ran(ops[..i], old(Value()), old(left), true, Value(), left)
      {
        ghost var db, was := Value(), left;
        ok := Execute(Drop(ConfigKey(moduleId, s[i].key)));
        RanBoth(ops[..i], [ops[i]], old(Value()), old(left), db, was, ok, Value(), left);
        assert ops[..i] + [ops[i]] == ops[..i + 1];
        if !ok {
          RanFirst(ops[..i + 1], ops[i + 1..], old(Value()), old(left), Value(), left);
          assert ops[..i + 1] + ops[i + 1..] == ops;
          return;
        }
      }
      assert ops[..|s|] == ops;
    }

    /** `handler`: the operations of the plan run in order until one raises, and the response says whether any did. A run
        that succeeds leaves the row of the module deployed, with its stack and version, or not deployed; one that
        fails leaves it so or as it was; and no other row changes. */
    method Handle(req: Request) returns (status: Status)
      modifies this
      ensures req.settings.None? ==> status == FAILED && Value() == old(Value())
      ensures req.settings.Some? ==> Ran(Plan(req), old(Value()), old(left), status == SUCCESS, Value(), left)
      ensures var row := if req.kind == Delete then ModuleRow("not-deployed", None, None)
                         else ModuleRow("deployed", Some(req.clusterName + "-" + req.moduleId), req.version);
              || modules == old(modules)[req.moduleId := row]
              || (modules == old(modules) && status == FAILED)
    {
      if req.settings.Some? {
        PlanRows(req, old(Value()), |Plan(req)|);
        assert Plan(req)[..|Plan(req)|] == Plan(req);
        if old(left).Some? && old(left).value < |Plan(req)| {
          PlanRows(req, old(Value()), old(left).value);
        }
      }
      if req.settings.None? {
        return FAILED;
      }
      var settings, moduleId := req.settings.value, req.moduleId;
      ghost var db0, left0 := Value(), left;
      var ok: bool;
      if req.kind.Delete? {
        ok := DropAll(moduleId, settings);
        ghost var ops, mark := Drops(moduleId, settings), [NotDeployed(req)];
        if !ok {
          RanFirst(ops, mark, db0, left0, Value(), left);
          return FAILED;
        }
        ghost var db1, left1 := Value(), left;
        ok := Execute(NotDeployed(req));
        RanBoth(ops, mark, db0, left0, db1, left1, ok, Value(), left);
        status := if ok then SUCCESS else FAILED;
      } else {
        status := Write(req);
      }
    }

    method Write(req: Request) returns (status: Status)
      requires req.settings.Some? && !req.kind.Delete?
      modifies this
      ensures Ran(Plan(req), old(Value()), old(left), status == SUCCESS, Value(), left)
    {
      var settings, moduleId := req.settings.value, req.moduleId;
      ghost var db0, left0 := Value(), left;
      ghost var puts, mark := Puts(moduleId, settings), [Deployed(req)];
      ghost var rest := if req.previous.None? then [] else Drops(moduleId, NoLonger(req.previous.value, settings));
      assert Plan(req) == (puts + mark) + rest;
      var ok := PutAll(moduleId, settings);
      if !ok {
        RanFirst(puts, mark, db0, left0, Value(), left);
        RanFirst(puts + mark, rest, db0, left0, Value(), left);
        return FAILED;
      }
      ghost var db1, left1 := Value(), left;
      ok := Execute(Deployed(req));
      RanBoth(puts, mark, db0, left0, db1, left1, ok, Value(), left);
      if !ok {
        RanFirst(puts + mark, rest, db0, left0, Value(), left);
        return FAILED;
      }
      ghost var db2, left2 := Value(), left;
      if req.previous.Some? {
        var toDelete := SettingsToDelete(req.previous.value, settings);
        ok := DropAll(moduleId, toDelete);
      }
      RanBoth(puts + mark, rest, db0, left0, db2, left2, ok, Value(), left);
      status := if ok then SUCCESS else FAILED;
    }
  }

  /** `for old_key in old_settings: if old_key not in settings: ...append(old_key)` */
  method SettingsToDelete(previous: seq<Setting>, settings: seq<Setting>) returns (toDelete: seq<Setting>)
    ensures toDelete == NoLonger(previous, settings)
  {
    toDelete := [];
    for i := 0 to |previous|
      invariant toDelete == NoLonger(previous[..i], settings)
    {
      assert previous[..i + 1][..i] == previous[..i];
      if !HasKey(settings, previous[i].key) {
        toDelete := toDelete + [previous[i]];
      }
    }
    assert previous[..|previous|] == previous;
  }
}
