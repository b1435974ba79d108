/** Roll-back after a crash: an update stops after any of its operations, and the opposite update runs. */
module SettingsLifecycle {
  import opened Wrappers
  import opened SettingsHandler
  import opened SettingsRuns

  // ---------------------------------------------------------------- roll-back

  /** The item is there in both tables with the same value and source, or in neither. Versions may differ. */
  predicate SameItem(a: Db, b: Db, key: string) {
    if key in a.settings then
      key in b.settings && a.settings[key].value == b.settings[key].value && a.settings[key].source == b.settings[key].source
    else key !in b.settings
  }

  /** The table holds exactly these values, written by the stack, under the keys of `s`. */
  ghost predicate Holds(db: Db, moduleId: string, s: seq<Setting>) {
    forall i | 0 <= i < |s| ::
      var key := moduleId + "." + s[i].key;
      key in db.settings && db.settings[key].value == s[i].value && db.settings[key].source == Some("stack")
  }

  ghost predicate NewKeysAbsent(db: Db, moduleId: string, before: seq<Setting>, after: seq<Setting>) {
    forall i | 0 <= i < |after| && !InKeys(moduleId, before, ConfigKey(moduleId, after[i].key)) ::
      ConfigKey(moduleId, after[i].key) !in db.settings
  }

  function UpdateOf(cluster: string, moduleId: string, version: Option<string>,
                    before: seq<Setting>, after: seq<Setting>): Request {
    Request(Update, cluster, moduleId, version, Some(after), Some(before))
  }

  lemma PlanTouches(req: Request, n: nat)
    requires req.settings.Some? && n <= |Plan(req)|
    ensures OnlyTouches(req.moduleId, req.settings.value, if req.previous.Some? then req.previous.value else [], Plan(req)[..n])
  {
    var m, settings := req.moduleId, req.settings.value;
    var previous := if req.previous.Some? then req.previous.value else [];
    var gone := NoLonger(previous, settings);
    forall i | 0 <= i < |gone| ensures InKeys(m, previous, ConfigKey(m, gone[i].key)) {
      NoLongerKeys(m, previous, settings, ConfigKey(m, gone[i].key));
    }
    forall i | 0 <= i < |Plan(req)[..n]| && !Plan(req)[..n][i].Mark?
      ensures InKeys(m, settings, Plan(req)[..n][i].key) || InKeys(m, previous, Plan(req)[..n][i].key)
    {
      var op := Plan(req)[i];
      if req.kind.Delete? || i < |settings| {
        assert op.key == ConfigKey(m, settings[i].key);
      } else {
        assert op.key == ConfigKey(m, gone[i - |settings| - 1].key);
      }
    }
  }

  /** After any operations on the items of `before` and `after`, a full run of the update back to `before`
      leaves every item as it decides itself: old ones rewritten, new ones gone, all others untouched. */
  lemma RollbackItem(req: Request, ops: seq<Op>, db: Db, key: string)
    requires req.settings.Some? && req.previous.Some? && !req.kind.Delete?
    requires IsDict(req.settings.value) && OnlyTouches(req.moduleId, req.settings.value, req.previous.value, ops)
    ensures var db' := ApplyAll(Plan(req), ApplyAll(ops, db));
            if InKeys(req.moduleId, req.settings.value, key) then
              exists i :: 0 <= i < |req.settings.value| && ConfigKey(req.moduleId, req.settings.value[i].key) == key
                          && key in db'.settings && db'.settings[key].value == req.settings.value[i].value
                          && db'.settings[key].source == Some("stack")
            else if InKeys(req.moduleId, req.previous.value, key) then key !in db'.settings
            else Find(db'.settings, key) == Find(db.settings, key)
  {
    var m, settings, previous := req.moduleId, req.settings.value, req.previous.value;
    PlanLast(req, key);
    LastOpDecides(Plan(req), ApplyAll(ops, db), key);
    if !InKeys(m, settings, key) && !InKeys(m, previous, key) {
      UntouchedKey(m, settings, previous, ops, key);
      LastOpDecides(ops, db, key);
    }
  }

  lemma DictValue(moduleId: string, s: seq<Setting>, i: nat, j: nat)
    requires IsDict(s) && i < |s| && j < |s| && ConfigKey(moduleId, s[i].key) == ConfigKey(moduleId, s[j].key)
    ensures i == j
  {
    ConfigKeyInjective(moduleId, s[i].key, s[j].key);
  }

  /** An update that stops after any operations at all, then a full roll-back: the table is what it was (versions
      aside) if and only if the keys only the update has were not in the table to begin with. */
  lemma RollbackRestoresExactlyWhen(req: Request, ops: seq<Op>, db: Db)
    requires req.settings.Some? && req.previous.Some? && !req.kind.Delete?
    requires IsDict(req.settings.value) && OnlyTouches(req.moduleId, req.settings.value, req.previous.value, ops)
    requires Holds(db, req.moduleId, req.settings.value)
    ensures var db' := ApplyAll(Plan(req), ApplyAll(ops, db));
            && Holds(db', req.moduleId, req.settings.value)
            && ((forall key :: SameItem(db, db', key))
                <==> NewKeysAbsent(db, req.moduleId, req.settings.value, req.previous.value))
  {
    var m, settings, previous := req.moduleId, req.settings.value, req.previous.value;
    var db' := ApplyAll(Plan(req), ApplyAll(ops, db));
    forall i | 0 <= i < |settings|
      ensures var key := ConfigKey(m, settings[i].key);
              key in db'.settings && db'.settings[key].value == settings[i].value && db'.settings[key].source == Some("stack")
    {
      var key := ConfigKey(m, settings[i].key);
      assert InKeys(m, settings, key);
      RollbackItem(req, ops, db, key);
      var j :| 0 <= j < |settings| && ConfigKey(m, settings[j].key) == key && db'.settings[key].value == settings[j].value;
      DictValue(m, settings, i, j);
    }
    if NewKeysAbsent(db, m, settings, previous) {
      forall key ensures SameItem(db, db', key) {
        RollbackItem(req, ops, db, key);
        if InKeys(m, settings, key) {
          var i :| 0 <= i < |settings| && ConfigKey(m, settings[i].key) == key;
        }
      }
    }
    if forall key :: SameItem(db, db', key) {
      forall i | 0 <= i < |previous| && !InKeys(m, settings, ConfigKey(m, previous[i].key))
        ensures ConfigKey(m, previous[i].key) !in db.settings
      {
        var key := ConfigKey(m, previous[i].key);
        assert InKeys(m, previous, key) && SameItem(db, db', key);
        RollbackItem(req, ops, db, key);
      }
    }
  }

  /** The handler itself: an update run that raises anywhere, followed by a complete run of the opposite update. */
  lemma CrashThenRollback(cluster: string, m: string, before: seq<Setting>, after: seq<Setting>,
                          v: Option<string>, w: Option<string>,
                          db: Db, left: Option<nat>, ok: bool, db1: Db, left1: Option<nat>, db2: Db)
    requires IsDict(before) && Holds(db, m, before)
    requires Ran(Plan(UpdateOf(cluster, m, v, before, after)), db, left, ok, db1, left1)
    requires Ran(Plan(UpdateOf(cluster, m, w, after, before)), db1, None, true, db2, None)
    ensures Holds(db2, m, before)
    ensures (forall key :: SameItem(db, db2, key)) <==> NewKeysAbsent(db, m, before, after)
    ensures forall key | !InKeys(m, before, key) && !InKeys(m, after, key) ::
              Find(db2.settings, key) == Find(db.settings, key)
  {
    var update, rollback := UpdateOf(cluster, m, v, before, after), UpdateOf(cluster, m, w, after, before);
    var n := if ok then |Plan(update)| else left.value;
    var ops := Plan(update)[..n];
    assert ok ==> ops == Plan(update);
    PlanTouches(update, n);
    assert OnlyTouches(m, before, after, ops);
    RollbackRestoresExactlyWhen(rollback, ops, db);
    forall key | !InKeys(m, before, key) && !InKeys(m, after, key)
      ensures Find(db2.settings, key) == Find(db.settings, key)
    {
      RollbackItem(rollback, ops, db, key);
    }
  }
}
