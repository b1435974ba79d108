/** What a sequence of table operations does to one item, and which operation of a plan decides it. */
module SettingsRuns {
  import opened Wrappers
  import opened PyStrings
  import opened SettingsHandler

  // ---------------------------------------------------------------- the last operation on a key decides

  predicate Touches(op: Op, key: string) {
    (op.Put? || op.Drop?) && op.key == key
  }

  function LastOp(ops: seq<Op>, key: string): Option<Op> {
    if ops == [] then None
    else if Touches(ops[|ops| - 1], key) then Some(ops[|ops| - 1])
    else LastOp(ops[..|ops| - 1], key)
  }

  /** The number of writes of `key` since it was last deleted. */
  function Writes(ops: seq<Op>, key: string): nat {
    if ops == [] then 0
    else
      var op, before := ops[|ops| - 1], Writes(ops[..|ops| - 1], key);
      if !Touches(op, key) then before else if op.Put? then before + 1 else 0
  }

  lemma {:induction false} LastOpDecides(ops: seq<Op>, db: Db, key: string)
    ensures var settings := ApplyAll(ops, db).settings;
            match LastOp(ops, key)
            case None => Find(settings, key) == Find(db.settings, key)
            case Some(Put(_, value)) => key in settings && settings[key].value == value && settings[key].source == Some("stack")
            case Some(_) => key !in settings
  {
    if ops != [] {
      var op, before := ops[|ops| - 1], ops[..|ops| - 1];
      assert ops == before + [op];
      ApplyAllSnoc(before, op, db);
      LastOpDecides(before, db, key);
    }
  }

  /** An item that was not there has, once written, the version that counts its writes since its last deletion. */
  lemma {:induction false} VersionCountsWrites(ops: seq<Op>, db: Db, key: string)
    requires key !in db.settings
    ensures var settings := ApplyAll(ops, db).settings;
            && (key in settings <==> Writes(ops, key) > 0)
            && (key in settings ==> settings[key].version == Some(Writes(ops, key)))
  {
    if ops != [] {
      var op, before := ops[|ops| - 1], ops[..|ops| - 1];
      assert ops == before + [op];
      ApplyAllSnoc(before, op, db);
      VersionCountsWrites(before, db, key);
    }
  }

  lemma {:induction false} LastOpOfConcat(a: seq<Op>, b: seq<Op>, key: string)
    ensures LastOp(a + b, key) == if LastOp(b, key).Some? then LastOp(b, key) else LastOp(a, key)
    decreases |b|
  {
    if b == [] {
      assert a + b == a;
    } else {
      assert (a + b)[..|a + b| - 1] == a + b[..|b| - 1];
      LastOpOfConcat(a, b[..|b| - 1], key);
    }
  }

  // ---------------------------------------------------------------- keys of one module

  predicate IsOf(moduleId: string, key: string) {
    moduleId + "." <= key
  }

  lemma KeyIsOf(moduleId: string, key: string)
    ensures IsOf(moduleId, ConfigKey(moduleId, key))
  {
    assert ConfigKey(moduleId, key)[..|moduleId| + 1] == moduleId + ".";
  }

  lemma ConfigKeyInjective(moduleId: string, k: string, l: string)
    ensures ConfigKey(moduleId, k) == ConfigKey(moduleId, l) <==> k == l
  {
    assert ConfigKey(moduleId, k)[|moduleId| + 1..] == k;
    assert ConfigKey(moduleId, l)[|moduleId| + 1..] == l;
  }

  /** A module id without a dot is the part of its keys before the first dot. */
  lemma OwnerIsFirstPiece(m: string, key: string)
    requires '.' !in m && IsOf(m, key)
    ensures Split(key, ".")[0] == m
  {
    var i := FindFrom(key, ".", 0);
    assert key[..|m| + 1] == m + ".";
    assert key[|m|] == '.' && key[..|m|] == m;
    assert At(key, ".", |m|);
    AtStart(key, ".", i);
    assert forall j | 0 <= j < |m| :: key[j] == m[j];
    assert i == |m|;
  }

  /** Module ids without a dot own disjoint keys. */
  lemma OwnersDiffer(m: string, n: string, key: string)
    requires '.' !in m && '.' !in n && IsOf(m, key) && IsOf(n, key)
    ensures m == n
  {
    OwnerIsFirstPiece(m, key);
    OwnerIsFirstPiece(n, key);
  }

  /** The item key of some setting in `s`. */
  ghost predicate InKeys(moduleId: string, s: seq<Setting>, key: string) {
    exists i :: 0 <= i < |s| && ConfigKey(moduleId, s[i].key) == key
  }

  /** Every operation is on the item of one of the two sets of settings, or on the module's own row. */
  ghost predicate OnlyTouches(moduleId: string, s: seq<Setting>, t: seq<Setting>, ops: seq<Op>) {
    forall i | 0 <= i < |ops| ::
      if ops[i].Mark? then ops[i].moduleId == moduleId
      else InKeys(moduleId, s, ops[i].key) || InKeys(moduleId, t, ops[i].key)
  }

  lemma {:induction false} UntouchedKey(moduleId: string, s: seq<Setting>, t: seq<Setting>, ops: seq<Op>, key: string)
    requires OnlyTouches(moduleId, s, t, ops) && !InKeys(moduleId, s, key) && !InKeys(moduleId, t, key)
    ensures LastOp(ops, key) == None
  {
    if ops != [] {
      assert ops[|ops| - 1] in ops;
      UntouchedKey(moduleId, s, t, ops[..|ops| - 1], key);
    }
  }

  // ---------------------------------------------------------------- the plan, key by key

  lemma {:induction false} LastPut(moduleId: string, s: seq<Setting>, n: nat, key: string)
    requires n <= |s| && IsDict(s)
    ensures forall i | 0 <= i < n && ConfigKey(moduleId, s[i].key) == key ::
              LastOp(Puts(moduleId, s)[..n], key) == Some(Put(key, s[i].value))
    ensures (forall i | 0 <= i < n :: ConfigKey(moduleId, s[i].key) != key) ==> LastOp(Puts(moduleId, s)[..n], key) == None
  {
    if n > 0 {
      LastPut(moduleId, s, n - 1, key);
      assert Puts(moduleId, s)[..n][..n - 1] == Puts(moduleId, s)[..n - 1];
      forall i | 0 <= i < n ensures ConfigKey(moduleId, s[i].key) == ConfigKey(moduleId, s[n - 1].key) <==> i == n - 1 {
        ConfigKeyInjective(moduleId, s[i].key, s[n - 1].key);
      }
    }
  }

  lemma {:induction false} LastDrop(moduleId: string, s: seq<Setting>, n: nat, key: string)
    requires n <= |s|
    ensures LastOp(Drops(moduleId, s)[..n], key)
         == if exists i :: 0 <= i < n && ConfigKey(moduleId, s[i].key) == key then Some(Drop(key)) else None
  {
    if n > 0 {
      LastDrop(moduleId, s, n - 1, key);
      assert Drops(moduleId, s)[..n][..n - 1] == Drops(moduleId, s)[..n - 1];
    }
  }

  lemma {:induction false} NoLongerKeys(moduleId: string, previous: seq<Setting>, settings: seq<Setting>, key: string)
    ensures InKeys(moduleId, NoLonger(previous, settings), key)
       <==> InKeys(moduleId, previous, key) && !InKeys(moduleId, settings, key)
  {
    if previous != [] {
      var before, last := previous[..|previous| - 1], previous[|previous| - 1];
      NoLongerKeys(moduleId, before, settings, key);
      assert InKeys(moduleId, previous, key) <==> InKeys(moduleId, before, key) || ConfigKey(moduleId, last.key) == key;
      SameKeys(moduleId, settings, last.key);
      var rest := NoLonger(before, settings);
      if !HasKey(settings, last.key) {
        assert NoLonger(previous, settings)[|rest|] == last;
        assert forall i | 0 <= i < |rest| :: NoLonger(previous, settings)[i] == rest[i];
      }
    }
  }

  /** The settings no longer wanted keep their order: number `i` is the old setting at `at[i]`. */
  lemma {:induction false} NoLongerInOrder(previous: seq<Setting>, settings: seq<Setting>) returns (at: seq<nat>)
    ensures |at| == |NoLonger(previous, settings)| && forall i, j | 0 <= i < j < |at| :: at[i] < at[j]
    ensures forall i | 0 <= i < |at| :: at[i] < |previous| && NoLonger(previous, settings)[i] == previous[at[i]]
    ensures forall j: nat | j < |previous| :: j in at <==> !HasKey(settings, previous[j].key)
  {
    hide HasKey;
    if previous == [] {
      at := [];
    } else {
      var n := |previous| - 1;
      at := NoLongerInOrder(previous[..n], settings);
      assert forall j: nat | j < n :: previous[..n][j] == previous[j];
      if !HasKey(settings, previous[n].key) {
        at := at + [n];
      }
    }
  }

  lemma SameKeys(moduleId: string, s: seq<Setting>, k: string)
    ensures HasKey(s, k) <==> InKeys(moduleId, s, ConfigKey(moduleId, k))
  {
    forall i | 0 <= i < |s| ensures ConfigKey(moduleId, s[i].key) == ConfigKey(moduleId, k) <==> s[i].key == k {
      ConfigKeyInjective(moduleId, s[i].key, k);
    }
  }

  /** The last operation of a whole plan on an item: write what is wanted, delete what no longer is. */
  lemma PlanLast(req: Request, key: string)
    requires req.settings.Some? && IsDict(req.settings.value)
    ensures var m, settings := req.moduleId, req.settings.value;
            if InKeys(m, settings, key) && !req.kind.Delete? then
              exists i :: 0 <= i < |settings| && ConfigKey(m, settings[i].key) == key
                          && LastOp(Plan(req), key) == Some(Put(key, settings[i].value))
            else if InKeys(m, settings, key) || (!req.kind.Delete? && req.previous.Some? && InKeys(m, req.previous.value, key)) then
              LastOp(Plan(req), key) == Some(Drop(key))
            else LastOp(Plan(req), key) == None
  {
    var m, settings := req.moduleId, req.settings.value;
    if req.kind.Delete? {
      var drops := Drops(m, settings);
      LastDrop(m, settings, |settings|, key);
      assert drops[..|settings|] == drops;
      LastOpOfConcat(drops, [NotDeployed(req)], key);
    } else {
      WritingPlanLast(req, key);
    }
  }

  lemma WritingPlanLast(req: Request, key: string)
    requires req.settings.Some? && IsDict(req.settings.value) && !req.kind.Delete?
    ensures var m, settings := req.moduleId, req.settings.value;
            if InKeys(m, settings, key) then
              exists i :: 0 <= i < |settings| && ConfigKey(m, settings[i].key) == key
                          && LastOp(Plan(req), key) == Some(Put(key, settings[i].value))
            else if req.previous.Some? && InKeys(m, req.previous.value, key) then
              LastOp(Plan(req), key) == Some(Drop(key))
            else LastOp(Plan(req), key) == None
  {
    var m, settings := req.moduleId, req.settings.value;
    var puts := Puts(m, settings);
    LastPut(m, settings, |settings|, key);
    assert puts[..|settings|] == puts;
    LastOpOfConcat(puts, [Deployed(req)], key);
    if req.previous.None? {
      assert Plan(req) == puts + [Deployed(req)] + [];
      LastOpOfConcat(puts + [Deployed(req)], [], key);
    } else {
      var gone := NoLonger(req.previous.value, settings);
      var drops := Drops(m, gone);
      LastDrop(m, gone, |gone|, key);
      assert drops[..|gone|] == drops;
      NoLongerKeys(m, req.previous.value, settings, key);
      LastOpOfConcat(puts + [Deployed(req)], drops, key);
    }
  }
}
