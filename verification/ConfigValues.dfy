/** The entries told by the configuration alone: at each path that ends in something other than a section, the value
    found there. */
module ConfigValues {
  import opened PyStrings
  import opened ConfigFlatten
  import opened ConfigUnflatten
  import opened ConfigKeys

  /** The value is a section: a dict with something in it. */
  predicate IsSection(v: Value) {
    v.Dict? && v.entries != []
  }

  /** The configuration has this value, which is no section, at the path. */
  ghost predicate Holds(config: seq<Pair>, path: seq<string>, v: Value)
    decreases config, 1
  {
    exists i | 0 <= i < |config| :: HoldsAt(config, i, path, v)
  }

  ghost predicate HoldsAt(config: seq<Pair>, i: nat, path: seq<string>, v: Value)
    requires i < |config|
    decreases config, 0
  {
    && path != [] && path[0] == config[i].key
    && if IsSection(config[i].value) then Holds(config[i].value.entries, path[1..], v)
       else path == [config[i].key] && v == config[i].value
  }

  lemma HoldsCons(p: Pair, config: seq<Pair>, path: seq<string>, v: Value)
    ensures Holds([p] + config, path, v) <==> Holds([p], path, v) || Holds(config, path, v)
  {
    var all := [p] + config;
    assert all[0] == p && forall i | 0 <= i < |config| :: all[i + 1] == config[i];
    assert HoldsAt(all, 0, path, v) <==> HoldsAt([p], 0, path, v);
    forall i: nat | 0 < i < |all| ensures HoldsAt(all, i, path, v) <==> HoldsAt(config, i - 1, path, v) {
    }
    hide HoldsAt;
    if i: nat :| i < |config| && HoldsAt(config, i, path, v) {
      assert HoldsAt(all, i + 1, path, v) <==> HoldsAt(config, i, path, v);
    }
  }

  /** The leaf with this path and value. */
  ghost predicate HasLeaf(leaves: seq<Leaf>, path: seq<string>, x: Value) {
    Leaf(path, x) in leaves
  }

  ghost predicate HoldsKept(config: seq<Pair>, path: seq<string>, x: Value) {
    exists v :: Holds(config, path, v) && x == Kept(v)
  }

  lemma {:induction false} LeavesAreValues(config: seq<Pair>, path: seq<string>, x: Value)
    ensures HasLeaf(Leaves(config), path, x) <==> HoldsKept(config, path, x)
    decreases config
  {
    if config != [] {
      var p, rest := config[0], config[1..];
      assert [p] + rest == config;
      LeavesOfPairAreValues(p, path, x);
      LeavesAreValues(rest, path, x);
      forall v ensures Holds(config, path, v) <==> Holds([p], path, v) || Holds(rest, path, v) {
        HoldsCons(p, rest, path, v);
      }
    }
  }

  lemma {:induction false} LeavesOfPairAreValues(p: Pair, path: seq<string>, x: Value)
    ensures HasLeaf(LeavesOfPair(p), path, x) <==> HoldsKept([p], path, x)
    decreases p
  {
    AnyValueIs(p.value);
    if IsSection(p.value) {
      var inner := p.value.entries;
      UnderHas(p.key, Leaves(inner), path, x);
      if path != [] {
        LeavesAreValues(inner, path[1..], x);
      }
      forall v ensures Holds([p], path, v) <==> path != [] && path[0] == p.key && Holds(inner, path[1..], v) {
        assert Holds([p], path, v) <==> HoldsAt([p], 0, path, v);
      }
    } else {
      assert LeavesOfPair(p) == [Leaf([p.key], Kept(p.value))];
      forall v ensures Holds([p], path, v) <==> path == [p.key] && v == p.value {
        assert Holds([p], path, v) <==> HoldsAt([p], 0, path, v);
      }
    }
  }

  lemma UnderHas(key: string, leaves: seq<Leaf>, path: seq<string>, x: Value)
    ensures HasLeaf(Under(key, leaves), path, x) <==> path != [] && path[0] == key && HasLeaf(leaves, path[1..], x)
  {
    if HasLeaf(Under(key, leaves), path, x) {
      var i :| 0 <= i < |leaves| && Under(key, leaves)[i] == Leaf(path, x);
      assert leaves[i] == Leaf(path[1..], x);
    }
    if path != [] && path[0] == key && HasLeaf(leaves, path[1..], x) {
      var i :| 0 <= i < |leaves| && leaves[i] == Leaf(path[1..], x);
      assert path == [key] + path[1..];
      assert Under(key, leaves)[i] == Leaf(path, x);
    }
  }

  /** The entries of a configuration are, key by key, the values it holds: at the path that the key spells out, the value
      found there, or null if it is null, a text of blanks, an empty list or an empty dict. Blank sections at the
      top, if there are any, are taken as spliced. */
  lemma EntriesAreValues(config: seq<Pair>, key: string, x: Value)
    requires GoodKeys(config)
    ensures Entry(key, x) in Traverse("", config, "").entries
       <==> exists v :: Holds(Spliced(config), Split(key, "."), v) && x == if IsEmpty(v) then Null else v
  {
    var entries, leaves := Traverse("", config, "").entries, Leaves(Spliced(config));
    LeavesAreValues(Spliced(config), Split(key, "."), x);
    EntryIsLeaf(config, 0);
    hide Traverse, Leaves, Spliced, Split, Holds;
    if Entry(key, x) in entries {
      var i :| 0 <= i < |entries| && entries[i] == Entry(key, x);
      EntryIsLeaf(config, i);
      assert leaves[i] == Leaf(Split(key, "."), x);
    }
    if HasLeaf(leaves, Split(key, "."), x) {
      var i :| 0 <= i < |leaves| && leaves[i] == Leaf(Split(key, "."), x);
      EntryIsLeaf(config, i);
      JoinOfSplit(key);
      assert entries[i] == Entry(key, x);
    }
  }

  /** Joining the pieces of a key gives it back. */
  lemma {:induction false} JoinOfSplit(key: string)
    ensures Join(Split(key, ".")) == key
    decreases |key|
  {
    Found(key, ".");
    var i := FindFrom(key, ".", 0);
    if i != -1 {
      var rest := Split(key[i + 1..], ".");
      JoinOfSplit(key[i + 1..]);
      assert ([key[..i]] + rest)[1..] == rest;
      assert key[i..i + 1] == ".";
      assert key[..i] + "." + key[i + 1..] == key;
    }
  }
}
