/** When a configuration can be rebuilt from its flattened entries. */
module ConfigRoundTrip {
  import opened PyStrings
  import opened ConfigFlatten
  import opened ConfigUnflatten

  // ---------------------------------------------------------------- joins

  lemma {:induction false} JoinSnoc(path: seq<string>, key: string)
    requires path != []
    ensures Join(path + [key]) == Join(path) + "." + key
    ensures !IsBlank(Join(path + [key]))
  {
    if |path| > 1 {
      assert (path + [key])[1..] == path[1..] + [key];
      JoinSnoc(path[1..], key);
      assert path[0] + "." + (Join(path[1..]) + "." + key) == path[0] + "." + Join(path[1..]) + "." + key;
    } else {
      assert (path + [key])[1..] == [key];
    }
    BlankMeansAllSpace(Join(path + [key]));
    assert Join(path + [key])[|Join(path)|] == '.';
  }

  /** The entries of a subtree's leaves, below `path`. */
  function Joined(path: seq<string>, leaves: seq<Leaf>): (r: seq<Entry>)
    requires forall i | 0 <= i < |leaves| :: leaves[i].path != []
    ensures |r| == |leaves|
    ensures forall i | 0 <= i < |r| :: r[i] == Entry(Join(path + leaves[i].path), leaves[i].value)
  {
    seq(|leaves|, i requires 0 <= i < |leaves| => Entry(Join(path + leaves[i].path), leaves[i].value))
  }

  lemma JoinedConcat(path: seq<string>, a: seq<Leaf>, b: seq<Leaf>)
    requires forall i | 0 <= i < |a| :: a[i].path != []
    requires forall i | 0 <= i < |b| :: b[i].path != []
    ensures Joined(path, a + b) == Joined(path, a) + Joined(path, b)
  {
  }

  lemma JoinedUnder(path: seq<string>, key: string, leaves: seq<Leaf>)
    requires forall i | 0 <= i < |leaves| :: leaves[i].path != []
    ensures Joined(path, Under(key, leaves)) == Joined(path + [key], leaves)
  {
    forall i | 0 <= i < |leaves| ensures path + ([key] + leaves[i].path) == (path + [key]) + leaves[i].path {
    }
  }

  // ---------------------------------------------------------------- flattening is joining the leaves

  lemma {:induction false} TraverseUnder(path: seq<string>, config: seq<Pair>)
    requires path != [] && !IsBlank(Join(path)) && GoodKeys(config)
    ensures Traverse(Join(path), config, "") == Outcome(Joined(path, Leaves(config)), false)
    decreases config
  {
    if config != [] {
      assert forall k | k in AllKeys(config[1..]) :: k in AllKeys(config);
      assert forall k | k in KeysOfPair(config[0]) :: k in AllKeys(config);
      TraversePairUnder(path, config[0]);
      TraverseUnder(path, config[1..]);
      JoinedConcat(path, LeavesOfPair(config[0]), Leaves(config[1..]));
    }
  }

  lemma {:induction false} TraversePairUnder(path: seq<string>, p: Pair)
    requires path != [] && !IsBlank(Join(path)) && forall k | k in KeysOfPair(p) :: !BadKey(k)
    ensures TraversePair(Join(path), p, "") == Outcome(Joined(path, LeavesOfPair(p)), false)
    decreases p
  {
    assert p.key in KeysOfPair(p);
    JoinSnoc(path, p.key);
    var v := AnyValue(p.value);
    if v.Dict? {
      assert forall k | k in AllKeys(v.entries) :: k in KeysOfPair(p);
      TraverseUnder(path + [p.key], v.entries);
      JoinedUnder(path, p.key, Leaves(v.entries));
    }
  }

  lemma {:induction false} TraverseTop(config: seq<Pair>)
    requires GoodKeys(config) && NoBlankSection(config)
    ensures Traverse("", config, "") == Outcome(Joined([], Leaves(config)), false)
    decreases config
  {
    if config != [] {
      var p := config[0];
      assert forall k | k in AllKeys(config[1..]) :: k in AllKeys(config);
      assert forall k | k in KeysOfPair(p) :: k in AllKeys(config);
      assert p.key in KeysOfPair(p);
      assert !BlankSection(p);
      assert NoBlankSection(config[1..]);
      TraverseTop(config[1..]);
      JoinedConcat([], LeavesOfPair(p), Leaves(config[1..]));
      var v := AnyValue(p.value);
      if v.Dict? {
        assert Join([p.key]) == p.key && [] + [p.key] == [p.key];
        TraverseUnder([p.key], v.entries);
        JoinedUnder([], p.key, Leaves(v.entries));
      } else {
        assert [] + [p.key] == [p.key];
      }
    }
  }

  // ---------------------------------------------------------------- the round trip

  lemma {:induction false} LeavesDotFree(config: seq<Pair>)
    requires GoodKeys(config)
    ensures forall i | 0 <= i < |Leaves(config)| :: DotFree(Leaves(config)[i].path)
    decreases config
  {
    if config != [] {
      assert forall k | k in AllKeys(config[1..]) :: k in AllKeys(config);
      assert forall k | k in KeysOfPair(config[0]) :: k in AllKeys(config);
      LeavesOfPairDotFree(config[0]);
      LeavesDotFree(config[1..]);
    }
  }

  lemma {:induction false} LeavesOfPairDotFree(p: Pair)
    requires forall k | k in KeysOfPair(p) :: !BadKey(k)
    ensures forall i | 0 <= i < |LeavesOfPair(p)| :: DotFree(LeavesOfPair(p)[i].path)
    decreases p
  {
    assert p.key in KeysOfPair(p);
    var v := AnyValue(p.value);
    if v.Dict? {
      assert forall k | k in AllKeys(v.entries) :: k in KeysOfPair(p);
      LeavesDotFree(v.entries);
    }
  }

  lemma RoundTrip(config: seq<Pair>)
    requires GoodKeys(config) && Distinct(config) && NoBlankSection(config)
    ensures Unflatten(Traverse("", config, "").entries) == Norm(config)
  {
    var entries, leaves := Traverse("", config, "").entries, Leaves(config);
    TraverseTop(config);
    LeavesDotFree(config);
    forall i | 0 <= i < |leaves| ensures LeavesOf(entries)[i] == leaves[i] {
      assert [] + leaves[i].path == leaves[i].path;
      SplitOfJoin(leaves[i].path);
    }
    assert LeavesOf(entries) == leaves;
    InsertLeaves([], config);
    assert [] + Norm(config) == Norm(config);
  }

  // ---------------------------------------------------------------- when there is no way back

  /** An entry whose first piece is blank has no second piece. */
  predicate BlankIsWhole(key: string) {
    IsBlank(Split(key, ".")[0]) ==> |Split(key, ".")| == 1
  }

  lemma FirstPieceKept(prefix: string, key: string)
    ensures Split(prefix + "." + key, ".")[0] == Split(prefix, ".")[0]
  {
    if '.' !in prefix {
      FirstPiece(prefix, key);
      SplitOfFree(prefix);
    } else {
      var a, b := CutAtDot(prefix);
      FirstPiece(a, b);
      Regroup(a, b, key);
      FirstPiece(a, b + "." + key);
    }
  }

  lemma CutAtDot(s: string) returns (a: string, b: string)
    requires '.' in s
    ensures s == a + "." + b && '.' !in a
  {
    FreeOfChar(s, '.');
    var i := FindFrom(s, ".", 0);
    NoDotBefore(s, i);
    a, b := s[..i], s[i + 1..];
    AtStart(s, ".", i);
  }

  lemma Regroup(a: string, b: string, key: string)
    ensures (a + "." + b) + "." + key == a + "." + (b + "." + key)
  {
  }

  lemma NoDotBefore(s: string, i: nat)
    requires i <= |s| && forall j | 0 <= j < i :: !At(s, ".", j)
    ensures '.' !in s[..i]
  {
    forall j | 0 <= j < i ensures s[j] != '.' {
      if s[j] == '.' {
        assert s[j..j + 1] == ".";
        assert At(s, ".", j);
      }
    }
  }

  /** The prefix of a traversal is blank, or starts with a piece that is not. */
  predicate ProperPrefix(prefix: string) {
    IsBlank(prefix) || !IsBlank(Split(prefix, ".")[0])
  }

  lemma {:induction false} BlankPrefixesVanish(prefix: string, config: seq<Pair>)
    requires ProperPrefix(prefix) && GoodKeys(config)
    ensures forall i | 0 <= i < |Traverse(prefix, config, "").entries| ::
              BlankIsWhole(Traverse(prefix, config, "").entries[i].key) && !Traverse(prefix, config, "").entries[i].value.Dict?
    decreases config
  {
    if config != [] {
      assert forall k | k in AllKeys(config[1..]) :: k in AllKeys(config);
      assert forall k | k in KeysOfPair(config[0]) :: k in AllKeys(config);
      BlankPrefixesVanishInPair(prefix, config[0]);
      BlankPrefixesVanish(prefix, config[1..]);
    }
  }

  lemma {:induction false} BlankPrefixesVanishInPair(prefix: string, p: Pair)
    requires ProperPrefix(prefix) && forall k | k in KeysOfPair(p) :: !BadKey(k)
    ensures forall i | 0 <= i < |TraversePair(prefix, p, "").entries| ::
              BlankIsWhole(TraversePair(prefix, p, "").entries[i].key) && !TraversePair(prefix, p, "").entries[i].value.Dict?
    decreases p
  {
    assert p.key in KeysOfPair(p);
    var v := AnyValue(p.value);
    SplitOfFree(p.key);
    FirstPieceKept(prefix, p.key);
    if v.Dict? {
      assert forall k | k in AllKeys(v.entries) :: k in KeysOfPair(p);
      BlankPrefixesVanish(PathOf(prefix, p.key), v.entries);
    }
  }

  /** A configuration in which no blank key is bound to a dict. */
  predicate BlankHoldsNoDict(config: seq<Pair>) {
    forall i | 0 <= i < |config| :: IsBlank(config[i].key) ==> !config[i].value.Dict?
  }

  lemma {:induction false} RebuiltBlankHoldsNoDict(leaves: seq<Leaf>)
    requires forall i | 0 <= i < |leaves| :: leaves[i].path != [] && !leaves[i].value.Dict?
    requires forall i | 0 <= i < |leaves| :: IsBlank(leaves[i].path[0]) ==> |leaves[i].path| == 1
    ensures BlankHoldsNoDict(InsertAll([], leaves))
    decreases |leaves|
  {
    if leaves != [] {
      RebuiltBlankHoldsNoDict(leaves[..|leaves| - 1]);
    }
  }

  lemma {:induction false} NormAt(config: seq<Pair>, i: nat)
    requires i < |config|
    ensures Norm(config)[i] == NormPair(config[i])
  {
    if i > 0 {
      NormAt(config[1..], i - 1);
    }
  }

  lemma LostSection(config: seq<Pair>)
    requires GoodKeys(config) && !NoBlankSection(config)
    ensures Unflatten(Traverse("", config, "").entries) != Norm(config)
  {
    var entries := Traverse("", config, "").entries;
    assert Strip("") == "";
    BlankPrefixesVanish("", config);
    var leaves := LeavesOf(entries);
    assert forall i | 0 <= i < |leaves| :: BlankIsWhole(entries[i].key);
    RebuiltBlankHoldsNoDict(leaves);
    var i :| 0 <= i < |config| && BlankSection(config[i]);
    NormAt(config, i);
    assert IsBlank(Norm(config)[i].key) && Norm(config)[i].value.Dict?;
  }

  // ---------------------------------------------------------------- main results

  /** Rebuilding the flattened entries gives the configuration back, empty strings, lists and dicts turned into
      null, if and only if no blank key at the top is bound to a non-empty dict. */
  lemma RecoverableExactlyWhen(config: seq<Pair>)
    requires GoodKeys(config) && Distinct(config)
    ensures Unflatten(Traverse("", config, "").entries) == Norm(config) <==> NoBlankSection(config)
  {
    if NoBlankSection(config) {
      RoundTrip(config);
    } else {
      LostSection(config);
    }
  }
}
