/** Which entries two configurations share, and when the keys of the flattened entries are distinct. A blank key at
    the top vanishes from the paths below it, so both are decided by the configuration with such sections spliced
    into the top. */
module ConfigKeys {
  import opened PyStrings
  import opened ConfigFlatten
  import opened ConfigUnflatten
  import opened ConfigRoundTrip

  // ---------------------------------------------------------------- splicing blank sections

  /** The configuration with each blank section at the top replaced by its own entries, again and again. */
  function Spliced(config: seq<Pair>): seq<Pair>
    decreases config
  {
    if config == [] then []
    else
      var p := config[0];
      (if BlankSection(p) then Spliced(p.value.entries) else [p]) + Spliced(config[1..])
  }

  lemma {:induction false} SplicedKeys(config: seq<Pair>)
    requires GoodKeys(config)
    ensures GoodKeys(Spliced(config)) && NoBlankSection(Spliced(config))
    decreases config
  {
    if config != [] {
      var p, rest := config[0], config[1..];
      assert forall k | k in AllKeys(rest) :: k in AllKeys(config);
      assert forall k | k in KeysOfPair(p) :: k in AllKeys(config);
      SplicedKeys(rest);
      if BlankSection(p) {
        assert forall k | k in AllKeys(p.value.entries) :: k in KeysOfPair(p);
        SplicedKeys(p.value.entries);
        AllKeysOfConcat(Spliced(p.value.entries), Spliced(rest));
      } else {
        AllKeysOfConcat([p], Spliced(rest));
        assert AllKeys([p]) == KeysOfPair(p) + AllKeys([p][1..]);
      }
    }
  }

  lemma {:induction false} AllKeysOfConcat(a: seq<Pair>, b: seq<Pair>)
    ensures AllKeys(a + b) == AllKeys(a) + AllKeys(b)
    decreases |a|
  {
    if a == [] {
      assert a + b == b;
    } else {
      assert (a + b)[0] == a[0] && (a + b)[1..] == a[1..] + b;
      AllKeysOfConcat(a[1..], b);
    }
  }

  lemma {:induction false} TraverseOfConcat(prefix: string, a: seq<Pair>, b: seq<Pair>)
    requires GoodKeys(a)
    ensures var r, s := Traverse(prefix, a, ""), Traverse(prefix, b, "");
            !r.raised && Traverse(prefix, a + b, "") == Outcome(r.entries + s.entries, s.raised)
    decreases |a|
  {
    RaisesExactlyWhen(prefix, a, "");
    var s := Traverse(prefix, b, "");
    if a == [] {
      assert a + b == b && [] + s.entries == s.entries;
    } else {
      assert (a + b)[0] == a[0] && (a + b)[1..] == a[1..] + b;
      assert forall k | k in AllKeys(a[1..]) :: k in AllKeys(a);
      TraverseOfConcat(prefix, a[1..], b);
      var first, rest := TraversePair(prefix, a[0], "").entries, Traverse(prefix, a[1..], "").entries;
      assert (first + rest) + s.entries == first + (rest + s.entries);
    }
  }

  /** Splicing does not change the entries, nor does a blank prefix. */
  lemma {:induction false} SplicedTraversal(prefix: string, config: seq<Pair>)
    requires IsBlank(prefix) && GoodKeys(config)
    ensures Traverse(prefix, config, "") == Traverse("", Spliced(config), "")
    decreases config
  {
    if config != [] {
      var p, rest := config[0], config[1..];
      assert forall k | k in AllKeys(rest) :: k in AllKeys(config);
      assert forall k | k in KeysOfPair(p) :: k in AllKeys(config);
      assert p.key in KeysOfPair(p);
      SplicedTraversal(prefix, rest);
      RaisesExactlyWhen(prefix, config, "");
      SplicedKeys(config);
      if BlankSection(p) {
        assert forall k | k in AllKeys(p.value.entries) :: k in KeysOfPair(p);
        SplicedTraversal(p.key, p.value.entries);
        SplicedKeys(p.value.entries);
        TraverseOfConcat("", Spliced(p.value.entries), Spliced(rest));
      } else {
        assert IsBlank("") && PathOf(prefix, p.key) == PathOf("", p.key);
        assert ([p] + Spliced(rest))[1..] == Spliced(rest);
      }
    }
  }

  // ---------------------------------------------------------------- entries are the leaves of the spliced configuration

  /** Entry `i` is leaf `i` of the spliced configuration, its path joined by dots. */
  lemma EntryIsLeaf(config: seq<Pair>, i: nat)
    requires GoodKeys(config)
    ensures var entries, leaves := Traverse("", config, "").entries, Leaves(Spliced(config));
            && |entries| == |leaves|
            && (i < |leaves| ==>
                  entries[i] == Entry(Join(leaves[i].path), leaves[i].value) && Split(entries[i].key, ".") == leaves[i].path)
  {
    var leaves := Leaves(Spliced(config));
    assert IsBlank("") by {
      assert Strip("") == "";
    }
    SplicedTraversal("", config);
    SplicedKeys(config);
    TraverseTop(Spliced(config));
    LeavesDotFree(Spliced(config));
    if i < |leaves| {
      assert [] + leaves[i].path == leaves[i].path;
      SplitOfJoin(leaves[i].path);
    }
  }

  /** No two leaves of the spliced configuration have the same path. */
  predicate NoPathTwice(config: seq<Pair>) {
    forall i, j | 0 <= i < j < |Leaves(Spliced(config))| ::
      Leaves(Spliced(config))[i].path != Leaves(Spliced(config))[j].path
  }

  // ---------------------------------------------------------------- main results

  /** Two configurations have the same entries if and only if they have the same leaves once spliced. */
  lemma SameEntriesExactlyWhen(a: seq<Pair>, b: seq<Pair>)
    requires GoodKeys(a) && GoodKeys(b)
    ensures Traverse("", a, "").entries == Traverse("", b, "").entries <==> Leaves(Spliced(a)) == Leaves(Spliced(b))
  {
    EntryIsLeaf(a, 0);
    EntryIsLeaf(b, 0);
    forall i | 0 <= i < |Leaves(Spliced(a))| && |Leaves(Spliced(a))| == |Leaves(Spliced(b))|
      ensures Traverse("", a, "").entries[i] == Traverse("", b, "").entries[i]
         <==> Leaves(Spliced(a))[i] == Leaves(Spliced(b))[i]
    {
      EntryIsLeaf(a, i);
      EntryIsLeaf(b, i);
    }
  }

  /** Without blank sections, configurations with the same entries differ only in what is empty. */
  lemma FlattenInjective(a: seq<Pair>, b: seq<Pair>)
    requires GoodKeys(a) && Distinct(a) && NoBlankSection(a)
    requires GoodKeys(b) && Distinct(b) && NoBlankSection(b)
    requires Traverse("", a, "").entries == Traverse("", b, "").entries
    ensures Norm(a) == Norm(b)
  {
    RoundTrip(a);
    RoundTrip(b);
  }

  /** The flattened keys are pairwise distinct if and only if no path occurs twice once blank sections are spliced. */
  lemma KeysDistinctExactlyWhen(config: seq<Pair>)
    requires GoodKeys(config)
    ensures (forall i, j | 0 <= i < j < |Traverse("", config, "").entries| ::
               Traverse("", config, "").entries[i].key != Traverse("", config, "").entries[j].key)
       <==> NoPathTwice(config)
  {
    hide Traverse, Leaves, Spliced, Split, Join;
    EntryIsLeaf(config, 0);
    var entries, leaves := Traverse("", config, "").entries, Leaves(Spliced(config));
    forall i, j | 0 <= i < j < |entries|
      ensures entries[i].key != entries[j].key <==> leaves[i].path != leaves[j].path
    {
      EntryIsLeaf(config, i);
      EntryIsLeaf(config, j);
    }
  }

  /** In particular they are when nothing is to be spliced. */
  lemma FlattenedKeysDistinct(config: seq<Pair>, i: nat, j: nat)
    requires GoodKeys(config) && Distinct(config) && NoBlankSection(config)
    requires i < j < |Traverse("", config, "").entries|
    ensures Traverse("", config, "").entries[i].key != Traverse("", config, "").entries[j].key
  {
    NothingToSplice(config);
    EntryIsLeaf(config, 0);
    forall k, l | 0 <= k < l < |Leaves(config)| ensures Leaves(config)[k].path != Leaves(config)[l].path {
      LeavesDiffer(config, k, l);
    }
    KeysDistinctExactlyWhen(config);
  }

  lemma {:induction false} NothingToSplice(config: seq<Pair>)
    requires NoBlankSection(config)
    ensures Spliced(config) == config
  {
    if config != [] {
      assert !BlankSection(config[0]);
      assert forall i | 0 <= i < |config[1..]| :: config[1..][i] == config[i + 1];
      NothingToSplice(config[1..]);
    }
  }

  lemma {:induction false} LeafHeads(config: seq<Pair>, i: nat)
    requires i < |Leaves(config)|
    ensures IndexOf(config, Leaves(config)[i].path[0]) < |config|
    decreases config
  {
    var first := LeavesOfPair(config[0]);
    if i >= |first| {
      LeafHeads(config[1..], i - |first|);
    }
  }

  lemma {:induction false} LeavesDiffer(config: seq<Pair>, i: nat, j: nat)
    requires Distinct(config) && i < j < |Leaves(config)|
    ensures Leaves(config)[i].path != Leaves(config)[j].path
    decreases config
  {
    var p, first := config[0], LeavesOfPair(config[0]);
    if j < |first| {
      var v := AnyValue(p.value);
      LeavesDiffer(v.entries, i, j);
      assert first[i].path[1..] == Leaves(v.entries)[i].path && first[j].path[1..] == Leaves(v.entries)[j].path;
    } else if i >= |first| {
      LeavesDiffer(config[1..], i - |first|, j - |first|);
    } else {
      LeafHeads(config[1..], j - |first|);
      assert first[i].path[0] == p.key;
    }
  }

  const BLANK := [Pair("", Dict([Pair("a", Bool(true))])), Pair("a", Bool(false))]

  /** With a blank section the keys can clash. */
  lemma BlankSectionClashes()
    ensures GoodKeys(BLANK) && Distinct(BLANK) && !NoBlankSection(BLANK)
    ensures Traverse("", BLANK, "") == Outcome([Entry("a", Bool(true)), Entry("a", Bool(false))], false)
  {
    assert Strip("") == "";
    assert BlankSection(BLANK[0]);
    var inner := [Pair("a", Bool(true))];
    assert Traverse("", inner, "") == Outcome([Entry("a", Bool(true))], false);
    assert AllKeys(inner) == {"a"} && KeysOfPair(BLANK[0]) == {"", "a"};
    assert BLANK[1..] == [Pair("a", Bool(false))];
    assert AllKeys(BLANK[1..]) == {"a"};
    assert IndexOf(BLANK[1..], "") == 1;
  }
}
