/** The inverse of flattening: entries split at the dots and inserted one by one into nested dicts. */
module ConfigUnflatten {
  import opened PyStrings
  import opened ConfigFlatten

  // ---------------------------------------------------------------- paths

  datatype Leaf = Leaf(path: seq<string>, value: Value)

  predicate DotFree(path: seq<string>) {
    forall i | 0 <= i < |path| :: '.' !in path[i]
  }

  /** `".".join(path)` */
  function Join(path: seq<string>): string
    requires path != []
  {
    if |path| == 1 then path[0] else path[0] + "." + Join(path[1..])
  }

  lemma SplitOfFree(key: string)
    requires '.' !in key
    ensures Split(key, ".") == [key]
  {
    FreeOfChar(key, '.');
  }

  /** Splitting on dots undoes joining pieces that have none. */
  lemma {:induction false} SplitOfJoin(path: seq<string>)
    requires path != [] && DotFree(path)
    ensures Split(Join(path), ".") == path
  {
    hide Split;
    if |path| == 1 {
      SplitOfFree(path[0]);
    } else {
      SplitOfJoin(path[1..]);
      FirstPiece(path[0], Join(path[1..]));
    }
  }

  lemma FirstPiece(a: string, b: string)
    requires '.' !in a
    ensures Split(a + "." + b, ".") == [a] + Split(b, ".")
  {
    var s := a + "." + b;
    var i := FindFrom(s, ".", 0);
    assert At(s, ".", |a|);
    AtStart(s, ".", i);
    assert forall j | 0 <= j < |a| :: s[j] == a[j];
    assert i == |a|;
    assert s[..i] == a && s[i + 1..] == b;
  }

  // ---------------------------------------------------------------- building a nested configuration

  function IndexOf(config: seq<Pair>, key: string): (i: nat)
    ensures i <= |config|
    ensures i < |config| ==> config[i].key == key
    ensures forall j | 0 <= j < i :: config[j].key != key
  {
    if config == [] || config[0].key == key then 0 else 1 + IndexOf(config[1..], key)
  }

  /** `config[key] = value` */
  function SetKey(config: seq<Pair>, key: string, value: Value): seq<Pair> {
    var i := IndexOf(config, key);
    if i == |config| then config + [Pair(key, value)] else config[i := Pair(key, value)]
  }

  /** The dict under `key`, if there is one. */
  function SubDict(config: seq<Pair>, key: string): seq<Pair> {
    var i := IndexOf(config, key);
    if i < |config| && config[i].value.Dict? then config[i].value.entries else []
  }

  function Insert(config: seq<Pair>, path: seq<string>, value: Value): seq<Pair>
    requires path != []
    decreases |path|
  {
    if |path| == 1 then SetKey(config, path[0], value)
    else SetKey(config, path[0], Dict(Insert(SubDict(config, path[0]), path[1..], value)))
  }

  function InsertAll(config: seq<Pair>, leaves: seq<Leaf>): seq<Pair>
    requires forall i | 0 <= i < |leaves| :: leaves[i].path != []
  {
    if leaves == [] then config
    else
      var last := leaves[|leaves| - 1];
      Insert(InsertAll(config, leaves[..|leaves| - 1]), last.path, last.value)
  }

  function LeavesOf(entries: seq<Entry>): (leaves: seq<Leaf>)
    ensures |leaves| == |entries|
    ensures forall i | 0 <= i < |leaves| :: leaves[i] == Leaf(Split(entries[i].key, "."), entries[i].value)
  {
    seq(|entries|, i requires 0 <= i < |entries| => Leaf(Split(entries[i].key, "."), entries[i].value))
  }

  /** Rebuild the nested configuration from dotted entries. */
  function Unflatten(entries: seq<Entry>): seq<Pair> {
    InsertAll([], LeavesOf(entries))
  }

  // ---------------------------------------------------------------- what can be recovered at all

  /** Null, a text of blanks, an empty list or an empty dict. */
  predicate IsEmpty(v: Value) {
    v == Null || v == List([]) || v == Dict([]) || (v.Text? && forall c | c in v.s :: IsSpace(c))
  }

  /** The value, or null for an empty one. */
  function Kept(v: Value): Value {
    if IsEmpty(v) then Null else v
  }

  lemma BlankMeansAllSpace(s: string)
    ensures IsBlank(s) <==> AllSpace(s)
  {
    if IsBlank(s) {
      var pre, post := StripParts(s);
    }
    if AllSpace(s) {
      StripBlanks(s);
    }
  }

  lemma {:induction false} StripBlanks(s: string)
    requires AllSpace(s)
    ensures Strip(s) == ""
  {
    if s != "" {
      StripBlanks(s[1..]);
    }
  }

  /** `get_any_value` keeps every value but the empty ones: numbers, booleans and lists with something in them as they are. */
  lemma AnyValueIs(v: Value)
    ensures AnyValue(v) == Kept(v)
    ensures v.Num? || v.Bool? || (v.List? && v.items != []) || (v.Dict? && v.entries != []) ==> AnyValue(v) == v
  {
    if v.Text? {
      BlankMeansAllSpace(v.s);
    }
  }

  /** A configuration with every empty value replaced by null. */
  function Norm(config: seq<Pair>): (r: seq<Pair>)
    ensures |r| == |config|
    decreases config
  {
    if config == [] then [] else [NormPair(config[0])] + Norm(config[1..])
  }

  function NormPair(p: Pair): Pair
    decreases p
  {
    Pair(p.key, if p.value.Dict? && p.value.entries != [] then Dict(Norm(p.value.entries)) else Kept(p.value))
  }

  /** No dict holds a key twice. */
  predicate Distinct(config: seq<Pair>)
    decreases config
  {
    config == [] || (DistinctPair(config[0]) && Distinct(config[1..]) && IndexOf(config[1..], config[0].key) == |config| - 1)
  }

  predicate DistinctPair(p: Pair)
    decreases p
  {
    p.value.Dict? ==> Distinct(p.value.entries)
  }

  predicate GoodKeys(config: seq<Pair>) {
    forall k | k in AllKeys(config) :: !BadKey(k)
  }

  /** A blank key at the top, bound to a dict with something in it. */
  predicate BlankSection(p: Pair) {
    IsBlank(p.key) && p.value.Dict? && p.value.entries != []
  }

  predicate NoBlankSection(config: seq<Pair>) {
    forall i | 0 <= i < |config| :: !BlankSection(config[i])
  }

  // ---------------------------------------------------------------- the leaves of a configuration

  function Under(key: string, leaves: seq<Leaf>): (r: seq<Leaf>)
    ensures |r| == |leaves|
    ensures forall i | 0 <= i < |r| :: r[i] == Leaf([key] + leaves[i].path, leaves[i].value)
  {
    seq(|leaves|, i requires 0 <= i < |leaves| => Leaf([key] + leaves[i].path, leaves[i].value))
  }

  function Leaves(config: seq<Pair>): (r: seq<Leaf>)
    ensures config != [] ==> r != []
    ensures forall i | 0 <= i < |r| :: r[i].path != []
    decreases config
  {
    if config == [] then [] else LeavesOfPair(config[0]) + Leaves(config[1..])
  }

  function LeavesOfPair(p: Pair): (r: seq<Leaf>)
    ensures r != []
    ensures forall i | 0 <= i < |r| :: r[i].path != []
    decreases p
  {
    var v := AnyValue(p.value);
    if v.Dict? then Under(p.key, Leaves(v.entries)) else [Leaf([p.key], v)]
  }

  /** Rebuilding from the leaves of a subtree only ever touches the last section of the configuration. */
  lemma {:induction false} InsertSection(config: seq<Pair>, key: string, leaves: seq<Leaf>)
    requires leaves != [] && forall i | 0 <= i < |leaves| :: leaves[i].path != []
    requires IndexOf(config, key) == |config|
    ensures InsertAll(config, Under(key, leaves)) == config + [Pair(key, Dict(InsertAll([], leaves)))]
    decreases |leaves|
  {
    var last, before := leaves[|leaves| - 1], leaves[..|leaves| - 1];
    var under := Under(key, leaves);
    assert under[..|under| - 1] == Under(key, before);
    assert ([key] + last.path)[1..] == last.path;
    var sofar := InsertAll(config, Under(key, before));
    if before == [] {
      assert sofar == config;
    } else {
      InsertSection(config, key, before);
      IndexAtEnd(config, key, Dict(InsertAll([], before)));
    }
  }

  lemma IndexAtEnd(config: seq<Pair>, key: string, value: Value)
    requires IndexOf(config, key) == |config|
    ensures IndexOf(config + [Pair(key, value)], key) == |config|
  {
    var longer := config + [Pair(key, value)];
    assert longer[|config|].key == key;
    assert forall j | 0 <= j < |config| :: longer[j] == config[j];
  }

  lemma SnocOfConcat<T>(a: seq<T>, b: seq<T>)
    requires b != []
    ensures a + b != [] && (a + b)[..|a + b| - 1] == a + b[..|b| - 1] && (a + b)[|a + b| - 1] == b[|b| - 1]
  {
  }

  lemma {:induction false} InsertAllConcat(config: seq<Pair>, a: seq<Leaf>, b: seq<Leaf>)
    requires forall i | 0 <= i < |a| :: a[i].path != []
    requires forall i | 0 <= i < |b| :: b[i].path != []
    ensures InsertAll(config, a + b) == InsertAll(InsertAll(config, a), b)
    decreases |b|
  {
    if b == [] {
      assert a + b == a;
    } else {
      SnocOfConcat(a, b);
      InsertAllConcat(config, a, b[..|b| - 1]);
    }
  }

  ghost predicate Apart(config: seq<Pair>, more: seq<Pair>) {
    forall j | 0 <= j < |more| :: IndexOf(config, more[j].key) == |config|
  }

  lemma {:induction false} IndexAfterOther(config: seq<Pair>, p: Pair, key: string)
    requires IndexOf(config, key) == |config| && p.key != key
    ensures IndexOf(config + [p], key) == |config| + 1
  {
    if config == [] {
      assert [p][1..] == [];
    } else {
      assert (config + [p])[1..] == config[1..] + [p];
      IndexAfterOther(config[1..], p, key);
    }
  }

  lemma ApartStep(config: seq<Pair>, p: Pair, more: seq<Pair>)
    requires more != [] && Apart(config, more) && Distinct(more) && p.key == more[0].key
    ensures Apart(config + [p], more[1..]) && IndexOf(config, p.key) == |config|
  {
    var longer := config + [p];
    forall j | 0 <= j < |more[1..]| ensures IndexOf(longer, more[1..][j].key) == |longer| {
      assert more[1..][j] == more[j + 1];
      IndexAfterOther(config, p, more[j + 1].key);
    }
  }

  lemma Assoc<T>(a: seq<T>, b: seq<T>, c: seq<T>)
    ensures (a + b) + c == a + (b + c)
  {
  }

  /** Rebuilding from all leaves gives the normalized configuration back, appended to what was there. */
  lemma {:induction false} InsertLeaves(config: seq<Pair>, more: seq<Pair>)
    requires Distinct(more) && Apart(config, more)
    ensures InsertAll(config, Leaves(more)) == config + Norm(more)
    decreases more
  {
    if more == [] {
      assert config + [] == config;
    } else {
      var p, rest := more[0], more[1..];
      InsertAllConcat(config, LeavesOfPair(p), Leaves(rest));
      ApartStep(config, NormPair(p), more);
      InsertPair(config, p);
      InsertLeaves(config + [NormPair(p)], rest);
      Assoc(config, [NormPair(p)], Norm(rest));
    }
  }

  lemma {:induction false} InsertPair(config: seq<Pair>, p: Pair)
    requires DistinctPair(p) && IndexOf(config, p.key) == |config|
    ensures InsertAll(config, LeavesOfPair(p)) == config + [NormPair(p)]
    decreases p
  {
    AnyValueIs(p.value);
    var v := AnyValue(p.value);
    if v.Dict? {
      InsertSection(config, p.key, Leaves(v.entries));
      InsertLeaves([], v.entries);
      assert [] + Norm(v.entries) == Norm(v.entries);
    } else {
      var leaves := LeavesOfPair(p);
      assert leaves[..|leaves| - 1] == [];
    }
  }
}
