/** `ConfigGenerator.traverse_config`: nested configuration to dotted key-value entries. */
module ConfigFlatten {
  import opened PyStrings

  datatype Value =
    | Null
    | Bool(b: bool)
    | Num(n: real)
    | Text(s: string)
    | List(items: seq<Value>)
    | Dict(entries: seq<Pair>)

  datatype Pair = Pair(key: string, value: Value)

  datatype Entry = Entry(key: string, value: Value)

  /** `is_empty` of a string */
  predicate IsBlank(s: string) {
    Strip(s) == ""
  }

  /** `value_exists` for a key that is present */
  predicate Exists(v: Value) {
    match v
    case Null => false
    case Text(s) => !IsBlank(s)
    case List(items) => items != []
    case Dict(entries) => entries != []
    case _ => true
  }

  /** `get_any_value` for a key that is present */
  function AnyValue(v: Value): Value {
    if Exists(v) then v else Null
  }

  predicate BadKey(key: string) {
    '.' in key || ':' in key
  }

  function PathOf(prefix: string, key: string): string {
    if IsBlank(prefix) then key else prefix + "." + key
  }

  predicate Selected(filter: string, path: string) {
    IsBlank(filter) || filter <= path
  }

  /** The entries appended, and whether an exception ended the traversal. */
  datatype Outcome = Outcome(entries: seq<Entry>, raised: bool)

  function Traverse(prefix: string, config: seq<Pair>, filter: string): Outcome
    decreases config
  {
    if config == [] then Outcome([], false)
    else
      var first := TraversePair(prefix, config[0], filter);
      if first.raised then first
      else
        var rest := Traverse(prefix, config[1..], filter);
        Outcome(first.entries + rest.entries, rest.raised)
  }

  function TraversePair(prefix: string, p: Pair, filter: string): Outcome
    decreases p
  {
    if BadKey(p.key) then Outcome([], true)
    else
      var path, v := PathOf(prefix, p.key), AnyValue(p.value);
      if v.Dict? then Traverse(path, v.entries, filter)
      else Outcome(if Selected(filter, path) then [Entry(path, v)] else [], false)
  }

  /** The list the caller passes in, appended to in place. */
  class Entries {
    var items: seq<Entry>

    constructor ()
      ensures items == []
    {
      items := [];
    }
  }

  method TraverseConfig(configEntries: Entries, prefix: string, config: seq<Pair>, filter: string) returns (raised: bool)
    modifies configEntries
    ensures configEntries.items == old(configEntries.items) + Traverse(prefix, config, filter).entries
    ensures raised == Traverse(prefix, config, filter).raised
    decreases config
  {
    ghost var before := configEntries.items;
    for i := 0 to |config|
      invariant configEntries.items + Traverse(prefix, config[i..], filter).entries
             == before + Traverse(prefix, config, filter).entries
      invariant Traverse(prefix, config[i..], filter).raised == Traverse(prefix, config, filter).raised
    {
      var key := config[i].key;
      ghost var first, rest := TraversePair(prefix, config[i], filter), Traverse(prefix, config[i + 1..], filter);
      assert config[i..][0] == config[i] && config[i..][1..] == config[i + 1..];
      if '.' in key || ':' in key {
        assert configEntries.items + [] == configEntries.items;
        return true;
      }
      var value := AnyValue(config[i].value);
      var pathPrefix := PathOf(prefix, key);
      ghost var now := configEntries.items;
      if value.Dict? {
        raised := TraverseConfig(configEntries, pathPrefix, value.entries, filter);
        if raised {
          return;
        }
      } else if Selected(filter, pathPrefix) {
        configEntries.items := configEntries.items + [Entry(pathPrefix, value)];
      }
      assert now + (first.entries + rest.entries) == (now + first.entries) + rest.entries;
      assert configEntries.items == now + first.entries;
    }
    raised := false;
  }

  // ---------------------------------------------------------------- when it raises

  /** The keys at every depth. */
  function AllKeys(config: seq<Pair>): set<string>
    decreases config
  {
    if config == [] then {} else KeysOfPair(config[0]) + AllKeys(config[1..])
  }

  function KeysOfPair(p: Pair): set<string>
    decreases p
  {
    {p.key} + if p.value.Dict? then AllKeys(p.value.entries) else {}
  }

  /** Traversal raises exactly when some key at any depth contains a dot or a colon, whatever the filter. */
  lemma {:induction false} RaisesExactlyWhen(prefix: string, config: seq<Pair>, filter: string)
    ensures Traverse(prefix, config, filter).raised <==> exists k :: k in AllKeys(config) && ('.' in k || ':' in k)
    decreases config
  {
    if config != [] {
      PairRaisesExactlyWhen(prefix, config[0], filter);
      RaisesExactlyWhen(prefix, config[1..], filter);
      assert forall k :: k in AllKeys(config) <==> k in KeysOfPair(config[0]) || k in AllKeys(config[1..]);
    }
  }

  lemma {:induction false} PairRaisesExactlyWhen(prefix: string, p: Pair, filter: string)
    ensures TraversePair(prefix, p, filter).raised <==> exists k :: k in KeysOfPair(p) && ('.' in k || ':' in k)
    decreases p
  {
    if p.value.Dict? {
      if p.value.entries == [] {
        assert KeysOfPair(p) == {p.key};
      } else {
        RaisesExactlyWhen(PathOf(prefix, p.key), p.value.entries, filter);
      }
    }
    assert p.key in KeysOfPair(p);
  }

  // ---------------------------------------------------------------- filtering

  /** The entries whose key begins with the filter; all of them if the filter is blank. */
  function Filtered(entries: seq<Entry>, filter: string): seq<Entry> {
    if entries == [] then []
    else (if IsBlank(filter) || filter <= entries[0].key then [entries[0]] else []) + Filtered(entries[1..], filter)
  }

  lemma {:induction false} FilteredConcat(a: seq<Entry>, b: seq<Entry>, filter: string)
    ensures Filtered(a + b, filter) == Filtered(a, filter) + Filtered(b, filter)
  {
    if a == [] {
      assert a + b == b;
    } else {
      assert (a + b)[0] == a[0] && (a + b)[1..] == a[1..] + b;
      FilteredConcat(a[1..], b, filter);
    }
  }

  /** Flattening under a key prefix is filtering the full flattening, in the same order. */
  lemma {:induction false} FilterCommutes(prefix: string, config: seq<Pair>, filter: string)
    ensures Traverse(prefix, config, filter).entries == Filtered(Traverse(prefix, config, "").entries, filter)
    ensures Traverse(prefix, config, filter).raised == Traverse(prefix, config, "").raised
    decreases config
  {
    if config != [] {
      FilterCommutesPair(prefix, config[0], filter);
      FilterCommutes(prefix, config[1..], filter);
      FilteredConcat(TraversePair(prefix, config[0], "").entries, Traverse(prefix, config[1..], "").entries, filter);
    }
  }

  lemma {:induction false} FilterCommutesPair(prefix: string, p: Pair, filter: string)
    ensures TraversePair(prefix, p, filter).entries == Filtered(TraversePair(prefix, p, "").entries, filter)
    ensures TraversePair(prefix, p, filter).raised == TraversePair(prefix, p, "").raised
    decreases p
  {
    if !BadKey(p.key) {
      var v := AnyValue(p.value);
      if v.Dict? {
        FilterCommutes(PathOf(prefix, p.key), v.entries, filter);
      }
    }
  }
}
