/** `TypingsGenerator.fix_anomalies`: the definitions table is a mutable dict whose values are shared,
    mutable objects. Aliasing a definition files the very same object under a second name. */
module SchemaFixer {
  import opened Wrappers
  import opened SchemaRefs
  import opened SchemaTable
  import opened SchemaRewriting

  /** A Python object holding a JSON value that is rewritten in place. */
  class Definition {
    var value: Json

    constructor (value: Json)
      ensures this.value == value
    {
      this.value := value;
    }
  }

  /** A Python dict from names to definitions, with its insertion order. */
  class Definitions {
    var order: seq<string>
    var table: map<string, Definition>

    ghost predicate Valid()
      reads this
    {
      NoDuplicates(order) && (forall k | k in order :: k in table) && (forall k | k in table :: k in order)
    }

    ghost function Cells(): set<Definition>
      reads this
    {
      set k | k in table :: table[k]
    }

    ghost function Contents(): (env: Env)
      reads this, Cells()
    {
      map k | k in table :: table[k].value
    }

    constructor ()
      ensures Valid() && order == []
    {
      order, table := [], map[];
    }
  }

  /** `schema[key]`, when the key is there. */
  datatype Slot = Absent | NotADict | Dict(definitions: Definitions)

  class Schema {
    var dollarDefs: Slot
    var definitions: Slot
    var properties: Definition?

    constructor (dollarDefs: Slot, definitions: Slot, properties: Definition?)
      ensures this.dollarDefs == dollarDefs && this.definitions == definitions && this.properties == properties
    {
      this.dollarDefs, this.definitions, this.properties := dollarDefs, definitions, properties;
    }

    function DefsKey(): string
      reads this
    {
      if dollarDefs.Absent? then "definitions" else "$defs"
    }

    function DefsSlot(): Slot
      reads this
    {
      if dollarDefs.Absent? then definitions else dollarDefs
    }
  }

  /** The table once the keys `keys[..n]` have their short names: `order` and `table` grown from `original`. */
  ghost predicate Aliased<T>(keys: seq<string>, original: map<string, T>, n: nat, order: seq<string>, table: map<string, T>)
    requires n <= |keys|
    requires forall k | k in keys :: k in original
  {
    && order == NamesAfter(keys, n)
    && (forall s | s in order :: s in table)
    && (forall s | s in table :: s in order && (s in keys || IsShortOf(keys, s)) && table[s] == original[Source(keys, s)])
  }

  lemma AliasStep<T>(keys: seq<string>, original: map<string, T>, n: nat, order: seq<string>, table: map<string, T>)
    requires n < |keys|
    requires forall k | k in keys :: k in original
    requires Aliased(keys, original, n, order, table)
    requires IsLong(keys[n]) && ShortName(keys[n]) !in table
    ensures keys[n] in table
    ensures var short := ShortName(keys[n]);
            Aliased(keys, original, n + 1, order + [short], table[short := table[keys[n]]])
  {
    var key, short := keys[n], ShortName(keys[n]);
    NamesAfterNames(keys, n, short);
    NamesAfterNames(keys, n, key);
    FirstWithIsFirst(keys, n);
    assert Source(keys, short) == key == Source(keys, key);
  }

  /** First pass: map every long key to its short name, and file its definition under that name
      unless something is already filed there. */
  method AliasShortNames(d: Definitions) returns (mapping: map<string, string>)
    requires d.Valid()
    modifies d`order, d`table
    ensures d.Valid()
    ensures mapping == Mapping(old(d.order))
    ensures Aliased(old(d.order), old(d.table), |old(d.order)|, d.order, d.table)
  {
    var keys := d.order;
    mapping := map[];
    for i := 0 to |keys|
      invariant mapping == Mapping(keys[..i])
      invariant Aliased(keys, old(d.table), i, d.order, d.table)
    {
      var key := keys[i];
      MappingStep(keys, i);
      if IsLong(key) {
        var simpleName := ShortName(key);
        mapping := mapping[key := simpleName];
        if simpleName !in d.table {
          AliasStep(keys, old(d.table), i, d.order, d.table);
          d.order, d.table := d.order + [simpleName], d.table[simpleName := d.table[key]];
        }
      }
    }
    assert keys[..|keys|] == keys;
    NamesAfterDistinct(keys, |keys|);
  }

  /** One visit of an object in place: its value is the original one, or already the rewritten one. */
  method Visit(c: Context, d: Definition, ghost original: Json) returns (problems: set<string>)
    requires Coherent(c) && Safe(c.defsKey, original)
    requires d.value == original || d.value == FixValue(c, original)
    modifies d
    ensures d.value == FixValue(c, original)
    ensures problems == Problems(c, original)
  {
    FixValueIdempotent(c, original);
    ProblemsStable(c, original);
    SafeStable(c, original);
    var v;
    v, problems := FixRefsInObject(c, d.value);
    d.value := v;
  }

  ghost function Root(properties: Definition?): set<Definition> {
    if properties == null then {} else var p: Definition := properties; {p}
  }

  /** Second pass: rewrite the properties and every definition, which between them are the objects `all`.
      An aliased definition is visited twice. */
  method FixAllRefs(c: Context, d: Definitions, properties: Definition?, ghost all: set<Definition>)
    returns (problems: set<string>)
    requires d.Valid() && Coherent(c) && all == d.Cells() + Root(properties)
    requires forall o | o in all :: Safe(c.defsKey, o.value)
    modifies all
    ensures forall o | o in all :: o.value == FixValue(c, old(o.value)) && Problems(c, old(o.value)) <= problems
    ensures forall t | t in problems :: exists o: Definition :: o in all && t in Problems(c, old(o.value))
  {
    hide FixValue, Problems, Safe, Coherent;
    ghost var visited: set<Definition> := {};
    problems := {};
    if properties != null {
      problems := Visit(c, properties, properties.value);
      visited := Root(properties);
    }
    for i := 0 to |d.order|
      invariant Root(properties) <= visited <= all
      invariant forall j | 0 <= j < i :: d.table[d.order[j]] in visited
      invariant forall o | o in all && o !in visited :: o.value == old(o.value)
      invariant forall o | o in visited :: o.value == FixValue(c, old(o.value)) && Problems(c, old(o.value)) <= problems
      invariant forall t | t in problems :: exists o: Definition :: o in visited && t in Problems(c, old(o.value))
    {
      var o := d.table[d.order[i]];
      assert o in all;
      var more := Visit(c, o, old(o.value));
      problems, visited := problems + more, visited + {o};
    }
    assert all <= visited;
  }

  /** Clean-up: drop the long names. */
  method DropLongNames(d: Definitions, mapping: map<string, string>)
    requires d.Valid()
    requires forall k | k in d.order && IsLong(k) :: k in mapping
    modifies d`order, d`table
    ensures d.Valid() && d.order == ShortOnly(old(d.order), |old(d.order)|)
    ensures forall s | s in d.order :: s in old(d.table) && d.table[s] == old(d.table)[s]
  {
    var keys := d.order;
    for i := 0 to |keys|
      invariant d.Valid()
      invariant d.order == ShortOnly(keys, i) + keys[i..]
      invariant forall s | s in d.order :: s in old(d.table) && d.table[s] == old(d.table)[s]
    {
      var key := keys[i];
      ghost var kept := ShortOnly(keys, i);
      DropStep(kept, keys, i);
      if IsLong(key) && key in mapping {
        Remove(d, key, |kept|);
      }
    }
  }

  lemma DropStep(kept: seq<string>, keys: seq<string>, i: nat)
    requires i < |keys|
    ensures var all := kept + keys[i..];
            && all[|kept|] == keys[i]
            && all[..|kept|] + all[|kept| + 1..] == kept + keys[i + 1..]
            && all == (kept + [keys[i]]) + keys[i + 1..]
  {
  }

  /** `del definitions[key]` */
  method Remove(d: Definitions, key: string, ghost at: nat)
    requires d.Valid() && at < |d.order| && d.order[at] == key
    modifies d`order, d`table
    ensures d.Valid() && d.order == old(d.order)[..at] + old(d.order)[at + 1..]
    ensures d.table == old(d.table) - {key}
  {
    var i := 0;
    while d.order[i] != key
      invariant i <= at
      decreases at - i
    {
      i := i + 1;
    }
    assert i == at;
    d.order := d.order[..i] + d.order[i + 1..];
    d.table := d.table - {key};
  }

  /** `definitions[name] = {...}` for a name that is not there yet */
  method AddPlaceholder(d: Definitions, name: string, refPath: string)
    requires d.Valid() && name !in d.table
    modifies d
    ensures d.Valid() && d.order == old(d.order) + [name]
    ensures d.table.Keys == old(d.table).Keys + {name} && forall s | s in old(d.table) :: d.table[s] == old(d.table)[s]
    ensures fresh(d.table[name]) && d.table[name].value == Placeholder(refPath)
  {
    var p := new Definition(Placeholder(refPath));
    d.order, d.table := d.order + [name], d.table[name := p];
  }

  /** Placeholders for the references that stay unresolved, in no particular order. */
  method AddPlaceholders(d: Definitions, problems: set<string>)
    requires d.Valid()
    modifies d
    ensures d.Valid() && old(d.order) <= d.order
    ensures forall s :: s in d.order <==> s in old(d.order) || exists t :: t in problems && ShortName(t) == s
    ensures forall s | s in old(d.order) :: d.table[s] == old(d.table)[s] && d.Contents()[s] == old(d.Contents())[s]
    ensures forall s | s in d.order && s !in old(d.order) ::
              exists t :: t in problems && ShortName(t) == s && d.Contents()[s] == Placeholder(t)
  {
    hide ShortName, Placeholder;
    var todo := problems;
    ghost var source: map<string, string> := map[];
    while todo != {}
      invariant todo <= problems
      invariant d.Valid() && old(d.order) <= d.order
      invariant forall s :: s in d.order <==> s in old(d.order) || s in source
      invariant forall t | t in problems && t !in todo :: ShortName(t) in d.order
      invariant forall s | s in source :: source[s] in problems && ShortName(source[s]) == s
      invariant forall s | s in old(d.order) :: d.table[s] == old(d.table)[s]
      invariant forall s | s in source && s !in old(d.order) ::
                  fresh(d.table[s]) && d.table[s].value == Placeholder(source[s])
    {
      var refPath :| refPath in todo;
      var simpleName := ShortName(refPath);
      if simpleName !in d.table {
        AddPlaceholder(d, simpleName, refPath);
        source := source[simpleName := refPath];
      }
      todo := todo - {refPath};
    }
  }

  ghost function ValueOf(properties: Definition?): Option<Json>
    reads properties
  {
    if properties == null then None else Some(properties.value)
  }

  /** Every object the pass may rewrite: the dict itself, its definitions, the properties. */
  ghost function Footprint(schema: Schema): set<object>
    reads schema, if schema.DefsSlot().Dict? then {schema.DefsSlot().definitions} else {}
  {
    match schema.DefsSlot()
    case Dict(d) => {d} + d.Cells() + Root(schema.properties)
    case _ => {}
  }

  /** The dict is one, and `fix_refs_in_object` raises no exception on the values it visits. */
  ghost predicate Fixable(schema: Schema)
    reads schema, Footprint(schema)
  {
    match schema.DefsSlot()
    case Dict(d) =>
      && d.Valid()
      && (forall o | o in d.Cells() + Root(schema.properties) :: Safe(schema.DefsKey(), o.value))
    case _ => true
  }

  /** The three passes over a table with its properties: alias, rewrite, clean up. */
  method UnifyReferences(defsKey: string, d: Definitions, properties: Definition?,
                         ghost all: set<Definition>, ghost c: Context)
    returns (problems: set<string>)
    requires d.Valid() && c == FixContext(defsKey, d.order) && all == d.Cells() + Root(properties)
    requires forall o | o in all :: Safe(defsKey, o.value)
    modifies d, all
    ensures d.Valid() && d.order == FinalOrder(old(d.order))
    ensures forall s | s in d.order :: IsShortOf(old(d.order), s) && d.table[s] == old(d.table)[Source(old(d.order), s)]
    ensures forall o | o in all :: o.value == FixValue(c, old(o.value)) && Problems(c, old(o.value)) <= problems
    ensures forall t | t in problems :: exists o: Definition :: o in all && t in Problems(c, old(o.value))
  {
    hide Safe, Coherent, IsShortOf, Source;
    ghost var keys, original, cells := d.order, d.table, d.Cells();
    var mapping := AliasShortNames(d);
    var known := Context(defsKey, mapping, set k | k in d.order);
    assert known == c;
    FixContextIsCoherent(defsKey, keys);
    SameCells(keys, original, d.order, d.table);
    assert d.Cells() == cells;
    problems := FixAllRefs(known, d, properties, all);
    LongNamesAreMapped(keys);
    ghost var table := d.table;
    SurvivorsFiled(keys, original, d.order, table);
    DropLongNames(d, mapping);
    assert d.order == FinalOrder(keys);
    assert forall s | s in d.order :: d.table[s] == table[s];
  }

  /** The names that survive are the short ones, each with the definition it was first an alias of. */
  lemma SurvivorsFiled<T>(keys: seq<string>, original: map<string, T>, order: seq<string>, table: map<string, T>)
    requires forall k | k in keys :: k in original
    requires Aliased(keys, original, |keys|, order, table)
    ensures forall s | s in FinalOrder(keys) :: IsShortOf(keys, s) && s in table && table[s] == original[Source(keys, s)]
  {
    forall s | s in FinalOrder(keys) ensures IsShortOf(keys, s) && s in table && table[s] == original[Source(keys, s)] {
      FinalOrderNames(keys, s);
      NamesAfterNames(keys, |keys|, s);
    }
  }

  /** Aliasing brings in no new objects and loses none. */
  lemma SameCells(keys: seq<string>, original: map<string, Definition>, order: seq<string>, table: map<string, Definition>)
    requires (forall k | k in keys :: k in original) && (forall k | k in original :: k in keys)
    requires Aliased(keys, original, |keys|, order, table)
    ensures (set k | k in table :: table[k]) == (set k | k in original :: original[k])
  {
    forall k | k in original ensures k in table && table[k] == original[k] {
      NamesAfterNames(keys, |keys|, k);
      assert k in order;
      assert Source(keys, k) == k;
    }
  }

  lemma LongNamesAreMapped(keys: seq<string>)
    ensures forall k | k in NamesAfter(keys, |keys|) && IsLong(k) :: k in Mapping(keys)
  {
    forall k | k in NamesAfter(keys, |keys|) && IsLong(k) ensures k in keys {
      NamesAfterNames(keys, |keys|, k);
      if k !in keys {
        var i :| 0 <= i < |keys| && ShortName(keys[i]) == k;
        ShortNameIsShort(keys[i]);
      }
    }
  }

  /** Problems gathered object by object are the problems gathered name by name. */
  lemma ProblemsByName(c: Context, table: map<string, Definition>, properties: Definition?,
                       before: map<Definition, Json>, problems: set<string>,
                       env: Env, properties': Option<Json>)
    requires before.Keys == (set k | k in table :: table[k]) + Root(properties)
    requires env == map k | k in table :: before[table[k]]
    requires properties' == if properties == null then None else Some(before[properties])
    requires forall o | o in before :: Problems(c, before[o]) <= problems
    requires forall t | t in problems :: exists o: Definition :: o in before && t in Problems(c, before[o])
    ensures forall t :: t in problems <==> IsProblemOf(c, env, properties', t)
  {
    forall t | t in problems ensures IsProblemOf(c, env, properties', t) {
      var o: Definition :| o in before && t in Problems(c, before[o]);
      if o !in Root(properties) {
        var k :| k in table && table[k] == o;
        assert k in env;
      }
    }
    forall t | IsProblemOf(c, env, properties', t) ensures t in problems {
      if k :| k in env && t in Problems(c, env[k]) {
        assert table[k] in before;
      }
    }
  }

  /** The three passes, stated by name: what each surviving name now denotes, and what stays unresolved. */
  method UnifyByName(defsKey: string, d: Definitions, properties: Definition?, ghost c: Context, ghost env: Env)
    returns (problems: set<string>)
    requires d.Valid() && c == FixContext(defsKey, d.order) && env == d.Contents()
    requires forall o | o in d.Cells() + Root(properties) :: Safe(defsKey, o.value)
    modifies d, d.Cells(), Root(properties)
    ensures d.Valid() && d.order == FinalOrder(old(d.order))
    ensures forall s | s in d.order ::
              && IsShortOf(old(d.order), s) && d.table[s] == old(d.table)[Source(old(d.order), s)]
              && d.Contents()[s] == FixValue(c, env[Source(old(d.order), s)])
    ensures properties != null ==> properties.value == FixValue(c, old(properties.value))
    ensures forall t :: t in problems <==> IsProblemOf(c, env, old(ValueOf(properties)), t)
  {
    hide FixValue, Problems, Safe, FinalOrder, Source, IsShortOf, IsProblemOf, FixContext;
    ghost var keys, table, was := d.order, d.table, ValueOf(properties);
    ghost var all := d.Cells() + Root(properties);
    ghost var before := map o | o in all :: o.value;
    problems := UnifyReferences(defsKey, d, properties, all, c);
    assert forall t :: t in problems <==> IsProblemOf(c, env, was, t) by {
      ProblemsByName(c, table, properties, before, problems, env, was);
    }
    forall s | s in d.order ensures d.Contents()[s] == FixValue(c, env[Source(keys, s)]) {
      assert d.table[s] == table[Source(keys, s)] && d.table[s] in all;
    }
  }

  /** `fix_anomalies` once the definitions are found: a table with at least one name, and the properties. */
  method FixTable(defsKey: string, d: Definitions, properties: Definition?)
    requires d.Valid()
    requires forall o | o in d.Cells() + Root(properties) :: Safe(defsKey, o.value)
    modifies d, d.Cells(), Root(properties)
    ensures d.Valid()
    ensures forall s | s in FinalOrder(old(d.order)) ::
              s in d.table && IsShortOf(old(d.order), s) && d.table[s] == old(d.table)[Source(old(d.order), s)]
    ensures FixedSchema(defsKey, old(d.order), old(d.Contents()), old(ValueOf(properties)),
                        d.order, d.Contents(), ValueOf(properties))
  {
    ghost var keys, env, was := d.order, d.Contents(), ValueOf(properties);
    var problems := UnifyByName(defsKey, d, properties, FixContext(defsKey, keys), env);
    AddPlaceholders(d, problems);
    Assemble(defsKey, keys, env, was, problems, d.order, d.Contents(), ValueOf(properties));
  }

  /** What the pass leaves of a table that was filed as `order`, `table` and `env`, with the properties `was`. */
  ghost predicate IsFixed(defsKey: string, d: Definitions, properties: Definition?,
                          order: seq<string>, table: map<string, Definition>, env: Env, was: Option<Json>)
    reads d, d.Cells(), properties
  {
    && d.Valid()
    && (order == [] ==> d.order == [] && ValueOf(properties) == was)
    && (order != [] ==>
        && (forall s | s in FinalOrder(order) ::
              && s in d.table && IsShortOf(order, s) && Source(order, s) in table
              && d.table[s] == table[Source(order, s)])
        && FixedSchema(defsKey, order, env, was, d.order, d.Contents(), ValueOf(properties)))
  }

  /** The definitions are those under `$defs` if the schema has such a key, else those under `definitions`. */
  method FixAnomalies(schema: Schema)
    requires Fixable(schema)
    modifies Footprint(schema)
    ensures schema.dollarDefs.Dict? ==>
              var d := schema.dollarDefs.definitions;
              IsFixed("$defs", d, schema.properties, old(d.order), old(d.table), old(d.Contents()), old(ValueOf(schema.properties)))
    ensures schema.dollarDefs.Absent? && schema.definitions.Dict? ==>
              var d := schema.definitions.definitions;
              IsFixed("definitions", d, schema.properties,
                      old(d.order), old(d.table), old(d.Contents()), old(ValueOf(schema.properties)))
  {
    match schema.DefsSlot() {
      case Absent =>
      case NotADict =>
      case Dict(d) =>
        if d.order != [] {
          FixTable(schema.DefsKey(), d, schema.properties);
        }
    }
  }
}
