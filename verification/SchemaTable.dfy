/** The definitions table: which names it holds after each pass of `fix_anomalies`,
    and which original definition ends up under each of them. */
module SchemaTable {
  import opened Wrappers
  import opened PyStrings
  import opened SchemaRefs

  type Env = map<string, Json>

  predicate NoDuplicates(names: seq<string>) {
    forall i, j | 0 <= i < j < |names| :: names[i] != names[j]
  }

  predicate IsOrderOf(order: seq<string>, env: Env) {
    NoDuplicates(order) && (forall k | k in order :: k in env) && (forall k | k in env :: k in order)
  }

  // ---------------------------------------------------------------- first pass

  function Mapping(order: seq<string>): map<string, string> {
    map k | k in order && IsLong(k) :: ShortName(k)
  }

  lemma MappingStep(order: seq<string>, n: nat)
    requires n < |order|
    ensures Mapping(order[..n + 1]) ==
            if IsLong(order[n]) then Mapping(order[..n])[order[n] := ShortName(order[n])] else Mapping(order[..n])
  {
    assert forall k :: k in order[..n + 1] <==> k in order[..n] || k == order[n];
  }

  /** The names in the table, in order, once the keys `order[..n]` have been given their short names. */
  function NamesAfter(order: seq<string>, n: nat): seq<string>
    requires n <= |order|
  {
    if n == 0 then order
    else
      var names := NamesAfter(order, n - 1);
      var key := order[n - 1];
      if IsLong(key) && ShortName(key) !in names then names + [ShortName(key)] else names
  }

  /** The first key of `order` with the given short name. */
  function FirstWith(order: seq<string>, short: string): (k: string)
    requires exists k :: k in order && ShortName(k) == short
    ensures k in order && ShortName(k) == short
  {
    if ShortName(order[0]) == short then order[0] else FirstWith(order[1..], short)
  }

  lemma {:induction false} FirstWithIsFirst(order: seq<string>, i: nat)
    requires i < |order|
    requires forall j | 0 <= j < i :: ShortName(order[j]) != ShortName(order[i])
    ensures order[i] in order && FirstWith(order, ShortName(order[i])) == order[i]
  {
    if i > 0 {
      FirstWithIsFirst(order[1..], i - 1);
    }
  }

  predicate IsShortOf(order: seq<string>, name: string) {
    exists k :: k in order && ShortName(k) == name
  }

  /** The original key whose definition a name of the extended table denotes. */
  function Source(order: seq<string>, name: string): (k: string)
    requires name in order || IsShortOf(order, name)
    ensures k in order && ShortName(k) == ShortName(name)
  {
    if name in order then name else (ShortOfShort(order, name); FirstWith(order, name))
  }

  lemma ShortNameIsShort(name: string)
    ensures !IsLong(ShortName(name)) && ShortName(ShortName(name)) == ShortName(name)
  {
    LastPieceIsFree(name, "__");
    LastPieceOfFree(ShortName(name), "__");
  }

  lemma ShortOfShort(order: seq<string>, name: string)
    requires IsShortOf(order, name)
    ensures !IsLong(name) && ShortName(name) == name
  {
    var k :| k in order && ShortName(k) == name;
    ShortNameIsShort(k);
  }

  // ---------------------------------------------------------------- the whole pass

  function FixContext(defsKey: string, order: seq<string>): Context {
    Context(defsKey, Mapping(order), set k | k in NamesAfter(order, |order|))
  }

  /** What survives the clean-up among the first `n` names. */
  function ShortOnly(names: seq<string>, n: nat): seq<string>
    requires n <= |names|
  {
    if n == 0 then []
    else if IsLong(names[n - 1]) then ShortOnly(names, n - 1)
    else ShortOnly(names, n - 1) + [names[n - 1]]
  }

  function FinalOrder(order: seq<string>): seq<string> {
    var names := NamesAfter(order, |order|);
    ShortOnly(names, |names|)
  }

  /** The table `fix_anomalies` leaves behind, placeholders aside. */
  function FixedEnv(defsKey: string, order: seq<string>, env: Env): Env
    requires IsOrderOf(order, env)
  {
    map s | s in FinalOrder(order) ::
      FinalOrderNames(order, s); FixValue(FixContext(defsKey, order), env[Source(order, s)])
  }

  // ---------------------------------------------------------------- facts about the names

  /** The extended table holds the original keys and their short names, each once. */
  lemma {:induction false} NamesAfterNames(order: seq<string>, n: nat, name: string)
    requires n <= |order|
    ensures name in NamesAfter(order, n) <==> name in order || exists i :: 0 <= i < n && ShortName(order[i]) == name
    ensures order <= NamesAfter(order, n)
  {
    if n > 0 {
      NamesAfterNames(order, n - 1, name);
      NamesAfterNames(order, n - 1, ShortName(order[n - 1]));
      if !IsLong(order[n - 1]) {
        LastPieceOfFree(order[n - 1], "__");
      }
    }
  }

  lemma {:induction false} NamesAfterDistinct(order: seq<string>, n: nat)
    requires n <= |order| && NoDuplicates(order)
    ensures NoDuplicates(NamesAfter(order, n))
  {
    if n > 0 {
      NamesAfterDistinct(order, n - 1);
    }
  }

  lemma {:induction false} ShortOnlyNames(names: seq<string>, n: nat, name: string)
    requires n <= |names|
    ensures name in ShortOnly(names, n) <==> (exists i :: 0 <= i < n && names[i] == name) && !IsLong(name)
  {
    if n > 0 {
      ShortOnlyNames(names, n - 1, name);
    }
  }

  lemma {:induction false} ShortOnlyDistinct(names: seq<string>, n: nat)
    requires NoDuplicates(names) && n <= |names|
    ensures NoDuplicates(ShortOnly(names, n))
  {
    if n > 0 {
      ShortOnlyDistinct(names, n - 1);
      ShortOnlyNames(names, n - 1, names[n - 1]);
    }
  }

  /** The surviving names are exactly the short names of the original keys. */
  lemma FinalOrderNames(order: seq<string>, name: string)
    ensures name in FinalOrder(order) <==> IsShortOf(order, name)
    ensures name in FinalOrder(order) ==> !IsLong(name) && ShortName(name) == name
  {
    NamesAfterNames(order, |order|, name);
    var names := NamesAfter(order, |order|);
    ShortOnlyNames(names, |names|, name);
    if IsShortOf(order, name) {
      ShortOfShort(order, name);
      var k :| k in order && ShortName(k) == name;
      var i :| 0 <= i < |order| && order[i] == k;
    }
    if name in order && !IsLong(name) {
      LastPieceOfFree(name, "__");
    }
  }

  lemma FinalOrderDistinct(order: seq<string>)
    requires NoDuplicates(order)
    ensures NoDuplicates(FinalOrder(order))
  {
    NamesAfterDistinct(order, |order|);
    var names := NamesAfter(order, |order|);
    ShortOnlyDistinct(names, |names|);
  }

  // ---------------------------------------------------------------- the relation the pass establishes

  function Placeholder(refPath: string): Json {
    Obj(map[
      "type" := Str("object"),
      "properties" := Obj(map[]),
      "description" := Str("Auto-generated placeholder for missing reference: " + refPath)
    ])
  }

  /** `t` is a problematic reference of the properties or of some definition. */
  ghost predicate IsProblemOf(c: Context, env: Env, properties: Option<Json>, t: string) {
    || (properties.Some? && t in Problems(c, properties.value))
    || exists k :: k in env && t in Problems(c, env[k])
  }

  /** What `fix_anomalies` makes of a schema with at least one definition: the surviving definitions are
      the rewritten originals, followed by one placeholder for each short name left unresolved. */
  ghost predicate FixedSchema(defsKey: string,
                              order: seq<string>, env: Env, properties: Option<Json>,
                              order': seq<string>, env': Env, properties': Option<Json>)
  {
    var c := FixContext(defsKey, order);
    && IsOrderOf(order, env) && IsOrderOf(order', env')
    && FinalOrder(order) <= order'
    && (forall s | s in FinalOrder(order) :: env'[s] == FixedEnv(defsKey, order, env)[s])
    && (forall s | s in env' && s !in FinalOrder(order) ::
          exists t :: IsProblemOf(c, env, properties, t) && ShortName(t) == s && env'[s] == Placeholder(t))
    && (forall t | IsProblemOf(c, env, properties, t) :: ShortName(t) in env')
    && properties' == (match properties case None => None case Some(p) => Some(FixValue(c, p)))
  }

  lemma Assemble(defsKey: string, order: seq<string>, env: Env, properties: Option<Json>, problems: set<string>,
                 order': seq<string>, env': Env, properties': Option<Json>)
    requires IsOrderOf(order, env) && IsOrderOf(order', env') && FinalOrder(order) <= order'
    requires forall t :: t in problems <==> IsProblemOf(FixContext(defsKey, order), env, properties, t)
    requires forall s | s in FinalOrder(order) ::
               IsShortOf(order, s) && env'[s] == FixValue(FixContext(defsKey, order), env[Source(order, s)])
    requires forall s | s in env' && s !in FinalOrder(order) ::
               exists t :: t in problems && ShortName(t) == s && env'[s] == Placeholder(t)
    requires forall t | t in problems :: ShortName(t) in order'
    requires properties' == match properties case None => None case Some(p) => Some(FixValue(FixContext(defsKey, order), p))
    ensures FixedSchema(defsKey, order, env, properties, order', env', properties')
  {
  }
}
