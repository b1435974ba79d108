/** Running `fix_anomalies` on its own output. */
module SchemaRerun {
  import opened Wrappers
  import opened SchemaRefs
  import opened SchemaTable
  import opened SchemaRewriting
  import opened SchemaPreservation
  import opened SchemaClosure

  /** Some surviving definition, or the properties, holds a reference the pass could not move. */
  ghost predicate SurvivorHasProblem(defsKey: string, order: seq<string>, env: Env, properties: Option<Json>)
    requires IsOrderOf(order, env)
  {
    var c := FixContext(defsKey, order);
    || (properties.Some? && Problems(c, properties.value) != {})
    || exists s :: s in FinalOrder(order) && IsShortOf(order, s) && Problems(c, env[Source(order, s)]) != {}
  }

  // ---------------------------------------------------------------- an output holds only short names

  lemma {:induction false} ShortNamesStay(order: seq<string>, n: nat)
    requires n <= |order| && forall k | k in order :: !IsLong(k)
    ensures NamesAfter(order, n) == order && ShortOnly(order, n) == order[..n]
  {
    if n > 0 {
      ShortNamesStay(order, n - 1);
      assert order[n - 1] in order;
    }
  }

  lemma ShortTable(defsKey: string, order: seq<string>)
    requires forall k | k in order :: !IsLong(k)
    ensures FinalOrder(order) == order && Mapping(order) == map[]
    ensures FixContext(defsKey, order) == Context(defsKey, map[], set k | k in order)
  {
    ShortNamesStay(order, |order|);
  }

  // ---------------------------------------------------------------- the second rewriting of one value

  /** The contexts of two successive runs: the second maps nothing, and knows the short names of the first. */
  ghost predicate Successive(c: Context, d: Context) {
    Coherent(c) && d.defsKey == c.defsKey && d.mapping == map[]
  }

  lemma SecondFixRef(c: Context, d: Context, ref: string)
    requires Successive(c, d)
    ensures !IsProblematic(c, ref) ==> FixRef(d, FixRef(c, ref)) == FixRef(c, ref) && !IsProblematic(d, FixRef(c, ref))
    ensures IsProblematic(c, ref) && ShortName(Target(c.defsKey, ref).value) in d.names ==>
              FixRef(d, FixRef(c, ref)) != FixRef(c, ref)
  {
    FixRefTarget(c, ref);
    if Target(c.defsKey, ref).Some? {
      var t := Target(c.defsKey, ref).value;
      ShortNameIsShort(t);
      TargetHasNoSlash(c.defsKey, ref);
      TargetOfMadeRef(c.defsKey, ShortName(t));
    }
  }

  lemma {:induction false} SettledValue(c: Context, d: Context, j: Json)
    requires Successive(c, d) && Problems(c, j) == {}
    ensures FixValue(d, FixValue(c, j)) == FixValue(c, j) && Problems(d, FixValue(c, j)) == {}
    decreases j, 0
  {
    if j.Obj? {
      forall k | k in j.fields
        ensures FixMember(d, k, FixMember(c, k, j.fields[k])) == FixMember(c, k, j.fields[k])
        ensures ProblemsOfMember(d, k, FixMember(c, k, j.fields[k])) == {}
      {
        assert forall t | t in ProblemsOfMember(c, k, j.fields[k]) :: t in Problems(c, j);
        SettledMember(c, d, k, j.fields[k]);
      }
    }
  }

  lemma {:induction false} SettledMember(c: Context, d: Context, key: string, value: Json)
    requires Successive(c, d) && ProblemsOfMember(c, key, value) == {}
    ensures FixMember(d, key, FixMember(c, key, value)) == FixMember(c, key, value)
    ensures ProblemsOfMember(d, key, FixMember(c, key, value)) == {}
    decreases value, 1
  {
    if IsRef(key, value) {
      SecondFixRef(c, d, value.s);
    } else if value.Obj? {
      SettledValue(c, d, value);
    } else if value.Arr? {
      forall i | 0 <= i < |value.items|
        ensures FixValue(d, FixValue(c, value.items[i])) == FixValue(c, value.items[i])
        ensures Problems(d, FixValue(c, value.items[i])) == {}
      {
        assert forall t | t in Problems(c, value.items[i]) :: t in ProblemsOfMember(c, key, value);
        SettledValue(c, d, value.items[i]);
      }
    }
  }

  lemma {:induction false} UnsettledValue(c: Context, d: Context, j: Json, t: string)
    requires Successive(c, d) && t in Problems(c, j) && ShortName(t) in d.names
    ensures FixValue(d, FixValue(c, j)) != FixValue(c, j)
    decreases j, 0
  {
    var k :| k in j.fields && t in ProblemsOfMember(c, k, j.fields[k]);
    UnsettledMember(c, d, k, j.fields[k], t);
    assert FixValue(d, FixValue(c, j)).fields[k] != FixValue(c, j).fields[k];
  }

  lemma {:induction false} UnsettledMember(c: Context, d: Context, key: string, value: Json, t: string)
    requires Successive(c, d) && t in ProblemsOfMember(c, key, value) && ShortName(t) in d.names
    ensures FixMember(d, key, FixMember(c, key, value)) != FixMember(c, key, value)
    decreases value, 1
  {
    if IsRef(key, value) {
      SecondFixRef(c, d, value.s);
    } else if value.Obj? {
      UnsettledValue(c, d, value, t);
    } else {
      var i :| 0 <= i < |value.items| && t in Problems(c, value.items[i]);
      UnsettledValue(c, d, value.items[i], t);
      assert FixMember(d, key, FixMember(c, key, value)).items[i] != FixMember(c, key, value).items[i];
    }
  }

  lemma PlaceholderSettled(d: Context, refPath: string)
    ensures FixValue(d, Placeholder(refPath)) == Placeholder(refPath) && Problems(d, Placeholder(refPath)) == {}
  {
    var p := Placeholder(refPath);
    forall k | k in p.fields
      ensures FixMember(d, k, p.fields[k]) == p.fields[k] && ProblemsOfMember(d, k, p.fields[k]) == {}
    {
    }
  }

  // ---------------------------------------------------------------- the two runs

  /** A second rewriting leaves the value alone and finds no problem in it. */
  ghost predicate IsSettled(d: Context, j: Json) {
    FixValue(d, j) == j && Problems(d, j) == {}
  }

  /** The whole output of a run is settled. */
  ghost predicate OutputSettled(d: Context, env': Env, properties': Option<Json>) {
    (forall s | s in env' :: IsSettled(d, env'[s])) && (properties'.Some? ==> IsSettled(d, properties'.value))
  }

  lemma FirstRunSettles(defsKey: string,
                        order: seq<string>, env: Env, properties: Option<Json>,
                        order': seq<string>, env': Env, properties': Option<Json>, d: Context)
    requires FixedSchema(defsKey, order, env, properties, order', env', properties')
    requires Successive(FixContext(defsKey, order), d)
    requires !SurvivorHasProblem(defsKey, order, env, properties)
    ensures OutputSettled(d, env', properties')
  {
    var c := FixContext(defsKey, order);
    forall s | s in env' ensures IsSettled(d, env'[s]) {
      if s in FinalOrder(order) {
        FinalOrderNames(order, s);
        SettledValue(c, d, env[Source(order, s)]);
      } else {
        var t :| IsProblemOf(c, env, properties, t) && ShortName(t) == s && env'[s] == Placeholder(t);
        PlaceholderSettled(d, t);
      }
    }
    if properties.Some? {
      SettledValue(c, d, properties.value);
    }
  }

  /** A second rewriting changes something in the output of a run. */
  ghost predicate OutputChanges(d: Context, env': Env, properties': Option<Json>) {
    || (properties'.Some? && FixValue(d, properties'.value) != properties'.value)
    || (exists s :: s in env' && FixValue(d, env'[s]) != env'[s])
  }

  /** Every short name left unresolved by the first run is known to the second. */
  lemma PlaceholderKnown(defsKey: string,
                         order: seq<string>, env: Env, properties: Option<Json>,
                         order': seq<string>, env': Env, properties': Option<Json>, t: string)
    requires FixedSchema(defsKey, order, env, properties, order', env', properties')
    requires IsProblemOf(FixContext(defsKey, order), env, properties, t)
    ensures ShortName(t) in env'
  {
  }

  lemma SurvivorFiled(defsKey: string,
                      order: seq<string>, env: Env, properties: Option<Json>,
                      order': seq<string>, env': Env, properties': Option<Json>, s: string)
    requires FixedSchema(defsKey, order, env, properties, order', env', properties')
    requires s in FinalOrder(order) && IsShortOf(order, s)
    ensures s in env' && env'[s] == FixValue(FixContext(defsKey, order), env[Source(order, s)])
  {
    assert s in order';
  }

  lemma FirstRunUnsettled(defsKey: string,
                          order: seq<string>, env: Env, properties: Option<Json>,
                          order': seq<string>, env': Env, properties': Option<Json>, d: Context)
    requires FixedSchema(defsKey, order, env, properties, order', env', properties')
    requires Successive(FixContext(defsKey, order), d) && d.names == env'.Keys
    requires SurvivorHasProblem(defsKey, order, env, properties)
    ensures OutputChanges(d, env', properties')
  {
    var c := FixContext(defsKey, order);
    if properties.Some? && Problems(c, properties.value) != {} {
      var t :| t in Problems(c, properties.value);
      PlaceholderKnown(defsKey, order, env, properties, order', env', properties', t);
      UnsettledValue(c, d, properties.value, t);
    } else {
      var s :| s in FinalOrder(order) && IsShortOf(order, s) && Problems(c, env[Source(order, s)]) != {};
      var j := env[Source(order, s)];
      var t :| t in Problems(c, j);
      PlaceholderKnown(defsKey, order, env, properties, order', env', properties', t);
      UnsettledValue(c, d, j, t);
      SurvivorFiled(defsKey, order, env, properties, order', env', properties', s);
    }
  }

  /** A run on a table of short names, seen name by name: every name is its own source. */
  ghost predicate SecondRun(d: Context, order: seq<string>, env: Env, properties: Option<Json>,
                            order': seq<string>, env': Env, properties': Option<Json>)
  {
    && order <= order' && IsOrderOf(order', env') && IsOrderOf(order, env)
    && (forall s | s in order :: env'[s] == FixValue(d, env[s]))
    && (forall s | s in order' && s !in order :: exists t :: IsProblemOf(d, env, properties, t))
    && properties' == match properties case None => None case Some(p) => Some(FixValue(d, p))
  }

  lemma RunOnShortNames(defsKey: string,
                        order: seq<string>, env: Env, properties: Option<Json>,
                        order': seq<string>, env': Env, properties': Option<Json>)
    requires FixedSchema(defsKey, order, env, properties, order', env', properties')
    requires FinalOrder(order) == order
    ensures SecondRun(FixContext(defsKey, order), order, env, properties, order', env', properties')
  {
    forall s | s in order ensures env'[s] == FixValue(FixContext(defsKey, order), env[s]) {
      assert Source(order, s) == s;
      assert env'[s] == FixedEnv(defsKey, order, env)[s];
    }
  }

  lemma SettledStays(d: Context, order: seq<string>, env: Env, properties: Option<Json>,
                     order': seq<string>, env': Env, properties': Option<Json>)
    requires SecondRun(d, order, env, properties, order', env', properties')
    requires OutputSettled(d, env, properties)
    ensures order' == order && env' == env && properties' == properties
  {
    assert forall t :: !IsProblemOf(d, env, properties, t);
    assert forall s | s in order' :: s in order;
    NothingAdded(order, order');
  }

  // ---------------------------------------------------------------- main result

  /** The second run changes nothing if and only if no surviving definition, nor the properties, held a
      problematic reference in the first run. */
  lemma RerunChangesNothingExactlyWhen(defsKey: string,
                                       order: seq<string>, env: Env, properties: Option<Json>,
                                       order': seq<string>, env': Env, properties': Option<Json>,
                                       order'': seq<string>, env'': Env, properties'': Option<Json>)
    requires FixedSchema(defsKey, order, env, properties, order', env', properties')
    requires FixedSchema(defsKey, order', env', properties', order'', env'', properties'')
    ensures order'' == order' && env'' == env' && properties'' == properties'
       <==> !SurvivorHasProblem(defsKey, order, env, properties)
  {
    var c, d := FixContext(defsKey, order), FixContext(defsKey, order');
    assert Successive(c, d) && FinalOrder(order') == order' && d.names == env'.Keys by {
      forall k | k in order' ensures !IsLong(k) {
        NoLongNameLeft(defsKey, order, env, properties, order', env', properties', k);
      }
      ShortTable(defsKey, order');
      FixContextIsCoherent(defsKey, order);
    }
    RunOnShortNames(defsKey, order', env', properties', order'', env'', properties'');
    if SurvivorHasProblem(defsKey, order, env, properties) {
      FirstRunUnsettled(defsKey, order, env, properties, order', env', properties', d);
    } else {
      FirstRunSettles(defsKey, order, env, properties, order', env', properties', d);
      SettledStays(d, order', env', properties', order'', env'', properties'');
    }
  }
}
