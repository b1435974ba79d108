/** Closure and clean-up after `fix_anomalies`, and the docstring's caveat. */
module SchemaClosure {
  import opened Wrappers
  import opened PyStrings
  import opened SchemaRefs
  import opened SchemaTable
  import opened SchemaMeaning
  import opened SchemaPreservation

  // ---------------------------------------------------------------- the caveat of the docstring

  /** Definitions with one short name mean the same, one unfolding short of `n`. */
  ghost predicate SameBelow(defsKey: string, env: Env, n: nat) {
    n > 0 ==>
      forall k, l | k in env && l in env && ShortName(k) == ShortName(l) :: SameAt(defsKey, env, k, l, n - 1)
  }

  /** Values that become equal once rewritten mean the same, if definitions with one short name do, one unfolding less. */
  lemma {:induction false} EqualAfterRewriting(defsKey: string, order: seq<string>, env: Env, a: Json, b: Json, n: nat)
    requires IsOrderOf(order, env) && Closed(defsKey, env.Keys, a) && Closed(defsKey, env.Keys, b)
    requires FixValue(FixContext(defsKey, order), a) == FixValue(FixContext(defsKey, order), b)
    requires SameBelow(defsKey, env, n)
    ensures Unfold(defsKey, env, a, n) == Unfold(defsKey, env, b, n)
    decreases a, 0
  {
    hide FixContext, FixMember, UnfoldMember;
    var c := FixContext(defsKey, order);
    if a.Obj? {
      assert a.fields.Keys == FixValue(c, a).fields.Keys == FixValue(c, b).fields.Keys == b.fields.Keys;
      forall k | k in a.fields
        ensures UnfoldMember(defsKey, env, k, a.fields[k], n) == UnfoldMember(defsKey, env, k, b.fields[k], n)
      {
        assert FixValue(c, a).fields[k] == FixValue(c, b).fields[k];
        EqualMembersAfterRewriting(defsKey, order, env, k, a.fields[k], b.fields[k], n);
      }
    }
  }

  lemma {:induction false} EqualMembersAfterRewriting(defsKey: string, order: seq<string>, env: Env,
                                                      key: string, a: Json, b: Json, n: nat)
    requires IsOrderOf(order, env)
    requires MemberRefs(ResolvesOnly(defsKey, env.Keys), key, a) && MemberRefs(ResolvesOnly(defsKey, env.Keys), key, b)
    requires FixMember(FixContext(defsKey, order), key, a) == FixMember(FixContext(defsKey, order), key, b)
    requires SameBelow(defsKey, env, n)
    ensures UnfoldMember(defsKey, env, key, a, n) == UnfoldMember(defsKey, env, key, b, n)
    decreases a, 1
  {
    var c := FixContext(defsKey, order);
    if IsRef(key, a) {
      assert IsRef(key, b);
      EqualRefsAfterRewriting(defsKey, order, env, a.s, b.s);
      if Named(defsKey, a.s).Some? && n > 0 {
        assert SameAt(defsKey, env, Named(defsKey, a.s).value, Named(defsKey, b.s).value, n - 1);
      }
    } else if a.Obj? {
      EqualAfterRewriting(defsKey, order, env, a, b, n);
    } else if a.Arr? {
      var x, y := FixMember(c, key, a).items, FixMember(c, key, b).items;
      assert |a.items| == |x| == |y| == |b.items|;
      forall i | 0 <= i < |a.items| ensures Unfold(defsKey, env, a.items[i], n) == Unfold(defsKey, env, b.items[i], n) {
        assert x[i] == FixValue(c, a.items[i]) && y[i] == FixValue(c, b.items[i]);
        EqualAfterRewriting(defsKey, order, env, a.items[i], b.items[i], n);
      }
    }
  }

  lemma EqualRefsAfterRewriting(defsKey: string, order: seq<string>, env: Env, r: string, s: string)
    requires IsOrderOf(order, env) && FixRef(FixContext(defsKey, order), r) == FixRef(FixContext(defsKey, order), s)
    requires ResolvesOnly(defsKey, env.Keys)(r) && ResolvesOnly(defsKey, env.Keys)(s)
    ensures Named(defsKey, r).None? ==> s == r
    ensures Named(defsKey, r).Some? ==>
              && Named(defsKey, r).value in env && Named(defsKey, s).Some? && Named(defsKey, s).value in env
              && ShortName(Named(defsKey, r).value) == ShortName(Named(defsKey, s).value)
  {
    NamedIsTarget(defsKey, r);
    NamedIsTarget(defsKey, s);
    if Target(defsKey, r).Some? {
      ResolvedRef(defsKey, order, r);
    }
    if Target(defsKey, s).Some? {
      ResolvedRef(defsKey, order, s);
    }
  }

  /** The caveat suffices: if same-named definitions agree after rewriting (in particular if model names are
      unique), they mean the same, however the schema recurs. */
  lemma {:induction false} AgreementIsEnough(defsKey: string, order: seq<string>, env: Env, n: nat)
    requires ClosedSchema(defsKey, order, env) && AgreeAfterRewriting(defsKey, order, env)
    ensures SameBelow(defsKey, env, n)
  {
    if n > 0 {
      AgreementIsEnough(defsKey, order, env, n - 1);
      forall p, q | p in env && q in env && ShortName(p) == ShortName(q) ensures SameAt(defsKey, env, p, q, n - 1) {
        EqualAfterRewriting(defsKey, order, env, env[p], env[q], n - 1);
      }
    }
  }

  lemma CaveatSuffices(defsKey: string, order: seq<string>, env: Env, properties: Option<Json>,
                       order': seq<string>, env': Env, properties': Option<Json>)
    requires ClosedSchema(defsKey, order, env) && AgreeAfterRewriting(defsKey, order, env)
    requires SurvivorsReached(defsKey, order, env)
    requires FixedSchema(defsKey, order, env, properties, order', env', properties')
    ensures Preserved(defsKey, env, env')
  {
    forall k, l, n: nat | k in env && l in env && ShortName(k) == ShortName(l) ensures SameAt(defsKey, env, k, l, n) {
      AgreementIsEnough(defsKey, order, env, n + 1);
    }
    forall k | k in env ensures Resolved(defsKey, env.Keys, env[k]) {
      ClosedIsResolved(defsKey, env.Keys, env[k]);
    }
    PreservedExactlyWhen(defsKey, order, env, properties, order', env', properties');
  }

  // ---------------------------------------------------------------- closure and clean-up

  /** A closed value stays closed if and only if the rewriting reaches its long references. */
  lemma {:induction false} ClosedAfterwards(defsKey: string, order: seq<string>, names: set<string>, names': set<string>, j: Json)
    requires (forall k | k in names :: k in order) && (forall s :: s in names' <==> s in FinalOrder(order))
    requires Closed(defsKey, names, j)
    ensures Closed(defsKey, names', FixValue(FixContext(defsKey, order), j)) <==> Reached(FixContext(defsKey, order), j)
    decreases j, 2
  {
    var c := FixContext(defsKey, order);
    if j.Obj? {
      forall k | k in j.fields
        ensures MemberRefs(ResolvesOnly(defsKey, names'), k, FixMember(c, k, j.fields[k])) <==> MemberReached(FixContext(defsKey, order), k, j.fields[k])
      {
        ClosedMemberAfterwards(defsKey, order, names, names', k, j.fields[k]);
      }
      assert FixValue(c, j).fields.Keys == j.fields.Keys;
      assert forall k | k in j.fields :: FixValue(c, j).fields[k] == FixMember(c, k, j.fields[k]);
    } else {
      HiddenAfterwards(defsKey, order, names, names', j);
    }
  }

  lemma {:induction false} ClosedMemberAfterwards(defsKey: string, order: seq<string>, names: set<string>, names': set<string>,
                                                  key: string, value: Json)
    requires (forall k | k in names :: k in order) && (forall s :: s in names' <==> s in FinalOrder(order))
    requires MemberRefs(ResolvesOnly(defsKey, names), key, value)
    ensures MemberRefs(ResolvesOnly(defsKey, names'), key, FixMember(FixContext(defsKey, order), key, value))
       <==> MemberReached(FixContext(defsKey, order), key, value)
    decreases value, 3
  {
    var c := FixContext(defsKey, order);
    if IsRef(key, value) {
      if Target(defsKey, value.s).Some? {
        ResolvedRef(defsKey, order, value.s);
      }
    } else if value.Obj? {
      ClosedAfterwards(defsKey, order, names, names', value);
    } else if value.Arr? {
      forall i | 0 <= i < |value.items|
        ensures Closed(defsKey, names', FixValue(c, value.items[i])) <==> Reached(FixContext(defsKey, order), value.items[i])
      {
        ClosedAfterwards(defsKey, order, names, names', value.items[i]);
      }
      var fixed := FixMember(c, key, value);
      assert forall i | 0 <= i < |value.items| :: fixed.items[i] == FixValue(c, value.items[i]);
    }
  }

  lemma {:induction false} HiddenAfterwards(defsKey: string, order: seq<string>, names: set<string>, names': set<string>, j: Json)
    requires (forall k | k in names :: k in order) && (forall s :: s in names' <==> s in FinalOrder(order))
    requires Closed(defsKey, names, j)
    ensures Closed(defsKey, names', j) <==> ShortRefsOnly(defsKey, j)
    decreases j, 0
  {
    match j
    case Obj(fields) =>
      forall k | k in fields
        ensures MemberRefs(ResolvesOnly(defsKey, names'), k, fields[k]) <==> MemberRefs(NamesShort(defsKey), k, fields[k])
      {
        assert MemberRefs(ResolvesOnly(defsKey, names), k, fields[k]);
        if IsRef(k, fields[k]) {
          HiddenRefAfterwards(defsKey, order, names, names', fields[k].s);
        } else {
          HiddenAfterwards(defsKey, order, names, names', fields[k]);
        }
      }
    case Arr(items) =>
      forall i | 0 <= i < |items| ensures Closed(defsKey, names', items[i]) <==> ShortRefsOnly(defsKey, items[i]) {
        HiddenAfterwards(defsKey, order, names, names', items[i]);
      }
    case _ =>
  }

  lemma HiddenRefAfterwards(defsKey: string, order: seq<string>, names: set<string>, names': set<string>, ref: string)
    requires (forall k | k in names :: k in order) && (forall s :: s in names' <==> s in FinalOrder(order))
    requires ResolvesOnly(defsKey, names)(ref)
    ensures ResolvesOnly(defsKey, names')(ref) <==> NamesShort(defsKey)(ref)
  {
    NamedIsTarget(defsKey, ref);
    if Named(defsKey, ref).Some? {
      var t := Named(defsKey, ref).value;
      FinalOrderNames(order, t);
      if !IsLong(t) {
        LastPieceOfFree(t, "__");
      }
    }
  }

  lemma ClosedSchemaHasNoProblems(defsKey: string, order: seq<string>, env: Env, properties: Option<Json>)
    requires ClosedSchema(defsKey, order, env) && (properties.Some? ==> Closed(defsKey, env.Keys, properties.value))
    ensures forall t :: !IsProblemOf(FixContext(defsKey, order), env, properties, t)
  {
    forall k | k in env ensures Problems(FixContext(defsKey, order), env[k]) == {} {
      ClosedHasNoProblems(defsKey, order, env.Keys, env[k]);
    }
    if properties.Some? {
      ClosedHasNoProblems(defsKey, order, env.Keys, properties.value);
    }
  }

  /** Without problematic references there are no placeholders. */
  lemma NoPlaceholders(defsKey: string, order: seq<string>, env: Env, properties: Option<Json>,
                       order': seq<string>, env': Env, properties': Option<Json>)
    requires FixedSchema(defsKey, order, env, properties, order', env', properties')
    requires forall t :: !IsProblemOf(FixContext(defsKey, order), env, properties, t)
    ensures order' == FinalOrder(order) && env' == FixedEnv(defsKey, order, env)
  {
    assert forall s | s in order' :: s in FinalOrder(order);
    NothingAdded(FinalOrder(order), order');
  }

  lemma NothingAdded(a: seq<string>, b: seq<string>)
    requires a <= b && NoDuplicates(b) && forall s | s in b :: s in a
    ensures a == b
  {
    if b != [] {
      assert b[|b| - 1] in a;
      var k :| 0 <= k < |a| && a[k] == b[|b| - 1];
      assert b[k] == b[|b| - 1];
    }
  }

  lemma SurvivorsClosed(defsKey: string, order: seq<string>, env: Env, env': Env)
    requires ClosedSchema(defsKey, order, env) && Files(defsKey, order, env, env')
    requires forall s | s in env' :: s in FinalOrder(order)
    ensures (forall s | s in env' :: Closed(defsKey, env'.Keys, env'[s])) <==> SurvivorsReached(defsKey, order, env)
  {
    forall s | s in env'
      ensures Closed(defsKey, env'.Keys, env'[s]) <==> Reached(FixContext(defsKey, order), env[Source(order, s)])
    {
      ClosedAfterwards(defsKey, order, env.Keys, env'.Keys, env[Source(order, s)]);
    }
  }

  /** A closed schema gets no placeholders, and stays closed exactly when no survivor hides a long reference. */
  lemma ClosedStaysClosed(defsKey: string, order: seq<string>, env: Env, properties: Option<Json>,
                          order': seq<string>, env': Env, properties': Option<Json>)
    requires ClosedSchema(defsKey, order, env) && (properties.Some? ==> Closed(defsKey, env.Keys, properties.value))
    requires FixedSchema(defsKey, order, env, properties, order', env', properties')
    ensures order' == FinalOrder(order) && env' == FixedEnv(defsKey, order, env)
    ensures ClosedSchema(defsKey, order', env') <==> SurvivorsReached(defsKey, order, env)
    ensures properties.Some? ==> (Closed(defsKey, env'.Keys, properties'.value) <==> Reached(FixContext(defsKey, order), properties.value))
  {
    ClosedSchemaHasNoProblems(defsKey, order, env, properties);
    NoPlaceholders(defsKey, order, env, properties, order', env', properties');
    FixedEnvFiles(defsKey, order, env);
    SurvivorsClosed(defsKey, order, env, env');
    if properties.Some? {
      ClosedAfterwards(defsKey, order, env.Keys, env'.Keys, properties.value);
    }
  }
}
