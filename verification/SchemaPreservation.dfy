/** When `fix_anomalies` preserves the meaning of a schema. */
module SchemaPreservation {
  import opened Wrappers
  import opened PyStrings
  import opened SchemaRefs
  import opened SchemaTable
  import opened SchemaRewriting
  import opened SchemaMeaning

  /** `env'` files under every surviving name the rewritten definition of its source, and nothing under a long name. */
  ghost predicate Files(defsKey: string, order: seq<string>, env: Env, env': Env)
    requires IsOrderOf(order, env)
  {
    && (forall s | s in FinalOrder(order) ::
          s in env' && IsShortOf(order, s) && env'[s] == FixValue(FixContext(defsKey, order), env[Source(order, s)]))
    && (forall s | s in env' :: !IsLong(s))
  }

  lemma FixedEnvFiles(defsKey: string, order: seq<string>, env: Env)
    requires IsOrderOf(order, env)
    ensures Files(defsKey, order, env, FixedEnv(defsKey, order, env))
  {
    forall s | s in FinalOrder(order) ensures IsShortOf(order, s) && !IsLong(s) {
      FinalOrderNames(order, s);
    }
  }

  /** Whatever the pass adds as placeholders. */
  lemma FixedSchemaFiles(defsKey: string, order: seq<string>, env: Env, properties: Option<Json>,
                         order': seq<string>, env': Env, properties': Option<Json>)
    requires FixedSchema(defsKey, order, env, properties, order', env', properties')
    ensures Files(defsKey, order, env, env')
  {
    FixedEnvFiles(defsKey, order, env);
    forall s | s in FinalOrder(order) ensures s in env' {
      assert s in order';
    }
    forall s | s in env' ensures !IsLong(s) {
      NoLongNameLeft(defsKey, order, env, properties, order', env', properties', s);
    }
  }

  /** Whatever the input, no name containing `__` is left. */
  lemma NoLongNameLeft(defsKey: string, order: seq<string>, env: Env, properties: Option<Json>,
                       order': seq<string>, env': Env, properties': Option<Json>, name: string)
    requires FixedSchema(defsKey, order, env, properties, order', env', properties')
    requires name in env'
    ensures !IsLong(name) && ShortName(name) == name
  {
    FinalOrderNames(order, name);
    if name !in FinalOrder(order) {
      var t :| IsProblemOf(FixContext(defsKey, order), env, properties, t) && ShortName(t) == name;
      ShortNameIsShort(t);
    }
  }

  // ---------------------------------------------------------------- preservation, from right to left

  /** Every original definition is preserved one unfolding short of `n`. */
  ghost predicate PreservedBelow(defsKey: string, env: Env, env': Env, n: nat) {
    n > 0 ==> forall t | t in env :: PreservedAt(defsKey, env, env', t, n - 1)
  }

  lemma {:induction false} ReachedUnfolds(defsKey: string, order: seq<string>, env: Env, env': Env, j: Json, n: nat)
    requires IsOrderOf(order, env) && forall s | s in FinalOrder(order) :: s in env'
    requires PreservedBelow(defsKey, env, env', n)
    requires Resolved(defsKey, env.Keys, j) && Reached(FixContext(defsKey, order), j)
    ensures Unfold(defsKey, env', FixValue(FixContext(defsKey, order), j), n) == Unfold(defsKey, env, j, n)
    decreases j, 2
  {
    var c := FixContext(defsKey, order);
    if j.Obj? {
      forall k | k in j.fields
        ensures UnfoldMember(defsKey, env', k, FixMember(c, k, j.fields[k]), n)
             == UnfoldMember(defsKey, env, k, j.fields[k], n)
      {
        ReachedMemberUnfolds(defsKey, order, env, env', k, j.fields[k], n);
      }
    } else {
      HiddenUnfolds(defsKey, order, env, env', j, n);
    }
  }

  lemma {:induction false} ReachedMemberUnfolds(defsKey: string, order: seq<string>, env: Env, env': Env,
                                                key: string, value: Json, n: nat)
    requires IsOrderOf(order, env) && forall s | s in FinalOrder(order) :: s in env'
    requires PreservedBelow(defsKey, env, env', n)
    requires MemberRefs(Resolves(defsKey, env.Keys), key, value) && MemberReached(FixContext(defsKey, order), key, value)
    ensures UnfoldMember(defsKey, env', key, FixMember(FixContext(defsKey, order), key, value), n)
         == UnfoldMember(defsKey, env, key, value, n)
    decreases value, 3
  {
    var c := FixContext(defsKey, order);
    if IsRef(key, value) {
      if Named(defsKey, value.s).Some? {
        ResolvedRef(defsKey, order, value.s);
        assert n > 0 ==> PreservedAt(defsKey, env, env', Named(defsKey, value.s).value, n - 1);
      }
    } else if value.Obj? {
      ReachedUnfolds(defsKey, order, env, env', value, n);
    } else if value.Arr? {
      forall i | 0 <= i < |value.items|
        ensures Unfold(defsKey, env', FixValue(c, value.items[i]), n) == Unfold(defsKey, env, value.items[i], n)
      {
        ReachedUnfolds(defsKey, order, env, env', value.items[i], n);
      }
    }
  }

  /** A part the rewriting does not reach keeps its meaning when it holds no long reference. */
  lemma {:induction false} HiddenUnfolds(defsKey: string, order: seq<string>, env: Env, env': Env, j: Json, n: nat)
    requires IsOrderOf(order, env) && forall s | s in FinalOrder(order) :: s in env'
    requires PreservedBelow(defsKey, env, env', n)
    requires Resolved(defsKey, env.Keys, j) && ShortRefsOnly(defsKey, j)
    ensures Unfold(defsKey, env', j, n) == Unfold(defsKey, env, j, n)
    decreases j, 0
  {
    match j
    case Obj(fields) =>
      forall k | k in fields
        ensures UnfoldMember(defsKey, env', k, fields[k], n) == UnfoldMember(defsKey, env, k, fields[k], n)
      {
        HiddenMemberUnfolds(defsKey, order, env, env', k, fields[k], n);
      }
    case Arr(items) =>
      forall i | 0 <= i < |items| ensures Unfold(defsKey, env', items[i], n) == Unfold(defsKey, env, items[i], n) {
        HiddenUnfolds(defsKey, order, env, env', items[i], n);
      }
    case _ =>
  }

  lemma {:induction false} HiddenMemberUnfolds(defsKey: string, order: seq<string>, env: Env, env': Env,
                                               key: string, value: Json, n: nat)
    requires IsOrderOf(order, env) && forall s | s in FinalOrder(order) :: s in env'
    requires PreservedBelow(defsKey, env, env', n)
    requires MemberRefs(Resolves(defsKey, env.Keys), key, value) && MemberRefs(NamesShort(defsKey), key, value)
    ensures UnfoldMember(defsKey, env', key, value, n) == UnfoldMember(defsKey, env, key, value, n)
    decreases value, 1
  {
    if IsRef(key, value) && Named(defsKey, value.s).Some? {
      var t := Named(defsKey, value.s).value;
      LastPieceOfFree(t, "__");
      FinalOrderNames(order, t);
      assert n > 0 ==> PreservedAt(defsKey, env, env', t, n - 1);
    } else {
      HiddenUnfolds(defsKey, order, env, env', value, n);
    }
  }

  /** If definitions with one short name mean the same and the survivors are reached, everything is preserved. */
  lemma {:induction false} PreservedUpTo(defsKey: string, order: seq<string>, env: Env, env': Env, n: nat)
    requires ResolvedSchema(defsKey, order, env) && Files(defsKey, order, env, env')
    requires SameMeaning(defsKey, env) && SurvivorsReached(defsKey, order, env)
    ensures PreservedBelow(defsKey, env, env', n)
  {
    if n > 0 {
      PreservedUpTo(defsKey, order, env, env', n - 1);
      forall t | t in env ensures PreservedAt(defsKey, env, env', t, n - 1) {
        SurvivorUnfolds(defsKey, order, env, env', t, n - 1);
      }
    }
  }

  lemma SurvivorUnfolds(defsKey: string, order: seq<string>, env: Env, env': Env, t: string, n: nat)
    requires ResolvedSchema(defsKey, order, env) && Files(defsKey, order, env, env')
    requires SameMeaning(defsKey, env) && SurvivorsReached(defsKey, order, env)
    requires PreservedBelow(defsKey, env, env', n) && t in env
    ensures PreservedAt(defsKey, env, env', t, n)
  {
    var s := ShortName(t);
    FinalOrderNames(order, s);
    assert t in order;
    ShortNameIsShort(t);
    var source := Source(order, s);
    assert SameAt(defsKey, env, source, t, n);
    ReachedUnfolds(defsKey, order, env, env', env[source], n);
  }

  // ---------------------------------------------------------------- preservation, from left to right

  /** A long reference the rewriting does not reach is left dangling, and a reference that names no definition is made
      to name one: either way the value changes its meaning. */
  lemma {:induction false} UnreachedDiffers(defsKey: string, order: seq<string>, env: Env, env': Env, j: Json)
    requires IsOrderOf(order, env) && Files(defsKey, order, env, env')
    requires Resolved(defsKey, env.Keys, j) && !Reached(FixContext(defsKey, order), j)
    ensures Unfold(defsKey, env', FixValue(FixContext(defsKey, order), j), 0) != Unfold(defsKey, env, j, 0)
    decreases j, 0
  {
    var c := FixContext(defsKey, order);
    if j.Obj? {
      var k :| k in j.fields && !MemberReached(c, k, j.fields[k]);
      UnreachedMemberDiffers(defsKey, order, env, env', k, j.fields[k]);
      assert Unfold(defsKey, env', FixValue(c, j), 0).members[k] != Unfold(defsKey, env, j, 0).members[k];
    } else {
      HiddenDiffers(defsKey, order, env, env', j);
    }
  }

  lemma {:induction false} UnreachedMemberDiffers(defsKey: string, order: seq<string>, env: Env, env': Env,
                                                  key: string, value: Json)
    requires IsOrderOf(order, env) && Files(defsKey, order, env, env')
    requires MemberRefs(Resolves(defsKey, env.Keys), key, value) && !MemberReached(FixContext(defsKey, order), key, value)
    ensures UnfoldMember(defsKey, env', key, FixMember(FixContext(defsKey, order), key, value), 0)
         != UnfoldMember(defsKey, env, key, value, 0)
    decreases value, 1
  {
    var c := FixContext(defsKey, order);
    if IsRef(key, value) {
      MovedRefDiffers(defsKey, order, env, env', key, value.s);
    } else if value.Obj? {
      UnreachedDiffers(defsKey, order, env, env', value);
    } else {
      var i :| 0 <= i < |value.items| && !Reached(c, value.items[i]);
      UnreachedDiffers(defsKey, order, env, env', value.items[i]);
      assert Unfold(defsKey, env', FixMember(c, key, value), 0).items[i] != Unfold(defsKey, env, value, 0).items[i];
    }
  }

  lemma MovedRefDiffers(defsKey: string, order: seq<string>, env: Env, env': Env, key: string, ref: string)
    requires IsRef(key, Str(ref)) && IsForeign(defsKey, ref) && FixRef(FixContext(defsKey, order), ref) != ref
    ensures UnfoldMember(defsKey, env', key, Str(FixRef(FixContext(defsKey, order), ref)), 0)
         != UnfoldMember(defsKey, env, key, Str(ref), 0)
  {
    FixContextIsCoherent(defsKey, order);
    MovedExactlyWhen(FixContext(defsKey, order), ref);
  }

  lemma {:induction false} HiddenDiffers(defsKey: string, order: seq<string>, env: Env, env': Env, j: Json)
    requires IsOrderOf(order, env) && Files(defsKey, order, env, env')
    requires Resolved(defsKey, env.Keys, j) && !ShortRefsOnly(defsKey, j)
    ensures Unfold(defsKey, env', j, 0) != Unfold(defsKey, env, j, 0)
  {
    match j
    case Obj(fields) =>
      var k :| k in fields && !MemberRefs(NamesShort(defsKey), k, fields[k]);
      assert MemberRefs(Resolves(defsKey, env.Keys), k, fields[k]);
      if IsRef(k, fields[k]) {
        FinalOrderNames(order, Named(defsKey, fields[k].s).value);
      } else {
        HiddenDiffers(defsKey, order, env, env', fields[k]);
      }
      assert Unfold(defsKey, env', j, 0).members[k] != Unfold(defsKey, env, j, 0).members[k];
    case Arr(items) =>
      var i :| 0 <= i < |items| && !AllRefs(NamesShort(defsKey), items[i]);
      HiddenDiffers(defsKey, order, env, env', items[i]);
      assert Unfold(defsKey, env', j, 0).items[i] != Unfold(defsKey, env, j, 0).items[i];
    case _ =>
  }

  // ---------------------------------------------------------------- main results

  /** On a schema in which every pointer into the table names a definition, the pass preserves the meaning of every
      definition to every depth if and only if definitions with the same short name mean the same and no survivor
      hides a long reference in a place the rewriting does not look at, or has a reference moved that names no
      definition. */
  lemma PreservedExactlyWhen(defsKey: string, order: seq<string>, env: Env, properties: Option<Json>,
                             order': seq<string>, env': Env, properties': Option<Json>)
    requires ResolvedSchema(defsKey, order, env)
    requires FixedSchema(defsKey, order, env, properties, order', env', properties')
    ensures Preserved(defsKey, env, env') <==> SameMeaning(defsKey, env) && SurvivorsReached(defsKey, order, env)
  {
    FixedSchemaFiles(defsKey, order, env, properties, order', env', properties');
    PreservedWhenFiled(defsKey, order, env, env');
  }

  lemma PreservedWhenFiled(defsKey: string, order: seq<string>, env: Env, env': Env)
    requires ResolvedSchema(defsKey, order, env) && Files(defsKey, order, env, env')
    ensures Preserved(defsKey, env, env') <==> SameMeaning(defsKey, env) && SurvivorsReached(defsKey, order, env)
  {
    if SameMeaning(defsKey, env) && SurvivorsReached(defsKey, order, env) {
      forall k, n: nat | k in env ensures PreservedAt(defsKey, env, env', k, n) {
        PreservedUpTo(defsKey, order, env, env', n + 1);
      }
    }
    if Preserved(defsKey, env, env') {
      SameMeaningIsNeeded(defsKey, env, env');
      ReachIsNeeded(defsKey, order, env, env');
    }
  }

  lemma SameMeaningIsNeeded(defsKey: string, env: Env, env': Env)
    requires Preserved(defsKey, env, env')
    ensures SameMeaning(defsKey, env)
  {
    forall k, l, n: nat | k in env && l in env && ShortName(k) == ShortName(l)
      ensures SameAt(defsKey, env, k, l, n)
    {
      assert PreservedAt(defsKey, env, env', k, n) && PreservedAt(defsKey, env, env', l, n);
    }
  }

  lemma ReachIsNeeded(defsKey: string, order: seq<string>, env: Env, env': Env)
    requires ResolvedSchema(defsKey, order, env) && Files(defsKey, order, env, env')
    requires Preserved(defsKey, env, env')
    ensures SurvivorsReached(defsKey, order, env)
  {
    forall s | s in FinalOrder(order) && IsShortOf(order, s) ensures Reached(FixContext(defsKey, order), env[Source(order, s)]) {
      var k := Source(order, s);
      FinalOrderNames(order, s);
      if !Reached(FixContext(defsKey, order), env[k]) {
        assert PreservedAt(defsKey, env, env', k, 0);
        UnreachedDiffers(defsKey, order, env, env', env[k]);
      }
    }
  }

  /** Under that condition, unfolding any reference, and any part of the schema the rewriting reaches, gives
      the same tree before and after, to every depth. */
  lemma MeaningOfRefs(defsKey: string, order: seq<string>, env: Env, env': Env, ref: string, j: Json, n: nat)
    requires ResolvedSchema(defsKey, order, env) && Files(defsKey, order, env, env')
    requires SameMeaning(defsKey, env) && SurvivorsReached(defsKey, order, env)
    requires Resolves(defsKey, env.Keys)(ref)
    requires IsForeign(defsKey, ref) ==> FixRef(FixContext(defsKey, order), ref) == ref
    requires Resolved(defsKey, env.Keys, j) && Reached(FixContext(defsKey, order), j)
    ensures var c := FixContext(defsKey, order);
            && UnfoldRef(defsKey, env', FixRef(c, ref), n) == UnfoldRef(defsKey, env, ref, n)
            && Unfold(defsKey, env', FixValue(c, j), n) == Unfold(defsKey, env, j, n)
  {
    PreservedUpTo(defsKey, order, env, env', n);
    ReachedMemberUnfolds(defsKey, order, env, env', "$ref", Str(ref), n);
    ReachedUnfolds(defsKey, order, env, env', j, n);
  }
}
