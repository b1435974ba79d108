/** What one rewriting of references does: where the new references point, and that rewriting twice
    is rewriting once (an aliased definition is visited under both of its names). */
module SchemaRewriting {
  import opened Wrappers
  import opened PyStrings
  import opened SchemaRefs
  import opened SchemaTable

  /** The mapping and the names of a context fit together, as they do after the first pass. */
  ghost predicate Coherent(c: Context) {
    forall k | k in c.mapping :: IsLong(k) && c.mapping[k] == ShortName(k) && ShortName(k) in c.names
  }

  lemma FixContextIsCoherent(defsKey: string, order: seq<string>)
    ensures Coherent(FixContext(defsKey, order))
  {
    forall k | k in Mapping(order) ensures ShortName(k) in NamesAfter(order, |order|) {
      var i :| 0 <= i < |order| && order[i] == k;
      NamesAfterNames(order, |order|, ShortName(k));
    }
  }

  lemma TargetHasNoSlash(defsKey: string, ref: string)
    requires Target(defsKey, ref).Some?
    ensures '/' !in Target(defsKey, ref).value && '/' !in ShortName(Target(defsKey, ref).value)
  {
    var t := Target(defsKey, ref).value;
    LastPieceIsFree(ref, "/");
    FreeOfChar(t, '/');
    if '/' in ShortName(t) {
      LastPieceChars(t, "__", '/');
    }
  }

  /** A reference made for a name points at that name. */
  lemma TargetOfMadeRef(defsKey: string, name: string)
    requires '/' !in name
    ensures Target(defsKey, MakeRef(defsKey, name)) == Some(name)
  {
    var ref := MakeRef(defsKey, name);
    assert ref == "#/" + defsKey + ['/'] + name;
    assert At(ref, defsKey, 2);
    LastPieceAfter("#/" + defsKey, '/', name);
  }

  /** A reference is moved to its short name exactly when the pass knows that name for a long target;
      every other reference keeps its target. */
  lemma FixRefTarget(c: Context, ref: string)
    requires Coherent(c)
    ensures Target(c.defsKey, ref).None? ==> FixRef(c, ref) == ref
    ensures Target(c.defsKey, ref).Some? ==>
              var t := Target(c.defsKey, ref).value;
              Target(c.defsKey, FixRef(c, ref)) ==
              Some(if IsLong(t) && (t in c.mapping || ShortName(t) in c.names) then ShortName(t) else t)
  {
    if Target(c.defsKey, ref).Some? {
      TargetHasNoSlash(c.defsKey, ref);
      TargetOfMadeRef(c.defsKey, ShortName(Target(c.defsKey, ref).value));
    }
  }

  lemma FixRefIdempotent(c: Context, ref: string)
    requires Coherent(c)
    ensures FixRef(c, FixRef(c, ref)) == FixRef(c, ref)
    ensures IsProblematic(c, FixRef(c, ref)) == IsProblematic(c, ref)
  {
    FixRefTarget(c, ref);
    if Target(c.defsKey, ref).Some? {
      ShortNameIsShort(Target(c.defsKey, ref).value);
    }
  }

  /** Visiting a definition twice in one run equals visiting it once. */
  lemma {:induction false} FixValueIdempotent(c: Context, j: Json)
    requires Coherent(c)
    ensures FixValue(c, FixValue(c, j)) == FixValue(c, j)
    decreases j, 0
  {
    if j.Obj? {
      forall k | k in j.fields
        ensures FixMember(c, k, FixMember(c, k, j.fields[k])) == FixMember(c, k, j.fields[k])
      {
        FixMemberIdempotent(c, k, j.fields[k]);
      }
    }
  }

  lemma {:induction false} FixMemberIdempotent(c: Context, key: string, value: Json)
    requires Coherent(c)
    ensures FixMember(c, key, FixMember(c, key, value)) == FixMember(c, key, value)
    decreases value, 1
  {
    if IsRef(key, value) {
      FixRefIdempotent(c, value.s);
    } else if value.Obj? {
      FixValueIdempotent(c, value);
    } else if value.Arr? {
      forall i | 0 <= i < |value.items|
        ensures FixValue(c, FixValue(c, value.items[i])) == FixValue(c, value.items[i])
      {
        FixValueIdempotent(c, value.items[i]);
      }
    }
  }

  /** The second visit of a definition reports the problems of the first. */
  lemma {:induction false} ProblemsStable(c: Context, j: Json)
    requires Coherent(c)
    ensures Problems(c, FixValue(c, j)) == Problems(c, j)
    decreases j, 0
  {
    if j.Obj? {
      forall k | k in j.fields
        ensures ProblemsOfMember(c, k, FixMember(c, k, j.fields[k])) == ProblemsOfMember(c, k, j.fields[k])
      {
        ProblemsOfMemberStable(c, k, j.fields[k]);
      }
      SameProblems(c, FixValue(c, j), j);
    }
  }

  lemma SameProblems(c: Context, a: Json, b: Json)
    requires a.Obj? && b.Obj? && a.fields.Keys == b.fields.Keys
    requires forall k | k in a.fields :: ProblemsOfMember(c, k, a.fields[k]) == ProblemsOfMember(c, k, b.fields[k])
    ensures Problems(c, a) == Problems(c, b)
  {
    forall t ensures t in Problems(c, a) <==> t in Problems(c, b) {
      if t in Problems(c, a) {
        var k :| k in a.fields && t in ProblemsOfMember(c, k, a.fields[k]);
        assert k in b.fields;
      }
      if t in Problems(c, b) {
        var k :| k in b.fields && t in ProblemsOfMember(c, k, b.fields[k]);
        assert k in a.fields;
      }
    }
  }

  lemma {:induction false} ProblemsOfMemberStable(c: Context, key: string, value: Json)
    requires Coherent(c)
    ensures ProblemsOfMember(c, key, FixMember(c, key, value)) == ProblemsOfMember(c, key, value)
    decreases value, 1
  {
    if IsRef(key, value) {
      FixRefIdempotent(c, value.s);
      FixRefTarget(c, value.s);
    } else if value.Obj? {
      ProblemsStable(c, value);
    } else if value.Arr? {
      forall i | 0 <= i < |value.items|
        ensures Problems(c, FixValue(c, value.items[i])) == Problems(c, value.items[i])
      {
        ProblemsStable(c, value.items[i]);
      }
      var fixed := FixMember(c, key, value);
      forall t ensures t in ProblemsOfMember(c, key, fixed) <==> t in ProblemsOfMember(c, key, value) {
        if t in ProblemsOfMember(c, key, fixed) {
          var i :| 0 <= i < |fixed.items| && t in Problems(c, fixed.items[i]);
          assert t in Problems(c, value.items[i]);
        }
        if t in ProblemsOfMember(c, key, value) {
          var i :| 0 <= i < |value.items| && t in Problems(c, value.items[i]);
          assert t in Problems(c, fixed.items[i]);
        }
      }
    }
  }

  /** Rewriting keeps the rewriting safe. */
  lemma {:induction false} SafeStable(c: Context, j: Json)
    requires Safe(c.defsKey, j)
    ensures Safe(c.defsKey, FixValue(c, j))
    decreases j, 0
  {
    if j.Obj? {
      forall k | k in j.fields
        ensures SafeMember(c.defsKey, k, FixMember(c, k, j.fields[k]))
      {
        SafeMemberStable(c, k, j.fields[k]);
      }
      if "$ref" in j.fields {
        SafeRefStable(c, j.fields["$ref"]);
      }
    }
  }

  lemma SafeRefStable(c: Context, ref: Json)
    requires SafeRef(c.defsKey, ref)
    ensures SafeRef(c.defsKey, FixMember(c, "$ref", ref))
  {
    if ref.Arr? {
      var fixed := FixMember(c, "$ref", ref).items;
      assert forall i | 0 <= i < |fixed| :: fixed[i] == FixValue(c, ref.items[i]);
    }
  }

  lemma {:induction false} SafeMemberStable(c: Context, key: string, value: Json)
    requires SafeMember(c.defsKey, key, value)
    ensures SafeMember(c.defsKey, key, FixMember(c, key, value))
    decreases value, 1
  {
    if IsRef(key, value) {
    } else if value.Obj? {
      SafeStable(c, value);
    } else if value.Arr? {
      forall i | 0 <= i < |value.items| ensures Safe(c.defsKey, FixValue(c, value.items[i])) {
        SafeStable(c, value.items[i]);
      }
    }
  }

  /** A reference with a long target resolves after the pass exactly when its short name was known before
      the placeholders are added: a placeholder never makes the reference it is made for resolve. */
  lemma PlaceholderNeverResolves(c: Context, ref: string, finalNames: set<string>)
    requires Coherent(c) && Target(c.defsKey, ref).Some? && IsLong(Target(c.defsKey, ref).value)
    requires forall s | s in finalNames :: !IsLong(s)
    requires forall s | s in c.names && !IsLong(s) :: s in finalNames
    ensures var after := Target(c.defsKey, FixRef(c, ref));
            after.Some? && (after.value in finalNames <==> !IsProblematic(c, ref))
  {
    FixRefTarget(c, ref);
    ShortNameIsShort(Target(c.defsKey, ref).value);
  }
}
