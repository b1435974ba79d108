/** What the short names are, and where a definition and the references to it end up. */
module SchemaNames {
  import opened Wrappers
  import opened PyStrings
  import opened SchemaRefs
  import opened SchemaTable
  import opened SchemaRewriting
  import opened SchemaPreservation

  // ---------------------------------------------------------------- the name behind the prefix

  /** The number of underscores at the end. */
  function Tail(s: string): nat {
    if s == "" || s[|s| - 1] != '_' then 0 else 1 + Tail(s[..|s| - 1])
  }

  lemma {:induction false} TailOfConcat(a: string, b: string)
    ensures Tail(a + b) == if Tail(b) == |b| then Tail(a) + |b| else Tail(b)
    decreases |b|
  {
    if b == "" {
      assert a + b == a;
    } else {
      assert (a + b)[..|a + b| - 1] == a + b[..|b| - 1];
      TailOfConcat(a, b[..|b| - 1]);
      TailWithin(b[..|b| - 1]);
    }
  }

  lemma {:induction false} TailWithin(s: string)
    ensures Tail(s) <= |s|
  {
    if s != "" {
      TailWithin(s[..|s| - 1]);
    }
  }

  lemma Underscores(s: string, i: int)
    ensures At(s, "__", i) <==> 0 <= i && i + 1 < |s| && s[i] == '_' && s[i + 1] == '_'
  {
    if 0 <= i && i + 1 < |s| {
      assert s[i..i + 2] == [s[i], s[i + 1]];
    }
  }

  lemma PairOfFree(name: string)
    requires !IsLong(name)
    ensures ShortName("_" + name) != name
  {
    var s := "_" + name;
    var i := FindFrom(s, "__", 0);
    if i != -1 {
      Underscores(s, i);
      Underscores(name, i - 1);
      assert s[2..] == name[1..];
      var n := LastPieceIsSuffix(name[1..], "__");
    }
  }

  /** What is left after cutting `p__name` at `i`. */
  lemma CutLeaves(p: string, name: string, i: nat)
    requires i <= |p|
    ensures var s := p + "__" + name;
            && i + 2 <= |s|
            && (i + 2 <= |p| ==> s[i + 2..] == p[i + 2..] + "__" + name && s[i] == p[i] && s[i + 1] == p[i + 1])
            && (i + 1 == |p| ==> s[i + 2..] == "_" + name)
            && (i == |p| ==> s[i + 2..] == name)
  {
  }

  /** A name with a pair of underscores is split at the first of them. */
  lemma SplitsFirst(s: string, n: nat) returns (i: nat)
    requires n + 1 < |s| && s[n] == '_' && s[n + 1] == '_'
    ensures i <= n && s[i] == '_' && s[i + 1] == '_' && (i > 0 ==> s[i - 1] != '_')
    ensures IsLong(s) && ShortName(s) == ShortName(s[i + 2..])
  {
    Underscores(s, n);
    i := FindFrom(s, "__", 0);
    Underscores(s, i);
    Underscores(s, i - 1);
  }

  /** The short name of `p__name` is `name`, if that has no double underscore itself, exactly when `p` ends with an even
      number of underscores (with none, in particular). Otherwise one of them is left in front. */
  lemma {:induction false} ShortNameExactlyWhen(p: string, name: string)
    requires !IsLong(name)
    ensures IsLong(p + "__" + name)
    ensures ShortName(p + "__" + name) == name <==> Tail(p) % 2 == 0
    decreases |p|
  {
    var i := FirstCut(p, name);
    hide ShortName, IsLong, Tail;
    if i + 2 <= |p| {
      CutInside(p, i);
      ShortNameExactlyWhen(p[i + 2..], name);
    } else {
      TailFrom(p, i);
      FreeIsShort(name);
      PairOfFree(name);
    }
  }

  /** Where `p__name` is first cut, and what is left then: `name`, `_name`, or less of `p` before `__name`. */
  lemma FirstCut(p: string, name: string) returns (i: nat)
    ensures i <= |p| && (i > 0 ==> p[i - 1] != '_') && (i < |p| ==> p[i] == '_') && (i + 1 < |p| ==> p[i + 1] == '_')
    ensures IsLong(p + "__" + name)
    ensures ShortName(p + "__" + name)
         == ShortName(if i + 2 <= |p| then p[i + 2..] + "__" + name else if i < |p| then "_" + name else name)
  {
    var s := p + "__" + name;
    assert s[|p|] == '_' && s[|p| + 1] == '_';
    i := SplitsFirst(s, |p|);
    CutLeaves(p, name, i);
    hide ShortName, IsLong;
    assert i > 0 ==> s[i - 1] == p[i - 1];
    assert i < |p| ==> s[i] == p[i];
  }

  lemma TailFrom(p: string, i: nat)
    requires i <= |p| <= i + 1 && (i > 0 ==> p[i - 1] != '_') && (i < |p| ==> p[i] == '_')
    ensures Tail(p) == |p| - i
  {
    assert Tail(p[..i]) == 0;
  }

  lemma CutInside(p: string, i: nat)
    requires i + 2 <= |p| && p[i] == '_' && p[i + 1] == '_' && (i > 0 ==> p[i - 1] != '_')
    ensures Tail(p) % 2 == Tail(p[i + 2..]) % 2
  {
    CutKeepsParity(p[..i], p[i + 2..]);
    assert p[i..i + 2] == "__" && p[..i] + p[i..i + 2] + p[i + 2..] == p;
  }

  lemma FreeIsShort(name: string)
    requires !IsLong(name)
    ensures ShortName(name) == name
  {
    LastPieceOfFree(name, "__");
  }

  lemma CutKeepsParity(a: string, rest: string)
    requires a == "" || a[|a| - 1] != '_'
    ensures Tail(a + "__" + rest) % 2 == Tail(rest) % 2
  {
    TailOfPair();
    assert Tail(a) == 0;
    hide Tail;
    TailOfConcat(a + "__", rest);
    TailOfConcat(a, "__");
  }

  lemma TailOfPair()
    ensures Tail("__") == 2
  {
    assert "__"[..1] == "_" && "_"[..0] == "";
  }

  // ---------------------------------------------------------------- the table afterwards

  /** Which definition a surviving name denotes: the one that had the name, or else the first one whose short name it is. */
  lemma SurvivorDenotes(defsKey: string, order: seq<string>, env: Env, properties: Option<Json>,
                        order': seq<string>, env': Env, properties': Option<Json>, i: nat)
    requires FixedSchema(defsKey, order, env, properties, order', env', properties') && i < |order|
    requires var name := ShortName(order[i]); name in order ==> order[i] == name
    requires ShortName(order[i]) !in order ==> forall j | 0 <= j < i :: ShortName(order[j]) != ShortName(order[i])
    ensures var name := ShortName(order[i]);
            name in env' && env'[name] == FixValue(FixContext(defsKey, order), env[order[i]])
  {
    var name := ShortName(order[i]);
    assert order[i] in order;
    FinalOrderNames(order, name);
    if name !in order {
      FirstWithIsFirst(order, i);
    }
    assert Source(order, name) == order[i];
  }

  /** The definition filed under `p__name` is found under `name` afterwards, its references rewritten, if no other
      definition claims that name; and a reference to it points at `name`. */
  lemma DefinitionIsRenamed(defsKey: string, order: seq<string>, env: Env, properties: Option<Json>,
                            order': seq<string>, env': Env, properties': Option<Json>, p: string, name: string)
    requires FixedSchema(defsKey, order, env, properties, order', env', properties')
    requires !IsLong(name) && (p == "" || p[|p| - 1] != '_') && p + "__" + name in order
    ensures name in env' && p + "__" + name !in env'
    ensures (forall k | k in order && k != p + "__" + name :: ShortName(k) != name) ==>
              p + "__" + name in env && env'[name] == FixValue(FixContext(defsKey, order), env[p + "__" + name])
    ensures '/' !in p + "__" + name ==>
              FixRef(FixContext(defsKey, order), "#/" + defsKey + "/" + (p + "__" + name)) == "#/" + defsKey + "/" + name
  {
    hide FixedSchema, FixContext, FixRef, FinalOrder, LastPiece, Contains, ShortName;
    var key := p + "__" + name;
    ShortNameIs(p, name);
    KeptName(defsKey, order, env, properties, order', env', properties', key);
    if forall k | k in order && k != key :: ShortName(k) != name {
      OnlyClaim(defsKey, order, env, properties, order', env', properties', key);
    }
    if '/' !in key {
      ReferenceMoves(defsKey, order, key);
    }
  }

  lemma ShortNameIs(p: string, name: string)
    requires !IsLong(name) && (p == "" || p[|p| - 1] != '_')
    ensures IsLong(p + "__" + name) && ShortName(p + "__" + name) == name && ShortName(name) == name
  {
    ShortNameExactlyWhen(p, name);
    FreeIsShort(name);
  }

  lemma KeptName(defsKey: string, order: seq<string>, env: Env, properties: Option<Json>,
                 order': seq<string>, env': Env, properties': Option<Json>, key: string)
    requires FixedSchema(defsKey, order, env, properties, order', env', properties') && key in order && IsLong(key)
    ensures ShortName(key) in env' && key !in env'
  {
    FinalOrderNames(order, ShortName(key));
    if key in env' {
      NoLongNameLeft(defsKey, order, env, properties, order', env', properties', key);
    }
  }

  lemma OnlyClaim(defsKey: string, order: seq<string>, env: Env, properties: Option<Json>,
                  order': seq<string>, env': Env, properties': Option<Json>, key: string)
    requires FixedSchema(defsKey, order, env, properties, order', env', properties') && key in order && IsLong(key)
    requires ShortName(ShortName(key)) == ShortName(key)
    requires forall k | k in order && k != key :: ShortName(k) != ShortName(key)
    ensures ShortName(key) in env' && key in env && env'[ShortName(key)] == FixValue(FixContext(defsKey, order), env[key])
  {
    hide FinalOrder, LastPiece, FixContext;
    ShortNameIsShort(key);
    var i :| 0 <= i < |order| && order[i] == key;
    forall j | 0 <= j < i ensures ShortName(order[j]) != ShortName(order[i]) {
      assert order[j] in order && order[j] != order[i];
    }
    SurvivorDenotes(defsKey, order, env, properties, order', env', properties', i);
  }

  lemma ReferenceMoves(defsKey: string, order: seq<string>, key: string)
    requires key in order && IsLong(key) && '/' !in key
    ensures FixRef(FixContext(defsKey, order), "#/" + defsKey + "/" + key) == "#/" + defsKey + "/" + ShortName(key)
  {
    assert MakeRef(defsKey, key) == "#/" + defsKey + "/" + key;
    TargetOfMadeRef(defsKey, key);
  }

  /** A name that is no short name of a definition stands for a reference to a long name that could not be resolved. */
  lemma PlaceholderIs(defsKey: string, order: seq<string>, env: Env, properties: Option<Json>,
                      order': seq<string>, env': Env, properties': Option<Json>, name: string) returns (t: string)
    requires FixedSchema(defsKey, order, env, properties, order', env', properties')
    requires name in env' && forall k | k in order :: ShortName(k) != name
    ensures IsProblemOf(FixContext(defsKey, order), env, properties, t) && ShortName(t) == name
    ensures env'[name] == Obj(map[
                                "type" := Str("object"),
                                "properties" := Obj(map[]),
                                "description" := Str("Auto-generated placeholder for missing reference: " + t)])
  {
    FinalOrderNames(order, name);
    t :| IsProblemOf(FixContext(defsKey, order), env, properties, t) && ShortName(t) == name && env'[name] == Placeholder(t);
  }
}
