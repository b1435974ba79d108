/** What a schema means: the (possibly infinite) tree got by replacing every reference into the definitions
    table by the definition it points at, cut off after `n` replacements along any path. `fix_anomalies` is
    compared with that meaning, cyclic schemas included. */
module SchemaMeaning {
  import opened Wrappers
  import opened PyStrings
  import opened SchemaRefs
  import opened SchemaTable
  import opened SchemaRewriting

  datatype Tree =
    | Atom(value: Json)
    | Items(items: seq<Tree>)
    | Members(members: map<string, Tree>)
    | Cut
    | Dangling

  // ---------------------------------------------------------------- what a reference points at

  /** The reference is a pointer into the definitions table: `#/$defs/...` (JSON Schema Core, section 8.2.4). */
  predicate IsInto(defsKey: string, ref: string) {
    MakeRef(defsKey, "") <= ref
  }

  /** The definition a reference points at. A pointer that goes on into a definition names none, nor does a reference
      to another document or to another part of this one. */
  function Named(defsKey: string, ref: string): Option<string> {
    var n := |MakeRef(defsKey, "")|;
    if IsInto(defsKey, ref) && '/' !in ref[n..] then Some(ref[n..]) else None
  }

  /** A reference that names no definition, although the code takes it for one that does. */
  predicate IsForeign(defsKey: string, ref: string) {
    Target(defsKey, ref).Some? && Named(defsKey, ref).None?
  }

  lemma NamedIsTarget(defsKey: string, ref: string)
    ensures Named(defsKey, ref).Some? ==>
              ref == MakeRef(defsKey, Named(defsKey, ref).value) && Target(defsKey, ref) == Named(defsKey, ref)
  {
    if Named(defsKey, ref).Some? {
      TargetOfMadeRef(defsKey, Named(defsKey, ref).value);
    }
  }

  lemma NamedOfMadeRef(defsKey: string, name: string)
    requires '/' !in name
    ensures Named(defsKey, MakeRef(defsKey, name)) == Some(name)
  {
    assert MakeRef(defsKey, name) == MakeRef(defsKey, "") + name;
  }

  // ---------------------------------------------------------------- unfolding

  function Unfold(defsKey: string, env: Env, j: Json, n: nat): Tree
    decreases n, j, 0
  {
    match j
    case Obj(fields) => Members(map k | k in fields :: UnfoldMember(defsKey, env, k, fields[k], n))
    case Arr(items) => Items(seq(|items|, i requires 0 <= i < |items| => Unfold(defsKey, env, items[i], n)))
    case _ => Atom(j)
  }

  /** A reference to a definition stands for it; any other stands for itself. */
  function UnfoldMember(defsKey: string, env: Env, key: string, value: Json, n: nat): Tree
    decreases n, value, 1
  {
    if IsRef(key, value) && Named(defsKey, value.s).Some? then
      var t := Named(defsKey, value.s).value;
      if t !in env then Dangling
      else if n == 0 then Cut
      else Unfold(defsKey, env, env[t], n - 1)
    else Unfold(defsKey, env, value, n)
  }

  /** The tree a reference stands for. */
  function UnfoldRef(defsKey: string, env: Env, ref: string, n: nat): Tree {
    UnfoldMember(defsKey, env, "$ref", Str(ref), n)
  }

  // ---------------------------------------------------------------- which references a value holds

  /** Every reference, anywhere in `j`, satisfies `p`. */
  ghost predicate AllRefs(p: string -> bool, j: Json)
    decreases j, 0
  {
    match j
    case Obj(fields) => forall k | k in fields :: MemberRefs(p, k, fields[k])
    case Arr(items) => forall i | 0 <= i < |items| :: AllRefs(p, items[i])
    case _ => true
  }

  ghost predicate MemberRefs(p: string -> bool, key: string, value: Json)
    decreases value, 1
  {
    if IsRef(key, value) then p(value.s) else AllRefs(p, value)
  }

  /** A pointer into the table names one of the definitions. */
  function Resolves(defsKey: string, names: set<string>): string -> bool {
    ref => IsInto(defsKey, ref) ==> Named(defsKey, ref).Some? && Named(defsKey, ref).value in names
  }

  /** So does every reference that mentions the definitions key. */
  function ResolvesOnly(defsKey: string, names: set<string>): string -> bool {
    ref => Target(defsKey, ref).Some? ==> Named(defsKey, ref).Some? && Named(defsKey, ref).value in names
  }

  function NamesShort(defsKey: string): string -> bool {
    ref => Named(defsKey, ref).Some? ==> !IsLong(Named(defsKey, ref).value)
  }

  /** Every pointer into the table names a definition. Other references are free. */
  ghost predicate Resolved(defsKey: string, names: set<string>, j: Json) {
    AllRefs(Resolves(defsKey, names), j)
  }

  /** Every reference that mentions the definitions key names a definition. */
  ghost predicate Closed(defsKey: string, names: set<string>, j: Json) {
    AllRefs(ResolvesOnly(defsKey, names), j)
  }

  ghost predicate ShortRefsOnly(defsKey: string, j: Json) {
    AllRefs(NamesShort(defsKey), j)
  }

  /** The rewriting reaches every reference to a long name, and leaves alone the references that name no definition.
      It does not look at an object that sits in a list directly inside a list, nor inside a definition that is not
      an object. */
  ghost predicate Reached(c: Context, j: Json)
    decreases j, 0
  {
    if j.Obj? then forall k | k in j.fields :: MemberReached(c, k, j.fields[k])
    else ShortRefsOnly(c.defsKey, j)
  }

  ghost predicate MemberReached(c: Context, key: string, value: Json)
    decreases value, 1
  {
    if IsRef(key, value) then IsForeign(c.defsKey, value.s) ==> FixRef(c, value.s) == value.s
    else if value.Obj? then Reached(c, value)
    else if value.Arr? then forall i | 0 <= i < |value.items| :: Reached(c, value.items[i])
    else true
  }

  /** A reference is moved if and only if it mentions the definitions key, its last piece is a long name, and the short
      name of that is known; whatever it points at. */
  lemma MovedExactlyWhen(c: Context, ref: string)
    requires Coherent(c)
    ensures FixRef(c, ref) != ref
       <==> && Target(c.defsKey, ref).Some? && IsLong(Target(c.defsKey, ref).value)
            && ShortName(Target(c.defsKey, ref).value) in c.names
    ensures FixRef(c, ref) != ref ==> Named(c.defsKey, FixRef(c, ref)) == Some(ShortName(Target(c.defsKey, ref).value))
  {
    FixRefTarget(c, ref);
    if Target(c.defsKey, ref).Some? {
      ShortNameIsShort(Target(c.defsKey, ref).value);
      TargetHasNoSlash(c.defsKey, ref);
      NamedOfMadeRef(c.defsKey, ShortName(Target(c.defsKey, ref).value));
    }
  }

  ghost predicate ResolvedSchema(defsKey: string, order: seq<string>, env: Env) {
    IsOrderOf(order, env) && forall k | k in env :: Resolved(defsKey, env.Keys, env[k])
  }

  ghost predicate ClosedSchema(defsKey: string, order: seq<string>, env: Env) {
    IsOrderOf(order, env) && forall k | k in env :: Closed(defsKey, env.Keys, env[k])
  }

  // ---------------------------------------------------------------- the two conditions, and preservation

  ghost predicate SameAt(defsKey: string, env: Env, k: string, l: string, n: nat)
    requires k in env && l in env
  {
    Unfold(defsKey, env, env[k], n) == Unfold(defsKey, env, env[l], n)
  }

  /** Definitions with the same short name mean the same. */
  ghost predicate SameMeaning(defsKey: string, env: Env) {
    forall k, l, n: nat | k in env && l in env && ShortName(k) == ShortName(l) :: SameAt(defsKey, env, k, l, n)
  }

  /** No definition that survives hides a long reference from the rewriting, or has another reference moved. */
  ghost predicate SurvivorsReached(defsKey: string, order: seq<string>, env: Env)
    requires IsOrderOf(order, env)
  {
    forall s | s in FinalOrder(order) && IsShortOf(order, s) :: Reached(FixContext(defsKey, order), env[Source(order, s)])
  }

  ghost predicate PreservedAt(defsKey: string, env: Env, env': Env, k: string, n: nat)
    requires k in env
  {
    ShortName(k) in env' && Unfold(defsKey, env', env'[ShortName(k)], n) == Unfold(defsKey, env, env[k], n)
  }

  /** Each original definition means the same as the one filed under its short name afterwards. */
  ghost predicate Preserved(defsKey: string, env: Env, env': Env) {
    forall k, n: nat | k in env :: PreservedAt(defsKey, env, env', k, n)
  }

  /** Definitions with the same short name become equal once their references are rewritten: the caveat of
      the docstring. Unique model names are the special case of a single definition per short name. */
  ghost predicate AgreeAfterRewriting(defsKey: string, order: seq<string>, env: Env) {
    forall k, l | k in env && l in env && ShortName(k) == ShortName(l) ::
      FixValue(FixContext(defsKey, order), env[k]) == FixValue(FixContext(defsKey, order), env[l])
  }

  // ---------------------------------------------------------------- closed input

  /** A reference that resolves before the pass is moved to the short name of its target, which survives. */
  lemma ResolvedRef(defsKey: string, order: seq<string>, ref: string)
    requires Named(defsKey, ref).Some? && Named(defsKey, ref).value in order
    ensures var t := Named(defsKey, ref).value;
            && Target(defsKey, ref) == Some(t)
            && Named(defsKey, FixRef(FixContext(defsKey, order), ref)) == Some(ShortName(t))
            && Target(defsKey, FixRef(FixContext(defsKey, order), ref)) == Some(ShortName(t))
            && ShortName(t) in FinalOrder(order) && IsShortOf(order, ShortName(t))
            && !IsProblematic(FixContext(defsKey, order), ref)
  {
    var t := Named(defsKey, ref).value;
    NamedIsTarget(defsKey, ref);
    FixContextIsCoherent(defsKey, order);
    FixRefTarget(FixContext(defsKey, order), ref);
    FinalOrderNames(order, ShortName(t));
    TargetHasNoSlash(defsKey, ref);
    NamedOfMadeRef(defsKey, ShortName(t));
    if !IsLong(t) {
      LastPieceOfFree(t, "__");
    }
  }

  lemma {:induction false} ClosedIsResolved(defsKey: string, names: set<string>, j: Json)
    requires Closed(defsKey, names, j)
    ensures Resolved(defsKey, names, j)
    decreases j
  {
    match j
    case Obj(fields) =>
      forall k | k in fields ensures MemberRefs(Resolves(defsKey, names), k, fields[k]) {
        assert MemberRefs(ResolvesOnly(defsKey, names), k, fields[k]);
        if IsRef(k, fields[k]) {
          IntoIsTarget(defsKey, fields[k].s);
        } else {
          ClosedIsResolved(defsKey, names, fields[k]);
        }
      }
    case Arr(items) =>
      forall i | 0 <= i < |items| ensures AllRefs(Resolves(defsKey, names), items[i]) {
        ClosedIsResolved(defsKey, names, items[i]);
      }
    case _ =>
  }

  lemma IntoIsTarget(defsKey: string, ref: string)
    ensures IsInto(defsKey, ref) ==> Target(defsKey, ref).Some?
  {
    if IsInto(defsKey, ref) {
      assert ref[2..2 + |defsKey|] == MakeRef(defsKey, "")[2..2 + |defsKey|] == defsKey;
      assert At(ref, defsKey, 2);
    }
  }

  lemma {:induction false} ClosedHasNoProblems(defsKey: string, order: seq<string>, names: set<string>, j: Json)
    requires Closed(defsKey, names, j) && forall k | k in names :: k in order
    ensures Problems(FixContext(defsKey, order), j) == {}
    decreases j, 0
  {
    var c := FixContext(defsKey, order);
    if j.Obj? {
      forall k | k in j.fields ensures ProblemsOfMember(c, k, j.fields[k]) == {} {
        ClosedMemberHasNoProblems(defsKey, order, names, k, j.fields[k]);
      }
    }
  }

  lemma {:induction false} ClosedMemberHasNoProblems(defsKey: string, order: seq<string>, names: set<string>,
                                                     key: string, value: Json)
    requires MemberRefs(ResolvesOnly(defsKey, names), key, value) && forall k | k in names :: k in order
    ensures ProblemsOfMember(FixContext(defsKey, order), key, value) == {}
    decreases value, 1
  {
    if IsRef(key, value) {
      if Target(defsKey, value.s).Some? {
        ResolvedRef(defsKey, order, value.s);
      }
    } else if value.Obj? {
      ClosedHasNoProblems(defsKey, order, names, value);
    } else if value.Arr? {
      forall i | 0 <= i < |value.items| ensures Problems(FixContext(defsKey, order), value.items[i]) == {} {
        ClosedHasNoProblems(defsKey, order, names, value.items[i]);
      }
    }
  }
}
