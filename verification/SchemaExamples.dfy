/** Schemas whose meaning `fix_anomalies` changes: one for each way in which the condition for preserving it can fail,
    and one with a pointer that goes on into a definition. */
module SchemaExamples {
  import opened Wrappers
  import opened PyStrings
  import opened SchemaRefs
  import opened SchemaTable
  import opened SchemaMeaning
  import opened SchemaPreservation

  const AX := "a__X"
  const BX := "b__X"

  function TypeOf(name: string): Json {
    Obj(map["type" := Str(name)])
  }

  lemma ShortOfTwoLetters()
    ensures IsLong(AX) && IsLong(BX) && ShortName(AX) == "X" && ShortName(BX) == "X" && !IsLong("Y")
  {
    assert At(AX, "__", 1) && At(BX, "__", 1);
    assert AX[0..2][0] == 'a' && BX[0..2][0] == 'b';
    assert !At(AX, "__", 0) && !At(BX, "__", 0);
    assert FindFrom(AX, "__", 0) == 1 && FindFrom(BX, "__", 0) == 1;
    assert AX[3..] == "X" && BX[3..] == "X";
    LastPieceOfFree("X", "__");
  }

  lemma TypeIsClosed(name: string, names: set<string>)
    ensures Closed("$defs", names, TypeOf(name)) && Resolved("$defs", names, TypeOf(name))
  {
    var j := TypeOf(name);
    assert forall k | k in j.fields :: MemberRefs(ResolvesOnly("$defs", names), k, j.fields[k]);
    ClosedIsResolved("$defs", names, j);
  }

  /** A table of two definitions. */
  lemma PairIsOrdered(k: string, l: string, a: Json, b: Json)
    requires k != l
    ensures IsOrderOf([k, l], map[k := a, l := b])
  {
  }

  lemma PairIsClosed(k: string, l: string, a: Json, b: Json)
    requires k != l && Closed("$defs", {k, l}, a) && Closed("$defs", {k, l}, b)
    ensures ClosedSchema("$defs", [k, l], map[k := a, l := b]) && ResolvedSchema("$defs", [k, l], map[k := a, l := b])
  {
    PairIsOrdered(k, l, a, b);
    hide AllRefs;
    assert map[k := a, l := b].Keys == {k, l};
    ClosedIsResolved("$defs", {k, l}, a);
    ClosedIsResolved("$defs", {k, l}, b);
  }

  lemma PairIsResolved(k: string, l: string, a: Json, b: Json)
    requires k != l && Resolved("$defs", {k, l}, a) && Resolved("$defs", {k, l}, b)
    ensures ResolvedSchema("$defs", [k, l], map[k := a, l := b])
  {
    PairIsOrdered(k, l, a, b);
    hide AllRefs;
    assert map[k := a, l := b].Keys == {k, l};
  }

  lemma DifferentTypes(env: Env)
    requires AX in env && BX in env && env[AX] == TypeOf("string") && env[BX] == TypeOf("number")
    ensures !SameAt("$defs", env, AX, BX, 0)
  {
    var a, b := Unfold("$defs", env, env[AX], 0), Unfold("$defs", env, env[BX], 0);
    assert a.members["type"] == Atom(Str("string")) && b.members["type"] == Atom(Str("number"));
  }

  /** Two different models with one class name: both references end up at the first of them. */
  lemma ClashingNamesChangeMeaning()
    ensures var order, env := [AX, BX], map[AX := TypeOf("string"), BX := TypeOf("number")];
            ClosedSchema("$defs", order, env) && !Preserved("$defs", env, FixedEnv("$defs", order, env))
  {
    var order, env := [AX, BX], map[AX := TypeOf("string"), BX := TypeOf("number")];
    TypeIsClosed("string", {AX, BX});
    TypeIsClosed("number", {AX, BX});
    ShortOfTwoLetters();
    hide ClosedSchema, ResolvedSchema, Closed, Resolved, TypeOf, SameAt, LastPiece, Preserved;
    PairIsClosed(AX, BX, TypeOf("string"), TypeOf("number"));
    PairIsOrdered(AX, BX, TypeOf("string"), TypeOf("number"));
    DifferentTypes(env);
    FixedEnvFiles("$defs", order, env);
    PreservedWhenFiled("$defs", order, env, FixedEnv("$defs", order, env));
  }

  const REF := Obj(map["$ref" := Str(MakeRef("$defs", AX))])
  const HIDDEN := Obj(map["allOf" := Arr([Arr([REF])])])

  lemma HiddenIsClosed(names: set<string>)
    requires AX in names
    ensures Closed("$defs", names, HIDDEN) && Resolved("$defs", names, HIDDEN)
  {
    NamedOfMadeRef("$defs", AX);
    assert MemberRefs(ResolvesOnly("$defs", names), "$ref", REF.fields["$ref"]);
    assert AllRefs(ResolvesOnly("$defs", names), REF);
    assert AllRefs(ResolvesOnly("$defs", names), Arr([REF]));
    assert AllRefs(ResolvesOnly("$defs", names), Arr([Arr([REF])]));
    assert MemberRefs(ResolvesOnly("$defs", names), "allOf", Arr([Arr([REF])]));
    ClosedIsResolved("$defs", names, HIDDEN);
  }

  lemma HiddenIsNotReached(c: Context)
    requires c.defsKey == "$defs"
    ensures !Reached(c, HIDDEN)
  {
    ShortOfTwoLetters();
    NamedOfMadeRef("$defs", AX);
    assert !MemberRefs(NamesShort("$defs"), "$ref", REF.fields["$ref"]);
    assert !AllRefs(NamesShort("$defs"), REF);
    hide LastPiece, Named;
    assert !AllRefs(NamesShort("$defs"), [REF][0]);
    assert !Reached(c, [Arr([REF])][0]);
    assert !MemberReached(c, "allOf", HIDDEN.fields["allOf"]);
  }

  /** A reference in a list inside a list is never moved: it dangles once its long name is gone. */
  lemma NestedListChangesMeaning()
    ensures var order, env := [AX, "Y"], map[AX := TypeOf("string"), "Y" := HIDDEN];
            ClosedSchema("$defs", order, env) && !Preserved("$defs", env, FixedEnv("$defs", order, env))
  {
    var order, env := [AX, "Y"], map[AX := TypeOf("string"), "Y" := HIDDEN];
    TypeIsClosed("string", {AX, "Y"});
    HiddenIsClosed({AX, "Y"});
    ContextKey(order);
    HiddenIsNotReached(FixContext("$defs", order));
    YSurvives(order);
    hide ClosedSchema, ResolvedSchema, Closed, Resolved, TypeOf, Reached, LastPiece, Preserved, FixContext, FinalOrder;
    PairIsClosed(AX, "Y", TypeOf("string"), HIDDEN);
    PairIsOrdered(AX, "Y", TypeOf("string"), HIDDEN);
    assert !SurvivorsReached("$defs", order, env);
    FixedEnvFiles("$defs", order, env);
    PreservedWhenFiled("$defs", order, env, FixedEnv("$defs", order, env));
  }

  lemma YSurvives(order: seq<string>)
    requires "Y" in order
    ensures "Y" in FinalOrder(order) && IsShortOf(order, "Y") && Source(order, "Y") == "Y"
  {
    ShortOfTwoLetters();
    LastPieceOfFree("Y", "__");
    assert ShortName("Y") == "Y";
    FinalOrderNames(order, "Y");
  }

  // ---------------------------------------------------------------- references that name no definition

  const ELSEWHERE := "other.json#/$defs/a__X"
  const FOREIGN := Obj(map["$ref" := Str(ELSEWHERE)])

  lemma ElsewhereIsForeign()
    ensures Target("$defs", ELSEWHERE) == Some(AX) && !IsInto("$defs", ELSEWHERE) && IsForeign("$defs", ELSEWHERE)
  {
    assert ELSEWHERE == "other.json#/$defs" + ['/'] + AX;
    assert At(ELSEWHERE, "$defs", 12);
    LastPieceAfter("other.json#/$defs", '/', AX);
    assert ELSEWHERE[0] != MakeRef("$defs", "")[0];
  }

  lemma FixedAt(order: seq<string>, env: Env, name: string)
    requires IsOrderOf(order, env) && name in FinalOrder(order) && IsShortOf(order, name)
    ensures var e := FixedEnv("$defs", order, env);
            name in e && e[name] == FixValue(FixContext("$defs", order), env[Source(order, name)])
  {
  }

  lemma FixedReference(c: Context, ref: string)
    ensures FixValue(c, Obj(map["$ref" := Str(ref)])) == Obj(map["$ref" := Str(FixRef(c, ref))])
  {
  }

  const ORDER := [AX, "Y"]
  const ENV: Env := map[AX := TypeOf("string"), "Y" := FOREIGN]

  /** A reference whose last piece is the long name of a definition is made to point at it. */
  lemma MovedTo(order: seq<string>, ref: string, name: string)
    requires Target("$defs", ref) == Some(name) && name in order && IsLong(name)
    ensures FixRef(FixContext("$defs", order), ref) == MakeRef("$defs", ShortName(name))
  {
  }

  lemma ForeignIsMoved()
    ensures FixRef(FixContext("$defs", ORDER), ELSEWHERE) == MakeRef("$defs", "X") != ELSEWHERE
  {
    ShortOfTwoLetters();
    ElsewhereIsForeign();
    assert AX in ORDER && MakeRef("$defs", "X")[0] == '#';
    hide Target, LastPiece, FixContext, FixRef;
    MovedTo(ORDER, ELSEWHERE, AX);
  }

  lemma DifferentNames(defsKey: string, env: Env)
    requires forall k, l | k in env && l in env && ShortName(k) == ShortName(l) :: k == l
    ensures SameMeaning(defsKey, env)
  {
  }

  lemma OneReference(p: string -> bool, ref: string)
    requires p(ref)
    ensures AllRefs(p, Obj(map["$ref" := Str(ref)]))
  {
  }

  lemma ForeignHoldsNoPointer(names: set<string>)
    ensures Resolved("$defs", names, FOREIGN)
  {
    ElsewhereIsForeign();
    hide IsInto, Named, Target, IsForeign;
    assert Resolves("$defs", names)(ELSEWHERE);
    OneReference(Resolves("$defs", names), ELSEWHERE);
  }

  lemma ForeignIsResolved()
    ensures ResolvedSchema("$defs", ORDER, ENV) && SameMeaning("$defs", ENV)
  {
    ShortOfTwoLetters();
    LastPieceOfFree("Y", "__");
    TypeIsClosed("string", {AX, "Y"});
    ForeignHoldsNoPointer({AX, "Y"});
    hide LastPiece, Resolved, SameMeaning, ResolvedSchema, TypeOf;
    PairIsResolved(AX, "Y", TypeOf("string"), FOREIGN);
    DifferentNames("$defs", ENV);
  }

  /** A reference into another document, whose last piece happens to be the long name of a definition: it is made to
      point at that definition. */
  lemma ForeignReferenceIsMoved()
    ensures ResolvedSchema("$defs", ORDER, ENV) && SameMeaning("$defs", ENV)
    ensures var e := FixedEnv("$defs", ORDER, ENV);
            "Y" in e && e["Y"] == Obj(map["$ref" := Str(MakeRef("$defs", "X"))]) && !Preserved("$defs", ENV, e)
  {
    hide ResolvedSchema, SameMeaning, FixContext, FixRef, FixValue, Target, IsForeign, FinalOrder, Preserved;
    var c := FixContext("$defs", ORDER);
    ForeignIsResolved();
    ForeignIsMoved();
    ElsewhereIsForeign();
    YSurvives(ORDER);
    FixedAt(ORDER, ENV, "Y");
    FixedReference(c, ELSEWHERE);
    assert !MemberReached(c, "$ref", FOREIGN.fields["$ref"]) by {
      ContextKey(ORDER);
    }
    assert !Reached(c, ENV["Y"]);
    assert !SurvivorsReached("$defs", ORDER, ENV);
    FixedEnvFiles("$defs", ORDER, ENV);
    PreservedWhenFiled("$defs", ORDER, ENV, FixedEnv("$defs", ORDER, ENV));
  }

  lemma ContextKey(order: seq<string>)
    ensures FixContext("$defs", order).defsKey == "$defs"
  {
  }

  const BY := "b__Y"
  const PROPERTIES := "#/$defs/a__X/properties"
  const INNER := PROPERTIES + ['/'] + BY
  const DEEP := Obj(map["$ref" := Str(INNER)])
  const OUTER := Obj(map["properties" := Obj(map[BY := TypeOf("number")])])
  const NAMES := [AX, BY, "Z"]
  const DEFS: Env := map[AX := OUTER, BY := TypeOf("string"), "Z" := DEEP]

  lemma ShortOfBY()
    ensures IsLong(BY) && ShortName(BY) == "Y" && !IsLong("Z") && ShortName("Z") == "Z"
  {
    assert At(BY, "__", 1) && BY[0..2][0] == 'b' && !At(BY, "__", 0);
    assert FindFrom(BY, "__", 0) == 1 && BY[3..] == "Y";
    LastPieceOfFree("Y", "__");
    LastPieceOfFree("Z", "__");
  }

  lemma InnerTarget()
    ensures Target("$defs", INNER) == Some(BY)
  {
    LastPieceAfter(PROPERTIES, '/', BY);
    assert INNER[2..7] == PROPERTIES[2..7] == "$defs";
    hide LastPiece;
    assert At(INNER, "$defs", 2);
  }

  lemma InnerIsMoved()
    ensures FixRef(FixContext("$defs", NAMES), INNER) == MakeRef("$defs", "Y")
  {
    ShortOfBY();
    InnerTarget();
    hide Target, LastPiece, FixContext, FixRef;
    assert BY in NAMES;
    MovedTo(NAMES, INNER, BY);
  }

  lemma NamesSurvive()
    ensures "Z" in FinalOrder(NAMES) && IsShortOf(NAMES, "Z") && Source(NAMES, "Z") == "Z"
    ensures "Y" in FinalOrder(NAMES) && IsShortOf(NAMES, "Y") && Source(NAMES, "Y") == BY
  {
    ShortOfBY();
    ShortOfTwoLetters();
    hide LastPiece, FinalOrder;
    assert BY in NAMES && "Z" in NAMES;
    FinalOrderNames(NAMES, "Z");
    FinalOrderNames(NAMES, "Y");
    assert ShortName(AX) == "X" && "Y" !in NAMES;
  }

  /** A pointer that goes on into a definition, and whose last piece happens to be the long name of another one: the
      property it pointed at is a number, the definition it points at afterwards a string. */
  lemma PointerIntoDefinitionIsMoved()
    ensures IsOrderOf(NAMES, DEFS) && DEFS["Z"] == Obj(map["$ref" := Str("#/$defs/a__X/properties" + "/" + BY)])
    ensures DEFS[AX].fields["properties"].fields[BY] == TypeOf("number")
    ensures var e := FixedEnv("$defs", NAMES, DEFS);
            && "Z" in e && e["Z"] == Obj(map["$ref" := Str(MakeRef("$defs", "Y"))])
            && "Y" in e && e["Y"] == TypeOf("string")
  {
    hide FixContext, FixRef, Target, FinalOrder, LastPiece;
    var c := FixContext("$defs", NAMES);
    InnerIsMoved();
    NamesSurvive();
    FixedAt(NAMES, DEFS, "Z");
    FixedAt(NAMES, DEFS, "Y");
    FixedReference(c, INNER);
    TypeIsKept(c, "string");
  }

  lemma TypeIsKept(c: Context, name: string)
    ensures FixValue(c, TypeOf(name)) == TypeOf(name)
  {
  }
}
