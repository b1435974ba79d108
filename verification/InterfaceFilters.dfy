/** When `remove_index_signatures` does what it documents: the filter the machine computes against the documented one. */
module InterfaceFilters {
  import opened PyStrings
  import opened IndexSignatures
  import opened InterfaceTrees

  // ---------------------------------------------------------------- where the two filters differ

  ghost predicate NoBareBefore(ms: seq<Member>, j: nat)
    requires j <= |ms|
  {
    forall k | 0 <= k < j :: !HasBare(ms[k])
  }

  /** In a nested object, a signature comes after an object nested there, at any depth: the flag is down by then,
      although the line is still inside an object. `down` says that it is down to begin with. */
  ghost predicate Strays(body: seq<Member>, down: bool)
    decreases body, 1
  {
    exists j | 0 <= j < |body| :: StraysAt(body, down, j)
  }

  ghost predicate StraysAt(body: seq<Member>, down: bool, j: nat)
    requires j < |body|
    decreases body, 0
  {
    && NoBareBefore(body, j)
    && ((body[j].Signature? && (down || exists i | 0 <= i < j :: body[i].Nested?))
        || (body[j].Nested? && Strays(body[j].body, false)))
  }

  /** Either a nested signature strays, or one of the interface's own comes after an object closed by a bare brace.
      `lost` says that such an object came before. */
  ghost predicate Deviates(ms: seq<Member>, lost: bool) {
    exists j | 0 <= j < |ms| :: DeviatesAt(ms, lost, j)
  }

  ghost predicate DeviatesAt(ms: seq<Member>, lost: bool, j: nat)
    requires j < |ms|
  {
    if lost || !NoBareBefore(ms, j) then ms[j].Signature? else ms[j].Nested? && Strays(ms[j].body, false)
  }

  lemma BareCons(m: Member, ms: seq<Member>, j: nat)
    requires j <= |ms|
    ensures NoBareBefore([m] + ms, j + 1) <==> !HasBare(m) && NoBareBefore(ms, j)
  {
    var all := [m] + ms;
    assert all[0] == m && forall k | 0 <= k < j :: all[k + 1] == ms[k];
    if NoBareBefore(all, j + 1) {
      forall k | 0 <= k < j ensures !HasBare(ms[k]) {
        assert !HasBare(all[k + 1]);
      }
    }
  }

  lemma StraysAtCons(m: Member, ms: seq<Member>, down: bool, j: nat)
    requires j < |ms|
    ensures StraysAt([m] + ms, down, j + 1) <==> !HasBare(m) && StraysAt(ms, down || m.Nested?, j)
  {
    hide HasBare, NoBareBefore, Strays;
    var all := [m] + ms;
    BareCons(m, ms, j);
    assert all[j + 1] == ms[j] && all[0] == m;
    if i :| 0 <= i < j && ms[i].Nested? {
      assert all[i + 1].Nested?;
    }
    if i :| 0 <= i < j + 1 && all[i].Nested? {
      assert i > 0 ==> ms[i - 1].Nested?;
    }
  }

  lemma StraysCons(m: Member, ms: seq<Member>, down: bool)
    ensures Strays([m] + ms, down)
       <==> || (m.Signature? && down) || (m.Nested? && Strays(m.body, false))
            || (!HasBare(m) && Strays(ms, down || m.Nested?))
  {
    hide HasBare;
    var all, later := [m] + ms, down || m.Nested?;
    assert StraysAt(all, down, 0) <==> (m.Signature? && down) || (m.Nested? && Strays(m.body, false));
    hide StraysAt;
    forall j: nat | 0 < j < |all|
      ensures StraysAt(all, down, j) <==> !HasBare(m) && StraysAt(ms, later, j - 1)
    {
      StraysAtCons(m, ms, down, j - 1);
    }
    if j: nat :| j < |ms| && StraysAt(ms, later, j) {
      assert StraysAt(all, down, j + 1) <==> !HasBare(m) && StraysAt(ms, later, j);
    }
  }

  lemma DeviatesCons(m: Member, ms: seq<Member>, lost: bool)
    ensures Deviates([m] + ms, lost)
       <==> || (m.Signature? && lost) || (!lost && m.Nested? && Strays(m.body, false))
            || Deviates(ms, lost || HasBare(m))
  {
    hide HasBare, Strays;
    var all, later := [m] + ms, lost || HasBare(m);
    assert DeviatesAt(all, lost, 0) <==> (m.Signature? && lost) || (!lost && m.Nested? && Strays(m.body, false));
    forall j: nat | 0 < j < |all| ensures DeviatesAt(all, lost, j) <==> DeviatesAt(ms, later, j - 1) {
      BareCons(m, ms, j - 1);
      assert all[j] == ms[j - 1];
    }
    hide DeviatesAt;
    if j: nat :| j < |ms| && DeviatesAt(ms, later, j) {
      assert DeviatesAt(all, lost, j + 1) <==> DeviatesAt(ms, later, j);
    }
  }

  // ---------------------------------------------------------------- the filters agree on trees

  lemma {:induction false} FilteredIsShorter(ms: seq<Member>, mode: Mode)
    ensures |Actual(ms, mode)| <= |ms|
    decreases ms, 0
  {
    if ms != [] {
      FilteredIsShorter(ms[1..], AfterMember(mode, ms[0]));
    }
  }

  lemma {:induction false} OwnIsShorter(ms: seq<Member>)
    ensures |WithoutOwnSignatures(ms)| <= |ms|
  {
    if ms != [] {
      OwnIsShorter(ms[1..]);
    }
  }

  lemma SameHead<T>(a: T, s: seq<T>, b: T, t: seq<T>)
    ensures [a] + s == [b] + t <==> a == b && s == t
  {
    if [a] + s == [b] + t {
      assert ([a] + s)[0] == ([b] + t)[0] && ([a] + s)[1..] == s && ([b] + t)[1..] == t;
    }
  }

  /** Believing to be in no interface, the machine keeps everything. */
  lemma {:induction false} LostKeepsAll(ms: seq<Member>)
    ensures Actual(ms, Lost) == ms
    decreases ms
  {
    if ms != [] {
      LostKeepsAll(ms[1..]);
      if ms[0].Nested? {
        LostKeepsAll(ms[0].body);
      }
    }
  }

  /** In a nested object, the machine keeps everything, as documented, if and only if no signature strays. */
  lemma {:induction false} NestedKeptExactlyWhen(ms: seq<Member>, mode: Mode)
    requires !mode.Lost?
    ensures Actual(ms, mode) == ms <==> !Strays(ms, mode.Own?)
    decreases ms
  {
    if ms != [] {
      var m, rest := ms[0], ms[1..];
      var after := AfterMember(mode, m);
      assert ms == [m] + rest;
      StraysCons(m, rest, mode.Own?);
      if after.Lost? {
        LostKeepsAll(rest);
      } else {
        NestedKeptExactlyWhen(rest, after);
      }
      match m
      case Line(_) => SameHead(m, Actual(rest, after), m, rest);
      case Signature(_) =>
        if mode.Own? {
          FilteredIsShorter(rest, after);
          assert [] + Actual(rest, after) == Actual(rest, after);
        } else {
          SameHead(m, Actual(rest, after), m, rest);
        }
      case Nested(open, body, close) =>
        NestedKeptExactlyWhen(body, Inner);
        SameHead(Nested(open, Actual(body, Inner), close), Actual(rest, after), m, rest);
    }
  }

  /** Among an interface's own members, the machine does what is documented if and only if it does not deviate. */
  lemma {:induction false} OwnFilteredExactlyWhen(ms: seq<Member>, mode: Mode)
    requires !mode.Inner?
    ensures Actual(ms, mode) == WithoutOwnSignatures(ms) <==> !Deviates(ms, mode.Lost?)
    decreases ms
  {
    if ms != [] {
      var m, rest := ms[0], ms[1..];
      var after := AfterMember(mode, m);
      assert ms == [m] + rest;
      DeviatesCons(m, rest, mode.Lost?);
      OwnFilteredExactlyWhen(rest, after);
      match m
      case Line(_) => SameHead(m, Actual(rest, after), m, WithoutOwnSignatures(rest));
      case Signature(_) =>
        assert [] + WithoutOwnSignatures(rest) == WithoutOwnSignatures(rest);
        assert [] + Actual(rest, after) == Actual(rest, after);
        if mode.Lost? {
          OwnIsShorter(rest);
          LostKeepsAll(ms);
        }
      case Nested(open, body, close) =>
        var inner := if mode.Lost? then Lost else Inner;
        if mode.Lost? {
          LostKeepsAll(body);
        } else {
          NestedKeptExactlyWhen(body, Inner);
        }
        SameHead(Nested(open, Actual(body, inner), close), Actual(rest, after), m, WithoutOwnSignatures(rest));
    }
  }

  // ---------------------------------------------------------------- the filters agree on trees if they print alike

  /** A line that is not an index signature comes first. */
  predicate StartsPlain(lines: seq<string>) {
    lines != [] && !IsSignature(lines[0])
  }

  lemma {:induction false} OwnStartsPlain(ms: seq<Member>, x: seq<string>)
    requires AllWellFormed(ms) && StartsPlain(x)
    ensures StartsPlain(PrintMembers(Actual(ms, Own)) + x) && StartsPlain(PrintMembers(WithoutOwnSignatures(ms)) + x)
    decreases ms
  {
    if ms != [] {
      var m, rest := ms[0], ms[1..];
      if m.Signature? {
        OwnStartsPlain(rest, x);
        assert [] + WithoutOwnSignatures(rest) == WithoutOwnSignatures(rest);
        assert [] + Actual(rest, Own) == Actual(rest, Own);
      } else if m.Nested? {
        BracesAreNoSignature(m.open);
        assert (Kept(m, Own) + Actual(rest, AfterMember(Own, m)))[0].open == m.open;
      }
    }
  }

  /** What is documented for the members of an interface, and for those of a nested object. */
  function Wanted(ms: seq<Member>, own: bool): seq<Member> {
    if own then WithoutOwnSignatures(ms) else ms
  }

  lemma PrintHead(m: Member, ms: seq<Member>, x: seq<string>)
    ensures PrintMembers([m] + ms) + x == PrintMember(m) + (PrintMembers(ms) + x)
  {
    assert ([m] + ms)[1..] == ms;
    assert PrintMember(m) + PrintMembers(ms) + x == PrintMember(m) + (PrintMembers(ms) + x);
  }

  lemma {:induction false} SamePrint(ms: seq<Member>, mode: Mode, own: bool, x: seq<string>, y: seq<string>)
    requires AllWellFormed(ms) && StartsPlain(x) && StartsPlain(y)
    requires PrintMembers(Actual(ms, mode)) + x == PrintMembers(Wanted(ms, own)) + y
    ensures Actual(ms, mode) == Wanted(ms, own) && x == y
    decreases ms, 1
  {
    if ms == [] {
      assert [] + x == x && [] + y == y;
    } else {
      var m, rest := ms[0], ms[1..];
      var a, w := Actual(rest, AfterMember(mode, m)), Wanted(rest, own);
      assert [m] + rest == ms;
      match m
      case Line(text) =>
        PrintHead(m, a, x);
        PrintHead(m, w, y);
        SameHead(text, PrintMembers(a) + x, text, PrintMembers(w) + y);
        SamePrint(rest, AfterMember(mode, m), own, x, y);
      case Signature(text) =>
        PrintHead(m, a, x);
        PrintHead(m, w, y);
        assert [] + a == a && [] + w == w;
        OwnStartsPlain(rest, x);
        OwnStartsPlain(rest, y);
        SameHead(text, PrintMembers(a) + x, text, PrintMembers(w) + y);
        assert mode.Own? == own;
        SamePrint(rest, AfterMember(mode, m), own, x, y);
      case Nested(open, body, close) =>
        SamePrintNested(ms, mode, own, x, y);
    }
  }

  lemma {:induction false} SamePrintNested(ms: seq<Member>, mode: Mode, own: bool, x: seq<string>, y: seq<string>)
    requires ms != [] && ms[0].Nested? && AllWellFormed(ms) && StartsPlain(x) && StartsPlain(y)
    requires PrintMembers(Actual(ms, mode)) + x == PrintMembers(Wanted(ms, own)) + y
    ensures Actual(ms, mode) == Wanted(ms, own) && x == y
    decreases ms, 0
  {
    var m, rest := ms[0], ms[1..];
    var inner := if mode.Lost? then Lost else Inner;
    var k := Nested(m.open, Actual(m.body, inner), m.close);
    var a, w := Actual(rest, AfterMember(mode, m)), Wanted(rest, own);
    assert [m] + rest == ms;
    PrintNestedHead(k, a, x);
    PrintNestedHead(m, w, y);
    BracesAreNoSignature(m.close);
    var xs, ys := [m.close] + (PrintMembers(a) + x), [m.close] + (PrintMembers(w) + y);
    SameHead(m.open, PrintMembers(k.body) + xs, m.open, PrintMembers(m.body) + ys);
    SamePrint(m.body, inner, false, xs, ys);
    SameHead(m.close, PrintMembers(a) + x, m.close, PrintMembers(w) + y);
    SamePrint(rest, AfterMember(mode, m), own, x, y);
  }

  lemma PrintNestedHead(m: Member, ms: seq<Member>, x: seq<string>)
    requires m.Nested?
    ensures PrintMembers([m] + ms) + x == [m.open] + (PrintMembers(m.body) + ([m.close] + (PrintMembers(ms) + x)))
  {
    PrintHead(m, ms, x);
  }

  lemma PrintInterface(item: Item, file: seq<Item>)
    requires item.Interface?
    ensures Print([item] + file) == [item.header] + (PrintMembers(item.members) + ([item.close] + Print(file)))
  {
    assert ([item] + file)[1..] == file;
  }

  lemma {:induction false} SamePrintFile(file: seq<Item>)
    requires WellFormedFile(file) && Print(ActualFile(file)) == Print(IntendedFile(file))
    ensures ActualFile(file) == IntendedFile(file)
  {
    if file != [] {
      var rest := file[1..];
      assert ActualFile(file)[1..] == ActualFile(rest) && IntendedFile(file)[1..] == IntendedFile(rest);
      assert WellFormedItem(file[0]);
      match file[0]
      case Other(text) =>
        SameHead(text, Print(ActualFile(rest)), text, Print(IntendedFile(rest)));
        SamePrintFile(rest);
      case Interface(header, members, close) =>
        ClosingLine(close);
        BracesAreNoSignature(close);
        var x, y := [close] + Print(ActualFile(rest)), [close] + Print(IntendedFile(rest));
        var a, w := PrintMembers(Actual(members, Own)), PrintMembers(WithoutOwnSignatures(members));
        PrintInterface(ActualItem(file[0]), ActualFile(rest));
        PrintInterface(Intended(file[0]), IntendedFile(rest));
        SameHead(header, a + x, header, w + y);
        SamePrint(members, Own, true, x, y);
        SameHead(close, Print(ActualFile(rest)), close, Print(IntendedFile(rest)));
        SamePrintFile(rest);
    }
  }

  // ---------------------------------------------------------------- how many lines are at stake

  /** The signatures of nested objects that the machine removes, and those of interfaces that it keeps. */
  function RemovedInNested(ms: seq<Member>, mode: Mode): nat
    decreases ms, 0
  {
    if ms == [] then 0
    else
      (match ms[0]
       case Line(_) => 0
       case Signature(_) => if mode.Own? then 1 else 0
       case Nested(_, body, _) => RemovedInNested(body, if mode.Lost? then Lost else Inner))
      + RemovedInNested(ms[1..], AfterMember(mode, ms[0]))
  }

  function RemovedNested(ms: seq<Member>, mode: Mode): nat {
    if ms == [] then 0
    else
      (if ms[0].Nested? then RemovedInNested(ms[0].body, if mode.Lost? then Lost else Inner) else 0)
      + RemovedNested(ms[1..], AfterMember(mode, ms[0]))
  }

  function KeptOwn(ms: seq<Member>, mode: Mode): nat {
    if ms == [] then 0
    else (if ms[0].Signature? && mode.Lost? then 1 else 0) + KeptOwn(ms[1..], AfterMember(mode, ms[0]))
  }

  function RemovedTooMany(file: seq<Item>): nat {
    if file == [] then 0
    else (if file[0].Interface? then RemovedNested(file[0].members, Own) else 0) + RemovedTooMany(file[1..])
  }

  function KeptTooMany(file: seq<Item>): nat {
    if file == [] then 0
    else (if file[0].Interface? then KeptOwn(file[0].members, Own) else 0) + KeptTooMany(file[1..])
  }

  lemma {:induction false} NestedLength(ms: seq<Member>, mode: Mode)
    ensures |PrintMembers(Actual(ms, mode))| + RemovedInNested(ms, mode) == |PrintMembers(ms)|
    decreases ms
  {
    if ms != [] {
      var m, rest := ms[0], ms[1..];
      NestedLength(rest, AfterMember(mode, m));
      PrintConcat(Kept(m, mode), Actual(rest, AfterMember(mode, m)));
      if m.Nested? {
        var inner := if mode.Lost? then Lost else Inner;
        NestedLength(m.body, inner);
        PrintOne(Nested(m.open, Actual(m.body, inner), m.close));
      } else {
        PrintOne(m);
      }
    }
  }

  lemma {:induction false} OwnLength(ms: seq<Member>, mode: Mode)
    requires !mode.Inner?
    ensures |PrintMembers(Actual(ms, mode))| + RemovedNested(ms, mode)
         == |PrintMembers(WithoutOwnSignatures(ms))| + KeptOwn(ms, mode)
    decreases ms
  {
    if ms != [] {
      var m, rest := ms[0], ms[1..];
      OwnLength(rest, AfterMember(mode, m));
      PrintConcat(Kept(m, mode), Actual(rest, AfterMember(mode, m)));
      PrintConcat(if m.Signature? then [] else [m], WithoutOwnSignatures(rest));
      PrintOne(m);
      if m.Nested? {
        var inner := if mode.Lost? then Lost else Inner;
        NestedLength(m.body, inner);
        PrintOne(Nested(m.open, Actual(m.body, inner), m.close));
      }
    }
  }

  lemma {:induction false} FileLength(file: seq<Item>)
    ensures |Print(ActualFile(file))| + RemovedTooMany(file) == |Print(IntendedFile(file))| + KeptTooMany(file)
  {
    if file != [] {
      FileLength(file[1..]);
      assert ActualFile(file)[1..] == ActualFile(file[1..]) && IntendedFile(file)[1..] == IntendedFile(file[1..]);
      if file[0].Interface? {
        OwnLength(file[0].members, Own);
      }
    }
  }

  // ---------------------------------------------------------------- main results

  ghost predicate FileDeviates(file: seq<Item>) {
    exists i | 0 <= i < |file| :: file[i].Interface? && Deviates(file[i].members, false)
  }

  lemma {:induction false} FileFilteredExactlyWhen(file: seq<Item>)
    ensures ActualFile(file) == IntendedFile(file) <==> !FileDeviates(file)
  {
    if file != [] {
      var rest := file[1..];
      FileFilteredExactlyWhen(rest);
      SameHead(ActualItem(file[0]), ActualFile(rest), Intended(file[0]), IntendedFile(rest));
      if file[0].Interface? {
        OwnFilteredExactlyWhen(file[0].members, Own);
      }
      assert FileDeviates(file) <==> (file[0].Interface? && Deviates(file[0].members, false)) || FileDeviates(rest) by {
        if FileDeviates(rest) {
          var i :| 0 <= i < |rest| && rest[i].Interface? && Deviates(rest[i].members, false);
          assert file[i + 1] == rest[i];
        }
        if i :| 0 <= i < |file| && file[i].Interface? && Deviates(file[i].members, false) {
          assert i > 0 ==> rest[i - 1] == file[i];
        }
      }
    }
  }

  /** The pass does what it documents if and only if in no interface a nested signature comes after an object nested
      beside it, or one of the interface's own after an object closed by a bare brace. */
  lemma TextFilterExactlyWhen(file: seq<Item>)
    requires WellFormedFile(file)
    ensures Run(START, Print(file)) == Print(IntendedFile(file)) <==> !FileDeviates(file)
    ensures |Run(START, Print(file))| + RemovedTooMany(file) == |Print(IntendedFile(file))| + KeptTooMany(file)
  {
    MachineIsTreeFilter(START, file);
    FileLength(file);
    FileFilteredExactlyWhen(file);
    if Run(START, Print(file)) == Print(IntendedFile(file)) {
      SamePrintFile(file);
    }
  }

  /** Objects nested at most one level deep, and closed by more than a brace, are always handled as documented. */
  lemma OneLevelDeepIsExact(ms: seq<Member>)
    requires forall i | 0 <= i < |ms| && ms[i].Nested? ::
               Strip(ms[i].close) != "}" && forall j | 0 <= j < |ms[i].body| :: !ms[i].body[j].Nested?
    ensures !Deviates(ms, false)
  {
    forall i | 0 <= i < |ms| ensures !HasBare(ms[i]) && !(ms[i].Nested? && Strays(ms[i].body, false)) {
      if ms[i].Nested? {
        FlatHasNoBare(ms[i].body);
        assert forall j | 0 <= j < |ms[i].body| :: !StraysAt(ms[i].body, false, j);
      }
    }
    assert forall j | 0 <= j < |ms| :: !DeviatesAt(ms, false, j);
  }

  lemma {:induction false} FlatHasNoBare(ms: seq<Member>)
    requires forall j | 0 <= j < |ms| :: !ms[j].Nested?
    ensures !AnyBare(ms)
  {
    if ms != [] {
      FlatHasNoBare(ms[1..]);
    }
  }

  // ---------------------------------------------------------------- files the pass gets wrong

  const INNER := Nested("y: {", [], "};")
  const BODY := [INNER, Signature(SIGNATURE)]
  const OUTER := Nested("x: {", BODY, "};")
  const DEEP := [Interface("export interface A {", [OUTER], "}")]

  lemma StripOfTrimmed(s: string)
    requires s != "" && !IsSpace(s[0]) && !IsSpace(s[|s| - 1])
    ensures Strip(s) == s
  {
  }

  lemma NotAHeader(s: string)
    requires Strip(s) == s && s != "" && s[0] != 'e'
    ensures !IsHeader(s)
  {
  }

  lemma HeaderOfA()
    ensures IsHeader("export interface A {")
  {
    var t := "export interface A {";
    StripOfTrimmed(t);
    assert t[..17] == EXPORT;
    assert WordEnd(t, 18) == 18 && WordEnd(t, 17) == 18;
    assert t[18..] == " {";
  }

  lemma InnerIsWellFormed()
    ensures WellFormed(INNER)
  {
    StripOfTrimmed("y: {");
    StripOfTrimmed("};");
    NotAHeader("y: {");
    NotAHeader("};");
  }

  lemma BodyIsWellFormed()
    ensures AllWellFormed(BODY)
  {
    InnerIsWellFormed();
    StripOfTrimmed(SIGNATURE);
    assert WellFormed(BODY[1]) && AllWellFormed(BODY[1..]);
  }

  lemma OuterIsWellFormed()
    ensures WellFormed(OUTER)
  {
    BodyIsWellFormed();
    StripOfTrimmed("x: {");
    StripOfTrimmed("};");
    NotAHeader("x: {");
    NotAHeader("};");
  }

  lemma DeepIsWellFormed()
    ensures WellFormedFile(DEEP)
  {
    OuterIsWellFormed();
    HeaderOfA();
    StripOfTrimmed("}");
    assert AllWellFormed([OUTER][1..]);
    assert WellFormedItem(DEEP[0]);
  }

  /** An object nested in a nested object: the signature after it belongs to the outer object, and is removed. */
  lemma DeepObjectLosesItsSignature()
    ensures WellFormedFile(DEEP) && Run(START, Print(DEEP)) != Print(IntendedFile(DEEP))
  {
    DeepIsWellFormed();
    TrimmedIsNotBare("};");
    assert !HasBare(BODY[0]) && BODY[0].Nested? && BODY[1].Signature?;
    assert StraysAt(OUTER.body, false, 1);
    assert DeviatesAt(DEEP[0].members, false, 0);
    TextFilterExactlyWhen(DEEP);
  }

  const BLOCK := Nested("x: {", [], "}")
  const BARE := [Interface("export interface A {", [BLOCK, Signature(SIGNATURE)], "}")]

  /** A nested object closed by a bare brace: the interface's own signature after it stays. */
  lemma BareBraceHidesTheInterface()
    ensures WellFormedFile(BARE) && Run(START, Print(BARE)) != Print(IntendedFile(BARE))
  {
    hide WellFormedItem, Run, Print, IntendedFile;
    BareIsWellFormed();
    StripOfTrimmed("}");
    var ms := BARE[0].members;
    assert HasBare(ms[0]) && ms[1].Signature?;
    assert DeviatesAt(ms, false, 1);
    TextFilterExactlyWhen(BARE);
  }

  lemma BlockIsWellFormed()
    ensures WellFormed(BLOCK)
  {
    StripOfTrimmed("}");
    StripOfTrimmed("x: {");
    NotAHeader("x: {");
    NotAHeader("}");
  }

  lemma BareIsWellFormed()
    ensures WellFormedFile(BARE)
  {
    BlockIsWellFormed();
    HeaderOfA();
    StripOfTrimmed("}");
    StripOfTrimmed(SIGNATURE);
    hide Strip, IsHeader;
    var ms := BARE[0].members;
    assert WellFormed(ms[1]) && AllWellFormed(ms[1..]);
    assert WellFormedItem(BARE[0]);
  }

  lemma TrimmedIsNotBare(s: string)
    requires |s| > 1 && !IsSpace(s[0]) && !IsSpace(s[|s| - 1])
    ensures Strip(s) != "}"
  {
    StripOfTrimmed(s);
  }
}
