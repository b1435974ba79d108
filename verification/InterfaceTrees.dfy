/** The syntax the line machine works on: interfaces with nested object types of any depth. The machine is
    compared with the filter it is meant to be, on every well-formed file. */
module InterfaceTrees {
  import opened PyStrings
  import opened IndexSignatures

  datatype Member =
    | Line(text: string)
    | Signature(text: string)
    | Nested(open: string, body: seq<Member>, close: string)

  datatype Item =
    | Interface(header: string, members: seq<Member>, close: string)
    | Other(text: string)

  // ---------------------------------------------------------------- printing

  function PrintMember(m: Member): seq<string>
    decreases m, 1
  {
    match m
    case Line(text) => [text]
    case Signature(text) => [text]
    case Nested(open, body, close) => [open] + PrintMembers(body) + [close]
  }

  function PrintMembers(ms: seq<Member>): seq<string>
    decreases ms, 0
  {
    if ms == [] then [] else PrintMember(ms[0]) + PrintMembers(ms[1..])
  }

  function PrintItem(item: Item): seq<string> {
    match item
    case Interface(header, members, close) => [header] + PrintMembers(members) + [close]
    case Other(text) => [text]
  }

  function Print(file: seq<Item>): seq<string> {
    if file == [] then [] else PrintItem(file[0]) + Print(file[1..])
  }

  // ---------------------------------------------------------------- well-formed files

  /** Signatures are index signatures; a nested object opens with one brace and closes with one; the braces of every
      other line balance. */
  predicate WellFormed(m: Member)
    decreases m, 1
  {
    match m
    case Line(text) =>
      !IsHeader(text) && !IsSignature(text) && CountOf(text, '{') == CountOf(text, '}')
    case Signature(text) => IsSignature(text)
    case Nested(open, body, close) =>
      && !IsHeader(open) && CountOf(open, '{') == 1 && '}' !in open
      && AllWellFormed(body)
      && !IsHeader(close) && CountOf(close, '}') == 1 && '{' !in close
  }

  predicate AllWellFormed(ms: seq<Member>)
    decreases ms, 0
  {
    ms == [] || (WellFormed(ms[0]) && AllWellFormed(ms[1..]))
  }

  predicate WellFormedItem(item: Item) {
    match item
    case Interface(header, members, close) => IsHeader(header) && AllWellFormed(members) && Strip(close) == "}"
    case Other(text) => !IsHeader(text)
  }

  predicate WellFormedFile(file: seq<Item>) {
    forall i | 0 <= i < |file| :: WellFormedItem(file[i])
  }

  // ---------------------------------------------------------------- the intended filter, and the actual one

  /** What is documented: the signatures of the interface go, those of nested objects stay. */
  function WithoutOwnSignatures(ms: seq<Member>): seq<Member> {
    if ms == [] then []
    else (if ms[0].Signature? then [] else [ms[0]]) + WithoutOwnSignatures(ms[1..])
  }

  function Intended(item: Item): Item {
    match item
    case Interface(header, members, close) => Interface(header, WithoutOwnSignatures(members), close)
    case Other(_) => item
  }

  function IntendedFile(file: seq<Item>): seq<Item> {
    if file == [] then [] else [Intended(file[0])] + IntendedFile(file[1..])
  }

  /** Some member is a nested object. */
  predicate HasNested(ms: seq<Member>) {
    ms != [] && (ms[0].Nested? || HasNested(ms[1..]))
  }

  /** A nested object that is closed by a bare brace, or holds one that is: the machine takes that line for the end
      of the interface. */
  predicate HasBare(m: Member)
    decreases m, 1
  {
    m.Nested? && (Strip(m.close) == "}" || AnyBare(m.body))
  }

  predicate AnyBare(ms: seq<Member>)
    decreases ms, 0
  {
    ms != [] && (HasBare(ms[0]) || AnyBare(ms[1..]))
  }

  /** Where the machine believes it is: among the interface's own members, in a nested object, or in no interface. */
  datatype Mode = Own | Inner | Lost

  function AfterMember(mode: Mode, m: Member): Mode {
    if mode.Lost? || HasBare(m) then Lost else if m.Nested? then Own else mode
  }

  /** What the machine does: it believes to be in a nested object only from its opening to the first closing after
      it, and in no interface after a bare brace. */
  function Actual(ms: seq<Member>, mode: Mode): seq<Member>
    decreases ms, 0
  {
    if ms == [] then [] else Kept(ms[0], mode) + Actual(ms[1..], AfterMember(mode, ms[0]))
  }

  function Kept(m: Member, mode: Mode): seq<Member>
    decreases m, 1
  {
    match m
    case Line(_) => [m]
    case Signature(_) => if mode.Own? then [] else [m]
    case Nested(open, body, close) => [Nested(open, Actual(body, if mode.Lost? then Lost else Inner), close)]
  }

  function ActualItem(item: Item): Item {
    match item
    case Interface(header, members, close) => Interface(header, Actual(members, Own), close)
    case Other(_) => item
  }

  function ActualFile(file: seq<Item>): seq<Item> {
    if file == [] then [] else [ActualItem(file[0])] + ActualFile(file[1..])
  }

  // ---------------------------------------------------------------- the machine computes the actual filter

  predicate InMode(st: Scan, mode: Mode) {
    match mode
    case Own => st.inInterface && !st.inNested
    case Inner => st == Scan(true, true, 1)
    case Lost => !st.inInterface && !st.inNested
  }

  /** The mode after the members of an object. */
  function Leaving(mode: Mode, ms: seq<Member>): Mode {
    if mode.Lost? || AnyBare(ms) then Lost else if HasNested(ms) then Own else mode
  }

  lemma StepLine(st: Scan, mode: Mode, text: string)
    requires InMode(st, mode) && WellFormed(Line(text))
    ensures Step(st, text) == (st, true)
  {
    CountOfStrip(text, '{');
    CountOfStrip(text, '}');
    assert CountOf("}", '}') == 1 && CountOf("}", '{') == 0;
  }

  lemma StepSignature(st: Scan, mode: Mode, text: string)
    requires InMode(st, mode) && IsSignature(text)
    ensures Step(st, text) == (st, !mode.Own?)
  {
    SignatureHasNoBraces(text);
  }

  lemma StepOpen(st: Scan, mode: Mode, open: string)
    requires InMode(st, mode) && !IsHeader(open) && CountOf(open, '{') == 1 && '}' !in open
    ensures Step(st, open).1 && InMode(Step(st, open).0, if mode.Lost? then Lost else Inner)
  {
    BracesAreNoSignature(open);
  }

  lemma StepClose(st: Scan, mode: Mode, close: string)
    requires InMode(st, mode) && !IsHeader(close) && CountOf(close, '}') == 1 && '{' !in close
    ensures Step(st, close).1
    ensures InMode(Step(st, close).0, if mode.Lost? || Strip(close) == "}" then Lost else Own)
  {
    BracesAreNoSignature(close);
    assert CountOf(close, '{') == 0;
    assert Track(Scan(true, true, 1), close) == Scan(true, false, 0);
  }

  lemma BracesAreNoSignature(line: string)
    requires '}' in line || '{' in line
    ensures !IsSignature(line)
  {
    if IsSignature(line) {
      SignatureHasNoBraces(line);
    }
  }

  lemma RunOne(st: Scan, line: string, rest: seq<string>)
    ensures Run(st, [line] + rest) == (if Step(st, line).1 then [line] else []) + Run(Step(st, line).0, rest)
    ensures After(st, [line] + rest) == After(Step(st, line).0, rest)
  {
    assert ([line] + rest)[1..] == rest;
  }

  lemma {:induction false} PrintConcat(a: seq<Member>, b: seq<Member>)
    ensures PrintMembers(a + b) == PrintMembers(a) + PrintMembers(b)
    decreases a
  {
    if a == [] {
      assert a + b == b;
    } else {
      assert (a + b)[0] == a[0] && (a + b)[1..] == a[1..] + b;
      PrintConcat(a[1..], b);
    }
  }

  lemma PrintOne(m: Member)
    ensures PrintMembers([m]) == PrintMember(m)
  {
    assert [m][1..] == [];
  }

  lemma {:induction false} RunMembers(st: Scan, mode: Mode, ms: seq<Member>)
    requires InMode(st, mode) && AllWellFormed(ms)
    ensures Run(st, PrintMembers(ms)) == PrintMembers(Actual(ms, mode))
    ensures InMode(After(st, PrintMembers(ms)), Leaving(mode, ms))
    decreases ms, 0
  {
    if ms != [] {
      var m, rest := ms[0], ms[1..];
      RunOfConcat(st, PrintMember(m), PrintMembers(rest));
      RunMember(st, mode, m);
      RunMembers(After(st, PrintMember(m)), AfterMember(mode, m), rest);
      PrintConcat(Kept(m, mode), Actual(rest, AfterMember(mode, m)));
    }
  }

  lemma {:induction false} RunMember(st: Scan, mode: Mode, m: Member)
    requires InMode(st, mode) && WellFormed(m)
    ensures Run(st, PrintMember(m)) == PrintMembers(Kept(m, mode))
    ensures InMode(After(st, PrintMember(m)), AfterMember(mode, m))
    decreases m, 1
  {
    hide Step, IsHeader, IsSignature;
    match m
    case Line(text) =>
      StepLine(st, mode, text);
      RunOne(st, text, []);
      PrintOne(m);
    case Signature(text) =>
      StepSignature(st, mode, text);
      RunOne(st, text, []);
      PrintOne(m);
    case Nested(open, body, close) => RunNested(st, mode, m);
  }

  lemma {:induction false} RunNested(st: Scan, mode: Mode, m: Member)
    requires InMode(st, mode) && WellFormed(m) && m.Nested?
    ensures Run(st, PrintMember(m)) == PrintMembers(Kept(m, mode))
    ensures InMode(After(st, PrintMember(m)), AfterMember(mode, m))
    decreases m, 0
  {
    hide Step, IsHeader, IsSignature, InMode, Actual;
    var inner := if mode.Lost? then Lost else Inner;
    var lines := PrintMembers(m.body);
    assert PrintMember(m) == [m.open] + (lines + [m.close]);
    StepOpen(st, mode, m.open);
    RunOne(st, m.open, lines + [m.close]);
    var inside := Step(st, m.open).0;
    RunMembers(inside, inner, m.body);
    RunOfConcat(inside, lines, [m.close]);
    StepClose(After(inside, lines), Leaving(inner, m.body), m.close);
    RunOne(After(inside, lines), m.close, []);
    PrintOne(Nested(m.open, Actual(m.body, inner), m.close));
  }

  lemma RunItem(st: Scan, item: Item)
    requires InMode(st, Lost) && WellFormedItem(item)
    ensures Run(st, PrintItem(item)) == PrintItem(ActualItem(item))
    ensures InMode(After(st, PrintItem(item)), Lost)
  {
    match item
    case Other(text) =>
      RunOne(st, text, []);
    case Interface(header, members, close) =>
      var inside := st.(inInterface := true);
      var body := PrintMembers(members);
      assert PrintItem(item) == [header] + (body + [close]);
      RunOne(st, header, body + [close]);
      RunMembers(inside, Own, members);
      RunOfConcat(inside, body, [close]);
      ClosingLine(close);
      RunOne(After(inside, body), close, []);
  }

  lemma ClosingLine(close: string)
    requires Strip(close) == "}"
    ensures !IsHeader(close) && '}' in close && '{' !in close
  {
    CountOfStrip(close, '}');
    CountOfStrip(close, '{');
  }

  /** On every well-formed file the machine prints the actual filter of the syntax tree. */
  lemma {:induction false} MachineIsTreeFilter(st: Scan, file: seq<Item>)
    requires !st.inInterface && !st.inNested && WellFormedFile(file)
    ensures Run(st, Print(file)) == Print(ActualFile(file))
    decreases file
  {
    if file != [] {
      RunOfConcat(st, PrintItem(file[0]), Print(file[1..]));
      RunItem(st, file[0]);
      MachineIsTreeFilter(After(st, PrintItem(file[0])), file[1..]);
      assert ActualFile(file)[1..] == ActualFile(file[1..]);
    }
  }
}
