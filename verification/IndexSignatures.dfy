/** `TypingsGenerator.remove_index_signatures`: a flag-and-counter machine over the lines of a TypeScript file. */
module IndexSignatures {
  import opened PyStrings

  const SIGNATURE := "[k: string]: unknown;"
  const EXPORT := "export interface "

  /** The end of the run of word characters of `t` that starts at `i`. */
  function WordEnd(t: string, i: nat): (e: nat)
    requires i <= |t|
    ensures i <= e <= |t|
    decreases |t| - i
  {
    if i < |t| && IsWord(t[i]) then WordEnd(t, i + 1) else i
  }

  /** The stripped line starts with `export interface \w+ \{`. */
  predicate IsHeader(line: string) {
    var t := Strip(line);
    EXPORT <= t &&
    var e := WordEnd(t, |EXPORT|);
    e > |EXPORT| && " {" <= t[e..]
  }

  predicate IsSignature(line: string) {
    Strip(line) == SIGNATURE
  }

  datatype Scan = Scan(inInterface: bool, inNested: bool, depth: int)

  const START := Scan(false, false, 0)

  /** The flags and the counter after a line, and whether the line is kept. */
  function Step(st: Scan, line: string): (Scan, bool) {
    if IsHeader(line) then
      (st.(inInterface := true), true)
    else if st.inInterface && '{' in line && '}' !in line then
      (st.(inNested := true, depth := CountOf(line, '{')), true)
    else
      var next := if st.inNested then Track(st, line) else st;
      if next.inInterface && !next.inNested && '}' in line && Strip(line) == "}" then
        (next.(inInterface := false), true)
      else
        (next, !(next.inInterface && !next.inNested && IsSignature(line)))
  }

  function Track(st: Scan, line: string): Scan {
    var depth := st.depth + CountOf(line, '{') - CountOf(line, '}');
    st.(inNested := depth > 0, depth := depth)
  }

  function After(st: Scan, lines: seq<string>): Scan
    decreases lines
  {
    if lines == [] then st else After(Step(st, lines[0]).0, lines[1..])
  }

  /** The lines kept. */
  function Run(st: Scan, lines: seq<string>): seq<string>
    decreases lines
  {
    if lines == [] then []
    else
      var (next, keep) := Step(st, lines[0]);
      (if keep then [lines[0]] else []) + Run(next, lines[1..])
  }

  /** `content.count(signature)`: no occurrence spans a line break. */
  function Occurrences(lines: seq<string>): nat {
    if lines == [] then 0 else Count(lines[0], SIGNATURE) + Occurrences(lines[1..])
  }

  lemma {:induction false} RunOfConcat(st: Scan, a: seq<string>, b: seq<string>)
    ensures Run(st, a + b) == Run(st, a) + Run(After(st, a), b)
    ensures After(st, a + b) == After(After(st, a), b)
    decreases a
  {
    if a == [] {
      assert a + b == b;
    } else {
      assert (a + b)[0] == a[0] && (a + b)[1..] == a[1..] + b;
      RunOfConcat(Step(st, a[0]).0, a[1..], b);
    }
  }

  /** Each dropped line accounts for exactly one occurrence of the signature in the text. */
  lemma {:induction false} DroppedOccurrences(st: Scan, lines: seq<string>)
    ensures |Run(st, lines)| <= |lines|
    ensures Occurrences(lines) - Occurrences(Run(st, lines)) == |lines| - |Run(st, lines)|
    decreases lines
  {
    if lines != [] {
      var (next, keep) := Step(st, lines[0]);
      DroppedOccurrences(next, lines[1..]);
      var rest := Run(next, lines[1..]);
      if keep {
        assert ([lines[0]] + rest)[1..] == rest;
      } else {
        CountInStripped(lines[0], SIGNATURE);
        assert [] + rest == rest;
      }
    }
  }

  lemma NothingDropped(kept: seq<string>, lines: seq<string>, st: Scan)
    requires kept == Run(st, lines) && |kept| == |lines|
    ensures kept == lines
    decreases lines
  {
    if lines != [] {
      var (next, keep) := Step(st, lines[0]);
      DroppedOccurrences(next, lines[1..]);
      assert keep;
      NothingDropped(kept[1..], lines[1..], next);
    }
  }

  /** The loop body: the flags and the counter updated for one line, and whether it is appended. */
  method Advance(line: string, inInterface0: bool, inNested0: bool, depth0: int)
    returns (inInterface: bool, inNested: bool, depth: int, keep: bool)
    ensures Step(Scan(inInterface0, inNested0, depth0), line) == (Scan(inInterface, inNested, depth), keep)
  {
    inInterface, inNested, depth, keep := inInterface0, inNested0, depth0, true;
    if IsHeader(line) {
      inInterface := true;
      return;
    }
    if inInterface && '{' in line && '}' !in line {
      inNested := true;
      depth := CountOf(line, '{');
      return;
    }
    if inNested {
      depth := depth + CountOf(line, '{');
      depth := depth - CountOf(line, '}');
      if depth <= 0 {
        inNested := false;
      }
    }
    if inInterface && !inNested && '}' in line && Strip(line) == "}" {
      inInterface := false;
      return;
    }
    if inInterface && !inNested && IsSignature(line) {
      keep := false;
    }
  }

  lemma RunStep(st: Scan, lines: seq<string>, i: nat, sofar: seq<string>)
    requires i < |lines|
    ensures var (next, keep) := Step(st, lines[i]);
            sofar + Run(st, lines[i..]) == (if keep then sofar + [lines[i]] else sofar) + Run(next, lines[i + 1..])
  {
    assert lines[i..][0] == lines[i] && lines[i..][1..] == lines[i + 1..];
  }

  method RemoveIndexSignatures(lines: seq<string>) returns (result: seq<string>, removed: int)
    ensures result == Run(START, lines)
    ensures removed == |lines| - |result|
  {
    var initialCount: int := Occurrences(lines);
    DroppedOccurrences(START, lines);
    if initialCount == 0 {
      NothingDropped(Run(START, lines), lines, START);
      return lines, 0;
    }
    var inInterface, inNested, depth := false, false, 0;
    result := [];
    for i := 0 to |lines|
      invariant result + Run(Scan(inInterface, inNested, depth), lines[i..]) == Run(START, lines)
    {
      RunStep(Scan(inInterface, inNested, depth), lines, i, result);
      var keep;
      inInterface, inNested, depth, keep := Advance(lines[i], inInterface, inNested, depth);
      if keep {
        result := result + [lines[i]];
      }
    }
    var remainingCount: int := Occurrences(result);
    removed := initialCount - remainingCount;
  }

  // ---------------------------------------------------------------- stability

  /** `kept` is `lines` with some index-signature lines left out, in order. */
  predicate DropsOnlySignatures(lines: seq<string>, kept: seq<string>)
    decreases lines
  {
    if lines == [] then kept == []
    else
      || (kept != [] && kept[0] == lines[0] && DropsOnlySignatures(lines[1..], kept[1..]))
      || (IsSignature(lines[0]) && DropsOnlySignatures(lines[1..], kept))
  }

  lemma {:induction false} RunDropsOnlySignatures(st: Scan, lines: seq<string>)
    ensures DropsOnlySignatures(lines, Run(st, lines))
    decreases lines
  {
    if lines != [] {
      var (next, keep) := Step(st, lines[0]);
      RunDropsOnlySignatures(next, lines[1..]);
      var rest := Run(next, lines[1..]);
      if keep {
        assert ([lines[0]] + rest)[1..] == rest;
      } else {
        assert [] + rest == rest;
      }
    }
  }

  /** The nested flag is only ever up with a positive counter. */
  predicate Consistent(st: Scan) {
    st.inNested ==> st.depth > 0
  }

  lemma StrippedFacts(line: string, text: string)
    requires Strip(line) == text && '{' !in text && '}' !in text && text != "" && text[0] != EXPORT[0]
    ensures '{' !in line && '}' !in line && !IsHeader(line)
  {
    CountOfStrip(line, '{');
    CountOfStrip(line, '}');
  }

  lemma SignatureHasNoBraces(line: string)
    requires IsSignature(line)
    ensures '{' !in line && '}' !in line && !IsHeader(line)
  {
    StrippedFacts(line, SIGNATURE);
  }

  lemma StepFacts(st: Scan, line: string)
    requires Consistent(st)
    ensures Consistent(Step(st, line).0)
    ensures !Step(st, line).1 ==> Step(st, line).0 == st
  {
    if IsSignature(line) {
      SignatureHasNoBraces(line);
    }
  }

  /** A second pass drops nothing, from any state the machine can be in. */
  lemma {:induction false} SecondPassDropsNothing(st: Scan, lines: seq<string>)
    requires Consistent(st)
    ensures Run(st, Run(st, lines)) == Run(st, lines)
    decreases lines
  {
    if lines != [] {
      var (next, keep) := Step(st, lines[0]);
      StepFacts(st, lines[0]);
      SecondPassDropsNothing(next, lines[1..]);
      var rest := Run(next, lines[1..]);
      if keep {
        assert ([lines[0]] + rest)[0] == lines[0] && ([lines[0]] + rest)[1..] == rest;
      } else {
        assert [] + rest == rest;
      }
    }
  }
}
