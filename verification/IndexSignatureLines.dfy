/** Which lines the machine takes for the head of an interface, and which for an index signature. */
module IndexSignatureLines {
  import opened PyStrings
  import opened IndexSignatures

  lemma {:induction false} WordEndIs(t: string, i: nat, w: string, rest: string)
    requires i <= |t| && t[i..] == w + rest && (forall k | 0 <= k < |w| :: IsWord(w[k])) && (rest == "" || !IsWord(rest[0]))
    ensures WordEnd(t, i) == i + |w|
    decreases |w|
  {
    if w != "" {
      assert t[i] == (w + rest)[0] == w[0] && t[i + 1..] == t[i..][1..] == w[1..] + rest;
      WordEndIs(t, i + 1, w[1..], rest);
    } else if rest != "" {
      assert t[i] == t[i..][0] == rest[0];
    }
  }

  lemma {:induction false} WordEndWords(t: string, i: nat)
    requires i <= |t|
    ensures forall k | i <= k < WordEnd(t, i) :: IsWord(t[k])
    decreases |t| - i
  {
    if i < |t| && IsWord(t[i]) {
      WordEndWords(t, i + 1);
    }
  }

  predicate IsName(w: string) {
    w != "" && forall k | 0 <= k < |w| :: IsWord(w[k])
  }

  /** The line is, after blanks, the keywords, a name of word characters, a space and a brace, and anything. */
  ghost predicate HasHead(line: string) {
    exists a, w, rest :: AllSpace(a) && IsName(w) && line == a + "export interface " + w + " {" + rest
  }

  lemma HeaderExactlyWhen(line: string)
    ensures IsHeader(line) <==> HasHead(line)
  {
    if IsHeader(line) {
      HeaderHasHead(line);
    }
    if HasHead(line) {
      var a, w, rest :| AllSpace(a) && IsName(w) && line == a + "export interface " + w + " {" + rest;
      HeadIsHeader(line, a, w, rest);
    }
  }

  lemma HeaderHasHead(line: string)
    requires IsHeader(line)
    ensures HasHead(line)
  {
    var t := Strip(line);
    var pre, post := StripParts(line);
    var e := WordEnd(t, |EXPORT|);
    WordEndWords(t, |EXPORT|);
    CutHead(t, e);
    hide IsHeader, Strip, WordEnd, IsWord;
    assert IsName(t[|EXPORT|..e]);
    Regroup(pre, t[|EXPORT|..e], t[e + 2..], post);
  }

  lemma CutHead(t: string, e: nat)
    requires EXPORT <= t && |EXPORT| <= e <= |t| && " {" <= t[e..]
    ensures e + 2 <= |t| && t == EXPORT + t[|EXPORT|..e] + " {" + t[e + 2..]
  {
    assert t[e..] == " {" + t[e + 2..];
    assert t == t[..|EXPORT|] + t[|EXPORT|..e] + t[e..];
  }

  lemma Regroup(pre: string, w: string, rest: string, post: string)
    ensures pre + (EXPORT + w + " {" + rest) + post == pre + "export interface " + w + " {" + (rest + post)
  {
  }

  lemma HeadIsHeader(line: string, a: string, w: string, rest: string)
    requires AllSpace(a) && IsName(w) && line == a + "export interface " + w + " {" + rest
    ensures IsHeader(line)
  {
    var x := EXPORT + w + " {";
    assert x[0] == 'e' && x[|x| - 1] == '{';
    assert line == a + x + rest;
    var r := StripKeeps(a, x, rest);
    var t := Strip(line);
    assert t == x + r && t[|EXPORT|..] == w + (" {" + r) && t[..|EXPORT|] == EXPORT;
    WordEndIs(t, |EXPORT|, w, " {" + r);
    assert t[|EXPORT| + |w|..] == " {" + r;
  }

  /** The line is an index signature if and only if it is one between blanks. */
  lemma SignatureExactlyWhen(line: string)
    ensures IsSignature(line) <==> exists a, b :: AllSpace(a) && AllSpace(b) && line == a + "[k: string]: unknown;" + b
  {
    StripExactlyWhen(line, "[k: string]: unknown;");
  }
}
