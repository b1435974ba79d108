/** The few Python string operations the modelled code relies on:
    substring search, `str.split` with an explicit separator, and `str.strip`. */
module PyStrings {

  /** `sub` occurs in `s` at index `i`. */
  predicate At(s: string, sub: string, i: int) {
    0 <= i && i + |sub| <= |s| && s[i..i + |sub|] == sub
  }

  /** Python's `sub in s`. */
  predicate Contains(s: string, sub: string) {
    exists i | 0 <= i <= |s| :: At(s, sub, i)
  }

  /** The first index, from `i` on, at which `sub` occurs; -1 when there is none. */
  function FindFrom(s: string, sub: string, i: nat): (r: int)
    requires i <= |s|
    ensures r == -1 <==> forall j :: i <= j <= |s| ==> !At(s, sub, j)
    ensures r != -1 ==> i <= r && At(s, sub, r) && forall j :: i <= j < r ==> !At(s, sub, j)
    decreases |s| - i
  {
    if At(s, sub, i) then i
    else if i == |s| then -1
    else FindFrom(s, sub, i + 1)
  }

  /** Python's `s.split(sep)`: leftmost, non-overlapping separators. */
  function Split(s: string, sep: string): (pieces: seq<string>)
    requires |sep| > 0
    ensures |pieces| > 0
    decreases |s|
  {
    var i := FindFrom(s, sep, 0);
    if i == -1 then [s] else [s[..i]] + Split(s[i + |sep|..], sep)
  }

  /** Python's `s.split(sep)[-1]`: what follows the separators, found one after the other. */
  function LastPiece(s: string, sep: string): string
    requires |sep| > 0
    decreases |s|
  {
    var i := FindFrom(s, sep, 0);
    if i == -1 then s else LastPiece(s[i + |sep|..], sep)
  }

  lemma Found(s: string, sep: string)
    ensures FindFrom(s, sep, 0) == -1 || 0 <= FindFrom(s, sep, 0) <= |s| - |sep|
    ensures FindFrom(s, sep, 0) == -1 <==> !Contains(s, sep)
  {
  }

  lemma {:induction false} LastPieceOfSplit(s: string, sep: string)
    requires |sep| > 0
    ensures Split(s, sep)[|Split(s, sep)| - 1] == LastPiece(s, sep)
    decreases |s|
  {
    Found(s, sep);
    hide FindFrom;
    var i := FindFrom(s, sep, 0);
    if i != -1 {
      LastPieceOfSplit(s[i + |sep|..], sep);
      LastOfCons(s[..i], Split(s[i + |sep|..], sep));
    }
  }

  lemma LastOfCons(first: string, rest: seq<string>)
    requires rest != []
    ensures ([first] + rest)[|[first] + rest| - 1] == rest[|rest| - 1]
  {
  }

  /** Python's `s.count(sub)` for a non-empty `sub`. */
  function Count(s: string, sub: string): nat
    requires |sub| > 0
  {
    |Split(s, sub)| - 1
  }

  /** The last piece of a split is what follows the separators, and never contains the separator. */
  lemma LastPieceIsFree(s: string, sep: string)
    requires |sep| > 0
    ensures Split(s, sep)[|Split(s, sep)| - 1] == LastPiece(s, sep) && !Contains(LastPiece(s, sep), sep)
  {
    hide Split, LastPiece, Contains;
    LastPieceOfSplit(s, sep);
    NothingFollows(s, sep);
  }

  lemma {:induction false} NothingFollows(s: string, sep: string)
    requires |sep| > 0
    ensures !Contains(LastPiece(s, sep), sep)
    decreases |s|
  {
    Found(s, sep);
    hide FindFrom, Contains;
    var i := FindFrom(s, sep, 0);
    if i != -1 {
      NothingFollows(s[i + |sep|..], sep);
    }
  }

  lemma LastPieceOfFree(s: string, sep: string)
    requires |sep| > 0 && !Contains(s, sep)
    ensures LastPiece(s, sep) == s
  {
  }

  lemma {:induction false} LastPieceIsSuffix(s: string, sep: string) returns (n: nat)
    requires |sep| > 0
    ensures n <= |s| && LastPiece(s, sep) == s[n..]
    decreases |s|
  {
    Found(s, sep);
    hide FindFrom, Contains;
    n := 0;
    var i := FindFrom(s, sep, 0);
    if i != -1 {
      var rest := s[i + |sep|..];
      n := LastPieceIsSuffix(rest, sep);
      n := i + |sep| + n;
    }
  }

  /** The last piece introduces no new characters. */
  lemma LastPieceChars(s: string, sep: string, c: char)
    requires |sep| > 0 && c in LastPiece(s, sep)
    ensures c in s
  {
    hide LastPiece;
    var n := LastPieceIsSuffix(s, sep);
  }

  lemma FreeOfChar(s: string, c: char)
    ensures Contains(s, [c]) <==> c in s
  {
    if c in s {
      var i :| 0 <= i < |s| && s[i] == c;
      assert At(s, [c], i);
    }
    if Contains(s, [c]) {
      var i :| 0 <= i <= |s| && At(s, [c], i);
      assert s[i] == [c][0];
    }
  }

  /** Splitting on one character gives back whatever follows its last occurrence. */
  lemma {:induction false} LastPieceAfter(a: string, c: char, b: string)
    requires c !in b
    ensures LastPiece(a + [c] + b, [c]) == b
    decreases |a|
  {
    var s := a + [c] + b;
    var i := FindFrom(s, [c], 0);
    assert At(s, [c], |a|);
    if i == |a| {
      assert s[i + 1..] == b;
      FreeOfChar(b, c);
      LastPieceOfFree(b, [c]);
    } else {
      assert i < |a|;
      assert s[i + 1..] == a[i + 1..] + [c] + b;
      LastPieceAfter(a[i + 1..], c, b);
    }
  }

  // ---------------------------------------------------------------- characters

  /** `s.count(c)` for a single character. */
  function CountOf(s: string, c: char): (n: nat)
    ensures n > 0 <==> c in s
  {
    if s == "" then 0 else (if s[0] == c then 1 else 0) + CountOf(s[1..], c)
  }

  /** What `str.strip` removes, in ASCII. */
  predicate IsSpace(c: char) {
    c == ' ' || '\t' <= c <= '\r' || '\U{1C}' <= c <= '\U{1F}'
  }

  /** `[A-Za-z0-9_]`, the ASCII part of the regular expression class `\w`. */
  predicate IsWord(c: char) {
    'a' <= c <= 'z' || 'A' <= c <= 'Z' || '0' <= c <= '9' || c == '_'
  }

  predicate AllSpace(s: string) {
    forall i | 0 <= i < |s| :: IsSpace(s[i])
  }

  /** Python's `s.strip()` */
  function Strip(s: string): string {
    if s != "" && IsSpace(s[0]) then Strip(s[1..])
    else if s != "" && IsSpace(s[|s| - 1]) then Strip(s[..|s| - 1])
    else s
  }

  /** Stripping removes blanks at both ends and nothing else. */
  lemma {:induction false} StripParts(s: string) returns (pre: string, post: string)
    ensures s == pre + Strip(s) + post && AllSpace(pre) && AllSpace(post)
  {
    if s != "" && IsSpace(s[0]) {
      var p;
      p, post := StripParts(s[1..]);
      pre := [s[0]] + p;
      OneMoreInFront(s, p, Strip(s[1..]), post);
    } else if s != "" && IsSpace(s[|s| - 1]) {
      var q;
      pre, q := StripParts(s[..|s| - 1]);
      post := q + [s[|s| - 1]];
      OneMoreAtEnd(s, pre, Strip(s[..|s| - 1]), q);
    } else {
      pre, post := "", "";
      assert s == "" + s + "";
    }
  }

  lemma OneMoreInFront(s: string, p: string, mid: string, post: string)
    requires s != "" && s[1..] == p + mid + post
    ensures s == [s[0]] + p + mid + post
  {
    assert s == [s[0]] + s[1..];
  }

  lemma OneMoreAtEnd(s: string, pre: string, mid: string, q: string)
    requires s != "" && s[..|s| - 1] == pre + mid + q
    ensures s == pre + mid + (q + [s[|s| - 1]])
  {
    assert s == s[..|s| - 1] + [s[|s| - 1]];
  }

  lemma {:induction false} CountOfConcat(a: string, b: string, c: char)
    ensures CountOf(a + b, c) == CountOf(a, c) + CountOf(b, c)
  {
    if a == "" {
      assert a + b == b;
    } else {
      assert (a + b)[1..] == a[1..] + b;
      CountOfConcat(a[1..], b, c);
    }
  }

  /** Blanks do not count: a character that is no blank occurs as often in the stripped string. */
  lemma CountOfStrip(s: string, c: char)
    requires !IsSpace(c)
    ensures CountOf(s, c) == CountOf(Strip(s), c)
  {
    var pre, post := StripParts(s);
    CountOfConcat(pre + Strip(s), post, c);
    CountOfConcat(pre, Strip(s), c);
  }

  lemma AtStart(s: string, sub: string, i: int)
    requires |sub| > 0 && At(s, sub, i)
    ensures s[i] == sub[0]
  {
    assert s[i..i + |sub|][0] == sub[0];
  }

  lemma NotInBlanks(s: string, sub: string)
    requires AllSpace(s) && |sub| > 0 && !IsSpace(sub[0])
    ensures forall j :: !At(s, sub, j)
  {
    forall j ensures !At(s, sub, j) {
      if At(s, sub, j) {
        AtStart(s, sub, j);
      }
    }
  }

  /** A text that starts with a non-blank occurs once in any line that strips to it. */
  lemma CountInStripped(line: string, sub: string)
    requires |sub| > 0 && Strip(line) == sub && !IsSpace(sub[0])
    ensures Count(line, sub) == 1
  {
    var pre, post := StripParts(line);
    var i := FindFrom(line, sub, 0);
    assert At(line, sub, |pre|);
    AtStart(line, sub, i);
    assert i == |pre|;
    assert line[|pre| + |sub|..] == post;
    NotInBlanks(post, sub);
    assert Split(post, sub) == [post];
  }

  // ---------------------------------------------------------------- blanks and words, by their codes

  lemma SpacesAndWords(c: char)
    ensures IsSpace(c) <==> var n := c as int; 9 <= n <= 13 || 28 <= n <= 32
    ensures IsWord(c) <==> var n := c as int; 48 <= n <= 57 || 65 <= n <= 90 || n == 95 || 97 <= n <= 122
  {
  }

  predicate IsStripped(s: string) {
    s == "" || (!IsSpace(s[0]) && !IsSpace(s[|s| - 1]))
  }

  lemma {:induction false} StripStrips(s: string)
    ensures IsStripped(Strip(s))
  {
    if s != "" && IsSpace(s[0]) {
      StripStrips(s[1..]);
    } else if s != "" && IsSpace(s[|s| - 1]) {
      StripStrips(s[..|s| - 1]);
    }
  }

  /** A text with blanks before it: stripping keeps what starts and ends with non-blanks, and cuts only behind it. */
  lemma {:induction false} StripKeeps(a: string, x: string, b: string) returns (r: string)
    requires AllSpace(a) && x != "" && IsStripped(x)
    ensures r <= b && AllSpace(b[|r|..]) && Strip(a + x + b) == x + r
    decreases |a| + |b|
  {
    var s := a + x + b;
    if a != "" {
      assert s[1..] == a[1..] + x + b;
      r := StripKeeps(a[1..], x, b);
    } else if b != "" && IsSpace(b[|b| - 1]) {
      assert s[..|s| - 1] == a + x + b[..|b| - 1];
      r := StripKeeps(a, x, b[..|b| - 1]);
      assert b[|r|..] == b[..|b| - 1][|r|..] + [b[|b| - 1]];
    } else {
      r := b;
      assert s == x + b;
    }
  }

  /** Stripping a line gives this text, which is not empty, if and only if the line is the text between blanks. */
  lemma StripExactlyWhen(s: string, x: string)
    requires x != "" && IsStripped(x)
    ensures Strip(s) == x <==> exists a, b :: AllSpace(a) && AllSpace(b) && s == a + x + b
  {
    if Strip(s) == x {
      var a, b := StripParts(s);
    }
    if a, b :| AllSpace(a) && AllSpace(b) && s == a + x + b {
      var r := StripKeeps(a, x, b);
      StripStrips(s);
      LastOfConcat(x, r);
      LastOfPrefix(r, b);
    }
  }

  lemma LastOfConcat(x: string, r: string)
    ensures r != "" ==> (x + r)[|x + r| - 1] == r[|r| - 1]
  {
  }

  lemma LastOfPrefix(r: string, b: string)
    requires r <= b && AllSpace(b)
    ensures r != "" ==> IsSpace(r[|r| - 1])
  {
  }
}
