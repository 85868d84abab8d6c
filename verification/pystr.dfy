/**
 * The few Python string primitives the trip core relies on:
 * `str.isspace`, the character class `[^0-9.\s]` removed by `re.sub`,
 * `str.split(" ")`, `str.split()`, `str.replace` and the whitespace
 * stripping done by `float()`.
 */
module PyStr {

  /** Python's whitespace test (`str.isspace`, `\s` in a `str` regex). */
  predicate IsSpace(c: char) {
    var n := c as int;
    n == 0x20 || 0x09 <= n <= 0x0D || 0x1C <= n <= 0x1F || n == 0x85 || n == 0xA0 ||
    n == 0x1680 || 0x2000 <= n <= 0x200A || n == 0x2028 || n == 0x2029 ||
    n == 0x202F || n == 0x205F || n == 0x3000
  }

  predicate IsDigit(c: char) {
    '0' <= c <= '9'
  }

  predicate AllDigits(s: string) {
    forall i :: 0 <= i < |s| ==> IsDigit(s[i])
  }

  predicate NoSpace(s: string) {
    forall i :: 0 <= i < |s| ==> !IsSpace(s[i])
  }

  predicate AllSpace(s: string) {
    forall i :: 0 <= i < |s| ==> IsSpace(s[i])
  }

  /** The characters that survive `re.sub(r"[^0-9.\s]", "", s)`. */
  predicate IsCoordinateChar(c: char) {
    IsDigit(c) || c == '.' || IsSpace(c)
  }

  /** `re.sub(r"[^0-9.\s]", "", s)`: keeps digits, dots and whitespace, in order. */
  function KeepCoordinateChars(s: string): (r: string)
    ensures |r| <= |s|
    ensures forall c :: c in r <==> c in s && IsCoordinateChar(c)
  {
    if s == [] then []
    else (if IsCoordinateChar(s[0]) then [s[0]] else []) + KeepCoordinateChars(s[1..])
  }

  /** Removing the class distributes over concatenation. */
  lemma {:induction false} KeepAppend(a: string, b: string)
    ensures KeepCoordinateChars(a + b) == KeepCoordinateChars(a) + KeepCoordinateChars(b)
  {
    if a != [] {
      assert (a + b)[0] == a[0];
      assert (a + b)[1..] == a[1..] + b;
      KeepAppend(a[1..], b);
      var h := if IsCoordinateChar(a[0]) then [a[0]] else [];
      assert KeepCoordinateChars(a + b) == h + (KeepCoordinateChars(a[1..]) + KeepCoordinateChars(b));
      assert KeepCoordinateChars(a) == h + KeepCoordinateChars(a[1..]);
    } else {
      assert a + b == b;
    }
  }

  lemma KeepAppend5(p: string, a: string, q: string, b: string, r: string)
    ensures KeepCoordinateChars(p + a + q + b + r) ==
      KeepCoordinateChars(p) + KeepCoordinateChars(a) + KeepCoordinateChars(q) +
      KeepCoordinateChars(b) + KeepCoordinateChars(r)
  {
    KeepAppend(p, a);
    KeepAppend(p + a, q);
    KeepAppend(p + a + q, b);
    KeepAppend(p + a + q + b, r);
  }

  /** A string with no kept character is removed entirely. */
  lemma {:induction false} KeepNone(s: string)
    requires forall i :: 0 <= i < |s| ==> !IsCoordinateChar(s[i])
    ensures KeepCoordinateChars(s) == []
  {
    if s != [] {
      KeepNone(s[1..]);
    }
  }

  /** A prefix with no kept character disappears. */
  lemma KeepDropFront(p: string, t: string)
    requires forall i :: 0 <= i < |p| ==> !IsCoordinateChar(p[i])
    ensures KeepCoordinateChars(p + t) == KeepCoordinateChars(t)
  {
    KeepNone(p);
    KeepAppend(p, t);
  }

  /** A suffix with no kept character disappears. */
  lemma KeepDropBack(t: string, p: string)
    requires forall i :: 0 <= i < |p| ==> !IsCoordinateChar(p[i])
    ensures KeepCoordinateChars(t + p) == KeepCoordinateChars(t)
  {
    KeepNone(p);
    KeepAppend(t, p);
    assert KeepCoordinateChars(t) + [] == KeepCoordinateChars(t);
  }

  /** A leading kept character stays. */
  lemma KeepFront(c: char, t: string)
    requires IsCoordinateChar(c)
    ensures KeepCoordinateChars([c] + t) == [c] + KeepCoordinateChars(t)
  {
    assert ([c] + t)[0] == c;
    assert ([c] + t)[1..] == t;
  }

  /** Of two dropped runs around a space, only the space stays. */
  lemma KeepSpaceBetween(p: string, q: string, t: string)
    requires forall i :: 0 <= i < |p| ==> !IsCoordinateChar(p[i])
    requires forall i :: 0 <= i < |q| ==> !IsCoordinateChar(q[i])
    ensures KeepCoordinateChars(p + ([' '] + (q + t))) == [' '] + KeepCoordinateChars(t)
  {
    KeepDropFront(p, [' '] + (q + t));
    KeepFront(' ', q + t);
    KeepDropFront(q, t);
  }

  /** A string made only of kept characters is left as it is. */
  lemma {:induction false} KeepUnchanged(s: string)
    requires forall c :: c in s ==> IsCoordinateChar(c)
    ensures KeepCoordinateChars(s) == s
  {
    if s != [] {
      assert s[0] in s;
      KeepUnchanged(s[1..]);
    }
  }

  /** Cleaning twice is cleaning once. */
  lemma KeepIdempotent(s: string)
    ensures KeepCoordinateChars(KeepCoordinateChars(s)) == KeepCoordinateChars(s)
  {
    KeepUnchanged(KeepCoordinateChars(s));
  }

  /** Regrouping a five-part concatenation behind its first part. */
  lemma Regroup(p: string, a: string, q: string, b: string, r: string)
    ensures p + a + q + b + r == p + (a + q + b + r)
  {
  }

  /** A character missing from four parts is missing from their concatenation. */
  lemma NotInParts(c: char, a: string, q: string, b: string, r: string)
    requires c !in a && c !in q && c !in b && c !in r
    ensures c !in a + q + b + r
  {
  }

  /** Two runs without whitespace make one. */
  lemma NoSpaceAppend(x: string, y: string)
    requires NoSpace(x) && NoSpace(y)
    ensures NoSpace(x + y)
  {
    assert forall i :: |x| <= i < |x + y| ==> (x + y)[i] == y[i - |x|];
  }

  /** `sep.join(pieces)`. */
  function Join(pieces: seq<string>, sep: char): string
    requires |pieces| >= 1
  {
    if |pieces| == 1 then pieces[0] else pieces[0] + [sep] + Join(pieces[1..], sep)
  }

  /** `s.split(sep)` for a one-character separator: never empty, pieces may be empty. */
  function SplitOn(s: string, sep: char): (pieces: seq<string>)
    ensures |pieces| >= 1
  {
    if s == [] then [[]]
    else if s[0] == sep then [[]] + SplitOn(s[1..], sep)
    else
      var rest := SplitOn(s[1..], sep);
      [[s[0]] + rest[0]] + rest[1..]
  }

  /** No piece holds the separator. */
  lemma {:induction false} SplitOnNoSeparator(s: string, sep: char)
    ensures forall i :: 0 <= i < |SplitOn(s, sep)| ==> sep !in SplitOn(s, sep)[i]
  {
    if s != [] {
      SplitOnNoSeparator(s[1..], sep);
      var rest := SplitOn(s[1..], sep);
      if s[0] != sep {
        assert forall i :: 1 <= i < |SplitOn(s, sep)| ==> SplitOn(s, sep)[i] == rest[i];
      }
    }
  }

  /** Splitting and joining again gives back the string. */
  lemma {:induction false} JoinSplit(s: string, sep: char)
    ensures Join(SplitOn(s, sep), sep) == s
  {
    if s != [] {
      JoinSplit(s[1..], sep);
      var rest := SplitOn(s[1..], sep);
      if s[0] != sep && |rest| > 1 {
        assert ([[s[0]] + rest[0]] + rest[1..])[1..] == rest[1..];
      }
    }
  }

  lemma SplitOnCons(x: char, t: string, sep: char)
    ensures SplitOn([x] + t, sep) ==
      if x == sep then [[]] + SplitOn(t, sep)
      else [[x] + SplitOn(t, sep)[0]] + SplitOn(t, sep)[1..]
  {
    assert ([x] + t)[0] == x;
    assert ([x] + t)[1..] == t;
  }

  /** Growing the first piece of a concatenation of piece lists. */
  lemma GrowFirstPiece(h: string, u: seq<string>, v: seq<string>)
    requires |u| >= 1
    ensures [h + (u + v)[0]] + (u + v)[1..] == ([h + u[0]] + u[1..]) + v
  {
    assert (u + v)[0] == u[0];
    assert (u + v)[1..] == u[1..] + v;
  }

  /** One step of `SplitOnAppend`: a character in front of the left part. */
  lemma SplitOnAppendCons(x: char, a: string, sep: char, b: string)
    requires SplitOn(a + [sep] + b, sep) == SplitOn(a, sep) + SplitOn(b, sep)
    ensures SplitOn([x] + (a + [sep] + b), sep) == SplitOn([x] + a, sep) + SplitOn(b, sep)
  {
    var u, v, w := SplitOn(a, sep), SplitOn(b, sep), SplitOn(a + [sep] + b, sep);
    SplitOnCons(x, a + [sep] + b, sep);
    SplitOnCons(x, a, sep);
    if x != sep {
      assert SplitOn([x] + (a + [sep] + b), sep) == [[x] + w[0]] + w[1..];
      assert SplitOn([x] + a, sep) == [[x] + u[0]] + u[1..];
      GrowFirstPiece([x], u, v);
    } else {
      assert [[]] + (u + v) == ([[]] + u) + v;
    }
  }

  /** Splitting through a separator concatenates the two splits. */
  lemma {:induction false} SplitOnAppend(a: string, sep: char, b: string)
    ensures SplitOn(a + [sep] + b, sep) == SplitOn(a, sep) + SplitOn(b, sep)
  {
    if a == [] {
      assert a + [sep] + b == [sep] + b;
      SplitOnCons(sep, b, sep);
      assert SplitOn(a, sep) == [[]];
    } else {
      SplitOnAppend(a[1..], sep, b);
      SplitOnAppendCons(a[0], a[1..], sep, b);
      assert [a[0]] + a[1..] == a;
      assert a + [sep] + b == [a[0]] + (a[1..] + [sep] + b);
    }
  }

  /** A string without the separator is a single piece. */
  lemma {:induction false} SplitOnAbsent(s: string, sep: char)
    requires sep !in s
    ensures SplitOn(s, sep) == [s]
  {
    if s != [] {
      assert s[0] in s;
      assert forall c :: c in s[1..] ==> c in s;
      SplitOnAbsent(s[1..], sep);
      assert [s[0]] + s[1..] == s;
    }
  }

  /** A character absent from the string is absent from every piece. */
  lemma {:induction false} SplitOnExcludes(s: string, sep: char, x: char)
    requires x !in s
    ensures forall i :: 0 <= i < |SplitOn(s, sep)| ==> x !in SplitOn(s, sep)[i]
  {
    if s != [] {
      assert s[0] in s;
      assert forall c :: c in s[1..] ==> c in s;
      SplitOnExcludes(s[1..], sep, x);
    }
  }

  /** Longest prefix without whitespace. */
  function Word(s: string): (w: string)
    ensures w <= s && NoSpace(w)
    ensures |w| < |s| ==> IsSpace(s[|w|])
  {
    if s == [] || IsSpace(s[0]) then [] else [s[0]] + Word(s[1..])
  }

  /** `s.split()`: the maximal runs of non-whitespace characters, in order. */
  function SplitWhitespace(s: string): (words: seq<string>)
    ensures forall i :: 0 <= i < |words| ==> words[i] != [] && NoSpace(words[i])
    decreases |s|
  {
    if s == [] then []
    else if IsSpace(s[0]) then SplitWhitespace(s[1..])
    else
      var w := Word(s);
      [w] + SplitWhitespace(s[|w|..])
  }

  /** Leading whitespace does not change `split()`. */
  lemma {:induction false} SplitWhitespaceSkip(ws: string, s: string)
    requires AllSpace(ws)
    ensures SplitWhitespace(ws + s) == SplitWhitespace(s)
  {
    if ws != [] {
      assert (ws + s)[0] == ws[0];
      assert IsSpace(ws[0]);
      assert (ws + s)[1..] == ws[1..] + s;
      assert AllSpace(ws[1..]);
      SplitWhitespaceSkip(ws[1..], s);
    } else {
      assert ws + s == s;
    }
  }

  /** A word followed by whitespace (or nothing) is the first piece of `split()`. */
  lemma {:induction false} SplitWhitespaceWord(w: string, s: string)
    requires w != [] && NoSpace(w)
    requires s == [] || IsSpace(s[0])
    ensures SplitWhitespace(w + s) == [w] + SplitWhitespace(s)
  {
    WordPrefix(w, s);
    assert (w + s)[|w|..] == s;
  }

  lemma {:induction false} WordPrefix(w: string, s: string)
    requires NoSpace(w)
    requires s == [] || IsSpace(s[0])
    ensures Word(w + s) == w
  {
    if w == [] {
      assert w + s == s;
    } else {
      assert (w + s)[1..] == w[1..] + s;
      WordPrefix(w[1..], s);
    }
  }

  /** `split()` on one word followed by any whitespace. */
  lemma OneWord(a: string, tail: string)
    requires a != [] && NoSpace(a) && AllSpace(tail)
    ensures SplitWhitespace(a + tail) == [a]
  {
    SplitWhitespaceWord(a, tail);
    assert tail + [] == tail;
    SplitWhitespaceSkip(tail, []);
  }

  lemma WordGapWord(a: string, gap: string, bt: string, b: string)
    requires a != [] && NoSpace(a) && AllSpace(gap) && gap != []
    requires SplitWhitespace(bt) == [b]
    ensures SplitWhitespace(a + (gap + bt)) == [a, b]
  {
    assert (gap + bt)[0] == gap[0];
    SplitWhitespaceWord(a, gap + bt);
    SplitWhitespaceSkip(gap, bt);
  }

  /** `split()` on two words with whitespace only between them. */
  lemma TwoWordsGap(a: string, gap: string, b: string)
    requires AllSpace(gap) && gap != []
    requires a != [] && NoSpace(a) && b != [] && NoSpace(b)
    ensures SplitWhitespace(a + gap + b) == [a, b]
  {
    assert SplitWhitespace(b) == [b] by {
      assert AllSpace([]);
      OneWord(b, []);
      assert b + [] == b;
    }
    WordGapWord(a, gap, b, b);
    assert a + gap + b == a + (gap + b);
  }

  /** `s.replace(pat, rep)`: left-to-right, non-overlapping occurrences. */
  function Replace(s: string, pat: string, rep: string): (r: string)
    requires pat != []
    ensures forall c :: c in r ==> c in s || c in rep
    decreases |s|
  {
    if |s| < |pat| then s
    else if s[..|pat|] == pat then rep + Replace(s[|pat|..], pat, rep)
    else [s[0]] + Replace(s[1..], pat, rep)
  }

  /** A pattern whose first character does not occur changes nothing. */
  lemma {:induction false} ReplaceAbsent(s: string, pat: string, rep: string)
    requires pat != [] && pat[0] !in s
    ensures Replace(s, pat, rep) == s
  {
    if |s| >= |pat| {
      assert s[..|pat|][0] == s[0];
      ReplaceAbsent(s[1..], pat, rep);
    }
  }

  /** An occurrence at the front is replaced, and the scan resumes after it. */
  lemma ReplaceFront(pat: string, t: string, rep: string)
    requires pat != []
    ensures Replace(pat + t, pat, rep) == rep + Replace(t, pat, rep)
  {
    assert (pat + t)[..|pat|] == pat;
    assert (pat + t)[|pat|..] == t;
  }

  /** Replacing one character distributes over concatenation. */
  lemma {:induction false} ReplaceCharAppend(a: string, b: string, c: char, rep: string)
    ensures Replace(a + b, [c], rep) == Replace(a, [c], rep) + Replace(b, [c], rep)
  {
    if a != [] {
      assert (a + b)[1..] == a[1..] + b;
      assert (a + b)[..1] == a[..1] == [a[0]];
      assert (a + b)[0] == a[0];
      ReplaceCharAppend(a[1..], b, c, rep);
      var r := Replace(a[1..], [c], rep) + Replace(b, [c], rep);
      if a[0] == c {
        assert Replace(a + b, [c], rep) == rep + r;
        assert Replace(a, [c], rep) == rep + Replace(a[1..], [c], rep);
      } else {
        assert Replace(a + b, [c], rep) == [a[0]] + r;
        assert Replace(a, [c], rep) == [a[0]] + Replace(a[1..], [c], rep);
      }
    } else {
      assert a + b == b;
    }
  }

  /** `s.replace(c, "")` removes every occurrence of `c` and keeps the rest. */
  lemma {:induction false} RemoveChar(s: string, c: char)
    ensures forall x :: x in Replace(s, [c], []) <==> x in s && x != c
  {
    if s != [] {
      RemoveChar(s[1..], c);
      assert s[..1] == [s[0]];
    }
  }

  /**
   * The whitespace `float()` strips from its argument: every `str.isspace`
   * character except the four ASCII separators U+001C to U+001F, which
   * `float()` neither maps to a space nor strips.
   */
  predicate IsStripSpace(c: char) {
    IsSpace(c) && !(0x1C <= c as int <= 0x1F)
  }

  function TrimStart(s: string): (r: string)
    ensures |r| <= |s| && r == s[|s| - |r|..]
    ensures forall i :: 0 <= i < |s| - |r| ==> IsStripSpace(s[i])
    ensures r == [] || !IsStripSpace(r[0])
  {
    if s != [] && IsStripSpace(s[0]) then
      var r := TrimStart(s[1..]);
      assert forall i :: 1 <= i < |s| - |r| ==> s[i] == s[1..][i - 1];
      r
    else s
  }

  function TrimEnd(s: string): (r: string)
    ensures |r| <= |s| && r == s[..|r|]
    ensures forall i :: |r| <= i < |s| ==> IsStripSpace(s[i])
    ensures r == [] || !IsStripSpace(r[|r| - 1])
  {
    if s != [] && IsStripSpace(s[|s| - 1]) then TrimEnd(s[..|s| - 1]) else s
  }

  /** `r` is the slice of `s` at `i`, with only stripped whitespace before and after it. */
  predicate StrippedAt(s: string, i: int, r: string) {
    0 <= i <= i + |r| <= |s| && r == s[i..i + |r|] &&
    (forall k :: 0 <= k < i ==> IsStripSpace(s[k])) &&
    (forall k :: i + |r| <= k < |s| ==> IsStripSpace(s[k]))
  }

  /**
   * The stripping `float()` applies to its argument: the slice that neither
   * starts nor ends with such whitespace, everything cut off on either side
   * being whitespace.
   */
  function Trim(s: string): (r: string)
    ensures r == [] || (!IsStripSpace(r[0]) && !IsStripSpace(r[|r| - 1]))
    ensures exists i :: StrippedAt(s, i, r)
  {
    var t := TrimStart(s);
    var i := |s| - |t|;
    assert StrippedAt(s, i, TrimEnd(t));
    TrimEnd(t)
  }
}
