/** The string primitives the summariser relies on: Python's `str.strip()`,
    `str.split()` (no separator argument) and the `<` order on strings. */
module Text {

  /** The six characters taken as whitespace when stripping and splitting:
      space, tab, newline, carriage return, vertical tab and form feed. */
  predicate IsSpace(c: char) {
    c == ' ' || c == '\t' || c == '\n' || c == '\r' || c == '\U{000B}' || c == '\U{000C}'
  }

  predicate AllSpace(s: string) {
    forall i :: 0 <= i < |s| ==> IsSpace(s[i])
  }

  predicate NoSpace(s: string) {
    forall i :: 0 <= i < |s| ==> !IsSpace(s[i])
  }

  // ---------------------------------------------------------------------------
  // strip

  /** The first position at or after `i` that does not hold whitespace. */
  function SkipSpaces(s: string, i: nat): (j: nat)
    requires i <= |s|
    ensures i <= j <= |s|
    ensures forall k :: i <= k < j ==> IsSpace(s[k])
    ensures j < |s| ==> !IsSpace(s[j])
    decreases |s| - i
  {
    if i < |s| && IsSpace(s[i]) then SkipSpaces(s, i + 1) else i
  }

  /** The position after the last non-whitespace character in `s[lo..j]`, or `lo`. */
  function BackSpaces(s: string, lo: nat, j: nat): (k: nat)
    requires lo <= j <= |s|
    ensures lo <= k <= j
    ensures forall m :: k <= m < j ==> IsSpace(s[m])
    ensures k > lo ==> !IsSpace(s[k - 1])
    decreases j
  {
    if j > lo && IsSpace(s[j - 1]) then BackSpaces(s, lo, j - 1) else j
  }

  /** `line.strip()`: the line with leading and trailing whitespace removed. */
  function Strip(s: string): (r: string)
    ensures |r| > 0 ==> !IsSpace(r[0]) && !IsSpace(r[|r| - 1])
    ensures exists i :: 0 <= i <= |s| - |r| && r == s[i..i + |r|]
                        && AllSpace(s[..i]) && AllSpace(s[i + |r|..])
  {
    var i := SkipSpaces(s, 0);
    var j := BackSpaces(s, i, |s|);
    assert AllSpace(s[..i]);
    assert AllSpace(s[j..]);
    assert j > i ==> !IsSpace(s[i]);
    s[i..j]
  }

  // ---------------------------------------------------------------------------
  // split

  /** The word being collected, if any, as a list of zero or one words. */
  function Flush(cur: string): seq<string> {
    if |cur| == 0 then [] else [cur]
  }

  predicate Words(ws: seq<string>) {
    forall i :: 0 <= i < |ws| ==> |ws[i]| > 0 && NoSpace(ws[i])
  }

  /** Splits `s`, where `cur` holds the non-blank characters already read
      since the last whitespace. */
  function SplitFrom(s: string, cur: string): (ws: seq<string>)
    requires NoSpace(cur)
    ensures Words(ws)
    decreases |s|
  {
    if |s| == 0 then Flush(cur)
    else if IsSpace(s[0]) then Flush(cur) + SplitFrom(s[1..], "")
    else SplitFrom(s[1..], cur + [s[0]])
  }

  /** `line.split()`: the maximal runs of non-whitespace characters. */
  function Split(s: string): (ws: seq<string>)
    ensures Words(ws)
  {
    SplitFrom(s, "")
  }

  lemma {:induction false} SplitFromSpace(a: string, c: char, b: string, cur: string)
    requires NoSpace(cur) && IsSpace(c)
    ensures SplitFrom(a + [c] + b, cur) == SplitFrom(a, cur) + SplitFrom(b, "")
    decreases |a|
  {
    if |a| == 0 {
      assert a + [c] + b == [c] + b;
      assert ([c] + b)[1..] == b;
    } else {
      assert (a + [c] + b)[0] == a[0];
      assert (a + [c] + b)[1..] == a[1..] + [c] + b;
      if IsSpace(a[0]) {
        SplitFromSpace(a[1..], c, b, "");
      } else {
        SplitFromSpace(a[1..], c, b, cur + [a[0]]);
      }
    }
  }

  /** A whitespace character separates the words on its left from those on
      its right. */
  lemma SplitAtSpace(a: string, c: char, b: string)
    requires IsSpace(c)
    ensures Split(a + [c] + b) == Split(a) + Split(b)
  {
    SplitFromSpace(a, c, b, "");
  }

  lemma {:induction false} SplitFromWord(w: string, cur: string)
    requires NoSpace(cur) && NoSpace(w)
    ensures SplitFrom(w, cur) == Flush(cur + w)
    decreases |w|
  {
    if |w| == 0 {
      assert cur + w == cur;
    } else {
      assert (cur + [w[0]]) + w[1..] == cur + w;
      SplitFromWord(w[1..], cur + [w[0]]);
    }
  }

  /** A non-empty run without whitespace is one word; the empty line has none. */
  lemma SplitWord(w: string)
    requires NoSpace(w)
    ensures Split(w) == (if |w| == 0 then [] else [w])
  {
    SplitFromWord(w, "");
    assert "" + w == w;
  }

  lemma {:induction false} SplitFromLeadingSpace(p: string, t: string)
    requires AllSpace(p)
    ensures SplitFrom(p + t, "") == SplitFrom(t, "")
    decreases |p|
  {
    if |p| > 0 {
      assert (p + t)[0] == p[0];
      assert (p + t)[1..] == p[1..] + t;
      SplitFromLeadingSpace(p[1..], t);
    } else {
      assert p + t == t;
    }
  }

  lemma {:induction false} SplitFromAllSpace(q: string, cur: string)
    requires AllSpace(q) && NoSpace(cur)
    ensures SplitFrom(q, cur) == Flush(cur)
    decreases |q|
  {
    if |q| > 0 {
      SplitFromAllSpace(q[1..], "");
    }
  }

  lemma {:induction false} SplitFromTrailingSpace(t: string, q: string, cur: string)
    requires AllSpace(q) && NoSpace(cur)
    ensures SplitFrom(t + q, cur) == SplitFrom(t, cur)
    decreases |t|
  {
    if |t| == 0 {
      assert t + q == q;
      SplitFromAllSpace(q, cur);
    } else {
      assert (t + q)[0] == t[0];
      assert (t + q)[1..] == t[1..] + q;
      if IsSpace(t[0]) {
        SplitFromTrailingSpace(t[1..], q, "");
      } else {
        SplitFromTrailingSpace(t[1..], q, cur + [t[0]]);
      }
    }
  }

  lemma SplitPadded(p: string, r: string, q: string)
    requires AllSpace(p) && AllSpace(q)
    ensures Split(p + (r + q)) == Split(r)
  {
    SplitFromLeadingSpace(p, r + q);
    SplitFromTrailingSpace(r, q, "");
  }

  /** Stripping a line first does not change its words. */
  lemma SplitStrip(s: string)
    ensures Split(Strip(s)) == Split(s)
  {
    var i := SkipSpaces(s, 0);
    var j := BackSpaces(s, i, |s|);
    StripParts(s, i, j);
    SplitPadded(s[..i], s[i..j], s[j..]);
  }

  lemma StripParts(s: string, i: nat, j: nat)
    requires i == SkipSpaces(s, 0) && j == BackSpaces(s, i, |s|)
    ensures Strip(s) == s[i..j]
    ensures AllSpace(s[..i]) && AllSpace(s[j..])
    ensures s == s[..i] + (s[i..j] + s[j..])
  {
    assert AllSpace(s[..i]);
    assert AllSpace(s[j..]);
  }

  // ---------------------------------------------------------------------------
  // string order

  /** Python's `a < b` on strings: code point by code point, and a proper
      prefix before the longer string. */
  predicate StrLess(a: string, b: string)
    decreases |a|
  {
    if |a| == 0 then |b| > 0
    else |b| > 0 && (a[0] < b[0] || (a[0] == b[0] && StrLess(a[1..], b[1..])))
  }

  lemma {:induction false} StrLessIrreflexive(a: string)
    ensures !StrLess(a, a)
    decreases |a|
  {
    if |a| > 0 {
      StrLessIrreflexive(a[1..]);
    }
  }

  lemma {:induction false} StrLessTransitive(a: string, b: string, c: string)
    requires StrLess(a, b) && StrLess(b, c)
    ensures StrLess(a, c)
    decreases |a|
  {
    if |a| > 0 && a[0] == b[0] && b[0] == c[0] {
      StrLessTransitive(a[1..], b[1..], c[1..]);
    }
  }

  /** Any two different strings are ordered one way. */
  lemma {:induction false} StrLessTotal(a: string, b: string)
    requires a != b
    ensures StrLess(a, b) || StrLess(b, a)
    decreases |a|
  {
    if |a| > 0 && |b| > 0 && a[0] == b[0] {
      assert a == [a[0]] + a[1..] && b == [b[0]] + b[1..];
      StrLessTotal(a[1..], b[1..]);
    }
  }

  /** A common prefix does not affect the order. */
  lemma {:induction false} StrLessCommonPrefix(p: string, a: string, b: string)
    ensures StrLess(p + a, p + b) <==> StrLess(a, b)
    decreases |p|
  {
    if |p| > 0 {
      assert (p + a)[1..] == p[1..] + a;
      assert (p + b)[1..] == p[1..] + b;
      StrLessCommonPrefix(p[1..], a, b);
    } else {
      assert p + a == a && p + b == b;
    }
  }
}
