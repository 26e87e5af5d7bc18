/** Normalisation of one word by ordered lists of regular expressions
    (`EquivClasses` in py/summarize.py). The regular-expression engine itself
    is a parameter: `search(pattern, subject)` stands for
    `re.compile(pattern).search(subject)`. */
module Equiv {
  import opened Wrappers
  import Numerals

  /** The part `subject[start..end]` of a subject string that a pattern matched. */
  datatype Span = Span(start: nat, end: nat)

  /** A regular-expression search: the leftmost match of a pattern in a
      subject, if there is one. */
  type Matcher = (string, string) -> Option<Span>

  predicate InBounds(m: Span, s: string) {
    m.start <= m.end <= |s|
  }

  /** Every match the engine reports lies inside the subject. */
  ghost predicate Sound(search: Matcher) {
    forall p, s :: search(p, s).Some? ==> InBounds(search(p, s).value, s)
  }

  /** The equivalence patterns, the blacklist patterns, and the engine
      that runs them. */
  datatype EquivClasses = EquivClasses(equiv: seq<string>, notEquiv: seq<string>, search: Matcher)

  /** Every equivalence match in a non-empty word consumes at least one
      character, so that each pass of the replacement loop shortens the word. */
  ghost predicate Progress(c: EquivClasses) {
    forall i, s :: 0 <= i < |c.equiv| && |s| > 0 && c.search(c.equiv[i], s).Some? ==>
      c.search(c.equiv[i], s).value.end >= 1
  }

  predicate NoneMatch(search: Matcher, patterns: seq<string>, s: string) {
    forall i :: 0 <= i < |patterns| ==> search(patterns[i], s).None?
  }

  predicate IsSuffix(a: string, b: string) {
    |a| <= |b| && a == b[|b| - |a|..]
  }

  /** The text a substitution puts in place of an equivalence match: `'$' + str(i)`. */
  function Placeholder(i: nat): string {
    "$" + Numerals.Decimal(i)
  }

  /** The pattern that matched and where. */
  datatype Hit = Hit(index: nat, span: Span)

  /** The first pattern, in list order, that matches anywhere in `s`. */
  function FirstMatch(search: Matcher, patterns: seq<string>, s: string): (r: Option<Hit>)
    ensures r.None? <==> NoneMatch(search, patterns, s)
    ensures r.Some? ==>
      && r.value.index < |patterns|
      && search(patterns[r.value.index], s) == Some(r.value.span)
      && NoneMatch(search, patterns[..r.value.index], s)
    decreases |patterns|
  {
    if |patterns| == 0 then None
    else match search(patterns[0], s)
      case Some(m) => Some(Hit(0, m))
      case None =>
        match FirstMatch(search, patterns[1..], s)
        case None => None
        case Some(h) =>
          assert patterns[1..][..h.index] == patterns[1..h.index + 1];
          Some(Hit(h.index + 1, h.span))
  }

  /** The word that remains once the first blacklist hit, and everything
      before it, has been skipped. */
  function AfterBlacklist(c: EquivClasses, word: string): (w: string)
    requires Sound(c.search)
    ensures IsSuffix(w, word)
    ensures NoneMatch(c.search, c.notEquiv, word) ==> w == word
    ensures !NoneMatch(c.search, c.notEquiv, word) ==>
      |word| - |w| == FirstMatch(c.search, c.notEquiv, word).value.span.end
  {
    match FirstMatch(c.search, c.notEquiv, word)
    case None => word
    case Some(h) => word[h.span.end..]
  }

  /** What one pass of the replacement loop does with the remaining word. */
  datatype Pass =
    | Stop(tail: string)                                   // no equivalence pattern matches: keep `tail`
    | Substitute(before: string, index: nat, rest: string) // emit `before` and a placeholder, go on with `rest`

  /** One pass of the replacement loop: skip past the first blacklist hit,
      then replace the first equivalence match. */
  function Step(c: EquivClasses, word: string): Pass
    requires Sound(c.search)
  {
    var w := AfterBlacklist(c, word);
    match FirstMatch(c.search, c.equiv, w)
    case None => Stop(w)
    case Some(h) => Substitute(w[..h.span.start], h.index, w[h.span.end..])
  }

  /** A substituting pass goes on with a suffix of what the blacklist left,
      and one that is strictly shorter than the word when the patterns make
      progress. */
  lemma StepShortens(c: EquivClasses, word: string)
    requires Sound(c.search)
    ensures var p := Step(c, word);
      p.Substitute? ==> p.index < |c.equiv| && IsSuffix(p.rest, AfterBlacklist(c, word))
    ensures var p := Step(c, word);
      Progress(c) && p.Substitute? && |word| > 0 ==> |p.rest| < |word|
  {
    var w := AfterBlacklist(c, word);
    var p := Step(c, word);
    if p.Substitute? {
      var h := FirstMatch(c.search, c.equiv, w).value;
      if Progress(c) && |w| > 0 {
        assert c.search(c.equiv[h.index], w).value.end >= 1;
      }
    }
  }

  /** Where a substituting pass cuts the word: the text before the first
      pattern's match, that pattern, and the text after the match. */
  lemma StepHit(c: EquivClasses, word: string)
    requires Sound(c.search)
    ensures var w := AfterBlacklist(c, word);
      match FirstMatch(c.search, c.equiv, w)
      case None => Step(c, word) == Stop(w)
      case Some(h) =>
        && h.span.start <= h.span.end <= |w|
        && Step(c, word) == Substitute(w[..h.span.start], h.index, w[h.span.end..])
  {
  }

  /** Cutting a word at a match's bounds and gluing the pieces back gives
      the word; stated once so the callers' proofs stay small. */
  lemma Decompose(w: string, m: Span)
    requires InBounds(m, w)
    ensures |w[..m.start]| == m.start && |w| - |w[m.end..]| == m.end
    ensures w == w[..m.start] + w[m.start..m.end] + w[m.end..]
  {
  }

  /** A non-empty word on which a pass leaves the remaining word exactly as
      it was: from there the replacement loop repeats the same pass forever. */
  predicate Stalls(c: EquivClasses, word: string)
    requires Sound(c.search)
  {
    |word| > 0 && Step(c, word).Substitute? && Step(c, word).rest == word
  }

  /** `EquivClasses.replace(word)`, or None when the replacement loop never
      finishes. */
  function Normalize(c: EquivClasses, word: string): (r: Option<string>)
    requires Sound(c.search)
    ensures |word| == 0 ==> r == Some("")
    ensures |c.equiv| == 0 && |word| > 0 ==> r == Some(AfterBlacklist(c, word))
    ensures NoneMatch(c.search, c.notEquiv, word) && NoneMatch(c.search, c.equiv, word) ==> r == Some(word)
    ensures Progress(c) ==> r.Some?
    decreases |word|
  {
    if |word| == 0 then Some("")
    else
      StepShortens(c, word);
      match Step(c, word)
      case Stop(tail) => Some(tail)
      case Substitute(before, i, rest) =>
        if |rest| < |word| then
          match Normalize(c, rest)
          case None => None
          case Some(t) => Some(before + Placeholder(i) + t)
        else None
  }

  /** `v` is a word the replacement loop of `EquivClasses.replace` reaches
      from `word` while every pass shortens what is left. */
  ghost predicate Reaches(c: EquivClasses, word: string, v: string)
    requires Sound(c.search)
    decreases |word|
  {
    || v == word
    || (&& |word| > 0
        && Step(c, word).Substitute?
        && |Step(c, word).rest| < |word|
        && Reaches(c, Step(c, word).rest, v))
  }

  /** Normalisation fails exactly where the replacement loop of
      `EquivClasses.replace` spins forever: it reaches a word on which a pass
      changes nothing. That word is a suffix of the input. */
  lemma {:induction false} DivergenceStalls(c: EquivClasses, word: string)
    requires Sound(c.search)
    ensures Normalize(c, word).None? ==> exists v :: IsSuffix(v, word) && Stalls(c, v)
    ensures Normalize(c, word).None? <==> exists v :: Reaches(c, word, v) && Stalls(c, v)
    decreases |word|
  {
    var p := Step(c, word);
    if Normalize(c, word).None? {
      assert p.Substitute?;
      if |p.rest| < |word| {
        DivergenceStalls(c, p.rest);
        var v :| IsSuffix(v, p.rest) && Stalls(c, v);
        SuffixTransitive(v, p.rest, AfterBlacklist(c, word));
        SuffixTransitive(v, AfterBlacklist(c, word), word);
        var u :| Reaches(c, p.rest, u) && Stalls(c, u);
        assert Reaches(c, word, u);
      } else {
        assert Stalls(c, word);
        assert IsSuffix(word, word);
        assert Reaches(c, word, word);
      }
    } else {
      forall v | Reaches(c, word, v)
        ensures !Stalls(c, v)
      {
        if v != word {
          DivergenceStalls(c, p.rest);
        }
      }
    }
  }

  lemma SuffixTransitive(a: string, b: string, c: string)
    requires IsSuffix(a, b) && IsSuffix(b, c)
    ensures IsSuffix(a, c)
  {
    assert c[|c| - |b|..][|b| - |a|..] == c[|c| - |a|..];
  }

  /** The body of the replacement loop: `_match_not_equiv`, then
      `_match_once`. Either the loop stops with `emitted` as the last piece
      of the result, or it appends `emitted` and carries on with the
      strictly shorter word `next`. */
  method OnePass(c: EquivClasses, w: string) returns (emitted: string, next: string, stop: bool)
    requires Sound(c.search) && Progress(c) && |w| > 0
    ensures stop ==> Normalize(c, w) == Some(emitted)
    ensures !stop ==> |next| < |w| && Normalize(c, w) == Some(emitted + Normalize(c, next).value)
  {
    var skip := FirstMatch(c.search, c.notEquiv, w);
    var rem := w;
    if skip.Some? {
      rem := w[skip.value.span.end..];
    }
    assert rem == AfterBlacklist(c, w);
    PassOutput(c, w);
    var hit := FirstMatch(c.search, c.equiv, rem);
    if hit.None? {
      return rem, "", true;
    }
    var h := hit.value;
    emitted := rem[..h.span.start] + Placeholder(h.index);
    next := rem[h.span.end..];
    stop := false;
  }

  /** The replacement loop of `EquivClasses.replace`, pass by pass: it
      computes exactly what `Normalize` describes. */
  method Replace(c: EquivClasses, word: string) returns (result: string)
    requires Sound(c.search) && Progress(c)
    ensures Normalize(c, word) == Some(result)
  {
    result := "";
    var w := word;
    ghost var tail := Normalize(c, word).value;
    EmptyLeft(tail);
    while |w| > 0
      invariant Normalize(c, w) == Some(tail)
      invariant Normalize(c, word) == Some(result + tail)
      decreases |w|
    {
      var emitted, next, stop := OnePass(c, w);
      if stop {
        return result + emitted;
      }
      Associate(result, emitted, Normalize(c, next).value);
      result, w, tail := result + emitted, next, Normalize(c, next).value;
    }
    EmptyRight(result);
  }

  // The three concatenation facts below keep `Replace`'s loop proof small:
  // proved on their own, they spare the solver re-deriving them in a large context.
  lemma EmptyLeft(s: string)
    ensures "" + s == s
  {
  }

  lemma EmptyRight(s: string)
    ensures s + "" == s
  {
  }

  lemma Associate(a: string, b: string, t: string)
    ensures a + (b + t) == (a + b) + t
  {
  }

  /** `[equiv_classes.replace(x) for x in words]`, or None when one of the
      words sends the replacement loop round forever. */
  function NormalizeAll(c: EquivClasses, words: seq<string>): (r: Option<seq<string>>)
    requires Sound(c.search)
    ensures r.Some? <==> forall i :: 0 <= i < |words| ==> Normalize(c, words[i]).Some?
    ensures r.Some? ==>
      |r.value| == |words| && forall i :: 0 <= i < |words| ==> Normalize(c, words[i]) == Some(r.value[i])
    decreases |words|
  {
    if |words| == 0 then Some([])
    else match Normalize(c, words[0])
      case None => None
      case Some(w) =>
        match NormalizeAll(c, words[1..])
        case None => None
        case Some(ws) => Some([w] + ws)
  }

  /** One pass of the loop, as the output sees it: with no equivalence match
      the remaining word is kept as it is; otherwise the text before the
      first pattern's match and that pattern's placeholder are emitted, and
      scanning resumes after the match on a strictly shorter word. */
  lemma PassOutput(c: EquivClasses, word: string)
    requires Sound(c.search) && Progress(c) && |word| > 0
    ensures var w := AfterBlacklist(c, word);
      match FirstMatch(c.search, c.equiv, w)
      case None => Normalize(c, word) == Some(w)
      case Some(h) =>
        && h.span.start <= h.span.end <= |w|
        && |w[h.span.end..]| < |word|
        && Normalize(c, word) == Some(w[..h.span.start] + Placeholder(h.index) + Normalize(c, w[h.span.end..]).value)
  {
    var w := AfterBlacklist(c, word);
    match FirstMatch(c.search, c.equiv, w)
    case None =>
    case Some(h) =>
      Decompose(w, h.span);
  }

  /** Blacklisted text is skipped, not kept: two words whose first blacklist
      hits leave the same remainder normalise alike. */
  lemma BlacklistedPrefixDropped(c: EquivClasses, a: string, b: string)
    requires Sound(c.search) && Progress(c) && |a| > 0 && |b| > 0
    ensures AfterBlacklist(c, a) == AfterBlacklist(c, b) ==> Normalize(c, a) == Normalize(c, b)
  {
    if AfterBlacklist(c, a) == AfterBlacklist(c, b) {
      assert Step(c, a) == Step(c, b);
    }
  }

  /** A word the first blacklist hit covers entirely leaves nothing behind
      except, when an equivalence pattern matches the empty string, that
      pattern's placeholder. */
  lemma WholeWordBlacklisted(c: EquivClasses, word: string)
    requires Sound(c.search) && |word| > 0
    requires !NoneMatch(c.search, c.notEquiv, word)
    requires FirstMatch(c.search, c.notEquiv, word).value.span.end == |word|
    ensures Normalize(c, word) == match FirstMatch(c.search, c.equiv, "")
                                  case None => Some("")
                                  case Some(h) => Some(Placeholder(h.index))
  {
    assert AfterBlacklist(c, word) == "";
    StepHit(c, word);
    match FirstMatch(c.search, c.equiv, "")
    case None =>
    case Some(h) =>
      EmptyRight(Placeholder(h.index));
      EmptyLeft(Placeholder(h.index));
  }

  /** With `--equiv '[0-9]+' --not-equiv 'err[0-9]+'`, the word "err42" is
      blacklisted as a whole and vanishes. */
  lemma BlacklistedWordVanishes(search: Matcher)
    requires Sound(search)
    requires search("err[0-9]+", "err42") == Some(Span(0, 5))
    requires search("[0-9]+", "") == None
    ensures Normalize(EquivClasses(["[0-9]+"], ["err[0-9]+"], search), "err42") == Some("")
  {
    var c := EquivClasses(["[0-9]+"], ["err[0-9]+"], search);
    assert FirstMatch(search, c.notEquiv, "err42") == Some(Hit(0, Span(0, 5)));
    WholeWordBlacklisted(c, "err42");
  }

  /** With `--equiv '[0-9]+'`, each run of digits becomes `$0`. */
  lemma DigitRunsReplaced(search: Matcher)
    requires Sound(search)
    requires search("[0-9]+", "id123done456") == Some(Span(2, 5))
    requires search("[0-9]+", "done456") == Some(Span(4, 7))
    ensures Normalize(EquivClasses(["[0-9]+"], [], search), "id123done456") == Some("id$0done$0")
  {
    var c := EquivClasses(["[0-9]+"], [], search);
    var word := "id123done456";
    DigitRunTail(search);
    assert AfterBlacklist(c, word) == word;
    assert FirstMatch(search, c.equiv, word) == Some(Hit(0, Span(2, 5)));
    StepHit(c, word);
    assert word[..2] == "id" && word[5..] == "done456";
    assert "id" + "$0" + "done$0" == "id$0done$0";
  }

  /** The last pass of the example above. */
  lemma DigitRunTail(search: Matcher)
    requires Sound(search)
    requires search("[0-9]+", "done456") == Some(Span(4, 7))
    ensures Normalize(EquivClasses(["[0-9]+"], [], search), "done456") == Some("done$0")
    ensures Placeholder(0) == "$0"
  {
    var c := EquivClasses(["[0-9]+"], [], search);
    var word := "done456";
    assert AfterBlacklist(c, word) == word;
    assert FirstMatch(search, c.equiv, word) == Some(Hit(0, Span(4, 7)));
    StepHit(c, word);
    assert word[..4] == "done" && word[7..] == "";
    assert Step(c, word) == Substitute("done", 0, "");
    assert Normalize(c, "") == Some("");
    assert Numerals.Decimal(0) == "0";
    assert Placeholder(0) == "$0";
    assert Normalize(c, word) == Some("done" + Placeholder(0) + "");
    assert "done" + "$0" + "" == "done$0";
  }
}
