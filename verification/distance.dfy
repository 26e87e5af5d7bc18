/** The distance metrics between two lines' word lists (`HashDistance`
    and `ProportionalHashDistance` in py/summarize.py). Words are compared
    by equality; the source compares their `hash()` values. */
module Distance {
  import opened Wrappers

  /** The distinct words of a line. */
  function Tokens(x: seq<string>): set<string> {
    set w | w in x
  }

  function SymDiff(a: set<string>, b: set<string>): set<string> {
    (a - b) + (b - a)
  }

  lemma SymDiffCard(a: set<string>, b: set<string>)
    ensures |SymDiff(a, b)| == |a| + |b| - 2 * |a * b|
  {
    assert a == (a - b) + (a * b);
    assert b == (b - a) + (a * b);
  }

  lemma SubsetCard(a: set<string>, b: set<string>)
    requires a <= b
    ensures |a| <= |b|
  {
    assert b == a + (b - a);
  }

  lemma TokensEmpty(x: seq<string>)
    ensures Tokens(x) == {} <==> |x| == 0
  {
    if |x| > 0 {
      assert x[0] in Tokens(x);
    }
  }

  /** `HashDistance.measure`: how many distinct words occur in exactly one
      of the two lines. */
  function HashDistance(x: seq<string>, y: seq<string>): (d: nat)
    ensures d == |Tokens(x)| + |Tokens(y)| - 2 * |Tokens(x) * Tokens(y)|
    ensures d == 0 <==> Tokens(x) == Tokens(y)
  {
    SymDiffCard(Tokens(x), Tokens(y));
    assert SymDiff(Tokens(x), Tokens(y)) == {} ==> Tokens(x) == Tokens(y);
    |SymDiff(Tokens(x), Tokens(y))|
  }

  lemma HashSymmetric(x: seq<string>, y: seq<string>)
    ensures HashDistance(x, y) == HashDistance(y, x)
  {
    assert Tokens(x) * Tokens(y) == Tokens(y) * Tokens(x);
  }

  /** Order and repetition of words do not matter. */
  lemma HashSameTokens(x: seq<string>, x': seq<string>, y: seq<string>)
    requires Tokens(x) == Tokens(x')
    ensures HashDistance(x, y) == HashDistance(x', y)
  {
  }

  /** The distance is a metric on word sets: it obeys the triangle inequality. */
  lemma HashTriangle(x: seq<string>, y: seq<string>, z: seq<string>)
    ensures HashDistance(x, z) <= HashDistance(x, y) + HashDistance(y, z)
  {
    var a, b, c := Tokens(x), Tokens(y), Tokens(z);
    assert SymDiff(a, c) <= SymDiff(a, b) + SymDiff(b, c);
    SubsetCard(SymDiff(a, c), SymDiff(a, b) + SymDiff(b, c));
  }

  /** `ProportionalHashDistance.measure`: the hash distance over the number
      of distinct words of both lines, or None where Python raises
      `ZeroDivisionError` (both lines without words). */
  function PHashDistance(x: seq<string>, y: seq<string>): (r: Option<real>)
    ensures r.None? <==> |x| == 0 && |y| == 0
    ensures r.Some? ==> 0.0 <= r.value <= 1.0
    ensures r.Some? ==> (r.value == 0.0 <==> Tokens(x) == Tokens(y))
    ensures r.Some? ==> (r.value == 1.0 <==> Tokens(x) !! Tokens(y))
    ensures r.Some? ==>
      r.value * (|Tokens(x)| + |Tokens(y)|) as real
        == (|Tokens(x)| + |Tokens(y)| - 2 * |Tokens(x) * Tokens(y)|) as real
  {
    TokensEmpty(x);
    TokensEmpty(y);
    var total := |Tokens(x)| + |Tokens(y)|;
    if total == 0 then None
    else
      var d := HashDistance(x, y);
      assert Tokens(x) !! Tokens(y) <==> |Tokens(x) * Tokens(y)| == 0;
      Ratio(d, total);
      Some(d as real / total as real)
  }

  lemma Ratio(n: nat, t: nat)
    requires 0 < t && n <= t
    ensures 0.0 <= n as real / t as real <= 1.0
    ensures n as real / t as real == 0.0 <==> n == 0
    ensures n as real / t as real == 1.0 <==> n == t
  {
    var q := n as real / t as real;
    assert q * t as real == n as real;
  }

  lemma PHashSymmetric(x: seq<string>, y: seq<string>)
    ensures PHashDistance(x, y) == PHashDistance(y, x)
  {
    HashSymmetric(x, y);
  }

  /** Against the integer threshold of the command line, the proportional
      distance only separates lines when the threshold is 0 (different word
      sets) or negative (everything). */
  lemma PHashThreshold(x: seq<string>, y: seq<string>, t: int)
    requires |x| > 0 || |y| > 0
    ensures PHashDistance(x, y).value <= t as real <==> t >= 1 || (t == 0 && Tokens(x) == Tokens(y))
  {
  }

  /** The docstring's `d(xxx, zzz) = 1`, with one word per letter. */
  lemma PHashDisjointExample()
    ensures PHashDistance(["x", "x", "x"], ["z", "z", "z"]) == Some(1.0)
  {
    assert Tokens(["x", "x", "x"]) == {"x"};
    assert Tokens(["z", "z", "z"]) == {"z"};
  }

  /** The docstring's `d(xxc, xxd)` is 1/2, not the 1/3 it claims: duplicate
      words collapse before counting. */
  lemma PHashDocExample()
    ensures PHashDistance(["x", "x", "c"], ["x", "x", "d"]) == Some(0.5)
  {
    var a, b := Tokens(["x", "x", "c"]), Tokens(["x", "x", "d"]);
    assert a == {"x", "c"} && b == {"x", "d"};
    assert SymDiff(a, b) == {"c", "d"};
  }

  /** The metrics the command line can choose between. */
  datatype Metric = Hash | PHash

  /** The `NAME` each metric class declares. */
  function Name(m: Metric): string {
    match m
    case Hash => "hash"
    case PHash => "phash"
  }

  /** The metric whose `NAME` is `name`; None is the `invalid metric` error. */
  function MetricByName(name: string): (r: Option<Metric>)
    ensures forall m :: r == Some(m) <==> Name(m) == name
  {
    if name == "hash" then Some(Hash)
    else if name == "phash" then Some(PHash)
    else None
  }

  /** `distance.measure(x, y)` for the chosen metric, as a real number. */
  function Measure(m: Metric, x: seq<string>, y: seq<string>): (r: Option<real>)
    ensures r.None? <==> m == PHash && |x| == 0 && |y| == 0
    ensures r.Some? ==> r.value >= 0.0
    ensures r.Some? ==> (r.value == 0.0 <==> Tokens(x) == Tokens(y))
    ensures m == Hash ==> r == Some((|Tokens(x)| + |Tokens(y)| - 2 * |Tokens(x) * Tokens(y)|) as real)
    ensures m == PHash ==> r == PHashDistance(x, y)
  {
    match m
    case Hash => Some(HashDistance(x, y) as real)
    case PHash => PHashDistance(x, y)
  }

  lemma MeasureSymmetric(m: Metric, x: seq<string>, y: seq<string>)
    ensures Measure(m, x, y) == Measure(m, y, x)
  {
    HashSymmetric(x, y);
  }
}
