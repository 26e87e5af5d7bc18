/** The whole summariser (`Summarize._parse`): pick the metric, normalise
    and cluster the input lines one by one, then sort the clusters for the
    report. Reading the input and printing the report are left out. */
module Summarize {
  import opened Wrappers
  import opened Text
  import opened Equiv
  import opened Distance
  import opened Clusters
  import Report

  /** The command-line options the summariser uses. */
  datatype Options = Options(metric: string, threshold: int, equiv: seq<string>, notEquiv: seq<string>)

  /** Why a run produces no report. */
  datatype Error =
    | InvalidMetric(name: string)   // `RuntimeError('invalid metric ...')`, raised before any line is read
    | DivisionByZero(lineNum: nat)  // `ZeroDivisionError` from the proportional metric on this line
    | NeverTerminates(lineNum: nat) // the replacement loop spins forever on a word of this line

  /** The distance function of a metric. */
  function DistOf(m: Metric): Dist {
    (x: seq<string>, y: seq<string>) => Measure(m, x, y)
  }

  /** The store after line `lineNum`, whose raw text is `raw`. */
  function ProcessLine(c: EquivClasses, dist: Dist, threshold: int,
                       store: Store, lineNum: nat, raw: string): (r: Result<Store, Error>)
    requires Sound(c.search)
    ensures r == Failure(NeverTerminates(lineNum)) <==> NormalizeAll(c, Split(Strip(raw))).None?
    ensures r.Success? ==>
      var words := NormalizeAll(c, Split(Strip(raw))).value;
      Assign(store, dist, threshold, lineNum, Strip(raw), words) == Some(r.value)
    ensures r.Failure? ==> !r.error.InvalidMetric? && r.error.lineNum == lineNum
    ensures r.Success? <==>
      && NormalizeAll(c, Split(Strip(raw))).Some?
      && Assign(store, dist, threshold, lineNum, Strip(raw), NormalizeAll(c, Split(Strip(raw))).value).Some?
  {
    var line := Strip(raw);
    match NormalizeAll(c, Split(line))
    case None => Failure(NeverTerminates(lineNum))
    case Some(words) =>
      match Assign(store, dist, threshold, lineNum, line, words)
      case None => Failure(DivisionByZero(lineNum))
      case Some(s) => Success(s)
  }

  /** The store after all of `lines` (numbered from 1) have been processed
      in order, starting from no clusters. */
  function Run(c: EquivClasses, dist: Dist, threshold: int, lines: seq<string>): (r: Result<Store, Error>)
    requires Sound(c.search)
    ensures r.Success? ==> Inv(r.value, dist, threshold, |lines|) && |r.value| <= |lines|
    ensures r.Failure? ==> !r.error.InvalidMetric? && 1 <= r.error.lineNum <= |lines|
    decreases |lines|
  {
    if |lines| == 0 then
      InvInit(dist, threshold);
      Success(map[])
    else
      var n := |lines| - 1;
      match Run(c, dist, threshold, lines[..n])
      case Failure(e) => Failure(e)
      case Success(store) =>
        var r := ProcessLine(c, dist, threshold, store, n + 1, lines[n]);
        if r.Success? then
          AssignPreservesInv(store, dist, threshold, n, Strip(lines[n]), NormalizeAll(c, Split(Strip(lines[n]))).value);
          r
        else r
  }

  /** One more line: a run over a non-empty input is the run over all but
      its last line, followed by that line. */
  lemma RunStep(c: EquivClasses, dist: Dist, threshold: int, lines: seq<string>)
    requires Sound(c.search) && |lines| > 0
    ensures var n := |lines| - 1;
      var before := Run(c, dist, threshold, lines[..n]);
      Run(c, dist, threshold, lines) ==
        if before.Failure? then before else ProcessLine(c, dist, threshold, before.value, n + 1, lines[n])
  {
  }

  /** A run that fails stops at the line its error names: every earlier
      line went through, and processing that line on the store they built
      gives the error. */
  lemma {:induction false} RunFailsAt(c: EquivClasses, dist: Dist, threshold: int, lines: seq<string>)
    requires Sound(c.search)
    ensures Run(c, dist, threshold, lines).Failure? ==>
      var k := Run(c, dist, threshold, lines).error.lineNum;
      && 1 <= k <= |lines|
      && Run(c, dist, threshold, lines[..k - 1]).Success?
      && ProcessLine(c, dist, threshold, Run(c, dist, threshold, lines[..k - 1]).value, k, lines[k - 1])
         == Run(c, dist, threshold, lines)
    decreases |lines|
  {
    var r := Run(c, dist, threshold, lines);
    if r.Failure? {
      var n := |lines| - 1;
      RunStep(c, dist, threshold, lines);
      var before := Run(c, dist, threshold, lines[..n]);
      if before.Failure? {
        assert r == before;
        RunFailsAt(c, dist, threshold, lines[..n]);
        PrefixOfPrefix(lines, n, before.error.lineNum - 1);
      } else {
        assert r == ProcessLine(c, dist, threshold, before.value, n + 1, lines[n]);
      }
    }
  }

  /** Indexing a prefix of a prefix. */
  lemma PrefixOfPrefix<T>(s: seq<T>, n: nat, k: nat)
    requires k < n <= |s|
    ensures s[..n][..k] == s[..k] && s[..n][k] == s[k]
  {
  }

  /** The entry records its own input line: the number names a line of the
      input, the text is that line stripped, and the words are that text
      split and normalised. */
  ghost predicate FromLine(e: Entry, c: EquivClasses, lines: seq<string>)
    requires Sound(c.search)
  {
    && 1 <= e.lineNum <= |lines|
    && e.line == Strip(lines[e.lineNum - 1])
    && NormalizeAll(c, Split(e.line)) == Some(e.words)
  }

  /** Every entry of the store records its own input line. */
  ghost predicate EntriesFromLines(store: Store, c: EquivClasses, lines: seq<string>)
    requires Sound(c.search)
  {
    forall name, k :: name in store && 0 <= k < |store[name].entries| ==> FromLine(store[name].entries[k], c, lines)
  }

  /** The entries of a successful run are the input's own lines. */
  lemma {:induction false} RunEntries(c: EquivClasses, dist: Dist, threshold: int, lines: seq<string>)
    requires Sound(c.search)
    ensures Run(c, dist, threshold, lines).Success? ==>
      EntriesFromLines(Run(c, dist, threshold, lines).value, c, lines)
    decreases |lines|
  {
    if |lines| > 0 && Run(c, dist, threshold, lines).Success? {
      var n := |lines| - 1;
      RunStep(c, dist, threshold, lines);
      RunEntries(c, dist, threshold, lines[..n]);
      EntriesStep(c, dist, threshold, lines, Run(c, dist, threshold, lines[..n]).value);
    }
  }

  /** Processing the last line keeps every entry tied to its own line. */
  lemma EntriesStep(c: EquivClasses, dist: Dist, threshold: int, lines: seq<string>, store: Store)
    requires Sound(c.search) && |lines| > 0 && WellNamed(store)
    requires EntriesFromLines(store, c, lines[..|lines| - 1])
    ensures var r := ProcessLine(c, dist, threshold, store, |lines|, lines[|lines| - 1]);
      r.Success? ==> EntriesFromLines(r.value, c, lines)
  {
    var n := |lines| - 1;
    var r := ProcessLine(c, dist, threshold, store, n + 1, lines[n]);
    if r.Success? {
      var line := Strip(lines[n]);
      var words := NormalizeAll(c, Split(line)).value;
      var after := r.value;
      AssignEntries(store, dist, threshold, n + 1, line, words);
      forall name, k | name in after && 0 <= k < |after[name].entries|
        ensures FromLine(after[name].entries[k], c, lines)
      {
        if name in store && k < |store[name].entries| {
          assert after[name].entries[k] == store[name].entries[k];
          FromLineExtends(store[name].entries[k], c, lines);
        } else {
          assert after[name].entries[k] == Entry(n + 1, name, line, words);
        }
      }
    }
  }

  /** An entry that records a line of an input still records it once the
      input grows by one line. */
  lemma FromLineExtends(e: Entry, c: EquivClasses, lines: seq<string>)
    requires Sound(c.search) && |lines| > 0
    ensures FromLine(e, c, lines[..|lines| - 1]) ==> FromLine(e, c, lines)
  {
    if FromLine(e, c, lines[..|lines| - 1]) {
      assert lines[..|lines| - 1][e.lineNum - 1] == lines[e.lineNum - 1];
    }
  }

  /** The cluster names in creation order, which is the order Python's
      dictionary iterates them in. */
  function CreationOrder(n: nat): (names: seq<string>)
    ensures |names| == n
    ensures Report.Distinct(names)
    ensures forall i :: 0 <= i < n ==> names[i] == ClusterName(i)
    ensures forall x :: x in names <==> x in Names(n)
  {
    var names := seq(n, i requires 0 <= i => ClusterName(i));
    forall i, j | 0 <= i < j < n
      ensures names[i] != names[j]
    {
      ClusterNameInjective(i, j);
    }
    names
  }

  /** The whole run: the sorted report, or the error that ends it. */
  function Summarize(opts: Options, search: Matcher, lines: seq<string>): (r: Result<seq<Report.Row>, Error>)
    requires Sound(search)
    ensures r == Failure(InvalidMetric(opts.metric)) <==> MetricByName(opts.metric).None?
    ensures r.Success? ==> WellFormedReport(r.value, |lines|)
    ensures r.Success? ==>
      && MetricByName(opts.metric).Some?
      && var run := Run(EquivClasses(opts.equiv, opts.notEquiv, search), DistOf(MetricByName(opts.metric).value), opts.threshold, lines);
         && run.Success?
         && |r.value| == |run.value|
         && forall i :: 0 <= i < |r.value| ==>
              && r.value[i].name in run.value
              && r.value[i].count == |run.value[r.value[i].name].entries|
              && r.value[i].center == run.value[r.value[i].name].center
    ensures MetricByName(opts.metric).Some? ==>
      var run := Run(EquivClasses(opts.equiv, opts.notEquiv, search), DistOf(MetricByName(opts.metric).value), opts.threshold, lines);
      && (r.Success? <==> run.Success?)
      && (run.Failure? ==> r == Failure(run.error))
  {
    match MetricByName(opts.metric)
    case None => Failure(InvalidMetric(opts.metric))
    case Some(m) =>
      var run := Run(EquivClasses(opts.equiv, opts.notEquiv, search), DistOf(m), opts.threshold, lines);
      if run.Failure? then Failure(run.error)
      else Success(ReportOf(run.value, DistOf(m), opts.threshold, |lines|))
  }

  /** The sorted report of the store a run of n lines produced. */
  function ReportOf(store: Store, ghost dist: Dist, ghost threshold: int, ghost n: nat): (rows: seq<Report.Row>)
    requires Inv(store, dist, threshold, n) && |store| <= n
    ensures WellFormedReport(rows, n)
    ensures |rows| == |store|
    ensures forall i :: 0 <= i < |rows| ==>
      && rows[i].name in store
      && rows[i].count == |store[rows[i].name].entries|
      && rows[i].center == store[rows[i].name].center
  {
    CreationOrderKeys(store);
    ReportOfRun(store, dist, threshold, n);
    Report.Report(store, CreationOrder(|store|))
  }

  /** Creation order lists exactly the clusters of a well-named store, once each. */
  lemma CreationOrderKeys(store: Store)
    requires WellNamed(store)
    ensures var order := CreationOrder(|store|);
      && Report.Distinct(order)
      && (forall i :: 0 <= i < |order| ==> order[i] in store)
      && (forall name :: name in store ==> name in order)
  {
    var order := CreationOrder(|store|);
    forall i | 0 <= i < |order|
      ensures order[i] in store
    {
      assert order[i] in Names(|store|);
    }
  }

  /** The report of a run over n lines: at most one cluster per line and
      at least one when there was a line, none of them empty, ordered by
      entry count and then name, and naming each of `cluster_0` ..
      `cluster_<k-1>` exactly once. */
  ghost predicate WellFormedReport(rows: seq<Report.Row>, n: nat) {
    && |rows| <= n
    && (n > 0 ==> |rows| > 0)
    && (forall i :: 0 <= i < |rows| ==> rows[i].count >= 1)
    && (forall i, j :: 0 <= i < j < |rows| ==>
          && rows[i].name != rows[j].name
          && (rows[i].count > rows[j].count || (rows[i].count == rows[j].count && StrLess(rows[i].name, rows[j].name))))
    && (forall x :: x in Names(|rows|) <==> exists i :: 0 <= i < |rows| && rows[i].name == x)
  }

  lemma ReportOfRun(store: Store, dist: Dist, threshold: int, n: nat)
    requires Inv(store, dist, threshold, n) && |store| <= n
    ensures WellFormedReport(Report.Report(store, CreationOrder(|store|)), n)
  {
    CreationOrderKeys(store);
    ReportCounts(store, dist, threshold, n);
  }

  /** Every cluster of a run has an entry, and a run over some line has a cluster. */
  lemma ReportCounts(store: Store, dist: Dist, threshold: int, n: nat)
    requires Inv(store, dist, threshold, n)
    ensures n > 0 ==> |store| > 0
    ensures forall name :: name in store ==> |store[name].entries| >= 1
  {
    if n > 0 {
      assert Recorded(store, 1);
    }
    forall name | name in store
      ensures |store[name].entries| >= 1
    {
      assert ClusterOk(store[name], name, dist, threshold, n);
    }
  }

  /** The proportional metric raises exactly for a line without words when
      some cluster's center has no words either. */
  lemma PHashRaises(store: Store, words: seq<string>)
    ensures Raises(store, DistOf(PHash), words) <==>
      |words| == 0 && exists n :: n in store && |store[n].center| == 0
  {
  }

  /** A line with the same distinct words as a cluster's center joins that
      cluster whenever the threshold is not negative. */
  lemma SameWordsJoin(m: Metric, threshold: int, center: seq<string>, words: seq<string>)
    requires threshold >= 0 && Tokens(center) == Tokens(words)
    requires |center| > 0 || m == Hash
    ensures Close(DistOf(m), threshold, center, words)
  {
    TokensEmpty(center);
    TokensEmpty(words);
  }

  /** With the hash metric and patterns that make progress, a run never
      fails. */
  lemma {:induction false} HashRunSucceeds(c: EquivClasses, threshold: int, lines: seq<string>)
    requires Sound(c.search) && Progress(c)
    ensures Run(c, DistOf(Hash), threshold, lines).Success?
    decreases |lines|
  {
    if |lines| > 0 {
      var n := |lines| - 1;
      HashRunSucceeds(c, threshold, lines[..n]);
      var store := Run(c, DistOf(Hash), threshold, lines[..n]).value;
      var words := Split(Strip(lines[n]));
      assert NormalizeAll(c, words).Some?;
      assert !Raises(store, DistOf(Hash), NormalizeAll(c, words).value);
    }
  }

  /** Processing one more line keeps every existing cluster, with its center
      unchanged and its earlier entries in place, and adds at most one
      cluster. */
  lemma RunExtends(c: EquivClasses, dist: Dist, threshold: int, lines: seq<string>, raw: string)
    requires Sound(c.search)
    ensures Run(c, dist, threshold, lines + [raw]).Success? ==>
      && Run(c, dist, threshold, lines).Success?
      && var before := Run(c, dist, threshold, lines).value;
         var after := Run(c, dist, threshold, lines + [raw]).value;
         && |before| <= |after| <= |before| + 1
         && forall n :: n in before ==>
              && n in after
              && after[n].center == before[n].center
              && before[n].entries <= after[n].entries
  {
    if Run(c, dist, threshold, lines + [raw]).Success? {
      var all := lines + [raw];
      assert all[..|lines|] == lines;
      assert all[|lines|] == raw;
      var before := Run(c, dist, threshold, lines).value;
      FreshName(before);
    }
  }

}
