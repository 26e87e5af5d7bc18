/** The cluster store and the greedy, non-recentering assignment of one
    line (the body of the per-line loop in `Summarize._parse`). */
module Clusters {
  import opened Wrappers
  import Numerals

  /** One input line as recorded in a cluster. */
  datatype Entry = Entry(lineNum: nat, cluster: string, line: string, words: seq<string>)

  /** A cluster: the words of the line that founded it, and its entries in
      input order. */
  datatype Cluster = Cluster(center: seq<string>, entries: seq<Entry>)

  /** The `clusters` dictionary, keyed by cluster name. */
  type Store = map<string, Cluster>

  /** `distance.measure` of whichever metric was chosen; None where it raises. */
  type Dist = (seq<string>, seq<string>) -> Option<real>

  /** `'cluster_{}'.format(n)`. */
  function ClusterName(n: nat): string {
    "cluster_" + Numerals.Decimal(n)
  }

  lemma ClusterNameInjective(i: nat, j: nat)
    ensures ClusterName(i) == ClusterName(j) <==> i == j
  {
    if ClusterName(i) == ClusterName(j) {
      assert Numerals.Decimal(i) == ClusterName(i)[8..];
      assert Numerals.Decimal(j) == ClusterName(j)[8..];
      Numerals.DecimalInjective(i, j);
    }
  }

  /** The names of the first `n` clusters created. */
  function Names(n: nat): set<string> {
    set i | 0 <= i < n :: ClusterName(i)
  }

  /** The clusters are exactly `cluster_0` .. `cluster_<n-1>`. */
  ghost predicate WellNamed(store: Store) {
    store.Keys == Names(|store|)
  }

  /** A line with `words` belongs to a cluster with `center`:
      `distance.measure(center, words) <= threshold`. */
  predicate Close(m: Dist, threshold: int, center: seq<string>, words: seq<string>) {
    var d := m(center, words);
    d.Some? && d.value <= threshold as real
  }

  /** Measuring `words` against some cluster raises (division by zero). */
  predicate Raises(store: Store, m: Dist, words: seq<string>) {
    exists n :: n in store && m(store[n].center, words).None?
  }

  /** Some cluster is close enough to take the line. */
  predicate AnyClose(store: Store, m: Dist, threshold: int, words: seq<string>) {
    exists n :: n in store && Close(m, threshold, store[n].center, words)
  }

  /** The cluster after the line has been offered to it. */
  function Offer(c: Cluster, name: string, m: Dist, threshold: int,
                 lineNum: nat, line: string, words: seq<string>): Cluster
  {
    if Close(m, threshold, c.center, words)
    then Cluster(c.center, c.entries + [Entry(lineNum, name, line, words)])
    else c
  }

  /** The store after line `lineNum` (stripped text `line`, normalised words
      `words`) has been processed; None where `measure` raises. */
  function Assign(store: Store, m: Dist, threshold: int,
                  lineNum: nat, line: string, words: seq<string>): (r: Option<Store>)
    ensures r.None? <==> Raises(store, m, words)
    ensures r.Some? ==> store.Keys <= r.value.Keys && |store| <= |r.value| <= |store| + 1
    ensures r.Some? && AnyClose(store, m, threshold, words) ==> r.value.Keys == store.Keys
    ensures r.Some? && !AnyClose(store, m, threshold, words) ==>
      var name := ClusterName(|store|);
      && r.value.Keys == store.Keys + {name}
      && r.value[name] == Cluster(words, [Entry(lineNum, name, line, words)])
    ensures r.Some? ==> forall n :: n in store && (n != ClusterName(|store|) || AnyClose(store, m, threshold, words)) ==>
      && r.value[n].center == store[n].center
      && r.value[n].entries == store[n].entries +
           (if Close(m, threshold, store[n].center, words) then [Entry(lineNum, n, line, words)] else [])
  {
    if Raises(store, m, words) then None
    else if AnyClose(store, m, threshold, words) then
      JoinAll(store, m, threshold, lineNum, line, words);
      Some(OfferAll(store, m, threshold, lineNum, line, words))
    else
      NewCluster(store, m, threshold, lineNum, line, words);
      var name := ClusterName(|store|);
      Some(store[name := Cluster(words, [Entry(lineNum, name, line, words)])])
  }

  /** A line that some cluster takes joins every close cluster and founds none. */
  lemma JoinAll(store: Store, m: Dist, threshold: int,
                lineNum: nat, line: string, words: seq<string>)
    ensures var r := OfferAll(store, m, threshold, lineNum, line, words);
      && r.Keys == store.Keys && |r| == |store|
      && forall n :: n in store ==>
           && r[n].center == store[n].center
           && r[n].entries == store[n].entries +
                (if Close(m, threshold, store[n].center, words) then [Entry(lineNum, n, line, words)] else [])
  {
    var r := OfferAll(store, m, threshold, lineNum, line, words);
    forall n | n in store
      ensures r[n].entries == store[n].entries +
                (if Close(m, threshold, store[n].center, words) then [Entry(lineNum, n, line, words)] else [])
    {
      assert store[n].entries + [] == store[n].entries;
    }
  }

  /** A line no cluster takes founds `cluster_<count>` and leaves the others alone. */
  lemma NewCluster(store: Store, m: Dist, threshold: int,
                   lineNum: nat, line: string, words: seq<string>)
    requires !AnyClose(store, m, threshold, words)
    ensures var name := ClusterName(|store|);
      var r := store[name := Cluster(words, [Entry(lineNum, name, line, words)])];
      && r.Keys == store.Keys + {name}
      && |store| <= |r| <= |store| + 1
      && forall n :: n in store && n != name ==>
           && r[n].center == store[n].center
           && r[n].entries == store[n].entries +
                (if Close(m, threshold, store[n].center, words) then [Entry(lineNum, n, line, words)] else [])
  {
    var name := ClusterName(|store|);
    var r := store[name := Cluster(words, [Entry(lineNum, name, line, words)])];
    assert r.Keys == store.Keys + {name};
    forall n | n in store && n != name
      ensures r[n].entries == store[n].entries +
                (if Close(m, threshold, store[n].center, words) then [Entry(lineNum, n, line, words)] else [])
    {
      assert !Close(m, threshold, store[n].center, words);
      assert store[n].entries + [] == store[n].entries;
    }
  }

  /** Every cluster after the line has been offered to it. */
  function OfferAll(store: Store, m: Dist, threshold: int,
                    lineNum: nat, line: string, words: seq<string>): (r: Store)
    ensures r.Keys == store.Keys && |r| == |store|
    ensures forall n :: n in store ==> r[n] == Offer(store[n], n, m, threshold, lineNum, line, words)
  {
    var r := map n | n in store :: Offer(store[n], n, m, threshold, lineNum, line, words);
    assert r.Keys == store.Keys;
    r
  }

  /** Assigning a line touches no entry the store already held: each old
      cluster keeps its entries and gains at most this line's, and a new
      cluster holds only this line. */
  lemma AssignEntries(store: Store, m: Dist, threshold: int,
                      lineNum: nat, line: string, words: seq<string>)
    requires WellNamed(store)
    ensures Assign(store, m, threshold, lineNum, line, words).Some? ==>
      var r := Assign(store, m, threshold, lineNum, line, words).value;
      forall name :: name in r ==>
        || (name in store && r[name].entries == store[name].entries)
        || (name in store && r[name].entries == store[name].entries + [Entry(lineNum, name, line, words)])
        || (name !in store && r[name].entries == [Entry(lineNum, name, line, words)])
  {
    FreshName(store);
  }

  lemma FreshName(store: Store)
    requires WellNamed(store)
    ensures ClusterName(|store|) !in store
  {
    if ClusterName(|store|) in store {
      var i :| 0 <= i < |store| && ClusterName(i) == ClusterName(|store|);
      ClusterNameInjective(i, |store|);
    }
  }

  lemma NamesSucc(n: nat)
    ensures Names(n + 1) == Names(n) + {ClusterName(n)}
  {
    forall x | x in Names(n + 1)
      ensures x in Names(n) + {ClusterName(n)}
    {
      var i :| 0 <= i < n + 1 && x == ClusterName(i);
      if i < n {
        assert x in Names(n);
      }
    }
  }

  /** A line founds a new cluster exactly when no existing center is close
      enough; the new cluster is named after the count before it, so names
      stay `cluster_0`, `cluster_1`, ... in creation order. */
  lemma AssignNaming(store: Store, m: Dist, threshold: int,
                     lineNum: nat, line: string, words: seq<string>)
    requires WellNamed(store)
    requires Assign(store, m, threshold, lineNum, line, words).Some?
    ensures var r := Assign(store, m, threshold, lineNum, line, words).value;
      && WellNamed(r)
      && (|r| == |store| + 1 <==> !AnyClose(store, m, threshold, words))
  {
    var r := Assign(store, m, threshold, lineNum, line, words).value;
    FreshName(store);
    if AnyClose(store, m, threshold, words) {
      assert r.Keys == store.Keys;
      assert |r| == |store|;
    } else {
      NamesSucc(|store|);
      assert r.Keys == store.Keys + {ClusterName(|store|)};
      assert |r.Keys| == |store.Keys| + 1;
    }
  }

  // ---------------------------------------------------------------------------
  // The store across a whole run

  /** What a cluster satisfies once lines 1..n have been processed: it was
      founded by a line whose words are its center, it holds its own
      entries in input order, and every later member was close to the
      center when it arrived. */
  ghost predicate ClusterOk(c: Cluster, name: string, m: Dist, threshold: int, n: nat) {
    && |c.entries| > 0
    && c.entries[0].words == c.center
    && (forall k :: 0 <= k < |c.entries| ==> c.entries[k].cluster == name && 1 <= c.entries[k].lineNum <= n)
    && (forall k :: 1 <= k < |c.entries| ==> Close(m, threshold, c.center, c.entries[k].words))
    && (forall k, l :: 0 <= k < l < |c.entries| ==> c.entries[k].lineNum < c.entries[l].lineNum)
  }

  /** Line `ln` is a member of some cluster. */
  ghost predicate Recorded(store: Store, ln: nat) {
    exists name, k :: name in store && 0 <= k < |store[name].entries| && store[name].entries[k].lineNum == ln
  }

  ghost predicate Inv(store: Store, m: Dist, threshold: int, n: nat) {
    && WellNamed(store)
    && (forall name :: name in store ==> ClusterOk(store[name], name, m, threshold, n))
    && (forall ln :: 1 <= ln <= n ==> Recorded(store, ln))
  }

  lemma InvInit(m: Dist, threshold: int)
    ensures Inv(map[], m, threshold, 0)
  {
    assert Names(0) == {};
  }

  lemma ClusterOkStep(c: Cluster, name: string, m: Dist, threshold: int, n: nat,
                      line: string, words: seq<string>)
    requires ClusterOk(c, name, m, threshold, n)
    ensures ClusterOk(Offer(c, name, m, threshold, n + 1, line, words), name, m, threshold, n + 1)
  {
  }

  /** Processing line n + 1 keeps the invariant of a run. */
  lemma AssignPreservesInv(store: Store, m: Dist, threshold: int, n: nat,
                           line: string, words: seq<string>)
    requires Inv(store, m, threshold, n)
    requires Assign(store, m, threshold, n + 1, line, words).Some?
    ensures Inv(Assign(store, m, threshold, n + 1, line, words).value, m, threshold, n + 1)
  {
    AssignNaming(store, m, threshold, n + 1, line, words);
    AssignClustersOk(store, m, threshold, n, line, words);
    AssignRecords(store, m, threshold, n, line, words);
  }

  lemma AssignClustersOk(store: Store, m: Dist, threshold: int, n: nat,
                         line: string, words: seq<string>)
    requires Inv(store, m, threshold, n)
    requires Assign(store, m, threshold, n + 1, line, words).Some?
    ensures var r := Assign(store, m, threshold, n + 1, line, words).value;
      forall name :: name in r ==> ClusterOk(r[name], name, m, threshold, n + 1)
  {
    var r := Assign(store, m, threshold, n + 1, line, words).value;
    FreshName(store);
    forall name | name in r
      ensures ClusterOk(r[name], name, m, threshold, n + 1)
    {
      if name in store {
        assert r[name] == Offer(store[name], name, m, threshold, n + 1, line, words);
        ClusterOkStep(store[name], name, m, threshold, n, line, words);
      }
    }
  }

  lemma AssignRecords(store: Store, m: Dist, threshold: int, n: nat,
                      line: string, words: seq<string>)
    requires Inv(store, m, threshold, n)
    requires Assign(store, m, threshold, n + 1, line, words).Some?
    ensures var r := Assign(store, m, threshold, n + 1, line, words).value;
      forall ln :: 1 <= ln <= n + 1 ==> Recorded(r, ln)
  {
    var r := Assign(store, m, threshold, n + 1, line, words).value;
    FreshName(store);
    forall ln | 1 <= ln <= n + 1
      ensures Recorded(r, ln)
    {
      if ln <= n {
        assert Recorded(store, ln);
        var name, k :| name in store && 0 <= k < |store[name].entries| && store[name].entries[k].lineNum == ln;
        assert r[name].entries[k] == store[name].entries[k];
      } else if AnyClose(store, m, threshold, words) {
        var name :| name in store && Close(m, threshold, store[name].center, words);
        var k := |store[name].entries|;
        assert r[name].entries[k].lineNum == n + 1;
      } else {
        assert r[ClusterName(|store|)].entries[0].lineNum == n + 1;
      }
    }
  }
}
