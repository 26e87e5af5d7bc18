/** The final report: clusters sorted by `(-len(entries), name)`. */
module Report {
  import opened Text
  import opened Clusters
  import Numerals

  /** Number of entries of a cluster (0 for a name the store lacks). */
  function Count(store: Store, name: string): nat {
    if name in store then |store[name].entries| else 0
  }

  /** The sort key `(-len(entries), name)` of `a` is smaller than that of `b`. */
  predicate Before(store: Store, a: string, b: string) {
    Count(store, a) > Count(store, b) || (Count(store, a) == Count(store, b) && StrLess(a, b))
  }

  lemma BeforeIrreflexive(store: Store, a: string)
    ensures !Before(store, a, a)
  {
    StrLessIrreflexive(a);
  }

  lemma BeforeTransitive(store: Store, a: string, b: string, c: string)
    requires Before(store, a, b) && Before(store, b, c)
    ensures Before(store, a, c)
  {
    if StrLess(a, b) && StrLess(b, c) {
      StrLessTransitive(a, b, c);
    }
  }

  lemma BeforeTotal(store: Store, a: string, b: string)
    requires a != b
    ensures Before(store, a, b) || Before(store, b, a)
  {
    StrLessTotal(a, b);
  }

  predicate Sorted(store: Store, s: seq<string>) {
    forall i, j :: 0 <= i < j < |s| ==> Before(store, s[i], s[j])
  }

  predicate Distinct(s: seq<string>) {
    forall i, j :: 0 <= i < j < |s| ==> s[i] != s[j]
  }

  lemma SortedDistinct(store: Store, s: seq<string>)
    requires Sorted(store, s)
    ensures Distinct(s)
  {
    forall i, j | 0 <= i < j < |s|
      ensures s[i] != s[j]
    {
      BeforeIrreflexive(store, s[i]);
    }
  }

  /** Inserts `x` into a sorted list. */
  function Insert(store: Store, x: string, s: seq<string>): (r: seq<string>)
    requires Sorted(store, s) && x !in s
    ensures multiset(r) == multiset(s) + multiset{x}
    ensures Sorted(store, r)
    decreases |s|
  {
    if |s| == 0 then [x]
    else if Before(store, s[0], x) then
      var t := Insert(store, x, s[1..]);
      assert s == [s[0]] + s[1..];
      HeadPrecedes(store, s, x, t);
      SortedCons(store, s[0], t);
      [s[0]] + t
    else
      BeforeTotal(store, x, s[0]);
      forall j | 0 <= j < |s|
        ensures Before(store, x, s[j])
      {
        if j > 0 {
          BeforeTransitive(store, x, s[0], s[j]);
        }
      }
      SortedCons(store, x, s);
      [x] + s
  }

  /** Putting in front of a sorted list a name that precedes all of it keeps it sorted. */
  lemma SortedCons(store: Store, x: string, t: seq<string>)
    requires Sorted(store, t)
    requires forall j :: 0 <= j < |t| ==> Before(store, x, t[j])
    ensures Sorted(store, [x] + t)
  {
    var r := [x] + t;
    forall i, j | 0 <= i < j < |r|
      ensures Before(store, r[i], r[j])
    {
      assert r[j] == t[j - 1];
      if i > 0 {
        assert r[i] == t[i - 1];
      }
    }
  }

  /** The head of a sorted list precedes everything in its tail with `x` added. */
  lemma HeadPrecedes(store: Store, s: seq<string>, x: string, t: seq<string>)
    requires Sorted(store, s) && |s| > 0 && Before(store, s[0], x)
    requires multiset(t) == multiset(s[1..]) + multiset{x}
    ensures forall j :: 0 <= j < |t| ==> Before(store, s[0], t[j])
  {
    forall j | 0 <= j < |t|
      ensures Before(store, s[0], t[j])
    {
      assert t[j] in multiset(t);
      if t[j] != x {
        assert t[j] in multiset(s[1..]);
        var k :| 0 <= k < |s[1..]| && s[1..][k] == t[j];
        assert s[k + 1] == t[j];
      }
    }
  }

  /** `sorted(...)` on the keys: the same names, ordered by the sort key. */
  function Sort(store: Store, names: seq<string>): (r: seq<string>)
    requires Distinct(names)
    ensures multiset(r) == multiset(names)
    ensures Sorted(store, r)
    decreases |names|
  {
    if |names| == 0 then []
    else
      var t := Sort(store, names[..|names| - 1]);
      LastFresh(names);
      Insert(store, names[|names| - 1], t)
  }

  /** The last of distinct names is not among the others. */
  lemma LastFresh(names: seq<string>)
    requires Distinct(names) && |names| > 0
    ensures names == names[..|names| - 1] + [names[|names| - 1]]
    ensures names[|names| - 1] !in multiset(names[..|names| - 1])
  {
    var init := names[..|names| - 1];
    forall i | 0 <= i < |init|
      ensures init[i] != names[|names| - 1]
    {
    }
  }

  /** The first element of a sorted list is the least of its elements. */
  lemma SortedHead(store: Store, a: seq<string>, b: seq<string>)
    requires Sorted(store, a) && Sorted(store, b) && multiset(a) == multiset(b) && |a| > 0
    ensures |b| > 0 && a[0] == b[0]
  {
    assert a[0] in multiset(b);
    var j :| 0 <= j < |b| && b[j] == a[0];
    assert b[0] in multiset(a);
    var i :| 0 <= i < |a| && a[i] == b[0];
    if i > 0 && j > 0 {
      assert Before(store, a[0], b[0]);
      assert Before(store, b[0], a[0]);
      BeforeTransitive(store, a[0], b[0], a[0]);
      BeforeIrreflexive(store, a[0]);
    }
  }

  /** Only one order lists a given set of names sorted. */
  lemma {:induction false} SortedUnique(store: Store, a: seq<string>, b: seq<string>)
    requires Sorted(store, a) && Sorted(store, b) && multiset(a) == multiset(b)
    ensures a == b
    decreases |a|
  {
    if |a| > 0 {
      SortedHead(store, a, b);
      assert a == [a[0]] + a[1..] && b == [b[0]] + b[1..];
      assert multiset(a[1..]) == multiset(a) - multiset{a[0]};
      assert multiset(b[1..]) == multiset(b) - multiset{b[0]};
      SortedUnique(store, a[1..], b[1..]);
    } else {
      assert |b| == |multiset(b)| == 0;
    }
  }

  /** One line of the report: name, number of entries, center. */
  datatype Row = Row(name: string, count: nat, center: seq<string>)

  /** The report for a store whose keys, in dictionary order, are `order`. */
  function Report(store: Store, order: seq<string>): (rows: seq<Row>)
    requires Distinct(order) && forall i :: 0 <= i < |order| ==> order[i] in store
    requires forall name :: name in store ==> name in order
    ensures |rows| == |order|
    ensures forall name :: name in store <==> exists i :: 0 <= i < |rows| && rows[i].name == name
    ensures forall i, j :: 0 <= i < j < |rows| ==> rows[i].name != rows[j].name
    ensures forall i :: 0 <= i < |rows| ==>
      rows[i].name in store
      && rows[i].count == |store[rows[i].name].entries|
      && rows[i].center == store[rows[i].name].center
    ensures forall i, j :: 0 <= i < j < |rows| ==>
      rows[i].count > rows[j].count || (rows[i].count == rows[j].count && StrLess(rows[i].name, rows[j].name))
  {
    ReportFacts(store, order);
    Rows(store, Sort(store, order))
  }

  /** The rows of the sorted names make a report. */
  lemma ReportFacts(store: Store, order: seq<string>)
    requires Distinct(order) && forall i :: 0 <= i < |order| ==> order[i] in store
    requires forall name :: name in store ==> name in order
    ensures Sorted(store, Sort(store, order))
    ensures var sorted := Sort(store, order);
      && (forall i :: 0 <= i < |sorted| ==> sorted[i] in store)
      && |Rows(store, sorted)| == |order|
    ensures var rows := Rows(store, Sort(store, order));
      && (forall name :: name in store <==> exists i :: 0 <= i < |rows| && rows[i].name == name)
      && (forall i, j :: 0 <= i < j < |rows| ==> rows[i].name != rows[j].name)
      && (forall i :: 0 <= i < |rows| ==>
            rows[i].name in store
            && rows[i].count == |store[rows[i].name].entries|
            && rows[i].center == store[rows[i].name].center)
      && (forall i, j :: 0 <= i < j < |rows| ==>
            rows[i].count > rows[j].count || (rows[i].count == rows[j].count && StrLess(rows[i].name, rows[j].name)))
  {
    SortedNames(store, order);
    RowsReport(store, Sort(store, order));
  }

  lemma RowsReport(store: Store, sorted: seq<string>)
    requires forall i :: 0 <= i < |sorted| ==> sorted[i] in store
    requires forall name :: name in store ==> name in sorted
    requires Sorted(store, sorted)
    ensures var rows := Rows(store, sorted);
      && (forall name :: name in store <==> exists i :: 0 <= i < |rows| && rows[i].name == name)
      && (forall i, j :: 0 <= i < j < |rows| ==> rows[i].name != rows[j].name)
      && (forall i :: 0 <= i < |rows| ==>
            rows[i].name in store
            && rows[i].count == |store[rows[i].name].entries|
            && rows[i].center == store[rows[i].name].center)
      && (forall i, j :: 0 <= i < j < |rows| ==>
            rows[i].count > rows[j].count || (rows[i].count == rows[j].count && StrLess(rows[i].name, rows[j].name)))
  {
    RowsOrdered(store, sorted);
    RowsCover(store, sorted);
  }

  lemma RowsCover(store: Store, names: seq<string>)
    requires forall i :: 0 <= i < |names| ==> names[i] in store
    requires forall name :: name in store ==> name in names
    ensures var rows := Rows(store, names);
      forall name :: name in store <==> exists i :: 0 <= i < |rows| && rows[i].name == name
  {
    var rows := Rows(store, names);
    forall name | name in store
      ensures exists i :: 0 <= i < |rows| && rows[i].name == name
    {
      var i :| 0 <= i < |names| && names[i] == name;
      assert rows[i].name == name;
    }
  }

  lemma RowsOrdered(store: Store, names: seq<string>)
    requires forall i :: 0 <= i < |names| ==> names[i] in store
    requires Sorted(store, names)
    ensures var rows := Rows(store, names);
      forall i, j :: 0 <= i < j < |rows| ==>
        && rows[i].name != rows[j].name
        && (rows[i].count > rows[j].count || (rows[i].count == rows[j].count && StrLess(rows[i].name, rows[j].name)))
  {
    var rows := Rows(store, names);
    forall i, j | 0 <= i < j < |rows|
      ensures rows[i].name != rows[j].name
      ensures rows[i].count > rows[j].count || (rows[i].count == rows[j].count && StrLess(rows[i].name, rows[j].name))
    {
      assert Before(store, names[i], names[j]);
      BeforeIrreflexive(store, names[i]);
    }
  }

  function Rows(store: Store, names: seq<string>): (rows: seq<Row>)
    requires forall i :: 0 <= i < |names| ==> names[i] in store
    ensures |rows| == |names|
    ensures forall i :: 0 <= i < |names| ==>
      rows[i] == Row(names[i], |store[names[i]].entries|, store[names[i]].center)
  {
    seq(|names|, i requires 0 <= i < |names| =>
      Row(names[i], |store[names[i]].entries|, store[names[i]].center))
  }

  lemma SortedNames(store: Store, order: seq<string>)
    requires Distinct(order) && forall i :: 0 <= i < |order| ==> order[i] in store
    requires forall name :: name in store ==> name in order
    ensures var sorted := Sort(store, order);
      && |sorted| == |order|
      && Distinct(sorted)
      && (forall i :: 0 <= i < |sorted| ==> sorted[i] in store)
      && (forall name :: name in store ==> name in sorted)
  {
    var sorted := Sort(store, order);
    SortedDistinct(store, sorted);
    assert |sorted| == |order| by {
      assert |multiset(sorted)| == |multiset(order)|;
    }
    forall name | name in store
      ensures name in sorted
    {
      assert name in multiset(order);
    }
    forall i | 0 <= i < |sorted|
      ensures sorted[i] in store
    {
      assert sorted[i] in multiset(order);
    }
  }

  /** The report does not depend on the dictionary's iteration order. */
  lemma ReportIndependentOfOrder(store: Store, o1: seq<string>, o2: seq<string>)
    requires Distinct(o1) && forall i :: 0 <= i < |o1| ==> o1[i] in store
    requires forall name :: name in store ==> name in o1
    requires Distinct(o2) && forall i :: 0 <= i < |o2| ==> o2[i] in store
    requires forall name :: name in store ==> name in o2
    ensures Report(store, o1) == Report(store, o2)
  {
    var s1, s2 := Sort(store, o1), Sort(store, o2);
    assert multiset(o1) == multiset(o2) by {
      DistinctMultiset(o1, o2);
    }
    SortedUnique(store, s1, s2);
  }

  lemma DistinctMultiset(a: seq<string>, b: seq<string>)
    requires Distinct(a) && Distinct(b)
    requires forall x :: x in a <==> x in b
    ensures multiset(a) == multiset(b)
  {
    forall x
      ensures multiset(a)[x] == multiset(b)[x]
    {
      DistinctCount(a, x);
      DistinctCount(b, x);
    }
  }

  lemma {:induction false} DistinctCount(a: seq<string>, x: string)
    requires Distinct(a)
    ensures multiset(a)[x] == if x in a then 1 else 0
    decreases |a|
  {
    if |a| > 0 {
      var t := a[..|a| - 1];
      assert a == t + [a[|a| - 1]];
      assert Distinct(t);
      DistinctCount(t, x);
      assert a[|a| - 1] !in t;
    }
  }

  /** Names compare as strings, so `cluster_10` sorts before `cluster_2`
      when the two clusters have the same number of entries. */
  lemma NameOrderExample()
    ensures StrLess(ClusterName(10), ClusterName(2))
  {
    assert Numerals.Decimal(10) == "10";
    assert Numerals.Decimal(2) == "2";
    StrLessCommonPrefix("cluster_", "10", "2");
  }
}
