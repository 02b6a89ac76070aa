/** Python's `collections.Counter` of a sequence and its `most_common(n)`: the counter holds
    each distinct element with its number of occurrences, in the order of first occurrence;
    `most_common(n)` lists the `n` most frequent of them by falling count, elements with equal
    counts in the counter's order (it is `sorted(items, key=count, reverse=True)[:n]`, and
    Python's sort is stable). */
module Counter {
  import opened Text

  /** `Counter(s).items()`. */
  function Tally<T(==)>(s: seq<T>): (r: seq<(T, nat)>)
    ensures |r| == |Distinct(s)|
  {
    var d := Distinct(s);
    seq(|d|, i requires 0 <= i < |d| => (d[i], CountOf(s, d[i])))
  }

  /** `es` lists each distinct element of `s` exactly once, with its number of occurrences. */
  predicate Describes<T(==)>(es: seq<(T, nat)>, s: seq<T>)
  {
    (forall i | 0 <= i < |es| :: es[i].0 in s && es[i].1 == CountOf(s, es[i].0))
    && (forall i, j | 0 <= i < j < |es| :: es[i].0 != es[j].0)
    && (forall x | x in s :: exists i | 0 <= i < |es| :: es[i].0 == x)
  }

  /** The sort key: larger counts first. */
  function NegCount<T>(e: (T, nat)): int { 0 - e.1 as int }

  /** `Counter(s).most_common(n)`. */
  function MostCommon<T(==)>(s: seq<T>, n: nat): seq<(T, nat)>
  {
    var sorted := SortBy(Tally(s), NegCount);
    if n <= |sorted| then sorted[..n] else sorted
  }

  /** The counter lists every distinct element once with its count, in first-occurrence order. */
  lemma TallyDescribes<T>(s: seq<T>)
    ensures Describes(Tally(s), s)
    ensures forall i | 0 <= i < |Tally(s)| :: Tally(s)[i].0 == Distinct(s)[i]
  {
    var es := Tally(s);
    var d := Distinct(s);
    forall x | x in s ensures exists i | 0 <= i < |es| :: es[i].0 == x {
      var m :| 0 <= m < |s| && s[m] == x;
      assert x in d;
      var i :| 0 <= i < |d| && d[i] == x;
      assert es[i].0 == x;
    }
  }

  /** A rearrangement of a description is a description. */
  lemma DescribesPerm<T>(a: seq<(T, nat)>, b: seq<(T, nat)>, s: seq<T>)
    requires Describes(a, s) && multiset(a) == multiset(b)
    ensures Describes(b, s)
  {
    assert NoDuplicates(a) by {
      forall i, j | 0 <= i < j < |a| ensures a[i] != a[j] {
        assert a[i].0 != a[j].0;
      }
    }
    PermNoDuplicates(a, b);
    forall i | 0 <= i < |b| ensures exists m | 0 <= m < |a| :: a[m] == b[i] {
      assert b[i] in multiset(a);
    }
    forall i, j | 0 <= i < j < |b| ensures b[i].0 != b[j].0 {
      var m1 :| 0 <= m1 < |a| && a[m1] == b[i];
      var m2 :| 0 <= m2 < |a| && a[m2] == b[j];
      assert m1 == m2 || a[m1].0 != a[m2].0;
    }
    forall x | x in s ensures exists i | 0 <= i < |b| :: b[i].0 == x {
      var m :| 0 <= m < |a| && a[m].0 == x;
      assert a[m] in multiset(b);
      var i :| 0 <= i < |b| && b[i] == a[m];
    }
  }

  /** The counter sorted by falling count still describes `s`. */
  lemma SortedDescribes<T>(s: seq<T>)
    ensures var sorted := SortBy(Tally(s), NegCount);
      Describes(sorted, s) && Ascending(sorted, NegCount) && |sorted| == |Distinct(s)|
  {
    var es := Tally(s);
    var sorted := SortBy(es, NegCount);
    TallyDescribes(s);
    DescribesPerm(es, sorted, s);
    SortByAscending(es, NegCount);
    assert |sorted| == |multiset(sorted)| == |multiset(es)| == |es|;
  }

  /** `most_common(n)` has `n` entries, or one per distinct element when there are fewer. */
  lemma MostCommonSize<T>(s: seq<T>, n: nat)
    ensures |MostCommon(s, n)| == if n <= |Distinct(s)| then n else |Distinct(s)|
  {
    SortedDescribes(s);
  }

  /** The entries of `most_common(n)` are distinct elements of `s`, each with its number of
      occurrences, by falling count. */
  lemma MostCommonSpec<T>(s: seq<T>, n: nat)
    ensures var r := MostCommon(s, n);
      (forall i | 0 <= i < |r| :: r[i].0 in s && r[i].1 == CountOf(s, r[i].0))
      && (forall i, j | 0 <= i < j < |r| :: r[i].0 != r[j].0 && r[i].1 >= r[j].1)
  {
    MostCommonCounts(s, n);
    MostCommonOrder(s, n);
  }

  lemma MostCommonCounts<T>(s: seq<T>, n: nat)
    ensures var r := MostCommon(s, n);
      forall i | 0 <= i < |r| :: r[i].0 in s && r[i].1 == CountOf(s, r[i].0)
  {
    var sorted := SortBy(Tally(s), NegCount);
    var r := MostCommon(s, n);
    SortedDescribes(s);
    forall i | 0 <= i < |r| ensures r[i].0 in s && r[i].1 == CountOf(s, r[i].0) {
      assert r[i] == sorted[i];
    }
  }

  lemma MostCommonOrder<T>(s: seq<T>, n: nat)
    ensures var r := MostCommon(s, n);
      forall i, j | 0 <= i < j < |r| :: r[i].0 != r[j].0 && r[i].1 >= r[j].1
  {
    var sorted := SortBy(Tally(s), NegCount);
    var r := MostCommon(s, n);
    SortedDescribes(s);
    forall i, j | 0 <= i < j < |r| ensures r[i].0 != r[j].0 && r[i].1 >= r[j].1 {
      assert r[i] == sorted[i] && r[j] == sorted[j];
      assert NegCount(sorted[i]) <= NegCount(sorted[j]);
    }
  }

  /** An element of `s` left out of `most_common(n)` occurs no more often than any element
      listed. */
  lemma MostCommonCovers<T>(s: seq<T>, n: nat, x: T)
    requires x in s
    ensures var r := MostCommon(s, n);
      (exists i | 0 <= i < |r| :: r[i].0 == x) || (forall i | 0 <= i < |r| :: CountOf(s, x) <= r[i].1)
  {
    var sorted := SortBy(Tally(s), NegCount);
    var r := MostCommon(s, n);
    SortedDescribes(s);
    var m :| 0 <= m < |sorted| && sorted[m].0 == x;
    if m < |r| {
      assert r[m] == sorted[m];
    } else {
      forall i | 0 <= i < |r| ensures CountOf(s, x) <= r[i].1 {
        assert r[i] == sorted[i];
        assert NegCount(sorted[i]) <= NegCount(sorted[m]);
      }
    }
  }

  /** Elements with the same count are listed in the order of their first occurrence: the
      entries of `most_common(n)` whose sort key is `k` (those counting `-k`) begin the
      counter's own list of such entries. */
  lemma MostCommonTies<T>(s: seq<T>, n: nat, k: int)
    ensures Filter(MostCommon(s, n), KeyIs(NegCount, k)) <= Filter(Tally(s), KeyIs(NegCount, k))
  {
    var p := KeyIs(NegCount, k);
    var es := Tally(s);
    var sorted := SortBy(es, NegCount);
    SortByStable(es, NegCount, k);
    if n <= |sorted| {
      var front, back := sorted[..n], sorted[n..];
      assert sorted == front + back;
      FilterAppend(front, back, p);
    }
  }
}
