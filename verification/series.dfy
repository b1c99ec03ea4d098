/**
 * The pandas Series operations the dashboard applies to one column of the
 * call table: `unique`, `value_counts`, `idxmax`, `nlargest`,
 * `groupby(...).count()` and `head`. A column is a `seq<T>`; a counted
 * Series (the result of `value_counts` or of a group count) is a sequence of
 * (label, count) pairs, in the Series' own order.
 */
module Series {

  /** The exceptions pandas raises in the calls the dashboard makes. */
  datatype Error =
    | EmptySequence               // idxmax on an empty Series
    | SampleLargerThanPopulation  // sample(n) without replacement, n > rows

  datatype Result<T> = Ok(value: T) | Err(error: Error)

  ghost predicate NoDup<T>(s: seq<T>)
  {
    forall i, j :: 0 <= i < j < |s| ==> s[i] != s[j]
  }

  /** Number of times `x` occurs in column `s`. */
  function Occurrences<T(==,!new)>(s: seq<T>, x: T): nat
  {
    multiset(s)[x]
  }

  // ---------------------------------------------------------------------
  // unique(): distinct values in order of first appearance
  // ---------------------------------------------------------------------

  function Unique<T(==,!new)>(s: seq<T>): (u: seq<T>)
    ensures NoDup(u)
    ensures forall x :: x in u <==> x in s
  {
    if |s| == 0 then []
    else
      var init, last := s[..|s| - 1], s[|s| - 1];
      assert s == init + [last];
      var u := Unique(init);
      if last in u then u else u + [last]
  }

  /** Appending a value to a column extends its `unique()` list exactly when the value is new. */
  lemma UniqueSnoc<T(!new)>(s: seq<T>, x: T)
    ensures Unique(s + [x]) == if x in Unique(s) then Unique(s) else Unique(s) + [x]
  {
    assert (s + [x])[..|s|] == s;
  }

  /** Index of the first occurrence of `x` in `s`. */
  function FirstIndex<T(==,!new)>(s: seq<T>, x: T): (i: nat)
    requires x in s
    ensures i < |s| && s[i] == x && x !in s[..i]
  {
    if s[0] == x then 0
    else
      var j := FirstIndex(s[1..], x);
      assert s[..j + 1] == [s[0]] + s[1..][..j];
      j + 1
  }

  lemma FirstIndexAt<T(!new)>(s: seq<T>, x: T, i: nat)
    requires i < |s| && s[i] == x && x !in s[..i]
    ensures FirstIndex(s, x) == i
  {
  }

  /** `unique()` lists the values in the order in which they first appear. */
  lemma {:induction false} UniqueFirstAppearance<T(!new)>(s: seq<T>)
    ensures forall i, j :: 0 <= i < j < |Unique(s)| ==>
              FirstIndex(s, Unique(s)[i]) < FirstIndex(s, Unique(s)[j])
  {
    if |s| > 0 {
      var init, last := s[..|s| - 1], s[|s| - 1];
      assert s == init + [last];
      UniqueFirstAppearance(init);
      var u := Unique(init);
      forall x | x in init
        ensures FirstIndex(s, x) == FirstIndex(init, x) < |init|
      {
        var k := FirstIndex(init, x);
        assert s[..k] == init[..k];
        FirstIndexAt(s, x, k);
      }
      if last !in u {
        assert s[..|s| - 1] == init;
        FirstIndexAt(s, last, |s| - 1);
        assert Unique(s) == u + [last];
      } else {
        assert Unique(s) == u;
      }
    }
  }

  // ---------------------------------------------------------------------
  // Stable insertion sort, largest key first
  // ---------------------------------------------------------------------

  ghost predicate SortedBy<P>(s: seq<P>, key: P -> int)
  {
    forall i, j :: 0 <= i < j < |s| ==> key(s[i]) >= key(s[j])
  }

  function Insert<P(==,!new)>(x: P, s: seq<P>, key: P -> int): (r: seq<P>)
    requires SortedBy(s, key)
    ensures |r| == |s| + 1
    ensures multiset(r) == multiset(s) + multiset{x}
    ensures SortedBy(r, key)
  {
    if |s| == 0 || key(x) >= key(s[0]) then [x] + s
    else
      assert s == [s[0]] + s[1..];
      var rest := Insert(x, s[1..], key);
      assert forall k :: 0 <= k < |rest| ==> key(rest[k]) <= key(s[0]) by {
        forall k | 0 <= k < |rest| ensures key(rest[k]) <= key(s[0]) {
          assert rest[k] in multiset(rest);
          if rest[k] != x {
            assert rest[k] in multiset(s[1..]);
            var m :| 0 <= m < |s| - 1 && s[1..][m] == rest[k];
            assert s[m + 1] == rest[k];
          }
        }
      }
      [s[0]] + rest
  }

  lemma {:induction false} InsertNoDup<P(!new)>(x: P, s: seq<P>, key: P -> int)
    requires SortedBy(s, key) && NoDup(s) && x !in s
    ensures NoDup(Insert(x, s, key))
  {
    if |s| > 0 && key(x) < key(s[0]) {
      assert s == [s[0]] + s[1..];
      InsertNoDup(x, s[1..], key);
      var rest := Insert(x, s[1..], key);
      assert s[0] !in multiset(rest);
    }
  }

  /** Sorting by `key`, largest first: a permutation of `s` that is ordered. */
  function SortDesc<P(==,!new)>(s: seq<P>, key: P -> int): (r: seq<P>)
    ensures |r| == |s| && multiset(r) == multiset(s)
    ensures SortedBy(r, key)
  {
    if |s| == 0 then []
    else
      assert s == [s[0]] + s[1..];
      Insert(s[0], SortDesc(s[1..], key), key)
  }

  lemma {:induction false} SortNoDup<P(!new)>(s: seq<P>, key: P -> int)
    ensures NoDup(s) ==> NoDup(SortDesc(s, key))
  {
    if |s| > 0 && NoDup(s) {
      assert s == [s[0]] + s[1..];
      SortNoDup(s[1..], key);
      assert s[0] !in multiset(SortDesc(s[1..], key));
      InsertNoDup(s[0], SortDesc(s[1..], key), key);
    }
  }

  // ---------------------------------------------------------------------
  // Counted Series: (label, count) pairs
  // ---------------------------------------------------------------------

  function ByCount<K>(p: (K, nat)): int
  {
    p.1
  }

  function ByLabelAscending(p: (int, nat)): int
  {
    -p.0
  }

  function Labels<K>(series: seq<(K, nat)>): seq<K>
  {
    seq(|series|, i requires 0 <= i < |series| => series[i].0)
  }

  /** Sum of the counts of a counted Series. */
  function Total<K>(series: seq<(K, nat)>): nat
  {
    if |series| == 0 then 0 else series[0].1 + Total(series[1..])
  }

  /** One (label, count) pair per label, in the order of `labels`. */
  function CountsOf<T(==,!new)>(labels: seq<T>, s: seq<T>): seq<(T, nat)>
  {
    seq(|labels|, i requires 0 <= i < |labels| => (labels[i], Occurrences(s, labels[i])))
  }

  lemma {:induction false} TotalAppend<K>(a: seq<(K, nat)>, b: seq<(K, nat)>)
    ensures Total(a + b) == Total(a) + Total(b)
  {
    if |a| > 0 {
      assert (a + b)[0] == a[0];
      assert (a + b)[1..] == a[1..] + b;
      TotalAppend(a[1..], b);
    } else {
      assert a + b == b;
    }
  }

  lemma {:induction false} TotalCountsSnoc<T(!new)>(labels: seq<T>, s: seq<T>, y: T)
    requires NoDup(labels)
    ensures Total(CountsOf(labels, s + [y])) == Total(CountsOf(labels, s)) + (if y in labels then 1 else 0)
  {
    if |labels| > 0 {
      assert CountsOf(labels, s + [y]) == [CountsOf(labels, s + [y])[0]] + CountsOf(labels[1..], s + [y]);
      assert CountsOf(labels, s) == [CountsOf(labels, s)[0]] + CountsOf(labels[1..], s);
      assert labels == [labels[0]] + labels[1..];
      TotalCountsSnoc(labels[1..], s, y);
      assert multiset(s + [y]) == multiset(s) + multiset{y};
    }
  }

  /** The counts of all distinct values of a column add up to its length. */
  lemma {:induction false} TotalOfUniqueCounts<T(!new)>(s: seq<T>)
    ensures Total(CountsOf(Unique(s), s)) == |s|
  {
    if |s| > 0 {
      var init, last := s[..|s| - 1], s[|s| - 1];
      assert s == init + [last];
      TotalOfUniqueCounts(init);
      var u := Unique(init);
      TotalCountsSnoc(u, init, last);
      if last !in u {
        assert CountsOf(u + [last], s) == CountsOf(u, s) + [(last, Occurrences(s, last))];
        TotalAppend(CountsOf(u, s), [(last, Occurrences(s, last))]);
        assert multiset(s) == multiset(init) + multiset{last};
      }
    }
  }

  lemma {:induction false} TotalInsert<K(!new)>(x: (K, nat), s: seq<(K, nat)>, key: ((K, nat)) -> int)
    requires SortedBy(s, key)
    ensures Total(Insert(x, s, key)) == x.1 + Total(s)
  {
    if |s| == 0 || key(x) >= key(s[0]) {
      assert ([x] + s)[1..] == s;
    } else {
      TotalInsert(x, s[1..], key);
      assert ([s[0]] + Insert(x, s[1..], key))[1..] == Insert(x, s[1..], key);
    }
  }

  lemma {:induction false} TotalSort<K(!new)>(s: seq<(K, nat)>, key: ((K, nat)) -> int)
    ensures Total(SortDesc(s, key)) == Total(s)
  {
    if |s| > 0 {
      TotalSort(s[1..], key);
      TotalInsert(s[0], SortDesc(s[1..], key), key);
    }
  }

  lemma CountsOfMembers<T(!new)>(labels: seq<T>, s: seq<T>)
    ensures forall p :: p in CountsOf(labels, s) ==> p.0 in labels && p.1 == Occurrences(s, p.0)
  {
  }

  /** Every distinct value of a column has its pair in the tally. */
  lemma TallyLabels<T(!new)>(s: seq<T>, key: ((T, nat)) -> int)
    ensures var r := SortDesc(CountsOf(Unique(s), s), key);
      forall x :: x in Labels(r) <==> x in s
  {
    var u := Unique(s);
    var t := CountsOf(u, s);
    var r := SortDesc(t, key);
    CountsOfMembers(u, s);
    forall x | x in s ensures x in Labels(r) {
      var i :| 0 <= i < |u| && u[i] == x;
      assert t[i] in multiset(r);
      var j :| 0 <= j < |r| && r[j] == t[i];
      assert Labels(r)[j] == x;
    }
    forall x | x in Labels(r) ensures x in s {
      var j :| 0 <= j < |r| && Labels(r)[j] == x;
      assert r[j] in multiset(t);
    }
  }

  /** Every pair of the tally carries the number of occurrences of its value. */
  lemma TallyCounts<T(!new)>(s: seq<T>, key: ((T, nat)) -> int)
    ensures var r := SortDesc(CountsOf(Unique(s), s), key);
      forall i :: 0 <= i < |r| ==> r[i].1 == Occurrences(s, r[i].0) > 0
  {
    var u := Unique(s);
    var t := CountsOf(u, s);
    var r := SortDesc(t, key);
    CountsOfMembers(u, s);
    forall i | 0 <= i < |r| ensures r[i].0 in s && r[i].1 == Occurrences(s, r[i].0) > 0 {
      assert r[i] in multiset(t);
    }
  }

  /** A tally lists each distinct value once. */
  lemma TallyNoDup<T(!new)>(s: seq<T>, key: ((T, nat)) -> int)
    ensures NoDup(Labels(SortDesc(CountsOf(Unique(s), s), key)))
  {
    var u := Unique(s);
    var t := CountsOf(u, s);
    var r := SortDesc(t, key);
    assert NoDup(t) by {
      forall i, j | 0 <= i < j < |t| ensures t[i] != t[j] {
        assert u[i] != u[j];
      }
    }
    SortNoDup(t, key);
    CountsOfMembers(u, s);
    forall i, j | 0 <= i < j < |r| ensures Labels(r)[i] != Labels(r)[j] {
      assert r[i] in multiset(t) && r[j] in multiset(t);
      assert r[i] != r[j];
    }
  }

  /**
   * Counting a column: one pair per distinct value, carrying the number of
   * times it occurs, ordered by `key`. Shared by `value_counts()` and by
   * `groupby(...).count()`.
   */
  function Tally<T(==,!new)>(s: seq<T>, key: ((T, nat)) -> int): (r: seq<(T, nat)>)
    ensures |r| == |Unique(s)|
    ensures NoDup(Labels(r))
    ensures forall x :: x in Labels(r) <==> x in s
    ensures forall i :: 0 <= i < |r| ==> r[i].1 == Occurrences(s, r[i].0) > 0
    ensures SortedBy(r, key)
    ensures Total(r) == |s|
  {
    TallyLabels(s, key);
    TallyCounts(s, key);
    TallyNoDup(s, key);
    TotalOfUniqueCounts(s);
    TotalSort(CountsOf(Unique(s), s), key);
    SortDesc(CountsOf(Unique(s), s), key)
  }

  /**
   * `value_counts()`: every distinct value once with its number of
   * occurrences, largest count first; the counts add up to the column length.
   */
  function ValueCounts<T(==,!new)>(s: seq<T>): (r: seq<(T, nat)>)
    ensures |r| == |Unique(s)|
    ensures NoDup(Labels(r))
    ensures forall x :: x in Labels(r) <==> x in s
    ensures forall i :: 0 <= i < |r| ==> r[i].1 == Occurrences(s, r[i].0)
    ensures forall i, j :: 0 <= i < j < |r| ==> r[i].1 >= r[j].1
    ensures Total(r) == |s|
  {
    Tally(s, ByCount)
  }

  /**
   * `groupby(col).count()`: every distinct value once with its number of
   * rows, in ascending order of the group label.
   */
  /**
   * Ascending label order is obtained from the descending sort by sorting on
   * the negated label (`ByLabelAscending`).
   */
  function GroupCount(s: seq<int>): (r: seq<(int, nat)>)
    ensures |r| == |Unique(s)|
    ensures forall x :: x in Labels(r) <==> x in s
    ensures forall i :: 0 <= i < |r| ==> r[i].1 == Occurrences(s, r[i].0)
    ensures forall i, j :: 0 <= i < j < |r| ==> r[i].0 < r[j].0
    ensures Total(r) == |s|
  {
    var r := Tally(s, ByLabelAscending);
    assert forall i, j :: 0 <= i < j < |r| ==> r[i].0 < r[j].0 by {
      forall i, j | 0 <= i < j < |r| ensures r[i].0 < r[j].0 {
        assert ByLabelAscending(r[i]) >= ByLabelAscending(r[j]);
        assert Labels(r)[i] != Labels(r)[j];
      }
    }
    r
  }

  // ---------------------------------------------------------------------
  // idxmax(), mode
  // ---------------------------------------------------------------------

  /** Position of the first largest count (numpy's argmax). */
  function ArgMax<K>(series: seq<(K, nat)>): (i: nat)
    requires |series| > 0
    ensures i < |series|
    ensures forall k :: 0 <= k < |series| ==> series[k].1 <= series[i].1
    ensures forall k :: 0 <= k < i ==> series[k].1 < series[i].1
  {
    if |series| == 1 then 0
    else
      var j := 1 + ArgMax(series[1..]);
      if series[0].1 >= series[j].1 then 0 else j
  }

  /** `idxmax()`: the label of the first largest count; raises on an empty Series. */
  function IdxMax<K>(series: seq<(K, nat)>): (r: Result<K>)
    ensures r.Err? <==> |series| == 0
    ensures r.Err? ==> r.error == EmptySequence
    ensures r.Ok? ==>
      exists i :: 0 <= i < |series| && series[i].0 == r.value && (forall k :: 0 <= k < |series| ==> series[k].1 <= series[i].1)
  {
    if |series| == 0 then Err(EmptySequence) else Ok(series[ArgMax(series)].0)
  }

  /** `m` occurs in `s` and no value occurs more often. */
  ghost predicate IsMode<T(!new)>(s: seq<T>, m: T)
  {
    m in s && forall y :: multiset(s)[y] <= multiset(s)[m]
  }

  /** `value_counts().idxmax()`: a most frequent value; an error on an empty column. */
  function Mode<T(==,!new)>(s: seq<T>): (r: Result<T>)
    ensures r.Err? <==> |s| == 0
    ensures r.Ok? ==> IsMode(s, r.value)
  {
    var vc := ValueCounts(s);
    var r := IdxMax(vc);
    assert r.Ok? ==> IsMode(s, r.value) by {
      if |vc| > 0 {
        var i := ArgMax(vc);
        assert Labels(vc)[i] == vc[i].0;
        forall y | y in s ensures multiset(s)[y] <= multiset(s)[vc[i].0] {
          var j :| 0 <= j < |vc| && Labels(vc)[j] == y;
        }
      }
    }
    assert |s| > 0 ==> |vc| > 0 by {
      if |s| > 0 {
        assert s[0] in Labels(vc);
      }
    }
    r
  }

  /** A value that strictly dominates every other is the mode, whatever the tie-break. */
  lemma ModeOfDominant<T(!new)>(s: seq<T>, m: T)
    requires m in s
    requires forall y :: y != m ==> Occurrences(s, y) < Occurrences(s, m)
    ensures Mode(s) == Ok(m)
  {
  }

  // ---------------------------------------------------------------------
  // head(), nlargest()
  // ---------------------------------------------------------------------

  /** `head(n)`: the first min(n, |s|) elements, in order. */
  function Head<T>(s: seq<T>, n: nat): (r: seq<T>)
    ensures |r| == if |s| < n then |s| else n
    ensures r <= s
  {
    if |s| <= n then s else s[..n]
  }

  /** Every pair left out of the first n of a sorted permutation counts no more than any pair kept. */
  lemma HeadOfSortedDominates<K(!new)>(series: seq<(K, nat)>, n: nat)
    ensures var r := Head(SortDesc(series, ByCount), n);
      forall p, q :: p in series && p !in r && q in r ==> p.1 <= q.1
  {
    var sorted := SortDesc(series, ByCount);
    var r := Head(sorted, n);
    forall p, q | p in series && p !in r && q in r ensures p.1 <= q.1 {
      assert p in multiset(sorted);
      var j :| 0 <= j < |sorted| && sorted[j] == p;
      var k :| 0 <= k < |r| && r[k] == q;
      assert sorted[k] == q;
      assert j >= |r|;
      assert ByCount(sorted[k]) >= ByCount(sorted[j]);
    }
  }

  /**
   * `nlargest(n)`: at most n pairs of the Series, largest count first, and
   * no pair left out has a larger count than any pair kept.
   */
  function NLargest<K(==,!new)>(series: seq<(K, nat)>, n: nat): (r: seq<(K, nat)>)
    ensures |r| == if |series| < n then |series| else n
    ensures forall i, j :: 0 <= i < j < |r| ==> r[i].1 >= r[j].1
    ensures forall p :: p in r ==> p in series
    ensures NoDup(series) ==> NoDup(r)
    ensures forall p, q :: p in series && p !in r && q in r ==> p.1 <= q.1
  {
    SortNoDup(series, ByCount);
    HeadOfSortedDominates(series, n);
    HeadOfSortedKept(series, n);
    Head(SortDesc(series, ByCount), n)
  }

  /** The first n of a sorted permutation are ordered and come from the Series. */
  lemma HeadOfSortedKept<K(!new)>(series: seq<(K, nat)>, n: nat)
    ensures var r := Head(SortDesc(series, ByCount), n);
      && (forall i, j :: 0 <= i < j < |r| ==> r[i].1 >= r[j].1)
      && (forall p :: p in r ==> p in series)
  {
    var sorted := SortDesc(series, ByCount);
    var r := Head(sorted, n);
    forall i, j | 0 <= i < j < |r| ensures r[i].1 >= r[j].1 {
      assert r[i] == sorted[i] && r[j] == sorted[j];
      assert ByCount(sorted[i]) >= ByCount(sorted[j]);
    }
    forall p | p in r ensures p in series {
      var i :| 0 <= i < |r| && r[i] == p;
      assert sorted[i] == p && p in multiset(sorted);
    }
  }
}
