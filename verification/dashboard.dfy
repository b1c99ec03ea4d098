/**
 * What the dashboard computes for display: the four KPIs on the whole
 * table, and, on every sidebar change, the aggregates of the filtered view
 * (top cities, Reason breakdown, calls per day of week, the Hour sample for
 * the box plot, the 100-row preview).
 */
module Dashboard {
  import opened Series
  import opened Calls
  import opened Filter

  const TopCityCount: nat := 10
  const BoxplotSampleSize: nat := 1000
  const PreviewRowCount: nat := 100

  // ---------------------------------------------------------------------
  // KPIs
  // ---------------------------------------------------------------------

  datatype KeyMetrics = KeyMetrics(totalCalls: nat, topReason: string, topCity: string, peakHour: int)

  /**
   * Total Calls, Most Common Emergency, City with Most Calls and Peak Call
   * Hour, all taken from the whole table rather than the filtered view. On
   * an empty table `idxmax` raises.
   */
  function Kpis(df: seq<CallRecord>): (r: Result<KeyMetrics>)
    ensures r.Err? <==> |df| == 0
    ensures r.Err? ==> r.error == EmptySequence
    ensures r.Ok? ==> && r.value.totalCalls == |df|
                      && IsMode(Reasons(df), r.value.topReason)
                      && IsMode(Townships(df), r.value.topCity)
                      && IsMode(Hours(df), r.value.peakHour)
  {
    match Mode(Reasons(df))
    case Err(e) => Err(e)
    case Ok(reason) =>
      match Mode(Townships(df))
      case Err(e) => Err(e)
      case Ok(city) =>
        match Mode(Hours(df))
        case Err(e) => Err(e)
        case Ok(hour) => Ok(KeyMetrics(|df|, reason, city, hour))
  }

  // ---------------------------------------------------------------------
  // Aggregates of the filtered view
  // ---------------------------------------------------------------------

  /**
   * `value_counts().nlargest(10)` over township: at most ten townships,
   * each once with its number of calls, largest first, and no township left
   * out has more calls than one kept.
   */
  function TopCities(view: seq<CallRecord>): (r: seq<(string, nat)>)
    ensures |r| == if |Unique(Townships(view))| < TopCityCount then |Unique(Townships(view))| else TopCityCount
    ensures NoDup(Labels(r))
    ensures forall i, j :: 0 <= i < j < |r| ==> r[i].1 >= r[j].1
    ensures forall i :: 0 <= i < |r| ==>
      r[i].0 in Townships(view) && r[i].1 == Occurrences(Townships(view), r[i].0)
    ensures forall c, i :: c in Townships(view) && c !in Labels(r) && 0 <= i < |r| ==>
      Occurrences(Townships(view), c) <= r[i].1
  {
    TopCitiesProperties(view);
    NLargest(ValueCounts(Townships(view)), TopCityCount)
  }

  lemma TopCitiesProperties(view: seq<CallRecord>)
    ensures var col := Townships(view);
      var r := NLargest(ValueCounts(col), TopCityCount);
      && NoDup(Labels(r))
      && (forall i :: 0 <= i < |r| ==> r[i].0 in col && r[i].1 == Occurrences(col, r[i].0))
      && (forall c, i :: c in col && c !in Labels(r) && 0 <= i < |r| ==> Occurrences(col, c) <= r[i].1)
  {
    var col := Townships(view);
    var vc := ValueCounts(col);
    LabelsDistinctPairs(vc);
    forall j | 0 <= j < |vc| ensures vc[j].0 in col {
      assert Labels(vc)[j] == vc[j].0;
    }
    TopCitiesCounts(col, vc);
    TopCitiesLeftOut(col, vc);
  }

  lemma LabelsDistinctPairs<K>(series: seq<(K, nat)>)
    requires NoDup(Labels(series))
    ensures NoDup(series)
  {
    forall i, j | 0 <= i < j < |series| ensures series[i] != series[j] {
      assert Labels(series)[i] != Labels(series)[j];
    }
  }

  lemma TopCitiesCounts(col: seq<string>, vc: seq<(string, nat)>)
    requires NoDup(vc)
    requires forall j :: 0 <= j < |vc| ==> vc[j].0 in col && vc[j].1 == Occurrences(col, vc[j].0)
    ensures var r := NLargest(vc, TopCityCount);
      && NoDup(Labels(r))
      && (forall i :: 0 <= i < |r| ==> r[i].0 in col && r[i].1 == Occurrences(col, r[i].0))
  {
    var r := NLargest(vc, TopCityCount);
    forall i | 0 <= i < |r| ensures r[i].0 in col && r[i].1 == Occurrences(col, r[i].0) {
      assert r[i] in vc;
    }
    forall i, j | 0 <= i < j < |r| ensures Labels(r)[i] != Labels(r)[j] {
      assert r[i] != r[j];
    }
  }

  lemma TopCitiesLeftOut(col: seq<string>, vc: seq<(string, nat)>)
    requires vc == ValueCounts(col)
    ensures var r := NLargest(vc, TopCityCount);
      forall c, i :: c in col && c !in Labels(r) && 0 <= i < |r| ==> Occurrences(col, c) <= r[i].1
  {
    var r := NLargest(vc, TopCityCount);
    forall c, i | c in col && c !in Labels(r) && 0 <= i < |r| ensures Occurrences(col, c) <= r[i].1 {
      assert c in Labels(vc);
      LeftOutTownship(col, vc, r, c, i);
    }
  }

  lemma LeftOutTownship(col: seq<string>, vc: seq<(string, nat)>, r: seq<(string, nat)>, c: string, i: nat)
    requires forall j :: 0 <= j < |vc| ==> vc[j].1 == Occurrences(col, vc[j].0)
    requires c in Labels(vc)
    requires forall p, q :: p in vc && p !in r && q in r ==> p.1 <= q.1
    requires c !in Labels(r) && i < |r|
    ensures Occurrences(col, c) <= r[i].1
  {
    var j :| 0 <= j < |vc| && Labels(vc)[j] == c;
    var p := vc[j];
    assert p.0 == c && p.1 == Occurrences(col, c);
    forall k | 0 <= k < |r| ensures r[k] != p {
      assert Labels(r)[k] != c;
    }
    assert p in vc && r[i] in r;
  }

  /**
   * `value_counts()` over Reason: every Reason of the view once, with its
   * number of calls, largest first; the counts add up to the view's size.
   */
  function ReasonCounts(view: seq<CallRecord>): (r: seq<(string, nat)>)
    ensures NoDup(Labels(r))
    ensures forall x :: x in Labels(r) <==> exists k :: 0 <= k < |view| && view[k].reason == x
    ensures forall i :: 0 <= i < |r| ==> r[i].1 == Occurrences(Reasons(view), r[i].0)
    ensures forall i, j :: 0 <= i < j < |r| ==> r[i].1 >= r[j].1
    ensures Total(r) == |view|
  {
    var r := ValueCounts(Reasons(view));
    assert forall x :: x in Labels(r) <==> exists k :: 0 <= k < |view| && view[k].reason == x by {
      forall x | x in Reasons(view) ensures exists k :: 0 <= k < |view| && view[k].reason == x {
        var k :| 0 <= k < |view| && Reasons(view)[k] == x;
      }
      forall x | (exists k :: 0 <= k < |view| && view[k].reason == x) ensures x in Reasons(view) {
        var k :| 0 <= k < |view| && view[k].reason == x;
        assert Reasons(view)[k] == x;
      }
    }
    r
  }

  /**
   * `groupby("Day")["Hour"].count()`: every day of week present in the view
   * once, in ascending order, with its number of calls; the counts add up to
   * the view's size.
   */
  function DayCounts(view: seq<CallRecord>): (r: seq<(int, nat)>)
    ensures forall d :: d in Labels(r) <==> exists k :: 0 <= k < |view| && view[k].day == d
    ensures forall i :: 0 <= i < |r| ==> r[i].1 == Occurrences(Days(view), r[i].0)
    ensures forall i, j :: 0 <= i < j < |r| ==> r[i].0 < r[j].0
    ensures Total(r) == |view|
  {
    var r := GroupCount(Days(view));
    assert forall d :: d in Labels(r) <==> exists k :: 0 <= k < |view| && view[k].day == d by {
      forall d | d in Days(view) ensures exists k :: 0 <= k < |view| && view[k].day == d {
        var k :| 0 <= k < |view| && Days(view)[k] == d;
      }
      forall d | (exists k :: 0 <= k < |view| && view[k].day == d) ensures d in Days(view) {
        var k :| 0 <= k < |view| && view[k].day == d;
        assert Days(view)[k] == d;
      }
    }
    r
  }

  // ---------------------------------------------------------------------
  // Sampling for the Hour box plot
  // ---------------------------------------------------------------------

  /**
   * The random source of `sample`: an order of all row positions, each
   * position once. The choice of order is left to the caller.
   */
  ghost predicate IsShuffle(order: seq<nat>, n: nat)
  {
    && |order| == n
    && NoDup(order)
    && (forall k :: 0 <= k < n ==> order[k] < n)
    && (forall i :: 0 <= i < n ==> i in order)
  }

  /** The rows at the positions `idx`, in the order of `idx`. */
  function Pick<T>(rows: seq<T>, idx: seq<nat>): seq<T>
    requires forall k :: 0 <= k < |idx| ==> idx[k] < |rows|
  {
    seq(|idx|, k requires 0 <= k < |idx| => rows[idx[k]])
  }

  /** Picking at distinct positions draws without replacement: no row more often than it occurs. */
  lemma {:induction false} PickWithoutReplacement<T>(rows: seq<T>, idx: seq<nat>)
    requires NoDup(idx)
    requires forall k :: 0 <= k < |idx| ==> idx[k] < |rows|
    ensures multiset(Pick(rows, idx)) <= multiset(rows)
  {
    if |rows| > 0 {
      var n := |rows| - 1;
      assert rows == rows[..n] + [rows[n]];
      if j :| 0 <= j < |idx| && idx[j] == n {
        var rest := idx[..j] + idx[j + 1..];
        forall k | 0 <= k < |rest| ensures rest[k] < n {
          var k' := if k < j then k else k + 1;
          assert rest[k] == idx[k'] && k' != j;
        }
        forall a, b | 0 <= a < b < |rest| ensures rest[a] != rest[b] {
          var a', b' := if a < j then a else a + 1, if b < j then b else b + 1;
          assert rest[a] == idx[a'] && rest[b] == idx[b'] && a' < b';
        }
        PickWithoutReplacement(rows[..n], rest);
        assert Pick(rows[..n], rest) == Pick(rows, idx[..j]) + Pick(rows, idx[j + 1..]);
        assert Pick(rows, idx) == Pick(rows, idx[..j]) + [rows[n]] + Pick(rows, idx[j + 1..]);
      } else {
        forall k | 0 <= k < |idx| ensures idx[k] < n {
          assert idx[k] != n;
        }
        PickWithoutReplacement(rows[..n], idx);
        assert Pick(rows[..n], idx) == Pick(rows, idx);
      }
    }
  }

  /** Picking the rows in the order of a whole shuffle is a permutation of the rows. */
  lemma ShuffleIsPermutation<T>(rows: seq<T>, order: seq<nat>)
    requires IsShuffle(order, |rows|)
    ensures multiset(Pick(rows, order)) == multiset(rows)
  {
    var p := multiset(Pick(rows, order));
    PickWithoutReplacement(rows, order);
    var d := multiset(rows) - p;
    assert multiset(rows) == p + d;
    assert |d| == 0;
  }

  /** A prefix of a shuffle holds distinct positions in range. */
  lemma ShufflePrefix(order: seq<nat>, n: nat, m: nat)
    requires IsShuffle(order, n) && m <= n
    ensures NoDup(order[..m])
    ensures forall k :: 0 <= k < m ==> order[..m][k] < n
  {
  }

  /**
   * `rows.sample(n)` as the dashboard calls it: n rows drawn without
   * replacement, and a ValueError when the view has fewer than n rows.
   */
  function SampleAsWritten<T>(rows: seq<T>, n: nat, order: seq<nat>): (r: Result<seq<T>>)
    requires IsShuffle(order, |rows|)
    ensures r.Err? <==> n > |rows|
    ensures r.Err? ==> r.error == SampleLargerThanPopulation
    ensures r.Ok? ==> |r.value| == n && forall k :: 0 <= k < n ==> r.value[k] == rows[order[k]]
    ensures r.Ok? ==> multiset(r.value) <= multiset(rows)
  {
    if n > |rows| then Err(SampleLargerThanPopulation)
    else
      ShufflePrefix(order, |rows|, n);
      PickWithoutReplacement(rows, order[..n]);
      Ok(Pick(rows, order[..n]))
  }

  /**
   * The sample the box plot needs: min(n, |rows|) rows drawn without
   * replacement, which never fails, is the whole view up to order when the
   * view is small, and agrees with `sample(n)` whenever that succeeds.
   */
  function SampleForDisplay<T>(rows: seq<T>, n: nat, order: seq<nat>): (r: seq<T>)
    requires IsShuffle(order, |rows|)
    ensures |r| == if |rows| < n then |rows| else n
    ensures multiset(r) <= multiset(rows)
    ensures n >= |rows| ==> multiset(r) == multiset(rows)
    ensures forall x :: x in r ==> x in rows
    ensures n >= |rows| ==> forall i :: 0 <= i < |rows| ==> rows[i] in r
    ensures n <= |rows| ==> SampleAsWritten(rows, n, order) == Ok(r)
  {
    var m := if |rows| < n then |rows| else n;
    ShufflePrefix(order, |rows|, m);
    PickWithoutReplacement(rows, order[..m]);
    var r := Pick(rows, order[..m]);
    assert n >= |rows| ==> multiset(r) == multiset(rows) by {
      if n >= |rows| {
        assert order[..m] == order;
        ShuffleIsPermutation(rows, order);
      }
    }
    assert forall x :: x in r ==> x in rows by {
      forall x | x in r ensures x in rows {
        assert x in multiset(rows);
      }
    }
    assert n >= |rows| ==> forall i :: 0 <= i < |rows| ==> rows[i] in r by {
      if n >= |rows| {
        forall i | 0 <= i < |rows| ensures rows[i] in r {
          assert rows[i] in multiset(r);
        }
      }
    }
    r
  }

  // ---------------------------------------------------------------------
  // One recompute after a sidebar change
  // ---------------------------------------------------------------------

  datatype Trends = Trends(
    topCities: seq<(string, nat)>,
    reasonCounts: seq<(string, nat)>,
    boxplotHours: seq<int>,
    dayCounts: seq<(int, nat)>,
    preview: seq<CallRecord>)

  /**
   * One refresh of the guarded pipeline: filters the table with the current
   * selection and recomputes every aggregate of the view, drawing the
   * box-plot sample with `SampleForDisplay`, so it never fails. `order` is
   * the random order the sample draws rows in.
   */
  function Refresh(df: seq<CallRecord>, sel: Selection, order: seq<nat>): (t: Trends)
    requires IsShuffle(order, |FilterView(df, sel)|)
    ensures var view := FilterView(df, sel);
      && t.topCities == TopCities(view)
      && t.reasonCounts == ReasonCounts(view)
      && t.dayCounts == DayCounts(view)
      && t.boxplotHours == Hours(SampleForDisplay(view, BoxplotSampleSize, order))
      && t.preview == Head(view, PreviewRowCount)
    ensures var view := FilterView(df, sel);
      && Total(t.reasonCounts) == |view|
      && Total(t.dayCounts) == |view|
      && |t.boxplotHours| == (if |view| < BoxplotSampleSize then |view| else BoxplotSampleSize)
      && t.preview <= view
      && |t.preview| == (if |view| < PreviewRowCount then |view| else PreviewRowCount)
    ensures sel.reasons == [] || sel.cities == [] || sel.years == [] ==>
      t == Trends([], [], [], [], [])
  {
    var view := FilterView(df, sel);
    var t := Trends(
      TopCities(view),
      ReasonCounts(view),
      Hours(SampleForDisplay(view, BoxplotSampleSize, order)),
      DayCounts(view),
      Head(view, PreviewRowCount));
    assert sel.reasons == [] || sel.cities == [] || sel.years == [] ==> t == Trends([], [], [], [], []) by {
      if sel.reasons == [] || sel.cities == [] || sel.years == [] {
        FilterEmptyChoice(df, sel);
        assert Unique(Townships(view)) == [];
      }
    }
    t
  }

  /**
   * One refresh as the script runs it: the unguarded `sample(1000)` raises
   * whenever the view has fewer than 1000 rows, and the script stops there.
   * When the sample succeeds, the result is that of the guarded pipeline.
   */
  function RefreshAsWritten(df: seq<CallRecord>, sel: Selection, order: seq<nat>): (r: Result<Trends>)
    requires IsShuffle(order, |FilterView(df, sel)|)
    ensures r.Err? <==> |FilterView(df, sel)| < BoxplotSampleSize
    ensures r.Err? ==> r.error == SampleLargerThanPopulation
    ensures r.Ok? ==> r.value == Refresh(df, sel, order)
  {
    var view := FilterView(df, sel);
    match SampleAsWritten(view, BoxplotSampleSize, order)
    case Err(e) => Err(e)
    case Ok(sample) =>
      Ok(Trends(TopCities(view), ReasonCounts(view), Hours(sample), DayCounts(view), Head(view, PreviewRowCount)))
  }

  /** As written, an empty choice in any multiselect makes the refresh raise instead of showing empty charts. */
  lemma EmptyChoiceRaises(df: seq<CallRecord>, sel: Selection, order: seq<nat>)
    requires sel.reasons == [] || sel.cities == [] || sel.years == []
    requires order == []
    ensures IsShuffle(order, |FilterView(df, sel)|)
    ensures RefreshAsWritten(df, sel, order) == Err(SampleLargerThanPopulation)
    ensures Refresh(df, sel, order) == Trends([], [], [], [], [])
  {
    FilterEmptyChoice(df, sel);
  }

  // ---------------------------------------------------------------------
  // A worked example
  // ---------------------------------------------------------------------

  function ExampleTable(): seq<CallRecord>
  {
    [ CallRecord(DateTime(2020, 1, 8, 2), "EMS: BACK PAINS/INJURY", "A", 2020, 1, 8, 2, "EMS"),
      CallRecord(DateTime(2020, 3, 17, 4), "EMS: DIZZINESS", "A", 2020, 3, 17, 4, "EMS"),
      CallRecord(DateTime(2021, 5, 9, 0), "Fire: GAS-ODOR/LEAK", "B", 2021, 5, 9, 0, "Fire") ]
  }

  function ExampleChoice(): Selection
  {
    Selection(["EMS"], ["A"], [2020])
  }

  /** Choosing EMS, township A and 2020 keeps the two EMS calls from A in 2020. */
  lemma ExampleFilter()
    ensures FilterView(ExampleTable(), ExampleChoice()) == ExampleTable()[..2]
  {
    var df := ExampleTable();
    var m := Mask(df, ExampleChoice());
    assert m == [true, true, false];
    assert df[..2][..1] == df[..1] && m[..2][..1] == m[..1];
    assert Select(df[..1], m[..1]) == [df[0]] by {
      assert df[..1][..0] == [] && m[..1][..0] == [];
    }
    assert Select(df[..2], m[..2]) == [df[0], df[1]];
  }

  /** EMS is the Most Common Emergency of the example: two calls against one. */
  lemma ExampleTopReason()
    ensures Kpis(ExampleTable()).Ok? && Kpis(ExampleTable()).value.topReason == "EMS"
  {
    var col := Reasons(ExampleTable());
    assert col == ["EMS", "EMS", "Fire"];
    assert multiset(col) == multiset{"EMS", "EMS", "Fire"};
    ModeOfDominant(col, "EMS");
  }

  /** The example has two calls in 2020 and one in 2021. */
  lemma ExampleYearCounts()
    ensures GroupCount(Years(ExampleTable())) == [(2020, 2), (2021, 1)]
  {
    assert Years(ExampleTable()) == [2020, 2020, 2021];
    ExampleYearOptions();
    assert multiset([2020, 2020, 2021]) == multiset{2020, 2020, 2021};
    GroupCountOfExampleYears([2020, 2020, 2021]);
  }

  /** Any Year column with the example's distinct years and counts groups the same way. */
  lemma GroupCountOfExampleYears(col: seq<int>)
    requires Unique(col) == [2020, 2021]
    requires multiset(col) == multiset{2020, 2020, 2021}
    ensures GroupCount(col) == [(2020, 2), (2021, 1)]
  {
    GroupCountOfTwo(col, 2020, 2021);
  }

  /** The distinct years of the example, in order of first appearance. */
  lemma ExampleYearOptions()
    ensures Unique([2020, 2020, 2021]) == [2020, 2021]
  {
    UniqueSnoc([], 2020);
    assert [] + [2020] == [2020];
    UniqueSnoc([2020], 2020);
    assert [2020] + [2020] == [2020, 2020];
    UniqueSnoc([2020, 2020], 2021);
    assert [2020, 2020] + [2021] == [2020, 2020, 2021];
  }

  /** A column holding exactly two distinct values groups into two rows, the smaller value first. */
  lemma GroupCountOfTwo(s: seq<int>, a: int, b: int)
    requires Unique(s) == [a, b] && a < b
    ensures GroupCount(s) == [(a, Occurrences(s, a)), (b, Occurrences(s, b))]
  {
    var g := GroupCount(s);
    assert Labels(g)[0] == g[0].0 && Labels(g)[1] == g[1].0;
    assert g[0].0 in Unique(s) && g[1].0 in Unique(s);
  }

  /**
   * In that example the box-plot sample raises: the view of two rows is
   * smaller than 1000.
   */
  lemma ExampleSampleRaises()
    ensures var view := FilterView(ExampleTable(), ExampleChoice());
      && IsShuffle([0, 1], |view|)
      && SampleAsWritten(view, BoxplotSampleSize, [0, 1]).Err?
      && SampleForDisplay(view, BoxplotSampleSize, [0, 1]) == view
  {
    ExampleFilter();
    var view := FilterView(ExampleTable(), ExampleChoice());
    assert |view| == 2;
    SampleInRowOrder(view, BoxplotSampleSize, [0, 1]);
  }

  /** Drawing every row in the identity order gives the rows back. */
  lemma SampleInRowOrder<T>(rows: seq<T>, n: nat, order: seq<nat>)
    requires n >= |rows| && IsShuffle(order, |rows|)
    requires forall k :: 0 <= k < |order| ==> order[k] == k
    ensures SampleForDisplay(rows, n, order) == rows
  {
    assert order[..|rows|] == order;
  }

  /** So the refresh of that example stops at the box plot, as written. */
  lemma ExampleRefreshRaises()
    ensures IsShuffle([0, 1], |FilterView(ExampleTable(), ExampleChoice())|)
      && RefreshAsWritten(ExampleTable(), ExampleChoice(), [0, 1]) == Err(SampleLargerThanPopulation)
  {
    ExampleSampleRaises();
  }
}
