/**
 * The sidebar filter: three multiselects (Reason, township, Year) whose
 * options and defaults are the distinct values of their column, and the
 * filtered view, the rows passing all three `isin` tests.
 */
module Filter {
  import opened Series
  import opened Calls

  /** The values chosen in the three multiselects. */
  datatype Selection = Selection(reasons: seq<string>, cities: seq<string>, years: seq<int>)

  /** `df[col].unique()` for each filtered column: the options, and also the default choice. */
  function Options(df: seq<CallRecord>): (o: Selection)
    ensures NoDup(o.reasons) && NoDup(o.cities) && NoDup(o.years)
    ensures forall r :: r in o.reasons <==> exists i :: 0 <= i < |df| && df[i].reason == r
    ensures forall c :: c in o.cities <==> exists i :: 0 <= i < |df| && df[i].township == c
    ensures forall y :: y in o.years <==> exists i :: 0 <= i < |df| && df[i].year == y
  {
    ColumnMembers(df);
    Selection(Unique(Reasons(df)), Unique(Townships(df)), Unique(Years(df)))
  }

  lemma ColumnMembers(df: seq<CallRecord>)
    ensures forall r :: r in Reasons(df) <==> exists i :: 0 <= i < |df| && df[i].reason == r
    ensures forall c :: c in Townships(df) <==> exists i :: 0 <= i < |df| && df[i].township == c
    ensures forall y :: y in Years(df) <==> exists i :: 0 <= i < |df| && df[i].year == y
  {
    forall r | (exists i :: 0 <= i < |df| && df[i].reason == r) ensures r in Reasons(df) {
      var i :| 0 <= i < |df| && df[i].reason == r;
      assert Reasons(df)[i] == r;
    }
    forall c | (exists i :: 0 <= i < |df| && df[i].township == c) ensures c in Townships(df) {
      var i :| 0 <= i < |df| && df[i].township == c;
      assert Townships(df)[i] == c;
    }
    forall y | (exists i :: 0 <= i < |df| && df[i].year == y) ensures y in Years(df) {
      var i :| 0 <= i < |df| && df[i].year == y;
      assert Years(df)[i] == y;
    }
  }

  /**
   * Each option list holds every value of its column exactly once, in the
   * order of first appearance.
   */
  lemma OptionsSpec(df: seq<CallRecord>)
    ensures var o := Options(df);
      && NoDup(o.reasons) && NoDup(o.cities) && NoDup(o.years)
      && (forall r :: r in o.reasons <==> r in Reasons(df))
      && (forall c :: c in o.cities <==> c in Townships(df))
      && (forall y :: y in o.years <==> y in Years(df))
      && (forall i, j :: 0 <= i < j < |o.reasons| ==>
            FirstIndex(Reasons(df), o.reasons[i]) < FirstIndex(Reasons(df), o.reasons[j]))
      && (forall i, j :: 0 <= i < j < |o.cities| ==>
            FirstIndex(Townships(df), o.cities[i]) < FirstIndex(Townships(df), o.cities[j]))
      && (forall i, j :: 0 <= i < j < |o.years| ==>
            FirstIndex(Years(df), o.years[i]) < FirstIndex(Years(df), o.years[j]))
  {
    UniqueFirstAppearance(Reasons(df));
    UniqueFirstAppearance(Townships(df));
    UniqueFirstAppearance(Years(df));
  }

  // ---------------------------------------------------------------------
  // The boolean mask
  // ---------------------------------------------------------------------

  /** `col.isin(values)`: elementwise membership. */
  function IsIn<T(==)>(col: seq<T>, values: seq<T>): (m: seq<bool>)
    ensures |m| == |col|
    ensures forall i :: 0 <= i < |col| ==> (m[i] <==> exists j :: 0 <= j < |values| && values[j] == col[i])
  {
    seq(|col|, i requires 0 <= i < |col| => col[i] in values)
  }

  /** Elementwise `&` of two boolean Series of the same length. */
  function And(a: seq<bool>, b: seq<bool>): seq<bool>
    requires |a| == |b|
  {
    seq(|a|, i requires 0 <= i < |a| => a[i] && b[i])
  }

  /** A row passes the filter when all three of its columns are selected. */
  predicate Passes(r: CallRecord, sel: Selection)
  {
    r.reason in sel.reasons && r.township in sel.cities && r.year in sel.years
  }

  /** The mask `isin(reasons) & isin(cities) & isin(years)`. */
  function Mask(df: seq<CallRecord>, sel: Selection): (m: seq<bool>)
    ensures |m| == |df|
    ensures forall i :: 0 <= i < |df| ==> (m[i] <==> Passes(df[i], sel))
  {
    And(And(IsIn(Reasons(df), sel.reasons), IsIn(Townships(df), sel.cities)), IsIn(Years(df), sel.years))
  }

  // ---------------------------------------------------------------------
  // Boolean indexing
  // ---------------------------------------------------------------------

  /** `rows[mask]`: the rows whose mask entry is true. */
  function Select<T>(rows: seq<T>, mask: seq<bool>): (v: seq<T>)
    requires |rows| == |mask|
    ensures |v| <= |rows|
    ensures forall x :: x in v ==> x in rows
  {
    if |rows| == 0 then []
    else
      var n := |rows| - 1;
      Select(rows[..n], mask[..n]) + (if mask[n] then [rows[n]] else [])
  }

  /** The positions at which `mask` is true, in increasing order. */
  function TrueIndices(mask: seq<bool>): seq<nat>
  {
    if |mask| == 0 then []
    else
      var n := |mask| - 1;
      TrueIndices(mask[..n]) + (if mask[n] then [n] else [])
  }

  /**
   * Boolean indexing keeps exactly the rows at the true positions, in their
   * original order.
   */
  lemma {:induction false} SelectSpec<T>(rows: seq<T>, mask: seq<bool>)
    requires |rows| == |mask|
    ensures var v, ix := Select(rows, mask), TrueIndices(mask);
      && |v| == |ix|
      && (forall k, l :: 0 <= k < l < |ix| ==> ix[k] < ix[l])
      && (forall k :: 0 <= k < |ix| ==> ix[k] < |rows| && v[k] == rows[ix[k]])
      && (forall i :: 0 <= i < |rows| ==> (i in ix <==> mask[i]))
  {
    if |rows| > 0 {
      var n := |rows| - 1;
      SelectSpec(rows[..n], mask[..n]);
      var ix' := TrueIndices(mask[..n]);
      assert forall i :: 0 <= i < n ==> mask[..n][i] == mask[i];
      assert forall k :: 0 <= k < |ix'| ==> rows[..n][ix'[k]] == rows[ix'[k]];
    }
  }

  lemma {:induction false} SelectAllTrue<T>(rows: seq<T>, mask: seq<bool>)
    requires |rows| == |mask|
    requires forall i :: 0 <= i < |mask| ==> mask[i]
    ensures Select(rows, mask) == rows
  {
    if |rows| > 0 {
      var n := |rows| - 1;
      SelectAllTrue(rows[..n], mask[..n]);
      assert rows == rows[..n] + [rows[n]];
    }
  }

  lemma {:induction false} SelectAllFalse<T>(rows: seq<T>, mask: seq<bool>)
    requires |rows| == |mask|
    requires forall i :: 0 <= i < |mask| ==> !mask[i]
    ensures Select(rows, mask) == []
  {
    if |rows| > 0 {
      var n := |rows| - 1;
      SelectAllFalse(rows[..n], mask[..n]);
    }
  }

  // ---------------------------------------------------------------------
  // The filtered view
  // ---------------------------------------------------------------------

  /** `df[mask]` for the current selection. */
  function FilterView(df: seq<CallRecord>, sel: Selection): (v: seq<CallRecord>)
    ensures |v| <= |df|
    ensures forall x :: x in v ==> x in df && Passes(x, sel)
    ensures forall i :: 0 <= i < |df| && Passes(df[i], sel) ==> df[i] in v
  {
    var m := Mask(df, sel);
    SelectSpec(df, m);
    var v := Select(df, m);
    var ix := TrueIndices(m);
    assert forall x :: x in v ==> x in df && Passes(x, sel) by {
      forall x | x in v ensures x in df && Passes(x, sel) {
        var k :| 0 <= k < |v| && v[k] == x;
        assert ix[k] in ix;
      }
    }
    assert forall i :: 0 <= i < |df| && Passes(df[i], sel) ==> df[i] in v by {
      forall i | 0 <= i < |df| && Passes(df[i], sel) ensures df[i] in v {
        var k :| 0 <= k < |ix| && ix[k] == i;
        assert v[k] == df[i];
      }
    }
    v
  }

  /**
   * The filtered view is the subsequence of rows at the positions `ix`:
   * increasing, and holding exactly the positions whose row passes.
   */
  lemma FilterViewExact(df: seq<CallRecord>, sel: Selection)
    ensures var v, ix := FilterView(df, sel), TrueIndices(Mask(df, sel));
      && |v| == |ix|
      && (forall k, l :: 0 <= k < l < |ix| ==> ix[k] < ix[l])
      && (forall k :: 0 <= k < |ix| ==> ix[k] < |df| && v[k] == df[ix[k]])
      && (forall i :: 0 <= i < |df| ==> (i in ix <==> Passes(df[i], sel)))
  {
    SelectSpec(df, Mask(df, sel));
  }

  /**
   * Counted as a bag, the filtered view holds every passing row as often as
   * the table does and no other row.
   */
  lemma {:induction false} FilterViewCounts(df: seq<CallRecord>, sel: Selection)
    ensures forall x :: multiset(FilterView(df, sel))[x] == (if Passes(x, sel) then multiset(df)[x] else 0)
  {
    if |df| > 0 {
      var n := |df| - 1;
      FilterViewCounts(df[..n], sel);
      assert Mask(df, sel)[..n] == Mask(df[..n], sel);
      assert df == df[..n] + [df[n]];
    }
  }

  /** With the default selection (every option) the view is the whole table. */
  lemma FilterDefaultIsIdentity(df: seq<CallRecord>)
    ensures FilterView(df, Options(df)) == df
  {
    var o := Options(df);
    forall i | 0 <= i < |df| ensures Passes(df[i], o) {
      assert Reasons(df)[i] == df[i].reason;
      assert Townships(df)[i] == df[i].township;
      assert Years(df)[i] == df[i].year;
    }
    SelectAllTrue(df, Mask(df, o));
  }

  /** An empty choice in any of the three multiselects empties the view. */
  lemma FilterEmptyChoice(df: seq<CallRecord>, sel: Selection)
    requires sel.reasons == [] || sel.cities == [] || sel.years == []
    ensures FilterView(df, sel) == []
  {
    SelectAllFalse(df, Mask(df, sel));
  }
}
