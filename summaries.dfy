/**
 * The figures the dashboard shows for the filtered table: total installs,
 * the number of paid apps, the most expensive and the best rated app, and
 * the most frequent category. The row count is the length of the table.
 */
module Summaries {
  import opened Wrappers
  import opened Seqs
  import opened Cleaning
  import opened Filters

  /** `filtered_df['Installs'].sum()`: null cells are skipped, and no rows sum to 0. */
  function TotalInstalls(rows: seq<Row>): real {
    if rows == [] then 0.0
    else
      var x := rows[|rows| - 1];
      TotalInstalls(rows[..|rows| - 1]) + (if x.installs.Some? then x.installs.value else 0.0)
  }

  lemma {:induction false} TotalInstallsAppend(a: seq<Row>, b: seq<Row>)
    ensures TotalInstalls(a + b) == TotalInstalls(a) + TotalInstalls(b)
    decreases |b|
  {
    if b == [] {
      assert a + b == a;
    } else {
      assert (a + b)[..|a + b| - 1] == a + b[..|b| - 1];
      TotalInstallsAppend(a, b[..|b| - 1]);
    }
  }

  /**
   * Every row is counted on exactly one side of a mask: the total of the
   * selected rows and the total of the others make up the whole.
   */
  lemma {:induction false} TotalInstallsSplit(rows: seq<Row>, p: Row -> bool)
    ensures TotalInstalls(Filter(rows, p)) + TotalInstalls(Filter(rows, Not(p)))
            == TotalInstalls(rows)
  {
    if rows != [] {
      var init, x := rows[..|rows| - 1], rows[|rows| - 1];
      TotalInstallsSplit(init, p);
      TotalInstallsAppend(Filter(init, p), [x]);
      TotalInstallsAppend(Filter(init, Not(p)), [x]);
      assert [x][..0] == [];
    }
  }

  /** `n * v`, written as a sum so that bounds stay linear. */
  function Times(n: nat, v: real): (r: real)
    ensures r == n as real * v
  {
    if n == 0 then 0.0 else Times(n - 1, v) + v
  }

  /** When every row has Installs in [lo, hi], the total lies between lo and hi times the count. */
  lemma {:induction false} TotalInstallsWithin(rows: seq<Row>, r: Range)
    requires forall i :: 0 <= i < |rows| ==> InRange(rows[i].installs, r)
    ensures Times(|rows|, r.lo) <= TotalInstalls(rows) <= Times(|rows|, r.hi)
  {
    if rows != [] {
      var n := |rows| - 1;
      TotalInstallsWithin(rows[..n], r);
    }
  }

  /** The Installs total of a filter result is bounded by the Installs range chosen. */
  lemma FilteredTotalInstalls(df: seq<Row>, sel: Selection)
    ensures var f := Filter(df, MatchesMask(sel));
            Times(|f|, sel.installs.lo) <= TotalInstalls(f) <= Times(|f|, sel.installs.hi)
  {
    var f := Filter(df, MatchesMask(sel));
    FilteredInstallsInRange(f, sel);
    TotalInstallsWithin(f, sel.installs);
  }

  lemma FilteredInstallsInRange(f: seq<Row>, sel: Selection)
    requires forall i :: 0 <= i < |f| ==> MatchesMask(sel)(f[i])
    ensures forall i :: 0 <= i < |f| ==> InRange(f[i].installs, sel.installs)
  {
    forall i | 0 <= i < |f|
      ensures InRange(f[i].installs, sel.installs)
    {
      assert MatchesMask(sel)(f[i]);
    }
  }

  /** `len(filtered_df[filtered_df['Type'] == 'Paid'])` */
  function PaidCount(rows: seq<Row>): (n: nat)
    ensures n <= |rows|
  {
    |Filter(rows, TypeIs("Paid"))|
  }

  /** Paid and free apps together are all the apps. */
  lemma PaidPlusFree(rows: seq<Row>)
    ensures PaidCount(rows) + |Filter(rows, TypeIs("Free"))| == |rows|
  {
    FilterSplit(rows, TypeIs("Paid"));
    FilterExt(rows, Not(TypeIs("Paid")), TypeIs("Free"));
  }

  /** In the cleaned table, the paid apps are exactly the apps with a positive price. */
  lemma PaidCountIsPositivePrices(raw: seq<RawRow>)
    ensures PaidCount(Transform(raw))
            == |Filter(Transform(raw), (x: Row) => x.price.Some? && x.price.value > 0.0)|
  {
    TransformRowsValid(raw);
    FilterExt(Transform(raw), TypeIs("Paid"), (x: Row) => x.price.Some? && x.price.value > 0.0);
  }

  /** The two columns the dashboard looks for a maximum in. */
  datatype Column = PriceColumn | RatingColumn

  function Cell(x: Row, col: Column): Option<real> {
    match col
    case PriceColumn => x.price
    case RatingColumn => x.rating
  }

  /** `Series.max()`: the largest non-null cell, None (NaN) when there is none. */
  function MaxOf(rows: seq<Row>, col: Column): (m: Option<real>)
    ensures m.None? <==> forall i :: 0 <= i < |rows| ==> Cell(rows[i], col).None?
    ensures m.Some? ==> exists i :: 0 <= i < |rows| && Cell(rows[i], col) == m
    ensures m.Some? ==> forall i :: 0 <= i < |rows| && Cell(rows[i], col).Some? ==>
                          Cell(rows[i], col).value <= m.value
  {
    if rows == [] then None
    else
      var m := MaxOf(rows[..|rows| - 1], col);
      var c := Cell(rows[|rows| - 1], col);
      if c.None? then m
      else if m.None? || m.value < c.value then c
      else m
  }

  /** The position of the first row whose cell equals `v`. */
  function FirstWith(rows: seq<Row>, col: Column, v: real): (k: Option<nat>)
    ensures k.Some? ==> k.value < |rows| && Cell(rows[k.value], col) == Some(v)
    ensures k.Some? ==> forall j :: 0 <= j < k.value ==> Cell(rows[j], col) != Some(v)
    ensures k.None? ==> forall j :: 0 <= j < |rows| ==> Cell(rows[j], col) != Some(v)
  {
    if rows == [] then None
    else if Cell(rows[0], col) == Some(v) then Some(0)
    else
      match FirstWith(rows[1..], col, v)
      case None => None
      case Some(k) => Some(k + 1)
  }

  /**
   * `rows[rows[col] == rows[col].max()].iloc[0]`: the first row holding the
   * largest value of the column; None when the column has no value at all
   * (the "Nenhum app" branch).
   */
  function TopRow(rows: seq<Row>, col: Column): (top: Option<Row>)
    ensures top.None? <==> forall i :: 0 <= i < |rows| ==> Cell(rows[i], col).None?
    ensures top.Some? ==>
              exists k :: 0 <= k < |rows| && rows[k] == top.value
                && Cell(top.value, col).Some?
                && (forall j :: 0 <= j < |rows| && Cell(rows[j], col).Some? ==>
                      Cell(rows[j], col).value <= Cell(top.value, col).value)
                && (forall j :: 0 <= j < k ==> Cell(rows[j], col) != Cell(top.value, col))
  {
    match MaxOf(rows, col)
    case None => None
    case Some(m) =>
      match FirstWith(rows, col, m)
      case Some(k) => Some(rows[k])
      case None => assert false; None
  }

  /** The "App Mais Caro" row: the first row of highest price; None when no row has a price. */
  function MostExpensive(rows: seq<Row>): (top: Option<Row>)
    ensures top.None? <==> forall x :: x in rows ==> x.price.None?
    ensures top.Some? ==> top.value in rows && top.value.price.Some?
    ensures top.Some? ==> forall x :: x in rows && x.price.Some? ==> x.price.value <= top.value.price.value
  {
    TopRow(rows, PriceColumn)
  }

  /** The "App Melhor Avaliado" row: the first row of highest rating; None when no row has a rating. */
  function BestRated(rows: seq<Row>): (top: Option<Row>)
    ensures top.None? <==> forall x :: x in rows ==> x.rating.None?
    ensures top.Some? ==> top.value in rows && top.value.rating.Some?
    ensures top.Some? ==> forall x :: x in rows && x.rating.Some? ==> x.rating.value <= top.value.rating.value
  {
    TopRow(rows, RatingColumn)
  }

  /** `value_counts()` of one category. */
  function CategoryCount(rows: seq<Row>, c: string): nat {
    if rows == [] then 0
    else CategoryCount(rows[..|rows| - 1], c) + (if rows[|rows| - 1].category == c then 1 else 0)
  }

  /** The count is the length of `df[df['Category'] == c]`. */
  lemma {:induction false} CategoryCountIsMask(rows: seq<Row>, c: string)
    ensures CategoryCount(rows, c) == |Filter(rows, CategoryIs(c))|
  {
    if rows != [] {
      CategoryCountIsMask(rows[..|rows| - 1], c);
    }
  }

  /** A most frequent category among those of the first `k` rows (the earliest on a tie). */
  function MostFrequentAmong(rows: seq<Row>, k: nat): (c: string)
    requires 0 < k <= |rows|
    ensures exists i :: 0 <= i < k && rows[i].category == c
    ensures forall i :: 0 <= i < k ==> CategoryCount(rows, rows[i].category) <= CategoryCount(rows, c)
  {
    if k == 1 then rows[0].category
    else
      var best := MostFrequentAmong(rows, k - 1);
      var c := rows[k - 1].category;
      if CategoryCount(rows, c) > CategoryCount(rows, best) then c else best
  }

  /** `value_counts().index[0]`: a category that occurs most often; None for no rows. */
  function TopCategory(rows: seq<Row>): (top: Option<string>)
    ensures top.None? <==> rows == []
    ensures top.Some? ==> exists i :: 0 <= i < |rows| && rows[i].category == top.value
    ensures top.Some? ==> forall i :: 0 <= i < |rows| ==>
                            CategoryCount(rows, rows[i].category) <= CategoryCount(rows, top.value)
  {
    if rows == [] then None else Some(MostFrequentAmong(rows, |rows|))
  }

  /** With no rows selected every figure has its defined empty value. */
  lemma EmptySelection()
    ensures TotalInstalls([]) == 0.0 && PaidCount([]) == 0
    ensures MostExpensive([]) == None && BestRated([]) == None && TopCategory([]) == None
  {
  }
}
