/**
 * The filter block of the dashboard: starting from a copy of the cleaned
 * table, keep the rows of the chosen category (unless 'Todas'), of the
 * chosen type (unless 'Todos'), and whose Price, Rating and Installs lie in
 * the chosen inclusive ranges.
 */
module Filters {
  import opened Wrappers
  import opened Seqs
  import opened Numeric
  import opened Cleaning

  /** The category choice that means "every category". */
  const ALL_CATEGORIES := "Todas"
  /** The type choice that means "every type". */
  const ALL_TYPES := "Todos"

  /** The two ends of a slider; both are included. */
  datatype Range = Range(lo: real, hi: real)

  /** What the sidebar widgets hand to the filter block. */
  datatype Selection = Selection(
    category: string,
    appType: string,
    price: Range,
    rating: Range,
    installs: Range)

  /** The text of the Type column. */
  function TypeName(t: AppType): string {
    match t
    case Free => "Free"
    case Paid => "Paid"
  }

  /** `lo <= v <= hi` on one cell; a null cell compares false, as NaN does. */
  predicate InRange(v: Option<real>, r: Range) {
    v.Some? && r.lo <= v.value <= r.hi
  }

  /** The conjunction of all five constraints: the row survives the filter block. */
  predicate Matches(x: Row, sel: Selection) {
    && (sel.category == ALL_CATEGORIES || x.category == sel.category)
    && (sel.appType == ALL_TYPES || TypeName(x.appType) == sel.appType)
    && InRange(x.price, sel.price)
    && InRange(x.rating, sel.rating)
    && InRange(x.installs, sel.installs)
  }

  /** `Matches` as a mask. */
  function MatchesMask(sel: Selection): Row -> bool {
    (x: Row) => Matches(x, sel)
  }

  /** `df['Category'] == c` */
  function CategoryIs(c: string): Row -> bool {
    (x: Row) => x.category == c
  }

  /** `df['Type'] == t` */
  function TypeIs(t: string): Row -> bool {
    (x: Row) => TypeName(x.appType) == t
  }

  /** The three range comparisons of the last step, joined by `&`. */
  function InRanges(sel: Selection): Row -> bool {
    (x: Row) => InRange(x.price, sel.price) && InRange(x.rating, sel.rating) && InRange(x.installs, sel.installs)
  }

  /**
   * The filter block: a copy of the table narrowed step by step, first by
   * category, then by type, then by the three ranges at once.
   */
  method ApplyFilters(df: seq<Row>, sel: Selection) returns (filtered: seq<Row>)
    ensures filtered == Filter(df, MatchesMask(sel))
    ensures IsSubsequence(filtered, df)
    ensures forall x :: x in filtered <==> x in df && Matches(x, sel)
  {
    filtered := df;
    if sel.category != ALL_CATEGORIES {
      filtered := Select(filtered, CategoryIs(sel.category));
    }
    CategoryStep(df, sel);
    var byCategory := filtered;
    if sel.appType != ALL_TYPES {
      filtered := Select(filtered, TypeIs(sel.appType));
    }
    TypeStep(byCategory, sel);
    filtered := Select(filtered, InRanges(sel));
    StepsAreConjunction(df, sel);
    FilterIsSubsequence(df, MatchesMask(sel));
    forall x ensures x in filtered <==> x in df && Matches(x, sel) {
      FilterMembers(df, MatchesMask(sel), x);
    }
  }

  /** The category step as a mask that lets everything through for 'Todas'. */
  function CategoryMask(sel: Selection): Row -> bool {
    (x: Row) => sel.category == ALL_CATEGORIES || x.category == sel.category
  }

  /** The type step as a mask that lets everything through for 'Todos'. */
  function TypeMask(sel: Selection): Row -> bool {
    (x: Row) => sel.appType == ALL_TYPES || TypeName(x.appType) == sel.appType
  }

  lemma CategoryStep(s: seq<Row>, sel: Selection)
    ensures (if sel.category != ALL_CATEGORIES then Filter(s, CategoryIs(sel.category)) else s)
            == Filter(s, CategoryMask(sel))
  {
    if sel.category != ALL_CATEGORIES {
      FilterExt(s, CategoryIs(sel.category), CategoryMask(sel));
    } else {
      FilterAll(s, CategoryMask(sel));
    }
  }

  lemma TypeStep(s: seq<Row>, sel: Selection)
    ensures (if sel.appType != ALL_TYPES then Filter(s, TypeIs(sel.appType)) else s)
            == Filter(s, TypeMask(sel))
  {
    if sel.appType != ALL_TYPES {
      FilterExt(s, TypeIs(sel.appType), TypeMask(sel));
    } else {
      FilterAll(s, TypeMask(sel));
    }
  }

  /** Narrowing by the three steps in turn is filtering by their conjunction. */
  lemma StepsAreConjunction(df: seq<Row>, sel: Selection)
    ensures Filter(Filter(Filter(df, CategoryMask(sel)), TypeMask(sel)), InRanges(sel))
            == Filter(df, MatchesMask(sel))
  {
    var c, t, r := CategoryMask(sel), TypeMask(sel), InRanges(sel);
    FilterFilter(df, c, t);
    FilterFilter(df, Both(c, t), r);
    FilterExt(df, Both(Both(c, t), r), MatchesMask(sel));
  }

  /** Applying the same selection twice gives what applying it once gives. */
  lemma FilterIdempotent(df: seq<Row>, sel: Selection)
    ensures Filter(Filter(df, MatchesMask(sel)), MatchesMask(sel)) == Filter(df, MatchesMask(sel))
  {
    Seqs.FilterIdempotent(df, MatchesMask(sel));
  }

  /**
   * Two selections applied one after the other, in either order, select
   * exactly the rows that satisfy both.
   */
  lemma SelectionsCompose(df: seq<Row>, a: Selection, b: Selection)
    ensures Filter(Filter(df, MatchesMask(a)), MatchesMask(b))
            == Filter(Filter(df, MatchesMask(b)), MatchesMask(a))
    ensures forall x :: x in Filter(Filter(df, MatchesMask(a)), MatchesMask(b)) <==>
              x in df && Matches(x, a) && Matches(x, b)
  {
    FilterCommute(df, MatchesMask(a), MatchesMask(b));
    FilterFilter(df, MatchesMask(a), MatchesMask(b));
  }

  /**
   * The scenario: a row read with Installs "10,000+", Price "$0" and Rating
   * 4.2 is kept as Installs 10000, Price 0, Type Free, and is selected by an
   * Installs range of [0, 20000] but not by [20000, 100000].
   */
  lemma FreeAppScenario(r: RawRow, sel: Selection)
    requires r.installs == "10,000+" && r.price == "$0" && r.rating == Some(4.2)
    requires sel.category == ALL_CATEGORIES && sel.appType == ALL_TYPES
    requires sel.price == Range(0.0, 50.0) && sel.rating == Range(3.0, 5.0)
    ensures var df, x := Transform([r]), CleanRow(r);
            && df == [x] && x.installs == Some(10000.0) && x.price == Some(0.0) && x.appType == Free
            && x in Filter(df, MatchesMask(sel.(installs := Range(0.0, 20000.0))))
            && x !in Filter(df, MatchesMask(sel.(installs := Range(20000.0, 100000.0))))
  {
    FreeAppRow(r);
    var x := CleanRow(r);
    FilterMembers([x], MatchesMask(sel.(installs := Range(0.0, 20000.0))), x);
    FilterMembers([x], MatchesMask(sel.(installs := Range(20000.0, 100000.0))), x);
  }
}
