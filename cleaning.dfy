/**
 * The loader of the dashboard (`load_and_transform_data`): drop duplicate
 * rows, convert the Installs, Price, Reviews and Size columns from text to
 * numbers, derive Type from Price, and drop the rows whose Installs, Rating
 * or Price is null.
 */
module Cleaning {
  import opened Wrappers
  import opened Seqs
  import opened Numeric

  /**
   * One row of the CSV as read. Rating is already numeric (None for NaN);
   * the other inspected columns are text; `other` holds the columns the
   * dashboard never inspects (they still take part in duplicate detection).
   */
  datatype RawRow = RawRow(
    app: string,
    category: string,
    rating: Option<real>,
    reviews: string,
    size: string,
    installs: string,
    appType: string,
    price: string,
    other: seq<string>)

  datatype AppType = Free | Paid

  /** A row after conversion; None is a null cell. */
  datatype Row = Row(
    app: string,
    category: string,
    rating: Option<real>,
    reviews: Option<real>,
    size: Option<real>,
    installs: Option<real>,
    appType: AppType,
    price: Option<real>,
    other: seq<string>)

  /** Installs: delete every `+` and every `,`, then convert. */
  function ParseInstalls(raw: string): Option<real> {
    ToNumeric(RemoveChar(RemoveChar(raw, '+'), ','))
  }

  /** Price: delete every `$`, then convert. */
  function ParsePrice(raw: string): Option<real> {
    ToNumeric(RemoveChar(raw, '$'))
  }

  /** Reviews: convert as it is. */
  function ParseReviews(raw: string): Option<real> {
    ToNumeric(raw)
  }

  /** Size: delete every `M` and every `k` (no unit conversion), then convert. */
  function ParseSize(raw: string): Option<real> {
    ToNumeric(RemoveChar(RemoveChar(raw, 'M'), 'k'))
  }

  /** `'Paid' if x > 0 else 'Free'`; a null price compares false, so it is Free. */
  function DeriveType(price: Option<real>): AppType {
    if price.Some? && price.value > 0.0 then Paid else Free
  }

  /** Steps 2 to 6 of the loader, applied to one row. */
  function CleanRow(r: RawRow): Row {
    var price := ParsePrice(r.price);
    Row(r.app, r.category, r.rating, ParseReviews(r.reviews), ParseSize(r.size),
        ParseInstalls(r.installs), DeriveType(price), price, r.other)
  }

  /** `dropna(subset=['Installs', 'Rating', 'Price'])` keeps exactly these rows. */
  predicate Complete(r: Row) {
    r.installs.Some? && r.rating.Some? && r.price.Some?
  }

  /** The table the loader returns, as a function of the rows read. */
  function Transform(raw: seq<RawRow>): seq<Row> {
    Filter(Map(Dedup(raw), CleanRow), Complete)
  }

  /** The loader: deduplicate, convert the columns, then drop incomplete rows. */
  method LoadAndTransform(raw: seq<RawRow>) returns (df: seq<Row>)
    ensures df == Transform(raw)
  {
    var unique := DropDuplicates(raw);
    var parsed := ConvertColumns(unique);
    df := Select(parsed, Complete);
  }

  /**
   * Steps 2 to 6: each column is rewritten cell by cell, and no cell depends
   * on another row, so one pass over the rows converts them all.
   */
  method ConvertColumns(unique: seq<RawRow>) returns (parsed: seq<Row>)
    ensures parsed == Map(unique, CleanRow)
  {
    parsed := [];
    for i := 0 to |unique|
      invariant parsed == Map(unique[..i], CleanRow)
    {
      assert unique[..i + 1][..i] == unique[..i];
      parsed := parsed + [CleanRow(unique[i])];
    }
    assert unique[..|unique|] == unique;
  }

  /** Every retained row has Installs, Rating and Price, and its Type agrees with its Price. */
  lemma TransformRowsValid(raw: seq<RawRow>)
    ensures forall x :: x in Transform(raw) ==>
              Complete(x) && (x.appType == Paid <==> x.price.value > 0.0)
  {
    var cleaned := Map(Dedup(raw), CleanRow);
    forall x | x in Transform(raw)
      ensures Complete(x) && (x.appType == Paid <==> x.price.value > 0.0)
    {
      var i :| 0 <= i < |Transform(raw)| && Transform(raw)[i] == x;
      assert x in cleaned && Complete(x);
      var j :| 0 <= j < |cleaned| && cleaned[j] == x;
    }
  }

  /**
   * A row is in the cleaned table exactly when it is the conversion of some
   * row read and has Installs, Rating and Price: conversion never fails
   * loudly, and only a null in one of those three columns removes a row.
   */
  lemma TransformMembership(raw: seq<RawRow>, x: Row)
    ensures x in Transform(raw) <==>
              Complete(x) && exists i :: 0 <= i < |raw| && CleanRow(raw[i]) == x
  {
    if x in Transform(raw) {
      RetainedRowIsRead(raw, x);
    }
    if Complete(x) && exists i :: 0 <= i < |raw| && CleanRow(raw[i]) == x {
      var i :| 0 <= i < |raw| && CleanRow(raw[i]) == x;
      CompleteRowIsRetained(raw, i);
    }
  }

  lemma RetainedRowIsRead(raw: seq<RawRow>, x: Row)
    requires x in Transform(raw)
    ensures Complete(x) && exists i :: 0 <= i < |raw| && CleanRow(raw[i]) == x
  {
    var unique := Dedup(raw);
    var cleaned := Map(unique, CleanRow);
    var k :| 0 <= k < |Transform(raw)| && Transform(raw)[k] == x;
    assert x in cleaned && Complete(x);
    var j :| 0 <= j < |cleaned| && cleaned[j] == x;
    assert unique[j] in raw;
    var i :| 0 <= i < |raw| && raw[i] == unique[j];
    assert CleanRow(raw[i]) == x;
  }

  lemma CompleteRowIsRetained(raw: seq<RawRow>, i: nat)
    requires i < |raw| && Complete(CleanRow(raw[i]))
    ensures CleanRow(raw[i]) in Transform(raw)
  {
    var unique := Dedup(raw);
    var cleaned := Map(unique, CleanRow);
    assert raw[i] in unique;
    var j :| 0 <= j < |unique| && unique[j] == raw[i];
    assert cleaned[j] == CleanRow(raw[i]);
  }

  /** A null Size never causes a row to be dropped. */
  lemma SizeNeverDrops(raw: seq<RawRow>, i: nat)
    requires i < |raw|
    requires ParseInstalls(raw[i].installs).Some? && raw[i].rating.Some?
    requires ParsePrice(raw[i].price).Some?
    ensures CleanRow(raw[i]) in Transform(raw)
  {
    TransformMembership(raw, CleanRow(raw[i]));
  }

  /** The cleaned table keeps the order of the rows read. */
  lemma TransformKeepsOrder(raw: seq<RawRow>)
    ensures IsSubsequence(Transform(raw), Map(raw, CleanRow))
  {
    var unique := Dedup(raw);
    FilterIsSubsequence(Map(unique, CleanRow), Complete);
    DedupIsSubsequence(raw);
    SubsequenceMap(unique, raw, CleanRow);
    SubsequenceTransitive(Transform(raw), Map(unique, CleanRow), Map(raw, CleanRow));
  }

  /** Two identical rows read give one row in the cleaned table. */
  lemma IdenticalRowsCollapse(r: RawRow)
    ensures Transform([r, r]) == if Complete(CleanRow(r)) then [CleanRow(r)] else []
  {
    assert [r, r][..1] == [r];
    assert Dedup([r, r]) == [r];
  }

  /**
   * Duplicates are detected on the raw text, before conversion, and the raw
   * Type column is overwritten afterwards: two rows read that differ only in
   * that column both survive, as two equal cleaned rows.
   */
  lemma DuplicatesAfterCleaning(r: RawRow, t: string)
    requires t != r.appType && Complete(CleanRow(r))
    ensures Transform([r, r.(appType := t)]) == [CleanRow(r), CleanRow(r)]
  {
    var r', x := r.(appType := t), CleanRow(r);
    assert [r, r'][..1] == [r];
    assert Dedup([r]) == [r];
    assert Dedup([r, r']) == [r, r'];
    assert CleanRow(r') == x;
    assert Map([r, r'], CleanRow) == [x, x];
    assert [x, x][..1] == [x] && [x][..0] == [];
    assert Filter([x], Complete) == [x];
  }

  /**
   * A row read with Installs "10,000+", Price "$0" and a Rating is kept, as
   * Installs 10000, Price 0 and Type Free.
   */
  lemma FreeAppRow(r: RawRow)
    requires r.installs == "10,000+" && r.price == "$0" && r.rating.Some?
    ensures var x := CleanRow(r);
            && x.installs == Some(10000.0) && x.price == Some(0.0) && x.appType == Free
            && Transform([r]) == [x]
  {
    InstallsExample();
    DollarZeroExample();
    var x := CleanRow(r);
    assert [r][..0] == [];
    assert Dedup([r]) == [r];
    assert Map([r], CleanRow) == [x];
    assert Filter([x], Complete) == [x];
  }

  /** Text made of digits, `,` and `+` converts to the value of its digits, as "10,000+" does. */
  lemma InstallsDecorated(s: string, d: nat)
    requires forall i :: 0 <= i < |s| ==> IsDigit(s[i]) || s[i] == ',' || s[i] == '+'
    requires d < |s| && IsDigit(s[d])
    ensures var digits := RemoveChar(RemoveChar(s, '+'), ',');
            AllDigits(digits) && ParseInstalls(s) == Some(DigitsValue(digits) as real)
  {
    var digits := RemoveChar(RemoveChar(s, '+'), ',');
    RemoveCharMembers(s, '+', s[d]);
    RemoveCharMembers(RemoveChar(s, '+'), ',', s[d]);
    forall i | 0 <= i < |digits| ensures IsDigit(digits[i]) {
      RemoveCharMembers(RemoveChar(s, '+'), ',', digits[i]);
      RemoveCharMembers(s, '+', digits[i]);
    }
    DigitsConvert(digits);
  }

  /** Text with a character other than a numeral or `,` has null Installs. */
  lemma InstallsOfText(s: string, i: nat)
    requires i < |s| && !IsNumeral(s[i]) && s[i] != ','
    ensures ParseInstalls(s) == None
  {
    var t := RemoveChar(RemoveChar(s, '+'), ',');
    RemoveCharMembers(s, '+', s[i]);
    RemoveCharMembers(RemoveChar(s, '+'), ',', s[i]);
    var j :| 0 <= j < |t| && t[j] == s[i];
    NonNumeralIsNull(t, j);
  }

  lemma InstallsExample()
    ensures ParseInstalls("10,000+") == Some(10000.0)
  {
    InstallsStripped();
    assert ParseInstalls("10,000+") == ToNumeric("10000");
    TenThousandValue();
    DigitsConvert("10000");
  }

  lemma InstallsStripped()
    ensures RemoveChar(RemoveChar("10,000+", '+'), ',') == "10000"
  {
    PlusStripped();
    CommaStripped();
  }

  lemma PlusStripped()
    ensures RemoveChar("10,000+", '+') == "10,000"
  {
  }

  lemma CommaStripped()
    ensures RemoveChar("10,000", ',') == "10000"
  {
  }

  lemma TenThousandValue()
    ensures AllDigits("10000") && DigitsValue("10000") == 10000
  {
    assert "10000"[..4] == "1000" && "1000"[..3] == "100" && "100"[..2] == "10" && "10"[..1] == "1";
  }

  lemma InstallsTextExample()
    ensures ParseInstalls("Free") == None
  {
    InstallsOfText("Free", 0);
  }

  /** `$<digits>.<digits>` converts to the decimal after the dollar sign. */
  lemma PriceDollarDecimal(whole: string, frac: string)
    requires AllDigits(whole) && AllDigits(frac) && whole != []
    ensures ParsePrice("$" + whole + "." + frac) == Some(DecimalValue(whole, frac))
  {
    var t := whole + "." + frac;
    assert "$" + whole + "." + frac == "$" + t;
    assert '$' !in t;
    RemoveCharAppend("$", t, '$');
    RemoveCharAbsent(t, '$');
    assert RemoveChar("$", '$') == [];
    assert RemoveChar("$" + t, '$') == t;
    DecimalConverts(whole, frac);
  }

  /** Text with a character other than a numeral or `$` has a null Price. */
  lemma PriceOfText(s: string, i: nat)
    requires i < |s| && !IsNumeral(s[i]) && s[i] != '$'
    ensures ParsePrice(s) == None
  {
    var t := RemoveChar(s, '$');
    RemoveCharMembers(s, '$', s[i]);
    var j :| 0 <= j < |t| && t[j] == s[i];
    NonNumeralIsNull(t, j);
  }

  lemma PriceExample()
    ensures ParsePrice("$4.99") == Some(4.99) && DeriveType(ParsePrice("$4.99")) == Paid
  {
    PriceDollarDecimal("4", "99");
    assert "$" + "4" + "." + "99" == "$4.99";
    FourNinetyNine();
  }

  lemma FourNinetyNine()
    ensures AllDigits("4") && AllDigits("99") && DecimalValue("4", "99") == 4.99
  {
    assert "99"[..1] == "9";
    assert DigitsValue("4") == 4 && DigitsValue("99") == 99 && Pow10(2) == 100;
  }

  lemma FreePriceExample()
    ensures ParsePrice("0") == Some(0.0) && DeriveType(ParsePrice("0")) == Free
  {
    RemoveCharAbsent("0", '$');
    DigitsConvert("0");
  }

  lemma DollarZeroExample()
    ensures ParsePrice("$0") == Some(0.0)
  {
    assert RemoveChar("$0", '$') == "0";
    DigitsConvert("0");
  }

  lemma PriceTextExample()
    ensures ParsePrice("Everyone") == None && DeriveType(ParsePrice("Everyone")) == Free
  {
    PriceOfText("Everyone", 0);
  }

  /** Removing a unit letter changes nothing: "19M" and "19k" have the same Size. */
  lemma SizeIgnoresUnit(s: string, u: char)
    requires u == 'M' || u == 'k'
    ensures ParseSize(s + [u]) == ParseSize(s)
  {
    var m := RemoveChar([u], 'M');
    assert [u][1..] == [];
    if u == 'M' {
      assert m == [];
    } else {
      assert m == [u];
    }
    assert RemoveChar(m, 'k') == [];
    var t := RemoveChar(RemoveChar(s, 'M'), 'k');
    RemoveCharAppend(s, [u], 'M');
    RemoveCharAppend(RemoveChar(s, 'M'), m, 'k');
    assert RemoveChar(RemoveChar(s + [u], 'M'), 'k') == t + [];
    assert t + [] == t;
  }

  /** A plain number of megabytes or kilobytes keeps its digits' value. */
  lemma SizeOfDigits(digits: string, u: char)
    requires AllDigits(digits) && digits != []
    requires u == 'M' || u == 'k'
    ensures ParseSize(digits + [u]) == Some(DigitsValue(digits) as real)
  {
    SizeIgnoresUnit(digits, u);
    RemoveCharAbsent(digits, 'M');
    RemoveCharAbsent(digits, 'k');
    DigitsConvert(digits);
  }

  /** Text with a character other than a numeral, `M` or `k` has a null Size. */
  lemma SizeOfText(s: string, i: nat)
    requires i < |s| && !IsNumeral(s[i]) && s[i] != 'M' && s[i] != 'k'
    ensures ParseSize(s) == None
  {
    var t := RemoveChar(RemoveChar(s, 'M'), 'k');
    RemoveCharMembers(s, 'M', s[i]);
    RemoveCharMembers(RemoveChar(s, 'M'), 'k', s[i]);
    var j :| 0 <= j < |t| && t[j] == s[i];
    NonNumeralIsNull(t, j);
  }

  lemma SizeMegabytesExample()
    ensures ParseSize("19M") == Some(19.0)
  {
    assert "19M" == "19" + ['M'];
    SizeOfDigits("19", 'M');
    NineteenValue();
  }

  lemma NineteenValue()
    ensures AllDigits("19") && DigitsValue("19") == 19
  {
    assert "19"[..1] == "1";
  }

  lemma SizeKilobytesExample()
    ensures ParseSize("512k") == Some(512.0)
  {
    assert "512k" == "512" + ['k'];
    SizeOfDigits("512", 'k');
    FiveTwelveValue();
  }

  lemma FiveTwelveValue()
    ensures AllDigits("512") && DigitsValue("512") == 512
  {
    assert "512"[..2] == "51" && "51"[..1] == "5";
  }

  lemma SizeTextExample()
    ensures ParseSize("Varies with device") == None
  {
    SizeOfText("Varies with device", 0);
  }
}
