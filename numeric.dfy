/**
 * The two string operations the loader applies to a raw cell:
 * `str.replace(c, '', regex=False)`, which deletes every occurrence of one
 * character, and `pd.to_numeric(..., errors='coerce')`, which turns text
 * into a number or, when the text is not a number, into a null.
 *
 * Numbers are exact decimals (`real`); the model accepts an optional sign
 * followed by digits with at most one decimal point and at least one digit.
 */
module Numeric {
  import opened Wrappers

  predicate IsDigit(c: char) {
    '0' <= c <= '9'
  }

  predicate AllDigits(s: string) {
    forall i :: 0 <= i < |s| ==> IsDigit(s[i])
  }

  /** The characters that can appear in text that converts to a number. */
  predicate IsNumeral(c: char) {
    IsDigit(c) || c == '.' || c == '+' || c == '-'
  }

  /** `s.replace(c, '')`: every occurrence of `c` deleted, the rest kept in order. */
  function RemoveChar(s: string, c: char): (r: string)
    ensures |r| <= |s|
  {
    if s == [] then []
    else (if s[0] == c then [] else [s[0]]) + RemoveChar(s[1..], c)
  }

  /** What is left is exactly the characters other than `c`. */
  lemma {:induction false} RemoveCharMembers(s: string, c: char, x: char)
    ensures x in RemoveChar(s, c) <==> x in s && x != c
  {
    if s != [] {
      RemoveCharMembers(s[1..], c, x);
      assert s == [s[0]] + s[1..];
    }
  }

  lemma {:induction false} RemoveCharAppend(s: string, t: string, c: char)
    ensures RemoveChar(s + t, c) == RemoveChar(s, c) + RemoveChar(t, c)
  {
    if s == [] {
      assert s + t == t;
    } else {
      assert (s + t)[1..] == s[1..] + t;
      RemoveCharAppend(s[1..], t, c);
    }
  }

  /** Text without `c` is left as it is. */
  lemma {:induction false} RemoveCharAbsent(s: string, c: char)
    requires c !in s
    ensures RemoveChar(s, c) == s
  {
    if s != [] {
      RemoveCharAbsent(s[1..], c);
    }
  }

  /** The order of two replacements does not matter. */
  lemma {:induction false} RemoveCharCommute(s: string, c: char, d: char)
    ensures RemoveChar(RemoveChar(s, c), d) == RemoveChar(RemoveChar(s, d), c)
  {
    if s != [] {
      RemoveCharCommute(s[1..], c, d);
      var h := if s[0] == c then [] else [s[0]];
      var k := if s[0] == d then [] else [s[0]];
      RemoveCharAppend(h, RemoveChar(s[1..], c), d);
      RemoveCharAppend(k, RemoveChar(s[1..], d), c);
    }
  }

  function DigitValue(c: char): (n: nat)
    requires IsDigit(c)
    ensures n < 10
  {
    c as int - '0' as int
  }

  function DigitChar(n: nat): (c: char)
    requires n < 10
    ensures IsDigit(c) && DigitValue(c) == n
  {
    ('0' as int + n) as char
  }

  /** The value of a string of decimal digits, most significant first. */
  function DigitsValue(s: string): nat
    requires AllDigits(s)
  {
    if s == [] then 0 else DigitsValue(s[..|s| - 1]) * 10 + DigitValue(s[|s| - 1])
  }

  function Pow10(n: nat): (p: nat)
    ensures p >= 1
  {
    if n == 0 then 1 else 10 * Pow10(n - 1)
  }

  /** The position of the first `c` in `s`. */
  function IndexOf(s: string, c: char): (k: nat)
    requires c in s
    ensures k < |s| && s[k] == c && c !in s[..k]
  {
    if s[0] == c then 0 else 1 + IndexOf(s[1..], c)
  }

  /** Digits with at most one decimal point, at least one digit, no sign. */
  function ParseUnsigned(s: string): Option<real> {
    if '.' in s then
      var k := IndexOf(s, '.');
      ParseFraction(s[..k], s[k + 1..])
    else if AllDigits(s) && s != [] then Some(DigitsValue(s) as real)
    else None
  }

  /** The digits before and after the decimal point; one side may be empty, not both. */
  function ParseFraction(whole: string, frac: string): Option<real> {
    if AllDigits(whole) && AllDigits(frac) && |whole| + |frac| > 0 then
      Some(DecimalValue(whole, frac))
    else None
  }

  /** The number that `<whole>.<frac>` denotes. */
  function DecimalValue(whole: string, frac: string): real
    requires AllDigits(whole) && AllDigits(frac)
  {
    DigitsValue(whole) as real + DigitsValue(frac) as real / Pow10(|frac|) as real
  }

  /**
   * `pd.to_numeric(s, errors='coerce')` on one cell: a number, or None where
   * pandas produces NaN instead of raising.
   */
  function ToNumeric(s: string): Option<real> {
    if s != [] && s[0] == '-' then
      match ParseUnsigned(s[1..])
      case Some(v) => Some(-v)
      case None => None
    else if s != [] && s[0] == '+' then ParseUnsigned(s[1..])
    else ParseUnsigned(s)
  }

  lemma ParseUnsignedShape(t: string)
    requires ParseUnsigned(t).Some?
    ensures t != [] && ParseUnsigned(t).value >= 0.0
    ensures forall i :: 0 <= i < |t| ==> IsNumeral(t[i])
  {
    if '.' in t {
      var k := IndexOf(t, '.');
      assert t == t[..k] + [t[k]] + t[k + 1..];
    }
  }

  /** Only numerals convert, and only a leading `-` gives a negative number. */
  lemma ToNumericShape(s: string)
    requires ToNumeric(s).Some?
    ensures s != [] && forall i :: 0 <= i < |s| ==> IsNumeral(s[i])
    ensures s[0] != '-' ==> ToNumeric(s).value >= 0.0
  {
    if s != [] && (s[0] == '-' || s[0] == '+') {
      ParseUnsignedShape(s[1..]);
      forall i | 1 <= i < |s| ensures IsNumeral(s[i]) {
        assert s[i] == s[1..][i - 1];
      }
    } else {
      ParseUnsignedShape(s);
    }
  }

  /** Text with a character that cannot belong to a number (a letter, a space) is null. */
  lemma NonNumeralIsNull(s: string, i: nat)
    requires i < |s| && !IsNumeral(s[i])
    ensures ToNumeric(s) == None
  {
    if ToNumeric(s).Some? {
      ToNumericShape(s);
    }
  }

  /** Text that starts with a digit has no sign to strip. */
  lemma Unsigned(s: string)
    requires s != [] && IsDigit(s[0])
    ensures ToNumeric(s) == ParseUnsigned(s)
  {
  }

  /** A plain run of digits converts to its value. */
  lemma DigitsConvert(s: string)
    requires AllDigits(s) && s != []
    ensures ToNumeric(s) == Some(DigitsValue(s) as real)
  {
  }

  /** `<digits>.<digits>` converts to the decimal it denotes. */
  lemma DecimalConverts(whole: string, frac: string)
    requires AllDigits(whole) && AllDigits(frac) && whole != []
    ensures ToNumeric(whole + "." + frac) == Some(DecimalValue(whole, frac))
  {
    var s := whole + "." + frac;
    assert ParseUnsigned(s) == ParseFraction(whole, frac) by {
      DecimalSplits(whole, frac);
    }
    assert s[0] == whole[0];
    Unsigned(s);
  }

  lemma DecimalSplits(whole: string, frac: string)
    requires AllDigits(whole)
    ensures '.' in whole + "." + frac
    ensures IndexOf(whole + "." + frac, '.') == |whole|
    ensures (whole + "." + frac)[..|whole|] == whole
    ensures (whole + "." + frac)[|whole| + 1..] == frac
  {
    var s := whole + "." + frac;
    assert s[|whole|] == '.';
  }

  /** The decimal rendering of a natural number (as `str(n)` writes it). */
  function NatToString(n: nat): (s: string)
    ensures AllDigits(s) && s != []
  {
    if n < 10 then [DigitChar(n)] else NatToString(n / 10) + [DigitChar(n % 10)]
  }

  lemma {:induction false} DigitsValueOfNatToString(n: nat)
    ensures DigitsValue(NatToString(n)) == n
  {
    if n >= 10 {
      DigitsValueOfNatToString(n / 10);
      var s := NatToString(n);
      assert s[..|s| - 1] == NatToString(n / 10);
    }
  }

  /** Conversion inverts rendering: `to_numeric(str(n)) == n`. */
  lemma NatToStringRoundTrip(n: nat)
    ensures ToNumeric(NatToString(n)) == Some(n as real)
  {
    DigitsValueOfNatToString(n);
    DigitsConvert(NatToString(n));
  }
}
