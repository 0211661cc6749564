/**
  Decimal numerals: Python's `str(n)` on integers, `int(text)` on strings,
  and the `int(float(text))` truncation the grade text goes through.
 */
module Numbers {
  import opened Outcomes
  import opened Text

  predicate IsDigit(c: char) {
    '0' <= c <= '9'
  }

  predicate AllDigits(s: string) {
    forall k :: 0 <= k < |s| ==> IsDigit(s[k])
  }

  function DigitValue(c: char): nat
    requires IsDigit(c)
  {
    c as int - '0' as int
  }

  function DigitChar(d: nat): (c: char)
    requires d < 10
    ensures IsDigit(c) && DigitValue(c) == d
  {
    ('0' as int + d) as char
  }

  /** The number a run of decimal digits spells, most significant digit first. */
  function DigitsValue(s: string): nat
    requires AllDigits(s)
    decreases |s|
  {
    if |s| == 0 then 0 else DigitsValue(s[..|s| - 1]) * 10 + DigitValue(s[|s| - 1])
  }

  /** Python's `str(n)` for a non-negative integer: the shortest decimal numeral of `n`. */
  function NatToString(n: nat): (s: string)
    decreases n
    ensures |s| > 0 && AllDigits(s) && DigitsValue(s) == n
    ensures |s| > 1 ==> s[0] != '0'
  {
    if n < 10 then [DigitChar(n)]
    else
      var s := NatToString(n / 10) + [DigitChar(n % 10)];
      assert s[..|s| - 1] == NatToString(n / 10);
      s
  }

  /** Python's `str(i)` for any integer. */
  function IntToString(i: int): (s: string)
    ensures |s| > 0 && (i < 0 <==> s[0] == '-')
  {
    if i < 0 then "-" + NatToString(-i) else NatToString(i)
  }

  /** The digit body `int()` accepts: digits, with single underscores allowed between two digits. */
  predicate IsDigitBody(b: string) {
    && |b| > 0
    && (forall k :: 0 <= k < |b| ==> DigitOrUnderscore(b[k]))
    && (forall k :: 0 <= k < |b| && b[k] == '_' ==> 0 < k < |b| - 1 && IsDigit(b[k + 1]))
  }

  predicate DigitOrUnderscore(c: char) {
    IsDigit(c) || c == '_'
  }

  function DropUnderscores(b: string): (r: string)
    decreases |b|
    ensures (forall k :: 0 <= k < |b| ==> DigitOrUnderscore(b[k])) ==> AllDigits(r)
    ensures AllDigits(b) ==> r == b
  {
    if |b| == 0 then ""
    else
      var rest := DropUnderscores(b[1..]);
      if b[0] == '_' then rest else [b[0]] + rest
  }

  /** Removes one leading sign, reporting whether it was a minus. */
  function Unsign(t: string): (bool, string) {
    if |t| > 0 && (t[0] == '-' || t[0] == '+') then (t[0] == '-', t[1..]) else (false, t)
  }

  /** The value of a stripped literal: one optional sign, then the digit body. */
  function ReadSigned(t: string): Option<int>
  {
    var unsigned := Unsign(t);
    if IsDigitBody(unsigned.1) then
      var v: int := DigitsValue(DropUnderscores(unsigned.1));
      Some(if unsigned.0 then -v else v)
    else None
  }

  /**
    Python's `int(text)` in base 10: surrounding C-locale whitespace is
    ignored, then one optional sign and the digit body; anything else raises
    ValueError.
   */
  function ParseInt(text: string): (r: Result<int>)
    ensures r.Err? ==> r.error == NotAnInteger(text)
    ensures AllSpace(text, StrBlanks) ==> r.Err?
  {
    match ReadSigned(Strip(text, CBlanks))
    case Some(v) =>
      assert !AllSpace(text, StrBlanks) by {
        if AllSpace(text, StrBlanks) {
          ParseIntBlank(text);
        }
      }
      Ok(v)
    case None => Err(NotAnInteger(text))
  }

  lemma ReadSignedDigits(s: string)
    requires |s| > 0 && AllDigits(s)
    ensures ReadSigned(s) == Some(DigitsValue(s))
  {
    assert Unsign(s) == (false, s);
    assert IsDigitBody(s);
  }

  lemma ReadSignedNegative(s: string)
    requires |s| > 0 && AllDigits(s)
    ensures ReadSigned("-" + s) == Some(-(DigitsValue(s) as int))
  {
    var t := "-" + s;
    assert t[1..] == s;
    assert Unsign(t) == (true, s);
    DigitBodyOfDigits(s);
    ReadSignedOf(t, true, s);
  }

  lemma DigitBodyOfDigits(s: string)
    requires |s| > 0 && AllDigits(s)
    ensures IsDigitBody(s) && DropUnderscores(s) == s
  {
  }

  lemma ReadSignedOf(t: string, negative: bool, body: string)
    requires Unsign(t) == (negative, body) && IsDigitBody(body)
    ensures ReadSigned(t) == Some(var v: int := DigitsValue(DropUnderscores(body)); if negative then -v else v)
  {
  }

  /** `int()` reads back what `str()` writes, whatever whitespace surrounds it. */
  lemma ParseIntRoundTrip(a: string, i: int, b: string)
    requires AllSpace(a, CBlanks) && AllSpace(b, CBlanks)
    ensures ParseInt(a + IntToString(i) + b) == Ok(i)
  {
    var s := IntToString(i);
    assert !IsSpace(s[0], CBlanks) && !IsSpace(s[|s| - 1], CBlanks);
    StripPadded(a, s, b, CBlanks);
    if i < 0 {
      ReadSignedNegative(NatToString(-i));
    } else {
      ReadSignedDigits(NatToString(i));
    }
  }

  /** Leading zeros do not change the value of a digit run. */
  lemma {:induction false} LeadingZeros(z: string, s: string)
    requires AllDigits(s) && forall k :: 0 <= k < |z| ==> z[k] == '0'
    ensures AllDigits(z + s) && DigitsValue(z + s) == DigitsValue(s)
    decreases |s|
  {
    if |s| == 0 {
      assert z + s == z;
      ZerosValue(z);
    } else {
      var s' := s[..|s| - 1];
      assert (z + s)[..|z + s| - 1] == z + s';
      LeadingZeros(z, s');
    }
  }

  lemma {:induction false} ZerosValue(z: string)
    requires forall k :: 0 <= k < |z| ==> z[k] == '0'
    ensures AllDigits(z) && DigitsValue(z) == 0
    decreases |z|
  {
    if |z| > 0 {
      ZerosValue(z[..|z| - 1]);
    }
  }

  /** A plain run of digits is read as the number it spells. */
  lemma ParseIntDigits(s: string)
    requires |s| > 0 && AllDigits(s)
    ensures ParseInt(s) == Ok(DigitsValue(s))
  {
    StripDigits(s);
    ReadSignedDigits(s);
  }

  /** `int(str(n))` is `n`. */
  lemma ParseNatToString(n: nat)
    ensures ParseInt(NatToString(n)) == Ok(n)
  {
    ParseIntDigits(NatToString(n));
  }

  lemma StripDigits(s: string)
    requires |s| > 0 && AllDigits(s)
    ensures Strip(s, CBlanks) == s
  {
    assert !IsSpace(s[0], CBlanks) && !IsSpace(s[|s| - 1], CBlanks);
    StripPadded("", s, "", CBlanks);
    assert "" + s + "" == s;
  }

  /** Slot keys that differ only by leading zeros, like "03" and "3", parse to the same number. */
  lemma ParseIntLeadingZeros(z: string, n: nat)
    requires forall k :: 0 <= k < |z| ==> z[k] == '0'
    ensures ParseInt(z + NatToString(n)) == Ok(n)
  {
    LeadingZeros(z, NatToString(n));
    ParseIntDigits(z + NatToString(n));
  }

  /**
    Text made only of whitespace, in the wider sense of `str.isspace`, holds
    no literal: what is left after the narrower strip is whitespace too.
   */
  lemma ParseIntBlank(text: string)
    requires AllSpace(text, StrBlanks)
    ensures ReadSigned(Strip(text, CBlanks)).None?
  {
    var t := TrimStart(text, CBlanks);
    var r := TrimEnd(t, CBlanks);
    if |r| > 0 {
      assert t[0] == text[|text| - |t|];
      assert r[0] == t[0];
      assert Unsign(r) == (false, r);
    }
  }

  /**
    The file, group, record and unit separators U+001C..U+001F are
    whitespace to `str.strip` but not to `int()`: `int('\x1c5')` raises.
   */
  lemma ParseIntSeparator()
    ensures ParseInt([28 as char] + "5") == Err(NotAnInteger([28 as char] + "5"))
    ensures Strip([28 as char] + "5", StrBlanks) == "5"
  {
    var t := [28 as char] + "5";
    SeparatorNotInteger(t);
    SeparatorStripped(t);
  }

  /** `str.strip` removes a leading separator before a digit. */
  lemma SeparatorStripped(t: string)
    requires |t| == 2 && 28 <= t[0] as int <= 31 && IsDigit(t[1])
    ensures Strip(t, StrBlanks) == t[1..]
  {
    assert AllSpace(t[..1], StrBlanks);
    StripPadded(t[..1], t[1..], "", StrBlanks);
    assert t[..1] + t[1..] + "" == t;
  }

  /** A text that starts with a separator and ends in a digit is not an integer to `int()`. */
  lemma SeparatorNotInteger(t: string)
    requires |t| > 1 && 28 <= t[0] as int <= 31 && IsDigit(t[|t| - 1])
    ensures ParseInt(t) == Err(NotAnInteger(t))
  {
    StripPadded("", t, "", CBlanks);
    assert "" + t + "" == t;
    SeparatorNotSigned(t);
  }

  lemma SeparatorNotSigned(t: string)
    requires |t| > 0 && 28 <= t[0] as int <= 31
    ensures ReadSigned(t).None?
  {
    assert Unsign(t) == (false, t);
    assert !DigitOrUnderscore(t[0]);
  }

  /**
    `t` is a plain non-negative decimal literal whose whole part is `t[..k]`:
    digits, then either nothing or a point and more digits, with at least
    one digit in all.
   */
  predicate DecimalShape(t: string, k: int) {
    && 0 <= k <= |t|
    && AllDigits(t[..k])
    && (k == |t| ==> k > 0)
    && (k < |t| ==> t[k] == '.' && AllDigits(t[k + 1..]) && |t| > 1)
  }

  /** The whole part of a decimal literal ends at its first point, or at its end when it has none. */
  lemma ShapeAtPoint(t: string, k: int)
    requires DecimalShape(t, k)
    ensures '.' !in t ==> k == |t|
    ensures forall i :: 0 <= i < |t| && t[i] == '.' && '.' !in t[..i] ==> i == k
  {
    assert forall j :: 0 <= j < k ==> t[j] == t[..k][j];
  }

  /**
    `int(float(t))` for `t` a plain non-negative decimal literal: digits,
    optionally a point and more digits, with at least one digit in all.
    The fractional part is dropped; any other text is not a number.
   */
  function TruncateDecimal(t: string): (r: Result<nat>)
    ensures r.Err? ==> r.error == NotANumber(t)
    ensures r.Ok? <==> exists k :: DecimalShape(t, k)
    ensures forall k :: DecimalShape(t, k) ==> r == Ok(DigitsValue(t[..k]))
  {
    FindCharFacts(t, '.');
    assert t[..|t|] == t;
    match FindFrom(t, ".", 0)
    case None =>
      assert forall k :: DecimalShape(t, k) ==> k == |t| by {
        forall k | DecimalShape(t, k)
          ensures k == |t|
        {
          ShapeAtPoint(t, k);
        }
      }
      if |t| > 0 && AllDigits(t) then
        assert DecimalShape(t, |t|);
        Ok(DigitsValue(t))
      else
        Err(NotANumber(t))
    case Some(i) =>
      var whole := t[..i];
      var fraction := t[i + 1..];
      assert forall k :: DecimalShape(t, k) ==> k == i by {
        forall k | DecimalShape(t, k)
          ensures k == i
        {
          ShapeAtPoint(t, k);
        }
      }
      if AllDigits(whole) && AllDigits(fraction) && |whole| + |fraction| > 0
      then
        assert DecimalShape(t, i);
        Ok(DigitsValue(whole))
      else
        Err(NotANumber(t))
  }

  lemma DigitsHaveNoPoint(s: string)
    requires AllDigits(s)
    ensures '.' !in s
  {
    assert forall k :: 0 <= k < |s| ==> s[k] != '.';
  }

  /** A numeral with a fractional part truncates to its whole part: "10.00" gives 10. */
  lemma TruncateDecimalOfFraction(whole: string, fraction: string)
    requires AllDigits(whole) && AllDigits(fraction) && |whole| + |fraction| > 0
    ensures TruncateDecimal(whole + "." + fraction) == Ok(DigitsValue(whole))
  {
    var t := whole + "." + fraction;
    DigitsHaveNoPoint(whole);
    FindCharAfter(whole, '.', fraction);
    assert t[..|whole|] == whole;
    assert t[|whole| + 1..] == fraction;
  }

  /** A numeral without a point truncates to itself. */
  lemma TruncateDecimalOfWhole(n: nat)
    ensures TruncateDecimal(NatToString(n)) == Ok(n)
  {
    var t := NatToString(n);
    ContainsChar(t, '.');
    DigitsHaveNoPoint(t);
  }
}
