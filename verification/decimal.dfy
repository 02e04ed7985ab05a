/** Decimal text as Go reads and writes it: strconv.Atoi, used for every
    numeric argument of a repeat rule, and the zero-padded integer printer the
    time package uses when it formats a date. */
module Decimal {
  import opened Results

  predicate IsDigit(c: char) {
    '0' <= c <= '9'
  }

  predicate AllDigits(s: string) {
    forall i :: 0 <= i < |s| ==> IsDigit(s[i])
  }

  function DigitValue(c: char): nat
    requires IsDigit(c)
  {
    (c as int - '0' as int) as nat
  }

  function DigitChar(n: nat): (c: char)
    requires n < 10
    ensures IsDigit(c) && DigitValue(c) == n
  {
    ('0' as int + n) as char
  }

  function Pow10(n: nat): nat {
    if n == 0 then 1 else 10 * Pow10(n - 1)
  }

  /** The number a string of decimal digits denotes, most significant first. */
  function Value(s: string): nat
    requires AllDigits(s)
  {
    if |s| == 0 then 0 else Value(s[..|s| - 1]) * 10 + DigitValue(s[|s| - 1])
  }

  /** Go's appendInt(b, n, width) in the time package: the decimal digits of
      n, padded on the left with zeros to at least `width` characters. */
  function Digits(n: nat, width: nat): (s: string)
    ensures |s| >= 1 && |s| >= width && AllDigits(s)
    ensures Value(s) == n
    ensures |s| > 1 && |s| > width ==> s[0] != '0'
    decreases n + width
  {
    if n < 10 && width <= 1 then
      [DigitChar(n)]
    else
      var s := Digits(n / 10, if width > 0 then width - 1 else 0) + [DigitChar(n % 10)];
      assert s[..|s| - 1] == Digits(n / 10, if width > 0 then width - 1 else 0);
      s
  }

  lemma {:induction false} ValueBound(s: string)
    requires AllDigits(s)
    ensures Value(s) < Pow10(|s|)
    decreases |s|
  {
    if |s| > 0 {
      ValueBound(s[..|s| - 1]);
    }
  }

  /** A numeral written with exactly `width` digits is printed back unchanged. */
  lemma {:induction false} DigitsOfValue(s: string)
    requires |s| >= 1 && AllDigits(s)
    ensures Digits(Value(s), |s|) == s
    decreases |s|
  {
    var n := Value(s);
    var init := s[..|s| - 1];
    assert n / 10 == Value(init) && n % 10 == DigitValue(s[|s| - 1]);
    if |s| == 1 {
      assert Value(init) == 0;
    } else {
      DigitsOfValue(init);
      assert s == init + [s[|s| - 1]];
    }
  }

  /** A number below 10^width is printed in exactly `width` characters. */
  lemma {:induction false} DigitsWidth(n: nat, width: nat)
    requires width >= 1
    ensures n < Pow10(width) ==> |Digits(n, width)| == width
    decreases width
  {
    if n < Pow10(width) && !(n < 10 && width <= 1) {
      DigitsWidth(n / 10, width - 1);
    }
  }

  /** A number too large for `width` digits is printed without padding. */
  lemma DigitsBeyondWidth(n: nat, width: nat)
    ensures Pow10(width) <= n ==> |Digits(n, width)| > width && Digits(n, width)[0] != '0'
  {
    ValueBound(Digits(n, width));
    if |Digits(n, width)| <= width {
      Pow10Monotone(|Digits(n, width)|, width);
    }
  }

  lemma {:induction false} Pow10Monotone(a: nat, b: nat)
    requires a <= b
    ensures Pow10(a) <= Pow10(b)
    decreases b
  {
    if a < b {
      Pow10Monotone(a, b - 1);
    }
  }

  const MinInt: int := -0x8000_0000_0000_0000
  const MaxInt: int := 0x7fff_ffff_ffff_ffff

  /** The text Atoi accepts: an optional sign followed by at least one digit. */
  predicate IsIntegerText(s: string) {
    && |s| >= 1
    && var body := if s[0] == '+' || s[0] == '-' then s[1..] else s;
       |body| >= 1 && AllDigits(body)
  }

  /** strconv.Atoi on a 64-bit platform: an optional sign and decimal digits,
      failing on anything else and on values outside the int64 range. */
  function Atoi(s: string): (r: Option<int>)
    ensures r.Some? ==> IsIntegerText(s) && MinInt <= r.value <= MaxInt
    ensures r.Some? && IsDigit(s[0]) ==> r.value >= 0
  {
    if |s| == 0 then
      None
    else
      var negative := s[0] == '-';
      var body := if s[0] == '+' || s[0] == '-' then s[1..] else s;
      if |body| == 0 || !AllDigits(body) then
        None
      else
        var n: int := Value(body);
        var v := if negative then -n else n;
        if MinInt <= v <= MaxInt then Some(v) else None
  }

  /** The canonical decimal text of an integer: a minus sign for negative
      values, no leading zeros. */
  function IntText(v: int): string {
    if v < 0 then "-" + Digits(-v, 1) else Digits(v, 1)
  }

  /** Every 64-bit integer's canonical text is read back as that integer. */
  lemma AtoiIntText(v: int)
    requires MinInt <= v <= MaxInt
    ensures Atoi(IntText(v)) == Some(v)
  {
    if v < 0 {
      assert IntText(v)[1..] == Digits(-v, 1);
    }
  }

  /** Digit text with or without a sign, leading zeros included, reads as
      its value, negated after a minus sign, exactly when that value fits
      in an int64; otherwise Atoi fails with a range error. */
  lemma AtoiDigits(t: string)
    requires |t| >= 1 && AllDigits(t)
    ensures Atoi(t) == if Value(t) <= MaxInt then Some(Value(t) as int) else None
    ensures Atoi("+" + t) == if Value(t) <= MaxInt then Some(Value(t) as int) else None
    ensures Atoi("-" + t) == if MinInt <= -(Value(t) as int) then Some(-(Value(t) as int)) else None
  {
    AtoiSigned("+" + t, t);
    AtoiSigned("-" + t, t);
  }

  /** Atoi on a sign followed by digit text reads the digits after it. */
  lemma AtoiSigned(s: string, t: string)
    requires |s| == |t| + 1 && (s[0] == '+' || s[0] == '-') && s[1..] == t
    requires |t| >= 1 && AllDigits(t)
    ensures var v := if s[0] == '-' then -(Value(t) as int) else Value(t) as int;
      Atoi(s) == if MinInt <= v <= MaxInt then Some(v) else None
  {
  }

}
