/** Decimal conversion as Go's `strconv.ParseInt(s, 10, 64)` and `strconv.FormatInt(n, 10)`
    (the latter is also what `%d` prints). */
module Strconv {
  import opened Wrappers

  const MinInt64: int := -0x8000_0000_0000_0000
  const MaxInt64: int := 0x7fff_ffff_ffff_ffff

  predicate IsInt64(n: int) {
    MinInt64 <= n <= MaxInt64
  }

  predicate IsDigit(c: char) {
    '0' <= c <= '9'
  }

  predicate AllDigits(s: string) {
    forall i :: 0 <= i < |s| ==> IsDigit(s[i])
  }

  function DigitValue(c: char): (d: nat)
    requires IsDigit(c)
    ensures d < 10
  {
    (c - '0') as nat
  }

  function DigitChar(d: nat): (c: char)
    requires d < 10
    ensures IsDigit(c) && DigitValue(c) == d
  {
    ('0' as int + d) as char
  }

  /** The value of a digit string read most significant digit first
      (the accumulation `n = n*10 + d` of `strconv.ParseUint`, without its bound). */
  function DigitsValue(s: string): (v: nat)
    requires AllDigits(s)
  {
    if s == [] then 0
    else 10 * DigitsValue(s[..|s| - 1]) + DigitValue(s[|s| - 1])
  }

  /** The sign `ParseInt` accepts in front of the digits, and the digits after it. */
  function SplitSign(s: string): (signed: (bool, string))
    requires s != []
  {
    if s[0] == '+' then (false, s[1..])
    else if s[0] == '-' then (true, s[1..])
    else (false, s)
  }

  /** `strconv.ParseInt(s, 10, 64)`: an optional `+` or `-`, then one or more decimal
      digits (leading zeros allowed, no underscores, no spaces), whose value must fit
      in an int64. `None` stands for both the syntax and the range error. */
  function ParseInt64(s: string): (r: Option<int>)
    ensures r.Some? ==> IsInt64(r.value)
    ensures r.Some? ==> s != [] && SplitSign(s).1 != [] && AllDigits(SplitSign(s).1)
  {
    if s == [] then None
    else
      var (negative, digits) := SplitSign(s);
      if digits == [] || !AllDigits(digits) then None
      else
        var magnitude: int := DigitsValue(digits);
        var v := if negative then -magnitude else magnitude;
        if IsInt64(v) then Some(v) else None
  }

  /** The decimal digits of `n`, most significant first, without leading zeros. */
  function NatDigits(n: nat): (s: string)
    ensures s != [] && AllDigits(s)
    ensures s[0] == '0' ==> n == 0
  {
    if n < 10 then [DigitChar(n)]
    else NatDigits(n / 10) + [DigitChar(n % 10)]
  }

  /** `strconv.FormatInt(n, 10)`, and what `fmt` prints for `%d`. */
  function FormatInt(n: int): (s: string)
    ensures s != []
    ensures n < 0 <==> s[0] == '-'
    ensures AllDigits(if n < 0 then s[1..] else s)
  {
    if n < 0 then "-" + NatDigits(-n) else NatDigits(n)
  }

  lemma {:induction false} NatDigitsValue(n: nat)
    ensures DigitsValue(NatDigits(n)) == n
  {
    if n >= 10 {
      var s := NatDigits(n);
      NatDigitsValue(n / 10);
      assert s[..|s| - 1] == NatDigits(n / 10);
    }
  }

  /** The value `ParseInt64` gives a well-formed text: its signed digits, when they fit. */
  lemma ParseSigned(s: string, negative: bool, digits: string)
    requires s != [] && SplitSign(s) == (negative, digits) && digits != [] && AllDigits(digits)
    ensures var v := if negative then -(DigitsValue(digits) as int) else DigitsValue(digits) as int;
      ParseInt64(s) == if IsInt64(v) then Some(v) else None
  {
  }

  /** The text of `n` splits into the sign of `n` and the digits of its magnitude. */
  lemma FormatSplits(n: int)
    ensures SplitSign(FormatInt(n)) == (n < 0, NatDigits(if n < 0 then -n else n))
  {
    var s := FormatInt(n);
    if n < 0 {
      assert s[0] == '-' && s[1..] == NatDigits(-n);
    } else {
      assert s == NatDigits(n) && IsDigit(s[0]);
    }
  }

  /** Every int64 read back from its decimal text is itself: the allow-list
      entries an operator writes with `%d` are the ones parsed. */
  lemma ParseFormat(n: int)
    requires IsInt64(n)
    ensures ParseInt64(FormatInt(n)) == Some(n)
  {
    var m: nat := if n < 0 then -n else n;
    FormatSplits(n);
    NatDigitsValue(m);
    ParseSigned(FormatInt(n), n < 0, NatDigits(m));
  }

  /** A decimal number outside the int64 range is refused (the range error). */
  lemma ParseFormatOutOfRange(n: int)
    requires !IsInt64(n)
    ensures ParseInt64(FormatInt(n)) == None
  {
    var m: nat := if n < 0 then -n else n;
    FormatSplits(n);
    NatDigitsValue(m);
    ParseSigned(FormatInt(n), n < 0, NatDigits(m));
  }

  /** A sign alone, an empty string or a string with no digit at all is refused. */
  lemma ParseNeedsDigit(s: string)
    requires forall i :: 0 <= i < |s| ==> !IsDigit(s[i])
    ensures ParseInt64(s) == None
  {
    if s != [] {
      var digits := SplitSign(s).1;
      if digits != [] {
        assert digits[0] in s;
      }
    }
  }

  /** Distinct numbers have distinct decimal texts. */
  lemma FormatIntInjective(a: int, b: int)
    requires FormatInt(a) == FormatInt(b)
    ensures a == b
  {
    FormatSplits(a);
    FormatSplits(b);
    NatDigitsValue(if a < 0 then -a else a);
    NatDigitsValue(if b < 0 then -b else b);
  }

  /** A decimal text holds only a minus sign and digits: no separator of a list of ids
      (a space, a comma) occurs in it. */
  lemma FormatIntChars(n: int, c: char)
    requires c != '-' && !IsDigit(c)
    ensures c !in FormatInt(n)
  {
    var f := FormatInt(n);
    if n < 0 {
      assert f == [f[0]] + f[1..];
    }
  }

  /** A leading zero does not change the value read: `"042"` reads as `"42"`. */
  lemma {:induction false} DigitsValueLeadingZero(d: string)
    requires AllDigits(d)
    ensures AllDigits("0" + d) && DigitsValue("0" + d) == DigitsValue(d)
  {
    var z := "0" + d;
    assert AllDigits(z) by {
      forall i | 0 <= i < |z| ensures IsDigit(z[i]) {
        if i > 0 { assert z[i] == d[i - 1]; }
      }
    }
    if d != [] {
      var init := d[..|d| - 1];
      assert z[..|z| - 1] == "0" + init;
      assert z[|z| - 1] == d[|d| - 1];
      DigitsValueLeadingZero(init);
    }
  }

  /** `ParseInt` ignores a leading `+`, and a leading zero in front of the digits after
      either sign or none: `"042"`, `"+42"` read as `"42"` and `"-042"` as `"-42"`. */
  lemma LeadingZeroAndPlusIgnored(d: string)
    requires d != [] && AllDigits(d)
    ensures ParseInt64("0" + d) == ParseInt64(d)
    ensures ParseInt64("+" + d) == ParseInt64(d)
    ensures ParseInt64("-0" + d) == ParseInt64("-" + d)
  {
    DigitsValueLeadingZero(d);
    assert SplitSign(d) == (false, d) by {
      assert IsDigit(d[0]);
    }
    assert SplitSign("0" + d) == (false, "0" + d);
    assert ("+" + d)[1..] == d;
    ParseSigned("0" + d, false, "0" + d);
    ParseSigned(d, false, d);
    ParseSigned("+" + d, false, d);
    assert ("-0" + d)[1..] == "0" + d;
    assert ("-" + d)[1..] == d;
    ParseSigned("-0" + d, true, "0" + d);
    ParseSigned("-" + d, true, d);
  }

  /** `"+0"` in front of the decimal text of a non-negative int64 reads back the same number. */
  lemma ParsePadded(n: int)
    requires 0 <= n <= MaxInt64
    ensures ParseInt64("+0" + FormatInt(n)) == Some(n)
  {
    var f := FormatInt(n);
    assert "+0" + f == "+" + ("0" + f);
    LeadingZeroAndPlusIgnored("0" + f);
    LeadingZeroAndPlusIgnored(f);
    ParseFormat(n);
  }
}
