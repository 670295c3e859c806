/**
 * Java value types the message plane relies on: the fixed-width integers,
 * nullable references (`Option`), exceptions as `Result`, and
 * `Integer.parseInt`, which the routing table applies to instance metadata.
 */
module JavaTypes {

  /** A Java reference that may be null. */
  datatype Option<+T> = None | Some(value: T)

  /** A normal return or a thrown exception. */
  datatype Result<+T, +E> = Ok(value: T) | Err(error: E)

  type int8 = x: int | -0x80 <= x < 0x80
  type int16 = x: int | -0x8000 <= x < 0x8000
  type int32 = x: int | -0x8000_0000 <= x < 0x8000_0000
  type int64 = x: int | -0x8000_0000_0000_0000 <= x < 0x8000_0000_0000_0000
  /** One byte on the wire, read as an unsigned value. */
  type uint8 = x: int | 0 <= x < 0x100

  // ---------------------------------------------------------------------
  // Integer.parseInt(String) with radix 10
  // ---------------------------------------------------------------------

  predicate IsDigit(c: char) {
    '0' <= c <= '9'
  }

  predicate AllDigits(s: string) {
    forall i :: 0 <= i < |s| ==> IsDigit(s[i])
  }

  /** Value of a string of decimal digits, most significant first. */
  function DigitsValue(ds: string): (v: nat)
    requires AllDigits(ds)
  {
    if ds == [] then 0
    else DigitsValue(ds[..|ds| - 1]) * 10 + (ds[|ds| - 1] as int - '0' as int)
  }

  /**
   * `Integer.parseInt(s)`: an optional leading '+' or '-' followed by at
   * least one decimal digit, whose value fits in 32 bits.  `None` stands for
   * the NumberFormatException thrown for every other string.
   */
  function ParseInt(s: string): (r: Option<int32>)
    ensures r.Some? ==> |s| > 0 && (IsDigit(s[0]) || s[0] == '+' || s[0] == '-')
    ensures r.Some? && s[0] == '-' ==> r.value <= 0
    ensures r.Some? && s[0] != '-' ==> r.value >= 0
  {
    if |s| == 0 then None
    else
      var digits := if s[0] == '-' || s[0] == '+' then s[1..] else s;
      if |digits| == 0 || !AllDigits(digits) then None
      else SignedValue(s[0] == '-', DigitsValue(digits))
  }

  /** The digits' value with its sign, or the overflow exception when it is not an int. */
  function SignedValue(negative: bool, n: nat): (r: Option<int32>)
    ensures r.Some? <==> if negative then n <= 0x8000_0000 else n < 0x8000_0000
    ensures r.Some? ==> r.value == if negative then -(n as int) else n
  {
    var v: int := if negative then 0 - n else n;
    if -0x8000_0000 <= v < 0x8000_0000 then Some(v) else None
  }

  /** Decimal digits of `n` without leading zeros (the digits of `Integer.toString`). */
  function NatDigits(n: nat): (ds: string)
    ensures |ds| > 0 && AllDigits(ds)
    ensures ds[0] == '0' ==> n == 0
  {
    if n < 10 then ['0' + n as char]
    else NatDigits(n / 10) + ['0' + (n % 10) as char]
  }

  /** `Integer.toString(n)`: the canonical decimal form of an int. */
  function FormatInt(n: int32): (s: string)
    ensures |s| > 0
  {
    if n < 0 then "-" + NatDigits(-(n as int)) else NatDigits(n)
  }

  lemma {:induction false} DigitsValueOfNatDigits(n: nat)
    ensures DigitsValue(NatDigits(n)) == n
  {
    if n >= 10 {
      var ds := NatDigits(n);
      assert ds[..|ds| - 1] == NatDigits(n / 10);
      DigitsValueOfNatDigits(n / 10);
    }
  }

  /** `parseInt` inverts `toString` on every int. */
  lemma ParseFormatRoundTrip(n: int32)
    ensures ParseInt(FormatInt(n)) == Some(n)
  {
    var s := FormatInt(n);
    if n < 0 {
      assert s[1..] == NatDigits(-(n as int));
      DigitsValueOfNatDigits(-(n as int));
    } else {
      DigitsValueOfNatDigits(n);
    }
  }

  /**
   * Every string `parseInt` accepts is an optional sign followed by digits,
   * leading zeros included, and its value is the signed value of the digits;
   * a value outside the int range throws.
   */
  lemma ParseIntSignedDigits(sign: string, digits: string)
    requires sign == "" || sign == "+" || sign == "-"
    requires |digits| > 0 && AllDigits(digits)
    ensures ParseInt(sign + digits) == SignedValue(sign == "-", DigitsValue(digits))
  {
    if sign == "" {
      assert sign + digits == digits;
      assert IsDigit(digits[0]);
    } else {
      var s := sign + digits;
      assert s[0] == sign[0] && s[1..] == digits;
    }
  }

  /** Every digit string too large for an int throws, with or without a sign. */
  lemma ParseIntOverflow(n: nat)
    requires n >= 0x8000_0000
    ensures ParseInt(NatDigits(n)) == None
    ensures ParseInt("+" + NatDigits(n)) == None
    ensures n > 0x8000_0000 ==> ParseInt("-" + NatDigits(n)) == None
  {
    DigitsValueOfNatDigits(n);
    ParseIntSignedDigits("", NatDigits(n));
    assert "" + NatDigits(n) == NatDigits(n);
    ParseIntSignedDigits("+", NatDigits(n));
    ParseIntSignedDigits("-", NatDigits(n));
  }

  /** The sign-less digits of the int bound, 2147483648, throw; with '-' they are the smallest int. */
  lemma ParseIntBound()
    ensures ParseInt(NatDigits(0x8000_0000)) == None
    ensures ParseInt("-" + NatDigits(0x8000_0000)) == Some(-0x8000_0000)
  {
    ParseIntOverflow(0x8000_0000);
    ParseFormatRoundTrip(-0x8000_0000);
  }

  predicate AllZeros(s: string) {
    forall i :: 0 <= i < |s| ==> s[i] == '0'
  }

  lemma {:induction false} DigitsValueLeadingZeros(zeros: string, ds: string)
    requires AllZeros(zeros) && AllDigits(ds)
    ensures AllDigits(zeros + ds) && DigitsValue(zeros + ds) == DigitsValue(ds)
    decreases |zeros| + |ds|
  {
    var all := zeros + ds;
    if ds == [] {
      assert all == zeros;
      if zeros != [] {
        assert zeros[..|zeros| - 1] + [] == zeros[..|zeros| - 1];
        DigitsValueLeadingZeros(zeros[..|zeros| - 1], []);
      }
    } else {
      assert all[..|all| - 1] == zeros + ds[..|ds| - 1];
      DigitsValueLeadingZeros(zeros, ds[..|ds| - 1]);
    }
  }

  /** The value of digits, zeros in front or not. */
  lemma ZerosThenDigits(zeros: string, n: nat)
    requires AllZeros(zeros)
    ensures |zeros + NatDigits(n)| > 0 && AllDigits(zeros + NatDigits(n))
    ensures DigitsValue(zeros + NatDigits(n)) == n
  {
    DigitsValueLeadingZeros(zeros, NatDigits(n));
    DigitsValueOfNatDigits(n);
  }

  /** Leading zeros are accepted and change nothing: "007" is 7. */
  lemma ParseIntLeadingZeros(zeros: string, n: int32)
    requires AllZeros(zeros) && n >= 0
    ensures ParseInt(zeros + NatDigits(n)) == Some(n)
  {
    var ds := zeros + NatDigits(n);
    ZerosThenDigits(zeros, n);
    ParseIntSignedDigits("", ds);
    assert "" + ds == ds;
  }

  /** An explicit '+' is accepted and changes nothing: "+007" is 7. */
  lemma ParseIntPlusSign(zeros: string, n: int32)
    requires AllZeros(zeros) && n >= 0
    ensures ParseInt("+" + zeros + NatDigits(n)) == Some(n)
  {
    var ds := zeros + NatDigits(n);
    ZerosThenDigits(zeros, n);
    ParseIntSignedDigits("+", ds);
    assert "+" + zeros + NatDigits(n) == "+" + ds;
  }

  /** Strings `parseInt` rejects: empty, a lone sign, or a non-digit after the optional sign. */
  lemma ParseIntRejects(s: string, i: nat)
    requires |s| == 0
          || (|s| == 1 && (s[0] == '+' || s[0] == '-'))
          || (i < |s| && !IsDigit(s[i]) && !(i == 0 && (s[0] == '+' || s[0] == '-')))
    ensures ParseInt(s) == None
  {
    if |s| > 0 && !(|s| == 1 && (s[0] == '+' || s[0] == '-')) {
      var digits := if s[0] == '-' || s[0] == '+' then s[1..] else s;
      var j := if s[0] == '-' || s[0] == '+' then i - 1 else i;
      assert 0 <= j < |digits| && digits[j] == s[i];
    }
  }
}
