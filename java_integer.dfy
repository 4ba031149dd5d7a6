/**
 * `Integer.parseInt(String)` (radix 10) and its inverse `Integer.toString(int)`,
 * over ASCII decimal digits.
 */
module JavaInteger {
  import opened JavaText

  datatype Option<T> = None | Some(value: T)

  /** The range of a Java `int`. */
  const INT_MIN: int := -0x8000_0000
  const INT_MAX: int := 0x7fff_ffff

  predicate InIntRange(n: int) {
    INT_MIN <= n <= INT_MAX
  }

  predicate IsDigit(c: char) {
    '0' <= c <= '9'
  }

  predicate IsSign(c: char) {
    c == '+' || c == '-'
  }

  predicate AllDigits(s: string) {
    forall k :: 0 <= k < |s| ==> IsDigit(s[k])
  }

  function DigitValue(c: char): (d: nat)
    requires IsDigit(c)
    ensures d < 10
  {
    c as int - '0' as int
  }

  function DigitChar(d: nat): (c: char)
    requires d < 10
    ensures IsDigit(c) && DigitValue(c) == d
  {
    ('0' as int + d) as char
  }

  function Pow10(n: nat): (r: nat)
    ensures r >= 1
  {
    if n == 0 then 1 else 10 * Pow10(n - 1)
  }

  /**
   * The value of a digit string, accumulated left to right as `parseInt`
   * does: below 10^n for n digits, and at least 10^(n-1) without a leading zero.
   */
  function DigitsValue(ds: string): (v: nat)
    requires AllDigits(ds)
    ensures v < Pow10(|ds|)
    ensures ds != [] && ds[0] != '0' ==> Pow10(|ds| - 1) <= v
  {
    if ds == [] then 0
    else
      var front := ds[..|ds| - 1];
      assert front != [] ==> front[0] == ds[0];
      10 * DigitsValue(front) + DigitValue(ds[|ds| - 1])
  }

  /**
   * `Integer.parseInt(s)`: an optional single leading '+' or '-', then one or
   * more decimal digits, nothing else (no surrounding whitespace), and a value
   * inside the `int` range. `None` stands for `NumberFormatException`.
   */
  function ParseInt(s: string): (r: Option<int>)
    ensures r.Some? ==> InIntRange(r.value)
    ensures r.Some? ==> s != [] && (IsDigit(s[0]) || (IsSign(s[0]) && |s| >= 2))
    ensures r.Some? ==> forall k :: 0 < k < |s| ==> IsDigit(s[k])
    ensures r.Some? && r.value < 0 ==> s[0] == '-'
  {
    if s == [] then None
    else
      var digits := if IsSign(s[0]) then s[1..] else s;
      if digits == [] || !AllDigits(digits) then None
      else
        assert forall k :: 0 < k < |s| ==> s[k] == digits[k - |s| + |digits|];
        var v: int := if s[0] == '-' then -(DigitsValue(digits) as int) else DigitsValue(digits);
        if InIntRange(v) then Some(v) else None
  }

  /** The decimal digits of a natural number, without leading zeros. */
  function NatDigits(n: nat): (s: string)
    ensures s != [] && AllDigits(s)
    ensures s[0] == '0' <==> n == 0
    ensures n < 10 <==> |s| == 1
  {
    if n < 10 then [DigitChar(n)] else NatDigits(n / 10) + [DigitChar(n % 10)]
  }

  /** `Integer.toString(n)`: '-' for a negative number, then the digits of its magnitude. */
  function Show(n: int): (s: string)
    ensures s != [] && (s[0] == '-' <==> n < 0)
  {
    if n < 0 then "-" + NatDigits(-n) else NatDigits(n)
  }

  /** A decimal text in the form `Integer.toString` produces: no '+', no leading zero, no "-0". */
  predicate IsCanonicalDecimal(s: string) {
    if s != [] && s[0] == '-' then
      var ds := s[1..];
      ds != [] && AllDigits(ds) && ds[0] != '0'
    else
      s != [] && AllDigits(s) && (s[0] == '0' ==> |s| == 1)
  }

  lemma {:induction false} DigitsValueOfNatDigits(n: nat)
    ensures DigitsValue(NatDigits(n)) == n
  {
    if n >= 10 {
      var s := NatDigits(n);
      assert s[..|s| - 1] == NatDigits(n / 10);
      DigitsValueOfNatDigits(n / 10);
    }
  }

  /** A digit string without leading zeros is the one `NatDigits` produces for its value. */
  lemma {:induction false} NatDigitsOfDigitsValue(ds: string)
    requires ds != [] && AllDigits(ds) && (ds[0] == '0' ==> |ds| == 1)
    ensures NatDigits(DigitsValue(ds)) == ds
  {
    var last := ds[|ds| - 1];
    assert DigitChar(DigitValue(last)) == last;
    if |ds| > 1 {
      var front := ds[..|ds| - 1];
      NatDigitsOfDigitsValue(front);
      assert ds == front + [last];
    }
  }

  /** Leading zeros do not change the value `parseInt` reads. */
  lemma {:induction false} LeadingZeroIgnored(ds: string)
    requires AllDigits(ds)
    ensures AllDigits("0" + ds) && DigitsValue("0" + ds) == DigitsValue(ds)
  {
    if ds != [] {
      var s := "0" + ds;
      assert s[..|s| - 1] == "0" + ds[..|ds| - 1];
      LeadingZeroIgnored(ds[..|ds| - 1]);
    }
  }

  /** Round trip: `parseInt(toString(n)) == n` for every Java `int`. */
  lemma ParseShow(n: int)
    requires InIntRange(n)
    ensures ParseInt(Show(n)) == Some(n)
  {
    if n < 0 {
      ParseNegativeDigits(-n);
    } else {
      ParseNatDigits(n);
    }
  }

  lemma ParseNatDigits(n: nat)
    requires n <= INT_MAX
    ensures ParseInt(NatDigits(n)) == Some(n)
  {
    var ds := NatDigits(n);
    DigitsValueOfNatDigits(n);
    ParseSignedDigits("", ds);
    assert "" + ds == ds;
  }

  lemma ParseNegativeDigits(m: nat)
    requires 0 < m <= -INT_MIN
    ensures ParseInt("-" + NatDigits(m)) == Some(-(m as int))
  {
    DigitsValueOfNatDigits(m);
    ParseSignedDigits("-", NatDigits(m));
  }

  /** `toString` always yields canonical text. */
  lemma ShowIsCanonical(n: int)
    ensures IsCanonicalDecimal(Show(n))
  {
    if n < 0 {
      assert Show(n)[1..] == NatDigits(-n);
    }
  }

  /** Canonical text accepted by `parseInt` is exactly `toString` of the value read. */
  lemma ShowOfParse(s: string)
    requires IsCanonicalDecimal(s) && ParseInt(s).Some?
    ensures Show(ParseInt(s).value) == s
  {
    if s[0] == '-' {
      var ds := s[1..];
      assert s == "-" + ds;
      ParseSignedDigits("-", ds);
      NatDigitsOfDigitsValue(ds);
      assert ParseInt(s).value == -(DigitsValue(ds) as int);
    } else {
      assert s == "" + s;
      ParseSignedDigits("", s);
      NatDigitsOfDigitsValue(s);
      assert ParseInt(s).value == DigitsValue(s);
    }
  }

  /**
   * Acceptance of a well-formed literal depends only on the range: a sign
   * (or none) followed by digits parses exactly when the signed value fits
   * an `int`, and then to that value.
   */
  lemma ParseSignedDigits(sign: string, ds: string)
    requires sign == "" || sign == "+" || sign == "-"
    requires ds != [] && AllDigits(ds)
    ensures var v: int := if sign == "-" then -(DigitsValue(ds) as int) else DigitsValue(ds);
            ParseInt(sign + ds) == if InIntRange(v) then Some(v) else None
  {
    var s := sign + ds;
    if sign == "" {
      assert s == ds && !IsSign(s[0]);
    } else {
      assert s[0] == sign[0] && s[1..] == ds;
    }
  }

  /** A zero after the optional sign never changes what `parseInt` returns. */
  lemma ParseLeadingZero(sign: string, ds: string)
    requires sign == "" || sign == "+" || sign == "-"
    requires ds != [] && AllDigits(ds)
    ensures ParseInt(sign + ("0" + ds)) == ParseInt(sign + ds)
  {
    LeadingZeroIgnored(ds);
    ParseSignedDigits(sign, ds);
    ParseSignedDigits(sign, "0" + ds);
  }

  /** Surrounding whitespace, which `parseInt` does not strip, makes it fail. */
  lemma ParseRejectsPadding(s: string)
    requires s != [] && (IsTrimmable(s[0]) || IsTrimmable(s[|s| - 1]))
    ensures ParseInt(s) == None
  {
  }
}
