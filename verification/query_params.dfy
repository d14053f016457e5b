/** The numeric query parameters of the listing routes:
    `parseInt(req.query.x as string) || fallback`, with JavaScript's
    `parseInt` (no radix argument) modelled on unbounded integers. */
module QueryParams {
  import opened Base
  import opened Text

  /** The value of `c` as a digit in base 10 or 16, if it is one. */
  function DigitValue(c: char, radix: nat): Option<nat> {
    if '0' <= c <= '9' && (c as int) - ('0' as int) < radix then Some((c as int) - ('0' as int))
    else if radix == 16 && 'a' <= c <= 'f' then Some((c as int) - ('a' as int) + 10)
    else if radix == 16 && 'A' <= c <= 'F' then Some((c as int) - ('A' as int) + 10)
    else None
  }

  predicate IsDigit(c: char, radix: nat) {
    DigitValue(c, radix).Some?
  }

  predicate AllDigits(s: string, radix: nat) {
    forall k :: 0 <= k < |s| ==> IsDigit(s[k], radix)
  }

  /** The length of the longest prefix of `s` made of digits. */
  function DigitRun(s: string, radix: nat): (n: nat)
    ensures n <= |s| && AllDigits(s[..n], radix)
    ensures n < |s| ==> !IsDigit(s[n], radix)
  {
    if |s| > 0 && IsDigit(s[0], radix) then
      var n := 1 + DigitRun(s[1..], radix);
      assert forall k :: 1 <= k < n ==> s[..n][k] == s[1..][..n - 1][k - 1];
      n
    else 0
  }

  /** The number a string of digits denotes, most significant first. */
  function DigitsValue(s: string, radix: nat): nat
    requires AllDigits(s, radix)
  {
    if |s| == 0 then 0
    else DigitsValue(s[..|s| - 1], radix) * radix + DigitValue(s[|s| - 1], radix).value
  }

  /** `parseInt(s)`: skip leading white space, read an optional sign, switch
      to base 16 after a `0x`/`0X` prefix, and read the longest run of
      digits; `None` stands for `NaN`, produced when there is no digit. */
  function ParseInt(s: string): Option<int>
  {
    var t := TrimStart(s);
    var negative := |t| > 0 && t[0] == '-';
    var unsigned := if |t| > 0 && (t[0] == '-' || t[0] == '+') then t[1..] else t;
    var hex := StartsWith(unsigned, "0x") || StartsWith(unsigned, "0X");
    var radix := if hex then 16 else 10;
    var body := if hex then unsigned[2..] else unsigned;
    var n := DigitRun(body, radix);
    if n == 0 then None
    else
      var magnitude := DigitsValue(body[..n], radix);
      Some(if negative then -(magnitude as int) else magnitude)
  }

  /** `parseInt(param) || fallback`: a missing parameter parses as `NaN`,
      and both `NaN` and zero fall back. */
  function IntParam(param: Option<string>, fallback: int): (r: int)
    ensures param.None? ==> r == fallback
    ensures param.Some? && ParseInt(param.value).None? ==> r == fallback
    ensures param.Some? && ParseInt(param.value).Some? ==>
              r == (if ParseInt(param.value).value == 0 then fallback else ParseInt(param.value).value)
    ensures fallback != 0 ==> r != 0
  {
    var parsed := if param.Some? then ParseInt(param.value) else None;
    if parsed.None? || parsed.value == 0 then fallback else parsed.value
  }

  // ------------------------------------------------------------ round trip

  function DigitChar(d: nat): char
    requires d < 10
  {
    (('0' as int) + d) as char
  }

  /** `n.toString()` for a natural number. */
  function Decimal(n: nat): (r: string)
    ensures |r| >= 1 && AllDigits(r, 10)
    decreases n
  {
    if n < 10 then [DigitChar(n)] else Decimal(n / 10) + [DigitChar(n % 10)]
  }

  lemma {:induction false} DecimalValue(n: nat)
    ensures DigitsValue(Decimal(n), 10) == n
    decreases n
  {
    if n >= 10 {
      var d := Decimal(n);
      assert d[..|d| - 1] == Decimal(n / 10);
      DecimalValue(n / 10);
    }
  }

  lemma {:induction false} DigitRunOfDigits(s: string, radix: nat)
    requires AllDigits(s, radix)
    ensures DigitRun(s, radix) == |s|
    decreases |s|
  {
    if |s| > 0 {
      DigitRunOfDigits(s[1..], radix);
    }
  }

  /** A string of decimal digits parses as the number it denotes. */
  lemma ParseIntOfDigits(s: string)
    requires |s| >= 1 && AllDigits(s, 10)
    ensures ParseInt(s) == Some(DigitsValue(s, 10))
  {
    assert TrimStart(s) == s && s[0] != '-' && s[0] != '+' by {
      assert IsDigit(s[0], 10);
      VisibleAsciiIsNotSpace(s[0]);
      TrimStartOfNonSpace(s);
    }
    NoHexPrefix(s);
    DigitRunOfDigits(s, 10);
    ParseIntOfUnsigned(s);
  }

  /** Without leading white space, sign or hexadecimal prefix, `parseInt`
      reads the leading decimal digits. */
  lemma ParseIntOfUnsigned(s: string)
    requires |s| >= 1 && AllDigits(s, 10) && TrimStart(s) == s && s[0] != '-' && s[0] != '+'
    requires !StartsWith(s, "0x") && !StartsWith(s, "0X")
    requires DigitRun(s, 10) == |s|
    ensures ParseInt(s) == Some(DigitsValue(s, 10))
  {
    assert s[..|s|] == s;
  }

  /** A string that starts with two decimal digits has no `0x` prefix. */
  lemma NoHexPrefix(s: string)
    requires |s| >= 1 && AllDigits(s, 10)
    ensures !StartsWith(s, "0x") && !StartsWith(s, "0X")
  {
    if |s| >= 2 {
      assert IsDigit(s[1], 10);
      assert s[..2][1] == s[1];
    }
  }

  /** The client sends `page.toString()`; the server reads back the same
      page for every positive page number. */
  lemma {:induction false} ParsePageRoundTrip(n: nat)
    requires n >= 1
    ensures ParseInt(Decimal(n)) == Some(n)
    ensures IntParam(Some(Decimal(n)), 1) == n
  {
    ParseIntOfDigits(Decimal(n));
    DecimalValue(n);
  }

  /** A parameter with no leading digit falls back to the default, and so
      does zero. */
  lemma NonNumericFallsBack()
    ensures IntParam(Some("abc"), 1) == 1
  {
    var t := "abc";
    VisibleAsciiIsNotSpace(t[0]);
    TrimStartOfNonSpace(t);
    assert !IsDigit(t[0], 10);
  }

  lemma ZeroFallsBack()
    ensures IntParam(Some("0"), 10) == 10
  {
    var t := "0";
    VisibleAsciiIsNotSpace(t[0]);
    TrimStartOfNonSpace(t);
    DigitRunOfDigits(t, 10);
    assert t[..1] == t;
  }
}
