/**
  JavaScript numbers as the two pages use them: integers and `NaN`, the
  decimal rendering of `Number.prototype.toString`, and `parseInt(s, 10)`.
  Non-integral values, infinities and the 2^53 precision bound of IEEE
  doubles are not modelled; integers are unbounded.
 */
module Numbers {

  /** A JavaScript number restricted to the values these pages produce. */
  datatype Num = Int(v: int) | NaN {

    /** `x <= 0`; every comparison with `NaN` is false. */
    predicate AtMostZero() {
      Int? && v <= 0
    }

    /** `x - 1`; `NaN` stays `NaN`. */
    function Dec(): (r: Num)
      ensures Int? <==> r.Int?
      ensures Int? ==> r.v + 1 == v
    {
      match this
      case Int(n) => Int(n - 1)
      case NaN => NaN
    }

    /** Truthiness: `0` and `NaN` are falsy, every other number truthy. */
    predicate Truthy() {
      Int? && v != 0
    }
  }

  predicate IsDigit(c: char) {
    '0' <= c <= '9'
  }

  predicate AllDigits(s: string) {
    forall i :: 0 <= i < |s| ==> IsDigit(s[i])
  }

  function DigitChar(d: nat): (c: char)
    requires d < 10
    ensures IsDigit(c)
    ensures DigitValue(c) == d
  {
    (48 + d) as char
  }

  function DigitValue(c: char): (d: nat)
    requires IsDigit(c)
    ensures d < 10
  {
    (c as int) - 48
  }

  /** The value of a string of decimal digits, most significant first. */
  function DigitsValue(s: string): (n: nat)
    requires AllDigits(s)
  {
    if |s| == 0 then 0
    else 10 * DigitsValue(s[..|s| - 1]) + DigitValue(s[|s| - 1])
  }

  /** `10^k`. */
  function Pow10(k: nat): (p: nat)
    ensures p >= 1
  {
    if k == 0 then 1 else 10 * Pow10(k - 1)
  }

  /** `n.toString()` for a non-negative integer: shortest decimal form. */
  function NatToString(n: nat): (s: string)
    ensures |s| >= 1
    ensures AllDigits(s)
    ensures |s| > 1 ==> s[0] != '0'
  {
    if n < 10 then [DigitChar(n)]
    else NatToString(n / 10) + [DigitChar(n % 10)]
  }

  /** The decimal form reads back as `n`, and its length is the number of
      decimal places of `n`. */
  lemma {:induction false} NatToStringValue(n: nat)
    ensures DigitsValue(NatToString(n)) == n
    ensures n < Pow10(|NatToString(n)|)
    ensures |NatToString(n)| > 1 ==> Pow10(|NatToString(n)| - 1) <= n
  {
    if n >= 10 {
      var s := NatToString(n);
      NatToStringValue(n / 10);
      assert s[..|s| - 1] == NatToString(n / 10);
    }
  }

  /** `n.toString()` for any integer: a minus sign before the magnitude. */
  function IntToString(n: int): (s: string)
    ensures n >= 0 ==> s == NatToString(n)
    ensures n < 0 ==> s == "-" + NatToString(-n)
  {
    if n < 0 then "-" + NatToString(-n) else NatToString(n)
  }

  /** The number of decimal digits of `n` is exactly `k` (`k >= 1`) when
      `n` lies in `[10^(k-1), 10^k - 1]`, or in `[0, 9]` for `k == 1`. */
  lemma {:induction false} NatToStringLength(n: nat, k: nat)
    requires k >= 1
    ensures |NatToString(n)| == k <==> (if k == 1 then n < 10 else Pow10(k - 1) <= n < Pow10(k))
  {
    var s := NatToString(n);
    NatToStringValue(n);
    if |s| < k {
      PowMonotone(|s|, k - 1);
    } else if |s| > k {
      PowMonotone(k, |s| - 1);
    }
  }

  lemma {:induction false} PowMonotone(i: nat, j: nat)
    requires i <= j
    ensures Pow10(i) <= Pow10(j)
    decreases j
  {
    if i < j {
      PowMonotone(i, j - 1);
    }
  }

  /* ---------------- parseInt(s, 10) ---------------- */

  /** The characters `parseInt` strips from the front: ECMAScript's
      WhiteSpace (tab, vertical tab, form feed, space, no-break space,
      byte-order mark and the other Zs space separators) and its
      LineTerminator characters. */
  predicate IsJsSpace(c: char) {
    var n := c as int;
    n == 0x09 || n == 0x0A || n == 0x0B || n == 0x0C || n == 0x0D || n == 0x20
    || n == 0xA0 || n == 0x1680 || (0x2000 <= n <= 0x200A) || n == 0x2028
    || n == 0x2029 || n == 0x202F || n == 0x205F || n == 0x3000 || n == 0xFEFF
  }

  /** The number of white-space characters at the front of `s`. */
  function SpaceRun(s: string): (k: nat)
    ensures k <= |s|
    ensures forall i :: 0 <= i < k ==> IsJsSpace(s[i])
    ensures k < |s| ==> !IsJsSpace(s[k])
  {
    if |s| > 0 && IsJsSpace(s[0]) then 1 + SpaceRun(s[1..]) else 0
  }

  /** `s` without its leading white space. */
  function TrimStart(s: string): string {
    s[SpaceRun(s)..]
  }

  /** The number of decimal digits at the front of `s`. */
  function DigitRun(s: string): (k: nat)
    ensures k <= |s|
    ensures forall i :: 0 <= i < k ==> IsDigit(s[i])
    ensures k < |s| ==> !IsDigit(s[k])
  {
    if |s| > 0 && IsDigit(s[0]) then 1 + DigitRun(s[1..]) else 0
  }

  /** The longest prefix of `s` made of decimal digits. */
  function DigitPrefix(s: string): (z: string)
    ensures AllDigits(z)
  {
    s[..DigitRun(s)]
  }

  /** `parseInt(s, 10)`: skip leading white space, read an optional sign,
      then the longest run of decimal digits; `NaN` when there is none. */
  function ParseInt(s: string): Num {
    ParseSigned(TrimStart(s))
  }

  /** `parseInt` yields a number exactly when, after the white space, the
      text starts with a digit or with a sign followed by a digit. */
  lemma ParseIntDefined(s: string)
    ensures ParseInt(s).Int? <==>
      (var t := TrimStart(s);
       (|t| > 0 && IsDigit(t[0])) || (|t| > 1 && (t[0] == '-' || t[0] == '+') && IsDigit(t[1])))
  {
  }

  /** The sign step of `parseInt`, on text with no leading white space. */
  function ParseSigned(t: string): (r: Num)
    ensures r.Int? <==>
      (|t| > 0 && IsDigit(t[0])) || (|t| > 1 && (t[0] == '-' || t[0] == '+') && IsDigit(t[1]))
  {
    if |t| > 0 && t[0] == '-' then Negate(ParseDigits(t[1..]))
    else if |t| > 0 && t[0] == '+' then ParseDigits(t[1..])
    else ParseDigits(t)
  }

  /** The digit step of `parseInt`: the value of the leading digits. */
  function ParseDigits(b: string): (r: Num)
    ensures r.Int? <==> |b| > 0 && IsDigit(b[0])
  {
    var z := DigitPrefix(b);
    if |z| == 0 then NaN else Int(DigitsValue(z))
  }

  function Negate(x: Num): (r: Num)
    ensures x.Int? <==> r.Int?
    ensures x.Int? ==> r.v == -x.v
  {
    match x
    case NaN => NaN
    case Int(v) => Int(-v)
  }

  lemma {:induction false} DigitRunOfDigits(z: string, rest: string)
    requires AllDigits(z)
    requires |rest| == 0 || !IsDigit(rest[0])
    ensures DigitRun(z + rest) == |z|
    decreases |z|
  {
    if |z| > 0 {
      assert (z + rest)[1..] == z[1..] + rest;
      DigitRunOfDigits(z[1..], rest);
    } else {
      assert z + rest == rest;
    }
  }

  lemma {:induction false} DigitPrefixOfDigits(z: string, rest: string)
    requires AllDigits(z)
    requires |rest| == 0 || !IsDigit(rest[0])
    ensures DigitPrefix(z + rest) == z
  {
    DigitRunOfDigits(z, rest);
    assert (z + rest)[..|z|] == z;
  }

  /** `parseInt` reads back what `toString` wrote, whatever follows it as
      long as the next character is not a digit (`"12abc"` reads as 12). */
  lemma {:induction false} ParseIntOfToString(n: int, rest: string)
    requires |rest| == 0 || !IsDigit(rest[0])
    ensures ParseInt(IntToString(n) + rest) == Int(n)
  {
    if n < 0 {
      var m: nat := -n;
      var b := "-" + NatToString(m) + rest;
      assert IntToString(n) + rest == b;
      ParseNegative(m, rest);
      assert ParseInt(b) == Int(n);
    } else {
      ParseNonNegative(n, rest);
    }
  }

  lemma {:induction false} ParseNonNegative(m: nat, rest: string)
    requires |rest| == 0 || !IsDigit(rest[0])
    ensures ParseInt(NatToString(m) + rest) == Int(m)
  {
    NatToStringValue(m);
    ParseDecimal(NatToString(m), rest);
  }

  lemma {:induction false} ParseNegative(m: nat, rest: string)
    requires m > 0
    requires |rest| == 0 || !IsDigit(rest[0])
    ensures ParseInt("-" + NatToString(m) + rest) == Int(-(m as int))
  {
    NatToStringValue(m);
    ParseMinusDecimal(NatToString(m), rest);
  }

  /** Digits followed by a non-digit read as their value. */
  lemma {:induction false} ParseDecimal(d: string, rest: string)
    requires |d| > 0 && AllDigits(d)
    requires |rest| == 0 || !IsDigit(rest[0])
    ensures ParseInt(d + rest) == Int(DigitsValue(d))
  {
    assert (d + rest)[0] == d[0];
    ParseUnsigned(d + rest);
    ParseDigitsOf(d, rest);
  }

  /** A minus sign, digits, then a non-digit read as the negated value. */
  lemma {:induction false} ParseMinusDecimal(d: string, rest: string)
    requires |d| > 0 && AllDigits(d)
    requires |rest| == 0 || !IsDigit(rest[0])
    ensures ParseInt("-" + d + rest) == Int(-(DigitsValue(d) as int))
  {
    var joined := "-" + (d + rest);
    ParseMinusJoined(d, rest);
    Associative("-", d, rest);
    assert "-" + d + rest == joined;
  }

  lemma {:induction false} ParseMinusJoined(d: string, rest: string)
    requires |d| > 0 && AllDigits(d)
    requires |rest| == 0 || !IsDigit(rest[0])
    ensures ParseInt("-" + (d + rest)) == Negate(Int(DigitsValue(d)))
  {
    var u := d + rest;
    assert u[0] == d[0];
    ParseMinus(u);
    ParseDigitsOf(d, rest);
  }

  lemma {:induction false} Associative(a: string, b: string, c: string)
    ensures a + b + c == a + (b + c)
  {
  }

  lemma {:induction false} ParseDigitsOf(d: string, rest: string)
    requires |d| > 0 && AllDigits(d)
    requires |rest| == 0 || !IsDigit(rest[0])
    ensures ParseDigits(d + rest) == Int(DigitsValue(d))
  {
    DigitPrefixOfDigits(d, rest);
  }

  lemma {:induction false} ParseUnsigned(u: string)
    requires |u| > 0 && IsDigit(u[0])
    ensures ParseInt(u) == ParseDigits(u)
  {
    assert !IsJsSpace(u[0]);
    assert SpaceRun(u) == 0;
    assert TrimStart(u) == u;
    assert u[0] != '-' && u[0] != '+';
  }

  lemma {:induction false} ParseMinus(u: string)
    requires |u| > 0 && IsDigit(u[0])
    ensures ParseInt("-" + u) == Negate(ParseDigits(u))
  {
    var t := "-" + u;
    assert t[0] == '-' && !IsJsSpace(t[0]);
    assert SpaceRun(t) == 0;
    assert TrimStart(t) == t;
    assert t[1..] == u;
  }

  /** Leading white space does not change what `parseInt` reads. */
  lemma {:induction false} LeadingSpaceIgnored(ws: string, s: string)
    requires forall i :: 0 <= i < |ws| ==> IsJsSpace(ws[i])
    ensures ParseInt(ws + s) == ParseInt(s)
  {
    TrimStartSkips(ws, s);
  }

  lemma {:induction false} TrimStartSkips(ws: string, s: string)
    requires forall i :: 0 <= i < |ws| ==> IsJsSpace(ws[i])
    ensures TrimStart(ws + s) == TrimStart(s)
  {
    SpaceRunSkips(ws, s);
    var k := SpaceRun(s);
    assert (ws + s)[|ws| + k..] == s[k..];
  }

  lemma {:induction false} SpaceRunSkips(ws: string, s: string)
    requires forall i :: 0 <= i < |ws| ==> IsJsSpace(ws[i])
    ensures SpaceRun(ws + s) == |ws| + SpaceRun(s)
    decreases |ws|
  {
    if |ws| > 0 {
      assert (ws + s)[1..] == ws[1..] + s;
      SpaceRunSkips(ws[1..], s);
    } else {
      assert ws + s == s;
    }
  }
}
