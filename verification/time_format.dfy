/**
  The `MM:SS` label of the workout page's rest timers (`formatTime` in
  treino/treino.js), written with JavaScript's number semantics: `Math.floor`
  of the quotient, the truncating `%`, `toString` and `padStart(2, '0')`.
 */
module TimeFormat {
  import opened Wrappers
  import opened Numbers

  /** `s.padStart(width, fill)`: `fill` characters in front of `s` until
      it is `width` long; a string already that long is returned as is. */
  function PadStart(s: string, width: nat, fill: char): (r: string)
    ensures r == Repeat(fill, if |s| >= width then 0 else width - |s|) + s
    decreases width - |s|
  {
    if |s| >= width then s
    else
      var r := PadStart([fill] + s, width, fill);
      assert Repeat(fill, width - |s|) + s == Repeat(fill, width - |s| - 1) + ([fill] + s);
      r
  }

  /** `k` copies of `c`. */
  function Repeat(c: char, k: nat): (r: string)
    ensures |r| == k
    ensures forall i :: 0 <= i < k ==> r[i] == c
  {
    if k == 0 then [] else Repeat(c, k - 1) + [c]
  }

  /** `Math.floor(n / d)` for a positive divisor: Dafny's `/` already
      rounds towards negative infinity when `d > 0`. */
  function FloorDiv(n: int, d: int): int
    requires d > 0
  {
    n / d
  }

  /** The quotient of `n / d` truncated towards zero, as the JavaScript
      `%` operator rounds it. */
  function TruncDiv(n: int, d: int): int
    requires d > 0
  {
    if n >= 0 then n / d else -((-n) / d)
  }

  /** JavaScript's `n % d` for a positive divisor: the remainder takes the
      sign of the dividend (truncated division), unlike Dafny's `%`. */
  function JsRem(n: int, d: int): (r: int)
    requires d > 0
    ensures n == d * TruncDiv(n, d) + r
    ensures n >= 0 ==> 0 <= r < d
    ensures n < 0 ==> -d < r <= 0
  {
    if n >= 0 then n % d else -((-n) % d)
  }

  /** `x.toString().padStart(2, '0')`. */
  function Pad2(x: int): string {
    PadStart(IntToString(x), 2, '0')
  }

  /** `formatTime(s)`: `"00:00"` for `NaN`, otherwise the padded minutes
      (floored) and the padded remainder seconds, joined by a colon. */
  function FormatTime(s: Num): (text: string)
    ensures |text| >= 5
  {
    match s
    case NaN => "00:00"
    case Int(n) => Pad2(FloorDiv(n, 60)) + ":" + Pad2(JsRem(n, 60))
  }

  /** Reads a label back into a second count: a run of digits for the
      minutes, a colon, and exactly two digits below 60 for the seconds. */
  function ReadLabel(text: string): (r: Option<nat>)
    ensures r.Some? ==> |text| >= 4 && text[|text| - 3] == ':'
  {
    if |text| < 4 || text[|text| - 3] != ':' then None
    else
      var mm := text[..|text| - 3];
      var ss := text[|text| - 2..];
      if !AllDigits(mm) || !AllDigits(ss) || DigitsValue(ss) >= 60 then None
      else Some(ClockSeconds(DigitsValue(mm), DigitsValue(ss)))
  }

  /** The second count shown by `minutes` and `seconds` fields. */
  function ClockSeconds(minutes: nat, seconds: nat): nat {
    minutes * 60 + seconds
  }

  /** Zeros in front of a digit string do not change its value. */
  lemma {:induction false} LeadingZeros(z: string, s: string)
    requires forall i :: 0 <= i < |z| ==> z[i] == '0'
    requires AllDigits(s)
    ensures AllDigits(z + s)
    ensures DigitsValue(z + s) == DigitsValue(s)
    decreases |s|, |z|
  {
    if |s| == 0 {
      assert z + s == z;
      if |z| > 0 {
        assert z[..|z| - 1] + [] == z[..|z| - 1];
        LeadingZeros(z[..|z| - 1], []);
      }
    } else {
      assert (z + s)[..|z + s| - 1] == z + s[..|s| - 1];
      LeadingZeros(z, s[..|s| - 1]);
    }
  }

  /** A non-negative number padded to two places keeps its value and
      has length two exactly when the number is below 100. */
  lemma {:induction false} Pad2Value(x: nat)
    ensures AllDigits(Pad2(x))
    ensures DigitsValue(Pad2(x)) == x
    ensures |Pad2(x)| >= 2
    ensures |Pad2(x)| == 2 <==> x < 100
  {
    var d := NatToString(x);
    NatToStringValue(x);
    var z := Repeat('0', if |d| >= 2 then 0 else 2 - |d|);
    LeadingZeros(z, d);
    NatToStringLength(x, 2);
    if x >= 100 {
      NatToStringLength(x, 1);
    }
  }

  /** For a non-negative count the label reads back as that count: the
      seconds field is two digits below 60 and the minutes field holds
      the rest, so `minutes * 60 + seconds` recovers the input. */
  lemma {:induction false} FormatTimeRoundTrip(n: nat)
    ensures ReadLabel(FormatTime(Int(n))) == Some(n)
  {
    var a: nat, b: nat := DivMod60(n);
    var mm, ss := Pad2(a), Pad2(b);
    Pad2Value(a);
    Pad2Value(b);
    Substitute(DigitsValue(mm), DigitsValue(ss), a, b, n);
    ReadJoined(mm, ss, n);
    FormatTimeFields(n, a, b);
  }

  lemma Substitute(x: nat, y: nat, a: nat, b: nat, n: nat)
    requires x == a && y == b && a * 60 + b == n
    ensures ClockSeconds(x, y) == n
  {
  }

  lemma DivMod60(n: nat) returns (a: nat, b: nat)
    ensures a == n / 60 && b == n % 60
    ensures a * 60 + b == n && b < 60
  {
    a, b := n / 60, n % 60;
  }

  lemma FormatTimeFields(n: nat, a: nat, b: nat)
    requires a == n / 60 && b == n % 60
    ensures FormatTime(Int(n)) == Pad2(a) + ":" + Pad2(b)
  {
  }

  lemma ReadJoined(mm: string, ss: string, n: nat)
    requires |mm| >= 1 && AllDigits(mm)
    requires |ss| == 2 && AllDigits(ss) && DigitsValue(ss) < 60
    requires ClockSeconds(DigitsValue(mm), DigitsValue(ss)) == n
    ensures ReadLabel(mm + ":" + ss) == Some(n)
  {
    var text := mm + ":" + ss;
    assert text[..|text| - 3] == mm;
    assert text[|text| - 2..] == ss;
  }

  /** A label is five characters long exactly when the count is below
      6000 seconds, i.e. the minutes fit in two digits. */
  lemma {:induction false} FormatTimeLength(n: nat)
    ensures |FormatTime(Int(n))| == 5 <==> n < 6000
  {
    Pad2Value(n / 60);
    Pad2Value(n % 60);
  }

  /** Below 100 minutes the label is the fixed-width `MM:SS` form: the
      two minute digits, a colon, the two second digits. */
  lemma {:induction false} FormatTimeFixedWidth(m1: nat, m0: nat, s1: nat, s0: nat)
    requires m1 < 10 && m0 < 10 && s1 < 6 && s0 < 10
    ensures FormatTime(Int(ClockSeconds(10 * m1 + m0, 10 * s1 + s0)))
      == [DigitChar(m1), DigitChar(m0), ':', DigitChar(s1), DigitChar(s0)]
  {
    var a, b := 10 * m1 + m0, 10 * s1 + s0;
    FormatTimeOfClock(a, b);
    Pad2Digits(m1, m0);
    Pad2Digits(s1, s0);
    Join(Pad2(a), Pad2(b));
  }

  /** The label of `minutes * 60 + seconds` joins the two padded fields. */
  lemma FormatTimeOfClock(a: nat, b: nat)
    requires b < 60
    ensures FormatTime(Int(ClockSeconds(a, b))) == Pad2(a) + ":" + Pad2(b)
  {
    ClockFields(a, b);
    FormatTimeFields(ClockSeconds(a, b), a, b);
  }

  lemma Join(mm: string, ss: string)
    requires |mm| == 2 && |ss| == 2
    ensures mm + ":" + ss == [mm[0], mm[1], ':', ss[0], ss[1]]
  {
  }

  /** Minutes and seconds are recovered from their clock count. */
  lemma ClockFields(a: nat, b: nat)
    requires b < 60
    ensures ClockSeconds(a, b) / 60 == a && ClockSeconds(a, b) % 60 == b
  {
  }

  lemma TensAndUnits(d1: nat, d0: nat)
    requires d0 < 10
    ensures (10 * d1 + d0) / 10 == d1 && (10 * d1 + d0) % 10 == d0
  {
  }

  /** Two digits padded to two places are those two digits. */
  lemma Pad2Digits(d1: nat, d0: nat)
    requires d1 < 10 && d0 < 10
    ensures Pad2(10 * d1 + d0) == [DigitChar(d1), DigitChar(d0)]
  {
    if d1 == 0 {
      OneDigit(d0);
      PadOne(DigitChar(d0));
    } else {
      TwoDigits(d1, d0);
      PadTwo(NatToString(10 * d1 + d0));
    }
  }

  lemma OneDigit(d: nat)
    requires d < 10
    ensures NatToString(d) == [DigitChar(d)]
  {
  }

  lemma TwoDigits(d1: nat, d0: nat)
    requires 1 <= d1 < 10 && d0 < 10
    ensures NatToString(10 * d1 + d0) == [DigitChar(d1), DigitChar(d0)]
  {
    TensAndUnits(d1, d0);
    OneDigit(d1);
  }

  lemma PadOne(c: char)
    ensures PadStart([c], 2, '0') == [DigitChar(0), c]
  {
    assert Repeat('0', 1) == ['0'];
  }

  lemma PadTwo(s: string)
    requires |s| == 2
    ensures PadStart(s, 2, '0') == s
  {
  }

  /** Counts below ten seconds show as `00:0` followed by the digit. */
  lemma SingleDigitSeconds(n: nat)
    requires n < 10
    ensures FormatTime(Int(n)) == "00:0" + [DigitChar(n)]
  {
    var zero := DigitChar(0);
    assert zero == '0';
    Example(0, 0, 0, n, n);
    assert [zero, zero, ':', zero, DigitChar(n)] == "00:0" + [DigitChar(n)];
  }

  /** Labels for sample inputs, a negative count included: JavaScript
      floors the minutes but truncates the remainder, so -65 seconds shows
      as `-2:-5`. */
  lemma FormatTimeExamples()
    ensures FormatTime(NaN) == "00:00"
    ensures FormatTime(Int(0)) == "00:00"
    ensures FormatTime(Int(59)) == "00:59"
    ensures FormatTime(Int(60)) == "01:00"
    ensures FormatTime(Int(61)) == "01:01"
    ensures FormatTime(Int(3599)) == "59:59"
    ensures FormatTime(Int(3600)) == "60:00"
    ensures FormatTime(Int(-65)) == "-2:-5"
  {
    Example(0, 0, 0, 0, 0);
    Example(0, 0, 5, 9, 59);
    Example(0, 1, 0, 0, 60);
    Example(0, 1, 0, 1, 61);
    Example(5, 9, 5, 9, 3599);
    Example(6, 0, 0, 0, 3600);
    NegativeExample();
  }

  lemma Example(m1: nat, m0: nat, s1: nat, s0: nat, n: nat)
    requires m1 < 10 && m0 < 10 && s1 < 6 && s0 < 10
    requires n == ClockSeconds(10 * m1 + m0, 10 * s1 + s0)
    ensures FormatTime(Int(n)) == [DigitChar(m1), DigitChar(m0), ':', DigitChar(s1), DigitChar(s0)]
  {
    FormatTimeFixedWidth(m1, m0, s1, s0);
  }

  lemma NegativeExample()
    ensures FormatTime(Int(-65)) == "-2:-5"
  {
    assert FloorDiv(-65, 60) == -2 && JsRem(-65, 60) == -5;
    assert NatToString(2) == "2" && NatToString(5) == "5";
    assert Pad2(-2) == "-2" && Pad2(-5) == "-5";
  }
}
