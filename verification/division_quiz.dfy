/**
  The division-practice generator (division/divisao.js): numbers with a
  given count of decimal digits, the rejection loop that keeps drawing a
  divisor until it is usable, and the quotient and remainder of each of
  the ten questions.

  `Math.random()` becomes a supplied sequence of draws, each a real in
  `[0, 1)`, consumed in order. The rejection loop need not stop for some
  digit counts, so generation returns `None` when the supplied draws run
  out before ten questions are made; every property of a `Some` result
  holds whatever the draws were.
 */
module DivisionQuiz {
  import opened Wrappers
  import opened Numbers

  /* ---------------- numbers with a given count of digits ---------------- */

  /** `Math.max(1, digits)`: the digit count actually used. */
  function DigitCount(digits: int): (k: nat)
    ensures k >= 1
  {
    if digits < 1 then 1 else digits
  }

  /** `Math.pow(10, Math.max(1, digits) - 1)`, the smallest number drawn. */
  function Lo(digits: int): nat {
    Pow10(DigitCount(digits) - 1)
  }

  /** `Math.pow(10, Math.max(1, digits)) - 1`, the largest number drawn. */
  function Hi(digits: int): (hi: nat)
    ensures Lo(digits) < hi
    ensures hi + 1 == 10 * Lo(digits)
  {
    Pow10(DigitCount(digits)) - 1
  }

  /** The drawn range is exactly the positive numbers written with
      `max(1, digits)` decimal digits, none of them a leading zero. */
  lemma RangeIsDigitCount(digits: int, n: nat)
    requires n >= 1
    ensures Lo(digits) <= n <= Hi(digits) <==> |NatToString(n)| == DigitCount(digits)
  {
    NatToStringLength(n, DigitCount(digits));
  }

  predicate UnitDraw(u: real) {
    0.0 <= u < 1.0
  }

  predicate UnitDraws(draws: seq<real>) {
    forall i :: 0 <= i < |draws| ==> UnitDraw(draws[i])
  }

  /** `max - min + 1`, the count of numbers that can be drawn. */
  function Width(digits: int): (w: nat)
    ensures w >= 1
  {
    Hi(digits) - Lo(digits) + 1
  }

  /** `gerarNumeroComDigitos(digits)` with `Math.random()` returning `u`:
      `Math.floor(u * (max - min + 1)) + min`. */
  function Draw(digits: int, u: real): (n: int)
    requires UnitDraw(u)
    ensures Lo(digits) <= n <= Hi(digits)
  {
    var w := Width(digits);
    FloorBelow(Scaled(u, w), w) + Lo(digits)
  }

  /** `u * w`, which lies in `[0, w)` for a unit draw. */
  function Scaled(u: real, w: int): (x: real)
    requires UnitDraw(u) && w > 0
    ensures 0.0 <= x < w as real
  {
    var x := w as real;
    assert (1.0 - u) * x > 0.0;
    u * x
  }

  /** `Math.floor` of a value in `[0, w)`. */
  function FloorBelow(x: real, w: int): (f: int)
    requires 0.0 <= x < w as real
    ensures 0 <= f < w
  {
    x.Floor
  }

  /** The draw that yields `n`: every number of the range can be drawn. */
  function DrawFor(digits: int, n: int): (u: real)
    requires Lo(digits) <= n <= Hi(digits)
    ensures UnitDraw(u)
    ensures Draw(digits, u) == n
  {
    var w := Width(digits);
    var u := (n - Lo(digits)) as real / w as real;
    ScaleBack(n - Lo(digits), w);
    u
  }

  lemma ScaleBack(a: int, w: int)
    requires 0 <= a < w
    ensures var u := a as real / w as real; UnitDraw(u) && Scaled(u, w) == a as real
  {
    var u := a as real / w as real;
    assert u * w as real == a as real;
  }

  /* ---------------- the rejection loop ---------------- */

  /** The negated loop condition of `gerarDivisoes`: a divisor is kept
      when it is not 0, not above the dividend, not the dividend itself
      and not 1. */
  predicate Accepted(dividend: int, divisor: int) {
    !(divisor == 0 || divisor > dividend || divisor == dividend || divisor == 1)
  }

  /** A kept divisor and the number of draws it took. */
  datatype Pick = Pick(divisor: int, used: nat)

  /** Draw divisors with `digits` digits until one is kept. The first draw
      is the one made before the loop; every later draw is a loop turn.
      `None`: all supplied draws were rejected and the loop is still
      running. */
  function DrawDivisor(dividend: int, digits: int, draws: seq<real>): (r: Option<Pick>)
    requires UnitDraws(draws)
    ensures r.Some? ==>
      && 1 <= r.value.used <= |draws|
      && r.value.divisor == Draw(digits, draws[r.value.used - 1])
      && Accepted(dividend, r.value.divisor)
      && 2 <= r.value.divisor < dividend
      && forall i :: 0 <= i < r.value.used - 1 ==> !Accepted(dividend, Draw(digits, draws[i]))
    ensures r.None? <==> forall i :: 0 <= i < |draws| ==> !Accepted(dividend, Draw(digits, draws[i]))
    decreases |draws|
  {
    if |draws| == 0 then None
    else
      var d := Draw(digits, draws[0]);
      if Accepted(dividend, d) then Some(Pick(d, 1))
      else
        match DrawDivisor(dividend, digits, draws[1..])
        case None => None
        case Some(p) => Some(Pick(p.divisor, p.used + 1))
  }

  /** The least divisor with `digits` digits the loop can keep: the
      smallest number drawn, but never 0 or 1. */
  function LeastDivisor(digits: int): int {
    if Lo(digits) < 2 then 2 else Lo(digits)
  }

  /** Some divisor with `digits` digits is acceptable for `dividend`: the
      least candidate lies below the dividend and within the range. */
  predicate Admits(dividend: int, digits: int) {
    LeastDivisor(digits) < dividend && LeastDivisor(digits) <= Hi(digits)
  }

  /** When the dividend admits a divisor, a single draw can end the loop. */
  lemma RejectionCanStop(dividend: int, digits: int)
    requires Admits(dividend, digits)
    ensures DrawDivisor(dividend, digits, [DrawFor(digits, LeastDivisor(digits))])
      == Some(Pick(LeastDivisor(digits), 1))
  {
  }

  /** When it admits none, no sequence of draws ever ends the loop: the
      page would hang. */
  lemma RejectionNeverStops(dividend: int, digits: int, draws: seq<real>)
    requires !Admits(dividend, digits) && UnitDraws(draws)
    ensures DrawDivisor(dividend, digits, draws) == None
  {
    forall i | 0 <= i < |draws|
      ensures !Accepted(dividend, Draw(digits, draws[i]))
    {
      var d := Draw(digits, draws[i]);
    }
  }

  /** Every dividend with `dividendDigits` digits admits a divisor with
      `divisorDigits` digits exactly when the divisor has fewer digits. In
      particular a one-digit dividend (1 or 2) can hang the page, and so
      can a divisor with as many digits as the dividend or more. */
  lemma {:induction false} EveryDividendAdmits(dividendDigits: int, divisorDigits: int)
    ensures (forall n :: Lo(dividendDigits) <= n <= Hi(dividendDigits) ==> Admits(n, divisorDigits))
      <==> DigitCount(divisorDigits) < DigitCount(dividendDigits)
  {
    var kd, kv := DigitCount(dividendDigits), DigitCount(divisorDigits);
    if kv < kd {
      PowMonotone(kv - 1, kd - 2);
      PowMonotone(1, kd - 1);
      assert Pow10(1) == 10;
    } else {
      PowMonotone(kd - 1, kv - 1);
      assert !Admits(Lo(dividendDigits), divisorDigits);
    }
  }

  /* ---------------- the questions ---------------- */

  /** One generated question: `{ id, dividendo, divisor, quociente, resto }`. */
  datatype Question = Question(id: int, dividend: int, divisor: int, quotient: int, remainder: int)

  /** A question with `Math.floor(dividend / divisor)` and
      `dividend % divisor`; for the positive operands the loop lets
      through, JavaScript's floor and `%` agree with Dafny's `/` and `%`. */
  function MakeQuestion(id: int, dividend: int, divisor: int): (q: Question)
    requires 2 <= divisor < dividend
    ensures q.id == id && q.dividend == dividend && q.divisor == divisor
    ensures dividend == divisor * q.quotient + q.remainder
    ensures 0 <= q.remainder < divisor
    ensures q.quotient >= 1
  {
    Question(id, dividend, divisor, dividend / divisor, dividend % divisor)
  }

  /** The quotient and remainder are the only answers that satisfy
      Euclid's identity with a remainder in `[0, divisor)`. */
  lemma EuclidUnique(dividend: int, divisor: int, q: int, r: int)
    requires 2 <= divisor < dividend
    requires dividend == divisor * q + r && 0 <= r < divisor
    ensures q == MakeQuestion(0, dividend, divisor).quotient
    ensures r == MakeQuestion(0, dividend, divisor).remainder
  {
    var m := MakeQuestion(0, dividend, divisor);
    var q0, r0 := m.quotient, m.remainder;
    Distribute(divisor, q, q0);
    Distribute(divisor, q0, q);
    if q > q0 {
      MulAtLeast(divisor, q - q0);
    } else if q < q0 {
      MulAtLeast(divisor, q0 - q);
    }
  }

  lemma MulAtLeast(a: int, d: int)
    requires a > 0 && d >= 1
    ensures a * d >= a
  {
  }

  lemma Distribute(a: int, x: int, y: int)
    ensures a * x - a * y == a * (x - y)
  {
  }

  /** What every generated question satisfies. */
  predicate WellFormed(q: Question, dividendDigits: int, divisorDigits: int) {
    && Lo(dividendDigits) <= q.dividend <= Hi(dividendDigits)
    && Lo(divisorDigits) <= q.divisor <= Hi(divisorDigits)
    && 2 <= q.divisor < q.dividend
    && q.dividend == q.divisor * q.quotient + q.remainder
    && 0 <= q.remainder < q.divisor
    && q.quotient >= 1
  }

  /** Questions `i + 1` to 10 of `gerarDivisoes`: draw a dividend, run
      the rejection loop for its divisor, build the question. */
  function GenerateFrom(i: nat, dividendDigits: int, divisorDigits: int, draws: seq<real>): (r: Option<seq<Question>>)
    requires i <= 10 && UnitDraws(draws)
    ensures r.Some? ==> |r.value| == 10 - i
    ensures r.Some? ==> forall j :: 0 <= j < |r.value| ==>
      r.value[j].id == i + j + 1 && WellFormed(r.value[j], dividendDigits, divisorDigits)
    decreases 10 - i
  {
    if i == 10 then Some([])
    else if |draws| == 0 then None
    else
      var dividend := Draw(dividendDigits, draws[0]);
      match DrawDivisor(dividend, divisorDigits, draws[1..])
      case None => None
      case Some(p) =>
        var q := MakeQuestion(i + 1, dividend, p.divisor);
        match GenerateFrom(i + 1, dividendDigits, divisorDigits, draws[1 + p.used..])
        case None => None
        case Some(rest) => Some([q] + rest)
  }

  /** `gerarDivisoes(dividendDigits, divisorDigits)`: exactly ten
      well-formed questions with ids 1 to 10 in order, or `None` while the
      rejection loop is still drawing. */
  function GenerateDivisions(dividendDigits: int, divisorDigits: int, draws: seq<real>): (r: Option<seq<Question>>)
    requires UnitDraws(draws)
    ensures r.Some? ==> |r.value| == 10
    ensures r.Some? ==> forall j :: 0 <= j < 10 ==>
      r.value[j].id == j + 1 && WellFormed(r.value[j], dividendDigits, divisorDigits)
  {
    GenerateFrom(0, dividendDigits, divisorDigits, draws)
  }

  /** A first dividend that admits no divisor stalls generation whatever
      the later draws. */
  lemma StuckDividendStalls(dividendDigits: int, divisorDigits: int, draws: seq<real>)
    requires UnitDraws(draws) && |draws| > 0
    requires !Admits(Draw(dividendDigits, draws[0]), divisorDigits)
    ensures GenerateDivisions(dividendDigits, divisorDigits, draws) == None
  {
    RejectionNeverStops(Draw(dividendDigits, draws[0]), divisorDigits, draws[1..]);
  }

  /** `k` rounds of a dividend draw followed by a divisor draw. */
  function Rounds(dividendDraw: real, divisorDraw: real, k: nat): (draws: seq<real>)
    ensures |draws| == 2 * k
    ensures UnitDraw(dividendDraw) && UnitDraw(divisorDraw) ==> UnitDraws(draws)
  {
    if k == 0 then [] else [dividendDraw, divisorDraw] + Rounds(dividendDraw, divisorDraw, k - 1)
  }

  /** When the largest dividend admits a divisor, drawing that dividend
      and the least divisor in every round makes questions `i + 1` to 10,
      one round each. */
  lemma {:induction false} FinishesFrom(i: nat, dividendDigits: int, divisorDigits: int)
    requires i <= 10 && Admits(Hi(dividendDigits), divisorDigits)
    ensures var draws := Rounds(DrawFor(dividendDigits, Hi(dividendDigits)),
                                DrawFor(divisorDigits, LeastDivisor(divisorDigits)), 10 - i);
      UnitDraws(draws) && GenerateFrom(i, dividendDigits, divisorDigits, draws).Some?
    decreases 10 - i
  {
    if i < 10 {
      var a := DrawFor(dividendDigits, Hi(dividendDigits));
      var b := DrawFor(divisorDigits, LeastDivisor(divisorDigits));
      FinishesFrom(i + 1, dividendDigits, divisorDigits);
      OneRound(i, dividendDigits, divisorDigits, Rounds(a, b, 10 - i - 1));
    }
  }

  /** One round of the largest dividend and the least divisor makes
      question `i + 1`, and the rest go on from the remaining draws. */
  lemma OneRound(i: nat, dividendDigits: int, divisorDigits: int, rest: seq<real>)
    requires i < 10 && Admits(Hi(dividendDigits), divisorDigits) && UnitDraws(rest)
    requires GenerateFrom(i + 1, dividendDigits, divisorDigits, rest).Some?
    ensures var draws := [DrawFor(dividendDigits, Hi(dividendDigits)),
                          DrawFor(divisorDigits, LeastDivisor(divisorDigits))] + rest;
      UnitDraws(draws) && GenerateFrom(i, dividendDigits, divisorDigits, draws).Some?
  {
    var a := DrawFor(dividendDigits, Hi(dividendDigits));
    var b := DrawFor(divisorDigits, LeastDivisor(divisorDigits));
    var draws := [a, b] + rest;
    assert draws[1..] == [b] + rest;
    assert draws[2..] == rest;
    RejectionCanStop(Hi(dividendDigits), divisorDigits);
    assert DrawDivisor(Hi(dividendDigits), divisorDigits, draws[1..])
      == Some(Pick(LeastDivisor(divisorDigits), 1));
  }

  /** Some draws make all ten questions exactly when the largest dividend
      admits a divisor; otherwise no dividend does and every supply of
      draws stalls on the first question. */
  lemma CanFinish(dividendDigits: int, divisorDigits: int)
    ensures Admits(Hi(dividendDigits), divisorDigits) ==>
      var draws := Rounds(DrawFor(dividendDigits, Hi(dividendDigits)),
                          DrawFor(divisorDigits, LeastDivisor(divisorDigits)), 10);
      UnitDraws(draws) && GenerateDivisions(dividendDigits, divisorDigits, draws).Some?
    ensures !Admits(Hi(dividendDigits), divisorDigits) ==>
      forall draws :: UnitDraws(draws) ==> GenerateDivisions(dividendDigits, divisorDigits, draws) == None
  {
    if Admits(Hi(dividendDigits), divisorDigits) {
      FinishesFrom(0, dividendDigits, divisorDigits);
    } else {
      forall draws | UnitDraws(draws)
        ensures GenerateDivisions(dividendDigits, divisorDigits, draws) == None
      {
        if |draws| > 0 {
          StuckDividendStalls(dividendDigits, divisorDigits, draws);
        }
      }
    }
  }

  /** The largest dividend admits a divisor exactly when the divisor has
      no more digits than the dividend. */
  lemma {:induction false} LargestAdmits(dividendDigits: int, divisorDigits: int)
    ensures Admits(Hi(dividendDigits), divisorDigits) <==> DigitCount(divisorDigits) <= DigitCount(dividendDigits)
  {
    var kd, kv := DigitCount(dividendDigits), DigitCount(divisorDigits);
    if kv <= kd {
      PowMonotone(kv - 1, kd - 1);
      PowMonotone(1, kd);
      assert Pow10(1) == 10;
    } else {
      PowMonotone(kd, kv - 1);
    }
  }

  /** `gerarDivisoes` can finish exactly when the divisor has no more
      digits than the dividend: then some draws make ten questions, and
      otherwise no draws do. */
  lemma GenerationCanFinish(dividendDigits: int, divisorDigits: int)
    ensures DigitCount(divisorDigits) <= DigitCount(dividendDigits) ==>
      exists draws :: UnitDraws(draws) && GenerateDivisions(dividendDigits, divisorDigits, draws).Some?
    ensures DigitCount(divisorDigits) > DigitCount(dividendDigits) ==>
      forall draws :: UnitDraws(draws) ==> GenerateDivisions(dividendDigits, divisorDigits, draws) == None
  {
    LargestAdmits(dividendDigits, divisorDigits);
    CanFinish(dividendDigits, divisorDigits);
  }

  /* ---------------- the digit-count inputs ---------------- */

  /** `parseInt(value, 10) || 1`: a count that does not parse, or parses
      to 0, becomes 1. */
  function DigitSetting(input: string): (d: int)
    ensures d != 0
    ensures ParseInt(input).Truthy() ==> d == ParseInt(input).v
    ensures !ParseInt(input).Truthy() ==> d == 1
  {
    var p := ParseInt(input);
    if p.Truthy() then p.v else 1
  }

  /** `gerarFluxo`: read both digit counts, then generate. */
  function GenerateFlow(dividendInput: string, divisorInput: string, draws: seq<real>): (r: Option<seq<Question>>)
    requires UnitDraws(draws)
    ensures r.Some? ==> |r.value| == 10
    ensures r.Some? ==> forall j :: 0 <= j < 10 ==>
      WellFormed(r.value[j], DigitSetting(dividendInput), DigitSetting(divisorInput))
  {
    GenerateDivisions(DigitSetting(dividendInput), DigitSetting(divisorInput), draws)
  }

  /** Typing a positive count `k` yields dividends of exactly `k` digits;
      a blank, unparsable, zero or negative count yields one digit. */
  lemma FlowDividendDigits(input: string, divisorInput: string, draws: seq<real>, k: nat)
    requires UnitDraws(draws)
    requires k >= 1
    requires input == NatToString(k) || !ParseInt(input).Truthy() || (ParseInt(input).Int? && ParseInt(input).v < 0)
    requires k == 1 || input == NatToString(k)
    ensures var r := GenerateFlow(input, divisorInput, draws);
      r.Some? ==> forall j :: 0 <= j < 10 ==> |NatToString(r.value[j].dividend)| == k
  {
    if input == NatToString(k) {
      ParseIntOfToString(k, "");
      assert NatToString(k) + "" == NatToString(k);
    }
    var d := DigitSetting(input);
    assert DigitCount(d) == k;
    var r := GenerateFlow(input, divisorInput, draws);
    if r.Some? {
      forall j | 0 <= j < 10
        ensures |NatToString(r.value[j].dividend)| == k
      {
        RangeIsDigitCount(d, r.value[j].dividend);
      }
    }
  }
}
