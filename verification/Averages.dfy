/** The moving average of a camera's delays (`Client/Control/Monitor.java`, `addFrame`), with
    0.8 and 0.2 as the exact fractions 4/5 and 1/5 and the cast to long truncating. */
module Averages {

  /** Division by five toward zero. */
  function TruncFifth(x: int): int {
    if x >= 0 then x / 5 else -(-x / 5)
  }

  /** The average after one more delay. */
  function NextAverage(average: int, delay: int): int {
    TruncFifth(4 * average + delay)
  }

  function Abs(x: int): nat {
    if x >= 0 then x else -x
  }

  /** The average after n frames with the same delay. */
  function Steady(average: int, delay: int, n: nat): int {
    if n == 0 then average else NextAverage(Steady(average, delay, n - 1), delay)
  }

  /** A bound on the delays that is not negative stays a bound on the average. */
  lemma AverageBounded(average: int, delay: int, bound: int)
    requires average <= bound && delay <= bound && 0 <= bound
    ensures NextAverage(average, delay) <= bound
  {
  }

  /** What the gap to the delay becomes, for every average and delay: four fifths of itself,
      rounded down, or up where the sum that the cast truncates is negative. */
  lemma GapStep(average: int, delay: int)
    ensures NextAverage(average, delay) - delay ==
            if 4 * average + delay >= 0 then 4 * (average - delay) / 5
            else -(4 * (delay - average) / 5)
  {
  }

  /** The average moves monotonically toward the delay and never past it. */
  lemma MovesToward(average: int, delay: int)
    ensures average >= delay ==> delay <= NextAverage(average, delay) <= average
    ensures average <= delay ==> average <= NextAverage(average, delay) <= delay
  {
    GapStep(average, delay);
    hide NextAverage;
  }

  /** The average stands still exactly at the delay and up to four on that side of it that is
      nearer to zero. */
  lemma FixedPoints(average: int, delay: int)
    ensures NextAverage(average, delay) == average <==>
            || average == delay
            || (0 < delay - average <= 4 && 4 * average + delay >= 0)
            || (0 < average - delay <= 4 && 4 * average + delay < 0)
  {
    GapStep(average, delay);
    hide NextAverage;
  }

  /** Negative delays - a camera's clock ahead of the client's - are filtered as their
      opposites are, so that what holds of delays from zero up holds mirrored below. */
  lemma {:induction false} SteadyMirrored(average: int, delay: int, n: nat)
    ensures Steady(-average, -delay, n) == -Steady(average, delay, n)
  {
    if n == 0 {
    } else {
      SteadyMirrored(average, delay, n - 1);
    }
  }

  /** What is left of the way to the resting point. */
  function Excess(average: int, delay: int): nat {
    if average >= delay then average - delay
    else if delay - average > 4 then delay - average - 4
    else 0
  }

  function Pow(base: nat, k: nat): (p: nat)
    ensures base > 0 ==> p > 0
  {
    if k == 0 then 1 else base * Pow(base, k - 1)
  }

  /** Each frame removes at least a fifth of the excess. */
  lemma ExcessShrinks(average: int, delay: int)
    requires 0 <= average && 0 <= delay
    ensures 0 <= NextAverage(average, delay)
    ensures 5 * Excess(NextAverage(average, delay), delay) <= 4 * Excess(average, delay)
    ensures (average >= delay) == (NextAverage(average, delay) >= delay)
  {
  }

  lemma {:induction false} ExcessAfter(average: int, delay: int, n: nat)
    requires 0 <= average && 0 <= delay
    ensures 0 <= Steady(average, delay, n)
    ensures Pow(5, n) * Excess(Steady(average, delay, n), delay) <= Pow(4, n) * Excess(average, delay)
    ensures (average >= delay) == (Steady(average, delay, n) >= delay)
  {
    if n == 0 {
    } else {
      ExcessAfter(average, delay, n - 1);
      var before := Steady(average, delay, n - 1);
      ExcessShrinks(before, delay);
      Scale(Pow(5, n - 1), Pow(4, n - 1), Excess(before, delay),
            Excess(NextAverage(before, delay), delay), Excess(average, delay));
    }
  }

  lemma Scale(p: nat, q: nat, e: nat, next: nat, start: nat)
    requires p * e <= q * start && 5 * next <= 4 * e
    ensures (5 * p) * next <= (4 * q) * start
  {
    calc {
      (5 * p) * next;
    ==
      p * (5 * next);
    <= { MulMonotone(p, 5 * next, 4 * e); }
      p * (4 * e);
    ==
      4 * (p * e);
    <=
      4 * (q * start);
    ==
      (4 * q) * start;
    }
  }

  lemma MulMonotone(p: nat, x: int, y: int)
    requires x <= y
    ensures p * x <= p * y
  {
  }

  /** Once (5/4)^n exceeds the excess, n frames have brought the average to its resting point:
      the delay itself from above, four below it (or the start, if nearer) from below. */
  lemma Converges(average: int, delay: int, n: nat)
    requires 0 <= average && 0 <= delay
    requires Pow(4, n) * Excess(average, delay) < Pow(5, n)
    ensures Excess(Steady(average, delay, n), delay) == 0
    ensures Steady(average, delay, n) ==
            if average >= delay then delay
            else if delay - average <= 4 then average
            else delay - 4
  {
    ExcessAfter(average, delay, n);
    var e := Excess(Steady(average, delay, n), delay);
    if e >= 1 {
      MulMonotone(Pow(5, n), 1, e);
    }
    if average < delay {
      RestBelow(average, delay, n);
    }
  }

  /** From below the average never comes nearer than four, unless it started nearer; then it
      stays where it started. */
  lemma {:induction false} RestBelow(average: int, delay: int, n: nat)
    requires 0 <= average < delay
    ensures var a := Steady(average, delay, n);
            && average <= a
            && (delay - average > 4 ==> delay - a >= 4)
            && (delay - average <= 4 ==> a == average)
  {
    if n == 0 {
    } else {
      RestBelow(average, delay, n - 1);
    }
  }

  /** An average below zero, left behind by negative delays, is not below zero after as many
      frames as it is large; from there on Converges applies. */
  lemma {:induction false} LeavesNegative(average: int, delay: int, n: nat)
    requires average < 0 <= delay
    ensures Steady(average, delay, n) >= average + n || Steady(average, delay, n) >= 0
    ensures n >= -average ==> Steady(average, delay, n) >= 0
  {
    if n == 0 {
    } else {
      LeavesNegative(average, delay, n - 1);
    }
  }

  /** Some number of frames always suffices. */
  lemma {:induction false} EnoughFrames(e: nat)
    ensures Pow(4, 4 * e) * e < Pow(5, 4 * e)
  {
    if e == 0 {
    } else {
      EnoughFrames(e - 1);
      var p, q := Pow(4, 4 * e - 4), Pow(5, 4 * e - 4);
      FourMore(4, 4 * e - 4);
      FourMore(5, 4 * e - 4);
      Growth(p, q, e);
    }
  }

  lemma FourMore(base: nat, k: nat)
    ensures Pow(base, k + 4) == base * (base * (base * (base * Pow(base, k))))
  {
    assert Pow(base, k + 2) == base * (base * Pow(base, k));
  }

  /** 625 is more than twice 256. */
  lemma Growth(p: nat, q: nat, e: nat)
    requires e > 0 && p > 0 && p * (e - 1) < q && p <= q
    ensures 256 * p * e < 625 * q
  {
    assert p * e == p * (e - 1) + p;
    assert 256 * p * e == 256 * (p * e);
  }
}
