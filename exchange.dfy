/** The single-hop constant-product exchange curve of entropic/liquidity.py and
    the properties the routing relies on: no output for no input, an output
    reserve that can never be drained, strict monotonicity and concavity. */
module Exchange {

  /** Amount of asset 2 received for `x` of asset 1 from a pool holding `liq1`
      of asset 1 and `liq2` of asset 2, with no fee. The pool's product of
      reserves is the same before and after the trade. */
  function ExchangeFunction(x: real, liq1: real, liq2: real): (y: real)
    requires liq1 + x != 0.0
    ensures (liq1 + x) * (liq2 - y) == liq1 * liq2
  {
    var k := liq1 * liq2;
    liq2 - k / (liq1 + x)
  }

  /** The curve with the product of reserves computed first, as the
      routing loop of the post-processing writes it. */
  lemma ExchangeWrittenOut(x: real, liq1: real, liq2: real, k: real)
    requires k == liq1 * liq2 && liq1 + x != 0.0
    ensures ExchangeFunction(x, liq1, liq2) == liq2 - (k / (liq1 + x))
  {
  }

  /** The output equals `liq2 * x / (liq1 + x)`. */
  lemma ExchangeClosedForm(x: real, liq1: real, liq2: real)
    requires liq1 + x != 0.0
    ensures ExchangeFunction(x, liq1, liq2) == liq2 * x / (liq1 + x)
  {
    var d := liq1 + x;
    var y := ExchangeFunction(x, liq1, liq2);
    assert d * (liq2 - y) == liq1 * liq2;
    assert d * y == d * liq2 - liq1 * liq2;
    assert d * liq2 - liq1 * liq2 == liq2 * x;
    assert y == (d * y) / d;
  }

  /** Sign of a product with a positive factor. */
  lemma PositiveFactor(p: real, q: real)
    requires p > 0.0
    ensures p * q > 0.0 <==> q > 0.0
    ensures p * q >= 0.0 <==> q >= 0.0
    ensures p * q == 0.0 <==> q == 0.0
  {
  }

  /** Bounds: for positive reserves and a non-negative input the output is
      non-negative and strictly below the output reserve, and it is zero
      exactly when the input is zero. */
  lemma ExchangeBounds(x: real, liq1: real, liq2: real)
    requires liq1 > 0.0 && liq2 > 0.0 && x >= 0.0
    ensures 0.0 <= ExchangeFunction(x, liq1, liq2) < liq2
    ensures ExchangeFunction(x, liq1, liq2) == 0.0 <==> x == 0.0
  {
    var d := liq1 + x;
    var y := ExchangeFunction(x, liq1, liq2);
    ExchangeClosedForm(x, liq1, liq2);
    assert d * y == liq2 * x;
    PositiveFactor(d, y);
    PositiveFactor(liq2, x);
    // what the trade leaves in the pool is positive
    assert d * (liq2 - y) == liq1 * liq2;
    PositiveFactor(liq1, liq2);
    PositiveFactor(d, liq2 - y);
  }

  /** The output gained between two inputs: `liq1 * liq2 * (x2 - x1)`
      divided by the product of the two post-trade input reserves. */
  lemma ExchangeDifference(x1: real, x2: real, liq1: real, liq2: real)
    requires liq1 + x1 != 0.0 && liq1 + x2 != 0.0
    ensures (liq1 + x1) * (liq1 + x2) * (ExchangeFunction(x2, liq1, liq2) - ExchangeFunction(x1, liq1, liq2))
            == liq1 * liq2 * (x2 - x1)
  {
    var d1, d2 := liq1 + x1, liq1 + x2;
    var y1, y2 := ExchangeFunction(x1, liq1, liq2), ExchangeFunction(x2, liq1, liq2);
    assert d1 * (liq2 - y1) == liq1 * liq2;
    assert d2 * (liq2 - y2) == liq1 * liq2;
    calc {
      d1 * d2 * (y2 - y1);
      d2 * (d1 * (liq2 - y1)) - d1 * (d2 * (liq2 - y2));
      d2 * (liq1 * liq2) - d1 * (liq1 * liq2);
      liq1 * liq2 * (x2 - x1);
    }
  }

  /** Strictly increasing in the input for positive reserves. */
  lemma ExchangeStrictlyIncreasing(x1: real, x2: real, liq1: real, liq2: real)
    requires liq1 > 0.0 && liq2 > 0.0 && 0.0 <= x1 < x2
    ensures ExchangeFunction(x1, liq1, liq2) < ExchangeFunction(x2, liq1, liq2)
  {
    var d1, d2 := liq1 + x1, liq1 + x2;
    var diff := ExchangeFunction(x2, liq1, liq2) - ExchangeFunction(x1, liq1, liq2);
    ExchangeDifference(x1, x2, liq1, liq2);
    PositiveFactor(d1, d2);
    PositiveFactor(liq1, liq2);
    PositiveFactor(liq1 * liq2, x2 - x1);
    PositiveFactor(d1 * d2, diff);
  }

  /** Non-decreasing on the closed half-line. */
  lemma ExchangeMonotone(x1: real, x2: real, liq1: real, liq2: real)
    requires liq1 > 0.0 && liq2 > 0.0 && 0.0 <= x1 <= x2
    ensures ExchangeFunction(x1, liq1, liq2) <= ExchangeFunction(x2, liq1, liq2)
  {
    if x1 < x2 {
      ExchangeStrictlyIncreasing(x1, x2, liq1, liq2);
    }
  }

  /** Bringing two scaled first differences to one denominator. */
  lemma CommonDenominator(a: real, b: real, c: real, u: real, v: real)
    ensures a * b * c * (v - u) == a * (b * c * v) - c * (a * b * u)
  {
  }

  /** Concavity on evenly spaced points: the second difference with step `h`
      is never positive, and it is negative when `h > 0` (diminishing marginal
      output, i.e. price impact). */
  lemma ExchangeConcave(x: real, h: real, liq1: real, liq2: real)
    requires liq1 > 0.0 && liq2 > 0.0 && x >= 0.0 && h >= 0.0
    ensures ExchangeFunction(x, liq1, liq2) - 2.0 * ExchangeFunction(x + h, liq1, liq2)
            + ExchangeFunction(x + 2.0 * h, liq1, liq2) <= 0.0
    ensures h > 0.0 ==>
            ExchangeFunction(x, liq1, liq2) - 2.0 * ExchangeFunction(x + h, liq1, liq2)
            + ExchangeFunction(x + 2.0 * h, liq1, liq2) < 0.0
  {
    var a, b, c := liq1 + x, liq1 + x + h, liq1 + x + 2.0 * h;
    var y0 := ExchangeFunction(x, liq1, liq2);
    var y1 := ExchangeFunction(x + h, liq1, liq2);
    var y2 := ExchangeFunction(x + 2.0 * h, liq1, liq2);
    var k := liq1 * liq2;
    ExchangeDifference(x, x + h, liq1, liq2);
    ExchangeDifference(x + h, x + 2.0 * h, liq1, liq2);
    // each first difference, scaled by the product of its two reserves, is k * h
    var kh := k * h;
    assert a * b * (y1 - y0) == kh;
    assert b * c * (y2 - y1) == kh;
    var second := (y2 - y1) - (y1 - y0);
    CommonDenominator(a, b, c, y1 - y0, y2 - y1);
    assert a * b * c * second == a * kh - c * kh;
    assert a * kh - c * kh == (a - c) * kh;
    var abc := a * b * c;
    assert abc * second == -2.0 * h * kh;
    PositiveFactor(a, b);
    PositiveFactor(a * b, c);
    PositiveFactor(liq1, liq2);
    PositiveFactor(abc, second);
    if h > 0.0 {
      PositiveFactor(k, h);
      PositiveFactor(h, kh);
    } else {
      assert h * kh == 0.0;
    }
    assert y0 - 2.0 * y1 + y2 == second;
  }

  /** The exchange curve sampled at `n` evenly spaced inputs starting at
      `x0` with step `h`, as the test suite samples it before differencing. */
  function Samples(x0: real, h: real, n: nat, liq1: real, liq2: real): (ys: seq<real>)
    requires liq1 > 0.0 && x0 >= 0.0 && h >= 0.0
    ensures |ys| == n
    decreases n
  {
    if n == 0 then [] else [ExchangeFunction(x0, liq1, liq2)] + Samples(x0 + h, h, n - 1, liq1, liq2)
  }

  /** One more step of a grid point. */
  lemma StepFurther(r: real, h: real)
    ensures (r + 1.0) * h == r * h + h
  {
  }

  /** Entry `i` of the samples is the curve at the non-negative input
      `x0 + i * h`. */
  lemma {:induction false} SamplesAt(x0: real, h: real, n: nat, liq1: real, liq2: real, i: nat)
    requires liq1 > 0.0 && x0 >= 0.0 && h >= 0.0 && i < n
    ensures x0 + (i as real) * h >= 0.0
    ensures Samples(x0, h, n, liq1, liq2)[i] == ExchangeFunction(x0 + (i as real) * h, liq1, liq2)
    decreases i
  {
    if i > 0 {
      var r := (i - 1) as real;
      SamplesAt(x0 + h, h, n - 1, liq1, liq2, i - 1);
      assert x0 + (i as real) * h == (x0 + h) + r * h by {
        StepFurther(r, h);
      }
      assert Samples(x0, h, n, liq1, liq2)[i] == Samples(x0 + h, h, n - 1, liq1, liq2)[i - 1];
    }
  }

  /** Consecutive differences of a sequence (numpy's `diff`). */
  function Diff(s: seq<real>): (d: seq<real>)
    ensures |d| == if |s| == 0 then 0 else |s| - 1
    ensures forall i :: 0 <= i < |d| ==> d[i] == s[i + 1] - s[i]
  {
    if |s| <= 1 then [] else [s[1] - s[0]] + Diff(s[1..])
  }

  /** The samples at positions `i`, `i + 1` and `i + 2`: the first
      difference is non-negative and the second difference non-positive. */
  lemma {:induction false} SampleStepAt(x0: real, h: real, n: nat, liq1: real, liq2: real, i: nat)
    requires liq1 > 0.0 && liq2 > 0.0 && x0 >= 0.0 && h >= 0.0 && i + 1 < n
    ensures Samples(x0, h, n, liq1, liq2)[i] <= Samples(x0, h, n, liq1, liq2)[i + 1]
    ensures i + 2 < n ==>
              Samples(x0, h, n, liq1, liq2)[i] - 2.0 * Samples(x0, h, n, liq1, liq2)[i + 1]
              + Samples(x0, h, n, liq1, liq2)[i + 2] <= 0.0
    decreases i
  {
    var ys := Samples(x0, h, n, liq1, liq2);
    var tail := Samples(x0 + h, h, n - 1, liq1, liq2);
    assert ys[1..] == tail;
    if i == 0 {
      assert ys[1] == tail[0] == ExchangeFunction(x0 + h, liq1, liq2);
      ExchangeMonotone(x0, x0 + h, liq1, liq2);
      if 2 < n {
        var rest := Samples(x0 + h + h, h, n - 2, liq1, liq2);
        assert tail[1..] == rest;
        assert ys[2] == rest[0] == ExchangeFunction(x0 + 2.0 * h, liq1, liq2);
        ExchangeConcave(x0, h, liq1, liq2);
      }
    } else {
      SampleStepAt(x0 + h, h, n - 1, liq1, liq2, i - 1);
      assert ys[i] == tail[i - 1] && ys[i + 1] == tail[i];
      if i + 2 < n {
        assert ys[i + 2] == tail[i + 1];
      }
    }
  }

  /** On any evenly spaced grid of non-negative inputs, the sampled curve has
      non-negative first differences and non-positive second differences. */
  lemma SampledCurveMonotoneConcave(x0: real, h: real, n: nat, liq1: real, liq2: real)
    requires liq1 > 0.0 && liq2 > 0.0 && x0 >= 0.0 && h >= 0.0
    ensures forall d :: d in Diff(Samples(x0, h, n, liq1, liq2)) ==> d >= 0.0
    ensures forall d :: d in Diff(Diff(Samples(x0, h, n, liq1, liq2))) ==> d <= 0.0
  {
    var ys := Samples(x0, h, n, liq1, liq2);
    var d1 := Diff(ys);
    var d2 := Diff(d1);
    forall i | 0 <= i < |d1|
      ensures d1[i] >= 0.0
    {
      SampleStepAt(x0, h, n, liq1, liq2, i);
    }
    forall i | 0 <= i < |d2|
      ensures d2[i] <= 0.0
    {
      assert d2[i] == ys[i + 2] - 2.0 * ys[i + 1] + ys[i];
      SampleStepAt(x0, h, n, liq1, liq2, i);
    }
  }
}
