/**
 * Every percentage the front end shows is `Math.round(100 * k / n)`.
 * JavaScript's `Math.round(x)` is `floor(x + 1/2)` (halves round up), so for
 * n != 0 the value is an integer computable without floating point.
 */
module Rounding {

  /** `Math.round(100 * k / n)`, half-up, as an exact integer. */
  function RoundPercent(k: int, n: int): (r: int)
    requires n != 0
    ensures n > 0 ==> (2 * r - 1) * n <= 200 * k < (2 * r + 1) * n
    ensures n < 0 ==> (2 * r + 1) * n < 200 * k <= (2 * r - 1) * n
  {
    if n > 0 then
      var q := (200 * k + n) / (2 * n);
      DivBounds(200 * k + n, 2 * n);
      q
    else
      var q := (-200 * k - n) / (-2 * n);
      DivBounds(-200 * k - n, -2 * n);
      q
  }

  /** Euclidean division by a positive divisor brackets the dividend. */
  lemma DivBounds(a: int, d: int)
    requires d > 0
    ensures d * (a / d) <= a < d * (a / d) + d
  {
  }

  /** The rounding interval determines the rounded value: at most one integer is within a half of 100k/n. */
  lemma {:induction false} RoundPercentUnique(k: int, n: int, r': int)
    requires n > 0
    requires (2 * r' - 1) * n <= 200 * k < (2 * r' + 1) * n
    ensures r' == RoundPercent(k, n)
  {
    var r := RoundPercent(k, n);
    if r' < r {
      assert (2 * r' + 1) * n <= (2 * r - 1) * n by { MulMono(2 * r' + 1, 2 * r - 1, n); }
    } else if r' > r {
      assert (2 * r + 1) * n <= (2 * r' - 1) * n by { MulMono(2 * r + 1, 2 * r' - 1, n); }
    }
  }

  lemma MulMono(a: int, b: int, n: int)
    requires a <= b && n > 0
    ensures a * n <= b * n
  {
  }

  /** For 0 <= k <= n the percentage lies in 0..100; it is 0 at k = 0 and 100 at k = n. */
  lemma {:induction false} RoundPercentBounds(k: int, n: int)
    requires 0 <= k <= n && n > 0
    ensures 0 <= RoundPercent(k, n) <= 100
    ensures k == 0 ==> RoundPercent(k, n) == 0
    ensures k == n ==> RoundPercent(k, n) == 100
  {
    var r := RoundPercent(k, n);
    if r < 0 {
      assert (2 * r + 1) * n <= -n by { MulMono(2 * r + 1, -1, n); }
    }
    if r > 100 {
      assert 201 * n <= (2 * r - 1) * n by { MulMono(201, 2 * r - 1, n); }
    }
    if k == 0 {
      RoundPercentUnique(k, n, 0);
    }
    if k == n {
      RoundPercentUnique(k, n, 100);
    }
  }

  /** There is no clamp: the percentage exceeds 100 exactly when 100k/n reaches 100.5. */
  lemma {:induction false} RoundPercentAbove100(k: int, n: int)
    requires n > 0
    ensures RoundPercent(k, n) > 100 <==> 200 * k >= 201 * n
  {
    var r := RoundPercent(k, n);
    if r > 100 {
      MulMono(201, 2 * r - 1, n);
    }
    if 200 * k >= 201 * n && r <= 100 {
      MulMono(2 * r + 1, 201, n);
    }
  }

  /** More completed items never lower the percentage. */
  lemma {:induction false} RoundPercentMonotone(k1: int, k2: int, n: int)
    requires n > 0 && k1 <= k2
    ensures RoundPercent(k1, n) <= RoundPercent(k2, n)
  {
    var r1, r2 := RoundPercent(k1, n), RoundPercent(k2, n);
    if r1 > r2 {
      MulMono(2 * r2 + 1, 2 * r1 - 1, n);
    }
  }
}
