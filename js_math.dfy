// The JavaScript arithmetic the core relies on, stated over integers.
module JsMath {

  function Min(a: int, b: int): int { if a <= b then a else b }

  function Max(a: int, b: int): int { if a >= b then a else b }

  /**
   * `Math.round(n / d)` for d > 0: the nearest integer, halves rounded up
   * (towards +infinity, as JavaScript does). The ensures is the definition of
   * that rounding: r - 1/2 <= n/d < r + 1/2.
   */
  function RoundHalfUp(n: int, d: int): (r: int)
    requires d > 0
    ensures 2 * d * r <= 2 * n + d < 2 * d * r + 2 * d
    ensures n >= 0 ==> r >= 0
  {
    var q := (2 * n + d) / (2 * d);
    assert (2 * d) * q <= 2 * n + d < (2 * d) * q + 2 * d;
    q
  }

  /** `Math.round(c / t * k)` as the percentage-style scores compute it. */
  function RoundRatio(c: nat, t: nat, k: nat): (r: nat)
    requires t > 0
    ensures 2 * t * r <= 2 * c * k + t < 2 * t * r + 2 * t
  {
    RoundHalfUp(c * k, t)
  }

  /** A rounded ratio never exceeds its scale when the numerator is at most the denominator. */
  lemma RoundRatioAtMostScale(c: nat, t: nat, k: nat)
    requires 0 < t && c <= t
    ensures RoundRatio(c, t, k) <= k
  {
    var r := RoundRatio(c, t, k);
    MulLeftMono(2 * k, c, t);
    assert 2 * t * r < 2 * t * (k + 1);
    MulLeftCancel(2 * t, r, k + 1);
  }

  /** The full numerator yields exactly the scale. */
  lemma RoundRatioFull(t: nat, k: nat)
    requires 0 < t
    ensures RoundRatio(t, t, k) == k
  {
    var r := RoundRatio(t, t, k);
    assert 2 * t * r < 2 * t * (k + 1);
    MulLeftCancel(2 * t, r, k + 1);
    assert 2 * t * k < 2 * t * (r + 1);
    MulLeftCancel(2 * t, k, r + 1);
  }

  /** A zero numerator rounds to zero. */
  lemma RoundRatioZero(t: nat, k: nat)
    requires 0 < t
    ensures RoundRatio(0, t, k) == 0
  {
    var r := RoundRatio(0, t, k);
    assert 2 * t * r < 2 * t * 1;
    MulLeftCancel(2 * t, r, 1);
  }

  /** Rounding is monotone in the numerator. */
  lemma RoundRatioMono(c1: nat, c2: nat, t: nat, k: nat)
    requires 0 < t && c1 <= c2
    ensures RoundRatio(c1, t, k) <= RoundRatio(c2, t, k)
  {
    var r1, r2 := RoundRatio(c1, t, k), RoundRatio(c2, t, k);
    MulLeftMono(2 * k, c1, c2);
    assert 2 * t * r1 < 2 * t * (r2 + 1);
    MulLeftCancel(2 * t, r1, r2 + 1);
  }

  lemma MulLeftMono(a: nat, x: int, y: int)
    requires x <= y
    ensures a * x <= a * y
  {
  }

  lemma MulLeftCancel(a: nat, x: int, y: int)
    requires a * x < a * y
    ensures x < y
  {
    if x >= y {
      MulLeftMono(a, y, x);
    }
  }

  /** JavaScript's `%`: the remainder takes the sign of the dividend (truncating division). */
  function JsRem(a: int, b: int): (r: int)
    requires b > 0
    ensures a >= 0 ==> r == a % b
    ensures a >= 0 ==> 0 <= r < b
    ensures a < 0 ==> -b < r <= 0
  {
    if a >= 0 then a % b else -((-a) % b)
  }
}
