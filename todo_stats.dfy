/** The completion percentage shown by the stats header and returned by the
    server's stats endpoint: `total > 0 ? Math.round(completed / total * 100) : 0`.
    The floating-point expression is modelled by exact integer rounding half
    up, which is what `Math.round` does for the non-negative exact quotient. */
module TodoStats {

  /** Rounds `100 * completed / total` to the nearest integer, halves up:
      the result lies within half a unit of the exact percentage, and a value
      exactly half-way is rounded up. */
  function CompletionRate(completed: nat, total: nat): (rate: nat)
    ensures total == 0 ==> rate == 0
    ensures total > 0 ==> (2 * rate - 1) * total <= 200 * completed < (2 * rate + 1) * total
  {
    if total > 0 then
      var rate := (200 * completed + total) / (2 * total);
      FloorBounds(200 * completed + total, 2 * total, rate);
      rate
    else 0
  }

  /** `q` is the floor of `n / d`. */
  lemma FloorBounds(n: nat, d: nat, q: nat)
    requires d > 0 && q == n / d
    ensures d * q <= n < d * q + d
  {
  }

  /** Multiplying by a positive number preserves and reflects `<=`. */
  lemma ScaleLe(a: int, b: int, t: int)
    requires t > 0
    ensures a <= b <==> a * t <= b * t
  {
    if a <= b {
      assert b * t - a * t == (b - a) * t;
    } else {
      assert a * t - b * t == (a - b) * t;
    }
  }

  /** With `0 <= completed <= total` the rate lies in 0..100. */
  lemma RateAtMostHundred(completed: nat, total: nat)
    requires completed <= total
    ensures CompletionRate(completed, total) <= 100
  {
    if total > 0 {
      var rate: int := CompletionRate(completed, total);
      assert (2 * rate - 1) * total <= 200 * completed;
      ScaleLe(completed, total, 200);
      assert (2 * rate - 1) * total <= 200 * total;
      ScaleLe(2 * rate - 1, 200, total);
    }
  }

  /** Nothing completed gives 0. */
  lemma RateOfNone(total: nat)
    ensures CompletionRate(0, total) == 0
  {
    if total > 0 {
      var rate: int := CompletionRate(0, total);
      assert (2 * rate - 1) * total <= 0 * total;
      ScaleLe(2 * rate - 1, 0, total);
    }
  }

  /** Everything completed gives 100. */
  lemma RateOfAll(total: nat)
    requires total > 0
    ensures CompletionRate(total, total) == 100
  {
    var rate: int := CompletionRate(total, total);
    assert 200 * total < (2 * rate + 1) * total;
    ScaleLe(2 * rate + 1, 200, total);
    RateAtMostHundred(total, total);
  }
}
