/** Facts about multiplication by a period that the epoch arithmetic needs. */
module Arith {

  /** Multiplying by a non-negative factor keeps order. */
  lemma MulLeq(a: int, b: int, c: int)
    requires a <= b && 0 <= c
    ensures a * c <= b * c
  {
  }

  /** A whole number of periods leaves no remainder. */
  lemma MulMod(k: int, period: int)
    requires 0 < period
    ensures (k * period) % period == 0
  {
    var r := (k * period) % period;
    var q := (k * period) / period;
    assert k * period == q * period + r;
    assert (k - q) * period == r;
    if k - q > 0 {
      MulLeq(1, k - q, period);
    } else if k - q < 0 {
      MulLeq(k - q, -1, period);
    }
  }

  /** Two multiples of a period that are less than one period apart are equal. */
  lemma MultiplesApart(i: int, j: int, period: int)
    requires 0 < period && i * period <= j * period < i * period + period
    ensures i == j
  {
    assert (j - i) * period == j * period - i * period;
    if j - i > 0 {
      MulLeq(1, j - i, period);
    } else if j - i < 0 {
      MulLeq(j - i, -1, period);
    }
  }

  /** The quotient of a non-negative x below n whole units names the unit that holds x. */
  lemma DivSlot(x: int, unit: int, n: int)
    requires 0 < unit && 0 <= x < n * unit
    ensures 0 <= x / unit < n
    ensures (x / unit) * unit <= x < (x / unit) * unit + unit
  {
  }
}
