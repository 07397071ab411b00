/**
 * The quantization rule that QuantSpecForDeadline builds through NewQuantSpec.
 * The miner's quantization code is not part of this model; its rounding is
 * stated here as an assumption: with a positive unit, an epoch is rounded up
 * to the nearest epoch that lies a whole number of units away from the offset.
 * A zero unit, which the core never builds, leaves every epoch as it is: that
 * case is a choice of this model.
 */
module Quantize {

  import Arith

  /** Rounding grid: every `unit` epochs, anchored at `offset`. */
  datatype QuantSpec = QuantSpec(unit: nat, offset: int)
  {
    /** The smallest epoch at or after e that lies on the grid. */
    function QuantizeUp(e: int): (r: int)
      ensures unit == 0 ==> r == e
      ensures unit > 0 ==> e <= r < e + unit && OnGrid(r)
    {
      if unit == 0 then e
      else
        var r := e + (offset - e) % unit;
        ShiftOnGrid(offset, e, unit);
        r
    }

    /** Epoch e lies a whole number of units away from the offset. */
    predicate OnGrid(e: int)
      requires unit > 0
    {
      (e - offset) % unit == 0
    }
  }

  /** Adding the remainder of (offset - e) to e lands on the grid. */
  lemma ShiftOnGrid(offset: int, e: int, unit: int)
    requires 0 < unit
    ensures (e + (offset - e) % unit - offset) % unit == 0
  {
    var q := (offset - e) / unit;
    assert offset - e == q * unit + (offset - e) % unit;
    assert e + (offset - e) % unit - offset == (-q) * unit;
    Arith.MulMod(-q, unit);
  }

  /** Two grid epochs less than one unit apart are the same epoch. */
  lemma GridPointsApart(q: QuantSpec, a: int, b: int)
    requires q.unit > 0 && q.OnGrid(a) && q.OnGrid(b)
    requires a <= b < a + q.unit
    ensures a == b
  {
    var u := q.unit;
    var ka := (a - q.offset) / u;
    var kb := (b - q.offset) / u;
    assert a - q.offset == ka * u;
    assert b - q.offset == kb * u;
    Arith.MultiplesApart(ka, kb, u);
  }

  /** QuantizeUp is the only grid epoch in [e, e + unit). */
  lemma QuantizeUpUnique(q: QuantSpec, e: int, c: int)
    requires q.unit > 0 && q.OnGrid(c) && e <= c < e + q.unit
    ensures q.QuantizeUp(e) == c
  {
    var r := q.QuantizeUp(e);
    if r <= c {
      GridPointsApart(q, r, c);
    } else {
      GridPointsApart(q, c, r);
    }
  }

  /** Quantizing twice is quantizing once. */
  lemma QuantizeUpIdempotent(q: QuantSpec, e: int)
    ensures q.QuantizeUp(q.QuantizeUp(e)) == q.QuantizeUp(e)
  {
    if q.unit > 0 {
      var r := q.QuantizeUp(e);
      QuantizeUpUnique(q, r, r);
    }
  }

  /** Quantizing keeps the order of epochs. */
  lemma QuantizeUpMonotonic(q: QuantSpec, e1: int, e2: int)
    requires e1 <= e2
    ensures q.QuantizeUp(e1) <= q.QuantizeUp(e2)
  {
    if q.unit > 0 {
      var r1, r2 := q.QuantizeUp(e1), q.QuantizeUp(e2);
      if r2 < r1 {
        QuantizeUpUnique(q, e1, r2);
      }
    }
  }
}
