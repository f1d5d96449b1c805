/** Clamping, linear rescaling and Python's int() of a float. */
module Scale {

  /** min(hi, max(lo, val)): lands in [lo, hi] and leaves in-range values alone. */
  function Constrain(val: real, lo: real, hi: real): (r: real)
    ensures r <= hi
    ensures lo <= hi ==> lo <= r
    ensures lo <= val <= hi ==> r == val
    ensures lo <= hi && val < lo ==> r == lo
    ensures hi < val ==> r == hi
  {
    var m := if lo < val then val else lo;
    if hi < m then hi else m
  }

  lemma ConstrainMonotone(x: real, y: real, lo: real, hi: real)
    requires x <= y
    ensures Constrain(x, lo, hi) <= Constrain(y, lo, hi)
  {
  }

  /** (x - inMin) * (outMax - outMin) / (inMax - inMin) + outMin; Python raises
      ZeroDivisionError when inMin == inMax, so that case is excluded. */
  function MapValue(x: real, inMin: real, inMax: real, outMin: real, outMax: real): (r: real)
    requires inMin != inMax
    ensures (r - outMin) * (inMax - inMin) == (x - inMin) * (outMax - outMin)
    ensures x == inMin ==> r == outMin
    ensures x == inMax ==> r == outMax
  {
    var d, o := inMax - inMin, outMax - outMin;
    var a := (x - inMin) * o;
    DivTimes(a, d);
    EndpointProduct(x, inMin, inMax, o);
    QuotientAtEnd(x == inMax, a, o, d);
    a / d + outMin
  }

  /** An increasing input range onto a non-decreasing output range gives a
      non-decreasing map. */
  lemma MapValueMonotone(x: real, y: real, inMin: real, inMax: real, outMin: real, outMax: real)
    requires inMin < inMax && outMin <= outMax
    requires x <= y
    ensures MapValue(x, inMin, inMax, outMin, outMax) <= MapValue(y, inMin, inMax, outMin, outMax)
  {
    var d, o := inMax - inMin, outMax - outMin;
    var rx := MapValue(x, inMin, inMax, outMin, outMax) - outMin;
    var ry := MapValue(y, inMin, inMax, outMin, outMax) - outMin;
    assert rx * d == (x - inMin) * o;
    assert ry * d == (y - inMin) * o;
    Distribute(ry, rx, d);
    Distribute(y - inMin, x - inMin, o);
    assert (ry - rx) * d == (y - x) * o;
    ProductNonNegative(y - x, o);
    if ry < rx {
      ProductNegative(rx - ry, d);
    }
  }

  lemma DivTimes(a: real, d: real)
    requires d != 0.0
    ensures (a / d) * d == a
  {
  }

  lemma EndpointProduct(x: real, inMin: real, inMax: real, o: real)
    ensures x == inMin ==> (x - inMin) * o == 0.0
    ensures x == inMax ==> (x - inMin) * o == o * (inMax - inMin)
  {
  }

  lemma QuotientAtEnd(c: bool, a: real, o: real, d: real)
    requires d != 0.0 && (c ==> a == o * d)
    ensures c ==> a / d == o
  {
    if c {
      DivTimes(a, d);
      CancelFactor(a / d, o, d);
    }
  }

  lemma CancelFactor(u: real, v: real, d: real)
    requires d != 0.0 && u * d == v * d
    ensures u == v
  {
    Distribute(u, v, d);
    assert (u - v) * d == 0.0;
  }

  lemma Distribute(u: real, v: real, d: real)
    ensures (u - v) * d == u * d - v * d
  {
  }

  lemma ProductNonNegative(a: real, b: real)
    requires 0.0 <= a && 0.0 <= b
    ensures 0.0 <= a * b
  {
  }

  lemma ProductNegative(a: real, b: real)
    requires 0.0 < a && 0.0 < b
    ensures (-a) * b < 0.0
  {
  }

  /** Python's int() on a float: truncation toward zero. */
  function Trunc(x: real): (r: int)
    ensures 0.0 <= x ==> 0 <= r && r as real <= x < r as real + 1.0
    ensures x < 0.0 ==> r <= 0 && r as real - 1.0 < x <= r as real
  {
    if 0.0 <= x then x.Floor else -((-x).Floor)
  }

  lemma TruncMonotone(x: real, y: real)
    requires x <= y
    ensures Trunc(x) <= Trunc(y)
  {
  }
}
