/**
 The few Python numeric and iteration rules the analysis code leans on,
 written out over Dafny's unbounded integers and exact reals: `int()` of a
 float truncates toward zero, and `range(lo, hi, step)` enumerates
 `lo, lo + step, ...` while the value stays below `hi`.
 */
module PyOps {

  /** A success value or an error value, for the places where Python raises. */
  datatype Result<+T, +E> = Success(value: T) | Failure(error: E)

  function Min(a: int, b: int): int { if a <= b then a else b }

  function MinReal(a: real, b: real): real { if a <= b then a else b }

  function MaxReal(a: real, b: real): real { if a >= b then a else b }

  /** Python's `int(x)` on a float: the integer part, truncated toward zero. */
  function Trunc(x: real): (r: int)
    ensures 0.0 <= x ==> 0 <= r && r as real <= x < r as real + 1.0
    ensures x < 0.0 ==> r <= 0 && r as real - 1.0 < x <= r as real
  {
    if x >= 0.0 then x.Floor else -((-x).Floor)
  }

  /** Truncation is monotone. */
  lemma TruncMonotone(x: real, y: real)
    requires x <= y
    ensures Trunc(x) <= Trunc(y)
  {
    if x >= 0.0 {
      assert x.Floor <= y.Floor;
    } else if y < 0.0 {
      assert (-y).Floor <= (-x).Floor;
    }
  }

  /** On a non-negative quotient of integers, `int(a / b)` is integer division. */
  lemma TruncOfQuotient(a: nat, b: nat)
    requires b > 0
    ensures Trunc(a as real / b as real) == a / b
  {
    var q := a / b;
    var r := a % b;
    var x := a as real / b as real;
    var f := r as real / b as real;
    assert a as real == q as real * b as real + r as real;
    assert x == q as real + f;
    assert 0.0 <= f < 1.0 by {
      assert r as real < b as real;
      FractionBelowOne(r as real, b as real);
    }
  }

  lemma FractionBelowOne(r: real, b: real)
    requires 0.0 <= r < b
    ensures 0.0 <= r / b < 1.0
  {
  }

  /** Python's `range(lo, hi, step)` for a positive step. */
  function Range(lo: int, hi: int, step: nat): (r: seq<int>)
    requires step > 0
    ensures forall k :: 0 <= k < |r| ==> r[k] == lo + k * step && r[k] < hi
    ensures lo + |r| * step >= hi
    decreases hi - lo
  {
    if lo >= hi then []
    else
      var rest := Range(lo + step, hi, step);
      var r := [lo] + rest;
      forall k | 1 <= k < |r|
        ensures r[k] == lo + k * step
      {
        assert r[k] == rest[k - 1];
        NextMultiple(k - 1, step);
      }
      NextMultiple(|rest|, step);
      r
  }

  lemma NextMultiple(k: int, step: int)
    ensures (k + 1) * step == k * step + step
  {
  }

  /** The length of a range: zero when it is empty, otherwise one more than the number of whole steps that fit. */
  lemma {:induction false} RangeLength(lo: int, hi: int, step: nat)
    requires step > 0
    ensures |Range(lo, hi, step)| == if lo >= hi then 0 else (hi - lo - 1) / step + 1
    decreases hi - lo
  {
    if lo < hi {
      var d := hi - lo - 1;
      assert Range(lo, hi, step) == [lo] + Range(lo + step, hi, step);
      RangeLength(lo + step, hi, step);
      if lo + step < hi {
        DivShift(d - step, step);
        assert |Range(lo + step, hi, step)| == (d - step) / step + 1;
      } else {
        DivUnique(d, step, 0, d);
      }
    }
  }

  lemma DivShift(a: int, b: nat)
    requires b > 0
    ensures (a + b) / b == a / b + 1
  {
    DivUnique(a + b, b, a / b + 1, a % b);
  }

  /** Integer division is determined by any quotient-remainder decomposition. */
  lemma DivUnique(n: int, d: nat, q: int, r: int)
    requires d > 0 && 0 <= r < d && n == q * d + r
    ensures n / d == q
  {
    var k := n / d - q;
    assert k * d == r - n % d;
  }

  lemma MulLeft(a: int, b: int, c: nat)
    requires a <= b
    ensures a * c <= b * c
  {
  }

  /** Integer division by a positive divisor is monotone. */
  lemma DivMonotone(a: int, b: int, d: nat)
    requires d > 0 && a <= b
    ensures a / d <= b / d
  {
    var qa, qb := a / d, b / d;
    if qa > qb {
      MulLeft(qb + 1, qa, d);
      NextMultiple(qb, d);
      assert false;
    }
  }
}
