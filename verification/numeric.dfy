/** Integer helpers shared by the image operations: the `max`/`min` the clip
    arithmetic uses, and Python's `int(...)` on a float, which truncates
    toward zero (unlike Dafny's Euclidean `/`). Floats are modelled as exact
    reals. */
module Numeric {

  function Max(a: int, b: int): (m: int)
    ensures m >= a && m >= b
    ensures m == a || m == b
  {
    if a >= b then a else b
  }

  function Min(a: int, b: int): (m: int)
    ensures m <= a && m <= b
    ensures m == a || m == b
  {
    if a <= b then a else b
  }

  /** Python's `int(v)` for a float `v`: drop the fractional part, rounding
      toward zero. */
  function TruncReal(v: real): (r: int)
    ensures 0.0 <= v ==> 0 <= r && r as real <= v < r as real + 1.0
    ensures v < 0.0 ==> r <= 0 && r as real - 1.0 < v <= r as real
  {
    if v >= 0.0 then v.Floor else -((-v).Floor)
  }

  /** Integer division rounding toward zero, the reference the float
      computations are compared with. */
  function TruncDiv(n: int, d: int): (q: int)
    requires d > 0
    ensures 0 <= n ==> 0 <= q && q * d <= n < q * d + d
    ensures n < 0 ==> q <= 0 && n <= q * d < n + d
  {
    if n >= 0 then n / d else -((-n) / d)
  }

  /** Floor of an exact quotient of non-negative integers is Euclidean
      division. */
  lemma {:induction false} FloorOfQuotient(n: nat, d: int)
    requires d > 0
    ensures ((n as real) / (d as real)).Floor == n / d
  {
    var q, r := n / d, n % d;
    assert n == q * d + r && 0 <= r < d;
    var v := (n as real) / (d as real);
    assert v * (d as real) == n as real;
    assert (q as real) * (d as real) <= n as real;
    assert n as real < ((q + 1) as real) * (d as real);
    assert q as real <= v;
    assert v < (q + 1) as real;
  }

  /** `int(n / d)` on exact reals agrees with truncating integer division,
      for either sign of `n`. */
  lemma TruncRealOfQuotient(n: int, d: int)
    requires d > 0
    ensures TruncReal((n as real) / (d as real)) == TruncDiv(n, d)
  {
    if n >= 0 {
      FloorOfQuotient(n, d);
    } else {
      assert (n as real) / (d as real) == -(((-n) as real) / (d as real));
      FloorOfQuotient(-n, d);
    }
  }

  /** `int(t * (n / d))` on exact reals is the truncating quotient of
      `t * n` by `d`. */
  lemma TruncOfScaledRatio(t: int, n: int, d: int)
    requires d > 0
    ensures TruncReal((t as real) * ((n as real) / (d as real))) == TruncDiv(t * n, d)
  {
    assert (t as real) * ((n as real) / (d as real)) == ((t * n) as real) / (d as real);
    TruncRealOfQuotient(t * n, d);
  }

  /** Multiplying by a non-negative factor preserves order. */
  lemma MulMonotone(a: int, b: int, d: int)
    requires a <= b && 0 <= d
    ensures a * d <= b * d
  {
  }

  /** A non-negative factor times a natural number is non-negative. */
  lemma ProductSign(t: int, n: nat)
    ensures 0 <= t ==> 0 <= t * n
  {
  }

  /** Euclidean division is the unique quotient with remainder in [0, d). */
  lemma DivUnique(n: int, d: int, q: int)
    requires d > 0
    requires q * d <= n < q * d + d
    ensures n / d == q
  {
    var q' := n / d;
    assert q' * d <= n < q' * d + d;
    if q' < q {
      MulMonotone(q' + 1, q, d);
      assert false;
    } else if q < q' {
      MulMonotone(q + 1, q', d);
      assert false;
    }
  }

  /** Dividing a multiple of `d` by `d` is exact. */
  lemma TruncDivOfMultiple(t: int, n: int, d: int)
    requires d > 0
    ensures n == d ==> TruncDiv(t * n, d) == t
  {
    if n != d {
      return;
    }
    if t >= 0 {
      MulMonotone(0, t, d);
      DivUnique(t * d, d, t);
    } else {
      MulMonotone(t, 0, d);
      assert (-t) * d == -(t * d);
      DivUnique((-t) * d, d, -t);
    }
  }

  /** `int(-1.5)` is `-1`: truncation rounds a negative value up, toward
      zero. (Dafny's own `-3 / 2` is Euclidean and gives `-2`.) */
  lemma TruncRealTowardZero()
    ensures TruncReal(-1.5) == -1 && TruncDiv(-3, 2) == -1
  {
  }
}
