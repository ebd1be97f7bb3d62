/** Real-number helpers shared by the algorithms: bounds, ceiling, and the few
    nonlinear facts the proofs rest on. */
module Numbers {

  function Max(x: real, y: real): real {
    if x >= y then x else y
  }

  function Min(x: real, y: real): real {
    if x <= y then x else y
  }

  function MaxInt(x: int, y: int): int {
    if x >= y then x else y
  }

  /** `math.ceil`: the least integer that is not below `x`. */
  function Ceil(x: real): (n: int)
    ensures n as real - 1.0 < x <= n as real
  {
    -((-x).Floor)
  }

  lemma ScaleOrder(x: real, y: real, r: real)
    requires r > 0.0
    ensures x <= y <==> x * r <= y * r
    ensures x < y <==> x * r < y * r
  {
    if x < y {
      assert (y - x) * r > 0.0;
    } else if x > y {
      assert (x - y) * r > 0.0;
    }
  }

  lemma DivideOrder(x: real, y: real, r: real)
    requires r > 0.0
    ensures x <= y <==> x / r <= y / r
    ensures x < y <==> x / r < y / r
    ensures (x / r) * r == x
    ensures (x + y) / r == x / r + y / r
    ensures (x - y) / r == x / r - y / r
  {
    ScaleOrder(x / r, y / r, r);
    var u, v := x / r, y / r;
    assert u * r == x && v * r == y;
    assert (u + v) * r == x + y;
    assert (u - v) * r == x - y;
  }

  lemma MultiplyDivide(x: real, r: real)
    requires r > 0.0
    ensures (x * r) / r == x
  {
  }

  lemma Distribute(x: real, y: real, r: real)
    ensures (x + y) * r == x * r + y * r
    ensures (x - y) * r == x * r - y * r
    ensures 0.0 * r == 0.0
  {
  }

  lemma FilledAfter(capacity: real, rate: real, elapsed: real)
    requires rate > 0.0 && capacity / rate <= elapsed
    ensures capacity <= elapsed * rate
  {
    DivideOrder(capacity, 0.0, rate);
    ScaleOrder(capacity / rate, elapsed, rate);
  }

  /** Division by the ratio `a / b` is multiplication by `b` and division by `a`. */
  lemma RatioRules(a: real, b: real, x: real)
    requires a > 0.0 && b > 0.0
    ensures x / (a / b) == x * b / a
    ensures x * (a / b) == a * x / b
  {
    var r := a / b;
    DivideOrder(a, 0.0, b);
    assert r * b == a;
    assert r > 0.0 by {
      ScaleOrder(0.0, r, b);
    }
    var y, z := x / r, x * b / a;
    DivideOrder(x, 0.0, r);
    DivideOrder(x * b, 0.0, a);
    SameProduct(y, z, a, r, b, x);
    SameQuotient(x, r, a, b);
  }

  lemma SameProduct(y: real, z: real, a: real, r: real, b: real, x: real)
    requires a > 0.0 && y * r == x && z * a == x * b && r * b == a
    ensures y == z
  {
    assert y * a == (y * r) * b;
    ScaleOrder(y, z, a);
    ScaleOrder(z, y, a);
  }

  lemma SameQuotient(x: real, r: real, a: real, b: real)
    requires b > 0.0 && r * b == a
    ensures x * r == a * x / b
  {
    assert (x * r) * b == a * x;
    MultiplyDivide(x * r, b);
  }

  lemma QuotientOrder(x: real, y: real, b: real)
    requires b > 0.0
    ensures x / b < y <==> x < y * b
    ensures x / b == y <==> x == y * b
  {
    DivideOrder(x, 0.0, b);
    ScaleOrder(x / b, y, b);
    ScaleOrder(y, x / b, b);
  }
}
