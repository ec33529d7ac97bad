/** Facts about integer division and remainder with a variable divisor, proved in
    small steps so that each obligation stays linear for the solver. */
module DivMod {

  /** Dividing twice is dividing by the product. */
  lemma DivDiv(a: nat, b: nat, c: nat)
    requires b > 0 && c > 0
    ensures a / b / c == a / (b * c)
  {
    var q, r1 := a / b, a % b;
    var q2, r2 := q / c, q % c;
    var r := r2 * b + r1;
    assert a == q2 * (b * c) + r by {
      assert a == q * b + r1;
      assert q == q2 * c + r2;
      Distribute(q2 * c, r2, b);
      assert (q2 * c) * b == q2 * (b * c);
    }
    assert r < b * c by {
      MulLe(r2, c - 1, b);
      assert (c - 1) * b == c * b - b by { Distribute(c, -1, b); }
    }
    DivUnique(a, b * c, q2, r);
  }

  lemma Distribute(x: int, y: int, z: int)
    ensures (x + y) * z == x * z + y * z
  {
  }

  lemma MulLe(x: int, y: int, z: nat)
    requires x <= y
    ensures x * z <= y * z
  {
  }

  /** Division is determined by quotient and remainder. */
  lemma DivUnique(a: int, d: int, q: int, r: int)
    requires d > 0 && 0 <= r < d && a == q * d + r
    ensures a / d == q && a % d == r
  {
    var q', r' := a / d, a % d;
    assert a == q' * d + r';
    if q > q' {
      MulLe(q' + 1, q, d);
      Distribute(q', 1, d);
    } else if q < q' {
      MulLe(q + 1, q', d);
      Distribute(q, 1, d);
    }
  }
}
