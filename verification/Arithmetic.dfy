/** Products, quotients and remainders. */
module Arithmetic {
  lemma {:induction false} AddMultiple(a: nat, length: nat, m: nat)
    requires length > 0
    ensures (a + length * m) % length == a % length
  {
    if m > 0 {
      AddMultiple(a, length, m - 1);
      var b := a + length * (m - 1);
      assert a + length * m == b + length;
      AddOnce(b, length);
    }
  }

  lemma AddOnce(b: nat, length: nat)
    requires length > 0
    ensures (b + length) % length == b % length
  {
    var q, r := b / length, b % length;
    assert b + length == length * (q + 1) + r;
    DivModUnique(b + length, length, q + 1, r);
  }

  lemma DivModUnique(x: nat, d: nat, q: nat, r: nat)
    requires d > 0 && x == d * q + r && r < d
    ensures x / d == q && x % d == r
  {
    var q', r' := x / d, x % d;
    assert d * q' + r' == d * q + r;
    if q' < q {
      MulStrict(d, q', q);
    } else if q < q' {
      MulStrict(d, q, q');
    }
  }

  lemma MulStrict(d: nat, a: nat, b: nat)
    requires a < b
    ensures d * a + d <= d * b
  {
    var n := b - a - 1;
    calc {
      d * b;
      d * (a + 1 + n);
      { Distribute(d, a + 1, n); }
      d * (a + 1) + d * n;
      { Distribute(d, a, 1); }
      d * a + d + d * n;
    }
    MulNonNegative(d, n);
  }

  lemma Distribute(d: nat, a: nat, b: nat)
    ensures d * (a + b) == d * a + d * b
  {
  }

  lemma MulNonNegative(a: nat, b: nat)
    ensures a * b >= 0
  {
  }

  lemma MulAssoc(a: nat, b: nat, c: nat)
    ensures a * (b * c) == (a * b) * c
  {
  }

  lemma ModDistinct(a: nat, b: nat, length: nat)
    requires a < b < a + length
    ensures a % length != b % length
  {
    if a % length == b % length {
      var qa, qb, r := a / length, b / length, a % length;
      assert length * qa + r == a && length * qb + r == b;
      if qa < qb {
        MulStrict(length, qa, qb);
      } else {
        MulOrder(length, qb, qa);
      }
    }
  }

  lemma MulOrder(d: nat, a: nat, b: nat)
    requires a <= b
    ensures d * a <= d * b
  {
    if a < b {
      MulStrict(d, a, b);
    }
  }

  lemma SameRemainder(a: nat, d: nat, m: nat)
    requires m > 0
    ensures (a + d) % m == a % m <==> d % m == 0
  {
    var q, r, e := a / m, a % m, d % m;
    assert a + d == m * (q + d / m) + (r + e) by { Distribute(m, q, d / m); }
    if r + e < m {
      DivModUnique(a + d, m, q + d / m, r + e);
    } else {
      assert m * (q + d / m + 1) == m * (q + d / m) + m by { Distribute(m, q + d / m, 1); }
      DivModUnique(a + d, m, q + d / m + 1, r + e - m);
    }
  }
}
