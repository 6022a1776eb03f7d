/** The few facts about / and % by a variable that the ring arithmetic needs. */
module Arith {

  lemma MulAtLeast(k: int, c: nat)
    requires k >= 1
    ensures k * c >= c
  {
  }

  lemma QuotientUnique(x: int, c: nat, q: int, r: int)
    requires c > 0 && x == q * c + r && 0 <= r < c
    ensures x / c == q && x % c == r
  {
    var k := x / c - q;
    assert x == (x / c) * c + x % c;
    assert k * c == r - x % c;
    if k >= 1 {
      MulAtLeast(k, c);
    } else if k <= -1 {
      MulAtLeast(-k, c);
    }
  }

  lemma ModSmall(a: nat, c: nat)
    requires a < c
    ensures a % c == a
  {
    QuotientUnique(a, c, 0, a);
  }

  lemma ModShift(a: nat, c: nat)
    requires c > 0
    ensures (a + c) % c == a % c
  {
    assert a == (a / c) * c + a % c;
    assert a + c == (a / c + 1) * c + a % c;
    QuotientUnique(a + c, c, a / c + 1, a % c);
  }

  /** Two numbers less than c apart share a remainder only when equal. */
  lemma ModDistinct(a: nat, b: nat, c: nat)
    requires c > 0 && a < b < a + c
    ensures a % c != b % c
  {
    if a % c == b % c {
      assert a == (a / c) * c + a % c && b == (b / c) * c + b % c;
      var k := b / c - a / c;
      assert b - a == k * c;
      if k >= 1 {
        MulAtLeast(k, c);
      } else if k < 0 {
        MulAtLeast(-k, c);
      }
    }
  }

  lemma MulMonotone(a: int, b: int, d: nat)
    requires a <= b
    ensures a * d <= b * d
  {
    assert (b - a) * d >= 0;
  }

  lemma DivStep(x: nat, y: nat, d: nat)
    requires d > 0 && y >= x + d
    ensures y / d >= x / d + 1
  {
    assert x == (x / d) * d + x % d && y == (y / d) * d + y % d;
    if y / d <= x / d {
      MulMonotone(y / d, x / d, d);
    }
  }

  lemma DivMonotone(x: nat, y: nat, d: nat)
    requires d > 0 && x <= y
    ensures x / d <= y / d
  {
    assert x == (x / d) * d + x % d && y == (y / d) * d + y % d;
    if y / d + 1 <= x / d {
      MulMonotone(y / d + 1, x / d, d);
    }
  }

  lemma DivExact(a: nat, d: nat)
    requires d > 0
    ensures (a * d) / d == a
  {
    QuotientUnique(a * d, d, a, 0);
  }

  /** x * m / d stays under m while x stays under d. */
  lemma DivBelow(x: nat, m: nat, d: nat)
    requires x < d && m > 0
    ensures (x * m) / d < m
  {
    var y := x * m;
    assert y == (y / d) * d + y % d;
    MulMonotone(x + 1, d, m);
    if m <= y / d {
      MulMonotone(m, y / d, d);
    }
  }

  lemma QuotientNat(k: nat, m: nat, d: nat)
    requires d > 0
    ensures k * m >= 0 && (k * m) / d >= 0
  {
    MulMonotone(0, k, m);
  }

  /** A share k of d of m is at most m. */
  lemma ShareAtMost(k: nat, m: nat, d: nat)
    requires d > 0 && k <= d
    ensures 0 <= (k * m) / d <= m
  {
    MulMonotone(k, d, m);
    QuotientNat(k, m, d);
    DivMonotone(k * m, m * d, d);
    DivExact(m, d);
  }

  /** A quotient is the number of whole d in x. */
  lemma QuotientIs(x: nat, d: nat, q: nat)
    requires d > 0
    ensures x / d == q <==> q * d <= x < (q + 1) * d
  {
    assert (q + 1) * d == q * d + d;
    assert x == (x / d) * d + x % d;
    if q * d <= x < (q + 1) * d {
      QuotientUnique(x, d, q, x - q * d);
    }
  }

  /** k shares of m are k whole quotients and k shares of the remainder. */
  lemma ShareOfSum(k: nat, m: nat, n: nat)
    requires n > 0
    ensures (k * m) / n == k * (m / n) + (k * (m % n)) / n
  {
    var q, r := m / n, m % n;
    var x := k * r;
    assert m == q * n + r;
    assert k * m == k * (q * n) + x;
    assert k * (q * n) == (k * q) * n;
    MulMonotone(0, k, r);
    assert x == (x / n) * n + x % n;
    assert k * m == (k * q + x / n) * n + x % n;
    QuotientUnique(k * m, n, k * q + x / n, x % n);
  }

  lemma ShareStep(k: nat, r: nat, n: nat)
    requires r < n
    ensures (k * r) / n <= ((k + 1) * r) / n <= (k * r) / n + 1
    ensures r == 0 ==> ((k + 1) * r) / n == (k * r) / n
  {
    var x, y := k * r, (k + 1) * r;
    MulMonotone(0, k, r);
    assert y == x + r;
    DivMonotone(x, y, n);
    DivMonotone(y, x + n, n);
    assert (x + n) / n == x / n + 1 by {
      assert x == (x / n) * n + x % n;
      assert x + n == (x / n + 1) * n + x % n;
      QuotientUnique(x + n, n, x / n + 1, x % n);
    }
  }
}
