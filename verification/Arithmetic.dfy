/** Facts about division by a divisor that is not a constant. */
module Arithmetic {

  lemma Larger(c: nat, a: int, b: int)
    requires a > b
    ensures c * a >= c * b + c
  {
    assert c * a == c * b + c * (a - b);
    assert a - b >= 1 ==> c * (a - b) >= c;
  }

  lemma DivisionIsUnique(n: nat, c: nat, q: nat, r: nat)
    requires r < c && n == c * q + r
    ensures n / c == q && n % c == r
  {
    var k, m := n / c, n % c;
    assert n == c * k + m;
    if q > k {
      Larger(c, q, k);
    } else if q < k {
      Larger(c, k, q);
    }
  }

  lemma MultipleLeavesNone(c: nat, q: nat)
    requires c > 0
    ensures c * q % c == 0
  {
    DivisionIsUnique(c * q, c, q, 0);
  }

  /** Adding a multiple of the divisor keeps the remainder. */
  lemma SameRemainder(n: nat, m: nat, c: nat)
    requires c > 0 && m % c == 0
    ensures (n + m) % c == n % c
  {
    var q, r := n / c, n % c;
    var k := m / c;
    assert n == c * q + r && m == c * k;
    assert c * (q + k) == c * q + c * k;
    DivisionIsUnique(n + m, c, q + k, r);
  }

  /** Counting on from a multiple of the divisor. */
  lemma RemainderAfterMultiple(base: nat, r: nat, c: nat)
    requires c > 0 && base % c == 0
    ensures r < c ==> (base + r) % c == r
    ensures (base + c) % c == 0
  {
    var q := base / c;
    assert base == c * q;
    if r < c {
      DivisionIsUnique(base + r, c, q, r);
    }
    assert base + c == c * (q + 1);
    MultipleLeavesNone(c, q + 1);
  }
}
