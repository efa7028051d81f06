/** Remainders, powers of two and bits of numbers. */
module Arithmetic {

  lemma ProductBelow(d: int, m: nat)
    requires m > 0 && 0 - m < d * m < m
    ensures d == 0
  {
  }

  /** A number with a remainder in range has that remainder. */
  lemma RemainderIs(x: int, m: nat, q: int, r: nat)
    requires r < m && x == m * q + r
    ensures x % m == r
  {
    var p, s := x / m, x % m;
    assert x == m * p + s;
    DifferenceOfProducts(m, q, p);
    ProductBelow(q - p, m);
  }

  lemma DifferenceOfProducts(m: nat, q: int, p: int)
    ensures (q - p) * m == m * q - m * p
  {
  }

  lemma RemainderInRange(x: nat, m: nat)
    requires m > 0
    ensures 0 <= x % m < m
  {
  }

  function Power2(n: nat): nat {
    if n == 0 then 1 else 2 * Power2(n - 1)
  }

  lemma Power2Of8()
    ensures Power2(8) == 256
  {
    assert Power2(4) == 16;
    assert Power2(8) == 16 * Power2(4);
  }

  function Bit(n: nat, k: nat): bool
    decreases k
  {
    if k == 0 then n % 2 == 1 else Bit(n / 2, k - 1)
  }

  /** The k-th bit is the parity of the number divided by 2^k. */
  lemma {:induction false} BitIs(n: nat, k: nat)
    ensures Power2(k) > 0 && (Bit(n, k) <==> n / Power2(k) % 2 == 1)
    decreases k
  {
    if k == 0 {
    } else {
      BitIs(n / 2, k - 1);
      HalvedQuotient(n, Power2(k - 1));
    }
  }

  lemma HalvedQuotient(n: nat, p: nat)
    requires p > 0
    ensures n / 2 / p == n / (2 * p)
  {
    var q, r := n / 2 / p, n / 2 % p;
    assert n / 2 == p * q + r;
    QuotientIs(n, 2 * p, q, 2 * r + n % 2);
  }

  lemma QuotientIs(x: nat, m: nat, q: nat, r: nat)
    requires r < m && x == m * q + r
    ensures x / m == q
  {
    var p, s := x / m, x % m;
    assert x == m * p + s;
    DifferenceOfProducts(m, q, p);
    ProductBelow(q - p, m);
  }

  /** Bits of a number that is put together from two. */
  lemma {:induction false} BitOfSum(low: nat, high: nat, n: nat, k: nat)
    requires low < Power2(n)
    ensures Bit(low + Power2(n) * high, k) <==> if k < n then Bit(low, k) else Bit(high, k - n)
    decreases n
  {
    if n == 0 {
    } else {
      SumOfDoubles(low, high, Power2(n - 1));
      if k > 0 {
        BitOfSum(low / 2, high, n - 1, k - 1);
      }
    }
  }

  lemma SumOfDoubles(low: nat, high: nat, p: nat)
    ensures var x := low + 2 * p * high; x / 2 == low / 2 + p * high && x % 2 == low % 2
  {
    assert low + 2 * p * high == 2 * (low / 2 + p * high) + low % 2;
  }
}
