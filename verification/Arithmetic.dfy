/** Remainders, products and powers of two. */
module Arithmetic {

  lemma Minus(x: int, y: int, n: int)
    ensures (x - y) * n == x * n - y * n
  {
  }

  lemma AtLeastOne(x: int, n: nat)
    requires x >= 1
    ensures x * n >= n
  {
  }

  lemma DivUnique(a: nat, n: nat, q: int, r: nat)
    requires n > 0 && a == q * n + r && r < n
    ensures a / n == q && a % n == r
  {
    var q', r' := a / n, a % n;
    assert a == q' * n + r';
    Minus(q, q', n);
    Minus(q', q, n);
    if q > q' { AtLeastOne(q - q', n); }
    if q < q' { AtLeastOne(q' - q, n); }
  }

  lemma ModPlus(a: nat, n: nat)
    requires n > 0
    ensures (a + n) % n == a % n
  {
    var q, r := a / n, a % n;
    assert a + n == (q + 1) * n + r;
    DivUnique(a + n, n, q + 1, r);
  }

  lemma {:induction false} ModMultiple(a: nat, q: nat, n: nat)
    requires n > 0
    ensures (a + q * n) % n == a % n
  {
    if q > 0 {
      ModMultiple(a, q - 1, n);
      ModPlus(a + (q - 1) * n, n);
      assert a + q * n == a + (q - 1) * n + n;
    }
  }

  lemma ModAdd(a: nat, b: nat, n: nat)
    requires n > 0
    ensures (a % n + b) % n == (a + b) % n
  {
    var q := a / n;
    assert a + b == (a % n + b) + q * n;
    ModMultiple(a % n + b, q, n);
  }

  lemma SameRemainder(x: nat, y: nat, n: nat)
    requires n > 0 && x <= y && x % n == y % n
    ensures y / n >= x / n && y - x == (y / n - x / n) * n
  {
    var p, q := x / n, y / n;
    assert x == p * n + x % n && y == q * n + y % n;
    Minus(q, p, n);
    if q < p {
      AtLeastOne(p - q, n);
      Minus(p, q, n);
    }
  }

  lemma ModLe(k: nat, n: nat)
    requires n > 0
    ensures 0 <= k % n < n && k % n <= k
  {
  }

  lemma SmallMod(k: nat, n: nat)
    requires k < n
    ensures k % n == k
  {
  }

  /** Two numbers with the same remainder are the same or at least n apart. */
  lemma ModGap(a: nat, b: nat, n: nat)
    requires n > 0 && a % n == b % n && a <= b < a + n
    ensures a == b
  {
    SameRemainder(a, b, n);
    if b / n > a / n { AtLeastOne(b / n - a / n, n); }
  }

  lemma SelfMod(n: nat)
    requires n > 0
    ensures n % n == 0
  {
  }

  lemma NonNegative(x: int, y: int)
    requires x >= 0 && y >= 0
    ensures x * y >= 0
  {
  }

  lemma OneMore(x: int, n: int)
    ensures x * n == x * (n - 1) + x
  {
  }

  lemma Monotone(x: int, y: int, z: int)
    requires x >= 0 && y <= z
    ensures x * y <= x * z
  {
    NonNegative(x, z - y);
    assert x * z - x * y == x * (z - y);
  }

  function Pow2(n: nat): (p: nat)
    ensures p >= 1
  {
    if n == 0 then 1 else 2 * Pow2(n - 1)
  }

  lemma {:induction false} Pow2Monotone(a: nat, b: nat)
    requires a <= b
    ensures Pow2(a) <= Pow2(b)
  {
    if a < b { Pow2Monotone(a, b - 1); }
  }
}
