module Arithmetic {
  import opened Common

  function Pow2(k: nat): (p: int)
    ensures p > 0
  {
    if k == 0 then 1 else 2 * Pow2(k - 1)
  }

  // Quotient and remainder are unique.
  lemma ModUnique(n: int, x: int, q: int, r: int)
    requires n > 0 && x == n * q + r && 0 <= r < n
    ensures x / n == q && x % n == r
  {
    var d := q - x / n;
    assert n * d == x % n - r by { assert x == n * (x / n) + x % n; }
    assert d >= 1 ==> n * d >= n;
    assert d <= -1 ==> n * d <= -n;
  }

  // Reducing a summand first does not change a 32-bit sum.
  lemma AddMod32(x: int, y: int)
    ensures (x % M32 + y) % M32 == (x + y) % M32
  {
  }

  // Fewer than n consecutive numbers never share a remainder.
  lemma RemaindersDiffer(n: int, a: nat, b: nat)
    requires n > 0 && a < b < a + n
    ensures a % n != b % n
  {
    var d := b / n - a / n;
    assert b - a == n * d + (b % n - a % n);
    assert d >= 1 ==> n * d >= n;
    assert d <= 0 ==> n * d <= 0;
  }

  lemma AddModulo(n: int, a: nat, b: int)
    requires n > 0
    ensures (a % n + b) % n == (a + b) % n
  {
    var c := a % n + b;
    assert a + b == n * (a / n) + c;
    assert n * (a / n) + n * (c / n) == n * (a / n + c / n);
    ModUnique(n, a + b, a / n + c / n, c % n);
  }

  // Reducing by a multiple of n first does not change the remainder.
  lemma ModMod(w: int, n: int, x: nat)
    requires w > 0 && n > 0 && w % n == 0
    ensures x % w % n == x % n
  {
    var c, a, b := w / n, x / w, x % w;
    assert w == n * c;
    assert w * a == n * (c * a);
    assert b == n * (b / n) + b % n;
    assert n * (c * a) + n * (b / n) == n * (c * a + b / n);
    ModUnique(n, x, c * a + b / n, b % n);
  }
}
