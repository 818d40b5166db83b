/** Elementary facts about products, quotients and remainders, each small enough for the solver. */
module Arithmetic {

  function Pow2(n: nat): (r: nat)
    ensures 0 < r
  {
    if n == 0 then 1 else 2 * Pow2(n - 1)
  }

  lemma Pow2Of8()
    ensures Pow2(8) == 256
  {
    assert Pow2(4) == 16;
  }

  lemma MulNonnegative(a: int, b: int)
    requires 0 <= a && 0 <= b
    ensures 0 <= a * b
  {
  }

  lemma MulMonotone(a: int, b: int, c: int)
    requires a <= b && 0 <= c
    ensures a * c <= b * c
  {
    MulNonnegative(b - a, c);
    assert (b - a) * c == b * c - a * c;
  }

  // A multiple of d strictly between -d and d is zero.
  lemma NoMultipleBetween(e: int, d: int)
    requires d > 0 && -d < e * d < d
    ensures e == 0
  {
    if e >= 1 {
      MulMonotone(1, e, d);
      assert false;
    } else if e <= -1 {
      MulMonotone(e, -1, d);
      assert false;
    }
  }

  lemma DivMod(n: int, d: int)
    requires d > 0
    ensures n == (n / d) * d + n % d && 0 <= n % d < d
  {
  }

  // Quotient and remainder are determined by their defining equation.
  lemma DivModUnique(n: int, d: int, q: int, r: int)
    requires d > 0 && n == q * d + r && 0 <= r < d
    ensures n / d == q && n % d == r
  {
    DivMod(n, d);
    assert (n / d - q) * d == r - n % d;
    NoMultipleBetween(n / d - q, d);
  }

  lemma DivTwice(x: nat, p: nat, q: nat)
    requires p > 0 && q > 0
    ensures (x / p) / q == x / (p * q)
  {
    DivMod(x, p);
    DivMod(x / p, q);
    var rest := (x / p) % q * p + x % p;
    MulMonotone((x / p) % q + 1, q, p);
    MulNonnegative((x / p) % q, p);
    assert x == (x / p) / q * (p * q) + rest;
    DivModUnique(x, p * q, (x / p) / q, rest);
  }

  lemma ModPlusMultiple(a: int, k: int, m: int)
    requires m > 0
    ensures (a + k * m) % m == a % m
  {
    DivMod(a, m);
    assert a + k * m == (a / m + k) * m + a % m;
    DivModUnique(a + k * m, m, a / m + k, a % m);
  }

  // A difference that is a multiple of m disappears modulo m, and only such a difference does.
  lemma CongruentIff(a: int, b: int, m: int)
    requires m > 0
    ensures a % m == b % m <==> (a - b) % m == 0
  {
    DivMod(a, m);
    DivMod(b, m);
    var q := a / m - b / m;
    assert a - b == (a % m - b % m) + q * m;
    ModPlusMultiple(a % m - b % m, q, m);
    if (a - b) % m == 0 {
      DivMod(a % m - b % m, m);
      NoMultipleBetween((a % m - b % m) / m, m);
    }
  }

  lemma ModMul(a: int, b: int, m: int)
    requires m > 0
    ensures (a * b) % m == ((a % m) * b) % m
    ensures (a * b) % m == ((a % m) * (b % m)) % m
  {
    DivMod(a, m);
    DivMod(b, m);
    assert a * b == (a % m) * b + (a / m * b) * m;
    ModPlusMultiple((a % m) * b, a / m * b, m);
    assert (a % m) * b == (a % m) * (b % m) + ((a % m) * (b / m)) * m;
    ModPlusMultiple((a % m) * (b % m), (a % m) * (b / m), m);
  }

  // Congruent factors may be exchanged.
  lemma ModMulCongruent(a: int, b: int, c: int, m: int)
    requires m > 0 && a % m == b % m
    ensures (a * c) % m == (b * c) % m
    ensures (c * a) % m == (c * b) % m
  {
    ModMul(a, c, m);
    ModMul(b, c, m);
  }

  lemma MultipleMod(k: int, m: int)
    requires m > 0
    ensures (k * m) % m == 0
  {
    ModPlusMultiple(0, k, m);
  }
}
