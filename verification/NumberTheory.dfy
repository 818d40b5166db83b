/** Powers, primes and orders: the mathematics under the Covenant group (section 3 of RFC 3526). */
module NumberTheory {
  import opened Arithmetic
  import opened SetSums

  // --- powers -----------------------------------------------------------------------------------

  function Pow(b: int, e: nat): int {
    if e == 0 then 1 else b * Pow(b, e - 1)
  }

  // Python's pow(b, e, m)
  function PowerMod(b: int, e: nat, m: nat): nat
    requires m > 0
  {
    Pow(b, e) % m
  }

  lemma {:induction false} PowNonnegative(b: nat, e: nat)
    ensures Pow(b, e) >= 0
  {
    if e > 0 {
      PowNonnegative(b, e - 1);
      MulNonnegative(b, Pow(b, e - 1));
    }
  }

  lemma {:induction false} PowAdd(b: int, m: nat, n: nat)
    ensures Pow(b, m + n) == Pow(b, m) * Pow(b, n)
  {
    if m > 0 {
      PowAdd(b, m - 1, n);
      assert Pow(b, m + n) == b * (Pow(b, m - 1) * Pow(b, n));
    }
  }

  lemma {:induction false} PowMul(b: int, m: nat, n: nat)
    ensures 0 <= m * n
    ensures Pow(Pow(b, m), n) == Pow(b, m * n)
  {
    MulNonnegative(m, n);
    if n > 0 {
      PowMul(b, m, n - 1);
      assert m * n == m + m * (n - 1);
      PowAdd(b, m, m * (n - 1));
    }
  }

  lemma {:induction false} PowOfProduct(a: int, b: int, e: nat)
    ensures Pow(a * b, e) == Pow(a, e) * Pow(b, e)
  {
    if e > 0 {
      PowOfProduct(a, b, e - 1);
      FourFactors(a, b, Pow(a, e - 1), Pow(b, e - 1));
    }
  }

  lemma FourFactors(a: int, b: int, c: int, d: int)
    ensures (a * b) * (c * d) == (a * c) * (b * d)
  {
  }

  lemma {:induction false} PowMod(b: int, e: nat, m: int)
    requires m > 0
    ensures Pow(b % m, e) % m == Pow(b, e) % m
  {
    if e > 0 {
      PowMod(b, e - 1, m);
      var u, v := Pow(b % m, e - 1), Pow(b, e - 1);
      ModMul(b, u, m);
      ModMulCongruent(u, v, b, m);
      assert Pow(b % m, e) == (b % m) * u && Pow(b, e) == b * v;
    }
  }

  lemma {:induction false} PowOfOne(b: int, e: nat, m: int)
    requires m > 1 && b % m == 1
    ensures Pow(b, e) % m == 1
  {
    if e > 0 {
      PowOfOne(b, e - 1, m);
      ModMul(b, Pow(b, e - 1), m);
    }
  }

  // --- greatest common divisors -----------------------------------------------------------------

  function Gcd(a: nat, b: nat): nat
    decreases b
  {
    if b == 0 then a else Gcd(b, a % b)
  }

  ghost predicate Divides(d: nat, n: int) {
    d > 0 && n % d == 0
  }

  lemma DividesSum(d: nat, x: int, y: int, k: int)
    requires Divides(d, x) && Divides(d, y)
    ensures Divides(d, x + k * y)
  {
    DivMod(x, d);
    DivMod(y, d);
    assert x + k * y == (x / d + k * (y / d)) * d;
    MultipleMod(x / d + k * (y / d), d);
  }

  lemma {:induction false} GcdDivides(a: nat, b: nat)
    requires a > 0 || b > 0
    ensures Gcd(a, b) > 0 && Divides(Gcd(a, b), a) && Divides(Gcd(a, b), b)
    decreases b
  {
    if b == 0 {
      MultipleMod(1, a);
    } else {
      GcdDivides(b, a % b);
      DivMod(a, b);
      DividesSum(Gcd(a, b), a % b, b, a / b);
    }
  }

  lemma {:induction false} Bezout(a: nat, b: nat) returns (x: int, y: int)
    ensures a * x + b * y == Gcd(a, b)
    decreases b
  {
    if b == 0 {
      return 1, 0;
    }
    var u, v := Bezout(b, a % b);
    DivMod(a, b);
    x, y := v, u - (a / b) * v;
    assert a * v + b * (u - (a / b) * v) == b * u + (a - (a / b) * b) * v;
  }

  // Every common divisor divides the greatest one.
  lemma CommonDivisor(d: nat, a: nat, b: nat)
    requires Divides(d, a) && Divides(d, b)
    ensures Divides(d, Gcd(a, b))
  {
    var x, y := Bezout(a, b);
    MultipleMod(0, d);
    DividesSum(d, 0, a, x);
    DividesSum(d, a * x, b, y);
  }

  // --- primes -----------------------------------------------------------------------------------

  ghost predicate Prime(p: nat) {
    p >= 2 && forall d: nat :: 2 <= d < p ==> !Divides(d, p)
  }

  lemma DivisorIsSmaller(d: nat, n: nat)
    requires Divides(d, n) && n > 0
    ensures d <= n
  {
    DivMod(n, d);
    if n / d >= 1 {
      MulMonotone(1, n / d, d);
    } else {
      MulMonotone(n / d, 0, d);
    }
  }

  lemma GcdWithPrime(a: nat, p: nat)
    requires Prime(p)
    ensures Gcd(a, p) == if a % p == 0 then p else 1
  {
    GcdDivides(a, p);
    DivisorIsSmaller(Gcd(a, p), p);
    if a % p == 0 {
      MultipleMod(1, p);
      CommonDivisor(p, a, p);
      DivisorIsSmaller(p, Gcd(a, p));
    }
  }

  lemma EuclidsLemma(p: nat, a: nat, b: int)
    requires Prime(p) && (a * b) % p == 0 && a % p != 0
    ensures b % p == 0
  {
    GcdWithPrime(a, p);
    var x, y := Bezout(a, p);
    // b == x * (a * b) + (y * b) * p
    assert b == (a * x + p * y) * b == x * (a * b) + (y * b) * p;
    ModPlusMultiple(x * (a * b), y * b, p);
    ModMul(x, a * b, p);
    ModMulCongruent(a * b, 0, x, p);
  }

  // Modulo a prime, a factor that is not zero can be cancelled.
  lemma Cancel(p: nat, a: nat, x: int, y: int)
    requires Prime(p) && a % p != 0 && (a * x) % p == (a * y) % p
    ensures x % p == y % p
  {
    CongruentIff(a * x, a * y, p);
    assert a * x - a * y == a * (x - y);
    EuclidsLemma(p, a, x - y);
    CongruentIff(x, y, p);
  }

  // --- Fermat's little theorem ------------------------------------------------------------------

  // The product of f over s; as with Sum, the order does not matter.
  ghost function Product<T(!new)>(s: set<T>, f: T -> int): int {
    if s == {} then 1 else
      var x :| x in s;
      f(x) * Product(s - {x}, f)
  }

  lemma Swap3(a: int, b: int, c: int)
    ensures a * (b * c) == b * (a * c)
  {
  }

  lemma {:induction false} ProductRemove<T(!new)>(s: set<T>, f: T -> int, x: T)
    requires x in s
    ensures Product(s, f) == f(x) * Product(s - {x}, f)
    decreases |s|
  {
    var y :| y in s && Product(s, f) == f(y) * Product(s - {y}, f);
    if y != x {
      ProductRemove(s - {y}, f, x);
      ProductRemove(s - {x}, f, y);
      assert s - {y} - {x} == s - {x} - {y};
      Swap3(f(y), f(x), Product(s - {x} - {y}, f));
    }
  }

  lemma {:induction false} ProductImage<T(!new), U(!new)>(s: set<T>, m: T -> U, f: U -> int, g: T -> int)
    requires forall x, y :: x in s && y in s && m(x) == m(y) ==> x == y
    requires forall x :: x in s ==> g(x) == f(m(x))
    ensures Product(Image(s, m), f) == Product(s, g)
    decreases |s|
  {
    if s != {} {
      var x :| x in s;
      ProductRemove(s, g, x);
      assert m(x) in Image(s, m);
      ProductRemove(Image(s, m), f, m(x));
      ProductImage(s - {x}, m, f, g);
      assert Image(s, m) - {m(x)} == Image(s - {x}, m);
    }
  }

  lemma {:induction false} ImageSize<T(!new), U(!new)>(s: set<T>, m: T -> U)
    requires forall x, y :: x in s && y in s && m(x) == m(y) ==> x == y
    ensures |Image(s, m)| == |s|
    decreases |s|
  {
    if s != {} {
      var x :| x in s;
      ImageSize(s - {x}, m);
      assert m(x) in Image(s, m);
      assert Image(s, m) - {m(x)} == Image(s - {x}, m);
    }
  }

  lemma {:induction false} SameSize<T(!new)>(a: set<T>, b: set<T>)
    requires a <= b && |a| == |b|
    ensures a == b
  {
    if b - a != {} {
      var x :| x in b - a;
      assert |b - {x}| == |b| - 1;
      SubsetSize(a, b - {x});
    } else {
      assert b == (b - a) + a;
    }
  }

  lemma {:induction false} SubsetSize<T(!new)>(a: set<T>, b: set<T>)
    requires a <= b
    ensures |a| <= |b|
    decreases |a|
  {
    if a != {} {
      var x :| x in a;
      SubsetSize(a - {x}, b - {x});
    }
  }

  lemma Pick<T>(s: set<T>) returns (x: T)
    requires s != {}
    ensures x in s
  {
    x :| x in s;
  }

  // The nonzero residues modulo p.
  ghost function Residues(p: nat): (s: set<int>)
    ensures forall i :: i in s <==> 1 <= i < p
  {
    if p <= 1 then {} else Residues(p - 1) + {p - 1}
  }

  ghost function Identity(): int -> int { (i: int) => i }

  ghost function Scaled(a: int, p: nat): int -> int
    requires p > 0
  {
    (i: int) => (a * i) % p
  }

  lemma {:induction false} ResiduesSize(p: nat)
    requires p > 0
    ensures |Residues(p)| == p - 1
  {
    if p > 1 {
      ResiduesSize(p - 1);
      OneMoreElement(Residues(p - 1), p - 1);
    }
  }

  lemma OneMoreElement(s: set<int>, x: int)
    requires x !in s
    ensures |s + {x}| == |s| + 1
  {
  }

  // Multiplication by a permutes the nonzero residues.
  lemma ScalingPermutes(a: nat, p: nat)
    requires Prime(p) && a % p != 0
    ensures Image(Residues(p), Scaled(a, p)) == Residues(p)
    ensures forall i, j :: i in Residues(p) && j in Residues(p) && Scaled(a, p)(i) == Scaled(a, p)(j) ==> i == j
  {
    forall i, j | i in Residues(p) && j in Residues(p) && Scaled(a, p)(i) == Scaled(a, p)(j) ensures i == j {
      Cancel(p, a, i, j);
      DivModUnique(i, p, 0, i);
      DivModUnique(j, p, 0, j);
    }
    forall i | i in Residues(p) ensures Scaled(a, p)(i) in Residues(p) {
      DivMod(a * i, p);
      if (a * i) % p == 0 {
        EuclidsLemma(p, a, i);
        DivModUnique(i, p, 0, i);
        assert false;
      }
    }
    ImageSize(Residues(p), Scaled(a, p));
    SameSize(Image(Residues(p), Scaled(a, p)), Residues(p));
  }

  lemma {:induction false} ScaledProduct(s: set<int>, a: int, p: nat)
    requires p > 0
    ensures Product(s, Scaled(a, p)) % p == (Pow(a, |s|) * Product(s, Identity())) % p
    decreases |s|
  {
    if s != {} {
      var x := Pick(s);
      ProductRemove(s, Scaled(a, p), x);
      ProductRemove(s, Identity(), x);
      ScaledProduct(s - {x}, a, p);
      var u, v := Product(s - {x}, Scaled(a, p)), Product(s - {x}, Identity());
      var w := Pow(a, |s| - 1);
      assert |s - {x}| == |s| - 1;
      ModMul(a * x, u, p);
      ModMulCongruent(u, w * v, a * x, p);
      FourFactors(a, x, w, v);
    }
  }

  lemma {:induction false} ProductNotDivisible(s: set<int>, p: nat)
    requires Prime(p) && forall i :: i in s ==> 1 <= i < p
    ensures Product(s, Identity()) % p != 0
    decreases |s|
  {
    if s != {} {
      var x := Pick(s);
      ProductRemove(s, Identity(), x);
      ProductNotDivisible(s - {x}, p);
      DivModUnique(x, p, 0, x);
      if (x * Product(s - {x}, Identity())) % p == 0 {
        EuclidsLemma(p, x, Product(s - {x}, Identity()));
      }
    } else {
      DivModUnique(1, p, 0, 1);
    }
  }

  lemma {:induction false} ProductPositive(s: set<int>)
    requires forall i :: i in s ==> 1 <= i
    ensures Product(s, Identity()) >= 1
    decreases |s|
  {
    if s != {} {
      var x := Pick(s);
      ProductRemove(s, Identity(), x);
      ProductPositive(s - {x});
      MulMonotone(1, x, Product(s - {x}, Identity()));
    }
  }

  ghost function Factorial(p: nat): int {
    Product(Residues(p), Identity())
  }

  lemma FactorialFacts(p: nat)
    requires Prime(p)
    ensures Factorial(p) >= 1 && Factorial(p) % p != 0
  {
    ProductNotDivisible(Residues(p), p);
    ProductPositive(Residues(p));
  }

  lemma PermutedFactorial(a: nat, p: nat)
    requires Prime(p) && a % p != 0
    ensures Factorial(p) == Product(Residues(p), Scaled(a, p))
  {
    ScalingPermutes(a, p);
    ProductImage(Residues(p), Scaled(a, p), Identity(), Scaled(a, p));
  }

  lemma Fermat(a: nat, p: nat)
    requires Prime(p) && a % p != 0
    ensures Pow(a, p - 1) % p == 1
  {
    PermutedFactorial(a, p);
    ScaledProduct(Residues(p), a, p);
    ResiduesSize(p);
    FactorialFacts(p);
    FactorOfOne(p, Factorial(p), Pow(a, p - 1));
  }

  lemma FactorOfOne(p: nat, f: nat, w: int)
    requires Prime(p) && f % p != 0 && f % p == (w * f) % p
    ensures w % p == 1
  {
    assert f * 1 == f && f * w == w * f;
    Cancel(p, f, 1, w);
    DivModUnique(1, p, 0, 1);
  }

  // --- orders -----------------------------------------------------------------------------------

  // If two powers of r are 1 modulo m, so is the one at their greatest common divisor.
  lemma {:induction false} PowGcd(r: int, a: nat, b: nat, m: nat)
    requires m > 1 && Pow(r, a) % m == 1 && Pow(r, b) % m == 1
    ensures Pow(r, Gcd(a, b)) % m == 1
    decreases b
  {
    if b > 0 {
      DivMod(a, b);
      var k := a / b;
      PowMul(r, b, k);
      PowOfOne(Pow(r, b), k, m);
      assert b * k == k * b;
      PowAdd(r, b * k, a % b);
      ModMul(Pow(r, b * k), Pow(r, a % b), m);
      assert 1 * Pow(r, a % b) == Pow(r, a % b);
      PowGcd(r, b, a % b, m);
    }
  }

  // 1 has no square roots modulo a prime but 1 and -1.
  lemma SquareRootsOfOne(x: nat, p: nat)
    requires Prime(p) && 0 < x < p && (x * x) % p == 1
    ensures x == 1 || x == p - 1
  {
    DivModUnique(1, p, 0, 1);
    CongruentIff(x * x, 1, p);
    assert x * x - 1 == (x - 1) * (x + 1);
    if x != 1 {
      DivModUnique(x - 1, p, 0, x - 1);
      EuclidsLemma(p, x - 1, x + 1);
      if x + 1 < p {
        DivModUnique(x + 1, p, 0, x + 1);
      }
    }
  }

  // --- inverses ---------------------------------------------------------------------------------

  ghost predicate IsInverse(a: int, x: int, m: nat) {
    0 <= x < m && (a * x) % m == 1
  }

  lemma InverseUnique(a: int, x: int, y: int, m: nat)
    requires IsInverse(a, x, m) && IsInverse(a, y, m)
    ensures x == y
  {
    // x == x * (a * y) == (a * x) * y == y
    ModMulCongruent(a * y, a * x, x, m);
    ModMul(a * x, y, m);
    ModMul(a * x, x, m);
    assert x * (a * y) == (a * x) * y && x * (a * x) == (a * x) * x;
    DivModUnique(x, m, 0, x);
    DivModUnique(y, m, 0, y);
  }
}
