/** crypto/covenant.py: the extended Euclidean loop and the modular inverse built on it. */
module ModularInverse {
  import opened Arithmetic
  import opened NumberTheory
  import opened Results

  // The six variables of the loop.
  datatype State = State(oldR: int, r: int, oldS: int, s: int, oldT: int, t: int)

  function Start(a: int, b: int): State {
    State(a, b, 1, 0, 0, 1)
  }

  function Step(st: State): State
    requires st.r != 0
  {
    var q := st.oldR / st.r;
    State(st.r, st.oldR - q * st.r, st.s, st.oldS - q * st.s, st.t, st.oldT - q * st.t)
  }

  // The state after k rounds; a finished loop stays where it is.
  function StateAt(a: nat, b: nat, k: nat): State {
    if k == 0 then Start(a, b) else
      var before := StateAt(a, b, k - 1);
      if before.r == 0 then before else Step(before)
  }

  function Abs(x: int): nat {
    if x < 0 then -x else x
  }

  predicate OppositeSigns(x: int, y: int) {
    (x >= 0 && y <= 0) || (x <= 0 && y >= 0)
  }

  // Remainders keep their gcd and stay combinations of a and b ...
  ghost predicate Combination(st: State, a: nat, b: nat) {
    && st.oldR >= 0 && st.r >= 0
    && a * st.oldS + b * st.oldT == st.oldR
    && a * st.s + b * st.t == st.r
    && Gcd(st.oldR, st.r) == Gcd(a, b)
  }

  // ... while the coefficients alternate in sign and grow just as fast as the remainders shrink.
  ghost predicate Alternating(oldR: int, r: int, oldC: int, c: int, total: nat) {
    && OppositeSigns(oldC, c)
    && oldR * Abs(c) + r * Abs(oldC) == total
  }

  ghost predicate Invariant(st: State, a: nat, b: nat) {
    && Combination(st, a, b)
    && Alternating(st.oldR, st.r, st.oldS, st.s, b)
    && Alternating(st.oldR, st.r, st.oldT, st.t, a)
  }

  lemma StepCombination(st: State, a: nat, b: nat)
    requires Combination(st, a, b) && st.r != 0
    ensures Combination(Step(st), a, b) && Step(st).r < st.r
  {
    var q := st.oldR / st.r;
    DivMod(st.oldR, st.r);
    assert Step(st).r == st.oldR % st.r;
    LinearStep(a, b, st.oldS, st.s, st.oldT, st.t, q);
  }

  lemma LinearStep(a: int, b: int, os: int, s: int, ot: int, t: int, q: int)
    ensures a * (os - q * s) + b * (ot - q * t) == (a * os + b * ot) - q * (a * s + b * t)
  {
    assert a * (os - q * s) == a * os - q * (a * s);
    assert b * (ot - q * t) == b * ot - q * (b * t);
    assert q * (a * s + b * t) == q * (a * s) + q * (b * t);
  }

  lemma StepAlternating(oldR: int, r: int, oldC: int, c: int, total: nat)
    requires r > 0 && oldR >= 0 && Alternating(oldR, r, oldC, c, total)
    ensures Alternating(r, oldR - (oldR / r) * r, c, oldC - (oldR / r) * c, total)
    ensures Abs(oldC - (oldR / r) * c) == Abs(oldC) + (oldR / r) * Abs(c)
  {
    var q := oldR / r;
    DivMod(oldR, r);
    assert q >= 0 by {
      if q <= -1 {
        MulMonotone(q, -1, r);
      }
    }
    MulNonnegative(q, Abs(c));
    assert q * c == if c < 0 then -(q * Abs(c)) else q * Abs(c);
    assert r * (Abs(oldC) + q * Abs(c)) == r * Abs(oldC) + (q * r) * Abs(c);
    assert (oldR - q * r) * Abs(c) == oldR * Abs(c) - (q * r) * Abs(c);
  }

  lemma {:induction false} InvariantAt(a: nat, b: nat, k: nat)
    ensures Invariant(StateAt(a, b, k), a, b)
  {
    if k > 0 {
      InvariantAt(a, b, k - 1);
      var st := StateAt(a, b, k - 1);
      if st.r != 0 {
        StepCombination(st, a, b);
        StepAlternating(st.oldR, st.r, st.oldS, st.s, b);
        StepAlternating(st.oldR, st.r, st.oldT, st.t, a);
      }
    }
  }

  ghost predicate CoefficientsBounded(st: State, a: nat, b: nat) {
    var g := Gcd(a, b);
    && Abs(st.oldS) * g <= b && Abs(st.s) * g <= b
    && Abs(st.oldT) * g <= a && Abs(st.t) * g <= a
  }

  lemma GcdAtMost(st: State, a: nat, b: nat)
    requires Combination(st, a, b) && st.oldR > 0
    ensures Gcd(a, b) <= st.oldR
  {
    GcdDivides(st.oldR, st.r);
    DivisorIsSmaller(Gcd(st.oldR, st.r), st.oldR);
  }

  lemma BoundFromAlternating(oldR: int, r: int, oldC: int, c: int, total: nat, g: nat)
    requires Alternating(oldR, r, oldC, c, total) && r >= 0 && g <= oldR
    ensures Abs(c) * g <= total
  {
    MulNonnegative(r, Abs(oldC));
    MulMonotone(g, oldR, Abs(c));
    assert Abs(c) * g == g * Abs(c);
  }

  // Every intermediate coefficient is bounded: |s| by b/gcd and |t| by a/gcd.
  lemma {:induction false} CoefficientsStayBounded(a: nat, b: nat, k: nat)
    requires a > 0 && b > 0
    ensures StateAt(a, b, k).oldR > 0
    ensures CoefficientsBounded(StateAt(a, b, k), a, b)
  {
    InvariantAt(a, b, k);
    var st := StateAt(a, b, k);
    GcdDivides(a, b);
    DivisorIsSmaller(Gcd(a, b), b);
    if k > 0 {
      CoefficientsStayBounded(a, b, k - 1);
      InvariantAt(a, b, k - 1);
    }
    GcdAtMost(st, a, b);
    BoundFromAlternating(st.oldR, st.r, st.oldS, st.s, b, Gcd(a, b));
    BoundFromAlternating(st.oldR, st.r, st.oldT, st.t, a, Gcd(a, b));
  }

  // The loop's result as a function.
  function Loop(st: State): State
    requires st.oldR >= 0 && st.r >= 0
    decreases st.r
  {
    if st.r == 0 then st else
      DivMod(st.oldR, st.r);
      Loop(Step(st))
  }

  // Python's // rounds toward minus infinity.
  function FloorDiv(x: int, y: int): int
    requires y != 0
  {
    if y > 0 then x / y else (-x) / (-y)
  }

  // A value between 0 and the divisor, on the divisor's side of zero.
  predicate Within(x: int, y: int) {
    (y > 0 ==> 0 <= x < y) && (y < 0 ==> y < x <= 0)
  }

  lemma FloorRemainder(x: int, y: int)
    requires y != 0
    ensures var rest := x - FloorDiv(x, y) * y;
      && Within(rest, y) && Abs(rest) < Abs(y)
      && Gcd(Abs(y), Abs(rest)) == Gcd(Abs(x), Abs(y))
  {
    if y > 0 {
      RemainderOf(x, y);
      GcdOfRemainder(x, y);
    } else {
      RemainderOf(-x, -y);
      GcdOfRemainder(-x, -y);
      NegatedRemainder(x, y, FloorDiv(x, y));
    }
  }

  lemma RemainderOf(x: int, n: int)
    requires n > 0
    ensures x - (x / n) * n == x % n && 0 <= x % n < n
  {
    DivMod(x, n);
  }

  lemma NegatedRemainder(x: int, y: int, q: int)
    ensures x - q * y == -(-x - q * -y)
  {
  }

  lemma DividesNegated(d: nat, x: int)
    requires Divides(d, x)
    ensures Divides(d, -x)
  {
    MultipleMod(0, d);
    DividesSum(d, 0, x, -1);
  }

  lemma SameGcd(a: nat, b: nat, c: nat, d: nat)
    requires b > 0 && d > 0
    requires Divides(Gcd(a, b), c) && Divides(Gcd(a, b), d) && Divides(Gcd(c, d), a) && Divides(Gcd(c, d), b)
    ensures Gcd(a, b) == Gcd(c, d)
  {
    CommonDivisor(Gcd(a, b), c, d);
    CommonDivisor(Gcd(c, d), a, b);
    DivisorIsSmaller(Gcd(a, b), Gcd(c, d));
    DivisorIsSmaller(Gcd(c, d), Gcd(a, b));
  }

  lemma GcdSwapped(rest: nat, n: nat)
    requires rest < n
    ensures Gcd(rest, n) == Gcd(n, rest)
  {
    DivModUnique(rest, n, 0, rest);
  }

  // Euclid's step for a dividend of any sign: the common divisors stay the same.
  lemma GcdOfRemainder(x: int, n: nat)
    requires n > 0
    ensures Gcd(n, x % n) == Gcd(Abs(x), n)
  {
    if x < 0 {
      NegativeDividend(-x, n, x % n, x / n);
    }
  }

  lemma NegativeDividend(y: nat, n: nat, rest: nat, q: int)
    requires rest < n && y == -(rest + q * n)
    ensures Gcd(n, rest) == Gcd(y, n)
  {
    GcdSwapped(rest, n);
    RemainderDivisors(y, n, rest, q);
    SameGcd(y, n, rest, n);
  }

  // With y + q * n + rest == 0, a common divisor of two of them divides the third.
  lemma ThirdDivided(d: nat, x: int, n: int, q: int, y: int)
    requires Divides(d, x) && Divides(d, n) && y == -(x + q * n)
    ensures Divides(d, y)
  {
    DividesSum(d, x, n, q);
    DividesNegated(d, x + q * n);
  }

  lemma RemainderDivisors(y: nat, n: nat, rest: nat, q: int)
    requires n > 0 && y == -(rest + q * n)
    ensures Divides(Gcd(y, n), rest) && Divides(Gcd(y, n), n) && Divides(Gcd(rest, n), y) && Divides(Gcd(rest, n), n)
  {
    GcdDivides(y, n);
    ThirdDivided(Gcd(y, n), y, n, q, rest);
    GcdDivides(rest, n);
    ThirdDivided(Gcd(rest, n), rest, n, q, y);
  }

  // What the loop keeps for arguments of any sign.
  ghost predicate SignedInvariant(st: State, a: int, b: int) {
    && a * st.oldS + b * st.oldT == st.oldR
    && a * st.s + b * st.t == st.r
    && Gcd(Abs(st.oldR), Abs(st.r)) == Gcd(Abs(a), Abs(b))
    && (b == 0 ==> st == Start(a, b))
    && (b > 0 ==> st.r >= 0 && (st.r == 0 ==> st.oldR > 0))
    && (b < 0 ==> st.r <= 0 && (st.r == 0 ==> st.oldR < 0))
  }

  function FloorStep(st: State): State
    requires st.r != 0
  {
    var q := FloorDiv(st.oldR, st.r);
    State(st.r, st.oldR - q * st.r, st.s, st.oldS - q * st.s, st.t, st.oldT - q * st.t)
  }

  lemma SignedStep(st: State, a: int, b: int)
    requires SignedInvariant(st, a, b) && st.r != 0
    ensures SignedInvariant(FloorStep(st), a, b) && Abs(FloorStep(st).r) < Abs(st.r)
  {
    FloorRemainder(st.oldR, st.r);
    LinearStep(a, b, st.oldS, st.s, st.oldT, st.t, FloorDiv(st.oldR, st.r));
  }

  // The run of the loop on arguments that are not negative, where the two divisions agree.
  ghost predicate NaturalInvariant(st: State, a: int, b: int, k: nat) {
    a >= 0 && b >= 0 ==> st == StateAt(a, b, k) && st.oldR >= 0 && st.r >= 0 && Loop(st) == Loop(Start(a, b))
  }

  lemma NaturalStep(st: State, a: int, b: int, k: nat)
    requires NaturalInvariant(st, a, b, k) && st.r != 0
    ensures NaturalInvariant(FloorStep(st), a, b, k + 1)
  {
    if a >= 0 && b >= 0 {
      RemainderStep(st.oldR, st.r);
      assert FloorStep(st) == Step(st);
    }
  }

  // The gcd, with the sign of b (or of a, when b is 0), as a combination of a and b.
  method ExtendedGcd(a: int, b: int) returns (g: int, x: int, y: int)
    ensures a * x + b * y == g && Abs(g) == Gcd(Abs(a), Abs(b))
    ensures if b == 0 then g == a else g > 0 <==> b > 0
    ensures a > 0 && b > 0 ==> Abs(x) * g <= b && Abs(y) * g <= a
    ensures a >= 0 && b >= 0 ==>
      (g, x, y) == (Loop(Start(a, b)).oldR, Loop(Start(a, b)).oldS, Loop(Start(a, b)).oldT)
  {
    var oldR: int, r: int := a, b;
    var oldS: int, s: int := 1, 0;
    var oldT: int, t: int := 0, 1;
    ghost var k := 0;
    while r != 0
      invariant SignedInvariant(State(oldR, r, oldS, s, oldT, t), a, b)
      invariant NaturalInvariant(State(oldR, r, oldS, s, oldT, t), a, b, k)
      decreases Abs(r)
    {
      SignedStep(State(oldR, r, oldS, s, oldT, t), a, b);
      NaturalStep(State(oldR, r, oldS, s, oldT, t), a, b, k);
      var q: int := FloorDiv(oldR, r);
      oldR, r := r, oldR - q * r;
      oldS, s := s, oldS - q * s;
      oldT, t := t, oldT - q * t;
      k := k + 1;
    }
    if a >= 0 && b >= 0 {
      Finished(a, b, k);
    }
    return oldR, oldS, oldT;
  }

  lemma RemainderStep(oldR: int, r: int)
    requires r > 0
    ensures 0 <= oldR - (oldR / r) * r < r
  {
    DivMod(oldR, r);
  }

  lemma Finished(a: nat, b: nat, k: nat)
    requires StateAt(a, b, k).r == 0
    ensures var st := StateAt(a, b, k);
      && st.oldR == Gcd(a, b) && a * st.oldS + b * st.oldT == st.oldR
      && (a > 0 && b > 0 ==> Abs(st.oldS) * st.oldR <= b && Abs(st.oldT) * st.oldR <= a)
  {
    InvariantAt(a, b, k);
    if a > 0 && b > 0 {
      CoefficientsStayBounded(a, b, k);
    }
  }

  // The number modinv returns, when there is one.
  ghost function Inverse(a: int, m: nat): (x: nat)
    requires exists x :: IsInverse(a, x, m)
    ensures IsInverse(a, x, m)
  {
    var x :| IsInverse(a, x, m);
    x
  }

  // A Bezout coefficient of a modulo m, reduced, inverts a.
  lemma BezoutInverts(a: int, m: nat, x: int, y: int)
    requires m > 1 && (a % m) * x + m * y == 1
    ensures IsInverse(a, x % m, m)
  {
    DivMod(x, m);
    assert (a % m) * x == 1 + (-y) * m;
    ModPlusMultiple(1, -y, m);
    DivModUnique(1, m, 0, 1);
    ModMul(a, x, m);
    ModMul(x, a, m);
    ModMul(x % m, a, m);
    DivModUnique(x % m, m, 0, x % m);
    assert a * x == x * a && a * (x % m) == (x % m) * a;
  }

  lemma InverseExists(a: int, m: nat)
    requires m > 1 && Gcd(a % m, m) == 1
    ensures exists x :: IsInverse(a, x, m)
  {
    var x, y := Bezout(a % m, m);
    BezoutInverts(a, m, x, y);
  }

  // A number with an inverse shares no factor with m.
  lemma InvertibleIsCoprime(a: int, x: int, m: nat)
    requires m > 1 && IsInverse(a, x, m)
    ensures Gcd(a % m, m) == 1
  {
    var c := a % m;
    var g := Gcd(c, m);
    GcdDivides(c, m);
    ModMul(a, x, m);
    var k := (c * x) / m;
    DivMod(c * x, m);
    assert 0 + x * c == 1 + k * m;
    MultipleMod(0, g);
    DividesSum(g, 0, c, x);
    DividesSum(g, 1 + k * m, m, -k);
    assert 1 + k * m + (-k) * m == 1;
    DivisorIsSmaller(g, 1);
  }

  // modinv as a function of its arguments.
  function ModInvOf(a: int, m: int): Result<int>
    requires m > 0
  {
    var end := Loop(Start(a % m, m));
    if end.oldR != 1 then Failure(ValueError) else Success(end.oldS % m)
  }

  method ModInv(a: int, m: int) returns (r: Result<int>)
    requires m > 0
    ensures r == ModInvOf(a, m)
    ensures m > 1 ==> (r.Success? <==> exists x :: IsInverse(a, x, m))
    ensures m > 1 && r.Success? ==> r.value == Inverse(a, m)
  {
    var g, x, y := ExtendedGcd(a % m, m);
    if m > 1 {
      GcdOneIffInvertible(a, m);
      if g == 1 {
        BezoutInverts(a, m, x, y);
        InverseUnique(a, x % m, Inverse(a, m), m);
      }
    }
    if g != 1 {
      return Failure(ValueError);
    }
    return Success(x % m);
  }

  lemma GcdOneIffInvertible(a: int, m: nat)
    requires m > 1
    ensures Gcd(a % m, m) == 1 <==> exists x :: IsInverse(a, x, m)
  {
    if Gcd(a % m, m) == 1 {
      InverseExists(a, m);
    }
    if exists x :: IsInverse(a, x, m) {
      var x :| IsInverse(a, x, m);
      InvertibleIsCoprime(a, x, m);
    }
  }

  lemma {:induction false} LoopReaches(a: nat, b: nat, k: nat) returns (n: nat)
    ensures StateAt(a, b, k).oldR >= 0 && StateAt(a, b, k).r >= 0
    ensures StateAt(a, b, n).r == 0 && Loop(StateAt(a, b, k)) == StateAt(a, b, n)
    decreases StateAt(a, b, k).r
  {
    InvariantAt(a, b, k);
    var st := StateAt(a, b, k);
    if st.r == 0 {
      n := k;
    } else {
      RemainderStep(st.oldR, st.r);
      n := LoopReaches(a, b, k + 1);
    }
  }

  // modinv finds the unique inverse in [0, m) exactly when one exists.
  lemma ModInvFindsInverse(a: int, m: nat)
    requires m > 1
    ensures ModInvOf(a, m).Success? <==> exists x :: IsInverse(a, x, m)
    ensures ModInvOf(a, m).Failure? ==> ModInvOf(a, m) == Failure(ValueError)
    ensures ModInvOf(a, m).Success? ==> IsInverse(a, ModInvOf(a, m).value, m)
    ensures forall x :: IsInverse(a, x, m) ==> ModInvOf(a, m) == Success(x)
  {
    var n := LoopReaches(a % m, m, 0);
    Finished(a % m, m, n);
    var end := StateAt(a % m, m, n);
    GcdOneIffInvertible(a, m);
    if end.oldR == 1 {
      BezoutInverts(a, m, end.oldS, end.oldT);
      forall x | IsInverse(a, x, m) ensures x == end.oldS % m {
        InverseUnique(a, x, end.oldS % m, m);
      }
    }
  }
}
