/** ui/covenant.js: the BigInt helpers, against the Python arithmetic they mirror. */
module BrowserNumbers {
  import opened Arithmetic
  import opened Bytes
  import opened ModularInverse
  import opened NumberTheory
  import opened Results

  // BigInt `%` and `/` truncate toward zero, so the remainder has the sign of x whatever the sign of m.
  function JsRem(x: int, m: int): int
    requires m != 0
  {
    if x >= 0 then x % m else -((-x) % m)
  }

  function JsDiv(x: int, m: int): int
    requires m > 0
  {
    if x >= 0 then x / m else -((-x) / m)
  }

  lemma RemOfSmall(x: int, m: int)
    requires m > 0 && -m < x < m
    ensures JsRem(x, m) == x
  {
    if x >= 0 {
      DivModUnique(x, m, 0, x);
    } else {
      DivModUnique(-x, m, 0, -x);
    }
  }

  lemma RemBounds(x: int, m: int)
    requires m > 0
    ensures -m < JsRem(x, m) < m
  {
  }

  lemma RemNegative(x: int, m: int)
    requires m > 0
    ensures JsRem(-x, m) == -JsRem(x, m)
  {
    DivModUnique(0, m, 0, 0);
  }

  lemma RemMulRight(x: nat, y: int, m: int)
    requires m > 0
    ensures JsRem(JsRem(x, m) * y, m) == JsRem(x * y, m)
    decreases y < 0
  {
    if y >= 0 {
      MulNonnegative(x, y);
      MulNonnegative(x % m, y);
      ModMul(x, y, m);
    } else {
      RemMulRight(x, -y, m);
      RemNegative(x * -y, m);
      RemNegative(JsRem(x, m) * -y, m);
      assert x * y == -(x * -y) && JsRem(x, m) * y == -(JsRem(x, m) * -y);
    }
  }

  // The truncated remainder keeps the sign of its operand, so it commutes with multiplication.
  lemma RemMul(x: int, y: int, m: int)
    requires m > 0
    ensures JsRem(JsRem(x, m) * y, m) == JsRem(x * y, m)
  {
    if x >= 0 {
      RemMulRight(x, y, m);
    } else {
      RemMulRight(-x, y, m);
      RemNegative(x, m);
      RemNegative(-x * y, m);
      RemNegative(JsRem(-x, m) * y, m);
      assert x * y == -(-x * y) && JsRem(x, m) * y == -(JsRem(-x, m) * y);
    }
  }

  lemma RemRem(x: int, m: int)
    requires m > 0
    ensures JsRem(JsRem(x, m), m) == JsRem(x, m)
  {
    RemBounds(x, m);
    RemOfSmall(JsRem(x, m), m);
  }

  lemma Shuffle(y: int, d: int, w: int)
    ensures y * (d * w) == (y * d) * w == d * (y * w)
  {
  }

  lemma {:induction false} RemPow(y: int, c: int, e: nat, m: int)
    requires m > 0
    ensures JsRem(y * Pow(JsRem(c, m), e), m) == JsRem(y * Pow(c, e), m)
    decreases e
  {
    if e > 0 {
      var d := JsRem(c, m);
      RemPow(y * d, c, e - 1, m);
      RemMul(c, y * Pow(c, e - 1), m);
      Shuffle(y, d, Pow(d, e - 1));
      Shuffle(y, d, Pow(c, e - 1));
      Shuffle(y, c, Pow(c, e - 1));
    }
  }

  // One round of square-and-multiply keeps r * base^exp.
  lemma SquareAndMultiply(r: int, base: int, exp: nat, m: int)
    requires m > 0 && exp > 0
    ensures var next := if exp % 2 == 1 then JsRem(r * base, m) else r;
      JsRem(next * Pow(JsRem(base * base, m), exp / 2), m) == JsRem(r * Pow(base, exp), m)
  {
    var next := if exp % 2 == 1 then JsRem(r * base, m) else r;
    var half := exp / 2;
    RemPow(next, base * base, half, m);
    PowMul(base, 2, half);
    assert Pow(base, 2) == base * base by {
      assert Pow(base, 1) == base * Pow(base, 0);
    }
    if exp % 2 == 1 {
      assert exp == 1 + 2 * half;
      PowAdd(base, 1, 2 * half);
      RemMul(r * base, Pow(base, 2 * half), m);
      assert Pow(base, 1) == base * Pow(base, 0);
      assert (r * base) * Pow(base, 2 * half) == r * Pow(base, exp);
    } else {
      assert exp == 2 * half;
    }
  }

  lemma RemOfNegated(x: int, m: int)
    requires m != 0
    ensures JsRem(x, m) == JsRem(x, -m)
  {
    var n: int := if m > 0 then m else -m;
    RemNegativeModulus(x, n);
    RemNegativeModulus(-x, n);
  }

  lemma RemNegativeModulus(x: int, n: int)
    requires n > 0
    ensures x % -n == x % n
  {
  }

  // modPow: base^exp with truncated remainders; an exponent that is not positive gives 1 unreduced.
  method ModPow(base: int, exp: int, mod: int) returns (r: Result<int>)
    ensures r == if mod == 0 then Failure(RangeError) else
      Success(if exp <= 0 then 1 else JsRem(Pow(base, exp), mod))
  {
    if mod == 0 {
      return Failure(RangeError);
    }
    ghost var m: int := if mod > 0 then mod else -mod;
    RemOfNegated(base, mod);
    var b: int := JsRem(base, mod);
    var e: int := exp;
    var power: int := 1;
    ghost var goal := if exp <= 0 then 1 else JsRem(Pow(base, exp), m);
    if exp > 0 {
      RemPow(1, base, exp, m);
      RemOfNegated(Pow(base, exp), mod);
    }
    while e > 0
      invariant exp <= 0 ==> e == exp && power == 1
      invariant exp > 0 ==> e >= 0 && JsRem(power * Pow(b, e), m) == goal
      invariant exp > 0 && e == 0 ==> JsRem(power, m) == power
    {
      SquareAndMultiply(power, b, e, m);
      RemRem(power * b, m);
      RemOfNegated(power * b, mod);
      RemOfNegated(b * b, mod);
      if e % 2 == 1 {
        power := JsRem(power * b, mod);
      }
      e := e / 2;
      b := JsRem(b * b, mod);
    }
    if exp > 0 {
      assert Pow(b, 0) == 1;
    }
    return Success(power);
  }

  // JavaScript and Python remainders agree exactly on numbers that are not negative, and on multiples.
  lemma RemAgrees(x: int, m: nat)
    requires m > 0
    ensures JsRem(x, m) == x % m <==> x >= 0 || x % m == 0
  {
    DivMod(x, m);
    DivMod(-x, m);
    if x < 0 && x % m == 0 {
      DivModUnique(-x, m, -(x / m), 0);
    }
  }

  lemma {:induction false} PowSign(b: int, e: nat)
    requires b < 0
    ensures Pow(b, e) > 0 <==> e % 2 == 0
    ensures Pow(b, e) < 0 <==> e % 2 == 1
  {
    if e > 0 {
      PowSign(b, e - 1);
      ProductSign(b, Pow(b, e - 1));
    }
  }

  lemma ProductSign(b: int, x: int)
    requires b < 0
    ensures (x > 0 ==> b * x < 0) && (x < 0 ==> b * x > 0)
  {
    if x > 0 {
      MulMonotone(1, x, -b);
    } else if x < 0 {
      MulMonotone(1, -x, -b);
    }
  }

  // Browser and Python exponentiation agree exactly unless the modulus is 1 and the exponent 0, or an odd
  // power of a negative base leaves a remainder. The handshake's bases are never negative.
  lemma ModPowAgrees(base: int, exp: nat, mod: nat)
    requires mod > 0
    ensures (if exp <= 0 then 1 else JsRem(Pow(base, exp), mod)) == PowerMod(base, exp, mod) <==>
      if exp == 0 then mod > 1 else base >= 0 || exp % 2 == 0 || Pow(base, exp) % mod == 0
  {
    if exp == 0 {
      assert Pow(base, 0) == 1;
      if mod > 1 {
        DivModUnique(1, mod, 0, 1);
      } else {
        DivModUnique(1, 1, 1, 0);
      }
    } else {
      RemAgrees(Pow(base, exp), mod);
      if base >= 0 {
        PowNonnegative(base, exp);
      } else {
        PowSign(base, exp);
      }
    }
  }

  // egcd: the same loop, with truncating division.
  method Egcd(a: nat, b: nat) returns (g: int, x: int, y: int)
    ensures (g, x, y) == (Loop(Start(a, b)).oldR, Loop(Start(a, b)).oldS, Loop(Start(a, b)).oldT)
  {
    var oldR: int, r: int := a, b;
    var oldS: int, s: int := 1, 0;
    var oldT: int, t: int := 0, 1;
    while r != 0
      invariant oldR >= 0 && r >= 0
      invariant Loop(State(oldR, r, oldS, s, oldT, t)) == Loop(Start(a, b))
      decreases r
    {
      RemainderStep(oldR, r);
      var q: int := JsDiv(oldR, r);
      oldR, r := r, oldR - q * r;
      oldS, s := s, oldS - q * s;
      oldT, t := t, oldT - q * t;
    }
    return oldR, oldS, oldT;
  }

  // ((a % m) + m) % m is the non-negative remainder.
  lemma Normalized(a: int, m: int)
    requires m > 0
    ensures JsRem(JsRem(a, m) + m, m) == a % m
  {
    DivMod(a, m);
    DivMod(-a, m);
    if a >= 0 {
      DivModUnique(a % m + m, m, 1, a % m);
    } else if -a % m == 0 {
      assert a == -(-a / m) * m;
      MultipleMod(-(-a / m), m);
      DivModUnique(m, m, 1, 0);
    } else {
      assert a == (-(-a / m) - 1) * m + (m - -a % m);
      DivModUnique(a, m, -(-a / m) - 1, m - -a % m);
      DivModUnique(m - -a % m, m, 0, m - -a % m);
    }
  }

  // modinv: the browser returns or throws just as Python does.
  method BrowserModInv(a: int, m: int) returns (r: Result<int>)
    requires m > 0
    ensures r == ModInvOf(a, m)
  {
    Normalized(a, m);
    var g, x, _ := Egcd(JsRem(JsRem(a, m) + m, m), m);
    if g != 1 {
      return Failure(ValueError);
    }
    Normalized(x, m);
    return Success(JsRem(JsRem(x, m) + m, m));
  }

  // --- bytes ------------------------------------------------------------------------------------

  method BytesToBig(b: Bytes) returns (x: nat)
    ensures x == FromBytes(b)
  {
    x := 0;
    for i := 0 to |b|
      invariant x == FromBytes(b[..i])
    {
      assert b[..i + 1][..i] == b[..i];
      x := 256 * x + b[i];
    }
    assert b[..|b|] == b;
  }

  // bigToBytes keeps the low bytes, like to_bytes on every number that fits.
  method BigToBytes(x: nat, len: nat) returns (o: array<Byte>)
    ensures fresh(o) && o[..] == ToBytes(x, len)
  {
    o := new Byte[len];
    var rest := x;
    var i := len;
    while i > 0
      invariant 0 <= i <= len
      invariant ToBytes(rest, i) + o[i..] == ToBytes(x, len)
    {
      i := i - 1;
      ghost var tail := o[i + 1..];
      o[i] := rest % 256;
      rest := rest / 256;
      assert o[i + 1..] == tail;
      assert o[i..] == [o[i]] + tail;
      assert ToBytes(rest, i) + ([o[i]] + tail) == (ToBytes(rest, i) + [o[i]]) + tail;
    }
    assert o[..] == o[0..];
  }
}
