/** crypto/covenant.py: the PAKE primitives, and when the two ends derive the same secret. */
module Covenant {
  import opened Arithmetic
  import opened Bytes
  import opened Hkdf
  import opened ModularInverse
  import opened NumberTheory
  import opened Results

  const ELEMENT_BYTES: nat := 256
  const G: nat := 2

  // P of the source, kept abstract: a prime p for which q = (p - 1) / 2 is prime as well,
  // and whose residues fit the wire width.
  ghost predicate SafePrime(p: nat, q: nat) {
    p > 5 && p == 2 * q + 1 && Prime(p) && Prime(q) && p <= Pow256(ELEMENT_BYTES)
  }

  // The premises can be met: 7 is a safe prime.
  lemma SmallSafePrime()
    ensures SafePrime(7, 3)
  {
    SmallPrimes();
    Pow256Grows(ELEMENT_BYTES - 1);
  }

  lemma SmallPrimes()
    ensures Prime(7) && Prime(3)
  {
    assert !Divides(2, 7) && !Divides(3, 7) && !Divides(4, 7) && !Divides(5, 7) && !Divides(6, 7);
    assert !Divides(2, 3);
  }

  lemma Pow256Grows(n: nat)
    ensures Pow256(n + 1) >= 256
  {
    MulMonotone(1, Pow256(n), 256);
  }

  function SecretToElement(mac: Mac, password: Bytes, p: nat): nat
    requires p > 0
  {
    var h := FromBytes(mac(password, Ascii("Priestly-Covenant-Map")));
    var v := if h % p == 0 then 1 else h % p;
    PowerMod(v, 2, p)
  }

  function PublicElement(exponent: nat, p: nat): nat
    requires p > 0
  {
    PowerMod(G, exponent, p)
  }

  function Mask(publicB: nat, pe: nat, p: nat): nat
    requires p > 0
  {
    (publicB * pe) % p
  }

  function Unmask(maskedB: nat, pe: nat, p: nat): Result<nat>
    requires p > 0
  {
    var inverse :- ModInvOf(pe, p);
    Success((maskedB * inverse) % p)
  }

  function SharedSecret(peer: nat, exponent: nat, p: nat): nat
    requires p > 0
  {
    PowerMod(peer, exponent, p)
  }

  function ConfirmMac(mac: Mac, shared: nat, commit: Bytes, role: Bytes, public: nat): Bytes {
    mac(ToBytes(shared, ELEMENT_BYTES), commit + role + ToBytes(public, ELEMENT_BYTES))
  }

  // The confirmation message consists of fixed-width fields, so it determines all of them.
  lemma ConfirmMessageInjective(c1: Bytes, r1: Bytes, p1: nat, c2: Bytes, r2: Bytes, p2: nat)
    requires |c1| == |c2| && |r1| == |r2| && p1 < Pow256(ELEMENT_BYTES) && p2 < Pow256(ELEMENT_BYTES)
    requires c1 + r1 + ToBytes(p1, ELEMENT_BYTES) == c2 + r2 + ToBytes(p2, ELEMENT_BYTES)
    ensures c1 == c2 && r1 == r2 && p1 == p2
  {
    var m1, m2 := c1 + r1 + ToBytes(p1, ELEMENT_BYTES), c2 + r2 + ToBytes(p2, ELEMENT_BYTES);
    assert m1[..|c1|] == c1 && m2[..|c1|] == c2;
    assert m1[|c1|..|c1| + |r1|] == r1 && m2[|c1|..|c1| + |r1|] == r2;
    assert m1[|c1| + |r1|..] == ToBytes(p1, ELEMENT_BYTES) && m2[|c1| + |r1|..] == ToBytes(p2, ELEMENT_BYTES);
    ToBytesInjective(p1, p2, ELEMENT_BYTES);
  }

  datatype SessionKeys = SessionKeys(clientWrite: Bytes, serverWrite: Bytes, clientMac: Bytes, serverMac: Bytes)

  function DeriveSessionKeys(mac: Mac, shared: nat): SessionKeys {
    var prk := ToBytes(shared, ELEMENT_BYTES);
    SessionKeys(Subkey(mac, prk, "Priestly-v1-client-write"), Subkey(mac, prk, "Priestly-v1-server-write"),
                Subkey(mac, prk, "Priestly-v1-client-mac"), Subkey(mac, prk, "Priestly-v1-server-mac"))
  }

  function Subkey(mac: Mac, prk: Bytes, info: string): Bytes {
    Expand(mac, prk, Ascii(info), 32).value
  }

  // --- the password element ---------------------------------------------------------------------

  ghost predicate NonzeroSquare(x: nat, p: nat) {
    0 < x < p && exists v: nat :: v % p != 0 && IsSquareOf(x, v, p)
  }

  ghost predicate IsSquareOf(x: nat, v: nat, p: nat) {
    p > 0 && x == (v * v) % p
  }

  lemma PowFirst(v: int)
    ensures Pow(v, 1) == v
  {
    assert Pow(v, 1) == v * Pow(v, 0);
  }

  lemma PowTwo(v: int)
    ensures Pow(v, 2) == v * v
  {
    PowFirst(v);
  }

  lemma SquareNonzero(v: nat, p: nat)
    requires Prime(p) && v % p != 0
    ensures (v * v) % p != 0
  {
    if (v * v) % p == 0 {
      EuclidsLemma(p, v, v);
    }
  }

  // Every password maps to an invertible quadratic residue.
  lemma SecretElementIsSquare(mac: Mac, password: Bytes, p: nat)
    requires Prime(p)
    ensures NonzeroSquare(SecretToElement(mac, password, p), p)
  {
    var h := FromBytes(mac(password, Ascii("Priestly-Covenant-Map")));
    var v := if h % p == 0 then 1 else h % p;
    PowTwo(v);
    DivModUnique(v, p, 0, v);
    SquareNonzero(v, p);
    assert IsSquareOf(SecretToElement(mac, password, p), v, p);
  }

  lemma ElementInvertible(pe: nat, p: nat)
    requires Prime(p) && 0 < pe < p
    ensures ModInvOf(pe, p).Success? && IsInverse(pe, ModInvOf(pe, p).value, p)
  {
    DivModUnique(pe, p, 0, pe);
    GcdWithPrime(pe, p);
    ModInvFindsInverse(pe, p);
    GcdOneIffInvertible(pe, p);
  }

  // --- powers of the generator ------------------------------------------------------------------

  lemma GeneratorNonzero(p: nat, q: nat, e: nat)
    requires SafePrime(p, q)
    ensures 0 < PublicElement(e, p) < p
  {
    DivModUnique(G, p, 0, G);
    PowNonzero(G, e, p);
  }

  lemma {:induction false} PowNonzero(b: nat, e: nat, p: nat)
    requires Prime(p) && b % p != 0
    ensures Pow(b, e) % p != 0
  {
    if e > 0 {
      PowNonzero(b, e - 1, p);
      if Pow(b, e) % p == 0 {
        EuclidsLemma(p, b, Pow(b, e - 1));
      }
    } else {
      DivModUnique(1, p, 0, 1);
    }
  }

  // Both orders of exponentiation lead to G^(ab).
  lemma Exchange(a: nat, b: nat, p: nat)
    requires p > 0
    ensures SharedSecret(PublicElement(b, p), a, p) == SharedSecret(PublicElement(a, p), b, p)
  {
    PowMod(Pow(G, b), a, p);
    PowMod(Pow(G, a), b, p);
    PowMul(G, b, a);
    PowMul(G, a, b);
    assert a * b == b * a;
  }

  // An element whose order divides the prime q vanishes exactly at multiples of q, unless it is 1.
  lemma PrimeOrder(r: int, a: nat, q: nat, p: nat)
    requires p > 1 && Prime(q) && Pow(r, q) % p == 1
    ensures Pow(r, a) % p == 1 <==> a % q == 0 || r % p == 1
  {
    if a % q == 0 {
      DivMod(a, q);
      assert q * (a / q) == a;
      PowMul(r, q, a / q);
      PowOfOne(Pow(r, q), a / q, p);
    } else if r % p == 1 {
      PowOfOne(r, a, p);
    } else if Pow(r, a) % p == 1 {
      PowGcd(r, a, q, p);
      GcdWithPrime(a, q);
      PowFirst(r);
      assert false;
    }
  }

  // A square of a nonzero residue has order dividing (p - 1) / 2.
  lemma SquareOrder(v: nat, p: nat, q: nat)
    requires SafePrime(p, q) && v % p != 0
    ensures Pow(v * v, q) % p == 1
  {
    Fermat(v, p);
    PowTwo(v);
    PowMul(v, 2, q);
  }

  // The range check of the handshake rejects exactly the exponents that are multiples of q.
  lemma DegenerateElement(a: nat, p: nat, q: nat)
    requires SafePrime(p, q)
    ensures PublicElement(a, p) == 1 || PublicElement(a, p) == p - 1 <==> a % q == 0
  {
    var A := PublicElement(a, p);
    GeneratorNonzero(p, q, a);
    DivModUnique(G, p, 0, G);
    SquareOrder(G, p, q);
    PrimeOrder(G * G, a, q, p);
    DivModUnique(G * G, p, 0, G * G);
    // A * A == (G * G)^a modulo p
    PowOfProduct(G, G, a);
    ModMul(Pow(G, a), Pow(G, a), p);
    SquaresToOne(A, p);
  }

  lemma SquaresToOne(x: nat, p: nat)
    requires Prime(p) && 0 < x < p
    ensures (x * x) % p == 1 <==> x == 1 || x == p - 1
  {
    if (x * x) % p == 1 {
      SquareRootsOfOne(x, p);
    }
    DivModUnique(1, p, 0, 1);
    assert (p - 1) * (p - 1) == (p - 2) * p + 1;
    DivModUnique((p - 1) * (p - 1), p, p - 2, 1);
  }

  // --- the wrong password -----------------------------------------------------------------------

  // What unmasking with pc turns B * ps into: B times the ratio of the two password elements.
  ghost predicate IsRatio(r: nat, ps: nat, pc: nat, p: nat) {
    p > 0 && (r * pc) % p == ps % p
  }

  lemma RatioOf(ps: nat, pc: nat, inverse: nat, p: nat)
    requires Prime(p) && 0 < pc < p && 0 < ps < p && IsInverse(pc, inverse, p)
    ensures IsRatio(ps * inverse, ps, pc, p) && (ps * inverse) % p != 0
    ensures (ps * inverse) % p == 1 <==> ps == pc
  {
    var r := ps * inverse;
    assert r * pc == (pc * inverse) * ps;
    ModMul(pc * inverse, ps, p);
    DivModUnique(ps, p, 0, ps);
    DivModUnique(pc, p, 0, pc);
    RatioFacts(r, ps, pc, p);
    if ps == pc {
      assert r == pc * inverse;
    }
  }

  lemma RatioFacts(r: nat, ps: nat, pc: nat, p: nat)
    requires p > 1 && 0 < pc < p && 0 < ps < p && ps % p == ps && pc % p == pc && IsRatio(r, ps, pc, p)
    ensures r % p != 0 && (r % p == 1 ==> ps == pc)
  {
    ModMul(r, pc, p);
    if r % p == 0 {
      assert 0 * pc == 0;
      MultipleMod(0, p);
      assert false;
    }
  }

  lemma UnmaskRatio(b: nat, ps: nat, pc: nat, r: nat, p: nat)
    requires p > 0 && ModInvOf(pc, p).Success? && ModInvOf(pc, p).value >= 0 && r == ps * ModInvOf(pc, p).value
    ensures Unmask(Mask(b, ps, p), pc, p) == Success((b * r) % p)
  {
    var inverse := ModInvOf(pc, p).value;
    ModMul(b * ps, inverse, p);
    assert (b * ps) * inverse == b * r;
  }

  // The ratio of two squares is a square, so its order divides q.
  lemma RatioOrder(r: nat, ps: nat, pc: nat, p: nat, q: nat)
    requires SafePrime(p, q) && NonzeroSquare(ps, p) && NonzeroSquare(pc, p)
    requires IsRatio(r, ps, pc, p) && r % p != 0
    ensures Pow(r, q) % p == 1
  {
    var v: nat :| v % p != 0 && IsSquareOf(ps, v, p);
    var w: nat :| w % p != 0 && IsSquareOf(pc, w, p);
    SquareOrder(v, p, q);
    SquareOrder(w, p, q);
    DivModUnique(ps, p, 0, ps);
    DivModUnique(pc, p, 0, pc);
    ModMulCongruent(pc, w * w, r, p);
    PowCongruent(r * (w * w), v * v, q, p);
    UnitFactor(r, w * w, q, p);
  }

  // A factor whose power is 1 does not show in the power of a product.
  lemma UnitFactor(r: nat, u: nat, q: nat, p: nat)
    requires p > 1 && Pow(u, q) % p == 1
    ensures Pow(r * u, q) % p == Pow(r, q) % p
  {
    PowOfProduct(r, u, q);
    ModMul(Pow(u, q), Pow(r, q), p);
    assert Pow(r, q) * Pow(u, q) == Pow(u, q) * Pow(r, q) && 1 * Pow(r, q) == Pow(r, q);
  }

  lemma PowCongruent(x: int, y: int, e: nat, p: nat)
    requires p > 0 && x % p == y % p
    ensures Pow(x, e) % p == Pow(y, e) % p
  {
    PowMod(x, e, p);
    PowMod(y, e, p);
  }

  // Multiplying by r before raising to the power a changes nothing exactly when r^a is 1.
  lemma ScaledSecret(b: nat, r: nat, a: nat, p: nat)
    requires Prime(p) && b % p != 0
    ensures SharedSecret((b * r) % p, a, p) == SharedSecret(b, a, p) <==> Pow(r, a) % p == 1
  {
    PowMod(b * r, a, p);
    PowOfProduct(b, r, a);
    PowNonzero(b, a, p);
    PowNonnegative(b, a);
    var c := Pow(b, a);
    DivModUnique(1, p, 0, 1);
    if (c * Pow(r, a)) % p == c % p {
      assert c * 1 == c;
      Cancel(p, c, Pow(r, a), 1);
    }
    if Pow(r, a) % p == 1 {
      ModMulCongruent(Pow(r, a), 1, c, p);
    }
  }

  // The two ends derive the same secret exactly when their password elements agree or the client's
  // element is one of the two that the range check rejects.
  lemma SecretsAgreeExactly(a: nat, b: nat, pc: nat, ps: nat, p: nat, q: nat)
    requires SafePrime(p, q) && NonzeroSquare(pc, p) && NonzeroSquare(ps, p)
    ensures var B, A := PublicElement(b, p), PublicElement(a, p);
      var unmasked := Unmask(Mask(B, ps, p), pc, p);
      && unmasked.Success?
      && (SharedSecret(unmasked.value, a, p) == SharedSecret(A, b, p)
          <==> pc == ps || A == 1 || A == p - 1)
  {
    var B := PublicElement(b, p);
    GeneratorNonzero(p, q, b);
    ElementInvertible(pc, p);
    var r := ps * ModInvOf(pc, p).value;
    RatioOf(ps, pc, ModInvOf(pc, p).value, p);
    UnmaskRatio(B, ps, pc, r, p);
    DivModUnique(B, p, 0, B);
    ScaledSecret(B, r, a, p);
    Exchange(a, b, p);
    RatioOrder(r, ps, pc, p, q);
    PrimeOrder(r, a, q, p);
    DegenerateElement(a, p, q);
  }
}
