/** Byte strings and the fixed-width big-endian integers every wire format here is built from. */
module Bytes {
  import opened Arithmetic

  type Byte = b: int | 0 <= b < 256 witness 0

  type Bytes = seq<Byte>

  // A keyed digest such as HMAC-SHA256: key and data to tag.
  type Mac = (Bytes, Bytes) -> Bytes

  // An ASCII literal as bytes.
  function Ascii(s: string): (b: Bytes)
    ensures |b| == |s|
  {
    seq(|s|, i requires 0 <= i < |s| => s[i] as int % 256)
  }

  // b[:n]
  function Take(b: Bytes, n: nat): Bytes {
    if n <= |b| then b[..n] else b
  }

  function Pow256(n: nat): (r: nat)
    ensures 0 < r
  {
    if n == 0 then 1 else 256 * Pow256(n - 1)
  }

  // n.to_bytes(width, "big"); the caller has checked that n fits.
  function ToBytes(n: nat, width: nat): (b: Bytes)
    ensures |b| == width
  {
    if width == 0 then [] else ToBytes(n / 256, width - 1) + [n % 256]
  }

  // int.from_bytes(b, "big")
  function FromBytes(b: Bytes): (n: nat)
    ensures n < Pow256(|b|)
  {
    if b == [] then 0 else
      assert Pow256(|b|) == 256 * Pow256(|b[..|b| - 1]|);
      256 * FromBytes(b[..|b| - 1]) + b[|b| - 1]
  }

  lemma {:induction false} FromToBytes(n: nat, width: nat)
    requires n < Pow256(width)
    ensures FromBytes(ToBytes(n, width)) == n
  {
    if width > 0 {
      FromToBytes(n / 256, width - 1);
      var b := ToBytes(n, width);
      assert b[..|b| - 1] == ToBytes(n / 256, width - 1);
    }
  }

  lemma {:induction false} ToFromBytes(b: Bytes)
    ensures ToBytes(FromBytes(b), |b|) == b
  {
    if b != [] {
      ToFromBytes(b[..|b| - 1]);
      assert b == b[..|b| - 1] + [b[|b| - 1]];
    }
  }

  // Big-endian: byte i counts the powers of 256 that the bytes after it leave.
  lemma {:induction false} ToBytesAt(n: nat, width: nat, i: nat)
    requires i < width
    ensures ToBytes(n, width)[i] == (n / Pow256(width - 1 - i)) % 256
  {
    if i < width - 1 {
      ToBytesAt(n / 256, width - 1, i);
      DivTwice(n, 256, Pow256(width - 2 - i));
    }
  }

  // Two numbers that fit the width have different encodings unless they are equal.
  lemma ToBytesInjective(m: nat, n: nat, width: nat)
    requires m < Pow256(width) && n < Pow256(width)
    requires ToBytes(m, width) == ToBytes(n, width)
    ensures m == n
  {
    FromToBytes(m, width);
    FromToBytes(n, width);
  }

  const WORD64: nat := 0x1_0000_0000_0000_0000

  lemma Pow256Of4()
    ensures Pow256(2) == 0x1_0000 && Pow256(4) == 0x1_0000_0000
  {
    assert Pow256(4) == 256 * (256 * Pow256(2));
  }

  lemma Pow256Of8()
    ensures Pow256(8) == WORD64
  {
    Pow256Of4();
    assert Pow256(8) == 256 * (256 * (256 * (256 * Pow256(4))));
  }
}
