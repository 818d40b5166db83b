/** crypto/hkdf.py: HKDF-Expand (section 2.3 of RFC 5869), and the browser's one-block version. */
module Hkdf {
  import opened Bytes
  import opened Results

  const HASH_LEN: nat := 32

  // T(i) of RFC 5869: each block is keyed by the PRK and chained to the one before.
  function Block(mac: Mac, prk: Bytes, info: Bytes, i: nat): Bytes
    requires i <= 255
  {
    if i == 0 then [] else mac(prk, Block(mac, prk, info, i - 1) + info + [i])
  }

  // T(1) | T(2) | ... | T(n)
  function Blocks(mac: Mac, prk: Bytes, info: Bytes, n: nat): Bytes
    requires n <= 255
  {
    if n == 0 then [] else Blocks(mac, prk, info, n - 1) + Block(mac, prk, info, n)
  }

  // The number of blocks `length` bytes take.
  function BlockCount(length: nat): nat {
    (length + HASH_LEN - 1) / HASH_LEN
  }

  function Expand(mac: Mac, prk: Bytes, info: Bytes, length: int): Result<Bytes> {
    if length < 0 || BlockCount(length) > 255 then Failure(ValueError)
    else Success(Take(Blocks(mac, prk, info, BlockCount(length)), length))
  }

  method HkdfExpand(mac: Mac, prk: Bytes, info: Bytes, length: int) returns (r: Result<Bytes>)
    ensures r == Expand(mac, prk, info, length)
    ensures r == Failure(ValueError) <==> length < 0 || length > 255 * 32
  {
    if length < 0 {
      return Failure(ValueError);
    }
    var n := (length + HASH_LEN - 1) / HASH_LEN;
    if n > 255 {
      return Failure(ValueError);
    }
    var okm: Bytes := [];
    var previous: Bytes := [];
    for counter := 1 to n + 1
      invariant previous == Block(mac, prk, info, counter - 1)
      invariant okm == Blocks(mac, prk, info, counter - 1)
    {
      previous := mac(prk, previous + info + [counter]);
      okm := okm + previous;
    }
    return Success(Take(okm, length));
  }

  ghost predicate MacWidth(mac: Mac) {
    forall key: Bytes, data: Bytes :: |mac(key, data)| == 32
  }

  lemma {:induction false} BlocksSize(mac: Mac, prk: Bytes, info: Bytes, n: nat)
    requires n <= 255 && MacWidth(mac)
    ensures |Blocks(mac, prk, info, n)| == HASH_LEN * n
  {
    if n > 0 {
      BlocksSize(mac, prk, info, n - 1);
    }
  }

  // With a 32-byte digest exactly `length` bytes come out, for every length up to 255 blocks.
  lemma ExpandSize(mac: Mac, prk: Bytes, info: Bytes, length: nat)
    requires MacWidth(mac)
    ensures Expand(mac, prk, info, length).Success? <==> length <= 255 * 32
    ensures Expand(mac, prk, info, length).Success? ==> |Expand(mac, prk, info, length).value| == length
  {
    if BlockCount(length) <= 255 {
      BlocksSize(mac, prk, info, BlockCount(length));
    }
  }

  lemma {:induction false} BlocksPrefix(mac: Mac, prk: Bytes, info: Bytes, m: nat, n: nat)
    requires m <= n <= 255
    ensures Blocks(mac, prk, info, m) <= Blocks(mac, prk, info, n)
    decreases n - m
  {
    if m < n {
      BlocksPrefix(mac, prk, info, m, n - 1);
    }
  }

  // A shorter output is the beginning of a longer one.
  lemma ShorterIsPrefix(mac: Mac, prk: Bytes, info: Bytes, short: nat, long: nat)
    requires short <= long && Expand(mac, prk, info, long).Success?
    ensures Expand(mac, prk, info, short).Success?
    ensures Expand(mac, prk, info, short).value <= Expand(mac, prk, info, long).value
  {
    assert BlockCount(short) <= BlockCount(long);
    BlocksPrefix(mac, prk, info, BlockCount(short), BlockCount(long));
  }

  // Two blocks: the second is keyed like the first and covers it, the label and the counter 2.
  lemma TwoBlocks(mac: Mac, prk: Bytes, info: Bytes, length: nat)
    requires HASH_LEN < length <= 2 * HASH_LEN
    ensures var first := mac(prk, info + [1]);
      Expand(mac, prk, info, length) == Success(Take(first + mac(prk, first + info + [2]), length))
  {
    assert BlockCount(length) == 2;
    assert Block(mac, prk, info, 0) + info + [1] == info + [1];
    assert Block(mac, prk, info, 1) == mac(prk, info + [1]);
    assert Blocks(mac, prk, info, 1) == [] + Block(mac, prk, info, 1) == Block(mac, prk, info, 1);
    assert Block(mac, prk, info, 2) == mac(prk, Block(mac, prk, info, 1) + info + [2]);
    assert Blocks(mac, prk, info, 2) == Blocks(mac, prk, info, 1) + Block(mac, prk, info, 2);
  }

  // ui/covenant.js hkdfExpand: one block only.
  function BrowserExpand(mac: Mac, prk: Bytes, info: Bytes, length: nat): Bytes {
    Take(mac(prk, info + [1]), length)
  }

  // For up to one block of output the browser derives what the server derives.
  lemma BrowserExpandAgrees(mac: Mac, prk: Bytes, info: Bytes, length: nat)
    requires 0 < length <= HASH_LEN
    ensures Expand(mac, prk, info, length) == Success(BrowserExpand(mac, prk, info, length))
  {
    assert BlockCount(length) == 1;
    assert Block(mac, prk, info, 0) + info + [1] == info + [1];
    assert Blocks(mac, prk, info, 0) + Block(mac, prk, info, 1) == Block(mac, prk, info, 1);
    assert Blocks(mac, prk, info, 1) == Block(mac, prk, info, 1);
  }
}
