/** crypto/huffman.py: compress and decompress. */
module HuffmanCodec {
  import opened Bytes
  import opened Results
  import opened HuffmanTrees
  import opened HuffmanCodes
  import opened Arithmetic
  import opened Sequences

  const LIMIT: nat := 0x1_0000_0000

  // --- Counter and the symbol orders ------------------------------------------------------------

  // collections.Counter
  function Counter(data: Bytes): (freq: Frequencies)
    ensures forall s :: s in freq <==> s in data
  {
    if data == [] then map[] else
      var n := |data| - 1;
      var before := Counter(data[..n]);
      assert data == data[..n] + [data[n]];
      before[data[n] := (if data[n] in before then before[data[n]] else 0) + 1]
  }

  // The order in which a Counter iterates: by first occurrence.
  function FirstSeen(data: Bytes): (order: seq<Byte>)
    ensures NoDuplicates(order) && forall s :: s in order <==> s in data
  {
    if data == [] then [] else
      var n := |data| - 1;
      var before := FirstSeen(data[..n]);
      assert data == data[..n] + [data[n]];
      if data[n] in before then before else before + [data[n]]
  }

  // sorted(freq), from symbol `low` on.
  function SortedFrom(freq: Frequencies, low: nat): (order: seq<Byte>)
    requires low <= 256
    ensures forall s :: s in order <==> s in freq && low <= s
    ensures forall i, j :: 0 <= i < j < |order| ==> order[i] < order[j]
    decreases 256 - low
  {
    if low == 256 then [] else
      var rest := SortedFrom(freq, low + 1);
      assert forall i :: 0 <= i < |rest| ==> rest[i] in rest;
      if low in freq then [low as Byte] + rest else rest
  }

  // --- bits -------------------------------------------------------------------------------------

  // The `width` low bits of n, most significant first.
  function BitString(n: nat, width: nat): (bits: Bits)
    ensures |bits| == width
  {
    if width == 0 then [] else BitString(n / 2, width - 1) + [n % 2 == 1]
  }

  // int(bits, 2)
  function ParseBits(bits: Bits): (n: nat)
    ensures n < Pow2(|bits|)
  {
    if bits == [] then 0 else
      2 * ParseBits(bits[..|bits| - 1]) + (if bits[|bits| - 1] then 1 else 0)
  }

  function Zeros(n: nat): (bits: Bits)
    ensures |bits| == n
  {
    seq(n, i => false)
  }

  function Padding(n: nat): (k: nat)
    ensures k < 8 && (n + k) % 8 == 0
  {
    var minus: int := 0 - n;
    minus % 8
  }

  function PackPadded(bits: Bits): (packed: Bytes)
    requires |bits| % 8 == 0
    ensures |packed| == |bits| / 8
  {
    if bits == [] then [] else
      Pow2Of8();
      [ParseBits(bits[..8])] + PackPadded(bits[8..])
  }

  // _pack_bits
  function PackBits(bits: Bits): (packed: Bytes) {
    PackPadded(bits + Zeros(Padding(|bits|)))
  }

  function UnpackBits(packed: Bytes): (bits: Bits)
    ensures |bits| == 8 * |packed|
  {
    if packed == [] then [] else BitString(packed[0], 8) + UnpackBits(packed[1..])
  }

  lemma {:induction false} BitStringOfParse(bits: Bits)
    ensures BitString(ParseBits(bits), |bits|) == bits
  {
    if bits != [] {
      var initial, last := bits[..|bits| - 1], bits[|bits| - 1];
      BitStringOfParse(initial);
      DivModUnique(ParseBits(bits), 2, ParseBits(initial), if last then 1 else 0);
      assert bits == initial + [last];
    }
  }

  lemma {:induction false} UnpackPadded(bits: Bits)
    requires |bits| % 8 == 0
    ensures UnpackBits(PackPadded(bits)) == bits
  {
    if bits != [] {
      BitStringOfParse(bits[..8]);
      UnpackPadded(bits[8..]);
      assert PackPadded(bits)[1..] == PackPadded(bits[8..]);
      assert bits == bits[..8] + bits[8..];
    }
  }

  lemma {:induction false} UnpackAppend(a: Bytes, b: Bytes)
    ensures UnpackBits(a + b) == UnpackBits(a) + UnpackBits(b)
  {
    if a == [] {
      assert a + b == b;
    } else {
      UnpackAppend(a[1..], b);
      assert (a + b)[1..] == a[1..] + b;
    }
  }

  // (n >> bit) & 1 reads the bit string at its mirrored position.
  lemma {:induction false} BitAt(n: nat, width: nat, bit: nat)
    requires bit < width
    ensures BitString(n, width)[width - 1 - bit] == ((n / Pow2(bit)) % 2 == 1)
  {
    if bit > 0 {
      BitAt(n / 2, width - 1, bit - 1);
      DivTwice(n, 2, Pow2(bit - 1));
    }
  }

  // --- the wire format --------------------------------------------------------------------------

  function Table(freq: Frequencies, symbols: seq<Byte>): (table: Bytes)
    requires forall s :: s in symbols ==> s in freq
    ensures |table| == 5 * |symbols|
  {
    if symbols == [] then []
    else [symbols[0]] + ToBytes(freq[symbols[0]], 4) + Table(freq, symbols[1..])
  }

  function Encode(codes: map<Byte, Bits>, data: Bytes): Bits
    requires forall s :: s in data ==> s in codes
  {
    if data == [] then [] else codes[data[0]] + Encode(codes, data[1..])
  }

  ghost function HuffmanCode(freq: Frequencies): (codes: map<Byte, Bits>)
    requires freq != map[]
    ensures codes.Keys == freq.Keys
  {
    HuffmanCost(freq);
    Codes(HuffmanTree(freq), [])
  }

  lemma CounterOf(data: Bytes)
    requires data != []
    ensures Counter(data) != map[] && forall s :: s in data ==> s in HuffmanCode(Counter(data))
  {
    assert data[0] in Counter(data);
  }

  ghost function Compress(data: Bytes): Result<Bytes> {
    if |data| >= LIMIT then Failure(OverflowError)
    else if data == [] then Success(ToBytes(0, 4) + ToBytes(0, 2))
    else
      CounterOf(data);
      var freq := Counter(data);
      Success(Assemble(|data|, freq, PackBits(Encode(HuffmanCode(freq), data))))
  }

  // Header, frequency table and packed codes.
  function Assemble(length: nat, freq: Frequencies, packed: Bytes): Bytes {
    ToBytes(length, 4) + ToBytes(|freq|, 2) + Table(freq, SortedFrom(freq, 0)) + packed
  }

  // blob[from:to] clamps at the end of the blob.
  function Slice(blob: Bytes, from: nat, to: nat): Bytes
    requires from <= to
  {
    if |blob| <= from then [] else if |blob| <= to then blob[from..] else blob[from..to]
  }

  // The frequency table, `count` entries of 5 bytes from `pos` on.
  function ParseTable(blob: Bytes, pos: nat, count: nat, freq: Frequencies): Result<Frequencies>
    decreases count
  {
    if count == 0 then Success(freq)
    else if pos >= |blob| then Failure(IndexError)
    else ParseTable(blob, pos + 5, count - 1, freq[blob[pos] := FromBytes(Slice(blob, pos + 1, pos + 5))])
  }

  function Child(node: Tree, bit: bool): Tree
    requires node.Node?
  {
    if bit then node.right else node.left
  }

  // The symbols met by walking the tree along the bits, at most `need` of them.
  function DecodeBits(root: Tree, node: Tree, bits: Bits, need: nat): Bytes
    requires root.Node? && node.Node? && need > 0
    decreases |bits|
  {
    if bits == [] then []
    else
      var next := Child(node, bits[0]);
      if next.Node? then DecodeBits(root, next, bits[1..], need)
      else [next.symbol] + (if need == 1 then [] else DecodeBits(root, root, bits[1..], need - 1))
  }

  // What the payload stands for, once the frequency table is known.
  ghost function Expand(freq: Frequencies, payload: Bytes, length: nat): Result<Bytes>
    requires length > 0
  {
    if freq == map[] then Failure(IndexError)
    else match HuffmanTree(freq)
      case Leaf(s) => Success(seq(length, i => s))
      case Node(l, r) => Success(DecodeBits(Node(l, r), Node(l, r), UnpackBits(payload), length))
  }

  ghost function Decompress(blob: Bytes): Result<Bytes> {
    var length := FromBytes(Slice(blob, 0, 4));
    var count := FromBytes(Slice(blob, 4, 6));
    if length == 0 then Success([]) else
      var freq :- ParseTable(blob, 6, count, map[]);
      Expand(freq, Payload(blob, count), length)
  }

  function Payload(blob: Bytes, count: nat): Bytes {
    if 6 + 5 * count <= |blob| then blob[6 + 5 * count..] else []
  }

  // --- the imperative code ----------------------------------------------------------------------

  method WriteTable(freq: Frequencies, symbols: seq<Byte>) returns (table: Bytes)
    requires forall s :: s in symbols ==> s in freq
    ensures table == Table(freq, symbols)
  {
    table := [];
    for i := 0 to |symbols|
      invariant table + Table(freq, symbols[i..]) == Table(freq, symbols)
    {
      TableRow(freq, symbols, i, table);
      table := table + [symbols[i]];
      table := table + ToBytes(freq[symbols[i]], 4);
    }
  }

  lemma TableRow(freq: Frequencies, symbols: seq<Byte>, i: nat, table: Bytes)
    requires i < |symbols| && forall s :: s in symbols ==> s in freq
    ensures table + Table(freq, symbols[i..])
         == table + [symbols[i]] + ToBytes(freq[symbols[i]], 4) + Table(freq, symbols[i + 1..])
  {
    assert symbols[i..][1..] == symbols[i + 1..];
    Regroup(table, [symbols[i]], ToBytes(freq[symbols[i]], 4), Table(freq, symbols[i + 1..]));
  }

  lemma Regroup(a: Bytes, b: Bytes, c: Bytes, d: Bytes)
    ensures a + (b + c + d) == a + b + c + d
  {
  }

  method CompressBlob(data: Bytes) returns (r: Result<Bytes>)
    ensures r == Compress(data)
  {
    if |data| >= LIMIT {
      return Failure(OverflowError);
    }
    var out := ToBytes(|data|, 4);
    if data == [] {
      out := out + ToBytes(0, 2);
      return Success(out);
    }
    var freq := Counter(data);
    CounterOf(data);
    out := out + ToBytes(|freq|, 2);
    var entries := WriteTable(freq, SortedFrom(freq, 0));
    out := out + entries;
    var codes := FillCodes(freq, FirstSeen(data));
    out := out + PackBits(Encode(codes, data));
    return Success(out);
  }

  method FillCodes(freq: Frequencies, order: seq<Byte>) returns (codes: map<Byte, Bits>)
    requires freq != map[] && NoDuplicates(order) && forall s :: s in order <==> s in freq
    ensures codes == HuffmanCode(freq)
  {
    var tree := BuildTree(freq, order);
    codes := CodesOf(tree.value);
  }

  method CodesOf(tree: Tree) returns (codes: map<Byte, Bits>)
    ensures codes == Codes(tree, [])
  {
    var table := new CodeTable();
    table.BuildCodes(tree, []);
    codes := table.codes;
  }

  // The bits of `byte` from the given one down to bit 0.
  function LowBits(byte: Byte, count: nat): Bits
    requires count <= 8
  {
    BitString(byte, 8)[8 - count..]
  }

  lemma NextBit(byte: Byte, bit: nat, rest: Bits)
    requires bit < 8
    ensures LowBits(byte, bit + 1) + rest == [(byte / Pow2(bit)) % 2 == 1] + (LowBits(byte, bit) + rest)
  {
    BitAt(byte, 8, bit);
    DropOne(BitString(byte, 8), 7 - bit, rest);
  }

  lemma DropOne(bits: Bits, k: nat, rest: Bits)
    requires k < |bits|
    ensures bits[k..] + rest == [bits[k]] + (bits[k + 1..] + rest)
  {
  }

  lemma ByteBounds(byte: Byte, rest: Bits)
    ensures LowBits(byte, 8) == BitString(byte, 8) && LowBits(byte, 0) + rest == rest
  {
    var bits := BitString(byte, 8);
    assert bits[0..] == bits && bits[8..] == [];
  }

  lemma DecodeStep(root: Tree, node: Tree, bit: bool, rest: Bits, need: nat)
    requires root.Node? && node.Node? && need > 0
    ensures var next := Child(node, bit);
      DecodeBits(root, node, [bit] + rest, need) ==
        if next.Node? then DecodeBits(root, next, rest, need)
        else [next.symbol] + if need == 1 then [] else DecodeBits(root, root, rest, need - 1)
  {
    assert ([bit] + rest)[1..] == rest;
  }

  // Walking the bits of `byte` leads from `start` to `node` and yields `decoded`, at most `need` symbols.
  ghost predicate ByteWalked(root: Tree, start: Tree, node: Tree, byte: Byte, rest: Bits, decoded: Bytes, need: nat)
    requires root.Node? && start.Node? && node.Node?
  {
    && 0 < need && |decoded| <= need
    && DecodeBits(root, start, BitString(byte, 8) + rest, need)
    == decoded + if |decoded| == need then [] else DecodeBits(root, node, rest, need - |decoded|)
  }

  // The inner loop: one payload byte, most significant bit first; `rest` are the bits of the later bytes.
  method WalkByte(root: Tree, start: Tree, byte: Byte, need: nat, ghost rest: Bits)
    returns (node: Tree, decoded: Bytes)
    requires root.Node? && start.Node? && need > 0
    ensures node.Node? && ByteWalked(root, start, node, byte, rest, decoded, need)
  {
    decoded := [];
    node := start;
    ghost var all := DecodeBits(root, start, BitString(byte, 8) + rest, need);
    ByteBounds(byte, rest);
    var bit := 8;
    while bit > 0
      invariant 0 <= bit <= 8 && node.Node? && |decoded| < need
      invariant all == decoded + DecodeBits(root, node, LowBits(byte, bit) + rest, need - |decoded|)
    {
      bit := bit - 1;
      NextBit(byte, bit, rest);
      var one := (byte / Pow2(bit)) % 2 == 1;
      DecodeStep(root, node, one, LowBits(byte, bit) + rest, need - |decoded|);
      var next := if !one then node.left else node.right;
      if next.Leaf? {
        ghost var left := need - |decoded|;
        ghost var later := if left == 1 then [] else DecodeBits(root, root, LowBits(byte, bit) + rest, left - 1);
        Reassociate(decoded, [next.symbol], later);
        decoded := decoded + [next.symbol];
        node := root;
        if |decoded| == need {
          return;
        }
      } else {
        node := next;
      }
    }
  }

  // Where the walk stands after i payload bytes: `result` plus what is still to come is the whole text.
  ghost predicate Walked(root: Tree, node: Tree, payload: Bytes, i: nat, result: Bytes, length: nat)
    requires root.Node? && i <= |payload|
  {
    && node.Node? && |result| < length
    && result + DecodeBits(root, node, UnpackBits(payload[i..]), length - |result|)
    == DecodeBits(root, root, UnpackBits(payload), length)
  }

  lemma UnpackStep(payload: Bytes, i: nat)
    requires i < |payload|
    ensures UnpackBits(payload[i..]) == BitString(payload[i], 8) + UnpackBits(payload[i + 1..])
  {
    assert payload[i..][1..] == payload[i + 1..];
  }

  // Gluing the text decoded from one byte to the text decoded before it.
  lemma Glue(result: Bytes, decoded: Bytes, later: Bytes, piece: Bytes, all: Bytes)
    requires result + piece == all && piece == decoded + later
    ensures (result + decoded) + later == all
  {
  }

  lemma WalkedFurther(root: Tree, node: Tree, next: Tree, payload: Bytes, i: nat,
                      result: Bytes, decoded: Bytes, length: nat)
    requires root.Node? && i < |payload| && Walked(root, node, payload, i, result, length) && next.Node?
    requires ByteWalked(root, node, next, payload[i], UnpackBits(payload[i + 1..]), decoded, length - |result|)
    ensures |result + decoded| == length ==> result + decoded == DecodeBits(root, root, UnpackBits(payload), length)
    ensures |result + decoded| < length ==> Walked(root, next, payload, i + 1, result + decoded, length)
  {
    var rest, left := UnpackBits(payload[i + 1..]), length - |result|;
    UnpackStep(payload, i);
    Glue(result, decoded, if |decoded| == left then [] else DecodeBits(root, next, rest, left - |decoded|),
      DecodeBits(root, node, BitString(payload[i], 8) + rest, left),
      DecodeBits(root, root, UnpackBits(payload), length));
  }

  // The decoding loop over the payload; it stops as soon as all symbols are there.
  method WalkPayload(root: Tree, payload: Bytes, length: nat) returns (result: Bytes)
    requires root.Node? && length > 0
    ensures result == DecodeBits(root, root, UnpackBits(payload), length)
  {
    result := [];
    var node := root;
    for i := 0 to |payload|
      invariant Walked(root, node, payload, i, result, length)
    {
      var next, decoded := WalkByte(root, node, payload[i], length - |result|, UnpackBits(payload[i + 1..]));
      WalkedFurther(root, node, next, payload, i, result, decoded, length);
      result, node := result + decoded, next;
      if |result| == length {
        return;
      }
    }
  }

  lemma AppendNew(order: seq<Byte>, symbol: Byte)
    requires NoDuplicates(order) && symbol !in order
    ensures NoDuplicates(order + [symbol])
    ensures forall s :: s in order + [symbol] <==> s in order || s == symbol
  {
  }

  // The decoder's table loop; it also records the insertion order of the dict it fills.
  method ReadTable(blob: Bytes, count: nat) returns (freq: Frequencies, order: seq<Byte>, complete: bool)
    ensures complete ==> ParseTable(blob, 6, count, map[]) == Success(freq)
    ensures !complete ==> ParseTable(blob, 6, count, map[]) == Failure(IndexError)
    ensures NoDuplicates(order) && forall s :: s in order <==> s in freq
  {
    freq, order := map[], [];
    var pos := 6;
    for i := 0 to count
      invariant pos == 6 + 5 * i
      invariant NoDuplicates(order) && forall s :: s in order <==> s in freq
      invariant ParseTable(blob, pos, count - i, freq) == ParseTable(blob, 6, count, map[])
    {
      if pos >= |blob| {
        complete := false;
        return;
      }
      var symbol := blob[pos];
      if symbol !in freq {
        AppendNew(order, symbol);
        order := order + [symbol];
      }
      freq := freq[symbol := FromBytes(Slice(blob, pos + 1, pos + 5))];
      pos := pos + 5;
    }
    complete := true;
  }

  method DecompressBlob(blob: Bytes) returns (r: Result<Bytes>)
    ensures r == Decompress(blob)
  {
    var length := FromBytes(Slice(blob, 0, 4));
    var count := FromBytes(Slice(blob, 4, 6));
    if length == 0 {
      return Success([]);
    }
    var freq, order, complete := ReadTable(blob, count);
    if !complete {
      return Failure(IndexError);
    }
    r := ExpandPayload(freq, order, Payload(blob, count), length);
  }

  method ExpandPayload(freq: Frequencies, order: seq<Byte>, payload: Bytes, length: nat) returns (r: Result<Bytes>)
    requires length > 0 && NoDuplicates(order) && forall s :: s in order <==> s in freq
    ensures r == Expand(freq, payload, length)
  {
    var tree := BuildTree(freq, order);
    if tree.Failure? {
      return Failure(tree.error);
    }
    match tree.value {
      case Leaf(s) =>
        return Success(seq(length, i => s));
      case Node(_, _) =>
        var result := WalkPayload(tree.value, payload, length);
        return Success(result);
    }
  }
}
