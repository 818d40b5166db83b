/** What compress and decompress guarantee together: round trip, exact size, shortest possible text. */
module HuffmanTheorems {
  import opened Bytes
  import opened Results
  import opened HuffmanTrees
  import opened HuffmanOptimality
  import opened HuffmanCodes
  import opened HuffmanCodec
  import opened SetSums
  import opened Sequences

  // --- round trip -------------------------------------------------------------------------------

  // Walking the tree along a symbol's path yields the symbol, whatever bits follow.
  lemma {:induction false} DecodeSymbol(root: Tree, node: Tree, s: Byte, rest: Bits, need: nat)
    requires root.Node? && node.Node? && need > 0 && s in Symbols(node)
    ensures DecodeBits(root, node, Path(node, s) + rest, need)
         == [s] + if need == 1 then [] else DecodeBits(root, root, rest, need - 1)
    decreases node
  {
    var bit := s !in Symbols(node.left);
    var next := Child(node, bit);
    var path := Path(next, s);
    assert Path(node, s) + rest == [bit] + (path + rest);
    DecodeStep(root, node, bit, path + rest, need);
    if next.Node? {
      DecodeSymbol(root, next, s, rest, need);
    } else {
      assert path + rest == rest;
    }
  }

  // One code in front of a decodable text is one symbol in front of the text.
  lemma DecodeCode(root: Tree, s: Byte, later: Bytes, rest: Bits)
    requires root.Node? && Distinct(root) && s in Symbols(root)
    requires later != [] ==> DecodeBits(root, root, rest, |later|) == later
    ensures DecodeBits(root, root, Codes(root, [])[s] + rest, |later| + 1) == [s] + later
  {
    CodesArePaths(root, [], s);
    assert [] + Path(root, s) == Path(root, s);
    DecodeSymbol(root, root, s, rest, |later| + 1);
  }

  lemma {:induction false} DecodeText(root: Tree, data: Bytes, rest: Bits)
    requires root.Node? && Distinct(root) && data != []
    requires forall s :: s in data ==> s in Symbols(root)
    ensures DecodeBits(root, root, Encode(Codes(root, []), data) + rest, |data|) == data
    decreases |data|
  {
    if |data| > 1 {
      DecodeText(root, data[1..], rest);
    }
    EncodeFirst(Codes(root, []), data, rest);
    DecodeCode(root, data[0], data[1..], Encode(Codes(root, []), data[1..]) + rest);
    FirstAndRest(data);
  }

  lemma EncodeFirst(codes: map<Byte, Bits>, data: Bytes, rest: Bits)
    requires data != [] && forall s :: s in data ==> s in codes
    ensures Encode(codes, data) + rest == codes[data[0]] + (Encode(codes, data[1..]) + rest)
  {
    Reassociate(codes[data[0]], Encode(codes, data[1..]), rest);
  }

  // The dict after the decoder has read the entries for `symbols`.
  ghost function Filled(freq: Frequencies, symbols: seq<Byte>, acc: Frequencies): Frequencies
    requires forall s :: s in symbols ==> s in freq
  {
    if symbols == [] then acc else Filled(freq, symbols[1..], acc[symbols[0] := freq[symbols[0]]])
  }

  lemma {:induction false} FilledAll(freq: Frequencies, symbols: seq<Byte>, acc: Frequencies)
    requires forall s :: s in symbols ==> s in freq
    requires forall s :: s in acc ==> s in freq && acc[s] == freq[s]
    requires forall s :: s in freq ==> s in acc || s in symbols
    ensures Filled(freq, symbols, acc) == freq
    decreases |symbols|
  {
    if symbols != [] {
      FilledAll(freq, symbols[1..], acc[symbols[0] := freq[symbols[0]]]);
    }
  }

  lemma {:induction false} ParseWrittenTable(before: Bytes, freq: Frequencies, symbols: seq<Byte>,
                                               after: Bytes, acc: Frequencies)
    requires forall s :: s in symbols ==> s in freq && freq[s] < LIMIT
    ensures ParseTable(before + Table(freq, symbols) + after, |before|, |symbols|, acc)
         == Success(Filled(freq, symbols, acc))
    decreases |symbols|
  {
    if symbols != [] {
      var s := symbols[0];
      var entry := [s] + ToBytes(freq[s], 4);
      var blob := before + Table(freq, symbols) + after;
      assert blob == (before + entry) + Table(freq, symbols[1..]) + after;
      assert blob[|before|] == s;
      assert Slice(blob, |before| + 1, |before| + 5) == ToBytes(freq[s], 4);
      Pow256Of4();
      FromToBytes(freq[s], 4);
      ParseWrittenTable(before + entry, freq, symbols[1..], after, acc[s := freq[s]]);
    }
  }

  lemma {:induction false} CountsBounded(data: Bytes)
    ensures forall s :: s in Counter(data) ==> 0 < Counter(data)[s] <= |data|
  {
    if data != [] {
      CountsBounded(data[..|data| - 1]);
    }
  }

  lemma SymbolCount(freq: Frequencies)
    ensures |SortedFrom(freq, 0)| == |freq| <= 256
  {
    var order := SortedFrom(freq, 0);
    ElementsSize(order);
    assert Elements(order) == freq.Keys;
    AtMost(order, 256);
  }

  lemma {:induction false} AtMost(order: seq<Byte>, bound: nat)
    requires bound <= 256 && forall i :: 0 <= i < |order| ==> order[i] < bound
    requires forall i, j :: 0 <= i < j < |order| ==> order[i] < order[j]
    ensures |order| <= bound
    decreases |order|
  {
    if order != [] {
      AtMost(order[..|order| - 1], order[|order| - 1]);
    }
  }

  lemma Header(length: nat, count: nat, rest: Bytes)
    requires length < LIMIT && count < 65536
    ensures FromBytes(Slice(ToBytes(length, 4) + ToBytes(count, 2) + rest, 0, 4)) == length
    ensures FromBytes(Slice(ToBytes(length, 4) + ToBytes(count, 2) + rest, 4, 6)) == count
  {
    Pow256Of4();
    TwoFields(ToBytes(length, 4), ToBytes(count, 2), rest);
    FromToBytes(length, 4);
    FromToBytes(count, 2);
  }

  lemma TwoFields(a: Bytes, b: Bytes, rest: Bytes)
    ensures Slice(a + b + rest, 0, |a|) == a && Slice(a + b + rest, |a|, |a| + |b|) == b
  {
  }

  lemma OneSymbol(data: Bytes, s: Byte)
    requires forall b :: b in data ==> b == s
    ensures data == seq(|data|, i => s)
  {
    assert forall i :: 0 <= i < |data| ==> data[i] in data;
  }

  // The packed bits decode to the text, whatever follows them.
  lemma DecodePacked(root: Tree, data: Bytes, trailer: Bytes)
    requires root.Node? && Distinct(root) && data != []
    requires forall s :: s in data ==> s in Symbols(root)
    ensures DecodeBits(root, root, UnpackBits(PackBits(Encode(Codes(root, []), data)) + trailer), |data|) == data
  {
    var bits := Encode(Codes(root, []), data);
    var rest := UnpackPacked(bits, trailer);
    DecodeText(root, data, rest);
  }

  lemma UnpackPacked(bits: Bits, trailer: Bytes) returns (rest: Bits)
    ensures UnpackBits(PackBits(bits) + trailer) == bits + rest
  {
    var zeros := Zeros(Padding(|bits|));
    UnpackAppend(PackBits(bits), trailer);
    UnpackPadded(bits + zeros);
    rest := zeros + UnpackBits(trailer);
    Reassociate(bits, zeros, UnpackBits(trailer));
  }

  lemma ExpandPacked(data: Bytes, trailer: Bytes)
    requires data != []
    requires Counter(data) != map[] && forall s :: s in data ==> s in HuffmanCode(Counter(data))
    ensures Expand(Counter(data), PackBits(Encode(HuffmanCode(Counter(data)), data)) + trailer, |data|) == Success(data)
  {
    var freq := Counter(data);
    HuffmanCost(freq);
    match HuffmanTree(freq)
    case Leaf(s) =>
      OneSymbol(data, s);
    case Node(l, r) =>
      DecodePacked(Node(l, r), data, trailer);
  }

  // Lossless, and bytes after the blob are ignored.
  lemma RoundTrip(data: Bytes, trailer: Bytes)
    requires |data| < LIMIT
    ensures Compress(data).Success? && Decompress(Compress(data).value + trailer) == Success(data)
  {
    if data == [] {
      var blob := ToBytes(0, 4) + ToBytes(0, 2) + trailer;
      assert Slice(blob, 0, 4) == ToBytes(0, 4);
      FromToBytes(0, 4);
    } else {
      NonemptyRoundTrip(data, trailer);
    }
  }

  lemma TableRoundTrip(head: Bytes, freq: Frequencies, after: Bytes)
    requires |head| == 6 && forall s :: s in freq ==> freq[s] < LIMIT
    ensures ParseTable(head + Table(freq, SortedFrom(freq, 0)) + after, 6, |freq|, map[]) == Success(freq)
    ensures Payload(head + Table(freq, SortedFrom(freq, 0)) + after, |freq|) == after
  {
    SymbolCount(freq);
    ParseWrittenTable(head, freq, SortedFrom(freq, 0), after, map[]);
    FilledAll(freq, SortedFrom(freq, 0), map[]);
  }

  // Header and table tell the decoder what it needs; the payload is everything after them.
  lemma DecompressAssembled(length: nat, freq: Frequencies, packed: Bytes, trailer: Bytes)
    requires 0 < length < LIMIT && forall s :: s in freq ==> freq[s] < LIMIT
    ensures Decompress(Assemble(length, freq, packed) + trailer) == Expand(freq, packed + trailer, length)
  {
    var head := ToBytes(length, 4) + ToBytes(|freq|, 2);
    var table := Table(freq, SortedFrom(freq, 0));
    SymbolCount(freq);
    var blob := Assemble(length, freq, packed) + trailer;
    assert blob == head + (table + (packed + trailer)) && blob == head + table + (packed + trailer) by {
      Reassociate4(head, table, packed, trailer);
    }
    Header(length, |freq|, table + (packed + trailer));
    TableRoundTrip(head, freq, packed + trailer);
  }

  lemma NonemptyRoundTrip(data: Bytes, trailer: Bytes)
    requires 0 < |data| < LIMIT
    ensures Decompress(Compress(data).value + trailer) == Success(data)
  {
    CounterOf(data);
    CountsBounded(data);
    DecompressAssembled(|data|, Counter(data), PackBits(Encode(HuffmanCode(Counter(data)), data)), trailer);
    ExpandPacked(data, trailer);
  }

  // --- a blob that is cut short -----------------------------------------------------------------

  lemma {:induction false} DecodeFewer(root: Tree, node: Tree, bits: Bits, k: nat, need: nat)
    requires root.Node? && node.Node? && need > 0 && k <= |bits|
    ensures DecodeBits(root, node, bits[..k], need) <= DecodeBits(root, node, bits, need)
    decreases |bits|
  {
    if k > 0 {
      var next := Child(node, bits[0]);
      assert bits[..k][1..] == bits[1..][..k - 1];
      if next.Node? {
        DecodeFewer(root, next, bits[1..], k - 1, need);
      } else if need > 1 {
        DecodeFewer(root, root, bits[1..], k - 1, need - 1);
      }
    }
  }

  lemma UnpackFewer(packed: Bytes, m: nat)
    requires m <= |packed|
    ensures 8 * m <= |UnpackBits(packed)| && UnpackBits(packed[..m]) == UnpackBits(packed)[..8 * m]
  {
    UnpackAppend(packed[..m], packed[m..]);
    assert packed[..m] + packed[m..] == packed;
  }

  lemma CutAssembled(length: nat, freq: Frequencies, packed: Bytes, m: nat)
    requires m <= |packed|
    ensures var n := 6 + 5 * |SortedFrom(freq, 0)| + m;
      n <= |Assemble(length, freq, packed)|
      && Assemble(length, freq, packed)[..n] == Assemble(length, freq, packed[..m])
  {
  }

  lemma ExpandFewer(data: Bytes, packed: Bytes, m: nat)
    requires |Counter(data)| >= 2 && m <= |packed| && Counter(data) != map[]
    requires Expand(Counter(data), packed, |data|) == Success(data)
    ensures Expand(Counter(data), packed[..m], |data|).Success?
    ensures Expand(Counter(data), packed[..m], |data|).value <= data
  {
    HuffmanWords(Counter(data));
    var root := HuffmanTree(Counter(data));
    UnpackFewer(packed, m);
    DecodeFewer(root, root, UnpackBits(packed), 8 * m, |data|);
  }

  // What the decoder makes of the blob of these frequencies, whole or cut.
  lemma CutDecompressed(length: nat, freq: Frequencies, packed: Bytes, m: nat)
    requires 0 < length < LIMIT && m <= |packed| && forall s :: s in freq ==> freq[s] < LIMIT
    ensures 6 + 5 * |freq| + m <= |Assemble(length, freq, packed)|
    ensures Decompress(Assemble(length, freq, packed)[..6 + 5 * |freq| + m]) == Expand(freq, packed[..m], length)
  {
    SymbolCount(freq);
    CutAssembled(length, freq, packed, m);
    DecompressAssembled(length, freq, packed[..m], []);
    assert packed[..m] + [] == packed[..m];
    assert Assemble(length, freq, packed[..m]) + [] == Assemble(length, freq, packed[..m]);
  }

  lemma ExpandWhole(data: Bytes, packed: Bytes)
    requires data != [] && Counter(data) != map[] && forall s :: s in data ==> s in HuffmanCode(Counter(data))
    requires packed == PackBits(Encode(HuffmanCode(Counter(data)), data))
    ensures Expand(Counter(data), packed, |data|) == Success(data)
  {
    ExpandPacked(data, []);
    assert packed + [] == packed;
  }

  // A blob cut anywhere in its payload still decompresses without an error, to a beginning of the text.
  lemma CutPayload(data: Bytes, n: nat)
    requires 0 < |data| < LIMIT && |Counter(data)| >= 2
    requires Compress(data).Success? && 6 + 5 * |Counter(data)| <= n <= |Compress(data).value|
    ensures Decompress(Compress(data).value[..n]).Success? && Decompress(Compress(data).value[..n]).value <= data
  {
    var freq := Counter(data);
    CounterOf(data);
    CountsBounded(data);
    SymbolCount(freq);
    var packed := PackBits(Encode(HuffmanCode(freq), data));
    TableSize(|data|, freq, packed);
    var m := n - 6 - 5 * |freq|;
    CutDecompressed(|data|, freq, packed, m);
    ExpandWhole(data, packed);
    ExpandFewer(data, packed, m);
  }

  // --- size -------------------------------------------------------------------------------------

  // The number of bits a code spends on a text.
  ghost function TextLength(data: Bytes, word: Byte -> Bits): nat {
    if data == [] then 0 else TextLength(data[..|data| - 1], word) + |word(data[|data| - 1])|
  }

  // Counting bit by bit and counting symbol by symbol agree.
  lemma {:induction false} TextLengthIsCost(data: Bytes, symbols: set<Byte>, word: Byte -> Bits)
    requires forall s :: s in data ==> s in symbols
    ensures TextLength(data, word) == CodeCost(symbols, FreqOf(Counter(data)), word)
  {
    var w := FreqOf(Counter(data));
    if data == [] {
      SumDouble(symbols, CostTerm(w, word), CostTerm(w, word));
    } else {
      var before, last := data[..|data| - 1], data[|data| - 1];
      TextLengthIsCost(before, symbols, word);
      var v := FreqOf(Counter(before));
      OneMore(v(last), 0);
      assert w(last) == v(last) + 1;
      assert CostTerm(w, word)(last) == CostTerm(v, word)(last) + |word(last)| by {
        OneMoreTimes(v(last), |word(last)|);
      }
      SumUpdate(symbols, CostTerm(v, word), CostTerm(w, word), last);
    }
  }

  lemma OneMoreTimes(n: nat, l: nat)
    ensures (n + 1) * l == n * l + l
  {
  }

  lemma {:induction false} EncodeSnoc(codes: map<Byte, Bits>, data: Bytes, last: Byte)
    requires last in codes && forall s :: s in data ==> s in codes
    ensures Encode(codes, data + [last]) == Encode(codes, data) + codes[last]
  {
    if data != [] {
      EncodeSnoc(codes, data[1..], last);
      assert (data + [last])[1..] == data[1..] + [last];
    } else {
      assert ([last])[1..] == [];
    }
  }

  lemma {:induction false} EncodedLength(codes: map<Byte, Bits>, data: Bytes, word: Byte -> Bits)
    requires forall s :: s in data ==> s in codes && codes[s] == word(s)
    ensures |Encode(codes, data)| == TextLength(data, word)
  {
    if data != [] {
      var before, last := data[..|data| - 1], data[|data| - 1];
      EncodedLength(codes, before, word);
      EncodeSnoc(codes, before, last);
      assert data == before + [last];
    }
  }

  lemma LeafHasOneSymbol(t: Tree, freq: Frequencies)
    requires Symbols(t) == freq.Keys && |freq| >= 2
    ensures t.Node?
  {
    assert |Symbols(t)| == |freq|;
  }

  // With two or more distinct symbols the tree has inner nodes and every code is a path.
  lemma HuffmanWords(freq: Frequencies)
    requires |freq| >= 2
    ensures HuffmanTree(freq).Node? && Distinct(HuffmanTree(freq)) && Symbols(HuffmanTree(freq)) == freq.Keys
    ensures forall s :: s in freq ==> HuffmanCode(freq)[s] == PathWord(HuffmanTree(freq))(s)
    ensures PrefixFree(freq.Keys, PathWord(HuffmanTree(freq)))
  {
    HuffmanCost(freq);
    var t := HuffmanTree(freq);
    LeafHasOneSymbol(t, freq);
    WordsOfTree(t);
  }

  lemma WordsOfTree(t: Tree)
    requires t.Node? && Distinct(t)
    ensures forall s :: s in Symbols(t) ==> Codes(t, [])[s] == PathWord(t)(s)
    ensures PrefixFree(Symbols(t), PathWord(t))
  {
    forall s | s in Symbols(t) ensures Codes(t, [])[s] == PathWord(t)(s) {
      CodesArePaths(t, [], s);
    }
    forall s, u | s in Symbols(t) && u in Symbols(t) && s != u ensures !(PathWord(t)(s) <= PathWord(t)(u)) {
      PathsPrefixFree(t, s, u);
    }
  }

  // The packed codes take exactly the weight that the merge loop pushed, in bits.
  lemma EncodedBits(data: Bytes)
    requires |Counter(data)| >= 2
    ensures forall s :: s in data ==> s in HuffmanCode(Counter(data))
    ensures |Encode(HuffmanCode(Counter(data)), data)| == MergeCost(HeapOf(Counter(data)))
    ensures |Encode(HuffmanCode(Counter(data)), data)|
         == TextLength(data, PathWord(HuffmanTree(Counter(data))))
         == TreeCost(HuffmanTree(Counter(data)), FreqOf(Counter(data)))
  {
    var freq := Counter(data);
    HuffmanWords(freq);
    HuffmanCost(freq);
    EncodedLength(HuffmanCode(freq), data, PathWord(HuffmanTree(freq)));
    TextLengthIsCost(data, freq.Keys, PathWord(HuffmanTree(freq)));
  }

  // 6 header bytes, 5 bytes per distinct symbol, and the bits of the text rounded up to bytes.
  lemma CompressedSize(data: Bytes)
    requires |data| < LIMIT && |Counter(data)| >= 2
    ensures Compress(data).Success?
    ensures |Compress(data).value| == 6 + 5 * |Counter(data)| + (MergeCost(HeapOf(Counter(data))) + 7) / 8
  {
    EncodedBits(data);
    assert data != [];
    var freq := Counter(data);
    AssembledSize(|data|, freq, Encode(HuffmanCode(freq), data));
  }

  lemma AssembledSize(length: nat, freq: Frequencies, bits: Bits)
    ensures |Assemble(length, freq, PackBits(bits))| == 6 + 5 * |freq| + (|bits| + 7) / 8
  {
    SymbolCount(freq);
    PackedSize(bits);
    TableSize(length, freq, PackBits(bits));
  }

  lemma TableSize(length: nat, freq: Frequencies, packed: Bytes)
    requires |SortedFrom(freq, 0)| == |freq|
    ensures |Assemble(length, freq, packed)| == 6 + 5 * |freq| + |packed|
  {
  }

  lemma PackedSize(bits: Bits)
    ensures |PackBits(bits)| == (|bits| + 7) / 8
  {
    var k := Padding(|bits|);
    assert |bits + Zeros(k)| == |bits| + k;
  }

  // A text of one repeated symbol has a table of one entry and spends one bit on every symbol.
  lemma RepeatedSize(data: Bytes, s: Byte)
    requires 0 < |data| < LIMIT && forall b :: b in data ==> b == s
    ensures Compress(data).Success? && |Compress(data).value| == 11 + (|data| + 7) / 8
  {
    var freq := Counter(data);
    CounterOf(data);
    assert data[0] in freq;
    assert freq.Keys == {s};
    assert |freq| == |freq.Keys| == 1;
    SingleTree(freq, s);
    OneBitEach(HuffmanCode(freq), data);
    AssembledSize(|data|, freq, Encode(HuffmanCode(freq), data));
  }

  lemma SingleTree(freq: Frequencies, s: Byte)
    requires freq.Keys == {s} && |freq| == 1
    ensures freq != map[] && HuffmanTree(freq) == Leaf(s)
  {
    assert s in freq;
    var e := Entry(freq[s], s, Leaf(s));
    assert HeapOf(freq) == {e};
  }

  lemma {:induction false} OneBitEach(codes: map<Byte, Bits>, data: Bytes)
    requires forall b :: b in data ==> b in codes && |codes[b]| == 1
    ensures |Encode(codes, data)| == |data|
  {
    if data != [] {
      OneBitEach(codes, data[1..]);
    }
  }

  // No prefix-free code spells the text in fewer bits.
  lemma ShortestText(data: Bytes, word: Byte -> Bits)
    requires |Counter(data)| >= 2 && PrefixFree(Counter(data).Keys, word)
    ensures forall s :: s in data ==> s in HuffmanCode(Counter(data))
    ensures |Encode(HuffmanCode(Counter(data)), data)| <= TextLength(data, word)
  {
    EncodedBits(data);
    TextLengthIsCost(data, Counter(data).Keys, word);
    HuffmanIsOptimal(Counter(data), word);
  }
}
