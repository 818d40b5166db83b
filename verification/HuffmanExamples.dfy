/** Trees and blobs of texts with two symbols: which child is which, and the bytes of one blob. */
module HuffmanExamples {
  import opened Bytes
  import opened HuffmanCodec
  import opened HuffmanCodes
  import opened HuffmanTrees
  import opened Results

  lemma PairHeap(s: Byte, t: Byte, m: nat, n: nat)
    requires s != t
    ensures HeapOf(map[s := m, t := n]) == {Entry(m, s, Leaf(s)), Entry(n, t, Leaf(t))}
  {
    var freq := map[s := m, t := n];
    assert freq.Keys == {s, t};
    assert Entry(freq[s], s, Leaf(s)) in HeapOf(freq) && Entry(freq[t], t, Leaf(t)) in HeapOf(freq);
  }

  lemma PairTree(x: Entry, y: Entry, heap: set<Entry>)
    requires heap == {x, y} && x != y && ValidHeap(heap) && KeyLess(x, y)
    ensures Build(heap) == Node(x.node, y.node)
  {
    assert IsLeast(x, heap);
    assert heap - {x} == {y};
    assert IsLeast(y, heap - {x});
    RoundOfLeast(heap, x, y);
    var one := heap - {x} - {y} + {Merge(x, y)};
    assert one == {Merge(x, y)};
    assert IsLeast(Merge(x, y), one);
    LeastUnique(one, Least(one), Merge(x, y));
  }

  // Of two symbols the rarer goes left; of two equally frequent ones the smaller does.
  lemma TwoSymbols(s: Byte, t: Byte, m: nat, n: nat)
    requires s < t
    ensures map[s := m, t := n] != map[]
    ensures HuffmanTree(map[s := m, t := n]) == if m <= n then Node(Leaf(s), Leaf(t)) else Node(Leaf(t), Leaf(s))
  {
    var x, y := Entry(m, s, Leaf(s)), Entry(n, t, Leaf(t));
    assert s in map[s := m, t := n];
    PairHeap(s, t, m, n);
    if m <= n {
      PairTree(x, y, HeapOf(map[s := m, t := n]));
    } else {
      PairTree(y, x, HeapOf(map[s := m, t := n]));
    }
  }

  lemma PairOrder(freq: Frequencies, low: nat, s: Byte, t: Byte)
    requires low == 0 && freq.Keys == {s, t} && s < t
    ensures SortedFrom(freq, low) == [s, t]
  {
    SortedPair(SortedFrom(freq, low), s, t);
  }

  lemma SortedPair(order: seq<Byte>, s: Byte, t: Byte)
    requires s < t && forall i, j :: 0 <= i < j < |order| ==> order[i] < order[j]
    requires forall u :: u in order <==> u == s || u == t
    ensures order == [s, t]
  {
    assert s in order && t in order;
    var i :| 0 <= i < |order| && order[i] == s;
    var j :| 0 <= j < |order| && order[j] == t;
    EitherPlace(order, i, j, 0);
    EitherPlace(order, i, j, 1);
    EitherPlace(order, i, j, |order| - 1);
  }

  lemma EitherPlace(order: seq<Byte>, i: nat, j: nat, k: nat)
    requires i < |order| && j < |order| && k < |order|
    requires forall m, n :: 0 <= m < n < |order| ==> order[m] < order[n]
    requires forall u :: u in order ==> u == order[i] || u == order[j]
    ensures k == i || k == j
  {
    assert order[k] in order;
  }

  lemma CounterNext(data: Bytes, before: Bytes, x: Byte)
    requires data == before + [x] && x !in before
    ensures Counter(data) == Counter(before)[x := 1]
  {
    assert data[..|data| - 1] == before;
  }

  lemma PairCounts(s: Byte, t: Byte)
    requires s != t
    ensures Counter([s, t]) == map[s := 1, t := 1]
  {
    CounterNext([s], [], s);
    CounterNext([s, t], [s], t);
  }

  lemma PairCodes(tree: Tree, s: Byte, t: Byte)
    requires tree == Node(Leaf(s), Leaf(t)) && s != t
    ensures Codes(tree, []) == map[s := [false], t := [true]]
  {
    assert [] + [false] == [false] && [] + [true] == [true];
  }

  lemma PairEncoded(codes: map<Byte, Bits>, s: Byte, t: Byte)
    requires s in codes && t in codes
    ensures Encode(codes, [s, t]) == codes[s] + codes[t]
  {
    assert [s, t][1..] == [t];
    assert Encode(codes, [t]) == codes[t] + Encode(codes, []) && codes[t] + [] == codes[t];
  }

  lemma PairTable(freq: Frequencies, s: Byte, t: Byte)
    requires s in freq && t in freq
    ensures Table(freq, [s, t]) == [s] + ToBytes(freq[s], 4) + [t] + ToBytes(freq[t], 4)
  {
    assert [s, t][1..] == [t] && [t][1..] == [];
  }

  lemma OneZero(padded: Bits, bits: Bits)
    requires padded == bits + [false]
    ensures ParseBits(padded) == 2 * ParseBits(bits)
  {
    assert padded[..|padded| - 1] == bits;
  }

  lemma OneInByte(bits: Bits)
    requires bits == [false, true, false, false, false, false, false, false]
    ensures ParseBits(bits) == 64
  {
    assert [false, true][..1] == [false] && [false][..0] == [];
    assert ParseBits([false]) == 0;
    OneZero([false, true, false], [false, true]);
    OneZero([false, true, false, false], [false, true, false]);
    OneZero([false, true, false, false, false], [false, true, false, false]);
    OneZero([false, true, false, false, false, false], [false, true, false, false, false]);
    OneZero([false, true, false, false, false, false, false], [false, true, false, false, false, false]);
    OneZero(bits, [false, true, false, false, false, false, false]);
  }

  lemma PairPacked(bits: Bits)
    requires bits == [false, true]
    ensures PackBits(bits) == [0x40]
  {
    var padded := bits + Zeros(Padding(2));
    OneInByte(padded);
    assert padded[..8] == padded && padded[8..] == [];
  }

  lemma CompressIs(data: Bytes, freq: Frequencies)
    requires 0 < |data| < LIMIT && freq == Counter(data)
    ensures freq != map[] && forall s :: s in data ==> s in HuffmanCode(freq)
    ensures Compress(data) == Success(Assemble(|data|, freq, PackBits(Encode(HuffmanCode(freq), data))))
  {
    CounterOf(data);
  }

  lemma PairPayload(s: Byte, t: Byte, freq: Frequencies)
    requires s < t && freq == map[s := 1, t := 1] && freq != map[] && HuffmanCode(freq).Keys == {s, t}
    ensures PackBits(Encode(HuffmanCode(freq), [s, t])) == [0x40]
  {
    TwoSymbols(s, t, 1, 1);
    PairCodes(HuffmanTree(freq), s, t);
    PairEncoded(HuffmanCode(freq), s, t);
    PairPacked([false] + [true]);
  }

  lemma {:induction false} ByteToBytes(n: Byte, width: nat)
    requires width > 0
    ensures ToBytes(n, width) == seq(width - 1, i => 0) + [n]
  {
    if width > 1 {
      ByteToBytes(0, width - 1);
    }
  }

  lemma PairFrequencies(s: Byte, t: Byte, freq: Frequencies)
    requires s < t && freq == map[s := 1, t := 1]
    ensures Table(freq, [s, t]) == [s, 0, 0, 0, 1, t, 0, 0, 0, 1]
  {
    PairTable(freq, s, t);
    ByteToBytes(1, 4);
  }

  lemma PairCount(s: Byte, t: Byte, freq: Frequencies)
    requires s < t && freq == map[s := 1, t := 1]
    ensures |freq| == 2
  {
    assert freq.Keys == {s, t} && |freq| == |freq.Keys|;
  }

  lemma Flat(s: Byte, t: Byte, packed: Bytes)
    requires |packed| == 1
    ensures [0, 0, 0, 2] + [0, 2] + [s, 0, 0, 0, 1, t, 0, 0, 0, 1] + packed
         == [0, 0, 0, 2, 0, 2, s, 0, 0, 0, 1, t, 0, 0, 0, 1, packed[0]]
  {
  }

  lemma PairAssembled(s: Byte, t: Byte, freq: Frequencies, order: seq<Byte>, packed: Bytes)
    requires s < t && freq == map[s := 1, t := 1] && order == SortedFrom(freq, 0) == [s, t] && |packed| == 1
    ensures Assemble(2, freq, packed) == [0, 0, 0, 2, 0, 2, s, 0, 0, 0, 1, t, 0, 0, 0, 1, packed[0]]
  {
    PairCount(s, t, freq);
    PairFrequencies(s, t, freq);
    ByteToBytes(2, 4);
    ByteToBytes(2, 2);
    Flat(s, t, packed);
  }

  // The blob of two letters that occur once each: the smaller has the code 0 and the larger the code 1.
  lemma PairBlob(s: Byte, t: Byte)
    requires s < t
    ensures Compress([s, t]) == Success([0, 0, 0, 2, 0, 2, s, 0, 0, 0, 1, t, 0, 0, 0, 1, 0x40])
  {
    var freq: Frequencies := map[s := 1, t := 1];
    PairCounts(s, t);
    CompressIs([s, t], freq);
    PairPayload(s, t, freq);
    PairOrder(freq, 0, s, t);
    PairAssembled(s, t, freq, [s, t], [0x40]);
  }

  // compress(b"ab")
  lemma AbBlob()
    ensures Compress([97, 98]) == Success([0, 0, 0, 2, 0, 2, 97, 0, 0, 0, 1, 98, 0, 0, 0, 1, 0x40])
  {
    PairBlob(97, 98);
  }

  // Only texts of 2^32 bytes and more are refused.
  lemma RefusedTexts(data: Bytes)
    ensures Compress(data) == Failure(OverflowError) <==> |data| >= 0x1_0000_0000
  {
  }

  // Blobs without a table: the empty text, and texts that claim a length.
  lemma EmptyTables(length: Bytes)
    requires |length| <= 4
    ensures Decompress(length + (if |length| == 4 then [0, 0] else []))
         == if FromBytes(length) == 0 then Success([]) else Failure(IndexError)
  {
    var blob := length + (if |length| == 4 then [0, 0] else []);
    assert Slice(blob, 0, 4) == length;
    assert Slice(blob, 4, 6) == if |length| == 4 then [0, 0] else [];
    assert [0, 0][..1] == [0] && [0][..0] == [];
    assert FromBytes([0]) == 0;
  }
}
