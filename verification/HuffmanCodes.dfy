/** crypto/huffman.py, code assignment: what the codes cost and why nothing beats them. */
module HuffmanCodes {
  import opened Arithmetic
  import opened Bytes
  import opened HuffmanTrees
  import opened HuffmanOptimality
  import opened SetSums

  type Bits = seq<bool>

  // _build_codes as a function: the dict entries the walk below `t` writes.
  function Codes(t: Tree, prefix: Bits): (codes: map<Byte, Bits>)
    ensures codes.Keys == Symbols(t)
  {
    match t
    case Leaf(s) => map[s := if prefix == [] then [false] else prefix]
    case Node(l, r) => Codes(l, prefix + [false]) + Codes(r, prefix + [true])
  }

  // The dict that _build_codes fills.
  class CodeTable {
    var codes: map<Byte, Bits>

    constructor ()
      ensures codes == map[]
    {
      codes := map[];
    }

    method BuildCodes(node: Tree, prefix: Bits)
      modifies this
      ensures codes == old(codes) + Codes(node, prefix)
      decreases node
    {
      match node {
        case Leaf(s) =>
          codes := codes[s := if prefix == [] then [false] else prefix];
        case Node(l, r) =>
          BuildCodes(l, prefix + [false]);
          BuildCodes(r, prefix + [true]);
      }
    }
  }

  // The way from the root of t to the leaf labelled s.
  ghost function Path(t: Tree, s: Byte): Bits
    requires s in Symbols(t)
  {
    match t
    case Leaf(_) => []
    case Node(l, r) => if s in Symbols(l) then [false] + Path(l, s) else [true] + Path(r, s)
  }

  lemma {:induction false} CodesArePaths(t: Tree, prefix: Bits, s: Byte)
    requires Distinct(t) && s in Symbols(t)
    requires prefix != [] || t.Node?
    ensures Codes(t, prefix)[s] == prefix + Path(t, s)
  {
    match t
    case Leaf(_) =>
    case Node(l, r) =>
      if s in Symbols(l) {
        CodesArePaths(l, prefix + [false], s);
        assert prefix + [false] + Path(l, s) == prefix + Path(t, s);
      } else {
        CodesArePaths(r, prefix + [true], s);
        assert prefix + [true] + Path(r, s) == prefix + Path(t, s);
      }
  }

  ghost predicate PrefixFree(symbols: set<Byte>, word: Byte -> Bits) {
    forall s, t :: s in symbols && t in symbols && s != t ==> !(word(s) <= word(t))
  }

  ghost function PathWord(t: Tree): Byte -> Bits {
    (s: Byte) => if s in Symbols(t) then Path(t, s) else []
  }

  lemma {:induction false} PathsPrefixFree(t: Tree, s: Byte, u: Byte)
    requires Distinct(t) && s in Symbols(t) && u in Symbols(t) && s != u
    ensures !(Path(t, s) <= Path(t, u))
  {
    match t
    case Leaf(_) =>
    case Node(l, r) =>
      var child := if s in Symbols(l) then l else r;
      if u in Symbols(child) {
        PathsPrefixFree(child, s, u);
        assert Path(t, s)[1..] == Path(child, s) && Path(t, u)[1..] == Path(child, u);
      } else {
        assert Path(t, s)[0] != Path(t, u)[0];
      }
  }

  // --- cost -------------------------------------------------------------------------------------

  ghost function CostTerm(w: Byte -> nat, word: Byte -> Bits): Byte -> int {
    (s: Byte) => w(s) * |word(s)|
  }

  // Total code length of a text in which each symbol s occurs w(s) times.
  ghost function CodeCost(symbols: set<Byte>, w: Byte -> nat, word: Byte -> Bits): int {
    Sum(symbols, CostTerm(w, word))
  }

  ghost function TreeCost(t: Tree, w: Byte -> nat): int {
    CodeCost(Symbols(t), w, PathWord(t))
  }

  ghost function Weights(w: Byte -> nat): Byte -> int {
    (s: Byte) => w(s)
  }

  ghost function TreeWeight(t: Tree, w: Byte -> nat): int {
    Sum(Symbols(t), Weights(w))
  }

  lemma ChildPath(t: Tree, child: Tree, s: Byte)
    requires t.Node? && Distinct(t) && (child == t.left || child == t.right) && s in Symbols(child)
    ensures |Path(t, s)| == |Path(child, s)| + 1
  {
  }

  lemma OneMore(w: nat, n: nat)
    ensures w * (n + 1) == w * n + w
  {
  }

  // One level further down, every symbol costs its weight more.
  lemma ChildCost(t: Tree, child: Tree, w: Byte -> nat)
    requires t.Node? && Distinct(t) && (child == t.left || child == t.right)
    ensures Sum(Symbols(child), CostTerm(w, PathWord(t))) == TreeCost(child, w) + TreeWeight(child, w)
  {
    forall s | s in Symbols(child)
      ensures CostTerm(w, PathWord(t))(s) == CostTerm(w, PathWord(child))(s) + Weights(w)(s)
    {
      ChildPath(t, child, s);
      OneMore(w(s), |Path(child, s)|);
    }
    SumPlus(Symbols(child), CostTerm(w, PathWord(child)), Weights(w), CostTerm(w, PathWord(t)));
  }

  lemma NodeCost(t: Tree, w: Byte -> nat)
    requires t.Node? && Distinct(t)
    ensures TreeCost(t, w) == TreeCost(t.left, w) + TreeCost(t.right, w) + TreeWeight(t, w)
    ensures TreeWeight(t, w) == TreeWeight(t.left, w) + TreeWeight(t.right, w)
  {
    ChildCost(t, t.left, w);
    ChildCost(t, t.right, w);
    SumUnion(Symbols(t.left), Symbols(t.right), CostTerm(w, PathWord(t)));
    SumUnion(Symbols(t.left), Symbols(t.right), Weights(w));
  }

  // Each live entry carries the total weight of the symbols below it.
  ghost predicate Weighed(heap: set<Entry>, w: Byte -> nat) {
    forall e :: e in heap ==> e.freq == TreeWeight(e.node, w)
  }

  ghost function EntryCosts(w: Byte -> nat): Entry -> int {
    (e: Entry) => TreeCost(e.node, w)
  }

  ghost predicate Holds(heap: set<Entry>, s: Byte) {
    exists e :: e in heap && s in Symbols(e.node)
  }

  // The entries' trees hold the given symbols and no others.
  ghost predicate Covers(heap: set<Entry>, symbols: set<Byte>) {
    forall s: Byte :: s in symbols <==> Holds(heap, s)
  }

  lemma RoundKeepsWeights(heap: set<Entry>, w: Byte -> nat)
    requires |heap| >= 2 && ValidHeap(heap) && Weighed(heap, w)
    ensures Weighed(MergeRound(heap), w)
  {
    var first, second, m := MergedPair(heap);
    MergedNode(heap, first, second, m, w);
    WeighedAfterMerge(heap, first, second, m, w);
  }

  lemma WeighedAfterMerge(heap: set<Entry>, x: Entry, y: Entry, m: Entry, w: Byte -> nat)
    requires Weighed(heap, w) && m.freq == TreeWeight(m.node, w)
    ensures Weighed(heap - {x} - {y} + {m}, w)
  {
  }

  // What the merged entry's subtree weighs and costs.
  lemma MergedNode(heap: set<Entry>, x: Entry, y: Entry, m: Entry, w: Byte -> nat)
    requires ValidHeap(heap) && x in heap && y in heap && x != y && m == Merge(x, y)
    ensures TreeWeight(m.node, w) == TreeWeight(x.node, w) + TreeWeight(y.node, w)
    ensures TreeCost(m.node, w) == TreeCost(x.node, w) + TreeCost(y.node, w) + TreeWeight(m.node, w)
    ensures Symbols(m.node) == Symbols(x.node) + Symbols(y.node)
  {
    NodeCost(m.node, w);
  }

  lemma RoundKeepsSymbols(heap: set<Entry>, symbols: set<Byte>)
    requires |heap| >= 2 && ValidHeap(heap) && Covers(heap, symbols)
    ensures Covers(MergeRound(heap), symbols)
  {
    var first, second, m := MergedPair(heap);
    assert Symbols(m.node) == Symbols(first.node) + Symbols(second.node);
    assert MergeRound(heap) == heap - {first} - {second} + {m};
    forall s: Byte ensures Holds(MergeRound(heap), s) <==> Holds(heap, s) {
      HoldsAfterMerge(heap, first, second, m, s);
    }
  }

  lemma HoldsAfterMerge(heap: set<Entry>, x: Entry, y: Entry, m: Entry, s: Byte)
    requires x in heap && y in heap && Symbols(m.node) == Symbols(x.node) + Symbols(y.node)
    ensures Holds(heap - {x} - {y} + {m}, s) <==> Holds(heap, s)
  {
    var next := heap - {x} - {y} + {m};
    if Holds(heap, s) {
      var e :| e in heap && s in Symbols(e.node);
      assert (if e == x || e == y then m else e) in next;
    }
    if Holds(next, s) {
      var e :| e in next && s in Symbols(e.node);
      assert e == m ==> s in Symbols(x.node) || s in Symbols(y.node);
    }
  }

  lemma RoundCost(heap: set<Entry>, w: Byte -> nat)
    requires |heap| >= 2 && ValidHeap(heap) && Weighed(heap, w)
    ensures Sum(MergeRound(heap), EntryCosts(w))
         == Sum(heap, EntryCosts(w)) + FirstPop(heap).freq + SecondPop(heap).freq
  {
    var first, second, m := MergedPair(heap);
    MergedNode(heap, first, second, m, w);
    SumMerge(heap, EntryCosts(w), EntryCosts(w), first, second, m);
  }

  // The finished tree covers the symbols once each, and costs what the loop pushed.
  lemma {:induction false} BuildCost(heap: set<Entry>, w: Byte -> nat, symbols: set<Byte>)
    requires heap != {} && ValidHeap(heap) && Weighed(heap, w) && Covers(heap, symbols)
    ensures Distinct(Build(heap)) && Symbols(Build(heap)) == symbols
    ensures TreeCost(Build(heap), w) == MergeCost(heap) + Sum(heap, EntryCosts(w))
    decreases |heap|
  {
    assert |heap| != 0;
    if |heap| == 1 {
      LastEntry(heap, w, symbols);
    } else {
      RoundKeepsWeights(heap, w);
      RoundKeepsSymbols(heap, symbols);
      RoundCost(heap, w);
      BuildCost(MergeRound(heap), w, symbols);
    }
  }

  lemma LastEntry(heap: set<Entry>, w: Byte -> nat, symbols: set<Byte>)
    requires |heap| == 1 && ValidHeap(heap) && Covers(heap, symbols)
    ensures Distinct(Least(heap).node) && Symbols(Least(heap).node) == symbols
    ensures Sum(heap, EntryCosts(w)) == TreeCost(Least(heap).node, w)
  {
    var e := Least(heap);
    assert |heap - {e}| == 0;
    assert heap == {e};
    SumRemove(heap, EntryCosts(w), e);
    forall s: Byte ensures s in symbols <==> s in Symbols(e.node) {
      assert Holds(heap, s) <==> s in Symbols(e.node);
    }
  }

  // --- optimality -------------------------------------------------------------------------------

  ghost function FreqOf(freq: Frequencies): Byte -> nat {
    (s: Byte) => if s in freq then freq[s] else 0
  }

  lemma LeafCost(s: Byte, w: Byte -> nat)
    ensures TreeCost(Leaf(s), w) == 0 && TreeWeight(Leaf(s), w) == w(s)
  {
    SumRemove({s}, Weights(w), s);
    SumRemove({s}, CostTerm(w, PathWord(Leaf(s))), s);
    assert {s} - {s} == {};
  }

  lemma LeafHeapFacts(freq: Frequencies)
    ensures Weighed(HeapOf(freq), FreqOf(freq))
    ensures Sum(HeapOf(freq), EntryCosts(FreqOf(freq))) == 0
  {
    var w := FreqOf(freq);
    var heap := HeapOf(freq);
    forall e | e in heap ensures e.freq == TreeWeight(e.node, w) && EntryCosts(w)(e) == 0 {
      LeafCost(e.minSymbol, w);
    }
    SumPlus(heap, EntryCosts(w), EntryCosts(w), EntryCosts(w));
  }

  lemma LeavesCover(freq: Frequencies)
    ensures Covers(HeapOf(freq), freq.Keys)
  {
    forall s: Byte ensures s in freq.Keys <==> Holds(HeapOf(freq), s) {
      if s in freq {
        var leaf := Entry(freq[s], s, Leaf(s));
        assert leaf in HeapOf(freq) && s in Symbols(leaf.node);
      }
    }
  }

  // The total length of the codes is the total weight pushed by the merge loop.
  lemma HuffmanCost(freq: Frequencies)
    requires freq != map[]
    ensures Distinct(HuffmanTree(freq)) && Symbols(HuffmanTree(freq)) == freq.Keys
    ensures TreeCost(HuffmanTree(freq), FreqOf(freq)) == MergeCost(HeapOf(freq))
  {
    LeafHeapFacts(freq);
    LeavesCover(freq);
    FreshHeapCost(HeapOf(freq), FreqOf(freq), freq.Keys);
  }

  lemma FreshHeapCost(heap: set<Entry>, w: Byte -> nat, symbols: set<Byte>)
    requires heap != {} && ValidHeap(heap) && Weighed(heap, w) && Covers(heap, symbols)
    requires Sum(heap, EntryCosts(w)) == 0
    ensures Distinct(Build(heap)) && Symbols(Build(heap)) == symbols
    ensures TreeCost(Build(heap), w) == MergeCost(heap)
  {
    BuildCost(heap, w, symbols);
  }

  ghost function WordShares(limit: nat, word: Byte -> Bits): Byte -> int {
    (s: Byte) => Share(limit, |word(s)|)
  }

  ghost function Tail(word: Byte -> Bits): Byte -> Bits {
    (s: Byte) => if word(s) == [] then [] else word(s)[1..]
  }

  // Kraft's inequality: words no one of which continues another leave room for each other.
  lemma {:induction false} KraftInequality(symbols: set<Byte>, word: Byte -> Bits, limit: nat)
    requires PrefixFree(symbols, word)
    requires forall s :: s in symbols ==> |word(s)| <= limit
    ensures Sum(symbols, WordShares(limit, word)) <= Pow2(limit)
    decreases limit
  {
    if exists s :: s in symbols && word(s) == [] {
      EmptyWordShare(symbols, word, limit);
    } else if symbols != {} {
      var zeros, ones := SplitByFirstBit(symbols, word, limit);
      KraftInequality(zeros, Tail(word), limit - 1);
      KraftInequality(ones, Tail(word), limit - 1);
    }
  }

  lemma SplitByFirstBit(symbols: set<Byte>, word: Byte -> Bits, limit: nat) returns (zeros: set<Byte>, ones: set<Byte>)
    requires limit > 0 && PrefixFree(symbols, word)
    requires forall s :: s in symbols ==> 0 < |word(s)| <= limit
    ensures zeros <= symbols && ones <= symbols
    ensures PrefixFree(zeros, Tail(word)) && PrefixFree(ones, Tail(word))
    ensures Sum(symbols, WordShares(limit, word))
         == Sum(zeros, WordShares(limit - 1, Tail(word))) + Sum(ones, WordShares(limit - 1, Tail(word)))
  {
    zeros := set s | s in symbols && !word(s)[0];
    ones := set s | s in symbols && word(s)[0];
    assert symbols == zeros + ones;
    SumUnion(zeros, ones, WordShares(limit, word));
    KraftHalf(zeros, word, limit, false);
    KraftHalf(ones, word, limit, true);
  }

  lemma EmptyWordShare(symbols: set<Byte>, word: Byte -> Bits, limit: nat)
    requires PrefixFree(symbols, word) && exists s :: s in symbols && word(s) == []
    ensures Sum(symbols, WordShares(limit, word)) <= Pow2(limit)
  {
    var s :| s in symbols && word(s) == [];
    EmptyWordIsAlone(symbols, word, s);
    SumRemove(symbols, WordShares(limit, word), s);
  }

  lemma EmptyWordIsAlone(symbols: set<Byte>, word: Byte -> Bits, s: Byte)
    requires PrefixFree(symbols, word) && s in symbols && word(s) == []
    ensures symbols == {s}
  {
    forall t | t in symbols ensures t == s {
      assert word(s) <= word(t);
    }
  }

  lemma KraftHalf(half: set<Byte>, word: Byte -> Bits, limit: nat, bit: bool)
    requires limit > 0 && PrefixFree(half, word)
    requires forall s :: s in half ==> 0 < |word(s)| <= limit && word(s)[0] == bit
    ensures PrefixFree(half, Tail(word))
    ensures Sum(half, WordShares(limit, word)) == Sum(half, WordShares(limit - 1, Tail(word)))
  {
    forall s, t | s in half && t in half && Tail(word)(s) <= Tail(word)(t) ensures word(s) <= word(t) {
      assert word(s) == [bit] + Tail(word)(s) && word(t) == [bit] + Tail(word)(t);
    }
    SumCongruent(half, WordShares(limit, word), WordShares(limit - 1, Tail(word)));
  }

  ghost function LeafEntry(freq: Frequencies): Byte -> Entry {
    (s: Byte) => Entry(if s in freq then freq[s] else 0, s, Leaf(s))
  }

  lemma OverLeaves(freq: Frequencies, f: Entry -> int, g: Byte -> int)
    requires forall s :: s in freq ==> g(s) == f(LeafEntry(freq)(s))
    ensures Sum(HeapOf(freq), f) == Sum(freq.Keys, g)
  {
    SumImage(freq.Keys, LeafEntry(freq), f, g);
    assert HeapOf(freq) == Image(freq.Keys, LeafEntry(freq)) by {
      forall e ensures e in HeapOf(freq) <==> e in Image(freq.Keys, LeafEntry(freq)) {
        if e in HeapOf(freq) {
          assert e == LeafEntry(freq)(e.minSymbol) && e.minSymbol in freq.Keys;
        }
      }
    }
  }

  lemma {:induction false} LongestWord(symbols: set<Byte>, word: Byte -> Bits) returns (limit: nat)
    ensures forall s :: s in symbols ==> |word(s)| <= limit
    decreases |symbols|
  {
    limit := 0;
    if symbols != {} {
      var s :| s in symbols;
      limit := LongestWord(symbols - {s}, word);
      if limit < |word(s)| {
        limit := |word(s)|;
      }
    }
  }

  // Optimality among all prefix-free codes.
  lemma HuffmanIsOptimal(freq: Frequencies, word: Byte -> Bits)
    requires freq != map[] && PrefixFree(freq.Keys, word)
    ensures TreeCost(HuffmanTree(freq), FreqOf(freq)) <= CodeCost(freq.Keys, FreqOf(freq), word)
  {
    HuffmanCost(freq);
    var limit := LongestWord(freq.Keys, word);
    KraftInequality(freq.Keys, word, limit);
    LeafKraft(freq, word, limit);
    MergeCostIsLeast(HeapOf(freq), WordLengths(word), limit);
  }

  ghost function WordLengths(word: Byte -> Bits): Lengths {
    (e: Entry) => |word(e.minSymbol)|
  }

  lemma LeafKraft(freq: Frequencies, word: Byte -> Bits, limit: nat)
    requires forall s :: s in freq ==> |word(s)| <= limit
    requires Sum(freq.Keys, WordShares(limit, word)) <= Pow2(limit)
    ensures Kraft(HeapOf(freq), WordLengths(word), limit)
    ensures Sum(HeapOf(freq), Weighted(WordLengths(word))) == CodeCost(freq.Keys, FreqOf(freq), word)
  {
    OverLeaves(freq, Shares(limit, WordLengths(word)), WordShares(limit, word));
    OverLeaves(freq, Weighted(WordLengths(word)), CostTerm(FreqOf(freq), word));
  }

  // In particular no other binary tree over the same symbols is cheaper.
  lemma NoTreeIsCheaper(freq: Frequencies, t: Tree)
    requires freq != map[] && Distinct(t) && Symbols(t) == freq.Keys
    ensures TreeCost(HuffmanTree(freq), FreqOf(freq)) <= TreeCost(t, FreqOf(freq))
  {
    forall s, u | s in freq.Keys && u in freq.Keys && s != u ensures !(PathWord(t)(s) <= PathWord(t)(u)) {
      PathsPrefixFree(t, s, u);
    }
    HuffmanIsOptimal(freq, PathWord(t));
  }
}
