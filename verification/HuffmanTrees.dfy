/** crypto/huffman.py, tree construction: the two-smallest merge loop and its specification. */
module HuffmanTrees {
  import opened Bytes
  import opened Results

  type Frequencies = map<Byte, nat>

  datatype Tree = Leaf(symbol: Byte) | Node(left: Tree, right: Tree)

  // A heap entry: the total frequency, the least symbol and the subtree itself.
  datatype Entry = Entry(freq: nat, minSymbol: Byte, node: Tree)

  ghost function Symbols(t: Tree): set<Byte> {
    match t
    case Leaf(s) => {s}
    case Node(l, r) => Symbols(l) + Symbols(r)
  }

  // No symbol labels two leaves.
  ghost predicate Distinct(t: Tree) {
    match t
    case Leaf(_) => true
    case Node(l, r) => Symbols(l) !! Symbols(r) && Distinct(l) && Distinct(r)
  }

  // The order heapq compares entries by; the node component is never reached.
  predicate KeyLess(x: Entry, y: Entry) {
    x.freq < y.freq || (x.freq == y.freq && x.minSymbol < y.minSymbol)
  }

  // minSymbol is the least symbol of its entry, and no symbol occurs twice.
  ghost predicate ValidHeap(heap: set<Entry>) {
    && (forall e :: e in heap ==> e.minSymbol in Symbols(e.node) && Distinct(e.node))
    && (forall e, s :: e in heap && s in Symbols(e.node) ==> e.minSymbol <= s)
    && (forall x, y :: x in heap && y in heap && x != y ==> Symbols(x.node) !! Symbols(y.node))
  }

  ghost predicate IsLeast(e: Entry, heap: set<Entry>) {
    e in heap && forall x :: x in heap && x != e ==> KeyLess(e, x)
  }

  lemma {:induction false} LeastExists(heap: set<Entry>)
    requires heap != {} && ValidHeap(heap)
    ensures exists e :: IsLeast(e, heap)
    decreases |heap|
  {
    var x :| x in heap;
    if heap == {x} {
      assert IsLeast(x, heap);
    } else {
      LeastExists(heap - {x});
      var y :| IsLeast(y, heap - {x});
      assert x.minSymbol in Symbols(x.node) && y.minSymbol in Symbols(y.node);
      if KeyLess(x, y) {
        forall z | z in heap && z != x ensures KeyLess(x, z) {
          assert z in heap - {x};
        }
        assert IsLeast(x, heap);
      } else {
        assert IsLeast(y, heap);
      }
    }
  }

  // What heapq.heappop returns: no other entry of the heap has a smaller key.
  ghost function Least(heap: set<Entry>): (e: Entry)
    requires heap != {} && ValidHeap(heap)
    ensures IsLeast(e, heap)
  {
    LeastExists(heap);
    var e :| IsLeast(e, heap);
    e
  }

  function Merge(x: Entry, y: Entry): Entry {
    Entry(x.freq + y.freq, if y.minSymbol < x.minSymbol then y.minSymbol else x.minSymbol, Node(x.node, y.node))
  }

  // The heap after one round of the merge loop: two pops and a push.
  ghost function MergeRound(heap: set<Entry>): (rest: set<Entry>)
    requires |heap| >= 2 && ValidHeap(heap)
    ensures ValidHeap(rest) && |rest| == |heap| - 1
  {
    var x := Least(heap);
    assert |heap - {x}| == |heap| - 1;
    var y := Least(heap - {x});
    MergeIsNew(heap, x, y);
    heap - {x} - {y} + {Merge(x, y)}
  }

  lemma MergeIsNew(heap: set<Entry>, x: Entry, y: Entry)
    requires ValidHeap(heap) && x in heap && y in heap && x != y
    ensures Merge(x, y) !in heap
    ensures ValidHeap(heap - {x} - {y} + {Merge(x, y)})
  {
  }

  // The tree the merge loop ends with, as a function of the set of heap entries alone.
  ghost function Build(heap: set<Entry>): Tree
    requires heap != {} && ValidHeap(heap)
    decreases |heap|
  {
    if |heap| == 1 then Least(heap).node else
      assert |heap| >= 2;
      Build(MergeRound(heap))
  }

  ghost function HeapOf(freq: Frequencies): (heap: set<Entry>)
    ensures ValidHeap(heap)
    ensures |heap| == |freq|
    ensures freq != map[] ==> heap != {}
  {
    var heap := set s | s in freq :: Entry(freq[s], s, Leaf(s));
    HeapSize(freq);
    assert freq != map[] ==> |freq| != 0;
    heap
  }

  lemma {:induction false} HeapSize(freq: Frequencies)
    ensures |set s | s in freq :: Entry(freq[s], s, Leaf(s))| == |freq|
    decreases |freq|
  {
    if freq != map[] {
      var k :| k in freq;
      var rest := freq - {k};
      HeapSize(rest);
      OneMoreLeaf(freq, k);
    }
  }

  lemma OneMoreLeaf(freq: Frequencies, k: Byte)
    requires k in freq
    ensures (set s | s in freq :: Entry(freq[s], s, Leaf(s)))
         == (set s | s in freq - {k} :: Entry(freq[s], s, Leaf(s))) + {Entry(freq[k], k, Leaf(k))}
    ensures (set s | s in freq - {k} :: Entry(freq[s], s, Leaf(s)))
         == (set s | s in freq - {k} :: Entry((freq - {k})[s], s, Leaf(s)))
  {
  }

  // The tree both ends of the codec work with.
  ghost function HuffmanTree(freq: Frequencies): Tree
    requires freq != map[]
  {
    Build(HeapOf(freq))
  }

  // The heap after n rounds.
  ghost function HeapAfter(freq: Frequencies, n: nat): (heap: set<Entry>)
    requires n < |freq|
    ensures ValidHeap(heap) && |heap| == |freq| - n
  {
    if n == 0 then HeapOf(freq) else MergeRound(HeapAfter(freq, n - 1))
  }

  // Whatever the round, every entry carries the least symbol of its subtree.
  lemma LeastSymbolCarried(freq: Frequencies, n: nat, e: Entry)
    requires n < |freq| && e in HeapAfter(freq, n)
    ensures e.minSymbol in Symbols(e.node) && forall s :: s in Symbols(e.node) ==> e.minSymbol <= s
  {
  }

  // --- the imperative loop ----------------------------------------------------------------------

  ghost function Elements<T(!new)>(heap: seq<T>): set<T> {
    set e | e in heap
  }

  ghost predicate NoDuplicates<T(!new)>(s: seq<T>) {
    forall i, j :: 0 <= i < j < |s| ==> s[i] != s[j]
  }

  lemma {:induction false} ElementsSize<T(!new)>(heap: seq<T>)
    requires NoDuplicates(heap)
    ensures |Elements(heap)| == |heap|
  {
    if heap != [] {
      var n := |heap| - 1;
      ElementsSize(heap[..n]);
      assert heap == heap[..n] + [heap[n]];
      assert Elements(heap) == Elements(heap[..n]) + {heap[n]};
    }
  }

  // Two live entries never tie, so a comparison is always decided before it reaches the nodes.
  lemma KeysDiffer(heap: set<Entry>, x: Entry, y: Entry)
    requires ValidHeap(heap) && x in heap && y in heap && x != y
    ensures x.minSymbol != y.minSymbol
    ensures KeyLess(x, y) <==> !KeyLess(y, x)
  {
    assert x.minSymbol in Symbols(x.node) && y.minSymbol in Symbols(y.node);
  }

  // heapq.heappop by its contract: it removes the entry with the least (freq, minSymbol).
  method HeapPop(heap: seq<Entry>) returns (least: Entry, rest: seq<Entry>)
    requires heap != [] && NoDuplicates(heap) && ValidHeap(Elements(heap))
    ensures IsLeast(least, Elements(heap))
    ensures forall z :: z in heap && z != least ==>
      least.freq < z.freq || (least.freq == z.freq && least.minSymbol < z.minSymbol)
    ensures NoDuplicates(rest) && |rest| == |heap| - 1
    ensures Elements(rest) == Elements(heap) - {least}
  {
    var best := 0;
    for i := 1 to |heap|
      invariant 0 <= best < i
      invariant forall k :: 0 <= k < i && k != best ==> KeyLess(heap[best], heap[k])
    {
      KeysDiffer(Elements(heap), heap[i], heap[best]);
      if KeyLess(heap[i], heap[best]) {
        best := i;
      }
    }
    least := heap[best];
    rest := heap[..best] + heap[best + 1..];
    RemoveAt(heap, best);
    assert forall e :: e in Elements(heap) && e != least ==> KeyLess(least, e);
    assert forall z :: z in heap && z != least ==> z in Elements(heap);
  }

  lemma RemoveAt(heap: seq<Entry>, at: nat)
    requires at < |heap| && NoDuplicates(heap)
    ensures NoDuplicates(heap[..at] + heap[at + 1..])
    ensures Elements(heap[..at] + heap[at + 1..]) == Elements(heap) - {heap[at]}
  {
    var rest := heap[..at] + heap[at + 1..];
    forall e ensures e in rest <==> e in heap && e != heap[at] {
      if e in heap && e != heap[at] {
        var k :| 0 <= k < |heap| && heap[k] == e;
        assert e == rest[if k < at then k else k - 1];
      }
    }
    assert forall e :: e in Elements(rest) <==> e in rest;
  }

  // The two pops of one iteration: x comes before y, and both come before all the others.
  method PopTwo(heap: seq<Entry>) returns (x: Entry, y: Entry, rest: seq<Entry>)
    requires |heap| >= 2 && NoDuplicates(heap) && ValidHeap(Elements(heap))
    ensures x in Elements(heap) && y in Elements(heap) && x != y
    ensures forall z :: z in heap && z != x ==> x.freq < z.freq || (x.freq == z.freq && x.minSymbol < z.minSymbol)
    ensures forall z :: z in heap && z != x && z != y ==>
      y.freq < z.freq || (y.freq == z.freq && y.minSymbol < z.minSymbol)
    ensures IsLeast(x, Elements(heap)) && IsLeast(y, Elements(heap) - {x})
    ensures NoDuplicates(rest) && |rest| == |heap| - 2 && Elements(rest) == Elements(heap) - {x} - {y}
  {
    var afterX;
    x, afterX := HeapPop(heap);
    y, rest := HeapPop(afterX);
    forall z | z in heap && z != x ensures z in afterX {
      assert z in Elements(heap) - {x};
      assert z in Elements(afterX);
    }
  }

  lemma RoundOfLeast(heap: set<Entry>, x: Entry, y: Entry)
    requires |heap| >= 2 && ValidHeap(heap) && IsLeast(x, heap) && IsLeast(y, heap - {x})
    ensures MergeRound(heap) == heap - {x} - {y} + {Merge(x, y)} && Merge(x, y) !in heap
  {
    LeastUnique(heap, x, Least(heap));
    assert |heap - {x}| == |heap| - 1;
    LeastUnique(heap - {x}, y, Least(heap - {x}));
    MergeIsNew(heap, x, y);
  }

  lemma PushNew(rest: seq<Entry>, e: Entry)
    requires NoDuplicates(rest) && e !in Elements(rest)
    ensures NoDuplicates(rest + [e]) && Elements(rest + [e]) == Elements(rest) + {e}
  {
    forall k | 0 <= k < |rest| ensures rest[k] != e {
      assert rest[k] in Elements(rest);
    }
  }

  // One iteration of the merge loop, on the list that heapq works on. The entry popped first goes to the left.
  method MergeTwoLeast(heap: seq<Entry>) returns (next: seq<Entry>, ghost x: Entry, ghost y: Entry)
    requires |heap| >= 2 && NoDuplicates(heap) && ValidHeap(Elements(heap))
    requires |Elements(heap)| == |heap|
    ensures NoDuplicates(next) && |next| == |heap| - 1
    ensures Elements(next) == MergeRound(Elements(heap))
    ensures x in Elements(heap) && y in Elements(heap) && x != y
    ensures forall z :: z in heap && z != x ==> x.freq < z.freq || (x.freq == z.freq && x.minSymbol < z.minSymbol)
    ensures forall z :: z in heap && z != x && z != y ==>
      y.freq < z.freq || (y.freq == z.freq && y.minSymbol < z.minSymbol)
    ensures Elements(next) == Elements(heap) - {x} - {y}
      + {Entry(x.freq + y.freq, if x.minSymbol < y.minSymbol then x.minSymbol else y.minSymbol, Node(x.node, y.node))}
  {
    var first, second, rest := PopTwo(heap);
    RoundOfLeast(Elements(heap), first, second);
    PushNew(rest, Merge(first, second));
    next := rest + [Merge(first, second)];
    x, y := first, second;
  }

  lemma LeavesOfOrder(freq: Frequencies, order: seq<Byte>, heap: seq<Entry>)
    requires NoDuplicates(order) && (forall s :: s in order <==> s in freq)
    requires |heap| == |order|
    requires forall i :: 0 <= i < |order| ==> heap[i] == Entry(freq[order[i]], order[i], Leaf(order[i]))
    ensures Elements(heap) == HeapOf(freq) && NoDuplicates(heap)
  {
    forall s | s in freq ensures Entry(freq[s], s, Leaf(s)) in heap {
      var i :| 0 <= i < |order| && order[i] == s;
      assert heap[i] == Entry(freq[s], s, Leaf(s));
    }
  }

  // The list comprehension that fills the heap; `order` is the iteration order of the dict.
  method LeafHeap(freq: Frequencies, order: seq<Byte>) returns (heap: seq<Entry>)
    requires NoDuplicates(order) && (forall s :: s in order <==> s in freq)
    ensures NoDuplicates(heap) && |heap| == |freq| && Elements(heap) == HeapOf(freq)
  {
    heap := seq(|order|, i requires 0 <= i < |order| => Entry(freq[order[i]], order[i], Leaf(order[i])));
    LeavesOfOrder(freq, order, heap);
    ElementsSize(heap);
  }

  // _build_tree: the dict order differs between encoder and decoder, the tree does not.
  method BuildTree(freq: Frequencies, order: seq<Byte>) returns (r: Result<Tree>)
    requires NoDuplicates(order) && (forall s :: s in order <==> s in freq)
    ensures freq == map[] ==> r == Failure(IndexError)
    ensures freq != map[] ==> r == Success(HuffmanTree(freq))
  {
    var heap := LeafHeap(freq, order);
    if |heap| == 0 {
      return Failure(IndexError);
    }
    ghost var tree := HuffmanTree(freq);
    while |heap| > 1
      invariant heap != [] && NoDuplicates(heap) && ValidHeap(Elements(heap))
      invariant |Elements(heap)| == |heap|
      invariant Build(Elements(heap)) == tree
      decreases |heap|
    {
      ghost var x, y;
      heap, x, y := MergeTwoLeast(heap);
      ElementsSize(heap);
    }
    assert heap[0] in Elements(heap);
    return Success(heap[0].node);
  }

  lemma LeastUnique(heap: set<Entry>, x: Entry, y: Entry)
    requires IsLeast(x, heap) && IsLeast(y, heap)
    ensures x == y
  {
  }
}
