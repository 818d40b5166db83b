/** No prefix-free code beats the two-smallest merge loop of crypto/huffman.py. */
module HuffmanOptimality {
  import opened Arithmetic
  import opened HuffmanTrees
  import opened SetSums

  type Lengths = Entry -> nat

  // The total weight the merge loop pushes back onto the heap.
  ghost function MergeCost(heap: set<Entry>): nat
    requires heap != {} && ValidHeap(heap)
    decreases |heap|
  {
    if |heap| == 1 then 0 else
      assert |heap| >= 2;
      FirstPop(heap).freq + SecondPop(heap).freq + MergeCost(MergeRound(heap))
  }

  ghost function FirstPop(heap: set<Entry>): (e: Entry)
    requires |heap| >= 2 && ValidHeap(heap)
    ensures IsLeast(e, heap)
  {
    Least(heap)
  }

  ghost function SecondPop(heap: set<Entry>): (e: Entry)
    requires |heap| >= 2 && ValidHeap(heap)
    ensures IsLeast(e, heap - {FirstPop(heap)})
  {
    assert |heap - {FirstPop(heap)}| == |heap| - 1;
    Least(heap - {FirstPop(heap)})
  }

  // --- lengths and Kraft sums over heap entries -------------------------------------------------

  // The share of a word of length l in a Kraft sum scaled by 2^limit.
  function Share(limit: nat, l: nat): nat {
    if l <= limit then Pow2(limit - l) else 0
  }

  ghost function Shares(limit: nat, len: Lengths): Entry -> int {
    (e: Entry) => Share(limit, len(e))
  }

  ghost function Weighted(len: Lengths): Entry -> int {
    (e: Entry) => e.freq * len(e)
  }

  ghost predicate Kraft(heap: set<Entry>, len: Lengths, limit: nat) {
    && (forall e :: e in heap ==> len(e) <= limit)
    && Sum(heap, Shares(limit, len)) <= Pow2(limit)
  }

  ghost function Longest(heap: set<Entry>, len: Lengths, limit: nat): set<Entry> {
    set e | e in heap && len(e) == limit
  }

  ghost function SetLength(len: Lengths, x: Entry, l: nat): Lengths {
    (e: Entry) => if e == x then l else len(e)
  }

  lemma {:induction false} SharesHalve(heap: set<Entry>, len: Lengths, limit: nat)
    requires limit > 0
    requires forall e :: e in heap ==> len(e) < limit
    ensures Sum(heap, Shares(limit, len)) == 2 * Sum(heap, Shares(limit - 1, len))
  {
    SumDouble(heap, Shares(limit - 1, len), Shares(limit, len));
  }

  lemma LimitPositive(heap: set<Entry>, len: Lengths, limit: nat)
    requires |heap| >= 2 && Kraft(heap, len, limit)
    ensures limit > 0
  {
    if limit == 0 {
      var x :| x in heap;
      assert |heap - {x}| == |heap| - 1;
      var y :| y in heap - {x};
      SumRemove(heap, Shares(limit, len), x);
      SumRemove(heap - {x}, Shares(limit, len), y);
      SumNonnegative(heap - {x} - {y}, Shares(limit, len));
      assert false;
    }
  }

  // With a single longest word (or none) that word can be cut by one bit: parity leaves room for it.
  lemma Tighten(heap: set<Entry>, len: Lengths, limit: nat) returns (shorter: Lengths)
    requires |heap| >= 2 && limit > 0 && Kraft(heap, len, limit)
    requires |Longest(heap, len, limit)| <= 1
    ensures Kraft(heap, shorter, limit - 1)
    ensures Sum(heap, Weighted(shorter)) <= Sum(heap, Weighted(len))
  {
    if Longest(heap, len, limit) == {} {
      NoneLongest(heap, len, limit);
      return len;
    }
    var x :| x in Longest(heap, len, limit);
    assert |Longest(heap, len, limit) - {x}| == 0;
    shorter := SetLength(len, x, limit - 1);
    CutLongest(heap, len, limit, x);
    ShorterIsLighter(heap, len, shorter, x);
  }

  lemma ShorterIsLighter(heap: set<Entry>, len: Lengths, shorter: Lengths, x: Entry)
    requires x in heap && shorter(x) <= len(x)
    requires forall e :: e in heap && e != x ==> shorter(e) == len(e)
    ensures Sum(heap, Weighted(shorter)) <= Sum(heap, Weighted(len))
  {
    SumUpdate(heap, Weighted(len), Weighted(shorter), x);
    Rearrange(0, x.freq, shorter(x), len(x));
  }

  lemma NoneLongest(heap: set<Entry>, len: Lengths, limit: nat)
    requires limit > 0 && Kraft(heap, len, limit) && Longest(heap, len, limit) == {}
    ensures Kraft(heap, len, limit - 1)
  {
    forall e | e in heap ensures len(e) < limit {
      assert e !in Longest(heap, len, limit);
    }
    SharesHalve(heap, len, limit);
  }

  lemma CutLongest(heap: set<Entry>, len: Lengths, limit: nat, x: Entry)
    requires limit > 0 && x in heap && Kraft(heap, len, limit)
    requires Longest(heap, len, limit) == {x}
    ensures Kraft(heap, SetLength(len, x, limit - 1), limit - 1)
  {
    var others := heap - {x};
    var shorter := SetLength(len, x, limit - 1);
    forall e | e in others ensures len(e) < limit {
      assert e !in Longest(heap, len, limit);
    }
    SumRemove(heap, Shares(limit, len), x);
    SharesHalve(others, len, limit);
    SumRemove(heap, Shares(limit - 1, shorter), x);
    SumCongruent(others, Shares(limit - 1, shorter), Shares(limit - 1, len));
  }

  lemma SumUpdateTwo(heap: set<Entry>, f: Entry -> int, g: Entry -> int, x: Entry, y: Entry)
    requires x in heap && y in heap && x != y
    requires forall e :: e in heap && e != x && e != y ==> f(e) == g(e)
    ensures Sum(heap, g) - Sum(heap, f) == g(x) - f(x) + g(y) - f(y)
  {
    SumRemove(heap, f, y);
    SumRemove(heap, g, y);
    SumUpdate(heap - {y}, f, g, x);
  }

  // Giving the lighter of two entries the longer word never costs more.
  lemma Swap(heap: set<Entry>, len: Lengths, limit: nat, light: Entry, heavy: Entry) returns (swapped: Lengths)
    requires Kraft(heap, len, limit)
    requires light in heap && heavy in heap && light.freq <= heavy.freq && len(light) <= len(heavy)
    ensures Kraft(heap, swapped, limit)
    ensures swapped(light) == len(heavy) && swapped(heavy) == len(light)
    ensures forall e :: e != light && e != heavy ==> swapped(e) == len(e)
    ensures Sum(heap, Weighted(swapped)) <= Sum(heap, Weighted(len))
  {
    swapped := SetLength(SetLength(len, light, len(heavy)), heavy, len(light));
    if light == heavy {
      SumCongruent(heap, Shares(limit, swapped), Shares(limit, len));
      SumCongruent(heap, Weighted(swapped), Weighted(len));
      return;
    }
    SumUpdateTwo(heap, Shares(limit, len), Shares(limit, swapped), light, heavy);
    SumUpdateTwo(heap, Weighted(len), Weighted(swapped), light, heavy);
    Rearrange(light.freq, heavy.freq, len(light), len(heavy));
  }

  lemma SplitTwo(heap: set<Entry>, f: Entry -> int, x: Entry, y: Entry)
    requires x in heap && y in heap && x != y
    ensures Sum(heap, f) == f(x) + f(y) + Sum(heap - {x} - {y}, f)
  {
    SumRemove(heap, f, x);
    SumRemove(heap - {x}, f, y);
  }

  lemma Rearrange(a: int, b: int, s: int, t: int)
    requires a <= b && s <= t
    ensures a * t + b * s <= a * s + b * t
  {
    assert (b - a) * (t - s) >= 0;
    assert (b - a) * (t - s) == b * t - b * s - a * t + a * s;
  }

  // Any two of the longest words can be handed to the two entries the loop pops next.
  lemma SinkTwoLeast(heap: set<Entry>, len: Lengths, limit: nat) returns (sunk: Lengths)
    requires |heap| >= 2 && ValidHeap(heap) && Kraft(heap, len, limit)
    requires |Longest(heap, len, limit)| >= 2
    ensures Kraft(heap, sunk, limit)
    ensures sunk(FirstPop(heap)) == limit && sunk(SecondPop(heap)) == limit
    ensures Sum(heap, Weighted(sunk)) <= Sum(heap, Weighted(len))
  {
    var x, y := TwoLongest(heap, len, limit, FirstPop(heap));
    sunk := Swap(heap, len, limit, FirstPop(heap), x);
    assert y in heap - {FirstPop(heap)} && sunk(y) == limit;
    sunk := Swap(heap, sunk, limit, SecondPop(heap), y);
  }

  // Two of the longest words; the second one does not belong to `first`.
  lemma TwoLongest(heap: set<Entry>, len: Lengths, limit: nat, first: Entry) returns (x: Entry, y: Entry)
    requires |Longest(heap, len, limit)| >= 2
    ensures x in heap && y in heap && x != y && y != first && len(x) == limit && len(y) == limit
  {
    var deepest := Longest(heap, len, limit);
    x :| x in deepest;
    if first in deepest {
      x := first;
    }
    assert |deepest - {x}| == |deepest| - 1;
    y :| y in deepest - {x};
  }

  // Merging two words of full length yields one word a bit shorter ...
  lemma MergeKeepsKraft(heap: set<Entry>, len: Lengths, limit: nat, x: Entry, y: Entry, m: Entry)
    requires limit > 0 && Kraft(heap, len, limit)
    requires x in heap && y in heap && x != y && m !in heap && len(x) == limit && len(y) == limit
    ensures Kraft(heap - {x} - {y} + {m}, SetLength(len, m, limit - 1), limit)
  {
    SumMerge(heap, Shares(limit, len), Shares(limit, SetLength(len, m, limit - 1)), x, y, m);
  }

  // ... and saves their joint weight.
  lemma MergeSaves(heap: set<Entry>, len: Lengths, limit: nat, x: Entry, y: Entry, m: Entry)
    requires limit > 0
    requires x in heap && y in heap && x != y && m !in heap && len(x) == limit && len(y) == limit
    requires m.freq == x.freq + y.freq
    ensures Sum(heap, Weighted(len))
         == Sum(heap - {x} - {y} + {m}, Weighted(SetLength(len, m, limit - 1))) + x.freq + y.freq
  {
    SumMerge(heap, Weighted(len), Weighted(SetLength(len, m, limit - 1)), x, y, m);
    Distribute(x.freq, y.freq, limit);
  }

  lemma Distribute(a: int, b: int, l: int)
    ensures (a + b) * (l - 1) == a * l + b * l - a - b
  {
  }

  lemma SumMerge(heap: set<Entry>, f: Entry -> int, g: Entry -> int, x: Entry, y: Entry, m: Entry)
    requires x in heap && y in heap && x != y && m !in heap
    requires forall e :: e in heap ==> f(e) == g(e)
    ensures Sum(heap - {x} - {y} + {m}, g) == Sum(heap, f) - f(x) - f(y) + g(m)
  {
    SplitTwo(heap, f, x, y);
    var others := heap - {x} - {y};
    SumRemove(others + {m}, g, m);
    assert others + {m} - {m} == others;
    SumCongruent(others, f, g);
  }

  lemma MergedPair(heap: set<Entry>) returns (first: Entry, second: Entry, m: Entry)
    requires |heap| >= 2 && ValidHeap(heap)
    ensures first == FirstPop(heap) && second == SecondPop(heap) && first in heap && second in heap && first != second
    ensures m !in heap && m == Merge(first, second)
    ensures MergeRound(heap) == heap - {first} - {second} + {m}
  {
    first, second := FirstPop(heap), SecondPop(heap);
    m := Merge(first, second);
    MergeIsNew(heap, first, second);
  }

  lemma SinkAndMerge(heap: set<Entry>, len: Lengths, limit: nat) returns (next: Lengths)
    requires |heap| >= 2 && limit > 0 && ValidHeap(heap) && Kraft(heap, len, limit)
    requires |Longest(heap, len, limit)| >= 2
    ensures Kraft(MergeRound(heap), next, limit)
    ensures Sum(MergeRound(heap), Weighted(next)) + FirstPop(heap).freq + SecondPop(heap).freq
         <= Sum(heap, Weighted(len))
  {
    var sunk := SinkTwoLeast(heap, len, limit);
    var first, second, m := MergedPair(heap);
    MergeKeepsKraft(heap, sunk, limit, first, second, m);
    MergeSaves(heap, sunk, limit, first, second, m);
    next := SetLength(sunk, m, limit - 1);
  }

  lemma SingleCost(heap: set<Entry>, len: Lengths)
    requires |heap| == 1 && ValidHeap(heap)
    ensures heap != {} && MergeCost(heap) <= Sum(heap, Weighted(len))
  {
    assert heap != {};
    SumNonnegative(heap, Weighted(len));
  }

  lemma MergedCost(heap: set<Entry>, len: Lengths, next: Lengths)
    requires |heap| >= 2 && ValidHeap(heap)
    requires MergeRound(heap) != {} && ValidHeap(MergeRound(heap))
    requires MergeCost(MergeRound(heap)) <= Sum(MergeRound(heap), Weighted(next))
    requires Sum(MergeRound(heap), Weighted(next)) + FirstPop(heap).freq + SecondPop(heap).freq
          <= Sum(heap, Weighted(len))
    ensures heap != {} && MergeCost(heap) <= Sum(heap, Weighted(len))
  {
    SmallerHeap(heap);
  }

  lemma SmallerHeap(heap: set<Entry>)
    requires |heap| >= 2 && ValidHeap(heap)
    ensures heap != {} && MergeRound(heap) != {} && |MergeRound(heap)| < |heap| && ValidHeap(MergeRound(heap))
    ensures MergeCost(heap) == FirstPop(heap).freq + SecondPop(heap).freq + MergeCost(MergeRound(heap))
  {
    assert |heap| != 0;
  }

  // Every assignment of lengths that satisfies Kraft's inequality costs at least what the loop pays.
  lemma {:induction false} MergeCostIsLeast(heap: set<Entry>, len: Lengths, limit: nat)
    requires heap != {} && ValidHeap(heap) && Kraft(heap, len, limit)
    ensures MergeCost(heap) <= Sum(heap, Weighted(len))
    decreases |heap|, limit
  {
    assert |heap| != 0;
    if |heap| == 1 {
      SingleCost(heap, len);
    } else {
      LimitPositive(heap, len, limit);
      if |Longest(heap, len, limit)| <= 1 {
        var shorter := Tighten(heap, len, limit);
        MergeCostIsLeast(heap, shorter, limit - 1);
      } else {
        SmallerHeap(heap);
        var next := SinkAndMerge(heap, len, limit);
        MergeCostIsLeast(MergeRound(heap), next, limit);
        MergedCost(heap, len, next);
      }
    }
  }
}
