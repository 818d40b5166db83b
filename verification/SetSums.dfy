/** Sums over finite sets, the accounting tool behind the Huffman cost theorems. */
module SetSums {

  // The sum of f over s. The order in which elements are picked does not matter: see SumRemove.
  ghost function Sum<T(!new)>(s: set<T>, f: T -> int): int {
    if s == {} then 0 else
      var x :| x in s;
      f(x) + Sum(s - {x}, f)
  }

  lemma {:induction false} SumRemove<T(!new)>(s: set<T>, f: T -> int, x: T)
    requires x in s
    ensures Sum(s, f) == f(x) + Sum(s - {x}, f)
    decreases |s|
  {
    var y :| y in s && Sum(s, f) == f(y) + Sum(s - {y}, f);
    if y != x {
      SumRemove(s - {y}, f, x);
      SumRemove(s - {x}, f, y);
      assert s - {y} - {x} == s - {x} - {y};
    }
  }

  lemma {:induction false} SumUnion<T(!new)>(a: set<T>, b: set<T>, f: T -> int)
    requires a !! b
    ensures Sum(a + b, f) == Sum(a, f) + Sum(b, f)
    decreases |a|
  {
    if a == {} {
      assert a + b == b;
    } else {
      var x :| x in a;
      SumRemove(a, f, x);
      SumRemove(a + b, f, x);
      assert a + b - {x} == (a - {x}) + b;
      SumUnion(a - {x}, b, f);
    }
  }

  lemma {:induction false} SumCongruent<T(!new)>(s: set<T>, f: T -> int, g: T -> int)
    requires forall x :: x in s ==> f(x) == g(x)
    ensures Sum(s, f) == Sum(s, g)
    decreases |s|
  {
    if s != {} {
      var x :| x in s;
      SumRemove(s, f, x);
      SumRemove(s, g, x);
      SumCongruent(s - {x}, f, g);
    }
  }

  lemma {:induction false} SumNonnegative<T(!new)>(s: set<T>, f: T -> int)
    requires forall x :: x in s ==> 0 <= f(x)
    ensures 0 <= Sum(s, f)
    decreases |s|
  {
    if s != {} {
      var x :| x in s;
      SumRemove(s, f, x);
      SumNonnegative(s - {x}, f);
    }
  }

  lemma {:induction false} SumPlus<T(!new)>(s: set<T>, f: T -> int, g: T -> int, h: T -> int)
    requires forall x :: x in s ==> h(x) == f(x) + g(x)
    ensures Sum(s, h) == Sum(s, f) + Sum(s, g)
    decreases |s|
  {
    if s != {} {
      var x :| x in s;
      SumRemove(s, f, x);
      SumRemove(s, g, x);
      SumRemove(s, h, x);
      SumPlus(s - {x}, f, g, h);
    }
  }

  lemma SumDouble<T(!new)>(s: set<T>, f: T -> int, g: T -> int)
    requires forall x :: x in s ==> g(x) == 2 * f(x)
    ensures Sum(s, g) == 2 * Sum(s, f)
  {
    SumPlus(s, f, f, g);
  }

  lemma SumUpdate<T(!new)>(s: set<T>, f: T -> int, g: T -> int, x: T)
    requires x in s && forall e :: e in s && e != x ==> f(e) == g(e)
    ensures Sum(s, g) - Sum(s, f) == g(x) - f(x)
  {
    SumRemove(s, f, x);
    SumRemove(s, g, x);
    SumCongruent(s - {x}, f, g);
  }

  ghost function Image<T(!new), U(!new)>(s: set<T>, m: T -> U): set<U> {
    set x | x in s :: m(x)
  }

  // Summing over the image of an injection is summing the composed function over its domain.
  lemma {:induction false} SumImage<T(!new), U(!new)>(s: set<T>, m: T -> U, f: U -> int, g: T -> int)
    requires forall x, y :: x in s && y in s && m(x) == m(y) ==> x == y
    requires forall x :: x in s ==> g(x) == f(m(x))
    ensures Sum(Image(s, m), f) == Sum(s, g)
    decreases |s|
  {
    if s != {} {
      var x :| x in s;
      SumRemove(s, g, x);
      assert m(x) in Image(s, m);
      SumRemove(Image(s, m), f, m(x));
      SumImage(s - {x}, m, f, g);
      assert Image(s, m) - {m(x)} == Image(s - {x}, m);
    }
  }
}
