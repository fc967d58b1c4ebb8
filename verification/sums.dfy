/*
 * Sums over the first n points of the domain: the GF(2) sum (exclusive or)
 * used by the Moebius transform and the integer sum used by the Walsh
 * transform, with the splitting and rewriting facts the transform proofs use.
 */
module Sums {

  /** g(0) xor g(1) xor ... xor g(n-1) */
  function XorSum(n: nat, g: nat -> bool): bool
  {
    if n == 0 then false else XorSum(n - 1, g) != g(n - 1)
  }

  /** g(0) + g(1) + ... + g(n-1) */
  function Sum(n: nat, g: nat -> int): int
  {
    if n == 0 then 0 else Sum(n - 1, g) + g(n - 1)
  }

  /** The terms g(h), g(h + 1), ... renumbered from 0. */
  function Shift<T>(g: nat -> T, h: nat): (r: nat -> T)
    ensures forall v: nat :: r(v) == g(h + v)
  {
    (v: nat) => g(h + v)
  }

  /** The pointwise exclusive or of two families of terms. */
  function XorTerms(g1: nat -> bool, g2: nat -> bool): (r: nat -> bool)
    ensures forall v: nat :: r(v) == (g1(v) != g2(v))
  {
    (v: nat) => g1(v) != g2(v)
  }

  /** The pointwise sum of two families of terms. */
  function AddTerms(g1: nat -> int, g2: nat -> int): (r: nat -> int)
    ensures forall v: nat :: r(v) == g1(v) + g2(v)
  {
    (v: nat) => g1(v) + g2(v)
  }

  /** The pointwise negation of a family of terms. */
  function NegTerms(g: nat -> int): (r: nat -> int)
    ensures forall v: nat :: r(v) == -g(v)
  {
    (v: nat) => -g(v)
  }

  lemma {:induction false} XorSumExt(n: nat, g1: nat -> bool, g2: nat -> bool)
    requires forall v: nat :: v < n ==> g1(v) == g2(v)
    ensures XorSum(n, g1) == XorSum(n, g2)
  {
    if n > 0 {
      XorSumExt(n - 1, g1, g2);
    }
  }

  /** The sum over [0, h + j) is the sum over [0, h) plus the sum over [h, h + j). */
  lemma {:induction false} XorSumSplit(h: nat, j: nat, g: nat -> bool)
    ensures XorSum(h + j, g) == (XorSum(h, g) != XorSum(j, Shift(g, h)))
  {
    if j > 0 {
      XorSumSplit(h, j - 1, g);
    }
  }

  lemma {:induction false} XorSumXor(n: nat, g1: nat -> bool, g2: nat -> bool)
    ensures XorSum(n, XorTerms(g1, g2)) == (XorSum(n, g1) != XorSum(n, g2))
  {
    if n > 0 {
      XorSumXor(n - 1, g1, g2);
    }
  }

  lemma {:induction false} XorSumFalse(n: nat, g: nat -> bool)
    requires forall v: nat :: v < n ==> !g(v)
    ensures !XorSum(n, g)
  {
    if n > 0 {
      XorSumFalse(n - 1, g);
    }
  }

  /** A sum whose terms vanish except at one point e is the term at e. */
  lemma {:induction false} XorSumSingle(n: nat, g: nat -> bool, e: nat)
    requires e < n
    requires forall v: nat :: v < n && v != e ==> !g(v)
    ensures XorSum(n, g) == g(e)
  {
    if n - 1 == e {
      XorSumFalse(n - 1, g);
    } else {
      XorSumSingle(n - 1, g, e);
    }
  }

  lemma {:induction false} SumExt(n: nat, g1: nat -> int, g2: nat -> int)
    requires forall v: nat :: v < n ==> g1(v) == g2(v)
    ensures Sum(n, g1) == Sum(n, g2)
  {
    if n > 0 {
      SumExt(n - 1, g1, g2);
    }
  }

  lemma {:induction false} SumSplit(h: nat, j: nat, g: nat -> int)
    ensures Sum(h + j, g) == Sum(h, g) + Sum(j, Shift(g, h))
  {
    if j > 0 {
      SumSplit(h, j - 1, g);
    }
  }

  lemma {:induction false} SumAdd(n: nat, g1: nat -> int, g2: nat -> int)
    ensures Sum(n, AddTerms(g1, g2)) == Sum(n, g1) + Sum(n, g2)
  {
    if n > 0 {
      SumAdd(n - 1, g1, g2);
    }
  }

  lemma {:induction false} SumNeg(n: nat, g: nat -> int)
    ensures Sum(n, NegTerms(g)) == -Sum(n, g)
  {
    if n > 0 {
      SumNeg(n - 1, g);
    }
  }

  lemma {:induction false} SumBound(n: nat, g: nat -> int, b: int)
    requires forall v: nat :: v < n ==> -b <= g(v) <= b
    ensures -(n * b) <= Sum(n, g) <= n * b
  {
    if n > 0 {
      SumBound(n - 1, g, b);
    }
  }

  lemma {:induction false} SumZero(n: nat, g: nat -> int)
    requires forall v: nat :: v < n ==> g(v) == 0
    ensures Sum(n, g) == 0
  {
    if n > 0 {
      SumZero(n - 1, g);
    }
  }

  lemma {:induction false} SumSingle(n: nat, g: nat -> int, e: nat)
    requires e < n
    requires forall v: nat :: v < n && v != e ==> g(v) == 0
    ensures Sum(n, g) == g(e)
  {
    if n - 1 == e {
      SumZero(n - 1, g);
    } else {
      SumSingle(n - 1, g, e);
    }
  }

  /** An exclusive or over two halves whose upper half vanishes. */
  lemma XorSumHalvesLow(h: nat, g: nat -> bool, a: nat -> bool)
    requires forall x: nat :: x < h ==> g(x) == a(x) && !Shift(g, h)(x)
    ensures XorSum(h + h, g) == XorSum(h, a)
  {
    XorSumSplit(h, h, g);
    XorSumFalse(h, Shift(g, h));
    XorSumExt(h, g, a);
  }

  /** An exclusive or over two halves whose terms pair up with those of a and b
      as a xor b. */
  lemma XorSumHalvesXor(h: nat, g: nat -> bool, a: nat -> bool, b: nat -> bool, s: nat -> bool)
    requires forall x: nat :: x < h ==> g(x) == a(x) && g(h + x) == b(x) && s(x) == (a(x) != b(x))
    ensures XorSum(h + h, g) == XorSum(h, s)
  {
    XorSumSplit(h, h, g);
    XorSumExt(h, g, a);
    XorSumExt(h, Shift(g, h), b);
    XorSumXor(h, a, b);
    XorSumExt(h, s, XorTerms(a, b));
  }

  /** A sum over two halves whose terms pair up with those of a and b as a + b. */
  lemma SumHalvesAdd(h: nat, g: nat -> int, a: nat -> int, b: nat -> int, s: nat -> int)
    requires forall x: nat :: x < h ==> g(x) == a(x) && g(h + x) == b(x) && s(x) == a(x) + b(x)
    ensures Sum(h + h, g) == Sum(h, s)
  {
    SumSplit(h, h, g);
    SumExt(h, g, a);
    SumExt(h, Shift(g, h), b);
    SumAdd(h, a, b);
    SumExt(h, s, AddTerms(a, b));
  }

  /** A sum over two halves whose terms pair up with those of a and b as a - b. */
  lemma SumHalvesSub(h: nat, g: nat -> int, a: nat -> int, b: nat -> int, s: nat -> int)
    requires forall x: nat :: x < h ==> g(x) == a(x) && g(h + x) == -b(x) && s(x) == a(x) - b(x)
    ensures Sum(h + h, g) == Sum(h, s)
  {
    var nb := NegTerms(b);
    SumSplit(h, h, g);
    SumExt(h, g, a);
    SumExt(h, Shift(g, h), nb);
    SumNeg(h, b);
    SumAdd(h, a, nb);
    SumExt(h, s, AddTerms(a, nb));
  }

  // ---------------------------------------------------------------------
  // Regrouping a sum by classes, and sums over an injective image
  // ---------------------------------------------------------------------

  /** The terms of g whose class under c is i; the others are dropped. */
  function ClassTerms(g: nat -> bool, c: nat -> nat, i: nat): (r: nat -> bool)
    ensures forall v: nat :: r(v) == (g(v) && c(v) == i)
  {
    (v: nat) => g(v) && c(v) == i
  }

  /** Entry i is the exclusive or of the first n terms of g of class i. */
  function ClassXors(n: nat, g: nat -> bool, c: nat -> nat): (r: nat -> bool)
    ensures forall i: nat :: r(i) == XorSum(n, ClassTerms(g, c, i))
  {
    (i: nat) => XorSum(n, ClassTerms(g, c, i))
  }

  /** The single term b placed at e. */
  function Hit(b: bool, e: nat): (r: nat -> bool)
    ensures forall i: nat :: r(i) == (b && i == e)
  {
    (i: nat) => b && i == e
  }

  /** The integer terms of g whose class under c is i; the others are 0. */
  function ClassAddends(g: nat -> int, c: nat -> nat, i: nat): (r: nat -> int)
    ensures forall v: nat :: r(v) == if c(v) == i then g(v) else 0
  {
    (v: nat) => if c(v) == i then g(v) else 0
  }

  function ClassSums(n: nat, g: nat -> int, c: nat -> nat): (r: nat -> int)
    ensures forall i: nat :: r(i) == Sum(n, ClassAddends(g, c, i))
  {
    (i: nat) => Sum(n, ClassAddends(g, c, i))
  }

  function HitInt(a: int, e: nat): (r: nat -> int)
    ensures forall i: nat :: r(i) == if i == e then a else 0
  {
    (i: nat) => if i == e then a else 0
  }

  /** Grouping the terms by a class below k leaves the exclusive or unchanged. */
  lemma {:induction false} XorSumClasses(n: nat, k: nat, g: nat -> bool, c: nat -> nat)
    requires forall v: nat :: v < n ==> c(v) < k
    ensures XorSum(n, g) == XorSum(k, ClassXors(n, g, c))
  {
    if n == 0 {
      XorSumFalse(k, ClassXors(0, g, c));
    } else {
      var m := n - 1;
      XorSumClasses(m, k, g, c);
      var e := Hit(g(m), c(m));
      XorSumSingle(k, e, c(m));
      XorSumXor(k, ClassXors(m, g, c), e);
      XorSumExt(k, ClassXors(n, g, c), XorTerms(ClassXors(m, g, c), e));
    }
  }

  lemma {:induction false} SumClasses(n: nat, k: nat, g: nat -> int, c: nat -> nat)
    requires forall v: nat :: v < n ==> c(v) < k
    ensures Sum(n, g) == Sum(k, ClassSums(n, g, c))
  {
    if n == 0 {
      SumZero(k, ClassSums(0, g, c));
    } else {
      var m := n - 1;
      SumClasses(m, k, g, c);
      var e := HitInt(g(m), c(m));
      SumSingle(k, e, c(m));
      SumAdd(k, ClassSums(m, g, c), e);
      SumExt(k, ClassSums(n, g, c), AddTerms(ClassSums(m, g, c), e));
    }
  }

  /** Reindexing: when c maps [0, p) one-to-one into [0, n), onto every point
      where g is set, and h is g after c, both sums agree. */
  lemma XorSumImage(p: nat, n: nat, h: nat -> bool, c: nat -> nat, g: nat -> bool)
    requires forall v: nat :: v < p ==> c(v) < n && g(c(v)) == h(v)
    requires forall a: nat, b: nat :: a < b < p ==> c(a) != c(b)
    requires forall w: nat :: w < n && g(w) ==> exists v: nat :: v < p && c(v) == w
    ensures XorSum(p, h) == XorSum(n, g)
  {
    XorSumClasses(p, n, h, c);
    forall w: nat | w < n
      ensures ClassXors(p, h, c)(w) == g(w)
    {
      if exists v: nat :: v < p && c(v) == w {
        var v: nat :| v < p && c(v) == w;
        XorSumSingle(p, ClassTerms(h, c, w), v);
      } else {
        XorSumFalse(p, ClassTerms(h, c, w));
      }
    }
    XorSumExt(n, ClassXors(p, h, c), g);
  }

  lemma SumImage(p: nat, n: nat, h: nat -> int, c: nat -> nat, g: nat -> int)
    requires forall v: nat :: v < p ==> c(v) < n && g(c(v)) == h(v)
    requires forall a: nat, b: nat :: a < b < p ==> c(a) != c(b)
    requires forall w: nat :: w < n && g(w) != 0 ==> exists v: nat :: v < p && c(v) == w
    ensures Sum(p, h) == Sum(n, g)
  {
    SumClasses(p, n, h, c);
    forall w: nat | w < n
      ensures ClassSums(p, h, c)(w) == g(w)
    {
      if exists v: nat :: v < p && c(v) == w {
        var v: nat :| v < p && c(v) == w;
        SumSingle(p, ClassAddends(h, c, w), v);
      } else {
        SumZero(p, ClassAddends(h, c, w));
      }
    }
    SumExt(n, ClassSums(p, h, c), g);
  }
}
