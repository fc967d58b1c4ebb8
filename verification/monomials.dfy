/*
 * Polynomials as lists of monomials (annihilator.py). A monomial is the
 * number whose set bits are its variables; a polynomial is the list of its
 * monomials, where a monomial listed twice cancels. This module covers the
 * evaluation of such a list, the clean-up that sorts it and cancels repeated
 * monomials, and the truncation to a degree.
 */
module Monomials {
  import opened Bits
  import opened Sums
  import opened Toolbox

  /** `evaluate_function`: the parity of the number of listed monomials whose
      variables are all set in x. */
  function Eval(g: seq<nat>, x: nat): bool
  {
    if |g| == 0 then false
    else Eval(g[..|g| - 1], x) != Covers(x, g[|g| - 1])
  }

  lemma {:induction false} EvalConcat(a: seq<nat>, b: seq<nat>, x: nat)
    ensures Eval(a + b, x) == (Eval(a, x) != Eval(b, x))
  {
    if |b| > 0 {
      EvalConcat(a, b[..|b| - 1], x);
      assert (a + b)[..|a + b| - 1] == a + b[..|b| - 1];
    } else {
      assert a + b == a;
    }
  }

  predicate Sorted(s: seq<nat>)
  {
    forall i, j :: 0 <= i < j < |s| ==> s[i] <= s[j]
  }

  predicate StrictlyIncreasing(s: seq<nat>)
  {
    forall i, j :: 0 <= i < j < |s| ==> s[i] < s[j]
  }

  // ---------------------------------------------------------------------
  // Sorting (the list method `sort`)
  // ---------------------------------------------------------------------

  /** e inserted into the sorted list s before its first larger entry. */
  function Insert(s: seq<nat>, e: nat): (r: seq<nat>)
    requires Sorted(s)
    ensures Sorted(r)
    ensures multiset(r) == multiset(s) + multiset{e}
    ensures forall k :: 0 <= k < |r| ==> r[k] == e || r[k] in s
  {
    if |s| == 0 then [e]
    else if e <= s[0] then [e] + s
    else
      var t := Insert(s[1..], e);
      assert s == [s[0]] + s[1..];
      SortedAbove(s, t, e);
      ConsSorted(s[0], t);
      [s[0]] + t
  }

  /** Every entry of a sorted list, and every value above its head, is at
      least its head. */
  lemma SortedAbove(s: seq<nat>, t: seq<nat>, e: nat)
    requires Sorted(s) && |s| > 0 && s[0] <= e
    requires forall k :: 0 <= k < |t| ==> t[k] == e || t[k] in s[1..]
    ensures forall k :: 0 <= k < |t| ==> s[0] <= t[k]
  {
    forall k | 0 <= k < |t|
      ensures s[0] <= t[k]
    {
      if t[k] != e {
        var j :| 0 <= j < |s[1..]| && s[1..][j] == t[k];
        assert s[0] <= s[j + 1];
      }
    }
  }

  /** A head no larger than the entries of a sorted list keeps it sorted. */
  lemma ConsSorted(h: nat, t: seq<nat>)
    requires Sorted(t) && forall k :: 0 <= k < |t| ==> h <= t[k]
    ensures Sorted([h] + t)
  {
    var r := [h] + t;
    forall i, j | 0 <= i < j < |r|
      ensures r[i] <= r[j]
    {
      assert r[j] == t[j - 1];
      if i > 0 {
        assert r[i] == t[i - 1];
      }
    }
  }

  function Sort(a: seq<nat>): (r: seq<nat>)
    ensures Sorted(r)
    ensures multiset(r) == multiset(a)
  {
    if |a| == 0 then []
    else
      assert a == a[..|a| - 1] + [a[|a| - 1]];
      Insert(Sort(a[..|a| - 1]), a[|a| - 1])
  }

  lemma {:induction false} EvalInsert(s: seq<nat>, e: nat, x: nat)
    requires Sorted(s)
    ensures Eval(Insert(s, e), x) == (Eval(s, x) != Covers(x, e))
  {
    if |s| == 0 {
      assert [e][..0] == [];
    } else if e <= s[0] {
      EvalConcat([e], s, x);
      assert [e][..0] == [];
    } else {
      EvalInsert(s[1..], e, x);
      EvalConcat([s[0]], Insert(s[1..], e), x);
      EvalConcat([s[0]], s[1..], x);
      assert [s[0]][..0] == [];
      assert s == [s[0]] + s[1..];
    }
  }

  /** Sorting does not change the polynomial. */
  lemma {:induction false} EvalSort(a: seq<nat>, x: nat)
    ensures Eval(Sort(a), x) == Eval(a, x)
  {
    if |a| > 0 {
      EvalSort(a[..|a| - 1], x);
      EvalInsert(Sort(a[..|a| - 1]), a[|a| - 1], x);
    }
  }

  // ---------------------------------------------------------------------
  // Cancelling repeated monomials (`clean_monomials`)
  // ---------------------------------------------------------------------

  /** The loop of `clean_monomials` from position i: two equal neighbours at
      i and i + 1 are both removed, otherwise i advances. */
  function RemovePairs(a: seq<nat>, i: nat): seq<nat>
    requires i <= |a|
    requires Sorted(a) && StrictlyIncreasing(a[..i])
    requires 0 < i < |a| ==> a[i - 1] < a[i]
    decreases 2 * |a| - i
  {
    if i + 1 >= |a| then a
    else if a[i] == a[i + 1] then
      var b := a[..i] + a[i + 2..];
      DropPair(a, i);
      RemovePairs(b, i)
    else
      Advance(a, i);
      RemovePairs(a, i + 1)
  }

  /** The loop leaves a strictly increasing list that keeps the checked
      prefix and draws its monomials from a. */
  lemma {:induction false} RemovePairsShape(a: seq<nat>, i: nat)
    requires i <= |a|
    requires Sorted(a) && StrictlyIncreasing(a[..i])
    requires 0 < i < |a| ==> a[i - 1] < a[i]
    ensures var r := RemovePairs(a, i);
      && StrictlyIncreasing(r)
      && |r| >= i && r[..i] == a[..i]
      && multiset(r) <= multiset(a)
    decreases 2 * |a| - i
  {
    if i + 1 >= |a| {
      FinalPosition(a, i);
    } else if a[i] == a[i + 1] {
      var b := a[..i] + a[i + 2..];
      DropPair(a, i);
      RemovePairsShape(b, i);
    } else {
      Advance(a, i);
      RemovePairsShape(a, i + 1);
      var r := RemovePairs(a, i + 1);
      assert r[..i] == r[..i + 1][..i];
    }
  }

  lemma FinalPosition(a: seq<nat>, i: nat)
    requires i <= |a| && i + 1 >= |a|
    requires Sorted(a) && StrictlyIncreasing(a[..i])
    requires 0 < i < |a| ==> a[i - 1] < a[i]
    ensures StrictlyIncreasing(a)
  {
    if i < |a| {
      assert a == a[..i] + [a[i]];
    } else {
      assert a == a[..i];
    }
  }

  lemma DropPair(a: seq<nat>, i: nat)
    requires i + 1 < |a| && a[i] == a[i + 1]
    requires Sorted(a) && StrictlyIncreasing(a[..i])
    requires 0 < i ==> a[i - 1] < a[i]
    ensures var b := a[..i] + a[i + 2..];
      && Sorted(b) && b[..i] == a[..i]
      && (0 < i < |b| ==> b[i - 1] < b[i])
      && multiset(b) <= multiset(a)
      && |b| == |a| - 2
  {
    var b := a[..i] + a[i + 2..];
    assert b[..i] == a[..i];
    assert Sorted(b) by { DropSorted(a, i); }
    assert 0 < i < |b| ==> b[i - 1] < b[i] by {
      if 0 < i < |b| {
        assert b[i - 1] == a[i - 1] && b[i] == a[i + 2];
      }
    }
    assert multiset(b) <= multiset(a) by { DropMultiset(a, i); }
  }

  /** Removing two adjacent entries keeps a sorted sequence sorted. */
  lemma DropSorted(a: seq<nat>, i: nat)
    requires i + 1 < |a| && Sorted(a)
    ensures Sorted(a[..i] + a[i + 2..])
  {
    var b := a[..i] + a[i + 2..];
    forall p, q | 0 <= p < q < |b|
      ensures b[p] <= b[q]
    {
      var p' := if p < i then p else p + 2;
      var q' := if q < i then q else q + 2;
      assert b[p] == a[p'] && b[q] == a[q'];
    }
  }

  /** Removing entries only shrinks the multiset. */
  lemma DropMultiset(a: seq<nat>, i: nat)
    requires i + 1 < |a|
    ensures multiset(a[..i] + a[i + 2..]) <= multiset(a)
  {
    assert a == a[..i + 2] + a[i + 2..];
    assert a[..i + 2] == a[..i] + [a[i], a[i + 1]];
  }


  lemma Advance(a: seq<nat>, i: nat)
    requires i + 1 < |a| && a[i] != a[i + 1]
    requires Sorted(a) && StrictlyIncreasing(a[..i])
    requires 0 < i ==> a[i - 1] < a[i]
    ensures StrictlyIncreasing(a[..i + 1]) && a[i] < a[i + 1]
  {
    assert a[..i + 1] == a[..i] + [a[i]];
  }

  lemma {:induction false} EvalRemovePairs(a: seq<nat>, i: nat, x: nat)
    requires i <= |a|
    requires Sorted(a) && StrictlyIncreasing(a[..i])
    requires 0 < i < |a| ==> a[i - 1] < a[i]
    ensures Eval(RemovePairs(a, i), x) == Eval(a, x)
    decreases 2 * |a| - i
  {
    if i + 1 >= |a| {
    } else if a[i] == a[i + 1] {
      DropPair(a, i);
      EvalRemovePairs(a[..i] + a[i + 2..], i, x);
      EvalDropPair(a, i, x);
    } else {
      Advance(a, i);
      EvalRemovePairs(a, i + 1, x);
    }
  }

  /** Two equal monomials cancel. */
  lemma EvalDropPair(a: seq<nat>, i: nat, x: nat)
    requires i + 1 < |a| && a[i] == a[i + 1]
    ensures Eval(a[..i] + a[i + 2..], x) == Eval(a, x)
  {
    assert a == a[..i] + [a[i], a[i + 1]] + a[i + 2..];
    EvalConcat(a[..i] + [a[i], a[i + 1]], a[i + 2..], x);
    EvalConcat(a[..i], [a[i], a[i + 1]], x);
    EvalConcat(a[..i], a[i + 2..], x);
    var pair := [a[i], a[i + 1]];
    assert pair[..1] == [a[i]];
    assert [a[i]][..0] == [];
    assert Eval([a[i]], x) == Covers(x, a[i]);
    assert !Eval(pair, x);
  }

  /** `clean_monomials`: sort, then cancel repeated monomials in pairs. */
  function Clean(a: seq<nat>): (r: seq<nat>)
    ensures StrictlyIncreasing(r)
    ensures multiset(r) <= multiset(a)
  {
    RemovePairsShape(Sort(a), 0);
    RemovePairs(Sort(a), 0)
  }

  /** Cleaning does not change the polynomial. */
  lemma CleanEval(a: seq<nat>, x: nat)
    ensures Eval(Clean(a), x) == Eval(a, x)
  {
    EvalRemovePairs(Sort(a), 0, x);
    EvalSort(a, x);
  }

  /** Cleaning keeps exactly the monomials that occur an odd number of times. */
  lemma CleanOdd(a: seq<nat>)
    ensures forall e :: e in Clean(a) <==> multiset(a)[e] % 2 == 1
  {
    RemovePairsParity(Sort(a), 0);
    StrictCount(Clean(a));
    OddSurvivors(Clean(a), multiset(a));
  }

  /** A list holding each monomial at most once, with the parities of y,
      holds exactly the monomials y counts an odd number of times. */
  lemma OddSurvivors(r: seq<nat>, y: multiset<nat>)
    requires SameParity(multiset(r), y)
    requires forall e :: multiset(r)[e] <= 1
    ensures forall e :: e in r <==> y[e] % 2 == 1
  {
    forall e
      ensures e in r <==> y[e] % 2 == 1
    {
      assert multiset(r)[e] % 2 == y[e] % 2;
      assert e in r <==> multiset(r)[e] > 0;
    }
  }

  /** Every monomial occurs in x and y with counts of the same parity. */
  ghost predicate SameParity(x: multiset<nat>, y: multiset<nat>)
  {
    forall e :: x[e] % 2 == y[e] % 2
  }

  /** The loop of `clean_monomials` keeps the parity of every count. */
  lemma {:induction false} RemovePairsParity(a: seq<nat>, i: nat)
    requires i <= |a|
    requires Sorted(a) && StrictlyIncreasing(a[..i])
    requires 0 < i < |a| ==> a[i - 1] < a[i]
    ensures SameParity(multiset(RemovePairs(a, i)), multiset(a))
    decreases 2 * |a| - i
  {
    if i + 1 >= |a| {
    } else if a[i] == a[i + 1] {
      var b := a[..i] + a[i + 2..];
      DropPair(a, i);
      assert SameParity(multiset(RemovePairs(b, i)), multiset(b)) by {
        RemovePairsParity(b, i);
      }
      assert SameParity(multiset(b), multiset(a)) by {
        DropPairCount(a, i);
        ParityPair(multiset(b), a[i], multiset(a));
      }
      assert RemovePairs(a, i) == RemovePairs(b, i);
      ParityTrans(multiset(RemovePairs(b, i)), multiset(b), multiset(a));
    } else {
      Advance(a, i);
      RemovePairsParity(a, i + 1);
    }
  }

  lemma ParityPair(x: multiset<nat>, c: nat, y: multiset<nat>)
    requires x + multiset{c, c} == y
    ensures SameParity(x, y)
  {
    forall e
      ensures x[e] % 2 == y[e] % 2
    {
      if e == c {
        assert y[e] == x[e] + 2;
      } else {
        assert y[e] == x[e];
      }
    }
  }

  lemma ParityTrans(x: multiset<nat>, y: multiset<nat>, z: multiset<nat>)
    requires SameParity(x, y) && SameParity(y, z)
    ensures SameParity(x, z)
  {
    forall e
      ensures x[e] % 2 == z[e] % 2
    {
      assert x[e] % 2 == y[e] % 2;
    }
  }

  /** Removing two equal neighbours takes two from one count. */
  lemma DropPairCount(a: seq<nat>, i: nat)
    requires i + 1 < |a| && a[i] == a[i + 1]
    ensures multiset(a[..i] + a[i + 2..]) + multiset{a[i], a[i]} == multiset(a)
  {
    assert a == a[..i] + [a[i], a[i + 1]] + a[i + 2..];
  }

  /** A strictly increasing list holds each monomial at most once. */
  lemma {:induction false} StrictCount(r: seq<nat>)
    requires StrictlyIncreasing(r)
    ensures forall e :: multiset(r)[e] <= 1
  {
    if |r| > 0 {
      var k := |r| - 1;
      assert StrictlyIncreasing(r[..k]);
      StrictCount(r[..k]);
      assert r == r[..k] + [r[k]];
      assert r[k] !in r[..k];
    }
  }

  /** A first monomial smaller than every other one of the list stays first. */
  lemma CleanKeepsLeast(a: seq<nat>)
    requires |a| >= 1
    requires forall k :: 1 <= k < |a| ==> a[0] < a[k]
    ensures |Clean(a)| >= 1 && Clean(a)[0] == a[0]
  {
    var s := Sort(a);
    LeastSortsFirst(a, s);
    RemovePairsKeepsFirst(s);
  }

  /** Pair removal keeps a first entry that is smaller than the second. */
  lemma RemovePairsKeepsFirst(s: seq<nat>)
    requires Sorted(s) && |s| >= 1 && (|s| > 1 ==> s[0] < s[1])
    ensures |RemovePairs(s, 0)| >= 1 && RemovePairs(s, 0)[0] == s[0]
  {
    if |s| > 1 {
      assert RemovePairs(s, 0) == RemovePairs(s, 1);
      var r := RemovePairs(s, 1);
      assert StrictlyIncreasing(s[..1]);
      RemovePairsShape(s, 1);
      assert r[..1] == s[..1];
    }
  }

  /** A strict minimum sorts first, and only once. */
  lemma LeastSortsFirst(a: seq<nat>, s: seq<nat>)
    requires |a| >= 1
    requires forall k :: 1 <= k < |a| ==> a[0] < a[k]
    requires Sorted(s) && multiset(s) == multiset(a)
    ensures |s| == |a| && s[0] == a[0]
    ensures |s| > 1 ==> s[0] < s[1]
  {
    var m := a[0];
    assert |s| == |a| by {
      assert |multiset(s)| == |multiset(a)|;
    }
    assert multiset(a)[m] == 1 by {
      assert a == [m] + a[1..];
      assert m !in a[1..];
    }
    assert s[0] == m by {
      assert m in multiset(s);
      var k :| 0 <= k < |s| && s[k] == m;
      assert s[0] <= m;
      assert s[0] in multiset(a);
      var j :| 0 <= j < |a| && a[j] == s[0];
      assert j == 0;
    }
    if |s| > 1 {
      assert s[1] != m by {
        assert s == [s[0], s[1]] + s[2..];
      }
    }
  }

  // ---------------------------------------------------------------------
  // Degree truncation (`truncate_annihilator`)
  // ---------------------------------------------------------------------

  /** The monomials of a of weight at least d, in their order. */
  function KeepDegree(a: seq<nat>, d: int): (r: seq<nat>)
    ensures forall e :: e in r <==> e in a && Popcount(e) >= d
  {
    if |a| == 0 then []
    else
      var e := a[|a| - 1];
      assert forall y :: y in a <==> y in a[..|a| - 1] || y == e;
      KeepDegree(a[..|a| - 1], d) + (if Popcount(e) >= d then [e] else [])
  }

  /** `truncate_annihilator`: the monomials of weight at least d, sorted. */
  function TruncateAnnihilator(a: seq<nat>, d: int): (r: seq<nat>)
    ensures Sorted(r)
    ensures forall e :: e in r <==> e in a && Popcount(e) >= d
    ensures multiset(r) == multiset(KeepDegree(a, d))
  {
    var k := KeepDegree(a, d);
    var r := Sort(k);
    assert forall e :: e in r <==> e in multiset(k);
    r
  }

  // ---------------------------------------------------------------------
  // Evaluation agrees with the Moebius transform
  // ---------------------------------------------------------------------

  /** The ANF table of length 2^l of a list without repetitions. */
  function AnfOf(g: seq<nat>, l: nat): (anf: seq<bool>)
    ensures |anf| == Pow2(l)
    ensures forall m :: 0 <= m < Pow2(l) ==> (anf[m] <==> m in g)
  {
    seq(Pow2(l), m requires 0 <= m < Pow2(l) => m in g)
  }

  /** Two families of terms that differ at e only. */
  lemma XorSumFlip(n: nat, g1: nat -> bool, g2: nat -> bool, e: nat)
    requires e < n
    requires forall v: nat :: v < n && v != e ==> g1(v) == g2(v)
    ensures XorSum(n, g1) == (XorSum(n, g2) != (g1(e) != g2(e)))
  {
    XorSumXor(n, g1, g2);
    XorSumSingle(n, XorTerms(g1, g2), e);
    XorSumExt(n, XorTerms(g1, g2), XorTerms(g1, g2));
  }

  /** Evaluating a list of distinct monomials below 2^l is reading the
      Moebius transform of its ANF table. */
  lemma {:induction false} EvalIsMoebius(g: seq<nat>, l: nat, x: nat)
    requires x < Pow2(l)
    requires forall k :: 0 <= k < |g| ==> g[k] < Pow2(l)
    requires forall i, j :: 0 <= i < j < |g| ==> g[i] != g[j]
    ensures Eval(g, x) == Moebius(AnfOf(g, l), l)[x]
  {
    MoebiusSubsets(AnfOf(g, l), l, x);
    if |g| == 0 {
      XorSumFalse(Pow2(l), SubsetTerms(AnfOf(g, l), x));
    } else {
      var p := g[..|g| - 1];
      var e := g[|g| - 1];
      EvalIsMoebius(p, l, x);
      MoebiusSubsets(AnfOf(p, l), l, x);
      assert e !in p;
      XorSumFlip(Pow2(l), SubsetTerms(AnfOf(g, l), x), SubsetTerms(AnfOf(p, l), x), e);
    }
  }
}
