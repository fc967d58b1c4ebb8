/*
 * The annihilator solver (`get_annihilators` in annihilator.py).
 *
 * Given the truth table f of an l-variable function and a degree bound d, the
 * solver keeps a stack S of polynomials (lists of monomials). It walks through
 * the points x where f is 1 in increasing order. At each such point it first
 * pushes, as one-monomial polynomials, every monomial of weight at most d not
 * yet pushed that is numerically at most x; then it takes the topmost
 * polynomial that is 1 at x, adds it to every lower polynomial that is 1 at x
 * and drops it. After the last point it pushes the remaining monomials.
 *
 * The model proves what the returned list is: every polynomial in it vanishes
 * at every point where f is 1, uses only monomials of weight at most d, and
 * the lists are in echelon form (each polynomial is strictly increasing and
 * the first monomials strictly increase along the list), from which linear
 * independence follows, although it is not proved here; and there are at
 * least as many of them as monomials of weight at most d minus points where
 * f is 1.
 */
module Annihilators {
  import opened Bits
  import opened Toolbox
  import opened Monomials
  import Counter

  /** The monomials of weight at most d, in increasing order. */
  function MonomialsUpTo(l: nat, d: int): (r: seq<nat>)
    ensures StrictlyIncreasing(r)
    ensures forall k :: 0 <= k < |r| ==> r[k] < Pow2(l) && Popcount(r[k]) <= d
  {
    Band(Pow2(l), 0, d)
  }

  /** The list of monomials as the solver builds it: step a fresh truth-table
      iterator through all 2^l entries and keep those of weight at most d. */
  method MonomialList(l: nat, d: int) returns (mons: seq<nat>)
    requires l >= 1
    ensures mons == MonomialsUpTo(l, d)
  {
    var current := AllOnes(l);
    ToIntAllOnes(l);
    mons := [];
    var i := 0;
    while i < Pow2(l)
      invariant 0 <= i <= Pow2(l) && |current| == l
      invariant ToInt(current) == (if i == 0 then Pow2(l) - 1 else i - 1)
      invariant mons == Band(i, 0, d)
    {
      current, mons := MonomialListStep(l, d, i, current, mons);
      i := i + 1;
    }
  }

  /** One turn of the loop above: step the iterator and keep its entry if it
      is light enough. Before the first step the iterator shows all ones
      (the point 2^l - 1); after step i + 1 it shows the point i. */
  method MonomialListStep(l: nat, d: int, i: nat, current: seq<bool>, mons: seq<nat>)
    returns (current': seq<bool>, mons': seq<nat>)
    requires l >= 1 && i < Pow2(l) && |current| == l
    requires ToInt(current) == (if i == 0 then Pow2(l) - 1 else i - 1)
    requires mons == Band(i, 0, d)
    ensures |current'| == l && ToInt(current') == i && mons' == Band(i + 1, 0, d)
  {
    current' := Counter.NextEntry(current);
    Counter.NextValue(current);
    WeightIsPopcount(current');
    mons' := mons;
    if Weight(current') <= d {
      mons' := mons + [ToInt(current')];
    }
  }

  /** Every monomial of weight at most d is listed. */
  lemma MonomialsUpToComplete(l: nat, d: int, m: nat)
    requires m < Pow2(l) && Popcount(m) <= d
    ensures m in MonomialsUpTo(l, d)
  {
    BandComplete(Pow2(l), 0, d, m);
  }

  // ---------------------------------------------------------------------
  // The steps of the solver
  // ---------------------------------------------------------------------

  /** "empile": push every monomial after position i that is at most x. */
  function Push(S: seq<seq<nat>>, i: nat, mons: seq<nat>, x: nat): (res: (seq<seq<nat>>, nat))
    ensures res.1 >= i
    ensures |res.0| == |S| + (res.1 - i) && res.0[..|S|] == S
    ensures forall k :: |S| <= k < |res.0| ==>
              i + 1 + k - |S| < |mons| && res.0[k] == [mons[i + 1 + k - |S|]]
    ensures forall p :: i < p <= res.1 ==> p < |mons| && mons[p] <= x
    ensures res.1 + 1 < |mons| ==> mons[res.1 + 1] > x
    decreases |mons| - i
  {
    if i + 1 < |mons| && mons[i + 1] <= x then
      var res := Push(S + [[mons[i + 1]]], i + 1, mons, x);
      assert res.0[..|S| + 1][..|S|] == S;
      res
    else (S, i)
  }

  /** The topmost position at or below s whose polynomial is 1 at x, or -1. */
  function Top(S: seq<seq<nat>>, x: nat, s: int): (t: int)
    requires -1 <= s < |S|
    ensures -1 <= t <= s
    ensures t >= 0 ==> Eval(S[t], x)
    ensures forall j :: t < j <= s && j >= 0 ==> !Eval(S[j], x)
    decreases s + 1
  {
    if s < 0 then -1
    else if Eval(S[s], x) then s
    else Top(S, x, s - 1)
  }

  /** "depile": add the topmost polynomial that is 1 at x to every lower one
      that is 1 at x, cleaning each sum, and drop it. */
  function Depile(S: seq<seq<nat>>, x: nat): (r: seq<seq<nat>>)
    ensures |r| >= |S| - 1
  {
    var s := Top(S, x, |S| - 1);
    if s < 0 then S
    else
      var T := Merged(S, x, s);
      T[..s] + T[s + 1..]
  }

  /** The stack with the pivot polynomial s added to every lower polynomial that is 1 at x. */
  function Merged(S: seq<seq<nat>>, x: nat, s: nat): (T: seq<seq<nat>>)
    requires s < |S|
    ensures |T| == |S|
  {
    seq(|S|, j requires 0 <= j < |S| =>
        if j < s && Eval(S[j], x) then Clean(S[j] + S[s]) else S[j])
  }

  /** The first point at or after y where f is 1, or |f|. */
  function NextOne(f: seq<bool>, y: nat): (r: nat)
    requires y <= |f|
    ensures y <= r <= |f|
    ensures r < |f| ==> f[r]
    ensures forall z :: y <= z < r ==> !f[z]
    decreases |f| - y
  {
    if y == |f| then y
    else if f[y] then y
    else NextOne(f, y + 1)
  }

  /** The main loop, entered at a point x where f is 1. */
  function Solve(f: seq<bool>, mons: seq<nat>, S: seq<seq<nat>>, i: nat, x: nat): seq<seq<nat>>
    requires x < |f|
    decreases |f| - x
  {
    var (S1, i1) := Push(S, i, mons, x);
    var S2 := Depile(S1, x);
    var xp := NextOne(f, x + 1);
    if xp == |f| then Push(S2, i1, mons, xp).0
    else Solve(f, mons, S2, i1, xp)
  }

  /** `get_annihilators`: with no point where f is 1, every monomial alone;
      otherwise the solver started with the constant polynomial 1. */
  function GetAnnihilators(f: seq<bool>, l: nat, d: int): (R: seq<seq<nat>>)
    requires l >= 1 && |f| == Pow2(l)
    ensures Triangular(R)
    ensures forall k, y :: 0 <= k < |R| && 0 <= y < |f| && f[y] ==> !Eval(R[k], y)
  {
    var mons := MonomialsUpTo(l, d);
    if !(true in f) then
      SingletonsTriangular(mons);
      seq(|mons|, j requires 0 <= j < |mons| => [mons[j]])
    else
      SolverStart(f, l, d);
      Solve(f, mons, [[0]], 0, FirstOne(f))
  }

  /** Every monomial of a strictly increasing list alone forms a triangular stack. */
  lemma SingletonsTriangular(mons: seq<nat>)
    requires StrictlyIncreasing(mons)
    ensures Triangular(seq(|mons|, j requires 0 <= j < |mons| => [mons[j]]))
  {
  }

  // ---------------------------------------------------------------------
  // The invariants of the stack
  // ---------------------------------------------------------------------

  /** Each polynomial is non-empty and strictly increasing, and their first
      monomials strictly increase along the stack. */
  predicate Triangular(S: seq<seq<nat>>)
  {
    (forall k :: 0 <= k < |S| ==> |S[k]| >= 1 && StrictlyIncreasing(S[k]))
    && (forall j, k :: 0 <= j < k < |S| && |S[j]| >= 1 && |S[k]| >= 1 ==> S[j][0] < S[k][0])
  }

  /** Every monomial on the stack is the constant one or one of mons. */
  predicate Drawn(S: seq<seq<nat>>, mons: seq<nat>)
  {
    forall k, t :: 0 <= k < |S| && 0 <= t < |S[k]| ==> S[k][t] == 0 || S[k][t] in mons
  }

  /** Every monomial on the stack is below the next monomial to push. */
  predicate Before(S: seq<seq<nat>>, mons: seq<nat>, i: nat)
  {
    i + 1 < |mons| ==> forall k, t :: 0 <= k < |S| && 0 <= t < |S[k]| ==> S[k][t] < mons[i + 1]
  }

  /** Every polynomial on the stack is 0 at the points below x where f is 1. */
  predicate Vanishes(S: seq<seq<nat>>, f: seq<bool>, x: nat)
  {
    forall k, y :: 0 <= k < |S| && 0 <= y < x && y < |f| && f[y] ==> !Eval(S[k], y)
  }

  /** The points below x where f is 1 lie below the next monomial to push. */
  predicate Fresh(f: seq<bool>, mons: seq<nat>, i: nat, x: nat)
  {
    i + 1 < |mons| ==> forall y :: 0 <= y < x && y < |f| && f[y] ==> y < mons[i + 1]
  }

  predicate Inv(f: seq<bool>, mons: seq<nat>, S: seq<seq<nat>>, i: nat, x: nat)
  {
    StrictlyIncreasing(mons) && x <= |f|
    && Triangular(S) && Drawn(S, mons) && Before(S, mons, i)
    && Vanishes(S, f, x) && Fresh(f, mons, i, x)
    && |S| + Weight(f[..x]) >= i + 1
  }

  /** Pushing keeps the invariant, and afterwards every monomial at most x is on the stack. */
  lemma PushKeeps(f: seq<bool>, mons: seq<nat>, S: seq<seq<nat>>, i: nat, x: nat)
    requires Inv(f, mons, S, i, x)
    ensures var (S1, i1) := Push(S, i, mons, x);
      Inv(f, mons, S1, i1, x) && (i1 + 1 < |mons| ==> mons[i1 + 1] > x)
  {
    PushTriangular(mons, S, i, x);
    PushDrawn(mons, S, i, x);
    PushBefore(mons, S, i, x);
    PushVanishes(f, mons, S, i, x);
  }

  /** Entry k of the stack after pushing: an old polynomial, or a fresh monomial. */
  lemma {:induction false} PushAt(S: seq<seq<nat>>, i: nat, mons: seq<nat>, x: nat, k: nat)
    requires k < |Push(S, i, mons, x).0|
    ensures var S1 := Push(S, i, mons, x).0;
      if k < |S| then S1[k] == S[k]
      else i + 1 + k - |S| < |mons| && S1[k] == [mons[i + 1 + k - |S|]]
    decreases |mons| - i
  {
    if i + 1 < |mons| && mons[i + 1] <= x {
      var S' := S + [[mons[i + 1]]];
      assert Push(S, i, mons, x) == Push(S', i + 1, mons, x);
      PushAt(S', i + 1, mons, x, k);
      if k < |S| {
        assert S'[k] == S[k];
      } else if k == |S| {
        assert S'[k] == [mons[i + 1]];
      }
    }
  }

  lemma PushTriangular(mons: seq<nat>, S: seq<seq<nat>>, i: nat, x: nat)
    requires StrictlyIncreasing(mons) && Triangular(S) && Before(S, mons, i)
    ensures Triangular(Push(S, i, mons, x).0)
  {
    var S1 := Push(S, i, mons, x).0;
    forall k | 0 <= k < |S1|
      ensures |S1[k]| >= 1 && StrictlyIncreasing(S1[k])
    {
      PushAt(S, i, mons, x, k);
    }
    forall j, k | 0 <= j < k < |S1|
      ensures S1[j][0] < S1[k][0]
    {
      PushAt(S, i, mons, x, j);
      PushAt(S, i, mons, x, k);
      if j < |S| && k >= |S| {
        assert S1[k][0] == mons[i + 1 + k - |S|];
        assert S[j][0] < mons[i + 1];
      }
    }
  }

  lemma PushDrawn(mons: seq<nat>, S: seq<seq<nat>>, i: nat, x: nat)
    requires Drawn(S, mons)
    ensures Drawn(Push(S, i, mons, x).0, mons)
  {
    var S1 := Push(S, i, mons, x).0;
    forall k, t | 0 <= k < |S1| && 0 <= t < |S1[k]|
      ensures S1[k][t] == 0 || S1[k][t] in mons
    {
      PushAt(S, i, mons, x, k);
    }
  }

  lemma PushBefore(mons: seq<nat>, S: seq<seq<nat>>, i: nat, x: nat)
    requires StrictlyIncreasing(mons) && Before(S, mons, i)
    ensures var (S1, i1) := Push(S, i, mons, x);
      Before(S1, mons, i1) && (i1 + 1 < |mons| ==> mons[i1 + 1] > x)
  {
    var (S1, i1) := Push(S, i, mons, x);
    forall k, t | 0 <= k < |S1| && 0 <= t < |S1[k]| && i1 + 1 < |mons|
      ensures S1[k][t] < mons[i1 + 1]
    {
      PushAt(S, i, mons, x, k);
      if k < |S| && i + 1 < i1 + 1 {
        assert S1[k][t] < mons[i + 1];
      }
    }
  }

  lemma PushVanishes(f: seq<bool>, mons: seq<nat>, S: seq<seq<nat>>, i: nat, x: nat)
    requires Vanishes(S, f, x) && Fresh(f, mons, i, x) && StrictlyIncreasing(mons)
    ensures Vanishes(Push(S, i, mons, x).0, f, x)
  {
    var S1 := Push(S, i, mons, x).0;
    forall k, y | 0 <= k < |S1| && 0 <= y < x && y < |f| && f[y]
      ensures !Eval(S1[k], y)
    {
      PushAt(S, i, mons, x, k);
      if k >= |S| {
        var m := mons[i + 1 + k - |S|];
        assert y < mons[i + 1] <= m;
        if Covers(y, m) {
          CoversLe(y, m);
        }
        assert S1[k][..0] == [];
      }
    }
  }

  lemma DepileKeeps(f: seq<bool>, mons: seq<nat>, S: seq<seq<nat>>, i: nat, x: nat)
    requires x < |f| && f[x]
    requires Inv(f, mons, S, i, x)
    ensures Triangular(Depile(S, x)) && Drawn(Depile(S, x), mons)
    ensures Before(Depile(S, x), mons, i) && Vanishes(Depile(S, x), f, x + 1)
  {
    var R := Depile(S, x);
    var s := Top(S, x, |S| - 1);
    if s >= 0 {
      assert Pivot(S, f, x, s);
      var T := Merged(S, x, s);
      assert R == T[..s] + T[s + 1..];
      RemoveTriangular(S, f, x, s);
      RemoveDrawn(S, f, mons, i, x, s);
      RemoveVanishes(S, f, x, s);
    } else {
      assert R == S;
    }
  }

  /** The pivot s is the topmost polynomial that is 1 at x, on a stack that
      is triangular and 0 at the points before x where f is 1. */
  predicate Pivot(S: seq<seq<nat>>, f: seq<bool>, x: nat, s: nat)
  {
    Triangular(S) && Vanishes(S, f, x) && x < |f| && f[x]
    && s < |S| && Eval(S[s], x) && forall j :: s < j < |S| ==> !Eval(S[j], x)
  }

  /** Entry k of the merged stack keeps its first monomial, draws its
      monomials from the stack, and (unless it is the pivot) vanishes at x
      and at every earlier point where f is 1. */
  lemma MergedAt(S: seq<seq<nat>>, f: seq<bool>, x: nat, s: nat, k: nat)
    requires Pivot(S, f, x, s) && k < |S|
    ensures var T := Merged(S, x, s);
      |T[k]| >= 1 && StrictlyIncreasing(T[k]) && T[k][0] == S[k][0]
      && (forall e :: e in T[k] ==> e in S[k] || e in S[s])
      && (forall y :: 0 <= y <= x && y < |f| && f[y] && k != s ==> !Eval(T[k], y))
  {
    var T := Merged(S, x, s);
    if k < s && Eval(S[k], x) {
      assert T[k] == Clean(S[k] + S[s]);
      MergeKeeps(S, k, s, f, x);
    } else {
      assert T[k] == S[k];
      assert |S[k]| >= 1 && StrictlyIncreasing(S[k]);
      forall y | 0 <= y <= x && y < |f| && f[y] && k != s
        ensures !Eval(S[k], y)
      {
        if y < x {
          assert !Eval(S[k], y);
        }
      }
    }
  }

  /** Entry k of the stack after the pivot is dropped. */
  lemma RemovedAt(S: seq<seq<nat>>, x: nat, s: nat, k: nat)
    requires s < |S| && k < |S| - 1
    ensures var T := Merged(S, x, s);
      (T[..s] + T[s + 1..])[k] == T[if k < s then k else k + 1]
  {
  }

  lemma RemoveTriangular(S: seq<seq<nat>>, f: seq<bool>, x: nat, s: nat)
    requires Pivot(S, f, x, s)
    ensures var T := Merged(S, x, s); Triangular(T[..s] + T[s + 1..])
  {
    var T := Merged(S, x, s);
    var R := T[..s] + T[s + 1..];
    forall k | 0 <= k < |R|
      ensures |R[k]| >= 1 && StrictlyIncreasing(R[k])
    {
      RemovedAt(S, x, s, k);
      MergedAt(S, f, x, s, if k < s then k else k + 1);
    }
    forall j, k | 0 <= j < k < |R|
      ensures R[j][0] < R[k][0]
    {
      RemovedAt(S, x, s, j);
      RemovedAt(S, x, s, k);
      MergedAt(S, f, x, s, if j < s then j else j + 1);
      MergedAt(S, f, x, s, if k < s then k else k + 1);
    }
  }

  lemma RemoveDrawn(S: seq<seq<nat>>, f: seq<bool>, mons: seq<nat>, i: nat, x: nat, s: nat)
    requires Pivot(S, f, x, s) && Drawn(S, mons) && Before(S, mons, i)
    ensures var T := Merged(S, x, s); var R := T[..s] + T[s + 1..];
      Drawn(R, mons) && Before(R, mons, i)
  {
    var T := Merged(S, x, s);
    var R := T[..s] + T[s + 1..];
    forall k, t | 0 <= k < |R| && 0 <= t < |R[k]|
      ensures R[k][t] == 0 || R[k][t] in mons
      ensures i + 1 < |mons| ==> R[k][t] < mons[i + 1]
    {
      var kk := if k < s then k else k + 1;
      RemovedAt(S, x, s, k);
      MergedAt(S, f, x, s, kk);
      assert R[k][t] in T[kk];
      var k' := if R[k][t] in S[kk] then kk else s;
      var t' :| 0 <= t' < |S[k']| && S[k'][t'] == R[k][t];
    }
  }

  lemma RemoveVanishes(S: seq<seq<nat>>, f: seq<bool>, x: nat, s: nat)
    requires Pivot(S, f, x, s)
    ensures var T := Merged(S, x, s); Vanishes(T[..s] + T[s + 1..], f, x + 1)
  {
    var T := Merged(S, x, s);
    var R := T[..s] + T[s + 1..];
    forall k, y | 0 <= k < |R| && 0 <= y < x + 1 && y < |f| && f[y]
      ensures !Eval(R[k], y)
    {
      RemovedAt(S, x, s, k);
      MergedAt(S, f, x, s, if k < s then k else k + 1);
    }
  }

  /** The sum of polynomial j with the pivot polynomial s keeps j's first
      monomial and vanishes at x and at every earlier point where f is 1. */
  lemma MergeKeeps(S: seq<seq<nat>>, j: nat, s: nat, f: seq<bool>, x: nat)
    requires Triangular(S) && j < s < |S|
    requires Vanishes(S, f, x) && x < |f|
    requires Eval(S[j], x) && Eval(S[s], x)
    ensures var c := Clean(S[j] + S[s]);
      |c| >= 1 && c[0] == S[j][0]
      && (forall e :: e in c ==> e in S[j] || e in S[s])
      && (forall y :: 0 <= y <= x && y < |f| && f[y] ==> !Eval(c, y))
  {
    var a := S[j] + S[s];
    forall k | 1 <= k < |a|
      ensures a[0] < a[k]
    {
      if k < |S[j]| {
      } else {
        assert a[k] == S[s][k - |S[j]|];
        assert S[s][0] <= S[s][k - |S[j]|];
      }
    }
    CleanKeepsLeast(a);
    var c := Clean(a);
    forall e | e in c
      ensures e in S[j] || e in S[s]
    {
      assert e in multiset(c);
      assert e in multiset(a);
    }
    forall y | 0 <= y <= x && y < |f| && f[y]
      ensures !Eval(c, y)
    {
      CleanEval(a, y);
      EvalConcat(S[j], S[s], y);
    }
  }

  // ---------------------------------------------------------------------
  // The solver's result
  // ---------------------------------------------------------------------

  lemma WeightStep(f: seq<bool>, x: nat, y: nat)
    requires x < y <= |f| && f[x]
    ensures Weight(f[..y]) >= Weight(f[..x]) + 1
    decreases y
  {
    if y == x + 1 {
      assert f[..y][..x] == f[..x];
    } else {
      WeightStep(f, x, y - 1);
      assert f[..y][..y - 1] == f[..y - 1];
    }
  }

  lemma {:induction false} SolveCorrect(f: seq<bool>, mons: seq<nat>, S: seq<seq<nat>>, i: nat, x: nat)
    requires x < |f| && f[x]
    requires Inv(f, mons, S, i, x)
    requires forall k :: 0 <= k < |mons| ==> mons[k] < |f|
    ensures var R := Solve(f, mons, S, i, x);
      Triangular(R) && Drawn(R, mons) && Vanishes(R, f, |f|)
      && |R| + Weight(f) >= |mons|
    decreases |f| - x
  {
    var (S1, i1) := Push(S, i, mons, x);
    PushKeeps(f, mons, S, i, x);
    var S2 := Depile(S1, x);
    DepileKeeps(f, mons, S1, i1, x);
    var xp := NextOne(f, x + 1);
    WeightStep(f, x, xp);
    assert Fresh(f, mons, i1, xp);
    assert Vanishes(S2, f, xp);
    if xp == |f| {
      var (S3, i3) := Push(S2, i1, mons, xp);
      PushKeeps(f, mons, S2, i1, xp);
      assert f[..|f|] == f;
      assert i3 + 1 >= |mons|;
    } else {
      SolveCorrect(f, mons, S2, i1, xp);
    }
  }

  /** Every returned polynomial is an annihilator of f of degree at most d,
      the list is in echelon form, and it is at least as long as the number of
      monomials of weight at most d minus the number of points where f is 1. */
  lemma GetAnnihilatorsCorrect(f: seq<bool>, l: nat, d: int)
    requires l >= 1 && |f| == Pow2(l)
    ensures var R := GetAnnihilators(f, l, d);
      Triangular(R)
      && (forall k, t :: 0 <= k < |R| && 0 <= t < |R[k]| ==>
            R[k][t] < Pow2(l) && Popcount(R[k][t]) <= d)
      && (forall k, y :: 0 <= k < |R| && 0 <= y < |f| && f[y] ==> !Eval(R[k], y))
      && |R| + Weight(f) >= |MonomialsUpTo(l, d)|
  {
    if d < 0 {
      NegativeDegree(f, l, d);
      BandEmpty(Pow2(l), 0, d);
    } else if true in f {
      SolvedCorrect(f, l, d);
    } else {
      NoOnesCorrect(f, l, d);
    }
  }

  lemma NoOnesCorrect(f: seq<bool>, l: nat, d: int)
    requires l >= 1 && |f| == Pow2(l) && !(true in f)
    ensures var R := GetAnnihilators(f, l, d);
      Triangular(R)
      && (forall k, t :: 0 <= k < |R| && 0 <= t < |R[k]| ==>
            R[k][t] < Pow2(l) && Popcount(R[k][t]) <= d)
      && |R| == |MonomialsUpTo(l, d)|
  {
    var mons := MonomialsUpTo(l, d);
    var R := GetAnnihilators(f, l, d);
    forall k | 0 <= k < |R|
      ensures R[k] == [mons[k]]
    {
    }
    assert Triangular(R);
  }

  lemma SolvedCorrect(f: seq<bool>, l: nat, d: int)
    requires l >= 1 && |f| == Pow2(l) && d >= 0 && true in f
    ensures var R := GetAnnihilators(f, l, d);
      Triangular(R)
      && (forall k, t :: 0 <= k < |R| && 0 <= t < |R[k]| ==>
            R[k][t] < Pow2(l) && Popcount(R[k][t]) <= d)
      && (forall k, y :: 0 <= k < |R| && 0 <= y < |f| && f[y] ==> !Eval(R[k], y))
      && |R| + Weight(f) >= |MonomialsUpTo(l, d)|
  {
    SolverStart(f, l, d);
  }

  /** With no point where f is 1 every function annihilates f, and the
      result lists each monomial of weight at most d on its own. */
  lemma NoOnes(f: seq<bool>, l: nat, d: int)
    requires l >= 1 && |f| == Pow2(l) && !(true in f)
    ensures var R := GetAnnihilators(f, l, d);
      && (forall k :: 0 <= k < |R| ==> |R[k]| == 1)
      && (forall m: nat :: m < Pow2(l) && Popcount(m) <= d ==> [m] in R)
  {
    var mons := MonomialsUpTo(l, d);
    var R := GetAnnihilators(f, l, d);
    forall m: nat | m < Pow2(l) && Popcount(m) <= d
      ensures [m] in R
    {
      MonomialsUpToComplete(l, d, m);
      var j :| 0 <= j < |mons| && mons[j] == m;
      assert R[j] == [m];
    }
  }

  /** Below degree 0 there is no monomial to offer, and the constant 1 that
      seeds the solver is dropped at the first point where f is 1: the
      result is empty. */
  lemma NegativeDegree(f: seq<bool>, l: nat, d: int)
    requires l >= 1 && |f| == Pow2(l)
    ensures d < 0 ==> GetAnnihilators(f, l, d) == []
  {
    if d < 0 {
      var mons := MonomialsUpTo(l, d);
      BandEmpty(Pow2(l), 0, d);
      assert mons == [];
      if true in f {
        SolveSeeded(f, FirstOne(f));
      }
    }
  }

  /** With nothing to push, the solver seeded with the constant 1 ends empty. */
  lemma SolveSeeded(f: seq<bool>, x: nat)
    requires x < |f|
    ensures Solve(f, [], [[0]], 0, x) == []
  {
    assert Push([[0]], 0, [], x) == ([[0]], 0);
    SeedDropped(x);
    var xp := NextOne(f, x + 1);
    if xp < |f| {
      SolveEmpty(f, 0, xp);
    }
  }

  /** The constant 1 is 1 everywhere, so the first "depile" drops it. */
  lemma SeedDropped(x: nat)
    ensures Depile([[0]], x) == []
  {
    assert Eval([0], x) by {
      assert [0][..0] == [];
    }
    assert Top([[0]], x, 0) == 0;
  }

  /** With nothing to push, an empty stack stays empty. */
  lemma {:induction false} SolveEmpty(f: seq<bool>, i: nat, x: nat)
    requires x < |f|
    ensures Solve(f, [], [], i, x) == []
    decreases |f| - x
  {
    var xp := NextOne(f, x + 1);
    if xp < |f| {
      SolveEmpty(f, i, xp);
    }
  }

  /** The invariant holds when the solver starts at the first point where f is 1. */
  lemma SolverStart(f: seq<bool>, l: nat, d: int)
    requires l >= 1 && |f| == Pow2(l) && true in f
    ensures var mons := MonomialsUpTo(l, d);
      var R := Solve(f, mons, [[0]], 0, FirstOne(f));
      Triangular(R) && Drawn(R, mons) && Vanishes(R, f, |f|)
      && |R| + Weight(f) >= |mons|
  {
    var mons := MonomialsUpTo(l, d);
    var x := FirstOne(f);
    assert f[..x] == Zeros(x);
    ZeroWeight(x);
    var S: seq<seq<nat>> := [[0]];
    assert StrictlyIncreasing(S[0]);
    assert Triangular(S);
    assert Drawn(S, mons);
    if 1 < |mons| {
      assert mons[0] < mons[1];
    }
    assert Before(S, mons, 0);
    assert Inv(f, mons, S, 0, x);
    SolveCorrect(f, mons, S, 0, x);
  }

  lemma {:induction false} ZeroWeight(n: nat)
    ensures Weight(Zeros(n)) == 0
  {
    if n > 0 {
      assert Zeros(n)[..n - 1] == Zeros(n - 1);
      ZeroWeight(n - 1);
    }
  }

  /** In the ANF layout of the class BF, every returned annihilator g gives a
      truth table that is 0 wherever f is 1. */
  lemma AnnihilatorTables(f: seq<bool>, l: nat, d: int, k: nat, y: nat)
    requires l >= 1 && |f| == Pow2(l)
    requires k < |GetAnnihilators(f, l, d)| && y < |f| && f[y]
    ensures !Moebius(AnfOf(GetAnnihilators(f, l, d)[k], l), l)[y]
  {
    var R := GetAnnihilators(f, l, d);
    GetAnnihilatorsCorrect(f, l, d);
    var g := R[k];
    EvalIsMoebius(g, l, y);
  }
}
