/*
 * The incremental algebraic-immunity verifier (class `Verification_AI` in
 * RSF_AI.py).
 *
 * A function is fed one point at a time. The row of RM(ai - 1, l) that
 * belongs to the point is appended to the matrix of the points with the same
 * value (Mat[0] or Mat[1]) and the rank test of toolbox.py decides whether it
 * raised that matrix's rank. An annihilator of degree below ai survives as
 * long as one of the two matrices can still miss full rank, which is the case
 * once rank[0] + rank[1] plus the number of points still to come is below
 * twice the number of monomials: from then on the verifier answers false.
 *
 * The matrices hold the reduced rows, zero rows included. Zero rows have no
 * pivot and never change a later reduction, so the rank test sees exactly
 * the rows that raised the rank, and those stay in echelon form.
 *
 * A run over every point that never answers false ends with nothing left to
 * come, so both ranks equal the number of monomials. The pivot rows of each
 * side then span every coefficient vector, and a polynomial of degree below
 * ai that vanishes at all points of one value is orthogonal to them, hence
 * zero: the function and its complement have no annihilator of degree below
 * ai (`FullRunCertifies`).
 */
module AlgebraicImmunity {
  import opened Bits
  import opened Toolbox
  import opened Rank
  import opened ReedMuller
  import Counter

  /** The state of a verifier: locality, target immunity, the generator
      matrix RM(ai - 1, l), the two matrices with their ranks, the number of
      points still to come and the number of monomials. */
  datatype Verifier = Verifier(
    l: nat, ai: int, mai: seq<seq<bool>>,
    mat0: seq<seq<bool>>, mat1: seq<seq<bool>>,
    rank0: nat, rank1: nat,
    remaining: int, rankMax: nat)
  {
    function Mat(y: bool): seq<seq<bool>>
    {
      if y then mat1 else mat0
    }

    function RankOf(y: bool): nat
    {
      if y then rank1 else rank0
    }

    /** rank[0] + rank[1] + nb_remaining_elements: the verdict compares it to
        twice the number of monomials. */
    function Budget(): int
    {
      rank0 + rank1 + remaining
    }
  }

  // ---------------------------------------------------------------------
  // The invariant
  // ---------------------------------------------------------------------

  /** What every reachable verifier satisfies: the generator matrix is
      RM(ai - 1, l), each stored row has one entry per monomial, the rows that
      raised the rank are in echelon form and each rank counts them. */
  predicate Valid(v: Verifier)
  {
    v.l >= 1
    && v.mai == ReedMullerMatrix(v.ai - 1, v.l)
    && v.rankMax == ColumnCount(v.ai - 1, v.l)
    && Side(v.mat0, v.rank0, v.rankMax) && Side(v.mat1, v.rank1, v.rankMax)
  }

  /** One of the two matrices: rows of n entries, pivot rows in echelon
      form and counted by the rank. */
  predicate Side(mat: seq<seq<bool>>, rank: nat, n: nat)
  {
    Columns(mat, n) && Echelon(Pivoted(mat), n) && rank == |Pivoted(mat)|
  }

  /** The ranks never exceed the number of stored rows nor the number of
      monomials. */
  lemma ValidBounds(v: Verifier)
    requires Valid(v)
    ensures v.rank0 <= |v.mat0| && v.rank0 <= v.rankMax
    ensures v.rank1 <= |v.mat1| && v.rank1 <= v.rankMax
  {
    EchelonBound(Pivoted(v.mat0), v.rankMax);
    EchelonBound(Pivoted(v.mat1), v.rankMax);
  }

  // ---------------------------------------------------------------------
  // Operations
  // ---------------------------------------------------------------------

  /** `__init__(locality, algebraic_immunity)`: the generator matrix comes
      from the shared cache, which is returned updated. */
  function NewVerifier(c: Cache, l: nat, ai: int): (res: (Verifier, Cache))
    requires l >= 1 && CacheValid(c)
    ensures Valid(res.0) && CacheValid(res.1)
    ensures res.0.l == l && res.0.ai == ai
    ensures res.0.rankMax == ColumnCount(ai - 1, l)
    ensures res.0.mat0 == [] && res.0.mat1 == []
    ensures res.0.rank0 == 0 && res.0.rank1 == 0 && res.0.remaining == Pow2(l)
  {
    var (mai, c') := GetReedMuller(c, ai - 1, l);
    ReedMullerShape(ai - 1, l);
    (Verifier(l, ai, mai, [], [], 0, 0, Pow2(l), |mai[0]|), c')
  }

  /** `reset`: empty matrices, zero ranks, every point to come again. */
  function Reset(v: Verifier): (w: Verifier)
    ensures w.mat0 == [] && w.mat1 == [] && w.rank0 == 0 && w.rank1 == 0
    ensures w.remaining == Pow2(v.l)
    ensures w.l == v.l && w.ai == v.ai && w.mai == v.mai && w.rankMax == v.rankMax
    ensures Valid(v) ==> Valid(w)
  {
    v.(mat0 := [], mat1 := [], rank0 := 0, rank1 := 0, remaining := Pow2(v.l))
  }

  /** `corresponding_line_AI(X)`: the row of RM(ai - 1, l) of point X, whose
      cell for a monomial is the product of its variables at X. */
  function CorrespondingLine(v: Verifier, x: seq<bool>): (line: seq<bool>)
    requires Valid(v) && |x| == v.l
    ensures line == Row(x, Monomials(v.ai - 1, v.l))
    ensures |line| == v.rankMax
  {
    var i := Pow2(v.l) - (1 + ToInt(x));
    ReedMullerShape(v.ai - 1, v.l);
    ReedMullerRow(v.ai - 1, v.l, i);
    FromIntToInt(x);
    MonomialsCount(v.ai - 1, v.l);
    v.mai[i][..v.rankMax]
  }

  /** The state after a call: side y replaced, one point fewer to come. */
  function Store(v: Verifier, y: bool, mat: seq<seq<bool>>, rank: nat): (w: Verifier)
    ensures w.Mat(y) == mat && w.RankOf(y) == rank
    ensures w.Mat(!y) == v.Mat(!y) && w.RankOf(!y) == v.RankOf(!y)
    ensures w.remaining == v.remaining - 1
    ensures w.l == v.l && w.ai == v.ai && w.mai == v.mai && w.rankMax == v.rankMax
    ensures Valid(v) && Side(mat, rank, v.rankMax) ==> Valid(w)
  {
    if y then v.(mat1 := mat, rank1 := rank, remaining := v.remaining - 1)
    else v.(mat0 := mat, rank0 := rank, remaining := v.remaining - 1)
  }

  /** The rank-test half of `check_and_add`: stores `line` with the points of
      value y and reports whether the immunity can still be reached. */
  function AddLine(v: Verifier, line: seq<bool>, y: bool): (res: (Verifier, bool))
    requires Valid(v) && |line| == v.rankMax
    ensures Valid(res.0)
    ensures res.0.remaining == v.remaining - 1
    ensures |res.0.Mat(y)| == |v.Mat(y)| + 1 && res.0.Mat(y)[..|v.Mat(y)|] == v.Mat(y)
    ensures res.0.Mat(!y) == v.Mat(!y) && res.0.RankOf(!y) == v.RankOf(!y)
    ensures res.0.RankOf(y) == v.RankOf(y) || res.0.RankOf(y) == v.RankOf(y) + 1
    ensures res.0.RankOf(y) == v.RankOf(y) + 1 <==> !InSpan(Pivoted(v.Mat(y)), line)
    ensures res.0.l == v.l && res.0.ai == v.ai && res.0.mai == v.mai && res.0.rankMax == v.rankMax
    ensures res.1 <==> res.0.Budget() >= 2 * v.rankMax
  {
    var res := RankIncrease(v.Mat(y) + [line]);
    GrowSide(v.Mat(y), v.RankOf(y), v.rankMax, line);
    var w := Store(v, y, res.0, v.RankOf(y) + (if res.1 then 1 else 0));
    (w, w.Budget() >= 2 * v.rankMax)
  }

  /** `check_and_add(X, y)`: stores the row of X with the points of value y,
      runs the rank test on it and answers whether the immunity can still be
      reached. */
  function CheckAndAdd(v: Verifier, x: seq<bool>, y: bool): (res: (Verifier, bool))
    requires Valid(v) && |x| == v.l
    ensures Valid(res.0)
    ensures res.0.remaining == v.remaining - 1
    ensures |res.0.Mat(y)| == |v.Mat(y)| + 1 && res.0.Mat(y)[..|v.Mat(y)|] == v.Mat(y)
    ensures res.0.Mat(!y) == v.Mat(!y) && res.0.RankOf(!y) == v.RankOf(!y)
    ensures res.0.RankOf(y) == v.RankOf(y) || res.0.RankOf(y) == v.RankOf(y) + 1
    ensures res.0.RankOf(y) == v.RankOf(y) + 1
            <==> !InSpan(Pivoted(v.Mat(y)), CorrespondingLine(v, x))
    ensures res.0.l == v.l && res.0.ai == v.ai && res.0.mai == v.mai && res.0.rankMax == v.rankMax
    ensures res.0.Budget() <= v.Budget()
    ensures res.1 <==> res.0.Budget() >= 2 * v.rankMax
  {
    AddLine(v, CorrespondingLine(v, x), y)
  }

  /** The rank test keeps a side valid: the stored rows grow by one and the
      rank grows by one exactly when the row is outside the span. */
  lemma GrowSide(mat: seq<seq<bool>>, rank: nat, n: nat, line: seq<bool>)
    requires Side(mat, rank, n) && |line| == n
    ensures var res := RankIncrease(mat + [line]);
      && Side(res.0, rank + (if res.1 then 1 else 0), n)
      && |res.0| == |mat| + 1 && res.0[..|mat|] == mat
      && (res.1 <==> !InSpan(Pivoted(mat), line))
  {
    Grow(mat, line, n);
    var red := Reduce(Pivoted(mat), line);
    assert (mat + [red])[..|mat|] == mat;
  }

  predicate Points(v: Verifier, xs: seq<seq<bool>>, ys: seq<bool>)
  {
    |xs| == |ys| && forall i :: 0 <= i < |xs| ==> |xs[i]| == v.l
  }

  /** Dropping the first point keeps the others' width, for any state of
      the same number of variables. */
  lemma PointsTail(v: Verifier, w: Verifier, xs: seq<seq<bool>>, ys: seq<bool>)
    requires Points(v, xs, ys) && |xs| > 0 && w.l == v.l
    ensures Points(w, xs[1..], ys[1..])
  {
    forall i | 0 <= i < |xs| - 1
      ensures |xs[1..][i]| == w.l
    {
      assert xs[1..][i] == xs[i + 1];
    }
  }

  /** Feeding the points xs with values ys in order: the final state and the
      answer of every call. */
  function Run(v: Verifier, xs: seq<seq<bool>>, ys: seq<bool>): (res: (Verifier, seq<bool>))
    requires Valid(v) && Points(v, xs, ys)
    ensures Valid(res.0) && |res.1| == |xs|
    ensures res.0.l == v.l && res.0.ai == v.ai && res.0.rankMax == v.rankMax
    ensures res.0.remaining == v.remaining - |xs|
    ensures res.0.Budget() <= v.Budget()
    decreases |xs|
  {
    if |xs| == 0 then (v, [])
    else
      var c := CheckAndAdd(v, xs[0], ys[0]);
      PointsTail(v, c.0, xs, ys);
      var r := Run(c.0, xs[1..], ys[1..]);
      (r.0, [c.1] + r.1)
  }

  /** The budget only shrinks, so once an answer is false every later answer
      is false too, and a run started below the bar answers false throughout. */
  lemma {:induction false} RunMonotone(v: Verifier, xs: seq<seq<bool>>, ys: seq<bool>)
    requires Valid(v) && Points(v, xs, ys)
    ensures Monotone(Run(v, xs, ys).1)
    ensures v.Budget() < 2 * v.rankMax ==> forall k :: 0 <= k < |xs| ==> !Run(v, xs, ys).1[k]
    decreases |xs|
  {
    if |xs| > 0 {
      var c := CheckAndAdd(v, xs[0], ys[0]);
      PointsTail(v, c.0, xs, ys);
      RunFirst(v, xs, ys);
      var rest := Run(c.0, xs[1..], ys[1..]).1;
      RunMonotone(c.0, xs[1..], ys[1..]);
      ConsMonotone(c.1, rest);
      assert Run(v, xs, ys).1 == [c.1] + rest;
    }
  }

  /** The first call of a run, and the run of the remaining points. */
  lemma RunFirst(v: Verifier, xs: seq<seq<bool>>, ys: seq<bool>)
    requires Valid(v) && Points(v, xs, ys) && |xs| > 0
    ensures Points(CheckAndAdd(v, xs[0], ys[0]).0, xs[1..], ys[1..])
    ensures Run(v, xs, ys).0 == Run(CheckAndAdd(v, xs[0], ys[0]).0, xs[1..], ys[1..]).0
    ensures Run(v, xs, ys).1 == [CheckAndAdd(v, xs[0], ys[0]).1] + Run(CheckAndAdd(v, xs[0], ys[0]).0, xs[1..], ys[1..]).1
  {
    var c := CheckAndAdd(v, xs[0], ys[0]);
    PointsTail(v, c.0, xs, ys);
    var r := Run(c.0, xs[1..], ys[1..]);
    assert Run(v, xs, ys) == (r.0, [c.1] + r.1);
  }

  /** Advancing a run by one point: the answer at i is that of the call on
      point i, and the rest of the run continues from the state it leaves. */
  lemma RunAdvance(v: Verifier, xs: seq<seq<bool>>, ys: seq<bool>, i: nat, run: (Verifier, seq<bool>))
    requires Valid(v) && |xs| == |ys| && i < |xs| && Points(v, xs[i..], ys[i..]) && |run.1| == |xs|
    requires Run(v, xs[i..], ys[i..]).0 == run.0 && Run(v, xs[i..], ys[i..]).1 == run.1[i..]
    ensures |xs[i]| == v.l
    ensures Points(CheckAndAdd(v, xs[i], ys[i]).0, xs[i + 1..], ys[i + 1..])
    ensures run.1[i] == CheckAndAdd(v, xs[i], ys[i]).1
    ensures Run(CheckAndAdd(v, xs[i], ys[i]).0, xs[i + 1..], ys[i + 1..]).0 == run.0
    ensures Run(CheckAndAdd(v, xs[i], ys[i]).0, xs[i + 1..], ys[i + 1..]).1 == run.1[i + 1..]
  {
    var rest, values := xs[i..], ys[i..];
    assert rest[0] == xs[i] && values[0] == ys[i];
    assert rest[1..] == xs[i + 1..] && values[1..] == ys[i + 1..];
    RunFirst(v, rest, values);
    var step := CheckAndAdd(v, xs[i], ys[i]);
    var tail := Run(step.0, xs[i + 1..], ys[i + 1..]).1;
    assert run.1[i..] == [step.1] + tail;
    assert run.1[i] == run.1[i..][0] == step.1;
    assert run.1[i + 1..] == run.1[i..][1..] == tail;
  }

  /** The points of the domain in increasing order, as l-bit vectors: what
      successive `next_entry` calls from the all-ones state produce. */
  function Inputs(l: nat): (xs: seq<seq<bool>>)
    ensures |xs| == Pow2(l) && forall x :: 0 <= x < Pow2(l) ==> xs[x] == FromInt(l, x)
  {
    seq(Pow2(l), x requires 0 <= x < Pow2(l) => FromInt(l, x))
  }

  /** The counter state before point x is visited: all ones before the
      first point, the previous point afterwards. */
  function CounterBefore(l: nat, x: nat): (v: seq<bool>)
    ensures |v| == l
  {
    if x == 0 then AllOnes(l) else FromInt(l, x - 1)
  }

  /** `next_entry` on that state yields point x. */
  lemma NextPoint(l: nat, x: nat)
    requires x < Pow2(l)
    ensures Counter.Next(CounterBefore(l, x)) == Inputs(l)[x]
  {
    Counter.Enumeration(l, x + 1);
    if x > 0 {
      Counter.Enumeration(l, x);
    }
  }

  /** The points in the order the loop of `is_algebraic_immune` visits
      them: a counter started at all ones and advanced by `next_entry`. */
  method EnumerateInputs(l: nat) returns (xs: seq<seq<bool>>)
    ensures xs == Inputs(l)
  {
    ghost var all := Inputs(l);
    var inputs := AllOnes(l);
    xs := [];
    var i := 0;
    while i < Pow2(l)
      invariant 0 <= i <= Pow2(l) && inputs == CounterBefore(l, i)
      invariant xs == all[..i]
    {
      NextPoint(l, i);
      inputs := Counter.Next(inputs);
      assert all[..i + 1] == all[..i] + [all[i]];
      xs := xs + [inputs];
      i := i + 1;
    }
    assert all[..i] == all;
  }

  /** The loop of `is_algebraic_immune`: the points are fed in order with
      their values, stopping at the first false answer. The result is true
      iff every answer of the whole run is true, and then the final state is
      the run's. Fed every expected point from empty matrices, a true
      result leaves no nonzero polynomial of degree below ai vanishing on
      either side. */
  method Feed(v0: Verifier, xs: seq<seq<bool>>, ys: seq<bool>) returns (v: Verifier, res: bool)
    requires Valid(v0) && Points(v0, xs, ys)
    ensures Valid(v) && v.l == v0.l && v.ai == v0.ai
    ensures res <==> forall k :: 0 <= k < |xs| ==> Run(v0, xs, ys).1[k]
    ensures res ==> v == Run(v0, xs, ys).0
    ensures res && v0.mat0 == [] && v0.mat1 == [] && v0.remaining == |xs| > 0 ==>
      forall y: bool, a: seq<bool> :: ZeroAt(v0.ai, v0.l, a, xs, ys, y) ==> a == Zeros(|a|)
  {
    ghost var run := Run(v0, xs, ys);
    v := v0;
    var i := 0;
    assert xs[i..] == xs && ys[i..] == ys;
    while i < |xs|
      invariant 0 <= i <= |xs|
      invariant Valid(v) && v.l == v0.l && v.ai == v0.ai && Points(v, xs[i..], ys[i..])
      invariant Run(v, xs[i..], ys[i..]).0 == run.0
      invariant Run(v, xs[i..], ys[i..]).1 == run.1[i..]
      invariant forall k :: 0 <= k < i ==> run.1[k]
    {
      RunAdvance(v, xs, ys, i, run);
      var step := CheckAndAdd(v, xs[i], ys[i]);
      v := step.0;
      if !step.1 {
        return v, false;
      }
      i := i + 1;
    }
    assert xs[|xs|..] == [] && ys[|xs|..] == [];
    if v0.mat0 == [] && v0.mat1 == [] && v0.remaining == |xs| > 0 {
      forall y: bool, a: seq<bool> | ZeroAt(v0.ai, v0.l, a, xs, ys, y)
        ensures a == Zeros(|a|)
      {
        FullRunCertifies(v0, xs, ys, y, a);
      }
    }
    return v, true;
  }

  /** Once false, always false: a property of answer lists kept by adding a
      first answer that, when false, is followed only by false answers. */
  predicate Monotone(a: seq<bool>)
  {
    forall i, j :: 0 <= i <= j < |a| && !a[i] ==> !a[j]
  }

  lemma ConsMonotone(a: bool, rest: seq<bool>)
    requires Monotone(rest)
    requires !a ==> forall k :: 0 <= k < |rest| ==> !rest[k]
    ensures Monotone([a] + rest)
    ensures (!a && forall k :: 0 <= k < |rest| ==> !rest[k]) ==> forall k :: 0 <= k < |rest| + 1 ==> !([a] + rest)[k]
  {
    var s := [a] + rest;
    forall i, j | 0 <= i <= j < |s| && !s[i]
      ensures !s[j]
    {
      if i > 0 {
        assert s[i] == rest[i - 1] && s[j] == rest[j - 1];
      } else if j > 0 {
        assert s[j] == rest[j - 1];
      }
    }
    if !a && forall k :: 0 <= k < |rest| ==> !rest[k] {
      forall k | 0 <= k < |s|
        ensures !s[k]
      {
        if k > 0 {
          assert s[k] == rest[k - 1];
        }
      }
    }
  }

  // ---------------------------------------------------------------------
  // What a run without a false answer certifies
  // ---------------------------------------------------------------------

  /** The polynomial of degree below ai whose coefficients over the columns
      of RM(ai - 1, l) are a is 0 at every point xs[i] with ys[i] == y: its
      value at a point is the product of the point's row with a. */
  predicate ZeroAt(ai: int, l: nat, a: seq<bool>, xs: seq<seq<bool>>, ys: seq<bool>, y: bool)
  {
    |a| == |Monomials(ai - 1, l)| && |ys| == |xs|
    && forall i :: 0 <= i < |xs| && ys[i] == y ==> !Parity(Row(xs[i], Monomials(ai - 1, l)), a)
  }

  /** AI(f) >= ai for the function with truth table tt: no polynomial of
      degree below ai other than zero vanishes at every point where f is 1
      (an annihilator of f) or at every point where f is 0 (an annihilator
      of f + 1). */
  ghost predicate NoAnnihilatorBelow(tt: seq<bool>, l: nat, ai: int)
  {
    forall y: bool, a: seq<bool> :: ZeroAt(ai, l, a, Inputs(l), tt, y) ==> a == Zeros(|a|)
  }

  /** Storing the reduced row of a point where a vanishes keeps a orthogonal
      to the stored rows: the reduced row is the row plus stored rows. */
  lemma GrowOrthogonal(mat: seq<seq<bool>>, n: nat, line: seq<bool>, a: seq<bool>)
    requires Columns(mat, n) && Echelon(Pivoted(mat), n) && |line| == n && |a| == n
    requires Orthogonal(mat, a) && !Parity(line, a)
    ensures Orthogonal(RankIncrease(mat + [line]).0, a)
  {
    Grow(mat, line, n);
    var p := Pivoted(mat);
    var m := Combination(p, Selection(p, line), n);
    ReduceIsCombination(p, line);
    PivotedOrthogonal(mat, a);
    OrthogonalCombination(p, Selection(p, line), a);
    ParityXor(line, m, a);
    var res := mat + [Reduce(p, line)];
    forall i | 0 <= i < |res|
      ensures |res[i]| == |a| && !Parity(res[i], a)
    {
      if i < |mat| {
        assert res[i] == mat[i];
      }
    }
  }

  /** One call keeps a orthogonal to the rows of a side, when a vanishes at
      the point if the point lands on that side. */
  lemma CheckAndAddOrthogonal(v: Verifier, x: seq<bool>, y: bool, side: bool, a: seq<bool>)
    requires Valid(v) && |x| == v.l && |a| == |Monomials(v.ai - 1, v.l)|
    requires Orthogonal(v.Mat(side), a)
    requires y == side ==> !Parity(Row(x, Monomials(v.ai - 1, v.l)), a)
    ensures Orthogonal(CheckAndAdd(v, x, y).0.Mat(side), a)
  {
    if y == side {
      var line := CorrespondingLine(v, x);
      GrowOrthogonal(v.Mat(y), v.rankMax, line, a);
      AddLineStores(v, line, y);
    }
  }

  /** The side a call stores to holds the matrix the rank test returns. */
  lemma AddLineStores(v: Verifier, line: seq<bool>, y: bool)
    requires Valid(v) && |line| == v.rankMax
    ensures Columns(v.Mat(y) + [line], v.rankMax)
    ensures AddLine(v, line, y).0.Mat(y) == RankIncrease(v.Mat(y) + [line]).0
  {
    var res := RankIncrease(v.Mat(y) + [line]);
    GrowSide(v.Mat(y), v.RankOf(y), v.rankMax, line);
    var w := Store(v, y, res.0, v.RankOf(y) + (if res.1 then 1 else 0));
    assert AddLine(v, line, y).0 == w;
  }

  /** A run keeps a orthogonal to the rows of a side when a vanishes at
      every point fed to that side. */
  lemma {:induction false} RunOrthogonal(v: Verifier, xs: seq<seq<bool>>, ys: seq<bool>, side: bool, a: seq<bool>)
    requires Valid(v) && Points(v, xs, ys)
    requires ZeroAt(v.ai, v.l, a, xs, ys, side) && Orthogonal(v.Mat(side), a)
    ensures Orthogonal(Run(v, xs, ys).0.Mat(side), a)
    decreases |xs|
  {
    if |xs| > 0 {
      var c := CheckAndAdd(v, xs[0], ys[0]);
      CheckAndAddOrthogonal(v, xs[0], ys[0], side, a);
      RunFirst(v, xs, ys);
      assert ZeroAt(v.ai, v.l, a, xs[1..], ys[1..], side) by {
        forall i | 0 <= i < |xs| - 1 && ys[1..][i] == side
          ensures !Parity(Row(xs[1..][i], Monomials(v.ai - 1, v.l)), a)
        {
          assert xs[1..][i] == xs[i + 1] && ys[1..][i] == ys[i + 1];
        }
      }
      RunOrthogonal(c.0, xs[1..], ys[1..], side, a);
    }
  }

  /** The last answer of a run is the budget test on the final state. */
  lemma {:induction false} RunLast(v: Verifier, xs: seq<seq<bool>>, ys: seq<bool>)
    requires Valid(v) && Points(v, xs, ys) && |xs| > 0
    ensures Run(v, xs, ys).1[|xs| - 1] <==> Run(v, xs, ys).0.Budget() >= 2 * v.rankMax
    decreases |xs|
  {
    var c := CheckAndAdd(v, xs[0], ys[0]);
    RunFirst(v, xs, ys);
    if |xs| > 1 {
      RunLast(c.0, xs[1..], ys[1..]);
    } else {
      assert Run(c.0, xs[1..], ys[1..]) == (c.0, []);
    }
  }

  /** A run over as many points as the verifier expects, from empty
      matrices, that never answers false certifies the immunity on each
      side: at the end remaining is 0, so the budget test forces both
      ranks up to the number of monomials, the stored pivot rows then span
      every coefficient vector, and the only coefficients whose polynomial
      vanishes at all the points of value y are zero. */
  lemma FullRunCertifies(v: Verifier, xs: seq<seq<bool>>, ys: seq<bool>, y: bool, a: seq<bool>)
    requires Valid(v) && Points(v, xs, ys) && |xs| > 0
    requires v.mat0 == [] && v.mat1 == [] && v.remaining == |xs|
    requires forall k :: 0 <= k < |xs| ==> Run(v, xs, ys).1[k]
    requires ZeroAt(v.ai, v.l, a, xs, ys, y)
    ensures a == Zeros(|a|)
  {
    var w := Run(v, xs, ys).0;
    RunLast(v, xs, ys);
    ValidBounds(w);
    MonomialsCount(v.ai - 1, v.l);
    RunOrthogonal(v, xs, ys, y, a);
    PivotedOrthogonal(w.Mat(y), a);
    FullRankOrthogonal(Pivoted(w.Mat(y)), w.rankMax, a);
  }
}
