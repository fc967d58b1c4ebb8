/*
 * Incremental rank test over GF(2) (`rank_increase` in toolbox.py).
 *
 * A matrix is kept as a list of columns. Each time a column is appended it is
 * reduced against every earlier column, in order: when the column being
 * reduced has a one where an earlier column has its first one (its pivot),
 * that earlier column is added to it from the pivot onwards. The new column
 * raises the rank exactly when what is left is not zero.
 *
 * The repository only promises a correct answer when the test is run for
 * every column as it is appended. The invariant behind that promise is
 * `Echelon` below: every stored column is non-zero and vanishes at the pivots
 * of all earlier columns. Under it, the test answers "the new column is not
 * in the span of the earlier ones", and keeping the reduced column keeps the
 * invariant.
 */
module Rank {
  import opened Bits
  import opened Toolbox

  /** Every column has n entries. */
  predicate Columns(cols: seq<seq<bool>>, n: nat)
  {
    forall i :: 0 <= i < |cols| ==> |cols[i]| == n
  }

  /** The reduction of r by one earlier column c: when r has a one at c's
      pivot, c is added to r from the pivot onwards. */
  function Step(r: seq<bool>, c: seq<bool>): (s: seq<bool>)
    requires |r| == |c|
    ensures |s| == |r|
    ensures s == (if FirstOne(c) < |c| && r[FirstOne(c)] then XorVectors(r, c) else r)
    ensures FirstOne(c) < |c| ==> !s[FirstOne(c)]
  {
    var p := FirstOne(c);
    if p < |c| && r[p] then
      seq(|r|, j requires 0 <= j < |r| => if j < p then r[j] else r[j] != c[j])
    else r
  }

  /** Whether the reduction by c adds c. */
  predicate Fires(r: seq<bool>, c: seq<bool>)
    requires |r| == |c|
  {
    FirstOne(c) < |c| && r[FirstOne(c)]
  }

  /** v reduced by the columns of prev, first to last. */
  function Reduce(prev: seq<seq<bool>>, v: seq<bool>): (r: seq<bool>)
    requires Columns(prev, |v|)
    ensures |r| == |v|
  {
    if |prev| == 0 then v
    else Step(Reduce(prev[..|prev| - 1], v), prev[|prev| - 1])
  }

  /** `rank_increase`: reduces the last column against the others, stores the
      reduced column in its place and reports whether it is non-zero. */
  function RankIncrease(matrix: seq<seq<bool>>): (res: (seq<seq<bool>>, bool))
    requires |matrix| >= 1 && Columns(matrix, |matrix[0]|)
    ensures |res.0| == |matrix| && Columns(res.0, |matrix[0]|)
    ensures res.0[..|matrix| - 1] == matrix[..|matrix| - 1]
    ensures res.1 <==> res.0[|matrix| - 1] != Zeros(|matrix[0]|)
  {
    var k := |matrix| - 1;
    var r := Reduce(matrix[..k], matrix[k]);
    var m := matrix[..k] + [r];
    assert m[k] == r;
    (m, r != Zeros(|matrix[0]|))
  }

  // ---------------------------------------------------------------------
  // Combinations of columns
  // ---------------------------------------------------------------------

  /** The sum of the columns i with sel[i]. */
  function Combination(cols: seq<seq<bool>>, sel: seq<bool>, n: nat): (r: seq<bool>)
    requires Columns(cols, n) && |sel| == |cols|
    ensures |r| == n
  {
    if |cols| == 0 then Zeros(n)
    else
      var k := |cols| - 1;
      XorVectors(Combination(cols[..k], sel[..k], n), if sel[k] then cols[k] else Zeros(n))
  }

  /** v is a sum of some of the columns. */
  ghost predicate InSpan(cols: seq<seq<bool>>, v: seq<bool>)
    requires Columns(cols, |v|)
  {
    exists sel: seq<bool> :: |sel| == |cols| && Combination(cols, sel, |v|) == v
  }

  /** The columns the reduction of v by prev adds, one flag per column. */
  function Selection(prev: seq<seq<bool>>, v: seq<bool>): (sel: seq<bool>)
    requires Columns(prev, |v|)
    ensures |sel| == |prev|
  {
    if |prev| == 0 then []
    else
      var k := |prev| - 1;
      Selection(prev[..k], v) + [Fires(Reduce(prev[..k], v), prev[k])]
  }

  /** The reduced column is v plus a combination of the earlier columns. */
  lemma {:induction false} ReduceIsCombination(prev: seq<seq<bool>>, v: seq<bool>)
    requires Columns(prev, |v|)
    ensures Reduce(prev, v) == XorVectors(v, Combination(prev, Selection(prev, v), |v|))
  {
    if |prev| > 0 {
      var k := |prev| - 1;
      ReduceIsCombination(prev[..k], v);
      var sel := Selection(prev, v);
      assert sel[..k] == Selection(prev[..k], v);
    }
  }

  lemma {:induction false} CombinationNone(cols: seq<seq<bool>>, sel: seq<bool>, n: nat)
    requires Columns(cols, n) && |sel| == |cols|
    requires forall i :: 0 <= i < |sel| ==> !sel[i]
    ensures Combination(cols, sel, n) == Zeros(n)
  {
    if |cols| > 0 {
      CombinationNone(cols[..|cols| - 1], sel[..|cols| - 1], n);
    }
  }

  /** Combination is linear in the selection. */
  lemma {:induction false} CombinationLinear(cols: seq<seq<bool>>, s1: seq<bool>, s2: seq<bool>, n: nat)
    requires Columns(cols, n) && |s1| == |cols| && |s2| == |cols|
    ensures XorVectors(Combination(cols, s1, n), Combination(cols, s2, n))
            == Combination(cols, XorVectors(s1, s2), n)
  {
    if |cols| > 0 {
      var k := |cols| - 1;
      var s := XorVectors(s1, s2);
      var a1 := Combination(cols[..k], s1[..k], n);
      var a2 := Combination(cols[..k], s2[..k], n);
      var c1 := if s1[k] then cols[k] else Zeros(n);
      var c2 := if s2[k] then cols[k] else Zeros(n);
      var c := if s[k] then cols[k] else Zeros(n);
      assert XorVectors(a1, a2) == Combination(cols[..k], s[..k], n) by {
        CombinationLinear(cols[..k], s1[..k], s2[..k], n);
        assert s[..k] == XorVectors(s1[..k], s2[..k]);
      }
      assert forall i :: 0 <= i < n ==> c[i] == (c1[i] != c2[i]);
      XorRegroup(a1, a2, c1, c2, c);
    }
  }

  /** (a1 + c1) + (a2 + c2) == (a1 + a2) + c when c == c1 + c2, over GF(2). */
  lemma XorRegroup(a1: seq<bool>, a2: seq<bool>, c1: seq<bool>, c2: seq<bool>, c: seq<bool>)
    requires |a2| == |a1| && |c1| == |a1| && |c2| == |a1| && |c| == |a1|
    requires forall i :: 0 <= i < |c| ==> c[i] == (c1[i] != c2[i])
    ensures XorVectors(XorVectors(a1, c1), XorVectors(a2, c2)) == XorVectors(XorVectors(a1, a2), c)
  {
    var lhs := XorVectors(XorVectors(a1, c1), XorVectors(a2, c2));
    var rhs := XorVectors(XorVectors(a1, a2), c);
    assert forall i :: 0 <= i < |lhs| ==> lhs[i] == rhs[i];
  }

  /** Entry q of a combination where only column m can contribute. */
  lemma {:induction false} CombinationAt(cols: seq<seq<bool>>, sel: seq<bool>, n: nat, q: nat, m: nat)
    requires Columns(cols, n) && |sel| == |cols| && q < n && m < |cols|
    requires forall j :: 0 <= j < |cols| && j != m ==> !(sel[j] && cols[j][q])
    ensures Combination(cols, sel, n)[q] == (sel[m] && cols[m][q])
  {
    var k := |cols| - 1;
    if m < k {
      CombinationAt(cols[..k], sel[..k], n, q, m);
    } else {
      CombinationNone(cols[..k], seq(k, j requires 0 <= j < k => sel[j] && cols[j][q]), n);
      CombinationOff(cols[..k], sel[..k], n, q);
    }
  }

  /** Entry q of a combination none of whose selected columns has a one at q. */
  lemma {:induction false} CombinationOff(cols: seq<seq<bool>>, sel: seq<bool>, n: nat, q: nat)
    requires Columns(cols, n) && |sel| == |cols| && q < n
    requires forall j :: 0 <= j < |cols| ==> !(sel[j] && cols[j][q])
    ensures !Combination(cols, sel, n)[q]
  {
    if |cols| > 0 {
      CombinationOff(cols[..|cols| - 1], sel[..|cols| - 1], n, q);
    }
  }

  // ---------------------------------------------------------------------
  // The echelon invariant
  // ---------------------------------------------------------------------

  /** Every column is non-zero and vanishes at the pivots of the earlier ones. */
  predicate Echelon(cols: seq<seq<bool>>, n: nat)
  {
    Columns(cols, n)
    && (forall i :: 0 <= i < |cols| ==> FirstOne(cols[i]) < n)
    && (forall i, j :: 0 <= i < j < |cols| ==> !cols[j][FirstOne(cols[i])])
  }

  /** A column has a pivot exactly when it is not zero. */
  lemma FirstOneZero(c: seq<bool>)
    ensures FirstOne(c) < |c| <==> c != Zeros(|c|)
  {
    if FirstOne(c) == |c| {
      assert c == Zeros(|c|);
    }
  }

  /** The reduced column vanishes at every pivot of an echelon list. */
  lemma {:induction false} ReduceClearsPivots(prev: seq<seq<bool>>, v: seq<bool>, i: nat)
    requires Echelon(prev, |v|) && i < |prev|
    ensures !Reduce(prev, v)[FirstOne(prev[i])]
  {
    var k := |prev| - 1;
    if i < k {
      assert Echelon(prev[..k], |v|);
      ReduceClearsPivots(prev[..k], v, i);
    }
  }

  /** Keeping a non-zero reduced column keeps the invariant. */
  lemma EchelonExtend(prev: seq<seq<bool>>, v: seq<bool>)
    requires Echelon(prev, |v|)
    requires Reduce(prev, v) != Zeros(|v|)
    ensures Echelon(prev + [Reduce(prev, v)], |v|)
  {
    var r := Reduce(prev, v);
    var cols := prev + [r];
    FirstOneZero(r);
    forall i, j | 0 <= i < j < |cols|
      ensures !cols[j][FirstOne(cols[i])]
    {
      if j == |prev| {
        ReduceClearsPivots(prev, v, i);
      }
    }
  }

  /** The pivots of an echelon list are pairwise different. */
  lemma EchelonPivots(cols: seq<seq<bool>>, n: nat, i: nat, j: nat)
    requires Echelon(cols, n) && i < j < |cols|
    ensures FirstOne(cols[i]) != FirstOne(cols[j])
  {
  }

  /** Among the selected columns, one whose pivot is smallest. */
  function MinSelected(cols: seq<seq<bool>>, sel: seq<bool>): (m: nat)
    requires |sel| == |cols|
    requires exists i :: 0 <= i < |sel| && sel[i]
    ensures m < |cols| && sel[m]
    ensures forall j :: 0 <= j < |cols| && sel[j] ==> FirstOne(cols[m]) <= FirstOne(cols[j])
  {
    var k := |cols| - 1;
    if !(exists i :: 0 <= i < k && sel[i]) then k
    else
      var m := MinSelected(cols[..k], sel[..k]);
      if sel[k] && FirstOne(cols[k]) < FirstOne(cols[m]) then k else m
  }

  /** A combination of an echelon list that selects something has a one at
      the pivot of one of the selected columns. */
  lemma CombinationHitsPivot(cols: seq<seq<bool>>, sel: seq<bool>, n: nat)
    requires Echelon(cols, n) && |sel| == |cols|
    requires exists i :: 0 <= i < |sel| && sel[i]
    ensures Combination(cols, sel, n)[FirstOne(cols[MinSelected(cols, sel)])]
  {
    var m := MinSelected(cols, sel);
    var q := FirstOne(cols[m]);
    forall j | 0 <= j < |cols| && j != m
      ensures !(sel[j] && cols[j][q])
    {
      if sel[j] && j < m {
        EchelonPivots(cols, n, j, m);
      }
    }
    CombinationAt(cols, sel, n, q, m);
  }

  /** Independence: the only combination of an echelon list that is zero
      selects nothing. */
  lemma EchelonIndependent(cols: seq<seq<bool>>, sel: seq<bool>, n: nat)
    requires Echelon(cols, n) && |sel| == |cols|
    requires Combination(cols, sel, n) == Zeros(n)
    ensures forall i :: 0 <= i < |sel| ==> !sel[i]
  {
    if exists i :: 0 <= i < |sel| && sel[i] {
      CombinationHitsPivot(cols, sel, n);
      assert false;
    }
  }

  /** On an echelon list, the rank test answers "not in the span of the
      earlier columns". */
  lemma RankIncreaseSpan(matrix: seq<seq<bool>>)
    requires |matrix| >= 1 && Columns(matrix, |matrix[0]|)
    requires Echelon(matrix[..|matrix| - 1], |matrix[0]|)
    ensures RankIncrease(matrix).1 <==> !InSpan(matrix[..|matrix| - 1], matrix[|matrix| - 1])
  {
    var k := |matrix| - 1;
    var prev := matrix[..k];
    var v := matrix[k];
    var n := |v|;
    var r := Reduce(prev, v);
    var sel := Selection(prev, v);
    ReduceIsCombination(prev, v);
    if r == Zeros(n) {
      var c := Combination(prev, sel, n);
      assert forall j :: 0 <= j < n ==> v[j] == c[j];
      assert c == v;
    } else if InSpan(prev, v) {
      var s: seq<bool> :| |s| == |prev| && Combination(prev, s, n) == v;
      CombinationLinear(prev, s, sel, n);
      var t := XorVectors(s, sel);
      assert Combination(prev, t, n) == r;
      if forall i :: 0 <= i < |t| ==> !t[i] {
        CombinationNone(prev, t, n);
        assert false;
      }
      CombinationHitsPivot(prev, t, n);
      ReduceClearsPivots(prev, v, MinSelected(prev, t));
      assert false;
    }
  }

  /** When the test succeeds, the updated matrix is again an echelon list. */
  lemma RankIncreaseKeepsEchelon(matrix: seq<seq<bool>>)
    requires |matrix| >= 1 && Columns(matrix, |matrix[0]|)
    requires Echelon(matrix[..|matrix| - 1], |matrix[0]|)
    requires RankIncrease(matrix).1
    ensures Echelon(RankIncrease(matrix).0, |matrix[0]|)
  {
    var k := |matrix| - 1;
    EchelonExtend(matrix[..k], matrix[k]);
    assert RankIncrease(matrix).0 == matrix[..k] + [Reduce(matrix[..k], matrix[k])];
  }

  // ---------------------------------------------------------------------
  // The rank is bounded by the number of rows
  // ---------------------------------------------------------------------

  /** The pivots of the first k columns. */
  function Pivots(cols: seq<seq<bool>>, k: nat): (s: set<nat>)
    requires k <= |cols|
    ensures forall i :: 0 <= i < k ==> FirstOne(cols[i]) in s
  {
    if k == 0 then {} else Pivots(cols, k - 1) + {FirstOne(cols[k - 1])}
  }

  lemma {:induction false} PivotsCount(cols: seq<seq<bool>>, n: nat, k: nat)
    requires Echelon(cols, n) && k <= |cols|
    ensures |Pivots(cols, k)| == k
    ensures forall p :: p in Pivots(cols, k) ==> p < n
  {
    if k > 0 {
      PivotsCount(cols, n, k - 1);
      if FirstOne(cols[k - 1]) in Pivots(cols, k - 1) {
        var i := PivotIndex(cols, k - 1, FirstOne(cols[k - 1]));
        assert false;
      }
    }
  }

  lemma {:induction false} PivotIndex(cols: seq<seq<bool>>, k: nat, p: nat) returns (i: nat)
    requires k <= |cols| && p in Pivots(cols, k)
    ensures i < k && FirstOne(cols[i]) == p
  {
    if FirstOne(cols[k - 1]) == p {
      i := k - 1;
    } else {
      i := PivotIndex(cols, k - 1, p);
    }
  }

  /** A set of numbers below n has at most n elements. */
  lemma {:induction false} BoundedSetCount(s: set<nat>, n: nat)
    requires forall x :: x in s ==> x < n
    ensures |s| <= n
  {
    if n > 0 {
      BoundedSetCount(s - {n - 1}, n - 1);
    }
  }

  /** An echelon list has at most as many columns as rows. */
  lemma EchelonBound(cols: seq<seq<bool>>, n: nat)
    requires Echelon(cols, n)
    ensures |cols| <= n
  {
    PivotsCount(cols, n, |cols|);
    BoundedSetCount(Pivots(cols, |cols|), n);
  }

  // ---------------------------------------------------------------------
  // Rows that raised the rank
  // ---------------------------------------------------------------------

  /** The rows of cols that have a pivot, in order. */
  function Pivoted(cols: seq<seq<bool>>): (r: seq<seq<bool>>)
    ensures |r| <= |cols|
    ensures forall i :: 0 <= i < |r| ==> r[i] in cols && FirstOne(r[i]) < |r[i]|
  {
    if |cols| == 0 then []
    else
      var k := |cols| - 1;
      Pivoted(cols[..k]) + (if FirstOne(cols[k]) < |cols[k]| then [cols[k]] else [])
  }

  /** Rows without a pivot leave the reduction unchanged. */
  lemma {:induction false} ReduceSkipsZeros(prev: seq<seq<bool>>, v: seq<bool>)
    requires Columns(prev, |v|)
    ensures Columns(Pivoted(prev), |v|)
    ensures Reduce(prev, v) == Reduce(Pivoted(prev), v)
  {
    if |prev| > 0 {
      var k := |prev| - 1;
      var p := Pivoted(prev[..k]);
      ReduceSkipsZeros(prev[..k], v);
      if FirstOne(prev[k]) < |prev[k]| {
        assert Pivoted(prev) == p + [prev[k]];
        assert (p + [prev[k]])[..|p|] == p;
      } else {
        assert Pivoted(prev) == p;
      }
    }
  }

  lemma PivotedSnoc(cols: seq<seq<bool>>, c: seq<bool>)
    ensures Pivoted(cols + [c]) == Pivoted(cols) + (if FirstOne(c) < |c| then [c] else [])
  {
    assert (cols + [c])[..|cols|] == cols;
  }

  /** The rank test stores v reduced by the pivot rows and succeeds when the
      reduced row is not zero. */
  lemma GrowReduce(prev: seq<seq<bool>>, line: seq<bool>, n: nat)
    requires Columns(prev, n) && |line| == n
    ensures Columns(prev + [line], n)
    ensures RankIncrease(prev + [line])
         == (prev + [Reduce(Pivoted(prev), line)], Reduce(Pivoted(prev), line) != Zeros(n))
  {
    var mat := prev + [line];
    assert mat[..|prev|] == prev;
    ReduceSkipsZeros(prev, line);
  }

  /** On echelon pivot rows, the reduced row is zero exactly for rows in their span. */
  lemma GrowSpan(p: seq<seq<bool>>, line: seq<bool>, n: nat)
    requires Echelon(p, n) && |line| == n
    ensures Reduce(p, line) != Zeros(n) <==> !InSpan(p, line)
  {
    var q := p + [line];
    assert q[..|p|] == p;
    RankIncreaseSpan(q);
  }

  /** The pivot rows stay in echelon form. */
  lemma GrowEchelon(p: seq<seq<bool>>, line: seq<bool>, n: nat)
    requires Echelon(p, n) && |line| == n
    ensures Reduce(p, line) != Zeros(n) ==> Echelon(p + [Reduce(p, line)], n)
  {
    if Reduce(p, line) != Zeros(n) {
      EchelonExtend(p, line);
    }
  }

  /** One step of the rank test on a matrix whose pivot rows are in echelon
      form: the stored matrix grows by the reduced row, which joins the pivot
      rows exactly when the test succeeds, and the test succeeds exactly when
      the row is outside the span of the pivot rows. */
  lemma Grow(prev: seq<seq<bool>>, line: seq<bool>, n: nat)
    requires Columns(prev, n) && |line| == n && Echelon(Pivoted(prev), n)
    ensures Columns(prev + [line], n)
    ensures var res := RankIncrease(prev + [line]);
      && res.0 == prev + [Reduce(Pivoted(prev), line)]
      && Columns(res.0, n)
      && Pivoted(res.0) == Pivoted(prev) + (if res.1 then [Reduce(Pivoted(prev), line)] else [])
      && Echelon(Pivoted(res.0), n)
      && (res.1 <==> !InSpan(Pivoted(prev), line))
  {
    var p := Pivoted(prev);
    var red := Reduce(p, line);
    var res := RankIncrease(prev + [line]);
    assert Columns(prev + [line], n) && res == (prev + [red], red != Zeros(n)) by {
      GrowReduce(prev, line, n);
    }
    assert Columns(res.0, n);
    assert Pivoted(res.0) == p + (if res.1 then [red] else []) by {
      PivotedSnoc(prev, red);
      FirstOneZero(red);
    }
    assert res.1 <==> !InSpan(p, line) by { GrowSpan(p, line, n); }
    assert Echelon(Pivoted(res.0), n) by {
      if res.1 {
        GrowEchelon(p, line, n);
        assert Pivoted(res.0) == p + [red];
      } else {
        assert Pivoted(res.0) == p;
      }
    }
  }

  // ---------------------------------------------------------------------
  // Spans
  // ---------------------------------------------------------------------

  /** Every column of a lies in the span of b. */
  ghost predicate SpanWithin(a: seq<seq<bool>>, b: seq<seq<bool>>, n: nat)
  {
    Columns(a, n) && Columns(b, n) && forall i :: 0 <= i < |a| ==> InSpan(b, a[i])
  }

  lemma SpanZero(cols: seq<seq<bool>>, n: nat)
    requires Columns(cols, n)
    ensures InSpan(cols, Zeros(n))
  {
    var sel := seq(|cols|, i => false);
    CombinationNone(cols, sel, n);
  }

  /** A span is closed under exclusive or. */
  lemma SpanXor(cols: seq<seq<bool>>, a: seq<bool>, b: seq<bool>)
    requires |b| == |a| && Columns(cols, |a|)
    requires InSpan(cols, a) && InSpan(cols, b)
    ensures InSpan(cols, XorVectors(a, b))
  {
    var s1: seq<bool> :| |s1| == |cols| && Combination(cols, s1, |a|) == a;
    var s2: seq<bool> :| |s2| == |cols| && Combination(cols, s2, |a|) == b;
    CombinationLinear(cols, s1, s2, |a|);
  }

  /** An extra column keeps everything that was in the span. */
  lemma SpanSnocKeeps(cols: seq<seq<bool>>, c: seq<bool>, a: seq<bool>)
    requires |c| == |a| && Columns(cols, |a|) && InSpan(cols, a)
    ensures Columns(cols + [c], |a|) && InSpan(cols + [c], a)
  {
    var n := |a|;
    var s: seq<bool> :| |s| == |cols| && Combination(cols, s, n) == a;
    var t := s + [false];
    assert (cols + [c])[..|cols|] == cols && t[..|cols|] == s;
    assert Combination(cols + [c], t, n) == XorVectors(a, Zeros(n));
    assert XorVectors(a, Zeros(n)) == a;
    assert |t| == |cols + [c]| && Combination(cols + [c], t, n) == a;
  }

  /** An extra column is in the span. */
  lemma SpanSnocLast(cols: seq<seq<bool>>, c: seq<bool>)
    requires Columns(cols, |c|)
    ensures Columns(cols + [c], |c|) && InSpan(cols + [c], c)
  {
    var n := |c|;
    var s := seq(|cols|, i => false);
    CombinationNone(cols, s, n);
    var t := s + [true];
    assert (cols + [c])[..|cols|] == cols && t[..|cols|] == s;
    assert Combination(cols + [c], t, n) == XorVectors(Zeros(n), c);
    assert XorVectors(Zeros(n), c) == c;
    assert |t| == |cols + [c]| && Combination(cols + [c], t, n) == c;
  }

  /** Whatever a spans lies in the span of b, when a's columns do. */
  lemma {:induction false} SpanWithinCombination(a: seq<seq<bool>>, b: seq<seq<bool>>, sel: seq<bool>, n: nat)
    requires SpanWithin(a, b, n) && |sel| == |a|
    ensures InSpan(b, Combination(a, sel, n))
    decreases |a|
  {
    if |a| == 0 {
      SpanZero(b, n);
    } else {
      var k := |a| - 1;
      assert InSpan(b, Combination(a[..k], sel[..k], n)) by {
        assert SpanWithin(a[..k], b, n);
        SpanWithinCombination(a[..k], b, sel[..k], n);
      }
      assert InSpan(b, if sel[k] then a[k] else Zeros(n)) by {
        SpanZero(b, n);
      }
      SpanXor(b, Combination(a[..k], sel[..k], n), if sel[k] then a[k] else Zeros(n));
    }
  }

  /** SpanWithin is inclusion of spans. */
  lemma SpanWithinSpan(a: seq<seq<bool>>, b: seq<seq<bool>>, n: nat)
    requires SpanWithin(a, b, n)
    ensures forall v :: |v| == n && InSpan(a, v) ==> InSpan(b, v)
  {
    forall v | |v| == n && InSpan(a, v)
      ensures InSpan(b, v)
    {
      var s: seq<bool> :| |s| == |a| && Combination(a, s, n) == v;
      SpanWithinCombination(a, b, s, n);
    }
  }

  lemma SpanWithinTrans(a: seq<seq<bool>>, b: seq<seq<bool>>, c: seq<seq<bool>>, n: nat)
    requires SpanWithin(a, b, n) && SpanWithin(b, c, n)
    ensures SpanWithin(a, c, n)
  {
    SpanWithinSpan(b, c, n);
  }

  lemma SpanWithinSnoc(a: seq<seq<bool>>, b: seq<seq<bool>>, c: seq<bool>, n: nat)
    requires SpanWithin(a, b, n) && |c| == n
    ensures SpanWithin(a, b + [c], n)
  {
    forall i | 0 <= i < |a|
      ensures InSpan(b + [c], a[i])
    {
      SpanSnocKeeps(b, c, a[i]);
    }
  }

  // ---------------------------------------------------------------------
  // A run of the test
  // ---------------------------------------------------------------------

  /** The columns fed one by one: each is appended to the stored matrix and
      `rank_increase` is called, as the repository requires. The result is
      the stored matrix and the answers. */
  function Incremental(fed: seq<seq<bool>>, n: nat): (res: (seq<seq<bool>>, seq<bool>))
    requires Columns(fed, n)
    ensures Columns(res.0, n) && |res.0| == |fed| && |res.1| == |fed|
    ensures Echelon(Pivoted(res.0), n) && |Pivoted(res.0)| == Weight(res.1)
  {
    if |fed| == 0 then ([], [])
    else
      var k := |fed| - 1;
      var p := Incremental(fed[..k], n);
      Grow(p.0, fed[k], n);
      var r := RankIncrease(p.0 + [fed[k]]);
      assert (p.1 + [r.1])[..k] == p.1;
      (r.0, p.1 + [r.1])
  }

  /** The reduced column and the new one differ by a combination of the
      stored pivot rows, which lies in the span of the fed columns too. */
  lemma ReduceInSpan(fed: seq<seq<bool>>, p: seq<seq<bool>>, c: seq<bool>, n: nat)
    requires SpanWithin(p, fed, n) && |c| == n
    ensures var m := Combination(p, Selection(p, c), n);
      && c == XorVectors(Reduce(p, c), m)
      && InSpan(p, m) && InSpan(fed, m)
  {
    var m := Combination(p, Selection(p, c), n);
    assert Reduce(p, c) == XorVectors(c, m) by { ReduceIsCombination(p, c); }
    XorVectorsCancel(c, m);
    forall i | 0 <= i < |p|
      ensures InSpan(p, p[i])
    {
      SpanMember(p, i);
    }
    SpanWithinCombination(p, p, Selection(p, c), n);
    SpanWithinCombination(p, fed, Selection(p, c), n);
  }

  /** One call answers whether the new column leaves the span of the fed ones. */
  lemma StepAnswer(fed: seq<seq<bool>>, p: seq<seq<bool>>, c: seq<bool>, n: nat)
    requires SpanWithin(fed, p, n) && SpanWithin(p, fed, n) && Echelon(p, n) && |c| == n
    ensures Reduce(p, c) != Zeros(n) <==> !InSpan(fed, c)
  {
    GrowSpan(p, c, n);
    SpanWithinSpan(fed, p, n);
    SpanWithinSpan(p, fed, n);
  }

  /** Linear independence: only the empty selection combines to zero. */
  ghost predicate Independent(cols: seq<seq<bool>>, n: nat)
    requires Columns(cols, n)
  {
    forall sel: seq<bool> :: |sel| == |cols| && Combination(cols, sel, n) == Zeros(n) ==>
      forall i :: 0 <= i < |sel| ==> !sel[i]
  }

  /** Each answer is true exactly when its column is outside the span of
      the columns before it. */
  ghost predicate Answers(fed: seq<seq<bool>>, ans: seq<bool>, n: nat)
    requires Columns(fed, n)
  {
    |ans| == |fed| && forall i :: 0 <= i < |fed| ==> (ans[i] <==> !InSpan(fed[..i], fed[i]))
  }

  lemma AnswersSnoc(fed: seq<seq<bool>>, ans: seq<bool>, c: seq<bool>, b: bool, n: nat)
    requires Columns(fed, n) && |c| == n && Answers(fed, ans, n)
    requires b <==> !InSpan(fed, c)
    ensures Columns(fed + [c], n) && Answers(fed + [c], ans + [b], n)
  {
    var f := fed + [c];
    var a := ans + [b];
    assert Columns(f, n);
    assert forall i :: 0 <= i <= |f| ==> Columns(f[..i], n);
    forall i | 0 <= i < |f|
      ensures a[i] <==> !InSpan(f[..i], f[i])
    {
      if i < |fed| {
        assert f[..i] == fed[..i] && f[i] == fed[i] && a[i] == ans[i];
      } else {
        assert f[..i] == fed && f[i] == c && a[i] == b;
      }
    }
  }

  /** A run keeps the pivot rows spanning exactly what the fed columns
      span, and answers true exactly for the columns outside the span of
      those fed before them. */
  lemma {:induction false} IncrementalSpans(fed: seq<seq<bool>>, n: nat)
    requires Columns(fed, n)
    ensures var res := Incremental(fed, n);
      && SpanWithin(fed, Pivoted(res.0), n)
      && SpanWithin(Pivoted(res.0), fed, n)
      && Answers(fed, res.1, n)
    decreases |fed|
  {
    if |fed| > 0 {
      var k := |fed| - 1;
      var p := Incremental(fed[..k], n);
      IncrementalSpans(fed[..k], n);
      IncrementalLast(fed, n);
      IncrementalSpansStep(fed, Pivoted(p.0), p.1, n);
    }
  }

  /** The inductive step of IncrementalSpans, on the pivots P and answers ans kept for all columns but the last. */
  lemma IncrementalSpansStep(fed: seq<seq<bool>>, P: seq<seq<bool>>, ans: seq<bool>, n: nat)
    requires Columns(fed, n) && |fed| > 0 && Echelon(P, n)
    requires SpanWithin(fed[..|fed| - 1], P, n) && SpanWithin(P, fed[..|fed| - 1], n)
    requires Answers(fed[..|fed| - 1], ans, n)
    ensures var red := Reduce(P, fed[|fed| - 1]);
      var Q := if red != Zeros(n) then P + [red] else P;
      && SpanWithin(fed, Q, n)
      && SpanWithin(Q, fed, n)
      && Answers(fed, ans + [red != Zeros(n)], n)
  {
    var k := |fed| - 1;
    var prev, c := fed[..k], fed[k];
    var red := Reduce(P, c);
    assert prev + [c] == fed;
    StepForward(prev, P, c, n);
    StepBackward(prev, P, c, n);
    StepAnswer(prev, P, c, n);
    AnswersSnoc(prev, ans, c, red != Zeros(n), n);
  }

  /** Feeding the last column adds its reduction to the pivots when that is non-zero,
      and that is the answer recorded for it. */
  lemma IncrementalLast(fed: seq<seq<bool>>, n: nat)
    requires Columns(fed, n) && |fed| > 0
    ensures var k := |fed| - 1;
      var res, p := Incremental(fed, n), Incremental(fed[..k], n);
      var red := Reduce(Pivoted(p.0), fed[k]);
      && Pivoted(res.0) == (if red != Zeros(n) then Pivoted(p.0) + [red] else Pivoted(p.0))
      && res.1 == p.1 + [red != Zeros(n)]
  {
    var k := |fed| - 1;
    var c := fed[k];
    var p := Incremental(fed[..k], n);
    Grow(p.0, c, n);
    GrowSpan(Pivoted(p.0), c, n);
    var r := RankIncrease(p.0 + [c]);
    assert Incremental(fed, n) == (r.0, p.1 + [r.1]);
  }

  /** A run leaves pivot rows in echelon form, as many as the true answers,
      spanning exactly the vectors the fed columns span: the number of true
      answers is the rank of the fed columns. */
  lemma IncrementalRank(fed: seq<seq<bool>>, n: nat)
    requires Columns(fed, n)
    ensures var res := Incremental(fed, n);
      && Echelon(Pivoted(res.0), n)
      && Weight(res.1) == |Pivoted(res.0)|
      && (forall v :: |v| == n ==> (InSpan(fed, v) <==> InSpan(Pivoted(res.0), v)))
      && Independent(Pivoted(res.0), n)
  {
    var P := Pivoted(Incremental(fed, n).0);
    IncrementalSpans(fed, n);
    SpanWithinSpan(fed, P, n);
    SpanWithinSpan(P, fed, n);
    forall sel | |sel| == |P| && Combination(P, sel, n) == Zeros(n)
      ensures forall i :: 0 <= i < |sel| ==> !sel[i]
    {
      EchelonIndependent(P, sel, n);
    }
  }

  /** Every column lies in the span of its own list. */
  lemma SpanWithinSelf(p: seq<seq<bool>>, n: nat)
    requires Columns(p, n)
    ensures SpanWithin(p, p, n)
  {
    forall i | 0 <= i < |p|
      ensures InSpan(p, p[i])
    {
      SpanMember(p, i);
    }
  }

  /** A column in the span of b can join a. */
  lemma SpanWithinAdd(a: seq<seq<bool>>, b: seq<seq<bool>>, c: seq<bool>, n: nat)
    requires SpanWithin(a, b, n) && |c| == n && InSpan(b, c)
    ensures SpanWithin(a + [c], b, n)
  {
    forall i | 0 <= i < |a| + 1
      ensures InSpan(b, (a + [c])[i])
    {
      if i < |a| {
        assert (a + [c])[i] == a[i];
      }
    }
  }

  /** After one call the fed columns lie in the span of the pivot rows. */
  lemma StepForward(fed: seq<seq<bool>>, p: seq<seq<bool>>, c: seq<bool>, n: nat)
    requires SpanWithin(fed, p, n) && SpanWithin(p, fed, n) && |c| == n
    ensures var r := Reduce(p, c);
      SpanWithin(fed + [c], if r != Zeros(n) then p + [r] else p, n)
  {
    var r := Reduce(p, c);
    var m := Combination(p, Selection(p, c), n);
    ReduceInSpan(fed, p, c, n);
    if r != Zeros(n) {
      var q := p + [r];
      assert SpanWithin(fed, q, n) by {
        SpanWithinSelf(p, n);
        SpanWithinSnoc(p, p, r, n);
        SpanWithinTrans(fed, p, q, n);
      }
      assert InSpan(q, c) by {
        SpanSnocLast(p, r);
        SpanSnocKeeps(p, r, m);
        SpanXor(q, r, m);
      }
      SpanWithinAdd(fed, q, c, n);
    } else {
      assert c == m;
      SpanWithinAdd(fed, p, c, n);
    }
  }

  /** After one call the pivot rows lie in the span of the fed columns. */
  lemma StepBackward(fed: seq<seq<bool>>, p: seq<seq<bool>>, c: seq<bool>, n: nat)
    requires SpanWithin(p, fed, n) && |c| == n
    ensures var r := Reduce(p, c);
      SpanWithin(if r != Zeros(n) then p + [r] else p, fed + [c], n)
  {
    var r := Reduce(p, c);
    SpanWithinSnoc(p, fed, c, n);
    if r != Zeros(n) {
      var m := Combination(p, Selection(p, c), n);
      assert InSpan(fed + [c], r) by {
        ReduceInSpan(fed, p, c, n);
        XorVectorsCancel(r, m);
        SpanSnocLast(fed, c);
        SpanSnocKeeps(fed, c, m);
        SpanXor(fed + [c], c, m);
      }
      SpanWithinAdd(p, fed + [c], r, n);
    }
  }

  /** A column is in the span of its own list. */
  lemma {:induction false} SpanMember(cols: seq<seq<bool>>, i: nat)
    requires i < |cols| && Columns(cols, |cols[i]|)
    ensures InSpan(cols, cols[i])
    decreases |cols|
  {
    var k := |cols| - 1;
    assert cols == cols[..k] + [cols[k]];
    if i == k {
      SpanSnocLast(cols[..k], cols[k]);
    } else {
      SpanMember(cols[..k], i);
      SpanSnocKeeps(cols[..k], cols[k], cols[i]);
    }
  }

  // ---------------------------------------------------------------------
  // Full rank
  // ---------------------------------------------------------------------

  /** The GF(2) scalar product: the parity of the positions where both
      vectors have a one. */
  function Parity(u: seq<bool>, a: seq<bool>): bool
    requires |u| == |a|
  {
    if |u| == 0 then false
    else Parity(u[..|u| - 1], a[..|u| - 1]) != (u[|u| - 1] && a[|u| - 1])
  }

  /** The product is linear in its first argument. */
  lemma {:induction false} ParityXor(u: seq<bool>, w: seq<bool>, a: seq<bool>)
    requires |u| == |a| && |w| == |a|
    ensures Parity(XorVectors(u, w), a) == (Parity(u, a) != Parity(w, a))
  {
    if |u| > 0 {
      var k := |u| - 1;
      ParityXor(u[..k], w[..k], a[..k]);
      assert XorVectors(u, w)[..k] == XorVectors(u[..k], w[..k]);
    }
  }

  lemma {:induction false} ParityZeros(n: nat, a: seq<bool>)
    requires |a| == n
    ensures !Parity(Zeros(n), a)
  {
    if n > 0 {
      ParityZeros(n - 1, a[..n - 1]);
      assert Zeros(n)[..n - 1] == Zeros(n - 1);
    }
  }

  /** The product with a vector whose only one is at q picks entry q. */
  lemma {:induction false} ParitySingle(u: seq<bool>, a: seq<bool>, q: nat)
    requires |u| == |a| && q < |u|
    requires forall i :: 0 <= i < |u| ==> (u[i] <==> i == q)
    ensures Parity(u, a) == a[q]
  {
    var k := |u| - 1;
    if q == k {
      assert u[..k] == Zeros(k);
      ParityZeros(k, a[..k]);
    } else {
      ParitySingle(u[..k], a[..k], q);
    }
  }

  /** Every column has product zero with a. */
  predicate Orthogonal(cols: seq<seq<bool>>, a: seq<bool>)
  {
    forall i :: 0 <= i < |cols| ==> |cols[i]| == |a| && !Parity(cols[i], a)
  }

  /** Whatever the columns span is orthogonal to a when they are. */
  lemma {:induction false} OrthogonalCombination(cols: seq<seq<bool>>, sel: seq<bool>, a: seq<bool>)
    requires Columns(cols, |a|) && |sel| == |cols| && Orthogonal(cols, a)
    ensures !Parity(Combination(cols, sel, |a|), a)
  {
    var n := |a|;
    ParityZeros(n, a);
    if |cols| > 0 {
      var k := |cols| - 1;
      assert Orthogonal(cols[..k], a) by {
        forall i | 0 <= i < k
          ensures |cols[..k][i]| == n && !Parity(cols[..k][i], a)
        {
          assert cols[..k][i] == cols[i];
        }
      }
      OrthogonalCombination(cols[..k], sel[..k], a);
      ParityXor(Combination(cols[..k], sel[..k], n), if sel[k] then cols[k] else Zeros(n), a);
    }
  }

  /** The pivot rows are some of the rows. */
  lemma PivotedOrthogonal(cols: seq<seq<bool>>, a: seq<bool>)
    requires Orthogonal(cols, a)
    ensures Orthogonal(Pivoted(cols), a)
  {
    var p := Pivoted(cols);
    forall i | 0 <= i < |p|
      ensures |p[i]| == |a| && !Parity(p[i], a)
    {
      assert p[i] in cols;
      var j :| 0 <= j < |cols| && cols[j] == p[i];
    }
  }

  /** A set of numbers below n that misses one of them has fewer than n
      elements. */
  lemma {:induction false} BoundedSetMissing(s: set<nat>, n: nat, k: nat)
    requires forall x :: x in s ==> x < n
    requires k < n && k !in s
    ensures |s| < n
  {
    if k == n - 1 {
      BoundedSetCount(s, n - 1);
    } else {
      BoundedSetMissing(s - {n - 1}, n - 1, k);
    }
  }

  /** n echelon columns of length n have a pivot at every position. */
  lemma EchelonFullPivots(cols: seq<seq<bool>>, n: nat, q: nat) returns (i: nat)
    requires Echelon(cols, n) && |cols| == n && q < n
    ensures i < |cols| && FirstOne(cols[i]) == q
  {
    PivotsCount(cols, n, |cols|);
    if q !in Pivots(cols, |cols|) {
      BoundedSetMissing(Pivots(cols, |cols|), n, q);
      assert false;
    }
    i := PivotIndex(cols, |cols|, q);
  }

  /** n echelon columns of length n span every vector of length n: the
      reduction clears every position. */
  lemma EchelonFullSpans(cols: seq<seq<bool>>, n: nat, v: seq<bool>)
    requires Echelon(cols, n) && |cols| == n && |v| == n
    ensures InSpan(cols, v)
  {
    var r := Reduce(cols, v);
    forall q | 0 <= q < n
      ensures !r[q]
    {
      var i := EchelonFullPivots(cols, n, q);
      ReduceClearsPivots(cols, v, i);
    }
    assert r == Zeros(n);
    GrowSpan(cols, v, n);
  }

  /** Only the zero vector is orthogonal to n echelon columns of length n. */
  lemma FullRankOrthogonal(cols: seq<seq<bool>>, n: nat, a: seq<bool>)
    requires Echelon(cols, n) && |cols| == n && |a| == n && Orthogonal(cols, a)
    ensures a == Zeros(n)
  {
    if a != Zeros(n) {
      var q := FirstOne(a);
      FirstOneZero(a);
      var e := seq(n, i => i == q);
      EchelonFullSpans(cols, n, e);
      var sel: seq<bool> :| |sel| == |cols| && Combination(cols, sel, n) == e;
      OrthogonalCombination(cols, sel, a);
      ParitySingle(e, a, q);
      assert false;
    }
  }
}
