/*
 * The Reed-Muller generator matrix RM(r, m) (`ReedMuller` in reedmuller.py)
 * and its one-entry cache (`get_reedmuller` in RSF_AI.py).
 *
 * The columns are the monomials of degree at most r in the m variables, a
 * monomial being the increasing tuple of its variables: first by degree, then
 * in lexicographic order (the order in which `itertools.combinations` lists
 * them). The rows are the 2^m inputs, produced by a truth-table iterator
 * stepped backwards from the all-ones vector, so row k is the input whose
 * MSB-first value is 2^m - 1 - k. A cell is set when every variable of the
 * monomial is set in the input.
 */
module ReedMuller {
  import opened Bits
  import opened Counter

  // ---------------------------------------------------------------------
  // Monomials as tuples of variables
  // ---------------------------------------------------------------------

  /** Strict lexicographic order on tuples. */
  predicate LexLess(a: seq<nat>, b: seq<nat>)
    decreases |a|
  {
    |a| > 0 && |b| > 0 && (a[0] < b[0] || (a[0] == b[0] && LexLess(a[1..], b[1..])))
  }

  /** The column order: by degree, then lexicographically. */
  predicate DegLexLess(a: seq<nat>, b: seq<nat>)
  {
    |a| < |b| || (|a| == |b| && LexLess(a, b))
  }

  predicate Increasing(t: seq<nat>)
  {
    forall i, j :: 0 <= i < j < |t| ==> t[i] < t[j]
  }

  /** t is a k-subset of [lo, hi) written in increasing order. */
  predicate IsCombination(t: seq<nat>, lo: nat, hi: nat, k: nat)
  {
    |t| == k && Increasing(t) && forall i :: 0 <= i < |t| ==> lo <= t[i] < hi
  }

  function Prepend(a: nat, ts: seq<seq<nat>>): (r: seq<seq<nat>>)
    ensures |r| == |ts|
    ensures forall i :: 0 <= i < |ts| ==> r[i] == [a] + ts[i]
  {
    seq(|ts|, i requires 0 <= i < |ts| => [a] + ts[i])
  }

  /** `itertools.combinations(range(lo, lo + n), k)`. */
  function Combinations(lo: nat, n: nat, k: nat): (r: seq<seq<nat>>)
    ensures forall i :: 0 <= i < |r| ==> IsCombination(r[i], lo, lo + n, k)
    decreases n
  {
    if k == 0 then [[]]
    else if n == 0 then []
    else
      var a := Prepend(lo, Combinations(lo + 1, n - 1, k - 1));
      forall i | 0 <= i < |a|
        ensures IsCombination(a[i], lo, lo + n, k)
      {
        assert a[i][1..] == Combinations(lo + 1, n - 1, k - 1)[i];
      }
      a + Combinations(lo + 1, n - 1, k)
  }

  /** The combinations come in strictly increasing lexicographic order. */
  lemma {:induction false} CombinationsSorted(lo: nat, n: nat, k: nat)
    ensures forall i, j :: 0 <= i < j < |Combinations(lo, n, k)| ==>
      LexLess(Combinations(lo, n, k)[i], Combinations(lo, n, k)[j])
    decreases n
  {
    if k > 0 && n > 0 {
      var c := Combinations(lo + 1, n - 1, k - 1);
      var a := Prepend(lo, c);
      var b := Combinations(lo + 1, n - 1, k);
      var r := Combinations(lo, n, k);
      assert r == a + b;
      CombinationsSorted(lo + 1, n - 1, k - 1);
      CombinationsSorted(lo + 1, n - 1, k);
      forall i, j | 0 <= i < j < |r|
        ensures LexLess(r[i], r[j])
      {
        if j < |a| {
          assert r[i][1..] == c[i];
          assert r[j][1..] == c[j];
        } else if i >= |a| {
          assert r[i] == b[i - |a|] && r[j] == b[j - |a|];
        } else {
          assert r[i][0] == lo;
          assert r[j] == b[j - |a|];
          assert lo < r[j][0];
        }
      }
    }
  }

  function Binomial(n: nat, k: nat): nat
  {
    if k == 0 then 1 else if n == 0 then 0 else Binomial(n - 1, k - 1) + Binomial(n - 1, k)
  }

  /** There are C(n, k) combinations. */
  lemma {:induction false} CombinationsCount(lo: nat, n: nat, k: nat)
    ensures |Combinations(lo, n, k)| == Binomial(n, k)
    decreases n
  {
    if k > 0 && n > 0 {
      CombinationsCount(lo + 1, n - 1, k - 1);
      CombinationsCount(lo + 1, n - 1, k);
    }
  }

  /** Dropping the least element of a combination. */
  lemma TailCombination(t: seq<nat>, lo: nat, hi: nat, k: nat)
    requires k >= 1 && IsCombination(t, lo, hi, k)
    ensures IsCombination(t[1..], t[0] + 1, hi, k - 1)
  {
    forall i | 0 <= i < k - 1
      ensures t[0] + 1 <= t[1..][i]
    {
      assert t[0] < t[i + 1];
    }
  }

  /** A combination whose least element is above lo lies in [lo + 1, hi). */
  lemma RaiseLow(t: seq<nat>, lo: nat, hi: nat, k: nat)
    requires k >= 1 && IsCombination(t, lo, hi, k) && t[0] != lo
    ensures IsCombination(t, lo + 1, hi, k)
  {
    forall i | 0 <= i < k
      ensures lo + 1 <= t[i]
    {
      if i > 0 {
        assert t[0] < t[i];
      }
    }
  }

  /** A list with head a and a listed tail is in the prepended list. */
  lemma PrependHas(a: nat, ts: seq<seq<nat>>, t: seq<nat>)
    requires |t| >= 1 && t[0] == a && t[1..] in ts
    ensures t in Prepend(a, ts)
  {
    var i :| 0 <= i < |ts| && ts[i] == t[1..];
    assert Prepend(a, ts)[i] == [a] + t[1..] == t;
  }

  /** Every k-subset of [lo, lo + n) is listed. */
  lemma {:induction false} CombinationsComplete(lo: nat, n: nat, k: nat, t: seq<nat>)
    requires IsCombination(t, lo, lo + n, k)
    ensures t in Combinations(lo, n, k)
    decreases n
  {
    if k == 0 {
      assert t == [];
    } else {
      assert n > 0 by {
        assert lo <= t[0] < lo + n;
      }
      var c := Combinations(lo + 1, n - 1, k - 1);
      var rest := Combinations(lo + 1, n - 1, k);
      assert Combinations(lo, n, k) == Prepend(lo, c) + rest;
      if t[0] == lo {
        TailCombination(t, lo, lo + n, k);
        CombinationsComplete(lo + 1, n - 1, k - 1, t[1..]);
        PrependHas(lo, c, t);
      } else {
        RaiseLow(t, lo, lo + n, k);
        CombinationsComplete(lo + 1, n - 1, k, t);
      }
    }
  }

  /** The columns of RM(r, m): the monomials of degree 0, 1, ..., r in turn. */
  function Monomials(r: int, m: nat): (mons: seq<seq<nat>>)
    ensures forall j :: 0 <= j < |mons| ==> |mons[j]| <= r && IsCombination(mons[j], 0, m, |mons[j]|)
    decreases if r < 0 then 0 else r + 1
  {
    if r < 0 then [] else Monomials(r - 1, m) + Combinations(0, m, r)
  }

  /** The columns come by degree, then in lexicographic order. */
  lemma {:induction false} MonomialsSorted(r: int, m: nat)
    ensures forall i, j :: 0 <= i < j < |Monomials(r, m)| ==>
      DegLexLess(Monomials(r, m)[i], Monomials(r, m)[j])
    decreases if r < 0 then 0 else r + 1
  {
    if r >= 0 {
      var a := Monomials(r - 1, m);
      var b := Combinations(0, m, r);
      var mons := Monomials(r, m);
      MonomialsSorted(r - 1, m);
      CombinationsSorted(0, m, r);
      forall i, j | 0 <= i < j < |mons|
        ensures DegLexLess(mons[i], mons[j])
      {
        if j < |a| {
          assert mons[i] == a[i] && mons[j] == a[j];
        } else if i >= |a| {
          assert mons[i] == b[i - |a|] && mons[j] == b[j - |a|];
        } else {
          assert mons[i] == a[i] && mons[j] == b[j - |a|];
        }
      }
    }
  }

  /** Every monomial of degree at most r is a column. */
  lemma {:induction false} MonomialsComplete(r: int, m: nat, t: seq<nat>)
    requires |t| <= r && IsCombination(t, 0, m, |t|)
    ensures t in Monomials(r, m)
    decreases r
  {
    if |t| == r {
      CombinationsComplete(0, m, r, t);
    } else {
      MonomialsComplete(r - 1, m, t);
    }
  }

  /** The number of columns: sum of C(m, i) for i <= r. */
  function ColumnCount(r: int, m: nat): nat
    decreases if r < 0 then 0 else r + 1
  {
    if r < 0 then 0 else ColumnCount(r - 1, m) + Binomial(m, r)
  }

  lemma {:induction false} MonomialsCount(r: int, m: nat)
    ensures |Monomials(r, m)| == ColumnCount(r, m)
    decreases if r < 0 then 0 else r + 1
  {
    if r >= 0 {
      MonomialsCount(r - 1, m);
      CombinationsCount(0, m, r);
    }
  }

  /** The constant monomial comes first and is the only one of degree 0. */
  lemma MonomialsConstant(r: int, m: nat)
    requires r >= 0
    ensures |Monomials(r, m)| >= 1 && Monomials(r, m)[0] == []
    ensures forall j :: 1 <= j < |Monomials(r, m)| ==> |Monomials(r, m)[j]| >= 1
  {
    MonomialsComplete(r, m, []);
    MonomialsSorted(r, m);
    var mons := Monomials(r, m);
    var z :| 0 <= z < |mons| && mons[z] == [];
    if z > 0 {
      assert false;
    }
  }

  // ---------------------------------------------------------------------
  // The matrix
  // ---------------------------------------------------------------------

  /** A cell: every variable of the monomial is set in the input. */
  predicate Cell(x: seq<bool>, t: seq<nat>)
  {
    forall i :: 0 <= i < |t| ==> t[i] < |x| && x[t[i]]
  }

  function Row(x: seq<bool>, mons: seq<seq<nat>>): (row: seq<bool>)
    ensures |row| == |mons|
    ensures forall j :: 0 <= j < |mons| ==> row[j] == Cell(x, mons[j])
  {
    seq(|mons|, j requires 0 <= j < |mons| => Cell(x, mons[j]))
  }

  /** The rows for k inputs, starting at `entry` and stepping backwards. */
  function Rows(entry: seq<bool>, mons: seq<seq<nat>>, k: nat): (rows: seq<seq<bool>>)
    ensures |rows| == k
    ensures forall i :: 0 <= i < k ==> |rows[i]| == |mons|
    decreases k
  {
    if k == 0 then [] else [Row(entry, mons)] + Rows(Previous(entry), mons, k - 1)
  }

  /** Row i of the rows from `entry` is the row of the input i below it. */
  lemma {:induction false} RowsAt(entry: seq<bool>, mons: seq<seq<nat>>, k: nat, i: nat)
    requires i < k && i <= ToInt(entry)
    ensures Rows(entry, mons, k)[i] == Row(FromInt(|entry|, ToInt(entry) - i), mons)
    decreases k
  {
    if i == 0 {
      FromIntToInt(entry);
    } else {
      var p := Previous(entry);
      PreviousValue(entry);
      RowsAt(p, mons, k - 1, i - 1);
      assert Rows(entry, mons, k)[i] == Rows(p, mons, k - 1)[i - 1];
    }
  }

  /** `ReedMuller(r, m)`. The iterator needs at least one variable. */
  function ReedMullerMatrix(r: int, m: nat): (rm: seq<seq<bool>>)
    requires m >= 1
  {
    Rows(AllOnes(m), Monomials(r, m), Pow2(m))
  }

  /** RM(r, m) has 2^m rows of sum_{i <= r} C(m, i) cells each. */
  lemma ReedMullerShape(r: int, m: nat)
    requires m >= 1
    ensures |ReedMullerMatrix(r, m)| == Pow2(m)
    ensures forall k :: 0 <= k < Pow2(m) ==> |ReedMullerMatrix(r, m)[k]| == ColumnCount(r, m)
  {
    MonomialsCount(r, m);
  }

  /** Row k is the row of the input whose MSB-first value is 2^m - 1 - k. */
  lemma ReedMullerRow(r: int, m: nat, k: nat)
    requires m >= 1 && k < Pow2(m)
    ensures ReedMullerMatrix(r, m)[k] == Row(FromInt(m, Pow2(m) - 1 - k), Monomials(r, m))
  {
    var top := AllOnes(m);
    ToIntAllOnes(m);
    assert |top| == m && ToInt(top) - k == Pow2(m) - 1 - k;
    RowsAt(top, Monomials(r, m), Pow2(m), k);
  }

  /** The column of the constant monomial is all ones. */
  lemma ReedMullerConstantColumn(r: int, m: nat, k: nat)
    requires m >= 1 && r >= 0 && k < Pow2(m)
    ensures |ReedMullerMatrix(r, m)[k]| >= 1 && ReedMullerMatrix(r, m)[k][0]
  {
    ReedMullerRow(r, m, k);
    MonomialsConstant(r, m);
  }

  /** The row of the all-zero input (the last one) has its only one in the
      constant column. */
  lemma ReedMullerZeroRow(r: int, m: nat, j: nat)
    requires m >= 1 && r >= 0 && j < |Monomials(r, m)|
    ensures ReedMullerMatrix(r, m)[Pow2(m) - 1][j] <==> j == 0
  {
    ReedMullerRow(r, m, Pow2(m) - 1);
    MonomialsConstant(r, m);
    var x := FromInt(m, 0);
    ToIntZeros(m);
    FromIntToInt(Zeros(m));
    assert x == Zeros(m);
    if j > 0 {
      assert Monomials(r, m)[j][0] < m;
      assert !Cell(x, Monomials(r, m)[j]);
    }
  }

  // ---------------------------------------------------------------------
  // Cells as integer tests
  // ---------------------------------------------------------------------

  /** The m-bit MSB-first vector of the variables of t. */
  function Indicator(m: nat, t: seq<nat>): (v: seq<bool>)
    ensures |v| == m
  {
    seq(m, i => i in t)
  }

  /** The monomial as a number below 2^m, the way the annihilator solver
      numbers monomials. */
  function Mask(m: nat, t: seq<nat>): nat
  {
    ToInt(Indicator(m, t))
  }

  /** A cell of the row of point y is the test `y & mask == mask`: the
      monomial, evaluated at y. */
  lemma CellCovers(m: nat, y: nat, t: seq<nat>)
    requires y < Pow2(m)
    requires forall i :: 0 <= i < |t| ==> t[i] < m
    ensures Cell(FromInt(m, y), t) <==> Covers(y, Mask(m, t))
  {
    var x := FromInt(m, y);
    var v := Indicator(m, t);
    IncludesIsCovers(x, v);
    ToIntFromInt(m, y);
    if Cell(x, t) {
      forall i | 0 <= i < m && v[i]
        ensures x[i]
      {
        var k :| 0 <= k < |t| && t[k] == i;
      }
    }
    if Includes(x, v) {
      forall k | 0 <= k < |t|
        ensures x[t[k]]
      {
        assert v[t[k]];
      }
    }
  }

  // ---------------------------------------------------------------------
  // The one-entry cache of get_reedmuller
  // ---------------------------------------------------------------------

  /** The last parameters asked for and the matrix computed for them. */
  datatype Cache = Cache(r: int, m: nat, rm: seq<seq<bool>>)

  /** The module starts with parameters (0, 0) and an empty matrix. */
  const InitialCache := Cache(0, 0, [])

  /** What the cache can hold: its initial value or a matrix computed for
      its parameters. */
  predicate CacheValid(c: Cache)
  {
    c == InitialCache || (c.m >= 1 && c.rm == ReedMullerMatrix(c.r, c.m))
  }

  /** `get_reedmuller(r, m)`: recompute unless the parameters are those of
      the last call. The result and the updated cache. Whatever a reachable
      cache holds, the answer is RM(r, m) and the cache stays reachable. */
  function GetReedMuller(c: Cache, r: int, m: nat): (res: (seq<seq<bool>>, Cache))
    requires (c.r, c.m) == (r, m) || m >= 1
    ensures res.1.r == r && res.1.m == m && res.1.rm == res.0
    ensures CacheValid(c) && m >= 1 ==> res.0 == ReedMullerMatrix(r, m) && CacheValid(res.1)
  {
    if (c.r, c.m) != (r, m) then
      var rm := ReedMullerMatrix(r, m);
      (rm, Cache(r, m, rm))
    else (c.rm, c)
  }
}
