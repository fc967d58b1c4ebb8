/*
 * The Boolean function object (class `BF` in BF.py).
 *
 * A function of l variables is held as up to three tables of length 2^l: the
 * truth table, the algebraic normal form and the Walsh spectrum, each with a
 * flag telling whether it is up to date. Setting one representation marks
 * the other two stale; the `update_*` operations recompute a stale table from
 * a fresh one (the truth table from the ANF, the ANF and the spectrum from
 * the truth table). The state keeps either the truth table or the ANF fresh,
 * so the function itself is never lost.
 */
module BooleanFunction {
  import opened Bits
  import opened Toolbox
  import opened Monomials
  import opened Annihilators

  /** The state of a `BF`: the locality, the three tables with their
      freshness flags, the weight of every index, and the annihilator bases of
      f and of f + 1 in ANF form. */
  datatype BF = BF(
    l: nat,
    ws: seq<int>, wsFresh: bool,
    tt: seq<bool>, ttFresh: bool,
    anf: seq<bool>, anfFresh: bool,
    degrees: seq<nat>,
    annF: seq<seq<bool>>, annG: seq<seq<bool>>)

  // ---------------------------------------------------------------------
  // The invariant and the function a state stands for
  // ---------------------------------------------------------------------

  /** Every table has 2^l entries and degrees[x] is the weight of x. */
  predicate Shaped(bf: BF)
  {
    |bf.ws| == Pow2(bf.l) && |bf.tt| == Pow2(bf.l) && |bf.anf| == Pow2(bf.l)
    && |bf.degrees| == Pow2(bf.l)
    && forall x :: 0 <= x < Pow2(bf.l) ==> bf.degrees[x] == Popcount(x)
  }

  /** The truth table of the function the state stands for. */
  function Value(bf: BF): (t: seq<bool>)
    requires Shaped(bf)
    ensures |t| == Pow2(bf.l)
  {
    if bf.ttFresh then bf.tt else Moebius(bf.anf, bf.l)
  }

  /** The truth table or the ANF is up to date, fresh tables agree with each
      other, and a fresh spectrum is the spectrum of the function. */
  predicate Valid(bf: BF)
  {
    Shaped(bf)
    && (bf.ttFresh || bf.anfFresh)
    && (bf.ttFresh && bf.anfFresh ==> bf.tt == Moebius(bf.anf, bf.l))
    && (bf.wsFresh ==> bf.ws == Walsh(Sign(Value(bf)), bf.l))
  }

  // ---------------------------------------------------------------------
  // Construction and setters
  // ---------------------------------------------------------------------

  /** The weight of x, bit by bit, as the constructor computes each entry of
      `monomials_degree`. */
  method MonomialDegree(x: nat) returns (deg: nat)
    ensures deg == Popcount(x)
  {
    deg := 0;
    var y := x;
    while y != 0
      invariant deg + Popcount(y) == Popcount(x)
      decreases y
    {
      if y % 2 == 1 {
        deg := deg + 1;
      }
      y := y / 2;
    }
  }

  /** The weights of 0, 1, ..., n - 1. */
  function Degrees(n: nat): (d: seq<nat>)
    ensures |d| == n
  {
    seq(n, x requires 0 <= x < n => Popcount(x))
  }

  /** The Moebius transform of the zero table is zero. */
  lemma MoebiusZeros(l: nat)
    ensures Moebius(Zeros(Pow2(l)), l) == Zeros(Pow2(l))
  {
    var z := Zeros(Pow2(l));
    assert XorVectors(z, z) == z;
    MoebiusLinear(z, z, l);
    var m := Moebius(z, l);
    assert XorVectors(m, m) == z;
  }

  /** `BF(locality)`: the zero function, truth table and ANF fresh, spectrum stale. */
  function NewBF(l: nat): (bf: BF)
    ensures Valid(bf) && bf.l == l
    ensures bf.ttFresh && bf.anfFresh && !bf.wsFresh
    ensures bf.tt == Zeros(Pow2(l)) && bf.anf == Zeros(Pow2(l))
    ensures Value(bf) == Zeros(Pow2(l))
  {
    MoebiusZeros(l);
    BF(l, seq(Pow2(l), i => 0), false, Zeros(Pow2(l)), true, Zeros(Pow2(l)), true,
       Degrees(Pow2(l)), [], [])
  }

  /** `set_ANF`: the ANF becomes the only fresh table. */
  function SetANF(bf: BF, a: seq<bool>): (r: BF)
    ensures r.anfFresh && !r.ttFresh && !r.wsFresh && r.anf == a
    ensures r.l == bf.l && r.tt == bf.tt && r.ws == bf.ws && r.degrees == bf.degrees
    ensures Valid(bf) && |a| == Pow2(bf.l) ==> Valid(r) && Value(r) == Moebius(a, bf.l)
  {
    bf.(anf := a, wsFresh := false, anfFresh := true, ttFresh := false)
  }

  /** `set_TT`: the truth table becomes the only fresh table. */
  function SetTT(bf: BF, t: seq<bool>): (r: BF)
    ensures r.ttFresh && !r.anfFresh && !r.wsFresh && r.tt == t
    ensures r.l == bf.l && r.anf == bf.anf && r.ws == bf.ws && r.degrees == bf.degrees
    ensures Valid(bf) && |t| == Pow2(bf.l) ==> Valid(r) && Value(r) == t
  {
    bf.(tt := t, wsFresh := false, anfFresh := false, ttFresh := true)
  }

  // ---------------------------------------------------------------------
  // Updates
  // ---------------------------------------------------------------------

  /** `update_TT_from_ANF`: with a fresh ANF, the truth table becomes the
      function's. */
  function UpdateTTFromANF(bf: BF): (r: BF)
    requires |bf.anf| == Pow2(bf.l)
    ensures r.(tt := bf.tt) == bf
    ensures Valid(bf) && bf.anfFresh ==> r.tt == Value(bf)
  {
    bf.(tt := Moebius(bf.anf, bf.l))
  }

  /** `update_ANF_from_TT`: with a fresh truth table, the ANF becomes one
      whose Moebius transform gives the function back. */
  function UpdateANFFromTT(bf: BF): (r: BF)
    requires |bf.tt| == Pow2(bf.l)
    ensures r.(anf := bf.anf) == bf && |r.anf| == Pow2(bf.l)
    ensures Valid(bf) && bf.ttFresh ==> Moebius(r.anf, bf.l) == Value(bf)
  {
    MoebiusInvolution(bf.tt, bf.l);
    bf.(anf := Moebius(bf.tt, bf.l))
  }

  /** `update_WS_from_TT`: with a fresh truth table, entry u of the spectrum
      becomes the sum over x of sign(f(x)) (-1)^popcount(x & u). */
  function UpdateWSFromTT(bf: BF): (r: BF)
    requires |bf.tt| == Pow2(bf.l)
    ensures r.(ws := bf.ws) == bf && |r.ws| == Pow2(bf.l)
    ensures forall u :: 0 <= u < Pow2(bf.l) ==> r.ws[u] == WalshSum(Sign(bf.tt), u)
  {
    var w := Walsh(Sign(bf.tt), bf.l);
    forall u | 0 <= u < Pow2(bf.l)
      ensures w[u] == WalshSum(Sign(bf.tt), u)
    {
      WalshSums(Sign(bf.tt), bf.l, u);
    }
    bf.(ws := w)
  }

  /** `update_TT`: leaves the truth table fresh and equal to the function. */
  function UpdateTT(bf: BF): (r: BF)
    requires Shaped(bf)
    ensures Shaped(r) && r.l == bf.l
    ensures r.anf == bf.anf && r.anfFresh == bf.anfFresh
    ensures r.ws == bf.ws && r.wsFresh == bf.wsFresh
    ensures Valid(bf) ==> Valid(r) && r.ttFresh && r.tt == Value(bf) && Value(r) == Value(bf)
  {
    if bf.ttFresh then bf
    else if bf.anfFresh then UpdateTTFromANF(bf).(ttFresh := true)
    else bf
  }

  /** `update_WS`: brings the truth table up to date, then leaves the
      spectrum fresh and equal to the Walsh transform of the signed function. */
  function UpdateWS(bf: BF): (r: BF)
    requires Shaped(bf)
    ensures Shaped(r) && r.l == bf.l
    ensures Valid(bf) ==> Valid(r) && r.wsFresh && Value(r) == Value(bf)
                          && r.ws == Walsh(Sign(Value(bf)), bf.l)
  {
    if bf.wsFresh then bf
    else
      var b := UpdateTT(bf);
      var r := UpdateWSFromTT(b).(wsFresh := true);
      assert UpdateWSFromTT(b).ws == Walsh(Sign(b.tt), b.l);
      r
  }

  /** `update_ANF`: leaves the ANF fresh, and its Moebius transform is the
      function. */
  function UpdateANF(bf: BF): (r: BF)
    requires Shaped(bf)
    ensures Shaped(r) && r.l == bf.l
    ensures r.tt == bf.tt && r.ttFresh == bf.ttFresh
    ensures Valid(bf) ==> Valid(r) && r.anfFresh && Value(r) == Value(bf)
                          && Moebius(r.anf, bf.l) == Value(bf)
  {
    if bf.anfFresh then bf
    else if bf.ttFresh then
      var r := UpdateANFFromTT(bf).(anfFresh := true);
      MoebiusInvolution(r.anf, bf.l);
      r
    else bf
  }

  /** A second update finds its table fresh and changes nothing. */
  lemma UpdatesIdempotent(bf: BF)
    requires Valid(bf)
    ensures UpdateTT(UpdateTT(bf)) == UpdateTT(bf)
    ensures UpdateWS(UpdateWS(bf)) == UpdateWS(bf)
    ensures UpdateANF(UpdateANF(bf)) == UpdateANF(bf)
  {
  }

  /** Setting a truth table and updating the ANF yields its Moebius
      transform, and converting that ANF back gives the truth table. */
  lemma SetTTRoundTrip(bf: BF, t: seq<bool>)
    requires Valid(bf) && |t| == Pow2(bf.l)
    ensures UpdateANF(SetTT(bf, t)).anf == Moebius(t, bf.l)
    ensures Moebius(UpdateANF(SetTT(bf, t)).anf, bf.l) == t
  {
  }

  // ---------------------------------------------------------------------
  // Filtered views
  // ---------------------------------------------------------------------

  /** The entries v[i], i < n, whose degree deg[i] lies in [lo, hi], in index order. */
  function Select<T>(v: seq<T>, deg: seq<nat>, n: nat, lo: int, hi: int): (r: seq<T>)
    requires n <= |v| && n <= |deg|
    ensures |r| <= n
  {
    if n == 0 then []
    else Select(v, deg, n - 1, lo, hi) + (if lo <= deg[n - 1] <= hi then [v[n - 1]] else [])
  }

  /** With the weight table, the filter is the degree truncation of the toolbox. */
  lemma {:induction false} SelectIsTruncate<T>(v: seq<T>, deg: seq<nat>, n: nat, lo: int, hi: int)
    requires n <= |v| && n <= |deg|
    requires forall x :: 0 <= x < n ==> deg[x] == Popcount(x)
    ensures Select(v, deg, n, lo, hi) == TruncateDegree(v[..n], lo, hi)
    decreases n
  {
    if n > 0 {
      var last := if lo <= Popcount(n - 1) <= hi then [v[n - 1]] else [];
      var s := Select(v, deg, n - 1, lo, hi);
      var u := TruncateDegree(v[..n - 1], lo, hi);
      assert s == u by {
        SelectIsTruncate(v, deg, n - 1, lo, hi);
      }
      assert Select(v, deg, n, lo, hi) == s + last by {
        assert deg[n - 1] == Popcount(n - 1);
      }
      assert TruncateDegree(v[..n], lo, hi) == u + last by {
        var w := v[..n];
        assert w[..n - 1] == v[..n - 1];
      }
    } else {
      assert v[..n] == [];
    }
  }

  /** On a shaped state, filtering a table by the stored degrees truncates it. */
  lemma ShapedSelect<T>(bf: BF, v: seq<T>, lo: int, hi: int)
    requires |v| >= Pow2(bf.l) && |bf.degrees| >= Pow2(bf.l)
    ensures Shaped(bf) && |v| == Pow2(bf.l) ==> Select(v, bf.degrees, Pow2(bf.l), lo, hi) == TruncateDegree(v, lo, hi)
  {
    if Shaped(bf) && |v| == Pow2(bf.l) {
      SelectIsTruncate(v, bf.degrees, Pow2(bf.l), lo, hi);
    }
  }

  /** The same for every table of a list. */
  lemma ShapedSelectAll(bf: BF, vs: seq<seq<bool>>, lo: int, hi: int)
    requires |bf.degrees| >= Pow2(bf.l)
    requires forall k :: 0 <= k < |vs| ==> |vs[k]| >= Pow2(bf.l)
    ensures Shaped(bf) ==> forall k :: 0 <= k < |vs| && |vs[k]| == Pow2(bf.l) ==>
              Select(vs[k], bf.degrees, Pow2(bf.l), lo, hi) == TruncateDegree(vs[k], lo, hi)
  {
    forall k | 0 <= k < |vs|
      ensures Shaped(bf) && |vs[k]| == Pow2(bf.l) ==>
              Select(vs[k], bf.degrees, Pow2(bf.l), lo, hi) == TruncateDegree(vs[k], lo, hi)
    {
      ShapedSelect(bf, vs[k], lo, hi);
    }
  }

  /** `get_ANF(min, max)`: a copy for (0, -1), otherwise the coefficients of
      the monomials whose degree lies in [min, max], in index order. */
  function GetANF(bf: BF, lo: int, hi: int): (r: seq<bool>)
    requires |bf.anf| >= Pow2(bf.l) && |bf.degrees| >= Pow2(bf.l)
    ensures lo == 0 && hi == -1 ==> r == bf.anf
    ensures Shaped(bf) && !(lo == 0 && hi == -1) ==> r == TruncateDegree(bf.anf, lo, hi)
  {
    if lo == 0 && hi == -1 then bf.anf
    else
      ShapedSelect(bf, bf.anf, lo, hi);
      Select(bf.anf, bf.degrees, Pow2(bf.l), lo, hi)
  }

  /** `get_WalshSpectrum(min, max)`: the same filter on the spectrum. */
  function GetWalshSpectrum(bf: BF, lo: int, hi: int): (r: seq<int>)
    requires |bf.ws| >= Pow2(bf.l) && |bf.degrees| >= Pow2(bf.l)
    ensures lo == 0 && hi == -1 ==> r == bf.ws
    ensures Shaped(bf) && !(lo == 0 && hi == -1) ==> r == TruncateDegree(bf.ws, lo, hi)
  {
    if lo == 0 && hi == -1 then bf.ws
    else
      ShapedSelect(bf, bf.ws, lo, hi);
      Select(bf.ws, bf.degrees, Pow2(bf.l), lo, hi)
  }

  // ---------------------------------------------------------------------
  // Resiliency
  // ---------------------------------------------------------------------

  /** `is_resilient(r)`: the spectrum vanishes at every index of weight at
      most r. The spectrum is read as it is; the caller keeps it fresh. */
  method IsResilient(bf: BF, r: int) returns (res: bool)
    requires |bf.degrees| >= |bf.ws|
    ensures res <==> forall i :: 0 <= i < |bf.ws| && bf.degrees[i] <= r ==> bf.ws[i] == 0
    ensures Shaped(bf) ==> (res <==> forall i :: 0 <= i < |bf.ws| && Popcount(i) <= r ==> bf.ws[i] == 0)
  {
    var i := 0;
    while i < |bf.ws|
      invariant 0 <= i <= |bf.ws|
      invariant forall j :: 0 <= j < i && bf.degrees[j] <= r ==> bf.ws[j] == 0
    {
      if bf.degrees[i] <= r && bf.ws[i] != 0 {
        return false;
      }
      i := i + 1;
    }
    return true;
  }

  /** On a fresh spectrum, the test reads the Walsh sums of the function:
      f is r-resilient when sum over x of sign(f(x)) (-1)^popcount(x & u)
      vanishes for every u of weight at most r. */
  lemma ResilientSpectrum(bf: BF, r: int)
    requires Valid(bf) && bf.wsFresh
    ensures (forall i :: 0 <= i < |bf.ws| && Popcount(i) <= r ==> bf.ws[i] == 0)
        <==> (forall u :: 0 <= u < Pow2(bf.l) && Popcount(u) <= r ==> WalshSum(Sign(Value(bf)), u) == 0)
  {
    forall u | 0 <= u < Pow2(bf.l)
      ensures bf.ws[u] == WalshSum(Sign(Value(bf)), u)
    {
      WalshSums(Sign(Value(bf)), bf.l, u);
    }
  }

  // ---------------------------------------------------------------------
  // Algebraic immunity and annihilators
  // ---------------------------------------------------------------------

  /** `is_algebraic_immune(ai)`: neither f nor f + 1 has an annihilator of
      degree below ai. The truth table is read as it is; the caller keeps it
      fresh. */
  function IsAlgebraicImmune(bf: BF, ai: int): (r: bool)
    requires bf.l >= 1 && |bf.tt| == Pow2(bf.l)
    ensures ai <= 0 ==> r
    ensures r ==> Weight(bf.tt) >= |MonomialsUpTo(bf.l, ai - 1)|
    ensures r ==> Weight(Complement(bf.tt)) >= |MonomialsUpTo(bf.l, ai - 1)|
  {
    NegativeDegree(bf.tt, bf.l, ai - 1);
    NegativeDegree(Complement(bf.tt), bf.l, ai - 1);
    GetAnnihilatorsCorrect(bf.tt, bf.l, ai - 1);
    GetAnnihilatorsCorrect(Complement(bf.tt), bf.l, ai - 1);
    GetAnnihilators(bf.tt, bf.l, ai - 1) == [] && GetAnnihilators(Complement(bf.tt), bf.l, ai - 1) == []
  }

  /** A negative answer comes with a witness: a non-empty polynomial in clean
      form, with monomials of degree below ai, that vanishes on every point where the truth table is 1, or on every
      point where it is 0. */
  lemma NotImmuneWitness(bf: BF, ai: int) returns (g: seq<nat>, onZeros: bool)
    requires bf.l >= 1 && |bf.tt| == Pow2(bf.l)
    requires !IsAlgebraicImmune(bf, ai)
    ensures |g| >= 1 && StrictlyIncreasing(g)
    ensures forall t :: 0 <= t < |g| ==> g[t] < Pow2(bf.l) && Popcount(g[t]) < ai
    ensures forall y :: 0 <= y < |bf.tt| && bf.tt[y] != onZeros ==> !Eval(g, y)
  {
    var f, d := bf.tt, ai - 1;
    var c := Complement(f);
    onZeros := GetAnnihilators(f, bf.l, d) == [];
    var h := if onZeros then c else f;
    assert GetAnnihilators(h, bf.l, d) != [];
    g := FirstAnnihilator(h, bf.l, d);
    assert forall y :: 0 <= y < |f| ==> (h[y] <==> f[y] != onZeros);
  }

  /** The first polynomial the solver returns, with what the solver promises of it. */
  lemma FirstAnnihilator(f: seq<bool>, l: nat, d: int) returns (g: seq<nat>)
    requires l >= 1 && |f| == Pow2(l) && GetAnnihilators(f, l, d) != []
    ensures |g| >= 1 && StrictlyIncreasing(g)
    ensures forall t :: 0 <= t < |g| ==> g[t] < Pow2(l) && Popcount(g[t]) <= d
    ensures forall y :: 0 <= y < |f| && f[y] ==> !Eval(g, y)
  {
    GetAnnihilatorsCorrect(f, l, d);
    g := GetAnnihilators(f, l, d)[0];
  }

  /** The ANF table of an annihilator: `annihilator_ANF[index] = 1` for its monomials. */
  function AnfTables(R: seq<seq<nat>>, l: nat): (tables: seq<seq<bool>>)
    ensures |tables| == |R|
    ensures forall k :: 0 <= k < |R| ==> tables[k] == AnfOf(R[k], l)
  {
    seq(|R|, k requires 0 <= k < |R| => AnfOf(R[k], l))
  }

  /** `update_annihilators(d)`: the bases of annihilators of f and of f + 1
      of degree at most d, in ANF form. The truth table of every stored
      annihilator vanishes where f (respectively f + 1) is 1. */
  function UpdateAnnihilators(bf: BF, d: int): (r: BF)
    requires bf.l >= 1 && |bf.tt| == Pow2(bf.l)
    ensures r.(annF := bf.annF, annG := bf.annG) == bf
    ensures forall k :: 0 <= k < |r.annF| ==> |r.annF[k]| == Pow2(bf.l)
    ensures forall k :: 0 <= k < |r.annG| ==> |r.annG[k]| == Pow2(bf.l)
    ensures forall k, y :: 0 <= k < |r.annF| && 0 <= y < Pow2(bf.l) && bf.tt[y] ==> !Moebius(r.annF[k], bf.l)[y]
    ensures forall k, y :: 0 <= k < |r.annG| && 0 <= y < Pow2(bf.l) && !bf.tt[y] ==> !Moebius(r.annG[k], bf.l)[y]
  {
    var c := Complement(bf.tt);
    var rf := GetAnnihilators(bf.tt, bf.l, d);
    var rg := GetAnnihilators(c, bf.l, d);
    forall k, y | 0 <= k < |rf| && 0 <= y < Pow2(bf.l) && bf.tt[y]
      ensures !Moebius(AnfOf(rf[k], bf.l), bf.l)[y]
    {
      AnnihilatorTables(bf.tt, bf.l, d, k, y);
    }
    forall k, y | 0 <= k < |rg| && 0 <= y < Pow2(bf.l) && !bf.tt[y]
      ensures !Moebius(AnfOf(rg[k], bf.l), bf.l)[y]
    {
      AnnihilatorTables(c, bf.l, d, k, y);
    }
    bf.(annF := AnfTables(rf, bf.l), annG := AnfTables(rg, bf.l))
  }

  /** `get_annihilators(min, max)`. The default (0, -1) refers to an
      attribute the class never defines and fails, which is `None` here;
      otherwise both bases are filtered by degree. */
  function GetAnnihilatorsFiltered(bf: BF, lo: int, hi: int): (r: Option<(seq<seq<bool>>, seq<seq<bool>>)>)
    requires |bf.degrees| >= Pow2(bf.l)
    requires forall k :: 0 <= k < |bf.annF| ==> |bf.annF[k]| >= Pow2(bf.l)
    requires forall k :: 0 <= k < |bf.annG| ==> |bf.annG[k]| >= Pow2(bf.l)
    ensures r.None? <==> lo == 0 && hi == -1
    ensures r.Some? ==> |r.value.0| == |bf.annF| && |r.value.1| == |bf.annG|
    ensures r.Some? && Shaped(bf) ==>
      (forall k :: 0 <= k < |bf.annF| && |bf.annF[k]| == Pow2(bf.l) ==> r.value.0[k] == TruncateDegree(bf.annF[k], lo, hi))
      && (forall k :: 0 <= k < |bf.annG| && |bf.annG[k]| == Pow2(bf.l) ==> r.value.1[k] == TruncateDegree(bf.annG[k], lo, hi))
  {
    if lo == 0 && hi == -1 then None
    else
      var n := Pow2(bf.l);
      var f := seq(|bf.annF|, k requires 0 <= k < |bf.annF| => Select(bf.annF[k], bf.degrees, n, lo, hi));
      var g := seq(|bf.annG|, k requires 0 <= k < |bf.annG| => Select(bf.annG[k], bf.degrees, n, lo, hi));
      ShapedSelectAll(bf, bf.annF, lo, hi);
      ShapedSelectAll(bf, bf.annG, lo, hi);
      Some((f, g))
  }

  // ---------------------------------------------------------------------
  // Translation and permutation of the variables
  // ---------------------------------------------------------------------

  /** The mask of a translation vector, built bit by bit as
      `mask = (mask << 1) ^ t`. */
  method TranslationMask(t: seq<bool>) returns (mask: nat)
    ensures mask == ToInt(t)
  {
    mask := 0;
    var i := 0;
    while i < |t|
      invariant 0 <= i <= |t|
      invariant mask == ToInt(t[..i])
    {
      assert t[..i + 1][..i] == t[..i];
      mask := 2 * mask + (if t[i] then 1 else 0);
      i := i + 1;
    }
    assert t[..|t|] == t;
  }

  lemma XorBounds(l: nat, mask: nat)
    requires mask < Pow2(l)
    ensures forall i :: 0 <= i < Pow2(l) ==> Xor(mask, i) < Pow2(l)
  {
    forall i | 0 <= i < Pow2(l)
      ensures Xor(mask, i) < Pow2(l)
    {
      XorBound(l, mask, i);
    }
  }

  /** The table of x |-> f(x ^ mask). */
  function TranslateTable(t: seq<bool>, mask: nat, l: nat): (r: seq<bool>)
    requires |t| == Pow2(l) && mask < Pow2(l)
    ensures |r| == Pow2(l)
    ensures forall i :: 0 <= i < Pow2(l) ==> Xor(mask, i) < Pow2(l) && r[i] == t[Xor(mask, i)]
  {
    XorBounds(l, mask);
    seq(Pow2(l), i requires 0 <= i < Pow2(l) => t[Xor(mask, i)])
  }

  /** Translating twice by the same vector gives the table back. */
  lemma TranslateTwice(t: seq<bool>, mask: nat, l: nat)
    requires |t| == Pow2(l) && mask < Pow2(l)
    ensures TranslateTable(TranslateTable(t, mask, l), mask, l) == t
  {
    forall i | 0 <= i < Pow2(l)
      ensures TranslateTable(TranslateTable(t, mask, l), mask, l)[i] == t[i]
    {
      XorCancel(mask, i);
    }
  }

  /** The table of x |-> f(permute(x, perm)). */
  function PermuteTable(t: seq<bool>, perm: seq<nat>, l: nat): (r: seq<bool>)
    requires |t| == Pow2(l) && |perm| == l && IsIndexList(perm)
    ensures |r| == Pow2(l)
    ensures forall i :: 0 <= i < Pow2(l) ==> r[i] == t[Permute(i, perm)]
  {
    seq(Pow2(l), i requires 0 <= i < Pow2(l) => t[Permute(i, perm)])
  }

  /** Permuting by p and then by a q with q[p[i]] == i gives the table back. */
  lemma PermuteTwice(t: seq<bool>, p: seq<nat>, q: seq<nat>, l: nat)
    requires |t| == Pow2(l) && |p| == l && |q| == l && IsIndexList(p) && IsIndexList(q)
    requires forall i :: 0 <= i < l ==> q[p[i]] == i
    ensures PermuteTable(PermuteTable(t, p, l), q, l) == t
  {
    forall i | 0 <= i < Pow2(l)
      ensures PermuteTable(PermuteTable(t, p, l), q, l)[i] == t[i]
    {
      PermuteInverse(i, q, p);
    }
  }

  /** `translate(t)` as written: the stored truth table is rewritten, whether
      or not it is fresh, and becomes the only fresh table. */
  function Translate(bf: BF, t: seq<bool>): (r: BF)
    requires |t| == bf.l && |bf.tt| == Pow2(bf.l)
    ensures r.ttFresh && !r.anfFresh && !r.wsFresh
    ensures r.tt == TranslateTable(bf.tt, ToInt(t), bf.l)
    ensures Shaped(bf) ==> Valid(r)
  {
    bf.(tt := TranslateTable(bf.tt, ToInt(t), bf.l), ttFresh := true, anfFresh := false, wsFresh := false)
  }

  /** `translate(t, new_object=True)`: a new object holding the same table. */
  function TranslateNew(bf: BF, t: seq<bool>): (r: BF)
    requires |t| == bf.l && |bf.tt| == Pow2(bf.l)
    ensures Valid(r) && Value(r) == Translate(bf, t).tt
  {
    SetTT(NewBF(bf.l), TranslateTable(bf.tt, ToInt(t), bf.l))
  }

  /** `translate` on the current function: the truth table is brought up to
      date first, so the result is f(x ^ t) for the function f the state
      stands for. */
  function TranslateCurrent(bf: BF, t: seq<bool>): (r: BF)
    requires Shaped(bf) && |t| == bf.l
    ensures Valid(bf) ==> Valid(r) && Value(r) == TranslateTable(Value(bf), ToInt(t), bf.l)
  {
    Translate(UpdateTT(bf), t)
  }

  /** Translating the current function twice by t restores it. */
  lemma TranslateCurrentTwice(bf: BF, t: seq<bool>)
    requires Valid(bf) && |t| == bf.l
    ensures Value(TranslateCurrent(TranslateCurrent(bf, t), t)) == Value(bf)
  {
    TranslateTwice(Value(bf), ToInt(t), bf.l);
  }

  /** `permute(perm)` as written: the stored truth table is rewritten,
      whether or not it is fresh, and becomes the only fresh table. */
  function PermuteVariables(bf: BF, perm: seq<nat>): (r: BF)
    requires |perm| == bf.l && IsIndexList(perm) && |bf.tt| == Pow2(bf.l)
    ensures r.ttFresh && !r.anfFresh && !r.wsFresh
    ensures r.tt == PermuteTable(bf.tt, perm, bf.l)
    ensures Shaped(bf) ==> Valid(r)
  {
    bf.(tt := PermuteTable(bf.tt, perm, bf.l), ttFresh := true, anfFresh := false, wsFresh := false)
  }

  /** `permute(perm, new_object=True)`: a new object holding the same table. */
  function PermuteVariablesNew(bf: BF, perm: seq<nat>): (r: BF)
    requires |perm| == bf.l && IsIndexList(perm) && |bf.tt| == Pow2(bf.l)
    ensures Valid(r) && Value(r) == PermuteVariables(bf, perm).tt
  {
    SetTT(NewBF(bf.l), PermuteTable(bf.tt, perm, bf.l))
  }

  /** `permute` on the current function: the truth table is brought up to
      date first. */
  function PermuteCurrent(bf: BF, perm: seq<nat>): (r: BF)
    requires Shaped(bf) && |perm| == bf.l && IsIndexList(perm)
    ensures Valid(bf) ==> Valid(r) && Value(r) == PermuteTable(Value(bf), perm, bf.l)
  {
    PermuteVariables(UpdateTT(bf), perm)
  }

  /** Permuting the current function by p and then by an inverse q restores it. */
  lemma PermuteCurrentTwice(bf: BF, p: seq<nat>, q: seq<nat>)
    requires Valid(bf) && |p| == bf.l && |q| == bf.l && IsIndexList(p) && IsIndexList(q)
    requires forall i :: 0 <= i < bf.l ==> q[p[i]] == i
    ensures Value(PermuteCurrent(PermuteCurrent(bf, p), q)) == Value(bf)
  {
    PermuteTwice(Value(bf), p, q, bf.l);
  }

  // ---------------------------------------------------------------------
  // What the as-written translate and permute lose
  // ---------------------------------------------------------------------

  /** The constant function 1 of one variable, set through its ANF: the
      stored truth table is still the zero table of the constructor. */
  function ConstantOne(): (bf: BF)
  {
    SetANF(NewBF(1), [true, false])
  }

  lemma ConstantOneValue()
    ensures Valid(ConstantOne()) && Value(ConstantOne()) == [true, true]
  {
    var a := [true, false];
    MoebiusUnfold(a, 1);
    assert a[..1] == [true] && a[1..] == [false];
    assert XorVectors([true], [false]) == [true];
    assert Moebius([true], 0) == [true];
  }

  /** Translating the constant 1 must give the constant 1; as written, the
      stale zero table is translated instead and the function becomes 0. */
  lemma TranslateLosesANF()
    ensures Valid(ConstantOne())
    ensures Value(Translate(ConstantOne(), [true]))[0] == false
    ensures TranslateTable(Value(ConstantOne()), ToInt([true]), 1)[0] == true
    ensures Value(TranslateCurrent(ConstantOne(), [true]))[0] == true
  {
    ConstantOneValue();
    assert [true][..0] == [];
    assert ToInt([true]) == 1;
    assert Xor(1, 0) == 1;
  }

  /** The same for permute, with the identity permutation. */
  lemma PermuteLosesANF()
    ensures Valid(ConstantOne())
    ensures Value(PermuteVariables(ConstantOne(), [0]))[0] == false
    ensures PermuteTable(Value(ConstantOne()), [0], 1)[0] == true
    ensures Value(PermuteCurrent(ConstantOne(), [0]))[0] == true
  {
    ConstantOneValue();
    assert Permute(0, [0]) < 2;
  }
}
