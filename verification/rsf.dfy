/*
 * The rotation-symmetric function object (class `RSF` in RSF.py).
 *
 * A rotation-symmetric function of l variables takes one value on each
 * rotation orbit of the l-bit inputs, so it is held by one entry per orbit
 * representative: the simplified ANF (SANF: the coefficient shared by every
 * monomial of the orbit), the simplified truth table (STT: the value at the
 * representative) and the simplified Walsh spectrum (SWS). The SANF is the
 * one representation a caller sets; the STT, SWS and the full truth table
 * are derived from it lazily, each behind a freshness flag, through the two
 * conversion matrices of RSF_toolbox.py.
 *
 * The representatives are those of `compute_representatives` (by weight,
 * then by value), so everything here is a function of l and the SANF.
 */
module RotationSymmetric {
  import opened Bits
  import opened Sums
  import opened Toolbox
  import opened Rotation
  import ReedMuller
  import AlgebraicImmunity
  import Counter

  /** The state of an `RSF` object: the representatives and the truth-table
      index of `compute_representatives`; the SANF, STT, SWS and TT with their
      freshness flags (the ANF string itself is not kept, only its flag); the
      two conversion matrices; the number of representatives of each weight;
      and the algebraic-immunity verifier. */
  datatype RSF = RSF(
    l: nat,
    reps: seq<seq<bool>>, index: seq<int>,
    sanf: seq<bool>, sanfFresh: bool,
    stt: seq<bool>, sttFresh: bool,
    sws: seq<int>, swsFresh: bool,
    tt: seq<bool>, ttFresh: bool,
    anfFresh: bool,
    sanfToStt: seq<seq<bool>>, sttToSws: seq<seq<int>>,
    byWeight: seq<nat>,
    verifier: AlgebraicImmunity.Verifier)

  // ---------------------------------------------------------------------
  // Facts about the representatives list
  // ---------------------------------------------------------------------

  lemma RepresentativeFacts(l: nat, i: nat)
    requires i < |Representatives(l)|
    ensures Representatives(l)[i] < Pow2(l) && IsRepresentative(l, Representatives(l)[i])
    ensures Weight(RepVector(l, i)) == Popcount(Representatives(l)[i]) <= l
  {
    var R := Representatives(l);
    RepresentativesMembers(l, R[i]);
    PopcountFromInt(l, R[i]);
    PopcountBound(l, R[i]);
  }

  lemma RepresentativesDistinct(l: nat, i: nat, j: nat)
    requires i < |Representatives(l)| && j < |Representatives(l)| && i != j
    ensures Representatives(l)[i] != Representatives(l)[j]
  {
    RepresentativesOrdered(l);
  }

  /** Weights never decrease along the representatives list. */
  lemma RepresentativeWeights(l: nat, i: nat, j: nat)
    requires i <= j < |Representatives(l)|
    ensures Popcount(Representatives(l)[i]) <= Popcount(Representatives(l)[j])
  {
    RepresentativesOrdered(l);
  }

  // ---------------------------------------------------------------------
  // The orbit of a point
  // ---------------------------------------------------------------------

  /** The representative reached from x by following the truth-table index
      until it reads -1, as `update_TT_from_STT` propagates values: it is the
      representative of the orbit of x. */
  function RepOf(l: nat, x: nat): (r: nat)
    requires l >= 1 && x < Pow2(l)
    ensures r <= x && IsRepresentative(l, r) && SameOrbit(l, r, x)
    decreases x
  {
    var t := TableIndex(l, x);
    if t == -1 then
      SameOrbitReflexive(l, x);
      x
    else
      var r := RepOf(l, t);
      SameOrbitSymmetric(l, x, t);
      SameOrbitTransitive(l, r, t, x);
      r
  }

  /** The position of x in s. */
  function Position(s: seq<nat>, x: nat): (i: nat)
    requires x in s
    ensures i < |s| && s[i] == x
  {
    if s[0] == x then 0 else 1 + Position(s[1..], x)
  }

  /** The index of the representative of the orbit of x. */
  function OrbitOf(l: nat, x: nat): (i: nat)
    requires l >= 1 && x < Pow2(l)
    ensures i < |Representatives(l)| && SameOrbit(l, Representatives(l)[i], x)
  {
    RepresentativesMembers(l, RepOf(l, x));
    Position(Representatives(l), RepOf(l, x))
  }

  /** A representative is its own orbit. */
  lemma OrbitOfRepresentative(l: nat, i: nat)
    requires l >= 1 && i < |Representatives(l)|
    ensures OrbitOf(l, Representatives(l)[i]) == i
  {
    var R := Representatives(l);
    RepresentativeFacts(l, i);
    var k := OrbitOf(l, R[i]);
    if k != i {
      RepresentativesDistinct(l, i, k);
      assert false;
    }
  }

  /** Points of one orbit share their representative. */
  lemma OrbitOfSame(l: nat, x: nat, y: nat)
    requires l >= 1 && x < Pow2(l) && y < Pow2(l) && SameOrbit(l, x, y)
    ensures OrbitOf(l, x) == OrbitOf(l, y)
  {
    var R := Representatives(l);
    var i, j := OrbitOf(l, x), OrbitOf(l, y);
    RepresentativeFacts(l, i);
    RepresentativeFacts(l, j);
    SameOrbitTransitive(l, R[i], x, y);
    SameOrbitSymmetric(l, R[i], y);
    SameOrbitTransitive(l, R[j], y, R[i]);
    RepresentativeUnique(l, R[j], R[i]);
    if i != j {
      RepresentativesDistinct(l, i, j);
      assert false;
    }
  }

  // ---------------------------------------------------------------------
  // The three conversions
  // ---------------------------------------------------------------------

  /** The terms of column j of SANF x SANF_to_STT over GF(2). */
  function SanfTerms(m: seq<seq<bool>>, s: seq<bool>, j: nat): nat -> bool
  {
    (i: nat) => i < |s| && i < |m| && j < |m[i]| && s[i] && m[i][j]
  }

  /** The STT of a SANF: entry j is the exclusive or of the entries j of the
      rows i of the matrix with s[i] set. */
  function SttOf(m: seq<seq<bool>>, s: seq<bool>): (r: seq<bool>)
    ensures |r| == |s|
  {
    seq(|s|, j requires 0 <= j < |s| => XorSum(|s|, SanfTerms(m, s, j)))
  }

  /** The terms of column j of (1 - 2 STT) x STT_to_SWS. */
  function SwsTerms(m: seq<seq<int>>, t: seq<bool>, j: nat): nat -> int
  {
    (i: nat) => if i < |t| && i < |m| && j < |m[i]| then (1 - 2 * B2I(t[i])) * m[i][j] else 0
  }

  /** The SWS of an STT: the STT signed as 0 to +1 and 1 to -1, times the
      matrix. */
  function SwsOf(m: seq<seq<int>>, t: seq<bool>): (r: seq<int>)
    ensures |r| == |t|
  {
    seq(|t|, j requires 0 <= j < |t| => Sum(|t|, SwsTerms(m, t, j)))
  }

  /** The full truth table of an STT: every point takes the value of the
      representative of its orbit. */
  function ExpandTT(l: nat, s: seq<bool>): (t: seq<bool>)
    requires l >= 1 && |s| == |Representatives(l)|
    ensures |t| == Pow2(l)
  {
    seq(Pow2(l), x requires 0 <= x < Pow2(l) => s[OrbitOf(l, x)])
  }

  /** The expanded table takes the given value at every representative and
      one value on every orbit, and it is the only table that does. */
  lemma ExpandCharacterization(l: nat, s: seq<bool>, t: seq<bool>)
    requires l >= 1 && |s| == |Representatives(l)|
    ensures ExpandTT(l, s) == t <==>
      |t| == Pow2(l)
      && (forall i :: 0 <= i < |s| ==> t[Representatives(l)[i]] == s[i])
      && (forall x, y :: 0 <= x < Pow2(l) && 0 <= y < Pow2(l) && SameOrbit(l, x, y) ==> t[x] == t[y])
  {
    var R := Representatives(l);
    var e := ExpandTT(l, s);
    forall i | 0 <= i < |s|
      ensures R[i] < Pow2(l) && e[R[i]] == s[i]
    {
      RepresentativeFacts(l, i);
      OrbitOfRepresentative(l, i);
    }
    forall x, y | 0 <= x < Pow2(l) && 0 <= y < Pow2(l) && SameOrbit(l, x, y)
      ensures e[x] == e[y]
    {
      OrbitOfSame(l, x, y);
    }
    if |t| == Pow2(l)
      && (forall i :: 0 <= i < |s| ==> t[R[i]] == s[i])
      && (forall x, y :: 0 <= x < Pow2(l) && 0 <= y < Pow2(l) && SameOrbit(l, x, y) ==> t[x] == t[y])
    {
      forall x | 0 <= x < Pow2(l)
        ensures t[x] == e[x]
      {
        var i := OrbitOf(l, x);
        RepresentativeFacts(l, i);
        assert t[R[i]] == t[x];
      }
    }
  }

  /** The expanded table is rotation symmetric: rotating the input vector
      does not change the value. */
  lemma ExpandRotationSymmetric(l: nat, s: seq<bool>, x: nat, k: nat)
    requires l >= 1 && |s| == |Representatives(l)| && x < Pow2(l) && k <= l
    ensures RotateInt(l, x, k) < Pow2(l)
    ensures ExpandTT(l, s)[RotateInt(l, x, k)] == ExpandTT(l, s)[x]
  {
    OrbitOfSame(l, x, RotateInt(l, x, k));
  }

  // ---------------------------------------------------------------------
  // The object invariant
  // ---------------------------------------------------------------------

  /** Number of entries of s of weight w. */
  function CountWeight(s: seq<nat>, w: nat): (c: nat)
    ensures c <= |s|
  {
    if |s| == 0 then 0
    else CountWeight(s[..|s| - 1], w) + (if Popcount(s[|s| - 1]) == w then 1 else 0)
  }

  /** The parts fixed by the constructor. */
  predicate Tables(f: RSF)
  {
    f.l >= 1
    && f.reps == Vectors(f.l, Representatives(f.l))
    && Uniform(f.reps, f.l)
    && |f.index| == Pow2(f.l)
    && (forall x :: 0 <= x < Pow2(f.l) ==> f.index[x] == TableIndex(f.l, x))
    && Square(f.sanfToStt, |f.reps|) && Square(f.sttToSws, |f.reps|)
    && (forall i, j :: 0 <= i < |f.reps| && 0 <= j < |f.reps| ==>
          f.sanfToStt[i][j] == SanfToSttEntry(f.reps, f.l, i, j))
    && (forall i, j :: 0 <= i < |f.reps| && 0 <= j < |f.reps| ==>
          f.sttToSws[i][j] == SttToSwsEntry(f.reps, f.l, i, j))
    && |f.byWeight| == f.l + 1
    && (forall w :: 0 <= w <= f.l ==> f.byWeight[w] == CountWeight(Representatives(f.l), w))
  }

  predicate Shaped(f: RSF)
  {
    |f.sanf| == |f.reps| && |f.stt| == |f.reps| && |f.sws| == |f.reps| && |f.tt| == Pow2(f.l)
  }

  /** The STT, SWS and TT the current SANF determines. */
  function Stt(f: RSF): (r: seq<bool>)
    ensures |r| == |f.sanf|
  {
    SttOf(f.sanfToStt, f.sanf)
  }

  function Sws(f: RSF): (r: seq<int>)
    ensures |r| == |f.sanf|
  {
    SwsOf(f.sttToSws, Stt(f))
  }

  function Tt(f: RSF): (r: seq<bool>)
    requires Tables(f) && Shaped(f)
    ensures |r| == Pow2(f.l)
  {
    ExpandTT(f.l, Stt(f))
  }

  /** The object invariant: the SANF is always fresh, and every
      representation marked fresh is the one the SANF determines. */
  predicate Valid(f: RSF)
  {
    Tables(f) && Shaped(f) && f.sanfFresh
    && AlgebraicImmunity.Valid(f.verifier) && f.verifier.l == f.l
    && (f.sttFresh ==> f.stt == Stt(f))
    && (f.swsFresh ==> f.sws == Sws(f))
    && (f.ttFresh ==> f.tt == Tt(f))
  }

  // ---------------------------------------------------------------------
  // Construction and `set_SANF`
  // ---------------------------------------------------------------------

  /** The per-weight counts of the constructor. */
  method CountByWeight(l: nat) returns (counts: seq<nat>)
    ensures |counts| == l + 1
    ensures forall w :: 0 <= w <= l ==> counts[w] == CountWeight(Representatives(l), w)
  {
    var R := Representatives(l);
    var reps := Vectors(l, R);
    counts := seq(l + 1, w => 0);
    var k := 0;
    while k < |reps|
      invariant 0 <= k <= |R| && |counts| == l + 1
      invariant forall w :: 0 <= w <= l ==> counts[w] == CountWeight(R[..k], w)
    {
      RepresentativeFacts(l, k);
      assert R[..k + 1][..k] == R[..k];
      var w := Weight(reps[k]);
      counts := counts[w := counts[w] + 1];
      k := k + 1;
    }
    assert R[..|R|] == R;
  }

  /** The zero SANF has the zero STT. */
  lemma SttOfZeros(m: seq<seq<bool>>, n: nat)
    ensures SttOf(m, Zeros(n)) == Zeros(n)
  {
    forall j | 0 <= j < n
      ensures !XorSum(n, SanfTerms(m, Zeros(n), j))
    {
      XorSumFalse(n, SanfTerms(m, Zeros(n), j));
    }
  }

  /** `RSF(locality)`: all-zero SANF, STT and TT, fresh, with the SWS stale,
      and a verifier targeting the optimal immunity (l + 1) / 2. The
      generator matrix comes from the shared cache, returned updated. */
  method NewRSF(c: ReedMuller.Cache, l: nat) returns (f: RSF, c': ReedMuller.Cache)
    requires l >= 1 && ReedMuller.CacheValid(c)
    ensures Valid(f) && ReedMuller.CacheValid(c') && f.l == l
    ensures f.reps == Vectors(l, Representatives(l))
    ensures f.sanf == Zeros(|f.reps|) && f.stt == Zeros(|f.reps|) && f.tt == Zeros(Pow2(l))
    ensures f.sanfFresh && f.sttFresh && f.anfFresh && f.ttFresh && !f.swsFresh
    ensures f.verifier.ai == (l + 1) / 2
  {
    var reps, index := ComputeRepresentatives(l);
    var n := |reps|;
    var toStt := BuildSanfToStt(reps, l);
    var toSws := BuildSttToSws(reps, l);
    var (v, c2) := AlgebraicImmunity.NewVerifier(c, l, (l + 1) / 2);
    var counts := CountByWeight(l);
    f := RSF(l, reps, index, Zeros(n), true, Zeros(n), true, seq(n, i => 0), false,
             Zeros(Pow2(l)), true, true, toStt, toSws, counts, v);
    c' := c2;
    SttOfZeros(toStt, n);
    assert Tt(f) == Zeros(Pow2(l));
  }

  /** `set_SANF(new_SANF)`: only the SANF is fresh afterwards. */
  function SetSanf(f: RSF, s: seq<bool>): (g: RSF)
    requires Valid(f) && |s| == |f.reps|
    ensures Valid(g) && g.sanf == s && g.l == f.l && g.reps == f.reps
    ensures g.sanfFresh && !g.sttFresh && !g.swsFresh && !g.anfFresh && !g.ttFresh
    ensures g.stt == f.stt && g.sws == f.sws && g.tt == f.tt
  {
    f.(sanf := s, sanfFresh := true, sttFresh := false, swsFresh := false, anfFresh := false, ttFresh := false)
  }

  // ---------------------------------------------------------------------
  // The conversions (`update_STT_from_SANF`, `update_SWS_from_STT`,
  // `update_TT_from_STT`)
  // ---------------------------------------------------------------------

  /** One row of the product over GF(2): when s[i] is set, row i of the
      matrix is added to the accumulated STT. */
  method AddSanfRow(stt: seq<bool>, m: seq<seq<bool>>, s: seq<bool>, i: nat) returns (r: seq<bool>)
    requires Square(m, |s|) && i < |s| && |stt| == |s|
    requires forall j :: 0 <= j < |s| ==> stt[j] == XorSum(i, SanfTerms(m, s, j))
    ensures |r| == |s|
    ensures forall j :: 0 <= j < |s| ==> r[j] == XorSum(i + 1, SanfTerms(m, s, j))
  {
    r := stt;
    if s[i] {
      var j := 0;
      while j < |s|
        invariant 0 <= j <= |s| && |r| == |s|
        invariant forall k :: 0 <= k < j ==> r[k] == XorSum(i + 1, SanfTerms(m, s, k))
        invariant forall k :: j <= k < |s| ==> r[k] == XorSum(i, SanfTerms(m, s, k))
      {
        r := r[j := r[j] != m[i][j]];
        j := j + 1;
      }
    }
  }

  /** The product SANF x SANF_to_STT over GF(2). */
  method SanfTimesMatrix(m: seq<seq<bool>>, s: seq<bool>) returns (stt: seq<bool>)
    requires Square(m, |s|)
    ensures stt == SttOf(m, s)
  {
    stt := Zeros(|s|);
    var i := 0;
    while i < |s|
      invariant 0 <= i <= |s| && |stt| == |s|
      invariant forall j :: 0 <= j < |s| ==> stt[j] == XorSum(i, SanfTerms(m, s, j))
    {
      stt := AddSanfRow(stt, m, s, i);
      i := i + 1;
    }
  }

  /** `update_STT_from_SANF`: STT is the exclusive or of the rows of
      SANF_to_STT selected by the SANF; its flag copies the SANF's. */
  method UpdateSttFromSanf(f: RSF) returns (g: RSF)
    requires Valid(f)
    ensures g == f.(stt := Stt(f), sttFresh := f.sanfFresh)
    ensures Valid(g)
  {
    var stt := SanfTimesMatrix(f.sanfToStt, f.sanf);
    g := f.(stt := stt, sttFresh := f.sanfFresh);
  }

  /** One row of the integer product: (1 - 2 STT[i]) times row i of the
      matrix is added to the accumulated SWS. */
  method AddSwsRow(sws: seq<int>, m: seq<seq<int>>, t: seq<bool>, i: nat) returns (r: seq<int>)
    requires Square(m, |t|) && i < |t| && |sws| == |t|
    requires forall j :: 0 <= j < |t| ==> sws[j] == Sum(i, SwsTerms(m, t, j))
    ensures |r| == |t|
    ensures forall j :: 0 <= j < |t| ==> r[j] == Sum(i + 1, SwsTerms(m, t, j))
  {
    r := sws;
    var sign := 1 - 2 * B2I(t[i]);
    var j := 0;
    while j < |t|
      invariant 0 <= j <= |t| && |r| == |t|
      invariant forall k :: 0 <= k < j ==> r[k] == Sum(i + 1, SwsTerms(m, t, k))
      invariant forall k :: j <= k < |t| ==> r[k] == Sum(i, SwsTerms(m, t, k))
    {
      r := r[j := r[j] + sign * m[i][j]];
      j := j + 1;
    }
  }

  /** The product (1 - 2 STT) x STT_to_SWS. */
  method SttTimesMatrix(m: seq<seq<int>>, t: seq<bool>) returns (sws: seq<int>)
    requires Square(m, |t|)
    ensures sws == SwsOf(m, t)
  {
    sws := seq(|t|, j => 0);
    var i := 0;
    while i < |t|
      invariant 0 <= i <= |t| && |sws| == |t|
      invariant forall j :: 0 <= j < |t| ==> sws[j] == Sum(i, SwsTerms(m, t, j))
    {
      sws := AddSwsRow(sws, m, t, i);
      i := i + 1;
    }
  }

  /** `update_SWS_from_STT`: SWS[j] accumulates (1 - 2 STT[i]) times
      STT_to_SWS[i][j] over the rows i; its flag copies the STT's. */
  method UpdateSwsFromStt(f: RSF) returns (g: RSF)
    requires Valid(f)
    ensures g == f.(sws := SwsOf(f.sttToSws, f.stt), swsFresh := f.sttFresh)
    ensures Valid(g)
  {
    var sws := SttTimesMatrix(f.sttToSws, f.stt);
    g := f.(sws := sws, swsFresh := f.sttFresh);
  }

  /** The first loop of `update_TT_from_STT`: the STT copied to the
      representatives, zero elsewhere. */
  method CopyRepresentatives(f: RSF) returns (tt: seq<bool>)
    requires Valid(f)
    ensures |tt| == Pow2(f.l)
    ensures forall x :: 0 <= x < Pow2(f.l) && IsRepresentative(f.l, x) ==> tt[x] == f.stt[OrbitOf(f.l, x)]
  {
    var l, R := f.l, Representatives(f.l);
    tt := Zeros(Pow2(l));
    var i := 0;
    while i < |f.reps|
      invariant 0 <= i <= |R| && |tt| == Pow2(l)
      invariant forall k :: 0 <= k < i ==> tt[R[k]] == f.stt[k]
    {
      ToIntFromInt(l, R[i]);
      forall k | 0 <= k < i
        ensures R[k] != R[i]
      {
        RepresentativesDistinct(l, k, i);
      }
      tt := tt[ToInt(f.reps[i]) := f.stt[i]];
      i := i + 1;
    }
    forall x | 0 <= x < Pow2(l) && IsRepresentative(l, x)
      ensures tt[x] == f.stt[OrbitOf(l, x)]
    {
      RepresentativesMembers(l, x);
      var k := Position(R, x);
      OrbitOfRepresentative(l, k);
    }
  }

  /** `update_TT_from_STT`: the STT at the representatives, then every other
      point, in increasing order, copies the point its index names, which is
      smaller and so already final. The result is the expansion of the STT
      over the orbits; its flag copies the STT's. */
  method UpdateTtFromStt(f: RSF) returns (g: RSF)
    requires Valid(f)
    ensures g == f.(tt := ExpandTT(f.l, f.stt), ttFresh := f.sttFresh)
    ensures Valid(g)
  {
    var tt := PropagateTt(f);
    g := f.(tt := tt, ttFresh := f.sttFresh);
    SetTtValid(f, g);
  }

  /** The two loops of `update_TT_from_STT` compute the expanded table. */
  method PropagateTt(f: RSF) returns (tt: seq<bool>)
    requires Valid(f)
    ensures tt == ExpandTT(f.l, f.stt)
  {
    var l := f.l;
    tt := CopyRepresentatives(f);
    var x := 0;
    while x < Pow2(l)
      invariant 0 <= x <= Pow2(l)
      invariant Filled(l, f.stt, tt, x)
    {
      PropagateStep(l, f.stt, f.index, tt, x);
      var t := f.index[x];
      if t != -1 {
        tt := tt[x := tt[t]];
      }
      x := x + 1;
    }
    assert forall y :: 0 <= y < Pow2(l) ==> tt[y] == ExpandTT(l, f.stt)[y];
  }

  /** The table once the propagation has passed the points below x: right
      below x, and right at every representative. */
  predicate Filled(l: nat, stt: seq<bool>, tt: seq<bool>, x: nat)
    requires l >= 1 && |stt| == |Representatives(l)|
  {
    |tt| == Pow2(l)
    && (forall y :: 0 <= y < x && y < Pow2(l) ==> tt[y] == stt[OrbitOf(l, y)])
    && (forall y :: x <= y < Pow2(l) && IsRepresentative(l, y) ==> tt[y] == stt[OrbitOf(l, y)])
  }

  /** One turn of the propagation loop: the point x copies a smaller point
      of its orbit, or is a representative and already right. */
  lemma PropagateStep(l: nat, stt: seq<bool>, index: seq<int>, tt: seq<bool>, x: nat)
    requires l >= 1 && |stt| == |Representatives(l)| && x < Pow2(l) && |index| == Pow2(l)
    requires index[x] == TableIndex(l, x) && Filled(l, stt, tt, x)
    ensures index[x] != -1 ==> 0 <= index[x] < |tt|
    ensures Filled(l, stt, if index[x] != -1 then tt[x := tt[index[x]]] else tt, x + 1)
  {
    var t := index[x];
    if t != -1 {
      OrbitOfSame(l, x, t);
    }
  }

  /** Replacing the TT by the expanded STT, with the STT's flag, keeps the invariant. */
  lemma SetTtValid(f: RSF, g: RSF)
    requires Valid(f) && g == f.(tt := ExpandTT(f.l, f.stt), ttFresh := f.sttFresh)
    ensures Valid(g)
  {
    assert Tables(g) == Tables(f);
  }

  // ---------------------------------------------------------------------
  // `update_STT`, `update_SWS`, `update_TT`
  // ---------------------------------------------------------------------

  /** `update_STT`: a fresh STT is kept; otherwise it is recomputed from the
      SANF, which is always fresh. */
  method UpdateStt(f: RSF) returns (g: RSF)
    requires Valid(f)
    ensures Valid(g) && g.sttFresh && g.stt == Stt(f)
    ensures g == f.(stt := Stt(f), sttFresh := true)
    ensures f.sttFresh ==> g == f
  {
    if f.sttFresh {
      return f;
    }
    if f.sanfFresh {
      g := UpdateSttFromSanf(f);
      return;
    }
    assert false;
    return f;
  }

  /** `update_SWS`: a fresh SWS is kept; otherwise the STT is brought up to
      date first. Afterwards the SWS is the one the SANF determines, and the
      SANF and TT are untouched. */
  method UpdateSws(f: RSF) returns (g: RSF)
    requires Valid(f)
    ensures Valid(g) && g.swsFresh && g.sws == Sws(f)
    ensures g.sanf == f.sanf && g.sanfToStt == f.sanfToStt && g.sttToSws == f.sttToSws
    ensures g.tt == f.tt && g.ttFresh == f.ttFresh && g.verifier == f.verifier && g.l == f.l
    ensures g.reps == f.reps && g.byWeight == f.byWeight
    ensures f.swsFresh ==> g == f
  {
    if f.swsFresh {
      return f;
    }
    var h := f;
    if !f.sttFresh {
      h := UpdateStt(f);
    }
    g := UpdateSwsFromStt(h);
  }

  /** `update_TT`: a fresh TT is kept; otherwise the STT is brought up to
      date first. Afterwards the TT is the expansion of the STT the SANF
      determines. */
  method UpdateTt(f: RSF) returns (g: RSF)
    requires Valid(f)
    ensures Valid(g) && g.ttFresh && g.tt == Tt(f)
    ensures g.sanf == f.sanf && g.sanfToStt == f.sanfToStt && g.sttToSws == f.sttToSws
    ensures g.verifier == f.verifier && g.l == f.l && g.reps == f.reps && g.byWeight == f.byWeight
    ensures f.ttFresh ==> g == f
  {
    if f.ttFresh {
      return f;
    }
    var h := f;
    if !f.sttFresh {
      h := UpdateStt(f);
    }
    g := UpdateTtFromStt(h);
  }

  // ---------------------------------------------------------------------
  // Resiliency (`is_resilient_optimised`, `is_resilient`)
  // ---------------------------------------------------------------------

  /** The orbit-level resiliency test: the SWS the SANF determines vanishes
      at every representative of weight at most r. */
  predicate ResilientAt(f: RSF, r: int)
    requires Tables(f) && Shaped(f)
  {
    forall i :: 0 <= i < |f.reps| && Popcount(Representatives(f.l)[i]) <= r ==> Sws(f)[i] == 0
  }

  /** Number of entries of s of weight at most r. */
  function CountUpTo(s: seq<nat>, r: int): (c: nat)
    ensures c <= |s|
  {
    if |s| == 0 then 0
    else CountUpTo(s[..|s| - 1], r) + (if Popcount(s[|s| - 1]) <= r then 1 else 0)
  }

  function SumNats(a: seq<nat>): nat
  {
    if |a| == 0 then 0 else SumNats(a[..|a| - 1]) + a[|a| - 1]
  }

  /** The end of the slice a[0:e] of a list of n entries: a negative end
      counts from the back, and the end is clamped to the list. */
  function SliceEnd(n: nat, e: int): (k: nat)
    ensures k <= n
  {
    if e < 0 then (if n + e < 0 then 0 else n + e)
    else if e > n then n
    else e
  }

  /** `sum(nb_representatives_by_weight[0:(r + 1)])`, the number of SWS
      entries `is_resilient_optimised` computes. */
  function Stop(f: RSF, r: int): nat
  {
    SumNats(f.byWeight[..SliceEnd(|f.byWeight|, r + 1)])
  }

  lemma {:induction false} CountUpToStep(s: seq<nat>, w: nat)
    ensures CountUpTo(s, w) == CountUpTo(s, w - 1) + CountWeight(s, w)
  {
    if |s| > 0 {
      CountUpToStep(s[..|s| - 1], w);
    }
  }

  lemma {:induction false} CountUpToNone(s: seq<nat>, r: int)
    requires r < 0
    ensures CountUpTo(s, r) == 0
  {
    if |s| > 0 {
      CountUpToNone(s[..|s| - 1], r);
    }
  }

  lemma {:induction false} CountUpToAll(s: seq<nat>, l: nat, r: int)
    requires forall i :: 0 <= i < |s| ==> Popcount(s[i]) <= l
    requires l <= r
    ensures CountUpTo(s, r) == |s|
  {
    if |s| > 0 {
      CountUpToAll(s[..|s| - 1], l, r);
    }
  }

  /** The per-weight counts of weights below k add up to the number of
      entries of weight below k. */
  lemma {:induction false} SumCounts(a: seq<nat>, s: seq<nat>, k: nat)
    requires k <= |a| && forall w :: 0 <= w < |a| ==> a[w] == CountWeight(s, w)
    ensures SumNats(a[..k]) == CountUpTo(s, k - 1)
  {
    if k == 0 {
      CountUpToNone(s, -1);
    } else {
      SumCounts(a, s, k - 1);
      assert a[..k][..k - 1] == a[..k - 1];
      CountUpToStep(s, k - 1);
    }
  }

  /** In a list sorted by weight, the entries of weight at most r are the
      first CountUpTo(s, r). */
  lemma {:induction false} LightPrefix(s: seq<nat>, r: int)
    requires forall i, j :: 0 <= i <= j < |s| ==> Popcount(s[i]) <= Popcount(s[j])
    ensures forall i :: 0 <= i < |s| ==> (i < CountUpTo(s, r) <==> Popcount(s[i]) <= r)
  {
    if |s| > 0 {
      var n := |s|;
      var p := s[..n - 1];
      LightPrefix(p, r);
      if Popcount(s[n - 1]) <= r {
        assert forall i :: 0 <= i < n - 1 ==> Popcount(p[i]) <= r;
        assert CountUpTo(p, r) == n - 1;
      }
    }
  }

  /** The representatives are sorted by weight, each of weight at most l. */
  lemma RepresentativesSorted(l: nat)
    ensures forall i :: 0 <= i < |Representatives(l)| ==> Popcount(Representatives(l)[i]) <= l
    ensures forall i, j :: 0 <= i <= j < |Representatives(l)| ==>
      Popcount(Representatives(l)[i]) <= Popcount(Representatives(l)[j])
  {
    forall i | 0 <= i < |Representatives(l)|
      ensures Popcount(Representatives(l)[i]) <= l
    {
      RepresentativeFacts(l, i);
    }
    RepresentativesOrdered(l);
  }

  /** Summing the per-weight counts of a list sorted by weight up to the
      slice end r + 1 counts its prefix of weight at most r, for r >= -1. */
  lemma {:induction false} PrefixOfCounts(a: seq<nat>, s: seq<nat>, l: nat, r: int)
    requires |a| == l + 1 && forall w :: 0 <= w <= l ==> a[w] == CountWeight(s, w)
    requires forall i :: 0 <= i < |s| ==> Popcount(s[i]) <= l
    requires forall i, j :: 0 <= i <= j < |s| ==> Popcount(s[i]) <= Popcount(s[j])
    requires r >= -1
    ensures SumNats(a[..SliceEnd(|a|, r + 1)]) == CountUpTo(s, r)
    ensures forall i :: 0 <= i < |s| ==> (i < CountUpTo(s, r) <==> Popcount(s[i]) <= r)
  {
    SumCounts(a, s, SliceEnd(|a|, r + 1));
    if r >= l {
      CountUpToAll(s, l, r);
      CountUpToAll(s, l, l);
    }
    LightPrefix(s, r);
  }

  /** For r >= -1, the SWS entries checked by `is_resilient_optimised` are
      exactly those of the representatives of weight at most r. */
  lemma StopIsLight(f: RSF, r: int)
    requires Tables(f) && r >= -1
    ensures Stop(f, r) == CountUpTo(Representatives(f.l), r) <= |f.reps|
    ensures forall i :: 0 <= i < |f.reps| ==> (i < Stop(f, r) <==> Popcount(Representatives(f.l)[i]) <= r)
  {
    RepresentativesSorted(f.l);
    PrefixOfCounts(f.byWeight, Representatives(f.l), f.l, r);
  }

  /** Below -1 the slice end counts from the back of the list of counts:
      `is_resilient_optimised(r)` then checks the weights up to l + 1 + r. */
  lemma NegativeResilience(f: RSF, r: int)
    requires Tables(f) && r < -1 && r + f.l + 2 >= 0
    ensures Stop(f, r) == CountUpTo(Representatives(f.l), f.l + 1 + r)
  {
    SumCounts(f.byWeight, Representatives(f.l), f.l + 2 + r);
  }

  /** Entry i of the SWS, as `is_resilient_optimised` computes it. */
  method SwsEntry(m: seq<seq<int>>, t: seq<bool>, i: nat) returns (e: int)
    requires Square(m, |t|) && i < |t|
    ensures e == SwsOf(m, t)[i]
  {
    e := 0;
    var j := 0;
    while j < |t|
      invariant 0 <= j <= |t|
      invariant e == Sum(j, SwsTerms(m, t, i))
    {
      e := e + (1 - 2 * B2I(t[j])) * m[j][i];
      j := j + 1;
    }
  }

  /** The loop of `is_resilient_optimised`: the first stop SWS entries are
      computed one by one, up to the first nonzero one. */
  method LeadingZeros(m: seq<seq<int>>, t: seq<bool>, stop: nat) returns (res: bool)
    requires Square(m, |t|) && stop <= |t|
    ensures res <==> forall i :: 0 <= i < stop ==> SwsOf(m, t)[i] == 0
  {
    var i := 0;
    while i < stop
      invariant 0 <= i <= stop
      invariant forall k :: 0 <= k < i ==> SwsOf(m, t)[k] == 0
    {
      var e := SwsEntry(m, t, i);
      if e != 0 {
        return false;
      }
      i := i + 1;
    }
    return true;
  }

  /** `is_resilient_optimised(r)`: the STT is brought up to date and only
      the first Stop(f, r) SWS entries are computed, stopping at the first
      nonzero one; the SWS and its flag are untouched. For r >= -1 it
      decides the same as `is_resilient`. */
  method IsResilientOptimised(f: RSF, r: int) returns (g: RSF, res: bool)
    requires Valid(f)
    ensures Valid(g) && g == f.(stt := Stt(f), sttFresh := true)
    ensures Stop(f, r) <= |f.reps|
    ensures res <==> forall i :: 0 <= i < Stop(f, r) ==> Sws(f)[i] == 0
    ensures r >= -1 ==> (res <==> ResilientAt(f, r))
  {
    g := UpdateStt(f);
    SumCounts(f.byWeight, Representatives(f.l), SliceEnd(|f.byWeight|, r + 1));
    ghost var w := Sws(f);
    assert g.sttToSws == f.sttToSws && g.stt == Stt(f);
    assert SwsOf(g.sttToSws, g.stt) == w;
    res := LeadingZeros(g.sttToSws, g.stt, Stop(f, r));
    if r >= -1 {
      StopIsLight(f, r);
    }
  }

  /** `is_resilient_optimised` with the slice end clamped at 0, so that a
      resiliency below -1 checks no entry, as `is_resilient` does. It
      decides ResilientAt for every r. */
  method IsResilientOptimisedClamped(f: RSF, r: int) returns (g: RSF, res: bool)
    requires Valid(f)
    ensures Valid(g) && g == f.(stt := Stt(f), sttFresh := true)
    ensures res <==> ResilientAt(f, r)
  {
    var r' := if r < -1 then -1 else r;
    g := UpdateStt(f);
    ghost var w := Sws(f);
    assert g.sttToSws == f.sttToSws && g.stt == Stt(f);
    assert SwsOf(g.sttToSws, g.stt) == w;
    StopIsLight(f, r');
    res := LeadingZeros(g.sttToSws, g.stt, Stop(f, r'));
    if r < -1 {
      assert Stop(f, r') == 0 by { CountUpToNone(Representatives(f.l), -1); }
    }
  }

  /** The two tests disagree below -1: for a function whose SWS is nonzero
      at the representative 0 (an unbalanced one), `is_resilient(-2)` holds
      while `is_resilient_optimised(-2)` checks the weights up to l - 1, the
      first entry among them, and fails. */
  lemma OptimisedBelowMinusOne(f: RSF)
    requires Tables(f) && Shaped(f)
    ensures ResilientAt(f, -2)
    ensures 1 <= Stop(f, -2) <= |f.sanf|
    ensures Sws(f)[0] != 0 ==> !(forall i :: 0 <= i < Stop(f, -2) ==> Sws(f)[i] == 0)
  {
    StopBelowMinusOne(f);
  }

  /** Below -1 the optimised test still checks the first entry. */
  lemma StopBelowMinusOne(f: RSF)
    requires Tables(f)
    ensures 1 <= Stop(f, -2) <= |Representatives(f.l)|
  {
    var R := Representatives(f.l);
    assert Stop(f, -2) == CountUpTo(R, f.l - 1) by { NegativeResilience(f, -2); }
    LightestFirst(f.l);
  }

  /** The representative 0 comes first, so some representative has weight
      at most l - 1. */
  lemma LightestFirst(l: nat)
    requires l >= 1
    ensures 1 <= CountUpTo(Representatives(l), l - 1)
  {
    var R := Representatives(l);
    RepresentativesSorted(l);
    assert Popcount(R[0]) == 0 by {
      ExtremeRepresentatives(l);
      var z := Position(R, 0);
      assert Popcount(R[0]) <= Popcount(R[z]);
    }
    LightPrefix(R, l - 1);
  }

  /** The loop of `is_resilient`: entries of the SWS are read while the
      representative's weight stays at most r, up to the first nonzero one.
      For r < l the all-ones representative, of weight l, stops the scan
      before the end of the list. For r >= l every representative is light,
      and when every entry is zero the scan runs off the end of the list:
      the index error is None. */
  method ScanLight(reps: seq<seq<bool>>, sws: seq<int>, l: nat, r: int) returns (res: Option<bool>)
    requires reps == Vectors(l, Representatives(l)) && |sws| == |reps|
    ensures res.None? <==> l <= r && forall i :: 0 <= i < |sws| ==> sws[i] == 0
    ensures res.Some? ==> (res.value <==>
      forall i :: 0 <= i < |reps| && Popcount(Representatives(l)[i]) <= r ==> sws[i] == 0)
  {
    ghost var R := Representatives(l);
    var i := 0;
    while i < |reps| && Weight(reps[i]) <= r
      invariant 0 <= i <= |reps|
      invariant forall k :: 0 <= k < i ==> Popcount(R[k]) <= r && sws[k] == 0
      decreases |reps| - i
    {
      RepresentativeFacts(l, i);
      if sws[i] != 0 {
        return Some(false);
      }
      i := i + 1;
    }
    if i == |reps| {
      ScanAll(reps, l, r);
      return None;
    }
    ScanEnd(reps, l, r, i);
    return Some(true);
  }

  /** A scan that reads every representative shows r >= l. */
  lemma ScanAll(reps: seq<seq<bool>>, l: nat, r: int)
    requires reps == Vectors(l, Representatives(l))
    requires forall k :: 0 <= k < |reps| ==> Popcount(Representatives(l)[k]) <= r
    ensures l <= r
  {
    var t := TopPosition(l);
    ExtremeRepresentatives(l);
    assert Popcount(Representatives(l)[t]) <= r;
  }

  /** The position of the all-ones representative, the heaviest one. */
  ghost function TopPosition(l: nat): (t: nat)
    ensures t < |Representatives(l)| && Representatives(l)[t] == Pow2(l) - 1
  {
    ExtremeRepresentatives(l);
    Position(Representatives(l), Pow2(l) - 1)
  }

  /** Where the scan of `is_resilient` stops, every later representative is
      heavier than r, and r < l. */
  lemma ScanEnd(reps: seq<seq<bool>>, l: nat, r: int, i: nat)
    requires reps == Vectors(l, Representatives(l)) && i < |reps| && Weight(reps[i]) > r
    ensures forall k :: i <= k < |reps| ==> Popcount(Representatives(l)[k]) > r
    ensures r < l
  {
    RepresentativeFacts(l, i);
    forall k | i <= k < |reps|
      ensures Popcount(Representatives(l)[k]) > r
    {
      RepresentativeWeights(l, i, k);
    }
  }

  /** `is_resilient(r)`: the SWS is brought up to date and scanned over the
      representatives of weight at most r. The answer is that of
      `is_resilient_optimised`; for r >= l with a zero SWS the source fails
      with an index error, which is None. */
  method IsResilient(f: RSF, r: int) returns (g: RSF, res: Option<bool>)
    requires Valid(f)
    ensures Valid(g) && g.swsFresh && g.sws == Sws(f) && g.sanf == f.sanf
    ensures res.None? <==> f.l <= r && forall i :: 0 <= i < |f.reps| ==> Sws(f)[i] == 0
    ensures res.Some? ==> (res.value <==> ResilientAt(f, r))
  {
    g := UpdateSws(f);
    ghost var w := Sws(f);
    assert g.sws == w && g.reps == f.reps;
    res := ScanLight(g.reps, g.sws, f.l, r);
  }

  // ---------------------------------------------------------------------
  // Algebraic immunity (`is_algebraic_immune`)
  // ---------------------------------------------------------------------

  /** The verifier a check for immunity ai starts from: a new one when the
      target changes, the current one reset otherwise. */
  function StartVerifier(f: RSF, c: ReedMuller.Cache, ai: int): (res: (AlgebraicImmunity.Verifier, ReedMuller.Cache))
    requires Valid(f) && ReedMuller.CacheValid(c)
    ensures AlgebraicImmunity.Valid(res.0) && ReedMuller.CacheValid(res.1)
    ensures res.0.l == f.l && res.0.ai == ai && res.0.remaining == Pow2(f.l)
    ensures res.0.mat0 == [] && res.0.mat1 == [] && res.0.rank0 == 0 && res.0.rank1 == 0
  {
    if f.verifier.ai != ai then AlgebraicImmunity.NewVerifier(c, f.l, ai)
    else (AlgebraicImmunity.Reset(f.verifier), c)
  }

  /** The object with its verifier replaced: the representations are
      untouched, so the invariant carries over. */
  function WithVerifier(f: RSF, v: AlgebraicImmunity.Verifier): (g: RSF)
    requires Valid(f) && AlgebraicImmunity.Valid(v) && v.l == f.l
    ensures Valid(g) && g.verifier == v
    ensures g.sanf == f.sanf && g.stt == f.stt && g.sws == f.sws && g.tt == f.tt
    ensures g.sttFresh == f.sttFresh && g.swsFresh == f.swsFresh && g.ttFresh == f.ttFresh
  {
    var g := f.(verifier := v);
    assert g.reps == f.reps && g.index == f.index && g.sanfToStt == f.sanfToStt;
    assert g.sttToSws == f.sttToSws && g.byWeight == f.byWeight && g.l == f.l;
    assert Tables(g) && Stt(g) == Stt(f) && Sws(g) == Sws(f) && Tt(g) == Tt(f);
    g
  }

  /** `is_algebraic_immune(ai)`: the verifier is renewed or reset, the TT
      brought up to date, and every point fed with its value in increasing
      order. The answer is true iff every call of that run answers true,
      and a true answer certifies that the function has no nonzero
      annihilator of degree below ai, nor has its complement. */
  method IsAlgebraicImmune(f: RSF, c: ReedMuller.Cache, ai: int) returns (g: RSF, c': ReedMuller.Cache, res: bool)
    requires Valid(f) && ReedMuller.CacheValid(c)
    ensures Valid(g) && ReedMuller.CacheValid(c')
    ensures g.ttFresh && g.tt == Tt(f) && g.sanf == f.sanf && g.verifier.ai == ai
    ensures AlgebraicImmunity.Points(StartVerifier(f, c, ai).0, AlgebraicImmunity.Inputs(f.l), Tt(f))
    ensures res <==> forall k :: 0 <= k < Pow2(f.l) ==>
      AlgebraicImmunity.Run(StartVerifier(f, c, ai).0, AlgebraicImmunity.Inputs(f.l), Tt(f)).1[k]
    ensures res ==> AlgebraicImmunity.NoAnnihilatorBelow(Tt(f), f.l, ai)
  {
    var start := StartVerifier(f, c, ai);
    c' := start.1;
    var h := UpdateTt(f);
    var v;
    var xs := AlgebraicImmunity.EnumerateInputs(f.l);
    v, res := AlgebraicImmunity.Feed(start.0, xs, h.tt);
    g := WithVerifier(h, v);
  }
}
