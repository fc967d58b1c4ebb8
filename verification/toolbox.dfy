/*
 * The transform toolbox (toolbox.py): the Moebius and Walsh transforms, the
 * sign map, complement and exclusive or of vectors, degree truncation and the
 * permutation of the variables of a point.
 */
module Toolbox {
  import opened Bits
  import opened Sums
  import opened Butterfly

  // ---------------------------------------------------------------------
  // Element-wise maps
  // ---------------------------------------------------------------------

  /** Integer value of a bit, as the repository stores bits. */
  function B2I(b: bool): int
  {
    if b then 1 else 0
  }

  /** `sign`: 0 is mapped to -1 and 1 to +1. */
  function Sign(f: seq<bool>): (r: seq<int>)
    ensures |r| == |f|
    ensures forall i :: 0 <= i < |f| ==> r[i] == 2 * B2I(f[i]) - 1
  {
    seq(|f|, i requires 0 <= i < |f| => if f[i] then 1 else -1)
  }

  /** `vector_complement`: 0 and 1 exchanged. */
  function Complement(v: seq<bool>): (r: seq<bool>)
    ensures |r| == |v|
    ensures forall i :: 0 <= i < |v| ==> r[i] != v[i]
  {
    seq(|v|, i requires 0 <= i < |v| => !v[i])
  }

  /** `xor_vectors`: a copy of v1 with v2 added entry by entry. */
  function XorVectors(v1: seq<bool>, v2: seq<bool>): (r: seq<bool>)
    requires |v2| >= |v1|
    ensures |r| == |v1|
    ensures forall i :: 0 <= i < |v1| ==> r[i] == (v1[i] != v2[i])
  {
    seq(|v1|, i requires 0 <= i < |v1| => v1[i] != v2[i])
  }

  /** `vector_opposite`: every entry negated. */
  function Opposite(v: seq<int>): (r: seq<int>)
    ensures |r| == |v|
    ensures forall i :: 0 <= i < |v| ==> r[i] + v[i] == 0
  {
    seq(|v|, i requires 0 <= i < |v| => -v[i])
  }

  /** `add_vectors`: a copy of v1 with v2 added entry by entry. */
  function AddVectors(v1: seq<int>, v2: seq<int>): (r: seq<int>)
    requires |v2| >= |v1|
    ensures |r| == |v1|
    ensures forall i :: 0 <= i < |v1| ==> r[i] - v2[i] == v1[i]
  {
    seq(|v1|, i requires 0 <= i < |v1| => v1[i] + v2[i])
  }

  /** A matrix as a list of rows of one common length. */
  predicate IsMatrix(m: seq<seq<bool>>, rows: nat, cols: nat)
  {
    |m| == rows && forall i :: 0 <= i < rows ==> |m[i]| == cols
  }

  /** `xor_matrices`: the entry-wise exclusive or of two matrices of the same shape. */
  function XorMatrices(m1: seq<seq<bool>>, m2: seq<seq<bool>>): (r: seq<seq<bool>>)
    requires |m1| >= 1 && IsMatrix(m1, |m1|, |m1[0]|) && IsMatrix(m2, |m1|, |m1[0]|)
    ensures IsMatrix(r, |m1|, |m1[0]|)
    ensures forall i, j :: 0 <= i < |m1| && 0 <= j < |m1[0]| ==> r[i][j] == (m1[i][j] != m2[i][j])
  {
    seq(|m1|, i requires 0 <= i < |m1| => XorVectors(m1[i], m2[i]))
  }

  lemma OppositeInvolution(v: seq<int>)
    ensures Opposite(Opposite(v)) == v
  {
  }

  /** Adding a vector and then its opposite gives back the first one. */
  lemma AddOpposite(v1: seq<int>, v2: seq<int>)
    requires |v2| == |v1|
    ensures AddVectors(AddVectors(v1, v2), Opposite(v2)) == v1
  {
  }

  /** Adding the same vector twice cancels. */
  lemma XorVectorsCancel(v1: seq<bool>, v2: seq<bool>)
    requires |v2| >= |v1|
    ensures XorVectors(XorVectors(v1, v2), v2) == v1
  {
  }

  lemma XorMatricesCancel(m1: seq<seq<bool>>, m2: seq<seq<bool>>)
    requires |m1| >= 1 && IsMatrix(m1, |m1|, |m1[0]|) && IsMatrix(m2, |m1|, |m1[0]|)
    ensures XorMatrices(XorMatrices(m1, m2), m2) == m1
  {
    var r := XorMatrices(XorMatrices(m1, m2), m2);
    forall i | 0 <= i < |m1|
      ensures r[i] == m1[i]
    {
      XorVectorsCancel(m1[i], m2[i]);
    }
  }

  lemma ComplementInvolution(v: seq<bool>)
    ensures Complement(Complement(v)) == v
  {
  }

  /** The sign of the complement is the opposite of the sign. */
  lemma SignComplement(f: seq<bool>)
    ensures Sign(Complement(f)) == Opposite(Sign(f))
  {
  }

  // ---------------------------------------------------------------------
  // The Moebius transform
  // ---------------------------------------------------------------------

  /** The Moebius pair step: `F[e + offset] = F[e] ^ F[e + offset]`. */
  function MoebiusPair(a: bool, b: bool): (bool, bool)
  {
    (a, a != b)
  }

  /** The Moebius transform of a table of length 2^l (ANF to truth table and back). */
  function Moebius(f: seq<bool>, l: nat): (r: seq<bool>)
    requires |f| == Pow2(l)
    ensures |r| == |f|
  {
    Fast(MoebiusPair, f, l)
  }

  /** The terms of the subset sum at u: the inputs at every v whose bits are among u's. */
  function SubsetTerm(f: seq<bool>, u: nat, v: nat): bool
  {
    v < |f| && f[v] && Covers(u, v)
  }

  function SubsetTerms(f: seq<bool>, u: nat): nat -> bool
  {
    (v: nat) => SubsetTerm(f, u, v)
  }

  /** The exclusive or of f over every v whose set bits are a subset of u's. */
  function SubsetXor(f: seq<bool>, u: nat): bool
  {
    XorSum(|f|, SubsetTerms(f, u))
  }

  lemma MoebiusUnfold(f: seq<bool>, l: nat)
    requires l >= 1 && |f| == Pow2(l)
    ensures Moebius(f, l) == Moebius(f[..Pow2(l - 1)], l - 1)
                             + Moebius(XorVectors(f[..Pow2(l - 1)], f[Pow2(l - 1)..]), l - 1)
  {
    var h := Pow2(l - 1);
    var g := Level(MoebiusPair, f, h);
    assert g[..h] == f[..h];
    assert g[h..] == XorVectors(f[..h], f[h..]);
  }

  lemma XorsConcat(a1: seq<bool>, a2: seq<bool>, b1: seq<bool>, b2: seq<bool>)
    requires |a1| == |b1| && |a2| == |b2|
    ensures XorVectors(a1 + a2, b1 + b2) == XorVectors(a1, b1) + XorVectors(a2, b2)
  {
  }

  /** The Moebius transform is linear over GF(2). */
  lemma {:induction false} MoebiusLinear(a: seq<bool>, b: seq<bool>, l: nat)
    requires |a| == Pow2(l) && |b| == Pow2(l)
    ensures Moebius(XorVectors(a, b), l) == XorVectors(Moebius(a, l), Moebius(b, l))
    decreases l
  {
    if l >= 1 {
      var h := Pow2(l - 1);
      var c := XorVectors(a, b);
      assert c[..h] == XorVectors(a[..h], b[..h]);
      assert XorVectors(c[..h], c[h..]) == XorVectors(XorVectors(a[..h], a[h..]), XorVectors(b[..h], b[h..]));
      MoebiusUnfold(a, l);
      MoebiusUnfold(b, l);
      MoebiusUnfold(c, l);
      MoebiusLinear(a[..h], b[..h], l - 1);
      MoebiusLinear(XorVectors(a[..h], a[h..]), XorVectors(b[..h], b[h..]), l - 1);
      XorsConcat(Moebius(a[..h], l - 1), Moebius(XorVectors(a[..h], a[h..]), l - 1),
                 Moebius(b[..h], l - 1), Moebius(XorVectors(b[..h], b[h..]), l - 1));
    }
  }

  /** The halves of a transformed table: the transform of the low half, and the sum of both halves' transforms. */
  lemma MoebiusHalves(f: seq<bool>, l: nat)
    requires l >= 1 && |f| == Pow2(l)
    ensures Moebius(f, l)[..Pow2(l - 1)] == Moebius(f[..Pow2(l - 1)], l - 1)
    ensures Moebius(f, l)[Pow2(l - 1)..]
            == XorVectors(Moebius(f[..Pow2(l - 1)], l - 1), Moebius(f[Pow2(l - 1)..], l - 1))
  {
    var h := Pow2(l - 1);
    MoebiusUnfold(f, l);
    MoebiusLinear(f[..h], f[h..], l - 1);
  }

  /** Applied twice, the Moebius transform gives back its input. */
  lemma {:induction false} MoebiusInvolution(f: seq<bool>, l: nat)
    requires |f| == Pow2(l)
    ensures Moebius(Moebius(f, l), l) == f
    decreases l, 1
  {
    if l >= 1 {
      var h := Pow2(l - 1);
      var A := Moebius(f, l);
      InvolutionLow(f, l);
      InvolutionHigh(f, l);
      MoebiusUnfold(A, l);
      assert f == f[..h] + f[h..];
    }
  }

  /** The second transform recovers the low half of the table from the first's low half. */
  lemma {:induction false} InvolutionLow(f: seq<bool>, l: nat)
    requires l >= 1 && |f| == Pow2(l)
    ensures Moebius(Moebius(f, l)[..Pow2(l - 1)], l - 1) == f[..Pow2(l - 1)]
    decreases l, 0
  {
    MoebiusHalves(f, l);
    MoebiusInvolution(f[..Pow2(l - 1)], l - 1);
  }

  /** The second transform recovers the high half of the table from the sum of the first's halves. */
  lemma {:induction false} InvolutionHigh(f: seq<bool>, l: nat)
    requires l >= 1 && |f| == Pow2(l)
    ensures Moebius(XorVectors(Moebius(f, l)[..Pow2(l - 1)], Moebius(f, l)[Pow2(l - 1)..]), l - 1)
            == f[Pow2(l - 1)..]
    decreases l, 0
  {
    var h := Pow2(l - 1);
    var A := Moebius(f, l);
    var mlo := Moebius(f[..h], l - 1);
    var mhi := Moebius(f[h..], l - 1);
    MoebiusHalves(f, l);
    assert XorVectors(A[..h], A[h..]) == mhi;
    MoebiusInvolution(f[h..], l - 1);
  }

  /** The terms of a low subset sum at v and at the top half's v. */
  lemma SubsetTermLow(f: seq<bool>, l: nat, u: nat, v: nat)
    requires l >= 1 && |f| == Pow2(l) && u < Pow2(l - 1) && v < Pow2(l - 1)
    ensures SubsetTerm(f, u, v) == SubsetTerm(f[..Pow2(l - 1)], u, v)
    ensures !SubsetTerm(f, u, Pow2(l - 1) + v)
  {
    CoversTop(l, u, v);
  }

  /** The terms of a high subset sum at v and at the top half's v. */
  lemma SubsetTermHigh(f: seq<bool>, l: nat, w: nat, v: nat)
    requires l >= 1 && |f| == Pow2(l) && w < Pow2(l - 1) && v < Pow2(l - 1)
    ensures SubsetTerm(f, Pow2(l - 1) + w, v) == SubsetTerm(f[..Pow2(l - 1)], w, v)
    ensures SubsetTerm(f, Pow2(l - 1) + w, Pow2(l - 1) + v) == SubsetTerm(f[Pow2(l - 1)..], w, v)
    ensures SubsetTerm(XorVectors(f[..Pow2(l - 1)], f[Pow2(l - 1)..]), w, v)
            == (SubsetTerm(f[..Pow2(l - 1)], w, v) != SubsetTerm(f[Pow2(l - 1)..], w, v))
  {
    CoversTop(l, w, v);
  }

  /** Below the top bit, the subset sums of f are those of its lower half. */
  lemma SubsetXorLow(f: seq<bool>, l: nat, u: nat)
    requires l >= 1 && |f| == Pow2(l) && u < Pow2(l - 1)
    ensures SubsetXor(f, u) == SubsetXor(f[..Pow2(l - 1)], u)
  {
    var h := Pow2(l - 1);
    forall v: nat | v < h
      ensures SubsetTerms(f, u)(v) == SubsetTerms(f[..h], u)(v) && !Shift(SubsetTerms(f, u), h)(v)
    {
      SubsetTermLow(f, l, u, v);
    }
    XorSumHalvesLow(h, SubsetTerms(f, u), SubsetTerms(f[..h], u));
  }

  /** The terms of the subset sums above the top bit, paired with those of the halves. */
  lemma SubsetTermsHigh(f: seq<bool>, l: nat, w: nat)
    requires l >= 1 && |f| == Pow2(l) && w < Pow2(l - 1)
    ensures var h := Pow2(l - 1);
            var g, a, b := SubsetTerms(f, h + w), SubsetTerms(f[..h], w), SubsetTerms(f[h..], w);
            forall v: nat :: v < h ==>
              g(v) == a(v) && g(h + v) == b(v)
              && SubsetTerms(XorVectors(f[..h], f[h..]), w)(v) == (a(v) != b(v))
  {
    var h := Pow2(l - 1);
    forall v: nat | v < h
      ensures SubsetTerm(f, h + w, v) == SubsetTerm(f[..h], w, v)
              && SubsetTerm(f, h + w, h + v) == SubsetTerm(f[h..], w, v)
              && SubsetTerm(XorVectors(f[..h], f[h..]), w, v)
                 == (SubsetTerm(f[..h], w, v) != SubsetTerm(f[h..], w, v))
    {
      SubsetTermHigh(f, l, w, v);
    }
  }

  /** Above the top bit, the subset sums of f are those of the sum of its halves. */
  lemma SubsetXorHigh(f: seq<bool>, l: nat, w: nat)
    requires l >= 1 && |f| == Pow2(l) && w < Pow2(l - 1)
    ensures SubsetXor(f, Pow2(l - 1) + w)
            == SubsetXor(XorVectors(f[..Pow2(l - 1)], f[Pow2(l - 1)..]), w)
  {
    var h := Pow2(l - 1);
    var x := XorVectors(f[..h], f[h..]);
    SubsetTermsHigh(f, l, w);
    XorSumHalvesXor(h, SubsetTerms(f, h + w), SubsetTerms(f[..h], w), SubsetTerms(f[h..], w), SubsetTerms(x, w));
    assert |f| == h + h && |x| == h;
  }

  /** MoebiusSubsets on a single entry. */
  lemma MoebiusSubsetsOne(f: seq<bool>)
    requires |f| == 1
    ensures Moebius(f, 0)[0] == SubsetXor(f, 0)
  {
    assert Covers(0, 0);
    XorSumSingle(1, SubsetTerms(f, 0), 0);
    assert SubsetXor(f, 0) == f[0];
  }

  lemma MoebiusAtLow(f: seq<bool>, l: nat, u: nat)
    requires l >= 1 && |f| == Pow2(l) && u < Pow2(l - 1)
    ensures Moebius(f, l)[u] == Moebius(f[..Pow2(l - 1)], l - 1)[u]
  {
    var h := Pow2(l - 1);
    var A := Moebius(f[..h], l - 1);
    var B := Moebius(XorVectors(f[..h], f[h..]), l - 1);
    MoebiusUnfold(f, l);
    assert Moebius(f, l) == A + B;
    assert (A + B)[u] == A[u];
  }

  /** One level of MoebiusSubsets below the top bit. */
  lemma MoebiusSubsetsLow(f: seq<bool>, l: nat, u: nat)
    requires l >= 1 && |f| == Pow2(l) && u < Pow2(l - 1)
    requires Moebius(f[..Pow2(l - 1)], l - 1)[u] == SubsetXor(f[..Pow2(l - 1)], u)
    ensures Moebius(f, l)[u] == SubsetXor(f, u)
  {
    MoebiusAtLow(f, l, u);
    SubsetXorLow(f, l, u);
  }

  lemma MoebiusAtHigh(f: seq<bool>, l: nat, w: nat)
    requires l >= 1 && |f| == Pow2(l) && w < Pow2(l - 1)
    ensures Moebius(f, l)[Pow2(l - 1) + w] == Moebius(XorVectors(f[..Pow2(l - 1)], f[Pow2(l - 1)..]), l - 1)[w]
  {
    var h := Pow2(l - 1);
    var A := Moebius(f[..h], l - 1);
    var B := Moebius(XorVectors(f[..h], f[h..]), l - 1);
    MoebiusUnfold(f, l);
    assert Moebius(f, l) == A + B;
    assert (A + B)[h + w] == B[w];
  }

  /** One level of MoebiusSubsets at and above the top bit. */
  lemma MoebiusSubsetsHigh(f: seq<bool>, l: nat, w: nat)
    requires l >= 1 && |f| == Pow2(l) && w < Pow2(l - 1)
    requires Moebius(XorVectors(f[..Pow2(l - 1)], f[Pow2(l - 1)..]), l - 1)[w]
             == SubsetXor(XorVectors(f[..Pow2(l - 1)], f[Pow2(l - 1)..]), w)
    ensures Moebius(f, l)[Pow2(l - 1) + w] == SubsetXor(f, Pow2(l - 1) + w)
  {
    MoebiusAtHigh(f, l, w);
    SubsetXorHigh(f, l, w);
  }

  /** Entry u of the Moebius transform is the exclusive or of the inputs at the
      subsets of u. */
  lemma {:induction false} MoebiusSubsets(f: seq<bool>, l: nat, u: nat)
    requires |f| == Pow2(l) && u < |f|
    ensures Moebius(f, l)[u] == SubsetXor(f, u)
    decreases l
  {
    if l == 0 {
      MoebiusSubsetsOne(f);
    } else {
      var h := Pow2(l - 1);
      assert |f| == h + h;
      if u < h {
        MoebiusSubsets(f[..h], l - 1, u);
        MoebiusSubsetsLow(f, l, u);
      } else {
        MoebiusSubsets(XorVectors(f[..h], f[h..]), l - 1, u - h);
        MoebiusSubsetsHigh(f, l, u - h);
      }
    }
  }

  /** `Moebius_transform`: the butterfly with exclusive or, on a copy of f. */
  method MoebiusTransform(f: seq<bool>, l: nat) returns (F: seq<bool>)
    requires |f| == Pow2(l)
    ensures |F| == |f|
    ensures forall u :: 0 <= u < |f| ==> F[u] == SubsetXor(f, u)
    ensures F == Moebius(f, l)
  {
    F := Transform(MoebiusPair, f, l);
    forall u | 0 <= u < |f|
      ensures F[u] == SubsetXor(f, u)
    {
      MoebiusSubsets(f, l, u);
    }
  }

  // ---------------------------------------------------------------------
  // The Walsh-Hadamard transform
  // ---------------------------------------------------------------------

  /** The Walsh pair step: `(F[e], F[e + offset]) = (a + b, a - b)`. */
  function WalshPair(a: int, b: int): (int, int)
  {
    (a + b, a - b)
  }

  function Walsh(f: seq<int>, l: nat): (r: seq<int>)
    requires |f| == Pow2(l)
    ensures |r| == |f|
  {
    Fast(WalshPair, f, l)
  }

  /** (-1)^n */
  function Chi(n: nat): int
  {
    if n % 2 == 0 then 1 else -1
  }

  /** The term f[x] * (-1)^popcount(x & u), zero outside f. */
  function WalshTerm(f: seq<int>, u: nat, x: nat): int
  {
    if x < |f| then f[x] * Chi(AndPop(x, u)) else 0
  }

  function WalshTerms(f: seq<int>, u: nat): nat -> int
  {
    (x: nat) => WalshTerm(f, u, x)
  }

  /** F[u] = sum over x of f[x] * (-1)^popcount(x & u). */
  function WalshSum(f: seq<int>, u: nat): int
  {
    Sum(|f|, WalshTerms(f, u))
  }

  function Adds(a: seq<int>, b: seq<int>): (r: seq<int>)
    requires |a| == |b|
    ensures |r| == |a|
  {
    seq(|a|, i requires 0 <= i < |a| => a[i] + b[i])
  }

  function Subs(a: seq<int>, b: seq<int>): (r: seq<int>)
    requires |a| == |b|
    ensures |r| == |a|
  {
    seq(|a|, i requires 0 <= i < |a| => a[i] - b[i])
  }

  lemma WalshUnfold(f: seq<int>, l: nat)
    requires l >= 1 && |f| == Pow2(l)
    ensures Walsh(f, l) == Walsh(Adds(f[..Pow2(l - 1)], f[Pow2(l - 1)..]), l - 1)
                           + Walsh(Subs(f[..Pow2(l - 1)], f[Pow2(l - 1)..]), l - 1)
  {
    var h := Pow2(l - 1);
    var g := Level(WalshPair, f, h);
    assert g[..h] == Adds(f[..h], f[h..]);
    assert g[h..] == Subs(f[..h], f[h..]);
  }

  /** Multiplying by (-1)^n keeps or negates. */
  lemma ChiMul(a: int, n: nat)
    ensures a * Chi(n) == (if n % 2 == 0 then a else -a)
  {
  }

  lemma WalshTermAt(f: seq<int>, u: nat, x: nat)
    requires x < |f|
    ensures WalshTerm(f, u, x) == (if AndPop(x, u) % 2 == 0 then f[x] else -f[x])
  {
    ChiMul(f[x], AndPop(x, u));
  }

  /** The terms of a low correlation sum at x and at the top half's x. */
  lemma WalshTermLow(f: seq<int>, l: nat, u: nat, x: nat)
    requires l >= 1 && |f| == Pow2(l) && u < Pow2(l - 1) && x < Pow2(l - 1)
    ensures WalshTerm(f, u, x) == WalshTerm(f[..Pow2(l - 1)], u, x)
    ensures WalshTerm(f, u, Pow2(l - 1) + x) == WalshTerm(f[Pow2(l - 1)..], u, x)
    ensures WalshTerm(Adds(f[..Pow2(l - 1)], f[Pow2(l - 1)..]), u, x)
            == WalshTerm(f[..Pow2(l - 1)], u, x) + WalshTerm(f[Pow2(l - 1)..], u, x)
  {
    var h := Pow2(l - 1);
    AndPopTop(l, x, u);
    WalshTermAt(f, u, x);
    WalshTermAt(f, u, h + x);
    WalshTermAt(f[..h], u, x);
    WalshTermAt(f[h..], u, x);
    WalshTermAt(Adds(f[..h], f[h..]), u, x);
  }

  /** The terms of a high correlation sum at x and at the top half's x. */
  lemma WalshTermHigh(f: seq<int>, l: nat, u: nat, x: nat)
    requires l >= 1 && |f| == Pow2(l) && Pow2(l - 1) <= u < Pow2(l) && x < Pow2(l - 1)
    ensures WalshTerm(f, u, x) == WalshTerm(f[..Pow2(l - 1)], u - Pow2(l - 1), x)
    ensures WalshTerm(f, u, Pow2(l - 1) + x) == -WalshTerm(f[Pow2(l - 1)..], u - Pow2(l - 1), x)
    ensures WalshTerm(Subs(f[..Pow2(l - 1)], f[Pow2(l - 1)..]), u - Pow2(l - 1), x)
            == WalshTerm(f[..Pow2(l - 1)], u - Pow2(l - 1), x)
               - WalshTerm(f[Pow2(l - 1)..], u - Pow2(l - 1), x)
  {
    var h := Pow2(l - 1);
    var w := u - h;
    AndPopTop(l, x, w);
    assert (1 + AndPop(x, w)) % 2 != AndPop(x, w) % 2;
    WalshTermAt(f, u, x);
    WalshTermAt(f, u, h + x);
    WalshTermAt(f[..h], w, x);
    WalshTermAt(f[h..], w, x);
    WalshTermAt(Subs(f[..h], f[h..]), w, x);
  }

  /** Below the top bit, the correlation sums of f are those of the sum of its halves. */
  lemma WalshSumLow(f: seq<int>, l: nat, u: nat)
    requires l >= 1 && |f| == Pow2(l) && u < Pow2(l - 1)
    ensures WalshSum(f, u) == WalshSum(Adds(f[..Pow2(l - 1)], f[Pow2(l - 1)..]), u)
  {
    var h := Pow2(l - 1);
    var s := Adds(f[..h], f[h..]);
    assert |f| == h + h && |s| == h;
    assert Sum(h + h, WalshTerms(f, u)) == Sum(h, WalshTerms(s, u)) by {
      forall x: nat | x < h
        ensures WalshTerms(f, u)(x) == WalshTerms(f[..h], u)(x)
                && WalshTerms(f, u)(h + x) == WalshTerms(f[h..], u)(x)
                && WalshTerms(s, u)(x) == WalshTerms(f[..h], u)(x) + WalshTerms(f[h..], u)(x)
      {
        WalshTermLow(f, l, u, x);
      }
      SumHalvesAdd(h, WalshTerms(f, u), WalshTerms(f[..h], u), WalshTerms(f[h..], u),
                   WalshTerms(s, u));
    }
  }

  /** At and above the top bit, they are those of the difference of its halves. */
  lemma WalshSumHigh(f: seq<int>, l: nat, u: nat)
    requires l >= 1 && |f| == Pow2(l) && Pow2(l - 1) <= u < Pow2(l)
    ensures WalshSum(f, u) == WalshSum(Subs(f[..Pow2(l - 1)], f[Pow2(l - 1)..]), u - Pow2(l - 1))
  {
    var h := Pow2(l - 1);
    var w := u - h;
    var s := Subs(f[..h], f[h..]);
    assert |f| == h + h && |s| == h;
    assert Sum(h + h, WalshTerms(f, u)) == Sum(h, WalshTerms(s, w)) by {
      forall x: nat | x < h
        ensures WalshTerms(f, u)(x) == WalshTerms(f[..h], w)(x)
                && WalshTerms(f, u)(h + x) == -WalshTerms(f[h..], w)(x)
                && WalshTerms(s, w)(x) == WalshTerms(f[..h], w)(x) - WalshTerms(f[h..], w)(x)
      {
        WalshTermHigh(f, l, u, x);
      }
      SumHalvesSub(h, WalshTerms(f, u), WalshTerms(f[..h], w), WalshTerms(f[h..], w),
                   WalshTerms(s, w));
    }
  }

  /** Entry u of the Walsh transform is the correlation sum at u. */
  lemma {:induction false} WalshSums(f: seq<int>, l: nat, u: nat)
    requires |f| == Pow2(l) && u < |f|
    ensures Walsh(f, l)[u] == WalshSum(f, u)
    decreases l
  {
    if l == 0 {
      assert u == 0;
      SumSingle(1, WalshTerms(f, 0), 0);
    } else {
      var h := Pow2(l - 1);
      var A := Walsh(Adds(f[..h], f[h..]), l - 1);
      var B := Walsh(Subs(f[..h], f[h..]), l - 1);
      assert Walsh(f, l) == A + B by { WalshUnfold(f, l); }
      if u < h {
        assert A[u] == WalshSum(Adds(f[..h], f[h..]), u) by {
          WalshSums(Adds(f[..h], f[h..]), l - 1, u);
        }
        assert (A + B)[u] == A[u];
        WalshSumLow(f, l, u);
      } else {
        assert B[u - h] == WalshSum(Subs(f[..h], f[h..]), u - h) by {
          WalshSums(Subs(f[..h], f[h..]), l - 1, u - h);
        }
        assert (A + B)[u] == B[u - h];
        WalshSumHigh(f, l, u);
      }
    }
  }

  lemma WalshAddsAt(a: seq<int>, b: seq<int>, l: nat, u: nat)
    requires |a| == Pow2(l) && |b| == Pow2(l) && u < |a|
    ensures Walsh(Adds(a, b), l)[u] == Walsh(a, l)[u] + Walsh(b, l)[u]
  {
    var c := Adds(a, b);
    WalshSums(c, l, u);
    WalshSums(a, l, u);
    WalshSums(b, l, u);
    forall x: nat | x < |a|
      ensures WalshTerms(c, u)(x) == AddTerms(WalshTerms(a, u), WalshTerms(b, u))(x)
    {
      WalshTermAt(c, u, x);
      WalshTermAt(a, u, x);
      WalshTermAt(b, u, x);
    }
    SumExt(|a|, WalshTerms(c, u), AddTerms(WalshTerms(a, u), WalshTerms(b, u)));
    SumAdd(|a|, WalshTerms(a, u), WalshTerms(b, u));
  }

  lemma WalshSubsAt(a: seq<int>, b: seq<int>, l: nat, u: nat)
    requires |a| == Pow2(l) && |b| == Pow2(l) && u < |a|
    ensures Walsh(Subs(a, b), l)[u] == Walsh(a, l)[u] - Walsh(b, l)[u]
  {
    var c := Subs(a, b);
    var nb := NegTerms(WalshTerms(b, u));
    WalshSums(c, l, u);
    WalshSums(a, l, u);
    WalshSums(b, l, u);
    forall x: nat | x < |a|
      ensures WalshTerms(c, u)(x) == AddTerms(WalshTerms(a, u), nb)(x)
    {
      WalshTermAt(c, u, x);
      WalshTermAt(a, u, x);
      WalshTermAt(b, u, x);
    }
    SumExt(|a|, WalshTerms(c, u), AddTerms(WalshTerms(a, u), nb));
    SumAdd(|a|, WalshTerms(a, u), nb);
    SumNeg(|a|, WalshTerms(b, u));
  }

  /** The Walsh transform is linear: it maps sums to sums and differences
      to differences. */
  lemma WalshLinear(a: seq<int>, b: seq<int>, l: nat)
    requires |a| == Pow2(l) && |b| == Pow2(l)
    ensures Walsh(Adds(a, b), l) == Adds(Walsh(a, l), Walsh(b, l))
    ensures Walsh(Subs(a, b), l) == Subs(Walsh(a, l), Walsh(b, l))
  {
    forall u | 0 <= u < |a|
      ensures Walsh(Adds(a, b), l)[u] == Walsh(a, l)[u] + Walsh(b, l)[u]
      ensures Walsh(Subs(a, b), l)[u] == Walsh(a, l)[u] - Walsh(b, l)[u]
    {
      WalshAddsAt(a, b, l, u);
      WalshSubsAt(a, b, l, u);
    }
  }

  lemma DoubleScale(p: nat, y: int)
    ensures p * (y + y) == (2 * p) * y
  {
  }

  /** Applied twice, the Walsh transform gives back 2^l times its input. */
  lemma {:induction false} WalshInvolution(f: seq<int>, l: nat)
    requires |f| == Pow2(l)
    ensures forall x :: 0 <= x < |f| ==> Walsh(Walsh(f, l), l)[x] == Pow2(l) * f[x]
    decreases l, 1
  {
    if l >= 1 {
      var h := Pow2(l - 1);
      var W := Walsh(f, l);
      WalshUnfold(W, l);
      WalshTwiceLow(f, l, l - 1, h);
      WalshTwiceHigh(f, l, l - 1, h);
      forall x | 0 <= x < |f|
        ensures Walsh(W, l)[x] == Pow2(l) * f[x]
      {
        if x < h {
          assert f[x] == f[..h][x];
        } else {
          assert f[x] == f[h..][x - h];
        }
      }
    }
  }

  /** The second transform brings the low half back, doubled once per level. */
  lemma {:induction false} WalshTwiceLow(f: seq<int>, l: nat, k: nat, h: nat)
    requires l == k + 1 && h == Pow2(k) && |f| == Pow2(l)
    ensures forall x :: 0 <= x < h ==>
      Walsh(Adds(Walsh(f, l)[..h], Walsh(f, l)[h..]), k)[x] == Pow2(l) * f[..h][x]
    decreases l, 0
  {
    var lo, hi := f[..h], f[h..];
    var p, q := Adds(lo, hi), Subs(lo, hi);
    var W := Walsh(f, l);
    assert Adds(W[..h], W[h..]) == Walsh(Adds(p, q), k) by {
      WalshUnfold(f, l);
      assert W[..h] == Walsh(p, k) && W[h..] == Walsh(q, k);
      WalshLinear(p, q, k);
    }
    WalshInvolution(Adds(p, q), k);
    forall x | 0 <= x < h
      ensures Walsh(Walsh(Adds(p, q), k), k)[x] == Pow2(l) * lo[x]
    {
      assert Adds(p, q)[x] == lo[x] + lo[x];
      DoubleScale(h, lo[x]);
    }
  }

  /** The second transform brings the high half back, doubled once per level. */
  lemma {:induction false} WalshTwiceHigh(f: seq<int>, l: nat, k: nat, h: nat)
    requires l == k + 1 && h == Pow2(k) && |f| == Pow2(l)
    ensures forall x :: 0 <= x < h ==>
      Walsh(Subs(Walsh(f, l)[..h], Walsh(f, l)[h..]), k)[x] == Pow2(l) * f[h..][x]
    decreases l, 0
  {
    var lo, hi := f[..h], f[h..];
    var p, q := Adds(lo, hi), Subs(lo, hi);
    var W := Walsh(f, l);
    assert Subs(W[..h], W[h..]) == Walsh(Subs(p, q), k) by {
      WalshUnfold(f, l);
      assert W[..h] == Walsh(p, k) && W[h..] == Walsh(q, k);
      WalshLinear(p, q, k);
    }
    WalshInvolution(Subs(p, q), k);
    forall x | 0 <= x < h
      ensures Walsh(Walsh(Subs(p, q), k), k)[x] == Pow2(l) * hi[x]
    {
      assert Subs(p, q)[x] == hi[x] + hi[x];
      DoubleScale(h, hi[x]);
    }
  }

  /** `Walsh_transform`: the butterfly with sum and difference, on a copy of f. */
  method WalshTransform(f: seq<int>, l: nat) returns (F: seq<int>)
    requires |f| == Pow2(l)
    ensures |F| == |f|
    ensures forall u :: 0 <= u < |f| ==> F[u] == WalshSum(f, u)
    ensures F == Walsh(f, l)
  {
    F := Transform(WalshPair, f, l);
    forall u | 0 <= u < |f|
      ensures F[u] == WalshSum(f, u)
    {
      WalshSums(f, l, u);
    }
  }

  // ---------------------------------------------------------------------
  // Degree truncation
  // ---------------------------------------------------------------------

  /** The indices below n whose weight lies in [lo, hi], in increasing order. */
  function Band(n: nat, lo: int, hi: int): (r: seq<nat>)
    ensures forall k :: 0 <= k < |r| ==> r[k] < n && lo <= Popcount(r[k]) <= hi
    ensures forall i, j :: 0 <= i < j < |r| ==> r[i] < r[j]
  {
    if n == 0 then []
    else Band(n - 1, lo, hi) + (if lo <= Popcount(n - 1) <= hi then [n - 1] else [])
  }

  /** Band misses no index of the band. */
  lemma {:induction false} BandComplete(n: nat, lo: int, hi: int, x: nat)
    requires x < n && lo <= Popcount(x) <= hi
    ensures x in Band(n, lo, hi)
  {
    if x < n - 1 {
      BandComplete(n - 1, lo, hi, x);
    }
  }

  /** `truncate_degree`: the entries of f whose index weight lies in [lo, hi], in order. */
  function TruncateDegree<T>(f: seq<T>, lo: int, hi: int): (r: seq<T>)
    ensures |r| == |Band(|f|, lo, hi)|
    ensures forall k :: 0 <= k < |r| ==> r[k] == f[Band(|f|, lo, hi)[k]]
  {
    if |f| == 0 then []
    else
      var n := |f| - 1;
      var r := TruncateDegree(f[..n], lo, hi) + (if lo <= Popcount(n) <= hi then [f[n]] else []);
      assert forall k :: 0 <= k < |Band(n, lo, hi)| ==> r[k] == f[..n][Band(n, lo, hi)[k]];
      r
  }

  /** Every index of a table of length 2^l has weight at most l, so the band
      [0, l] keeps the whole table. */
  lemma {:induction false} BandAll(n: nat, l: nat, lo: int, hi: int)
    requires n <= Pow2(l) && lo <= 0 && l <= hi
    ensures Band(n, lo, hi) == Identity(n)
  {
    if n > 0 {
      BandAll(n - 1, l, lo, hi);
      PopcountBound(l, n - 1);
      assert lo <= Popcount(n - 1) <= hi;
      assert Band(n, lo, hi) == Band(n - 1, lo, hi) + [n - 1];
      assert Identity(n) == Identity(n - 1) + [n - 1];
    }
  }

  lemma TruncateAll<T>(f: seq<T>, l: nat, lo: int, hi: int)
    requires |f| == Pow2(l) && lo <= 0 && l <= hi
    ensures TruncateDegree(f, lo, hi) == f
  {
    BandAll(|f|, l, lo, hi);
  }

  /** An empty band keeps nothing. */
  lemma {:induction false} BandEmpty(n: nat, lo: int, hi: int)
    requires hi < lo
    ensures Band(n, lo, hi) == []
  {
    if n > 0 {
      BandEmpty(n - 1, lo, hi);
    }
  }

  // ---------------------------------------------------------------------
  // Permutation of the variables of a point
  // ---------------------------------------------------------------------

  predicate IsIndexList(perm: seq<nat>)
  {
    forall i :: 0 <= i < |perm| ==> perm[i] < |perm|
  }

  /** perm lists every variable of [0, |perm|) exactly once. */
  predicate IsPermutation(perm: seq<nat>)
  {
    && IsIndexList(perm)
    && (forall i, j :: 0 <= i < j < |perm| ==> perm[i] != perm[j])
    && (forall v: nat :: v < |perm| ==> v in perm)
  }

  /** `permute`: output variable i (counted from the most significant end) is
      input variable perm[i]. */
  function Permute(x: nat, perm: seq<nat>): (y: nat)
    requires IsIndexList(perm)
    ensures y < Pow2(|perm|)
    ensures forall i :: 0 <= i < |perm| ==> FromInt(|perm|, y)[i] == BitAt(x, |perm| - 1 - perm[i])
  {
    var n := |perm|;
    var v := seq(n, i requires 0 <= i < n => BitAt(x, n - 1 - perm[i]));
    FromIntToInt(v);
    ToInt(v)
  }

  /** The same statement with the input read as a vector. */
  lemma PermuteBits(x: nat, perm: seq<nat>, i: nat)
    requires IsIndexList(perm) && x < Pow2(|perm|) && i < |perm|
    ensures FromInt(|perm|, Permute(x, perm))[i] == FromInt(|perm|, x)[perm[i]]
  {
    FromIntBit(|perm|, x, perm[i]);
  }

  /** The worked example of the documentation: variables (0, 3, 1, 2) of 9 give 12. */
  lemma PermuteExample()
    ensures Permute(9, [0, 3, 1, 2]) == 12
  {
    var y := Permute(9, [0, 3, 1, 2]);
    assert BitAt(9, 3) && !BitAt(9, 2) && !BitAt(9, 1) && BitAt(9, 0);
    assert FromInt(4, y) == [true, true, false, false];
    ToIntFromInt(4, y);
    TwelveBits();
  }

  /** The bits 1100 read as a number. */
  lemma TwelveBits()
    ensures ToInt([true, true, false, false]) == 12
  {
    var v := [true, true, false, false];
    assert ToInt([true]) == 1 by {
      assert [true][..0] == [];
    }
    assert ToInt([true, true]) == 3 by {
      assert [true, true][..1] == [true];
    }
    assert ToInt([true, true, false]) == 6 by {
      assert [true, true, false][..2] == [true, true];
    }
    assert v[..3] == [true, true, false];
  }

  /** Permuting the variables by a permutation keeps the Hamming weight. */
  lemma PermuteWeight(x: nat, perm: seq<nat>)
    requires IsPermutation(perm) && x < Pow2(|perm|)
    ensures Popcount(Permute(x, perm)) == Popcount(x)
  {
    var n := |perm|;
    var y := Permute(x, perm);
    var u := FromInt(n, x);
    var w := FromInt(n, y);
    assert forall i :: 0 <= i < n ==> w[i] == u[perm[i]] by {
      forall i | 0 <= i < n
        ensures w[i] == u[perm[i]]
      {
        PermuteBits(x, perm, i);
      }
    }
    var image := set i | i in Ones(w) :: perm[i];
    assert image == Ones(u) by {
      forall v | v in Ones(u)
        ensures v in image
      {
        assert v < n && v in perm;
        var i :| 0 <= i < n && perm[i] == v;
        assert i in Ones(w);
      }
    }
    InjectiveImage(Ones(w), perm);
    WeightOnes(u);
    WeightOnes(w);
    PopcountFromInt(n, x);
    PopcountFromInt(n, y);
  }

  /** An injective map keeps the size of a set. */
  lemma InjectiveImage(s: set<nat>, perm: seq<nat>)
    requires forall i :: i in s ==> i < |perm|
    requires forall i, j :: i in s && j in s && perm[i] == perm[j] ==> i == j
    ensures |set i | i in s :: perm[i]| == |s|
    decreases s
  {
    if s != {} {
      var a :| a in s;
      var t := s - {a};
      InjectiveImage(t, perm);
      assert (set i | i in s :: perm[i]) == (set i | i in t :: perm[i]) + {perm[a]};
      assert perm[a] !in (set i | i in t :: perm[i]);
    }
  }

  function Identity(n: nat): (r: seq<nat>)
    ensures |r| == n && IsIndexList(r)
  {
    seq(n, i requires 0 <= i < n => i)
  }

  /** The index list of "first p, then q". */
  function Compose(p: seq<nat>, q: seq<nat>): (r: seq<nat>)
    requires IsIndexList(p) && IsIndexList(q) && |p| == |q|
    ensures |r| == |q| && IsIndexList(r)
  {
    seq(|q|, i requires 0 <= i < |q| => p[q[i]])
  }

  lemma PermuteIdentity(x: nat, n: nat)
    requires x < Pow2(n)
    ensures Permute(x, Identity(n)) == x
  {
    var y := Permute(x, Identity(n));
    forall i | 0 <= i < n
      ensures FromInt(n, y)[i] == FromInt(n, x)[i]
    {
      PermuteBits(x, Identity(n), i);
    }
    SameBits(n, y, x);
  }

  /** Permuting by p and then by q is permuting by Compose(p, q). */
  lemma PermuteCompose(x: nat, p: seq<nat>, q: seq<nat>)
    requires IsIndexList(p) && IsIndexList(q) && |p| == |q| && x < Pow2(|p|)
    ensures Permute(Permute(x, p), q) == Permute(x, Compose(p, q))
  {
    var n := |p|;
    var y := Permute(x, p);
    var a := Permute(y, q);
    var b := Permute(x, Compose(p, q));
    forall i | 0 <= i < n
      ensures FromInt(n, a)[i] == FromInt(n, b)[i]
    {
      PermuteBits(y, q, i);
      PermuteBits(x, p, q[i]);
      PermuteBits(x, Compose(p, q), i);
      assert Compose(p, q)[i] == p[q[i]];
    }
    SameBits(n, a, b);
  }

  /** Permuting by p and then by an inverse of p gives back the point. */
  lemma PermuteInverse(x: nat, p: seq<nat>, q: seq<nat>)
    requires IsIndexList(p) && IsIndexList(q) && |p| == |q| && x < Pow2(|p|)
    requires forall i :: 0 <= i < |q| ==> p[q[i]] == i
    ensures Permute(Permute(x, p), q) == x
  {
    PermuteCompose(x, p, q);
    assert Compose(p, q) == Identity(|p|);
    PermuteIdentity(x, |p|);
  }
}
