/*
 * The orbit-level conversions of RSF.py agree with the full transforms of
 * toolbox.py.
 *
 * The entries of the two conversion matrices are sums over one orbit. Read
 * as sums over all 2^l points restricted to that orbit, they regroup the
 * full Moebius and Walsh sums orbit by orbit. So the STT the SANF
 * determines is the Moebius transform of the expanded ANF, read at the
 * representatives. The SWS is minus the Walsh transform of the signed,
 * expanded truth table, read at the representatives: the SWS signs 0 as +1,
 * while `sign` signs 0 as -1. Both full transforms take one value on every
 * orbit, so reading them at the representatives loses nothing.
 */
module OrbitSpectra {
  import opened Bits
  import opened Sums
  import opened Toolbox
  import opened Rotation
  import opened RotationSymmetric

  // ---------------------------------------------------------------------
  // Orbit sums as sums over the positions of the orbit list
  // ---------------------------------------------------------------------

  /** Term k: u includes the k-th vector of ws. */
  function IncludedTerms(ws: seq<seq<bool>>, u: seq<bool>): nat -> bool
  {
    (k: nat) => k < |ws| && |ws[k]| == |u| && Includes(u, ws[k])
  }

  /** Term k: (-1)^(u . ws[k]). */
  function CharacterTerms(ws: seq<seq<bool>>, u: seq<bool>): nat -> int
  {
    (k: nat) => if k < |ws| && |ws[k]| == |u| then Chi(Dot(u, ws[k])) else 0
  }

  lemma {:induction false} IncludedParitySum(ws: seq<seq<bool>>, u: seq<bool>)
    requires Uniform(ws, |u|)
    ensures IncludedParity(ws, u) == XorSum(|ws|, IncludedTerms(ws, u))
  {
    if |ws| > 0 {
      var p := ws[..|ws| - 1];
      IncludedParitySum(p, u);
      XorSumExt(|p|, IncludedTerms(p, u), IncludedTerms(ws, u));
    }
  }

  lemma {:induction false} CharacterSumIsSum(ws: seq<seq<bool>>, u: seq<bool>)
    requires Uniform(ws, |u|)
    ensures CharacterSum(ws, u) == Sum(|ws|, CharacterTerms(ws, u))
  {
    if |ws| > 0 {
      var p := ws[..|ws| - 1];
      CharacterSumIsSum(p, u);
      SumExt(|p|, CharacterTerms(p, u), CharacterTerms(ws, u));
    }
  }

  // ---------------------------------------------------------------------
  // Vectors and integers
  // ---------------------------------------------------------------------

  lemma AndPopStep(x: nat, u: nat)
    ensures AndPop(x, u) == (if x % 2 == 1 && u % 2 == 1 then 1 else 0) + AndPop(x / 2, u / 2)
  {
  }

  /** The dot product of two vectors counts the bits their integers share. */
  lemma {:induction false} DotIsAndPop(u: seq<bool>, w: seq<bool>)
    requires |u| == |w|
    ensures Dot(u, w) == AndPop(ToInt(w), ToInt(u))
  {
    if |u| > 0 {
      var n := |u|;
      DotIsAndPop(u[..n - 1], w[..n - 1]);
      assert ToInt(w) / 2 == ToInt(w[..n - 1]) && ToInt(w) % 2 == (if w[n - 1] then 1 else 0);
      assert ToInt(u) / 2 == ToInt(u[..n - 1]) && ToInt(u) % 2 == (if u[n - 1] then 1 else 0);
      AndPopStep(ToInt(w), ToInt(u));
    }
  }

  lemma {:induction false} DotConcat(a1: seq<bool>, a2: seq<bool>, b1: seq<bool>, b2: seq<bool>)
    requires |a1| == |b1| && |a2| == |b2|
    ensures Dot(a1 + a2, b1 + b2) == Dot(a1, b1) + Dot(a2, b2)
  {
    if |a2| > 0 {
      var n := |a2|;
      DotConcat(a1, a2[..n - 1], b1, b2[..n - 1]);
      assert (a1 + a2)[..|a1| + n - 1] == a1 + a2[..n - 1];
      assert (b1 + b2)[..|b1| + n - 1] == b1 + b2[..n - 1];
    } else {
      assert a1 + a2 == a1 && b1 + b2 == b1;
    }
  }

  /** Rotating both vectors by the same amount keeps their dot product. */
  lemma DotRotate(a: seq<bool>, b: seq<bool>, k: nat)
    requires |a| == |b| && k <= |a|
    ensures Dot(Rotate(a, k), Rotate(b, k)) == Dot(a, b)
  {
    var n := |a|;
    var a1, a2 := a[..n - k], a[n - k..];
    var b1, b2 := b[..n - k], b[n - k..];
    assert a == a1 + a2 && b == b1 + b2;
    assert Rotate(a, k) == a2 + a1 && Rotate(b, k) == b2 + b1;
    DotConcat(a2, a1, b2, b1);
    DotConcat(a1, a2, b1, b2);
  }

  lemma IncludesRotate(a: seq<bool>, b: seq<bool>, k: nat)
    requires |a| == |b| && k <= |a|
    ensures Includes(Rotate(a, k), Rotate(b, k)) == Includes(a, b)
  {
    var n := |a|;
    RotateAt(a, k);
    RotateAt(b, k);
    if Includes(Rotate(a, k), Rotate(b, k)) {
      forall i | 0 <= i < n && b[i]
        ensures a[i]
      {
        if i < n - k {
          assert Rotate(b, k)[i + k] == b[i];
        } else {
          assert Rotate(b, k)[i - (n - k)] == b[i];
        }
      }
    }
  }

  /** Rotating both integers by the same amount keeps the test x & m == m. */
  lemma CoversRotate(l: nat, x: nat, m: nat, k: nat)
    requires l >= 1 && x < Pow2(l) && m < Pow2(l) && k <= l
    ensures Covers(RotateInt(l, x, k), RotateInt(l, m, k)) == Covers(x, m)
  {
    var a, b := FromInt(l, x), FromInt(l, m);
    RotateIntVector(l, x, k);
    RotateIntVector(l, m, k);
    IncludesIsCovers(Rotate(a, k), Rotate(b, k));
    IncludesRotate(a, b, k);
    IncludesIsCovers(a, b);
    ToIntFromInt(l, x);
    ToIntFromInt(l, m);
  }

  /** Rotating both integers by the same amount keeps popcount(x & u). */
  lemma AndPopRotate(l: nat, x: nat, u: nat, k: nat)
    requires l >= 1 && x < Pow2(l) && u < Pow2(l) && k <= l
    ensures AndPop(RotateInt(l, x, k), RotateInt(l, u, k)) == AndPop(x, u)
  {
    var a, b := FromInt(l, u), FromInt(l, x);
    RotateIntVector(l, x, k);
    RotateIntVector(l, u, k);
    DotIsAndPop(Rotate(a, k), Rotate(b, k));
    DotRotate(a, b, k);
    DotIsAndPop(a, b);
    ToIntFromInt(l, x);
    ToIntFromInt(l, u);
  }

  lemma PopcountRotate(l: nat, x: nat, k: nat)
    requires l >= 1 && x < Pow2(l) && k <= l
    ensures Popcount(RotateInt(l, x, k)) == Popcount(x)
  {
    RotateIntVector(l, x, k);
    RotateWeight(FromInt(l, x), k);
    PopcountFromInt(l, x);
    PopcountFromInt(l, RotateInt(l, x, k));
  }

  // ---------------------------------------------------------------------
  // Rotation as a reindexing of the points
  // ---------------------------------------------------------------------

  /** The rotation by k of the l-bit points; 0 past them. */
  function RotateBy(l: nat, k: nat): (r: nat -> nat)
    requires l >= 1
    ensures forall x: nat :: r(x) == if x < Pow2(l) then RotateInt(l, x, k) else 0
  {
    (x: nat) => if x < Pow2(l) then RotateInt(l, x, k) else 0
  }

  /** The rotation by k <= l is a bijection of the l-bit points, undone by
      the rotation by back = l - k. */
  lemma RotateBijective(l: nat, k: nat, back: nat)
    requires l >= 1 && k + back == l
    ensures forall x: nat :: x < Pow2(l) ==> RotateBy(l, k)(x) < Pow2(l)
    ensures forall a: nat, b: nat :: a < b < Pow2(l) ==> RotateBy(l, k)(a) != RotateBy(l, k)(b)
    ensures forall y: nat :: y < Pow2(l) ==> RotateBy(l, back)(y) < Pow2(l) && RotateBy(l, k)(RotateBy(l, back)(y)) == y
  {
    forall a: nat, b: nat | a < b < Pow2(l)
      ensures RotateInt(l, a, k) != RotateInt(l, b, k)
    {
      RotateIntCompose(l, a, k, back);
      RotateIntCompose(l, b, k, back);
      RotateIntFull(l, a);
      RotateIntFull(l, b);
    }
    forall y: nat | y < Pow2(l)
      ensures RotateInt(l, RotateInt(l, y, back), k) == y
    {
      RotateIntCompose(l, y, back, k);
      RotateIntFull(l, y);
    }
  }

  // ---------------------------------------------------------------------
  // The full transforms of a rotation-symmetric table
  // ---------------------------------------------------------------------

  /** Sums over the l-bit points are unchanged by reindexing them with a
      rotation. */
  lemma XorSumRotate(l: nat, k: nat, h: nat -> bool, g: nat -> bool)
    requires l >= 1 && k <= l
    requires forall v: nat :: v < Pow2(l) ==> g(RotateBy(l, k)(v)) == h(v)
    ensures XorSum(Pow2(l), h) == XorSum(Pow2(l), g)
  {
    var N := Pow2(l);
    RotateBijective(l, k, l - k);
    forall w: nat | w < N && g(w)
      ensures exists v: nat :: v < N && RotateBy(l, k)(v) == w
    {
      assert RotateBy(l, k)(RotateBy(l, l - k)(w)) == w;
    }
    XorSumImage(N, N, h, RotateBy(l, k), g);
  }

  lemma SumRotate(l: nat, k: nat, h: nat -> int, g: nat -> int)
    requires l >= 1 && k <= l
    requires forall v: nat :: v < Pow2(l) ==> g(RotateBy(l, k)(v)) == h(v)
    ensures Sum(Pow2(l), h) == Sum(Pow2(l), g)
  {
    var N := Pow2(l);
    RotateBijective(l, k, l - k);
    forall w: nat | w < N && g(w) != 0
      ensures exists v: nat :: v < N && RotateBy(l, k)(v) == w
    {
      assert RotateBy(l, k)(RotateBy(l, l - k)(w)) == w;
    }
    SumImage(N, N, h, RotateBy(l, k), g);
  }

  /** The Moebius transform of a rotation-symmetric table is rotation
      symmetric. */
  lemma MoebiusRotationSymmetric(l: nat, s: seq<bool>, x: nat, k: nat)
    requires l >= 1 && |s| == |Representatives(l)| && x < Pow2(l) && k <= l
    ensures RotateInt(l, x, k) < Pow2(l)
    ensures Moebius(ExpandTT(l, s), l)[RotateInt(l, x, k)] == Moebius(ExpandTT(l, s), l)[x]
  {
    var A := ExpandTT(l, s);
    var y := RotateInt(l, x, k);
    MoebiusSubsets(A, l, x);
    MoebiusSubsets(A, l, y);
    forall v: nat | v < Pow2(l)
      ensures SubsetTerms(A, y)(RotateBy(l, k)(v)) == SubsetTerms(A, x)(v)
    {
      ExpandRotationSymmetric(l, s, v, k);
      CoversRotate(l, x, v, k);
    }
    XorSumRotate(l, k, SubsetTerms(A, x), SubsetTerms(A, y));
  }

  /** The Walsh transform of a rotation-symmetric table is rotation
      symmetric. */
  lemma WalshRotationSymmetric(l: nat, g: seq<int>, x: nat, k: nat)
    requires l >= 1 && |g| == Pow2(l) && x < Pow2(l) && k <= l
    requires forall v :: 0 <= v < Pow2(l) ==> g[RotateInt(l, v, k)] == g[v]
    ensures RotateInt(l, x, k) < Pow2(l)
    ensures Walsh(g, l)[RotateInt(l, x, k)] == Walsh(g, l)[x]
  {
    var y := RotateInt(l, x, k);
    WalshSums(g, l, x);
    WalshSums(g, l, y);
    forall v: nat | v < Pow2(l)
      ensures WalshTerms(g, y)(RotateBy(l, k)(v)) == WalshTerms(g, x)(v)
    {
      AndPopRotate(l, v, x, k);
    }
    SumRotate(l, k, WalshTerms(g, x), WalshTerms(g, y));
  }

  /** The signed expansion of an STT is rotation symmetric. */
  lemma SignRotationSymmetric(l: nat, s: seq<bool>, k: nat)
    requires l >= 1 && |s| == |Representatives(l)| && k <= l
    ensures forall v :: 0 <= v < Pow2(l) ==>
      (RotateInt(l, v, k) < Pow2(l)
       && Sign(ExpandTT(l, s))[RotateInt(l, v, k)] == Sign(ExpandTT(l, s))[v])
  {
    forall v | 0 <= v < Pow2(l)
      ensures RotateInt(l, v, k) < Pow2(l)
      ensures Sign(ExpandTT(l, s))[RotateInt(l, v, k)] == Sign(ExpandTT(l, s))[v]
    {
      ExpandRotationSymmetric(l, s, v, k);
    }
  }

  // ---------------------------------------------------------------------
  // One orbit, as a set of points
  // ---------------------------------------------------------------------

  /** The integers of the members of the orbit of w, by position; 0 past them. */
  function OrbitCodes(w: seq<bool>): (r: nat -> nat)
    requires |w| >= 1
    ensures forall k: nat :: r(k) == if k < |Orbit(w)| then ToInt(Orbit(w)[k]) else 0
  {
    (k: nat) => if k < |Orbit(w)| then ToInt(Orbit(w)[k]) else 0
  }

  /** Member k of the orbit list of representative i is an l-bit point of
      orbit i. */
  lemma OrbitPointAt(l: nat, i: nat, k: nat)
    requires l >= 1 && i < |Representatives(l)|
    requires k < |Orbit(RepVector(l, i))|
    ensures var o := Orbit(RepVector(l, i))[k];
      |o| == l && ToInt(o) < Pow2(l) && OrbitOf(l, ToInt(o)) == i
  {
    var R := Representatives(l);
    var w := FromInt(l, R[i]);
    var o := Orbit(w)[k];
    var x := ToInt(o);
    RepresentativeFacts(l, i);
    OrbitOfRepresentative(l, i);
    FromIntToInt(o);
    assert IsRotation(w, FromInt(l, x)) by {
      assert Rotate(w, k) == o;
    }
    SameOrbitVectors(l, R[i], x);
    OrbitOfSame(l, R[i], x);
  }

  /** Every point of orbit i is a member of the orbit list of
      representative i. */
  lemma OrbitPointFound(l: nat, i: nat, x: nat) returns (k: nat)
    requires l >= 1 && i < |Representatives(l)| && x < Pow2(l) && OrbitOf(l, x) == i
    ensures k < |Orbit(RepVector(l, i))|
    ensures ToInt(Orbit(RepVector(l, i))[k]) == x
  {
    var R := Representatives(l);
    var w := FromInt(l, R[i]);
    RepresentativeFacts(l, i);
    SameOrbitVectors(l, R[i], x);
    OrbitMembers(w, FromInt(l, x));
    k :| 0 <= k < |Orbit(w)| && Orbit(w)[k] == FromInt(l, x);
    ToIntFromInt(l, x);
  }

  lemma OrbitCodesDistinct(w: seq<bool>, a: nat, b: nat)
    requires |w| >= 1 && a < b < |Orbit(w)|
    ensures ToInt(Orbit(w)[a]) != ToInt(Orbit(w)[b])
  {
    var O := Orbit(w);
    OrbitDistinct(w, a, b);
    if ToInt(O[a]) == ToInt(O[b]) {
      ToIntInjective(O[a], O[b]);
    }
  }

  /** The orbit list of representative i names each point of its orbit once,
      and no other point. */
  lemma OrbitPoints(l: nat, i: nat)
    requires l >= 1 && i < |Representatives(l)|
    ensures var w := RepVector(l, i);
      (forall k: nat :: k < |Orbit(w)| ==> OrbitCodes(w)(k) < Pow2(l) && OrbitOf(l, OrbitCodes(w)(k)) == i)
      && (forall a: nat, b: nat :: a < b < |Orbit(w)| ==> OrbitCodes(w)(a) != OrbitCodes(w)(b))
      && (forall x: nat :: x < Pow2(l) && OrbitOf(l, x) == i ==>
            exists k: nat :: k < |Orbit(w)| && OrbitCodes(w)(k) == x)
  {
    var w := RepVector(l, i);
    var O := Orbit(w);
    forall k: nat | k < |O|
      ensures OrbitCodes(w)(k) < Pow2(l) && OrbitOf(l, OrbitCodes(w)(k)) == i
    {
      OrbitPointAt(l, i, k);
    }
    forall a: nat, b: nat | a < b < |O|
      ensures ToInt(O[a]) != ToInt(O[b])
    {
      OrbitCodesDistinct(w, a, b);
    }
    forall x: nat | x < Pow2(l) && OrbitOf(l, x) == i
      ensures exists k: nat :: k < |O| && OrbitCodes(w)(k) == x
    {
      var k := OrbitPointFound(l, i, x);
      assert OrbitCodes(w)(k) == x;
    }
  }

  /** A sum over the orbit list of representative i is the sum over the
      points of orbit i. */
  lemma OrbitXorSum(l: nat, i: nat, h: nat -> bool, g: nat -> bool)
    requires l >= 1 && i < |Representatives(l)|
    requires forall k: nat :: k < |Orbit(RepVector(l, i))| ==> g(OrbitCodes(RepVector(l, i))(k)) == h(k)
    requires forall x: nat :: x < Pow2(l) && g(x) ==> OrbitOf(l, x) == i
    ensures XorSum(|Orbit(RepVector(l, i))|, h) == XorSum(Pow2(l), g)
  {
    var w := RepVector(l, i);
    OrbitPoints(l, i);
    XorSumImage(|Orbit(w)|, Pow2(l), h, OrbitCodes(w), g);
  }

  lemma OrbitSum(l: nat, i: nat, h: nat -> int, g: nat -> int)
    requires l >= 1 && i < |Representatives(l)|
    requires forall k: nat :: k < |Orbit(RepVector(l, i))| ==> g(OrbitCodes(RepVector(l, i))(k)) == h(k)
    requires forall x: nat :: x < Pow2(l) && g(x) != 0 ==> OrbitOf(l, x) == i
    ensures Sum(|Orbit(RepVector(l, i))|, h) == Sum(Pow2(l), g)
  {
    var w := RepVector(l, i);
    OrbitPoints(l, i);
    SumImage(|Orbit(w)|, Pow2(l), h, OrbitCodes(w), g);
  }

  /** The points of the orbit of representative i whose bits are among u's. */
  function CoveredInOrbit(l: nat, i: nat, u: nat): (r: nat -> bool)
    requires l >= 1
    ensures forall x: nat :: r(x) == (x < Pow2(l) && OrbitOf(l, x) == i && Covers(u, x))
  {
    (x: nat) => x < Pow2(l) && OrbitOf(l, x) == i && Covers(u, x)
  }

  /** (-1)^popcount(x & u) over the points x of the orbit of representative
      i; 0 elsewhere. */
  function CharactersInOrbit(l: nat, i: nat, u: nat): (r: nat -> int)
    requires l >= 1
    ensures forall x: nat :: r(x) == if x < Pow2(l) && OrbitOf(l, x) == i then Chi(AndPop(x, u)) else 0
  {
    (x: nat) => if x < Pow2(l) && OrbitOf(l, x) == i then Chi(AndPop(x, u)) else 0
  }

  lemma CoveredTermAt(l: nat, i: nat, j: nat, k: nat)
    requires l >= 1 && i < |Representatives(l)| && j < |Representatives(l)|
    requires k < |Orbit(RepVector(l, i))|
    ensures CoveredInOrbit(l, i, Representatives(l)[j])(OrbitCodes(RepVector(l, i))(k))
         == IncludedTerms(Orbit(RepVector(l, i)), RepVector(l, j))(k)
  {
    var O := Orbit(RepVector(l, i));
    OrbitPointAt(l, i, k);
    RepresentativeFacts(l, j);
    IncludesIsCovers(RepVector(l, j), O[k]);
    ToIntFromInt(l, Representatives(l)[j]);
  }

  lemma CharacterTermAt(l: nat, i: nat, j: nat, k: nat)
    requires l >= 1 && i < |Representatives(l)| && j < |Representatives(l)|
    requires k < |Orbit(RepVector(l, i))|
    ensures CharactersInOrbit(l, i, Representatives(l)[j])(OrbitCodes(RepVector(l, i))(k))
         == CharacterTerms(Orbit(RepVector(l, i)), RepVector(l, j))(k)
  {
    var O := Orbit(RepVector(l, i));
    OrbitPointAt(l, i, k);
    RepresentativeFacts(l, j);
    DotIsAndPop(RepVector(l, j), O[k]);
    ToIntFromInt(l, Representatives(l)[j]);
  }

  /** The parity of the orbit members of representative i that
      representative j includes is the parity of the points of orbit i that
      representative j covers. */
  lemma OrbitParityCovered(l: nat, i: nat, j: nat)
    requires l >= 1 && i < |Representatives(l)| && j < |Representatives(l)|
    ensures Uniform(Orbit(RepVector(l, i)), l)
    ensures IncludedParity(Orbit(RepVector(l, i)), RepVector(l, j))
         == XorSum(Pow2(l), CoveredInOrbit(l, i, Representatives(l)[j]))
  {
    var w, u := RepVector(l, i), RepVector(l, j);
    var O := Orbit(w);
    OrbitUniform(w);
    IncludedParitySum(O, u);
    forall k: nat | k < |O|
      ensures CoveredInOrbit(l, i, Representatives(l)[j])(OrbitCodes(w)(k)) == IncludedTerms(O, u)(k)
    {
      CoveredTermAt(l, i, j, k);
    }
    OrbitXorSum(l, i, IncludedTerms(O, u), CoveredInOrbit(l, i, Representatives(l)[j]));
  }

  /** The character sum of representative j over the orbit members of
      representative i is the sum of its characters over the points of
      orbit i. */
  lemma OrbitCharacters(l: nat, i: nat, j: nat)
    requires l >= 1 && i < |Representatives(l)| && j < |Representatives(l)|
    ensures Uniform(Orbit(RepVector(l, i)), l)
    ensures CharacterSum(Orbit(RepVector(l, i)), RepVector(l, j))
         == Sum(Pow2(l), CharactersInOrbit(l, i, Representatives(l)[j]))
  {
    var w, u := RepVector(l, i), RepVector(l, j);
    var O := Orbit(w);
    OrbitUniform(w);
    CharacterSumIsSum(O, u);
    forall k: nat | k < |O|
      ensures CharactersInOrbit(l, i, Representatives(l)[j])(OrbitCodes(w)(k)) == CharacterTerms(O, u)(k)
    {
      CharacterTermAt(l, i, j, k);
    }
    OrbitSum(l, i, CharacterTerms(O, u), CharactersInOrbit(l, i, Representatives(l)[j]));
  }

  /** Entry (i, j) of `build_SANF_to_STT` is the parity of the points of
      orbit i covered by representative j. */
  lemma SanfToSttCovered(l: nat, i: nat, j: nat)
    requires l >= 1 && i < |Representatives(l)| && j < |Representatives(l)|
    ensures Uniform(Vectors(l, Representatives(l)), l)
    ensures SanfToSttEntry(Vectors(l, Representatives(l)), l, i, j)
         == XorSum(Pow2(l), CoveredInOrbit(l, i, Representatives(l)[j]))
  {
    var reps := Vectors(l, Representatives(l));
    assert reps[i] == RepVector(l, i) && reps[j] == RepVector(l, j);
    OrbitParityCovered(l, i, j);
  }

  /** Entry (i, j) of `build_STT_to_SWS` is the sum of the characters of
      representative j over the points of orbit i. */
  lemma SttToSwsCharacters(l: nat, i: nat, j: nat)
    requires l >= 1 && i < |Representatives(l)| && j < |Representatives(l)|
    ensures Uniform(Vectors(l, Representatives(l)), l)
    ensures SttToSwsEntry(Vectors(l, Representatives(l)), l, i, j)
         == Sum(Pow2(l), CharactersInOrbit(l, i, Representatives(l)[j]))
  {
    var reps := Vectors(l, Representatives(l));
    assert reps[i] == RepVector(l, i) && reps[j] == RepVector(l, j);
    OrbitCharacters(l, i, j);
  }

  // ---------------------------------------------------------------------
  // The STT is the Moebius transform of the expanded ANF
  // ---------------------------------------------------------------------

  /** The index of the orbit of each l-bit point; 0 past them. */
  function OrbitIndex(l: nat): (r: nat -> nat)
    requires l >= 1
    ensures forall x: nat :: r(x) == if x < Pow2(l) then OrbitOf(l, x) else 0
  {
    (x: nat) => if x < Pow2(l) then OrbitOf(l, x) else 0
  }

  /** Orbit i's share of the subset sum of the expanded table at u: the
      parity of the points of orbit i that u covers, when s[i] is set. */
  lemma MoebiusClassAt(l: nat, s: seq<bool>, u: nat, i: nat)
    requires l >= 1 && |s| == |Representatives(l)| && i < |s|
    ensures ClassXors(Pow2(l), SubsetTerms(ExpandTT(l, s), u), OrbitIndex(l))(i)
         == (s[i] && XorSum(Pow2(l), CoveredInOrbit(l, i, u)))
  {
    var t := ClassTerms(SubsetTerms(ExpandTT(l, s), u), OrbitIndex(l), i);
    if s[i] {
      XorSumExt(Pow2(l), t, CoveredInOrbit(l, i, u));
    } else {
      XorSumFalse(Pow2(l), t);
    }
  }

  /** Column j of SANF x SANF_to_STT, for a matrix whose entries are the
      orbit parities, is the Moebius transform of the expanded SANF at
      representative j. */
  lemma SttOfAt(l: nat, s: seq<bool>, m: seq<seq<bool>>, j: nat)
    requires l >= 1 && |s| == |Representatives(l)| && j < |s|
    requires forall i :: 0 <= i < |s| ==>
      (i < |m| && j < |m[i]| && m[i][j] == XorSum(Pow2(l), CoveredInOrbit(l, i, Representatives(l)[j])))
    ensures Representatives(l)[j] < Pow2(l)
    ensures SttOf(m, s)[j] == Moebius(ExpandTT(l, s), l)[Representatives(l)[j]]
  {
    var A := ExpandTT(l, s);
    var u := Representatives(l)[j];
    var N := Pow2(l);
    RepresentativeFacts(l, j);
    MoebiusSubsets(A, l, u);
    XorSumClasses(N, |s|, SubsetTerms(A, u), OrbitIndex(l));
    forall i: nat | i < |s|
      ensures ClassXors(N, SubsetTerms(A, u), OrbitIndex(l))(i) == SanfTerms(m, s, j)(i)
    {
      MoebiusClassAt(l, s, u, i);
    }
    XorSumExt(|s|, ClassXors(N, SubsetTerms(A, u), OrbitIndex(l)), SanfTerms(m, s, j));
  }

  lemma SttAt(f: RSF, j: nat)
    requires Tables(f) && Shaped(f) && j < |f.sanf|
    ensures Representatives(f.l)[j] < Pow2(f.l)
    ensures Stt(f)[j] == Moebius(ExpandTT(f.l, f.sanf), f.l)[Representatives(f.l)[j]]
  {
    var l, m := f.l, f.sanfToStt;
    var R := Representatives(l);
    forall i | 0 <= i < |f.sanf|
      ensures i < |m| && j < |m[i]| && m[i][j] == XorSum(Pow2(l), CoveredInOrbit(l, i, R[j]))
    {
      SanfToSttCovered(l, i, j);
    }
    SttOfAt(l, f.sanf, m, j);
  }

  /** The STT the SANF determines holds, at each representative, the Moebius
      transform of the ANF the SANF expands to. */
  lemma SttIsMoebius(f: RSF)
    requires Tables(f) && Shaped(f)
    ensures forall j :: 0 <= j < |f.sanf| ==>
      (Representatives(f.l)[j] < Pow2(f.l)
       && Stt(f)[j] == Moebius(ExpandTT(f.l, f.sanf), f.l)[Representatives(f.l)[j]])
  {
    forall j | 0 <= j < |f.sanf|
      ensures Representatives(f.l)[j] < Pow2(f.l)
      ensures Stt(f)[j] == Moebius(ExpandTT(f.l, f.sanf), f.l)[Representatives(f.l)[j]]
    {
      SttAt(f, j);
    }
  }

  /** The full truth table the SANF determines is the Moebius transform of
      the expanded ANF, at every point. */
  lemma TtIsMoebius(f: RSF)
    requires Tables(f) && Shaped(f)
    ensures Tt(f) == Moebius(ExpandTT(f.l, f.sanf), f.l)
  {
    var l := f.l;
    var M := Moebius(ExpandTT(l, f.sanf), l);
    SttIsMoebius(f);
    forall x, y | 0 <= x < Pow2(l) && 0 <= y < Pow2(l) && SameOrbit(l, x, y)
      ensures M[x] == M[y]
    {
      var k :| 0 <= k <= l && RotateInt(l, x, k) == y;
      MoebiusRotationSymmetric(l, f.sanf, x, k);
    }
    ExpandCharacterization(l, Stt(f), M);
  }

  // ---------------------------------------------------------------------
  // The SWS is minus the Walsh transform of the signed truth table
  // ---------------------------------------------------------------------

  /** Orbit i's share of the Walsh sum at u of the signed expanded table:
      the character sum over orbit i, negated when t[i] is 0. */
  lemma WalshClassAt(l: nat, t: seq<bool>, u: nat, i: nat)
    requires l >= 1 && |t| == |Representatives(l)| && i < |t|
    ensures ClassSums(Pow2(l), WalshTerms(Sign(ExpandTT(l, t)), u), OrbitIndex(l))(i)
         == if t[i] then Sum(Pow2(l), CharactersInOrbit(l, i, u)) else -Sum(Pow2(l), CharactersInOrbit(l, i, u))
  {
    var G := Sign(ExpandTT(l, t));
    var c := ClassAddends(WalshTerms(G, u), OrbitIndex(l), i);
    var e := CharactersInOrbit(l, i, u);
    if t[i] {
      forall x: nat | x < Pow2(l)
        ensures c(x) == e(x)
      {
      }
      SumExt(Pow2(l), c, e);
    } else {
      forall x: nat | x < Pow2(l)
        ensures c(x) == NegTerms(e)(x)
      {
      }
      SumExt(Pow2(l), c, NegTerms(e));
      SumNeg(Pow2(l), e);
    }
  }

  /** A term of the SWS column: the matrix entry, negated when t[i] is 1. */
  lemma SwsTermAt(m: seq<seq<int>>, t: seq<bool>, j: nat, i: nat)
    requires i < |t| && i < |m| && j < |m[i]|
    ensures SwsTerms(m, t, j)(i) == if t[i] then -m[i][j] else m[i][j]
  {
    var x := m[i][j];
    var b := B2I(t[i]);
    assert SwsTerms(m, t, j)(i) == (1 - 2 * b) * x;
    if t[i] {
      assert b == 1;
      assert (1 - 2 * 1) * x == -x;
    } else {
      assert b == 0;
    }
  }

  /** Column j of (1 - 2 STT) x STT_to_SWS, for a matrix whose entries are
      the orbit character sums, is minus the Walsh transform of the signed
      expanded STT at representative j. */
  lemma SwsOfAt(l: nat, t: seq<bool>, m: seq<seq<int>>, j: nat)
    requires l >= 1 && |t| == |Representatives(l)| && j < |t|
    requires forall i :: 0 <= i < |t| ==>
      (i < |m| && j < |m[i]| && m[i][j] == Sum(Pow2(l), CharactersInOrbit(l, i, Representatives(l)[j])))
    ensures Representatives(l)[j] < Pow2(l)
    ensures SwsOf(m, t)[j] == -Walsh(Sign(ExpandTT(l, t)), l)[Representatives(l)[j]]
  {
    var G := Sign(ExpandTT(l, t));
    var u := Representatives(l)[j];
    var N := Pow2(l);
    RepresentativeFacts(l, j);
    WalshSums(G, l, u);
    SumClasses(N, |t|, WalshTerms(G, u), OrbitIndex(l));
    forall i: nat | i < |t|
      ensures ClassSums(N, WalshTerms(G, u), OrbitIndex(l))(i) == NegTerms(SwsTerms(m, t, j))(i)
    {
      WalshClassAt(l, t, u, i);
      SwsTermAt(m, t, j, i);
    }
    SumExt(|t|, ClassSums(N, WalshTerms(G, u), OrbitIndex(l)), NegTerms(SwsTerms(m, t, j)));
    SumNeg(|t|, SwsTerms(m, t, j));
  }

  lemma SwsAt(f: RSF, j: nat)
    requires Tables(f) && Shaped(f) && j < |f.sanf|
    ensures Representatives(f.l)[j] < Pow2(f.l)
    ensures Sws(f)[j] == -Walsh(Sign(Tt(f)), f.l)[Representatives(f.l)[j]]
  {
    var l, m := f.l, f.sttToSws;
    var R := Representatives(l);
    forall i | 0 <= i < |f.sanf|
      ensures i < |m| && j < |m[i]| && m[i][j] == Sum(Pow2(l), CharactersInOrbit(l, i, R[j]))
    {
      SttToSwsCharacters(l, i, j);
    }
    SwsOfAt(l, Stt(f), m, j);
  }

  /** The SWS the SANF determines is, at each representative, minus the
      Walsh transform of the signed full truth table: the two engines sign
      the bits oppositely, and agree on which entries vanish. */
  lemma SwsIsWalsh(f: RSF)
    requires Tables(f) && Shaped(f)
    ensures forall j :: 0 <= j < |f.sanf| ==>
      (Representatives(f.l)[j] < Pow2(f.l)
       && Sws(f)[j] == -Walsh(Sign(Tt(f)), f.l)[Representatives(f.l)[j]])
  {
    forall j | 0 <= j < |f.sanf|
      ensures Representatives(f.l)[j] < Pow2(f.l)
      ensures Sws(f)[j] == -Walsh(Sign(Tt(f)), f.l)[Representatives(f.l)[j]]
    {
      SwsAt(f, j);
    }
  }

  /** The Walsh sums of the signed truth table take one value on each orbit. */
  lemma WalshAtOrbit(f: RSF, u: nat)
    requires Tables(f) && Shaped(f) && u < Pow2(f.l)
    ensures Representatives(f.l)[OrbitOf(f.l, u)] < Pow2(f.l)
    ensures Popcount(Representatives(f.l)[OrbitOf(f.l, u)]) == Popcount(u)
    ensures WalshSum(Sign(Tt(f)), u) == -Sws(f)[OrbitOf(f.l, u)]
  {
    var l := f.l;
    var R := Representatives(l);
    var G := Sign(Tt(f));
    var i := OrbitOf(l, u);
    var k :| 0 <= k <= l && RotateInt(l, R[i], k) == u;
    RepresentativeFacts(l, i);
    PopcountRotate(l, R[i], k);
    SignRotationSymmetric(l, Stt(f), k);
    WalshRotationSymmetric(l, G, R[i], k);
    WalshSums(G, l, u);
    SwsAt(f, i);
  }

  /** The orbit-level resiliency test agrees with the test on the full
      spectrum: every Walsh sum of the signed truth table at a point of
      weight at most r vanishes. */
  lemma ResilientAgrees(f: RSF, r: int)
    requires Tables(f) && Shaped(f)
    ensures ResilientAt(f, r) <==>
      forall u :: 0 <= u < Pow2(f.l) && Popcount(u) <= r ==> WalshSum(Sign(Tt(f)), u) == 0
  {
    var l := f.l;
    var R := Representatives(l);
    var G := Sign(Tt(f));
    if ResilientAt(f, r) {
      forall u | 0 <= u < Pow2(l) && Popcount(u) <= r
        ensures WalshSum(G, u) == 0
      {
        WalshAtOrbit(f, u);
      }
    }
    if forall u :: 0 <= u < Pow2(l) && Popcount(u) <= r ==> WalshSum(G, u) == 0 {
      forall i | 0 <= i < |f.reps| && Popcount(R[i]) <= r
        ensures Sws(f)[i] == 0
      {
        SwsAt(f, i);
        WalshSums(G, l, R[i]);
      }
    }
  }

  /** The SWS the SANF determines is never all zero: a spectrum that vanished
      everywhere would, transformed back, give a signed table of zeros. So
      the scan of `is_resilient` always finds an entry to stop at, also for
      r >= l. */
  lemma SwsNonzero(f: RSF)
    requires Tables(f) && Shaped(f)
    ensures exists i :: 0 <= i < |f.sanf| && Sws(f)[i] != 0
  {
    var l := f.l;
    var G := Sign(Tt(f));
    var N := Pow2(l);
    if forall i :: 0 <= i < |f.sanf| ==> Sws(f)[i] == 0 {
      var W := Walsh(G, l);
      forall u | 0 <= u < N
        ensures W[u] == 0
      {
        WalshAtOrbit(f, u);
        WalshSums(G, l, u);
      }
      WalshInvolution(G, l);
      WalshSums(W, l, 0);
      SumZero(N, WalshTerms(W, 0));
      assert false;
    }
  }
}
