/*
 * Rotation symmetry (RSF_toolbox.py): cyclic rotations of l-bit input
 * vectors, their orbits, the orbit representatives, the two orbit-level
 * conversion matrices, the coverage relation between representatives and
 * the distance between orbits.
 *
 * A rotation moves the last k entries of a vector to the front; the source
 * performs it one step at a time with `v.insert(0, v.pop())`. Vectors are
 * read MSB-first as integers, and a representative is an input that no
 * rotation makes numerically smaller.
 */
module Rotation {
  import opened Bits
  import Counter
  import Toolbox

  // ---------------------------------------------------------------------
  // Rotations
  // ---------------------------------------------------------------------

  /** Rotation to the right by k places, 0 <= k <= |v|. */
  function Rotate(v: seq<bool>, k: nat): (r: seq<bool>)
    requires k <= |v|
    ensures |r| == |v|
  {
    v[|v| - k..] + v[..|v| - k]
  }

  /** Entry i of the rotation by k. */
  lemma RotateAt(v: seq<bool>, k: nat)
    requires k <= |v|
    ensures forall i :: 0 <= i < |v| ==> Rotate(v, k)[i] == if i < k then v[|v| - k + i] else v[i - k]
  {
  }

  /** One step of the source's rotation: the last entry moves to the front. */
  function Step(v: seq<bool>): (r: seq<bool>)
    requires |v| >= 1
    ensures |r| == |v|
  {
    [v[|v| - 1]] + v[..|v| - 1]
  }

  /** k steps are the rotation by k. */
  lemma StepRotate(v: seq<bool>, k: nat)
    requires k < |v|
    ensures Step(Rotate(v, k)) == Rotate(v, k + 1)
  {
    RotateAt(v, k);
    RotateAt(v, k + 1);
  }

  lemma RotateNone(v: seq<bool>)
    ensures Rotate(v, 0) == v
  {
  }

  lemma RotateFull(v: seq<bool>)
    ensures Rotate(v, |v|) == v
  {
  }

  /** Rotating by a and then by b is rotating by a + b, taken modulo |v|. */
  lemma RotateRotate(v: seq<bool>, a: nat, b: nat)
    requires a <= |v| && b <= |v|
    ensures Rotate(Rotate(v, a), b) == Rotate(v, if a + b <= |v| then a + b else a + b - |v|)
  {
    RotateAt(v, a);
    RotateAt(Rotate(v, a), b);
    RotateAt(v, if a + b <= |v| then a + b else a + b - |v|);
  }

  /** The rotation by |v| - k undoes the rotation by k. */
  lemma RotateBack(v: seq<bool>, k: nat)
    requires k <= |v|
    ensures Rotate(Rotate(v, k), |v| - k) == v
  {
    RotateRotate(v, k, |v| - k);
  }

  /** The number of ones of a concatenation. */
  lemma {:induction false} WeightConcat(a: seq<bool>, b: seq<bool>)
    ensures Weight(a + b) == Weight(a) + Weight(b)
    decreases |b|
  {
    if |b| > 0 {
      var b' := b[..|b| - 1];
      assert (a + b)[..|a + b| - 1] == a + b';
      WeightConcat(a, b');
    } else {
      assert a + b == a;
    }
  }

  /** Rotations keep the number of ones. */
  lemma RotateWeight(v: seq<bool>, k: nat)
    requires k <= |v|
    ensures Weight(Rotate(v, k)) == Weight(v)
  {
    var n := |v|;
    WeightConcat(v[n - k..], v[..n - k]);
    WeightConcat(v[..n - k], v[n - k..]);
    assert v[..n - k] + v[n - k..] == v;
  }

  /** y is a rotation of x. */
  predicate IsRotation(x: seq<bool>, y: seq<bool>)
  {
    |x| == |y| && exists k :: 0 <= k <= |x| && Rotate(x, k) == y
  }

  lemma RotationSymmetric(x: seq<bool>, y: seq<bool>)
    requires IsRotation(x, y)
    ensures IsRotation(y, x)
  {
    var k :| 0 <= k <= |x| && Rotate(x, k) == y;
    RotateBack(x, k);
  }

  lemma RotationTransitive(x: seq<bool>, y: seq<bool>, z: seq<bool>)
    requires IsRotation(x, y) && IsRotation(y, z)
    ensures IsRotation(x, z)
  {
    var a :| 0 <= a <= |x| && Rotate(x, a) == y;
    var b :| 0 <= b <= |y| && Rotate(y, b) == z;
    RotateRotate(x, a, b);
  }

  // ---------------------------------------------------------------------
  // Orbits (`vector_orbit`)
  // ---------------------------------------------------------------------

  /** The least k >= from with Rotate(v, k) == v. */
  function PeriodFrom(v: seq<bool>, from: nat): (p: nat)
    requires 1 <= from <= |v|
    ensures from <= p <= |v| && Rotate(v, p) == v
    ensures forall k :: from <= k < p ==> Rotate(v, k) != v
    decreases |v| - from
  {
    if Rotate(v, from) == v || from == |v| then (RotateFull(v); from)
    else PeriodFrom(v, from + 1)
  }

  /** The least positive rotation that gives v back. */
  function Period(v: seq<bool>): (p: nat)
    requires |v| >= 1
    ensures 1 <= p <= |v| && Rotate(v, p) == v
    ensures forall k :: 1 <= k < p ==> Rotate(v, k) != v
  {
    PeriodFrom(v, 1)
  }

  /** The orbit as `vector_orbit` lists it: v, then its successive rotations
      until v comes back. */
  function Orbit(v: seq<bool>): (o: seq<seq<bool>>)
    requires |v| >= 1
    ensures |o| == Period(v) && o[0] == v
    ensures forall k :: 0 <= k < |o| ==> o[k] == Rotate(v, k)
  {
    RotateNone(v);
    seq(Period(v), k requires 0 <= k < Period(v) => Rotate(v, k))
  }

  /** `vector_orbit`: collect the rotations one step at a time. */
  method VectorOrbit(v: seq<bool>) returns (orbit: seq<seq<bool>>)
    requires |v| >= 1
    ensures orbit == Orbit(v)
  {
    orbit := [v];
    var next := Step(v);
    StepRotate(v, 0);
    RotateNone(v);
    while next != v
      invariant 1 <= |orbit| <= |v|
      invariant next == Rotate(v, |orbit|)
      invariant forall k :: 0 <= k < |orbit| ==> orbit[k] == Rotate(v, k)
      invariant forall k :: 1 <= k < |orbit| ==> orbit[k] != v
      decreases |v| - |orbit|
    {
      OrbitGrow(v, orbit, next);
      orbit := orbit + [next];
      next := Step(next);
    }
    OrbitIsPeriod(v, orbit);
  }

  /** One more step of `vector_orbit` keeps the list equal to the first rotations. */
  lemma OrbitGrow(v: seq<bool>, orbit: seq<seq<bool>>, next: seq<bool>)
    requires 1 <= |orbit| <= |v| && next == Rotate(v, |orbit|) && next != v
    requires forall k :: 0 <= k < |orbit| ==> orbit[k] == Rotate(v, k)
    ensures |orbit| < |v| && Step(next) == Rotate(v, |orbit| + 1)
    ensures forall k :: 0 <= k < |orbit| + 1 ==> (orbit + [next])[k] == Rotate(v, k)
  {
    OrbitShort(v, |orbit|);
    StepRotate(v, |orbit|);
  }

  lemma OrbitShort(v: seq<bool>, n: nat)
    requires 1 <= n <= |v| && Rotate(v, n) != v
    ensures n < |v|
  {
    RotateFull(v);
  }

  /** A list of the first rotations that stops just before v comes back is the orbit. */
  lemma OrbitIsPeriod(v: seq<bool>, orbit: seq<seq<bool>>)
    requires 1 <= |orbit| <= |v| && Rotate(v, |orbit|) == v
    requires forall k :: 0 <= k < |orbit| ==> orbit[k] == Rotate(v, k)
    requires forall k :: 1 <= k < |orbit| ==> orbit[k] != v
    ensures orbit == Orbit(v)
  {
    assert |orbit| == Period(v);
  }

  /** Every rotation of v is in its orbit. */
  lemma {:induction false} OrbitComplete(v: seq<bool>, k: nat)
    requires |v| >= 1 && k <= |v|
    ensures Rotate(v, k) in Orbit(v)
    decreases k
  {
    var p := Period(v);
    if k < p {
      assert Orbit(v)[k] == Rotate(v, k);
    } else {
      assert Rotate(v, k) == Rotate(v, k - p) by {
        RotateRotate(v, p, k - p);
      }
      OrbitComplete(v, k - p);
    }
  }

  /** No rotation is listed twice. */
  lemma OrbitDistinct(v: seq<bool>, a: nat, b: nat)
    requires |v| >= 1 && a < b < |Orbit(v)|
    ensures Orbit(v)[a] != Orbit(v)[b]
  {
    var n := |v|;
    if Rotate(v, a) == Rotate(v, b) {
      // rotating both by n - a brings Rotate(v, b) to Rotate(v, b - a)
      RotateRotate(v, a, n - a);
      RotateRotate(v, b, n - a);
      RotateFull(v);
      assert false;
    }
  }

  /** The members of the orbit are exactly the rotations of v. */
  lemma OrbitMembers(v: seq<bool>, w: seq<bool>)
    requires |v| >= 1
    ensures w in Orbit(v) <==> IsRotation(v, w)
  {
    if IsRotation(v, w) {
      var k :| 0 <= k <= |v| && Rotate(v, k) == w;
      OrbitComplete(v, k);
    }
  }

  // ---------------------------------------------------------------------
  // The integer view and the representatives (`compute_representatives`)
  // ---------------------------------------------------------------------

  /** One rotation step on the integer of an l-bit vector: the low bit
      moves to the top. */
  function RotateStep(l: nat, x: nat): (y: nat)
    requires l >= 1
    ensures x < Pow2(l) ==> y < Pow2(l)
  {
    x / 2 + (if x % 2 == 1 then Pow2(l - 1) else 0)
  }

  /** k rotation steps. */
  function RotateInt(l: nat, x: nat, k: nat): (y: nat)
    requires l >= 1
    ensures x < Pow2(l) ==> y < Pow2(l)
  {
    if k == 0 then x else RotateStep(l, RotateInt(l, x, k - 1))
  }

  /** The step on integers is the step on vectors. */
  lemma StepInt(v: seq<bool>)
    requires |v| >= 1
    ensures ToInt(Step(v)) == RotateStep(|v|, ToInt(v))
  {
    var n := |v|;
    var w := Step(v);
    var a := ToInt(v[..n - 1]);
    var b := if v[n - 1] then 1 else 0;
    assert ToInt(v) == 2 * a + b;
    assert ToInt(v) / 2 == a && ToInt(v) % 2 == b;
    ToIntHead(w);
    assert w[0] == v[n - 1] && w[1..] == v[..n - 1];
  }

  /** The integer rotation reads the vector rotation. */
  lemma {:induction false} RotateIntVector(l: nat, x: nat, k: nat)
    requires l >= 1 && x < Pow2(l) && k <= l
    ensures RotateInt(l, x, k) == ToInt(Rotate(FromInt(l, x), k))
    ensures FromInt(l, RotateInt(l, x, k)) == Rotate(FromInt(l, x), k)
  {
    var v := FromInt(l, x);
    var r := Rotate(v, k);
    assert RotateInt(l, x, k) == ToInt(r) by {
      if k == 0 {
        RotateNone(v);
        ToIntFromInt(l, x);
      } else {
        RotateIntVector(l, x, k - 1);
        StepRotate(v, k - 1);
        StepInt(Rotate(v, k - 1));
      }
    }
    FromIntToInt(r);
  }

  lemma {:induction false} RotateIntAdd(l: nat, x: nat, a: nat, b: nat)
    requires l >= 1
    ensures RotateInt(l, RotateInt(l, x, a), b) == RotateInt(l, x, a + b)
  {
    if b > 0 {
      RotateIntAdd(l, x, a, b - 1);
    }
  }

  /** l steps bring an l-bit integer back. */
  lemma RotateIntFull(l: nat, x: nat)
    requires l >= 1 && x < Pow2(l)
    ensures RotateInt(l, x, l) == x
  {
    RotateIntVector(l, x, l);
    RotateFull(FromInt(l, x));
    ToIntFromInt(l, x);
  }

  /** Rotating by a then b, reduced to at most l steps. */
  lemma RotateIntCompose(l: nat, x: nat, a: nat, b: nat)
    requires l >= 1 && x < Pow2(l) && a <= l && b <= l
    ensures RotateInt(l, RotateInt(l, x, a), b) == RotateInt(l, x, if a + b <= l then a + b else a + b - l)
  {
    RotateIntAdd(l, x, a, b);
    if a + b > l {
      RotateIntFull(l, x);
      RotateIntAdd(l, x, l, a + b - l);
    }
  }

  /** x and y lie in the same rotation orbit of l-bit integers. */
  predicate SameOrbit(l: nat, x: nat, y: nat)
  {
    l >= 1 && exists k :: 0 <= k <= l && RotateInt(l, x, k) == y
  }

  /** The source's test: none of the rotations by 1, ..., l - 1 is smaller than x. */
  predicate IsRepresentative(l: nat, x: nat)
  {
    forall k :: 1 <= k < l ==> RotateInt(l, x, k) >= x
  }

  /** On integers below 2^l, orbits are the orbits of the vectors. */
  lemma SameOrbitVectors(l: nat, x: nat, y: nat)
    requires l >= 1 && x < Pow2(l) && y < Pow2(l)
    ensures SameOrbit(l, x, y) <==> IsRotation(FromInt(l, x), FromInt(l, y))
  {
    if SameOrbit(l, x, y) {
      var k :| 0 <= k <= l && RotateInt(l, x, k) == y;
      RotateIntVector(l, x, k);
    }
    if IsRotation(FromInt(l, x), FromInt(l, y)) {
      var k :| 0 <= k <= l && Rotate(FromInt(l, x), k) == FromInt(l, y);
      RotateIntVector(l, x, k);
      ToIntFromInt(l, y);
    }
  }

  /** Orbits are classes: reflexive, symmetric and transitive. */
  lemma SameOrbitReflexive(l: nat, x: nat)
    requires l >= 1
    ensures SameOrbit(l, x, x)
  {
    assert RotateInt(l, x, 0) == x;
  }

  lemma SameOrbitSymmetric(l: nat, x: nat, y: nat)
    requires x < Pow2(l) && SameOrbit(l, x, y)
    ensures SameOrbit(l, y, x)
  {
    var k :| 0 <= k <= l && RotateInt(l, x, k) == y;
    RotateIntCompose(l, x, k, l - k);
    RotateIntFull(l, x);
  }

  lemma SameOrbitTransitive(l: nat, x: nat, y: nat, z: nat)
    requires x < Pow2(l) && SameOrbit(l, x, y) && SameOrbit(l, y, z)
    ensures SameOrbit(l, x, z)
  {
    var a :| 0 <= a <= l && RotateInt(l, x, a) == y;
    var b :| 0 <= b <= l && RotateInt(l, y, b) == z;
    RotateIntCompose(l, x, a, b);
  }

  /** A representative is the least element of its orbit. */
  lemma RepresentativeIsLeast(l: nat, x: nat, y: nat)
    requires x < Pow2(l)
    requires IsRepresentative(l, x) && SameOrbit(l, x, y)
    ensures x <= y
  {
    var k :| 0 <= k <= l && RotateInt(l, x, k) == y;
    if k == l {
      RotateIntFull(l, x);
    }
  }

  /** An orbit holds at most one representative. */
  lemma RepresentativeUnique(l: nat, x: nat, y: nat)
    requires x < Pow2(l) && y < Pow2(l)
    requires IsRepresentative(l, x) && IsRepresentative(l, y) && SameOrbit(l, x, y)
    ensures x == y
  {
    RepresentativeIsLeast(l, x, y);
    SameOrbitSymmetric(l, x, y);
    RepresentativeIsLeast(l, y, x);
  }

  /** The rotation count j <= k whose rotation is the least among 0, ..., k. */
  function LeastRotation(l: nat, x: nat, k: nat): (j: nat)
    requires l >= 1
    ensures j <= k
    ensures forall i :: 0 <= i <= k ==> RotateInt(l, x, j) <= RotateInt(l, x, i)
  {
    if k == 0 then 0
    else
      var j := LeastRotation(l, x, k - 1);
      if RotateInt(l, x, k) < RotateInt(l, x, j) then k else j
  }

  /** Every orbit holds a representative: its least element. */
  lemma RepresentativeExists(l: nat, x: nat) returns (r: nat)
    requires l >= 1 && x < Pow2(l)
    ensures r < Pow2(l) && IsRepresentative(l, r) && SameOrbit(l, x, r)
  {
    var j := LeastRotation(l, x, l);
    r := RotateInt(l, x, j);
    forall k | 1 <= k < l
      ensures RotateInt(l, r, k) >= r
    {
      RotateIntCompose(l, x, j, k);
    }
  }

  /** The candidates 0, ..., n - 1 that pass the test, in increasing order. */
  function Candidates(l: nat, n: nat): (c: seq<nat>)
    ensures forall i :: 0 <= i < |c| ==> c[i] < n && IsRepresentative(l, c[i])
    ensures forall i, j :: 0 <= i < j < |c| ==> c[i] < c[j]
  {
    if n == 0 then []
    else Candidates(l, n - 1) + (if IsRepresentative(l, n - 1) then [n - 1] else [])
  }

  lemma {:induction false} CandidatesComplete(l: nat, n: nat, x: nat)
    requires x < n && IsRepresentative(l, x)
    ensures x in Candidates(l, n)
  {
    var c := Candidates(l, n - 1);
    if x < n - 1 {
      CandidatesComplete(l, n - 1, x);
      assert x in c;
    } else {
      assert Candidates(l, n) == c + [x];
    }
  }

  // ---------------------------------------------------------------------
  // The stable sort by weight
  // ---------------------------------------------------------------------

  /** The entries of s of weight w, in order. */
  function AtWeight(s: seq<nat>, w: nat): (r: seq<nat>)
    ensures forall i :: 0 <= i < |r| ==> Popcount(r[i]) == w && r[i] in s
  {
    if |s| == 0 then []
    else AtWeight(s[..|s| - 1], w) + (if Popcount(s[|s| - 1]) == w then [s[|s| - 1]] else [])
  }

  /** The entries of s of weight at most w, in order. */
  function Light(s: seq<nat>, w: nat): (r: seq<nat>)
  {
    if |s| == 0 then []
    else Light(s[..|s| - 1], w) + (if Popcount(s[|s| - 1]) <= w then [s[|s| - 1]] else [])
  }

  /** `sort(key = sum)`: Python's sort is stable, so the result lists the
      entries of weight 0, then of weight 1, ..., each group in its original order. */
  function ByWeight(s: seq<nat>, w: nat): (r: seq<nat>)
  {
    if w == 0 then AtWeight(s, 0) else ByWeight(s, w - 1) + AtWeight(s, w)
  }

  /** Ordered by weight, then by value. */
  predicate WeightOrdered(r: seq<nat>)
  {
    forall i, j :: 0 <= i < j < |r| ==>
      Popcount(r[i]) < Popcount(r[j]) || (Popcount(r[i]) == Popcount(r[j]) && r[i] < r[j])
  }

  lemma {:induction false} AtWeightIncreasing(s: seq<nat>, w: nat)
    requires forall i, j :: 0 <= i < j < |s| ==> s[i] < s[j]
    ensures forall i, j :: 0 <= i < j < |AtWeight(s, w)| ==> AtWeight(s, w)[i] < AtWeight(s, w)[j]
  {
    if |s| > 0 {
      var p := s[..|s| - 1];
      AtWeightIncreasing(p, w);
      forall e | e in AtWeight(p, w)
        ensures e < s[|s| - 1]
      {
        AtWeightMembers(p, w, e);
      }
    }
  }

  lemma {:induction false} AtWeightMembers(s: seq<nat>, w: nat, e: nat)
    ensures e in AtWeight(s, w) <==> e in s && Popcount(e) == w
  {
    if |s| > 0 {
      var p := s[..|s| - 1];
      AtWeightMembers(p, w, e);
      assert s == p + [s[|s| - 1]];
    }
  }

  lemma {:induction false} ByWeightMembers(s: seq<nat>, w: nat, e: nat)
    ensures e in ByWeight(s, w) <==> e in s && Popcount(e) <= w
  {
    AtWeightMembers(s, w, e);
    if w > 0 {
      ByWeightMembers(s, w - 1, e);
    }
  }

  /** Sorting an increasing list by weight orders it by weight, then value. */
  lemma {:induction false} ByWeightOrdered(s: seq<nat>, w: nat)
    requires forall i, j :: 0 <= i < j < |s| ==> s[i] < s[j]
    ensures WeightOrdered(ByWeight(s, w))
  {
    AtWeightIncreasing(s, w);
    if w > 0 {
      ByWeightOrdered(s, w - 1);
      var a, b := ByWeight(s, w - 1), AtWeight(s, w);
      forall i | 0 <= i < |a|
        ensures Popcount(a[i]) < w
      {
        ByWeightMembers(s, w - 1, a[i]);
      }
      OrderedConcat(a, b, w);
    }
  }

  /** A weight-ordered list of entries lighter than w, then an increasing list of entries of weight w. */
  lemma OrderedConcat(a: seq<nat>, b: seq<nat>, w: nat)
    requires WeightOrdered(a) && forall i :: 0 <= i < |a| ==> Popcount(a[i]) < w
    requires forall i :: 0 <= i < |b| ==> Popcount(b[i]) == w
    requires forall i, j :: 0 <= i < j < |b| ==> b[i] < b[j]
    ensures WeightOrdered(a + b)
  {
    var r := a + b;
    forall i, j | 0 <= i < j < |r|
      ensures Popcount(r[i]) < Popcount(r[j]) || (Popcount(r[i]) == Popcount(r[j]) && r[i] < r[j])
    {
      if j < |a| {
        assert r[i] == a[i] && r[j] == a[j];
      } else if i < |a| {
        assert r[i] == a[i] && r[j] == b[j - |a|];
      } else {
        assert r[i] == b[i - |a|] && r[j] == b[j - |a|];
      }
    }
  }

  lemma {:induction false} LightSplit(s: seq<nat>, w: nat)
    requires w >= 1
    ensures multiset(Light(s, w)) == multiset(Light(s, w - 1)) + multiset(AtWeight(s, w))
  {
    if |s| > 0 {
      LightSplit(s[..|s| - 1], w);
    }
  }

  lemma {:induction false} ByWeightPermutes(s: seq<nat>, w: nat)
    ensures multiset(ByWeight(s, w)) == multiset(Light(s, w))
  {
    if w == 0 {
      LightZero(s);
    } else {
      ByWeightPermutes(s, w - 1);
      LightSplit(s, w);
    }
  }

  lemma {:induction false} LightZero(s: seq<nat>)
    ensures Light(s, 0) == AtWeight(s, 0)
  {
    if |s| > 0 {
      LightZero(s[..|s| - 1]);
    }
  }

  lemma {:induction false} LightAll(s: seq<nat>, l: nat)
    requires forall i :: 0 <= i < |s| ==> s[i] < Pow2(l)
    ensures Light(s, l) == s
  {
    if |s| > 0 {
      LightAll(s[..|s| - 1], l);
      PopcountBound(l, s[|s| - 1]);
      assert s[..|s| - 1] + [s[|s| - 1]] == s;
    }
  }

  /** The representatives, sorted by weight then value, as integers. */
  function Representatives(l: nat): (r: seq<nat>)
    ensures forall i :: 0 <= i < |r| ==> r[i] < Pow2(l)
  {
    var r := ByWeight(Candidates(l, Pow2(l)), l);
    forall i | 0 <= i < |r|
      ensures r[i] < Pow2(l)
    {
      ByWeightMembers(Candidates(l, Pow2(l)), l, r[i]);
    }
    r
  }

  /** The list holds exactly the l-bit representatives ... */
  lemma RepresentativesMembers(l: nat, x: nat)
    ensures x in Representatives(l) <==> x < Pow2(l) && IsRepresentative(l, x)
  {
    ByWeightMembers(Candidates(l, Pow2(l)), l, x);
    if x < Pow2(l) && IsRepresentative(l, x) {
      CandidatesComplete(l, Pow2(l), x);
      PopcountBound(l, x);
    }
  }

  /** ... ordered by weight, then by value, which also makes them distinct ... */
  lemma RepresentativesOrdered(l: nat)
    ensures WeightOrdered(Representatives(l))
  {
    ByWeightOrdered(Candidates(l, Pow2(l)), l);
  }

  /** ... and the sort is a permutation of the candidates. */
  lemma RepresentativesPermute(l: nat)
    ensures multiset(Representatives(l)) == multiset(Candidates(l, Pow2(l)))
  {
    ByWeightPermutes(Candidates(l, Pow2(l)), l);
    LightAll(Candidates(l, Pow2(l)), l);
  }

  /** Every orbit of l-bit inputs has exactly one representative in the list. */
  lemma OneRepresentativePerOrbit(l: nat, x: nat) returns (i: nat)
    requires l >= 1 && x < Pow2(l)
    ensures i < |Representatives(l)| && SameOrbit(l, Representatives(l)[i], x)
    ensures forall j :: 0 <= j < |Representatives(l)| && SameOrbit(l, Representatives(l)[j], x) ==> j == i
  {
    var R := Representatives(l);
    var r := RepresentativeExists(l, x);
    RepresentativesMembers(l, r);
    i :| 0 <= i < |R| && R[i] == r;
    SameOrbitSymmetric(l, x, r);
    RepresentativesOrdered(l);
    forall j | 0 <= j < |R| && SameOrbit(l, R[j], x)
      ensures j == i
    {
      RepresentativesMembers(l, R[j]);
      SameOrbitSymmetric(l, R[j], x);
      SameOrbitTransitive(l, r, x, R[j]);
      RepresentativeUnique(l, r, R[j]);
    }
  }

  // ---------------------------------------------------------------------
  // The truth-table index map and the computation of the representatives
  // ---------------------------------------------------------------------

  /** The last of the rotations by 1, ..., k that is smaller than x, or -1. */
  function LastSmaller(l: nat, x: nat, k: nat): (t: int)
    requires l >= 1
    ensures t == -1 || 0 <= t < x
  {
    if k == 0 then -1
    else if RotateInt(l, x, k) < x then RotateInt(l, x, k)
    else LastSmaller(l, x, k - 1)
  }

  /** The scan finds nothing exactly when no rotation by 1, ..., k is
      smaller, and what it finds is in the orbit. */
  lemma {:induction false} LastSmallerSpec(l: nat, x: nat, k: nat)
    requires l >= 1 && k <= l
    ensures LastSmaller(l, x, k) == -1 ==> forall i: nat :: 1 <= i <= k ==> RotateInt(l, x, i) >= x
    ensures LastSmaller(l, x, k) != -1 ==> !forall i: nat :: 1 <= i <= k ==> RotateInt(l, x, i) >= x
    ensures LastSmaller(l, x, k) != -1 ==> SameOrbit(l, x, LastSmaller(l, x, k))
  {
    if k > 0 {
      LastSmallerSpec(l, x, k - 1);
      var y := RotateInt(l, x, k);
      if y < x {
        assert LastSmaller(l, x, k) == y;
      } else {
        assert LastSmaller(l, x, k) == LastSmaller(l, x, k - 1);
      }
    }
  }

  /** `truth_table_index[x]`: -1 for a representative, otherwise a smaller
      element of the same orbit (the last smaller rotation found, which need
      not be the representative). */
  function TableIndex(l: nat, x: nat): (t: int)
    requires l >= 1
    ensures t == -1 ==> IsRepresentative(l, x)
    ensures t != -1 ==> !IsRepresentative(l, x) && 0 <= t < x && SameOrbit(l, x, t)
  {
    LastSmallerSpec(l, x, l - 1);
    LastSmaller(l, x, l - 1)
  }

  /** For three variables the index of 6 (110) is 5 (101), while the
      representative of the orbit {3, 5, 6} is 3. */
  lemma TableIndexExample()
    ensures TableIndex(3, 6) == 5
    ensures IsRepresentative(3, 3) && !IsRepresentative(3, 5)
    ensures SameOrbit(3, 3, 6)
  {
    assert RotateInt(3, 6, 1) == 3 && RotateInt(3, 6, 2) == 5;
    assert RotateInt(3, 3, 1) == 5 && RotateInt(3, 3, 2) == 6;
    assert RotateInt(3, 5, 1) == 6 && RotateInt(3, 5, 2) == 3;
  }

  /** The test of one entry. The source rotates the entry's vector one step
      at a time and reads each rotation back as an integer; the loop carries
      that integer, which each step changes by `RotateStep` (`StepInt`).
      Returns whether the entry is a representative and its index. */
  method TestEntry(l: nat, x: nat) returns (isRep: bool, t: int)
    requires l >= 1 && x < Pow2(l)
    ensures isRep <==> IsRepresentative(l, x)
    ensures t == TableIndex(l, x) == LastSmaller(l, x, l - 1)
  {
    isRep, t := true, -1;
    var r := 0;
    var input := x;
    while r < l - 1
      invariant 0 <= r <= l - 1
      invariant input == RotateInt(l, x, r)
      invariant isRep <==> t == -1
      invariant t == LastSmaller(l, x, r)
    {
      input := RotateStep(l, input);
      r := r + 1;
      if input < x {
        isRep := false;
        t := input;
      }
    }
    LastSmallerSpec(l, x, l - 1);
  }

  /** The l-bit vectors of a list of integers. */
  function Vectors(l: nat, s: seq<nat>): (vs: seq<seq<bool>>)
    ensures |vs| == |s|
    ensures forall i :: 0 <= i < |s| ==> vs[i] == FromInt(l, s[i])
  {
    seq(|s|, i requires 0 <= i < |s| => FromInt(l, s[i]))
  }

  /** The loop of `compute_representatives(l)`: enumerate the entries with a
      fresh truth-table iterator, keep those no rotation makes smaller, in
      increasing order, and record the index map. */
  method Enumerate(l: nat) returns (found: seq<nat>, index: seq<int>)
    requires l >= 1
    ensures found == Candidates(l, Pow2(l))
    ensures |index| == Pow2(l) && forall x :: 0 <= x < Pow2(l) ==> index[x] == LastSmaller(l, x, l - 1)
  {
    var inputs := AllOnes(l);
    ToIntAllOnes(l);
    found := [];
    index := seq(Pow2(l), x => -1);
    var i: nat := 0;
    while i < Pow2(l)
      invariant 0 <= i <= Pow2(l)
      invariant |inputs| == l
      invariant ToInt(inputs) == if i == 0 then Pow2(l) - 1 else i - 1
      invariant found == Candidates(l, i)
      invariant |index| == Pow2(l)
      invariant forall x :: 0 <= x < i ==> index[x] == LastSmaller(l, x, l - 1)
      invariant forall x :: i <= x < Pow2(l) ==> index[x] == -1
    {
      Counter.NextValue(inputs);
      inputs := Counter.Next(inputs);
      assert ToInt(inputs) == i;
      var isRep, t := TestEntry(l, ToInt(inputs));
      ghost var before := index;
      if t != -1 {
        index := index[i := t];
      }
      assert index == before[i := t];
      if isRep {
        found := found + [i];
      }
      i := i + 1;
    }
  }

  /** `compute_representatives(l)`: the representatives sorted by weight,
      then value, and the index map. */
  method ComputeRepresentatives(l: nat) returns (reps: seq<seq<bool>>, index: seq<int>)
    requires l >= 1
    ensures reps == Vectors(l, Representatives(l))
    ensures |index| == Pow2(l) && forall x :: 0 <= x < Pow2(l) ==> index[x] == TableIndex(l, x)
  {
    var found;
    found, index := Enumerate(l);
    reps := Vectors(l, ByWeight(found, l));
  }

  // ---------------------------------------------------------------------
  // The first and the last representative
  // ---------------------------------------------------------------------

  lemma {:induction false} PopcountZero(x: nat)
    requires Popcount(x) == 0
    ensures x == 0
  {
    if x != 0 {
      PopcountZero(x / 2);
    }
  }

  /** The only l-bit integer of weight l is 2^l - 1. */
  lemma {:induction false} PopcountFull(l: nat, x: nat)
    requires x < Pow2(l) && Popcount(x) >= l
    ensures x == Pow2(l) - 1
  {
    if l > 0 {
      PopcountBound(l - 1, x / 2);
      PopcountFull(l - 1, x / 2);
    }
  }

  lemma {:induction false} PopcountAllOnes(l: nat)
    ensures Popcount(Pow2(l) - 1) == l
  {
    if l > 0 {
      PopcountAllOnes(l - 1);
      assert (Pow2(l) - 1) / 2 == Pow2(l - 1) - 1;
    }
  }

  /** Every rotation of the all-one entry is itself. */
  lemma AllOnesFixed(l: nat, k: nat, top: nat)
    requires 1 <= l && k <= l && top == Pow2(l) - 1
    ensures RotateInt(l, top, k) == top
  {
    var ones := AllOnes(l);
    ToIntAllOnes(l);
    assert FromInt(l, top) == ones by {
      FromIntToInt(ones);
    }
    assert Rotate(ones, k) == ones by {
      RotateAt(ones, k);
    }
    RotateIntVector(l, top, k);
  }

  /** The all-zero and the all-one entries are representatives, of weight 0 and l. */
  lemma ExtremeRepresentatives(l: nat)
    ensures 0 in Representatives(l) && Pow2(l) - 1 in Representatives(l)
    ensures Popcount(Pow2(l) - 1) == l
  {
    RepresentativesMembers(l, 0);
    var top: nat := Pow2(l) - 1;
    forall k | 1 <= k < l
      ensures RotateInt(l, top, k) >= top
    {
      AllOnesFixed(l, k, top);
    }
    assert IsRepresentative(l, top);
    RepresentativesMembers(l, top);
    PopcountAllOnes(l);
  }

  /** The list starts with the all-zero entry. */
  lemma FirstRepresentative(l: nat)
    ensures |Representatives(l)| >= 1 && Representatives(l)[0] == 0
  {
    var R := Representatives(l);
    ExtremeRepresentatives(l);
    RepresentativesOrdered(l);
    var i :| 0 <= i < |R| && R[i] == 0;
    if i != 0 {
      PopcountZero(R[0]);
    }
  }

  // ---------------------------------------------------------------------
  // Inclusion (`vector_include`)
  // ---------------------------------------------------------------------

  /** `vector_include(v1, v2)`: every entry set in v2 is set in v1, checked
      over the length of v1. */
  method VectorInclude(v1: seq<bool>, v2: seq<bool>) returns (res: bool)
    requires |v2| >= |v1|
    ensures res <==> forall i :: 0 <= i < |v1| ==> (v2[i] ==> v1[i])
    ensures |v1| == |v2| ==> (res <==> Includes(v1, v2))
  {
    var i := 0;
    while i < |v1|
      invariant 0 <= i <= |v1|
      invariant forall j :: 0 <= j < i ==> (v2[j] ==> v1[j])
    {
      if !v1[i] && v2[i] {
        return false;
      }
      i := i + 1;
    }
    return true;
  }

  /** The two examples of the documentation. */
  lemma IncludeExamples()
    ensures Includes([true, true, true, false], [true, false, true, false])
    ensures !Includes([true, true, false, false], [true, false, true, false])
  {
    assert ![true, true, false, false][2] && [true, false, true, false][2];
  }

  /** Inclusion never adds ones, and with as many ones it is equality. */
  lemma {:induction false} IncludesWeight(a: seq<bool>, b: seq<bool>)
    requires |a| == |b| && Includes(a, b)
    ensures Weight(b) <= Weight(a)
    ensures Weight(b) == Weight(a) ==> a == b
  {
    if |a| > 0 {
      var n := |a|;
      IncludesWeight(a[..n - 1], b[..n - 1]);
      if Weight(b) == Weight(a) {
        assert a[..n - 1] == b[..n - 1];
        assert a == a[..n - 1] + [a[n - 1]] && b == b[..n - 1] + [b[n - 1]];
      }
    }
  }

  // ---------------------------------------------------------------------
  // The conversion matrices (`build_SANF_to_STT`, `build_STT_to_SWS`)
  // ---------------------------------------------------------------------

  /** Every vector of the list has length l. */
  predicate Uniform(vs: seq<seq<bool>>, l: nat)
  {
    forall i :: 0 <= i < |vs| ==> |vs[i]| == l
  }

  /** The parity of the number of vectors of ws that u includes. */
  function IncludedParity(ws: seq<seq<bool>>, u: seq<bool>): bool
    requires Uniform(ws, |u|)
  {
    if |ws| == 0 then false
    else IncludedParity(ws[..|ws| - 1], u) != Includes(u, ws[|ws| - 1])
  }

  /** The number of positions set in both a and b. */
  function Dot(a: seq<bool>, b: seq<bool>): nat
    requires |a| == |b|
  {
    if |a| == 0 then 0
    else Dot(a[..|a| - 1], b[..|b| - 1]) + (if a[|a| - 1] && b[|b| - 1] then 1 else 0)
  }

  /** The sum of (-1)^(u . w) over the vectors w of ws. */
  function CharacterSum(ws: seq<seq<bool>>, u: seq<bool>): int
    requires Uniform(ws, |u|)
  {
    if |ws| == 0 then 0
    else CharacterSum(ws[..|ws| - 1], u) + Toolbox.Chi(Dot(u, ws[|ws| - 1]))
  }

  lemma OrbitUniform(v: seq<bool>)
    requires |v| >= 1
    ensures Uniform(Orbit(v), |v|)
  {
  }

  /** Entry (i, j) of `build_SANF_to_STT`: the parity of the orbit members
      of reps[i] included in reps[j]. */
  function SanfToSttEntry(reps: seq<seq<bool>>, l: nat, i: nat, j: nat): bool
    requires l >= 1 && Uniform(reps, l) && i < |reps| && j < |reps|
  {
    OrbitUniform(reps[i]);
    IncludedParity(Orbit(reps[i]), reps[j])
  }

  /** Entry (i, j) of `build_STT_to_SWS`: the sum of (-1)^(reps[j] . w) over
      the orbit members w of reps[i]. */
  function SttToSwsEntry(reps: seq<seq<bool>>, l: nat, i: nat, j: nat): int
    requires l >= 1 && Uniform(reps, l) && i < |reps| && j < |reps|
  {
    OrbitUniform(reps[i]);
    CharacterSum(Orbit(reps[i]), reps[j])
  }

  /** Row i of `build_SANF_to_STT`, entry by entry. */
  predicate SanfToSttRowOk(reps: seq<seq<bool>>, l: nat, i: nat, row: seq<bool>)
    requires l >= 1 && Uniform(reps, l) && i < |reps|
  {
    |row| == |reps| && forall j :: 0 <= j < |reps| ==> row[j] == SanfToSttEntry(reps, l, i, j)
  }

  /** Row i of `build_STT_to_SWS`, entry by entry. */
  predicate SttToSwsRowOk(reps: seq<seq<bool>>, l: nat, i: nat, row: seq<int>)
    requires l >= 1 && Uniform(reps, l) && i < |reps|
  {
    |row| == |reps| && forall j :: 0 <= j < |reps| ==> row[j] == SttToSwsEntry(reps, l, i, j)
  }

  /** A square matrix of n rows. */
  predicate Square<T>(m: seq<seq<T>>, n: nat)
  {
    |m| == n && forall i :: 0 <= i < n ==> |m[i]| == n
  }

  /** The parity loop over an orbit: flip on every included member. */
  method OrbitParity(ws: seq<seq<bool>>, u: seq<bool>) returns (b: bool)
    requires Uniform(ws, |u|)
    ensures b == IncludedParity(ws, u)
  {
    b := false;
    var k := 0;
    while k < |ws|
      invariant 0 <= k <= |ws|
      invariant b == IncludedParity(ws[..k], u)
    {
      assert ws[..k + 1][..k] == ws[..k];
      var inc := VectorInclude(u, ws[k]);
      if inc {
        b := !b;
      }
      k := k + 1;
    }
    assert ws[..|ws|] == ws;
  }

  /** The character loop over an orbit. */
  method OrbitCharacters(ws: seq<seq<bool>>, u: seq<bool>) returns (c: int)
    requires Uniform(ws, |u|)
    ensures c == CharacterSum(ws, u)
  {
    c := 0;
    var k := 0;
    while k < |ws|
      invariant 0 <= k <= |ws|
      invariant c == CharacterSum(ws[..k], u)
    {
      assert ws[..k + 1][..k] == ws[..k];
      c := c + Toolbox.Chi(Dot(u, ws[k]));
      k := k + 1;
    }
    assert ws[..|ws|] == ws;
  }

  /** Row i of `build_SANF_to_STT(reps)`. */
  method SanfToSttRow(reps: seq<seq<bool>>, l: nat, i: nat) returns (row: seq<bool>)
    requires l >= 1 && Uniform(reps, l) && i < |reps|
    ensures SanfToSttRowOk(reps, l, i, row)
  {
    var orbit := VectorOrbit(reps[i]);
    OrbitUniform(reps[i]);
    row := [];
    var j := 0;
    while j < |reps|
      invariant 0 <= j <= |reps| && |row| == j
      invariant forall b :: 0 <= b < j ==> row[b] == SanfToSttEntry(reps, l, i, b)
    {
      var e := OrbitParity(orbit, reps[j]);
      row := row + [e];
      j := j + 1;
    }
  }

  /** Appending a correct row keeps every row correct. */
  lemma SanfToSttRowsAppend(reps: seq<seq<bool>>, l: nat, m: seq<seq<bool>>, row: seq<bool>)
    requires l >= 1 && Uniform(reps, l) && |m| < |reps|
    requires forall a :: 0 <= a < |m| ==> SanfToSttRowOk(reps, l, a, m[a])
    requires SanfToSttRowOk(reps, l, |m|, row)
    ensures forall a :: 0 <= a < |m| + 1 ==> SanfToSttRowOk(reps, l, a, (m + [row])[a])
  {
    forall a | 0 <= a < |m| + 1
      ensures SanfToSttRowOk(reps, l, a, (m + [row])[a])
    {
      if a < |m| {
        assert (m + [row])[a] == m[a];
      } else {
        assert (m + [row])[a] == row;
      }
    }
  }

  /** `build_SANF_to_STT(reps)`. */
  method BuildSanfToStt(reps: seq<seq<bool>>, l: nat) returns (m: seq<seq<bool>>)
    requires l >= 1 && Uniform(reps, l)
    ensures Square(m, |reps|)
    ensures forall i, j :: 0 <= i < |reps| && 0 <= j < |reps| ==> m[i][j] == SanfToSttEntry(reps, l, i, j)
  {
    m := [];
    var i := 0;
    while i < |reps|
      invariant 0 <= i <= |reps| && |m| == i
      invariant forall a :: 0 <= a < i ==> SanfToSttRowOk(reps, l, a, m[a])
    {
      var row := SanfToSttRow(reps, l, i);
      SanfToSttRowsAppend(reps, l, m, row);
      m := m + [row];
      i := i + 1;
    }
  }

  /** Row i of `build_STT_to_SWS(reps)`. */
  method SttToSwsRow(reps: seq<seq<bool>>, l: nat, i: nat) returns (row: seq<int>)
    requires l >= 1 && Uniform(reps, l) && i < |reps|
    ensures SttToSwsRowOk(reps, l, i, row)
  {
    var orbit := VectorOrbit(reps[i]);
    OrbitUniform(reps[i]);
    row := [];
    var j := 0;
    while j < |reps|
      invariant 0 <= j <= |reps| && |row| == j
      invariant forall b :: 0 <= b < j ==> row[b] == SttToSwsEntry(reps, l, i, b)
    {
      var e := OrbitCharacters(orbit, reps[j]);
      row := row + [e];
      j := j + 1;
    }
  }

  /** Appending a correct row keeps every row correct. */
  lemma SttToSwsRowsAppend(reps: seq<seq<bool>>, l: nat, m: seq<seq<int>>, row: seq<int>)
    requires l >= 1 && Uniform(reps, l) && |m| < |reps|
    requires forall a :: 0 <= a < |m| ==> SttToSwsRowOk(reps, l, a, m[a])
    requires SttToSwsRowOk(reps, l, |m|, row)
    ensures forall a :: 0 <= a < |m| + 1 ==> SttToSwsRowOk(reps, l, a, (m + [row])[a])
  {
    forall a | 0 <= a < |m| + 1
      ensures SttToSwsRowOk(reps, l, a, (m + [row])[a])
    {
      if a < |m| {
        assert (m + [row])[a] == m[a];
      } else {
        assert (m + [row])[a] == row;
      }
    }
  }

  /** `build_STT_to_SWS(reps)`. */
  method BuildSttToSws(reps: seq<seq<bool>>, l: nat) returns (m: seq<seq<int>>)
    requires l >= 1 && Uniform(reps, l)
    ensures Square(m, |reps|)
    ensures forall i, j :: 0 <= i < |reps| && 0 <= j < |reps| ==> m[i][j] == SttToSwsEntry(reps, l, i, j)
  {
    m := [];
    var i := 0;
    while i < |reps|
      invariant 0 <= i <= |reps| && |m| == i
      invariant forall a :: 0 <= a < i ==> SttToSwsRowOk(reps, l, a, m[a])
    {
      var row := SttToSwsRow(reps, l, i);
      SttToSwsRowsAppend(reps, l, m, row);
      m := m + [row];
      i := i + 1;
    }
  }

  /** A list none of whose members u includes has even parity. */
  lemma {:induction false} ParityNone(ws: seq<seq<bool>>, u: seq<bool>)
    requires Uniform(ws, |u|)
    requires forall m :: 0 <= m < |ws| ==> !Includes(u, ws[m])
    ensures !IncludedParity(ws, u)
  {
    if |ws| > 0 {
      ParityNone(ws[..|ws| - 1], u);
    }
  }

  /** A list exactly one of whose members u includes has odd parity. */
  lemma {:induction false} ParityUnique(ws: seq<seq<bool>>, u: seq<bool>, k: nat)
    requires Uniform(ws, |u|) && k < |ws| && Includes(u, ws[k])
    requires forall m :: 0 <= m < |ws| && m != k ==> !Includes(u, ws[m])
    ensures IncludedParity(ws, u)
  {
    var n := |ws|;
    if k == n - 1 {
      ParityNone(ws[..n - 1], u);
    } else {
      ParityUnique(ws[..n - 1], u, k);
    }
  }

  /** Every member of the orbit of v has the weight of v. */
  lemma OrbitWeight(v: seq<bool>, k: nat)
    requires |v| >= 1 && k < |Orbit(v)|
    ensures Weight(Orbit(v)[k]) == Weight(v)
  {
    RotateWeight(v, k);
  }

  /** `build_SANF_to_STT` is triangular for the weight order: an orbit
      heavier than rep_j has no member included in rep_j. */
  lemma SanfToSttTriangular(reps: seq<seq<bool>>, l: nat, i: nat, j: nat)
    requires l >= 1 && Uniform(reps, l) && i < |reps| && j < |reps|
    requires Weight(reps[i]) > Weight(reps[j])
    ensures !SanfToSttEntry(reps, l, i, j)
  {
    var o := Orbit(reps[i]);
    OrbitUniform(reps[i]);
    forall m | 0 <= m < |o|
      ensures !Includes(reps[j], o[m])
    {
      OrbitWeight(reps[i], m);
      if Includes(reps[j], o[m]) {
        IncludesWeight(reps[j], o[m]);
      }
    }
    ParityNone(o, reps[j]);
  }

  /** ... and its diagonal is all ones: rep_i is the only member of its
      orbit that it includes. */
  lemma SanfToSttDiagonal(reps: seq<seq<bool>>, l: nat, i: nat)
    requires l >= 1 && Uniform(reps, l) && i < |reps|
    ensures SanfToSttEntry(reps, l, i, i)
  {
    var v := reps[i];
    var o := Orbit(v);
    OrbitUniform(v);
    forall m | 0 <= m < |o| && m != 0
      ensures !Includes(v, o[m])
    {
      OrbitWeight(v, m);
      OrbitDistinct(v, 0, m);
      if Includes(v, o[m]) {
        IncludesWeight(v, o[m]);
      }
    }
    ParityUnique(o, v, 0);
  }

  /** The zero vector is alone in its orbit. */
  lemma ZeroOrbit(l: nat)
    requires l >= 1
    ensures Orbit(Zeros(l)) == [Zeros(l)]
  {
    var z := Zeros(l);
    assert Rotate(z, 1) == z;
  }

  /** Row 0 of `build_SANF_to_STT` is all ones when reps[0] is the zero
      vector: the zero vector is included in every vector. */
  lemma SanfToSttZeroRow(reps: seq<seq<bool>>, l: nat, j: nat)
    requires l >= 1 && Uniform(reps, l) && 0 < |reps| && j < |reps|
    requires reps[0] == Zeros(l)
    ensures SanfToSttEntry(reps, l, 0, j)
  {
    ZeroOrbit(l);
    ParityUnique(Orbit(Zeros(l)), reps[j], 0);
  }

  /** The entries of a character sum are at most the number of terms. */
  lemma {:induction false} CharacterSumBound(ws: seq<seq<bool>>, u: seq<bool>)
    requires Uniform(ws, |u|)
    ensures -|ws| <= CharacterSum(ws, u) <= |ws|
  {
    if |ws| > 0 {
      CharacterSumBound(ws[..|ws| - 1], u);
    }
  }

  lemma {:induction false} DotZeros(a: seq<bool>, b: seq<bool>)
    requires |a| == |b| && forall k :: 0 <= k < |a| ==> !a[k]
    ensures Dot(a, b) == 0
  {
    if |a| > 0 {
      DotZeros(a[..|a| - 1], b[..|b| - 1]);
    }
  }

  /** Against the zero vector every character is +1. */
  lemma {:induction false} CharacterSumZero(ws: seq<seq<bool>>, l: nat)
    requires Uniform(ws, l)
    ensures CharacterSum(ws, Zeros(l)) == |ws|
  {
    if |ws| > 0 {
      CharacterSumZero(ws[..|ws| - 1], l);
      DotZeros(Zeros(l), ws[|ws| - 1]);
    }
  }

  /** Column 0 of `build_STT_to_SWS` holds the orbit sizes when reps[0] is
      the zero vector, and no entry exceeds the orbit size in absolute value. */
  lemma SttToSwsColumns(reps: seq<seq<bool>>, l: nat, i: nat, j: nat)
    requires l >= 1 && Uniform(reps, l) && i < |reps| && j < |reps|
    ensures -|Orbit(reps[i])| <= SttToSwsEntry(reps, l, i, j) <= |Orbit(reps[i])|
    ensures reps[0] == Zeros(l) ==> SttToSwsEntry(reps, l, i, 0) == |Orbit(reps[i])|
  {
    OrbitUniform(reps[i]);
    CharacterSumBound(Orbit(reps[i]), reps[j]);
    CharacterSumZero(Orbit(reps[i]), l);
  }

  // ---------------------------------------------------------------------
  // Coverage between representatives (`representative_cover`)
  // ---------------------------------------------------------------------

  /** The l-bit vector of the representative of index i. */
  function RepVector(l: nat, i: nat): (v: seq<bool>)
    requires i < |Representatives(l)|
    ensures |v| == l
  {
    FromInt(l, Representatives(l)[i])
  }

  /** Some member of ws is included in u. */
  function AnyIncluded(ws: seq<seq<bool>>, u: seq<bool>): bool
    requires Uniform(ws, |u|)
  {
    |ws| > 0 && (AnyIncluded(ws[..|ws| - 1], u) || Includes(u, ws[|ws| - 1]))
  }

  lemma {:induction false} AnyIncludedSpec(ws: seq<seq<bool>>, u: seq<bool>)
    requires Uniform(ws, |u|)
    ensures AnyIncluded(ws, u) <==> exists m :: 0 <= m < |ws| && Includes(u, ws[m])
  {
    if |ws| > 0 {
      var n := |ws|;
      AnyIncludedSpec(ws[..n - 1], u);
      if exists m :: 0 <= m < n && Includes(u, ws[m]) {
        var m :| 0 <= m < n && Includes(u, ws[m]);
        if m < n - 1 {
          assert ws[..n - 1][m] == ws[m];
        }
      }
    }
  }

  /** `representative_cover(l, i, j)`, with the lookup table read as the
      function it caches. */
  function Cover(l: nat, i: nat, j: nat): bool
    requires l >= 1 && i < |Representatives(l)| && j < |Representatives(l)|
  {
    if i == j then true
    else if Weight(RepVector(l, i)) <= Weight(RepVector(l, j)) then false
    else
      OrbitUniform(RepVector(l, j));
      AnyIncluded(Orbit(RepVector(l, j)), RepVector(l, i))
  }

  /** Two distinct representatives are never rotations of each other. */
  lemma DistinctOrbits(l: nat, i: nat, j: nat, k: nat)
    requires l >= 1 && i < |Representatives(l)| && j < |Representatives(l)| && i != j && k <= l
    ensures Rotate(RepVector(l, j), k) != RepVector(l, i)
  {
    var R := Representatives(l);
    if Rotate(RepVector(l, j), k) == RepVector(l, i) {
      RepresentativesMembers(l, R[i]);
      RepresentativesMembers(l, R[j]);
      SameOrbitVectors(l, R[j], R[i]);
      RepresentativeUnique(l, R[j], R[i]);
      RepresentativesOrdered(l);
      assert false;
    }
  }

  /** A representative never includes a rotation of another representative
      at least as heavy: inclusion at equal weight is equality. */
  lemma NoCoverUpward(l: nat, i: nat, j: nat, k: nat)
    requires l >= 1 && i < |Representatives(l)| && j < |Representatives(l)| && i != j && k <= l
    requires Weight(RepVector(l, i)) <= Weight(RepVector(l, j))
    ensures !Includes(RepVector(l, i), Rotate(RepVector(l, j), k))
  {
    var w := Rotate(RepVector(l, j), k);
    RotateWeight(RepVector(l, j), k);
    DistinctOrbits(l, i, j, k);
    if Includes(RepVector(l, i), w) {
      IncludesWeight(RepVector(l, i), w);
    }
  }

  /** Some member of the orbit of v is included in u iff some rotation of v
      is. */
  lemma AnyRotationIncluded(u: seq<bool>, v: seq<bool>)
    requires 1 <= |v| == |u|
    ensures AnyIncluded(Orbit(v), u) <==> exists k :: 0 <= k <= |v| && Includes(u, Rotate(v, k))
  {
    OrbitUniform(v);
    var o := Orbit(v);
    AnyIncludedSpec(o, u);
    if exists k :: 0 <= k <= |v| && Includes(u, Rotate(v, k)) {
      var k :| 0 <= k <= |v| && Includes(u, Rotate(v, k));
      OrbitComplete(v, k);
      var m :| 0 <= m < |o| && o[m] == Rotate(v, k);
      assert Includes(u, o[m]);
    }
    if AnyIncluded(o, u) {
      var m :| 0 <= m < |o| && Includes(u, o[m]);
      assert Includes(u, Rotate(v, m));
    }
  }

  /** The table is exact whatever branch fills it: rep_i covers rep_j iff
      rep_i includes some rotation of rep_j. */
  lemma CoverExact(l: nat, i: nat, j: nat)
    requires l >= 1 && i < |Representatives(l)| && j < |Representatives(l)|
    ensures Cover(l, i, j) <==> exists k :: 0 <= k <= l && Includes(RepVector(l, i), Rotate(RepVector(l, j), k))
  {
    var vi, vj := RepVector(l, i), RepVector(l, j);
    if i == j {
      RotateNone(vj);
      assert Includes(vi, Rotate(vj, 0));
    } else if Weight(vi) <= Weight(vj) {
      forall k | 0 <= k <= l
        ensures !Includes(vi, Rotate(vj, k))
      {
        NoCoverUpward(l, i, j, k);
      }
    } else {
      AnyRotationIncluded(vi, vj);
    }
  }

  // ---------------------------------------------------------------------
  // Distance between orbits (`representative_distance`)
  // ---------------------------------------------------------------------

  /** Hamming distance between a and the first |a| entries of b. */
  function Hamming(a: seq<bool>, b: seq<bool>): (d: nat)
    requires |a| <= |b|
    ensures d <= |a|
  {
    if |a| == 0 then 0
    else Hamming(a[..|a| - 1], b) + (if a[|a| - 1] != b[|a| - 1] then 1 else 0)
  }

  lemma {:induction false} HammingZero(a: seq<bool>, b: seq<bool>)
    requires |a| <= |b|
    ensures Hamming(a, b) == 0 <==> a == b[..|a|]
  {
    if |a| > 0 {
      var n := |a|;
      HammingZero(a[..n - 1], b);
      assert b[..n][..n - 1] == b[..n - 1];
      if a == b[..n] {
        assert a[..n - 1] == b[..n - 1];
      }
      if Hamming(a, b) == 0 {
        assert a == a[..n - 1] + [a[n - 1]];
        assert b[..n] == b[..n - 1] + [b[n - 1]];
      }
    }
  }

  /** The running minimum of `representative_distance`. */
  function MinDistance(ws: seq<seq<bool>>, u: seq<bool>, d: nat): nat
    requires forall m :: 0 <= m < |ws| ==> |ws[m]| <= |u|
  {
    if |ws| == 0 then d
    else
      var prev := MinDistance(ws[..|ws| - 1], u, d);
      var h := Hamming(ws[|ws| - 1], u);
      if h < prev then h else prev
  }

  lemma {:induction false} MinDistanceSpec(ws: seq<seq<bool>>, u: seq<bool>, d: nat)
    requires forall m :: 0 <= m < |ws| ==> |ws[m]| <= |u|
    ensures MinDistance(ws, u, d) <= d
    ensures forall m :: 0 <= m < |ws| ==> MinDistance(ws, u, d) <= Hamming(ws[m], u)
    ensures MinDistance(ws, u, d) == d || exists m :: 0 <= m < |ws| && MinDistance(ws, u, d) == Hamming(ws[m], u)
  {
    if |ws| > 0 {
      var n := |ws|;
      MinDistanceSpec(ws[..n - 1], u, d);
      assert forall m :: 0 <= m < n - 1 ==> ws[..n - 1][m] == ws[m];
    }
  }

  /** `representative_distance(r1, r2)`: the least Hamming distance between
      r2 and a rotation of r1, starting from |r1|. */
  function RepresentativeDistance(r1: seq<bool>, r2: seq<bool>): nat
    requires 1 <= |r1| <= |r2|
  {
    MinDistance(Orbit(r1), r2, |r1|)
  }

  /** The distance is at most |r1|, at most the distance of every rotation,
      and attained by one; it is 0 exactly when a rotation of r1 is the head
      of r2. */
  lemma DistanceSpec(r1: seq<bool>, r2: seq<bool>)
    requires 1 <= |r1| <= |r2|
    ensures RepresentativeDistance(r1, r2) <= |r1|
    ensures forall k :: 0 <= k <= |r1| ==> RepresentativeDistance(r1, r2) <= Hamming(Rotate(r1, k), r2)
    ensures exists k :: 0 <= k <= |r1| && RepresentativeDistance(r1, r2) == Hamming(Rotate(r1, k), r2)
    ensures RepresentativeDistance(r1, r2) == 0 <==> IsRotation(r1, r2[..|r1|])
  {
    DistanceBelow(r1, r2);
    var m := DistanceAttained(r1, r2);
    if RepresentativeDistance(r1, r2) == 0 {
      HammingZero(Rotate(r1, m), r2);
    }
    if IsRotation(r1, r2[..|r1|]) {
      var k :| 0 <= k <= |r1| && Rotate(r1, k) == r2[..|r1|];
      HammingZero(Rotate(r1, k), r2);
    }
  }

  /** The distance is at most that of every rotation of r1. */
  lemma DistanceBelow(r1: seq<bool>, r2: seq<bool>)
    requires 1 <= |r1| <= |r2|
    ensures RepresentativeDistance(r1, r2) <= |r1|
    ensures forall k :: 0 <= k <= |r1| ==> RepresentativeDistance(r1, r2) <= Hamming(Rotate(r1, k), r2)
  {
    var o := Orbit(r1);
    MinDistanceSpec(o, r2, |r1|);
    forall k | 0 <= k <= |r1|
      ensures RepresentativeDistance(r1, r2) <= Hamming(Rotate(r1, k), r2)
    {
      OrbitComplete(r1, k);
    }
  }

  /** The distance is that of some rotation of r1. */
  lemma DistanceAttained(r1: seq<bool>, r2: seq<bool>) returns (m: nat)
    requires 1 <= |r1| <= |r2|
    ensures m <= |r1| && RepresentativeDistance(r1, r2) == Hamming(Rotate(r1, m), r2)
  {
    var o := Orbit(r1);
    var d := RepresentativeDistance(r1, r2);
    MinDistanceSpec(o, r2, |r1|);
    if d == |r1| {
      assert d <= Hamming(o[0], r2) <= |r1|;
      m := 0;
    } else {
      m :| 0 <= m < |o| && d == Hamming(o[m], r2);
    }
  }
}
