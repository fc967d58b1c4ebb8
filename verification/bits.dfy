/*
 * Bit-level vocabulary shared by every part of the model.
 *
 * Points of the domain and monomials are natural numbers below 2^l; the i-th
 * variable of an l-bit input vector is its i-th entry counted from the most
 * significant end (the repository's convention for truth tables and for
 * `bool_list_to_integer`). The integer operations are defined by recursion on
 * the least significant bit, the way the repository computes weights
 * (`while x != 0: deg += x % 2; x >>= 1`).
 */
module Bits {

  /** A value, or none where the repository fails or returns `None`. */
  datatype Option<T> = None | Some(value: T)

  /** 2^k */
  function Pow2(k: nat): (r: nat)
    ensures r >= 1
  {
    if k == 0 then 1 else 2 * Pow2(k - 1)
  }

  lemma Pow2Add(a: nat, b: nat)
    ensures Pow2(a + b) == Pow2(a) * Pow2(b)
  {
    if a > 0 {
      Pow2Add(a - 1, b);
    }
  }

  lemma Pow2Mono(a: nat, b: nat)
    requires a <= b
    ensures Pow2(a) <= Pow2(b)
  {
    if a < b {
      Pow2Mono(a, b - 1);
    }
  }

  /** Hamming weight of x. */
  function Popcount(x: nat): nat
  {
    if x == 0 then 0 else x % 2 + Popcount(x / 2)
  }

  /** Every bit set in m is set in x: the test `x & m == m`. */
  predicate Covers(x: nat, m: nat)
    decreases m
  {
    m == 0 || ((m % 2 == 1 ==> x % 2 == 1) && Covers(x / 2, m / 2))
  }

  /** Hamming weight of `x & u`. */
  function AndPop(x: nat, u: nat): nat
    decreases x
  {
    if x == 0 || u == 0 then 0
    else (if x % 2 == 1 && u % 2 == 1 then 1 else 0) + AndPop(x / 2, u / 2)
  }

  /** Bitwise exclusive or `a ^ b`. */
  function Xor(a: nat, b: nat): nat
    decreases a + b
  {
    if a == 0 && b == 0 then 0
    else 2 * Xor(a / 2, b / 2) + (if a % 2 != b % 2 then 1 else 0)
  }

  /** Bit k of x (counted from the least significant end): `x & (1 << k) != 0`. */
  predicate BitAt(x: nat, k: nat)
  {
    if k == 0 then x % 2 == 1 else BitAt(x / 2, k - 1)
  }

  /** A point of the domain read MSB-first, as the repository's `bool_list_to_integer`. */
  function ToInt(v: seq<bool>): (r: nat)
    ensures r < Pow2(|v|)
  {
    if |v| == 0 then 0
    else 2 * ToInt(v[..|v| - 1]) + (if v[|v| - 1] then 1 else 0)
  }

  /** Appending a bit doubles the value and adds the bit. */
  lemma ToIntSnoc(p: seq<bool>, b: bool)
    ensures ToInt(p + [b]) == 2 * ToInt(p) + (if b then 1 else 0)
  {
    assert (p + [b])[..|p|] == p;
  }

  /** The n-bit MSB-first vector of x. */
  function FromInt(n: nat, x: nat): (r: seq<bool>)
    ensures |r| == n
  {
    if n == 0 then [] else FromInt(n - 1, x / 2) + [x % 2 == 1]
  }

  /** Number of entries that are set, the repository's `sum(v)`. */
  function Weight(v: seq<bool>): nat
  {
    if |v| == 0 then 0 else Weight(v[..|v| - 1]) + (if v[|v| - 1] then 1 else 0)
  }

  /** The positions that are set. */
  ghost function Ones(v: seq<bool>): set<nat>
  {
    set i: nat | i < |v| && v[i]
  }

  lemma {:induction false} WeightOnes(v: seq<bool>)
    ensures Weight(v) == |Ones(v)|
  {
    if |v| > 0 {
      var k := |v| - 1;
      WeightOnes(v[..k]);
      assert Ones(v) == Ones(v[..k]) + (if v[k] then {k} else {});
      assert k !in Ones(v[..k]);
    }
  }

  function AllOnes(n: nat): (r: seq<bool>)
    ensures |r| == n && forall i :: 0 <= i < n ==> r[i]
  {
    seq(n, i => true)
  }

  function Zeros(n: nat): (r: seq<bool>)
    ensures |r| == n && forall i :: 0 <= i < n ==> !r[i]
  {
    seq(n, i => false)
  }

  /** Bitwise inclusion of two vectors: v2 has no entry set where v1 is clear. */
  predicate Includes(v1: seq<bool>, v2: seq<bool>)
    requires |v1| == |v2|
  {
    forall i :: 0 <= i < |v1| ==> (v2[i] ==> v1[i])
  }

  /** Position of the first one of c, or |c| when c is zero. */
  function FirstOne(c: seq<bool>): (p: nat)
    ensures p <= |c|
    ensures forall j :: 0 <= j < p ==> !c[j]
    ensures p < |c| ==> c[p]
  {
    if |c| == 0 then 0
    else if c[0] then 0
    else 1 + FirstOne(c[1..])
  }

  // ---------------------------------------------------------------------
  // Conversions between the vector and the integer views
  // ---------------------------------------------------------------------

  lemma {:induction false} ToIntFromInt(n: nat, x: nat)
    requires x < Pow2(n)
    ensures ToInt(FromInt(n, x)) == x
  {
    if n > 0 {
      var v := FromInt(n, x);
      assert v[..n - 1] == FromInt(n - 1, x / 2);
      ToIntFromInt(n - 1, x / 2);
    }
  }

  lemma {:induction false} FromIntToInt(v: seq<bool>)
    ensures FromInt(|v|, ToInt(v)) == v
  {
    if |v| > 0 {
      var p := v[..|v| - 1];
      FromIntToInt(p);
      assert (2 * ToInt(p) + (if v[|v| - 1] then 1 else 0)) / 2 == ToInt(p);
      assert v == p + [v[|v| - 1]];
    }
  }

  /** ToInt is injective on vectors of one length. */
  lemma ToIntInjective(a: seq<bool>, b: seq<bool>)
    requires |a| == |b| && ToInt(a) == ToInt(b)
    ensures a == b
  {
    FromIntToInt(a);
    FromIntToInt(b);
  }

  lemma {:induction false} WeightIsPopcount(v: seq<bool>)
    ensures Popcount(ToInt(v)) == Weight(v)
  {
    if |v| > 0 {
      WeightIsPopcount(v[..|v| - 1]);
    }
  }

  lemma PopcountFromInt(n: nat, x: nat)
    requires x < Pow2(n)
    ensures Weight(FromInt(n, x)) == Popcount(x)
  {
    WeightIsPopcount(FromInt(n, x));
    ToIntFromInt(n, x);
  }

  /** Two numbers below 2^n with the same n bits are equal. */
  lemma SameBits(n: nat, a: nat, b: nat)
    requires a < Pow2(n) && b < Pow2(n)
    requires forall i :: 0 <= i < n ==> FromInt(n, a)[i] == FromInt(n, b)[i]
    ensures a == b
  {
    assert FromInt(n, a) == FromInt(n, b);
    ToIntFromInt(n, a);
    ToIntFromInt(n, b);
  }

  lemma {:induction false} FromIntBit(n: nat, x: nat, j: nat)
    requires j < n
    ensures FromInt(n, x)[j] == BitAt(x, n - 1 - j)
  {
    if j < n - 1 {
      FromIntBit(n - 1, x / 2, j);
    }
  }

  /** The first entry of an MSB-first vector is its top bit. */
  lemma {:induction false} ToIntHead(v: seq<bool>)
    requires |v| > 0
    ensures ToInt(v) == (if v[0] then Pow2(|v| - 1) else 0) + ToInt(v[1..])
  {
    if |v| > 1 {
      var p := v[..|v| - 1];
      ToIntHead(p);
      assert p[1..] == v[1..][..|v| - 2];
    }
  }

  lemma {:induction false} IncludesIsCovers(v1: seq<bool>, v2: seq<bool>)
    requires |v1| == |v2|
    ensures Includes(v1, v2) <==> Covers(ToInt(v1), ToInt(v2))
  {
    if |v1| > 0 {
      var n := |v1|;
      IncludesIsCovers(v1[..n - 1], v2[..n - 1]);
      assert ToInt(v1) / 2 == ToInt(v1[..n - 1]);
      assert ToInt(v2) / 2 == ToInt(v2[..n - 1]);
      if Includes(v1, v2) {
        assert Includes(v1[..n - 1], v2[..n - 1]);
      }
      if Covers(ToInt(v1), ToInt(v2)) && ToInt(v2) != 0 {
        assert Includes(v1[..n - 1], v2[..n - 1]);
      }
      if ToInt(v2) == 0 {
        ZeroVector(v2);
      }
    }
  }

  lemma {:induction false} ZeroVector(v: seq<bool>)
    requires ToInt(v) == 0
    ensures forall i :: 0 <= i < |v| ==> !v[i]
  {
    if |v| > 0 {
      ZeroVector(v[..|v| - 1]);
    }
  }

  lemma {:induction false} ToIntZeros(n: nat)
    ensures ToInt(Zeros(n)) == 0
  {
    if n > 0 {
      assert Zeros(n)[..n - 1] == Zeros(n - 1);
      ToIntZeros(n - 1);
    }
  }

  lemma {:induction false} ToIntAllOnes(n: nat)
    ensures ToInt(AllOnes(n)) == Pow2(n) - 1
  {
    if n > 0 {
      assert AllOnes(n)[..n - 1] == AllOnes(n - 1);
      ToIntAllOnes(n - 1);
    }
  }

  // ---------------------------------------------------------------------
  // Facts about the integer operations
  // ---------------------------------------------------------------------

  /** A covered monomial is numerically no larger than the point covering it. */
  lemma {:induction false} CoversLe(x: nat, m: nat)
    requires Covers(x, m)
    ensures m <= x
  {
    if m != 0 {
      CoversLe(x / 2, m / 2);
    }
  }

  lemma {:induction false} CoversRefl(x: nat)
    ensures Covers(x, x)
  {
    if x != 0 {
      CoversRefl(x / 2);
    }
  }

  lemma {:induction false} PopcountBound(n: nat, x: nat)
    requires x < Pow2(n)
    ensures Popcount(x) <= n
  {
    if n > 0 && x > 0 {
      PopcountBound(n - 1, x / 2);
    }
  }

  lemma {:induction false} XorBound(n: nat, a: nat, b: nat)
    requires a < Pow2(n) && b < Pow2(n)
    ensures Xor(a, b) < Pow2(n)
    decreases n
  {
    if n > 0 && !(a == 0 && b == 0) {
      XorBound(n - 1, a / 2, b / 2);
    }
  }

  lemma {:induction false} XorCancel(a: nat, b: nat)
    ensures Xor(a, Xor(a, b)) == b
    decreases a + b
  {
    if !(a == 0 && b == 0) {
      XorCancel(a / 2, b / 2);
      var c := Xor(a, b);
      assert c / 2 == Xor(a / 2, b / 2);
      assert c % 2 == (if a % 2 != b % 2 then 1 else 0);
    }
  }

  /* Splitting at the top bit: with h = 2^(l-1) and x, u below h, the
     number h + x is x with its l-th bit set. These are the facts the
     butterfly transforms rest on. */

  /** Halving a number below 2^l whose top bit is set drops that bit one place. */
  lemma HalfTop(l: nat, x: nat)
    requires l > 1 && x < Pow2(l - 1)
    ensures (Pow2(l - 1) + x) / 2 == Pow2(l - 2) + x / 2
    ensures (Pow2(l - 1) + x) % 2 == x % 2
    ensures x / 2 < Pow2(l - 2)
  {
    assert Pow2(l - 1) == 2 * Pow2(l - 2);
  }

  lemma {:induction false} PopcountTop(l: nat, x: nat)
    requires l >= 1 && x < Pow2(l - 1)
    ensures Popcount(Pow2(l - 1) + x) == 1 + Popcount(x)
  {
    var h := Pow2(l - 1);
    if l > 1 {
      HalfTop(l, x);
      PopcountTop(l - 1, x / 2);
      assert Popcount(h + x) == x % 2 + Popcount(Pow2(l - 2) + x / 2);
      assert Popcount(x) == x % 2 + Popcount(x / 2);
    } else {
      assert h + x == 1;
    }
  }

  lemma {:induction false} CoversTop(l: nat, x: nat, m: nat)
    requires l >= 1 && x < Pow2(l - 1) && m < Pow2(l - 1)
    ensures Covers(Pow2(l - 1) + x, Pow2(l - 1) + m) == Covers(x, m)
    ensures Covers(Pow2(l - 1) + x, m) == Covers(x, m)
    ensures !Covers(x, Pow2(l - 1) + m)
  {
    var h := Pow2(l - 1);
    if l > 1 {
      CoversTop(l - 1, x / 2, m / 2);
      assert (h + x) / 2 == Pow2(l - 2) + x / 2;
      assert (h + m) / 2 == Pow2(l - 2) + m / 2;
    } else {
      assert x == 0 && m == 0;
      assert !Covers(0, 1);
    }
  }

  lemma {:induction false} AndPopTop(l: nat, x: nat, u: nat)
    requires l >= 1 && x < Pow2(l - 1) && u < Pow2(l - 1)
    ensures AndPop(Pow2(l - 1) + x, Pow2(l - 1) + u) == 1 + AndPop(x, u)
    ensures AndPop(Pow2(l - 1) + x, u) == AndPop(x, u)
    ensures AndPop(x, Pow2(l - 1) + u) == AndPop(x, u)
  {
    var h := Pow2(l - 1);
    if l > 1 {
      HalfTop(l, x);
      HalfTop(l, u);
      AndPopTop(l - 1, x / 2, u / 2);
    }
  }

  lemma {:induction false} XorTop(l: nat, a: nat, b: nat)
    requires l >= 1 && a < Pow2(l - 1) && b < Pow2(l - 1)
    ensures Xor(Pow2(l - 1) + a, b) == Pow2(l - 1) + Xor(a, b)
  {
    var h := Pow2(l - 1);
    if l > 1 {
      XorTop(l - 1, a / 2, b / 2);
      assert (h + a) / 2 == Pow2(l - 2) + a / 2;
    }
  }
}
