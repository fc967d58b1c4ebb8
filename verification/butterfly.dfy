/*
 * The butterfly shared by `Walsh_transform` and `Moebius_transform`
 * (toolbox.py): l passes over a length-2^l table, the pass with block size
 * 2d combining entry e with entry e + d in every block. The two transforms
 * differ only in how a pair is combined, so the pair operation is a parameter.
 *
 * `Fast` is the recursive reading of the same computation: the first pass
 * (d = 2^(l-1)) followed by the transform of each half. `Transform` is the
 * repository's triple loop, proved to compute `Fast`.
 */
module Butterfly {
  import opened Bits

  /** One pass on a block of 2d entries: entry e < d is combined with e + d. */
  function Level<T>(op: (T, T) -> (T, T), b: seq<T>, d: nat): (r: seq<T>)
    requires |b| == 2 * d
    ensures |r| == 2 * d
  {
    seq(2 * d, i requires 0 <= i < 2 * d =>
      if i < d then op(b[i], b[i + d]).0 else op(b[i - d], b[i]).1)
  }

  /** A pass on one block after its first t pairs have been combined. */
  function PartialLevel<T>(op: (T, T) -> (T, T), b: seq<T>, d: nat, t: nat): (r: seq<T>)
    requires |b| == 2 * d && t <= d
    ensures |r| == 2 * d
  {
    seq(2 * d, i requires 0 <= i < 2 * d =>
      if i < t then op(b[i], b[i + d]).0
      else if d <= i < d + t then op(b[i - d], b[i]).1
      else b[i])
  }

  /** The transform of a table of length 2^k, first pass first. */
  function Fast<T>(op: (T, T) -> (T, T), f: seq<T>, k: nat): (r: seq<T>)
    requires |f| == Pow2(k)
    ensures |r| == Pow2(k)
    decreases k
  {
    if k == 0 then f
    else
      var h := Pow2(k - 1);
      var g := Level(op, f, h);
      Fast(op, g[..h], k - 1) + Fast(op, g[h..], k - 1)
  }

  /** One pass of block size 2d over c consecutive blocks. */
  function Stage<T>(op: (T, T) -> (T, T), F: seq<T>, d: nat, c: nat): (r: seq<T>)
    requires |F| == c * (2 * d)
    ensures |r| == |F|
    decreases c
  {
    if c == 0 then []
    else
      var m := (c - 1) * (2 * d);
      MulPred(c, 2 * d);
      Stage(op, F[..m], d, c - 1) + Level(op, F[m..], d)
  }

  /** The transform applied separately to c consecutive blocks of length 2^k. */
  function Blocks<T>(op: (T, T) -> (T, T), F: seq<T>, k: nat, c: nat): (r: seq<T>)
    requires |F| == c * Pow2(k)
    ensures |r| == |F|
    decreases c
  {
    if c == 0 then []
    else
      var m := (c - 1) * Pow2(k);
      MulPred(c, Pow2(k));
      Blocks(op, F[..m], k, c - 1) + Fast(op, F[m..], k)
  }

  lemma LevelDone<T>(op: (T, T) -> (T, T), b: seq<T>, d: nat)
    requires |b| == 2 * d
    ensures PartialLevel(op, b, d, d) == Level(op, b, d)
  {
  }

  lemma {:induction false} BlocksSnoc<T>(op: (T, T) -> (T, T), X: seq<T>, Y: seq<T>, k: nat, c: nat)
    requires |X| == c * Pow2(k) && |Y| == Pow2(k)
    ensures |X + Y| == (c + 1) * Pow2(k)
    ensures Blocks(op, X + Y, k, c + 1) == Blocks(op, X, k, c) + Fast(op, Y, k)
  {
    MulPred(c + 1, Pow2(k));
    assert (X + Y)[..c * Pow2(k)] == X;
    assert (X + Y)[c * Pow2(k)..] == Y;
  }

  lemma {:induction false} StageSnoc<T>(op: (T, T) -> (T, T), X: seq<T>, Y: seq<T>, d: nat, c: nat)
    requires |X| == c * (2 * d) && |Y| == 2 * d
    ensures |X + Y| == (c + 1) * (2 * d)
    ensures Stage(op, X + Y, d, c + 1) == Stage(op, X, d, c) + Level(op, Y, d)
  {
    MulPred(c + 1, 2 * d);
    assert (X + Y)[..c * (2 * d)] == X;
    assert (X + Y)[c * (2 * d)..] == Y;
  }

  lemma DoubleCount(c: nat, h: nat)
    requires c >= 1
    ensures (c - 1) * (2 * h) == (2 * c - 2) * h
    ensures (2 * c - 2) * h + h == (2 * c - 1) * h
  {
  }

  /** Appending one pass output L of size 2h to S adds the transforms of L's two halves. */
  lemma {:induction false} BlocksSnocPair<T>(op: (T, T) -> (T, T), S: seq<T>, L: seq<T>, k: nat, c: nat)
    requires k >= 1 && c >= 1 && |S| == (2 * c - 2) * Pow2(k - 1) && |L| == 2 * Pow2(k - 1)
    ensures |S + L| == (2 * c) * Pow2(k - 1)
    ensures Blocks(op, S + L, k - 1, 2 * c)
            == Blocks(op, S, k - 1, 2 * c - 2) + (Fast(op, L[..Pow2(k - 1)], k - 1) + Fast(op, L[Pow2(k - 1)..], k - 1))
  {
    var h := Pow2(k - 1);
    DoubleCount(c, h);
    assert S + L == (S + L[..h]) + L[h..];
    BlocksSnoc(op, S + L[..h], L[h..], k - 1, 2 * c - 1);
    BlocksSnoc(op, S, L[..h], k - 1, 2 * c - 2);
  }

  /** A pass of block size 2^k followed by the per-block transforms of size
      2^(k-1) is the per-block transform of size 2^k. */
  lemma {:induction false} StageBlocks<T>(op: (T, T) -> (T, T), F: seq<T>, k: nat, c: nat)
    requires k >= 1 && |F| == c * Pow2(k)
    ensures Blocks(op, Stage(op, F, Pow2(k - 1), c), k - 1, 2 * c) == Blocks(op, F, k, c)
    decreases c
  {
    var h := Pow2(k - 1);
    if c > 0 {
      assert Pow2(k) == 2 * h;
      MulPred(c, 2 * h);
      DoubleCount(c, h);
      var m := (c - 1) * (2 * h);
      var A := F[..m];
      var B := F[m..];
      assert F == A + B;
      StageSnoc(op, A, B, h, c - 1);
      var S := Stage(op, A, h, c - 1);
      var L := Level(op, B, h);
      StageBlocks(op, A, k, c - 1);
      BlocksSnocPair(op, S, L, k, c);
      assert Fast(op, B, k) == Fast(op, L[..h], k - 1) + Fast(op, L[h..], k - 1);
      BlocksSnoc(op, A, B, k, c - 1);
    }
  }

  /** Transforms of size 1 are the identity. */
  lemma {:induction false} BlocksOfOne<T>(op: (T, T) -> (T, T), F: seq<T>)
    ensures Blocks(op, F, 0, |F|) == F
  {
    if |F| > 0 {
      BlocksOfOne(op, F[..|F| - 1]);
      assert F == F[..|F| - 1] + F[|F| - 1..];
    }
  }

  lemma MulPred(c: nat, p: nat)
    requires c >= 1
    ensures (c - 1) * p + p == c * p
  {
  }

  lemma CountStep(c: nat, blocks: nat, size: nat, pos: nat, n: nat)
    requires size > 0 && pos == c * size && n == blocks * size && pos < n
    ensures c + 1 <= blocks && pos + size == (c + 1) * size && pos + size <= n
  {
    if c >= blocks {
      MulLe(blocks, c, size);
    }
    MulLe(c + 1, blocks, size);
  }

  lemma CountEnd(c: nat, blocks: nat, size: nat, pos: nat, n: nat)
    requires size > 0 && pos == c * size && n == blocks * size && pos >= n && c <= blocks
    ensures c == blocks && pos == n
  {
    if c < blocks {
      MulLe(c + 1, blocks, size);
    }
  }

  lemma MulLe(a: nat, b: nat, d: nat)
    requires a <= b
    ensures a * d <= b * d
  {
  }

  /** The entries that one more combined pair changes in a partial pass. */
  lemma PartialLevelStep<T>(op: (T, T) -> (T, T), b: seq<T>, d: nat, t: nat, i: nat)
    requires |b| == 2 * d && t < d && i < 2 * d
    ensures PartialLevel(op, b, d, t + 1)[i]
            == if i == t then op(b[t], b[t + d]).0
               else if i == t + d then op(b[t], b[t + d]).1
               else PartialLevel(op, b, d, t)[i]
  {
  }

  /** Combining the pair (e, e + d) of a block advances its partial pass by one. */
  lemma PairStep<T>(op: (T, T) -> (T, T), F: seq<T>, b: seq<T>, lo: nat, d: nat, e: nat)
    requires lo <= e < lo + d && lo + 2 * d <= |F|
    requires |b| == 2 * d
    requires F[lo..lo + 2 * d] == PartialLevel(op, b, d, e - lo)
    ensures F[e] == b[e - lo] && F[e + d] == b[e - lo + d]
    ensures var G := F[e := op(F[e], F[e + d]).0][e + d := op(F[e], F[e + d]).1];
      && |G| == |F|
      && G[..lo] == F[..lo]
      && G[lo + 2 * d..] == F[lo + 2 * d..]
      && G[lo..lo + 2 * d] == PartialLevel(op, b, d, e - lo + 1)
  {
    var t := e - lo;
    var hi := lo + 2 * d;
    assert F[e] == F[lo..hi][t];
    assert F[e + d] == F[lo..hi][t + d];
    var G := F[e := op(F[e], F[e + d]).0][e + d := op(F[e], F[e + d]).1];
    forall i | 0 <= i < 2 * d
      ensures G[lo..hi][i] == PartialLevel(op, b, d, t + 1)[i]
    {
      PartialLevelStep(op, b, d, t, i);
      assert G[lo..hi][i] == G[lo + i];
      if i != t && i != t + d {
        assert G[lo + i] == F[lo..hi][i];
      }
    }
    assert G[lo..hi] == PartialLevel(op, b, d, t + 1);
    assert G[..lo] == F[..lo];
    assert G[hi..] == F[hi..];
  }

  lemma PassDone<T>(op: (T, T) -> (T, T), F0: seq<T>, F: seq<T>, k: nat, blocks: nat)
    requires k >= 1 && |F0| == blocks * Pow2(k)
    requires |F0| == blocks * (2 * Pow2(k - 1))
    requires F == Stage(op, F0, Pow2(k - 1), blocks)
    ensures |F| == (2 * blocks) * Pow2(k - 1)
    ensures Blocks(op, F, k - 1, 2 * blocks) == Blocks(op, F0, k, blocks)
  {
    assert |F| == (2 * blocks) * Pow2(k - 1) by {
      DoubleBlocks(blocks, Pow2(k - 1));
    }
    StageBlocks(op, F0, k, blocks);
  }

  lemma DoubleBlocks(c: nat, h: nat)
    ensures c * (2 * h) == (2 * c) * h
  {
  }

  /** The inner loop of a pass, `for entry in range(conquer, conquer + offset)`:
      combines the pairs of the block at lo and leaves the rest of F alone. */
  method CombineBlock<T>(op: (T, T) -> (T, T), F0: seq<T>, lo: nat, d: nat, ghost b: seq<T>) returns (F: seq<T>)
    requires lo + 2 * d <= |F0| && |b| == 2 * d
    requires F0[lo..lo + 2 * d] == b
    ensures |F| == |F0|
    ensures F[..lo] == F0[..lo] && F[lo + 2 * d..] == F0[lo + 2 * d..]
    ensures F[lo..lo + 2 * d] == Level(op, b, d)
  {
    F := F0;
    var hi := lo + 2 * d;
    assert F[lo..hi] == PartialLevel(op, b, d, 0);
    var entry := lo;
    while entry < lo + d
      invariant lo <= entry <= lo + d && |F| == |F0|
      invariant F[..lo] == F0[..lo] && F[hi..] == F0[hi..]
      invariant F[lo..hi] == PartialLevel(op, b, d, entry - lo)
    {
      ghost var Fold := F;
      var pair := op(F[entry], F[entry + d]);
      F := F[entry := pair.0][entry + d := pair.1];
      PairStep(op, Fold, b, lo, d, entry);
      entry := entry + 1;
    }
    LevelDone(op, b, d);
  }

  /** One pass of the repository's loop: `for conquer in range(0, n, divide << 1)`
      over the blocks, each block combined by CombineBlock. */
  method Pass<T>(op: (T, T) -> (T, T), F0: seq<T>, divide: nat, ghost blocks: nat) returns (F: seq<T>)
    requires divide > 0 && |F0| == blocks * (2 * divide)
    ensures F == Stage(op, F0, divide, blocks)
  {
    F := F0;
    var n := |F0|;
    var conquer := 0;
    ghost var c: nat := 0;
    ghost var size: nat := 2 * divide;
    while conquer < n
      invariant 0 <= c <= blocks && |F| == n && conquer <= n
      invariant conquer == c * size
      invariant F[..conquer] == Stage(op, F0[..conquer], divide, c)
      invariant F[conquer..] == F0[conquer..]
      decreases blocks - c
    {
      CountStep(c, blocks, size, conquer, n);
      var hi := conquer + 2 * divide;
      ghost var B := F0[conquer..hi];
      ghost var Fold := F;
      assert F[conquer..hi] == B;
      F := CombineBlock(op, F, conquer, divide, B);
      PassStep(op, F0, Fold, F, conquer, divide, c);
      conquer := hi;
      c := c + 1;
    }
    CountEnd(c, blocks, size, conquer, n);
    assert F[..n] == F && F0[..n] == F0;
  }

  /** The outer loop of a pass keeps its invariant across one combined block. */
  lemma PassStep<T>(op: (T, T) -> (T, T), F0: seq<T>, Fold: seq<T>, F: seq<T>, lo: nat, d: nat, c: nat)
    requires lo + 2 * d <= |F0| && |Fold| == |F0| && |F| == |F0| && lo == c * (2 * d)
    requires Fold[..lo] == Stage(op, F0[..lo], d, c) && Fold[lo..] == F0[lo..]
    requires F[..lo] == Fold[..lo] && F[lo + 2 * d..] == Fold[lo + 2 * d..]
    requires F[lo..lo + 2 * d] == Level(op, F0[lo..lo + 2 * d], d)
    ensures F[..lo + 2 * d] == Stage(op, F0[..lo + 2 * d], d, c + 1)
    ensures F[lo + 2 * d..] == F0[lo + 2 * d..]
  {
    var hi := lo + 2 * d;
    assert F[..hi] == F[..lo] + F[lo..hi];
    assert F0[..hi] == F0[..lo] + F0[lo..hi];
    StageSnoc(op, F0[..lo], F0[lo..hi], d, c);
    assert F[hi..] == Fold[hi..] == F0[lo..][2 * d..];
  }

  /** Halving divide = 2^(k-1) gives 2^(k-2), or 0 once the last pass is done. */
  lemma HalfDivide(k: nat)
    requires k >= 1
    ensures Pow2(k) == 2 * Pow2(k - 1)
    ensures Pow2(k - 1) / 2 == if k == 1 then 0 else Pow2(k - 2)
  {
  }

  /** The repository's butterfly on a copy of f: passes with divide = 2^(l-1), ..., 1. */
  method Transform<T>(op: (T, T) -> (T, T), f: seq<T>, l: nat) returns (F: seq<T>)
    requires |f| == Pow2(l)
    ensures |F| == |f|
    ensures F == Fast(op, f, l)
  {
    F := f;
    var n := Pow2(l);
    var divide := n / 2;
    ghost var k: nat := l;
    ghost var blocks: nat := 1;
    assert Blocks(op, F, l, 1) == Fast(op, f, l) by {
      assert F[..0] == [] && F[0..] == F;
    }
    while divide != 0
      invariant k <= l && |F| == n
      invariant blocks * Pow2(k) == n
      invariant if k == 0 then divide == 0 else divide == Pow2(k - 1)
      invariant Blocks(op, F, k, blocks) == Fast(op, f, l)
      decreases k
    {
      ghost var F0 := F;
      F := Pass(op, F, divide, blocks);
      PassDone(op, F0, F, k, blocks);
      HalfDivide(k);
      divide := divide / 2;
      k := k - 1;
      blocks := 2 * blocks;
    }
    assert k == 0 && blocks == n;
    BlocksOfOne(op, F);
  }
}
