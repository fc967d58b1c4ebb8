/*
 * The truth-table iterator (class Truth_table_entry of toolbox.py): an l-bit
 * MSB-first counter that steps forwards or backwards with wrap-around. A
 * fresh iterator holds the all-ones vector, so its first step forwards
 * yields the all-zeros vector.
 */
module Counter {
  import opened Bits

  /** The entry after v: v + 1 modulo 2^|v| (NextValue). */
  function Next(v: seq<bool>): (r: seq<bool>)
    ensures |r| == |v|
  {
    if |v| == 0 then []
    else
      var p := v[..|v| - 1];
      if v[|v| - 1] then Next(p) + [false] else p + [true]
  }

  /** The entry before v: v - 1 modulo 2^|v| (PreviousValue). */
  function Previous(v: seq<bool>): (r: seq<bool>)
    ensures |r| == |v|
  {
    if |v| == 0 then []
    else
      var p := v[..|v| - 1];
      if !v[|v| - 1] then Previous(p) + [true] else p + [false]
  }

  /** Stepping forwards adds one to the value, and all ones wraps to zero. */
  lemma {:induction false} NextValue(v: seq<bool>)
    ensures ToInt(v) + 1 < Pow2(|v|) ==> ToInt(Next(v)) == ToInt(v) + 1
    ensures ToInt(v) + 1 == Pow2(|v|) ==> ToInt(Next(v)) == 0
  {
    if |v| > 0 {
      var p := v[..|v| - 1];
      assert v == p + [v[|v| - 1]];
      ToIntSnoc(p, v[|v| - 1]);
      if v[|v| - 1] {
        NextValue(p);
        ToIntSnoc(Next(p), false);
      } else {
        ToIntSnoc(p, true);
      }
    }
  }

  /** Stepping backwards subtracts one from the value, and zero wraps to all ones. */
  lemma {:induction false} PreviousValue(v: seq<bool>)
    ensures ToInt(v) > 0 ==> ToInt(Previous(v)) == ToInt(v) - 1
    ensures ToInt(v) == 0 ==> ToInt(Previous(v)) == Pow2(|v|) - 1
  {
    if |v| > 0 {
      var p := v[..|v| - 1];
      assert v == p + [v[|v| - 1]];
      ToIntSnoc(p, v[|v| - 1]);
      if !v[|v| - 1] {
        PreviousValue(p);
        ToIntSnoc(Previous(p), true);
      } else {
        ToIntSnoc(p, false);
      }
    }
  }

  lemma PreviousNext(v: seq<bool>)
    ensures Previous(Next(v)) == v
  {
    NextValue(v);
    PreviousValue(Next(v));
    ToIntInjective(Previous(Next(v)), v);
  }

  lemma NextPrevious(v: seq<bool>)
    ensures Next(Previous(v)) == v
  {
    PreviousValue(v);
    NextValue(Previous(v));
    ToIntInjective(Next(Previous(v)), v);
  }

  /** The counter wraps from all ones to all zeros. */
  lemma NextAllOnes(n: nat)
    ensures Next(AllOnes(n)) == Zeros(n)
  {
    ToIntAllOnes(n);
    ToIntZeros(n);
    NextValue(AllOnes(n));
    ToIntInjective(Next(AllOnes(n)), Zeros(n));
  }

  /** k steps forwards from v. */
  function Steps(v: seq<bool>, k: nat): (r: seq<bool>)
    ensures |r| == |v|
  {
    if k == 0 then v else Next(Steps(v, k - 1))
  }

  /** The value of the vector k steps forwards from all ones. */
  lemma {:induction false} EnumerationValue(l: nat, k: nat)
    requires 1 <= k <= Pow2(l)
    ensures ToInt(Steps(AllOnes(l), k)) == k - 1
  {
    if k == 1 {
      ToIntAllOnes(l);
    } else {
      EnumerationValue(l, k - 1);
    }
    NextValue(Steps(AllOnes(l), k - 1));
  }

  /** A fresh iterator enumerates the entries 0, 1, ..., 2^l - 1 in this order. */
  lemma Enumeration(l: nat, k: nat)
    requires 1 <= k <= Pow2(l)
    ensures Steps(AllOnes(l), k) == FromInt(l, k - 1)
  {
    EnumerationValue(l, k);
    FromIntToInt(Steps(AllOnes(l), k));
  }

  /**
   * Entry by entry: if the entries after position i are set and the entry
   * at i is clear, stepping forwards sets entry i, clears those after it and
   * keeps those before it.
   */
  lemma {:induction false} NextAt(v: seq<bool>, i: int)
    requires -1 <= i < |v|
    requires i >= 0 ==> !v[i]
    requires forall j :: i < j < |v| ==> v[j]
    ensures forall j :: 0 <= j < |v| ==> Next(v)[j] == (if j < i then v[j] else j == i)
    decreases |v|
  {
    if |v| > 0 {
      var p := v[..|v| - 1];
      if i < |v| - 1 {
        NextAt(p, i);
        assert Next(v) == Next(p) + [false];
      } else {
        assert Next(v) == p + [true];
      }
      forall j | 0 <= j < |v|
        ensures Next(v)[j] == (if j < i then v[j] else j == i)
      {
        if j < |v| - 1 {
          assert v[j] == p[j];
        }
      }
    }
  }

  /** The mirror image of NextAt for stepping backwards. */
  lemma {:induction false} PreviousAt(v: seq<bool>, i: int)
    requires -1 <= i < |v|
    requires i >= 0 ==> v[i]
    requires forall j :: i < j < |v| ==> !v[j]
    ensures forall j :: 0 <= j < |v| ==> Previous(v)[j] == (if j < i then v[j] else j != i)
    decreases |v|
  {
    if |v| > 0 {
      var p := v[..|v| - 1];
      if i < |v| - 1 {
        PreviousAt(p, i);
        assert Previous(v) == Previous(p) + [true];
      } else {
        assert Previous(v) == p + [false];
      }
      forall j | 0 <= j < |v|
        ensures Previous(v)[j] == (if j < i then v[j] else j != i)
      {
        if j < |v| - 1 {
          assert v[j] == p[j];
        }
      }
    }
  }

  /** `next_entry`: clear the trailing ones, then set the entry before them. */
  method NextEntry(current: seq<bool>) returns (next: seq<bool>)
    requires |current| >= 1
    ensures next == Next(current)
  {
    var cur := current;
    var i := |cur| - 1;
    while i >= 0 && cur[i]
      invariant -1 <= i < |cur| && |cur| == |current|
      invariant forall j :: 0 <= j <= i ==> cur[j] == current[j]
      invariant forall j :: i < j < |cur| ==> current[j] && !cur[j]
    {
      cur := cur[i := false];
      i := i - 1;
    }
    if i >= 0 {
      cur := cur[i := true];
    }
    NextAt(current, i);
    assert forall j :: 0 <= j < |cur| ==> cur[j] == Next(current)[j];
    next := cur;
  }

  /** `previous_entry`: set the trailing zeros, then clear the entry before them. */
  method PreviousEntry(current: seq<bool>) returns (prev: seq<bool>)
    requires |current| >= 1
    ensures prev == Previous(current)
  {
    var cur := current;
    var i := |cur| - 1;
    while i >= 0 && !cur[i]
      invariant -1 <= i < |cur| && |cur| == |current|
      invariant forall j :: 0 <= j <= i ==> cur[j] == current[j]
      invariant forall j :: i < j < |cur| ==> !current[j] && cur[j]
    {
      cur := cur[i := true];
      i := i - 1;
    }
    if i >= 0 {
      cur := cur[i := false];
    }
    PreviousAt(current, i);
    assert forall j :: 0 <= j < |cur| ==> cur[j] == Previous(current)[j];
    prev := cur;
  }

  /** k steps backwards from v. */
  function BackSteps(v: seq<bool>, k: nat): (r: seq<bool>)
    ensures |r| == |v|
  {
    if k == 0 then v else Previous(BackSteps(v, k - 1))
  }

  /** The value of the vector k steps backwards from all ones. */
  lemma {:induction false} CountdownValue(l: nat, k: nat)
    requires k < Pow2(l)
    ensures ToInt(BackSteps(AllOnes(l), k)) == Pow2(l) - 1 - k
  {
    if k == 0 {
      ToIntAllOnes(l);
    } else {
      CountdownValue(l, k - 1);
      PreviousValue(BackSteps(AllOnes(l), k - 1));
    }
  }

  /** A fresh iterator stepped backwards enumerates 2^l - 1, 2^l - 2, ..., 0. */
  lemma Countdown(l: nat, k: nat)
    requires k < Pow2(l)
    ensures BackSteps(AllOnes(l), k) == FromInt(l, Pow2(l) - 1 - k)
  {
    CountdownValue(l, k);
    FromIntToInt(BackSteps(AllOnes(l), k));
  }
}
