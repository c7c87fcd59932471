/**
 * The linear-scan uniqueness test `check_i32_for_uniqueness` and the counting
 * argument that makes the unique mode's redraw loop able to finish.
 */
module Uniqueness {
  import opened Int32

  /** No two positions of `s` hold the same value. */
  predicate Distinct(s: seq<i32>) {
    forall i, j :: 0 <= i < j < |s| ==> s[i] != s[j]
  }

  /** Every element of `s` lies in [low, high]. */
  predicate AllIn(s: seq<i32>, low: int, high: int) {
    forall k :: 0 <= k < |s| ==> low <= s[k] <= high
  }

  /**
   * `check_i32_for_uniqueness(num, array)`: scans `array` and answers false at
   * the first element equal to `num`, true when none is (so true on an empty
   * vector).
   */
  method CheckForUniqueness(num: i32, values: seq<i32>) returns (unique: bool)
    ensures unique <==> forall k :: 0 <= k < |values| ==> values[k] != num
    ensures unique <==> num !in values
  {
    for k := 0 to |values|
      invariant forall j :: 0 <= j < k ==> values[j] != num
    {
      if values[k] == num {
        return false;
      }
    }
    return true;
  }

  /** The integers of [low, high]. */
  function Range(low: int, high: int): (r: set<int>)
    ensures forall x :: x in r <==> low <= x <= high
    decreases high - low
  {
    if low > high then {} else Range(low, high - 1) + {high}
  }

  lemma {:induction false} RangeSize(low: int, high: int)
    requires low <= high + 1
    ensures |Range(low, high)| == high - low + 1
    decreases high - low
  {
    if low <= high {
      RangeSize(low, high - 1);
    }
  }

  /** The values held by `s`, as a set of integers. */
  function Values(s: seq<i32>): set<int> {
    set k | 0 <= k < |s| :: s[k] as int
  }

  lemma {:induction false} ValuesSize(s: seq<i32>)
    requires Distinct(s)
    ensures |Values(s)| == |s|
  {
    if s != [] {
      var t := s[..|s| - 1];
      ValuesSize(t);
      assert Values(s) == Values(t) + {s[|s| - 1] as int};
      assert s[|s| - 1] as int !in Values(t);
    } else {
      assert Values(s) == {};
    }
  }

  /**
   * Pigeonhole: a distinct accumulator inside [low, high] that is shorter than
   * the range leaves some value of the range unclaimed. This is why the guard
   * `count > (high - low) + 1` makes every redraw loop satisfiable.
   */
  lemma Pigeonhole(acc: seq<i32>, low: i32, high: i32)
    requires Distinct(acc)
    requires AllIn(acc, low, high)
    requires |acc| < high - low + 1
    ensures exists v: i32 :: low <= v <= high && v !in acc
  {
    ValuesSize(acc);
    RangeSize(low, high);
    assert Values(acc) <= Range(low, high);
    var missing := Range(low, high) - Values(acc);
    assert |Range(low, high)| == |Values(acc)| + |missing|;
    var v :| v in missing;
    var w: i32 := v;
    assert w !in acc;
  }

  /**
   * A distinct sequence inside [low, high] as long as the range holds every
   * value of the range: it is a permutation of [low, high].
   */
  lemma CoversRange(s: seq<i32>, low: i32, high: i32)
    requires Distinct(s)
    requires AllIn(s, low, high)
    requires |s| == high - low + 1
    ensures forall v: i32 :: low <= v <= high ==> v in s
  {
    ValuesSize(s);
    RangeSize(low, high);
    assert Values(s) <= Range(low, high);
    assert |Range(low, high) - Values(s)| == 0;
    forall v: i32 | low <= v <= high
      ensures v in s
    {
      assert v as int in Range(low, high);
      assert v as int in Values(s);
    }
  }
}
