/**
 * The random source. `rand::thread_rng().gen_range` is foreign and
 * non-deterministic, so the model replaces it by an oracle: each draw reads
 * one raw number from a finite tape, and the oracle promises only that the
 * drawn value lies in the requested range. Every value of the range is
 * reachable from some raw number, so every sequence of draws the real
 * generator could produce is the reading of some tape.
 */
module Rng {
  import opened Wrappers
  import opened Int32

  /**
   * `gen_range(low, high)` of the `rand` crate: a value of the half-open
   * interval [low, high); None is its panic when `low >= high`.
   */
  function GenRange(low: i32, high: i32, raw: nat): (r: Option<i32>)
    ensures r.None? <==> low >= high
    ensures r.Some? ==> low <= r.value < high
  {
    if low < high then Some(low + raw % (high - low)) else None
  }

  /**
   * `int_rng(low, high)`, which calls `gen_range(low, high + 1)` with the
   * `+ 1` evaluated in i32. It panics exactly when `high` is i32's maximum
   * (in a debug build the addition overflows; in a release build it wraps to
   * i32's minimum, which `gen_range` refuses) or when `low > high`.
   */
  function IntRng(build: Build, low: i32, high: i32, raw: nat): (r: Option<i32>)
    ensures r.None? <==> high == MAX || low > high
    ensures r.Some? ==> low <= r.value <= high
  {
    match Add(build, high, 1)
    case None => None
    case Some(bound) =>
      assert high == MAX ==> bound == MIN;
      GenRange(low, bound, raw)
  }

  /** True when a call of `int_rng(low, high)` panics, whatever is drawn. */
  predicate IntRngPanics(low: i32, high: i32) {
    high == MAX || low > high
  }

  /** Every value of [low, high] is what some raw number makes `int_rng` return. */
  lemma IntRngOnto(build: Build, low: i32, high: i32, v: i32)
    requires !IntRngPanics(low, high)
    requires low <= v <= high
    ensures IntRng(build, low, high, v - low) == Some(v)
  {
    assert Add(build, high, 1) == Some(high + 1);
    ModSmall(v - low, high + 1 - low);
  }

  lemma ModSmall(x: nat, m: int)
    requires x < m
    ensures x % m == x
  {
  }

  /** One call of `int_rng` reading the tape at `pos`. */
  datatype Draw = Panic | Exhausted | Drawn(value: i32)

  /**
   * The panic does not depend on randomness, so it comes first; a draw that
   * would not panic but finds the tape used up is `Exhausted`.
   */
  function DrawAt(build: Build, low: i32, high: i32, tape: seq<nat>, pos: nat): (d: Draw)
    ensures d.Panic? <==> IntRngPanics(low, high)
    ensures d.Exhausted? <==> !IntRngPanics(low, high) && pos >= |tape|
    ensures d.Drawn? ==> pos < |tape| && IntRng(build, low, high, tape[pos]) == Some(d.value)
    ensures d.Drawn? ==> low <= d.value <= high
  {
    if IntRngPanics(low, high) then Panic
    else if pos < |tape| then Drawn(IntRng(build, low, high, tape[pos]).value)
    else Exhausted
  }
}
