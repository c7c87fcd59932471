/**
 * Rust's `i32` and the two ways a Rust build evaluates `+` and `-` on it:
 * a debug build panics on overflow, a release build wraps around modulo 2^32.
 */
module Int32 {
  import opened Wrappers

  const MIN: int := -0x8000_0000
  const MAX: int := 0x7fff_ffff
  const MODULUS: int := 0x1_0000_0000

  type i32 = x: int | -0x8000_0000 <= x <= 0x7fff_ffff

  predicate InRange(x: int) {
    MIN <= x <= MAX
  }

  datatype Build = Debug | Release

  /** Two's-complement wrap-around of a mathematical integer into i32. */
  function Wrap(x: int): (r: i32)
    ensures InRange(x) ==> r == x
    ensures (x - r) % MODULUS == 0
  {
    var m := (x - MIN) % MODULUS;
    assert x - (m + MIN) == MODULUS * ((x - MIN) / MODULUS);
    m + MIN
  }

  /** `a + b` on i32; None is the debug build's overflow panic. */
  function Add(build: Build, a: i32, b: i32): (r: Option<i32>)
    ensures InRange(a + b) ==> r == Some(a + b)
    ensures !InRange(a + b) ==> (r.None? <==> build == Debug)
    ensures r.Some? ==> (a + b - r.value) % MODULUS == 0
  {
    if InRange(a + b) then Some(a + b)
    else if build == Debug then None
    else Some(Wrap(a + b))
  }

  /** `a - b` on i32; None is the debug build's overflow panic. */
  function Sub(build: Build, a: i32, b: i32): (r: Option<i32>)
    ensures InRange(a - b) ==> r == Some(a - b)
    ensures !InRange(a - b) ==> (r.None? <==> build == Debug)
    ensures r.Some? ==> (a - b - r.value) % MODULUS == 0
  {
    if InRange(a - b) then Some(a - b)
    else if build == Debug then None
    else Some(Wrap(a - b))
  }
}
