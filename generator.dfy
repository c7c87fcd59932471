/**
 * The integer branch of `main`: count validation, mode selection, range
 * validation and the generation loop with its accumulator `nums_generated`.
 * Printing is modelled as appending to the `printed` sequence carried by the
 * outcome; `process::exit(1)` and a Rust panic end the run with what has been
 * printed so far.
 */
module Generator {
  import opened Wrappers
  import opened Int32
  import opened Rng
  import opened Uniqueness

  /**
   * The command line after parsing: each `str::parse::<i32>` is None when it
   * fails; `float` is true when the `--float` option is present.
   */
  datatype Args = Args(count: Option<i32>, low: Option<i32>, high: Option<i32>, unique: bool, float: bool)

  /** The three diagnostics that end a run with exit code 1. */
  datatype ErrorKind = InvalidCount | InvalidRange | UnsatisfiableUniqueness

  datatype Outcome =
    | Exit1(error: ErrorKind, printed: seq<i32>)  // eprintln! then process::exit(1)
    | Panicked(printed: seq<i32>)                 // a Rust panic (overflow or gen_range)
    | Ok(printed: seq<i32>)                       // the loop ran to the end: exit code 0
    | OutOfRandomness(printed: seq<i32>)          // the tape ended before the run did
    | FloatMode                                   // the float branch, which is not modelled

  /** The validated parameters of the integer branch. */
  datatype Config = Config(build: Build, low: i32, high: i32, count: i32, unique: bool)

  /**
   * The satisfiability guard `count > ((high - low) + 1)` evaluated in i32;
   * None is an overflow panic of a debug build.
   */
  function GuardFires(c: Config): (r: Option<bool>)
    ensures c.low <= c.high && c.high - c.low + 1 <= MAX ==> r == Some(c.count > c.high - c.low + 1)
    ensures c.low <= c.high && c.high - c.low + 1 > MAX ==> (r.None? <==> c.build == Debug)
    ensures c.build == Release && c.low <= c.high && c.high - c.low + 1 > MAX ==>
              r == Some(c.count > c.high - c.low + 1 - MODULUS)
  {
    match Sub(c.build, c.high, c.low)
    case None => None
    case Some(d) =>
      match Add(c.build, d, 1)
      case None => None
      case Some(w) =>
        assert c.low <= c.high && c.high - c.low + 1 > MAX ==> w == c.high - c.low + 1 - MODULUS by {
          if c.low <= c.high && c.high - c.low + 1 > MAX {
            var x := c.high - c.low + 1 - w;
            assert x % MODULUS == 0 && 0 < x < 2 * MODULUS;
            assert x == MODULUS * (x / MODULUS);
          }
        }
        Some(c.count > w)
  }

  /**
   * The redraw loop `while !check_i32_for_uniqueness(&num, &nums_generated)`:
   * the accepted value and the next unread tape position, or None when the
   * tape ends first.
   */
  function Redraw(c: Config, acc: seq<i32>, num: i32, tape: seq<nat>, pos: nat): (r: Option<(i32, nat)>)
    requires !IntRngPanics(c.low, c.high)
    ensures r.Some? ==> r.value.0 !in acc && pos <= r.value.1
    ensures num in acc && pos >= |tape| ==> r.None?
    decreases |tape| - pos
  {
    if num !in acc then Some((num, pos))
    else match DrawAt(c.build, c.low, c.high, tape, pos)
      case Drawn(v) => Redraw(c, acc, v, tape, pos + 1)
      case _ => None
  }

  /**
   * The iterations `i .. count` of `for _ in 0..count`, with `acc` the
   * accumulator (and the lines printed) before iteration `i` and `pos` the
   * next unread tape position.
   */
  function Iterate(c: Config, i: nat, acc: seq<i32>, tape: seq<nat>, pos: nat): (r: Outcome)
    ensures !r.FloatMode? && acc <= r.printed
    ensures r.Exit1? ==> r.error == UnsatisfiableUniqueness && c.unique
    decreases c.count - i
  {
    if i >= c.count then Ok(acc)
    else match DrawAt(c.build, c.low, c.high, tape, pos)
      case Panic => Panicked(acc)
      case Exhausted => OutOfRandomness(acc)
      case Drawn(num) =>
        if !c.unique then Iterate(c, i + 1, acc + [num], tape, pos + 1)
        else match GuardFires(c)
          case None => Panicked(acc)
          case Some(true) => Exit1(UnsatisfiableUniqueness, acc)
          case Some(false) =>
            match Redraw(c, acc, num, tape, pos + 1)
            case None => OutOfRandomness(acc)
            case Some((v, next)) => Iterate(c, i + 1, acc + [v], tape, next)
  }

  /** A whole run of the program on `args`, reading its random draws from `tape`. */
  function RunSpec(build: Build, args: Args, tape: seq<nat>): (r: Outcome)
    ensures r == Exit1(InvalidCount, []) <==> args.count.None?
    ensures r.FloatMode? <==> args.count.Some? && args.float
    ensures r.Exit1? && r.error == InvalidRange <==>
              args.count.Some? && !args.float && (args.low.None? || args.high.None?)
    ensures r.Exit1? && r.error == UnsatisfiableUniqueness ==> args.unique
  {
    if args.count.None? then Exit1(InvalidCount, [])
    else if args.float then FloatMode
    else if args.low.None? || args.high.None? then Exit1(InvalidRange, [])
    else Iterate(Config(build, args.low.value, args.high.value, args.count.value, args.unique), 0, [], tape, 0)
  }

  /** `main`, restricted to the integer branch. */
  method Run(build: Build, args: Args, tape: seq<nat>) returns (r: Outcome)
    ensures r == RunSpec(build, args, tape)
    ensures args.count.None? ==> r == Exit1(InvalidCount, [])
    ensures args.count.Some? && args.float ==> r == FloatMode
    ensures args.count.Some? && !args.float && (args.low.None? || args.high.None?) ==> r == Exit1(InvalidRange, [])
    ensures args.count.Some? && !args.float && args.low.Some? && args.high.Some? && args.count.value <= 0 ==> r == Ok([])
  {
    if args.count.None? {
      return Exit1(InvalidCount, []);
    }
    var count := args.count.value;
    if args.float {
      return FloatMode;
    }
    if args.low.None? || args.high.None? {
      return Exit1(InvalidRange, []);
    }
    var low, high := args.low.value, args.high.value;
    var c := Config(build, low, high, count, args.unique);

    // Every push onto `nums_generated` is followed at once by `println!` of
    // the same value, so the lines printed are the accumulator itself.
    var numsGenerated: seq<i32> := [];
    var pos: nat := 0;
    var i: nat := 0;
    while i < count
      invariant Iterate(c, i, numsGenerated, tape, pos) == Iterate(c, 0, [], tape, 0)
      decreases count - i
    {
      var d := DrawAt(build, low, high, tape, pos);
      if d.Panic? {
        return Panicked(numsGenerated);
      }
      if d.Exhausted? {
        return OutOfRandomness(numsGenerated);
      }
      var num := d.value;
      pos := pos + 1;
      if args.unique {
        var guard := GuardFires(c);
        if guard.None? {
          return Panicked(numsGenerated);
        }
        if guard.value {
          return Exit1(UnsatisfiableUniqueness, numsGenerated);
        }
        ghost var first, firstPos := num, pos;
        var isNew := CheckForUniqueness(num, numsGenerated);
        while !isNew
          invariant isNew <==> num !in numsGenerated
          invariant Redraw(c, numsGenerated, num, tape, pos) == Redraw(c, numsGenerated, first, tape, firstPos)
          decreases |tape| - pos
        {
          d := DrawAt(build, low, high, tape, pos);
          if d.Exhausted? {
            return OutOfRandomness(numsGenerated);
          }
          num := d.value;
          pos := pos + 1;
          isNew := CheckForUniqueness(num, numsGenerated);
        }
      }
      numsGenerated := numsGenerated + [num];
      i := i + 1;
    }
    return Ok(numsGenerated);
  }
}
