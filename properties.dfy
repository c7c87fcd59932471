/**
 * What a run of the integer branch promises, proved of `RunSpec` (and hence,
 * through `Generator.Run`'s postcondition, of the loop itself).
 */
module Properties {
  import opened Wrappers
  import opened Int32
  import opened Rng
  import opened Uniqueness
  import opened Generator

  // ---- The redraw loop ----

  /** A value the redraw loop accepts is in range, absent from the accumulator, and read at or after `pos`. */
  lemma {:induction false} RedrawAccepts(c: Config, acc: seq<i32>, num: i32, tape: seq<nat>, pos: nat)
    requires !IntRngPanics(c.low, c.high)
    requires c.low <= num <= c.high
    ensures Redraw(c, acc, num, tape, pos).Some? ==>
              var (v, next) := Redraw(c, acc, num, tape, pos).value;
              c.low <= v <= c.high && v !in acc && pos <= next
    decreases |tape| - pos
  {
    if num in acc {
      match DrawAt(c.build, c.low, c.high, tape, pos)
      case Drawn(v) => RedrawAccepts(c, acc, v, tape, pos + 1);
      case _ =>
    }
  }

  /**
   * Whenever the accumulator is distinct, inside [low, high] and shorter than
   * a count the guard lets through, some raw draw makes `int_rng` return a
   * value the accumulator lacks: every redraw can end the loop.
   */
  lemma FreshDrawExists(c: Config, acc: seq<i32>)
    requires !IntRngPanics(c.low, c.high)
    requires Distinct(acc) && AllIn(acc, c.low, c.high)
    requires |acc| < c.count <= c.high - c.low + 1
    ensures exists v: i32 :: c.low <= v <= c.high && v !in acc && IntRng(c.build, c.low, c.high, v - c.low) == Some(v)
  {
    Pigeonhole(acc, c.low, c.high);
    var v: i32 :| c.low <= v <= c.high && v !in acc;
    IntRngOnto(c.build, c.low, c.high, v);
  }

  /**
   * A guard that evaluates without panicking to false, on a range `int_rng`
   * accepts, means the count fits the range: in a release build a wrapped
   * width is negative and would make the guard fire for any count of one or
   * more, and a count larger than the range makes it fire otherwise.
   */
  lemma GuardPassMeansCountFits(c: Config)
    requires !IntRngPanics(c.low, c.high) && c.count >= 1
    requires GuardFires(c) == Some(false)
    ensures c.count <= c.high - c.low + 1
  {
  }

  /** `FreshDrawExists` in the loop's own terms: after the guard has passed, a redraw can always succeed. */
  lemma FreshDrawExistsAfterGuard(c: Config, acc: seq<i32>)
    requires !IntRngPanics(c.low, c.high) && GuardFires(c) == Some(false)
    requires Distinct(acc) && AllIn(acc, c.low, c.high)
    requires |acc| < c.count
    ensures exists v: i32 :: c.low <= v <= c.high && v !in acc && IntRng(c.build, c.low, c.high, v - c.low) == Some(v)
  {
    GuardPassMeansCountFits(c);
    FreshDrawExists(c, acc);
  }

  // ---- The generation loop ----

  /** The accumulator only grows: the lines printed before iteration `i` stay a prefix of the outcome's. */
  lemma {:induction false} IterateAppendOnly(c: Config, i: nat, acc: seq<i32>, tape: seq<nat>, pos: nat)
    ensures !Iterate(c, i, acc, tape, pos).FloatMode?
    ensures var r := Iterate(c, i, acc, tape, pos);
            |acc| <= |r.printed| && r.printed[..|acc|] == acc
    ensures var r := Iterate(c, i, acc, tape, pos);
            r.Ok? ==> |r.printed| == |acc| + (if i < c.count then c.count - i else 0)
    ensures var r := Iterate(c, i, acc, tape, pos);
            !r.Ok? ==> |r.printed| < |acc| + c.count - i
    decreases c.count - i
  {
    if i < c.count {
      match DrawAt(c.build, c.low, c.high, tape, pos)
      case Panic =>
      case Exhausted =>
      case Drawn(num) =>
        if !c.unique {
          IterateAppendOnly(c, i + 1, acc + [num], tape, pos + 1);
        } else if GuardFires(c) == Some(false) {
          match Redraw(c, acc, num, tape, pos + 1)
          case None =>
          case Some((v, next)) => IterateAppendOnly(c, i + 1, acc + [v], tape, next);
        }
    }
  }

  /** Every printed value lies in [low, high] inclusive. */
  lemma {:induction false} IterateInRange(c: Config, i: nat, acc: seq<i32>, tape: seq<nat>, pos: nat)
    requires AllIn(acc, c.low, c.high)
    ensures !Iterate(c, i, acc, tape, pos).FloatMode?
    ensures AllIn(Iterate(c, i, acc, tape, pos).printed, c.low, c.high)
    decreases c.count - i
  {
    if i < c.count {
      match DrawAt(c.build, c.low, c.high, tape, pos)
      case Panic =>
      case Exhausted =>
      case Drawn(num) =>
        if !c.unique {
          IterateInRange(c, i + 1, acc + [num], tape, pos + 1);
        } else if GuardFires(c) == Some(false) {
          RedrawAccepts(c, acc, num, tape, pos + 1);
          match Redraw(c, acc, num, tape, pos + 1)
          case None =>
          case Some((v, next)) => IterateInRange(c, i + 1, acc + [v], tape, next);
        }
    }
  }

  /** In unique mode a distinct accumulator stays distinct after every push. */
  lemma {:induction false} IterateDistinct(c: Config, i: nat, acc: seq<i32>, tape: seq<nat>, pos: nat)
    requires c.unique && Distinct(acc)
    ensures !Iterate(c, i, acc, tape, pos).FloatMode?
    ensures Distinct(Iterate(c, i, acc, tape, pos).printed)
    decreases c.count - i
  {
    if i < c.count {
      match DrawAt(c.build, c.low, c.high, tape, pos)
      case Panic =>
      case Exhausted =>
      case Drawn(num) =>
        if GuardFires(c) == Some(false) {
          RedrawAccepts(c, acc, num, tape, pos + 1);
          match Redraw(c, acc, num, tape, pos + 1)
          case None =>
          case Some((v, next)) =>
            assert Distinct(acc + [v]) by {
              forall j | 0 <= j < |acc| ensures (acc + [v])[j] != v {
                assert (acc + [v])[j] == acc[j];
              }
            }
            IterateDistinct(c, i + 1, acc + [v], tape, next);
        }
    }
  }

  /**
   * Once the first iteration has drawn without a panic and passed the guard,
   * no later iteration can panic or exit with code 1: the guard and the
   * panics depend only on `low`, `high` and `count`.
   */
  lemma {:induction false} LaterIterationsCannotFail(c: Config, i: nat, acc: seq<i32>, tape: seq<nat>, pos: nat)
    requires !IntRngPanics(c.low, c.high)
    requires c.unique ==> GuardFires(c) == Some(false)
    ensures !Iterate(c, i, acc, tape, pos).Exit1?
    ensures !Iterate(c, i, acc, tape, pos).Panicked?
    decreases c.count - i
  {
    if i < c.count {
      match DrawAt(c.build, c.low, c.high, tape, pos)
      case Exhausted =>
      case Drawn(num) =>
        if !c.unique {
          LaterIterationsCannotFail(c, i + 1, acc + [num], tape, pos + 1);
        } else {
          match Redraw(c, acc, num, tape, pos + 1)
          case None =>
          case Some((v, next)) => LaterIterationsCannotFail(c, i + 1, acc + [v], tape, next);
        }
    }
  }

  /** The values `int_rng` makes of the raw draws `raws`, in order. */
  function Draws(c: Config, raws: seq<nat>): seq<i32>
    requires !IntRngPanics(c.low, c.high)
  {
    seq(|raws|, k requires 0 <= k < |raws| => IntRng(c.build, c.low, c.high, raws[k]).value)
  }

  /**
   * Without `--unique` the lines printed from iteration `i` on are exactly the
   * draws read from `pos` on, in order: no membership check, so duplicates
   * are printed as drawn.
   */
  lemma {:induction false} IterateVerbatim(c: Config, i: nat, acc: seq<i32>, tape: seq<nat>, pos: nat)
    requires !c.unique && !IntRngPanics(c.low, c.high)
    requires pos <= |tape|
    ensures !Iterate(c, i, acc, tape, pos).FloatMode?
    ensures var p := Iterate(c, i, acc, tape, pos).printed;
            |acc| <= |p| <= |acc| + |tape| - pos &&
            p == acc + Draws(c, tape[pos..pos + |p| - |acc|])
    ensures pos + c.count - i <= |tape| ==> Iterate(c, i, acc, tape, pos).Ok?
    decreases c.count - i
  {
    IterateAppendOnly(c, i, acc, tape, pos);
    if i < c.count {
      match DrawAt(c.build, c.low, c.high, tape, pos)
      case Exhausted =>
        assert tape[pos..pos] == [];
      case Drawn(num) =>
        var acc' := acc + [num];
        IterateVerbatim(c, i + 1, acc', tape, pos + 1);
        assert Iterate(c, i, acc, tape, pos) == Iterate(c, i + 1, acc', tape, pos + 1);
        var p := Iterate(c, i + 1, acc', tape, pos + 1).printed;
        var m := |p| - |acc|;
        assert tape[pos..pos + m] == [tape[pos]] + tape[pos + 1..pos + 1 + |p| - |acc'|];
        assert Draws(c, tape[pos..pos + m]) == [num] + Draws(c, tape[pos + 1..pos + 1 + |p| - |acc'|]);
    } else {
      assert tape[pos..pos] == [];
    }
  }

  // ---- Whole runs ----

  /** The configuration the integer branch runs with, once every argument parsed. */
  function ConfigOf(build: Build, args: Args): Config
    requires args.count.Some? && args.low.Some? && args.high.Some?
  {
    Config(build, args.low.value, args.high.value, args.count.value, args.unique)
  }

  /** True when `args` reach the generation loop of the integer branch. */
  predicate IntegerMode(args: Args) {
    args.count.Some? && !args.float && args.low.Some? && args.high.Some?
  }

  lemma RunSpecIsIterate(build: Build, args: Args, tape: seq<nat>)
    requires IntegerMode(args)
    ensures RunSpec(build, args, tape) == Iterate(ConfigOf(build, args), 0, [], tape, 0)
  {
  }

  /** Every emitted integer lies in [low, high] inclusive. */
  lemma OutputsInRange(build: Build, args: Args, tape: seq<nat>)
    requires IntegerMode(args)
    ensures !RunSpec(build, args, tape).FloatMode?
    ensures AllIn(RunSpec(build, args, tape).printed, args.low.value, args.high.value)
  {
    IterateInRange(ConfigOf(build, args), 0, [], tape, 0);
  }

  /** With `--unique`, no two emitted integers are equal. */
  lemma UniqueOutputsDistinct(build: Build, args: Args, tape: seq<nat>)
    requires IntegerMode(args) && args.unique
    ensures !RunSpec(build, args, tape).FloatMode?
    ensures Distinct(RunSpec(build, args, tape).printed)
  {
    IterateDistinct(ConfigOf(build, args), 0, [], tape, 0);
  }

  /**
   * A finished run printed one line per iteration: `max(count, 0)` lines, so
   * a negative count prints nothing; an unfinished run printed fewer.
   */
  lemma OkPrintsCount(build: Build, args: Args, tape: seq<nat>)
    requires IntegerMode(args)
    ensures !RunSpec(build, args, tape).FloatMode?
    ensures var r := RunSpec(build, args, tape);
            r.Ok? ==> |r.printed| == if args.count.value < 0 then 0 else args.count.value
    ensures var r := RunSpec(build, args, tape);
            !r.Ok? ==> |r.printed| < args.count.value
  {
    IterateAppendOnly(ConfigOf(build, args), 0, [], tape, 0);
  }

  /**
   * Every failure (exit code 1 or panic) happens before anything is printed:
   * no partial output is ever left behind by an error.
   */
  lemma ErrorsPrintNothing(build: Build, args: Args, tape: seq<nat>)
    ensures var r := RunSpec(build, args, tape);
            r.Exit1? || r.Panicked? ==> r.printed == []
  {
    if IntegerMode(args) {
      var c := ConfigOf(build, args);
      if 0 < c.count {
        match DrawAt(c.build, c.low, c.high, tape, 0)
        case Panic =>
        case Exhausted =>
        case Drawn(num) =>
          if !c.unique {
            assert RunSpec(build, args, tape) == Iterate(c, 1, [] + [num], tape, 1);
            LaterIterationsCannotFail(c, 1, [] + [num], tape, 1);
          } else if GuardFires(c) == Some(false) {
            match Redraw(c, [], num, tape, 1)
            case None =>
            case Some((v, next)) =>
              assert RunSpec(build, args, tape) == Iterate(c, 1, [] + [v], tape, next);
              LaterIterationsCannotFail(c, 1, [] + [v], tape, next);
          }
      }
    }
  }

  /**
   * With `--unique` and `count > high - low + 1`, the run exits with code 1 on
   * the first iteration, after one draw and before any push or print.
   */
  lemma GuardFiresBeforeOutput(build: Build, args: Args, tape: seq<nat>)
    requires IntegerMode(args) && args.unique
    requires !IntRngPanics(args.low.value, args.high.value) && |tape| >= 1
    requires args.count.value > args.high.value - args.low.value + 1
    ensures RunSpec(build, args, tape) == Exit1(UnsatisfiableUniqueness, [])
  {
    var c := ConfigOf(build, args);
    assert GuardFires(c) == Some(true);
  }

  /**
   * Without `--unique`, a run whose draws do not panic and whose tape holds
   * `count` draws finishes, printing the draws in order.
   */
  lemma NonUniqueRunPrintsDraws(build: Build, args: Args, tape: seq<nat>)
    requires IntegerMode(args) && !args.unique
    requires !IntRngPanics(args.low.value, args.high.value)
    requires args.count.value <= |tape|
    ensures RunSpec(build, args, tape).Ok?
    ensures RunSpec(build, args, tape).printed ==
            Draws(ConfigOf(build, args), tape[..if args.count.value < 0 then 0 else args.count.value])
  {
    var c := ConfigOf(build, args);
    IterateVerbatim(c, 0, [], tape, 0);
    IterateAppendOnly(c, 0, [], tape, 0);
    RunSpecIsIterate(build, args, tape);
    assert [] + Draws(c, tape[0..|RunSpec(build, args, tape).printed|]) == Draws(c, tape[0..|RunSpec(build, args, tape).printed|]);
  }

  /**
   * With `--unique` and `count == high - low + 1`, a finished run prints a
   * permutation of [low, high]: every value of the range exactly once.
   */
  lemma ExhaustiveUniqueRunIsPermutation(build: Build, args: Args, tape: seq<nat>)
    requires IntegerMode(args) && args.unique
    requires args.count.value == args.high.value - args.low.value + 1
    requires RunSpec(build, args, tape).Ok?
    ensures var p := RunSpec(build, args, tape).printed;
            Distinct(p) && AllIn(p, args.low.value, args.high.value) &&
            forall v: i32 :: args.low.value <= v <= args.high.value ==> v in p
  {
    OutputsInRange(build, args, tape);
    UniqueOutputsDistinct(build, args, tape);
    OkPrintsCount(build, args, tape);
    if args.count.value >= 0 {
      CoversRange(RunSpec(build, args, tape).printed, args.low.value, args.high.value);
    }
  }

  /**
   * A range with more values than i32 can count defeats the guard's i32
   * arithmetic: a debug build panics, and a release build exits with code 1
   * although `count` values could be drawn.
   */
  lemma WideUniqueRangeFails(build: Build, args: Args, tape: seq<nat>)
    requires IntegerMode(args) && args.unique
    requires !IntRngPanics(args.low.value, args.high.value) && |tape| >= 1
    requires args.high.value - args.low.value + 1 > MAX && args.count.value >= 1
    ensures RunSpec(build, args, tape) == if build == Debug then Panicked([]) else Exit1(UnsatisfiableUniqueness, [])
  {
    var c := ConfigOf(build, args);
    assert GuardFires(c) == if build == Debug then None else Some(true);
  }

  /**
   * `int_rng` panics on the first iteration when `high` is i32's maximum or
   * `low > high`: nothing validates the range, so such a run crashes before
   * printing, whether or not `--unique` is given.
   */
  lemma RangeWithoutDrawPanics(build: Build, args: Args, tape: seq<nat>)
    requires IntegerMode(args) && args.count.value >= 1
    requires args.high.value == MAX || args.low.value > args.high.value
    ensures RunSpec(build, args, tape) == Panicked([])
  {
    RunSpecIsIterate(build, args, tape);
  }

  /** Without `--unique` the same value can be printed twice: two equal draws give two equal lines. */
  lemma NonUniqueMayRepeat(build: Build)
    ensures RunSpec(build, Args(Some(2), Some(1), Some(5), false, false), [3, 3]) == Ok([4, 4])
  {
    var args := Args(Some(2), Some(1), Some(5), false, false);
    NonUniqueRunPrintsDraws(build, args, [3, 3]);
    assert IntRng(build, 1, 5, 3) == Some(4);
    assert Draws(ConfigOf(build, args), [3, 3]) == [4, 4];
  }
}
