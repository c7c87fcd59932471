# rust-rng: the integer generation pipeline, in Dafny

`rust-rng` is a command-line random-number generator. It takes `low`, `high`,
`--count` and `--unique`, and prints `count` random integers from the range
`[low, high]`, one per line. With `--unique`, no value is printed twice. This
project models the integer branch of `main` in `src/main.rs` and proves what a
run of it promises:

- `count` is validated first; then the mode is chosen; then `low` and `high`
  are validated.
- The `for _ in 0..count` loop calls `int_rng` once per iteration. In unique
  mode it then checks `count > (high - low) + 1` and redraws until the value is
  absent from `nums_generated`. Each accepted value is pushed and printed.
- `check_i32_for_uniqueness` is a linear scan of the accumulator.

## How the model is built

- `Int32` (`int32.dfy`) models Rust's `i32` and its `+` and `-`. A debug
  build panics on overflow (`Build.Debug`). A release build wraps around
  modulo 2^32 (`Build.Release`). The build is a parameter of every run.
- `Rng` (`rng.dfy`) is the random source. `gen_range(low, high)` of the
  `rand` crate is a half-open range that panics when `low >= high`. It becomes
  `GenRange`, an oracle that reads one raw number from a finite *tape* and
  promises only a value in the range. `IntRng` is `int_rng`: it calls
  `gen_range(low, high + 1)` with the `+ 1` done in i32. `DrawAt` is one call
  of `int_rng` that reads the tape at a position.
- `Uniqueness` (`uniqueness.dfy`) holds `CheckForUniqueness`, a loop proved
  equal to sequence membership. It also holds the pigeonhole lemma.
- `Generator` (`generator.dfy`) holds the run:
  - `Args` holds the already-parsed arguments. Each `str::parse::<i32>` is an
    `Option<i32>`, and `float` says whether `--float` was given.
  - `Outcome` is one of `Exit1(error, printed)`, `Panicked(printed)`,
    `Ok(printed)`, `OutOfRandomness(printed)` or `FloatMode`.
  - `Run` is `main` as a method, with the accumulator `numsGenerated`, the
    `for` loop and the redraw `while` loop. Each push is followed at once by
    the `println!` of the same value, so the accumulator is also the printed
    output. `Run` is proved equal to `RunSpec`.
  - `RunSpec` is a recursive definition of the same run, built from
    `Iterate` (one loop iteration after another) and `Redraw` (the redraw
    loop).
- `Properties` (`properties.dfy`) proves what a run promises, as lemmas about
  `RunSpec`.

Each line printed is an element appended to `printed`. Both `process::exit(1)`
and a panic end the run with whatever was printed before. A run that would
need more random draws than the tape holds ends as `OutOfRandomness`. That
outcome is an artefact of the finite tape: the real program would keep
drawing. Every finite sequence of draws that `int_rng` can produce is the
reading of some tape (`Rng.IntRngOnto`), so the model covers every run that
ends.

### Edge behaviour of the code (the model follows it)

- Count:
  - `src/main.rs:30-35` accepts any i32 count, negative ones included.
    `0..count` is then empty, and the run prints nothing and exits 0.
  - `src/main.rs:30` checks the count before line 38 chooses the mode. An
    invalid count in float mode therefore also exits with code 1.
- The uniqueness guard:
  - `src/main.rs:58` tests the guard inside the loop, after line 53 has drawn
    the first value of the first iteration. It cannot fire on a later iteration, so it still
    exits before anything is printed.
  - `(high - low) + 1` on line 58 is evaluated in i32. A range with more than
    2^31 - 1 values overflows it. A debug build then panics. A release build
    wraps to a negative width and exits with code 1, although `count` values
    could be drawn (`Properties.WideUniqueRangeFails`).
- Panics in `int_rng`:
  - `high + 1` on `src/main.rs:112` makes `int_rng` panic whenever `high` is i32's maximum. This
    happens in both builds: a release build wraps to i32's minimum, which
    `gen_range` refuses.
  - Nothing in `main` checks `low <= high`, so `gen_range` panics when `low > high`.
  - In both cases the crash comes on the first iteration, before the guard
    and before any output (`Properties.RangeWithoutDrawPanics`).
- The redraw loop on `src/main.rs:63-65` ends only with probability one. Once
  the guard has passed, an unclaimed value exists (`Uniqueness.Pigeonhole`),
  and some draw returns it (`Properties.FreshDrawExistsAfterGuard`). Nothing
  makes the loop end on a given sequence of draws.

## Model

| member | source | states |
|---|---|---|
| `Int32.Add` | src/main.rs:112 | i32 addition: equals the sum when it fits; otherwise None (a panic) exactly in a debug build, and a value congruent to the sum modulo 2^32 in a release build |
| `Int32.Sub` | src/main.rs:58 | i32 subtraction, with the same three cases as `Add` |
| `Rng.GenRange` | src/main.rs:112 | `gen_range(low, high)` panics iff `low >= high`; otherwise its value lies in the half-open range [low, high) |
| `Rng.IntRng` | src/main.rs:110-113 | `int_rng(low, high)` panics iff `high` is i32's maximum or `low > high`, in both builds; otherwise its value lies in [low, high] inclusive |
| `Rng.IntRngOnto` | src/main.rs:112 | every value of [low, high] is what `int_rng` returns for some raw draw |
| `Rng.DrawAt` | src/main.rs:53 | one call of `int_rng` on the tape: it panics regardless of the draw when `int_rng` would; otherwise it reads one tape entry and returns an in-range value, or reports that the tape is used up |
| `Uniqueness.CheckForUniqueness` | src/main.rs:128-135 | returns false iff some element of the vector equals `num`, so true on an empty vector |
| `Uniqueness.Pigeonhole` | src/main.rs:56-65 | a distinct accumulator inside [low, high] that is shorter than high - low + 1 leaves some value of the range unclaimed |
| `Generator.GuardFires` | src/main.rs:58 | `count > (high - low) + 1` in i32, for low <= high (the only case the loop reaches, since `int_rng` panics first otherwise): it compares with the true width whenever that width fits in i32; when it does not, a debug build panics and a release build compares with the width minus 2^32 |
| `Generator.Redraw` | src/main.rs:63-65 | recursive reference definition of the redraw loop, whose properties are proved in `Properties`: an accepted value is absent from the accumulator and read at or after the current tape position; a value already present with the tape used up gives no result |
| `Generator.Iterate` | src/main.rs:51-72 | recursive reference definition of the `for` loop from iteration `i` on, whose properties are proved in `Properties`: its outcome is never float mode, keeps the lines already printed as a prefix, and an exit with code 1 from the loop is always the uniqueness diagnostic in unique mode |
| `Generator.RunSpec` | src/main.rs:30-72 | recursive reference definition of a whole run: it exits 1 with the count diagnostic and no output exactly when the count does not parse; it selects float mode exactly when the count parses and `--float` is given; it exits 1 with the range diagnostic exactly when the count parses, `--float` is absent and `low` or `high` does not parse; the uniqueness diagnostic only appears with `--unique` |
| `Generator.Run` | src/main.rs:26-72 | the loop-and-accumulator run equals `RunSpec`; an unparsable count exits 1 with no output before mode selection; float mode is reported as not modelled; an unparsable `low` or `high` exits 1 with no output; a count of zero or less prints nothing and succeeds |
| `Properties.RedrawAccepts` | src/main.rs:63-65 | a value the redraw loop accepts is in [low, high] and absent from the accumulator |
| `Properties.GuardPassMeansCountFits` | src/main.rs:56-61 | when `int_rng` accepts the range and the guard evaluates to false without panicking, a count of one or more is at most high - low + 1, in both builds |
| `Properties.FreshDrawExistsAfterGuard` | src/main.rs:56-65 | after the guard has passed, a distinct in-range accumulator shorter than count always leaves some draw that makes `int_rng` return an unclaimed value |
| `Properties.FreshDrawExists` | src/main.rs:56-65 | while the accumulator is distinct, inside [low, high] and shorter than a count that passes the guard, some draw makes `int_rng` return an unclaimed value |
| `Properties.IterateAppendOnly` | src/main.rs:51-72 | the accumulator is append-only: earlier lines stay a prefix; a finished loop appended exactly one value per remaining iteration, and an unfinished one appended fewer |
| `Properties.IterateInRange` | src/main.rs:51-72 | every value the loop pushes lies in [low, high] |
| `Properties.IterateDistinct` | src/main.rs:63-69 | in unique mode, a distinct accumulator stays distinct after every push |
| `Properties.LaterIterationsCannotFail` | src/main.rs:51-61 | once one draw succeeded and the guard passed, no later iteration panics or exits with code 1 |
| `Properties.IterateVerbatim` | src/main.rs:51-71 | without `--unique`, the pushed values are exactly the draws in order, with no membership check; enough draws guarantee the loop finishes |
| `Properties.OutputsInRange` | src/main.rs:53-71 | every integer a run prints lies in [low, high] inclusive |
| `Properties.UniqueOutputsDistinct` | src/main.rs:56-71 | with `--unique`, no two printed integers of a run are equal |
| `Properties.OkPrintsCount` | src/main.rs:51-71 | a successful run prints max(count, 0) lines, so a negative count prints none; a run that stopped early printed fewer than count |
| `Properties.ErrorsPrintNothing` | src/main.rs:30-72 | every exit with code 1 and every panic happens before any line is printed |
| `Properties.GuardFiresBeforeOutput` | src/main.rs:56-61 | with `--unique`, `high` below i32's maximum, low <= high and count > high - low + 1, the run exits 1 on the first iteration, before any push or print |
| `Properties.NonUniqueRunPrintsDraws` | src/main.rs:51-71 | without `--unique`, a run with enough draws succeeds and prints exactly the first `count` draws |
| `Properties.ExhaustiveUniqueRunIsPermutation` | src/main.rs:51-72 | with `--unique` and count = high - low + 1, a successful run prints every value of [low, high] exactly once |
| `Properties.WideUniqueRangeFails` | src/main.rs:58-60 | with `--unique` and more than 2^31 - 1 values in the range, a debug build panics and a release build exits 1, both before printing |
| `Properties.RangeWithoutDrawPanics` | src/main.rs:53 | when `high` is i32's maximum or `low > high`, any run with count >= 1 panics before printing |
| `Properties.NonUniqueMayRepeat` | src/main.rs:51-71 | a worked instance, a witness that duplicates occur: without `--unique`, two equal draws print the same value twice (the general statement is `Properties.NonUniqueRunPrintsDraws`) |

## Left out

- The float branch is not modelled: `float_rng`, `round`,
  `check_f64_for_uniqueness` and src/main.rs:73-106. It is floating-point
  arithmetic, which this model does not cover. A run that selects it ends as
  `FloatMode`.
- Argument parsing by `clap` (src/main.rs:7-24, 28) is a foreign library.
  The run takes the parsed values as `Option<i32>` and the presence of
  `--float` as a bool.
- `rand::thread_rng` and the internals of `gen_range` are foreign and
  non-deterministic. They are replaced by the tape oracle.
- Rng.IntRng: states only the range and the panic conditions, not that the
  draw is uniform. The model has no probabilities.
- Generator.Run: does not prove that the unique-mode redraw loop ends. The
  loop ends only with probability one. On a finite tape the model stops with
  `OutOfRandomness` instead of drawing forever.
- `println!`, `eprintln!` and `process::exit` are I/O. They appear as the
  outcome and its `printed` sequence. The diagnostic texts and panic
  messages are reduced to the `ErrorKind` and `Panicked` cases.
