# integer-cbrt: a verified model of the integer cube root

The crate `integer-cbrt` provides the trait `IntegerCubeRoot` with a blanket
implementation for every primitive integer type. The implementation has two
operations:

- `integer_cbrt_checked` returns `None` for a negative input. Otherwise it
  returns the floor cube root, the largest `r` with `r^3 <= v`.
- `integer_cbrt` unwraps that result and panics on a negative input.

The root is computed digit by digit in base 8, in the input's own type:

- the shift `s` runs over the multiples of three below the bit width, largest
  first;
- the partial root `result` is doubled;
- the threshold `b = 3 * result * (result + 1) + 1` is compared with `x >> s`;
- when `b` fits, `b << s` is taken away from the remainder `x` and `result`
  is incremented.

This project models that code in Dafny and proves:

- the result is the floor cube root of the input, for every width and
  signedness;
- none of the additions, subtractions, multiplications or shifts can overflow
  the input's type;
- the loop visits exactly the shifts the range expression produces;
- the unit tests' and benchmarks' expected values are what the model computes.

Files:

- `prim_int.dfy` (module `PrimInt`) models a primitive integer type as its
  width and signedness. It gives the machine operations the algorithm uses and
  their overflow conditions.
- `cube_root_spec.dfy` (module `CubeRootSpec`) says what a floor cube root is
  (`IsCbrt`, `Icbrt`). It also holds the facts about cubes the algorithm
  relies on.
- `integer_cbrt.dfy` (module `IntegerCubeRoot`) models the two trait methods.
  It also holds the loop (`DigitByDigit`, with its body `NextDigit`) and the
  lemmas that prove it.
- `cbrt_tests.dfy` (module `CbrtTests`) covers the unit tests, the doc example
  and the benchmark assertions. Each one is stated as a proved property of
  the model.
- `wrappers.dfy` (module `Wrappers`) holds the `Option` type.

How Rust's operations are modelled:

- `+`, `-` and `*` panic on overflow in a debug build. They are modelled as
  functions whose precondition is that the exact result fits the type. Every
  call site in the loop discharges that precondition, which is the proof of
  no overflow.
- `<<` drops the bits shifted past the width. It is modelled by truncating to
  the type (`Wrap`), and the loop proves that no bit is actually lost.
- `>>` on the non-negative remainder is floor division by `2^s`.
- `leading_zeros` of zero is the bit width, `bits`.

## Model

| member | source | states |
|---|---|---|
| `IntegerCubeRoot.IntegerCbrtChecked` | src/lib.rs:43-69 | `None` exactly when the input is negative, so never for an unsigned type. Otherwise `Some(r)` with `r^3 <= v < (r+1)^3`, `r == Icbrt(v)`, and both `r` and `r + 1` in the type. |
| `IntegerCubeRoot.IntegerCbrt` | src/lib.rs:27-33 | Panics exactly when the input is negative. When it returns, the value is the floor cube root, the same value the checked version wraps in `Some`. |
| `IntegerCubeRoot.DigitByDigit` | src/lib.rs:54-68 | The loop alone computes the floor cube root of every non-negative value of the type, zero included (where it gives 0, as the early return does). Its invariant `DigitsDone` keeps `result` the root of `v >> s` and `x == v - result^3 << s`. |
| `IntegerCubeRoot.NextDigit` | src/lib.rs:61-66 | One iteration, with the type's own checked operations: the invariant moves from shift `s + 3` to `s`, and the root becomes `2 * result` or `2 * result + 1`. |
| `IntegerCubeRoot.ShiftSchedule` | src/lib.rs:57-60 | `(0..bits).step_by(3).rev()` yields `ceil(bits/3)` shifts. The first is the largest multiple of three below `bits` and the last is zero. They strictly decrease, and every multiple of three below `bits` appears. |
| `IntegerCubeRoot.ShiftRightThenThree` | src/lib.rs:60-63 | Shifting right by `s + 3` is shifting right by `s` and then by three, so consecutive shifts differ by one base-8 digit. |
| `IntegerCubeRoot.RemainderArithmetic` | src/lib.rs:63-64 | With `c0`, `c1` the cubes of the doubled root and its successor and `b = c1 - c0`: `(x >> s) >= b` exactly when `c1 <= v >> s`. In that case `b << s <= x`, and the subtraction leaves `v - c1 << s`. |
| `IntegerCubeRoot.RemainderStepAt` | src/lib.rs:61-65 | After doubling, the remainder is `v - (2r)^3 << s`. The branch is taken exactly when `(2r+1)^3 <= v >> s`, and then the new remainder is `v - (2r+1)^3 << s`. |
| `IntegerCubeRoot.RemainderStep` | src/lib.rs:61-66 | One iteration on unbounded integers restores the invariant. The new root is `2r + 1` when the branch is taken and `2r` otherwise, and the remainder stays between 0 and `v`. |
| `IntegerCubeRoot.ThresholdBelowEightCubes` | src/lib.rs:62 | For a partial root of at least 2, the threshold `3 * (2r) * (2r + 1) + 1` is at most `8 r^3`. |
| `IntegerCubeRoot.ThresholdFits` | src/lib.rs:61-62 | Every intermediate value is at most the type's `MAX`: the doubled root, `three * result`, `result + one`, `three * result * (result + one)` and the threshold `b`. |
| `IntegerCubeRoot.IterationRestores` | src/lib.rs:61-66 | The loop invariant holds again after either outcome of the test `(x >> s) >= b`. |
| `IntegerCubeRoot.IterationInType` | src/lib.rs:61-65 | Every operand and result of `+`, `*` and `-` in an iteration is a value of the type. When the branch is taken, `b << s` loses no bits. |
| `CubeRootSpec.Icbrt` | src/lib.rs:22 | The integer cube root of every natural number exists and satisfies `r^3 <= v < (r+1)^3`. |
| `CubeRootSpec.CbrtUnique` | src/lib.rs:22 | At most one `r` satisfies `r^3 <= v < (r+1)^3`. |
| `CubeRootSpec.IcbrtCharacterised` | src/lib.rs:22 | `r^3 <= v < (r+1)^3` holds exactly when `Icbrt(v) == r`, in both directions. |
| `CubeRootSpec.IcbrtMonotone` | src/lib.rs:22 | A larger input never has a smaller cube root. |
| `CubeRootSpec.CbrtAtMostInput` | src/lib.rs:68 | The root is at most the input, and strictly below it from 2 on. So the root and its successor fit the input's type. |
| `CubeRootSpec.CubeDifference` | src/lib.rs:62 | `(r+1)^3 - r^3 == 3r(r+1) + 1`, so the threshold is the gap to the next cube. |
| `CubeRootSpec.CubeDouble` | src/lib.rs:61 | `(2r)^3 == 8 r^3`: doubling the root matches one more base-8 digit of the input. |
| `CubeRootSpec.CubeStrictlyIncreasing` | src/lib.rs:22 | Cubes of non-negative numbers strictly increase. |
| `CubeRootSpec.CubeOrderReflected` | src/lib.rs:22 | For non-negative numbers, a smaller cube means a smaller number. |
| `CubeRootSpec.DoubledCubes` | src/lib.rs:61-62 | If `r` is the root of `u / 8`, then `(2r)^3 <= u`, `(2r)^3 < (2r+1)^3`, and their gap is the threshold of the doubled root. |
| `CubeRootSpec.DigitStep` | src/lib.rs:60-66 | If `r` is the root of `u / 8`, the root of `u` is `2r + 1` when `(2r+1)^3 <= u` and `2r` otherwise. |
| `PrimInt.Wrap` | src/lib.rs:64 | Truncation to the type's width: the result is a value of the type, congruent to the input modulo `2^bits`, and equal to the input when the input is already in the type. |
| `PrimInt.MaxBounds` | src/lib.rs:54-57 | Every value of a type lies below `2^bits`, and `MAX` is at least 127, so the constants `one` and `three` fit. |
| `PrimInt.Pow2PlusThree` | src/lib.rs:60 | `2^(s+3) == 8 * 2^s`: the step of three between shifts. |
| `CbrtTests.MaxValues` | src/lib.rs:107 | `max_value()` of each of the ten types, written out. |
| `CbrtTests.SmallRoots` | src/lib.rs:99-106 | The expected roots 0→0, 1→1, 2→1, 3→1, 4→1, 8→2, 63→3, 64→4, plus 511→7 from the benchmarks. |
| `CbrtTests.LargeRoots` | src/lib.rs:142-143 | 23985346875→2883, 24958973498745→29224, and 10^15→100000 from the benchmarks. |
| `CbrtTests.MaxRoots` | src/lib.rs:84-108 | For each type, `MAX` and `MAX - 1` have the same root. It is the largest value whose cube does not overflow: 5, 6, 31, 40, 1290, 1625, 2097151, 2642245, 5541191377756 and 6981463658331. |
| `CbrtTests.CheckTable` | src/lib.rs:110-112 | Checking a table of `(input, expected)` pairs passes exactly when every expected value is the floor cube root of its input. |
| `CbrtTests.GenCasesHold` | src/lib.rs:98-109 | Every pair of the generic test table is a value of the type together with its floor cube root. |
| `CbrtTests.GenTest` | src/lib.rs:77-130 | The generic test passes for every type. |
| `CbrtTests.I128Test` | src/lib.rs:132-149 | The `i128` test passes. |
| `CbrtTests.DocExample` | src/lib.rs:13 | `8u8.integer_cbrt()` is 2. |
| `CbrtTests.BenchU64` | benches/cbrt.rs:21-46 | The `u64` benchmarks give `Some(7)`, `Some(100000)` and `Some(2642245)`. |
| `CbrtTests.BenchU128` | benches/cbrt.rs:48-73 | The `u128` benchmarks give `Some(7)`, `Some(100000)` and `Some(6981463658331)`. |

## Left out

- Generic dispatch through `num_traits::PrimInt` is replaced by a type parameter `IntType(bits, signed)`. `isize` and `usize` are the 16-, 32- or 64-bit types of the target and are not separate.
- The loop body is a separate method, `NextDigit`. The locals `one` and `three` are passed to it; the computation is unchanged.
- `IntegerCbrt` models the panic as the outcome `Panicked`. The panic message text is not modelled.
- The test oracle `max_cbrt` (src/lib.rs:83-97) computes the expected root of `MAX` with `f64` Newton–Raphson steps. It is replaced by the exact values in `MaxCbrt`, and `MaxRoots` proves each one is the floor cube root. Floating point is not modelled.
- `icbrt_via_f64` and the `f64` benchmarks (benches/cbrt.rs:10-19, 75-100) are floating point and are not modelled.
- `Bencher`, `black_box` and the `#[test]` macro plumbing are harness code. Each test and benchmark is modelled by the assertion it makes.
- Release-build wrapping of `+`, `-` and `*` is not modelled separately. The model proves that no overflow occurs, so debug and release builds behave alike.
- The no-overflow proof holds for any width of at least 8 bits. `IntegerCbrtChecked` still requires one of the five widths Rust provides.
- Nothing is left out at the top of the range: `IntegerCbrtChecked` ensures `r + 1` is a value of the type, so `r^3 <= v < (r+1)^3` holds for `MAX` too, with no exception for overflow.
