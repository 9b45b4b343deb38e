# Rust libstd `uint` helpers and the console log sink, in Dafny

This project models two small pieces of an early (2013) Rust standard library:

- `src/libstd/num/uint.rs`: unsigned division rounded down, up and to the
  nearest integer (`div_floor`, `div_ceil`, `div_round`), the repetition
  combinator `times`, and `next_power_of_two`, which smears the highest set
  bit of `n - 1` into every lower bit and adds one.
- `src/libstd/rt/logging.rs`: `StdErrLogger::log`, which drops a message while
  console logging is off and otherwise writes its text, cut to 2048 bytes plus
  `"[...]"`, and a newline to stderr; and the console flag that
  `console_on`, `console_off` and `should_log_console` reach in the native
  runtime.

Files:

- `bits.dfy` (module `Bits`): powers of two, bit length, bitwise OR and
  logical right shift on unbounded naturals, with the facts about them the
  bit-smearing loop needs.
- `uint.dfy` (module `Uint`): `uint` as a 64-bit word (`Word`, integers in
  [0, 2^64)), with machine wrap-around written out (`WrappingAdd`,
  `WrappingSub`, `WrappingMul`); the three divisions as functions; `times` as
  a loop over a counting closure; `next_power_of_two` as the original loop,
  proved equal to `NextPowerOfTwoSpec`, the least power of two not below `n`
  (0 for `n == 0` and for `n > 2^63`, where that power is 2^64 and wraps).
- `logging.dfy` (module `Logging`): messages as `Either` of byte strings,
  the truncation rule as the function `Truncate`, and a class `Console`
  holding the console flag and the bytes written to stderr, whose `Log`
  method is `StdErrLogger::log`.

Where the documentation and the code disagree, the model follows the code, except for
`div_round`: `DivRound` follows its doc comment and `DivRoundAsWritten` the code
(see "## Findings"):

- The doc comment of `div_floor` (uint.rs:66-69) repeats the ceiling
  description of `div_ceil`; the code returns `x / y`, rounded down.
- `div_round` doubles the remainder with a wrapping multiplication, which for
  y > 2^63 can return a result that is not the nearest integer. `DivRound`,
  which the rest of the model uses, compares the remainder with what is left of
  the divisor instead, which cannot overflow; `DivRoundAsWritten` is the code
  as written.
- The doc comment of `next_power_of_two` (uint.rs:94) promises the smallest
  power of two not below `n`, which would be 1 for `n == 0`; the code wraps
  and returns 0 there, as its test expects (uint.rs:106), and also for every
  `n > 2^63`, where no power of two fits in a word. `NextPowerOfTwoSpec`
  states these cases and `NextPowerOfTwoSpecWraps` explains them as the least
  power of two reduced modulo 2^64.

## Model

| member | source | states |
|---|---|---|
| `Uint.DivFloor` | src/libstd/num/uint.rs:56-71 | the result q satisfies q*y <= x < (q+1)*y: x/y rounded down |
| `Uint.DivCeil` | src/libstd/num/uint.rs:20-36 | x <= q*y and (q-1)*y < x when q > 0: the smallest q with x/y <= q; `div + 1` stays inside the word |
| `Uint.DivRound` | src/libstd/num/uint.rs:38-54 | (2q-1)*y <= 2x < (2q+1)*y: q is the integer nearest x/y, halves rounded up; increment stays inside the word |
| `Uint.DivRoundAsWritten` | src/libstd/num/uint.rs:50-54 | the code as written, with the wrapping `x % y * 2u`; its own ensures says only that the result is x/y or x/y + 1; how it rounds is stated by DivRoundAsWrittenAgrees and DivRoundAsWrittenOverflows |
| `Uint.DivRoundAsWrittenAgrees` | src/libstd/num/uint.rs:50-54 | for y <= 2^63 the code as written (wrapping `x % y * 2u`) returns what DivRound returns |
| `Uint.DivRoundAsWrittenOverflows` | src/libstd/num/uint.rs:52 | for x = 2^63+1, y = 2^63+2 the code as written returns 0, which is not the nearest integer; DivRound returns 1 |
| `Uint.DivCases` | src/libstd/num/uint.rs:32-54 | div_floor is x/y; div_ceil adds one exactly when y does not divide x; div_round adds one exactly when 2*(x%y) >= y |
| `Uint.DivOrdering` | src/libstd/num/uint.rs:68-69 | floor <= round <= ceil <= floor + 1: each result is x/y or x/y + 1 |
| `Uint.DivExact` | src/libstd/num/uint.rs:32-71 | when y divides x all three divisions return x/y |
| `Uint.DivExample` | src/libstd/num/uint.rs:156-161 | div_floor(3,4) == 0, div_ceil(3,4) == 1, div_round(3,4) == 1 |
| `Uint.Times` | src/libstd/num/uint.rs:73-91 | the closure is called exactly n times: its counter grows by n |
| `Uint.TimesZero` | src/libstd/num/uint.rs:85-91 | with n == 0 the closure is never called: its state is unchanged |
| `Uint.TimesTen` | src/libstd/num/uint.rs:163-170 | ten repetitions of `accum += 1` from 0 leave accum == 10 |
| `Uint.PowerOfTwoCeilingIsLeast` | src/libstd/num/uint.rs:94 | the reference definition is a power of two, at least n, below 2n for n >= 1, and at most every power of two that is at least n |
| `Uint.NextPowerOfTwoSpecIsLeast` | src/libstd/num/uint.rs:94-102 | on a 64-bit word: 0 for n == 0; for 1 <= n <= 2^63 a power of two with n <= r < 2n, at most every power of two >= n; 0 for n > 2^63 |
| `Uint.NextPowerOfTwoSpecWraps` | src/libstd/num/uint.rs:98-101 | for n >= 1 the result is the least power of two >= n reduced modulo 2^64 |
| `Uint.NextPowerOfTwoTable` | src/libstd/num/uint.rs:104-146 | the test table: 0->0, 1->1, 2->2, 3->4, ..., 17->32, 32->32, 33->64, ..., 39->64 |
| `Uint.SmearStep` | src/libstd/num/uint.rs:100 | one round of OR-ing in tmp >> shift turns a value whose top s bits are ones into one whose top 2s bits are ones, with no bit above the highest |
| `Uint.SmearedFull` | src/libstd/num/uint.rs:99-100 | once shift reaches 64 the value is all ones below its bit length |
| `Uint.SmearPlusOne` | src/libstd/num/uint.rs:98-101 | smearing the wrapped n - 1 and adding one with wrap-around gives NextPowerOfTwoSpec(n) |
| `Uint.NextPowerOfTwo` | src/libstd/num/uint.rs:94-102 | the loop returns NextPowerOfTwoSpec(n): 0 for 0, the smallest power of two >= n for 1 <= n <= 2^63, 0 above |
| `Bits.OrAtLeast` | src/libstd/num/uint.rs:100 | a OR b is at least a and at least b |
| `Bits.OrBelow` | src/libstd/num/uint.rs:100 | a OR b sets no bit at or above j when neither operand does |
| `Bits.OrHigh` | src/libstd/num/uint.rs:100 | bits at or above position j pass through OR unchanged when the other operand is below 2^j |
| `Logging.Truncate` | src/libstd/rt/logging.rs:40-47 | texts of at most 2048 bytes are unchanged; longer ones become exactly 2048 + 5 bytes ending in "[...]"; the first min(len, 2048) bytes are always kept |
| `Logging.TruncatedIffLong` | src/libstd/rt/logging.rs:41-47 | the marker is added if and only if the text is longer than 2048 bytes, and the written length tells which happened |
| `Logging.OwnedAndStaticAlike` | src/libstd/rt/logging.rs:29-38 | an owned (`Left`) and a static (`Right`) message with the same text produce the same output |
| `Logging.LogLineShape` | src/libstd/rt/logging.rs:49-53 | the output of one call is the written text followed by one newline |
| `Logging.TruncateBoundaries` | src/libstd/rt/logging.rs:41-47 | 2049 bytes become 2048 plus the marker, 2048 bytes pass unchanged, the empty message is a bare newline |
| `Logging.Console.ConsoleOn` | src/libstd/rt/logging.rs:82-83 | the console flag becomes true and stderr is untouched |
| `Logging.Console.ConsoleOff` | src/libstd/rt/logging.rs:85-86 | the console flag becomes false and stderr is untouched |
| `Logging.Console.ShouldLogConsole` | src/libstd/rt/logging.rs:88-89 | returns the current console flag |
| `Logging.Console.Print` | src/libstd/rt/logging.rs:49-54 | appends the text and then one newline to stderr |
| `Logging.Console.Log` | src/libstd/rt/logging.rs:21-55 | with the flag off stderr is unchanged; with it on exactly the shortened text and a newline are appended; the flag never changes |
| `Logging.LogAfterConsoleOff` | src/libstd/rt/logging.rs:25-27 | after console_off a log call writes nothing |
| `Logging.LogAfterConsoleOn` | src/libstd/rt/logging.rs:21-55 | after console_on a log call writes one line of at most 2048 + 5 + 1 bytes |

## Left out

- Division by zero: `DivFloor`, `DivCeil`, `DivRound` and `DivRoundAsWritten` require y != 0, as the source's doc comments ask of callers (uint.rs:26, 44, 64), so the fault `x / y` raises for y == 0 is not modelled.
- `uint_module!(uint, int, ::int::bits)` and everything it generates (`max_value`, `min_value`, the generic operations) and `test_overflows`, which uses them: the macro body is not part of this model.
- `uint` is pointer-sized; the model fixes it at 64 bits (`sys::size_of::<uint>()` is 8, so `halfbits` is 32). A 32-bit target is not modelled.
- Uint.Times: the closure is modelled by the counting closure of `test_times` (`Accumulator`), not by an arbitrary closure, since Dafny cannot pass a state-changing method as a value; the contract says how many times it runs.
- The `Logger` trait: its one implementation, `StdErrLogger::log`, is modelled as the method `Console.Log` of the class that holds the console state.
- `init`: reading `RUST_LOG` from the environment, converting it to a C string and calling `rust_update_log_settings`, which parses it in native code that is not part of this model.
- The real write to stderr and the flush in `print`, and their failure modes: stderr is the byte sequence `Console.stderr`, to which each write appends.
- Visibility of the native console flag across threads: the flag is one sequential boolean field; its initial value is a constructor parameter, as the native runtime chooses it.
- The failure of `s.slice(0, 2048)` when byte 2048 is not a UTF-8 character boundary: messages are byte sequences and are cut by bytes.

## Findings

| source | as written | input that shows it | evidently intended | confidence | as-written member | corrected member |
|---|---|---|---|---|---|---|
| src/libstd/num/uint.rs:52 | `x % y * 2u < y` doubles the remainder with a wrapping multiplication | x = 2^63 + 1, y = 2^63 + 2: the doubled remainder wraps to 2 < y, so the result is 0 although x/y is just below 1 | round up exactly when the remainder is at least half of y, i.e. `x % y >= y - x % y` | high, not executed | `Uint.DivRoundAsWritten`, exhibited by `Uint.DivRoundAsWrittenOverflows` | `Uint.DivRound` |
