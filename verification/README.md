# A model of the `speed` benchmark harness of `rng.c`

`speed/src/rng.c` times fifteen pseudo-random number generators: eight that
return `uint32_t` and seven that return `uint64_t`. For each generator,
`demo(size)` invokes `BEST_TIME` once with `repeat = 500`. Each of its 500
repetitions fills a `size`-byte buffer through `populate32` or `populate64`
between two reads of the processor's time-stamp counter, and the smallest
elapsed cycle count is kept.

This project models the deterministic part of that harness in Dafny:

- **`Uint`**: the C unsigned arithmetic the harness relies on. This covers
  the `uint32_t`/`uint64_t` ranges, `<< 32`, `>> 32` and `|` on `uint64_t`,
  and the wrap-around subtraction of two `uint64_t`. The timestamp
  `((uint64_t)high << 32) | low` is proved to equal `high * 2^32 + low`.
- **`Generator`**: a generator as the harness sees it. It is a step
  function `S -> (S, W)` over a hidden state `S`. `Advance` is the state
  after `n` calls, and `Draws` is the values of the first `n` calls in call
  order. Two concrete stubs are included: a counter and a constant.
- **`Fill`**: `populate32` and `populate64`. They share one loop over a
  counter running down from `size`, which writes slot `size - i`. The array
  is a sequence passed in and returned.
- **`Timing`**: the `RDTSC_START`/`RDTSC_FINAL` combine and `BEST_TIME`.
  The counter is an input `clock: nat -> Halves`: read number `t` returns
  the pair of halves that the read leaves in edx and eax (`rdtsc` in
  `RDTSC_START`, `rdtscp` in `RDTSC_FINAL`; both combine edx:eax the same
  way). Repetition `i`
  of a trial whose first read is read number `t` uses reads `t + 2i` and
  `t + 2i + 1`. The loop's `min_diff` is the recursive reference
  `RunningMin`, and lemmas prove it is the minimum of the elapsed counts.
- **`Demo`**: the two registry tables, the `size / 8 * 8 == size` assertion,
  the word counts `size / 4` and `size / 8`, and the two sweeps over the
  tables. The result is either `AssertionFailed` or the 15 report lines in
  table order, each carrying its `min_diff`.

## Model

| member | source | states |
|---|---|---|
| Fill.Populate | speed/src/rng.c:44-54 | After the loop over `i` from `size` down to 1, slot `j < size` holds the value of the `j`-th generator call. Slots at and after `size` are untouched. The generator has been called exactly `size` times. The slots are written in increasing order 0, 1, …, `size - 1`. |
| Fill.Populate32 | speed/src/rng.c:44-48 | `populate32` fills the first `size` words with the generator's first `size` outputs in call order, leaves the rest alone, and advances the generator by exactly `size` calls. |
| Fill.Populate64 | speed/src/rng.c:50-54 | The same for `populate64` on a `uint64_t` array. |
| Fill.PopulateWithCounter | speed/src/rng.c:44-48 | With a counting generator, the filled prefix is 0, 1, …, `size - 1`, which is each slot's own index. The generator is called exactly `size` times. |
| Fill.PopulateWithZero | speed/src/rng.c:44-48 | With a constant-zero generator, the filled prefix is all zeros and the generator's state does not move. |
| Generator.AdvanceStep | speed/src/rng.c:45-46 | One more call to the generator continues from the state the previous calls left. |
| Generator.AdvanceAdd | speed/src/rng.c:45-46 | `a` calls followed by `b` calls leave the same state as `a + b` calls. Successive fills therefore chain. |
| Generator.DrawsAt | speed/src/rng.c:45-46 | The `j`-th value drawn is the generator's output from the state left by the first `j` calls. |
| Generator.DrawsSplit | speed/src/rng.c:45-46 | The outputs of `a + b` calls are the outputs of the first `a` calls followed by those of the next `b`. |
| Generator.CounterDraws | speed/src/rng.c:45-46 | For the counting generator, call `j` returns `c + j` mod 2^32, and `n` calls advance the count by `n` mod 2^32. |
| Generator.ZeroDraws | speed/src/rng.c:45-46 | For the constant generator, every output is 0 and the state is never changed. |
| Uint.BitOrDisjoint | speed/src/rng.c:65 | Or-ing a value whose low `k` bits are zero with a value below 2^k is addition: the bits are disjoint. |
| Uint.Combine | speed/src/rng.c:65 | The timestamp `(uint64_t)high << 32`, or-ed with `low`, equals `high * 2^32 + low`. No bit of `high` is lost and no bits overlap. |
| Uint.CombineRoundTrip | speed/src/rng.c:65 | Shifting a combined timestamp right by 32 gives back the high half, and reducing it mod 2^32 gives back the low half. |
| Uint.CombineSplit | speed/src/rng.c:77 | Every `uint64_t` is the combination of exactly one pair of 32-bit halves: its quotient and remainder by 2^32. |
| Uint.Sub64Value | speed/src/rng.c:98 | `cycles_final - cycles_start` is the true difference when the final count is not smaller than the start. Otherwise it is the true difference plus 2^64. Adding it back to the start gives the final count mod 2^64. |
| Timing.ReadCycles | speed/src/rng.c:56-78 | A counter read denotes the count `high * 2^32 + low` of the pair it reads. Its high and low halves can be recovered exactly. |
| Timing.RunningMinIsMinimum | speed/src/rng.c:91-101 | After `n` repetitions, `min_diff` is at most every repetition's elapsed count and equals one of them. With no repetition it is `UINT64_MAX`. |
| Timing.RunningMinUnique | speed/src/rng.c:91-101 | Any value that is at most every elapsed count and equal to one of them is the `min_diff` the loop computes. |
| Timing.RunningMinNonIncreasing | speed/src/rng.c:99-100 | `min_diff` never increases from one repetition to any later one. |
| Timing.AfterFillsCalls | speed/src/rng.c:92-96 | `n` fills of `count` values leave the generator in the state of `n * count` calls. |
| Timing.LastFillContents | speed/src/rng.c:92-96 | After `n > 0` repetitions, the buffer's first `count` slots hold the outputs of calls `(n - 1) * count` to `n * count - 1`. The tail past `count` is never written. |
| Timing.Trial | speed/src/rng.c:95-98 | One repetition: the elapsed count is the second read's count minus the first read's count mod 2^64. The generator advances by exactly `count` calls. The buffer's prefix holds those calls' outputs and its tail is unchanged. |
| Timing.Repetition | speed/src/rng.c:92-101 | If, after `i` repetitions, `min_diff`, the generator state and the buffer agree with the reference, they still agree after repetition `i + 1`. |
| Timing.BestTime | speed/src/rng.c:86-107 | After the loop: `min_diff` is at most every repetition's elapsed count and equal to one of them when `repeat > 0`. It is `UINT64_MAX` when `repeat <= 0`. The generator has made `repeat` fills' worth of calls. The buffer holds the last fill. Exactly `2 * repeat` counter reads were used. |
| Demo.RegistryNames | speed/src/rng.c:28-42 | The name tables have 8 and 7 entries, matching the function tables, and no name appears twice in a table. |
| Demo.SizeCheck | speed/src/rng.c:115-121 | The assertion `size / 8 * 8 == size` holds exactly when `size` is a multiple of 8. Then `size / 4` 32-bit words and `size / 8` 64-bit words each cover the `size` bytes exactly. |
| Demo.SweepStartValue | speed/src/rng.c:117-122 | In a sweep, generator `k` starts at counter read `t + 2 * repeat * k`: every earlier `BEST_TIME` used two reads per repetition. |
| Demo.Sweep | speed/src/rng.c:117-122 | A sweep reports one line per table entry, in table order. Line `k` carries entry `k`'s name, the word count, the byte count, and the minimum elapsed count of that entry's own trials. Each entry's fills continue from the state the previous entry left. |
| Demo.RunDemo | speed/src/rng.c:109-126 | `demo(size)` fails its assertion exactly when `size` is not a multiple of 8. Otherwise it reports the 8 32-bit generators with `size / 4` words, then the 7 64-bit generators with `size / 8` words. Every line is in table order with its own minimum, and both word counts cover the `size` bytes exactly. |

## Left out

- The inline assembly (`cpuid`, `rdtsc`, `rdtscp`) and the compiler memory barrier: the counter values are arbitrary inputs, so the instant each read samples, which the serialising instructions pin down, is not modelled. Only the way both macros combine edx:eax into one count is modelled.
- The `printf`/`fflush` output and the `float` cycles-per-byte figure (`min_diff / (double)S`): output and floating point. The report carries the integer `min_diff` and the byte count `S` that the figure is computed from.
- The generator algorithms themselves (xorshift, PCG, Mersenne Twister, AES-CTR, …) and the C library's `rand`: they are not part of this model. Each is an arbitrary step function over a shared hidden state.
- `main`, which calls `demo(4096)` twice: it fixes an argument and repeats the call.
- `malloc` and `free`: the buffer is a sequence of zeros of the word count's length. C leaves `malloc`'d memory uninitialised. That cannot affect the report, because every fill writes the whole buffer (`Demo.SizeCheck`). The failure of `malloc` is not modelled.
- The 32-bit and 64-bit phases write one shared byte buffer in C. The model gives each phase its own typed sequence. No value is ever read back, so the report is the same.
- RunDemo: assertions are assumed enabled. Built with `NDEBUG`, `demo` would go on to measure `size / 4` and `size / 8` words for any size, and the model's `AssertionFailed` outcome would not occur.
- RunDemo: takes `size` as a natural number. A negative `int` size passes the assertion when it is a multiple of 8, but `malloc` and the `size_t` word counts then receive a negative value converted to `size_t`, and the later writes have undefined behaviour.
- BestTime: the loop counter is a mathematical integer. The C `int i` could only overflow if `repeat` exceeded `INT_MAX`, and `repeat` is the constant 500 in `demo`.
- Populate: the `size_t` loop counter is a natural number. `size` is a word count derived from an `int`, so it never approaches `SIZE_MAX`.
