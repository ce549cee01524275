/**
 * The timed trial runner `BEST_TIME`: repeat a fill `repeat` times, read the
 * cycle counter before and after each run, and keep the smallest elapsed
 * count. The counter is an input: `clock(t)` is the pair of 32-bit halves
 * that the `t`-th counter read returns.
 */
module Timing {
  import opened Uint
  import opened Generator
  import opened Fill

  /** The edx:eax pair left by `rdtsc`/`rdtscp`. */
  datatype Halves = Halves(high: u32, low: u32)

  /** The successive reads of the time-stamp counter over a run of the program. */
  type Clock = nat -> Halves

  /** The count that a read denotes: the high half times 2^32 plus the low half. */
  function Stamp(h: Halves): u64
  {
    h.high * TWO32 + h.low
  }

  /**
   * `RDTSC_START` (`cpuid` then `rdtsc`) and `RDTSC_FINAL` (`rdtscp` then
   * `cpuid`) read the counter with different instructions but assemble the
   * 64-bit count from edx:eax in the same way. The value read is an input,
   * so the instant each read samples is not modelled.
   */
  function ReadCycles(clock: Clock, t: nat): (r: u64)
    ensures r == Stamp(clock(t))
    ensures ShiftRight32(r) == clock(t).high && r % TWO32 == clock(t).low
  {
    CombineRoundTrip(clock(t).high, clock(t).low);
    Combine(clock(t).high, clock(t).low)
  }

  /** `cycles_final - cycles_start` of repetition `i` of a trial whose first read is read number `t`. */
  function CycleDiff(clock: Clock, t: nat, i: nat): u64
  {
    Sub64(Stamp(clock(t + 2 * i + 1)), Stamp(clock(t + 2 * i)))
  }

  /** The number of times `for (int i = 0; i < repeat; i++)` runs its body. */
  function Reps(repeat: int): nat
  {
    if repeat > 0 then repeat else 0
  }

  /**
   * `min_diff` after `n` repetitions, as the loop computes it: start from
   * `UINT64_MAX` and replace it by each elapsed count that is strictly smaller.
   */
  function RunningMin(clock: Clock, t: nat, n: nat): u64
  {
    if n == 0 then U64_MAX
    else
      var m := RunningMin(clock, t, n - 1);
      if CycleDiff(clock, t, n - 1) < m then CycleDiff(clock, t, n - 1) else m
  }

  /**
   * The running minimum is the minimum: it is at most every repetition's
   * `cycles_diff`, it is one of them when `n > 0`, and it is `UINT64_MAX`
   * when no repetition ran.
   */
  lemma {:induction false} RunningMinIsMinimum(clock: Clock, t: nat, n: nat)
    ensures forall i :: 0 <= i < n ==> RunningMin(clock, t, n) <= CycleDiff(clock, t, i)
    ensures n == 0 ==> RunningMin(clock, t, n) == U64_MAX
    ensures n > 0 ==> exists i :: 0 <= i < n && RunningMin(clock, t, n) == CycleDiff(clock, t, i)
  {
    if n > 0 {
      RunningMinIsMinimum(clock, t, n - 1);
      if CycleDiff(clock, t, n - 1) >= RunningMin(clock, t, n - 1) && n > 1 {
        var i :| 0 <= i < n - 1 && RunningMin(clock, t, n - 1) == CycleDiff(clock, t, i);
        assert RunningMin(clock, t, n) == CycleDiff(clock, t, i);
      }
    }
  }

  /** A value that is at most every elapsed count and equal to one of them is the running minimum. */
  lemma RunningMinUnique(clock: Clock, t: nat, n: nat, m: u64)
    requires forall i :: 0 <= i < n ==> m <= CycleDiff(clock, t, i)
    requires exists i :: 0 <= i < n && m == CycleDiff(clock, t, i)
    ensures RunningMin(clock, t, n) == m
  {
    RunningMinIsMinimum(clock, t, n);
  }

  /** From one repetition to any later one, `min_diff` never goes up. */
  lemma {:induction false} RunningMinNonIncreasing(clock: Clock, t: nat, j: nat, k: nat)
    requires j <= k
    ensures RunningMin(clock, t, k) <= RunningMin(clock, t, j)
  {
    if j < k {
      RunningMinNonIncreasing(clock, t, j, k - 1);
    }
  }

  /** The generator state after `n` fills of `count` values each. */
  function AfterFills<S, W>(gen: S -> (S, W), s: S, count: nat, n: nat): S
  {
    if n == 0 then s else Advance(gen, AfterFills(gen, s, count, n - 1), count)
  }

  /** `n` fills of `count` values are `n * count` generator calls. */
  lemma {:induction false} AfterFillsCalls<S, W>(gen: S -> (S, W), s: S, count: nat, n: nat)
    ensures AfterFills(gen, s, count, n) == Advance(gen, s, n * count)
  {
    if n > 0 {
      AfterFillsCalls(gen, s, count, n - 1);
      AdvanceAdd(gen, s, (n - 1) * count, count);
      assert (n - 1) * count + count == n * count;
    }
  }

  /**
   * One repetition of the `BEST_TIME` body: read the counter, run the fill,
   * read the counter again, and subtract.
   */
  method Trial<S, W>(gen: S -> (S, W), s: S, buffer: seq<W>, count: nat, clock: Clock, t: nat)
    returns (cyclesDiff: u64, s': S, filled: seq<W>)
    requires count <= |buffer|
    ensures cyclesDiff == Sub64(Stamp(clock(t + 1)), Stamp(clock(t)))
    ensures s' == Advance(gen, s, count)
    ensures |filled| == |buffer|
    ensures filled[..count] == Draws(gen, s, count)
    ensures forall j :: count <= j < |buffer| ==> filled[j] == buffer[j]
  {
    var cyclesStart := ReadCycles(clock, t);
    ghost var written;
    filled, s', written := Populate(gen, s, buffer, count);
    var cyclesFinal := ReadCycles(clock, t + 1);
    cyclesDiff := Sub64(cyclesFinal, cyclesStart);
  }

  /**
   * The buffer after `n` fills of its first `count` slots: the values of the
   * latest fill followed by the untouched tail; the buffer as given if no
   * fill ran.
   */
  function LastFill<S, W>(gen: S -> (S, W), s: S, buffer: seq<W>, count: nat, n: nat): seq<W>
    requires count <= |buffer|
  {
    if n == 0 then buffer else Draws(gen, AfterFills(gen, s, count, n - 1), count) + buffer[count..]
  }

  /**
   * The buffer left by `n > 0` fills holds the values of calls
   * `(n - 1) * count` to `n * count - 1`; its tail is never written.
   */
  lemma LastFillContents<S, W>(gen: S -> (S, W), s: S, buffer: seq<W>, count: nat, n: nat)
    requires count <= |buffer|
    ensures |LastFill(gen, s, buffer, count, n)| == |buffer|
    ensures n > 0 ==> LastFill(gen, s, buffer, count, n)[..count] == Draws(gen, Advance(gen, s, (n - 1) * count), count)
    ensures LastFill(gen, s, buffer, count, n)[count..] == buffer[count..]
  {
    if n > 0 {
      AfterFillsCalls(gen, s, count, n - 1);
      var r := LastFill(gen, s, buffer, count, n);
      assert r[..count] == Draws(gen, AfterFills(gen, s, count, n - 1), count);
    }
  }

  /**
   * What `BEST_TIME` has established after `i` repetitions: the running
   * minimum of the first `i` elapsed counts, the generator state after `i`
   * fills, and the buffer left by the latest fill.
   */
  ghost predicate Progress<S, W>(gen: S -> (S, W), s: S, buffer: seq<W>, count: nat, clock: Clock, t: nat,
                                 i: nat, minDiff: u64, st: S, filled: seq<W>)
    requires count <= |buffer|
  {
    && minDiff == RunningMin(clock, t, i)
    && st == AfterFills(gen, s, count, i)
    && filled == LastFill(gen, s, buffer, count, i)
  }

  /** Repetition `i` of the `BEST_TIME` loop: a trial, then `if (cycles_diff < min_diff) min_diff = cycles_diff`. */
  method Repetition<S, W>(gen: S -> (S, W), s: S, buffer: seq<W>, count: nat, clock: Clock, t: nat,
                          i: nat, minDiff: u64, st: S, filled: seq<W>)
    returns (minDiff': u64, st': S, filled': seq<W>)
    requires count <= |buffer|
    requires Progress(gen, s, buffer, count, clock, t, i, minDiff, st, filled)
    ensures Progress(gen, s, buffer, count, clock, t, i + 1, minDiff', st', filled')
  {
    var cyclesDiff;
    cyclesDiff, st', filled' := Trial(gen, st, filled, count, clock, t + 2 * i);
    assert cyclesDiff == CycleDiff(clock, t, i);
    minDiff' := minDiff;
    if cyclesDiff < minDiff' {
      minDiff' := cyclesDiff;
    }
    assert filled[count..] == buffer[count..];
    assert filled'[count..] == filled[count..];
    assert filled' == filled'[..count] + filled'[count..];
  }

  /**
   * `BEST_TIME(populate(gen, buffer, count), ..., repeat, ...)`: `repeat`
   * trials, keeping the smallest elapsed count in `minDiff`, which starts at
   * `UINT64_MAX`. `t'` is the index of the next unused counter read.
   */
  method BestTime<S, W>(gen: S -> (S, W), s: S, buffer: seq<W>, count: nat, repeat: int, clock: Clock, t: nat)
    returns (minDiff: u64, s': S, filled: seq<W>, t': nat)
    requires count <= |buffer|
    ensures minDiff == RunningMin(clock, t, Reps(repeat))
    ensures forall i :: 0 <= i < Reps(repeat) ==> minDiff <= CycleDiff(clock, t, i)
    ensures repeat <= 0 ==> minDiff == U64_MAX
    ensures repeat > 0 ==> exists i :: 0 <= i < repeat && minDiff == CycleDiff(clock, t, i)
    ensures s' == AfterFills(gen, s, count, Reps(repeat))
    ensures filled == LastFill(gen, s, buffer, count, Reps(repeat))
    ensures t' == t + 2 * Reps(repeat)
  {
    minDiff, s', filled, t' := U64_MAX, s, buffer, t;
    var i := 0;
    while i < repeat
      invariant 0 <= i <= Reps(repeat)
      invariant t' == t + 2 * i
      invariant Progress(gen, s, buffer, count, clock, t, i, minDiff, s', filled)
    {
      minDiff, s', filled := Repetition(gen, s, buffer, count, clock, t, i, minDiff, s', filled);
      t' := t' + 2;
      i := i + 1;
    }
    assert i == Reps(repeat);
    RunningMinIsMinimum(clock, t, i);
  }
}
