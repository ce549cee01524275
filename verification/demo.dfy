/**
 * The benchmark driver `demo(size)`: check that `size` is a multiple of 8,
 * then time every 32-bit generator filling `size / 4` words and every 64-bit
 * generator filling `size / 8` words of one `size`-byte buffer, in registry
 * order, each with 500 repetitions.
 */
module Demo {
  import opened Uint
  import opened Generator
  import opened Timing

  const NumberOf32: nat := 8
  const NumberOf64: nat := 7

  /** `our32name`, parallel to the `our32` table. */
  const Names32: seq<string> := ["xorshift_k4", "xorshift_k5", "mersennetwister",
                                 "mitchellmoore", "widynski", "xorshift32", "pcg32",
                                 "rand"]

  /** `our64name`, parallel to the `our64` table. */
  const Names64: seq<string> := ["aesctr", "lehmer64",
                                 "xorshift128plus", "xoroshiro128plus",
                                 "splitmix64", "pcg64", "xorshift1024star"]

  /** `int repeat = 500;` */
  const Repeat: int := 500

  /**
   * The function-pointer tables `our32` and `our64`. Every generator works on
   * the same program state `S`, which holds all of their hidden states.
   */
  datatype Registry<!S> = Registry(our32: seq<S -> (S, u32)>, our64: seq<S -> (S, u64)>)
  {
    /** The tables have the lengths they are declared with. */
    predicate Valid()
    {
      |our32| == NumberOf32 && |our64| == NumberOf64
    }
  }

  /** One `BEST_TIME` report line: the generator's name, the words it filled, the byte count `S`, and `min_diff`. */
  datatype Measurement = Measurement(name: string, count: nat, bytes: nat, minCycles: u64)

  /** `demo` either stops at its `assert` or measures every generator. */
  datatype Outcome<S> =
    | AssertionFailed
    | Completed(report: seq<Measurement>, state: S, clockPos: nat)

  /** The name tables match the function tables in length, and no name repeats. */
  lemma RegistryNames()
    ensures |Names32| == NumberOf32 && |Names64| == NumberOf64
    ensures forall i, j :: 0 <= i < j < |Names32| ==> Names32[i] != Names32[j]
    ensures forall i, j :: 0 <= i < j < |Names64| ==> Names64[i] != Names64[j]
  {
  }

  /**
   * `size / 8 * 8 == size` holds exactly for multiples of 8, and then both
   * word counts cover the buffer exactly: `size / 4` 32-bit words and
   * `size / 8` 64-bit words are each `size` bytes.
   */
  lemma SizeCheck(size: nat)
    ensures size / 8 * 8 == size <==> size % 8 == 0
    ensures size % 8 == 0 ==> (size / 4) * 4 == size && (size / 8) * 8 == size
  {
  }

  /** The program state after each generator of `gens` in turn has run `n` fills of `count` values. */
  function AfterSweep<S, W>(gens: seq<S -> (S, W)>, s: S, count: nat, n: nat): S
  {
    if |gens| == 0 then s
    else AfterFills(gens[|gens| - 1], AfterSweep(gens[..|gens| - 1], s, count, n), count, n)
  }

  /**
   * The index of the first counter read of generator `k` in a sweep whose
   * first read is read number `t`: each `BEST_TIME` before it took two reads
   * per repetition.
   */
  function SweepStart(t: nat, repeat: int, k: nat): nat
  {
    if k == 0 then t else SweepStart(t, repeat, k - 1) + 2 * Reps(repeat)
  }

  lemma {:induction false} SweepStartValue(t: nat, repeat: int, k: nat)
    ensures SweepStart(t, repeat, k) == t + 2 * Reps(repeat) * k
  {
    if k > 0 {
      SweepStartValue(t, repeat, k - 1);
    }
  }

  /** The report line for generator `k` of a sweep whose first counter read is read number `t`. */
  function Expected(names: seq<string>, k: nat, count: nat, bytes: nat, repeat: int, clock: Clock, t: nat): Measurement
    requires k < |names|
  {
    Measurement(names[k], count, bytes, RunningMin(clock, SweepStart(t, repeat, k), Reps(repeat)))
  }

  /**
   * One of the two `for (int k = 0; k < NUMBEROF..; k++) BEST_TIME(...)`
   * loops: measure each generator of a table once, in table order, filling
   * `count` words of the same buffer `repeat` times each.
   */
  method Sweep<S, W>(gens: seq<S -> (S, W)>, names: seq<string>, s: S, buffer: seq<W>, count: nat,
                     bytes: nat, repeat: int, clock: Clock, t: nat)
    returns (report: seq<Measurement>, s': S, t': nat)
    requires |gens| == |names|
    requires count <= |buffer|
    ensures |report| == |gens|
    ensures forall k :: 0 <= k < |gens| ==> report[k] == Expected(names, k, count, bytes, repeat, clock, t)
    ensures s' == AfterSweep(gens, s, count, Reps(repeat))
    ensures t' == SweepStart(t, repeat, |gens|)
  {
    report, s', t' := [], s, t;
    var prec := buffer;
    var k := 0;
    while k < |gens|
      invariant 0 <= k <= |gens|
      invariant |report| == k
      invariant |prec| == |buffer|
      invariant forall j :: 0 <= j < k ==> report[j] == Expected(names, j, count, bytes, repeat, clock, t)
      invariant s' == AfterSweep(gens[..k], s, count, Reps(repeat))
      invariant t' == SweepStart(t, repeat, k)
    {
      var minDiff;
      minDiff, s', prec, t' := BestTime(gens[k], s', prec, count, repeat, clock, t');
      report := report + [Measurement(names[k], count, bytes, minDiff)];
      assert gens[..k + 1][..k] == gens[..k];
      k := k + 1;
    }
    assert gens[..k] == gens;
  }

  /**
   * `demo(size)`. A `size` that is not a multiple of 8 fails the `assert`
   * before anything is measured. Otherwise the report lists the 8 32-bit
   * generators, then the 7 64-bit ones, each once, in table order, and the
   * word counts cover the `size`-byte buffer exactly.
   */
  method RunDemo<S>(size: nat, reg: Registry<S>, s: S, clock: Clock, t: nat) returns (out: Outcome<S>)
    requires reg.Valid()
    ensures out.AssertionFailed? <==> size % 8 != 0
    ensures out.Completed? ==> |out.report| == NumberOf32 + NumberOf64
    ensures out.Completed? ==>
              forall k :: 0 <= k < NumberOf32 ==>
                out.report[k] == Expected(Names32, k, size / 4, size, Repeat, clock, t)
    ensures out.Completed? ==>
              forall k :: NumberOf32 <= k < NumberOf32 + NumberOf64 ==>
                out.report[k] == Expected(Names64, k - NumberOf32, size / 8, size, Repeat, clock,
                                          SweepStart(t, Repeat, NumberOf32))
    ensures out.Completed? ==> (size / 4) * 4 == size && (size / 8) * 8 == size
    ensures out.Completed? ==>
              out.state == AfterSweep(reg.our64, AfterSweep(reg.our32, s, size / 4, Reps(Repeat)), size / 8, Reps(Repeat))
    ensures out.Completed? ==> out.clockPos == SweepStart(SweepStart(t, Repeat, NumberOf32), Repeat, NumberOf64)
  {
    var repeat := Repeat;
    if size / 8 * 8 != size {
      SizeCheck(size);
      return AssertionFailed;
    }
    SizeCheck(size);
    var prec32: seq<u32> := seq(size / 4, _ => 0);
    var prec64: seq<u64> := seq(size / 8, _ => 0);
    var report32, st, tc := Sweep(reg.our32, Names32, s, prec32, size / 4, size, repeat, clock, t);
    var report64, st', tc' := Sweep(reg.our64, Names64, st, prec64, size / 8, size, repeat, clock, tc);
    out := Completed(report32 + report64, st', tc');
    assert forall k :: 0 <= k < NumberOf32 ==> out.report[k] == report32[k];
    assert forall k :: NumberOf32 <= k < NumberOf32 + NumberOf64 ==> out.report[k] == report64[k - NumberOf32];
  }
}
