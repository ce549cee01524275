/**
 * The fill loops `populate32` and `populate64`: call the generator `size`
 * times and store the results at `answer[0]`, `answer[1]`, ... in call order.
 * The array is modelled as a sequence passed in and returned.
 */
module Fill {
  import opened Uint
  import opened Generator

  /**
   * The loop shared by both widths. The counter `i` runs down from `size`
   * to 1 and the slot written is `size - i`. The ghost `written` lists the
   * slots in the order they were assigned.
   */
  method Populate<S, W>(gen: S -> (S, W), s: S, answer: seq<W>, size: nat)
    returns (filled: seq<W>, s': S, ghost written: seq<nat>)
    requires size <= |answer|
    ensures |filled| == |answer|
    ensures filled[..size] == Draws(gen, s, size)
    ensures size == |answer| ==> filled == Draws(gen, s, size)
    ensures forall j :: size <= j < |answer| ==> filled[j] == answer[j]
    ensures s' == Advance(gen, s, size)
    ensures |written| == size
    ensures forall k :: 0 <= k < |written| ==> written[k] == k
  {
    filled, s', written := answer, s, [];
    var i: nat := size;
    while i != 0
      invariant i <= size
      invariant |filled| == |answer|
      invariant filled[..size - i] == Draws(gen, s, size - i)
      invariant forall j :: size - i <= j < |answer| ==> filled[j] == answer[j]
      invariant s' == Advance(gen, s, size - i)
      invariant |written| == size - i
      invariant forall k :: 0 <= k < |written| ==> written[k] == k
      decreases i
    {
      var slot := size - i;
      AdvanceStep(gen, s, slot);
      var (next, value) := gen(s');
      filled := filled[slot := value];
      assert filled[..slot + 1] == filled[..slot] + [value];
      written := written + [slot];
      s' := next;
      i := i - 1;
    }
    forall j | 0 <= j < size
      ensures filled[j] == gen(Advance(gen, s, j)).1
    {
      DrawsAt(gen, s, size, j);
    }
    assert size == |answer| ==> filled == filled[..size];
  }

  /** `populate32`: fill the first `size` slots of a `uint32_t` array. */
  method Populate32<S>(rand: S -> (S, u32), s: S, answer: seq<u32>, size: nat)
    returns (filled: seq<u32>, s': S, ghost written: seq<nat>)
    requires size <= |answer|
    ensures |filled| == |answer|
    ensures filled[..size] == Draws(rand, s, size)
    ensures size == |answer| ==> filled == Draws(rand, s, size)
    ensures forall j :: size <= j < |answer| ==> filled[j] == answer[j]
    ensures s' == Advance(rand, s, size)
    ensures |written| == size
    ensures forall k :: 0 <= k < |written| ==> written[k] == k
  {
    filled, s', written := Populate(rand, s, answer, size);
  }

  /** `populate64`: fill the first `size` slots of a `uint64_t` array. */
  method Populate64<S>(rand: S -> (S, u64), s: S, answer: seq<u64>, size: nat)
    returns (filled: seq<u64>, s': S, ghost written: seq<nat>)
    requires size <= |answer|
    ensures |filled| == |answer|
    ensures filled[..size] == Draws(rand, s, size)
    ensures size == |answer| ==> filled == Draws(rand, s, size)
    ensures forall j :: size <= j < |answer| ==> filled[j] == answer[j]
    ensures s' == Advance(rand, s, size)
    ensures |written| == size
    ensures forall k :: 0 <= k < |written| ==> written[k] == k
  {
    filled, s', written := Populate(rand, s, answer, size);
  }

  /** The counting stub fills slots 0..size-1 with 0, 1, ..., size-1 and is called exactly `size` times. */
  method PopulateWithCounter(answer: seq<u32>, size: nat) returns (filled: seq<u32>, calls: u32)
    requires size <= |answer| && size < TWO32
    ensures |filled| == |answer|
    ensures forall j :: 0 <= j < size ==> filled[j] == j
    ensures calls == size
  {
    ghost var written;
    filled, calls, written := Populate32(Counter32, 0, answer, size);
    CounterDraws(0, size);
    forall j | 0 <= j < size
      ensures filled[j] == j
    {
      assert filled[j] == filled[..size][j];
    }
  }

  /** The constant stub fills slots 0..size-1 with zeros and leaves its state where it was. */
  method PopulateWithZero<S>(answer: seq<u32>, s: S, size: nat) returns (filled: seq<u32>, s': S)
    requires size <= |answer|
    ensures |filled| == |answer|
    ensures forall j :: 0 <= j < size ==> filled[j] == 0
    ensures s' == s
  {
    ghost var written;
    filled, s', written := Populate32(Zero32, s, answer, size);
    ZeroDraws(s, size);
    forall j | 0 <= j < size
      ensures filled[j] == 0
    {
      assert filled[j] == filled[..size][j];
    }
  }
}
