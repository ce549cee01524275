/**
 * A random-number generator as the harness sees it: a zero-argument call that
 * returns one fixed-width value and advances some hidden state. The state is
 * the type parameter `S`; the harness never looks inside it. One call is one
 * application of the step function.
 */
module Generator {
  import opened Uint

  /** The state after `n` calls, starting from `s`. */
  function Advance<S, W>(gen: S -> (S, W), s: S, n: nat): S
  {
    if n == 0 then s else Advance(gen, gen(s).0, n - 1)
  }

  /** The values returned by the first `n` calls, in call order. */
  function Draws<S, W>(gen: S -> (S, W), s: S, n: nat): (r: seq<W>)
    ensures |r| == n
  {
    if n == 0 then [] else Draws(gen, s, n - 1) + [gen(Advance(gen, s, n - 1)).1]
  }

  /** One more call continues from where `n` calls left off. */
  lemma {:induction false} AdvanceStep<S, W>(gen: S -> (S, W), s: S, n: nat)
    ensures Advance(gen, s, n + 1) == gen(Advance(gen, s, n)).0
  {
    if n > 0 {
      AdvanceStep(gen, gen(s).0, n - 1);
    }
  }

  /** `a` calls followed by `b` calls are `a + b` calls. */
  lemma {:induction false} AdvanceAdd<S, W>(gen: S -> (S, W), s: S, a: nat, b: nat)
    ensures Advance(gen, s, a + b) == Advance(gen, Advance(gen, s, a), b)
  {
    if a > 0 {
      AdvanceAdd(gen, gen(s).0, a - 1, b);
    }
  }

  /** The `j`-th value drawn is what the generator returns from the state left by the first `j` calls. */
  lemma {:induction false} DrawsAt<S, W>(gen: S -> (S, W), s: S, n: nat, j: nat)
    requires j < n
    ensures Draws(gen, s, n)[j] == gen(Advance(gen, s, j)).1
  {
    if j < n - 1 {
      DrawsAt(gen, s, n - 1, j);
    }
  }

  /** The values of `a + b` calls are those of the first `a` calls followed by those of the next `b`. */
  lemma {:induction false} DrawsSplit<S, W>(gen: S -> (S, W), s: S, a: nat, b: nat)
    ensures Draws(gen, s, a + b) == Draws(gen, s, a) + Draws(gen, Advance(gen, s, a), b)
  {
    if b > 0 {
      DrawsSplit(gen, s, a, b - 1);
      AdvanceAdd(gen, s, a, b - 1);
    }
  }

  /** A counting generator: returns its call count and increments it, wrapping at 2^32. */
  function Counter32(c: u32): (u32, u32)
  {
    ((c + 1) % TWO32, c)
  }

  /** A constant generator: always returns 0 and has no state to speak of. */
  function Zero32<S>(s: S): (S, u32)
  {
    (s, 0)
  }

  /** With the counting generator, call `j` returns `c + j` (mod 2^32) and `n` calls advance the count by `n`. */
  lemma {:induction false} CounterDraws(c: u32, n: nat)
    ensures Advance(Counter32, c, n) == (c + n) % TWO32
    ensures forall j :: 0 <= j < n ==> Draws(Counter32, c, n)[j] == (c + j) % TWO32
  {
    if n > 0 {
      CounterDraws(c, n - 1);
      AdvanceStep(Counter32, c, n - 1);
      var prev := Advance(Counter32, c, n - 1);
      assert prev == (c + (n - 1)) % TWO32;
      ModSucc(c + (n - 1));
      var d := Draws(Counter32, c, n);
      assert d == Draws(Counter32, c, n - 1) + [prev];
      forall j | 0 <= j < n
        ensures d[j] == (c + j) % TWO32
      {
        if j < n - 1 {
          assert d[j] == Draws(Counter32, c, n - 1)[j];
        }
      }
    }
  }

  /** Counting one further modulo 2^32. */
  lemma ModSucc(x: nat)
    ensures (x % TWO32 + 1) % TWO32 == (x + 1) % TWO32
  {
  }

  /** With the constant generator every value drawn is 0 and the state never moves. */
  lemma {:induction false} ZeroDraws<S>(s: S, n: nat)
    ensures Advance(Zero32, s, n) == s
    ensures Draws(Zero32, s, n) == seq(n, _ => 0)
  {
    if n > 0 {
      ZeroDraws(s, n - 1);
      AdvanceStep(Zero32, s, n - 1);
    }
  }
}
