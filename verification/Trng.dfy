/** The random source's software fallback (splitmix64) and the byte filler on top of it.  All words are
    64-bit and wrap. */
module Trng {
  import opened Bytes

  const STEP: bv64 := 0x9E3779B97F4A7C15

  /** Minus the inverse of the step. */
  const BACK: bv64 := 0x0E217C1E66C88CC3

  // ---------------------------------------------------------------- the finalizer

  function Fold30(z: bv64): bv64 { z ^ (z >> 30) }
  function Fold27(z: bv64): bv64 { z ^ (z >> 27) }
  function Fold31(z: bv64): bv64 { z ^ (z >> 31) }
  function MixA(z: bv64): bv64 { z * 0xBF58476D1CE4E5B9 }
  function MixB(z: bv64): bv64 { z * 0x94D049BB133111EB }

  function Finalize(x: bv64): bv64 { Fold31(MixB(Fold27(MixA(Fold30(x))))) }

  /** Each xor-shift is undone by shifting its own result back in, each multiplication by the inverse of
      its odd factor. */
  ghost function Unfold30(z: bv64): bv64 { z ^ (z >> 30) ^ (z >> 60) }
  ghost function Unfold27(z: bv64): bv64 { z ^ (z >> 27) ^ (z >> 54) }
  ghost function Unfold31(z: bv64): bv64 { z ^ (z >> 31) ^ (z >> 62) }
  ghost function UnmixA(z: bv64): bv64 { z * 0x96DE1B173F119089 }
  ghost function UnmixB(z: bv64): bv64 { z * 0x319642B2D24D8EC3 }

  ghost function Unfinalize(z: bv64): bv64 { Unfold30(UnmixA(Unfold27(UnmixB(Unfold31(z))))) }

  // The next two lemmas leave one side of each pair written out, so that it simplifies word-wise.

  lemma UndoWritten(z: bv64)
    ensures Unfold30(z ^ (z >> 30)) == z && Unfold27(z ^ (z >> 27)) == z && Unfold31(z ^ (z >> 31)) == z
    ensures UnmixA(z * 0xBF58476D1CE4E5B9) == z && UnmixB(z * 0x94D049BB133111EB) == z
  {
  }

  lemma RedoWritten(z: bv64)
    ensures Fold30(z ^ (z >> 30) ^ (z >> 60)) == z && Fold27(z ^ (z >> 27) ^ (z >> 54)) == z && Fold31(z ^ (z >> 31) ^ (z >> 62)) == z
    ensures MixA(z * 0x96DE1B173F119089) == z && MixB(z * 0x319642B2D24D8EC3) == z
  {
  }

  lemma Undone(z: bv64)
    ensures Unfold30(Fold30(z)) == z && Unfold27(Fold27(z)) == z && Unfold31(Fold31(z)) == z
    ensures UnmixA(MixA(z)) == z && UnmixB(MixB(z)) == z
  {
    hide Unfold30, Unfold27, Unfold31, UnmixA, UnmixB;
    UndoWritten(z);
  }

  lemma Redone(z: bv64)
    ensures Fold30(Unfold30(z)) == z && Fold27(Unfold27(z)) == z && Fold31(Unfold31(z)) == z
    ensures MixA(UnmixA(z)) == z && MixB(UnmixB(z)) == z
  {
    hide Fold30, Fold27, Fold31, MixA, MixB;
    RedoWritten(z);
  }

  /** The finalizer is a bijection. */
  lemma FinalizeIsBijective(x: bv64)
    ensures Unfinalize(Finalize(x)) == x && Finalize(Unfinalize(x)) == x
  {
    hide Fold30, Fold27, Fold31, MixA, MixB, Unfold30, Unfold27, Unfold31, UnmixA, UnmixB;
    Undone(x);
    Undone(Fold30(x));
    Undone(MixA(Fold30(x)));
    Undone(Fold27(MixA(Fold30(x))));
    Undone(MixB(Fold27(MixA(Fold30(x)))));
    Redone(x);
    Redone(Unfold31(x));
    Redone(UnmixB(Unfold31(x)));
    Redone(Unfold27(UnmixB(Unfold31(x))));
    Redone(UnmixA(Unfold27(UnmixB(Unfold31(x)))));
  }

  /** The generator is splitmix64: its first outputs from a zero state, as published. */
  lemma KnownOutputs()
    ensures Finalize(0x9E3779B97F4A7C15) == 0xE220A8397B1DCDAF
    ensures Finalize(0x3C6EF372FE94F82A) == 0x6E789E6AA1B965F4
  {
  }

  // ---------------------------------------------------------------- the states

  /** The state a call works from: a zero state is seeded from the counter first. */
  function Seeded(state: bv64, counter: bv64): bv64 { if state == 0 then counter | 1 else state }

  function Advance(x: bv64): bv64 { x + STEP }

  /** A zero state is replaced by the counter made odd, any other state is kept. */
  lemma SeedIsOdd(state: bv64, counter: bv64)
    ensures state != 0 ==> Seeded(state, counter) == state
    ensures Seeded(0, counter) & 1 == 1 && Seeded(0, counter) >> 1 == counter >> 1
  {
  }

  function Next(state: bv64, counter: bv64): bv64 { Advance(Seeded(state, counter)) }

  /** Stored states of a run, one per call; the last of `counters` is the latest reading. */
  function StateAfter(state: bv64, counters: seq<bv64>): bv64 {
    if counters == [] then state
    else Next(StateAfter(state, counters[..|counters| - 1]), counters[|counters| - 1])
  }

  function Output(state: bv64, counters: seq<bv64>, n: nat): bv64
    requires n < |counters|
  {
    Finalize(StateAfter(state, counters[..n + 1]))
  }

  /** How many steps a state is away from zero. */
  ghost function StepsToZero(x: bv64): bv64 { x * BACK }

  ghost predicate Closer(x: bv64, y: bv64) { StepsToZero(x) < StepsToZero(y) }

  ghost function FromSteps(d: bv64): bv64 { d * 0x61C8864680B583EB }

  lemma StepsWritten(x: bv64)
    ensures FromSteps(x * 0x0E217C1E66C88CC3) == x && FromSteps(0) == 0
    ensures StepsToZero(x + 0x9E3779B97F4A7C15) == StepsToZero(x) - 1
  {
  }

  lemma StepsCount(x: bv64)
    ensures StepsToZero(x) == 0 ==> x == 0
    ensures StepsToZero(Advance(x)) == StepsToZero(x) - 1
  {
    hide FromSteps;
    StepsWritten(x);
  }

  lemma OneStepCloser(x: bv64)
    requires x != 0
    ensures Closer(Advance(x), x)
  {
    hide StepsToZero, Advance;
    StepsCount(x);
  }

  lemma CloserIsOrder(x: bv64, y: bv64, z: bv64)
    ensures Closer(x, y) && Closer(y, z) ==> Closer(x, z)
    ensures Closer(x, y) ==> x != y
  {
    hide StepsToZero;
  }

  /** The stored state is not zero after any of the calls `from` to `to`. */
  ghost predicate NonZero(state: bv64, counters: seq<bv64>, from: nat, to: nat)
    requires to <= |counters|
  {
    forall k | from <= k <= to :: StateAfter(state, counters[..k]) != 0
  }

  /** As long as the state is not zero, every call comes closer to zero, so no state comes twice. */
  lemma {:induction false} CloserAllTheTime(state: bv64, counters: seq<bv64>, i: nat, j: nat)
    requires i < j <= |counters| && NonZero(state, counters, i, j - 1)
    ensures Closer(StateAfter(state, counters[..j]), StateAfter(state, counters[..i]))
    decreases j
  {
    hide Closer, Advance;
    assert counters[..j][..j - 1] == counters[..j - 1];
    var before := StateAfter(state, counters[..j - 1]);
    OneStepCloser(before);
    if i < j - 1 {
      CloserAllTheTime(state, counters, i, j - 1);
      CloserIsOrder(StateAfter(state, counters[..j]), before, StateAfter(state, counters[..i]));
    }
  }

  ghost predicate Distinct(state: bv64, counters: seq<bv64>) {
    forall i, j | 0 <= i < j < |counters| :: Output(state, counters, i) != Output(state, counters, j)
  }

  /** The outputs of any run are pairwise distinct if no stored state but perhaps the last is zero. */
  lemma OutputsDistinct(state: bv64, counters: seq<bv64>)
    requires |counters| > 0 ==> NonZero(state, counters, 1, |counters| - 1)
    ensures Distinct(state, counters)
  {
    hide Finalize, Unfinalize, Closer, StateAfter;
    forall i, j | 0 <= i < j < |counters| ensures Output(state, counters, i) != Output(state, counters, j) {
      CloserAllTheTime(state, counters, i + 1, j + 1);
      CloserIsOrder(StateAfter(state, counters[..j + 1]), StateAfter(state, counters[..i + 1]), 0);
      FinalizeIsBijective(StateAfter(state, counters[..i + 1]));
      FinalizeIsBijective(StateAfter(state, counters[..j + 1]));
    }
  }

  /** The state `k` steps on, which a caller can work out beforehand. */
  function Iter(s: bv64, k: nat): bv64 {
    if k == 0 then s else Advance(Iter(s, k - 1))
  }

  lemma {:induction false} StateIsIter(s: bv64, counters: seq<bv64>, k: nat)
    requires k <= |counters| && forall i | 0 <= i < k :: Iter(s, i) != 0
    ensures StateAfter(s, counters[..k]) == Iter(s, k)
    decreases k
  {
    hide Advance;
    if k > 0 {
      StateIsIter(s, counters, k - 1);
      assert counters[..k][..k - 1] == counters[..k - 1];
    }
  }

  lemma StepFromZero(counter: bv64)
    requires counter == 0 - STEP
    ensures Next(0, counter) == 0
  {
    assert counter | 1 == counter;
  }

  /** A zero state and a counter that happens to read minus the step: the state stays zero, and the
      output repeats. */
  lemma ZeroStateRepeats(s: bv64, counters: seq<bv64>, k: nat)
    requires 1 <= k < |counters| && StateAfter(s, counters[..k]) == 0 && counters[k] == 0 - STEP
    ensures Output(s, counters, k - 1) == Output(s, counters, k)
  {
    hide Finalize, Next;
    assert counters[..k + 1][..k] == counters[..k];
    StepFromZero(counters[k]);
  }

  /** From state `s`, any `n` calls give pairwise distinct outputs, whatever the counter reads, exactly when
      there is at most one call or none of the first `n` states counted from `s` is zero. */
  lemma DistinctIff(s: bv64, n: nat)
    ensures (forall counters | |counters| == n :: Distinct(s, counters))
       <==> n <= 1 || forall k | 0 <= k < n :: Iter(s, k) != 0
  {
    hide Finalize, Advance, Output, Next;
    if n <= 1 || forall k | 0 <= k < n :: Iter(s, k) != 0 {
      forall counters | |counters| == n ensures Distinct(s, counters) {
        if n > 1 {
          forall k | 1 <= k <= n - 1 ensures StateAfter(s, counters[..k]) != 0 { StateIsIter(s, counters, k); }
          OutputsDistinct(s, counters);
        }
      }
    } else {
      var counters := seq(n, i => 0 - STEP);
      var k := FirstZero(s, n);
      StateIsIter(s, counters, k);
      if k == 0 {
        assert counters[..1][..0] == [];
        StepFromZero(counters[0]);
        assert StateAfter(s, counters[..1]) == 0;
        ZeroStateRepeats(s, counters, 1);
      } else {
        ZeroStateRepeats(s, counters, k);
      }
      assert !Distinct(s, counters);
    }
  }

  ghost function FirstZero(s: bv64, n: nat): (k: nat)
    requires exists i | 0 <= i < n :: Iter(s, i) == 0
    ensures k < n && Iter(s, k) == 0 && forall i | 0 <= i < k :: Iter(s, i) != 0
  {
    if exists i | 0 <= i < n - 1 :: Iter(s, i) == 0 then FirstZero(s, n - 1) else n - 1
  }

  // ---------------------------------------------------------------- drawing words and bytes

  /** Byte `i` of a word in little-endian order. */
  function LeByte(w: bv64, i: nat): bv8
    requires i < 8
  {
    var shifted := if i == 0 then w else if i == 1 then w >> 8 else if i == 2 then w >> 16 else if i == 3 then w >> 24
      else if i == 4 then w >> 32 else if i == 5 then w >> 40 else if i == 6 then w >> 48 else w >> 56;
    (shifted & 0xFF) as bv8
  }

  /** The eight bytes, the first one lowest, make up the word. */
  lemma LeBytesMakeWord(w: bv64)
    ensures (LeByte(w, 0) as bv64) | ((LeByte(w, 1) as bv64) << 8) | ((LeByte(w, 2) as bv64) << 16) | ((LeByte(w, 3) as bv64) << 24)
      | ((LeByte(w, 4) as bv64) << 32) | ((LeByte(w, 5) as bv64) << 40) | ((LeByte(w, 6) as bv64) << 48) | ((LeByte(w, 7) as bv64) << 56) == w
  {
  }

  /** `rndrrs` and `rndr` answer the reads of a tick, `cntvct` is the counter at a tick. */
  class Rng {
    const rndrrs: nat -> Option<bv64>
    const rndr: nat -> Option<bv64>
    const cntvct: nat -> bv64
    const mode: nat
    var tick: nat
    var state: bv64
    /** Words drawn so far. */
    ghost var words: seq<bv64>

    constructor (rndrrs: nat -> Option<bv64>, rndr: nat -> Option<bv64>, cntvct: nat -> bv64, mode: nat, state: bv64)
      ensures this.mode == mode && this.state == state && words == []
    {
      this.rndrrs, this.rndr, this.cntvct, this.mode, this.state := rndrrs, rndr, cntvct, mode, state;
      tick, words := 0, [];
    }

    method FallbackRand() returns (z: bv64)
      modifies this`tick, this`state
      ensures state == Next(old(state), cntvct(old(tick))) && z == Finalize(state)
    {
      hide Finalize;
      var x := state;
      if x == 0 {
        x := cntvct(tick) | 1;
        state := x;
      }
      tick := tick + 1;
      x := Advance(x);
      state := x;
      z := Finalize(x);
    }

    /** None of the `n` reseeding reads from tick `t` on answers. */
    ghost predicate NoAnswer(t: nat, n: nat) { forall j: nat | j < n :: ReadAt(t, j).None? }

    ghost function ReadAt(t: nat, j: nat): Option<bv64> { rndrrs(t + j) }

    /** The first of eight reseeding reads that answers, else the plain read, if hardware is in use; else the
        fallback's word. */
    method RandU64() returns (v: bv64)
      modifies this
      ensures words == old(words) + [v]
      ensures mode == 1 ==> forall k: nat | k < 8 && ReadAt(old(tick), k).Some? && NoAnswer(old(tick), k) ::
        v == ReadAt(old(tick), k).value && state == old(state)
      ensures mode == 1 && NoAnswer(old(tick), 8) && rndr(old(tick) + 8).Some? ==> v == rndr(old(tick) + 8).value && state == old(state)
      ensures mode == 1 && NoAnswer(old(tick), 8) && rndr(old(tick) + 8).None? ==>
        state == Next(old(state), cntvct(old(tick) + 9)) && v == Finalize(state)
      ensures mode != 1 ==> state == Next(old(state), cntvct(old(tick))) && v == Finalize(state)
    {
      hide Finalize, Next;
      ghost var before := state;
      if mode == 1 {
        for n := 0 to 8
          invariant state == before && words == old(words) && tick == old(tick) + n && NoAnswer(old(tick), n)
        {
          var r := rndrrs(tick);
          assert r == ReadAt(old(tick), n);
          tick := tick + 1;
          if r.Some? { words := words + [r.value]; return r.value; }
        }
        var r := rndr(tick);
        tick := tick + 1;
        if r.Some? { words := words + [r.value]; return r.value; }
      }
      v := FallbackRand();
      words := words + [v];
    }

    /** Every byte of the buffer comes from the words drawn, in order, little end first; the last word
        may be used in part. */
    method FillRandom(buf: array<bv8>) returns (ghost drawn: seq<bv64>)
      modifies this, buf
      ensures words == old(words) + drawn && |drawn| == (buf.Length + 7) / 8
      ensures forall k | 0 <= k < buf.Length :: buf[k] == LeByte(drawn[k / 8], k % 8)
    {
      hide LeByte;
      drawn := [];
      var i := 0;
      while i + 8 <= buf.Length
        invariant i % 8 == 0 && i <= buf.Length
        invariant words == old(words) + drawn && |drawn| == i / 8
        invariant forall k | 0 <= k < i :: buf[k] == LeByte(drawn[k / 8], k % 8)
      {
        var val := RandU64();
        drawn := drawn + [val];
        CopyLe(buf, i, val, 8, drawn);
        i := i + 8;
      }
      if i < buf.Length {
        var val := RandU64();
        drawn := drawn + [val];
        CopyLe(buf, i, val, buf.Length - i, drawn);
      }
    }
  }

  /** Store the first `n` bytes of a word, after the `at` bytes that earlier words filled. */
  method CopyLe(buf: array<bv8>, at: nat, val: bv64, n: nat, ghost drawn: seq<bv64>)
    requires n <= 8 && at + n <= buf.Length && at % 8 == 0
    requires |drawn| == at / 8 + 1 && drawn[at / 8] == val
    requires forall k | 0 <= k < at :: buf[k] == LeByte(drawn[k / 8], k % 8)
    modifies buf
    ensures forall k | 0 <= k < at + n :: buf[k] == LeByte(drawn[k / 8], k % 8)
  {
    hide LeByte;
    for j := 0 to n
      invariant forall k | 0 <= k < at + j :: buf[k] == LeByte(drawn[k / 8], k % 8)
    {
      assert (at + j) / 8 == at / 8 && (at + j) % 8 == j;
      buf[at + j] := LeByte(val, j);
    }
  }
}
