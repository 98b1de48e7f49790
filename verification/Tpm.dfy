/** The TPM command transport of the Kunpeng driver: a command goes out and a response comes back
    through one-byte FIFO accesses, in bursts the chip chooses, between polls of its status register
    (the FIFO interface of the TCG PC Client Platform TPM Profile).

    The chip and the bus are functions of a tick that advances with every access, so a statement about
    every `Device` covers every choice of burst counts, stalls, status bits and bus errors. */
module Tpm {
  import opened Bytes

  const TPM_STS_VALID: bv8 := 0x80
  const TPM_STS_COMMAND_READY: bv8 := 0x40
  const TPM_STS_TPMGO: bv8 := 0x20
  const TPM_STS_DATA_AVAIL: bv8 := 0x10
  const TPM_STS_DATA_EXPECT: bv8 := 0x08
  const VALID_EXPECT: bv8 := TPM_STS_VALID | TPM_STS_DATA_EXPECT
  const VALID_AVAIL: bv8 := TPM_STS_VALID | TPM_STS_DATA_AVAIL
  const TPM_ACCESS_VALID: bv8 := 0x80
  const TPM_ACCESS_ACTIVE_LOCALITY: bv8 := 0x20
  const TPM_ACCESS_REQUEST_USE: bv8 := 0x02
  const TPM_ACCESS_ACTIVED_MASK: bv8 := 0xA0

  const TPM2_TIMEOUT_A := 750000
  const TPM2_DURATION_LONG_LONG := 300000000
  const TPM_WAIT_LOOP := 2000
  const TPM_ACCESS_TRY_TIME := 10
  const TPM_MAX_LOCALITY := 5
  const MAX_SPI_FRAMESIZE := 64
  const TPM_CMD_HEADER_SIZE := 10
  const TPM_RECV_CMD_LEN := 4096
  const TPM_SEND_CMD_LEN := 4096

  datatype Ret = TeeOk | BadParam | BadState | Busy | OutOfMemory | BusError

  /** The registers the driver reads and writes, besides the FIFO. */
  datatype Register = Access(locality: nat) | Sts(index: nat)

  /** The chip: command bytes received so far, the command it runs, response bytes already read, and the
      locality that asked for it and has not given it back. */
  datatype Chip = Chip(received: seq<byte>, running: Option<seq<byte>>, pos: nat, owner: Option<nat>)

  function Idle(owner: Option<nat>): Chip { Chip([], None, 0, owner) }

  ghost predicate Increasing(ts: seq<nat>) { forall i, j | 0 <= i < j < |ts| :: ts[i] < ts[j] }

  /** One access over the bus; the position of an access in the log is its tick. */
  datatype Step = Peek(r: Register) | Command(v: bv8) | Claim(locality: nat, v: bv8) | Push(b: byte) | Pull

  /** `register` answers reads; `busOk` says whether the access of a tick succeeds, `stray` whether a
      failed access had its effect all the same; `response` is the chip's answer to a command. */
  datatype Device = Device(
    register: (nat, Register, Chip) -> bv8,
    busOk: nat -> bool,
    stray: nat -> bool,
    response: (seq<byte>, nat) -> byte)
  {
    /** Commands as the chip sees them: complete once the declared length has arrived. */
    static ghost predicate Complete(received: seq<byte>) {
      |received| >= 10 && |received| >= U32At(received, 2)
    }

    /** What the profile demands: once bytes have arrived, Expect is clear only when the command is
        complete; data is available only while a command runs; the chip says it is ready only when its
        FIFO is empty and nothing runs; and a locality is active only for its owner. */
    ghost predicate Compliant() {
      && (forall t: nat, c: Chip ::
            var s := register(t, Sts(0), c);
            && (s & VALID_EXPECT == TPM_STS_VALID && c.running.None? && c.received != [] ==> Complete(c.received))
            && (s & VALID_AVAIL == VALID_AVAIL ==> c.running.Some?)
            && (s & TPM_STS_COMMAND_READY != 0 ==> c == Idle(c.owner)))
      && (forall t: nat, l: nat, c: Chip ::
            register(t, Access(l), c) & 0xA0 == 0xA0 ==> c.owner == Some(l))
    }

    /** The register can be read at tick `t` and shows `want` under `mask`. */
    ghost predicate Shows(t: nat, r: Register, c: Chip, mask: bv8, want: bv8) {
      busOk(t) && register(t, r, c) & mask == want
    }

    ghost predicate ShowsWithin(t: nat, n: nat, r: Register, c: Chip, mask: bv8, want: bv8) {
      exists u: nat | t <= u < t + n :: Shows(u, r, c, mask, want)
    }

    /** Reading from tick `t` to `u` stops at the first read that shows it, or after `n` of them. */
    ghost predicate StopsAt(t: nat, u: nat, n: nat, r: Register, c: Chip, mask: bv8, want: bv8) {
      && t < u <= t + n && (forall v: nat | t <= v < u - 1 :: !Shows(v, r, c, mask, want))
      && (Shows(u - 1, r, c, mask, want) || u == t + n)
    }

    /** The owner is one of the five localities and its access register, read in turn from tick `t` on,
        shows it as active. */
    ghost predicate ShowsOwner(t: nat, c: Chip) {
      c.owner.Some? && c.owner.value < 5 && Shows(t + c.owner.value, Access(c.owner.value), c, 0xA0, 0xA0)
    }

    /** The chip is free, or belongs to this locality, or shows the locality that failed to give it back. */
    ghost predicate Claimable(t: nat, c: Chip, locality: nat) {
      Free(c.owner, locality) || (Compliant() && ShowsOwner(t, c))
    }

    /** Bytes 1 and 2 of the status register, read from tick `t` on. */
    ghost function BurstAt(t: nat, c: Chip): nat {
      (register(t + 1, Sts(1), c) as nat) + 0x100 * (register(t + 2, Sts(2), c) as nat)
    }

    /** The length a response declares in its header. */
    ghost function ResponseLen(command: seq<byte>): nat { U32At(Response(command, 0, TPM_CMD_HEADER_SIZE), 2) }

    /** Poll `k` of the burst count, four reads a poll from tick `t` on, gives a count. */
    ghost predicate BurstHit(t: nat, k: nat, c: Chip) { BurstAt(t + 4 * k, c) != 0 }

    ghost predicate BurstWithin(t: nat, c: Chip) {
      exists k: nat | k < 750000 :: BurstHit(t, k, c)
    }

    ghost predicate SaysReady(t: nat, c: Chip) { register(t, Sts(0), c) & TPM_STS_COMMAND_READY != 0 }

    /** Try `k` of making the chip ready, a write and a read a try from tick `t` on, finds it ready. */
    ghost predicate ReadyHit(t: nat, k: nat, c: Chip) { SaysReady(t + 2 * k + 1, c) }

    ghost predicate ReadyWithin(t: nat, c: Chip) {
      exists k: nat | k < 2000 :: ReadyHit(t, k, c)
    }

    ghost predicate Active(t: nat, l: nat, c: Chip) {
      ShowsWithin(t, 750000, Access(l), c, 0xA0, 0xA0)
    }

    ghost predicate ActiveOnce(ts: seq<nat>, l: nat, c: Chip) {
      exists i | 0 <= i < |ts| :: Active(ts[i], l, c)
    }

    ghost predicate Available(t: nat, n: nat, c: Chip) { ShowsWithin(t, n, Sts(0), c, VALID_AVAIL, VALID_AVAIL) }

    /** Data has been seen to be available before tick `t`. */
    ghost predicate WasAvailable(t: nat, c: Chip) {
      exists u: nat | u < t :: Shows(u, Sts(0), c, VALID_AVAIL, VALID_AVAIL)
    }

    /** A chip that always gets on, however slowly the driver's limits allow: the bus works; the locality
        that owns the chip becomes active in one of any ten waits; an idle chip says so, and a burst count
        shows, within the tries the driver makes; responses have a sane length; a response begins
        within the long wait, and from then on, as for any other change of status, the short wait is
        enough. */
    ghost predicate Responsive() {
      && (forall t: nat :: busOk(t))
      && (forall ts, l: nat, c: Chip | |ts| == 10 && Increasing(ts) && c.owner == Some(l) :: ActiveOnce(ts, l, c))
      && (forall t: nat, c: Chip | c == Idle(c.owner) :: ReadyWithin(t, c))
      && (forall t: nat, c: Chip :: BurstWithin(t, c))
      && (forall t: nat, c: Chip | c.running.None? && c.received != [] && !Complete(c.received) :: ShowsWithin(t, 750000, Sts(0), c, VALID_EXPECT, VALID_EXPECT))
      && (forall t: nat, c: Chip | c.running.None? && Complete(c.received) :: ShowsWithin(t, 750000, Sts(0), c, VALID_EXPECT, TPM_STS_VALID))
      && (forall t: nat, c: Chip | c.running.Some? && c.pos == 0 :: Available(t, 300000000, c))
      && (forall t: nat, c: Chip | c.running.Some? && c.pos == 0 && WasAvailable(t, c) :: Available(t, 750000, c))
      && (forall t: nat, c: Chip | c.running.Some? && 0 < c.pos < ResponseLen(c.running.value) :: Available(t, 750000, c))
      && (forall t: nat, c: Chip | c.running.Some? && c.pos == ResponseLen(c.running.value) :: ShowsWithin(t, 750000, Sts(0), c, VALID_AVAIL, TPM_STS_VALID))
      && (forall command :: 10 <= ResponseLen(command) <= 4096)
    }

    lemma AnswersInTime(t: nat, c: Chip)
      requires Responsive() && c.running.Some?
      ensures c.pos == 0 ==> ShowsWithin(t, TPM2_DURATION_LONG_LONG, Sts(0), c, VALID_AVAIL, VALID_AVAIL)
      ensures (c.pos == 0 && WasAvailable(t, c)) || 0 < c.pos < ResponseLen(c.running.value) ==>
        ShowsWithin(t, TPM2_TIMEOUT_A, Sts(0), c, VALID_AVAIL, VALID_AVAIL)
      ensures c.pos == ResponseLen(c.running.value) ==> ShowsWithin(t, TPM2_TIMEOUT_A, Sts(0), c, VALID_AVAIL, TPM_STS_VALID)
      ensures TPM_CMD_HEADER_SIZE <= ResponseLen(c.running.value) <= TPM_RECV_CMD_LEN
    {
      hide ShowsWithin, WasAvailable, ActiveOnce, ReadyWithin, BurstWithin, Complete, ResponseLen;
      assert c.pos == 0 ==> Available(t, TPM2_DURATION_LONG_LONG, c);
      assert (c.pos == 0 && WasAvailable(t, c)) || 0 < c.pos < ResponseLen(c.running.value) ==> Available(t, TPM2_TIMEOUT_A, c);
    }

    /** Once bytes have arrived the chip shows in time whether it expects more. */
    lemma ExpectsInTime(t: nat, c: Chip)
      requires Responsive() && c.running.None? && c.received != []
      ensures ShowsWithin(t, TPM2_TIMEOUT_A, Sts(0), c, VALID_EXPECT, if Complete(c.received) then TPM_STS_VALID else VALID_EXPECT)
    {
      hide ShowsWithin, WasAvailable, ActiveOnce, ReadyWithin, BurstWithin, Complete, ResponseLen;
    }

    lemma BusWorks(t: nat)
      requires Responsive()
      ensures busOk(t)
    {
      hide ShowsWithin, WasAvailable, ActiveOnce, ReadyWithin, BurstWithin, Complete, ResponseLen;
    }

    /** Some wait of any ten finds the owner active; some try finds an idle chip ready and a burst count. */
    lemma GetsOn(t: nat, c: Chip)
      requires Responsive()
      ensures BurstWithin(t, c) && (c == Idle(c.owner) ==> ReadyWithin(t, c))
      ensures forall ts, l: nat | |ts| == TPM_ACCESS_TRY_TIME && Increasing(ts) && c.owner == Some(l) :: ActiveOnce(ts, l, c)
    {
      hide ShowsWithin, WasAvailable, ActiveOnce, ReadyWithin, BurstWithin, Complete, ResponseLen;
    }

    lemma ReadyMeansIdle(t: nat, c: Chip)
      requires Compliant() && SaysReady(t, c)
      ensures c == Idle(c.owner)
    {
    }

    lemma ActiveMeansOwned(t: nat, l: nat, c: Chip)
      requires Compliant() && Shows(t, Access(l), c, TPM_ACCESS_ACTIVED_MASK, TPM_ACCESS_ACTIVED_MASK)
      ensures c.owner == Some(l)
    {
    }

    lemma DataMeansRunning(t: nat, c: Chip)
      requires Compliant() && Shows(t, Sts(0), c, VALID_AVAIL, VALID_AVAIL)
      ensures c.running.Some?
    {
    }

    /** The bytes `from` to `from + n` of the response to a command. */
    ghost function Response(command: seq<byte>, from: nat, n: nat): (r: seq<byte>)
      ensures |r| == n
    {
      if n == 0 then [] else Response(command, from, n - 1) + [response(command, from + n - 1)]
    }

    lemma {:induction false} ResponseAt(command: seq<byte>, n: nat, i: nat)
      requires i < n
      ensures Response(command, 0, n)[i] == response(command, i)
    {
      if i < n - 1 { ResponseAt(command, n - 1, i); }
    }

    lemma {:induction false} ResponseJoins(command: seq<byte>, from: nat, m: nat, n: nat)
      ensures Response(command, from, m) + Response(command, from + m, n) == Response(command, from, m + n)
    {
      if n > 0 {
        ResponseJoins(command, from, m, n - 1);
      }
    }
  }

  class Bus {
    const dev: Device
    var chip: Chip
    /** Every access so far. */
    var log: seq<Step>
    /** The commands started so far. */
    ghost var started: seq<seq<byte>>

    constructor (dev: Device)
      ensures this.dev == dev && log == [] && chip == Idle(None) && started == []
    {
      this.dev := dev;
      log, chip, started := [], Idle(None), [];
    }

    method ReadRegister(r: Register) returns (ok: bool, v: bv8)
      modifies this`log
      ensures log == old(log) + [Peek(r)]
      ensures ok == dev.busOk(|old(log)|) && v == dev.register(|old(log)|, r, chip)
    {
      ok, v := dev.busOk(|log|), dev.register(|log|, r, chip);
      log := log + [Peek(r)];
    }

    /** Read a register and compare it under a mask. */
    method Compare(r: Register, mask: bv8, want: bv8) returns (hit: bool)
      modifies this`log
      ensures log == old(log) + [Peek(r)]
      ensures hit <==> dev.Shows(|old(log)|, r, chip, mask, want)
    {
      var ok, status := ReadRegister(r);
      hit := ok && status & mask == want;
    }

    /** Writing the status register aborts to idle, or starts the command received so far. */
    method WriteStatus(v: bv8) returns (ok: bool)
      modifies this
      ensures log == old(log) + [Command(v)] && ok == dev.busOk(|old(log)|)
      ensures !(ok || dev.stray(|old(log)|)) ==> chip == old(chip) && started == old(started)
      ensures ok || dev.stray(|old(log)|) ==>
        if v == 0x40 then chip == Idle(old(chip).owner) && started == old(started)
        else if v == 0x20 then
          chip == old(chip).(running := Some(old(chip).received), pos := 0) && started == old(started) + [old(chip).received]
        else chip == old(chip) && started == old(started)
    {
      ok := dev.busOk(|log|);
      if ok || dev.stray(|log|) {
        if v == 0x40 {
          chip := Idle(chip.owner);
        } else if v == 0x20 {
          started := started + [chip.received];
          chip := chip.(running := Some(chip.received), pos := 0);
        }
      }
      log := log + [Command(v)];
    }

    /** Writing an access register asks for the chip, which a free chip grants, or gives it back. */
    method WriteAccess(locality: nat, v: bv8) returns (ok: bool)
      modifies this`log, this`chip
      ensures log == old(log) + [Claim(locality, v)] && ok == dev.busOk(|old(log)|)
      ensures chip == old(chip).(owner := if ok || dev.stray(|old(log)|) then OwnerAfter(old(chip).owner, locality, v) else old(chip).owner)
    {
      ok := dev.busOk(|log|);
      if ok || dev.stray(|log|) {
        chip := chip.(owner := OwnerAfter(chip.owner, locality, v));
      }
      log := log + [Claim(locality, v)];
    }

    method WriteFifo(b: byte) returns (ok: bool)
      modifies this`log, this`chip
      ensures log == old(log) + [Push(b)] && ok == dev.busOk(|old(log)|)
      ensures ok ==> chip == old(chip).(received := old(chip).received + [b])
      ensures !ok ==> chip == old(chip) || chip == old(chip).(received := old(chip).received + [b])
    {
      ok := dev.busOk(|log|);
      if ok || dev.stray(|log|) {
        chip := chip.(received := chip.received + [b]);
      }
      log := log + [Push(b)];
    }

    method ReadFifo() returns (ok: bool, b: byte)
      modifies this`log, this`chip
      ensures log == old(log) + [Pull] && ok == dev.busOk(|old(log)|)
      ensures chip == old(chip).(pos := chip.pos)
      ensures ok && old(chip).running.Some? ==>
        chip.pos == old(chip).pos + 1 && b == dev.response(old(chip).running.value, old(chip).pos)
    {
      ok := dev.busOk(|log|);
      b := dev.response(if chip.running.Some? then chip.running.value else [], chip.pos);
      if ok || dev.stray(|log|) {
        chip := chip.(pos := chip.pos + 1);
      }
      log := log + [Pull];
    }
  }

  function OwnerAfter(owner: Option<nat>, locality: nat, v: bv8): Option<nat> {
    if v == 0x02 && owner.None? then Some(locality)
    else if v == 0x20 && owner == Some(locality) then None
    else owner
  }

  // ---------------------------------------------------------------- polling

  /** Since `before` only this register was read. */
  ghost predicate Polled(before: seq<Step>, after: seq<Step>, r: Register) {
    before <= after && forall i | |before| <= i < |after| :: after[i] == Peek(r)
  }

  /** Since `before` no access register was written. */
  ghost predicate Quiet(before: seq<Step>, after: seq<Step>) {
    before <= after && forall i | |before| <= i < |after| :: !after[i].Claim?
  }

  /** Poll until the register shows `want` under `mask`: success exactly when it does within the
      timeout; `at` is a moment when it did. */
  method WaitForStatus(bus: Bus, r: Register, mask: bv8, want: bv8, timeout: nat) returns (ret: Ret, ghost at: nat)
    modifies bus`log
    ensures ret == TeeOk || ret == Busy
    ensures Polled(old(bus.log), bus.log, r) && Quiet(old(bus.log), bus.log)
    ensures ret == TeeOk ==> |old(bus.log)| <= at < |bus.log| && bus.dev.Shows(at, r, bus.chip, mask, want)
    ensures bus.dev.StopsAt(|old(bus.log)|, |bus.log|, if timeout > 0 then timeout else 1, r, bus.chip, mask, want)
    ensures ret == TeeOk <==> bus.dev.ShowsWithin(|old(bus.log)|, if timeout > 0 then timeout else 1, r, bus.chip, mask, want)
  {
    hide Device.Shows;
    var cnt := 0;
    while true
      invariant 0 <= cnt <= timeout && |bus.log| == |old(bus.log)| + cnt && (cnt == 0 || cnt < timeout)
      invariant Polled(old(bus.log), bus.log, r)
      invariant forall t: nat | |old(bus.log)| <= t < |bus.log| :: !bus.dev.Shows(t, r, bus.chip, mask, want)
      decreases timeout - cnt
    {
      at := |bus.log|;
      var hit := bus.Compare(r, mask, want);
      if hit { return TeeOk, at; }
      cnt := cnt + 1;
      if cnt >= timeout { break; }
    }
    ret := Busy;
  }

  /** Write the request to become ready and look at the answer; a failed read counts as none. */
  method TryReady(bus: Bus) returns (ready: bool)
    modifies bus
    ensures bus.started == old(bus.started) && bus.log == old(bus.log) + [Command(TPM_STS_COMMAND_READY), Peek(Sts(0))]
    ensures bus.chip == old(bus.chip) || bus.chip == Idle(old(bus.chip).owner)
    ensures bus.dev.busOk(|old(bus.log)|) ==> bus.chip == Idle(old(bus.chip).owner)
    ensures ready <==> bus.dev.busOk(|old(bus.log)| + 1) && bus.dev.SaysReady(|old(bus.log)| + 1, bus.chip)
  {
    var _ := bus.WriteStatus(TPM_STS_COMMAND_READY);
    var ok, v := bus.ReadRegister(Sts(0));
    var status := if ok then v else 0;
    ready := status & TPM_STS_COMMAND_READY != 0;
  }

  /** Ask the chip to become ready until it says so: over a working bus, success exactly when it does in one
      of the tries. */
  method CheckSendCmdStatus(bus: Bus) returns (ret: Ret)
    modifies bus
    ensures bus.started == old(bus.started) && Quiet(old(bus.log), bus.log)
    ensures bus.chip == old(bus.chip) || bus.chip == Idle(old(bus.chip).owner)
    ensures ret == TeeOk && bus.dev.Compliant() ==> bus.chip == Idle(old(bus.chip).owner)
    ensures (forall t: nat :: bus.dev.busOk(t)) ==>
      (ret == TeeOk <==> bus.dev.ReadyWithin(|old(bus.log)|, Idle(old(bus.chip).owner))) && bus.chip == Idle(old(bus.chip).owner)
    ensures bus.dev.Responsive() ==> ret == TeeOk && bus.chip == Idle(old(bus.chip).owner)
  {
    hide Device.Responsive, Device.Compliant, Device.SaysReady;
    ghost var idle, works := Idle(bus.chip.owner), forall t: nat :: bus.dev.busOk(t);
    if bus.dev.Responsive() {
      bus.dev.GetsOn(|bus.log|, idle);
      forall t: nat ensures bus.dev.busOk(t) { bus.dev.BusWorks(t); }
    }
    for i := 0 to TPM_WAIT_LOOP
      invariant bus.started == old(bus.started) && (bus.chip == old(bus.chip) || bus.chip == idle)
      invariant Quiet(old(bus.log), bus.log) && |bus.log| == |old(bus.log)| + 2 * i && (works && i > 0 ==> bus.chip == idle)
      invariant works ==> forall k: nat | k < i :: !bus.dev.ReadyHit(|old(bus.log)|, k, idle)
    {
      ghost var t := |bus.log| + 1;
      var ready := TryReady(bus);
      assert works ==> (ready <==> bus.dev.ReadyHit(|old(bus.log)|, i, idle));
      if ready {
        if bus.dev.Compliant() { bus.dev.ReadyMeansIdle(t, bus.chip); }
        return TeeOk;
      }
    }
    ret := BadState;
  }

  // ---------------------------------------------------------------- localities

  /** Give a locality back: one write, then only polls, until the register shows that it is inactive. */
  method ReleaseLocality(bus: Bus, locality: nat)
    modifies bus`log, bus`chip
    ensures bus.chip == old(bus.chip) || bus.chip == old(bus.chip).(owner := None)
    ensures Polled(old(bus.log) + [Claim(locality, 0x20)], bus.log, Access(locality))
    ensures bus.dev.StopsAt(|old(bus.log)| + 1, |bus.log|, 750000, Access(locality), bus.chip, 0xA0, 0x80)
    ensures bus.dev.busOk(|old(bus.log)|) && old(bus.chip).owner == Some(locality) ==> bus.chip.owner == None
  {
    hide Device.ShowsWithin, Device.StopsAt;
    var _ := bus.WriteAccess(locality, TPM_ACCESS_ACTIVE_LOCALITY);
    var _, _ := WaitForStatus(bus, Access(locality), TPM_ACCESS_ACTIVED_MASK, TPM_ACCESS_VALID, TPM2_TIMEOUT_A);
  }

  /** Give back whatever locality shows as active: over a working bus a compliant chip is taken from its
      owner exactly when its register, read in turn, shows one of the five. */
  method ReleaseAllLocalities(bus: Bus)
    modifies bus`log, bus`chip
    ensures bus.chip == old(bus.chip) || bus.chip == old(bus.chip).(owner := None)
    ensures old(bus.log) <= bus.log
    ensures bus.dev.Compliant() && (forall t: nat :: bus.dev.busOk(t)) ==>
      bus.chip == old(bus.chip).(owner := if bus.dev.ShowsOwner(|old(bus.log)|, old(bus.chip)) then None else old(bus.chip).owner)
  {
    hide Device.Compliant, Device.StopsAt;
    ghost var works, start := bus.dev.Compliant() && forall t: nat :: bus.dev.busOk(t), |bus.log|;
    ghost var held := bus.chip;
    for i := 0 to TPM_MAX_LOCALITY
      invariant bus.chip == held || bus.chip == held.(owner := None)
      invariant old(bus.log) <= bus.log
      invariant works && bus.chip != held ==> bus.dev.ShowsOwner(start, held)
      invariant works && bus.chip == held ==>
        held.owner.None? || (|bus.log| == start + i && (held.owner.value < i ==> !bus.dev.ShowsOwner(start, held)))
    {
      ghost var t, c := |bus.log|, bus.chip;
      var ok, v := bus.ReadRegister(Access(i));
      if ok && v & TPM_ACCESS_ACTIVED_MASK == TPM_ACCESS_ACTIVED_MASK {
        if works { bus.dev.ActiveMeansOwned(t, i, c); }
        ReleaseLocality(bus, i);
      }
    }
  }

  /** The chip is free, or belongs to this locality from an earlier, failed exchange. */
  ghost predicate Free(owner: Option<nat>, locality: nat) { owner == None || owner == Some(locality) }

  /** Ask for the locality until it is active.  On success the last write to an access register, at
      `asked`, was the request, and a compliant chip is owned by the locality; a responsive chip that
      is free, or ours already, or shows who still holds it, becomes ours. */
  method RequestLocalityStart(bus: Bus, locality: nat) returns (ret: Ret, ghost asked: nat)
    modifies bus`log, bus`chip
    ensures bus.chip == old(bus.chip).(owner := bus.chip.owner) && old(bus.log) <= bus.log
    ensures ret == TeeOk ==>
      && |old(bus.log)| <= asked < |bus.log| && bus.log[asked] == Claim(locality, 0x02)
      && Quiet(bus.log[..asked + 1], bus.log)
    ensures ret == TeeOk && bus.dev.Compliant() ==> bus.chip.owner == Some(locality)
    ensures bus.dev.Responsive() && bus.dev.Claimable(|old(bus.log)|, old(bus.chip), locality) ==>
      ret == TeeOk && bus.chip.owner == Some(locality)
  {
    hide Device.ShowsWithin, Device.StopsAt, Device.Responsive, Device.Compliant, Device.ShowsOwner;
    ghost var ours, works := bus.chip.(owner := Some(locality)), bus.dev.Responsive() && bus.dev.Claimable(|bus.log|, bus.chip, locality);
    ghost var ts: seq<nat> := [];
    if works { forall t: nat ensures bus.dev.busOk(t) { bus.dev.BusWorks(t); } }
    ReleaseAllLocalities(bus);
    asked := |bus.log|;
    for i := 0 to TPM_ACCESS_TRY_TIME
      invariant bus.chip == old(bus.chip).(owner := bus.chip.owner) && old(bus.log) <= bus.log
      invariant works ==> Free(bus.chip.owner, locality) && forall j | 0 <= j < |ts| :: !bus.dev.Active(ts[j], locality, ours)
      invariant |ts| == i && Increasing(ts) && forall j | 0 <= j < |ts| :: ts[j] <= |bus.log|
    {
      asked := |bus.log|;
      if works { bus.dev.BusWorks(|bus.log|); }
      var _ := bus.WriteAccess(locality, TPM_ACCESS_REQUEST_USE);
      ghost var requested := bus.log;
      ts := ts + [|bus.log|];
      var r, at := WaitForStatus(bus, Access(locality), TPM_ACCESS_ACTIVED_MASK, TPM_ACCESS_ACTIVED_MASK, TPM2_TIMEOUT_A);
      assert works ==> bus.chip == ours && (r == TeeOk <==> bus.dev.Active(|requested|, locality, ours));
      if r == TeeOk {
        assert bus.log[..asked + 1] == requested;
        if bus.dev.Compliant() { bus.dev.ActiveMeansOwned(at, locality, bus.chip); }
        return TeeOk, asked;
      }
      ReleaseAllLocalities(bus);
    }
    if bus.dev.Responsive() { bus.dev.GetsOn(0, ours); }
    assert works ==> bus.dev.ActiveOnce(ts, locality, ours);
    ret := BadState;
  }

  // ---------------------------------------------------------------- burst counts

  const STATUS_READS := [Peek(Sts(0)), Peek(Sts(1)), Peek(Sts(2)), Peek(Sts(3))]

  /** Read the four bytes of the status register and take the burst count out of them. */
  method ReadBurst(bus: Bus) returns (ok: bool, count: nat)
    modifies bus`log
    ensures old(bus.log) <= bus.log <= old(bus.log) + STATUS_READS
    ensures ok ==> bus.log == old(bus.log) + STATUS_READS && count == bus.dev.BurstAt(|old(bus.log)|, bus.chip)
    ensures (forall t: nat :: bus.dev.busOk(t)) ==> ok
  {
    count := 0;
    var v0, v1, v2, v3;
    ok, v0 := bus.ReadRegister(Sts(0));
    if !ok { return; }
    ok, v1 := bus.ReadRegister(Sts(1));
    if !ok { return; }
    ok, v2 := bus.ReadRegister(Sts(2));
    if !ok { return; }
    ok, v3 := bus.ReadRegister(Sts(3));
    if !ok { return; }
    count := (v1 as nat) + 0x100 * (v2 as nat);
  }

  /** Poll the burst count, bytes 1 and 2 of the status register, until it is not zero: over a working bus,
      success exactly when one of the polls finds one.  The four reads
      of the count returned, from `at` on, are the last accesses of the call. */
  method GetBurstCount(bus: Bus) returns (ret: Ret, burst: nat, ghost at: nat)
    modifies bus`log
    ensures Quiet(old(bus.log), bus.log)
    ensures ret == TeeOk ==> 0 < burst == bus.dev.BurstAt(at, bus.chip)
    ensures ret == TeeOk ==> |old(bus.log)| <= at && |bus.log| == at + 4 && bus.log[at..] == STATUS_READS
    ensures (forall t: nat :: bus.dev.busOk(t)) ==> (ret == TeeOk <==> bus.dev.BurstWithin(|old(bus.log)|, bus.chip))
    ensures bus.dev.Responsive() ==> ret == TeeOk
  {
    hide Device.BurstAt, Device.Responsive;
    if bus.dev.Responsive() {
      bus.dev.GetsOn(|bus.log|, bus.chip);
      forall t: nat ensures bus.dev.busOk(t) { bus.dev.BusWorks(t); }
    }
    ghost var start := |bus.log|;
    burst, at := 0, |bus.log|;
    for cnt := 0 to TPM2_TIMEOUT_A
      invariant Quiet(old(bus.log), bus.log) && |bus.log| == start + 4 * cnt
      invariant forall k: nat | k < cnt :: !bus.dev.BurstHit(start, k, bus.chip)
    {
      at := |bus.log|;
      var ok, count := ReadBurst(bus);
      if !ok { return BusError, 0, at; }
      assert bus.dev.BurstHit(start, cnt, bus.chip) <==> count != 0;
      if count != 0 { return TeeOk, count, at; }
    }
    ret := BadState;
  }

  // ---------------------------------------------------------------- sending

  ghost function Pushes(data: seq<byte>): seq<Step> { seq(|data|, i requires 0 <= i < |data| => Push(data[i])) }

  /** Bytes arrive in order; a failure leaves a prefix of them delivered.  `tried` of them went over the
      bus, one after another. */
  method WriteFifoBytes(bus: Bus, data: seq<byte>) returns (ret: Ret, ghost sent: nat, ghost tried: nat)
    modifies bus`log, bus`chip
    ensures sent <= tried <= |data| && tried <= sent + 1 && (data != [] ==> tried > 0)
    ensures bus.log == old(bus.log) + Pushes(data[..tried])
    ensures bus.chip == old(bus.chip).(received := old(bus.chip).received + data[..sent])
    ensures ret == TeeOk ==> sent == tried == |data|
    ensures ret == TeeOk || ret == BusError
    ensures bus.dev.Responsive() ==> ret == TeeOk
  {
    sent, tried := 0, 0;
    for i := 0 to |data|
      invariant sent == tried == i
      invariant bus.log == old(bus.log) + Pushes(data[..i])
      invariant bus.chip == old(bus.chip).(received := old(bus.chip).received + data[..i])
    {
      ghost var before := bus.chip;
      var ok := bus.WriteFifo(data[i]);
      tried := i + 1;
      assert Pushes(data[..i]) + [Push(data[i])] == Pushes(data[..i + 1]);
      assert before.received + [data[i]] == old(bus.chip).received + data[..i + 1];
      if !ok {
        sent := if bus.chip == before then i else i + 1;
        return BusError, sent, tried;
      }
      sent := i + 1;
    }
    ret := TeeOk;
  }

  /** One chunk as it went out: from where in the buffer, when its burst count was read, how much. */
  datatype Chunk = Chunk(from: nat, at: nat, size: nat)

  /** The log shows, without a gap, four status reads from `at` on and then the writes of the chunk, which
      is no larger than the burst count those reads gave of the chip holding what came before. */
  ghost predicate FitsBurst(dev: Device, owner: Option<nat>, log: seq<Step>, sendBuf: seq<byte>, c: Chunk) {
    && c.from + c.size <= |sendBuf| && c.at + 4 + c.size <= |log|
    && log[c.at..c.at + 4 + c.size] == STATUS_READS + Pushes(sendBuf[c.from..c.from + c.size])
    && 0 < c.size <= Min(dev.BurstAt(c.at, Chip(sendBuf[..c.from], None, 0, owner)), 64)
  }

  ghost predicate WithinBursts(dev: Device, owner: Option<nat>, log: seq<Step>, sendBuf: seq<byte>, chunks: seq<Chunk>) {
    forall i | 0 <= i < |chunks| :: FitsBurst(dev, owner, log, sendBuf, chunks[i])
  }

  /** The chunks follow each other from the front of the buffer up to `end`, and in time between the
      ticks `start` and `now`. */
  ghost predicate Tile(chunks: seq<Chunk>, start: nat, end: nat, now: nat) {
    if chunks == [] then end == 0 && start <= now
    else
      var last := chunks[|chunks| - 1];
      last.from + last.size == end && last.at + 4 + last.size <= now && Tile(chunks[..|chunks| - 1], start, last.from, last.at)
  }

  lemma TileLater(chunks: seq<Chunk>, start: nat, end: nat, now: nat, later: nat)
    requires Tile(chunks, start, end, now) && now <= later
    ensures Tile(chunks, start, end, later)
  {
  }

  lemma TileMore(chunks: seq<Chunk>, start: nat, end: nat, c: Chunk, now: nat)
    requires Tile(chunks, start, end, c.at) && c.from == end && c.at + 4 + c.size <= now
    ensures Tile(chunks + [c], start, end + c.size, now)
  {
    assert (chunks + [c])[..|chunks|] == chunks;
  }

  lemma WithinMore(dev: Device, owner: Option<nat>, log: seq<Step>, sendBuf: seq<byte>, chunks: seq<Chunk>, c: Chunk)
    requires WithinBursts(dev, owner, log, sendBuf, chunks) && FitsBurst(dev, owner, log, sendBuf, c)
    ensures WithinBursts(dev, owner, log, sendBuf, chunks + [c])
  {
    hide FitsBurst;
  }

  lemma WithinLongerLog(dev: Device, owner: Option<nat>, log: seq<Step>, longer: seq<Step>, sendBuf: seq<byte>, chunks: seq<Chunk>)
    requires WithinBursts(dev, owner, log, sendBuf, chunks) && log <= longer
    ensures WithinBursts(dev, owner, longer, sendBuf, chunks)
  {
    hide Device.BurstAt, Pushes;
    forall i | 0 <= i < |chunks| ensures FitsBurst(dev, owner, longer, sendBuf, chunks[i]) {
      var c := chunks[i];
      assert FitsBurst(dev, owner, log, sendBuf, c);
      assert longer[c.at..c.at + 4 + c.size] == longer[..|log|][c.at..c.at + 4 + c.size];
    }
  }

  /** What was logged for a chunk just written. */
  lemma ChunkFits(dev: Device, owner: Option<nat>, read: seq<Step>, log: seq<Step>, sendBuf: seq<byte>, c: Chunk)
    requires c.from + c.size <= |sendBuf| && |read| == c.at + 4 && read[c.at..] == STATUS_READS
    requires log == read + Pushes(sendBuf[c.from..c.from + c.size])
    requires 0 < c.size <= Min(dev.BurstAt(c.at, Chip(sendBuf[..c.from], None, 0, owner)), MAX_SPI_FRAMESIZE)
    ensures FitsBurst(dev, owner, log, sendBuf, c)
  {
    hide Device.BurstAt;
    assert log[c.at..c.at + 4 + c.size] == read[c.at..] + Pushes(sendBuf[c.from..c.from + c.size]);
  }

  lemma Slices(s: seq<byte>, from: nat, n: nat, k: nat)
    requires k <= n && from + n <= |s|
    ensures s[from..from + n][..k] == s[from..from + k] && s[..from] + s[from..from + n][..k] == s[..from + k]
  {
  }

  lemma PartIsIncomplete(sendBuf: seq<byte>, cnt: nat)
    requires |sendBuf| >= 6 && TPM_CMD_HEADER_SIZE <= U32At(sendBuf, 2) <= |sendBuf| && cnt < U32At(sendBuf, 2)
    ensures !Device.Complete(sendBuf[..cnt])
  {
  }

  /** Read a burst count and write one chunk within it; `chunk.size` bytes went over the bus. */
  method SendBurst(bus: Bus, sendBuf: seq<byte>, cnt: nat, room: nat) returns (ret: Ret, size: nat, ghost sent: nat, ghost chunk: Option<Chunk>)
    requires 0 < room && cnt + room <= |sendBuf| && bus.chip == Chip(sendBuf[..cnt], None, 0, bus.chip.owner)
    modifies bus`log, bus`chip
    ensures Quiet(old(bus.log), bus.log)
    ensures cnt <= sent <= cnt + room && bus.chip == Chip(sendBuf[..sent], None, 0, old(bus.chip).owner)
    ensures chunk.None? ==> sent == cnt && ret != TeeOk
    ensures chunk.Some? ==>
      && FitsBurst(bus.dev, bus.chip.owner, bus.log, sendBuf, chunk.value)
      && chunk.value.from == cnt && |old(bus.log)| <= chunk.value.at && chunk.value.at + 4 + chunk.value.size <= |bus.log|
      && sent <= cnt + chunk.value.size <= sent + 1 && 0 < chunk.value.size <= room
    ensures ret == TeeOk ==> chunk.Some? && size == chunk.value.size && sent == cnt + size
    ensures ret == TeeOk ==> size == Min(room, Min(bus.dev.BurstAt(chunk.value.at, old(bus.chip)), 64))
    ensures bus.dev.Responsive() ==> ret == TeeOk
  {
    hide Device.BurstAt, Device.Responsive, FitsBurst, Min;
    size, sent, chunk := 0, cnt, None;
    var r, burst, at := GetBurstCount(bus);
    if r != TeeOk { return BadParam, size, sent, chunk; }
    ghost var read := bus.log;
    size := Min(room, Min(burst, MAX_SPI_FRAMESIZE));
    ghost var k, tried;
    ret, k, tried := WriteFifoBytes(bus, sendBuf[cnt..cnt + size]);
    Slices(sendBuf, cnt, size, k);
    Slices(sendBuf, cnt, size, tried);
    sent := cnt + k;
    ChunkFits(bus.dev, bus.chip.owner, read, bus.log, sendBuf, Chunk(cnt, at, tried));
    chunk := Some(Chunk(cnt, at, tried));
  }

  /** Send all but the last of `sendCnt` bytes.  Whatever happens, the chunks tile the `tried` bytes that
      went over the bus, which are those that arrived and perhaps one more, and each fits the burst
      count read right before it. */
  method SendBursts(bus: Bus, sendBuf: seq<byte>, sendCnt: nat) returns (ret: Ret, ghost sent: nat, ghost tried: nat, ghost chunks: seq<Chunk>)
    requires |sendBuf| >= 6 && TPM_CMD_HEADER_SIZE <= sendCnt == U32At(sendBuf, 2) <= |sendBuf| && bus.chip == Idle(bus.chip.owner)
    modifies bus`log, bus`chip
    ensures Quiet(old(bus.log), bus.log)
    ensures sent < sendCnt && bus.chip == Chip(sendBuf[..sent], None, 0, old(bus.chip).owner)
    ensures sent <= tried <= sent + 1 && Tile(chunks, |old(bus.log)|, tried, |bus.log|)
    ensures WithinBursts(bus.dev, bus.chip.owner, bus.log, sendBuf, chunks)
    ensures ret == TeeOk ==> sent == tried == sendCnt - 1
    ensures bus.dev.Responsive() ==> ret == TeeOk
  {
    hide U32At, Tile, WithinBursts, FitsBurst, Polled, Device.Complete, Device.Responsive, Device.Shows, Device.ShowsWithin, Device.StopsAt;
    sent, tried, chunks := 0, 0, [];
    var cnt: nat := 0;
    ghost var owner, start := bus.chip.owner, |bus.log|;
    NoChunks(bus.dev, owner, bus.log, sendBuf);
    while cnt < sendCnt - 1
      invariant cnt <= sendCnt - 1 && sent == tried == cnt
      invariant bus.chip == Chip(sendBuf[..cnt], None, 0, owner) && Quiet(old(bus.log), bus.log)
      invariant Tile(chunks, start, tried, |bus.log|) && WithinBursts(bus.dev, owner, bus.log, sendBuf, chunks)
      decreases sendCnt - cnt
    {
      ghost var before := bus.log;
      var w, size, s, chunk := SendBurst(bus, sendBuf, cnt, sendCnt - 1 - cnt);
      WithinLongerLog(bus.dev, owner, before, bus.log, sendBuf, chunks);
      sent := s;
      if chunk.Some? {
        TileLater(chunks, start, tried, |before|, chunk.value.at);
        TileMore(chunks, start, tried, chunk.value, |bus.log|);
        WithinMore(bus.dev, owner, bus.log, sendBuf, chunks, chunk.value);
        chunks := chunks + [chunk.value];
        tried := tried + chunk.value.size;
      } else {
        TileLater(chunks, start, tried, |before|, |bus.log|);
      }
      if w != TeeOk { return w, sent, tried, chunks; }
      cnt := cnt + size;
      PartIsIncomplete(sendBuf, cnt);
      if bus.dev.Responsive() { bus.dev.ExpectsInTime(|bus.log|, bus.chip); }
      ghost var written := bus.log;
      var expecting, _ := WaitForStatus(bus, Sts(0), VALID_EXPECT, VALID_EXPECT, TPM2_TIMEOUT_A);
      WithinLongerLog(bus.dev, owner, written, bus.log, sendBuf, chunks);
      TileLater(chunks, start, tried, |written|, |bus.log|);
      if expecting != TeeOk { return BadState, sent, tried, chunks; }
    }
    ret := TeeOk;
  }

  lemma NoChunks(dev: Device, owner: Option<nat>, log: seq<Step>, sendBuf: seq<byte>)
    ensures Tile([], |log|, 0, |log|) && WithinBursts(dev, owner, log, sendBuf, [])
  {
  }

  /** Send the command whose header is at the front of `sendBuf`.  Whatever happens, what the chip has
      received is a prefix of the buffer, and all but the last byte went out in chunks that tile the
      buffer and each fit the burst count read right before; on success the last access is the start
      of the command, and against a compliant chip the whole command, and nothing else, has arrived. */
  method SendCmdData(bus: Bus, sendBuf: seq<byte>, len: nat) returns (ret: Ret, sendCnt: nat, ghost sent: nat, ghost tried: nat, ghost chunks: seq<Chunk>)
    requires len <= |sendBuf| && bus.chip == Idle(bus.chip.owner)
    modifies bus
    ensures Quiet(old(bus.log), bus.log) && bus.chip.owner == old(bus.chip).owner
    ensures sent <= |sendBuf| && bus.chip.received == sendBuf[..sent]
    ensures tried <= sent + 1 && sent <= tried + 1 && Tile(chunks, |old(bus.log)|, tried, |bus.log|)
    ensures WithinBursts(bus.dev, bus.chip.owner, bus.log, sendBuf, chunks)
    ensures (len < TPM_CMD_HEADER_SIZE || !(TPM_CMD_HEADER_SIZE <= U32At(sendBuf, 2) <= len)) ==> ret == BadParam && sent == 0
    ensures ret == TeeOk ==> TPM_CMD_HEADER_SIZE <= sendCnt == U32At(sendBuf, 2) <= len && sent <= sendCnt == tried + 1
    ensures ret == TeeOk ==> |bus.log| > |old(bus.log)| && bus.log[|bus.log| - 1] == Command(0x20)
    ensures ret == TeeOk && bus.dev.Compliant() ==> sent == sendCnt
    ensures ret == TeeOk && bus.chip.running.Some? ==>
      bus.chip == Chip(sendBuf[..sent], Some(sendBuf[..sent]), 0, bus.chip.owner) && bus.started == old(bus.started) + [sendBuf[..sent]]
    ensures ret != TeeOk || bus.chip.running.None? ==> bus.started == old(bus.started)
    ensures bus.dev.Responsive() && TPM_CMD_HEADER_SIZE <= len && TPM_CMD_HEADER_SIZE <= U32At(sendBuf, 2) <= len ==>
      ret == TeeOk && sent == sendCnt && bus.chip.running.Some?
  {
    hide Device.Compliant, Device.Responsive, Device.Complete, Device.Shows, Device.ShowsWithin, Device.StopsAt, FitsBurst, WithinBursts, Polled, Tile, U32At;
    sendCnt, sent, tried, chunks := 0, 0, 0, [];
    NoChunks(bus.dev, bus.chip.owner, bus.log, sendBuf);
    if len < TPM_CMD_HEADER_SIZE { return BadParam, sendCnt, sent, tried, chunks; }
    sendCnt := U32At(sendBuf, 2);
    if sendCnt > len || sendCnt < TPM_CMD_HEADER_SIZE { return BadParam, sendCnt, sent, tried, chunks; }
    ret, sent, tried, chunks := SendBursts(bus, sendBuf, sendCnt);
    if ret != TeeOk { return; }
    ghost var start, bursts := |old(bus.log)|, bus.log;
    var cnt := sendCnt - 1;
    var _, last, _ := WriteFifoBytes(bus, [sendBuf[cnt]]);
    assert sendBuf[..cnt] + [sendBuf[cnt]][..last] == sendBuf[..cnt + last];
    sent := cnt + last;
    if sent == sendCnt { WholeIsComplete(sendBuf); }
    if bus.dev.Responsive() { bus.dev.ExpectsInTime(|bus.log|, bus.chip); }
    var r, at := WaitForStatus(bus, Sts(0), VALID_EXPECT, TPM_STS_VALID, TPM2_TIMEOUT_A);
    WithinLongerLog(bus.dev, bus.chip.owner, bursts, bus.log, sendBuf, chunks);
    TileLater(chunks, start, tried, |bursts|, |bus.log|);
    if r != TeeOk { return BadState, sendCnt, sent, tried, chunks; }
    if bus.dev.Compliant() {
      NothingMissing(bus.dev, at, sendBuf, sent, bus.chip.owner);
    }
    ghost var expected := bus.log;
    if bus.dev.Responsive() { bus.dev.BusWorks(|bus.log|); }
    var _ := bus.WriteStatus(TPM_STS_TPMGO);
    WithinLongerLog(bus.dev, bus.chip.owner, expected, bus.log, sendBuf, chunks);
    TileLater(chunks, start, tried, |expected|, |bus.log|);
    ret := TeeOk;
  }

  /** When a compliant chip that got at least the header stops expecting data, it has the command. */
  lemma NothingMissing(dev: Device, at: nat, sendBuf: seq<byte>, sent: nat, owner: Option<nat>)
    requires dev.Compliant()
    requires 6 <= sent <= |sendBuf|
    requires dev.Shows(at, Sts(0), Chip(sendBuf[..sent], None, 0, owner), VALID_EXPECT, TPM_STS_VALID)
    ensures sent >= U32At(sendBuf, 2)
  {
    assert Device.Complete(sendBuf[..sent]);
  }

  lemma WholeIsComplete(sendBuf: seq<byte>)
    requires |sendBuf| >= 6 && TPM_CMD_HEADER_SIZE <= U32At(sendBuf, 2) <= |sendBuf|
    ensures Device.Complete(sendBuf[..U32At(sendBuf, 2)])
  {
  }

  // ---------------------------------------------------------------- receiving

  ghost predicate SameOutside(a: seq<byte>, b: seq<byte>, i: nat, j: nat) {
    i <= j <= |a| == |b| && a[..i] == b[..i] && a[j..] == b[j..]
  }

  ghost function Pulls(n: nat): seq<Step> { seq(n, i => Pull) }

  /** Read `n` consecutive bytes of the response into the buffer. */
  method ReadFifoBytes(bus: Bus, rx: array<byte>, off: nat, n: nat, ghost command: seq<byte>) returns (ret: Ret)
    requires off + n <= rx.Length
    requires bus.chip.running == Some(command)
    modifies bus`log, bus`chip, rx
    ensures bus.chip == old(bus.chip).(pos := bus.chip.pos) && Quiet(old(bus.log), bus.log)
    ensures SameOutside(old(rx[..]), rx[..], off, off + n)
    ensures ret == TeeOk ==> bus.chip.pos == old(bus.chip.pos) + n
    ensures ret == TeeOk ==> rx[..][off..off + n] == bus.dev.Response(command, old(bus.chip.pos), n)
    ensures ret == TeeOk ==> bus.log == old(bus.log) + Pulls(n)
    ensures bus.dev.Responsive() ==> ret == TeeOk
  {
    for i := 0 to n
      invariant bus.chip == old(bus.chip).(pos := old(bus.chip.pos) + i)
      invariant bus.log == old(bus.log) + Pulls(i)
      invariant SameOutside(old(rx[..]), rx[..], off, off + n)
      invariant rx[off..off + i] == bus.dev.Response(command, old(bus.chip.pos), i)
    {
      var ok, b := bus.ReadFifo();
      if !ok { return BusError; }
      ghost var before := rx[off..off + i];
      rx[off + i] := b;
      assert rx[off..off + i + 1] == before + [b];
    }
    ret := TeeOk;
  }

  /** `now` is `first` with `data` written at `off` and nothing changed outside the window of `cnt` bytes. */
  ghost predicate Received(first: seq<byte>, now: seq<byte>, off: nat, cnt: nat, data: seq<byte>) {
    && |data| <= cnt && off + cnt <= |first| == |now|
    && now[..off] == first[..off] && now[off + cnt..] == first[off + cnt..]
    && now[off..off + |data|] == data
  }

  lemma ReceivedNothing(first: seq<byte>, off: nat, cnt: nat, data: seq<byte>)
    requires off + cnt <= |first| && data == []
    ensures Received(first, first, off, cnt, data)
  {
  }

  lemma ReceivedMore(first: seq<byte>, now: seq<byte>, later: seq<byte>, off: nat, cnt: nat, data: seq<byte>, more: seq<byte>)
    requires Received(first, now, off, cnt, data) && |data| + |more| <= cnt
    requires SameOutside(now, later, off + |data|, off + cnt)
    requires later[off + |data|..off + |data| + |more|] == more
    ensures Received(first, later, off, cnt, data + more)
  {
    var size, n := |data|, |more|;
    assert later[..off] == later[..off + size][..off] && now[..off] == now[..off + size][..off];
    assert later[off..off + size] == later[..off + size][off..] && now[off..off + size] == now[..off + size][off..];
    assert later[off..off + size + n] == later[off..off + size] + later[off + size..off + size + n];
  }

  /** Read one burst of at most `room` bytes; on failure `n` is zero.  On success the log shows, without a
      gap, the four status reads from `at` on and the `n` FIFO reads, no more than the count they gave. */
  method RecvBurst(bus: Bus, rx: array<byte>, off: nat, room: nat, ghost command: seq<byte>) returns (ret: Ret, n: nat, ghost at: nat)
    requires off + room <= rx.Length && room > 0
    requires bus.chip.running == Some(command)
    modifies bus`log, bus`chip, rx
    ensures bus.chip == old(bus.chip).(pos := bus.chip.pos) && Quiet(old(bus.log), bus.log)
    ensures n <= room && (ret == TeeOk <==> n > 0)
    ensures ret == TeeOk ==> n == Min(Min(64, bus.dev.BurstAt(at, old(bus.chip))), room)
    ensures ret == TeeOk ==> |old(bus.log)| <= at <= |bus.log| && bus.log[at..] == STATUS_READS + Pulls(n)
    ensures bus.dev.Responsive() ==> ret == TeeOk
    ensures SameOutside(old(rx[..]), rx[..], off, off + room)
    ensures ret == TeeOk ==> bus.chip.pos == old(bus.chip.pos) + n
    ensures rx[..][off..off + n] == bus.dev.Response(command, old(bus.chip.pos), n)
  {
    hide Device.Responsive, Device.BurstAt, Device.Response;
    var burst;
    ret, burst, at := GetBurstCount(bus);
    if ret != TeeOk { return ret, 0, at; }
    n := Min(Min(MAX_SPI_FRAMESIZE, burst), room);
    ghost var before, read := rx[..], bus.log;
    ret := ReadFifoBytes(bus, rx, off, n, command);
    SameOutsideWider(before, rx[..], off, off + n, off + room);
    assert ret == TeeOk ==> bus.log[at..] == read[at..] + Pulls(n);
    if ret != TeeOk { n := 0; }
  }

  lemma SameOutsideWider(a: seq<byte>, b: seq<byte>, i: nat, j: nat, k: nat)
    requires SameOutside(a, b, i, j) && j <= k <= |a|
    ensures SameOutside(a, b, i, k)
  {
    assert a[k..] == a[j..][k - j..] && b[k..] == b[j..][k - j..];
  }

  /** Receive up to `cnt` bytes.  A stalled chip ends the loop early with fewer, all of them consecutive. */
  method RecvData(bus: Bus, rx: array<byte>, off: nat, cnt: nat, ghost command: seq<byte>) returns (ret: Ret, size: nat)
    requires off + cnt <= rx.Length
    requires bus.chip.running == Some(command)
    modifies bus`log, bus`chip, rx
    ensures bus.chip == old(bus.chip).(pos := bus.chip.pos) && Quiet(old(bus.log), bus.log)
    ensures size <= cnt
    ensures Received(old(rx[..]), rx[..], off, cnt, bus.dev.Response(command, old(bus.chip.pos), size))
    ensures ret == TeeOk ==> bus.chip.pos == old(bus.chip.pos) + size
    ensures bus.dev.Responsive() && old(bus.chip.pos) + cnt <= bus.dev.ResponseLen(command) ==>
      old(bus.chip.pos) > 0 || bus.dev.WasAvailable(|old(bus.log)|, old(bus.chip)) ==> ret == TeeOk && size == cnt
  {
    hide Min, Received, SameOutside, Polled, Pulls, Device.BurstAt, Device.BurstWithin, Device.Response, Device.ResponseLen, Device.Responsive, Device.Shows, Device.ShowsWithin, Device.StopsAt, Device.WasAvailable;
    size := 0;
    ReceivedNothing(rx[..], off, cnt, bus.dev.Response(command, bus.chip.pos, 0));
    while size < cnt
      invariant size <= cnt
      invariant bus.chip == old(bus.chip).(pos := old(bus.chip.pos) + size) && Quiet(old(bus.log), bus.log)
      invariant Received(old(rx[..]), rx[..], off, cnt, bus.dev.Response(command, old(bus.chip.pos), size))
      invariant size == 0 ==> bus.log == old(bus.log)
      decreases cnt - size
    {
      if bus.dev.Responsive() { bus.dev.AnswersInTime(|bus.log|, bus.chip); }
      var r, _ := WaitForStatus(bus, Sts(0), VALID_AVAIL, VALID_AVAIL, TPM2_TIMEOUT_A);
      if r != TeeOk { break; }
      ghost var before, p := rx[..], bus.chip.pos;
      var b, n, _ := RecvBurst(bus, rx, off + size, cnt - size, command);
      ghost var data, more := bus.dev.Response(command, old(bus.chip.pos), size), bus.dev.Response(command, p, n);
      ReceivedMore(old(rx[..]), before, rx[..], off, cnt, data, more);
      bus.dev.ResponseJoins(command, old(bus.chip.pos), size, n);
      if b != TeeOk { return b, size; }
      size := size + n;
    }
    ret := TeeOk;
  }

  /** Receive one response.  Success means the buffer starts with the first `respLen'` bytes of the
      response, `respLen'` being the length its header declares, and holds nothing new after them. */
  method RecvCmdData(bus: Bus, resp: array<byte>, respLen: nat, ghost command: seq<byte>) returns (ret: Ret, respLen': nat)
    requires resp.Length >= TPM_RECV_CMD_LEN
    requires bus.chip.running == Some(command) && bus.chip.pos == 0
    modifies bus`log, bus`chip, resp
    ensures resp[TPM_RECV_CMD_LEN..] == old(resp[TPM_RECV_CMD_LEN..])
    ensures ret != TeeOk ==> respLen' == respLen
    ensures ret == TeeOk ==> TPM_CMD_HEADER_SIZE <= respLen' == U32At(resp[..], 2) <= TPM_RECV_CMD_LEN
    ensures ret == TeeOk ==> resp[..respLen'] == bus.dev.Response(command, 0, respLen')
    ensures ret == TeeOk ==> resp[respLen'..] == old(resp[respLen'..])
    ensures bus.chip == old(bus.chip).(pos := bus.chip.pos) && Quiet(old(bus.log), bus.log)
    ensures bus.dev.Responsive() && respLen >= TPM_CMD_HEADER_SIZE && bus.dev.WasAvailable(|old(bus.log)|, old(bus.chip)) ==>
      ret == TeeOk && respLen' == bus.chip.pos == bus.dev.ResponseLen(command)
  {
    hide Device.Response, Device.Responsive, Device.WasAvailable;
    if bus.dev.Responsive() { bus.dev.AnswersInTime(|bus.log|, bus.chip); }
    respLen' := respLen;
    if respLen < TPM_CMD_HEADER_SIZE { return BadParam, respLen'; }
    ghost var first := resp[..];
    var r, size := RecvData(bus, resp, 0, TPM_CMD_HEADER_SIZE, command);
    ghost var second := resp[..];
    Tails(first, second, TPM_CMD_HEADER_SIZE, TPM_RECV_CMD_LEN);
    if r != TeeOk || size < TPM_CMD_HEADER_SIZE { return OutOfMemory, respLen'; }
    assert second[..TPM_CMD_HEADER_SIZE] == bus.dev.Response(command, 0, TPM_CMD_HEADER_SIZE);
    assert resp[..TPM_CMD_HEADER_SIZE] == second[..TPM_CMD_HEADER_SIZE];
    var recvLen := U32At(resp[..TPM_CMD_HEADER_SIZE], 2);
    assert recvLen == bus.dev.ResponseLen(command);
    if recvLen < TPM_CMD_HEADER_SIZE || recvLen > TPM_RECV_CMD_LEN { return BadState, respLen'; }
    Tails(first, second, TPM_CMD_HEADER_SIZE, recvLen);
    var rest;
    r, rest := RecvData(bus, resp, TPM_CMD_HEADER_SIZE, recvLen - TPM_CMD_HEADER_SIZE, command);
    ghost var third := resp[..];
    Tails(second, third, recvLen, TPM_RECV_CMD_LEN);
    if r != TeeOk { return BadState, respLen'; }
    if size + rest < recvLen { return OutOfMemory, respLen'; }
    bus.dev.ResponseJoins(command, 0, TPM_CMD_HEADER_SIZE, rest);
    assert third[..recvLen] == third[..TPM_CMD_HEADER_SIZE] + third[TPM_CMD_HEADER_SIZE..recvLen];
    respLen' := recvLen;
    ret := TeeOk;
  }

  lemma Tails(before: seq<byte>, after: seq<byte>, i: nat, j: nat)
    requires i <= j <= |before| == |after| && after[i..] == before[i..]
    ensures after[j..] == before[j..]
  {
    assert after[j..] == after[i..][j - i..];
    assert before[j..] == before[i..][j - i..];
  }

  /** What a completed exchange is: the chip was given exactly the command at the front of `sendBuf`,
      and the buffer starts with exactly its response. */
  ghost predicate Exchanged(dev: Device, sendBuf: seq<byte>, len: nat, resp: seq<byte>, respLen: nat) {
    && 10 <= len <= |sendBuf| && 10 <= U32At(sendBuf, 2) <= len
    && 10 <= respLen <= 4096 <= |resp| && U32At(resp, 2) == respLen
    && resp[..respLen] == dev.Response(sendBuf[..U32At(sendBuf, 2)], 0, respLen)
  }

  ghost predicate Sized(sendBuf: seq<byte>, len: nat, respLen: nat) {
    10 <= len <= |sendBuf| && 10 <= U32At(sendBuf, 2) <= len && respLen >= 10
  }

  /** The exchange under the locality: asked for at `asked`, the command started at `go`, and no access
      register written in between or after. */
  ghost predicate Held(log: seq<Step>, start: nat, locality: nat, asked: nat, go: nat) {
    && start <= asked < go < |log|
    && log[asked] == Claim(locality, 0x02) && log[go] == Command(0x20)
    && forall i | asked < i < |log| :: !log[i].Claim?
  }

  method TransferLocked(bus: Bus, locality: nat, sendBuf: seq<byte>, len: nat, resp: array<byte>, respLen: nat)
    returns (ret: Ret, respLen': nat, ghost asked: nat, ghost go: nat)
    requires len <= |sendBuf| && resp.Length >= TPM_RECV_CMD_LEN
    requires bus.dev.Compliant()
    modifies bus, resp
    ensures resp[TPM_RECV_CMD_LEN..] == old(resp[TPM_RECV_CMD_LEN..]) && old(bus.log) <= bus.log
    ensures ret == TeeOk ==> Exchanged(bus.dev, sendBuf, len, resp[..], respLen')
    ensures ret == TeeOk ==> bus.started == old(bus.started) + [sendBuf[..U32At(sendBuf, 2)]]
    ensures ret == TeeOk ==> resp[respLen'..] == old(resp[respLen'..])
    ensures ret == TeeOk ==> bus.chip.owner == Some(locality) && Held(bus.log, |old(bus.log)|, locality, asked, go)
    ensures bus.dev.Responsive() && bus.dev.Claimable(|old(bus.log)|, old(bus.chip), locality) ==> bus.chip.owner == Some(locality)
    ensures bus.dev.Responsive() && bus.dev.Claimable(|old(bus.log)|, old(bus.chip), locality) && Sized(sendBuf, len, respLen) ==> ret == TeeOk
  {
    hide Device.Response, Device.ResponseLen, Device.ShowsOwner, Device.Shows, Device.ShowsWithin, Device.StopsAt, Device.Responsive, Device.Compliant, U32At, Tile, WithinBursts, Polled;
    respLen', go := respLen, 0;
    var r;
    r, asked := RequestLocalityStart(bus, locality);
    if r != TeeOk { return Busy, respLen', asked, go; }
    ghost var held := bus.log;
    r := CheckSendCmdStatus(bus);
    if r != TeeOk { return Busy, respLen', asked, go; }
    var s, sendCnt, sent, _, _ := SendCmdData(bus, sendBuf, len);
    if s != TeeOk { return Busy, respLen', asked, go; }
    go := |bus.log| - 1;
    if bus.dev.Responsive() && bus.chip.running.Some? { bus.dev.AnswersInTime(|bus.log|, bus.chip); }
    var w, at := WaitForStatus(bus, Sts(0), VALID_AVAIL, VALID_AVAIL, TPM2_DURATION_LONG_LONG);
    if w != TeeOk { return BadState, respLen', asked, go; }
    bus.dev.DataMeansRunning(at, bus.chip);
    assert bus.dev.WasAvailable(|bus.log|, bus.chip);
    r, respLen' := RecvCmdData(bus, resp, respLen, sendBuf[..sendCnt]);
    if r != TeeOk { return Busy, respLen', asked, go; }
    if bus.dev.Responsive() { bus.dev.AnswersInTime(|bus.log|, bus.chip); }
    var drained, _ := WaitForStatus(bus, Sts(0), VALID_AVAIL, TPM_STS_VALID, TPM2_TIMEOUT_A);
    ret := if drained == TeeOk then TeeOk else BadState;
  }

  /** The last write to an access register gives the locality back. */
  ghost predicate GivenBack(log: seq<Step>, start: nat, locality: nat) {
    exists back | start <= back < |log| ::
      log[back] == Claim(locality, 0x20) && forall i | back < i < |log| :: !log[i].Claim?
  }

  /** The command was started between the request of the locality and its return, and no access
      register was written in between. */
  ghost predicate Bracketed(log: seq<Step>, start: nat, locality: nat) {
    exists asked, go, back :: Bracket(log, start, locality, asked, go, back)
  }

  ghost predicate Bracket(log: seq<Step>, start: nat, locality: nat, asked: nat, go: nat, back: nat) {
    && start <= asked < go < back < |log|
    && log[asked] == Claim(locality, 0x02) && log[go] == Command(0x20)
    && log[back] == Claim(locality, 0x20)
    && forall i | asked < i < back :: !log[i].Claim?
  }

  lemma BracketCloses(held: seq<Step>, closed: seq<Step>, log: seq<Step>, start: nat, locality: nat, asked: nat, go: nat)
    requires Held(held, start, locality, asked, go) && Quiet(held, closed)
    requires closed + [Claim(locality, 0x20)] <= log
    ensures Bracketed(log, start, locality)
  {
    var back := |closed|;
    assert forall i | 0 <= i < |held| :: log[i] == held[i];
    assert forall i | 0 <= i < |closed| :: log[i] == closed[i];
    assert Bracket(log, start, locality, asked, go, back);
  }

  /** One command and its response.  On every path the locality is given back at the end; on success the
      command was started while it was held. */
  method TransferCmdData(bus: Bus, locality: nat, sendBuf: seq<byte>, len: nat, resp: array<byte>, respLen: nat) returns (ret: Ret, respLen': nat)
    requires len <= |sendBuf| && resp.Length >= TPM_RECV_CMD_LEN
    requires bus.dev.Compliant()
    modifies bus, resp
    ensures resp[TPM_RECV_CMD_LEN..] == old(resp[TPM_RECV_CMD_LEN..])
    ensures ret == TeeOk ==> Exchanged(bus.dev, sendBuf, len, resp[..], respLen')
    ensures ret == TeeOk ==> bus.started == old(bus.started) + [sendBuf[..U32At(sendBuf, 2)]]
    ensures ret == TeeOk ==> resp[respLen'..] == old(resp[respLen'..])
    ensures GivenBack(bus.log, |old(bus.log)|, locality)
    ensures ret == TeeOk ==> Bracketed(bus.log, |old(bus.log)|, locality)
    ensures bus.dev.Responsive() && bus.dev.Claimable(|old(bus.log)|, old(bus.chip), locality) ==> bus.chip == Idle(None)
    ensures bus.dev.Responsive() && bus.dev.Claimable(|old(bus.log)|, old(bus.chip), locality) && Sized(sendBuf, len, respLen) ==> ret == TeeOk
  {
    hide Device.Response, Device.Responsive, Device.Compliant, Device.ShowsOwner, Device.StopsAt, Held, Bracketed, Exchanged;
    ghost var start := |bus.log|;
    ghost var asked, go;
    ret, respLen', asked, go := TransferLocked(bus, locality, sendBuf, len, resp, respLen);
    ghost var held := bus.log;
    var _ := CheckSendCmdStatus(bus);
    ghost var closed := bus.log;
    if bus.dev.Responsive() { bus.dev.BusWorks(|bus.log|); }
    ReleaseLocality(bus, locality);
    if ret == TeeOk { BracketCloses(held, closed, bus.log, start, locality, asked, go); }
    assert bus.log[|closed|] == Claim(locality, 0x20);
  }

  ghost predicate WellSized(sendData: seq<byte>, sendLen: nat, recvLen: nat) {
    && recvLen == 4096 && 10 <= sendLen <= 4096 && sendLen <= |sendData|
    && 10 <= U32At(sendData, 2) <= sendLen
  }

  /** The entry point.  `spiOk` is whether the bus could be initialised. */
  method TpmCmdTransmit(bus: Bus, spiOk: bool, sendData: seq<byte>, sendLen: nat, recvData: array<byte>, recvLen: nat) returns (ret: Ret, recvLen': nat)
    requires sendLen <= |sendData| && recvLen <= recvData.Length
    requires bus.dev.Compliant()
    modifies bus, recvData
    ensures recvLen != 4096 || !(10 <= sendLen <= 4096) ==>
      ret == BadParam && recvData[..] == old(recvData[..])
    ensures recvLen == TPM_RECV_CMD_LEN ==> recvData[TPM_RECV_CMD_LEN..] == old(recvData[TPM_RECV_CMD_LEN..])
    ensures ret == TeeOk ==> Exchanged(bus.dev, sendData, sendLen, recvData[..], recvLen')
    ensures ret == TeeOk ==> bus.started == old(bus.started) + [sendData[..U32At(sendData, 2)]]
    ensures ret == TeeOk ==> recvData[recvLen'..] == old(recvData[recvLen'..])
    ensures ret == TeeOk ==> Bracketed(bus.log, |old(bus.log)|, 0)
    ensures bus.dev.Responsive() && Free(old(bus.chip).owner, 0) ==> Free(bus.chip.owner, 0)
    ensures bus.dev.Responsive() && bus.dev.Claimable(|old(bus.log)|, old(bus.chip), 0) && spiOk && WellSized(sendData, sendLen, recvLen) ==>
      ret == TeeOk && bus.chip == Idle(None)
  {
    hide Device.Response, Device.Responsive, Device.Compliant, Device.ShowsOwner, Bracketed, Exchanged, U32At;
    if recvLen != TPM_RECV_CMD_LEN || sendLen < TPM_CMD_HEADER_SIZE || sendLen > TPM_SEND_CMD_LEN {
      return BadParam, recvLen;
    }
    if !spiOk { return BusError, recvLen; }
    ret, recvLen' := TransferCmdData(bus, 0, sendData, sendLen, recvData, recvLen);
  }

  // ---------------------------------------------------------------- a chip that fits the description

  /** The status of a chip that takes bytes until the command is complete and answers at once. */
  ghost function PlainStatus(c: Chip): bv8 {
    if c.running.Some? then if c.pos < TPM_CMD_HEADER_SIZE then 0x90 else 0x80
    else if c == Idle(c.owner) then 0xC0
    else if Device.Complete(c.received) then 0x80
    else 0x88
  }

  /** Every response of it is a bare header of ten bytes. */
  ghost function PlainDevice(): Device {
    Device(
      (t: nat, r: Register, c: Chip) => if r.Access? then (if c.owner == Some(r.locality) then 0xA0 else 0x80) else if r.index == 0 then PlainStatus(c) else 1,
      t => true,
      t => false,
      (command, pos) => if pos == 5 then 10 else 0)
  }

  lemma PlainResponse(command: seq<byte>)
    ensures PlainDevice().ResponseLen(command) == 10
  {
    var d := PlainDevice();
    d.ResponseAt(command, 10, 2);
    d.ResponseAt(command, 10, 3);
    d.ResponseAt(command, 10, 4);
    d.ResponseAt(command, 10, 5);
  }

  /** What the driver is promised can be kept. */
  lemma PlainDeviceQualifies()
    ensures PlainDevice().Compliant() && PlainDevice().Responsive()
  {
    hide Device.Complete, PlainStatus;
    var d := PlainDevice();
    PlainStatusIs();
    forall command ensures d.ResponseLen(command) == 10 { PlainResponse(command); }
    hide Device.ResponseLen;
    forall t: nat, c: Chip, mask: bv8, want: bv8, n: nat | PlainStatus(c) & mask == want && n > 0
      ensures d.ShowsWithin(t, n, Sts(0), c, mask, want)
    {
      assert d.Shows(t, Sts(0), c, mask, want);
    }
    forall ts, l: nat, c: Chip | |ts| == TPM_ACCESS_TRY_TIME && c.owner == Some(l) ensures d.ActiveOnce(ts, l, c) {
      assert d.Shows(ts[0], Access(l), c, TPM_ACCESS_ACTIVED_MASK, TPM_ACCESS_ACTIVED_MASK);
      assert d.Active(ts[0], l, c);
    }
    forall t: nat, c: Chip ensures d.BurstWithin(t, c) { assert d.BurstHit(t, 0, c); }
    forall t: nat, c: Chip | c == Idle(c.owner) ensures d.ReadyWithin(t, c) {
      assert d.SaysReady(t + 1, c);
      assert d.ReadyHit(t, 0, c);
    }
  }

  /** What the status shows of each phase. */
  lemma PlainStatusIs()
    ensures forall c: Chip | c == Idle(c.owner) :: PlainStatus(c) == 0xC0
    ensures forall c: Chip | c != Idle(c.owner) && c.running.None? :: PlainStatus(c) == if Device.Complete(c.received) then 0x80 else 0x88
    ensures forall c: Chip | c.running.Some? :: PlainStatus(c) == if c.pos < 10 then 0x90 else 0x80
  {
  }
}
