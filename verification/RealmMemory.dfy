/** Accepting RAM inside a realm: the partial-progress loop around the monitor's range-state call, and
    the pass that accepts every whole 4 KiB granule of the memory map.

    The monitor is a partner that may answer anything.  It is a function of the call's number and
    arguments, so a statement about every `Monitor` is a statement about every behaviour. */
module RealmMemory {
  import opened Bytes
  import opened FdtMemory

  const GRANULE := 0x1000

  const RSI_SUCCESS := 0
  const RSI_ERROR_INPUT := 1
  const RSI_ERROR_STATE := 2
  const RSI_ACCEPT := 0

  const MEMORY_TYPE_RAM := 1
  const MEMORY_TYPE_MMIO := 2

  datatype Answer = Answer(status: nat, top: nat, accepted: nat)

  datatype Range = Range(base: nat, top: nat)

  datatype RsiResult = Ok(end: nat) | Err(status: nat)

  /** Why an answer stops the loop: the monitor's own error, a rejection, or an end out of range. */
  function Refusal(a: Answer, current: nat, end: nat): Option<nat> {
    if a.status != RSI_SUCCESS then Some(a.status)
    else if a.accepted != RSI_ACCEPT then Some(RSI_ERROR_STATE)
    else if current < a.top <= end then None
    else Some(RSI_ERROR_INPUT)
  }

  class Monitor {
    const answer: (nat, nat, nat) -> Answer
    var calls: nat
    /** The ranges whose state the monitor has changed, in order. */
    ghost var changed: seq<Range>

    constructor (answer: (nat, nat, nat) -> Answer)
      ensures this.answer == answer && calls == 0 && changed == []
    {
      this.answer := answer;
      calls, changed := 0, [];
    }

    /** The monitor never goes past the end it was given. */
    ghost predicate StaysBelowEnd() {
      forall k: nat, b: nat, e: nat ::
        var a := answer(k, b, e); a.status == RSI_SUCCESS && a.accepted == RSI_ACCEPT ==> a.top <= e
    }

    /** The monitor grants every call some progress. */
    ghost predicate Willing() {
      forall k: nat, b: nat, e: nat | b < e :: Refusal(answer(k, b, e), b, e).None?
    }

    /** One call: on accepted success exactly `[start, top)` changes. */
    method IpaStateSet(start: nat, end: nat) returns (a: Answer)
      modifies this
      ensures a == answer(old(calls), start, end) && calls == old(calls) + 1
      ensures changed == old(changed)
        + if a.status == RSI_SUCCESS && a.accepted == RSI_ACCEPT && start < a.top then [Range(start, a.top)] else []
    {
      a := answer(calls, start, end);
      calls := calls + 1;
      if a.status == RSI_SUCCESS && a.accepted == RSI_ACCEPT && start < a.top {
        changed := changed + [Range(start, a.top)];
      }
    }
  }

  /** The ranges are adjacent, none is empty, and together they run from `a` to `b`. */
  ghost predicate Chain(ranges: seq<Range>, a: nat, b: nat) {
    if ranges == [] then a == b
    else
      var last := ranges[|ranges| - 1];
      last.top == b && last.base < b && Chain(ranges[..|ranges| - 1], a, last.base)
  }

  ghost predicate Covers(ranges: seq<Range>, addr: nat) {
    exists i | 0 <= i < |ranges| :: ranges[i].base <= addr < ranges[i].top
  }

  lemma CoversAppend(a: seq<Range>, b: seq<Range>, x: nat)
    ensures Covers(a + b, x) <==> Covers(a, x) || Covers(b, x)
  {
    if Covers(a, x) {
      var i :| 0 <= i < |a| && a[i].base <= x < a[i].top;
      assert (a + b)[i].base <= x < (a + b)[i].top;
    } else if Covers(b, x) {
      var i :| 0 <= i < |b| && b[i].base <= x < b[i].top;
      assert (a + b)[|a| + i].base <= x < (a + b)[|a| + i].top;
    }
  }

  lemma CoversOne(r: Range, x: nat)
    ensures Covers([r], x) <==> r.base <= x < r.top
  {
    if r.base <= x < r.top { assert [r][0].base <= x < [r][0].top; }
  }

  lemma {:induction false} ChainBounds(ranges: seq<Range>, a: nat, b: nat)
    requires Chain(ranges, a, b)
    ensures a <= b
    ensures forall i | 0 <= i < |ranges| :: a <= ranges[i].base < ranges[i].top <= b
  {
    if ranges != [] {
      var n := |ranges| - 1;
      ChainBounds(ranges[..n], a, ranges[n].base);
      assert forall i | 0 <= i < n :: ranges[i] == ranges[..n][i];
    }
  }

  lemma {:induction false} ChainInOrder(ranges: seq<Range>, a: nat, b: nat)
    requires Chain(ranges, a, b)
    ensures forall i, j | 0 <= i < j < |ranges| :: ranges[i].top <= ranges[j].base
  {
    if ranges != [] {
      var n := |ranges| - 1;
      ChainInOrder(ranges[..n], a, ranges[n].base);
      ChainBounds(ranges[..n], a, ranges[n].base);
      assert forall i | 0 <= i < n :: ranges[i] == ranges[..n][i];
    }
  }

  lemma {:induction false} ChainCoversOne(ranges: seq<Range>, a: nat, b: nat, x: nat)
    requires Chain(ranges, a, b)
    ensures Covers(ranges, x) <==> a <= x < b
  {
    if ranges != [] {
      hide Covers;
      var front, last := ranges[..|ranges| - 1], ranges[|ranges| - 1];
      assert ranges == front + [last];
      ChainCoversOne(front, a, last.base, x);
      ChainBounds(front, a, last.base);
      CoversAppend(front, [last], x);
      CoversOne(last, x);
    }
  }

  /** A chain from `a` to `b` covers exactly `[a, b)`, and no address twice. */
  lemma ChainCovers(ranges: seq<Range>, a: nat, b: nat)
    requires Chain(ranges, a, b)
    ensures a <= b
    ensures forall x: nat :: Covers(ranges, x) <==> a <= x < b
    ensures forall i, j | 0 <= i < j < |ranges| :: ranges[i].top <= ranges[j].base
    ensures forall i | 0 <= i < |ranges| :: a <= ranges[i].base < ranges[i].top <= b
  {
    hide Chain, Covers;
    ChainBounds(ranges, a, b);
    ChainInOrder(ranges, a, b);
    forall x: nat ensures Covers(ranges, x) <==> a <= x < b {
      ChainCoversOne(ranges, a, b, x);
    }
  }

  /** The answer calls for this error: its own status, 2 for a rejection, 1 for an end out of range. */
  ghost predicate CalledFor(a: Answer, current: nat, end: nat, status: nat) {
    if a.status != 0 then status == a.status
    else if a.accepted != 0 then status == 2
    else !(current < a.top <= end) && status == 1
  }

  lemma ChainExtends(ranges: seq<Range>, a: nat, b: nat, top: nat)
    requires Chain(ranges, a, b) && b < top
    ensures Chain(ranges + [Range(b, top)], a, top)
  {
    assert (ranges + [Range(b, top)])[..|ranges|] == ranges;
  }

  lemma ChainStarts(ranges: seq<Range>, a: nat)
    requires ranges == []
    ensures Chain(ranges, a, a)
  {
  }

  /** Ok means contiguous, non-overlapping steps changed all of `[start, end)`; an error leaves a
      prefix changed, and is what the monitor's last answer calls for. */
  method RsiSetAddrRangeState(m: Monitor, start: nat, end: nat) returns (r: RsiResult, ghost reached: nat)
    modifies m
    ensures |m.changed| >= |old(m.changed)| && m.changed[..|old(m.changed)|] == old(m.changed)
    ensures r.Ok? ==> r.end == end && Chain(m.changed[|old(m.changed)|..], start, if start < end then end else start)
    ensures r.Err? && m.StaysBelowEnd() ==> start <= reached < end && Chain(m.changed[|old(m.changed)|..], start, reached)
    ensures start >= end ==> r.Ok?
    ensures r.Err? ==> m.calls > 0 && CalledFor(m.answer(m.calls - 1, reached, end), reached, end, r.status)
    ensures m.Willing() ==> r.Ok?
  {
    hide Chain;
    var current := start;
    reached := current;
    ghost var n := |m.changed|;
    ChainStarts(m.changed[n..], start);
    while current < end
      invariant start <= current && (start < end ==> current <= end) && (start >= end ==> current == start)
      invariant reached == current
      invariant |m.changed| >= n && m.changed[..n] == old(m.changed)
      invariant Chain(m.changed[n..], start, current)
      decreases end - current
    {
      ghost var before, k := m.changed, m.calls;
      var a := m.IpaStateSet(current, end);
      assert a == m.answer(k, current, end);
      if m.changed == before {
        assert m.changed[n..] == before[n..];
      } else {
        assert m.changed[n..] == before[n..] + [Range(current, a.top)];
      }
      if a.status != RSI_SUCCESS { return Err(a.status), reached; }
      if a.accepted != RSI_ACCEPT { return Err(RSI_ERROR_STATE), reached; }
      if a.top <= current || a.top > end { return Err(RSI_ERROR_INPUT), reached; }
      ChainExtends(before[n..], start, current, a.top);
      current := a.top;
      reached := current;
    }
    r := Ok(end);
  }

  // ---------------------------------------------------------------- the memory map

  datatype MemoryRegion = MemoryRegion(addr: nat, size: nat, kind: nat) {
    predicate IsU64() { addr < TWO_64 && size < TWO_64 }
  }

  /** `(addr + 0xFFF) & !0xFFF` on 64-bit words. */
  function AlignedStart(r: MemoryRegion): nat { (r.addr + 0xFFF) % TWO_64 / GRANULE * GRANULE }

  /** `(addr + size) & !0xFFF` on 64-bit words. */
  function AlignedEnd(r: MemoryRegion): nat { (r.addr + r.size) % TWO_64 / GRANULE * GRANULE }

  /** The granule of address `x` lies wholly inside the region. */
  ghost predicate GranuleInside(r: MemoryRegion, x: nat) {
    r.addr <= x / GRANULE * GRANULE && x / GRANULE * GRANULE + GRANULE <= r.addr + r.size
  }

  ghost predicate Accepted(r: MemoryRegion, x: nat) {
    AlignedStart(r) <= x < AlignedEnd(r)
  }

  /** Neither of the two 64-bit sums wraps. */
  predicate NoWrap(r: MemoryRegion) {
    r.addr + 0xFFF < TWO_64 && r.addr + r.size < TWO_64
  }

  lemma AcceptedIfNoWrap(r: MemoryRegion, x: nat)
    requires NoWrap(r)
    ensures Accepted(r, x) <==> GranuleInside(r, x)
  {
    var g := x / GRANULE;
    var s, e := (r.addr + 0xFFF) / GRANULE, (r.addr + r.size) / GRANULE;
    assert s * GRANULE <= x <==> s <= g;
    assert x < e * GRANULE <==> g < e;
    assert s <= g <==> r.addr <= g * GRANULE;
    assert g < e <==> g * GRANULE + GRANULE <= r.addr + r.size;
  }

  /** The guard a caller could check: the only regions for which the pass reaches outside. */
  predicate StartWraps(r: MemoryRegion) {
    r.addr + 0xFFF >= TWO_64 && (r.addr + r.size < TWO_64 || r.addr + r.size >= TWO_64 + GRANULE)
  }

  /** On 64-bit words the aligned range keeps to granules wholly inside the region exactly when the
      rounded-up start does not wrap. */
  lemma StaysInsideIff(r: MemoryRegion)
    requires r.IsU64()
    ensures (forall x: nat :: Accepted(r, x) ==> GranuleInside(r, x)) <==> !StartWraps(r)
  {
    if StartWraps(r) {
      assert AlignedStart(r) == 0;
      assert Accepted(r, 0) && !GranuleInside(r, 0);
    } else if r.addr + 0xFFF < TWO_64 {
      if r.addr + r.size < TWO_64 {
        forall x: nat ensures Accepted(r, x) ==> GranuleInside(r, x) { AcceptedIfNoWrap(r, x); }
      } else {
        assert AlignedEnd(r) <= r.addr <= AlignedStart(r);
      }
    } else {
      assert AlignedEnd(r) == 0;
    }
  }

  /** A zero-sized region at the top of the address space: everything below is taken for RAM. */
  lemma StartWrapsWitness()
    ensures var r := MemoryRegion(TWO_64 - 1, 0, MEMORY_TYPE_RAM);
      r.IsU64() && StartWraps(r) && Accepted(r, 0) && !GranuleInside(r, 0)
  {
  }

  /** The other guard: the only regions of which whole granules are left out. */
  predicate EndWraps(r: MemoryRegion) { r.addr + 0xFFF < TWO_64 && r.addr + r.size >= TWO_64 }

  /** On 64-bit words the aligned range holds every granule wholly inside the region exactly when the end
      does not wrap, or the start does, which leaves no whole granule in the address space. */
  lemma CoversAllIff(r: MemoryRegion)
    requires r.IsU64()
    ensures (forall x: nat | x < TWO_64 && GranuleInside(r, x) :: Accepted(r, x)) <==> !EndWraps(r)
  {
    if EndWraps(r) {
      var x := AlignedStart(r);
      assert x / GRANULE * GRANULE == x;
      assert AlignedEnd(r) <= r.addr <= x && x + GRANULE <= TWO_64;
      assert GranuleInside(r, x) && !Accepted(r, x);
    } else if r.addr + 0xFFF < TWO_64 {
      forall x: nat | x < TWO_64 && GranuleInside(r, x) ensures Accepted(r, x) { AcceptedIfNoWrap(r, x); }
    } else {
      assert forall x: nat | x < TWO_64 :: x / GRANULE * GRANULE <= TWO_64 - GRANULE < r.addr;
    }
  }

  /** The aligned range is exactly the granules wholly inside the region exactly when neither happens. */
  lemma AcceptedExactly(r: MemoryRegion)
    requires r.IsU64()
    ensures (forall x: nat | x < TWO_64 :: Accepted(r, x) <==> GranuleInside(r, x)) <==> !StartWraps(r) && !EndWraps(r)
  {
    hide StartWraps, EndWraps, GranuleInside;
    StaysInsideIff(r);
    CoversAllIff(r);
    assert forall x: nat | Accepted(r, x) :: x < TWO_64;
  }

  /** A region from 0x1800 to 0x3800: of it the granule from 0x2000 to 0x3000 is accepted, and nothing else. */
  lemma GranuleSpelledOut()
    ensures AlignedStart(MemoryRegion(0x1800, 0x2000, MEMORY_TYPE_RAM)) == 0x2000 && AlignedEnd(MemoryRegion(0x1800, 0x2000, MEMORY_TYPE_RAM)) == 0x3000
  {
  }

  /** Two granules that end at the top of the address space: none of them is accepted. */
  lemma EndWrapsWitness()
    ensures var r := MemoryRegion(TWO_64 - 0x2000, 0x2000, MEMORY_TYPE_RAM);
      r.IsU64() && EndWraps(r) && GranuleInside(r, TWO_64 - 0x2000) && forall x: nat :: !Accepted(r, x)
  {
  }

  ghost predicate InsideSomeRam(map_: seq<MemoryRegion>, range: Range) {
    exists i | 0 <= i < |map_| :: map_[i].kind == MEMORY_TYPE_RAM && AlignedStart(map_[i]) <= range.base && range.top <= AlignedEnd(map_[i])
  }

  class MemoryMap {
    var regions: seq<MemoryRegion>

    constructor ()
      ensures regions == []
    {
      regions := [];
    }

    /** The map holds the device tree's memory as RAM, in order, then the two device windows. */
    method InitFromFdt(fdtMemory: seq<MemRegion>)
      modifies this
      ensures |regions| == |fdtMemory| + 2
      ensures forall i | 0 <= i < |fdtMemory| ::
        regions[i] == MemoryRegion(fdtMemory[i].base, fdtMemory[i].size, MEMORY_TYPE_RAM)
      ensures regions[|fdtMemory|] == MemoryRegion(0x0800_0000, 0x00C0_0000, 2)
      ensures regions[|fdtMemory| + 1] == MemoryRegion(0x0900_0000, 0x0000_1000, 2)
    {
      regions := [];
      for i := 0 to |fdtMemory|
        invariant |regions| == i
        invariant forall j | 0 <= j < i :: regions[j] == MemoryRegion(fdtMemory[j].base, fdtMemory[j].size, MEMORY_TYPE_RAM)
      {
        regions := regions + [MemoryRegion(fdtMemory[i].base, fdtMemory[i].size, MEMORY_TYPE_RAM)];
      }
      regions := regions + [MemoryRegion(0x0800_0000, 0x00C0_0000, MEMORY_TYPE_MMIO)];
      regions := regions + [MemoryRegion(0x0900_0000, 0x0000_1000, MEMORY_TYPE_MMIO)];
    }

    /** Every range the monitor changes lies inside the aligned part of some RAM region, and the
        aligned part of every RAM region has been changed but for as many as there are failed calls:
        a failure does not keep the pass from the later regions. */
    method AcceptAllRam(m: Monitor, realm: bool) returns (failures: nat, ghost failed: set<nat>)
      requires m.changed == []
      modifies m
      ensures !realm ==> m.changed == []
      ensures m.Willing() ==> failures == 0
      ensures m.StaysBelowEnd() ==> forall k | 0 <= k < |m.changed| :: InsideSomeRam(regions, m.changed[k])
      ensures |failed| == failures
      ensures realm ==>
        forall i | 0 <= i < |regions| && regions[i].kind == MEMORY_TYPE_RAM && i !in failed ::
          forall x: nat | Accepted(regions[i], x) :: Covers(m.changed, x)
    {
      hide Chain, AlignedStart, AlignedEnd, Monitor.Willing, Monitor.StaysBelowEnd;
      failures, failed := 0, {};
      if !realm { return; }
      for i := 0 to |regions|
        invariant m.Willing() ==> failures == 0
        invariant m.StaysBelowEnd() ==> forall k | 0 <= k < |m.changed| :: InsideSomeRam(regions, m.changed[k])
        invariant |failed| == failures && forall j <- failed :: j < i
        invariant forall j | 0 <= j < i && regions[j].kind == MEMORY_TYPE_RAM && j !in failed ::
          forall x: nat | Accepted(regions[j], x) :: Covers(m.changed, x)
      {
        var region := regions[i];
        if region.kind == MEMORY_TYPE_RAM {
          var alignedStart, alignedEnd := AlignedStart(region), AlignedEnd(region);
          if alignedStart < alignedEnd {
            ghost var before := m.changed;
            var r, reached := RsiSetAddrRangeState(m, alignedStart, alignedEnd);
            ghost var new_ := m.changed[|before|..];
            assert m.changed == before + new_;
            forall x: nat ensures Covers(m.changed, x) <==> Covers(before, x) || Covers(new_, x) {
              CoversAppend(before, new_, x);
            }
            if r.Ok? || m.StaysBelowEnd() {
              ChainCovers(new_, alignedStart, if r.Ok? then alignedEnd else reached);
            }
            if r.Err? {
              failures, failed := failures + 1, failed + {i};
            }
          }
        }
      }
    }
  }

  function Ram(region: MemRegion): MemoryRegion { MemoryRegion(region.base, region.size, MEMORY_TYPE_RAM) }

  ghost predicate InTreeRegion(region: MemRegion, x: nat) { GranuleInside(Ram(region), x) }

  /** From the tree's regions to the monitor.  If no region's start wraps, an address is changed only if
      its granule lies wholly inside a region; and but for one region for each failed call, all such
      addresses are, in every region whose end does not wrap. */
  method AcceptDeviceTreeRam(fdtMemory: seq<MemRegion>, m: Monitor) returns (failures: nat, ghost failed: set<nat>)
    requires m.changed == [] && m.StaysBelowEnd()
    requires forall i | 0 <= i < |fdtMemory| :: Ram(fdtMemory[i]).IsU64()
    modifies m
    ensures (forall i | 0 <= i < |fdtMemory| :: !StartWraps(Ram(fdtMemory[i]))) ==>
      forall x: nat | Covers(m.changed, x) :: exists i | 0 <= i < |fdtMemory| :: InTreeRegion(fdtMemory[i], x)
    ensures m.Willing() ==> failures == 0
    ensures |failed| == failures
    ensures forall i, x: nat | 0 <= i < |fdtMemory| && i !in failed && !EndWraps(Ram(fdtMemory[i])) && x < TWO_64 && InTreeRegion(fdtMemory[i], x) ::
      Covers(m.changed, x)
  {
    hide StartWraps, EndWraps, GranuleInside, AlignedStart, AlignedEnd;
    var memoryMap := new MemoryMap();
    memoryMap.InitFromFdt(fdtMemory);
    failures, failed := memoryMap.AcceptAllRam(m, true);
    if forall i | 0 <= i < |fdtMemory| :: !StartWraps(Ram(fdtMemory[i])) {
      forall x: nat | Covers(m.changed, x) ensures exists i | 0 <= i < |fdtMemory| :: InTreeRegion(fdtMemory[i], x) {
        var k :| 0 <= k < |m.changed| && m.changed[k].base <= x < m.changed[k].top;
        assert InsideSomeRam(memoryMap.regions, m.changed[k]);
        var i :| 0 <= i < |memoryMap.regions| && memoryMap.regions[i].kind == MEMORY_TYPE_RAM
          && AlignedStart(memoryMap.regions[i]) <= m.changed[k].base && m.changed[k].top <= AlignedEnd(memoryMap.regions[i]);
        StaysInsideIff(Ram(fdtMemory[i]));
        assert Accepted(Ram(fdtMemory[i]), x);
        assert InTreeRegion(fdtMemory[i], x);
      }
    }
    forall i, x: nat | 0 <= i < |fdtMemory| && i !in failed && !EndWraps(Ram(fdtMemory[i])) && x < TWO_64 && InTreeRegion(fdtMemory[i], x)
      ensures Covers(m.changed, x)
    {
      CoversAllIff(Ram(fdtMemory[i]));
      assert Accepted(memoryMap.regions[i], x);
    }
  }
}
