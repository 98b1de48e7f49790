/** Split virtqueues (section 2.6 of VIRTIO 1.1): the driver publishes descriptor heads in the available
    ring, the device returns them in the used ring, and both sides count with 16-bit indices that wrap.
    The claim is that each ring behaves like an unbounded queue. */
module Virtqueue {
  import opened Bytes

  datatype UsedElem = UsedElem(id: nat, len: nat)

  // ---------------------------------------------------------------- slots

  /** The slot of the n-th element, computed from a 16-bit index. */
  function Slot(n: nat, num: nat): nat
    requires num > 0
  {
    n % TWO_16 % num
  }

  lemma MultipleBounds(m: nat, d: int)
    ensures d >= 1 ==> m * d >= m
    ensures d == 0 ==> m * d == 0
    ensures d <= -1 ==> m * d <= -(m as int)
  {
  }

  /** Quotient and remainder are unique. */
  lemma ModUnique(x: nat, m: nat, k: int, r: nat)
    requires r < m && x == m * k + r
    ensures x % m == r
  {
    var d := k - x / m;
    assert m * d == m * k - m * (x / m) == x % m - r;
    MultipleBounds(m, d);
  }

  lemma ModOfMultiple(n: nat, m: nat, q: nat)
    requires m > 0
    ensures (n + m * q) % m == n % m
  {
    assert n == m * (n / m) + n % m;
    assert n + m * q == m * (n / m + q) + n % m;
    ModUnique(n + m * q, m, n / m + q, n % m);
  }

  /** A divisor of 2^16 makes wrapping invisible. */
  lemma SlotOfDivisor(n: nat, num: nat)
    requires num > 0 && TWO_16 % num == 0
    ensures Slot(n, num) == n % num
  {
    var a, q := n / TWO_16, TWO_16 / num;
    assert n == n % TWO_16 + num * (q * a) by {
      assert TWO_16 == num * q;
      assert num * q * a == num * (q * a);
    }
    ModOfMultiple(n % TWO_16, num, q * a);
  }

  lemma NearbyDiffer(i: nat, j: nat, num: nat)
    requires num > 0 && i < j < i + num
    ensures i % num != j % num
  {
    var q := j / num - i / num;
    assert j - i == num * q + (j % num - i % num);
    MultipleBounds(num, q);
  }

  /** No two of `num` consecutive elements ever share a slot exactly when `num` divides 2^16, that is,
      when it is a power of two. */
  lemma SlotsSeparateIff(num: nat)
    requires 0 < num < TWO_16
    ensures (forall i: nat, j: nat | i < j < i + num :: Slot(i, num) != Slot(j, num)) <==> TWO_16 % num == 0
  {
    if TWO_16 % num == 0 {
      forall i: nat, j: nat | i < j < i + num ensures Slot(i, num) != Slot(j, num) {
        SlotOfDivisor(i, num);
        SlotOfDivisor(j, num);
        NearbyDiffer(i, j, num);
      }
    } else {
      var i := TWO_16 - TWO_16 % num;
      assert i == num * (TWO_16 / num);
      ModOfMultiple(0, num, TWO_16 / num);
      assert Slot(i, num) == 0 == Slot(TWO_16, num);
      assert i < TWO_16 < i + num;
    }
  }

  /** A queue of three: the elements either side of the index wrap land in one slot. */
  lemma QueueOfThreeCollides()
    ensures Slot(65535, 3) == Slot(65536, 3) == 0
  {
  }

  // ---------------------------------------------------------------- one ring as a queue

  /** A ring of `num` slots, filled at a producer's 16-bit index and read at a consumer's. */
  class Ring<T(0)> {
    const num: nat
    var slots: array<T>
    /** The index the producer publishes, and the one the consumer keeps. */
    var head: nat
    var tail: nat
    /** The abstract queue: everything ever produced, and how much of it has been consumed. */
    ghost var produced: seq<T>
    ghost var consumed: nat

    ghost predicate Valid()
      reads this, slots
    {
      && 0 < num < TWO_16 && TWO_16 % num == 0 && slots.Length == num
      && consumed <= |produced| <= consumed + num
      && head == |produced| % TWO_16 && tail == consumed % TWO_16
      && forall i | consumed <= i < |produced| :: slots[Slot(i, num)] == produced[i]
    }

    constructor (num: nat)
      requires 0 < num < TWO_16 && TWO_16 % num == 0
      ensures Valid() && fresh(slots)
      ensures this.num == num && produced == [] && consumed == 0
    {
      this.num := num;
      slots := new T[num];
      head, tail, produced, consumed := 0, 0, [], 0;
    }

    /** Publish one more element.  At most `num` elements may be outstanding. */
    method Put(x: T)
      requires Valid() && |produced| - consumed < num
      modifies this`head, this`produced, slots
      ensures Valid() && slots == old(slots)
      ensures produced == old(produced) + [x] && consumed == old(consumed)
    {
      var idx := head;
      assert idx % num == Slot(|produced|, num);
      forall i | consumed <= i < |produced| ensures Slot(i, num) != Slot(|produced|, num) {
        SlotsSeparateIff(num);
      }
      hide Slot;
      slots[idx % num] := x;
      NextIndex(|produced|);
      head := (idx + 1) % TWO_16;
      produced := produced + [x];
    }

    /** Take the next element if the indices differ: it is the oldest one not yet taken, and there is
        none exactly when all have been. */
    method Get() returns (r: Option<T>)
      requires Valid()
      modifies this`tail, this`consumed
      ensures Valid() && produced == old(produced)
      ensures r.None? <==> old(consumed) == |produced|
      ensures r.None? ==> consumed == old(consumed)
      ensures r.Some? ==> r.value == produced[old(consumed)] && consumed == old(consumed) + 1
    {
      if tail == head {
        WrapIsFaithful(consumed, |produced|);
        return None;
      }
      assert tail % num == Slot(consumed, num);
      hide Slot;
      r := Some(slots[tail % num]);
      NextIndex(consumed);
      tail := (tail + 1) % TWO_16;
      consumed := consumed + 1;
    }
  }

  lemma NextIndex(n: nat)
    ensures (n % TWO_16 + 1) % TWO_16 == (n + 1) % TWO_16
  {
  }

  lemma WrapIsFaithful(a: nat, b: nat)
    requires a <= b < a + TWO_16 && a % TWO_16 == b % TWO_16
    ensures a == b
  {
    if a < b { NearbyDiffer(a, b, TWO_16); }
  }

  // ---------------------------------------------------------------- for which sizes a ring is a queue

  datatype Op = Put(x: nat) | Get

  /** A ring of any size, and everything it has delivered. */
  datatype AnyRing = AnyRing(slots: seq<nat>, head: nat, tail: nat, out: seq<nat>) {
    function Next(op: Op): AnyRing
      requires slots != []
    {
      match op
      case Put(x) => AnyRing(slots[head % |slots| := x], (head + 1) % TWO_16, tail, out)
      case Get => if head == tail then this else AnyRing(slots, head, (tail + 1) % TWO_16, out + [slots[tail % |slots|]])
    }
  }

  function RunRing(num: nat, ops: seq<Op>): (r: AnyRing)
    requires num > 0
    ensures |r.slots| == num
  {
    if ops == [] then AnyRing(seq(num, i => 0), 0, 0, []) else RunRing(num, ops[..|ops| - 1]).Next(ops[|ops| - 1])
  }

  /** A plain queue: everything put in, and how much of it has been taken out. */
  datatype Plain = Plain(produced: seq<nat>, consumed: nat) {
    function Next(op: Op): Plain {
      match op
      case Put(x) => Plain(produced + [x], consumed)
      case Get => if consumed < |produced| then Plain(produced, consumed + 1) else this
    }
  }

  function RunPlain(ops: seq<Op>): (q: Plain)
    ensures q.consumed <= |q.produced|
  {
    if ops == [] then Plain([], 0) else RunPlain(ops[..|ops| - 1]).Next(ops[|ops| - 1])
  }

  /** At no time are more than `num` elements outstanding. */
  ghost predicate Legal(num: nat, ops: seq<Op>) {
    ops == [] || (Legal(num, ops[..|ops| - 1]) && |RunPlain(ops).produced| - RunPlain(ops).consumed <= num)
  }

  ghost predicate DeliversAlike(num: nat, ops: seq<Op>)
    requires num > 0
  {
    RunRing(num, ops).out == RunPlain(ops).produced[..RunPlain(ops).consumed]
  }

  ghost predicate Simulates(num: nat, r: AnyRing, q: Plain)
    requires num > 0 && q.consumed <= |q.produced|
  {
    && |r.slots| == num && |q.produced| - q.consumed <= num
    && r.head == |q.produced| % TWO_16 && r.tail == q.consumed % TWO_16 && r.out == q.produced[..q.consumed]
    && forall i | q.consumed <= i < |q.produced| :: Slot(i, num) < num && r.slots[Slot(i, num)] == q.produced[i]
  }

  lemma StepSimulates(num: nat, r: AnyRing, q: Plain, op: Op)
    requires 0 < num < TWO_16 && TWO_16 % num == 0 && q.consumed <= |q.produced| && Simulates(num, r, q)
    requires |q.Next(op).produced| - q.Next(op).consumed <= num
    ensures Simulates(num, r.Next(op), q.Next(op))
  {
    NextIndex(|q.produced|);
    NextIndex(q.consumed);
    match op {
      case Put(x) =>
        assert r.head % num == Slot(|q.produced|, num);
        forall i | q.consumed <= i < |q.produced| ensures Slot(i, num) != Slot(|q.produced|, num) { SlotsSeparateIff(num); }
      case Get =>
        assert r.tail % num == Slot(q.consumed, num);
        if r.head == r.tail { WrapIsFaithful(q.consumed, |q.produced|); }
    }
  }

  lemma {:induction false} RunSimulates(num: nat, ops: seq<Op>)
    requires 0 < num < TWO_16 && TWO_16 % num == 0 && Legal(num, ops)
    ensures Simulates(num, RunRing(num, ops), RunPlain(ops))
    decreases |ops|
  {
    if ops != [] {
      hide Simulates, AnyRing.Next, Plain.Next;
      RunSimulates(num, ops[..|ops| - 1]);
      StepSimulates(num, RunRing(num, ops[..|ops| - 1]), RunPlain(ops[..|ops| - 1]), ops[|ops| - 1]);
    }
  }

  /** `n` elements pass through, one at a time. */
  ghost function Passing(n: nat): seq<Op> { if n == 0 then [] else Passing(n - 1) + [Put(0)] + [Get] }

  /** Then `m` are put in, a one and then twos. */
  ghost function Filling(n: nat, m: nat): seq<Op> {
    if m == 0 then Passing(n) else Filling(n, m - 1) + [Put(if m == 1 then 1 else 2)]
  }

  lemma RunAppend(num: nat, ops: seq<Op>, op: Op)
    requires num > 0
    ensures RunRing(num, ops + [op]) == RunRing(num, ops).Next(op) && RunPlain(ops + [op]) == RunPlain(ops).Next(op)
    ensures Legal(num, ops + [op]) <==>
      Legal(num, ops) && |RunPlain(ops).Next(op).produced| - RunPlain(ops).Next(op).consumed <= num
  {
    hide AnyRing.Next, Plain.Next;
    assert (ops + [op])[..|ops|] == ops;
  }

  lemma RunNothing(num: nat)
    requires num > 0
    ensures RunRing(num, []).head == 0 == RunRing(num, []).tail && RunPlain([]) == Plain([], 0) && Legal(num, [])
  {
  }

  /** One element goes through a ring that is empty before the index wraps. */
  lemma PassOne(num: nat, ops: seq<Op>, n: nat)
    requires num > 0 && n + 1 < TWO_16 && Legal(num, ops)
    requires RunRing(num, ops).head == n == RunRing(num, ops).tail && |RunPlain(ops).produced| == n == RunPlain(ops).consumed
    ensures var all := ops + [Put(0)] + [Get];
      && RunRing(num, all).head == n + 1 == RunRing(num, all).tail
      && |RunPlain(all).produced| == n + 1 == RunPlain(all).consumed && Legal(num, all)
  {
    hide RunRing, RunPlain, Legal;
    RunAppend(num, ops, Put(0));
    RunAppend(num, ops + [Put(0)], Get);
  }

  lemma {:induction false} PassingRuns(num: nat, n: nat)
    requires num > 0 && n < TWO_16
    ensures var r, q := RunRing(num, Passing(n)), RunPlain(Passing(n));
      r.head == n == r.tail && |q.produced| == n == q.consumed && Legal(num, Passing(n))
  {
    hide RunRing, RunPlain, Legal;
    if n == 0 {
      RunNothing(num);
    } else {
      PassingRuns(num, n - 1);
      PassOne(num, Passing(n - 1), n - 1);
    }
  }

  /** What the run shows after `m` elements have been put in. */
  ghost predicate Filled(num: nat, n: nat, m: nat, r: AnyRing, q: Plain)
    requires num > 0
  {
    && |r.slots| == num && r.head == (n + m) % TWO_16 && r.tail == n && |q.produced| == n + m && q.consumed == n
    && (m > 0 ==> q.produced[n] == 1)
    && (m > 1 ==> r.slots[(n + m - 1) % TWO_16 % num] == 2)
  }

  lemma FillOne(num: nat, n: nat, m: nat, r: AnyRing, q: Plain)
    requires num > 0 && Filled(num, n, m, r, q)
    ensures var op := Put(if m == 0 then 1 else 2); Filled(num, n, m + 1, r.Next(op), q.Next(op))
  {
    NextIndex(n + m);
  }

  lemma FilledNone(num: nat, n: nat, r: AnyRing, q: Plain)
    requires 0 < num == |r.slots| && n < TWO_16 && r.head == n == r.tail && |q.produced| == n == q.consumed
    ensures Filled(num, n, 0, r, q)
  {
  }

  lemma FilledCounts(num: nat, n: nat, m: nat, r: AnyRing, q: Plain)
    requires 0 < num && Filled(num, n, m, r, q)
    ensures |q.produced| == n + m && q.consumed == n
  {
  }

  lemma {:induction false} FillingRuns(num: nat, n: nat, m: nat)
    requires 0 < n < TWO_16 && m <= num < TWO_16 && 0 < num
    ensures Filled(num, n, m, RunRing(num, Filling(n, m)), RunPlain(Filling(n, m))) && Legal(num, Filling(n, m))
  {
    hide RunRing, RunPlain, Legal, AnyRing.Next, Filled;
    if m == 0 {
      PassingRuns(num, n);
      FilledNone(num, n, RunRing(num, Passing(n)), RunPlain(Passing(n)));
    } else {
      FillingRuns(num, n, m - 1);
      FillOne(num, n, m - 1, RunRing(num, Filling(n, m - 1)), RunPlain(Filling(n, m - 1)));
      FilledCounts(num, n, m - 1, RunRing(num, Filling(n, m - 1)), RunPlain(Filling(n, m - 1)));
      RunAppend(num, Filling(n, m - 1), Put(if m == 1 then 1 else 2));
    }
  }

  /** For a size that does not divide 2^16: fill the ring across the index wrap, and the element written
      after it is delivered for the oldest one. */
  lemma WrongElement(num: nat) returns (ops: seq<Op>)
    requires 0 < num < TWO_16 && TWO_16 % num != 0
    ensures Legal(num, ops) && !DeliversAlike(num, ops)
  {
    hide RunRing, RunPlain, Legal, Filling, Filled, AnyRing.Next, Plain.Next;
    var n, g := WrapPoint(num);
    FillingRuns(num, n, g + 1);
    RunAppend(num, Filling(n, g + 1), Get);
    ops := Filling(n, g + 1) + [Get];
    var r, q := RunRing(num, Filling(n, g + 1)), RunPlain(Filling(n, g + 1));
    FilledCounts(num, n, g + 1, r, q);
    GetAcrossWrap(num, n, g, r, q);
    OutputsDiffer(r.out, q.produced, n);
  }

  lemma OutputsDiffer(out: seq<nat>, produced: seq<nat>, n: nat)
    requires n < |produced| && produced[n] == 1
    ensures out + [2] != produced[..n + 1]
  {
    if |out| == n { assert (out + [2])[n] == 2 && produced[..n + 1][n] == 1; }
  }

  lemma GetAcrossWrap(num: nat, n: nat, g: nat, r: AnyRing, q: Plain)
    requires 0 < num && 0 < g && 1 < n && n + g == TWO_16 && n % num == 0 && Filled(num, n, g + 1, r, q)
    ensures r.Next(Get).out == r.out + [2]
    ensures q.Next(Get) == Plain(q.produced, n + 1) && n < |q.produced| && q.produced[n] == 1
  {
  }

  /** The last multiple of the size before the index wraps. */
  lemma WrapPoint(num: nat) returns (n: nat, g: nat)
    requires 0 < num < TWO_16 && TWO_16 % num != 0
    ensures n + g == TWO_16 && n % num == 0 && 0 < g < num && 1 < n < TWO_16
  {
    g := TWO_16 % num;
    n := TWO_16 - g;
    ghost var k := TWO_16 / num;
    assert n == num * k + 0;
    ModUnique(n, num, k, 0);
  }

  /** A ring of `num` slots delivers what a plain queue does, in every run with at most `num` elements
      outstanding, exactly when `num` divides 2^16. */
  lemma DeliversAlikeIff(num: nat)
    requires 0 < num < TWO_16
    ensures (forall ops | Legal(num, ops) :: DeliversAlike(num, ops)) <==> TWO_16 % num == 0
  {
    hide RunRing, RunPlain;
    if TWO_16 % num == 0 {
      forall ops | Legal(num, ops) ensures DeliversAlike(num, ops) { RunSimulates(num, ops); }
    } else {
      var ops := WrongElement(num);
    }
  }

  // ---------------------------------------------------------------- the queue pair

  /** The queue pair: the driver fills the available ring and drains the used ring, the device does the
      opposite. */
  class VirtQueue {
    const avail: Ring<nat>
    const used: Ring<UsedElem>

    ghost predicate Valid()
      reads this, avail, avail.slots, used, used.slots
    {
      avail.Valid() && used.Valid() && avail.slots != used.slots as object
    }

    constructor (num: nat)
      requires 0 < num < TWO_16 && TWO_16 % num == 0
      ensures Valid()
      ensures fresh(avail) && fresh(used) && fresh(avail.slots) && fresh(used.slots)
      ensures avail.num == num == used.num
      ensures avail.produced == [] && used.produced == [] && avail.consumed == 0 == used.consumed
    {
      avail := new Ring<nat>(num);
      used := new Ring<UsedElem>(num);
    }

    /** The driver offers a descriptor head. */
    method AvailAdd(headIdx: nat)
      requires Valid() && |avail.produced| - avail.consumed < avail.num
      modifies avail, avail.slots
      ensures Valid() && avail.slots == old(avail.slots)
      ensures avail.produced == old(avail.produced) + [headIdx] && avail.consumed == old(avail.consumed)
    {
      avail.Put(headIdx);
    }

    /** The device takes the oldest head not yet taken. */
    method DeviceTake() returns (r: Option<nat>)
      requires Valid()
      modifies avail
      ensures Valid() && avail.slots == old(avail.slots) && avail.produced == old(avail.produced)
      ensures if old(avail.consumed) == |avail.produced| then r.None? && avail.consumed == old(avail.consumed)
        else r == Some(avail.produced[old(avail.consumed)]) && avail.consumed == old(avail.consumed) + 1
    {
      r := avail.Get();
    }

    /** The device returns a buffer. */
    method DeviceReturn(e: UsedElem)
      requires Valid() && |used.produced| - used.consumed < used.num
      modifies used, used.slots
      ensures Valid() && used.slots == old(used.slots)
      ensures used.produced == old(used.produced) + [e] && used.consumed == old(used.consumed)
    {
      used.Put(e);
    }

    /** The driver takes the oldest returned buffer not yet taken. */
    method GetUsedBuf() returns (r: Option<UsedElem>)
      requires Valid()
      modifies used
      ensures Valid() && used.slots == old(used.slots) && used.produced == old(used.produced)
      ensures if old(used.consumed) == |used.produced| then r.None? && used.consumed == old(used.consumed)
        else r == Some(used.produced[old(used.consumed)]) && used.consumed == old(used.consumed) + 1
    {
      r := used.Get();
    }
  }

  // ---------------------------------------------------------------- every interleaving

  /** What either side may do next. */
  datatype Event = Offer(head: nat) | Take | Return(elem: UsedElem) | Collect

  /** Two plain queues, and what has come out of each. */
  datatype Queues = Queues(avail: seq<nat>, used: seq<UsedElem>, taken: seq<nat>, collected: seq<UsedElem>) {
    /** A side that would have more than `num` elements outstanding waits instead. */
    function Step(e: Event, num: nat): Queues {
      match e
      case Offer(h) => if |avail| < num then this.(avail := avail + [h]) else this
      case Take => if avail == [] then this else this.(avail := avail[1..], taken := taken + [avail[0]])
      case Return(x) => if |used| < num then this.(used := used + [x]) else this
      case Collect => if used == [] then this else this.(used := used[1..], collected := collected + [used[0]])
    }
  }

  function RunOf(events: seq<Event>, num: nat): Queues {
    if events == [] then Queues([], [], [], [])
    else RunOf(events[..|events| - 1], num).Step(events[|events| - 1], num)
  }

  /** Driving the two rings through any interleaving of driver and device steps, of any length, yields
      what two plain queues would: the wrapping indices never show. */
  method RunQueue(num: nat, events: seq<Event>) returns (taken: seq<nat>, collected: seq<UsedElem>)
    requires 0 < num < TWO_16 && TWO_16 % num == 0
    ensures taken == RunOf(events, num).taken && collected == RunOf(events, num).collected
  {
    var q := new VirtQueue(num);
    taken, collected := [], [];
    var pendingOffers, pendingReturns := 0, 0;
    for i := 0 to |events|
      invariant q.Valid() && fresh(q.avail) && fresh(q.used) && fresh(q.avail.slots) && fresh(q.used.slots)
      invariant q.avail.num == num == q.used.num
      invariant var s := RunOf(events[..i], num);
        && s.avail == q.avail.produced[q.avail.consumed..] && s.used == q.used.produced[q.used.consumed..]
        && s.taken == taken && s.collected == collected
        && pendingOffers == |s.avail| && pendingReturns == |s.used|
    {
      assert events[..i + 1][..i] == events[..i];
      match events[i] {
        case Offer(h) =>
          if pendingOffers < num {
            q.AvailAdd(h);
            pendingOffers := pendingOffers + 1;
          }
        case Take =>
          var r := q.DeviceTake();
          if r.Some? {
            taken, pendingOffers := taken + [r.value], pendingOffers - 1;
          }
        case Return(x) =>
          if pendingReturns < num {
            q.DeviceReturn(x);
            pendingReturns := pendingReturns + 1;
          }
        case Collect =>
          var r := q.GetUsedBuf();
          if r.Some? {
            collected, pendingReturns := collected + [r.value], pendingReturns - 1;
          }
      }
    }
    assert events[..|events|] == events;
  }

  // ---------------------------------------------------------------- where the three areas lie

  /** Offsets of the available and used areas and the pages allocated, as computed for a modern queue. */
  datatype Layout = Layout(availOff: nat, usedOff: nat, pages: nat)

  function AvailBytes(num: nat): nat { 2 * 2 + 2 * num }
  function UsedBytes(num: nat): nat { 2 * 2 + 8 * num }

  /** `(v + 1) & !1`. */
  function AlignUp2(v: nat): (r: nat)
    ensures v <= r <= v + 1 && r % 2 == 0
  {
    (v + 1) / 2 * 2
  }

  /** `(v + 7) & !7`. */
  function AlignUp8(v: nat): (r: nat)
    ensures v <= r <= v + 7 && r % 8 == 0
  {
    (v + 7) / 8 * 8
  }

  /** `(v + 0xFFF) >> 12`. */
  function PagesFor(v: nat): (r: nat)
    ensures v <= 0x1000 * r < v + 0x1000
  {
    (v + 0xFFF) / 0x1000
  }

  function ModernLayout(num: nat): Layout {
    var availOff := AlignUp2(16 * num);
    var usedOff := AlignUp8(availOff + AvailBytes(num));
    Layout(availOff, usedOff, PagesFor(usedOff + UsedBytes(num)))
  }

  lemma AlignedInPage(page: nat, off: nat)
    ensures (0x1000 * page) % 16 == 0
    ensures off % 2 == 0 ==> (0x1000 * page + off) % 2 == 0
    ensures off % 8 == 0 ==> (0x1000 * page + off) % 4 == 0
  {
    ModUnique(0x1000 * page, 16, 256 * page, 0);
    if off % 2 == 0 { ModUnique(0x1000 * page + off, 2, 2048 * page + off / 2, 0); }
    if off % 8 == 0 { ModUnique(0x1000 * page + off, 4, 1024 * page + 2 * (off / 8), 0); }
  }

  /** From a page-aligned base the three areas are aligned, and every descriptor, available entry (two
      bytes each after four) and used entry (eight bytes each after four) lies before the next area or
      the end; nothing is larger than alignment and whole pages require. */
  lemma ModernLayoutSound(num: nat, page: nat)
    ensures var l, base := ModernLayout(num), 0x1000 * page;
      && base % 16 == 0 && (base + l.availOff) % 2 == 0 && (base + l.usedOff) % 4 == 0
      && (forall i | 0 <= i < num :: base + 16 * i + 16 <= base + l.availOff)
      && l.availOff + 4 <= l.usedOff && (forall i | 0 <= i < num :: l.availOff + 4 + 2 * i + 2 <= l.usedOff)
      && l.usedOff + 4 <= 0x1000 * l.pages && (forall i | 0 <= i < num :: l.usedOff + 4 + 8 * i + 8 <= 0x1000 * l.pages)
      && l.availOff <= 16 * num + 1 && l.usedOff <= l.availOff + 4 + 2 * num + 7 && 0x1000 * l.pages < l.usedOff + 4 + 8 * num + 0x1000
  {
    hide AlignUp2;
    hide AlignUp8;
    hide PagesFor;
    AlignedInPage(page, ModernLayout(num).availOff);
    AlignedInPage(page, ModernLayout(num).usedOff);
  }
}
