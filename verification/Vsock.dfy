/** The descriptor supply of the vsock device: descriptors are handed out along the free chain and never
    given back, so every queue has a fixed number of sends or receives in it. */
module Vsock {
  import opened Bytes

  // ---------------------------------------------------------------- the free chain by itself

  function InitialNext(i: nat, num: nat): nat { if i + 1 < num then i + 1 else 0 }

  /** What an allocation finds at the head of an untouched chain. */
  function HeadOf(num: nat, free: nat): Option<nat> {
    if InitialNext(free, num) == 0 && free != 0 then None else Some(free)
  }

  /** The free pointer after `k` attempts. */
  ghost function FreeAfter(num: nat, k: nat): nat {
    if k == 0 then 0
    else
      var f := FreeAfter(num, k - 1);
      if HeadOf(num, f).None? then f else InitialNext(f, num)
  }

  ghost function Attempt(num: nat, k: nat): Option<nat> { HeadOf(num, FreeAfter(num, k)) }

  lemma {:induction false} AttemptsInOrder(num: nat, k: nat)
    requires num >= 2
    ensures FreeAfter(num, k) == if k < num - 1 then k else num - 1
  {
    if k > 0 { AttemptsInOrder(num, k - 1); }
  }

  /** No descriptor is handed out twice exactly when the queue has at least two: a queue of one hands
      out its only descriptor for ever. */
  lemma NeverTwiceIff(num: nat)
    requires num > 0
    ensures (forall i: nat, j: nat | i < j && Attempt(num, i).Some? :: Attempt(num, j) != Attempt(num, i)) <==> num >= 2
  {
    if num >= 2 {
      forall i: nat, j: nat | i < j && Attempt(num, i).Some? ensures Attempt(num, j) != Attempt(num, i) {
        AttemptsInOrder(num, i);
        AttemptsInOrder(num, j);
      }
    } else {
      assert FreeAfter(num, 1) == 0;
      assert Attempt(num, 0) == Some(0) == Attempt(num, 1);
    }
  }

  // ---------------------------------------------------------------- one queue

  class VsockVirtQueue {
    const num: nat
    /** The `next` fields of the descriptor table. */
    var next: array<nat>
    var freeDesc: nat
    var ring: array<nat>
    var availIdx: nat
    /** Every descriptor ever handed out and every head ever published, in order. */
    ghost var handedOut: seq<nat>
    ghost var published: seq<nat>

    ghost predicate Valid()
      reads this, next, ring
    {
      && 2 <= num < TWO_16 && next.Length == num == ring.Length && next != ring
      && freeDesc == |handedOut| < num
      && (forall i | 0 <= i < |handedOut| :: handedOut[i] == i)
      && (forall i | freeDesc <= i < num :: next[i] == InitialNext(i, num))
      && |published| <= |handedOut| && availIdx == |published|
      && (forall i | 0 <= i < |published| :: published[i] < freeDesc)
      && (forall i, j | 0 <= i < j < |published| :: published[i] < published[j])
      && (forall i | 0 <= i < |published| :: ring[i] == published[i])
    }

    constructor (num: nat)
      requires 2 <= num < TWO_16
      ensures Valid() && this.num == num && handedOut == [] && published == []
      ensures fresh(next) && fresh(ring)
    {
      this.num := num;
      var table := new nat[num];
      for i := 0 to num
        invariant forall j | 0 <= j < i :: table[j] == InitialNext(j, num)
      {
        table[i] := if i + 1 < num then i + 1 else 0;
      }
      next := table;
      ring := new nat[num];
      freeDesc, availIdx, handedOut, published := 0, 0, [], [];
    }

    /** A descriptor never handed out before, until `num - 1` of them are gone. */
    method AllocDescHead() returns (r: Option<nat>)
      requires Valid()
      modifies this`freeDesc, this`handedOut
      ensures Valid()
      ensures r.None? <==> |old(handedOut)| == num - 1
      ensures r.None? ==> handedOut == old(handedOut)
      ensures r.Some? ==> r.value == |old(handedOut)| && r.value !in old(handedOut) && handedOut == old(handedOut) + [r.value]
      ensures r.Some? ==> |published| < |handedOut| && forall i | 0 <= i < |published| :: published[i] < r.value
    {
      var head := freeDesc;
      if next[head] == 0 && head != 0 { return None; }
      freeDesc := next[head];
      handedOut := handedOut + [head];
      r := Some(head);
    }

    /** Filling in a handed-out descriptor writes its link and touches no free one. */
    method SetupDesc(idx: nat, link: nat)
      requires Valid() && idx in handedOut
      modifies next
      ensures Valid() && next[idx] == link
      ensures forall i | 0 <= i < next.Length && i != idx :: next[i] == old(next[i])
    {
      next[idx] := link;
    }

    /** Publish a head younger than all published ones; the slot written held nothing. */
    method AvailAdd(head: nat)
      requires Valid() && head in handedOut && (forall i | 0 <= i < |published| :: published[i] < head)
      requires |published| < |handedOut|
      modifies this`availIdx, this`published, ring
      ensures Valid() && published == old(published) + [head]
    {
      SmallMod(availIdx, num);
      var slot := availIdx % num;
      ring[slot] := head;
      availIdx := (availIdx + 1) % TWO_16;
      published := published + [head];
    }
  }

  lemma SmallMod(x: nat, m: nat)
    requires x < m
    ensures x % m == x
  {
  }

  // ---------------------------------------------------------------- the device

  const VSOCK_OP_RESPONSE := 2
  const VSOCK_OP_RST := 3
  const VSOCK_OP_SHUTDOWN := 4
  const VSOCK_OP_RW := 5
  const TX_BUF_SIZE := 4096
  /** 44 bytes of fields, padded to the alignment of the 64-bit ones. */
  const HDR_LEN := 48

  /** What the peer does during one call: whether it consumed what was sent, and the operation in the
      packet it delivered, if any. */
  datatype Peer = Peer(consumed: bool, delivered: Option<nat>)

  datatype Call = Connect(peer: Peer) | Send(len: nat, peer: Peer) | Recv(peer: Peer)

  class VsockDevice {
    const rx: VsockVirtQueue
    const tx: VsockVirtQueue
    var rxDescIdx: nat
    var connected: bool

    ghost predicate Valid()
      reads this, rx, tx, rx.next, rx.ring, tx.next, tx.ring
    {
      && rx.Valid() && tx.Valid() && rx != tx && rxDescIdx == 0
      && rx.next != tx.next && rx.next != tx.ring && rx.ring != tx.next && rx.ring != tx.ring
    }

    ghost function Repr(): set<object>
      reads this, rx, tx
    {
      {this, rx, tx, rx.next, rx.ring, tx.next, tx.ring}
    }

    constructor (queueSize: nat)
      requires 2 <= queueSize < TWO_16
      ensures Valid() && fresh(rx) && fresh(tx) && fresh(Repr())
      ensures rx.num == queueSize == tx.num && rx.handedOut == [] && tx.handedOut == []
    {
      rx := new VsockVirtQueue(queueSize);
      tx := new VsockVirtQueue(queueSize);
      rxDescIdx, connected := 0, false;
    }

    method SubmitRxBuf()
      requires Valid()
      modifies this`rxDescIdx, rx, rx.next, rx.ring
      ensures Valid() && rx.next == old(rx.next) && rx.ring == old(rx.ring)
      ensures Grew(rx) && Added(rx, if |old(rx.handedOut)| < rx.num - 1 then 1 else 0)
    {
      hide VsockVirtQueue.Valid;
      if rxDescIdx == 0 {
        var h := rx.AllocDescHead();
        if h.None? { return; }
        rxDescIdx := h.value;
      }
      var idx := rxDescIdx;
      rx.SetupDesc(idx, 0);
      rxDescIdx := 0;
      rx.AvailAdd(idx);
    }

    /** Connecting takes one transmit descriptor and, as far as there are any, one for receiving, or two
        once the peer has consumed the request. */
    method Connect(peer: Peer) returns (ok: bool)
      requires Valid()
      modifies Repr()
      ensures Valid() && Repr() == old(Repr())
      ensures Grew(rx) && Grew(tx)
      ensures var left := |old(tx.handedOut)| < tx.num - 1;
        && Added(tx, if left then 1 else 0)
        && (ok <==> left && peer == Peer(true, Some(2)))
        && connected == (old(connected) || ok)
        && Added(rx, Min(if left && peer.consumed then 2 else 1, rx.num - 1 - |old(rx.handedOut)|))
    {
      hide VsockVirtQueue.Valid;
      SubmitRxBuf();
      var d0 := tx.AllocDescHead();
      if d0.None? { return false; }
      tx.SetupDesc(d0.value, 0);
      tx.AvailAdd(d0.value);
      if !peer.consumed { return false; }
      SubmitRxBuf();
      if peer.delivered == Some(VSOCK_OP_RESPONSE) {
        connected := true;
        return true;
      }
      ok := false;
    }

    /** A packet goes out as a chain of two fresh descriptors, header then payload, or not at all. */
    method Send(len: nat, peer: Peer) returns (ok: bool)
      requires Valid()
      modifies tx, tx.next, tx.ring
      ensures Valid() && Repr() == old(Repr())
      ensures Grew(rx) && Grew(tx)
      ensures var a := |old(tx.handedOut)|;
        if connected && 0 < len <= 4048 && a + 2 < tx.num then
          && tx.published == old(tx.published) + [a] && tx.handedOut == old(tx.handedOut) + [a, a + 1]
          && tx.next[a] == a + 1 && tx.next[a + 1] == 0 && ok == peer.consumed
        else !ok && tx.published == old(tx.published)
    {
      hide VsockVirtQueue.Valid;
      if !connected || len == 0 { return false; }
      if len > TX_BUF_SIZE - HDR_LEN { return false; }
      var d0 := tx.AllocDescHead();
      if d0.None? { return false; }
      var d1 := tx.AllocDescHead();
      if d1.None? { return false; }
      tx.SetupDesc(d0.value, d1.value);
      tx.SetupDesc(d1.value, 0);
      tx.AvailAdd(d0.value);
      ok := peer.consumed;
    }

    /** Receiving takes one descriptor while there are any, and notices when the peer hangs up. */
    method Recv(peer: Peer) returns (payload: bool)
      requires Valid()
      modifies this, rx, rx.next, rx.ring
      ensures Valid() && Repr() == old(Repr())
      ensures Grew(rx) && Grew(tx)
      ensures Added(rx, if old(connected) && |old(rx.handedOut)| < rx.num - 1 then 1 else 0)
      ensures payload <==> old(connected) && peer.delivered == Some(5)
      ensures connected <==> old(connected) && peer.delivered != Some(4) && peer.delivered != Some(3)
    {
      if !connected { return false; }
      SubmitRxBuf();
      if peer.delivered.None? { return false; }
      if peer.delivered.value == VSOCK_OP_RW { return true; }
      if peer.delivered.value == VSOCK_OP_SHUTDOWN || peer.delivered.value == VSOCK_OP_RST {
        connected := false;
      }
      payload := false;
    }
  }

  /** A queue only ever extends what it has handed out and published, and stands still once it has run
      out of descriptors. */
  twostate predicate Grew(q: VsockVirtQueue)
    reads q
  {
    && old(q.handedOut) <= q.handedOut && old(q.published) <= q.published
    && (|old(q.handedOut)| == q.num - 1 ==> q.handedOut == old(q.handedOut) && q.published == old(q.published))
  }

  /** Exactly `n` descriptors, the next ones of the chain, were handed out and published. */
  twostate predicate Added(q: VsockVirtQueue, n: nat)
    reads q
  {
    && |q.handedOut| == |old(q.handedOut)| + n && |q.published| == |old(q.published)| + n
    && old(q.published) <= q.published
    && forall i | |old(q.published)| <= i < |q.published| :: q.published[i] == |old(q.handedOut)| + i - |old(q.published)|
  }

  /** Over any run of calls against any peer: no descriptor is handed out twice, each queue makes at
      most `num - 1` allocations, and every published head is still in the slot it was written to. */
  method Run(dev: VsockDevice, calls: seq<Call>)
    requires dev.Valid()
    modifies dev.Repr()
    ensures dev.Valid() && Grew(dev.rx) && Grew(dev.tx)
    ensures Sound(dev.rx) && Sound(dev.tx)
  {
    for i := 0 to |calls|
      invariant dev.Valid() && dev.Repr() == old(dev.Repr()) && Grew(dev.rx) && Grew(dev.tx)
    {
      match calls[i] {
        case Connect(peer) => var _ := dev.Connect(peer);
        case Send(len, peer) => var _ := dev.Send(len, peer);
        case Recv(peer) => var _ := dev.Recv(peer);
      }
    }
    ValidIsSound(dev.rx);
    ValidIsSound(dev.tx);
  }

  ghost predicate Sound(q: VsockVirtQueue)
    reads q, q.ring
  {
    && |q.handedOut| <= q.num - 1
    && (forall i, j | 0 <= i < j < |q.handedOut| :: q.handedOut[i] != q.handedOut[j])
    && |q.published| <= q.ring.Length
    && forall i | 0 <= i < |q.published| :: q.published[i] in q.handedOut && q.ring[i] == q.published[i]
  }

  lemma ValidIsSound(q: VsockVirtQueue)
    requires q.Valid()
    ensures Sound(q)
  {
    forall i | 0 <= i < |q.published| ensures q.published[i] in q.handedOut {
      assert q.handedOut[q.published[i]] == q.published[i];
    }
  }
}
