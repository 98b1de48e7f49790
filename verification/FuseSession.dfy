/** The FUSE session: requests from the kernel are filtered, refused outside the session's active phase,
    or handed to the file system together with a one-shot reply object, which the file system may use
    at once, drop, lose in a panic, or keep and use later on another thread.

    A run is a sequence of events; the sequence decides what the kernel asks, what the file system does
    with each reply object, and how the uses of kept objects interleave with later requests. */
module FuseSession {
  import opened Bytes

  datatype Op =
    | Init(major: nat, minor: nat) | Destroy | Forget | BatchForget
    | Interrupt | NotifyReply | CuseInit | IoCtl(unrestricted: bool)
    | Lookup | GetAttr | SetAttr | ReadLink | MkNod | MkDir | Unlink | RmDir | SymLink | Rename | Link
    | Open | Read | Write | Flush | Release | FSync | OpenDir | ReadDir | ReleaseDir | FSyncDir | StatFs
    | SetXAttr | GetXAttr | ListXAttr | RemoveXAttr | Access | Create | GetLk | SetLk | SetLkW | BMap | Poll

  /** `op` is None when opcode or arguments cannot be decoded. */
  datatype Request = Request(unique: nat, uid: nat, op: Option<Op>)

  const EIO := 5
  const EACCES := 13
  const ENOSYS := 38
  const EPROTO := 71

  datatype Response = Data(content: nat) | Errno(code: int)

  /** What happens to a reply object; `error` with code 0 panics inside the reply. */
  datatype Use = Answer(r: Response) | Fail(err: int) | Drop

  /** What the file system does with a request: use the reply object now, or keep it; then return or
      panic.  `initError` is the error that `init` returns, if any. */
  datatype Behaviour = Behaviour(now: Option<Use>, panics: bool, initError: Option<int>)

  datatype Acl = All | RootAndOwner | Owner

  datatype Sent = Sent(unique: nat, response: Response)

  /** The file system's methods, as called. */
  datatype FsCall = InitDone | InitFailed | DestroyDone | Method(r: Request)

  datatype Event =
    | Receive(r: Request, b: Behaviour)
    | Later(i: nat, use: Use)
    | End

  // ---------------------------------------------------------------- the rules

  predicate IsForget(op: Option<Op>) { op.Some? && (op.value.Forget? || op.value.BatchForget?) }

  /** Operations the kernel may issue without a user id set. */
  predicate Anonymous(op: Op) {
    op.Init? || op.Destroy? || op.Read? || op.ReadDir? || op.BatchForget? || op.Forget? || op.Write?
    || op.FSync? || op.FSyncDir? || op.Release? || op.ReleaseDir?
  }

  predicate MayAsk(acl: Acl, owner: nat, uid: nat) {
    match acl
    case All => true
    case RootAndOwner => uid == owner || uid == 0
    case Owner => uid == owner
  }

  predicate Unsupported(op: Op) {
    op.Interrupt? || op.NotifyReply? || op.CuseInit? || (op.IoCtl? && op.unrestricted)
  }

  /** What the kernel is told when a reply object is used up. */
  function Completed(u: Use): Response {
    match u
    case Answer(r) => r
    case Fail(err) => if err == 0 then Errno(EIO) else Errno(err)
    case Drop => Errno(EIO)
  }

  predicate UsePanics(u: Use) { u.Fail? && u.err == 0 }

  function FromI32(err: int): int { if err == 0 then EIO else err }

  // ---------------------------------------------------------------- the state machine

  datatype State = State(
    acl: Acl, owner: nat, initialized: bool, destroyed: bool, ended: bool,
    calls: seq<FsCall>, sent: seq<Sent>, pending: seq<nat>)
  {
    function Reply(unique: nat, r: Response): State { this.(sent := sent + [Sent(unique, r)]) }

    function Dropped(): State {
      if destroyed then this.(ended := true)
      else this.(ended := true, destroyed := true, calls := calls + [DestroyDone])
    }

    /** The file system method runs with a new reply object. */
    function Ask(r: Request, b: Behaviour): State {
      var asked := this.(calls := calls + [Method(r)]);
      var used := if b.now.None? then asked.(pending := asked.pending + [r.unique])
                  else asked.Reply(r.unique, Completed(b.now.value));
      if b.panics || (b.now.Some? && UsePanics(b.now.value)) then used.Dropped() else used
    }

    function Dispatched(r: Request, b: Behaviour): State {
      if r.op.None? then Reply(r.unique, Errno(ENOSYS))
      else
        var op := r.op.value;
        if !MayAsk(acl, owner, r.uid) && !Anonymous(op) then Reply(r.unique, Errno(EACCES))
        else if op.Init? then
          if op.major < 7 || (op.major == 7 && op.minor < 6) then Reply(r.unique, Errno(EPROTO))
          else if b.initError.Some? then
            this.(calls := calls + [InitFailed]).Reply(r.unique, Errno(FromI32(b.initError.value)))
          else this.(calls := calls + [InitDone], initialized := true).Reply(r.unique, Data(0))
        else if !initialized then Reply(r.unique, Errno(EIO))
        else if op.Destroy? then this.(calls := calls + [DestroyDone], destroyed := true).Reply(r.unique, Data(0))
        else if destroyed then Reply(r.unique, Errno(EIO))
        else if Unsupported(op) then Reply(r.unique, Errno(ENOSYS))
        else if IsForget(r.op) then this.(calls := calls + [Method(r)])
        else Ask(r, b)
    }

    function Next(e: Event): State {
      match e
      case Receive(r, b) => if ended then this else Dispatched(r, b)
      case Later(i, use) =>
        if i >= |pending| then this
        else this.(pending := pending[..i] + pending[i + 1..]).Reply(pending[i], Completed(use))
      case End => if ended then this else Dropped()
    }
  }

  function Start(acl: Acl, owner: nat): State { State(acl, owner, false, false, false, [], [], []) }

  function Run(s: State, events: seq<Event>): State {
    if events == [] then s else Run(s, events[..|events| - 1]).Next(events[|events| - 1])
  }

  // ---------------------------------------------------------------- the objects

  /** The way back to the kernel, shared by the session and all reply objects. */
  class Channel {
    var sent: seq<Sent>
    constructor () ensures sent == [] { sent := []; }
  }

  class ReplyRaw {
    const unique: nat
    const ch: Channel
    /** Whether the sender is still there to be taken. */
    var sender: bool

    constructor (unique: nat, ch: Channel)
      ensures this.unique == unique && this.ch == ch && sender
    {
      this.unique, this.ch, sender := unique, ch, true;
    }

    method SendLlMut(response: Response)
      requires sender
      modifies this`sender, ch`sent
      ensures !sender && ch.sent == old(ch.sent) + [Sent(unique, response)]
    {
      sender := false;
      ch.sent := ch.sent + [Sent(unique, response)];
    }

    /** The destructor. */
    method Destruct()
      modifies this`sender, ch`sent
      ensures !sender
      ensures ch.sent == old(ch.sent) + if old(sender) then [Sent(unique, Errno(EIO))] else []
    {
      if sender { SendLlMut(Errno(EIO)); }
    }

    /** A by-value use of the object, which ends its life: whatever the use, the kernel gets exactly
        one reply for it. */
    method Consume(u: Use) returns (panicked: bool)
      requires sender
      modifies this`sender, ch`sent
      ensures !sender && ch.sent == old(ch.sent) + [Sent(unique, Completed(u))]
      ensures panicked == UsePanics(u)
    {
      panicked := false;
      match u {
        case Answer(r) => SendLlMut(r);
        case Fail(err) => if err == 0 { panicked := true; } else { SendLlMut(Errno(err)); }
        case Drop =>
      }
      Destruct();
    }
  }

  class Session {
    const allowed: Acl
    const sessionOwner: nat
    const ch: Channel
    var initialized: bool
    var destroyed: bool
    var ended: bool
    /** Calls made to the file system. */
    var calls: seq<FsCall>
    /** Reply objects the file system keeps. */
    var pending: seq<ReplyRaw>

    ghost predicate Valid() reads this, set o | o in pending {
      && (forall i | 0 <= i < |pending| :: pending[i].sender && pending[i].ch == ch)
      && (forall i, j | 0 <= i < j < |pending| :: pending[i] != pending[j])
    }

    ghost function Ids(objects: seq<ReplyRaw>): seq<nat> {
      seq(|objects|, i requires 0 <= i < |objects| => objects[i].unique)
    }

    ghost function View(): State reads this, ch {
      State(allowed, sessionOwner, initialized, destroyed, ended, calls, ch.sent, Ids(pending))
    }

    constructor (acl: Acl, owner: nat)
      ensures Valid() && View() == Start(acl, owner) && fresh(ch) && pending == []
    {
      allowed, sessionOwner := acl, owner;
      ch := new Channel();
      initialized, destroyed, ended, calls, pending := false, false, false, [], [];
    }

    method Respond(unique: nat, r: Response)
      requires Valid()
      modifies ch`sent
      ensures Valid() && View() == old(View()).Reply(unique, r)
    {
      ch.sent := ch.sent + [Sent(unique, r)];
    }

    /** Dropping the session. */
    method Destruct()
      requires Valid()
      modifies this`ended, this`destroyed, this`calls
      ensures Valid() && View() == old(View()).Dropped()
    {
      if !destroyed {
        calls := calls + [DestroyDone];
        destroyed := true;
      }
      ended := true;
    }

    method InitFs(initError: Option<int>) returns (res: Option<Response>)
      requires Valid()
      modifies this`calls, this`initialized
      ensures Valid()
      ensures initError.Some? ==>
        View() == old(View()).(calls := old(calls) + [InitFailed]) && res == Some(Errno(FromI32(initError.value)))
      ensures initError.None? ==>
        View() == old(View()).(calls := old(calls) + [InitDone], initialized := true) && res == Some(Data(0))
    {
      if initError.Some? {
        calls := calls + [InitFailed];
        return Some(Errno(FromI32(initError.value)));
      }
      calls := calls + [InitDone];
      initialized := true;
      res := Some(Data(0));
    }

    method DestroyFs()
      requires Valid()
      modifies this`calls, this`destroyed
      ensures Valid() && View() == old(View()).(calls := old(calls) + [DestroyDone], destroyed := true)
    {
      calls := calls + [DestroyDone];
      destroyed := true;
    }

    /** FORGET and BATCH_FORGET come without a reply object. */
    method CallForget(r: Request)
      requires Valid()
      modifies this`calls
      ensures Valid() && View() == old(View()).(calls := old(calls) + [Method(r)])
    {
      calls := calls + [Method(r)];
    }

    /** Call a file system method with a new reply object; a panic unwinds the session. */
    method Ask(r: Request, b: Behaviour)
      requires Valid()
      modifies this, ch`sent
      ensures Valid() && View() == old(View()).Ask(r, b)
      ensures forall o | o in pending :: o in old(pending) || fresh(o)
    {
      calls := calls + [Method(r)];
      var reply := new ReplyRaw(r.unique, ch);
      var panicked := b.panics;
      if b.now.None? {
        pending := pending + [reply];
        assert Ids(pending) == old(Ids(pending)) + [r.unique];
      } else {
        var p := reply.Consume(b.now.value);
        panicked := panicked || p;
      }
      if panicked { Destruct(); }
    }

    method DispatchReq(r: Request, b: Behaviour) returns (res: Option<Response>)
      requires Valid()
      modifies this, ch`sent
      ensures Valid()
      ensures (if res.Some? then View().Reply(r.unique, res.value) else View()) == old(View()).Dispatched(r, b)
      ensures forall o | o in pending :: o in old(pending) || fresh(o)
    {
      hide State.Ask, Anonymous, Unsupported, FromI32, Ids, IsForget, Valid;
      res := None;
      if r.op.None? { return Some(Errno(ENOSYS)); }
      var op := r.op.value;
      if (allowed == RootAndOwner && r.uid != sessionOwner && r.uid != 0) || (allowed == Owner && r.uid != sessionOwner) {
        if !Anonymous(op) { return Some(Errno(EACCES)); }
      }
      if op.Init? {
        if op.major < 7 || (op.major == 7 && op.minor < 6) { return Some(Errno(EPROTO)); }
        res := InitFs(b.initError);
      } else if !initialized {
        res := Some(Errno(EIO));
      } else if op.Destroy? {
        DestroyFs();
        res := Some(Data(0));
      } else if destroyed {
        res := Some(Errno(EIO));
      } else if Unsupported(op) {
        res := Some(Errno(ENOSYS));
      } else if IsForget(r.op) {
        CallForget(r);
      } else {
        Ask(r, b);
      }
    }

    method Dispatch(r: Request, b: Behaviour)
      requires Valid()
      modifies this, ch`sent
      ensures Valid() && View() == old(View()).Dispatched(r, b)
      ensures forall o | o in pending :: o in old(pending) || fresh(o)
    {
      hide State.Dispatched;
      var res := DispatchReq(r, b);
      if res.Some? { Respond(r.unique, res.value); }
    }

    /** Another thread uses up a reply object it was given. */
    method UseLater(i: nat, u: Use)
      requires Valid()
      modifies this`pending, ch`sent, set o | o in pending
      ensures Valid() && View() == old(View()).Next(Later(i, u))
      ensures forall o | o in pending :: o in old(pending)
    {
      if i < |pending| {
        var o := pending[i];
        pending := pending[..i] + pending[i + 1..];
        assert Ids(pending) == old(Ids(pending))[..i] + old(Ids(pending))[i + 1..];
        assert o !in pending;
        var _ := o.Consume(u);
      }
    }

    /** The receive loop with the other threads' uses in between, up to the end of the session and
        beyond: kept objects may outlive it. */
    method Serve(events: seq<Event>)
      requires Valid()
      modifies this, ch, set o | o in pending
      ensures Valid() && View() == Run(old(View()), events)
    {
      hide State.Next, State.Dispatched, State.Dropped;
      var n := 0;
      while n < |events|
        invariant n <= |events| && Valid() && View() == Run(old(View()), events[..n])
        invariant forall o | o in pending :: o in old(pending) || fresh(o)
      {
        assert events[..n + 1][..n] == events[..n];
        NextCases(View(), events[n]);
        match events[n] {
          case Receive(r, b) => if !ended { Dispatch(r, b); }
          case Later(i, u) => UseLater(i, u);
          case End => if !ended { Destruct(); }
        }
        n := n + 1;
      }
      assert events[..n] == events;
    }
  }

  lemma NextCases(s: State, e: Event)
    ensures e.Receive? ==> s.Next(e) == if s.ended then s else s.Dispatched(e.r, e.b)
    ensures e.End? ==> s.Next(e) == if s.ended then s else s.Dropped()
  {
  }

  // ---------------------------------------------------------------- one reply each

  /** The request is received, and it is not a FORGET that reaches the file system. */
  ghost predicate GetsReply(s: State, r: Request) {
    !s.ended && !(IsForget(r.op) && s.initialized && !s.destroyed)
  }

  ghost function Owing(s: State, e: Event): multiset<nat> {
    if e.Receive? && GetsReply(s, e.r) then multiset{e.r.unique} else multiset{}
  }

  /** The ids that are owed a reply in a run. */
  ghost function Owed(s: State, events: seq<Event>): multiset<nat> {
    if events == [] then multiset{}
    else
      var front := events[..|events| - 1];
      Owed(s, front) + Owing(Run(s, front), events[|events| - 1])
  }

  ghost function SentIds(sent: seq<Sent>): multiset<nat> {
    if sent == [] then multiset{} else SentIds(sent[..|sent| - 1]) + multiset{sent[|sent| - 1].unique}
  }

  /** Replies sent, and reply objects that still will send one. */
  ghost function Balance(s: State): multiset<nat> { SentIds(s.sent) + multiset(s.pending) }

  lemma ReplyBalance(s: State, unique: nat, r: Response)
    ensures Balance(s.Reply(unique, r)) == Balance(s) + multiset{unique}
  {
    assert (s.sent + [Sent(unique, r)])[..|s.sent|] == s.sent;
  }

  lemma AskBalance(s: State, r: Request, b: Behaviour)
    ensures Balance(s.Ask(r, b)) == Balance(s) + multiset{r.unique}
  {
    var asked := s.(calls := s.calls + [Method(r)]);
    if b.now.Some? { ReplyBalance(asked, r.unique, Completed(b.now.value)); }
    hide SentIds;
  }

  ghost predicate OneMore(before: seq<Sent>, after: seq<Sent>, unique: nat) {
    |after| == |before| + 1 && after[..|before|] == before && after[|before|].unique == unique
  }

  /** Dispatching asks the file system, or replies at once, or passes on a FORGET. */
  lemma DispatchShape(s: State, r: Request, b: Behaviour)
    requires !s.ended
    ensures var t := s.Dispatched(r, b);
      || (GetsReply(s, r) && t == s.Ask(r, b))
      || (GetsReply(s, r) && t.pending == s.pending && OneMore(s.sent, t.sent, r.unique))
      || (!GetsReply(s, r) && t.pending == s.pending && t.sent == s.sent)
  {
    hide State.Ask, Unsupported, Anonymous, MayAsk;
    if IsForget(r.op) { ForgetPasses(r.op); }
  }

  lemma ForgetPasses(op: Option<Op>)
    requires IsForget(op)
    ensures Anonymous(op.value) && !Unsupported(op.value)
  {
  }

  lemma DispatchBalance(s: State, r: Request, b: Behaviour)
    requires !s.ended
    ensures Balance(s.Dispatched(r, b)) == Balance(s) + Owing(s, Receive(r, b))
  {
    hide State.Ask, State.Dispatched, GetsReply;
    DispatchShape(s, r, b);
    AskBalance(s, r, b);
  }

  lemma TakeOne(ids: seq<nat>, i: nat)
    requires i < |ids|
    ensures multiset(ids) == multiset(ids[..i] + ids[i + 1..]) + multiset{ids[i]}
  {
    assert ids == ids[..i] + [ids[i]] + ids[i + 1..];
  }

  lemma LaterBalance(s: State, i: nat, use: Use)
    ensures Balance(s.Next(Later(i, use))) == Balance(s)
  {
    hide SentIds, State.Dispatched, GetsReply;
    if i < |s.pending| {
      var rest := s.pending[..i] + s.pending[i + 1..];
      TakeOne(s.pending, i);
      ReplyBalance(s.(pending := rest), s.pending[i], Completed(use));
    }
  }

  lemma NextBalance(s: State, e: Event)
    ensures Balance(s.Next(e)) == Balance(s) + Owing(s, e)
  {
    hide SentIds, State.Dispatched, State.Reply, Completed;
    match e {
      case Receive(r, b) => if !s.ended { DispatchBalance(s, r, b); }
      case Later(i, use) => LaterBalance(s, i, use);
      case End =>
    }
  }

  /** In every run, whatever becomes of the reply objects: the ids replied to, together with those of
      the objects still kept, are exactly the ids owed a reply, counted with multiplicity. */
  lemma {:induction false} RepliesBalance(acl: Acl, owner: nat, events: seq<Event>)
    ensures var s := Run(Start(acl, owner), events);
      SentIds(s.sent) + multiset(s.pending) == Owed(Start(acl, owner), events)
    decreases |events|
  {
    if events != [] {
      hide Owing, State.Next;
      var front := events[..|events| - 1];
      RepliesBalance(acl, owner, front);
      NextBalance(Run(Start(acl, owner), front), events[|events| - 1]);
    }
  }

  /** The kernel numbers its requests apart. */
  ghost predicate DistinctIds(events: seq<Event>) {
    forall i, j | 0 <= i < j < |events| && events[i].Receive? && events[j].Receive? :: events[i].r.unique != events[j].r.unique
  }

  lemma {:induction false} OwedOnlyAsked(s: State, events: seq<Event>, u: nat)
    requires forall i | 0 <= i < |events| && events[i].Receive? :: events[i].r.unique != u
    ensures Owed(s, events)[u] == 0
    decreases |events|
  {
    if events != [] { OwedOnlyAsked(s, events[..|events| - 1], u); }
  }

  lemma {:induction false} OwedOnce(s: State, events: seq<Event>, k: nat)
    requires DistinctIds(events) && k < |events| && events[k].Receive?
    ensures Owed(s, events)[events[k].r.unique] == if GetsReply(Run(s, events[..k]), events[k].r) then 1 else 0
    decreases |events|
  {
    hide Run, GetsReply;
    var n, u := |events| - 1, events[k].r.unique;
    var front, last := events[..n], events[n];
    if k == n {
      OwedOnlyAsked(s, front, u);
    } else {
      assert last.Receive? ==> last.r.unique != u;
      assert Owing(Run(s, front), last)[u] == 0;
      OwedOnce(s, front, k);
      assert front[..k] == events[..k];
    }
  }

  /** With ids numbered apart, the request of event `k` has one reply sent under its id or one reply
      object kept for it, never both and never two, unless it is a FORGET that the file system got
      (or came after the end); those have neither. */
  lemma OneReplyEach(acl: Acl, owner: nat, events: seq<Event>, k: nat)
    requires DistinctIds(events) && k < |events| && events[k].Receive?
    ensures var s, u := Run(Start(acl, owner), events), events[k].r.unique;
      SentIds(s.sent)[u] + multiset(s.pending)[u]
      == if GetsReply(Run(Start(acl, owner), events[..k]), events[k].r) then 1 else 0
  {
    hide SentIds, GetsReply, Owed;
    RepliesBalance(acl, owner, events);
    OwedOnce(Start(acl, owner), events, k);
  }

  // ---------------------------------------------------------------- the phases

  /** Each file system method runs after a successful init and before any destroy, for a user the
      session admits, unless the kernel may ask without one. */
  ghost predicate Phased(acl: Acl, owner: nat, calls: seq<FsCall>) {
    forall j | 0 <= j < |calls| && calls[j].Method? ::
      && InitDone in calls[..j] && DestroyDone !in calls[..j]
      && Admitted(acl, owner, calls[j].r)
  }

  ghost predicate Admitted(acl: Acl, owner: nat, r: Request) {
    && r.op.Some? && !r.op.value.Init? && !r.op.value.Destroy? && !Unsupported(r.op.value)
    && (MayAsk(acl, owner, r.uid) || Anonymous(r.op.value))
  }

  ghost predicate Inv(s: State) {
    && (s.initialized <==> InitDone in s.calls)
    && (s.destroyed <==> DestroyDone in s.calls)
    && (s.ended ==> s.destroyed)
    && Phased(s.acl, s.owner, s.calls)
  }

  lemma CallKeeps(acl: Acl, owner: nat, calls: seq<FsCall>, c: FsCall)
    requires Phased(acl, owner, calls)
    requires c.Method? ==> InitDone in calls && DestroyDone !in calls && Admitted(acl, owner, c.r)
    ensures Phased(acl, owner, calls + [c])
  {
    hide Admitted;
    var after := calls + [c];
    assert after[..|calls|] == calls;
    forall j | 0 <= j < |after| && after[j].Method?
      ensures InitDone in after[..j] && DestroyDone !in after[..j] && Admitted(acl, owner, after[j].r)
    {
      assert j < |calls| ==> after[..j] == calls[..j];
    }
  }

  lemma AskKeeps(s: State, r: Request, b: Behaviour)
    requires Inv(s) && s.initialized && !s.destroyed && Admitted(s.acl, s.owner, r)
    ensures Inv(s.Ask(r, b)) && s.Ask(r, b).acl == s.acl && s.Ask(r, b).owner == s.owner
  {
    hide Phased, Admitted;
    CallKeeps(s.acl, s.owner, s.calls, Method(r));
    CallKeeps(s.acl, s.owner, s.calls + [Method(r)], DestroyDone);
  }

  lemma DispatchKeeps(s: State, r: Request, b: Behaviour)
    requires Inv(s)
    ensures Inv(s.Dispatched(r, b)) && s.Dispatched(r, b).acl == s.acl && s.Dispatched(r, b).owner == s.owner
  {
    hide Phased, Unsupported, Anonymous, MayAsk, State.Ask;
    CallKeeps(s.acl, s.owner, s.calls, InitDone);
    CallKeeps(s.acl, s.owner, s.calls, InitFailed);
    CallKeeps(s.acl, s.owner, s.calls, DestroyDone);
    if s.initialized && !s.destroyed && Admitted(s.acl, s.owner, r) {
      CallKeeps(s.acl, s.owner, s.calls, Method(r));
      AskKeeps(s, r, b);
    }
  }

  /** In every run: methods other than init and destroy run only after init and before destroy, only
      for admitted users, and once the session has ended destroy has run. */
  lemma {:induction false} RunKeeps(acl: Acl, owner: nat, events: seq<Event>)
    ensures var s := Run(Start(acl, owner), events);
      && Inv(s) && Phased(acl, owner, s.calls)
      && (s.ended ==> DestroyDone in s.calls)
    ensures Run(Start(acl, owner), events).acl == acl && Run(Start(acl, owner), events).owner == owner
    decreases |events|
  {
    if events != [] {
      hide Phased, State.Dispatched;
      var front := events[..|events| - 1];
      RunKeeps(acl, owner, front);
      var s := Run(Start(acl, owner), front);
      match events[|events| - 1] {
        case Receive(r, b) => DispatchKeeps(s, r, b);
        case Later(_, _) =>
        case End => CallKeeps(acl, owner, s.calls, DestroyDone);
      }
    }
  }

  /** While the session is active, exactly the admitted requests reach a file system method. */
  lemma MethodRunsIff(s: State, r: Request, b: Behaviour)
    ensures (|s.Dispatched(r, b).calls| > |s.calls| && s.Dispatched(r, b).calls[|s.calls|] == Method(r))
       <==> s.initialized && !s.destroyed && Admitted(s.acl, s.owner, r)
  {
    hide Unsupported, Anonymous, MayAsk;
  }

  /** Outside the active phase every admitted request but INIT and DESTROY is told EIO. */
  lemma OutsidePhaseIsRefused(s: State, r: Request, b: Behaviour)
    requires Admitted(s.acl, s.owner, r) && (!s.initialized || s.destroyed)
    ensures s.Dispatched(r, b) == s.Reply(r.unique, Errno(EIO))
  {
    hide Unsupported, Anonymous, MayAsk;
  }

  // ---------------------------------------------------------------- what the replies say

  /** What the kernel is to be told when the file system uses a reply object like this. */
  ghost predicate Says(u: Use, response: Response) {
    if u.Answer? then response == u.r
    else if u.Fail? && u.err != 0 then response == Errno(u.err)
    else response == Errno(5)
  }

  /** There is a reply under `id`, and every such reply says what the use demands. */
  ghost predicate Told(sent: seq<Sent>, id: nat, u: Use) {
    && (exists n | 0 <= n < |sent| :: sent[n].unique == id)
    && forall n | 0 <= n < |sent| && sent[n].unique == id :: Says(u, sent[n].response)
  }

  lemma CompletedSays(u: Use)
    ensures Says(u, Completed(u))
  {
  }

  lemma {:induction false} CountsAll(sent: seq<Sent>, i: nat, j: nat)
    requires i < j < |sent| && sent[i].unique == sent[j].unique
    ensures SentIds(sent)[sent[i].unique] >= 2
    decreases |sent|
  {
    var n := |sent| - 1;
    if j < n {
      CountsAll(sent[..n], i, j);
    } else {
      CountsOne(sent[..n], i);
    }
  }

  lemma {:induction false} CountsOne(sent: seq<Sent>, i: nat)
    requires i < |sent|
    ensures SentIds(sent)[sent[i].unique] >= 1
    decreases |sent|
  {
    if i < |sent| - 1 { CountsOne(sent[..|sent| - 1], i); }
  }

  lemma OwedAtMostOnce(s: State, events: seq<Event>, u: nat)
    requires DistinctIds(events)
    ensures Owed(s, events)[u] <= 1
  {
    hide Owed, Run, DistinctIds;
    if k :| 0 <= k < |events| && events[k].Receive? && events[k].r.unique == u {
      OwedOnce(s, events, k);
    } else {
      OwedOnlyAsked(s, events, u);
    }
  }

  lemma DispatchOnlyAdds(s: State, r: Request, b: Behaviour)
    ensures s.sent <= s.Dispatched(r, b).sent
  {
    hide Unsupported, Anonymous, MayAsk;
  }

  lemma {:induction false} SentGrows(s: State, events: seq<Event>, m: nat)
    requires m <= |events|
    ensures Run(s, events[..m]).sent <= Run(s, events).sent
    decreases |events|
  {
    hide State.Dispatched;
    if m == |events| {
      assert events[..m] == events;
    } else {
      var front := events[..|events| - 1];
      SentGrows(s, front, m);
      assert front[..m] == events[..m];
      var t, e := Run(s, front), events[|events| - 1];
      if e.Receive? { DispatchOnlyAdds(t, e.r, e.b); }
      assert t.sent <= t.Next(e).sent;
    }
  }

  /** The event makes a reply object be used: at once by the method that gets the request, or later. */
  ghost predicate Uses(s: State, e: Event, id: nat, u: Use) {
    match e
    case Receive(r, b) =>
      && !s.ended && s.initialized && !s.destroyed && Admitted(s.acl, s.owner, r) && !IsForget(r.op)
      && b.now == Some(u) && r.unique == id
    case Later(i, use) => i < |s.pending| && s.pending[i] == id && use == u
    case End => false
  }

  lemma UseSends(s: State, e: Event, id: nat, u: Use)
    requires Uses(s, e, id, u)
    ensures s.Next(e).sent == s.sent + [Sent(id, Completed(u))]
  {
    hide Unsupported, Anonymous, MayAsk, Completed;
  }

  /** In every run with ids numbered apart, whenever the file system uses a reply object, now or later, the
      kernel is told so under the request's id, and is told nothing else under it. */
  lemma ReplySays(acl: Acl, owner: nat, events: seq<Event>, m: nat, id: nat, u: Use)
    requires DistinctIds(events) && m < |events| && Uses(Run(Start(acl, owner), events[..m]), events[m], id, u)
    ensures Told(Run(Start(acl, owner), events).sent, id, u)
  {
    hide State.Next, Uses, Completed, Says, Owed, DistinctIds, SentIds;
    var start := Start(acl, owner);
    var before, after, end := Run(start, events[..m]), Run(start, events[..m + 1]), Run(start, events);
    assert events[..m + 1][..m] == events[..m];
    UseSends(before, events[m], id, u);
    CompletedSays(u);
    SentGrows(start, events, m + 1);
    var n := |before.sent|;
    assert after.sent[n] == Sent(id, Completed(u)) && end.sent[n] == after.sent[n];
    RepliesBalance(acl, owner, events);
    OwedAtMostOnce(start, events, id);
    forall i | 0 <= i < |end.sent| && end.sent[i].unique == id ensures Says(u, end.sent[i].response) {
      if i < n { CountsAll(end.sent, i, n); } else if n < i { CountsAll(end.sent, n, i); }
    }
  }

  /** Who is admitted, by user ids: everybody in an open session, the owner, root where it is let in, and
      anybody for the nine operations the kernel may send on its own account; but nobody for the four
      operations without support. */
  lemma AdmittedByUid(acl: Acl, owner: nat, uid: nat, unique: nat, op: Op)
    requires !op.Init? && !op.Destroy?
    ensures Admitted(acl, owner, Request(unique, uid, Some(op))) <==>
      && op !in {Interrupt, NotifyReply, CuseInit, IoCtl(true)}
      && (acl == All || uid == owner || (acl == RootAndOwner && uid == 0)
          || op in {Read, Write, ReadDir, Forget, BatchForget, FSync, FSyncDir, Release, ReleaseDir})
  {
  }

  /** What refused requests are told, and that nothing else happens to them. */
  lemma RefusalsSay(s: State, r: Request, b: Behaviour)
    ensures r.op.None? ==> s.Dispatched(r, b) == s.Reply(r.unique, Errno(38))
    ensures r.op.Some? && !Admitted(s.acl, s.owner, r) && !r.op.value.Init? && !r.op.value.Destroy? ==>
      s.Dispatched(r, b) == s.Reply(r.unique, Errno(
        if !(MayAsk(s.acl, s.owner, r.uid) || Anonymous(r.op.value)) then 13 else if !s.initialized || s.destroyed then 5 else 38))
    ensures r.op.Some? && r.op.value.Destroy? && !s.initialized ==> s.Dispatched(r, b) == s.Reply(r.unique, Errno(5))
    ensures r.op.Some? && r.op.value.Init? && (r.op.value.major < 7 || (r.op.value.major == 7 && r.op.value.minor < 6)) ==>
      s.Dispatched(r, b) == s.Reply(r.unique, Errno(71))
  {
    hide Unsupported, MayAsk;
  }

  /** A panic of the method, or an error code of zero, ends the session; nothing else the file system does
      with a request it gets does. */
  lemma PanicEnds(s: State, r: Request, b: Behaviour)
    requires !s.ended && s.initialized && !s.destroyed && Admitted(s.acl, s.owner, r) && !IsForget(r.op)
    ensures s.Dispatched(r, b).ended <==> b.panics || b.now == Some(Fail(0))
    ensures s.Dispatched(r, b).pending == if b.now.None? then s.pending + [r.unique] else s.pending
  {
    hide Unsupported, Anonymous, MayAsk;
  }

  /** INIT succeeds exactly for version 7.6 and later when the file system agrees, whoever asks; an error of
      the file system is passed on. */
  lemma InitSucceedsIff(s: State, r: Request, b: Behaviour)
    requires r.op.Some? && r.op.value.Init?
    ensures var op, t := r.op.value, s.Dispatched(r, b);
      var recent := op.major > 7 || (op.major == 7 && op.minor >= 6);
      && (t.initialized <==> s.initialized || (recent && b.initError.None?))
      && t.sent == s.sent + [Sent(r.unique,
           if !recent then Errno(71) else if b.initError.None? then Data(0)
           else if b.initError.value == 0 then Errno(5) else Errno(b.initError.value))]
      && t.destroyed == s.destroyed && t.ended == s.ended
  {
  }

  /** DESTROY, whoever asks, runs the file system's method once the session is initialised, each time it is
      asked for, and is answered without an error. */
  lemma DestroyRuns(s: State, r: Request, b: Behaviour)
    requires r.op == Some(Destroy) && s.initialized
    ensures s.Dispatched(r, b)
      == s.(destroyed := true, calls := s.calls + [DestroyDone], sent := s.sent + [Sent(r.unique, Data(0))])
  {
  }
}
