/** SETATTR and WRITE (sections 3.3.2 and 3.3.7 of RFC 1813): who may change a file's owner, group and
    mode, over every serial run of the two handlers.  The file system below applies a change in steps,
    each of which may fail and leave the earlier ones done. */
module NfsSetattr {
  import opened Bytes
  import opened NfsPermissions

  datatype TimeChange = DontChange | ServerTime | ClientTime(t: nat)

  /** The attributes a client asks to set. */
  datatype Sattr = Sattr(mode: Option<bv32>, uid: Option<nat>, gid: Option<nat>, size: Option<nat>, atime: TimeChange, mtime: TimeChange)

  datatype Status = Ok | Acces | Perm | NoEnt | Io | NotSync

  /** What happens below the handlers: which of the file system's steps fail, and what the clock reads. */
  datatype Below = Below(chmod: bool, chown: bool, truncate: bool, utimens: bool, write: bool, now: nat)

  datatype Call =
    | Setattr(auth: Auth, id: nat, request: Sattr, below: Below)
    | Write(auth: Auth, id: nat, newSize: Option<nat>, below: Below)

  // ---------------------------------------------------------------- mode bits

  predicate HasSetId(m: bv32) { m & S_ISUID_ISGID != 0 }
  predicate HasSetGid(m: bv32) { m & S_ISGID != 0 }
  function WithoutSetId(m: bv32): bv32 { m & !S_ISUID_ISGID }
  function WithoutSetGid(m: bv32): bv32 { m & !S_ISGID }

  /** What the file system stores of a mode. */
  function Stored(m: bv32): bv32 { m & PERM_BITS }

  // ---------------------------------------------------------------- what the handlers compute

  predicate MayTruncate(auth: Auth, a: Attr, r: Sattr) { r.size.Some? ==> CanWrite(auth, a) }

  predicate MayChmod(auth: Auth, a: Attr, r: Sattr) { r.mode.Some? ==> IsOwner(auth, a) }

  predicate MayChown(auth: Auth, a: Attr, r: Sattr) { r.uid.Some? && auth.uid != 0 ==> r.uid.value == a.uid }

  predicate MayChgrp(auth: Auth, a: Attr, r: Sattr) {
    r.gid.Some? && auth.uid != 0 ==> IsOwner(auth, a) && InGroup(auth, r.gid.value)
  }

  predicate MaySetTimes(auth: Auth, a: Attr, r: Sattr) {
    r.atime.ClientTime? || r.mtime.ClientTime? ==> IsOwner(auth, a)
  }

  function Verdict(auth: Auth, a: Attr, r: Sattr): Status {
    if !MayTruncate(auth, a, r) then Acces
    else if !(MayChmod(auth, a, r) && MayChown(auth, a, r) && MayChgrp(auth, a, r) && MaySetTimes(auth, a, r)) then Perm
    else Ok
  }

  /** The request as rewritten before it is applied. */
  function Adjusted(auth: Auth, a: Attr, r: Sattr): Sattr {
    if auth.uid == 0 then r
    else if r.mode.Some? then
      var gid := if r.gid.Some? then r.gid.value else a.gid;
      if HasSetGid(r.mode.value) && !InGroup(auth, gid) then r.(mode := Some(WithoutSetGid(r.mode.value))) else r
    else if (r.uid.Some? || r.gid.Some?) && HasSetId(a.mode) then r.(mode := Some(WithoutSetId(a.mode)))
    else r
  }

  function Chmod(a: Attr, mode: bv32, now: nat): Attr { a.(mode := Stored(mode), ctime := now) }

  function Chown(a: Attr, uid: Option<nat>, gid: Option<nat>, now: nat): Attr {
    a.(uid := if uid.Some? then uid.value else a.uid, gid := if gid.Some? then gid.value else a.gid, ctime := now)
  }

  function Truncate(a: Attr, size: nat, now: nat): Attr { a.(size := size, mtime := now, ctime := now) }

  function TimeAfter(time: nat, change: TimeChange, now: nat): nat {
    match change
    case DontChange => time
    case ServerTime => now
    case ClientTime(t) => t
  }

  function Utimens(a: Attr, atime: TimeChange, mtime: TimeChange, now: nat): Attr {
    a.(atime := TimeAfter(a.atime, atime, now), mtime := TimeAfter(a.mtime, mtime, now), ctime := now)
  }

  /** The attributes after a request is applied step by step, up to the first step that fails. */
  function Applied(a: Attr, r: Sattr, f: Below): (Attr, Status) {
    if r.mode.Some? && f.chmod then (a, Io)
    else
      var a1 := if r.mode.Some? then Chmod(a, r.mode.value, f.now) else a;
      if !(r.uid.Some? || r.gid.Some?) then AppliedRest(a1, r, f)
      else if f.chown then (a1, Io)
      else AppliedRest(Chown(a1, r.uid, r.gid, f.now), r, f)
  }

  function AppliedRest(a: Attr, r: Sattr, f: Below): (Attr, Status) {
    if r.size.Some? && f.truncate then (a, Io)
    else
      var a1 := if r.size.Some? then Truncate(a, r.size.value, f.now) else a;
      if r.atime == DontChange && r.mtime == DontChange then (a1, Ok)
      else if f.utimens then (a1, Io)
      else (Utimens(a1, r.atime, r.mtime, f.now), Ok)
  }

  const NO_CHANGE := Sattr(None, None, None, None, DontChange, DontChange)

  function AfterSetattr(a: Attr, auth: Auth, r: Sattr, f: Below): (Attr, Status) {
    var v := Verdict(auth, a, r);
    if v != Ok then (a, v) else Applied(a, Adjusted(auth, a, r), f)
  }

  /** The guard, if the client sent one, holds the file's ctime. */
  predicate InSync(a: Attr, guard: Option<nat>) { guard.Some? ==> guard.value == a.ctime }

  /** The update and the statuses of the reply. */
  function Handled(a: Attr, auth: Auth, r: Sattr, guard: Option<nat>, f: Below): (Attr, seq<Status>) {
    var after := AfterSetattr(a, auth, r, f);
    (after.0, (if InSync(a, guard) || Verdict(auth, a, r) != Ok then [] else [NotSync]) + [after.1])
  }

  /** What writing does to the attributes; `newSize` is None when there is no data to write. */
  function Written(a: Attr, newSize: Option<nat>, now: nat): Attr {
    if newSize.Some? then a.(size := newSize.value, mtime := now) else a
  }

  function AfterWrite(a: Attr, auth: Auth, newSize: Option<nat>, f: Below): (Attr, Status) {
    if !CanWrite(auth, a) then (a, Acces)
    else if f.write then (a, Io)
    else
      var w := Written(a, newSize, f.now);
      if auth.uid != 0 && HasSetId(w.mode)
      then (Applied(w, NO_CHANGE.(mode := Some(WithoutSetId(w.mode))), f).0, Ok)
      else (w, Ok)
  }

  function AfterCall(a: Attr, c: Call): (Attr, Status) {
    match c
    case Setattr(auth, _, r, f) => AfterSetattr(a, auth, r, f)
    case Write(auth, _, newSize, f) => AfterWrite(a, auth, newSize, f)
  }

  // ---------------------------------------------------------------- the handlers

  class Vfs {
    var attrs: map<nat, Attr>

    constructor (attrs: map<nat, Attr>)
      ensures this.attrs == attrs
    {
      this.attrs := attrs;
    }

    /** Apply a request step by step; a failing step returns at once. */
    method SetattrSteps(id: nat, r: Sattr, f: Below) returns (status: Status)
      requires id in attrs
      modifies this
      ensures attrs == old(attrs)[id := Applied(old(attrs)[id], r, f).0]
      ensures status == Applied(old(attrs)[id], r, f).1
    {
      hide Chmod, Chown, AppliedRest;
      if r.mode.Some? {
        if f.chmod { assert attrs == attrs[id := attrs[id]]; return Io; }
        attrs := attrs[id := Chmod(attrs[id], r.mode.value, f.now)];
      }
      if r.uid.Some? || r.gid.Some? {
        if f.chown { assert attrs == attrs[id := attrs[id]]; return Io; }
        attrs := attrs[id := Chown(attrs[id], r.uid, r.gid, f.now)];
      }
      status := SetattrRest(id, r, f);
    }

    method SetattrRest(id: nat, r: Sattr, f: Below) returns (status: Status)
      requires id in attrs
      modifies this
      ensures attrs == old(attrs)[id := AppliedRest(old(attrs)[id], r, f).0]
      ensures status == AppliedRest(old(attrs)[id], r, f).1
    {
      hide Truncate, Utimens;
      if r.size.Some? {
        if f.truncate { assert attrs == attrs[id := attrs[id]]; return Io; }
        attrs := attrs[id := Truncate(attrs[id], r.size.value, f.now)];
      }
      if r.atime != DontChange || r.mtime != DontChange {
        if f.utimens { assert attrs == attrs[id := attrs[id]]; return Io; }
        attrs := attrs[id := Utimens(attrs[id], r.atime, r.mtime, f.now)];
      }
      assert attrs == attrs[id := attrs[id]];
      status := Ok;
    }

    /** A guard that does not match only puts one more status into the reply: the update goes on. */
    method Nfsproc3Setattr(auth: Auth, id: nat, request: Sattr, guard: Option<nat>, f: Below) returns (reply: seq<Status>)
      modifies this
      ensures id !in old(attrs) ==> reply == [NoEnt] && attrs == old(attrs)
      ensures id in old(attrs) ==>
        var after := Handled(old(attrs)[id], auth, request, guard, f);
        attrs == old(attrs)[id := after.0] && reply == after.1
    {
      hide HasSetId, HasSetGid, WithoutSetId, WithoutSetGid, CheckPermission, Applied;
      if id !in attrs { return [NoEnt]; }
      var attr := attrs[id];
      assert attrs == attrs[id := attr];
      if request.size.Some? && !CanWrite(auth, attr) { return [Acces]; }
      var changingMode := request.mode.Some?;
      if changingMode && !IsOwner(auth, attr) { return [Perm]; }
      if request.uid.Some? {
        if auth.uid != 0 && request.uid.value != attr.uid { return [Perm]; }
      }
      if request.gid.Some? {
        if auth.uid != 0 {
          if !IsOwner(auth, attr) { return [Perm]; }
          if !InGroup(auth, request.gid.value) { return [Perm]; }
        }
      }
      if (request.atime.ClientTime? || request.mtime.ClientTime?) && !IsOwner(auth, attr) { return [Perm]; }
      var newAttribute := request;
      if changingMode && auth.uid != 0 {
        if HasSetGid(request.mode.value) {
          var fileGid := if request.gid.Some? then request.gid.value else attr.gid;
          if !InGroup(auth, fileGid) {
            newAttribute := newAttribute.(mode := Some(WithoutSetGid(request.mode.value)));
          }
        }
      }
      if auth.uid != 0 && (request.uid.Some? || request.gid.Some?) && !changingMode {
        if HasSetId(attr.mode) {
          newAttribute := newAttribute.(mode := Some(WithoutSetId(attr.mode)));
        }
      }
      reply := if guard.Some? && guard.value != attr.ctime then [NotSync] else [];
      var status := SetattrSteps(id, newAttribute, f);
      reply := reply + [status];
    }

    method Nfsproc3Write(auth: Auth, id: nat, newSize: Option<nat>, f: Below) returns (status: Status)
      modifies this
      ensures id !in old(attrs) ==> status == NoEnt && attrs == old(attrs)
      ensures id in old(attrs) ==>
        var after := AfterWrite(old(attrs)[id], auth, newSize, f);
        attrs == old(attrs)[id := after.0] && status == after.1
    {
      hide HasSetId, WithoutSetId, CheckPermission, Applied;
      if id !in attrs { return NoEnt; }
      var attr := attrs[id];
      assert attrs == attrs[id := attr];
      if !CanWrite(auth, attr) { return Acces; }
      if f.write { return Io; }
      attrs := attrs[id := Written(attr, newSize, f.now)];
      var fattr := attrs[id];
      if auth.uid != 0 && HasSetId(fattr.mode) {
        var _ := SetattrSteps(id, NO_CHANGE.(mode := Some(WithoutSetId(fattr.mode))), f);
      }
      status := Ok;
    }
  }

  // ---------------------------------------------------------------- one step

  /** `b` is `a` without some of the set-user-id and set-group-id bits. */
  ghost predicate OnlyDropsSetId(a: bv32, b: bv32) {
    b & !S_ISUID_ISGID == a & !S_ISUID_ISGID && b | a == a
  }

  /** What a non-root caller can do to a file's owner, group and mode. */
  ghost predicate Lawful(a: Attr, b: Attr, auth: Auth) {
    && b.uid == a.uid
    && (b.gid != a.gid ==> auth.uid == a.uid && InGroup(auth, b.gid))
    && (auth.uid != a.uid ==> OnlyDropsSetId(a.mode, b.mode))
  }

  /** Stored modes hold permission bits only. */
  ghost predicate PermOnly(m: bv32) { m & !PERM_BITS == 0 }

  lemma StoredBits(m: bv32)
    ensures PermOnly(Stored(m)) && (!HasSetGid(m) ==> !HasSetGid(Stored(m)))
  {
  }

  lemma ClearedBits(m: bv32)
    ensures !HasSetId(Stored(WithoutSetId(m))) && !HasSetGid(Stored(WithoutSetId(m)))
    ensures !HasSetGid(Stored(WithoutSetGid(m)))
  {
  }

  lemma DroppedBits(m: bv32)
    requires PermOnly(m)
    ensures OnlyDropsSetId(m, m) && OnlyDropsSetId(m, Stored(WithoutSetId(m)))
  {
    assert (m & !0xC00 & 0xFFF) | m == m;
    assert m & !0xFFF == 0 ==> (m & !0xC00 & 0xFFF) & !0xC00 == m & !0xC00;
  }

  lemma DropsTwice(a: bv32, b: bv32, c: bv32)
    requires OnlyDropsSetId(a, b) && OnlyDropsSetId(b, c)
    ensures OnlyDropsSetId(a, c)
  {
  }

  /** What a rewritten request can hold, for a caller that is not root. */
  ghost predicate Permitted(auth: Auth, a: Attr, r: Sattr) {
    && (r.uid.Some? ==> r.uid.value == a.uid)
    && (r.gid.Some? ==> auth.uid == a.uid && InGroup(auth, r.gid.value))
    && (r.mode.Some? ==> auth.uid == a.uid || r.mode.value == WithoutSetId(a.mode))
  }

  lemma AdjustedIsPermitted(auth: Auth, a: Attr, r: Sattr)
    requires auth.uid != 0 && Verdict(auth, a, r) == Ok
    ensures Permitted(auth, a, Adjusted(auth, a, r))
  {
    hide HasSetId, HasSetGid, WithoutSetId, WithoutSetGid, CheckPermission;
  }

  /** The later steps leave owner, group and mode alone, whichever fails. */
  lemma RestKeeps(a: Attr, r: Sattr, f: Below)
    ensures var b := AppliedRest(a, r, f).0; b.uid == a.uid && b.gid == a.gid && b.mode == a.mode && b.ftype == a.ftype
  {
  }

  /** Where no step fails, all of the request is applied, and anything asked for touches the ctime. */
  lemma RestApplied(a: Attr, r: Sattr, f: Below)
    requires AppliedRest(a, r, f).1 == Ok
    ensures AppliedRest(a, r, f).0
      == a.(size := if r.size.Some? then r.size.value else a.size,
            atime := TimeAfter(a.atime, r.atime, f.now),
            mtime := TimeAfter(if r.size.Some? then f.now else a.mtime, r.mtime, f.now),
            ctime := if r.size.None? && r.atime == DontChange && r.mtime == DontChange then a.ctime else f.now)
  {
  }

  lemma AppliedInFull(a: Attr, r: Sattr, f: Below)
    requires Applied(a, r, f).1 == Ok
    ensures Applied(a, r, f).0
      == Attr(a.ftype, if r.mode.Some? then Stored(r.mode.value) else a.mode,
              if r.uid.Some? then r.uid.value else a.uid, if r.gid.Some? then r.gid.value else a.gid,
              if r.size.Some? then r.size.value else a.size,
              TimeAfter(a.atime, r.atime, f.now),
              TimeAfter(if r.size.Some? then f.now else a.mtime, r.mtime, f.now),
              if r == NO_CHANGE then a.ctime else f.now)
  {
    hide AppliedRest, TimeAfter, Stored;
    var a1 := if r.mode.Some? then Chmod(a, r.mode.value, f.now) else a;
    var a2 := if r.uid.Some? || r.gid.Some? then Chown(a1, r.uid, r.gid, f.now) else a1;
    RestApplied(a2, r, f);
  }

  /** Owner, group and mode are the old ones or the requested ones, whichever step fails. */
  lemma AppliedFromRequest(a: Attr, r: Sattr, f: Below)
    ensures var b := Applied(a, r, f).0;
      && (b.uid == a.uid || r.uid == Some(b.uid)) && (b.gid == a.gid || r.gid == Some(b.gid))
      && (b.mode == a.mode || (r.mode.Some? && b.mode == Stored(r.mode.value)))
  {
    hide Stored, AppliedRest;
    var a1 := if r.mode.Some? then Chmod(a, r.mode.value, f.now) else a;
    RestKeeps(a1, r, f);
    RestKeeps(Chown(a1, r.uid, r.gid, f.now), r, f);
  }

  lemma AppliedLawful(auth: Auth, a: Attr, r: Sattr, f: Below)
    requires PermOnly(a.mode) && Permitted(auth, a, r)
    ensures var b := Applied(a, r, f).0; Lawful(a, b, auth) && PermOnly(b.mode)
  {
    hide WithoutSetId, Stored, PermOnly, OnlyDropsSetId, HasSetGid, Applied;
    DroppedBits(a.mode);
    if r.mode.Some? { StoredBits(r.mode.value); }
    AppliedFromRequest(a, r, f);
  }

  /** One SETATTR by a caller that is not root, whichever step fails. */
  lemma SetattrLawful(a: Attr, auth: Auth, r: Sattr, f: Below)
    requires auth.uid != 0 && PermOnly(a.mode)
    ensures var b := AfterSetattr(a, auth, r, f).0; Lawful(a, b, auth) && PermOnly(b.mode)
  {
    hide PermOnly, OnlyDropsSetId, Verdict, Adjusted, Applied, Permitted;
    DroppedBits(a.mode);
    if Verdict(auth, a, r) == Ok {
      AdjustedIsPermitted(auth, a, r);
      AppliedLawful(auth, a, Adjusted(auth, a, r), f);
    }
  }

  /** One WRITE by a caller that is not root. */
  lemma WriteLawful(a: Attr, auth: Auth, newSize: Option<nat>, f: Below)
    requires auth.uid != 0 && PermOnly(a.mode)
    ensures var b := AfterWrite(a, auth, newSize, f).0; Lawful(a, b, auth) && PermOnly(b.mode)
  {
    hide PermOnly, OnlyDropsSetId, CanWrite, Applied, HasSetId, WithoutSetId;
    DroppedBits(a.mode);
    AppliedLawful(auth, Written(a, newSize, f.now), NO_CHANGE.(mode := Some(WithoutSetId(a.mode))), f);
  }

  /** After a WRITE by a non-root caller that is answered with OK no set-id bit is left, exactly unless
      there was one and the update that clears it failed, which the answer does not show. */
  lemma WriteClearsSetId(a: Attr, auth: Auth, newSize: Option<nat>, f: Below)
    requires auth.uid != 0
    ensures AfterWrite(a, auth, newSize, f).1 == Ok ==>
      (!HasSetId(AfterWrite(a, auth, newSize, f).0.mode) <==> !HasSetId(a.mode) || !f.chmod)
  {
    hide CheckPermission, HasSetId, WithoutSetId, Stored;
    ClearedBits(a.mode);
  }

  /** A successful SETATTR by a non-root caller sets the set-group-id bit anew only for a group the
      caller belongs to. */
  lemma SetGroupIdNeedsMembership(a: Attr, auth: Auth, r: Sattr, f: Below)
    requires auth.uid != 0 && AfterSetattr(a, auth, r, f).1 == Ok
    requires !HasSetGid(a.mode)
    ensures var b := AfterSetattr(a, auth, r, f).0; HasSetGid(b.mode) ==> InGroup(auth, b.gid)
  {
    hide CheckPermission, HasSetGid, HasSetId, WithoutSetId, WithoutSetGid, Stored, Verdict;
    ClearedBits(a.mode);
    if r.mode.Some? {
      StoredBits(r.mode.value);
      ClearedBits(r.mode.value);
    }
  }

  /** The rewriting touches the mode alone. */
  lemma AdjustedMode(auth: Auth, a: Attr, r: Sattr)
    ensures var c := Adjusted(auth, a, r);
      && c == r.(mode := c.mode) && (c == NO_CHANGE <==> r == NO_CHANGE)
      && (r.mode.Some? ==>
            c.mode == Some(if auth.uid != 0 && HasSetGid(r.mode.value) && !InGroup(auth, if r.gid.Some? then r.gid.value else a.gid)
                           then WithoutSetGid(r.mode.value) else r.mode.value))
      && (r.mode.None? && c.mode.Some? ==>
            auth.uid != 0 && (r.uid.Some? || r.gid.Some?) && c.mode.value == WithoutSetId(a.mode))
  {
    hide HasSetGid, HasSetId, WithoutSetId, WithoutSetGid, InGroup;
  }

  /** A successful SETATTR leaves owner, group, size and times as asked, and the mode as asked save for a
      set-group-id bit that the caller's groups do not cover, or for set-id bits that a change of owner
      or group takes away. */
  lemma SetattrTakesEffect(a: Attr, auth: Auth, r: Sattr, f: Below)
    requires AfterSetattr(a, auth, r, f).1 == Ok
    ensures var b := AfterSetattr(a, auth, r, f).0;
      && b.uid == (if r.uid.Some? then r.uid.value else a.uid)
      && b.gid == (if r.gid.Some? then r.gid.value else a.gid)
      && b.size == (if r.size.Some? then r.size.value else a.size)
      && b.ftype == a.ftype && b.atime == TimeAfter(a.atime, r.atime, f.now)
      && b.mtime == TimeAfter(if r.size.Some? then f.now else a.mtime, r.mtime, f.now)
      && b.ctime == (if r == NO_CHANGE then a.ctime else f.now)
      && (r.mode.Some? ==>
            b.mode == Stored(if auth.uid != 0 && HasSetGid(r.mode.value) && !InGroup(auth, b.gid)
                             then WithoutSetGid(r.mode.value) else r.mode.value))
      && (r.mode.None? && b.mode != a.mode ==>
            auth.uid != 0 && (r.uid.Some? || r.gid.Some?) && b.mode == Stored(WithoutSetId(a.mode)))
  {
    hide HasSetGid, HasSetId, WithoutSetId, WithoutSetGid, InGroup, Stored, Verdict, Adjusted, Applied, TimeAfter;
    AdjustedMode(auth, a, r);
    AppliedInFull(a, Adjusted(auth, a, r), f);
  }

  /** Nothing fails below. */
  function Calm(now: nat): Below { Below(false, false, false, false, false, now) }

  /** What a caller must not ask for: a new size without write permission, another owner, a group it is
      not in, and mode, group or explicit times of a file it does not own. */
  ghost predicate AsksTooMuch(auth: Auth, a: Attr, r: Sattr) {
    || (r.size.Some? && !Grants(auth, a, Permission.Write))
    || (auth.uid != 0 && r.uid.Some? && r.uid.value != a.uid)
    || (auth.uid != 0 && r.gid.Some? && !InGroup(auth, r.gid.value))
    || (auth.uid != 0 && auth.uid != a.uid && (r.mode.Some? || r.gid.Some? || r.atime.ClientTime? || r.mtime.ClientTime?))
  }

  /** Where nothing fails below, SETATTR refuses exactly that, a size that may not be set with ACCES and
      everything else with PERM; and root is never refused. */
  lemma SetattrRefusedIff(a: Attr, auth: Auth, r: Sattr, now: nat)
    ensures AfterSetattr(a, auth, r, Calm(now)).1 != Ok <==> AsksTooMuch(auth, a, r)
    ensures AsksTooMuch(auth, a, r) ==>
      AfterSetattr(a, auth, r, Calm(now)).1 == if r.size.Some? && !Grants(auth, a, Permission.Write) then Acces else Perm
    ensures auth.uid == 0 ==> AfterSetattr(a, auth, r, Calm(now)).1 == Ok
  {
    hide Applied, CanWrite, DigitHolds, Sticky, StickyBit, CanModifyDirectory;
    ChecksMean(auth, a);
    AppliedNeverFails(a, Adjusted(auth, a, r), now);
  }

  /** Where nothing fails below, a WRITE is answered with OK exactly when the caller's digit holds the write
      permission, and with ACCES otherwise.  It sets size and mtime if there is data, clears set-id bits
      for a caller that is not root, and touches nothing else. */
  lemma WriteAnsweredIff(a: Attr, auth: Auth, newSize: Option<nat>, now: nat)
    ensures var r := AfterWrite(a, auth, newSize, Calm(now));
      var clears := auth.uid != 0 && HasSetId(a.mode);
      && r.1 == (if Grants(auth, a, Permission.Write) then Ok else Acces)
      && r.0 == if r.1 != Ok then a else
           a.(size := if newSize.Some? then newSize.value else a.size, mtime := if newSize.Some? then now else a.mtime,
              mode := if clears then Stored(WithoutSetId(a.mode)) else a.mode, ctime := if clears then now else a.ctime)
  {
    hide HasSetId, WithoutSetId, Stored, CanWrite, DigitHolds, Sticky, StickyBit, CanModifyDirectory;
    ChecksMean(auth, a);
  }

  /** The set-id bits are the upper two of the top digit. */
  lemma SetIdBitsAre(m: bv32)
    ensures HasSetId(m) <==> TopDigit(m) & 6 != 0
    ensures HasSetGid(m) <==> TopDigit(m) & 2 != 0
  {
  }

  /** Clearing takes them away and nothing else, and storing takes what is above them. */
  lemma WithoutSetIdIs(m: bv32)
    ensures TopDigit(WithoutSetId(m)) == TopDigit(m) & 1 && WithoutSetId(m) & 0x1FF == m & 0x1FF
  {
  }

  lemma WithoutSetGidIs(m: bv32)
    ensures TopDigit(WithoutSetGid(m)) == TopDigit(m) & 5 && WithoutSetGid(m) & 0x1FF == m & 0x1FF
  {
  }

  lemma StoredIs(m: bv32)
    ensures TopDigit(Stored(m)) == TopDigit(m) && Stored(m) & 0x1FF == m & 0x1FF
  {
  }

  /** A step that fails leaves the earlier ones done and the later ones undone. */
  lemma FailedStepKeepsEarlier(a: Attr, r: Sattr, f: Below)
    ensures r.mode.Some? && f.chmod ==> Applied(a, r, f) == (a, Io)
    ensures r.mode.Some? && !f.chmod && r.uid.Some? && f.chown ==>
      Applied(a, r, f) == (a.(mode := Stored(r.mode.value), ctime := f.now), Io)
    ensures r.mode.None? && r.uid.Some? && !f.chown && r.size.Some? && f.truncate ==>
      Applied(a, r, f) == (a.(uid := r.uid.value, gid := if r.gid.Some? then r.gid.value else a.gid, ctime := f.now), Io)
    ensures r.mode.None? && r.uid.None? && r.gid.None? && r.size.Some? && !f.truncate && r.mtime != DontChange && f.utimens ==>
      Applied(a, r, f) == (a.(size := r.size.value, mtime := f.now, ctime := f.now), Io)
  {
    hide Stored;
  }

  /** The mode a request leaves behind when it is applied in full. */
  ghost function ModeAfter(auth: Auth, a: Attr, r: Sattr): bv32 {
    var gid := if r.gid.Some? then r.gid.value else a.gid;
    if r.mode.Some? then
      Stored(if auth.uid != 0 && HasSetGid(r.mode.value) && !InGroup(auth, gid) then WithoutSetGid(r.mode.value) else r.mode.value)
    else if auth.uid != 0 && (r.uid.Some? || r.gid.Some?) && HasSetId(a.mode) then Stored(WithoutSetId(a.mode))
    else a.mode
  }

  /** The file already is what the request would make it at time `now`, its times included; a request that
      asks for anything at all touches the ctime. */
  ghost predicate AsksForNothing(auth: Auth, a: Attr, r: Sattr, now: nat) {
    || r == NO_CHANGE
    || (&& (r.uid.Some? ==> r.uid.value == a.uid) && (r.gid.Some? ==> r.gid.value == a.gid)
        && (r.size.Some? ==> r.size.value == a.size) && ModeAfter(auth, a, r) == a.mode
        && a.ctime == now && TimeAfter(a.atime, r.atime, now) == a.atime
        && TimeAfter(if r.size.Some? then now else a.mtime, r.mtime, now) == a.mtime)
  }

  /** Where nothing fails below, a guard that does not match leaves the file, its times included, unchanged
      exactly when the request is refused or asks for nothing; once the clock has moved on since the
      file's last change, that means an empty request. */
  lemma MismatchedGuardKeepsIff(a: Attr, auth: Auth, r: Sattr, guard: nat, now: nat)
    requires guard != a.ctime
    ensures Handled(a, auth, r, Some(guard), Calm(now)).0 == a <==> AsksTooMuch(auth, a, r) || AsksForNothing(auth, a, r, now)
    ensures now != a.ctime ==> (AsksForNothing(auth, a, r, now) <==> r == NO_CHANGE)
  {
    hide HasSetGid, HasSetId, WithoutSetId, WithoutSetGid, Stored, Verdict, Applied, CanWrite, InGroup, AsksTooMuch;
    SetattrRefusedIff(a, auth, r, now);
    AppliedNeverFails(a, Adjusted(auth, a, r), now);
    AppliedInFull(a, Adjusted(auth, a, r), Calm(now));
  }

  lemma AppliedNeverFails(a: Attr, r: Sattr, now: nat)
    ensures Applied(a, r, Calm(now)).1 == Ok
  {
    hide Chmod, Chown, Truncate, Utimens;
  }

  /** Root's chmod under a guard that does not match: the client is told NOT_SYNC and OK, and the mode is
      changed. */
  lemma MismatchedGuardWitness(a: Attr, gids: seq<nat>, guard: nat, now: nat)
    requires guard != a.ctime
    ensures var r := NO_CHANGE.(mode := Some(!a.mode));
      var h := Handled(a, Auth(0, 0, gids), r, Some(guard), Calm(now));
      h.1 == [NotSync, Ok] && h.0.mode != a.mode
  {
    assert Stored(!a.mode) != a.mode by { assert !a.mode & 0xFFF != a.mode; }
  }

  // ---------------------------------------------------------------- every run

  function Run(attrs: map<nat, Attr>, calls: seq<Call>): map<nat, Attr> {
    if calls == [] then attrs
    else
      var before, c := Run(attrs, calls[..|calls| - 1]), calls[|calls| - 1];
      if c.id in before then before[c.id := AfterCall(before[c.id], c).0] else before
  }

  /** Some call of the run on file `id` carries the credentials of user `uid`. */
  ghost predicate CalledBy(calls: seq<Call>, id: nat, uid: nat) {
    exists i | 0 <= i < |calls| :: calls[i].id == id && calls[i].auth.uid == uid
  }

  ghost predicate GroupFromOwner(calls: seq<Call>, id: nat, owner: nat, gid: nat) {
    exists i | 0 <= i < |calls| :: calls[i].id == id && calls[i].auth.uid == owner && InGroup(calls[i].auth, gid)
  }

  /** In every serial run by non-root callers: no file's owner changes; a group that changed was set by
      the owner to a group in its credentials; and a file its owner did not touch can only have lost
      set-id bits. */
  lemma {:induction false} RunLawful(attrs: map<nat, Attr>, calls: seq<Call>, id: nat)
    requires forall i | 0 <= i < |calls| :: calls[i].auth.uid != 0
    requires id in attrs && PermOnly(attrs[id].mode)
    ensures var after := Run(attrs, calls);
      && after.Keys == attrs.Keys && PermOnly(after[id].mode)
      && after[id].uid == attrs[id].uid
      && (after[id].gid != attrs[id].gid ==> GroupFromOwner(calls, id, attrs[id].uid, after[id].gid))
      && (!CalledBy(calls, id, attrs[id].uid) ==> OnlyDropsSetId(attrs[id].mode, after[id].mode))
    decreases |calls|
  {
    if calls == [] {
      DroppedBits(attrs[id].mode);
    } else {
      hide AfterCall, InGroup, PermOnly, OnlyDropsSetId, GroupFromOwner, CalledBy;
      var front, c := calls[..|calls| - 1], calls[|calls| - 1];
      RunLawful(attrs, front, id);
      var before := Run(attrs, front);
      PrefixCalls(calls, id, attrs[id].uid, before[id].gid);
      if c.id == id {
        CallLawful(before[id], c);
        var after := AfterCall(before[id], c).0;
        LastCall(calls, after.gid);
        if !CalledBy(calls, id, attrs[id].uid) { DropsTwice(attrs[id].mode, before[id].mode, after.mode); }
      }
    }
  }

  lemma LastCall(calls: seq<Call>, gid: nat)
    requires calls != []
    ensures var c := calls[|calls| - 1];
      CalledBy(calls, c.id, c.auth.uid) && (InGroup(c.auth, gid) ==> GroupFromOwner(calls, c.id, c.auth.uid, gid))
  {
    hide InGroup;
    var c := calls[|calls| - 1];
    if InGroup(c.auth, gid) {
      assert InGroup(calls[|calls| - 1].auth, gid);
    }
  }

  lemma PrefixCalls(calls: seq<Call>, id: nat, owner: nat, gid: nat)
    requires calls != []
    ensures var front := calls[..|calls| - 1];
      && (GroupFromOwner(front, id, owner, gid) ==> GroupFromOwner(calls, id, owner, gid))
      && (CalledBy(front, id, owner) ==> CalledBy(calls, id, owner))
  {
    hide InGroup;
    var front := calls[..|calls| - 1];
    if GroupFromOwner(front, id, owner, gid) {
      var i :| 0 <= i < |front| && front[i].id == id && front[i].auth.uid == owner && InGroup(front[i].auth, gid);
      assert calls[i] == front[i];
    }
    if CalledBy(front, id, owner) {
      var i :| 0 <= i < |front| && front[i].id == id && front[i].auth.uid == owner;
      assert calls[i] == front[i];
    }
  }

  lemma CallLawful(a: Attr, c: Call)
    requires c.auth.uid != 0 && PermOnly(a.mode)
    ensures Lawful(a, AfterCall(a, c).0, c.auth) && PermOnly(AfterCall(a, c).0.mode)
  {
    hide AfterSetattr, AfterWrite, Lawful, PermOnly;
    match c
    case Setattr(auth, _, r, f) => SetattrLawful(a, auth, r, f);
    case Write(auth, _, newSize, f) => WriteLawful(a, auth, newSize, f);
  }

  /** Each call of such a run is lawful against the attributes the call found. */
  lemma EveryCallLawful(attrs: map<nat, Attr>, calls: seq<Call>, k: nat)
    requires k < |calls| && forall i | 0 <= i < |calls| :: calls[i].auth.uid != 0
    requires calls[k].id in attrs && PermOnly(attrs[calls[k].id].mode)
    ensures var id, before, after := calls[k].id, Run(attrs, calls[..k]), Run(attrs, calls[..k + 1]);
      id in before && after.Keys == before.Keys
      && Lawful(before[id], after[id], calls[k].auth)
      && forall other | other in before && other != id :: after[other] == before[other]
  {
    hide AfterCall, Lawful, PermOnly, OnlyDropsSetId;
    RunLawful(attrs, calls[..k], calls[k].id);
    assert calls[..k + 1][..k] == calls[..k];
    CallLawful(Run(attrs, calls[..k])[calls[k].id], calls[k]);
  }
}
