/** The readiness pipe between a daemon's parent and its child: the child writes one message, the parent
    reads it, and the operating system is free to move the bytes in pieces of any size, to interrupt
    any call, to fail it, or to end the child early. */
module DaemonPipe {
  import opened Bytes

  const MAX_ERROR_MSG_LEN := 4096

  /** What the operating system does with one `read` or `write`: move up to `n` bytes but at least one,
      interrupt the call, fail it, or (writing only) accept nothing. */
  datatype Sys = Move(n: nat) | Interrupted | Failed | Nothing

  /** What the child signals, and what the parent makes of it.  `Text` holds the bytes before their
      lossy conversion to a string. */
  datatype Signal = Ready | Broken(msg: seq<byte>)

  datatype Message = Terminated | Default | Text(bytes: seq<byte>)

  datatype Outcome = Started | NotStarted(why: Message)

  // ---------------------------------------------------------------- the wire format

  function Cut(msg: seq<byte>): seq<byte> { msg[..Min(|msg|, MAX_ERROR_MSG_LEN)] }

  function Encoded(s: Signal): (r: seq<byte>)
    ensures r != []
  {
    match s
    case Ready => [0]
    case Broken(msg) => [1] + Be32(|Cut(msg)|) + Cut(msg)
  }

  /** What a parent concludes from all the bytes that ever arrive. */
  function Decoded(stream: seq<byte>): Outcome {
    if |stream| < 1 then NotStarted(Terminated)
    else if stream[0] == 0 then Started
    else if |stream| < 5 then NotStarted(Default)
    else
      var len := Min(U32At(stream, 1), MAX_ERROR_MSG_LEN);
      if len == 0 || |stream| < 5 + len then NotStarted(Default)
      else NotStarted(Text(stream[5..5 + len]))
  }

  /** What the signal means to the parent. */
  function Meaning(s: Signal): Outcome {
    match s
    case Ready => Started
    case Broken(msg) => NotStarted(if msg == [] then Default else Text(Cut(msg)))
  }

  // ---------------------------------------------------------------- the two ends

  /** `schedule` says what happens to the next calls; once it is used up, calls move all they can. */
  class WriteEnd {
    var stream: seq<byte>
    var schedule: seq<Sys>

    constructor (schedule: seq<Sys>)
      ensures stream == [] && this.schedule == schedule
    {
      stream, this.schedule := [], schedule;
    }

    /** `moved` is None for an error, which was an interruption if `again`. */
    method Write(data: seq<byte>) returns (moved: Option<nat>, again: bool)
      requires data != []
      modifies this
      ensures schedule == if old(schedule) == [] then [] else old(schedule)[1..]
      ensures moved.Some? ==> moved.value <= |data| && stream == old(stream) + data[..moved.value] && !again
      ensures moved.None? ==> stream == old(stream)
      ensures again ==> old(schedule) != []
      ensures old(Smooth(schedule)) ==> Smooth(schedule) && (again || (moved.Some? && moved.value > 0))
    {
      var sys := if schedule == [] then Move(|data|) else schedule[0];
      if schedule != [] { schedule := schedule[1..]; }
      match sys {
        case Move(n) =>
          var k := if n == 0 then 1 else Min(n, |data|);
          stream := stream + data[..k];
          return Some(k), false;
        case Interrupted => return None, true;
        case Failed => return None, false;
        case Nothing => return Some(0), false;
      }
    }
  }

  /** Nothing worse than an interruption happens. */
  ghost predicate Smooth(schedule: seq<Sys>) {
    forall i | 0 <= i < |schedule| :: schedule[i].Move? || schedule[i].Interrupted?
  }

  class ReadEnd {
    /** Everything the child wrote before it closed its end. */
    const stream: seq<byte>
    var pos: nat
    var schedule: seq<Sys>

    ghost predicate Valid() reads this { pos <= |stream| }

    constructor (stream: seq<byte>, schedule: seq<Sys>)
      ensures this.stream == stream && pos == 0 && this.schedule == schedule
    {
      this.stream, pos, this.schedule := stream, 0, schedule;
    }

    /** `got` is None for an error; an empty result is the end of the stream. */
    method Read(want: nat) returns (got: Option<seq<byte>>, again: bool)
      requires Valid() && want > 0
      modifies this`pos, this`schedule
      ensures Valid() && schedule == if old(schedule) == [] then [] else old(schedule)[1..]
      ensures got.Some? ==> |got.value| <= want && pos == old(pos) + |got.value| && got.value == stream[old(pos)..pos] && !again
      ensures got.Some? && got.value == [] ==> pos == |stream|
      ensures got.None? ==> pos == old(pos)
      ensures again ==> old(schedule) != [] && got.None?
      ensures old(Smooth(schedule)) ==> Smooth(schedule) && (again || got.Some?)
    {
      var sys := if schedule == [] then Move(want) else schedule[0];
      if schedule != [] { schedule := schedule[1..]; }
      match sys {
        case Move(n) =>
          var k := Min(if n == 0 then 1 else Min(n, want), |stream| - pos);
          got, again := Some(stream[pos..pos + k]), false;
          pos := pos + k;
        case Interrupted => return None, true;
        case Failed => return None, false;
        case Nothing => return None, false;
      }
    }
  }

  // ---------------------------------------------------------------- the child

  /** Success means the whole message was written; otherwise a proper part of it. */
  method SignalParent(fd: WriteEnd, result: Signal) returns (ok: bool)
    modifies fd
    ensures ok ==> fd.stream == old(fd.stream) + Encoded(result)
    ensures !ok ==> exists n | 0 <= n < |Encoded(result)| :: fd.stream == old(fd.stream) + Encoded(result)[..n]
    ensures old(Smooth(fd.schedule)) ==> ok
  {
    hide Encoded;
    var buf := Encoded(result);
    var writtenTotal := 0;
    while writtenTotal < |buf|
      invariant writtenTotal <= |buf| && fd.stream == old(fd.stream) + buf[..writtenTotal]
      invariant old(Smooth(fd.schedule)) ==> Smooth(fd.schedule)
      decreases |buf| - writtenTotal, |fd.schedule|
    {
      var moved, again := fd.Write(buf[writtenTotal..]);
      if moved.Some? && moved.value > 0 {
        WritesOn(buf, writtenTotal, moved.value);
        writtenTotal := writtenTotal + moved.value;
      } else if moved.None? {
        if again { continue; }
        return false;
      } else {
        return false;
      }
    }
    assert buf[..writtenTotal] == buf;
    ok := true;
  }

  lemma WritesOn(buf: seq<byte>, at: nat, n: nat)
    requires at + n <= |buf|
    ensures buf[..at] + buf[at..][..n] == buf[..at + n]
  {
  }

  // ---------------------------------------------------------------- the parent

  method ReadExact(fd: ReadEnd, n: nat) returns (r: Option<seq<byte>>)
    requires fd.Valid()
    modifies fd`pos, fd`schedule
    ensures fd.Valid() && fd.pos >= old(fd.pos)
    ensures r.Some? ==> fd.pos == old(fd.pos) + n && r.value == fd.stream[old(fd.pos)..fd.pos]
    ensures old(Smooth(fd.schedule)) ==> Smooth(fd.schedule) && (r.Some? <==> old(fd.pos) + n <= |fd.stream|)
  {
    hide Smooth;
    var buf: seq<byte> := [];
    var readTotal := 0;
    while readTotal < n
      invariant readTotal <= n && readTotal == |buf| && fd.Valid()
      invariant fd.pos == old(fd.pos) + readTotal && buf == fd.stream[old(fd.pos)..fd.pos]
      invariant old(Smooth(fd.schedule)) ==> Smooth(fd.schedule)
      decreases n - readTotal, |fd.schedule|
    {
      var got, again := fd.Read(n - readTotal);
      if got.Some? && got.value != [] {
        buf := buf + got.value;
        readTotal := readTotal + |got.value|;
      } else if got.Some? {
        return None;
      } else {
        if again { continue; }
        return None;
      }
    }
    r := Some(buf);
  }

  /** Without failing reads the parent concludes what the whole stream says; with them it may end up
      with an error, but it never reports a start that the stream does not hold. */
  method WaitForSignal(fd: ReadEnd) returns (r: Outcome)
    requires fd.pos == 0
    modifies fd`pos, fd`schedule
    ensures old(Smooth(fd.schedule)) ==> r == Decoded(fd.stream)
    ensures r.Started? ==> Decoded(fd.stream).Started?
  {
    hide Smooth, U32At;
    var status := ReadExact(fd, 1);
    if status.None? { return NotStarted(Terminated); }
    if status.value[0] == 0 { return Started; }
    var lenBytes := ReadExact(fd, 4);
    if lenBytes.None? { return NotStarted(Default); }
    U32AtShift(fd.stream, lenBytes.value);
    var len := Min(U32At(lenBytes.value, 0), MAX_ERROR_MSG_LEN);
    if len == 0 { return NotStarted(Default); }
    var text := ReadExact(fd, len);
    if text.None? { return NotStarted(Default); }
    r := NotStarted(Text(text.value));
  }

  lemma U32AtShift(stream: seq<byte>, word: seq<byte>)
    requires |stream| >= 5 && word == stream[1..5]
    ensures U32At(word, 0) == U32At(stream, 1)
  {
  }

  // ---------------------------------------------------------------- both together

  lemma HeaderDecodes(msg: seq<byte>, stream: seq<byte>)
    requires Encoded(Broken(msg))[..5] <= stream
    ensures stream[0] == 1 && U32At(stream, 1) == |Cut(msg)|
  {
    var len := |Cut(msg)|;
    assert Encoded(Broken(msg))[1..5] == Be32(len);
    assert stream[1..5] == Encoded(Broken(msg))[..5][1..5];
    Be32RoundTrip(stream, 1, len);
  }

  /** A delivered message means what was signalled. */
  lemma RoundTrip(s: Signal)
    ensures Decoded(Encoded(s)) == Meaning(s)
  {
    if s.Broken? {
      HeaderDecodes(s.msg, Encoded(s));
      assert Encoded(s)[5..5 + |Cut(s.msg)|] == Cut(s.msg);
    }
  }

  /** Whatever the bytes are: only a zero at the front is a start; after any other status the text is as
      long as announced, 4096 bytes at most, and must have arrived in full. */
  lemma StreamMeans(status: byte, n: nat, payload: seq<byte>)
    requires n < TWO_32
    ensures Decoded([status] + Be32(n) + payload)
      == if status == 0 then Started
         else if n == 0 || |payload| < (if n < 4096 then n else 4096) then NotStarted(Default)
         else NotStarted(Text(payload[..if n < 4096 then n else 4096]))
  {
    var stream := [status] + Be32(n) + payload;
    assert stream[1..5] == Be32(n);
    Be32RoundTrip(stream, 1, n);
    var len := if n < 4096 then n else 4096;
    if len <= |payload| { assert stream[5..5 + len] == payload[..len]; }
  }

  /** Any part of the message short of the whole is never taken for a start, and leaves the parent with
      one of the two standard texts. */
  lemma PartIsNoStart(s: Signal, n: nat)
    requires n < |Encoded(s)|
    ensures Decoded(Encoded(s)[..n]) == NotStarted(if n == 0 then Terminated else Default)
  {
    if s.Broken? && n >= 5 {
      var part := Encoded(s)[..n];
      assert Encoded(s)[..5] == part[..5];
      HeaderDecodes(s.msg, part);
    }
  }

  /** Whatever part of a message arrives: the parent reports a start exactly when the child signalled
      one and all of it arrived. */
  lemma StartedIff(s: Signal, arrived: seq<byte>)
    requires arrived <= Encoded(s)
    ensures Decoded(arrived).Started? <==> s.Ready? && arrived == Encoded(s)
  {
    RoundTrip(s);
    if arrived != Encoded(s) {
      assert arrived == Encoded(s)[..|arrived|];
      PartIsNoStart(s, |arrived|);
    }
  }

  /** Child and parent over one pipe.  If the child dies, `lifetime` bytes reach the pipe before.  A start
      is reported only if it was signalled and delivered; without failing calls the outcome is what was
      signalled, or a standard text when the child died too early. */
  method Handshake(result: Signal, writings: seq<Sys>, lifetime: Option<nat>, readings: seq<Sys>) returns (r: Outcome)
    ensures r.Started? ==> result.Ready? && lifetime != Some(0)
    ensures Smooth(writings) && Smooth(readings) ==>
      r == if lifetime.None? || lifetime.value >= |Encoded(result)| then Meaning(result)
           else NotStarted(if lifetime.value == 0 then Terminated else Default)
  {
    hide Encoded, Decoded, Smooth;
    var child := new WriteEnd(writings);
    var ok := SignalParent(child, result);
    assert ok ==> child.stream == Encoded(result);
    var delivered := if lifetime.Some? then child.stream[..Min(lifetime.value, |child.stream|)] else child.stream;
    assert delivered <= Encoded(result);
    StartedIff(result, delivered);
    RoundTrip(result);
    if |delivered| < |Encoded(result)| {
      assert delivered == Encoded(result)[..|delivered|];
      PartIsNoStart(result, |delivered|);
    } else {
      assert delivered == Encoded(result);
    }
    var parent := new ReadEnd(delivered, readings);
    r := WaitForSignal(parent);
  }

  /** The messages spelled out, and what arrives of a text: all of it up to 4096 bytes, the first 4096 bytes
      of a longer one, and the default text for an empty one. */
  lemma MessagesSpelledOut(msg: seq<byte>)
    ensures Encoded(Ready) == [0] && Encoded(Broken([])) == [1, 0, 0, 0, 0] && Encoded(Broken([65])) == [1, 0, 0, 0, 1, 65]
    ensures Decoded(Encoded(Ready)) == Started && Decoded(Encoded(Broken([]))) == NotStarted(Default)
    ensures 0 < |msg| <= 4096 ==> Decoded(Encoded(Broken(msg))) == NotStarted(Text(msg))
    ensures |msg| > 4096 ==> Decoded(Encoded(Broken(msg))) == NotStarted(Text(msg[..4096]))
  {
    RoundTrip(Ready);
    RoundTrip(Broken([]));
    RoundTrip(Broken(msg));
    assert |msg| <= 4096 ==> Cut(msg) == msg;
  }
}
