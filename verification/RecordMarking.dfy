/** Record marking over a byte stream (section 11 of RFC 5531): a record is one or more fragments, each
    a four-byte header, whose top bit marks the last fragment, followed by the fragment's data. */
module RecordMarking {
  import opened Bytes

  const TWO_31 := 0x8000_0000

  // ---------------------------------------------------------------- the format

  type Fragment = f: seq<byte> | |f| < TWO_31

  function EncodeFragment(data: Fragment, last: bool): seq<byte> {
    Be32(|data| + if last then TWO_31 else 0) + data
  }

  /** A record split into fragments: all but the final one are marked as continued. */
  ghost function EncodeRecord(fragments: seq<Fragment>): seq<byte>
    requires fragments != []
  {
    if |fragments| == 1 then EncodeFragment(fragments[0], true)
    else EncodeFragment(fragments[0], false) + EncodeRecord(fragments[1..])
  }

  ghost function Joined(fragments: seq<Fragment>): seq<byte> {
    if fragments == [] then [] else fragments[0] + Joined(fragments[1..])
  }

  ghost predicate NoEmptyRecord(records: seq<seq<Fragment>>) {
    forall i | 0 <= i < |records| :: records[i] != []
  }

  ghost function EncodeStream(records: seq<seq<Fragment>>): seq<byte>
    requires NoEmptyRecord(records)
  {
    if records == [] then [] else EncodeRecord(records[0]) + EncodeStream(records[1..])
  }

  ghost function Messages(records: seq<seq<Fragment>>): seq<seq<byte>> {
    if records == [] then [] else [Joined(records[0])] + Messages(records[1..])
  }

  // ---------------------------------------------------------------- the reader

  /** What one read leaves behind: the rest of the stream, the record so far, a record if complete. */
  datatype Reading = Reading(rest: seq<byte>, cur: seq<byte>, message: Option<seq<byte>>)

  /** One fragment, if the stream still holds all of it. */
  function ReadOne(input: seq<byte>, cur: seq<byte>): (r: Option<Reading>)
    ensures r.Some? ==> |r.value.rest| < |input|
  {
    if |input| < 4 then None
    else
      var header := U32At(input, 0);
      var isLast, length := header / TWO_31 > 0, header % TWO_31;
      if |input| < 4 + length then None
      else
        var cur' := cur + input[4..4 + length];
        Some(if isLast then Reading(input[4 + length..], [], Some(cur')) else Reading(input[4 + length..], cur', None))
  }

  /** The messages delivered by reading until the stream ends. */
  function ReadAll(input: seq<byte>, cur: seq<byte>): seq<seq<byte>>
    decreases |input|
  {
    match ReadOne(input, cur)
    case None => []
    case Some(r) => (if r.message.Some? then [r.message.value] else []) + ReadAll(r.rest, r.cur)
  }

  class SocketMessageHandler {
    var curFragment: seq<byte>
    /** What the socket has still to deliver before it closes. */
    var input: seq<byte>
    /** The messages handed to tasks so far. */
    var spawned: seq<seq<byte>>

    constructor (input: seq<byte>)
      ensures curFragment == [] && this.input == input && spawned == []
    {
      curFragment, this.input, spawned := [], input, [];
    }

    /** Read exactly `n` bytes, or fail if the stream ends first. */
    method ReadExact(n: nat) returns (r: Option<seq<byte>>)
      modifies this`input
      ensures r.Some? <==> n <= |old(input)|
      ensures r.Some? ==> r.value == old(input)[..n] && input == old(input)[n..]
    {
      if n > |input| { return None; }
      r := Some(input[..n]);
      input := input[n..];
    }

    /** Read one fragment; a completed record is taken and handed on. */
    method Read() returns (ok: bool)
      modifies this
      ensures ok <==> ReadOne(old(input), old(curFragment)).Some?
      ensures ok ==>
        var r := ReadOne(old(input), old(curFragment)).value;
        && input == r.rest && curFragment == r.cur
        && spawned == old(spawned) + if r.message.Some? then [r.message.value] else []
      ensures !ok ==> spawned == old(spawned)
    {
      var header := ReadExact(4);
      if header.None? { return false; }
      assert U32At(header.value, 0) == U32At(old(input), 0);
      var h := U32At(header.value, 0);
      var isLast, length := h / TWO_31 > 0, h % TWO_31;
      var data := ReadExact(length);
      if data.None? { return false; }
      assert data.value == old(input)[4..4 + length];
      assert input == old(input)[4 + length..];
      curFragment := curFragment + data.value;
      if isLast {
        var fragment := curFragment;
        curFragment := [];
        spawned := spawned + [fragment];
      }
      ok := true;
    }

    /** Read until the stream ends. */
    method ReadLoop()
      modifies this
      ensures spawned == old(spawned) + ReadAll(old(input), old(curFragment))
    {
      hide ReadOne, ReadAll;
      var ok := true;
      while ok
        invariant ok ==> spawned + ReadAll(input, curFragment) == old(spawned) + ReadAll(old(input), old(curFragment))
        invariant !ok ==> spawned == old(spawned) + ReadAll(old(input), old(curFragment))
        decreases ok, |input|
      {
        ReadAllStep(input, curFragment);
        ok := Read();
      }
    }
  }

  lemma ReadAllStep(input: seq<byte>, cur: seq<byte>)
    ensures ReadAll(input, cur) == match ReadOne(input, cur)
      case None => []
      case Some(r) => (if r.message.Some? then [r.message.value] else []) + ReadAll(r.rest, r.cur)
  {
  }

  /** The writer: one record in one fragment; a longer buffer is refused. */
  method WriteFragment(buf: seq<byte>) returns (r: Option<seq<byte>>)
    ensures r.None? <==> |buf| >= TWO_31
    ensures r.Some? ==> r.value == EncodeFragment(buf, true) && ReadAll(r.value, []) == [buf]
  {
    if |buf| >= TWO_31 { return None; }
    var fragmentHeader := |buf| + TWO_31;
    r := Some(Be32(fragmentHeader) + buf);
    ReadOneUndoes(buf, true, [], []);
    assert EncodeFragment(buf, true) + [] == r.value && [] + buf == buf;
    assert ReadOne(r.value, []) == Some(Reading([], [], Some(buf)));
  }

  // ---------------------------------------------------------------- the reader undoes the format

  lemma ReadOneUndoes(data: Fragment, last: bool, rest: seq<byte>, cur: seq<byte>)
    ensures ReadOne(EncodeFragment(data, last) + rest, cur)
      == Some(if last then Reading(rest, [], Some(cur + data)) else Reading(rest, cur + data, None))
  {
    var header := |data| + if last then TWO_31 else 0;
    var input := EncodeFragment(data, last) + rest;
    assert input[0..4] == Be32(header);
    Be32RoundTrip(input, 0, header);
    assert input[4..4 + |data|] == data && input[4 + |data|..] == rest;
  }

  lemma {:induction false} ReadsRecord(fragments: seq<Fragment>, rest: seq<byte>, cur: seq<byte>)
    requires fragments != []
    ensures ReadAll(EncodeRecord(fragments) + rest, cur) == [cur + Joined(fragments)] + ReadAll(rest, [])
    decreases |fragments|
  {
    hide EncodeFragment;
    hide ReadOne;
    var data := fragments[0];
    if |fragments| == 1 {
      ReadOneUndoes(data, true, rest, cur);
      assert Joined(fragments) == data + [] == data;
    } else {
      var tail := EncodeRecord(fragments[1..]);
      ReadOneUndoes(data, false, tail + rest, cur);
      assert EncodeRecord(fragments) + rest == EncodeFragment(data, false) + (tail + rest);
      ReadsRecord(fragments[1..], rest, cur + data);
      assert cur + data + Joined(fragments[1..]) == cur + Joined(fragments);
    }
  }

  /** For any messages, however split into fragments, repeated reads deliver exactly those messages in
      order, and then go on with whatever follows. */
  lemma {:induction false} ReadsStream(records: seq<seq<Fragment>>, rest: seq<byte>)
    requires NoEmptyRecord(records)
    ensures ReadAll(EncodeStream(records) + rest, []) == Messages(records) + ReadAll(rest, [])
    decreases |records|
  {
    hide EncodeRecord, Joined, ReadOne;
    if records == [] {
      assert EncodeStream(records) + rest == rest;
    } else {
      var tail := EncodeStream(records[1..]);
      assert EncodeStream(records) + rest == EncodeRecord(records[0]) + (tail + rest);
      ReadsRecord(records[0], tail + rest, []);
      ReadsStream(records[1..], rest);
      assert [] + Joined(records[0]) == Joined(records[0]);
    }
  }

  lemma ReadOneOfCut(input: seq<byte>, n: nat, cur: seq<byte>)
    requires n <= |input|
    ensures var r, whole := ReadOne(input[..n], cur), ReadOne(input, cur);
      r.Some? ==>
        && whole.Some? && r.value.cur == whole.value.cur && r.value.message == whole.value.message
        && |r.value.rest| <= |whole.value.rest| && r.value.rest == whole.value.rest[..|r.value.rest|]
  {
    var cut := input[..n];
    if ReadOne(cut, cur).Some? {
      assert U32At(cut, 0) == U32At(input, 0);
      var m := 4 + U32At(input, 0) % TWO_31;
      assert cut[4..m] == input[4..m];
      assert cut[m..] == input[m..][..n - m];
    }
  }

  /** A stream cut short delivers a prefix of what the whole stream delivers: never part of a message. */
  lemma {:induction false} CutStreamReadsPrefix(input: seq<byte>, n: nat, cur: seq<byte>)
    requires n <= |input|
    ensures ReadAll(input[..n], cur) <= ReadAll(input, cur)
    decreases n
  {
    hide ReadOne;
    ReadOneOfCut(input, n, cur);
    var r := ReadOne(input[..n], cur);
    if r.Some? {
      CutStreamReadsPrefix(ReadOne(input, cur).value.rest, |r.value.rest|, r.value.cur);
    }
  }

  /** Both together: of a stream of records cut anywhere, a prefix of the messages arrives, and all of
      them if the cut is at the end. */
  lemma CutRecordsDeliverPrefix(records: seq<seq<Fragment>>, n: nat)
    requires NoEmptyRecord(records) && n <= |EncodeStream(records)|
    ensures ReadAll(EncodeStream(records)[..n], []) <= Messages(records)
    ensures n == |EncodeStream(records)| ==> ReadAll(EncodeStream(records)[..n], []) == Messages(records)
  {
    var input := EncodeStream(records);
    ReadsStream(records, []);
    assert input + [] == input;
    assert ReadAll(input, []) == Messages(records) + [] == Messages(records);
    CutStreamReadsPrefix(input, n, []);
    if n == |input| { assert input[..n] == input; }
  }

  /** A record of one byte, and a fragment of one byte that is not the last, spelled out. */
  lemma FragmentSpelledOut()
    ensures EncodeFragment([7], true) == [0x80, 0, 0, 1, 7] && EncodeFragment([7], false) == [0, 0, 0, 1, 7]
  {
  }
}
