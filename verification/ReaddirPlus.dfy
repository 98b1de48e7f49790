/** NFSv3 READDIRPLUS paging (section 3.3.17 of RFC 1813).

    Two truncations are nested: the file system returns at most `dircount / 16` entries after the
    cookie, and the handler commits entries only while two byte budgets last.  The client follows
    the file id of the last entry it received.  The XDR encoder is an opaque function. */
module ReaddirPlus {
  import opened Bytes

  datatype DirEntry = DirEntry(fileid: nat, name: seq<byte>)

  datatype ReadDirResult = ReadDirResult(entries: seq<DirEntry>, end: bool)

  /** The sizes a client sends with one call. */
  datatype PageSize = PageSize(dircount: nat, maxcount: nat)

  datatype Page = Page(entries: seq<DirEntry>, eof: bool)

  /** What the reply says before the first entry, and how an entry is encoded. */
  datatype Codec = Codec(header: seq<byte>, encode: DirEntry -> seq<byte>)

  // ---------------------------------------------------------------- the file system's side

  /** Where a listing resumes: just after the first entry carrying the cookie. */
  ghost function Resume(dir: seq<DirEntry>, cookie: nat): (p: nat)
    ensures p <= |dir|
  {
    if cookie == 0 then 0 else SkipTo(dir, cookie)
  }

  ghost function SkipTo(dir: seq<DirEntry>, cookie: nat): (p: nat)
    ensures p <= |dir|
    ensures (p == |dir| && forall j | 0 <= j < |dir| - 1 :: dir[j].fileid != cookie)
         || (0 < p && dir[p - 1].fileid == cookie && forall j | 0 <= j < p - 1 :: dir[j].fileid != cookie)
  {
    if dir == [] then 0
    else if dir[0].fileid == cookie then 1
    else
      var p := SkipTo(dir[1..], cookie);
      assert forall j | 1 <= j < |dir| :: dir[j] == dir[1..][j - 1];
      1 + p
  }

  lemma SkipToStep(dir: seq<DirEntry>, i: nat, cookie: nat)
    requires i < |dir|
    ensures SkipTo(dir[i..], cookie) == if dir[i].fileid == cookie then 1 else 1 + SkipTo(dir[i + 1..], cookie)
  {
    assert dir[i..][1..] == dir[i + 1..];
  }

  lemma SkipToNothing(dir: seq<DirEntry>, cookie: nat)
    requires dir == []
    ensures SkipTo(dir, cookie) == 0
  {
  }

  /** The entries after the cookie, at most `maxEntries` of them, and whether they are the last. */
  method Readdir(dir: seq<DirEntry>, startAfter: nat, maxEntries: nat) returns (r: ReadDirResult)
    ensures var p := Resume(dir, startAfter);
      && r.entries == dir[p..Min(p + maxEntries, |dir|)]
      && (r.end <==> |dir| - p <= maxEntries)
  {
    hide SkipTo;
    var entries: seq<DirEntry> := [];
    var skip := startAfter > 0;
    var skippedCount := 0;
    var i := 0;
    ghost var p := Resume(dir, startAfter);
    assert dir[0..] == dir;
    while i < |dir|
      invariant 0 <= i <= |dir|
      invariant skip ==> startAfter > 0 && skippedCount == i && entries == [] && p == i + SkipTo(dir[i..], startAfter)
      invariant !skip ==> skippedCount == p && p <= i && entries == dir[p..i] && |entries| <= maxEntries
    {
      if skip {
        SkipToStep(dir, i, startAfter);
        if dir[i].fileid == startAfter {
          skip := false;
        }
        skippedCount := skippedCount + 1;
      } else {
        if |entries| >= maxEntries { break; }
        entries := entries + [dir[i]];
      }
      i := i + 1;
    }
    if skip { SkipToNothing(dir[i..], startAfter); }
    r := ReadDirResult(entries, |entries| + skippedCount >= |dir|);
  }

  // ---------------------------------------------------------------- the handler's side

  /** A writer that counts the bytes it passes on. */
  class WriteCounter {
    var inner: seq<byte>
    var count: nat

    constructor ()
      ensures inner == [] && count == 0
    {
      inner, count := [], 0;
    }

    method Write(buf: seq<byte>)
      modifies this
      ensures inner == old(inner) + buf && count == old(count) + |buf|
    {
      inner := inner + buf;
      count := count + |buf|;
    }
  }

  /** Bytes of file id, name and cookie, as the handler counts them. */
  function DirBytes(e: DirEntry): nat { 8 + (4 + |e.name|) + 8 }

  /** `maxcount - 128` on 64-bit words. */
  function MaxBytes(size: PageSize): nat {
    if size.maxcount >= 128 then size.maxcount - 128 else TWO_64 + size.maxcount - 128
  }

  predicate Fits(c: Codec, size: PageSize, e: DirEntry, written: nat, dirBytes: nat) {
    |c.encode(e)| + written < MaxBytes(size) && DirBytes(e) + dirBytes < size.dircount
  }

  /** How many leading entries the two budgets admit. */
  function Admitted(c: Codec, size: PageSize, entries: seq<DirEntry>, written: nat, dirBytes: nat): (k: nat)
    ensures k <= |entries|
  {
    if entries == [] || !Fits(c, size, entries[0], written, dirBytes) then 0
    else 1 + Admitted(c, size, entries[1..], written + |c.encode(entries[0])|, dirBytes + DirBytes(entries[0]))
  }

  /** The encoded entries of a reply, one after another. */
  ghost function Encoded(c: Codec, entries: seq<DirEntry>): seq<byte> {
    if entries == [] then [] else Encoded(c, entries[..|entries| - 1]) + c.encode(entries[|entries| - 1])
  }

  /** The page a client gets for a cookie and a size. */
  ghost function PageOf(c: Codec, dir: seq<DirEntry>, cookie: nat, size: PageSize): Page {
    var p := Resume(dir, cookie);
    var found := dir[p..Min(p + size.dircount / 16, |dir|)];
    var k := Admitted(c, size, found, |c.header|, 0);
    Page(found[..k], k == |found| && |dir| - p <= size.dircount / 16)
  }

  ghost function Bool32(b: bool): seq<byte> { Be32(if b then 1 else 0) }

  /** Commit entries while both budgets last. */
  method CommitEntries(c: Codec, size: PageSize, entries: seq<DirEntry>, out: WriteCounter) returns (k: nat)
    requires out.inner == c.header && out.count == |c.header|
    modifies out
    ensures k == Admitted(c, size, entries, |c.header|, 0)
    ensures out.inner == c.header + Encoded(c, entries[..k])
  {
    hide Fits;
    var accumulated: nat := 0;
    k := 0;
    ghost var all := Admitted(c, size, entries, |c.header|, 0);
    while k < |entries|
      invariant k <= |entries|
      invariant all == k + Admitted(c, size, entries[k..], out.count, accumulated)
      invariant out.inner == c.header + Encoded(c, entries[..k]) && out.count == |out.inner|
    {
      var entry := entries[k];
      assert entries[k..][1..] == entries[k + 1..];
      if !Fits(c, size, entry, out.count, accumulated) { break; }
      assert entries[..k + 1][..k] == entries[..k];
      out.Write(c.encode(entry));
      accumulated := accumulated + DirBytes(entry);
      k := k + 1;
    }
  }

  /** The handler: the reply carries the header, the page's entries, the end marker and eof. */
  method Nfsproc3ReaddirPlus(c: Codec, dir: seq<DirEntry>, cookie: nat, size: PageSize) returns (page: Page, output: seq<byte>)
    ensures page == PageOf(c, dir, cookie, size)
    ensures output == c.header + Encoded(c, page.entries) + [0, 0, 0, 0] + (if page.eof then [0, 0, 0, 1] else [0, 0, 0, 0])
  {
    hide Resume;
    hide Admitted;
    hide Encoded;
    var result := Readdir(dir, cookie, size.dircount / 16);
    var out := new WriteCounter();
    out.Write(c.header);
    assert out.inner == c.header;
    var ctr := CommitEntries(c, size, result.entries, out);
    out.Write([0, 0, 0, 0]);
    var allEntriesWritten := ctr == |result.entries|;
    page := Page(result.entries[..ctr], allEntriesWritten && result.end);
    out.Write(if page.eof then [0, 0, 0, 1] else [0, 0, 0, 0]);
    output := out.inner;
  }

  // ---------------------------------------------------------------- one page

  /** Bytes of directory information in a run of entries. */
  ghost function DirTotal(entries: seq<DirEntry>): nat {
    if entries == [] then 0 else DirBytes(entries[0]) + DirTotal(entries[1..])
  }

  /** Entry `i` passes both budgets after those before it have been committed. */
  ghost predicate FitsAfter(c: Codec, size: PageSize, entries: seq<DirEntry>, i: nat, written: nat, dirBytes: nat)
    requires i < |entries|
  {
    Fits(c, size, entries[i], written + EncodedSize(c, entries[..i]), dirBytes + DirTotal(entries[..i]))
  }

  lemma FitsAfterFirst(c: Codec, size: PageSize, entries: seq<DirEntry>, i: nat, written: nat, dirBytes: nat)
    requires 0 < i < |entries|
    ensures FitsAfter(c, size, entries, i, written, dirBytes)
      == FitsAfter(c, size, entries[1..], i - 1, written + |c.encode(entries[0])|, dirBytes + DirBytes(entries[0]))
  {
    hide Fits;
    assert entries[..i][1..] == entries[1..][..i - 1];
  }

  /** All admitted entries fit, and the next one does not. */
  lemma {:induction false} AdmittedIsLongest(c: Codec, size: PageSize, entries: seq<DirEntry>, written: nat, dirBytes: nat)
    ensures var k := Admitted(c, size, entries, written, dirBytes);
      && (forall i | 0 <= i < k :: FitsAfter(c, size, entries, i, written, dirBytes))
      && (k < |entries| ==> !FitsAfter(c, size, entries, k, written, dirBytes))
  {
    hide Fits;
    if entries != [] && Fits(c, size, entries[0], written, dirBytes) {
      AdmittedIsLongest(c, size, entries[1..], written + |c.encode(entries[0])|, dirBytes + DirBytes(entries[0]));
      forall i | 0 < i < |entries|
        ensures FitsAfter(c, size, entries, i, written, dirBytes)
          == FitsAfter(c, size, entries[1..], i - 1, written + |c.encode(entries[0])|, dirBytes + DirBytes(entries[0]))
      {
        FitsAfterFirst(c, size, entries, i, written, dirBytes);
      }
    }
  }

  lemma {:induction false} DirTotalLarge(entries: seq<DirEntry>)
    ensures DirTotal(entries) >= 20 * |entries|
  {
    if entries != [] { DirTotalLarge(entries[1..]); }
  }

  ghost function NameBytes(entries: seq<DirEntry>): nat {
    if entries == [] then 0 else |entries[0].name| + NameBytes(entries[1..])
  }

  lemma {:induction false} DirTotalIs(entries: seq<DirEntry>)
    ensures DirTotal(entries) == 20 * |entries| + NameBytes(entries)
  {
    if entries != [] { DirTotalIs(entries[1..]); }
  }

  lemma {:induction false} NameBytesAppend(entries: seq<DirEntry>, e: DirEntry)
    ensures NameBytes(entries + [e]) == NameBytes(entries) + |e.name|
  {
    if entries != [] {
      NameBytesAppend(entries[1..], e);
      assert (entries + [e])[1..] == entries[1..] + [e];
    }
  }

  /** The limits of a reply that carries `run`, in the client's terms: header and entries stay more than 128
      bytes below `maxcount` (taken modulo 2^64 when it is smaller than that), and ids, names and cookies,
      twenty bytes and a name an entry, below `dircount`. */
  ghost predicate WithinLimits(c: Codec, size: PageSize, run: seq<DirEntry>) {
    && |c.header| + EncodedSize(c, run) + 128 < size.maxcount + (if size.maxcount < 128 then TWO_64 else 0)
    && 20 * |run| + NameBytes(run) < size.dircount
  }

  lemma FitsMeans(c: Codec, size: PageSize, entries: seq<DirEntry>, i: nat)
    requires i < |entries|
    ensures FitsAfter(c, size, entries, i, |c.header|, 0) <==> WithinLimits(c, size, entries[..i + 1])
  {
    assert entries[..i + 1] == entries[..i] + [entries[i]];
    SizeAppend(c, entries[..i], entries[i]);
    NameBytesAppend(entries[..i], entries[i]);
    DirTotalIs(entries[..i]);
  }

  lemma FitsInLonger(c: Codec, size: PageSize, entries: seq<DirEntry>, longer: seq<DirEntry>, i: nat, written: nat, dirBytes: nat)
    requires i < |entries| && entries <= longer
    ensures FitsAfter(c, size, longer, i, written, dirBytes) == FitsAfter(c, size, entries, i, written, dirBytes)
  {
    hide Fits;
    assert longer[..i] == entries[..i];
  }

  /** An entry counts twenty bytes at least, so the byte budget is gone before `dircount / 16` entries are. */
  lemma EstimateNeverCuts(c: Codec, size: PageSize, entries: seq<DirEntry>, written: nat)
    requires size.dircount / 16 < |entries|
    ensures !FitsAfter(c, size, entries, size.dircount / 16, written, 0)
  {
    DirTotalLarge(entries[..size.dircount / 16]);
  }

  /** The page is the longest run of entries from the resume point that the two byte budgets admit, the
      estimate of `dircount / 16` never cutting it shorter; and eof is set exactly when that run
      reaches the end of the directory. */
  lemma PageIsNextRun(c: Codec, dir: seq<DirEntry>, cookie: nat, size: PageSize)
    ensures var p, page := Resume(dir, cookie), PageOf(c, dir, cookie, size);
      var rest, n := dir[p..], |page.entries|;
      && p + n <= |dir| && page.entries == dir[p..p + n]
      && (page.eof <==> p + n == |dir|)
      && (forall i | 0 <= i < n :: FitsAfter(c, size, rest, i, |c.header|, 0))
      && (n < |rest| ==> !FitsAfter(c, size, rest, n, |c.header|, 0))
      && (n > 0 ==> WithinLimits(c, size, dir[p..p + n]))
      && (n < |rest| ==> !WithinLimits(c, size, dir[p..p + n + 1]))
  {
    hide Resume, Fits, FitsAfter, Admitted, WithinLimits;
    var p, limit := Resume(dir, cookie), size.dircount / 16;
    var rest := dir[p..];
    var found := dir[p..Min(p + limit, |dir|)];
    assert found <= rest;
    AdmittedIsLongest(c, size, found, |c.header|, 0);
    var k := Admitted(c, size, found, |c.header|, 0);
    assert PageOf(c, dir, cookie, size).entries == found[..k] == dir[p..p + k];
    forall i | 0 <= i < |found| ensures FitsAfter(c, size, rest, i, |c.header|, 0) == FitsAfter(c, size, found, i, |c.header|, 0) {
      FitsInLonger(c, size, found, rest, i, |c.header|, 0);
    }
    if k == |found| < |rest| { EstimateNeverCuts(c, size, rest, |c.header|); }
    if k > 0 { FitsMeans(c, size, rest, k - 1); }
    if k < |rest| { FitsMeans(c, size, rest, k); }
    assert rest[..k] == dir[p..p + k] && (k < |rest| ==> rest[..k + 1] == dir[p..p + k + 1]);
  }

  lemma {:induction false} SkipToFirst(dir: seq<DirEntry>, k: nat, cookie: nat)
    requires k < |dir| && dir[k].fileid == cookie && forall j | 0 <= j < k :: dir[j].fileid != cookie
    ensures SkipTo(dir, cookie) == k + 1
  {
    if k > 0 { SkipToFirst(dir[1..], k - 1, cookie); }
  }

  lemma {:induction false} SkipToAtMost(dir: seq<DirEntry>, k: nat, cookie: nat)
    requires k < |dir| && dir[k].fileid == cookie
    ensures SkipTo(dir, cookie) <= k + 1
  {
    if k > 0 && dir[0].fileid != cookie { SkipToAtMost(dir[1..], k - 1, cookie); }
  }

  /** The last committed entry's cookie resumes just after it exactly when its id is non-zero and no
      earlier entry carries the same id. */
  lemma ResumeIff(dir: seq<DirEntry>, k: nat)
    requires k < |dir|
    ensures Resume(dir, dir[k].fileid) == k + 1
      <==> dir[k].fileid != 0 && forall j | 0 <= j < k :: dir[j].fileid != dir[k].fileid
  {
    var cookie := dir[k].fileid;
    if forall j | 0 <= j < k :: dir[j].fileid != cookie {
      SkipToFirst(dir, k, cookie);
    } else {
      var j :| 0 <= j < k && dir[j].fileid == cookie;
      SkipToAtMost(dir, j, cookie);
    }
  }

  lemma {:induction false} AdmittedBytes(c: Codec, size: PageSize, entries: seq<DirEntry>, written: nat, dirBytes: nat)
    ensures var k := Admitted(c, size, entries, written, dirBytes);
      k > 0 ==> written + EncodedSize(c, entries[..k]) < MaxBytes(size)
  {
    if entries != [] && Fits(c, size, entries[0], written, dirBytes) {
      AdmittedBytes(c, size, entries[1..], written + |c.encode(entries[0])|, dirBytes + DirBytes(entries[0]));
      var k := Admitted(c, size, entries, written, dirBytes);
      assert entries[..k][1..] == entries[1..][..k - 1];
    }
  }

  ghost function EncodedSize(c: Codec, entries: seq<DirEntry>): nat {
    if entries == [] then 0 else |c.encode(entries[0])| + EncodedSize(c, entries[1..])
  }

  lemma {:induction false} EncodedLength(c: Codec, entries: seq<DirEntry>)
    ensures |Encoded(c, entries)| == EncodedSize(c, entries)
  {
    if entries != [] {
      var n := |entries| - 1;
      EncodedLength(c, entries[..n]);
      SizeAppend(c, entries[..n], entries[n]);
      assert entries == entries[..n] + [entries[n]];
    }
  }

  lemma {:induction false} SizeAppend(c: Codec, entries: seq<DirEntry>, e: DirEntry)
    ensures EncodedSize(c, entries + [e]) == EncodedSize(c, entries) + |c.encode(e)|
  {
    if entries != [] {
      SizeAppend(c, entries[1..], e);
      assert (entries + [e])[1..] == entries[1..] + [e];
    }
  }

  /** The entries of a reply come one after another. */
  lemma {:induction false} EncodedJoins(c: Codec, a: seq<DirEntry>, b: seq<DirEntry>, e: DirEntry)
    ensures Encoded(c, a + b) == Encoded(c, a) + Encoded(c, b) && Encoded(c, [e]) == c.encode(e)
    decreases |b|
  {
    assert [e][..0] == [];
    if b == [] {
      assert a + b == a;
    } else {
      var n := |b| - 1;
      EncodedJoins(c, a, b[..n], e);
      assert (a + b)[..|a + b| - 1] == a + b[..n];
    }
  }

  /** With `maxcount >= 128`, a reply that carries an entry stays more than 120 bytes below `maxcount`. */
  lemma ReplyWithinMaxcount(c: Codec, dir: seq<DirEntry>, cookie: nat, size: PageSize)
    requires size.maxcount >= 128
    ensures var page := PageOf(c, dir, cookie, size);
      page.entries != [] ==>
        |c.header + Encoded(c, page.entries) + Bool32(false) + Bool32(page.eof)| < size.maxcount - 120
  {
    var p := Resume(dir, cookie);
    var found := dir[p..Min(p + size.dircount / 16, |dir|)];
    AdmittedBytes(c, size, found, |c.header|, 0);
    EncodedLength(c, PageOf(c, dir, cookie, size).entries);
  }

  // ---------------------------------------------------------------- the whole walk

  datatype Walked = Walked(listed: seq<DirEntry>, done: bool)

  /** A client that follows cookies, choosing new sizes for every call, until it sees eof. */
  ghost function Walk(c: Codec, dir: seq<DirEntry>, sizes: seq<PageSize>, cookie: nat): Walked {
    if sizes == [] then Walked([], false)
    else
      var page := PageOf(c, dir, cookie, sizes[0]);
      if page.eof then Walked(page.entries, true)
      else
        var rest := Walk(c, dir, sizes[1..], NextCookie(page, cookie));
        Walked(page.entries + rest.listed, rest.done)
  }

  /** Every entry but the last has a cookie that resumes just after it: its id is not zero and no earlier
      entry carries it. */
  ghost predicate Followable(dir: seq<DirEntry>) {
    forall k | 0 <= k < |dir| - 1 :: dir[k].fileid != 0 && forall j | 0 <= j < k :: dir[j].fileid != dir[k].fileid
  }

  ghost function NextCookie(page: Page, cookie: nat): nat {
    if page.entries == [] then cookie else page.entries[|page.entries| - 1].fileid
  }

  /** The cookie of the last entry of a page without eof resumes where the page ended. */
  lemma NextPageContinues(c: Codec, dir: seq<DirEntry>, cookie: nat, size: PageSize)
    requires Followable(dir) && !PageOf(c, dir, cookie, size).eof
    ensures var page := PageOf(c, dir, cookie, size);
      Resume(dir, NextCookie(page, cookie)) == Resume(dir, cookie) + |page.entries|
  {
    hide PageOf, Resume, FitsAfter;
    PageIsNextRun(c, dir, cookie, size);
    var p, page := Resume(dir, cookie), PageOf(c, dir, cookie, size);
    if page.entries != [] {
      ResumeIff(dir, p + |page.entries| - 1);
    }
  }

  /** From a cookie that resumes at `p`, the walk lists a run of the directory starting at `p`, and
      reports eof exactly when that run reaches the end. */
  lemma {:induction false} WalkFrom(c: Codec, dir: seq<DirEntry>, sizes: seq<PageSize>, cookie: nat)
    requires Followable(dir)
    ensures var p, w := Resume(dir, cookie), Walk(c, dir, sizes, cookie);
      && p + |w.listed| <= |dir| && w.listed == dir[p..p + |w.listed|]
      && (sizes != [] ==> (w.done <==> p + |w.listed| == |dir|))
    decreases |sizes|
  {
    hide PageOf, Resume, Followable, NextCookie, FitsAfter;
    if sizes != [] {
      var p, page := Resume(dir, cookie), PageOf(c, dir, cookie, sizes[0]);
      PageIsNextRun(c, dir, cookie, sizes[0]);
      if !page.eof {
        NextPageContinues(c, dir, cookie, sizes[0]);
        var q, next := p + |page.entries|, NextCookie(page, cookie);
        WalkFrom(c, dir, sizes[1..], next);
        var rest := Walk(c, dir, sizes[1..], next);
        assert dir[p..q] + dir[q..q + |rest.listed|] == dir[p..q + |rest.listed|];
      }
    }
  }

  /** Each page of the walk before eof commits an entry. */
  ghost predicate EachPageCommits(c: Codec, dir: seq<DirEntry>, sizes: seq<PageSize>, cookie: nat)
    decreases |sizes|
  {
    sizes == [] ||
    var page := PageOf(c, dir, cookie, sizes[0]);
    page.eof || (page.entries != [] && EachPageCommits(c, dir, sizes[1..], NextCookie(page, cookie)))
  }

  /** A walk whose pages each commit an entry reaches the end within as many calls as entries remain. */
  lemma {:induction false} WalkReachesEnd(c: Codec, dir: seq<DirEntry>, sizes: seq<PageSize>, cookie: nat)
    requires Followable(dir) && sizes != []
    requires |dir| - Resume(dir, cookie) <= |sizes| && EachPageCommits(c, dir, sizes, cookie)
    ensures Walk(c, dir, sizes, cookie).done
    decreases |sizes|
  {
    hide PageOf, Resume, Followable, FitsAfter;
    PageIsNextRun(c, dir, cookie, sizes[0]);
    var page := PageOf(c, dir, cookie, sizes[0]);
    if !page.eof {
      NextPageContinues(c, dir, cookie, sizes[0]);
      WalkReachesEnd(c, dir, sizes[1..], NextCookie(page, cookie));
    }
  }

  /** In order, without repeats, and eof exactly with the last entry. */
  ghost predicate ListsInOrder(dir: seq<DirEntry>, w: Walked) {
    w.listed <= dir && (w.done <==> w.listed == dir)
  }

  /** Following cookies from the start lists a prefix of the directory, in order and without repeats;
      eof is seen exactly when the prefix is everything; and pages that each commit an entry reach it
      within as many calls as there are entries. */
  lemma WalkListsDirectory(c: Codec, dir: seq<DirEntry>, sizes: seq<PageSize>)
    requires Followable(dir)
    ensures var w := Walk(c, dir, sizes, 0);
      && w.listed <= dir && (sizes != [] ==> ListsInOrder(dir, w))
      && (sizes != [] && |dir| <= |sizes| && EachPageCommits(c, dir, sizes, 0) ==> w.listed == dir && w.done)
  {
    WalkFrom(c, dir, sizes, 0);
    if sizes != [] && |dir| <= |sizes| && EachPageCommits(c, dir, sizes, 0) {
      WalkReachesEnd(c, dir, sizes, 0);
    }
  }

  // ---------------------------------------------------------------- which directories can be listed

  /** Sizes that just hold these entries. */
  ghost function SizeFor(c: Codec, entries: seq<DirEntry>): PageSize {
    PageSize(DirTotal(entries) + 1, 128 + |c.header| + EncodedSize(c, entries) + 1)
  }

  /** Budgets that just hold `k` entries admit exactly these. */
  lemma {:induction false} AdmitsFirst(c: Codec, size: PageSize, entries: seq<DirEntry>, k: nat, written: nat, dirBytes: nat)
    requires k <= |entries| && size.maxcount >= 128
    requires written + EncodedSize(c, entries[..k]) + 128 < size.maxcount && dirBytes + DirTotal(entries[..k]) + 1 == size.dircount
    ensures Admitted(c, size, entries, written, dirBytes) == k
    decreases k
  {
    if k > 0 {
      assert entries[..k][1..] == entries[1..][..k - 1];
      AdmitsFirst(c, size, entries[1..], k - 1, written + |c.encode(entries[0])|, dirBytes + DirBytes(entries[0]));
    } else {
      assert entries[..k] == [];
    }
  }

  /** A page of `n` entries from wherever a cookie resumes. */
  lemma PageFor(c: Codec, dir: seq<DirEntry>, cookie: nat, n: nat)
    requires Resume(dir, cookie) + n <= |dir|
    ensures var p := Resume(dir, cookie);
      var page := PageOf(c, dir, cookie, SizeFor(c, dir[p..p + n]));
      page.entries == dir[p..p + n] && (page.eof <==> p + n == |dir|)
  {
    var p := Resume(dir, cookie);
    hide Resume, Fits, Admitted, FitsAfter;
    var size := SizeFor(c, dir[p..p + n]);
    PageIsNextRun(c, dir, cookie, size);
    DirTotalLarge(dir[p..p + n]);
    var found := dir[p..Min(p + size.dircount / 16, |dir|)];
    assert found[..n] == dir[p..p + n];
    AdmitsFirst(c, size, found, n, |c.header|, 0);
    assert PageOf(c, dir, cookie, size).entries == found[..n];
  }

  /** With an entry that cannot be followed, a page that ends at it and then one to the end list more than
      the directory holds. */
  lemma BadCookieRepeats(c: Codec, dir: seq<DirEntry>, k: nat) returns (sizes: seq<PageSize>)
    requires k < |dir| - 1 && (dir[k].fileid == 0 || exists j | 0 <= j < k :: dir[j].fileid == dir[k].fileid)
    ensures |sizes| == 2
    ensures var p := Resume(dir, dir[k].fileid);
      p <= k && Walk(c, dir, sizes, 0) == Walked(dir[..k + 1] + dir[p..], true)
  {
    hide PageOf, Resume;
    var p := Resume(dir, dir[k].fileid);
    assert p <= k by { ResumesBefore(dir, k); }
    assert Resume(dir, 0) == 0 by { ResumesAtStart(dir); }
    assert dir[0..k + 1] == dir[..k + 1];
    PageFor(c, dir, 0, k + 1);
    PageFor(c, dir, dir[k].fileid, |dir| - p);
    assert dir[p..p + (|dir| - p)] == dir[p..];
    sizes := [SizeFor(c, dir[..k + 1]), SizeFor(c, dir[p..])];
    assert sizes[1..] == [sizes[1]];
    var page := PageOf(c, dir, 0, sizes[0]);
    assert page.entries[|page.entries| - 1] == dir[k];
    assert Walk(c, dir, sizes[1..], dir[k].fileid) == Walked(dir[p..], true);
  }

  lemma ResumesAtStart(dir: seq<DirEntry>)
    ensures Resume(dir, 0) == 0
  {
  }

  lemma ResumesBefore(dir: seq<DirEntry>, k: nat)
    requires k < |dir| && (dir[k].fileid == 0 || exists j | 0 <= j < k :: dir[j].fileid == dir[k].fileid)
    ensures Resume(dir, dir[k].fileid) <= k
  {
    if dir[k].fileid != 0 {
      var j :| 0 <= j < k && dir[j].fileid == dir[k].fileid;
      SkipToAtMost(dir, j, dir[k].fileid);
    }
  }

  /** For every encoding: a client that follows cookies lists the directory in order and without repeats,
      whatever page sizes it chooses, exactly when every entry but the last can be followed. */
  lemma ListsInOrderIff(c: Codec, dir: seq<DirEntry>)
    ensures (forall sizes | sizes != [] :: ListsInOrder(dir, Walk(c, dir, sizes, 0))) <==> Followable(dir)
  {
    hide Walk, Resume;
    if Followable(dir) {
      forall sizes | sizes != [] ensures ListsInOrder(dir, Walk(c, dir, sizes, 0)) { WalkListsDirectory(c, dir, sizes); }
    } else {
      var k :| 0 <= k < |dir| - 1 && !(dir[k].fileid != 0 && forall j | 0 <= j < k :: dir[j].fileid != dir[k].fileid);
      var sizes := BadCookieRepeats(c, dir, k);
      var listed := Walk(c, dir, sizes, 0).listed;
      assert |listed| > |dir|;
      assert !ListsInOrder(dir, Walk(c, dir, sizes, 0));
    }
  }

  /** Two names for one file, the second of them in the middle: after a page that ends with it, the
      listing goes on behind the first name. */
  lemma HardLinkRepeats(c: Codec) returns (sizes: seq<PageSize>)
    ensures var a, b, d, e := DirEntry(7, [97]), DirEntry(8, [98]), DirEntry(7, [99]), DirEntry(9, [100]);
      Walk(c, [a, b, d, e], sizes, 0) == Walked([a, b, d] + [b, d, e], true)
  {
    hide Walk;
    var dir := [DirEntry(7, [97]), DirEntry(8, [98]), DirEntry(7, [99]), DirEntry(9, [100])];
    assert dir[0].fileid == dir[2].fileid;
    ResumeIff(dir, 0);
    sizes := BadCookieRepeats(c, dir, 2);
    assert dir[..3] == dir[0..3] && dir[1..] == [dir[1], dir[2], dir[3]] && dir[..3] == [dir[0], dir[1], dir[2]];
  }
}
