/** FUSE directory listing: `readdir` and `readdirplus` each fill one reply buffer from a given offset,
    and the kernel pages through a directory by resuming from an offset it was given.  Inode numbers
    pass through a mapping that shows the mounted root as inode 1. */
module FuseReaddir {
  import opened Bytes

  const TWO_63 := 0x8000_0000_0000_0000

  type Kernel = x: int | 0 <= x < TWO_64
  type Db = x: int | -TWO_63 <= x < TWO_63

  type Name = seq<byte>

  const DOT: Name := [46]
  const DOTDOT: Name := [46, 46]

  const READDIR_HEADER := 24
  const READDIRPLUS_HEADER := 152

  /** A row of the directory: its name and its inode in the database. */
  datatype Row = Row(name: Name, ino: Db)

  /** An entry as the kernel gets it; `off` is where to resume after it. */
  datatype Entry = Entry(ino: Kernel, off: nat, name: Name)

  // ---------------------------------------------------------------- inode numbers

  function AsI64(k: Kernel): Db { if k < TWO_63 then k else k - TWO_64 }

  function AsU64(d: Db): Kernel { if d < 0 then d + TWO_64 else d }

  function KernelToDb(root: Db, k: Kernel): Db { if k == 1 then root else AsI64(k) }

  function DbToKernel(root: Db, d: Db): Kernel { if d == root then 1 else AsU64(d) }

  /** A listed inode leads back to its database inode unless it is inode 1 under another root. */
  lemma DbRoundTripIff(root: Db, d: Db)
    ensures KernelToDb(root, DbToKernel(root, d)) == d <==> !(d == 1 && root != 1)
  {
  }

  /** A kernel inode survives the way to the database and back unless it is the number of a root other
      than 1, which no listing hands out. */
  lemma KernelRoundTripIff(root: Db, k: Kernel)
    ensures DbToKernel(root, KernelToDb(root, k)) == k <==> !(k == AsU64(root) && root != 1)
    ensures k == AsU64(root) && root != 1 ==> forall d: Db :: DbToKernel(root, d) != k
  {
  }

  // ---------------------------------------------------------------- what a page holds

  /** An entry takes the fewest whole 64-bit words that hold its header and name. */
  function EntSize(header: nat, name: Name): (size: nat)
    ensures size % 8 == 0 && header + |name| <= size < header + |name| + 8
  {
    (header + |name| + 7) / 8 * 8
  }

  /** A name of eight bytes fills the fourth word of a listing, and the twentieth with its attributes; a
      ninth byte takes a word more. */
  lemma EntrySizesSpelledOut(name: Name)
    ensures |name| == 8 ==> EntSize(READDIR_HEADER, name) == 32 && EntSize(READDIRPLUS_HEADER, name) == 160
    ensures |name| == 9 ==> EntSize(READDIR_HEADER, name) == 40 && EntSize(READDIRPLUS_HEADER, name) == 168
  {
  }

  /** The longest run from the front that fits into `room` bytes. */
  function Fill(header: nat, room: nat, list: seq<Entry>): (page: seq<Entry>)
    ensures page <= list
  {
    if list == [] || EntSize(header, list[0].name) > room then []
    else [list[0]] + Fill(header, room - EntSize(header, list[0].name), list[1..])
  }

  /** The entries of the rows, the first of which resumes at `off`. */
  function Listed(root: Db, rows: seq<Row>, off: nat): (list: seq<Entry>)
    ensures |list| == |rows|
    ensures forall i | 0 <= i < |rows| :: list[i] == Entry(DbToKernel(root, rows[i].ino), off + i, rows[i].name)
  {
    seq(|rows|, i requires 0 <= i < |rows| => Entry(DbToKernel(root, rows[i].ino), off + i, rows[i].name))
  }

  /** Entries are numbered from 1, so an entry's `off` is the position after it. */
  ghost predicate Numbered(list: seq<Entry>) { forall i | 0 <= i < |list| :: list[i].off == i + 1 }

  /** The whole directory: ".", "..", then its rows. */
  function WholeDir(root: Db, ino: Kernel, rows: seq<Row>): (list: seq<Entry>)
    ensures Numbered(list)
  {
    [Entry(ino, 1, DOT), Entry(1, 2, DOTDOT)] + Listed(root, rows, 3)
  }

  /** `readdirplus` shows "." and ".." only with attributes, and takes inode numbers from those. */
  function DotEntries(root: Db, dir: Option<Db>, parent: Option<Db>): seq<Entry> {
    (if dir.Some? then [Entry(DbToKernel(root, dir.value), 1, DOT)] else [])
    + (if parent.Some? then [Entry(DbToKernel(root, parent.value), 2, DOTDOT)] else [])
  }

  function WholeDirPlus(root: Db, dir: Option<Db>, parent: Option<Db>, rows: seq<Row>): seq<Entry> {
    DotEntries(root, dir, parent) + Listed(root, rows, 3)
  }

  /** What comes after `offset`. */
  function Beyond(list: seq<Entry>, offset: int): seq<Entry> {
    if list == [] then []
    else (if list[0].off > offset then [list[0]] else []) + Beyond(list[1..], offset)
  }

  lemma FillStep(header: nat, room: nat, e: Entry, rest: seq<Entry>)
    ensures var size := EntSize(header, e.name);
      Fill(header, room, [e] + rest) == if size > room then [] else [e] + Fill(header, room - size, rest)
  {
    assert ([e] + rest)[1..] == rest;
  }

  lemma BeyondStep(e: Entry, rest: seq<Entry>, offset: int)
    ensures Beyond([e] + rest, offset) == if e.off > offset then [e] + Beyond(rest, offset) else Beyond(rest, offset)
  {
    assert ([e] + rest)[1..] == rest;
  }

  // ---------------------------------------------------------------- the reply buffer

  class EntListBuf {
    const maxSize: nat
    const header: nat
    var len: nat
    var entries: seq<Entry>

    constructor (maxSize: nat, header: nat)
      ensures this.maxSize == maxSize && this.header == header && len == 0 && entries == []
      ensures forall list :: With(list) == Fill(header, maxSize, list)
    {
      this.maxSize, this.header, len, entries := maxSize, header, 0, [];
    }

    /** What the buffer will hold when it is offered `list` until it is full. */
    ghost function With(list: seq<Entry>): seq<Entry>
      requires len <= maxSize
      reads this
    {
      entries + Fill(header, maxSize - len, list)
    }

    lemma WithNothing()
      requires len <= maxSize
      ensures With([]) == entries
    {
    }

    /** Returns true, without adding, when the entry does not fit; `rest` is what would follow it. */
    method Push(e: Entry, ghost rest: seq<Entry>) returns (full: bool)
      requires len <= maxSize
      modifies this`len, this`entries
      ensures len <= maxSize
      ensures old(With([e] + rest)) == if full then entries else With(rest)
    {
      hide Fill, EntSize;
      FillStep(header, maxSize - len, e, rest);
      var size := EntSize(header, e.name);
      if len + size > maxSize { return true; }
      entries := entries + [e];
      len := len + size;
      full := false;
    }
  }

  // ---------------------------------------------------------------- the two calls

  function AsUsize(offset: int): nat
    requires -TWO_63 <= offset < TWO_63
  {
    if offset < 0 then offset + TWO_64 else offset
  }

  method Readdir(root: Db, ino: Kernel, rows: seq<Row>, offset: int, size: nat) returns (page: seq<Entry>)
    requires -TWO_63 <= offset < TWO_63
    ensures var all := WholeDir(root, ino, rows);
      page == if AsUsize(offset) < |all| then Fill(READDIR_HEADER, size, all[AsUsize(offset)..]) else []
  {
    hide Fill, WholeDir, EntListBuf.With;
    var reply := new EntListBuf(size, READDIR_HEADER);
    var all := WholeDir(root, ino, rows);
    var i := AsUsize(offset);
    if i >= |all| { return []; }
    ghost var goal := Fill(READDIR_HEADER, size, all[i..]);
    while i < |all|
      invariant i <= |all| && reply.len <= reply.maxSize
      invariant reply.With(all[i..]) == goal
    {
      assert all[i..] == [all[i]] + all[i + 1..];
      var full := reply.Push(all[i], all[i + 1..]);
      if full { return reply.entries; }
      i := i + 1;
    }
    assert all[i..] == [];
    reply.WithNothing();
    page := reply.entries;
  }

  /** `dir` and `parent` are the inodes of the attributes that were found for "." and "..". */
  method Readdirplus(root: Db, rows: seq<Row>, dir: Option<Db>, parent: Option<Db>, offset: int, size: nat) returns (page: seq<Entry>)
    ensures page == Fill(READDIRPLUS_HEADER, size, Beyond(WholeDirPlus(root, dir, parent, rows), offset))
  {
    hide Fill, Beyond, Listed, EntListBuf.With, DbToKernel;
    var reply := new EntListBuf(size, READDIRPLUS_HEADER);
    ghost var fromRows := Listed(root, rows, 3);
    ghost var fromDotDot := (if parent.Some? then [Entry(DbToKernel(root, parent.value), 2, DOTDOT)] else []) + fromRows;
    ghost var all := WholeDirPlus(root, dir, parent, rows);
    ghost var goal := Fill(READDIRPLUS_HEADER, size, Beyond(all, offset));
    var offsetCounter := 0;
    assert reply.With(Beyond(all, offset)) == goal;
    assert dir.None? ==> all == fromDotDot;
    if dir.Some? {
      var dot := Entry(DbToKernel(root, dir.value), 1, DOT);
      assert all == [dot] + fromDotDot;
      BeyondStep(dot, fromDotDot, offset);
      if offset <= offsetCounter {
        var full := reply.Push(dot, Beyond(fromDotDot, offset));
        if full { return reply.entries; }
      }
    }
    offsetCounter := offsetCounter + 1;
    assert reply.With(Beyond(fromDotDot, offset)) == goal;
    assert parent.None? ==> fromDotDot == fromRows;
    if parent.Some? {
      var dotdot := Entry(DbToKernel(root, parent.value), 2, DOTDOT);
      BeyondStep(dotdot, fromRows, offset);
      if offset <= offsetCounter {
        var full := reply.Push(dotdot, Beyond(fromRows, offset));
        if full { return reply.entries; }
      }
    }
    offsetCounter := offsetCounter + 1;
    var i := 0;
    assert rows[0..] == rows;
    while i < |rows|
      invariant i <= |rows| && offsetCounter == 2 + i && reply.len <= reply.maxSize
      invariant reply.With(Beyond(Listed(root, rows[i..], 3 + i), offset)) == goal
    {
      var e := Entry(DbToKernel(root, rows[i].ino), offsetCounter + 1, rows[i].name);
      ghost var rest := Listed(root, rows[i + 1..], 4 + i);
      ListedStep(root, rows, i);
      BeyondStep(e, rest, offset);
      if offset <= offsetCounter {
        var full := reply.Push(e, Beyond(rest, offset));
        if full { return reply.entries; }
      }
      offsetCounter := offsetCounter + 1;
      i := i + 1;
    }
    NothingBeyond(root, rows, offset);
    reply.WithNothing();
    page := reply.entries;
  }

  lemma NothingBeyond(root: Db, rows: seq<Row>, offset: int)
    ensures Beyond(Listed(root, rows[|rows|..], 3 + |rows|), offset) == []
  {
  }

  lemma ListedStep(root: Db, rows: seq<Row>, i: nat)
    requires i < |rows|
    ensures Listed(root, rows[i..], 3 + i) == [Entry(DbToKernel(root, rows[i].ino), 3 + i, rows[i].name)] + Listed(root, rows[i + 1..], 4 + i)
  {
  }

  // ---------------------------------------------------------------- paging

  lemma {:induction false} BeyondFiltersSuffix(list: seq<Entry>, k: nat, offset: int)
    requires k <= |list| && Numbered(list)
    ensures Beyond(list[k..], offset) == list[if offset <= k then k else if offset <= |list| then offset else |list|..]
    decreases |list| - k
  {
    hide Beyond;
    BeyondNothing(offset);
    if k < |list| {
      BeyondFiltersSuffix(list, k + 1, offset);
      assert list[k..] == [list[k]] + list[k + 1..];
      BeyondStep(list[k], list[k + 1..], offset);
    }
  }

  lemma BeyondNothing(offset: int)
    ensures Beyond([], offset) == []
  {
  }

  /** With attributes for "." and "..", both calls page through the same list, save for the inode of
      ".": that differs exactly for a directory addressed by the number of a root other than 1. */
  lemma SameList(root: Db, ino: Kernel, rows: seq<Row>)
    ensures (WholeDirPlus(root, Some(KernelToDb(root, ino)), Some(root), rows) == WholeDir(root, ino, rows))
       <==> !(ino == AsU64(root) && root != 1)
  {
    KernelRoundTripIff(root, ino);
    var plus, plain := WholeDirPlus(root, Some(KernelToDb(root, ino)), Some(root), rows), WholeDir(root, ino, rows);
    assert plus[0] == Entry(DbToKernel(root, KernelToDb(root, ino)), 1, DOT);
    assert plain[0] == Entry(ino, 1, DOT);
  }

  /** The kernel reads pages of the given sizes, each from the last offset it saw, until one is empty. */
  ghost function Walk(header: nat, list: seq<Entry>, sizes: seq<nat>, offset: nat): seq<Entry>
    requires offset <= |list| && Numbered(list)
    decreases |sizes|
  {
    if sizes == [] then []
    else
      var page := Fill(header, sizes[0], list[offset..]);
      if page == [] then []
      else page + Walk(header, list, sizes[1..], page[|page| - 1].off)
  }

  /** Each page of the walk before the end holds an entry. */
  ghost predicate EachPageFits(header: nat, list: seq<Entry>, sizes: seq<nat>, offset: nat)
    requires offset <= |list| && Numbered(list)
    decreases |sizes|
  {
    sizes == [] || offset == |list| ||
    var page := Fill(header, sizes[0], list[offset..]);
    page != [] && EachPageFits(header, list, sizes[1..], page[|page| - 1].off)
  }

  /** A page holds an entry exactly when the next one fits by itself. */
  lemma FillsOne(header: nat, list: seq<Entry>, offset: nat, size: nat)
    requires offset < |list|
    ensures Fill(header, size, list[offset..]) != [] <==> EntSize(header, list[offset].name) <= size
  {
    hide EntSize;
  }

  /** A page is a run of the list, and its last entry resumes at the end of that run. */
  lemma PageRuns(header: nat, list: seq<Entry>, offset: nat, size: nat)
    requires offset <= |list| && Numbered(list)
    ensures var page := Fill(header, size, list[offset..]);
      && offset + |page| <= |list| && page == list[offset..offset + |page|]
      && (page != [] ==> page[|page| - 1].off == offset + |page|)
  {
    hide Fill;
    var rest := list[offset..];
    var page := Fill(header, size, rest);
    assert page == rest[..|page|];
    if page != [] {
      assert page[|page| - 1] == list[offset + |page| - 1];
    }
  }

  /** For every sequence of buffer sizes the pages make up a run of the list, in order and without
      gaps or repeats. */
  lemma {:induction false} WalkFrom(header: nat, list: seq<Entry>, sizes: seq<nat>, offset: nat)
    requires offset <= |list| && Numbered(list)
    ensures var w := Walk(header, list, sizes, offset);
      offset + |w| <= |list| && w == list[offset..offset + |w|]
    decreases |sizes|
  {
    hide Fill, Numbered;
    if sizes != [] {
      PageRuns(header, list, offset, sizes[0]);
      var page := Fill(header, sizes[0], list[offset..]);
      if page != [] {
        var next := offset + |page|;
        WalkFrom(header, list, sizes[1..], next);
        var more := Walk(header, list, sizes[1..], next);
        assert list[offset..next] + list[next..next + |more|] == list[offset..next + |more|];
      }
    }
  }

  /** When each page holds an entry, as many pages as entries reach the end. */
  lemma {:induction false} WalkReachesEnd(header: nat, list: seq<Entry>, sizes: seq<nat>, offset: nat)
    requires offset <= |list| && Numbered(list)
    requires |sizes| >= |list| - offset && EachPageFits(header, list, sizes, offset)
    ensures offset + |Walk(header, list, sizes, offset)| == |list|
    decreases |sizes|
  {
    hide Fill, Numbered;
    if sizes != [] {
      PageRuns(header, list, offset, sizes[0]);
      var page := Fill(header, sizes[0], list[offset..]);
      if page != [] {
        WalkReachesEnd(header, list, sizes[1..], offset + |page|);
      }
    }
  }

  /** The entries name the directory itself, its root's inode as "..", and every row, and each row's inode
      number leads back to it, inode 1 under another root excepted. */
  ghost predicate Names(root: Db, ino: Kernel, rows: seq<Row>, list: seq<Entry>) {
    && |list| == |rows| + 2
    && list[0].name == [46] && list[0].ino == ino
    && list[1].name == [46, 46] && KernelToDb(root, list[1].ino) == root
    && forall i | 0 <= i < |rows| ::
         && list[i + 2].name == rows[i].name
         && (KernelToDb(root, list[i + 2].ino) == rows[i].ino || (rows[i].ino == 1 && root != 1))
  }

  lemma WholeDirNames(root: Db, ino: Kernel, rows: seq<Row>)
    ensures Names(root, ino, rows, WholeDir(root, ino, rows))
  {
    forall i | 0 <= i < |rows| ensures WholeDir(root, ino, rows)[i + 2] == Listed(root, rows, 3)[i] {
      DbRoundTripIff(root, rows[i].ino);
    }
  }

  /** Resuming from the last offset lists ".", ".." and every row once, in order, for both calls. */
  lemma WalksListDirectory(root: Db, ino: Kernel, rows: seq<Row>, sizes: seq<nat>, sizesPlus: seq<nat>)
    requires !(ino == AsU64(root) && root != 1)
    requires |sizes| >= |rows| + 2 && |sizesPlus| >= |rows| + 2
    requires EachPageFits(READDIR_HEADER, WholeDir(root, ino, rows), sizes, 0)
    requires EachPageFits(READDIRPLUS_HEADER, WholeDir(root, ino, rows), sizesPlus, 0)
    ensures var plus := WholeDirPlus(root, Some(KernelToDb(root, ino)), Some(root), rows);
      && Numbered(plus) && Numbered(WholeDir(root, ino, rows))
      && Walk(READDIR_HEADER, WholeDir(root, ino, rows), sizes, 0) == WholeDir(root, ino, rows)
      && Walk(READDIRPLUS_HEADER, plus, sizesPlus, 0) == WholeDir(root, ino, rows)
      && Names(root, ino, rows, Walk(READDIR_HEADER, WholeDir(root, ino, rows), sizes, 0))
  {
    hide EachPageFits, Walk, Names;
    WholeDirNames(root, ino, rows);
    var all := WholeDir(root, ino, rows);
    SameList(root, ino, rows);
    WalkFrom(READDIR_HEADER, all, sizes, 0);
    WalkReachesEnd(READDIR_HEADER, all, sizes, 0);
    WalkFrom(READDIRPLUS_HEADER, all, sizesPlus, 0);
    WalkReachesEnd(READDIRPLUS_HEADER, all, sizesPlus, 0);
    assert all[0..|all|] == all;
  }

  /** A page of `readdirplus` is the page of the walk: what is beyond a non-negative offset is the rest
      of the list. */
  lemma PlusPageIsWalkPage(root: Db, ino: Kernel, rows: seq<Row>, offset: nat, size: nat)
    requires !(ino == AsU64(root) && root != 1) && offset <= |rows| + 2
    ensures Fill(READDIRPLUS_HEADER, size, Beyond(WholeDirPlus(root, Some(KernelToDb(root, ino)), Some(root), rows), offset))
         == Fill(READDIRPLUS_HEADER, size, WholeDir(root, ino, rows)[offset..])
  {
    hide Fill, WholeDirPlus;
    SameList(root, ino, rows);
    var all := WholeDir(root, ino, rows);
    BeyondFiltersSuffix(all, 0, offset);
    assert all[0..] == all;
  }
}
