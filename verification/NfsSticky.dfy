/** REMOVE, RMDIR and RENAME in sticky directories (sections 3.3.12 to 3.3.14 of RFC 1813): whose calls
    can make an entry leave or be replaced.  The store is the database below the server: a table of
    inodes and a table of directory entries. */
module NfsSticky {
  import opened Bytes
  import opened NfsPermissions

  const ROOT_INO := 1

  /** A row of the entry table is found by parent and name. */
  type Key = (nat, string)

  datatype Fs = Fs(attrs: map<nat, Attr>, entries: map<Key, nat>)

  /** What the handler cannot foresee: failing stats of the two entries, a store operation that fails
      without effect, or after its effect; whether an inode without entries is deleted; and the
      parents that lookups of ".." find. */
  datatype World = World(statFrom: bool, statTo: bool, opFails: bool, late: bool, reap: bool, upFrom: nat, upTo: nat)

  datatype Call =
    | Remove(auth: Auth, dir: nat, name: string, w: World)
    | Rename(auth: Auth, dir: nat, name: string, toDir: nat, toName: string, w: World)

  datatype Status = Ok | NoEnt | Acces | Failed

  // ---------------------------------------------------------------- the store

  predicate Present(fs: Fs, k: Key) { k in fs.entries && fs.entries[k] in fs.attrs }

  predicate IsDir(fs: Fs, id: nat) { id in fs.attrs && fs.attrs[id].ftype.Directory? }

  ghost predicate HasChildren(fs: Fs, id: nat) { exists k <- fs.entries :: k.0 == id }

  /** The inode that a name leads to; `up` is the answer to a lookup of "..". */
  function StoreLookup(fs: Fs, k: Key, up: nat): Option<nat> {
    if k.1 == ".." then if up in fs.attrs then Some(up) else None
    else if Present(fs, k) then Some(fs.entries[k])
    else None
  }

  /** Delete one entry, and its inode when no entry is left for it. */
  ghost function DropEntry(fs: Fs, k: Key, reap: bool): Fs
    requires k in fs.entries
  {
    var entries := fs.entries - {k};
    Fs(if reap && fs.entries[k] !in entries.Values then fs.attrs - {fs.entries[k]} else fs.attrs, entries)
  }

  /** Deleting `k`: a lookup decides between the two ways, each of which looks the entry up again. */
  ghost function StoreRemove(fs: Fs, k: Key, w: World): Option<Fs> {
    var stat := StoreLookup(fs, k, w.upFrom);
    if w.opFails || stat.None? || k !in fs.entries then None
    else
      var i := fs.entries[k];
      if IsDir(fs, stat.value) then
        if i == ROOT_INO || !IsDir(fs, i) || HasChildren(fs, i) then None else Some(DropEntry(fs, k, w.reap))
      else if IsDir(fs, i) then None
      else Some(DropEntry(fs, k, w.reap))
  }

  /** Whether the entry at `to` may be replaced by `i`. */
  ghost predicate Replaceable(fs: Fs, to: Key, i: nat) {
    to in fs.entries ==>
      && fs.entries[to] in fs.attrs
      && (IsDir(fs, fs.entries[to]) <==> IsDir(fs, i))
      && (IsDir(fs, fs.entries[to]) ==> !HasChildren(fs, fs.entries[to]))
  }

  /** First the target entry is deleted, then the row of the source, if it is still there, is moved. */
  ghost function StoreRename(fs: Fs, from: Key, to: Key, w: World): Option<Fs> {
    if w.opFails || !Present(fs, from) || fs.entries[from] == ROOT_INO || !Replaceable(fs, to, fs.entries[from]) then None
    else
      var cleared := if to in fs.entries then DropEntry(fs, to, w.reap) else fs;
      Some(if from in cleared.entries
           then cleared.(entries := (cleared.entries - {from})[to := fs.entries[from]])
           else cleared)
  }

  // ---------------------------------------------------------------- the checks

  /** The server's lookup, which answers "." itself and looks only into directories. */
  function Lookup(fs: Fs, k: Key, up: nat): Option<nat> {
    if k.1 == "." then Some(k.0)
    else if k.1 != ".." && !IsDir(fs, k.0) then None
    else StoreLookup(fs, k, up)
  }

  /** The attributes the sticky check sees, if any. */
  function Seen(fs: Fs, k: Key, up: nat, statFails: bool): Option<Attr> {
    var found := Lookup(fs, k, up);
    if statFails || found.None? || found.value !in fs.attrs then None else Some(fs.attrs[found.value])
  }

  predicate Allowed(auth: Auth, dir: Attr, seen: Option<Attr>) {
    if Sticky(dir) && seen.Some? then CanDeleteEntry(auth, dir, seen.value) else CanModifyDirectory(auth, dir)
  }

  /** A subdirectory leaves a sticky parent for another only with its owner. */
  predicate MayMove(auth: Auth, dir: Attr, seen: Option<Attr>, sameParent: bool) {
    Sticky(dir) && seen.Some? && seen.value.ftype.Directory? && !sameParent && auth.uid != 0 ==> auth.uid == seen.value.uid
  }

  ghost function AfterRemove(fs: Fs, auth: Auth, k: Key, w: World): (Fs, Status) {
    if k.0 !in fs.attrs then (fs, NoEnt)
    else if !Allowed(auth, fs.attrs[k.0], Seen(fs, k, w.upFrom, w.statFrom)) then (fs, Acces)
    else match StoreRemove(fs, k, w)
      case None => (fs, Failed)
      case Some(after) => (after, if w.late then Failed else Ok)
  }

  ghost function AfterRename(fs: Fs, auth: Auth, from: Key, to: Key, w: World): (Fs, Status) {
    if from.0 !in fs.attrs || to.0 !in fs.attrs then (fs, NoEnt)
    else
      var seen := Seen(fs, from, w.upFrom, w.statFrom);
      if !Allowed(auth, fs.attrs[from.0], seen) || !MayMove(auth, fs.attrs[from.0], seen, from.0 == to.0) then (fs, Acces)
      else if !Allowed(auth, fs.attrs[to.0], Seen(fs, to, w.upTo, w.statTo)) then (fs, Acces)
      else match StoreRename(fs, from, to, w)
        case None => (fs, Failed)
        case Some(after) => (after, if w.late then Failed else Ok)
  }

  ghost function AfterCall(fs: Fs, c: Call): (Fs, Status) {
    match c
    case Remove(auth, dir, name, w) => AfterRemove(fs, auth, (dir, name), w)
    case Rename(auth, dir, name, toDir, toName, w) => AfterRename(fs, auth, (dir, name), (toDir, toName), w)
  }

  // ---------------------------------------------------------------- the handlers

  class Server {
    var attrs: map<nat, Attr>
    var entries: map<Key, nat>

    ghost function State(): Fs reads this { Fs(attrs, entries) }

    constructor (fs: Fs)
      ensures State() == fs
    {
      attrs, entries := fs.attrs, fs.entries;
    }

    method DeleteRow(k: Key, reap: bool)
      requires k in entries
      modifies this
      ensures State() == DropEntry(old(State()), k, reap)
    {
      var i := entries[k];
      entries := entries - {k};
      if reap && i !in entries.Values { attrs := attrs - {i}; }
    }

    method CountChildren(id: nat) returns (any: bool)
      ensures any <==> HasChildren(State(), id)
    {
      var rows := set k | k in entries && k.0 == id;
      any := rows != {};
      assert forall k <- entries :: k.0 == id ==> k in rows;
    }

    method VfsRemove(k: Key, w: World) returns (done: bool)
      modifies this
      ensures done == StoreRemove(old(State()), k, w).Some?
      ensures State() == if done then StoreRemove(old(State()), k, w).value else old(State())
    {
      hide DropEntry, HasChildren;
      var stat := StoreLookup(Fs(attrs, entries), k, w.upFrom);
      if w.opFails || stat.None? { return false; }
      if k !in entries { return false; }
      var i := entries[k];
      if attrs[stat.value].ftype.Directory? {
        if i == ROOT_INO { return false; }
        if i !in attrs || !attrs[i].ftype.Directory? { return false; }
        var busy := CountChildren(i);
        if busy { return false; }
      } else {
        if i in attrs && attrs[i].ftype.Directory? { return false; }
      }
      DeleteRow(k, w.reap);
      done := true;
    }

    method VfsRename(from: Key, to: Key, w: World) returns (done: bool)
      modifies this
      ensures done == StoreRename(old(State()), from, to, w).Some?
      ensures State() == if done then StoreRename(old(State()), from, to, w).value else old(State())
    {
      hide DropEntry, HasChildren;
      if w.opFails || from !in entries { return false; }
      var i := entries[from];
      if i == ROOT_INO || i !in attrs { return false; }
      var movesDir := attrs[i].ftype.Directory?;
      if to in entries {
        var j := entries[to];
        if j !in attrs { return false; }
        if attrs[j].ftype.Directory? != movesDir { return false; }
        if attrs[j].ftype.Directory? {
          var busy := CountChildren(j);
          if busy { return false; }
        }
        DeleteRow(to, w.reap);
      }
      if from in entries {
        entries := (entries - {from})[to := i];
      }
      done := true;
    }

    /** REMOVE, and RMDIR, which shares the handler. */
    method Nfsproc3Remove(auth: Auth, dirid: nat, name: string, w: World) returns (status: Status)
      modifies this
      ensures (State(), status) == AfterRemove(old(State()), auth, (dirid, name), w)
    {
      hide StoreRemove, CanModifyDirectory, CanDeleteEntry;
      if dirid !in attrs { return NoEnt; }
      var dirAttr := attrs[dirid];
      var allowed;
      if Sticky(dirAttr) {
        var seen := Seen(Fs(attrs, entries), (dirid, name), w.upFrom, w.statFrom);
        match seen {
          case Some(entryAttr) => allowed := CanDeleteEntry(auth, dirAttr, entryAttr);
          case None => allowed := CanModifyDirectory(auth, dirAttr);
        }
      } else {
        allowed := CanModifyDirectory(auth, dirAttr);
      }
      if !allowed { return Acces; }
      var done := VfsRemove((dirid, name), w);
      status := if done && !w.late then Ok else Failed;
    }

    method Nfsproc3Rename(auth: Auth, fromDir: nat, fromName: string, toDir: nat, toName: string, w: World) returns (status: Status)
      modifies this
      ensures (State(), status) == AfterRename(old(State()), auth, (fromDir, fromName), (toDir, toName), w)
    {
      hide StoreRename, CanModifyDirectory, CanDeleteEntry, Seen;
      if fromDir !in attrs || toDir !in attrs { return NoEnt; }
      var fromAttr, toAttr := attrs[fromDir], attrs[toDir];
      var fromAllowed;
      if Sticky(fromAttr) {
        var seen := Seen(Fs(attrs, entries), (fromDir, fromName), w.upFrom, w.statFrom);
        match seen {
          case Some(entryAttr) =>
            var basic := CanDeleteEntry(auth, fromAttr, entryAttr);
            if basic && entryAttr.ftype.Directory? && fromDir != toDir && auth.uid != 0 && auth.uid != entryAttr.uid {
              fromAllowed := false;
            } else {
              fromAllowed := basic;
            }
          case None => fromAllowed := CanModifyDirectory(auth, fromAttr);
        }
      } else {
        fromAllowed := CanModifyDirectory(auth, fromAttr);
      }
      if !fromAllowed { return Acces; }
      var toAllowed;
      if Sticky(toAttr) {
        var seen := Seen(Fs(attrs, entries), (toDir, toName), w.upTo, w.statTo);
        match seen {
          case Some(entryAttr) => toAllowed := CanDeleteEntry(auth, toAttr, entryAttr);
          case None => toAllowed := CanModifyDirectory(auth, toAttr);
        }
      } else {
        toAllowed := CanModifyDirectory(auth, toAttr);
      }
      if !toAllowed { return Acces; }
      var done := VfsRename((fromDir, fromName), (toDir, toName), w);
      status := if done && !w.late then Ok else Failed;
    }
  }

  // ---------------------------------------------------------------- what a call may do

  predicate Ordinary(name: string) { name != "." && name != ".." }

  ghost predicate StickyDir(fs: Fs, d: nat) { IsDir(fs, d) && Sticky(fs.attrs[d]) }

  ghost predicate Keeps(fs: Fs, after: Fs, k: Key) {
    k in fs.entries && k in after.entries && after.entries[k] == fs.entries[k]
  }

  ghost predicate PrivilegedAt(fs: Fs, auth: Auth, k: Key)
    requires Present(fs, k) && IsDir(fs, k.0)
  {
    Privileged(auth, fs.attrs[k.0], fs.attrs[fs.entries[k]])
  }

  /** An entry leaves or is replaced in a sticky directory only by root, the directory's owner or the
      entry's owner. */
  ghost predicate LeavesLawfully(fs: Fs, after: Fs, auth: Auth) {
    forall k | Present(fs, k) && StickyDir(fs, k.0) && !Keeps(fs, after, k) :: PrivilegedAt(fs, auth, k)
  }

  /** `k` leaves its parent and its inode appears under another one. */
  ghost predicate MovesTo(fs: Fs, after: Fs, k: Key, to: Key) {
    && k in fs.entries && !Keeps(fs, after, k)
    && to in after.entries && after.entries[to] == fs.entries[k] && to.0 != k.0 && !Keeps(fs, after, to)
  }

  /** A caller that is not root moves a subdirectory out of a sticky parent only if it owns it. */
  ghost predicate MovesLawfully(fs: Fs, after: Fs, auth: Auth) {
    forall k, to | MovesTo(fs, after, k, to) && StickyDir(fs, k.0) && IsDir(fs, fs.entries[k]) && auth.uid != 0 ::
      auth.uid == fs.attrs[fs.entries[k]].uid
  }

  /** The inode a lookup of ".." in `d` may find. */
  ghost predicate UpIs(fs: Fs, d: nat, up: nat) {
    if d == ROOT_INO then up == ROOT_INO
    else if exists k <- fs.entries :: fs.entries[k] == d then exists k <- fs.entries :: fs.entries[k] == d && k.0 == up
    else up == ROOT_INO
  }

  /** What a sticky check really looks at: the entry, the directory in its place, or nothing that
      protects the entry. */
  datatype Check = ByEntry | ByDirectory | Nothing

  /** "." is answered with the directory itself, and so is ".." of the root; any other ".." leads to an
      inode that has nothing to do with the entry. */
  function CheckOf(k: Key, statFails: bool): Check {
    if statFails then Nothing
    else if Ordinary(k.1) then ByEntry
    else if k.1 == "." || k.0 == ROOT_INO then ByDirectory
    else Nothing
  }

  // ---------------------------------------------------------------- REMOVE

  /** What the sticky check sees is the entry itself, or the directory. */
  lemma SeenIsEntry(fs: Fs, k: Key, up: nat)
    requires Present(fs, k) && IsDir(fs, k.0)
    ensures Ordinary(k.1) ==> Seen(fs, k, up, false) == Some(fs.attrs[fs.entries[k]])
    ensures k.1 == "." ==> Seen(fs, k, up, false) == Some(fs.attrs[k.0])
    ensures k.1 == ".." && up == k.0 ==> Seen(fs, k, up, false) == Some(fs.attrs[k.0])
  {
  }

  lemma RemoveTouchesOne(fs: Fs, k: Key, w: World)
    ensures w.opFails ==> StoreRemove(fs, k, w).None?
    ensures var r := StoreRemove(fs, k, w);
      r.Some? ==> forall other <- fs.entries | other != k :: Keeps(fs, r.value, other)
  {
  }

  /** A caller that passes a check of the entry is privileged; one that passes a check of the directory is
      root or the directory's owner. */
  lemma AllowedMeans(fs: Fs, auth: Auth, k: Key, up: nat, statFails: bool)
    requires Present(fs, k) && StickyDir(fs, k.0) && UpIs(fs, k.0, up)
    requires Allowed(auth, fs.attrs[k.0], Seen(fs, k, up, statFails))
    ensures !CheckOf(k, statFails).Nothing? ==> PrivilegedAt(fs, auth, k)
  {
    hide CanModifyDirectory, Sticky, Seen;
    SeenIsEntry(fs, k, up);
  }

  lemma RemoveLawful(fs: Fs, auth: Auth, k: Key, w: World)
    requires UpIs(fs, k.0, w.upFrom)
    requires auth.uid == 0 || w.opFails || !CheckOf(k, w.statFrom).Nothing?
    ensures LeavesLawfully(fs, AfterRemove(fs, auth, k, w).0, auth)
  {
    hide Allowed, Seen, Sticky, StoreRemove, CheckOf, UpIs;
    RemoveTouchesOne(fs, k, w);
    if Present(fs, k) && StickyDir(fs, k.0) && Allowed(auth, fs.attrs[k.0], Seen(fs, k, w.upFrom, w.statFrom)) {
      AllowedMeans(fs, auth, k, w.upFrom, w.statFrom);
    }
  }

  /** Everybody may enter and write the sticky directory `d`, which another user owns. */
  const STICKY_777: bv32 := 0x3FF

  function SharedDir(uid: nat): Attr { Attr(Directory, STICKY_777, uid, 0, 0) }

  lemma EverybodyMayModify(auth: Auth, uid: nat)
    ensures CanModifyDirectory(auth, SharedDir(uid)) && Sticky(SharedDir(uid))
  {
  }

  /** A file system on which an unchecked removal succeeds. */
  ghost function UncheckedRemoval(auth: Auth, k: Key): Fs {
    var i := k.0 + 2;
    Fs(map[ROOT_INO := SharedDir(auth.uid)][k.0 := SharedDir(auth.uid + 1)][i := SharedDir(auth.uid + 1)], map[k := i])
  }

  lemma UncheckedRemovalShows(auth: Auth, k: Key, w: World)
    requires auth.uid != 0 && !w.opFails && w.upFrom == ROOT_INO
    requires CheckOf(k, w.statFrom).Nothing?
    ensures var fs := UncheckedRemoval(auth, k);
      UpIs(fs, k.0, w.upFrom) && !LeavesLawfully(fs, AfterRemove(fs, auth, k, w).0, auth)
  {
    hide CanModifyDirectory, Sticky;
    var fs := UncheckedRemoval(auth, k);
    EverybodyMayModify(auth, auth.uid + 1);
    EverybodyMayModify(auth, auth.uid);
    assert !Keeps(fs, AfterRemove(fs, auth, k, w).0, k);
    assert !PrivilegedAt(fs, auth, k);
  }

  /** REMOVE respects sticky directories on every file system exactly when the caller is root, the
      store refuses, or the entry's stat succeeds and the name is not ".." outside the root. */
  lemma RemoveLawfulIff(auth: Auth, k: Key, statFails: bool, opFails: bool)
    ensures (forall fs: Fs, w: World | w.statFrom == statFails && w.opFails == opFails && UpIs(fs, k.0, w.upFrom) ::
               LeavesLawfully(fs, AfterRemove(fs, auth, k, w).0, auth))
        <==> auth.uid == 0 || opFails || !CheckOf(k, statFails).Nothing?
  {
    hide AfterRemove, LeavesLawfully;
    if auth.uid == 0 || opFails || !CheckOf(k, statFails).Nothing? {
      forall fs: Fs, w: World | w.statFrom == statFails && w.opFails == opFails && UpIs(fs, k.0, w.upFrom)
        ensures LeavesLawfully(fs, AfterRemove(fs, auth, k, w).0, auth)
      {
        RemoveLawful(fs, auth, k, w);
      }
    } else {
      UncheckedRemovalShows(auth, k, World(statFails, false, opFails, false, false, ROOT_INO, ROOT_INO));
    }
  }

  // ---------------------------------------------------------------- RENAME

  lemma RenameTouchesTwo(fs: Fs, from: Key, to: Key, w: World)
    ensures w.opFails ==> StoreRename(fs, from, to, w).None?
    ensures var r := StoreRename(fs, from, to, w);
      r.Some? ==>
        && (forall other <- fs.entries | other != from && other != to :: Keeps(fs, r.value, other))
        && (forall k <- r.value.entries | k != to :: Keeps(fs, r.value, k))
  {
  }

  /** A completed rename leaves the source's inode under the new name exactly when the two names
      differ: renaming an entry onto itself deletes it. */
  lemma RenameArrivesIff(fs: Fs, from: Key, to: Key, w: World)
    requires StoreRename(fs, from, to, w).Some?
    ensures var after := StoreRename(fs, from, to, w).value;
      && Present(fs, from) && from !in after.entries
      && (to in after.entries && after.entries[to] == fs.entries[from] <==> from != to)
  {
  }

  /** Within one directory, a check of the directory protects both entries; failing that, each entry needs
      its own check, and an entry renamed onto itself either of the two.  Between directories the
      source needs a check of the entry, because of the rule for subdirectories, and the target one
      that protects it. */
  predicate RenameChecked(from: Key, to: Key, w: World) {
    var f, t := CheckOf(from, w.statFrom), CheckOf(to, w.statTo);
    if from.0 != to.0 then f.ByEntry? && !t.Nothing?
    else f.ByDirectory? || t.ByDirectory? || (if from == to then f.ByEntry? || t.ByEntry? else f.ByEntry? && t.ByEntry?)
  }

  /** A caller that passes a check of the directory is privileged for everything in it. */
  lemma DirectoryMeans(fs: Fs, auth: Auth, k: Key, up: nat, statFails: bool)
    requires StickyDir(fs, k.0) && UpIs(fs, k.0, up) && CheckOf(k, statFails).ByDirectory?
    requires Allowed(auth, fs.attrs[k.0], Seen(fs, k, up, statFails))
    ensures auth.uid == 0 || auth.uid == fs.attrs[k.0].uid
  {
    hide CanModifyDirectory, Sticky;
  }

  lemma RenameLeavesLawfully(fs: Fs, auth: Auth, from: Key, to: Key, w: World)
    requires UpIs(fs, from.0, w.upFrom) && UpIs(fs, to.0, w.upTo)
    requires auth.uid == 0 || w.opFails || RenameChecked(from, to, w)
    ensures LeavesLawfully(fs, AfterRename(fs, auth, from, to, w).0, auth)
  {
    hide Allowed, MayMove, Seen, Sticky, StoreRename, CheckOf, UpIs;
    RenameTouchesTwo(fs, from, to, w);
    forall k: Key, up: nat, fails: bool
      | k.0 in fs.attrs && UpIs(fs, k.0, up) && StickyDir(fs, k.0) && Allowed(auth, fs.attrs[k.0], Seen(fs, k, up, fails))
      ensures CheckOf(k, fails).ByDirectory? ==> auth.uid == 0 || auth.uid == fs.attrs[k.0].uid
      ensures Present(fs, k) && !CheckOf(k, fails).Nothing? ==> PrivilegedAt(fs, auth, k)
    {
      if CheckOf(k, fails).ByDirectory? { DirectoryMeans(fs, auth, k, up, fails); }
      if Present(fs, k) { AllowedMeans(fs, auth, k, up, fails); }
    }
  }

  lemma RenameMovesLawfully(fs: Fs, auth: Auth, from: Key, to: Key, w: World)
    requires auth.uid == 0 || w.opFails || RenameChecked(from, to, w)
    ensures MovesLawfully(fs, AfterRename(fs, auth, from, to, w).0, auth)
  {
    hide CanModifyDirectory, Seen, Sticky, StoreRename;
    RenameTouchesTwo(fs, from, to, w);
    if Present(fs, from) && IsDir(fs, from.0) { SeenIsEntry(fs, from, w.upFrom); }
    if StoreRename(fs, from, to, w).Some? { RenameArrivesIff(fs, from, to, w); }
  }

  lemma RenameLawful(fs: Fs, auth: Auth, from: Key, to: Key, w: World)
    requires UpIs(fs, from.0, w.upFrom) && UpIs(fs, to.0, w.upTo)
    requires auth.uid == 0 || w.opFails || RenameChecked(from, to, w)
    ensures var after := AfterRename(fs, auth, from, to, w).0;
      LeavesLawfully(fs, after, auth) && MovesLawfully(fs, after, auth)
  {
    hide AfterRename, LeavesLawfully, MovesLawfully, RenameChecked, UpIs;
    RenameLeavesLawfully(fs, auth, from, to, w);
    RenameMovesLawfully(fs, auth, from, to, w);
  }

  /** A file system on which an unchecked rename takes the entry, moves a subdirectory, or replaces the
      other entry: another user owns the directory whose check fails and the entry concerned, and the
      caller owns the rest. */
  ghost function UncheckedRename(auth: Auth, from: Key, to: Key, w: World): Fs {
    var a := from.0 + to.0 + 2;
    var mine, other := SharedDir(auth.uid), SharedDir(auth.uid + 1);
    var file := Attr(Regular, 0, auth.uid + 1, 0, 0);
    match CheckOf(from, w.statFrom)
    case Nothing => Fs(map[ROOT_INO := mine][to.0 := mine][from.0 := other][a := file], map[from := a])
    case ByDirectory => Fs(map[ROOT_INO := mine][to.0 := mine][from.0 := mine][a := other], map[from := a])
    case ByEntry =>
      Fs(map[ROOT_INO := mine][from.0 := mine][to.0 := other][a := file.(uid := auth.uid)][a + 1 := file], map[from := a, to := a + 1])
  }

  lemma UncheckedRenameShows(auth: Auth, from: Key, to: Key, w: World)
    requires auth.uid != 0 && !w.opFails && !RenameChecked(from, to, w)
    requires w.upFrom == ROOT_INO == w.upTo
    ensures var fs := UncheckedRename(auth, from, to, w);
      && UpIs(fs, from.0, w.upFrom) && UpIs(fs, to.0, w.upTo)
      && (var after := AfterRename(fs, auth, from, to, w).0;
          !LeavesLawfully(fs, after, auth) || !MovesLawfully(fs, after, auth))
  {
    hide CanModifyDirectory, Sticky;
    var fs := UncheckedRename(auth, from, to, w);
    EverybodyMayModify(auth, auth.uid + 1);
    EverybodyMayModify(auth, auth.uid);
    var after := AfterRename(fs, auth, from, to, w).0;
    match CheckOf(from, w.statFrom) {
      case Nothing =>
        assert !Keeps(fs, after, from) && !PrivilegedAt(fs, auth, from);
      case ByDirectory =>
        assert MovesTo(fs, after, from, to);
      case ByEntry =>
        assert !Keeps(fs, after, to) && !PrivilegedAt(fs, auth, to);
    }
  }

  /** RENAME keeps both laws on every file system exactly when the caller is root, the store refuses, or
      the checks protect the two entries. */
  lemma RenameLawfulIff(auth: Auth, from: Key, to: Key, flags: World)
    ensures (forall fs: Fs, w: World
               | && w.statFrom == flags.statFrom && w.statTo == flags.statTo && w.opFails == flags.opFails
                 && UpIs(fs, from.0, w.upFrom) && UpIs(fs, to.0, w.upTo) ::
               var after := AfterRename(fs, auth, from, to, w).0;
               LeavesLawfully(fs, after, auth) && MovesLawfully(fs, after, auth))
        <==> auth.uid == 0 || flags.opFails || RenameChecked(from, to, flags)
  {
    hide AfterRename, LeavesLawfully, MovesLawfully;
    if auth.uid == 0 || flags.opFails || RenameChecked(from, to, flags) {
      forall fs: Fs, w: World
        | && w.statFrom == flags.statFrom && w.statTo == flags.statTo && w.opFails == flags.opFails
          && UpIs(fs, from.0, w.upFrom) && UpIs(fs, to.0, w.upTo)
        ensures var after := AfterRename(fs, auth, from, to, w).0; LeavesLawfully(fs, after, auth) && MovesLawfully(fs, after, auth)
      {
        RenameLawful(fs, auth, from, to, w);
      }
    } else {
      UncheckedRenameShows(auth, from, to, flags.(upFrom := ROOT_INO, upTo := ROOT_INO));
    }
  }

  /** The name "." is checked against the directory instead of the entry, and RENAME accepts it as a
      new name: a directory's owner then moves another user's subdirectory away under it. */
  lemma DotNameIsMisread(auth: Auth, d: nat, e: nat, w: World)
    requires auth.uid != 0 && d != e && !w.opFails && !w.statFrom
    ensures var i := d + e + 2;
      var fs := Fs(map[d := SharedDir(auth.uid), e := SharedDir(auth.uid), i := SharedDir(auth.uid + 1)], map[(d, ".") := i]);
      !MovesLawfully(fs, AfterRename(fs, auth, (d, "."), (e, "x"), w).0, auth)
  {
    hide CanModifyDirectory, Sticky;
    EverybodyMayModify(auth, auth.uid);
    var i := d + e + 2;
    var fs := Fs(map[d := SharedDir(auth.uid), e := SharedDir(auth.uid), i := SharedDir(auth.uid + 1)], map[(d, ".") := i]);
    assert MovesTo(fs, AfterRename(fs, auth, (d, "."), (e, "x"), w).0, (d, "."), (e, "x"));
  }

  /** What the answers mean: NOENT exactly when a directory is missing; a refused call changes nothing; and a
      call that changed anything is answered with OK exactly unless the store fails afterwards. */
  lemma AnswersMean(fs: Fs, c: Call)
    ensures var r := AfterCall(fs, c);
      && (r.1 == NoEnt <==> c.dir !in fs.attrs || (c.Rename? && c.toDir !in fs.attrs))
      && (r.1 == NoEnt || r.1 == Acces ==> r.0 == fs)
      && (r.1 == Ok ==> !c.w.late && !c.w.opFails)
      && (r.0 != fs ==> r.1 == if c.w.late then Failed else Ok)
  {
    hide Allowed, MayMove, Seen, DropEntry, Replaceable;
  }

  function Calm(reap: bool): World { World(false, false, false, false, reap, ROOT_INO, ROOT_INO) }

  /** The caller may enter and leave names in the directory `d`. */
  ghost predicate MayModify(fs: Fs, auth: Auth, d: nat)
    requires d in fs.attrs
  {
    Grants(auth, fs.attrs[d], Write) && Grants(auth, fs.attrs[d], Execute)
  }

  /** The sticky rule for the entry `k`, by user ids. */
  ghost predicate StickyAllows(fs: Fs, auth: Auth, k: Key)
    requires k.0 in fs.attrs && Present(fs, k)
  {
    StickyBit(fs.attrs[k.0].mode) ==>
      auth.uid == 0 || auth.uid == fs.attrs[k.0].uid || auth.uid == fs.attrs[fs.entries[k]].uid
  }

  /** No entry names `id` as its parent. */
  ghost predicate IsEmpty(fs: Fs, id: nat) { forall k <- fs.entries :: k.0 != id }

  lemma EmptyMeans(fs: Fs, id: nat)
    ensures IsEmpty(fs, id) <==> !HasChildren(fs, id)
  {
  }

  /** Who gets what removed where nothing fails: whoever may modify the directory and, if that is sticky, is
      root or owns the directory or the entry; a directory only if it is empty and not the root.  Everybody
      else is told ACCES, and only the entry goes, with its inode if that has no other and is dropped. */
  lemma RemoveSucceedsIff(fs: Fs, auth: Auth, k: Key, reap: bool)
    requires Present(fs, k) && Ordinary(k.1) && IsDir(fs, k.0)
    ensures var r, i := AfterRemove(fs, auth, k, Calm(reap)), fs.entries[k];
      && (r.1 == Acces <==> !(MayModify(fs, auth, k.0) && StickyAllows(fs, auth, k)))
      && (r.1 == Ok <==> MayModify(fs, auth, k.0) && StickyAllows(fs, auth, k) && (IsDir(fs, i) ==> i != 1 && IsEmpty(fs, i)))
      && (r.1 != Ok ==> r.0 == fs)
      && (r.1 == Ok ==>
            && r.0.entries == fs.entries - {k}
            && r.0.attrs == if reap && (forall other <- fs.entries | other != k :: fs.entries[other] != i) then fs.attrs - {i} else fs.attrs)
  {
    hide CanModifyDirectory, Sticky, StickyBit, Grants, Seen, HasChildren, IsEmpty;
    SeenIsEntry(fs, k, ROOT_INO);
    ChecksMean(auth, fs.attrs[k.0]);
    EmptyMeans(fs, fs.entries[k]);
    LastEntry(fs, k);
  }

  lemma LastEntry(fs: Fs, k: Key)
    requires k in fs.entries
    ensures fs.entries[k] in (fs.entries - {k}).Values <==> exists other <- fs.entries | other != k :: fs.entries[other] == fs.entries[k]
  {
    var rest, i := fs.entries - {k}, fs.entries[k];
    if i in rest.Values {
      var other :| other in rest && rest[other] == i;
      assert other in fs.entries && fs.entries[other] == i;
    }
    if other :| other in fs.entries && other != k && fs.entries[other] == i {
      assert rest[other] == i;
    }
  }

  /** What stands in the way of a rename, by inodes: a target of another kind or a directory that is not empty. */
  ghost predicate TargetGivesWay(fs: Fs, from: Key, to: Key)
    requires Present(fs, from)
  {
    to in fs.entries ==>
      && fs.entries[to] in fs.attrs && (IsDir(fs, fs.entries[to]) <==> IsDir(fs, fs.entries[from]))
      && (IsDir(fs, fs.entries[to]) ==> IsEmpty(fs, fs.entries[to]))
  }

  ghost predicate RenameAllowed(fs: Fs, auth: Auth, from: Key, to: Key)
    requires Present(fs, from) && IsDir(fs, from.0) && IsDir(fs, to.0)
  {
    && MayModify(fs, auth, from.0) && MayModify(fs, auth, to.0)
    && StickyAllows(fs, auth, from) && (Present(fs, to) ==> StickyAllows(fs, auth, to))
    && (StickyBit(fs.attrs[from.0].mode) && IsDir(fs, fs.entries[from]) && from.0 != to.0 ==>
          auth.uid == 0 || auth.uid == fs.attrs[fs.entries[from]].uid)
  }

  /** Who gets what renamed where nothing fails, to another name: whoever may modify both directories and
      passes the sticky rule for the entry and for the one it replaces, and for a subdirectory that
      changes parents its own; unless the target does not give way or the root itself is named. */
  lemma RenameSucceedsIff(fs: Fs, auth: Auth, from: Key, to: Key)
    requires Present(fs, from) && Ordinary(from.1) && IsDir(fs, from.0) && Ordinary(to.1) && IsDir(fs, to.0) && from != to
    ensures var r := AfterRename(fs, auth, from, to, Calm(false));
      && (r.1 == Acces <==> !RenameAllowed(fs, auth, from, to))
      && (r.1 == Ok <==> RenameAllowed(fs, auth, from, to) && fs.entries[from] != 1 && TargetGivesWay(fs, from, to))
      && (r.1 != Ok ==> r.0 == fs)
      && (r.1 == Ok ==> r.0 == Fs(fs.attrs, (fs.entries - {from})[to := fs.entries[from]]))
  {
    hide CanModifyDirectory, Sticky, StickyBit, Grants, Seen, HasChildren, IsEmpty, StoreRename;
    SeenIsEntry(fs, from, ROOT_INO);
    if Present(fs, to) { SeenIsEntry(fs, to, ROOT_INO); } else { SeenNothing(fs, to, ROOT_INO); }
    ChecksMean(auth, fs.attrs[from.0]);
    ChecksMean(auth, fs.attrs[to.0]);
    StoreRenamesIff(fs, from, to);
  }

  lemma StoreRenamesIff(fs: Fs, from: Key, to: Key)
    requires Present(fs, from) && from != to
    ensures var r := StoreRename(fs, from, to, Calm(false));
      && (r.Some? <==> fs.entries[from] != 1 && TargetGivesWay(fs, from, to))
      && (r.Some? ==> r.value == Fs(fs.attrs, (fs.entries - {from})[to := fs.entries[from]]))
  {
    hide HasChildren, IsEmpty;
    if to in fs.entries { EmptyMeans(fs, fs.entries[to]); }
    assert (fs.entries - {to} - {from})[to := fs.entries[from]] == (fs.entries - {from})[to := fs.entries[from]];
  }

  lemma SeenNothing(fs: Fs, k: Key, up: nat)
    requires !Present(fs, k) && Ordinary(k.1)
    ensures Seen(fs, k, up, false) == None
  {
  }

  // ---------------------------------------------------------------- every run

  ghost function Run(fs: Fs, calls: seq<Call>): Fs {
    if calls == [] then fs else AfterCall(Run(fs, calls[..|calls| - 1]), calls[|calls| - 1]).0
  }

  /** The call does not name `k`, or the stats that protect `k` succeed. */
  ghost predicate ChecksEntry(c: Call, k: Key) {
    match c
    case Remove(_, dir, name, w) => (dir, name) == k ==> !w.statFrom
    case Rename(_, dir, name, toDir, toName, w) =>
      && ((dir, name) == k && (toDir, toName) != k ==> !w.statFrom)
      && ((dir, name) != k && (toDir, toName) == k ==> !w.statTo)
      && ((dir, name) == k == (toDir, toName) ==> !(w.statFrom && w.statTo))
  }

  /** The entry `k` stands in its sticky directory, with the same owners as before. */
  ghost predicate Stands(fs: Fs, after: Fs, k: Key)
    requires Present(fs, k) && StickyDir(fs, k.0)
  {
    && Keeps(fs, after, k)
    && k.0 in after.attrs && after.attrs[k.0] == fs.attrs[k.0]
    && fs.entries[k] in after.attrs && after.attrs[fs.entries[k]] == fs.attrs[fs.entries[k]]
  }

  lemma RemoveSpares(fs: Fs, auth: Auth, at: Key, w: World, k: Key)
    requires Present(fs, k) && StickyDir(fs, k.0) && k.1 != ".."
    requires ChecksEntry(Remove(auth, at.0, at.1, w), k)
    requires !PrivilegedAt(fs, auth, k)
    ensures Stands(fs, AfterRemove(fs, auth, at, w).0, k)
  {
    hide CanModifyDirectory, Seen, Sticky;
    if at == k {
      SeenIsEntry(fs, k, w.upFrom);
    } else if StoreRemove(fs, at, w).Some? {
      RemoveTouchesOne(fs, at, w);
      var after := StoreRemove(fs, at, w).value;
      assert Keeps(fs, after, k) && fs.entries[k] in after.entries.Values;
      assert HasChildren(fs, k.0);
    }
  }

  lemma RenameSpares(fs: Fs, auth: Auth, from: Key, to: Key, w: World, k: Key)
    requires Present(fs, k) && StickyDir(fs, k.0) && k.1 != ".."
    requires ChecksEntry(Rename(auth, from.0, from.1, to.0, to.1, w), k)
    requires !PrivilegedAt(fs, auth, k)
    ensures Stands(fs, AfterRename(fs, auth, from, to, w).0, k)
  {
    hide CanModifyDirectory, Seen, Sticky;
    if from == k || to == k {
      SeenIsEntry(fs, k, if from == k then w.upFrom else w.upTo);
      SeenIsEntry(fs, k, w.upTo);
    } else if StoreRename(fs, from, to, w).Some? {
      RenameTouchesTwo(fs, from, to, w);
      var after := StoreRename(fs, from, to, w).value;
      assert Keeps(fs, after, k);
      if to in fs.entries {
        var cleared := fs.entries - {to};
        assert k in cleared && cleared[k] == fs.entries[k];
        assert HasChildren(fs, k.0);
      }
    }
  }

  /** In every run, an entry of a sticky directory stays where it is as long as no call comes from
      root, the directory's owner or the entry's owner, and the stats of calls that name it succeed. */
  lemma {:induction false} EntryStays(fs: Fs, calls: seq<Call>, k: Key)
    requires Present(fs, k) && StickyDir(fs, k.0) && k.1 != ".."
    requires forall i | 0 <= i < |calls| :: !PrivilegedAt(fs, calls[i].auth, k) && ChecksEntry(calls[i], k)
    ensures Stands(fs, Run(fs, calls), k)
    decreases |calls|
  {
    if calls != [] {
      hide AfterRemove, AfterRename, ChecksEntry;
      var front, c := calls[..|calls| - 1], calls[|calls| - 1];
      EntryStays(fs, front, k);
      var before := Run(fs, front);
      match c {
        case Remove(auth, dir, name, w) => RemoveSpares(before, auth, (dir, name), w, k);
        case Rename(auth, dir, name, toDir, toName, w) => RenameSpares(before, auth, (dir, name), (toDir, toName), w, k);
      }
    }
  }

  /** The call is root's, the store refuses it, or its checks protect the entries it names. */
  predicate Guarded(c: Call) {
    c.auth.uid == 0 || c.w.opFails ||
    match c
    case Remove(_, dir, name, w) => !CheckOf((dir, name), w.statFrom).Nothing?
    case Rename(_, dir, name, toDir, toName, w) => RenameChecked((dir, name), (toDir, toName), w)
  }

  /** Lookups of ".." during the call find parents that the entries show. */
  ghost predicate UpsAre(fs: Fs, c: Call) {
    UpIs(fs, c.dir, c.w.upFrom) && (c.Rename? ==> UpIs(fs, c.toDir, c.w.upTo))
  }

  /** In every run, each guarded call keeps both laws. */
  lemma EveryCallLawful(fs: Fs, calls: seq<Call>, j: nat)
    requires j < |calls| && Guarded(calls[j]) && UpsAre(Run(fs, calls[..j]), calls[j])
    ensures var before, after := Run(fs, calls[..j]), Run(fs, calls[..j + 1]);
      LeavesLawfully(before, after, calls[j].auth) && MovesLawfully(before, after, calls[j].auth)
  {
    hide AfterRemove, AfterRename, LeavesLawfully, MovesLawfully, UpIs, RenameChecked;
    assert calls[..j + 1][..j] == calls[..j];
    var before := Run(fs, calls[..j]);
    match calls[j] {
      case Remove(auth, dir, name, w) =>
        RemoveLawful(before, auth, (dir, name), w);
        RemoveMovesNothing(before, auth, (dir, name), w);
      case Rename(auth, dir, name, toDir, toName, w) =>
        RenameLawful(before, auth, (dir, name), (toDir, toName), w);
    }
  }

  lemma RemoveMovesNothing(fs: Fs, auth: Auth, k: Key, w: World)
    ensures MovesLawfully(fs, AfterRemove(fs, auth, k, w).0, auth)
  {
    hide Seen, Allowed, Sticky;
    assert forall to | to in AfterRemove(fs, auth, k, w).0.entries :: Keeps(fs, AfterRemove(fs, auth, k, w).0, to);
  }
}
