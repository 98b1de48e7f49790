/** Unix permission checks on AUTH_UNIX credentials, as the NFS handlers make them. */
module NfsPermissions {

  datatype Auth = Auth(uid: nat, gid: nat, gids: seq<nat>)

  datatype FileType = Regular | Directory | Other

  /** A file's attributes; the first four decide about access.  `mode` holds the twelve permission bits. */
  datatype Attr = Attr(ftype: FileType, mode: bv32, uid: nat, gid: nat, size: nat, atime: nat := 0, mtime: nat := 0, ctime: nat := 0)

  datatype Permission = Read | Write | Execute

  const S_ISUID_ISGID: bv32 := 0xC00
  const S_ISGID: bv32 := 0x400
  const S_ISVTX: bv32 := 0x200
  const PERM_BITS: bv32 := 0xFFF

  predicate InGroup(auth: Auth, gid: nat) { auth.gid == gid || gid in auth.gids }

  /** The permission bits of a mode, from S_IRUSR to S_IXOTH. */
  function PermBit(c: Class, perm: Permission): bv32 {
    match c
    case Owner => (match perm case Read => 0x100 case Write => 0x80 case Execute => 0x40)
    case Group => (match perm case Read => 0x20 case Write => 0x10 case Execute => 0x08)
    case Others => (match perm case Read => 0x04 case Write => 0x02 case Execute => 0x01)
  }

  predicate HasBit(mode: bv32, bit: bv32) { mode & bit != 0 }

  predicate CheckPermission(auth: Auth, attr: Attr, perm: Permission) {
    if auth.uid == 0 then true
    else if auth.uid == attr.uid then HasBit(attr.mode, PermBit(Owner, perm))
    else if InGroup(auth, attr.gid) then HasBit(attr.mode, PermBit(Group, perm))
    else HasBit(attr.mode, PermBit(Others, perm))
  }

  datatype Class = Owner | Group | Others

  /** The one class of a caller: an owner is judged by the owner's bits alone, a member of the group by
      the group's. */
  ghost function ClassOf(auth: Auth, attr: Attr): Class {
    if auth.uid == attr.uid then Owner else if auth.gid == attr.gid || attr.gid in auth.gids then Group else Others
  }

  /** The class's digit of an octal mode, as read=4, write=2, execute=1. */
  ghost function Digit(mode: bv32, c: Class): bv32 {
    match c
    case Owner => (mode >> 6) & 7
    case Group => (mode >> 3) & 7
    case Others => mode & 7
  }

  ghost function Weight(perm: Permission): bv32 {
    match perm
    case Read => 4
    case Write => 2
    case Execute => 1
  }

  ghost predicate DigitHolds(mode: bv32, c: Class, perm: Permission) { Digit(mode, c) & Weight(perm) != 0 }

  lemma PermBitIsDigit(mode: bv32, c: Class, perm: Permission)
    ensures HasBit(mode, PermBit(c, perm)) <==> DigitHolds(mode, c, perm)
  {
  }

  /** What POSIX grants: everything to root, and otherwise what the digit of the caller's class in the octal
      mode holds. */
  ghost predicate Grants(auth: Auth, attr: Attr, perm: Permission) {
    auth.uid == 0 || DigitHolds(attr.mode, ClassOf(auth, attr), perm)
  }

  lemma GrantedByDigit(auth: Auth, attr: Attr, perm: Permission)
    ensures CheckPermission(auth, attr, perm) <==> Grants(auth, attr, perm)
  {
    hide PermBit, HasBit, DigitHolds;
    PermBitIsDigit(attr.mode, ClassOf(auth, attr), perm);
  }

  predicate CanWrite(auth: Auth, attr: Attr) { CheckPermission(auth, attr, Write) }
  predicate CanExecute(auth: Auth, attr: Attr) { CheckPermission(auth, attr, Execute) }

  predicate CanModifyDirectory(auth: Auth, dir: Attr) { CanWrite(auth, dir) && CanExecute(auth, dir) }

  predicate Sticky(dir: Attr) { dir.mode & S_ISVTX != 0 }

  /** Root, the directory's owner, or the entry's owner. */
  predicate Privileged(auth: Auth, dir: Attr, entry: Attr) {
    auth.uid == 0 || auth.uid == dir.uid || auth.uid == entry.uid
  }

  predicate CanDeleteEntry(auth: Auth, dir: Attr, entry: Attr) {
    CanModifyDirectory(auth, dir) && (!Sticky(dir) || Privileged(auth, dir, entry))
  }

  predicate IsOwner(auth: Auth, attr: Attr) { auth.uid == 0 || auth.uid == attr.uid }

  /** The octal digit above the three classes: set-user-id 4, set-group-id 2, sticky 1. */
  ghost function TopDigit(mode: bv32): bv32 { (mode >> 9) & 7 }

  ghost predicate StickyBit(mode: bv32) { TopDigit(mode) & 1 != 0 }

  /** Writing takes the write bit; entering and leaving names in a directory takes write and execute; and the
      sticky bit is the lowest of the top digit. */
  lemma ChecksMean(auth: Auth, attr: Attr)
    ensures CanWrite(auth, attr) <==> Grants(auth, attr, Write)
    ensures CanModifyDirectory(auth, attr) <==> Grants(auth, attr, Write) && Grants(auth, attr, Execute)
    ensures Sticky(attr) <==> StickyBit(attr.mode)
  {
    hide CheckPermission, Grants;
    GrantedByDigit(auth, attr, Write);
    GrantedByDigit(auth, attr, Execute);
  }
}
