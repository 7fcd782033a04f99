/**
 What each mutating 9P request of src/ninep_protocol.rs does to the tree: when it succeeds,
 and then which entries, bodies, locks and fids differ, said on the inode its fid names.
 */
module SessionRequests {
  import opened Wrappers
  import opened Namespace
  import opened NamespaceInvariant
  import opened NamespaceEffects
  import opened NamespaceAcceptance
  import opened Sessions
  import ByteLocks

  // ---------------------------------------------------------------------- the vocabulary

  predicate WriteAccess(flags: bv32) { flags & 3 == 1 || flags & 3 == 2 }

  predicate ReadAccess(flags: bv32) { flags & 3 == 0 || flags & 3 == 2 }

  /** No unknown flag, a known access mode, and truncation only together with write access. */
  predicate LegalFlags(flags: bv32) {
    flags & 0xffe0_0000 == 0 && flags & 3 != 3 && (flags & 0x200 != 0 ==> WriteAccess(flags))
  }

  /** The inode the fid names; meaningful for a fid of the session. */
  function Target(s: Session, fid: U32): Id {
    if fid in s.fids then s.fids[fid].inode else 0
  }

  /** The fid names a directory. */
  predicate OnDirectory(fs: Fs, s: Session, fid: U32) {
    fid in s.fids && IsDir(fs.inodes, s.fids[fid].inode)
  }

  /** No entry of the tree differs. */
  ghost predicate SameEntries(a: Fs, b: Fs) {
    forall d: Id, x: Name :: EntryAt(b.inodes, d, x) == EntryAt(a.inodes, d, x)
  }

  /** No file differs, but for the one excepted. */
  ghost predicate SameBodiesBut(a: Fs, b: Fs, id: Id) {
    forall d: Id :: d != id ==> BodyAt(b.inodes, d) == BodyAt(a.inodes, d)
  }

  /** Only that entry differs. */
  ghost predicate SameEntriesBut(a: Fs, b: Fs, p: Id, n: Name) {
    forall d: Id, x: Name :: d != p || x != n ==> EntryAt(b.inodes, d, x) == EntryAt(a.inodes, d, x)
  }

  lemma FlagsAreChecked(flags: bv32)
    ensures FlagsError(flags).None? <==> LegalFlags(flags)
  {
  }

  lemma DirectoriesAreChecked(fs: Fs, s: Session, fid: U32)
    ensures DirectoryError(fs, s, fid).None? <==> OnDirectory(fs, s, fid)
  {
  }

  // ------------------------------------------------------------------------ file contents

  /** A write in place: the data at its offset, or at the end for a fid opened to append, zeros in a gap. */
  ghost predicate Overwrites(was: seq<byte>, now: seq<byte>, start: nat, data: seq<byte>) {
    && |now| == (if start + |data| > |was| then start + |data| else |was|)
    && forall i :: 0 <= i < |now| ==>
         now[i] == if start <= i < start + |data| then data[i - start] else if i < |was| then was[i] else 0
  }

  /** Twrite may go ahead: a fid open for writing on a file that can grow as far as needed. */
  predicate MayWrite(fs: Fs, s: Session, fid: U32, offset: nat, data: seq<byte>) {
    && fid in s.fids && s.fids[fid].open.Some? && WriteAccess(s.fids[fid].open.value)
    && var id, append := s.fids[fid].inode, s.fids[fid].open.value & 0x400 != 0;
       && IsFile(fs.inodes, id)
       && (data == []
           || var end, size := WriteEnd(fs, id, offset, data, append), |fs.inodes[id].kind.body|;
              end <= 0xffff_ffff_ffff_ffff && Fits(fs, id, if end > size then end else size))
  }

  lemma TwriteExactly(fs: Fs, s: Session, tag: nat, fid: U32, offset: nat, data: seq<byte>, capacity: nat)
    requires Inv(fs) && capacity >= 11
    ensures var d := Execute(fs, s, tag, Write(fid, offset, data), capacity);
            && (d.result.Ok? <==> MayWrite(fs, s, fid, offset, data)) && d.session == s
            && (!(fid in s.fids && s.fids[fid].open.Some? && WriteAccess(s.fids[fid].open.value)) ==>
                  d.result == Err(EBADF))
  {
    if fid in s.fids && s.fids[fid].open.Some? {
      WriteExactly(fs, s.fids[fid].inode, offset, data, s.fids[fid].open.value & 0x400 != 0);
    }
  }

  /** A successful Twrite changes exactly the bytes it names of the fid's file, and no entry. */
  lemma TwriteDoes(fs: Fs, s: Session, tag: nat, fid: U32, offset: nat, data: seq<byte>, capacity: nat)
    requires Inv(fs) && capacity >= 11 && MayWrite(fs, s, fid, offset, data) && data != []
    ensures var after, id := Execute(fs, s, tag, Write(fid, offset, data), capacity).fs, s.fids[fid].inode;
            && SameEntries(fs, after) && SameBodiesBut(fs, after, id)
            && BodyAt(after.inodes, id).Some?
            && var was := BodyAt(fs.inodes, id).value;
               Overwrites(was, BodyAt(after.inodes, id).value,
                          if s.fids[fid].open.value & 0x400 != 0 then |was| else offset, data)
  {
    TwriteExactly(fs, s, tag, fid, offset, data, capacity);
    var append := s.fids[fid].open.value & 0x400 != 0;
    RangedWrite(fs, s.fids[fid].inode, offset, data, append);
  }

  lemma RangedWrite(fs: Fs, id: Id, offset: nat, data: seq<byte>, append: bool)
    requires WriteInode(fs, id, offset, data, append).Ok? && data != []
    ensures var after := WriteInode(fs, id, offset, data, append).value;
            && SameEntries(fs, after) && SameBodiesBut(fs, after, id)
            && BodyAt(fs.inodes, id).Some? && BodyAt(after.inodes, id).Some?
            && var was := BodyAt(fs.inodes, id).value;
               Overwrites(was, BodyAt(after.inodes, id).value, if append then |was| else offset, data)
  {
    var body := fs.inodes[id].kind.body;
    var start := if append then |body| else offset;
    SetBodyDoes(fs, id, Patched(body, start, data));
    PatchedOverwrites(body, start, data);
  }

  /** Replacing a file's bytes touches nothing else. */
  lemma SetBodyDoes(fs: Fs, id: Id, body: seq<byte>)
    requires IsFile(fs.inodes, id)
    ensures var after := SetBody(fs, id, body);
            SameEntries(fs, after) && SameBodiesBut(fs, after, id) && BodyAt(after.inodes, id) == Some(body)
  {
  }

  lemma PatchedOverwrites(body: seq<byte>, start: nat, data: seq<byte>)
    ensures Overwrites(body, Patched(body, start, data), start, data)
  {
    forall i | 0 <= i < |Patched(body, start, data)|
      ensures Patched(body, start, data)[i]
              == if start <= i < start + |data| then data[i - start] else if i < |body| then body[i] else 0 {
      PatchedAt(body, start, data, i);
    }
  }

  /** A file cut or zero-filled to a size. */
  ghost predicate Resizes(was: seq<byte>, now: seq<byte>, size: nat) {
    |now| == size && forall i :: 0 <= i < size ==> now[i] == if i < |was| then was[i] else 0
  }

  lemma SizeChange(fs: Fs, id: Id, size: nat)
    requires Truncate(fs, id, size).Ok?
    ensures var after := Truncate(fs, id, size).value;
            && SameEntries(fs, after) && SameBodiesBut(fs, after, id)
            && BodyAt(fs.inodes, id).Some? && BodyAt(after.inodes, id).Some?
            && Resizes(BodyAt(fs.inodes, id).value, BodyAt(after.inodes, id).value, size)
  {
    SetBodyDoes(fs, id, Resized(fs.inodes[id].kind.body, size));
  }

  /** Only known attribute bits; explicit times only with their times, in range. */
  predicate LegalAttributes(mask: bv32, atimeNs: nat, mtimeNs: nat) {
    && mask & 0xffff_fe00 == 0
    && (mask & 0x80 != 0 ==> mask & 0x10 != 0 && atimeNs < 1_000_000_000)
    && (mask & 0x100 != 0 ==> mask & 0x20 != 0 && mtimeNs < 1_000_000_000)
  }

  /** Tsetattr: a known fid, legal attributes, and for a size a file that may take it; only a size changes the tree. */
  lemma TsetattrExactly(fs: Fs, s: Session, tag: nat, fid: U32, mask: bv32, size: nat, atimeNs: nat,
                        mtimeNs: nat, capacity: nat)
    requires Inv(fs)
    ensures var d, id := Execute(fs, s, tag, Setattr(fid, mask, size, atimeNs, mtimeNs), capacity), Target(s, fid);
            && (d.result.Ok? <==> fid in s.fids && LegalAttributes(mask, atimeNs, mtimeNs)
                                  && (if mask & 8 == 0 then id in fs.inodes
                                      else IsFile(fs.inodes, id) && Fits(fs, id, size)))
            && d.session == s
            && (d.result.Ok? && mask & 8 == 0 ==> d.fs == fs)
            && (d.result.Ok? && mask & 8 != 0 ==>
                  && SameEntries(fs, d.fs) && SameBodiesBut(fs, d.fs, id) && BodyAt(d.fs.inodes, id).Some?
                  && Resizes(BodyAt(fs.inodes, id).value, BodyAt(d.fs.inodes, id).value, size))
  {
    var id := Target(s, fid);
    ResizeExactly(fs, id, size);
    if Truncate(fs, id, size).Ok? { SizeChange(fs, id, size); }
  }

  /** Tlopen may go ahead. */
  predicate MayOpen(fs: Fs, s: Session, fid: U32, flags: bv32) {
    && fid in s.fids && s.fids[fid].open.None? && LegalFlags(flags)
    && var id := s.fids[fid].inode;
       && id in fs.inodes && !fs.inodes[id].kind.Symlink?
       && (IsDir(fs.inodes, id) ==> !WriteAccess(flags) && flags & 0x200 == 0)
       && (IsFile(fs.inodes, id) ==> flags & 0x10000 == 0 && (flags & 0x200 != 0 ==> Fits(fs, id, 0)))
  }

  lemma TlopenExactly(fs: Fs, s: Session, tag: nat, fid: U32, flags: bv32, capacity: nat)
    requires Inv(fs) && capacity >= 24
    ensures Execute(fs, s, tag, Request.Open(fid, flags), capacity).result.Ok? <==> MayOpen(fs, s, fid, flags)
  {
    FlagsAreChecked(flags);
    ResizeExactly(fs, Target(s, fid), 0);
    KindsAreChecked(fs, Target(s, fid), flags);
  }

  lemma KindsAreChecked(fs: Fs, id: Id, flags: bv32)
    ensures id in fs.inodes ==>
              (OpenError(fs.inodes[id].kind, flags).None?
               <==> !fs.inodes[id].kind.Symlink? && (IsDir(fs.inodes, id) ==> !WriteAccess(flags) && flags & 0x200 == 0)
                    && (IsFile(fs.inodes, id) ==> flags & 0x10000 == 0))
  {
  }

  /** Tlopen marks its fid open with the flags, and empties the file when they truncate; nothing else changes. */
  lemma TlopenDoes(fs: Fs, s: Session, tag: nat, fid: U32, flags: bv32, capacity: nat)
    requires Inv(fs) && Execute(fs, s, tag, Request.Open(fid, flags), capacity).result.Ok?
    ensures var d, id := Execute(fs, s, tag, Request.Open(fid, flags), capacity), Target(s, fid);
            && d.session == s.(fids := s.fids[fid := Fid(id, Some(flags))])
            && SameEntries(fs, d.fs) && SameBodiesBut(fs, d.fs, id)
            && (if flags & 0x200 != 0 then BodyAt(d.fs.inodes, id) == Some([]) else d.fs == fs)
  {
    var id := Target(s, fid);
    if flags & 0x200 != 0 { SizeChange(fs, id, 0); }
  }

  // ------------------------------------------------------------------- directory entries

  /** A new inode of the kind under the name in the fid's directory, and nothing else. */
  ghost predicate Adds(a: Fs, b: Fs, p: Id, n: Name, kind: Kind) {
    && EntryAt(a.inodes, p, n) == None && EntryAt(b.inodes, p, n) == Some(a.nextInode)
    && a.nextInode !in a.inodes && a.nextInode in b.inodes && b.inodes[a.nextInode].kind == kind
    && (forall d: Id, x: Name :: d != a.nextInode && (d != p || x != n) ==>
          EntryAt(b.inodes, d, x) == EntryAt(a.inodes, d, x))
    && SameBodiesBut(a, b, a.nextInode)
  }

  lemma CreationAdds(fs: Fs, p: Id, n: Name, kind: Kind)
    requires SumsExact(fs) && CreateAt(fs, p, n, kind).Ok?
    ensures Adds(fs, CreateAt(fs, p, n, kind).value.0, p, n, kind) && CreateAt(fs, p, n, kind).value.1 == fs.nextInode
  {
    forall d: Id, x: Name ensures InsertedAt(fs, p, n, kind, d, x) { InsertAddsOneEntry(fs, p, n, kind, d, x); }
    assert InsertedAt(fs, p, n, kind, p, n);
  }

  ghost predicate InsertedAt(fs: Fs, p: Id, n: Name, kind: Kind, d: Id, x: Name)
    requires Insert(fs, p, n, kind).Ok?
  {
    var (after, id) := Insert(fs, p, n, kind).value;
    && id !in fs.inodes && id in after.inodes && after.inodes[id].kind == kind
    && EntryAt(after.inodes, p, n) == Some(id) && EntryAt(fs.inodes, p, n) == None
    && (d != id && (d != p || x != n) ==> EntryAt(after.inodes, d, x) == EntryAt(fs.inodes, d, x))
    && (d != id ==> BodyAt(after.inodes, d) == BodyAt(fs.inodes, d))
  }

  /** Tmkdir makes an empty directory exactly where it may. */
  lemma TmkdirExactly(fs: Fs, s: Session, tag: nat, fid: U32, name: Name, capacity: nat)
    requires Inv(fs) && capacity >= 20
    ensures var d, p := Execute(fs, s, tag, Mkdir(fid, name), capacity), Target(s, fid);
            && (d.result.Ok? <==> OnDirectory(fs, s, fid) && MayCreate(fs, p, name)) && d.session == s
            && (d.result.Ok? ==> Adds(fs, d.fs, p, name, Directory(map[], 1)))
  {
    DirectoriesAreChecked(fs, s, fid);
    CreateExactly(fs, Target(s, fid), name, Directory(map[], 1));
    if Execute(fs, s, tag, Mkdir(fid, name), capacity).result.Ok? {
      CreationAdds(fs, Target(s, fid), name, Directory(map[], 1));
    }
  }

  /** Tsymlink makes a link to the given target exactly where it may. */
  lemma TsymlinkExactly(fs: Fs, s: Session, tag: nat, fid: U32, name: Name, target: string, capacity: nat)
    requires Inv(fs) && capacity >= 20
    ensures var d, p := Execute(fs, s, tag, MakeSymlink(fid, name, target), capacity), Target(s, fid);
            && (d.result.Ok? <==> OnDirectory(fs, s, fid) && MayCreate(fs, p, name)
                                  && |target| <= 65535 && '\0' !in target)
            && d.session == s && (d.result.Ok? ==> Adds(fs, d.fs, p, name, Symlink(target)))
  {
    DirectoriesAreChecked(fs, s, fid);
    CreateExactly(fs, Target(s, fid), name, Symlink(target));
    if Execute(fs, s, tag, MakeSymlink(fid, name, target), capacity).result.Ok? {
      CreationAdds(fs, Target(s, fid), name, Symlink(target));
    }
  }

  /** Tlink gives the second fid's inode another name in the first fid's directory, exactly where it may. */
  lemma TlinkExactly(fs: Fs, s: Session, tag: nat, directory: U32, fid: U32, name: Name, capacity: nat)
    requires Inv(fs) && capacity >= 7
    ensures var d := Execute(fs, s, tag, Request.Link(directory, fid, name), capacity);
            var p, id := Target(s, directory), Target(s, fid);
            && (d.result.Ok? <==> OnDirectory(fs, s, directory) && fid in s.fids && MayLink(fs, p, name, id))
            && d.session == s && (d.result.Ok? ==> LinkAt(fs, p, name, id) == Ok(d.fs))
  {
    DirectoriesAreChecked(fs, s, directory);
    LinkExactly(fs, Target(s, directory), name, Target(s, fid));
  }

  /** A link adds its one entry and touches no body. */
  lemma LinkDoes(fs: Fs, p: Id, n: Name, id: Id)
    requires LinkAt(fs, p, n, id).Ok?
    ensures var after := LinkAt(fs, p, n, id).value;
            && EntryAt(after.inodes, p, n) == Some(id) && SameEntriesBut(fs, after, p, n)
            && forall x: Id :: BodyAt(after.inodes, x) == BodyAt(fs.inodes, x)
  {
    forall d: Id, x: Name ensures LinkedAt(fs, p, n, id, d, x) { LinkAtAddsOneEntry(fs, p, n, id, d, x); }
    assert LinkedAt(fs, p, n, id, p, n);
    forall x: Id ensures BodyAt(LinkAt(fs, p, n, id).value.inodes, x) == BodyAt(fs.inodes, x) {
      assert LinkedAt(fs, p, n, id, x, n);
    }
  }

  ghost predicate LinkedAt(fs: Fs, p: Id, n: Name, id: Id, d: Id, x: Name)
    requires LinkAt(fs, p, n, id).Ok?
  {
    var after := LinkAt(fs, p, n, id).value.inodes;
    && EntryAt(after, d, x) == (if d == p && x == n then Some(id) else EntryAt(fs.inodes, d, x))
    && BodyAt(after, d) == BodyAt(fs.inodes, d)
  }

  /** Trenameat moves the entry between the two fids' directories, exactly where it may. */
  lemma TrenameExactly(fs: Fs, s: Session, tag: nat, p: U32, n: Name, q: U32, o: Name, capacity: nat)
    requires Inv(fs) && capacity >= 7
    ensures var d := Execute(fs, s, tag, Rename(p, n, q, o), capacity);
            && (d.result.Ok? <==> OnDirectory(fs, s, p) && OnDirectory(fs, s, q)
                                  && MayRename(fs, Target(s, p), n, Target(s, q), o))
            && d.session == s
            && (d.result.Ok? ==> RenameAt(fs, Target(s, p), n, Target(s, q), o) == Ok(d.fs))
  {
    RenameRequestExactly(fs, s, p, n, q, o, capacity);
  }

  lemma RenameRequestExactly(fs: Fs, s: Session, p: U32, n: Name, q: U32, o: Name, capacity: nat)
    requires Inv(fs) && capacity >= 7
    ensures var d := RenameRequest(fs, s, p, n, q, o, capacity);
            && (d.result.Ok? <==> OnDirectory(fs, s, p) && OnDirectory(fs, s, q)
                                  && MayRename(fs, Target(s, p), n, Target(s, q), o))
            && d.session == s
            && (d.result.Ok? ==> RenameAt(fs, Target(s, p), n, Target(s, q), o) == Ok(d.fs))
  {
    DirectoriesAreChecked(fs, s, p);
    DirectoriesAreChecked(fs, s, q);
    RenameExactly(fs, Target(s, p), n, Target(s, q), o);
  }

  /** Tunlinkat takes away the named entry: a directory with its flag and empty, anything else without it. */
  lemma TunlinkExactly(fs: Fs, s: Session, tag: nat, directory: U32, name: Name, flags: bv32, capacity: nat)
    requires Inv(fs) && capacity >= 7
    ensures var d, p := Execute(fs, s, tag, Unlink(directory, name, flags), capacity), Target(s, directory);
            var e := EntryAt(fs.inodes, p, name);
            && (d.result.Ok? <==> flags & 0xffff_fdff == 0 && OnDirectory(fs, s, directory)
                                  && Legal(name) && LinkedDir(fs.inodes, p) && e.Some?
                                  && (if flags & 0x200 != 0 then IsEmptyDir(fs.inodes, e.value)
                                      else !IsDir(fs.inodes, e.value)))
            && d.session == s && (d.result.Ok? ==> RemoveAt(fs, p, name) == Ok(d.fs))
  {
    var p := Target(s, directory);
    DirectoriesAreChecked(fs, s, directory);
    LegalNames(name);
    EntriesAreThere(fs, p, name);
    RemoveExactly(fs, p, name);
  }

  /** A removal takes its one entry; a file keeps its bytes while another name or a fid holds it. */
  lemma RemoveDoes(fs: Fs, p: Id, n: Name)
    requires Inv(fs) && RemoveAt(fs, p, n).Ok?
    ensures var after, e := RemoveAt(fs, p, n).value, EntryAt(fs.inodes, p, n);
            && e.Some? && e.value in fs.inodes && EntryAt(after.inodes, p, n) == None && SameEntriesBut(fs, after, p, n)
            && SameBodiesBut(fs, after, e.value)
            && (fs.inodes[e.value].linkCount > 1 || fs.inodes[e.value].fidRefs > 0 ==>
                  BodyAt(after.inodes, e.value) == BodyAt(fs.inodes, e.value))
  {
    EntriesAreThere(fs, p, n);
    forall d: Id, x: Name ensures RemovedAt(fs, p, n, d, x) { RemoveAtTakesOneEntry(fs, p, n, d, x); }
    RemovedEverywhere(fs, p, n);
  }

  lemma RemovedEverywhere(fs: Fs, p: Id, n: Name)
    requires RemoveAt(fs, p, n).Ok? && forall d: Id, x: Name :: RemovedAt(fs, p, n, d, x)
    ensures var after, e := RemoveAt(fs, p, n).value, EntryAt(fs.inodes, p, n);
            && e.Some? && e.value in fs.inodes && EntryAt(after.inodes, p, n) == None && SameEntriesBut(fs, after, p, n)
            && SameBodiesBut(fs, after, e.value)
            && (fs.inodes[e.value].linkCount > 1 || fs.inodes[e.value].fidRefs > 0 ==>
                  BodyAt(after.inodes, e.value) == BodyAt(fs.inodes, e.value))
  {
    assert RemovedAt(fs, p, n, p, n);
    forall d: Id ensures RemovedAt(fs, p, n, d, n) {}
  }

  ghost predicate RemovedAt(fs: Fs, p: Id, n: Name, d: Id, x: Name)
    requires RemoveAt(fs, p, n).Ok?
  {
    var after, e := RemoveAt(fs, p, n).value.inodes, EntryAt(fs.inodes, p, n);
    && EntryAt(after, d, x) == (if d == p && x == n then None else EntryAt(fs.inodes, d, x))
    && e.Some? && e.value in fs.inodes
    && (d != e.value || fs.inodes[e.value].linkCount > 1 || fs.inodes[e.value].fidRefs > 0 ==>
          BodyAt(after, d) == BodyAt(fs.inodes, d))
  }

  // ------------------------------------------------------------------------------- locks

  /** The lock a Tlock speaks of. */
  function LockOf(s: Session, r: Request): ByteLocks.Lock
    requires r.LockRange?
  {
    ByteLocks.Lock(Target(s, r.fid), s.id, if r.kind == 1 then ByteLocks.WriteLock else ByteLocks.ReadLock,
                   r.start, r.length, r.process, r.client)
  }

  /** Tlock may be tried: an open file, known flags, and for a lock the access it is for. */
  predicate MayLock(fs: Fs, s: Session, r: Request)
    requires r.LockRange?
  {
    && r.flags & 0xffff_fffe == 0 && r.fid in s.fids && s.fids[r.fid].open.Some? && IsFile(fs.inodes, Target(s, r.fid))
    && r.kind <= 2
    && (r.kind == 0 ==> ReadAccess(s.fids[r.fid].open.value)) && (r.kind == 1 ==> WriteAccess(s.fids[r.fid].open.value))
  }

  /** Some byte of the range is held incompatibly by another owner. */
  ghost predicate HeldByOther(fs: Fs, s: Session, r: Request)
    requires r.LockRange?
  {
    exists b :: ByteLocks.Covers(LockOf(s, r), b) && ByteLocks.HeldAgainst(fs.locks, LockOf(s, r), b)
  }

  /** Tlock answers exactly when it may be tried, and reports blocked exactly when another owner is in the way. */
  lemma TlockExactly(fs: Fs, s: Session, tag: nat, r: Request, capacity: nat)
    requires Inv(fs) && capacity >= 8 && r.LockRange?
    ensures var d := Execute(fs, s, tag, r, capacity);
            && (d.result.Ok? <==> MayLock(fs, s, r)) && d.session == s && d.fs.inodes == fs.inodes
            && (d.result.Ok? ==> (d.blocked <==> r.kind != 2 && HeldByOther(fs, s, r)))
            && (d.result.Ok? && d.blocked ==> d.fs == fs)
  {
    ByteLocks.BlockedExactlyWhenHeldAgainst(fs.locks, LockOf(s, r));
  }

  /** Per byte: a granted lock holds its range for its owner, an unlock frees it, and every other hold stays. */
  lemma TlockDoes(fs: Fs, s: Session, tag: nat, r: Request, capacity: nat, inode: Id, process: nat, client: string,
                  b: nat)
    requires Inv(fs) && capacity >= 8 && r.LockRange? && MayLock(fs, s, r)
    ensures var d, l := Execute(fs, s, tag, r, capacity), LockOf(s, r);
            ByteLocks.HoldAt(d.fs.locks, inode, process, client, b)
            == if d.blocked || !ByteLocks.Covers(l, b) || inode != l.inode || process != r.process || client != r.client
               then ByteLocks.HoldAt(fs.locks, inode, process, client, b)
               else if r.kind == 2 then None else Some(ByteLocks.Hold(l.kind, s.id))
  {
    var l := LockOf(s, r);
    LockRequestLocks(fs, s, r, capacity);
    if r.kind == 2 {
      ByteLocks.SubtractClearsExactlyTheRange(fs.locks, l, inode, process, client, b);
    } else if ByteLocks.Acquire(fs.locks, l).Some? {
      ByteLocks.AcquireWritesExactlyTheRange(fs.locks, l, inode, process, client, b);
    }
  }

  lemma LockRequestLocks(fs: Fs, s: Session, r: Request, capacity: nat)
    requires Inv(fs) && capacity >= 8 && r.LockRange? && MayLock(fs, s, r)
    ensures var d, l := LockRequest(fs, s, r, capacity), LockOf(s, r);
            && d.fs.locks == (if r.kind == 2 then ByteLocks.Subtract(fs.locks, l)
                              else match ByteLocks.Acquire(fs.locks, l) case None => fs.locks case Some(locks) => locks)
            && (d.blocked <==> r.kind != 2 && ByteLocks.Acquire(fs.locks, l).None?)
  {
  }

  // -------------------------------------------------------------------------------- create

  /** Tlcreate may go ahead: an existing file that may be opened so, or a name that may be created. */
  predicate MayOpenOrCreate(fs: Fs, s: Session, fid: U32, name: Name, flags: bv32) {
    && MayAskFor(fs, s, fid, flags)
    && var p := s.fids[fid].inode;
       match EntryAt(fs.inodes, p, name)
       case None => MayCreate(fs, p, name)
       case Some(id) =>
         && flags & 0x80 == 0 && IsFile(fs.inodes, id) && fs.inodes[id].fidRefs < 0xffff_ffff
         && (flags & 0x200 != 0 ==> Fits(fs, id, 0))
  }

  lemma CreateTargetExactly(fs: Fs, p: Id, name: Name, flags: bv32)
    requires Inv(fs) && IsDir(fs.inodes, p)
    ensures CreateTarget(fs, p, name, flags).Ok?
            <==> match EntryAt(fs.inodes, p, name)
                 case None => MayCreate(fs, p, name)
                 case Some(id) => flags & 0x80 == 0 && IsFile(fs.inodes, id) && (flags & 0x200 != 0 ==> Fits(fs, id, 0))
  {
    LegalNames(name);
    EntriesAreThere(fs, p, name);
    CreateExactly(fs, p, name, File([]));
    var e := EntryAt(fs.inodes, p, name);
    if e.Some? {
      EntriesAreLegal(fs, p, name);
      ResizeExactly(fs, e.value, 0);
    }
  }

  lemma EntriesAreLegal(fs: Fs, p: Id, name: Name)
    requires Inv(fs) && EntryAt(fs.inodes, p, name).Some?
    ensures Legal(name) && LinkedDir(fs.inodes, p)
  {
    LegalNames(name);
    assert HasEntry(fs.inodes, p, name, EntryAt(fs.inodes, p, name).value);
  }

  /** What Tlcreate leaves: the entry names the inode, emptied or new, and nothing else differs. */
  ghost predicate OpensOrCreates(a: Fs, b: Fs, p: Id, name: Name, flags: bv32, id: Id) {
    match EntryAt(a.inodes, p, name)
    case None => id == a.nextInode && Adds(a, b, p, name, File([]))
    case Some(was) =>
      && id == was && SameEntries(a, b) && SameBodiesBut(a, b, id)
      && BodyAt(b.inodes, id) == if flags & 0x200 != 0 then Some([]) else BodyAt(a.inodes, id)
  }

  lemma CreateTargetDoes(fs: Fs, p: Id, name: Name, flags: bv32)
    requires Inv(fs) && IsDir(fs.inodes, p) && CreateTarget(fs, p, name, flags).Ok?
    ensures var (f, id) := CreateTarget(fs, p, name, flags).value;
            OpensOrCreates(fs, f, p, name, flags, id) && LinkedDir(f.inodes, p) && id in f.inodes
  {
    LegalNames(name);
    EntriesAreThere(fs, p, name);
    CreateTargetExactly(fs, p, name, flags);
    var e := EntryAt(fs.inodes, p, name);
    if e.Some? {
      EntriesAreLegal(fs, p, name);
      if flags & 0x200 != 0 { SizeChange(fs, e.value, 0); }
    } else {
      CreationAdds(fs, p, name, File([]));
    }
  }

  /** No inode's contents differ; counters may. */
  ghost predicate SameTree(a: Fs, b: Fs) {
    b.inodes.Keys == a.inodes.Keys && forall x: Id :: x in a.inodes ==> b.inodes[x].kind == a.inodes[x].kind
  }

  /** Rebinding a fid from a linked inode succeeds exactly when the new one can count another fid. */
  lemma RebindExactly(fs: Fs, s: Session, number: U32, fid: Fid)
    requires number in s.fids && s.fids[number].inode in fs.inodes && fid.inode in fs.inodes
    requires fs.inodes[s.fids[number].inode].fidRefs > 0 && fs.inodes[s.fids[number].inode].linkCount > 0
    ensures var d := InstallFid(fs, s, number, fid);
            && (d.result.Ok? <==> fs.inodes[fid.inode].fidRefs < 0xffff_ffff)
            && (d.result.Ok? ==> d.session == s.(fids := s.fids[number := fid]) && SameTree(fs, d.fs))
  {
  }

  /** Tlcreate opens or creates exactly where it may, and its fid then names that inode, open with the flags. */
  lemma TlcreateExactly(fs: Fs, s: Session, tag: nat, fid: U32, name: Name, flags: bv32, capacity: nat)
    requires Inv(fs) && capacity >= 24
    requires fid in s.fids && s.fids[fid].inode in fs.inodes ==> fs.inodes[s.fids[fid].inode].fidRefs > 0
    ensures var d, p := Execute(fs, s, tag, Create(fid, name, flags), capacity), Target(s, fid);
            && (d.result.Ok? <==> MayOpenOrCreate(fs, s, fid, name, flags))
            && (d.result.Ok? ==>
                  && fid in d.session.fids
                  && d.session == s.(fids := s.fids[fid := Fid(d.session.fids[fid].inode, Some(flags))])
                  && OpensOrCreates(fs, d.fs, p, name, flags, d.session.fids[fid].inode))
  {
    FlagsAreChecked(flags);
    DirectoriesAreChecked(fs, s, fid);
    CreateRequestChecks(fs, s, fid, name, flags, capacity);
    if MayAskFor(fs, s, fid, flags) {
      var p := s.fids[fid].inode;
      CreateTargetExactly(fs, p, name, flags);
      if CreateTarget(fs, p, name, flags).Ok? { CreatedThenBound(fs, s, fid, name, flags); }
    }
  }

  /** What Tlcreate asks of its fid and flags. */
  predicate MayAskFor(fs: Fs, s: Session, fid: U32, flags: bv32) {
    OnDirectory(fs, s, fid) && s.fids[fid].open.None? && LegalFlags(flags) && flags & 0x10000 == 0
  }

  lemma CreateRequestChecks(fs: Fs, s: Session, fid: U32, name: Name, flags: bv32, capacity: nat)
    requires capacity >= 24
    ensures var d := CreateRequest(fs, s, fid, name, flags, capacity);
            if !MayAskFor(fs, s, fid, flags) then d.result.Err?
            else
              var t := CreateTarget(fs, s.fids[fid].inode, name, flags);
              if t.Err? then d.result.Err?
              else
                var b := InstallFid(t.value.0, s, fid, Fid(t.value.1, Some(flags)));
                (d.result.Ok? <==> b.result.Ok?) && d.session == b.session && d.fs == b.fs
  {
    FlagsAreChecked(flags);
    DirectoriesAreChecked(fs, s, fid);
  }

  lemma CreatedThenBound(fs: Fs, s: Session, fid: U32, name: Name, flags: bv32)
    requires Inv(fs) && OnDirectory(fs, s, fid) && fs.inodes[s.fids[fid].inode].fidRefs > 0
    requires CreateTarget(fs, s.fids[fid].inode, name, flags).Ok?
    ensures var p := s.fids[fid].inode;
            var (f, id) := CreateTarget(fs, p, name, flags).value;
            var d := InstallFid(f, s, fid, Fid(id, Some(flags)));
            && (d.result.Ok? <==> EntryAt(fs.inodes, p, name) == None || fs.inodes[id].fidRefs < 0xffff_ffff)
            && (d.result.Ok? ==> d.session == s.(fids := s.fids[fid := Fid(id, Some(flags))])
                                 && OpensOrCreates(fs, d.fs, p, name, flags, id))
  {
    var p := s.fids[fid].inode;
    var (f, id) := CreateTarget(fs, p, name, flags).value;
    CreateTargetDoes(fs, p, name, flags);
    CreateTargetRefs(fs, p, name, flags);
    BoundToTarget(fs, f, s, fid, p, name, flags, id);
  }

  lemma BoundToTarget(fs: Fs, f: Fs, s: Session, fid: U32, p: Id, name: Name, flags: bv32, id: Id)
    requires OpensOrCreates(fs, f, p, name, flags, id) && LinkedDir(f.inodes, p) && f.inodes[p].fidRefs > 0
    requires fid in s.fids && s.fids[fid].inode == p && id in f.inodes
    ensures var d := InstallFid(f, s, fid, Fid(id, Some(flags)));
            && (d.result.Ok? <==> f.inodes[id].fidRefs < 0xffff_ffff)
            && (d.result.Ok? ==> d.session == s.(fids := s.fids[fid := Fid(id, Some(flags))])
                                 && OpensOrCreates(fs, d.fs, p, name, flags, id))
  {
    RebindExactly(f, s, fid, Fid(id, Some(flags)));
    var d := InstallFid(f, s, fid, Fid(id, Some(flags)));
    if d.result.Ok? { SameTreeOpens(fs, f, d.fs, p, name, flags, id); }
  }

  lemma CreateTargetRefs(fs: Fs, p: Id, name: Name, flags: bv32)
    requires Inv(fs) && IsDir(fs.inodes, p) && CreateTarget(fs, p, name, flags).Ok?
    ensures var (f, id) := CreateTarget(fs, p, name, flags).value;
            && p in f.inodes && f.inodes[p].fidRefs == fs.inodes[p].fidRefs
            && id in f.inodes
            && f.inodes[id].fidRefs == if EntryAt(fs.inodes, p, name).Some? then fs.inodes[id].fidRefs else 0
  {
    LegalNames(name);
    EntriesAreThere(fs, p, name);
    if EntryAt(fs.inodes, p, name).Some? { EntriesAreLegal(fs, p, name); }
  }

  lemma SameTreeOpens(fs: Fs, f: Fs, g: Fs, p: Id, name: Name, flags: bv32, id: Id)
    requires OpensOrCreates(fs, f, p, name, flags, id) && SameTree(f, g)
    ensures OpensOrCreates(fs, g, p, name, flags, id)
  {
    assert forall d: Id, x: Name :: EntryAt(g.inodes, d, x) == EntryAt(f.inodes, d, x);
    assert forall d: Id :: BodyAt(g.inodes, d) == BodyAt(f.inodes, d);
  }

  // ---------------------------------------------------------------------- version and gate

  /** Tversion: only untagged, with a workable size; it drops every fid and agrees on size and dialect. */
  lemma TversionExactly(fs: Fs, s: Session, tag: nat, size: nat, version: string, capacity: nat)
    requires Inv(fs) && ReleaseFids(fs, s).Ok? && capacity >= 7 + 4 + 2 + 8
    ensures var d := Execute(fs, s, tag, Version(size, version), capacity);
            && (d.result.Ok? <==> tag == 0xffff && size >= 256)
            && (d.result.Ok? ==>
                  && d.session == s.(fids := map[], msize := if size < 65536 then size else 65536,
                                     negotiated := version == "9P2000.L")
                  && ReleaseFids(fs, s) == Ok(d.fs)
                  && d.result.value == 13 + if version == "9P2000.L" then 8 else 7)
  {
  }

  /** A message is carried out: an open session, a tag that fits, a negotiated dialect, room for the reply. */
  predicate Admitted(s: Session, msg: Message, capacity: nat) {
    && !s.closed && msg.Message?
    && (msg.request.Version? || (msg.tag != 0xffff && (s.negotiated || msg.request.Flush?)))
    && var room := RoomFor(s, msg.request, capacity); room >= 7 && room >= MinimumReply(msg.request)
  }

  /** The reply may use the buffer up to the agreed size; before Tversion up to the largest. */
  function RoomFor(s: Session, r: Request, capacity: nat): nat {
    var agreed := if r.Version? then 65536 else s.msize;
    if capacity <= agreed then capacity else agreed
  }

  /** A message is answered with success if and only if it is admitted and its request succeeds. */
  lemma SubmitExactly(fs: Fs, s: Session, msg: Message, capacity: nat)
    requires Inv(fs)
    ensures var t := if s.closed || s.generation == fs.generation then s
                     else s.(fids := map[], generation := fs.generation);
            var r := Submit(fs, s, msg, capacity);
            if Admitted(t, msg, capacity) then
              var d := Execute(fs, t, msg.tag, msg.request, RoomFor(t, msg.request, capacity));
              && r.fs == d.fs && r.session == d.session
              && (if d.result.Ok? then r.answer == Reply(d.result.value, d.blocked)
                  else if RoomFor(t, msg.request, capacity) >= 11 then r.answer == ErrorReply(d.result.error)
                  else r.answer == Failed(ReplyTooSmall))
            else r.fs == fs && r.session == t && !r.answer.Reply?
  {
    if !s.closed {
      var t := Synced(s, fs);
      match msg
      case NoHeader =>
      case BadBody(_, _) =>
      case Message(tag, request) => assert RoomFor(t, request, capacity) == Capacity(t, request.Version?, capacity);
    }
  }
}
