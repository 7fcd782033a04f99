/**
 Which error number a refused request of src/ninep_protocol.rs reports: the first fault, in
 the order the code looks for them, said on fids, entries, kinds and limits.
 */
module SessionErrors {
  import opened Wrappers
  import opened Namespace
  import opened NamespaceInvariant
  import opened NamespaceEffects
  import opened NamespaceAcceptance
  import opened Sessions
  import opened SessionRequests

  /** The Linux error number of a namespace error. */
  function Number(e: FsError): nat {
    if e == NotFound then 2 else if e == AlreadyExists then 17 else if e == NotDirectory then 20
    else if e == IsDirectory then 21 else if e == InvalidPath then 22 else if e == FileTooLarge then 27
    else if e == NoSpace then 28 else if e == NameTooLong then 36 else 39
  }

  lemma NumbersAreTold(e: FsError)
    ensures ErrnoOf(e) == Number(e)
  {
  }

  /** What is wrong with a fid that should name a directory: unknown, stale, or something else. */
  function DirectoryFault(fs: Fs, s: Session, fid: U32): Option<nat> {
    if fid !in s.fids then Some(9)
    else if s.fids[fid].inode !in fs.inodes then Some(116)
    else if !IsDir(fs.inodes, s.fids[fid].inode) then Some(20)
    else None
  }

  function CreateRefusal(fs: Fs, p: Id, n: Name): FsError {
    if PlaceRefusal(fs.inodes, p, n).Some? then PlaceRefusal(fs.inodes, p, n).value
    else if EntryAt(fs.inodes, p, n) != None then AlreadyExists else NoSpace
  }

  lemma TmkdirRefused(fs: Fs, s: Session, tag: nat, fid: U32, name: Name, capacity: nat)
    requires Inv(fs) && capacity >= 20
    ensures var r, fault := Execute(fs, s, tag, Mkdir(fid, name), capacity).result, DirectoryFault(fs, s, fid);
            r.Err? ==> r.error == if fault.Some? then fault.value else Number(CreateRefusal(fs, Target(s, fid), name))
  {
    MkdirRefused(fs, s, fid, name, capacity);
  }

  lemma MkdirRefused(fs: Fs, s: Session, fid: U32, name: Name, capacity: nat)
    requires capacity >= 20
    ensures var r, fault := MkdirRequest(fs, s, fid, name, capacity).result, DirectoryFault(fs, s, fid);
            r.Err? ==> r.error == if fault.Some? then fault.value else Number(CreateRefusal(fs, Target(s, fid), name))
  {
    CreateExactly(fs, Target(s, fid), name, Directory(map[], 1));
    NumbersAreTold(CreateRefusal(fs, Target(s, fid), name));
  }

  lemma TsymlinkRefused(fs: Fs, s: Session, tag: nat, fid: U32, name: Name, target: string, capacity: nat)
    requires Inv(fs) && capacity >= 20
    ensures var r := Execute(fs, s, tag, MakeSymlink(fid, name, target), capacity).result;
            var fault := DirectoryFault(fs, s, fid);
            r.Err? ==> r.error == if fault.Some? then fault.value
                                  else if |target| > 65535 || '\0' in target then 22
                                  else Number(CreateRefusal(fs, Target(s, fid), name))
  {
    SymlinkRefused(fs, s, fid, name, target, capacity);
  }

  lemma SymlinkRefused(fs: Fs, s: Session, fid: U32, name: Name, target: string, capacity: nat)
    requires capacity >= 20
    ensures var r, fault := SymlinkRequest(fs, s, fid, name, target, capacity).result, DirectoryFault(fs, s, fid);
            r.Err? ==> r.error == if fault.Some? then fault.value
                                  else if |target| > 65535 || '\0' in target then 22
                                  else Number(CreateRefusal(fs, Target(s, fid), name))
  {
    CreateExactly(fs, Target(s, fid), name, Symlink(target));
    NumbersAreTold(CreateRefusal(fs, Target(s, fid), name));
  }

  function LinkRefusal(fs: Fs, p: Id, n: Name, id: Id): FsError
    requires id in fs.inodes
  {
    if PlaceRefusal(fs.inodes, p, n).Some? then PlaceRefusal(fs.inodes, p, n).value
    else if fs.inodes[id].linkCount < 0xffff_ffff && EntryAt(fs.inodes, p, n) != None then AlreadyExists
    else NoSpace
  }

  lemma TlinkRefused(fs: Fs, s: Session, tag: nat, directory: U32, fid: U32, name: Name, capacity: nat)
    requires Inv(fs) && capacity >= 7
    ensures var r := Execute(fs, s, tag, Request.Link(directory, fid, name), capacity).result;
            var fault, id := DirectoryFault(fs, s, directory), Target(s, fid);
            r.Err? ==> r.error == if fault.Some? then fault.value
                                  else if fid !in s.fids then 9
                                  else if id !in fs.inodes then 116
                                  else if IsDir(fs.inodes, id) then 1
                                  else Number(LinkRefusal(fs, Target(s, directory), name, id))
  {
    LinkRefused(fs, s, directory, fid, name, capacity);
  }

  lemma LinkRefused(fs: Fs, s: Session, directory: U32, fid: U32, name: Name, capacity: nat)
    requires capacity >= 7
    ensures var r := LinkRequest(fs, s, directory, fid, name, capacity).result;
            var fault, id := DirectoryFault(fs, s, directory), Target(s, fid);
            r.Err? ==> r.error == if fault.Some? then fault.value
                                  else if fid !in s.fids then 9
                                  else if id !in fs.inodes then 116
                                  else if IsDir(fs.inodes, id) then 1
                                  else Number(LinkRefusal(fs, Target(s, directory), name, id))
  {
    var id := Target(s, fid);
    LinkExactly(fs, Target(s, directory), name, id);
    if id in fs.inodes { NumbersAreTold(LinkRefusal(fs, Target(s, directory), name, id)); }
  }

  lemma TrenameRefused(fs: Fs, s: Session, tag: nat, p: U32, n: Name, q: U32, o: Name, capacity: nat)
    requires Inv(fs) && capacity >= 7
    ensures var r := Execute(fs, s, tag, Rename(p, n, q, o), capacity).result;
            var first, second := DirectoryFault(fs, s, p), DirectoryFault(fs, s, q);
            r.Err? ==> r.error == if first.Some? then first.value else if second.Some? then second.value
                                  else Number(RenameRefusal(fs, Target(s, p), n, Target(s, q), o))
  {
    RenameRequestRefused(fs, s, p, n, q, o, capacity);
  }

  lemma RenameRequestRefused(fs: Fs, s: Session, p: U32, n: Name, q: U32, o: Name, capacity: nat)
    requires Inv(fs) && capacity >= 7
    ensures var r := RenameRequest(fs, s, p, n, q, o, capacity).result;
            var first, second := DirectoryFault(fs, s, p), DirectoryFault(fs, s, q);
            r.Err? ==> r.error == if first.Some? then first.value else if second.Some? then second.value
                                  else Number(RenameRefusal(fs, Target(s, p), n, Target(s, q), o))
  {
    RenameExactly(fs, Target(s, p), n, Target(s, q), o);
    NumbersAreTold(RenameRefusal(fs, Target(s, p), n, Target(s, q), o));
  }

  lemma TunlinkRefused(fs: Fs, s: Session, tag: nat, directory: U32, name: Name, flags: bv32, capacity: nat)
    requires Inv(fs) && capacity >= 7
    ensures var r := Execute(fs, s, tag, Unlink(directory, name, flags), capacity).result;
            var fault, e := DirectoryFault(fs, s, directory), EntryAt(fs.inodes, Target(s, directory), name);
            r.Err? ==> r.error == if flags & 0xffff_fdff != 0 then 22
                                  else if fault.Some? then fault.value
                                  else if !Legal(name) then Number(NameFault(name))
                                  else if e == None then 2
                                  else if flags & 0x200 == 0 then 21
                                  else if !IsDir(fs.inodes, e.value) then 20 else 39
  {
    UnlinkRefused(fs, s, directory, name, flags, capacity);
  }

  lemma UnlinkRefused(fs: Fs, s: Session, directory: U32, name: Name, flags: bv32, capacity: nat)
    requires Inv(fs) && capacity >= 7
    ensures var r := UnlinkRequest(fs, s, directory, name, flags, capacity).result;
            var fault, e := DirectoryFault(fs, s, directory), EntryAt(fs.inodes, Target(s, directory), name);
            r.Err? ==> r.error == if flags & 0xffff_fdff != 0 then 22
                                  else if fault.Some? then fault.value
                                  else if !Legal(name) then Number(NameFault(name))
                                  else if e == None then 2
                                  else if flags & 0x200 == 0 then 21
                                  else if !IsDir(fs.inodes, e.value) then 20 else 39
  {
    var p := Target(s, directory);
    NumbersAreTold(NameFault(name));
    LegalNames(name);
    EntriesAreThere(fs, p, name);
    RemoveExactly(fs, p, name);
    if EntryAt(fs.inodes, p, name).Some? { EntriesAreLegal(fs, p, name); }
  }

  /** The first reason why a ranged write is refused. */
  function WriteRefusal(fs: Fs, id: Id, offset: nat, data: seq<byte>, append: bool): FsError {
    if !IsFile(fs.inodes, id) then (if id in fs.inodes then IsDirectory else NotFound)
    else
      var end, size := WriteEnd(fs, id, offset, data, append), |fs.inodes[id].kind.body|;
      if end > 0xffff_ffff_ffff_ffff || (if end > size then end else size) > fs.limits.maxFileBytes then FileTooLarge
      else NoSpace
  }

  lemma WriteRefused(fs: Fs, id: Id, offset: nat, data: seq<byte>, append: bool)
    requires Inv(fs) && WriteInode(fs, id, offset, data, append).Err?
    ensures WriteInode(fs, id, offset, data, append).error == WriteRefusal(fs, id, offset, data, append)
  {
    WriteExactly(fs, id, offset, data, append);
    if IsFile(fs.inodes, id) {
      var end, size := WriteEnd(fs, id, offset, data, append), |fs.inodes[id].kind.body|;
      SizesAreChecked(fs, id, if end > size then end else size);
    }
  }

  lemma TwriteRefused(fs: Fs, s: Session, tag: nat, fid: U32, offset: nat, data: seq<byte>, capacity: nat)
    requires Inv(fs) && capacity >= 11
    ensures var r := Execute(fs, s, tag, Write(fid, offset, data), capacity).result;
            r.Err? ==>
              r.error == if fid !in s.fids || s.fids[fid].open.None? || !WriteAccess(s.fids[fid].open.value) then 9
                         else Number(WriteRefusal(fs, s.fids[fid].inode, offset, data,
                                                  s.fids[fid].open.value & 0x400 != 0))
  {
    if fid in s.fids && s.fids[fid].open.Some? {
      var append := s.fids[fid].open.value & 0x400 != 0;
      if WriteInode(fs, s.fids[fid].inode, offset, data, append).Err? {
        WriteRefused(fs, s.fids[fid].inode, offset, data, append);
      }
    }
  }

  lemma TsetattrRefused(fs: Fs, s: Session, tag: nat, fid: U32, mask: bv32, size: nat, atimeNs: nat, mtimeNs: nat,
                        capacity: nat)
    requires Inv(fs)
    ensures var r := Execute(fs, s, tag, Setattr(fid, mask, size, atimeNs, mtimeNs), capacity).result;
            r.Err? ==> r.error == if fid !in s.fids then 9
                                  else if !LegalAttributes(mask, atimeNs, mtimeNs) then 22
                                  else if mask & 8 == 0 then 2 else Number(SizeRefusal(fs, Target(s, fid), size))
  {
    ResizeExactly(fs, Target(s, fid), size);
  }

  /** What is wrong with open flags: unknown ones, or a combination that makes no sense. */
  function FlagsFault(flags: bv32): nat {
    if flags & 0xffe0_0000 != 0 then 95 else 22
  }

  lemma TlopenRefused(fs: Fs, s: Session, tag: nat, fid: U32, flags: bv32, capacity: nat)
    requires Inv(fs) && capacity >= 24
    ensures var r, id := Execute(fs, s, tag, Request.Open(fid, flags), capacity).result, Target(s, fid);
            r.Err? ==> r.error == if fid !in s.fids then 9
                                  else if s.fids[fid].open.Some? then 16
                                  else if !LegalFlags(flags) then FlagsFault(flags)
                                  else if id !in fs.inodes then 116
                                  else if IsDir(fs.inodes, id) then 21
                                  else if fs.inodes[id].kind.Symlink? then 40
                                  else if flags & 0x10000 != 0 then 20 else 28
  {
    FlagsAreChecked(flags);
    ResizeExactly(fs, Target(s, fid), 0);
    KindsAreChecked(fs, Target(s, fid), flags);
  }

  lemma TlockRefused(fs: Fs, s: Session, tag: nat, r: Request, capacity: nat)
    requires Inv(fs) && capacity >= 8 && r.LockRange?
    ensures var d, id := Execute(fs, s, tag, r, capacity).result, Target(s, r.fid);
            d.Err? ==> d.error == if r.flags & 0xffff_fffe != 0 then 95
                                  else if r.fid !in s.fids || s.fids[r.fid].open.None? then 9
                                  else if id !in fs.inodes then 116
                                  else if !IsFile(fs.inodes, id) then 95
                                  else if r.kind > 2 then 22 else 9
  {
  }

  // ------------------------------------------------------------------------ reply sizes

  /** The reply fits, needs at least the minimum, and but for walks and versions exactly that. */
  ghost predicate RightSize(r: Request, d: Done, capacity: nat) {
    d.result.Ok? ==>
      && MinimumReply(r) <= d.result.value <= capacity
      && (!r.Walk? && !r.Version? ==> d.result.value == MinimumReply(r))
  }

  /** The minimum asked for before a request is carried out is what its reply takes. */
  lemma RepliesFit(fs: Fs, s: Session, tag: nat, r: Request, capacity: nat)
    requires Inv(fs) && !r.Query? && capacity >= 7 && capacity >= MinimumReply(r)
    ensures RightSize(r, Execute(fs, s, tag, r, capacity), capacity)
  {
    if r.Create? {
      CreateReplyFits(fs, s, r.fid, r.name, r.flags, capacity);
    } else if r.Version? || r.Flush? || r.Attach? || r.Walk? || r.Open? {
      FidRepliesFit(fs, s, tag, r, capacity);
    } else if r.Write? || r.Setattr? || r.Clunk? || r.LockRange? {
      FileRepliesFit(fs, s, tag, r, capacity);
    } else {
      EntryRepliesFit(fs, s, tag, r, capacity);
    }
  }

  lemma FidRepliesFit(fs: Fs, s: Session, tag: nat, r: Request, capacity: nat)
    requires Inv(fs) && capacity >= 7 && capacity >= MinimumReply(r)
    requires r.Version? || r.Flush? || r.Attach? || r.Walk? || r.Open?
    ensures RightSize(r, Execute(fs, s, tag, r, capacity), capacity)
  {
  }

  lemma CreateReplyFits(fs: Fs, s: Session, fid: U32, name: Name, flags: bv32, capacity: nat)
    requires capacity >= 24
    ensures RightSize(Create(fid, name, flags), CreateRequest(fs, s, fid, name, flags, capacity), capacity)
  {
  }

  lemma FileRepliesFit(fs: Fs, s: Session, tag: nat, r: Request, capacity: nat)
    requires Inv(fs) && capacity >= 7 && capacity >= MinimumReply(r)
    requires r.Write? || r.Setattr? || r.Clunk? || r.LockRange?
    ensures RightSize(r, Execute(fs, s, tag, r, capacity), capacity)
  {
  }

  lemma EntryRepliesFit(fs: Fs, s: Session, tag: nat, r: Request, capacity: nat)
    requires Inv(fs) && capacity >= 7 && capacity >= MinimumReply(r)
    requires r.MakeSymlink? || r.Mkdir? || r.Link? || r.Rename? || r.Unlink?
    ensures RightSize(r, Execute(fs, s, tag, r, capacity), capacity)
  {
  }
}
