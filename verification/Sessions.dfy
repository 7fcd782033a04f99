/**
 The 9P2000.L sessions of src/ninep_protocol.rs over one shared namespace:
 fid tables, generations, and the mutating requests with their reply sizes.
 */
module Sessions {
  import opened Wrappers
  import opened Namespace
  import opened NamespaceInvariant
  import ByteLocks

  const MAX_MESSAGE_SIZE: nat := 64 * 1024
  const MAX_FIDS: nat := 65_536
  const NOFID: nat := U32_MAX
  const NOTAG: nat := 0xffff

  type Errno = nat
  type U32 = n: nat | n <= U32_MAX

  const ENOENT: Errno := 2
  const EIO: Errno := 5
  const EBADF: Errno := 9
  const EBUSY: Errno := 16
  const EEXIST: Errno := 17
  const ENOTDIR: Errno := 20
  const EISDIR: Errno := 21
  const EINVAL: Errno := 22
  const ENOSPC: Errno := 28
  const ELOOP: Errno := 40
  const EPROTO: Errno := 71
  const EOPNOTSUPP: Errno := 95
  const ESTALE: Errno := 116
  const EPERM: Errno := 1

  datatype Fid = Fid(inode: Id, open: Option<bv32>)

  datatype Session = Session(id: nat, generation: nat, fids: map<U32, Fid>, msize: nat, negotiated: bool, closed: bool)

  datatype ProtocolError = Malformed | ReplyTooSmall | Closed | Invariant

  /** The parsed requests; the ones that cannot change anything share one constructor. */
  datatype Request =
    | Version(size: nat, version: string)
    | Flush
    | Attach(fid: U32, afid: U32)
    | Walk(fid: U32, newFid: U32, names: seq<Name>)
    | Open(fid: U32, flags: bv32)
    | Create(fid: U32, name: Name, flags: bv32)
    | Write(fid: U32, offset: nat, data: seq<byte>)
    | Setattr(fid: U32, mask: bv32, size: nat, atimeNs: nat, mtimeNs: nat)
    | Clunk(fid: U32)
    | MakeSymlink(fid: U32, name: Name, target: string)
    | Mkdir(fid: U32, name: Name)
    | Link(directory: U32, fid: U32, name: Name)
    | Rename(oldDirectory: U32, oldName: Name, newDirectory: U32, newName: Name)
    | Unlink(directory: U32, name: Name, flags: bv32)
    | LockRange(fid: U32, kind: nat, flags: bv32, start: ByteLocks.Offset, length: ByteLocks.Offset, process: nat,
                client: string)
    | Query(minimum: nat, answer: Result<nat, Errno>)

  /** What arrives in one buffer: no header, a bad body, or a tagged request. */
  datatype Message =
    | NoHeader
    | BadBody(flush: bool, errno: Errno)
    | Message(tag: nat, request: Request)

  datatype Answer = Failed(error: ProtocolError) | ErrorReply(errno: Errno) | Reply(bytes: nat, blocked: bool)

  /** State after a request, the reply length or error number, and whether a lock was refused. */
  datatype Done = Done(fs: Fs, session: Session, result: Result<nat, Errno>, blocked: bool := false)

  // -------------------------------------------------------------- small pieces

  function ErrnoOf(e: FsError): Errno {
    match e
    case NotFound => ENOENT
    case NotDirectory => ENOTDIR
    case IsDirectory => EISDIR
    case AlreadyExists => EEXIST
    case NotEmpty => 39
    case FileTooLarge => 27
    case NoSpace => ENOSPC
    case InvalidPath => EINVAL
    case NameTooLong => 36
  }

  function FlagsError(flags: bv32): Option<Errno> {
    if flags & 0xffe0_0000 != 0 then Some(EOPNOTSUPP)
    else if flags & 3 == 3 then Some(EINVAL)
    else if Truncates(flags) && !Writable(flags) then Some(EINVAL)
    else None
  }

  predicate Readable(flags: bv32) { flags & 3 == 0 || flags & 3 == 2 }
  predicate Writable(flags: bv32) { flags & 3 == 1 || flags & 3 == 2 }
  predicate Appends(flags: bv32) { flags & 0x400 != 0 }
  predicate Truncates(flags: bv32) { flags & 0x200 != 0 }
  predicate WantsDirectory(flags: bv32) { flags & 0x10000 != 0 }

  function MinimumReply(r: Request): nat {
    match r
    case Open(_, _) => 24
    case Create(_, _, _) => 24
    case Attach(_, _) => 20
    case MakeSymlink(_, _, _) => 20
    case Mkdir(_, _) => 20
    case Walk(_, _, _) => 9
    case Write(_, _, _) => 11
    case LockRange(_, _, _, _, _, _, _) => 8
    case Query(minimum, _) => minimum
    case _ => 7
  }

  function CheckNewFid(s: Session, number: U32): Option<Errno> {
    if number == NOFID then Some(EINVAL)
    else if number in s.fids then Some(EEXIST)
    else if |s.fids| >= MAX_FIDS then Some(ENOSPC)
    else None
  }

  /** The error of using `number` as a directory fid. */
  function DirectoryError(fs: Fs, s: Session, number: U32): Option<Errno> {
    if number !in s.fids then Some(EBADF)
    else if s.fids[number].inode !in fs.inodes then Some(ESTALE)
    else if !fs.inodes[s.fids[number].inode].kind.Directory? then Some(ENOTDIR)
    else None
  }

  /** Adopting the current generation forgets fids of a replaced namespace without releasing them. */
  function Synced(s: Session, fs: Fs): Session {
    if s.generation != fs.generation then s.(fids := map[], generation := fs.generation) else s
  }

  function Raise(fs: Fs, s: Session, e: Errno): Done {
    Done(fs, s, Err(e))
  }

  /** The end of a request whose namespace operation succeeded and whose reply needs `bytes`. */
  function Finish(fs: Fs, s: Session, bytes: nat, capacity: nat): Done {
    Done(fs, s, if bytes > capacity then Err(ENOSPC) else Ok(bytes))
  }

  // --------------------------------------------------------------------- fids

  function InstallFid(fs: Fs, s: Session, number: U32, fid: Fid): Done {
    var r := RetainFid(fs, fid.inode);
    if r.Err? then Raise(fs, s, ErrnoOf(r.error))
    else
      var s1 := s.(fids := s.fids[number := fid]);
      if number !in s.fids then Done(r.value, s1, Ok(0))
      else
        var q := ReleaseFid(r.value, s.fids[number].inode);
        if q.Err? then Raise(r.value, s1, ErrnoOf(q.error)) else Done(q.value, s1, Ok(0))
  }

  lemma InstallFidKeepsInv(fs: Fs, s: Session, number: U32, fid: Fid)
    requires Inv(fs)
    ensures Inv(InstallFid(fs, s, number, fid).fs)
  {
    var r := RetainFid(fs, fid.inode);
    if r.Ok? {
      RetainFidKeepsInv(fs, fid.inode);
      if number in s.fids && ReleaseFid(r.value, s.fids[number].inode).Ok? {
        ReleaseFidKeepsInv(r.value, s.fids[number].inode);
      }
    }
  }

  /** Releases the fids below n in ascending order; an error stops it. */
  function ReleaseBelow(fs: Fs, fids: map<U32, Fid>, n: nat): Outcome<Fs> {
    if n == 0 then Ok(fs)
    else
      var r := ReleaseBelow(fs, fids, n - 1);
      if r.Err? || n - 1 !in fids then r else ReleaseFid(r.value, fids[n - 1].inode)
  }

  lemma {:induction false} ReleaseBelowKeepsInv(fs: Fs, fids: map<U32, Fid>, n: nat)
    requires Inv(fs) && ReleaseBelow(fs, fids, n).Ok?
    ensures Inv(ReleaseBelow(fs, fids, n).value)
  {
    if n > 0 {
      ReleaseBelowKeepsInv(fs, fids, n - 1);
      if n - 1 in fids { ReleaseFidKeepsInv(ReleaseBelow(fs, fids, n - 1).value, fids[n - 1].inode); }
    }
  }

  function ReleaseFids(fs: Fs, s: Session): Outcome<Fs> {
    var r := ReleaseBelow(fs, s.fids, U32_MAX + 1);
    if r.Err? then r else Ok(ReleaseSessionLocks(r.value, s.id))
  }

  lemma ReleaseFidsKeepsInv(fs: Fs, s: Session)
    requires Inv(fs) && ReleaseFids(fs, s).Ok?
    ensures Inv(ReleaseFids(fs, s).value)
  {
    ReleaseBelowKeepsInv(fs, s.fids, U32_MAX + 1);
    ReleaseSessionLocksKeepsInv(ReleaseBelow(fs, s.fids, U32_MAX + 1).value, s.id);
  }

  // ----------------------------------------------------------------- requests

  function VersionRequest(fs: Fs, s: Session, tag: nat, size: nat, version: string, capacity: nat): Done {
    if tag != NOTAG then Raise(fs, s, EPROTO)
    else
      var m := if size < MAX_MESSAGE_SIZE then size else MAX_MESSAGE_SIZE;
      var bytes := 7 + 4 + 2 + (if version == "9P2000.L" then |version| else 7);
      if m < 256 then Raise(fs, s, EINVAL)
      else if bytes > capacity then Raise(fs, s, ENOSPC)
      else
        var r := ReleaseFids(fs, s);
        if r.Err? then Raise(fs, s.(fids := map[]), EIO)
        else Done(r.value, s.(fids := map[], msize := m, negotiated := version == "9P2000.L"), Ok(bytes))
  }

  function AttachRequest(fs: Fs, s: Session, fid: U32, afid: U32, capacity: nat): Done {
    var e := CheckNewFid(s, fid);
    if e.Some? then Raise(fs, s, e.value)
    else if afid != NOFID then Raise(fs, s, EOPNOTSUPP)
    else if 20 > capacity then Raise(fs, s, ENOSPC)
    else
      var d := InstallFid(fs, s, fid, Fid(fs.root, None));
      if d.result.Err? then d else d.(result := Ok(20))
  }

  /** One step of a walk by a literal name. */
  function WalkStep(fs: Fs, current: Id, name: Name): Result<Id, Errno> {
    if current !in fs.inodes || !fs.inodes[current].kind.Directory? then Err(ENOTDIR)
    else if name == "." then Ok(current)
    else if name == ".." then
      if current == fs.root then Ok(current)
      else if fs.inodes[current].parent.Some? then Ok(fs.inodes[current].parent.value) else Err(ENOENT)
    else if NameError(name).Some? then Err(ErrnoOf(NameError(name).value))
    else
      var c := Child(fs.inodes, current, name);
      if c.Err? then Err(ErrnoOf(c.error)) else Ok(c.value)
  }

  /** How far a walk gets: the inodes passed, and the error that stopped it, if any. */
  datatype Walked = Walked(passed: seq<Id>, stop: Option<Errno>)

  function WalkNames(fs: Fs, current: Id, names: seq<Name>): Walked
    decreases |names|
  {
    if names == [] then Walked([], None)
    else if current !in fs.inodes then Walked([], Some(ESTALE))
    else
      var step := WalkStep(fs, current, names[0]);
      if step.Err? then Walked([], Some(step.error))
      else
        var rest := WalkNames(fs, step.value, names[1..]);
        Walked([step.value] + rest.passed, rest.stop)
  }

  function WalkRequest(fs: Fs, s: Session, fid: U32, newFid: U32, names: seq<Name>, capacity: nat): Done {
    if fid !in s.fids then Raise(fs, s, EBADF)
    else if s.fids[fid].open.Some? then Raise(fs, s, EBADF)
    else if newFid != fid && CheckNewFid(s, newFid).Some? then Raise(fs, s, CheckNewFid(s, newFid).value)
    else
      var w := WalkNames(fs, s.fids[fid].inode, names);
      if w.stop.Some? && (w.passed == [] || w.stop == Some(ESTALE)) then Raise(fs, s, w.stop.value)
      else if 9 + 13 * |w.passed| > capacity then Raise(fs, s, ENOSPC)
      else if |w.passed| < |names| then Done(fs, s, Ok(9 + 13 * |w.passed|))
      else
        var target := if w.passed == [] then s.fids[fid].inode else w.passed[|w.passed| - 1];
        var d := InstallFid(fs, s, newFid, s.fids[fid].(inode := target));
        if d.result.Err? then d else d.(result := Ok(9 + 13 * |w.passed|))
  }

  function TruncateFor(fs: Fs, id: Id, flags: bv32): Outcome<Fs> {
    if !Truncates(flags) then Ok(fs) else Truncate(fs, id, 0)
  }

  function OpenError(k: Kind, flags: bv32): Option<Errno> {
    match k
    case Directory(_, _) => if Writable(flags) || Truncates(flags) then Some(EISDIR) else None
    case Symlink(_) => Some(ELOOP)
    case File(_) => if WantsDirectory(flags) then Some(ENOTDIR) else None
  }

  function OpenRequest(fs: Fs, s: Session, fid: U32, flags: bv32, capacity: nat): Done {
    if fid !in s.fids then Raise(fs, s, EBADF)
    else if s.fids[fid].open.Some? then Raise(fs, s, EBUSY)
    else if FlagsError(flags).Some? then Raise(fs, s, FlagsError(flags).value)
    else
      var id := s.fids[fid].inode;
      if id !in fs.inodes then Raise(fs, s, ESTALE)
      else if OpenError(fs.inodes[id].kind, flags).Some? then Raise(fs, s, OpenError(fs.inodes[id].kind, flags).value)
      else
        var t := TruncateFor(fs, id, flags);
        if t.Err? then Raise(fs, s, ErrnoOf(t.error))
        else if 24 > capacity then Raise(t.value, s, ENOSPC)
        else Done(t.value, s.(fids := s.fids[fid := s.fids[fid].(open := Some(flags))]), Ok(24))
  }

  /** The inode a Tlcreate opens, and the namespace in which it does. */
  function CreateTarget(fs: Fs, d: Id, name: Name, flags: bv32): Result<(Fs, Id), Errno> {
    var c: Outcome<Id> := if NameError(name).Some? then Err(NameError(name).value) else Child(fs.inodes, d, name);
    match c
    case Ok(id) =>
      if flags & 0x80 != 0 then Err(EEXIST)
      else if id !in fs.inodes then Err(ESTALE)
      else if fs.inodes[id].kind.Directory? then Err(EISDIR)
      else if fs.inodes[id].kind.Symlink? then Err(ELOOP)
      else
        var t := TruncateFor(fs, id, flags);
        if t.Err? then Err(ErrnoOf(t.error)) else Ok((t.value, id))
    case Err(NotFound) =>
      var r := CreateFileAt(fs, d, name);
      if r.Err? then Err(ErrnoOf(r.error))
      else Ok(r.value)
    case Err(e) => Err(ErrnoOf(e))
  }

  function CreateRequest(fs: Fs, s: Session, fid: U32, name: Name, flags: bv32, capacity: nat): Done {
    var e := DirectoryError(fs, s, fid);
    if e.Some? then Raise(fs, s, e.value)
    else if s.fids[fid].open.Some? then Raise(fs, s, EBADF)
    else if FlagsError(flags).Some? then Raise(fs, s, FlagsError(flags).value)
    else if WantsDirectory(flags) then Raise(fs, s, ENOTDIR)
    else
      var t := CreateTarget(fs, s.fids[fid].inode, name, flags);
      if t.Err? then Raise(fs, s, t.error)
      else
        var d := InstallFid(t.value.0, s, fid, Fid(t.value.1, Some(flags)));
        if d.result.Err? then d else Finish(d.fs, d.session, 24, capacity)
  }

  function WriteRequest(fs: Fs, s: Session, fid: U32, offset: nat, data: seq<byte>, capacity: nat): Done {
    if fid !in s.fids || s.fids[fid].open.None? then Raise(fs, s, EBADF)
    else if !Writable(s.fids[fid].open.value) then Raise(fs, s, EBADF)
    else
      var append := Appends(s.fids[fid].open.value);
      var r := WriteInode(fs, s.fids[fid].inode, offset, data, append);
      if r.Err? then Raise(fs, s, ErrnoOf(r.error))
      else Finish(r.value, s, 11, capacity)
  }

  function AttributesError(mask: bv32, atimeNs: nat, mtimeNs: nat): Option<Errno> {
    if mask & 0xffff_fe00 != 0 || (mask & 0x80 != 0 && mask & 0x10 == 0) || (mask & 0x100 != 0 && mask & 0x20 == 0)
    then Some(EINVAL)
    else if mask & 0x10 != 0 && mask & 0x80 != 0 && atimeNs >= 1_000_000_000 then Some(EINVAL)
    else if mask & 0x20 != 0 && mask & 0x100 != 0 && mtimeNs >= 1_000_000_000 then Some(EINVAL)
    else None
  }

  function SetattrRequest(fs: Fs, s: Session, fid: U32, mask: bv32, size: nat, atimeNs: nat, mtimeNs: nat): Done {
    if fid !in s.fids then Raise(fs, s, EBADF)
    else if AttributesError(mask, atimeNs, mtimeNs).Some? then
      Raise(fs, s, AttributesError(mask, atimeNs, mtimeNs).value)
    else
      var id := s.fids[fid].inode;
      if mask & 8 == 0 then (if id !in fs.inodes then Raise(fs, s, ENOENT) else Done(fs, s, Ok(7)))
      else
        var r := Truncate(fs, id, size);
        if r.Err? then Raise(fs, s, ErrnoOf(r.error))
      else Done(r.value, s, Ok(7))
  }

  function ClunkRequest(fs: Fs, s: Session, fid: U32): Done {
    if fid !in s.fids then Raise(fs, s, EBADF)
    else
      var r := ReleaseFid(fs, s.fids[fid].inode);
      if r.Err? then Raise(fs, s, ErrnoOf(r.error))
      else Done(r.value, s.(fids := s.fids - {fid}), Ok(7))
  }

  /** A namespace operation that either reports an error or gives the next namespace. */
  function Apply(fs: Fs, s: Session, r: Outcome<Fs>, bytes: nat, capacity: nat): Done {
    if r.Err? then Raise(fs, s, ErrnoOf(r.error)) else Finish(r.value, s, bytes, capacity)
  }

  function Created(r: Outcome<(Fs, Id)>): Outcome<Fs> {
    if r.Err? then Err(r.error) else Ok(r.value.0)
  }

  function MkdirRequest(fs: Fs, s: Session, fid: U32, name: Name, capacity: nat): Done {
    var e := DirectoryError(fs, s, fid);
    if e.Some? then Raise(fs, s, e.value)
    else
      var r := MkdirAt(fs, s.fids[fid].inode, name);
      Apply(fs, s, Created(r), 20, capacity)
  }

  function SymlinkRequest(fs: Fs, s: Session, fid: U32, name: Name, target: string, capacity: nat): Done {
    var e := DirectoryError(fs, s, fid);
    if e.Some? then Raise(fs, s, e.value)
    else
      var r := SymlinkAt(fs, s.fids[fid].inode, name, target);
      Apply(fs, s, Created(r), 20, capacity)
  }

  function LinkRequest(fs: Fs, s: Session, directory: U32, fid: U32, name: Name, capacity: nat): Done {
    var e := DirectoryError(fs, s, directory);
    if e.Some? then Raise(fs, s, e.value)
    else if fid !in s.fids then Raise(fs, s, EBADF)
    else
      var id := s.fids[fid].inode;
      if id !in fs.inodes then Raise(fs, s, ESTALE)
      else if fs.inodes[id].kind.Directory? then Raise(fs, s, EPERM)
      else
        var r := LinkAt(fs, s.fids[directory].inode, name, id);
        Apply(fs, s, r, 7, capacity)
  }

  ghost function RenameRequest(fs: Fs, s: Session, p: U32, n: Name, q: U32, o: Name, capacity: nat): Done
    requires Inv(fs)
  {
    var e, f := DirectoryError(fs, s, p), DirectoryError(fs, s, q);
    if e.Some? then Raise(fs, s, e.value)
    else if f.Some? then Raise(fs, s, f.value)
    else
      var r := RenameAt(fs, s.fids[p].inode, n, s.fids[q].inode, o);
      Apply(fs, s, r, 7, capacity)
  }

  function UnlinkRequest(fs: Fs, s: Session, directory: U32, name: Name, flags: bv32, capacity: nat): Done {
    var e := DirectoryError(fs, s, directory);
    if flags & 0xffff_fdff != 0 then Raise(fs, s, EINVAL)
    else if e.Some? then Raise(fs, s, e.value)
    else
      var parent := s.fids[directory].inode;
      var c := if NameError(name).Some? then Err(NameError(name).value) else Child(fs.inodes, parent, name);
      if c.Err? then Raise(fs, s, ErrnoOf(c.error))
      else if c.value !in fs.inodes then Raise(fs, s, ESTALE)
      else
        var isDirectory := fs.inodes[c.value].kind.Directory?;
        if (flags & 0x200 != 0) != isDirectory then Raise(fs, s, if isDirectory then EISDIR else ENOTDIR)
        else
          var r := RemoveAt(fs, parent, name);
          Apply(fs, s, r, 7, capacity)
  }

  /** The lock a Tlock asks for, or why it may not. */
  function LockRequested(fs: Fs, s: Session, r: Request): Result<ByteLocks.Lock, Errno>
    requires r.LockRange?
  {
    if r.fid !in s.fids || s.fids[r.fid].open.None? then Err(EBADF)
    else
      var id, flags := s.fids[r.fid].inode, s.fids[r.fid].open.value;
      if id !in fs.inodes then Err(ESTALE)
      else if !fs.inodes[id].kind.File? then Err(EOPNOTSUPP)
      else if r.kind == 0 && !Readable(flags) then Err(EBADF)
      else if r.kind == 1 && !Writable(flags) then Err(EBADF)
      else if r.kind > 2 then Err(EINVAL)
      else Ok(ByteLocks.Lock(id, s.id, if r.kind == 1 then ByteLocks.WriteLock else ByteLocks.ReadLock,
                             r.start, r.length, r.process, r.client))
  }

  function LockRequest(fs: Fs, s: Session, r: Request, capacity: nat): Done
    requires r.LockRange?
  {
    if r.flags & 0xffff_fffe != 0 then Raise(fs, s, EOPNOTSUPP)
    else
      var l := LockRequested(fs, s, r);
      if l.Err? then Raise(fs, s, l.error)
      else if r.kind == 2 then
        var u := Unlock(fs, l.value);
        Apply(fs, s, u, 8, capacity)
      else
        var t := TryLock(fs, l.value);
        if t.Err? then Raise(fs, s, ErrnoOf(t.error))
        else Finish(t.value.0, s, 8, capacity).(blocked := !t.value.1)
  }

  ghost function Execute(fs: Fs, s: Session, tag: nat, r: Request, capacity: nat): Done
    requires Inv(fs)
  {
    match r
    case Version(size, version) => VersionRequest(fs, s, tag, size, version, capacity)
    case Flush => Done(fs, s, Ok(7))
    case Attach(fid, afid) => AttachRequest(fs, s, fid, afid, capacity)
    case Walk(fid, newFid, names) => WalkRequest(fs, s, fid, newFid, names, capacity)
    case Open(fid, flags) => OpenRequest(fs, s, fid, flags, capacity)
    case Create(fid, name, flags) => CreateRequest(fs, s, fid, name, flags, capacity)
    case Write(fid, offset, data) => WriteRequest(fs, s, fid, offset, data, capacity)
    case Setattr(fid, mask, size, a, m) => SetattrRequest(fs, s, fid, mask, size, a, m)
    case Clunk(fid) => ClunkRequest(fs, s, fid)
    case MakeSymlink(fid, name, target) => SymlinkRequest(fs, s, fid, name, target, capacity)
    case Mkdir(fid, name) => MkdirRequest(fs, s, fid, name, capacity)
    case Link(directory, fid, name) => LinkRequest(fs, s, directory, fid, name, capacity)
    case Rename(p, n, q, o) => RenameRequest(fs, s, p, n, q, o, capacity)
    case Unlink(directory, name, flags) => UnlinkRequest(fs, s, directory, name, flags, capacity)
    case LockRange(_, _, _, _, _, _, _) => LockRequest(fs, s, r, capacity)
    case Query(_, answer) => Done(fs, s, answer)
  }

  // ------------------------------------------------------------------- submit

  datatype Submitted = Submitted(fs: Fs, session: Session, answer: Answer)

  function ErrorOr(fs: Fs, s: Session, errno: Errno, capacity: nat): Submitted {
    Submitted(fs, s, if capacity < 11 then Failed(ReplyTooSmall) else ErrorReply(errno))
  }

  function Capacity(s: Session, isVersion: bool, capacity: nat): nat {
    var limit := if isVersion then MAX_MESSAGE_SIZE else s.msize;
    if capacity < limit then capacity else limit
  }

  ghost function Submit(fs: Fs, s: Session, msg: Message, capacity: nat): Submitted
    requires Inv(fs)
  {
    if s.closed then Submitted(fs, s, Failed(Closed))
    else
      var t := Synced(s, fs);
      match msg
      case NoHeader => Submitted(fs, t, Failed(Malformed))
      case BadBody(flush, errno) =>
        if flush then Submitted(fs, t, Failed(Malformed)) else ErrorOr(fs, t, errno, Capacity(t, false, capacity))
      case Message(tag, request) =>
        var room := Capacity(t, request.Version?, capacity);
        if (tag == NOTAG && !request.Version?) || (!t.negotiated && !request.Version? && !request.Flush?) then
          if request.Flush? then Submitted(fs, t, Failed(Malformed)) else ErrorOr(fs, t, EPROTO, room)
        else if room < MinimumReply(request) then ErrorOr(fs, t, ENOSPC, room)
        else if room < 7 then Submitted(fs, t, Failed(ReplyTooSmall))
        else
          var d := Execute(fs, t, tag, request, room);
          match d.result
          case Ok(bytes) => Submitted(d.fs, d.session, Reply(bytes, d.blocked))
          case Err(errno) => ErrorOr(d.fs, d.session, errno, room)
  }

  /** Device reset: release into the current namespace, or forget a replaced one's fids. */
  function ResetSession(fs: Fs, s: Session): Result<(Fs, Session), ProtocolError> {
    if s.closed then Err(Closed)
    else
      var after := s.(fids := map[], generation := fs.generation, msize := MAX_MESSAGE_SIZE, negotiated := false);
      if s.generation != fs.generation then Ok((fs, after))
      else
        var r := ReleaseFids(fs, s);
        if r.Err? then Err(Invariant) else Ok((r.value, after))
  }
}
