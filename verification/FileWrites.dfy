/**
 Whole files by path and byte ranges by inode in src/ninep.rs: when write_file succeeds and
 what it leaves, and that what write_inode or write_file stores is what read_inode returns.
 */
module FileWrites {
  import opened Wrappers
  import opened Namespace
  import opened NamespaceInvariant
  import opened NamespaceEffects
  import opened NamespaceAcceptance
  import opened Sessions
  import opened SessionRequests
  import SessionWorld

  // --------------------------------------------------------------------------- write_file

  predicate LegalPath(path: Path) {
    forall i :: 0 <= i < |path| ==> Legal(path[i])
  }

  /** A malformed component anywhere outranks one that is only too long. */
  function PathFault(path: Path): FsError {
    if exists i :: 0 <= i < |path| && !Legal(path[i]) && NameFault(path[i]) == InvalidPath then InvalidPath
    else NameTooLong
  }

  lemma LegalPaths(path: Path)
    ensures PathError(path).None? <==> LegalPath(path)
    ensures PathError(path).Some? ==>
              PathError(path).value == PathFault(path)
  {
    forall i | 0 <= i < |path| ensures NameError(path[i]) == if Legal(path[i]) then None else Some(NameFault(path[i])) {
      LegalNames(path[i]);
    }
  }

  /** A file may be stored at the path: a directory to hold it, a file or nothing there, and room. */
  predicate MayStore(fs: Fs, path: Path, bytes: seq<byte>) {
    && path != [] && LegalPath(path) && |bytes| <= fs.limits.maxFileBytes
    && var name, up := path[|path| - 1], Resolve(fs.inodes, fs.root, path[..|path| - 1]);
       && up.Ok? && IsDir(fs.inodes, up.value)
       && match EntryAt(fs.inodes, up.value, name)
          case Some(id) => IsFile(fs.inodes, id) && Fits(fs, id, |bytes|)
          case None => MayCreate(fs, up.value, name) && fs.logicalBytes + |bytes| <= fs.limits.maxTreeBytes
  }

  /** The error of a refused write_file: the first fault in this order. */
  function StoreRefusal(fs: Fs, path: Path, bytes: seq<byte>): FsError {
    if |bytes| > fs.limits.maxFileBytes then FileTooLarge
    else if !LegalPath(path) then PathFault(path)
    else if path == [] then InvalidPath
    else
      var name, up := path[|path| - 1], Resolve(fs.inodes, fs.root, path[..|path| - 1]);
      if up.Err? then up.error
      else if !IsDir(fs.inodes, up.value) then NotDirectory
      else
        var e := EntryAt(fs.inodes, up.value, name);
        if e.Some? && !IsFile(fs.inodes, e.value) then IsDirectory else NoSpace
  }

  /** write_file succeeds if and only if it may, and otherwise reports its first fault. */
  lemma WriteFileExactly(fs: Fs, path: Path, bytes: seq<byte>)
    requires Inv(fs)
    ensures var r := WriteFile(fs, path, bytes);
            && (r.Ok? <==> MayStore(fs, path, bytes))
            && (r.Err? ==> r.error == StoreRefusal(fs, path, bytes))
  {
    LegalPaths(path);
    if path != [] && LegalPath(path) {
      var front, name := path[..|path| - 1], path[|path| - 1];
      LegalPaths(front);
      if Resolve(fs.inodes, fs.root, front).Ok? { StoredExactly(fs, front, name, bytes); }
    }
  }

  /** The last step of write_file, in the directory the path leads to. */
  lemma StoredExactly(fs: Fs, front: Path, name: Name, bytes: seq<byte>)
    requires Inv(fs) && Legal(name) && Resolve(fs.inodes, fs.root, front).Ok?
    ensures var p := Resolve(fs.inodes, fs.root, front).value;
            && p in fs.inodes
            && (IsDir(fs.inodes, p) ==>
                  var e := EntryAt(fs.inodes, p, name);
                  && (e.Some? ==> ResizeError(fs, e.value, |bytes|)
                                  == if IsFile(fs.inodes, e.value) && Fits(fs, e.value, |bytes|) then None
                                     else Some(SizeRefusal(fs, e.value, |bytes|)))
                  && (e.Some? ==> e.value in fs.inodes)
                  && (e.None? ==> (Insert(fs, p, name, File(bytes)).Ok? <==> MayCreate(fs, p, name)))
                  && (e.None? && Insert(fs, p, name, File(bytes)).Err? ==>
                        Insert(fs, p, name, File(bytes)).error == NoSpace))
  {
    var p := Resolve(fs.inodes, fs.root, front).value;
    ResolvedIsLinked(fs.inodes, fs.links, fs.root, front);
    if IsDir(fs.inodes, p) {
      EntriesAreThere(fs, p, name);
      PlacesAreChecked(fs.inodes, p, name);
      CreateExactly(fs, p, name, File(bytes));
      var e := EntryAt(fs.inodes, p, name);
      if e.Some? { SizesAreChecked(fs, e.value, |bytes|); }
    }
  }

  /** Entries that stay keep every path that leads through them. */
  lemma {:induction false} ResolveKeeps(m: Arena, after: Arena, root: Id, path: Path)
    requires forall d: Id, x: Name :: EntryAt(m, d, x).Some? ==> EntryAt(after, d, x) == EntryAt(m, d, x)
    requires Resolve(m, root, path).Ok?
    ensures Resolve(after, root, path) == Resolve(m, root, path)
    decreases |path|
  {
    if path != [] {
      var front := path[..|path| - 1];
      ResolveKeeps(m, after, root, front);
      var d := Resolve(m, root, front).value;
      assert EntryAt(m, d, path[|path| - 1]).Some?;
    }
  }

  /** The entry `name` of `p` now leads to the file `id`, new or old, and nothing else differs. */
  ghost predicate Stored(a: Fs, b: Fs, p: Id, name: Name, id: Id, bytes: seq<byte>) {
    && b.root == a.root && EntryAt(b.inodes, p, name) == Some(id) && BodyAt(b.inodes, id) == Some(bytes)
    && (EntryAt(a.inodes, p, name) == Some(id) || (EntryAt(a.inodes, p, name) == None && id !in a.inodes))
    && SameEntriesBut(a, b, p, name) && SameBodiesBut(a, b, id)
  }

  /** After write_file the path names the returned file, its bytes are those written, and nothing else differs. */
  lemma WriteFileDoes(fs: Fs, path: Path, bytes: seq<byte>)
    requires Inv(fs) && WriteFile(fs, path, bytes).Ok?
    ensures var (after, id) := WriteFile(fs, path, bytes).value;
            && path != [] && Lookup(after, path) == Ok(id)
            && var up := Resolve(fs.inodes, fs.root, path[..|path| - 1]);
               up.Ok? && Stored(fs, after, up.value, path[|path| - 1], id, bytes)
  {
    var (after, id) := WriteFile(fs, path, bytes).value;
    WriteFileExactly(fs, path, bytes);
    LegalPaths(path);
    var front, name := path[..|path| - 1], path[|path| - 1];
    LegalPaths(front);
    var p := Resolve(fs.inodes, fs.root, front).value;
    StoredExactly(fs, front, name, bytes);
    StoredAt(fs, p, name, bytes, after, id);
    ResolveKeeps(fs.inodes, after.inodes, fs.root, front);
    assert EntryAt(after.inodes, p, name) == Some(id);
  }

  lemma StoredAt(fs: Fs, p: Id, name: Name, bytes: seq<byte>, after: Fs, id: Id)
    requires Inv(fs) && IsDir(fs.inodes, p)
    requires match EntryAt(fs.inodes, p, name)
             case Some(was) => id == was && IsFile(fs.inodes, id) && after == SetBody(fs, id, bytes)
             case None => && Insert(fs, p, name, File(bytes)).Ok? && id == Insert(fs, p, name, File(bytes)).value.1
                          && after.inodes == Insert(fs, p, name, File(bytes)).value.0.inodes && after.root == fs.root
    ensures Stored(fs, after, p, name, id, bytes)
  {
    if EntryAt(fs.inodes, p, name).Some? {
      SetBodyDoes(fs, id, bytes);
    } else {
      forall d: Id, x: Name ensures InsertedAt(fs, p, name, File(bytes), d, x) {
        InsertAddsOneEntry(fs, p, name, File(bytes), d, x);
      }
      assert InsertedAt(fs, p, name, File(bytes), id, name);
      forall d: Id, x: Name | d != p || x != name ensures EntryAt(after.inodes, d, x) == EntryAt(fs.inodes, d, x) {
        assert InsertedAt(fs, p, name, File(bytes), d, x);
      }
      forall d: Id | d != id ensures BodyAt(after.inodes, d) == BodyAt(fs.inodes, d) {
        assert InsertedAt(fs, p, name, File(bytes), d, name);
      }
    }
  }

  // --------------------------------------------------------------------------- read_inode

  /** read_inode: at most `count` bytes from `offset`, and none from behind the end. */
  function ReadInode(fs: Fs, id: Id, offset: nat, count: nat): Outcome<seq<byte>> {
    if id !in fs.inodes then Err(NotFound)
    else if !fs.inodes[id].kind.File? then Err(IsDirectory)
    else
      var body := fs.inodes[id].kind.body;
      if count == 0 || offset >= |body| then Ok([])
      else
        var end := offset + if count < |body| - offset then count else |body| - offset;
        Ok(body[offset..end])
  }

  /** How many bytes there are from `offset` on, up to `count`. */
  function Within(size: nat, offset: nat, count: nat): nat {
    if offset >= size then 0 else if offset + count <= size then count else size - offset
  }

  /** A read fails only without a file; byte i of the reply is byte offset + i, for as long as both last. */
  lemma ReadExactly(fs: Fs, id: Id, offset: nat, count: nat)
    ensures var r, body := ReadInode(fs, id, offset, count), BodyAt(fs.inodes, id);
            && (r.Ok? <==> body.Some?)
            && (r.Ok? ==> && |r.value| == Within(|body.value|, offset, count)
                          && forall i: nat :: i < |r.value| ==> r.value[i] == body.value[offset + i])
            && (r.Err? ==> r.error == if id in fs.inodes then IsDirectory else NotFound)
  {
  }

  /** What was written is read back from where it was written, also at the end of a file opened to append. */
  lemma WriteThenRead(fs: Fs, id: Id, offset: nat, data: seq<byte>, append: bool)
    requires WriteInode(fs, id, offset, data, append).Ok?
    ensures var after := WriteInode(fs, id, offset, data, append).value;
            && BodyAt(fs.inodes, id).Some?
            && ReadInode(after, id, if append then |BodyAt(fs.inodes, id).value| else offset, |data|) == Ok(data)
            && forall other: Id, at: nat, count: nat :: other != id ==>
                 ReadInode(after, other, at, count) == ReadInode(fs, other, at, count)
  {
    if data != [] {
      var body := fs.inodes[id].kind.body;
      var start := if append then |body| else offset;
      assert Patched(body, start, data)[start..start + |data|] == data;
    }
  }

  /** A stored file is read back whole. */
  lemma WriteFileThenRead(fs: Fs, path: Path, bytes: seq<byte>, count: nat)
    requires Inv(fs) && WriteFile(fs, path, bytes).Ok? && count >= |bytes|
    ensures var (after, id) := WriteFile(fs, path, bytes).value;
            Lookup(after, path) == Ok(id) && ReadInode(after, id, 0, count) == Ok(bytes)
  {
    WriteFileDoes(fs, path, bytes);
    var (after, id) := WriteFile(fs, path, bytes).value;
    assert BodyAt(after.inodes, id) == Some(bytes);
    assert bytes[0..|bytes|] == bytes;
  }

  /** A host attribute update by path reaches exactly the file there, and gives it the size asked for. */
  lemma HostResizeExactly(fs: Fs, path: Path, size: Option<nat>)
    requires Inv(fs)
    ensures var r, id := SessionWorld.HostResize(fs, path, size), Lookup(fs, path);
            && (r.Ok? <==> id.Ok? && (size.Some? ==> IsFile(fs.inodes, id.value) && Fits(fs, id.value, size.value)))
            && (r.Ok? && size.None? ==> r.value == fs)
            && (r.Ok? && size.Some? ==>
                  && SameEntries(fs, r.value) && SameBodiesBut(fs, r.value, id.value)
                  && BodyAt(r.value.inodes, id.value).Some?
                  && Resizes(BodyAt(fs.inodes, id.value).value, BodyAt(r.value.inodes, id.value).value, size.value))
  {
    var id := Lookup(fs, path);
    if id.Ok? && size.Some? {
      ResizeExactly(fs, id.value, size.value);
      if Truncate(fs, id.value, size.value).Ok? { SizeChange(fs, id.value, size.value); }
    }
  }

  // ------------------------------------------------------------------------------- Tread

  /** The bytes of a Tread reply: as many as asked for, as the reply has room for and as the file has. */
  function ReadRequest(fs: Fs, s: Session, fid: U32, offset: nat, count: nat, capacity: nat): Result<seq<byte>, Errno>
    requires capacity >= 11
  {
    if fid !in s.fids || s.fids[fid].open.None? then Err(EBADF)
    else if !Readable(s.fids[fid].open.value) then Err(EBADF)
    else
      var r := ReadInode(fs, s.fids[fid].inode, offset, if count < capacity - 11 then count else capacity - 11);
      if r.Err? then Err(ErrnoOf(r.error)) else Ok(r.value)
  }

  /** Tread answers for a fid open for reading on a file, with that slice of its bytes. */
  lemma TreadExactly(fs: Fs, s: Session, fid: U32, offset: nat, count: nat, capacity: nat)
    requires capacity >= 11
    ensures var r, body := ReadRequest(fs, s, fid, offset, count, capacity), BodyAt(fs.inodes, Target(s, fid));
            && (r.Ok? <==> fid in s.fids && s.fids[fid].open.Some? && ReadAccess(s.fids[fid].open.value) && body.Some?)
            && (r.Ok? ==> && |r.value| <= count && 11 + |r.value| <= capacity
                          && (forall i: nat :: i < |r.value| ==>
                                offset + i < |body.value| && r.value[i] == body.value[offset + i])
                          && (|r.value| == count || 11 + |r.value| == capacity || offset + |r.value| >= |body.value|))
  {
    if fid in s.fids {
      ReadExactly(fs, s.fids[fid].inode, offset, if count < capacity - 11 then count else capacity - 11);
    }
  }

  /** What a fid open for both wrote is what it reads back there. */
  lemma TwriteThenTread(fs: Fs, s: Session, tag: nat, fid: U32, offset: nat, data: seq<byte>, capacity: nat)
    requires Inv(fs) && capacity >= 11 + |data| && MayWrite(fs, s, fid, offset, data)
    requires ReadAccess(s.fids[fid].open.value)
    ensures var d := Execute(fs, s, tag, Write(fid, offset, data), capacity);
            var was, append := BodyAt(fs.inodes, Target(s, fid)).value, s.fids[fid].open.value & 0x400 != 0;
            var start := if append then |was| else offset;
            d.result.Ok? && ReadRequest(d.fs, d.session, fid, start, |data|, capacity) == Ok(data)
  {
    TwriteExactly(fs, s, tag, fid, offset, data, capacity);
    var id, append := s.fids[fid].inode, s.fids[fid].open.value & 0x400 != 0;
    WriteExactly(fs, id, offset, data, append);
    WriteThenRead(fs, id, offset, data, append);
  }
}
