/**
 The shared 9P namespace of src/ninep.rs as a value: the inode arena, its reverse
 link index, the quota sums and the lock list, with one function per operation.
 Timestamps, ownership, modes and QID versions are not part of the value.
 */
module Namespace {
  import opened Wrappers
  import ByteLocks

  const U32_MAX: nat := 0xffff_ffff
  const U64_MAX: nat := 0xffff_ffff_ffff_ffff
  const MAX_NAME_BYTES: nat := 255

  newtype byte = x: int | 0 <= x < 256

  type Id = nat
  type Name = string
  type Path = seq<Name>

  datatype FsError =
    | InvalidPath | NotFound | NotDirectory | IsDirectory | AlreadyExists
    | NotEmpty | FileTooLarge | NoSpace | NameTooLong

  datatype Entry = Entry(inode: Id, cookie: nat)

  datatype Kind =
    | Directory(entries: map<Name, Entry>, nextCookie: nat)
    | File(body: seq<byte>)
    | Symlink(target: string)

  datatype Inode = Inode(kind: Kind, parent: Option<Id>, linkCount: nat, fidRefs: nat)

  datatype Limits = Limits(maxFileBytes: nat, maxTreeBytes: nat, maxInodes: nat, maxDirectoryEntries: nat)

  type Arena = map<Id, Inode>
  type LinkIndex = map<Id, set<(Id, Name)>>

  datatype Fs = Fs(
    inodes: Arena, links: LinkIndex, root: Id, nextInode: nat, generation: nat, limits: Limits,
    logicalBytes: nat, directoryEntries: nat, locks: seq<ByteLocks.Lock>, nextSession: nat)

  type Outcome<T> = Result<T, FsError>

  // ------------------------------------------------------------------- queries

  function NameError(name: Name): Option<FsError> {
    if name == "" || name == "." || name == ".." || '/' in name || '\0' in name then Some(InvalidPath)
    else if |name| > MAX_NAME_BYTES then Some(NameTooLong)
    else None
  }

  /** Path validation looks at every component before any of them is resolved. */
  function PathError(path: Path): Option<FsError> {
    if exists i :: 0 <= i < |path| && NameError(path[i]) == Some(InvalidPath) then Some(InvalidPath)
    else if exists i :: 0 <= i < |path| && NameError(path[i]) == Some(NameTooLong) then Some(NameTooLong)
    else None
  }

  predicate IsDir(m: Arena, id: Id) {
    id in m && m[id].kind.Directory?
  }

  predicate HasEntry(m: Arena, p: Id, n: Name, id: Id) {
    IsDir(m, p) && n in m[p].kind.entries && m[p].kind.entries[n].inode == id
  }

  function Child(m: Arena, d: Id, n: Name): Outcome<Id> {
    if d !in m then Err(NotFound)
    else if !m[d].kind.Directory? then Err(NotDirectory)
    else if n !in m[d].kind.entries then Err(NotFound)
    else Ok(m[d].kind.entries[n].inode)
  }

  /** Forward resolution from the root, one component after another. */
  function Resolve(m: Arena, root: Id, path: Path): Outcome<Id> {
    if path == [] then Ok(root)
    else
      var up := Resolve(m, root, path[..|path| - 1]);
      if up.Err? then up else Child(m, up.value, path[|path| - 1])
  }

  function Lookup(fs: Fs, path: Path): Outcome<Id> {
    var e := PathError(path);
    if e.Some? then Err(e.value) else Resolve(fs.inodes, fs.root, path)
  }

  function LinksOf(links: LinkIndex, id: Id): set<(Id, Name)> {
    if id in links then links[id] else {}
  }

  function FileBytes(i: Inode): nat {
    if i.kind.File? then |i.kind.body| else 0
  }

  function EntryCount(i: Inode): nat {
    if i.kind.Directory? then |i.kind.entries| else 0
  }

  function SumBelow(m: Arena, w: Inode -> nat, n: nat): nat {
    if n == 0 then 0 else SumBelow(m, w, n - 1) + (if n - 1 in m then w(m[n - 1]) else 0)
  }

  // ----------------------------------------------------------------- invariant

  /** The reverse index lists exactly the entries of the arena, and no empty rows. */
  ghost predicate LinksAgree(m: Arena, links: LinkIndex) {
    && (forall id :: id in links ==> links[id] != {})
    && (forall id: Id, p: Id, n: Name :: (p, n) in LinksOf(links, id) <==> HasEntry(m, p, n, id))
  }

  ghost predicate EntriesResolve(m: Arena, root: Id) {
    forall p: Id, n: Name, id: Id :: HasEntry(m, p, n, id) ==> id in m && id != root && NameError(n).None?
  }

  ghost predicate CountsExact(m: Arena, links: LinkIndex, root: Id) {
    && IsDir(m, root) && m[root].linkCount == 1 && m[root].parent == None
    && (forall id :: id in m && id != root ==> m[id].linkCount == |LinksOf(links, id)|)
    && (forall id :: id in m && m[id].linkCount == 0 ==> m[id].fidRefs > 0)
  }

  /** A directory has at most one entry, its parent field names the holder, and a detached one is empty. */
  ghost predicate DirectoriesShaped(m: Arena, root: Id) {
    && (forall d :: IsDir(m, d) ==> m[d].linkCount <= 1)
    && (forall d :: IsDir(m, d) && m[d].linkCount == 0 ==> m[d].kind.entries == map[] && m[d].parent == None)
    && (forall p: Id, n: Name, d: Id :: HasEntry(m, p, n, d) && IsDir(m, d) ==> m[d].parent == Some(p))
    && (forall f :: f in m && !m[f].kind.Directory? ==> m[f].parent == None)
  }

  ghost predicate Climbs(m: Arena, s: seq<Id>, i: int) {
    0 <= i < |s| - 1 ==> s[i] in m && m[s[i]].parent == Some(s[i + 1])
  }

  /** `s` follows parent fields from `d` up to the root. */
  ghost predicate Chain(m: Arena, root: Id, d: Id, s: seq<Id>) {
    && |s| > 0 && s[0] == d && s[|s| - 1] == root
    && forall i :: Climbs(m, s, i)
  }

  ghost predicate Rooted(m: Arena, root: Id) {
    forall d :: IsDir(m, d) && m[d].linkCount != 0 ==> exists s :: Chain(m, root, d, s)
  }

  ghost predicate CookiesDistinct(k: Kind)
    requires k.Directory?
  {
    && (forall n :: n in k.entries ==> 0 < k.entries[n].cookie < k.nextCookie)
    && (forall n, o :: n in k.entries && o in k.entries && k.entries[n].cookie == k.entries[o].cookie ==> n == o)
  }

  ghost predicate CookiesStable(m: Arena) {
    forall d :: IsDir(m, d) ==> 0 < m[d].kind.nextCookie && CookiesDistinct(m[d].kind)
  }

  ghost predicate SumsExact(fs: Fs) {
    && (forall id :: id in fs.inodes ==> id < fs.nextInode)
    && fs.logicalBytes == SumBelow(fs.inodes, FileBytes, fs.nextInode)
    && fs.directoryEntries == SumBelow(fs.inodes, EntryCount, fs.nextInode)
  }

  ghost predicate LocksOnFiles(m: Arena, locks: seq<ByteLocks.Lock>) {
    && ByteLocks.Valid(locks)
    && forall l :: l in locks ==> l.inode in m && m[l.inode].kind.File?
  }

  ghost predicate TreeInv(m: Arena, links: LinkIndex, root: Id) {
    && LinksAgree(m, links)
    && EntriesResolve(m, root)
    && CountsExact(m, links, root)
    && DirectoriesShaped(m, root)
    && Rooted(m, root)
    && CookiesStable(m)
  }

  ghost predicate Inv(fs: Fs) {
    && TreeInv(fs.inodes, fs.links, fs.root)
    && SumsExact(fs)
    && LocksOnFiles(fs.inodes, fs.locks)
  }

  // ---------------------------------------------------------------- operations

  /** Subtraction of a counter: the invariant keeps every subtrahend within its counter. */
  function Minus(a: nat, b: nat): nat {
    if b <= a then a - b else 0
  }

  function NewRoot(): Inode {
    Inode(Directory(map[], 1), None, 1, 0)
  }

  function NewFs(limits: Limits): Fs {
    Fs(map[1 := NewRoot()], map[], 1, 2, 1, limits, 0, 0, [], 1)
  }

  /** entry_path without its text: may `name` be looked at, made or removed in `parent`? */
  function EntryError(m: Arena, parent: Id, name: Name): Option<FsError> {
    if NameError(name).Some? then NameError(name)
    else if parent !in m then Some(NotFound)
    else if !m[parent].kind.Directory? then Some(NotDirectory)
    else if m[parent].linkCount == 0 then Some(NotFound)
    else None
  }

  function WithEntry(i: Inode, n: Name, e: Entry, cookie: nat): Inode
    requires i.kind.Directory?
  {
    i.(kind := Directory(i.kind.entries[n := e], cookie))
  }

  function WithoutEntry(i: Inode, n: Name): Inode
    requires i.kind.Directory?
  {
    i.(kind := Directory(i.kind.entries - {n}, i.kind.nextCookie))
  }

  /** insert: a fresh inode under `name`; every check precedes the first change. */
  function Insert(fs: Fs, parent: Id, name: Name, kind: Kind): Outcome<(Fs, Id)> {
    var m := fs.inodes;
    if parent !in m then Err(NotFound)
    else if !m[parent].kind.Directory? then Err(NotDirectory)
    else if name in m[parent].kind.entries then Err(AlreadyExists)
    else if |m| >= fs.limits.maxInodes || fs.directoryEntries >= fs.limits.maxDirectoryEntries then Err(NoSpace)
    else if fs.nextInode + 1 > U64_MAX || m[parent].kind.nextCookie + 1 > U64_MAX then Err(NoSpace)
    else
      var id := fs.nextInode;
      var cookie := m[parent].kind.nextCookie;
      var dir := WithEntry(m[parent], name, Entry(id, cookie), cookie + 1);
      var child := Inode(kind, if kind.Directory? then Some(parent) else None, 1, 0);
      Ok((fs.(inodes := m[parent := dir][id := child],
              links := fs.links[id := LinksOf(fs.links, id) + {(parent, name)}],
              nextInode := id + 1,
              directoryEntries := fs.directoryEntries + 1), id))
  }

  /** create_at for the three kinds the callers make; new files and directories are empty. */
  function CreateAt(fs: Fs, parent: Id, name: Name, kind: Kind): Outcome<(Fs, Id)> {
    var e := EntryError(fs.inodes, parent, name);
    if e.Some? then Err(e.value) else Insert(fs, parent, name, kind)
  }

  function MkdirAt(fs: Fs, parent: Id, name: Name): Outcome<(Fs, Id)> {
    CreateAt(fs, parent, name, Directory(map[], 1))
  }

  function CreateFileAt(fs: Fs, parent: Id, name: Name): Outcome<(Fs, Id)> {
    CreateAt(fs, parent, name, File([]))
  }

  function SymlinkAt(fs: Fs, parent: Id, name: Name, target: string): Outcome<(Fs, Id)> {
    if '\0' in target || |target| > 0xffff then Err(InvalidPath)
    else CreateAt(fs, parent, name, Symlink(target))
  }

  /** The inode is gone: its bytes and locks go with it. */
  function Reclaim(fs: Fs, id: Id): Fs
    requires id in fs.inodes
  {
    fs.(inodes := fs.inodes - {id},
        logicalBytes := Minus(fs.logicalBytes, FileBytes(fs.inodes[id])),
        locks := ByteLocks.WithoutInode(fs.locks, id))
  }

  function DropLink(links: LinkIndex, id: Id, l: (Id, Name)): LinkIndex {
    if id !in links then links
    else if links[id] - {l} == {} then links - {id}
    else links[id := links[id] - {l}]
  }

  function Unlinked(i: Inode): Inode {
    i.(linkCount := Minus(i.linkCount, 1), parent := if i.linkCount <= 1 then None else i.parent)
  }

  ghost predicate Removable(fs: Fs, p: Id, n: Name) {
    && IsDir(fs.inodes, p) && n in fs.inodes[p].kind.entries
    && var id := fs.inodes[p].kind.entries[n].inode;
       && id in fs.inodes && id != p
       && fs.inodes[id].linkCount > 0
       && fs.directoryEntries > 0
       && FileBytes(fs.inodes[id]) <= fs.logicalBytes
  }

  /** The part of remove_at after its checks. */
  function RemoveEntry(fs: Fs, p: Id, n: Name): Fs
    requires IsDir(fs.inodes, p) && n in fs.inodes[p].kind.entries
    requires fs.inodes[p].kind.entries[n].inode in fs.inodes
  {
    var m := fs.inodes;
    var id := m[p].kind.entries[n].inode;
    var child := Unlinked(m[id]);
    var fs1 := fs.(inodes := m[p := WithoutEntry(m[p], n)][id := child],
                   links := DropLink(fs.links, id, (p, n)),
                   directoryEntries := Minus(fs.directoryEntries, 1));
    if child.linkCount == 0 && child.fidRefs == 0 then Reclaim(fs1, id) else fs1
  }

  function RemoveAt(fs: Fs, p: Id, n: Name): Outcome<Fs> {
    var e := EntryError(fs.inodes, p, n);
    if e.Some? then Err(e.value)
    else
      var m := fs.inodes;
      var c := Child(m, p, n);
      if c.Err? then Err(c.error)
      else if c.value !in m then Err(NotFound)
      else if m[c.value].kind.Directory? && m[c.value].kind.entries != map[] then Err(NotEmpty)
      else Ok(RemoveEntry(fs, p, n))
  }

  /** link_at: another name for a file or symlink, even one whose last name is gone. */
  function LinkAt(fs: Fs, p: Id, n: Name, id: Id): Outcome<Fs> {
    var m := fs.inodes;
    var e := EntryError(m, p, n);
    if e.Some? then Err(e.value)
    else if id !in m then Err(NotFound)
    else if m[id].kind.Directory? then Err(IsDirectory)
    else if m[id].linkCount + 1 > U32_MAX then Err(NoSpace)
    else if n in m[p].kind.entries then Err(AlreadyExists)
    else if fs.directoryEntries >= fs.limits.maxDirectoryEntries then Err(NoSpace)
    else if m[p].kind.nextCookie + 1 > U64_MAX then Err(NoSpace)
    else
      var cookie := m[p].kind.nextCookie;
      Ok(fs.(inodes := m[p := WithEntry(m[p], n, Entry(id, cookie), cookie + 1)]
                        [id := m[id].(linkCount := m[id].linkCount + 1)],
             links := fs.links[id := LinksOf(fs.links, id) + {(p, n)}],
             directoryEntries := fs.directoryEntries + 1))
  }

  /** The kinds of a moved inode and of the entry it would replace. */
  function ReplaceError(moving: Kind, target: Kind): Option<FsError> {
    if moving.Directory? && target.Directory? then (if target.entries != map[] then Some(NotEmpty) else None)
    else if !moving.Directory? && !target.Directory? then None
    else if moving.Directory? then Some(NotDirectory)
    else Some(IsDirectory)
  }

  /** The entry changes of a rename, once any replaced entry is gone. */
  function MoveEntry(fs: Fs, p: Id, n: Name, q: Id, o: Name, cookie: nat): Fs
    requires IsDir(fs.inodes, p) && IsDir(fs.inodes, q) && n in fs.inodes[p].kind.entries
    requires fs.inodes[p].kind.entries[n].inode in fs.inodes
    requires fs.inodes[p].kind.entries[n].inode !in {p, q}
  {
    var m := fs.inodes;
    var id := m[p].kind.entries[n].inode;
    var m1 := m[p := WithoutEntry(m[p], n)];
    var next := if p == q then m1[q].kind.nextCookie else m1[q].kind.nextCookie + 1;
    var m2 := m1[q := WithEntry(m1[q], o, Entry(id, cookie), next)];
    var moved := if m2[id].kind.Directory? then m2[id].(parent := Some(q)) else m2[id];
    fs.(inodes := m2[id := moved],
        links := if id in fs.links then fs.links[id := fs.links[id] - {(p, n)} + {(q, o)}] else fs.links)
  }

  /** Is `id` on the way from `d` up to the root? */
  ghost predicate OnChain(m: Arena, root: Id, d: Id, id: Id) {
    exists s :: Chain(m, root, d, s) && id in s
  }

  /** Everything rename_at checks before it changes anything. */
  ghost function RenameError(fs: Fs, p: Id, n: Name, q: Id, o: Name): Option<FsError>
    requires Inv(fs)
  {
    var m := fs.inodes;
    if EntryError(m, p, n).Some? then EntryError(m, p, n)
    else if EntryError(m, q, o).Some? then EntryError(m, q, o)
    else
      var c := Child(m, p, n);
      if c.Err? then Some(c.error)
      else if c.value !in m then Some(NotFound)
      else if IsDir(m, c.value) && OnChain(m, fs.root, q, c.value) then Some(InvalidPath)
      else if o !in m[q].kind.entries then
        if p != q && m[q].kind.nextCookie + 1 > U64_MAX then Some(NoSpace) else None
      else
        var replaced := m[q].kind.entries[o].inode;
        if replaced == c.value then None
        else if replaced !in m then Some(NotFound)
        else if ReplaceError(m[c.value].kind, m[replaced].kind).Some? then
          ReplaceError(m[c.value].kind, m[replaced].kind)
        else if p != q && m[q].kind.nextCookie + 1 > U64_MAX then Some(NoSpace)
        else None
  }

  /** The checks passed and the two names do not already denote one inode. */
  ghost predicate Moves(fs: Fs, p: Id, n: Name, q: Id, o: Name)
    requires Inv(fs)
  {
    && RenameError(fs, p, n, q, o).None?
    && !HasEntry(fs.inodes, q, o, fs.inodes[p].kind.entries[n].inode)
  }

  ghost function RenameAt(fs: Fs, p: Id, n: Name, q: Id, o: Name): Outcome<Fs>
    requires Inv(fs)
  {
    var e := RenameError(fs, p, n, q, o);
    if e.Some? then Err(e.value)
    else if !Moves(fs, p, n, q, o) then Ok(fs)
    else
      RenameIsReady(fs, p, n, q, o);
      Ok(MoveEntry(Displaced(fs, q, o), p, n, q, o, RenameCookie(fs, p, n, q)))
  }

  function RenameCookie(fs: Fs, p: Id, n: Name, q: Id): nat
    requires IsDir(fs.inodes, p) && n in fs.inodes[p].kind.entries && IsDir(fs.inodes, q)
  {
    if p == q then fs.inodes[p].kind.entries[n].cookie else fs.inodes[q].kind.nextCookie
  }

  /** The namespace without the entry a rename replaces. */
  function Displaced(fs: Fs, q: Id, o: Name): Fs
    requires IsDir(fs.inodes, q)
    requires o in fs.inodes[q].kind.entries ==> fs.inodes[q].kind.entries[o].inode in fs.inodes
  {
    if o in fs.inodes[q].kind.entries then RemoveEntry(fs, q, o) else fs
  }

  /** Any change of one file's bytes: whole-file writes, ranged writes and truncation. */
  function ResizeError(fs: Fs, id: Id, size: nat): Option<FsError> {
    if id !in fs.inodes then Some(NotFound)
    else if !fs.inodes[id].kind.File? then Some(IsDirectory)
    else if size > fs.limits.maxFileBytes then Some(FileTooLarge)
    else if Minus(fs.logicalBytes, FileBytes(fs.inodes[id])) + size > fs.limits.maxTreeBytes then Some(NoSpace)
    else None
  }

  function SetBody(fs: Fs, id: Id, body: seq<byte>): Fs
    requires id in fs.inodes && fs.inodes[id].kind.File?
  {
    fs.(inodes := fs.inodes[id := fs.inodes[id].(kind := File(body))],
        logicalBytes := Minus(fs.logicalBytes, FileBytes(fs.inodes[id])) + |body|)
  }

  function Resized(body: seq<byte>, size: nat): (r: seq<byte>)
    ensures |r| == size
    ensures forall i :: 0 <= i < size ==> r[i] == if i < |body| then body[i] else 0
  {
    if size <= |body| then body[..size] else body + seq(size - |body|, _ => 0)
  }

  /** The body after `data` lands at `start`, zero filling any gap. */
  function Patched(body: seq<byte>, start: nat, data: seq<byte>): (r: seq<byte>)
    ensures |r| == if start + |data| > |body| then start + |data| else |body|
    ensures r[start..start + |data|] == data
    ensures forall i :: 0 <= i < |r| && (i < start || start + |data| <= i) ==>
                          r[i] == if i < |body| then body[i] else 0
  {
    var size := if start + |data| > |body| then start + |data| else |body|;
    var grown := Resized(body, size);
    grown[..start] + data + grown[start + |data|..]
  }

  function Truncate(fs: Fs, id: Id, size: nat): Outcome<Fs> {
    var e := ResizeError(fs, id, size);
    if e.Some? then Err(e.value)
    else Ok(SetBody(fs, id, Resized(fs.inodes[id].kind.body, size)))
  }

  function WriteInode(fs: Fs, id: Id, offset: nat, data: seq<byte>, append: bool): Outcome<Fs> {
    if id !in fs.inodes then Err(NotFound)
    else if !fs.inodes[id].kind.File? then Err(IsDirectory)
    else if data == [] then Ok(fs)
    else
      var body := fs.inodes[id].kind.body;
      var start := if append then |body| else offset;
      var e := if start + |data| > U64_MAX then Some(FileTooLarge)
               else ResizeError(fs, id, |Patched(body, start, data)|);
      if e.Some? then Err(e.value)
      else Ok(SetBody(fs, id, Patched(body, start, data)))
  }

  /** write_file: replace a whole file by path, or create it in an existing directory. */
  function WriteFile(fs: Fs, path: Path, bytes: seq<byte>): Outcome<(Fs, Id)> {
    if |bytes| > fs.limits.maxFileBytes then Err(FileTooLarge)
    else if PathError(path).Some? then Err(PathError(path).value)
    else if path == [] then Err(InvalidPath)
    else
      var up := Lookup(fs, path[..|path| - 1]);
      var name := path[|path| - 1];
      if up.Err? then Err(up.error)
      else if up.value !in fs.inodes then Err(NotFound)
      else if !fs.inodes[up.value].kind.Directory? then Err(NotDirectory)
      else if name in fs.inodes[up.value].kind.entries then
        var id := fs.inodes[up.value].kind.entries[name].inode;
        var e := ResizeError(fs, id, |bytes|);
        if e.Some? then Err(e.value)
        else Ok((SetBody(fs, id, bytes), id))
      else if fs.logicalBytes + |bytes| > fs.limits.maxTreeBytes then Err(NoSpace)
      else
        var r := Insert(fs, up.value, name, File(bytes));
        if r.Err? then Err(r.error)
        else Ok((r.value.0.(logicalBytes := fs.logicalBytes + |bytes|), r.value.1))
  }

  function RetainFid(fs: Fs, id: Id): Outcome<Fs> {
    if id !in fs.inodes then Err(NotFound)
    else if fs.inodes[id].fidRefs + 1 > U32_MAX then Err(NoSpace)
    else Ok(fs.(inodes := fs.inodes[id := fs.inodes[id].(fidRefs := fs.inodes[id].fidRefs + 1)]))
  }

  /** One reference less; the last one of an unlinked inode reclaims it. */
  function Unreferenced(fs: Fs, id: Id): Fs
    requires id in fs.inodes && fs.inodes[id].fidRefs > 0
  {
    var fs1 := fs.(inodes := fs.inodes[id := fs.inodes[id].(fidRefs := fs.inodes[id].fidRefs - 1)]);
    if fs1.inodes[id].fidRefs == 0 && fs1.inodes[id].linkCount == 0 then
      Reclaim(fs1, id).(links := fs.links - {id})
    else fs1
  }

  function ReleaseFid(fs: Fs, id: Id): Outcome<Fs> {
    if id !in fs.inodes then Err(NotFound)
    else if fs.inodes[id].fidRefs == 0 then Err(InvalidPath)
    else Ok(Unreferenced(fs, id))
  }

  /** reset: a fresh arena whose root takes the next identity; counters never go back. */
  function Reset(fs: Fs): Outcome<Fs> {
    if fs.generation + 1 > U64_MAX then Err(NoSpace)
    else if fs.nextInode + 1 > U64_MAX then Err(NoSpace)
    else Ok(Fs(map[fs.nextInode := NewRoot()], map[], fs.nextInode, fs.nextInode + 1, fs.generation + 1,
               fs.limits, 0, 0, [], fs.nextSession))
  }

  function FileError(m: Arena, id: Id): Option<FsError> {
    if id !in m then Some(NotFound) else if m[id].kind.File? then None else Some(IsDirectory)
  }

  function TryLock(fs: Fs, requested: ByteLocks.Lock): Outcome<(Fs, bool)> {
    var e := FileError(fs.inodes, requested.inode);
    if e.Some? then Err(e.value)
    else match ByteLocks.Acquire(fs.locks, requested)
      case None => Ok((fs, false))
      case Some(locks) => Ok((fs.(locks := locks), true))
  }

  function Unlock(fs: Fs, cut: ByteLocks.Lock): Outcome<Fs> {
    var e := FileError(fs.inodes, cut.inode);
    if e.Some? then Err(e.value) else Ok(fs.(locks := ByteLocks.Subtract(fs.locks, cut)))
  }

  function ReleaseSessionLocks(fs: Fs, session: nat): Fs {
    fs.(locks := ByteLocks.WithoutSession(fs.locks, session))
  }

  // --------------------------------------------------------------------- sums

  lemma {:induction false} SumPut(m: Arena, w: Inode -> nat, n: nat, k: Id, v: Inode)
    ensures SumBelow(m[k := v], w, n) + (if k < n && k in m then w(m[k]) else 0)
            == SumBelow(m, w, n) + (if k < n then w(v) else 0)
  {
    if n > 0 { SumPut(m, w, n - 1, k, v); }
  }

  lemma {:induction false} SumDrop(m: Arena, w: Inode -> nat, n: nat, k: Id)
    ensures SumBelow(m - {k}, w, n) + (if k < n && k in m then w(m[k]) else 0) == SumBelow(m, w, n)
  {
    if n > 0 { SumDrop(m, w, n - 1, k); }
  }

  lemma {:induction false} SumAtLeast(m: Arena, w: Inode -> nat, n: nat, k: Id)
    requires k < n && k in m
    ensures w(m[k]) <= SumBelow(m, w, n)
  {
    if k < n - 1 { SumAtLeast(m, w, n - 1, k); }
  }

  lemma FileFitsTotal(fs: Fs, id: Id)
    requires SumsExact(fs) && id in fs.inodes
    ensures FileBytes(fs.inodes[id]) <= fs.logicalBytes
    ensures EntryCount(fs.inodes[id]) <= fs.directoryEntries
  {
    SumAtLeast(fs.inodes, FileBytes, fs.nextInode, id);
    SumAtLeast(fs.inodes, EntryCount, fs.nextInode, id);
  }

  lemma EntryIsRemovable(fs: Fs, p: Id, n: Name)
    requires Inv(fs) && IsDir(fs.inodes, p) && n in fs.inodes[p].kind.entries
    ensures Removable(fs, p, n)
  {
    var id := fs.inodes[p].kind.entries[n].inode;
    assert HasEntry(fs.inodes, p, n, id);
    assert (p, n) in LinksOf(fs.links, id);
    FileFitsTotal(fs, id);
    FileFitsTotal(fs, p);
    assert |fs.inodes[p].kind.entries| > 0;
    if id == p { NoSelfEntry(fs.inodes, fs.links, fs.root, p, n); }
  }

  // -------------------------------------------------------------------- chains

  lemma RootChain(m: Arena, root: Id, s: seq<Id>)
    requires root in m && m[root].parent == None && Chain(m, root, root, s)
    ensures s == [root]
  {
    assert Climbs(m, s, 0);
  }

  lemma ChainTail(m: Arena, root: Id, d: Id, s: seq<Id>, i: nat)
    requires Chain(m, root, d, s) && i < |s|
    ensures Chain(m, root, s[i], s[i..])
  {
    forall k ensures Climbs(m, s[i..], k) { assert Climbs(m, s, i + k); }
  }

  /** Following parent fields is deterministic and stops at the root, so chains are unique. */
  lemma {:induction false} ChainUnique(m: Arena, root: Id, d: Id, s: seq<Id>, t: seq<Id>)
    requires root in m && m[root].parent == None
    requires Chain(m, root, d, s) && Chain(m, root, d, t)
    ensures s == t
    decreases |s|
  {
    if |s| == 1 || |t| == 1 {
      assert d == root;
      RootChain(m, root, s);
      RootChain(m, root, t);
    } else {
      assert Climbs(m, s, 0) && Climbs(m, t, 0);
      ChainTail(m, root, d, s, 1);
      ChainTail(m, root, d, t, 1);
      ChainUnique(m, root, s[1], s[1..], t[1..]);
      assert s == [d] + s[1..] && t == [d] + t[1..];
    }
  }

  /** A chain never visits a directory twice: the tree has no cycles. */
  lemma ChainHasNoRepeats(m: Arena, root: Id, d: Id, s: seq<Id>, i: nat, j: nat)
    requires root in m && m[root].parent == None
    requires Chain(m, root, d, s) && i < j < |s|
    ensures s[i] != s[j]
  {
    if s[i] == s[j] {
      ChainTail(m, root, d, s, i);
      ChainTail(m, root, d, s, j);
      ChainUnique(m, root, s[i], s[i..], s[j..]);
    }
  }

  lemma NoSelfEntry(m: Arena, links: LinkIndex, root: Id, p: Id, n: Name)
    requires TreeInv(m, links, root)
    ensures !HasEntry(m, p, n, p)
  {
    if HasEntry(m, p, n, p) {
      assert (p, n) in LinksOf(links, p);
      assert m[p].parent == Some(p);
      var s :| Chain(m, root, p, s);
      assert Climbs(m, s, 0);
      ChainHasNoRepeats(m, root, p, s, 0, 1);
    }
  }

  lemma NotOwnHolder(fs: Fs, p: Id, n: Name, q: Id, id: Id)
    requires Inv(fs) && HasEntry(fs.inodes, p, n, id) && IsDir(fs.inodes, q) && fs.inodes[q].linkCount != 0
    requires IsDir(fs.inodes, id) ==> !OnChain(fs.inodes, fs.root, q, id)
    ensures id != p && id != q
  {
    NoSelfEntry(fs.inodes, fs.links, fs.root, p, n);
    var s :| Chain(fs.inodes, fs.root, q, s);
    assert q in s;
  }

  /** A rename that passed its checks can displace the target and then move the entry. */
  lemma RenameIsReady(fs: Fs, p: Id, n: Name, q: Id, o: Name)
    requires Inv(fs) && Moves(fs, p, n, q, o)
    ensures o in fs.inodes[q].kind.entries ==> Removable(fs, q, o)
    ensures var gone := Displaced(fs, q, o); var id := fs.inodes[p].kind.entries[n].inode;
            && IsDir(gone.inodes, p) && IsDir(gone.inodes, q)
            && HasEntry(gone.inodes, p, n, id) && id in gone.inodes && id !in {p, q}
  {
    var id := fs.inodes[p].kind.entries[n].inode;
    assert HasEntry(fs.inodes, p, n, id);
    NotOwnHolder(fs, p, n, q, id);
    if o in fs.inodes[q].kind.entries {
      EntryIsRemovable(fs, q, o);
      assert HasEntry(fs.inodes, q, o, fs.inodes[q].kind.entries[o].inode);
      assert fs.inodes[p].kind.entries != map[];
    }
  }

  /** Every directory holding an entry is itself linked. */
  lemma HolderIsLinked(m: Arena, links: LinkIndex, root: Id, p: Id, n: Name, id: Id)
    requires TreeInv(m, links, root) && HasEntry(m, p, n, id)
    ensures m[p].linkCount == 1
  {
  }
}
