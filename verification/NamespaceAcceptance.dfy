/**
 When the namespace operations of src/ninep.rs succeed and with which error they refuse,
 said on names, entries, kinds and limits, apart from the operations' own checks.
 */
module NamespaceAcceptance {
  import opened Wrappers
  import opened Namespace
  import opened NamespaceInvariant
  import opened NamespaceEffects
  import ByteLocks

  // ---------------------------------------------------------------------- the vocabulary

  /** A name that can stand in a directory. */
  predicate Legal(n: Name) {
    n != "" && n != "." && n != ".." && |n| <= 255 && forall i :: 0 <= i < |n| ==> n[i] != '/' && n[i] != '\0'
  }

  /** What is wrong with an illegal name: its form, or its length alone. */
  function NameFault(n: Name): FsError {
    if n == "" || n == "." || n == ".." || (exists i :: 0 <= i < |n| && (n[i] == '/' || n[i] == '\0')) then InvalidPath
    else NameTooLong
  }

  /** A directory that still has a place in the tree. */
  predicate LinkedDir(m: Arena, p: Id) {
    p in m && m[p].kind.Directory? && m[p].linkCount > 0
  }

  predicate IsFile(m: Arena, id: Id) { id in m && m[id].kind.File? }

  predicate IsEmptyDir(m: Arena, id: Id) { IsDir(m, id) && m[id].kind.entries == map[] }

  /** The first reason why `n` may not be looked at in `p`, if any. */
  function PlaceRefusal(m: Arena, p: Id, n: Name): Option<FsError> {
    if !Legal(n) then Some(NameFault(n))
    else if LinkedDir(m, p) then None
    else if p in m && !m[p].kind.Directory? then Some(NotDirectory)
    else Some(NotFound)
  }

  predicate HasCookie(m: Arena, p: Id)
    requires IsDir(m, p)
  {
    m[p].kind.nextCookie < 0xffff_ffff_ffff_ffff
  }

  lemma LegalNames(n: Name)
    ensures NameError(n) == if Legal(n) then None else Some(NameFault(n))
  {
    assert '/' in n <==> exists i :: 0 <= i < |n| && n[i] == '/';
    assert '\0' in n <==> exists i :: 0 <= i < |n| && n[i] == '\0';
  }

  lemma PlacesAreChecked(m: Arena, p: Id, n: Name)
    ensures EntryError(m, p, n) == PlaceRefusal(m, p, n)
  {
    LegalNames(n);
  }

  // ------------------------------------------------------------------------------ rename

  /** The moving directory would end up below itself. */
  ghost predicate IntoItself(fs: Fs, id: Id, q: Id) {
    IsDir(fs.inodes, id) && OnChain(fs.inodes, fs.root, q, id)
  }

  /** The entry under the new name, if any, may be replaced by the moving inode. */
  predicate Replaceable(m: Arena, id: Id, target: Option<Id>) {
    || target == None || target == Some(id)
    || (!IsDir(m, id) && !IsDir(m, target.value))
    || (IsDir(m, id) && IsEmptyDir(m, target.value))
  }

  /** A rename is accepted: legal places, an entry to move, no loop, a replaceable target, a cookie if one is needed. */
  ghost predicate MayRename(fs: Fs, p: Id, n: Name, q: Id, o: Name) {
    var m := fs.inodes;
    && Legal(n) && Legal(o) && LinkedDir(m, p) && LinkedDir(m, q)
    && EntryAt(m, p, n).Some?
    && var id := EntryAt(m, p, n).value;
       && !IntoItself(fs, id, q) && Replaceable(m, id, EntryAt(m, q, o))
       && (p != q && EntryAt(m, q, o) != Some(id) ==> HasCookie(m, q))
  }

  /** The error of a rename that is refused: the first fault in this order. */
  ghost function RenameRefusal(fs: Fs, p: Id, n: Name, q: Id, o: Name): FsError {
    var m := fs.inodes;
    var source, target := EntryAt(m, p, n), EntryAt(m, q, o);
    if PlaceRefusal(m, p, n).Some? then PlaceRefusal(m, p, n).value
    else if PlaceRefusal(m, q, o).Some? then PlaceRefusal(m, q, o).value
    else if source == None then NotFound
    else if IntoItself(fs, source.value, q) then InvalidPath
    else if target != None && IsDir(m, source.value) && !IsDir(m, target.value) then NotDirectory
    else if target != None && !IsDir(m, source.value) && IsDir(m, target.value) then IsDirectory
    else if target != None && target != source && IsDir(m, source.value) && !IsEmptyDir(m, target.value) then NotEmpty
    else NoSpace
  }

  lemma EntriesAreThere(fs: Fs, p: Id, n: Name)
    requires Inv(fs)
    ensures var e := EntryAt(fs.inodes, p, n);
            && (e.Some? ==> e.value in fs.inodes)
            && (IsDir(fs.inodes, p) ==> Child(fs.inodes, p, n) == if e.Some? then Ok(e.value) else Err(NotFound))
  {
    var e := EntryAt(fs.inodes, p, n);
    if e.Some? { assert HasEntry(fs.inodes, p, n, e.value); }
  }

  lemma ReplacementLaw(m: Arena, id: Id, target: Id)
    requires id in m && target in m && id != target
    ensures ReplaceError(m[id].kind, m[target].kind)
            == if Replaceable(m, id, Some(target)) then None
               else if IsDir(m, id) && !IsDir(m, target) then Some(NotDirectory)
               else if !IsDir(m, id) && IsDir(m, target) then Some(IsDirectory) else Some(NotEmpty)
  {
  }

  lemma RenameChecks(fs: Fs, p: Id, n: Name, q: Id, o: Name)
    requires Inv(fs) && PlaceRefusal(fs.inodes, p, n).None? && PlaceRefusal(fs.inodes, q, o).None?
    ensures RenameError(fs, p, n, q, o)
            == if MayRename(fs, p, n, q, o) then None else Some(RenameRefusal(fs, p, n, q, o))
  {
    var m := fs.inodes;
    PlacesAreChecked(m, p, n);
    PlacesAreChecked(m, q, o);
    EntriesAreThere(fs, p, n);
    EntriesAreThere(fs, q, o);
    var source, target := EntryAt(m, p, n), EntryAt(m, q, o);
    if source.Some? && target.Some? && target != source { ReplacementLaw(m, source.value, target.value); }
  }

  /** A rename succeeds if and only if it may, and otherwise reports its first fault. */
  lemma RenameExactly(fs: Fs, p: Id, n: Name, q: Id, o: Name)
    requires Inv(fs)
    ensures var r := RenameAt(fs, p, n, q, o);
            && (r.Ok? <==> MayRename(fs, p, n, q, o))
            && (r.Err? ==> r.error == RenameRefusal(fs, p, n, q, o))
  {
    PlacesAreChecked(fs.inodes, p, n);
    PlacesAreChecked(fs.inodes, q, o);
    if PlaceRefusal(fs.inodes, p, n).None? && PlaceRefusal(fs.inodes, q, o).None? { RenameChecks(fs, p, n, q, o); }
  }

  /** After an accepted rename every entry is as it must be, also when both names denote one inode. */
  lemma RenameDoes(fs: Fs, p: Id, n: Name, q: Id, o: Name, d: Id, x: Name)
    requires Inv(fs) && MayRename(fs, p, n, q, o)
    ensures RenameAt(fs, p, n, q, o).Ok?
    ensures var m, after := fs.inodes, RenameAt(fs, p, n, q, o).value.inodes;
            EntryAt(after, d, x)
            == if EntryAt(m, p, n) == EntryAt(m, q, o) then EntryAt(m, d, x)
               else if d == q && x == o then EntryAt(m, p, n) else if d == p && x == n then None else EntryAt(m, d, x)
  {
    RenameExactly(fs, p, n, q, o);
    RenameToSameInode(fs, p, n, q, o);
    if Moves(fs, p, n, q, o) { RenameAtMovesOneEntry(fs, p, n, q, o, d, x); }
  }

  /** A rename touches no file's bytes but those of a file it replaces that has no other name and no fid. */
  lemma RenameKeepsFiles(fs: Fs, p: Id, n: Name, q: Id, o: Name, d: Id)
    requires Inv(fs) && MayRename(fs, p, n, q, o)
    requires EntryAt(fs.inodes, q, o) == Some(d) && EntryAt(fs.inodes, p, n) != Some(d) && d in fs.inodes ==>
               fs.inodes[d].linkCount > 1 || fs.inodes[d].fidRefs > 0
    ensures RenameAt(fs, p, n, q, o).Ok?
    ensures BodyAt(RenameAt(fs, p, n, q, o).value.inodes, d) == BodyAt(fs.inodes, d)
  {
    RenameExactly(fs, p, n, q, o);
    if Moves(fs, p, n, q, o) {
      RenameIsReady(fs, p, n, q, o);
      var gone := Displaced(fs, q, o);
      if o in fs.inodes[q].kind.entries { ReplacedFileStays(fs, q, o, d); }
      MoveEntryEffect(gone, p, n, q, o, RenameCookie(fs, p, n, q), d, o);
    }
  }

  lemma ReplacedFileStays(fs: Fs, q: Id, o: Name, d: Id)
    requires Inv(fs) && EntryAt(fs.inodes, q, o).Some?
    requires EntryAt(fs.inodes, q, o) == Some(d) && d in fs.inodes ==>
               fs.inodes[d].linkCount > 1 || fs.inodes[d].fidRefs > 0
    ensures EntryAt(fs.inodes, q, o).value in fs.inodes
    ensures BodyAt(RemoveEntry(fs, q, o).inodes, d) == BodyAt(fs.inodes, d)
  {
    EntryIsRemovable(fs, q, o);
  }

  // -------------------------------------------------------------- create, link and remove

  /** An entry of the kind may be created under the name. */
  predicate MayCreate(fs: Fs, p: Id, n: Name) {
    && Legal(n) && LinkedDir(fs.inodes, p) && EntryAt(fs.inodes, p, n) == None
    && |fs.inodes| < fs.limits.maxInodes && fs.directoryEntries < fs.limits.maxDirectoryEntries
    && fs.nextInode < 0xffff_ffff_ffff_ffff && HasCookie(fs.inodes, p)
  }

  /** Creation succeeds if and only if it may, and otherwise reports its first fault. */
  lemma CreateExactly(fs: Fs, p: Id, n: Name, kind: Kind)
    ensures var r := CreateAt(fs, p, n, kind);
            && (r.Ok? <==> MayCreate(fs, p, n))
            && (r.Err? ==> r.error == if PlaceRefusal(fs.inodes, p, n).Some? then PlaceRefusal(fs.inodes, p, n).value
                                      else if EntryAt(fs.inodes, p, n) != None then AlreadyExists else NoSpace)
  {
    PlacesAreChecked(fs.inodes, p, n);
  }

  /** Another name for a file or symlink: one that exists, a free name, room for it. */
  predicate MayLink(fs: Fs, p: Id, n: Name, id: Id) {
    && Legal(n) && LinkedDir(fs.inodes, p) && EntryAt(fs.inodes, p, n) == None
    && id in fs.inodes && !IsDir(fs.inodes, id)
    && fs.inodes[id].linkCount < 0xffff_ffff && fs.directoryEntries < fs.limits.maxDirectoryEntries
    && HasCookie(fs.inodes, p)
  }

  lemma LinkExactly(fs: Fs, p: Id, n: Name, id: Id)
    ensures var r := LinkAt(fs, p, n, id);
            && (r.Ok? <==> MayLink(fs, p, n, id))
            && (r.Err? ==> r.error == if PlaceRefusal(fs.inodes, p, n).Some? then PlaceRefusal(fs.inodes, p, n).value
                                      else if id !in fs.inodes then NotFound
                                      else if IsDir(fs.inodes, id) then IsDirectory
                                      else if fs.inodes[id].linkCount >= 0xffff_ffff then NoSpace
                                      else if EntryAt(fs.inodes, p, n) != None then AlreadyExists else NoSpace)
  {
    PlacesAreChecked(fs.inodes, p, n);
  }

  /** Anything but a directory with entries may be removed. */
  lemma RemoveExactly(fs: Fs, p: Id, n: Name)
    requires Inv(fs)
    ensures var r, e := RemoveAt(fs, p, n), EntryAt(fs.inodes, p, n);
            && (r.Ok? <==> Legal(n) && LinkedDir(fs.inodes, p) && e.Some?
                           && (IsDir(fs.inodes, e.value) ==> IsEmptyDir(fs.inodes, e.value)))
            && (r.Err? ==> r.error == if PlaceRefusal(fs.inodes, p, n).Some? then PlaceRefusal(fs.inodes, p, n).value
                                      else if e == None then NotFound else NotEmpty)
  {
    PlacesAreChecked(fs.inodes, p, n);
    EntriesAreThere(fs, p, n);
  }

  // --------------------------------------------------------------------------- file bodies

  /** The file may take that size: within the file limit, and the tree within its limit. */
  predicate Fits(fs: Fs, id: Id, size: nat)
    requires IsFile(fs.inodes, id)
  {
    size <= fs.limits.maxFileBytes && fs.logicalBytes - |fs.inodes[id].kind.body| + size <= fs.limits.maxTreeBytes
  }

  /** The error of a body change that is refused. */
  function SizeRefusal(fs: Fs, id: Id, size: nat): FsError {
    if id !in fs.inodes then NotFound else if !IsFile(fs.inodes, id) then IsDirectory
    else if size > fs.limits.maxFileBytes then FileTooLarge else NoSpace
  }

  lemma SizesAreChecked(fs: Fs, id: Id, size: nat)
    requires Inv(fs)
    ensures ResizeError(fs, id, size)
            == if IsFile(fs.inodes, id) && Fits(fs, id, size) then None else Some(SizeRefusal(fs, id, size))
  {
    if IsFile(fs.inodes, id) { FileFitsTotal(fs, id); }
  }

  /** A size change succeeds if and only if the file exists and the new size fits. */
  lemma ResizeExactly(fs: Fs, id: Id, size: nat)
    requires Inv(fs)
    ensures var r := Truncate(fs, id, size);
            && (r.Ok? <==> IsFile(fs.inodes, id) && Fits(fs, id, size))
            && (r.Err? ==> r.error == SizeRefusal(fs, id, size))
  {
    SizesAreChecked(fs, id, size);
  }

  /** Where a ranged write ends: at its offset, or at the end of the file when it appends. */
  function WriteEnd(fs: Fs, id: Id, offset: nat, data: seq<byte>, append: bool): nat
    requires IsFile(fs.inodes, id)
  {
    (if append then |fs.inodes[id].kind.body| else offset) + |data|
  }

  /** A ranged write succeeds if and only if the file exists and what it grows to fits; an empty one always does. */
  lemma WriteExactly(fs: Fs, id: Id, offset: nat, data: seq<byte>, append: bool)
    requires Inv(fs)
    ensures var r := WriteInode(fs, id, offset, data, append);
            && (r.Ok? <==> IsFile(fs.inodes, id)
                           && (data == []
                               || var end, size := WriteEnd(fs, id, offset, data, append), |fs.inodes[id].kind.body|;
                                  end <= 0xffff_ffff_ffff_ffff && Fits(fs, id, if end > size then end else size)))
            && (data == [] && r.Ok? ==> r.value == fs)
            && (r.Err? ==> r.error in {NotFound, IsDirectory, FileTooLarge, NoSpace})
  {
    if IsFile(fs.inodes, id) && data != [] {
      var end, size := WriteEnd(fs, id, offset, data, append), |fs.inodes[id].kind.body|;
      SizesAreChecked(fs, id, if end > size then end else size);
    }
  }
}
