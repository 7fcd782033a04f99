/**
 What each namespace operation does to the two things a client can see: which inode an
 entry names, and what a file holds.  A renamed directory takes its whole subtree along.
 */
module NamespaceEffects {
  import opened Wrappers
  import opened Namespace
  import opened NamespaceInvariant

  /** The inode that entry x of directory d names. */
  function EntryAt(m: Arena, d: Id, x: Name): Option<Id> {
    if IsDir(m, d) && x in m[d].kind.entries then Some(m[d].kind.entries[x].inode) else None
  }

  /** The bytes of a file. */
  function BodyAt(m: Arena, id: Id): Option<seq<byte>> {
    if id in m && m[id].kind.File? then Some(m[id].kind.body) else None
  }

  // ------------------------------------------------------------------------- entries

  /** A new inode appears under one name; every other entry and file is as before. */
  lemma InsertAddsOneEntry(fs: Fs, p: Id, n: Name, kind: Kind, d: Id, x: Name)
    requires (forall id :: id in fs.inodes ==> id < fs.nextInode) && Insert(fs, p, n, kind).Ok?
    ensures var (after, id) := Insert(fs, p, n, kind).value;
            && id !in fs.inodes && id in after.inodes && after.inodes[id].kind == kind
            && EntryAt(after.inodes, p, n) == Some(id) && EntryAt(fs.inodes, p, n) == None
            && (d != id && (d != p || x != n) ==> EntryAt(after.inodes, d, x) == EntryAt(fs.inodes, d, x))
            && (d != id ==> BodyAt(after.inodes, d) == BodyAt(fs.inodes, d))
  {
  }

  /** A second name for an existing file. */
  lemma LinkAtAddsOneEntry(fs: Fs, p: Id, n: Name, id: Id, d: Id, x: Name)
    requires LinkAt(fs, p, n, id).Ok?
    ensures var after := LinkAt(fs, p, n, id).value.inodes;
            && EntryAt(fs.inodes, p, n) == None
            && EntryAt(after, d, x) == (if d == p && x == n then Some(id) else EntryAt(fs.inodes, d, x))
            && BodyAt(after, d) == BodyAt(fs.inodes, d)
  {
  }

  lemma RemoveEntryEffect(fs: Fs, p: Id, n: Name, d: Id, x: Name)
    requires Removable(fs, p, n)
    requires var id := fs.inodes[p].kind.entries[n].inode; IsDir(fs.inodes, id) ==> fs.inodes[id].kind.entries == map[]
    ensures var after := RemoveEntry(fs, p, n).inodes;
            && EntryAt(after, d, x) == (if d == p && x == n then None else EntryAt(fs.inodes, d, x))
            && (d != fs.inodes[p].kind.entries[n].inode ==> BodyAt(after, d) == BodyAt(fs.inodes, d))
  {
  }

  /** Exactly one entry goes; a file with another name or an open fid keeps its bytes. */
  lemma RemoveAtTakesOneEntry(fs: Fs, p: Id, n: Name, d: Id, x: Name)
    requires Inv(fs) && RemoveAt(fs, p, n).Ok?
    ensures var after := RemoveAt(fs, p, n).value.inodes;
            && EntryAt(fs.inodes, p, n).Some?
            && EntryAt(after, d, x) == (if d == p && x == n then None else EntryAt(fs.inodes, d, x))
            && (var id := EntryAt(fs.inodes, p, n).value;
                d != id || fs.inodes[id].linkCount > 1 || fs.inodes[id].fidRefs > 0 ==>
                  BodyAt(after, d) == BodyAt(fs.inodes, d))
  {
    EntryIsRemovable(fs, p, n);
    RemoveEntryEffect(fs, p, n, d, x);
  }

  lemma MoveEntryEffect(fs: Fs, p: Id, n: Name, q: Id, o: Name, cookie: nat, d: Id, x: Name)
    requires IsDir(fs.inodes, p) && IsDir(fs.inodes, q) && n in fs.inodes[p].kind.entries
    requires fs.inodes[p].kind.entries[n].inode in fs.inodes && fs.inodes[p].kind.entries[n].inode !in {p, q}
    ensures var after := MoveEntry(fs, p, n, q, o, cookie).inodes;
            && EntryAt(after, d, x) == (if d == q && x == o then Some(fs.inodes[p].kind.entries[n].inode)
                                        else if d == p && x == n then None else EntryAt(fs.inodes, d, x))
            && BodyAt(after, d) == BodyAt(fs.inodes, d)
            && (d in after <==> d in fs.inodes) && (IsDir(after, d) <==> IsDir(fs.inodes, d))
  {
  }

  /** The moved inode is under its new name only, and no third entry changes. */
  lemma RenameAtMovesOneEntry(fs: Fs, p: Id, n: Name, q: Id, o: Name, d: Id, x: Name)
    requires Inv(fs) && Moves(fs, p, n, q, o)
    ensures RenameAt(fs, p, n, q, o).Ok?
    ensures var after := RenameAt(fs, p, n, q, o).value.inodes;
            EntryAt(after, d, x) == if d == q && x == o then Some(fs.inodes[p].kind.entries[n].inode)
                                    else if d == p && x == n then None else EntryAt(fs.inodes, d, x)
  {
    RenameIsReady(fs, p, n, q, o);
    var gone := Displaced(fs, q, o);
    if o in fs.inodes[q].kind.entries { RemoveEntryEffect(fs, q, o, d, x); }
    MoveEntryEffect(gone, p, n, q, o, RenameCookie(fs, p, n, q), d, x);
  }

  /** Renaming between two names of one inode changes nothing. */
  lemma RenameToSameInode(fs: Fs, p: Id, n: Name, q: Id, o: Name)
    requires Inv(fs) && RenameError(fs, p, n, q, o).None?
    ensures RenameAt(fs, p, n, q, o) == Ok(fs) <==> EntryAt(fs.inodes, p, n) == EntryAt(fs.inodes, q, o)
  {
    if Moves(fs, p, n, q, o) { RenameAtMovesOneEntry(fs, p, n, q, o, q, o); }
  }

  // ------------------------------------------------------------------ moved subtrees

  /** Whatever directory a path from `start` reaches lies below `start`. */
  lemma {:induction false} ReachedIsBelow(m: Arena, links: LinkIndex, root: Id, start: Id, s: Path, c: seq<Id>)
    requires TreeInv(m, links, root) && Resolve(m, start, s).Ok? && IsDir(m, Resolve(m, start, s).value)
    requires Chain(m, root, Resolve(m, start, s).value, c)
    ensures start in c
    decreases |s|
  {
    if s != [] {
      var y, x := Resolve(m, start, s[..|s| - 1]).value, Resolve(m, start, s).value;
      assert HasEntry(m, y, s[|s| - 1], x);
      assert m[x].parent == Some(y) && x != root;
      assert Climbs(m, c, 0);
      ChainTail(m, root, x, c, 1);
      ReachedIsBelow(m, links, root, start, s[..|s| - 1], c[1..]);
    }
  }

  /** No path from a moving inode comes back to its old or new parent, or to what it replaces. */
  lemma NothingComesBack(fs: Fs, p: Id, n: Name, q: Id, o: Name, s: Path)
    requires Inv(fs) && Moves(fs, p, n, q, o)
    requires Resolve(fs.inodes, fs.inodes[p].kind.entries[n].inode, s).Ok?
    ensures var y := Resolve(fs.inodes, fs.inodes[p].kind.entries[n].inode, s).value;
            IsDir(fs.inodes, y) ==> y != p && y != q && EntryAt(fs.inodes, q, o) != Some(y)
  {
    var m, id := fs.inodes, fs.inodes[p].kind.entries[n].inode;
    var y := Resolve(m, id, s).value;
    if IsDir(m, y) {
      MovesIsRelocatable(fs, p, n, q, o);
      MovingIsDirectory(m, id, s);
      assert HasEntry(m, p, n, id);
      var up: seq<Id> :| Chain(m, fs.root, p, up);
      ParentIsNotBelow(m, fs.links, fs.root, p, n, id, up);
      if y == p { ReachedIsBelow(m, fs.links, fs.root, id, s, up); }
      var c: seq<Id> :| Chain(m, fs.root, q, c);
      if y == q { ReachedIsBelow(m, fs.links, fs.root, id, s, c); }
      ReplacedIsNotBelow(fs, p, n, q, o, s, c);
    }
  }

  /** Only a directory has anything below it. */
  lemma {:induction false} MovingIsDirectory(m: Arena, start: Id, s: Path)
    requires Resolve(m, start, s).Ok? && IsDir(m, Resolve(m, start, s).value)
    ensures IsDir(m, start)
    decreases |s|
  {
    if s != [] { MovingIsDirectory(m, start, s[..|s| - 1]); }
  }

  lemma ParentIsNotBelow(m: Arena, links: LinkIndex, root: Id, p: Id, n: Name, id: Id, up: seq<Id>)
    requires TreeInv(m, links, root) && HasEntry(m, p, n, id) && IsDir(m, id) && Chain(m, root, p, up)
    ensures id !in up
  {
    var c := [id] + up;
    ChildChain(m, links, root, p, n, id, up);
    forall j | 0 <= j < |up| ensures up[j] != id { ChainHasNoRepeats(m, root, id, c, 0, j + 1); }
  }

  lemma ReplacedIsNotBelow(fs: Fs, p: Id, n: Name, q: Id, o: Name, s: Path, c: seq<Id>)
    requires Inv(fs) && Moves(fs, p, n, q, o) && Chain(fs.inodes, fs.root, q, c)
    requires Resolve(fs.inodes, fs.inodes[p].kind.entries[n].inode, s).Ok?
    requires IsDir(fs.inodes, Resolve(fs.inodes, fs.inodes[p].kind.entries[n].inode, s).value)
    ensures EntryAt(fs.inodes, q, o) != Some(Resolve(fs.inodes, fs.inodes[p].kind.entries[n].inode, s).value)
  {
    var m, id := fs.inodes, fs.inodes[p].kind.entries[n].inode;
    var y := Resolve(m, id, s).value;
    MovingIsDirectory(m, id, s);
    MovesIsRelocatable(fs, p, n, q, o);
    if HasEntry(m, q, o, y) {
      ChildChain(m, fs.links, fs.root, q, o, y, c);
      ReachedIsBelow(m, fs.links, fs.root, id, s, [y] + c);
    }
  }

  lemma ChildChain(m: Arena, links: LinkIndex, root: Id, q: Id, o: Name, y: Id, c: seq<Id>)
    requires TreeInv(m, links, root) && HasEntry(m, q, o, y) && IsDir(m, y) && Chain(m, root, q, c)
    ensures Chain(m, root, y, [y] + c)
  {
    assert m[y].parent == Some(q);
    forall i ensures Climbs(m, [y] + c, i) { assert Climbs(m, c, i - 1); }
  }

  /** Every path below the moved inode still leads where it led. */
  lemma {:induction false} RenameTakesTheSubtree(fs: Fs, p: Id, n: Name, q: Id, o: Name, s: Path)
    requires Inv(fs) && Moves(fs, p, n, q, o)
    ensures RenameAt(fs, p, n, q, o).Ok?
    ensures var id := fs.inodes[p].kind.entries[n].inode;
            var before := Resolve(fs.inodes, id, s);
            before.Ok? ==> Resolve(RenameAt(fs, p, n, q, o).value.inodes, id, s) == before
    decreases |s|
  {
    RenameAtMovesOneEntry(fs, p, n, q, o, q, o);
    var id := fs.inodes[p].kind.entries[n].inode;
    if s != [] && Resolve(fs.inodes, id, s).Ok? {
      var front, x := s[..|s| - 1], s[|s| - 1];
      RenameTakesTheSubtree(fs, p, n, q, o, front);
      NothingComesBack(fs, p, n, q, o, front);
      RenameAtMovesOneEntry(fs, p, n, q, o, Resolve(fs.inodes, id, front).value, x);
    }
  }

  // --------------------------------------------------------------------------- bytes

  /** Only one file changes, at the bytes written; a gap reads as zeros. */
  lemma WriteChangesOneFile(fs: Fs, id: Id, offset: nat, data: seq<byte>, append: bool, other: Id, i: nat)
    requires WriteInode(fs, id, offset, data, append).Ok? && data != []
    ensures var after := WriteInode(fs, id, offset, data, append).value.inodes;
            && BodyAt(fs.inodes, id).Some? && BodyAt(after, id).Some?
            && (other != id ==> BodyAt(after, other) == BodyAt(fs.inodes, other))
            && var was, now := BodyAt(fs.inodes, id).value, BodyAt(after, id).value;
               var start := if append then |was| else offset;
               && |now| == (if start + |data| > |was| then start + |data| else |was|)
               && (i < |now| ==> now[i] == if start <= i < start + |data| then data[i - start]
                                             else if i < |was| then was[i] else 0)
  {
    var body := fs.inodes[id].kind.body;
    PatchedAt(body, if append then |body| else offset, data, i);
  }

  lemma PatchedAt(body: seq<byte>, start: nat, data: seq<byte>, i: nat)
    ensures var r := Patched(body, start, data);
            i < |r| ==>
              r[i] == if start <= i < start + |data| then data[i - start] else if i < |body| then body[i] else 0
  {
    var r := Patched(body, start, data);
    if start <= i < start + |data| { assert r[start..start + |data|][i - start] == r[i]; }
  }

  /** A resize keeps the common prefix and fills with zeros. */
  lemma ResizeChangesOneFile(fs: Fs, id: Id, size: nat, other: Id, i: nat)
    requires Truncate(fs, id, size).Ok?
    ensures var after := Truncate(fs, id, size).value.inodes;
            && BodyAt(fs.inodes, id).Some? && BodyAt(after, id).Some?
            && (other != id ==> BodyAt(after, other) == BodyAt(fs.inodes, other))
            && var was, now := BodyAt(fs.inodes, id).value, BodyAt(after, id).value;
               |now| == size && (i < size ==> now[i] == if i < |was| then was[i] else 0)
  {
  }
}
