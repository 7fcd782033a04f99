/**
 The Filesystem object of src/ninep.rs.  Its methods update the arena, the reverse
 index and the counters in place; each is proved to take the object from one value
 of `Namespace.Fs` to the one the operation's function gives.
 */
module FilesystemObject {
  import opened Wrappers
  import opened Namespace
  import opened NamespaceInvariant
  import opened NamespaceWalks
  import ByteLocks

  /** The object moved as `spec` says: an error is reported and nothing changed, or the new value is in place. */
  ghost predicate Settled(before: Fs, spec: Outcome<Fs>, after: Fs, r: Outcome<()>) {
    match spec
    case Err(e) => r == Err(e) && after == before
    case Ok(f) => r.Ok? && after == f
  }

  ghost predicate SettledWith<T>(before: Fs, spec: Outcome<(Fs, T)>, after: Fs, r: Outcome<T>) {
    match spec
    case Err(e) => r == Err(e) && after == before
    case Ok((f, t)) => r == Ok(t) && after == f
  }

  /** The enumeration of a directory's reverse links onto the walk's stack. */
  method PushParents(links: set<(Id, Name)>, suffix: Path) returns (pushed: seq<Climb>)
    ensures Pushed(links, suffix, pushed)
  {
    pushed := [];
    var rest := links;
    while rest != {}
      invariant rest <= links && Pushed(links - rest, suffix, pushed)
      decreases rest
    {
      var l: (Id, Name) :| l in rest;
      var item := Above(l, suffix);
      assert item !in pushed by {
        forall i | 0 <= i < |pushed| ensures pushed[i] != item {
          assert pushed[i] in pushed;
          var o: (Id, Name) :| o in links - rest && pushed[i] == Above(o, suffix);
          AboveIsInjective(o, l, suffix);
        }
      }
      PushedGrows(links - rest, suffix, pushed, l);
      pushed := pushed + [item];
      rest := rest - {l};
      assert links - rest == (links - (rest + {l})) + {l};
    }
    assert links - rest == links;
  }

  lemma AboveIsInjective(a: (Id, Name), b: (Id, Name), suffix: Path)
    ensures Above(a, suffix) == Above(b, suffix) ==> a == b
  {
    assert Above(a, suffix).suffix[0] == a.1 && Above(b, suffix).suffix[0] == b.1;
  }

  lemma PushedGrows(links: set<(Id, Name)>, suffix: Path, pushed: seq<Climb>, l: (Id, Name))
    requires Pushed(links, suffix, pushed) && Above(l, suffix) !in pushed
    ensures Pushed(links + {l}, suffix, pushed + [Above(l, suffix)])
  {
    var more := pushed + [Above(l, suffix)];
    forall i | 0 <= i < |more| ensures exists o :: o in links + {l} && more[i] == Above(o, suffix) {
      if i < |pushed| {
        assert pushed[i] in pushed;
        var o: (Id, Name) :| o in links && pushed[i] == Above(o, suffix);
        assert o in links + {l};
      }
    }
  }

  /** Insertion sort by path text; the result lists the same paths. */
  method SortPaths(ps: seq<Path>) returns (sorted: seq<Path>)
    ensures SortedPaths(sorted) && multiset(sorted) == multiset(ps)
  {
    sorted := [];
    for i := 0 to |ps|
      invariant SortedPaths(sorted) && multiset(sorted) == multiset(ps[..i])
    {
      sorted := InsertPath(sorted, ps[i]);
      assert ps[..i + 1] == ps[..i] + [ps[i]];
    }
    assert ps[..|ps|] == ps;
  }

  method InsertPath(sorted: seq<Path>, p: Path) returns (r: seq<Path>)
    requires SortedPaths(sorted)
    ensures SortedPaths(r) && multiset(r) == multiset(sorted + [p])
  {
    var k := 0;
    while k < |sorted| && PathLe(sorted[k], p)
      invariant 0 <= k <= |sorted|
      invariant forall i :: 0 <= i < k ==> PathLe(sorted[i], p)
    {
      k := k + 1;
    }
    InsertedIsSorted(sorted, p, k);
    r := sorted[..k] + [p] + sorted[k..];
    assert sorted == sorted[..k] + sorted[k..];
  }

  lemma InsertedIsSorted(sorted: seq<Path>, p: Path, k: nat)
    requires SortedPaths(sorted) && k <= |sorted| && forall i :: 0 <= i < k ==> PathLe(sorted[i], p)
    requires k < |sorted| ==> !PathLe(sorted[k], p)
    ensures SortedPaths(sorted[..k] + [p] + sorted[k..])
  {
    forall j | k <= j < |sorted| ensures PathLe(p, sorted[j]) {
      TextLeTotal(Joined(p), Joined(sorted[k]));
      if j > k { TextLeTransitive(Joined(p), Joined(sorted[k]), Joined(sorted[j])); }
    }
    var r := sorted[..k] + [p] + sorted[k..];
    forall i, j | 0 <= i < j < |r| ensures PathLe(r[i], r[j]) {
      assert i < k ==> r[i] == sorted[i];
      assert k < j ==> r[j] == sorted[j - 1];
      assert k < i ==> r[i] == sorted[i - 1];
    }
  }

  class Filesystem {
    var inodes: Arena
    var links: LinkIndex
    var root: Id
    var nextInode: nat
    var generation: nat
    const limits: Limits
    var logicalBytes: nat
    var directoryEntries: nat
    var locks: seq<ByteLocks.Lock>
    var nextSession: nat
    var recordChanges: bool

    ghost function State(): Fs
      reads this
    {
      Fs(inodes, links, root, nextInode, generation, limits, logicalBytes, directoryEntries, locks, nextSession)
    }

    constructor (limits: Limits)
      ensures State() == NewFs(limits) && Inv(State())
    {
      this.limits := limits;
      inodes := map[1 := NewRoot()];
      links := map[];
      root, nextInode, generation := 1, 2, 1;
      logicalBytes, directoryEntries, locks, nextSession := 0, 0, [], 1;
      recordChanges := true;
      new;
      NewFsIsInv(limits);
    }

    method AllocateSession() returns (r: Outcome<nat>)
      modifies this`nextSession
      ensures if old(nextSession) + 1 > U64_MAX then r == Err(NoSpace) && State() == old(State())
              else r == Ok(old(nextSession)) && State() == old(State()).(nextSession := old(nextSession) + 1)
    {
      if nextSession + 1 > U64_MAX { return Err(NoSpace); }
      r := Ok(nextSession);
      nextSession := nextSession + 1;
    }

    // ------------------------------------------------------------------ queries

    method FindPath(path: Path) returns (r: Outcome<Id>)
      ensures r == Lookup(State(), path)
    {
      var e := PathError(path);
      if e.Some? { return Err(e.value); }
      var current := root;
      for i := 0 to |path|
        invariant Resolve(inodes, root, path[..i]) == Ok(current)
      {
        assert path[..i + 1][..i] == path[..i];
        var c := Child(inodes, current, path[i]);
        if c.Err? {
          ErrorStays(inodes, root, path, i + 1);
          return c;
        }
        current := c.value;
      }
      assert path[..|path|] == path;
      return Ok(current);
    }

    /** Every current path of an inode, through all its hard links, in text order. */
    method PathsOf(target: Id) returns (paths: seq<Path>)
      requires Inv(State())
      ensures forall p :: p in paths <==> Lookup(State(), p) == Ok(target)
      ensures SortedPaths(paths)
      ensures forall i, j :: 0 <= i < j < |paths| ==> paths[i] != paths[j]
    {
      if target == root {
        forall p ensures Lookup(State(), p) == Ok(target) <==> p == [] { RootHasOnePath(inodes, links, root, p); }
        return [[]];
      }
      var found := ClimbToRoot(target);
      paths := SortPaths(seq(|found|, i requires 0 <= i < |found| => found[i].suffix));
      FoundPaths(State(), target, found, paths);
    }

    /** The loop of paths_of: a stack of partial paths, each climbed through every link of its top. */
    method ClimbToRoot(target: Id) returns (found: seq<Climb>)
      requires Inv(State()) && target != root
      ensures Partition(inodes, root, target, found) && forall i :: 0 <= i < |found| ==> found[i].id == root
    {
      found := [];
      var ancestors := [Climb(target, [])];
      ghost var first := true;
      StartPartition(inodes, root, target);
      assert ancestors + found == ancestors;
      while ancestors != []
        invariant Partition(inodes, root, target, ancestors + found)
        invariant forall i :: 0 <= i < |found| ==> found[i].id == root
        invariant if first then |ancestors| == 1 else forall c :: c in ancestors ==> IsDir(inodes, c.id)
        decreases first, TotalDepth(inodes, root, ancestors), |ancestors|
      {
        var c := ancestors[|ancestors| - 1];
        assert ancestors == ancestors[..|ancestors| - 1] + [c] && c in ancestors;
        ancestors := ancestors[..|ancestors| - 1];
        if c.id == root {
          assert ancestors + [c] + found == ancestors + ([c] + found);
          found := [c] + found;
        } else {
          var row := LinksOf(links, c.id);
          var pushed := PushParents(row, c.suffix);
          StepPartition(inodes, links, root, target, ancestors, c, pushed, found);
          PushedAreDirectories(inodes, links, c, pushed);
          if !first { ClimbShrinks(inodes, links, root, c, pushed); }
          TotalDepthConcat(inodes, root, ancestors, pushed);
          ancestors := ancestors + pushed;
        }
        first := false;
      }
      assert ancestors + found == found;
    }

    /** entry_path: the checks every name-taking operation starts with. */
    method EntryPath(parent: Id, name: Name) returns (r: Outcome<Path>)
      requires Inv(State())
      ensures EntryError(inodes, parent, name) == (if r.Err? then Some(r.error) else None)
      ensures r.Ok? && recordChanges ==> r.value != [] && r.value[|r.value| - 1] == name
                                         && Lookup(State(), r.value[..|r.value| - 1]) == Ok(parent)
    {
      var e := NameError(name);
      if e.Some? { return Err(e.value); }
      if parent !in inodes { return Err(NotFound); }
      if !inodes[parent].kind.Directory? { return Err(NotDirectory); }
      if inodes[parent].linkCount == 0 { return Err(NotFound); }
      if !recordChanges { return Ok([]); }
      var prefixes := PathsOf(parent);
      LinkedHasPath(State(), parent);
      if prefixes == [] { return Err(NotFound); }
      assert prefixes[0] in prefixes;
      var path := prefixes[0] + [name];
      assert path[..|path| - 1] == prefixes[0];
      return Ok(path);
    }

    // ---------------------------------------------------------------- mutations

    method RetainFid(id: Id) returns (r: Outcome<()>)
      modifies this`inodes
      ensures Settled(old(State()), Namespace.RetainFid(old(State()), id), State(), r)
    {
      if id !in inodes { return Err(NotFound); }
      var inode := inodes[id];
      if inode.fidRefs + 1 > U32_MAX { return Err(NoSpace); }
      inodes := inodes[id := inode.(fidRefs := inode.fidRefs + 1)];
      return Ok(());
    }

    method ReleaseFid(id: Id) returns (r: Outcome<()>)
      modifies this`inodes, this`links, this`logicalBytes, this`locks
      ensures Settled(old(State()), Namespace.ReleaseFid(old(State()), id), State(), r)
    {
      if id !in inodes { return Err(NotFound); }
      if inodes[id].fidRefs == 0 { return Err(InvalidPath); }
      DropReference(id);
      return Ok(());
    }

    method DropReference(id: Id)
      requires id in inodes && inodes[id].fidRefs > 0
      modifies this`inodes, this`links, this`logicalBytes, this`locks
      ensures State() == Unreferenced(old(State()), id)
    {
      inodes := inodes[id := inodes[id].(fidRefs := inodes[id].fidRefs - 1)];
      if inodes[id].fidRefs == 0 && inodes[id].linkCount == 0 {
        var oldSize := FileBytes(inodes[id]);
        inodes := inodes - {id};
        links := links - {id};
        logicalBytes := Minus(logicalBytes, oldSize);
        locks := ByteLocks.WithoutInode(locks, id);
      }
    }

    method TryLock(requested: ByteLocks.Lock) returns (r: Outcome<bool>)
      modifies this`locks
      ensures SettledWith(old(State()), Namespace.TryLock(old(State()), requested), State(), r)
    {
      var e := FileError(inodes, requested.inode);
      if e.Some? { return Err(e.value); }
      var conflict := ByteLocks.FindConflict(locks, requested);
      if conflict.Some? { return Ok(false); }
      var retained := ByteLocks.SubtractOwnedRange(locks, requested);
      locks := retained + [requested];
      return Ok(true);
    }

    method Unlock(cut: ByteLocks.Lock) returns (r: Outcome<()>)
      modifies this`locks
      ensures Settled(old(State()), Namespace.Unlock(old(State()), cut), State(), r)
    {
      var e := FileError(inodes, cut.inode);
      if e.Some? { return Err(e.value); }
      locks := ByteLocks.SubtractOwnedRange(locks, cut);
      return Ok(());
    }

    method ReleaseSessionLocks(session: nat)
      modifies this`locks
      ensures State() == Namespace.ReleaseSessionLocks(old(State()), session)
    {
      locks := ByteLocks.WithoutSession(locks, session);
    }

    method Insert(parent: Id, name: Name, kind: Kind) returns (r: Outcome<Id>)
      modifies this`inodes, this`links, this`nextInode, this`directoryEntries
      ensures SettledWith(old(State()), Namespace.Insert(old(State()), parent, name, kind), State(), r)
    {
      var atCapacity := |inodes| >= limits.maxInodes || directoryEntries >= limits.maxDirectoryEntries;
      if parent !in inodes { return Err(NotFound); }
      var directory := inodes[parent];
      if !directory.kind.Directory? { return Err(NotDirectory); }
      if name in directory.kind.entries { return Err(AlreadyExists); }
      if atCapacity { return Err(NoSpace); }
      var id, cookie := nextInode, directory.kind.nextCookie;
      if nextInode + 1 > U64_MAX || cookie + 1 > U64_MAX { return Err(NoSpace); }
      inodes := inodes[parent := WithEntry(directory, name, Entry(id, cookie), cookie + 1)];
      nextInode := nextInode + 1;
      directoryEntries := directoryEntries + 1;
      inodes := inodes[id := Inode(kind, if kind.Directory? then Some(parent) else None, 1, 0)];
      links := links[id := LinksOf(links, id) + {(parent, name)}];
      return Ok(id);
    }

    method CreateAt(parent: Id, name: Name, kind: Kind) returns (r: Outcome<Id>)
      requires Inv(State()) && FreshKind(kind) && (kind.File? ==> kind.body == [])
      modifies this`inodes, this`links, this`nextInode, this`directoryEntries
      ensures SettledWith(old(State()), Namespace.CreateAt(old(State()), parent, name, kind), State(), r)
      ensures Inv(State())
    {
      var path := EntryPath(parent, name);
      if path.Err? { return Err(path.error); }
      ghost var before := State();
      r := Insert(parent, name, kind);
      if r.Ok? { InsertKeepsInv(before, parent, name, kind); }
    }

    method RemoveAt(parent: Id, name: Name) returns (r: Outcome<()>)
      requires Inv(State())
      modifies this`inodes, this`links, this`directoryEntries, this`logicalBytes, this`locks
      ensures Settled(old(State()), Namespace.RemoveAt(old(State()), parent, name), State(), r)
      ensures Inv(State())
    {
      var path := EntryPath(parent, name);
      if path.Err? { return Err(path.error); }
      if name !in inodes[parent].kind.entries { return Err(NotFound); }
      var id := inodes[parent].kind.entries[name].inode;
      if id !in inodes { return Err(NotFound); }
      if inodes[id].kind.Directory? && inodes[id].kind.entries != map[] { return Err(NotEmpty); }
      EntryIsRemovable(State(), parent, name);
      RemoveEntryKeepsInv(State(), parent, name);
      TakeEntry(parent, name, id);
      return Ok(());
    }

    /** The changes of remove_at, after its checks. */
    method TakeEntry(parent: Id, name: Name, id: Id)
      requires Removable(State(), parent, name) && id == inodes[parent].kind.entries[name].inode
      modifies this`inodes, this`links, this`directoryEntries, this`logicalBytes, this`locks
      ensures State() == RemoveEntry(old(State()), parent, name)
    {
      var oldSize := FileBytes(inodes[id]);
      inodes := inodes[parent := WithoutEntry(inodes[parent], name)];
      links := DropLink(links, id, (parent, name));
      directoryEntries := directoryEntries - 1;
      inodes := inodes[id := Unlinked(inodes[id])];
      if inodes[id].linkCount == 0 && inodes[id].fidRefs == 0 {
        inodes := inodes - {id};
        logicalBytes := logicalBytes - oldSize;
        locks := ByteLocks.WithoutInode(locks, id);
      }
    }

    method LinkAt(parent: Id, name: Name, id: Id) returns (r: Outcome<()>)
      requires Inv(State())
      modifies this`inodes, this`links, this`directoryEntries
      ensures Settled(old(State()), Namespace.LinkAt(old(State()), parent, name, id), State(), r)
      ensures Inv(State())
    {
      var path := EntryPath(parent, name);
      if path.Err? { return Err(path.error); }
      if id !in inodes { return Err(NotFound); }
      if inodes[id].kind.Directory? { return Err(IsDirectory); }
      if inodes[id].linkCount + 1 > U32_MAX { return Err(NoSpace); }
      var directory := inodes[parent];
      if name in directory.kind.entries { return Err(AlreadyExists); }
      if directoryEntries >= limits.maxDirectoryEntries { return Err(NoSpace); }
      var cookie := directory.kind.nextCookie;
      if cookie + 1 > U64_MAX { return Err(NoSpace); }
      LinkAtKeepsInv(State(), parent, name, id);
      AddLink(parent, name, id);
      return Ok(());
    }

    /** The changes of link_at, after its checks. */
    method AddLink(parent: Id, name: Name, id: Id)
      requires Namespace.LinkAt(State(), parent, name, id).Ok?
      modifies this`inodes, this`links, this`directoryEntries
      ensures Namespace.LinkAt(old(State()), parent, name, id) == Ok(State())
    {
      var directory := inodes[parent];
      var cookie := directory.kind.nextCookie;
      inodes := inodes[parent := WithEntry(directory, name, Entry(id, cookie), cookie + 1)];
      directoryEntries := directoryEntries + 1;
      inodes := inodes[id := inodes[id].(linkCount := inodes[id].linkCount + 1)];
      links := links[id := LinksOf(links, id) + {(parent, name)}];
    }

    /** The ancestor walk of rename_at. */
    method IsAncestor(id: Id, directory: Id) returns (found: bool)
      requires Inv(State()) && IsDir(inodes, directory) && inodes[directory].linkCount != 0
      ensures found == OnChain(inodes, root, directory, id)
    {
      ghost var s :| Chain(inodes, root, directory, s);
      ghost var i := 0;
      var ancestor := Some(directory);
      while ancestor.Some?
        invariant if ancestor.Some? then i < |s| && ancestor.value == s[i] else i == |s|
        invariant id !in s[..i]
        decreases |s| - i
      {
        if ancestor.value == id { return true; }
        assert s[..i + 1] == s[..i] + [s[i]];
        assert Climbs(inodes, s, i);
        ChainInArena(State(), directory, s, i);
        ancestor := if ancestor.value in inodes then inodes[ancestor.value].parent else None;
        i := i + 1;
      }
      assert s[..i] == s;
      forall t | Chain(inodes, root, directory, t) ensures id !in t { ChainUnique(inodes, root, directory, s, t); }
      return false;
    }

    method RenameAt(oldParent: Id, oldName: Name, newParent: Id, newName: Name) returns (r: Outcome<()>)
      requires Inv(State())
      modifies this`inodes, this`links, this`directoryEntries, this`logicalBytes, this`locks
      ensures Settled(old(State()), Namespace.RenameAt(old(State()), oldParent, oldName, newParent, newName),
                      State(), r)
      ensures Inv(State())
    {
      var oldPath := EntryPath(oldParent, oldName);
      if oldPath.Err? { return Err(oldPath.error); }
      var newPath := EntryPath(newParent, newName);
      if newPath.Err? { return Err(newPath.error); }
      if oldName !in inodes[oldParent].kind.entries { return Err(NotFound); }
      var oldEntry := inodes[oldParent].kind.entries[oldName];
      if oldEntry.inode !in inodes { return Err(NotFound); }
      if inodes[oldEntry.inode].kind.Directory? {
        var cycle := IsAncestor(oldEntry.inode, newParent);
        if cycle { return Err(InvalidPath); }
      }
      var entries := inodes[newParent].kind.entries;
      if newName in entries {
        var replaced := entries[newName].inode;
        if replaced == oldEntry.inode { return Ok(()); }
        if replaced !in inodes { return Err(NotFound); }
        var e := ReplaceError(inodes[oldEntry.inode].kind, inodes[replaced].kind);
        if e.Some? { return Err(e.value); }
      }
      var cookie := if oldParent == newParent then oldEntry.cookie else inodes[newParent].kind.nextCookie;
      if oldParent != newParent && inodes[newParent].kind.nextCookie + 1 > U64_MAX { return Err(NoSpace); }
      r := CommitRename(oldParent, oldName, newParent, newName, oldEntry.inode, cookie);
    }

    /** The second half of rename_at: no check can fail any more. */
    method CommitRename(p: Id, n: Name, q: Id, o: Name, id: Id, cookie: nat) returns (r: Outcome<()>)
      requires Inv(State()) && Moves(State(), p, n, q, o)
      requires id == inodes[p].kind.entries[n].inode && cookie == RenameCookie(State(), p, n, q)
      modifies this`inodes, this`links, this`directoryEntries, this`logicalBytes, this`locks
      ensures r.Ok? && Namespace.RenameAt(old(State()), p, n, q, o) == Ok(State())
      ensures Inv(State())
    {
      RenameIsReady(State(), p, n, q, o);
      RenameAtKeepsInv(State(), p, n, q, o);
      MovesIsRelocatable(State(), p, n, q, o);
      DisplacedFacts(State(), p, n, q, o, id);
      ghost var fs := State();
      if o in inodes[q].kind.entries {
        ReplacedIsRemoved(fs, p, n, q, o, id);
        var cleared := RemoveAt(q, o);
      }
      assert State() == Displaced(fs, q, o);
      Relocate(p, n, q, o, id, cookie);
      return Ok(());
    }

    /** The entry changes of rename_at. */
    method Relocate(p: Id, n: Name, q: Id, o: Name, id: Id, cookie: nat)
      requires IsDir(inodes, q) && HasEntry(inodes, p, n, id) && id in inodes && id !in {p, q}
      modifies this`inodes, this`links
      ensures State() == MoveEntry(old(State()), p, n, q, o, cookie)
    {
      inodes := inodes[p := WithoutEntry(inodes[p], n)];
      if id in links { links := links[id := links[id] - {(p, n)} + {(q, o)}]; }
      var next := if p == q then inodes[q].kind.nextCookie else inodes[q].kind.nextCookie + 1;
      inodes := inodes[q := WithEntry(inodes[q], o, Entry(id, cookie), next)];
      inodes := inodes[id := if inodes[id].kind.Directory? then inodes[id].(parent := Some(q)) else inodes[id]];
    }

    method WriteFile(path: Path, bytes: seq<byte>) returns (r: Outcome<Id>)
      requires Inv(State())
      modifies this`inodes, this`links, this`nextInode, this`directoryEntries, this`logicalBytes
      ensures SettledWith(old(State()), Namespace.WriteFile(old(State()), path, bytes), State(), r)
      ensures Inv(State())
    {
      if |bytes| > limits.maxFileBytes { return Err(FileTooLarge); }
      var e := PathError(path);
      if e.Some? { return Err(e.value); }
      if path == [] { return Err(InvalidPath); }
      var name := path[|path| - 1];
      var up := FindPath(path[..|path| - 1]);
      if up.Err? { return Err(up.error); }
      var parent := up.value;
      if parent !in inodes { return Err(NotFound); }
      if !inodes[parent].kind.Directory? { return Err(NotDirectory); }
      if name in inodes[parent].kind.entries {
        var id := inodes[parent].kind.entries[name].inode;
        if id !in inodes { return Err(NotFound); }
        if !inodes[id].kind.File? { return Err(IsDirectory); }
        FileFitsTotal(State(), id);
        var newTotal := logicalBytes - |inodes[id].kind.body| + |bytes|;
        if newTotal > limits.maxTreeBytes { return Err(NoSpace); }
        SetBodyKeepsInv(State(), id, bytes);
        inodes := inodes[id := inodes[id].(kind := File(bytes))];
        logicalBytes := newTotal;
        return Ok(id);
      }
      var newTotal := logicalBytes + |bytes|;
      if newTotal > limits.maxTreeBytes { return Err(NoSpace); }
      ghost var before := State();
      r := Insert(parent, name, File(bytes));
      if r.Err? { return; }
      logicalBytes := newTotal;
      WriteFileKeepsInv(before, path, bytes);
    }

    method ValidateResize(id: Id, size: nat) returns (r: Outcome<()>)
      requires Inv(State())
      ensures ResizeError(State(), id, size) == (if r.Err? then Some(r.error) else None)
    {
      if id !in inodes { return Err(NotFound); }
      if !inodes[id].kind.File? { return Err(IsDirectory); }
      if size > limits.maxFileBytes { return Err(FileTooLarge); }
      FileFitsTotal(State(), id);
      if logicalBytes - |inodes[id].kind.body| + size > limits.maxTreeBytes { return Err(NoSpace); }
      return Ok(());
    }

    method WriteInode(id: Id, offset: nat, data: seq<byte>, append: bool) returns (r: Outcome<()>)
      requires Inv(State())
      modifies this`inodes, this`logicalBytes
      ensures Settled(old(State()), Namespace.WriteInode(old(State()), id, offset, data, append), State(), r)
      ensures Inv(State())
    {
      if id !in inodes { return Err(NotFound); }
      if !inodes[id].kind.File? { return Err(IsDirectory); }
      if data == [] { return Ok(()); }
      var body := inodes[id].kind.body;
      var start := if append then |body| else offset;
      if start + |data| > U64_MAX { return Err(FileTooLarge); }
      var size := if start + |data| > |body| then start + |data| else |body|;
      var valid := ValidateResize(id, size);
      if valid.Err? { return valid; }
      WriteInodeKeepsInv(State(), id, offset, data, append);
      FileFitsTotal(State(), id);
      StoreAt(id, start, data, size);
      return Ok(());
    }

    method StoreAt(id: Id, start: nat, data: seq<byte>, size: nat)
      requires id in inodes && inodes[id].kind.File? && FileBytes(inodes[id]) <= logicalBytes
      requires size == |Patched(inodes[id].kind.body, start, data)|
      modifies this`inodes, this`logicalBytes
      ensures State() == SetBody(old(State()), id, Patched(old(inodes)[id].kind.body, start, data))
    {
      var body := inodes[id].kind.body;
      var bytes := Resized(body, size);
      bytes := bytes[..start] + data + bytes[start + |data|..];
      inodes := inodes[id := inodes[id].(kind := File(bytes))];
      logicalBytes := logicalBytes - |body| + size;
    }

    /** The size part of update_attributes. */
    method SetSize(id: Id, size: nat) returns (r: Outcome<()>)
      requires Inv(State())
      modifies this`inodes, this`logicalBytes
      ensures Settled(old(State()), Truncate(old(State()), id, size), State(), r)
      ensures Inv(State())
    {
      var valid := ValidateResize(id, size);
      if valid.Err? { return valid; }
      TruncateKeepsInv(State(), id, size);
      FileFitsTotal(State(), id);
      var body := inodes[id].kind.body;
      inodes := inodes[id := inodes[id].(kind := File(Resized(body, size)))];
      logicalBytes := logicalBytes - |body| + size;
      return Ok(());
    }

    method Reset() returns (r: Outcome<()>)
      requires Inv(State())
      modifies this
      ensures Settled(old(State()), Namespace.Reset(old(State())), State(), r)
      ensures Inv(State()) && recordChanges == old(recordChanges)
    {
      if generation + 1 > U64_MAX { return Err(NoSpace); }
      if nextInode + 1 > U64_MAX { return Err(NoSpace); }
      ResetKeepsInv(State());
      root := nextInode;
      inodes := map[root := NewRoot()];
      links, locks := map[], [];
      nextInode := nextInode + 1;
      generation := generation + 1;
      logicalBytes, directoryEntries := 0, 0;
      return Ok(());
    }

    // -------------------------------------------------------------------- clear

    method ScanDirectory(d: Id) returns (pairs: seq<(Id, Name)>, subs: seq<Id>)
      requires TreeInv(inodes, links, root) && IsDir(inodes, d)
      ensures Scanned(inodes, d, pairs, subs)
    {
      ChildrenAreDistinct(inodes, links, root, d);
      pairs, subs := ScanEntries(inodes, d);
    }

    /** Lists every entry of the tree, each before the entries of its own directory. */
    method GatherRemovals() returns (removals: seq<(Id, Name)>, ghost visited: set<Id>)
      requires Inv(State())
      ensures Listing(inodes, visited, removals) && Frontier(inodes, root, visited, [], removals)
    {
      var directories := [root];
      removals, visited := [], {};
      assert Frontier(inodes, root, visited, directories, removals);
      while directories != []
        invariant visited <= inodes.Keys
        invariant Listing(inodes, visited, removals) && Frontier(inodes, root, visited, directories, removals)
        decreases inodes.Keys - visited
      {
        var d := directories[|directories| - 1];
        ghost var stack := directories;
        directories := directories[..|directories| - 1];
        assert stack == directories + [d] && d in stack;
        var pairs, subs := ScanDirectory(d);
        VisitKeepsListing(inodes, links, root, visited, directories, d, removals, pairs, subs);
        VisitKeepsFrontier(inodes, links, root, visited, directories, d, removals, pairs, subs);
        directories := directories + subs;
        removals := removals + pairs;
        visited := visited + {d};
      }
    }

    /** Unlinks everything below the root; the walk and every removal succeed. */
    method Clear() returns (r: Outcome<()>)
      requires Inv(State())
      modifies this`inodes, this`links, this`directoryEntries, this`logicalBytes, this`locks
      ensures r.Ok? && Cleared(old(State()), State()) && Inv(State())
    {
      ghost var fs := State();
      var removals, visited := GatherRemovals();
      ListingIsComplete(fs, visited, removals);
      PrunedReflexive(fs);
      var k := |removals|;
      while k > 0
        invariant 0 <= k <= |removals| && Inv(State()) && Pruned(fs, State()) && Holding(State(), removals, k)
      {
        ghost var f := State();
        var (p, n) := removals[k - 1];
        RemovalStep(fs, visited, removals, f, k);
        var step := RemoveAt(p, n);
        if step.Err? { return step; }
        k := k - 1;
      }
      NothingHeldIsCleared(fs, removals, State());
      return Ok(());
    }
  }

  // ------------------------------------------------------------- proof steps

  lemma {:induction false} ErrorStays(m: Arena, root: Id, path: Path, i: nat)
    requires i <= |path| && Resolve(m, root, path[..i]).Err?
    ensures Resolve(m, root, path) == Resolve(m, root, path[..i])
    decreases |path|
  {
    if i == |path| {
      assert path[..i] == path;
    } else {
      assert path[..|path| - 1][..i] == path[..i];
      ErrorStays(m, root, path[..|path| - 1], i);
    }
  }

  lemma PushedAreDirectories(m: Arena, links: LinkIndex, c: Climb, pushed: seq<Climb>)
    requires LinksAgree(m, links) && Pushed(LinksOf(links, c.id), c.suffix, pushed)
    ensures forall x :: x in pushed ==> IsDir(m, x.id)
  {
    forall i | 0 <= i < |pushed| ensures IsDir(m, pushed[i].id) {
      assert pushed[i] in pushed;
      var l: (Id, Name) :| l in LinksOf(links, c.id) && pushed[i] == Above(l, c.suffix);
      assert HasEntry(m, l.0, l.1, c.id);
    }
  }

  lemma FoundPaths(fs: Fs, target: Id, found: seq<Climb>, paths: seq<Path>)
    requires Inv(fs) && Partition(fs.inodes, fs.root, target, found)
    requires forall i :: 0 <= i < |found| ==> found[i].id == fs.root
    requires multiset(paths) == multiset(seq(|found|, i requires 0 <= i < |found| => found[i].suffix))
    ensures forall p :: p in paths <==> Lookup(fs, p) == Ok(target)
    ensures forall i, j :: 0 <= i < j < |paths| ==> paths[i] != paths[j]
  {
    var raw := seq(|found|, i requires 0 <= i < |found| => found[i].suffix);
    forall p ensures p in paths <==> Lookup(fs, p) == Ok(target) {
      FinishedPaths(fs.inodes, fs.links, fs.root, target, found, p);
      assert p in paths <==> p in multiset(paths);
      assert p in raw <==> p in multiset(raw);
      if Climb(fs.root, p) in found {
        var i :| 0 <= i < |found| && found[i] == Climb(fs.root, p);
        assert raw[i] == p;
      }
      if Resolve(fs.inodes, fs.root, p).Ok? { ResolvedPathIsValid(fs.inodes, fs.root, p); }
    }
    FinishedPaths(fs.inodes, fs.links, fs.root, target, found, []);
    DistinctIsMultisetSimple(raw);
    SimpleIsDistinct(paths);
  }

  lemma {:induction false} DistinctIsMultisetSimple<T>(s: seq<T>)
    requires forall i, j :: 0 <= i < j < |s| ==> s[i] != s[j]
    ensures forall x :: multiset(s)[x] <= 1
  {
    if s != [] {
      var t := s[..|s| - 1];
      DistinctIsMultisetSimple(t);
      assert s == t + [s[|s| - 1]];
      assert s[|s| - 1] !in t;
    }
  }

  lemma SimpleIsDistinct<T>(s: seq<T>)
    requires forall x :: multiset(s)[x] <= 1
    ensures forall i, j :: 0 <= i < j < |s| ==> s[i] != s[j]
  {
    forall i, j | 0 <= i < j < |s| ensures s[i] != s[j] {
      assert s == s[..j] + [s[j]] + s[j + 1..];
      assert multiset(s)[s[j]] <= 1;
      assert s[j] !in multiset(s[..j]);
      assert s[..j][i] == s[i];
    }
  }

  /** A linked directory is named by at least one path. */
  lemma LinkedHasPath(fs: Fs, d: Id)
    requires Inv(fs) && IsDir(fs.inodes, d) && fs.inodes[d].linkCount != 0
    ensures exists p :: Lookup(fs, p) == Ok(d)
  {
    var s :| Chain(fs.inodes, fs.root, d, s);
    var p := ChainPath(fs.inodes, fs.links, fs.root, d, s);
    ResolvedPathIsValid(fs.inodes, fs.root, p);
    assert Lookup(fs, p) == Ok(d);
  }

  lemma {:induction false} ChainPath(m: Arena, links: LinkIndex, root: Id, d: Id, s: seq<Id>) returns (p: Path)
    requires TreeInv(m, links, root) && Chain(m, root, d, s) && IsDir(m, d) && m[d].linkCount != 0
    ensures Resolve(m, root, p) == Ok(d)
    decreases |s|
  {
    if d == root { return []; }
    assert Climbs(m, s, 0);
    var n := ParentHolds(m, links, root, d);
    ChainTail(m, root, d, s, 1);
    var q := ChainPath(m, links, root, s[1], s[1..]);
    p := q + [n];
    assert p[..|p| - 1] == q;
  }

  lemma ChainInArena(fs: Fs, d: Id, s: seq<Id>, i: nat)
    requires Inv(fs) && Chain(fs.inodes, fs.root, d, s) && i < |s|
    ensures s[i] in fs.inodes
    ensures i == |s| - 1 ==> fs.inodes[s[i]].parent == None
  {
    assert Climbs(fs.inodes, s, i);
  }

  /** The scan of directory d after the names in `seen`. */
  ghost predicate PartlyScanned(m: Arena, d: Id, seen: set<Name>, pairs: seq<(Id, Name)>, subs: seq<Id>) {
    && IsDir(m, d) && seen <= m[d].kind.entries.Keys
    && (forall i, j :: 0 <= i < j < |pairs| ==> pairs[i] != pairs[j])
    && (forall p: Id, n: Name :: (p, n) in pairs <==> p == d && n in seen)
    && (forall i, j :: 0 <= i < j < |subs| ==> subs[i] != subs[j])
    && (forall x :: x in subs <==> IsDir(m, x) && exists n :: n in seen && HasEntry(m, d, n, x))
  }

  /** Entries resolve, and no subdirectory is entered twice. */
  ghost predicate DistinctChildren(m: Arena, d: Id) {
    && IsDir(m, d) && (forall n :: n in m[d].kind.entries ==> m[d].kind.entries[n].inode in m)
    && forall n: Name, o: Name, x: Id :: HasEntry(m, d, n, x) && HasEntry(m, d, o, x) && IsDir(m, x) ==> n == o
  }

  lemma ChildrenAreDistinct(m: Arena, links: LinkIndex, root: Id, d: Id)
    requires TreeInv(m, links, root) && IsDir(m, d)
    ensures DistinctChildren(m, d)
  {
    forall n | n in m[d].kind.entries ensures m[d].kind.entries[n].inode in m {
      assert HasEntry(m, d, n, m[d].kind.entries[n].inode);
    }
    forall n: Name, o: Name, x: Id | HasEntry(m, d, n, x) && HasEntry(m, d, o, x) && IsDir(m, x) ensures n == o {
      OnlyEntry(m, links, root, d, n, x);
    }
  }

  method ScanEntries(m: Arena, d: Id) returns (pairs: seq<(Id, Name)>, subs: seq<Id>)
    requires DistinctChildren(m, d)
    ensures Scanned(m, d, pairs, subs)
  {
    pairs, subs := [], [];
    var names := m[d].kind.entries.Keys;
    ghost var seen: set<Name> := {};
    while names != {}
      invariant names + seen == m[d].kind.entries.Keys && names !! seen
      invariant PartlyScanned(m, d, seen, pairs, subs)
      decreases names
    {
      var n :| n in names;
      ScanOne(m, d, seen, pairs, subs, n);
      var child := m[d].kind.entries[n].inode;
      if m[child].kind.Directory? { subs := subs + [child]; }
      pairs := pairs + [(d, n)];
      names := names - {n};
      seen := seen + {n};
    }
    PartlyScannedAll(m, d, seen, pairs, subs);
  }

  lemma ScanOne(m: Arena, d: Id, seen: set<Name>, pairs: seq<(Id, Name)>, subs: seq<Id>, n: Name)
    requires DistinctChildren(m, d) && PartlyScanned(m, d, seen, pairs, subs)
    requires n in m[d].kind.entries && n !in seen
    ensures var child := m[d].kind.entries[n].inode;
            && child in m
            && PartlyScanned(m, d, seen + {n}, pairs + [(d, n)],
                             if IsDir(m, child) then subs + [child] else subs)
  {
    var child := m[d].kind.entries[n].inode;
    assert HasEntry(m, d, n, child);
    var subs' := if IsDir(m, child) then subs + [child] else subs;
    forall x ensures x in subs' <==> IsDir(m, x) && exists o :: o in seen + {n} && HasEntry(m, d, o, x) {
      if x in subs {
        var o :| o in seen && HasEntry(m, d, o, x);
        assert o in seen + {n};
      }
    }
  }

  lemma PartlyScannedAll(m: Arena, d: Id, seen: set<Name>, pairs: seq<(Id, Name)>, subs: seq<Id>)
    requires PartlyScanned(m, d, seen, pairs, subs) && seen == m[d].kind.entries.Keys
    ensures Scanned(m, d, pairs, subs)
  {
    forall x ensures x in subs <==> IsDir(m, x) && exists n :: HasEntry(m, d, n, x) {
      if n :| HasEntry(m, d, n, x) { assert n in seen; }
    }
  }

  lemma ListingIsComplete(fs: Fs, visited: set<Id>, r: seq<(Id, Name)>)
    requires Inv(fs) && Listing(fs.inodes, visited, r) && Frontier(fs.inodes, fs.root, visited, [], r)
    ensures Holding(fs, r, |r|)
  {
    assert r[..|r|] == r;
    forall p: Id, n: Name ensures Holds(fs.inodes, p, n) <==> (p, n) in r {
      if Holds(fs.inodes, p, n) {
        HolderIsLinked(fs.inodes, fs.links, fs.root, p, n, fs.inodes[p].kind.entries[n].inode);
        var s :| Chain(fs.inodes, fs.root, p, s);
        AllVisited(fs.inodes, fs.links, fs.root, visited, r, p, s);
      }
    }
  }

  lemma PrunedReflexive(fs: Fs)
    requires LocksOnFiles(fs.inodes, fs.locks)
    ensures Pruned(fs, fs)
  {
  }

  /** One removal of the reversed list succeeds and leaves one entry less. */
  lemma RemovalStep(fs: Fs, visited: set<Id>, r: seq<(Id, Name)>, f: Fs, k: nat)
    requires Inv(f) && Pruned(fs, f) && Listing(fs.inodes, visited, r) && Holding(f, r, k) && 0 < k
    ensures var done := Namespace.RemoveAt(f, r[k - 1].0, r[k - 1].1);
            done.Ok? && Pruned(fs, done.value) && Holding(done.value, r, k - 1)
  {
    var (p, n) := r[k - 1];
    NextRemoval(fs, visited, r, f, k);
    EntryIsRemovable(f, p, n);
    RemovalHolds(fs, visited, r, f, k);
    RemovePrunes(f, p, n);
    PrunedTransitive(fs, f, RemoveEntry(f, p, n));
  }

  lemma ReplacedIsRemoved(fs: Fs, p: Id, n: Name, q: Id, o: Name, id: Id)
    requires Inv(fs) && Relocatable(fs.inodes, fs.root, p, n, q, o, id) && o in fs.inodes[q].kind.entries
    ensures Removable(fs, q, o) && Namespace.RemoveAt(fs, q, o) == Ok(RemoveEntry(fs, q, o))
  {
    EntryIsRemovable(fs, q, o);
  }
}
