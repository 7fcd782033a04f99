/** Every namespace operation keeps the invariant of the arena. */
module NamespaceInvariant {
  import opened Arithmetic
  import opened Wrappers
  import opened Namespace
  import ByteLocks

  lemma ChainFrame(m: Arena, m': Arena, root: Id, d: Id, s: seq<Id>)
    requires Chain(m, root, d, s)
    requires forall x :: x in s && x in m && m[x].parent.Some? ==> x in m' && m'[x].parent == m[x].parent
    ensures Chain(m', root, d, s)
  {
    forall i ensures Climbs(m', s, i) { assert Climbs(m, s, i); }
  }

  /** Everything on a chain is a linked directory. */
  lemma {:induction false} ChainIsLinked(m: Arena, links: LinkIndex, root: Id, d: Id, s: seq<Id>, x: Id)
    requires TreeInv(m, links, root) && Chain(m, root, d, s) && IsDir(m, d) && m[d].linkCount != 0 && x in s
    ensures IsDir(m, x) && m[x].linkCount != 0
    decreases |s|
  {
    if x != d {
      assert Climbs(m, s, 0);
      var _ := ParentHolds(m, links, root, d);
      ChainTail(m, root, d, s, 1);
      ChainIsLinked(m, links, root, s[1], s[1..], x);
    }
  }

  /** The parent field of a linked directory names a linked directory holding it. */
  lemma ParentHolds(m: Arena, links: LinkIndex, root: Id, d: Id) returns (n: Name)
    requires TreeInv(m, links, root) && IsDir(m, d) && m[d].parent.Some?
    ensures HasEntry(m, m[d].parent.value, n, d) && m[m[d].parent.value].linkCount != 0
  {
    assert d != root && m[d].linkCount == |LinksOf(links, d)|;
    var l :| l in LinksOf(links, d);
    assert HasEntry(m, l.0, l.1, d);
    n := l.1;
  }

  /** A path that resolves ends in an inode of the arena; a directory found this way is linked. */
  lemma {:induction false} ResolvedIsLinked(m: Arena, links: LinkIndex, root: Id, path: Path)
    requires TreeInv(m, links, root) && Resolve(m, root, path).Ok?
    ensures var id := Resolve(m, root, path).value; id in m && m[id].linkCount != 0
  {
    if path != [] {
      var up := Resolve(m, root, path[..|path| - 1]).value;
      var id := Resolve(m, root, path).value;
      assert HasEntry(m, up, path[|path| - 1], id);
      assert (up, path[|path| - 1]) in LinksOf(links, id);
    }
  }

  // -------------------------------------------------------- adding one entry

  ghost predicate FreshKind(k: Kind) {
    k.Directory? ==> k.entries == map[] && k.nextCookie == 1
  }

  /** `after` is `m` with one more entry n -> id in p; id is new, or gains a name. */
  ghost predicate Attached(m: Arena, after: Arena, p: Id, n: Name, id: Id) {
    && IsDir(m, p) && n !in m[p].kind.entries && id != p && NameError(n).None? && m[p].linkCount != 0
    && after.Keys == m.Keys + {id}
    && after[p] == WithEntry(m[p], n, Entry(id, m[p].kind.nextCookie), m[p].kind.nextCookie + 1)
    && (forall x :: x in m && x != p && x != id ==> after[x] == m[x])
    && after[id].parent == (if after[id].kind.Directory? then Some(p) else None)
    && (if id in m then after[id] == m[id].(linkCount := m[id].linkCount + 1) && !m[id].kind.Directory?
        else after[id].linkCount == 1 && FreshKind(after[id].kind))
  }

  lemma AttachedEntries(m: Arena, after: Arena, p: Id, n: Name, id: Id)
    requires Attached(m, after, p, n, id)
    ensures forall q: Id, o: Name, x: Id ::
              HasEntry(after, q, o, x) <==> HasEntry(m, q, o, x) || (q == p && o == n && x == id)
  {
  }

  lemma AttachedLinks(m: Arena, links: LinkIndex, after: Arena, p: Id, n: Name, id: Id)
    requires Attached(m, after, p, n, id) && LinksAgree(m, links)
    ensures LinksAgree(after, links[id := LinksOf(links, id) + {(p, n)}])
    ensures |LinksOf(links, id) + {(p, n)}| == |LinksOf(links, id)| + 1
  {
    AttachedEntries(m, after, p, n, id);
    assert (p, n) !in LinksOf(links, id);
  }

  lemma AttachedCounts(m: Arena, links: LinkIndex, after: Arena, p: Id, n: Name, id: Id, root: Id)
    requires Attached(m, after, p, n, id) && LinksAgree(m, links) && CountsExact(m, links, root)
    requires id != root && (id !in m ==> LinksOf(links, id) == {})
    ensures CountsExact(after, links[id := LinksOf(links, id) + {(p, n)}], root)
  {
    AttachedLinks(m, links, after, p, n, id);
  }

  lemma AttachedShape(m: Arena, after: Arena, p: Id, n: Name, id: Id, root: Id)
    requires Attached(m, after, p, n, id) && DirectoriesShaped(m, root) && EntriesResolve(m, root)
    requires id != root
    ensures DirectoriesShaped(after, root) && EntriesResolve(after, root)
  {
    AttachedEntries(m, after, p, n, id);
  }

  lemma AttachedCookies(m: Arena, after: Arena, p: Id, n: Name, id: Id)
    requires Attached(m, after, p, n, id) && CookiesStable(m)
    ensures CookiesStable(after)
  {
    assert CookiesDistinct(m[p].kind);
    assert CookiesDistinct(after[p].kind);
  }

  lemma AttachedRooted(m: Arena, links: LinkIndex, after: Arena, p: Id, n: Name, id: Id, root: Id)
    requires Attached(m, after, p, n, id) && TreeInv(m, links, root)
    ensures Rooted(after, root)
  {
    forall d | IsDir(after, d) && after[d].linkCount != 0 ensures exists s :: Chain(after, root, d, s) {
      var e := if d == id then p else d;
      assert IsDir(m, e) && m[e].linkCount != 0;
      var s :| Chain(m, root, e, s);
      AttachedChain(m, links, after, p, n, id, root, e, s);
      if d == id {
        forall i ensures Climbs(after, [id] + s, i) { assert Climbs(after, s, i - 1); }
        assert Chain(after, root, d, [id] + s);
      }
    }
  }

  lemma AttachedChain(m: Arena, links: LinkIndex, after: Arena, p: Id, n: Name, id: Id, root: Id, e: Id, s: seq<Id>)
    requires Attached(m, after, p, n, id) && TreeInv(m, links, root)
    requires IsDir(m, e) && m[e].linkCount != 0 && Chain(m, root, e, s)
    ensures Chain(after, root, e, s)
  {
    forall x | x in s && x in m && m[x].parent.Some? ensures x in after && after[x].parent == m[x].parent {
      ChainIsLinked(m, links, root, e, s, x);
    }
    ChainFrame(m, after, root, e, s);
  }

  lemma AttachedTree(m: Arena, links: LinkIndex, after: Arena, p: Id, n: Name, id: Id, root: Id)
    requires Attached(m, after, p, n, id) && TreeInv(m, links, root) && id != root
    requires id !in m ==> LinksOf(links, id) == {}
    ensures TreeInv(after, links[id := LinksOf(links, id) + {(p, n)}], root)
  {
    AttachedLinks(m, links, after, p, n, id);
    AttachedCounts(m, links, after, p, n, id, root);
    AttachedShape(m, after, p, n, id, root);
    AttachedCookies(m, after, p, n, id);
    AttachedRooted(m, links, after, p, n, id, root);
  }

  /** Writing two different slots of the arena shifts each sum by the two differences. */
  lemma SumPutTwo(m: Arena, w: Inode -> nat, n: nat, a: Id, u: Inode, b: Id, v: Inode)
    requires a != b && a < n && b < n
    ensures SumBelow(m[a := u][b := v], w, n) + (if a in m then w(m[a]) else 0) + (if b in m then w(m[b]) else 0)
            == SumBelow(m, w, n) + w(u) + w(v)
  {
    SumPut(m, w, n, a, u);
    SumPut(m[a := u], w, n, b, v);
  }

  lemma {:induction false} SumBeyond(m: Arena, w: Inode -> nat, n: nat, top: nat)
    requires n <= top && forall id :: id in m ==> id < n
    ensures SumBelow(m, w, top) == SumBelow(m, w, n)
  {
    if n < top { SumBeyond(m, w, n, top - 1); }
  }

  lemma GrownEntries(i: Inode, n: Name, e: Entry, cookie: nat)
    requires i.kind.Directory? && n !in i.kind.entries
    ensures EntryCount(WithEntry(i, n, e, cookie)) == EntryCount(i) + 1
  {
  }

  // --------------------------------------------------------------------- insert

  lemma FreshHasNoLinks(fs: Fs)
    requires LinksAgree(fs.inodes, fs.links) && EntriesResolve(fs.inodes, fs.root) && SumsExact(fs)
    ensures LinksOf(fs.links, fs.nextInode) == {}
  {
    assert forall l :: l in LinksOf(fs.links, fs.nextInode) ==> HasEntry(fs.inodes, l.0, l.1, fs.nextInode);
  }

  lemma InsertAttaches(fs: Fs, p: Id, n: Name, k: Kind)
    requires fs.nextInode !in fs.inodes && Insert(fs, p, n, k).Ok? && FreshKind(k)
    requires NameError(n).None? && fs.inodes[p].linkCount != 0
    ensures Attached(fs.inodes, Insert(fs, p, n, k).value.0.inodes, p, n, fs.nextInode)
  {
  }

  lemma InsertKeepsSums(fs: Fs, p: Id, n: Name, k: Kind)
    requires SumsExact(fs) && Insert(fs, p, n, k).Ok? && FreshKind(k)
    ensures var f := Insert(fs, p, n, k).value.0;
            SumsExact(f.(logicalBytes := fs.logicalBytes + if k.File? then |k.body| else 0))
  {
    var m, id, cookie := fs.inodes, fs.nextInode, fs.inodes[p].kind.nextCookie;
    var dir := WithEntry(m[p], n, Entry(id, cookie), cookie + 1);
    var child := Inode(k, if k.Directory? then Some(p) else None, 1, 0);
    InsertedWeights(m[p], n, Entry(id, cookie), cookie + 1, child);
    var f := Insert(fs, p, n, k).value.0;
    InsertedSums(fs, f.(logicalBytes := fs.logicalBytes + if k.File? then |k.body| else 0), p, dir, child);
  }

  lemma InsertedSums(fs: Fs, f: Fs, p: Id, dir: Inode, child: Inode)
    requires SumsExact(fs) && p in fs.inodes && f.inodes == fs.inodes[p := dir][fs.nextInode := child]
    requires f.nextInode == fs.nextInode + 1 && f.directoryEntries == fs.directoryEntries + 1
    requires f.logicalBytes == fs.logicalBytes + FileBytes(child) && FileBytes(dir) == FileBytes(fs.inodes[p])
    requires EntryCount(dir) == EntryCount(fs.inodes[p]) + 1 && EntryCount(child) == 0
    ensures SumsExact(f)
  {
    InsertedSum(fs, FileBytes, p, dir, child);
    InsertedSum(fs, EntryCount, p, dir, child);
  }

  lemma InsertedWeights(i: Inode, n: Name, e: Entry, cookie: nat, child: Inode)
    requires i.kind.Directory? && n !in i.kind.entries && FreshKind(child.kind)
    ensures EntryCount(WithEntry(i, n, e, cookie)) == EntryCount(i) + 1 && EntryCount(child) == 0
    ensures FileBytes(WithEntry(i, n, e, cookie)) == FileBytes(i) == 0
    ensures FileBytes(child) == if child.kind.File? then |child.kind.body| else 0
  {
    GrownEntries(i, n, e, cookie);
  }

  lemma InsertedSum(fs: Fs, w: Inode -> nat, p: Id, dir: Inode, child: Inode)
    requires SumsExact(fs) && p in fs.inodes
    ensures SumBelow(fs.inodes[p := dir][fs.nextInode := child], w, fs.nextInode + 1) + w(fs.inodes[p])
            == SumBelow(fs.inodes, w, fs.nextInode) + w(dir) + w(child)
  {
    SumPutTwo(fs.inodes, w, fs.nextInode + 1, p, dir, fs.nextInode, child);
    SumBeyond(fs.inodes, w, fs.nextInode, fs.nextInode + 1);
  }

  /** Creating a file, directory or symlink keeps the invariant, under an identity never used before. */
  lemma InsertKeepsInv(fs: Fs, p: Id, n: Name, k: Kind)
    requires Inv(fs) && Insert(fs, p, n, k).Ok? && FreshKind(k)
    requires NameError(n).None? && fs.inodes[p].linkCount != 0
    ensures var (f, id) := Insert(fs, p, n, k).value;
            && Inv(f.(logicalBytes := fs.logicalBytes + if k.File? then |k.body| else 0))
            && id !in fs.inodes && id == fs.nextInode && HasEntry(f.inodes, p, n, id)
  {
    InsertKeepsTree(fs, p, n, k);
    InsertKeepsSums(fs, p, n, k);
    InsertKeepsLocks(fs, p, n, k);
  }

  lemma InsertKeepsTree(fs: Fs, p: Id, n: Name, k: Kind)
    requires TreeInv(fs.inodes, fs.links, fs.root) && SumsExact(fs) && Insert(fs, p, n, k).Ok? && FreshKind(k)
    requires NameError(n).None? && fs.inodes[p].linkCount != 0
    ensures var f := Insert(fs, p, n, k).value.0; TreeInv(f.inodes, f.links, f.root)
  {
    InsertAttaches(fs, p, n, k);
    FreshHasNoLinks(fs);
    AttachedTree(fs.inodes, fs.links, Insert(fs, p, n, k).value.0.inodes, p, n, fs.nextInode, fs.root);
  }

  lemma InsertKeepsLocks(fs: Fs, p: Id, n: Name, k: Kind)
    requires SumsExact(fs) && LocksOnFiles(fs.inodes, fs.locks) && Insert(fs, p, n, k).Ok?
    ensures LocksOnFiles(Insert(fs, p, n, k).value.0.inodes, fs.locks)
  {
  }

  lemma CreationKeepsInv(fs: Fs, p: Id, n: Name, kind: Kind)
    requires Inv(fs) && CreateAt(fs, p, n, kind).Ok?
    requires kind == File([]) || kind == Directory(map[], 1) || kind.Symlink?
    ensures Inv(CreateAt(fs, p, n, kind).value.0)
  {
    InsertKeepsInv(fs, p, n, kind);
  }

  /** link_at keeps the invariant, also for an inode whose last name was removed. */
  lemma LinkAtKeepsInv(fs: Fs, p: Id, n: Name, id: Id)
    requires Inv(fs) && LinkAt(fs, p, n, id).Ok?
    ensures Inv(LinkAt(fs, p, n, id).value)
    ensures HasEntry(LinkAt(fs, p, n, id).value.inodes, p, n, id)
  {
    LinkAtKeepsTree(fs, p, n, id);
    LinkAtKeepsSums(fs, p, n, id);
    LinkAtKeepsLocks(fs, p, n, id);
  }

  lemma LinkAtKeepsTree(fs: Fs, p: Id, n: Name, id: Id)
    requires TreeInv(fs.inodes, fs.links, fs.root) && LinkAt(fs, p, n, id).Ok?
    ensures var f := LinkAt(fs, p, n, id).value; TreeInv(f.inodes, f.links, f.root)
  {
    var f := LinkAt(fs, p, n, id).value;
    assert Attached(fs.inodes, f.inodes, p, n, id);
    AttachedTree(fs.inodes, fs.links, f.inodes, p, n, id, fs.root);
  }

  lemma LinkAtKeepsLocks(fs: Fs, p: Id, n: Name, id: Id)
    requires LocksOnFiles(fs.inodes, fs.locks) && LinkAt(fs, p, n, id).Ok?
    ensures LocksOnFiles(LinkAt(fs, p, n, id).value.inodes, fs.locks)
  {
  }

  lemma LinkAtKeepsSums(fs: Fs, p: Id, n: Name, id: Id)
    requires SumsExact(fs) && LinkAt(fs, p, n, id).Ok?
    ensures SumsExact(LinkAt(fs, p, n, id).value)
  {
    var m := fs.inodes;
    var dir := WithEntry(m[p], n, Entry(id, m[p].kind.nextCookie), m[p].kind.nextCookie + 1);
    var child := m[id].(linkCount := m[id].linkCount + 1);
    GrownEntries(m[p], n, Entry(id, m[p].kind.nextCookie), m[p].kind.nextCookie + 1);
    SumPutTwo(m, FileBytes, fs.nextInode, p, dir, id, child);
    SumPutTwo(m, EntryCount, fs.nextInode, p, dir, id, child);
  }

  // ------------------------------------------------------ removing one entry

  /** `after` is `m` without the entry n -> id of p. */
  ghost predicate Detached(m: Arena, after: Arena, p: Id, n: Name, id: Id) {
    && HasEntry(m, p, n, id) && id in m && id != p && m[id].linkCount > 0
    && (m[id].kind.Directory? ==> m[id].kind.entries == map[])
    && after.Keys == m.Keys
    && after[p] == WithoutEntry(m[p], n)
    && after[id] == Unlinked(m[id])
    && (forall x :: x in m && x != p && x != id ==> after[x] == m[x])
  }

  /** The counts are exact except that `id`, no longer linked, may be unheld. */
  ghost predicate CountsExactBut(m: Arena, links: LinkIndex, root: Id, id: Id) {
    && IsDir(m, root) && m[root].linkCount == 1 && m[root].parent == None
    && (forall x :: x in m && x != root ==> m[x].linkCount == |LinksOf(links, x)|)
    && (forall x :: x in m && x != id && m[x].linkCount == 0 ==> m[x].fidRefs > 0)
  }

  lemma DetachedEntries(m: Arena, after: Arena, p: Id, n: Name, id: Id)
    requires Detached(m, after, p, n, id)
    ensures forall q: Id, o: Name, x: Id :: HasEntry(after, q, o, x) <==> HasEntry(m, q, o, x) && !(q == p && o == n)
  {
  }

  lemma DetachedLinks(m: Arena, links: LinkIndex, after: Arena, p: Id, n: Name, id: Id)
    requires Detached(m, after, p, n, id) && LinksAgree(m, links)
    ensures LinksAgree(after, DropLink(links, id, (p, n)))
    ensures LinksOf(DropLink(links, id, (p, n)), id) == LinksOf(links, id) - {(p, n)}
    ensures |LinksOf(links, id) - {(p, n)}| == |LinksOf(links, id)| - 1
    ensures forall x :: x != id ==> LinksOf(DropLink(links, id, (p, n)), x) == LinksOf(links, x)
  {
    DetachedEntries(m, after, p, n, id);
    assert (p, n) in LinksOf(links, id);
  }

  lemma DetachedCounts(m: Arena, links: LinkIndex, after: Arena, p: Id, n: Name, id: Id, root: Id)
    requires Detached(m, after, p, n, id) && LinksAgree(m, links) && CountsExact(m, links, root) && id != root
    ensures CountsExactBut(after, DropLink(links, id, (p, n)), root, id)
  {
    DetachedLinks(m, links, after, p, n, id);
  }

  lemma DetachedShape(m: Arena, after: Arena, p: Id, n: Name, id: Id, root: Id)
    requires Detached(m, after, p, n, id) && DirectoriesShaped(m, root) && EntriesResolve(m, root)
    requires forall q: Id, o: Name :: HasEntry(m, q, o, id) && IsDir(m, id) ==> q == p && o == n
    ensures DirectoriesShaped(after, root) && EntriesResolve(after, root)
  {
    DetachedEntries(m, after, p, n, id);
    assert after[p].kind.entries != map[] ==> m[p].kind.entries != map[];
  }

  lemma OnlyEntry(m: Arena, links: LinkIndex, root: Id, p: Id, n: Name, d: Id)
    requires TreeInv(m, links, root) && HasEntry(m, p, n, d) && IsDir(m, d)
    ensures forall q: Id, o: Name :: HasEntry(m, q, o, d) ==> q == p && o == n
  {
    forall q: Id, o: Name | HasEntry(m, q, o, d) ensures q == p && o == n {
      assert (p, n) in LinksOf(links, d) && (q, o) in LinksOf(links, d);
      if (p, n) != (q, o) {
        assert {(p, n), (q, o)} <= LinksOf(links, d);
        SubsetSize({(p, n), (q, o)}, LinksOf(links, d));
      }
    }
  }

  lemma DetachedCookies(m: Arena, after: Arena, p: Id, n: Name, id: Id)
    requires Detached(m, after, p, n, id) && CookiesStable(m)
    ensures CookiesStable(after)
  {
    assert CookiesDistinct(m[p].kind);
    assert CookiesDistinct(after[p].kind);
  }

  lemma DetachedRooted(m: Arena, links: LinkIndex, after: Arena, p: Id, n: Name, id: Id, root: Id)
    requires Detached(m, after, p, n, id) && TreeInv(m, links, root)
    ensures Rooted(after, root)
  {
    forall d | IsDir(after, d) && after[d].linkCount != 0 ensures exists s :: Chain(after, root, d, s) {
      assert d != id;
      var s :| Chain(m, root, d, s);
      EmptyIsNoAncestor(m, links, root, d, s, id);
      ChainFrame(m, after, root, d, s);
    }
  }

  /** An empty directory, or a file, is on no chain but its own. */
  lemma EmptyIsNoAncestor(m: Arena, links: LinkIndex, root: Id, d: Id, s: seq<Id>, id: Id)
    requires TreeInv(m, links, root) && Chain(m, root, d, s) && IsDir(m, d) && m[d].linkCount != 0 && id != d
    requires id in m && (m[id].kind.Directory? ==> m[id].kind.entries == map[])
    ensures id !in s
  {
    if id in s {
      var i :| 0 <= i < |s| && s[i] == id;
      ChainIsLinked(m, links, root, d, s, s[i - 1]);
      assert Climbs(m, s, i - 1);
      var _ := ParentHolds(m, links, root, s[i - 1]);
    }
  }

  lemma DetachedTree(m: Arena, links: LinkIndex, after: Arena, p: Id, n: Name, id: Id, root: Id)
    requires Detached(m, after, p, n, id) && TreeInv(m, links, root)
    ensures TreeInvBut(after, DropLink(links, id, (p, n)), root, id)
  {
    DetachedLinks(m, links, after, p, n, id);
    DetachedCounts(m, links, after, p, n, id, root);
    if IsDir(m, id) { OnlyEntry(m, links, root, p, n, id); }
    DetachedShape(m, after, p, n, id, root);
    DetachedCookies(m, after, p, n, id);
    DetachedRooted(m, links, after, p, n, id, root);
  }

  ghost predicate TreeInvBut(m: Arena, links: LinkIndex, root: Id, id: Id) {
    && LinksAgree(m, links)
    && EntriesResolve(m, root)
    && CountsExactBut(m, links, root, id)
    && DirectoriesShaped(m, root)
    && Rooted(m, root)
    && CookiesStable(m)
  }

  /** Dropping an unlinked inode restores the full invariant. */
  lemma ReclaimedTree(m: Arena, links: LinkIndex, root: Id, id: Id)
    requires TreeInvBut(m, links, root, id) && id in m && m[id].linkCount == 0
    ensures TreeInv(m - {id}, links, root) && id !in links
  {
    var after := m - {id};
    assert LinksOf(links, id) == {};
    assert forall q: Id, o: Name, x: Id :: HasEntry(after, q, o, x) <==> HasEntry(m, q, o, x);
    assert forall q: Id, o: Name, x: Id :: HasEntry(m, q, o, x) ==> (q, o) in LinksOf(links, x);
    forall d | IsDir(after, d) && after[d].linkCount != 0 ensures exists s :: Chain(after, root, d, s) {
      var s :| Chain(m, root, d, s);
      forall x | x in s && x in m && m[x].parent.Some? ensures x in after && after[x].parent == m[x].parent {
        assert x != id;
      }
      ChainFrame(m, after, root, d, s);
    }
  }

  lemma ShrunkEntries(i: Inode, n: Name)
    requires i.kind.Directory? && n in i.kind.entries
    ensures EntryCount(WithoutEntry(i, n)) == EntryCount(i) - 1
  {
    assert (i.kind.entries - {n}).Keys == i.kind.entries.Keys - {n};
    assert |i.kind.entries| == |i.kind.entries.Keys|;
    assert |i.kind.entries - {n}| == |(i.kind.entries - {n}).Keys|;
  }

  lemma RemovedSums(fs: Fs, p: Id, n: Name)
    requires SumsExact(fs) && Removable(fs, p, n) && EntryCount(fs.inodes[fs.inodes[p].kind.entries[n].inode]) == 0
    ensures SumsExact(RemoveEntry(fs, p, n))
  {
    var m, top := fs.inodes, fs.nextInode;
    var id := m[p].kind.entries[n].inode;
    var dir, child := WithoutEntry(m[p], n), Unlinked(m[id]);
    ShrunkEntries(m[p], n);
    SumPutTwo(m, FileBytes, top, p, dir, id, child);
    SumPutTwo(m, EntryCount, top, p, dir, id, child);
    var m1 := m[p := dir][id := child];
    SumDrop(m1, FileBytes, top, id);
    SumDrop(m1, EntryCount, top, id);
  }

  lemma RemoveDetaches(fs: Fs, p: Id, n: Name)
    requires Inv(fs) && Removable(fs, p, n)
    requires var id := fs.inodes[p].kind.entries[n].inode;
             fs.inodes[id].kind.Directory? ==> fs.inodes[id].kind.entries == map[]
    ensures var m := fs.inodes; var id := m[p].kind.entries[n].inode;
            Detached(m, m[p := WithoutEntry(m[p], n)][id := Unlinked(m[id])], p, n, id)
  {
  }

  lemma RemoveEntryKeepsInv(fs: Fs, p: Id, n: Name)
    requires Inv(fs) && Removable(fs, p, n)
    requires var id := fs.inodes[p].kind.entries[n].inode;
             fs.inodes[id].kind.Directory? ==> fs.inodes[id].kind.entries == map[]
    ensures Inv(RemoveEntry(fs, p, n))
  {
    var m, f := fs.inodes, RemoveEntry(fs, p, n);
    var id := m[p].kind.entries[n].inode;
    var after := m[p := WithoutEntry(m[p], n)][id := Unlinked(m[id])];
    RemoveDetaches(fs, p, n);
    DetachedTree(m, fs.links, after, p, n, id, fs.root);
    if after[id].linkCount == 0 && after[id].fidRefs == 0 {
      ReclaimedTree(after, DropLink(fs.links, id, (p, n)), fs.root, id);
    }
    RemovedSums(fs, p, n);
    RemovedLocks(fs, p, n);
  }

  lemma RemovedLocks(fs: Fs, p: Id, n: Name)
    requires LocksOnFiles(fs.inodes, fs.locks) && Removable(fs, p, n)
    ensures LocksOnFiles(RemoveEntry(fs, p, n).inodes, RemoveEntry(fs, p, n).locks)
  {
    ByteLocks.DropInodeKeepsValid(fs.locks, fs.inodes[p].kind.entries[n].inode);
  }

  /** remove_at keeps the invariant; on an error nothing has changed. */
  lemma RemoveAtKeepsInv(fs: Fs, p: Id, n: Name)
    requires Inv(fs) && RemoveAt(fs, p, n).Ok?
    ensures Inv(RemoveAt(fs, p, n).value)
  {
    EntryIsRemovable(fs, p, n);
    RemoveEntryKeepsInv(fs, p, n);
  }

  // ------------------------------------------------------------ moving an entry

  /** `after` is `m` with the entry n -> id of p now called o and held by q. */
  ghost predicate Moved(m: Arena, after: Arena, p: Id, n: Name, q: Id, o: Name, id: Id) {
    && HasEntry(m, p, n, id) && id in m && id != p && id != q
    && IsDir(m, q) && o !in m[q].kind.entries && m[q].linkCount != 0 && NameError(o).None?
    && after.Keys == m.Keys
    && (if p == q then
          after[p] == WithEntry(WithoutEntry(m[p], n), o, m[p].kind.entries[n], m[p].kind.nextCookie)
        else
          && after[p] == WithoutEntry(m[p], n)
          && after[q] == WithEntry(m[q], o, Entry(id, m[q].kind.nextCookie), m[q].kind.nextCookie + 1))
    && after[id] == (if m[id].kind.Directory? then m[id].(parent := Some(q)) else m[id])
    && (forall x :: x in m && x != p && x != q && x != id ==> after[x] == m[x])
  }

  lemma MovedEntries(m: Arena, after: Arena, p: Id, n: Name, q: Id, o: Name, id: Id)
    requires Moved(m, after, p, n, q, o, id)
    ensures forall h: Id, e: Name, x: Id :: HasEntry(after, h, e, x) <==>
              (HasEntry(m, h, e, x) && !(h == p && e == n)) || (h == q && e == o && x == id)
  {
  }

  function MoveLink(links: LinkIndex, id: Id, a: (Id, Name), b: (Id, Name)): LinkIndex {
    if id in links then links[id := links[id] - {a} + {b}] else links
  }

  lemma MovedLinks(m: Arena, links: LinkIndex, after: Arena, p: Id, n: Name, q: Id, o: Name, id: Id)
    requires Moved(m, after, p, n, q, o, id) && LinksAgree(m, links)
    ensures LinksAgree(after, MoveLink(links, id, (p, n), (q, o)))
    ensures forall x :: |LinksOf(MoveLink(links, id, (p, n), (q, o)), x)| == |LinksOf(links, x)|
  {
    MovedEntries(m, after, p, n, q, o, id);
    assert (p, n) in LinksOf(links, id) && (q, o) !in LinksOf(links, id);
  }

  lemma MovedShape(m: Arena, after: Arena, p: Id, n: Name, q: Id, o: Name, id: Id, root: Id)
    requires Moved(m, after, p, n, q, o, id) && DirectoriesShaped(m, root) && EntriesResolve(m, root)
    requires IsDir(m, id) ==> m[id].linkCount != 0
    requires forall h: Id, e: Name :: HasEntry(m, h, e, id) && IsDir(m, id) ==> h == p && e == n
    ensures DirectoriesShaped(after, root) && EntriesResolve(after, root)
  {
    MovedEntries(m, after, p, n, q, o, id);
    assert m[p].kind.entries != map[];
  }

  lemma MovedCookies(m: Arena, after: Arena, p: Id, n: Name, q: Id, o: Name, id: Id)
    requires Moved(m, after, p, n, q, o, id) && CookiesStable(m)
    ensures CookiesStable(after)
  {
    assert CookiesDistinct(m[p].kind) && CookiesDistinct(m[q].kind);
    assert CookiesDistinct(after[p].kind);
    assert CookiesDistinct(after[q].kind);
  }

  /** Re-hanging a subtree: chains through `id` continue over its new parent, the others stay. */
  lemma MovedRooted(m: Arena, links: LinkIndex, after: Arena, p: Id, n: Name, q: Id, o: Name, id: Id, root: Id)
    requires Moved(m, after, p, n, q, o, id) && TreeInv(m, links, root)
    requires IsDir(m, id) ==> !OnChain(m, root, q, id)
    ensures Rooted(after, root)
  {
    var above :| Chain(m, root, q, above);
    MovedChain(m, links, after, p, n, q, o, id, root, q, above);
    forall d | IsDir(after, d) && after[d].linkCount != 0 ensures exists s :: Chain(after, root, d, s) {
      var s :| Chain(m, root, d, s);
      if IsDir(m, id) && id in s {
        var i :| 0 <= i < |s| && s[i] == id;
        RejoinedChain(m, after, root, d, s, i, q, above);
      } else {
        MovedChain(m, links, after, p, n, q, o, id, root, d, s);
      }
    }
  }

  lemma MovedChain(m: Arena, links: LinkIndex, after: Arena, p: Id, n: Name, q: Id, o: Name, id: Id, root: Id,
                   d: Id, s: seq<Id>)
    requires Moved(m, after, p, n, q, o, id) && TreeInv(m, links, root)
    requires Chain(m, root, d, s) && (IsDir(m, id) ==> id !in s)
    ensures Chain(after, root, d, s)
  {
    ChainFrame(m, after, root, d, s);
  }

  lemma RejoinedChain(m: Arena, after: Arena, root: Id, d: Id, s: seq<Id>, i: nat, q: Id, above: seq<Id>)
    requires root in m && m[root].parent == None
    requires Chain(m, root, d, s) && i < |s| && Chain(after, root, q, above)
    requires after.Keys == m.Keys
    requires forall x :: x in m && x != s[i] ==> after[x].parent == m[x].parent
    requires s[i] in m && after[s[i]].parent == Some(q)
    ensures Chain(after, root, d, s[..i + 1] + above)
  {
    var t := s[..i + 1] + above;
    forall k ensures Climbs(after, t, k) {
      if 0 <= k < i {
        assert Climbs(m, s, k);
        ChainHasNoRepeats(m, root, d, s, k, i);
      } else if k > i {
        assert Climbs(after, above, k - i - 1);
      }
    }
  }

  lemma MovedTree(m: Arena, links: LinkIndex, after: Arena, p: Id, n: Name, q: Id, o: Name, id: Id, root: Id)
    requires Moved(m, after, p, n, q, o, id) && TreeInv(m, links, root)
    requires IsDir(m, id) ==> !OnChain(m, root, q, id)
    ensures TreeInv(after, MoveLink(links, id, (p, n), (q, o)), root)
  {
    MovedLinks(m, links, after, p, n, q, o, id);
    if IsDir(m, id) { OnlyEntry(m, links, root, p, n, id); }
    assert (p, n) in LinksOf(links, id);
    MovedShape(m, after, p, n, q, o, id, root);
    MovedCookies(m, after, p, n, q, o, id);
    MovedRooted(m, links, after, p, n, q, o, id, root);
  }

  /** Moving one unit of weight from slot p to slot q leaves the total alone. */
  lemma {:induction false} SumShift(m: Arena, after: Arena, w: Inode -> nat, n: nat, p: Id, q: Id)
    requires after.Keys == m.Keys && p in m && q in m && p != q
    requires w(after[p]) + 1 == w(m[p]) && w(after[q]) == w(m[q]) + 1
    requires forall x :: x in m && x != p && x != q ==> w(after[x]) == w(m[x])
    ensures SumBelow(after, w, n) + (if p < n then 1 else 0) == SumBelow(m, w, n) + (if q < n then 1 else 0)
  {
    if n > 0 { SumShift(m, after, w, n - 1, p, q); }
  }

  lemma {:induction false} SumSame(m: Arena, after: Arena, w: Inode -> nat, n: nat)
    requires after.Keys == m.Keys && forall x :: x in m ==> w(after[x]) == w(m[x])
    ensures SumBelow(after, w, n) == SumBelow(m, w, n)
  {
    if n > 0 { SumSame(m, after, w, n - 1); }
  }

  lemma MovedWeights(m: Arena, after: Arena, p: Id, n: Name, q: Id, o: Name, id: Id)
    requires Moved(m, after, p, n, q, o, id)
    ensures forall x :: x in m ==> FileBytes(after[x]) == FileBytes(m[x])
    ensures forall x :: x in m && x != p && x != q ==> EntryCount(after[x]) == EntryCount(m[x])
    ensures p == q ==> EntryCount(after[p]) == EntryCount(m[p])
    ensures p != q ==> EntryCount(after[p]) + 1 == EntryCount(m[p]) && EntryCount(after[q]) == EntryCount(m[q]) + 1
  {
    ShrunkEntries(m[p], n);
    if p == q {
      GrownEntries(WithoutEntry(m[p], n), o, m[p].kind.entries[n], m[p].kind.nextCookie);
    } else {
      GrownEntries(m[q], o, Entry(id, m[q].kind.nextCookie), m[q].kind.nextCookie + 1);
    }
  }

  lemma MovedSums(m: Arena, after: Arena, p: Id, n: Name, q: Id, o: Name, id: Id, top: nat)
    requires Moved(m, after, p, n, q, o, id) && p < top && q < top
    ensures SumBelow(after, FileBytes, top) == SumBelow(m, FileBytes, top)
    ensures SumBelow(after, EntryCount, top) == SumBelow(m, EntryCount, top)
  {
    MovedWeights(m, after, p, n, q, o, id);
    SumSame(m, after, FileBytes, top);
    if p == q { SumSame(m, after, EntryCount, top); } else { SumShift(m, after, EntryCount, top, p, q); }
  }

  /** What a rename that changes anything may rely on. */
  ghost predicate Relocatable(m: Arena, root: Id, p: Id, n: Name, q: Id, o: Name, id: Id) {
    && HasEntry(m, p, n, id) && id in m && id != p && id != q
    && IsDir(m, q) && m[q].linkCount != 0 && NameError(o).None?
    && (IsDir(m, id) ==> !OnChain(m, root, q, id))
    && (o in m[q].kind.entries ==>
          var r := m[q].kind.entries[o].inode;
          r in m && r != id && r != p && r != q && (IsDir(m, r) ==> m[r].kind.entries == map[]))
  }

  lemma MovesIsRelocatable(fs: Fs, p: Id, n: Name, q: Id, o: Name)
    requires Inv(fs) && Moves(fs, p, n, q, o)
    ensures Relocatable(fs.inodes, fs.root, p, n, q, o, fs.inodes[p].kind.entries[n].inode)
  {
    var m, id := fs.inodes, fs.inodes[p].kind.entries[n].inode;
    assert HasEntry(m, p, n, id);
    NotOwnHolder(fs, p, n, q, id);
    if o in m[q].kind.entries {
      NoSelfEntry(m, fs.links, fs.root, q, o);
      assert HasEntry(m, q, o, m[q].kind.entries[o].inode);
      assert m[p].kind.entries != map[];
    }
  }

  /** With the target name cleared, the moving entry is untouched. */
  lemma DisplacedFacts(fs: Fs, p: Id, n: Name, q: Id, o: Name, id: Id)
    requires Relocatable(fs.inodes, fs.root, p, n, q, o, id)
    requires o in fs.inodes[q].kind.entries ==> Removable(fs, q, o)
    ensures var gone := Displaced(fs, q, o);
            && gone == fs.(inodes := gone.inodes, links := gone.links, logicalBytes := gone.logicalBytes,
                           directoryEntries := gone.directoryEntries, locks := gone.locks)
            && IsDir(gone.inodes, q) && o !in gone.inodes[q].kind.entries && gone.inodes[q].linkCount != 0
            && gone.inodes[q].kind.nextCookie == fs.inodes[q].kind.nextCookie
            && IsDir(gone.inodes, p) && n in gone.inodes[p].kind.entries
            && gone.inodes[p].kind.entries[n] == fs.inodes[p].kind.entries[n]
            && id in gone.inodes && gone.inodes[id] == fs.inodes[id]
  {
  }

  lemma DisplacedKeepsInv(fs: Fs, p: Id, n: Name, q: Id, o: Name, id: Id)
    requires Inv(fs) && Relocatable(fs.inodes, fs.root, p, n, q, o, id)
    requires o in fs.inodes[q].kind.entries ==> Removable(fs, q, o)
    ensures Inv(Displaced(fs, q, o))
  {
    if o in fs.inodes[q].kind.entries { RemoveEntryKeepsInv(fs, q, o); }
  }

  lemma DisplacedParents(fs: Fs, q: Id, o: Name)
    requires IsDir(fs.inodes, q) && o in fs.inodes[q].kind.entries && Removable(fs, q, o)
    ensures var r := fs.inodes[q].kind.entries[o].inode; var gone := RemoveEntry(fs, q, o).inodes;
            forall x :: x in fs.inodes && x != r ==> x in gone && gone[x].parent == fs.inodes[x].parent
  {
  }

  lemma DisplacedChain(fs: Fs, p: Id, n: Name, q: Id, o: Name, id: Id, s: seq<Id>)
    requires TreeInv(fs.inodes, fs.links, fs.root) && Relocatable(fs.inodes, fs.root, p, n, q, o, id)
    requires o in fs.inodes[q].kind.entries ==> Removable(fs, q, o)
    requires Chain(fs.inodes, fs.root, q, s)
    ensures Chain(Displaced(fs, q, o).inodes, fs.root, q, s)
  {
    if o in fs.inodes[q].kind.entries {
      EmptyIsNoAncestor(fs.inodes, fs.links, fs.root, q, s, fs.inodes[q].kind.entries[o].inode);
      DisplacedParents(fs, q, o);
      ChainFrame(fs.inodes, RemoveEntry(fs, q, o).inodes, fs.root, q, s);
    }
  }

  lemma DisplacedOffChain(fs: Fs, p: Id, n: Name, q: Id, o: Name, id: Id)
    requires TreeInv(fs.inodes, fs.links, fs.root) && Relocatable(fs.inodes, fs.root, p, n, q, o, id)
    requires o in fs.inodes[q].kind.entries ==> Removable(fs, q, o)
    requires var gone := Displaced(fs, q, o).inodes; fs.root in gone && gone[fs.root].parent == None
    ensures IsDir(fs.inodes, id) ==> !OnChain(Displaced(fs, q, o).inodes, fs.root, q, id)
  {
    var s :| Chain(fs.inodes, fs.root, q, s);
    DisplacedChain(fs, p, n, q, o, id, s);
    forall t | Chain(Displaced(fs, q, o).inodes, fs.root, q, t) ensures t == s {
      ChainUnique(Displaced(fs, q, o).inodes, fs.root, q, s, t);
    }
  }

  lemma MoveEntryMoves(gone: Fs, p: Id, n: Name, q: Id, o: Name, id: Id, cookie: nat)
    requires HasEntry(gone.inodes, p, n, id) && id in gone.inodes && id !in {p, q}
    requires IsDir(gone.inodes, q) && o !in gone.inodes[q].kind.entries && gone.inodes[q].linkCount != 0
    requires NameError(o).None?
    requires cookie == if p == q then gone.inodes[p].kind.entries[n].cookie else gone.inodes[q].kind.nextCookie
    ensures var f := MoveEntry(gone, p, n, q, o, cookie);
            && Moved(gone.inodes, f.inodes, p, n, q, o, id)
            && f == gone.(inodes := f.inodes, links := MoveLink(gone.links, id, (p, n), (q, o)))
  {
  }

  lemma MoveEntryKeepsInv(gone: Fs, f: Fs, p: Id, n: Name, q: Id, o: Name, id: Id)
    requires Inv(gone) && Moved(gone.inodes, f.inodes, p, n, q, o, id)
    requires f == gone.(inodes := f.inodes, links := MoveLink(gone.links, id, (p, n), (q, o)))
    requires IsDir(gone.inodes, id) ==> !OnChain(gone.inodes, gone.root, q, id)
    ensures Inv(f)
  {
    MovedTree(gone.inodes, gone.links, f.inodes, p, n, q, o, id, gone.root);
    MovedSums(gone.inodes, f.inodes, p, n, q, o, id, gone.nextInode);
    MovedKinds(gone.inodes, f.inodes, p, n, q, o, id);
  }

  lemma MovedKinds(m: Arena, after: Arena, p: Id, n: Name, q: Id, o: Name, id: Id)
    requires Moved(m, after, p, n, q, o, id)
    ensures forall x :: x in m ==> (after[x].kind.File? <==> m[x].kind.File?)
  {
  }

  /** rename_at, replacing or not, keeps the invariant: no cycle, no lost count, no lost byte. */
  lemma RenameAtKeepsInv(fs: Fs, p: Id, n: Name, q: Id, o: Name)
    requires Inv(fs) && RenameAt(fs, p, n, q, o).Ok?
    ensures Inv(RenameAt(fs, p, n, q, o).value)
  {
    if Moves(fs, p, n, q, o) {
      var id := fs.inodes[p].kind.entries[n].inode;
      RenameIsReady(fs, p, n, q, o);
      MovesIsRelocatable(fs, p, n, q, o);
      RelocationKeepsInv(fs, p, n, q, o, id);
    }
  }

  lemma RelocationKeepsInv(fs: Fs, p: Id, n: Name, q: Id, o: Name, id: Id)
    requires Inv(fs) && Relocatable(fs.inodes, fs.root, p, n, q, o, id)
    requires o in fs.inodes[q].kind.entries ==> Removable(fs, q, o)
    ensures var gone := Displaced(fs, q, o);
            && HasEntry(gone.inodes, p, n, id) && IsDir(gone.inodes, q) && id in gone.inodes
            && Moved(gone.inodes, MoveEntry(gone, p, n, q, o, RenameCookie(fs, p, n, q)).inodes, p, n, q, o, id)
            && Inv(MoveEntry(gone, p, n, q, o, RenameCookie(fs, p, n, q)))
  {
    var gone := Displaced(fs, q, o);
    DisplacedFacts(fs, p, n, q, o, id);
    DisplacedKeepsInv(fs, p, n, q, o, id);
    DisplacedOffChain(fs, p, n, q, o, id);
    MoveEntryMoves(gone, p, n, q, o, id, RenameCookie(fs, p, n, q));
    MoveEntryKeepsInv(gone, MoveEntry(gone, p, n, q, o, RenameCookie(fs, p, n, q)), p, n, q, o, id);
  }

  // ------------------------------------------------------- contents and fids

  /** One inode changes, but not its place in the tree. */
  lemma TouchedTree(m: Arena, links: LinkIndex, root: Id, id: Id, v: Inode)
    requires TreeInv(m, links, root) && id in m
    requires v.parent == m[id].parent && v.linkCount == m[id].linkCount
    requires if m[id].kind.Directory? then v.kind == m[id].kind else !v.kind.Directory?
    ensures TreeInvBut(m[id := v], links, root, id)
  {
    TouchedEntries(m, links, root, id, v);
    TouchedCounts(m, links, root, id, v);
    TouchedDirectories(m, root, id, v);
    TouchedChains(m, root, id, v);
  }

  lemma TouchedEntries(m: Arena, links: LinkIndex, root: Id, id: Id, v: Inode)
    requires LinksAgree(m, links) && EntriesResolve(m, root) && id in m
    requires if m[id].kind.Directory? then v.kind == m[id].kind else !v.kind.Directory?
    ensures LinksAgree(m[id := v], links) && EntriesResolve(m[id := v], root)
  {
    assert forall q: Id, o: Name, x: Id :: HasEntry(m[id := v], q, o, x) <==> HasEntry(m, q, o, x);
  }

  lemma TouchedCounts(m: Arena, links: LinkIndex, root: Id, id: Id, v: Inode)
    requires CountsExact(m, links, root) && id in m && v.parent == m[id].parent && v.linkCount == m[id].linkCount
    requires m[id].kind.Directory? ==> v.kind.Directory?
    ensures CountsExactBut(m[id := v], links, root, id)
  {
  }

  lemma TouchedDirectories(m: Arena, root: Id, id: Id, v: Inode)
    requires DirectoriesShaped(m, root) && id in m && v.parent == m[id].parent && v.linkCount == m[id].linkCount
    requires if m[id].kind.Directory? then v.kind == m[id].kind else !v.kind.Directory?
    ensures DirectoriesShaped(m[id := v], root)
  {
    var after := m[id := v];
    forall p: Id, n: Name, d: Id | HasEntry(after, p, n, d) && IsDir(after, d) ensures after[d].parent == Some(p) {
      assert HasEntry(m, p, n, d) && IsDir(m, d);
    }
  }

  lemma TouchedChains(m: Arena, root: Id, id: Id, v: Inode)
    requires Rooted(m, root) && id in m && v.parent == m[id].parent && v.linkCount == m[id].linkCount
    requires v.kind.Directory? ==> m[id].kind.Directory?
    ensures Rooted(m[id := v], root)
  {
    var after := m[id := v];
    forall d | IsDir(after, d) && after[d].linkCount != 0 ensures exists s :: Chain(after, root, d, s) {
      var s :| Chain(m, root, d, s);
      ChainFrame(m, after, root, d, s);
    }
  }

  lemma SetBodyKeepsInv(fs: Fs, id: Id, body: seq<byte>)
    requires Inv(fs) && id in fs.inodes && fs.inodes[id].kind.File? && FileBytes(fs.inodes[id]) <= fs.logicalBytes
    ensures Inv(SetBody(fs, id, body))
  {
    var v := fs.inodes[id].(kind := File(body));
    TouchedTree(fs.inodes, fs.links, fs.root, id, v);
    SumPut(fs.inodes, FileBytes, fs.nextInode, id, v);
    SumPut(fs.inodes, EntryCount, fs.nextInode, id, v);
  }

  lemma WriteFileKeepsInv(fs: Fs, path: Path, bytes: seq<byte>)
    requires Inv(fs) && WriteFile(fs, path, bytes).Ok?
    ensures Inv(WriteFile(fs, path, bytes).value.0)
  {
    var up := Lookup(fs, path[..|path| - 1]).value;
    var name := path[|path| - 1];
    ResolvedIsLinked(fs.inodes, fs.links, fs.root, path[..|path| - 1]);
    if name in fs.inodes[up].kind.entries {
      var id := fs.inodes[up].kind.entries[name].inode;
      FileFitsTotal(fs, id);
      SetBodyKeepsInv(fs, id, bytes);
    } else {
      assert NameError(path[|path| - 1]).None?;
      InsertKeepsInv(fs, up, name, File(bytes));
    }
  }

  lemma WriteInodeKeepsInv(fs: Fs, id: Id, offset: nat, data: seq<byte>, append: bool)
    requires Inv(fs) && WriteInode(fs, id, offset, data, append).Ok?
    ensures Inv(WriteInode(fs, id, offset, data, append).value)
  {
    if data != [] {
      FileFitsTotal(fs, id);
      var body := fs.inodes[id].kind.body;
      SetBodyKeepsInv(fs, id, Patched(body, if append then |body| else offset, data));
    }
  }

  lemma TruncateKeepsInv(fs: Fs, id: Id, size: nat)
    requires Inv(fs) && Truncate(fs, id, size).Ok?
    ensures Inv(Truncate(fs, id, size).value)
  {
    FileFitsTotal(fs, id);
    SetBodyKeepsInv(fs, id, Resized(fs.inodes[id].kind.body, size));
  }

  lemma RefsKeepSums(fs: Fs, id: Id, refs: nat)
    requires SumsExact(fs) && id in fs.inodes
    ensures SumsExact(fs.(inodes := fs.inodes[id := fs.inodes[id].(fidRefs := refs)]))
  {
    var v := fs.inodes[id].(fidRefs := refs);
    SumPut(fs.inodes, FileBytes, fs.nextInode, id, v);
    SumPut(fs.inodes, EntryCount, fs.nextInode, id, v);
  }

  lemma HeldTree(m: Arena, links: LinkIndex, root: Id, id: Id)
    requires TreeInvBut(m, links, root, id) && id in m && (m[id].linkCount == 0 ==> m[id].fidRefs > 0)
    ensures TreeInv(m, links, root)
  {
  }

  lemma RetainFidKeepsInv(fs: Fs, id: Id)
    requires Inv(fs) && RetainFid(fs, id).Ok?
    ensures Inv(RetainFid(fs, id).value)
  {
    var refs := fs.inodes[id].fidRefs + 1;
    RetainKeepsTree(fs.inodes, fs.links, fs.root, id, refs);
    RefsKeepSums(fs, id, refs);
    RefsKeepLocks(fs, id, refs);
  }

  lemma RetainKeepsTree(m: Arena, links: LinkIndex, root: Id, id: Id, refs: nat)
    requires TreeInv(m, links, root) && id in m && refs > 0
    ensures TreeInv(m[id := m[id].(fidRefs := refs)], links, root)
  {
    var v := m[id].(fidRefs := refs);
    TouchedTree(m, links, root, id, v);
    HeldTree(m[id := v], links, root, id);
  }

  lemma RefsKeepLocks(fs: Fs, id: Id, refs: nat)
    requires LocksOnFiles(fs.inodes, fs.locks) && id in fs.inodes
    ensures LocksOnFiles(fs.inodes[id := fs.inodes[id].(fidRefs := refs)], fs.locks)
  {
  }

  lemma ReclaimKeepsRest(fs: Fs, id: Id)
    requires SumsExact(fs) && LocksOnFiles(fs.inodes, fs.locks) && id in fs.inodes
    requires EntryCount(fs.inodes[id]) == 0 && FileBytes(fs.inodes[id]) <= fs.logicalBytes
    ensures SumsExact(Reclaim(fs, id)) && LocksOnFiles(Reclaim(fs, id).inodes, Reclaim(fs, id).locks)
  {
    SumDrop(fs.inodes, FileBytes, fs.nextInode, id);
    SumDrop(fs.inodes, EntryCount, fs.nextInode, id);
    ByteLocks.DropInodeKeepsValid(fs.locks, id);
  }

  lemma ReclaimedInv(fs: Fs, id: Id)
    requires TreeInvBut(fs.inodes, fs.links, fs.root, id) && SumsExact(fs) && LocksOnFiles(fs.inodes, fs.locks)
    requires id in fs.inodes && fs.inodes[id].linkCount == 0 && FileBytes(fs.inodes[id]) <= fs.logicalBytes
    ensures Inv(Reclaim(fs, id).(links := fs.links - {id}))
  {
    ReclaimedTree(fs.inodes, fs.links, fs.root, id);
    assert fs.links - {id} == fs.links;
    ReclaimKeepsRest(fs, id);
  }

  /** Releasing the last fid of an unlinked inode reclaims it with its bytes and locks. */
  lemma ReleaseFidKeepsInv(fs: Fs, id: Id)
    requires Inv(fs) && ReleaseFid(fs, id).Ok?
    ensures Inv(ReleaseFid(fs, id).value)
  {
    var v := fs.inodes[id].(fidRefs := fs.inodes[id].fidRefs - 1);
    var fs1 := fs.(inodes := fs.inodes[id := v]);
    TouchedTree(fs.inodes, fs.links, fs.root, id, v);
    RefsKeepSums(fs, id, v.fidRefs);
    RefsKeepLocks(fs, id, v.fidRefs);
    if v.fidRefs == 0 && v.linkCount == 0 {
      FileFitsTotal(fs, id);
      ReclaimedInv(fs1, id);
    } else {
      HeldTree(fs1.inodes, fs.links, fs.root, id);
    }
  }

  // ------------------------------------------------------------- whole arenas

  lemma SingletonRootIsInv(fs: Fs)
    requires fs.inodes == map[fs.root := NewRoot()] && fs.links == map[] && fs.root < fs.nextInode
    requires fs.logicalBytes == 0 && fs.directoryEntries == 0 && fs.locks == []
    ensures Inv(fs)
  {
    var m := fs.inodes;
    assert forall p: Id, n: Name, id: Id :: !HasEntry(m, p, n, id);
    forall i ensures Climbs(m, [fs.root], i) {}
    assert Chain(m, fs.root, fs.root, [fs.root]);
    SumOfRoot(m, FileBytes, fs.nextInode, fs.root);
    SumOfRoot(m, EntryCount, fs.nextInode, fs.root);
  }

  lemma {:induction false} SumOfRoot(m: Arena, w: Inode -> nat, n: nat, root: Id)
    requires m == map[root := NewRoot()] && w(NewRoot()) == 0
    ensures SumBelow(m, w, n) == 0
  {
    if n > 0 { SumOfRoot(m, w, n - 1, root); }
  }

  lemma NewFsIsInv(limits: Limits)
    ensures Inv(NewFs(limits))
  {
    SingletonRootIsInv(NewFs(limits));
  }

  /** A namespace reset leaves a sound tree whose every identity is new. */
  lemma ResetKeepsInv(fs: Fs)
    requires Inv(fs) && Reset(fs).Ok?
    ensures Inv(Reset(fs).value) && Reset(fs).value.generation > fs.generation
    ensures forall id :: id in Reset(fs).value.inodes ==> id >= fs.nextInode
  {
    SingletonRootIsInv(Reset(fs).value);
  }

  lemma TryLockKeepsInv(fs: Fs, requested: ByteLocks.Lock)
    requires Inv(fs) && TryLock(fs, requested).Ok?
    ensures Inv(TryLock(fs, requested).value.0)
  {
    if ByteLocks.Acquire(fs.locks, requested).Some? {
      ByteLocks.AcquireKeepsValid(fs.locks, requested);
      SubtractOnFiles(fs, requested);
    }
  }

  lemma SubtractOnFiles(fs: Fs, cut: ByteLocks.Lock)
    requires LocksOnFiles(fs.inodes, fs.locks)
    ensures forall l :: l in ByteLocks.Subtract(fs.locks, cut) ==> l.inode in fs.inodes && fs.inodes[l.inode].kind.File?
  {
    forall l | l in ByteLocks.Subtract(fs.locks, cut) ensures l.inode in fs.inodes && fs.inodes[l.inode].kind.File? {
      var k :| 0 <= k < |ByteLocks.Subtract(fs.locks, cut)| && ByteLocks.Subtract(fs.locks, cut)[k] == l;
      var i := ByteLocks.SubtractResidue(fs.locks, cut, k);
      assert fs.locks[i] in fs.locks;
    }
  }

  lemma UnlockKeepsInv(fs: Fs, cut: ByteLocks.Lock)
    requires Inv(fs) && Unlock(fs, cut).Ok?
    ensures Inv(Unlock(fs, cut).value)
  {
    ByteLocks.UnlockKeepsValid(fs.locks, cut);
    SubtractOnFiles(fs, cut);
  }

  lemma ReleaseSessionLocksKeepsInv(fs: Fs, session: nat)
    requires Inv(fs)
    ensures Inv(ReleaseSessionLocks(fs, session))
  {
    ByteLocks.ReleaseSessionKeepsValid(fs.locks, session);
  }
}
