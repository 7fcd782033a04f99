/** The two whole-tree walks of src/ninep.rs: every path of an inode, and the recursive clear. */
module NamespaceWalks {
  import opened Arithmetic
  import opened Wrappers
  import opened Namespace
  import opened NamespaceInvariant
  import ByteLocks

  // -------------------------------------------------------------------- paths

  /** A stack item of the backwards walk: `suffix` leads from `id` down to the target. */
  datatype Climb = Climb(id: Id, suffix: Path)

  /** The item one link further up. */
  function Above(l: (Id, Name), suffix: Path): Climb {
    Climb(l.0, [l.1] + suffix)
  }

  /** The item stands for the path `p`: some path of its inode, continued by its suffix. */
  ghost predicate Stands(m: Arena, root: Id, c: Climb, p: Path) {
    && |c.suffix| <= |p|
    && p[|p| - |c.suffix|..] == c.suffix
    && Resolve(m, root, p[..|p| - |c.suffix|]) == Ok(c.id)
  }

  /** The items stand for exactly the target's paths, and no path twice. */
  ghost predicate Partition(m: Arena, root: Id, target: Id, items: seq<Climb>) {
    && (forall p :: Resolve(m, root, p) == Ok(target) <==> exists i :: 0 <= i < |items| && Stands(m, root, items[i], p))
    && NoPathTwice(m, root, items)
  }

  /** Only the empty path leads to the root. */
  lemma RootHasOnePath(m: Arena, links: LinkIndex, root: Id, p: Path)
    requires TreeInv(m, links, root)
    ensures Resolve(m, root, p) == Ok(root) <==> p == []
  {
    if p != [] && Resolve(m, root, p) == Ok(root) {
      var up := Resolve(m, root, p[..|p| - 1]).value;
      assert HasEntry(m, up, p[|p| - 1], root);
    }
  }

  lemma StartPartition(m: Arena, root: Id, target: Id)
    ensures Partition(m, root, target, [Climb(target, [])])
  {
    var items := [Climb(target, [])];
    forall p ensures Resolve(m, root, p) == Ok(target)
                     <==> exists i :: 0 <= i < |items| && Stands(m, root, items[i], p) {
      assert Stands(m, root, items[0], p) <==> Resolve(m, root, p) == Ok(target) by { assert p[..|p| - 0] == p; }
    }
  }

  /** One step up: a path of an inode other than the root ends in exactly one of its links. */
  lemma StandsViaLink(m: Arena, links: LinkIndex, root: Id, c: Climb, p: Path)
    requires TreeInv(m, links, root) && c.id != root
    ensures Stands(m, root, c, p) <==>
            exists l :: l in LinksOf(links, c.id) && Stands(m, root, Above(l, c.suffix), p)
  {
    if Stands(m, root, c, p) { LinkAbove(m, links, root, c, p); }
    if l :| l in LinksOf(links, c.id) && Stands(m, root, Above(l, c.suffix), p) { LinkBelow(m, root, l, c, p); }
  }

  lemma LinkAbove(m: Arena, links: LinkIndex, root: Id, c: Climb, p: Path)
    requires LinksAgree(m, links) && c.id != root && Stands(m, root, c, p)
    ensures exists l :: l in LinksOf(links, c.id) && Stands(m, root, Above(l, c.suffix), p)
  {
    var k := |p| - |c.suffix|;
    var q := p[..k];
    assert k > 0;
    var l := (Resolve(m, root, q[..k - 1]).value, q[k - 1]);
    assert HasEntry(m, l.0, l.1, c.id);
    assert q[..k - 1] == p[..k - 1];
    assert p[k - 1..] == [l.1] + c.suffix;
    assert l in LinksOf(links, c.id);
    assert Stands(m, root, Above(l, c.suffix), p);
  }

  lemma LinkBelow(m: Arena, root: Id, l: (Id, Name), c: Climb, p: Path)
    requires HasEntry(m, l.0, l.1, c.id) && Stands(m, root, Above(l, c.suffix), p)
    ensures Stands(m, root, c, p)
  {
    var k := |p| - |c.suffix|;
    assert p[k - 1..] == [l.1] + c.suffix;
    assert p[k..] == p[k - 1..][1..] == c.suffix;
    assert p[..k][..k - 1] == p[..k - 1] && p[..k][k - 1] == l.1;
  }

  lemma StandsApart(m: Arena, root: Id, a: (Id, Name), b: (Id, Name), suffix: Path, p: Path)
    requires Stands(m, root, Above(a, suffix), p) && Stands(m, root, Above(b, suffix), p)
    ensures a == b
  {
    var k := |p| - |suffix| - 1;
    assert p[k..][0] == a.1 && p[k..][0] == b.1;
  }

  /** `pushed` enumerates the links of c's inode, each once, as items one step higher. */
  ghost predicate Pushed(links: set<(Id, Name)>, suffix: Path, pushed: seq<Climb>) {
    && (forall l :: l in links ==> Above(l, suffix) in pushed)
    && (forall i :: 0 <= i < |pushed| ==> exists l :: l in links && pushed[i] == Above(l, suffix))
    && (forall i, j :: 0 <= i < j < |pushed| ==> pushed[i] != pushed[j])
  }

  lemma PushedStands(m: Arena, links: LinkIndex, root: Id, c: Climb, pushed: seq<Climb>, p: Path)
    requires TreeInv(m, links, root) && c.id != root && Pushed(LinksOf(links, c.id), c.suffix, pushed)
    ensures Stands(m, root, c, p) <==> exists i :: 0 <= i < |pushed| && Stands(m, root, pushed[i], p)
  {
    StandsViaLink(m, links, root, c, p);
    if Stands(m, root, c, p) {
      var l :| l in LinksOf(links, c.id) && Stands(m, root, Above(l, c.suffix), p);
      var i :| 0 <= i < |pushed| && pushed[i] == Above(l, c.suffix);
    }
    if i :| 0 <= i < |pushed| && Stands(m, root, pushed[i], p) {
      var l :| l in LinksOf(links, c.id) && pushed[i] == Above(l, c.suffix);
    }
  }

  lemma PushedApart(m: Arena, root: Id, links: set<(Id, Name)>, suffix: Path, pushed: seq<Climb>, i: nat, j: nat,
                    p: Path)
    requires Pushed(links, suffix, pushed) && i < j < |pushed|
    ensures !(Stands(m, root, pushed[i], p) && Stands(m, root, pushed[j], p))
  {
    assert pushed[i] in pushed;
    var a: (Id, Name) :| a in links && pushed[i] == Above(a, suffix);
    var b: (Id, Name) :| b in links && pushed[j] == Above(b, suffix);
    if Stands(m, root, pushed[i], p) && Stands(m, root, pushed[j], p) { StandsApart(m, root, a, b, suffix, p); }
  }

  ghost predicate NoPathTwice(m: Arena, root: Id, items: seq<Climb>) {
    forall i, j, p {:trigger Stands(m, root, items[i], p), Stands(m, root, items[j], p)} |
      0 <= i < j < |items| && Stands(m, root, items[i], p) :: !Stands(m, root, items[j], p)
  }

  lemma StepNoPathTwice(m: Arena, links: LinkIndex, root: Id,
                        before: seq<Climb>, c: Climb, pushed: seq<Climb>, found: seq<Climb>, i: nat, j: nat, p: Path)
    requires TreeInv(m, links, root) && c.id != root && Pushed(LinksOf(links, c.id), c.suffix, pushed)
    requires NoPathTwice(m, root, before + [c] + found) && i < j < |before + pushed + found|
    ensures !(Stands(m, root, (before + pushed + found)[i], p) && Stands(m, root, (before + pushed + found)[j], p))
  {
    if |before| <= i && j < |before| + |pushed| {
      PushedApart(m, root, LinksOf(links, c.id), c.suffix, pushed, i - |before|, j - |before|, p);
    } else {
      PushedStands(m, links, root, c, pushed, p);
      OriginsApart(m, root, before, c, pushed, found, i, j, p);
    }
  }

  lemma OriginsApart(m: Arena, root: Id, before: seq<Climb>, c: Climb, pushed: seq<Climb>, found: seq<Climb>,
                     i: nat, j: nat, p: Path)
    requires Stands(m, root, c, p) <==> exists k :: 0 <= k < |pushed| && Stands(m, root, pushed[k], p)
    requires NoPathTwice(m, root, before + [c] + found) && i < j < |before + pushed + found|
    requires !(|before| <= i && j < |before| + |pushed|)
    ensures !(Stands(m, root, (before + pushed + found)[i], p) && Stands(m, root, (before + pushed + found)[j], p))
  {
    OriginStands(m, root, before, c, pushed, found, i, p);
    OriginStands(m, root, before, c, pushed, found, j, p);
  }

  /** Replacing an item by its links keeps the partition. */
  lemma StepPartition(m: Arena, links: LinkIndex, root: Id, target: Id,
                      before: seq<Climb>, c: Climb, pushed: seq<Climb>, found: seq<Climb>)
    requires TreeInv(m, links, root) && c.id != root && Pushed(LinksOf(links, c.id), c.suffix, pushed)
    requires Partition(m, root, target, before + [c] + found)
    ensures Partition(m, root, target, before + pushed + found)
  {
    var news := before + pushed + found;
    forall p ensures Resolve(m, root, p) == Ok(target) <==> exists i :: 0 <= i < |news| && Stands(m, root, news[i], p) {
      PushedStands(m, links, root, c, pushed, p);
      StepStands(m, root, before, c, pushed, found, p);
    }
    forall i, j, p | 0 <= i < j < |news| && Stands(m, root, news[i], p) ensures !Stands(m, root, news[j], p) {
      StepNoPathTwice(m, links, root, before, c, pushed, found, i, j, p);
    }
  }

  /** Position in the old list of what position i of the new list came from. */
  function Origin(before: nat, pushed: nat, i: nat): nat {
    if i < before then i else if i < before + pushed then before else i - pushed + 1
  }

  lemma OriginStands(m: Arena, root: Id, before: seq<Climb>, c: Climb, pushed: seq<Climb>, found: seq<Climb>,
                     i: nat, p: Path)
    requires i < |before + pushed + found|
    requires Stands(m, root, c, p) <==> exists k :: 0 <= k < |pushed| && Stands(m, root, pushed[k], p)
    ensures Origin(|before|, |pushed|, i) < |before + [c] + found|
    ensures Stands(m, root, (before + pushed + found)[i], p) ==>
              Stands(m, root, (before + [c] + found)[Origin(|before|, |pushed|, i)], p)
  {
    if |before| <= i < |before| + |pushed| {
      assert pushed[i - |before|] == (before + pushed + found)[i];
    }
  }

  lemma StepStands(m: Arena, root: Id, before: seq<Climb>, c: Climb, pushed: seq<Climb>, found: seq<Climb>, p: Path)
    requires Stands(m, root, c, p) <==> exists i :: 0 <= i < |pushed| && Stands(m, root, pushed[i], p)
    ensures (exists i :: 0 <= i < |before + [c] + found| && Stands(m, root, (before + [c] + found)[i], p))
            <==> (exists i :: 0 <= i < |before + pushed + found| && Stands(m, root, (before + pushed + found)[i], p))
  {
    var olds, news := before + [c] + found, before + pushed + found;
    if i :| 0 <= i < |olds| && Stands(m, root, olds[i], p) {
      if i < |before| {
        assert news[i] == olds[i];
      } else if i == |before| {
        var k :| 0 <= k < |pushed| && Stands(m, root, pushed[k], p);
        assert news[|before| + k] == pushed[k];
      } else {
        assert news[i - 1 + |pushed|] == olds[i];
      }
    }
    if i :| 0 <= i < |news| && Stands(m, root, news[i], p) {
      OriginStands(m, root, before, c, pushed, found, i, p);
    }
  }

  lemma FinishedPaths(m: Arena, links: LinkIndex, root: Id, target: Id, found: seq<Climb>, p: Path)
    requires TreeInv(m, links, root) && Partition(m, root, target, found)
    requires forall i :: 0 <= i < |found| ==> found[i].id == root
    ensures Resolve(m, root, p) == Ok(target) <==> Climb(root, p) in found
    ensures forall i, j :: 0 <= i < j < |found| ==> found[i] != found[j]
  {
    forall i | 0 <= i < |found| ensures Stands(m, root, found[i], p) <==> found[i].suffix == p {
      RootHasOnePath(m, links, root, p[..if |found[i].suffix| <= |p| then |p| - |found[i].suffix| else 0]);
    }
    forall i, j | 0 <= i < j < |found| ensures found[i] != found[j] {
      RootHasOnePath(m, links, root, []);
      var q := found[i].suffix;
      assert q[..|q| - |q|] == [] && q[|q| - |q|..] == q;
      assert Stands(m, root, found[i], q);
    }
  }

  /** Valid names only: a path that resolves passes the checks of lookup. */
  lemma {:induction false} ResolvedPathIsValid(m: Arena, root: Id, p: Path)
    requires EntriesResolve(m, root) && Resolve(m, root, p).Ok?
    ensures PathError(p).None?
  {
    if p != [] {
      var up := Resolve(m, root, p[..|p| - 1]).value;
      ResolvedPathIsValid(m, root, p[..|p| - 1]);
      assert HasEntry(m, up, p[|p| - 1], Resolve(m, root, p).value);
      forall i | 0 <= i < |p| ensures NameError(p[i]).None? {
        if i < |p| - 1 { assert p[..|p| - 1][i] == p[i]; }
      }
    }
  }

  // ------------------------------------------------------ the walk terminates

  ghost function Depth(m: Arena, root: Id, d: Id): nat {
    if exists s :: Chain(m, root, d, s) then
      var s :| Chain(m, root, d, s); |s|
    else 0
  }

  lemma DepthIs(m: Arena, root: Id, d: Id, s: seq<Id>)
    requires root in m && m[root].parent == None && Chain(m, root, d, s)
    ensures Depth(m, root, d) == |s|
  {
    var t :| Chain(m, root, d, t) && Depth(m, root, d) == |t|;
    ChainUnique(m, root, d, s, t);
  }

  lemma ParentIsShallower(m: Arena, links: LinkIndex, root: Id, p: Id, n: Name, d: Id)
    requires TreeInv(m, links, root) && HasEntry(m, p, n, d) && IsDir(m, d)
    ensures Depth(m, root, p) < Depth(m, root, d)
  {
    assert (p, n) in LinksOf(links, d);
    var s :| Chain(m, root, d, s);
    assert Climbs(m, s, 0);
    ChainTail(m, root, d, s, 1);
    DepthIs(m, root, d, s);
    DepthIs(m, root, p, s[1..]);
  }

  ghost function TotalDepth(m: Arena, root: Id, items: seq<Climb>): nat {
    if items == [] then 0 else TotalDepth(m, root, items[..|items| - 1]) + Depth(m, root, items[|items| - 1].id)
  }

  lemma TotalDepthConcat(m: Arena, root: Id, xs: seq<Climb>, ys: seq<Climb>)
    ensures TotalDepth(m, root, xs + ys) == TotalDepth(m, root, xs) + TotalDepth(m, root, ys)
    decreases |ys|
  {
    if ys == [] {
      assert xs + ys == xs;
    } else {
      assert (xs + ys)[..|xs + ys| - 1] == xs + ys[..|ys| - 1];
      TotalDepthConcat(m, root, xs, ys[..|ys| - 1]);
    }
  }

  lemma PushedAtMostOne(links: set<(Id, Name)>, suffix: Path, pushed: seq<Climb>)
    requires Pushed(links, suffix, pushed) && |links| <= 1
    ensures |pushed| <= 1
  {
    if |pushed| > 1 {
      assert pushed[0] in pushed && pushed[1] in pushed;
      var a: (Id, Name) :| a in links && pushed[0] == Above(a, suffix);
      var b: (Id, Name) :| b in links && pushed[1] == Above(b, suffix);
      assert {a, b} <= links;
      SubsetSize({a, b}, links);
    }
  }

  /** Climbing one level from a directory makes the stack shallower in total. */
  lemma ClimbShrinks(m: Arena, links: LinkIndex, root: Id, c: Climb, pushed: seq<Climb>)
    requires TreeInv(m, links, root) && IsDir(m, c.id) && c.id != root
    requires Pushed(LinksOf(links, c.id), c.suffix, pushed)
    ensures pushed == [] || TotalDepth(m, root, pushed) < Depth(m, root, c.id)
  {
    PushedAtMostOne(LinksOf(links, c.id), c.suffix, pushed);
    if pushed != [] {
      assert pushed[0] in pushed;
      var l: (Id, Name) :| l in LinksOf(links, c.id) && pushed[0] == Above(l, c.suffix);
      ParentIsShallower(m, links, root, l.0, l.1, c.id);
      assert pushed == [pushed[0]];
    }
  }

  // ---------------------------------------------------------- path text order

  /** The text of a path: its names separated by slashes. */
  function Joined(p: Path): string {
    if p == [] then "" else if |p| == 1 then p[0] else p[0] + "/" + Joined(p[1..])
  }

  /** Byte-wise order of two texts. */
  predicate TextLe(a: string, b: string) {
    a == [] || (b != [] && (a[0] < b[0] || (a[0] == b[0] && TextLe(a[1..], b[1..]))))
  }

  lemma {:induction false} TextLeTotal(a: string, b: string)
    ensures TextLe(a, b) || TextLe(b, a)
  {
    if a != [] && b != [] && a[0] == b[0] { TextLeTotal(a[1..], b[1..]); }
  }

  lemma {:induction false} TextLeTransitive(a: string, b: string, c: string)
    requires TextLe(a, b) && TextLe(b, c)
    ensures TextLe(a, c)
  {
    if a != [] && a[0] == b[0] == c[0] { TextLeTransitive(a[1..], b[1..], c[1..]); }
  }

  predicate PathLe(p: Path, q: Path) {
    TextLe(Joined(p), Joined(q))
  }

  ghost predicate SortedPaths(ps: seq<Path>) {
    forall i, j :: 0 <= i < j < |ps| ==> PathLe(ps[i], ps[j])
  }

  lemma {:induction false} SameHead(a: string, x: string, b: string, y: string)
    requires '/' !in a && '/' !in b && (x == "" || x[0] == '/') && (y == "" || y[0] == '/') && a + x == b + y
    ensures a == b && x == y
  {
    if a == "" || b == "" {
      assert a == "" ==> a + x == x;
      assert b == "" ==> b + y == y;
    } else {
      assert (a + x)[0] == a[0] && (b + y)[0] == b[0];
      assert a[1..] + x == (a + x)[1..] && b[1..] + y == (b + y)[1..];
      SameHead(a[1..], x, b[1..], y);
      assert a == [a[0]] + a[1..] && b == [b[0]] + b[1..];
    }
  }

  /** Paths of valid names are told apart by their text. */
  lemma {:induction false} JoinedIsInjective(p: Path, q: Path)
    requires forall i :: 0 <= i < |p| ==> NameError(p[i]).None?
    requires forall i :: 0 <= i < |q| ==> NameError(q[i]).None?
    requires Joined(p) == Joined(q)
    ensures p == q
  {
    if p != [] && q != [] {
      var x := if |p| == 1 then "" else "/" + Joined(p[1..]);
      var y := if |q| == 1 then "" else "/" + Joined(q[1..]);
      assert Joined(p) == p[0] + x && Joined(q) == q[0] + y;
      SameHead(p[0], x, q[0], y);
      if |p| > 1 && |q| > 1 {
        assert Joined(p[1..]) == x[1..] && Joined(q[1..]) == y[1..];
        JoinedIsInjective(p[1..], q[1..]);
        assert p == [p[0]] + p[1..] && q == [q[0]] + q[1..];
      } else {
        assert |p| == |q| == 1;
      }
    }
  }

  // -------------------------------------------------------------------- clear

  ghost predicate SameContent(a: Kind, b: Kind) {
    if a.Directory? then b.Directory? && b.nextCookie == a.nextCookie else b == a
  }

  /** `b` is `a` after some entries were removed: only unheld inodes can be gone. */
  ghost predicate Pruned(a: Fs, b: Fs) {
    && b == a.(inodes := b.inodes, links := b.links, logicalBytes := b.logicalBytes,
               directoryEntries := b.directoryEntries, locks := b.locks)
    && (forall id :: id in b.inodes ==> id in a.inodes && b.inodes[id].fidRefs == a.inodes[id].fidRefs
                                        && SameContent(a.inodes[id].kind, b.inodes[id].kind))
    && (forall id :: id in a.inodes && id !in b.inodes ==> a.inodes[id].fidRefs == 0)
    && (forall l :: l in b.locks <==> l in a.locks && l.inode in b.inodes)
    && (forall p: Id, n: Name, id: Id :: HasEntry(b.inodes, p, n, id) ==> HasEntry(a.inodes, p, n, id))
  }

  lemma PrunedTransitive(a: Fs, b: Fs, c: Fs)
    requires Pruned(a, b) && Pruned(b, c)
    ensures Pruned(a, c)
  {
  }

  lemma RemovePrunes(fs: Fs, p: Id, n: Name)
    requires Removable(fs, p, n) && LocksOnFiles(fs.inodes, fs.locks)
    ensures Pruned(fs, RemoveEntry(fs, p, n))
  {
    ByteLocks.DropInodeKeepsValid(fs.locks, fs.inodes[p].kind.entries[n].inode);
  }

  lemma RemoveTakesOneEntry(fs: Fs, p: Id, n: Name)
    requires Removable(fs, p, n)
    requires var id := fs.inodes[p].kind.entries[n].inode;
             fs.inodes[id].kind.Directory? ==> fs.inodes[id].kind.entries == map[]
    ensures forall q: Id, o: Name, x: Id ::
              HasEntry(RemoveEntry(fs, p, n).inodes, q, o, x) <==> HasEntry(fs.inodes, q, o, x) && !(q == p && o == n)
  {
  }

  /** The gathered removals of the visited directories, each entry before its own directory's entries. */
  ghost predicate Listing(m: Arena, visited: set<Id>, r: seq<(Id, Name)>) {
    && (forall i, j :: 0 <= i < j < |r| ==> r[i] != r[j])
    && (forall p: Id, n: Name :: (p, n) in r <==> p in visited && IsDir(m, p) && n in m[p].kind.entries)
    && (forall i, j :: 0 <= i < |r| && 0 <= j < |r| && HasEntry(m, r[i].0, r[i].1, r[j].0) ==> i < j)
  }

  /** Every visited or waiting directory other than the root was found through a listed entry. */
  ghost predicate Frontier(m: Arena, root: Id, visited: set<Id>, waiting: seq<Id>, r: seq<(Id, Name)>) {
    && (forall d :: d in visited || d in waiting ==> IsDir(m, d))
    && (forall d :: d in waiting ==> d !in visited)
    && (forall i, j :: 0 <= i < j < |waiting| ==> waiting[i] != waiting[j])
    && (root in visited || root in waiting)
    && (forall d :: (d in visited || d in waiting) && d != root ==> Found(m, r, d))
    && (forall p: Id, n: Name, d: Id :: p in visited && HasEntry(m, p, n, d) && IsDir(m, d) ==>
          d in visited || d in waiting)
  }

  /** What one directory contributes: its entries once each, and its sub-directories once each. */
  ghost predicate Scanned(m: Arena, d: Id, pairs: seq<(Id, Name)>, subs: seq<Id>) {
    && IsDir(m, d)
    && (forall i, j :: 0 <= i < j < |pairs| ==> pairs[i] != pairs[j])
    && (forall p: Id, n: Name :: (p, n) in pairs <==> p == d && n in m[d].kind.entries)
    && (forall i, j :: 0 <= i < j < |subs| ==> subs[i] != subs[j])
    && (forall x :: x in subs <==> IsDir(m, x) && exists n :: HasEntry(m, d, n, x))
  }

  lemma SubsAreNew(m: Arena, links: LinkIndex, root: Id, visited: set<Id>, rest: seq<Id>, d: Id, r: seq<(Id, Name)>,
                   x: Id, n: Name)
    requires TreeInv(m, links, root) && Listing(m, visited, r) && Frontier(m, root, visited, rest + [d], r)
    requires HasEntry(m, d, n, x) && IsDir(m, x)
    ensures x != d && x !in visited && x !in rest && x != root
  {
    NoSelfEntry(m, links, root, d, n);
    OnlyEntry(m, links, root, d, n, x);
    assert d in rest + [d] && d !in visited;
    assert x in rest ==> x in rest + [d];
    forall l: (Id, Name) | l in r ensures !HasEntry(m, l.0, l.1, x) { assert (l.0, l.1) in r; }
  }

  lemma VisitKeepsListing(m: Arena, links: LinkIndex, root: Id, visited: set<Id>, rest: seq<Id>, d: Id,
                          r: seq<(Id, Name)>, pairs: seq<(Id, Name)>, subs: seq<Id>)
    requires TreeInv(m, links, root) && Listing(m, visited, r) && Frontier(m, root, visited, rest + [d], r)
    requires Scanned(m, d, pairs, subs)
    ensures Listing(m, visited + {d}, r + pairs)
  {
    var all := r + pairs;
    assert d in rest + [d] && d !in visited;
    forall p: Id, n: Name ensures (p, n) in all <==> p in visited + {d} && IsDir(m, p) && n in m[p].kind.entries {}
    ListedOnce(m, visited, d, r, pairs, subs);
    forall i, j | 0 <= i < |all| && 0 <= j < |all| && HasEntry(m, all[i].0, all[i].1, all[j].0) ensures i < j {
      VisitOrder(m, links, root, visited, rest, d, r, pairs, subs, i, j);
    }
  }

  lemma ListedOnce(m: Arena, visited: set<Id>, d: Id, r: seq<(Id, Name)>, pairs: seq<(Id, Name)>, subs: seq<Id>)
    requires Listing(m, visited, r) && Scanned(m, d, pairs, subs) && d !in visited
    ensures forall i, j :: 0 <= i < j < |r + pairs| ==> (r + pairs)[i] != (r + pairs)[j]
  {
    var all := r + pairs;
    forall i, j | 0 <= i < j < |all| ensures all[i] != all[j] {
      if i < |r| && j >= |r| {
        assert pairs[j - |r|] in pairs && (pairs[j - |r|].0, pairs[j - |r|].1) in pairs;
        assert r[i] in r && (r[i].0, r[i].1) in r;
      }
    }
  }

  lemma VisitOrder(m: Arena, links: LinkIndex, root: Id, visited: set<Id>, rest: seq<Id>, d: Id,
                   r: seq<(Id, Name)>, pairs: seq<(Id, Name)>, subs: seq<Id>, i: nat, j: nat)
    requires TreeInv(m, links, root) && Listing(m, visited, r) && Frontier(m, root, visited, rest + [d], r)
    requires Scanned(m, d, pairs, subs) && i < |r + pairs| && j < |r + pairs|
    requires HasEntry(m, (r + pairs)[i].0, (r + pairs)[i].1, (r + pairs)[j].0)
    ensures i < j
  {
    if i >= |r| {
      var e, f := (r + pairs)[i], (r + pairs)[j];
      assert e == pairs[i - |r|] && e in pairs && (e.0, e.1) in pairs;
      assert f in r + pairs && (f in r ==> (f.0, f.1) in r) && (f in pairs ==> (f.0, f.1) in pairs);
      assert IsDir(m, f.0);
      SubsAreNew(m, links, root, visited, rest, d, r, f.0, e.1);
    }
  }

  lemma VisitKeepsFrontier(m: Arena, links: LinkIndex, root: Id, visited: set<Id>, rest: seq<Id>, d: Id,
                           r: seq<(Id, Name)>, pairs: seq<(Id, Name)>, subs: seq<Id>)
    requires TreeInv(m, links, root) && Listing(m, visited, r) && Frontier(m, root, visited, rest + [d], r)
    requires Scanned(m, d, pairs, subs)
    ensures Frontier(m, root, visited + {d}, rest + subs, r + pairs)
  {
    var stack, stack' := rest + [d], rest + subs;
    assert d == stack[|rest|] && d in stack;
    forall x | x in subs ensures x != d && x !in visited && x !in rest && x != root && Found(m, r + pairs, x) {
      SubIsFound(m, links, root, visited, rest, d, r, pairs, subs, x);
    }
    assert forall x :: x in stack <==> x in rest || x == d;
    assert forall x :: x in stack' <==> x in rest || x in subs;
    WaitingStaysDistinct(rest, d, subs);
    forall x | (x in visited + {d} || x in stack') && x != root ensures Found(m, r + pairs, x) {
      if x !in subs {
        assert x in visited || x in stack;
        StillFound(m, r, pairs, x);
      }
    }
    forall p: Id, n: Name, x: Id | p in visited + {d} && HasEntry(m, p, n, x) && IsDir(m, x)
      ensures x in visited + {d} || x in stack' {
      if p != d { assert x in visited || x in stack; }
    }
  }

  /** Directory x was found through a listed entry. */
  ghost predicate Found(m: Arena, r: seq<(Id, Name)>, x: Id) {
    exists l :: l in r && HasEntry(m, l.0, l.1, x)
  }

  lemma StillFound(m: Arena, r: seq<(Id, Name)>, pairs: seq<(Id, Name)>, x: Id)
    requires Found(m, r, x)
    ensures Found(m, r + pairs, x)
  {
    var l: (Id, Name) :| l in r && HasEntry(m, l.0, l.1, x);
    assert l in r + pairs;
  }

  lemma SubIsFound(m: Arena, links: LinkIndex, root: Id, visited: set<Id>, rest: seq<Id>, d: Id,
                   r: seq<(Id, Name)>, pairs: seq<(Id, Name)>, subs: seq<Id>, x: Id)
    requires TreeInv(m, links, root) && Listing(m, visited, r) && Frontier(m, root, visited, rest + [d], r)
    requires Scanned(m, d, pairs, subs) && x in subs
    ensures x != d && x !in visited && x !in rest && x != root && Found(m, r + pairs, x)
  {
    var n :| HasEntry(m, d, n, x);
    SubsAreNew(m, links, root, visited, rest, d, r, x, n);
    assert (d, n) in pairs && (d, n) in r + pairs;
  }

  lemma WaitingStaysDistinct(rest: seq<Id>, d: Id, subs: seq<Id>)
    requires forall i, j :: 0 <= i < j < |rest + [d]| ==> (rest + [d])[i] != (rest + [d])[j]
    requires forall i, j :: 0 <= i < j < |subs| ==> subs[i] != subs[j]
    requires forall x :: x in subs ==> x !in rest
    ensures d !in rest
    ensures forall i, j :: 0 <= i < j < |rest + subs| ==> (rest + subs)[i] != (rest + subs)[j]
  {
    var stack, stack' := rest + [d], rest + subs;
    assert d !in rest by {
      assert forall k :: 0 <= k < |rest| ==> stack[k] == rest[k] && stack[k] != stack[|rest|];
    }
    forall i, j | 0 <= i < j < |stack'| ensures stack'[i] != stack'[j] {
      if j < |rest| { assert stack[i] != stack[j]; }
      else if i < |rest| { assert rest[i] in rest && subs[j - |rest|] in subs; }
      else { assert subs[i - |rest|] != subs[j - |rest|]; }
    }
  }

  /** With nothing left waiting, every linked directory was visited. */
  lemma {:induction false} AllVisited(m: Arena, links: LinkIndex, root: Id, visited: set<Id>, r: seq<(Id, Name)>,
                                      d: Id, s: seq<Id>)
    requires TreeInv(m, links, root) && Frontier(m, root, visited, [], r)
    requires Chain(m, root, d, s) && IsDir(m, d) && m[d].linkCount != 0
    ensures d in visited
    decreases |s|
  {
    if d != root {
      assert Climbs(m, s, 0);
      var n := ParentHolds(m, links, root, d);
      ChainTail(m, root, d, s, 1);
      AllVisited(m, links, root, visited, r, s[1], s[1..]);
    }
  }

  /** `f` holds exactly the entries r[..k] of the original tree. */
  ghost predicate Holding(f: Fs, r: seq<(Id, Name)>, k: nat) {
    k <= |r| && forall p: Id, n: Name :: Holds(f.inodes, p, n) <==> (p, n) in r[..k]
  }

  /** The next removal is possible: its target is already empty. */
  lemma NextRemoval(fs: Fs, visited: set<Id>, r: seq<(Id, Name)>, f: Fs, k: nat)
    requires Inv(f) && Pruned(fs, f) && Listing(fs.inodes, visited, r) && Holding(f, r, k) && 0 < k
    ensures var (p, n) := r[k - 1];
            && EntryError(f.inodes, p, n).None? && n in f.inodes[p].kind.entries
            && var id := f.inodes[p].kind.entries[n].inode;
               id in f.inodes && (f.inodes[id].kind.Directory? ==> f.inodes[id].kind.entries == map[])
  {
    var (p, n) := r[k - 1];
    assert r[..k][k - 1] == (p, n) && (p, n) in r[..k] && Holds(f.inodes, p, n);
    var id := f.inodes[p].kind.entries[n].inode;
    assert HasEntry(f.inodes, p, n, id);
    assert HasEntry(fs.inodes, p, n, id);
    forall j | 0 <= j < k ensures r[j].0 != id {
      assert HasEntry(fs.inodes, r[k - 1].0, r[k - 1].1, r[j].0) ==> k - 1 < j;
    }
    if IsDir(f.inodes, id) {
      assert forall x :: x in f.inodes[id].kind.entries ==> Holds(f.inodes, id, x) && (id, x) in r[..k];
    }
  }

  lemma RemovalHolds(fs: Fs, visited: set<Id>, r: seq<(Id, Name)>, f: Fs, k: nat)
    requires Listing(fs.inodes, visited, r) && Holding(f, r, k) && 0 < k
    requires Removable(f, r[k - 1].0, r[k - 1].1)
    requires var id := f.inodes[r[k - 1].0].kind.entries[r[k - 1].1].inode;
             f.inodes[id].kind.Directory? ==> f.inodes[id].kind.entries == map[]
    ensures Holding(RemoveEntry(f, r[k - 1].0, r[k - 1].1), r, k - 1)
  {
    var (p, n) := r[k - 1];
    RemoveTakesOneEntry(f, p, n);
    forall q: Id, o: Name
      ensures Holds(RemoveEntry(f, p, n).inodes, q, o) <==> (q, o) in r[..k - 1]
    {
      HoldsAfterRemoval(f.inodes, RemoveEntry(f, p, n).inodes, p, n, q, o);
      PrefixWithoutLast(r, k, (q, o));
    }
  }

  ghost predicate Holds(m: Arena, p: Id, n: Name) {
    IsDir(m, p) && n in m[p].kind.entries
  }

  lemma HoldsAfterRemoval(m: Arena, after: Arena, p: Id, n: Name, q: Id, o: Name)
    requires forall h: Id, e: Name, x: Id :: HasEntry(after, h, e, x) <==> HasEntry(m, h, e, x) && !(h == p && e == n)
    ensures Holds(after, q, o) <==> Holds(m, q, o) && !(q == p && o == n)
  {
    if Holds(after, q, o) { assert HasEntry(after, q, o, after[q].kind.entries[o].inode); }
    if Holds(m, q, o) { assert HasEntry(m, q, o, m[q].kind.entries[o].inode); }
  }

  lemma PrefixWithoutLast<T>(r: seq<T>, k: nat, x: T)
    requires 0 < k <= |r| && forall i, j :: 0 <= i < j < |r| ==> r[i] != r[j]
    ensures x in r[..k - 1] <==> x in r[..k] && x != r[k - 1]
  {
    assert r[..k] == r[..k - 1] + [r[k - 1]];
  }

  function HeldBytes(i: Inode): nat {
    if i.fidRefs > 0 then FileBytes(i) else 0
  }

  /** The result of clear: the root and the fid-held inodes, all empty or detached, exactly accounted. */
  ghost predicate Cleared(fs: Fs, f: Fs) {
    && Pruned(fs, f)
    && f.inodes.Keys == {fs.root} + (set id | id in fs.inodes && fs.inodes[id].fidRefs > 0)
    && (forall d :: IsDir(f.inodes, d) ==> f.inodes[d].kind.entries == map[])
    && (forall id :: id in f.inodes && id != fs.root ==> f.inodes[id].linkCount == 0)
    && f.links == map[] && f.directoryEntries == 0
    && f.logicalBytes == SumBelow(fs.inodes, HeldBytes, fs.nextInode)
  }

  lemma {:induction false} HeldSum(a: Arena, b: Arena, n: nat)
    requires forall id :: id in b ==> id in a && FileBytes(b[id]) == FileBytes(a[id])
    requires forall id :: id in b ==> a[id].fidRefs > 0 || FileBytes(a[id]) == 0
    requires forall id :: id in a && id !in b ==> a[id].fidRefs == 0
    ensures SumBelow(b, FileBytes, n) == SumBelow(a, HeldBytes, n)
  {
    if n > 0 { HeldSum(a, b, n - 1); }
  }

  lemma {:induction false} NoEntriesSum(m: Arena, n: nat)
    requires forall d :: IsDir(m, d) ==> m[d].kind.entries == map[]
    ensures SumBelow(m, EntryCount, n) == 0
  {
    if n > 0 { NoEntriesSum(m, n - 1); }
  }

  lemma NothingHeldIsCleared(fs: Fs, r: seq<(Id, Name)>, f: Fs)
    requires Inv(fs) && Inv(f) && Pruned(fs, f) && Holding(f, r, 0)
    ensures Cleared(fs, f)
  {
    NothingIsHeld(f, r);
    NoEntriesSum(f.inodes, f.nextInode);
    UnlinkedIsHeld(fs, f);
    OnlyHeldRemain(fs, f);
    HeldSum(fs.inodes, f.inodes, fs.nextInode);
  }

  lemma OnlyHeldRemain(fs: Fs, f: Fs)
    requires Pruned(fs, f) && IsDir(f.inodes, f.root)
    requires forall id :: id in f.inodes && id != fs.root ==> fs.inodes[id].fidRefs > 0
    ensures f.inodes.Keys == {fs.root} + (set id | id in fs.inodes && fs.inodes[id].fidRefs > 0)
  {
  }

  lemma NothingIsHeld(f: Fs, r: seq<(Id, Name)>)
    requires Holding(f, r, 0)
    ensures forall d :: IsDir(f.inodes, d) ==> f.inodes[d].kind.entries == map[]
  {
    assert r[..0] == [];
    forall d | IsDir(f.inodes, d) ensures f.inodes[d].kind.entries == map[] {
      assert forall n :: n in f.inodes[d].kind.entries ==> Holds(f.inodes, d, n);
    }
  }

  lemma UnlinkedIsHeld(fs: Fs, f: Fs)
    requires TreeInv(f.inodes, f.links, f.root) && Pruned(fs, f)
    requires forall d :: IsDir(f.inodes, d) ==> f.inodes[d].kind.entries == map[]
    ensures f.links == map[]
    ensures forall id :: id in f.inodes && id != fs.root ==> f.inodes[id].linkCount == 0 && fs.inodes[id].fidRefs > 0
  {
    assert forall p: Id, n: Name, id: Id :: !HasEntry(f.inodes, p, n, id);
    forall id ensures LinksOf(f.links, id) == {} && id !in f.links {
      assert forall l :: l in LinksOf(f.links, id) ==> HasEntry(f.inodes, l.0, l.1, id);
    }
  }
}
