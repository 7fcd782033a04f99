/**
 Reading a directory in pages while the namespace changes between the pages: cookies of
 a directory are never reused, so an entry present at both ends of the reading is listed
 exactly once, under its own name and inode.
 */
module DirectoryReading {
  import opened Wrappers
  import opened Namespace
  import opened NamespaceInvariant
  import opened DirectoryPaging

  /** The namespace operations, whoever asks for them. */
  datatype Change =
    | NewFile(parent: Id, name: Name)
    | NewDirectory(parent: Id, name: Name)
    | NewSymlink(parent: Id, name: Name, target: string)
    | NewLink(parent: Id, name: Name, id: Id)
    | Removal(parent: Id, name: Name)
    | Renaming(oldParent: Id, oldName: Name, newParent: Id, newName: Name)
    | FileWrite(path: Path, bytes: seq<byte>)
    | RangeWrite(id: Id, offset: nat, data: seq<byte>, append: bool)
    | Resizing(id: Id, size: nat)
    | Retaining(id: Id)
    | Releasing(id: Id)
    | Resetting

  ghost function Attempt(fs: Fs, ch: Change): Outcome<Fs>
    requires Inv(fs)
  {
    match ch
    case NewFile(p, n) => First(CreateFileAt(fs, p, n))
    case NewDirectory(p, n) => First(MkdirAt(fs, p, n))
    case NewSymlink(p, n, target) => First(SymlinkAt(fs, p, n, target))
    case NewLink(p, n, id) => LinkAt(fs, p, n, id)
    case Removal(p, n) => RemoveAt(fs, p, n)
    case Renaming(p, n, q, o) => RenameAt(fs, p, n, q, o)
    case FileWrite(path, bytes) => First(WriteFile(fs, path, bytes))
    case RangeWrite(id, offset, data, append) => WriteInode(fs, id, offset, data, append)
    case Resizing(id, size) => Truncate(fs, id, size)
    case Retaining(id) => RetainFid(fs, id)
    case Releasing(id) => ReleaseFid(fs, id)
    case Resetting => Reset(fs)
  }

  function First(r: Outcome<(Fs, Id)>): Outcome<Fs> {
    if r.Err? then Err(r.error) else Ok(r.value.0)
  }

  /** A failed operation leaves the namespace alone. */
  ghost function After(fs: Fs, ch: Change): Fs
    requires Inv(fs)
  {
    var r := Attempt(fs, ch);
    if r.Ok? then r.value else fs
  }

  lemma AfterKeepsInv(fs: Fs, ch: Change)
    requires Inv(fs)
    ensures Inv(After(fs, ch))
  {
    if Attempt(fs, ch).Ok? {
      if OnBodyOrFid(ch) { BodyOrFidKeepsInv(fs, ch); } else { EntryChangeKeepsInv(fs, ch); }
    }
  }

  lemma EntryChangeKeepsInv(fs: Fs, ch: Change)
    requires Inv(fs) && !OnBodyOrFid(ch) && Attempt(fs, ch).Ok?
    ensures Inv(Attempt(fs, ch).value)
  {
    match ch
    case NewFile(p, n) => CreationKeepsInv(fs, p, n, File([]));
    case NewDirectory(p, n) => CreationKeepsInv(fs, p, n, Directory(map[], 1));
    case NewSymlink(p, n, target) => CreationKeepsInv(fs, p, n, Symlink(target));
    case NewLink(p, n, id) => LinkAtKeepsInv(fs, p, n, id);
    case Removal(p, n) => RemoveAtKeepsInv(fs, p, n);
    case Renaming(p, n, q, o) => RenameAtKeepsInv(fs, p, n, q, o);
  }

  predicate OnBodyOrFid(ch: Change) {
    ch.FileWrite? || ch.RangeWrite? || ch.Resizing? || ch.Retaining? || ch.Releasing? || ch.Resetting?
  }

  lemma BodyOrFidKeepsInv(fs: Fs, ch: Change)
    requires Inv(fs) && OnBodyOrFid(ch) && Attempt(fs, ch).Ok?
    ensures Inv(Attempt(fs, ch).value)
  {
    match ch
    case FileWrite(path, bytes) => WriteFileKeepsInv(fs, path, bytes);
    case RangeWrite(id, offset, data, append) => WriteInodeKeepsInv(fs, id, offset, data, append);
    case Resizing(id, size) => TruncateKeepsInv(fs, id, size);
    case Retaining(id) => RetainFidKeepsInv(fs, id);
    case Releasing(id) => ReleaseFidKeepsInv(fs, id);
    case Resetting => ResetKeepsInv(fs);
  }

  // ------------------------------------------------------------ cookies are never reused

  ghost predicate Carries(entries: map<Name, Entry>, e: Entry) {
    exists x :: x in entries && entries[x] == e
  }

  /** Every entry of the later directory was there before or has a cookie that was still free. */
  ghost predicate NewerCookies(k: Kind, l: Kind)
    requires k.Directory? && l.Directory?
  {
    && k.nextCookie <= l.nextCookie
    && forall x :: x in l.entries ==> l.entries[x].cookie >= k.nextCookie || Carries(k.entries, l.entries[x])
  }

  ghost predicate CookieLaw(a: Fs, b: Fs) {
    && a.nextInode <= b.nextInode
    && forall d: Id :: IsDir(b.inodes, d) && d < a.nextInode ==>
         IsDir(a.inodes, d) && NewerCookies(a.inodes[d].kind, b.inodes[d].kind)
  }

  lemma SameCookies(k: Kind)
    requires k.Directory?
    ensures NewerCookies(k, k)
  {
  }

  lemma KeptDirectories(a: Fs, b: Fs)
    requires a.nextInode <= b.nextInode
    requires forall d: Id :: IsDir(b.inodes, d) && d < a.nextInode ==>
               IsDir(a.inodes, d) && b.inodes[d].kind == a.inodes[d].kind
    ensures CookieLaw(a, b)
  {
    forall d: Id | IsDir(b.inodes, d) && d < a.nextInode ensures NewerCookies(a.inodes[d].kind, b.inodes[d].kind) {
      SameCookies(a.inodes[d].kind);
    }
  }

  lemma AddedEntry(k: Kind, n: Name, e: Entry)
    requires k.Directory? && e.cookie == k.nextCookie
    ensures NewerCookies(k, Directory(k.entries[n := e], k.nextCookie + 1))
  {
    var l := k.entries[n := e];
    forall x | x in l ensures l[x].cookie >= k.nextCookie || Carries(k.entries, l[x]) {
      if x != n { assert k.entries[x] == l[x]; }
    }
  }

  lemma DroppedEntry(k: Kind, n: Name)
    requires k.Directory?
    ensures NewerCookies(k, Directory(k.entries - {n}, k.nextCookie))
  {
    var l := k.entries - {n};
    forall x | x in l ensures Carries(k.entries, l[x]) { assert k.entries[x] == l[x]; }
  }

  lemma RenamedEntry(k: Kind, n: Name, o: Name)
    requires k.Directory? && n in k.entries
    ensures NewerCookies(k, Directory((k.entries - {n})[o := k.entries[n]], k.nextCookie))
  {
    var l := (k.entries - {n})[o := k.entries[n]];
    forall x | x in l ensures Carries(k.entries, l[x]) { assert l[x] == k.entries[if x == o then n else x]; }
  }

  lemma InsertLaw(fs: Fs, p: Id, n: Name, kind: Kind)
    requires SumsExact(fs) && Insert(fs, p, n, kind).Ok?
    ensures CookieLaw(fs, Insert(fs, p, n, kind).value.0)
  {
    var b := Insert(fs, p, n, kind).value.0;
    forall d: Id | IsDir(b.inodes, d) && d < fs.nextInode
      ensures IsDir(fs.inodes, d) && NewerCookies(fs.inodes[d].kind, b.inodes[d].kind) {
      if d == p { AddedEntry(fs.inodes[p].kind, n, Entry(fs.nextInode, fs.inodes[p].kind.nextCookie)); }
      else { SameCookies(fs.inodes[d].kind); }
    }
  }

  lemma LinkLaw(fs: Fs, p: Id, n: Name, id: Id)
    requires LinkAt(fs, p, n, id).Ok?
    ensures CookieLaw(fs, LinkAt(fs, p, n, id).value)
  {
    var b := LinkAt(fs, p, n, id).value;
    forall d: Id | IsDir(b.inodes, d) && d < fs.nextInode
      ensures IsDir(fs.inodes, d) && NewerCookies(fs.inodes[d].kind, b.inodes[d].kind) {
      if d == p { AddedEntry(fs.inodes[p].kind, n, Entry(id, fs.inodes[p].kind.nextCookie)); }
      else { SameCookies(fs.inodes[d].kind); }
    }
  }

  lemma RemoveLaw(fs: Fs, p: Id, n: Name)
    requires IsDir(fs.inodes, p) && n in fs.inodes[p].kind.entries
    requires fs.inodes[p].kind.entries[n].inode in fs.inodes && fs.inodes[p].kind.entries[n].inode != p
    ensures CookieLaw(fs, RemoveEntry(fs, p, n))
  {
    var b := RemoveEntry(fs, p, n);
    forall d: Id | IsDir(b.inodes, d) && d < fs.nextInode
      ensures IsDir(fs.inodes, d) && NewerCookies(fs.inodes[d].kind, b.inodes[d].kind) {
      if d == p { DroppedEntry(fs.inodes[p].kind, n); } else { SameCookies(fs.inodes[d].kind); }
    }
  }

  /** Moving inside a directory keeps the cookie, moving to another one takes a free cookie there. */
  lemma MoveLaw(fs: Fs, p: Id, n: Name, q: Id, o: Name, cookie: nat)
    requires IsDir(fs.inodes, p) && IsDir(fs.inodes, q) && n in fs.inodes[p].kind.entries
    requires fs.inodes[p].kind.entries[n].inode in fs.inodes && fs.inodes[p].kind.entries[n].inode !in {p, q}
    requires cookie == if p == q then fs.inodes[p].kind.entries[n].cookie else fs.inodes[q].kind.nextCookie
    ensures CookieLaw(fs, MoveEntry(fs, p, n, q, o, cookie))
  {
    var b := MoveEntry(fs, p, n, q, o, cookie);
    forall d: Id | IsDir(b.inodes, d) && d < fs.nextInode
      ensures IsDir(fs.inodes, d) && NewerCookies(fs.inodes[d].kind, b.inodes[d].kind) {
      if d == p && p == q { RenamedEntry(fs.inodes[p].kind, n, o); }
      else if d == p { DroppedEntry(fs.inodes[p].kind, n); }
      else if d == q { AddedEntry(fs.inodes[q].kind, o, Entry(fs.inodes[p].kind.entries[n].inode, cookie)); }
      else { SameCookies(fs.inodes[d].kind); }
    }
  }

  lemma NewerTwice(k: Kind, l: Kind, m: Kind)
    requires k.Directory? && l.Directory? && m.Directory? && NewerCookies(k, l) && NewerCookies(l, m)
    ensures NewerCookies(k, m)
  {
    forall x | x in m.entries ensures m.entries[x].cookie >= k.nextCookie || Carries(k.entries, m.entries[x]) {
      if Carries(l.entries, m.entries[x]) {
        var y :| y in l.entries && l.entries[y] == m.entries[x];
      }
    }
  }

  lemma LawTwice(a: Fs, b: Fs, c: Fs)
    requires CookieLaw(a, b) && CookieLaw(b, c)
    ensures CookieLaw(a, c)
  {
    forall d: Id | IsDir(c.inodes, d) && d < a.nextInode
      ensures IsDir(a.inodes, d) && NewerCookies(a.inodes[d].kind, c.inodes[d].kind) {
      NewerTwice(a.inodes[d].kind, b.inodes[d].kind, c.inodes[d].kind);
    }
  }

  lemma RenameLaw(fs: Fs, p: Id, n: Name, q: Id, o: Name)
    requires Inv(fs) && RenameAt(fs, p, n, q, o).Ok?
    ensures CookieLaw(fs, RenameAt(fs, p, n, q, o).value)
  {
    if Moves(fs, p, n, q, o) {
      RenameIsReady(fs, p, n, q, o);
      MovingLaw(fs, p, n, q, o, RenameCookie(fs, p, n, q));
    } else {
      KeptDirectories(fs, fs);
    }
  }

  lemma MovingLaw(fs: Fs, p: Id, n: Name, q: Id, o: Name, cookie: nat)
    requires IsDir(fs.inodes, p) && IsDir(fs.inodes, q) && n in fs.inodes[p].kind.entries && (p != q || n != o)
    requires o in fs.inodes[q].kind.entries ==> Removable(fs, q, o)
    requires var gone := Displaced(fs, q, o);
             && IsDir(gone.inodes, p) && IsDir(gone.inodes, q) && n in gone.inodes[p].kind.entries
             && gone.inodes[p].kind.entries[n].inode in gone.inodes
             && gone.inodes[p].kind.entries[n].inode !in {p, q}
    requires cookie == if p == q then fs.inodes[p].kind.entries[n].cookie else fs.inodes[q].kind.nextCookie
    ensures CookieLaw(fs, MoveEntry(Displaced(fs, q, o), p, n, q, o, cookie))
  {
    var gone := Displaced(fs, q, o);
    if o in fs.inodes[q].kind.entries { RemoveLaw(fs, q, o); } else { KeptDirectories(fs, gone); }
    DisplacedKeepsRest(fs, p, n, q, o);
    MoveLaw(gone, p, n, q, o, cookie);
    LawTwice(fs, gone, MoveEntry(gone, p, n, q, o, cookie));
  }

  lemma DisplacedKeepsRest(fs: Fs, p: Id, n: Name, q: Id, o: Name)
    requires IsDir(fs.inodes, p) && IsDir(fs.inodes, q) && n in fs.inodes[p].kind.entries && (p != q || n != o)
    requires o in fs.inodes[q].kind.entries ==> Removable(fs, q, o)
    requires IsDir(Displaced(fs, q, o).inodes, p) && IsDir(Displaced(fs, q, o).inodes, q)
    ensures var m := Displaced(fs, q, o).inodes;
            && n in m[p].kind.entries && m[p].kind.entries[n] == fs.inodes[p].kind.entries[n]
            && m[q].kind.nextCookie == fs.inodes[q].kind.nextCookie
  {
  }

  lemma WriteFileLaw(fs: Fs, path: Path, bytes: seq<byte>)
    requires SumsExact(fs) && WriteFile(fs, path, bytes).Ok?
    ensures CookieLaw(fs, WriteFile(fs, path, bytes).value.0)
  {
    var up, name := Lookup(fs, path[..|path| - 1]).value, path[|path| - 1];
    var after := WriteFile(fs, path, bytes).value.0;
    if name in fs.inodes[up].kind.entries {
      KeptDirectories(fs, after);
    } else {
      InsertLaw(fs, up, name, File(bytes));
      assert after.inodes == Insert(fs, up, name, File(bytes)).value.0.inodes;
    }
  }

  /** No operation reuses a cookie. */
  lemma AfterLaw(fs: Fs, ch: Change)
    requires Inv(fs)
    ensures CookieLaw(fs, After(fs, ch))
  {
    if Attempt(fs, ch).Err? {
      KeptDirectories(fs, fs);
    } else {
      match ch
      case NewFile(p, n) => InsertLaw(fs, p, n, File([]));
      case NewDirectory(p, n) => InsertLaw(fs, p, n, Directory(map[], 1));
      case NewSymlink(p, n, target) => InsertLaw(fs, p, n, Symlink(target));
      case NewLink(p, n, id) => LinkLaw(fs, p, n, id);
      case Removal(p, n) =>
        EntryIsRemovable(fs, p, n);
        RemoveLaw(fs, p, n);
      case Renaming(p, n, q, o) => RenameLaw(fs, p, n, q, o);
      case FileWrite(path, bytes) => WriteFileLaw(fs, path, bytes);
      case _ => QuietLaw(fs, ch);
    }
  }

  lemma QuietLaw(fs: Fs, ch: Change)
    requires Inv(fs) && OnBodyOrFid(ch) && !ch.FileWrite? && Attempt(fs, ch).Ok?
    ensures CookieLaw(fs, Attempt(fs, ch).value)
  {
    KeptDirectories(fs, Attempt(fs, ch).value);
  }

  // ---------------------------------------------------------------------------- runs

  ghost predicate IsRun(states: seq<Fs>, changes: seq<Change>) {
    && |states| == |changes| + 1 && Inv(states[0])
    && forall i {:trigger changes[i]} :: 0 <= i < |changes| ==>
         Inv(states[i]) ==> states[i + 1] == After(states[i], changes[i])
  }

  lemma {:induction false} RunKeepsInv(states: seq<Fs>, changes: seq<Change>, n: nat)
    requires IsRun(states, changes) && n <= |changes|
    ensures Inv(states[n])
    decreases n
  {
    if n > 0 {
      RunKeepsInv(states, changes, n - 1);
      AfterKeepsInv(states[n - 1], changes[n - 1]);
    }
  }

  lemma {:induction false} RunLaw(states: seq<Fs>, changes: seq<Change>, i: nat, j: nat)
    requires IsRun(states, changes) && i <= j <= |changes|
    ensures CookieLaw(states[i], states[j])
    decreases j
  {
    if i == j {
      KeptDirectories(states[i], states[i]);
    } else {
      RunLaw(states, changes, i, j - 1);
      RunKeepsInv(states, changes, j - 1);
      AfterLaw(states[j - 1], changes[j - 1]);
      LawTwice(states[i], states[j - 1], states[j]);
    }
  }

  /** An entry present at both ends was there all the time: same cookie, same inode. */
  lemma PresentBetween(a: Fs, m: Fs, b: Fs, d: Id, e: Entry, x: Name)
    requires Inv(a) && CookieLaw(a, m) && CookieLaw(m, b)
    requires IsDir(a.inodes, d) && Carries(a.inodes[d].kind.entries, e)
    requires IsDir(b.inodes, d) && x in b.inodes[d].kind.entries && b.inodes[d].kind.entries[x].cookie == e.cookie
    ensures IsDir(m.inodes, d) && Carries(m.inodes[d].kind.entries, e)
  {
    var y :| y in a.inodes[d].kind.entries && a.inodes[d].kind.entries[y] == e;
    var found := b.inodes[d].kind.entries[x];
    LawTwice(a, m, b);
    assert CookiesDistinct(a.inodes[d].kind);
    assert found.cookie < a.inodes[d].kind.nextCookie <= m.inodes[d].kind.nextCookie;
    assert Carries(m.inodes[d].kind.entries, found);
    assert Carries(a.inodes[d].kind.entries, found);
    var z :| z in a.inodes[d].kind.entries && a.inodes[d].kind.entries[z] == found;
    assert z == y;
  }

  /** Page i of a reading was made from directory d as it was after when[i] changes. */
  ghost predicate ReadsDirectory(states: seq<Fs>, when: seq<nat>, d: Id, lists: seq<seq<Listed>>) {
    && |when| == |lists|
    && (forall i {:trigger when[i]} :: 0 <= i < |when| ==>
          && when[i] < |states|
          && (IsDir(states[when[i]].inodes, d) ==> IsListing(states[when[i]].inodes[d].kind.entries, lists[i])))
    && (forall i, j :: 0 <= i <= j < |when| ==> when[i] <= when[j])
  }

  lemma AlwaysListed(states: seq<Fs>, changes: seq<Change>, when: seq<nat>, d: Id, lists: seq<seq<Listed>>,
                     e: Entry, x: Name, i: nat)
    requires IsRun(states, changes) && ReadsDirectory(states, when, d, lists) && i < |when|
    requires IsDir(states[when[0]].inodes, d) && Carries(states[when[0]].inodes[d].kind.entries, e)
    requires var last := states[when[|when| - 1]].inodes;
             IsDir(last, d) && x in last[d].kind.entries && last[d].kind.entries[x].cookie == e.cookie
    ensures IsDir(states[when[i]].inodes, d) && Carries(states[when[i]].inodes[d].kind.entries, e)
    ensures HasCookie(lists[i], e.cookie)
  {
    RunKeepsInv(states, changes, when[0]);
    RunLaw(states, changes, when[0], when[i]);
    RunLaw(states, changes, when[i], when[|when| - 1]);
    PresentBetween(states[when[0]], states[when[i]], states[when[|when| - 1]], d, e, x);
    ListedCookie(states[when[i]].inodes[d].kind.entries, lists[i], e);
  }

  lemma ListedCookie(entries: map<Name, Entry>, list: seq<Listed>, e: Entry)
    requires IsListing(entries, list) && Carries(entries, e)
    ensures HasCookie(list, e.cookie)
  {
    var y :| y in entries && entries[y] == e;
    var k :| 0 <= k < |list| && list[k] == Listed(y, e.inode, e.cookie);
  }

  /** What a page says about a cookie is the directory's entry at that moment. */
  lemma PageTellsTheTruth(kind: Kind, list: seq<Listed>, offset: nat, maximum: nat, e: Entry) returns (r: Listed)
    requires kind.Directory? && CookiesDistinct(kind) && IsListing(kind.entries, list) && Carries(kind.entries, e)
    requires HasCookie(Fill(list, offset, maximum, []), e.cookie)
    ensures r in Fill(list, offset, maximum, []) && r.inode == e.inode && r.cookie == e.cookie
    ensures r.name in kind.entries && kind.entries[r.name] == e
  {
    var page := Fill(list, offset, maximum, []);
    FillShape(list, offset, maximum, []);
    var k :| 0 <= k < |page| && page[k].cookie == e.cookie;
    r := page[k];
    assert r in page;
    var j :| 0 <= j < |list| && list[j] == r;
    var y :| y in kind.entries && kind.entries[y] == e;
    assert kind.entries[r.name].cookie == kind.entries[y].cookie;
  }

  /**
   An entry there when the reading starts and not removed, replaced or moved out before it ends is on
   exactly one page, with its inode and the name it has at that moment, whatever else happens in between.
   */
  lemma SurvivorIsListedOnce(states: seq<Fs>, changes: seq<Change>, when: seq<nat>, d: Id,
                             lists: seq<seq<Listed>>, pages: seq<seq<Listed>>, offsets: seq<nat>, maxima: seq<nat>,
                             e: Entry, x: Name) returns (k: nat, r: Listed)
    requires IsRun(states, changes) && ReadsDirectory(states, when, d, lists)
    requires IsReading(lists, pages, offsets, maxima) && |lists| > 0 && pages[|pages| - 1] == []
    requires IsDir(states[when[0]].inodes, d) && Carries(states[when[0]].inodes[d].kind.entries, e)
    requires var last := states[when[|when| - 1]].inodes;
             IsDir(last, d) && x in last[d].kind.entries && last[d].kind.entries[x].cookie == e.cookie
    ensures k < |pages| && r in pages[k] && r.inode == e.inode && r.cookie == e.cookie
    ensures IsDir(states[when[k]].inodes, d) && r.name in states[when[k]].inodes[d].kind.entries
    ensures states[when[k]].inodes[d].kind.entries[r.name] == e
    ensures forall i :: 0 <= i < |pages| && i != k ==> !HasCookie(pages[i], e.cookie)
  {
    forall i | 0 <= i < |lists| ensures HasCookie(lists[i], e.cookie) {
      AlwaysListed(states, changes, when, d, lists, e, x, i);
    }
    FirstCookie(states, changes, when[0], d, e);
    k := StayingEntryIsListedOnce(lists, pages, offsets, maxima, e.cookie);
    AlwaysListed(states, changes, when, d, lists, e, x, k);
    RunKeepsInv(states, changes, when[k]);
    assert lists[k] == lists[k];
    r := PageTellsTheTruth(states[when[k]].inodes[d].kind, lists[k], offsets[k], maxima[k], e);
  }

  lemma FirstCookie(states: seq<Fs>, changes: seq<Change>, i: nat, d: Id, e: Entry)
    requires IsRun(states, changes) && i < |states|
    requires IsDir(states[i].inodes, d) && Carries(states[i].inodes[d].kind.entries, e)
    ensures e.cookie > 0
  {
    RunKeepsInv(states, changes, i);
    assert CookiesDistinct(states[i].inodes[d].kind);
  }

  // --------------------------------------------------------------------- what takes away

  /** The change removes, replaces or moves out the entry x of directory d, or replaces the namespace. */
  ghost predicate TakesAway(fs: Fs, ch: Change, d: Id, x: Name)
    requires Inv(fs)
  {
    match ch
    case Removal(p, n) => d == p && x == n
    case Renaming(p, n, q, o) => Moves(fs, p, n, q, o) && ((d == q && x == o) || (d == p && x == n && p != q))
    case Resetting => true
    case _ => false
  }

  /** Any other change leaves the entry in its directory, at most under a new name. */
  lemma ChangeKeepsEntry(fs: Fs, ch: Change, d: Id, x: Name, e: Entry)
    requires Inv(fs) && Lists(fs.inodes, d, x, e) && !TakesAway(fs, ch, d, x)
    ensures IsDir(After(fs, ch).inodes, d) && Carries(After(fs, ch).inodes[d].kind.entries, e)
  {
    var y := x;
    if Attempt(fs, ch).Ok? && !OnBodyOrFid(ch) { y := EntryChangeKeepsEntry(fs, ch, d, x, e); }
    if Attempt(fs, ch).Ok? && OnBodyOrFid(ch) { BodyOrFidKeepsEntry(fs, ch, d, x, e); }
    assert Lists(After(fs, ch).inodes, d, y, e);
  }

  lemma EntryChangeKeepsEntry(fs: Fs, ch: Change, d: Id, x: Name, e: Entry) returns (y: Name)
    requires Inv(fs) && Lists(fs.inodes, d, x, e) && !TakesAway(fs, ch, d, x)
    requires Attempt(fs, ch).Ok? && !OnBodyOrFid(ch)
    ensures Lists(Attempt(fs, ch).value.inodes, d, y, e)
  {
    y := x;
    match ch
    case NewFile(p, n) => InsertKeepsCookies(fs, p, n, File([]), d, x, e);
    case NewDirectory(p, n) => InsertKeepsCookies(fs, p, n, Directory(map[], 1), d, x, e);
    case NewSymlink(p, n, target) => InsertKeepsCookies(fs, p, n, Symlink(target), d, x, e);
    case NewLink(p, n, id) => LinkKeepsCookies(fs, p, n, id, d, x, e);
    case Removal(p, n) => RemoveKeepsOtherCookies(fs, p, n, d, x, e);
    case Renaming(p, n, q, o) =>
      if Moves(fs, p, n, q, o) {
        RenameKeepsCookies(fs, p, n, q, o, d, x, e);
        y := if d == p && x == n then o else x;
      }
  }

  lemma BodyOrFidKeepsEntry(fs: Fs, ch: Change, d: Id, x: Name, e: Entry)
    requires Inv(fs) && Lists(fs.inodes, d, x, e) && OnBodyOrFid(ch) && !ch.Resetting? && Attempt(fs, ch).Ok?
    ensures Lists(Attempt(fs, ch).value.inodes, d, x, e)
  {
    match ch
    case FileWrite(path, bytes) => FileWriteKeepsEntry(fs, path, bytes, d, x, e);
    case RangeWrite(id, offset, data, append) => RangeWriteKeepsEntry(fs, id, offset, data, append, d, x, e);
    case Releasing(id) => ReleaseKeepsEntry(fs, id, d, x, e);
    case _ =>
  }

  lemma RangeWriteKeepsEntry(fs: Fs, id: Id, offset: nat, data: seq<byte>, append: bool, d: Id, x: Name, e: Entry)
    requires Lists(fs.inodes, d, x, e) && WriteInode(fs, id, offset, data, append).Ok?
    ensures Lists(WriteInode(fs, id, offset, data, append).value.inodes, d, x, e)
  {
  }

  /** A directory reclaimed with its last fid is empty. */
  lemma ReleaseKeepsEntry(fs: Fs, id: Id, d: Id, x: Name, e: Entry)
    requires Lists(fs.inodes, d, x, e) && DirectoriesShaped(fs.inodes, fs.root) && ReleaseFid(fs, id).Ok?
    ensures Lists(ReleaseFid(fs, id).value.inodes, d, x, e)
  {
    assert fs.inodes[d].linkCount != 0;
  }

  lemma FileWriteKeepsEntry(fs: Fs, path: Path, bytes: seq<byte>, d: Id, x: Name, e: Entry)
    requires Inv(fs) && Lists(fs.inodes, d, x, e) && WriteFile(fs, path, bytes).Ok?
    ensures Lists(WriteFile(fs, path, bytes).value.0.inodes, d, x, e)
  {
    var up, name := Lookup(fs, path[..|path| - 1]).value, path[|path| - 1];
    if name !in fs.inodes[up].kind.entries { InsertKeepsCookies(fs, up, name, File(bytes), d, x, e); }
  }

  /** No change of the run takes the entry e of directory d away. */
  ghost predicate Untouched(states: seq<Fs>, changes: seq<Change>, d: Id, e: Entry, start: nat, end: nat) {
    && IsRun(states, changes) && end <= |changes|
    && forall i, x {:trigger Lists(states[i].inodes, d, x, e)} :: start <= i < end && Inv(states[i]) ==>
         Lists(states[i].inodes, d, x, e) ==> !TakesAway(states[i], changes[i], d, x)
  }

  lemma {:induction false} UntouchedStays(states: seq<Fs>, changes: seq<Change>, d: Id, e: Entry, start: nat, end: nat)
    returns (x: Name)
    requires start <= end && Untouched(states, changes, d, e, start, end)
    requires IsDir(states[start].inodes, d) && Carries(states[start].inodes[d].kind.entries, e)
    ensures Lists(states[end].inodes, d, x, e)
    decreases end
  {
    if start == end {
      x :| x in states[end].inodes[d].kind.entries && states[end].inodes[d].kind.entries[x] == e;
    } else {
      var y := UntouchedStays(states, changes, d, e, start, end - 1);
      RunKeepsInv(states, changes, end - 1);
      ChangeKeepsEntry(states[end - 1], changes[end - 1], d, y, e);
      x :| x in states[end].inodes[d].kind.entries && states[end].inodes[d].kind.entries[x] == e;
    }
  }

  /** The same for an entry no change of the run removes, replaces or moves out. */
  lemma UntouchedIsListedOnce(states: seq<Fs>, changes: seq<Change>, when: seq<nat>, d: Id,
                              lists: seq<seq<Listed>>, pages: seq<seq<Listed>>, offsets: seq<nat>, maxima: seq<nat>,
                              e: Entry) returns (k: nat, r: Listed)
    requires ReadsDirectory(states, when, d, lists) && |lists| > 0
    requires Untouched(states, changes, d, e, when[0], when[|when| - 1])
    requires IsReading(lists, pages, offsets, maxima) && pages[|pages| - 1] == []
    requires IsDir(states[when[0]].inodes, d) && Carries(states[when[0]].inodes[d].kind.entries, e)
    ensures k < |pages| && r in pages[k] && Lists(states[when[k]].inodes, d, r.name, e)
    ensures r.inode == e.inode && r.cookie == e.cookie
    ensures forall i :: 0 <= i < |pages| && i != k ==> !HasCookie(pages[i], e.cookie)
  {
    var x := UntouchedStays(states, changes, d, e, when[0], when[|when| - 1]);
    k, r := SurvivorIsListedOnce(states, changes, when, d, lists, pages, offsets, maxima, e, x);
  }
}
