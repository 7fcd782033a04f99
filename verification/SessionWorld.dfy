/**
 One namespace shared by any number of sessions and a host: exact fid references
 over every interleaving, and requests that fail without a trace.
 */
module SessionWorld {
  import opened Arithmetic
  import opened Wrappers
  import opened Namespace
  import opened NamespaceInvariant
  import NamespaceWalks
  import opened Sessions
  import ByteLocks

  datatype World = World(fs: Fs, sessions: map<nat, Session>)

  function NumbersOn(fids: map<U32, Fid>, id: Id): set<U32> {
    set f | f in fids && fids[f].inode == id
  }

  function FidsOn(fids: map<U32, Fid>, id: Id): nat {
    |NumbersOn(fids, id)|
  }

  /** References from the sessions numbered below n that live in generation g. */
  function RefsBelow(sessions: map<nat, Session>, g: nat, n: nat, id: Id): nat {
    if n == 0 then 0
    else RefsBelow(sessions, g, n - 1, id)
         + (if n - 1 in sessions && sessions[n - 1].generation == g then FidsOn(sessions[n - 1].fids, id) else 0)
  }

  /** Every inode counts exactly the fids of one session plus `others`, and no reference dangles. */
  ghost predicate RefsExact(fs: Fs, others: Id -> nat, fids: map<U32, Fid>) {
    && (forall id :: id in fs.inodes ==> fs.inodes[id].fidRefs == others(id) + FidsOn(fids, id))
    && (forall id :: others(id) > 0 ==> id in fs.inodes)
    && (forall f :: f in fids ==> fids[f].inode in fs.inodes)
  }

  function Plus(others: Id -> nat, id: Id): Id -> nat {
    x => others(x) + (if x == id then 1 else 0)
  }

  // ------------------------------------------------------------------ counting

  lemma FidsOnPut(fids: map<U32, Fid>, number: U32, fid: Fid, id: Id)
    requires number !in fids
    ensures FidsOn(fids[number := fid], id) == FidsOn(fids, id) + (if fid.inode == id then 1 else 0)
  {
    assert NumbersOn(fids[number := fid], id)
           == if fid.inode == id then NumbersOn(fids, id) + {number} else NumbersOn(fids, id);
  }

  lemma FidsOnDrop(fids: map<U32, Fid>, number: U32, id: Id)
    requires number in fids
    ensures FidsOn(fids - {number}, id) + (if fids[number].inode == id then 1 else 0) == FidsOn(fids, id)
  {
    var rest := fids - {number};
    assert fids == rest[number := fids[number]];
    FidsOnPut(rest, number, fids[number], id);
  }

  lemma NoFidsCountNothing(id: Id)
    ensures FidsOn(map[], id) == 0
  {
    assert NumbersOn(map[], id) == {};
  }

  /** Namespace changes that touch no reference and lose no referenced inode. */
  ghost predicate RefsStable(a: Fs, b: Fs) {
    && b.generation == a.generation && b.nextSession == a.nextSession
    && (forall id :: id in b.inodes && id in a.inodes ==> b.inodes[id].fidRefs == a.inodes[id].fidRefs)
    && (forall id :: id in b.inodes && id !in a.inodes ==> b.inodes[id].fidRefs == 0 && id >= a.nextInode)
    && (forall id :: id in a.inodes && id !in b.inodes ==> a.inodes[id].fidRefs == 0)
    && a.nextInode <= b.nextInode
  }

  lemma StableKeepsRefs(a: Fs, b: Fs, others: Id -> nat, fids: map<U32, Fid>)
    requires RefsExact(a, others, fids) && RefsStable(a, b)
    ensures RefsExact(b, others, fids)
  {
    forall id | id !in a.inodes ensures others(id) == 0 && FidsOn(fids, id) == 0 {
      assert NumbersOn(fids, id) == {};
    }
    forall f | f in fids ensures fids[f].inode in b.inodes {
      FidsOnDrop(fids, f, fids[f].inode);
    }
    forall id | others(id) > 0 ensures id in b.inodes {}
  }

  // --------------------------------------------------------- retain and release

  lemma RetainAddsOne(fs: Fs, others: Id -> nat, fids: map<U32, Fid>, id: Id)
    requires RefsExact(fs, others, fids) && RetainFid(fs, id).Ok?
    ensures RefsExact(RetainFid(fs, id).value, Plus(others, id), fids)
  {
  }

  lemma HandOver(fs: Fs, others: Id -> nat, fids: map<U32, Fid>, number: U32, fid: Fid)
    requires RefsExact(fs, Plus(others, fid.inode), fids) && number !in fids
    ensures RefsExact(fs, others, fids[number := fid])
  {
    forall id | id in fs.inodes ensures fs.inodes[id].fidRefs == others(id) + FidsOn(fids[number := fid], id) {
      FidsOnPut(fids, number, fid, id);
    }
    assert Plus(others, fid.inode)(fid.inode) > 0;
    forall id | others(id) > 0 ensures id in fs.inodes { assert Plus(others, fid.inode)(id) > 0; }
  }

  /** A fid in the table can always be released, and exactly its reference goes. */
  lemma ReleaseDropsOne(fs: Fs, others: Id -> nat, fids: map<U32, Fid>, number: U32)
    requires RefsExact(fs, others, fids) && number in fids
    ensures var r := ReleaseFid(fs, fids[number].inode); r.Ok? && RefsExact(r.value, others, fids - {number})
  {
    FidsOnDrop(fids, number, fids[number].inode);
    UnreferencedRefs(fs, others, fids, number);
  }

  lemma UnreferencedRefs(fs: Fs, others: Id -> nat, fids: map<U32, Fid>, number: U32)
    requires RefsExact(fs, others, fids) && number in fids
    requires fs.inodes[fids[number].inode].fidRefs > 0
    ensures RefsExact(Unreferenced(fs, fids[number].inode), others, fids - {number})
  {
    var gone := fids[number].inode;
    var f := Unreferenced(fs, gone);
    var rest := fids - {number};
    forall id | id in f.inodes ensures f.inodes[id].fidRefs == others(id) + FidsOn(rest, id) {
      FidsOnDrop(fids, number, id);
    }
    FidsOnDrop(fids, number, gone);
    forall k | k in rest ensures rest[k].inode in f.inodes {
      if rest[k].inode == gone { FidsOnDrop(rest, k, gone); }
    }
    forall id | others(id) > 0 ensures id in f.inodes { FidsOnDrop(fids, number, id); }
  }

  /** Replacing a fid: the reference of the old one goes, the retained one takes its place. */
  lemma ReplaceKeepsRefs(fs: Fs, others: Id -> nat, fids: map<U32, Fid>, number: U32, fid: Fid)
    requires RefsExact(fs, Plus(others, fid.inode), fids) && number in fids
    ensures var r := ReleaseFid(fs, fids[number].inode); r.Ok? && RefsExact(r.value, others, fids[number := fid])
  {
    ReleaseDropsOne(fs, Plus(others, fid.inode), fids, number);
    PutBack(fids, number, fid);
    HandOver(ReleaseFid(fs, fids[number].inode).value, others, fids - {number}, number, fid);
  }

  lemma PutBack(fids: map<U32, Fid>, number: U32, fid: Fid)
    requires number in fids
    ensures number !in fids - {number} && (fids - {number})[number := fid] == fids[number := fid]
  {
  }

  /** install_fid fails, leaving no trace, exactly when the inode is missing or its counter is full. */
  lemma InstallKeepsRefs(fs: Fs, others: Id -> nat, s: Session, number: U32, fid: Fid)
    requires RefsExact(fs, others, s.fids)
    ensures var d := InstallFid(fs, s, number, fid);
            && (d.result.Err? <==> fid.inode !in fs.inodes || fs.inodes[fid.inode].fidRefs >= U32_MAX)
            && (d.result.Err? ==> d.fs == fs && d.session == s)
            && (d.result.Ok? ==> RefsExact(d.fs, others, d.session.fids)
                                 && d.session == s.(fids := s.fids[number := fid]))
  {
    var r := RetainFid(fs, fid.inode);
    if r.Ok? {
      RetainAddsOne(fs, others, s.fids, fid.inode);
      if number in s.fids {
        ReplaceKeepsRefs(r.value, others, s.fids, number, fid);
      } else {
        HandOver(r.value, others, s.fids, number, fid);
      }
    }
  }

  function FidsFrom(fids: map<U32, Fid>, n: nat): map<U32, Fid> {
    map f | f in fids && f >= n :: fids[f]
  }

  /** After releasing the fids below n, exactly the references of the others are left. */
  ghost function ReleasedTo(fs: Fs, others: Id -> nat, fids: map<U32, Fid>, n: nat): Verdict {
    var r := ReleaseBelow(fs, fids, n);
    if r.Ok? && RefsExact(r.value, others, FidsFrom(fids, n)) then Sound else Unsound
  }

  lemma ReleaseBelowKeepsRefs(fs: Fs, others: Id -> nat, fids: map<U32, Fid>, n: nat)
    requires ReleasedTo(fs, others, fids, 0).Sound? && n <= U32_MAX + 1
    ensures ReleasedTo(fs, others, fids, n).Sound?
  {
    forall i: nat | i < n && ReleasedTo(fs, others, fids, i).Sound?
      ensures ReleasedTo(fs, others, fids, i + 1).Sound? {
      ReleaseOneMore(fs, others, fids, i);
    }
    StepByStep((i: nat) => ReleasedTo(fs, others, fids, i), n);
  }

  lemma ReleaseOneMore(fs: Fs, others: Id -> nat, fids: map<U32, Fid>, n: U32)
    requires ReleasedTo(fs, others, fids, n).Sound?
    ensures ReleasedTo(fs, others, fids, n + 1).Sound?
  {
    if n in fids {
      ReleaseNext(ReleaseBelow(fs, fids, n).value, others, fids, n);
    } else {
      assert FidsFrom(fids, n) == FidsFrom(fids, n + 1);
    }
  }

  lemma ReleaseNext(f: Fs, others: Id -> nat, fids: map<U32, Fid>, n: U32)
    requires RefsExact(f, others, FidsFrom(fids, n)) && n in fids
    ensures var r := ReleaseFid(f, fids[n].inode);
            r.Ok? && RefsExact(r.value, others, FidsFrom(fids, n + 1))
  {
    FidsFromNext(fids, n);
    ReleaseDropsOne(f, others, FidsFrom(fids, n), n);
  }

  lemma FidsFromNext(fids: map<U32, Fid>, n: U32)
    requires n in fids
    ensures FidsFrom(fids, n) - {n} == FidsFrom(fids, n + 1)
  {
  }

  /** What releasing fids and locks leaves alone. */
  ghost predicate RefsFrame(a: Fs, b: Fs) {
    && b.generation == a.generation && b.nextSession == a.nextSession && b.nextInode == a.nextInode
    && b.inodes.Keys <= a.inodes.Keys
  }

  lemma {:induction false} ReleaseBelowFrame(fs: Fs, fids: map<U32, Fid>, n: nat)
    requires ReleaseBelow(fs, fids, n).Ok?
    ensures RefsFrame(fs, ReleaseBelow(fs, fids, n).value)
  {
    if n > 0 { ReleaseBelowFrame(fs, fids, n - 1); }
  }

  lemma ReleaseFidsKeepsRefs(fs: Fs, others: Id -> nat, s: Session)
    requires RefsExact(fs, others, s.fids)
    ensures var r := ReleaseFids(fs, s);
            r.Ok? && RefsExact(r.value, others, map[]) && RefsFrame(fs, r.value)
  {
    assert FidsFrom(s.fids, 0) == s.fids;
    ReleaseBelowKeepsRefs(fs, others, s.fids, U32_MAX + 1);
    ReleaseBelowFrame(fs, s.fids, U32_MAX + 1);
    assert FidsFrom(s.fids, U32_MAX + 1) == map[];
  }

  // ---------------------------------------------- what one request may change

  /** Identities only grow, and the namespace stays in its generation. */
  ghost predicate Frame(a: Fs, b: Fs) {
    && b.generation == a.generation && b.nextSession == a.nextSession && a.nextInode <= b.nextInode
    && forall id :: id in b.inodes ==> id in a.inodes || id >= a.nextInode
  }

  ghost predicate Bounded(s: Session) {
    |s.fids| <= MAX_FIDS && NOFID !in s.fids
  }

  ghost predicate SessionKept(s: Session, t: Session) {
    t.id == s.id && t.generation == s.generation && t.closed == s.closed && (Bounded(s) ==> Bounded(t))
  }

  /** A finished request: references stay exact, identities stay fresh, and an error left no trace. */
  ghost function Judge(fs: Fs, others: Id -> nat, s: Session, d: Done): Verdict {
    if && RefsExact(d.fs, others, d.session.fids)
       && Frame(fs, d.fs) && SessionKept(s, d.session)
       && (d.result.Err? ==> d.fs == fs && d.session == s)
    then Sound else Unsound
  }

  lemma RaiseIsSound(fs: Fs, others: Id -> nat, s: Session, e: Errno)
    requires RefsExact(fs, others, s.fids)
    ensures Judge(fs, others, s, Raise(fs, s, e)).Sound?
  {
  }

  lemma ReplyIsSound(fs: Fs, others: Id -> nat, s: Session, d: Done, bytes: nat)
    requires Judge(fs, others, s, d).Sound?
    ensures Judge(fs, others, s, d.(result := Ok(bytes))).Sound?
  {
  }

  lemma StableIsSound(fs: Fs, others: Id -> nat, s: Session, d: Done)
    requires RefsExact(fs, others, s.fids) && RefsStable(fs, d.fs) && d.session == s && d.result.Ok?
    ensures Judge(fs, others, s, d).Sound?
  {
    StableKeepsRefs(fs, d.fs, others, s.fids);
  }

  lemma InsertIsStable(fs: Fs, p: Id, n: Name, k: Kind)
    requires (forall id :: id in fs.inodes ==> id < fs.nextInode) && Insert(fs, p, n, k).Ok?
    ensures RefsStable(fs, Insert(fs, p, n, k).value.0)
  {
  }

  lemma RemoveIsStable(fs: Fs, p: Id, n: Name)
    requires IsDir(fs.inodes, p) && n in fs.inodes[p].kind.entries && fs.inodes[p].kind.entries[n].inode in fs.inodes
    ensures RefsStable(fs, RemoveEntry(fs, p, n))
  {
  }

  lemma RemoveAtIsStable(fs: Fs, p: Id, n: Name)
    requires RemoveAt(fs, p, n).Ok?
    ensures RefsStable(fs, RemoveAt(fs, p, n).value)
  {
    RemoveIsStable(fs, p, n);
  }

  lemma RenameAtIsStable(fs: Fs, p: Id, n: Name, q: Id, o: Name)
    requires Inv(fs) && RenameAt(fs, p, n, q, o).Ok?
    ensures RefsStable(fs, RenameAt(fs, p, n, q, o).value)
  {
    if Moves(fs, p, n, q, o) {
      var id := fs.inodes[p].kind.entries[n].inode;
      RenameIsReady(fs, p, n, q, o);
      MovesIsRelocatable(fs, p, n, q, o);
      RelocationKeepsInv(fs, p, n, q, o, id);
      RelocationIsStable(fs, p, n, q, o, id);
    }
  }

  lemma RelocationIsStable(fs: Fs, p: Id, n: Name, q: Id, o: Name, id: Id)
    requires Relocatable(fs.inodes, fs.root, p, n, q, o, id)
    requires o in fs.inodes[q].kind.entries ==> Removable(fs, q, o)
    requires var gone := Displaced(fs, q, o);
             && HasEntry(gone.inodes, p, n, id) && IsDir(gone.inodes, q) && id in gone.inodes
             && Moved(gone.inodes, MoveEntry(gone, p, n, q, o, RenameCookie(fs, p, n, q)).inodes, p, n, q, o, id)
    ensures RefsStable(fs, MoveEntry(Displaced(fs, q, o), p, n, q, o, RenameCookie(fs, p, n, q)))
  {
    var gone := Displaced(fs, q, o);
    if o in fs.inodes[q].kind.entries { RemoveIsStable(fs, q, o); }
    assert RefsStable(fs, gone);
    MovedRefs(gone.inodes, MoveEntry(gone, p, n, q, o, RenameCookie(fs, p, n, q)).inodes, p, n, q, o, id);
  }

  lemma MovedRefs(m: Arena, after: Arena, p: Id, n: Name, q: Id, o: Name, id: Id)
    requires Moved(m, after, p, n, q, o, id)
    ensures after.Keys == m.Keys && forall x :: x in m ==> after[x].fidRefs == m[x].fidRefs
  {
  }

  lemma TruncateIsStable(fs: Fs, id: Id, size: nat)
    requires Truncate(fs, id, size).Ok?
    ensures RefsStable(fs, Truncate(fs, id, size).value)
  {
  }

  lemma TruncateForIsStable(fs: Fs, id: Id, flags: bv32)
    requires TruncateFor(fs, id, flags).Ok?
    ensures RefsStable(fs, TruncateFor(fs, id, flags).value)
  {
  }

  // ----------------------------------------------------------- request by request

  lemma VersionIsSound(fs: Fs, others: Id -> nat, s: Session, tag: nat, size: nat, version: string, capacity: nat)
    requires RefsExact(fs, others, s.fids)
    ensures Judge(fs, others, s, VersionRequest(fs, s, tag, size, version, capacity)).Sound?
  {
    ReleaseFidsKeepsRefs(fs, others, s);
  }

  lemma BoundedPut(s: Session, number: U32, fid: Fid)
    requires number in s.fids || CheckNewFid(s, number).None?
    ensures Bounded(s) ==> Bounded(s.(fids := s.fids[number := fid]))
  {
    if number in s.fids {
      assert s.fids[number := fid].Keys == s.fids.Keys;
      assert |s.fids[number := fid]| == |s.fids[number := fid].Keys|;
    }
  }

  lemma InstallIsSound(fs: Fs, others: Id -> nat, s: Session, number: U32, fid: Fid)
    requires RefsExact(fs, others, s.fids) && (number in s.fids || CheckNewFid(s, number).None?)
    ensures Judge(fs, others, s, InstallFid(fs, s, number, fid)).Sound?
  {
    InstallKeepsRefs(fs, others, s, number, fid);
    InstallFrame(fs, s, number, fid);
    BoundedPut(s, number, fid);
    var d := InstallFid(fs, s, number, fid);
    if d.result.Err? { RaiseIsSound(fs, others, s, d.result.error); } else { JudgeOk(fs, others, s, d); }
  }

  lemma JudgeOk(fs: Fs, others: Id -> nat, s: Session, d: Done)
    requires d.result.Ok? && RefsExact(d.fs, others, d.session.fids) && Frame(fs, d.fs) && SessionKept(s, d.session)
    ensures Judge(fs, others, s, d).Sound?
  {
  }

  lemma InstallFrame(fs: Fs, s: Session, number: U32, fid: Fid)
    ensures Frame(fs, InstallFid(fs, s, number, fid).fs)
  {
  }

  lemma AttachIsSound(fs: Fs, others: Id -> nat, s: Session, fid: U32, afid: U32, capacity: nat)
    requires RefsExact(fs, others, s.fids)
    ensures Judge(fs, others, s, AttachRequest(fs, s, fid, afid, capacity)).Sound?
  {
    var d := InstallFid(fs, s, fid, Fid(fs.root, None));
    if CheckNewFid(s, fid).None? && afid == NOFID && 20 <= capacity {
      InstallIsSound(fs, others, s, fid, Fid(fs.root, None));
      ReplyIsSound(fs, others, s, d, 20);
    } else {
      RaiseIsSound(fs, others, s, AttachRequest(fs, s, fid, afid, capacity).result.error);
    }
  }

  lemma WalkIsSound(fs: Fs, others: Id -> nat, s: Session, fid: U32, newFid: U32, names: seq<Name>, capacity: nat)
    requires RefsExact(fs, others, s.fids)
    ensures Judge(fs, others, s, WalkRequest(fs, s, fid, newFid, names, capacity)).Sound?
  {
    if fid !in s.fids || s.fids[fid].open.Some? {
      RaiseIsSound(fs, others, s, EBADF);
    } else if newFid != fid && CheckNewFid(s, newFid).Some? {
      RaiseIsSound(fs, others, s, CheckNewFid(s, newFid).value);
    } else {
      WalkedIsSound(fs, others, s, fid, newFid, names, WalkNames(fs, s.fids[fid].inode, names), capacity);
    }
  }

  lemma WalkedIsSound(fs: Fs, others: Id -> nat, s: Session, fid: U32, newFid: U32, names: seq<Name>, w: Walked,
                      capacity: nat)
    requires RefsExact(fs, others, s.fids) && fid in s.fids && s.fids[fid].open.None?
    requires newFid == fid || CheckNewFid(s, newFid).None?
    requires w == WalkNames(fs, s.fids[fid].inode, names)
    ensures Judge(fs, others, s, WalkRequest(fs, s, fid, newFid, names, capacity)).Sound?
  {
    if w.stop.Some? && (w.passed == [] || w.stop == Some(ESTALE)) {
      RaiseIsSound(fs, others, s, w.stop.value);
    } else if 9 + 13 * |w.passed| > capacity {
      RaiseIsSound(fs, others, s, ENOSPC);
    } else if |w.passed| < |names| {
      RaiseIsSound(fs, others, s, ENOSPC);
      ReplyIsSound(fs, others, s, Raise(fs, s, ENOSPC), 9 + 13 * |w.passed|);
    } else {
      var target := if w.passed == [] then s.fids[fid].inode else w.passed[|w.passed| - 1];
      InstallIsSound(fs, others, s, newFid, s.fids[fid].(inode := target));
      ReplyIsSound(fs, others, s, InstallFid(fs, s, newFid, s.fids[fid].(inode := target)), 9 + 13 * |w.passed|);
    }
  }

  lemma OpenMarkIsSound(fs: Fs, others: Id -> nat, s: Session, f: Fs, fid: U32, flags: bv32)
    requires RefsExact(fs, others, s.fids) && RefsStable(fs, f) && fid in s.fids
    ensures Judge(fs, others, s, Done(f, s.(fids := s.fids[fid := s.fids[fid].(open := Some(flags))]), Ok(24))).Sound?
  {
    StableKeepsRefs(fs, f, others, s.fids);
    var marked := s.fids[fid := s.fids[fid].(open := Some(flags))];
    forall id ensures FidsOn(marked, id) == FidsOn(s.fids, id) {
      assert NumbersOn(marked, id) == NumbersOn(s.fids, id);
    }
    BoundedPut(s, fid, s.fids[fid].(open := Some(flags)));
  }

  lemma OpenIsSound(fs: Fs, others: Id -> nat, s: Session, fid: U32, flags: bv32, capacity: nat)
    requires RefsExact(fs, others, s.fids) && capacity >= 24
    ensures Judge(fs, others, s, OpenRequest(fs, s, fid, flags, capacity)).Sound?
  {
    var d := OpenRequest(fs, s, fid, flags, capacity);
    if d.result.Err? {
      RaiseIsSound(fs, others, s, d.result.error);
    } else {
      TruncateForIsStable(fs, s.fids[fid].inode, flags);
      OpenMarkIsSound(fs, others, s, TruncateFor(fs, s.fids[fid].inode, flags).value, fid, flags);
    }
  }

  /** The one request that can fail half way: truncating a file whose reference counter is full. */
  ghost predicate SaturatedTruncate(fs: Fs, s: Session, r: Request) {
    && r.Create? && Truncates(r.flags)
    && DirectoryError(fs, s, r.fid).None? && s.fids[r.fid].open.None?
    && FlagsError(r.flags).None? && !WantsDirectory(r.flags) && r.flags & 0x80 == 0 && NameError(r.name).None?
    && var c := Child(fs.inodes, s.fids[r.fid].inode, r.name);
       c.Ok? && c.value in fs.inodes && fs.inodes[c.value].kind.File? && fs.inodes[c.value].fidRefs >= U32_MAX
  }

  lemma CreateTargetFacts(fs: Fs, d: Id, name: Name, flags: bv32)
    requires (forall id :: id in fs.inodes ==> id < fs.nextInode) && CreateTarget(fs, d, name, flags).Ok?
    ensures var (f, id) := CreateTarget(fs, d, name, flags).value;
            && RefsStable(fs, f) && id in f.inodes
            && (f.inodes[id].fidRefs < U32_MAX || f == fs
                || (Truncates(flags) && NameError(name).None? && flags & 0x80 == 0
                    && Child(fs.inodes, d, name) == Ok(id)
                    && id in fs.inodes && fs.inodes[id].kind.File? && fs.inodes[id].fidRefs >= U32_MAX))
  {
    if NameError(name).None? && Child(fs.inodes, d, name).Ok? {
      TruncateForIsStable(fs, Child(fs.inodes, d, name).value, flags);
    } else {
      InsertIsStable(fs, d, name, File([]));
    }
  }

  lemma CreateIsSound(fs: Fs, others: Id -> nat, s: Session, fid: U32, name: Name, flags: bv32, capacity: nat)
    requires RefsExact(fs, others, s.fids) && capacity >= 24 && (forall id :: id in fs.inodes ==> id < fs.nextInode)
    requires !SaturatedTruncate(fs, s, Create(fid, name, flags))
    ensures Judge(fs, others, s, CreateRequest(fs, s, fid, name, flags, capacity)).Sound?
  {
    var d := CreateRequest(fs, s, fid, name, flags, capacity);
    if d == Raise(fs, s, if d.result.Err? then d.result.error else 0) {
      RaiseIsSound(fs, others, s, if d.result.Err? then d.result.error else 0);
    } else {
      CreatedIsSound(fs, others, s, fid, name, flags);
      CreateIsInstall(fs, s, fid, name, flags, capacity);
    }
  }

  lemma CreateIsInstall(fs: Fs, s: Session, fid: U32, name: Name, flags: bv32, capacity: nat)
    requires capacity >= 24
    ensures var d := CreateRequest(fs, s, fid, name, flags, capacity);
            || (d.result.Err? && d == Raise(fs, s, d.result.error))
            || (&& fid in s.fids && CreateTarget(fs, s.fids[fid].inode, name, flags).Ok?
                && var (f, id) := CreateTarget(fs, s.fids[fid].inode, name, flags).value;
                   var e := InstallFid(f, s, fid, Fid(id, Some(flags)));
                   d == if e.result.Err? then e else e.(result := Ok(24)))
  {
  }

  lemma CreatedIsSound(fs: Fs, others: Id -> nat, s: Session, fid: U32, name: Name, flags: bv32)
    requires RefsExact(fs, others, s.fids) && (forall id :: id in fs.inodes ==> id < fs.nextInode)
    requires DirectoryError(fs, s, fid).None? && s.fids[fid].open.None? && FlagsError(flags).None?
             && !WantsDirectory(flags)
    requires !SaturatedTruncate(fs, s, Create(fid, name, flags)) && CreateTarget(fs, s.fids[fid].inode, name, flags).Ok?
    ensures var (f, id) := CreateTarget(fs, s.fids[fid].inode, name, flags).value;
            var e := InstallFid(f, s, fid, Fid(id, Some(flags)));
            Judge(fs, others, s, e).Sound? && Judge(fs, others, s, e.(result := Ok(24))).Sound?
  {
    var (f, id) := CreateTarget(fs, s.fids[fid].inode, name, flags).value;
    CreateTargetFacts(fs, s.fids[fid].inode, name, flags);
    CreateInstalls(fs, others, s, fid, f, Fid(id, Some(flags)));
    ReplyIsSound(fs, others, s, InstallFid(f, s, fid, Fid(id, Some(flags))), 24);
  }

  lemma CreateInstalls(fs: Fs, others: Id -> nat, s: Session, number: U32, f: Fs, fid: Fid)
    requires RefsExact(fs, others, s.fids) && RefsStable(fs, f) && number in s.fids
    requires fid.inode in f.inodes && (f.inodes[fid.inode].fidRefs < U32_MAX || f == fs)
    ensures Judge(fs, others, s, InstallFid(f, s, number, fid)).Sound?
  {
    StableKeepsRefs(fs, f, others, s.fids);
    InstallKeepsRefs(f, others, s, number, fid);
    InstallIsSound(f, others, s, number, fid);
  }

  lemma WriteIsSound(fs: Fs, others: Id -> nat, s: Session, fid: U32, offset: nat, data: seq<byte>, capacity: nat)
    requires RefsExact(fs, others, s.fids) && capacity >= 11
    ensures Judge(fs, others, s, WriteRequest(fs, s, fid, offset, data, capacity)).Sound?
  {
    var d := WriteRequest(fs, s, fid, offset, data, capacity);
    if d.result.Err? { RaiseIsSound(fs, others, s, d.result.error); } else { StableIsSound(fs, others, s, d); }
  }

  lemma SetattrIsSound(fs: Fs, others: Id -> nat, s: Session, fid: U32, mask: bv32, size: nat, a: nat, m: nat)
    requires RefsExact(fs, others, s.fids)
    ensures Judge(fs, others, s, SetattrRequest(fs, s, fid, mask, size, a, m)).Sound?
  {
    var d := SetattrRequest(fs, s, fid, mask, size, a, m);
    if d.result.Err? { RaiseIsSound(fs, others, s, d.result.error); } else { StableIsSound(fs, others, s, d); }
  }

  lemma ClunkIsSound(fs: Fs, others: Id -> nat, s: Session, fid: U32)
    requires RefsExact(fs, others, s.fids)
    ensures Judge(fs, others, s, ClunkRequest(fs, s, fid)).Sound?
  {
    if fid in s.fids {
      ReleaseDropsOne(fs, others, s.fids, fid);
      BoundedDrop(s, fid);
      ReleaseFrame(fs, s.fids[fid].inode);
    } else {
      RaiseIsSound(fs, others, s, EBADF);
    }
  }

  lemma BoundedDrop(s: Session, number: U32)
    requires number in s.fids
    ensures Bounded(s) ==> Bounded(s.(fids := s.fids - {number}))
  {
    assert (s.fids - {number}).Keys == s.fids.Keys - {number};
    assert |s.fids - {number}| == |(s.fids - {number}).Keys|;
  }

  lemma ReleaseFrame(fs: Fs, id: Id)
    requires ReleaseFid(fs, id).Ok?
    ensures Frame(fs, ReleaseFid(fs, id).value)
  {
  }

  lemma ApplyIsSound(fs: Fs, others: Id -> nat, s: Session, r: Outcome<Fs>, bytes: nat, capacity: nat)
    requires RefsExact(fs, others, s.fids) && bytes <= capacity && (r.Ok? ==> RefsStable(fs, r.value))
    ensures Judge(fs, others, s, Apply(fs, s, r, bytes, capacity)).Sound?
  {
    var d := Apply(fs, s, r, bytes, capacity);
    if r.Err? { RaiseIsSound(fs, others, s, ErrnoOf(r.error)); } else { StableIsSound(fs, others, s, d); }
  }

  lemma MkdirIsSound(fs: Fs, others: Id -> nat, s: Session, fid: U32, name: Name, capacity: nat)
    requires RefsExact(fs, others, s.fids) && capacity >= 20 && (forall id :: id in fs.inodes ==> id < fs.nextInode)
    ensures Judge(fs, others, s, MkdirRequest(fs, s, fid, name, capacity)).Sound?
  {
    var e := DirectoryError(fs, s, fid);
    if e.Some? { RaiseIsSound(fs, others, s, e.value); }
    else {
      var r := MkdirAt(fs, s.fids[fid].inode, name);
      if r.Ok? { InsertIsStable(fs, s.fids[fid].inode, name, Directory(map[], 1)); }
      ApplyIsSound(fs, others, s, Created(r), 20, capacity);
    }
  }

  lemma SymlinkIsSound(fs: Fs, others: Id -> nat, s: Session, fid: U32, name: Name, target: string, capacity: nat)
    requires RefsExact(fs, others, s.fids) && capacity >= 20 && (forall id :: id in fs.inodes ==> id < fs.nextInode)
    ensures Judge(fs, others, s, SymlinkRequest(fs, s, fid, name, target, capacity)).Sound?
  {
    var e := DirectoryError(fs, s, fid);
    if e.Some? { RaiseIsSound(fs, others, s, e.value); }
    else {
      var r := SymlinkAt(fs, s.fids[fid].inode, name, target);
      if r.Ok? { InsertIsStable(fs, s.fids[fid].inode, name, Symlink(target)); }
      ApplyIsSound(fs, others, s, Created(r), 20, capacity);
    }
  }

  lemma LinkIsSound(fs: Fs, others: Id -> nat, s: Session, directory: U32, fid: U32, name: Name, capacity: nat)
    requires RefsExact(fs, others, s.fids) && capacity >= 7
    ensures Judge(fs, others, s, LinkRequest(fs, s, directory, fid, name, capacity)).Sound?
  {
    var d := LinkRequest(fs, s, directory, fid, name, capacity);
    if d.result.Err? { RaiseIsSound(fs, others, s, d.result.error); }
    else {
      ApplyIsSound(fs, others, s, LinkAt(fs, s.fids[directory].inode, name, s.fids[fid].inode), 7, capacity);
    }
  }

  lemma RenameIsSound(fs: Fs, others: Id -> nat, s: Session, p: U32, n: Name, q: U32, o: Name, capacity: nat)
    requires Inv(fs) && RefsExact(fs, others, s.fids) && capacity >= 7
    ensures Judge(fs, others, s, RenameRequest(fs, s, p, n, q, o, capacity)).Sound?
  {
    var e, f := DirectoryError(fs, s, p), DirectoryError(fs, s, q);
    if e.Some? { RaiseIsSound(fs, others, s, e.value); }
    else if f.Some? { RaiseIsSound(fs, others, s, f.value); }
    else {
      var r := RenameAt(fs, s.fids[p].inode, n, s.fids[q].inode, o);
      if r.Ok? { RenameAtIsStable(fs, s.fids[p].inode, n, s.fids[q].inode, o); }
      ApplyIsSound(fs, others, s, r, 7, capacity);
    }
  }

  lemma UnlinkIsSound(fs: Fs, others: Id -> nat, s: Session, directory: U32, name: Name, flags: bv32, capacity: nat)
    requires RefsExact(fs, others, s.fids) && capacity >= 7
    ensures Judge(fs, others, s, UnlinkRequest(fs, s, directory, name, flags, capacity)).Sound?
  {
    var d := UnlinkRequest(fs, s, directory, name, flags, capacity);
    if d.result.Err? { RaiseIsSound(fs, others, s, d.result.error); }
    else {
      RemoveAtIsStable(fs, s.fids[directory].inode, name);
      ApplyIsSound(fs, others, s, RemoveAt(fs, s.fids[directory].inode, name), 7, capacity);
    }
  }

  lemma LockIsSound(fs: Fs, others: Id -> nat, s: Session, r: Request, capacity: nat)
    requires RefsExact(fs, others, s.fids) && capacity >= 8 && r.LockRange?
    ensures Judge(fs, others, s, LockRequest(fs, s, r, capacity)).Sound?
  {
    var d := LockRequest(fs, s, r, capacity);
    if d.result.Err? { RaiseIsSound(fs, others, s, d.result.error); } else { StableIsSound(fs, others, s, d); }
  }

  /** Every request keeps references exact, and a request that fails changes nothing. */
  lemma ExecuteIsSound(fs: Fs, others: Id -> nat, s: Session, tag: nat, r: Request, capacity: nat)
    requires Inv(fs) && RefsExact(fs, others, s.fids)
    requires MinimumReply(r) <= capacity && 7 <= capacity && !SaturatedTruncate(fs, s, r)
    ensures Judge(fs, others, s, Execute(fs, s, tag, r, capacity)).Sound?
  {
    if ActsOnFids(r) {
      FidRequestIsSound(fs, others, s, tag, r, capacity);
    } else {
      EntryRequestIsSound(fs, others, s, tag, r, capacity);
    }
  }

  lemma FidRequestIsSound(fs: Fs, others: Id -> nat, s: Session, tag: nat, r: Request, capacity: nat)
    requires Inv(fs) && RefsExact(fs, others, s.fids) && ActsOnFids(r)
    requires MinimumReply(r) <= capacity && 7 <= capacity && !SaturatedTruncate(fs, s, r)
    ensures Judge(fs, others, s, Execute(fs, s, tag, r, capacity)).Sound?
  {
    match r
    case Version(size, version) => VersionIsSound(fs, others, s, tag, size, version, capacity);
    case Flush => StableIsSound(fs, others, s, Execute(fs, s, tag, r, capacity));
    case Attach(fid, afid) => AttachIsSound(fs, others, s, fid, afid, capacity);
    case Walk(fid, newFid, names) => WalkIsSound(fs, others, s, fid, newFid, names, capacity);
    case Open(fid, flags) => OpenIsSound(fs, others, s, fid, flags, capacity);
    case Create(fid, name, flags) => CreateIsSound(fs, others, s, fid, name, flags, capacity);
    case Write(fid, offset, data) => WriteIsSound(fs, others, s, fid, offset, data, capacity);
    case Clunk(fid) => ClunkIsSound(fs, others, s, fid);
    case Query(_, answer) => QueryIsSound(fs, others, s, answer);
  }

  lemma EntryRequestIsSound(fs: Fs, others: Id -> nat, s: Session, tag: nat, r: Request, capacity: nat)
    requires Inv(fs) && RefsExact(fs, others, s.fids) && !ActsOnFids(r)
    requires MinimumReply(r) <= capacity && 7 <= capacity && !SaturatedTruncate(fs, s, r)
    ensures Judge(fs, others, s, Execute(fs, s, tag, r, capacity)).Sound?
  {
    match r
    case Setattr(fid, mask, size, a, m) => SetattrIsSound(fs, others, s, fid, mask, size, a, m);
    case MakeSymlink(fid, name, target) => SymlinkIsSound(fs, others, s, fid, name, target, capacity);
    case Mkdir(fid, name) => MkdirIsSound(fs, others, s, fid, name, capacity);
    case Link(directory, fid, name) => LinkIsSound(fs, others, s, directory, fid, name, capacity);
    case Rename(p, n, q, o) => RenameIsSound(fs, others, s, p, n, q, o, capacity);
    case Unlink(directory, name, flags) => UnlinkIsSound(fs, others, s, directory, name, flags, capacity);
    case LockRange(_, _, _, _, _, _, _) => LockIsSound(fs, others, s, r, capacity);
  }

  lemma QueryIsSound(fs: Fs, others: Id -> nat, s: Session, answer: Result<nat, Errno>)
    requires RefsExact(fs, others, s.fids)
    ensures Judge(fs, others, s, Done(fs, s, answer)).Sound?
  {
  }

  // ------------------------------------------------------ the tree invariant

  lemma VersionKeepsInv(fs: Fs, s: Session, tag: nat, size: nat, version: string, capacity: nat)
    requires Inv(fs)
    ensures Inv(VersionRequest(fs, s, tag, size, version, capacity).fs)
  {
    if ReleaseFids(fs, s).Ok? { ReleaseFidsKeepsInv(fs, s); }
  }

  lemma AttachKeepsInv(fs: Fs, s: Session, fid: U32, afid: U32, capacity: nat)
    requires Inv(fs)
    ensures Inv(AttachRequest(fs, s, fid, afid, capacity).fs)
  {
    InstallFidKeepsInv(fs, s, fid, Fid(fs.root, None));
  }

  lemma WalkKeepsInv(fs: Fs, s: Session, fid: U32, newFid: U32, names: seq<Name>, capacity: nat)
    requires Inv(fs)
    ensures Inv(WalkRequest(fs, s, fid, newFid, names, capacity).fs)
  {
    if WalkRequest(fs, s, fid, newFid, names, capacity).fs != fs {
      var bound := WalkChanges(fs, s, fid, newFid, names, capacity);
      InstallFidKeepsInv(fs, s, newFid, bound);
    }
  }

  lemma WalkChanges(fs: Fs, s: Session, fid: U32, newFid: U32, names: seq<Name>, capacity: nat) returns (bound: Fid)
    requires WalkRequest(fs, s, fid, newFid, names, capacity).fs != fs
    ensures WalkRequest(fs, s, fid, newFid, names, capacity).fs == InstallFid(fs, s, newFid, bound).fs
  {
    var w := WalkNames(fs, s.fids[fid].inode, names);
    bound := s.fids[fid].(inode := if w.passed == [] then s.fids[fid].inode else w.passed[|w.passed| - 1]);
  }

  lemma ClunkKeepsInv(fs: Fs, s: Session, fid: U32)
    requires Inv(fs)
    ensures Inv(ClunkRequest(fs, s, fid).fs)
  {
    if fid in s.fids && ReleaseFid(fs, s.fids[fid].inode).Ok? { ReleaseFidKeepsInv(fs, s.fids[fid].inode); }
  }

  lemma TruncateForKeepsInv(fs: Fs, id: Id, flags: bv32)
    requires Inv(fs) && TruncateFor(fs, id, flags).Ok?
    ensures Inv(TruncateFor(fs, id, flags).value)
  {
    if Truncates(flags) { TruncateKeepsInv(fs, id, 0); }
  }

  lemma CreateTargetKeepsInv(fs: Fs, d: Id, name: Name, flags: bv32)
    requires Inv(fs) && CreateTarget(fs, d, name, flags).Ok?
    ensures Inv(CreateTarget(fs, d, name, flags).value.0)
  {
    if NameError(name).None? && Child(fs.inodes, d, name).Ok? {
      TruncateForKeepsInv(fs, Child(fs.inodes, d, name).value, flags);
    } else {
      InsertKeepsInv(fs, d, name, File([]));
    }
  }

  lemma CreateChanges(fs: Fs, s: Session, fid: U32, name: Name, flags: bv32, capacity: nat)
    requires CreateRequest(fs, s, fid, name, flags, capacity).fs != fs
    ensures fid in s.fids && CreateTarget(fs, s.fids[fid].inode, name, flags).Ok?
    ensures var (f, id) := CreateTarget(fs, s.fids[fid].inode, name, flags).value;
            CreateRequest(fs, s, fid, name, flags, capacity).fs == InstallFid(f, s, fid, Fid(id, Some(flags))).fs
  {
  }

  lemma CreateKeepsInv(fs: Fs, s: Session, fid: U32, name: Name, flags: bv32, capacity: nat)
    requires Inv(fs)
    ensures Inv(CreateRequest(fs, s, fid, name, flags, capacity).fs)
  {
    if CreateRequest(fs, s, fid, name, flags, capacity).fs != fs {
      CreateChanges(fs, s, fid, name, flags, capacity);
      var (f, id) := CreateTarget(fs, s.fids[fid].inode, name, flags).value;
      CreateTargetKeepsInv(fs, s.fids[fid].inode, name, flags);
      InstallFidKeepsInv(f, s, fid, Fid(id, Some(flags)));
    }
  }

  lemma OpenKeepsInv(fs: Fs, s: Session, fid: U32, flags: bv32, capacity: nat)
    requires Inv(fs)
    ensures Inv(OpenRequest(fs, s, fid, flags, capacity).fs)
  {
    var after := OpenRequest(fs, s, fid, flags, capacity).fs;
    if after != fs {
      OpenChanges(fs, s, fid, flags, capacity);
      TruncateForKeepsInv(fs, s.fids[fid].inode, flags);
    }
  }

  lemma OpenChanges(fs: Fs, s: Session, fid: U32, flags: bv32, capacity: nat)
    requires OpenRequest(fs, s, fid, flags, capacity).fs != fs
    ensures fid in s.fids
    ensures TruncateFor(fs, s.fids[fid].inode, flags) == Ok(OpenRequest(fs, s, fid, flags, capacity).fs)
  {
  }

  lemma WriteKeepsInv(fs: Fs, s: Session, fid: U32, offset: nat, data: seq<byte>, capacity: nat)
    requires Inv(fs)
    ensures Inv(WriteRequest(fs, s, fid, offset, data, capacity).fs)
  {
    if fid in s.fids && s.fids[fid].open.Some? {
      var append := Appends(s.fids[fid].open.value);
      if WriteInode(fs, s.fids[fid].inode, offset, data, append).Ok? {
        WriteInodeKeepsInv(fs, s.fids[fid].inode, offset, data, append);
      }
    }
  }

  lemma SetattrKeepsInv(fs: Fs, s: Session, fid: U32, mask: bv32, size: nat, a: nat, m: nat)
    requires Inv(fs)
    ensures Inv(SetattrRequest(fs, s, fid, mask, size, a, m).fs)
  {
    if fid in s.fids && Truncate(fs, s.fids[fid].inode, size).Ok? { TruncateKeepsInv(fs, s.fids[fid].inode, size); }
  }

  lemma LockKeepsInv(fs: Fs, s: Session, r: Request, capacity: nat)
    requires Inv(fs) && r.LockRange?
    ensures Inv(LockRequest(fs, s, r, capacity).fs)
  {
    var l := LockRequested(fs, s, r);
    if l.Ok? && r.kind == 2 {
      if Unlock(fs, l.value).Ok? { UnlockKeepsInv(fs, l.value); }
    } else if l.Ok? && TryLock(fs, l.value).Ok? {
      TryLockKeepsInv(fs, l.value);
    }
  }

  lemma SymlinkKeepsInv(fs: Fs, s: Session, fid: U32, name: Name, target: string, capacity: nat)
    requires Inv(fs)
    ensures Inv(SymlinkRequest(fs, s, fid, name, target, capacity).fs)
  {
    if DirectoryError(fs, s, fid).None? && SymlinkAt(fs, s.fids[fid].inode, name, target).Ok? {
      InsertKeepsInv(fs, s.fids[fid].inode, name, Symlink(target));
    }
  }

  lemma MkdirKeepsInv(fs: Fs, s: Session, fid: U32, name: Name, capacity: nat)
    requires Inv(fs)
    ensures Inv(MkdirRequest(fs, s, fid, name, capacity).fs)
  {
    if DirectoryError(fs, s, fid).None? && MkdirAt(fs, s.fids[fid].inode, name).Ok? {
      InsertKeepsInv(fs, s.fids[fid].inode, name, Directory(map[], 1));
    }
  }

  lemma LinkKeepsInv(fs: Fs, s: Session, directory: U32, fid: U32, name: Name, capacity: nat)
    requires Inv(fs)
    ensures Inv(LinkRequest(fs, s, directory, fid, name, capacity).fs)
  {
    if DirectoryError(fs, s, directory).None? && fid in s.fids
       && LinkAt(fs, s.fids[directory].inode, name, s.fids[fid].inode).Ok? {
      LinkAtKeepsInv(fs, s.fids[directory].inode, name, s.fids[fid].inode);
    }
  }

  lemma RenameKeepsInv(fs: Fs, s: Session, p: U32, n: Name, q: U32, o: Name, capacity: nat)
    requires Inv(fs)
    ensures Inv(RenameRequest(fs, s, p, n, q, o, capacity).fs)
  {
    if DirectoryError(fs, s, p).None? && DirectoryError(fs, s, q).None?
       && RenameAt(fs, s.fids[p].inode, n, s.fids[q].inode, o).Ok? {
      RenameAtKeepsInv(fs, s.fids[p].inode, n, s.fids[q].inode, o);
    }
  }

  lemma UnlinkKeepsInv(fs: Fs, s: Session, directory: U32, name: Name, flags: bv32, capacity: nat)
    requires Inv(fs)
    ensures Inv(UnlinkRequest(fs, s, directory, name, flags, capacity).fs)
  {
    if DirectoryError(fs, s, directory).None? && RemoveAt(fs, s.fids[directory].inode, name).Ok? {
      RemoveAtKeepsInv(fs, s.fids[directory].inode, name);
    }
  }

  /** Requests that act on fids and file contents; the others act on directory entries. */
  predicate ActsOnFids(r: Request) {
    r.Version? || r.Attach? || r.Walk? || r.Create? || r.Clunk? || r.Open? || r.Write? || r.Flush? || r.Query?
  }

  lemma ExecuteKeepsInv(fs: Fs, s: Session, tag: nat, r: Request, capacity: nat)
    requires Inv(fs)
    ensures Inv(Execute(fs, s, tag, r, capacity).fs)
  {
    if ActsOnFids(r) {
      FidRequestKeepsInv(fs, s, tag, r, capacity);
    } else {
      EntryRequestKeepsInv(fs, s, tag, r, capacity);
    }
  }

  lemma FidRequestKeepsInv(fs: Fs, s: Session, tag: nat, r: Request, capacity: nat)
    requires Inv(fs) && ActsOnFids(r)
    ensures Inv(Execute(fs, s, tag, r, capacity).fs)
  {
    match r
    case Version(size, version) => VersionKeepsInv(fs, s, tag, size, version, capacity);
    case Attach(fid, afid) => AttachKeepsInv(fs, s, fid, afid, capacity);
    case Walk(fid, newFid, names) => WalkKeepsInv(fs, s, fid, newFid, names, capacity);
    case Create(fid, name, flags) => CreateKeepsInv(fs, s, fid, name, flags, capacity);
    case Clunk(fid) => ClunkKeepsInv(fs, s, fid);
    case Open(fid, flags) => OpenKeepsInv(fs, s, fid, flags, capacity);
    case Write(fid, offset, data) => WriteKeepsInv(fs, s, fid, offset, data, capacity);
    case _ =>
  }

  lemma EntryRequestKeepsInv(fs: Fs, s: Session, tag: nat, r: Request, capacity: nat)
    requires Inv(fs) && !ActsOnFids(r)
    ensures Inv(Execute(fs, s, tag, r, capacity).fs)
  {
    match r
    case Setattr(fid, mask, size, a, m) => SetattrKeepsInv(fs, s, fid, mask, size, a, m);
    case LockRange(_, _, _, _, _, _, _) => LockKeepsInv(fs, s, r, capacity);
    case MakeSymlink(fid, name, target) => SymlinkKeepsInv(fs, s, fid, name, target, capacity);
    case Mkdir(fid, name) => MkdirKeepsInv(fs, s, fid, name, capacity);
    case Link(directory, fid, name) => LinkKeepsInv(fs, s, directory, fid, name, capacity);
    case Rename(p, n, q, o) => RenameKeepsInv(fs, s, p, n, q, o, capacity);
    case Unlink(directory, name, flags) => UnlinkKeepsInv(fs, s, directory, name, flags, capacity);
  }

  // ----------------------------------------------------------------- the world

  /** The references held by every session but k. */
  ghost function Others(sessions: map<nat, Session>, g: nat, n: nat, k: nat): Id -> nat {
    id => RefsBelow(sessions - {k}, g, n, id)
  }

  ghost predicate SessionOk(fs: Fs, s: Session) {
    && s.generation <= fs.generation && s.id < fs.nextSession
    && Bounded(s) && (s.closed ==> s.fids == map[])
  }

  /** Inode counters equal the fids of the sessions in the current generation, and none of those dangles. */
  ghost predicate WorldInv(w: World) {
    Inv(w.fs) && RefsInv(w)
  }

  ghost predicate RefsInv(w: World) {
    && SessionsOk(w.fs, w.sessions) && CountsMatch(w.fs, w.sessions) && NoneDangles(w.fs, w.sessions)
  }

  ghost predicate SessionsOk(fs: Fs, sessions: map<nat, Session>) {
    forall k :: k in sessions ==> sessions[k].id == k && SessionOk(fs, sessions[k])
  }

  ghost predicate CountsMatch(fs: Fs, sessions: map<nat, Session>) {
    forall id :: id in fs.inodes ==> fs.inodes[id].fidRefs == RefsBelow(sessions, fs.generation, fs.nextSession, id)
  }

  ghost predicate NoneDangles(fs: Fs, sessions: map<nat, Session>) {
    forall k, f :: k in sessions && sessions[k].generation == fs.generation && f in sessions[k].fids ==>
      sessions[k].fids[f].inode in fs.inodes
  }

  lemma {:induction false} RefsWithout(sessions: map<nat, Session>, g: nat, n: nat, k: nat, id: Id)
    requires k in sessions
    ensures RefsBelow(sessions, g, n, id)
            == RefsBelow(sessions - {k}, g, n, id)
               + (if k < n && sessions[k].generation == g then FidsOn(sessions[k].fids, id) else 0)
  {
    if n > 0 { RefsWithout(sessions, g, n - 1, k, id); }
  }

  lemma {:induction false} RefsOfSomeone(sessions: map<nat, Session>, g: nat, n: nat, id: Id) returns (k: nat, f: U32)
    requires RefsBelow(sessions, g, n, id) > 0
    ensures k in sessions && sessions[k].generation == g && f in sessions[k].fids && sessions[k].fids[f].inode == id
  {
    if n - 1 in sessions && sessions[n - 1].generation == g && FidsOn(sessions[n - 1].fids, id) > 0 {
      k := n - 1;
      var x :| x in NumbersOn(sessions[k].fids, id);
      f := x;
    } else {
      k, f := RefsOfSomeone(sessions, g, n - 1, id);
    }
  }

  /** The view of one synced session: its fids plus everybody else's references. */
  lemma SessionView(w: World, k: nat)
    requires RefsInv(w) && k in w.sessions && w.sessions[k].generation == w.fs.generation
    ensures RefsExact(w.fs, Others(w.sessions, w.fs.generation, w.fs.nextSession, k), w.sessions[k].fids)
  {
    var g, n := w.fs.generation, w.fs.nextSession;
    forall id | id in w.fs.inodes
      ensures w.fs.inodes[id].fidRefs == Others(w.sessions, g, n, k)(id) + FidsOn(w.sessions[k].fids, id) {
      RefsWithout(w.sessions, g, n, k, id);
    }
    forall id | Others(w.sessions, g, n, k)(id) > 0 ensures id in w.fs.inodes {
      var j, f := RefsOfSomeone(w.sessions - {k}, g, n, id);
      assert w.sessions[j].fids[f].inode == id;
    }
  }

  lemma ViewCounts(sessions: map<nat, Session>, k: nat, fs: Fs, s: Session, id: Id)
    requires k < fs.nextSession && s.generation == fs.generation && id in fs.inodes
    requires RefsExact(fs, Others(sessions, fs.generation, fs.nextSession, k), s.fids)
    ensures fs.inodes[id].fidRefs == RefsBelow(sessions[k := s], fs.generation, fs.nextSession, id)
  {
    assert sessions[k := s] - {k} == sessions - {k};
    RefsWithout(sessions[k := s], fs.generation, fs.nextSession, k, id);
  }

  /** Conversely, an exact view of one session is an exact world. */
  lemma ViewIsWorld(w: World, k: nat, fs: Fs, s: Session)
    requires RefsInv(w) && k in w.sessions && SessionOk(fs, s) && s.id == k
    requires fs.generation == w.fs.generation && fs.nextSession == w.fs.nextSession
    requires s.generation == fs.generation
    requires RefsExact(fs, Others(w.sessions, fs.generation, fs.nextSession, k), s.fids)
    ensures RefsInv(World(fs, w.sessions[k := s]))
  {
    ViewSessionsOk(w, k, fs, s);
    ViewCountsAll(w.sessions, k, fs, s);
    ViewFidsAll(w.sessions, k, fs, s);
  }

  lemma ViewSessionsOk(w: World, k: nat, fs: Fs, s: Session)
    requires SessionsOk(w.fs, w.sessions) && SessionOk(fs, s) && s.id == k
    requires fs.generation == w.fs.generation && fs.nextSession == w.fs.nextSession
    ensures SessionsOk(fs, w.sessions[k := s])
    ensures forall j :: j in w.sessions ==> j < fs.nextSession
  {
  }

  lemma ViewCountsAll(sessions: map<nat, Session>, k: nat, fs: Fs, s: Session)
    requires k < fs.nextSession && s.generation == fs.generation
    requires RefsExact(fs, Others(sessions, fs.generation, fs.nextSession, k), s.fids)
    ensures CountsMatch(fs, sessions[k := s])
  {
    forall id | id in fs.inodes
      ensures fs.inodes[id].fidRefs == RefsBelow(sessions[k := s], fs.generation, fs.nextSession, id) {
      ViewCounts(sessions, k, fs, s, id);
    }
  }

  lemma ViewFidsAll(sessions: map<nat, Session>, k: nat, fs: Fs, s: Session)
    requires RefsExact(fs, Others(sessions, fs.generation, fs.nextSession, k), s.fids)
    requires forall j :: j in sessions ==> j < fs.nextSession
    ensures NoneDangles(fs, sessions[k := s])
  {
    forall j, f | j in sessions && j != k && sessions[j].generation == fs.generation && f in sessions[j].fids
      ensures sessions[j].fids[f].inode in fs.inodes {
      OtherIsHeld(sessions, fs, k, j, f);
    }
  }

  lemma OtherIsHeld(sessions: map<nat, Session>, fs: Fs, k: nat, j: nat, f: U32)
    requires j in sessions && j != k && j < fs.nextSession && sessions[j].generation == fs.generation
             && f in sessions[j].fids
    requires forall id :: Others(sessions, fs.generation, fs.nextSession, k)(id) > 0 ==> id in fs.inodes
    ensures sessions[j].fids[f].inode in fs.inodes
  {
    HolderCounts(sessions - {k}, fs.generation, fs.nextSession, j, f);
    assert Others(sessions, fs.generation, fs.nextSession, k)(sessions[j].fids[f].inode) > 0;
  }

  lemma {:induction false} HolderCounts(sessions: map<nat, Session>, g: nat, n: nat, j: nat, f: U32)
    requires j in sessions && j < n && sessions[j].generation == g && f in sessions[j].fids
    ensures RefsBelow(sessions, g, n, sessions[j].fids[f].inode) > 0
  {
    if j == n - 1 { FidsOnDrop(sessions[j].fids, f, sessions[j].fids[f].inode); }
    else { HolderCounts(sessions, g, n - 1, j, f); }
  }

  /** Adopting the current generation changes no reference of it. */
  lemma SyncKeepsWorld(w: World, k: nat)
    requires RefsInv(w) && k in w.sessions
    ensures RefsInv(World(w.fs, w.sessions[k := Synced(w.sessions[k], w.fs)]))
  {
    if w.sessions[k].generation != w.fs.generation {
      SyncCounts(w.fs, w.sessions, k, Synced(w.sessions[k], w.fs));
    } else {
      assert w.sessions[k := Synced(w.sessions[k], w.fs)] == w.sessions;
    }
  }

  lemma SyncCounts(fs: Fs, sessions: map<nat, Session>, k: nat, t: Session)
    requires k in sessions && sessions[k].generation != fs.generation && t.fids == map[]
    requires CountsMatch(fs, sessions)
    ensures CountsMatch(fs, sessions[k := t])
  {
    forall id ensures RefsBelow(sessions[k := t], fs.generation, fs.nextSession, id)
                      == RefsBelow(sessions, fs.generation, fs.nextSession, id) {
      assert sessions[k := t] - {k} == sessions - {k};
      RefsWithout(sessions[k := t], fs.generation, fs.nextSession, k, id);
      RefsWithout(sessions, fs.generation, fs.nextSession, k, id);
      NoFidsCountNothing(id);
    }
  }

  /** A host operation on the namespace. */
  datatype HostOp =
    | HostWriteFile(path: Path, bytes: seq<byte>)
    | HostMkdir(parent: Id, name: Name)
    | HostSymlink(parent: Id, name: Name, target: string)
    | HostRemove(parent: Id, name: Name)
    | HostLink(parent: Id, name: Name, id: Id)
    | HostRename(oldParent: Id, oldName: Name, newParent: Id, newName: Name)
    | HostAttributes(path: Path, size: Option<nat>)
    | HostClear

  datatype Step =
    | Request(k: nat, msg: Message, capacity: nat)
    | ResetDevice(k: nat)
    | CloseSession(k: nat)
    | NewSession
    | Host(op: HostOp)
    | ResetNamespace

  /** The namespace after a host operation; an operation that fails leaves it alone. */
  ghost predicate HostStep(a: Fs, op: HostOp, b: Fs)
    requires Inv(a)
  {
    match op
    case HostWriteFile(path, bytes) => var r := WriteFile(a, path, bytes); b == if r.Ok? then r.value.0 else a
    case HostMkdir(p, n) => var r := MkdirAt(a, p, n); b == if r.Ok? then r.value.0 else a
    case HostSymlink(p, n, t) => var r := SymlinkAt(a, p, n, t); b == if r.Ok? then r.value.0 else a
    case HostRemove(p, n) => var r := RemoveAt(a, p, n); b == if r.Ok? then r.value else a
    case HostLink(p, n, id) => var r := LinkAt(a, p, n, id); b == if r.Ok? then r.value else a
    case HostRename(p, n, q, o) => var r := RenameAt(a, p, n, q, o); b == if r.Ok? then r.value else a
    case HostAttributes(path, size) => var r := HostResize(a, path, size); b == if r.Ok? then r.value else a
    case HostClear => NamespaceWalks.Cleared(a, b) && Inv(b)
  }

  /** An attribute update by path; only its size part is visible here. */
  function HostResize(a: Fs, path: Path, size: Option<nat>): Outcome<Fs> {
    var id := Lookup(a, path);
    if id.Err? then Err(id.error) else if size.None? then Ok(a) else Truncate(a, id.value, size.value)
  }

  ghost predicate Next(w: World, step: Step, v: World)
    requires Inv(w.fs)
  {
    match step
    case Request(k, msg, capacity) =>
      && k in w.sessions
      && var r := Submit(w.fs, w.sessions[k], msg, capacity);
         v == World(r.fs, w.sessions[k := r.session])
    case ResetDevice(k) =>
      && k in w.sessions
      && var r := ResetSession(w.fs, w.sessions[k]);
         v == if r.Ok? then World(r.value.0, w.sessions[k := r.value.1]) else w
    case CloseSession(k) =>
      && k in w.sessions
      && var r := ResetSession(w.fs, w.sessions[k]);
         v == if r.Ok? then World(r.value.0, w.sessions[k := r.value.1.(closed := true)]) else w
    case NewSession =>
      if w.fs.nextSession + 1 > U64_MAX then v == w
      else v == World(w.fs.(nextSession := w.fs.nextSession + 1),
                      w.sessions[w.fs.nextSession :=
                        Session(w.fs.nextSession, w.fs.generation, map[], MAX_MESSAGE_SIZE, false, false)])
    case Host(op) => v.sessions == w.sessions && HostStep(w.fs, op, v.fs)
    case ResetNamespace => var r := Reset(w.fs); v == if r.Ok? then w.(fs := r.value) else w
  }

  /** Host operations on files and fresh entries; the others move, remove and link entries. */
  predicate MakesOrWrites(op: HostOp) {
    op.HostWriteFile? || op.HostMkdir? || op.HostSymlink? || op.HostAttributes?
  }

  lemma HostStepKeepsInv(a: Fs, op: HostOp, b: Fs)
    requires Inv(a) && HostStep(a, op, b)
    ensures Inv(b)
  {
    if MakesOrWrites(op) { HostWriteKeepsInv(a, op, b); } else { HostEntryKeepsInv(a, op, b); }
  }

  lemma HostWriteKeepsInv(a: Fs, op: HostOp, b: Fs)
    requires Inv(a) && HostStep(a, op, b) && MakesOrWrites(op)
    ensures Inv(b)
  {
    match op
    case HostWriteFile(path, bytes) => if WriteFile(a, path, bytes).Ok? { WriteFileKeepsInv(a, path, bytes); }
    case HostMkdir(p, n) => if MkdirAt(a, p, n).Ok? { CreationKeepsInv(a, p, n, Directory(map[], 1)); }
    case HostSymlink(p, n, t) => if SymlinkAt(a, p, n, t).Ok? { CreationKeepsInv(a, p, n, Symlink(t)); }
    case HostAttributes(path, size) => if HostResize(a, path, size).Ok? { HostResizeKeepsInv(a, path, size); }
  }

  lemma HostResizeKeepsInv(a: Fs, path: Path, size: Option<nat>)
    requires Inv(a) && HostResize(a, path, size).Ok?
    ensures Inv(HostResize(a, path, size).value)
  {
    if size.Some? { TruncateKeepsInv(a, Lookup(a, path).value, size.value); }
  }

  lemma HostEntryKeepsInv(a: Fs, op: HostOp, b: Fs)
    requires Inv(a) && HostStep(a, op, b) && !MakesOrWrites(op)
    ensures Inv(b)
  {
    match op
    case HostRemove(p, n) => if RemoveAt(a, p, n).Ok? { RemoveAtKeepsInv(a, p, n); }
    case HostLink(p, n, id) => if LinkAt(a, p, n, id).Ok? { LinkAtKeepsInv(a, p, n, id); }
    case HostRename(p, n, q, o) => if RenameAt(a, p, n, q, o).Ok? { RenameAtKeepsInv(a, p, n, q, o); }
    case HostClear =>
  }

  lemma WriteFileIsStable(fs: Fs, path: Path, bytes: seq<byte>)
    requires SumsExact(fs) && WriteFile(fs, path, bytes).Ok?
    ensures RefsStable(fs, WriteFile(fs, path, bytes).value.0)
  {
    var up := Lookup(fs, path[..|path| - 1]).value;
    if path[|path| - 1] !in fs.inodes[up].kind.entries { InsertIsStable(fs, up, path[|path| - 1], File(bytes)); }
  }

  lemma LinkAtIsStable(fs: Fs, p: Id, n: Name, id: Id)
    requires LinkAt(fs, p, n, id).Ok?
    ensures RefsStable(fs, LinkAt(fs, p, n, id).value)
  {
  }

  lemma HostStepIsStable(a: Fs, op: HostOp, b: Fs)
    requires Inv(a) && HostStep(a, op, b)
    ensures RefsStable(a, b)
  {
    match op
    case HostWriteFile(path, bytes) => if WriteFile(a, path, bytes).Ok? { WriteFileIsStable(a, path, bytes); }
    case HostMkdir(p, n) => if MkdirAt(a, p, n).Ok? { InsertIsStable(a, p, n, Directory(map[], 1)); }
    case HostSymlink(p, n, t) => if SymlinkAt(a, p, n, t).Ok? { InsertIsStable(a, p, n, Symlink(t)); }
    case HostRemove(p, n) => if RemoveAt(a, p, n).Ok? { RemoveAtIsStable(a, p, n); }
    case HostLink(p, n, id) => if LinkAt(a, p, n, id).Ok? { LinkAtIsStable(a, p, n, id); }
    case HostRename(p, n, q, o) => if RenameAt(a, p, n, q, o).Ok? { RenameAtIsStable(a, p, n, q, o); }
    case HostAttributes(path, size) =>
      if HostResize(a, path, size).Ok? && size.Some? { TruncateIsStable(a, Lookup(a, path).value, size.value); }
    case HostClear =>
  }

  /** A change that touches no reference keeps every session's view exact. */
  lemma StableKeepsRefsInv(w: World, b: Fs)
    requires RefsInv(w) && RefsStable(w.fs, b)
    ensures RefsInv(World(b, w.sessions))
  {
    var g, n := b.generation, b.nextSession;
    forall id | id in b.inodes ensures b.inodes[id].fidRefs == RefsBelow(w.sessions, g, n, id) {
      if id !in w.fs.inodes && RefsBelow(w.sessions, g, n, id) > 0 {
        var k, f := RefsOfSomeone(w.sessions, g, n, id);
      }
    }
    forall k, f | k in w.sessions && w.sessions[k].generation == g && f in w.sessions[k].fids
      ensures w.sessions[k].fids[f].inode in b.inodes {
      HolderCounts(w.sessions, g, n, k, f);
    }
  }

  /** A replaced namespace counts nothing, whatever stale fids the sessions still list. */
  lemma {:induction false} NoRefsInNewGeneration(sessions: map<nat, Session>, g: nat, n: nat, id: Id)
    requires forall k :: k in sessions ==> sessions[k].generation < g
    ensures RefsBelow(sessions, g, n, id) == 0
  {
    if n > 0 { NoRefsInNewGeneration(sessions, g, n - 1, id); }
  }

  lemma ResetKeepsRefsInv(w: World)
    requires RefsInv(w) && Reset(w.fs).Ok?
    ensures RefsInv(w.(fs := Reset(w.fs).value))
  {
    var fs := Reset(w.fs).value;
    forall id ensures RefsBelow(w.sessions, fs.generation, fs.nextSession, id) == 0 {
      NoRefsInNewGeneration(w.sessions, fs.generation, fs.nextSession, id);
    }
  }

  lemma {:induction false} NewcomerCountsNothing(sessions: map<nat, Session>, g: nat, n: nat, s: Session, id: Id)
    requires s.fids == map[] && forall k :: k in sessions ==> k < n
    ensures RefsBelow(sessions[n := s], g, n + 1, id) == RefsBelow(sessions, g, n, id)
  {
    var after := sessions[n := s];
    RefsWithout(after, g, n + 1, n, id);
    NoFidsCountNothing(id);
    SameBelow(after - {n}, sessions, g, n, id);
  }

  lemma {:induction false} SameBelow(a: map<nat, Session>, b: map<nat, Session>, g: nat, n: nat, id: Id)
    requires forall k :: k < n ==> (k in a <==> k in b) && (k in a ==> a[k] == b[k])
    ensures RefsBelow(a, g, n, id) == RefsBelow(b, g, n, id)
  {
    if n > 0 { SameBelow(a, b, g, n - 1, id); }
  }

  lemma NewSessionKeepsRefsInv(w: World)
    requires RefsInv(w)
    ensures RefsInv(World(w.fs.(nextSession := w.fs.nextSession + 1),
                          w.sessions[w.fs.nextSession :=
                            Session(w.fs.nextSession, w.fs.generation, map[], MAX_MESSAGE_SIZE, false, false)]))
  {
    var s := Session(w.fs.nextSession, w.fs.generation, map[], MAX_MESSAGE_SIZE, false, false);
    forall id ensures RefsBelow(w.sessions[w.fs.nextSession := s], w.fs.generation, w.fs.nextSession + 1, id)
                      == RefsBelow(w.sessions, w.fs.generation, w.fs.nextSession, id) {
      NewcomerCountsNothing(w.sessions, w.fs.generation, w.fs.nextSession, s, id);
    }
  }

  // ------------------------------------------------------------ steps and runs

  /** A submitted message: either nothing changed but the generation, or the request ran. */
  lemma SubmitIsSound(fs: Fs, others: Id -> nat, s: Session, msg: Message, capacity: nat)
    requires Inv(fs) && RefsExact(fs, others, Synced(s, fs).fids) && !s.closed
    requires !(msg.Message? && SaturatedTruncate(fs, Synced(s, fs), msg.request))
    ensures var r := Submit(fs, s, msg, capacity);
            Judge(fs, others, Synced(s, fs), Done(r.fs, r.session, if r.answer.Reply? then Ok(0) else Err(0))).Sound?
  {
    var t, r := Synced(s, fs), Submit(fs, s, msg, capacity);
    QueryIsSound(fs, others, t, if r.answer.Reply? then Ok(0) else Err(0));
    if msg.Message? {
      var room := Capacity(t, msg.request.Version?, capacity);
      if MinimumReply(msg.request) <= room && 7 <= room {
        ExecuteIsSound(fs, others, t, msg.tag, msg.request, room);
        ReplyOnly(fs, others, t, Execute(fs, t, msg.tag, msg.request, room));
      }
    }
  }

  lemma ReplyOnly(fs: Fs, others: Id -> nat, s: Session, d: Done)
    requires Judge(fs, others, s, d).Sound?
    ensures Judge(fs, others, s, d.(result := if d.result.Ok? then Ok(0) else Err(0))).Sound?
  {
  }

  lemma SubmitKeepsInv(fs: Fs, s: Session, msg: Message, capacity: nat)
    requires Inv(fs)
    ensures Inv(Submit(fs, s, msg, capacity).fs)
  {
    if msg.Message? {
      var t := Synced(s, fs);
      ExecuteKeepsInv(fs, t, msg.tag, msg.request, Capacity(t, msg.request.Version?, capacity));
    }
  }

  /** A message that is not answered with success leaves namespace, locks and fid table as they were. */
  lemma FailedRequestChangesNothing(w: World, k: nat, msg: Message, capacity: nat)
    requires WorldInv(w) && k in w.sessions
    requires !(msg.Message? && SaturatedTruncate(w.fs, Synced(w.sessions[k], w.fs), msg.request))
    ensures var r := Submit(w.fs, w.sessions[k], msg, capacity);
            !r.answer.Reply? ==>
              r.fs == w.fs && r.session == if w.sessions[k].closed then w.sessions[k] else Synced(w.sessions[k], w.fs)
  {
    if !w.sessions[k].closed {
      SyncedView(w, k);
      SubmitIsSound(w.fs, Others(w.sessions, w.fs.generation, w.fs.nextSession, k), w.sessions[k], msg, capacity);
    }
  }

  lemma SyncedView(w: World, k: nat)
    requires RefsInv(w) && k in w.sessions
    ensures RefsExact(w.fs, Others(w.sessions, w.fs.generation, w.fs.nextSession, k), Synced(w.sessions[k], w.fs).fids)
  {
    var t := Synced(w.sessions[k], w.fs);
    var v := World(w.fs, w.sessions[k := t]);
    SyncKeepsWorld(w, k);
    SessionView(v, k);
    assert v.sessions - {k} == w.sessions - {k};
    assert forall id :: Others(v.sessions, w.fs.generation, w.fs.nextSession, k)(id)
                        == Others(w.sessions, w.fs.generation, w.fs.nextSession, k)(id);
  }

  /** Even the half-failed create keeps references exact: the emptied file gained no fid. */
  lemma SaturatedKeepsRefs(fs: Fs, others: Id -> nat, s: Session, r: Request, tag: nat, capacity: nat)
    requires Inv(fs) && RefsExact(fs, others, s.fids) && SaturatedTruncate(fs, s, r)
    ensures var d := Execute(fs, s, tag, r, capacity);
            d.session == s && RefsExact(d.fs, others, s.fids) && Frame(fs, d.fs)
  {
    SaturatedOutcome(fs, s, r, capacity);
    var t := CreateTarget(fs, s.fids[r.fid].inode, r.name, r.flags);
    if t.Ok? {
      CreateTargetFacts(fs, s.fids[r.fid].inode, r.name, r.flags);
      StableKeepsRefs(fs, t.value.0, others, s.fids);
    }
  }

  /** The fid cannot be installed, so only the truncation can remain. */
  lemma SaturatedOutcome(fs: Fs, s: Session, r: Request, capacity: nat)
    requires SaturatedTruncate(fs, s, r)
    ensures var d := CreateRequest(fs, s, r.fid, r.name, r.flags, capacity);
            var t := CreateTarget(fs, s.fids[r.fid].inode, r.name, r.flags);
            d.session == s && d.fs == if t.Ok? then t.value.0 else fs
  {
  }

  lemma SaturatedSubmit(fs: Fs, others: Id -> nat, s: Session, msg: Message, capacity: nat)
    requires Inv(fs) && RefsExact(fs, others, Synced(s, fs).fids) && !s.closed
    requires msg.Message? && SaturatedTruncate(fs, Synced(s, fs), msg.request)
    ensures var r := Submit(fs, s, msg, capacity);
            r.session == Synced(s, fs) && RefsExact(r.fs, others, Synced(s, fs).fids) && Frame(fs, r.fs)
  {
    var t := Synced(s, fs);
    SaturatedKeepsRefs(fs, others, t, msg.request, msg.tag, Capacity(t, msg.request.Version?, capacity));
    SubmitChanges(fs, s, msg, capacity);
  }

  /** A message either leaves the state of the synced session alone or is the request it carries. */
  lemma SubmitChanges(fs: Fs, s: Session, msg: Message, capacity: nat)
    requires Inv(fs) && !s.closed
    ensures var t, r := Synced(s, fs), Submit(fs, s, msg, capacity);
            || (r.fs == fs && r.session == t)
            || (&& msg.Message?
                && var d := Execute(fs, t, msg.tag, msg.request, Capacity(t, msg.request.Version?, capacity));
                   r.fs == d.fs && r.session == d.session)
  {
  }

  lemma RequestKeepsRefs(w: World, k: nat, msg: Message, capacity: nat)
    requires WorldInv(w) && k in w.sessions
    ensures var r := Submit(w.fs, w.sessions[k], msg, capacity);
            RefsInv(World(r.fs, w.sessions[k := r.session])) && Frame(w.fs, r.fs)
  {
    var r := Submit(w.fs, w.sessions[k], msg, capacity);
    if w.sessions[k].closed {
      assert w.sessions[k := r.session] == w.sessions;
    } else {
      SyncedView(w, k);
      SubmitKeepsRefs(w.fs, Others(w.sessions, w.fs.generation, w.fs.nextSession, k), w.sessions[k], msg, capacity);
      ViewIsWorld(w, k, r.fs, r.session);
    }
  }

  lemma SubmitKeepsRefs(fs: Fs, others: Id -> nat, s: Session, msg: Message, capacity: nat)
    requires Inv(fs) && RefsExact(fs, others, Synced(s, fs).fids) && !s.closed
    ensures var r := Submit(fs, s, msg, capacity);
            RefsExact(r.fs, others, r.session.fids) && Frame(fs, r.fs) && SessionKept(Synced(s, fs), r.session)
  {
    if msg.Message? && SaturatedTruncate(fs, Synced(s, fs), msg.request) {
      SaturatedSubmit(fs, others, s, msg, capacity);
    } else {
      SubmitIsSound(fs, others, s, msg, capacity);
    }
  }

  lemma ResetDeviceKeepsRefs(w: World, k: nat, closed: bool)
    requires WorldInv(w) && k in w.sessions && ResetSession(w.fs, w.sessions[k]).Ok?
    ensures var (fs, s) := ResetSession(w.fs, w.sessions[k]).value;
            RefsInv(World(fs, w.sessions[k := s.(closed := closed)])) && Frame(w.fs, fs)
  {
    var (fs, s) := ResetSession(w.fs, w.sessions[k]).value;
    var others := Others(w.sessions, w.fs.generation, w.fs.nextSession, k);
    SyncedView(w, k);
    if w.sessions[k].generation == w.fs.generation { ReleaseFidsKeepsRefs(w.fs, others, w.sessions[k]); }
    ViewIsWorld(w, k, fs, s.(closed := closed));
  }

  lemma ResetSessionKeepsInv(fs: Fs, s: Session)
    requires Inv(fs) && ResetSession(fs, s).Ok?
    ensures Inv(ResetSession(fs, s).value.0)
  {
    if s.generation == fs.generation { ReleaseFidsKeepsInv(fs, s); }
  }

  /** Teardown of a live session never meets an inconsistent reference. */
  lemma ResetNeverFails(w: World, k: nat)
    requires WorldInv(w) && k in w.sessions && !w.sessions[k].closed
    ensures ResetSession(w.fs, w.sessions[k]).Ok?
  {
    SyncedView(w, k);
    if w.sessions[k].generation == w.fs.generation {
      ReleaseFidsKeepsRefs(w.fs, Others(w.sessions, w.fs.generation, w.fs.nextSession, k), w.sessions[k]);
    }
  }

  lemma NextKeepsInv(w: World, step: Step, v: World)
    requires Inv(w.fs) && Next(w, step, v)
    ensures Inv(v.fs)
  {
    match step
    case Request(k, msg, capacity) => SubmitKeepsInv(w.fs, w.sessions[k], msg, capacity);
    case ResetDevice(k) => if ResetSession(w.fs, w.sessions[k]).Ok? { ResetSessionKeepsInv(w.fs, w.sessions[k]); }
    case CloseSession(k) => if ResetSession(w.fs, w.sessions[k]).Ok? { ResetSessionKeepsInv(w.fs, w.sessions[k]); }
    case NewSession => SessionCountIsApart(w.fs, v.fs);
    case Host(op) => HostStepKeepsInv(w.fs, op, v.fs);
    case ResetNamespace => if Reset(w.fs).Ok? { ResetKeepsInv(w.fs); }
  }

  lemma SessionCountIsApart(a: Fs, b: Fs)
    requires Inv(a) && b == a.(nextSession := b.nextSession)
    ensures Inv(b)
  {
  }

  lemma HostKeepsRefs(w: World, op: HostOp, v: World)
    requires WorldInv(w) && v.sessions == w.sessions && HostStep(w.fs, op, v.fs)
    ensures RefsInv(v)
  {
    HostStepIsStable(w.fs, op, v.fs);
    StableKeepsRefsInv(w, v.fs);
  }

  lemma NextKeepsRefs(w: World, step: Step, v: World)
    requires WorldInv(w) && Next(w, step, v)
    ensures RefsInv(v)
  {
    match step
    case Request(k, msg, capacity) => RequestKeepsRefs(w, k, msg, capacity);
    case ResetDevice(k) =>
      if ResetSession(w.fs, w.sessions[k]).Ok? { ResetDeviceKeepsRefs(w, k, w.sessions[k].closed); }
    case CloseSession(k) => if ResetSession(w.fs, w.sessions[k]).Ok? { ResetDeviceKeepsRefs(w, k, true); }
    case NewSession => NewSessionKeepsRefsInv(w);
    case Host(op) => HostKeepsRefs(w, op, v);
    case ResetNamespace => if Reset(w.fs).Ok? { ResetKeepsRefsInv(w); }
  }

  /** Identities are used in order: a step invents only new ones. */
  lemma NextKeepsIdentities(w: World, step: Step, v: World)
    requires WorldInv(w) && Next(w, step, v)
    ensures w.fs.nextInode <= v.fs.nextInode
    ensures forall id :: id in v.fs.inodes ==> id in w.fs.inodes || id >= w.fs.nextInode
  {
    match step
    case Request(k, msg, capacity) => RequestKeepsRefs(w, k, msg, capacity);
    case ResetDevice(k) =>
      if ResetSession(w.fs, w.sessions[k]).Ok? { ResetDeviceKeepsRefs(w, k, w.sessions[k].closed); }
    case CloseSession(k) => if ResetSession(w.fs, w.sessions[k]).Ok? { ResetDeviceKeepsRefs(w, k, true); }
    case NewSession =>
    case Host(op) => HostStepIsStable(w.fs, op, v.fs);
    case ResetNamespace =>
  }

  /** A run: worlds joined by steps; a step is only defined on sound trees, which runs never leave. */
  ghost predicate Run(ws: seq<World>, steps: seq<Step>) {
    && |ws| == |steps| + 1
    && forall i {:trigger steps[i]} :: 0 <= i < |steps| ==> Inv(ws[i].fs) ==> Next(ws[i], steps[i], ws[i + 1])
  }

  /** The world invariant as one fact. */
  ghost function WorldVerdict(w: World): Verdict {
    if WorldInv(w) then Sound else Unsound
  }

  lemma NextIsSound(w: World, step: Step, v: World)
    requires WorldVerdict(w).Sound? && Inv(w.fs) && Next(w, step, v)
    ensures WorldVerdict(v).Sound?
  {
    NextKeepsInv(w, step, v);
    NextKeepsRefs(w, step, v);
  }

  lemma {:induction false} RunIsSound(ws: seq<World>, steps: seq<Step>, i: nat)
    requires Run(ws, steps) && WorldVerdict(ws[0]).Sound? && i < |ws|
    ensures WorldVerdict(ws[i]).Sound?
  {
    if i > 0 {
      RunIsSound(ws, steps, i - 1);
      NextIsSound(ws[i - 1], steps[i - 1], ws[i]);
    }
  }

  /** Over every interleaving of sessions and host, trees stay sound and references exact. */
  lemma EveryRunKeepsTheWorld(ws: seq<World>, steps: seq<Step>, i: nat)
    requires Run(ws, steps) && WorldInv(ws[0]) && i < |ws|
    ensures WorldInv(ws[i])
  {
    RunIsSound(ws, steps, i);
  }

  ghost predicate InventsNewIds(a: Fs, b: Fs, id: Id) {
    a.nextInode <= b.nextInode && (id in b.inodes ==> id in a.inodes || id >= a.nextInode)
  }

  lemma OneStepInventsNewIds(ws: seq<World>, steps: seq<Step>, j: nat, id: Id)
    requires Run(ws, steps) && WorldInv(ws[0]) && j < |steps|
    ensures InventsNewIds(ws[j].fs, ws[j + 1].fs, id)
  {
    EveryRunKeepsTheWorld(ws, steps, j);
    NextKeepsIdentities(ws[j], steps[j], ws[j + 1]);
  }

  lemma {:induction false} GoneForGood(ws: seq<World>, i: nat, j: nat, id: Id)
    requires i <= j < |ws| && forall t :: 0 <= t < |ws| - 1 ==> InventsNewIds(ws[t].fs, ws[t + 1].fs, id)
    ensures ws[i].fs.nextInode <= ws[j].fs.nextInode
    ensures id < ws[i].fs.nextInode && id in ws[j].fs.inodes ==> id in ws[i].fs.inodes
    decreases j
  {
    if i < j {
      GoneForGood(ws, i, j - 1, id);
      assert InventsNewIds(ws[j - 1].fs, ws[j - 1 + 1].fs, id);
    }
  }

  /** An identity that is gone never comes back, not even through a namespace reset. */
  lemma IdentitiesAreNeverReused(ws: seq<World>, steps: seq<Step>, i: nat, j: nat, id: Id)
    requires Run(ws, steps) && WorldInv(ws[0]) && i <= j < |ws|
    ensures id < ws[i].fs.nextInode && id in ws[j].fs.inodes ==> id in ws[i].fs.inodes
  {
    forall t | 0 <= t < |ws| - 1 ensures InventsNewIds(ws[t].fs, ws[t + 1].fs, id) {
      OneStepInventsNewIds(ws, steps, t, id);
    }
    GoneForGood(ws, i, j, id);
  }

  lemma StartIsSound(limits: Limits)
    ensures WorldInv(World(NewFs(limits), map[]))
  {
    NewFsIsInv(limits);
    forall id ensures RefsBelow(map[], 1, 1, id) == 0 { NoRefsInNewGeneration(map[], 1, 1, id); }
  }

  // --------------------------------------------------------- room for references

  function NumberedBelow(sessions: map<nat, Session>, n: nat): set<nat> {
    set k | k in sessions && k < n
  }

  /** The most references that many sessions can hold on one inode. */
  function Room(sessions: nat): nat { MAX_FIDS * sessions }

  lemma {:induction false} RefsBounded(sessions: map<nat, Session>, g: nat, n: nat, id: Id)
    requires forall k :: k in sessions ==> Bounded(sessions[k])
    ensures RefsBelow(sessions, g, n, id) <= Room(|NumberedBelow(sessions, n)|)
  {
    if n > 0 {
      RefsBounded(sessions, g, n - 1, id);
      NextNumbered(sessions, n - 1);
      if n - 1 in sessions { NumbersFit(sessions[n - 1].fids, id); }
    }
  }

  lemma NextNumbered(sessions: map<nat, Session>, n: nat)
    ensures var before := |NumberedBelow(sessions, n)|;
            Room(|NumberedBelow(sessions, n + 1)|) == Room(before) + if n in sessions then MAX_FIDS else 0
  {
    assert NumberedBelow(sessions, n + 1)
        == if n in sessions then NumberedBelow(sessions, n) + {n} else NumberedBelow(sessions, n);
  }

  lemma NumbersFit(fids: map<U32, Fid>, id: Id)
    ensures FidsOn(fids, id) <= |fids|
  {
    SubsetSize(NumbersOn(fids, id), fids.Keys);
    assert |fids| == |fids.Keys|;
  }

  /** With at most 65535 sessions no reference counter can fill up, so no request can fail half way. */
  lemma FewSessionsNeverSaturate(w: World, s: Session, r: Request)
    requires WorldInv(w) && |w.sessions| <= 65535
    ensures !SaturatedTruncate(w.fs, s, r)
  {
    var all := NumberedBelow(w.sessions, w.fs.nextSession);
    SubsetSize(all, w.sessions.Keys);
    assert |w.sessions| == |w.sessions.Keys|;
    forall id | id in w.fs.inodes ensures w.fs.inodes[id].fidRefs < U32_MAX {
      RefsBounded(w.sessions, w.fs.generation, w.fs.nextSession, id);
    }
  }
}
