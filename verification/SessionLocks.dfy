/**
 How long a byte-range lock of src/ninep.rs lives: over every run of sessions and host, a hold
 changes only by its owner's Tlock on that byte, by the end of the session that took it, by
 the reset of the namespace, or with its inode.
 */
module SessionLocks {
  import opened Wrappers
  import opened Namespace
  import opened NamespaceInvariant
  import opened NamespaceEffects
  import opened Sessions
  import opened SessionRequests
  import NamespaceWalks
  import SessionWorld
  import ByteLocks

  // ----------------------------------------------------------------- what keeps locks

  /** The locks of every inode that stays are the same. */
  ghost predicate LocksKept(a: Fs, b: Fs) {
    forall l: ByteLocks.Lock :: l.inode in b.inodes ==> (l in b.locks <==> l in a.locks)
  }

  lemma KeptTwice(a: Fs, b: Fs, c: Fs)
    requires LocksKept(a, b) && LocksKept(b, c) && c.inodes.Keys <= b.inodes.Keys
    ensures LocksKept(a, c)
  {
  }

  lemma HoldIsKept(a: seq<ByteLocks.Lock>, b: seq<ByteLocks.Lock>, inode: Id, process: nat, client: string, x: nat)
    requires ByteLocks.Valid(b) && forall l: ByteLocks.Lock :: l.inode == inode && l in a ==> l in b
    requires ByteLocks.HoldAt(a, inode, process, client, x).Some?
    ensures ByteLocks.HoldAt(b, inode, process, client, x) == ByteLocks.HoldAt(a, inode, process, client, x)
  {
    ByteLocks.HoldAtFound(a, inode, process, client, x);
    var i :| 0 <= i < |a| && ByteLocks.Names(a[i], inode, process, client) && ByteLocks.Covers(a[i], x)
             && ByteLocks.HoldAt(a, inode, process, client, x) == Some(ByteLocks.Hold(a[i].kind, a[i].session));
    assert a[i] in b;
    var j :| 0 <= j < |b| && b[j] == a[i];
    ByteLocks.HoldAtCovering(b, j, x);
  }

  /** Kept locks are kept holds, byte by byte. */
  lemma KeptHolds(a: Fs, b: Fs, inode: Id, process: nat, client: string, x: nat)
    requires ByteLocks.Valid(a.locks) && ByteLocks.Valid(b.locks) && LocksKept(a, b) && inode in b.inodes
    ensures ByteLocks.HoldAt(b.locks, inode, process, client, x) == ByteLocks.HoldAt(a.locks, inode, process, client, x)
  {
    if ByteLocks.HoldAt(a.locks, inode, process, client, x).Some? {
      HoldIsKept(a.locks, b.locks, inode, process, client, x);
    } else if ByteLocks.HoldAt(b.locks, inode, process, client, x).Some? {
      HoldIsKept(b.locks, a.locks, inode, process, client, x);
    }
  }

  lemma ReclaimKeepsLocks(fs: Fs, id: Id)
    requires ByteLocks.Valid(fs.locks) && id in fs.inodes
    ensures LocksKept(fs, Reclaim(fs, id))
  {
    ByteLocks.DropInodeKeepsValid(fs.locks, id);
  }

  lemma RemovalKeepsLocks(fs: Fs, p: Id, n: Name)
    requires ByteLocks.Valid(fs.locks) && IsDir(fs.inodes, p) && n in fs.inodes[p].kind.entries
    requires fs.inodes[p].kind.entries[n].inode in fs.inodes
    ensures LocksKept(fs, RemoveEntry(fs, p, n))
  {
    ByteLocks.DropInodeKeepsValid(fs.locks, fs.inodes[p].kind.entries[n].inode);
  }

  lemma RemoveAtKeepsLocks(fs: Fs, p: Id, n: Name)
    requires Inv(fs) && RemoveAt(fs, p, n).Ok?
    ensures LocksKept(fs, RemoveAt(fs, p, n).value)
  {
    RemovalKeepsLocks(fs, p, n);
  }

  lemma RenameKeepsLocks(fs: Fs, p: Id, n: Name, q: Id, o: Name)
    requires Inv(fs) && RenameAt(fs, p, n, q, o).Ok?
    ensures LocksKept(fs, RenameAt(fs, p, n, q, o).value)
  {
    if Moves(fs, p, n, q, o) {
      RenameIsReady(fs, p, n, q, o);
      if o in fs.inodes[q].kind.entries { RemovalKeepsLocks(fs, q, o); }
      MovingKeepsLocks(Displaced(fs, q, o), p, n, q, o, RenameCookie(fs, p, n, q));
    }
  }

  lemma MovingKeepsLocks(fs: Fs, p: Id, n: Name, q: Id, o: Name, cookie: nat)
    requires IsDir(fs.inodes, p) && IsDir(fs.inodes, q) && n in fs.inodes[p].kind.entries
    requires fs.inodes[p].kind.entries[n].inode in fs.inodes && fs.inodes[p].kind.entries[n].inode !in {p, q}
    ensures var after := MoveEntry(fs, p, n, q, o, cookie);
            after.locks == fs.locks && after.inodes.Keys == fs.inodes.Keys
  {
  }

  /** One reference less: the inode goes only unnamed, and nothing else changes. */
  lemma ReleaseKeepsLocks(fs: Fs, id: Id)
    requires ByteLocks.Valid(fs.locks) && ReleaseFid(fs, id).Ok?
    ensures var after := ReleaseFid(fs, id).value;
            LocksKept(fs, after) && after.inodes.Keys <= fs.inodes.Keys && ByteLocks.Valid(after.locks)
  {
    ByteLocks.DropInodeKeepsValid(fs.locks, id);
  }

  lemma InstallKeepsLocks(fs: Fs, s: Session, number: U32, fid: Fid)
    requires ByteLocks.Valid(fs.locks)
    ensures var after := InstallFid(fs, s, number, fid).fs;
            LocksKept(fs, after) && after.inodes.Keys <= fs.inodes.Keys
  {
    var r := RetainFid(fs, fid.inode);
    if r.Ok? && number in s.fids && ReleaseFid(r.value, s.fids[number].inode).Ok? {
      ReleaseKeepsLocks(r.value, s.fids[number].inode);
    }
  }

  // ------------------------------------------------------------------------- requests

  lemma CreateKeepsLocks(fs: Fs, s: Session, fid: U32, name: Name, flags: bv32, capacity: nat)
    requires ByteLocks.Valid(fs.locks)
    ensures LocksKept(fs, CreateRequest(fs, s, fid, name, flags, capacity).fs)
  {
    if DirectoryError(fs, s, fid).None? {
      var t := CreateTarget(fs, s.fids[fid].inode, name, flags);
      if t.Ok? {
        assert t.value.0.locks == fs.locks;
        InstallKeepsLocks(t.value.0, s, fid, Fid(t.value.1, Some(flags)));
      }
    }
  }

  lemma AttachKeepsLocks(fs: Fs, s: Session, fid: U32, afid: U32, capacity: nat)
    requires ByteLocks.Valid(fs.locks)
    ensures LocksKept(fs, AttachRequest(fs, s, fid, afid, capacity).fs)
  {
    InstallKeepsLocks(fs, s, fid, Fid(fs.root, None));
  }

  lemma WalkKeepsLocks(fs: Fs, s: Session, fid: U32, newFid: U32, names: seq<Name>, capacity: nat)
    requires ByteLocks.Valid(fs.locks)
    ensures LocksKept(fs, WalkRequest(fs, s, fid, newFid, names, capacity).fs)
  {
    if fid in s.fids {
      var w := WalkNames(fs, s.fids[fid].inode, names);
      var target := if w.passed == [] then s.fids[fid].inode else w.passed[|w.passed| - 1];
      InstallKeepsLocks(fs, s, newFid, s.fids[fid].(inode := target));
    }
  }

  lemma ClunkKeepsLocks(fs: Fs, s: Session, fid: U32)
    requires ByteLocks.Valid(fs.locks)
    ensures LocksKept(fs, ClunkRequest(fs, s, fid).fs)
  {
    if fid in s.fids && ReleaseFid(fs, s.fids[fid].inode).Ok? { ReleaseKeepsLocks(fs, s.fids[fid].inode); }
  }

  lemma UnlinkKeepsLocks(fs: Fs, s: Session, directory: U32, name: Name, flags: bv32, capacity: nat)
    requires Inv(fs)
    ensures LocksKept(fs, UnlinkRequest(fs, s, directory, name, flags, capacity).fs)
  {
    if DirectoryError(fs, s, directory).None? && RemoveAt(fs, s.fids[directory].inode, name).Ok? {
      RemoveAtKeepsLocks(fs, s.fids[directory].inode, name);
    }
  }

  lemma RenameRequestKeepsLocks(fs: Fs, s: Session, p: U32, n: Name, q: U32, o: Name, capacity: nat)
    requires Inv(fs)
    ensures LocksKept(fs, RenameRequest(fs, s, p, n, q, o, capacity).fs)
  {
    if DirectoryError(fs, s, p).None? && DirectoryError(fs, s, q).None?
       && RenameAt(fs, s.fids[p].inode, n, s.fids[q].inode, o).Ok? {
      RenameKeepsLocks(fs, s.fids[p].inode, n, s.fids[q].inode, o);
    }
  }

  /** No request but Tlock and Tversion touches the locks of an inode that stays. */
  lemma RequestKeepsLocks(fs: Fs, s: Session, tag: nat, r: Request, capacity: nat)
    requires Inv(fs) && !r.Version? && !r.LockRange?
    ensures LocksKept(fs, Execute(fs, s, tag, r, capacity).fs)
  {
    if r.Attach? || r.Walk? || r.Create? || r.Clunk? {
      FidRequestKeepsLocks(fs, s, tag, r, capacity);
    } else if r.Rename? {
      RenameRequestKeepsLocks(fs, s, r.oldDirectory, r.oldName, r.newDirectory, r.newName, capacity);
    } else if r.Unlink? {
      UnlinkKeepsLocks(fs, s, r.directory, r.name, r.flags, capacity);
    } else if r.Open? || r.Write? || r.Setattr? {
      WritingKeepsLocks(fs, s, tag, r, capacity);
    } else {
      MakingKeepsLocks(fs, s, tag, r, capacity);
    }
  }

  lemma FidRequestKeepsLocks(fs: Fs, s: Session, tag: nat, r: Request, capacity: nat)
    requires Inv(fs) && (r.Attach? || r.Walk? || r.Create? || r.Clunk?)
    ensures LocksKept(fs, Execute(fs, s, tag, r, capacity).fs)
  {
    match r
    case Attach(fid, afid) => AttachKeepsLocks(fs, s, fid, afid, capacity);
    case Walk(fid, newFid, names) => WalkKeepsLocks(fs, s, fid, newFid, names, capacity);
    case Create(fid, name, flags) => CreateKeepsLocks(fs, s, fid, name, flags, capacity);
    case Clunk(fid) => ClunkKeepsLocks(fs, s, fid);
  }

  lemma WritingKeepsLocks(fs: Fs, s: Session, tag: nat, r: Request, capacity: nat)
    requires Inv(fs) && (r.Open? || r.Write? || r.Setattr?)
    ensures Execute(fs, s, tag, r, capacity).fs.locks == fs.locks
  {
  }

  lemma MakingKeepsLocks(fs: Fs, s: Session, tag: nat, r: Request, capacity: nat)
    requires Inv(fs) && (r.Flush? || r.MakeSymlink? || r.Mkdir? || r.Link? || r.Query?)
    ensures Execute(fs, s, tag, r, capacity).fs.locks == fs.locks
  {
    match r
    case MakeSymlink(fid, name, target) => SymlinkKeepsLocks(fs, s, fid, name, target, capacity);
    case Mkdir(fid, name) => MkdirKeepsLocks(fs, s, fid, name, capacity);
    case Link(directory, fid, name) => LinkKeepsLocks(fs, s, directory, fid, name, capacity);
    case _ =>
  }

  lemma SymlinkKeepsLocks(fs: Fs, s: Session, fid: U32, name: Name, target: string, capacity: nat)
    ensures SymlinkRequest(fs, s, fid, name, target, capacity).fs.locks == fs.locks
  {
  }

  lemma MkdirKeepsLocks(fs: Fs, s: Session, fid: U32, name: Name, capacity: nat)
    ensures MkdirRequest(fs, s, fid, name, capacity).fs.locks == fs.locks
  {
  }

  lemma LinkKeepsLocks(fs: Fs, s: Session, directory: U32, fid: U32, name: Name, capacity: nat)
    ensures LinkRequest(fs, s, directory, fid, name, capacity).fs.locks == fs.locks
  {
  }

  // ------------------------------------------------------------------ ending a session

  /** What releasing fids leaves: named inodes with their contents, and the locks of what stays. */
  ghost predicate Released(a: Fs, b: Fs) {
    && b.inodes.Keys <= a.inodes.Keys && LocksKept(a, b) && ByteLocks.Valid(b.locks)
    && (forall i: Id :: i in b.inodes ==>
          b.inodes[i].kind == a.inodes[i].kind && b.inodes[i].linkCount == a.inodes[i].linkCount)
    && (forall i: Id :: i in a.inodes && i !in b.inodes ==> a.inodes[i].linkCount == 0)
  }

  lemma ReleaseLeaves(fs: Fs, id: Id)
    requires ByteLocks.Valid(fs.locks) && ReleaseFid(fs, id).Ok?
    ensures Released(fs, ReleaseFid(fs, id).value)
  {
    ReleaseKeepsLocks(fs, id);
  }

  lemma ReleasedTwice(a: Fs, b: Fs, c: Fs)
    requires Released(a, b) && Released(b, c)
    ensures Released(a, c)
  {
    KeptTwice(a, b, c);
  }

  lemma {:induction false} ReleaseBelowLeaves(fs: Fs, fids: map<U32, Fid>, n: nat)
    requires ByteLocks.Valid(fs.locks) && ReleaseBelow(fs, fids, n).Ok?
    ensures Released(fs, ReleaseBelow(fs, fids, n).value)
    decreases n
  {
    if n > 0 {
      ReleaseBelowLeaves(fs, fids, n - 1);
      var mid := ReleaseBelow(fs, fids, n - 1).value;
      if n - 1 in fids {
        ReleaseLeaves(mid, fids[n - 1].inode);
        ReleasedTwice(fs, mid, ReleaseFid(mid, fids[n - 1].inode).value);
      }
    }
  }

  /** The end of a session takes exactly its own holds, from whatever inode stays; named inodes stay as they are. */
  lemma ReleaseFidsDoes(fs: Fs, s: Session, inode: Id, process: nat, client: string, x: nat)
    requires Inv(fs) && ReleaseFids(fs, s).Ok?
    ensures var after := ReleaseFids(fs, s).value;
            && (forall i: Id :: i in fs.inodes && fs.inodes[i].linkCount > 0 ==>
                  i in after.inodes && after.inodes[i].kind == fs.inodes[i].kind)
            && (inode in after.inodes ==>
                  var was := ByteLocks.HoldAt(fs.locks, inode, process, client, x);
                  ByteLocks.HoldAt(after.locks, inode, process, client, x)
                  == if was.Some? && was.value.session == s.id then None else was)
  {
    ReleaseBelowLeaves(fs, s.fids, U32_MAX + 1);
    var mid := ReleaseBelow(fs, s.fids, U32_MAX + 1).value;
    ByteLocks.ReleaseSessionClearsExactlyItsHolds(mid.locks, s.id, inode, process, client, x);
    if inode in mid.inodes { KeptHolds(fs, mid, inode, process, client, x); }
  }

  /** A device reset starts the session afresh, in the current namespace. */
  lemma ResetStartsAfresh(fs: Fs, s: Session)
    requires ResetSession(fs, s).Ok?
    ensures var (after, t) := ResetSession(fs, s).value;
            && t == Session(s.id, fs.generation, map[], 65536, false, false)
            && (if s.generation == fs.generation then ReleaseFids(fs, s) == Ok(after) else after == fs)
  {
  }

  // ------------------------------------------------------------------------------ runs

  /** The Tlock is by this owner and covers this byte. */
  predicate OwnLock(s: Session, r: Request, inode: Id, process: nat, client: string, x: nat)
    requires r.LockRange?
  {
    Target(s, r.fid) == inode && r.process == process && r.client == client && ByteLocks.Covers(LockOf(s, r), x)
  }

  /** The step may change this hold. */
  ghost predicate Disturbs(w: SessionWorld.World, step: SessionWorld.Step, inode: Id, process: nat, client: string,
                           x: nat) {
    var hold := ByteLocks.HoldAt(w.fs.locks, inode, process, client, x);
    match step
    case Request(k, msg, _) =>
      && k in w.sessions && msg.Message?
      && (|| (msg.request.Version? && hold.Some? && hold.value.session == w.sessions[k].id)
          || (msg.request.LockRange? && OwnLock(Synced(w.sessions[k], w.fs), msg.request, inode, process, client, x)))
    case ResetDevice(k) => k in w.sessions && hold.Some? && hold.value.session == w.sessions[k].id
    case CloseSession(k) => k in w.sessions && hold.Some? && hold.value.session == w.sessions[k].id
    case ResetNamespace => true
    case _ => false
  }

  ghost predicate SameHold(a: Fs, b: Fs, inode: Id, process: nat, client: string, x: nat) {
    ByteLocks.HoldAt(b.locks, inode, process, client, x) == ByteLocks.HoldAt(a.locks, inode, process, client, x)
  }

  lemma LockKeepsOthers(fs: Fs, s: Session, tag: nat, r: Request, capacity: nat, inode: Id, process: nat,
                        client: string, x: nat)
    requires Inv(fs) && r.LockRange? && capacity >= 8 && !OwnLock(s, r, inode, process, client, x)
    ensures SameHold(fs, Execute(fs, s, tag, r, capacity).fs, inode, process, client, x)
  {
    if MayLock(fs, s, r) {
      TlockDoes(fs, s, tag, r, capacity, inode, process, client, x);
    } else {
      RefusedLock(fs, s, r, capacity);
    }
  }

  lemma RefusedLock(fs: Fs, s: Session, r: Request, capacity: nat)
    requires Inv(fs) && r.LockRange? && !MayLock(fs, s, r)
    ensures LockRequest(fs, s, r, capacity).fs == fs
  {
  }

  lemma VersionKeepsOthers(fs: Fs, s: Session, tag: nat, r: Request, capacity: nat, inode: Id, process: nat,
                           client: string, x: nat)
    requires Inv(fs) && r.Version? && inode in Execute(fs, s, tag, r, capacity).fs.inodes
    requires var hold := ByteLocks.HoldAt(fs.locks, inode, process, client, x);
             hold.Some? ==> hold.value.session != s.id
    ensures SameHold(fs, Execute(fs, s, tag, r, capacity).fs, inode, process, client, x)
  {
    if ReleaseFids(fs, s).Ok? { ReleaseFidsDoes(fs, s, inode, process, client, x); }
  }

  lemma RequestKeepsHold(fs: Fs, s: Session, tag: nat, r: Request, capacity: nat, inode: Id, process: nat,
                         client: string, x: nat)
    requires Inv(fs) && inode in Execute(fs, s, tag, r, capacity).fs.inodes && (r.LockRange? ==> capacity >= 8)
    requires r.LockRange? ==> !OwnLock(s, r, inode, process, client, x)
    requires var hold := ByteLocks.HoldAt(fs.locks, inode, process, client, x);
             r.Version? && hold.Some? ==> hold.value.session != s.id
    ensures SameHold(fs, Execute(fs, s, tag, r, capacity).fs, inode, process, client, x)
  {
    if r.LockRange? {
      LockKeepsOthers(fs, s, tag, r, capacity, inode, process, client, x);
    } else if r.Version? {
      VersionKeepsOthers(fs, s, tag, r, capacity, inode, process, client, x);
    } else {
      RequestKeepsLocks(fs, s, tag, r, capacity);
      SessionWorld.ExecuteKeepsInv(fs, s, tag, r, capacity);
      KeptHolds(fs, Execute(fs, s, tag, r, capacity).fs, inode, process, client, x);
    }
  }

  lemma SubmitKeepsHold(fs: Fs, s: Session, msg: Message, capacity: nat, inode: Id, process: nat, client: string,
                        x: nat)
    requires Inv(fs) && inode in Submit(fs, s, msg, capacity).fs.inodes
    requires msg.Message? && msg.request.LockRange? ==>
               !OwnLock(Synced(s, fs), msg.request, inode, process, client, x)
    requires var hold := ByteLocks.HoldAt(fs.locks, inode, process, client, x);
             msg.Message? && msg.request.Version? && hold.Some? ==> hold.value.session != s.id
    ensures SameHold(fs, Submit(fs, s, msg, capacity).fs, inode, process, client, x)
  {
    SubmitExactly(fs, s, msg, capacity);
    if !s.closed && Admitted(Synced(s, fs), msg, capacity) {
      RequestKeepsHold(fs, Synced(s, fs), msg.tag, msg.request, RoomFor(Synced(s, fs), msg.request, capacity),
                       inode, process, client, x);
    }
  }

  lemma HostKeepsLocks(a: Fs, op: SessionWorld.HostOp, b: Fs)
    requires Inv(a) && SessionWorld.HostStep(a, op, b)
    ensures LocksKept(a, b)
  {
    match op
    case HostRemove(p, n) => if RemoveAt(a, p, n).Ok? { RemoveAtKeepsLocks(a, p, n); }
    case HostRename(p, n, q, o) => if RenameAt(a, p, n, q, o).Ok? { RenameKeepsLocks(a, p, n, q, o); }
    case HostClear =>
    case _ => assert b.locks == a.locks;
  }

  /** A step that does not disturb a hold leaves it, for as long as its inode is there. */
  lemma StepKeepsHold(w: SessionWorld.World, step: SessionWorld.Step, v: SessionWorld.World, inode: Id, process: nat,
                      client: string, x: nat)
    requires SessionWorld.WorldInv(w) && SessionWorld.Next(w, step, v) && inode in v.fs.inodes
    requires !Disturbs(w, step, inode, process, client, x)
    ensures SameHold(w.fs, v.fs, inode, process, client, x)
  {
    match step
    case Request(k, msg, capacity) =>
      SubmitKeepsHold(w.fs, w.sessions[k], msg, capacity, inode, process, client, x);
    case ResetDevice(k) => EndKeepsHold(w.fs, w.sessions[k], inode, process, client, x);
    case CloseSession(k) => EndKeepsHold(w.fs, w.sessions[k], inode, process, client, x);
    case Host(op) =>
      HostKeepsLocks(w.fs, op, v.fs);
      SessionWorld.HostStepKeepsInv(w.fs, op, v.fs);
      KeptHolds(w.fs, v.fs, inode, process, client, x);
    case _ =>
  }

  lemma EndKeepsHold(fs: Fs, s: Session, inode: Id, process: nat, client: string, x: nat)
    requires Inv(fs) && (ResetSession(fs, s).Ok? ==> inode in ResetSession(fs, s).value.0.inodes)
    requires var hold := ByteLocks.HoldAt(fs.locks, inode, process, client, x);
             hold.Some? ==> hold.value.session != s.id
    ensures ResetSession(fs, s).Ok? ==> SameHold(fs, ResetSession(fs, s).value.0, inode, process, client, x)
  {
    if ResetSession(fs, s).Ok? && s.generation == fs.generation {
      ReleaseFidsDoes(fs, s, inode, process, client, x);
    }
  }

  type History = seq<Option<ByteLocks.Hold>>

  /** One hold after each step of a run. */
  ghost function HoldsOf(ws: seq<SessionWorld.World>, inode: Id, process: nat, client: string, x: nat): History {
    seq(|ws|, i requires 0 <= i < |ws| => ByteLocks.HoldAt(ws[i].fs.locks, inode, process, client, x))
  }

  ghost predicate Stays(history: History, i: nat) { i + 1 < |history| && history[i + 1] == history[i] }

  lemma {:induction false} StaysAlong(history: History, m: nat, n: nat)
    requires m <= n < |history| && forall i :: m <= i < n ==> Stays(history, i)
    ensures history[m] == history[n]
    decreases n
  {
    if m < n {
      StaysAlong(history, m, n - 1);
      assert Stays(history, n - 1);
    }
  }

  lemma RunStepKeepsHold(ws: seq<SessionWorld.World>, steps: seq<SessionWorld.Step>, i: nat, inode: Id, process: nat,
                         client: string, x: nat)
    requires SessionWorld.Run(ws, steps) && SessionWorld.WorldInv(ws[0]) && i + 1 < |ws|
    requires inode in ws[i + 1].fs.inodes && !Disturbs(ws[i], steps[i], inode, process, client, x)
    ensures Stays(HoldsOf(ws, inode, process, client, x), i)
  {
    SessionWorld.EveryRunKeepsTheWorld(ws, steps, i);
    StepKeepsHold(ws[i], steps[i], ws[i + 1], inode, process, client, x);
  }

  /** Over every run: an undisturbed hold stays as it is, and where there was none, none appears. */
  lemma HoldsOutlive(ws: seq<SessionWorld.World>, steps: seq<SessionWorld.Step>, m: nat, n: nat, inode: Id,
                     process: nat, client: string, x: nat)
    requires SessionWorld.Run(ws, steps) && SessionWorld.WorldInv(ws[0]) && m <= n < |ws|
    requires forall i :: m < i <= n ==> inode in ws[i].fs.inodes
    requires forall i :: m <= i < n ==> !Disturbs(ws[i], steps[i], inode, process, client, x)
    ensures var history := HoldsOf(ws, inode, process, client, x); history[n] == history[m]
  {
    var history := HoldsOf(ws, inode, process, client, x);
    forall i | m <= i < n ensures Stays(history, i) { RunStepKeepsHold(ws, steps, i, inode, process, client, x); }
    StaysAlong(history, m, n);
  }
}
