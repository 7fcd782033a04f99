/**
 Exactly which unanswered message leaves a trace: a create that truncates a non-empty
 file and then finds the file's reference counter full. One world shows that it can happen.
 */
module SessionTraces {
  import opened Wrappers
  import opened Arithmetic
  import opened Namespace
  import opened NamespaceInvariant
  import opened Sessions
  import opened SessionWorld

  /** The state a failed message should leave: the session's own, at most moved to the current generation. */
  function Settled(fs: Fs, s: Session): Session {
    if s.closed then s else Synced(s, fs)
  }

  /** The message is not answered with success, yet namespace, locks or session differ from before. */
  ghost predicate LeavesATrace(fs: Fs, s: Session, msg: Message, capacity: nat)
    requires Inv(fs)
  {
    var r := Submit(fs, s, msg, capacity);
    !r.answer.Reply? && (r.fs != fs || r.session != Settled(fs, s))
  }

  /** The file a create names has bytes to lose, and the quota lets it lose them. */
  ghost predicate Shrinks(fs: Fs, d: Id, name: Name) {
    var c := Child(fs.inodes, d, name);
    && c.Ok? && c.value in fs.inodes && fs.inodes[c.value].kind.File? && fs.inodes[c.value].kind.body != []
    && Minus(fs.logicalBytes, FileBytes(fs.inodes[c.value])) <= fs.limits.maxTreeBytes
  }

  /** The message gets past the gate and names a non-empty file with a full reference counter. */
  ghost predicate TruncatesSaturated(fs: Fs, s: Session, msg: Message, capacity: nat) {
    var t := Synced(s, fs);
    && !s.closed && msg.Message? && msg.tag != NOTAG && t.negotiated && Capacity(t, false, capacity) >= 24
    && SaturatedTruncate(fs, t, msg.request)
    && Shrinks(fs, t.fids[msg.request.fid].inode, msg.request.name)
  }

  // --------------------------------------------------------------- the characterisation

  lemma TruncateChanges(fs: Fs, id: Id)
    requires id in fs.inodes && fs.inodes[id].kind.File?
    ensures var quota := Minus(fs.logicalBytes, FileBytes(fs.inodes[id])) <= fs.limits.maxTreeBytes;
            var t := Truncate(fs, id, 0);
            && (t.Ok? <==> quota)
            && (t.Ok? ==> (t.value != fs <==> fs.inodes[id].kind.body != []))
            && (t.Ok? ==> id in t.value.inodes && t.value.inodes[id].fidRefs == fs.inodes[id].fidRefs)
  {
    if Truncate(fs, id, 0).Ok? {
      var after := Truncate(fs, id, 0).value;
      assert after.inodes[id].kind.body == [];
      if fs.inodes[id].kind.body == [] {
        assert after.inodes == fs.inodes;
      }
    }
  }

  /** The truncating create on a full counter always fails; it changes the tree exactly when there are bytes to lose. */
  lemma SaturatedCreate(fs: Fs, s: Session, r: Request, capacity: nat)
    requires SaturatedTruncate(fs, s, r)
    ensures var d := CreateRequest(fs, s, r.fid, r.name, r.flags, capacity);
            d.result.Err? && d.session == s && (d.fs != fs <==> Shrinks(fs, s.fids[r.fid].inode, r.name))
  {
    TruncateChanges(fs, Child(fs.inodes, s.fids[r.fid].inode, r.name).value);
  }

  lemma SaturatedMessage(fs: Fs, s: Session, msg: Message, capacity: nat)
    requires Inv(fs) && !s.closed && msg.Message? && SaturatedTruncate(fs, Synced(s, fs), msg.request)
    ensures LeavesATrace(fs, s, msg, capacity) <==> TruncatesSaturated(fs, s, msg, capacity)
  {
    var t := Synced(s, fs);
    SaturatedCreate(fs, t, msg.request, Capacity(t, false, capacity));
  }

  /** A message that is not answered with success leaves a trace if and only if it truncates a saturated file. */
  lemma TraceExactlyWhenSaturated(w: World, k: nat, msg: Message, capacity: nat)
    requires WorldInv(w) && k in w.sessions
    ensures LeavesATrace(w.fs, w.sessions[k], msg, capacity)
            <==> TruncatesSaturated(w.fs, w.sessions[k], msg, capacity)
  {
    var s := w.sessions[k];
    if !s.closed && msg.Message? && SaturatedTruncate(w.fs, Synced(s, w.fs), msg.request) {
      SaturatedMessage(w.fs, s, msg, capacity);
    } else {
      FailedRequestChangesNothing(w, k, msg, capacity);
    }
  }

  /** With at most 65535 sessions every message that fails changes nothing. */
  lemma FewSessionsLeaveNoTrace(w: World, k: nat, msg: Message, capacity: nat)
    requires WorldInv(w) && k in w.sessions && |w.sessions| <= 65535
    ensures !LeavesATrace(w.fs, w.sessions[k], msg, capacity)
  {
    TraceExactlyWhenSaturated(w, k, msg, capacity);
    if msg.Message? { FewSessionsNeverSaturate(w, Synced(w.sessions[k], w.fs), msg.request); }
  }

  // ------------------------------------------------------------------ a saturated world

  const Tiny := Limits(1, 1, 2, 1)

  /** A tree with the one-byte file "f" under the root, as writing it makes it. */
  function OneFile(): Fs {
    Fs(map[1 := Inode(Directory(map["f" := Entry(2, 1)], 2), None, 1, 0), 2 := Inode(File([0]), None, 1, 0)],
       map[2 := {(1, "f")}], 1, 3, 1, Tiny, 1, 1, [], 1)
  }

  lemma OneFileIsWritten()
    ensures WriteFile(NewFs(Tiny), ["f"], [0]) == Ok((OneFile(), 2))
  {
    var fs := NewFs(Tiny);
    assert Lookup(fs, []) == Ok(1);
    assert ["f"][..0] == [];
    OneFileIsInserted();
  }

  lemma OneFileIsInserted()
    ensures Insert(NewFs(Tiny), 1, "f", File([0])) == Ok((OneFile().(logicalBytes := 0), 2))
  {
    var r := Insert(NewFs(Tiny), 1, "f", File([0])).value.0;
    assert r.inodes == OneFile().inodes;
    assert r.links == OneFile().links;
  }

  lemma OneFileIsInv()
    ensures Inv(OneFile())
  {
    NewFsIsInv(Tiny);
    OneFileIsWritten();
    WriteFileKeepsInv(NewFs(Tiny), ["f"], [0]);
  }

  function Counted(fs: Fs, id: Id, refs: nat): Fs
    requires id in fs.inodes
  {
    fs.(inodes := fs.inodes[id := fs.inodes[id].(fidRefs := refs)])
  }

  lemma CountedIsInv(fs: Fs, id: Id, refs: nat)
    requires Inv(fs) && id in fs.inodes && fs.inodes[id].linkCount > 0
    ensures Inv(Counted(fs, id, refs))
  {
    TouchedTree(fs.inodes, fs.links, fs.root, id, fs.inodes[id].(fidRefs := refs));
    HeldTree(Counted(fs, id, refs).inodes, fs.links, fs.root, id);
    RefsKeepSums(fs, id, refs);
    RefsKeepLocks(fs, id, refs);
  }

  /** Fids 0 to m-1, all on the file except fid 0 of session 1, which stays on the root. */
  function Table(k: nat, m: nat): map<U32, Fid> {
    map f: U32 | f < m :: Seat(k, f)
  }

  function Seat(k: nat, f: U32): Fid {
    Fid(if k == 1 && f == 0 then 1 else 2, None)
  }

  function Member(k: nat, m: nat): Session {
    Session(k, 1, Table(k, m), MAX_MESSAGE_SIZE, true, false)
  }

  function Crowd(n: nat, m: nat): map<nat, Session> {
    map k: nat | 1 <= k <= n :: Member(k, m)
  }

  lemma {:induction false} TableCounts(k: nat, m: nat)
    requires m <= U32_MAX
    ensures |Table(k, m)| == m
    ensures FidsOn(Table(k, m), 1) == if k == 1 && m > 0 then 1 else 0
    ensures FidsOn(Table(k, m), 2) == if k == 1 && m > 0 then m - 1 else m
  {
    if m == 0 {
      assert Table(k, 0) == map[];
      NoFidsCountNothing(1);
      NoFidsCountNothing(2);
    } else {
      TableCounts(k, m - 1);
      var last := Seat(k, m - 1);
      assert Table(k, m) == Table(k, m - 1)[m - 1 := last];
      FidsOnPut(Table(k, m - 1), m - 1, last, 1);
      FidsOnPut(Table(k, m - 1), m - 1, last, 2);
    }
  }

  /** References of a crowd: one on the root, all the others on the file. */
  lemma {:induction false} CrowdCounts(n: nat, m: nat, j: nat)
    requires 0 < m <= U32_MAX && j <= n
    ensures RefsBelow(Crowd(n, m), 1, j + 1, 1) == if j > 0 then 1 else 0
    ensures RefsBelow(Crowd(n, m), 1, j + 1, 2) == ProductOf(j, m) - if j > 0 then 1 else 0
    decreases j
  {
    if j == 0 {
      assert RefsBelow(Crowd(n, m), 1, 0, 1) == 0 && RefsBelow(Crowd(n, m), 1, 0, 2) == 0;
    } else {
      CrowdCounts(n, m, j - 1);
      TableCounts(j, m);
      TimesNext(j - 1, m);
      assert Crowd(n, m)[j] == Member(j, m);
    }
  }

  /** The tree of the crowd: the file carries all references but one. */
  ghost predicate Crowded(fs: Fs, n: nat, refs: nat) {
    && fs.inodes.Keys == {1, 2} && fs.root == 1 && fs.generation == 1 && fs.nextSession == n + 1
    && fs.logicalBytes == 1 && fs.limits == Tiny
    && fs.inodes[1].kind == Directory(map["f" := Entry(2, 1)], 2) && fs.inodes[1].fidRefs == 1
    && fs.inodes[2].kind == File([0]) && fs.inodes[2].fidRefs == refs
  }

  lemma CrowdedTree(n: nat, refs: nat) returns (fs: Fs)
    ensures Inv(fs) && Crowded(fs, n, refs)
  {
    OneFileIsInv();
    CountedIsInv(OneFile(), 1, 1);
    fs := FileCounted(Counted(OneFile(), 1, 1), refs, n);
  }

  lemma FileCounted(fs: Fs, refs: nat, n: nat) returns (after: Fs)
    requires Inv(fs) && 2 in fs.inodes && fs.inodes[2].linkCount > 0
    ensures Inv(after) && after == Counted(fs, 2, refs).(nextSession := n + 1)
  {
    CountedIsInv(fs, 2, refs);
    after := Counted(fs, 2, refs).(nextSession := n + 1);
    SessionCountIsApart(Counted(fs, 2, refs), after);
  }

  /** Any number of sessions with up to 65536 fids each makes a sound world. */
  lemma CrowdIsSound(n: nat, m: nat) returns (w: World)
    requires 0 < n && 0 < m <= MAX_FIDS && ProductOf(n, m) > 0
    ensures WorldInv(w) && Crowded(w.fs, n, ProductOf(n, m) - 1) && w.sessions == Crowd(n, m)
  {
    var fs := CrowdedTree(n, ProductOf(n, m) - 1);
    CrowdMatches(n, m, fs);
    CrowdMembers(n, m, fs);
    w := World(fs, Crowd(n, m));
  }

  lemma CrowdMatches(n: nat, m: nat, fs: Fs)
    requires 0 < n && 0 < m <= MAX_FIDS && ProductOf(n, m) > 0 && fs.generation == 1 && fs.nextSession == n + 1
    requires fs.inodes.Keys == {1, 2} && fs.inodes[1].fidRefs == 1 && fs.inodes[2].fidRefs == ProductOf(n, m) - 1
    ensures CountsMatch(fs, Crowd(n, m))
  {
    CrowdCounts(n, m, n);
  }

  lemma CrowdMembers(n: nat, m: nat, fs: Fs)
    requires 0 < m <= MAX_FIDS && fs.generation == 1 && fs.nextSession == n + 1 && {1, 2} <= fs.inodes.Keys
    ensures SessionsOk(fs, Crowd(n, m)) && NoneDangles(fs, Crowd(n, m))
  {
    forall k | k in Crowd(n, m) ensures SessionOk(fs, Crowd(n, m)[k]) { TableCounts(k, m); }
  }

  /** The failing input occurs: 65536 sessions of 65536 fids, one create, and the file is emptied in vain. */
  lemma AFailedCreateEmptiesAFile(capacity: nat) returns (w: World, msg: Message)
    requires capacity >= 24
    ensures WorldInv(w) && |w.sessions| == 65536 && 1 in w.sessions
    ensures LeavesATrace(w.fs, w.sessions[1], msg, capacity)
  {
    var n: nat :| n == 65536;
    w := CrowdIsSound(n, n);
    msg := Message(0, Create(0, "f", 0x201));
    CrowdSize(n, n);
    SaturatedFile(n, w.fs, w.sessions[1], capacity);
    TraceExactlyWhenSaturated(w, 1, msg, capacity);
  }

  lemma {:induction false} CrowdSize(n: nat, m: nat)
    ensures |Crowd(n, m)| == n
  {
    if n == 0 {
      assert Crowd(0, m) == map[];
    } else {
      CrowdSize(n - 1, m);
      assert Crowd(n, m) == Crowd(n - 1, m)[n := Member(n, m)];
    }
  }

  lemma SaturatedFile(n: nat, fs: Fs, s: Session, capacity: nat)
    requires n == 65536 && Crowded(fs, n, U32_MAX) && s == Member(1, n) && capacity >= 24
    ensures TruncatesSaturated(fs, s, Message(0, Create(0, "f", 0x201)), capacity)
  {
    assert NameError("f").None?;
    assert FlagsError(0x201).None?;
  }
}
