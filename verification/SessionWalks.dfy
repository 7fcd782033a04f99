/**
 Where the fids of src/ninep_protocol.rs come from: which inode Tattach and Twalk bind,
 said on directory entries alone, with "." and ".." included, and what Tclunk gives back.
 */
module SessionWalks {
  import opened Wrappers
  import opened Namespace
  import opened NamespaceInvariant
  import opened NamespaceEffects
  import opened NamespaceAcceptance
  import opened Sessions
  import opened SessionRequests
  import SessionWorld

  // ------------------------------------------------------------------------- one name

  /** Some entry of `b` names `a`. */
  ghost predicate IsEntryOf(m: Arena, a: Id, b: Id) { exists x: Name :: EntryAt(m, b, x) == Some(a) }

  /** The name leads from directory `a` to `b`: itself, its holder (the root holds itself), or an entry. */
  ghost predicate Leads(fs: Fs, a: Id, name: Name, b: Id) {
    && IsDir(fs.inodes, a)
    && (if name == "." then b == a
        else if name == ".." then (if a == fs.root then b == a else IsEntryOf(fs.inodes, a, b))
        else EntryAt(fs.inodes, a, name) == Some(b))
  }

  /** One step of a walk goes exactly where the name leads. */
  lemma StepExactly(fs: Fs, a: Id, name: Name, b: Id)
    requires Inv(fs)
    ensures WalkStep(fs, a, name) == Ok(b) <==> Leads(fs, a, name, b)
    ensures Leads(fs, a, name, b) ==> b in fs.inodes
  {
    if name == ".." && IsDir(fs.inodes, a) && a != fs.root {
      UpExactly(fs, a, b);
    } else if EntryAt(fs.inodes, a, name) == Some(b) {
      assert HasEntry(fs.inodes, a, name, b);
    }
  }

  lemma UpExactly(fs: Fs, a: Id, b: Id)
    requires Inv(fs) && IsDir(fs.inodes, a) && a != fs.root
    ensures fs.inodes[a].parent == Some(b) <==> IsEntryOf(fs.inodes, a, b)
    ensures IsEntryOf(fs.inodes, a, b) ==> b in fs.inodes
  {
    if IsEntryOf(fs.inodes, a, b) {
      var x :| EntryAt(fs.inodes, b, x) == Some(a);
      assert HasEntry(fs.inodes, b, x, a);
    }
    if fs.inodes[a].parent == Some(b) {
      var n := ParentHolds(fs.inodes, fs.links, fs.root, a);
      assert EntryAt(fs.inodes, b, n) == Some(a);
    }
  }

  // -------------------------------------------------------------------------- a walk

  /** The inode a walk ends at. */
  function Arrival(start: Id, passed: seq<Id>): Id {
    if passed == [] then start else passed[|passed| - 1]
  }

  /** Each name leads to the next inode, and the first name not taken leads nowhere. */
  ghost predicate Route(fs: Fs, start: Id, names: seq<Name>, passed: seq<Id>)
    decreases |passed|
  {
    if passed == [] then names != [] ==> forall b: Id :: !Leads(fs, start, names[0], b)
    else names != [] && Leads(fs, start, names[0], passed[0]) && Route(fs, passed[0], names[1..], passed[1..])
  }

  /** How a walk ended. */
  ghost predicate WalkedAlong(fs: Fs, start: Id, names: seq<Name>, w: Walked) {
    && Route(fs, start, names, w.passed) && |w.passed| <= |names| && (w.stop.None? <==> |w.passed| == |names|)
    && w.stop != Some(ESTALE) && Arrival(start, w.passed) in fs.inodes
  }

  /** A walk takes exactly the names that lead on, one after the other. */
  lemma {:induction false} WalkExactly(fs: Fs, start: Id, names: seq<Name>)
    requires Inv(fs) && start in fs.inodes
    ensures WalkedAlong(fs, start, names, WalkNames(fs, start, names))
    decreases |names|
  {
    if names != [] {
      var step := WalkStep(fs, start, names[0]);
      forall b: Id ensures step == Ok(b) <==> Leads(fs, start, names[0], b) { StepExactly(fs, start, names[0], b); }
      StepIsNotStale(fs, start, names[0]);
      if step.Ok? {
        StepExactly(fs, start, names[0], step.value);
        WalkExactly(fs, step.value, names[1..]);
        WalkedFurther(fs, start, names, step.value, WalkNames(fs, step.value, names[1..]));
      }
    }
  }

  lemma StepIsNotStale(fs: Fs, start: Id, name: Name)
    ensures WalkStep(fs, start, name) != Err(ESTALE)
  {
  }

  lemma WalkedFurther(fs: Fs, start: Id, names: seq<Name>, next: Id, rest: Walked)
    requires names != [] && Leads(fs, start, names[0], next) && WalkedAlong(fs, next, names[1..], rest)
    ensures WalkedAlong(fs, start, names, Walked([next] + rest.passed, rest.stop))
  {
    assert ([next] + rest.passed)[1..] == rest.passed;
  }

  /** There is only one route. */
  lemma {:induction false} OneRoute(fs: Fs, start: Id, names: seq<Name>, a: seq<Id>, b: seq<Id>)
    requires Inv(fs) && Route(fs, start, names, a) && Route(fs, start, names, b)
    ensures a == b
    decreases |a|
  {
    if a != [] && b != [] {
      StepExactly(fs, start, names[0], a[0]);
      StepExactly(fs, start, names[0], b[0]);
      OneRoute(fs, a[0], names[1..], a[1..], b[1..]);
    }
  }

  /** Nothing but itself is reached from an inode without a name. */
  lemma {:induction false} UnlinkedStaysPut(fs: Fs, start: Id, names: seq<Name>, passed: seq<Id>)
    requires Inv(fs) && start in fs.inodes && fs.inodes[start].linkCount == 0 && Route(fs, start, names, passed)
    ensures Arrival(start, passed) == start
    decreases |passed|
  {
    if passed != [] {
      StepExactly(fs, start, names[0], passed[0]);
      UnlinkedStaysPut(fs, start, names[1..], passed[1..]);
    }
  }

  // ------------------------------------------------------------------------- requests

  /** A number that a new fid may take. */
  predicate FreeFid(s: Session, number: U32) {
    number != 0xffff_ffff && number !in s.fids && |s.fids| < 65536
  }

  /** The inode can count one more fid. */
  predicate CanHold(fs: Fs, id: Id) { id in fs.inodes && fs.inodes[id].fidRefs < 0xffff_ffff }

  /** Tattach binds a free fid to the root, without authentication. */
  lemma TattachExactly(fs: Fs, s: Session, tag: nat, fid: U32, afid: U32, capacity: nat)
    requires Inv(fs) && capacity >= 20
    ensures var d := Execute(fs, s, tag, Attach(fid, afid), capacity);
            && (d.result.Ok? <==> FreeFid(s, fid) && afid == 0xffff_ffff && CanHold(fs, fs.root))
            && (d.result.Ok? ==> d.session == s.(fids := s.fids[fid := Fid(fs.root, None)]) && SameTree(fs, d.fs))
            && (d.result.Err? ==> d.session == s && d.fs == fs)
  {
  }

  /** Every fid of the session is counted by the inode it names. */
  ghost predicate Counted(fs: Fs, s: Session) {
    forall f: U32 :: f in s.fids ==> s.fids[f].inode in fs.inodes && fs.inodes[s.fids[f].inode].fidRefs > 0
  }

  /** So it is in every world that a run of sessions reaches, and there all its fids can be released. */
  lemma FidsAreCounted(w: SessionWorld.World, k: nat)
    requires SessionWorld.WorldInv(w) && k in w.sessions
    ensures Counted(w.fs, Synced(w.sessions[k], w.fs)) && ReleaseFids(w.fs, Synced(w.sessions[k], w.fs)).Ok?
  {
    var s := Synced(w.sessions[k], w.fs);
    var others := SessionWorld.Others(w.sessions, w.fs.generation, w.fs.nextSession, k);
    SessionWorld.SyncedView(w, k);
    SessionWorld.ReleaseFidsKeepsRefs(w.fs, others, s);
    forall f: U32 | f in s.fids ensures w.fs.inodes[s.fids[f].inode].fidRefs > 0 {
      assert f in SessionWorld.NumbersOn(s.fids, s.fids[f].inode);
    }
  }

  /** Twalk may answer: a fid not open, a free number or its own, and a first name that leads somewhere. */
  ghost predicate MayWalk(fs: Fs, s: Session, fid: U32, newFid: U32, names: seq<Name>, passed: seq<Id>) {
    && fid in s.fids && s.fids[fid].open.None? && (newFid == fid || FreeFid(s, newFid))
    && (names == [] || passed != [])
    && (|passed| == |names| ==> CanHold(fs, Arrival(s.fids[fid].inode, passed)))
  }

  /** What Twalk does: it binds the fid only when every name leads on, and then to the inode it arrives at. */
  ghost predicate Walks(fs: Fs, s: Session, fid: U32, newFid: U32, names: seq<Name>, passed: seq<Id>, d: Done) {
    && (d.result.Ok? <==> MayWalk(fs, s, fid, newFid, names, passed))
    && (d.result.Ok? ==>
          && d.result.value == 9 + 13 * |passed|
          && (if |passed| < |names| then d.session == s && d.fs == fs
              else && d.session == s.(fids := s.fids[newFid := Fid(Arrival(s.fids[fid].inode, passed), None)])
                   && SameTree(fs, d.fs)))
  }

  /** Twalk answers exactly when it may, along the one route its names lead from its fid's inode. */
  lemma TwalkExactly(fs: Fs, s: Session, tag: nat, fid: U32, newFid: U32, names: seq<Name>, capacity: nat)
    returns (passed: seq<Id>)
    requires Inv(fs) && Counted(fs, s) && capacity >= 9 + 13 * |names|
    ensures fid in s.fids ==> Route(fs, s.fids[fid].inode, names, passed)
    ensures Walks(fs, s, fid, newFid, names, passed, Execute(fs, s, tag, Walk(fid, newFid, names), capacity))
  {
    passed := [];
    if fid in s.fids {
      WalkExactly(fs, s.fids[fid].inode, names);
      passed := WalkNames(fs, s.fids[fid].inode, names).passed;
      WalkRequestWalks(fs, s, fid, newFid, names, capacity);
    }
  }

  lemma WalkRequestWalks(fs: Fs, s: Session, fid: U32, newFid: U32, names: seq<Name>, capacity: nat)
    requires Inv(fs) && Counted(fs, s) && fid in s.fids && capacity >= 9 + 13 * |names|
    requires WalkedAlong(fs, s.fids[fid].inode, names, WalkNames(fs, s.fids[fid].inode, names))
    ensures var passed := WalkNames(fs, s.fids[fid].inode, names).passed;
            Walks(fs, s, fid, newFid, names, passed, WalkRequest(fs, s, fid, newFid, names, capacity))
  {
    var passed := WalkNames(fs, s.fids[fid].inode, names).passed;
    WalkRequestShape(fs, s, fid, newFid, names, capacity);
    if newFid == fid || FreeFid(s, newFid) { WalkBinds(fs, s, fid, newFid, names, passed); }
  }

  lemma WalkRequestShape(fs: Fs, s: Session, fid: U32, newFid: U32, names: seq<Name>, capacity: nat)
    requires fid in s.fids && capacity >= 9 + 13 * |names|
    requires var w := WalkNames(fs, s.fids[fid].inode, names);
             |w.passed| <= |names| && (w.stop.None? <==> |w.passed| == |names|) && w.stop != Some(ESTALE)
    ensures var d, start := WalkRequest(fs, s, fid, newFid, names, capacity), s.fids[fid].inode;
            var passed := WalkNames(fs, start, names).passed;
            if s.fids[fid].open.Some? || !(newFid == fid || FreeFid(s, newFid)) || (names != [] && passed == []) then
              d.result.Err?
            else if |passed| < |names| then d == Done(fs, s, Ok(9 + 13 * |passed|))
            else
              var b := InstallFid(fs, s, newFid, s.fids[fid].(inode := Arrival(start, passed)));
              d == if b.result.Ok? then b.(result := Ok(9 + 13 * |passed|)) else b
  {
    NewFids(s, newFid);
  }

  lemma NewFids(s: Session, number: U32)
    ensures CheckNewFid(s, number).None? <==> FreeFid(s, number)
  {
  }

  lemma WalkBinds(fs: Fs, s: Session, fid: U32, newFid: U32, names: seq<Name>, passed: seq<Id>)
    requires Inv(fs) && Counted(fs, s) && fid in s.fids && (newFid == fid || newFid !in s.fids)
    requires Route(fs, s.fids[fid].inode, names, passed)
    ensures var target := Arrival(s.fids[fid].inode, passed);
            var d := InstallFid(fs, s, newFid, s.fids[fid].(inode := target));
            && (d.result.Ok? <==> CanHold(fs, target))
            && (d.result.Ok? ==> d.session == s.(fids := s.fids[newFid := s.fids[fid].(inode := target)])
                                 && SameTree(fs, d.fs))
  {
    var start := s.fids[fid].inode;
    if fs.inodes[start].linkCount == 0 { UnlinkedStaysPut(fs, start, names, passed); }
    BindExactly(fs, s, newFid, s.fids[fid].(inode := Arrival(start, passed)));
  }

  /** Binding a fid, new or in place of another of a linked inode or of the same one. */
  lemma BindExactly(fs: Fs, s: Session, number: U32, fid: Fid)
    requires number in s.fids ==>
               var was := s.fids[number].inode;
               was in fs.inodes && fs.inodes[was].fidRefs > 0 && (fs.inodes[was].linkCount > 0 || fid.inode == was)
    ensures var d := InstallFid(fs, s, number, fid);
            && (d.result.Ok? <==> CanHold(fs, fid.inode))
            && (d.result.Ok? ==> d.session == s.(fids := s.fids[number := fid]) && SameTree(fs, d.fs))
  {
  }

  /** Tclunk drops a known fid; entries stay, and so do all bytes but those of an inode only this fid held. */
  lemma TclunkExactly(fs: Fs, s: Session, tag: nat, fid: U32, capacity: nat)
    requires Inv(fs) && Counted(fs, s)
    ensures var d, id := Execute(fs, s, tag, Clunk(fid), capacity), Target(s, fid);
            && (d.result.Ok? <==> fid in s.fids)
            && (d.result.Ok? ==>
                  && d.session == s.(fids := s.fids - {fid}) && SameEntries(fs, d.fs) && SameBodiesBut(fs, d.fs, id)
                  && (fs.inodes[id].linkCount > 0 || fs.inodes[id].fidRefs > 1 ==>
                        BodyAt(d.fs.inodes, id) == BodyAt(fs.inodes, id)))
            && (d.result.Err? ==> d.session == s && d.fs == fs)
  {
    if fid in s.fids { ReleaseDoes(fs, s.fids[fid].inode); }
  }

  lemma ReleaseDoes(fs: Fs, id: Id)
    requires Inv(fs) && id in fs.inodes && fs.inodes[id].fidRefs > 0
    ensures var after := Unreferenced(fs, id);
            && SameEntries(fs, after) && SameBodiesBut(fs, after, id)
            && (fs.inodes[id].linkCount > 0 || fs.inodes[id].fidRefs > 1 ==>
                  BodyAt(after.inodes, id) == BodyAt(fs.inodes, id))
  {
    NamelessIsEmpty(fs, id);
    CountingDoes(fs, id);
  }

  lemma NamelessIsEmpty(fs: Fs, id: Id)
    requires Inv(fs) && id in fs.inodes
    ensures fs.inodes[id].linkCount == 0 && fs.inodes[id].kind.Directory? ==> fs.inodes[id].kind.entries == map[]
  {
    assert IsDir(fs.inodes, id) <==> fs.inodes[id].kind.Directory?;
  }

  lemma CountingDoes(fs: Fs, id: Id)
    requires id in fs.inodes && fs.inodes[id].fidRefs > 0
    requires fs.inodes[id].linkCount == 0 && fs.inodes[id].kind.Directory? ==> fs.inodes[id].kind.entries == map[]
    ensures var after := Unreferenced(fs, id);
            && SameEntries(fs, after) && SameBodiesBut(fs, after, id)
            && (fs.inodes[id].linkCount > 0 || fs.inodes[id].fidRefs > 1 ==>
                  BodyAt(after.inodes, id) == BodyAt(fs.inodes, id))
  {
    var after := Unreferenced(fs, id).inodes;
    forall d: Id | d != id ensures d in after <==> d in fs.inodes {}
    assert forall d: Id :: d != id && d in after ==> after[d] == fs.inodes[d];
    assert id in after ==> after[id].kind == fs.inodes[id].kind;
  }
}
