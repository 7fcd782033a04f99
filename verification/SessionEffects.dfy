/** Which inode a fid names after the requests that bind, move or drop it. */
module SessionEffects {
  import opened Wrappers
  import opened Namespace
  import opened NamespaceInvariant
  import opened Sessions
  import opened NamespaceEffects

  /** Every component is an ordinary name, so a walk is a lookup. */
  ghost predicate Literal(names: seq<Name>) {
    forall i :: 0 <= i < |names| ==> NameError(names[i]).None?
  }

  /** Resolution one component at a time from the front. */
  lemma {:induction false} ResolveFront(m: Arena, start: Id, names: seq<Name>)
    requires names != []
    ensures Resolve(m, start, names)
            == var c := Child(m, start, names[0]); if c.Err? then Err(c.error) else Resolve(m, c.value, names[1..])
    decreases |names|
  {
    if |names| == 1 {
      assert names[..0] == [] && names[1..] == [];
    } else {
      var front := names[..|names| - 1];
      ResolveFront(m, start, front);
      assert front[1..] == names[1..][..|names| - 2];
    }
  }

  lemma {:induction false} WalkIsShort(fs: Fs, current: Id, names: seq<Name>)
    ensures |WalkNames(fs, current, names).passed| <= |names|
    decreases |names|
  {
    if names != [] && current in fs.inodes && WalkStep(fs, current, names[0]).Ok? {
      WalkIsShort(fs, WalkStep(fs, current, names[0]).value, names[1..]);
    }
  }

  /** A walk by ordinary names passes exactly the inodes forward resolution finds. */
  lemma {:induction false} WalkIsLookup(fs: Fs, current: Id, names: seq<Name>, i: nat)
    requires Literal(names) && i < |WalkNames(fs, current, names).passed|
    ensures i < |names| && Resolve(fs.inodes, current, names[..i + 1]) == Ok(WalkNames(fs, current, names).passed[i])
    decreases |names|
  {
    var step := WalkStep(fs, current, names[0]).value;
    WalkIsShort(fs, current, names);
    ResolveFront(fs.inodes, current, names[..i + 1]);
    if i > 0 {
      WalkIsLookup(fs, step, names[1..], i - 1);
      assert names[..i + 1][1..] == names[1..][..i];
    } else {
      assert names[..1][1..] == [];
    }
  }

  /** A complete walk binds the new fid to the inode its names resolve to, and no other fid changes. */
  lemma WalkBindsTheLookup(fs: Fs, s: Session, fid: U32, newFid: U32, names: seq<Name>, capacity: nat, other: U32)
    requires fid in s.fids && Literal(names) && WalkRequest(fs, s, fid, newFid, names, capacity).result.Ok?
    ensures var after := WalkRequest(fs, s, fid, newFid, names, capacity).session.fids;
            var complete := |WalkNames(fs, s.fids[fid].inode, names).passed| == |names|;
            && (complete ==> newFid in after && Resolve(fs.inodes, s.fids[fid].inode, names) == Ok(after[newFid].inode))
            && (!complete ==> after == s.fids)
            && (other != newFid ==>
                  (other in after <==> other in s.fids) && (other in after ==> after[other] == s.fids[other]))
  {
    var w := WalkNames(fs, s.fids[fid].inode, names);
    WalkIsShort(fs, s.fids[fid].inode, names);
    if |w.passed| == |names| && names != [] {
      WalkIsLookup(fs, s.fids[fid].inode, names, |names| - 1);
      assert names[..|names|] == names;
    }
  }

  /** Reference counts do not matter to resolution. */
  lemma {:induction false} ResolveIgnoresRefs(m: Arena, start: Id, names: seq<Name>, id: Id, refs: nat)
    requires id in m
    ensures Resolve(m[id := m[id].(fidRefs := refs)], start, names) == Resolve(m, start, names)
    decreases |names|
  {
    if names != [] { ResolveIgnoresRefs(m, start, names[..|names| - 1], id, refs); }
  }

  /** Attaching and then walking all the names binds the inode that looking up the names finds. */
  lemma AttachThenWalkIsLookup(fs: Fs, s: Session, fid: U32, newFid: U32, names: seq<Name>, room: nat, capacity: nat)
    requires Literal(names) && AttachRequest(fs, s, fid, NOFID, room).result.Ok?
    ensures var a := AttachRequest(fs, s, fid, NOFID, room);
            var w := WalkRequest(a.fs, a.session, fid, newFid, names, capacity);
            w.result.Ok? && |WalkNames(a.fs, fs.root, names).passed| == |names| ==>
              newFid in w.session.fids && Lookup(fs, names) == Ok(w.session.fids[newFid].inode)
  {
    var a := AttachRequest(fs, s, fid, NOFID, room);
    var w := WalkRequest(a.fs, a.session, fid, newFid, names, capacity);
    if w.result.Ok? && |WalkNames(a.fs, fs.root, names).passed| == |names| {
      WalkBindsTheLookup(a.fs, a.session, fid, newFid, names, capacity, newFid);
      ResolveIgnoresRefs(fs.inodes, fs.root, names, fs.root, fs.inodes[fs.root].fidRefs + 1);
    }
  }

  /** Dropping a fid just installed gives back the namespace, reference counts included, and the fid table. */
  lemma InstallThenClunkRestores(fs: Fs, s: Session, number: U32, fid: Fid)
    requires Inv(fs) && number !in s.fids && InstallFid(fs, s, number, fid).result.Ok?
    ensures var d := InstallFid(fs, s, number, fid); ClunkRequest(d.fs, d.session, number) == Done(fs, s, Ok(7))
  {
    var d := InstallFid(fs, s, number, fid);
    RetainThenRelease(fs, fid.inode);
    assert d.session.fids - {number} == s.fids;
  }

  lemma RetainThenRelease(fs: Fs, id: Id)
    requires id in fs.inodes && (fs.inodes[id].linkCount > 0 || fs.inodes[id].fidRefs > 0) && RetainFid(fs, id).Ok?
    ensures ReleaseFid(RetainFid(fs, id).value, id) == Ok(fs)
  {
    var held := RetainFid(fs, id).value;
    assert held.inodes[id := held.inodes[id].(fidRefs := fs.inodes[id].fidRefs)] == fs.inodes;
  }

  /** Attach and clunk cancel out. */
  lemma AttachThenClunkRestores(fs: Fs, s: Session, fid: U32, afid: U32, capacity: nat)
    requires Inv(fs) && AttachRequest(fs, s, fid, afid, capacity).result.Ok?
    ensures var a := AttachRequest(fs, s, fid, afid, capacity); ClunkRequest(a.fs, a.session, fid) == Done(fs, s, Ok(7))
  {
    InstallThenClunkRestores(fs, s, fid, Fid(fs.root, None));
  }

  /** A walk to a new fid and its clunk cancel out, wherever the walk went. */
  lemma WalkThenClunkRestores(fs: Fs, s: Session, fid: U32, newFid: U32, names: seq<Name>, capacity: nat)
    requires Inv(fs) && newFid != fid && newFid in WalkRequest(fs, s, fid, newFid, names, capacity).session.fids
    requires WalkRequest(fs, s, fid, newFid, names, capacity).result.Ok?
    ensures var w := WalkRequest(fs, s, fid, newFid, names, capacity);
            ClunkRequest(w.fs, w.session, newFid) == Done(fs, s, Ok(7))
  {
    var bound := WalkInstalls(fs, s, fid, newFid, names, capacity);
    InstallThenClunkRestores(fs, s, newFid, bound);
  }

  /** A walk that bound a new fid did so by installing it. */
  lemma WalkInstalls(fs: Fs, s: Session, fid: U32, newFid: U32, names: seq<Name>, capacity: nat) returns (bound: Fid)
    requires newFid != fid && newFid in WalkRequest(fs, s, fid, newFid, names, capacity).session.fids
    requires WalkRequest(fs, s, fid, newFid, names, capacity).result.Ok?
    ensures newFid !in s.fids
    ensures var w, d := WalkRequest(fs, s, fid, newFid, names, capacity), InstallFid(fs, s, newFid, bound);
            d.result.Ok? && w.fs == d.fs && w.session == d.session
  {
    var w := WalkNames(fs, s.fids[fid].inode, names);
    var target := if w.passed == [] then s.fids[fid].inode else w.passed[|w.passed| - 1];
    bound := s.fids[fid].(inode := target);
  }

  /** Creating binds the directory's fid to the entry now under that name, open with the given flags. */
  lemma CreateBindsTheEntry(fs: Fs, s: Session, fid: U32, name: Name, flags: bv32, capacity: nat)
    requires forall id :: id in fs.inodes ==> id < fs.nextInode
    requires CreateRequest(fs, s, fid, name, flags, capacity).result.Ok?
    ensures var t := CreateTarget(fs, s.fids[fid].inode, name, flags);
            && fid in s.fids && t.Ok?
            && EntryAt(t.value.0.inodes, s.fids[fid].inode, name) == Some(t.value.1)
            && CreateRequest(fs, s, fid, name, flags, capacity).session.fids[fid] == Fid(t.value.1, Some(flags))
  {
    var d := s.fids[fid].inode;
    if NameError(name).None? && Child(fs.inodes, d, name).Err? {
      InsertAddsOneEntry(fs, d, name, File([]), d, name);
    }
  }
}
