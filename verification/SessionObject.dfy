/**
 One session of src/ninep_protocol.rs as an object over the shared Filesystem: its fid
 table, generation and limits change in place, each method proved against Sessions.
 */
module SessionObject {
  import opened Wrappers
  import opened Namespace
  import opened FilesystemObject
  import S = Sessions
  import opened SessionEffects

  type U32 = S.U32

  /** The smallest number of a nonempty set, as an ordered map yields it. */
  method Least(numbers: set<U32>) returns (k: U32)
    requires numbers != {}
    ensures k in numbers && forall x :: x in numbers ==> k <= x
  {
    var rest := numbers;
    k :| k in rest;
    while rest != {}
      invariant k in numbers && rest <= numbers
      invariant forall x :: x in numbers && x !in rest ==> k <= x
    {
      var x :| x in rest;
      if x < k { k := x; }
      rest := rest - {x};
    }
  }

  /** Numbers without a fid are passed over. */
  lemma {:induction false} ReleaseGap(fs: Fs, fids: map<U32, S.Fid>, n: nat, k: nat)
    requires n <= k && forall x :: n <= x < k ==> x !in fids
    ensures S.ReleaseBelow(fs, fids, k) == S.ReleaseBelow(fs, fids, n)
    decreases k
  {
    if n < k { ReleaseGap(fs, fids, n, k - 1); }
  }

  /** An error met on the way is the outcome of the whole release. */
  lemma {:induction false} ReleaseStops(fs: Fs, fids: map<U32, S.Fid>, n: nat, k: nat)
    requires n <= k && S.ReleaseBelow(fs, fids, n).Err?
    ensures S.ReleaseBelow(fs, fids, k).Err?
    decreases k
  {
    if n < k { ReleaseStops(fs, fids, n, k - 1); }
  }

  ghost predicate ToDo(taken: map<U32, S.Fid>, rest: set<U32>, n: nat) {
    rest <= taken.Keys && n <= U32_MAX + 1 && forall x :: x in taken ==> (x in rest <==> n <= x)
  }

  lemma AfterLeast(taken: map<U32, S.Fid>, rest: set<U32>, k: U32, n: nat)
    requires ToDo(taken, rest, n) && k in rest && forall x :: x in rest ==> k <= x
    ensures n <= k && (forall x :: n <= x < k ==> x !in taken)
    ensures ToDo(taken, rest - {k}, (k as int) + 1)
  {
  }

  class NinePSession {
    const id: nat
    const fs: Filesystem
    var generation: nat
    var fids: map<U32, S.Fid>
    var msize: nat
    var negotiated: bool
    var closed: bool

    ghost function State(): S.Session
      reads this
    {
      S.Session(id, generation, fids, msize, negotiated, closed)
    }

    constructor (id: nat, fs: Filesystem)
      ensures this.fs == fs && State() == S.Session(id, fs.generation, map[], S.MAX_MESSAGE_SIZE, false, false)
    {
      this.id, this.fs, generation := id, fs, fs.generation;
      fids, msize, negotiated, closed := map[], S.MAX_MESSAGE_SIZE, false, false;
    }

    /** A replaced namespace makes the session forget its fids without releasing them. */
    method SyncGeneration()
      modifies this`fids, this`generation
      ensures State() == S.Synced(old(State()), fs.State())
    {
      if generation != fs.generation {
        fids := map[];
        generation := fs.generation;
      }
    }

    method InstallFid(number: U32, fid: S.Fid) returns (r: Result<(), S.Errno>)
      modifies this`fids, fs
      ensures var d := S.InstallFid(old(fs.State()), old(State()), number, fid);
              && fs.State() == d.fs && State() == d.session
              && (if d.result.Err? then r == Err(d.result.error) else r == Ok(()))
    {
      var kept := fs.RetainFid(fid.inode);
      if kept.Err? { return Err(S.ErrnoOf(kept.error)); }
      var replaced := if number in fids then Some(fids[number].inode) else None;
      fids := fids[number := fid];
      if replaced.Some? {
        var released := fs.ReleaseFid(replaced.value);
        if released.Err? { return Err(S.ErrnoOf(released.error)); }
      }
      r := Ok(());
    }

    /** The fids below n are released, the rest are still to do. */
    ghost predicate Releasing(start: Fs, taken: map<U32, S.Fid>, rest: set<U32>, n: nat)
      reads fs
    {
      ToDo(taken, rest, n) && S.ReleaseBelow(start, taken, n) == Ok(fs.State())
    }

    method ReleaseNext(ghost start: Fs, taken: map<U32, S.Fid>, k: U32, ghost n: nat) returns (ok: bool)
      requires k in taken && S.ReleaseBelow(start, taken, n) == Ok(fs.State())
      requires n <= k && forall x :: n <= x < k ==> x !in taken
      modifies fs
      ensures if ok then S.ReleaseBelow(start, taken, (k as int) + 1) == Ok(fs.State())
              else S.ReleaseBelow(start, taken, U32_MAX + 1).Err?
    {
      ReleaseGap(start, taken, n, k);
      var r := fs.ReleaseFid(taken[k].inode);
      ok := r.Ok?;
      if !ok { ReleaseStops(start, taken, (k as int) + 1, U32_MAX + 1); }
    }

    /** Takes the whole table, releases every fid in ascending order, then the session's locks. */
    method ReleaseFids() returns (ok: bool)
      modifies this`fids, fs
      ensures State() == old(State()).(fids := map[])
      ensures ok <==> S.ReleaseFids(old(fs.State()), old(State())).Ok?
      ensures ok ==> fs.State() == S.ReleaseFids(old(fs.State()), old(State())).value
    {
      var taken := fids;
      fids := map[];
      ok := ReleaseTable(taken);
      if ok { fs.ReleaseSessionLocks(id); }
    }

    method ReleaseTable(taken: map<U32, S.Fid>) returns (ok: bool)
      modifies fs
      ensures if ok then S.ReleaseBelow(old(fs.State()), taken, U32_MAX + 1) == Ok(fs.State())
              else S.ReleaseBelow(old(fs.State()), taken, U32_MAX + 1).Err?
    {
      ghost var start := fs.State();
      var rest := taken.Keys;
      ghost var n: nat := 0;
      while rest != {}
        invariant Releasing(start, taken, rest, n)
      {
        var k := Least(rest);
        AfterLeast(taken, rest, k, n);
        ok := ReleaseNext(start, taken, k, n);
        if !ok { return; }
        n, rest := (k as int) + 1, rest - {k};
      }
      ReleaseGap(start, taken, n, U32_MAX + 1);
      ok := true;
    }

    /** Follows the names one by one until one is missing. */
    method WalkNames(start: Id, names: seq<Name>) returns (passed: seq<Id>, stop: Option<S.Errno>)
      ensures S.Walked(passed, stop) == S.WalkNames(fs.State(), start, names)
    {
      var current := start;
      passed := [];
      ghost var f := fs.State();
      for i := 0 to |names|
        invariant var tail := S.WalkNames(f, current, names[i..]);
                  S.WalkNames(f, start, names) == S.Walked(passed + tail.passed, tail.stop)
      {
        assert names[i..][1..] == names[i + 1..];
        if current !in fs.inodes { return passed, Some(S.ESTALE); }
        var step := Step(current, names[i]);
        if step.Err? { return passed, Some(step.error); }
        passed := passed + [step.value];
        current := step.value;
      }
      stop := None;
    }

    method Step(current: Id, name: Name) returns (r: Result<Id, S.Errno>)
      ensures r == S.WalkStep(fs.State(), current, name)
    {
      var inodes := fs.inodes;
      if current !in inodes || !inodes[current].kind.Directory? { return Err(S.ENOTDIR); }
      if name == "." { return Ok(current); }
      if name == ".." {
        if current == fs.root { return Ok(current); }
        return if inodes[current].parent.Some? then Ok(inodes[current].parent.value) else Err(S.ENOENT);
      }
      if NameError(name).Some? { return Err(S.ErrnoOf(NameError(name).value)); }
      var c := Child(inodes, current, name);
      r := if c.Err? then Err(S.ErrnoOf(c.error)) else Ok(c.value);
    }

    method Walk(fid: U32, newFid: U32, names: seq<Name>, capacity: nat) returns (r: Result<nat, S.Errno>)
      modifies this`fids, fs
      ensures S.Done(fs.State(), State(), r)
              == S.WalkRequest(old(fs.State()), old(State()), fid, newFid, names, capacity)
    {
      if fid !in fids { return Err(S.EBADF); }
      var from := fids[fid];
      if from.open.Some? { return Err(S.EBADF); }
      if newFid != fid {
        var e := CheckNewFid(newFid);
        if e.Some? { return Err(e.value); }
      }
      var passed, stop := WalkNames(from.inode, names);
      if stop.Some? && (passed == [] || stop == Some(S.ESTALE)) { return Err(stop.value); }
      if 9 + 13 * |passed| > capacity { return Err(S.ENOSPC); }
      WalkIsShort(fs.State(), from.inode, names);
      WalkOutcome(fs.State(), State(), fid, newFid, names, capacity, S.Walked(passed, stop));
      if |passed| == |names| {
        var target := if passed == [] then from.inode else passed[|passed| - 1];
        var installed := InstallFid(newFid, from.(inode := target));
        if installed.Err? { return Err(installed.error); }
      }
      r := Ok(9 + 13 * |passed|);
    }

    method CheckNewFid(number: U32) returns (e: Option<S.Errno>)
      ensures e == S.CheckNewFid(State(), number)
    {
      e := if number == S.NOFID then Some(S.EINVAL)
           else if number in fids then Some(S.EEXIST)
           else if |fids| >= S.MAX_FIDS then Some(S.ENOSPC) else None;
    }

    method Clunk(fid: U32) returns (r: Result<nat, S.Errno>)
      modifies this`fids, fs
      ensures S.Done(fs.State(), State(), r) == S.ClunkRequest(old(fs.State()), old(State()), fid)
    {
      if fid !in fids { return Err(S.EBADF); }
      var released := fs.ReleaseFid(fids[fid].inode);
      if released.Err? { return Err(S.ErrnoOf(released.error)); }
      fids := fids - {fid};
      r := Ok(7);
    }

    /** Device reset: release into the current namespace, or forget the fids of a replaced one. */
    method Reset() returns (r: Result<(), S.ProtocolError>)
      modifies this, fs
      ensures var want := S.ResetSession(old(fs.State()), old(State()));
              if want.Ok? then r == Ok(()) && fs.State() == want.value.0 && State() == want.value.1
              else r == Err(want.error)
    {
      if closed { return Err(S.Closed); }
      if generation == fs.generation {
        var ok := ReleaseFids();
        if !ok { return Err(S.Invariant); }
        ReleaseKeepsGeneration(old(fs.State()), old(State()));
      } else {
        fids := map[];
      }
      generation := fs.generation;
      msize := S.MAX_MESSAGE_SIZE;
      negotiated := false;
      r := Ok(());
    }
  }

  lemma {:induction false} BelowKeepsGeneration(fs: Fs, fids: map<U32, S.Fid>, n: nat)
    requires S.ReleaseBelow(fs, fids, n).Ok?
    ensures S.ReleaseBelow(fs, fids, n).value.generation == fs.generation
  {
    if n > 0 { BelowKeepsGeneration(fs, fids, n - 1); }
  }

  lemma ReleaseKeepsGeneration(fs: Fs, s: S.Session)
    requires S.ReleaseFids(fs, s).Ok?
    ensures S.ReleaseFids(fs, s).value.generation == fs.generation
  {
    BelowKeepsGeneration(fs, s.fids, U32_MAX + 1);
  }

  /** A walk that got far enough answers, and installs its fid when it got all the way. */
  lemma WalkOutcome(fs: Fs, s: S.Session, fid: U32, newFid: U32, names: seq<Name>, capacity: nat, w: S.Walked)
    requires fid in s.fids && s.fids[fid].open.None? && (newFid == fid || S.CheckNewFid(s, newFid).None?)
    requires w == S.WalkNames(fs, s.fids[fid].inode, names) && 9 + 13 * |w.passed| <= capacity && |w.passed| <= |names|
    requires w.stop.Some? ==> w.passed != [] && w.stop != Some(S.ESTALE)
    ensures |w.passed| < |names| ==>
              S.WalkRequest(fs, s, fid, newFid, names, capacity) == S.Done(fs, s, Ok(9 + 13 * |w.passed|))
    ensures |w.passed| == |names| ==>
              var target := if w.passed == [] then s.fids[fid].inode else w.passed[|w.passed| - 1];
              var d := S.InstallFid(fs, s, newFid, s.fids[fid].(inode := target));
              S.WalkRequest(fs, s, fid, newFid, names, capacity)
              == if d.result.Err? then d else d.(result := Ok(9 + 13 * |w.passed|))
  {
  }
}
