/**
 The advisory byte-range locks of src/ninep.rs.

 The server keeps a flat list of intervals.  The specification is the table that
 fcntl() record locks describe: for every inode, owner (process and client) and
 byte offset below 2^64, at most one hold, made of a kind and the session that
 took it.  `HoldAt` reads that table off a list.
 */
module ByteLocks {
  import opened Wrappers

  // One past the last representable file offset.
  const OFFSET_END: nat := 0x1_0000_0000_0000_0000
  // The sentinel the overlap test uses for "to the end of the file".
  const U128_MAX: nat := 0xffff_ffff_ffff_ffff_ffff_ffff_ffff_ffff

  type Offset = n: nat | n < OFFSET_END

  datatype LockKind = ReadLock | WriteLock

  datatype Lock = Lock(inode: nat, session: nat, kind: LockKind,
                       start: Offset, length: Offset, process: nat, client: string)

  datatype Hold = Hold(kind: LockKind, session: nat)

  // ---------------------------------------------------------------- operations

  predicate SameOwner(a: Lock, b: Lock) {
    a.process == b.process && a.client == b.client
  }

  function LockEnd(l: Lock): (end: nat)
    ensures l.start < end <= OFFSET_END
  {
    if l.length == 0 then OFFSET_END
    else if l.start + l.length < OFFSET_END then l.start + l.length
    else OFFSET_END
  }

  /** The end used by the overlap test: it is not clamped to 2^64. */
  function RawEnd(start: Offset, length: Offset): nat {
    if length == 0 then U128_MAX else start + length
  }

  predicate RangesOverlap(a: Lock, b: Lock) {
    a.start < RawEnd(b.start, b.length) && b.start < RawEnd(a.start, a.length)
  }

  predicate Conflicts(held: Lock, requested: Lock) {
    && held.inode == requested.inode
    && !SameOwner(held, requested)
    && (held.kind == WriteLock || requested.kind == WriteLock)
    && RangesOverlap(held, requested)
  }

  /** What one held interval leaves behind when `cut` is taken out of it. */
  function Pieces(held: Lock, cut: Lock): seq<Lock> {
    if held.inode != cut.inode || !SameOwner(held, cut) || !RangesOverlap(held, cut) then [held]
    else
      (if held.start < cut.start then [held.(length := cut.start - held.start)] else [])
      + (if LockEnd(cut) < LockEnd(held) then
           [held.(start := LockEnd(cut),
                  length := if LockEnd(held) == OFFSET_END then 0 else LockEnd(held) - LockEnd(cut))]
         else [])
  }

  function Subtract(locks: seq<Lock>, cut: Lock): seq<Lock> {
    if locks == [] then [] else Pieces(locks[0], cut) + Subtract(locks[1..], cut)
  }

  predicate Blocked(locks: seq<Lock>, requested: Lock) {
    exists i :: 0 <= i < |locks| && Conflicts(locks[i], requested)
  }

  /** try_lock on an existing file: None reports a conflict. */
  function Acquire(locks: seq<Lock>, requested: Lock): Option<seq<Lock>> {
    if Blocked(locks, requested) then None else Some(Subtract(locks, requested) + [requested])
  }

  function WithoutSession(locks: seq<Lock>, session: nat): seq<Lock> {
    if locks == [] then []
    else (if locks[0].session != session then [locks[0]] else []) + WithoutSession(locks[1..], session)
  }

  function WithoutInode(locks: seq<Lock>, inode: nat): seq<Lock> {
    if locks == [] then []
    else (if locks[0].inode != inode then [locks[0]] else []) + WithoutInode(locks[1..], inode)
  }

  method FindConflict(locks: seq<Lock>, requested: Lock) returns (found: Option<Lock>)
    ensures found.None? <==> !Blocked(locks, requested)
    ensures found.Some? ==>
              exists i :: 0 <= i < |locks| && locks[i] == found.value && Conflicts(locks[i], requested)
                          && forall j :: 0 <= j < i ==> !Conflicts(locks[j], requested)
  {
    for i := 0 to |locks|
      invariant forall j :: 0 <= j < i ==> !Conflicts(locks[j], requested)
    {
      if Conflicts(locks[i], requested) {
        return Some(locks[i]);
      }
    }
    return None;
  }

  method SubtractOwnedRange(locks: seq<Lock>, requested: Lock) returns (retained: seq<Lock>)
    ensures retained == Subtract(locks, requested)
  {
    retained := [];
    for i := 0 to |locks|
      invariant retained + Subtract(locks[i..], requested) == Subtract(locks, requested)
    {
      var held := locks[i];
      ghost var before := retained;
      if held.inode != requested.inode || !SameOwner(held, requested) || !RangesOverlap(held, requested) {
        retained := retained + [held];
      } else {
        var heldEnd, requestedEnd := LockEnd(held), LockEnd(requested);
        if held.start < requested.start {
          retained := retained + [held.(length := requested.start - held.start)];
        }
        if requestedEnd < heldEnd {
          retained := retained + [held.(start := requestedEnd,
                                        length := if heldEnd == OFFSET_END then 0 else heldEnd - requestedEnd)];
        }
      }
      SubtractStep(locks, requested, i, before, retained);
    }
  }

  lemma SubtractStep(locks: seq<Lock>, cut: Lock, i: nat, before: seq<Lock>, after: seq<Lock>)
    requires i < |locks| && after == before + Pieces(locks[i], cut)
    ensures before + Subtract(locks[i..], cut) == after + Subtract(locks[i + 1..], cut)
  {
    assert locks[i..][1..] == locks[i + 1..];
  }

  // ------------------------------------------------------------- specification

  predicate Covers(l: Lock, b: nat) {
    l.start <= b < LockEnd(l)
  }

  /** A range of length zero reaches to the end of the offsets; no range reaches further. */
  lemma CoversExactly(l: Lock, b: nat)
    ensures Covers(l, b) <==>
              l.start <= b < 0x1_0000_0000_0000_0000 && (l.length == 0 || b < l.start + l.length)
  {
  }

  predicate Names(l: Lock, inode: nat, process: nat, client: string) {
    l.inode == inode && l.process == process && l.client == client
  }

  /** The entry of the per-byte table at (inode, process, client, b). */
  function HoldAt(locks: seq<Lock>, inode: nat, process: nat, client: string, b: nat): Option<Hold> {
    if locks == [] then None
    else if Names(locks[0], inode, process, client) && Covers(locks[0], b) then
      Some(Hold(locks[0].kind, locks[0].session))
    else HoldAt(locks[1..], inode, process, client, b)
  }

  /** No owner holds one byte of an inode through two intervals. */
  ghost predicate OwnerDisjoint(locks: seq<Lock>) {
    forall i, j, b {:trigger Covers(locks[i], b), Covers(locks[j], b)} |
      && 0 <= i < j < |locks|
      && locks[i].inode == locks[j].inode
      && SameOwner(locks[i], locks[j])
      && Covers(locks[i], b)
      :: !Covers(locks[j], b)
  }

  /** No byte is shared by two owners when either of them writes. */
  ghost predicate Exclusive(locks: seq<Lock>) {
    forall i, j, b {:trigger Covers(locks[i], b), Covers(locks[j], b)} |
      && 0 <= i < |locks| && 0 <= j < |locks|
      && locks[i].inode == locks[j].inode
      && !SameOwner(locks[i], locks[j])
      && (locks[i].kind == WriteLock || locks[j].kind == WriteLock)
      && Covers(locks[i], b)
      :: !Covers(locks[j], b)
  }

  ghost predicate Valid(locks: seq<Lock>) {
    OwnerDisjoint(locks) && Exclusive(locks)
  }

  /** Some other owner holds byte `b` in a way `requested` cannot share. */
  ghost predicate HeldAgainst(locks: seq<Lock>, requested: Lock, b: nat) {
    exists process, client ::
      && (process != requested.process || client != requested.client)
      && var h := HoldAt(locks, requested.inode, process, client, b);
         h.Some? && (h.value.kind == WriteLock || requested.kind == WriteLock)
  }

  // ----------------------------------------------------------------- the table

  /** The unclamped overlap test decides exactly whether two intervals share a byte. */
  lemma OverlapIsSharedByte(a: Lock, b: Lock)
    ensures RangesOverlap(a, b) <==> exists x :: Covers(a, x) && Covers(b, x)
  {
    var x := if a.start < b.start then b.start else a.start;
    assert RangesOverlap(a, b) ==> Covers(a, x) && Covers(b, x);
  }

  lemma {:induction false} HoldAtFound(locks: seq<Lock>, inode: nat, process: nat, client: string, b: nat)
    ensures HoldAt(locks, inode, process, client, b).Some? ==>
              exists i :: 0 <= i < |locks| && Names(locks[i], inode, process, client) && Covers(locks[i], b)
                          && HoldAt(locks, inode, process, client, b) == Some(Hold(locks[i].kind, locks[i].session))
  {
    if locks != [] && !(Names(locks[0], inode, process, client) && Covers(locks[0], b)) {
      HoldAtFound(locks[1..], inode, process, client, b);
      if HoldAt(locks[1..], inode, process, client, b).Some? {
        var i :| 0 <= i < |locks[1..]| && Names(locks[1..][i], inode, process, client) && Covers(locks[1..][i], b)
                 && HoldAt(locks[1..], inode, process, client, b)
                    == Some(Hold(locks[1..][i].kind, locks[1..][i].session));
        assert locks[i + 1] == locks[1..][i];
      }
    }
  }

  lemma {:induction false} HoldAtCovering(locks: seq<Lock>, i: nat, b: nat)
    requires OwnerDisjoint(locks) && i < |locks| && Covers(locks[i], b)
    ensures HoldAt(locks, locks[i].inode, locks[i].process, locks[i].client, b)
            == Some(Hold(locks[i].kind, locks[i].session))
  {
    if i > 0 {
      var rest := locks[1..];
      assert forall k :: 0 <= k < |rest| ==> rest[k] == locks[k + 1];
      HoldAtCovering(rest, i - 1, b);
      assert !(SameOwner(locks[0], locks[i]) && locks[0].inode == locks[i].inode && Covers(locks[0], b));
    }
  }

  lemma {:induction false} HoldAtConcat(xs: seq<Lock>, ys: seq<Lock>, inode: nat, process: nat, client: string, b: nat)
    ensures HoldAt(xs + ys, inode, process, client, b)
            == if HoldAt(xs, inode, process, client, b).Some? then HoldAt(xs, inode, process, client, b)
               else HoldAt(ys, inode, process, client, b)
  {
    if xs == [] {
      assert xs + ys == ys;
    } else {
      assert (xs + ys)[1..] == xs[1..] + ys;
      HoldAtConcat(xs[1..], ys, inode, process, client, b);
    }
  }

  lemma PiecesTable(held: Lock, cut: Lock, inode: nat, process: nat, client: string, b: nat)
    ensures HoldAt(Pieces(held, cut), inode, process, client, b)
            == if Names(cut, inode, process, client) && Covers(cut, b) then None
               else HoldAt([held], inode, process, client, b)
  {
    OverlapIsSharedByte(held, cut);
    var ps := Pieces(held, cut);
    if |ps| == 2 {
      assert ps == [ps[0]] + [ps[1]];
      HoldAtConcat([ps[0]], [ps[1]], inode, process, client, b);
    }
  }

  /** Subtracting a range clears exactly its owner's bytes in that range. */
  lemma {:induction false} SubtractClearsExactlyTheRange(locks: seq<Lock>, cut: Lock,
                                                         inode: nat, process: nat, client: string, b: nat)
    ensures HoldAt(Subtract(locks, cut), inode, process, client, b)
            == if Names(cut, inode, process, client) && Covers(cut, b) then None
               else HoldAt(locks, inode, process, client, b)
  {
    if locks != [] {
      SubtractClearsExactlyTheRange(locks[1..], cut, inode, process, client, b);
      PiecesTable(locks[0], cut, inode, process, client, b);
      HoldAtConcat(Pieces(locks[0], cut), Subtract(locks[1..], cut), inode, process, client, b);
      HoldAtConcat([locks[0]], locks[1..], inode, process, client, b);
      assert locks == [locks[0]] + locks[1..];
    }
  }

  /** A request is refused exactly when another owner incompatibly holds one of its bytes. */
  lemma BlockedExactlyWhenHeldAgainst(locks: seq<Lock>, requested: Lock)
    requires OwnerDisjoint(locks)
    ensures Blocked(locks, requested) <==> exists b :: Covers(requested, b) && HeldAgainst(locks, requested, b)
  {
    if Blocked(locks, requested) {
      var i :| 0 <= i < |locks| && Conflicts(locks[i], requested);
      OverlapIsSharedByte(locks[i], requested);
      var b :| Covers(locks[i], b) && Covers(requested, b);
      HoldAtCovering(locks, i, b);
      assert HeldAgainst(locks, requested, b);
    }
    if b :| Covers(requested, b) && HeldAgainst(locks, requested, b) {
      var process, client :| (process != requested.process || client != requested.client)
        && HoldAt(locks, requested.inode, process, client, b).Some?
        && (HoldAt(locks, requested.inode, process, client, b).value.kind == WriteLock || requested.kind == WriteLock);
      HoldAtFound(locks, requested.inode, process, client, b);
      var i :| 0 <= i < |locks| && Names(locks[i], requested.inode, process, client) && Covers(locks[i], b)
               && HoldAt(locks, requested.inode, process, client, b) == Some(Hold(locks[i].kind, locks[i].session));
      OverlapIsSharedByte(locks[i], requested);
      assert Conflicts(locks[i], requested);
    }
  }

  /** A granted lock overwrites exactly its own range of its owner's row. */
  lemma AcquireWritesExactlyTheRange(locks: seq<Lock>, requested: Lock,
                                     inode: nat, process: nat, client: string, b: nat)
    requires Acquire(locks, requested).Some?
    ensures HoldAt(Acquire(locks, requested).value, inode, process, client, b)
            == if Names(requested, inode, process, client) && Covers(requested, b)
               then Some(Hold(requested.kind, requested.session))
               else HoldAt(locks, inode, process, client, b)
  {
    SubtractClearsExactlyTheRange(locks, requested, inode, process, client, b);
    HoldAtConcat(Subtract(locks, requested), [requested], inode, process, client, b);
  }

  // ---------------------------------------------------------------- invariants

  /** Every interval left by a subtraction lies inside one of the originals, and outside the cut. */
  ghost predicate Residue(locks: seq<Lock>, cut: Lock, l: Lock, i: int) {
    && 0 <= i < |locks|
    && l == locks[i].(start := l.start, length := l.length)
    && (forall b :: Covers(l, b) ==> Covers(locks[i], b))
    && (l.inode == cut.inode && SameOwner(l, cut) ==> forall b :: Covers(l, b) ==> !Covers(cut, b))
  }

  lemma PiecesResidue(held: Lock, cut: Lock, k: nat)
    requires k < |Pieces(held, cut)|
    ensures Residue([held], cut, Pieces(held, cut)[k], 0)
  {
    OverlapIsSharedByte(held, cut);
  }

  lemma {:induction false} SubtractResidue(locks: seq<Lock>, cut: Lock, k: nat) returns (i: nat)
    requires k < |Subtract(locks, cut)|
    ensures Residue(locks, cut, Subtract(locks, cut)[k], i)
  {
    var ps := Pieces(locks[0], cut);
    if k < |ps| {
      PiecesResidue(locks[0], cut, k);
      i := 0;
    } else {
      var j := SubtractResidue(locks[1..], cut, k - |ps|);
      i := j + 1;
    }
  }

  lemma PiecesDisjoint(held: Lock, cut: Lock)
    ensures OwnerDisjoint(Pieces(held, cut))
  {
  }

  lemma {:induction false} SubtractKeepsDisjoint(locks: seq<Lock>, cut: Lock)
    requires OwnerDisjoint(locks)
    ensures OwnerDisjoint(Subtract(locks, cut))
  {
    if locks != [] {
      var ps, tail := Pieces(locks[0], cut), Subtract(locks[1..], cut);
      assert forall k :: 0 <= k < |locks[1..]| ==> locks[1..][k] == locks[k + 1];
      SubtractKeepsDisjoint(locks[1..], cut);
      PiecesDisjoint(locks[0], cut);
      forall i, j, b | 0 <= i < |ps| && 0 <= j < |tail| && ps[i].inode == tail[j].inode && SameOwner(ps[i], tail[j])
                       && Covers(ps[i], b)
        ensures !Covers(tail[j], b)
      {
        PiecesResidue(locks[0], cut, i);
        var o := SubtractResidue(locks[1..], cut, j);
        assert Covers(locks[0], b);
        assert !Covers(locks[o + 1], b);
      }
      forall i, j, b | 0 <= i < j < |ps + tail| && (ps + tail)[i].inode == (ps + tail)[j].inode
                       && SameOwner((ps + tail)[i], (ps + tail)[j]) && Covers((ps + tail)[i], b)
        ensures !Covers((ps + tail)[j], b)
      {
        if i >= |ps| {
          assert Covers(tail[i - |ps|], b);
          assert !Covers(tail[j - |ps|], b);
        } else if j < |ps| {
          assert Covers(ps[i], b) && !Covers(ps[j], b);
        } else {
          assert Covers(ps[i], b) && !Covers(tail[j - |ps|], b);
        }
      }
    }
  }

  lemma SubtractKeepsExclusive(locks: seq<Lock>, cut: Lock)
    requires Exclusive(locks)
    ensures Exclusive(Subtract(locks, cut))
  {
    var rs := Subtract(locks, cut);
    forall i, j, b | 0 <= i < |rs| && 0 <= j < |rs| && rs[i].inode == rs[j].inode && !SameOwner(rs[i], rs[j])
                     && (rs[i].kind == WriteLock || rs[j].kind == WriteLock) && Covers(rs[i], b)
      ensures !Covers(rs[j], b)
    {
      var x := SubtractResidue(locks, cut, i);
      var y := SubtractResidue(locks, cut, j);
      assert Covers(locks[x], b) && !Covers(locks[y], b);
    }
  }

  lemma UnlockKeepsValid(locks: seq<Lock>, cut: Lock)
    requires Valid(locks)
    ensures Valid(Subtract(locks, cut))
  {
    SubtractKeepsDisjoint(locks, cut);
    SubtractKeepsExclusive(locks, cut);
  }

  /** A granted lock keeps owner ranges disjoint and writers exclusive. */
  lemma AcquireKeepsValid(locks: seq<Lock>, requested: Lock)
    requires Valid(locks) && Acquire(locks, requested).Some?
    ensures Valid(Acquire(locks, requested).value)
  {
    UnlockKeepsValid(locks, requested);
    var rs := Subtract(locks, requested);
    forall k, b | 0 <= k < |rs| && rs[k].inode == requested.inode && Covers(rs[k], b)
                  && (SameOwner(rs[k], requested) || rs[k].kind == WriteLock || requested.kind == WriteLock)
      ensures !Covers(requested, b)
    {
      var i := SubtractResidue(locks, requested, k);
      OverlapIsSharedByte(locks[i], requested);
    }
  }

  // Dropping whole intervals is a filter; one argument serves both filters.
  lemma ConsKeepsValid(locks: seq<Lock>, rest: seq<Lock>)
    requires Valid(locks) && locks != [] && Valid(rest)
    requires forall l :: l in rest ==> l in locks[1..]
    ensures Valid([locks[0]] + rest)
  {
    forall k, b | 0 <= k < |rest| && rest[k].inode == locks[0].inode && Covers(locks[0], b)
                  && (SameOwner(rest[k], locks[0]) || rest[k].kind == WriteLock || locks[0].kind == WriteLock)
      ensures !Covers(rest[k], b)
    {
      assert rest[k] in locks[1..];
      var j :| 1 <= j < |locks| && locks[j] == rest[k];
      assert Covers(locks[0], b) && !Covers(locks[j], b);
    }
  }

  lemma TailIsValid(locks: seq<Lock>)
    requires Valid(locks) && locks != []
    ensures Valid(locks[1..])
  {
    assert forall k :: 0 <= k < |locks[1..]| ==> locks[1..][k] == locks[k + 1];
  }

  lemma {:induction false} ReleaseSessionKeepsValid(locks: seq<Lock>, session: nat)
    requires Valid(locks)
    ensures Valid(WithoutSession(locks, session))
    ensures forall l :: l in WithoutSession(locks, session) <==> l in locks && l.session != session
  {
    if locks != [] {
      TailIsValid(locks);
      ReleaseSessionKeepsValid(locks[1..], session);
      ConsKeepsValid(locks, WithoutSession(locks[1..], session));
    }
  }

  lemma {:induction false} DropInodeKeepsValid(locks: seq<Lock>, inode: nat)
    requires Valid(locks)
    ensures Valid(WithoutInode(locks, inode))
    ensures forall l :: l in WithoutInode(locks, inode) <==> l in locks && l.inode != inode
  {
    if locks != [] {
      TailIsValid(locks);
      DropInodeKeepsValid(locks[1..], inode);
      ConsKeepsValid(locks, WithoutInode(locks[1..], inode));
    }
  }

  /** Session teardown clears exactly the holds that session took, whoever owns them. */
  lemma {:induction false} ReleaseSessionClearsExactlyItsHolds(locks: seq<Lock>, session: nat,
                                                               inode: nat, process: nat, client: string, b: nat)
    requires Valid(locks)
    ensures var before := HoldAt(locks, inode, process, client, b);
            HoldAt(WithoutSession(locks, session), inode, process, client, b)
            == if before.Some? && before.value.session == session then None else before
  {
    if locks != [] {
      var tail := locks[1..];
      TailIsValid(locks);
      ReleaseSessionClearsExactlyItsHolds(tail, session, inode, process, client, b);
      assert locks[0].session == session ==> WithoutSession(locks, session) == WithoutSession(tail, session);
      HoldAtConcat([locks[0]], WithoutSession(tail, session), inode, process, client, b);
      if Names(locks[0], inode, process, client) && Covers(locks[0], b) {
        HoldAtFound(tail, inode, process, client, b);
      }
    }
  }

  /** Two different owners can hold the same byte only when both merely read it. */
  lemma SharedBytesAreOnlyRead(locks: seq<Lock>, inode: nat, p: nat, c: string, q: nat, d: string, b: nat)
    requires Valid(locks) && (p != q || c != d)
    requires HoldAt(locks, inode, p, c, b).Some? && HoldAt(locks, inode, q, d, b).Some?
    ensures HoldAt(locks, inode, p, c, b).value.kind == ReadLock
    ensures HoldAt(locks, inode, q, d, b).value.kind == ReadLock
  {
    HoldAtFound(locks, inode, p, c, b);
    HoldAtFound(locks, inode, q, d, b);
  }
}
