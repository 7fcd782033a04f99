/**
 Descriptor chains of the split virtqueue, section 2.7 of VIRTIO 1.2, as
 src/virtio.rs walks them and copies through them.
 */
module Descriptors {
  import opened Arithmetic
  import opened Wrappers

  const U32_LIMIT: nat := 0x1_0000_0000
  const U64_LIMIT: nat := 0x1_0000_0000_0000_0000

  datatype Desc = Desc(address: nat, len: nat, indirect: bool, writable: bool, hasNext: bool, next: nat)

  datatype QueueError =
    | InvalidDescriptor | DescriptorLoop | UnsupportedIndirect | DirectionChange
    | TooShort | Overflow | MemoryError

  datatype Segment = Segment(address: nat, len: nat, writable: bool)

  datatype Chain = Chain(head: nat, readable: nat, writable: nat, segments: seq<Segment>)

  /** The descriptor table in guest memory; an unreadable entry is None. */
  type Table = seq<Option<Desc>>

  /** What the walk has gathered so far. */
  datatype Partial = Partial(readable: nat, writable: nat, writing: bool, segments: seq<Segment>)

  /** The checks and sums for one descriptor; `ram` says which ranges are guest RAM. */
  function Visit(ram: (nat, nat, bool) -> bool, p: Partial, d: Desc): Result<Partial, QueueError> {
    if d.indirect then Err(UnsupportedIndirect)
    else if !d.writable && p.writing then Err(DirectionChange)
    else if (if d.writable then p.writable else p.readable) + d.len >= U32_LIMIT then Err(Overflow)
    else if d.len != 0 && d.address + d.len >= U64_LIMIT then Err(Overflow)
    else if d.len != 0 && !ram(d.address, d.len, d.writable) then Err(MemoryError)
    else
      Ok(Partial(if d.writable then p.readable else p.readable + d.len,
                 if d.writable then p.writable + d.len else p.writable,
                 p.writing || d.writable, p.segments + [Segment(d.address, d.len, d.writable)]))
  }

  function WalkChain(table: Table, ram: (nat, nat, bool) -> bool, head: nat, index: nat, steps: nat,
                     p: Partial): Result<Chain, QueueError>
    decreases steps
  {
    if steps == 0 then Err(DescriptorLoop)
    else if index >= |table| then Err(InvalidDescriptor)
    else if table[index].None? then Err(MemoryError)
    else
      match Visit(ram, p, table[index].value)
      case Err(e) => Err(e)
      case Ok(next) =>
        if !table[index].value.hasNext then Ok(Chain(head, next.readable, next.writable, next.segments))
        else WalkChain(table, ram, head, table[index].value.next, steps - 1, next)
  }

  function ReadChain(table: Table, ram: (nat, nat, bool) -> bool, head: nat): Result<Chain, QueueError> {
    WalkChain(table, ram, head, head, |table|, Partial(0, 0, false, []))
  }

  method WalkDescriptors(table: Table, ram: (nat, nat, bool) -> bool, head: nat) returns (r: Result<Chain, QueueError>)
    ensures r == ReadChain(table, ram, head)
  {
    var p, index: nat := Partial(0, 0, false, []), head;
    for i := 0 to |table|
      invariant ReadChain(table, ram, head) == WalkChain(table, ram, head, index, |table| - i, p)
    {
      if index >= |table| { return Err(InvalidDescriptor); }
      if table[index].None? { return Err(MemoryError); }
      var d := table[index].value;
      var visited := Visit(ram, p, d);
      if visited.Err? { return Err(visited.error); }
      p := visited.value;
      if !d.hasNext { return Ok(Chain(head, p.readable, p.writable, p.segments)); }
      index := d.next;
    }
    r := Err(DescriptorLoop);
  }

  // ----------------------------------------------------------------------- the path

  predicate Readable(table: Table, index: nat) {
    index < |table| && table[index].Some?
  }

  /** The index after k links. */
  function Follow(table: Table, index: nat, k: nat): nat
    decreases k
  {
    if k == 0 || !Readable(table, index) then index else Follow(table, table[index].value.next, k - 1)
  }

  /** The path from index has exactly k links and then ends. */
  ghost predicate Ends(table: Table, index: nat, k: nat) {
    && (forall i: nat :: i < k ==>
          Readable(table, Follow(table, index, i)) && table[Follow(table, index, i)].value.hasNext)
    && Readable(table, Follow(table, index, k)) && !table[Follow(table, index, k)].value.hasNext
  }

  lemma {:induction false} FollowStep(table: Table, index: nat, k: nat)
    requires Readable(table, Follow(table, index, k))
    ensures Follow(table, index, k + 1) == table[Follow(table, index, k)].value.next
    decreases k
  {
    if k > 0 && Readable(table, index) { FollowStep(table, table[index].value.next, k - 1); }
  }

  /** Two equal positions stay equal. */
  lemma {:induction false} FollowAgree(table: Table, index: nat, i: nat, j: nat, d: nat, k: nat)
    requires Ends(table, index, k) && i < j && j + d <= k && Follow(table, index, i) == Follow(table, index, j)
    ensures Follow(table, index, i + d) == Follow(table, index, j + d)
    decreases d
  {
    if d > 0 {
      FollowAgree(table, index, i, j, d - 1, k);
      FollowStep(table, index, i + d - 1);
      FollowStep(table, index, j + d - 1);
    }
  }

  /** A path that ends never visits an index twice. */
  lemma EndingPathIsSimple(table: Table, index: nat, k: nat, i: nat, j: nat)
    requires Ends(table, index, k) && i < j <= k
    ensures Follow(table, index, i) != Follow(table, index, j)
  {
    if Follow(table, index, i) == Follow(table, index, j) { FollowAgree(table, index, i, j, k - j, k); }
  }

  ghost function Visited(table: Table, index: nat, k: nat): set<nat>
  {
    if k == 0 then {Follow(table, index, 0)} else Visited(table, index, k - 1) + {Follow(table, index, k)}
  }

  /** Which step visited x. */
  lemma {:induction false} VisitedStep(table: Table, index: nat, k: nat, x: nat) returns (i: nat)
    requires x in Visited(table, index, k)
    ensures i <= k && x == Follow(table, index, i)
    decreases k
  {
    if k == 0 || x == Follow(table, index, k) {
      i := k;
    } else {
      i := VisitedStep(table, index, k - 1, x);
    }
  }

  lemma {:induction false} VisitedGrows(table: Table, index: nat, k: nat, n: nat)
    requires Ends(table, index, n) && k <= n
    ensures |Visited(table, index, k)| == k + 1
    decreases k
  {
    if k > 0 {
      VisitedGrows(table, index, k - 1, n);
      if Follow(table, index, k) in Visited(table, index, k - 1) {
        var i := VisitedStep(table, index, k - 1, Follow(table, index, k));
        EndingPathIsSimple(table, index, n, i, k);
      }
    }
  }

  lemma VisitedInRange(table: Table, index: nat, k: nat, x: nat)
    requires Ends(table, index, k) && x in Visited(table, index, k)
    ensures x < |table|
  {
    var i := VisitedStep(table, index, k, x);
    assert Readable(table, Follow(table, index, i));
  }

  /** Pigeonhole: an ending path is shorter than the table. */
  lemma EndingPathIsShort(table: Table, index: nat, k: nat)
    requires Ends(table, index, k)
    ensures k < |table|
  {
    VisitedGrows(table, index, k, k);
    forall x | x in Visited(table, index, k) ensures x < |table| { VisitedInRange(table, index, k, x); }
    BelowIsSmall(Visited(table, index, k), |table|);
  }

  lemma EndsShift(table: Table, index: nat, k: nat)
    requires Readable(table, index) && table[index].value.hasNext
    ensures k > 0 && Ends(table, index, k) ==> Ends(table, table[index].value.next, k - 1)
    ensures Ends(table, table[index].value.next, k) ==> Ends(table, index, k + 1)
  {
    var next := table[index].value.next;
    assert forall i: nat :: Follow(table, index, i + 1) == Follow(table, next, i);
    if Ends(table, next, k) {
      forall i: nat | i < k + 1
        ensures Readable(table, Follow(table, index, i)) && table[Follow(table, index, i)].value.hasNext {
        if i > 0 { assert Follow(table, index, i) == Follow(table, next, i - 1); }
      }
    }
    if k > 0 && Ends(table, index, k) {
      forall i: nat | i < k - 1
        ensures Readable(table, Follow(table, next, i)) && table[Follow(table, next, i)].value.hasNext {
        assert Follow(table, next, i) == Follow(table, index, i + 1);
      }
      assert Follow(table, next, k - 1) == Follow(table, index, k);
    }
  }

  /** A walk that has steps left for the rest of an ending path does not call it a loop. */
  lemma {:induction false} EndingIsNoLoop(table: Table, ram: (nat, nat, bool) -> bool, head: nat, index: nat,
                                          steps: nat, p: Partial, k: nat)
    requires Ends(table, index, k) && k < steps
    ensures WalkChain(table, ram, head, index, steps, p) != Err(DescriptorLoop)
    decreases steps
  {
    assert Readable(table, Follow(table, index, k));
    if Readable(table, index) && table[index].value.hasNext && Visit(ram, p, table[index].value).Ok? {
      if k > 0 {
        EndsShift(table, index, k);
        EndingIsNoLoop(table, ram, head, table[index].value.next, steps - 1,
                       Visit(ram, p, table[index].value).value, k - 1);
      }
    }
  }

  /** No chain that ends is rejected as a loop. */
  lemma NeverAFalseLoop(table: Table, ram: (nat, nat, bool) -> bool, head: nat, k: nat)
    requires Ends(table, head, k)
    ensures ReadChain(table, ram, head) != Err(DescriptorLoop)
  {
    EndingPathIsShort(table, head, k);
    EndingIsNoLoop(table, ram, head, head, |table|, Partial(0, 0, false, []), k);
  }

  ghost predicate IsSegmentAt(table: Table, at: nat, s: Segment) {
    Readable(table, at) && var d := table[at].value; s == Segment(d.address, d.len, d.writable)
  }

  /** Each gathered segment is the descriptor at its place on the path. */
  ghost predicate Follows(table: Table, index: nat, segments: seq<Segment>, from: nat) {
    forall i {:trigger segments[i]} :: from <= i < |segments| ==>
      IsSegmentAt(table, Follow(table, index, i - from), segments[i])
  }

  lemma FollowsFront(table: Table, index: nat, segments: seq<Segment>, n: nat)
    requires n < |segments| && IsSegmentAt(table, index, segments[n])
    requires Follows(table, table[index].value.next, segments, n + 1)
    ensures Follows(table, index, segments, n)
  {
    forall i | n <= i < |segments| ensures IsSegmentAt(table, Follow(table, index, i - n), segments[i]) {
      if i > n { assert Follow(table, index, i - n) == Follow(table, table[index].value.next, i - (n + 1)); }
    }
  }

  lemma PrefixOfPrefix(s: seq<Segment>, p: seq<Segment>, last: Segment)
    requires |s| > |p| && s[..|p| + 1] == p + [last]
    ensures s[..|p|] == p && s[|p|] == last
  {
    assert s[..|p| + 1][..|p|] == s[..|p|];
    assert s[..|p| + 1][|p|] == s[|p|];
  }

  lemma {:induction false} AcceptedEnds(table: Table, ram: (nat, nat, bool) -> bool, head: nat, index: nat,
                                        steps: nat, p: Partial)
    requires WalkChain(table, ram, head, index, steps, p).Ok?
    ensures var c := WalkChain(table, ram, head, index, steps, p).value;
            && |c.segments| > |p.segments| && c.segments[..|p.segments|] == p.segments
            && Ends(table, index, |c.segments| - |p.segments| - 1)
            && Follows(table, index, c.segments, |p.segments|)
    decreases steps
  {
    var d := table[index].value;
    var q := Visit(ram, p, d).value;
    if d.hasNext {
      AcceptedEnds(table, ram, head, d.next, steps - 1, q);
      var c := WalkChain(table, ram, head, index, steps, p).value;
      PrefixOfPrefix(c.segments, p.segments, Segment(d.address, d.len, d.writable));
      EndsShift(table, index, |c.segments| - |q.segments| - 1);
      FollowsFront(table, index, c.segments, |p.segments|);
    }
  }

  /** Every segment of an accepted chain is an in-range descriptor, the one the links lead to. */
  lemma AcceptedIsInRange(table: Table, ram: (nat, nat, bool) -> bool, head: nat, i: nat)
    requires ReadChain(table, ram, head).Ok? && i < |ReadChain(table, ram, head).value.segments|
    ensures var c := ReadChain(table, ram, head).value;
            && |c.segments| <= |table| && Ends(table, head, |c.segments| - 1)
            && Follow(table, head, i) < |table| && Readable(table, Follow(table, head, i))
            && var d := table[Follow(table, head, i)].value; c.segments[i] == Segment(d.address, d.len, d.writable)
  {
    AcceptedEnds(table, ram, head, head, |table|, Partial(0, 0, false, []));
    EndingPathIsShort(table, head, |ReadChain(table, ram, head).value.segments| - 1);
    assert Readable(table, Follow(table, head, i));
  }

  /** No descriptor is visited twice. */
  lemma AcceptedIsSimple(table: Table, ram: (nat, nat, bool) -> bool, head: nat, i: nat, j: nat)
    requires ReadChain(table, ram, head).Ok?
    requires i < |ReadChain(table, ram, head).value.segments| && j < |ReadChain(table, ram, head).value.segments|
    ensures Follow(table, head, i) == Follow(table, head, j) <==> i == j
  {
    AcceptedIsInRange(table, ram, head, i);
    var n := |ReadChain(table, ram, head).value.segments|;
    if i < j { EndingPathIsSimple(table, head, n - 1, i, j); }
    if j < i { EndingPathIsSimple(table, head, n - 1, j, i); }
  }

  // ---------------------------------------------------------------------- acceptance

  /** The descriptors of a path with k links. */
  ghost function Path(table: Table, index: nat, k: nat): (r: seq<Desc>)
    requires Ends(table, index, k)
    ensures |r| == k + 1
    ensures forall i: nat {:trigger r[i]} :: i <= k ==>
              Readable(table, Follow(table, index, i)) && r[i] == table[Follow(table, index, i)].value
  {
    seq(k + 1, i requires 0 <= i <= k => (assert Readable(table, Follow(table, index, i));
                                          table[Follow(table, index, i)].value))
  }

  /** The bytes of one direction. */
  function Total(descs: seq<Desc>, writable: bool): nat {
    if descs == [] then 0
    else
      var d := descs[|descs| - 1];
      Total(descs[..|descs| - 1], writable) + if d.writable == writable then d.len else 0
  }

  function Segments(descs: seq<Desc>): seq<Segment> {
    seq(|descs|, i requires 0 <= i < |descs| => Segment(descs[i].address, descs[i].len, descs[i].writable))
  }

  /** A direct descriptor whose bytes lie below 2^64 and in guest RAM; an empty one lies anywhere. */
  predicate Usable(ram: (nat, nat, bool) -> bool, d: Desc) {
    !d.indirect && (d.len != 0 ==> d.address + d.len < U64_LIMIT && ram(d.address, d.len, d.writable))
  }

  /** Usable descriptors, readable ones before writable ones, and less than 2^32 bytes in each direction. */
  ghost predicate Acceptable(ram: (nat, nat, bool) -> bool, descs: seq<Desc>) {
    && (forall i :: 0 <= i < |descs| ==> Usable(ram, descs[i]))
    && (forall i, j :: 0 <= i < j < |descs| && descs[i].writable ==> descs[j].writable)
    && Total(descs, false) < U32_LIMIT && Total(descs, true) < U32_LIMIT
  }

  /** Acceptability, one descriptor after the other. */
  predicate Accepts(ram: (nat, nat, bool) -> bool, descs: seq<Desc>) {
    descs != [] ==>
      var front, d := descs[..|descs| - 1], descs[|descs| - 1];
      && Accepts(ram, front) && Usable(ram, d) && (d.writable || !AnyWritable(front))
      && Total(descs, d.writable) < U32_LIMIT
  }

  predicate AnyWritable(descs: seq<Desc>) {
    descs != [] && (descs[|descs| - 1].writable || AnyWritable(descs[..|descs| - 1]))
  }

  lemma {:induction false} AnyMeans(descs: seq<Desc>)
    ensures AnyWritable(descs) <==> exists i :: 0 <= i < |descs| && descs[i].writable
    decreases |descs|
  {
    if descs != [] {
      AnyMeans(descs[..|descs| - 1]);
    }
  }

  lemma {:induction false} AcceptsExactly(ram: (nat, nat, bool) -> bool, descs: seq<Desc>)
    ensures Accepts(ram, descs) <==> Acceptable(ram, descs)
    decreases |descs|
  {
    if descs != [] {
      AcceptsExactly(ram, descs[..|descs| - 1]);
      AnyMeans(descs[..|descs| - 1]);
    }
  }

  /** What the walk has gathered after these descriptors. */
  ghost predicate Gathered(p: Partial, descs: seq<Desc>) {
    && p.readable == Total(descs, false) && p.writable == Total(descs, true)
    && p.writing == AnyWritable(descs) && p.segments == Segments(descs)
  }

  lemma {:induction false} VisitExactly(ram: (nat, nat, bool) -> bool, p: Partial, descs: seq<Desc>, d: Desc)
    requires Gathered(p, descs) && Accepts(ram, descs)
    ensures Visit(ram, p, d).Ok? <==> Accepts(ram, descs + [d])
    ensures Visit(ram, p, d).Ok? ==> Gathered(Visit(ram, p, d).value, descs + [d])
  {
    var more := descs + [d];
    assert more[..|more| - 1] == descs && more[|more| - 1] == d;
    assert Segments(more) == Segments(descs) + [Segment(d.address, d.len, d.writable)];
  }

  lemma {:induction false} AcceptsFront(ram: (nat, nat, bool) -> bool, descs: seq<Desc>, n: nat)
    requires Accepts(ram, descs) && n <= |descs|
    ensures Accepts(ram, descs[..n])
    decreases |descs|
  {
    if n < |descs| {
      var front := descs[..|descs| - 1];
      AcceptsFront(ram, front, n);
      assert front[..n] == descs[..n];
    } else {
      assert descs[..n] == descs;
    }
  }

  lemma PathTail(table: Table, index: nat, k: nat)
    requires k > 0 && Ends(table, index, k) && Readable(table, index) && table[index].value.hasNext
    ensures Ends(table, table[index].value.next, k - 1)
    ensures Path(table, index, k) == [table[index].value] + Path(table, table[index].value.next, k - 1)
  {
    EndsShift(table, index, k);
    var next := table[index].value.next;
    var a, b := Path(table, index, k), Path(table, next, k - 1);
    forall i | 0 <= i <= k ensures a[i] == ([table[index].value] + b)[i] {
      if i > 0 { assert Follow(table, index, i) == Follow(table, next, i - 1); }
    }
  }

  /** The result is that of walking exactly these descriptors. */
  ghost predicate Reads(ram: (nat, nat, bool) -> bool, head: nat, all: seq<Desc>, r: Result<Chain, QueueError>) {
    && (r.Ok? <==> Accepts(ram, all))
    && (r.Ok? ==> r.value == Chain(head, Total(all, false), Total(all, true), Segments(all)))
  }

  /** Visiting the descriptors of a list one after the other. */
  function VisitAll(ram: (nat, nat, bool) -> bool, p: Partial, path: seq<Desc>): Result<Partial, QueueError>
    decreases |path|
  {
    if path == [] then Ok(p)
    else
      var v := Visit(ram, p, path[0]);
      if v.Err? then v else VisitAll(ram, v.value, path[1..])
  }

  function ChainOf(head: nat, r: Result<Partial, QueueError>): Result<Chain, QueueError> {
    if r.Err? then Err(r.error) else Ok(Chain(head, r.value.readable, r.value.writable, r.value.segments))
  }

  /** The walk visits the descriptors of its path. */
  lemma {:induction false} WalkVisits(table: Table, ram: (nat, nat, bool) -> bool, head: nat, index: nat, steps: nat,
                                      p: Partial, k: nat)
    requires Ends(table, index, k) && k < steps
    ensures WalkChain(table, ram, head, index, steps, p) == ChainOf(head, VisitAll(ram, p, Path(table, index, k)))
    decreases steps
  {
    assert Readable(table, Follow(table, index, 0));
    var d, path := table[index].value, Path(table, index, k);
    assert path[0] == d;
    if k == 0 {
      assert path[1..] == [];
    } else {
      PathTail(table, index, k);
      var v := Visit(ram, p, d);
      if v.Ok? { WalkVisits(table, ram, head, d.next, steps - 1, v.value, k - 1); }
    }
  }

  /** Visiting succeeds exactly on acceptable descriptors, and gathers all of them. */
  lemma {:induction false} VisitsExactly(ram: (nat, nat, bool) -> bool, head: nat, p: Partial, descs: seq<Desc>,
                                         path: seq<Desc>)
    requires Gathered(p, descs) && Accepts(ram, descs)
    ensures Reads(ram, head, descs + path, ChainOf(head, VisitAll(ram, p, path)))
    decreases |path|
  {
    if path == [] {
      assert descs + path == descs;
    } else {
      var d := path[0];
      VisitExactly(ram, p, descs, d);
      var v := Visit(ram, p, d);
      if v.Err? {
        RefusedAtOnce(ram, head, descs, d, path, v.error);
      } else {
        VisitsExactly(ram, head, v.value, descs + [d], path[1..]);
        assert descs + [d] + path[1..] == descs + path;
      }
    }
  }

  lemma RefusedAtOnce(ram: (nat, nat, bool) -> bool, head: nat, descs: seq<Desc>, d: Desc, path: seq<Desc>,
                      e: QueueError)
    requires path != [] && path[0] == d && !Accepts(ram, descs + [d])
    ensures Reads(ram, head, descs + path, Err(e))
  {
    assert (descs + path)[..|descs| + 1] == descs + [d];
    if Accepts(ram, descs + path) { AcceptsFront(ram, descs + path, |descs| + 1); }
  }

  /** A chain is read if and only if its links end and its descriptors are acceptable, and then whole and in order. */
  lemma ReadChainExactly(table: Table, ram: (nat, nat, bool) -> bool, head: nat)
    ensures ReadChain(table, ram, head).Ok?
            <==> exists k :: Ends(table, head, k) && Acceptable(ram, Path(table, head, k))
    ensures forall k :: Ends(table, head, k) && Acceptable(ram, Path(table, head, k)) ==>
              var all := Path(table, head, k);
              ReadChain(table, ram, head) == Ok(Chain(head, Total(all, false), Total(all, true), Segments(all)))
  {
    forall k | Ends(table, head, k)
      ensures ReadAlong(table, ram, head, k)
      ensures Accepts(ram, Path(table, head, k)) <==> Acceptable(ram, Path(table, head, k)) {
      ReadAlongPath(table, ram, head, k);
      AcceptsExactly(ram, Path(table, head, k));
    }
    if ReadChain(table, ram, head).Ok? {
      AcceptedEnds(table, ram, head, head, |table|, Partial(0, 0, false, []));
      var k := |ReadChain(table, ram, head).value.segments| - 1;
      assert Ends(table, head, k) && ReadAlong(table, ram, head, k);
    }
  }

  ghost predicate ReadAlong(table: Table, ram: (nat, nat, bool) -> bool, head: nat, k: nat)
    requires Ends(table, head, k)
  {
    Reads(ram, head, Path(table, head, k), ReadChain(table, ram, head))
  }

  lemma ReadAlongPath(table: Table, ram: (nat, nat, bool) -> bool, head: nat, k: nat)
    requires Ends(table, head, k)
    ensures ReadAlong(table, ram, head, k)
  {
    EndingPathIsShort(table, head, k);
    WalkVisits(table, ram, head, head, |table|, Partial(0, 0, false, []), k);
    VisitsExactly(ram, head, Partial(0, 0, false, []), [], Path(table, head, k));
    assert [] + Path(table, head, k) == Path(table, head, k);
  }

  // ------------------------------------------------------------------------- copying

  type Bytes = seq<int>

  /** The bytes of one direction's segments, one after the other. */
  ghost function Gather(memory: Bytes, segments: seq<Segment>, writable: bool): Bytes
    requires InMemory(memory, segments)
    decreases |segments|
  {
    if segments == [] then []
    else
      var s := segments[|segments| - 1];
      Gather(memory, segments[..|segments| - 1], writable)
      + if s.writable == writable then memory[s.address..s.address + s.len] else []
  }

  ghost predicate InMemory(memory: Bytes, segments: seq<Segment>) {
    forall i :: 0 <= i < |segments| ==> segments[i].address + segments[i].len <= |memory|
  }

  function Length(segments: seq<Segment>, writable: bool): nat
    decreases |segments|
  {
    if segments == [] then 0
    else
      var s := segments[|segments| - 1];
      Length(segments[..|segments| - 1], writable) + if s.writable == writable then s.len else 0
  }

  lemma {:induction false} GatherLength(memory: Bytes, segments: seq<Segment>, writable: bool)
    requires InMemory(memory, segments)
    ensures |Gather(memory, segments, writable)| == Length(segments, writable)
    decreases |segments|
  {
    if segments != [] { GatherLength(memory, segments[..|segments| - 1], writable); }
  }

  /** The sums of an accepted chain are the lengths of its two directions. */
  lemma {:induction false} SumsAreLengths(table: Table, ram: (nat, nat, bool) -> bool, head: nat, index: nat,
                                          steps: nat, p: Partial)
    requires WalkChain(table, ram, head, index, steps, p).Ok?
    requires p.readable == Length(p.segments, false) && p.writable == Length(p.segments, true)
    ensures var c := WalkChain(table, ram, head, index, steps, p).value;
            c.readable == Length(c.segments, false) && c.writable == Length(c.segments, true)
    decreases steps
  {
    var d := table[index].value;
    var q := Visit(ram, p, d).value;
    VisitKeepsSums(ram, p, d);
    if d.hasNext { SumsAreLengths(table, ram, head, d.next, steps - 1, q); }
  }

  lemma VisitKeepsSums(ram: (nat, nat, bool) -> bool, p: Partial, d: Desc)
    requires Visit(ram, p, d).Ok? && p.readable == Length(p.segments, false) && p.writable == Length(p.segments, true)
    ensures var q := Visit(ram, p, d).value;
            q.readable == Length(q.segments, false) && q.writable == Length(q.segments, true)
  {
    LengthAppend(p.segments, Segment(d.address, d.len, d.writable), false);
    LengthAppend(p.segments, Segment(d.address, d.len, d.writable), true);
  }

  lemma LengthAppend(segments: seq<Segment>, s: Segment, writable: bool)
    ensures Length(segments + [s], writable) == Length(segments, writable) + if s.writable == writable then s.len else 0
  {
    assert (segments + [s])[..|segments|] == segments;
  }

  /** A prefix of the segments gathers a prefix of the bytes. */
  lemma {:induction false} GatherPrefix(memory: Bytes, segments: seq<Segment>, writable: bool, n: nat)
    requires InMemory(memory, segments) && n <= |segments|
    ensures Gather(memory, segments[..n], writable) <= Gather(memory, segments, writable)
    decreases |segments|
  {
    if n < |segments| {
      var front := segments[..|segments| - 1];
      GatherPrefix(memory, front, writable, n);
      assert front[..n] == segments[..n];
    } else {
      assert segments[..n] == segments;
    }
  }

  /** Where segment n's bytes lie in the gathered bytes. */
  lemma GatherAt(memory: Bytes, segments: seq<Segment>, writable: bool, n: nat)
    requires InMemory(memory, segments) && n < |segments| && segments[n].writable == writable
    ensures var all, before := Gather(memory, segments, writable), Length(segments[..n], writable);
            && before + segments[n].len <= |all|
            && all[before..before + segments[n].len]
               == memory[segments[n].address..segments[n].address + segments[n].len]
  {
    var upto := segments[..n + 1];
    assert upto[..n] == segments[..n];
    GatherPrefix(memory, segments, writable, n + 1);
    GatherLength(memory, segments[..n], writable);
  }

  lemma LengthStep(segments: seq<Segment>, writable: bool, n: nat)
    requires n < |segments|
    ensures Length(segments[..n + 1], writable)
            == Length(segments[..n], writable) + if segments[n].writable == writable then segments[n].len else 0
  {
    assert segments[..n + 1][..n] == segments[..n];
  }

  /** One segment's share of a copy extends the slice copied so far. */
  lemma CopyExtends(memory: Bytes, segments: seq<Segment>, n: nat, skip: nat, length: nat, offset: nat, copied: Bytes)
    requires InMemory(memory, segments) && n < |segments| && !segments[n].writable && skip + length <= segments[n].len
    requires Length(segments[..n], false) + skip == offset + |copied|
    requires offset + |copied| <= |Gather(memory, segments, false)|
    requires copied == Gather(memory, segments, false)[offset..offset + |copied|]
    ensures var more := copied + memory[segments[n].address + skip..segments[n].address + skip + length];
            && offset + |more| <= |Gather(memory, segments, false)|
            && more == Gather(memory, segments, false)[offset..offset + |more|]
  {
    GatherAt(memory, segments, false, n);
    var all, at := Gather(memory, segments, false), offset + |copied|;
    var before := Length(segments[..n], false);
    SubSlice(all, before, segments[n].len, skip, length);
    SubSlice(memory, segments[n].address, segments[n].len, skip, length);
    SliceJoins(all, offset, at, at + length);
  }

  lemma SubSlice(s: Bytes, at: nat, len: nat, skip: nat, length: nat)
    requires at + len <= |s| && skip + length <= len
    ensures s[at..at + len][skip..skip + length] == s[at + skip..at + skip + length]
  {
    var whole := s[at..at + len];
    var part := whole[skip..skip + length];
    assert forall i :: 0 <= i < length ==> part[i] == s[at + skip + i];
  }

  lemma SliceJoins(s: Bytes, a: nat, b: nat, c: nat)
    requires a <= b <= c <= |s|
    ensures s[a..b] + s[b..c] == s[a..c]
  {
  }

  /** Reading through a chain at any offset gives that slice of its readable bytes. */
  method CopyChain(memory: Bytes, chain: Chain, offset: nat, count: nat) returns (r: Result<Bytes, QueueError>)
    requires InMemory(memory, chain.segments) && chain.readable == Length(chain.segments, false)
    ensures |Gather(memory, chain.segments, false)| == chain.readable
    ensures r == if offset + count >= U32_LIMIT then Err(Overflow)
                 else if offset + count > chain.readable then Err(TooShort)
                 else Ok(Gather(memory, chain.segments, false)[offset..offset + count])
  {
    GatherLength(memory, chain.segments, false);
    if offset + count >= U32_LIMIT { return Err(Overflow); }
    if offset + count > chain.readable { return Err(TooShort); }
    var copied := CopySegments(memory, chain.segments, offset, count);
    r := Ok(copied);
  }

  /** Skips to the offset, then copies segment by segment until enough bytes are there. */
  method CopySegments(memory: Bytes, segments: seq<Segment>, offset: nat, count: nat) returns (copied: Bytes)
    requires InMemory(memory, segments) && offset + count <= Length(segments, false)
    requires |Gather(memory, segments, false)| == Length(segments, false)
    ensures copied == Gather(memory, segments, false)[offset..offset + count]
  {
    var skip: nat := offset;
    copied := [];
    for i := 0 to |segments|
      invariant |copied| <= count && Length(segments[..i], false) + skip == offset + |copied|
      invariant copied == Gather(memory, segments, false)[offset..offset + |copied|]
    {
      var s := segments[i];
      LengthStep(segments, false, i);
      if !s.writable {
        if skip >= s.len {
          skip := skip - s.len;
        } else {
          var length := if s.len - skip < count - |copied| then s.len - skip else count - |copied|;
          CopyExtends(memory, segments, i, skip, length, offset, copied);
          copied := copied + memory[s.address + skip..s.address + skip + length];
          skip := 0;
          if |copied| == count { return; }
        }
      }
    }
    assert segments[..|segments|] == segments;
  }

  // ------------------------------------------------------------------------- writing

  function Splice(s: Bytes, at: nat, data: Bytes): Bytes
    requires at + |data| <= |s|
  {
    s[..at] + data + s[at + |data|..]
  }

  ghost predicate Apart(s: Segment, t: Segment) {
    s.address + s.len <= t.address || t.address + t.len <= s.address
  }

  /** Writable segments do not overlap. */
  ghost predicate DisjointSegments(segments: seq<Segment>) {
    forall i, j :: 0 <= i < j < |segments| && segments[i].writable && segments[j].writable ==>
      Apart(segments[i], segments[j])
  }

  lemma SpliceElsewhere(memory: Bytes, at: nat, data: Bytes, from: nat, to: nat)
    requires at + |data| <= |memory| && from <= to <= |memory| && (to <= at || at + |data| <= from)
    ensures Splice(memory, at, data)[from..to] == memory[from..to]
  {
  }

  lemma {:induction false} SplicePastPrefix(memory: Bytes, segments: seq<Segment>, at: nat, data: Bytes)
    requires InMemory(memory, segments) && at + |data| <= |memory|
    requires forall i :: 0 <= i < |segments| && segments[i].writable ==>
               segments[i].address + segments[i].len <= at || at + |data| <= segments[i].address
    ensures InMemory(Splice(memory, at, data), segments)
    ensures Gather(Splice(memory, at, data), segments, true) == Gather(memory, segments, true)
    decreases |segments|
  {
    if segments != [] {
      var s := segments[|segments| - 1];
      SplicePastPrefix(memory, segments[..|segments| - 1], at, data);
      if s.writable { SpliceElsewhere(memory, at, data, s.address, s.address + s.len); }
    }
  }

  lemma SpliceInside(memory: Bytes, s: Segment, skip: nat, data: Bytes)
    requires s.address + s.len <= |memory| && skip + |data| <= s.len
    ensures Splice(memory, s.address + skip, data)[s.address..s.address + s.len]
            == Splice(memory[s.address..s.address + s.len], skip, data)
  {
    var left := Splice(memory, s.address + skip, data)[s.address..s.address + s.len];
    var right := Splice(memory[s.address..s.address + s.len], skip, data);
    assert |left| == |right|;
    forall i | 0 <= i < s.len ensures left[i] == right[i] {
      SpliceAt(memory, s.address + skip, data, s.address + i);
      SpliceAt(memory[s.address..s.address + s.len], skip, data, i);
    }
  }

  lemma SpliceAt(memory: Bytes, at: nat, data: Bytes, i: nat)
    requires at + |data| <= |memory| && i < |memory|
    ensures Splice(memory, at, data)[i] == if at <= i < at + |data| then data[i - at] else memory[i]
  {
  }

  lemma SpliceRight(x: Bytes, y: Bytes, skip: nat, data: Bytes)
    requires skip + |data| <= |y|
    ensures x + Splice(y, skip, data) == Splice(x + y, |x| + skip, data)
  {
  }

  lemma SpliceLeft(x: Bytes, y: Bytes, at: nat, data: Bytes)
    requires at + |data| <= |x|
    ensures Splice(x, at, data) + y == Splice(x + y, at, data)
  {
  }

  /** Writing inside the last segment. */
  lemma GatherSpliceLast(memory: Bytes, front: seq<Segment>, s: Segment, skip: nat, data: Bytes)
    requires InMemory(memory, front) && s.address + s.len <= |memory| && s.writable && skip + |data| <= s.len
    requires forall i :: 0 <= i < |front| && front[i].writable ==> Apart(front[i], s)
    ensures var after := Splice(memory, s.address + skip, data);
            && InMemory(memory, front + [s]) && InMemory(after, front + [s])
            && Length(front, true) + skip + |data| <= |Gather(memory, front + [s], true)|
            && Gather(after, front + [s], true)
               == Splice(Gather(memory, front + [s], true), Length(front, true) + skip, data)
  {
    assert (front + [s])[..|front|] == front;
    assert forall i :: 0 <= i < |front| ==> (front + [s])[i] == front[i];
    assert (front + [s])[|front|] == s;
    GatherLength(memory, front, true);
    SplicePastPrefix(memory, front, s.address + skip, data);
    SpliceInside(memory, s, skip, data);
    SpliceRight(Gather(memory, front, true), memory[s.address..s.address + s.len], skip, data);
  }

  /** Writing inside one writable segment splices the gathered bytes at its place. */
  lemma {:induction false} GatherSplice(memory: Bytes, segments: seq<Segment>, n: nat, skip: nat, data: Bytes)
    requires InMemory(memory, segments) && DisjointSegments(segments) && n < |segments| && segments[n].writable
    requires skip + |data| <= segments[n].len
    ensures var after := Splice(memory, segments[n].address + skip, data);
            var at := Length(segments[..n], true) + skip;
            && InMemory(after, segments) && at + |data| <= |Gather(memory, segments, true)|
            && Gather(after, segments, true) == Splice(Gather(memory, segments, true), at, data)
    decreases |segments|
  {
    var last := |segments| - 1;
    var front, s := segments[..last], segments[last];
    if n == last {
      assert segments == front + [s];
      assert forall i :: 0 <= i < |front| && front[i].writable ==> Apart(segments[i], segments[last]);
      GatherSpliceLast(memory, front, s, skip, data);
    } else {
      GatherSplice(memory, front, n, skip, data);
      assert front[..n] == segments[..n];
      LastIsSpared(memory, segments, n, skip, data);
      GatherSpliceFront(memory, Splice(memory, segments[n].address + skip, data), segments,
                        Length(segments[..n], true) + skip, data);
    }
  }

  lemma LastIsSpared(memory: Bytes, segments: seq<Segment>, n: nat, skip: nat, data: Bytes)
    requires InMemory(memory, segments) && DisjointSegments(segments) && n < |segments| - 1 && segments[n].writable
    requires skip + |data| <= segments[n].len
    ensures var s, after := segments[|segments| - 1], Splice(memory, segments[n].address + skip, data);
            && InMemory(after, segments)
            && (s.writable ==> after[s.address..s.address + s.len] == memory[s.address..s.address + s.len])
  {
    var s := segments[|segments| - 1];
    if s.writable {
      assert Apart(segments[n], s);
      SpliceElsewhere(memory, segments[n].address + skip, data, s.address, s.address + s.len);
    }
  }

  lemma GatherSpliceFront(memory: Bytes, after: Bytes, segments: seq<Segment>, at: nat, data: Bytes)
    requires segments != [] && InMemory(memory, segments) && InMemory(after, segments)
    requires var front, s := segments[..|segments| - 1], segments[|segments| - 1];
             && at + |data| <= |Gather(memory, front, true)|
             && Gather(after, front, true) == Splice(Gather(memory, front, true), at, data)
             && (s.writable ==> after[s.address..s.address + s.len] == memory[s.address..s.address + s.len])
    ensures at + |data| <= |Gather(memory, segments, true)|
    ensures Gather(after, segments, true) == Splice(Gather(memory, segments, true), at, data)
  {
    var s := segments[|segments| - 1];
    if s.writable {
      SpliceLeft(Gather(memory, segments[..|segments| - 1], true), memory[s.address..s.address + s.len], at, data);
    }
  }

  /** The segments hold the bytes `all` with `part` written at the offset. */
  ghost function HoldsSpliced(now: Bytes, segments: seq<Segment>, all: Bytes, offset: nat, part: Bytes): Verdict {
    if && InMemory(now, segments) && offset + |part| <= |all|
       && Gather(now, segments, true) == Splice(all, offset, part)
    then Sound else Unsound
  }

  lemma SplicedWhole(now: Bytes, segments: seq<Segment>, all: Bytes, offset: nat, source: Bytes, copied: nat)
    requires copied == |source| && HoldsSpliced(now, segments, all, offset, source[..copied]).Sound?
    ensures InMemory(now, segments) && offset + |source| <= |all|
    ensures Gather(now, segments, true) == Splice(all, offset, source)
  {
    assert source[..copied] == source;
  }

  /** One segment's share of a write extends the slice written so far. */
  lemma WriteExtends(now: Bytes, all: Bytes, segments: seq<Segment>, n: nat, skip: nat, length: nat,
                     offset: nat, source: Bytes, copied: nat)
    requires DisjointSegments(segments) && n < |segments| && segments[n].writable
    requires skip + length <= segments[n].len && copied + length <= |source| && offset + |source| <= |all|
    requires Length(segments[..n], true) + skip == offset + copied
    requires HoldsSpliced(now, segments, all, offset, source[..copied]).Sound?
    ensures segments[n].address + skip + length <= |now|
    ensures var after := Splice(now, segments[n].address + skip, source[copied..copied + length]);
            |after| == |now| && HoldsSpliced(after, segments, all, offset, source[..copied + length]).Sound?
  {
    var part := source[copied..copied + length];
    GatherSplice(now, segments, n, skip, part);
    SpliceTwice(all, offset, source[..copied], part);
    assert source[..copied] + part == source[..copied + length];
  }

  lemma SpliceTwice(s: Bytes, at: nat, a: Bytes, b: Bytes)
    requires at + |a| + |b| <= |s|
    ensures Splice(Splice(s, at, a), at + |a|, b) == Splice(s, at, a + b)
  {
  }

  /** Guest memory and the writes a device makes into it through a chain. */
  class GuestMemory {
    var bytes: Bytes

    constructor (bytes: Bytes)
      ensures this.bytes == bytes
    {
      this.bytes := bytes;
    }

    /** Writing through a chain at any offset replaces that slice of its writable bytes. */
    method WriteChain(chain: Chain, offset: nat, source: Bytes) returns (r: Result<(), QueueError>)
      requires InMemory(bytes, chain.segments) && DisjointSegments(chain.segments)
      requires chain.writable == Length(chain.segments, true)
      modifies this
      ensures |bytes| == |old(bytes)| && |Gather(old(bytes), chain.segments, true)| == chain.writable
      ensures r == if offset + |source| >= U32_LIMIT then Err(Overflow)
                   else if offset + |source| > chain.writable then Err(TooShort) else Ok(())
      ensures r.Err? ==> bytes == old(bytes)
      ensures r.Ok? ==>
                Gather(bytes, chain.segments, true) == Splice(Gather(old(bytes), chain.segments, true), offset, source)
    {
      GatherLength(bytes, chain.segments, true);
      if offset + |source| >= U32_LIMIT { return Err(Overflow); }
      if offset + |source| > chain.writable { return Err(TooShort); }
      ghost var all := Gather(bytes, chain.segments, true);
      WriteSegments(chain.segments, all, offset, source);
      SplicedWhole(bytes, chain.segments, all, offset, source, |source|);
      r := Ok(());
    }

    /** The copying loop, once the bytes are known to fit. */
    method WriteSegments(segments: seq<Segment>, ghost all: Bytes, offset: nat, source: Bytes)
      requires InMemory(bytes, segments) && DisjointSegments(segments) && all == Gather(bytes, segments, true)
      requires offset + |source| <= |all| == Length(segments, true)
      modifies this
      ensures |bytes| == |old(bytes)|
      ensures HoldsSpliced(bytes, segments, all, offset, source[..|source|]).Sound?
    {
      var skip: nat, copied: nat := offset, 0;
      assert Splice(all, offset, source[..0]) == all;
      for i := 0 to |segments|
        invariant copied <= |source| && |bytes| == |old(bytes)|
        invariant Length(segments[..i], true) + skip == offset + copied
        invariant HoldsSpliced(bytes, segments, all, offset, source[..copied]).Sound?
      {
        var s := segments[i];
        LengthStep(segments, true, i);
        if s.writable {
          if skip >= s.len {
            skip := skip - s.len;
          } else {
            var length := if s.len - skip < |source| - copied then s.len - skip else |source| - copied;
            WriteExtends(bytes, all, segments, i, skip, length, offset, source, copied);
            bytes := Splice(bytes, s.address + skip, source[copied..copied + length]);
            copied := copied + length;
            skip := 0;
            if copied == |source| { return; }
          }
        }
      }
      assert segments[..|segments|] == segments;
    }
  }
}
