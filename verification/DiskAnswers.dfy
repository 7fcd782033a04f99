/**
 When the HTTP disk of src/block_storage.rs answers, waits or fails: a read is decided by
 its first sector that is neither written nor cached, and a chunk is blamed only for a
 fetch that failed while somebody waited for it.
 */
module DiskAnswers {
  import opened Wrappers
  import opened Arithmetic
  import opened ChunkCache
  import opened ChunkProgress
  import HttpDisk

  // ----------------------------------------------------------------------------- reads

  /** The sector can be copied: it was written, or its chunk is cached. */
  ghost predicate Available(st: Store, t: nat) {
    Dirty(st.overlays, t) || BlockOf(st.shape, t) in st.cache
  }

  /** Sector t is the first of the range that cannot be copied. */
  ghost predicate FirstMissing(st: Store, sector: nat, count: nat, t: nat) {
    sector <= t < sector + count && !Available(st, t) && forall u :: sector <= u < t ==> Available(st, u)
  }

  lemma AvailablePasses(st: Store, t: nat)
    requires FetchesInv(st)
    ensures Passes(st, t) <==> Available(st, t)
  {
  }

  lemma BlocksInRange(st: Store, sector: nat, count: nat, t: nat)
    requires st.shape.sectorsPerBlock > 0 && InRange(st.shape, sector, count) && sector <= t < sector + count
    ensures BlockOf(st.shape, t) < st.shape.blockCount
  {
    QuotientReaches(t, st.shape.sectorsPerBlock, st.shape.blockCount);
    Commutes(st.shape.blockCount, st.shape.sectorsPerBlock);
  }

  /** How a read over the whole range ends. */
  ghost predicate Ends(st: Store, sector: nat, count: nat, a: Attempt) {
    match a.result
    case Ok(_) => forall t :: sector <= t < sector + count ==> Available(st, t)
    case Err(BackingFailed) => exists t :: FirstMissing(st, sector, count, t) && BlockOf(st.shape, t) in st.failed
    case Err(MissingBlock(b)) =>
      && (exists t :: FirstMissing(st, sector, count, t) && BlockOf(st.shape, t) == b && b !in st.failed)
      && (exists id :: id in a.store.pending && a.store.pending[id] == Fetch(b, true))
    case Err(_) => false
  }

  lemma LoopEnds(w: Store, sector: nat, count: nat)
    requires FetchesInv(w) && w.shape.sectorsPerBlock > 0 && InRange(w.shape, sector, count)
    ensures Ends(w, sector, count, ReadLoop(ReadOne, w, sector, count, []))
  {
    forall t: nat ensures Passes(w, t) <==> Available(w, t) { AvailablePasses(w, t); }
    if ReadLoop(ReadOne, w, sector, count, []).result.Ok? {
      LoopPasses(w, w, sector, count, []);
    } else {
      assert Aged(w, w, w.clock, sector, sector);
      var t := LoopHalts(w, w, sector, count, [], w.clock);
      BlocksInRange(w, sector, count, t);
      assert FirstMissing(w, sector, count, t);
    }
  }

  /** A read in range succeeds, waits or fails as its first missing sector says; out of range it is refused. */
  lemma ReadEnds(st: Store, sector: nat, count: nat)
    requires FetchesInv(st) && st.shape.sectorsPerBlock > 0
    ensures var a := ReadSectors(st, sector, count);
            if InRange(st.shape, sector, count) then Ends(st, sector, count, a)
            else a == Attempt(st, Err(OutOfRange))
  {
    if InRange(st.shape, sector, count) {
      var w := RetainWorkingSet(st, sector, count);
      LoopEnds(w, sector, count);
      SameMissing(st, w, sector, count);
    }
  }

  lemma SameMissing(st: Store, w: Store, sector: nat, count: nat)
    requires w.overlays == st.overlays && w.cache == st.cache && w.shape == st.shape && w.failed == st.failed
    ensures forall a :: Ends(st, sector, count, a) <==> Ends(w, sector, count, a)
  {
    assert forall t: nat :: Available(st, t) <==> Available(w, t);
    assert forall t: nat :: FirstMissing(st, sector, count, t) <==> FirstMissing(w, sector, count, t);
  }

  lemma OneFirstMissing(st: Store, sector: nat, count: nat, t: nat, u: nat)
    requires FirstMissing(st, sector, count, t) && FirstMissing(st, sector, count, u)
    ensures t == u
  {
  }

  /** Both directions: success exactly when nothing is missing, failure exactly when the first missing chunk failed. */
  lemma ReadExactly(st: Store, sector: nat, count: nat)
    requires FetchesInv(st) && st.shape.sectorsPerBlock > 0 && InRange(st.shape, sector, count)
    ensures var r := ReadSectors(st, sector, count).result;
            && (r.Ok? <==> forall t :: sector <= t < sector + count ==> Available(st, t))
            && (r == Err(BackingFailed)
                <==> exists t :: FirstMissing(st, sector, count, t) && BlockOf(st.shape, t) in st.failed)
            && (r.Err? && r.error.MissingBlock?
                <==> exists t :: FirstMissing(st, sector, count, t) && BlockOf(st.shape, t) !in st.failed)
  {
    ReadEnds(st, sector, count);
    forall t, u | FirstMissing(st, sector, count, t) && FirstMissing(st, sector, count, u) ensures t == u {
      OneFirstMissing(st, sector, count, t, u);
    }
  }

  // --------------------------------------------------------------------------- demand

  /** A fetch of the chunk is in flight. */
  ghost predicate Fetching(st: Store, b: nat) { exists id :: id in st.pending && st.pending[id].block == b }

  /** Somebody waits for the chunk. */
  ghost predicate Awaited(st: Store, b: nat) { exists id :: id in st.pending && st.pending[id] == Fetch(b, true) }

  /** Asking for a chunk in range starts its fetch unless it is cached or on its way, and waits only when told to. */
  lemma RequestExactly(st: Store, block: nat, demanded: bool, b: nat)
    requires FetchesInv(st)
    ensures var r := RequestBlock(st, block, demanded);
            && (r.Ok? <==> block < st.shape.blockCount)
            && (r.Ok? ==>
                  && (Fetching(r.value, b) <==> Fetching(st, b) || (b == block && b !in st.cache))
                  && (Awaited(r.value, b) <==> Awaited(st, b) || (b == block && b !in st.cache && demanded)))
  {
    if block < st.shape.blockCount && block !in st.cache {
      var next := RequestBlock(st, block, demanded).value;
      if exists id :: id in st.pending && st.pending[id].block == block {
        RequestJoins(st, block, demanded, b);
      } else {
        RequestStarts(st, block, demanded, b);
      }
    }
  }

  lemma RequestJoins(st: Store, block: nat, demanded: bool, b: nat)
    requires block < st.shape.blockCount && block !in st.cache && Fetching(st, block)
    ensures var next := RequestBlock(st, block, demanded).value;
            && (Fetching(next, b) <==> Fetching(st, b))
            && (Awaited(next, b) <==> Awaited(st, b) || (b == block && demanded))
  {
    var next := RequestBlock(st, block, demanded).value;
    assert next.pending.Keys == st.pending.Keys;
    assert forall id :: id in st.pending ==> next.pending[id].block == st.pending[id].block;
    if Awaited(st, b) {
      var id :| id in st.pending && st.pending[id] == Fetch(b, true);
      assert next.pending[id] == Fetch(b, true);
    }
    if b == block && demanded {
      var id :| id in st.pending && st.pending[id].block == block;
      assert next.pending[id] == Fetch(b, true);
    }
  }

  lemma RequestStarts(st: Store, block: nat, demanded: bool, b: nat)
    requires FetchesInv(st) && block < st.shape.blockCount && block !in st.cache && !Fetching(st, block)
    ensures var next := RequestBlock(st, block, demanded).value;
            && (Fetching(next, b) <==> Fetching(st, b) || b == block)
            && (Awaited(next, b) <==> Awaited(st, b) || (b == block && demanded))
  {
    var next, id := RequestBlock(st, block, demanded).value, st.nextId + 1;
    assert id !in st.pending && next.pending == st.pending[id := Fetch(block, demanded)];
    assert next.pending[id] == Fetch(block, demanded);
    assert forall i :: i in st.pending ==> next.pending[i] == st.pending[i];
  }

  lemma TurnDemands(st: Store, t: nat, b: nat)
    requires FetchesInv(st)
    ensures var turn := ReadOne(st, t);
            && FetchesInv(turn.store)
            && (Awaited(turn.store, b) ==> Awaited(st, b) || (turn.Stopped? && turn.error == MissingBlock(b)))
  {
    var turn, block := ReadOne(st, t), BlockOf(st.shape, t);
    ReadOneKeepsFetches(st, t);
    if turn.Copied? {
      assert turn.store.pending == st.pending;
    } else {
      RequestExactly(st, block, true, b);
    }
  }

  /** What holds before every turn, and what a turn that stops then leaves, hold of the whole loop. */
  lemma {:induction false} LoopLeaves(turn: (Store, nat) -> Turn, before: Store -> bool,
                                      leaves: (Store, StorageError) -> bool, st: Store, sector: nat, count: nat,
                                      copied: seq<Sector>)
    requires |copied| <= count && before(st)
    requires forall s: Store, t: nat :: before(s) ==>
               if turn(s, t).Copied? then before(turn(s, t).store) else leaves(turn(s, t).store, turn(s, t).error)
    ensures var r := ReadLoop(turn, st, sector, count, copied);
            if r.result.Ok? then before(r.store) else leaves(r.store, r.result.error)
    decreases count - |copied|
  {
    if |copied| < count {
      var r := turn(st, sector + |copied|);
      if r.Copied? { LoopLeaves(turn, before, leaves, r.store, sector, count, copied + [r.sector]); }
    }
  }

  /** The loop asks for nothing until it stops, and then for the chunk it stops at. */
  lemma LoopDemands(st: Store, sector: nat, count: nat, b: nat)
    requires FetchesInv(st) && !Awaited(st, b)
    ensures var r := ReadLoop(ReadOne, st, sector, count, []);
            Awaited(r.store, b) ==> r.result == Err(MissingBlock(b))
  {
    var before := (s: Store) => FetchesInv(s) && !Awaited(s, b);
    var leaves := (s: Store, e: StorageError) => Awaited(s, b) ==> e == MissingBlock(b);
    forall s: Store, t: nat | before(s)
      ensures if ReadOne(s, t).Copied? then before(ReadOne(s, t).store)
              else leaves(ReadOne(s, t).store, ReadOne(s, t).error) {
      TurnDemands(s, t, b);
    }
    LoopLeaves(ReadOne, before, leaves, st, sector, count, []);
  }

  lemma {:induction false} PrefetchInRange(st: Store, blocks: seq<nat>)
    ensures HttpDisk.Prefetched(st, blocks).Ok? <==> forall i :: 0 <= i < |blocks| ==> blocks[i] < st.shape.blockCount
    decreases |blocks|
  {
    if blocks != [] {
      var r := RequestBlock(st, blocks[0], false);
      if r.Ok? { PrefetchInRange(r.value, blocks[1..]); }
      assert blocks == [blocks[0]] + blocks[1..];
    }
  }

  lemma RequestKeepsRest(st: Store, block: nat)
    requires FetchesInv(st) && st.failed == {} && RequestBlock(st, block, false).Ok?
    ensures var next := RequestBlock(st, block, false).value;
            FetchesInv(next) && next.failed == {} && next.cache == st.cache
  {
    RequestKeepsFetches(st, block, false);
  }

  /** Prefetching fetches what is named and not cached, and makes nobody wait. */
  lemma {:induction false} PrefetchExactly(st: Store, blocks: seq<nat>, b: nat)
    requires FetchesInv(st) && st.failed == {} && HttpDisk.Prefetched(st, blocks).Ok?
    ensures var after := HttpDisk.Prefetched(st, blocks).value;
            && (Fetching(after, b) <==> Fetching(st, b) || (b in blocks && b !in st.cache))
            && (Awaited(after, b) <==> Awaited(st, b))
    decreases |blocks|
  {
    if blocks != [] {
      var next := RequestBlock(st, blocks[0], false).value;
      RequestExactly(st, blocks[0], false, b);
      RequestKeepsRest(st, blocks[0]);
      PrefetchExactly(next, blocks[1..], b);
      assert b in blocks <==> b == blocks[0] || b in blocks[1..] by { assert blocks == [blocks[0]] + blocks[1..]; }
    }
  }

  // ----------------------------------------------------------------------- completions

  /** The answer is for a fetch in flight. */
  predicate Expected(st: Store, id: nat) { id in st.queued && id in st.pending }

  /** A good answer ends its fetch and makes its chunk available; nobody is blamed. */
  lemma GoodAnswerIsCached(st: Store, base: Image, id: nat, data: Chunk)
    requires Inv(st, base) && id in st.pending && |data| == st.shape.sectorsPerBlock
    ensures var (n, r) := Complete(st, id, data);
            && r == Ok(()) && Entered(st.cache, n.cache, st.pending[id].block, data)
            && n.pending == st.pending - {id} && n.failed == st.failed && n.overlays == st.overlays
  {
    assert id in st.queued;
    AnswerIsCached(st, id, data);
  }

  lemma {:induction false} AnswerIsCached(st: Store, id: nat, data: Chunk)
    requires id in st.pending && id in st.queued && |data| == st.shape.sectorsPerBlock
    requires AgesInv(st.cache, st.clock) && BlockSize(st.shape) <= st.cacheLimit
    ensures var (n, r) := Complete(st, id, data);
            && r == Ok(()) && Entered(st.cache, n.cache, st.pending[id].block, data)
            && n.pending == st.pending - {id} && n.failed == st.failed && n.overlays == st.overlays
  {
    NewestStays(st.cache, st.clock, st.pending[id].block, data, BlockSize(st.shape), st.cacheLimit);
  }

  /** The chunk is cached with these bytes, and no chunk that stays differs. */
  ghost predicate Entered(cache: Cache, after: Cache, b: nat, data: Chunk) {
    b in after && after[b].data == data && forall c :: c in after && c != b ==> c in cache && after[c] == cache[c]
  }

  /** Trimming spares the chunk just entered and changes no other that stays. */
  lemma {:induction false} NewestStays(cache: Cache, clock: nat, b: nat, data: Chunk, size: nat, limit: nat)
    requires AgesInv(cache, clock) && size <= limit
    ensures Entered(cache, Trim(cache[b := Slot(clock + 1, data)], size, limit), b, data)
  {
    var more := cache[b := Slot(clock + 1, data)];
    assert Newer(more, clock) == {b};
    TrimKeepsNewer(more, size, limit, clock);
    TrimKeeps(more, size, limit);
  }

  /** A failure or an answer of the wrong size ends the fetch, and blames the chunk exactly when it was demanded. */
  lemma BadAnswerBlamesDemanded(st: Store, base: Image, id: nat, data: Chunk)
    requires Inv(st, base) && id in st.pending
    ensures var b, n := st.pending[id].block, Fail(st, id).0;
            && Fail(st, id).1 == Ok(())
            && (|data| != st.shape.sectorsPerBlock ==> Complete(st, id, data) == (n, Err(InvalidResponse)))
            && n.pending == st.pending - {id} && n.cache == st.cache && n.overlays == st.overlays
            && (forall c :: c in n.failed <==> c in st.failed || (c == b && st.pending[id].demanded))
  {
  }

  /** An answer nobody waits for changes nothing. */
  lemma StrayAnswerIsIgnored(st: Store, base: Image, id: nat, data: Chunk)
    requires Inv(st, base) && id !in st.pending
    ensures Complete(st, id, data) == (st, Err(UnknownRequest)) && Fail(st, id) == (st, Err(UnknownRequest))
  {
    assert st.queued - {id} == st.queued;
  }

  /** A speculative fetch that fails is forgotten: the next read that needs the chunk asks for it again. */
  lemma SpeculativeFailureIsForgotten(st: Store, base: Image, id: nat, sector: nat, count: nat, t: nat)
    requires Inv(st, base) && id in st.pending && !st.pending[id].demanded
    requires InRange(st.shape, sector, count) && FirstMissing(st, sector, count, t)
    requires BlockOf(st.shape, t) == st.pending[id].block
    ensures var a := ReadSectors(Fail(st, id).0, sector, count);
            && a.result == Err(MissingBlock(st.pending[id].block))
            && exists i :: i != id && i in a.store.pending && a.store.pending[i] == Fetch(st.pending[id].block, true)
  {
    var n, b := Fail(st, id).0, st.pending[id].block;
    FailKeepsInv(st, base, id);
    assert forall u: nat :: Available(n, u) <==> Available(st, u);
    assert FirstMissing(n, sector, count, t) && b !in n.failed;
    ReadEnds(n, sector, count);
    ReadExactly(n, sector, count);
    var a := ReadSectors(n, sector, count);
    var u :| FirstMissing(n, sector, count, u) && BlockOf(n.shape, u) == a.result.error.block;
    OneFirstMissing(n, sector, count, t, u);
    StaysRetired(n, id, sector, count);
  }

  /** Right after a reset, a discard or a reported error no read fails: what is missing is fetched anew. */
  lemma NothingFailsAfresh(st: Store, base: Image, n: Store, sector: nat, count: nat)
    requires Inv(st, base) && n in {ResetRequests(st), DiscardChanges(st), ClearErrors(st)}
    requires InRange(st.shape, sector, count)
    ensures var r := ReadSectors(n, sector, count).result; r.Ok? || r.error.MissingBlock?
  {
    ReadEnds(n, sector, count);
  }

  lemma StaysRetired(n: Store, id: nat, sector: nat, count: nat)
    requires id !in n.pending && id <= n.nextId && n.queued == n.pending.Keys
    ensures id !in ReadSectors(n, sector, count).store.pending
  {
    HttpDisk.ReadKeepsRetired(n, id, sector, count);
  }

  // ------------------------------------------------------------------------------ runs

  /** The operation ends a demanded fetch of the chunk without its bytes. */
  predicate Blames(st: Store, op: HttpDisk.Op, b: nat) {
    && (op.Broken? || op.Answer?) && Expected(st, op.id) && st.pending[op.id] == Fetch(b, true)
    && (op.Answer? ==> |op.chunk| != st.shape.sectorsPerBlock)
  }

  lemma StepBlames(st: Store, base: Image, op: HttpDisk.Op, b: nat)
    requires Inv(st, base) && HttpDisk.HonestOp(st, base, op)
    requires b in HttpDisk.Apply(st, op).failed && b !in st.failed
    ensures Blames(st, op, b)
  {
    if op.ReadAt? { ReadReturnsTheDisk(st, base, op.sector, op.count); }
  }

  lemma RunBlames(states: seq<Store>, base: Image, ops: seq<HttpDisk.Op>, i: nat, b: nat)
    requires HttpDisk.IsRun(states, base, ops) && i < |ops| && b in states[i + 1].failed && b !in states[i].failed
    ensures Blames(states[i], ops[i], b)
  {
    HttpDisk.RunKeepsInv(states, base, ops, i);
    StepBlames(states[i], base, ops[i], b);
  }

  /** Over every run: a chunk marked failed was demanded when an earlier answer for it failed. */
  lemma {:induction false} FailedWasDemanded(states: seq<Store>, base: Image, ops: seq<HttpDisk.Op>, n: nat, b: nat)
    returns (i: nat)
    requires HttpDisk.IsRun(states, base, ops) && n <= |ops| && b in states[n].failed
    ensures b in states[0].failed || (i < n && Blames(states[i], ops[i], b))
    decreases n
  {
    i := 0;
    if n > 0 {
      if b in states[n - 1].failed {
        i := FailedWasDemanded(states, base, ops, n - 1, b);
      } else {
        i := n - 1;
        RunBlames(states, base, ops, i, b);
      }
    }
  }

  /** The operation is a read that stopped at the chunk. */
  predicate Demands(st: Store, op: HttpDisk.Op, b: nat) {
    op.ReadAt? && ReadSectors(st, op.sector, op.count).result == Err(MissingBlock(b))
  }

  lemma StepDemands(st: Store, base: Image, op: HttpDisk.Op, b: nat)
    requires Inv(st, base) && Awaited(HttpDisk.Apply(st, op), b)
    ensures Awaited(st, b) || Demands(st, op, b)
  {
    if op.ReadAt? && InRange(st.shape, op.sector, op.count) {
      var w := RetainWorkingSet(st, op.sector, op.count);
      assert Awaited(w, b) <==> Awaited(st, b);
      if !Awaited(st, b) { LoopDemands(w, op.sector, op.count, b); }
    } else {
      var id :| id in HttpDisk.Apply(st, op).pending && HttpDisk.Apply(st, op).pending[id] == Fetch(b, true);
      assert id in st.pending && st.pending[id] == Fetch(b, true);
    }
  }

  /** Over every run: somebody waits for a chunk only since a read stopped at it. */
  lemma {:induction false} AwaitedWasRead(states: seq<Store>, base: Image, ops: seq<HttpDisk.Op>, n: nat, b: nat)
    returns (i: nat)
    requires HttpDisk.IsRun(states, base, ops) && n <= |ops| && Awaited(states[n], b)
    ensures Awaited(states[0], b) || (i < n && Demands(states[i], ops[i], b))
    decreases n
  {
    i := 0;
    if n > 0 {
      HttpDisk.RunKeepsInv(states, base, ops, n - 1);
      StepDemands(states[n - 1], base, ops[n - 1], b);
      i := n - 1;
      if Awaited(states[i], b) { i := AwaitedWasRead(states, base, ops, i, b); }
    }
  }

  /** From a disk just opened: a chunk fails only after a read stopped at it and its fetch then failed. */
  lemma FailureWasAwaited(states: seq<Store>, base: Image, ops: seq<HttpDisk.Op>, n: nat, b: nat)
    returns (i: nat, j: nat)
    requires HttpDisk.IsRun(states, base, ops) && n <= |ops| && b in states[n].failed
    requires states[0].failed == {} && !Awaited(states[0], b)
    ensures i < j < n && Demands(states[i], ops[i], b) && Blames(states[j], ops[j], b)
  {
    j := FailedWasDemanded(states, base, ops, n, b);
    assert Awaited(states[j], b);
    i := AwaitedWasRead(states, base, ops, j, b);
  }
}
