/**
 Why a read of several chunks finishes although the cache evicts: the limit covers
 the read's working set, and the chunks touched by the latest attempt are the newest.
 */
module ChunkProgress {
  import opened Arithmetic
  import opened Wrappers
  import opened ChunkCache

  /** The loop gets past sector t: it is dirty, or its chunk is cached and not failed. */
  ghost predicate Passes(st: Store, t: nat) {
    Dirty(st.overlays, t) || (BlockOf(st.shape, t) in st.cache && BlockOf(st.shape, t) !in st.failed)
  }

  lemma CopiesWhenPassing(st: Store, t: nat)
    ensures ReadOne(st, t).Copied? <==> Passes(st, t)
  {
  }

  lemma PassesBySame(a: Store, b: Store, t: nat)
    requires SameContents(a, b)
    ensures Passes(a, t) <==> Passes(b, t)
  {
  }

  /** Ages after sectors from..to were read: what was read is newer than `clock`, nothing else is. */
  ghost predicate Aged(a: Store, b: Store, clock: nat, from: nat, to: nat) {
    && a.cache.Keys == b.cache.Keys && b.clock >= clock
    && (forall t :: from <= t < to && !Dirty(a.overlays, t) && BlockOf(a.shape, t) in b.cache ==>
          b.cache[BlockOf(a.shape, t)].age > clock)
    && (forall x :: x in b.cache && b.cache[x].age > clock ==>
          a.cache[x].age > clock || exists t :: from <= t < to && BlockOf(a.shape, t) == x)
  }

  lemma TurnAges(a: Store, b: Store, clock: nat, from: nat, to: nat)
    requires SameContents(a, b) && Aged(a, b, clock, from, to) && from <= to && Passes(b, to)
    ensures Aged(a, ReadOne(b, to).store, clock, from, to + 1) && SameContents(a, ReadOne(b, to).store)
  {
    ReadOneKeepsContents(b, to);
    var c := ReadOne(b, to).store;
    forall x | x in c.cache && c.cache[x].age > clock && a.cache[x].age <= clock
      ensures exists t :: from <= t < to + 1 && BlockOf(a.shape, t) == x {
      if c.cache[x] == b.cache[x] {
        var t :| from <= t < to && BlockOf(a.shape, t) == x;
      } else {
        assert BlockOf(a.shape, to) == x;
      }
    }
  }

  /** What the loop reports at the first sector it cannot get past. */
  function Reason(st: Store, t: nat): StorageError {
    if BlockOf(st.shape, t) in st.failed then BackingFailed
    else if BlockOf(st.shape, t) >= st.shape.blockCount then OutOfRange
    else MissingBlock(BlockOf(st.shape, t))
  }

  /** Where a loop that failed stopped, why, and what it had touched by then. */
  lemma LoopHalts(a: Store, st: Store, sector: nat, count: nat, copied: seq<Sector>, clock: nat) returns (t: nat)
    requires |copied| <= count && SameContents(a, st) && Aged(a, st, clock, sector, sector + |copied|)
    requires forall u :: sector <= u < sector + |copied| ==> Passes(a, u)
    requires ReadLoop(ReadOne, st, sector, count, copied).result.Err?
    ensures sector <= t < sector + count && !Passes(a, t)
    ensures forall u :: sector <= u < t ==> Passes(a, u)
    ensures var r := ReadLoop(ReadOne, st, sector, count, copied);
            && r.result.error == Reason(a, t)
            && SameContents(a, r.store)
            && Aged(a, r.store, clock, sector, t)
            && r.store.cacheLimit == st.cacheLimit
            && (r.result.error.MissingBlock? ==>
                  exists id :: id in r.store.pending && r.store.pending[id] == Fetch(BlockOf(a.shape, t), true))
  {
    t := LoopStops(a, st, sector, count, copied, clock);
  }

  /** The loop stopped at sector t, the first that does not pass. */
  ghost function StoppedAt(a: Store, r: Attempt, limit: nat, sector: nat, count: nat, clock: nat, t: nat): Verdict {
    if && sector <= t < sector + count && !Passes(a, t) && (forall u :: sector <= u < t ==> Passes(a, u))
       && r.result.Err? && r.result.error == Reason(a, t) && SameContents(a, r.store)
       && Aged(a, r.store, clock, sector, t) && r.store.cacheLimit == limit
       && (r.result.error.MissingBlock? ==>
             exists id :: id in r.store.pending && r.store.pending[id] == Fetch(BlockOf(a.shape, t), true))
    then Sound else Unsound
  }

  /** The loop came from store a to st, passing n sectors. */
  ghost function OnTheWay(a: Store, st: Store, sector: nat, n: nat, clock: nat): Verdict {
    if && SameContents(a, st) && Aged(a, st, clock, sector, sector + n)
       && (forall u :: sector <= u < sector + n ==> Passes(a, u))
    then Sound else Unsound
  }

  lemma {:induction false} LoopStops(a: Store, st: Store, sector: nat, count: nat, copied: seq<Sector>, clock: nat)
    returns (t: nat)
    requires |copied| <= count && OnTheWay(a, st, sector, |copied|, clock).Sound?
    requires ReadLoop(ReadOne, st, sector, count, copied).result.Err?
    ensures StoppedAt(a, ReadLoop(ReadOne, st, sector, count, copied), st.cacheLimit, sector, count, clock, t).Sound?
    decreases count - |copied|
  {
    t := sector + |copied|;
    var turn := ReadOne(st, t);
    if turn.Copied? {
      GoesOn(a, st, sector, |copied|, clock);
      t := LoopStops(a, turn.store, sector, count, copied + [turn.sector], clock);
    } else {
      StopsHere(a, st, sector, count, |copied|, clock);
    }
  }

  lemma GoesOn(a: Store, st: Store, sector: nat, n: nat, clock: nat)
    requires OnTheWay(a, st, sector, n, clock).Sound? && ReadOne(st, sector + n).Copied?
    ensures OnTheWay(a, ReadOne(st, sector + n).store, sector, n + 1, clock).Sound?
    ensures ReadOne(st, sector + n).store.cacheLimit == st.cacheLimit
  {
    CopiesWhenPassing(st, sector + n);
    PassesBySame(a, st, sector + n);
    TurnAges(a, st, clock, sector, sector + n);
  }

  lemma StopsHere(a: Store, st: Store, sector: nat, count: nat, k: nat, clock: nat)
    requires k < count && OnTheWay(a, st, sector, k, clock).Sound? && ReadOne(st, sector + k).Stopped?
    ensures var turn := ReadOne(st, sector + k);
            StoppedAt(a, Attempt(turn.store, Err(turn.error)), st.cacheLimit, sector, count, clock, sector + k).Sound?
  {
    CopiesWhenPassing(st, sector + k);
    PassesBySame(a, st, sector + k);
    StopIsReasoned(st, sector + k);
  }

  lemma StopIsReasoned(st: Store, t: nat)
    requires !Passes(st, t)
    ensures var r := ReadOne(st, t);
            && r.Stopped? && r.error == Reason(st, t) && SameContents(st, r.store)
            && r.store.cache == st.cache && r.store.clock == st.clock && r.store.cacheLimit == st.cacheLimit
            && (r.error.MissingBlock? ==>
                  exists id :: id in r.store.pending && r.store.pending[id] == Fetch(BlockOf(st.shape, t), true))
  {
    var b := BlockOf(st.shape, t);
    if b !in st.failed && b < st.shape.blockCount {
      RequestIsDemanded(st, b);
      RequestChangesOnlyFetches(st, b, true);
    }
  }

  /** A loop that succeeds got past every sector. */
  lemma {:induction false} LoopPasses(a: Store, st: Store, sector: nat, count: nat, copied: seq<Sector>)
    requires |copied| <= count && SameContents(a, st)
    requires forall u :: sector <= u < sector + |copied| ==> Passes(a, u)
    requires ReadLoop(ReadOne, st, sector, count, copied).result.Ok?
    ensures forall u :: sector <= u < sector + count ==> Passes(a, u)
    decreases count - |copied|
  {
    if |copied| < count {
      var u := sector + |copied|;
      CopiesWhenPassing(st, u);
      PassesBySame(a, st, u);
      ReadOneKeepsContents(st, u);
      LoopPasses(a, ReadOne(st, u).store, sector, count, copied + [ReadOne(st, u).sector]);
    }
  }

  /** After a demanding request for a missing chunk, a demanded fetch of it is in flight. */
  lemma RequestIsDemanded(st: Store, block: nat)
    requires block !in st.cache && RequestBlock(st, block, true).Ok?
    ensures var r := RequestBlock(st, block, true).value;
            exists id :: id in r.pending && r.pending[id] == Fetch(block, true)
  {
    var r := RequestBlock(st, block, true).value;
    if id :| id in st.pending && st.pending[id].block == block {
      assert r.pending[id] == Fetch(block, true);
    } else {
      assert r.pending[st.nextId + 1] == Fetch(block, true);
    }
  }

  // ------------------------------------------------------------- waiting states

  function FirstBlock(shape: Shape, sector: nat): nat { BlockOf(shape, sector) }

  function LastBlock(shape: Shape, sector: nat, count: nat): nat
    requires count > 0
  {
    BlockOf(shape, sector + count - 1)
  }

  lemma BlockOfMonotone(shape: Shape, t: nat, u: nat)
    requires t <= u
    ensures BlockOf(shape, t) <= BlockOf(shape, u)
  {
    if shape.sectorsPerBlock > 0 { QuotientMonotone(t, u, shape.sectorsPerBlock); }
  }

  /** Everything before chunk b passes. */
  ghost predicate Reached(st: Store, sector: nat, count: nat, b: nat) {
    forall t :: sector <= t < sector + count && BlockOf(st.shape, t) < b ==> Passes(st, t)
  }

  /** Some clean sector of the read lies in chunk b. */
  ghost predicate Wanted(st: Store, sector: nat, count: nat, b: nat) {
    exists t :: sector <= t < sector + count && BlockOf(st.shape, t) == b && !Dirty(st.overlays, t)
  }

  /** The state after an attempt stopped at chunk b: what it touched is newest, and fits the limit. */
  ghost predicate Waiting(st: Store, sector: nat, count: nat, b: nat, clock: nat)
    requires count > 0
  {
    && FirstBlock(st.shape, sector) <= b <= LastBlock(st.shape, sector, count)
    && b !in st.cache && b !in st.failed && Wanted(st, sector, count, b)
    && Reached(st, sector, count, b)
    && (forall t :: sector <= t < sector + count && BlockOf(st.shape, t) < b && !Dirty(st.overlays, t) ==>
          st.cache[BlockOf(st.shape, t)].age > clock)
    && (forall x :: x in st.cache && st.cache[x].age > clock ==> FirstBlock(st.shape, sector) <= x < b)
    && (LastBlock(st.shape, sector, count) - FirstBlock(st.shape, sector) + 1) * BlockSize(st.shape) <= st.cacheLimit
    && st.clock >= clock
    && exists id :: id in st.pending && st.pending[id] == Fetch(b, true)
  }

  /** The attempt stopped for a chunk that is being fetched. */
  predicate Missing(a: Attempt) {
    a.result.Err? && a.result.error.MissingBlock?
  }

  /** From the halting sector to the waiting state. */
  lemma HaltIsWaiting(w: Store, r: Store, sector: nat, count: nat, t: nat)
    requires sector <= t < sector + count && SameContents(w, r) && AgesInv(w.cache, w.clock)
    requires !Passes(w, t) && BlockOf(w.shape, t) !in w.failed
    requires forall u :: sector <= u < t ==> Passes(w, u)
    requires Aged(w, r, w.clock, sector, t) && r.cacheLimit == w.cacheLimit
    requires (LastBlock(w.shape, sector, count) - FirstBlock(w.shape, sector) + 1) * BlockSize(w.shape) <= w.cacheLimit
    requires exists id :: id in r.pending && r.pending[id] == Fetch(BlockOf(w.shape, t), true)
    ensures Waiting(r, sector, count, BlockOf(w.shape, t), w.clock)
  {
    var b := BlockOf(w.shape, t);
    BlockOfMonotone(w.shape, sector, t);
    BlockOfMonotone(w.shape, t, sector + count - 1);
    assert Wanted(r, sector, count, b) by { assert BlockOf(r.shape, t) == b && !Dirty(r.overlays, t); }
    forall u | sector <= u < sector + count && BlockOf(w.shape, u) < b ensures u < t && Passes(r, u) {
      if t <= u { BlockOfMonotone(w.shape, t, u); }
      PassesBySame(w, r, u);
    }
    NewerIsTouched(w, r, sector, t);
  }

  lemma NewerIsTouched(w: Store, r: Store, sector: nat, t: nat)
    requires Aged(w, r, w.clock, sector, t) && AgesInv(w.cache, w.clock) && BlockOf(w.shape, t) !in w.cache
    ensures forall x :: x in r.cache && r.cache[x].age > w.clock ==> BlockOf(w.shape, sector) <= x < BlockOf(w.shape, t)
  {
    forall x | x in r.cache && r.cache[x].age > w.clock ensures BlockOf(w.shape, sector) <= x < BlockOf(w.shape, t) {
      var u :| sector <= u < t && BlockOf(w.shape, u) == x;
      BlockOfMonotone(w.shape, sector, u);
      BlockOfMonotone(w.shape, u, t);
    }
  }

  lemma WorkingSetFits(st: Store, sector: nat, count: nat)
    requires count > 0
    ensures var w := RetainWorkingSet(st, sector, count);
            && w == st.(cacheLimit := w.cacheLimit)
            && (LastBlock(w.shape, sector, count) - FirstBlock(w.shape, sector) + 1) * BlockSize(w.shape)
               <= w.cacheLimit
  {
    BlockOfMonotone(st.shape, sector, sector + count - 1);
  }

  lemma LoopWaits(w: Store, sector: nat, count: nat)
    requires AgesInv(w.cache, w.clock) && count > 0 && Missing(ReadLoop(ReadOne, w, sector, count, []))
    requires (LastBlock(w.shape, sector, count) - FirstBlock(w.shape, sector) + 1) * BlockSize(w.shape) <= w.cacheLimit
    ensures ReadLoop(ReadOne, w, sector, count, []).store.shape == w.shape
    ensures var a := ReadLoop(ReadOne, w, sector, count, []);
            Waiting(a.store, sector, count, a.result.error.block, w.clock)
  {
    assert Aged(w, w, w.clock, sector, sector);
    var t := LoopHalts(w, w, sector, count, [], w.clock);
    HaltIsWaiting(w, ReadLoop(ReadOne, w, sector, count, []).store, sector, count, t);
  }

  /** The attempt is the loop under a limit that fits the read's chunks. */
  lemma AttemptIsLoop(st: Store, sector: nat, count: nat)
    requires InRange(st.shape, sector, count)
    ensures ReadSectors(st, sector, count) == ReadLoop(ReadOne, RetainWorkingSet(st, sector, count), sector, count, [])
  {
  }

  lemma AttemptWaits(st: Store, sector: nat, count: nat)
    requires AgesInv(st.cache, st.clock) && Missing(ReadSectors(st, sector, count))
    ensures InRange(st.shape, sector, count) && ReadSectors(st, sector, count).store.shape == st.shape
    ensures var a := ReadSectors(st, sector, count); Waiting(a.store, sector, count, a.result.error.block, st.clock)
  {
    AttemptIsLoop(st, sector, count);
    WorkingSetFits(st, sector, count);
    LoopWaits(RetainWorkingSet(st, sector, count), sector, count);
  }

  // ------------------------------------------------------------------ eviction

  ghost function Newer(cache: Cache, clock: nat): set<nat> {
    set x | x in cache && cache[x].age > clock
  }

  /** Eviction never reaches the chunks newer than `clock` while they fit the limit. */
  lemma {:induction false} TrimKeepsNewer(cache: Cache, blockSize: nat, limit: nat, clock: nat)
    requires |Newer(cache, clock)| * blockSize <= limit
    ensures Newer(cache, clock) <= Trim(cache, blockSize, limit).Keys
    decreases |cache|
  {
    if |cache| * blockSize > limit && cache != map[] {
      var o := Oldest(cache);
      OldestIsOld(cache, blockSize, limit, clock);
      SmallerWithout(cache, o);
      assert Newer(cache - {o}, clock) == Newer(cache, clock);
      TrimKeepsNewer(cache - {o}, blockSize, limit, clock);
    }
  }

  lemma OldestIsOld(cache: Cache, blockSize: nat, limit: nat, clock: nat)
    requires |Newer(cache, clock)| * blockSize <= limit < |cache| * blockSize && cache != map[]
    ensures Oldest(cache) !in Newer(cache, clock)
  {
    assert Oldest(cache) in Newer(cache, clock) ==> cache.Keys == Newer(cache, clock);
    assert |cache| == |cache.Keys|;
  }

  lemma {:induction false} RangeBound(s: set<nat>, lo: nat, hi: nat)
    requires lo <= hi && forall x :: x in s ==> lo <= x < hi
    ensures |s| <= hi - lo
    decreases hi - lo
  {
    if lo < hi {
      RangeBound(s - {hi - 1}, lo, hi - 1);
    } else {
      assert s == {};
    }
  }

  /** The touched chunks and one newcomer fit the limit raised for this read. */
  lemma NewcomerFits(st: Store, sector: nat, count: nat, b: nat, clock: nat, c: nat, slot: Slot)
    requires count > 0 && Waiting(st, sector, count, b, clock)
    ensures |Newer(st.cache[c := slot], clock)| * BlockSize(st.shape) <= st.cacheLimit
  {
    var first := FirstBlock(st.shape, sector);
    var before, after := Newer(st.cache, clock), Newer(st.cache[c := slot], clock);
    RangeBound(before, first, b);
    assert after <= before + {c};
    SubsetSize(after, before + {c});
    TimesMonotone(|after|, LastBlock(st.shape, sector, count) - first + 1, BlockSize(st.shape));
  }

  // -------------------------------------------------------------------- events

  datatype Event = Arrived(id: nat, data: Chunk) | Broke(id: nat)

  ghost function After(st: Store, e: Event): Store {
    match e
    case Arrived(id, data) => Complete(st, id, data).0
    case Broke(id) => Fail(st, id).0
  }

  /** The event delivers chunk b. */
  ghost predicate Delivers(st: Store, e: Event, b: nat) {
    && e.Arrived? && e.id in st.queued && e.id in st.pending && st.pending[e.id].block == b
    && |e.data| == st.shape.sectorsPerBlock
  }

  /** The event ends chunk b's fetch without a usable answer. */
  ghost predicate Breaks(st: Store, e: Event, b: nat) {
    e.id in st.queued && e.id in st.pending && st.pending[e.id].block == b
    && (e.Broke? || |e.data| != st.shape.sectorsPerBlock)
  }

  ghost predicate HonestEvent(st: Store, base: Image, e: Event) {
    e.Arrived? ==> Honest(st, base, e.id, e.data)
  }

  lemma EventKeepsInv(st: Store, base: Image, e: Event)
    requires Inv(st, base) && HonestEvent(st, base, e)
    ensures Inv(After(st, e), base) && After(st, e).shape == st.shape && After(st, e).overlays == st.overlays
  {
    match e
    case Arrived(id, data) => CompleteKeepsInv(st, base, id, data);
    case Broke(id) => FailKeepsInv(st, base, id);
  }

  /** Whatever arrives or breaks next, every chunk before b is still there. */
  lemma EventKeepsReached(st: Store, sector: nat, count: nat, b: nat, clock: nat, e: Event)
    requires count > 0 && Waiting(st, sector, count, b, clock) && FetchesInv(st)
    ensures After(st, e).shape == st.shape && After(st, e).overlays == st.overlays
    ensures Reached(After(st, e), sector, count, b)
    ensures Delivers(st, e, b) ==> b in After(st, e).cache
    ensures Breaks(st, e, b) && st.pending[e.id].demanded ==> b in After(st, e).failed
  {
    var r := After(st, e);
    if e.Arrived? && e.id in st.pending && |e.data| == st.shape.sectorsPerBlock {
      ArrivalKeepsTouched(st, sector, count, b, clock, e.id, e.data);
    } else {
      assert r.cache == st.cache;
      FailureKeepsTouched(st, r, sector, count, b);
    }
  }

  lemma ArrivalKeepsTouched(st: Store, sector: nat, count: nat, b: nat, clock: nat, id: nat, data: Chunk)
    requires count > 0 && Waiting(st, sector, count, b, clock) && FetchesInv(st)
    requires id in st.pending && |data| == st.shape.sectorsPerBlock
    ensures var r := Complete(st, id, data).0;
            && r.shape == st.shape && r.overlays == st.overlays
            && Reached(r, sector, count, b) && (st.pending[id].block == b ==> b in r.cache)
  {
    var c, slot := st.pending[id].block, Slot(st.clock + 1, data);
    var cache := st.cache[c := slot];
    GoodCompletion(st, id, data);
    NewcomerFits(st, sector, count, b, clock, c, slot);
    TrimKeepsNewer(cache, BlockSize(st.shape), st.cacheLimit, clock);
    assert c in Newer(cache, clock);
    var r := Complete(st, id, data).0;
    forall t | sector <= t < sector + count && BlockOf(st.shape, t) < b ensures Passes(r, t) {
      assert Passes(st, t);
      if !Dirty(st.overlays, t) { assert BlockOf(st.shape, t) in Newer(cache, clock); }
    }
  }

  lemma FailureKeepsTouched(st: Store, r: Store, sector: nat, count: nat, b: nat)
    requires Reached(st, sector, count, b) && r.cache == st.cache && r.shape == st.shape && r.overlays == st.overlays
    requires forall x :: x in r.failed ==> x !in st.cache
    ensures Reached(r, sector, count, b)
  {
    forall t | sector <= t < sector + count && BlockOf(r.shape, t) < b ensures Passes(r, t) { assert Passes(st, t); }
  }

  /** The next attempt stops at b or later, and beyond b once b is cached. */
  lemma NextAttemptIsFurther(st: Store, sector: nat, count: nat, b: nat)
    requires Reached(st, sector, count, b) && Missing(ReadSectors(st, sector, count))
    ensures ReadSectors(st, sector, count).result.error.block >= b
    ensures b in st.cache ==> ReadSectors(st, sector, count).result.error.block > b
  {
    var w := RetainWorkingSet(st, sector, count);
    assert Aged(w, w, w.clock, sector, sector);
    var t := LoopHalts(w, w, sector, count, [], w.clock);
    assert Passes(w, t) <==> Passes(st, t);
  }

  // ---------------------------------------------------------------------- runs

  /** One outstanding read: an attempt, then after every event another, until it is over. */
  ghost function Retry(st: Store, sector: nat, count: nat, events: seq<Event>): Attempt
    decreases |events|
  {
    var a := ReadSectors(st, sector, count);
    if !Missing(a) || events == [] then a
    else Retry(After(a.store, events[0]), sector, count, events[1..])
  }

  /** How many of the events delivered the chunk the read was waiting for. */
  ghost function Served(st: Store, sector: nat, count: nat, events: seq<Event>): nat
    decreases |events|
  {
    var a := ReadSectors(st, sector, count);
    if !Missing(a) || events == [] then 0
    else (if Delivers(a.store, events[0], a.result.error.block) then 1 else 0)
         + Served(After(a.store, events[0]), sector, count, events[1..])
  }

  ghost predicate HonestRun(st: Store, base: Image, sector: nat, count: nat, events: seq<Event>)
    decreases |events|
  {
    var a := ReadSectors(st, sector, count);
    !Missing(a) || events == []
    || (HonestEvent(a.store, base, events[0]) && HonestRun(After(a.store, events[0]), base, sector, count, events[1..]))
  }

  lemma {:induction false} FrontAdvances(st: Store, base: Image, sector: nat, count: nat, events: seq<Event>, b: nat)
    requires Inv(st, base) && HonestRun(st, base, sector, count, events)
    requires Missing(ReadSectors(st, sector, count)) ==> b <= ReadSectors(st, sector, count).result.error.block
    requires Missing(Retry(st, sector, count, events))
    ensures b + Served(st, sector, count, events) <= Retry(st, sector, count, events).result.error.block
    decreases |events|
  {
    var a := ReadSectors(st, sector, count);
    if Missing(a) && events != [] {
      var front, next := a.result.error.block, After(a.store, events[0]);
      AttemptWaits(st, sector, count);
      ReadReturnsTheDisk(st, base, sector, count);
      EventKeepsInv(a.store, base, events[0]);
      EventKeepsReached(a.store, sector, count, front, st.clock, events[0]);
      var served := if Delivers(a.store, events[0], front) then 1 else 0;
      if Missing(ReadSectors(next, sector, count)) { NextAttemptIsFurther(next, sector, count, front); }
      FrontAdvances(next, base, sector, count, events[1..], front + served);
    }
  }

  /** A read of k chunks is over once k of the chunks it waited for have been delivered. */
  lemma ReadFinishesAfterItsChunks(st: Store, base: Image, sector: nat, count: nat, events: seq<Event>)
    requires Inv(st, base) && InRange(st.shape, sector, count) && HonestRun(st, base, sector, count, events)
    requires Served(st, sector, count, events)
             >= LastBlock(st.shape, sector, count) - FirstBlock(st.shape, sector) + 1
    ensures !Missing(Retry(st, sector, count, events))
  {
    if Missing(Retry(st, sector, count, events)) {
      var first := FirstBlock(st.shape, sector);
      FrontStart(st, sector, count);
      FrontAdvances(st, base, sector, count, events, first);
      FrontInRange(st, base, sector, count, events);
    }
  }

  lemma FrontStart(st: Store, sector: nat, count: nat)
    requires AgesInv(st.cache, st.clock)
    ensures var a := ReadSectors(st, sector, count);
            Missing(a) ==> FirstBlock(st.shape, sector) <= a.result.error.block
  {
    if Missing(ReadSectors(st, sector, count)) { AttemptWaits(st, sector, count); }
  }

  lemma {:induction false} FrontInRange(st: Store, base: Image, sector: nat, count: nat, events: seq<Event>)
    requires Inv(st, base) && InRange(st.shape, sector, count) && HonestRun(st, base, sector, count, events)
    requires Missing(Retry(st, sector, count, events))
    ensures Retry(st, sector, count, events).result.error.block <= LastBlock(st.shape, sector, count)
    decreases |events|
  {
    var a := ReadSectors(st, sector, count);
    AttemptWaits(st, sector, count);
    ReadReturnsTheDisk(st, base, sector, count);
    if events != [] {
      EventKeepsInv(a.store, base, events[0]);
      FrontInRange(After(a.store, events[0]), base, sector, count, events[1..]);
    }
  }

  /** An attempt that meets a failed chunk first reports the failure. */
  lemma FailedFrontIsReported(st: Store, sector: nat, count: nat, b: nat)
    requires InRange(st.shape, sector, count)
    requires Reached(st, sector, count, b) && Wanted(st, sector, count, b) && b in st.failed
    ensures ReadSectors(st, sector, count).result == Err(BackingFailed)
  {
    var w := RetainWorkingSet(st, sector, count);
    var t0 :| sector <= t0 < sector + count && BlockOf(st.shape, t0) == b && !Dirty(st.overlays, t0);
    AttemptIsLoop(st, sector, count);
    assert !Passes(w, t0);
    if ReadLoop(ReadOne, w, sector, count, []).result.Ok? {
      LoopPasses(w, w, sector, count, []);
    } else {
      assert Aged(w, w, w.clock, sector, sector);
      var t := LoopHalts(w, w, sector, count, [], w.clock);
      assert Passes(st, t) <==> Passes(w, t);
      BlockOfMonotone(st.shape, t, t0);
    }
  }

  /** If the awaited chunk breaks, the very next attempt reports the failure. */
  lemma BrokenChunkIsReported(st: Store, base: Image, sector: nat, count: nat, e: Event)
    requires Inv(st, base)
    requires var a := ReadSectors(st, sector, count);
             Missing(a) && Breaks(a.store, e, a.result.error.block)
    ensures ReadSectors(After(ReadSectors(st, sector, count).store, e), sector, count).result == Err(BackingFailed)
  {
    AttemptWaits(st, sector, count);
    ReadReturnsTheDisk(st, base, sector, count);
    var a := ReadSectors(st, sector, count);
    BrokenFront(a.store, sector, count, a.result.error.block, st.clock, e);
  }

  lemma BrokenFront(st: Store, sector: nat, count: nat, b: nat, clock: nat, e: Event)
    requires InRange(st.shape, sector, count) && Waiting(st, sector, count, b, clock) && FetchesInv(st)
             && Breaks(st, e, b)
    ensures ReadSectors(After(st, e), sector, count).result == Err(BackingFailed)
  {
    EventKeepsReached(st, sector, count, b, clock, e);
    AwaitedIsDemanded(st, e, b);
    FailedFrontIsReported(After(st, e), sector, count, b);
  }

  lemma AwaitedIsDemanded(st: Store, e: Event, b: nat)
    requires FetchesInv(st) && Breaks(st, e, b) && exists id :: id in st.pending && st.pending[id] == Fetch(b, true)
    ensures st.pending[e.id].demanded
  {
    var id :| id in st.pending && st.pending[id] == Fetch(b, true);
    assert id == e.id;
  }
}
