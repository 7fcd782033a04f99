/**
 Runs of the HTTP disk against a flat sequential disk, and the store as an object
 whose fields change in place, each method proved against the value-level function.
 */
module HttpDisk {
  import opened Wrappers
  import opened ChunkCache

  // ------------------------------------------------------------------------ runs

  datatype Op =
    | ReadAt(sector: nat, count: nat)
    | WriteAt(sector: nat, data: seq<Sector>)
    | Answer(id: nat, chunk: Chunk)
    | Broken(id: nat)
    | ResetAll
    | Discard
    | ForgetErrors

  ghost function Apply(st: Store, op: Op): Store {
    match op
    case ReadAt(sector, count) => ReadSectors(st, sector, count).store
    case WriteAt(sector, data) => (var r := WriteSectors(st, sector, data); if r.Ok? then r.value else st)
    case Answer(id, chunk) => Complete(st, id, chunk).0
    case Broken(id) => Fail(st, id).0
    case ResetAll => ResetRequests(st)
    case Discard => DiscardChanges(st)
    case ForgetErrors => ClearErrors(st)
  }

  ghost predicate HonestOp(st: Store, base: Image, op: Op) {
    op.Answer? ==> Honest(st, base, op.id, op.chunk)
  }

  /** The store after each operation of a run in which the server answers with the base's bytes. */
  ghost predicate IsRun(states: seq<Store>, base: Image, ops: seq<Op>) {
    && |states| == |ops| + 1
    && Inv(states[0], base)
    && forall i {:trigger ops[i]} :: 0 <= i < |ops| ==>
         HonestOp(states[i], base, ops[i]) && states[i + 1] == Apply(states[i], ops[i])
  }

  /** Sector t of a flat disk after the operations: the last write to it since the last discard. */
  ghost function Flat(shape: Shape, base: Image, initial: nat -> Sector, ops: seq<Op>, t: nat): Sector
    decreases |ops|
  {
    if ops == [] then initial(t)
    else OneSector(shape, base, ops[|ops| - 1], t, Flat(shape, base, initial, ops[..|ops| - 1], t))
  }

  /** What one operation makes of a sector of the flat disk. */
  ghost function OneSector(shape: Shape, base: Image, op: Op, t: nat, was: Sector): Sector {
    if op.WriteAt? && InRange(shape, op.sector, |op.data|) && op.sector <= t < op.sector + |op.data|
    then op.data[t - op.sector]
    else if op.Discard? then ChunkSector(shape, base(BlockOf(shape, t)), t)
    else was
  }

  lemma ReadKeeps(st: Store, base: Image, sector: nat, count: nat)
    requires Inv(st, base)
    ensures Inv(ReadSectors(st, sector, count).store, base)
    ensures ReadSectors(st, sector, count).store.overlays == st.overlays
            && ReadSectors(st, sector, count).store.shape == st.shape
  {
    ReadReturnsTheDisk(st, base, sector, count);
  }

  lemma ApplyKeepsInv(st: Store, base: Image, op: Op)
    requires Inv(st, base) && HonestOp(st, base, op)
    ensures Inv(Apply(st, op), base) && Apply(st, op).shape == st.shape
  {
    match op
    case ReadAt(sector, count) => ReadKeeps(st, base, sector, count);
    case WriteAt(sector, data) => if WriteSectors(st, sector, data).Ok? { WriteKeepsInv(st, base, sector, data); }
    case Answer(id, chunk) => CompleteKeepsInv(st, base, id, chunk);
    case Broken(id) => FailKeepsInv(st, base, id);
    case _ =>
  }

  /** What one operation does to sector t: only writes and discards matter. */
  lemma ApplyOnSector(st: Store, base: Image, op: Op, t: nat)
    requires Inv(st, base) && HonestOp(st, base, op)
    ensures DiskSector(st.shape, Apply(st, op).overlays, base, t)
            == OneSector(st.shape, base, op, t, DiskSector(st.shape, st.overlays, base, t))
  {
    if op.WriteAt? { WriteOnSector(st, base, op, t); } else { OtherOnSector(st, base, op, t); }
  }

  lemma WriteOnSector(st: Store, base: Image, op: Op, t: nat)
    requires Formed(st.shape, base) && op.WriteAt?
    ensures DiskSector(st.shape, Apply(st, op).overlays, base, t)
            == OneSector(st.shape, base, op, t, DiskSector(st.shape, st.overlays, base, t))
  {
    WriteFromSets(st.shape, st.overlays, base, op.sector, op.data, t);
  }

  lemma OtherOnSector(st: Store, base: Image, op: Op, t: nat)
    requires Inv(st, base) && HonestOp(st, base, op) && !op.WriteAt?
    ensures DiskSector(st.shape, Apply(st, op).overlays, base, t)
            == OneSector(st.shape, base, op, t, DiskSector(st.shape, st.overlays, base, t))
  {
    ApplyKeepsOverlays(st, base, op);
  }

  /** Nothing but a write or a discard touches the overlays. */
  lemma ApplyKeepsOverlays(st: Store, base: Image, op: Op)
    requires Inv(st, base) && HonestOp(st, base, op) && !op.WriteAt?
    ensures Apply(st, op).overlays == if op.Discard? then map[] else st.overlays
  {
    match op
    case ReadAt(sector, count) => ReadKeeps(st, base, sector, count);
    case Answer(id, chunk) => CompleteKeepsInv(st, base, id, chunk);
    case Broken(id) => FailKeepsInv(st, base, id);
    case _ =>
  }

  /** The invariant, and the shape the run started with. */
  ghost function Judge(st: Store, base: Image, shape: Shape): Verdict {
    if Inv(st, base) && st.shape == shape then Sound else Unsound
  }

  lemma StepKeepsInv(st: Store, base: Image, op: Op, next: Store, shape: Shape)
    requires Judge(st, base, shape).Sound? && HonestOp(st, base, op) && next == Apply(st, op)
    ensures Judge(next, base, shape).Sound?
  {
    ApplyKeepsInv(st, base, op);
  }

  lemma {:induction false} RunIsSound(states: seq<Store>, base: Image, ops: seq<Op>, n: nat)
    requires IsRun(states, base, ops) && n <= |ops|
    ensures Judge(states[n], base, states[0].shape).Sound?
  {
    if n > 0 {
      RunIsSound(states, base, ops, n - 1);
      StepKeepsInv(states[n - 1], base, ops[n - 1], states[n], states[0].shape);
    }
  }

  lemma RunKeepsInv(states: seq<Store>, base: Image, ops: seq<Op>, n: nat)
    requires IsRun(states, base, ops) && n <= |ops|
    ensures Inv(states[n], base) && states[n].shape == states[0].shape
  {
    RunIsSound(states, base, ops, n);
  }

  lemma StepOnSector(states: seq<Store>, base: Image, ops: seq<Op>, n: nat, t: nat)
    requires IsRun(states, base, ops) && n < |ops|
    ensures DiskSector(states[0].shape, states[n + 1].overlays, base, t)
            == OneSector(states[0].shape, base, ops[n], t, DiskSector(states[0].shape, states[n].overlays, base, t))
  {
    RunKeepsInv(states, base, ops, n);
    ApplyOnSector(states[n], base, ops[n], t);
  }

  /** Over every run the contents are those of the flat disk, whatever was fetched, evicted or failed. */
  lemma {:induction false} RunRefinesFlatDisk(states: seq<Store>, base: Image, ops: seq<Op>, initial: nat -> Sector,
                                              n: nat, t: nat)
    requires IsRun(states, base, ops) && n <= |ops|
    requires initial(t) == DiskSector(states[0].shape, states[0].overlays, base, t)
    ensures DiskSector(states[0].shape, states[n].overlays, base, t)
            == Flat(states[0].shape, base, initial, ops[..n], t)
  {
    if n > 0 {
      RunRefinesFlatDisk(states, base, ops, initial, n - 1, t);
      assert ops[..n][..n - 1] == ops[..n - 1];
      StepOnSector(states, base, ops, n - 1, t);
    }
  }

  /** Every successful read of a run returns the flat disk's sectors at that moment. */
  lemma ReadsSeeTheFlatDisk(states: seq<Store>, base: Image, ops: seq<Op>, initial: nat -> Sector, n: nat, i: nat)
    requires IsRun(states, base, ops) && n < |ops| && ops[n].ReadAt?
    requires initial(ops[n].sector + i) == DiskSector(states[0].shape, states[0].overlays, base, ops[n].sector + i)
    requires ReadSectors(states[n], ops[n].sector, ops[n].count).result.Ok? && i < ops[n].count
    ensures var data := ReadSectors(states[n], ops[n].sector, ops[n].count).result.value;
            |data| == ops[n].count && data[i] == Flat(states[0].shape, base, initial, ops[..n], ops[n].sector + i)
  {
    var sector, count := ops[n].sector, ops[n].count;
    FlatNow(states, base, ops, initial, n, sector + i);
    ReadAtSector(states[n], base, sector, count, i);
  }

  lemma FlatNow(states: seq<Store>, base: Image, ops: seq<Op>, initial: nat -> Sector, n: nat, t: nat)
    requires IsRun(states, base, ops) && n <= |ops|
    requires initial(t) == DiskSector(states[0].shape, states[0].overlays, base, t)
    ensures Inv(states[n], base)
    ensures Flat(states[0].shape, base, initial, ops[..n], t)
            == DiskSector(states[n].shape, states[n].overlays, base, t)
  {
    RunRefinesFlatDisk(states, base, ops, initial, n, t);
    RunKeepsInv(states, base, ops, n);
  }

  /** What a successful read returns, one sector at a time. */
  lemma ReadAtSector(st: Store, base: Image, sector: nat, count: nat, i: nat)
    requires Inv(st, base) && ReadSectors(st, sector, count).result.Ok? && i < count
    ensures var data := ReadSectors(st, sector, count).result.value;
            |data| == count && data[i] == DiskSector(st.shape, st.overlays, base, sector + i)
  {
    ReadReturnsTheDisk(st, base, sector, count);
    CopiesAt(st, base, sector, ReadSectors(st, sector, count).result.value, i);
  }

  lemma CopiesAt(st: Store, base: Image, sector: nat, data: seq<Sector>, i: nat)
    requires Copies(st, base, sector, data) && i < |data|
    ensures data[i] == DiskSector(st.shape, st.overlays, base, sector + i)
  {
  }

  // --------------------------------------------------------------- retired fetches

  /** The id was handed out and its fetch is over. */
  ghost predicate Retired(st: Store, id: nat) {
    id <= st.nextId && id !in st.pending && id !in st.queued
  }

  lemma ReadKeepsRetired(st: Store, id: nat, sector: nat, count: nat)
    requires Retired(st, id)
    ensures Retired(ReadSectors(st, sector, count).store, id)
  {
    if InRange(st.shape, sector, count) {
      forall s: Store, t: nat | Retired(s, id) ensures Retired(ReadOne(s, t).store, id) { TurnKeepsRetired(s, id, t); }
      LoopKeeps(ReadOne, (s: Store) => Retired(s, id), RetainWorkingSet(st, sector, count), sector, count, []);
    }
  }

  lemma TurnKeepsRetired(st: Store, id: nat, t: nat)
    requires Retired(st, id)
    ensures Retired(ReadOne(st, t).store, id)
  {
  }

  /** A retired id stays retired, and an answer under it changes nothing at all. */
  lemma {:induction false} RetiredForever(states: seq<Store>, base: Image, ops: seq<Op>, id: nat, m: nat, n: nat,
                                          chunk: Chunk)
    requires IsRun(states, base, ops) && m <= n <= |ops| && Retired(states[m], id)
    ensures Retired(states[n], id)
    ensures Complete(states[n], id, chunk) == (states[n], Err(UnknownRequest))
    ensures Fail(states[n], id) == (states[n], Err(UnknownRequest))
    decreases n
  {
    if m < n {
      RetiredForever(states, base, ops, id, m, n - 1, chunk);
      StepKeepsRetired(states[n - 1], ops[n - 1], id);
    }
    assert states[n].queued - {id} == states[n].queued;
  }

  lemma StepKeepsRetired(st: Store, op: Op, id: nat)
    requires Retired(st, id)
    ensures Retired(Apply(st, op), id)
  {
    match op
    case ReadAt(sector, count) => ReadKeepsRetired(st, id, sector, count);
    case _ =>
  }

  /** Ending a fetch, or resetting, retires it. */
  lemma EndingRetires(st: Store, id: nat, chunk: Chunk)
    requires FetchesInv(st) && id in st.pending
    ensures Retired(Complete(st, id, chunk).0, id) && Retired(Fail(st, id).0, id)
    ensures Retired(ResetRequests(st), id) && Retired(DiscardChanges(st), id)
  {
  }

  /** A store just opened on a manifest. */
  function Opened(shape: Shape, cacheLimit: nat): Store {
    var limit := if cacheLimit < BlockSize(shape) then BlockSize(shape) else cacheLimit;
    Store(shape, limit, 0, map[], map[], {}, map[], 0, {})
  }

  lemma PrefetchKeepsInv(st: Store, base: Image, block: nat)
    requires Inv(st, base) && st.failed == {} && RequestBlock(st, block, false).Ok?
    ensures Inv(RequestBlock(st, block, false).value, base) && RequestBlock(st, block, false).value.failed == {}
  {
    RequestKeepsFetches(st, block, false);
    RequestChangesOnlyFetches(st, block, false);
  }

  function Prefetched(st: Store, blocks: seq<nat>): Result<Store, StorageError>
    decreases |blocks|
  {
    if blocks == [] then Ok(st)
    else
      match RequestBlock(st, blocks[0], false)
      case Err(e) => Err(e)
      case Ok(next) => Prefetched(next, blocks[1..])
  }

  /** Every store a manifest opens starts a run. */
  lemma {:induction false} PrefetchingKeepsInv(st: Store, base: Image, blocks: seq<nat>)
    requires Inv(st, base) && st.failed == {} && Prefetched(st, blocks).Ok?
    ensures Inv(Prefetched(st, blocks).value, base)
    decreases |blocks|
  {
    if blocks != [] {
      PrefetchKeepsInv(st, base, blocks[0]);
      PrefetchingKeepsInv(RequestBlock(st, blocks[0], false).value, base, blocks[1..]);
    }
  }

  lemma OpenedIsInv(shape: Shape, cacheLimit: nat, base: Image)
    requires Formed(shape, base)
    ensures Inv(Opened(shape, cacheLimit), base)
  {
  }

  lemma ReadLoopStep(st: Store, sector: nat, count: nat, copied: seq<Sector>)
    requires |copied| < count
    ensures var turn := ReadOne(st, sector + |copied|);
            ReadLoop(ReadOne, st, sector, count, copied)
            == if turn.Stopped? then Attempt(turn.store, Err(turn.error))
               else ReadLoop(ReadOne, turn.store, sector, count, copied + [turn.sector])
  {
  }

  lemma TrimStep(cache: Cache, blockSize: nat, limit: nat, o: nat)
    requires |cache| * blockSize > limit && o in cache && o == Oldest(cache)
    ensures Trim(cache, blockSize, limit) == Trim(cache - {o}, blockSize, limit) && |cache - {o}| < |cache|
  {
    SmallerWithout(cache, o);
  }

  // ---------------------------------------------------------------------- the object

  ghost predicate OneFetchEach(pending: map<nat, Fetch>) {
    forall i, j :: i in pending && j in pending && pending[i].block == pending[j].block ==> i == j
  }

  class HttpBlockStore {
    const shape: Shape
    var cacheLimit: nat
    var clock: nat
    var cache: Cache
    var overlays: map<nat, Overlay>
    var failed: set<nat>
    var pending: map<nat, Fetch>
    var nextId: nat
    var queued: set<nat>

    ghost function State(): Store
      reads this
    {
      Store(shape, cacheLimit, clock, cache, overlays, failed, pending, nextId, queued)
    }

    constructor (shape: Shape, cacheLimit: nat)
      ensures State() == Opened(shape, cacheLimit)
    {
      this.shape := shape;
      this.cacheLimit := if cacheLimit < BlockSize(shape) then BlockSize(shape) else cacheLimit;
      clock, cache, overlays, failed := 0, map[], map[], {};
      pending, nextId, queued := map[], 0, {};
    }

    method Prefetch(blocks: seq<nat>) returns (r: Result<(), StorageError>)
      requires FetchesInv(State()) && failed == {}
      modifies this
      ensures var want := Prefetched(old(State()), blocks);
              if want.Ok? then r == Ok(()) && State() == want.value else r == Err(want.error)
    {
      ghost var start := State();
      for i := 0 to |blocks|
        invariant FetchesInv(State()) && failed == {}
        invariant Prefetched(start, blocks) == Prefetched(State(), blocks[i..])
      {
        assert blocks[i..][1..] == blocks[i + 1..];
        ghost var before := State();
        r := RequestBlock(blocks[i], false);
        if r.Err? { return; }
        RequestKeepsFetches(before, blocks[i], false);
        RequestChangesOnlyFetches(before, blocks[i], false);
      }
      r := Ok(());
    }

    /** The pending fetch of a block, if there is one. */
    method FindPending(block: nat) returns (id: Option<nat>)
      ensures id.Some? ==> id.value in pending && pending[id.value].block == block
      ensures id.None? ==> forall j :: j in pending ==> pending[j].block != block
    {
      var rest := pending.Keys;
      while rest != {}
        invariant rest <= pending.Keys
        invariant forall j :: j in pending && j !in rest ==> pending[j].block != block
      {
        var j :| j in rest;
        if pending[j].block == block { return Some(j); }
        rest := rest - {j};
      }
      id := None;
    }

    method RequestBlock(block: nat, demanded: bool) returns (r: Result<(), StorageError>)
      requires OneFetchEach(pending)
      modifies this
      ensures var want := ChunkCache.RequestBlock(old(State()), block, demanded);
              if want.Ok? then r == Ok(()) && State() == want.value
              else r == Err(want.error) && State() == old(State())
    {
      if block >= shape.blockCount { return Err(OutOfRange); }
      if block in cache { return Ok(()); }
      var found := FindPending(block);
      if found.Some? {
        ghost var before := State();
        pending := pending[found.value := Fetch(block, pending[found.value].demanded || demanded)];
        assert pending == ChunkCache.RequestBlock(before, block, demanded).value.pending;
        return Ok(());
      }
      nextId := nextId + 1;
      queued := queued + {nextId};
      pending := pending[nextId := Fetch(block, demanded)];
      r := Ok(());
    }

    method RetainWorkingSet(sector: nat, count: nat)
      requires count > 0 && shape.sectorsPerBlock > 0
      modifies this
      ensures State() == ChunkCache.RetainWorkingSet(old(State()), sector, count)
    {
      var blocks := BlockOf(shape, sector + count - 1) - BlockOf(shape, sector) + 1;
      var bytes := if blocks < 0 then 0 else blocks * BlockSize(shape);
      if cacheLimit < bytes { cacheLimit := bytes; }
    }

    method ReadSectors(sector: nat, count: nat) returns (r: Result<seq<Sector>, StorageError>)
      requires OneFetchEach(pending) && shape.sectorsPerBlock > 0
      modifies this
      ensures var want := ChunkCache.ReadSectors(old(State()), sector, count);
              r == want.result && State() == want.store
    {
      if !InRange(shape, sector, count) { return Err(OutOfRange); }
      RetainWorkingSet(sector, count);
      ghost var start := State();
      var copied: seq<Sector> := [];
      while |copied| < count
        invariant |copied| <= count && pending == old(pending)
        invariant ReadLoop(ReadOne, start, sector, count, []) == ReadLoop(ReadOne, State(), sector, count, copied)
      {
        ReadLoopStep(State(), sector, count, copied);
        var t := ReadTurn(sector + |copied|);
        if t.Err? { return Err(t.error); }
        copied := copied + [t.value];
      }
      r := Ok(copied);
    }

    /** One sector: the overlay's, the cached chunk's, or the reason there is none yet. */
    method ReadTurn(t: nat) returns (r: Result<Sector, StorageError>)
      requires OneFetchEach(pending)
      modifies this
      ensures match ReadOne(old(State()), t)
              case Copied(store, data) => State() == store && r == Ok(data) && pending == old(pending)
              case Stopped(store, error) => State() == store && r == Err(error)
    {
      if Dirty(overlays, t) { return Ok(ClusterSector(overlays[t / SECTORS_PER_CLUSTER], t)); }
      var b := BlockOf(shape, t);
      if b in failed { return Err(BackingFailed); }
      if b !in cache {
        var asked := RequestBlock(b, true);
        return if asked.Err? then Err(asked.error) else Err(MissingBlock(b));
      }
      clock := clock + 1;
      cache := cache[b := cache[b].(age := clock)];
      r := Ok(ChunkSector(shape, cache[b].data, t));
    }

    method WriteSectors(sector: nat, data: seq<Sector>) returns (r: Result<(), StorageError>)
      modifies this
      ensures var want := ChunkCache.WriteSectors(old(State()), sector, data);
              if want.Ok? then r == Ok(()) && State() == want.value
              else r == Err(want.error) && State() == old(State())
    {
      if !InRange(shape, sector, |data|) { return Err(OutOfRange); }
      ghost var before := overlays;
      for i := 0 to |data|
        invariant State() == old(State()).(overlays := overlays)
        invariant overlays == WriteFrom(before, sector, data[..i])
      {
        assert data[..i + 1][..i] == data[..i];
        var c, k := (sector + i) / SECTORS_PER_CLUSTER, (sector + i) % SECTORS_PER_CLUSTER;
        var o := if c in overlays then overlays[c] else BlankOverlay();
        overlays := overlays[c := Cluster(o.sectors[k := data[i]], o.dirty[k := true])];
      }
      assert data[..|data|] == data;
      r := Ok(());
    }

    method FindOldest() returns (b: nat)
      requires cache != map[]
      ensures IsOldest(cache, b)
    {
      var rest := cache.Keys;
      b :| b in rest;
      while rest != {}
        invariant b in cache && rest <= cache.Keys
        invariant forall c :: c in cache && c !in rest ==> cache[b].age <= cache[c].age
      {
        var c :| c in rest;
        if cache[c].age < cache[b].age { b := c; }
        rest := rest - {c};
      }
    }

    method TrimCache()
      requires AgesInv(cache, clock)
      modifies this
      ensures State() == old(State()).(cache := Trim(old(cache), BlockSize(shape), cacheLimit))
    {
      ghost var before := cache;
      while |cache| * BlockSize(shape) > cacheLimit && cache != map[]
        invariant AgesInv(cache, clock) && State() == old(State()).(cache := cache)
        invariant Trim(before, BlockSize(shape), cacheLimit) == Trim(cache, BlockSize(shape), cacheLimit)
        decreases |cache|
      {
        var o := FindOldest();
        TrimStep(cache, BlockSize(shape), cacheLimit, o);
        cache := cache - {o};
      }
    }

    method Complete(id: nat, data: Chunk) returns (r: Result<(), StorageError>)
      requires AgesInv(cache, clock)
      modifies this
      ensures (State(), r) == ChunkCache.Complete(old(State()), id, data)
    {
      if id !in queued || id !in pending {
        queued := queued - {id};
        return Err(UnknownRequest);
      }
      var fetch := pending[id];
      queued, pending := queued - {id}, pending - {id};
      if |data| != shape.sectorsPerBlock {
        if fetch.demanded { failed := failed + {fetch.block}; }
        return Err(InvalidResponse);
      }
      assert State() == Retire(old(State()), id, false);
      Admit(fetch.block, data);
      r := Ok(());
    }

    method Admit(block: nat, data: Chunk)
      requires AgesInv(cache, clock)
      modifies this
      ensures State() == Admitted(old(State()), block, data)
    {
      ghost var grown := cache[block := Slot(clock + 1, data)];
      ghost var goal := Admitted(State(), block, data);
      NewestKeepsAges(cache, clock, block, data);
      clock := clock + 1;
      cache := cache[block := Slot(clock, data)];
      assert cache == grown;
      assert goal == State().(cache := Trim(grown, BlockSize(shape), cacheLimit));
      TrimCache();
    }

    method Fail(id: nat) returns (r: Result<(), StorageError>)
      modifies this
      ensures (State(), r) == ChunkCache.Fail(old(State()), id)
    {
      if id !in queued || id !in pending {
        queued := queued - {id};
        return Err(UnknownRequest);
      }
      var fetch := pending[id];
      queued, pending := queued - {id}, pending - {id};
      if fetch.demanded { failed := failed + {fetch.block}; }
      r := Ok(());
    }

    method ResetRequests()
      modifies this
      ensures State() == ChunkCache.ResetRequests(old(State()))
    {
      pending, queued, failed := map[], {}, {};
    }

    method DiscardChanges()
      modifies this
      ensures State() == ChunkCache.DiscardChanges(old(State()))
    {
      ResetRequests();
      overlays := map[];
    }

    method ClearErrors()
      modifies this
      ensures State() == ChunkCache.ClearErrors(old(State()))
    {
      failed := {};
    }
  }
}
