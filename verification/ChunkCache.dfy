/**
 The copy-on-write HTTP disk of src/block_storage.rs as a value: an LRU cache of
 immutable chunks, sparse dirty-sector overlays, outstanding fetches and failures.
 Sectors are 512-byte payloads; request ids and the LRU clock do not wrap.
 */
module ChunkCache {
  import opened Wrappers

  const SECTOR_SIZE: nat := 512
  const SECTORS_PER_CLUSTER: nat := 8

  type Sector(==,!new) = seq<int>
  type Chunk = seq<Sector>

  /** One cached chunk and the clock of its last use. */
  datatype Slot = Slot(age: nat, data: Chunk)

  type Cache = map<nat, Slot>

  /** A 4096-byte cluster of which only the dirty sectors mean anything. */
  datatype Cluster = Cluster(sectors: seq<Sector>, dirty: seq<bool>)

  type Overlay = c: Cluster | |c.sectors| == SECTORS_PER_CLUSTER && |c.dirty| == SECTORS_PER_CLUSTER
    witness Cluster([[], [], [], [], [], [], [], []], [false, false, false, false, false, false, false, false])

  /** A fetch in flight; only a demanded one may turn into an I/O error. */
  datatype Fetch = Fetch(block: nat, demanded: bool)

  datatype Shape = Shape(sectorsPerBlock: nat, blockCount: nat)

  datatype Store = Store(
    shape: Shape, cacheLimit: nat, clock: nat, cache: Cache, overlays: map<nat, Overlay>,
    failed: set<nat>, pending: map<nat, Fetch>, nextId: nat, queued: set<nat>)

  datatype StorageError = InvalidResponse | UnknownRequest | MissingBlock(block: nat) | OutOfRange | BackingFailed

  type Image = nat -> Chunk

  // ------------------------------------------------------------------ geometry

  function BlockSize(shape: Shape): nat {
    shape.sectorsPerBlock * SECTOR_SIZE
  }

  function Capacity(shape: Shape): nat {
    shape.blockCount * shape.sectorsPerBlock
  }

  function BlockOf(shape: Shape, sector: nat): nat {
    if shape.sectorsPerBlock == 0 then 0 else sector / shape.sectorsPerBlock
  }

  /** Sector t of its chunk; a formed chunk always has it. */
  function ChunkSector(shape: Shape, data: Chunk, t: nat): Sector {
    if shape.sectorsPerBlock > 0 && t % shape.sectorsPerBlock < |data| then data[t % shape.sectorsPerBlock] else []
  }

  /** Sector t of its cluster. */
  function ClusterSector(o: Overlay, t: nat): Sector {
    o.sectors[t % SECTORS_PER_CLUSTER]
  }

  predicate InRange(shape: Shape, sector: nat, count: nat) {
    count > 0 && sector + count <= Capacity(shape)
  }

  predicate Dirty(overlays: map<nat, Overlay>, sector: nat) {
    && sector / SECTORS_PER_CLUSTER in overlays
    && overlays[sector / SECTORS_PER_CLUSTER].dirty[sector % SECTORS_PER_CLUSTER]
  }

  // --------------------------------------------------------------- the flat disk

  /** The contents the guest must see: the latest write of a sector, or the base image. */
  ghost function DiskSector(shape: Shape, overlays: map<nat, Overlay>, base: Image, sector: nat): Sector
  {
    if Dirty(overlays, sector) then ClusterSector(overlays[sector / SECTORS_PER_CLUSTER], sector)
    else ChunkSector(shape, base(BlockOf(shape, sector)), sector)
  }

  ghost predicate Formed(shape: Shape, base: Image) {
    shape.sectorsPerBlock > 0 && forall b :: |base(b)| == shape.sectorsPerBlock
  }

  /** Cached chunks are the base's, everything fits, and no chunk is in two states at once. */
  ghost predicate Inv(st: Store, base: Image) {
    Clean(st, base) && FetchesInv(st) && AgesInv(st.cache, st.clock) && WithinLimit(st)
  }

  ghost predicate Clean(st: Store, base: Image) {
    && Formed(st.shape, base)
    && forall b :: b in st.cache ==> b < st.shape.blockCount && st.cache[b].data == base(b)
  }

  ghost predicate WithinLimit(st: Store) {
    |st.cache| * BlockSize(st.shape) <= st.cacheLimit && BlockSize(st.shape) <= st.cacheLimit
  }

  ghost predicate FetchesInv(st: Store) {
    && st.queued == st.pending.Keys
    && (forall id :: id in st.pending ==> id <= st.nextId && st.pending[id].block < st.shape.blockCount)
    && (forall i, j :: i in st.pending && j in st.pending && st.pending[i].block == st.pending[j].block ==> i == j)
    && (forall id :: id in st.pending ==> st.pending[id].block !in st.cache && st.pending[id].block !in st.failed)
    && (forall b :: b in st.failed ==> b !in st.cache)
  }

  ghost predicate AgesInv(cache: Cache, clock: nat) {
    && (forall b :: b in cache ==> cache[b].age <= clock)
    && (forall b, c :: b in cache && c in cache && cache[b].age == cache[c].age ==> b == c)
  }

  // ----------------------------------------------------------------- operations

  function RetainWorkingSet(st: Store, sector: nat, count: nat): Store
    requires count > 0
  {
    var blocks := BlockOf(st.shape, sector + count - 1) - BlockOf(st.shape, sector) + 1;
    var bytes := if blocks < 0 then 0 else blocks * BlockSize(st.shape);
    if st.cacheLimit < bytes then st.(cacheLimit := bytes) else st
  }

  /** Joins or starts the fetch of a chunk that is not cached. */
  function RequestBlock(st: Store, block: nat, demanded: bool): Result<Store, StorageError> {
    if block >= st.shape.blockCount then Err(OutOfRange)
    else if block in st.cache then Ok(st)
    else if exists id :: id in st.pending && st.pending[id].block == block then
      Ok(st.(pending := map id | id in st.pending ::
               if st.pending[id].block == block then Fetch(block, st.pending[id].demanded || demanded)
               else st.pending[id]))
    else
      var id := st.nextId + 1;
      Ok(st.(nextId := id, queued := st.queued + {id}, pending := st.pending[id := Fetch(block, demanded)]))
  }

  function Touch(st: Store, block: nat): Store
    requires block in st.cache
  {
    st.(clock := st.clock + 1, cache := st.cache[block := st.cache[block].(age := st.clock + 1)])
  }

  datatype Attempt = Attempt(store: Store, result: Result<seq<Sector>, StorageError>)

  /** One turn of the sector loop: a sector copied, or the reason to stop. */
  datatype Turn = Copied(store: Store, sector: Sector) | Stopped(store: Store, error: StorageError)

  function ReadOne(st: Store, t: nat): Turn {
    if Dirty(st.overlays, t) then Copied(st, ClusterSector(st.overlays[t / SECTORS_PER_CLUSTER], t))
    else
      var b := BlockOf(st.shape, t);
      if b in st.failed then Stopped(st, BackingFailed)
      else if b !in st.cache then
        var r := RequestBlock(st, b, true);
        if r.Err? then Stopped(st, r.error) else Stopped(r.value, MissingBlock(b))
      else Copied(Touch(st, b), ChunkSector(st.shape, st.cache[b].data, t))
  }

  /** The sector loop of read_sectors, from the sector after those already copied. */
  function ReadLoop(turn: (Store, nat) -> Turn, st: Store, sector: nat, count: nat, copied: seq<Sector>): Attempt
    requires |copied| <= count
    decreases count - |copied|
  {
    if |copied| == count then Attempt(st, Ok(copied))
    else
      match turn(st, sector + |copied|)
      case Stopped(st', error) => Attempt(st', Err(error))
      case Copied(st', data) => ReadLoop(turn, st', sector, count, copied + [data])
  }

  function ReadSectors(st: Store, sector: nat, count: nat): Attempt {
    if !InRange(st.shape, sector, count) then Attempt(st, Err(OutOfRange))
    else ReadLoop(ReadOne, RetainWorkingSet(st, sector, count), sector, count, [])
  }

  function BlankOverlay(): Overlay {
    Cluster([[], [], [], [], [], [], [], []], [false, false, false, false, false, false, false, false])
  }

  function WriteOne(overlays: map<nat, Overlay>, sector: nat, data: Sector): map<nat, Overlay>
  {
    var c, k := sector / SECTORS_PER_CLUSTER, sector % SECTORS_PER_CLUSTER;
    var o := if c in overlays then overlays[c] else BlankOverlay();
    overlays[c := Cluster(o.sectors[k := data], o.dirty[k := true])]
  }

  function WriteFrom(overlays: map<nat, Overlay>, sector: nat, data: seq<Sector>): (r: map<nat, Overlay>)
    decreases |data|
  {
    if data == [] then overlays
    else WriteOne(WriteFrom(overlays, sector, data[..|data| - 1]), sector + |data| - 1, data[|data| - 1])
  }

  function WriteSectors(st: Store, sector: nat, data: seq<Sector>): Result<Store, StorageError>
  {
    if !InRange(st.shape, sector, |data|) then Err(OutOfRange)
    else Ok(st.(overlays := WriteFrom(st.overlays, sector, data)))
  }

  ghost predicate IsOldest(cache: Cache, b: nat) {
    b in cache && forall c :: c in cache ==> cache[b].age <= cache[c].age
  }

  lemma {:induction false} OldestExists(cache: Cache)
    requires cache != map[]
    ensures exists b :: IsOldest(cache, b)
    decreases |cache|
  {
    var b :| b in cache;
    var rest := cache - {b};
    if rest == map[] {
      assert forall c :: c in cache && c != b ==> c in rest;
      assert IsOldest(cache, b);
    } else {
      assert cache.Keys == rest.Keys + {b};
      assert |cache.Keys| == |cache| && |rest.Keys| == |rest|;
      OldestExists(rest);
      var c :| IsOldest(rest, c);
      assert IsOldest(cache, if cache[b].age <= cache[c].age then b else c);
    }
  }

  ghost function Oldest(cache: Cache): (b: nat)
    requires cache != map[]
    ensures IsOldest(cache, b)
  {
    OldestExists(cache);
    var b :| IsOldest(cache, b);
    b
  }

  /** trim_cache: drop the least recently used chunk while the cache is over its limit. */
  ghost function Trim(cache: Cache, blockSize: nat, limit: nat): Cache
    decreases |cache|
  {
    if |cache| * blockSize <= limit || cache == map[] then cache
    else
      SmallerWithout(cache, Oldest(cache));
      Trim(cache - {Oldest(cache)}, blockSize, limit)
  }

  lemma SmallerWithout(cache: Cache, b: nat)
    requires b in cache
    ensures |cache - {b}| == |cache| - 1
  {
    assert (cache - {b}).Keys == cache.Keys - {b};
    assert |cache.Keys| == |cache| && |(cache - {b}).Keys| == |cache - {b}|;
  }

  /** The fetch is over: forget its id, and its failure when somebody waits for it. */
  function Retire(st: Store, id: nat, blame: bool): Store
    requires id in st.pending
  {
    st.(queued := st.queued - {id}, pending := st.pending - {id},
        failed := if blame && st.pending[id].demanded then st.failed + {st.pending[id].block} else st.failed)
  }

  ghost function Complete(st: Store, id: nat, data: Chunk): (Store, Result<(), StorageError>) {
    if id !in st.queued || id !in st.pending then (st.(queued := st.queued - {id}), Err(UnknownRequest))
    else if |data| != st.shape.sectorsPerBlock then (Retire(st, id, true), Err(InvalidResponse))
    else
      (Admitted(Retire(st, id, false), st.pending[id].block, data), Ok(()))
  }

  /** The chunk enters as the newest, and the cache is trimmed. */
  ghost function Admitted(st: Store, block: nat, data: Chunk): Store {
    st.(clock := st.clock + 1,
        cache := Trim(st.cache[block := Slot(st.clock + 1, data)], BlockSize(st.shape), st.cacheLimit))
  }

  function Fail(st: Store, id: nat): (Store, Result<(), StorageError>) {
    if id !in st.queued || id !in st.pending then (st.(queued := st.queued - {id}), Err(UnknownRequest))
    else (Retire(st, id, true), Ok(()))
  }

  function ResetRequests(st: Store): Store {
    st.(pending := map[], queued := {}, failed := {})
  }

  function DiscardChanges(st: Store): Store {
    ResetRequests(st).(overlays := map[])
  }

  function ClearErrors(st: Store): Store {
    st.(failed := {})
  }

  // ------------------------------------------------------- what a read changes

  /** Reading touches ages, raises the limit and may ask for a chunk; contents stay. */
  ghost predicate SameContents(a: Store, b: Store) {
    && b.shape == a.shape && b.overlays == a.overlays && b.failed == a.failed
    && b.cache.Keys == a.cache.Keys
    && forall x :: x in a.cache ==> b.cache[x].data == a.cache[x].data
  }

  /** Joining a fetch changes only whether somebody waits for it. */
  lemma JoinKeepsFetches(st: Store, pending: map<nat, Fetch>)
    requires FetchesInv(st) && pending.Keys == st.pending.Keys
    requires forall id :: id in st.pending ==> pending[id].block == st.pending[id].block
    ensures FetchesInv(st.(pending := pending))
  {
  }

  lemma StartKeepsFetches(st: Store, block: nat, demanded: bool)
    requires FetchesInv(st) && block < st.shape.blockCount && block !in st.cache && block !in st.failed
    requires forall id :: id in st.pending ==> st.pending[id].block != block
    ensures var id := st.nextId + 1;
            FetchesInv(st.(nextId := id, queued := st.queued + {id},
                           pending := st.pending[id := Fetch(block, demanded)]))
  {
  }

  lemma RequestKeepsFetches(st: Store, block: nat, demanded: bool)
    requires FetchesInv(st) && block !in st.failed && RequestBlock(st, block, demanded).Ok?
    ensures FetchesInv(RequestBlock(st, block, demanded).value)
  {
    if block !in st.cache {
      if exists id :: id in st.pending && st.pending[id].block == block {
        JoinedFetch(st, block, demanded);
        JoinKeepsFetches(st, RequestBlock(st, block, demanded).value.pending);
      } else {
        StartKeepsFetches(st, block, demanded);
      }
    }
  }

  lemma JoinedFetch(st: Store, block: nat, demanded: bool)
    requires block !in st.cache && RequestBlock(st, block, demanded).Ok?
    requires exists id :: id in st.pending && st.pending[id].block == block
    ensures var r := RequestBlock(st, block, demanded).value;
            && r == st.(pending := r.pending) && r.pending.Keys == st.pending.Keys
            && forall id :: id in st.pending ==> r.pending[id].block == st.pending[id].block
  {
  }

  lemma NewestKeepsAges(cache: Cache, clock: nat, block: nat, data: Chunk)
    requires AgesInv(cache, clock)
    ensures AgesInv(cache[block := Slot(clock + 1, data)], clock + 1)
  {
  }

  lemma RequestChangesOnlyFetches(st: Store, block: nat, demanded: bool)
    requires RequestBlock(st, block, demanded).Ok?
    ensures var r := RequestBlock(st, block, demanded).value;
            r == st.(pending := r.pending, nextId := r.nextId, queued := r.queued)
  {
  }

  lemma SameSize(a: Cache, b: Cache)
    requires a.Keys == b.Keys
    ensures |a| == |b|
  {
    assert |a| == |a.Keys| && |b| == |b.Keys|;
  }

  lemma ReadOneKeepsFetches(st: Store, t: nat)
    requires FetchesInv(st)
    ensures FetchesInv(ReadOne(st, t).store)
  {
    var b := BlockOf(st.shape, t);
    if b !in st.cache && b !in st.failed && RequestBlock(st, b, true).Ok? { RequestKeepsFetches(st, b, true); }
  }

  lemma ReadOneKeepsAges(st: Store, t: nat)
    requires AgesInv(st.cache, st.clock) && WithinLimit(st)
    ensures AgesInv(ReadOne(st, t).store.cache, ReadOne(st, t).store.clock) && WithinLimit(ReadOne(st, t).store)
  {
    var b := BlockOf(st.shape, t);
    if b in st.cache { SameSize(st.cache, Touch(st, b).cache); }
    else if RequestBlock(st, b, true).Ok? { RequestChangesOnlyFetches(st, b, true); }
  }

  lemma ReadOneKeepsContents(st: Store, t: nat)
    ensures SameContents(st, ReadOne(st, t).store)
  {
    var b := BlockOf(st.shape, t);
    if b !in st.cache && RequestBlock(st, b, true).Ok? { RequestChangesOnlyFetches(st, b, true); }
  }

  /** What every turn keeps, the loop keeps. */
  lemma {:induction false} LoopKeeps(turn: (Store, nat) -> Turn, keeps: Store -> bool,
                                     st: Store, sector: nat, count: nat, copied: seq<Sector>)
    requires |copied| <= count && keeps(st) && forall s: Store, t: nat :: keeps(s) ==> keeps(turn(s, t).store)
    ensures keeps(ReadLoop(turn, st, sector, count, copied).store)
    decreases count - |copied|
  {
    if |copied| < count {
      var r := turn(st, sector + |copied|);
      if r.Copied? { LoopKeeps(turn, keeps, r.store, sector, count, copied + [r.sector]); }
    }
  }

  lemma LoopKeepsInv(st: Store, base: Image, sector: nat, count: nat)
    requires Inv(st, base)
    ensures Inv(ReadLoop(ReadOne, st, sector, count, []).store, base)
    ensures SameContents(st, ReadLoop(ReadOne, st, sector, count, []).store)
  {
    forall s: Store, t: nat | FetchesInv(s) ensures FetchesInv(ReadOne(s, t).store) { ReadOneKeepsFetches(s, t); }
    LoopKeeps(ReadOne, (s: Store) => FetchesInv(s), st, sector, count, []);
    forall s: Store, t: nat | AgesInv(s.cache, s.clock) && WithinLimit(s)
      ensures AgesInv(ReadOne(s, t).store.cache, ReadOne(s, t).store.clock) && WithinLimit(ReadOne(s, t).store) {
      ReadOneKeepsAges(s, t);
    }
    LoopKeeps(ReadOne, (s: Store) => AgesInv(s.cache, s.clock) && WithinLimit(s), st, sector, count, []);
    forall s: Store, t: nat | SameContents(st, s)
      ensures SameContents(st, ReadOne(s, t).store) { ReadOneKeepsContents(s, t); }
    LoopKeeps(ReadOne, (s: Store) => SameContents(st, s), st, sector, count, []);
  }

  /** The sectors copied so far are those of the flat disk. */
  ghost predicate Copies(st: Store, base: Image, sector: nat, copied: seq<Sector>) {
    forall i :: 0 <= i < |copied| ==> copied[i] == DiskSector(st.shape, st.overlays, base, sector + i)
  }

  /** A turn that copies, copies the flat disk's sector. */
  lemma TurnCopiesDisk(st: Store, base: Image, t: nat)
    requires Clean(st, base) && ReadOne(st, t).Copied?
    ensures ReadOne(st, t).sector == DiskSector(st.shape, st.overlays, base, t)
    ensures Clean(ReadOne(st, t).store, base)
    ensures ReadOne(st, t).store.shape == st.shape && ReadOne(st, t).store.overlays == st.overlays
  {
  }

  lemma {:induction false} LoopCopiesDisk(st: Store, base: Image, sector: nat, count: nat, copied: seq<Sector>)
    requires Clean(st, base) && |copied| <= count && Copies(st, base, sector, copied)
    ensures var a := ReadLoop(ReadOne, st, sector, count, copied);
            a.result.Ok? ==> |a.result.value| == count && Copies(st, base, sector, a.result.value)
    decreases count - |copied|
  {
    if |copied| < count {
      var r := ReadOne(st, sector + |copied|);
      if r.Copied? {
        TurnCopiesDisk(st, base, sector + |copied|);
        LoopCopiesDisk(r.store, base, sector, count, copied + [r.sector]);
      }
    }
  }

  lemma WorkingSetKeepsInv(st: Store, base: Image, sector: nat, count: nat)
    requires Inv(st, base) && count > 0
    ensures Inv(RetainWorkingSet(st, sector, count), base)
    ensures SameContents(st, RetainWorkingSet(st, sector, count))
  {
  }

  /** Every successful read returns the latest writes over the immutable base, and changes nothing the guest can see. */
  lemma ReadReturnsTheDisk(st: Store, base: Image, sector: nat, count: nat)
    requires Inv(st, base)
    ensures var a := ReadSectors(st, sector, count);
            && Inv(a.store, base) && SameContents(st, a.store)
            && (a.result.Ok? ==> |a.result.value| == count && Copies(st, base, sector, a.result.value))
  {
    if InRange(st.shape, sector, count) {
      var w := RetainWorkingSet(st, sector, count);
      WorkingSetKeepsInv(st, base, sector, count);
      LoopKeepsInv(w, base, sector, count);
      LoopCopiesDisk(w, base, sector, count, []);
    }
  }

  // -------------------------------------------------------------------- writes

  lemma WriteOneSets(shape: Shape, overlays: map<nat, Overlay>, base: Image, sector: nat, data: Sector, t: nat)
    requires Formed(shape, base)
    ensures DiskSector(shape, WriteOne(overlays, sector, data), base, t)
            == if t == sector then data else DiskSector(shape, overlays, base, t)
  {
    if t != sector && t / SECTORS_PER_CLUSTER == sector / SECTORS_PER_CLUSTER {
      assert t % SECTORS_PER_CLUSTER != sector % SECTORS_PER_CLUSTER;
    }
  }

  /** A write changes exactly its own sectors of the flat disk. */
  lemma WriteFromSets(shape: Shape, overlays: map<nat, Overlay>, base: Image, sector: nat, data: seq<Sector>, t: nat)
    requires Formed(shape, base)
    ensures DiskSector(shape, WriteFrom(overlays, sector, data), base, t)
            == if sector <= t < sector + |data| then data[t - sector] else DiskSector(shape, overlays, base, t)
  {
    WriteFromIsLatest(shape, overlays, base, sector, data, t);
  }

  /** What a write leaves in sector t that held `was` before. */
  function Latest(sector: nat, data: seq<Sector>, t: nat, was: Sector): Sector {
    if sector <= t < sector + |data| then data[t - sector] else was
  }

  lemma LatestGrows(sector: nat, data: seq<Sector>, t: nat, was: Sector)
    requires data != []
    ensures Latest(sector, data, t, was)
            == if t == sector + |data| - 1 then data[|data| - 1] else Latest(sector, data[..|data| - 1], t, was)
  {
  }

  lemma {:induction false} WriteFromIsLatest(shape: Shape, overlays: map<nat, Overlay>, base: Image,
                                             sector: nat, data: seq<Sector>, t: nat)
    requires Formed(shape, base)
    ensures DiskSector(shape, WriteFrom(overlays, sector, data), base, t)
            == Latest(sector, data, t, DiskSector(shape, overlays, base, t))
    decreases |data|
  {
    if data != [] {
      var front := data[..|data| - 1];
      WriteFromIsLatest(shape, overlays, base, sector, front, t);
      WriteOneSets(shape, WriteFrom(overlays, sector, front), base, sector + |data| - 1, data[|data| - 1], t);
      LatestGrows(sector, data, t, DiskSector(shape, overlays, base, t));
    }
  }

  lemma WriteKeepsInv(st: Store, base: Image, sector: nat, data: seq<Sector>)
    requires Inv(st, base) && WriteSectors(st, sector, data).Ok?
    ensures Inv(WriteSectors(st, sector, data).value, base)
  {
  }

  // -------------------------------------------------------------- completions

  lemma {:induction false} TrimKeeps(cache: Cache, blockSize: nat, limit: nat)
    ensures var t := Trim(cache, blockSize, limit);
            && t.Keys <= cache.Keys && (forall b :: b in t ==> t[b] == cache[b])
            && |t| * blockSize <= limit
    decreases |cache|
  {
    if |cache| * blockSize > limit && cache != map[] {
      SmallerWithout(cache, Oldest(cache));
      TrimKeeps(cache - {Oldest(cache)}, blockSize, limit);
    }
  }

  lemma RetireKeepsFetches(st: Store, id: nat, blame: bool)
    requires FetchesInv(st) && id in st.pending
    ensures FetchesInv(Retire(st, id, blame))
    ensures !blame ==> forall j :: j in Retire(st, id, blame).pending ==> st.pending[j].block != st.pending[id].block
  {
  }

  /** The chunk of a retired fetch may enter the cache, and trimming may drop any other. */
  lemma CachedKeepsFetches(st: Store, block: nat, slot: Slot, clock: nat, blockSize: nat)
    requires FetchesInv(st) && block !in st.failed
    requires forall j :: j in st.pending ==> st.pending[j].block != block
    ensures FetchesInv(st.(clock := clock, cache := Trim(st.cache[block := slot], blockSize, st.cacheLimit)))
  {
    TrimKeeps(st.cache[block := slot], blockSize, st.cacheLimit);
  }

  lemma GoodCompletion(st: Store, id: nat, data: Chunk)
    requires id in st.queued && id in st.pending && |data| == st.shape.sectorsPerBlock
    ensures var good := Retire(st, id, false);
            Complete(st, id, data)
            == (good.(clock := st.clock + 1,
                      cache := Trim(good.cache[st.pending[id].block := Slot(st.clock + 1, data)],
                                    BlockSize(st.shape), good.cacheLimit)), Ok(()))
  {
  }

  lemma CompleteKeepsFetches(st: Store, id: nat, data: Chunk)
    requires FetchesInv(st)
    ensures FetchesInv(Complete(st, id, data).0)
  {
    if id in st.pending && |data| == st.shape.sectorsPerBlock {
      RetireKeepsFetches(st, id, false);
      GoodCompletion(st, id, data);
      GoodKeepsFetches(st, id, Slot(st.clock + 1, data));
    } else if id in st.pending {
      RetireKeepsFetches(st, id, true);
    }
  }

  lemma GoodKeepsFetches(st: Store, id: nat, slot: Slot)
    requires FetchesInv(st) && id in st.pending
    ensures var good := Retire(st, id, false);
            FetchesInv(good.(clock := st.clock + 1,
                             cache := Trim(good.cache[st.pending[id].block := slot],
                                           BlockSize(st.shape), good.cacheLimit)))
  {
    RetireKeepsFetches(st, id, false);
    CachedKeepsFetches(Retire(st, id, false), st.pending[id].block, slot, st.clock + 1, BlockSize(st.shape));
  }

  /** Answers of the right size carry the base's bytes. */
  ghost predicate Honest(st: Store, base: Image, id: nat, data: Chunk) {
    id in st.pending && |data| == st.shape.sectorsPerBlock ==> data == base(st.pending[id].block)
  }

  lemma CachedKeepsRest(st: Store, base: Image, block: nat, slot: Slot)
    requires Clean(st, base) && AgesInv(st.cache, st.clock) && BlockSize(st.shape) <= st.cacheLimit
    requires block < st.shape.blockCount && slot == Slot(st.clock + 1, base(block))
    ensures var t := st.(clock := st.clock + 1,
                         cache := Trim(st.cache[block := slot], BlockSize(st.shape), st.cacheLimit));
            Clean(t, base) && AgesInv(t.cache, t.clock) && WithinLimit(t)
  {
    TrimKeeps(st.cache[block := slot], BlockSize(st.shape), st.cacheLimit);
  }

  lemma CompleteKeepsRest(st: Store, base: Image, id: nat, data: Chunk)
    requires Clean(st, base) && AgesInv(st.cache, st.clock) && WithinLimit(st) && Honest(st, base, id, data)
    requires id in st.pending ==> st.pending[id].block < st.shape.blockCount
    ensures var n := Complete(st, id, data).0;
            && Clean(n, base) && AgesInv(n.cache, n.clock) && WithinLimit(n)
            && n.overlays == st.overlays && n.shape == st.shape
  {
    if id in st.queued && id in st.pending && |data| == st.shape.sectorsPerBlock {
      GoodCompletion(st, id, data);
      CachedKeepsRest(Retire(st, id, false), base, st.pending[id].block, Slot(st.clock + 1, data));
    }
  }

  lemma CompleteKeepsInv(st: Store, base: Image, id: nat, data: Chunk)
    requires Inv(st, base) && Honest(st, base, id, data)
    ensures Inv(Complete(st, id, data).0, base)
    ensures Complete(st, id, data).0.overlays == st.overlays && Complete(st, id, data).0.shape == st.shape
  {
    CompleteKeepsFetches(st, id, data);
    CompleteKeepsRest(st, base, id, data);
  }

  lemma FailKeepsInv(st: Store, base: Image, id: nat)
    requires Inv(st, base)
    ensures Inv(Fail(st, id).0, base) && Fail(st, id).0.overlays == st.overlays && Fail(st, id).0.shape == st.shape
  {
    if id in st.pending { RetireKeepsFetches(st, id, true); }
  }

  /** Discarding restores the base image on every sector. */
  lemma DiscardRestoresTheBase(st: Store, base: Image, t: nat)
    requires Inv(st, base)
    ensures Inv(DiscardChanges(st), base)
    ensures DiskSector(st.shape, DiscardChanges(st).overlays, base, t)
            == ChunkSector(st.shape, base(BlockOf(st.shape, t)), t)
  {
  }
}
