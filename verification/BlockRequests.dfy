/**
 One request of the VirtIO block device of src/virtio_devices.rs: its checks, its effect
 on the disk and its reply, against a flat disk that applies the requests in order.
 */
module BlockRequests {
  import opened Wrappers
  import opened ChunkCache
  import opened DiskAnswers

  /** What a chain's readable bytes say; Garbled has no header or a payload of no whole sectors. */
  datatype Request =
    | Garbled
    | ReadRequest(sector: nat)
    | WriteRequest(sector: nat, data: seq<Sector>)
    | IdRequest
    | OtherRequest

  /** A chain as the device reads it: the request and the number of bytes it may write back. */
  datatype Body = Body(request: Request, writable: nat)

  /** A chain and the descriptor it starts at. */
  datatype Chain = Chain(head: nat, body: Body)

  datatype Reply = Data(sectors: seq<Sector>) | Written | Identity | Failed | Unsupported

  /** One request: answered, held back until a chunk arrives, or malformed. */
  datatype Serving = Answered(store: Store, reply: Reply) | Held(store: Store) | Malformed

  /** The sectors a read asks for: all its writable bytes but the status byte. */
  function Count(body: Body): nat {
    if body.writable == 0 then 0 else (body.writable - 1) / SECTOR_SIZE
  }

  /** The bytes reported to the driver. */
  function Length(body: Body): nat {
    match body.request
    case ReadRequest(_) => body.writable
    case IdRequest => if body.writable == 21 then 21 else 1
    case _ => 1
  }

  /** The checks of a request depend on the chain and the disk's size alone. */
  predicate WellFormed(shape: Shape, body: Body) {
    && !body.request.Garbled? && body.writable >= 1
    && (body.request.ReadRequest? ==>
          (body.writable - 1) % SECTOR_SIZE == 0 && InRange(shape, body.request.sector, Count(body)))
    && (body.request.WriteRequest? ==> InRange(shape, body.request.sector, |body.request.data|))
  }

  /** A reply never reports more bytes than the chain has room for, so publication never fails. */
  function Serve(st: Store, body: Body): (served: Serving)
    ensures served.Malformed? <==> !WellFormed(st.shape, body)
    ensures served.Answered? ==> Length(body) <= body.writable
  {
    if body.request.Garbled? || body.writable < 1 then Malformed
    else
      match body.request
      case ReadRequest(sector) =>
        if (body.writable - 1) % SECTOR_SIZE != 0 || !InRange(st.shape, sector, Count(body)) then Malformed
        else
          var a := ReadSectors(st, sector, Count(body));
          if a.result.Ok? then Answered(a.store, Data(a.result.value))
          else if a.result.error.MissingBlock? then Held(a.store)
          else Answered(ClearErrors(a.store), Failed)
      case WriteRequest(sector, data) =>
        var w := WriteSectors(st, sector, data);
        if w.Err? then Malformed else Answered(w.value, Written)
      case IdRequest => Answered(st, if body.writable == 21 then Identity else Unsupported)
      case _ => Answered(st, Unsupported)
  }

  // ------------------------------------------------------------------- the flat disk

  predicate Writes(chain: Chain, t: nat) {
    && chain.body.request.WriteRequest?
    && chain.body.request.sector <= t < chain.body.request.sector + |chain.body.request.data|
  }

  /** Sector t of a flat disk after the requests. */
  ghost function FlatAfter(initial: nat -> Sector, chains: seq<Chain>, t: nat): Sector
    decreases |chains|
  {
    if chains == [] then initial(t)
    else
      var last := chains[|chains| - 1];
      if Writes(last, t) then last.body.request.data[t - last.body.request.sector]
      else FlatAfter(initial, chains[..|chains| - 1], t)
  }

  /** What came before: the disk at the start, its shape, and the chunks whose demanded fetches failed so far. */
  datatype Past = Past(initial: nat -> Sector, shape: Shape, blamed: set<nat>)

  /** Some chunk the read needs has failed while demanded. */
  ghost predicate MayFail(past: Past, sector: nat, count: nat) {
    exists t: nat :: sector <= t < sector + count && BlockOf(past.shape, t) in past.blamed
  }

  /** A read is answered with the disk after the requests before it, or fails over a chunk of its own. */
  ghost predicate RightReply(past: Past, chains: seq<Chain>, i: nat, reply: Reply)
    requires i < |chains|
  {
    match chains[i].body.request
    case ReadRequest(sector) =>
      || (reply == Failed && MayFail(past, sector, Count(chains[i].body)))
      || (reply.Data? && RightData(past.initial, chains[..i], sector, Count(chains[i].body), reply.sectors))
    case WriteRequest(_, _) => reply == Written
    case IdRequest => reply == if chains[i].body.writable == 21 then Identity else Unsupported
    case _ => reply == Unsupported
  }

  /** The bytes reported: sectors and status byte, all of a failed read, identity and status, or the status alone. */
  ghost predicate RightLength(body: Body, reply: Reply, written: nat) {
    match reply
    case Data(sectors) => written == SECTOR_SIZE * |sectors| + 1
    case Failed => written == body.writable
    case Identity => written == 21
    case Written => written == 1
    case Unsupported => written == 1
  }

  /** A right reply to a well-formed request comes with the right length. */
  lemma LengthIsRight(past: Past, chains: seq<Chain>, i: nat, reply: Reply, shape: Shape)
    requires i < |chains| && WellFormed(shape, chains[i].body) && RightReply(past, chains, i, reply)
    ensures RightLength(chains[i].body, reply, Length(chains[i].body))
  {
  }

  ghost predicate RightData(initial: nat -> Sector, before: seq<Chain>, sector: nat, count: nat, data: seq<Sector>) {
    |data| == count && forall j :: 0 <= j < count ==> data[j] == FlatAfter(initial, before, sector + j)
  }

  /** The store holds what the requests wrote. */
  ghost predicate Contents(st: Store, base: Image, initial: nat -> Sector, chains: seq<Chain>) {
    forall t: nat :: DiskSector(st.shape, st.overlays, base, t) == FlatAfter(initial, chains, t)
  }

  lemma FlatGrows(initial: nat -> Sector, chains: seq<Chain>, i: nat, t: nat)
    requires i < |chains|
    ensures FlatAfter(initial, chains[..i + 1], t)
            == if Writes(chains[i], t) then chains[i].body.request.data[t - chains[i].body.request.sector]
               else FlatAfter(initial, chains[..i], t)
  {
    assert chains[..i + 1][..i] == chains[..i];
  }

  lemma SameDisk(st: Store, next: Store, base: Image, initial: nat -> Sector, chains: seq<Chain>)
    requires Contents(st, base, initial, chains) && next.shape == st.shape && next.overlays == st.overlays
    ensures Contents(next, base, initial, chains)
  {
    forall t: nat ensures DiskSector(next.shape, next.overlays, base, t) == FlatAfter(initial, chains, t) {
      assert DiskSector(st.shape, st.overlays, base, t) == FlatAfter(initial, chains, t);
    }
  }

  lemma NoWriteKeepsContents(st: Store, base: Image, initial: nat -> Sector, chains: seq<Chain>, i: nat)
    requires i < |chains| && !chains[i].body.request.WriteRequest? && Contents(st, base, initial, chains[..i])
    ensures Contents(st, base, initial, chains[..i + 1])
  {
    forall t: nat ensures DiskSector(st.shape, st.overlays, base, t) == FlatAfter(initial, chains[..i + 1], t) {
      FlatGrows(initial, chains, i, t);
    }
  }

  lemma ServeRead(st: Store, base: Image, initial: nat -> Sector, chains: seq<Chain>, sector: nat, count: nat)
    requires Inv(st, base) && Contents(st, base, initial, chains)
    ensures var a := ReadSectors(st, sector, count);
            && Inv(a.store, base) && Contents(a.store, base, initial, chains)
            && (a.result.Ok? ==> RightData(initial, chains, sector, count, a.result.value))
  {
    var a := ReadSectors(st, sector, count);
    ReadReturnsTheDisk(st, base, sector, count);
    SameDisk(st, a.store, base, initial, chains);
    if a.result.Ok? { CopiesAreFlat(st, base, initial, chains, sector, a.result.value); }
  }

  lemma CopiesAreFlat(st: Store, base: Image, initial: nat -> Sector, chains: seq<Chain>, sector: nat,
                      data: seq<Sector>)
    requires Contents(st, base, initial, chains)
    requires forall j :: 0 <= j < |data| ==> data[j] == DiskSector(st.shape, st.overlays, base, sector + j)
    ensures RightData(initial, chains, sector, |data|, data)
  {
  }

  lemma ServeWrite(st: Store, base: Image, initial: nat -> Sector, chains: seq<Chain>, i: nat)
    requires Inv(st, base) && i < |chains| && chains[i].body.request.WriteRequest?
    requires Contents(st, base, initial, chains[..i])
    requires WriteSectors(st, chains[i].body.request.sector, chains[i].body.request.data).Ok?
    ensures var next := WriteSectors(st, chains[i].body.request.sector, chains[i].body.request.data).value;
            Inv(next, base) && Contents(next, base, initial, chains[..i + 1])
  {
    var request := chains[i].body.request;
    var next := WriteSectors(st, request.sector, request.data).value;
    WriteKeepsInv(st, base, request.sector, request.data);
    forall t: nat ensures DiskSector(next.shape, next.overlays, base, t) == FlatAfter(initial, chains[..i + 1], t) {
      WrittenSector(st.shape, st.overlays, base, initial, chains, i, t);
    }
  }

  lemma WrittenSector(shape: Shape, overlays: map<nat, Overlay>, base: Image, initial: nat -> Sector,
                      chains: seq<Chain>, i: nat, t: nat)
    requires Formed(shape, base) && i < |chains| && chains[i].body.request.WriteRequest?
    requires DiskSector(shape, overlays, base, t) == FlatAfter(initial, chains[..i], t)
    ensures var request := chains[i].body.request;
            DiskSector(shape, WriteFrom(overlays, request.sector, request.data), base, t)
            == FlatAfter(initial, chains[..i + 1], t)
  {
    FlatGrows(initial, chains, i, t);
    WriteFromSets(shape, overlays, base, chains[i].body.request.sector, chains[i].body.request.data, t);
  }

  lemma ForgettingKeepsInv(st: Store, base: Image)
    requires Inv(st, base)
    ensures Inv(ClearErrors(st), base)
  {
  }

  /** The disk stays in step with the sequence of requests, and a reply given is the right one. */
  ghost predicate RightServing(served: Serving, base: Image, past: Past, chains: seq<Chain>, i: nat)
    requires i < |chains|
  {
    match served
    case Answered(store, reply) =>
      && Inv(store, base) && Contents(store, base, past.initial, chains[..i + 1]) && store.failed <= past.blamed
      && RightReply(past, chains, i, reply)
    case Held(store) =>
      Inv(store, base) && Contents(store, base, past.initial, chains[..i]) && store.failed <= past.blamed
    case Malformed => true
  }

  /** Serving request i of a sequence after the ones before it. */
  lemma ServeIsRight(st: Store, base: Image, past: Past, chains: seq<Chain>, i: nat)
    requires Inv(st, base) && i < |chains| && Contents(st, base, past.initial, chains[..i])
    requires st.shape == past.shape && st.failed <= past.blamed
    ensures RightServing(Serve(st, chains[i].body), base, past, chains, i)
  {
    match chains[i].body.request
    case ReadRequest(_) => if WellFormed(st.shape, chains[i].body) { ServeReadIsRight(st, base, past, chains, i); }
    case WriteRequest(sector, data) =>
      if WriteSectors(st, sector, data).Ok? { ServeWrite(st, base, past.initial, chains, i); }
    case _ => NoWriteKeepsContents(st, base, past.initial, chains, i);
  }

  lemma ServeReadIsRight(st: Store, base: Image, past: Past, chains: seq<Chain>, i: nat)
    requires Inv(st, base) && i < |chains| && Contents(st, base, past.initial, chains[..i])
    requires st.shape == past.shape && st.failed <= past.blamed
    requires chains[i].body.request.ReadRequest? && WellFormed(st.shape, chains[i].body)
    ensures RightServing(Serve(st, chains[i].body), base, past, chains, i)
  {
    var sector, count := chains[i].body.request.sector, Count(chains[i].body);
    var after := ReadSectors(st, sector, count).store;
    ServeRead(st, base, past.initial, chains[..i], sector, count);
    ReadReturnsTheDisk(st, base, sector, count);
    FailureIsBlamed(st, past, sector, count);
    ForgettingKeepsInv(after, base);
    NoWriteKeepsContents(after, base, past.initial, chains, i);
    SameDisk(after, ClearErrors(after), base, past.initial, chains[..i + 1]);
  }

  lemma FailureIsBlamed(st: Store, past: Past, sector: nat, count: nat)
    requires FetchesInv(st) && st.shape.sectorsPerBlock > 0 && InRange(st.shape, sector, count)
    requires st.shape == past.shape && st.failed <= past.blamed
    ensures var r := ReadSectors(st, sector, count).result;
            r.Ok? || r.error.MissingBlock? || (r.error == BackingFailed && MayFail(past, sector, count))
  {
    ReadEnds(st, sector, count);
  }

  /** A well-formed read is answered with data, failed or held back exactly as its first missing sector says. */
  lemma ReadReplyExactly(st: Store, base: Image, body: Body)
    requires Inv(st, base) && body.request.ReadRequest? && WellFormed(st.shape, body)
    ensures var sector, count, served := body.request.sector, (body.writable - 1) / SECTOR_SIZE, Serve(st, body);
            && (served.Answered? && served.reply.Data?
                <==> forall t :: sector <= t < sector + count ==> Available(st, t))
            && (served.Answered? && served.reply == Failed
                <==> exists t :: FirstMissing(st, sector, count, t) && BlockOf(st.shape, t) in st.failed)
            && (served.Held? <==> exists t :: FirstMissing(st, sector, count, t) && BlockOf(st.shape, t) !in st.failed)
  {
    ReadEnds(st, body.request.sector, Count(body));
    ReadExactly(st, body.request.sector, Count(body));
  }

  /** A failure is reported once: the same read served again waits for a new fetch of its chunk. */
  lemma FailureIsForgotten(st: Store, base: Image, body: Body)
    requires Inv(st, base) && body.request.ReadRequest? && WellFormed(st.shape, body)
    requires var served := Serve(st, body); served.Answered? && served.reply == Failed
    ensures Serve(st, body).store.failed == {} && Serve(Serve(st, body).store, body).Held?
  {
    var sector, count := body.request.sector, Count(body);
    var read := ReadSectors(st, sector, count).store;
    ReadReplyExactly(st, base, body);
    ReadReturnsTheDisk(st, base, sector, count);
    ForgettingKeepsInv(read, base);
    ForgottenIsMissing(st, ClearErrors(read), sector, count);
    ReadReplyExactly(ClearErrors(read), base, body);
  }

  lemma ForgottenIsMissing(st: Store, after: Store, sector: nat, count: nat)
    requires after.overlays == st.overlays && after.cache.Keys == st.cache.Keys && after.shape == st.shape
    requires exists t :: FirstMissing(st, sector, count, t) && BlockOf(st.shape, t) in st.failed
    requires after.failed == {}
    ensures exists t :: FirstMissing(after, sector, count, t) && BlockOf(after.shape, t) !in after.failed
  {
    var t :| FirstMissing(st, sector, count, t) && BlockOf(st.shape, t) in st.failed;
    assert forall u: nat :: Available(after, u) <==> Available(st, u);
    assert FirstMissing(after, sector, count, t);
  }

  lemma LoopKeepsContents(st: Store, sector: nat, count: nat)
    ensures SameContents(st, ReadLoop(ReadOne, st, sector, count, []).store)
  {
    forall s: Store, t: nat | SameContents(st, s) ensures SameContents(st, ReadOne(s, t).store) {
      ReadOneKeepsContents(s, t);
    }
    LoopKeeps(ReadOne, (s: Store) => SameContents(st, s), st, sector, count, []);
  }

  lemma ReadKeepsFetches(st: Store, sector: nat, count: nat)
    requires FetchesInv(st) && InRange(st.shape, sector, count)
    ensures FetchesInv(ReadSectors(st, sector, count).store) && ReadSectors(st, sector, count).store.shape == st.shape
  {
    var w := RetainWorkingSet(st, sector, count);
    LoopKeepsContents(w, sector, count);
    forall s: Store, t: nat | FetchesInv(s) ensures FetchesInv(ReadOne(s, t).store) { ReadOneKeepsFetches(s, t); }
    LoopKeeps(ReadOne, (s: Store) => FetchesInv(s), w, sector, count, []);
  }

  lemma ServeKeepsFetches(st: Store, body: Body)
    requires FetchesInv(st) && WellFormed(st.shape, body)
    ensures FetchesInv(Serve(st, body).store) && Serve(st, body).store.shape == st.shape
  {
    if body.request.ReadRequest? { ReadKeepsFetches(st, body.request.sector, Count(body)); }
  }
}
