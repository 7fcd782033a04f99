/**
 The VirtIO block device of src/virtio_devices.rs does not stop early: a notify or a resume
 goes on until nothing is left to serve, a chain is malformed, or the chain held back is a
 read that waits for a chunk now being fetched for it.
 */
module BlockProgress {
  import opened Wrappers
  import opened ChunkCache
  import opened DiskAnswers
  import opened BlockRequests
  import opened BlockQueue
  import opened VirtQueue

  /** The read waits: its first missing sector lies in a chunk that has not failed and is being fetched on demand. */
  ghost predicate Waits(st: Store, body: Body) {
    && body.request.ReadRequest? && WellFormed(st.shape, body)
    && exists t :: FirstMissing(st, body.request.sector, Count(body), t) && BlockOf(st.shape, t) !in st.failed
                   && Awaited(st, BlockOf(st.shape, t))
  }

  /** A request is held back only while it waits. */
  lemma HeldWaits(st: Store, base: Image, body: Body)
    requires Inv(st, base) && Serve(st, body).Held?
    ensures Waits(Serve(st, body).store, body)
  {
    var sector, count := body.request.sector, Count(body);
    var a := ReadSectors(st, sector, count);
    ReadEnds(st, sector, count);
    ReadReturnsTheDisk(st, base, sector, count);
    var b := a.result.error.block;
    var t :| FirstMissing(st, sector, count, t) && BlockOf(st.shape, t) == b && b !in st.failed;
    assert forall u: nat :: Available(a.store, u) <==> Available(st, u);
    assert FirstMissing(a.store, sector, count, t) && Awaited(a.store, b);
  }

  lemma ServeKeepsInv(st: Store, base: Image, body: Body)
    requires Inv(st, base) && !Serve(st, body).Malformed?
    ensures Inv(Serve(st, body).store, base)
  {
    match body.request
    case ReadRequest(sector) =>
      ReadReturnsTheDisk(st, base, sector, Count(body));
      ForgettingKeepsInv(ReadSectors(st, sector, Count(body)).store, base);
    case WriteRequest(sector, data) => WriteKeepsInv(st, base, sector, data);
    case _ =>
  }

  /** What is held back waits. */
  ghost predicate Rests(r: Drained) {
    r.device.pending.Some? ==>
      r.device.pending.value in r.memory.table && Waits(r.device.store, r.memory.table[r.device.pending.value])
  }

  /** A sound store behind a queue at rest. */
  ghost function Resting(r: Drained, base: Image): Verdict {
    if Rests(r) && Inv(r.device.store, base) then Sound else Unsound
  }

  lemma ServedRests(d: Device, m: Memory, base: Image, chain: Chain)
    requires Resting(Drained(d, m, true), base).Sound? && d.pending.None?
    requires chain.head in m.table && m.table[chain.head] == chain.body
    ensures var r := ServeNext(d, m, chain);
            Resting(r, base).Sound? && Resting(Drained(r.device, r.memory, true), base).Sound?
  {
    var served := Serve(d.store, chain.body);
    if !served.Malformed? { ServeKeepsInv(d.store, base, chain.body); }
    if served.Held? { HeldWaits(d.store, base, chain.body); }
  }

  /** The notify loop leaves only a waiting chain behind. */
  lemma {:induction false} DrainRests(d: Device, m: Memory, base: Image)
    requires Resting(Drained(d, m, true), base).Sound? && d.pending.None?
    ensures Resting(Drain(d, m), base).Sound?
    decreases Left(m.avail.index, d.lastAvail)
  {
    var next := NextChain(m, d.lastAvail);
    match next
    case Empty => DrainEnds(d, m, next);
    case BadChain => StopRests(d, m, base);
    case Fetched(chain) =>
      var r := ServeNext(d, m, chain);
      ServedRests(d, m, base, chain);
      DrainStep(d, m, chain, r);
      if r.ok && r.device.pending.None? { DrainRests(r.device, r.memory, base); }
  }

  lemma StopRests(d: Device, m: Memory, base: Image)
    requires Resting(Drained(d, m, true), base).Sound? && NextChain(m, d.lastAvail) == BadChain
    ensures Resting(Drain(d, m), base).Sound?
  {
    DrainEnds(d, m, BadChain);
  }

  lemma ResumeRests(d: Device, m: Memory, base: Image)
    requires Inv(d.store, base) && d.pending.Some? && d.pending.value in m.table
    ensures Rests(Resume(d, m))
  {
    var chain := Chain(d.pending.value, m.table[d.pending.value]);
    var served := Serve(d.store, chain.body);
    if !served.Malformed? { ServeKeepsInv(d.store, base, chain.body); }
    if served.Held? { HeldWaits(d.store, base, chain.body); }
    if served.Answered? {
      var next := d.(store := served.store, pending := None);
      assert Rests(Drained(next, Publish(m, chain, served.reply), true));
      DrainRests(next, Publish(m, chain, served.reply), base);
    }
  }

  /** The loop fails only on a malformed chain. */
  lemma {:induction false} DrainFailsOnMalformed(w: World, base: Image, initial: nat -> Sector, taken: nat)
    requires Judge(w, base, initial, taken).Sound? && w.device.pending.None? && taken <= |w.driver.posted|
    requires forall i :: taken <= i < |w.driver.posted| ==> WellFormed(w.device.store.shape, w.driver.posted[i].body)
    ensures Drain(w.device, w.memory).ok
    decreases |w.driver.posted| - taken
  {
    if taken == |w.driver.posted| {
      EmptyWhenAllTaken(w, base, initial);
    } else {
      var r := ServeNext(w.device, w.memory, w.driver.posted[taken]);
      TurnIsSound(w, base, initial, taken, r);
      ServingKeepsShape(w.device.store, w.driver.posted[taken].body);
      if r.device.pending.None? { DrainFailsOnMalformed(After(w, r), base, initial, taken + 1); }
    }
  }

  lemma ServingKeepsShape(st: Store, body: Body)
    requires WellFormed(st.shape, body)
    ensures !Serve(st, body).Malformed? && Serve(st, body).store.shape == st.shape
  {
    if body.request.ReadRequest? {
      LoopKeepsContents(RetainWorkingSet(st, body.request.sector, Count(body)), body.request.sector, Count(body));
    }
  }

  /** Everything well-formed that was posted is in the used ring or read. */
  ghost predicate AllDone(w: World, r: Drained) {
    var all := Accepted(r.device.store.shape, w.driver.posted);
    Holds(r.memory.used, w.driver.lastUsed, Elements(all), |w.driver.reaped|)
  }

  /** All chains posted are well formed. */
  ghost predicate Tidy(w: World) {
    forall i :: 0 <= i < |w.driver.posted| ==> WellFormed(w.device.store.shape, w.driver.posted[i].body)
  }

  /** A kick with nothing held back serves everything, or stops at a chain that waits. */
  lemma KickGoesOn(w: World, base: Image, initial: nat -> Sector)
    requires WorldInv(w, base, initial) && w.device.pending.None?
    ensures var r := Notify(w.device, w.memory);
            Rests(r) && (r.ok && r.device.pending.None? ==> AllDone(w, r)) && (Tidy(w) ==> r.ok)
  {
    var taken: nat :| InStep(w, base, initial, taken);
    assert Rests(Drained(w.device, w.memory, true));
    DrainRests(w.device, w.memory, base);
    KickPublishesAll(w, base, initial);
    if Tidy(w) { DrainFailsOnMalformed(w, base, initial, taken); }
  }

  /** So does a resume with a chain held back: it is published unless it still waits, and then so are the next. */
  lemma RetryGoesOn(w: World, base: Image, initial: nat -> Sector)
    requires WorldInv(w, base, initial) && w.device.pending.Some?
    ensures var r := Resume(w.device, w.memory);
            Rests(r) && (r.ok && r.device.pending.None? ==> AllDone(w, r)) && (Tidy(w) ==> r.ok)
  {
    var taken: nat :| InStep(w, base, initial, taken);
    RetryRests(w, base, initial, taken);
    RetrySettles(w, base, initial, taken);
  }

  lemma RetryRests(w: World, base: Image, initial: nat -> Sector, taken: nat)
    requires Judge(w, base, initial, taken).Sound? && w.device.pending.Some?
    ensures Rests(Resume(w.device, w.memory))
  {
    var chain := RetryIsSound(w, base, initial, taken);
    ResumeRests(w.device, w.memory, base);
  }

  lemma RetrySettles(w: World, base: Image, initial: nat -> Sector, taken: nat)
    requires Judge(w, base, initial, taken).Sound? && taken <= |w.driver.posted| && w.device.pending.Some?
    ensures var r := Resume(w.device, w.memory);
            (r.ok && r.device.pending.None? ==> AllDone(w, r)) && (Tidy(w) ==> r.ok)
  {
    var chain := RetryIsSound(w, base, initial, taken);
    var served := Serve(w.device.store, chain.body);
    if served.Answered? {
      var next := w.(device := w.device.(store := served.store, pending := None),
                     memory := Publish(w.memory, chain, served.reply));
      ServingKeepsShape(w.device.store, chain.body);
      AnsweredGoesOn(w, next, base, initial, taken);
    }
  }

  lemma AnsweredGoesOn(w: World, next: World, base: Image, initial: nat -> Sector, taken: nat)
    requires Judge(next, base, initial, taken).Sound? && taken <= |next.driver.posted| && next.device.pending.None?
    requires next.driver == w.driver && next.device.store.shape == w.device.store.shape
    ensures var r := Drain(next.device, next.memory);
            (r.ok && r.device.pending.None? ==> AllDone(w, r)) && (Tidy(w) ==> r.ok)
  {
    var r := Drain(next.device, next.memory);
    if r.ok && r.device.pending.None? {
      var after := DrainKeepsInv(next, base, initial, taken);
      AllPublished(After(next, r), base, initial);
    }
    if Tidy(w) { DrainFailsOnMalformed(next, base, initial, taken); }
  }
}
