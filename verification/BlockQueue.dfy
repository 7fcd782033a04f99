/**
 The VirtIO block device of src/virtio_devices.rs on its queue: the driver reads back the
 heads of the chains it posted, once each and in order, at most one chain is held back,
 and each read sees exactly the writes before it.
 */
module BlockQueue {
  import opened Wrappers
  import opened Arithmetic
  import opened VirtQueue
  import opened ChunkCache
  import opened DiskAnswers
  import opened BlockRequests
  import HttpDisk

  // -------------------------------------------------------------------- shared memory

  /** Guest memory of one queue: both rings, the chains by head, and what was written into them. */
  datatype Memory = Memory(avail: Avail, used: Used, table: map<nat, Body>, answers: map<nat, Reply>)

  datatype Fetched = Empty | BadChain | Fetched(chain: Chain)

  /** next_chain: the chain at the next head, which must name a readable descriptor. */
  function NextChain(m: Memory, lastAvail: U16): Fetched {
    var head := Get(m.avail, lastAvail);
    if head.None? then Empty
    else if head.value >= |m.avail.slots| || head.value !in m.table then BadChain
    else Fetched(Chain(head.value, m.table[head.value]))
  }

  function ElementOf(chain: Chain): Element {
    Element(chain.head, Length(chain.body))
  }

  /** The reply goes into the chain, then complete_chain makes the element visible. */
  function Publish(m: Memory, chain: Chain, reply: Reply): Memory
    requires Length(chain.body) <= chain.body.writable
  {
    m.(answers := m.answers[chain.head := reply], used := Put(m.used, ElementOf(chain)))
  }

  // --------------------------------------------------------------------------- device

  /** The disk, the position in the available ring and the head of the chain held back. */
  datatype Device = Device(store: Store, lastAvail: U16, pending: Option<nat>)

  /** Device and memory after a call, and whether the call succeeded. */
  datatype Drained = Drained(device: Device, memory: Memory, ok: bool)

  /** One chain taken off the ring: published, held back, or dropped with an error. */
  function ServeNext(d: Device, m: Memory, chain: Chain): (r: Drained)
    ensures r.device.lastAvail == Advance(d.lastAvail) && r.memory.avail == m.avail
  {
    var taken := d.(lastAvail := Advance(d.lastAvail));
    match Serve(d.store, chain.body)
    case Malformed => Drained(taken, m, false)
    case Held(store) => Drained(taken.(store := store, pending := Some(chain.head)), m, true)
    case Answered(store, reply) => Drained(taken.(store := store), Publish(m, chain, reply), true)
  }

  /** The loop of notify: serve chains until the ring is empty, one must wait or one is malformed. */
  ghost function Drain(d: Device, m: Memory): Drained
    decreases Left(m.avail.index, d.lastAvail)
  {
    match NextChain(m, d.lastAvail)
    case Empty => Drained(d, m, true)
    case BadChain => Drained(d, m, false)
    case Fetched(chain) =>
      var r := ServeNext(d, m, chain);
      if r.ok && r.device.pending.None? then Drain(r.device, r.memory) else r
  }

  ghost function Notify(d: Device, m: Memory): Drained {
    if d.pending.Some? then Drained(d, m, true) else Drain(d, m)
  }

  /** Retries the chain held back; its contents are read again. */
  ghost function Resume(d: Device, m: Memory): Drained {
    if d.pending.None? then Drained(d, m, true)
    else if d.pending.value !in m.table then Drained(d.(pending := None), m, false)
    else
      var chain := Chain(d.pending.value, m.table[d.pending.value]);
      match Serve(d.store, chain.body)
      case Malformed => Drained(d.(pending := None), m, false)
      case Held(store) => Drained(d.(store := store), m, true)
      case Answered(store, reply) => Notify(d.(store := store, pending := None), Publish(m, chain, reply))
  }

  // --------------------------------------------------------------------------- driver

  /** What the driver reads back for one chain. */
  datatype Receipt = Receipt(element: Element, reply: Reply)

  /** The driver's history, its position in the used ring and the heads in flight. */
  datatype Driver = Driver(posted: seq<Chain>, reaped: seq<Receipt>, lastUsed: U16, busy: set<nat>)

  /** Both sides, their memory, and as history the chunks blamed so far. */
  datatype World = World(device: Device, memory: Memory, driver: Driver, blamed: set<nat>)

  function PastOf(w: World, initial: nat -> Sector): Past {
    Past(initial, w.device.store.shape, w.blamed)
  }

  datatype Event = Post(chain: Chain) | Kick | Retry | Reap | Arrive(id: nat, chunk: Chunk) | Break(id: nat)

  /** A driver posts only free descriptors, and the server answers with the base's bytes. */
  ghost predicate Possible(w: World, base: Image, e: Event) {
    && (e.Post? ==> e.chain.head < |w.memory.avail.slots| && e.chain.head !in w.driver.busy)
    && (e.Arrive? ==> Honest(w.device.store, base, e.id, e.chunk))
  }

  function PostChain(m: Memory, chain: Chain): Memory {
    m.(avail := Put(m.avail, chain.head), table := m.table[chain.head := chain.body])
  }

  /** The driver takes one element off the used ring and the reply out of its chain. */
  function Reaped(m: Memory, v: Driver): Driver {
    var e := Get(m.used, v.lastUsed);
    if e.None? || e.value.head !in m.answers then v
    else v.(reaped := v.reaped + [Receipt(e.value, m.answers[e.value.head])],
            lastUsed := Advance(v.lastUsed), busy := v.busy - {e.value.head})
  }

  function After(w: World, r: Drained): World {
    w.(device := r.device, memory := r.memory)
  }

  ghost function Next(w: World, e: Event): World {
    match e
    case Post(chain) =>
      w.(memory := PostChain(w.memory, chain),
         driver := w.driver.(posted := w.driver.posted + [chain], busy := w.driver.busy + {chain.head}))
    case Kick => After(w, Notify(w.device, w.memory))
    case Retry => After(w, Resume(w.device, w.memory))
    case Reap => w.(driver := Reaped(w.memory, w.driver))
    case Arrive(id, chunk) =>
      w.(device := w.device.(store := Complete(w.device.store, id, chunk).0),
         blamed := w.blamed + Blamed(w.device.store, e))
    case Break(id) =>
      w.(device := w.device.(store := Fail(w.device.store, id).0), blamed := w.blamed + Blamed(w.device.store, e))
  }

  /** The chunk whose demanded fetch the event ends without its bytes. */
  function Blamed(st: Store, e: Event): set<nat> {
    if && (e.Break? || (e.Arrive? && |e.chunk| != st.shape.sectorsPerBlock))
       && e.id in st.queued && e.id in st.pending && st.pending[e.id].demanded
    then {st.pending[e.id].block} else {}
  }

  // ------------------------------------------------------------------------- invariant

  /** The chains the device answers; a malformed one is dropped with an error. */
  function Accepted(shape: Shape, chains: seq<Chain>): seq<Chain>
    decreases |chains|
  {
    if chains == [] then []
    else
      var before, last := Accepted(shape, chains[..|chains| - 1]), chains[|chains| - 1];
      if WellFormed(shape, last.body) then before + [last] else before
  }

  function Heads(chains: seq<Chain>): (heads: seq<nat>)
    ensures |heads| == |chains| && forall i :: 0 <= i < |chains| ==> heads[i] == chains[i].head
  {
    seq(|chains|, i requires 0 <= i < |chains| => chains[i].head)
  }

  function Elements(chains: seq<Chain>): (elements: seq<Element>)
    ensures |elements| == |chains| && forall i :: 0 <= i < |chains| ==> elements[i] == ElementOf(chains[i])
  {
    seq(|chains|, i requires 0 <= i < |chains| => ElementOf(chains[i]))
  }

  /** The available ring holds the chains posted and not yet taken. */
  ghost predicate Queued(m: Memory, lastAvail: U16, posted: seq<Chain>, taken: nat) {
    |m.used.slots| == |m.avail.slots| && Holds(m.avail, lastAvail, Heads(posted), taken)
  }

  /** The used ring holds the chains published and not yet read, in the order they were taken. */
  ghost predicate Finished(m: Memory, v: Driver, served: seq<Chain>, n: nat) {
    n <= |served| && Holds(m.used, v.lastUsed, Elements(served[..n]), |v.reaped|)
  }

  ghost predicate Distinct(live: seq<Chain>) {
    forall i, j :: 0 <= i < j < |live| ==> live[i].head != live[j].head
  }

  /** Chains in flight have descriptors of their own and keep their contents. */
  ghost predicate InFlight(m: Memory, busy: set<nat>, live: seq<Chain>) {
    && Distinct(live)
    && forall i {:trigger live[i]} :: 0 <= i < |live| ==>
         && live[i].head < |m.avail.slots| && live[i].head in busy
         && live[i].head in m.table && m.table[live[i].head] == live[i].body
  }

  /** Every chain read back carries its own head and the right reply. */
  ghost predicate RightReceipts(reaped: seq<Receipt>, past: Past, served: seq<Chain>) {
    && |reaped| <= |served|
    && forall i {:trigger reaped[i]} :: 0 <= i < |reaped| ==>
         reaped[i].element == ElementOf(served[i]) && RightReply(past, served, i, reaped[i].reply)
  }

  /** Every chain published and not yet read holds the right reply. */
  ghost predicate RightAnswers(answers: map<nat, Reply>, past: Past, served: seq<Chain>, from: nat,
                               to: nat) {
    && to <= |served|
    && forall i {:trigger served[i]} :: from <= i < to ==>
         served[i].head in answers && RightReply(past, served, i, answers[served[i].head])
  }

  ghost predicate OnDisk(store: Store, shape: Shape, base: Image, past: Past, chains: seq<Chain>) {
    && store.shape == shape == past.shape && store.failed <= past.blamed
    && Inv(store, base) && Contents(store, base, past.initial, chains)
  }

  /** How many of the chains served are published: all but the one held back. */
  function Published(d: Device, served: seq<Chain>): int {
    |served| - if d.pending.Some? then 1 else 0
  }

  /** Both rings after `taken` chains were taken, of which `served` were well formed. */
  ghost predicate Protocol(w: World, taken: nat, served: seq<Chain>) {
    var (d, m, v) := (w.device, w.memory, w.driver);
    var n := Published(d, served);
    && taken <= |v.posted| && |v.reaped| <= n
    && (d.pending.Some? ==> d.pending.value == served[n].head)
    && Queued(m, d.lastAvail, v.posted, taken) && Finished(m, v, served, n)
    && InFlight(m, v.busy, served[|v.reaped|..] + v.posted[taken..])
  }

  /** Disk and replies after the chains served, all but the one held back. */
  ghost predicate Results(w: World, base: Image, past: Past, served: seq<Chain>) {
    var n := Published(w.device, served);
    && |w.driver.reaped| <= n
    && RightReceipts(w.driver.reaped, past, served)
    && RightAnswers(w.memory.answers, past, served, |w.driver.reaped|, n)
    && OnDisk(w.device.store, w.device.store.shape, base, past, served[..n])
  }

  ghost predicate Coupled(w: World, base: Image, past: Past, taken: nat, served: seq<Chain>) {
    Protocol(w, taken, served) && Results(w, base, past, served)
  }

  ghost predicate InStep(w: World, base: Image, initial: nat -> Sector, taken: nat) {
    && taken <= |w.driver.posted|
    && Coupled(w, base, PastOf(w, initial), taken, Accepted(w.device.store.shape, w.driver.posted[..taken]))
  }

  ghost predicate WorldInv(w: World, base: Image, initial: nat -> Sector) {
    exists taken: nat :: InStep(w, base, initial, taken)
  }

  // ----------------------------------------------------------------- facts about the parts

  lemma AcceptedNext(shape: Shape, posted: seq<Chain>, n: nat)
    requires n < |posted|
    ensures Accepted(shape, posted[..n + 1])
            == Accepted(shape, posted[..n]) + if WellFormed(shape, posted[n].body) then [posted[n]] else []
  {
    assert posted[..n + 1][..n] == posted[..n];
  }

  lemma {:induction false} AcceptedPrefix(shape: Shape, posted: seq<Chain>, n: nat)
    requires n <= |posted|
    ensures Accepted(shape, posted[..n]) <= Accepted(shape, posted)
    decreases |posted| - n
  {
    if n < |posted| {
      AcceptedNext(shape, posted, n);
      AcceptedPrefix(shape, posted, n + 1);
    } else {
      assert posted[..n] == posted;
    }
  }

  lemma ReplyGrows(past: Past, chains: seq<Chain>, more: seq<Chain>, i: nat, reply: Reply)
    requires i < |chains| && chains <= more
    ensures RightReply(past, more, i, reply) <==> RightReply(past, chains, i, reply)
  {
    assert more[..i] == chains[..i];
  }

  lemma ReceiptsGrow(reaped: seq<Receipt>, past: Past, served: seq<Chain>, more: seq<Chain>)
    requires RightReceipts(reaped, past, served) && served <= more
    ensures RightReceipts(reaped, past, more)
  {
    forall i | 0 <= i < |reaped|
      ensures reaped[i].element == ElementOf(more[i]) && RightReply(past, more, i, reaped[i].reply) {
      ReplyGrows(past, served, more, i, reaped[i].reply);
    }
  }

  lemma AnswersGrow(answers: map<nat, Reply>, past: Past, served: seq<Chain>, more: seq<Chain>, from: nat,
                    to: nat)
    requires RightAnswers(answers, past, served, from, to) && served <= more
    ensures RightAnswers(answers, past, more, from, to)
  {
    forall i | from <= i < to
      ensures more[i].head in answers && RightReply(past, more, i, answers[more[i].head]) {
      assert served[i] == more[i];
      ReplyGrows(past, served, more, i, answers[served[i].head]);
    }
  }

  /** Chains in flight are no more than descriptors. */
  lemma LiveFits(m: Memory, busy: set<nat>, live: seq<Chain>)
    requires InFlight(m, busy, live)
    ensures |live| <= |m.avail.slots|
  {
    var heads := set i | 0 <= i < |live| :: live[i].head;
    HeadCount(live);
    forall x | x in heads ensures x < |m.avail.slots| {
      var i :| 0 <= i < |live| && live[i].head == x;
    }
    BelowIsSmall(heads, |m.avail.slots|);
  }

  lemma {:induction false} HeadCount(live: seq<Chain>)
    requires Distinct(live)
    ensures |set i | 0 <= i < |live| :: live[i].head| == |live|
    decreases |live|
  {
    if live != [] {
      var front := live[..|live| - 1];
      HeadCount(front);
      var heads := set i | 0 <= i < |front| :: front[i].head;
      var last := live[|live| - 1].head;
      assert last !in heads;
      assert (set i | 0 <= i < |live| :: live[i].head) == heads + {last};
    }
  }

  lemma DropKeepsFlight(m: Memory, busy: set<nat>, live: seq<Chain>, k: nat)
    requires InFlight(m, busy, live) && k < |live|
    ensures InFlight(m, busy, live[..k] + live[k + 1..])
    ensures k == 0 ==> InFlight(m, busy - {live[0].head}, live[1..])
  {
    var rest := live[..k] + live[k + 1..];
    forall i | 0 <= i < |rest| ensures rest[i] == live[if i < k then i else i + 1] {}
  }

  // ---------------------------------------------------------------------- device steps

  /** Taking the next chain: it is the one posted next, and it stays in flight. */
  lemma FetchIsNext(w: World, taken: nat, served: seq<Chain>)
    requires Protocol(w, taken, served)
    ensures NextChain(w.memory, w.device.lastAvail)
            == if taken == |w.driver.posted| then Empty else Fetched(w.driver.posted[taken])
  {
    var (m, v) := (w.memory, w.driver);
    TakeIsNext(m.avail, w.device.lastAvail, Heads(v.posted), taken);
    if taken < |v.posted| {
      var live := served[|v.reaped|..] + v.posted[taken..];
      assert live[|served| - |v.reaped|] == v.posted[taken];
    }
  }

  /** A well-formed chain that was taken counts as held back until it is published. */
  lemma TakeKeepsStep(w: World, base: Image, past: Past, taken: nat, served: seq<Chain>, next: World)
    requires Coupled(w, base, past, taken, served) && taken < |w.driver.posted| && w.device.pending.None?
    requires next == w.(device := w.device.(lastAvail := Advance(w.device.lastAvail),
                                            pending := Some(w.driver.posted[taken].head)))
    ensures Coupled(next, base, past, taken + 1, served + [w.driver.posted[taken]])
  {
    TakeKeepsProtocol(w, taken, served, next);
    TakeKeepsResults(w, base, past, served, w.driver.posted[taken], next);
  }

  lemma TakeKeepsProtocol(w: World, taken: nat, served: seq<Chain>, next: World)
    requires Protocol(w, taken, served) && taken < |w.driver.posted| && w.device.pending.None?
    requires next == w.(device := w.device.(lastAvail := Advance(w.device.lastAvail),
                                            pending := Some(w.driver.posted[taken].head)))
    ensures Protocol(next, taken + 1, served + [w.driver.posted[taken]])
  {
    var v := w.driver;
    var more := served + [v.posted[taken]];
    TakeKeepsHolds(w.memory.avail, w.device.lastAvail, Heads(v.posted), taken);
    assert more[..|served|] == served[..|served|];
    assert more[|v.reaped|..] + v.posted[taken + 1..] == served[|v.reaped|..] + v.posted[taken..];
  }

  lemma TakeKeepsResults(w: World, base: Image, past: Past, served: seq<Chain>, chain: Chain, next: World)
    requires Results(w, base, past, served) && w.device.pending.None?
    requires next == w.(device := w.device.(lastAvail := Advance(w.device.lastAvail), pending := Some(chain.head)))
    ensures Results(next, base, past, served + [chain])
  {
    var more := served + [chain];
    assert more[..|served|] == served[..|served|];
    ReceiptsGrow(w.driver.reaped, past, served, more);
    AnswersGrow(w.memory.answers, past, served, more, |w.driver.reaped|, |served|);
  }

  /** A malformed chain is dropped: it will never be published. */
  lemma DropKeepsStep(w: World, base: Image, past: Past, taken: nat, served: seq<Chain>, next: World)
    requires Coupled(w, base, past, taken, served) && taken < |w.driver.posted| && w.device.pending.None?
    requires next == w.(device := w.device.(lastAvail := Advance(w.device.lastAvail)))
    ensures Coupled(next, base, past, taken + 1, served)
  {
    DropKeepsProtocol(w, taken, served, next);
  }

  lemma DropKeepsProtocol(w: World, taken: nat, served: seq<Chain>, next: World)
    requires Protocol(w, taken, served) && taken < |w.driver.posted| && w.device.pending.None?
    requires next == w.(device := w.device.(lastAvail := Advance(w.device.lastAvail)))
    ensures Protocol(next, taken + 1, served)
  {
    var v := w.driver;
    var live := served[|v.reaped|..] + v.posted[taken..];
    var k := |served| - |v.reaped|;
    TakeKeepsHolds(w.memory.avail, w.device.lastAvail, Heads(v.posted), taken);
    DropKeepsFlight(w.memory, v.busy, live, k);
    assert live[..k] + live[k + 1..] == served[|v.reaped|..] + v.posted[taken + 1..];
  }

  lemma PublishKeepsUsed(m: Memory, v: Driver, served: seq<Chain>, n: nat, reply: Reply, posted: seq<Chain>)
    requires Finished(m, v, served, n) && n < |served| && |v.reaped| <= n
    requires InFlight(m, v.busy, served[|v.reaped|..] + posted) && |m.used.slots| == |m.avail.slots|
    requires Length(served[n].body) <= served[n].body.writable
    ensures Finished(Publish(m, served[n], reply), v, served, n + 1)
  {
    LiveFits(m, v.busy, served[|v.reaped|..] + posted);
    PutKeepsHolds(m.used, v.lastUsed, Elements(served[..n]), |v.reaped|, ElementOf(served[n]));
    assert Elements(served[..n]) + [ElementOf(served[n])] == Elements(served[..n + 1]);
  }

  lemma PublishKeepsAnswers(m: Memory, busy: set<nat>, past: Past, served: seq<Chain>, r: nat, n: nat,
                            reply: Reply, posted: seq<Chain>)
    requires r <= n < |served| && RightAnswers(m.answers, past, served, r, n)
    requires InFlight(m, busy, served[r..] + posted) && RightReply(past, served, n, reply)
    ensures RightAnswers(m.answers[served[n].head := reply], past, served, r, n + 1)
  {
    var live := served[r..] + posted;
    forall i | r <= i < n ensures served[i].head != served[n].head {
      assert live[i - r] == served[i] && live[n - r] == served[n];
    }
  }

  lemma AnsweredOnDisk(st: Store, base: Image, past: Past, served: seq<Chain>, n: nat,
                       store: Store, reply: Reply)
    requires n < |served| && OnDisk(st, st.shape, base, past, served[..n])
    requires Serve(st, served[n].body) == Answered(store, reply)
    ensures OnDisk(store, st.shape, base, past, served[..n + 1]) && RightReply(past, served, n, reply)
    ensures n + 1 == |served| ==> OnDisk(store, st.shape, base, past, served)
    ensures Length(served[n].body) <= served[n].body.writable && store.shape == st.shape
  {
    ServeIsRight(st, base, past, served, n);
    ServeKeepsFetches(st, served[n].body);
    assert n + 1 == |served| ==> served[..n + 1] == served;
  }

  /** Publishing the chain held back. */
  lemma PublishKeepsStep(w: World, base: Image, past: Past, taken: nat, served: seq<Chain>,
                         store: Store, reply: Reply, next: World)
    requires Coupled(w, base, past, taken, served) && w.device.pending.Some?
    requires Length(served[|served| - 1].body) <= served[|served| - 1].body.writable
    requires OnDisk(store, store.shape, base, past, served) && RightReply(past, served, |served| - 1, reply)
    requires next == w.(device := w.device.(store := store, pending := None),
                        memory := Publish(w.memory, served[|served| - 1], reply))
    ensures Coupled(next, base, past, taken, served)
  {
    PublishKeepsProtocol(w, taken, served, store, reply, next);
    PublishKeepsResults(w, base, past, taken, served, store, reply, next);
  }

  lemma PublishKeepsProtocol(w: World, taken: nat, served: seq<Chain>, store: Store, reply: Reply, next: World)
    requires Protocol(w, taken, served) && w.device.pending.Some?
    requires Length(served[|served| - 1].body) <= served[|served| - 1].body.writable
    requires next == w.(device := w.device.(store := store, pending := None),
                        memory := Publish(w.memory, served[|served| - 1], reply))
    ensures Protocol(next, taken, served)
  {
    PublishKeepsUsed(w.memory, w.driver, served, |served| - 1, reply, w.driver.posted[taken..]);
  }

  lemma PublishKeepsResults(w: World, base: Image, past: Past, taken: nat, served: seq<Chain>,
                            store: Store, reply: Reply, next: World)
    requires Results(w, base, past, served) && w.device.pending.Some? && taken <= |w.driver.posted|
    requires InFlight(w.memory, w.driver.busy, served[|w.driver.reaped|..] + w.driver.posted[taken..])
    requires Length(served[|served| - 1].body) <= served[|served| - 1].body.writable
    requires OnDisk(store, store.shape, base, past, served) && RightReply(past, served, |served| - 1, reply)
    requires next == w.(device := w.device.(store := store, pending := None),
                        memory := Publish(w.memory, served[|served| - 1], reply))
    ensures Results(next, base, past, served)
  {
    var n, v := |served| - 1, w.driver;
    assert served[..|served|] == served;
    PublishKeepsAnswers(w.memory, v.busy, past, served, |v.reaped|, n, reply, v.posted[taken..]);
  }

  /** A change of the store that keeps the disk. */
  lemma StoreKeepsStep(w: World, base: Image, past: Past, taken: nat, served: seq<Chain>,
                       store: Store, next: World)
    requires Coupled(w, base, past, taken, served)
    requires OnDisk(store, w.device.store.shape, base, past, served[..Published(w.device, served)])
    requires next == w.(device := w.device.(store := store))
    ensures Coupled(next, base, past, taken, served)
  {
    StoreKeepsProtocol(w, taken, served, next);
    StoreKeepsResults(w, base, past, served, store, next);
  }

  lemma StoreKeepsProtocol(w: World, taken: nat, served: seq<Chain>, next: World)
    requires Protocol(w, taken, served) && next == w.(device := w.device.(store := next.device.store))
    ensures Protocol(next, taken, served)
  {
  }

  lemma StoreKeepsResults(w: World, base: Image, past: Past, served: seq<Chain>, store: Store, next: World)
    requires Results(w, base, past, served) && next == w.(device := w.device.(store := store))
    requires OnDisk(store, w.device.store.shape, base, past, served[..Published(w.device, served)])
    ensures Results(next, base, past, served)
  {
  }

  lemma HeldOnDisk(st: Store, base: Image, past: Past, served: seq<Chain>, n: nat, store: Store)
    requires n < |served| && OnDisk(st, st.shape, base, past, served[..n])
    requires Serve(st, served[n].body) == Held(store)
    ensures OnDisk(store, st.shape, base, past, served[..n])
  {
    ServeIsRight(st, base, past, served, n);
    ServeKeepsFetches(st, served[n].body);
  }

  lemma HoldKeepsStep(w: World, base: Image, past: Past, taken: nat, served: seq<Chain>,
                      store: Store, next: World)
    requires Coupled(w, base, past, taken, served) && w.device.pending.Some?
    requires Serve(w.device.store, served[|served| - 1].body) == Held(store)
    requires next == w.(device := w.device.(store := store))
    ensures Coupled(next, base, past, taken, served) && store.shape == w.device.store.shape
  {
    HeldOnDisk(w.device.store, base, past, served, |served| - 1, store);
    StoreKeepsStep(w, base, past, taken, served, store, next);
  }

  /** The invariant as one fact. */
  ghost function Judge(w: World, base: Image, initial: nat -> Sector, taken: nat): Verdict {
    if InStep(w, base, initial, taken) then Sound else Unsound
  }

  /** One turn of the notify loop: the chain posted next is dropped, held back or published. */
  lemma TurnKeepsStep(w: World, base: Image, initial: nat -> Sector, taken: nat)
    requires InStep(w, base, initial, taken) && w.device.pending.None? && taken < |w.driver.posted|
    ensures InStep(After(w, ServeNext(w.device, w.memory, w.driver.posted[taken])), base, initial, taken + 1)
  {
    var shape := w.device.store.shape;
    AcceptedNext(shape, w.driver.posted, taken);
    AnyTurn(w, base, PastOf(w, initial), taken, Accepted(shape, w.driver.posted[..taken]));
  }

  lemma AnyTurn(w: World, base: Image, past: Past, taken: nat, served: seq<Chain>)
    requires Coupled(w, base, past, taken, served) && w.device.pending.None? && taken < |w.driver.posted|
    ensures var shape, chain := w.device.store.shape, w.driver.posted[taken];
            var next := After(w, ServeNext(w.device, w.memory, chain));
            && Coupled(next, base, past, taken + 1, served + if WellFormed(shape, chain.body) then [chain] else [])
            && next.device.store.shape == shape
  {
    var chain := w.driver.posted[taken];
    if WellFormed(w.device.store.shape, chain.body) {
      AcceptedTurn(w, base, past, taken, served);
    } else {
      assert served + [] == served;
      DropKeepsStep(w, base, past, taken, served, After(w, ServeNext(w.device, w.memory, chain)));
    }
  }

  lemma AcceptedTurn(w: World, base: Image, past: Past, taken: nat, served: seq<Chain>)
    requires Coupled(w, base, past, taken, served) && w.device.pending.None? && taken < |w.driver.posted|
    requires WellFormed(w.device.store.shape, w.driver.posted[taken].body)
    ensures var next := After(w, ServeNext(w.device, w.memory, w.driver.posted[taken]));
            && Coupled(next, base, past, taken + 1, served + [w.driver.posted[taken]])
            && next.device.store.shape == w.device.store.shape
  {
    var chain := w.driver.posted[taken];
    var next := After(w, ServeNext(w.device, w.memory, chain));
    var mid := w.(device := w.device.(lastAvail := Advance(w.device.lastAvail), pending := Some(chain.head)));
    TakeKeepsStep(w, base, past, taken, served, mid);
    match Serve(w.device.store, chain.body)
    case Held(store) => HoldKeepsStep(mid, base, past, taken + 1, served + [chain], store, next);
    case Answered(store, reply) =>
      AnsweredOnDisk(w.device.store, base, past, served + [chain], |served|, store, reply);
      PublishKeepsStep(mid, base, past, taken + 1, served + [chain], store, reply, next);
  }

  lemma TurnIsSound(w: World, base: Image, initial: nat -> Sector, taken: nat, r: Drained)
    requires Judge(w, base, initial, taken).Sound? && w.device.pending.None? && taken < |w.driver.posted|
    requires r == ServeNext(w.device, w.memory, w.driver.posted[taken])
    ensures NextChain(w.memory, w.device.lastAvail) == Fetched(w.driver.posted[taken])
    ensures Judge(After(w, r), base, initial, taken + 1).Sound?
  {
    FetchIsNext(w, taken, Accepted(w.device.store.shape, w.driver.posted[..taken]));
    TurnKeepsStep(w, base, initial, taken);
  }

  lemma EmptyWhenAllTaken(w: World, base: Image, initial: nat -> Sector)
    requires Judge(w, base, initial, |w.driver.posted|).Sound?
    ensures NextChain(w.memory, w.device.lastAvail) == Empty
  {
    var taken := |w.driver.posted|;
    FetchIsNext(w, taken, Accepted(w.device.store.shape, w.driver.posted[..taken]));
  }

  /** The notify loop keeps everything in step; when it succeeds the ring is empty or a chain is held back. */
  lemma {:induction false} DrainKeepsInv(w: World, base: Image, initial: nat -> Sector, taken: nat)
    returns (after: nat)
    requires Judge(w, base, initial, taken).Sound? && w.device.pending.None? && taken <= |w.driver.posted|
    ensures var r := Drain(w.device, w.memory);
            && Judge(After(w, r), base, initial, after).Sound?
            && (r.ok ==> r.device.pending.Some? || after == |w.driver.posted|)
    decreases |w.driver.posted| - taken
  {
    if taken == |w.driver.posted| {
      EmptyWhenAllTaken(w, base, initial);
      after := taken;
    } else {
      var r := ServeNext(w.device, w.memory, w.driver.posted[taken]);
      TurnIsSound(w, base, initial, taken, r);
      after := taken + 1;
      if r.ok && r.device.pending.None? {
        after := DrainKeepsInv(After(w, r), base, initial, taken + 1);
      }
    }
  }

  /** Resuming publishes the chain held back before anything else, and then drains. */
  lemma ResumeKeepsInv(w: World, base: Image, initial: nat -> Sector, taken: nat) returns (after: nat)
    requires Judge(w, base, initial, taken).Sound? && taken <= |w.driver.posted|
    ensures Judge(After(w, Resume(w.device, w.memory)), base, initial, after).Sound?
  {
    after := taken;
    if w.device.pending.Some? {
      var chain := RetryIsSound(w, base, initial, taken);
      var served := Serve(w.device.store, chain.body);
      if served.Answered? {
        var next := w.(device := w.device.(store := served.store, pending := None),
                       memory := Publish(w.memory, chain, served.reply));
        after := DrainKeepsInv(next, base, initial, taken);
      }
    }
  }

  lemma RetryIsSound(w: World, base: Image, initial: nat -> Sector, taken: nat) returns (chain: Chain)
    requires Judge(w, base, initial, taken).Sound? && w.device.pending.Some?
    ensures chain.head == w.device.pending.value && chain.head in w.memory.table
    ensures w.memory.table[chain.head] == chain.body
    ensures match Serve(w.device.store, chain.body)
            case Malformed => false
            case Held(store) => Judge(w.(device := w.device.(store := store)), base, initial, taken).Sound?
            case Answered(store, reply) =>
              Judge(w.(device := w.device.(store := store, pending := None), memory := Publish(w.memory, chain, reply)),
                    base, initial, taken).Sound?
  {
    var shape, posted := w.device.store.shape, w.driver.posted;
    var served := Accepted(shape, posted[..taken]);
    chain := served[|served| - 1];
    AcceptedAreWellFormed(shape, posted[..taken], |served| - 1);
    HeldIsInFlight(w, taken, served);
    RetryCoupled(w, base, PastOf(w, initial), taken, served);
  }

  lemma RetryCoupled(w: World, base: Image, past: Past, taken: nat, served: seq<Chain>)
    requires Coupled(w, base, past, taken, served) && w.device.pending.Some?
    ensures var chain := served[|served| - 1];
            match Serve(w.device.store, chain.body)
            case Malformed => true
            case Held(store) =>
              Coupled(w.(device := w.device.(store := store)), base, past, taken, served) && store.shape == past.shape
            case Answered(store, reply) =>
              && Coupled(w.(device := w.device.(store := store, pending := None),
                             memory := Publish(w.memory, chain, reply)),
                         base, past, taken, served)
              && store.shape == past.shape
  {
    var chain := served[|served| - 1];
    match Serve(w.device.store, chain.body)
    case Malformed =>
    case Held(store) => HoldKeepsStep(w, base, past, taken, served, store, w.(device := w.device.(store := store)));
    case Answered(store, reply) =>
      AnsweredOnDisk(w.device.store, base, past, served, |served| - 1, store, reply);
      PublishKeepsStep(w, base, past, taken, served, store, reply,
                       w.(device := w.device.(store := store, pending := None),
                          memory := Publish(w.memory, chain, reply)));
  }

  lemma {:induction false} AcceptedAreWellFormed(shape: Shape, chains: seq<Chain>, i: nat)
    requires i < |Accepted(shape, chains)|
    ensures WellFormed(shape, Accepted(shape, chains)[i].body)
    decreases |chains|
  {
    var front := chains[..|chains| - 1];
    if i < |Accepted(shape, front)| { AcceptedAreWellFormed(shape, front, i); }
  }

  lemma HeldIsInFlight(w: World, taken: nat, served: seq<Chain>)
    requires Protocol(w, taken, served) && w.device.pending.Some?
    ensures |served| > 0 && served[|served| - 1].head == w.device.pending.value
    ensures w.device.pending.value in w.memory.table
    ensures w.memory.table[w.device.pending.value] == served[|served| - 1].body
  {
    var v := w.driver;
    var live := served[|v.reaped|..] + v.posted[taken..];
    assert live[|served| - 1 - |v.reaped|] == served[|served| - 1];
  }

  // ---------------------------------------------------------------------- driver steps

  /** A free descriptor means a free slot: posting keeps everything in step. */
  lemma PostKeepsInv(w: World, base: Image, initial: nat -> Sector, taken: nat, chain: Chain)
    requires InStep(w, base, initial, taken) && Possible(w, base, Post(chain))
    ensures InStep(Next(w, Post(chain)), base, initial, taken)
  {
    var (m, v) := (w.memory, w.driver);
    var served := Accepted(w.device.store.shape, v.posted[..taken]);
    var more := v.posted + [chain];
    assert more[..taken] == v.posted[..taken];
    var live := served[|v.reaped|..] + v.posted[taken..];
    assert served[|v.reaped|..] + more[taken..] == live + [chain];
    PostKeepsFlight(m, v.busy, live, chain);
    PostKeepsQueue(m, v.busy + {chain.head}, w.device.lastAvail, v.posted, taken, served[|v.reaped|..], chain);
  }

  lemma PostKeepsFlight(m: Memory, busy: set<nat>, live: seq<Chain>, chain: Chain)
    requires InFlight(m, busy, live) && chain.head !in busy && chain.head < |m.avail.slots|
    ensures InFlight(PostChain(m, chain), busy + {chain.head}, live + [chain])
  {
    var more, after := live + [chain], PostChain(m, chain);
    forall i | 0 <= i < |live| ensures more[i] == live[i] && live[i].head != chain.head {
      assert live[i].head in busy;
    }
  }

  lemma PostKeepsQueue(m: Memory, busy: set<nat>, lastAvail: U16, posted: seq<Chain>, taken: nat,
                       before: seq<Chain>, chain: Chain)
    requires taken <= |posted| && Queued(m, lastAvail, posted, taken)
    requires InFlight(PostChain(m, chain), busy, before + posted[taken..] + [chain])
    ensures Queued(PostChain(m, chain), lastAvail, posted + [chain], taken)
  {
    LiveFits(PostChain(m, chain), busy, before + posted[taken..] + [chain]);
    PutKeepsHolds(m.avail, lastAvail, Heads(posted), taken, chain.head);
    assert Heads(posted) + [chain.head] == Heads(posted + [chain]);
  }

  /** What the driver reads next is the oldest chain it has not read, with its own reply. */
  lemma ReapIsNext(w: World, base: Image, past: Past, taken: nat, served: seq<Chain>)
    requires Coupled(w, base, past, taken, served)
    ensures var (m, v) := (w.memory, w.driver);
            && (|v.reaped| == Published(w.device, served) ==> Reaped(m, v) == v)
            && (|v.reaped| < Published(w.device, served) ==>
                  && served[|v.reaped|].head in m.answers
                  && Reaped(m, v) == ReapedOne(v, served[|v.reaped|], m.answers[served[|v.reaped|].head]))
  {
    var (m, v) := (w.memory, w.driver);
    var n := Published(w.device, served);
    TakeIsNext(m.used, v.lastUsed, Elements(served[..n]), |v.reaped|);
    if |v.reaped| < n { assert served[|v.reaped|].head in m.answers; }
  }

  function ReapedOne(v: Driver, chain: Chain, reply: Reply): Driver {
    v.(reaped := v.reaped + [Receipt(ElementOf(chain), reply)],
       lastUsed := Advance(v.lastUsed), busy := v.busy - {chain.head})
  }

  lemma ReapKeepsInv(w: World, base: Image, initial: nat -> Sector, taken: nat)
    requires InStep(w, base, initial, taken)
    ensures InStep(Next(w, Reap), base, initial, taken)
  {
    var served := Accepted(w.device.store.shape, w.driver.posted[..taken]);
    ReapIsNext(w, base, PastOf(w, initial), taken, served);
    if |w.driver.reaped| < Published(w.device, served) {
      OneReaped(w, base, PastOf(w, initial), taken, served, Next(w, Reap));
    } else {
      assert Next(w, Reap) == w;
    }
  }

  lemma OneReaped(w: World, base: Image, past: Past, taken: nat, served: seq<Chain>, next: World)
    requires Coupled(w, base, past, taken, served) && |w.driver.reaped| < Published(w.device, served)
    requires served[|w.driver.reaped|].head in w.memory.answers
    requires var r := |w.driver.reaped|;
             next == w.(driver := ReapedOne(w.driver, served[r], w.memory.answers[served[r].head]))
    ensures Coupled(next, base, past, taken, served)
  {
    var r := |w.driver.reaped|;
    ReapKeepsProtocol(w, taken, served, w.memory.answers[served[r].head], next);
    ReceiptAdded(w.driver.reaped, past, served, Receipt(ElementOf(served[r]), w.memory.answers[served[r].head]));
  }

  lemma ReapKeepsProtocol(w: World, taken: nat, served: seq<Chain>, reply: Reply, next: World)
    requires Protocol(w, taken, served) && |w.driver.reaped| < Published(w.device, served)
    requires next == w.(driver := ReapedOne(w.driver, served[|w.driver.reaped|], reply))
    ensures Protocol(next, taken, served)
  {
    var (m, v) := (w.memory, w.driver);
    var r, n := |v.reaped|, Published(w.device, served);
    var live := served[r..] + v.posted[taken..];
    TakeKeepsHolds(m.used, v.lastUsed, Elements(served[..n]), r);
    DropKeepsFlight(m, v.busy, live, 0);
    assert live[1..] == served[r + 1..] + v.posted[taken..];
  }

  lemma ReceiptAdded(reaped: seq<Receipt>, past: Past, served: seq<Chain>, receipt: Receipt)
    requires RightReceipts(reaped, past, served) && |reaped| < |served|
    requires receipt.element == ElementOf(served[|reaped|]) && RightReply(past, served, |reaped|, receipt.reply)
    ensures RightReceipts(reaped + [receipt], past, served)
  {
  }

  // ----------------------------------------------------------------------------- runs

  lemma ArriveKeepsInv(w: World, base: Image, initial: nat -> Sector, taken: nat, e: Event)
    requires InStep(w, base, initial, taken) && (e.Arrive? || e.Break?) && Possible(w, base, e)
    ensures InStep(Next(w, e), base, initial, taken)
  {
    var st := w.device.store;
    var served := Accepted(st.shape, w.driver.posted[..taken]);
    var past, more := PastOf(w, initial), w.blamed + Blamed(st, e);
    var known := w.(blamed := more);
    BlameKeepsStep(w, base, past, taken, served, known, past.(blamed := more));
    ServiceKeepsDisk(st, base, past, served[..Published(w.device, served)], e);
    StoreKeepsStep(known, base, past.(blamed := more), taken, served, AfterService(st, e), Next(w, e));
  }

  ghost function AfterService(st: Store, e: Event): Store
    requires e.Arrive? || e.Break?
  {
    if e.Arrive? then Complete(st, e.id, e.chunk).0 else Fail(st, e.id).0
  }

  /** More chunks blamed excuse no fewer failures. */
  lemma BlameKeepsStep(w: World, base: Image, past: Past, taken: nat, served: seq<Chain>, next: World, later: Past)
    requires Coupled(w, base, past, taken, served) && next == w.(blamed := next.blamed)
    requires later == past.(blamed := later.blamed) && past.blamed <= later.blamed
    ensures Coupled(next, base, later, taken, served)
  {
    BlameKeepsProtocol(w, taken, served, next);
    BlameKeepsReplies(w.driver.reaped, w.memory.answers, past, later, served, |w.driver.reaped|,
                      Published(w.device, served));
  }

  lemma BlameKeepsProtocol(w: World, taken: nat, served: seq<Chain>, next: World)
    requires Protocol(w, taken, served) && next == w.(blamed := next.blamed)
    ensures Protocol(next, taken, served)
  {
  }

  lemma BlameKeepsReplies(reaped: seq<Receipt>, answers: map<nat, Reply>, past: Past, later: Past, served: seq<Chain>,
                          r: nat, n: nat)
    requires later == past.(blamed := later.blamed) && past.blamed <= later.blamed
    requires RightReceipts(reaped, past, served) && RightAnswers(answers, past, served, r, n)
    ensures RightReceipts(reaped, later, served) && RightAnswers(answers, later, served, r, n)
  {
    forall i, reply | 0 <= i < |served| && RightReply(past, served, i, reply)
      ensures RightReply(later, served, i, reply) {
      BlameKeepsReply(past, later, served, i, reply);
    }
  }

  lemma BlameKeepsReply(past: Past, later: Past, served: seq<Chain>, i: nat, reply: Reply)
    requires later == past.(blamed := later.blamed) && past.blamed <= later.blamed
    requires i < |served| && RightReply(past, served, i, reply)
    ensures RightReply(later, served, i, reply)
  {
    if served[i].body.request.ReadRequest? && MayFail(past, served[i].body.request.sector, Count(served[i].body)) {
      assert MayFail(later, served[i].body.request.sector, Count(served[i].body));
    }
  }

  /** An HTTP answer keeps the disk, and marks as failed only the chunk it is blamed for. */
  lemma ServiceKeepsDisk(st: Store, base: Image, past: Past, chains: seq<Chain>, e: Event)
    requires OnDisk(st, st.shape, base, past, chains) && (e.Arrive? || e.Break?)
    requires e.Arrive? ==> Honest(st, base, e.id, e.chunk)
    ensures OnDisk(AfterService(st, e), st.shape, base, past.(blamed := past.blamed + Blamed(st, e)), chains)
  {
    if e.Arrive? { CompleteKeepsInv(st, base, e.id, e.chunk); } else { FailKeepsInv(st, base, e.id); }
    SameDisk(st, AfterService(st, e), base, past.initial, chains);
    FailedIsBlamed(st, e);
  }

  lemma FailedIsBlamed(st: Store, e: Event)
    requires e.Arrive? || e.Break?
    ensures AfterService(st, e).failed <= st.failed + Blamed(st, e)
  {
  }

  lemma NextKeepsInv(w: World, base: Image, initial: nat -> Sector, e: Event, taken: nat) returns (after: nat)
    requires Judge(w, base, initial, taken).Sound? && taken <= |w.driver.posted| && Possible(w, base, e)
    ensures Judge(Next(w, e), base, initial, after).Sound?
  {
    after := taken;
    match e
    case Post(chain) => PostKeepsInv(w, base, initial, taken, chain);
    case Kick => if w.device.pending.None? { after := DrainKeepsInv(w, base, initial, taken); }
    case Retry => after := ResumeKeepsInv(w, base, initial, taken);
    case Reap => ReapKeepsInv(w, base, initial, taken);
    case Arrive(_, _) => ArriveKeepsInv(w, base, initial, taken, e);
    case Break(_) => ArriveKeepsInv(w, base, initial, taken, e);
  }

  ghost predicate IsRun(worlds: seq<World>, base: Image, events: seq<Event>) {
    && |worlds| == |events| + 1
    && forall i {:trigger events[i]} :: 0 <= i < |events| ==>
         Possible(worlds[i], base, events[i]) && worlds[i + 1] == Next(worlds[i], events[i])
  }

  ghost function WorldVerdict(w: World, base: Image, initial: nat -> Sector): Verdict {
    if WorldInv(w, base, initial) then Sound else Unsound
  }

  lemma EventKeepsInv(w: World, base: Image, initial: nat -> Sector, e: Event, next: World)
    requires WorldVerdict(w, base, initial).Sound? && Possible(w, base, e) && next == Next(w, e)
    ensures WorldVerdict(next, base, initial).Sound?
  {
    var taken: nat :| InStep(w, base, initial, taken);
    var after := NextKeepsInv(w, base, initial, e, taken);
    assert InStep(next, base, initial, after);
  }

  /** What every possible event keeps holds along a run. */
  lemma {:induction false} AlongRun(worlds: seq<World>, base: Image, events: seq<Event>, judge: World -> Verdict,
                                    n: nat)
    requires IsRun(worlds, base, events) && n <= |events| && judge(worlds[0]).Sound?
    requires forall w, e :: judge(w).Sound? && Possible(w, base, e) ==> judge(Next(w, e)).Sound?
    ensures judge(worlds[n]).Sound?
    decreases n
  {
    if n > 0 {
      AlongRun(worlds, base, events, judge, n - 1);
      assert Possible(worlds[n - 1], base, events[n - 1]);
    }
  }

  lemma RunIsSound(worlds: seq<World>, base: Image, initial: nat -> Sector, events: seq<Event>, n: nat)
    requires IsRun(worlds, base, events) && n <= |events| && WorldVerdict(worlds[0], base, initial).Sound?
    ensures WorldVerdict(worlds[n], base, initial).Sound?
  {
    forall w, e | WorldVerdict(w, base, initial).Sound? && Possible(w, base, e)
      ensures WorldVerdict(Next(w, e), base, initial).Sound? {
      EventKeepsInv(w, base, initial, e, Next(w, e));
    }
    AlongRun(worlds, base, events, w => WorldVerdict(w, base, initial), n);
  }

  /**
   The receipts are those of the well-formed chains posted, once each, in posting order, with the right replies
   and lengths; a read has failed only over a chunk of its own that failed while demanded.
   */
  ghost predicate ReadsBackInOrder(w: World, initial: nat -> Sector) {
    var all := Accepted(w.device.store.shape, w.driver.posted);
    && RightReceipts(w.driver.reaped, PastOf(w, initial), all)
    && forall i {:trigger w.driver.reaped[i]} :: 0 <= i < |w.driver.reaped| ==>
         RightLength(all[i].body, w.driver.reaped[i].reply, w.driver.reaped[i].element.written)
  }

  lemma SoundReadsBack(w: World, base: Image, initial: nat -> Sector)
    requires WorldInv(w, base, initial)
    ensures ReadsBackInOrder(w, initial)
  {
    var taken: nat :| InStep(w, base, initial, taken);
    ReceiptsInOrder(w.driver.reaped, PastOf(w, initial), w.device.store.shape, w.driver.posted, taken);
    LengthsInOrder(w.driver.reaped, PastOf(w, initial), w.device.store.shape, w.driver.posted);
  }

  lemma LengthsInOrder(reaped: seq<Receipt>, past: Past, shape: Shape, posted: seq<Chain>)
    requires RightReceipts(reaped, past, Accepted(shape, posted))
    ensures forall i {:trigger reaped[i]} :: 0 <= i < |reaped| ==>
              RightLength(Accepted(shape, posted)[i].body, reaped[i].reply, reaped[i].element.written)
  {
    var all := Accepted(shape, posted);
    forall i | 0 <= i < |reaped| ensures RightLength(all[i].body, reaped[i].reply, reaped[i].element.written) {
      AcceptedAreWellFormed(shape, posted, i);
      LengthIsRight(past, all, i, reaped[i].reply, shape);
    }
  }

  lemma ReceiptsInOrder(reaped: seq<Receipt>, past: Past, shape: Shape, posted: seq<Chain>, taken: nat)
    requires taken <= |posted| && RightReceipts(reaped, past, Accepted(shape, posted[..taken]))
    ensures RightReceipts(reaped, past, Accepted(shape, posted))
  {
    AcceptedPrefix(shape, posted, taken);
    ReceiptsGrow(reaped, past, Accepted(shape, posted[..taken]), Accepted(shape, posted));
  }

  /**
   Over every run the driver reads from the used ring exactly the well-formed chains it posted, once each
   and in order; at most one chain taken is not yet published; reads see exactly the writes before them.
   */
  lemma EveryRunIsSequential(worlds: seq<World>, base: Image, initial: nat -> Sector, events: seq<Event>, n: nat)
    requires IsRun(worlds, base, events) && n <= |events| && WorldInv(worlds[0], base, initial)
    ensures WorldInv(worlds[n], base, initial) && ReadsBackInOrder(worlds[n], initial)
  {
    RunIsSound(worlds, base, initial, events, n);
    SoundReadsBack(worlds[n], base, initial);
  }

  /** What is published is a prefix of the well-formed chains posted, and a chain held back is the one after it. */
  lemma HeldBackIsNext(w: World, base: Image, initial: nat -> Sector) returns (n: nat)
    requires WorldInv(w, base, initial)
    ensures var all := Accepted(w.device.store.shape, w.driver.posted);
            && n <= |all| && Holds(w.memory.used, w.driver.lastUsed, Elements(all[..n]), |w.driver.reaped|)
            && (w.device.pending.Some? ==> n < |all| && all[n].head == w.device.pending.value)
  {
    var taken: nat :| InStep(w, base, initial, taken);
    n := HeldBackAfter(w, taken, Accepted(w.device.store.shape, w.driver.posted[..taken]));
  }

  lemma HeldBackAfter(w: World, taken: nat, served: seq<Chain>) returns (n: nat)
    requires Protocol(w, taken, served) && served == Accepted(w.device.store.shape, w.driver.posted[..taken])
    ensures var all := Accepted(w.device.store.shape, w.driver.posted);
            && n <= |all| && Holds(w.memory.used, w.driver.lastUsed, Elements(all[..n]), |w.driver.reaped|)
            && (w.device.pending.Some? ==> n < |all| && all[n].head == w.device.pending.value)
  {
    n := Published(w.device, served);
    AcceptedPrefix(w.device.store.shape, w.driver.posted, taken);
    assert Accepted(w.device.store.shape, w.driver.posted)[..n] == served[..n];
  }

  /** After a successful kick with nothing held back, every well-formed chain posted is in the used ring or read. */
  lemma KickPublishesAll(w: World, base: Image, initial: nat -> Sector)
    requires WorldInv(w, base, initial)
    ensures var r := Notify(w.device, w.memory);
            r.ok && r.device.pending.None? ==>
              var all := Accepted(r.device.store.shape, w.driver.posted);
              Holds(r.memory.used, w.driver.lastUsed, Elements(all), |w.driver.reaped|)
  {
    var taken: nat :| InStep(w, base, initial, taken);
    var r := Notify(w.device, w.memory);
    if r.ok && r.device.pending.None? {
      var after := DrainKeepsInv(w, base, initial, taken);
      AllPublished(After(w, r), base, initial);
    }
  }

  lemma AllPublished(w: World, base: Image, initial: nat -> Sector)
    requires Judge(w, base, initial, |w.driver.posted|).Sound? && w.device.pending.None?
    ensures var all := Accepted(w.device.store.shape, w.driver.posted);
            Holds(w.memory.used, w.driver.lastUsed, Elements(all), |w.driver.reaped|)
  {
    var posted := w.driver.posted;
    assert posted[..|posted|] == posted;
    var all := Accepted(w.device.store.shape, posted);
    assert all[..|all|] == all;
  }

  // ------------------------------------------------------------------------- the start

  ghost predicate FreshRings(m: Memory) {
    m.avail.index == 0 && m.used.index == 0 && |m.avail.slots| == |m.used.slots|
  }

  /** A queue just set up over any sound store, as after opening or resetting the device. */
  lemma StartIsSound(st: Store, base: Image, m: Memory, initial: nat -> Sector)
    requires Inv(st, base) && FreshRings(m)
    requires forall t: nat :: initial(t) == DiskSector(st.shape, st.overlays, base, t)
    ensures WorldInv(World(Device(st, 0, None), m, Driver([], [], 0, {}), st.failed), base, initial)
  {
    var w := World(Device(st, 0, None), m, Driver([], [], 0, {}), st.failed);
    assert Accepted(st.shape, w.driver.posted[..0]) == [];
    assert Heads([]) == [] && Elements([]) == [];
    assert InStep(w, base, initial, 0);
  }

  /** The disk just opened reads as the base image. */
  lemma OpenedStartIsSound(shape: Shape, cacheLimit: nat, base: Image, m: Memory)
    requires Formed(shape, base) && FreshRings(m)
    ensures WorldInv(World(Device(HttpDisk.Opened(shape, cacheLimit), 0, None), m, Driver([], [], 0, {}), {}), base,
                     (t: nat) => ChunkSector(shape, base(BlockOf(shape, t)), t))
  {
    HttpDisk.OpenedIsInv(shape, cacheLimit, base);
    StartIsSound(HttpDisk.Opened(shape, cacheLimit), base, m,
                 (t: nat) => ChunkSector(shape, base(BlockOf(shape, t)), t));
  }

  // ------------------------------------------------------------------------- the object

  /** Guest memory of one queue, written by both sides. */
  class QueueMemory {
    var avail: Avail
    var used: Used
    var table: map<nat, Body>
    var answers: map<nat, Reply>

    constructor (start: Memory)
      ensures State() == start
    {
      avail, used, table, answers := start.avail, start.used, start.table, start.answers;
    }

    ghost function State(): Memory
      reads this
    {
      Memory(avail, used, table, answers)
    }

    method FetchChain(lastAvail: U16) returns (f: Fetched)
      ensures f == NextChain(State(), lastAvail)
    {
      if avail.index == lastAvail { return Empty; }
      var head := avail.slots[VirtQueue.Slot(avail.slots, lastAvail)];
      if head >= |avail.slots| || head !in table { return BadChain; }
      f := Fetched(Chain(head, table[head]));
    }

    method CompleteChain(chain: Chain, reply: Reply)
      requires Length(chain.body) <= chain.body.writable
      modifies this
      ensures State() == Publish(old(State()), chain, reply)
    {
      answers := answers[chain.head := reply];
      used := Put(used, Element(chain.head, Length(chain.body)));
    }
  }

  lemma DrainStep(d: Device, m: Memory, chain: Chain, r: Drained)
    requires NextChain(m, d.lastAvail) == Fetched(chain) && r == ServeNext(d, m, chain)
    ensures Drain(d, m) == if r.ok && r.device.pending.None? then Drain(r.device, r.memory) else r
    ensures Left(r.memory.avail.index, r.device.lastAvail) < Left(m.avail.index, d.lastAvail)
  {
    LeftShrinks(m.avail.index, d.lastAvail);
  }

  lemma DrainEnds(d: Device, m: Memory, f: Fetched)
    requires NextChain(m, d.lastAvail) == f && !f.Fetched?
    ensures Drain(d, m) == Drained(d, m, f.Empty?)
  {
  }

  datatype Status = Replied(reply: Reply) | Waiting | Invalid

  class BlockDevice {
    const backend: HttpDisk.HttpBlockStore
    var lastAvail: U16
    var pending: Option<nat>

    constructor (backend: HttpDisk.HttpBlockStore)
      ensures this.backend == backend && State() == Device(backend.State(), 0, None)
    {
      this.backend := backend;
      lastAvail, pending := 0, None;
    }

    ghost function State(): Device
      reads this, backend
    {
      Device(backend.State(), lastAvail, pending)
    }

    ghost predicate Ready()
      reads this, backend
    {
      backend.shape.sectorsPerBlock > 0 && FetchesInv(backend.State())
    }

    method ServeRequest(body: Body) returns (status: Status)
      requires Ready()
      modifies backend
      ensures match Serve(old(backend.State()), body)
              case Answered(store, reply) => backend.State() == store && status == Replied(reply)
              case Held(store) => backend.State() == store && status == Waiting
              case Malformed => backend.State() == old(backend.State()) && status == Invalid
    {
      if body.request.Garbled? || body.writable < 1 { return Invalid; }
      match body.request
      case ReadRequest(sector) =>
        var count := Count(body);
        if (body.writable - 1) % SECTOR_SIZE != 0 || !InRange(backend.shape, sector, count) { return Invalid; }
        var r := backend.ReadSectors(sector, count);
        if r.Ok? { return Replied(Data(r.value)); }
        if r.error.MissingBlock? { return Waiting; }
        backend.ClearErrors();
        status := Replied(Failed);
      case WriteRequest(sector, data) =>
        var r := backend.WriteSectors(sector, data);
        status := if r.Err? then Invalid else Replied(Written);
      case IdRequest => status := Replied(if body.writable == 21 then Identity else Unsupported);
      case _ => status := Replied(Unsupported);
    }

    /** The body of the notify loop for the chain just fetched. */
    method TakeChain(memory: QueueMemory, chain: Chain) returns (ok: bool)
      requires Ready() && pending.None?
      modifies this, backend, memory
      ensures var r := ServeNext(old(State()), old(memory.State()), chain);
              State() == r.device && memory.State() == r.memory && ok == r.ok
      ensures Ready()
    {
      lastAvail := Advance(lastAvail);
      if WellFormed(backend.shape, chain.body) { ServeKeepsFetches(backend.State(), chain.body); }
      var status := ServeRequest(chain.body);
      if status.Invalid? { return false; }
      if status.Waiting? {
        pending := Some(chain.head);
        return true;
      }
      memory.CompleteChain(chain, status.reply);
      ok := true;
    }

    method NotifyQueue(memory: QueueMemory) returns (ok: bool)
      requires Ready()
      modifies this, backend, memory
      ensures Drained(State(), memory.State(), ok) == Notify(old(State()), old(memory.State()))
      ensures Ready()
    {
      if pending.Some? { return true; }
      ghost var goal := Drain(State(), memory.State());
      var fetched := memory.FetchChain(lastAvail);
      while fetched.Fetched?
        invariant Ready() && pending.None?
        invariant fetched == NextChain(memory.State(), lastAvail)
        invariant Drain(State(), memory.State()) == goal
        decreases Left(memory.avail.index, lastAvail)
      {
        DrainStep(State(), memory.State(), fetched.chain, ServeNext(State(), memory.State(), fetched.chain));
        ok := TakeChain(memory, fetched.chain);
        if !ok || pending.Some? { return; }
        fetched := memory.FetchChain(lastAvail);
      }
      DrainEnds(State(), memory.State(), fetched);
      ok := fetched.Empty?;
    }

    method ResumeQueue(memory: QueueMemory) returns (ok: bool)
      requires Ready()
      modifies this, backend, memory
      ensures Drained(State(), memory.State(), ok) == Resume(old(State()), old(memory.State()))
      ensures Ready()
    {
      if pending.None? { return true; }
      var head := pending.value;
      pending := None;
      if head !in memory.table { return false; }
      var chain := Chain(head, memory.table[head]);
      if WellFormed(backend.shape, chain.body) { ServeKeepsFetches(backend.State(), chain.body); }
      var status := ServeRequest(chain.body);
      if status.Invalid? { return false; }
      if status.Waiting? {
        pending := Some(head);
        return true;
      }
      memory.CompleteChain(chain, status.reply);
      ok := NotifyQueue(memory);
    }
  }
}
