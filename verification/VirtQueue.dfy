/**
 The split virtqueue of src/virtio.rs: a ring of chain heads the driver fills, a ring of
 elements the device fills, both with 16-bit indices that wrap around.
 */
module VirtQueue {
  import opened Wrappers
  import opened Arithmetic

  const WRAP: nat := 0x1_0000

  type U16 = n: nat | n < WRAP

  /** A queue size is a power of two that fits 16 bits; all that matters is that it divides 2^16. */
  predicate IsQueueSize(size: nat) {
    0 < size < WRAP && WRAP % size == 0
  }

  /** A used element: the head of a finished chain and the bytes written into it. */
  datatype Element = Element(head: nat, written: nat)

  /** One direction of a queue: its slots and the wrapping count of items ever put. */
  datatype RawRing<T> = Ring(slots: seq<T>, index: nat)

  predicate Shaped<T>(ring: RawRing<T>) {
    IsQueueSize(|ring.slots|) && ring.index < WRAP
  }

  type Avail = r: RawRing<nat> | Shaped(r) witness Ring([0], 0)
  type Used = r: RawRing<Element> | Shaped(r) witness Ring([Element(0, 0)], 0)

  function Advance(index: U16): U16 {
    (index + 1) % WRAP
  }

  /** Items put and not yet taken by a reader that stands at `last`. */
  function Left(index: U16, last: U16): U16 {
    if last <= index then index - last else index + WRAP - last
  }

  lemma LeftShrinks(index: U16, last: U16)
    requires last != index
    ensures Left(index, Advance(last)) < Left(index, last)
  {
  }

  function Slot<T>(slots: seq<T>, i: nat): nat
    requires |slots| > 0
    ensures Slot(slots, i) < |slots|
  {
    i % |slots|
  }

  /** Writes the slot the index points at, then moves the index. */
  function Put<T>(ring: RawRing<T>, item: T): (after: RawRing<T>)
    requires Shaped(ring)
    ensures Shaped(after) && |after.slots| == |ring.slots|
  {
    Ring(ring.slots[Slot(ring.slots, ring.index) := item], Advance(ring.index))
  }

  /** Nothing when the indices agree, else the item in the slot the reader points at. */
  function Get<T>(ring: RawRing<T>, last: U16): Option<T>
    requires Shaped(ring)
  {
    if last == ring.index then None else Some(ring.slots[Slot(ring.slots, last)])
  }

  // ------------------------------------------------------------ what a ring holds

  /** The ring holds the items put and not yet taken, and both counts are known up to wrap-around. */
  ghost predicate Holds<T>(ring: RawRing<T>, last: nat, items: seq<T>, taken: nat) {
    && Shaped(ring) && taken <= |items| <= taken + |ring.slots|
    && ring.index == |items| % WRAP && last == taken % WRAP
    && Stored(ring.slots, items, taken)
  }

  ghost predicate Stored<T>(slots: seq<T>, items: seq<T>, taken: nat)
    requires |slots| > 0
  {
    forall i {:trigger items[i]} :: taken <= i < |items| ==> slots[Slot(slots, i)] == items[i]
  }

  lemma ModDivides(i: nat, size: nat)
    requires IsQueueSize(size)
    ensures i % WRAP % size == i % size
  {
    var k, q, r := WRAP / size, i / WRAP, i % WRAP;
    QuotientFacts(WRAP, size);
    QuotientFacts(i, WRAP);
    QuotientFacts(r, size);
    Regroup(size, k, q, r / size, r % size);
    DivModUnique(i, size, k * q + r / size, r % size);
  }

  lemma Regroup(size: nat, k: nat, q: nat, n: nat, m: nat)
    ensures size * k * q + (size * n + m) == size * (k * q + n) + m
  {
  }

  lemma DistinctSlots(i: nat, j: nat, size: nat)
    requires size > 0 && i < j < i + size
    ensures i % size != j % size
  {
    QuotientFacts(i, size);
    QuotientFacts(j, size);
    if i % size == j % size {
      Difference(size, j / size, i / size);
      SmallMultiple(size, j / size - i / size, j - i);
    }
  }

  lemma Advances(n: nat)
    ensures (n % WRAP + 1) % WRAP == (n + 1) % WRAP
  {
  }

  lemma IndicesAgree(n: nat, m: nat)
    requires n <= m < n + WRAP
    ensures n % WRAP == m % WRAP <==> n == m
  {
    if n < m { DistinctSlots(n, m, WRAP); }
  }

  /** A reader takes the items in the order they were put, across index wrap-around. */
  lemma TakeIsNext<T>(ring: RawRing<T>, last: nat, items: seq<T>, taken: nat)
    requires Holds(ring, last, items, taken)
    ensures Get(ring, last) == if taken == |items| then None else Some(items[taken])
  {
    IndicesAgree(taken, |items|);
    ModDivides(taken, |ring.slots|);
    if taken < |items| { assert ring.slots[Slot(ring.slots, taken)] == items[taken]; }
  }

  lemma TakeKeepsHolds<T>(ring: RawRing<T>, last: nat, items: seq<T>, taken: nat)
    requires Holds(ring, last, items, taken) && taken < |items|
    ensures Holds(ring, (last + 1) % WRAP, items, taken + 1)
  {
    Advances(taken);
  }

  /** A writer with a free slot overwrites nothing that is still to be taken. */
  lemma PutKeepsHolds<T>(ring: RawRing<T>, last: nat, items: seq<T>, taken: nat, item: T)
    requires Holds(ring, last, items, taken) && |items| < taken + |ring.slots|
    ensures Holds(Put(ring, item), last, items + [item], taken)
  {
    Advances(|items|);
    ModDivides(|items|, |ring.slots|);
    StoredAfter(ring.slots, items, taken, item);
  }

  lemma StoredAfter<T>(slots: seq<T>, items: seq<T>, taken: nat, item: T)
    requires |slots| > 0 && taken <= |items| < taken + |slots| && Stored(slots, items, taken)
    ensures Stored(slots[Slot(slots, |items|) := item], items + [item], taken)
  {
    var after, more := slots[Slot(slots, |items|) := item], items + [item];
    forall i | taken <= i < |more| ensures after[Slot(after, i)] == more[i] {
      if i < |items| {
        DistinctSlots(i, |items|, |slots|);
        assert more[i] == items[i];
      }
    }
  }
}
