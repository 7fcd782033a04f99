/**
 Dirty-page tracking of tinyemu-core/iomem.c and bridge.c: double-buffered bitmaps per
 RAM range that must mark every page written since the last snapshot, although stores
 through the write TLB set no bit.
 */
module DirtyPages {
  import opened Wrappers
  import opened Mmu
  import opened Tlb

  /** A RAM range of consecutive host pages; untracked ranges have no bitmaps. */
  datatype Range = Range(base: nat, count: nat, tracked: bool, mapped: bool, bitmaps: (seq<bool>, seq<bool>),
                         second: bool)

  datatype Machine = Machine(hart: Hart, ranges: seq<Range>)

  function Active(r: Range): seq<bool> {
    if r.second then r.bitmaps.1 else r.bitmaps.0
  }

  predicate Holds(r: Range, host: nat) {
    InHostRange(host, r.base, r.count)
  }

  function Hosts(r: Range): set<nat> {
    HostRange(r.base, r.count)
  }

  predicate Marked(r: Range, host: nat) {
    Holds(r, host) && host - r.base < |Active(r)| && Active(r)[host - r.base]
  }

  function Blank(n: nat): seq<bool> {
    seq(n, _ => false)
  }

  function WithActive(r: Range, bits: seq<bool>): Range {
    if r.second then r.(bitmaps := (r.bitmaps.0, bits)) else r.(bitmaps := (bits, r.bitmaps.1))
  }

  /** phys_mem_set_dirty_bit on whichever range holds the page. */
  function MarkIn(r: Range, host: nat): Range {
    if r.tracked && Holds(r, host) && host - r.base < |Active(r)|
    then WithActive(r, Active(r)[host - r.base := true])
    else r
  }

  function Mark(ranges: seq<Range>, host: nat): seq<Range> {
    seq(|ranges|, i requires 0 <= i < |ranges| => MarkIn(ranges[i], host))
  }

  function MarkUpdate(ranges: seq<Range>, update: Option<Update>): seq<Range> {
    if update.None? then ranges else Mark(ranges, update.value.slot.host)
  }

  // ------------------------------------------------------------------------- events

  datatype Action =
    | Guest(event: Event)
    | TakeDirty(range: nat)
    | ClearDirty(range: nat, page: nat)
    | Remap(range: nat, pages: map<nat, nat>, enabled: bool)

  function MarkWalk(m: Machine, access: Access, addr: nat): seq<Range> {
    var walk := Translate(m.hart.config, m.hart.memory, access, addr / PAGE);
    if walk.Found? then MarkUpdate(m.ranges, walk.update) else m.ranges
  }

  /** The bits an event sets: the walk's own update, slow stores, host writes. */
  function Marks(m: Machine, e: Event): seq<Range>
    requires WellTyped(e)
  {
    match e
    case Load(addr, size) => if Hits(m.hart.loads, addr, size) then m.ranges else MarkWalk(m, Read, addr)
    case Fetch(addr) => if Hits(m.hart.codes, addr, 1) then m.ranges else MarkWalk(m, Code, addr)
    case Check(addr) => MarkWalk(m, Write, addr)
    case Store(addr, size, _) =>
      if Hits(m.hart.stores, addr, size) then m.ranges
      else
        var walk := Translate(m.hart.config, m.hart.memory, Write, addr / PAGE);
        if walk.Found? && walk.page in m.hart.memory.pages
        then Mark(MarkWalk(m, Write, addr), m.hart.memory.pages[walk.page])
        else MarkWalk(m, Write, addr)
    case HostStore(slot, _) => Mark(m.ranges, slot.host)
    case _ => m.ranges
  }

  /** Swap to a cleared bitmap; flush the write TLB only when some bit was set and the range is mapped. */
  function Take(m: Machine, k: nat): Machine
    requires k < |m.ranges|
  {
    var r := m.ranges[k];
    if !r.tracked then m
    else
      var flush := r.mapped && exists i :: 0 <= i < |Active(r)| && Active(r)[i];
      var swapped := r.(second := !r.second);
      Machine(if flush then m.hart.(stores := FlushWrites(m.hart.stores, Hosts(r))) else m.hart,
              m.ranges[k := WithActive(swapped, Blank(|Active(swapped)|))])
  }

  function Clear(m: Machine, k: nat, page: nat): Machine
    requires k < |m.ranges|
  {
    var r := m.ranges[k];
    if !r.tracked || page >= r.count || !Marked(r, r.base + page) then m
    else
      Machine(m.hart.(stores := FlushWrites(m.hart.stores, {r.base + page})),
              m.ranges[k := WithActive(r, Active(r)[page := false])])
  }

  /** Moving, enabling or disabling a range flushes its write entries. */
  function Move(m: Machine, k: nat, pages: map<nat, nat>, enabled: bool): Machine
    requires k < |m.ranges|
  {
    var r := m.ranges[k];
    if pages == m.hart.memory.pages && enabled == r.mapped then m
    else
      Machine(m.hart.(stores := FlushWrites(m.hart.stores, Hosts(r)), memory := m.hart.memory.(pages := pages)),
              m.ranges[k := r.(mapped := enabled)])
  }

  ghost predicate Legal(m: Machine, a: Action) {
    match a
    case Guest(e) => WellTyped(e)
    case TakeDirty(k) => k < |m.ranges|
    case ClearDirty(k, _) => k < |m.ranges|
    case Remap(k, pages, enabled) =>
      && k < |m.ranges|
      && forall j, p :: 0 <= j < |m.ranges| && p in pages && Holds(m.ranges[j], pages[p]) ==>
           if j == k then enabled else m.ranges[j].mapped
  }

  ghost function Act(m: Machine, a: Action): Machine
    requires Legal(m, a)
  {
    match a
    case Guest(e) => Machine(Step(m.hart, e), Marks(m, e))
    case TakeDirty(k) => Take(m, k)
    case ClearDirty(k, page) => Clear(m, k, page)
    case Remap(k, pages, enabled) => Move(m, k, pages, enabled)
  }

  /** The host page of a walk's accessed/dirty update. */
  function Updated(m: Machine, access: Access, addr: nat): set<nat> {
    var walk := Translate(m.hart.config, m.hart.memory, access, addr / PAGE);
    if walk.Found? && walk.update.Some? then {walk.update.value.slot.host} else {}
  }

  /** The host pages an event writes, whether or not a value changes. */
  function Written(m: Machine, e: Event): set<nat>
    requires WellTyped(e)
  {
    match e
    case Load(addr, size) => if Hits(m.hart.loads, addr, size) then {} else Updated(m, Read, addr)
    case Fetch(addr) => if Hits(m.hart.codes, addr, 1) then {} else Updated(m, Code, addr)
    case Check(addr) => Updated(m, Write, addr)
    case Store(addr, size, _) =>
      if Hits(m.hart.stores, addr, size) then {SlotAt(m.hart.stores[TlbIndex(addr)].addend + addr).host}
      else if FillsStores(m, e) then Updated(m, Write, addr) + {FilledHost(m, e)}
      else Updated(m, Write, addr)
    case HostStore(slot, _) => {slot.host}
    case _ => {}
  }

  /** Only a slow store into RAM adds a write entry. */
  predicate FillsStores(m: Machine, e: Event)
    requires WellTyped(e)
  {
    && e.Store? && !Hits(m.hart.stores, e.addr, e.size)
    && var walk := Translate(m.hart.config, m.hart.memory, Write, e.addr / PAGE);
       walk.Found? && walk.page in m.hart.memory.pages
  }

  function FilledHost(m: Machine, e: Event): nat
    requires WellTyped(e) && FillsStores(m, e)
  {
    m.hart.memory.pages[Translate(m.hart.config, m.hart.memory, Write, e.addr / PAGE).page]
  }

  // --------------------------------------------------------------------- invariants

  ghost predicate RangesFormed(ranges: seq<Range>) {
    forall i :: 0 <= i < |ranges| && ranges[i].tracked ==>
      |ranges[i].bitmaps.0| == ranges[i].count && |ranges[i].bitmaps.1| == ranges[i].count
  }

  ghost predicate Disjoint(ranges: seq<Range>) {
    forall i, j, h :: 0 <= i < |ranges| && 0 <= j < |ranges| && Holds(ranges[i], h) && Holds(ranges[j], h) ==> i == j
  }

  /** The page needs no tracking or its bit is set. */
  ghost predicate Covered(ranges: seq<Range>, host: nat) {
    forall i :: 0 <= i < |ranges| && ranges[i].tracked && Holds(ranges[i], host) ==> Marked(ranges[i], host)
  }

  ghost predicate MappedOnly(ranges: seq<Range>, host: nat) {
    forall i :: 0 <= i < |ranges| && Holds(ranges[i], host) ==> ranges[i].mapped
  }

  /** A write entry leads to a whole host page, into a mapped range, whose bit is set. */
  ghost predicate EntryCovered(ranges: seq<Range>, e: Entry) {
    e.vaddr != INVALID ==>
      && e.addend + e.vaddr >= 0 && (e.addend + e.vaddr) % PAGE == 0
      && Covered(ranges, (e.addend + e.vaddr) / PAGE)
      && MappedOnly(ranges, (e.addend + e.vaddr) / PAGE)
  }

  ghost predicate TlbCovered(ranges: seq<Range>, table: Table) {
    forall i :: 0 <= i < TLB_SIZE ==> EntryCovered(ranges, table[i])
  }

  ghost predicate PagesMapped(ranges: seq<Range>, pages: map<nat, nat>) {
    forall p :: p in pages ==> MappedOnly(ranges, pages[p])
  }

  ghost predicate Inv(m: Machine) {
    && RangesFormed(m.ranges) && Disjoint(m.ranges) && Placed(m.hart.stores)
    && TlbCovered(m.ranges, m.hart.stores) && PagesMapped(m.ranges, m.hart.memory.pages)
  }

  // ------------------------------------------------------------------------ marking

  /** The ranges differ only in bits that became set. */
  ghost predicate Grown(a: seq<Range>, b: seq<Range>) {
    |b| == |a| && forall i :: 0 <= i < |a| ==> GrownRange(a[i], b[i])
  }

  ghost predicate GrownRange(a: Range, b: Range) {
    && b.base == a.base && b.count == a.count && b.tracked == a.tracked && b.mapped == a.mapped
    && |b.bitmaps.0| == |a.bitmaps.0| && |b.bitmaps.1| == |a.bitmaps.1|
    && forall h: nat :: Marked(a, h) ==> Marked(b, h)
  }

  lemma MarkGrows(ranges: seq<Range>, host: nat)
    ensures Grown(ranges, Mark(ranges, host))
    ensures RangesFormed(ranges) ==> Covered(Mark(ranges, host), host)
  {
    forall i | 0 <= i < |ranges| ensures GrownRange(ranges[i], Mark(ranges, host)[i]) {
      MarkInGrows(ranges[i], host);
    }
  }

  lemma MarkInGrows(r: Range, host: nat)
    ensures GrownRange(r, MarkIn(r, host))
  {
  }

  lemma GrownTwice(a: seq<Range>, b: seq<Range>, c: seq<Range>)
    requires Grown(a, b) && Grown(b, c)
    ensures Grown(a, c)
  {
    forall i | 0 <= i < |a| ensures GrownRange(a[i], c[i]) {
      assert GrownRange(a[i], b[i]) && GrownRange(b[i], c[i]);
    }
  }

  lemma GrownKeeps(a: seq<Range>, b: seq<Range>, host: nat)
    requires Grown(a, b)
    ensures Covered(a, host) ==> Covered(b, host)
    ensures MappedOnly(a, host) ==> MappedOnly(b, host)
  {
    if Covered(a, host) {
      forall i | 0 <= i < |b| && b[i].tracked && Holds(b[i], host) ensures Marked(b[i], host) {
        assert GrownRange(a[i], b[i]);
        assert Marked(a[i], host);
      }
    }
    if MappedOnly(a, host) {
      forall i | 0 <= i < |b| && Holds(b[i], host) ensures b[i].mapped { assert GrownRange(a[i], b[i]); }
    }
  }

  lemma GrownKeepsShape(a: seq<Range>, b: seq<Range>)
    requires Grown(a, b)
    ensures RangesFormed(a) ==> RangesFormed(b)
    ensures Disjoint(a) ==> Disjoint(b)
  {
    assert forall i :: 0 <= i < |a| ==> GrownRange(a[i], b[i]);
    assert forall i, h :: 0 <= i < |b| && Holds(b[i], h) ==> Holds(a[i], h);
  }

  lemma GrownKeepsTlb(a: seq<Range>, b: seq<Range>, table: Table, pages: map<nat, nat>)
    requires Grown(a, b)
    ensures TlbCovered(a, table) ==> TlbCovered(b, table)
    ensures PagesMapped(a, pages) ==> PagesMapped(b, pages)
  {
    forall h: nat ensures (Covered(a, h) ==> Covered(b, h)) && (MappedOnly(a, h) ==> MappedOnly(b, h)) {
      GrownKeeps(a, b, h);
    }
    if TlbCovered(a, table) {
      forall i | 0 <= i < TLB_SIZE ensures EntryCovered(b, table[i]) { assert EntryCovered(a, table[i]); }
    }
  }

  // ------------------------------------------------------------------- guest events

  lemma WalkMarksGrow(m: Machine, access: Access, addr: nat)
    ensures Grown(m.ranges, MarkWalk(m, access, addr))
  {
    var walk := Translate(m.hart.config, m.hart.memory, access, addr / PAGE);
    if walk.Found? && walk.update.Some? { MarkGrows(m.ranges, walk.update.value.slot.host); }
  }

  lemma MarksGrow(m: Machine, e: Event)
    requires WellTyped(e)
    ensures Grown(m.ranges, Marks(m, e))
  {
    match e
    case Load(addr, _) => WalkMarksGrow(m, Read, addr);
    case Fetch(addr) => WalkMarksGrow(m, Code, addr);
    case Check(addr) => WalkMarksGrow(m, Write, addr);
    case HostStore(slot, _) => MarkGrows(m.ranges, slot.host);
    case Store(addr, size, _) =>
      WalkMarksGrow(m, Write, addr);
      var walk := Translate(m.hart.config, m.hart.memory, Write, addr / PAGE);
      if walk.Found? && walk.page in m.hart.memory.pages {
        var host := m.hart.memory.pages[walk.page];
        MarkGrows(MarkWalk(m, Write, addr), host);
        GrownTwice(m.ranges, MarkWalk(m, Write, addr), Mark(MarkWalk(m, Write, addr), host));
      }
    case _ =>
  }

  /** The write TLB loses entries, or gains one for the page of a slow store. */
  ghost predicate Shrunk(a: Table, b: Table) {
    forall i :: 0 <= i < TLB_SIZE ==> b[i] == a[i] || b[i].vaddr == INVALID
  }

  lemma ShrunkCovered(ranges: seq<Range>, a: Table, b: Table)
    requires Shrunk(a, b) && TlbCovered(ranges, a)
    ensures TlbCovered(ranges, b)
  {
    forall i | 0 <= i < TLB_SIZE ensures EntryCovered(ranges, b[i]) { assert EntryCovered(ranges, a[i]); }
  }

  lemma FilledCovered(ranges: seq<Range>, table: Table, addr: nat, host: nat)
    requires TlbCovered(ranges, table) && Covered(ranges, host) && MappedOnly(ranges, host)
    ensures TlbCovered(ranges, Filled(table, addr, host))
  {
    var f := Filled(table, addr, host);
    forall i | 0 <= i < TLB_SIZE ensures EntryCovered(ranges, f[i]) {
      assert EntryCovered(ranges, table[i]);
      if i == TlbIndex(addr) { assert f[i].addend + f[i].vaddr == host * PAGE; }
    }
  }

  lemma StoresAfter(m: Machine, e: Event)
    requires WellTyped(e)
    ensures Step(m.hart, e).memory.pages == m.hart.memory.pages
    ensures if FillsStores(m, e) then Step(m.hart, e).stores == Filled(m.hart.stores, e.addr, FilledHost(m, e))
            else Shrunk(m.hart.stores, Step(m.hart, e).stores)
  {
    if e.DropWrites? { FlushWritesKeeps(m.hart.stores, e.hosts); }
  }

  lemma SlowStoreMarks(m: Machine, e: Event)
    requires WellTyped(e) && FillsStores(m, e) && RangesFormed(m.ranges)
    ensures Covered(Marks(m, e), FilledHost(m, e))
  {
    WalkMarksGrow(m, Write, e.addr);
    GrownKeepsShape(m.ranges, MarkWalk(m, Write, e.addr));
    MarkGrows(MarkWalk(m, Write, e.addr), FilledHost(m, e));
  }

  lemma GuestKeepsInv(m: Machine, e: Event)
    requires Inv(m) && AllPlaced(m.hart) && WellTyped(e)
    ensures Inv(Machine(Step(m.hart, e), Marks(m, e)))
  {
    var after := Marks(m, e);
    MarksGrow(m, e);
    GrownKeepsShape(m.ranges, after);
    GrownKeepsTlb(m.ranges, after, m.hart.stores, m.hart.memory.pages);
    StepKeepsPlaced(m.hart, e);
    StoresAfter(m, e);
    if FillsStores(m, e) {
      SlowStoreMarks(m, e);
      FilledCovered(after, m.hart.stores, e.addr, FilledHost(m, e));
    } else {
      ShrunkCovered(after, m.hart.stores, Step(m.hart, e).stores);
    }
  }

  // ------------------------------------------------------------- no write goes unmarked

  lemma UpdateIsMarked(m: Machine, access: Access, addr: nat, host: nat)
    requires RangesFormed(m.ranges) && host in Updated(m, access, addr)
    ensures Covered(MarkWalk(m, access, addr), host)
  {
    MarkGrows(m.ranges, host);
  }

  lemma FastStoreIsCovered(m: Machine, addr: nat, size: nat)
    requires Inv(m) && IsSize(size) && addr < ADDRESS_LIMIT && Hits(m.hart.stores, addr, size)
    ensures var e := m.hart.stores[TlbIndex(addr)];
            e.addend + addr >= 0 && Covered(m.ranges, SlotAt(e.addend + addr).host)
  {
    var e := m.hart.stores[TlbIndex(addr)];
    HitMeans(m.hart.stores, addr, size);
    assert EntryCovered(m.ranges, e);
    assert e.addend + addr == e.addend + e.vaddr + addr % PAGE;
  }

  /** Every page an event writes is marked afterwards or needs no tracking. */
  lemma WritesAreMarked(m: Machine, e: Event, host: nat)
    requires Inv(m) && WellTyped(e) && host in Written(m, e)
    ensures Covered(Marks(m, e), host)
  {
    match e
    case Load(addr, _) => UpdateIsMarked(m, Read, addr, host);
    case Fetch(addr) => UpdateIsMarked(m, Code, addr, host);
    case Check(addr) => UpdateIsMarked(m, Write, addr, host);
    case HostStore(slot, _) => MarkGrows(m.ranges, slot.host);
    case Store(addr, size, _) =>
      if Hits(m.hart.stores, addr, size) {
        FastStoreIsCovered(m, addr, size);
      } else {
        SlowStoreIsMarked(m, e, host);
      }
  }

  lemma SlowStoreIsMarked(m: Machine, e: Event, host: nat)
    requires Inv(m) && WellTyped(e) && e.Store? && !Hits(m.hart.stores, e.addr, e.size) && host in Written(m, e)
    ensures Covered(Marks(m, e), host)
  {
    var walked := MarkWalk(m, Write, e.addr);
    if FillsStores(m, e) {
      SlowStoreMarks(m, e);
      if host != FilledHost(m, e) {
        UpdateIsMarked(m, Write, e.addr, host);
        MarkGrows(walked, FilledHost(m, e));
        GrownKeeps(walked, Mark(walked, FilledHost(m, e)), host);
      }
    } else {
      UpdateIsMarked(m, Write, e.addr, host);
    }
  }

  /** A word of memory changes only in a page the event writes. */
  lemma ChangesAreWritten(m: Machine, e: Event, s: Slot)
    requires WellTyped(e) && WordAt(Step(m.hart, e).memory.words, s) != WordAt(m.hart.memory.words, s)
    ensures s.host in Written(m, e)
  {
    if e.Store? { StoreChanges(m, e, s); } else { OtherChanges(m, e, s); }
  }

  lemma StoreChanges(m: Machine, e: Event, s: Slot)
    requires WellTyped(e) && e.Store?
    requires WordAt(Step(m.hart, e).memory.words, s) != WordAt(m.hart.memory.words, s)
    ensures s.host in Written(m, e)
  {
    if FillsStores(m, e) {
      if s.host != FilledHost(m, e) { StoredElsewhere(m, e, s); }
    } else {
      WalkChanges(m, Write, e.addr, s);
    }
  }

  lemma OtherChanges(m: Machine, e: Event, s: Slot)
    requires WellTyped(e) && !e.Store?
    requires WordAt(Step(m.hart, e).memory.words, s) != WordAt(m.hart.memory.words, s)
    ensures s.host in Written(m, e)
  {
    match e
    case Load(addr, _) => WalkChanges(m, Read, addr, s);
    case Fetch(addr) => WalkChanges(m, Code, addr, s);
    case Check(addr) => WalkChanges(m, Write, addr, s);
    case _ =>
  }

  lemma WalkChanges(m: Machine, access: Access, addr: nat, s: Slot)
    ensures var walk := Translate(m.hart.config, m.hart.memory, access, addr / PAGE);
            walk.Found? && WordAt(Applied(m.hart.memory, walk.update).words, s) != WordAt(m.hart.memory.words, s) ==>
              s.host in Updated(m, access, addr)
  {
  }

  lemma StoredElsewhere(m: Machine, e: Event, s: Slot)
    requires WellTyped(e) && FillsStores(m, e) && s.host != FilledHost(m, e)
    requires WordAt(Step(m.hart, e).memory.words, s) != WordAt(m.hart.memory.words, s)
    ensures s.host in Updated(m, Write, e.addr)
  {
    assert SlotAt(FilledHost(m, e) * PAGE + e.addr % PAGE).host == FilledHost(m, e);
  }

  // ---------------------------------------------------------- snapshots, clears, moves

  lemma FlushedHosts(table: Table, hosts: set<nat>, i: nat)
    requires i < TLB_SIZE && FlushWrites(table, hosts)[i].vaddr != INVALID
    ensures FlushWrites(table, hosts)[i] == table[i] && (table[i].addend + table[i].vaddr) / PAGE !in hosts
  {
  }

  /** No write entry leads into an unmarked tracked page or an unmapped range. */
  lemma TakeKeepsInv(m: Machine, k: nat)
    requires Inv(m) && k < |m.ranges|
    ensures Inv(Take(m, k))
  {
    var r, n := m.ranges[k], Take(m, k);
    if r.tracked {
      FlushWritesKeeps(m.hart.stores, Hosts(r));
      forall i | 0 <= i < TLB_SIZE ensures EntryCovered(n.ranges, n.hart.stores[i]) {
        TakeEntry(m, k, i);
      }
      forall p | p in n.hart.memory.pages ensures MappedOnly(n.ranges, n.hart.memory.pages[p]) {
        assert MappedOnly(m.ranges, m.hart.memory.pages[p]);
      }
    }
  }

  lemma TakeEntry(m: Machine, k: nat, i: nat)
    requires Inv(m) && k < |m.ranges| && m.ranges[k].tracked && i < TLB_SIZE
    ensures EntryCovered(Take(m, k).ranges, Take(m, k).hart.stores[i])
  {
    var r, n := m.ranges[k], Take(m, k);
    var e := m.hart.stores[i];
    assert EntryCovered(m.ranges, e);
    FlushWritesKeeps(m.hart.stores, Hosts(r));
    if n.hart.stores[i].vaddr != INVALID {
      var host: nat := (e.addend + e.vaddr) / PAGE;
      assert Holds(r, host) ==> Marked(r, host);
      OthersCovered(m.ranges, k, n.ranges[k], host);
    }
  }

  /** Replacing one range changes nothing for pages outside it. */
  lemma OthersCovered(ranges: seq<Range>, k: nat, r: Range, host: nat)
    requires k < |ranges| && r.base == ranges[k].base && r.count == ranges[k].count && !Holds(r, host)
    ensures Covered(ranges, host) ==> Covered(ranges[k := r], host)
    ensures MappedOnly(ranges, host) ==> MappedOnly(ranges[k := r], host)
  {
  }

  lemma ClearKeepsInv(m: Machine, k: nat, page: nat)
    requires Inv(m) && k < |m.ranges|
    ensures Inv(Clear(m, k, page))
  {
    var r, n := m.ranges[k], Clear(m, k, page);
    if r.tracked && page < r.count && Marked(r, r.base + page) {
      FlushWritesKeeps(m.hart.stores, {r.base + page});
      forall i | 0 <= i < TLB_SIZE ensures EntryCovered(n.ranges, n.hart.stores[i]) {
        ClearEntry(m, k, page, i);
      }
      forall p | p in n.hart.memory.pages ensures MappedOnly(n.ranges, n.hart.memory.pages[p]) {
        assert MappedOnly(m.ranges, m.hart.memory.pages[p]);
      }
    }
  }

  lemma ClearEntry(m: Machine, k: nat, page: nat, i: nat)
    requires Inv(m) && k < |m.ranges| && i < TLB_SIZE
    requires m.ranges[k].tracked && page < m.ranges[k].count && Marked(m.ranges[k], m.ranges[k].base + page)
    ensures EntryCovered(Clear(m, k, page).ranges, Clear(m, k, page).hart.stores[i])
  {
    var r, n := m.ranges[k], Clear(m, k, page);
    var e := m.hart.stores[i];
    assert EntryCovered(m.ranges, e);
    if n.hart.stores[i].vaddr != INVALID {
      FlushedHosts(m.hart.stores, {r.base + page}, i);
      ClearedCovered(m.ranges, k, page, (e.addend + e.vaddr) / PAGE);
    }
  }

  /** Clearing one bit leaves every other page as it was. */
  lemma ClearedCovered(ranges: seq<Range>, k: nat, page: nat, host: nat)
    requires k < |ranges| && ranges[k].tracked && page < ranges[k].count && page < |Active(ranges[k])|
    requires host != ranges[k].base + page
    ensures var r := WithActive(ranges[k], Active(ranges[k])[page := false]);
            && (Covered(ranges, host) ==> Covered(ranges[k := r], host))
            && (MappedOnly(ranges, host) ==> MappedOnly(ranges[k := r], host))
  {
  }

  lemma MoveKeepsInv(m: Machine, k: nat, pages: map<nat, nat>, enabled: bool)
    requires Inv(m) && Legal(m, Remap(k, pages, enabled))
    ensures Inv(Move(m, k, pages, enabled))
  {
    var r, n := m.ranges[k], Move(m, k, pages, enabled);
    if !(pages == m.hart.memory.pages && enabled == r.mapped) {
      FlushWritesKeeps(m.hart.stores, Hosts(r));
      forall i | 0 <= i < TLB_SIZE ensures EntryCovered(n.ranges, n.hart.stores[i]) {
        assert EntryCovered(m.ranges, m.hart.stores[i]);
        if n.hart.stores[i].vaddr != INVALID {
          FlushedHosts(m.hart.stores, Hosts(r), i);
          OthersCovered(m.ranges, k, n.ranges[k], (m.hart.stores[i].addend + m.hart.stores[i].vaddr) / PAGE);
        }
      }
    }
  }

  // ---------------------------------------------------------------------------- runs

  /** The machine and the host pages written since their last snapshot or clear. */
  datatype Observed = Observed(machine: Machine, pending: set<nat>)

  ghost function Observe(o: Observed, a: Action): Observed
    requires Legal(o.machine, a)
  {
    var next := Act(o.machine, a);
    match a
    case Guest(e) => Observed(next, o.pending + Written(o.machine, e))
    case TakeDirty(k) => Observed(next, o.pending - Hosts(o.machine.ranges[k]))
    case ClearDirty(k, page) =>
      var r := o.machine.ranges[k];
      Observed(next, if page < r.count then o.pending - {r.base + page} else o.pending)
    case Remap(_, _, _) => Observed(next, o.pending)
  }

  ghost predicate Lossless(o: Observed) {
    Inv(o.machine) && AllPlaced(o.machine.hart) && forall h :: h in o.pending ==> Covered(o.machine.ranges, h)
  }

  lemma ActKeepsInv(m: Machine, a: Action)
    requires Inv(m) && AllPlaced(m.hart) && Legal(m, a)
    ensures Inv(Act(m, a)) && AllPlaced(Act(m, a).hart)
  {
    match a
    case Guest(e) =>
      GuestKeepsInv(m, e);
      StepKeepsPlaced(m.hart, e);
    case TakeDirty(k) =>
      TakeKeepsInv(m, k);
      FlushWritesKeeps(m.hart.stores, Hosts(m.ranges[k]));
    case ClearDirty(k, page) =>
      ClearKeepsInv(m, k, page);
      FlushWritesKeeps(m.hart.stores, {m.ranges[k].base + page});
    case Remap(k, pages, enabled) =>
      MoveKeepsInv(m, k, pages, enabled);
      FlushWritesKeeps(m.hart.stores, Hosts(m.ranges[k]));
  }

  /** A page still pending after an action is still marked. */
  lemma PendingStaysMarked(o: Observed, a: Action, h: nat)
    requires Lossless(o) && Legal(o.machine, a) && h in Observe(o, a).pending
    ensures Covered(Act(o.machine, a).ranges, h)
  {
    var m := o.machine;
    match a
    case Guest(e) =>
      MarksGrow(m, e);
      GrownKeeps(m.ranges, Marks(m, e), h);
      if h in Written(m, e) { WritesAreMarked(m, e, h); }
    case TakeDirty(k) => OthersCovered(m.ranges, k, Take(m, k).ranges[k], h);
    case ClearDirty(k, page) =>
      if m.ranges[k].tracked && page < m.ranges[k].count && Marked(m.ranges[k], m.ranges[k].base + page) {
        ClearedCovered(m.ranges, k, page, h);
      }
    case Remap(k, pages, enabled) => MovedCovered(m, k, pages, enabled, h);
  }

  lemma MovedCovered(m: Machine, k: nat, pages: map<nat, nat>, enabled: bool, h: nat)
    requires k < |m.ranges| && Covered(m.ranges, h)
    ensures Covered(Move(m, k, pages, enabled).ranges, h)
  {
  }

  lemma ObserveKeepsLossless(o: Observed, a: Action)
    requires Lossless(o) && Legal(o.machine, a)
    ensures Lossless(Observe(o, a))
  {
    ActKeepsInv(o.machine, a);
    forall h | h in Observe(o, a).pending ensures Covered(Observe(o, a).machine.ranges, h) {
      PendingStaysMarked(o, a, h);
    }
  }

  /** A machine just built: a reset hart over well-formed, disjoint, mapped ranges. */
  ghost predicate Created(m: Machine) {
    && m.hart == ResetHart(m.hart)
    && RangesFormed(m.ranges) && Disjoint(m.ranges) && PagesMapped(m.ranges, m.hart.memory.pages)
  }

  lemma CreatedIsLossless(m: Machine)
    requires Created(m)
    ensures Lossless(Observed(m, {}))
  {
    FlushedIsCoherent(m.hart, {});
  }

  /** A run from a machine just built, nothing being pending. */
  ghost predicate IsRun(states: seq<Observed>, actions: seq<Action>) {
    && |states| == |actions| + 1
    && Created(states[0].machine) && states[0].pending == {}
    && forall i {:trigger actions[i]} :: 0 <= i < |actions| ==>
         Legal(states[i].machine, actions[i]) && states[i + 1] == Observe(states[i], actions[i])
  }

  /** Over every run no write to a tracked page goes unmarked. */
  lemma {:induction false} NoWriteIsLost(states: seq<Observed>, actions: seq<Action>, n: nat)
    requires IsRun(states, actions) && n <= |actions|
    ensures Lossless(states[n])
  {
    if n == 0 {
      CreatedIsLossless(states[0].machine);
    } else {
      NoWriteIsLost(states, actions, n - 1);
      ObserveKeepsLossless(states[n - 1], actions[n - 1]);
    }
  }

  /** A snapshot names every page of its range written since the last one. */
  lemma SnapshotIsComplete(states: seq<Observed>, actions: seq<Action>, n: nat, k: nat, h: nat)
    requires IsRun(states, actions) && n <= |actions|
    requires k < |states[n].machine.ranges| && states[n].machine.ranges[k].tracked
    requires h in states[n].pending && Holds(states[n].machine.ranges[k], h)
    ensures var r := states[n].machine.ranges[k];
            h - r.base < |Active(r)| && Active(r)[h - r.base]
  {
    NoWriteIsLost(states, actions, n);
    assert Covered(states[n].machine.ranges, h);
    assert Marked(states[n].machine.ranges[k], h);
  }

  // ------------------------------------------------------------------------ exactness

  /** Only these pages carry marks. */
  ghost predicate MarksWithin(ranges: seq<Range>, pages: set<nat>) {
    forall i, h :: 0 <= i < |ranges| && ranges[i].tracked && Marked(ranges[i], h) ==> h in pages
  }

  lemma MarkStaysWithin(ranges: seq<Range>, host: nat, pages: set<nat>)
    requires MarksWithin(ranges, pages)
    ensures MarksWithin(Mark(ranges, host), pages + {host})
  {
    forall i, h | 0 <= i < |ranges| && ranges[i].tracked && Marked(Mark(ranges, host)[i], h)
      ensures h in pages + {host} {
      if h != host { assert Marked(ranges[i], h); }
    }
  }

  lemma WalkMarksWithin(m: Machine, access: Access, addr: nat, pages: set<nat>)
    requires MarksWithin(m.ranges, pages)
    ensures MarksWithin(MarkWalk(m, access, addr), pages + Updated(m, access, addr))
  {
    var walk := Translate(m.hart.config, m.hart.memory, access, addr / PAGE);
    if walk.Found? && walk.update.Some? {
      MarkStaysWithin(m.ranges, walk.update.value.slot.host, pages);
    }
  }

  /** An event marks no page that it does not write. */
  lemma GuestMarksWithin(m: Machine, e: Event, pages: set<nat>)
    requires WellTyped(e) && MarksWithin(m.ranges, pages)
    ensures MarksWithin(Marks(m, e), pages + Written(m, e))
  {
    match e
    case Load(addr, _) => WalkMarksWithin(m, Read, addr, pages);
    case Fetch(addr) => WalkMarksWithin(m, Code, addr, pages);
    case Check(addr) => WalkMarksWithin(m, Write, addr, pages);
    case HostStore(slot, _) => MarkStaysWithin(m.ranges, slot.host, pages);
    case Store(addr, size, _) =>
      WalkMarksWithin(m, Write, addr, pages);
      if FillsStores(m, e) {
        MarkStaysWithin(MarkWalk(m, Write, addr), FilledHost(m, e), pages + Updated(m, Write, addr));
        assert pages + Written(m, e) == pages + Updated(m, Write, addr) + {FilledHost(m, e)};
      }
    case _ =>
  }

  lemma ActMarksWithin(o: Observed, a: Action)
    requires Inv(o.machine) && Legal(o.machine, a) && MarksWithin(o.machine.ranges, o.pending)
    ensures MarksWithin(Observe(o, a).machine.ranges, Observe(o, a).pending)
  {
    match a
    case Guest(e) => GuestMarksWithin(o.machine, e, o.pending);
    case TakeDirty(k) => TakeMarksWithin(o.machine, k, o.pending);
    case ClearDirty(k, page) =>
      if page < o.machine.ranges[k].count { ClearMarksWithin(o.machine, k, page, o.pending); }
    case Remap(k, pages, enabled) => MoveMarksWithin(o.machine, k, pages, enabled, o.pending);
  }

  lemma TakeMarksWithin(m: Machine, k: nat, pages: set<nat>)
    requires Inv(m) && k < |m.ranges| && MarksWithin(m.ranges, pages)
    ensures MarksWithin(Take(m, k).ranges, pages - Hosts(m.ranges[k]))
  {
    var after := Take(m, k).ranges;
    forall i, h | 0 <= i < |after| && after[i].tracked && Marked(after[i], h)
      ensures h in pages - Hosts(m.ranges[k]) {
      assert Marked(m.ranges[i], h) && Holds(m.ranges[i], h) && !Holds(m.ranges[k], h);
    }
  }

  lemma ClearMarksWithin(m: Machine, k: nat, page: nat, pages: set<nat>)
    requires Inv(m) && k < |m.ranges| && page < m.ranges[k].count && MarksWithin(m.ranges, pages)
    ensures MarksWithin(Clear(m, k, page).ranges, pages - {m.ranges[k].base + page})
  {
    var after, host := Clear(m, k, page).ranges, m.ranges[k].base + page;
    assert Holds(m.ranges[k], host);
    forall i, h | 0 <= i < |after| && after[i].tracked && Marked(after[i], h) ensures h in pages - {host} {
      assert Marked(m.ranges[i], h) && Holds(m.ranges[i], h);
      assert h == host ==> i == k;
    }
  }

  lemma MoveMarksWithin(m: Machine, k: nat, moved: map<nat, nat>, enabled: bool, pages: set<nat>)
    requires k < |m.ranges| && MarksWithin(m.ranges, pages)
    ensures MarksWithin(Move(m, k, moved, enabled).ranges, pages)
  {
    var after := Move(m, k, moved, enabled).ranges;
    forall i, h | 0 <= i < |after| && after[i].tracked && Marked(after[i], h) ensures h in pages {
      assert Marked(m.ranges[i], h);
    }
  }

  /** From blank bitmaps, a page of a tracked range is marked if and only if it was written since its last snapshot. */
  lemma {:induction false} SnapshotIsExact(states: seq<Observed>, actions: seq<Action>, n: nat, k: nat, h: nat)
    requires IsRun(states, actions) && n <= |actions| && MarksWithin(states[0].machine.ranges, {})
    requires k < |states[n].machine.ranges| && states[n].machine.ranges[k].tracked
    ensures Holds(states[n].machine.ranges[k], h) ==>
              (Marked(states[n].machine.ranges[k], h) <==> h in states[n].pending)
  {
    NothingElseIsMarked(states, actions, n);
    if h in states[n].pending && Holds(states[n].machine.ranges[k], h) {
      SnapshotIsComplete(states, actions, n, k, h);
    }
  }

  lemma {:induction false} NothingElseIsMarked(states: seq<Observed>, actions: seq<Action>, n: nat)
    requires IsRun(states, actions) && n <= |actions| && MarksWithin(states[0].machine.ranges, {})
    ensures MarksWithin(states[n].machine.ranges, states[n].pending)
  {
    if n > 0 {
      NothingElseIsMarked(states, actions, n - 1);
      NoWriteIsLost(states, actions, n - 1);
      ActMarksWithin(states[n - 1], actions[n - 1]);
    }
  }

  // ------------------------------------------------------------------ reading a snapshot

  /** The bitmap that is not being marked: the last snapshot of the range. */
  function Frozen(r: Range): seq<bool> {
    if r.second then r.bitmaps.0 else r.bitmaps.1
  }

  /** Range k was not swapped, and its snapshot is the same. */
  ghost predicate SnapshotKept(a: seq<Range>, b: seq<Range>, k: nat) {
    |b| == |a| && (k < |a| ==> Frozen(b[k]) == Frozen(a[k]) && b[k].second == a[k].second)
  }

  lemma MarkKeepsSnapshot(ranges: seq<Range>, host: nat, k: nat)
    ensures SnapshotKept(ranges, Mark(ranges, host), k)
  {
  }

  lemma MarksKeepSnapshot(m: Machine, e: Event, k: nat)
    requires WellTyped(e)
    ensures SnapshotKept(m.ranges, Marks(m, e), k)
  {
    forall ranges: seq<Range>, host: nat ensures SnapshotKept(ranges, Mark(ranges, host), k) {
      MarkKeepsSnapshot(ranges, host, k);
    }
  }

  lemma ActKeepsSnapshot(m: Machine, a: Action, k: nat)
    requires Legal(m, a) && a != TakeDirty(k)
    ensures SnapshotKept(m.ranges, Act(m, a).ranges, k)
  {
    if a.Guest? { MarksKeepSnapshot(m, a.event, k); }
  }

  /** The snapshot taken is the old active bitmap, and marking starts from a blank one. */
  lemma TakeFreezes(m: Machine, k: nat)
    requires Inv(m) && k < |m.ranges| && m.ranges[k].tracked
    ensures var r := Take(m, k).ranges[k];
            Frozen(r) == Active(m.ranges[k]) && forall h: nat :: !Marked(r, h)
  {
  }

  lemma {:induction false} SnapshotStays(states: seq<Observed>, actions: seq<Action>, k: nat, n: nat, p: nat)
    requires IsRun(states, actions) && n <= p <= |actions|
    requires forall i :: n <= i < p ==> actions[i] != TakeDirty(k)
    ensures SnapshotKept(states[n].machine.ranges, states[p].machine.ranges, k)
    decreases p
  {
    if n < p {
      SnapshotStays(states, actions, k, n, p - 1);
      ActKeepsSnapshot(states[p - 1].machine, actions[p - 1], k);
    }
  }

  /** Until the next one, a snapshot names the pages written before it, whatever the guest does meanwhile. */
  lemma SnapshotReadsBack(states: seq<Observed>, actions: seq<Action>, k: nat, n: nat, p: nat, page: nat)
    requires IsRun(states, actions) && n < p <= |actions| && MarksWithin(states[0].machine.ranges, {})
    requires actions[n] == TakeDirty(k) && forall i :: n < i < p ==> actions[i] != TakeDirty(k)
    requires states[n].machine.ranges[k].tracked && page < states[n].machine.ranges[k].count
    ensures k < |states[p].machine.ranges|
    ensures var r, base := states[p].machine.ranges[k], states[n].machine.ranges[k].base;
            page < |Frozen(r)| && (Frozen(r)[page] <==> base + page in states[n].pending)
  {
    NoWriteIsLost(states, actions, n);
    TakeFreezes(states[n].machine, k);
    SnapshotStays(states, actions, k, n + 1, p);
    SnapshotIsExact(states, actions, n, k, states[n].machine.ranges[k].base + page);
  }

  // ---------------------------------------------------------------------- the object

  /** One RAM range's two bitmaps, swapped and cleared in place. */
  class DirtyRange {
    const base: nat
    const count: nat
    const first: array<bool>
    const last: array<bool>
    var second: bool

    ghost predicate Valid() {
      first.Length == count && last.Length == count && first != last
    }

    ghost function State(mapped: bool): Range
      reads this, first, last
    {
      Range(base, count, true, mapped, (first[..], last[..]), second)
    }

    /** The bitmap stores mark now. */
    function Current(): array<bool>
      reads this
    {
      if second then last else first
    }

    constructor (base: nat, count: nat)
      ensures Valid() && fresh(first) && fresh(last) && this.base == base && this.count == count
      ensures State(true) == Range(base, count, true, true, (Blank(count), Blank(count)), false)
    {
      this.base, this.count, second := base, count, false;
      first := new bool[count](_ => false);
      last := new bool[count](_ => false);
      new;
      assert first[..] == Blank(count) && last[..] == Blank(count);
    }

    method SetDirtyBit(page: nat)
      requires Valid() && page < count
      modifies Current()
      ensures forall mapped :: State(mapped) == MarkIn(old(State(mapped)), base + page)
    {
      var bits := Current();
      bits[page] := true;
    }

    /** tinyemu_core_ram_range on a write: every page the bytes touch is marked, no other changes. */
    method MarkBytes(offset: nat, length: nat)
      requires Valid() && offset + length <= count * PAGE
      modifies Current()
      ensures forall i :: 0 <= i < count ==>
                Active(State(true))[i]
                == (old(Active(State(true))[i]) || (length > 0 && offset / PAGE <= i <= (offset + length - 1) / PAGE))
    {
      if length == 0 { return; }
      var bits := Current();
      var page := offset / PAGE;
      while page <= (offset + length - 1) / PAGE
        invariant offset / PAGE <= page <= (offset + length - 1) / PAGE + 1
        invariant forall i :: 0 <= i < count ==> bits[i] == (old(bits[i]) || offset / PAGE <= i < page)
      {
        bits[page] := true;
        page := page + 1;
      }
    }

    /** default_get_dirty_bits: whether the write TLB must be flushed, and the bits now frozen. */
    method TakeDirtyBits(mapped: bool) returns (flush: bool, frozen: seq<bool>)
      requires Valid()
      modifies this`second, first, last
      ensures frozen == old(Active(State(mapped)))
      ensures flush == (mapped && exists i :: 0 <= i < count && frozen[i])
      ensures State(mapped) == WithActive(old(State(mapped)).(second := !old(second)), Blank(count))
    {
      var bits := Current();
      frozen := bits[..];
      var any := false;
      for i := 0 to count
        invariant any <==> exists j :: 0 <= j < i && frozen[j]
      {
        if frozen[i] { any := true; }
      }
      flush := any && mapped;
      second := !second;
      var spare := Current();
      for i := 0 to count
        invariant forall j :: 0 <= j < i ==> !spare[j]
        invariant bits[..] == frozen && second == !old(second)
      {
        spare[i] := false;
      }
      assert spare[..] == Blank(count);
    }

    method ResetDirtyBit(page: nat) returns (flush: bool)
      requires Valid() && page < count
      modifies Current()
      ensures flush == old(Active(State(true))[page])
      ensures Active(State(true)) == old(Active(State(true)))[page := false]
    {
      var bits := Current();
      flush := bits[page];
      if flush { bits[page] := false; }
    }
  }
}
