/**
 The software TLBs over every run: below machine mode MPRV is clear, and a hit gives
 what the page walk gives as long as page tables change only by accessed/dirty updates.
 */
module Tlb {
  import opened Wrappers
  import opened Mmu

  /** A page-aligned virtual address, or INVALID, and host address minus virtual address. */
  datatype Entry = Entry(vaddr: nat, addend: int)

  type Table = s: seq<Entry> | |s| == TLB_SIZE witness seq(TLB_SIZE, _ => Entry(INVALID, 0))

  datatype Hart = Hart(config: Config, spp: nat, memory: Memory, loads: Table, stores: Table, codes: Table)

  function Empty(): Table {
    seq(TLB_SIZE, _ => Entry(INVALID, 0))
  }

  function TableOf(h: Hart, access: Access): Table {
    match access
    case Read => h.loads
    case Write => h.stores
    case Code => h.codes
  }

  function TlbIndex(addr: nat): nat { addr / PAGE % TLB_SIZE }

  /** What the fast path compares: the page, and for data the misaligned low bits. */
  function FastTag(addr: nat, size: nat): nat
    requires IsSize(size)
  {
    addr - addr % PAGE + addr % size
  }

  predicate IsSize(size: nat) { size == 1 || size == 2 || size == 4 || size == 8 }

  predicate Hits(table: Table, addr: nat, size: nat)
    requires IsSize(size)
  {
    table[TlbIndex(addr)].vaddr == FastTag(addr, size)
  }

  function Flushed(h: Hart): Hart {
    h.(loads := Empty(), stores := Empty(), codes := Empty())
  }

  function Filled(table: Table, addr: nat, host: nat): Table {
    table[TlbIndex(addr) := Entry(addr - addr % PAGE, host * PAGE + addr % PAGE - addr)]
  }

  function Fill(h: Hart, access: Access, addr: nat, host: nat): Hart {
    match access
    case Read => h.(loads := Filled(h.loads, addr, host))
    case Write => h.(stores := Filled(h.stores, addr, host))
    case Code => h.(codes := Filled(h.codes, addr, host))
  }

  datatype Outcome = Location(host: int) | NotRam | Faulted(page: bool)

  /** The walk, its accessed/dirty update, and the TLB entry when the page is RAM. */
  function SlowAccess(h: Hart, access: Access, addr: nat): (Hart, Outcome) {
    match Translate(h.config, h.memory, access, addr / PAGE)
    case PageFault => (h, Faulted(true))
    case AccessFault => (h, Faulted(false))
    case Found(page, update) =>
      var walked := h.(memory := Applied(h.memory, update));
      if page !in h.memory.pages then (walked, NotRam)
      else (Fill(walked, access, addr, h.memory.pages[page]), Location(h.memory.pages[page] * PAGE + addr % PAGE))
  }

  function AccessMemory(h: Hart, access: Access, addr: nat, size: nat): (Hart, Outcome)
    requires IsSize(size)
  {
    var e := TableOf(h, access)[TlbIndex(addr)];
    if Hits(TableOf(h, access), addr, size) then (h, Location(e.addend + addr)) else SlowAccess(h, access, addr)
  }

  /** The walk alone, as the check before a store-conditional or cache operation runs it. */
  function CheckWrite(h: Hart, addr: nat): Hart {
    var walk := Translate(h.config, h.memory, Write, addr / PAGE);
    if walk.Found? then h.(memory := Applied(h.memory, walk.update)) else h
  }

  // --------------------------------------------------------- mode and status changes

  function SetPriv(h: Hart, priv: nat): Hart {
    if h.config.priv != priv then Flushed(h).(config := h.config.(priv := priv)) else h
  }

  function SetMstatus(h: Hart, mprv: bool, sum: bool, mxr: bool, mpp: nat, spp: nat): Hart {
    var c := h.config;
    var flush := mprv != c.mprv || sum != c.sum || mxr != c.mxr || (c.mprv && mpp != c.mpp);
    (if flush then Flushed(h) else h).(config := c.(mprv := mprv, sum := sum, mxr := mxr, mpp := mpp), spp := spp)
  }

  /** An unknown mode keeps the old one; the root always changes, and every TLB is flushed. */
  function WriteSatp(h: Hart, mode: nat, root: nat): Hart {
    var sv39 := if mode == 0 then false else if mode == 8 then true else h.config.sv39;
    Flushed(h).(config := h.config.(sv39 := sv39, root := root))
  }

  function WriteMenvcfg(h: Hart, adue: bool, pbmte: bool): Hart {
    var flush := adue != h.config.adue || pbmte != h.config.pbmte;
    (if flush then Flushed(h) else h).(config := h.config.(adue := adue, pbmte := pbmte))
  }

  function Trap(h: Hart, delegated: bool): Hart {
    if delegated && h.config.priv <= PRV_S then SetPriv(h.(spp := h.config.priv), PRV_S)
    else SetPriv(h.(config := h.config.(mpp := h.config.priv)), PRV_M)
  }

  function SupervisorReturn(h: Hart): Hart {
    SetPriv(h.(config := h.config.(mprv := false), spp := 0), h.spp)
  }

  function MachineReturn(h: Hart): Hart {
    var mpp := h.config.mpp;
    SetPriv(h.(config := h.config.(mpp := 0, mprv := if mpp < PRV_M then false else h.config.mprv)), mpp)
  }

  /** Drops the write entries into the given host pages. */
  function FlushWrites(table: Table, hosts: set<nat>): Table {
    seq(TLB_SIZE, i requires 0 <= i < TLB_SIZE =>
          if table[i].vaddr != INVALID && (table[i].addend + table[i].vaddr) / PAGE in hosts
          then table[i].(vaddr := INVALID) else table[i])
  }

  predicate InHostRange(h: nat, first: nat, count: nat) {
    first <= h < first + count
  }

  /** Consecutive host pages. */
  function HostRange(first: nat, count: nat): set<nat> {
    set h | first <= h < first + count && InHostRange(h, first, count)
  }

  function ResetHart(h: Hart): Hart {
    Flushed(h).(config := Config(PRV_M, false, 0, false, false, false, 0, false, false), spp := 0)
  }

  // ------------------------------------------------------------------------- events

  datatype Event =
    | MstatusWrite(mprv: bool, sum: bool, mxr: bool, mpp: nat, spp: nat)
    | SstatusWrite(sum: bool, mxr: bool, spp: nat)
    | SatpWrite(mode: nat, root: nat)
    | MenvcfgWrite(adue: bool, pbmte: bool)
    | Fence
    | Take(delegated: bool)
    | Sret
    | Mret
    | Load(addr: nat, size: nat)
    | Fetch(addr: nat)
    | Store(addr: nat, size: nat, word: Word)
    | Check(addr: nat)
    | HostStore(slot: Slot, word: Word)
    | DropWrites(hosts: set<nat>)
    | Restart

  /** Addresses are 64 bits wide; fields have their width. */
  predicate WellTyped(e: Event) {
    match e
    case Load(addr, size) => addr < ADDRESS_LIMIT && IsSize(size)
    case Store(addr, size, _) => addr < ADDRESS_LIMIT && IsSize(size)
    case Fetch(addr) => addr < ADDRESS_LIMIT && addr % 2 == 0
    case Check(addr) => addr < ADDRESS_LIMIT
    case MstatusWrite(_, _, _, mpp, spp) => mpp <= 3 && spp <= 1
    case SstatusWrite(_, _, spp) => spp <= 1
    case _ => true
  }

  /** The word of host memory at a host address. */
  function SlotAt(host: int): Slot
  {
    if host < 0 then Slot(0, 0) else Slot(host / PAGE, host % PAGE / 8)
  }

  function StoreMemory(h: Hart, addr: nat, size: nat, word: Word): Hart
    requires IsSize(size)
  {
    var (next, outcome) := AccessMemory(h, Write, addr, size);
    if outcome.Location? then
      next.(memory := next.memory.(words := next.memory.words[SlotAt(outcome.host) := word]))
    else next
  }

  /** Instructions without the privilege they need change nothing here. */
  function Step(h: Hart, e: Event): Hart
    requires WellTyped(e)
  {
    var priv := h.config.priv;
    match e
    case MstatusWrite(mprv, sum, mxr, mpp, spp) => if priv == PRV_M then SetMstatus(h, mprv, sum, mxr, mpp, spp) else h
    case SstatusWrite(sum, mxr, spp) =>
      if priv >= PRV_S then SetMstatus(h, h.config.mprv, sum, mxr, h.config.mpp, spp) else h
    case SatpWrite(mode, root) => if priv >= PRV_S then WriteSatp(h, mode, root) else h
    case MenvcfgWrite(adue, pbmte) => if priv == PRV_M then WriteMenvcfg(h, adue, pbmte) else h
    case Fence => if priv >= PRV_S then Flushed(h) else h
    case Take(delegated) => Trap(h, delegated)
    case Sret => if priv >= PRV_S then SupervisorReturn(h) else h
    case Mret => if priv == PRV_M then MachineReturn(h) else h
    case Load(addr, size) => AccessMemory(h, Read, addr, size).0
    case Fetch(addr) => AccessMemory(h, Code, addr, 1).0
    case Store(addr, size, word) => StoreMemory(h, addr, size, word)
    case Check(addr) => CheckWrite(h, addr)
    case HostStore(slot, word) => h.(memory := h.memory.(words := h.memory.words[slot := word]))
    case DropWrites(hosts) => h.(stores := FlushWrites(h.stores, hosts))
    case Restart => ResetHart(h)
  }

  // --------------------------------------------------------------------- invariants

  /** Privilege fields are in range and MPRV is clear below machine mode. */
  ghost predicate ModeInv(h: Hart) {
    h.config.priv <= PRV_M && h.config.mpp <= PRV_M && h.spp <= PRV_S && (h.config.priv < PRV_M ==> !h.config.mprv)
  }

  /** Every entry is invalid or names a page whose index it sits at. */
  ghost predicate Placed(table: Table) {
    forall i :: 0 <= i < TLB_SIZE && table[i].vaddr != INVALID ==>
      table[i].vaddr % PAGE == 0 && table[i].vaddr < ADDRESS_LIMIT && TlbIndex(table[i].vaddr) == i
  }

  /** The entry is what a walk would give now, provided the walk loads only these tables. */
  ghost predicate Agrees(c: Config, m: Memory, access: Access, tables: set<Slot>, e: Entry) {
    Visits(c, m, access, e.vaddr / PAGE) <= tables ==>
      var walk := Translate(c, m, access, e.vaddr / PAGE);
      walk.Found? && walk.update.None? && walk.page in m.pages && e.addend + e.vaddr == m.pages[walk.page] * PAGE
  }

  ghost predicate TableAgrees(c: Config, m: Memory, access: Access, tables: set<Slot>, table: Table) {
    forall i :: 0 <= i < TLB_SIZE && table[i].vaddr != INVALID ==> Agrees(c, m, access, tables, table[i])
  }

  ghost predicate Coherent(h: Hart, tables: set<Slot>) {
    h.config.priv < PRV_M ==>
      forall access :: TableAgrees(h.config, h.memory, access, tables, TableOf(h, access))
  }

  ghost predicate AllPlaced(h: Hart) {
    Placed(h.loads) && Placed(h.stores) && Placed(h.codes)
  }

  // --------------------------------------------------------------------- the fast path

  /** The fast path matches exactly aligned accesses to a valid entry's page. */
  lemma HitMeans(table: Table, addr: nat, size: nat)
    requires Placed(table) && IsSize(size) && addr < ADDRESS_LIMIT
    ensures var e := table[TlbIndex(addr)];
            Hits(table, addr, size) <==> e.vaddr != INVALID && e.vaddr / PAGE == addr / PAGE && addr % size == 0
  {
    var e := table[TlbIndex(addr)];
    TagIsSmall(addr, size);
  }

  lemma TagIsSmall(addr: nat, size: nat)
    requires IsSize(size)
    ensures FastTag(addr, size) % PAGE == addr % size < 8
    ensures FastTag(addr, size) / PAGE == addr / PAGE
  {
  }

  /** A hit below machine mode lands where the walk would, with nothing left to update. */
  lemma HitIsWalk(h: Hart, tables: set<Slot>, access: Access, addr: nat, size: nat)
    requires ModeInv(h) && AllPlaced(h) && Coherent(h, tables) && h.config.priv < PRV_M
    requires IsSize(size) && addr < ADDRESS_LIMIT && Hits(TableOf(h, access), addr, size)
    requires Visits(h.config, h.memory, access, addr / PAGE) <= tables
    ensures var walk := Translate(h.config, h.memory, access, addr / PAGE);
            && walk.Found? && walk.update.None? && walk.page in h.memory.pages
            && AccessMemory(h, access, addr, size) == (h, Location(h.memory.pages[walk.page] * PAGE + addr % PAGE))
  {
    HitMeans(TableOf(h, access), addr, size);
    var e := TableOf(h, access)[TlbIndex(addr)];
    assert TableAgrees(h.config, h.memory, access, tables, TableOf(h, access));
    assert Agrees(h.config, h.memory, access, tables, e);
    assert e.vaddr == addr - addr % PAGE;
  }

  /** A write hit implies that the leaf's dirty bit is already set. */
  lemma WriteHitIsDirty(h: Hart, tables: set<Slot>, addr: nat, size: nat)
    requires ModeInv(h) && AllPlaced(h) && Coherent(h, tables) && h.config.priv < PRV_M && h.config.sv39
    requires IsSize(size) && addr < ADDRESS_LIMIT && Hits(h.stores, addr, size)
    requires Visits(h.config, h.memory, Write, addr / PAGE) <= tables
    ensures LeafFrom(h.memory, addr / PAGE, 0, h.config.root).accessed
    ensures LeafFrom(h.memory, addr / PAGE, 0, h.config.root).dirty
  {
    HitIsWalk(h, tables, Write, addr, size);
    SettledBits(h.config, h.memory, Write, addr / PAGE, 0, h.config.root);
  }

  // ------------------------------------------------------------------ keeping coherent

  lemma EmptyAgrees(c: Config, m: Memory, access: Access, tables: set<Slot>)
    ensures TableAgrees(c, m, access, tables, Empty()) && Placed(Empty())
  {
  }

  lemma FlushedIsCoherent(h: Hart, tables: set<Slot>)
    requires h.loads == Empty() && h.stores == Empty() && h.codes == Empty()
    ensures Coherent(h, tables) && AllPlaced(h)
  {
    forall access: Access ensures TableAgrees(h.config, h.memory, access, tables, TableOf(h, access)) {
      EmptyAgrees(h.config, h.memory, access, tables);
    }
    EmptyAgrees(h.config, h.memory, Read, tables);
  }

  /** Gentle changes of the tables keep every entry right. */
  lemma TableStable(c: Config, m: Memory, n: Memory, tables: set<Slot>, access: Access, table: Table)
    requires SameMap(m, n) && Gentle(tables, m.words, n.words) && TableAgrees(c, m, access, tables, table)
    ensures TableAgrees(c, n, access, tables, table)
  {
    forall i | 0 <= i < TLB_SIZE && table[i].vaddr != INVALID ensures Agrees(c, n, access, tables, table[i]) {
      if Visits(c, n, access, table[i].vaddr / PAGE) <= tables {
        TranslateStable(c, m, n, tables, access, table[i].vaddr / PAGE);
        assert Agrees(c, m, access, tables, table[i]);
      }
    }
  }

  lemma MemoryStable(h: Hart, n: Memory, tables: set<Slot>)
    requires SameMap(h.memory, n) && Gentle(tables, h.memory.words, n.words) && Coherent(h, tables)
    ensures Coherent(h.(memory := n), tables)
  {
    if h.config.priv < PRV_M {
      forall access: Access ensures TableAgrees(h.config, n, access, tables, TableOf(h.(memory := n), access)) {
        TableStable(h.config, h.memory, n, tables, access, TableOf(h, access));
      }
    }
  }

  /** Translation depends on the configuration only through what the walk looks at. */
  predicate SameView(c: Config, d: Config) {
    d == c.(mpp := d.mpp) && !c.mprv && !d.mprv
  }

  lemma {:induction false} WalkSameView(c: Config, d: Config, m: Memory, access: Access, vpage: nat, i: nat, table: nat)
    requires SameView(c, d) && i <= LEVELS
    ensures WalkFrom(d, m, access, vpage, i, table) == WalkFrom(c, m, access, vpage, i, table)
    decreases LEVELS - i
  {
    if i < LEVELS && table in m.pages {
      var s := Slot(m.pages[table], Index(vpage, i));
      if IsLeaf(WordAt(m.words, s)) {
        LeafSameView(c, d, m.rom, access, s, WordAt(m.words, s), i, vpage);
      } else {
        WalkSameView(c, d, m, access, vpage, i + 1, WordAt(m.words, s).ppn);
      }
    }
  }

  lemma LeafSameView(c: Config, d: Config, rom: set<nat>, access: Access, s: Slot, w: Word, i: nat, vpage: nat)
    requires SameView(c, d)
    ensures WalkLeaf(d, rom, access, s, w, i, vpage) == WalkLeaf(c, rom, access, s, w, i, vpage)
  {
    assert EffectivePriv(d, access) == EffectivePriv(c, access);
  }

  lemma ViewKeepsAgreement(c: Config, d: Config, m: Memory, access: Access, tables: set<Slot>, table: Table)
    requires SameView(c, d) && TableAgrees(c, m, access, tables, table)
    ensures TableAgrees(d, m, access, tables, table)
  {
    forall i | 0 <= i < TLB_SIZE && table[i].vaddr != INVALID ensures Agrees(d, m, access, tables, table[i]) {
      WalkSameView(c, d, m, access, table[i].vaddr / PAGE, 0, c.root);
      assert Agrees(c, m, access, tables, table[i]);
    }
  }

  /** The entry just filled is what the walk gives from now on. */
  lemma FillAgrees(c: Config, m: Memory, access: Access, tables: set<Slot>, addr: nat)
    requires addr < ADDRESS_LIMIT && Translate(c, m, access, addr / PAGE).Found?
    requires Translate(c, m, access, addr / PAGE).page in m.pages
    ensures var walk := Translate(c, m, access, addr / PAGE);
            Agrees(c, Applied(m, walk.update), access, tables,
                   Entry(addr - addr % PAGE, m.pages[walk.page] * PAGE + addr % PAGE - addr))
  {
    TranslateSettles(c, m, access, addr / PAGE);
    assert (addr - addr % PAGE) / PAGE == addr / PAGE;
  }

  lemma FilledAgrees(c: Config, m: Memory, access: Access, tables: set<Slot>, table: Table, addr: nat, host: nat)
    requires TableAgrees(c, m, access, tables, table)
    requires Agrees(c, m, access, tables, Entry(addr - addr % PAGE, host * PAGE + addr % PAGE - addr))
    ensures TableAgrees(c, m, access, tables, Filled(table, addr, host))
  {
  }

  lemma SlowKeepsCoherent(h: Hart, tables: set<Slot>, access: Access, addr: nat)
    requires Coherent(h, tables) && addr < ADDRESS_LIMIT
    ensures Coherent(SlowAccess(h, access, addr).0, tables)
  {
    var walk := Translate(h.config, h.memory, access, addr / PAGE);
    if walk.Found? && h.config.priv < PRV_M {
      var n := Applied(h.memory, walk.update);
      AppliedIsGentle(h.config, h.memory, access, addr / PAGE, tables);
      MemoryStable(h, n, tables);
      if walk.page in h.memory.pages {
        FillAgrees(h.config, h.memory, access, tables, addr);
        FillKeepsCoherent(h.(memory := n), tables, access, addr, h.memory.pages[walk.page]);
      }
    }
  }

  lemma FillKeepsCoherent(h: Hart, tables: set<Slot>, access: Access, addr: nat, host: nat)
    requires Coherent(h, tables) && h.config.priv < PRV_M
    requires Agrees(h.config, h.memory, access, tables, Entry(addr - addr % PAGE, host * PAGE + addr % PAGE - addr))
    ensures Coherent(Fill(h, access, addr, host), tables)
  {
    var f := Fill(h, access, addr, host);
    forall other: Access ensures TableAgrees(f.config, f.memory, other, tables, TableOf(f, other)) {
      assert TableAgrees(h.config, h.memory, other, tables, TableOf(h, other));
      if other == access { FilledAgrees(h.config, h.memory, access, tables, TableOf(h, access), addr, host); }
    }
  }

  lemma FilledIsPlaced(table: Table, addr: nat, host: nat)
    requires Placed(table) && addr < ADDRESS_LIMIT
    ensures Placed(Filled(table, addr, host))
  {
    assert (addr - addr % PAGE) / PAGE == addr / PAGE;
  }

  lemma AccessKeepsPlaced(h: Hart, access: Access, addr: nat, size: nat)
    requires AllPlaced(h) && addr < ADDRESS_LIMIT && IsSize(size)
    ensures AllPlaced(AccessMemory(h, access, addr, size).0)
    ensures AccessMemory(h, access, addr, size).0.config == h.config
            && AccessMemory(h, access, addr, size).0.spp == h.spp
  {
    var walk := Translate(h.config, h.memory, access, addr / PAGE);
    if walk.Found? && walk.page in h.memory.pages {
      FilledIsPlaced(TableOf(h, access), addr, h.memory.pages[walk.page]);
    }
  }

  // ---------------------------------------------------------------------- every step

  lemma StepKeepsModes(h: Hart, e: Event)
    requires ModeInv(h) && WellTyped(e)
    ensures ModeInv(Step(h, e))
  {
    match e
    case Load(addr, size) => SameModes(h, Read, addr, size);
    case Fetch(addr) => SameModes(h, Code, addr, 1);
    case Store(addr, size, _) => SameModes(h, Write, addr, size);
    case _ =>
  }

  lemma SameModes(h: Hart, access: Access, addr: nat, size: nat)
    requires IsSize(size)
    ensures AccessMemory(h, access, addr, size).0.config == h.config
            && AccessMemory(h, access, addr, size).0.spp == h.spp
  {
  }

  lemma FlushWritesKeeps(table: Table, hosts: set<nat>)
    ensures forall i :: 0 <= i < TLB_SIZE ==>
              FlushWrites(table, hosts)[i] == table[i] || FlushWrites(table, hosts)[i].vaddr == INVALID
  {
  }

  lemma StepKeepsPlaced(h: Hart, e: Event)
    requires AllPlaced(h) && WellTyped(e)
    ensures AllPlaced(Step(h, e))
  {
    EmptyAgrees(h.config, h.memory, Read, {});
    match e
    case Load(addr, size) => AccessKeepsPlaced(h, Read, addr, size);
    case Fetch(addr) => AccessKeepsPlaced(h, Code, addr, 1);
    case Store(addr, size, _) => AccessKeepsPlaced(h, Write, addr, size);
    case DropWrites(hosts) => FlushWritesKeeps(h.stores, hosts);
    case _ =>
  }

  /** Software writes no page-table word, except to set accessed/dirty bits. */
  ghost predicate SparesTables(h: Hart, e: Event, tables: set<Slot>)
    requires WellTyped(e)
  {
    match e
    case Store(addr, size, word) =>
      Gentle(tables, AccessMemory(h, Write, addr, size).0.memory.words, StoreMemory(h, addr, size, word).memory.words)
    case HostStore(_, _) => Gentle(tables, h.memory.words, Step(h, e).memory.words)
    case _ => true
  }

  /** Each step that touches the tables only through accessed/dirty updates keeps the TLBs right. */
  lemma StepKeepsCoherent(h: Hart, e: Event, tables: set<Slot>)
    requires WellTyped(e) && ModeInv(h) && AllPlaced(h) && Coherent(h, tables)
    requires SparesTables(h, e, tables)
    ensures Coherent(Step(h, e), tables)
  {
    match e
    case Load(addr, size) => SlowKeepsCoherent(h, tables, Read, addr);
    case Fetch(addr) => SlowKeepsCoherent(h, tables, Code, addr);
    case Store(addr, size, word) => StoreKeepsCoherent(h, tables, addr, size, word);
    case Check(addr) => CheckKeepsCoherent(h, tables, addr);
    case HostStore(slot, word) => MemoryStable(h, Step(h, e).memory, tables);
    case DropWrites(hosts) => DropKeepsCoherent(h, tables, hosts);
    case _ => ControlKeepsCoherent(h, e, tables);
  }

  lemma CheckKeepsCoherent(h: Hart, tables: set<Slot>, addr: nat)
    requires Coherent(h, tables)
    ensures Coherent(CheckWrite(h, addr), tables)
  {
    var walk := Translate(h.config, h.memory, Write, addr / PAGE);
    if walk.Found? {
      AppliedIsGentle(h.config, h.memory, Write, addr / PAGE, tables);
      MemoryStable(h, Applied(h.memory, walk.update), tables);
    }
  }

  lemma DropKeepsCoherent(h: Hart, tables: set<Slot>, hosts: set<nat>)
    requires Coherent(h, tables)
    ensures Coherent(h.(stores := FlushWrites(h.stores, hosts)), tables)
  {
    FlushWritesKeeps(h.stores, hosts);
    var d := h.(stores := FlushWrites(h.stores, hosts));
    if h.config.priv < PRV_M {
      forall access: Access ensures TableAgrees(d.config, d.memory, access, tables, TableOf(d, access)) {
        assert TableAgrees(h.config, h.memory, access, tables, TableOf(h, access));
      }
    }
  }

  /** The store itself comes after the walk's update. */
  lemma StoreKeepsCoherent(h: Hart, tables: set<Slot>, addr: nat, size: nat, word: Word)
    requires IsSize(size) && addr < ADDRESS_LIMIT && Coherent(h, tables)
    requires Gentle(tables, AccessMemory(h, Write, addr, size).0.memory.words,
                    StoreMemory(h, addr, size, word).memory.words)
    ensures Coherent(StoreMemory(h, addr, size, word), tables)
  {
    SlowKeepsCoherent(h, tables, Write, addr);
    var (next, outcome) := AccessMemory(h, Write, addr, size);
    assert Coherent(next, tables);
    if outcome.Location? {
      MemoryStable(next, StoreMemory(h, addr, size, word).memory, tables);
    }
  }

  /** Control events either flush everything or leave what a walk looks at unchanged. */
  lemma ControlKeepsCoherent(h: Hart, e: Event, tables: set<Slot>)
    requires WellTyped(e) && ModeInv(h) && Coherent(h, tables)
    requires !e.Load? && !e.Fetch? && !e.Store? && !e.Check? && !e.HostStore? && !e.DropWrites?
    ensures Coherent(Step(h, e), tables)
  {
    ControlIsMild(h, e);
    MildKeepsCoherent(h, Step(h, e), tables);
  }

  ghost predicate IsFlushed(h: Hart) {
    h.loads == Empty() && h.stores == Empty() && h.codes == Empty()
  }

  /** Everything is flushed, or nothing changed that a walk below machine mode looks at. */
  ghost predicate Mild(h: Hart, n: Hart) {
    IsFlushed(n)
    || (&& n.memory == h.memory && n.loads == h.loads && n.stores == h.stores && n.codes == h.codes
        && (n.config.priv < PRV_M ==> h.config.priv < PRV_M && SameView(h.config, n.config)))
  }

  lemma SetPrivIsMild(h: Hart, changed: Hart, priv: nat)
    requires changed == h.(config := changed.config, spp := changed.spp)
    requires changed.config == h.config.(mprv := changed.config.mprv, mpp := changed.config.mpp)
    requires (!h.config.mprv && !changed.config.mprv) || priv == PRV_M || h.config.priv != priv
    ensures Mild(h, SetPriv(changed, priv))
  {
  }

  lemma SetMstatusIsMild(h: Hart, mprv: bool, sum: bool, mxr: bool, mpp: nat, spp: nat)
    requires ModeInv(h)
    ensures Mild(h, SetMstatus(h, mprv, sum, mxr, mpp, spp))
  {
  }

  lemma ControlIsMild(h: Hart, e: Event)
    requires WellTyped(e) && ModeInv(h)
    requires !e.Load? && !e.Fetch? && !e.Store? && !e.Check? && !e.HostStore? && !e.DropWrites?
    ensures Mild(h, Step(h, e))
  {
    var c := h.config;
    match e
    case MstatusWrite(mprv, sum, mxr, mpp, spp) => SetMstatusIsMild(h, mprv, sum, mxr, mpp, spp);
    case SstatusWrite(sum, mxr, spp) => SetMstatusIsMild(h, c.mprv, sum, mxr, c.mpp, spp);
    case Take(delegated) =>
      if delegated && c.priv <= PRV_S { SetPrivIsMild(h, h.(spp := c.priv), PRV_S); }
      else { SetPrivIsMild(h, h.(config := c.(mpp := c.priv)), PRV_M); }
    case Sret => if c.priv >= PRV_S { SetPrivIsMild(h, h.(config := c.(mprv := false), spp := 0), h.spp); }
    case Mret =>
      if c.priv == PRV_M {
        SetPrivIsMild(h, h.(config := c.(mpp := 0, mprv := if c.mpp < PRV_M then false else c.mprv)), c.mpp);
      }
    case _ =>
  }

  lemma MildKeepsCoherent(h: Hart, n: Hart, tables: set<Slot>)
    requires Coherent(h, tables) && Mild(h, n)
    ensures Coherent(n, tables)
  {
    if IsFlushed(n) {
      FlushedIsCoherent(n, tables);
    } else if n.config.priv < PRV_M {
      ViewKeepsCoherent(h, n, tables);
    }
  }

  lemma ViewKeepsCoherent(h: Hart, n: Hart, tables: set<Slot>)
    requires Coherent(h, tables) && h.config.priv < PRV_M && SameView(h.config, n.config) && n.memory == h.memory
    requires n.loads == h.loads && n.stores == h.stores && n.codes == h.codes
    ensures Coherent(n, tables)
  {
    forall access: Access ensures TableAgrees(n.config, n.memory, access, tables, TableOf(n, access)) {
      ViewKeepsAgreement(h.config, n.config, h.memory, access, tables, TableOf(h, access));
    }
  }

  // ---------------------------------------------------------------------------- runs

  ghost predicate IsRun(states: seq<Hart>, events: seq<Event>) {
    && |states| == |events| + 1
    && states[0] == ResetHart(states[0])
    && forall i {:trigger events[i]} :: 0 <= i < |events| ==>
         WellTyped(events[i]) && states[i + 1] == Step(states[i], events[i])
  }

  /** Over every run MPRV is clear below machine mode and every entry sits where it belongs. */
  lemma {:induction false} EveryRunKeepsModes(states: seq<Hart>, events: seq<Event>, n: nat)
    requires IsRun(states, events) && n <= |events|
    ensures ModeInv(states[n]) && AllPlaced(states[n])
  {
    if n == 0 {
      EmptyAgrees(states[0].config, states[0].memory, Read, {});
    } else {
      EveryRunKeepsModes(states, events, n - 1);
      StepKeepsModes(states[n - 1], events[n - 1]);
      StepKeepsPlaced(states[n - 1], events[n - 1]);
    }
  }

  /** Since the last flush, software has left the tables alone. */
  ghost predicate SparedSince(states: seq<Hart>, events: seq<Event>, tables: set<Slot>, f: nat, n: nat)
    requires IsRun(states, events) && f <= n <= |events|
  {
    && states[f].loads == Empty() && states[f].stores == Empty() && states[f].codes == Empty()
    && forall i {:trigger events[i]} :: f <= i < n ==> SparesTables(states[i], events[i], tables)
  }

  lemma {:induction false} CoherentSinceFlush(states: seq<Hart>, events: seq<Event>, tables: set<Slot>, f: nat, n: nat)
    requires IsRun(states, events) && f <= n <= |events| && SparedSince(states, events, tables, f, n)
    ensures Coherent(states[n], tables)
    decreases n
  {
    if n == f {
      FlushedIsCoherent(states[n], tables);
    } else {
      CoherentSinceFlush(states, events, tables, f, n - 1);
      EveryRunKeepsModes(states, events, n - 1);
      StepKeepsCoherent(states[n - 1], events[n - 1], tables);
    }
  }

  /** Over every run: a hit below machine mode is what the full walk gives now. */
  lemma EveryHitIsTheWalk(states: seq<Hart>, events: seq<Event>, tables: set<Slot>, f: nat, n: nat,
                          access: Access, addr: nat, size: nat)
    requires IsRun(states, events) && f <= n <= |events| && SparedSince(states, events, tables, f, n)
    requires states[n].config.priv < PRV_M && IsSize(size) && addr < ADDRESS_LIMIT
    requires Hits(TableOf(states[n], access), addr, size)
    requires Visits(states[n].config, states[n].memory, access, addr / PAGE) <= tables
    ensures var walk := Translate(states[n].config, states[n].memory, access, addr / PAGE);
            && walk.Found? && walk.update.None? && walk.page in states[n].memory.pages
            && AccessMemory(states[n], access, addr, size)
               == (states[n], Location(states[n].memory.pages[walk.page] * PAGE + addr % PAGE))
  {
    EveryRunKeepsModes(states, events, n);
    CoherentSinceFlush(states, events, tables, f, n);
    HitIsWalk(states[n], tables, access, addr, size);
  }
}
