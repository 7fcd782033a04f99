/**
 Modes and accesses of tinyemu-core/riscv_cpu.c from the guest's side: a return undoes its
 trap, control registers mean what was written into them, and every access lands where the
 page tables map it.
 */
module Privilege {
  import opened Wrappers
  import opened Mmu
  import opened Tlb
  import Sv39

  // ------------------------------------------------------------------ traps and returns

  /** Supervisor mode exactly for a delegated trap from below machine mode, else machine mode. */
  lemma TrapEntersMode(h: Hart, delegated: bool)
    requires h.config.priv == 0 || h.config.priv == PRV_S || h.config.priv == PRV_M
    ensures Trap(h, delegated).config.priv == if delegated && h.config.priv != PRV_M then PRV_S else PRV_M
  {
  }

  /** Everything but the mode fields: what the guest configured, and its memory. */
  ghost predicate SameSettings(h: Hart, n: Hart) {
    && n.config.sum == h.config.sum && n.config.mxr == h.config.mxr
    && n.config.sv39 == h.config.sv39 && n.config.root == h.config.root
    && n.config.adue == h.config.adue && n.config.pbmte == h.config.pbmte
    && n.memory == h.memory
  }

  /** Traps and returns leave address translation, its options and memory alone. */
  lemma ModesKeepSettings(h: Hart, delegated: bool)
    ensures SameSettings(h, Trap(h, delegated))
    ensures SameSettings(h, SupervisorReturn(h)) && SameSettings(h, MachineReturn(h))
  {
    TrapFields(h, delegated);
    SretFields(h);
    MretFields(h);
  }

  lemma TrapFields(h: Hart, delegated: bool)
    ensures var n, c, taken := Trap(h, delegated), h.config, delegated && h.config.priv <= PRV_S;
            && n.config == c.(priv := if taken then PRV_S else PRV_M, mpp := if taken then c.mpp else c.priv)
            && n.spp == (if taken then c.priv else h.spp) && n.memory == h.memory
  {
  }

  lemma SretFields(h: Hart)
    ensures var n := SupervisorReturn(h);
            n.config == h.config.(priv := h.spp, mprv := false) && n.spp == 0 && n.memory == h.memory
  {
  }

  lemma MretFields(h: Hart)
    ensures var n, c := MachineReturn(h), h.config;
            && n.config == c.(priv := c.mpp, mpp := 0, mprv := c.mprv && c.mpp >= PRV_M)
            && n.spp == h.spp && n.memory == h.memory
  {
  }

  /** A delegated trap and its sret: back in the mode it came from, with MPRV clear and SPP reset. */
  lemma SretUndoesTrap(h: Hart)
    requires h.config.priv <= PRV_S
    ensures var n := SupervisorReturn(Trap(h, true));
            n.config == h.config.(mprv := false) && n.spp == 0 && n.memory == h.memory
  {
    TrapFields(h, true);
    SretFields(Trap(h, true));
  }

  /** A machine trap and its mret: back in the mode it came from, MPRV kept only in machine mode. */
  lemma MretUndoesTrap(h: Hart, delegated: bool)
    requires h.config.priv <= PRV_M && (delegated ==> h.config.priv > PRV_S)
    ensures var n := MachineReturn(Trap(h, delegated));
            && n.config == h.config.(mpp := 0, mprv := h.config.mprv && h.config.priv == PRV_M)
            && n.spp == h.spp && n.memory == h.memory
  {
    TrapFields(h, delegated);
    MretFields(Trap(h, delegated));
  }

  /** A machine trap inside a supervisor handler unwinds to the handler and then to the interrupted code. */
  lemma NestedTrapsUnwind(h: Hart)
    requires ModeInv(h) && h.config.priv <= PRV_S
    ensures var handler := Trap(h, true);
            var resumed := MachineReturn(Trap(handler, false));
            && resumed.config == handler.config.(mpp := 0) && resumed.spp == handler.spp
            && SupervisorReturn(resumed).config == h.config.(mpp := 0)
  {
    TrapFields(h, true);
    MretUndoesTrap(Trap(h, true), false);
    SretFields(MachineReturn(Trap(Trap(h, true), false)));
  }

  /** Over every run: the mode after a trap and its return is the mode before. */
  lemma EveryTrapReturns(states: seq<Hart>, events: seq<Event>, n: nat, delegated: bool)
    requires IsRun(states, events) && n + 2 <= |events| && states[n].config.priv in {0, PRV_S, PRV_M}
    requires events[n] == Take(delegated)
    requires events[n + 1] == if delegated && states[n].config.priv != PRV_M then Sret else Mret
    ensures states[n + 2].config.priv == states[n].config.priv
    ensures SameSettings(states[n], states[n + 2])
  {
    assert states[n + 1] == Step(states[n], events[n]);
    assert states[n + 2] == Step(states[n + 1], events[n + 1]);
    EveryRunKeepsModes(states, events, n);
  }

  // ------------------------------------------------------------------ control registers

  /** satp: mode 0 turns translation off, mode 8 starts it at the root, any other keeps the mode with the new root. */
  lemma SatpMeans(h: Hart, mode: nat, root: nat, access: Access, vpage: nat)
    requires vpage < 0x10_0000_0000_0000
    ensures var c := WriteSatp(h, mode, root).config;
            && (mode == 0 ==> Translate(c, h.memory, access, vpage) == Found(vpage, None))
            && (mode == 8 ==> Translate(c, h.memory, access, vpage)
                              == Translate(h.config.(sv39 := true, root := root), h.memory, access, vpage))
            && (mode != 0 && mode != 8 ==> Translate(c, h.memory, access, vpage)
                                           == Translate(h.config.(root := root), h.memory, access, vpage))
  {
  }

  /** mstatus and menvcfg: every field reads as written, and no other changes. */
  lemma RegistersReadBack(h: Hart, mprv: bool, sum: bool, mxr: bool, mpp: nat, spp: nat, adue: bool, pbmte: bool)
    ensures var n := WriteMenvcfg(SetMstatus(h, mprv, sum, mxr, mpp, spp), adue, pbmte);
            && n.config == Config(h.config.priv, mprv, mpp, sum, mxr, h.config.sv39, h.config.root, adue, pbmte)
            && n.spp == spp && n.memory == h.memory
  {
  }

  /** mstatus and menvcfg are written in machine mode only, the fields of sstatus from supervisor mode up. */
  lemma StatusWrites(h: Hart, e: Event)
    requires WellTyped(e) && (e.MstatusWrite? || e.SstatusWrite? || e.MenvcfgWrite?)
    ensures var n, c := Step(h, e), h.config;
            match e
            case MstatusWrite(mprv, sum, mxr, mpp, spp) =>
              if c.priv == 3 then n.config == c.(mprv := mprv, sum := sum, mxr := mxr, mpp := mpp) && n.spp == spp
              else n == h
            case SstatusWrite(sum, mxr, spp) =>
              if c.priv >= 1 then n.config == c.(sum := sum, mxr := mxr) && n.spp == spp else n == h
            case MenvcfgWrite(adue, pbmte) =>
              if c.priv == 3 then n.config == c.(adue := adue, pbmte := pbmte) && n.spp == h.spp else n == h
  {
  }

  /** A restarted hart is in machine mode with every option off: each access goes to its own address. */
  lemma RestartIsBare(h: Hart, access: Access, vpage: nat)
    ensures var n := Step(h, Restart);
            && n.config == Config(3, false, 0, false, false, false, 0, false, false) && n.spp == 0
            && n.memory == h.memory && Translate(n.config, n.memory, access, vpage) == Found(vpage, None)
  {
  }

  // --------------------------------------------------------------------------- accesses

  /** What an access must do, said on the page tables: the place, the write-back, or the fault. */
  ghost predicate Lands(h: Hart, access: Access, addr: nat, n: Memory, outcome: Outcome) {
    match outcome
    case Location(host) =>
      exists page: nat, update :: Sv39.Maps(h.config, h.memory, access, addr / PAGE, page, update)
        && page in h.memory.pages && host == h.memory.pages[page] * PAGE + addr % PAGE
        && n == WrittenBack(h.memory, update)
    case NotRam =>
      exists page: nat, update :: Sv39.Maps(h.config, h.memory, access, addr / PAGE, page, update)
        && page !in h.memory.pages && n == WrittenBack(h.memory, update)
    case Faulted(pageFault) =>
      && n == h.memory
      && (pageFault <==> !Sv39.Blocked(h.config, h.memory, access, addr / PAGE))
      && forall page: nat, update :: !Sv39.Maps(h.config, h.memory, access, addr / PAGE, page, update)
  }

  /** Memory with the walk's write-back in place and nothing else changed. */
  function WrittenBack(m: Memory, update: Option<Update>): Memory {
    match update
    case None => m
    case Some(u) => Memory(m.pages, m.rom, m.words[u.slot := u.word])
  }

  /** The slow path lands where the page tables map the address, with the right write-back or fault. */
  lemma SlowAccessLands(h: Hart, access: Access, addr: nat)
    requires addr < ADDRESS_LIMIT
    ensures var (n, outcome) := SlowAccess(h, access, addr); Lands(h, access, addr, n.memory, outcome)
  {
    var walk := Translate(h.config, h.memory, access, addr / PAGE);
    Sv39.FaultExactly(h.config, h.memory, access, addr / PAGE);
    if walk.Found? {
      Sv39.FoundExactlyWhenMapped(h.config, h.memory, access, addr / PAGE, walk.page, walk.update);
      FoundLands(h, access, addr, walk.page, walk.update);
    }
  }

  lemma FoundLands(h: Hart, access: Access, addr: nat, page: nat, update: Option<Update>)
    requires Sv39.Maps(h.config, h.memory, access, addr / PAGE, page, update)
    requires Translate(h.config, h.memory, access, addr / PAGE) == Found(page, update)
    ensures var (n, outcome) := SlowAccess(h, access, addr); Lands(h, access, addr, n.memory, outcome)
  {
    assert WrittenBack(h.memory, update) == Applied(h.memory, update);
  }

  /** An aligned access that reached RAM is remembered: repeated, it hits the same place and changes nothing. */
  lemma AccessIsRemembered(h: Hart, access: Access, addr: nat, size: nat)
    requires IsSize(size) && addr < ADDRESS_LIMIT && addr % size == 0
    ensures var (n, outcome) := AccessMemory(h, access, addr, size);
            outcome.Location? ==>
              Hits(TableOf(n, access), addr, size) && AccessMemory(n, access, addr, size) == (n, outcome)
  {
  }

  /** Over every run, hit or miss: an access below machine mode lands where the page tables map it now. */
  lemma EveryAccessLands(states: seq<Hart>, events: seq<Event>, tables: set<Slot>, f: nat, n: nat,
                         access: Access, addr: nat, size: nat)
    requires IsRun(states, events) && f <= n <= |events| && SparedSince(states, events, tables, f, n)
    requires states[n].config.priv < PRV_M && IsSize(size) && addr < ADDRESS_LIMIT
    requires Visits(states[n].config, states[n].memory, access, addr / PAGE) <= tables
    ensures var (next, outcome) := AccessMemory(states[n], access, addr, size);
            Lands(states[n], access, addr, next.memory, outcome)
  {
    var h := states[n];
    if Hits(TableOf(h, access), addr, size) {
      EveryHitIsTheWalk(states, events, tables, f, n, access, addr, size);
      var walk := Translate(h.config, h.memory, access, addr / PAGE);
      Sv39.FoundExactlyWhenMapped(h.config, h.memory, access, addr / PAGE, walk.page, None);
      assert Sv39.Maps(h.config, h.memory, access, addr / PAGE, walk.page, None);
    } else {
      SlowAccessLands(h, access, addr);
    }
  }

  /** A store puts its word at the place the access lands, and changes no other word but the leaf's bits. */
  lemma StoreLands(h: Hart, addr: nat, size: nat, word: Word, s: Slot)
    requires IsSize(size) && addr < ADDRESS_LIMIT
    ensures var (n, outcome) := AccessMemory(h, Write, addr, size);
            var after := StoreMemory(h, addr, size, word).memory;
            && after.pages == h.memory.pages && after.rom == h.memory.rom
            && WordAt(after.words, s)
               == if outcome.Location? && outcome.host >= 0 && s.host == outcome.host / PAGE
                     && s.index == outcome.host % PAGE / 8
                  then word
                  else if outcome.Location? && outcome.host < 0 && s == Slot(0, 0) then word
                  else WordAt(n.memory.words, s)
  {
  }

  /** A fence or a satp write from supervisor or machine mode empties all three TLBs. */
  lemma FencesFlush(h: Hart, e: Event, i: nat)
    requires WellTyped(e) && (e.Fence? || e.SatpWrite?) && h.config.priv >= PRV_S && i < TLB_SIZE
    ensures var n := Step(h, e);
            n.loads[i].vaddr == INVALID && n.stores[i].vaddr == INVALID && n.codes[i].vaddr == INVALID
  {
  }
}
