/**
 The CPU state of tinyemu-core/riscv_cpu.c as an object: TLB arrays, status fields and
 page-table memory change in place, each method proved against the value it specifies.
 */
module Cpu {
  import opened Wrappers
  import opened Mmu
  import Tlb

  class CpuState {
    var priv: nat
    var mprv: bool
    var mpp: nat
    var sum: bool
    var mxr: bool
    var spp: nat
    var sv39: bool
    var root: nat
    var adue: bool
    var pbmte: bool
    const pages: map<nat, nat>
    const rom: set<nat>
    var words: map<Slot, Word>
    const tlbRead: array<Tlb.Entry>
    const tlbWrite: array<Tlb.Entry>
    const tlbCode: array<Tlb.Entry>

    ghost predicate Valid() {
      && tlbRead.Length == TLB_SIZE && tlbWrite.Length == TLB_SIZE && tlbCode.Length == TLB_SIZE
      && tlbRead != tlbWrite && tlbRead != tlbCode && tlbWrite != tlbCode
    }

    function Configuration(): Config
      reads this
    {
      Config(priv, mprv, mpp, sum, mxr, sv39, root, adue, pbmte)
    }

    ghost function State(): Tlb.Hart
      requires Valid()
      reads this, tlbRead, tlbWrite, tlbCode
    {
      Tlb.Hart(Configuration(), spp, Memory(pages, rom, words), tlbRead[..], tlbWrite[..], tlbCode[..])
    }

    /** A CPU just created: machine mode and empty TLBs over the given memory. */
    constructor (pages: map<nat, nat>, rom: set<nat>, words: map<Slot, Word>)
      ensures Valid() && fresh(tlbRead) && fresh(tlbWrite) && fresh(tlbCode)
      ensures State() == Tlb.ResetHart(State()) && State().memory == Memory(pages, rom, words)
    {
      priv, mprv, mpp, sum, mxr, spp := PRV_M, false, 0, false, false, 0;
      sv39, root, adue, pbmte := false, 0, false, false;
      this.pages, this.rom, this.words := pages, rom, words;
      tlbRead := new Tlb.Entry[TLB_SIZE](_ => Tlb.Entry(INVALID, 0));
      tlbWrite := new Tlb.Entry[TLB_SIZE](_ => Tlb.Entry(INVALID, 0));
      tlbCode := new Tlb.Entry[TLB_SIZE](_ => Tlb.Entry(INVALID, 0));
      new;
      assert tlbRead[..] == Tlb.Empty() && tlbWrite[..] == Tlb.Empty() && tlbCode[..] == Tlb.Empty();
    }

    method FlushAll()
      requires Valid()
      modifies tlbRead, tlbWrite, tlbCode
      ensures State() == Tlb.Flushed(old(State()))
    {
      for i := 0 to TLB_SIZE
        invariant forall j :: 0 <= j < i ==> tlbRead[j] == tlbWrite[j] == tlbCode[j] == Tlb.Entry(INVALID, 0)
      {
        tlbRead[i] := Tlb.Entry(INVALID, 0);
        tlbWrite[i] := Tlb.Entry(INVALID, 0);
        tlbCode[i] := Tlb.Entry(INVALID, 0);
      }
      assert tlbRead[..] == Tlb.Empty() && tlbWrite[..] == Tlb.Empty() && tlbCode[..] == Tlb.Empty();
    }

    /** riscv_cpu_flush_tlb_write_range_ram over whole host pages. */
    method FlushWriteRange(first: nat, count: nat)
      requires Valid()
      modifies tlbWrite
      ensures State() == old(State()).(stores := Tlb.FlushWrites(old(State()).stores, Tlb.HostRange(first, count)))
    {
      ghost var hosts := Tlb.HostRange(first, count);
      for i := 0 to TLB_SIZE
        invariant forall j :: 0 <= j < i ==> tlbWrite[j] == Tlb.FlushWrites(old(tlbWrite[..]), hosts)[j]
        invariant forall j :: i <= j < TLB_SIZE ==> tlbWrite[j] == old(tlbWrite[j])
      {
        var e := tlbWrite[i];
        var page := (e.addend + e.vaddr) / PAGE;
        if e.vaddr != INVALID && first <= page < first + count { tlbWrite[i] := e.(vaddr := INVALID); }
      }
      assert tlbWrite[..] == Tlb.FlushWrites(old(tlbWrite[..]), hosts);
    }

    /** The page walk, writing the accessed/dirty update when one is due. */
    method GetPhysAddr(vpage: nat, access: Access) returns (walk: Walked)
      requires Valid()
      modifies this`words
      ensures walk == Translate(old(Configuration()), old(State()).memory, access, vpage)
      ensures State() == old(State()).(memory := if walk.Found? then Applied(old(State()).memory, walk.update)
                                                 else old(State()).memory)
    {
      if !Paged(Configuration(), access) { return Found(vpage, None); }
      if !Canonical(vpage) { return PageFault; }
      var table := root;
      var i := 0;
      ghost var m := Memory(pages, rom, words);
      while i < LEVELS
        invariant i <= LEVELS && words == m.words
        invariant Translate(Configuration(), m, access, vpage) == WalkFrom(Configuration(), m, access, vpage, i, table)
      {
        if table !in pages { return AccessFault; }
        var s := Slot(pages[table], Index(vpage, i));
        var w := WordAt(words, s);
        if !w.valid || w.reserved != 0 { return PageFault; }
        if IsLeaf(w) {
          walk := WalkLeaf(Configuration(), rom, access, s, w, i, vpage);
          if walk.Found? && walk.update.Some? { words := words[s := walk.update.value.word]; }
          return;
        }
        Descends(Configuration(), m, access, vpage, i, table);
        if w.user || w.accessed || w.dirty || w.pbmt != 0 || w.napot { return PageFault; }
        table := w.ppn;
        i := i + 1;
      }
      return PageFault;
    }

    /** The slow path of loads, stores and fetches, filling the TLB of its kind. */
    method SlowAccess(access: Access, addr: nat) returns (outcome: Tlb.Outcome)
      requires Valid()
      modifies this`words, tlbRead, tlbWrite, tlbCode
      ensures (State(), outcome) == Tlb.SlowAccess(old(State()), access, addr)
    {
      var walk := GetPhysAddr(addr / PAGE, access);
      if walk.PageFault? { return Tlb.Faulted(true); }
      if walk.AccessFault? { return Tlb.Faulted(false); }
      if walk.page !in pages { return Tlb.NotRam; }
      var host := pages[walk.page];
      var e := Tlb.Entry(addr - addr % PAGE, host * PAGE + addr % PAGE - addr);
      match access {
        case Read => tlbRead[Tlb.TlbIndex(addr)] := e;
        case Write => tlbWrite[Tlb.TlbIndex(addr)] := e;
        case Code => tlbCode[Tlb.TlbIndex(addr)] := e;
      }
      outcome := Tlb.Location(host * PAGE + addr % PAGE);
    }

    /** The fast path: one comparison, then host address = addend + virtual address. */
    method AccessMemory(access: Access, addr: nat, size: nat) returns (outcome: Tlb.Outcome)
      requires Valid() && Tlb.IsSize(size)
      modifies this`words, tlbRead, tlbWrite, tlbCode
      ensures (State(), outcome) == Tlb.AccessMemory(old(State()), access, addr, size)
    {
      var i := Tlb.TlbIndex(addr);
      var e := match access case Read => tlbRead[i] case Write => tlbWrite[i] case Code => tlbCode[i];
      if e.vaddr == Tlb.FastTag(addr, size) { return Tlb.Location(e.addend + addr); }
      outcome := SlowAccess(access, addr);
    }

    method SetPriv(p: nat)
      requires Valid()
      modifies this`priv, tlbRead, tlbWrite, tlbCode
      ensures State() == Tlb.SetPriv(old(State()), p)
    {
      if priv != p {
        FlushAll();
        priv := p;
      }
    }

    method SetMstatus(mprv': bool, sum': bool, mxr': bool, mpp': nat, spp': nat)
      requires Valid()
      modifies this`mprv, this`sum, this`mxr, this`mpp, this`spp, tlbRead, tlbWrite, tlbCode
      ensures State() == Tlb.SetMstatus(old(State()), mprv', sum', mxr', mpp', spp')
    {
      if mprv' != mprv || sum' != sum || mxr' != mxr || (mprv && mpp' != mpp) { FlushAll(); }
      mprv, sum, mxr, mpp, spp := mprv', sum', mxr', mpp', spp';
    }

    method WriteSatp(mode: nat, root': nat)
      requires Valid()
      modifies this`sv39, this`root, tlbRead, tlbWrite, tlbCode
      ensures State() == Tlb.WriteSatp(old(State()), mode, root')
    {
      if mode == 0 { sv39 := false; } else if mode == 8 { sv39 := true; }
      root := root';
      FlushAll();
    }

    method WriteMenvcfg(adue': bool, pbmte': bool)
      requires Valid()
      modifies this`adue, this`pbmte, tlbRead, tlbWrite, tlbCode
      ensures State() == Tlb.WriteMenvcfg(old(State()), adue', pbmte')
    {
      var changed := adue' != adue || pbmte' != pbmte;
      adue, pbmte := adue', pbmte';
      if changed { FlushAll(); }
    }

    method RaiseException(delegated: bool)
      requires Valid()
      modifies this`priv, this`spp, this`mpp, tlbRead, tlbWrite, tlbCode
      ensures State() == Tlb.Trap(old(State()), delegated)
    {
      if delegated && priv <= PRV_S {
        spp := priv;
        SetPriv(PRV_S);
      } else {
        mpp := priv;
        SetPriv(PRV_M);
      }
    }

    method HandleSret()
      requires Valid()
      modifies this`priv, this`spp, this`mprv, tlbRead, tlbWrite, tlbCode
      ensures State() == Tlb.SupervisorReturn(old(State()))
    {
      var target := spp;
      spp, mprv := 0, false;
      SetPriv(target);
    }

    method HandleMret()
      requires Valid()
      modifies this`priv, this`mpp, this`mprv, tlbRead, tlbWrite, tlbCode
      ensures State() == Tlb.MachineReturn(old(State()))
    {
      var target := mpp;
      mpp := 0;
      if target < PRV_M { mprv := false; }
      SetPriv(target);
    }
  }
}
