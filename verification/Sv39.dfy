/**
 What a page walk must find, said on the page-table words themselves: section 4.4 of the
 RISC-V Privileged ISA 20211203 with the Svnapot and Svpbmt extensions, as
 tinyemu-core/riscv_cpu.c implements it. The walk of Mmu is proved to be exactly this.
 */
module Sv39 {
  import opened Wrappers
  import opened Mmu

  const GIGA: nat := 262144
  const MEGA: nat := 512

  // ---------------------------------------------------------------- where the leaf is

  /** Bits 63 to 38 of the address are all equal. */
  predicate SignExtended(vpage: nat) {
    vpage < 0x400_0000 || 0xf_ffff_fc00_0000 <= vpage < 0x10_0000_0000_0000
  }

  /** The word of a table page at one 9-bit field of the address. */
  function Entry(m: Memory, table: nat, field: nat): Slot
    requires table in m.pages
  {
    Slot(m.pages[table], field)
  }

  /** A word that leads to the next table. */
  predicate Pointer(w: Word) {
    && w.valid && w.reserved == 0 && !w.r && !w.w && !w.x
    && !w.user && !w.accessed && !w.dirty && w.pbmt == 0 && !w.napot
  }

  /** Slot s holds the word that decides pages of `size`: below zero, one or two pointers from the root. */
  ghost predicate Decides(m: Memory, root: nat, vpage: nat, size: nat, s: Slot) {
    && root in m.pages
    && var first := Entry(m, root, vpage / GIGA % 512);
       if size == GIGA then s == first
       else
         && Pointer(WordAt(m.words, first)) && WordAt(m.words, first).ppn in m.pages
         && var second := Entry(m, WordAt(m.words, first).ppn, vpage / MEGA % 512);
            if size == MEGA then s == second
            else
              && size == 1
              && Pointer(WordAt(m.words, second)) && WordAt(m.words, second).ppn in m.pages
              && s == Entry(m, WordAt(m.words, second).ppn, vpage % 512)
  }

  // --------------------------------------------------------------- what the leaf grants

  /** A legal leaf: readable or executable, never writable alone, with a memory type it may have. */
  predicate LegalLeaf(w: Word, pbmte: bool) {
    && w.valid && w.reserved == 0 && (w.r || w.x) && (w.w ==> w.r)
    && (w.pbmt == 0 || (pbmte && w.pbmt != 3))
  }

  /** The physical page: the leaf's, advanced by the place of the address inside the leaf. */
  predicate Places(w: Word, size: nat, vpage: nat, page: nat)
    requires size > 0
  {
    if w.napot then size == 1 && w.ppn % 16 == 8 && page == w.ppn - 8 + vpage % 16
    else w.ppn % size == 0 && page == w.ppn + vpage % size
  }

  /** The mode whose rights count: loads and stores under MPRV borrow the saved one. */
  function Mode(c: Config, access: Access): nat {
    if access.Code? || !c.mprv then c.priv else c.mpp
  }

  /** The table of rights; SUM opens user pages to every access of supervisor mode, fetches included. */
  predicate Granted(c: Config, access: Access, w: Word) {
    && (w.user ==> Mode(c, access) != PRV_S || c.sum)
    && (!w.user ==> Mode(c, access) == PRV_S)
    && match access
       case Read => w.r || (w.x && c.mxr)
       case Write => w.w
       case Code => w.x
  }

  /** Accessed, and for a store dirty, is already recorded. */
  predicate Recorded(w: Word, access: Access) {
    w.accessed && (access.Write? ==> w.dirty)
  }

  /** The word after its access is recorded. */
  function Recording(w: Word, access: Access): Word {
    Word(w.valid, w.r, w.w, w.x, w.user, w.global, true, w.dirty || access.Write?,
         w.rsw, w.ppn, w.reserved, w.pbmt, w.napot)
  }

  /** Every check of a leaf but its place: rights, and bits recorded or to be recorded. */
  predicate Passes(c: Config, access: Access, w: Word) {
    Granted(c, access, w) && (Recorded(w, access) || c.adue)
  }

  /** The page the word gives, if it is a legal leaf. */
  predicate GivesPage(c: Config, w: Word, size: nat, vpage: nat, page: nat)
    requires size > 0
  {
    LegalLeaf(w, c.pbmte) && Places(w, size, vpage, page)
  }

  /** The word at s maps the page for the access, once its bits are recorded. */
  predicate Serves(c: Config, m: Memory, access: Access, vpage: nat, size: nat, s: Slot, page: nat)
    requires size > 0
  {
    GivesPage(c, WordAt(m.words, s), size, vpage, page) && Passes(c, access, WordAt(m.words, s))
  }

  /** What is written back: nothing, or the leaf with its bits set. */
  predicate WritesBack(m: Memory, access: Access, s: Slot, update: Option<Update>) {
    var w := WordAt(m.words, s);
    if Recorded(w, access) then update == None
    else s.host !in m.rom && update == Some(Update(s, Recording(w, access)))
  }

  predicate IsSize(size: nat) {
    size == GIGA || size == MEGA || size == 1
  }

  /** Machine mode and bare mode see physical addresses. */
  predicate Direct(c: Config, access: Access) {
    Mode(c, access) == PRV_M || !c.sv39
  }

  /** The access goes to the page, and this is written back on the way. */
  ghost predicate Maps(c: Config, m: Memory, access: Access, vpage: nat, page: nat, update: Option<Update>) {
    if Direct(c, access) then page == vpage && update == None
    else
      && SignExtended(vpage)
      && exists size: nat, s :: IsSize(size) && Decides(m, c.root, vpage, size, s)
                                && Serves(c, m, access, vpage, size, s, page) && WritesBack(m, access, s, update)
  }

  /** Slot s holds a pointer to a table that is not RAM. */
  predicate Dangles(m: Memory, s: Slot) {
    Pointer(WordAt(m.words, s)) && WordAt(m.words, s).ppn !in m.pages
  }

  /** The bits of the leaf at s are due but in ROM. */
  ghost predicate Sealed(c: Config, m: Memory, access: Access, vpage: nat, size: nat, s: Slot)
    requires size > 0
  {
    && (exists page: nat :: Serves(c, m, access, vpage, size, s, page))
    && !Recorded(WordAt(m.words, s), access) && s.host in m.rom
  }

  /** A table on the way is not RAM, or the leaf cannot record the access. */
  ghost predicate Blocked(c: Config, m: Memory, access: Access, vpage: nat) {
    && !Direct(c, access) && SignExtended(vpage)
    && (|| c.root !in m.pages
        || exists size: nat, s :: IsSize(size) && Decides(m, c.root, vpage, size, s)
             && ((size > 1 && Dangles(m, s)) || Sealed(c, m, access, vpage, size, s)))
  }

  // ------------------------------------------------------------------ the walk is this

  /** What the walk makes of a word it does not pass. */
  function Outcome(c: Config, m: Memory, access: Access, vpage: nat, i: nat, s: Slot): Walked {
    var w := WordAt(m.words, s);
    if w.valid && w.reserved == 0 && IsLeaf(w) then WalkLeaf(c, m.rom, access, s, w, i, vpage) else PageFault
  }

  lemma ModeIsEffective(c: Config, access: Access)
    ensures EffectivePriv(c, access) == Mode(c, access)
  {
  }

  lemma NapotPage(ppn: nat, vpage: nat)
    ensures ppn % 16 == 8 ==> ppn - ppn % 16 + vpage % 16 == ppn - 8 + vpage % 16 >= 0
  {
  }

  lemma PlaceLaw(c: Config, w: Word, i: nat, vpage: nat, page: nat)
    requires i < LEVELS && IsLeaf(w) && w.valid && w.reserved == 0
    ensures LeafPage(c, w, i, vpage) == Some(page) <==> LegalLeaf(w, c.pbmte) && Places(w, Span(i), vpage, page)
  {
    NapotPage(w.ppn, vpage);
  }

  lemma GrantLaw(c: Config, access: Access, w: Word)
    requires Mode(c, access) != PRV_M
    ensures Allowed(c, access, w) <==> Granted(c, access, w) && (Recorded(w, access) || c.adue)
    ensures UpdateDue(w, access) <==> !Recorded(w, access)
    ensures WithBits(w, access) == Recording(w, access)
  {
    ModeIsEffective(c, access);
  }

  lemma OutcomeIs(c: Config, m: Memory, access: Access, vpage: nat, i: nat, s: Slot, place: Option<nat>)
    requires i < LEVELS && Mode(c, access) != PRV_M
    requires var w := WordAt(m.words, s);
             place == if IsLeaf(w) && w.valid && w.reserved == 0 then LeafPage(c, w, i, vpage) else None
    ensures var w := WordAt(m.words, s);
            Outcome(c, m, access, vpage, i, s)
            == if place.None? || !Passes(c, access, w) then PageFault
               else if Recorded(w, access) then Found(place.value, None)
               else if s.host in m.rom then AccessFault
               else Found(place.value, Some(Update(s, Recording(w, access))))
  {
    GrantLaw(c, access, WordAt(m.words, s));
  }

  lemma PlaceIs(c: Config, m: Memory, vpage: nat, i: nat, s: Slot) returns (place: Option<nat>)
    requires i < LEVELS
    ensures var w := WordAt(m.words, s);
            place == if IsLeaf(w) && w.valid && w.reserved == 0 then LeafPage(c, w, i, vpage) else None
    ensures forall page: nat :: place == Some(page) <==> GivesPage(c, WordAt(m.words, s), Span(i), vpage, page)
  {
    var w := WordAt(m.words, s);
    place := None;
    if IsLeaf(w) && w.valid && w.reserved == 0 {
      place := LeafPage(c, w, i, vpage);
      forall page: nat ensures place == Some(page) <==> GivesPage(c, w, Span(i), vpage, page) {
        PlaceLaw(c, w, i, vpage, page);
      }
    }
  }

  lemma LeafLaw(c: Config, m: Memory, access: Access, vpage: nat, i: nat, s: Slot, page: nat, update: Option<Update>)
    requires i < LEVELS && Mode(c, access) != PRV_M
    ensures Outcome(c, m, access, vpage, i, s) == Found(page, update)
            <==> Serves(c, m, access, vpage, Span(i), s, page) && WritesBack(m, access, s, update)
  {
    var place := PlaceIs(c, m, vpage, i, s);
    OutcomeIs(c, m, access, vpage, i, s, place);
    assert place == Some(page) <==> GivesPage(c, WordAt(m.words, s), Span(i), vpage, page);
  }

  lemma SealedLaw(c: Config, m: Memory, access: Access, vpage: nat, i: nat, s: Slot)
    requires i < LEVELS && Mode(c, access) != PRV_M
    ensures Outcome(c, m, access, vpage, i, s) == AccessFault <==> Sealed(c, m, access, vpage, Span(i), s)
  {
    var place := PlaceIs(c, m, vpage, i, s);
    OutcomeIs(c, m, access, vpage, i, s, place);
    if place.Some? {
      assert GivesPage(c, WordAt(m.words, s), Span(i), vpage, place.value);
      assert Passes(c, access, WordAt(m.words, s)) ==> Serves(c, m, access, vpage, Span(i), s, place.value);
    }
  }

  /** The walk goes on exactly at pointers. */
  lemma Advances(c: Config, m: Memory, access: Access, vpage: nat, i: nat, table: nat)
    requires i < LEVELS && table in m.pages
    ensures var s := Slot(m.pages[table], Index(vpage, i));
            WalkFrom(c, m, access, vpage, i, table)
            == if Pointer(WordAt(m.words, s)) then WalkFrom(c, m, access, vpage, i + 1, WordAt(m.words, s).ppn)
               else Outcome(c, m, access, vpage, i, s)
  {
  }

  /** Slot s, of level i, is where the walk ends. */
  ghost predicate EndsAt(c: Config, m: Memory, vpage: nat, i: nat, s: Slot) {
    i < LEVELS && Decides(m, c.root, vpage, Span(i), s) && (Pointer(WordAt(m.words, s)) ==> i == LEVELS - 1)
  }

  lemma WalkEnds(c: Config, m: Memory, access: Access, vpage: nat)
    requires c.root in m.pages
    ensures var first := Entry(m, c.root, vpage / GIGA % 512);
            var w := WordAt(m.words, first);
            WalkFrom(c, m, access, vpage, 0, c.root)
            == if !Pointer(w) then Outcome(c, m, access, vpage, 0, first)
               else if w.ppn !in m.pages then AccessFault
               else WalkFrom(c, m, access, vpage, 1, w.ppn)
  {
    Advances(c, m, access, vpage, 0, c.root);
  }

  lemma LastLevels(c: Config, m: Memory, access: Access, vpage: nat, table: nat)
    requires table in m.pages
    ensures var second := Entry(m, table, vpage / MEGA % 512);
            var w := WordAt(m.words, second);
            WalkFrom(c, m, access, vpage, 1, table)
            == if !Pointer(w) then Outcome(c, m, access, vpage, 1, second)
               else if w.ppn !in m.pages then AccessFault
               else Outcome(c, m, access, vpage, 2, Entry(m, w.ppn, vpage % 512))
  {
    Advances(c, m, access, vpage, 1, table);
    var w := WordAt(m.words, Entry(m, table, vpage / MEGA % 512));
    if Pointer(w) && w.ppn in m.pages { Advances(c, m, access, vpage, 2, w.ppn); }
  }

  /** Only one slot can decide: pointers are no leaves. */
  lemma OneDecides(c: Config, m: Memory, access: Access, vpage: nat, i: nat, s: Slot, size: nat, t: Slot)
    requires EndsAt(c, m, vpage, i, s) && IsSize(size) && Decides(m, c.root, vpage, size, t)
    ensures (size == Span(i) && t == s) || (Pointer(WordAt(m.words, t)) && WordAt(m.words, t).ppn in m.pages)
  {
  }

  lemma PointerServesNothing(c: Config, m: Memory, access: Access, vpage: nat, size: nat, t: Slot)
    requires size > 0 && Pointer(WordAt(m.words, t))
    ensures forall page: nat :: !Serves(c, m, access, vpage, size, t, page)
  {
  }

  lemma EndMaps(c: Config, m: Memory, access: Access, vpage: nat, i: nat, s: Slot, page: nat, update: Option<Update>)
    requires EndsAt(c, m, vpage, i, s) && !Direct(c, access) && SignExtended(vpage)
    ensures Maps(c, m, access, vpage, page, update) <==> Outcome(c, m, access, vpage, i, s) == Found(page, update)
  {
    LeafLaw(c, m, access, vpage, i, s, page, update);
    if Maps(c, m, access, vpage, page, update) {
      var size: nat, t :| IsSize(size) && Decides(m, c.root, vpage, size, t)
                          && Serves(c, m, access, vpage, size, t, page) && WritesBack(m, access, t, update);
      OneDecides(c, m, access, vpage, i, s, size, t);
    }
  }

  lemma EndBlocked(c: Config, m: Memory, access: Access, vpage: nat, i: nat, s: Slot)
    requires EndsAt(c, m, vpage, i, s) && !Direct(c, access) && SignExtended(vpage)
    ensures Blocked(c, m, access, vpage) <==> Outcome(c, m, access, vpage, i, s) == AccessFault
  {
    SealedLaw(c, m, access, vpage, i, s);
    if Blocked(c, m, access, vpage) {
      var size: nat, t :| IsSize(size) && Decides(m, c.root, vpage, size, t)
                          && ((size > 1 && Dangles(m, t)) || Sealed(c, m, access, vpage, size, t));
      OneDecides(c, m, access, vpage, i, s, size, t);
    }
  }

  /** Below a pointer into nothing no leaf decides. */
  lemma DanglingMapsNothing(c: Config, m: Memory, access: Access, vpage: nat, i: nat, s: Slot)
    requires i < LEVELS - 1 && Decides(m, c.root, vpage, Span(i), s) && Dangles(m, s)
    requires !Direct(c, access) && SignExtended(vpage)
    ensures Blocked(c, m, access, vpage)
    ensures forall page: nat, update :: !Maps(c, m, access, vpage, page, update)
  {
    assert IsSize(Span(i)) && Span(i) > 1;
    forall size: nat, t | IsSize(size) && Decides(m, c.root, vpage, size, t) ensures Pointer(WordAt(m.words, t)) {}
  }

  /** The three ways a walk can go from the root. */
  lemma PagedWalk(c: Config, m: Memory, access: Access, vpage: nat, page: nat, update: Option<Update>)
    requires !Direct(c, access) && SignExtended(vpage) && c.root in m.pages
    ensures var walk := WalkFrom(c, m, access, vpage, 0, c.root);
            && (walk == Found(page, update) <==> Maps(c, m, access, vpage, page, update))
            && (walk == AccessFault <==> Blocked(c, m, access, vpage))
  {
    var first := Entry(m, c.root, vpage / GIGA % 512);
    WalkEnds(c, m, access, vpage);
    if !Pointer(WordAt(m.words, first)) {
      EndMaps(c, m, access, vpage, 0, first, page, update);
      EndBlocked(c, m, access, vpage, 0, first);
    } else if Dangles(m, first) {
      DanglingMapsNothing(c, m, access, vpage, 0, first);
    } else {
      DeeperWalk(c, m, access, vpage, page, update, WordAt(m.words, first).ppn);
    }
  }

  lemma DeeperWalk(c: Config, m: Memory, access: Access, vpage: nat, page: nat, update: Option<Update>, table: nat)
    requires !Direct(c, access) && SignExtended(vpage) && c.root in m.pages && table in m.pages
    requires var w := WordAt(m.words, Entry(m, c.root, vpage / GIGA % 512)); Pointer(w) && w.ppn == table
    ensures var walk := WalkFrom(c, m, access, vpage, 1, table);
            && (walk == Found(page, update) <==> Maps(c, m, access, vpage, page, update))
            && (walk == AccessFault <==> Blocked(c, m, access, vpage))
  {
    var second := Entry(m, table, vpage / MEGA % 512);
    LastLevels(c, m, access, vpage, table);
    assert Decides(m, c.root, vpage, MEGA, second);
    if !Pointer(WordAt(m.words, second)) {
      EndMaps(c, m, access, vpage, 1, second, page, update);
      EndBlocked(c, m, access, vpage, 1, second);
    } else if Dangles(m, second) {
      DanglingMapsNothing(c, m, access, vpage, 1, second);
    } else {
      var third := Entry(m, WordAt(m.words, second).ppn, vpage % 512);
      assert Decides(m, c.root, vpage, 1, third);
      EndMaps(c, m, access, vpage, 2, third, page, update);
      EndBlocked(c, m, access, vpage, 2, third);
    }
  }

  /** A walk finds a page, with that write-back, if and only if the page tables map it. */
  lemma FoundExactlyWhenMapped(c: Config, m: Memory, access: Access, vpage: nat, page: nat, update: Option<Update>)
    requires vpage < 0x10_0000_0000_0000
    ensures Translate(c, m, access, vpage) == Found(page, update) <==> Maps(c, m, access, vpage, page, update)
  {
    ModeIsEffective(c, access);
    if !Direct(c, access) && SignExtended(vpage) && c.root in m.pages { PagedWalk(c, m, access, vpage, page, update); }
  }

  /** The two faults: access fault exactly when blocked, page fault exactly when neither blocked nor mapped. */
  lemma FaultExactly(c: Config, m: Memory, access: Access, vpage: nat)
    requires vpage < 0x10_0000_0000_0000
    ensures Translate(c, m, access, vpage) == AccessFault <==> Blocked(c, m, access, vpage)
    ensures Translate(c, m, access, vpage) == PageFault
            <==> !Blocked(c, m, access, vpage)
                 && forall page: nat, update :: !Maps(c, m, access, vpage, page, update)
  {
    ModeIsEffective(c, access);
    if !Direct(c, access) && SignExtended(vpage) && c.root in m.pages { PagedWalk(c, m, access, vpage, 0, None); }
    var walk := Translate(c, m, access, vpage);
    forall page: nat, update ensures walk == Found(page, update) <==> Maps(c, m, access, vpage, page, update) {
      FoundExactlyWhenMapped(c, m, access, vpage, page, update);
    }
  }

  /** Pages of one leaf lie side by side: d pages further in the address are d pages further in memory. */
  lemma NeighboursStayNeighbours(c: Config, m: Memory, access: Access, vpage: nat, d: nat, size: nat, s: Slot,
                                 page: nat, update: Option<Update>)
    requires !Direct(c, access) && SignExtended(vpage) && IsSize(size) && vpage % size + d < size
    requires Decides(m, c.root, vpage, size, s)
    requires Serves(c, m, access, vpage, size, s, page) && WritesBack(m, access, s, update)
    ensures Translate(c, m, access, vpage) == Found(page, update)
    ensures Translate(c, m, access, vpage + d) == Found(page + d, update)
  {
    FoundExactlyWhenMapped(c, m, access, vpage, page, update);
    SameFields(vpage, d, size);
    assert Decides(m, c.root, vpage + d, size, s);
    assert Serves(c, m, access, vpage + d, size, s, page + d);
    FoundExactlyWhenMapped(c, m, access, vpage + d, page + d, update);
  }

  lemma SameFields(vpage: nat, d: nat, size: nat)
    requires IsSize(size) && vpage % size + d < size && SignExtended(vpage)
    ensures (vpage + d) / GIGA == vpage / GIGA && (size < GIGA ==> (vpage + d) / MEGA == vpage / MEGA)
    ensures (vpage + d) % size == vpage % size + d && (size == 1 ==> d == 0) && SignExtended(vpage + d)
  {
    if size == GIGA { FieldsOf(vpage, d, GIGA); } else if size == MEGA { FieldsOf(vpage, d, MEGA); }
  }

  lemma FieldsOf(vpage: nat, d: nat, size: nat)
    requires size == GIGA || size == MEGA
    requires vpage % size + d < size
    ensures (vpage + d) / size == vpage / size && (vpage + d) % size == vpage % size + d
    ensures (vpage + d) / GIGA == vpage / GIGA
  {
  }
}
