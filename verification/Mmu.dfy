/**
 Address translation of tinyemu-core/riscv_cpu.c and riscv_cpu_priv.h: the Sv39 walk of
 section 4.4 of the RISC-V Privileged ISA 20211203, the three software TLBs and every
 event that changes what a walk would say.
 */
module Mmu {
  import opened Wrappers

  const PAGE: nat := 4096
  const TLB_SIZE: nat := 256
  const ADDRESS_LIMIT: nat := 0x1_0000_0000_0000_0000
  const INVALID: nat := 0xffff_ffff_ffff_ffff
  const PRV_S: nat := 1
  const PRV_M: nat := 3
  const LEVELS: nat := 3

  datatype Access = Read | Write | Code

  /** A 64-bit page-table word by its fields; rsw, reserved and pbmt keep their raw values. */
  datatype Word = Word(valid: bool, r: bool, w: bool, x: bool, user: bool, global: bool, accessed: bool, dirty: bool,
                       rsw: nat, ppn: nat, reserved: nat, pbmt: nat, napot: bool)

  /** One word of host memory: a host page and the word's index in it. */
  datatype Slot = Slot(host: nat, index: nat)

  /** RAM is page-aligned: each physical RAM page has one host page. */
  datatype Memory = Memory(pages: map<nat, nat>, rom: set<nat>, words: map<Slot, Word>)

  datatype Config = Config(priv: nat, mprv: bool, mpp: nat, sum: bool, mxr: bool, sv39: bool, root: nat, adue: bool,
                           pbmte: bool)

  function ZeroWord(): Word {
    Word(false, false, false, false, false, false, false, false, 0, 0, 0, 0, false)
  }

  function WordAt(words: map<Slot, Word>, s: Slot): Word {
    if s in words then words[s] else ZeroWord()
  }

  // ------------------------------------------------------------------- the walk

  datatype Update = Update(slot: Slot, word: Word)

  /** A fault, or the physical page and the accessed/dirty update that is due. */
  datatype Walked = PageFault | AccessFault | Found(page: nat, update: Option<Update>)

  function EffectivePriv(c: Config, access: Access): nat {
    if c.mprv && access != Code then c.mpp else c.priv
  }

  /** Pages covered by a leaf at level i. */
  function Span(i: nat): nat {
    if i == 0 then 262144 else if i == 1 then 512 else 1
  }

  function Index(vpage: nat, i: nat): nat { vpage / Span(i) % 512 }

  predicate IsLeaf(w: Word) { w.r || w.w || w.x }

  predicate Permits(w: Word, mxr: bool, access: Access) {
    match access
    case Read => w.r || (mxr && w.x)
    case Write => w.w
    case Code => w.x
  }

  predicate UpdateDue(w: Word, access: Access) {
    !w.accessed || (!w.dirty && access == Write)
  }

  function WithBits(w: Word, access: Access): Word {
    w.(accessed := true, dirty := w.dirty || access == Write)
  }

  /** The page a leaf maps, or none when its shape is malformed. */
  function LeafPage(c: Config, w: Word, i: nat, vpage: nat): Option<nat> {
    if w.pbmt == 3 || (w.pbmt != 0 && !c.pbmte) then None
    else if w.napot && (i != LEVELS - 1 || w.ppn % 16 != 8) then None
    else if w.w && !w.r then None
    else
      var base := if w.napot then w.ppn - w.ppn % 16 + vpage % 16 else w.ppn;
      if base % Span(i) != 0 then None else Some(base + vpage % Span(i))
  }

  predicate Allowed(c: Config, access: Access, w: Word) {
    && (if EffectivePriv(c, access) == PRV_S then !w.user || c.sum else w.user)
    && Permits(w, c.mxr, access)
    && (UpdateDue(w, access) ==> c.adue)
  }

  function WalkLeaf(c: Config, rom: set<nat>, access: Access, s: Slot, w: Word, i: nat, vpage: nat): Walked {
    var page := LeafPage(c, w, i, vpage);
    if page.None? || !Allowed(c, access, w) then PageFault
    else if !UpdateDue(w, access) then Found(page.value, None)
    else if s.host in rom then AccessFault
    else Found(page.value, Some(Update(s, WithBits(w, access))))
  }

  function WalkFrom(c: Config, m: Memory, access: Access, vpage: nat, i: nat, table: nat): Walked
    requires i <= LEVELS
    decreases LEVELS - i
  {
    if i == LEVELS then PageFault
    else if table !in m.pages then AccessFault
    else
      var s := Slot(m.pages[table], Index(vpage, i));
      var w := WordAt(m.words, s);
      if !w.valid || w.reserved != 0 then PageFault
      else if IsLeaf(w) then WalkLeaf(c, m.rom, access, s, w, i, vpage)
      else if w.user || w.accessed || w.dirty || w.pbmt != 0 || w.napot then PageFault
      else WalkFrom(c, m, access, vpage, i + 1, w.ppn)
  }

  predicate Canonical(vpage: nat) {
    vpage / 0x400_0000 == 0 || vpage / 0x400_0000 == 0x3ff_ffff
  }

  predicate Paged(c: Config, access: Access) {
    EffectivePriv(c, access) != PRV_M && c.sv39
  }

  function Translate(c: Config, m: Memory, access: Access, vpage: nat): Walked {
    if !Paged(c, access) then Found(vpage, None)
    else if !Canonical(vpage) then PageFault
    else WalkFrom(c, m, access, vpage, 0, c.root)
  }

  /** The page-table words a walk reads. */
  function VisitsFrom(m: Memory, vpage: nat, i: nat, table: nat): set<Slot>
    requires i <= LEVELS
    decreases LEVELS - i
  {
    if i == LEVELS || table !in m.pages then {}
    else
      var s := Slot(m.pages[table], Index(vpage, i));
      var w := WordAt(m.words, s);
      {s} + if IsLeaf(w) then {} else VisitsFrom(m, vpage, i + 1, w.ppn)
  }

  function Visits(c: Config, m: Memory, access: Access, vpage: nat): set<Slot> {
    if Paged(c, access) && Canonical(vpage) then VisitsFrom(m, vpage, 0, c.root) else {}
  }

  // --------------------------------------------------------------- accessed/dirty

  /** A hardware update of one word: accessed and dirty bits of a leaf set, nothing else. */
  predicate BitsOnly(a: Word, b: Word) {
    b == a
    || (IsLeaf(a) && b == a.(accessed := b.accessed, dirty := b.dirty) && (a.accessed ==> b.accessed)
        && (a.dirty ==> b.dirty))
  }

  ghost predicate Gentle(tables: set<Slot>, before: map<Slot, Word>, after: map<Slot, Word>) {
    forall s :: s in tables ==> BitsOnly(WordAt(before, s), WordAt(after, s))
  }

  predicate SameMap(m: Memory, n: Memory) {
    m.pages == n.pages && m.rom == n.rom
  }

  lemma LeafStable(c: Config, rom: set<nat>, access: Access, s: Slot, a: Word, b: Word, i: nat, vpage: nat)
    requires BitsOnly(a, b) && IsLeaf(a)
    requires WalkLeaf(c, rom, access, s, a, i, vpage).Found? && !UpdateDue(a, access)
    ensures WalkLeaf(c, rom, access, s, b, i, vpage) == WalkLeaf(c, rom, access, s, a, i, vpage)
  {
  }

  /** Updates of accessed and dirty bits leave a finished walk as it was. */
  lemma {:induction false} WalkStable(c: Config, m: Memory, n: Memory, tables: set<Slot>, access: Access,
                                      vpage: nat, i: nat, table: nat)
    requires i <= LEVELS && SameMap(m, n) && Gentle(tables, m.words, n.words)
    requires VisitsFrom(n, vpage, i, table) <= tables
    ensures VisitsFrom(n, vpage, i, table) == VisitsFrom(m, vpage, i, table)
    ensures var walk := WalkFrom(c, m, access, vpage, i, table);
            walk.Found? && walk.update.None? ==> WalkFrom(c, n, access, vpage, i, table) == walk
    decreases LEVELS - i
  {
    if i < LEVELS && table in m.pages {
      var s := Slot(m.pages[table], Index(vpage, i));
      assert s in VisitsFrom(n, vpage, i, table);
      var a := WordAt(m.words, s);
      if IsLeaf(a) {
        LeafWalkStable(c, m, n, access, vpage, i, table);
      } else {
        NonLeafSame(m, n, tables, s);
        DescentInVisits(n, vpage, i, table);
        WalkStable(c, m, n, tables, access, vpage, i + 1, a.ppn);
        Descends(c, m, access, vpage, i, table);
        Descends(c, n, access, vpage, i, table);
      }
    }
  }

  /** A pointer entry passes the walk on to the next level, or ends it. */
  lemma Descends(c: Config, m: Memory, access: Access, vpage: nat, i: nat, table: nat)
    requires i < LEVELS && table in m.pages
    ensures var s := Slot(m.pages[table], Index(vpage, i));
            var w := WordAt(m.words, s);
            !IsLeaf(w) ==>
              && VisitsFrom(m, vpage, i, table) == {s} + VisitsFrom(m, vpage, i + 1, w.ppn)
              && WalkFrom(c, m, access, vpage, i, table)
                 == if Descended(w) then WalkFrom(c, m, access, vpage, i + 1, w.ppn) else PageFault
  {
  }

  predicate Descended(w: Word) {
    w.valid && w.reserved == 0 && !w.user && !w.accessed && !w.dirty && w.pbmt == 0 && !w.napot
  }

  lemma DescentInVisits(m: Memory, vpage: nat, i: nat, table: nat)
    requires i < LEVELS && table in m.pages
    ensures var w := WordAt(m.words, Slot(m.pages[table], Index(vpage, i)));
            !IsLeaf(w) ==> VisitsFrom(m, vpage, i + 1, w.ppn) <= VisitsFrom(m, vpage, i, table)
  {
  }

  lemma NonLeafSame(m: Memory, n: Memory, tables: set<Slot>, s: Slot)
    requires Gentle(tables, m.words, n.words) && s in tables && !IsLeaf(WordAt(m.words, s))
    ensures WordAt(n.words, s) == WordAt(m.words, s)
  {
  }

  lemma LeafWalkStable(c: Config, m: Memory, n: Memory, access: Access, vpage: nat, i: nat, table: nat)
    requires i < LEVELS && SameMap(m, n) && table in m.pages
    requires var s := Slot(m.pages[table], Index(vpage, i));
             BitsOnly(WordAt(m.words, s), WordAt(n.words, s)) && IsLeaf(WordAt(m.words, s))
    ensures VisitsFrom(n, vpage, i, table) == VisitsFrom(m, vpage, i, table)
    ensures var walk := WalkFrom(c, m, access, vpage, i, table);
            walk.Found? && walk.update.None? ==> WalkFrom(c, n, access, vpage, i, table) == walk
  {
    var s := Slot(m.pages[table], Index(vpage, i));
    var a, b := WordAt(m.words, s), WordAt(n.words, s);
    if WalkLeaf(c, m.rom, access, s, a, i, vpage).Found? && !UpdateDue(a, access) {
      LeafStable(c, m.rom, access, s, a, b, i, vpage);
    }
  }

  lemma TranslateStable(c: Config, m: Memory, n: Memory, tables: set<Slot>, access: Access, vpage: nat)
    requires SameMap(m, n) && Gentle(tables, m.words, n.words)
    requires Visits(c, n, access, vpage) <= tables
    ensures Visits(c, m, access, vpage) <= tables
    ensures var walk := Translate(c, m, access, vpage);
            walk.Found? && walk.update.None? ==> Translate(c, n, access, vpage) == walk
  {
    if Paged(c, access) && Canonical(vpage) { WalkStable(c, m, n, tables, access, vpage, 0, c.root); }
  }

  function Applied(m: Memory, update: Option<Update>): Memory {
    if update.None? then m else m.(words := m.words[update.value.slot := update.value.word])
  }

  /** The update a walk asks for is an update of a leaf's bits. */
  lemma {:induction false} UpdateIsGentle(c: Config, m: Memory, access: Access, vpage: nat, i: nat, table: nat)
    requires i <= LEVELS && WalkFrom(c, m, access, vpage, i, table).Found?
    requires WalkFrom(c, m, access, vpage, i, table).update.Some?
    ensures var u := WalkFrom(c, m, access, vpage, i, table).update.value;
            IsLeaf(WordAt(m.words, u.slot)) && u.word == WithBits(WordAt(m.words, u.slot), access)
    decreases LEVELS - i
  {
    if i < LEVELS && table in m.pages {
      var w := WordAt(m.words, Slot(m.pages[table], Index(vpage, i)));
      if !IsLeaf(w) { UpdateIsGentle(c, m, access, vpage, i + 1, w.ppn); }
    }
  }

  lemma AppliedIsGentle(c: Config, m: Memory, access: Access, vpage: nat, tables: set<Slot>)
    requires Translate(c, m, access, vpage).Found?
    ensures var n := Applied(m, Translate(c, m, access, vpage).update);
            SameMap(m, n) && Gentle(tables, m.words, n.words)
  {
    if Translate(c, m, access, vpage).update.Some? { UpdateIsGentle(c, m, access, vpage, 0, c.root); }
  }

  /** Once its update is written, the same walk finds the same page and nothing is due. */
  lemma {:induction false} WalkSettles(c: Config, m: Memory, access: Access, vpage: nat, i: nat, table: nat,
                                       u: Update, page: nat)
    requires i <= LEVELS && WalkFrom(c, m, access, vpage, i, table) == Found(page, Some(u))
    ensures WalkFrom(c, Applied(m, Some(u)), access, vpage, i, table) == Found(page, None)
    decreases LEVELS - i
  {
    UpdateIsGentle(c, m, access, vpage, i, table);
    if i < LEVELS && table in m.pages {
      var s := Slot(m.pages[table], Index(vpage, i));
      var w := WordAt(m.words, s);
      if !IsLeaf(w) {
        assert s != u.slot;
        WalkSettles(c, m, access, vpage, i + 1, w.ppn, u, page);
      }
    }
  }

  lemma TranslateSettles(c: Config, m: Memory, access: Access, vpage: nat)
    requires Translate(c, m, access, vpage).Found?
    ensures var walk := Translate(c, m, access, vpage);
            Translate(c, Applied(m, walk.update), access, vpage) == Found(walk.page, None)
  {
    var walk := Translate(c, m, access, vpage);
    if walk.update.Some? { WalkSettles(c, m, access, vpage, 0, c.root, walk.update.value, walk.page); }
  }

  /** The leaf a walk ends at. */
  function LeafFrom(m: Memory, vpage: nat, i: nat, table: nat): Word
    requires i <= LEVELS
    decreases LEVELS - i
  {
    if i == LEVELS || table !in m.pages then ZeroWord()
    else
      var w := WordAt(m.words, Slot(m.pages[table], Index(vpage, i)));
      if IsLeaf(w) then w else LeafFrom(m, vpage, i + 1, w.ppn)
  }

  /** A walk with nothing due ended at a leaf whose bits are already set. */
  lemma {:induction false} SettledBits(c: Config, m: Memory, access: Access, vpage: nat, i: nat, table: nat)
    requires i <= LEVELS && WalkFrom(c, m, access, vpage, i, table).Found?
    requires WalkFrom(c, m, access, vpage, i, table).update.None?
    ensures LeafFrom(m, vpage, i, table).accessed && (access == Write ==> LeafFrom(m, vpage, i, table).dirty)
    decreases LEVELS - i
  {
    if i < LEVELS && table in m.pages {
      var w := WordAt(m.words, Slot(m.pages[table], Index(vpage, i)));
      if !IsLeaf(w) { SettledBits(c, m, access, vpage, i + 1, w.ppn); }
    }
  }
}
