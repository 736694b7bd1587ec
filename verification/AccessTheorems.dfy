/**
 Which memory areas an unforced access can reach: the pre-check of rwMem/proc_maps.h together with the
 page loops of rwMem/sys.c, over all area lists and all four-level page tables of a user process.
 */
module AccessTheorems {
  import opened Options
  import opened Bytes
  import opened PhysMem
  import opened ProcMaps
  import opened RemoteMemory
  import opened MemoryTheorems

  ghost predicate InArea(vmas: seq<Vma>, va: nat) {
    exists k :: 0 <= k < |vmas| && Contains(vmas[k], va)
  }

  /** The areas of a user process end at or below 2^48. */
  ghost predicate UserAreas(vmas: seq<Vma>) {
    WellFormed(vmas) && forall k :: 0 <= k < |vmas| ==> vmas[k].end <= SPAN
  }

  /** Present entries of user addresses lie inside areas. */
  ghost predicate MappedInsideAreas(vmas: seq<Vma>, tables: Tables, ptes: map<nat, Pte>) {
    forall va :: 0 <= va < SPAN && PteOf(PagesOf(tables), ptes, va).Some? ==> InArea(vmas, va)
  }

  lemma PteRepeats(tables: Tables, ptes: map<nat, Pte>, va: nat)
    ensures PteOf(PagesOf(tables), ptes, va) == PteOf(PagesOf(tables), ptes, va % SPAN)
  {
    WalkRepeats(tables, va / PAGE);
    AddressRepeats(va);
  }

  lemma MappedAnywhereIsInArea(vmas: seq<Vma>, tables: Tables, ptes: map<nat, Pte>, va: nat)
    requires MappedInsideAreas(vmas, tables, ptes) && PteOf(PagesOf(tables), ptes, va).Some?
    ensures InArea(vmas, va % SPAN)
  {
    PteRepeats(tables, ptes, va);
  }

  /** The end of the area that admits the access. */
  function Limit(vmas: seq<Vma>, addr: nat): (end: nat)
    requires FindVma(vmas, addr) < |vmas|
    ensures addr < end
  {
    vmas[FindVma(vmas, addr)].end
  }

  /**
   The pre-check for an address in an area, and a range that does not wrap: it admits the access exactly when
   the area permits it and the range ends in the area.
   */
  lemma AdmittedIff(vmas: seq<Vma>, k: nat, addr: nat, size: nat)
    requires WellFormed(vmas) && k < |vmas| && Contains(vmas[k], addr) && addr + size < U64
    ensures CheckMap(vmas, addr, size, ForRead) <==> vmas[k].read && addr + size <= vmas[k].end
    ensures CheckMap(vmas, addr, size, ForWrite) <==> vmas[k].write && addr + size <= vmas[k].end
  {
    FindVmaContains(vmas, addr, k);
  }

  /** For an address in no area the next area decides, because where it starts is not looked at. */
  lemma AdmittedInGap(vmas: seq<Vma>, k: nat, addr: nat, size: nat)
    requires WellFormed(vmas) && k <= |vmas| && addr + size < U64
    requires (k < |vmas| ==> addr < vmas[k].start) && (k > 0 ==> vmas[k - 1].end <= addr)
    ensures CheckMap(vmas, addr, size, ForRead) <==> k < |vmas| && vmas[k].read && addr + size <= vmas[k].end
    ensures CheckMap(vmas, addr, size, ForWrite) <==> k < |vmas| && vmas[k].write && addr + size <= vmas[k].end
  {
    assert forall i :: 0 <= i < k ==> vmas[i].end <= addr;
    assert FindVma(vmas, addr) == k;
  }

  /** Which calls are refused, and how: a known pid, and for an unforced one an mm and the pre-check. */
  lemma RefusedIff(procs: Procs, q: Request, size: nat, a: Access)
    ensures Refusal(procs, q, size, a) == -EINVAL <==> q.pid !in procs
    ensures Refusal(procs, q, size, a) == 0
       <==> q.pid in procs
            && (q.force || (procs[q.pid].Running? && CheckMap(procs[q.pid].value.vmas, q.addr, size, a)))
    ensures Refusal(procs, q, size, a) in {0, -EINVAL, -EFAULT}
  {
  }

  /**
   What an admitted access needs to stay in its area: no wrap at 2^64, or nothing mapped below the first
   byte it asks for, or no area right behind. A last area that ends at 2^48 is followed by address 0.
   */
  ghost predicate Confined(vmas: seq<Vma>, addr: nat, size: nat)
    requires FindVma(vmas, addr) < |vmas|
  {
    || addr + size < U64
    || addr < vmas[FindVma(vmas, addr)].start
    || !InArea(vmas, Limit(vmas, addr) % SPAN)
  }

  /** The n bytes from addr on lie in one area, which permits the access. */
  ghost predicate StaysIn(v: Vma, a: Access, addr: nat, n: nat) {
    Permits(v, a) && v.start <= addr && addr + n <= v.end
  }

  /**
   An admitted access that moves a byte stays in the area the pre-check found. That the area starts at or
   below the address is not checked; it follows from the presence of a page.
   */
  lemma AdmittedStays(
    vmas: seq<Vma>, tables: Tables, ptes: map<nat, Pte>, addr: nat, size: nat, a: Access, n: nat)
    requires UserAreas(vmas) && MappedInsideAreas(vmas, tables, ptes) && CheckMap(vmas, addr, size, a)
    requires IsReach(PagesOf(tables), ptes, addr, size, a, false, n) && n > 0
    requires Confined(vmas, addr, size)
    ensures StaysIn(vmas[FindVma(vmas, addr)], a, addr, n)
  {
    FirstByteInArea(vmas, tables, ptes, addr, size, a, n);
    if addr + n > Limit(vmas, addr) {
      ByteBehindIsInArea(vmas, tables, ptes, addr, size, a, n);
      AdmittedWraps(vmas, addr, size, a);
    }
  }

  /** An admitted range that passes the limit wraps. */
  lemma AdmittedWraps(vmas: seq<Vma>, addr: nat, size: nat, a: Access)
    requires CheckMap(vmas, addr, size, a) && addr + size > Limit(vmas, addr)
    ensures addr + size >= U64
  {
  }

  lemma FirstByteInArea(
    vmas: seq<Vma>, tables: Tables, ptes: map<nat, Pte>, addr: nat, size: nat, a: Access, n: nat)
    requires UserAreas(vmas) && MappedInsideAreas(vmas, tables, ptes) && FindVma(vmas, addr) < |vmas|
    requires IsReach(PagesOf(tables), ptes, addr, size, a, false, n) && n > 0
    ensures Contains(vmas[FindVma(vmas, addr)], addr)
  {
    FirstAddress(addr);
    assert Accessible(PagesOf(tables), ptes, Va(addr, 0), a, false);
    MappedAnywhereIsInArea(vmas, tables, ptes, addr);
    AreaIsFound(vmas, addr);
  }

  lemma FirstAddress(addr: nat)
    requires addr < SPAN
    ensures Va(addr, 0) == addr == addr % SPAN
  {
  }

  lemma AreaIsFound(vmas: seq<Vma>, addr: nat)
    requires WellFormed(vmas) && InArea(vmas, addr)
    ensures FindVma(vmas, addr) < |vmas| && Contains(vmas[FindVma(vmas, addr)], addr)
  {
    var j :| 0 <= j < |vmas| && Contains(vmas[j], addr);
    FindVmaContains(vmas, addr, j);
  }

  lemma ByteBehindIsInArea(
    vmas: seq<Vma>, tables: Tables, ptes: map<nat, Pte>, addr: nat, size: nat, a: Access, n: nat)
    requires UserAreas(vmas) && MappedInsideAreas(vmas, tables, ptes) && FindVma(vmas, addr) < |vmas|
    requires IsReach(PagesOf(tables), ptes, addr, size, a, false, n) && addr + n > Limit(vmas, addr)
    ensures InArea(vmas, Limit(vmas, addr) % SPAN)
  {
    var end := Limit(vmas, addr);
    ReachesByte(PagesOf(tables), ptes, addr, size, a, n, end);
    MappedAnywhereIsInArea(vmas, tables, ptes, end);
  }

  lemma ReachesByte(
    pm: PageMap, ptes: map<nat, Pte>, addr: nat, size: nat, a: Access, n: nat, va: nat)
    requires IsReach(pm, ptes, addr, size, a, false, n) && addr <= va < addr + n && va < U64
    ensures PteOf(pm, ptes, va).Some?
  {
    assert Accessible(pm, ptes, Va(addr, va - addr), a, false);
  }

  // ---------------------------------------------------------------------------------------------
  // The condition is exact: page tables for any area list
  // ---------------------------------------------------------------------------------------------

  predicate IsIndex(i: int) {
    0 <= i < 512
  }

  // All four levels filled: the entry of page vpn has address vpn. Each level knows the index prefix i above it.

  ghost predicate PmdIsFull(m: Pmd, i: nat) {
    forall l :: IsIndex(l) ==> l in m && m[l] == 512 * i + l
  }

  ghost predicate PudIsFull(m: Pud, i: nat) {
    forall k :: IsIndex(k) ==> k in m && PmdIsFull(m[k], 512 * i + k)
  }

  ghost predicate PgdIsFull(m: Pgd, i: nat) {
    forall j :: IsIndex(j) ==> j in m && PudIsFull(m[j], 512 * i + j)
  }

  ghost predicate TablesAreFull(m: Tables) {
    forall i :: IsIndex(i) ==> i in m && PgdIsFull(m[i], i)
  }

  /** A level whose entry i is f(i). */
  function Level<T>(f: nat -> T): map<nat, T> {
    map i | 0 <= i < 512 && IsIndex(i) :: f(i)
  }

  lemma LevelAt<T>(f: nat -> T, i: nat)
    requires IsIndex(i)
    ensures i in Level(f) && Level(f)[i] == f(i)
  {
  }

  function Pages(i: nat): nat -> nat {
    (l: nat) => 512 * i + l
  }

  function Pmds(i: nat): nat -> Pmd {
    (k: nat) => Level(Pages(512 * i + k))
  }

  function Puds(i: nat): nat -> Pud {
    (j: nat) => Level(Pmds(512 * i + j))
  }

  function Pgds(): nat -> Pgd {
    (i: nat) => Level(Puds(i))
  }

  function FullTables(): Tables {
    Level(Pgds())
  }

  lemma PmdFull(i: nat)
    ensures PmdIsFull(Level(Pages(i)), i)
  {
    forall l | IsIndex(l)
      ensures l in Level(Pages(i)) && Level(Pages(i))[l] == 512 * i + l
    {
      LevelAt(Pages(i), l);
    }
  }

  lemma PudFull(i: nat)
    ensures PudIsFull(Level(Pmds(i)), i)
  {
    forall k | IsIndex(k)
      ensures k in Level(Pmds(i)) && PmdIsFull(Level(Pmds(i))[k], 512 * i + k)
    {
      LevelAt(Pmds(i), k);
      PmdFull(512 * i + k);
    }
  }

  lemma PgdEntry(i: nat, j: nat, m: nat)
    requires IsIndex(j) && m == 512 * i + j
    ensures j in Level(Puds(i))
    ensures PudIsFull(Level(Puds(i))[j], m) == true  // compared, to keep it folded
  {
    LevelAt(Puds(i), j);
    PudFull(m);
  }

  lemma PgdFull(i: nat)
    ensures PgdIsFull(Level(Puds(i)), i)
  {
    forall j | IsIndex(j)
      ensures j in Level(Puds(i))
      ensures PudIsFull(Level(Puds(i))[j], 512 * i + j) == true
    {
      PgdEntry(i, j, 512 * i + j);
    }
  }

  lemma TablesFull()
    ensures TablesAreFull(FullTables())
  {
    forall i | IsIndex(i)
      ensures i in FullTables() && PgdIsFull(FullTables()[i], i)
    {
      LevelAt(Pgds(), i);
      PgdFull(i);
    }
  }

  /** The walk, level by level. */
  lemma WalkSteps(tables: Tables, vpn: nat, pgd: Pgd, pud: Pud, pmd: Pmd, p: nat)
    requires Lookup(tables, vpn / 0x800_0000 % 512) == Some(pgd) && Lookup(pgd, vpn / 0x4_0000 % 512) == Some(pud)
    requires Lookup(pud, vpn / 512 % 512) == Some(pmd) && Lookup(pmd, vpn % 512) == Some(p)
    ensures PagesOf(tables)(vpn) == Some(p)
  {
  }

  lemma IndicesMakeUp(vpn: nat)
    requires vpn < PAGES
    ensures var i, j, k, l := vpn / 0x800_0000 % 512, vpn / 0x4_0000 % 512, vpn / 512 % 512, vpn % 512;
      512 * (512 * (512 * i + j) + k) + l == vpn
  {
    assert vpn / 0x800_0000 == vpn / 0x4_0000 / 512;
    assert vpn / 0x4_0000 == vpn / 512 / 512;
  }

  lemma FullWalkLow(tables: Tables, vpn: nat)
    requires TablesAreFull(tables) && vpn < PAGES
    ensures PagesOf(tables)(vpn) == Some(vpn)
  {
    var i, j, k, l := vpn / 0x800_0000 % 512, vpn / 0x4_0000 % 512, vpn / 512 % 512, vpn % 512;
    var pgd, pud, pmd := FullEntries(tables, i, j, k);
    assert IsIndex(l);
    IndicesMakeUp(vpn);
    WalkSteps(tables, vpn, pgd, pud, pmd, vpn);
  }

  lemma FullEntries(tables: Tables, i: nat, j: nat, k: nat) returns (pgd: Pgd, pud: Pud, pmd: Pmd)
    requires TablesAreFull(tables) && IsIndex(i) && IsIndex(j) && IsIndex(k)
    ensures Lookup(tables, i) == Some(pgd) && Lookup(pgd, j) == Some(pud) && Lookup(pud, k) == Some(pmd)
    ensures PmdIsFull(pmd, 512 * (512 * i + j) + k)
  {
    pgd := tables[i];
    pud := pgd[j];
    pmd := pud[k];
  }

  lemma FullWalk(tables: Tables, vpn: nat)
    requires TablesAreFull(tables)
    ensures PagesOf(tables)(vpn) == Some(vpn % PAGES)
  {
    WalkRepeats(tables, vpn);
    FullWalkLow(tables, vpn % PAGES);
  }

  /** A walk over full tables. */
  ghost predicate IsFull(pm: PageMap) {
    forall vpn: nat :: pm(vpn) == Some(vpn % PAGES)
  }

  /** A frame of its own for every page of every area. */
  ghost function AreaPtes(vmas: seq<Vma>): (ptes: map<nat, Pte>)
    ensures forall p :: p in ptes <==> 0 <= p < PAGES && InArea(vmas, p * PAGE)
    ensures forall p :: p in ptes ==> ptes[p] == Pte(p + 1, true, true)
  {
    map p | 0 <= p < PAGES && InArea(vmas, p * PAGE) :: Pte(p + 1, true, true)
  }

  lemma AreaPteOf(vmas: seq<Vma>, pm: PageMap, ptes: map<nat, Pte>, va: nat)
    requires UserAreas(vmas) && IsFull(pm) && ptes == AreaPtes(vmas)
    ensures var p := PteOf(pm, ptes, va);
      (p.Some? <==> InArea(vmas, va % SPAN)) && (p.Some? ==> ptes[p.value].read && ptes[p.value].write)
  {
    LowPage(va);
    SamePageSameArea(vmas, va % SPAN);
  }

  lemma LowPage(va: nat)
    ensures va / PAGE % PAGES * PAGE == va % SPAN - va % SPAN % PAGE
  {
    AddressRepeats(va);
  }

  lemma SamePageSameArea(vmas: seq<Vma>, va: nat)
    requires WellFormed(vmas)
    ensures InArea(vmas, va - va % PAGE) <==> InArea(vmas, va)
  {
    forall k | 0 <= k < |vmas|
      ensures Contains(vmas[k], va - va % PAGE) <==> Contains(vmas[k], va)
    {
      AlignedBounds(vmas[k].start, va);
      AlignedBounds(vmas[k].end, va);
    }
  }

  lemma AlignedBounds(bound: nat, va: nat)
    requires bound % PAGE == 0
    ensures bound <= va <==> bound <= va - va % PAGE
  {
  }

  /**
   Every area list has page tables that map exactly its addresses, without aliases: the hypotheses of this
   module and of the read-after-write theorem are those of real processes.
   */
  lemma EveryAreaListHasTables(vmas: seq<Vma>) returns (tables: Tables, ptes: map<nat, Pte>)
    requires UserAreas(vmas)
    ensures MappedInsideAreas(vmas, tables, ptes) && OneToOne(PagesOf(tables), ptes)
    ensures forall va :: 0 <= va < SPAN && InArea(vmas, va) ==> PteOf(PagesOf(tables), ptes, va).Some?
    ensures forall p :: p in ptes ==> ptes[p].frame > 0
    ensures IsFull(PagesOf(tables)) && ptes == AreaPtes(vmas)
  {
    tables, ptes := FullTables(), AreaPtes(vmas);
    TablesFull();
    forall u: nat
      ensures PagesOf(tables)(u) == Some(u % PAGES)
    {
      FullWalk(tables, u);
    }
    FullMapsAreas(vmas, PagesOf(tables), ptes);
  }

  lemma FullMapsAreas(vmas: seq<Vma>, pm: PageMap, ptes: map<nat, Pte>)
    requires UserAreas(vmas) && IsFull(pm) && ptes == AreaPtes(vmas)
    ensures OneToOne(pm, ptes)
    ensures forall va :: 0 <= va < SPAN ==> (PteOf(pm, ptes, va).Some? <==> InArea(vmas, va))
  {
    forall va | 0 <= va < SPAN
      ensures PteOf(pm, ptes, va).Some? <==> InArea(vmas, va)
    {
      AreaPteOf(vmas, pm, ptes, va);
    }
  }

  lemma {:induction false} ReachExists(
    pm: PageMap, ptes: map<nat, Pte>, addr: nat, size: nat, a: Access, force: bool) returns (n: nat)
    ensures IsReach(pm, ptes, addr, size, a, force, n)
  {
    n := 0;
    if size > 0 {
      n := ReachExists(pm, ptes, addr, size - 1, a, force);
      if n == size - 1 && Accessible(pm, ptes, Va(addr, n), a, force) {
        n := size;
      }
    }
  }

  /** Over all page tables, the admitted access stays in its area. */
  ghost predicate AlwaysStays(vmas: seq<Vma>, addr: nat, size: nat, a: Access)
    requires FindVma(vmas, addr) < |vmas|
  {
    forall tables: Tables, ptes: map<nat, Pte>, n: nat ::
      MappedInsideAreas(vmas, tables, ptes) && IsReach(PagesOf(tables), ptes, addr, size, a, false, n) && n > 0
      ==> StaysIn(vmas[FindVma(vmas, addr)], a, addr, n)
  }

  /** Page tables with which an access that is not confined leaves its area. */
  lemma UnconfinedLeaves(vmas: seq<Vma>, addr: nat, size: nat, a: Access)
    returns (tables: Tables, ptes: map<nat, Pte>, n: nat)
    requires UserAreas(vmas) && CheckMap(vmas, addr, size, a) && !Confined(vmas, addr, size)
    ensures MappedInsideAreas(vmas, tables, ptes) && IsReach(PagesOf(tables), ptes, addr, size, a, false, n)
    ensures addr + n > Limit(vmas, addr)
  {
    tables, ptes := EveryAreaListHasTables(vmas);
    var pm := PagesOf(tables);
    n := ReachExists(pm, ptes, addr, size, a, false);
    FullRunsOver(vmas, pm, ptes, addr, size, a, n);
  }

  lemma FullRunsOver(vmas: seq<Vma>, pm: PageMap, ptes: map<nat, Pte>, addr: nat, size: nat, a: Access, n: nat)
    requires UserAreas(vmas) && CheckMap(vmas, addr, size, a) && !Confined(vmas, addr, size)
    requires IsFull(pm) && ptes == AreaPtes(vmas) && IsReach(pm, ptes, addr, size, a, false, n)
    ensures addr + n > Limit(vmas, addr)
  {
    if addr + n <= Limit(vmas, addr) {
      UpToLimitInArea(vmas, addr, size, addr + n);
      AreaPteOf(vmas, pm, ptes, addr + n);
      ReachStops(pm, ptes, addr, size, a, n);
    }
  }

  /** A reach shorter than the range ends before a page that is absent or does not permit the access. */
  lemma ReachStops(pm: PageMap, ptes: map<nat, Pte>, addr: nat, size: nat, a: Access, n: nat)
    requires IsReach(pm, ptes, addr, size, a, false, n) && n < size && addr + n < U64
    ensures var p := PteOf(pm, ptes, addr + n); p.Some? ==> !(ptes[p.value].read && ptes[p.value].write)
  {
    assert Va(addr, n) == addr + n;
  }

  /** An access that is not confined finds an area at every byte up to the limit, and at the limit. */
  lemma UpToLimitInArea(vmas: seq<Vma>, addr: nat, size: nat, va: nat)
    requires UserAreas(vmas) && FindVma(vmas, addr) < |vmas| && !Confined(vmas, addr, size)
    requires addr <= va <= Limit(vmas, addr)
    ensures InArea(vmas, va % SPAN) && va < U64
  {
    if va < Limit(vmas, addr) {
      var k := FindVma(vmas, addr);
      FirstAddress(va);
      assert Contains(vmas[k], va);
    }
  }

  /**
   An admitted unforced access stays in its area under every page table if and only if it is confined: the
   pre-check adds in 64 bits, so a range that wraps is admitted, and then runs on into an adjacent area.
   */
  lemma StaysIffConfined(vmas: seq<Vma>, addr: nat, size: nat, a: Access)
    requires UserAreas(vmas) && CheckMap(vmas, addr, size, a)
    ensures AlwaysStays(vmas, addr, size, a) <==> Confined(vmas, addr, size)
  {
    if Confined(vmas, addr, size) {
      forall tables: Tables, ptes: map<nat, Pte>, n: nat |
        MappedInsideAreas(vmas, tables, ptes) && IsReach(PagesOf(tables), ptes, addr, size, a, false, n) && n > 0
        ensures StaysIn(vmas[FindVma(vmas, addr)], a, addr, n)
      {
        AdmittedStays(vmas, tables, ptes, addr, size, a, n);
      }
    } else {
      var tables, ptes, n := UnconfinedLeaves(vmas, addr, size, a);
      assert !StaysIn(vmas[FindVma(vmas, addr)], a, addr, n);
    }
  }

  // ---------------------------------------------------------------------------------------------
  // The calls
  // ---------------------------------------------------------------------------------------------

  /** The user process behind a request. */
  ghost predicate UserProcess(procs: Procs, q: Request, ptes: map<nat, Pte>) {
    && q.pid in procs && procs[q.pid].Running?
    && UserAreas(procs[q.pid].value.vmas)
    && MappedInsideAreas(procs[q.pid].value.vmas, procs[q.pid].value.tables, ptes)
  }

  /**
   rwmem_read and rwmem_write, unforced: what was not refused and moved n bytes stayed in one area that
   permits it. A count of read(2) or write(2) is not negative as a signed 64-bit number, so it cannot wrap.
   */
  lemma UnforcedStaysInOneArea(
    procs: Procs, q: Request, ptes: map<nat, Pte>, size: nat, a: Access, n: nat) returns (k: nat)
    requires UserProcess(procs, q, ptes) && !q.force && Refusal(procs, q, size, a) == 0
    requires IsReach(PagesOfTask(procs[q.pid]), ptes, q.addr, size, a, false, n) && n > 0
    requires size < U64 / 2
    ensures k < |procs[q.pid].value.vmas| && StaysIn(procs[q.pid].value.vmas[k], a, q.addr, n)
  {
    var mm := procs[q.pid].value;
    k := FindVma(mm.vmas, q.addr);
    AdmittedStays(mm.vmas, mm.tables, ptes, q.addr, size, a, n);
  }

  /** Byte p of physical memory is that of an address in area v. */
  ghost predicate BelongsTo(v: Vma, pm: PageMap, ptes: map<nat, Pte>, p: nat) {
    exists va :: v.start <= va < v.end && Translate(pm, ptes, va) == p
  }

  /** An unforced write changes no physical byte but those of one area, and that area is writable. */
  lemma UnforcedWriteChangesOneArea(
    procs: Procs, q: Request, ptes: map<nat, Pte>, ram: seq<byte>, data: seq<byte>, n: nat) returns (k: nat)
    requires UserProcess(procs, q, ptes) && !q.force && Refusal(procs, q, |data|, ForWrite) == 0
    requires FramesInRam(ptes, ram) && |data| < U64 / 2 && n > 0
    requires IsReach(PagesOfTask(procs[q.pid]), ptes, q.addr, |data|, ForWrite, false, n)
    requires Mapped(PagesOfTask(procs[q.pid]), ptes, q.addr, n)
    ensures k < |procs[q.pid].value.vmas| && procs[q.pid].value.vmas[k].write
    ensures var pm := PagesOfTask(procs[q.pid]);
      forall p :: 0 <= p < |ram| ==>
        FlatWrite(pm, ptes, ram, q.addr, data, n)[p] == ram[p] || BelongsTo(procs[q.pid].value.vmas[k], pm, ptes, p)
  {
    k := UnforcedStaysInOneArea(procs, q, ptes, |data|, ForWrite, n);
    var pm, v := PagesOfTask(procs[q.pid]), procs[q.pid].value.vmas[k];
    forall p | 0 <= p < |ram| && !BelongsTo(v, pm, ptes, p)
      ensures FlatWrite(pm, ptes, ram, q.addr, data, n)[p] == ram[p]
    {
      OtherBytesStay(v, pm, ptes, ram, q.addr, data, n, p);
    }
  }

  lemma OtherBytesStay(
    v: Vma, pm: PageMap, ptes: map<nat, Pte>, ram: seq<byte>, addr: nat, data: seq<byte>, n: nat, p: nat)
    requires FramesInRam(ptes, ram) && Mapped(pm, ptes, addr, n) && n <= |data| && p < |ram|
    requires v.start <= addr && addr + n <= v.end && !BelongsTo(v, pm, ptes, p)
    ensures FlatWrite(pm, ptes, ram, addr, data, n)[p] == ram[p]
  {
    forall i | 0 <= i < n
      ensures Pa(pm, ptes, addr, i) != p
    {
      assert v.start <= addr + i < v.end && Va(addr, i) == addr + i;
    }
    WriteFrame(pm, ptes, ram, addr, data, n, p);
  }
}
