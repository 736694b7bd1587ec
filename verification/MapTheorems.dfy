/**
 What the memory map of MemMap means: its entries are exactly the resident pages of the areas, in order,
 apart, and as long as possible, for every area list and every page table.
 */
module MapTheorems {
  import opened Bytes
  import opened PhysMem
  import opened ProcMaps
  import opened RemoteMemory
  import opened MemoryTheorems
  import opened AccessTheorems
  import opened MapRecords
  import opened Residency
  import opened Runs
  import opened MapParse
  import opened MemMap

  predicate Within(e: MapsEntry, a: nat) {
    e.start <= a < e.end
  }

  ghost predicate Covers(es: seq<MapsEntry>, a: nat) {
    exists x :: 0 <= x < |es| && Within(es[x], a)
  }

  ghost predicate InSomeArea(mm: Mm, a: nat) {
    exists k :: 0 <= k < |mm.vmas| && Contains(mm.vmas[k], a)
  }

  /** The page of a is resident. */
  predicate PageResident(mm: Mm, ptes: map<nat, Pte>, a: nat) {
    Resident(PagesOf(mm.tables), ptes, a - a % PAGE)
  }

  /** The flags the coalescing loops see for area v. */
  function FlagsOf(mm: Mm, ptes: map<nat, Pte>, v: Vma): seq<bool>
    requires v.start <= v.end
  {
    Residents(PagesOf(mm.tables), ptes, v.start, PageCount(v.start, v.end))
  }

  /** Address a of a page-aligned area lies on page (a - start) / PAGE of it. */
  lemma PageOfAddress(v: Vma, a: nat)
    requires ProperArea(v) && Contains(v, a)
    ensures var k := (a - v.start) / PAGE;
      k < PageCount(v.start, v.end) && v.start + k * PAGE == a - a % PAGE
  {
  }

  lemma InRunInRegion(base: nat, a: nat, r: Run)
    requires base <= a
    ensures base + r.lo * PAGE <= a < base + r.hi * PAGE <==> r.lo <= (a - base) / PAGE < r.hi
  {
  }

  /** Within one area the entries cover exactly the addresses on resident pages. */
  lemma AreaCovers(mm: Mm, ptes: map<nat, Pte>, v: Vma, a: nat)
    requires ProperArea(v) && Contains(v, a)
    ensures Covers(AreaEntries(mm, ptes, v), a) <==> PageResident(mm, ptes, a)
  {
    var flags, es := FlagsOf(mm, ptes, v), AreaEntries(mm, ptes, v);
    var runs, k := RunsOf(flags), (a - v.start) / PAGE;
    RunsOfAreRuns(flags);
    PageOfAddress(v, a);
    assert PageResident(mm, ptes, a) <==> Covered(runs, k);
    forall j | 0 <= j < |runs|
      ensures Within(es[j], a) <==> runs[j].lo <= k < runs[j].hi
    {
      InRunInRegion(v.start, a, runs[j]);
    }
  }

  /** Every entry of an area: inside it, of whole resident pages, and with nothing resident next to it in the area. */
  ghost predicate MaximalIn(mm: Mm, ptes: map<nat, Pte>, v: Vma, e: MapsEntry) {
    && v.start <= e.start < e.end <= v.end && e.start % PAGE == 0 && e.end % PAGE == 0
    && e.read == v.read && e.write == v.write && e.exec == v.exec && e.shared == v.mayShare
    && e.name == NameOf(mm, v)
    && (e.start > v.start ==> !PageResident(mm, ptes, e.start - 1))
    && (e.end < v.end ==> !PageResident(mm, ptes, e.end))
  }

  lemma RunNeighbours(flags: seq<bool>, runs: seq<Run>, j: nat)
    requires AreRuns(flags, |flags|, runs) && j < |runs|
    ensures runs[j].lo < runs[j].hi <= |flags|
    ensures runs[j].lo > 0 ==> !flags[runs[j].lo - 1]
    ensures runs[j].hi < |flags| ==> !flags[runs[j].hi]
  {
    if runs[j].lo > 0 {
      assert !Covered(runs, runs[j].lo - 1);
    }
    if runs[j].hi < |flags| {
      assert !Covered(runs, runs[j].hi);
    }
  }

  /** The flag of page k of an area tells about any address on that page. */
  lemma FlagOfPage(mm: Mm, ptes: map<nat, Pte>, v: Vma, k: nat, a: nat)
    requires ProperArea(v) && k < PageCount(v.start, v.end)
    requires v.start + k * PAGE <= a < v.start + (k + 1) * PAGE
    ensures FlagsOf(mm, ptes, v)[k] == PageResident(mm, ptes, a)
  {
    assert a - a % PAGE == v.start + k * PAGE;
  }

  lemma AreaSpan(v: Vma, lo: nat, hi: nat)
    requires ProperArea(v) && lo < hi <= PageCount(v.start, v.end)
    ensures v.start + PageCount(v.start, v.end) * PAGE == v.end
    ensures (v.start + lo * PAGE) % PAGE == 0 && (v.start + hi * PAGE) % PAGE == 0
  {
  }

  /** Entry j of an area is run j of its flags, in addresses. */
  lemma EntryOfRun(mm: Mm, ptes: map<nat, Pte>, v: Vma, j: nat) returns (run: Run, e: MapsEntry)
    requires ProperArea(v) && j < |AreaEntries(mm, ptes, v)|
    ensures var flags := FlagsOf(mm, ptes, v);
      && run.lo < run.hi <= |flags| == PageCount(v.start, v.end)
      && (run.lo > 0 ==> !flags[run.lo - 1]) && (run.hi < |flags| ==> !flags[run.hi])
    ensures e == AreaEntries(mm, ptes, v)[j]
    ensures e == WithRange(EntryOf(mm, v), Region(v.start + run.lo * PAGE, v.start + run.hi * PAGE))
  {
    var flags := FlagsOf(mm, ptes, v);
    RunsOfAreRuns(flags);
    RunNeighbours(flags, RunsOf(flags), j);
    run, e := RunsOf(flags)[j], AreaEntries(mm, ptes, v)[j];
  }

  lemma AreaEntryIsMaximal(mm: Mm, ptes: map<nat, Pte>, v: Vma, j: nat)
    requires ProperArea(v) && j < |AreaEntries(mm, ptes, v)|
    ensures MaximalIn(mm, ptes, v, AreaEntries(mm, ptes, v)[j])
  {
    var run, e := EntryOfRun(mm, ptes, v, j);
    RunIsMaximal(mm, ptes, v, run, e);
  }

  lemma RunIsMaximal(mm: Mm, ptes: map<nat, Pte>, v: Vma, run: Run, e: MapsEntry)
    requires ProperArea(v) && run.lo < run.hi <= PageCount(v.start, v.end)
    requires run.lo > 0 ==> !FlagsOf(mm, ptes, v)[run.lo - 1]
    requires run.hi < PageCount(v.start, v.end) ==> !FlagsOf(mm, ptes, v)[run.hi]
    requires e == WithRange(EntryOf(mm, v), Region(v.start + run.lo * PAGE, v.start + run.hi * PAGE))
    ensures MaximalIn(mm, ptes, v, e)
  {
    AreaSpan(v, run.lo, run.hi);
    if run.lo > 0 {
      FlagOfPage(mm, ptes, v, run.lo - 1, e.start - 1);
    }
    if run.hi < PageCount(v.start, v.end) {
      FlagOfPage(mm, ptes, v, run.hi, e.end);
    }
  }

  /** What the list of one area keeps, without saying how it was made. */
  ghost predicate PartOf(mm: Mm, ptes: map<nat, Pte>, v: Vma, es: seq<MapsEntry>) {
    && (forall j :: 0 <= j < |es| ==> MaximalIn(mm, ptes, v, es[j]))
    && (forall i, j :: 0 <= i < j < |es| ==> es[i].end < es[j].start)
    && (forall a :: Contains(v, a) ==> (PageResident(mm, ptes, a) <==> Covers(es, a)))
  }

  lemma AreaIsPart(mm: Mm, ptes: map<nat, Pte>, v: Vma)
    requires ProperArea(v)
    ensures PartOf(mm, ptes, v, AreaEntries(mm, ptes, v))
  {
    var es := AreaEntries(mm, ptes, v);
    forall j | 0 <= j < |es|
      ensures MaximalIn(mm, ptes, v, es[j])
    {
      AreaEntryIsMaximal(mm, ptes, v, j);
    }
    RunsOfAreRuns(FlagsOf(mm, ptes, v));
    forall a | Contains(v, a)
      ensures PageResident(mm, ptes, a) <==> Covers(es, a)
    {
      AreaCovers(mm, ptes, v, a);
    }
  }

  ghost predicate AllParts(mm: Mm, ptes: map<nat, Pte>, parts: seq<seq<MapsEntry>>) {
    |parts| == |mm.vmas| && forall k :: 0 <= k < |parts| ==> PartOf(mm, ptes, mm.vmas[k], parts[k])
  }

  lemma AreasAreParts(mm: Mm, ptes: map<nat, Pte>)
    requires NonEmptyAreas(mm)
    ensures AllParts(mm, ptes, AreaList(mm, ptes))
  {
    forall k | 0 <= k < |mm.vmas|
      ensures PartOf(mm, ptes, mm.vmas[k], AreaList(mm, ptes)[k])
    {
      AreaIsPart(mm, ptes, mm.vmas[k]);
    }
  }

  /** Which part an element of a flattened list comes from. */
  lemma {:induction false} Origin<T>(parts: seq<seq<T>>, n: nat, x: nat) returns (k: nat, j: nat)
    requires n <= |parts| && x < |Flatten(parts, n)|
    ensures k < n && j < |parts[k]| && x == |Flatten(parts, k)| + j
    ensures Flatten(parts, n)[x] == parts[k][j]
  {
    var before := |Flatten(parts, n - 1)|;
    if x < before {
      k, j := Origin(parts, n - 1, x);
    } else {
      k, j := n - 1, x - before;
    }
  }

  lemma {:induction false} EarlierFirst<T>(parts: seq<seq<T>>, k: nat, n: nat)
    requires k <= n <= |parts|
    ensures Flatten(parts, k) <= Flatten(parts, n)
    decreases n
  {
    if k < n {
      EarlierFirst(parts, k, n - 1);
    }
  }

  lemma PositionOf<T>(parts: seq<seq<T>>, n: nat, k: nat, j: nat)
    requires k < n <= |parts| && j < |parts[k]|
    ensures var x := |Flatten(parts, k)| + j; x < |Flatten(parts, n)| && Flatten(parts, n)[x] == parts[k][j]
  {
    EarlierFirst(parts, k + 1, n);
    var upTo := Flatten(parts, k + 1);
    assert upTo == Flatten(parts, k) + parts[k];
    assert upTo[|Flatten(parts, k)| + j] == parts[k][j];
  }

  /**
   Coverage: the delivered entries cover address a exactly when a lies in an area and its page is resident.
   */
  lemma MapCovers(mm: Mm, ptes: map<nat, Pte>, es: seq<MapsEntry>, a: nat)
    requires NonEmptyAreas(mm) && es == PhyEntries(mm, ptes, |mm.vmas|)
    ensures Covers(es, a) <==> InSomeArea(mm, a) && PageResident(mm, ptes, a)
  {
    AreasAreParts(mm, ptes);
    FlatCovers(mm, ptes, AreaList(mm, ptes), es, a);
  }

  lemma FlatCovers(mm: Mm, ptes: map<nat, Pte>, parts: seq<seq<MapsEntry>>, es: seq<MapsEntry>, a: nat)
    requires AllParts(mm, ptes, parts) && es == Flatten(parts, |parts|)
    ensures Covers(es, a) <==> InSomeArea(mm, a) && PageResident(mm, ptes, a)
  {
    if Covers(es, a) {
      var x :| 0 <= x < |es| && Within(es[x], a);
      var k, j := Origin(parts, |parts|, x);
      assert MaximalIn(mm, ptes, mm.vmas[k], parts[k][j]);
      assert Contains(mm.vmas[k], a) && Covers(parts[k], a);
    }
    if InSomeArea(mm, a) && PageResident(mm, ptes, a) {
      var k :| 0 <= k < |mm.vmas| && Contains(mm.vmas[k], a);
      assert Covers(parts[k], a);
      var j :| 0 <= j < |parts[k]| && Within(parts[k][j], a);
      PositionOf(parts, |parts|, k, j);
    }
  }

  /**
   The same without a word about bitmaps: an address is covered exactly when it lies in an area and the page loop
   of rwmem_read, unforced, delivers its byte.
   */
  lemma MapCoversReadable(mm: Mm, ptes: map<nat, Pte>, ram: seq<byte>, es: seq<MapsEntry>, a: nat)
    requires NonEmptyAreas(mm) && es == PhyEntries(mm, ptes, |mm.vmas|) && FramesInRam(ptes, ram) && a < U64
    ensures Covers(es, a) <==> InSomeArea(mm, a) && ReadsByte(PagesOf(mm.tables), ptes, a)
    ensures Covers(es, a)
       <==> InSomeArea(mm, a) && exists p :: LeadsTo(mm.tables, a, p) && p in ptes && ptes[p].read
  {
    MapCovers(mm, ptes, es, a);
    ResidentIsReadable(PagesOf(mm.tables), ptes, ram, a);
    ReadsByteIff(mm.tables, ptes, a);
  }

  lemma ReadsByteIff(tables: Tables, ptes: map<nat, Pte>, a: nat)
    requires a < U64
    ensures ReadsByte(PagesOf(tables), ptes, a) <==> exists p :: LeadsTo(tables, a, p) && p in ptes && ptes[p].read
  {
    AccessibleIff(tables, ptes, a, false);
    assert Va(a, 0) == a;
  }

  /** In an area with read permission these are the addresses for which an unforced read call returns the byte. */
  lemma CoveredIsReadable(
    procs: Procs, pid: int, ptes: map<nat, Pte>, ram: seq<byte>, es: seq<MapsEntry>, k: nat, a: nat, n: nat)
    requires pid in procs && procs[pid].Running? && FramesInRam(ptes, ram)
    requires NonEmptyAreas(procs[pid].value) && WellFormed(procs[pid].value.vmas)
    requires es == PhyEntries(procs[pid].value, ptes, |procs[pid].value.vmas|)
    requires k < |procs[pid].value.vmas| && Contains(procs[pid].value.vmas[k], a) && procs[pid].value.vmas[k].read
    requires IsReach(PagesOf(procs[pid].value.tables), ptes, a, 1, ForRead, false, n)
    ensures Refusal(procs, Request(pid, a, false), 1, ForRead) == 0
    ensures Covers(es, a) <==> n == 1
  {
    var mm := procs[pid].value;
    var end: Addr := mm.vmas[k].end;
    AdmittedIff(mm.vmas, k, a, 1);
    MapCoversReadable(mm, ptes, ram, es, a);
  }

  /** Every entry is a maximal resident part of an area, and carries the attributes of that area. */
  lemma MapEntriesAreMaximal(mm: Mm, ptes: map<nat, Pte>, es: seq<MapsEntry>, x: nat)
    requires NonEmptyAreas(mm) && es == PhyEntries(mm, ptes, |mm.vmas|) && x < |es|
    ensures exists k :: 0 <= k < |mm.vmas| && MaximalIn(mm, ptes, mm.vmas[k], es[x])
  {
    AreasAreParts(mm, ptes);
    var k, j := Origin(AreaList(mm, ptes), |mm.vmas|, x);
    assert MaximalIn(mm, ptes, mm.vmas[k], AreaList(mm, ptes)[k][j]);
  }

  /** The entries are in address order and do not overlap. */
  lemma MapIsOrdered(mm: Mm, ptes: map<nat, Pte>, es: seq<MapsEntry>, x: nat, y: nat)
    requires NonEmptyAreas(mm) && WellFormed(mm.vmas)
    requires es == PhyEntries(mm, ptes, |mm.vmas|) && x < y < |es|
    ensures es[x].end <= es[y].start
  {
    AreasAreParts(mm, ptes);
    FlatIsOrdered(mm, ptes, AreaList(mm, ptes), es, x, y);
  }

  lemma FlatIsOrdered(mm: Mm, ptes: map<nat, Pte>, parts: seq<seq<MapsEntry>>, es: seq<MapsEntry>, x: nat, y: nat)
    requires AllParts(mm, ptes, parts) && WellFormed(mm.vmas) && es == Flatten(parts, |parts|) && x < y < |es|
    ensures es[x].end <= es[y].start
  {
    var k, i := Origin(parts, |parts|, x);
    var l, j := Origin(parts, |parts|, y);
    OriginsInOrder(parts, k, i, l, j);
    assert PartOf(mm, ptes, mm.vmas[k], parts[k]) && PartOf(mm, ptes, mm.vmas[l], parts[l]);
    if k < l {
      assert MaximalIn(mm, ptes, mm.vmas[k], parts[k][i]) && MaximalIn(mm, ptes, mm.vmas[l], parts[l][j]);
    }
  }

  lemma {:induction false} EarlierIsShorter<T>(parts: seq<seq<T>>, l: nat, k: nat)
    requires l < k <= |parts|
    ensures |Flatten(parts, l)| + |parts[l]| <= |Flatten(parts, k)|
  {
    EarlierFirst(parts, l + 1, k);
    assert |Flatten(parts, l + 1)| == |Flatten(parts, l)| + |parts[l]|;
  }

  lemma {:induction false} OriginsInOrder<T>(parts: seq<seq<T>>, k: nat, i: nat, l: nat, j: nat)
    requires k < |parts| && l < |parts| && i < |parts[k]| && j < |parts[l]|
    requires |Flatten(parts, k)| + i < |Flatten(parts, l)| + j
    ensures k < l || (k == l && i < j)
  {
    if l < k {
      EarlierIsShorter(parts, l, k);
    }
  }
}
