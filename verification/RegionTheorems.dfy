/**
 From the page tables to the server's answers: the reference list in the server's terms is a list that the
 region queries can walk, and a query over it tells the truth about residency.
 */
module RegionTheorems {
  import opened Bytes
  import opened PhysMem
  import opened ProcMaps
  import opened MapParse
  import opened MemMap
  import opened MapTheorems
  import opened RegionQuery

  lemma RegionOfEntry(e: MapsEntry)
    requires e.start < e.end < U64 && e.start % PAGE == 0 && e.end % PAGE == 0
    ensures var r := RegionOf(e);
      r.base == e.start && r.base + r.size == e.end && r.size > 0 && r.base % PAGE == 0 && r.size % PAGE == 0
  {
  }

  lemma EntryBounds(mm: Mm, ptes: map<nat, Pte>, es: seq<MapsEntry>, x: nat)
    requires NonEmptyAreas(mm) && es == PhyEntries(mm, ptes, |mm.vmas|) && x < |es|
    ensures es[x].start < es[x].end < U64 && es[x].start % PAGE == 0 && es[x].end % PAGE == 0
  {
    MapEntriesAreMaximal(mm, ptes, es, x);
    var k :| 0 <= k < |mm.vmas| && MaximalIn(mm, ptes, mm.vmas[k], es[x]);
    var end: Addr := mm.vmas[k].end;
  }

  /** The list of resident regions is sorted, disjoint and page aligned, whatever the page tables say. */
  lemma DriverListIsSorted(mm: Mm, ptes: map<nat, Pte>, es: seq<MapsEntry>)
    requires NonEmptyAreas(mm) && WellFormed(mm.vmas) && es == PhyEntries(mm, ptes, |mm.vmas|)
    ensures Sorted(ToDriver(es))
  {
    var list := ToDriver(es);
    forall x | 0 <= x < |list|
      ensures 0 < list[x].size && list[x].base + list[x].size < U64
      ensures list[x].base % PAGE == 0 && list[x].size % PAGE == 0
      ensures list[x].base == es[x].start && list[x].base + list[x].size == es[x].end
    {
      EntryBounds(mm, ptes, es, x);
      RegionOfEntry(es[x]);
    }
    forall x, y | 0 <= x < y < |list|
      ensures list[x].base + list[x].size <= list[y].base
    {
      MapIsOrdered(mm, ptes, es, x, y);
    }
  }

  /**
   An address in an area and on a resident page is answered with the protection and type of that area;
   the answer reaches at most to the end of the area.
   */
  lemma QueryTellsResidency(mm: Mm, ptes: map<nat, Pte>, es: seq<MapsEntry>, k: nat, a: nat)
    requires NonEmptyAreas(mm) && WellFormed(mm.vmas) && es == PhyEntries(mm, ptes, |mm.vmas|)
    requires k < |mm.vmas| && Contains(mm.vmas[k], a) && PageResident(mm, ptes, a)
    ensures var v := mm.vmas[k]; var x := QueryAt(ToDriver(es), a);
      && x.Some? && x.value.base == PageOf(a) && a < x.value.base + x.value.size <= v.end
      && x.value.protection == Protection(v.read, v.write, v.exec) && x.value.kind == Kind(v.mayShare)
  {
    DriverListIsSorted(mm, ptes, es);
    MapCovers(mm, ptes, es, a);
    var x :| 0 <= x < |es| && Within(es[x], a);
    MapEntriesAreMaximal(mm, ptes, es, x);
    var l :| 0 <= l < |mm.vmas| && MaximalIn(mm, ptes, mm.vmas[l], es[x]);
    assert l == k by {
      FindVmaContains(mm.vmas, a, l);
      FindVmaContains(mm.vmas, a, k);
    }
    EntryBounds(mm, ptes, es, x);
    RegionOfEntry(es[x]);
    InsideRegion(ToDriver(es), x, a);
  }

  /** An address that is in no area, or whose page is absent, lies in no region of the list. */
  lemma AbsentPageIsInNoRegion(mm: Mm, ptes: map<nat, Pte>, es: seq<MapsEntry>, a: nat, x: nat)
    requires NonEmptyAreas(mm) && es == PhyEntries(mm, ptes, |mm.vmas|) && x < |es|
    requires !(InSomeArea(mm, a) && PageResident(mm, ptes, a))
    ensures var r := ToDriver(es)[x]; !(r.base <= a < r.base + r.size)
  {
    MapCovers(mm, ptes, es, a);
    EntryBounds(mm, ptes, es, x);
    RegionOfEntry(es[x]);
    assert !Within(es[x], a);
  }

  /** Outside every region the answer, if there is one, is a gap: no access, and no type. */
  lemma OutsideRegions(list: seq<DriverRegion>, a: nat)
    requires Sorted(list) && forall x :: 0 <= x < |list| ==> !(list[x].base <= a < list[x].base + list[x].size)
    ensures var x := QueryAt(list, a); x.Some? ==> x.value.protection == PAGE_NOACCESS && x.value.kind == 0
  {
    var n := FirstAbove(list, PageOf(a), 0);
    if n < |list| {
      StopOf(list[n]);
      AlignedEnd(list[n], a);
    }
  }

  lemma AlignedEnd(r: DriverRegion, a: nat)
    requires r.base % PAGE == 0 && r.size % PAGE == 0
    ensures PageOf(a) < r.base + r.size ==> a < r.base + r.size
    ensures r.base <= PageOf(a) ==> r.base <= a
  {
    var pages, page := r.base / PAGE + r.size / PAGE, a / PAGE;
    assert r.base + r.size == PAGE * pages && PageOf(a) == PAGE * page;
    assert page < pages ==> page + 1 <= pages;
  }

  /**
   A query over the fetched list reports a type exactly for the addresses that lie in an area and on a
   resident page, whatever bitmap, chunks, runs and cached list were in between.
   */
  lemma QueryIsResidency(mm: Mm, ptes: map<nat, Pte>, es: seq<MapsEntry>, a: nat)
    requires NonEmptyAreas(mm) && WellFormed(mm.vmas) && es == PhyEntries(mm, ptes, |mm.vmas|)
    ensures var x := QueryAt(ToDriver(es), a);
      (x.Some? && x.value.kind != 0) <==> (InSomeArea(mm, a) && PageResident(mm, ptes, a))
  {
    if InSomeArea(mm, a) && PageResident(mm, ptes, a) {
      var k :| 0 <= k < |mm.vmas| && Contains(mm.vmas[k], a);
      QueryTellsResidency(mm, ptes, es, k, a);
    } else {
      DriverListIsSorted(mm, ptes, es);
      forall x | 0 <= x < |es|
        ensures var r := ToDriver(es)[x]; !(r.base <= a < r.base + r.size)
      {
        AbsentPageIsInNoRegion(mm, ptes, es, a, x);
      }
      OutsideRegions(ToDriver(es), a);
    }
  }
}
