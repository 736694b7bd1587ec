/**
 What the server's region list tells, for every area list and every page table: exactly the resident pages of
 the areas it keeps, and hence the whole truth if and only if no dropped area has a resident page.
 */
module CppMapTheorems {
  import opened Options
  import opened PhysMem
  import opened ProcMaps
  import opened Residency
  import opened MapParse
  import opened MemMap
  import opened MapTheorems
  import opened CppMap
  import opened RegionQuery
  import opened RegionTheorems
  import opened AccessTheorems

  ghost predicate InKeptArea(mm: Mm, n: nat, a: nat)
    requires n <= |mm.vmas|
  {
    exists k :: 0 <= k < n && Kept(mm.vmas[k]) && Contains(mm.vmas[k], a)
  }

  lemma KeptAreasContain(mm: Mm, n: nat, a: nat)
    requires n <= |mm.vmas|
    ensures InSomeArea(View(mm, n), a) <==> InKeptArea(mm, n, a)
  {
    var kept := KeptAreasAre(mm.vmas, n);
    if InSomeArea(View(mm, n), a) {
      var i :| 0 <= i < |kept| && Contains(kept[i], a);
      assert FromKept(mm.vmas, n, kept[i]);
    }
    if InKeptArea(mm, n, a) {
      var k :| 0 <= k < n && Kept(mm.vmas[k]) && Contains(mm.vmas[k], a);
      assert mm.vmas[k] in kept;
    }
  }

  /** The list covers an address exactly when it lies in an area that is kept and its page is resident. */
  lemma CppListCovers(mm: Mm, ptes: map<nat, Pte>, n: nat, a: nat)
    requires n <= |mm.vmas| && NonEmptyAreas(mm)
    ensures Covers(CppEntries(mm, ptes, n, true), a) <==> InKeptArea(mm, n, a) && PageResident(mm, ptes, a)
  {
    var view := View(mm, n);
    CppEntriesAreReference(mm, ptes, n);
    MapCovers(view, ptes, PhyEntries(view, ptes, |view.vmas|), a);
    KeptAreasContain(mm, n, a);
  }

  /** The list is page aligned, ordered and disjoint, so that the theorems about queries and walks apply. */
  lemma CppListIsSorted(mm: Mm, ptes: map<nat, Pte>, n: nat)
    requires n <= |mm.vmas| && NonEmptyAreas(mm) && WellFormed(mm.vmas)
    ensures Sorted(ToDriver(CppEntries(mm, ptes, n, true)))
  {
    var view := View(mm, n);
    CppEntriesAreReference(mm, ptes, n);
    var _ := KeptAreasAre(mm.vmas, n);
    DriverListIsSorted(view, ptes, PhyEntries(view, ptes, |view.vmas|));
  }

  /** A query answers with a type, not with a gap or with nothing. */
  predicate Typed(list: seq<DriverRegion>, a: nat) {
    var x := QueryAt(list, a);
    x.Some? && x.value.kind != 0
  }

  /** A query over the server's list reports a type exactly for resident addresses in areas that are kept. */
  lemma CppQueryIsResidency(mm: Mm, ptes: map<nat, Pte>, n: nat, a: nat)
    requires n <= |mm.vmas| && NonEmptyAreas(mm) && WellFormed(mm.vmas)
    ensures Typed(ToDriver(CppEntries(mm, ptes, n, true)), a)
       <==> InKeptArea(mm, n, a) && PageResident(mm, ptes, a)
  {
    var view := View(mm, n);
    CppEntriesAreReference(mm, ptes, n);
    var _ := KeptAreasAre(mm.vmas, n);
    QueryIsResidency(view, ptes, PhyEntries(view, ptes, |view.vmas|), a);
    KeptAreasContain(mm, n, a);
  }

  ghost predicate HidesPage(mm: Mm, ptes: map<nat, Pte>, k: nat, a: nat)
    requires k < |mm.vmas|
  {
    !Kept(mm.vmas[k]) && Contains(mm.vmas[k], a) && PageResident(mm, ptes, a)
  }

  /** Some area that is dropped has a resident page. */
  ghost predicate HidesSomething(mm: Mm, ptes: map<nat, Pte>) {
    exists k, a: nat :: 0 <= k < |mm.vmas| && HidesPage(mm, ptes, k, a)
  }

  lemma NothingResidentNoEntries(mm: Mm, ptes: map<nat, Pte>, k: nat)
    requires k < |mm.vmas| && ProperArea(mm.vmas[k]) && !Kept(mm.vmas[k]) && !HidesSomething(mm, ptes)
    ensures AreaEntries(mm, ptes, mm.vmas[k]) == []
  {
    var v := mm.vmas[k];
    var es := AreaEntries(mm, ptes, v);
    if es != [] {
      AreaEntryIsMaximal(mm, ptes, v, 0);
      var a := es[0].start;
      assert Within(es[0], a) && Contains(v, a);
      AreaCovers(mm, ptes, v, a);
      assert HidesPage(mm, ptes, k, a);
    }
  }

  /** In a sorted list an address of a dropped area lies in no kept one. */
  lemma DroppedIsNotKept(mm: Mm, k: nat, a: nat)
    requires WellFormed(mm.vmas) && k < |mm.vmas| && !Kept(mm.vmas[k]) && Contains(mm.vmas[k], a)
    ensures InSomeArea(mm, a) && !InKeptArea(mm, |mm.vmas|, a)
  {
    FindVmaContains(mm.vmas, a, k);
    forall j | 0 <= j < |mm.vmas| && Contains(mm.vmas[j], a)
      ensures j == k
    {
      FindVmaContains(mm.vmas, a, j);
    }
  }

  /** The server's list is the reference list if and only if no dropped area has a resident page. */
  lemma CppListIsCompleteIff(mm: Mm, ptes: map<nat, Pte>)
    requires NonEmptyAreas(mm) && WellFormed(mm.vmas)
    ensures CppEntries(mm, ptes, |mm.vmas|, true) == PhyEntries(mm, ptes, |mm.vmas|) <==> !HidesSomething(mm, ptes)
  {
    if HidesSomething(mm, ptes) {
      var k, a: nat :| 0 <= k < |mm.vmas| && HidesPage(mm, ptes, k, a);
      DroppedIsNotKept(mm, k, a);
      CppListCovers(mm, ptes, |mm.vmas|, a);
      MapCovers(mm, ptes, PhyEntries(mm, ptes, |mm.vmas|), a);
    } else {
      forall k | 0 <= k < |mm.vmas|
        ensures KeptList(mm, ptes)[k] == AreaList(mm, ptes)[k]
      {
        if !Kept(mm.vmas[k]) {
          NothingResidentNoEntries(mm, ptes, k);
        }
      }
      SameParts(KeptList(mm, ptes), AreaList(mm, ptes), |mm.vmas|);
    }
  }

  /** A query for this address over the server's list tells its residency. */
  ghost predicate TellsAt(mm: Mm, ptes: map<nat, Pte>, a: nat)
    requires NonEmptyAreas(mm)
  {
    Typed(ToDriver(CppEntries(mm, ptes, |mm.vmas|, true)), a) <==> InSomeArea(mm, a) && PageResident(mm, ptes, a)
  }

  lemma TellsUnlessDropped(mm: Mm, ptes: map<nat, Pte>, a: nat)
    requires NonEmptyAreas(mm) && WellFormed(mm.vmas)
    ensures TellsAt(mm, ptes, a)
       <==> (InSomeArea(mm, a) && PageResident(mm, ptes, a) ==> InKeptArea(mm, |mm.vmas|, a))
  {
    CppQueryIsResidency(mm, ptes, |mm.vmas|, a);
    assert InKeptArea(mm, |mm.vmas|, a) ==> InSomeArea(mm, a);
  }

  /** The queries tell the truth about every address if and only if no dropped area has a resident page. */
  lemma TellsResidencyIff(mm: Mm, ptes: map<nat, Pte>)
    requires NonEmptyAreas(mm) && WellFormed(mm.vmas)
    ensures (forall a: nat :: TellsAt(mm, ptes, a)) <==> !HidesSomething(mm, ptes)
  {
    if HidesSomething(mm, ptes) {
      var k, a: nat :| 0 <= k < |mm.vmas| && HidesPage(mm, ptes, k, a);
      DroppedIsNotKept(mm, k, a);
      TellsUnlessDropped(mm, ptes, a);
      assert !TellsAt(mm, ptes, a);
    } else {
      forall a: nat
        ensures TellsAt(mm, ptes, a)
      {
        TellsUnlessDropped(mm, ptes, a);
        if PageResident(mm, ptes, a) {
          NotHidden(mm, ptes, a);
        }
      }
    }
  }

  lemma NotHidden(mm: Mm, ptes: map<nat, Pte>, a: nat)
    requires !HidesSomething(mm, ptes) && PageResident(mm, ptes, a)
    ensures InSomeArea(mm, a) <==> InKeptArea(mm, |mm.vmas|, a)
  {
    if InSomeArea(mm, a) {
      var k :| 0 <= k < |mm.vmas| && Contains(mm.vmas[k], a);
      assert !HidesPage(mm, ptes, k, a);
    }
  }

  /** A process with the given area alone, all of whose pages are resident. */
  lemma ResidentProcess(v: Vma) returns (mm: Mm, ptes: map<nat, Pte>)
    requires ProperArea(v) && v.end <= SPAN
    ensures mm.vmas == [v] && NonEmptyAreas(mm) && WellFormed(mm.vmas) && PageResident(mm, ptes, v.start)
  {
    var tables, entries := EveryAreaListHasTables([v]);
    mm, ptes := Mm([v], tables, 0, 0, 0, 0), entries;
    StartIsResident(v, PagesOf(tables), ptes);
    LoneArea(mm, ptes, v);
  }

  lemma LoneArea(mm: Mm, ptes: map<nat, Pte>, v: Vma)
    requires mm.vmas == [v] && ProperArea(v) && Resident(PagesOf(mm.tables), ptes, v.start)
    ensures NonEmptyAreas(mm) && WellFormed(mm.vmas) && PageResident(mm, ptes, v.start)
  {
    assert v.start - v.start % PAGE == v.start;
  }

  lemma StartIsResident(v: Vma, pm: PageMap, ptes: map<nat, Pte>)
    requires ProperArea(v) && v.end <= SPAN && IsFull(pm) && ptes == AreaPtes([v])
    ensures Resident(pm, ptes, v.start)
  {
    assert Contains([v][0], v.start);
    FirstAddress(v.start);
    AreaPteOf([v], pm, ptes, v.start);
    TranslationIsNotZero(pm, ptes, v.start);
  }

  lemma TranslationIsNotZero(pm: PageMap, ptes: map<nat, Pte>, va: nat)
    requires PteOf(pm, ptes, va).Some? && ptes[PteOf(pm, ptes, va).value].frame > 0
    ensures Translate(pm, ptes, va) != 0
  {
  }

  /**
   The list is not always complete: an area of 8 TB, that is 2^31 pages, fits its buffer but is dropped with
   all its resident pages.
   */
  lemma LargeAreaIsDropped() returns (mm: Mm, ptes: map<nat, Pte>)
    ensures NonEmptyAreas(mm) && WellFormed(mm.vmas) && AreasFit(mm, |mm.vmas|)
    ensures HidesSomething(mm, ptes) && CppEntries(mm, ptes, |mm.vmas|, true) == []
  {
    var v := Vma(0x1000, 0x800_0000_1000, true, true, false, false, None);
    assert PageCount(v.start, v.end) == 0x8000_0000;
    mm, ptes := ResidentProcess(v);
    assert HidesPage(mm, ptes, 0, v.start);
    assert CppEntries(mm, ptes, 1, true) == Flatten(KeptList(mm, ptes), 0) + KeptList(mm, ptes)[0];
  }
}
