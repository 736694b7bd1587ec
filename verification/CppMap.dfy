/**
 The memory map in the server's driver proxy: _rwProcMemDriver_VirtualQueryExFull and CheckMemAddrIsValid of
 CEServer/MemoryReaderWriter37.hpp. Sizes and results pass through C ints here, so that a very large area is
 left out of the list, or overruns its buffer.
 */
module CppMap {
  import opened Options
  import opened Bytes
  import opened PhysMem
  import opened ProcMaps
  import opened RemoteMemory
  import opened Residency
  import opened Runs
  import opened MapRecords
  import opened MapParse
  import opened MemMap

  /** A resident part of the region, as the server describes it. */
  function WithDriverRange(d: DriverRegion, r: Region): DriverRegion {
    d.(base := r.start, size := (r.end - r.start) % U64)
  }

  /** The pushes of the inner loop, all together. */
  function DriverParts(d: DriverRegion, runs: seq<Region>): (ds: seq<DriverRegion>)
    ensures |ds| == |runs| && forall j :: 0 <= j < |runs| ==> ds[j] == WithDriverRange(d, runs[j])
  {
    seq(|runs|, j requires 0 <= j < |runs| => WithDriverRange(d, runs[j]))
  }

  lemma DriverRangeOf(mm: Mm, v: Vma)
    requires v.start <= v.end
    ensures var d := RegionOf(EntryOf(mm, v)); d.base == v.start && d.base + d.size == v.end
  {
  }

  lemma PartsAgree(mm: Mm, ptes: map<nat, Pte>, v: Vma)
    requires v.start <= v.end
    ensures DriverParts(RegionOf(EntryOf(mm, v)), ResidentRegions(mm, ptes, v)) == ToDriver(AreaEntries(mm, ptes, v))
  {
  }

  /** The size of the residency buffer, a maximum of two ints. */
  function BufferSize(pages: nat): (n: nat)
    ensures n >= 24
  {
    var bytes := ToInt32(Ceil8(pages));
    if bytes > 24 then bytes else 24
  }

  /** The buffer is large enough exactly while the size of the bitmap is an int. */
  predicate Fits(pages: nat) {
    Ceil8(pages) < 0x8000_0000
  }

  lemma BufferIsLargeEnough(pages: nat)
    ensures BufferSize(pages) >= Ceil8(pages) <==> Fits(pages)
  {
  }

  /** The answer counts as a success: the page count is positive as a C int. */
  predicate Kept(v: Vma) {
    v.start <= v.end && ToInt32(PageCount(v.start, v.end)) > 0
  }

  /** Up to 2^32 pages, that is up to 16 TB, areas of 2^31 pages and more are dropped. */
  lemma KeptBelow(v: Vma)
    requires ProperArea(v) && PageCount(v.start, v.end) <= U32
    ensures Kept(v) <==> PageCount(v.start, v.end) < 0x8000_0000
  {
    assert PageCount(v.start, v.end) > 0;
  }

  /**
   _rwProcMemDriver_CheckMemAddrIsValid. Behind a buffer that is too short the driver writes into other
   memory of the client; nothing is said about that case.
   */
  method CheckMemAddrIsValid(mem: Memory, procs: Procs, process: nat, begin: nat, end: nat)
    returns (ghost defined: bool, answer: Option<array<byte>>)
    requires process < U64 && begin < end < U64 && begin % PAGE == 0 && end % PAGE == 0
    ensures (defined <==> Fits(PageCount(begin, end))) && (!defined ==> answer.None?)
    ensures defined ==> var pid, pages := ToInt32(process), PageCount(begin, end);
      && (answer.Some? <==> pid in procs && !procs[pid].Exited? && ToInt32(pages) > 0)
      && (answer.Some? ==> fresh(answer.value) && pages <= 8 * answer.value.Length && forall k :: 0 <= k < pages ==>
            BitAt(answer.value[..], k) == Resident(PagesOfTask(procs[pid]), mem.ptes, begin + k * PAGE))
  {
    var pages := (end / PAGE) - (begin / PAGE);
    var size := BufferSize(pages);
    BufferIsLargeEnough(pages);
    if size < Ceil8(pages) {
      return false, None;
    }
    defined := true;
    var buf := new byte[size](_ => 0);
    CopyInto(buf, 0, PhyBytes(process, begin, end));
    ghost var user := buf[..];
    PhyRoundTrip(process, begin, end, user[24..]);
    assert user == PhyBytes(process, begin, end) + user[24..];
    var ret := CheckPhy(mem, procs, buf);
    if ret >= 0 {
      BitsArrive(Residents(PagesOfTask(procs[ToInt32(process)]), mem.ptes, begin, PageCount(begin, end)), user);
    }
    answer := if CResult(ret, 0).0 > 0 then Some(buf) else None;
  }

  /** The inner loop of _rwProcMemDriver_VirtualQueryExFull: the resident parts of one region, if it is kept. */
  method CppResidentParts(mem: Memory, procs: Procs, process: nat, start: nat, end: nat)
    returns (ghost defined: bool, runs: Option<seq<Region>>)
    requires process < U64 && ToInt32(process) in procs && procs[ToInt32(process)].Running?
    requires start < end < U64 && start % PAGE == 0 && end % PAGE == 0
    ensures (defined <==> Fits(PageCount(start, end))) && (!defined ==> runs.None?)
    ensures defined ==> (runs.Some? <==> ToInt32(PageCount(start, end)) > 0)
    ensures defined && runs.Some? ==> var pm := PagesOf(procs[ToInt32(process)].value.tables);
      runs.value == ToRegions(RunsOf(Residents(pm, mem.ptes, start, PageCount(start, end))), start)
  {
    var answer;
    defined, answer := CheckMemAddrIsValid(mem, procs, process, start, end);
    runs := None;
    if answer.Some? {
      ghost var pm := PagesOf(procs[ToInt32(process)].value.tables);
      ghost var flags := Residents(pm, mem.ptes, start, PageCount(start, end));
      var out := CoalesceCpp(start, end, answer.value[..], flags);
      runs := Some(out);
    }
  }

  /** What one area contributes. */
  function KeptEntries(mm: Mm, ptes: map<nat, Pte>, v: Vma): seq<MapsEntry>
    requires v.start <= v.end
  {
    if Kept(v) then AreaEntries(mm, ptes, v) else []
  }

  /** One turn of the loop in _rwProcMemDriver_VirtualQueryExFull. */
  method CppOneArea(mem: Memory, procs: Procs, process: nat, rec: seq<byte>, showPhy: bool, ghost v: Vma)
    returns (ghost defined: bool, out: seq<DriverRegion>)
    requires process < U64 && ToInt32(process) in procs && procs[ToInt32(process)].Running?
    requires rec == Record(procs[ToInt32(process)].value, v) && ProperArea(v)
    ensures defined <==> !showPhy || Fits(PageCount(v.start, v.end))
    ensures defined ==> var mm := procs[ToInt32(process)].value;
      out == ToDriver(if showPhy then KeptEntries(mm, mem.ptes, v) else [EntryOf(mm, v)])
  {
    ghost var mm := procs[ToInt32(process)].value;
    ParsersAgree(mm, v);
    var r := ParseRegion(rec);
    if !showPhy {
      return true, [r];
    }
    defined, out := CppResidentArea(mem, procs, process, r, v);
  }

  /** The part of the turn that looks at residency. */
  method CppResidentArea(mem: Memory, procs: Procs, process: nat, r: DriverRegion, ghost v: Vma)
    returns (ghost defined: bool, out: seq<DriverRegion>)
    requires process < U64 && ToInt32(process) in procs && procs[ToInt32(process)].Running?
    requires r == RegionOf(EntryOf(procs[ToInt32(process)].value, v)) && ProperArea(v)
    ensures defined <==> Fits(PageCount(v.start, v.end))
    ensures defined ==> out == ToDriver(KeptEntries(procs[ToInt32(process)].value, mem.ptes, v))
  {
    ghost var mm := procs[ToInt32(process)].value;
    DriverRangeOf(mm, v);
    var runs;
    defined, runs := CppResidentParts(mem, procs, process, r.base, r.base + r.size);
    if runs.None? {
      return defined, [];
    }
    PartsAgree(mm, mem.ptes, v);
    out := DriverParts(r, runs.value);
  }

  /** The contributions of all areas. */
  function KeptList(mm: Mm, ptes: map<nat, Pte>): (parts: seq<seq<MapsEntry>>)
    requires NonEmptyAreas(mm)
    ensures |parts| == |mm.vmas|
    ensures forall i :: 0 <= i < |parts| ==> parts[i] == KeptEntries(mm, ptes, mm.vmas[i])
  {
    seq(|mm.vmas|, i requires 0 <= i < |mm.vmas| => KeptEntries(mm, ptes, mm.vmas[i]))
  }

  /** What the server has collected after n areas. */
  function CppEntries(mm: Mm, ptes: map<nat, Pte>, n: nat, showPhy: bool): seq<MapsEntry>
    requires n <= |mm.vmas| && NonEmptyAreas(mm)
  {
    if showPhy then Flatten(KeptList(mm, ptes), n) else AllEntries(mm, n)
  }

  lemma CppEntriesNext(mm: Mm, ptes: map<nat, Pte>, n: nat, showPhy: bool, part: seq<MapsEntry>)
    requires n < |mm.vmas| && NonEmptyAreas(mm)
    requires part == if showPhy then KeptEntries(mm, ptes, mm.vmas[n]) else [EntryOf(mm, mm.vmas[n])]
    ensures CppEntries(mm, ptes, n + 1, showPhy) == CppEntries(mm, ptes, n, showPhy) + part
    ensures ToDriver(CppEntries(mm, ptes, n + 1, showPhy))
         == ToDriver(CppEntries(mm, ptes, n, showPhy)) + ToDriver(part)
  {
    ToDriverJoins(CppEntries(mm, ptes, n, showPhy), part);
  }

  /** The list buffer's size is an int expression, and so are the sizes of the residency buffers. */
  ghost predicate FitsInts(mm: Mm, count: nat, n: nat, showPhy: bool)
    requires n <= |mm.vmas| && NonEmptyAreas(mm)
  {
    && RECORD * Room(count) < 0x8000_0000
    && (showPhy ==> AreasFit(mm, n))
  }

  ghost predicate AreasFit(mm: Mm, n: nat)
    requires n <= |mm.vmas| && NonEmptyAreas(mm)
  {
    forall k :: 0 <= k < n ==> Fits(PageCount(mm.vmas[k].start, mm.vmas[k].end))
  }

  /** The areas the list buffer has room for. */
  function Arriving(mm: Mm, count: nat): (n: nat)
    ensures n <= |mm.vmas|
  {
    MapRecords.Min(|mm.vmas|, Room(count))
  }

  /**
   _rwProcMemDriver_VirtualQueryExFull. A list with areas left out is still delivered, with the result FALSE;
   the flag that is documented as "complete" is set exactly when the list is incomplete.
   */
  method CppVirtualQueryExFull(mem: Memory, procs: Procs, process: nat, count: nat, showPhy: bool)
    returns (ghost defined: bool, ok: bool, out: seq<DriverRegion>, completed: bool)
    requires process < U64 && count < 0x8000_0000
    requires ToInt32(process) in procs && procs[ToInt32(process)].Running?
    requires NonEmptyAreas(procs[ToInt32(process)].value)
    ensures process == 0 || count == 0 ==> defined && !ok && out == []
    ensures process != 0 && count != 0 ==>
      var mm := procs[ToInt32(process)].value;
      && (defined <==> FitsInts(mm, count, Arriving(mm, count), showPhy))
      && (defined ==>
            && (ok <==> |mm.vmas| <= count + 50) && completed == !ok
            && out == ToDriver(CppEntries(mm, mem.ptes, Arriving(mm, count), showPhy)))
  {
    out, defined := [], true;
    if process == 0 || count == 0 {
      return true, false, [], false;
    }
    if (8 + 8 + 4 + 512) * (count + 50) >= 0x8000_0000 {
      return false, false, [], false;
    }
    var unfinished, buf := FetchList(procs, process, count);
    defined, out := CppRecords(mem, procs, process, buf[..], Decode(buf[..][0..8]), showPhy);
    ok, completed := !unfinished, unfinished;
  }

  /** The loop of _rwProcMemDriver_VirtualQueryExFull over the records. */
  method CppRecords(mem: Memory, procs: Procs, process: nat, bytes: seq<byte>, res: nat, showPhy: bool)
    returns (ghost defined: bool, out: seq<DriverRegion>)
    requires process < U64 && ToInt32(process) in procs && procs[ToInt32(process)].Running?
    requires NonEmptyAreas(procs[ToInt32(process)].value)
    requires res <= |procs[ToInt32(process)].value.vmas| && |bytes| >= COUNT + RECORD * res
    requires forall i :: 0 <= i < res ==> Slot(bytes, COUNT, i) == Records(procs[ToInt32(process)].value)[i]
    ensures var mm := procs[ToInt32(process)].value;
      && (defined <==> (showPhy ==> AreasFit(mm, res)))
      && (defined ==> out == ToDriver(CppEntries(mm, mem.ptes, res, showPhy)))
  {
    ghost var mm := procs[ToInt32(process)].value;
    out, defined := [], true;
    NothingListed(mm, mem.ptes, showPhy);
    for i := 0 to res
      invariant CppSoFar(mm, mem.ptes, i, showPhy, defined, out) == true  // compared, to keep it folded
    {
      ghost var fine;
      var part;
      fine, part := CppOneArea(mem, procs, process, Slot(bytes, COUNT, i), showPhy, mm.vmas[i]);
      MoreListed(mm, mem.ptes, i, showPhy, defined, out, fine, part);
      defined, out := defined && fine, out + part;
    }
  }

  ghost predicate CppSoFar(
    mm: Mm, ptes: map<nat, Pte>, n: nat, showPhy: bool, defined: bool, out: seq<DriverRegion>)
    requires n <= |mm.vmas| && NonEmptyAreas(mm)
  {
    && (defined <==> (showPhy ==> AreasFit(mm, n)))
    && (defined ==> out == ToDriver(CppEntries(mm, ptes, n, showPhy)))
  }

  lemma NothingListed(mm: Mm, ptes: map<nat, Pte>, showPhy: bool)
    requires NonEmptyAreas(mm)
    ensures CppSoFar(mm, ptes, 0, showPhy, true, [])
  {
  }

  lemma MoreListed(
    mm: Mm, ptes: map<nat, Pte>, n: nat, showPhy: bool, defined: bool, out: seq<DriverRegion>, fine: bool,
    part: seq<DriverRegion>)
    requires n < |mm.vmas| && NonEmptyAreas(mm) && CppSoFar(mm, ptes, n, showPhy, defined, out)
    requires fine <==> !showPhy || Fits(PageCount(mm.vmas[n].start, mm.vmas[n].end))
    requires fine ==>
      part == ToDriver(if showPhy then KeptEntries(mm, ptes, mm.vmas[n]) else [EntryOf(mm, mm.vmas[n])])
    ensures CppSoFar(mm, ptes, n + 1, showPhy, defined && fine, out + part)
  {
    CppEntriesNext(mm, ptes, n, showPhy,
      if showPhy then KeptEntries(mm, ptes, mm.vmas[n]) else [EntryOf(mm, mm.vmas[n])]);
  }

  // ---------------------------------------------------------------------------------------------
  // What the list means
  // ---------------------------------------------------------------------------------------------

  /** The elements among the first n whose flag is set. */
  function KeepOnly<T>(xs: seq<T>, keep: seq<bool>, n: nat): seq<T>
    requires n <= |xs| == |keep|
  {
    if n == 0 then [] else KeepOnly(xs, keep, n - 1) + if keep[n - 1] then [xs[n - 1]] else []
  }

  lemma {:induction false} SameParts<T>(a: seq<seq<T>>, b: seq<seq<T>>, n: nat)
    requires n <= |a| && n <= |b| && forall i :: 0 <= i < n ==> a[i] == b[i]
    ensures Flatten(a, n) == Flatten(b, n)
  {
    if n > 0 {
      SameParts(a, b, n - 1);
    }
  }

  lemma FlattenAppend<T>(a: seq<seq<T>>, b: seq<seq<T>>, x: seq<T>)
    requires b == a + [x]
    ensures Flatten(b, |b|) == Flatten(a, |a|) + x
  {
    SameParts(a, b, |a|);
  }

  /** Leaving parts out is the same as making them empty. */
  lemma {:induction false} FlattenKept<T>(all: seq<seq<T>>, some: seq<seq<T>>, keep: seq<bool>, n: nat)
    returns (kept: seq<seq<T>>)
    requires n <= |all| == |some| == |keep|
    requires forall i :: 0 <= i < |all| ==> some[i] == if keep[i] then all[i] else []
    ensures kept == KeepOnly(all, keep, n) && Flatten(some, n) == Flatten(kept, |kept|)
  {
    if n == 0 {
      kept := [];
    } else {
      var before := FlattenKept(all, some, keep, n - 1);
      kept := before + if keep[n - 1] then [all[n - 1]] else [];
      if keep[n - 1] {
        FlattenAppend(before, kept, all[n - 1]);
      } else {
        assert kept == before && Flatten(some, n) == Flatten(some, n - 1) + [];
      }
    }
  }

  function KeptFlags(vmas: seq<Vma>): (keep: seq<bool>)
    ensures |keep| == |vmas| && forall k :: 0 <= k < |vmas| ==> keep[k] == Kept(vmas[k])
  {
    seq(|vmas|, k requires 0 <= k < |vmas| => Kept(vmas[k]))
  }

  /** The areas among the first n that are kept. */
  function KeptAreas(vmas: seq<Vma>, n: nat): seq<Vma>
    requires n <= |vmas|
  {
    KeepOnly(vmas, KeptFlags(vmas), n)
  }

  /** The process as the server sees it. */
  function View(mm: Mm, n: nat): Mm
    requires n <= |mm.vmas|
  {
    mm.(vmas := KeptAreas(mm.vmas, n))
  }

  ghost predicate FromKept(vmas: seq<Vma>, n: nat, v: Vma)
    requires n <= |vmas|
  {
    exists k :: 0 <= k < n && vmas[k] == v && Kept(v)
  }

  /** Kept areas are areas, and still in order. */
  lemma {:induction false} KeptAreasAre(vmas: seq<Vma>, n: nat) returns (kept: seq<Vma>)
    requires n <= |vmas|
    ensures kept == KeptAreas(vmas, n)
    ensures forall i :: 0 <= i < |kept| ==> FromKept(vmas, n, kept[i])
    ensures forall k :: 0 <= k < n && Kept(vmas[k]) ==> vmas[k] in kept
    ensures WellFormed(vmas) ==> WellFormed(kept)
  {
    kept := [];
    if n > 0 {
      var before := KeptAreasAre(vmas, n - 1);
      kept := before + if Kept(vmas[n - 1]) then [vmas[n - 1]] else [];
      forall i | 0 <= i < |kept|
        ensures FromKept(vmas, n, kept[i])
      {
        assert i < |before| ==> FromKept(vmas, n - 1, kept[i]);
      }
    }
  }

  lemma ViewIsProper(mm: Mm, n: nat)
    requires n <= |mm.vmas| && NonEmptyAreas(mm)
    ensures NonEmptyAreas(View(mm, n))
  {
    var kept := KeptAreasAre(mm.vmas, n);
    forall i | 0 <= i < |kept|
      ensures ProperArea(kept[i])
    {
      assert FromKept(mm.vmas, n, kept[i]);
    }
  }

  /** The server's list is the reference list of the process as it sees it. */
  lemma CppEntriesAreReference(mm: Mm, ptes: map<nat, Pte>, n: nat)
    requires n <= |mm.vmas| && NonEmptyAreas(mm)
    ensures NonEmptyAreas(View(mm, n))
    ensures CppEntries(mm, ptes, n, true) == PhyEntries(View(mm, n), ptes, |View(mm, n).vmas|)
  {
    ViewIsProper(mm, n);
    var kept := FlattenKept(AreaList(mm, ptes), KeptList(mm, ptes), KeptFlags(mm.vmas), n);
    var vmas, parts := PartsOfKept(mm, ptes, AreaList(mm, ptes), KeptFlags(mm.vmas), n);
    PartsOfView(mm, ptes, n, parts);
  }

  /** The contributions of the kept areas are the kept contributions. */
  lemma {:induction false} PartsOfKept(
    mm: Mm, ptes: map<nat, Pte>, all: seq<seq<MapsEntry>>, keep: seq<bool>, n: nat)
    returns (vmas: seq<Vma>, parts: seq<seq<MapsEntry>>)
    requires n <= |mm.vmas| == |all| == |keep|
    requires forall i :: 0 <= i < |all| ==>
      mm.vmas[i].start <= mm.vmas[i].end && all[i] == AreaEntries(mm, ptes, mm.vmas[i])
    ensures vmas == KeepOnly(mm.vmas, keep, n) && parts == KeepOnly(all, keep, n) && |vmas| == |parts|
    ensures forall j :: 0 <= j < |vmas| ==> vmas[j].start <= vmas[j].end && parts[j] == AreaEntries(mm, ptes, vmas[j])
  {
    vmas, parts := [], [];
    if n > 0 {
      vmas, parts := PartsOfKept(mm, ptes, all, keep, n - 1);
      if keep[n - 1] {
        vmas, parts := vmas + [mm.vmas[n - 1]], parts + [all[n - 1]];
      }
    }
  }

  lemma PartsOfView(mm: Mm, ptes: map<nat, Pte>, n: nat, parts: seq<seq<MapsEntry>>)
    requires n <= |mm.vmas| && NonEmptyAreas(mm) && NonEmptyAreas(View(mm, n))
    requires |parts| == |View(mm, n).vmas|
    requires forall j :: 0 <= j < |parts| ==> parts[j] == AreaEntries(mm, ptes, View(mm, n).vmas[j])
    ensures AreaList(View(mm, n), ptes) == parts
  {
    var view := View(mm, n);
    forall j | 0 <= j < |parts|
      ensures AreaList(view, ptes)[j] == parts[j]
    {
      SameEntries(mm, view, ptes, view.vmas[j]);
    }
  }

  /** An area contributes the same, whatever other areas there are. */
  lemma SameEntries(m: Mm, m': Mm, ptes: map<nat, Pte>, v: Vma)
    requires m' == m.(vmas := m'.vmas) && v.start <= v.end
    ensures AreaEntries(m', ptes, v) == AreaEntries(m, ptes, v)
  {
    assert NameOf(m', v) == NameOf(m, v);
  }
}
