/**
 The memory map end to end: get_mem_map of librwmem, from the areas and page tables in the kernel to the list
 the caller gets, and the reference for both clients.
 */
module MemMap {
  import opened Bytes
  import opened PhysMem
  import opened ProcMaps
  import opened RemoteMemory
  import opened Residency
  import opened Runs
  import opened MapRecords
  import opened MapParse
  import MemoryClients

  /** The resident parts of one area. */
  function ResidentRegions(mm: Mm, ptes: map<nat, Pte>, v: Vma): seq<Region>
    requires v.start <= v.end
  {
    ToRegions(RunsOf(Residents(PagesOf(mm.tables), ptes, v.start, PageCount(v.start, v.end))), v.start)
  }

  function WithRange(e: MapsEntry, r: Region): MapsEntry {
    e.(start := r.start, end := r.end)
  }

  /** One entry per part, all with the attributes of e. */
  function EntriesFor(e: MapsEntry, parts: seq<Region>): (es: seq<MapsEntry>)
    ensures |es| == |parts| && forall j :: 0 <= j < |es| ==> es[j] == WithRange(e, parts[j])
  {
    seq(|parts|, j requires 0 <= j < |parts| => WithRange(e, parts[j]))
  }

  /** The reference for one area. */
  function AreaEntries(mm: Mm, ptes: map<nat, Pte>, v: Vma): seq<MapsEntry>
    requires v.start <= v.end
  {
    EntriesFor(EntryOf(mm, v), ResidentRegions(mm, ptes, v))
  }

  ghost predicate NonEmptyAreas(mm: Mm) {
    forall i :: 0 <= i < |mm.vmas| ==> ProperArea(mm.vmas[i])
  }

  /** The first n parts, one after the other. */
  function Flatten<T>(parts: seq<seq<T>>, n: nat): seq<T>
    requires n <= |parts|
  {
    if n == 0 then [] else Flatten(parts, n - 1) + parts[n - 1]
  }

  /** The references of all areas. */
  function AreaList(mm: Mm, ptes: map<nat, Pte>): (parts: seq<seq<MapsEntry>>)
    requires NonEmptyAreas(mm)
    ensures |parts| == |mm.vmas|
    ensures forall i :: 0 <= i < |parts| ==> parts[i] == AreaEntries(mm, ptes, mm.vmas[i])
  {
    seq(|mm.vmas|, i requires 0 <= i < |mm.vmas| => AreaEntries(mm, ptes, mm.vmas[i]))
  }

  /** The reference for the first n areas. */
  function PhyEntries(mm: Mm, ptes: map<nat, Pte>, n: nat): seq<MapsEntry>
    requires n <= |mm.vmas| && NonEmptyAreas(mm)
  {
    Flatten(AreaList(mm, ptes), n)
  }

  function AllEntries(mm: Mm, n: nat): seq<MapsEntry>
    requires n <= |mm.vmas|
  {
    seq(n, i requires 0 <= i < n => EntryOf(mm, mm.vmas[i]))
  }

  datatype PhyAnswer = Flags(flags: seq<bool>) | NotAligned | BeginLargerThanEnd | PhyErrno(code: int)

  function PhyBytes(process: nat, begin: nat, end: nat): (h: seq<byte>)
    ensures |h| == 24
  {
    Encode(process, 8) + Encode(begin, 8) + Encode(end, 8)
  }

  lemma PhyRoundTrip(process: nat, begin: nat, end: nat, rest: seq<byte>)
    requires process < U64 && begin < U64 && end < U64
    ensures ParsePhyParam(PhyBytes(process, begin, end) + rest) == PhyParam(ToInt32(process), begin, end)
  {
    ThreeWords(Encode(process, 8), Encode(begin, 8), Encode(end, 8), rest);
    Word64(process);
    Word64(begin);
    Word64(end);
  }

  /** The request: three words. */
  lemma PhyLayout(process: nat, begin: nat, end: nat)
    requires process < U64 && begin < U64 && end < U64
    ensures var h := PhyBytes(process, begin, end);
      Decode(h[0..8]) == process && Decode(h[8..16]) == begin && Decode(h[16..24]) == end
  {
    ThreeWords(Encode(process, 8), Encode(begin, 8), Encode(end, 8), []);
    assert PhyBytes(process, begin, end) + [] == PhyBytes(process, begin, end);
    Word64(process);
    Word64(begin);
    Word64(end);
  }

  /** ioctl as the C library wraps it: a negative result becomes -1 and errno, any other is cut to a C int. */
  function CResult(ret: int, errno: int): (r: (int, int))
    ensures 0 <= ret < 0x8000_0000 ==> r == (ret, errno)
    ensures ret < 0 ==> r == (-1, -ret)
  {
    if ret < 0 then (-1, -ret) else (ToInt32(ret), errno)
  }

  /**
   The residency call of is_mem_phy: a buffer of at least 24 bytes, and enough for the bitmap. The page
   count comes back as a C int; last is the errno of an earlier call.
   */
  method AskResidency(mem: Memory, procs: Procs, process: nat, begin: nat, end: nat, last: int)
    returns (r: int, errno: int, buf: array<byte>)
    requires process < U64 && begin < end < U64 && begin % PAGE == 0 && end % PAGE == 0
    ensures fresh(buf) && Ceil8(PageCount(begin, end)) <= buf.Length
    ensures var pid := ToInt32(process);
      if pid !in procs || procs[pid].Exited? then r == -1 && errno == EINVAL
      else r == ToInt32(PageCount(begin, end)) && errno == last && forall k :: 0 <= k < PageCount(begin, end) ==>
        BitAt(buf[..], k) == Resident(PagesOfTask(procs[pid]), mem.ptes, begin + k * PAGE)
  {
    var pages := (end / PAGE) - (begin / PAGE);
    var size := if (pages + 7) / 8 > 24 then (pages + 7) / 8 else 24;
    buf := new byte[size](_ => 0);
    CopyInto(buf, 0, PhyBytes(process, begin, end));
    ghost var user := buf[..];
    PhyRoundTrip(process, begin, end, user[24..]);
    assert user == PhyBytes(process, begin, end) + user[24..];
    var ret := CheckPhy(mem, procs, buf);
    var result := CResult(ret, last);
    r, errno := result.0, result.1;
    if ret >= 0 {
      BitsArrive(Residents(PagesOfTask(procs[ToInt32(process)]), mem.ptes, begin, PageCount(begin, end)), user);
    }
  }

  lemma BitsArrive(res: seq<bool>, user: seq<byte>)
    requires Ceil8(|res|) <= |user|
    ensures forall k :: 0 <= k < |res| ==> BitAt(Splice(user, 0, Bitmap(res)), k) == res[k]
  {
    forall k | 0 <= k < |res|
      ensures BitAt(Splice(user, 0, Bitmap(res)), k) == res[k]
    {
      BitmapBit(res, k);
    }
  }

  /** is_mem_phy: only -1 is an error, which a page count can also be once it is cut to a C int. */
  method RustIsMemPhy(mem: Memory, procs: Procs, pid: int, begin: nat, end: nat, last: int) returns (a: PhyAnswer)
    requires -0x8000_0000 <= pid < 0x8000_0000 && begin < U64 && end < U64
    ensures a.NotAligned? <==> begin % PAGE != 0 || end % PAGE != 0
    ensures a.BeginLargerThanEnd? <==> !a.NotAligned? && begin >= end
    ensures a.PhyErrno? <==> (
      && !a.NotAligned? && begin < end
      && (pid !in procs || procs[pid].Exited? || PageCount(begin, end) % U32 == U32 - 1))
    ensures a.PhyErrno? ==> a.code == if pid !in procs || procs[pid].Exited? then EINVAL else last
    ensures a.Flags? ==> pid in procs
                         && a.flags == Residents(PagesOfTask(procs[pid]), mem.ptes, begin, PageCount(begin, end))
  {
    if begin % PAGE != 0 || end % PAGE != 0 {
      return NotAligned;
    }
    if begin >= end {
      return BeginLargerThanEnd;
    }
    MemoryClients.PidRoundTrip(pid);
    var r, errno, buf := AskResidency(mem, procs, MemoryClients.Word(pid), begin, end, last);
    if r == -1 {
      return PhyErrno(errno);
    }
    var bytes := buf[..];
    var pages := PageCount(begin, end);
    return Flags(seq(pages, k requires 0 <= k < pages => BitAt(bytes, k)));
  }

  datatype MapResult = Entries(es: seq<MapsEntry>) | MapsTooLong | MapError(a: PhyAnswer)

  /** A non-empty area of whole pages. */
  ghost predicate ProperArea(v: Vma) {
    v.start < v.end && v.start % PAGE == 0 && v.end % PAGE == 0
  }

  /** The page count of the area becomes -1 as a C int, which the library takes for an error. */
  predicate Uncountable(v: Vma) {
    v.start <= v.end && PageCount(v.start, v.end) % U32 == U32 - 1
  }

  /** The resident parts of one area, through is_mem_phy. */
  method RustResidentParts(mem: Memory, procs: Procs, pid: int, start: nat, end: nat, last: int)
    returns (a: PhyAnswer, runs: seq<Region>)
    requires -0x8000_0000 <= pid < 0x8000_0000 && pid in procs && procs[pid].Running?
    requires start < end < U64 && start % PAGE == 0 && end % PAGE == 0
    ensures if PageCount(start, end) % U32 == U32 - 1 then a == PhyErrno(last) else a.Flags?
    ensures a.Flags? ==>
      var flags := Residents(PagesOf(procs[pid].value.tables), mem.ptes, start, PageCount(start, end));
      runs == ToRegions(RunsOf(flags), start)
  {
    a := RustIsMemPhy(mem, procs, pid, start, end, last);
    runs := [];
    if a.Flags? {
      runs := CoalesceRust(start, end, a.flags);
    }
  }

  /** One turn of the loop in get_mem_map: parse a record and, on request, cut it into its resident parts. */
  method RustOneArea(mem: Memory, procs: Procs, pid: int, rec: seq<byte>, phyOnly: bool, last: int, ghost v: Vma)
    returns (out: MapResult)
    requires -0x8000_0000 <= pid < 0x8000_0000 && pid in procs && procs[pid].Running?
    requires rec == Record(procs[pid].value, v) && ProperArea(v)
    ensures var mm := procs[pid].value;
      out == if phyOnly && Uncountable(v) then MapError(PhyErrno(last))
             else Entries(if phyOnly then AreaEntries(mm, mem.ptes, v) else [EntryOf(mm, v)])
  {
    RecordRoundTrip(procs[pid].value, v);
    var e := ParseRecord(rec);
    if !phyOnly {
      return Entries([e]);
    }
    var a, runs := RustResidentParts(mem, procs, pid, e.start, e.end, last);
    out := if a.Flags? then Entries(EntriesFor(e, runs)) else MapError(a);
  }

  /** What get_mem_map has collected after n areas. */
  function Collected(mm: Mm, ptes: map<nat, Pte>, n: nat, phyOnly: bool): seq<MapsEntry>
    requires n <= |mm.vmas| && NonEmptyAreas(mm)
  {
    if phyOnly then PhyEntries(mm, ptes, n) else AllEntries(mm, n)
  }

  lemma CollectedNext(mm: Mm, ptes: map<nat, Pte>, n: nat, phyOnly: bool)
    requires n < |mm.vmas| && NonEmptyAreas(mm)
    ensures Collected(mm, ptes, n + 1, phyOnly)
      == Collected(mm, ptes, n, phyOnly)
       + if phyOnly then AreaEntries(mm, ptes, mm.vmas[n]) else [EntryOf(mm, mm.vmas[n])]
  {
  }

  /** get_mem_map gives up at an area whose page count it takes for an error. */
  ghost predicate HasUncountable(mm: Mm, n: nat)
    requires n <= |mm.vmas|
  {
    exists k :: 0 <= k < n && Uncountable(mm.vmas[k])
  }

  /** The loop of get_mem_map over the records. */
  method RustEntries(mem: Memory, procs: Procs, pid: int, bytes: seq<byte>, count: nat, phyOnly: bool, last: int)
    returns (r: MapResult)
    requires -0x8000_0000 <= pid < 0x8000_0000 && pid in procs && procs[pid].Running?
    requires NonEmptyAreas(procs[pid].value) && count == |procs[pid].value.vmas| && |bytes| >= COUNT + RECORD * count
    requires forall i :: 0 <= i < count ==> Slot(bytes, COUNT, i) == Records(procs[pid].value)[i]
    ensures var mm := procs[pid].value;
      r == if phyOnly && HasUncountable(mm, count) then MapError(PhyErrno(last))
           else Entries(Collected(mm, mem.ptes, count, phyOnly))
  {
    ghost var mm := procs[pid].value;
    var result: seq<MapsEntry> := [];
    NothingCollected(mm, mem.ptes, phyOnly);
    for i := 0 to count
      invariant RustSoFar(mm, mem.ptes, i, phyOnly, result) == true  // compared, to keep it folded
    {
      var out := RustOneArea(mem, procs, pid, Slot(bytes, COUNT, i), phyOnly, last, mm.vmas[i]);
      if !out.Entries? {
        assert Uncountable(mm.vmas[i]);
        return out;
      }
      MoreCollected(mm, mem.ptes, i, phyOnly, result, out.es);
      result := result + out.es;
    }
    return Entries(result);
  }

  ghost predicate RustSoFar(mm: Mm, ptes: map<nat, Pte>, n: nat, phyOnly: bool, result: seq<MapsEntry>)
    requires n <= |mm.vmas| && NonEmptyAreas(mm)
  {
    result == Collected(mm, ptes, n, phyOnly) && (phyOnly ==> !HasUncountable(mm, n))
  }

  lemma NothingCollected(mm: Mm, ptes: map<nat, Pte>, phyOnly: bool)
    requires NonEmptyAreas(mm)
    ensures RustSoFar(mm, ptes, 0, phyOnly, [])
  {
  }

  lemma MoreCollected(mm: Mm, ptes: map<nat, Pte>, n: nat, phyOnly: bool, result: seq<MapsEntry>, part: seq<MapsEntry>)
    requires n < |mm.vmas| && NonEmptyAreas(mm) && RustSoFar(mm, ptes, n, phyOnly, result)
    requires part == if phyOnly then AreaEntries(mm, ptes, mm.vmas[n]) else [EntryOf(mm, mm.vmas[n])]
    requires phyOnly ==> !Uncountable(mm.vmas[n])
    ensures RustSoFar(mm, ptes, n + 1, phyOnly, result + part)
  {
    CollectedNext(mm, ptes, n, phyOnly);
  }

  /**
   get_mem_map. count is the answer of an earlier call; the list is fetched into room for 50 more areas. With
   an area of 2^32 * m - 1 pages it fails, with the errno of an earlier call; for all others it is exact.
   */
  method RustGetMemMap(mem: Memory, procs: Procs, pid: int, count: nat, phyOnly: bool, last: int)
    returns (r: MapResult)
    requires -0x8000_0000 <= pid < 0x8000_0000 && count < 0x8000_0000
    requires pid in procs && procs[pid].Running? && NonEmptyAreas(procs[pid].value)
    ensures var mm := procs[pid].value;
      r == if |mm.vmas| > count + 50 then MapsTooLong
           else if phyOnly && HasUncountable(mm, |mm.vmas|) then MapError(PhyErrno(last))
           else Entries(Collected(mm, mem.ptes, |mm.vmas|, phyOnly))
  {
    MemoryClients.PidRoundTrip(pid);
    var unfinished, buf := FetchList(procs, MemoryClients.Word(pid), count);
    if unfinished {
      return MapsTooLong;
    }
    r := RustEntries(mem, procs, pid, buf[..], Decode(buf[..][0..8]), phyOnly, last);
  }
}
