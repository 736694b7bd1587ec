/**
 The two parsers of the memory map records: get_mem_map of librwmem/src/lib.rs and
 _rwProcMemDriver_VirtualQueryExFull of CEServer/MemoryReaderWriter37.hpp.
 */
module MapParse {
  import opened Bytes
  import opened ProcMaps
  import opened RemoteMemory
  import opened MapRecords

  datatype MapsEntry = MapsEntry(
    start: nat, end: nat, read: bool, write: bool, exec: bool, shared: bool, name: seq<byte>)

  /** What the kernel says about an area, free of its wire form. */
  function EntryOf(mm: Mm, v: Vma): MapsEntry {
    MapsEntry(v.start, v.end, v.read, v.write, v.exec, v.mayShare, NameOf(mm, v))
  }

  /** One turn of the Rust parser: any non-zero flag byte counts, and the name ends at its first NUL. */
  function ParseRecord(b: seq<byte>): MapsEntry
    requires |b| == RECORD
  {
    MapsEntry(Decode(b[0..8]), Decode(b[8..16]), b[16] != 0, b[17] != 0, b[18] != 0, b[19] != 0, UpToNul(b[20..532]))
  }

  const PAGE_NOACCESS := 1
  const PAGE_READONLY := 2
  const PAGE_READWRITE := 4
  const PAGE_EXECUTE_READ := 32
  const PAGE_EXECUTE_READWRITE := 64
  const MEM_MAPPED := 262144
  const MEM_PRIVATE := 131072

  /** DRIVER_REGION_INFO. */
  datatype DriverRegion = DriverRegion(base: nat, size: nat, protection: int, kind: int, name: seq<byte>)

  function Protection(read: bool, write: bool, exec: bool): int {
    if exec then if write then PAGE_EXECUTE_READWRITE else PAGE_EXECUTE_READ
    else if write then PAGE_READWRITE
    else if read then PAGE_READONLY
    else PAGE_NOACCESS
  }

  function Kind(shared: bool): int {
    if shared then MEM_MAPPED else MEM_PRIVATE
  }

  /** One turn of the C++ parser: a flag byte counts if it is 1, and the last byte of the name is overwritten. */
  function ParseRegion(b: seq<byte>): DriverRegion
    requires |b| == RECORD
  {
    var start, end := Decode(b[0..8]), Decode(b[8..16]);
    DriverRegion(start, (end - start) % U64, Protection(b[16] == 1, b[17] == 1, b[18] == 1), Kind(b[19] == 1),
                 UpToNul(b[20..531] + [0]))
  }

  /** An entry in the terms of the server. */
  function RegionOf(e: MapsEntry): DriverRegion {
    DriverRegion(e.start, (e.end - e.start) % U64, Protection(e.read, e.write, e.exec), Kind(e.shared), e.name)
  }

  /** An entry list in the terms of the server. */
  function ToDriver(es: seq<MapsEntry>): (ds: seq<DriverRegion>)
    ensures |ds| == |es| && forall i :: 0 <= i < |es| ==> ds[i] == RegionOf(es[i])
  {
    seq(|es|, i requires 0 <= i < |es| => RegionOf(es[i]))
  }

  lemma ToDriverJoins(a: seq<MapsEntry>, b: seq<MapsEntry>)
    ensures ToDriver(a + b) == ToDriver(a) + ToDriver(b)
  {
  }

  lemma {:induction false} UpToNulStops(name: seq<byte>, rest: seq<byte>)
    requires (forall i :: 0 <= i < |name| ==> name[i] != 0) && rest != [] && rest[0] == 0
    ensures UpToNul(name + rest) == name
  {
    if name == [] {
      assert name + rest == rest;
    } else {
      assert (name + rest)[1..] == name[1..] + rest;
      UpToNulStops(name[1..], rest);
    }
  }

  lemma NameRoundTrip(mm: Mm, v: Vma)
    ensures UpToNul(NamePage(mm, v)) == NameOf(mm, v)
    ensures UpToNul(NamePage(mm, v)[..PATH_MAX - 1] + [0]) == NameOf(mm, v)
  {
    var name, page := NameOf(mm, v), NamePage(mm, v);
    UpToNulStops(name, Zeros(PATH_MAX - |name|));
    assert page[..PATH_MAX - 1] + [0] == page;
  }

  lemma FieldsOf(a: seq<byte>, b: seq<byte>, f: seq<byte>, page: seq<byte>)
    requires |a| == |b| == 8 && |f| == 4 && |page| == PATH_MAX
    ensures var r := a + b + f + page;
      && r[0..8] == a && r[8..16] == b && r[20..532] == page && r[20..531] == page[..PATH_MAX - 1]
      && r[16] == f[0] && r[17] == f[1] && r[18] == f[2] && r[19] == f[3]
  {
  }

  /** A record comes back as the area it was written for, with any name of up to 511 bytes. */
  lemma RecordRoundTrip(mm: Mm, v: Vma)
    ensures ParseRecord(Record(mm, v)) == EntryOf(mm, v)
    ensures var e := ParseRecord(Record(mm, v));
      && e.start == v.start && e.end == v.end && e.name == NameOf(mm, v)
      && e.read == v.read && e.write == v.write && e.exec == v.exec && e.shared == v.mayShare
  {
    FieldsOf(Encode(v.start, 8), Encode(v.end, 8), FlagBytes(v), NamePage(mm, v));
    Word64(v.start);
    Word64(v.end);
    NameRoundTrip(mm, v);
  }

  /** The server's parser agrees with the library's on everything the kernel writes. */
  lemma ParsersAgree(mm: Mm, v: Vma)
    ensures ParseRegion(Record(mm, v)) == RegionOf(EntryOf(mm, v))
  {
    FieldsOf(Encode(v.start, 8), Encode(v.end, 8), FlagBytes(v), NamePage(mm, v));
    Word64(v.start);
    Word64(v.end);
    NameRoundTrip(mm, v);
  }

  /** The protections, by their Windows values 1, 2, 4, 0x20 and 0x40, tell the permissions apart. */
  lemma ProtectionTells(read: bool, write: bool, exec: bool)
    ensures var p := Protection(read, write, exec);
      && (p == 1 <==> !read && !write && !exec) && (p == 2 <==> read && !write && !exec)
      && (p == 4 || p == 0x40 <==> write) && (p == 0x20 || p == 0x40 <==> exec)
  {
  }

  /** What the server makes of an area: its range and name, what may be done with it, and whether it is shared. */
  lemma RegionTells(mm: Mm, v: Vma)
    requires v.start <= v.end
    ensures var r := ParseRegion(Record(mm, v));
      && r.base == v.start && r.base + r.size == v.end && r.name == NameOf(mm, v)
      && (r.protection == 1 <==> !v.read && !v.write && !v.exec)
      && (r.protection == 2 <==> v.read && !v.write && !v.exec)
      && (r.protection == 4 || r.protection == 0x40 <==> v.write)
      && (r.protection == 0x20 || r.protection == 0x40 <==> v.exec)
      && (r.kind == 0x40000 <==> v.mayShare) && (r.kind == 0x20000 <==> !v.mayShare)
  {
    ParsersAgree(mm, v);
    ProtectionTells(v.read, v.write, v.exec);
  }

  /** The request both clients put into their zeroed buffer. */
  function RequestBytes(process: nat, bufLen: nat): (h: seq<byte>)
    ensures |h| == 24
  {
    Encode(process, 8) + Encode(PATH_MAX, 8) + Encode(bufLen, 8)
  }

  lemma RequestRoundTrip(process: nat, bufLen: nat, rest: seq<byte>)
    requires process < U64 && bufLen < U64
    ensures ParseListRequest(RequestBytes(process, bufLen) + rest) == ListRequest(ToInt32(process), PATH_MAX, bufLen)
  {
    ThreeWords(Encode(process, 8), Encode(PATH_MAX, 8), Encode(bufLen, 8), rest);
    Word64(process);
    Word64(PATH_MAX);
    Word64(bufLen);
  }

  /** The request: three words, and 512 as the name length. */
  lemma RequestLayout(process: nat, bufLen: nat)
    requires process < U64 && bufLen < U64
    ensures var h := RequestBytes(process, bufLen);
      Decode(h[0..8]) == process && Decode(h[8..16]) == 512 && Decode(h[16..24]) == bufLen
  {
    ThreeWords(Encode(process, 8), Encode(PATH_MAX, 8), Encode(bufLen, 8), []);
    assert RequestBytes(process, bufLen) + [] == RequestBytes(process, bufLen);
    Word64(process);
    Word64(PATH_MAX);
    Word64(bufLen);
  }

  lemma ThreeWords(a: seq<byte>, b: seq<byte>, c: seq<byte>, rest: seq<byte>)
    requires |a| == |b| == |c| == 8
    ensures var r := a + b + c + rest; r[0..8] == a && r[8..16] == b && r[16..24] == c
  {
  }

  /** How many records the clients make room for, given the count they asked for first. */
  function Room(count: nat): nat {
    count + 50
  }

  /** The fetched buffer: the count in front, and the records behind it. */
  ghost predicate Delivered(mm: Mm, room: nat, buf: seq<byte>) {
    && |buf| == COUNT + RECORD * room
    && Decode(buf[0..8]) == Min(|mm.vmas|, room)
    && forall i :: 0 <= i < Min(|mm.vmas|, room) ==> Slot(buf, COUNT, i) == Records(mm)[i]
  }

  lemma ListArrives(mm: Mm, room: nat, user: seq<byte>, pid: int) returns (w: Written)
    requires |user| == COUNT + RECORD * room < U64 && forall j :: 24 <= j < |user| ==> user[j] == 0
    ensures w == ListResult(user, ListRequest(pid, PATH_MAX, |user|), Running(mm))
    ensures |w.user| == |user| && (w.pass <==> |mm.vmas| > room)
    ensures Delivered(mm, room, Splice(w.user, 0, Encode(w.count, 8)))
  {
    w := ListFillsSlots(user, COUNT, room, mm, 0);
    CountInFront(w.user, w.count, room);
  }

  /**
   Both clients: size the buffer by an earlier count, and fetch the list into it. The count in front and the
   records behind are whole; more than count + 50 areas are reported as unfinished.
   */
  method FetchList(procs: Procs, process: nat, count: nat) returns (unfinished: bool, buf: array<byte>)
    requires process < U64 && count < 0x8000_0000
    requires ToInt32(process) in procs && procs[ToInt32(process)].Running?
    ensures fresh(buf)
    ensures var mm := procs[ToInt32(process)].value;
      (unfinished <==> |mm.vmas| > Room(count)) && Delivered(mm, Room(count), buf[..])
  {
    var bufLen := 8 + (8 + 8 + 4 + 512) * (count + 50);
    buf := ZeroedRequest(process, bufLen);
    ghost var w := ListArrives(procs[ToInt32(process)].value, Room(count), buf[..], ToInt32(process));
    var r := MapsList(procs, buf);
    unfinished := r != 0;
  }

  /** calloc, and the request in front. */
  method ZeroedRequest(process: nat, bufLen: nat) returns (buf: array<byte>)
    requires 24 <= bufLen < U64 && process < U64
    ensures fresh(buf) && buf.Length == bufLen && (forall j :: 24 <= j < bufLen ==> buf[j] == 0)
    ensures ParseListRequest(buf[..]) == ListRequest(ToInt32(process), PATH_MAX, bufLen)
  {
    buf := new byte[bufLen](_ => 0);
    var header := RequestBytes(process, bufLen);
    CopyInto(buf, 0, header);
    RequestRoundTrip(process, bufLen, buf[24..]);
    assert buf[..] == header + buf[24..];
  }

  lemma CountInFront(user: seq<byte>, count: nat, room: nat)
    requires count < U64 && |user| == COUNT + RECORD * room
    ensures var u := Splice(user, 0, Encode(count, 8));
      && Decode(u[0..8]) == count
      && forall i :: 0 <= i < room ==> Slot(u, COUNT, i) == Slot(user, COUNT, i)
  {
    var u := Splice(user, 0, Encode(count, 8));
    assert u[0..8] == Encode(count, 8);
    Word64(count);
  }
}
