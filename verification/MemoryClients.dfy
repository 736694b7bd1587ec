/**
 The two user-space clients of the remote memory calls: read_mem and write_mem of librwmem/src/lib.rs, and
 the read and write calls of CEServer/MemoryReaderWriter37.hpp.
 */
module MemoryClients {
  import opened Bytes
  import opened PhysMem
  import opened ProcMaps
  import opened RemoteMemory
  import opened MemoryTheorems

  /** The clients' buffers are as long as they say, so that how a copy fails does not matter. */
  const NO_FAULTS := Faults(0, true)

  /** read(2) and write(2) cut a count to MAX_RW_COUNT before the driver is called. */
  const MAX_RW_COUNT: nat := 0x7fff_f000

  function Capped(size: nat): (n: nat)
    ensures n <= size && n <= MAX_RW_COUNT && (n == size || n == MAX_RW_COUNT)
  {
    if size < MAX_RW_COUNT then size else MAX_RW_COUNT
  }

  datatype Outcome = Done | Short(want: nat, got: nat) | Failed(code: int) | Panicked

  /** The 64-bit pattern of a pid_t that was widened to i64. */
  function Word(pid: int): (w: nat)
    requires -0x8000_0000 <= pid < 0x8000_0000
    ensures w < U64
  {
    if pid < 0 then U64 + pid else pid
  }

  function Flag(force: bool): byte {
    if force then 1 else 0
  }

  /** The header both clients put in front. */
  function Header(process: nat, addr: nat, flag: byte): (h: seq<byte>)
    ensures |h| == HEADER
  {
    Encode(process, 8) + Encode(addr, 8) + [flag]
  }

  /** The kernel reads back the request the client put into the header. */
  lemma HeaderRoundTrip(process: nat, addr: nat, flag: byte, rest: seq<byte>)
    requires process < U64 && addr < U64
    ensures ParseRequest(Header(process, addr, flag) + rest) == Request(ToInt32(process), addr, flag == 1)
  {
    TwoWordsAhead(Encode(process, 8), Encode(addr, 8), [flag], rest);
    Word64(process);
    Word64(addr);
  }

  /** The header: the process, the address, and the flag byte, which is 1 to force the access. */
  lemma HeaderLayout(process: nat, addr: nat, force: bool)
    requires process < U64 && addr < U64
    ensures var h := Header(process, addr, Flag(force));
      Decode(h[0..8]) == process && Decode(h[8..16]) == addr && h[16] == if force then 1 else 0
  {
    var flag := Flag(force);
    TwoWordsAhead(Encode(process, 8), Encode(addr, 8), [flag], []);
    assert Header(process, addr, flag) + [] == Header(process, addr, flag);
    Word64(process);
    Word64(addr);
  }

  lemma TwoWordsAhead(a: seq<byte>, b: seq<byte>, flag: seq<byte>, rest: seq<byte>)
    requires |a| == |b| == 8 && |flag| == 1
    ensures var h := a + b + flag + rest; h[0..8] == a && h[8..16] == b && h[16] == flag[0]
  {
  }

  lemma DataBehind(h: seq<byte>, data: seq<byte>)
    ensures (h + data)[|h|..|h| + |data|] == data
  {
  }

  lemma PidRoundTrip(pid: int)
    requires -0x8000_0000 <= pid < 0x8000_0000
    ensures ToInt32(Word(pid)) == pid
  {
  }

  /** Whether read_mem asks for a forced read: byte 16 of a long buffer is never cleared. */
  predicate RustReadIsForced(buf: seq<byte>) {
    |buf| > HEADER && buf[16] == 1
  }

  /** What rwmem_read makes of request q: the bytes it delivers. */
  ghost predicate Delivers(mem: Memory, procs: Procs, q: Request, size: nat, n: nat, bytes: seq<byte>)
    reads mem
    requires FramesInRam(mem.ptes, mem.ram)
  {
    && Refusal(procs, q, size, ForRead) == 0
    && var pm := PagesOfTask(procs[q.pid]);
       && IsReach(pm, mem.ptes, q.addr, size, ForRead, q.force, n) && Mapped(pm, mem.ptes, q.addr, n)
       && bytes == FlatRead(pm, mem.ptes, mem.ram, q.addr, n)
  }

  /** The read call as a client sees it: a negative code, or n bytes at the start of its buffer. */
  method ReadCall(
    mem: Memory, procs: Procs, buf: array<byte>, size: nat, ghost q: Request)
    returns (n: int, ghost bytes: seq<byte>)
    requires FramesInRam(mem.ptes, mem.ram)
    requires HEADER <= buf.Length && size <= buf.Length && ParseRequest(buf[..]) == q
    modifies buf
    ensures n < 0 ==> n == Refusal(procs, q, Capped(size), ForRead) && buf[..] == old(buf[..])
    ensures n >= 0 ==> n <= Capped(size) && |bytes| == n && Delivers(mem, procs, q, Capped(size), n, bytes)
    ensures n >= 0 ==> buf[..] == Splice(old(buf[..]), 0, bytes)
  {
    var r, _ := Read(mem, procs, buf, Capped(size), NO_FAULTS);
    n := r;
    bytes := if n >= 0 then FlatRead(PagesOfTask(procs[q.pid]), mem.ptes, mem.ram, q.addr, n) else [];
  }

  /** What read_mem reports to its caller. */
  ghost predicate RustReadResult(mem: Memory, procs: Procs, q: Request, r: Outcome, now: seq<byte>)
    reads mem
    requires FramesInRam(mem.ptes, mem.ram)
  {
    match r
    case Done => |now| <= MAX_RW_COUNT && Delivers(mem, procs, q, |now|, |now|, now)
    case Short(want, got) =>
      want == |now| && got < want && exists bytes :: Delivers(mem, procs, q, Capped(want), got, bytes)
    case Failed(code) => code < 0 && code == Refusal(procs, q, Capped(|now|), ForRead)
    case Panicked => |now| == HEADER
  }

  /** A local buffer with the given contents. */
  method LocalCopy(contents: seq<byte>) returns (local: array<byte>)
    ensures fresh(local) && local[..] == contents
  {
    local := new byte[|contents|](i requires 0 <= i < |contents| => contents[i]);
  }

  /** The branch of read_mem for buffers shorter than the header: a local 17-byte buffer, not forced. */
  method RustReadShort(mem: Memory, procs: Procs, pid: int, addr: nat, buf: array<byte>) returns (r: Outcome)
    requires FramesInRam(mem.ptes, mem.ram) && buf.Length < HEADER
    requires -0x8000_0000 <= pid < 0x8000_0000 && addr < U64
    modifies buf
    ensures !r.Panicked? && RustReadResult(mem, procs, Request(pid, addr, false), r, buf[..])
    ensures !r.Done? ==> buf[..] == old(buf[..])
  {
    PidRoundTrip(pid);
    HeaderRoundTrip(Word(pid), addr, 0, []);
    var header := Header(Word(pid), addr, 0);
    assert header + [] == header;
    var local := LocalCopy(header);
    var n, bytes := ReadCall(mem, procs, local, buf.Length, Request(pid, addr, false));
    if n < 0 {
      return Failed(n);
    }
    if n != buf.Length {
      return Short(buf.Length, n);
    }
    SpliceFront(header, bytes);
    var data := local[..][..buf.Length];
    SpliceFront(buf[..], data);
    CopyInto(buf, 0, data);
    r := Done;
  }

  /** The stores of the header into the caller's buffer; byte 16 stays as it was. */
  method PutHeader(pid: int, addr: nat, buf: array<byte>)
    requires buf.Length > HEADER && -0x8000_0000 <= pid < 0x8000_0000 && addr < U64
    modifies buf
    ensures ParseRequest(buf[..]) == Request(pid, addr, old(buf[16]) == 1)
    ensures forall i :: 18 <= i < buf.Length ==> buf[i] == old(buf[i])
  {
    PidRoundTrip(pid);
    CopyInto(buf, 0, Encode(Word(pid), 8));
    CopyInto(buf, 8, Encode(addr, 8));
    buf[17] := 0;
    HeaderRoundTrip(Word(pid), addr, buf[16], buf[17..]);
    assert buf[..] == Header(Word(pid), addr, buf[16]) + buf[17..];
  }

  /**
   The branch for longer buffers: the buffer itself carries the header, with its own byte 16 as the flag. Where
   neither the header nor the bytes read go, it keeps its contents.
   */
  method RustReadLong(mem: Memory, procs: Procs, pid: int, addr: nat, buf: array<byte>) returns (r: Outcome)
    requires FramesInRam(mem.ptes, mem.ram) && buf.Length >= HEADER
    requires -0x8000_0000 <= pid < 0x8000_0000 && addr < U64
    modifies buf
    ensures r.Panicked? <==> buf.Length == HEADER
    ensures RustReadResult(mem, procs, Request(pid, addr, old(buf[16]) == 1), r, buf[..])
    ensures r.Short? ==>
      Delivers(mem, procs, Request(pid, addr, old(buf[16]) == 1), Capped(buf.Length), r.got, buf[..r.got])
    ensures r.Short? || r.Failed? ==> forall i :: 18 <= i < buf.Length && (r.Short? ==> r.got <= i) ==>
      buf[i] == old(buf[i])
  {
    if buf.Length == HEADER {
      CopyInto(buf, 0, Encode(Word(pid), 8));
      CopyInto(buf, 8, Encode(addr, 8));
      return Panicked;
    }
    var force := buf[16] == 1;
    PutHeader(pid, addr, buf);
    r := RustReadInto(mem, procs, buf, Request(pid, addr, force));
  }

  /** The read into a buffer that carries the header. */
  method RustReadInto(mem: Memory, procs: Procs, buf: array<byte>, ghost q: Request) returns (r: Outcome)
    requires FramesInRam(mem.ptes, mem.ram) && buf.Length > HEADER && ParseRequest(buf[..]) == q
    modifies buf
    ensures !r.Panicked? && RustReadResult(mem, procs, q, r, buf[..])
    ensures r.Short? ==> Delivers(mem, procs, q, Capped(buf.Length), r.got, buf[..r.got])
    ensures r.Short? || r.Failed? ==> forall i :: 18 <= i < buf.Length && (r.Short? ==> r.got <= i) ==>
      buf[i] == old(buf[i])
  {
    ghost var now := buf[..];
    var n, bytes := ReadCall(mem, procs, buf, buf.Length, q);
    if n < 0 {
      return Failed(n);
    }
    SpliceFront(now, bytes);
    assert buf[..][..n] == buf[..n];
    if n != buf.Length {
      return Short(buf.Length, n);
    }
    r := Done;
  }

  /**
   read_mem. The clearing store goes to index 17, not 16: a buffer of exactly 17 bytes is out of bounds,
   and a longer one is read with force exactly when the caller left a 1 in byte 16.
   */
  method RustReadMem(mem: Memory, procs: Procs, pid: int, addr: nat, buf: array<byte>) returns (r: Outcome)
    requires FramesInRam(mem.ptes, mem.ram)
    requires -0x8000_0000 <= pid < 0x8000_0000 && addr < U64
    modifies buf
    ensures r.Panicked? <==> buf.Length == HEADER
    ensures buf.Length != HEADER ==>
      RustReadResult(mem, procs, Request(pid, addr, RustReadIsForced(old(buf[..]))), r, buf[..])
  {
    if buf.Length < HEADER {
      r := RustReadShort(mem, procs, pid, addr, buf);
    } else {
      r := RustReadLong(mem, procs, pid, addr, buf);
    }
  }

  /** The write call as a client sees it: a negative code, or the length of the prefix that was written. */
  method WriteCall(mem: Memory, procs: Procs, header: seq<byte>, data: seq<byte>, ghost q: Request) returns (n: int)
    requires FramesInRam(mem.ptes, mem.ram)
    requires |header| == HEADER && ParseRequest(header + data) == q
    modifies mem
    ensures mem.ptes == old(mem.ptes)
    ensures n < 0 <==> Refusal(procs, q, Capped(|data|), ForWrite) != 0
    ensures n < 0 ==> n == Refusal(procs, q, Capped(|data|), ForWrite) && mem.ram == old(mem.ram)
    ensures n >= 0 ==> Stored(mem.ptes, old(mem.ram), mem.ram, PagesOfTask(procs[q.pid]), q.addr, q.force, data, n)
  {
    ghost var ram := mem.ram;
    DataBehind(header, data);
    assert (header + data)[HEADER..] == data;
    var r, _ := Write(mem, procs, header + data, Capped(|data|), NO_FAULTS);
    n := r;
    if n >= 0 {
      FlatWritePrefix(PagesOfTask(procs[q.pid]), mem.ptes, ram, q.addr, data, data[..n], n);
    }
  }

  /** ram' is ram after a write of the longest writable prefix of data, which has length n. */
  ghost predicate Stored(ptes: map<nat, Pte>, ram: seq<byte>, ram': seq<byte>, pm: PageMap, addr: nat, force: bool,
                         data: seq<byte>, n: nat)
  {
    && FramesInRam(ptes, ram)
    && n <= |data| && IsReach(pm, ptes, addr, Capped(|data|), ForWrite, force, n) && Mapped(pm, ptes, addr, n)
    && ram' == FlatWrite(pm, ptes, ram, addr, data, n)
  }

  /** write_mem: always forced, and complete or an error. */
  method RustWriteMem(mem: Memory, procs: Procs, pid: int, addr: nat, data: seq<byte>) returns (r: Outcome)
    requires FramesInRam(mem.ptes, mem.ram)
    requires -0x8000_0000 <= pid < 0x8000_0000 && addr < U64
    modifies mem
    ensures mem.ptes == old(mem.ptes) && !r.Panicked?
    ensures r.Failed? <==> pid !in procs
    ensures r.Failed? ==> r.code == -EINVAL && mem.ram == old(mem.ram)
    ensures r.Short? ==> r.want == |data| && r.got < r.want
    ensures pid in procs ==> Stored(mem.ptes, old(mem.ram), mem.ram, PagesOfTask(procs[pid]), addr, true, data,
                                    if r.Short? then r.got else |data|)
  {
    PidRoundTrip(pid);
    HeaderRoundTrip(Word(pid), addr, 1, data);
    var n := WriteCall(mem, procs, Header(Word(pid), addr, 1), data, Request(pid, addr, true));
    if n < 0 {
      return Failed(n);
    }
    if n != |data| {
      return Short(|data|, n);
    }
    return Done;
  }

  /** A reach in a non-empty range is not empty exactly when the first byte is accessible. */
  lemma FirstByteDecides(
    pm: PageMap, ptes: map<nat, Pte>, addr: nat, size: nat, a: Access, force: bool, n: nat)
    requires addr < U64 && size > 0 && IsReach(pm, ptes, addr, Capped(size), a, force, n)
    ensures n > 0 <==> Accessible(pm, ptes, addr, a, force)
  {
    assert Va(addr, 0) == addr;
  }

  /**
   _rwProcMemDriver_WriteProcessMemory: forced only on request; a partial write counts as success. It succeeds
   exactly when the request is admitted and its first byte can be written.
   */
  method CppWriteMem(mem: Memory, procs: Procs, process: nat, addr: nat, data: seq<byte>, force: bool)
    returns (ok: bool, written: nat)
    requires FramesInRam(mem.ptes, mem.ram) && process < U64 && addr < U64
    modifies mem
    ensures mem.ptes == old(mem.ptes)
    ensures var q := Request(ToInt32(process), addr, force);
      && (ok <==> && addr > 0 && process > 0 && data != [] && Refusal(procs, q, Capped(|data|), ForWrite) == 0
                  && Accessible(PagesOfTask(procs[q.pid]), mem.ptes, addr, ForWrite, force))
      && (ok ==> written > 0 && Stored(mem.ptes, old(mem.ram), mem.ram, PagesOfTask(procs[q.pid]), addr, force,
                                       data, written))
    ensures !ok ==> written == 0 && mem.ram == old(mem.ram)
  {
    if addr == 0 || process == 0 || data == [] {
      return false, 0;
    }
    ghost var q := Request(ToInt32(process), addr, force);
    HeaderRoundTrip(process, addr, Flag(force), data);
    var n := WriteCall(mem, procs, Header(process, addr, Flag(force)), data, q);
    if n >= 0 {
      FirstByteDecides(PagesOfTask(procs[q.pid]), mem.ptes, addr, |data|, ForWrite, force, n);
    }
    if n <= 0 {
      return false, 0;
    }
    return true, n;
  }

  /** The caller's buffer when the driver is called: from 17 bytes on it carries the header itself. */
  function Prepared(process: nat, addr: nat, force: bool, buf: seq<byte>): (now: seq<byte>)
    ensures |now| == |buf|
  {
    if addr == 0 || process == 0 || |buf| < HEADER then buf else Header(process, addr, Flag(force)) + buf[HEADER..]
  }

  /**
   _rwProcMemDriver_ReadProcessMemory: a partial read counts as success. It succeeds exactly when the request is
   admitted and its first byte can be read. Behind the bytes it got stands what was there when the driver was called,
   so that in a buffer of 17 bytes and more a part of the header may be left.
   */
  method CppReadMem(mem: Memory, procs: Procs, process: nat, addr: nat, buf: array<byte>, force: bool)
    returns (ok: bool, got: nat)
    requires FramesInRam(mem.ptes, mem.ram) && process < U64 && addr < U64
    modifies buf
    ensures var q := Request(ToInt32(process), addr, force);
      && (ok <==> && addr > 0 && process > 0 && buf.Length > 0 && Refusal(procs, q, Capped(buf.Length), ForRead) == 0
                  && Accessible(PagesOfTask(procs[q.pid]), mem.ptes, addr, ForRead, force))
      && (ok ==> 0 < got <= buf.Length && Delivers(mem, procs, q, Capped(buf.Length), got, buf[..got]))
    ensures !ok ==> got == 0
    ensures buf[..][got..] == Prepared(process, addr, force, old(buf[..]))[got..]
  {
    if addr == 0 || process == 0 || buf.Length == 0 {
      return false, 0;
    }
    if buf.Length < HEADER {
      ok, got := CppReadShort(mem, procs, process, addr, buf, force);
    } else {
      ok, got := CppReadLong(mem, procs, process, addr, buf, force);
    }
  }

  /** The branch for buffers shorter than the header: a local buffer of 17 bytes. */
  method CppReadShort(mem: Memory, procs: Procs, process: nat, addr: nat, buf: array<byte>, force: bool)
    returns (ok: bool, got: nat)
    requires FramesInRam(mem.ptes, mem.ram) && 0 < process < U64 && 0 < addr < U64 && 0 < buf.Length < HEADER
    modifies buf
    ensures var q := Request(ToInt32(process), addr, force);
      && (ok <==> && Refusal(procs, q, Capped(buf.Length), ForRead) == 0
                  && Accessible(PagesOfTask(procs[q.pid]), mem.ptes, addr, ForRead, force))
      && (ok ==> 0 < got <= buf.Length && Delivers(mem, procs, q, Capped(buf.Length), got, buf[..got]))
    ensures !ok ==> got == 0
    ensures buf[..][got..] == old(buf[..])[got..]
  {
    ghost var q := Request(ToInt32(process), addr, force);
    var header := Header(process, addr, Flag(force));
    HeaderRoundTrip(process, addr, Flag(force), []);
    assert header + [] == header;
    var local := LocalCopy(header);
    var n, bytes := ReadCall(mem, procs, local, buf.Length, q);
    if n >= 0 {
      FirstByteDecides(PagesOfTask(procs[q.pid]), mem.ptes, addr, buf.Length, ForRead, force, n);
    }
    if n <= 0 {
      return false, 0;
    }
    SpliceFront(header, bytes);
    var data := local[..][..n];
    SpliceFront(buf[..], data);
    CopyInto(buf, 0, data);
    assert buf[..][..n] == buf[..n];
    return true, n;
  }

  /** The branch for longer buffers: the header goes into the caller's buffer, and the bytes read over it. */
  method CppReadLong(mem: Memory, procs: Procs, process: nat, addr: nat, buf: array<byte>, force: bool)
    returns (ok: bool, got: nat)
    requires FramesInRam(mem.ptes, mem.ram) && 0 < process < U64 && 0 < addr < U64 && HEADER <= buf.Length
    modifies buf
    ensures var q := Request(ToInt32(process), addr, force);
      && (ok <==> && Refusal(procs, q, Capped(buf.Length), ForRead) == 0
                  && Accessible(PagesOfTask(procs[q.pid]), mem.ptes, addr, ForRead, force))
      && (ok ==> 0 < got <= buf.Length && Delivers(mem, procs, q, Capped(buf.Length), got, buf[..got]))
    ensures !ok ==> got == 0
    ensures buf[..][got..] == Prepared(process, addr, force, old(buf[..]))[got..]
  {
    ghost var q := Request(ToInt32(process), addr, force);
    var header := Header(process, addr, Flag(force));
    CopyInto(buf, 0, header);
    HeaderRoundTrip(process, addr, Flag(force), buf[HEADER..]);
    assert buf[..] == header + buf[HEADER..];
    ghost var now := buf[..];
    var n, bytes := ReadCall(mem, procs, buf, buf.Length, q);
    if n >= 0 {
      FirstByteDecides(PagesOfTask(procs[q.pid]), mem.ptes, addr, buf.Length, ForRead, force, n);
    }
    if n <= 0 {
      return false, 0;
    }
    SpliceFront(now, bytes);
    assert buf[..][..n] == buf[..n];
    return true, n;
  }

  /**
   The README example on any data: a write that completes, followed by a read of as many bytes that
   completes, returns the data if and only if aliases in the range agree.
   */
  method WriteThenRead(mem: Memory, procs: Procs, pid: int, addr: nat, data: seq<byte>, buf: array<byte>)
    returns (w: Outcome, r: Outcome)
    requires FramesInRam(mem.ptes, mem.ram) && buf.Length == |data|
    requires -0x8000_0000 <= pid < 0x8000_0000 && addr < U64
    modifies mem, buf
    ensures mem.ptes == old(mem.ptes)
    ensures w.Done? && r.Done? ==> pid in procs
    ensures w.Done? && r.Done? ==>
      (buf[..] == data <==> AliasesAgree(PagesOfTask(procs[pid]), mem.ptes, addr, data, |data|))
    ensures w.Done? && r.Done? && OneToOne(PagesOfTask(procs[pid]), mem.ptes) && |data| <= SPAN ==> buf[..] == data
  {
    ghost var ram := mem.ram;
    w := RustWriteMem(mem, procs, pid, addr, data);
    if !w.Done? {
      return w, w;
    }
    ReadAfterWrite(PagesOfTask(procs[pid]), mem.ptes, ram, addr, data, |data|);
    assert data[..|data|] == data;
    r := RustReadMem(mem, procs, pid, addr, buf);
    if OneToOne(PagesOfTask(procs[pid]), mem.ptes) && |data| <= SPAN {
      OneToOneHasNoAliases(PagesOfTask(procs[pid]), mem.ptes, addr, data, |data|);
    }
  }
}
