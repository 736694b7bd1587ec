/**
 Reading and writing the memory of another process: rwmem_read and rwmem_write of rwMem/sys.c.
 */
module RemoteMemory {
  import opened Options
  import opened Bytes
  import opened PhysMem
  import opened ProcMaps

  const EINVAL := 22
  const EFAULT := 14
  const HEADER := 17

  /** The task behind a pid: it may have exited while the pid is still known, and a kernel thread has no mm. */
  datatype Task = Exited | NoMm | Running(value: Mm)

  /** The pids find_get_pid knows. */
  type Procs = map<int, Task>

  datatype Request = Request(pid: int, addr: nat, force: bool)

  /** The conversion of a 64-bit word to pid_t. */
  function ToInt32(v: nat): int {
    if v % U32 < 0x8000_0000 then v % U32 else v % U32 - U32
  }

  /** The 17 bytes at the head of the user buffer. */
  function ParseRequest(h: seq<byte>): Request
    requires |h| >= HEADER
  {
    Request(ToInt32(Decode(h[0..8])), Decode(h[8..16]), h[16] == 1)
  }

  /** The k-th address of a range; address arithmetic is modulo 2^64. */
  function Va(addr: nat, k: nat): (va: nat)
    ensures va < U64
  {
    (addr + k) % U64
  }

  /** Without a task or an mm nothing is mapped. */
  function PagesOfTask(task: Task): PageMap {
    if task.Running? then PagesOf(task.value.tables) else _ => None
  }

  /** 0 if the access may start, else the error it returns. */
  function Refusal(procs: Procs, r: Request, size: nat, a: Access): int {
    if r.pid !in procs then -EINVAL
    else if !r.force && (!procs[r.pid].Running? || !CheckMap(procs[r.pid].value.vmas, r.addr, size, a)) then -EFAULT
    else 0
  }

  /** The page of va is present, and permits the access unless it is forced. */
  predicate Accessible(pm: PageMap, ptes: map<nat, Pte>, va: nat, a: Access, force: bool) {
    var p := PteOf(pm, ptes, va);
    p.Some? && (force || if a.ForRead? then ptes[p.value].read else ptes[p.value].write)
  }

  /** n is the length of the longest accessible prefix of the range. */
  ghost predicate IsReach(pm: PageMap, ptes: map<nat, Pte>, addr: nat, size: nat, a: Access, force: bool, n: nat) {
    && n <= size
    && (forall k :: 0 <= k < n ==> Accessible(pm, ptes, Va(addr, k), a, force))
    && (n < size ==> !Accessible(pm, ptes, Va(addr, n), a, force))
  }

  lemma ReachIsUnique(pm: PageMap, ptes: map<nat, Pte>, addr: nat, size: nat, a: Access, force: bool, n: nat, m: nat)
    requires IsReach(pm, ptes, addr, size, a, force, n) && IsReach(pm, ptes, addr, size, a, force, m)
    ensures n == m
  {
    assert n < m ==> Accessible(pm, ptes, Va(addr, n), a, force);
    assert m < n ==> Accessible(pm, ptes, Va(addr, m), a, force);
  }

  /** The first n addresses of the range are mapped. */
  ghost predicate Mapped(pm: PageMap, ptes: map<nat, Pte>, addr: nat, n: nat) {
    forall k :: 0 <= k < n ==> PteOf(pm, ptes, Va(addr, k)).Some?
  }

  /** The physical address of byte k of the range. */
  function Pa(pm: PageMap, ptes: map<nat, Pte>, addr: nat, k: nat): nat {
    Translate(pm, ptes, Va(addr, k))
  }

  lemma PaInRam(pm: PageMap, ptes: map<nat, Pte>, addr: nat, k: nat, ram: seq<byte>)
    requires FramesInRam(ptes, ram) && PteOf(pm, ptes, Va(addr, k)).Some?
    ensures 0 < Pa(pm, ptes, addr, k) < |ram|
  {
    TranslationKeepsOffset(pm, ptes, Va(addr, k), ram);
  }

  function Fetch(ram: seq<byte>, p: nat): byte {
    if p < |ram| then ram[p] else 0
  }

  /** The reference for a read: n single-byte fetches. */
  function FlatRead(pm: PageMap, ptes: map<nat, Pte>, ram: seq<byte>, addr: nat, n: nat): (bs: seq<byte>)
    ensures |bs| == n
  {
    seq(n, (k: nat) => Fetch(ram, Pa(pm, ptes, addr, k)))
  }

  /** The reference for a write: n single-byte stores, in order. */
  ghost function FlatWrite(
    pm: PageMap, ptes: map<nat, Pte>, ram: seq<byte>, addr: nat, data: seq<byte>, n: nat): (r: seq<byte>)
    requires FramesInRam(ptes, ram) && Mapped(pm, ptes, addr, n) && n <= |data|
    ensures |r| == |ram|
  {
    if n == 0 then ram
    else
      PaInRam(pm, ptes, addr, n - 1, ram);
      FlatWrite(pm, ptes, ram, addr, data, n - 1)[Pa(pm, ptes, addr, n - 1) := data[n - 1]]
  }

  /** Inside a page, address arithmetic does not wrap. */
  lemma VaShift(addr: nat, off: nat, k: nat)
    requires off <= k && Va(addr, off) % PAGE + (k - off) < PAGE
    ensures Va(addr, k) == Va(addr, off) + (k - off)
  {
    var va := Va(addr, off);
    assert va / PAGE <= U64 / PAGE - 1;
    assert va + (k - off) < U64;
  }

  /** The bytes of a piece inside one page share an entry and are contiguous in physical memory. */
  lemma PieceAt(pm: PageMap, ptes: map<nat, Pte>, addr: nat, off: nat, k: nat)
    requires off <= k && PteOf(pm, ptes, Va(addr, off)).Some? && Va(addr, off) % PAGE + (k - off) < PAGE
    ensures PteOf(pm, ptes, Va(addr, k)) == PteOf(pm, ptes, Va(addr, off))
    ensures Pa(pm, ptes, addr, k) == Pa(pm, ptes, addr, off) + (k - off)
  {
    VaShift(addr, off, k);
    SamePage(pm, ptes, Va(addr, off), k - off);
  }

  lemma ReachGrows(pm: PageMap, ptes: map<nat, Pte>, addr: nat, a: Access, force: bool, off: nat, sz: nat)
    requires forall k :: 0 <= k < off ==> Accessible(pm, ptes, Va(addr, k), a, force)
    requires Accessible(pm, ptes, Va(addr, off), a, force) && Va(addr, off) % PAGE + sz <= PAGE
    ensures forall k :: 0 <= k < off + sz ==> Accessible(pm, ptes, Va(addr, k), a, force)
  {
    forall k | off <= k < off + sz
      ensures Accessible(pm, ptes, Va(addr, k), a, force)
    {
      PieceAt(pm, ptes, addr, off, k);
    }
  }

  lemma FlatReadPiece(pm: PageMap, ptes: map<nat, Pte>, ram: seq<byte>, addr: nat, off: nat, sz: nat)
    requires FramesInRam(ptes, ram)
    requires PteOf(pm, ptes, Va(addr, off)).Some? && Va(addr, off) % PAGE + sz <= PAGE
    ensures var pa := Pa(pm, ptes, addr, off);
      && pa + sz <= |ram|
      && FlatRead(pm, ptes, ram, addr, off + sz) == FlatRead(pm, ptes, ram, addr, off) + ram[pa..pa + sz]
  {
    TranslationKeepsOffset(pm, ptes, Va(addr, off), ram);
    forall k | off <= k < off + sz
      ensures Pa(pm, ptes, addr, k) == Pa(pm, ptes, addr, off) + (k - off)
    {
      PieceAt(pm, ptes, addr, off, k);
    }
  }

  lemma FlatWritePiece(
    pm: PageMap, ptes: map<nat, Pte>, ram: seq<byte>, addr: nat, data: seq<byte>, off: nat, sz: nat)
    requires FramesInRam(ptes, ram) && Mapped(pm, ptes, addr, off + sz) && off + sz <= |data|
    requires PteOf(pm, ptes, Va(addr, off)).Some? && Va(addr, off) % PAGE + sz <= PAGE
    ensures var pa := Pa(pm, ptes, addr, off);
      && pa + sz <= |ram|
      && FlatWrite(pm, ptes, ram, addr, data, off + sz)
         == Splice(FlatWrite(pm, ptes, ram, addr, data, off), pa, data[off..off + sz])
  {
    TranslationKeepsOffset(pm, ptes, Va(addr, off), ram);
    FlatWriteBytes(pm, ptes, ram, addr, data, off, sz, FlatWrite(pm, ptes, ram, addr, data, off));
  }

  lemma {:induction false} FlatWriteBytes(
    pm: PageMap, ptes: map<nat, Pte>, ram: seq<byte>, addr: nat, data: seq<byte>, off: nat, sz: nat, w: seq<byte>)
    requires FramesInRam(ptes, ram) && Mapped(pm, ptes, addr, off + sz) && off + sz <= |data|
    requires PteOf(pm, ptes, Va(addr, off)).Some? && Va(addr, off) % PAGE + sz <= PAGE
    requires w == FlatWrite(pm, ptes, ram, addr, data, off) && Pa(pm, ptes, addr, off) + sz <= |ram|
    ensures FlatWrite(pm, ptes, ram, addr, data, off + sz) == Splice(w, Pa(pm, ptes, addr, off), data[off..off + sz])
    decreases sz
  {
    if sz == 0 {
      SpliceNothing(w, Pa(pm, ptes, addr, off));
    } else {
      var k: nat := sz - 1;
      FlatWriteBytes(pm, ptes, ram, addr, data, off, k, w);
      FlatWriteByte(pm, ptes, ram, addr, data, off, k, w);
    }
  }

  lemma FlatWriteByte(
    pm: PageMap, ptes: map<nat, Pte>, ram: seq<byte>, addr: nat, data: seq<byte>, off: nat, sz: nat, w: seq<byte>)
    requires FramesInRam(ptes, ram) && Mapped(pm, ptes, addr, off + sz + 1) && off + sz < |data|
    requires PteOf(pm, ptes, Va(addr, off)).Some? && Va(addr, off) % PAGE + sz < PAGE
    requires Pa(pm, ptes, addr, off) + sz < |ram| == |w|
    requires FlatWrite(pm, ptes, ram, addr, data, off + sz) == Splice(w, Pa(pm, ptes, addr, off), data[off..off + sz])
    ensures FlatWrite(pm, ptes, ram, addr, data, off + sz + 1)
         == Splice(w, Pa(pm, ptes, addr, off), data[off..off + sz + 1])
  {
    PieceAt(pm, ptes, addr, off, off + sz);
    SpliceExtends(w, Pa(pm, ptes, addr, off), data[off..off + sz], data[off + sz]);
    assert data[off..off + sz + 1] == data[off..off + sz] + [data[off + sz]];
  }

  /**
   n bytes of the range are done and l of them have arrived: all, unless user memory has ended before n.
   */
  ghost predicate ReadSoFar(
    pm: PageMap, ptes: map<nat, Pte>, ram: seq<byte>, addr: nat, force: bool,
    n: nat, l: nat, before: seq<byte>, now: seq<byte>)
  {
    && FramesInRam(ptes, ram) && l <= n && l <= |before| && (l < n ==> |before| < n)
    && (forall k :: 0 <= k < n ==> Accessible(pm, ptes, Va(addr, k), ForRead, force))
    && now == Splice(before, 0, FlatRead(pm, ptes, ram, addr, l))
  }

  /** A piece that lands behind the n bytes that have arrived continues them. */
  lemma PieceArrives(before: seq<byte>, front: seq<byte>, n: nat, piece: seq<byte>, now: seq<byte>, after: seq<byte>)
    requires |front| == n && n + |piece| <= |before| && now == Splice(before, 0, front) && |after| == |now|
    requires forall i :: 0 <= i < |now| ==> after[i] == if n <= i < n + |piece| then piece[i - n] else now[i]
    ensures after == Splice(before, 0, front + piece)
  {
    SpliceJoins(before, 0, front, piece);
    assert after == Splice(now, n, piece);
  }

  lemma ReadPiece(
    pm: PageMap, ptes: map<nat, Pte>, ram: seq<byte>, addr: nat, force: bool,
    n: nat, l: nat, sz: nat, m: nat, before: seq<byte>, now: seq<byte>, after: seq<byte>)
    requires ReadSoFar(pm, ptes, ram, addr, force, n, l, before, now) && |after| == |now|
    requires Accessible(pm, ptes, Va(addr, n), ForRead, force) && Va(addr, n) % PAGE + sz <= PAGE
    requires m <= sz && (m < sz ==> n + sz > |before|) && (m > 0 ==> n + m <= |before|)
    requires Pa(pm, ptes, addr, n) + sz <= |ram|
    requires forall i :: 0 <= i < |now| ==>
      after[i] == if n <= i < n + m then ram[Pa(pm, ptes, addr, n) + (i - n)] else now[i]
    ensures ReadSoFar(pm, ptes, ram, addr, force, n + sz, if l == n then n + m else l, before, after)
  {
    ReachGrows(pm, ptes, addr, ForRead, force, n, sz);
    if l == n {
      var pa := Pa(pm, ptes, addr, n);
      FlatReadPiece(pm, ptes, ram, addr, n, m);
      PieceArrives(before, FlatRead(pm, ptes, ram, addr, n), n, ram[pa..pa + m], now, after);
    } else {
      assert after == now;
    }
  }

  /** The page loop of rwmem_read. It counts a byte as read whether or not it arrives in user memory. */
  method ReadPages(mem: Memory, pm: PageMap, addr: nat, force: bool, buf: array<byte>, size: nat, faults: Faults)
    returns (done: nat, ghost landed: nat)
    requires FramesInRam(mem.ptes, mem.ram)
    modifies buf
    ensures IsReach(pm, mem.ptes, addr, size, ForRead, force, done) && Mapped(pm, mem.ptes, addr, done)
    ensures landed <= done && landed <= buf.Length && (done <= buf.Length ==> landed == done)
    ensures buf[..] == Splice(old(buf[..]), 0, FlatRead(pm, mem.ptes, mem.ram, addr, landed))
  {
    ghost var before := buf[..];
    SpliceNothing(before, 0);
    done, landed := 0, 0;
    while done < size
      invariant done <= size && ReadSoFar(pm, mem.ptes, mem.ram, addr, force, done, landed, before, buf[..])
    {
      var va := Va(addr, done);
      var pa := Translate(pm, mem.ptes, va);
      TranslationKeepsOffset(pm, mem.ptes, va, mem.ram);
      if pa == 0 {
        break;
      }
      if !force && !mem.ptes[PteOf(pm, mem.ptes, va).value].read {
        break;
      }
      var sz := SizeInsidePage(pa, if size - done > PAGE then PAGE else size - done);
      landed := ReadOnePage(mem, pm, addr, force, buf, done, landed, sz, faults, before);
      done := done + sz;
    }
  }

  /** One turn of the loop: the piece of the range that lies in the page of byte n. */
  method ReadOnePage(
    mem: Memory, pm: PageMap, addr: nat, force: bool, buf: array<byte>, n: nat, ghost l: nat, sz: nat, faults: Faults,
    ghost before: seq<byte>)
    returns (ghost landed: nat)
    requires ReadSoFar(pm, mem.ptes, mem.ram, addr, force, n, l, before, buf[..])
    requires Accessible(pm, mem.ptes, Va(addr, n), ForRead, force) && Va(addr, n) % PAGE + sz <= PAGE
    modifies buf
    ensures ReadSoFar(pm, mem.ptes, mem.ram, addr, force, n + sz, landed, before, buf[..])
  {
    ghost var now := buf[..];
    FlatReadPiece(pm, mem.ptes, mem.ram, addr, n, sz);
    var pa := Translate(pm, mem.ptes, Va(addr, n));
    var _, m := mem.ReadRam(pa, buf, n, sz, faults);
    ReadPiece(pm, mem.ptes, mem.ram, addr, force, n, l, sz, m, before, now, buf[..]);
    landed := if l == n then n + m else l;
  }

  /** rwmem_read. A result r >= 0 counts the bytes of the reach; landed of them stand at the start of buf. */
  method Read(
    mem: Memory, procs: Procs, buf: array<byte>, size: nat, faults: Faults)
    returns (r: int, ghost landed: nat)
    requires FramesInRam(mem.ptes, mem.ram)
    modifies buf
    ensures buf.Length < HEADER ==> r == -EFAULT && buf[..] == old(buf[..])
    ensures buf.Length >= HEADER ==>
      var q := ParseRequest(old(buf[..]));
      var e := Refusal(procs, q, size, ForRead);
      if e != 0 then r == e && buf[..] == old(buf[..])
      else
        var pm := PagesOfTask(procs[q.pid]);
        && r >= 0 && IsReach(pm, mem.ptes, q.addr, size, ForRead, q.force, r)
        && Mapped(pm, mem.ptes, q.addr, r)
        && landed <= r && landed <= buf.Length && (r <= buf.Length ==> landed == r)
        && buf[..] == Splice(old(buf[..]), 0, FlatRead(pm, mem.ptes, mem.ram, q.addr, landed))
  {
    landed := 0;
    if buf.Length < HEADER {
      return -EFAULT, 0;
    }
    var q := ParseRequest(buf[..]);
    if q.pid !in procs {
      return -EINVAL, 0;
    }
    var task := procs[q.pid];
    if !q.force && (!task.Running? || !CheckMap(task.value.vmas, q.addr, size, ForRead)) {
      return -EFAULT, 0;
    }
    r, landed := ReadPages(mem, PagesOfTask(task), q.addr, q.force, buf, size, faults);
  }

  /** What rwmem_write stores for the first n bytes when l of them are in user memory. */
  function Received(data: seq<byte>, l: nat, n: nat, faults: Faults): (w: seq<byte>)
    requires l <= n && l <= |data|
    ensures |w| <= n && (l == n ==> w == data[..n])
  {
    if faults.zeroFill then data[..l] + Zeros(n - l) else data[..l]
  }

  /** FlatWrite looks at the first n bytes of its data only. */
  lemma {:induction false} FlatWritePrefix(
    pm: PageMap, ptes: map<nat, Pte>, ram: seq<byte>, addr: nat, data: seq<byte>, w: seq<byte>, n: nat)
    requires FramesInRam(ptes, ram) && Mapped(pm, ptes, addr, n) && n <= |data| && n <= |w| && data[..n] == w[..n]
    ensures FlatWrite(pm, ptes, ram, addr, data, n) == FlatWrite(pm, ptes, ram, addr, w, n)
  {
    if n > 0 {
      assert data[..n][..n - 1] == data[..n - 1] && w[..n][..n - 1] == w[..n - 1];
      assert data[n - 1] == data[..n][n - 1] == w[..n][n - 1] == w[n - 1];
      FlatWritePrefix(pm, ptes, ram, addr, data, w, n - 1);
    }
  }

  /** The write of a whole sequence. */
  ghost function FlatWriteAll(pm: PageMap, ptes: map<nat, Pte>, ram: seq<byte>, addr: nat, w: seq<byte>): (r: seq<byte>)
    requires FramesInRam(ptes, ram) && Mapped(pm, ptes, addr, |w|)
    ensures |r| == |ram|
  {
    FlatWrite(pm, ptes, ram, addr, w, |w|)
  }

  lemma FlatWriteAppends(
    pm: PageMap, ptes: map<nat, Pte>, ram: seq<byte>, addr: nat, w: seq<byte>, piece: seq<byte>)
    requires FramesInRam(ptes, ram) && Mapped(pm, ptes, addr, |w| + |piece|)
    requires PteOf(pm, ptes, Va(addr, |w|)).Some? && Va(addr, |w|) % PAGE + |piece| <= PAGE
    ensures var pa := Pa(pm, ptes, addr, |w|);
      && pa + |piece| <= |ram|
      && FlatWriteAll(pm, ptes, ram, addr, w + piece) == Splice(FlatWriteAll(pm, ptes, ram, addr, w), pa, piece)
  {
    var n, sz, both := |w|, |piece|, w + piece;
    FlatWritePiece(pm, ptes, ram, addr, both, n, sz);
    assert both[..n] == w[..n] && both[n..n + sz] == piece;
    FlatWritePrefix(pm, ptes, ram, addr, both, w, n);
  }

  ghost predicate WriteSoFar(
    pm: PageMap, ptes: map<nat, Pte>, before: seq<byte>, addr: nat, force: bool, data: seq<byte>, faults: Faults,
    n: nat, l: nat, now: seq<byte>)
  {
    && FramesInRam(ptes, before) && l <= n && l <= |data| && (l < n ==> |data| < n)
    && (forall k :: 0 <= k < n ==> Accessible(pm, ptes, Va(addr, k), ForWrite, force))
    && now == FlatWriteAll(pm, ptes, before, addr, Received(data, l, n, faults))
  }

  lemma ReceivedGrows(data: seq<byte>, l: nat, n: nat, sz: nat, m: nat, z: nat, faults: Faults)
    requires l <= n && l <= |data| && (l < n ==> |data| < n)
    requires m + z <= sz && (m > 0 ==> n + m <= |data|)
    requires if faults.zeroFill then m + z == sz else z == 0
    ensures var l' := if l == n then n + m else l;
      Received(data, l', n + sz, faults) == Received(data, l, n, faults) + Padded(data, n, m, z)
  {
    if l == n {
      assert data[..n + m] == data[..n] + Part(data, n, m);
    }
  }

  lemma WritePiece(
    pm: PageMap, ptes: map<nat, Pte>, before: seq<byte>, addr: nat, force: bool, data: seq<byte>, faults: Faults,
    n: nat, l: nat, sz: nat, m: nat, z: nat, now: seq<byte>)
    requires WriteSoFar(pm, ptes, before, addr, force, data, faults, n, l, now)
    requires Accessible(pm, ptes, Va(addr, n), ForWrite, force) && Va(addr, n) % PAGE + sz <= PAGE
    requires m + z <= sz && (m < sz ==> n + sz > |data|) && (m > 0 ==> n + m <= |data|)
    requires if faults.zeroFill then m + z == sz else z == 0
    ensures var pa := Pa(pm, ptes, addr, n);
      && pa + sz <= |before| == |now|
      && WriteSoFar(pm, ptes, before, addr, force, data, faults, n + sz, if l == n then n + m else l,
                    Splice(now, pa, Padded(data, n, m, z)))
  {
    var w, piece := Received(data, l, n, faults), Padded(data, n, m, z);
    ReachGrows(pm, ptes, addr, ForWrite, force, n, sz);
    ReceivedGrows(data, l, n, sz, m, z, faults);
    TranslationKeepsOffset(pm, ptes, Va(addr, n), before);
    if |w| == n {
      FlatWriteAppends(pm, ptes, before, addr, w, piece);
    } else {
      assert piece == [] && w + piece == w;
      SpliceNothing(now, Pa(pm, ptes, addr, n));
    }
  }

  /** The page loop of rwmem_write. Every permission bit that was opened for the write is closed again. */
  method WritePages(mem: Memory, pm: PageMap, addr: nat, force: bool, data: seq<byte>, size: nat, faults: Faults)
    returns (done: nat, ghost landed: nat)
    requires FramesInRam(mem.ptes, mem.ram)
    modifies mem
    ensures mem.ptes == old(mem.ptes)
    ensures IsReach(pm, mem.ptes, addr, size, ForWrite, force, done) && Mapped(pm, mem.ptes, addr, done)
    ensures landed <= done && landed <= |data| && (done <= |data| ==> landed == done)
    ensures mem.ram == FlatWriteAll(pm, mem.ptes, old(mem.ram), addr, Received(data, landed, done, faults))
  {
    ghost var before := mem.ram;
    done, landed := 0, 0;
    assert Received(data, 0, 0, faults) == [];
    while done < size
      invariant done <= size && mem.ptes == old(mem.ptes)
      invariant WriteSoFar(pm, mem.ptes, before, addr, force, data, faults, done, landed, mem.ram)
    {
      var va := Va(addr, done);
      var pa := Translate(pm, mem.ptes, va);
      TranslationKeepsOffset(pm, mem.ptes, va, before);
      if pa == 0 {
        break;
      }
      if !force && !mem.ptes[PteOf(pm, mem.ptes, va).value].write {
        break;
      }
      var sz := SizeInsidePage(pa, if size - done > PAGE then PAGE else size - done);
      landed := WriteOnePage(mem, pm, addr, force, data, done, landed, sz, faults, before);
      done := done + sz;
    }
  }

  /** One turn of the loop: open the page if it is read-only, store the piece, and close the page again. */
  method WriteOnePage(
    mem: Memory, pm: PageMap, addr: nat, force: bool, data: seq<byte>, n: nat, ghost l: nat, sz: nat, faults: Faults,
    ghost before: seq<byte>)
    returns (ghost landed: nat)
    requires WriteSoFar(pm, mem.ptes, before, addr, force, data, faults, n, l, mem.ram)
    requires Accessible(pm, mem.ptes, Va(addr, n), ForWrite, force) && Va(addr, n) % PAGE + sz <= PAGE
    modifies mem
    ensures mem.ptes == old(mem.ptes)
    ensures WriteSoFar(pm, mem.ptes, before, addr, force, data, faults, n + sz, landed, mem.ram)
  {
    ghost var now := mem.ram;
    var va := Va(addr, n);
    TranslationKeepsOffset(pm, mem.ptes, va, before);
    ghost var m, z := StorePiece(mem, PteOf(pm, mem.ptes, va), Translate(pm, mem.ptes, va), data, n, sz, faults);
    WritePiece(pm, mem.ptes, before, addr, force, data, faults, n, l, sz, m, z, now);
    landed := if l == n then n + m else l;
  }

  method StorePiece(
    mem: Memory, pte: Option<nat>, pa: nat, data: seq<byte>, from: nat, size: nat, faults: Faults)
    returns (ghost m: nat, ghost z: nat)
    requires pte.Some? && pte.value in mem.ptes && pa + size <= |mem.ram| && pa % PAGE + size <= PAGE
    modifies mem
    ensures mem.ptes == old(mem.ptes)
    ensures m + z <= size && (m < size ==> from + size > |data|) && (m > 0 ==> from + m <= |data|)
    ensures if faults.zeroFill then m + z == size else z == 0
    ensures mem.ram == Splice(old(mem.ram), pa, Padded(data, from, m, z))
  {
    var couldWrite := mem.ptes[pte.value].write;
    if !couldWrite {
      var ok := mem.ChangePteWrite(pte, true);
      if !ok {
        assert false;
      }
    }
    var done;
    done, m, z := mem.WriteRam(pa, data, from, size, faults);
    if !couldWrite {
      var _ := mem.ChangePteWrite(pte, false);
    }
  }

  /** rwmem_write. The count r does not depend on how much of the data user memory holds. */
  method Write(mem: Memory, procs: Procs, buf: seq<byte>, size: nat, faults: Faults) returns (r: int, ghost landed: nat)
    requires FramesInRam(mem.ptes, mem.ram)
    modifies mem
    ensures mem.ptes == old(mem.ptes)
    ensures |buf| < HEADER ==> r == -EFAULT && mem.ram == old(mem.ram)
    ensures |buf| >= HEADER ==>
      var q, data := ParseRequest(buf), buf[HEADER..];
      var e := Refusal(procs, q, size, ForWrite);
      if e != 0 then r == e && mem.ram == old(mem.ram)
      else
        var pm := PagesOfTask(procs[q.pid]);
        && r >= 0 && IsReach(pm, mem.ptes, q.addr, size, ForWrite, q.force, r)
        && Mapped(pm, mem.ptes, q.addr, r)
        && landed <= r && landed <= |data| && (r <= |data| ==> landed == r)
        && mem.ram == FlatWriteAll(pm, mem.ptes, old(mem.ram), q.addr, Received(data, landed, r, faults))
  {
    if |buf| < HEADER {
      return -EFAULT, 0;
    }
    var q := ParseRequest(buf);
    if q.pid !in procs {
      return -EINVAL, 0;
    }
    var task := procs[q.pid];
    if !q.force && (!task.Running? || !CheckMap(task.value.vmas, q.addr, size, ForWrite)) {
      return -EFAULT, 0;
    }
    r, landed := WritePages(mem, PagesOfTask(task), q.addr, q.force, buf[HEADER..], size, faults);
  }
}
