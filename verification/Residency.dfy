/**
 The residency ioctl (IOCTL_CHECK_PROCESS_ADDR_PHY of rwMem/sys.c): one bit per page, collected in a kernel
 buffer of at most 1024 bytes that is flushed to the caller whenever it is full.
 */
module Residency {
  import opened Bytes
  import opened Options
  import opened PhysMem
  import opened ProcMaps
  import opened RemoteMemory

  const CHUNK: nat := 1024

  function Pow2(i: nat): (p: nat)
    ensures p >= 1
  {
    if i == 0 then 1 else 2 * Pow2(i - 1)
  }

  /** (b >> i) & 1, which is what b & (1 << i) tests. */
  predicate HasBit(b: nat, i: nat) {
    if i == 0 then b % 2 == 1 else HasBit(b / 2, i - 1)
  }

  /** b | (1 << i). */
  function OrBit(b: nat, i: nat): nat {
    if HasBit(b, i) then b else b + Pow2(i)
  }

  lemma {:induction false} OrBitHalf(b: nat, i: nat)
    requires i > 0
    ensures OrBit(b, i) == b % 2 + 2 * OrBit(b / 2, i - 1)
  {
  }

  predicate BitAt(bs: seq<byte>, k: nat)
    requires k / 8 < |bs|
  {
    HasBit(bs[k / 8], k % 8)
  }

  /** Flag k as a number; flags past the end count as 0. */
  function Flag(res: seq<bool>, k: nat): nat {
    if k < |res| && res[k] then 1 else 0
  }

  /** The flags from lo up to hi as one number, flag lo lowest. */
  function Pack(res: seq<bool>, lo: nat, hi: nat): (b: nat)
    requires lo <= hi
    ensures b < Pow2(hi - lo)
    decreases hi - lo
  {
    if lo == hi then 0 else Flag(res, lo) + 2 * Pack(res, lo + 1, hi)
  }

  lemma ByteWidth(n: nat)
    requires n == 8
    ensures Pow2(n) == 256
  {
    assert Pow2(4) == 16;
    assert Pow2(6) == 64;
  }

  /** Byte j of the packed flags. */
  function PackByte(res: seq<bool>, j: nat): byte {
    ByteWidth(8 * j + 8 - 8 * j);
    Pack(res, 8 * j, 8 * j + 8)
  }

  /** The reference: one flat bitmap for the whole range. */
  function Bitmap(res: seq<bool>): (bs: seq<byte>)
    ensures |bs| == (|res| + 7) / 8
  {
    seq((|res| + 7) / 8, (j: nat) => PackByte(res, j))
  }

  lemma {:induction false} PackBit(res: seq<bool>, lo: nat, hi: nat, k: nat)
    requires lo <= k < hi
    ensures HasBit(Pack(res, lo, hi), k - lo) <==> k < |res| && res[k]
    decreases hi - lo
  {
    var rest := Pack(res, lo + 1, hi);
    assert Pack(res, lo, hi) / 2 == rest;
    if lo < k {
      PackBit(res, lo + 1, hi, k);
    }
  }

  /** Bit k of the flat bitmap is flag k, and the padding bits are zero. */
  lemma BitmapBit(res: seq<bool>, k: nat)
    requires k / 8 < (|res| + 7) / 8
    ensures BitAt(Bitmap(res), k) <==> k < |res| && res[k]
  {
    var j := k / 8;
    PackBit(res, 8 * j, 8 * j + 8, k);
  }

  /** One more flag: it is or-ed into the number that covers it, and no other number changes. */
  lemma {:induction false} PackGrows(res: seq<bool>, m: nat, lo: nat, hi: nat)
    requires m < |res| && lo <= hi
    ensures Pack(res[..m + 1], lo, hi) ==
      if lo <= m < hi && res[m] then OrBit(Pack(res[..m], lo, hi), m - lo) else Pack(res[..m], lo, hi)
    decreases hi - lo
  {
    if lo < hi {
      PackGrows(res, m, lo + 1, hi);
      var rest := Pack(res[..m], lo + 1, hi);
      assert Pack(res[..m], lo, hi) / 2 == rest;
      if lo < m {
        assert Flag(res[..m + 1], lo) == Flag(res[..m], lo);
        if m < hi {
          OrBitHalf(Pack(res[..m], lo, hi), m - lo);
        }
      } else if lo == m {
        PackBeyond(res[..m], lo + 1, hi);
      }
    }
  }

  lemma {:induction false} PackBeyond(res: seq<bool>, lo: nat, hi: nat)
    requires |res| <= lo <= hi
    ensures Pack(res, lo, hi) == 0
    decreases hi - lo
  {
    if lo < hi {
      PackBeyond(res, lo + 1, hi);
    }
  }

  /** HasBit is the binary digit. */
  lemma {:induction false} HasBitIsDigit(b: nat, i: nat)
    ensures HasBit(b, i) <==> b / Pow2(i) % 2 == 1
  {
    if i > 0 {
      HasBitIsDigit(b / 2, i - 1);
      HalfTwice(b, Pow2(i - 1));
    }
  }

  lemma HalfTwice(b: nat, c: nat)
    requires c >= 1
    ensures b / (2 * c) == b / 2 / c
  {
    var q, r := b / 2, b % 2;
    var a, d := q / c, q % c;
    var k := b / (2 * c) - a;
    assert b == (2 * c) * a + (2 * d + r);
    assert (2 * c) * k == 2 * d + r - b % (2 * c);
    SmallMultiple(2 * c, k);
  }

  /** A page is resident when its translation exists and may be read. */
  predicate Resident(pm: PageMap, ptes: map<nat, Pte>, va: nat) {
    var p := PteOf(pm, ptes, va);
    Translate(pm, ptes, va) != 0 && p.Some? && ptes[p.value].read
  }

  /** Under a page table that is in order, these are the pages with a present and readable entry. */
  lemma ResidentIff(pm: PageMap, ptes: map<nat, Pte>, ram: seq<byte>, va: nat)
    requires FramesInRam(ptes, ram)
    ensures Resident(pm, ptes, va) <==> exists p :: pm(va / PAGE) == Some(p) && p in ptes && ptes[p].read
  {
    TranslationKeepsOffset(pm, ptes, va, ram);
  }

  /** An unforced read of this one byte delivers it. */
  ghost predicate ReadsByte(pm: PageMap, ptes: map<nat, Pte>, va: nat) {
    IsReach(pm, ptes, va, 1, ForRead, false, 1)
  }

  /** The residency of a page is what the page loop of rwmem_read finds for any of its bytes. */
  lemma ResidentIsReadable(pm: PageMap, ptes: map<nat, Pte>, ram: seq<byte>, va: nat)
    requires FramesInRam(ptes, ram) && va < U64
    ensures Resident(pm, ptes, va - va % PAGE) <==> ReadsByte(pm, ptes, va)
    ensures Resident(pm, ptes, va) <==> ReadsByte(pm, ptes, va)
  {
    assert (va - va % PAGE) / PAGE == va / PAGE;
    assert Va(va, 0) == va;
    ResidentIff(pm, ptes, ram, va);
    ResidentIff(pm, ptes, ram, va - va % PAGE);
  }

  /** Bit k tells whether an unforced read of a byte on page k delivers it. */
  ghost predicate TellsReads(pm: PageMap, ptes: map<nat, Pte>, start: nat, end: nat, now: seq<byte>)
    requires start <= end
  {
    && Ceil8(PageCount(start, end)) <= |now|
    && forall k :: 0 <= k < PageCount(start, end) ==> (BitAt(now, k) <==> ReadsByte(pm, ptes, start + k * PAGE))
  }

  /** The bits of an answer, in terms of reads. */
  lemma BitsAreReads(
    pm: PageMap, ptes: map<nat, Pte>, ram: seq<byte>, start: nat, end: nat, user: seq<byte>, now: seq<byte>)
    requires FramesInRam(ptes, ram) && start <= end <= U64
    requires Ceil8(PageCount(start, end)) <= |user|
    requires now == Splice(user, 0, Bitmap(Residents(pm, ptes, start, PageCount(start, end))))
    ensures TellsReads(pm, ptes, start, end, now) == true  // compared, to keep it folded
  {
    var pages := PageCount(start, end);
    var res := Residents(pm, ptes, start, pages);
    forall k | 0 <= k < pages
      ensures BitAt(now, k) <==> ReadsByte(pm, ptes, start + k * PAGE)
    {
      assert now[k / 8] == Bitmap(res)[k / 8];
      BitmapBit(res, k);
      PageBelow(start, end, k);
      ResidentIsReadable(pm, ptes, ram, start + k * PAGE);
    }
  }

  lemma PageBelow(start: nat, end: nat, k: nat)
    requires start <= end && k < PageCount(start, end)
    ensures start + k * PAGE < end
  {
  }

  /** The flags of the pages from start on. */
  function Residents(pm: PageMap, ptes: map<nat, Pte>, start: nat, pages: nat): (res: seq<bool>)
    ensures |res| == pages
    ensures forall k :: 0 <= k < pages ==> res[k] == Resident(pm, ptes, start + k * PAGE)
  {
    seq(pages, (k: nat) => Resident(pm, ptes, start + k * PAGE))
  }

  /** The kernel buffer after m pages, when the bytes before number flushed have already been sent. */
  ghost predicate Collected(res: seq<bool>, m: nat, flushed: nat, kbuf: seq<byte>)
    requires m <= |res|
  {
    forall j :: 0 <= j < |kbuf| ==> kbuf[j] == PackByte(res[..m], flushed + j)
  }

  lemma ByteGrows(res: seq<bool>, m: nat, j: nat)
    requires m < |res|
    ensures m / 8 == j && res[m] ==> OrBit(PackByte(res[..m], j), m % 8) < 256
    ensures PackByte(res[..m + 1], j) ==
      if m / 8 == j && res[m] then OrBit(PackByte(res[..m], j), m % 8) else PackByte(res[..m], j)
  {
    PackGrows(res, m, 8 * j, 8 * j + 8);
  }

  lemma CollectOne(res: seq<bool>, m: nat, flushed: nat, kbuf: seq<byte>)
    requires m < |res| && Collected(res, m, flushed, kbuf)
    requires flushed <= m / 8 < flushed + |kbuf|
    ensures var i := m / 8 - flushed;
      if res[m] then
        OrBit(kbuf[i], m % 8) < 256 && Collected(res, m + 1, flushed, kbuf[i := OrBit(kbuf[i], m % 8)])
      else
        Collected(res, m + 1, flushed, kbuf)
  {
    ByteGrows(res, m, m / 8);
    var i := m / 8 - flushed;
    var kbuf' := if res[m] then kbuf[i := OrBit(kbuf[i], m % 8)] else kbuf;
    forall j | 0 <= j < |kbuf'|
      ensures kbuf'[j] == PackByte(res[..m + 1], flushed + j)
    {
      ByteGrows(res, m, flushed + j);
    }
  }

  /** A zeroed buffer is right for the part of the range that has not been looked at. */
  lemma CollectNone(res: seq<bool>, m: nat, flushed: nat, kbuf: seq<byte>)
    requires m <= |res| && m <= 8 * flushed
    requires forall j :: 0 <= j < |kbuf| ==> kbuf[j] == 0
    ensures Collected(res, m, flushed, kbuf)
  {
    forall j | 0 <= j < |kbuf|
      ensures kbuf[j] == PackByte(res[..m], flushed + j)
    {
      PackBeyond(res[..m], 8 * (flushed + j), 8 * (flushed + j) + 8);
    }
  }

  /** pages of the range, and the bytes its bitmap takes. */
  function PageCount(start: nat, end: nat): nat
    requires start <= end
  {
    (end - start) / PAGE
  }

  lemma {:induction false} PackPrefix(res: seq<bool>, m: nat, lo: nat, hi: nat)
    requires m <= |res| && lo <= hi && (hi <= m || m == |res|)
    ensures Pack(res[..m], lo, hi) == Pack(res, lo, hi)
    decreases hi - lo
  {
    if lo < hi {
      PackPrefix(res, m, lo + 1, hi);
    }
  }

  /** The first n bytes of the kernel buffer, when their pages are complete, continue the flat bitmap. */
  lemma FlushContinues(res: seq<bool>, m: nat, arg: nat, kbuf: seq<byte>, n: nat)
    requires m <= |res| && Collected(res, m, arg, kbuf)
    requires n <= |kbuf| && arg + n <= |Bitmap(res)| && (8 * (arg + n) <= m || m == |res|)
    ensures Bitmap(res)[..arg + n] == Bitmap(res)[..arg] + kbuf[..n]
  {
    forall j | 0 <= j < n
      ensures kbuf[j] == Bitmap(res)[arg + j]
    {
      PackPrefix(res, m, 8 * (arg + j), 8 * (arg + j) + 8);
    }
  }

  function Ceil8(n: nat): nat {
    (n + 7) / 8
  }

  /** m pages are done: arg bytes are flushed and i pages are in the kernel buffer of bufLen bytes. */
  predicate Progress(pages: nat, bufLen: nat, m: nat, arg: nat, i: nat) {
    && m <= pages && bufLen == (if Ceil8(pages) > CHUNK then CHUNK else Ceil8(pages))
    && arg % CHUNK == 0 && m == 8 * arg + i && i < 8 * CHUNK && (bufLen < CHUNK ==> arg == 0)
  }

  lemma InsideChunk(pages: nat, bufLen: nat, m: nat, arg: nat, i: nat)
    requires Progress(pages, bufLen, m, arg, i) && m < pages
    ensures m / 8 == arg + i / 8 && m % 8 == i % 8 && i / 8 < bufLen
    ensures i + 1 < 8 * CHUNK ==> Progress(pages, bufLen, m + 1, arg, i + 1)
    ensures i + 1 == 8 * CHUNK ==>
      bufLen == CHUNK && arg + CHUNK <= Ceil8(pages) && Progress(pages, bufLen, m + 1, arg + CHUNK, 0)
  {
  }

  lemma LastChunk(pages: nat, bufLen: nat, arg: nat, i: nat)
    requires Progress(pages, bufLen, pages, arg, i)
    ensures arg + Ceil8(i) == Ceil8(pages) && Ceil8(i) <= bufLen
  {
  }

  /** retBuf[i / 8] |= 1 << (i % 8), if the page is resident. */
  method MarkPage(kbuf: seq<byte>, i: nat, resident: bool, ghost res: seq<bool>, ghost m: nat, ghost arg: nat)
    returns (r: seq<byte>)
    requires m < |res| && res[m] == resident && Collected(res, m, arg, kbuf)
    requires m / 8 == arg + i / 8 && m % 8 == i % 8 && i / 8 < |kbuf|
    ensures |r| == |kbuf| && Collected(res, m + 1, arg, r)
  {
    r := kbuf;
    CollectOne(res, m, arg, kbuf);
    if resident {
      var b: byte := OrBit(kbuf[i / 8], i % 8);
      r := kbuf[i / 8 := b];
    }
  }

  /** What has reached the caller's buffer when arg bytes are flushed. */
  ghost predicate Flushed(before: seq<byte>, flat: seq<byte>, arg: nat, now: seq<byte>) {
    arg <= |flat| && arg <= |before| && now == Splice(before, 0, flat[..arg])
  }

  /** copy_to_user of the first n bytes of the kernel buffer; fails when the caller's buffer ends before. */
  method FlushChunk(
    user: array<byte>, arg: nat, kbuf: seq<byte>, n: nat, ghost before: seq<byte>, ghost res: seq<bool>,
    ghost m: nat)
    returns (ok: bool)
    requires m <= |res| && Collected(res, m, arg, kbuf)
    requires n <= |kbuf| && arg + n <= |Bitmap(res)| && (8 * (arg + n) <= m || m == |res|)
    requires user.Length == |before| && Flushed(before, Bitmap(res), arg, user[..])
    modifies user
    ensures ok <==> arg + n <= user.Length
    ensures ok ==> Flushed(before, Bitmap(res), arg + n, user[..])
  {
    if arg + n > user.Length {
      return false;
    }
    FlushContinues(res, m, arg, kbuf, n);
    SpliceJoins(before, 0, Bitmap(res)[..arg], kbuf[..n]);
    CopyInto(user, arg, kbuf[..n]);
    ok := true;
  }

  /** The whole loop state after m pages. */
  ghost predicate Sent(
    res: seq<bool>, before: seq<byte>, bufLen: nat, m: nat, arg: nat, i: nat, kbuf: seq<byte>,
    now: seq<byte>)
  {
    && Progress(|res|, bufLen, m, arg, i)
    && |kbuf| == bufLen && Collected(res, m, arg, kbuf)
    && Flushed(before, Bitmap(res), arg, now)
  }

  /** One turn of the loop. */
  method NextPage(user: array<byte>, resident: bool, kbuf: seq<byte>, i: nat, arg: nat,
                  ghost before: seq<byte>, ghost res: seq<bool>, ghost m: nat)
    returns (ok: bool, kbuf': seq<byte>, i': nat, arg': nat)
    requires m < |res| && res[m] == resident && user.Length == |before|
    requires Sent(res, before, |kbuf|, m, arg, i, kbuf, user[..])
    modifies user
    ensures !ok ==> Ceil8(|res|) > user.Length
    ensures ok ==> Sent(res, before, |kbuf|, m + 1, arg', i', kbuf', user[..])
  {
    InsideChunk(|res|, |kbuf|, m, arg, i);
    kbuf' := MarkPage(kbuf, i, resident, res, m, arg);
    ok, i', arg' := true, i + 1, arg;
    if i' == 8 * CHUNK {
      ok := FlushChunk(user, arg, kbuf', |kbuf|, before, res, m + 1);
      i', arg' := 0, arg + CHUNK;
      kbuf' := Zeros(|kbuf|);
      CollectNone(res, m + 1, arg', kbuf');
    }
  }

  lemma SentNothing(res: seq<bool>, before: seq<byte>, kbuf: seq<byte>)
    requires |kbuf| == (if Ceil8(|res|) > CHUNK then CHUNK else Ceil8(|res|))
    requires forall j :: 0 <= j < |kbuf| ==> kbuf[j] == 0
    ensures Sent(res, before, |kbuf|, 0, 0, 0, kbuf, before)
  {
    SpliceNothing(before, 0);
    assert Bitmap(res)[..0] == [];
    CollectNone(res, 0, 0, kbuf);
  }

  /** The copy after the loop: the pages of the last, partly filled chunk. */
  method SendRest(user: array<byte>, kbuf: seq<byte>, i: nat, arg: nat, ghost before: seq<byte>, ghost res: seq<bool>)
    returns (ok: bool)
    requires user.Length == |before| && Sent(res, before, |kbuf|, |res|, arg, i, kbuf, user[..])
    modifies user
    ensures ok <==> Ceil8(|res|) <= user.Length
    ensures ok ==> user[..] == Splice(before, 0, Bitmap(res))
  {
    LastChunk(|res|, |kbuf|, arg, i);
    ok := true;
    if i > 0 {
      ok := FlushChunk(user, arg, kbuf, Ceil8(i), before, res, |res|);
    }
    assert Bitmap(res)[..|Bitmap(res)|] == Bitmap(res);
  }

  /**
   The bitmap of IOCTL_CHECK_PROCESS_ADDR_PHY, through the chunk buffer. A caller buffer too small for its
   chunk makes the copy, and the call, fail.
   */
  method CheckPages(pm: PageMap, ptes: map<nat, Pte>, start: nat, end: nat, user: array<byte>) returns (ok: bool)
    requires start < end && start % PAGE == 0 && end % PAGE == 0
    modifies user
    ensures ok <==> Ceil8(PageCount(start, end)) <= user.Length
    ensures ok ==> user[..] == Splice(old(user[..]), 0, Bitmap(Residents(pm, ptes, start, PageCount(start, end))))
  {
    var pages := PageCount(start, end);
    assert end == start + pages * PAGE;
    ghost var res, before: seq<byte> := Residents(pm, ptes, start, pages), user[..];
    var bufLen := if Ceil8(pages) > CHUNK then CHUNK else Ceil8(pages);
    var kbuf: seq<byte> := Zeros(bufLen);
    SentNothing(res, before, kbuf);
    var i, arg;
    ok, kbuf, i, arg := PageLoop(pm, ptes, start, end, user, kbuf, before, res);
    if ok {
      ok := SendRest(user, kbuf, i, arg, before, res);
    }
  }

  /** The loop itself: i counts the pages in the current chunk, arg is where the next chunk goes. */
  method PageLoop(
    pm: PageMap, ptes: map<nat, Pte>, start: nat, end: nat, user: array<byte>, buf: seq<byte>,
    ghost before: seq<byte>, ghost res: seq<bool>)
    returns (ok: bool, kbuf: seq<byte>, i: nat, arg: nat)
    requires start <= end && end == start + PageCount(start, end) * PAGE && user.Length == |before|
    requires res == Residents(pm, ptes, start, PageCount(start, end))
    requires Sent(res, before, |buf|, 0, 0, 0, buf, user[..])
    modifies user
    ensures !ok ==> Ceil8(|res|) > user.Length
    ensures ok ==> |kbuf| == |buf| && Sent(res, before, |buf|, |res|, arg, i, kbuf, user[..])
  {
    ok, kbuf, i, arg := true, buf, 0, 0;
    var va: nat := start;
    ghost var m: nat := 0;
    while va < end
      invariant va == start + m * PAGE && |kbuf| == |buf| && m <= |res| && ok
      invariant Sent(res, before, |buf|, m, arg, i, kbuf, user[..]) == true  // compared, to keep it folded
    {
      ok, kbuf, i, arg := NextPage(user, Resident(pm, ptes, va), kbuf, i, arg, before, res, m);
      if !ok {
        return;
      }
      va, m := va + PAGE, m + 1;
    }
  }

  /** struct param of the ioctl: pid_t, then the two addresses, at offsets 0, 8 and 16. */
  datatype PhyParam = PhyParam(pid: int, start: nat, end: nat)

  function ParsePhyParam(b: seq<byte>): PhyParam
    requires |b| >= 24
  {
    PhyParam(ToInt32(Decode(b[0..8])), Decode(b[8..16]), Decode(b[16..24]))
  }

  lemma ParamBound(b: seq<byte>)
    requires |b| >= 24
    ensures ParsePhyParam(b).end < U64
  {
    DecodeBound(b[16..24]);
    Capacities();
  }

  /** The error checks before the walk, in the order of the code. */
  function PhyRefusal(procs: Procs, q: PhyParam): (e: int)
    ensures e == 0 || e == -EINVAL
    ensures e == 0 <==>
      q.start % PAGE == q.end % PAGE == 0 && q.start < q.end && q.pid in procs && !procs[q.pid].Exited?
  {
    if q.start % PAGE != 0 || q.end % PAGE != 0 then -EINVAL
    else if q.start >= q.end then -EINVAL
    else if q.pid !in procs || procs[q.pid].Exited? then -EINVAL
    else 0
  }

  /** IOCTL_CHECK_PROCESS_ADDR_PHY: the answer overwrites the parameters from the start of the buffer. */
  method CheckPhy(mem: Memory, procs: Procs, user: array<byte>) returns (r: int)
    modifies user
    ensures user.Length < 24 ==> r == -EFAULT && user[..] == old(user[..])
    ensures user.Length >= 24 ==>
      var q := ParsePhyParam(old(user[..]));
      var e := PhyRefusal(procs, q);
      if e != 0 then r == e && user[..] == old(user[..])
      else
        var pages := PageCount(q.start, q.end);
        var res := Residents(PagesOfTask(procs[q.pid]), mem.ptes, q.start, pages);
        && (Ceil8(pages) > user.Length ==> r == -EFAULT)
        && (Ceil8(pages) <= user.Length ==> r == pages && user[..] == Splice(old(user[..]), 0, Bitmap(res)))
        && (Ceil8(pages) <= user.Length && FramesInRam(mem.ptes, mem.ram) ==>
              TellsReads(PagesOfTask(procs[q.pid]), mem.ptes, q.start, q.end, user[..]))
  {
    if user.Length < 24 {
      return -EFAULT;
    }
    var q := ParsePhyParam(user[..]);
    if q.start % PAGE != 0 || q.end % PAGE != 0 {
      return -EINVAL;
    }
    if q.start >= q.end {
      return -EINVAL;
    }
    if q.pid !in procs || procs[q.pid].Exited? {
      return -EINVAL;
    }
    ghost var before := user[..];
    var ok := CheckPages(PagesOfTask(procs[q.pid]), mem.ptes, q.start, q.end, user);
    if ok && FramesInRam(mem.ptes, mem.ram) {
      ParamBound(before);
      BitsAreReads(PagesOfTask(procs[q.pid]), mem.ptes, mem.ram, q.start, q.end, before, user[..]);
    }
    r := if ok then PageCount(q.start, q.end) else -EFAULT;
  }
}
