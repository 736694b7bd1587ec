/**
 What the flat references of RemoteMemory mean: which physical bytes a write touches, that a read gives
 back what a write stored.
 */
module MemoryTheorems {
  import opened Options
  import opened Bytes
  import opened PhysMem
  import opened ProcMaps
  import opened RemoteMemory

  /** A byte can be accessed exactly when the tables lead to a present entry that permits it, unless it is forced. */
  lemma AccessibleIff(tables: Tables, ptes: map<nat, Pte>, va: nat, force: bool)
    ensures Accessible(PagesOf(tables), ptes, va, ForRead, force)
       <==> exists p :: LeadsTo(tables, va, p) && p in ptes && (force || ptes[p].read)
    ensures Accessible(PagesOf(tables), ptes, va, ForWrite, force)
       <==> exists p :: LeadsTo(tables, va, p) && p in ptes && (force || ptes[p].write)
  {
    var e := PteOf(PagesOf(tables), ptes, va);
    if e.Some? {
      EntryIff(tables, ptes, va, e.value);
    }
    forall p | LeadsTo(tables, va, p) && p in ptes
      ensures e == Some(p)
    {
      EntryIff(tables, ptes, va, p);
    }
  }

  /** A task without an mm has no bytes to access, not even by force. */
  lemma WithoutMmNothing(task: Task, ptes: map<nat, Pte>, addr: nat, size: nat, a: Access, force: bool, n: nat)
    requires !task.Running? && IsReach(PagesOfTask(task), ptes, addr, size, a, force, n)
    ensures n == 0
  {
    assert n > 0 ==> Accessible(PagesOfTask(task), ptes, Va(addr, 0), a, force);
  }

  /** Byte k of a read is the physical byte at the translation of addr + k. */
  lemma ReadDelivers(pm: PageMap, ptes: map<nat, Pte>, ram: seq<byte>, addr: nat, n: nat, k: nat)
    requires FramesInRam(ptes, ram) && Mapped(pm, ptes, addr, n) && k < n
    ensures 0 < Pa(pm, ptes, addr, k) < |ram|
    ensures FlatRead(pm, ptes, ram, addr, n)[k] == ram[Pa(pm, ptes, addr, k)]
  {
    PaInRam(pm, ptes, addr, k, ram);
  }

  /** A write changes no physical byte outside the translation of the range. */
  lemma {:induction false} WriteFrame(
    pm: PageMap, ptes: map<nat, Pte>, ram: seq<byte>, addr: nat, data: seq<byte>, n: nat, p: nat)
    requires FramesInRam(ptes, ram) && Mapped(pm, ptes, addr, n) && n <= |data| && p < |ram|
    requires forall k :: 0 <= k < n ==> Pa(pm, ptes, addr, k) != p
    ensures FlatWrite(pm, ptes, ram, addr, data, n)[p] == ram[p]
  {
    if n > 0 {
      WriteFrame(pm, ptes, ram, addr, data, n - 1, p);
    }
  }

  /** Where two bytes of the range share a physical byte, the data has the same value. */
  ghost predicate AliasesAgree(pm: PageMap, ptes: map<nat, Pte>, addr: nat, data: seq<byte>, n: nat)
    requires n <= |data|
  {
    forall j, k :: 0 <= j < k < n && Pa(pm, ptes, addr, j) == Pa(pm, ptes, addr, k) ==> data[j] == data[k]
  }

  /** When aliases agree, every byte of the range is stored. */
  lemma {:induction false} WriteStores(
    pm: PageMap, ptes: map<nat, Pte>, ram: seq<byte>, addr: nat, data: seq<byte>, n: nat, k: nat)
    requires FramesInRam(ptes, ram) && Mapped(pm, ptes, addr, n) && n <= |data|
    requires AliasesAgree(pm, ptes, addr, data, n) && k < n
    ensures Pa(pm, ptes, addr, k) < |ram|
    ensures FlatWrite(pm, ptes, ram, addr, data, n)[Pa(pm, ptes, addr, k)] == data[k]
  {
    PaInRam(pm, ptes, addr, k, ram);
    if k < n - 1 {
      WriteStores(pm, ptes, ram, addr, data, n - 1, k);
    }
  }

  /** Reading back a written range gives the data if and only if aliases agree. */
  lemma {:induction false} ReadAfterWrite(
    pm: PageMap, ptes: map<nat, Pte>, ram: seq<byte>, addr: nat, data: seq<byte>, n: nat)
    requires FramesInRam(ptes, ram) && Mapped(pm, ptes, addr, n) && n <= |data|
    ensures FlatRead(pm, ptes, FlatWrite(pm, ptes, ram, addr, data, n), addr, n) == data[..n]
       <==> AliasesAgree(pm, ptes, addr, data, n)
  {
    var after := FlatWrite(pm, ptes, ram, addr, data, n);
    var back := FlatRead(pm, ptes, after, addr, n);
    if AliasesAgree(pm, ptes, addr, data, n) {
      forall k | 0 <= k < n
        ensures back[k] == data[k]
      {
        WriteStores(pm, ptes, ram, addr, data, n, k);
      }
    }
    if back == data[..n] {
      AliasesReadTheSame(pm, ptes, after, addr, n, data);
    }
  }

  lemma AliasesReadTheSame(
    pm: PageMap, ptes: map<nat, Pte>, ram: seq<byte>, addr: nat, n: nat, data: seq<byte>)
    requires n <= |data| && FlatRead(pm, ptes, ram, addr, n) == data[..n]
    ensures AliasesAgree(pm, ptes, addr, data, n)
  {
    forall j, k | 0 <= j < k < n && Pa(pm, ptes, addr, j) == Pa(pm, ptes, addr, k)
      ensures data[j] == data[k]
    {
      assert data[..n][j] == FlatRead(pm, ptes, ram, addr, n)[j];
      assert data[..n][k] == FlatRead(pm, ptes, ram, addr, n)[k];
    }
  }

  /** Two virtual pages share a frame only if the walk cannot tell them apart. */
  ghost predicate OneToOne(pm: PageMap, ptes: map<nat, Pte>) {
    forall u: nat, v: nat ::
      (&& pm(u).Some? && pm(v).Some? && pm(u).value in ptes && pm(v).value in ptes
       && ptes[pm(u).value].frame == ptes[pm(v).value].frame)
      ==> u % PAGES == v % PAGES
  }

  lemma PaDistinct(pm: PageMap, ptes: map<nat, Pte>, addr: nat, j: nat, k: nat)
    requires OneToOne(pm, ptes) && j < k < j + SPAN
    requires PteOf(pm, ptes, Va(addr, j)).Some? && PteOf(pm, ptes, Va(addr, k)).Some?
    ensures Pa(pm, ptes, addr, j) != Pa(pm, ptes, addr, k)
  {
    var u, v := Va(addr, j), Va(addr, k);
    SpanDistinct(addr, j, k);
    var f, g := ptes[PteOf(pm, ptes, u).value].frame, ptes[PteOf(pm, ptes, v).value].frame;
    assert f == g ==> u / PAGE % PAGES == v / PAGE % PAGES;
  }

  /** Addresses less than 2^48 apart differ in their low 48 bits, also where they wrap at 2^64. */
  lemma SpanDistinct(addr: nat, j: nat, k: nat)
    requires j < k < j + SPAN
    ensures var u, v := Va(addr, j), Va(addr, k); u / PAGE % PAGES == v / PAGE % PAGES ==> u % PAGE != v % PAGE
  {
    LowBits(addr + j);
    LowBits(addr + k);
    SpanUnique(addr + j, k - j);
  }

  lemma SpanUnique(a: nat, d: nat)
    requires 0 < d < SPAN
    ensures a % SPAN != (a + d) % SPAN
  {
    var p, q := a / SPAN, (a + d) / SPAN;
    assert SPAN * (q - p) == d - ((a + d) % SPAN - a % SPAN);
  }

  lemma LowBits(a: nat)
    ensures a % SPAN == a % U64 / PAGE % PAGES * PAGE + a % U64 % PAGE
  {
    var q, b := a / U64, a % U64;
    var c, r := b / SPAN, b % SPAN;
    assert a == SPAN * (0x1_0000 * q + c) + r;
    QuotientUnique(a, SPAN, 0x1_0000 * q + c, r);
    AddressRepeats(b);
  }

  /** A one-to-one translation has no aliases in a range of up to 2^48 bytes. */
  lemma OneToOneHasNoAliases(pm: PageMap, ptes: map<nat, Pte>, addr: nat, data: seq<byte>, n: nat)
    requires OneToOne(pm, ptes) && Mapped(pm, ptes, addr, n) && n <= |data| && n <= SPAN
    ensures AliasesAgree(pm, ptes, addr, data, n)
  {
    forall j, k | 0 <= j < k < n
      ensures Pa(pm, ptes, addr, j) != Pa(pm, ptes, addr, k)
    {
      PaDistinct(pm, ptes, addr, j, k);
    }
  }

  /** Whatever a write reached, a read of that range reaches when it is forced or every page is readable. */
  lemma WrittenRangeIsReadable(
    pm: PageMap, ptes: map<nat, Pte>, addr: nat, size: nat, wforce: bool, rforce: bool, n: nat, m: nat)
    requires IsReach(pm, ptes, addr, size, ForWrite, wforce, n) && IsReach(pm, ptes, addr, n, ForRead, rforce, m)
    requires rforce || forall p :: p in ptes ==> ptes[p].read
    ensures m == n
  {
    assert m < n ==> Accessible(pm, ptes, Va(addr, m), ForWrite, wforce);
  }
}
