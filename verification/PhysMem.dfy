/**
 Address translation and physical access: rwMem/phy_mem.h.
 */
module PhysMem {
  import opened Options
  import opened Bytes

  const PAGE: nat := 4096

  /** A present page table entry. An absent one (pte_none) has no value in the store. */
  datatype Pte = Pte(frame: nat, read: bool, write: bool)

  /** The four levels above the entries; p4d is folded into pgd. The last level gives the entry's address. */
  type Pmd = map<nat, nat>
  type Pud = map<nat, Pmd>
  type Pgd = map<nat, Pud>
  type Tables = map<nat, Pgd>

  function Lookup<T>(m: map<nat, T>, i: nat): Option<T> {
    if i in m then Some(m[i]) else None
  }

  /** The walk of get_task_proc_phy_addr down to the address of the entry of virtual page vpn. */
  function WalkPage(tables: Tables, vpn: nat): Option<nat> {
    match Lookup(tables, vpn / 0x800_0000 % 512)
    case None => None
    case Some(pud) =>
      match Lookup(pud, vpn / 0x4_0000 % 512)
      case None => None
      case Some(pmd) =>
        match Lookup(pmd, vpn / 512 % 512)
        case None => None
        case Some(ptes) => Lookup(ptes, vpn % 512)
  }

  /** The walk looks at 36 bits of the page number, so it repeats after 2^36 pages, which are 2^48 bytes. */
  const PAGES: nat := 0x10_0000_0000
  const SPAN: nat := 0x1_0000_0000_0000

  lemma WalkRepeats(tables: Tables, vpn: nat)
    ensures WalkPage(tables, vpn) == WalkPage(tables, vpn % PAGES)
  {
    IndexRepeats(vpn, 0x800_0000, 1);
    IndexRepeats(vpn, 0x4_0000, 512);
    IndexRepeats(vpn, 512, 0x4_0000);
    IndexRepeats(vpn, 1, 0x800_0000);
  }

  lemma IndexRepeats(vpn: nat, d: nat, c: nat)
    requires d * (512 * c) == PAGES && d > 0 && c > 0
    ensures vpn % PAGES / d % 512 == vpn / d % 512
  {
    var q, r := vpn / PAGES, vpn % PAGES;
    DivShift(512 * c * q, r, d);
    assert vpn == d * (512 * c * q) + r;
    ModShift(c * q, r / d);
    assert 512 * c * q == 512 * (c * q);
  }

  lemma DivShift(q: nat, r: nat, d: nat)
    requires d > 0
    ensures (d * q + r) / d == q + r / d
  {
    assert (d * q + r) == d * (q + r / d) + r % d;
    DivUnique(d * q + r, d, q + r / d, r % d);
  }

  lemma DivUnique(v: nat, d: nat, a: nat, r: nat)
    requires d > 0 && v == d * a + r && r < d
    ensures v / d == a
  {
    assert d * (v / d - a) == r - v % d;
    SmallMultiple(d, v / d - a);
  }

  /** The low 48 bits of an address are the low bits of its page number, and its offset. */
  lemma AddressRepeats(va: nat)
    ensures va % SPAN / PAGE == va / PAGE % PAGES && va % SPAN % PAGE == va % PAGE
    ensures va % SPAN == va / PAGE % PAGES * PAGE + va % PAGE
  {
    var q, r := va / SPAN, va % SPAN;
    var x, y := r / PAGE, r % PAGE;
    assert va == PAGE * (PAGES * q + x) + y;
    DivUnique(va, PAGE, PAGES * q + x, y);
    QuotientUnique(va, PAGE, PAGES * q + x, y);
    QuotientUnique(PAGES * q + x, PAGES, q, x);
  }

  lemma ModShift(q: nat, x: nat)
    ensures (512 * q + x) % 512 == x % 512
  {
  }

  /** What the walk makes of a virtual page number: the address of its entry, if all levels are present. */
  type PageMap = nat -> Option<nat>

  function PagesOf(tables: Tables): PageMap {
    (vpn: nat) => WalkPage(tables, vpn)
  }

  /** The address of the present entry for va, as out_pte returns it. */
  function PteOf(pm: PageMap, ptes: map<nat, Pte>, va: nat): (p: Option<nat>)
    ensures p.Some? ==> p.value in ptes
  {
    match pm(va / PAGE)
    case None => None
    case Some(p) => if p in ptes then Some(p) else None
  }

  /** get_task_proc_phy_addr: the physical address of va, or 0. */
  function Translate(pm: PageMap, ptes: map<nat, Pte>, va: nat): nat {
    match PteOf(pm, ptes, va)
    case None => 0
    case Some(p) => ptes[p].frame * PAGE + va % PAGE
  }

  /** No page maps to physical page 0, and every frame lies in RAM. */
  ghost predicate FramesInRam(ptes: map<nat, Pte>, ram: seq<byte>) {
    forall p :: p in ptes ==> ptes[p].frame > 0 && (ptes[p].frame + 1) * PAGE <= |ram|
  }

  /**
   The tables lead from va to the entry at address p: bits 47..39, 38..30, 29..21 and 20..12 of va select it.
   */
  ghost predicate LeadsTo(tables: Tables, va: nat, p: nat) {
    var i, j, k, l :=
      va / 0x80_0000_0000 % 512, va / 0x4000_0000 % 512, va / 0x20_0000 % 512, va / 0x1000 % 512;
    && i in tables && j in tables[i] && k in tables[i][j] && l in tables[i][j][k] && tables[i][j][k][l] == p
  }

  /** The walk finds an entry exactly when the tables lead to it and it is present. */
  lemma EntryIff(tables: Tables, ptes: map<nat, Pte>, va: nat, p: nat)
    ensures PteOf(PagesOf(tables), ptes, va) == Some(p) <==> LeadsTo(tables, va, p) && p in ptes
    ensures LeadsTo(tables, va, p) && p in ptes ==>
      Translate(PagesOf(tables), ptes, va) == ptes[p].frame * PAGE + va % PAGE
  {
    var vpn := va / PAGE;
    assert va / 0x80_0000_0000 == vpn / 0x800_0000;
    assert va / 0x4000_0000 == vpn / 0x4_0000;
    assert va / 0x20_0000 == vpn / 512;
    assert PagesOf(tables)(vpn) == WalkPage(tables, vpn);
  }

  /** size_inside_page: how much of size fits before the next page boundary. */
  function SizeInsidePage(start: nat, size: nat): (sz: nat)
    ensures sz <= size && start % PAGE + sz <= PAGE
    ensures size > 0 ==> sz > 0
    ensures sz == size || (start + sz) % PAGE == 0
  {
    var sz := PAGE - start % PAGE;
    if sz < size then sz else size
  }

  lemma LastPiece(pa: nat, size: nat, done: nat)
    requires pa % PAGE + size <= PAGE && done < size
    ensures SizeInsidePage(pa + done, size - done) == size - done
  {
    assert pa + done == PAGE * (pa / PAGE) + (pa % PAGE + done);
    QuotientUnique(pa + done, PAGE, pa / PAGE, pa % PAGE + done);
  }

  lemma TranslationKeepsOffset(pm: PageMap, ptes: map<nat, Pte>, va: nat, ram: seq<byte>)
    requires FramesInRam(ptes, ram)
    ensures var pa := Translate(pm, ptes, va);
      && (pa != 0 <==> PteOf(pm, ptes, va).Some?)
      && (pa != 0 ==> pa % PAGE == va % PAGE && pa - pa % PAGE + PAGE <= |ram|)
  {
    var p := PteOf(pm, ptes, va);
    if p.Some? {
      var f := ptes[p.value].frame;
      assert f > 0;
    }
  }

  /** Inside one page the translation is a shift. */
  lemma SamePage(pm: PageMap, ptes: map<nat, Pte>, va: nat, j: nat)
    requires va % PAGE + j < PAGE
    ensures PteOf(pm, ptes, va + j) == PteOf(pm, ptes, va)
    ensures PteOf(pm, ptes, va).Some? ==> Translate(pm, ptes, va + j) == Translate(pm, ptes, va) + j
  {
    assert (va + j) / PAGE == va / PAGE;
  }

  /**
   How a user copy ends that runs out of user memory: at most cut bytes of it arrive, and copy_from_user
   then zeroes the rest of its destination, while the raw copy of the architecture does not.
   */
  datatype Faults = Faults(cut: nat, zeroFill: bool)

  /** How many of the sz bytes at position at arrive when user memory is len bytes long. */
  function Arriving(len: nat, at: nat, sz: nat, cut: nat): (n: nat)
    ensures n <= sz && (n == sz <==> at + sz <= len || sz == 0)
    ensures n > 0 ==> at + n <= len
  {
    if at + sz <= len || sz == 0 then sz
    else
      var room := if at < len then len - at else 0;
      if cut < room then cut else room
  }

  /** The n bytes of user memory from position from on. */
  function Part(user: seq<byte>, from: nat, n: nat): (bs: seq<byte>)
    requires n > 0 ==> from + n <= |user|
    ensures |bs| == n
  {
    if n == 0 then [] else user[from..from + n]
  }

  /** Such bytes, with z zeros behind. */
  function Padded(user: seq<byte>, from: nat, n: nat, z: nat): (bs: seq<byte>)
    requires n > 0 ==> from + n <= |user|
    ensures |bs| == n + z
  {
    Part(user, from, n) + Zeros(z)
  }

  lemma AppendNothing(a: seq<byte>, b: seq<byte>, c: seq<byte>)
    ensures a + Zeros(0) + (b + c) == a + b + c
  {
  }

  lemma PaddedJoins(user: seq<byte>, from: nat, done: nat, n: nat, z: nat)
    requires (done > 0 ==> from + done <= |user|) && (n > 0 ==> from + done + n <= |user|)
    ensures Padded(user, from, done, 0) + Padded(user, from + done, n, z) == Padded(user, from, done + n, z)
  {
    assert Part(user, from, done + n) == Part(user, from, done) + Part(user, from + done, n);
    AppendNothing(Part(user, from, done), Part(user, from + done, n), Zeros(z));
  }

  lemma PaddedGrows(s: seq<byte>, p: nat, user: seq<byte>, from: nat, done: nat, n: nat, z: nat)
    requires p + done + n + z <= |s| && (done > 0 ==> from + done <= |user|) && (n > 0 ==> from + done + n <= |user|)
    ensures Splice(Splice(s, p, Padded(user, from, done, 0)), p + done, Padded(user, from + done, n, z))
         == Splice(s, p, Padded(user, from, done + n, z))
  {
    PaddedJoins(user, from, done, n, z);
    SpliceJoins(s, p, Padded(user, from, done, 0), Padded(user, from + done, n, z));
  }

  /** Physical memory and the page table entries, which the driver changes in place. */
  class Memory {
    var ram: seq<byte>
    var ptes: map<nat, Pte>

    constructor (ram: seq<byte>, ptes: map<nat, Pte>)
      ensures this.ram == ram && this.ptes == ptes
    {
      this.ram, this.ptes := ram, ptes;
    }

    /**
     read_ram_physical_addr: copy page piece by page piece through a bounce page, until user memory ends.
     Of the piece at which it ends, the first bytes may still arrive.
     */
    method ReadRam(pa: nat, dst: array<byte>, at: nat, size: nat, faults: Faults) returns (done: nat, ghost landed: nat)
      requires pa + size <= |ram|
      modifies dst
      ensures done <= landed <= size && (at + size <= dst.Length ==> done == size)
      ensures landed < size ==> at + size > dst.Length
      ensures landed > 0 ==> at + landed <= dst.Length
      ensures forall i :: 0 <= i < dst.Length ==>
        dst[i] == if at <= i < at + landed then ram[pa + (i - at)] else old(dst[i])
    {
      done, landed := 0, 0;
      while done < size
        invariant landed == done <= size && (done > 0 ==> at + done <= dst.Length)
        invariant forall i :: 0 <= i < dst.Length ==>
          dst[i] == if at <= i < at + done then ram[pa + (i - at)] else old(dst[i])
      {
        var sz := SizeInsidePage(pa + done, size - done);
        var bounce := ram[pa + done..pa + done + sz];
        var n := Arriving(dst.Length, at + done, sz, faults.cut);
        if n > 0 {
          CopyInto(dst, at + done, bounce[..n]);
        }
        landed := done + n;
        if n < sz {
          break;
        }
        done := done + sz;
      }
    }

    /**
     write_ram_physical_addr, from position from of user memory. Of the piece at which that ends, m bytes
     are stored, and z zeros when the user copy fills up.
     */
    method WriteRam(pa: nat, user: seq<byte>, from: nat, size: nat, faults: Faults)
      returns (done: nat, ghost m: nat, ghost z: nat)
      requires pa + size <= |ram|
      modifies this`ram
      ensures done == m && m + z <= size && (m < size ==> from + size > |user|) && (m > 0 ==> from + m <= |user|)
      ensures !faults.zeroFill ==> z == 0
      ensures faults.zeroFill && pa % PAGE + size <= PAGE ==> m + z == size
      ensures ram == Splice(old(ram), pa, Padded(user, from, m, z))
    {
      done, m, z := 0, 0, 0;
      ghost var before := ram;
      SpliceNothing(before, pa);
      assert Padded(user, from, 0, 0) == [];
      while done < size
        invariant m == done <= size && z == 0 && |ram| == |before| && (done > 0 ==> from + done <= |user|)
        invariant ram == Splice(before, pa, Padded(user, from, done, 0))
      {
        var sz := SizeInsidePage(pa + done, size - done);
        if pa % PAGE + size <= PAGE {
          LastPiece(pa, size, done);
        }
        var n;
        n, z := WritePart(pa, user, from, done, sz, faults, before);
        done, m := done + n, done + n;
        if n < sz {
          break;
        }
      }
    }

    /** One turn of the loop: the part of the range that lies in the page of byte done. */
    method WritePart(pa: nat, user: seq<byte>, from: nat, done: nat, sz: nat, faults: Faults, ghost before: seq<byte>)
      returns (n: nat, ghost z: nat)
      requires pa + done + sz <= |before| && (done > 0 ==> from + done <= |user|)
      requires ram == Splice(before, pa, Padded(user, from, done, 0))
      modifies this`ram
      ensures n <= sz && (n == sz <==> from + done + sz <= |user| || sz == 0) && (n > 0 ==> from + done + n <= |user|)
      ensures z == if faults.zeroFill then sz - n else 0
      ensures ram == Splice(before, pa, Padded(user, from, done + n, z))
    {
      n := Arriving(|user|, from + done, sz, faults.cut);
      var zeros := if faults.zeroFill then sz - n else 0;
      PaddedGrows(before, pa, user, from, done, n, zeros);
      ram := Splice(ram, pa + done, Padded(user, from + done, n, zeros));
      z := zeros;
    }

    /** change_pte_write_status: returns whether there was an entry to change. */
    method ChangePteWrite(p: Option<nat>, canWrite: bool) returns (ok: bool)
      requires p.Some? ==> p.value in ptes
      modifies this`ptes
      ensures ok == p.Some?
      ensures ptes == if ok then old(ptes)[p.value := old(ptes)[p.value].(write := canWrite)] else old(ptes)
    {
      if p.None? {
        return false;
      }
      ptes := ptes[p.value := ptes[p.value].(write := canWrite)];
      ok := true;
    }
  }
}
