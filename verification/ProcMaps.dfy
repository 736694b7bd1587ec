/**
 The memory map of a process and the access pre-checks of rwMem/proc_maps.h.
 */
module ProcMaps {
  import opened Options
  import opened Bytes
  import opened PhysMem

  type Addr = a: nat | a < U64

  /** struct vm_area_struct; path is what d_path gives for a mapped file. */
  datatype Vma = Vma(
    start: Addr, end: Addr, read: bool, write: bool, exec: bool, mayShare: bool, path: Option<seq<byte>>)

  /** struct mm_struct. */
  datatype Mm = Mm(vmas: seq<Vma>, tables: Tables, startBrk: nat, brk: nat, startStack: nat, vdso: nat)

  datatype Access = ForRead | ForWrite

  predicate Permits(v: Vma, a: Access) {
    if a.ForRead? then v.read else v.write
  }

  /** The kernel keeps the list sorted and the areas disjoint, non-empty and page aligned. */
  ghost predicate WellFormed(vmas: seq<Vma>) {
    && (forall i :: 0 <= i < |vmas| ==>
          vmas[i].start < vmas[i].end && vmas[i].start % PAGE == 0 && vmas[i].end % PAGE == 0)
    && (forall i, j :: 0 <= i < j < |vmas| ==> vmas[i].end <= vmas[j].start)
  }

  predicate Contains(v: Vma, va: nat) {
    v.start <= va < v.end
  }

  /** find_vma: the first area that ends above va, whether or not it contains va. */
  function FindVma(vmas: seq<Vma>, va: nat): (k: nat)
    ensures k <= |vmas|
    ensures k < |vmas| ==> va < vmas[k].end
    ensures forall i :: 0 <= i < k ==> vmas[i].end <= va
  {
    if vmas == [] then 0 else if va < vmas[0].end then 0 else 1 + FindVma(vmas[1..], va)
  }

  /** In a sorted list, the first area that ends above va is the one that contains va, if any does. */
  lemma FindVmaContains(vmas: seq<Vma>, va: nat, j: nat)
    requires WellFormed(vmas) && j < |vmas| && Contains(vmas[j], va)
    ensures FindVma(vmas, va) == j
  {
    var k := FindVma(vmas, va);
    assert k <= j;
    assert vmas[k].end > va >= vmas[j].start;
  }

  /** check_proc_map_can_read and check_proc_map_can_write; the end is computed in 64 bits. */
  predicate CheckMap(vmas: seq<Vma>, va: nat, size: nat, a: Access) {
    var k := FindVma(vmas, va);
    k < |vmas| && Permits(vmas[k], a) && (va + size) % U64 <= vmas[k].end
  }
}
