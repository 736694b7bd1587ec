/**
 Region queries of the server: VirtualQueryEx and VirtualQueryExFull of CEServer/api.cpp over the cached
 region list of an open process.
 */
module RegionQuery {
  import opened Options
  import opened Bytes
  import opened PhysMem
  import opened MapParse

  /** RegionInfo and the name that comes with it. */
  datatype Answer = Answer(base: nat, size: nat, protection: int, kind: int, name: seq<byte>)

  function Stop(r: DriverRegion): nat {
    (r.base + r.size) % U64
  }

  /** The driver's list: page aligned, non-empty, in order and disjoint. */
  ghost predicate Sorted(list: seq<DriverRegion>) {
    && (forall i :: 0 <= i < |list| ==>
          0 < list[i].size && list[i].base + list[i].size < U64 && list[i].base % PAGE == 0 && list[i].size % PAGE == 0)
    && (forall i, j :: 0 <= i < j < |list| ==> list[i].base + list[i].size <= list[j].base)
  }

  function PageOf(a: nat): nat {
    a - a % PAGE
  }

  /** The first region from k on that ends above a. */
  function FirstAbove(list: seq<DriverRegion>, a: nat, k: nat): (n: nat)
    requires k <= |list|
    ensures k <= n <= |list|
    ensures n < |list| ==> Stop(list[n]) > a
    ensures forall i :: k <= i < n ==> Stop(list[i]) <= a
    decreases |list| - k
  {
    if k == |list| || Stop(list[k]) > a then k else FirstAbove(list, a, k + 1)
  }

  /** The answer for page address a, given the first region above it. */
  function AnswerFrom(a: nat, r: DriverRegion): Answer {
    if a >= r.base then Answer(a, (Stop(r) - a) % U64, r.protection, r.kind, r.name)
    else Answer(a, (r.base - a) % U64, PAGE_NOACCESS, 0, r.name)
  }

  /** The loop of VirtualQueryEx as a function of the list. */
  function QueryAt(list: seq<DriverRegion>, addr: nat): Option<Answer> {
    var n := FirstAbove(list, PageOf(addr), 0);
    if n < |list| then Some(AnswerFrom(PageOf(addr), list[n])) else None
  }

  method Query(list: seq<DriverRegion>, addr: nat) returns (found: Option<Answer>)
    ensures found == QueryAt(list, addr)
  {
    var a := addr - addr % 0x1000;
    for k := 0 to |list|
      invariant FirstAbove(list, a, 0) == FirstAbove(list, a, k)
    {
      var r := list[k];
      var stop := (r.base + r.size) % U64;
      if stop > a {
        if a >= r.base {
          return Some(Answer(a, (stop - a) % U64, r.protection, r.kind, r.name));
        }
        return Some(Answer(a, (r.base - a) % U64, PAGE_NOACCESS, 0, r.name));
      }
    }
    return None;
  }

  /** An address inside a region of a sorted list gets that region, up to its end. */
  lemma InsideRegion(list: seq<DriverRegion>, k: nat, addr: nat)
    requires Sorted(list) && k < |list| && list[k].base <= addr < list[k].base + list[k].size
    ensures QueryAt(list, addr) == Some(Answer(PageOf(addr), list[k].base + list[k].size - PageOf(addr),
                                               list[k].protection, list[k].kind, list[k].name))
  {
    var a := PageOf(addr);
    PageStaysInside(list[k], addr);
    FirstAboveIs(list, a, k);
    StopOf(list[k]);
    assert (Stop(list[k]) - a) % U64 == Stop(list[k]) - a;
  }

  lemma PageStaysInside(r: DriverRegion, addr: nat)
    requires r.base % PAGE == 0 && r.base <= addr
    ensures r.base <= PageOf(addr) <= addr
  {
  }

  lemma StopOf(r: DriverRegion)
    requires r.base + r.size < U64
    ensures Stop(r) == r.base + r.size
  {
  }

  lemma FirstAboveIs(list: seq<DriverRegion>, a: nat, k: nat)
    requires Sorted(list) && k < |list| && a < list[k].base + list[k].size
    requires k > 0 ==> list[k - 1].base + list[k - 1].size <= a
    ensures FirstAbove(list, a, 0) == k
  {
    forall i | 0 <= i <= k
      ensures if i < k then Stop(list[i]) <= a else Stop(list[i]) > a
    {
      StopOf(list[i]);
    }
  }

  /** An address between two regions gets the rest of the gap: no access, no type, and the name of the next region. */
  lemma InsideGap(list: seq<DriverRegion>, k: nat, addr: nat)
    requires Sorted(list) && k < |list| && addr < list[k].base
    requires k > 0 ==> list[k - 1].base + list[k - 1].size <= addr
    ensures QueryAt(list, addr) == Some(Answer(PageOf(addr), list[k].base - PageOf(addr), 1, 0, list[k].name))
  {
    if k > 0 {
      AlignedBelow(list[k - 1].base + list[k - 1].size, addr);
    }
    FirstAboveIs(list, PageOf(addr), k);
    assert (list[k].base - PageOf(addr)) % U64 == list[k].base - PageOf(addr);
  }

  lemma AlignedBelow(bound: nat, addr: nat)
    requires bound % PAGE == 0 && bound <= addr
    ensures bound <= PageOf(addr)
  {
    assert bound == PAGE * (bound / PAGE) && PageOf(addr) == PAGE * (addr / PAGE);
  }

  /** Nothing is found behind the last region. */
  lemma BehindAll(list: seq<DriverRegion>, addr: nat)
    requires Sorted(list) && (list != [] ==> list[|list| - 1].base + list[|list| - 1].size <= addr)
    ensures QueryAt(list, addr) == None
  {
    if list != [] {
      AlignedBelow(list[|list| - 1].base + list[|list| - 1].size, addr);
    }
    forall i | 0 <= i < |list|
      ensures Stop(list[i]) <= PageOf(addr)
    {
      StopOf(list[i]);
    }
  }

  // ---------------------------------------------------------------------------------------------
  // Walking the address space
  // ---------------------------------------------------------------------------------------------

  /** Where the region before number k ends. */
  function PrevEnd(list: seq<DriverRegion>, k: nat): nat
    requires k <= |list|
  {
    if k == 0 then 0 else list[k - 1].base + list[k - 1].size
  }

  function Gap(a: nat, r: DriverRegion): Answer
    requires a <= r.base
  {
    Answer(a, r.base - a, PAGE_NOACCESS, 0, r.name)
  }

  function Whole(r: DriverRegion): Answer {
    Answer(r.base, r.size, r.protection, r.kind, r.name)
  }

  lemma AtBase(list: seq<DriverRegion>, k: nat)
    requires Sorted(list) && k < |list|
    ensures QueryAt(list, list[k].base) == Some(Whole(list[k]))
  {
    InsideRegion(list, k, list[k].base);
  }

  lemma PrevEndAligned(list: seq<DriverRegion>, k: nat)
    requires Sorted(list) && k <= |list|
    ensures PrevEnd(list, k) < U64 && PageOf(PrevEnd(list, k)) == PrevEnd(list, k)
    ensures forall i :: 0 <= i < k ==> list[i].base + list[i].size <= PrevEnd(list, k)
  {
  }

  lemma AtGap(list: seq<DriverRegion>, k: nat)
    requires Sorted(list) && k < |list| && PrevEnd(list, k) < list[k].base
    ensures QueryAt(list, PrevEnd(list, k)) == Some(Gap(PrevEnd(list, k), list[k]))
  {
    PrevEndAligned(list, k);
    FirstAboveIs(list, PrevEnd(list, k), k);
  }

  lemma AtTop(list: seq<DriverRegion>)
    requires Sorted(list)
    ensures QueryAt(list, PrevEnd(list, |list|)) == None
  {
    PrevEndAligned(list, |list|);
  }

  /** What a walk needs to know about the queries at region k. */
  ghost predicate ServesAt(list: seq<DriverRegion>, q: nat -> Option<Answer>, k: nat)
    requires k < |list|
  {
    && list[k].size > 0 && PrevEnd(list, k) <= list[k].base
    && q(list[k].base) == Some(Whole(list[k]))
    && (PrevEnd(list, k) < list[k].base ==> q(PrevEnd(list, k)) == Some(Gap(PrevEnd(list, k), list[k])))
  }

  ghost predicate Serves(list: seq<DriverRegion>, q: nat -> Option<Answer>) {
    && (forall k :: 0 <= k < |list| ==> ServesAt(list, q, k))
    && q(PrevEnd(list, |list|)) == None
  }

  /** The queries over a sorted list. */
  function Queries(list: seq<DriverRegion>): nat -> Option<Answer> {
    (a: nat) => QueryAt(list, a)
  }

  lemma QueriesServe(list: seq<DriverRegion>)
    requires Sorted(list)
    ensures Serves(list, Queries(list))
  {
    forall k | 0 <= k < |list|
      ensures ServesAt(list, Queries(list), k)
    {
      AtBase(list, k);
      PrevEndAligned(list, k);
      if PrevEnd(list, k) < list[k].base {
        AtGap(list, k);
      }
    }
    AtTop(list);
  }

  /** Where a walk from 0 asks next, after i answers. */
  function At(t: seq<Answer>, i: nat): nat
    requires i <= |t|
  {
    if i == 0 then 0 else t[i - 1].base + t[i - 1].size
  }

  /** t are the answers of a client that starts at 0 and goes on at the end of each answer. */
  ghost predicate IsWalk(q: nat -> Option<Answer>, t: seq<Answer>) {
    forall i {:trigger At(t, i)} :: 0 <= i < |t| ==> q(At(t, i)) == Some(t[i])
  }

  /** Some answer before number i gave region r in full. */
  ghost predicate Seen(t: seq<Answer>, i: nat, r: DriverRegion)
    requires i <= |t|
  {
    exists j :: 0 <= j < i && t[j] == Whole(r)
  }

  /** A walk is never inside a region: it has passed the first n regions and stands before or at region n. */
  ghost predicate Stands(list: seq<DriverRegion>, t: seq<Answer>, i: nat, n: nat)
    requires i <= |t|
  {
    && n <= |list|
    && (At(t, i) == PrevEnd(list, n) || (n < |list| && At(t, i) == list[n].base))
    && i <= 2 * n + (if n < |list| && At(t, i) == list[n].base then 1 else 0)
    && forall k :: 0 <= k < n ==> Seen(t, i, list[k])
  }

  /** One answer moves the walk from before region n to region n, or from region n past it. */
  lemma StandsNext(list: seq<DriverRegion>, q: nat -> Option<Answer>, t: seq<Answer>, i: nat, n: nat) returns (m: nat)
    requires Serves(list, q) && IsWalk(q, t) && i < |t| && Stands(list, t, i, n)
    ensures n < |list| && Stands(list, t, i + 1, m)
    ensures t[i] == Whole(list[n]) || (At(t, i) == PrevEnd(list, n) < list[n].base && t[i] == Gap(At(t, i), list[n]))
  {
    assert q(At(t, i)) == Some(t[i]);
    assert n < |list| ==> ServesAt(list, q, n);
    m := if At(t, i) == list[n].base then n + 1 else n;
    forall k | 0 <= k < m
      ensures Seen(t, i + 1, list[k])
    {
      assert k < n ==> Seen(t, i, list[k]);
    }
  }

  lemma {:induction false} WalkStands(
    list: seq<DriverRegion>, q: nat -> Option<Answer>, t: seq<Answer>, i: nat)
    returns (n: nat)
    requires Serves(list, q) && IsWalk(q, t) && i <= |t|
    ensures Stands(list, t, i, n)
  {
    n := 0;
    if i > 0 {
      n := WalkStands(list, q, t, i - 1);
      n := StandsNext(list, q, t, i - 1, n);
    }
  }

  /** A walk has at most two answers for each region, so it ends. */
  lemma WalkEnds(list: seq<DriverRegion>, t: seq<Answer>)
    requires Sorted(list) && IsWalk(Queries(list), t)
    ensures |t| <= 2 * |list|
  {
    QueriesServe(list);
    var _ := WalkStands(list, Queries(list), t, |t|);
  }

  /** Number n says which region answer i is, or which region it is the gap in front of. */
  ghost predicate IsTile(list: seq<DriverRegion>, t: seq<Answer>, i: nat, n: nat)
    requires i < |t|
  {
    && n < |list|
    && (t[i] == Whole(list[n]) || (At(t, i) == PrevEnd(list, n) < list[n].base && t[i] == Gap(At(t, i), list[n])))
  }

  /** Answers follow each other without hole or overlap, and each is a whole region or the gap in front of one. */
  lemma WalkTiles(list: seq<DriverRegion>, t: seq<Answer>, i: nat)
    requires Sorted(list) && IsWalk(Queries(list), t) && i < |t|
    ensures t[i].base == At(t, i) && t[i].size > 0
    ensures exists n: nat :: IsTile(list, t, i, n)
  {
    QueriesServe(list);
    var n := WalkStands(list, Queries(list), t, i);
    var _ := StandsNext(list, Queries(list), t, i, n);
    assert ServesAt(list, Queries(list), n);
    assert IsTile(list, t, i, n);
  }

  /** A walk that finds nothing more has reached the end of the last region and has returned every region. */
  lemma WalkIsComplete(list: seq<DriverRegion>, t: seq<Answer>, k: nat)
    requires Sorted(list) && IsWalk(Queries(list), t) && QueryAt(list, At(t, |t|)) == None
    ensures At(t, |t|) == PrevEnd(list, |list|)
    ensures k < |list| ==> exists i :: 0 <= i < |t| && t[i] == Whole(list[k])
  {
    QueriesServe(list);
    var q := Queries(list);
    assert q(At(t, |t|)) == None;
    var n := WalkStands(list, q, t, |t|);
    assert n < |list| ==> ServesAt(list, q, n);
    assert k < |list| ==> Seen(t, |t|, list[k]);
  }

  /** No two answers start at the same address, so no region is returned twice. */
  lemma {:induction false} WalkAscends(list: seq<DriverRegion>, t: seq<Answer>, i: nat, j: nat)
    requires Sorted(list) && IsWalk(Queries(list), t) && i < j < |t|
    ensures t[i].base < t[j].base
  {
    var before := t[j - 1].base;
    assert t[j].base == before + t[j - 1].size && t[j - 1].size > 0 by {
      WalkTiles(list, t, j - 1);
      WalkTiles(list, t, j);
    }
    if i < j - 1 {
      WalkAscends(list, t, i, j - 1);
    }
  }
}
