/**
 Coalescing residency flags into runs of pages: the loops of get_mem_map in librwmem/src/lib.rs and of
 _rwProcMemDriver_VirtualQueryExFull in CEServer/MemoryReaderWriter37.hpp.
 */
module Runs {
  import opened Bytes
  import opened PhysMem
  import opened Residency

  /** Pages lo up to hi. */
  datatype Run = Run(lo: nat, hi: nat)

  ghost predicate Covered(runs: seq<Run>, k: nat) {
    exists i :: 0 <= i < |runs| && runs[i].lo <= k < runs[i].hi
  }

  /** What the runs of the first n flags are: non-empty, apart from each other, and covering exactly the true flags. */
  ghost predicate AreRuns(flags: seq<bool>, n: nat, runs: seq<Run>)
    requires n <= |flags|
  {
    && (forall i :: 0 <= i < |runs| ==> runs[i].lo < runs[i].hi <= n)
    && (forall i, j :: 0 <= i < j < |runs| ==> runs[i].hi < runs[j].lo)
    && (forall k :: 0 <= k < n ==> (flags[k] <==> Covered(runs, k)))
  }

  /** The runs after one more flag, the one at position n. */
  function Extend(r: seq<Run>, flag: bool, n: nat): seq<Run> {
    if !flag then r
    else if r != [] && r[|r| - 1].hi == n then r[..|r| - 1] + [Run(r[|r| - 1].lo, n + 1)]
    else r + [Run(n, n + 1)]
  }

  /** The runs of the first n flags, built flag by flag. */
  function RunsUpTo(flags: seq<bool>, n: nat): seq<Run>
    requires n <= |flags|
  {
    if n == 0 then [] else Extend(RunsUpTo(flags, n - 1), flags[n - 1], n - 1)
  }

  function RunsOf(flags: seq<bool>): seq<Run> {
    RunsUpTo(flags, |flags|)
  }

  lemma AddRun(flags: seq<bool>, n: nat, r: seq<Run>)
    requires n < |flags| && flags[n] && AreRuns(flags, n, r) && (r != [] ==> r[|r| - 1].hi < n)
    ensures AreRuns(flags, n + 1, r + [Run(n, n + 1)])
  {
    var s := r + [Run(n, n + 1)];
    forall k | 0 <= k < n + 1
      ensures flags[k] <==> Covered(s, k)
    {
      assert s[|r|] == Run(n, n + 1);
      assert k < n ==> (Covered(s, k) <==> Covered(r, k)) by {
        assert forall i :: 0 <= i < |r| ==> s[i] == r[i];
      }
    }
  }

  lemma GrowRun(flags: seq<bool>, n: nat, r: seq<Run>)
    requires n < |flags| && flags[n] && AreRuns(flags, n, r) && r != [] && r[|r| - 1].hi == n
    ensures AreRuns(flags, n + 1, r[..|r| - 1] + [Run(r[|r| - 1].lo, n + 1)])
  {
    var m := |r| - 1;
    var s := r[..m] + [Run(r[m].lo, n + 1)];
    forall k | 0 <= k < n + 1
      ensures flags[k] <==> Covered(s, k)
    {
      assert s[m] == Run(r[m].lo, n + 1);
      assert k < n ==> (Covered(s, k) <==> Covered(r, k)) by {
        assert forall i :: 0 <= i < m ==> s[i] == r[i];
      }
    }
  }

  lemma SkipRun(flags: seq<bool>, n: nat, r: seq<Run>)
    requires n < |flags| && !flags[n] && AreRuns(flags, n, r)
    ensures AreRuns(flags, n + 1, r)
  {
  }

  lemma ExtendKeepsRuns(flags: seq<bool>, n: nat, r: seq<Run>)
    requires n < |flags| && AreRuns(flags, n, r)
    ensures AreRuns(flags, n + 1, Extend(r, flags[n], n)) == true
  {
    if !flags[n] {
      SkipRun(flags, n, r);
    } else {
      if r != [] && r[|r| - 1].hi == n {
        GrowRun(flags, n, r);
      } else {
        AddRun(flags, n, r);
      }
    }
  }

  lemma NextRuns(flags: seq<bool>, n: nat, r: seq<Run>) returns (s: seq<Run>)
    requires n < |flags| && r == RunsUpTo(flags, n) && AreRuns(flags, n, r)
    ensures s == RunsUpTo(flags, n + 1)
    ensures AreRuns(flags, n + 1, s) == true  // compared, to keep it folded
  {
    s := Extend(r, flags[n], n);
    ExtendKeepsRuns(flags, n, r);
  }

  lemma {:induction false} BuildRuns(flags: seq<bool>, n: nat) returns (r: seq<Run>)
    requires n <= |flags|
    ensures r == RunsUpTo(flags, n)
    ensures AreRuns(flags, n, r) == true  // compared, to keep it folded
  {
    if n == 0 {
      r := [];
    } else {
      var m: nat := n - 1;
      var before := BuildRuns(flags, m);
      r := NextRuns(flags, m, before);
    }
  }

  /** Expanding the runs gives the flags back. */
  lemma RunsOfAreRuns(flags: seq<bool>)
    ensures AreRuns(flags, |flags|, RunsOf(flags))
  {
    var _ := BuildRuns(flags, |flags|);
  }

  /** If two descriptions agree on their first i runs, the next run of one does not start before that of the other. */
  lemma NextStart(flags: seq<bool>, n: nat, r: seq<Run>, s: seq<Run>, i: nat)
    requires n <= |flags| && AreRuns(flags, n, r) && AreRuns(flags, n, s)
    requires i < |r| && i <= |s| && forall j :: 0 <= j < i ==> r[j] == s[j]
    ensures i < |s| && s[i].lo <= r[i].lo
  {
    var k := r[i].lo;
    assert Covered(r, k);
    var j :| 0 <= j < |s| && s[j].lo <= k < s[j].hi;
    assert j >= i;
    assert i < j ==> s[i].hi < s[j].lo;
  }

  lemma NextEnd(flags: seq<bool>, n: nat, r: seq<Run>, s: seq<Run>, i: nat)
    requires n <= |flags| && AreRuns(flags, n, r) && AreRuns(flags, n, s)
    requires i < |r| && i < |s| && r[i].lo == s[i].lo
    ensures s[i].hi <= r[i].hi
  {
    var k := r[i].hi;
    if k < n {
      assert !Covered(r, k);
      assert !(s[i].lo <= k < s[i].hi);
    }
  }

  /** The description is unique. */
  lemma {:induction false} RunsAgree(flags: seq<bool>, n: nat, r: seq<Run>, s: seq<Run>, i: nat)
    requires n <= |flags| && AreRuns(flags, n, r) && AreRuns(flags, n, s) && i <= |r|
    ensures i <= |s| && forall j :: 0 <= j < i ==> r[j] == s[j]
  {
    if i > 0 {
      RunsAgree(flags, n, r, s, i - 1);
      NextStart(flags, n, r, s, i - 1);
      NextStart(flags, n, s, r, i - 1);
      NextEnd(flags, n, r, s, i - 1);
      NextEnd(flags, n, s, r, i - 1);
    }
  }

  lemma RunsAreUnique(flags: seq<bool>, n: nat, r: seq<Run>, s: seq<Run>)
    requires n <= |flags| && AreRuns(flags, n, r) && AreRuns(flags, n, s)
    ensures r == s
  {
    RunsAgree(flags, n, r, s, |r|);
    RunsAgree(flags, n, s, r, |s|);
  }

  /** The last run reaches position n exactly when the flag before n is true. */
  lemma {:induction false} LastRun(flags: seq<bool>, n: nat)
    requires n <= |flags|
    ensures var r := RunsUpTo(flags, n);
      && (r != [] ==> r[|r| - 1].hi <= n)
      && (r != [] && r[|r| - 1].hi == n <==> n > 0 && flags[n - 1])
  {
    if n > 0 {
      LastRun(flags, n - 1);
    }
  }

  /** An address range. */
  datatype Region = Region(start: nat, end: nat)

  function ToRegions(runs: seq<Run>, base: nat): (rs: seq<Region>)
    ensures |rs| == |runs|
    ensures forall i :: 0 <= i < |runs| ==> rs[i] == Region(base + runs[i].lo * PAGE, base + runs[i].hi * PAGE)
  {
    seq(|runs|, i requires 0 <= i < |runs| => Region(base + runs[i].lo * PAGE, base + runs[i].hi * PAGE))
  }

  /** The loop state of both clients after n flags: finished runs, and possibly an open one. */
  ghost predicate Scanned(flags: seq<bool>, n: nat, base: nat, out: seq<Region>, inRun: bool, begin: nat)
    requires n <= |flags|
  {
    && (inRun <==> n > 0 && flags[n - 1])
    && ToRegions(RunsUpTo(flags, n), base) == if inRun then out + [Region(begin, base + n * PAGE)] else out
  }

  lemma ScanGap(flags: seq<bool>, n: nat, base: nat, out: seq<Region>, inRun: bool, begin: nat)
    requires n < |flags| && !flags[n] && Scanned(flags, n, base, out, inRun, begin)
    ensures Scanned(flags, n + 1, base, if inRun then out + [Region(begin, base + n * PAGE)] else out, false, begin)
  {
  }

  lemma ScanStart(flags: seq<bool>, n: nat, base: nat, out: seq<Region>, begin: nat)
    requires n < |flags| && flags[n] && Scanned(flags, n, base, out, false, begin)
    ensures Scanned(flags, n + 1, base, out, true, base + n * PAGE)
  {
    LastRun(flags, n);
  }

  lemma ScanOn(flags: seq<bool>, n: nat, base: nat, out: seq<Region>, begin: nat)
    requires n < |flags| && flags[n] && Scanned(flags, n, base, out, true, begin)
    ensures Scanned(flags, n + 1, base, out, true, begin)
  {
    LastRun(flags, n);
    var r, t := RunsUpTo(flags, n), ToRegions(RunsUpTo(flags, n + 1), base);
    assert |r| == |out| + 1;
    assert ToRegions(r, base)[|out|] == Region(begin, base + n * PAGE);
    assert forall i :: 0 <= i < |out| ==> t[i] == ToRegions(r, base)[i] == out[i];
  }

  lemma ScanOne(flags: seq<bool>, n: nat, base: nat, out: seq<Region>, inRun: bool, begin: nat)
    requires n < |flags| && Scanned(flags, n, base, out, inRun, begin)
    ensures var at := base + n * PAGE;
      if flags[n] then Scanned(flags, n + 1, base, out, true, if inRun then begin else at)
      else Scanned(flags, n + 1, base, if inRun then out + [Region(begin, at)] else out, false, begin)
  {
    if !flags[n] {
      ScanGap(flags, n, base, out, inRun, begin);
    } else if inRun {
      ScanOn(flags, n, base, out, begin);
    } else {
      ScanStart(flags, n, base, out, begin);
    }
  }

  /** get_mem_map, the loop over is_mem_phy for one area: page numbers times 0x1000, and a tail up to end. */
  method CoalesceRust(start: nat, end: nat, flags: seq<bool>) returns (out: seq<Region>)
    requires end == start + |flags| * PAGE
    ensures out == ToRegions(RunsOf(flags), start)
  {
    out := [];
    var isLast, begin: nat := false, 0;
    for i := 0 to |flags|
      invariant Scanned(flags, i, start, out, isLast, begin)
    {
      ScanOne(flags, i, start, out, isLast, begin);
      if flags[i] {
        if !isLast {
          begin := start + i * 0x1000;
          isLast := true;
        }
      } else if isLast {
        out := out + [Region(begin, start + i * 0x1000)];
        isLast := false;
      }
    }
    if isLast {
      out := out + [Region(begin, end)];
    }
  }

  /** The loop of _rwProcMemDriver_VirtualQueryExFull for one area, over addresses and packed bits. */
  method CoalesceCpp(start: nat, end: nat, packed: seq<byte>, ghost flags: seq<bool>) returns (out: seq<Region>)
    requires end == start + |flags| * PAGE && |flags| <= 8 * |packed|
    requires forall k :: 0 <= k < |flags| ==> BitAt(packed, k) == flags[k]
    ensures out == ToRegions(RunsOf(flags), start)
  {
    out := [];
    var isPhyRegion, base: nat := false, 0;
    var addr: nat, i: nat := start, 0;
    while addr < end
      invariant i <= |flags| && addr == start + i * PAGE
      invariant Scanned(flags, i, start, out, isPhyRegion, base)
    {
      ScanOne(flags, i, start, out, isPhyRegion, base);
      if BitAt(packed, i) {
        if !isPhyRegion {
          isPhyRegion := true;
          base := addr;
        }
      } else if isPhyRegion {
        isPhyRegion := false;
        out := out + [Region(base, addr)];
      }
      addr, i := addr + PAGE, i + 1;
    }
    if isPhyRegion {
      out := out + [Region(base, end)];
    }
  }
}
