/**
 The module list of a process: the aggregation loop of CreateToolhelp32Snapshot in CEServer/api.cpp.
 */
module Modules {
  import opened Bytes
  import opened ProcMaps
  import opened RemoteMemory
  import opened MapRecords
  import opened MapParse

  /** ModuleListEntry; the size is a C int. */
  datatype Module = Module(base: nat, size: int, name: seq<byte>)

  /** Square brackets become underscores, except in the name of the vdso. */
  function Sanitize(name: seq<byte>): seq<byte> {
    if name == VDSO then name
    else seq(|name|, i requires 0 <= i < |name| => if name[i] == 0x5b || name[i] == 0x5d then 0x5f else name[i])
  }

  /** Regions that can belong to a module. */
  predicate Eligible(r: DriverRegion) {
    r.protection != PAGE_NOACCESS && r.kind != MEM_MAPPED && r.name != [] && r.name != HEAP
  }

  /** The name of the vdso stays; any other name loses its brackets and nothing else. */
  lemma SanitizedName(name: seq<byte>)
    ensures name == Ascii("[vdso]") ==> Sanitize(name) == name
    ensures name != Ascii("[vdso]") ==>
      && |Sanitize(name)| == |name|
      && (forall i :: 0 <= i < |name| ==>
            Sanitize(name)[i] == if name[i] == '[' as int || name[i] == ']' as int then '_' as int else name[i])
  {
    assert VDSO == Ascii("[vdso]");
  }

  /** An area can belong to a module when it is accessible, private, named, and not the heap. */
  lemma EligibleArea(mm: Mm, v: Vma)
    ensures var r := RegionOf(EntryOf(mm, v));
      Eligible(r) <==>
        (v.read || v.write || v.exec) && !v.mayShare && NameOf(mm, v) != [] && NameOf(mm, v) != Ascii("[heap]")
  {
    ProtectionTells(v.read, v.write, v.exec);
    assert HEAP == Ascii("[heap]");
  }

  predicate Matches(r: DriverRegion, name: seq<byte>) {
    Eligible(r) && Sanitize(r.name) == name
  }

  /** The first module of that name from k on. */
  function IndexOf(mods: seq<Module>, name: seq<byte>, k: nat): (n: nat)
    requires k <= |mods|
    ensures k <= n <= |mods| && (n < |mods| ==> mods[n].name == name)
    ensures forall i :: k <= i < n ==> mods[i].name != name
    decreases |mods| - k
  {
    if k == |mods| || mods[k].name == name then k else IndexOf(mods, name, k + 1)
  }

  /** What one region does to the list; elf tells whether an ELF header can be read at an address. */
  function AddRegion(mods: seq<Module>, r: DriverRegion, elf: nat -> bool): seq<Module> {
    if !Eligible(r) then mods
    else
      var name := Sanitize(r.name);
      var k := IndexOf(mods, name, 0);
      if k < |mods| then mods[k := mods[k].(size := ToInt32((mods[k].size + r.size) % U64))]
      else if elf(r.base) then mods + [Module(r.base, ToInt32(r.size), name)]
      else mods
  }

  function AddRegions(regions: seq<DriverRegion>, n: nat, elf: nat -> bool): seq<Module>
    requires n <= |regions|
  {
    if n == 0 then [] else AddRegion(AddRegions(regions, n - 1, elf), regions[n - 1], elf)
  }

  /** The search loop: a match is replaced by inserting the new entry and erasing the old one behind it. */
  method Grow(mods: seq<Module>, name: seq<byte>, extra: nat) returns (isExist: bool, r: seq<Module>)
    ensures isExist <==> IndexOf(mods, name, 0) < |mods|
    ensures var k := IndexOf(mods, name, 0);
      r == if isExist then mods[k := mods[k].(size := ToInt32((mods[k].size + extra) % U64))] else mods
  {
    isExist, r := false, mods;
    var iter := 0;
    while iter < |r|
      invariant iter <= |r| && r == mods && !isExist
      invariant IndexOf(mods, name, 0) == IndexOf(mods, name, iter)
    {
      if r[iter].name == name {
        isExist := true;
        var newReplace := r[iter].(size := ToInt32((r[iter].size + extra) % U64));
        r := r[..iter] + [newReplace] + r[iter..];
        iter := iter + 1;
        r := r[..iter] + r[iter + 1..];
        break;
      }
      iter := iter + 1;
    }
  }

  method Aggregate(regions: seq<DriverRegion>, elf: nat -> bool) returns (mods: seq<Module>)
    ensures mods == AddRegions(regions, |regions|, elf)
    ensures exists f :: Describes(regions, elf, |regions|, mods, f)
  {
    mods := [];
    for i := 0 to |regions|
      invariant mods == AddRegions(regions, i, elf)
    {
      var r := regions[i];
      if r.protection == PAGE_NOACCESS || r.kind == MEM_MAPPED || r.name == [] || r.name == HEAP {
        continue;
      }
      var name := Sanitize(r.name);
      var isExist, grown := Grow(mods, name, r.size);
      if isExist {
        mods := grown;
      } else if elf(r.base) {
        mods := mods + [Module(r.base, ToInt32(r.size), name)];
      }
    }
    ghost var _, f := ModulesAreFounded(regions, elf, |regions|);
  }

  // ---------------------------------------------------------------------------------------------
  // What the list means
  // ---------------------------------------------------------------------------------------------

  /** The sizes of the regions of that name among numbers i up to n. */
  function Total(regions: seq<DriverRegion>, name: seq<byte>, i: nat, n: nat): nat
    requires i <= n <= |regions|
    decreases n
  {
    if i == n then 0
    else Total(regions, name, i, n - 1) + if Matches(regions[n - 1], name) then regions[n - 1].size else 0
  }

  /** Region i starts a module: it has an ELF header, and no region before it of the same name has one. */
  ghost predicate Founds(regions: seq<DriverRegion>, elf: nat -> bool, i: nat)
    requires i < |regions|
  {
    && Eligible(regions[i]) && elf(regions[i].base)
    && forall j :: 0 <= j < i ==> !(Matches(regions[j], Sanitize(regions[i].name)) && elf(regions[j].base))
  }

  /** Module k of the list after n regions was founded by region i. */
  ghost predicate FoundedBy(regions: seq<DriverRegion>, elf: nat -> bool, n: nat, m: Module, i: nat)
    requires n <= |regions|
  {
    && i < n && Founds(regions, elf, i)
    && m.name == Sanitize(regions[i].name) && m.base == regions[i].base
    && m.size == ToInt32(Total(regions, m.name, i, n))
  }

  /** The founders are in order, every module has its founder, and every ELF region of a name finds its module. */
  ghost predicate Describes(regions: seq<DriverRegion>, elf: nat -> bool, n: nat, mods: seq<Module>, f: seq<nat>)
    requires n <= |regions|
  {
    && |f| == |mods|
    && (forall k :: 0 <= k < |f| ==> FoundedBy(regions, elf, n, mods[k], f[k]))
    && (forall k, l :: 0 <= k < l < |f| ==> f[k] < f[l] && mods[k].name != mods[l].name)
    && (forall i :: 0 <= i < n && Eligible(regions[i]) && elf(regions[i].base) ==>
          HasModule(mods, Sanitize(regions[i].name)))
  }

  ghost predicate HasModule(mods: seq<Module>, name: seq<byte>) {
    exists k :: 0 <= k < |mods| && mods[k].name == name
  }

  lemma IndexOfModule(mods: seq<Module>, name: seq<byte>)
    ensures IndexOf(mods, name, 0) < |mods| <==> HasModule(mods, name)
  {
  }

  /** Adding in 64 bits and cutting to a C int is adding modulo 2^32. */
  lemma SizesAdd(total: nat, extra: nat)
    ensures ToInt32((ToInt32(total) + extra) % U64) == ToInt32(total + extra)
  {
  }

  /** Another region: the total of a founded name grows by it, if it is of that name. */
  lemma FounderStays(regions: seq<DriverRegion>, elf: nat -> bool, n: nat, m: Module, i: nat)
    requires n < |regions| && FoundedBy(regions, elf, n, m, i)
    ensures FoundedBy(regions, elf, n + 1,
      if Matches(regions[n], m.name) then m.(size := ToInt32((m.size + regions[n].size) % U64)) else m, i)
  {
    SizesAdd(Total(regions, m.name, i, n), regions[n].size);
  }

  lemma FoundersStay(
    regions: seq<DriverRegion>, elf: nat -> bool, n: nat, mods: seq<Module>, f: seq<nat>, k: nat, r: seq<Module>)
    requires n < |regions| && Describes(regions, elf, n, mods, f)
    requires Eligible(regions[n]) && k < |mods| && mods[k].name == Sanitize(regions[n].name)
    requires r == mods[k := mods[k].(size := ToInt32((mods[k].size + regions[n].size) % U64))]
    ensures forall l :: 0 <= l < |f| ==> FoundedBy(regions, elf, n + 1, r[l], f[l])
  {
    forall l | 0 <= l < |f|
      ensures FoundedBy(regions, elf, n + 1, r[l], f[l])
    {
      FounderStays(regions, elf, n, mods[l], f[l]);
      assert Matches(regions[n], mods[l].name) <==> l == k;
    }
  }

  /** The region grows module k. */
  lemma GrowKeeps(
    regions: seq<DriverRegion>, elf: nat -> bool, n: nat, mods: seq<Module>, f: seq<nat>, k: nat,
    r: seq<Module>)
    requires n < |regions| && Describes(regions, elf, n, mods, f)
    requires Eligible(regions[n]) && k < |mods| && mods[k].name == Sanitize(regions[n].name)
    requires r == mods[k := mods[k].(size := ToInt32((mods[k].size + regions[n].size) % U64))]
    ensures Describes(regions, elf, n + 1, r, f)
  {
    FoundersStay(regions, elf, n, mods, f, k, r);
    assert forall l :: 0 <= l < |mods| ==> r[l].name == mods[l].name;
    NamesStay(regions, elf, n, mods, k, r);
  }

  lemma NamesStay(regions: seq<DriverRegion>, elf: nat -> bool, n: nat, mods: seq<Module>, k: nat, r: seq<Module>)
    requires n < |regions| && |r| == |mods| && forall l :: 0 <= l < |mods| ==> r[l].name == mods[l].name
    requires k < |mods| && mods[k].name == Sanitize(regions[n].name)
    requires forall i :: 0 <= i < n && Eligible(regions[i]) && elf(regions[i].base) ==>
      HasModule(mods, Sanitize(regions[i].name))
    ensures forall i :: 0 <= i < n + 1 && Eligible(regions[i]) && elf(regions[i].base) ==>
      HasModule(r, Sanitize(regions[i].name))
  {
    forall i | 0 <= i < n + 1 && Eligible(regions[i]) && elf(regions[i].base)
      ensures HasModule(r, Sanitize(regions[i].name))
    {
      if i == n {
        assert r[k].name == Sanitize(regions[n].name);
      } else {
        assert HasModule(mods, Sanitize(regions[i].name));
      }
    }
  }

  /** The region leaves the list as it is. */
  lemma SkipKeeps(regions: seq<DriverRegion>, elf: nat -> bool, n: nat, mods: seq<Module>, f: seq<nat>)
    requires n < |regions| && Describes(regions, elf, n, mods, f)
    requires !Eligible(regions[n]) || (!elf(regions[n].base) && !HasModule(mods, Sanitize(regions[n].name)))
    ensures Describes(regions, elf, n + 1, mods, f)
  {
    forall l | 0 <= l < |f|
      ensures FoundedBy(regions, elf, n + 1, mods[l], f[l])
    {
      FounderStays(regions, elf, n, mods[l], f[l]);
    }
  }

  /** The region founds a module. */
  lemma FoundKeeps(
    regions: seq<DriverRegion>, elf: nat -> bool, n: nat, mods: seq<Module>, f: seq<nat>, r: seq<Module>,
    g: seq<nat>)
    requires n < |regions| && Describes(regions, elf, n, mods, f)
    requires Eligible(regions[n]) && elf(regions[n].base) && !HasModule(mods, Sanitize(regions[n].name))
    requires r == mods + [Module(regions[n].base, ToInt32(regions[n].size), Sanitize(regions[n].name))] && g == f + [n]
    ensures Describes(regions, elf, n + 1, r, g)
  {
    NewFounder(regions, elf, n, mods, r[|mods|]);
    forall l | 0 <= l < |f|
      ensures FoundedBy(regions, elf, n + 1, mods[l], f[l])
    {
      FounderStays(regions, elf, n, mods[l], f[l]);
    }
    NamesGrow(regions, elf, n, mods, r);
  }

  lemma NewFounder(regions: seq<DriverRegion>, elf: nat -> bool, n: nat, mods: seq<Module>, m: Module)
    requires n < |regions| && Eligible(regions[n]) && elf(regions[n].base)
    requires forall i :: 0 <= i < n && Eligible(regions[i]) && elf(regions[i].base) ==>
      HasModule(mods, Sanitize(regions[i].name))
    requires !HasModule(mods, Sanitize(regions[n].name))
    requires m == Module(regions[n].base, ToInt32(regions[n].size), Sanitize(regions[n].name))
    ensures FoundedBy(regions, elf, n + 1, m, n)
  {
    assert Total(regions, m.name, n, n + 1) == regions[n].size;
  }

  lemma NamesGrow(regions: seq<DriverRegion>, elf: nat -> bool, n: nat, mods: seq<Module>, r: seq<Module>)
    requires n < |regions| && |r| == |mods| + 1 && mods <= r && r[|mods|].name == Sanitize(regions[n].name)
    requires forall i :: 0 <= i < n && Eligible(regions[i]) && elf(regions[i].base) ==>
      HasModule(mods, Sanitize(regions[i].name))
    ensures forall i :: 0 <= i < n + 1 && Eligible(regions[i]) && elf(regions[i].base) ==>
      HasModule(r, Sanitize(regions[i].name))
  {
    forall i | 0 <= i < n + 1 && Eligible(regions[i]) && elf(regions[i].base)
      ensures HasModule(r, Sanitize(regions[i].name))
    {
      if i < n {
        assert HasModule(mods, Sanitize(regions[i].name));
        var k :| 0 <= k < |mods| && mods[k].name == Sanitize(regions[i].name);
        assert r[k].name == Sanitize(regions[i].name);
      }
    }
  }

  /** One region keeps the description. */
  lemma AddKeeps(regions: seq<DriverRegion>, elf: nat -> bool, n: nat, mods: seq<Module>, f: seq<nat>)
    returns (r: seq<Module>, g: seq<nat>)
    requires n < |regions| && Describes(regions, elf, n, mods, f)
    ensures r == AddRegion(mods, regions[n], elf) && Describes(regions, elf, n + 1, r, g)
  {
    var name := Sanitize(regions[n].name);
    var k := IndexOf(mods, name, 0);
    IndexOfModule(mods, name);
    r, g := mods, f;
    if !Eligible(regions[n]) {
      SkipKeeps(regions, elf, n, mods, f);
    } else if k < |mods| {
      r := mods[k := mods[k].(size := ToInt32((mods[k].size + regions[n].size) % U64))];
      GrowKeeps(regions, elf, n, mods, f, k, r);
    } else if elf(regions[n].base) {
      r, g := mods + [Module(regions[n].base, ToInt32(regions[n].size), name)], f + [n];
      FoundKeeps(regions, elf, n, mods, f, r, g);
    } else {
      SkipKeeps(regions, elf, n, mods, f);
    }
  }

  /**
   The module list of any region list: f gives the regions that founded the modules, in order. Names are
   unique, the base is that of the founder, and the size is the sum of the founder and all later eligible
   regions of the name, as a C int.
   */
  lemma ModulesAreFounded(regions: seq<DriverRegion>, elf: nat -> bool, n: nat)
    returns (mods: seq<Module>, f: seq<nat>)
    requires n <= |regions|
    ensures mods == AddRegions(regions, n, elf) && Describes(regions, elf, n, mods, f)
  {
    mods, f := MakeModules(regions, elf, n);
  }

  /** The list after n regions, with its founders. */
  ghost predicate IsMade(regions: seq<DriverRegion>, elf: nat -> bool, n: nat, mods: seq<Module>, f: seq<nat>)
    requires n <= |regions|
  {
    mods == AddRegions(regions, n, elf) && Describes(regions, elf, n, mods, f)
  }

  lemma MakeModules(regions: seq<DriverRegion>, elf: nat -> bool, n: nat)
    returns (mods: seq<Module>, f: seq<nat>)
    requires n <= |regions|
    ensures IsMade(regions, elf, n, mods, f) == true
  {
    mods, f := [], [];
    NothingIsMade(regions, elf);
    for i := 0 to n
      invariant IsMade(regions, elf, i, mods, f) == true  // compared, to keep it folded
    {
      mods, f := NextModules(regions, elf, i, mods, f);
    }
  }

  lemma NextModules(regions: seq<DriverRegion>, elf: nat -> bool, n: nat, mods: seq<Module>, f: seq<nat>)
    returns (r: seq<Module>, g: seq<nat>)
    requires n < |regions| && IsMade(regions, elf, n, mods, f) == true
    ensures IsMade(regions, elf, n + 1, r, g) == true
  {
    r, g := AddKeeps(regions, elf, n, mods, f);
    assert AddRegions(regions, n + 1, elf) == AddRegion(mods, regions[n], elf);
  }

  lemma NothingIsMade(regions: seq<DriverRegion>, elf: nat -> bool)
    ensures IsMade(regions, elf, 0, [], []) == true
  {
  }

  /** Conversely, every region that founds a module is the founder of exactly one entry. */
  lemma EveryFounderHasItsModule(
    regions: seq<DriverRegion>, elf: nat -> bool, n: nat, mods: seq<Module>, f: seq<nat>, i: nat)
    requires n <= |regions| && Describes(regions, elf, n, mods, f) && i < n && Founds(regions, elf, i)
    ensures exists k :: 0 <= k < |f| && f[k] == i
  {
    var name := Sanitize(regions[i].name);
    assert HasModule(mods, name);
    var k :| 0 <= k < |mods| && mods[k].name == name;
    assert FoundedBy(regions, elf, n, mods[k], f[k]);
    assert Matches(regions[f[k]], name) && elf(regions[f[k]].base);
    assert Matches(regions[i], name) && elf(regions[i].base);
  }

  /** A total that fits a C int is exact. */
  lemma SizeIsExact(total: nat)
    requires total < 0x8000_0000
    ensures ToInt32(total) == total
  {
  }
}
