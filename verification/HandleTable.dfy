/**
 The handle table of CEServer/porthelp.cpp and the objects behind the handles, as OpenProcess, the snapshots
 and CloseHandle of CEServer/api.cpp use them.
 */
module HandleTable {
  import opened Options

  type Obj = nat  // an allocated object; numbers are given out in order and never again

  datatype Object = OpenProcess(pid: int) | ProcessList | ModuleList | ThreadList

  /** HANDLE_INFO: the object, and the type that CloseHandle goes by. */
  datatype HandleType = HtProcess | HtSnapProcess | HtSnapModule | HtSnapThread
  datatype Info = Info(p: Obj, kind: HandleType)

  datatype State = State(handles: map<int, Info>, heap: map<Obj, Object>, next: Obj, freed: seq<Obj>)

  const LOWEST := 10000
  const HIGHEST := 4304967

  function KindOf(o: Object): HandleType {
    match o
    case OpenProcess(_) => HtProcess
    case ProcessList => HtSnapProcess
    case ModuleList => HtSnapModule
    case ThreadList => HtSnapThread
  }

  /** h is a handle of the open process pid. */
  predicate IsProcess(s: State, h: int, pid: int) {
    && h in s.handles && s.handles[h].kind == HtProcess
    && s.handles[h].p in s.heap && s.heap[s.handles[h].p] == OpenProcess(pid)
  }

  /** A call with its result; 0 means that it gave no handle. */
  datatype Event =
    | Opened(pid: int, h: int)
    | Snapped(o: Object, h: int)
    | Refused(pid: int)           // a snapshot or open that returns 0
    | Closed(h: int)

  ghost predicate Unused(s: State, h: int) {
    LOWEST <= h <= HIGHEST && h !in s.handles
  }

  ghost predicate Enabled(s: State, e: Event) {
    match e
    case Opened(pid, h) => IsProcess(s, h, pid) || (pid != 0 && Unused(s, h) && forall g :: !IsProcess(s, g, pid))
    case Snapped(o, h) => !o.OpenProcess? && Unused(s, h)
    case Refused(_) => true
    case Closed(_) => true
  }

  /** Allocate an object and give out a handle for it. */
  function Create(s: State, o: Object, h: int): State {
    State(s.handles[h := Info(s.next, KindOf(o))], s.heap[s.next := o], s.next + 1, s.freed)
  }

  ghost function Apply(s: State, e: Event): State
    requires Enabled(s, e)
  {
    match e
    case Opened(pid, h) => if IsProcess(s, h, pid) then s else Create(s, OpenProcess(pid), h)
    case Snapped(o, h) => Create(s, o, h)
    case Refused(_) => s
    case Closed(h) =>
      if h !in s.handles then s
      else State(s.handles - {h}, s.heap - {s.handles[h].p}, s.next, s.freed + [s.handles[h].p])
  }

  /** Every live handle owns a live object of its type, and no object is shared. */
  ghost predicate HandlesOwn(s: State) {
    && (forall h :: h in s.handles ==>
          LOWEST <= h <= HIGHEST && s.handles[h].p in s.heap && KindOf(s.heap[s.handles[h].p]) == s.handles[h].kind)
    && (forall g, h :: g in s.handles && h in s.handles && g != h ==> s.handles[g].p != s.handles[h].p)
  }

  ghost predicate OwnedBySome(s: State, p: Obj) {
    exists h :: h in s.handles && s.handles[h].p == p
  }

  /** Every object that was ever allocated is either live and owned, or freed exactly once. */
  ghost predicate ObjectsAccounted(s: State) {
    && (forall p :: p in s.heap ==> p < s.next && OwnedBySome(s, p))
    && (forall i :: 0 <= i < |s.freed| ==> s.freed[i] < s.next && s.freed[i] !in s.heap)
    && (forall i, j :: 0 <= i < j < |s.freed| ==> s.freed[i] != s.freed[j])
    && (forall p :: 0 <= p < s.next ==> p in s.heap || p in s.freed)
  }

  ghost predicate OneHandlePerProcess(s: State) {
    forall g, h, pid :: IsProcess(s, g, pid) && IsProcess(s, h, pid) ==> g == h
  }

  ghost predicate Inv(s: State) {
    HandlesOwn(s) && ObjectsAccounted(s) && OneHandlePerProcess(s)
  }

  lemma CreateKeepsProcesses(s: State, o: Object, h: int)
    requires Inv(s) && Unused(s, h)
    requires o.OpenProcess? ==> forall g :: !IsProcess(s, g, o.pid)
    ensures OneHandlePerProcess(Create(s, o, h))
  {
    var s' := Create(s, o, h);
    forall g, pid | IsProcess(s', g, pid)
      ensures IsProcess(s, g, pid) || (g == h && o == OpenProcess(pid))
    {
    }
  }

  lemma CreateKeepsInv(s: State, o: Object, h: int)
    requires Inv(s) && Unused(s, h)
    requires o.OpenProcess? ==> forall g :: !IsProcess(s, g, o.pid)
    ensures Inv(Create(s, o, h))
  {
    var s' := Create(s, o, h);
    CreateKeepsProcesses(s, o, h);
    forall p | p in s'.heap
      ensures OwnedBySome(s', p)
    {
      if p == s.next {
        assert s'.handles[h].p == p;
      } else {
        var g :| g in s.handles && s.handles[g].p == p;
        assert s'.handles[g].p == p;
      }
    }
  }

  lemma CloseKeepsHandles(s: State, h: int)
    requires Inv(s) && h in s.handles
    ensures HandlesOwn(Apply(s, Closed(h))) && OneHandlePerProcess(Apply(s, Closed(h)))
  {
    var s' := Apply(s, Closed(h));
    assert forall g, pid :: IsProcess(s', g, pid) ==> IsProcess(s, g, pid);
  }

  lemma CloseKeepsOwners(s: State, h: int)
    requires Inv(s) && h in s.handles
    ensures var s' := Apply(s, Closed(h)); forall p :: p in s'.heap ==> p < s'.next && OwnedBySome(s', p)
  {
    var s' := Apply(s, Closed(h));
    forall p | p in s'.heap
      ensures OwnedBySome(s', p)
    {
      var g :| g in s.handles && s.handles[g].p == p;
      assert g in s'.handles;
    }
  }

  lemma CloseKeepsFreed(s: State, h: int)
    requires Inv(s) && h in s.handles
    ensures var s' := Apply(s, Closed(h));
      && (forall i :: 0 <= i < |s'.freed| ==> s'.freed[i] < s'.next && s'.freed[i] !in s'.heap)
      && (forall i, j :: 0 <= i < j < |s'.freed| ==> s'.freed[i] != s'.freed[j])
      && (forall p :: 0 <= p < s'.next ==> p in s'.heap || p in s'.freed)
  {
    var s', q := Apply(s, Closed(h)), s.handles[h].p;
    assert s'.freed[|s.freed|] == q;
    assert forall p :: p in s.freed ==> p in s'.freed;
  }

  lemma CloseKeepsInv(s: State, h: int)
    requires Inv(s) && h in s.handles
    ensures Inv(Apply(s, Closed(h)))
  {
    CloseKeepsHandles(s, h);
    CloseKeepsOwners(s, h);
    CloseKeepsFreed(s, h);
  }

  lemma StepKeepsInv(s: State, e: Event)
    requires Inv(s) && Enabled(s, e)
    ensures Inv(Apply(s, e))
  {
    match e
    case Opened(pid, h) => if !IsProcess(s, h, pid) { CreateKeepsInv(s, OpenProcess(pid), h); }
    case Snapped(o, h) => CreateKeepsInv(s, o, h);
    case Refused(_) =>
    case Closed(h) => if h in s.handles { CloseKeepsInv(s, h); }
  }

  function Init(): State {
    State(map[], map[], 0, [])
  }

  /** The state after a sequence of calls, if each had a result the code could give. */
  ghost function Run(es: seq<Event>, n: nat): Option<State>
    requires n <= |es|
  {
    if n == 0 then Some(Init())
    else
      var before := Run(es, n - 1);
      if before.Some? && Enabled(before.value, es[n - 1]) then Some(Apply(before.value, es[n - 1])) else None
  }

  /** Over every run: handles distinct and in range, one per process, each object owned once or freed once. */
  lemma {:induction false} RunsKeepInv(es: seq<Event>, n: nat) returns (s: State)
    requires n <= |es| && Run(es, n).Some?
    ensures Run(es, n) == Some(s) && Inv(s)
  {
    if n == 0 {
      s := Init();
    } else {
      var before := RunsKeepInv(es, n - 1);
      StepKeepsInv(before, es[n - 1]);
      s := Apply(before, es[n - 1]);
    }
  }

  /**
   CloseHandle deletes the object as what the type of its handle says. In every run it is of that type, so the
   right destructor runs.
   */
  lemma TypesAgree(es: seq<Event>, n: nat, h: int) returns (s: State)
    requires n <= |es| && Run(es, n).Some? && h in Run(es, n).value.handles
    ensures Run(es, n) == Some(s) && s.handles[h].p in s.heap
    ensures var o := s.heap[s.handles[h].p];
      match s.handles[h].kind
      case HtProcess => o.OpenProcess?
      case HtSnapProcess => o.ProcessList?
      case HtSnapModule => o.ModuleList?
      case HtSnapThread => o.ThreadList?
  {
    s := RunsKeepInv(es, n);
  }

  /** What was opened and not closed since is still that process. */
  lemma {:induction false} HandleStays(es: seq<Event>, i: nat, n: nat) returns (s: State)
    requires i < n <= |es| && Run(es, n).Some? && es[i].Opened?
    requires forall j :: i < j < n ==> es[j] != Closed(es[i].h)
    ensures Run(es, n) == Some(s) && IsProcess(s, es[i].h, es[i].pid)
    decreases n
  {
    var before := RunsKeepInv(es, n - 1);
    s := Apply(before, es[n - 1]);
    if i < n - 1 {
      before := HandleStays(es, i, n - 1);
    }
  }

  /** OpenProcess is idempotent: opening again before the close gives the same handle and changes nothing. */
  lemma OpenIsIdempotent(es: seq<Event>, i: nat, n: nat)
    requires i < n < |es| && Run(es, n + 1).Some?
    requires es[i].Opened? && es[n].Opened? && es[n].pid == es[i].pid
    requires forall j :: i < j < n ==> es[j] != Closed(es[i].h)
    ensures es[n].h == es[i].h && Run(es, n + 1) == Run(es, n)
  {
    var s := HandleStays(es, i, n);
    var t := RunsKeepInv(es, n);
    assert IsProcess(s, es[i].h, es[i].pid);
    assert IsProcess(s, es[n].h, es[n].pid);
  }

  lemma NotEmpty(s: set<int>)
    requires s != {}
    ensures exists h :: h in s
  {
    assert (forall h :: h !in s) ==> s == {};
  }

  /** m_HandlePointList and the allocator. Dereferences are map lookups, so a dangling one would not verify. */
  class Server {
    var list: map<int, Info>
    var heap: map<Obj, Object>
    var next: Obj
    ghost var freed: seq<Obj>

    ghost function St(): State
      reads this
    {
      State(list, heap, next, freed)
    }

    constructor ()
      ensures St() == Init()
    {
      list, heap, next, freed := map[], map[], 0, [];
    }

    method FindHandleByPID(pid: int) returns (h: int)
      requires Inv(St())
      ensures h == 0 ==> forall g :: !IsProcess(St(), g, pid)
      ensures h != 0 ==> IsProcess(St(), h, pid)
    {
      var rest: set<int> := list.Keys;
      while rest != {}
        invariant rest <= list.Keys
        invariant forall g :: g in list && g !in rest ==> !IsProcess(St(), g, pid)
        decreases |rest|
      {
        NotEmpty(rest);
        var item :| item in rest;
        if list[item].kind == HtProcess && heap[list[item].p].pid == pid {
          return item;
        }
        rest := rest - {item};
      }
      return 0;
    }

    /** CreateHandleFromPointer: draws of a 32-bit random number until the handle is unused. */
    method CreateHandleFromPointer(p: Obj, kind: HandleType, draws: seq<nat>) returns (handle: int)
      requires (forall i :: 0 <= i < |draws| ==> draws[i] < 0x1_0000_0000)
      requires exists i :: 0 <= i < |draws| && 10000 + draws[i] / 1000 !in list
      modifies this`list
      ensures LOWEST <= handle <= HIGHEST && handle !in old(list)
      ensures exists i :: (
        && 0 <= i < |draws| && handle == 10000 + draws[i] / 1000
        && forall j :: 0 <= j < i ==> 10000 + draws[j] / 1000 in old(list))
      ensures list == old(list)[handle := Info(p, kind)]
    {
      var i := 0;
      handle := 10000 + draws[i] / 1000;
      while handle in list
        invariant i < |draws| && handle == 10000 + draws[i] / 1000 && list == old(list)
        invariant forall j :: 0 <= j < i ==> 10000 + draws[j] / 1000 in list
        decreases |draws| - i
      {
        i := i + 1;
        handle := 10000 + draws[i] / 1000;
      }
      list := list[handle := Info(p, kind)];
    }

    /** Allocate an object and publish it under a fresh handle. */
    method Publish(o: Object, draws: seq<nat>) returns (h: int)
      requires (forall i :: 0 <= i < |draws| ==> draws[i] < 0x1_0000_0000)
      requires exists i :: 0 <= i < |draws| && 10000 + draws[i] / 1000 !in list
      modifies this
      ensures Unused(old(St()), h) && St() == Create(old(St()), o, h)
    {
      var p := next;
      heap, next := heap[p := o], next + 1;
      h := CreateHandleFromPointer(p, KindOf(o), draws);
    }

    /** OpenProcess; the driver refuses pid 0 only. */
    method Open(pid: int, draws: seq<nat>) returns (h: int)
      requires Inv(St())
      requires (forall i :: 0 <= i < |draws| ==> draws[i] < 0x1_0000_0000)
      requires exists i :: 0 <= i < |draws| && 10000 + draws[i] / 1000 !in list
      modifies this
      ensures h == 0 ==> pid == 0 && St() == old(St())
      ensures h != 0 ==> Enabled(old(St()), Opened(pid, h)) && St() == Apply(old(St()), Opened(pid, h))
      ensures Inv(St())
    {
      ghost var before := St();
      var hm := FindHandleByPID(pid);
      if hm != 0 {
        return hm;
      }
      if pid == 0 {
        return 0;
      }
      h := Publish(OpenProcess(pid), draws);
      CreateKeepsInv(before, OpenProcess(pid), h);
    }

    /** CreateToolhelp32Snapshot of the modules: only for an open process whose memory map can be read. */
    method SnapshotModules(pid: int, mapEmpty: bool, draws: seq<nat>) returns (h: int)
      requires Inv(St())
      requires (forall i :: 0 <= i < |draws| ==> draws[i] < 0x1_0000_0000)
      requires exists i :: 0 <= i < |draws| && 10000 + draws[i] / 1000 !in list
      modifies this
      ensures h == 0 <==> mapEmpty || forall g :: !IsProcess(old(St()), g, pid)
      ensures h == 0 ==> St() == old(St())
      ensures h != 0 ==> Enabled(old(St()), Snapped(ModuleList, h)) && St() == Apply(old(St()), Snapped(ModuleList, h))
      ensures Inv(St())
    {
      ghost var before := St();
      var hm := FindHandleByPID(pid);
      assert St() == before;
      if hm == 0 || mapEmpty {
        return 0;
      }
      h := Publish(ModuleList, draws);
      CreateKeepsInv(before, ModuleList, h);
    }

    /** CreateToolhelp32Snapshot of processes, or of threads when their directory can be opened. */
    method SnapshotList(o: Object, draws: seq<nat>) returns (h: int)
      requires Inv(St()) && (o == ProcessList || o == ThreadList)
      requires (forall i :: 0 <= i < |draws| ==> draws[i] < 0x1_0000_0000)
      requires exists i :: 0 <= i < |draws| && 10000 + draws[i] / 1000 !in list
      modifies this
      ensures Enabled(old(St()), Snapped(o, h)) && St() == Apply(old(St()), Snapped(o, h)) && Inv(St())
    {
      ghost var before := St();
      h := Publish(o, draws);
      CreateKeepsInv(before, o, h);
    }

    /** CloseHandle: free the object by the type of its handle, then drop the handle; other handles are ignored. */
    method CloseHandle(h: int)
      requires Inv(St())
      modifies this
      ensures St() == Apply(old(St()), Closed(h)) && Inv(St())
    {
      StepKeepsInv(St(), Closed(h));
      if h in list {
        var p := list[h].p;
        freed := freed + [p];
        heap := heap - {p};
        list := list - {h};
      }
    }
  }
}
