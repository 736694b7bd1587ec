/**
 The stop / continue / step protocol of rwMem/bp.c as a transition system.

 Every lock-protected or atomic access in the C code is one event, and so are the checks of a call and the
 access to the registers behind them. A run (a sequence of events) is one interleaving of any number of
 target threads and client calls. Events carry the results the caller sees; Enabled fixes these to what the
 code would have returned.
 */
module BpProtocol {
  import opened Options

  type Tid = int  // pid_t
  type Fid = nat  // struct file*
  type Cid = nat  // one client call in flight

  /** struct rwmem_bp_private_data: the target and the three flags of one breakpoint handle. */
  datatype Handle = Handle(target: Tid, stopped: bool, cont: bool, poll: bool)

  /** Where a thread is inside bp_callback_after: the next statement it will execute. */
  datatype Pc =
    | User
    | AtMarkStopped(file: Fid)
    | AtRaisePoll(file: Fid)
    | AtWait(file: Fid)
    | AtDropPoll(file: Fid)
    | AtClearFlags(file: Fid)

  /** A thread: its position and its queued task works. */
  datatype Thread = Thread(pc: Pc, pending: seq<Fid>)

  /** struct step_list_entry. */
  datatype Entry = Entry(pid: Tid, file: Fid, removed: bool)

  /** A call that has passed its stopped check and has work left: a cont or step, or a register access. */
  datatype Call = ToPush(file: Fid) | ToContinue(file: Fid) | ToAccess(file: Fid)

  datatype State = State(
    files: map<Fid, Handle>,
    threads: map<Tid, Thread>,
    calls: map<Cid, Call>,
    steps: seq<Entry>)  // newest first: list_add inserts at the head

  datatype RegisterOp = ReadRegs(size: nat) | SetReg(id: nat) | SetSimdReg(id: nat)

  const EINVAL := 22

  datatype Event =
    | Open(f: Fid, t: Tid)
    | Hit(f: Fid)                            // bp_callback
    | StepTrap(t: Tid, found: bool)          // rwmem_bp_step_handler
    | Begin(f: Fid, k: nat)                  // task work number k is taken off the queue
    | MarkStopped(f: Fid)
    | RaisePoll(f: Fid)
    | Wake(f: Fid)                           // wait_event returns
    | DropPoll(f: Fid)
    | ClearFlags(f: Fid)
    | Poll(f: Fid, ready: bool)
    | CallRegister(c: Cid, f: Fid, op: RegisterOp, code: int)  // the checks of a register call
    | Access(c: Cid, f: Fid)                 // the registers are read or written
    | IsStopped(f: Fid, answer: bool)
    | CallCont(c: Cid, f: Fid, ok: bool)     // the stopped check of IOCTL_BP_CONTINUE
    | CallStep(c: Cid, f: Fid, ok: bool)     // the stopped check of IOCTL_BP_STEP
    | PushStep(c: Cid, f: Fid, t: Tid)
    | SetContinue(c: Cid, f: Fid)
    | Close(f: Fid)

  function Init(): State {
    State(map[], map[], map[], [])
  }

  function ThreadOf(s: State, t: Tid): Thread {
    if t in s.threads then s.threads[t] else Thread(User, [])
  }

  function TargetPc(s: State, f: Fid): Pc
    requires f in s.files
  {
    ThreadOf(s, s.files[f].target).pc
  }

  /** The index of the newest step entry of thread t, or |steps| when there is none. */
  function FindStep(steps: seq<Entry>, t: Tid): (k: nat)
    ensures k <= |steps|
    ensures k < |steps| ==> steps[k].pid == t
    ensures forall i :: 0 <= i < k ==> steps[i].pid != t
  {
    if steps == [] then 0
    else if steps[0].pid == t then 0
    else 1 + FindStep(steps[1..], t)
  }

  function RegisterCode(h: Handle, op: RegisterOp): int {
    if !h.stopped || !ValidOp(op) then -EINVAL else 0
  }

  /** sizeof(user_pt_regs) is 272; ids from 34 up are refused. */
  predicate ValidOp(op: RegisterOp) {
    match op
    case ReadRegs(size) => 272 <= size
    case SetReg(id) => id < 34
    case SetSimdReg(id) => id < 34
  }

  /** rwmem_bp_release marks the first entry of the file, and only that one. */
  function MarkRemoved(steps: seq<Entry>, f: Fid): seq<Entry> {
    if steps == [] then []
    else if steps[0].file == f then [steps[0].(removed := true)] + steps[1..]
    else [steps[0]] + MarkRemoved(steps[1..], f)
  }

  /** Nothing of the kernel or of a client is still working on f. */
  ghost predicate Idle(s: State, f: Fid) {
    && (forall t :: t in s.threads ==>
          f !in s.threads[t].pending && (s.threads[t].pc.User? || s.threads[t].pc.file != f))
    && (forall c :: c in s.calls ==> s.calls[c].file != f)
  }

  /** Of the step entries that name f, only the newest may still be live. */
  predicate OneLiveEntry(steps: seq<Entry>, f: Fid) {
    forall i, j :: 0 <= i < j < |steps| && steps[i].file == f && steps[j].file == f ==> steps[j].removed
  }

  ghost predicate Quiescent(s: State, f: Fid) {
    Idle(s, f) && OneLiveEntry(s.steps, f)
  }

  /** rwmem_bp_release: the step entry is marked, the record is freed. */
  function Closed(s: State, f: Fid): State {
    s.(files := s.files - {f}, steps := MarkRemoved(s.steps, f))
  }

  ghost predicate Enabled(s: State, e: Event) {
    match e
    case Open(f, t) => f !in s.files && forall i :: 0 <= i < |s.steps| ==> s.steps[i].file != f
    case Hit(f) => f in s.files && TargetPc(s, f) == User
    case StepTrap(t, found) => ThreadOf(s, t).pc == User && found == (FindStep(s.steps, t) < |s.steps|)
    case Begin(f, k) =>
      && f in s.files && TargetPc(s, f) == User
      && k < |ThreadOf(s, s.files[f].target).pending| && ThreadOf(s, s.files[f].target).pending[k] == f
    case MarkStopped(f) => f in s.files && TargetPc(s, f) == AtMarkStopped(f)
    case RaisePoll(f) => f in s.files && TargetPc(s, f) == AtRaisePoll(f)
    case Wake(f) => f in s.files && TargetPc(s, f) == AtWait(f) && s.files[f].cont
    case DropPoll(f) => f in s.files && TargetPc(s, f) == AtDropPoll(f)
    case ClearFlags(f) => f in s.files && TargetPc(s, f) == AtClearFlags(f)
    case Poll(f, ready) => f in s.files && ready == s.files[f].poll
    case CallRegister(c, f, op, code) => f in s.files && c !in s.calls && code == RegisterCode(s.files[f], op)
    case Access(c, f) => f in s.files && c in s.calls && s.calls[c] == ToAccess(f)
    case IsStopped(f, answer) => f in s.files && answer == s.files[f].stopped
    case CallCont(c, f, ok) => f in s.files && c !in s.calls && ok == s.files[f].stopped
    case CallStep(c, f, ok) => f in s.files && c !in s.calls && ok == s.files[f].stopped
    case PushStep(c, f, t) => f in s.files && c in s.calls && s.calls[c] == ToPush(f) && t == s.files[f].target
    case SetContinue(c, f) => f in s.files && c in s.calls && s.calls[c] == ToContinue(f)
    case Close(f) => f in s.files && Quiescent(s, f)
  }

  function SetPc(s: State, f: Fid, pc: Pc): State
    requires f in s.files
  {
    var t := s.files[f].target;
    s.(threads := s.threads[t := ThreadOf(s, t).(pc := pc)])
  }

  function SetHandle(s: State, f: Fid, h: Handle): State {
    s.(files := s.files[f := h])
  }

  function Enqueue(s: State, t: Tid, f: Fid): State {
    s.(threads := s.threads[t := ThreadOf(s, t).(pending := ThreadOf(s, t).pending + [f])])
  }

  ghost function Apply(s: State, e: Event): State
    requires Enabled(s, e)
  {
    match e
    case Open(f, t) => SetHandle(s, f, Handle(t, false, false, false))
    case Hit(f) => Enqueue(s, s.files[f].target, f)
    case StepTrap(t, found) =>
      if !found then s
      else
        var k := FindStep(s.steps, t);
        var popped := s.(steps := s.steps[..k] + s.steps[k + 1..]);
        if s.steps[k].removed then popped else Enqueue(popped, t, s.steps[k].file)
    case Begin(f, k) =>
      var t := s.files[f].target;
      var p := ThreadOf(s, t).pending;
      s.(threads := s.threads[t := Thread(AtMarkStopped(f), p[..k] + p[k + 1..])])
    case MarkStopped(f) => SetPc(SetHandle(s, f, s.files[f].(stopped := true)), f, AtRaisePoll(f))
    case RaisePoll(f) => SetPc(SetHandle(s, f, s.files[f].(poll := true)), f, AtWait(f))
    case Wake(f) => SetPc(s, f, AtDropPoll(f))
    case DropPoll(f) => SetPc(SetHandle(s, f, s.files[f].(poll := false)), f, AtClearFlags(f))
    case ClearFlags(f) => SetPc(SetHandle(s, f, s.files[f].(cont := false, stopped := false)), f, User)
    case Poll(f, _) => SetHandle(s, f, s.files[f].(poll := false))
    case CallRegister(c, f, _, code) => if code == 0 then s.(calls := s.calls[c := ToAccess(f)]) else s
    case Access(c, f) => s.(calls := s.calls - {c})
    case IsStopped(_, _) => s
    case CallCont(c, f, ok) => if ok then s.(calls := s.calls[c := ToContinue(f)]) else s
    case CallStep(c, f, ok) => if ok then s.(calls := s.calls[c := ToPush(f)]) else s
    case PushStep(c, f, t) => s.(calls := s.calls[c := ToContinue(f)], steps := [Entry(t, f, false)] + s.steps)
    case SetContinue(c, f) => SetHandle(s, f, s.files[f].(cont := true)).(calls := s.calls - {c})
    case Close(f) => Closed(s, f)
  }

  /** The state after a sequence of events, if each of them was possible when it happened. */
  ghost function Run(es: seq<Event>): Option<State> {
    if es == [] then Some(Init())
    else
      var before := Run(es[..|es| - 1]);
      if before.Some? && Enabled(before.value, es[|es| - 1]) then Some(Apply(before.value, es[|es| - 1])) else None
  }

  // ---------------------------------------------------------------------------------------------
  // What every interleaving keeps, for any client
  // ---------------------------------------------------------------------------------------------

  /** Between the statement that sets stopped_flag and the one that clears it. */
  predicate InStopWindow(pc: Pc, f: Fid) {
    pc == AtRaisePoll(f) || pc == AtWait(f) || pc == AtDropPoll(f) || pc == AtClearFlags(f)
  }

  ghost predicate FlagsFollowPc(s: State) {
    forall f :: f in s.files ==>
      && (s.files[f].stopped <==> InStopWindow(TargetPc(s, f), f))
      && (s.files[f].poll ==> TargetPc(s, f) == AtWait(f) || TargetPc(s, f) == AtDropPoll(f))
  }

  ghost predicate OwnThread(s: State, t: Tid, f: Fid) {
    f in s.files && s.files[f].target == t
  }

  ghost predicate WorkOnOwnThread(s: State) {
    forall t :: t in s.threads ==>
      && (!s.threads[t].pc.User? ==> OwnThread(s, t, s.threads[t].pc.file))
      && (forall k :: 0 <= k < |s.threads[t].pending| ==> OwnThread(s, t, s.threads[t].pending[k]))
  }

  ghost predicate CallsOnOpenFiles(s: State) {
    forall c :: c in s.calls ==> s.calls[c].file in s.files
  }

  ghost predicate EntriesOnOwnThread(s: State) {
    forall i :: 0 <= i < |s.steps| && !s.steps[i].removed ==> OwnThread(s, s.steps[i].pid, s.steps[i].file)
  }

  ghost predicate Inv(s: State) {
    FlagsFollowPc(s) && WorkOnOwnThread(s) && CallsOnOpenFiles(s) && EntriesOnOwnThread(s)
  }

  lemma {:induction false} MarkRemovedEntries(steps: seq<Entry>, f: Fid)
    ensures |MarkRemoved(steps, f)| == |steps|
    ensures forall i :: 0 <= i < |steps| ==>
      && MarkRemoved(steps, f)[i].pid == steps[i].pid && MarkRemoved(steps, f)[i].file == steps[i].file
      && (steps[i].removed ==> MarkRemoved(steps, f)[i].removed)
      && (steps[i].file == f && (forall j :: 0 <= j < i ==> steps[j].file != f) ==> MarkRemoved(steps, f)[i].removed)
      && ((steps[i].file != f || (exists j :: 0 <= j < i && steps[j].file == f)) ==>
            MarkRemoved(steps, f)[i] == steps[i])
  {
    if steps != [] && steps[0].file != f {
      MarkRemovedEntries(steps[1..], f);
      forall i | 0 < i < |steps| && steps[i].file == f && (forall j :: 0 <= j < i ==> steps[j].file != f)
        ensures MarkRemoved(steps, f)[i].removed
      {
        assert forall j :: 0 <= j < i - 1 ==> steps[1..][j] == steps[j + 1];
        assert steps[1..][i - 1] == steps[i];
      }
    }
  }

  /** A callback statement moves the thread of f to pc and gives f the flags of h. */
  ghost predicate CanAdvance(s: State, f: Fid, h: Handle, pc: Pc) {
    && f in s.files && h.target == s.files[f].target
    && (TargetPc(s, f) == User || TargetPc(s, f).file == f)
    && (pc == User || pc.file == f)
    && (h.stopped <==> InStopWindow(pc, f))
    && (h.poll ==> pc == AtWait(f) || pc == AtDropPoll(f))
  }

  lemma AdvanceKeepsFlags(s: State, f: Fid, h: Handle, pc: Pc)
    requires FlagsFollowPc(s) && CanAdvance(s, f, h, pc)
    ensures FlagsFollowPc(SetPc(SetHandle(s, f, h), f, pc))
  {
    var s' := SetPc(SetHandle(s, f, h), f, pc);
    forall g | g in s'.files && g != f
      ensures s'.files[g] == s.files[g]
      ensures InStopWindow(TargetPc(s', g), g) == InStopWindow(TargetPc(s, g), g)
      ensures s'.files[g].poll ==> TargetPc(s', g) == TargetPc(s, g)
    {
    }
  }

  lemma AdvanceKeepsInv(s: State, f: Fid, h: Handle, pc: Pc)
    requires Inv(s) && CanAdvance(s, f, h, pc)
    ensures Inv(SetPc(SetHandle(s, f, h), f, pc))
  {
    AdvanceKeepsFlags(s, f, h, pc);
    var s' := SetPc(SetHandle(s, f, h), f, pc);
    assert forall t, g :: OwnThread(s, t, g) <==> OwnThread(s', t, g);
    assert s'.calls == s.calls && s'.steps == s.steps;
  }

  /** Work for f leaves the queue of its thread and starts to run. */
  lemma BeginKeepsInv(s: State, f: Fid, k: nat)
    requires Inv(s) && Enabled(s, Begin(f, k))
    ensures Inv(Apply(s, Begin(f, k)))
  {
    var s' := Apply(s, Begin(f, k));
    assert forall t, g :: OwnThread(s, t, g) <==> OwnThread(s', t, g);
  }

  lemma EnqueueKeepsInv(s: State, t: Tid, f: Fid)
    requires Inv(s) && OwnThread(s, t, f)
    ensures Inv(Enqueue(s, t, f))
  {
    var s' := Enqueue(s, t, f);
    assert forall u, g :: OwnThread(s, u, g) <==> OwnThread(s', u, g);
  }

  lemma FewerEntriesKeepInv(s: State, k: nat)
    requires Inv(s) && k < |s.steps|
    ensures Inv(s.(steps := s.steps[..k] + s.steps[k + 1..]))
  {
    var s' := s.(steps := s.steps[..k] + s.steps[k + 1..]);
    assert forall t, g :: OwnThread(s, t, g) <==> OwnThread(s', t, g);
    assert forall i :: 0 <= i < |s'.steps| ==> s'.steps[i] == s.steps[if i < k then i else i + 1];
  }

  /** A client may clear poll or set continue_flag: neither disturbs the invariant. */
  lemma ClientFlagKeepsInv(s: State, f: Fid, h: Handle)
    requires Inv(s) && f in s.files && h.target == s.files[f].target
    requires h.stopped == s.files[f].stopped && (h.poll ==> s.files[f].poll)
    ensures Inv(SetHandle(s, f, h))
  {
    var s' := SetHandle(s, f, h);
    assert forall t, g :: OwnThread(s, t, g) <==> OwnThread(s', t, g);
  }

  lemma CallsKeepInv(s: State, calls: map<Cid, Call>)
    requires Inv(s) && forall c :: c in calls ==> calls[c].file in s.files
    ensures Inv(s.(calls := calls))
  {
    var s' := s.(calls := calls);
    assert forall t, g :: OwnThread(s, t, g) <==> OwnThread(s', t, g);
  }

  lemma PushKeepsInv(s: State, e: Entry)
    requires Inv(s) && OwnThread(s, e.pid, e.file)
    ensures Inv(s.(steps := [e] + s.steps))
  {
    var s' := s.(steps := [e] + s.steps);
    assert forall t, g :: OwnThread(s, t, g) <==> OwnThread(s', t, g);
  }

  lemma OpenKeepsInv(s: State, f: Fid, t: Tid)
    requires Inv(s) && f !in s.files
    ensures Inv(SetHandle(s, f, Handle(t, false, false, false)))
  {
    var s' := SetHandle(s, f, Handle(t, false, false, false));
    assert forall t, f :: OwnThread(s, t, f) ==> OwnThread(s', t, f);
  }

  lemma CloseKeepsInv(s: State, f: Fid)
    requires Inv(s) && f in s.files && Quiescent(s, f)
    ensures Inv(Closed(s, f))
  {
    var s' := Closed(s, f);
    assert forall t, g :: OwnThread(s, t, g) && g != f ==> OwnThread(s', t, g);
    MarkRemovedEntries(s.steps, f);
    forall i | 0 <= i < |s'.steps| && !s'.steps[i].removed
      ensures OwnThread(s', s'.steps[i].pid, s'.steps[i].file)
    {
      assert OwnThread(s, s.steps[i].pid, s.steps[i].file);
    }
  }

  /**
   Closing an idle handle keeps the invariant exactly when no older live step entry names it: release
   stops at the first entry, so a second one would go on naming a file that no longer exists.
   */
  lemma CloseIsSafeIff(s: State, f: Fid)
    requires Inv(s) && f in s.files && Idle(s, f)
    ensures Inv(Closed(s, f)) <==> OneLiveEntry(s.steps, f)
  {
    if OneLiveEntry(s.steps, f) {
      CloseKeepsInv(s, f);
    } else {
      MarkRemovedEntries(s.steps, f);
      var s' := Closed(s, f);
      var i, j :| 0 <= i < j < |s.steps| && s.steps[i].file == f && s.steps[j].file == f && !s.steps[j].removed;
      assert s'.steps[j] == s.steps[j] && !OwnThread(s', s'.steps[j].pid, f);
    }
  }

  /** The steps of the file operations a client calls, and of opening and closing a handle. */
  predicate IsClient(e: Event) {
    || e.Open? || e.Close? || e.Poll? || e.CallRegister? || e.Access? || e.IsStopped?
    || e.CallCont? || e.CallStep? || e.PushStep? || e.SetContinue?
  }

  lemma CallsStartKeepInv(s: State, e: Event)
    requires Inv(s) && Enabled(s, e) && (e.CallRegister? || e.CallCont? || e.CallStep?)
    ensures Inv(Apply(s, e))
  {
    match e
    case CallRegister(c, f, _, _) => CallsKeepInv(s, s.calls[c := ToAccess(f)]);
    case CallCont(c, f, _) => CallsKeepInv(s, s.calls[c := ToContinue(f)]);
    case CallStep(c, f, _) => CallsKeepInv(s, s.calls[c := ToPush(f)]);
  }

  lemma CallsMoveKeepInv(s: State, e: Event)
    requires Inv(s) && Enabled(s, e) && (e.PushStep? || e.SetContinue? || e.Access?)
    ensures Inv(Apply(s, e))
  {
    match e
    case PushStep(c, f, t) =>
      CallsKeepInv(s, s.calls[c := ToContinue(f)]);
      PushKeepsInv(s.(calls := s.calls[c := ToContinue(f)]), Entry(t, f, false));
    case SetContinue(c, f) =>
      ClientFlagKeepsInv(s, f, s.files[f].(cont := true));
      CallsKeepInv(SetHandle(s, f, s.files[f].(cont := true)), s.calls - {c});
    case Access(c, _) => CallsKeepInv(s, s.calls - {c});
  }

  lemma FilesKeepInv(s: State, e: Event)
    requires Inv(s) && Enabled(s, e) && (e.Open? || e.Close? || e.Poll? || e.IsStopped?)
    ensures Inv(Apply(s, e))
  {
    match e
    case Open(f, t) => OpenKeepsInv(s, f, t);
    case Close(f) => CloseKeepsInv(s, f);
    case Poll(f, _) => ClientFlagKeepsInv(s, f, s.files[f].(poll := false));
    case IsStopped(_, _) =>
  }

  lemma ClientKeepsInv(s: State, e: Event)
    requires Inv(s) && Enabled(s, e) && IsClient(e)
    ensures Inv(Apply(s, e))
  {
    if e.CallRegister? || e.CallCont? || e.CallStep? {
      CallsStartKeepInv(s, e);
    } else if e.PushStep? || e.SetContinue? || e.Access? {
      CallsMoveKeepInv(s, e);
    } else {
      FilesKeepInv(s, e);
    }
  }

  lemma TrapKeepsInv(s: State, t: Tid)
    requires Inv(s) && Enabled(s, StepTrap(t, true))
    ensures Inv(Apply(s, StepTrap(t, true)))
  {
    var k := FindStep(s.steps, t);
    FewerEntriesKeepInv(s, k);
    if !s.steps[k].removed {
      EnqueueKeepsInv(s.(steps := s.steps[..k] + s.steps[k + 1..]), t, s.steps[k].file);
    }
  }

  lemma TargetKeepsInv(s: State, e: Event)
    requires Inv(s) && Enabled(s, e) && !IsClient(e)
    ensures Inv(Apply(s, e))
  {
    match e
    case Hit(f) => EnqueueKeepsInv(s, s.files[f].target, f);
    case StepTrap(t, found) => if found { TrapKeepsInv(s, t); }
    case Begin(f, k) => BeginKeepsInv(s, f, k);
    case MarkStopped(f) => AdvanceKeepsInv(s, f, s.files[f].(stopped := true), AtRaisePoll(f));
    case RaisePoll(f) => AdvanceKeepsInv(s, f, s.files[f].(poll := true), AtWait(f));
    case Wake(f) =>
      AdvanceKeepsInv(s, f, s.files[f], AtDropPoll(f));
      assert SetHandle(s, f, s.files[f]).files == s.files;
    case DropPoll(f) => AdvanceKeepsInv(s, f, s.files[f].(poll := false), AtClearFlags(f));
    case ClearFlags(f) => AdvanceKeepsInv(s, f, s.files[f].(cont := false, stopped := false), User);
  }

  /** Every event keeps the invariant, whoever causes it. */
  lemma StepKeepsInv(s: State, e: Event)
    requires Inv(s) && Enabled(s, e)
    ensures Inv(Apply(s, e))
  {
    if IsClient(e) {
      ClientKeepsInv(s, e);
    } else {
      TargetKeepsInv(s, e);
    }
  }

  /** Marking past a prefix that does not name f. */
  lemma {:induction false} MarkRemovedSkips(steps: seq<Entry>, f: Fid, k: nat)
    requires k <= |steps| && forall i :: 0 <= i < k ==> steps[i].file != f
    ensures MarkRemoved(steps, f) == if k < |steps| && steps[k].file == f then steps[k := steps[k].(removed := true)]
                                     else steps[..k] + MarkRemoved(steps[k..], f)
  {
    if k > 0 {
      MarkRemovedSkips(steps[1..], f, k - 1);
      assert steps[1..][k - 1..] == steps[k..];
      assert steps == [steps[0]] + steps[1..];
    }
  }

  /** Safety of every interleaving: the invariant holds after every run. */
  lemma {:induction false} RunsAreSafe(es: seq<Event>)
    requires Run(es).Some?
    ensures Inv(Run(es).value)
  {
    if es != [] {
      var s, e := Run(es[..|es| - 1]).value, es[|es| - 1];
      RunsAreSafe(es[..|es| - 1]);
      StepKeepsInv(s, e);
    }
  }

  /** What a client may rely on in every interleaving: a ready poll means stopped, and stopped is exact. */
  lemma ReadyMeansStopped(es: seq<Event>, f: Fid)
    requires Run(es).Some? && f in Run(es).value.files
    ensures var s := Run(es).value;
      && (s.files[f].poll ==> s.files[f].stopped)
      && (s.files[f].stopped <==> InStopWindow(TargetPc(s, f), f))
  {
    RunsAreSafe(es);
  }

  /** Two handles on one thread are never stopped together. */
  lemma OneStopPerThread(es: seq<Event>, f: Fid, g: Fid)
    requires Run(es).Some?
    requires var s := Run(es).value;
      && f in s.files && g in s.files && s.files[f].target == s.files[g].target
      && s.files[f].stopped && s.files[g].stopped
    ensures f == g
  {
    RunsAreSafe(es);
  }

  /** es reaches s. */
  ghost predicate Reaches(es: seq<Event>, s: State) {
    Run(es) == Some(s)
  }

  /** One more event of a run, with the resulting state given field by field. */
  lemma RunExtends(es: seq<Event>, s: State, e: Event, s': State) returns (es': seq<Event>)
    requires Reaches(es, s) && Enabled(s, e)
    requires var a := Apply(s, e);
      a.files == s'.files && a.threads == s'.threads && a.calls == s'.calls && a.steps == s'.steps
    ensures es' == es + [e] && Reaches(es', s')
  {
    es' := es + [e];
    assert es'[..|es'| - 1] == es;
  }

  /** A state with one handle and its thread. */
  function Solo(f: Fid, h: Handle, th: Thread, calls: map<Cid, Call>): State {
    State(map[f := h], map[h.target := th], calls, [])
  }

  lemma ReachCallback(f: Fid, t: Tid) returns (es: seq<Event>)
    ensures Reaches(es, Solo(f, Handle(t, false, false, false), Thread(AtMarkStopped(f), []), map[]))
  {
    var h := Handle(t, false, false, false);
    var s0 := State(map[f := h], map[], map[], []);
    var s1 := Solo(f, h, Thread(User, [f]), map[]);
    es := RunExtends([], Init(), Open(f, t), s0);
    assert [] + [f] == [f] && [f][..0] + [f][1..] == [];
    es := RunExtends(es, s0, Hit(f), s1);
    es := RunExtends(es, s1, Begin(f, 0), Solo(f, h, Thread(AtMarkStopped(f), []), map[]));
  }

  lemma ReachWait(f: Fid, t: Tid) returns (es: seq<Event>)
    ensures Reaches(es, Solo(f, Handle(t, true, false, true), Thread(AtWait(f), []), map[]))
  {
    var h := Handle(t, false, false, false);
    var s2 := Solo(f, h, Thread(AtMarkStopped(f), []), map[]);
    var s3 := Solo(f, h.(stopped := true), Thread(AtRaisePoll(f), []), map[]);
    es := ReachCallback(f, t);
    es := RunExtends(es, s2, MarkStopped(f), s3);
    es := RunExtends(es, s3, RaisePoll(f), Solo(f, Handle(t, true, false, true), Thread(AtWait(f), []), map[]));
  }

  lemma ReachOverlap(f: Fid, t: Tid) returns (es: seq<Event>)
    ensures Reaches(es, Solo(f, Handle(t, true, true, true), Thread(AtWait(f), []), map[1 := ToContinue(f)]))
  {
    var h, th := Handle(t, true, false, true), Thread(AtWait(f), []);
    var s0 := Solo(f, h, th, map[]);
    var s1 := Solo(f, h, th, map[0 := ToContinue(f)]);
    var s2 := Solo(f, h, th, map[0 := ToContinue(f), 1 := ToContinue(f)]);
    es := ReachWait(f, t);
    es := RunExtends(es, s0, CallCont(0, f, true), s1);
    es := RunExtends(es, s1, CallCont(1, f, true), s2);
    es := RunExtends(es, s2, SetContinue(0, f), Solo(f, h.(cont := true), th, map[1 := ToContinue(f)]));
  }

  lemma ReachResume(f: Fid, t: Tid) returns (es: seq<Event>)
    ensures Reaches(es, Solo(f, Handle(t, true, true, false), Thread(AtClearFlags(f), []), map[1 := ToContinue(f)]))
  {
    var h, calls := Handle(t, true, true, true), map[1 := ToContinue(f)];
    var s3 := Solo(f, h, Thread(AtWait(f), []), calls);
    var s4 := Solo(f, h, Thread(AtDropPoll(f), []), calls);
    es := ReachOverlap(f, t);
    es := RunExtends(es, s3, Wake(f), s4);
    es := RunExtends(es, s4, DropPoll(f), Solo(f, h.(poll := false), Thread(AtClearFlags(f), []), calls));
  }

  /**
   The discipline of a wait-driven client is needed: two overlapping cont calls are both accepted, and
   the second one leaves continue_flag set on a running target, so the next stop would not wait.
   */
  lemma OverlappingContinuesLeaveAStaleFlag(f: Fid, t: Tid) returns (es: seq<Event>)
    ensures Reaches(es, Solo(f, Handle(t, false, true, false), Thread(User, []), map[]))
  {
    var calls := map[1 := ToContinue(f)];
    var s5 := Solo(f, Handle(t, true, true, false), Thread(AtClearFlags(f), []), calls);
    var s6 := Solo(f, Handle(t, false, false, false), Thread(User, []), calls);
    es := ReachResume(f, t);
    es := RunExtends(es, s5, ClearFlags(f), s6);
    es := RunExtends(es, s6, SetContinue(1, f), Solo(f, Handle(t, false, true, false), Thread(User, []), map[]));
  }
}
