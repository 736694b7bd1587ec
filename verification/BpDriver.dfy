/**
 The data of rwMem/bp.c as it is updated in place: the flags of every handle, the queues of the threads
 and the global step list. Each method is one critical section of the C code and takes the event of
 BpProtocol that carries its name and its result, so that every history of calls is a run: the theorems
 about runs hold of this object at any time.
 */
module BpDriver {
  import opened Options
  import P = BpProtocol
  import C = BpClient
  import L = BpStepList
  import S = BpStops

  const DBG_HOOK_HANDLED := 0
  const DBG_HOOK_ERROR := 1

  class Driver {
    var files: map<P.Fid, P.Handle>
    var threads: map<P.Tid, P.Thread>
    var calls: map<P.Cid, P.Call>
    var steps: seq<P.Entry>
    ghost var trace: seq<P.Event>  // the events taken so far

    ghost function St(): P.State
      reads this
    {
      P.State(files, threads, calls, steps)
    }

    ghost predicate Can(e: P.Event)
      reads this
    {
      P.Enabled(St(), e)
    }

    /** The state is the one the history leads to. */
    ghost predicate Valid()
      reads this
    {
      P.Reaches(trace, St())
    }

    /** The object went from the old state to the new one by e. */
    twostate predicate Did(e: P.Event)
      reads this
    {
      P.Enabled(old(St()), e) && St() == P.Apply(old(St()), e) && trace == old(trace) + [e] && Valid()
    }

    /** Write e into the history, after the fields have been updated. */
    ghost method Took(before: P.State, e: P.Event)
      requires P.Reaches(trace, before) && P.Enabled(before, e) && St() == P.Apply(before, e)
      modifies this`trace
      ensures trace == old(trace) + [e] && Valid()
    {
      trace := P.RunExtends(trace, before, e, St());
    }

    constructor ()
      ensures St() == P.Init() && trace == [] && Valid()
    {
      files, threads, calls, steps, trace := map[], map[], map[], [], [];
    }

    method Queue(t: P.Tid, f: P.Fid)
      modifies this`threads
      ensures St() == P.Enqueue(old(St()), t, f)
    {
      var th := if t in threads then threads[t] else P.Thread(P.User, []);
      threads := threads[t := th.(pending := th.pending + [f])];
    }

    /** create_rwmem_bp_file and the end of IOCTL_ADD_BP: a zeroed record with its target. */
    method CreateFile(f: P.Fid, t: P.Tid)
      requires Valid() && Can(P.Open(f, t))
      modifies this`trace, this`files
      ensures Did(P.Open(f, t))
    {
      ghost var before := St();
      files := files[f := P.Handle(t, false, false, false)];
      Took(before, P.Open(f, t));
    }

    method BpCallback(f: P.Fid)
      requires Valid() && Can(P.Hit(f))
      modifies this`trace, this`threads
      ensures Did(P.Hit(f))
      ensures P.ThreadOf(St(), files[f].target).pending == old(P.ThreadOf(St(), files[f].target).pending) + [f]
    {
      ghost var before := St();
      S.HitQueues(before, f);
      Queue(files[f].target, f);
      Took(before, P.Hit(f));
    }

    /** The list walk of rwmem_bp_step_handler: unlink the newest entry of thread t, if there is one. */
    method TakeStep(t: P.Tid) returns (entry: Option<P.Entry>)
      modifies this`steps
      ensures var k := P.FindStep(old(steps), t);
        if k == |old(steps)| then entry == None && steps == old(steps)
        else entry == Some(old(steps)[k]) && steps == old(steps)[..k] + old(steps)[k + 1..]
    {
      var pos := 0;
      while pos < |steps| && steps[pos].pid != t
        invariant pos <= P.FindStep(steps, t) && steps == old(steps)
      {
        pos := pos + 1;
      }
      assert pos == P.FindStep(steps, t);
      if pos == |steps| {
        return None;
      }
      entry := Some(steps[pos]);
      steps := steps[..pos] + steps[pos + 1..];
    }

    /** rwmem_bp_step_handler: unlink the entry of the current thread, and queue its handle. */
    method StepHandler(t: P.Tid) returns (hook: int)
      requires Valid() && P.ThreadOf(St(), t).pc == P.User
      modifies this`trace, this`threads, this`steps
      ensures hook == DBG_HOOK_HANDLED || hook == DBG_HOOK_ERROR
      ensures Did(P.StepTrap(t, hook == DBG_HOOK_HANDLED))
      ensures var stack := old(L.StackOf(trace, t));
        && (hook == DBG_HOOK_HANDLED <==> stack != [])
        && P.ThreadOf(St(), t).pending
           == old(P.ThreadOf(St(), t).pending) + if stack != [] && stack[0] in files then [stack[0]] else []
    {
      ghost var before := St();
      L.StepTrapIsRoutedToItsThread(trace, t, P.FindStep(steps, t) < |steps|);
      var entry := TakeStep(t);
      if entry.None? {
        Took(before, P.StepTrap(t, false));
        return DBG_HOOK_ERROR;
      }
      if !entry.value.removed {
        Queue(t, entry.value.file);
      }
      Took(before, P.StepTrap(t, true));
      hook := DBG_HOOK_HANDLED;
    }

    method MoveTo(f: P.Fid, pc: P.Pc)
      requires f in files
      modifies this`threads
      ensures St() == P.SetPc(old(St()), f, pc)
    {
      var t := files[f].target;
      var th := if t in threads then threads[t] else P.Thread(P.User, []);
      threads := threads[t := th.(pc := pc)];
    }

    // The statements of bp_callback_after, on the target thread.

    method BeginWork(f: P.Fid, k: nat)
      requires Valid() && Can(P.Begin(f, k))
      modifies this`trace, this`threads
      ensures Did(P.Begin(f, k))
    {
      ghost var before := St();
      var t := files[f].target;
      var p := threads[t].pending;
      threads := threads[t := P.Thread(P.AtMarkStopped(f), p[..k] + p[k + 1..])];
      Took(before, P.Begin(f, k));
    }

    method MarkStopped(f: P.Fid)
      requires Valid() && Can(P.MarkStopped(f))
      modifies this`trace, this`files, this`threads
      ensures Did(P.MarkStopped(f))
      ensures forall g :: g in files && g != f && files[g].target == files[f].target ==> !files[g].stopped
    {
      ghost var before := St();
      files := files[f := files[f].(stopped := true)];
      MoveTo(f, P.AtRaisePoll(f));
      Took(before, P.MarkStopped(f));
      P.RunsAreSafe(trace);
    }

    method RaisePoll(f: P.Fid)
      requires Valid() && Can(P.RaisePoll(f))
      modifies this`trace, this`files, this`threads
      ensures Did(P.RaisePoll(f))
    {
      ghost var before := St();
      files := files[f := files[f].(poll := true)];
      MoveTo(f, P.AtWait(f));
      Took(before, P.RaisePoll(f));
    }

    method WakeUp(f: P.Fid)
      requires Valid() && Can(P.Wake(f))
      modifies this`trace, this`threads
      ensures Did(P.Wake(f))
    {
      ghost var before := St();
      MoveTo(f, P.AtDropPoll(f));
      Took(before, P.Wake(f));
    }

    method DropPoll(f: P.Fid)
      requires Valid() && Can(P.DropPoll(f))
      modifies this`trace, this`files, this`threads
      ensures Did(P.DropPoll(f))
    {
      ghost var before := St();
      files := files[f := files[f].(poll := false)];
      MoveTo(f, P.AtClearFlags(f));
      Took(before, P.DropPoll(f));
    }

    method ClearFlags(f: P.Fid)
      requires Valid() && Can(P.ClearFlags(f))
      modifies this`trace, this`files, this`threads
      ensures Did(P.ClearFlags(f))
    {
      ghost var before := St();
      files := files[f := files[f].(cont := false, stopped := false)];
      MoveTo(f, P.User);
      Took(before, P.ClearFlags(f));
    }

    // The file operations a client calls.

    method Poll(f: P.Fid) returns (ready: bool)
      requires Valid() && f in files
      modifies this`trace, this`files
      ensures Did(P.Poll(f, ready))
      ensures ready ==> files[f].stopped
    {
      ghost var before := St();
      P.ReadyMeansStopped(trace, f);
      ready := files[f].poll;
      files := files[f := files[f].(poll := false)];
      Took(before, P.Poll(f, ready));
    }

    /** The checks of rwmem_bp_read and of the two set-register ioctls. */
    method CallRegister(c: P.Cid, f: P.Fid, op: P.RegisterOp) returns (code: int)
      requires Valid() && f in files && c !in calls
      modifies this`trace, this`calls
      ensures Did(P.CallRegister(c, f, op, code))
      ensures old(C.WaitDriven(trace, f) && C.ClientOf(trace, f) == C.Holding) && P.ValidOp(op) ==> code == 0
    {
      ghost var before := St();
      if old(C.WaitDriven(trace, f) && C.ClientOf(trace, f) == C.Holding) {
        C.NothingRefusedWhileHolding(trace, f, P.IsStopped(f, files[f].stopped));
      }
      code := if files[f].stopped then CheckOp(op) else -P.EINVAL;
      if code == 0 {
        calls := calls[c := P.ToAccess(f)];
      }
      Took(before, P.CallRegister(c, f, op, code));
    }

    /** The check of the buffer size or of the register number. */
    function CheckOp(op: P.RegisterOp): (code: int)
      ensures code == if P.ValidOp(op) then 0 else -P.EINVAL
    {
      match op
      case ReadRegs(size) =>
        if 272 + 528 <= size then 0       // both register sets
        else if 272 <= size then 0        // the general registers
        else -P.EINVAL
      case SetReg(id) => if id >= 34 then -P.EINVAL else 0
      case SetSimdReg(id) => if id < 32 || id == 32 || id == 33 then 0 else -P.EINVAL
    }

    /** The registers are read or written; a wait-driven client does this only while its target waits. */
    method Access(c: P.Cid, f: P.Fid)
      requires Valid() && f in files && c in calls && calls[c] == P.ToAccess(f)
      modifies this`trace, this`calls
      ensures Did(P.Access(c, f))
      ensures old(C.WaitDriven(trace, f)) ==> files[f].stopped && P.TargetPc(St(), f) == P.AtWait(f)
    {
      ghost var before := St();
      if old(C.WaitDriven(trace, f)) {
        C.AccessInsideWindow(trace, f, c);
      }
      calls := calls - {c};
      Took(before, P.Access(c, f));
    }

    /** IOCTL_BP_IS_STOPPED: the answer is exact with respect to the callback. */
    method IsStopped(f: P.Fid) returns (answer: bool)
      requires Valid() && f in files
      modifies this`trace
      ensures Did(P.IsStopped(f, answer))
      ensures answer <==> P.InStopWindow(P.TargetPc(St(), f), f)
    {
      ghost var before := St();
      P.ReadyMeansStopped(trace, f);
      answer := files[f].stopped;
      Took(before, P.IsStopped(f, answer));
    }

    method CallContinue(c: P.Cid, f: P.Fid) returns (code: int)
      requires Valid() && f in files && c !in calls
      modifies this`trace, this`calls
      ensures code == 0 || code == -P.EINVAL
      ensures Did(P.CallCont(c, f, code == 0))
      ensures old(C.WaitDriven(trace, f) && C.ClientOf(trace, f) == C.Holding) ==> code == 0
    {
      ghost var before := St();
      if old(C.WaitDriven(trace, f) && C.ClientOf(trace, f) == C.Holding) {
        C.NothingRefusedWhileHolding(trace, f, P.IsStopped(f, files[f].stopped));
      }
      if !files[f].stopped {
        Took(before, P.CallCont(c, f, false));
        return -P.EINVAL;
      }
      calls := calls[c := P.ToContinue(f)];
      code := 0;
      Took(before, P.CallCont(c, f, true));
    }

    method CallStep(c: P.Cid, f: P.Fid) returns (code: int)
      requires Valid() && f in files && c !in calls
      modifies this`trace, this`calls
      ensures code == 0 || code == -P.EINVAL
      ensures Did(P.CallStep(c, f, code == 0))
      ensures old(C.WaitDriven(trace, f) && C.ClientOf(trace, f) == C.Holding) ==> code == 0
    {
      ghost var before := St();
      if old(C.WaitDriven(trace, f) && C.ClientOf(trace, f) == C.Holding) {
        C.NothingRefusedWhileHolding(trace, f, P.IsStopped(f, files[f].stopped));
      }
      if !files[f].stopped {
        Took(before, P.CallStep(c, f, false));
        return -P.EINVAL;
      }
      calls := calls[c := P.ToPush(f)];
      code := 0;
      Took(before, P.CallStep(c, f, true));
    }

    method PushStep(c: P.Cid, f: P.Fid)
      requires Valid() && f in files && c in calls && calls[c] == P.ToPush(f)
      modifies this`trace, this`calls, this`steps
      ensures Did(P.PushStep(c, f, files[f].target))
    {
      ghost var before := St();
      steps := [P.Entry(files[f].target, f, false)] + steps;
      calls := calls[c := P.ToContinue(f)];
      Took(before, P.PushStep(c, f, before.files[f].target));
    }

    method SetContinue(c: P.Cid, f: P.Fid)
      requires Valid() && f in files && c in calls && calls[c] == P.ToContinue(f)
      modifies this`trace, this`files, this`calls
      ensures Did(P.SetContinue(c, f))
    {
      ghost var before := St();
      files := files[f := files[f].(cont := true)];
      calls := calls - {c};
      Took(before, P.SetContinue(c, f));
    }

    /** The walk of rwmem_bp_release over the step list. */
    method MarkStep(f: P.Fid)
      modifies this`steps
      ensures steps == P.MarkRemoved(old(steps), f)
    {
      var pos := 0;
      while pos < |steps| && steps[pos].file != f
        invariant pos <= |steps| && steps == old(steps)
        invariant forall i :: 0 <= i < pos ==> steps[i].file != f
      {
        pos := pos + 1;
      }
      P.MarkRemovedSkips(steps, f, pos);
      if pos < |steps| {
        steps := steps[pos := steps[pos].(removed := true)];
      }
    }

    /**
     rwmem_bp_release: set continue_flag, so that a waiting target can go on, mark the first step entry of
     the file, and free the record.
     */
    method Release(f: P.Fid) returns (ghost woken: P.State)
      requires Valid() && f in files
      modifies this`trace, this`files, this`steps
      ensures woken == P.SetHandle(old(St()), f, old(files[f]).(cont := true))
      ensures P.TargetPc(old(St()), f) == P.AtWait(f) ==> P.Enabled(woken, P.Wake(f))
      ensures St() == P.Closed(woken, f) == P.Closed(old(St()), f)
      ensures P.Quiescent(old(St()), f) ==> Did(P.Close(f))
      ensures P.Idle(old(St()), f) ==> (P.Inv(St()) <==> P.OneLiveEntry(old(steps), f))
    {
      ghost var before := St();
      P.RunsAreSafe(trace);
      files := files[f := files[f].(cont := true)];
      woken := St();
      MarkStep(f);
      files := files - {f};
      assert files == before.files - {f};
      if P.Idle(before, f) {
        P.CloseIsSafeIff(before, f);
        if P.OneLiveEntry(before.steps, f) {
          Took(before, P.Close(f));
        }
      }
    }
  }
}
