/**
 The wait-driven client of the breakpoint protocol (README.md and librwmem/examples/test.rs): one
 sequential user per handle which waits until a poll is ready, then uses the registers as often as it
 likes, then issues exactly one cont or step, and waits again. It makes one call at a time. Other handles
 and their clients are unrestricted.
 */
module BpClient {
  import opened BpProtocol

  datatype Client = Polling | Holding | Accessing(c: Cid) | Calling(c: Cid) | Violated

  /** The client of handle f, as an automaton over the events of a run. */
  function ClientNext(p: Client, e: Event, f: Fid): Client {
    if p.Violated? then Violated
    else match e
      case Poll(g, ready) =>
        if g != f then p
        else if p.Calling? || p.Accessing? then Violated
        else if p.Polling? && ready then Holding
        else p
      case CallRegister(c, g, _, code) =>
        if g != f then p
        else if p.Calling? || p.Accessing? then Violated
        else if code != 0 then p  // a refused call changes nothing
        else if p.Holding? then Accessing(c)
        else Violated
      case Access(c, g) => if g != f then p else if p == Accessing(c) then Holding else Violated
      case CallCont(c, g, ok) =>
        if g != f then p else if !p.Holding? then Violated else if ok then Calling(c) else Polling
      case CallStep(c, g, ok) =>
        if g != f then p else if !p.Holding? then Violated else if ok then Calling(c) else Polling
      case SetContinue(c, g) => if g != f then p else if p == Calling(c) then Polling else Violated
      case _ => p
  }

  function ClientOf(es: seq<Event>, f: Fid): Client {
    if es == [] then Polling else ClientNext(ClientOf(es[..|es| - 1], f), es[|es| - 1], f)
  }

  ghost predicate WaitDriven(es: seq<Event>, f: Fid) {
    !ClientOf(es, f).Violated?
  }

  /** How often each protocol event of handle f happened. */
  datatype Tally = Tally(stops: nat, ready: nat, accepted: nat, released: nat, resumes: nat)

  function Count(n: Tally, e: Event, f: Fid): Tally {
    match e
    case MarkStopped(g) => if g == f then n.(stops := n.stops + 1) else n
    case Poll(g, ready) => if g == f && ready then n.(ready := n.ready + 1) else n
    case CallCont(_, g, ok) => if g == f && ok then n.(accepted := n.accepted + 1) else n
    case CallStep(_, g, ok) => if g == f && ok then n.(accepted := n.accepted + 1) else n
    case SetContinue(_, g) => if g == f then n.(released := n.released + 1) else n
    case ClearFlags(g) => if g == f then n.(resumes := n.resumes + 1) else n
    case _ => n
  }

  function TallyOf(es: seq<Event>, f: Fid): Tally {
    if es == [] then Tally(0, 0, 0, 0, 0) else Count(TallyOf(es[..|es| - 1], f), es[|es| - 1], f)
  }

  /** A stop passes from the target to the client and back: where it is, and what has been counted so far. */
  ghost predicate Handover(s: State, f: Fid, p: Client, n: Tally)
    requires f in s.files
  {
    var h, pc := s.files[f], TargetPc(s, f);
    if !InStopWindow(pc, f) then
      p == Polling && !h.cont && !h.poll && n.stops == n.ready == n.accepted == n.released == n.resumes
    else
      && n.stops == n.resumes + 1
      && match pc
         case AtRaisePoll(_) => p == Polling && !h.cont && n.ready == n.accepted == n.released == n.resumes
         case AtWait(_) =>
           if h.poll then p == Polling && !h.cont && n.ready == n.accepted == n.released == n.resumes
           else if h.cont then p == Polling && n.ready == n.accepted == n.released == n.stops
           else if p.Holding? || p.Accessing? then n.ready == n.stops && n.accepted == n.released == n.resumes
           else p.Calling? && n.ready == n.accepted == n.stops && n.released == n.resumes
         case _ => p == Polling && h.cont && !h.poll && n.ready == n.accepted == n.released == n.stops
  }

  ghost predicate CallsAgree(s: State, f: Fid, p: Client) {
    && (forall c :: c in s.calls && s.calls[c].file == f ==>
          p == if s.calls[c].ToAccess? then Accessing(c) else Calling(c))
    && (p.Calling? || p.Accessing? ==> p.c in s.calls && s.calls[p.c].file == f)
  }

  ghost predicate ClientInv(s: State, f: Fid, p: Client, n: Tally) {
    CallsAgree(s, f, p) && Tallied(s, f, p, n)
  }

  ghost predicate Tallied(s: State, f: Fid, p: Client, n: Tally) {
    if f in s.files then Handover(s, f, p, n)
    else p == Polling && n.stops == n.ready == n.accepted == n.released == n.resumes
  }

  /** The events that start a call, move it on or end it. */
  predicate IsCallEvent(e: Event) {
    || e.CallRegister? || e.CallCont? || e.CallStep? || e.PushStep?
    || e.SetContinue? || e.Access?
  }

  lemma StartKeepsCallsAgree(s: State, e: Event, f: Fid, p: Client)
    requires Enabled(s, e) && CallsAgree(s, f, p) && !ClientNext(p, e, f).Violated?
    requires e.CallRegister? || e.CallCont? || e.CallStep?
    ensures CallsAgree(Apply(s, e), f, ClientNext(p, e, f))
  {
  }

  lemma MoveKeepsCallsAgree(s: State, e: Event, f: Fid, p: Client)
    requires Enabled(s, e) && CallsAgree(s, f, p) && !ClientNext(p, e, f).Violated?
    requires e.PushStep? || e.SetContinue? || e.Access?
    ensures CallsAgree(Apply(s, e), f, ClientNext(p, e, f))
  {
  }

  lemma StepKeepsCallsAgree(s: State, e: Event, f: Fid, p: Client)
    requires Enabled(s, e) && CallsAgree(s, f, p) && !ClientNext(p, e, f).Violated?
    ensures CallsAgree(Apply(s, e), f, ClientNext(p, e, f))
  {
    if e.CallRegister? || e.CallCont? || e.CallStep? {
      StartKeepsCallsAgree(s, e, f, p);
    } else if e.PushStep? || e.SetContinue? || e.Access? {
      MoveKeepsCallsAgree(s, e, f, p);
    } else {
      OthersKeepCallsAgree(s, e, f, p);
    }
  }

  lemma OthersKeepCallsAgree(s: State, e: Event, f: Fid, p: Client)
    requires Enabled(s, e) && CallsAgree(s, f, p) && !ClientNext(p, e, f).Violated? && !IsCallEvent(e)
    ensures CallsAgree(Apply(s, e), f, ClientNext(p, e, f))
  {
    assert Apply(s, e).calls == s.calls;
  }

  predicate TargetMoves(e: Event, f: Fid) {
    (e.MarkStopped? || e.RaisePoll? || e.Wake? || e.DropPoll? || e.ClearFlags?) && e.f == f
  }

  predicate ClientMoves(e: Event, f: Fid) {
    && (e.Poll? || e.CallRegister? || e.Access? || e.CallCont? || e.CallStep? || e.SetContinue?)
    && e.f == f
  }

  lemma TargetKeepsHandover(s: State, e: Event, f: Fid, p: Client, n: Tally)
    requires Inv(s) && Enabled(s, e) && ClientInv(s, f, p, n) && TargetMoves(e, f)
    ensures Handover(Apply(s, e), f, p, Count(n, e, f))
  {
  }

  lemma PollKeepsHandover(s: State, f: Fid, ready: bool, p: Client, n: Tally)
    requires Inv(s) && Enabled(s, Poll(f, ready)) && ClientInv(s, f, p, n)
    requires !ClientNext(p, Poll(f, ready), f).Violated?
    ensures var e := Poll(f, ready); Tallied(Apply(s, e), f, ClientNext(p, e, f), Count(n, e, f))
  {
  }

  lemma RegistersKeepHandover(s: State, e: Event, f: Fid, p: Client, n: Tally)
    requires Inv(s) && Enabled(s, e) && ClientInv(s, f, p, n)
    requires (e.CallRegister? || e.Access?) && e.f == f && !ClientNext(p, e, f).Violated?
    ensures Tallied(Apply(s, e), f, ClientNext(p, e, f), Count(n, e, f))
  {
    assert Apply(s, e).files == s.files && Apply(s, e).threads == s.threads;
  }

  lemma CallsKeepHandover(s: State, e: Event, f: Fid, p: Client, n: Tally)
    requires Inv(s) && Enabled(s, e) && ClientInv(s, f, p, n)
    requires (e.CallCont? || e.CallStep?) && e.f == f && !ClientNext(p, e, f).Violated?
    ensures Tallied(Apply(s, e), f, ClientNext(p, e, f), Count(n, e, f))
  {
    assert Apply(s, e).files == s.files && Apply(s, e).threads == s.threads;
  }

  lemma ReleaseKeepsHandover(s: State, c: Cid, f: Fid, p: Client, n: Tally)
    requires Inv(s) && Enabled(s, SetContinue(c, f)) && ClientInv(s, f, p, n)
    requires !ClientNext(p, SetContinue(c, f), f).Violated?
    ensures var e := SetContinue(c, f); Tallied(Apply(s, e), f, ClientNext(p, e, f), Count(n, e, f))
  {
  }

  lemma ClientKeepsHandover(s: State, e: Event, f: Fid, p: Client, n: Tally)
    requires Inv(s) && Enabled(s, e) && ClientInv(s, f, p, n) && ClientMoves(e, f)
    requires !ClientNext(p, e, f).Violated?
    ensures Tallied(Apply(s, e), f, ClientNext(p, e, f), Count(n, e, f)) == true  // compared, to keep it folded
  {
    if e.CallRegister? || e.Access? {
      RegistersKeepHandover(s, e, f, p, n);
    } else if e.CallCont? || e.CallStep? {
      CallsKeepHandover(s, e, f, p, n);
    } else if e.Poll? {
      PollKeepsHandover(s, f, e.ready, p, n);
    } else {
      ReleaseKeepsHandover(s, e.c, f, p, n);
    }
  }

  /** Every other event leaves the flags of f and the stop window of f alone. */
  ghost predicate LeavesHandle(s: State, s': State, f: Fid)
    requires f in s.files
  {
    && f in s'.files && s'.files[f] == s.files[f]
    && (TargetPc(s', f) == TargetPc(s, f) || (!InStopWindow(TargetPc(s, f), f) && !InStopWindow(TargetPc(s', f), f)))
  }

  /** A callback of another handle g moves at most g's thread, between positions of g. */
  lemma OtherCallbackLeavesHandle(s: State, g: Fid, h: Handle, pc: Pc, f: Fid)
    requires g in s.files && f in s.files && g != f && h.target == s.files[g].target
    requires (TargetPc(s, g) == User || TargetPc(s, g).file == g) && (pc == User || pc.file == g)
    ensures LeavesHandle(s, SetPc(SetHandle(s, g, h), g, pc), f)
  {
  }

  lemma ExceptionsLeaveHandle(s: State, e: Event, f: Fid)
    requires Enabled(s, e) && f in s.files && (e.Hit? || e.StepTrap? || e.Begin?)
    ensures LeavesHandle(s, Apply(s, e), f)
  {
    var s' := Apply(s, e);
    assert s'.files == s.files;
    assert e.Begin? || forall t :: ThreadOf(s', t).pc == ThreadOf(s, t).pc;
  }

  lemma OtherTargetsLeaveHandle(s: State, e: Event, f: Fid)
    requires Enabled(s, e) && f in s.files && !IsClient(e) && !TargetMoves(e, f)
    ensures LeavesHandle(s, Apply(s, e), f)
  {
    match e
    case MarkStopped(g) => OtherCallbackLeavesHandle(s, g, s.files[g].(stopped := true), AtRaisePoll(g), f);
    case RaisePoll(g) => OtherCallbackLeavesHandle(s, g, s.files[g].(poll := true), AtWait(g), f);
    case Wake(g) =>
      OtherCallbackLeavesHandle(s, g, s.files[g], AtDropPoll(g), f);
      assert SetHandle(s, g, s.files[g]).files == s.files;
    case DropPoll(g) => OtherCallbackLeavesHandle(s, g, s.files[g].(poll := false), AtClearFlags(g), f);
    case ClearFlags(g) => OtherCallbackLeavesHandle(s, g, s.files[g].(cont := false, stopped := false), User, f);
    case _ => ExceptionsLeaveHandle(s, e, f);
  }

  lemma OtherClientsLeaveHandle(s: State, e: Event, f: Fid)
    requires Enabled(s, e) && f in s.files && IsClient(e) && !ClientMoves(e, f) && e != Close(f)
    ensures LeavesHandle(s, Apply(s, e), f)
  {
    assert Apply(s, e).threads == s.threads;
  }

  lemma OthersAreNotCounted(e: Event, f: Fid, p: Client, n: Tally)
    requires !TargetMoves(e, f) && !ClientMoves(e, f) && !p.Violated?
    ensures ClientNext(p, e, f) == p && Count(n, e, f) == n
  {
  }

  lemma HandoverCarries(s: State, s': State, f: Fid, p: Client, n: Tally)
    requires f in s.files && LeavesHandle(s, s', f) && Handover(s, f, p, n)
    ensures Handover(s', f, p, n)
  {
  }

  lemma OthersKeepHandover(s: State, e: Event, f: Fid, p: Client, n: Tally)
    requires Inv(s) && Enabled(s, e) && f in s.files && !TargetMoves(e, f) && !ClientMoves(e, f) && e != Close(f)
    requires Handover(s, f, p, n)
    ensures f in Apply(s, e).files && Handover(Apply(s, e), f, p, n)
  {
    if IsClient(e) {
      OtherClientsLeaveHandle(s, e, f);
    } else {
      OtherTargetsLeaveHandle(s, e, f);
    }
    HandoverCarries(s, Apply(s, e), f, p, n);
  }

  /** A handle that is opened or closed is outside its stop window. */
  lemma OpenAndCloseKeepHandover(s: State, e: Event, f: Fid, p: Client, n: Tally)
    requires Inv(s) && Enabled(s, e) && ClientInv(s, f, p, n)
    requires f in s.files ==> e == Close(f)
    ensures Tallied(Apply(s, e), f, p, n)
  {
    if e == Close(f) {
      QuiescentIsOutsideWindow(s, f);
    } else if e.Open? && e.f == f {
      assert Apply(s, e).threads == s.threads;
    }
  }

  lemma StepKeepsTallied(s: State, e: Event, f: Fid, p: Client, n: Tally)
    requires Inv(s) && Enabled(s, e) && ClientInv(s, f, p, n)
    requires !ClientNext(p, e, f).Violated?
    ensures Tallied(Apply(s, e), f, ClientNext(p, e, f), Count(n, e, f)) == true
  {
    if TargetMoves(e, f) {
      TargetKeepsHandover(s, e, f, p, n);
    } else if ClientMoves(e, f) {
      ClientKeepsHandover(s, e, f, p, n);
    } else {
      OthersAreNotCounted(e, f, p, n);
      if f in s.files && e != Close(f) {
        OthersKeepHandover(s, e, f, p, n);
      } else {
        OpenAndCloseKeepHandover(s, e, f, p, n);
      }
    }
  }

  lemma StepKeepsHandover(s: State, e: Event, f: Fid, p: Client, n: Tally)
    requires Inv(s) && Enabled(s, e) && ClientInv(s, f, p, n)
    requires !ClientNext(p, e, f).Violated?
    ensures ClientInv(Apply(s, e), f, ClientNext(p, e, f), Count(n, e, f))
  {
    StepKeepsCallsAgree(s, e, f, p);
    StepKeepsTallied(s, e, f, p, n);
  }

  lemma QuiescentIsOutsideWindow(s: State, f: Fid)
    requires f in s.files && Quiescent(s, f)
    ensures !InStopWindow(TargetPc(s, f), f)
  {
  }

  /** The handover invariant holds after every run whose client of f is wait-driven. */
  lemma {:induction false} WaitDrivenRuns(es: seq<Event>, f: Fid)
    requires Run(es).Some? && WaitDriven(es, f)
    ensures ClientInv(Run(es).value, f, ClientOf(es, f), TallyOf(es, f))
  {
    if es != [] {
      var before := es[..|es| - 1];
      WaitDrivenRuns(before, f);
      RunsAreSafe(before);
      StepKeepsHandover(Run(before).value, es[|es| - 1], f, ClientOf(before, f), TallyOf(before, f));
    }
  }

  /** Conservation of stops, and no stale continue flag. */
  lemma StopsAreConserved(es: seq<Event>, f: Fid)
    requires Run(es).Some? && WaitDriven(es, f)
    ensures var n := TallyOf(es, f);
      n.resumes <= n.released <= n.accepted <= n.ready <= n.stops <= n.resumes + 1
    ensures var s := Run(es).value; f in s.files && s.files[f].cont ==> s.files[f].stopped
  {
    WaitDrivenRuns(es, f);
    RunsAreSafe(es);
  }

  /** After a ready poll nothing is refused for "not stopped", until the client's own cont or step. */
  lemma NothingRefusedWhileHolding(es: seq<Event>, f: Fid, e: Event)
    requires Run(es).Some? && WaitDriven(es, f) && ClientOf(es, f) == Holding
    requires Enabled(Run(es).value, e)
    ensures e.CallRegister? && e.f == f && ValidOp(e.op) ==> e.code == 0
    ensures (e.CallCont? || e.CallStep?) && e.f == f ==> e.ok
    ensures e.IsStopped? && e.f == f ==> e.answer
  {
    WaitDrivenRuns(es, f);
    RunsAreSafe(es);
  }

  lemma CallGoesOn(s: State, f: Fid, p: Client)
    requires f in s.files && CallsAgree(s, f, p)
    ensures p.Calling? ==> exists e :: Enabled(s, e) && (e.PushStep? || e.SetContinue?) && e.f == f
    ensures p.Accessing? ==> Enabled(s, Access(p.c, f))
  {
    if p.Calling? {
      if s.calls[p.c].ToPush? {
        assert Enabled(s, PushStep(p.c, f, s.files[f].target));
      } else {
        assert Enabled(s, SetContinue(p.c, f));
      }
    }
  }

  /** No stop is lost: a waiting target has a ready poll, a client at work on it, or its release. */
  lemma NoLostStop(es: seq<Event>, f: Fid)
    requires Run(es).Some? && WaitDriven(es, f)
    requires f in Run(es).value.files && TargetPc(Run(es).value, f) == AtWait(f)
    ensures var s := Run(es).value;
      ClientOf(es, f) == Polling ==> (Enabled(s, Poll(f, true)) != Enabled(s, Wake(f)))
    ensures ClientOf(es, f).Calling? ==>
      (exists e :: Enabled(Run(es).value, e) && (e.PushStep? || e.SetContinue?) && e.f == f)
    ensures ClientOf(es, f).Accessing? ==> Enabled(Run(es).value, Access(ClientOf(es, f).c, f))
  {
    WaitDrivenRuns(es, f);
    CallGoesOn(Run(es).value, f, ClientOf(es, f));
  }

  /** A wait-driven client touches the registers only while its target waits inside the stop window. */
  lemma AccessInsideWindow(es: seq<Event>, f: Fid, c: Cid)
    requires Run(es).Some? && WaitDriven(es, f) && Enabled(Run(es).value, Access(c, f))
    ensures TargetPc(Run(es).value, f) == AtWait(f) && Run(es).value.files[f].stopped
  {
    WaitDrivenRuns(es, f);
    RunsAreSafe(es);
  }
}
