/**
 When a handle may be closed. Release marks one step entry of its file, so a second live one would go on naming
 a file that no longer exists. How many there are follows from the history: accepted steps that no step
 exception has answered yet. The discipline of a wait-driven client does not bound their number.
 */
module BpRelease {
  import opened BpProtocol
  import opened BpClient
  import opened BpStepList

  /** How often f occurs in a stack. */
  function Occurrences(stack: seq<Fid>, f: Fid): (n: nat)
    ensures n > 0 <==> f in stack
  {
    if stack == [] then 0 else (if stack[0] == f then 1 else 0) + Occurrences(stack[1..], f)
  }

  /** The accepted steps of f on thread t that no step exception has answered yet, from the events alone. */
  function Unanswered(es: seq<Event>, t: Tid, f: Fid): nat {
    Occurrences(StackOf(es, t), f)
  }

  /** All entries of f are live and on thread t. */
  ghost predicate LiveOn(steps: seq<Entry>, t: Tid, f: Fid) {
    forall i :: 0 <= i < |steps| && steps[i].file == f ==> steps[i].pid == t && !steps[i].removed
  }

  lemma {:induction false} EntriesCount(steps: seq<Entry>, t: Tid, f: Fid)
    requires LiveOn(steps, t, f)
    ensures f in EntriesOf(steps, t) <==> exists i :: 0 <= i < |steps| && steps[i].file == f
    ensures OneLiveEntry(steps, f) <==> Occurrences(EntriesOf(steps, t), f) <= 1
  {
    if steps != [] {
      var rest := steps[1..];
      EntriesCount(rest, t, f);
      EntriesOfCons(steps, t);
      OneLiveEntryCons(steps, f);
      assert forall i :: 0 < i < |steps| ==> steps[i] == rest[i - 1];
    }
  }

  lemma EntriesOfCons(steps: seq<Entry>, t: Tid)
    requires steps != []
    ensures EntriesOf(steps, t) == if steps[0].pid == t then [steps[0].file] + EntriesOf(steps[1..], t)
                                   else EntriesOf(steps[1..], t)
  {
  }

  lemma OneLiveEntryCons(steps: seq<Entry>, f: Fid)
    requires steps != [] && forall i :: 0 <= i < |steps| && steps[i].file == f ==> !steps[i].removed
    ensures var rest := steps[1..];
      OneLiveEntry(steps, f) <==>
        OneLiveEntry(rest, f) && (steps[0].file == f ==> forall i :: 0 <= i < |rest| ==> rest[i].file != f)
  {
    var rest := steps[1..];
    assert forall i :: 0 < i < |steps| ==> steps[i] == rest[i - 1];
    assert forall i :: 0 <= i < |rest| ==> rest[i] == steps[i + 1];
  }

  /**
   For every run and every idle open handle: closing it keeps the invariant if and only if at most one of its
   accepted steps is still unanswered by a step exception.
   */
  lemma CloseIsSafeIffAnswered(es: seq<Event>, f: Fid)
    requires Run(es).Some? && f in Run(es).value.files && Idle(Run(es).value, f)
    ensures var s := Run(es).value;
      Inv(Closed(s, f)) <==> Unanswered(es, s.files[f].target, f) <= 1
  {
    var s := Run(es).value;
    var t := s.files[f].target;
    RunsAreSafe(es);
    RunsKeepLive(es);
    StepListIsAStackPerThread(es, t);
    forall i | 0 <= i < |s.steps| && s.steps[i].file == f
      ensures s.steps[i].pid == t && !s.steps[i].removed
    {
      assert OwnThread(s, s.steps[i].pid, s.steps[i].file);
    }
    EntriesCount(s.steps, t, f);
    CloseIsSafeIff(s, f);
  }

  // ---------------------------------------------------------------------------------------------
  // A disciplined client with two unanswered steps
  // ---------------------------------------------------------------------------------------------

  /** es reaches s, and the client of f is disciplined and at p. */
  ghost predicate At(es: seq<Event>, s: State, f: Fid, p: Client) {
    Reaches(es, s) && ClientOf(es, f) == p
  }

  lemma Go(es: seq<Event>, s: State, f: Fid, p: Client, e: Event, s': State) returns (es': seq<Event>)
    requires At(es, s, f, p) && Enabled(s, e)
    requires var a := Apply(s, e);
      a.files == s'.files && a.threads == s'.threads && a.calls == s'.calls && a.steps == s'.steps
    ensures At(es', s', f, ClientNext(p, e, f))
  {
    es' := RunExtends(es, s, e, s');
    assert es'[..|es'| - 1] == es && es'[|es'| - 1] == e;
  }

  /** One handle, its thread, and its step entries. */
  function Alone(f: Fid, h: Handle, pc: Pc, pending: seq<Fid>, calls: map<Cid, Call>, steps: seq<Entry>): State {
    State(map[f := h], map[h.target := Thread(pc, pending)], calls, steps)
  }

  function Resting(f: Fid, t: Tid, steps: seq<Entry>): State {
    Alone(f, Handle(t, false, false, false), User, [], map[], steps)
  }

  /** The handle rests, whether or not its thread has a record yet. */
  ghost predicate Rests(s: State, f: Fid, t: Tid, steps: seq<Entry>) {
    && s.files == map[f := Handle(t, false, false, false)] && s.calls == map[] && s.steps == steps
    && (s.threads == map[] || s.threads == map[t := Thread(User, [])])
  }

  /** A breakpoint hit, up to the wait. */
  lemma HitAndWait(es: seq<Event>, s: State, f: Fid, t: Tid, steps: seq<Entry>) returns (es': seq<Event>)
    requires At(es, s, f, Polling) && Rests(s, f, t, steps)
    ensures At(es', Alone(f, Handle(t, true, false, true), AtWait(f), [], map[], steps), f, Polling)
  {
    var h := Handle(t, false, false, false);
    var s1 := Alone(f, h, User, [f], map[], steps);
    var s2 := Alone(f, h, AtMarkStopped(f), [], map[], steps);
    assert [] + [f] == [f] && [f][..0] + [f][1..] == [];
    es' := Go(es, s, f, Polling, Hit(f), s1);
    es' := Go(es', s1, f, Polling, Begin(f, 0), s2);
    es' := StopAndWait(es', f, t, steps);
  }

  lemma StopAndWait(es: seq<Event>, f: Fid, t: Tid, steps: seq<Entry>) returns (es': seq<Event>)
    requires At(es, Alone(f, Handle(t, false, false, false), AtMarkStopped(f), [], map[], steps), f, Polling)
    ensures At(es', Alone(f, Handle(t, true, false, true), AtWait(f), [], map[], steps), f, Polling)
  {
    var s2 := Alone(f, Handle(t, false, false, false), AtMarkStopped(f), [], map[], steps);
    var s3 := Alone(f, Handle(t, true, false, false), AtRaisePoll(f), [], map[], steps);
    es' := Go(es, s2, f, Polling, MarkStopped(f), s3);
    es' := Go(es', s3, f, Polling, RaisePoll(f), Alone(f, Handle(t, true, false, true), AtWait(f), [], map[], steps));
  }

  /** The client polls and steps. */
  lemma PollAndStep(es: seq<Event>, f: Fid, t: Tid, steps: seq<Entry>) returns (es': seq<Event>)
    requires At(es, Alone(f, Handle(t, true, false, true), AtWait(f), [], map[], steps), f, Polling)
    ensures At(es', Alone(f, Handle(t, true, false, false), AtWait(f), [], map[0 := ToPush(f)], steps), f, Calling(0))
  {
    var h := Handle(t, true, false, false);
    var s4 := Alone(f, h.(poll := true), AtWait(f), [], map[], steps);
    var s5 := Alone(f, h, AtWait(f), [], map[], steps);
    es' := Go(es, s4, f, Polling, Poll(f, true), s5);
    es' := Go(es', s5, f, Holding, CallStep(0, f, true), Alone(f, h, AtWait(f), [], map[0 := ToPush(f)], steps));
  }

  lemma FinishStep(es: seq<Event>, f: Fid, t: Tid, steps: seq<Entry>) returns (es': seq<Event>)
    requires At(es, Alone(f, Handle(t, true, false, false), AtWait(f), [], map[0 := ToPush(f)], steps), f, Calling(0))
    ensures var s' := Alone(f, Handle(t, true, true, false), AtWait(f), [], map[], [Entry(t, f, false)] + steps);
      At(es', s', f, Polling)
  {
    var h, more := Handle(t, true, false, false), [Entry(t, f, false)] + steps;
    var s6 := Alone(f, h, AtWait(f), [], map[0 := ToPush(f)], steps);
    var s7 := Alone(f, h, AtWait(f), [], map[0 := ToContinue(f)], more);
    es' := Go(es, s6, f, Calling(0), PushStep(0, f, t), s7);
    es' := Go(es', s7, f, Calling(0), SetContinue(0, f), Alone(f, h.(cont := true), AtWait(f), [], map[], more));
  }

  /** The target goes on. */
  lemma Resume(es: seq<Event>, f: Fid, t: Tid, steps: seq<Entry>) returns (es': seq<Event>)
    requires At(es, Alone(f, Handle(t, true, true, false), AtWait(f), [], map[], steps), f, Polling)
    ensures At(es', Resting(f, t, steps), f, Polling)
  {
    var h := Handle(t, true, true, false);
    var s8 := Alone(f, h, AtWait(f), [], map[], steps);
    var s9 := Alone(f, h, AtDropPoll(f), [], map[], steps);
    var s10 := Alone(f, h, AtClearFlags(f), [], map[], steps);
    es' := Go(es, s8, f, Polling, Wake(f), s9);
    es' := Go(es', s9, f, Polling, DropPoll(f), s10);
    es' := Clear(es', f, t, steps);
  }

  lemma Clear(es: seq<Event>, f: Fid, t: Tid, steps: seq<Entry>) returns (es': seq<Event>)
    requires At(es, Alone(f, Handle(t, true, true, false), AtClearFlags(f), [], map[], steps), f, Polling)
    ensures At(es', Resting(f, t, steps), f, Polling)
  {
    var s10 := Alone(f, Handle(t, true, true, false), AtClearFlags(f), [], map[], steps);
    es' := Go(es, s10, f, Polling, ClearFlags(f), Resting(f, t, steps));
  }

  /** A breakpoint is hit and the client steps, in good order, but no step exception follows. */
  lemma HitAndStep(es: seq<Event>, s: State, f: Fid, t: Tid, steps: seq<Entry>) returns (es': seq<Event>)
    requires At(es, s, f, Polling) && Rests(s, f, t, steps)
    ensures At(es', Resting(f, t, [Entry(t, f, false)] + steps), f, Polling)
  {
    es' := HitAndWait(es, s, f, t, steps);
    es' := PollAndStep(es', f, t, steps);
    es' := FinishStep(es', f, t, steps);
    es' := Resume(es', f, t, [Entry(t, f, false)] + steps);
  }

  /** A wait-driven client can reach an idle handle that must not be closed: no two of its calls overlap. */
  lemma WaitDrivenCloseUnsafe(f: Fid, t: Tid) returns (es: seq<Event>)
    ensures Run(es).Some? && WaitDriven(es, f)
    ensures f in Run(es).value.files && Idle(Run(es).value, f) && !Inv(Closed(Run(es).value, f))
  {
    var s0 := State(map[f := Handle(t, false, false, false)], map[], map[], []);
    var one := [Entry(t, f, false)] + [];
    var s2 := Resting(f, t, [Entry(t, f, false)] + one);
    es := Go([], Init(), f, Polling, Open(f, t), s0);
    es := HitAndStep(es, s0, f, t, []);
    es := HitAndStep(es, Resting(f, t, one), f, t, one);
    assert s2.steps[0].file == f && s2.steps[1].file == f && !s2.steps[1].removed;
    RunsAreSafe(es);
    CloseIsSafeIff(s2, f);
  }
}
