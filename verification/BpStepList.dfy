/**
 The global step list of rwMem/bp.c routes single-step exceptions back to handles. One list for all
 threads behaves like one stack per thread: a step pushes, a step exception pops.
 */
module BpStepList {
  import opened BpProtocol

  /** The handles waiting for a step of thread t, newest first. */
  function EntriesOf(steps: seq<Entry>, t: Tid): seq<Fid> {
    if steps == [] then []
    else (if steps[0].pid == t then [steps[0].file] else []) + EntriesOf(steps[1..], t)
  }

  /** The reference: a stack per thread, driven by the events of the run alone. */
  function StackNext(stack: seq<Fid>, e: Event, t: Tid): seq<Fid> {
    match e
    case PushStep(_, f, u) => if u == t then [f] + stack else stack
    case StepTrap(u, found) => if u == t && found && stack != [] then stack[1..] else stack
    case _ => stack
  }

  function StackOf(es: seq<Event>, t: Tid): seq<Fid> {
    if es == [] then [] else StackNext(StackOf(es[..|es| - 1], t), es[|es| - 1], t)
  }

  function AcceptedSteps(es: seq<Event>, t: Tid): nat {
    if es == [] then 0
    else AcceptedSteps(es[..|es| - 1], t) + (var e := es[|es| - 1]; if e.PushStep? && e.t == t then 1 else 0)
  }

  function RoutedTraps(es: seq<Event>, t: Tid): nat {
    if es == [] then 0
    else RoutedTraps(es[..|es| - 1], t) + (if es[|es| - 1] == StepTrap(t, true) then 1 else 0)
  }

  /** Taking the newest entry of t out of the list pops t's stack and no other. */
  lemma {:induction false} RemovalPops(steps: seq<Entry>, t: Tid, u: Tid)
    requires FindStep(steps, t) < |steps|
    ensures var k := FindStep(steps, t);
      && EntriesOf(steps, t) != [] && EntriesOf(steps, t)[0] == steps[k].file
      && EntriesOf(steps[..k] + steps[k + 1..], u) == if u == t then EntriesOf(steps, t)[1..] else EntriesOf(steps, u)
  {
    var k := FindStep(steps, t);
    if k == 0 {
      assert steps[..0] + steps[1..] == steps[1..];
    } else {
      RemovalPops(steps[1..], t, u);
      var rest := steps[..k] + steps[k + 1..];
      assert rest[1..] == steps[1..][..k - 1] + steps[1..][k..];
      assert rest[0] == steps[0];
    }
  }

  lemma {:induction false} FoundIffQueued(steps: seq<Entry>, t: Tid)
    ensures FindStep(steps, t) < |steps| <==> EntriesOf(steps, t) != []
  {
    if steps != [] {
      FoundIffQueued(steps[1..], t);
    }
  }

  lemma {:induction false} MarkingKeepsEntries(steps: seq<Entry>, f: Fid, t: Tid)
    ensures EntriesOf(MarkRemoved(steps, f), t) == EntriesOf(steps, t)
  {
    if steps != [] {
      if steps[0].file == f {
        assert MarkRemoved(steps, f)[1..] == steps[1..];
      } else {
        MarkingKeepsEntries(steps[1..], f, t);
        assert MarkRemoved(steps, f)[1..] == MarkRemoved(steps[1..], f);
      }
    }
  }

  lemma PushPushes(steps: seq<Entry>, u: Tid, f: Fid, t: Tid)
    ensures EntriesOf([Entry(u, f, false)] + steps, t) == (if u == t then [f] else []) + EntriesOf(steps, t)
  {
    assert ([Entry(u, f, false)] + steps)[1..] == steps;
  }

  lemma TrapPops(s: State, u: Tid, t: Tid)
    requires Enabled(s, StepTrap(u, true))
    ensures EntriesOf(Apply(s, StepTrap(u, true)).steps, t) == StackNext(EntriesOf(s.steps, t), StepTrap(u, true), t)
  {
    TrapUnlinks(s, u);
    RemovalPops(s.steps, u, t);
  }

  lemma TrapUnlinks(s: State, u: Tid)
    requires Enabled(s, StepTrap(u, true))
    ensures var k := FindStep(s.steps, u);
      k < |s.steps| && Apply(s, StepTrap(u, true)).steps == s.steps[..k] + s.steps[k + 1..]
  {
  }

  lemma StepRefinesStack(s: State, e: Event, t: Tid)
    requires Enabled(s, e)
    ensures EntriesOf(Apply(s, e).steps, t) == StackNext(EntriesOf(s.steps, t), e, t)
  {
    match e
    case StepTrap(u, found) => if found { TrapPops(s, u, t); }
    case PushStep(_, f, u) => PushPushes(s.steps, u, f, t);
    case Close(f) => MarkingKeepsEntries(s.steps, f, t);
    case _ => assert Apply(s, e).steps == s.steps;
  }

  /** In every run the step list holds exactly the per-thread stacks, and its size is conserved. */
  lemma {:induction false} StepListIsAStackPerThread(es: seq<Event>, t: Tid)
    requires Run(es).Some?
    ensures EntriesOf(Run(es).value.steps, t) == StackOf(es, t)
    ensures |StackOf(es, t)| == AcceptedSteps(es, t) - RoutedTraps(es, t)
  {
    if es != [] {
      var before, e := es[..|es| - 1], es[|es| - 1];
      var s := Run(before).value;
      StepListIsAStackPerThread(before, t);
      StepRefinesStack(s, e, t);
      if e.StepTrap? {
        FoundIffQueued(s.steps, e.t);
      }
    }
  }

  // ---------------------------------------------------------------------------------------------
  // Routing
  // ---------------------------------------------------------------------------------------------

  /** Every entry that names an open file is live. */
  ghost predicate OpenEntriesLive(s: State) {
    forall i :: 0 <= i < |s.steps| && s.steps[i].file in s.files ==> !s.steps[i].removed
  }

  lemma CloseKeepsLive(s: State, f: Fid)
    requires OpenEntriesLive(s) && f in s.files
    ensures OpenEntriesLive(Closed(s, f))
  {
    MarkRemovedEntries(s.steps, f);
  }

  lemma TrapKeepsLive(s: State, t: Tid)
    requires OpenEntriesLive(s) && Enabled(s, StepTrap(t, true))
    ensures OpenEntriesLive(Apply(s, StepTrap(t, true)))
  {
    var s', k := Apply(s, StepTrap(t, true)), FindStep(s.steps, t);
    assert forall i :: 0 <= i < |s'.steps| ==> s'.steps[i] == s.steps[if i < k then i else i + 1];
  }

  lemma StepKeepsLive(s: State, e: Event)
    requires OpenEntriesLive(s) && Enabled(s, e)
    ensures OpenEntriesLive(Apply(s, e))
  {
    match e
    case Close(f) => CloseKeepsLive(s, f);
    case StepTrap(t, found) => if found { TrapKeepsLive(s, t); }
    case Open(f, t) => assert Apply(s, e).steps == s.steps;
    case PushStep(_, _, _) =>
    case _ => assert Apply(s, e).steps == s.steps && Apply(s, e).files.Keys == s.files.Keys;
  }

  lemma {:induction false} RunsKeepLive(es: seq<Event>)
    requires Run(es).Some?
    ensures OpenEntriesLive(Run(es).value)
  {
    if es != [] {
      RunsKeepLive(es[..|es| - 1]);
      StepKeepsLive(Run(es[..|es| - 1]).value, es[|es| - 1]);
    }
  }

  /** What a recognised step exception does: the newest handle of the thread gets work, if it is open. */
  lemma TrapRouting(s: State, t: Tid)
    requires Inv(s) && OpenEntriesLive(s) && Enabled(s, StepTrap(t, true))
    ensures var s' := Apply(s, StepTrap(t, true)); var stack := EntriesOf(s.steps, t);
      && s'.files == s.files && s'.calls == s.calls && stack != []
      && (forall u :: u != t ==> ThreadOf(s', u) == ThreadOf(s, u))
      && (stack[0] in s.files ==> OwnThread(s, t, stack[0]))
      && ThreadOf(s', t) == if stack[0] !in s.files then ThreadOf(s, t)
                            else Thread(User, ThreadOf(s, t).pending + [stack[0]])
  {
    var k := FindStep(s.steps, t);
    RemovalPops(s.steps, t, t);
    assert s.steps[k].removed <==> s.steps[k].file !in s.files by {
      assert !s.steps[k].removed ==> OwnThread(s, s.steps[k].pid, s.steps[k].file);
    }
  }

  /**
   A step exception on t is recognised exactly when t's stack has an entry. Then the handle on top of the stack
   gets one more work on t, if it is open, and it debugs t; nothing else is queued anywhere.
   */
  lemma StepTrapIsRoutedToItsThread(es: seq<Event>, t: Tid, found: bool)
    requires Run(es).Some? && Enabled(Run(es).value, StepTrap(t, found))
    ensures found <==> StackOf(es, t) != []
    ensures var s := Run(es).value; var s' := Apply(s, StepTrap(t, found));
      && s'.files == s.files && s'.calls == s.calls
      && (forall u :: u != t ==> ThreadOf(s', u) == ThreadOf(s, u))
      && (found && StackOf(es, t)[0] in s.files ==>
            && s.files[StackOf(es, t)[0]].target == t
            && ThreadOf(s', t) == Thread(User, ThreadOf(s, t).pending + [StackOf(es, t)[0]]))
      && (!found || StackOf(es, t)[0] !in s.files ==> ThreadOf(s', t) == ThreadOf(s, t))
  {
    var s := Run(es).value;
    RunsAreSafe(es);
    RunsKeepLive(es);
    StepListIsAStackPerThread(es, t);
    FoundIffQueued(s.steps, t);
    if found {
      TrapRouting(s, t);
    }
  }
}
