/**
 Every breakpoint hit and every recognised step exception of an open handle becomes exactly one stop of that
 handle: none is lost and none is made up, for any clients. And nothing but the wait for a client can keep a
 target from going on.
 */
module BpStops {
  import opened BpProtocol
  import opened BpClient
  import opened BpStepList
  import opened BpRelease

  /** f is open after es, from the events alone. */
  function OpenIn(es: seq<Event>, f: Fid): bool {
    es != [] &&
      var e := es[|es| - 1];
      if e.Open? && e.f == f then true
      else if e == Close(f) then false
      else OpenIn(es[..|es| - 1], f)
  }

  lemma {:induction false} OpenInIsOpen(es: seq<Event>, f: Fid)
    requires Run(es).Some?
    ensures OpenIn(es, f) <==> f in Run(es).value.files
  {
    if es != [] {
      var front, e := es[..|es| - 1], es[|es| - 1];
      OpenInIsOpen(front, f);
      assert Run(es).value == Apply(Run(front).value, e);
    }
  }

  /** After es, the event e is a hit of f, or a step exception that answers a step of the open handle f. */
  predicate Raises(es: seq<Event>, e: Event, f: Fid) {
    || e == Hit(f)
    || (e.StepTrap? && e.found && StackOf(es, e.t) != [] && StackOf(es, e.t)[0] == f && OpenIn(es, f))
  }

  function Raised(es: seq<Event>, f: Fid): nat {
    if es == [] then 0
    else Raised(es[..|es| - 1], f) + if Raises(es[..|es| - 1], es[|es| - 1], f) then 1 else 0
  }

  function Begun(es: seq<Event>, f: Fid): nat {
    if es == [] then 0
    else Begun(es[..|es| - 1], f) + (var e := es[|es| - 1]; if e.Begin? && e.f == f then 1 else 0)
  }

  /** Works of f that wait on its thread. */
  function Queued(s: State, f: Fid): nat {
    if f in s.files then Occurrences(ThreadOf(s, s.files[f].target).pending, f) else 0
  }

  /** A work of f that has begun and not yet set stopped_flag. */
  function Starting(s: State, f: Fid): nat {
    if f in s.files && TargetPc(s, f) == AtMarkStopped(f) then 1 else 0
  }

  lemma {:induction false} OccurrencesJoin(a: seq<Fid>, b: seq<Fid>, f: Fid)
    ensures Occurrences(a + b, f) == Occurrences(a, f) + Occurrences(b, f)
  {
    if a == [] {
      assert a + b == b;
    } else {
      OccurrencesJoin(a[1..], b, f);
      assert (a + b)[1..] == a[1..] + b;
    }
  }

  lemma OccurrencesOne(g: Fid, f: Fid)
    ensures Occurrences([g], f) == if g == f then 1 else 0
  {
    assert [g][1..] == [];
  }

  /** Taking work number k off a queue. */
  lemma OccurrencesWithout(p: seq<Fid>, k: nat, f: Fid)
    requires k < |p|
    ensures Occurrences(p, f) == Occurrences(p[..k] + p[k + 1..], f) + if p[k] == f then 1 else 0
  {
    assert p == p[..k] + ([p[k]] + p[k + 1..]);
    OccurrencesJoin(p[..k], [p[k]] + p[k + 1..], f);
    OccurrencesJoin([p[k]], p[k + 1..], f);
    OccurrencesJoin(p[..k], p[k + 1..], f);
    OccurrencesOne(p[k], f);
  }

  /** A hit adds one work at the end of the queue of its thread, whatever stands there already. */
  lemma HitQueues(s: State, f: Fid)
    requires f in s.files && TargetPc(s, f) == User
    ensures Enabled(s, Hit(f))
    ensures var s' := Apply(s, Hit(f)); var t := s.files[f].target;
      && s'.files == s.files && s'.calls == s.calls && s'.steps == s.steps
      && ThreadOf(s', t) == Thread(User, ThreadOf(s, t).pending + [f])
      && forall u :: u != t ==> ThreadOf(s', u) == ThreadOf(s, u)
  {
  }

  /** Work for g has been put at the end of the queue of thread t. */
  lemma WorkIsQueued(s: State, s': State, t: Tid, g: Fid, f: Fid)
    requires s'.files == s.files && OwnThread(s, t, g)
    requires ThreadOf(s, t).pc == User && ThreadOf(s', t) == Thread(User, ThreadOf(s, t).pending + [g])
    requires forall u :: u != t ==> ThreadOf(s', u) == ThreadOf(s, u)
    ensures Queued(s', f) == Queued(s, f) + if g == f then 1 else 0
    ensures Starting(s', f) == Starting(s, f)
  {
    OccurrencesJoin(ThreadOf(s, t).pending, [g], f);
    OccurrencesOne(g, f);
  }

  lemma BeginTakes(s: State, g: Fid, k: nat, f: Fid)
    requires Enabled(s, Begin(g, k))
    ensures var s' := Apply(s, Begin(g, k)); var one := if g == f then 1 else 0;
      Queued(s, f) == Queued(s', f) + one && Starting(s', f) == Starting(s, f) + one
  {
    OccurrencesWithout(ThreadOf(s, s.files[g].target).pending, k, f);
  }

  /** Events that neither queue nor take work leave the queues alone. */
  lemma OthersLeaveQueues(s: State, e: Event, t: Tid)
    requires Enabled(s, e) && !e.Hit? && !e.StepTrap? && !e.Begin?
    ensures ThreadOf(Apply(s, e), t).pending == ThreadOf(s, t).pending
  {
  }

  lemma OthersLeaveStarting(s: State, e: Event, f: Fid)
    requires Inv(s) && Enabled(s, e) && !e.Hit? && !e.StepTrap? && !e.Begin?
    requires f in s.files && f in Apply(s, e).files
    ensures Starting(s, f) == Starting(Apply(s, e), f) + if e == MarkStopped(f) then 1 else 0
  {
    if e.MarkStopped? || e.RaisePoll? || e.Wake? || e.DropPoll? || e.ClearFlags? {
      TargetLeavesStarting(s, e, f);
    } else {
      assert Apply(s, e).threads == s.threads;
    }
  }

  lemma TargetLeavesStarting(s: State, e: Event, f: Fid)
    requires Inv(s) && Enabled(s, e) && f in s.files
    requires e.MarkStopped? || e.RaisePoll? || e.Wake? || e.DropPoll? || e.ClearFlags?
    ensures Starting(s, f) == Starting(Apply(s, e), f) + if e == MarkStopped(f) then 1 else 0
  {
    assert TargetPc(s, e.f).file == e.f;
  }

  /** A handle that is opened or closed has no work. */
  lemma OpenAndCloseHaveNoWork(s: State, e: Event, f: Fid)
    requires Inv(s) && Enabled(s, e) && (e.Close? || e.Open?) && e.f == f
    ensures Queued(s, f) == Starting(s, f) == Queued(Apply(s, e), f) == Starting(Apply(s, e), f) == 0
  {
    assert Apply(s, e).threads == s.threads;
  }

  lemma OthersMoveNoWork(s: State, e: Event, f: Fid)
    requires Inv(s) && Enabled(s, e) && !e.Hit? && !e.StepTrap? && !e.Begin?
    ensures Queued(Apply(s, e), f) == Queued(s, f)
    ensures Starting(s, f) == Starting(Apply(s, e), f) + if e == MarkStopped(f) then 1 else 0
  {
    if (e.Open? || e.Close?) && e.f == f {
      OpenAndCloseHaveNoWork(s, e, f);
    } else if f in s.files {
      OthersLeaveQueues(s, e, s.files[f].target);
      assert f in Apply(s, e).files && Apply(s, e).files[f].target == s.files[f].target;
      OthersLeaveStarting(s, e, f);
    }
  }

  lemma TrapMovesWork(es: seq<Event>, s: State, t: Tid, found: bool, f: Fid)
    requires Reaches(es, s) && Enabled(s, StepTrap(t, found))
    ensures var e := StepTrap(t, found); var s' := Apply(s, e);
      && Queued(s', f) == Queued(s, f) + (if Raises(es, e, f) then 1 else 0)
      && Starting(s', f) == Starting(s, f)
  {
    StepTrapIsRoutedToItsThread(es, t, found);
    if found {
      var g := StackOf(es, t)[0];
      OpenInIsOpen(es, g);
      if g in s.files {
        WorkIsQueued(s, Apply(s, StepTrap(t, found)), t, g, f);
      }
    }
  }

  /** What one event of a run does to the works of f. */
  lemma StepMovesWork(es: seq<Event>, s: State, e: Event, f: Fid)
    requires Reaches(es, s) && Enabled(s, e)
    ensures var s' := Apply(s, e); var begins := e.Begin? && e.f == f;
      && Queued(s', f) + (if begins then 1 else 0) == Queued(s, f) + (if Raises(es, e, f) then 1 else 0)
      && Starting(s', f) + (if e == MarkStopped(f) then 1 else 0) == Starting(s, f) + (if begins then 1 else 0)
  {
    RunsAreSafe(es);
    match e
    case Hit(g) =>
      HitQueues(s, g);
      WorkIsQueued(s, Apply(s, e), s.files[g].target, g, f);
    case StepTrap(t, found) => TrapMovesWork(es, s, t, found, f);
    case Begin(g, k) => BeginTakes(s, g, k, f);
    case _ => OthersMoveNoWork(s, e, f);
  }

  /**
   In every run, with any clients: hits of f and step exceptions that answer a step of the open handle f are
   stops of f, or works that wait, or a work that is about to stop.
   */
  lemma {:induction false} EveryHitStops(es: seq<Event>, f: Fid)
    requires Run(es).Some?
    ensures Raised(es, f) == Begun(es, f) + Queued(Run(es).value, f)
    ensures Begun(es, f) == TallyOf(es, f).stops + Starting(Run(es).value, f)
  {
    if es != [] {
      var before, e := es[..|es| - 1], es[|es| - 1];
      EveryHitStops(before, f);
      StepMovesWork(before, Run(before).value, e, f);
    }
  }

  /**
   In every run a thread goes on: in user mode it can take any of its works, meet a breakpoint of any handle
   that debugs it, and have a step exception; inside the callback its next statement can run, and only the wait
   needs continue_flag.
   */
  lemma TargetsGoOn(es: seq<Event>, f: Fid)
    requires Run(es).Some? && f in Run(es).value.files
    ensures var s := Run(es).value; var t := s.files[f].target; var th := ThreadOf(s, t);
      match th.pc
      case User =>
        && Enabled(s, Hit(f)) && (exists found :: Enabled(s, StepTrap(t, found)))
        && (forall k :: 0 <= k < |th.pending| ==> Enabled(s, Begin(th.pending[k], k)))
      case AtMarkStopped(g) => Enabled(s, MarkStopped(g))
      case AtRaisePoll(g) => Enabled(s, RaisePoll(g))
      case AtWait(g) => g in s.files && (Enabled(s, Wake(g)) <==> s.files[g].cont)
      case AtDropPoll(g) => Enabled(s, DropPoll(g))
      case AtClearFlags(g) => Enabled(s, ClearFlags(g))
  {
    RunsAreSafe(es);
    var s := Run(es).value;
    var t := s.files[f].target;
    if ThreadOf(s, t).pc == User {
      assert Enabled(s, StepTrap(t, FindStep(s.steps, t) < |s.steps|));
    } else {
      assert OwnThread(s, t, ThreadOf(s, t).pc.file);
    }
  }
}
