/**
 When "continue implies stopped" holds, for any clients: exactly as long as the target never clears its
 flags while a cont or step call of the same handle is still in flight.
 */
module BpStaleFlag {
  import opened Options
  import opened BpProtocol
  import opened BpClient

  /** continue_flag is set although the target of f runs: the next stop would not wait. */
  predicate Stale(s: State, f: Fid) {
    f in s.files && s.files[f].cont && !s.files[f].stopped
  }

  /** A cont or step call of f is in flight. */
  predicate InFlight(s: State, f: Fid) {
    exists c :: c in s.calls && s.calls[c].file == f && !s.calls[c].ToAccess?
  }

  /** One event makes a flag stale if and only if it is the end of a call that comes after the target resumed. */
  lemma StaleStep(s: State, e: Event, f: Fid)
    requires Inv(s) && Enabled(s, e) && !Stale(s, f)
    ensures Stale(Apply(s, e), f) <==> e.SetContinue? && e.f == f && !s.files[f].stopped
  {
    if f in s.files && e != Close(f) && !TargetMoves(e, f) {
      if ClientMoves(e, f) {
        ClientStep(s, e, f);
      } else {
        OthersLeaveFlags(s, e, f);
      }
    } else {
      NotStaleWithoutClient(s, e, f);
    }
  }

  lemma NotStaleWithoutClient(s: State, e: Event, f: Fid)
    requires Inv(s) && Enabled(s, e) && !Stale(s, f) && (f in s.files ==> e == Close(f) || TargetMoves(e, f))
    ensures !Stale(Apply(s, e), f) && !(e.SetContinue? && e.f == f)
  {
  }

  lemma ClientStep(s: State, e: Event, f: Fid)
    requires Enabled(s, e) && f in s.files && ClientMoves(e, f)
    ensures var h := if e.SetContinue? then s.files[f].(cont := true)
                     else if e.Poll? then s.files[f].(poll := false)
                     else s.files[f];
      Apply(s, e).files == s.files[f := h]
  {
  }

  lemma OthersLeaveFlags(s: State, e: Event, f: Fid)
    requires Inv(s) && Enabled(s, e) && f in s.files && e != Close(f) && !TargetMoves(e, f) && !ClientMoves(e, f)
    ensures LeavesHandle(s, Apply(s, e), f)
  {
    if IsClient(e) {
      OtherClientsLeaveHandle(s, e, f);
    } else {
      OtherTargetsLeaveHandle(s, e, f);
    }
  }

  /** A handle that is not stopped has no call in flight and no continue flag. */
  ghost predicate Settled(s: State, f: Fid) {
    f in s.files && !s.files[f].stopped ==> !s.files[f].cont && !InFlight(s, f)
  }

  /** Any event but a clear with a call in flight keeps a handle settled. */
  lemma StepKeepsSettled(s: State, e: Event, f: Fid)
    requires Inv(s) && Enabled(s, e) && Settled(s, f)
    requires e == ClearFlags(f) ==> !InFlight(s, f)
    ensures Settled(Apply(s, e), f)
  {
    if IsCallEvent(e) {
      CallStepKeepsSettled(s, e, f);
    } else if f in s.files && e != Close(f) {
      assert Apply(s, e).calls == s.calls;
      if !TargetMoves(e, f) && !ClientMoves(e, f) {
        OthersLeaveFlags(s, e, f);
      }
    } else {
      assert Apply(s, e).calls == s.calls;
    }
  }

  lemma CallStepKeepsSettled(s: State, e: Event, f: Fid)
    requires Inv(s) && Enabled(s, e) && Settled(s, f)
    requires IsCallEvent(e)
    ensures Settled(Apply(s, e), f)
  {
    if e.CallRegister? || e.CallCont? || e.CallStep? {
      StartKeepsSettled(s, e, f);
    } else {
      MoveKeepsSettled(s, e, f);
    }
  }

  lemma StartKeepsSettled(s: State, e: Event, f: Fid)
    requires Inv(s) && Enabled(s, e) && Settled(s, f)
    requires e.CallRegister? || e.CallCont? || e.CallStep?
    ensures Settled(Apply(s, e), f)
  {
    assert Apply(s, e).files == s.files;
  }

  lemma MoveKeepsSettled(s: State, e: Event, f: Fid)
    requires Inv(s) && Enabled(s, e) && Settled(s, f)
    requires e.PushStep? || e.SetContinue? || e.Access?
    ensures Settled(Apply(s, e), f)
  {
    var s' := Apply(s, e);
    assert forall c :: c in s'.calls ==>
      c in s.calls && s'.calls[c].file == s.calls[c].file && s'.calls[c].ToAccess? == s.calls[c].ToAccess?;
    assert f in s'.files ==> s'.files[f].stopped == s.files[f].stopped;
  }

  /** Whenever the target of f cleared its flags, no cont or step call of f was in flight. */
  ghost predicate ClearsAlone(es: seq<Event>, f: Fid) {
    forall n :: 0 <= n < |es| && es[n] == ClearFlags(f) ==> ClearedAlone(es, f, n)
  }

  ghost predicate ClearedAlone(es: seq<Event>, f: Fid, n: nat)
    requires n <= |es|
  {
    Run(es[..n]).Some? && !InFlight(Run(es[..n]).value, f)
  }

  lemma {:induction false} PrefixRuns(es: seq<Event>, n: nat)
    requires Run(es).Some? && n <= |es|
    ensures Run(es[..n]).Some?
    decreases |es|
  {
    if n == |es| {
      assert es[..n] == es;
    } else {
      PrefixRuns(es[..|es| - 1], n);
      assert es[..|es| - 1][..n] == es[..n];
    }
  }

  lemma ClearsAlonePrefix(es: seq<Event>, f: Fid, m: nat)
    requires ClearsAlone(es, f) && m <= |es|
    ensures ClearsAlone(es[..m], f)
  {
    forall n | 0 <= n < m && es[..m][n] == ClearFlags(f)
      ensures ClearedAlone(es[..m], f, n)
    {
      assert ClearedAlone(es, f, n);
      assert es[..m][..n] == es[..n];
    }
  }

  /** A run that clears alone keeps the handle settled, so its flag is never stale, whatever clients do. */
  lemma {:induction false} ClearsAloneSettles(es: seq<Event>, f: Fid)
    requires Run(es).Some? && ClearsAlone(es, f)
    ensures Settled(Run(es).value, f)
    decreases |es|
  {
    if es != [] {
      var last := |es| - 1;
      ClearsAlonePrefix(es, f, last);
      ClearsAloneSettles(es[..last], f);
      RunsAreSafe(es[..last]);
      assert es[last] == ClearFlags(f) ==> ClearedAlone(es, f, last);
      StepKeepsSettled(Run(es[..last]).value, es[last], f);
    }
  }

  /** Nothing but the rest of calls that are already in flight. */
  predicate Finishes(tail: seq<Event>) {
    forall i :: 0 <= i < |tail| ==> tail[i].PushStep? || tail[i].SetContinue?
  }

  /** After n events of es, and then the rest of some calls, the flag of f is stale. */
  ghost predicate StaleAfter(es: seq<Event>, f: Fid, n: nat, tail: seq<Event>)
    requires n <= |es|
  {
    Finishes(tail) && Run(es[..n] + tail).Some? && Stale(Run(es[..n] + tail).value, f)
  }

  /** No part of the run can become stale by calls running to their end. */
  ghost predicate NeverStale(es: seq<Event>, f: Fid) {
    forall n, tail :: 0 <= n <= |es| ==> !StaleAfter(es, f, n, tail)
  }

  lemma FinishingClearsNothing(es: seq<Event>, f: Fid, n: nat, tail: seq<Event>)
    requires ClearsAlone(es, f) && n <= |es| && Finishes(tail)
    ensures ClearsAlone(es[..n] + tail, f)
  {
    var fs := es[..n] + tail;
    forall m | n <= m < |fs|
      ensures fs[m] != ClearFlags(f)
    {
      assert fs[m] == tail[m - n];
    }
    forall m | 0 <= m < |fs| && fs[m] == ClearFlags(f)
      ensures ClearedAlone(fs, f, m)
    {
      assert m < n;
      assert ClearedAlone(es, f, m);
      assert fs[..m] == es[..m];
    }
  }

  lemma RunOn(es: seq<Event>, e: Event) returns (es': seq<Event>)
    requires Run(es).Some? && Enabled(Run(es).value, e)
    ensures es' == es + [e] && Run(es') == Some(Apply(Run(es).value, e))
  {
    es' := es + [e];
    assert es'[..|es|] == es;
  }

  /** A call still in flight after the flags were cleared runs to its end, and leaves the flag stale. */
  lemma LateCallGoesStale(es: seq<Event>, f: Fid, c: Cid) returns (tail: seq<Event>)
    requires Run(es).Some? && c in Run(es).value.calls && Run(es).value.calls[c].file == f
    requires !Run(es).value.calls[c].ToAccess?
    requires f in Run(es).value.files && !Run(es).value.files[f].stopped
    ensures Finishes(tail) && Run(es + tail).Some? && Stale(Run(es + tail).value, f)
  {
    var s := Run(es).value;
    if s.calls[c].ToPush? {
      var push := PushStep(c, f, s.files[f].target);
      var fs := RunOn(es, push);
      var gs := RunOn(fs, SetContinue(c, f));
      tail := [push, SetContinue(c, f)];
      assert gs == es + tail;
    } else {
      var fs := RunOn(es, SetContinue(c, f));
      tail := [SetContinue(c, f)];
    }
  }

  lemma ClearWithCallGoesStale(es: seq<Event>, f: Fid, n: nat) returns (tail: seq<Event>)
    requires Run(es).Some? && n < |es| && es[n] == ClearFlags(f) && !ClearedAlone(es, f, n)
    ensures StaleAfter(es, f, n + 1, tail)
  {
    PrefixRuns(es, n);
    PrefixRuns(es, n + 1);
    var s, s' := Run(es[..n]).value, Run(es[..n + 1]).value;
    assert es[..n + 1][..n] == es[..n];
    assert s' == Apply(s, ClearFlags(f));
    var c :| c in s.calls && s.calls[c].file == f && !s.calls[c].ToAccess?;
    tail := LateCallGoesStale(es[..n + 1], f, c);
  }

  /**
   For every run, with any clients: no stale flag can be reached from it by its calls in flight if and only
   if the target never cleared its flags while a cont or step call of that handle was in flight.
   */
  lemma {:induction false} NeverStaleIff(es: seq<Event>, f: Fid)
    requires Run(es).Some?
    ensures NeverStale(es, f) <==> ClearsAlone(es, f)
  {
    if ClearsAlone(es, f) {
      forall n, tail | 0 <= n <= |es|
        ensures !StaleAfter(es, f, n, tail)
      {
        if StaleAfter(es, f, n, tail) {
          FinishingClearsNothing(es, f, n, tail);
          ClearsAloneSettles(es[..n] + tail, f);
        }
      }
    } else {
      var n :| 0 <= n < |es| && es[n] == ClearFlags(f) && !ClearedAlone(es, f, n);
      var tail := ClearWithCallGoesStale(es, f, n);
      assert StaleAfter(es, f, n + 1, tail);
    }
  }

  /** A wait-driven client has no call in flight when its target clears the flags. */
  lemma {:induction false} WaitDrivenClearsAlone(es: seq<Event>, f: Fid)
    requires Run(es).Some? && WaitDriven(es, f)
    ensures ClearsAlone(es, f)
  {
    forall n | 0 <= n < |es| && es[n] == ClearFlags(f)
      ensures ClearedAlone(es, f, n)
    {
      WaitDrivenClearsOnce(es, f, n);
    }
  }

  lemma WaitDrivenClearsOnce(es: seq<Event>, f: Fid, n: nat)
    requires Run(es).Some? && WaitDriven(es, f) && n < |es| && es[n] == ClearFlags(f)
    ensures ClearedAlone(es, f, n)
  {
    PrefixRuns(es, n);
    PrefixRuns(es, n + 1);
    WaitDrivenPrefix(es, f, n);
    WaitDrivenRuns(es[..n], f);
    assert es[..n + 1][..n] == es[..n];
    NoCallAtClear(Run(es[..n]).value, f, ClientOf(es[..n], f), TallyOf(es[..n], f));
  }

  lemma NoCallAtClear(s: State, f: Fid, p: Client, n: Tally)
    requires ClientInv(s, f, p, n) && Enabled(s, ClearFlags(f))
    ensures !InFlight(s, f)
  {
  }

  lemma {:induction false} WaitDrivenPrefix(es: seq<Event>, f: Fid, n: nat)
    requires WaitDriven(es, f) && n <= |es|
    ensures WaitDriven(es[..n], f)
    decreases |es|
  {
    if n == |es| {
      assert es[..n] == es;
    } else {
      WaitDrivenPrefix(es[..|es| - 1], f, n);
      assert es[..|es| - 1][..n] == es[..n];
    }
  }
}
