/**
 The stopped check of a register call and the access behind it are two steps, without a lock around them.
 When an access can come after its target has resumed, for any clients.
 */
module BpStrayAccess {
  import opened BpProtocol
  import opened BpClient
  import opened BpStaleFlag

  /** A register call of f has passed its check and not yet touched the registers. */
  predicate AccessInFlight(s: State, f: Fid) {
    exists c :: c in s.calls && s.calls[c] == ToAccess(f)
  }

  /** A register call of f is about to touch the registers of a running target. */
  predicate Stray(s: State, f: Fid) {
    f in s.files && !s.files[f].stopped && AccessInFlight(s, f)
  }

  /** A handle becomes a stray one by a single kind of step: its target resumes while an access is in flight. */
  lemma StrayStep(s: State, e: Event, f: Fid)
    requires Inv(s) && Enabled(s, e) && !Stray(s, f)
    ensures Stray(Apply(s, e), f) <==> e == ClearFlags(f) && AccessInFlight(s, f)
  {
    if IsCallEvent(e) {
      CallsDoNotStray(s, e, f);
    } else {
      assert Apply(s, e).calls == s.calls;
      if f in s.files && e != Close(f) && !TargetMoves(e, f) && !ClientMoves(e, f) {
        OthersLeaveFlags(s, e, f);
      }
    }
  }

  lemma CallsDoNotStray(s: State, e: Event, f: Fid)
    requires Inv(s) && Enabled(s, e) && !Stray(s, f) && IsCallEvent(e)
    ensures !Stray(Apply(s, e), f)
  {
    var s' := Apply(s, e);
    assert f in s'.files ==> s'.files[f].stopped == s.files[f].stopped;
    assert forall c :: c in s'.calls && s'.calls[c] == ToAccess(f) ==>
      (c in s.calls && s.calls[c] == ToAccess(f)) || s.files[f].stopped;
  }

  /** Whenever the target of f cleared its flags, no register call of f was between check and access. */
  ghost predicate ClearsUntouched(es: seq<Event>, f: Fid) {
    forall n :: 0 <= n < |es| && es[n] == ClearFlags(f) ==> Untouched(es, f, n)
  }

  ghost predicate Untouched(es: seq<Event>, f: Fid, n: nat)
    requires n <= |es|
  {
    Run(es[..n]).Some? && !AccessInFlight(Run(es[..n]).value, f)
  }

  /** At no point of the run can an access to the registers of f come outside the stop window. */
  ghost predicate NeverStray(es: seq<Event>, f: Fid) {
    forall n :: 0 <= n <= |es| ==> InsideWindow(es, f, n)
  }

  ghost predicate InsideWindow(es: seq<Event>, f: Fid, n: nat)
    requires n <= |es|
  {
    Run(es[..n]).Some? && !Stray(Run(es[..n]).value, f)
  }

  lemma WindowNext(es: seq<Event>, f: Fid, n: nat)
    requires Run(es).Some? && n < |es| && InsideWindow(es, f, n)
    ensures InsideWindow(es, f, n + 1) <==> (es[n] == ClearFlags(f) ==> Untouched(es, f, n))
  {
    PrefixRuns(es, n);
    PrefixRuns(es, n + 1);
    RunsAreSafe(es[..n]);
    assert es[..n + 1][..n] == es[..n];
    StrayStep(Run(es[..n]).value, es[n], f);
  }

  lemma {:induction false} UntouchedStaysInside(es: seq<Event>, f: Fid, n: nat)
    requires Run(es).Some? && ClearsUntouched(es, f) && n <= |es|
    ensures InsideWindow(es, f, n)
  {
    PrefixRuns(es, n);
    if n > 0 {
      UntouchedStaysInside(es, f, n - 1);
      WindowNext(es, f, n - 1);
    } else {
      assert es[..0] == [];
    }
  }

  /**
   For every run, with any clients: no register access can come outside the stop window if and only if the
   target never cleared its flags while a register call of the handle was between its check and its access.
   */
  lemma NeverStrayIff(es: seq<Event>, f: Fid)
    requires Run(es).Some?
    ensures NeverStray(es, f) <==> ClearsUntouched(es, f)
  {
    if ClearsUntouched(es, f) {
      forall n | 0 <= n <= |es|
        ensures InsideWindow(es, f, n)
      {
        UntouchedStaysInside(es, f, n);
      }
    }
    if NeverStray(es, f) {
      forall n | 0 <= n < |es| && es[n] == ClearFlags(f)
        ensures Untouched(es, f, n)
      {
        assert InsideWindow(es, f, n) && InsideWindow(es, f, n + 1);
        WindowNext(es, f, n);
      }
    }
  }

  /** A stray handle is one whose access can be made now, though its target runs. */
  lemma StrayMeansAccess(s: State, f: Fid)
    requires Inv(s) && f in s.files
    ensures Stray(s, f) <==> !s.files[f].stopped && exists c :: Enabled(s, Access(c, f))
  {
    if Stray(s, f) {
      var c :| c in s.calls && s.calls[c] == ToAccess(f);
      assert Enabled(s, Access(c, f));
    }
  }

  /** A wait-driven client never strays. */
  lemma WaitDrivenNeverStrays(es: seq<Event>, f: Fid)
    requires Run(es).Some? && WaitDriven(es, f)
    ensures NeverStray(es, f)
  {
    forall n | 0 <= n <= |es|
      ensures InsideWindow(es, f, n)
    {
      PrefixRuns(es, n);
      WaitDrivenPrefix(es, f, n);
      WaitDrivenIsInside(es[..n], f);
    }
  }

  lemma WaitDrivenIsInside(es: seq<Event>, f: Fid)
    requires Run(es).Some? && WaitDriven(es, f)
    ensures !Stray(Run(es).value, f)
  {
    var s := Run(es).value;
    if Stray(s, f) {
      var c :| c in s.calls && s.calls[c] == ToAccess(f);
      AccessInsideWindow(es, f, c);
    }
  }
}
