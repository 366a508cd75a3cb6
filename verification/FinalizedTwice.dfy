/** Which runs make the library call a finalized MPI, and which make it finalize MPI a second time. */
module FinalizedTwice {
  import opened Outcomes
  import opened Lifecycle
  import opened LifecycleResults

  /** The library calls MPI_Finalize. */
  predicate IsLibraryFinalize(e: Event) { e.Ran? && e.cb == MpiFinalize }

  /** The library calls MPI, except to ask whether it is initialized. */
  predicate IsMpiCall(e: Event) { IsUse(e) || e == Initialize || IsLibraryFinalize(e) }

  /** The operation drops the last handle on the starter, and MPI is gone. */
  predicate FinalizesLate(s: State, op: Op)
    requires Legal(s, op)
  {
    && s.finalized && Starters(s) != [] && LetGo(s, op) == Some(Starters(s)[0])
    && !Referenced(Rehandled(s, op), Starters(s)[0])
  }

  /** As `LateBy`, of MPI_Finalize and of all calls. */
  predicate CallsBy(s: State, op: Op)
    requires Legal(s, op)
  {
    var t := Step(s, op).trace;
    && (Late(t, IsLibraryFinalize) <==> Late(s.trace, IsLibraryFinalize) || FinalizesLate(s, op))
    && (Late(t, IsMpiCall) <==> Late(s.trace, IsMpiCall) || UsesLate(s, op) || FinalizesLate(s, op))
  }

  /** Events of which none finalizes: a call among them is late iff MPI was finalized before. */
  lemma CallsAfter(t: seq<Event>, u: seq<Event>)
    requires forall i :: 0 <= i < |u| ==> !IsFinalization(u[i])
    ensures Late(t + u, IsLibraryFinalize) <==> Late(t, IsLibraryFinalize)
    ensures Late(t + u, IsMpiCall) <==> Late(t, IsMpiCall) || (Happens(t, IsFinalization) && Happens(u, IsMpiCall))
  {
    LateAfter(t, u, IsLibraryFinalize);
    LateAfter(t, u, IsMpiCall);
    forall i | 0 <= i < |u|
      ensures !IsLibraryFinalize(u[i])
    {
      assert !IsFinalization(u[i]);
    }
  }

  lemma BuildCalls(p: Ptr, starter: bool, comm: bool)
    ensures Happens(BuildEvents(p, starter, comm), IsMpiCall) <==> starter || comm
  {
    var u := BuildEvents(p, starter, comm);
    if starter || comm {
      assert IsMpiCall(u[0]);
    } else {
      assert u == [Built(p, false)];
    }
  }

  lemma FinalizedIsInitialized(s: State)
    requires MpiInv(s) && s.finalized
    ensures s.initialized
  {
  }

  lemma CallsConstruct(s: State, h: Handle, comm: bool)
    requires Inv(s) && Legal(s, Construct(h, comm))
    requires s.finalized <==> Happens(s.trace, IsFinalization)
    ensures CallsBy(s, Construct(h, comm))
  {
    BuildKinds(s.next, !s.initialized, comm);
    BuildCalls(s.next, !s.initialized, comm);
    CallsAfter(s.trace, BuildEvents(s.next, !s.initialized, comm));
    if s.finalized {
      FinalizedIsInitialized(s);
    }
  }

  lemma CallsUsing(s: State, op: Op)
    requires Inv(s) && Legal(s, op) && Using(op)
    requires s.finalized <==> Happens(s.trace, IsFinalization)
    ensures CallsBy(s, op)
  {
    UseKinds(s, op);
    CallsAfter(s.trace, Uses(s, op));
    if Uses(s, op) != [] {
      assert IsMpiCall(Uses(s, op)[0]);
    }
  }

  lemma CallsOne(t: seq<Event>, e: Event)
    requires !IsMpiCall(e)
    ensures Late(t + [e], IsLibraryFinalize) <==> Late(t, IsLibraryFinalize)
    ensures Late(t + [e], IsMpiCall) <==> Late(t, IsMpiCall)
  {
    LateAppend(t, [e], IsLibraryFinalize);
    LateAppend(t, [e], IsMpiCall);
  }

  lemma CallsStack(s: State, h: Handle, id: nat)
    requires Inv(s) && Legal(s, StackCallback(h, id))
    ensures CallsBy(s, StackCallback(h, id))
  {
    if s.handles[h].Some? {
      CallsOne(s.trace, Pushed(s.handles[h].value, User(id)));
    }
  }

  lemma CallsForeign(s: State, op: Op)
    requires Inv(s) && Legal(s, op) && (op.InitMpi? || op.FinalizeMpi?)
    ensures CallsBy(s, op)
  {
    CallsOne(s.trace, if op.InitMpi? then ForeignInit else ForeignFinalize);
  }

  /** A teardown finalizes iff it is the starter's, and after that does nothing. */
  lemma TeardownEndsWithFinalize(p: Ptr, cbs: seq<Callback>, starter: bool, f: Event -> bool)
    requires Stacked(cbs, starter)
    ensures !Late(Teardown(p, cbs), f)
    ensures Happens(Teardown(p, cbs), IsLibraryFinalize) <==> starter
    ensures Happens(Teardown(p, cbs), IsMpiCall) <==> starter
  {
    var t := Teardown(p, cbs);
    if cbs == [] {
      assert t == [];
    } else {
      TeardownEvents(p, cbs, 0);
    }
    forall i | 0 <= i < |t|
      ensures |t| == |cbs| && t[i] == Ran(p, cbs[|cbs| - 1 - i])
      ensures IsFinalization(t[i]) || IsMpiCall(t[i]) <==> starter && i == |cbs| - 1
    {
      TeardownEvents(p, cbs, i);
      assert starter && i < |cbs| - 1 ==> cbs[|cbs| - 1 - i] == cbs[1..][|cbs| - 2 - i];
    }
    if starter {
      assert IsLibraryFinalize(t[|cbs| - 1]) && IsMpiCall(t[|cbs| - 1]);
    }
  }

  lemma CallsHandling(s: State, op: Op)
    requires Inv(s) && Legal(s, op) && Handling(op)
    requires s.finalized <==> Happens(s.trace, IsFinalization)
    ensures CallsBy(s, op)
  {
    HandlingKeeps(s, op);
    StarterAlone(s);
    var was := LetGo(s, op);
    if was.Some? && was.value in s.pimpls && !Referenced(Rehandled(s, op), was.value) {
      var p := was.value;
      var cbs := s.pimpls[p].callbacks;
      assert StackInv(s, p);
      TeardownEndsWithFinalize(p, cbs, p in Starters(s), IsLibraryFinalize);
      TeardownEndsWithFinalize(p, cbs, p in Starters(s), IsMpiCall);
      LateAppend(s.trace, Teardown(p, cbs), IsLibraryFinalize);
      LateAppend(s.trace, Teardown(p, cbs), IsMpiCall);
    }
  }

  lemma StarterAlone(s: State)
    requires MpiInv(s)
    ensures forall p :: p in Starters(s) <==> Starters(s) != [] && p == Starters(s)[0]
  {
  }

  lemma CallsStep(s: State, op: Op)
    requires Inv(s) && Legal(s, op)
    ensures CallsBy(s, op)
  {
    FinalizedIffInTrace(s);
    if op.Construct? {
      CallsConstruct(s, op.h, op.comm);
    } else if Using(op) {
      CallsUsing(s, op);
    } else if Handling(op) {
      CallsHandling(s, op);
    } else if op.StackCallback? {
      CallsStack(s, op.h, op.id);
    } else {
      CallsForeign(s, op);
    }
  }

  predicate FinalizesLateAt(ops: seq<Op>, k: nat)
    requires k < |ops|
  {
    Before(ops, k).Some? && Legal(Before(ops, k).value, ops[k]) && FinalizesLate(Before(ops, k).value, ops[k])
  }

  lemma SameFinalizes(ops: seq<Op>, k: nat)
    requires k < |ops| - 1
    ensures FinalizesLateAt(ops[..|ops| - 1], k) <==> FinalizesLateAt(ops, k)
  {
    assert ops[..|ops| - 1][..k] == ops[..k];
  }

  /** The step makes the library call a finalized MPI. */
  predicate CallsLateAt(ops: seq<Op>, k: nat)
    requires k < |ops|
  {
    UsesLateAt(ops, k) || FinalizesLateAt(ops, k)
  }

  lemma CallsLast(ops: seq<Op>)
    requires ops != [] && Exec(ops).Some?
    ensures var front, last := ops[..|ops| - 1], |ops| - 1;
            && (Late(Exec(ops).value.trace, IsLibraryFinalize) <==>
                  Late(Exec(front).value.trace, IsLibraryFinalize) || FinalizesLateAt(ops, last))
            && (Late(Exec(ops).value.trace, IsMpiCall) <==>
                  Late(Exec(front).value.trace, IsMpiCall) || CallsLateAt(ops, last))
  {
    InvAlways(ops[..|ops| - 1]);
    CallsStep(Exec(ops[..|ops| - 1]).value, ops[|ops| - 1]);
    assert CallsLateAt(ops, |ops| - 1) <==> UsesLateAt(ops, |ops| - 1) || FinalizesLateAt(ops, |ops| - 1);
  }

  lemma FinalizedEarlier(ops: seq<Op>)
    requires ops != []
    ensures var last := |ops| - 1;
            (exists k :: 0 <= k < last && FinalizesLateAt(ops[..last], k)) <==>
              (exists k :: 0 <= k < last && FinalizesLateAt(ops, k))
  {
    var last := |ops| - 1;
    var front := ops[..last];
    if k :| 0 <= k < last && FinalizesLateAt(front, k) {
      SameFinalizes(ops, k);
      assert FinalizesLateAt(ops, k);
    }
    if k :| 0 <= k < last && FinalizesLateAt(ops, k) {
      SameFinalizes(ops, k);
      assert FinalizesLateAt(front, k);
    }
  }

  /**
   * The library calls MPI_Finalize on a finalized MPI exactly when, at some step of the run with MPI
   * finalized, the last handle on the starter is dropped.
   */
  lemma {:induction false} FinalizesLateExactly(ops: seq<Op>)
    requires Exec(ops).Some?
    ensures Late(Exec(ops).value.trace, IsLibraryFinalize) <==> exists k :: 0 <= k < |ops| && FinalizesLateAt(ops, k)
  {
    if ops != [] {
      FinalizesLateExactly(ops[..|ops| - 1]);
      CallsLast(ops);
      FinalizedEarlier(ops);
    }
  }

  lemma SameCalls(ops: seq<Op>, k: nat)
    requires k < |ops| - 1
    ensures CallsLateAt(ops[..|ops| - 1], k) <==> CallsLateAt(ops, k)
  {
    SameBefore(ops, k);
    SameFinalizes(ops, k);
  }

  lemma CalledEarlier(ops: seq<Op>)
    requires ops != []
    ensures var last := |ops| - 1;
            (exists k :: 0 <= k < last && CallsLateAt(ops[..last], k)) <==>
              (exists k :: 0 <= k < last && CallsLateAt(ops, k))
  {
    var last := |ops| - 1;
    var front := ops[..last];
    if k :| 0 <= k < last && CallsLateAt(front, k) {
      SameCalls(ops, k);
      assert CallsLateAt(ops, k);
    }
    if k :| 0 <= k < last && CallsLateAt(ops, k) {
      SameCalls(ops, k);
      assert CallsLateAt(front, k);
    }
  }

  /**
   * The library calls a finalized MPI at all, be it on a communicator, to initialize or to finalize
   * it, exactly when some step uses it late or finalizes it late.
   */
  lemma {:induction false} CallsMpiLateExactly(ops: seq<Op>)
    requires Exec(ops).Some?
    ensures Late(Exec(ops).value.trace, IsMpiCall) <==> exists k :: 0 <= k < |ops| && CallsLateAt(ops, k)
  {
    if ops != [] {
      CallsMpiLateExactly(ops[..|ops| - 1]);
      CallsLast(ops);
      CalledEarlier(ops);
    }
  }

  lemma ForeignHandling(s: State, op: Op)
    requires Inv(s) && Legal(s, op) && Handling(op)
    ensures ForeignFinalize in Step(s, op).trace <==> ForeignFinalize in s.trace
  {
    HandlingKeeps(s, op);
    var was := LetGo(s, op);
    if was.Some? && was.value in s.pimpls && !Referenced(Rehandled(s, op), was.value) {
      var cbs := s.pimpls[was.value].callbacks;
      assert StackInv(s, was.value);
      TeardownFinalizes(was.value, cbs, was.value in Starters(s));
      assert Step(s, op).trace == s.trace + Teardown(was.value, cbs);
    }
  }

  /** Only the program's own call is a foreign one. */
  lemma ForeignStep(s: State, op: Op)
    requires Inv(s) && Legal(s, op)
    ensures ForeignFinalize in Step(s, op).trace <==> ForeignFinalize in s.trace || op.FinalizeMpi?
  {
    if op.Construct? {
      BuildIsNotForeign(s.trace, s.next, !s.initialized, op.comm);
    } else if Using(op) {
      UseIsNotForeign(s, op);
    } else if Handling(op) {
      ForeignHandling(s, op);
    }
  }

  /** An operation that handles views leaves a state referred to unless it lets go of the last reference. */
  lemma LastHandleHandling(s: State, op: Op, p: Ptr)
    requires Inv(s) && Legal(s, op) && Handling(op) && p in s.pimpls
    ensures !Referenced(Step(s, op).handles, p) <==> LetGo(s, op) == Some(p) && !Referenced(Rehandled(s, op), p)
  {
    HandlingKeeps(s, op);
    StillReferenced(s, op, p);
  }

  /** Any other operation leaves it referred to. */
  lemma LastHandleOther(s: State, op: Op, p: Ptr)
    requires Inv(s) && Legal(s, op) && !Handling(op) && Referenced(s.handles, p)
    ensures Referenced(Step(s, op).handles, p) && LetGo(s, op) == None
  {
    if op.Construct? {
      var h :| h in s.handles && s.handles[h] == Some(p);
      assert Step(s, op).handles[h] == Some(p);
    }
  }

  /** The starter loses its last handle exactly to an operation that lets go of it. */
  lemma LastHandle(s: State, op: Op)
    requires Inv(s) && Legal(s, op) && StarterHeld(s) && Starters(Step(s, op)) == Starters(s)
    ensures !StarterHeld(Step(s, op)) <==>
            LetGo(s, op) == Some(Starters(s)[0]) && !Referenced(Rehandled(s, op), Starters(s)[0])
  {
    HeldIffLive(s);
    if Handling(op) {
      LastHandleHandling(s, op, Starters(s)[0]);
    } else {
      LastHandleOther(s, op, Starters(s)[0]);
    }
  }

  lemma StarterInitialized(s: State)
    requires MpiInv(s) && Starters(s) != []
    ensures s.initialized
  {
  }

  lemma TwiceStep(s: State, op: Op)
    requires Inv(s) && Legal(s, op) && Inv(Step(s, op))
    ensures var s' := Step(s, op);
            ForeignFinalize in s'.trace && Finalizers(s') != [] <==>
              (ForeignFinalize in s.trace && Finalizers(s) != []) || FinalizesLate(s, op)
  {
    var s' := Step(s, op);
    ForeignStep(s, op);
    FinalizersOf(s);
    FinalizersOf(s');
    StartersStep(s, op);
    if StarterHeld(s) {
      StarterInitialized(s);
      LastHandle(s, op);
    } else if Starters(s) != [] {
      assert s.initialized;
      NotHeldAgain(s, op);
    } else if op.Construct? && !s.initialized {
      FreshStarterHeld(s, op);
    }
  }

  /**
   * MPI is finalized twice exactly when the program finalized it although the library had started it,
   * and the last handle on the starter is gone.
   */
  lemma {:induction false} FinalizedTwiceIff(ops: seq<Op>)
    requires Exec(ops).Some?
    ensures var s := Exec(ops).value;
            Late(s.trace, IsLibraryFinalize) <==> ForeignFinalize in s.trace && Starters(s) != [] && !StarterHeld(s)
  {
    InvAlways(ops);
    FinalizersOf(Exec(ops).value);
    if ops != [] {
      var front := ops[..|ops| - 1];
      FinalizedTwiceIff(front);
      InvAlways(front);
      FinalizersOf(Exec(front).value);
      CallsStep(Exec(front).value, ops[|ops| - 1]);
      TwiceStep(Exec(front).value, ops[|ops| - 1]);
    }
  }

  const TWICE_RUN: seq<Op> := [Construct(0, true), FinalizeMpi, Destroy(0)]

  /** A program that finalizes the MPI its view started: dropping the view finalizes it again. */
  lemma FinalizedTwice()
    ensures Exec(TWICE_RUN).Some?
            && Exec(TWICE_RUN).value.trace == OneViewState().trace + [ForeignFinalize, Ran(0, MpiFinalize)]
            && Late(Exec(TWICE_RUN).value.trace, IsLibraryFinalize)
  {
    var one, two := [Construct(0, true)], [Construct(0, true), FinalizeMpi];
    OneView();
    ExecSnoc(one, FinalizeMpi);
    assert one + [FinalizeMpi] == two;
    ExecSnoc(two, Destroy(0));
    assert two + [Destroy(0)] == TWICE_RUN;
    assert Teardown(0, [MpiFinalize]) == [Ran(0, MpiFinalize)];
    var t := Exec(TWICE_RUN).value.trace;
    assert IsFinalization(t[4]) && IsLibraryFinalize(t[5]);
  }
}
