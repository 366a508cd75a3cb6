/** What holds of MPI and of the callbacks after every run of a program. */
module LifecycleResults {
  import opened Outcomes
  import opened Lifecycle

  // ---------------------------------------------------------------------------
  // MPI_Init and MPI_Finalize
  // ---------------------------------------------------------------------------

  lemma {:induction false} Selected<T>(trace: seq<Event>, f: Event -> seq<T>, e: Event, x: T)
    requires e in trace && x in f(e)
    ensures x in Select(trace, f)
  {
    var last := |trace| - 1;
    if trace[last] != e {
      Selected(trace[..last], f, e, x);
    }
  }

  /** Who calls MPI_Init shows in who starts, and a foreign call leaves the library no part in it. */
  lemma InitsTell(s: State)
    requires MpiInv(s)
    ensures Starters(s) != [] <==> Initialize in s.trace
    ensures ForeignInit in s.trace ==> Starters(s) == []
  {
    if Initialize in s.trace {
      Selected(s.trace, Initializing(), Initialize, Initialize);
    }
    if ForeignInit in s.trace {
      Selected(s.trace, Initializing(), ForeignInit, ForeignInit);
    }
    if Starters(s) != [] {
      assert Inits(s) == [Initialize];
      InitialSelected(s.trace);
    }
  }

  lemma InitialSelected(trace: seq<Event>)
    requires Initialize in Select(trace, Initializing())
    ensures Initialize in trace
  {
    OnlySelected(trace, Initializing(), Initialize);
  }

  lemma AtMostOne(s: State)
    requires MpiInv(s)
    ensures |Inits(s)| <= 1 && |Starters(s)| <= 1 && |Finalizers(s)| <= 1
    ensures Starters(s) == [] ==> Finalizers(s) == []
  {
  }

  /**
   * Over every run MPI_Init is called at most once, by the library or by the program, and at most
   * one shared state is ever the starter. If the program called it, the library never finalizes.
   */
  lemma MpiStartsOnce(ops: seq<Op>)
    requires Exec(ops).Some?
    ensures var s := Exec(ops).value;
            && |Inits(s)| <= 1 && |Starters(s)| <= 1 && |Finalizers(s)| <= 1
            && (Starters(s) != [] <==> Initialize in s.trace)
            && (ForeignInit in s.trace ==> Starters(s) == [] && Finalizers(s) == [])
  {
    InvAlways(ops);
    AtMostOne(Exec(ops).value);
    InitsTell(Exec(ops).value);
  }

  lemma {:induction false} OnlySelected<T>(trace: seq<Event>, f: Event -> seq<T>, x: T)
    requires x in Select(trace, f)
    ensures exists e :: e in trace && x in f(e)
  {
    var last := |trace| - 1;
    if x in f(trace[last]) {
      assert trace[last] in trace;
    } else {
      OnlySelected(trace[..last], f, x);
      var e :| e in trace[..last] && x in f(e);
      assert e in trace;
    }
  }

  lemma HandlingStarters(s: State, op: Op)
    requires Inv(s) && Legal(s, op) && Handling(op)
    ensures Starters(Step(s, op)) == Starters(s)
  {
    HandlingKeeps(s, op);
    var t := s.(handles := Rehandled(s, op));
    var was := LetGo(s, op);
    if was.Some? && was.value in s.pimpls && !Referenced(t.handles, was.value) {
      DropReadings(t, was.value, Step(s, op), 0);
    }
  }

  lemma StartersStep(s: State, op: Op)
    requires Inv(s) && Legal(s, op)
    ensures Starters(Step(s, op)) == if op.Construct? && !s.initialized then Starters(s) + [s.next] else Starters(s)
  {
    var s' := Step(s, op);
    if op.Construct? {
      BuildStarts(s, s', !s.initialized, op.comm);
    } else if op.StackCallback? {
      if s.handles[op.h].Some? {
        PushReadings(s, s', s.handles[op.h].value, op.id, 0);
      }
    } else if op.InitMpi? {
      ForeignReadings(s, s', ForeignInit, 0);
    } else if op.FinalizeMpi? {
      ForeignReadings(s, s', ForeignFinalize, 0);
    } else if Using(op) {
      UseReadings(s, op, s', 0);
    } else {
      HandlingStarters(s, op);
    }
  }

  /** Some handle refers to the state that started MPI. */
  predicate StarterHeld(s: State) {
    Starters(s) != [] && Referenced(s.handles, Starters(s)[0])
  }

  lemma FinalizersOf(s: State)
    requires Inv(s)
    ensures Finalizers(s) == if Starters(s) != [] && !StarterHeld(s) then Starters(s) else []
  {
    HeldIffLive(s);
  }

  lemma HeldIffLive(s: State)
    requires Linked(s)
    ensures StarterHeld(s) <==> Starters(s) != [] && Starters(s)[0] in s.pimpls
  {
  }

  lemma FreshStarterHeld(s: State, op: Op)
    requires Inv(s) && Legal(s, op) && op.Construct? && !s.initialized
    ensures Starters(s) == [] && StarterHeld(Step(s, op))
  {
    StartersStep(s, op);
    assert Step(s, op).handles[op.h] == Some(s.next);
  }

  /** The library calls MPI_Finalize at exactly the step that drops the last handle on the starter. */
  lemma FinalizesExactlyAtLastDrop(ops: seq<Op>, op: Op)
    requires Exec(ops).Some? && Legal(Exec(ops).value, op)
    ensures var s := Exec(ops).value; var s' := Step(s, op);
            Finalizers(s') != Finalizers(s) <==> StarterHeld(s) && !StarterHeld(s')
  {
    var s := Exec(ops).value;
    InvAlways(ops);
    StepKeeps(s, op);
    FinalizersOf(s);
    FinalizersOf(Step(s, op));
    if op.Construct? && !s.initialized {
      FreshStarterHeld(s, op);
    } else {
      StartersStep(s, op);
      NotHeldAgain(s, op);
    }
  }

  /** A dead starter stays dead. */
  lemma NotHeldAgain(s: State, op: Op)
    requires Inv(s) && Legal(s, op) && Inv(Step(s, op)) && Starters(Step(s, op)) == Starters(s)
    ensures StarterHeld(Step(s, op)) ==> StarterHeld(s)
  {
    HeldIffLive(s);
    HeldIffLive(Step(s, op));
    if StarterHeld(Step(s, op)) {
      var p := Starters(s)[0];
      assert StackInv(s, p);
      NoRevival(s, op, p);
    }
  }

  lemma NoRevival(s: State, op: Op, p: Ptr)
    requires Inv(s) && Legal(s, op) && p < s.next && p in Step(s, op).pimpls
    ensures p in s.pimpls
  {
  }

  /** After any run: MPI has been finalized by the library iff there was a starter and no handle refers to it. */
  lemma FinalizedIffStarterUnreferenced(ops: seq<Op>)
    requires Exec(ops).Some?
    ensures var s := Exec(ops).value;
            Finalizers(s) == if Starters(s) != [] && !StarterHeld(s) then Starters(s) else []
  {
    InvAlways(ops);
    FinalizersOf(Exec(ops).value);
  }

  // ---------------------------------------------------------------------------
  // Callbacks
  // ---------------------------------------------------------------------------

  lemma {:induction false} ReverseAt<T>(xs: seq<T>, i: nat)
    requires i < |xs|
    ensures |Reverse(xs)| == |xs| && Reverse(xs)[|xs| - 1 - i] == xs[i]
  {
    var last := |xs| - 1;
    if i < last {
      ReverseAt(xs[..last], i);
    } else if last > 0 {
      ReverseAt(xs[..last], 0);
    }
  }

  /**
   * After any run, a shared state with a handle has called nothing, and one without has called
   * everything ever stacked on it exactly once, last in first out. On the starter finalize comes
   * after every user callback; no other state finalizes.
   */
  lemma CallbacksRunInReverse(ops: seq<Op>, p: Ptr)
    requires Exec(ops).Some? && p < Exec(ops).value.next
    ensures var s := Exec(ops).value;
            && Runs(s, p) == (if Referenced(s.handles, p) then [] else Reverse(Pushes(s, p)))
            && |Reverse(Pushes(s, p))| == |Pushes(s, p)|
            && (forall i :: 0 <= i < |Pushes(s, p)| ==>
                  && Reverse(Pushes(s, p))[|Pushes(s, p)| - 1 - i] == Pushes(s, p)[i]
                  && (Pushes(s, p)[i] == MpiFinalize <==> i == 0 && p in Starters(s)))
            && (p in Starters(s) ==> Pushes(s, p) != [])
  {
    var s := Exec(ops).value;
    InvAlways(ops);
    assert StackInv(s, p);
    var pushes := Pushes(s, p);
    forall i | 0 <= i < |pushes|
      ensures |Reverse(pushes)| == |pushes| && Reverse(pushes)[|pushes| - 1 - i] == pushes[i]
    {
      ReverseAt(pushes, i);
    }
    forall i | 0 <= i < |pushes|
      ensures pushes[i] == MpiFinalize <==> i == 0 && p in Starters(s)
    {
      assert p in Starters(s) && 0 < i ==> pushes[i] == pushes[1..][i - 1];
    }
  }

  // ---------------------------------------------------------------------------
  // What can happen after MPI is finalized
  // ---------------------------------------------------------------------------

  predicate IsFinalization(e: Event) {
    e == ForeignFinalize || (e.Ran? && e.cb == MpiFinalize)
  }

  predicate IsUserCall(e: Event) { e.Ran? && e.cb.User? }

  predicate IsQuery(e: Event) { e == Query }

  /** The library calls MPI on a communicator. */
  predicate IsUse(e: Event) { e == Query || e == Transfer || e == Compared }

  predicate Happens(trace: seq<Event>, f: Event -> bool) {
    exists i :: 0 <= i < |trace| && f(trace[i])
  }

  /** An event of kind `f` follows a finalization. */
  predicate Late(trace: seq<Event>, f: Event -> bool) {
    exists i, j :: 0 <= i < j < |trace| && IsFinalization(trace[i]) && f(trace[j])
  }

  lemma LateAppend(a: seq<Event>, b: seq<Event>, f: Event -> bool)
    ensures Late(a + b, f) <==> Late(a, f) || Late(b, f) || (Happens(a, IsFinalization) && Happens(b, f))
  {
    var t := a + b;
    if Late(a, f) {
      var i, j :| 0 <= i < j < |a| && IsFinalization(a[i]) && f(a[j]);
      assert t[i] == a[i] && t[j] == a[j];
    }
    if Late(b, f) {
      var i, j :| 0 <= i < j < |b| && IsFinalization(b[i]) && f(b[j]);
      assert t[|a| + i] == b[i] && t[|a| + j] == b[j];
    }
    if Happens(a, IsFinalization) && Happens(b, f) {
      var i :| 0 <= i < |a| && IsFinalization(a[i]);
      var j :| 0 <= j < |b| && f(b[j]);
      assert t[i] == a[i] && t[|a| + j] == b[j];
    }
    if Late(t, f) {
      var i, j :| 0 <= i < j < |t| && IsFinalization(t[i]) && f(t[j]);
      if j < |a| {
        assert a[i] == t[i] && a[j] == t[j];
      } else if i < |a| {
        assert a[i] == t[i] && b[j - |a|] == t[j];
      } else {
        assert b[i - |a|] == t[i] && b[j - |a|] == t[j];
      }
    }
  }

  lemma {:induction false} TeardownEvents(p: Ptr, cbs: seq<Callback>, i: nat)
    requires i < |cbs|
    ensures |Teardown(p, cbs)| == |cbs| && Teardown(p, cbs)[i] == Ran(p, cbs[|cbs| - 1 - i])
  {
    var last := |cbs| - 1;
    if last == 0 {
      assert Teardown(p, cbs[..last]) == [];
    } else if i == 0 {
      TeardownEvents(p, cbs[..last], 0);
    } else {
      TeardownEvents(p, cbs[..last], i - 1);
    }
  }

  /** A teardown calls a user function iff one was stacked, finalizes last, and uses nothing. */
  lemma TeardownKinds(p: Ptr, cbs: seq<Callback>, starter: bool)
    requires Stacked(cbs, starter)
    ensures !Late(Teardown(p, cbs), IsUserCall) && !Happens(Teardown(p, cbs), IsUse)
    ensures Happens(Teardown(p, cbs), IsUserCall) <==> exists i :: 0 <= i < |cbs| && cbs[i].User?
  {
    var t := Teardown(p, cbs);
    if cbs == [] {
      assert t == [];
    } else {
      TeardownEvents(p, cbs, 0);
    }
    forall i | 0 <= i < |cbs|
      ensures |t| == |cbs| && t[i] == Ran(p, cbs[|cbs| - 1 - i])
    {
      TeardownEvents(p, cbs, i);
    }
    forall i | 0 < i < |cbs|
      ensures cbs[i].User?
    {
      assert starter ==> cbs[i] == cbs[1..][i - 1];
    }
    if i :| 0 <= i < |cbs| && cbs[i].User? {
      assert IsUserCall(t[|cbs| - 1 - i]);
    }
  }

  lemma FinalizedIffInTrace(s: State)
    requires Inv(s)
    ensures s.finalized <==> Happens(s.trace, IsFinalization)
  {
    if Finalizers(s) != [] {
      var p := Finalizers(s)[0];
      OnlySelected(s.trace, Finalizing(), p);
      var e :| e in s.trace && p in Finalizing()(e);
      var i :| 0 <= i < |s.trace| && s.trace[i] == e;
    }
    if ForeignFinalize in s.trace {
      var i :| 0 <= i < |s.trace| && s.trace[i] == ForeignFinalize;
    }
    if i :| 0 <= i < |s.trace| && IsFinalization(s.trace[i]) {
      if s.trace[i] != ForeignFinalize {
        Selected(s.trace, Finalizing(), s.trace[i], s.trace[i].p);
      }
    }
  }

  /** The operation drops the last handle on a state with user callbacks, and MPI is gone. */
  predicate CallsBackLate(s: State, op: Op)
    requires Legal(s, op)
  {
    && s.finalized && LetGo(s, op).Some?
    && var p := LetGo(s, op).value;
       p in s.pimpls && !Referenced(Rehandled(s, op), p) &&
       exists i :: 0 <= i < |s.pimpls[p].callbacks| && s.pimpls[p].callbacks[i].User?
  }

  /** The operation builds a `CommPP`, of a view being built or of one that collects, and MPI is gone. */
  predicate QueriesLate(s: State, op: Op) {
    s.finalized && ((op.Construct? && op.comm) || (op.Collect? && HasComm(s, op.h)))
  }

  /** The operation calls MPI on a communicator, or reduces without one, and MPI is gone. */
  predicate UsesLate(s: State, op: Op) {
    s.finalized &&
    match op
    case Construct(_, comm) => comm
    case Collect(h, reduces) => HasComm(s, h) || reduces
    case CollectRam(h) => HasComm(s, h)
    case Compare(g, h) => HasComm(s, g) && HasComm(s, h)
    case _ => false
  }

  /** What is late after the step was late before it, or is so by the operation. */
  predicate LateBy(s: State, op: Op)
    requires Legal(s, op)
  {
    var t := Step(s, op).trace;
    && (Late(t, IsUserCall) <==> Late(s.trace, IsUserCall) || CallsBackLate(s, op))
    && (Late(t, IsQuery) <==> Late(s.trace, IsQuery) || QueriesLate(s, op))
    && (Late(t, IsUse) <==> Late(s.trace, IsUse) || UsesLate(s, op))
  }

  lemma LateStep(s: State, op: Op)
    requires Inv(s) && Legal(s, op)
    ensures LateBy(s, op)
  {
    FinalizedIffInTrace(s);
    if op.Construct? {
      LateConstruct(s, op.h, op.comm);
    } else if Using(op) {
      LateUsing(s, op);
    } else if Handling(op) {
      LateHandling(s, op);
    } else {
      LateAside(s, op);
    }
  }

  /** Stacking a callback, and what the program does to MPI itself, are neither calls back nor uses. */
  lemma LateAside(s: State, op: Op)
    requires Inv(s) && Legal(s, op) && (op.StackCallback? || op.InitMpi? || op.FinalizeMpi?)
    ensures LateBy(s, op)
  {
    if op.StackCallback? {
      if s.handles[op.h].Some? {
        LateOne(s.trace, Pushed(s.handles[op.h].value, User(op.id)));
      }
    } else {
      LateOne(s.trace, if op.InitMpi? then ForeignInit else ForeignFinalize);
    }
  }

  /** Events of which none finalizes come late iff one of them is of the kind and MPI was finalized before. */
  lemma LateAfter(t: seq<Event>, u: seq<Event>, f: Event -> bool)
    requires forall i :: 0 <= i < |u| ==> !IsFinalization(u[i])
    ensures Late(t + u, f) <==> Late(t, f) || (Happens(t, IsFinalization) && Happens(u, f))
  {
    LateAppend(t, u, f);
  }

  lemma UseKinds(s: State, op: Op)
    requires Using(op)
    ensures var u := Uses(s, op);
            && (forall i :: 0 <= i < |u| ==> !IsFinalization(u[i]) && !IsUserCall(u[i]))
            && (Happens(u, IsQuery) <==> op.Collect? && HasComm(s, op.h))
            && (Happens(u, IsUse) <==> u != [])
  {
    var u := Uses(s, op);
    if u != [] {
      assert IsUse(u[0]);
      if op.Collect? && HasComm(s, op.h) {
        assert IsQuery(u[0]);
      }
    }
  }

  lemma LateUsing(s: State, op: Op)
    requires Inv(s) && Legal(s, op) && Using(op)
    requires s.finalized <==> Happens(s.trace, IsFinalization)
    ensures LateBy(s, op)
  {
    UseKinds(s, op);
    LateAfter(s.trace, Uses(s, op), IsUserCall);
    LateAfter(s.trace, Uses(s, op), IsQuery);
    LateAfter(s.trace, Uses(s, op), IsUse);
  }

  lemma LateOne(t: seq<Event>, e: Event)
    requires !IsUserCall(e) && !IsUse(e)
    ensures Late(t + [e], IsUserCall) <==> Late(t, IsUserCall)
    ensures Late(t + [e], IsQuery) <==> Late(t, IsQuery)
    ensures Late(t + [e], IsUse) <==> Late(t, IsUse)
  {
    LateAppend(t, [e], IsUserCall);
    LateAppend(t, [e], IsQuery);
    LateAppend(t, [e], IsUse);
  }

  lemma LateConstruct(s: State, h: Handle, comm: bool)
    requires Inv(s) && Legal(s, Construct(h, comm))
    requires s.finalized <==> Happens(s.trace, IsFinalization)
    ensures LateBy(s, Construct(h, comm))
  {
    var u := BuildEvents(s.next, !s.initialized, comm);
    BuildKinds(s.next, !s.initialized, comm);
    LateAfter(s.trace, u, IsUserCall);
    LateAfter(s.trace, u, IsQuery);
    LateAfter(s.trace, u, IsUse);
  }

  lemma BuildKinds(p: Ptr, starter: bool, comm: bool)
    ensures var u := BuildEvents(p, starter, comm);
            && (forall i :: 0 <= i < |u| ==> !IsFinalization(u[i]) && !IsUserCall(u[i]))
            && (Happens(u, IsQuery) <==> comm) && (Happens(u, IsUse) <==> comm)
  {
    var u := BuildEvents(p, starter, comm);
    if comm {
      var i := if starter then 1 else 0;
      assert IsQuery(u[i]) && IsUse(u[i]);
    } else {
      assert forall i :: 0 <= i < |u| ==> !IsUse(u[i]);
    }
  }

  lemma NoUse(u: seq<Event>)
    requires !Happens(u, IsUse)
    ensures !Happens(u, IsQuery) && !Late(u, IsQuery) && !Late(u, IsUse)
  {
    forall i | 0 <= i < |u|
      ensures !IsUse(u[i]) && !IsQuery(u[i])
    {
      assert !IsUse(u[i]);
    }
  }

  lemma LateHandling(s: State, op: Op)
    requires Inv(s) && Legal(s, op) && Handling(op)
    requires s.finalized <==> Happens(s.trace, IsFinalization)
    ensures LateBy(s, op)
  {
    HandlingKeeps(s, op);
    var was := LetGo(s, op);
    if was.Some? && was.value in s.pimpls && !Referenced(Rehandled(s, op), was.value) {
      var p := was.value;
      var cbs := s.pimpls[p].callbacks;
      assert StackInv(s, p);
      TeardownKinds(p, cbs, p in Starters(s));
      NoUse(Teardown(p, cbs));
      LateAppend(s.trace, Teardown(p, cbs), IsUserCall);
      LateAppend(s.trace, Teardown(p, cbs), IsQuery);
      LateAppend(s.trace, Teardown(p, cbs), IsUse);
    }
  }

  /** The state in which operation `k` of the run begins. */
  function Before(ops: seq<Op>, k: nat): Option<State>
    requires k <= |ops|
  {
    Exec(ops[..k])
  }

  predicate CallsBackLateAt(ops: seq<Op>, k: nat)
    requires k < |ops|
  {
    Before(ops, k).Some? && Legal(Before(ops, k).value, ops[k]) && CallsBackLate(Before(ops, k).value, ops[k])
  }

  predicate QueriesLateAt(ops: seq<Op>, k: nat)
    requires k < |ops|
  {
    Before(ops, k).Some? && QueriesLate(Before(ops, k).value, ops[k])
  }

  predicate UsesLateAt(ops: seq<Op>, k: nat)
    requires k < |ops|
  {
    Before(ops, k).Some? && UsesLate(Before(ops, k).value, ops[k])
  }

  lemma SameBefore(ops: seq<Op>, k: nat)
    requires k < |ops| - 1
    ensures var front := ops[..|ops| - 1];
            && (CallsBackLateAt(front, k) <==> CallsBackLateAt(ops, k))
            && (QueriesLateAt(front, k) <==> QueriesLateAt(ops, k))
            && (UsesLateAt(front, k) <==> UsesLateAt(ops, k))
  {
    assert ops[..|ops| - 1][..k] == ops[..k];
  }

  lemma CallsBackLateSomewhere(ops: seq<Op>)
    requires ops != []
    ensures var last := |ops| - 1;
            (exists k :: 0 <= k < |ops| && CallsBackLateAt(ops, k)) <==>
              (exists k :: 0 <= k < last && CallsBackLateAt(ops[..last], k)) || CallsBackLateAt(ops, last)
  {
    var last := |ops| - 1;
    if k :| 0 <= k < last && CallsBackLateAt(ops[..last], k) { SameBefore(ops, k); }
    if k :| 0 <= k < last && CallsBackLateAt(ops, k) { SameBefore(ops, k); }
  }

  lemma CallsBackLateLast(ops: seq<Op>)
    requires ops != [] && Exec(ops).Some?
    ensures var front := ops[..|ops| - 1];
            Late(Exec(ops).value.trace, IsUserCall) <==>
              Late(Exec(front).value.trace, IsUserCall) || CallsBackLateAt(ops, |ops| - 1)
  {
    InvAlways(ops[..|ops| - 1]);
    LateStep(Exec(ops[..|ops| - 1]).value, ops[|ops| - 1]);
  }

  /**
   * A user callback runs after MPI is finalized exactly when, at some step of the run, the last
   * handle on a state with user callbacks is dropped while MPI is already finalized.
   */
  lemma {:induction false} CallsBackLateExactly(ops: seq<Op>)
    requires Exec(ops).Some?
    ensures Late(Exec(ops).value.trace, IsUserCall) <==> exists k :: 0 <= k < |ops| && CallsBackLateAt(ops, k)
  {
    if ops != [] {
      var last := |ops| - 1;
      CallsBackLateExactly(ops[..last]);
      CallsBackLateLast(ops);
      CallsBackLateSomewhere(ops);
    }
  }

  lemma QueriesLateSomewhere(ops: seq<Op>)
    requires ops != []
    ensures var last := |ops| - 1;
            (exists k :: 0 <= k < |ops| && QueriesLateAt(ops, k)) <==>
              (exists k :: 0 <= k < last && QueriesLateAt(ops[..last], k)) || QueriesLateAt(ops, last)
  {
    var last := |ops| - 1;
    if k :| 0 <= k < last && QueriesLateAt(ops[..last], k) { SameBefore(ops, k); }
    if k :| 0 <= k < last && QueriesLateAt(ops, k) { SameBefore(ops, k); }
  }

  lemma QueriesLateLast(ops: seq<Op>)
    requires ops != [] && Exec(ops).Some?
    ensures var front := ops[..|ops| - 1];
            Late(Exec(ops).value.trace, IsQuery) <==>
              Late(Exec(front).value.trace, IsQuery) || QueriesLateAt(ops, |ops| - 1)
  {
    InvAlways(ops[..|ops| - 1]);
    LateStep(Exec(ops[..|ops| - 1]).value, ops[|ops| - 1]);
  }

  /**
   * The library asks a finalized MPI for rank and size exactly when, at some step of the run with
   * MPI finalized, a view of a communicator is built or one gathers or reduces.
   */
  lemma {:induction false} QueriesLateExactly(ops: seq<Op>)
    requires Exec(ops).Some?
    ensures Late(Exec(ops).value.trace, IsQuery) <==> exists k :: 0 <= k < |ops| && QueriesLateAt(ops, k)
  {
    if ops != [] {
      var last := |ops| - 1;
      QueriesLateExactly(ops[..last]);
      QueriesLateLast(ops);
      QueriesLateSomewhere(ops);
    }
  }

  lemma UsesLateSomewhere(ops: seq<Op>)
    requires ops != []
    ensures var last := |ops| - 1;
            (exists k :: 0 <= k < |ops| && UsesLateAt(ops, k)) <==>
              (exists k :: 0 <= k < last && UsesLateAt(ops[..last], k)) || UsesLateAt(ops, last)
  {
    var last := |ops| - 1;
    if k :| 0 <= k < last && UsesLateAt(ops[..last], k) { SameBefore(ops, k); }
    if k :| 0 <= k < last && UsesLateAt(ops, k) { SameBefore(ops, k); }
  }

  lemma UsesLateLast(ops: seq<Op>)
    requires ops != [] && Exec(ops).Some?
    ensures var front := ops[..|ops| - 1];
            Late(Exec(ops).value.trace, IsUse) <==>
              Late(Exec(front).value.trace, IsUse) || UsesLateAt(ops, |ops| - 1)
  {
    InvAlways(ops[..|ops| - 1]);
    LateStep(Exec(ops[..|ops| - 1]).value, ops[|ops| - 1]);
  }

  /**
   * The library calls a finalized MPI on a communicator exactly when, at some step of the run with
   * MPI finalized, a view of a communicator is built, gathers, reduces, or does so through the RAM of
   * a resource set, or two such views are compared, or a view without a communicator reduces.
   */
  lemma {:induction false} UsesLateExactly(ops: seq<Op>)
    requires Exec(ops).Some?
    ensures Late(Exec(ops).value.trace, IsUse) <==> exists k :: 0 <= k < |ops| && UsesLateAt(ops, k)
  {
    if ops != [] {
      var last := |ops| - 1;
      UsesLateExactly(ops[..last]);
      UsesLateLast(ops);
      UsesLateSomewhere(ops);
    }
  }

  lemma ExecSnoc(ops: seq<Op>, op: Op)
    requires Exec(ops).Some? && Legal(Exec(ops).value, op)
    ensures Exec(ops + [op]) == Some(Step(Exec(ops).value, op))
  {
    assert (ops + [op])[..|ops|] == ops;
  }

  /** A starter and a view of its own, with a callback stacked on the latter. */
  function TwoViewsState(): State {
    State(true, false, map[0 := Some(0), 1 := Some(1)],
          map[0 := Pimpl(true, true, [MpiFinalize]), 1 := Pimpl(false, true, [User(7)])], 2,
          [Initialize, Query, Built(0, true), Pushed(0, MpiFinalize), Query, Built(1, false), Pushed(1, User(7))])
  }

  /** The starter alone. */
  function OneViewState(): State {
    State(true, false, map[0 := Some(0)], map[0 := Pimpl(true, true, [MpiFinalize])], 1,
          [Initialize, Query, Built(0, true), Pushed(0, MpiFinalize)])
  }

  lemma OneView()
    ensures Exec([Construct(0, true)]) == Some(OneViewState())
  {
    ExecSnoc([], Construct(0, true));
    assert [] + [Construct(0, true)] == [Construct(0, true)];
    assert Step(START, Construct(0, true)).trace == OneViewState().trace;
  }

  /** The starter and a view of its own. */
  function PlainViewsState(): State {
    State(true, false, map[0 := Some(0), 1 := Some(1)],
          map[0 := Pimpl(true, true, [MpiFinalize]), 1 := Pimpl(false, true, [])], 2,
          OneViewState().trace + [Query, Built(1, false)])
  }

  lemma PlainViews()
    ensures Exec([Construct(0, true), Construct(1, true)]) == Some(PlainViewsState())
  {
    OneView();
    ExecSnoc([Construct(0, true)], Construct(1, true));
    assert [Construct(0, true)] + [Construct(1, true)] == [Construct(0, true), Construct(1, true)];
    var s, want := Step(OneViewState(), Construct(1, true)), PlainViewsState();
    assert s.handles == want.handles && s.pimpls == want.pimpls && s.trace == want.trace;
  }

  lemma TwoViews()
    ensures Exec([Construct(0, true), Construct(1, true), StackCallback(1, 7)]) == Some(TwoViewsState())
  {
    var ops, op := [Construct(0, true), Construct(1, true)], StackCallback(1, 7);
    PlainViews();
    ExecSnoc(ops, op);
    assert ops + [op] == [Construct(0, true), Construct(1, true), op];
    assert [] + [User(7)] == [User(7)];
    var s, want := Step(PlainViewsState(), op), TwoViewsState();
    assert s.pimpls == want.pimpls && s.trace == want.trace;
  }

  /** The same after the starter's only handle is gone: MPI is finalized, the other view still held. */
  function SurvivorState(): State {
    TwoViewsState().(finalized := true, handles := map[1 := Some(1)], pimpls := map[1 := Pimpl(false, true, [User(7)])],
                     trace := TwoViewsState().trace + [Ran(0, MpiFinalize)])
  }

  const SURVIVOR_RUN: seq<Op> := [Construct(0, true), Construct(1, true), StackCallback(1, 7), Destroy(0)]

  lemma Survivor()
    ensures Exec(SURVIVOR_RUN) == Some(SurvivorState())
  {
    TwoViews();
    var ops := [Construct(0, true), Construct(1, true), StackCallback(1, 7)];
    var s := TwoViewsState();
    assert Teardown(0, [MpiFinalize]) == [Ran(0, MpiFinalize)];
    ExecSnoc(ops, Destroy(0));
    assert ops + [Destroy(0)] == SURVIVOR_RUN;
    var s', want := Step(s, Destroy(0)), SurvivorState();
    assert s'.handles == want.handles && s'.pimpls == want.pimpls;
  }

  /** A view built on its own calls back when MPI is gone. */
  lemma IndependentViewCallsBackLate()
    ensures var ops := SURVIVOR_RUN + [Destroy(1)];
            Exec(ops).Some? &&
            Exec(ops).value.trace == SurvivorState().trace + [Ran(1, User(7))] &&
            Late(Exec(ops).value.trace, IsUserCall)
  {
    Survivor();
    assert Teardown(1, [User(7)]) == [Ran(1, User(7))];
    ExecSnoc(SURVIVOR_RUN, Destroy(1));
    var t := Step(SurvivorState(), Destroy(1)).trace;
    assert IsFinalization(t[7]) && IsUserCall(t[8]);
  }

  /** A view built on its own gathers when MPI is gone: it asks for rank and size, and calls the collective. */
  lemma IndependentViewQueriesLate()
    ensures var ops := SURVIVOR_RUN + [Collect(1, false)];
            Exec(ops).Some? &&
            Exec(ops).value.trace == SurvivorState().trace + [Query, Transfer] && Late(Exec(ops).value.trace, IsQuery)
  {
    Survivor();
    ExecSnoc(SURVIVOR_RUN, Collect(1, false));
    var t := Step(SurvivorState(), Collect(1, false)).trace;
    assert IsFinalization(t[7]) && IsQuery(t[8]);
  }
}
