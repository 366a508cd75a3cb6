/**
 * What each operation of a run does to the variables, to the shared states and to MPI, and what
 * copies and stacked callbacks come to in the course of a run.
 */
module Operations {
  import opened Outcomes
  import opened Lifecycle
  import opened LifecycleResults

  /** The run `ops` may go on with `op`, which takes it from `s` to `s'`. */
  predicate Takes(ops: seq<Op>, op: Op, s: State, s': State) {
    Exec(ops) == Some(s) && Exec(ops + [op]) == Some(s')
  }

  predicate Unchanged(s: State, s': State, h: Handle) {
    (h in s'.handles <==> h in s.handles) && (h in s.handles ==> s'.handles[h] == s.handles[h])
  }

  /** Every variable but those of `but` holds what it held. */
  ghost predicate OthersUnchanged(s: State, s': State, but: set<Handle>) {
    forall h :: h !in but ==> Unchanged(s, s', h)
  }

  /** Shared states, MPI and the trace are as they were. */
  predicate NothingElse(s: State, s': State) {
    && s'.pimpls == s.pimpls && s'.next == s.next && s'.trace == s.trace
    && s'.initialized == s.initialized && s'.finalized == s.finalized
  }

  /** The variables being as in `s'`, nothing refers to `was` any more. */
  ghost predicate LastLost(s: State, s': State, was: Option<Ptr>) {
    was.Some? && was.value in s.pimpls && forall h :: h in s'.handles ==> s'.handles[h] != was
  }

  /** The callbacks of a stack called one after the other, the last stacked first. */
  function LastFirst(p: Ptr, cbs: seq<Callback>): seq<Event> {
    seq(|cbs|, i requires 0 <= i < |cbs| => Ran(p, cbs[|cbs| - 1 - i]))
  }

  /** State `p` is gone, having called its callbacks; MPI is finalized if that is among them. */
  ghost predicate TornDown(s: State, s': State, p: Ptr)
    requires p in s.pimpls
  {
    && p !in s'.pimpls && s'.pimpls.Keys == s.pimpls.Keys - {p}
    && (forall q :: q in s'.pimpls ==> s'.pimpls[q] == s.pimpls[q])
    && s'.trace == s.trace + LastFirst(p, s.pimpls[p].callbacks)
    && (s'.finalized <==> s.finalized || MpiFinalize in s.pimpls[p].callbacks)
    && s'.initialized == s.initialized && s'.next == s.next
  }

  /** A variable has let go of `was`. */
  ghost predicate LetsGo(s: State, s': State, was: Option<Ptr>) {
    if LastLost(s, s', was) then TornDown(s, s', was.value) else NothingElse(s, s')
  }

  lemma TeardownIsLastFirst(p: Ptr, cbs: seq<Callback>)
    ensures Teardown(p, cbs) == LastFirst(p, cbs)
  {
    forall i | 0 <= i < |cbs|
      ensures |Teardown(p, cbs)| == |cbs| && Teardown(p, cbs)[i] == LastFirst(p, cbs)[i]
    {
      TeardownEvents(p, cbs, i);
    }
    assert cbs == [] ==> Teardown(p, cbs) == [];
  }

  lemma DropLetsGo(s: State, handles: map<Handle, Option<Ptr>>, was: Option<Ptr>)
    ensures LetsGo(s, Drop(s.(handles := handles), was), was)
  {
    if was.Some? && was.value in s.pimpls {
      TeardownIsLastFirst(was.value, s.pimpls[was.value].callbacks);
    }
  }

  // ---------------------------------------------------------------------------
  // Operation by operation
  // ---------------------------------------------------------------------------

  /** A new view shares the state of the one it is copied from. */
  lemma CopyShares(ops: seq<Op>, dst: Handle, src: Handle)
    requires Exec(ops).Some?
    requires var s := Exec(ops).value; dst !in s.handles && src in s.handles
    ensures var s := Exec(ops).value;
            exists s' :: Takes(ops, Copy(dst, src), s, s')
                         && dst in s'.handles && s'.handles[dst] == s.handles[src]
                         && OthersUnchanged(s, s', {dst}) && NothingElse(s, s')
  {
    ExecSnoc(ops, Copy(dst, src));
    assert Takes(ops, Copy(dst, src), Exec(ops).value, Exec(ops + [Copy(dst, src)]).value);
  }

  /** A new view takes the state of the one it is moved from, which is left null. */
  lemma MoveTakes(ops: seq<Op>, dst: Handle, src: Handle)
    requires Exec(ops).Some?
    requires var s := Exec(ops).value; dst !in s.handles && src in s.handles
    ensures var s := Exec(ops).value;
            exists s' :: Takes(ops, Move(dst, src), s, s')
                         && dst in s'.handles && s'.handles[dst] == s.handles[src]
                         && src in s'.handles && s'.handles[src] == None
                         && OthersUnchanged(s, s', {dst, src}) && NothingElse(s, s')
  {
    ExecSnoc(ops, Move(dst, src));
    assert Takes(ops, Move(dst, src), Exec(ops).value, Exec(ops + [Move(dst, src)]).value);
  }

  /** Copy assignment shares the state of the source and lets go of the old one; from itself it changes nothing. */
  lemma CopyAssignShares(ops: seq<Op>, dst: Handle, src: Handle)
    requires Exec(ops).Some?
    requires var s := Exec(ops).value; dst in s.handles && src in s.handles
    ensures var s := Exec(ops).value;
            exists s' :: Takes(ops, CopyAssign(dst, src), s, s')
                         && dst in s'.handles && s'.handles[dst] == s.handles[src]
                         && OthersUnchanged(s, s', {dst}) && LetsGo(s, s', s.handles[dst])
                         && (s.handles[dst] == s.handles[src] ==> s' == s)
  {
    var s, op := Exec(ops).value, CopyAssign(dst, src);
    ExecSnoc(ops, op);
    DropLetsGo(s, s.handles[dst := s.handles[src]], s.handles[dst]);
    var s' := Exec(ops + [op]).value;
    assert Takes(ops, op, s, s');
    if s.handles[dst] == s.handles[src] {
      assert s.handles[dst := s.handles[src]] == s.handles;
    }
  }

  /**
   * Move assignment takes the state of the source, leaves that null, and lets go of the old state.
   * From itself it changes nothing.
   */
  ghost predicate MoveAssigned(s: State, s': State, dst: Handle, src: Handle)
    requires dst in s.handles && src in s.handles
  {
    if dst == src then s' == s
    else s'.handles == s.handles[dst := s.handles[src]][src := None] && LetsGo(s, s', s.handles[dst])
  }

  lemma MoveAssignedByStep(s: State, dst: Handle, src: Handle)
    requires dst in s.handles && src in s.handles
    ensures MoveAssigned(s, Step(s, MoveAssign(dst, src)), dst, src)
  {
    DropLetsGo(s, s.handles[dst := s.handles[src]][src := None], s.handles[dst]);
  }

  lemma MoveAssignTakes(ops: seq<Op>, dst: Handle, src: Handle)
    requires Exec(ops).Some?
    requires var s := Exec(ops).value; dst in s.handles && src in s.handles
    ensures var s := Exec(ops).value;
            exists s' :: Takes(ops, MoveAssign(dst, src), s, s') && MoveAssigned(s, s', dst, src)
  {
    var s, op := Exec(ops).value, MoveAssign(dst, src);
    ExecSnoc(ops, op);
    MoveAssignedByStep(s, dst, src);
    assert Takes(ops, op, s, Exec(ops + [op]).value);
  }

  lemma SwapExchanges(ops: seq<Op>, dst: Handle, src: Handle)
    requires Exec(ops).Some?
    requires var s := Exec(ops).value; dst in s.handles && src in s.handles
    ensures var s := Exec(ops).value;
            exists s' :: Takes(ops, Swap(dst, src), s, s')
                         && dst in s'.handles && s'.handles[dst] == s.handles[src]
                         && src in s'.handles && s'.handles[src] == s.handles[dst]
                         && OthersUnchanged(s, s', {dst, src}) && NothingElse(s, s')
  {
    ExecSnoc(ops, Swap(dst, src));
    assert Takes(ops, Swap(dst, src), Exec(ops).value, Exec(ops + [Swap(dst, src)]).value);
  }

  lemma DestroyRemoves(ops: seq<Op>, h: Handle)
    requires Exec(ops).Some? && h in Exec(ops).value.handles
    ensures var s := Exec(ops).value;
            exists s' :: Takes(ops, Destroy(h), s, s') && h !in s'.handles
                         && OthersUnchanged(s, s', {h}) && LetsGo(s, s', s.handles[h])
  {
    var s := Exec(ops).value;
    ExecSnoc(ops, Destroy(h));
    DropLetsGo(s, s.handles - {h}, s.handles[h]);
    assert Takes(ops, Destroy(h), s, Exec(ops + [Destroy(h)]).value);
  }

  /** What building a view does to MPI, for a starter and for any other, with a communicator and without. */
  function Building(p: Ptr, starter: bool, comm: bool): seq<Event> {
    if starter && comm then [Initialize, Query, Built(p, true), Pushed(p, MpiFinalize)]
    else if starter then [Initialize, Built(p, true), Pushed(p, MpiFinalize)]
    else if comm then [Query, Built(p, false)]
    else [Built(p, false)]
  }

  /** In `h` is a new state of its own, the starter if MPI was not initialized, and then with finalize stacked. */
  ghost predicate HoldsNewState(s: State, s': State, h: Handle, comm: bool) {
    && h in s'.handles && s'.handles[h] == Some(s.next)
    && s.next !in s.pimpls && s'.pimpls.Keys == s.pimpls.Keys + {s.next}
    && (forall p :: p in s.pimpls ==> s'.pimpls[p] == s.pimpls[p])
    && s'.pimpls[s.next] == Pimpl(!s.initialized, comm, if s.initialized then [] else [MpiFinalize])
    && s'.next == s.next + 1
  }

  lemma NewStateByStep(s: State, h: Handle, comm: bool)
    requires Linked(s) && Legal(s, Construct(h, comm))
    ensures HoldsNewState(s, Step(s, Construct(h, comm)), h, comm)
  {
  }

  lemma BuildingIs(p: Ptr, starter: bool, comm: bool)
    ensures BuildEvents(p, starter, comm) == Building(p, starter, comm)
  {
  }

  lemma ConstructBuilds(ops: seq<Op>, h: Handle, comm: bool)
    requires Exec(ops).Some? && h !in Exec(ops).value.handles
    ensures var s := Exec(ops).value;
            exists s' :: Takes(ops, Construct(h, comm), s, s')
                         && HoldsNewState(s, s', h, comm) && OthersUnchanged(s, s', {h})
                         && s'.trace == s.trace + Building(s.next, !s.initialized, comm)
                         && s'.initialized && s'.finalized == s.finalized
  {
    var s, op := Exec(ops).value, Construct(h, comm);
    InvAlways(ops);
    ExecSnoc(ops, op);
    NewStateByStep(s, h, comm);
    BuildingIs(s.next, !s.initialized, comm);
    assert Takes(ops, op, s, Exec(ops + [op]).value);
  }

  /** On the stack of `p` there is one more callback, on top; everything else is as it was. */
  ghost predicate PushedOnto(s: State, s': State, p: Ptr, cb: Callback) {
    && p in s.pimpls && s'.pimpls.Keys == s.pimpls.Keys
    && s'.pimpls[p] == Pimpl(s.pimpls[p].started, s.pimpls[p].comm, s.pimpls[p].callbacks + [cb])
    && (forall q :: q in s.pimpls && q != p ==> s'.pimpls[q] == s.pimpls[q])
    && s'.trace == s.trace + [Pushed(p, cb)] && s'.handles == s.handles
    && s'.next == s.next && s'.initialized == s.initialized && s'.finalized == s.finalized
  }

  /** A callback goes on top of the stack of the view's state, whoever started MPI; on a null view nothing happens. */
  ghost predicate CallbackStacked(s: State, s': State, h: Handle, id: nat)
    requires h in s.handles
  {
    if s.handles[h].Some? then PushedOnto(s, s', s.handles[h].value, User(id)) else s' == s
  }

  lemma StackedByStep(s: State, h: Handle, id: nat)
    requires Linked(s) && Legal(s, StackCallback(h, id))
    ensures CallbackStacked(s, Step(s, StackCallback(h, id)), h, id)
  {
  }

  lemma StackCallbackPushes(ops: seq<Op>, h: Handle, id: nat)
    requires Exec(ops).Some? && h in Exec(ops).value.handles
    ensures var s := Exec(ops).value;
            exists s' :: Takes(ops, StackCallback(h, id), s, s') && CallbackStacked(s, s', h, id)
  {
    var s, op := Exec(ops).value, StackCallback(h, id);
    InvAlways(ops);
    ExecSnoc(ops, op);
    StackedByStep(s, h, id);
    assert Takes(ops, op, s, Exec(ops + [op]).value);
  }

  /** The run goes on with `op`, which does nothing but `events`. */
  predicate OnlyTraces(ops: seq<Op>, op: Op, events: seq<Event>)
    requires Exec(ops).Some?
  {
    Exec(ops + [op]) == Some(Exec(ops).value.(trace := Exec(ops).value.trace + events))
  }

  /** What collecting and comparing call of MPI, for views with and without a communicator. */
  lemma UsesOfMpi(ops: seq<Op>, g: Handle, h: Handle)
    requires Exec(ops).Some? && g in Exec(ops).value.handles && h in Exec(ops).value.handles
    ensures var s := Exec(ops).value;
            && (HasComm(s, h) <==> exists p :: p in s.pimpls && s.handles[h] == Some(p) && s.pimpls[p].comm)
            && OnlyTraces(ops, Collect(h, false), if HasComm(s, h) then [Query, Transfer] else [])
            && OnlyTraces(ops, Collect(h, true), if HasComm(s, h) then [Query, Transfer] else [Transfer])
            && OnlyTraces(ops, CollectRam(h), if HasComm(s, h) then [Transfer] else [])
            && OnlyTraces(ops, Compare(g, h), if HasComm(s, g) && HasComm(s, h) then [Compared] else [])
  {
    ExecSnoc(ops, Collect(h, false));
    ExecSnoc(ops, Collect(h, true));
    ExecSnoc(ops, CollectRam(h));
    ExecSnoc(ops, Compare(g, h));
  }

  /** The program itself may initialize MPI if nobody has, and finalize it if it is initialized and not finalized. */
  lemma ProgramCallsMpi(ops: seq<Op>)
    requires Exec(ops).Some?
    ensures var s := Exec(ops).value;
            && (!s.initialized ==>
                  Takes(ops, InitMpi, s, s.(initialized := true, trace := s.trace + [ForeignInit])))
            && (s.initialized && !s.finalized ==>
                  Takes(ops, FinalizeMpi, s, s.(finalized := true, trace := s.trace + [ForeignFinalize])))
  {
    var s := Exec(ops).value;
    if !s.initialized {
      ExecSnoc(ops, InitMpi);
    } else if !s.finalized {
      ExecSnoc(ops, FinalizeMpi);
    }
  }

  // ---------------------------------------------------------------------------
  // What the readings of a trace say
  // ---------------------------------------------------------------------------

  lemma SelectedIff<T>(trace: seq<Event>, f: Event -> seq<T>, e: Event, x: T)
    requires forall e' :: x in f(e') <==> e' == e
    ensures x in Select(trace, f) <==> e in trace
  {
    if e in trace {
      Selected(trace, f, e, x);
    }
    if x in Select(trace, f) {
      OnlySelected(trace, f, x);
    }
  }

  /** Starters, finalizers, stacked and called callbacks are those of which the trace has the event. */
  lemma ReadingsAreEvents(s: State, p: Ptr, cb: Callback)
    ensures p in Starters(s) <==> Built(p, true) in s.trace
    ensures p in Finalizers(s) <==> Ran(p, MpiFinalize) in s.trace
    ensures cb in Pushes(s, p) <==> Pushed(p, cb) in s.trace
    ensures cb in Runs(s, p) <==> Ran(p, cb) in s.trace
  {
    SelectedIff(s.trace, Starting(), Built(p, true), p);
    SelectedIff(s.trace, Finalizing(), Ran(p, MpiFinalize), p);
    SelectedIff(s.trace, PushedOn(p), Pushed(p, cb), cb);
    SelectedIff(s.trace, RanOn(p), Ran(p, cb), cb);
  }

  // ---------------------------------------------------------------------------
  // Copies in the course of a run
  // ---------------------------------------------------------------------------

  /** Of all variables only `h` refers to its state. */
  ghost predicate Sole(s: State, h: Handle) {
    && h in s.handles && s.handles[h].Some?
    && forall g :: g in s.handles && g != h ==> s.handles[g] != s.handles[h]
  }

  lemma SnocSnoc(ops: seq<Op>, a: Op, b: Op)
    ensures ops + [a] + [b] == ops + [a, b]
  {
  }

  /** A copy keeps the state alive when the view it was made from goes: nothing is torn down. */
  lemma CopyOutlives(ops: seq<Op>, g: Handle, h: Handle)
    requires Exec(ops).Some?
    requires var s := Exec(ops).value; g !in s.handles && h in s.handles
    ensures var s := Exec(ops).value;
            exists s' :: Exec(ops + [Copy(g, h), Destroy(h)]) == Some(s') && NothingElse(s, s')
                         && h !in s'.handles && g in s'.handles && s'.handles[g] == s.handles[h]
                         && OthersUnchanged(s, s', {g, h})
  {
    var s, ops' := Exec(ops).value, ops + [Copy(g, h)];
    CopyShares(ops, g, h);
    var s1 := Exec(ops').value;
    DestroyRemoves(ops', h);
    SnocSnoc(ops, Copy(g, h), Destroy(h));
    var s' := Exec(ops + [Copy(g, h), Destroy(h)]).value;
    assert Unchanged(s1, s', g);
    assert s'.handles[g] == s1.handles[h];
    assert !LastLost(s1, s', s1.handles[h]);
    forall k | k !in {g, h} ensures Unchanged(s, s', k) {
      assert Unchanged(s, s1, k) && Unchanged(s1, s', k);
    }
  }

  lemma SoleIsLastLost(s: State, g: Handle, h: Handle, s1: State, s2: State)
    requires Sole(s, h) && s.handles[h].value in s.pimpls && NothingElse(s, s1)
    requires h !in s1.handles && OthersUnchanged(s, s1, {g, h})
    requires g !in s2.handles && OthersUnchanged(s1, s2, {g})
    ensures LastLost(s1, s2, s.handles[h]) && OthersUnchanged(s, s2, {g, h}) && h !in s2.handles
  {
    assert Unchanged(s1, s2, h);
    forall k ensures k !in {g, h} ==> Unchanged(s, s2, k) {
      assert k !in {g, h} ==> Unchanged(s, s1, k) && Unchanged(s1, s2, k);
    }
    forall k | k in s2.handles ensures s2.handles[k] != s.handles[h] {
      assert Unchanged(s, s2, k);
    }
  }

  /** When the copy goes too, and there was no other, the state is torn down. */
  lemma LastCopyTearsDown(ops: seq<Op>, g: Handle, h: Handle)
    requires Exec(ops).Some? && g !in Exec(ops).value.handles && Sole(Exec(ops).value, h)
    ensures var s := Exec(ops).value;
            exists s' :: Exec(ops + [Copy(g, h), Destroy(h), Destroy(g)]) == Some(s')
                         && s.handles[h].value in s.pimpls && TornDown(s, s', s.handles[h].value)
                         && g !in s'.handles && h !in s'.handles && OthersUnchanged(s, s', {g, h})
  {
    var s, ops' := Exec(ops).value, ops + [Copy(g, h), Destroy(h)];
    assert s.handles[h].value in s.pimpls by { InvAlways(ops); }
    CopyOutlives(ops, g, h);
    var s1 := Exec(ops').value;
    DestroyRemoves(ops', g);
    assert ops' + [Destroy(g)] == ops + [Copy(g, h), Destroy(h), Destroy(g)];
    SoleIsLastLost(s, g, h, s1, Exec(ops' + [Destroy(g)]).value);
  }

  lemma NewStateIsSole(s: State, s': State, h: Handle, comm: bool)
    requires Linked(s) && HoldsNewState(s, s', h, comm) && OthersUnchanged(s, s', {h})
    ensures Sole(s', h)
  {
    forall k | k in s'.handles && k != h ensures s'.handles[k] != s'.handles[h] {
      assert Unchanged(s, s', k);
    }
  }

  /** A copy of a view that is its state's only one, through the end of both. */
  lemma SoleViewAndCopy(ops: seq<Op>, g: Handle, h: Handle)
    requires Exec(ops).Some? && g !in Exec(ops).value.handles && Sole(Exec(ops).value, h)
    requires var s := Exec(ops).value;
             s.handles[h].value in s.pimpls ==> s.pimpls[s.handles[h].value].callbacks == [MpiFinalize]
    ensures var s, run := Exec(ops).value, ops + [Copy(g, h), Destroy(h)];
            && Exec(run).Some? && NothingElse(s, Exec(run).value)
            && Exec(run + [Destroy(g)]).Some? && Exec(run + [Destroy(g)]).value.finalized
            && Exec(run + [Destroy(g)]).value.trace == s.trace + [Ran(s.handles[h].value, MpiFinalize)]
  {
    CopyOutlives(ops, g, h);
    LastCopyTearsDown(ops, g, h);
    assert ops + [Copy(g, h), Destroy(h), Destroy(g)] == ops + [Copy(g, h), Destroy(h)] + [Destroy(g)];
    var p := Exec(ops).value.handles[h].value;
    assert LastFirst(p, [MpiFinalize]) == [Ran(p, MpiFinalize)];
  }

  lemma NotFinalizedBefore(ops: seq<Op>)
    requires Exec(ops).Some? && !Exec(ops).value.initialized
    ensures Linked(Exec(ops).value) && !Exec(ops).value.finalized
  {
    InvAlways(ops);
  }

  lemma FinalizersIfFinalized(ops: seq<Op>)
    requires Exec(ops).Some? && !Exec(ops).value.finalized
    ensures Finalizers(Exec(ops).value) == []
  {
    InvAlways(ops);
  }

  /** MPI lives as long as the last copy of the view that started it, and not a step longer. */
  lemma StarterLivesInItsCopies(ops: seq<Op>, g: Handle, h: Handle, comm: bool)
    requires Exec(ops).Some? && !Exec(ops).value.initialized
    requires g !in Exec(ops).value.handles && h !in Exec(ops).value.handles && g != h
    ensures var p, run := Exec(ops).value.next, ops + [Construct(h, comm), Copy(g, h), Destroy(h)];
            && Exec(run).Some? && !Exec(run).value.finalized && Finalizers(Exec(run).value) == []
            && Exec(run + [Destroy(g)]).Some? && Exec(run + [Destroy(g)]).value.finalized
            && Exec(run + [Destroy(g)]).value.trace == Exec(run).value.trace + [Ran(p, MpiFinalize)]
  {
    var s, ops' := Exec(ops).value, ops + [Construct(h, comm)];
    NotFinalizedBefore(ops);
    ConstructBuilds(ops, h, comm);
    NewStateIsSole(s, Exec(ops').value, h, comm);
    assert Unchanged(s, Exec(ops').value, g);
    SoleViewAndCopy(ops', g, h);
    assert ops' + [Copy(g, h), Destroy(h)] == ops + [Construct(h, comm), Copy(g, h), Destroy(h)];
    FinalizersIfFinalized(ops + [Construct(h, comm), Copy(g, h), Destroy(h)]);
  }

  // ---------------------------------------------------------------------------
  // Callbacks in the course of a run
  // ---------------------------------------------------------------------------

  /** The operation stacks a callback on `p`. */
  predicate StacksOn(s: State, op: Op, p: Ptr) {
    op.StackCallback? && op.h in s.handles && s.handles[op.h] == Some(p)
  }

  predicate StacksAt(ops: seq<Op>, k: nat, p: Ptr)
    requires k < |ops|
  {
    Exec(ops[..k]).Some? && StacksOn(Exec(ops[..k]).value, ops[k], p)
  }

  /** The callbacks that the program stacks on `p` in the run, in their order. */
  function StackedOn(ops: seq<Op>, p: Ptr): seq<Callback> {
    if ops == [] then []
    else
      var last := |ops| - 1;
      StackedOn(ops[..last], p) + (if StacksAt(ops, last, p) then [User(ops[last].id)] else [])
  }

  lemma HandlingPushes(s: State, op: Op, p: Ptr)
    requires Inv(s) && Legal(s, op) && Handling(op)
    ensures Pushes(Step(s, op), p) == Pushes(s, p)
  {
    HandlingKeeps(s, op);
    var t, was := s.(handles := Rehandled(s, op)), LetGo(s, op);
    if was.Some? && was.value in s.pimpls && !Referenced(t.handles, was.value) {
      DropReadings(t, was.value, Step(s, op), p);
    }
  }

  /** What one operation stacks on `p`. */
  function PushedBy(s: State, op: Op, p: Ptr): seq<Callback> {
    if op.Construct? && !s.initialized && p == s.next then [MpiFinalize]
    else if StacksOn(s, op, p) then [User(op.id)]
    else []
  }

  lemma PushesStepAside(s: State, op: Op, p: Ptr)
    requires Inv(s) && Legal(s, op) && !op.Construct? && !op.StackCallback?
    ensures Pushes(Step(s, op), p) == Pushes(s, p)
  {
    var s' := Step(s, op);
    if op.InitMpi? {
      ForeignReadings(s, s', ForeignInit, p);
    } else if op.FinalizeMpi? {
      ForeignReadings(s, s', ForeignFinalize, p);
    } else if Using(op) {
      UseReadings(s, op, s', p);
    } else {
      HandlingPushes(s, op, p);
    }
  }

  lemma PushesStep(s: State, op: Op, p: Ptr)
    requires Inv(s) && Legal(s, op)
    ensures Pushes(Step(s, op), p) == Pushes(s, p) + PushedBy(s, op, p)
  {
    if op.Construct? {
      BuildStacks(s, Step(s, op), !s.initialized, op.comm, p);
    } else if op.StackCallback? {
      if s.handles[op.h].Some? {
        PushReadings(s, Step(s, op), s.handles[op.h].value, op.id, p);
      }
    } else {
      PushesStepAside(s, op, p);
    }
  }

  /** The starter's finalize is below everything that is stacked. */
  lemma BelowTheStacked(pushes: seq<Callback>, starts: bool, stacked: seq<Callback>, built: bool, more: seq<Callback>)
    requires pushes == (if starts then [MpiFinalize] else []) + stacked
    requires built ==> pushes == [] && more == []
    ensures pushes + (if built then [MpiFinalize] else more) ==
            (if starts || built then [MpiFinalize] else []) + (stacked + more)
  {
  }

  lemma NothingStackedOnNext(s: State)
    requires StackInv(s, s.next)
    ensures Pushes(s, s.next) == []
  {
  }

  lemma StackedSnoc(s: State, op: Op, p: Ptr, stacked: seq<Callback>)
    requires Inv(s) && Legal(s, op)
    requires Pushes(s, p) == (if p in Starters(s) then [MpiFinalize] else []) + stacked
    ensures Pushes(Step(s, op), p) ==
            (if p in Starters(Step(s, op)) then [MpiFinalize] else []) +
            (stacked + (if StacksOn(s, op, p) then [User(op.id)] else []))
  {
    var built := op.Construct? && !s.initialized && p == s.next;
    PushesStep(s, op, p);
    StartersStep(s, op);
    assert StackInv(s, s.next);
    NothingStackedOnNext(s);
    BelowTheStacked(Pushes(s, p), p in Starters(s), stacked, built, if StacksOn(s, op, p) then [User(op.id)] else []);
  }

  /** What has been stacked on a state is what the program stacked, on the starter with finalize below it. */
  lemma {:induction false} PushesAreStacked(ops: seq<Op>, p: Ptr)
    requires Exec(ops).Some?
    ensures var s := Exec(ops).value;
            Pushes(s, p) == (if p in Starters(s) then [MpiFinalize] else []) + StackedOn(ops, p)
  {
    if ops != [] {
      var last := |ops| - 1;
      InvAlways(ops[..last]);
      PushesAreStacked(ops[..last], p);
      StackedSnoc(Exec(ops[..last]).value, ops[last], p, StackedOn(ops[..last], p));
    }
  }

  lemma {:induction false} StackedPrefix(ops: seq<Op>, k: nat, p: Ptr)
    requires k <= |ops|
    ensures StackedOn(ops[..k], p) <= StackedOn(ops, p)
    decreases |ops|
  {
    if k == |ops| {
      assert ops[..k] == ops;
    } else {
      StackedPrefix(ops[..|ops| - 1], k, p);
      assert ops[..|ops| - 1][..k] == ops[..k];
    }
  }

  /** The callback stacked by operation `k` has as many below it as were stacked before. */
  lemma StackedAt(ops: seq<Op>, k: nat, p: Ptr)
    requires k < |ops| && StacksAt(ops, k, p)
    ensures var j := |StackedOn(ops[..k], p)|;
            j < |StackedOn(ops, p)| && StackedOn(ops, p)[j] == User(ops[k].id)
  {
    StackedPrefix(ops, k + 1, p);
    assert ops[..k + 1][..k] == ops[..k];
  }

  /** The operations of the run that stack a callback on `p`. */
  function StackingOps(ops: seq<Op>, p: Ptr): set<nat> {
    set k: nat | k < |ops| && StacksAt(ops, k, p)
  }

  lemma StackingSnoc(ops: seq<Op>, p: Ptr)
    requires ops != []
    ensures var last := |ops| - 1;
            StackingOps(ops, p) == StackingOps(ops[..last], p) + (if StacksAt(ops, last, p) then {last} else {})
  {
    var last := |ops| - 1;
    forall k: nat | k < last ensures ops[..last][..k] == ops[..k] {}
  }

  /** As many callbacks are stacked as operations stack one. */
  lemma {:induction false} StackedCount(ops: seq<Op>, p: Ptr)
    ensures |StackedOn(ops, p)| == |StackingOps(ops, p)|
  {
    if ops != [] {
      StackedCount(ops[..|ops| - 1], p);
      StackingSnoc(ops, p);
    }
  }

  lemma ReverseOfStack(stacked: seq<Callback>, starts: bool, j: nat)
    ensures var runs := Reverse((if starts then [MpiFinalize] else []) + stacked);
            && |runs| == |stacked| + (if starts then 1 else 0)
            && (starts ==> runs[|stacked|] == MpiFinalize)
            && (j < |stacked| ==> runs[|stacked| - 1 - j] == stacked[j])
  {
    var pushes := (if starts then [MpiFinalize] else []) + stacked;
    if starts {
      ReverseAt(pushes, 0);
    }
    if j < |stacked| {
      ReverseAt(pushes, if starts then j + 1 else j);
    } else if pushes != [] {
      ReverseAt(pushes, 0);
    }
  }

  /** The callback that operation `k` stacks on `p` runs at the place that its turn gives it, counted from the end. */
  predicate RunsInTurn(ops: seq<Op>, p: Ptr, k: nat, runs: seq<Callback>)
    requires k < |ops| && StacksAt(ops, k, p)
  {
    var n, below := |StackingOps(ops, p)|, |StackingOps(ops[..k], p)|;
    below < n <= |runs| && runs[n - 1 - below] == User(ops[k].id)
  }

  lemma RunsOf(ops: seq<Op>, p: Ptr)
    requires Exec(ops).Some? && p < Exec(ops).value.next && !Referenced(Exec(ops).value.handles, p)
    ensures var s := Exec(ops).value;
            Runs(s, p) == Reverse((if p in Starters(s) then [MpiFinalize] else []) + StackedOn(ops, p))
  {
    PushesAreStacked(ops, p);
    CallbacksRunInReverse(ops, p);
  }

  lemma TurnOf(ops: seq<Op>, p: Ptr, k: nat)
    requires k < |ops| && StacksAt(ops, k, p)
    ensures var below := |StackingOps(ops[..k], p)|;
            below < |StackingOps(ops, p)| == |StackedOn(ops, p)| && StackedOn(ops, p)[below] == User(ops[k].id)
  {
    StackedAt(ops, k, p);
    StackedCount(ops, p);
    StackedCount(ops[..k], p);
  }

  lemma RunsTheOne(ops: seq<Op>, p: Ptr, k: nat, starts: bool)
    requires k < |ops| && StacksAt(ops, k, p)
    ensures RunsInTurn(ops, p, k, Reverse((if starts then [MpiFinalize] else []) + StackedOn(ops, p)))
  {
    TurnOf(ops, p, k);
    ReverseOfStack(StackedOn(ops, p), starts, |StackingOps(ops[..k], p)|);
  }

  /**
   * Once nothing refers to a state any more, every callback the program stacked on it in the run has
   * run once, the last stacked first, and finalize after all of them if the state started MPI.
   * Nothing else has run.
   */
  lemma StackedCallbacksRunOnce(ops: seq<Op>, p: Ptr)
    requires Exec(ops).Some? && p < Exec(ops).value.next && !Referenced(Exec(ops).value.handles, p)
    ensures var s, n := Exec(ops).value, |StackingOps(ops, p)|;
            && |Runs(s, p)| == n + (if p in Starters(s) then 1 else 0)
            && (p in Starters(s) ==> Runs(s, p)[n] == MpiFinalize)
            && forall k: nat :: k < |ops| && StacksAt(ops, k, p) ==> RunsInTurn(ops, p, k, Runs(s, p))
  {
    var starts := p in Starters(Exec(ops).value);
    RunsOf(ops, p);
    StackedCount(ops, p);
    ReverseOfStack(StackedOn(ops, p), starts, |ops|);
    forall k: nat | k < |ops| && StacksAt(ops, k, p)
      ensures RunsInTurn(ops, p, k, Runs(Exec(ops).value, p))
    {
      RunsTheOne(ops, p, k, starts);
    }
  }

  /** A program with one view, which starts MPI, and a callback: the callback runs before MPI is finalized. */
  lemma StarterCallsBack()
    ensures var ops := [Construct(0, true), StackCallback(0, 7), Destroy(0)];
            Exec(ops).Some? &&
            Exec(ops).value.trace ==
              OneViewState().trace + [Pushed(0, User(7)), Ran(0, User(7)), Ran(0, MpiFinalize)]
  {
    var ops := [Construct(0, true)];
    OneView();
    StackCallbackPushes(ops, 0, 7);
    var s := Exec(ops + [StackCallback(0, 7)]).value;
    DestroyRemoves(ops + [StackCallback(0, 7)], 0);
    assert [MpiFinalize] + [User(7)] == [MpiFinalize, User(7)];
    assert LastFirst(0, [MpiFinalize, User(7)]) == [Ran(0, User(7)), Ran(0, MpiFinalize)];
    assert ops + [StackCallback(0, 7)] + [Destroy(0)] == [Construct(0, true), StackCallback(0, 7), Destroy(0)];
  }
}
