/**
 * The documentation of `RuntimeView` advises a program that still needs MPI to keep a view alive: for
 * which views this is good advice.
 */
module HoldingOn {
  import opened Outcomes
  import opened Lifecycle
  import opened LifecycleResults

  /** The run goes on with `more`, and the variable `h` keeps its view all the while. */
  predicate HeldThrough(ops: seq<Op>, more: seq<Op>, h: Handle) {
    && Exec(ops).Some? && h in Exec(ops).value.handles && Exec(ops + more).Some?
    && forall k :: 0 <= k <= |more| ==>
         var now := Exec(ops + more[..k]);
         && now.Some? && h in now.value.handles
         && now.value.handles[h] == Exec(ops).value.handles[h]
  }

  /** The variable `h` holds a view of the state that started MPI. */
  predicate HoldsStarter(s: State, h: Handle) {
    Starters(s) != [] && h in s.handles && s.handles[h] == Some(Starters(s)[0])
  }

  /** As long as `h` keeps its view, the library does not finalize MPI. */
  ghost predicate KeepsMpi(ops: seq<Op>, h: Handle)
    requires Exec(ops).Some?
  {
    forall more :: HeldThrough(ops, more, h) ==> Finalizers(Exec(ops + more).value) == Finalizers(Exec(ops).value)
  }

  lemma HeldAtEnd(ops: seq<Op>, more: seq<Op>, h: Handle)
    requires HeldThrough(ops, more, h)
    ensures var s := Exec(ops + more);
            s.Some? && h in s.value.handles && s.value.handles[h] == Exec(ops).value.handles[h]
  {
    assert more[..|more|] == more;
  }

  /** There are views only once MPI is initialized. */
  lemma {:induction false} ViewsNeedMpi(ops: seq<Op>)
    requires Exec(ops).Some? && Exec(ops).value.handles != map[]
    ensures Exec(ops).value.initialized
  {
    var front := ops[..|ops| - 1];
    var s := Exec(front).value;
    if !s.initialized {
      if s.handles != map[] {
        ViewsNeedMpi(front);
      }
      assert s.handles == map[];
    }
  }

  lemma StarterStep(s: State, op: Op)
    requires Inv(s) && Legal(s, op) && s.initialized
    ensures Step(s, op).initialized && Starters(Step(s, op)) == Starters(s)
    ensures StarterHeld(Step(s, op)) ==> StarterHeld(s)
  {
    StepKeeps(s, op);
    StartersStep(s, op);
    NotHeldAgain(s, op);
  }

  /** The starter, and whether it is dead, do not change once MPI is initialized. */
  lemma {:induction false} StarterStays(ops: seq<Op>, more: seq<Op>)
    requires Exec(ops).Some? && Exec(ops).value.initialized && Exec(ops + more).Some?
    ensures Exec(ops + more).value.initialized
    ensures Starters(Exec(ops + more).value) == Starters(Exec(ops).value)
    ensures StarterHeld(Exec(ops + more).value) ==> StarterHeld(Exec(ops).value)
  {
    if more == [] {
      assert ops + more == ops;
    } else {
      var last := |more| - 1;
      assert (ops + more)[..|ops + more| - 1] == ops + more[..last];
      StarterStays(ops, more[..last]);
      InvAlways(ops + more[..last]);
      StarterStep(Exec(ops + more[..last]).value, more[last]);
    }
  }

  /** The library has finalized iff there was a starter that nothing refers to; as long as one lives, so does MPI. */
  lemma SameLifeSameFinalizers(ops: seq<Op>, more: seq<Op>)
    requires Exec(ops).Some? && Exec(ops).value.initialized && Exec(ops + more).Some?
    requires StarterHeld(Exec(ops).value) ==> StarterHeld(Exec(ops + more).value)
    ensures Finalizers(Exec(ops + more).value) == Finalizers(Exec(ops).value)
  {
    StarterStays(ops, more);
    FinalizedIffStarterUnreferenced(ops);
    FinalizedIffStarterUnreferenced(ops + more);
  }

  /** Destroying another variable leaves `h` and the starter as they are. */
  lemma DestroyOne(ops: seq<Op>, g: Handle, h: Handle)
    requires Exec(ops).Some? && g in Exec(ops).value.handles && h in Exec(ops).value.handles && g != h
    ensures HeldThrough(ops, [Destroy(g)], h)
    ensures var s, s' := Exec(ops).value, Exec(ops + [Destroy(g)]).value;
            && h in s'.handles && |s'.handles| < |s.handles|
            && (HoldsStarter(s', h) <==> HoldsStarter(s, h))
  {
    var s := Exec(ops).value;
    ViewsNeedMpi(ops);
    ExecSnoc(ops, Destroy(g));
    StarterStays(ops, [Destroy(g)]);
    FewerHandles(s.handles, g);
    assert Step(s, Destroy(g)).handles == s.handles - {g};
    OneStepHeld(ops, Destroy(g), h);
  }

  /** Destroying, one after the other, the variables that hold the starter finalizes MPI. */
  lemma {:induction false} DestroyHolders(ops: seq<Op>, h: Handle) returns (more: seq<Op>)
    requires Exec(ops).Some? && h in Exec(ops).value.handles
    requires StarterHeld(Exec(ops).value) && !HoldsStarter(Exec(ops).value, h)
    ensures HeldThrough(ops, more, h) && !StarterHeld(Exec(ops + more).value)
    decreases |Exec(ops).value.handles|
  {
    var g := AHolder(Exec(ops).value, h);
    DestroyOne(ops, g, h);
    if StarterHeld(Exec(ops + [Destroy(g)]).value) {
      var rest := DestroyHolders(ops + [Destroy(g)], h);
      HeldLonger(ops, Destroy(g), rest, h);
      more := [Destroy(g)] + rest;
    } else {
      more := [Destroy(g)];
    }
  }

  lemma AHolder(s: State, h: Handle) returns (g: Handle)
    requires StarterHeld(s) && h in s.handles && !HoldsStarter(s, h)
    ensures g in s.handles && g != h
  {
    g :| g in s.handles && s.handles[g] == Some(Starters(s)[0]);
  }

  lemma FewerHandles(handles: map<Handle, Option<Ptr>>, g: Handle)
    requires g in handles
    ensures |handles - {g}| < |handles|
  {
    assert (handles - {g}).Keys == handles.Keys - {g};
    assert |(handles - {g}).Keys| == |handles.Keys| - 1;
  }

  lemma OneStepHeld(ops: seq<Op>, op: Op, h: Handle)
    requires Exec(ops).Some? && h in Exec(ops).value.handles && Exec(ops + [op]).Some?
    requires var s := Exec(ops + [op]).value; h in s.handles && s.handles[h] == Exec(ops).value.handles[h]
    ensures HeldThrough(ops, [op], h)
  {
    assert [op][..0] == [] && [op][..1] == [op] && ops + [] == ops;
  }

  lemma HeldLonger(ops: seq<Op>, op: Op, rest: seq<Op>, h: Handle)
    requires HeldThrough(ops, [op], h) && HeldThrough(ops + [op], rest, h)
    ensures HeldThrough(ops, [op] + rest, h)
    ensures Exec(ops + ([op] + rest)) == Exec(ops + [op] + rest)
  {
    var more := [op] + rest;
    assert [op][..1] == [op];
    assert ops + more == ops + [op] + rest;
    forall k | 0 <= k <= |more|
      ensures var now := Exec(ops + more[..k]);
              && now.Some? && h in now.value.handles
              && now.value.handles[h] == Exec(ops).value.handles[h]
    {
      if k == 0 {
        assert ops + more[..0] == ops;
      } else {
        assert ops + more[..k] == ops + [op] + rest[..k - 1];
      }
    }
  }

  /**
   * Holding on to a view keeps the library from finalizing MPI, whatever the program does meanwhile,
   * iff the view is of the state that started MPI or that state is gone (or there never was one).
   */
  lemma HoldingKeepsMpiIff(ops: seq<Op>, h: Handle)
    requires Exec(ops).Some? && h in Exec(ops).value.handles
    ensures KeepsMpi(ops, h) <==> HoldsStarter(Exec(ops).value, h) || !StarterHeld(Exec(ops).value)
  {
    var s := Exec(ops).value;
    ViewsNeedMpi(ops);
    if HoldsStarter(s, h) || !StarterHeld(s) {
      forall more | HeldThrough(ops, more, h)
        ensures Finalizers(Exec(ops + more).value) == Finalizers(s)
      {
        HeldAtEnd(ops, more, h);
        StarterStays(ops, more);
        SameLifeSameFinalizers(ops, more);
      }
    } else {
      var more := DestroyHolders(ops, h);
      HeldAtEnd(ops, more, h);
      StarterStays(ops, more);
      FinalizedIffStarterUnreferenced(ops);
      FinalizedIffStarterUnreferenced(ops + more);
    }
  }

  /** A program that holds on to its own view and still sees MPI finalized. */
  lemma HoldingOnInVain()
    ensures var ops := [Construct(0, true), Construct(1, true), StackCallback(1, 7)];
            && HeldThrough(ops, [Destroy(0)], 1)
            && !Exec(ops).value.finalized && Exec(ops + [Destroy(0)]).value.finalized
  {
    TwoViews();
    Survivor();
    var ops := [Construct(0, true), Construct(1, true), StackCallback(1, 7)];
    assert ops + [Destroy(0)] == SURVIVOR_RUN;
    OneStepHeld(ops, Destroy(0), 1);
  }
}
