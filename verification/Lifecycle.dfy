/**
 * Who starts and who finalizes MPI: runs of a program that builds, copies, moves, assigns, swaps
 * and destroys `RuntimeView`s, with the trace of what the library does to MPI and calls back.
 */
module Lifecycle {
  import opened Outcomes

  /** The variable a `RuntimeView` lives in, and the address of its shared state. */
  type Handle = nat
  type Ptr = nat

  /** `mpi_finalize_wrapper`, or a function the user stacked. */
  datatype Callback = MpiFinalize | User(id: nat)

  datatype Event =
    | Initialize                       // the library calls MPI_Init
    | Query                            // the library asks a communicator for rank and size
    | Transfer                         // the library calls collectives
    | Compared                         // the library compares two communicators
    | Built(p: Ptr, starter: bool)     // a RuntimeViewPIMPL is constructed
    | Pushed(p: Ptr, cb: Callback)     // a callback is stacked on it
    | Ran(p: Ptr, cb: Callback)        // its destructor calls a callback
    | ForeignInit                      // the program itself calls MPI_Init
    | ForeignFinalize                  // the program itself calls MPI_Finalize

  /** A `RuntimeViewPIMPL`: did it start MPI, has it a communicator, and its stack, bottom first. */
  datatype Pimpl = Pimpl(started: bool, comm: bool, callbacks: seq<Callback>)

  datatype State = State(
    initialized: bool,                 // what MPI_Initialized reports, also after MPI_Finalize
    finalized: bool,
    handles: map<Handle, Option<Ptr>>,
    pimpls: map<Ptr, Pimpl>,
    next: Ptr,
    trace: seq<Event>)

  const START: State := State(false, false, map[], map[], 0, [])

  datatype Op =
    | Construct(h: Handle, comm: bool) // `comm`: the communicator is not MPI_COMM_NULL
    | Copy(dst: Handle, src: Handle)
    | Move(dst: Handle, src: Handle)
    | CopyAssign(dst: Handle, src: Handle)
    | MoveAssign(dst: Handle, src: Handle)
    | Swap(dst: Handle, src: Handle)
    | StackCallback(h: Handle, id: nat)
    | Destroy(h: Handle)
    | Collect(h: Handle, reduces: bool) // `h.gather(x)` and `h.gatherv(x)`, or `h.reduce(x, f)`
    | CollectRam(h: Handle)            // the same through the RAM of a resource set of `h`
    | Compare(g: Handle, h: Handle)    // `g == h`, or the resource sets of one rank compared
    | InitMpi
    | FinalizeMpi

  /** The variables an operation names exist, or do not, as C++ has it; MPI is started and ended once. */
  predicate Legal(s: State, op: Op) {
    match op
    case Construct(h, _) => h !in s.handles
    case Copy(dst, src) => dst !in s.handles && src in s.handles
    case Move(dst, src) => dst !in s.handles && src in s.handles
    case CopyAssign(dst, src) => dst in s.handles && src in s.handles
    case MoveAssign(dst, src) => dst in s.handles && src in s.handles
    case Swap(dst, src) => dst in s.handles && src in s.handles
    case StackCallback(h, _) => h in s.handles
    case Destroy(h) => h in s.handles
    case Collect(h, _) => h in s.handles
    case CollectRam(h) => h in s.handles
    case Compare(g, h) => g in s.handles && h in s.handles
    case InitMpi => !s.initialized
    case FinalizeMpi => s.initialized && !s.finalized
  }

  predicate Referenced(handles: map<Handle, Option<Ptr>>, p: Ptr) {
    exists h :: h in handles && handles[h] == Some(p)
  }

  /** The events of `while(!empty()) { top()(); pop(); }`. */
  function Teardown(p: Ptr, callbacks: seq<Callback>): seq<Event> {
    if callbacks == [] then []
    else [Ran(p, callbacks[|callbacks| - 1])] + Teardown(p, callbacks[..|callbacks| - 1])
  }

  /** A handle has let go of `was`: the state nobody refers to any more is torn down. */
  function Drop(s: State, was: Option<Ptr>): State {
    if was.Some? && was.value in s.pimpls && !Referenced(s.handles, was.value) then
      var callbacks := s.pimpls[was.value].callbacks;
      s.(pimpls := s.pimpls - {was.value},
         finalized := s.finalized || MpiFinalize in callbacks,
         trace := s.trace + Teardown(was.value, callbacks))
    else s
  }

  /** The events of `start_mpi` and the constructor of the shared state. */
  function BuildEvents(p: Ptr, starter: bool, comm: bool): seq<Event> {
    (if starter then [Initialize] else []) + (if comm then [Query] else []) +
    [Built(p, starter)] + (if starter then [Pushed(p, MpiFinalize)] else [])
  }

  /** The view in `h` is of a communicator: neither null itself nor of MPI_COMM_NULL. */
  predicate HasComm(s: State, h: Handle) {
    h in s.handles && s.handles[h].Some? && s.handles[h].value in s.pimpls && s.pimpls[s.handles[h].value].comm
  }

  /**
   * What an operation that leaves the handles alone does with MPI. The collectives of a view build a
   * `CommPP` of its communicator, which asks for rank and size. Without a communicator gather and
   * gatherv throw first, but nothing stands between reduce and MPI. A resource set keeps its
   * `CommPP`, and has no RAM without a communicator.
   */
  function Uses(s: State, op: Op): seq<Event> {
    match op
    case Collect(h, reduces) => if HasComm(s, h) then [Query, Transfer] else if reduces then [Transfer] else []
    case CollectRam(h) => if HasComm(s, h) then [Transfer] else []
    case Compare(g, h) => if HasComm(s, g) && HasComm(s, h) then [Compared] else []
    case _ => []
  }

  predicate Using(op: Op) {
    op.Collect? || op.CollectRam? || op.Compare?
  }

  function Step(s: State, op: Op): State
    requires Legal(s, op)
  {
    match op
    case Construct(h, comm) =>
      var starter := !s.initialized;
      State(true, s.finalized, s.handles[h := Some(s.next)],
            s.pimpls[s.next := Pimpl(starter, comm, if starter then [MpiFinalize] else [])],
            s.next + 1, s.trace + BuildEvents(s.next, starter, comm))
    case Copy(dst, src) => s.(handles := s.handles[dst := s.handles[src]])
    case Move(dst, src) => s.(handles := s.handles[dst := s.handles[src]][src := None])
    case CopyAssign(dst, src) =>
      Drop(s.(handles := s.handles[dst := s.handles[src]]), s.handles[dst])
    case MoveAssign(dst, src) =>
      if dst == src then s
      else Drop(s.(handles := s.handles[dst := s.handles[src]][src := None]), s.handles[dst])
    case Swap(dst, src) => s.(handles := s.handles[dst := s.handles[src]][src := s.handles[dst]])
    case StackCallback(h, id) =>
      var p := s.handles[h];
      if p.Some? && p.value in s.pimpls then
        var pimpl := s.pimpls[p.value];
        s.(pimpls := s.pimpls[p.value := pimpl.(callbacks := pimpl.callbacks + [User(id)])],
           trace := s.trace + [Pushed(p.value, User(id))])
      else s
    case Destroy(h) => Drop(s.(handles := s.handles - {h}), s.handles[h])
    case Collect(_, _) => s.(trace := s.trace + Uses(s, op))
    case CollectRam(_) => s.(trace := s.trace + Uses(s, op))
    case Compare(_, _) => s.(trace := s.trace + Uses(s, op))
    case InitMpi => s.(initialized := true, trace := s.trace + [ForeignInit])
    case FinalizeMpi => s.(finalized := true, trace := s.trace + [ForeignFinalize])
  }

  /** The state after a run; `None` when some operation was not legal at its turn. */
  function Exec(ops: seq<Op>): Option<State> {
    if ops == [] then Some(START)
    else
      var last := |ops| - 1;
      match Exec(ops[..last])
      case None => None
      case Some(s) => if Legal(s, ops[last]) then Some(Step(s, ops[last])) else None
  }

  // ---------------------------------------------------------------------------
  // Reading a trace
  // ---------------------------------------------------------------------------

  function Select<T>(trace: seq<Event>, f: Event -> seq<T>): seq<T> {
    if trace == [] then [] else Select(trace[..|trace| - 1], f) + f(trace[|trace| - 1])
  }

  function PushedOn(p: Ptr): Event -> seq<Callback> {
    (e: Event) => if e.Pushed? && e.p == p then [e.cb] else []
  }

  function RanOn(p: Ptr): Event -> seq<Callback> {
    (e: Event) => if e.Ran? && e.p == p then [e.cb] else []
  }

  function Starting(): Event -> seq<Ptr> {
    (e: Event) => if e.Built? && e.starter then [e.p] else []
  }

  function Finalizing(): Event -> seq<Ptr> {
    (e: Event) => if e.Ran? && e.cb == MpiFinalize then [e.p] else []
  }

  function Initializing(): Event -> seq<Event> {
    (e: Event) => if e == Initialize || e == ForeignInit then [e] else []
  }

  /** Callbacks in the order they were stacked, and in the order they ran. */
  function Pushes(s: State, p: Ptr): seq<Callback> { Select(s.trace, PushedOn(p)) }
  function Runs(s: State, p: Ptr): seq<Callback> { Select(s.trace, RanOn(p)) }
  /** The states that started MPI, those whose teardown finalized it, and every MPI_Init. */
  function Starters(s: State): seq<Ptr> { Select(s.trace, Starting()) }
  function Finalizers(s: State): seq<Ptr> { Select(s.trace, Finalizing()) }
  function Inits(s: State): seq<Event> { Select(s.trace, Initializing()) }

  function Reverse<T>(xs: seq<T>): seq<T> {
    if xs == [] then [] else [xs[|xs| - 1]] + Reverse(xs[..|xs| - 1])
  }

  lemma {:induction false} SelectAppend<T>(a: seq<Event>, b: seq<Event>, f: Event -> seq<T>)
    ensures Select(a + b, f) == Select(a, f) + Select(b, f)
  {
    if b == [] {
      assert a + b == a;
    } else {
      SelectAppend(a, b[..|b| - 1], f);
      assert (a + b)[..|a + b| - 1] == a + b[..|b| - 1];
    }
  }

  lemma SelectOne<T>(a: seq<Event>, e: Event, f: Event -> seq<T>)
    ensures Select(a + [e], f) == Select(a, f) + f(e)
  {
    assert (a + [e])[..|a|] == a;
  }

  /** An event that `f` does not notice. */
  lemma SelectSilent<T>(a: seq<Event>, e: Event, f: Event -> seq<T>)
    requires f(e) == []
    ensures Select(a + [e], f) == Select(a, f)
  {
    SelectOne(a, e, f);
    assert Select(a, f) + [] == Select(a, f);
  }

  predicate AllUser(cbs: seq<Callback>) {
    forall i :: 0 <= i < |cbs| ==> cbs[i].User?
  }

  /** A stack as the library leaves it: finalize at the bottom of the starter's, and nowhere else. */
  predicate Stacked(cbs: seq<Callback>, starter: bool) {
    if starter then cbs != [] && cbs[0] == MpiFinalize && AllUser(cbs[1..]) else AllUser(cbs)
  }

  lemma SelectCons<T>(e: Event, b: seq<Event>, f: Event -> seq<T>)
    ensures Select([e] + b, f) == f(e) + Select(b, f)
  {
    SelectAppend([e], b, f);
    assert [e][..0] == [] && [] + f(e) == f(e);
  }

  lemma {:induction false} TeardownRuns(p: Ptr, cbs: seq<Callback>, q: Ptr)
    ensures Select(Teardown(p, cbs), RanOn(q)) == if p == q then Reverse(cbs) else []
  {
    if cbs != [] {
      TeardownRuns(p, cbs[..|cbs| - 1], q);
      SelectCons(Ran(p, cbs[|cbs| - 1]), Teardown(p, cbs[..|cbs| - 1]), RanOn(q));
    }
  }

  /** Tearing down stacks nothing, starts nothing and initializes nothing. */
  lemma {:induction false} TeardownSilent<T>(p: Ptr, cbs: seq<Callback>, f: Event -> seq<T>)
    requires forall cb :: f(Ran(p, cb)) == []
    ensures Select(Teardown(p, cbs), f) == []
  {
    if cbs != [] {
      TeardownSilent(p, cbs[..|cbs| - 1], f);
      SelectCons(Ran(p, cbs[|cbs| - 1]), Teardown(p, cbs[..|cbs| - 1]), f);
    }
  }

  lemma {:induction false} TeardownFinalizes(p: Ptr, cbs: seq<Callback>, starter: bool)
    requires Stacked(cbs, starter)
    ensures Select(Teardown(p, cbs), Finalizing()) == if starter then [p] else []
    ensures MpiFinalize in cbs <==> starter
    ensures ForeignFinalize !in Teardown(p, cbs)
    decreases |cbs|
  {
    if cbs != [] {
      var rest := cbs[..|cbs| - 1];
      SelectCons(Ran(p, cbs[|cbs| - 1]), Teardown(p, rest), Finalizing());
      if starter && |cbs| == 1 {
        assert rest == [];
      } else {
        assert starter ==> rest[1..] == cbs[1..][..|cbs| - 2];
        TeardownFinalizes(p, rest, starter);
      }
    }
  }

  // ---------------------------------------------------------------------------
  // What every run keeps
  // ---------------------------------------------------------------------------

  /** Handles and shared states refer to each other, and the stacks are what was pushed. */
  predicate Linked(s: State) {
    && (forall h :: h in s.handles && s.handles[h].Some? ==> s.handles[h].value in s.pimpls)
    && (forall p :: p in s.pimpls ==> p < s.next && Referenced(s.handles, p))
  }

  /** Of a state `p` on which `pushes` were stacked and `runs` called, and which may have started MPI. */
  predicate StackFacts(s: State, p: Ptr, pushes: seq<Callback>, runs: seq<Callback>, starter: bool) {
    && Stacked(pushes, starter)
    && (p in s.pimpls ==> s.pimpls[p].started == starter && s.pimpls[p].callbacks == pushes && runs == [])
    && (p < s.next && p !in s.pimpls ==> runs == Reverse(pushes))
    && (s.next <= p ==> pushes == [] && runs == [] && !starter)
  }

  predicate StackInv(s: State, p: Ptr) {
    StackFacts(s, p, Pushes(s, p), Runs(s, p), p in Starters(s))
  }

  /** Of a trace with these MPI_Inits, starters and finalizers, and perhaps a foreign MPI_Finalize. */
  predicate MpiFacts(s: State, inits: seq<Event>, starters: seq<Ptr>, finalizers: seq<Ptr>, foreign: bool) {
    && inits == (if !s.initialized then [] else if starters == [] then [ForeignInit] else [Initialize])
    && |starters| <= 1
    && (!s.initialized ==> s.next == 0 && !s.finalized && starters == [])
    && finalizers == (if starters == [] || starters[0] in s.pimpls then [] else starters)
    && s.finalized == (foreign || finalizers != [])
  }

  predicate MpiInv(s: State) {
    MpiFacts(s, Inits(s), Starters(s), Finalizers(s), ForeignFinalize in s.trace)
  }

  ghost predicate Inv(s: State) {
    Linked(s) && MpiInv(s) && forall p :: StackInv(s, p)
  }

  predicate Dropped(s: State, q: Ptr, s': State) {
    && q in s.pimpls && !Referenced(s.handles, q)
    && s' == Drop(s, Some(q))
  }

  lemma DropReadings(s: State, q: Ptr, s': State, p: Ptr)
    requires Dropped(s, q, s')
    ensures Pushes(s', p) == Pushes(s, p)
    ensures Runs(s', p) == Runs(s, p) + (if p == q then Reverse(s.pimpls[q].callbacks) else [])
    ensures Starters(s') == Starters(s) && Inits(s') == Inits(s)
  {
    var cbs := s.pimpls[q].callbacks;
    SelectAppend(s.trace, Teardown(q, cbs), PushedOn(p));
    SelectAppend(s.trace, Teardown(q, cbs), RanOn(p));
    SelectAppend(s.trace, Teardown(q, cbs), Starting());
    SelectAppend(s.trace, Teardown(q, cbs), Initializing());
    TeardownRuns(q, cbs, p);
    TeardownSilent(q, cbs, PushedOn(p));
    TeardownSilent(q, cbs, Starting());
    TeardownSilent(q, cbs, Initializing());
  }

  lemma DropStackFacts(s: State, q: Ptr, s': State, p: Ptr, pushes: seq<Callback>, runs: seq<Callback>, starter: bool)
    requires StackFacts(s, p, pushes, runs, starter) && q in s.pimpls && q < s.next
    requires s'.pimpls == s.pimpls - {q} && s'.next == s.next
    ensures StackFacts(s', p, pushes, if p == q then Reverse(pushes) else runs, starter)
  {
  }

  lemma DropStack(s: State, q: Ptr, s': State, p: Ptr)
    requires Dropped(s, q, s') && StackInv(s, p) && q < s.next
    ensures StackInv(s', p)
  {
    DropReadings(s, q, s', p);
    DropStackFacts(s, q, s', p, Pushes(s, p), Runs(s, p), p in Starters(s));
    if p == q {
      assert [] + Reverse(Pushes(s, p)) == Reverse(Pushes(s, p));
    } else {
      assert Runs(s, p) + [] == Runs(s, p);
    }
  }

  lemma DropFinalizers(s: State, q: Ptr, s': State)
    requires Dropped(s, q, s') && Stacked(s.pimpls[q].callbacks, q in Starters(s))
    ensures Finalizers(s') == Finalizers(s) + (if q in Starters(s) then [q] else [])
    ensures s'.finalized == (s.finalized || q in Starters(s))
    ensures ForeignFinalize in s'.trace <==> ForeignFinalize in s.trace
  {
    var cbs := s.pimpls[q].callbacks;
    SelectAppend(s.trace, Teardown(q, cbs), Finalizing());
    TeardownFinalizes(q, cbs, q in Starters(s));
  }

  lemma DropFacts(s: State, q: Ptr, s': State,
                  inits: seq<Event>, starters: seq<Ptr>, finalizers: seq<Ptr>, foreign: bool)
    requires q in s.pimpls && MpiFacts(s, inits, starters, finalizers, foreign)
    requires s'.pimpls == s.pimpls - {q} && s'.initialized == s.initialized && s'.next == s.next
    requires s'.finalized == (s.finalized || q in starters)
    ensures MpiFacts(s', inits, starters, finalizers + (if q in starters then [q] else []), foreign)
  {
    if q in starters {
      assert starters == [q];
    }
  }

  lemma DropMpi(s: State, q: Ptr, s': State)
    requires Dropped(s, q, s') && StackInv(s, q) && MpiInv(s)
    ensures MpiInv(s')
  {
    DropReadings(s, q, s', q);
    DropFinalizers(s, q, s');
    DropFacts(s, q, s', Inits(s), Starters(s), Finalizers(s), ForeignFinalize in s.trace);
  }

  /** Letting go of the last handle keeps everything. */
  lemma DropKeeps(s: State, was: Option<Ptr>)
    requires MpiInv(s) && forall p :: StackInv(s, p)
    requires forall h :: h in s.handles && s.handles[h].Some? ==> s.handles[h].value in s.pimpls
    requires forall p :: p in s.pimpls ==> p < s.next && (Referenced(s.handles, p) || was == Some(p))
    ensures Inv(Drop(s, was))
  {
    var s' := Drop(s, was);
    if was.Some? && was.value in s.pimpls && !Referenced(s.handles, was.value) {
      var q := was.value;
      assert StackInv(s, q);
      DropMpi(s, q, s');
      forall p ensures StackInv(s', p) {
        DropStack(s, q, s', p);
      }
    }
  }

  // ---------------------------------------------------------------------------
  // Each operation, then every run
  // ---------------------------------------------------------------------------

  /** Rearranging handles does not touch the stacks, MPI or the trace. */
  lemma HandlesOnly(s: State, handles: map<Handle, Option<Ptr>>)
    requires Inv(s)
    ensures MpiInv(s.(handles := handles)) && forall p :: StackInv(s.(handles := handles), p)
  {
    var s' := s.(handles := handles);
    forall p ensures StackInv(s', p) {
      assert StackInv(s, p);
    }
  }

  lemma MaybeOne<T>(t: seq<Event>, b: bool, e: Event, f: Event -> seq<T>)
    ensures Select(if b then t + [e] else t, f) == Select(t, f) + (if b then f(e) else [])
  {
    SelectOne(t, e, f);
  }

  /** What `f` reads off a construction. */
  function BuildRead<T>(p: Ptr, starter: bool, comm: bool, f: Event -> seq<T>): seq<T> {
    (if starter then f(Initialize) else []) + (if comm then f(Query) else []) +
    f(Built(p, starter)) + (if starter then f(Pushed(p, MpiFinalize)) else [])
  }

  lemma BuildSelect<T>(p: Ptr, starter: bool, comm: bool, f: Event -> seq<T>)
    ensures Select(BuildEvents(p, starter, comm), f) == BuildRead(p, starter, comm, f)
  {
    var t1: seq<Event> := if starter then [] + [Initialize] else [];
    var t2 := if comm then t1 + [Query] else t1;
    var t3 := t2 + [Built(p, starter)];
    var t4 := if starter then t3 + [Pushed(p, MpiFinalize)] else t3;
    assert t4 == BuildEvents(p, starter, comm);
    MaybeOne([], starter, Initialize, f);
    MaybeOne(t1, comm, Query, f);
    SelectOne(t2, Built(p, starter), f);
    MaybeOne(t3, starter, Pushed(p, MpiFinalize), f);
  }

  /** A construction is read after everything before it. */
  lemma BuildReads<T>(s: State, s': State, starter: bool, comm: bool, f: Event -> seq<T>)
    requires s'.trace == s.trace + BuildEvents(s.next, starter, comm)
    ensures Select(s'.trace, f) == Select(s.trace, f) + BuildRead(s.next, starter, comm, f)
  {
    SelectAppend(s.trace, BuildEvents(s.next, starter, comm), f);
    BuildSelect(s.next, starter, comm, f);
  }

  lemma PushesOfBuild(q: Ptr, starter: bool, comm: bool, p: Ptr)
    ensures BuildRead(q, starter, comm, PushedOn(p)) == if starter && p == q then [MpiFinalize] else []
  {
    var f := PushedOn(p);
    assert f(Initialize) == [] && f(Query) == [] && f(Built(q, starter)) == [];
    assert f(Pushed(q, MpiFinalize)) == if p == q then [MpiFinalize] else [];
  }

  lemma BuildPushes(s: State, s': State, starter: bool, comm: bool, p: Ptr)
    requires s'.trace == s.trace + BuildEvents(s.next, starter, comm)
    ensures Pushes(s', p) == Pushes(s, p) + (if starter && p == s.next then [MpiFinalize] else [])
  {
    BuildReads(s, s', starter, comm, PushedOn(p));
    PushesOfBuild(s.next, starter, comm, p);
  }

  lemma RunsOfBuild(q: Ptr, starter: bool, comm: bool, p: Ptr)
    ensures BuildRead(q, starter, comm, RanOn(p)) == []
  {
    var f := RanOn(p);
    assert f(Initialize) == [] && f(Query) == [] && f(Built(q, starter)) == [];
    assert f(Pushed(q, MpiFinalize)) == [];
  }

  lemma BuildRuns(s: State, s': State, starter: bool, comm: bool, p: Ptr)
    requires s'.trace == s.trace + BuildEvents(s.next, starter, comm)
    ensures Runs(s', p) == Runs(s, p) + []
  {
    BuildReads(s, s', starter, comm, RanOn(p));
    RunsOfBuild(s.next, starter, comm, p);
  }

  lemma StartersOfBuild(p: Ptr, starter: bool, comm: bool)
    ensures BuildRead(p, starter, comm, Starting()) == if starter then [p] else []
  {
    var f := Starting();
    assert f(Initialize) == [] && f(Query) == [] && f(Built(p, starter)) == if starter then [p] else [];
    assert f(Pushed(p, MpiFinalize)) == [];
  }

  lemma BuildStarters(s: State, s': State, starter: bool, comm: bool)
    requires s'.trace == s.trace + BuildEvents(s.next, starter, comm)
    ensures Starters(s') == Starters(s) + (if starter then [s.next] else [])
  {
    BuildReads(s, s', starter, comm, Starting());
    StartersOfBuild(s.next, starter, comm);
  }

  lemma InitsOfBuild(p: Ptr, starter: bool, comm: bool)
    ensures BuildRead(p, starter, comm, Initializing()) == if starter then [Initialize] else []
  {
    var f := Initializing();
    assert f(Initialize) == [Initialize] && f(Query) == [] && f(Built(p, starter)) == [];
    assert f(Pushed(p, MpiFinalize)) == [];
  }

  lemma BuildInits(s: State, s': State, starter: bool, comm: bool)
    requires s'.trace == s.trace + BuildEvents(s.next, starter, comm)
    ensures Inits(s') == Inits(s) + (if starter then [Initialize] else [])
  {
    BuildReads(s, s', starter, comm, Initializing());
    InitsOfBuild(s.next, starter, comm);
  }

  lemma FinalsOfBuild(p: Ptr, starter: bool, comm: bool)
    ensures BuildRead(p, starter, comm, Finalizing()) == []
  {
    var f := Finalizing();
    assert f(Initialize) == [] && f(Query) == [] && f(Built(p, starter)) == [];
    assert f(Pushed(p, MpiFinalize)) == [];
  }

  lemma BuildFinals(s: State, s': State, starter: bool, comm: bool)
    requires s'.trace == s.trace + BuildEvents(s.next, starter, comm)
    ensures Finalizers(s') == Finalizers(s) + []
  {
    BuildReads(s, s', starter, comm, Finalizing());
    FinalsOfBuild(s.next, starter, comm);
  }

  lemma BuildStacks(s: State, s': State, starter: bool, comm: bool, p: Ptr)
    requires s'.trace == s.trace + BuildEvents(s.next, starter, comm)
    ensures Pushes(s', p) == if starter && p == s.next then Pushes(s, p) + [MpiFinalize] else Pushes(s, p)
    ensures Runs(s', p) == Runs(s, p)
  {
    BuildPushes(s, s', starter, comm, p);
    BuildRuns(s, s', starter, comm, p);
  }

  lemma BuildStarts(s: State, s': State, starter: bool, comm: bool)
    requires s'.trace == s.trace + BuildEvents(s.next, starter, comm)
    ensures Starters(s') == if starter then Starters(s) + [s.next] else Starters(s)
    ensures Inits(s') == if starter then Inits(s) + [Initialize] else Inits(s)
  {
    BuildStarters(s, s', starter, comm);
    BuildInits(s, s', starter, comm);
  }

  lemma BuildFinalizers(s: State, s': State, starter: bool, comm: bool)
    requires s'.trace == s.trace + BuildEvents(s.next, starter, comm)
    ensures Finalizers(s') == Finalizers(s)
  {
    BuildFinals(s, s', starter, comm);
  }

  lemma BuildIsNotForeign(t: seq<Event>, p: Ptr, starter: bool, comm: bool)
    ensures ForeignFinalize in t + BuildEvents(p, starter, comm) <==> ForeignFinalize in t
  {
    assert ForeignFinalize !in BuildEvents(p, starter, comm);
  }

  lemma BuildFacts(s: State, s': State, inits: seq<Event>, starters: seq<Ptr>, finalizers: seq<Ptr>, foreign: bool)
    requires MpiFacts(s, inits, starters, finalizers, foreign)
    requires forall p :: p in starters ==> p < s.next
    requires s'.initialized && s'.finalized == s.finalized && s.next < s'.next
    requires s'.pimpls.Keys == s.pimpls.Keys + {s.next}
    ensures MpiFacts(s', if s.initialized then inits else inits + [Initialize],
                     if s.initialized then starters else starters + [s.next], finalizers, foreign)
  {
    if !s.initialized {
      assert inits + [Initialize] == [Initialize] && starters + [s.next] == [s.next];
    } else if starters != [] {
      assert starters[0] in starters;
    }
  }

  lemma ConstructStack(s: State, s': State, starter: bool, comm: bool, p: Ptr,
                       pushes: seq<Callback>, runs: seq<Callback>, was: bool)
    requires StackFacts(s, p, pushes, runs, was) && Linked(s)
    requires s'.next == s.next + 1
    requires s'.pimpls == s.pimpls[s.next := Pimpl(starter, comm, if starter then [MpiFinalize] else [])]
    ensures StackFacts(s', p, if starter && p == s.next then pushes + [MpiFinalize] else pushes, runs,
                       was || (starter && p == s.next))
  {
  }

  lemma ConstructStackInv(s: State, h: Handle, comm: bool, p: Ptr)
    requires StackInv(s, p) && Linked(s) && Legal(s, Construct(h, comm))
    ensures StackInv(Step(s, Construct(h, comm)), p)
  {
    var s' := Step(s, Construct(h, comm));
    var starter := !s.initialized;
    BuildStarts(s, s', starter, comm);
    BuildStacks(s, s', starter, comm, p);
    ConstructStack(s, s', starter, comm, p, Pushes(s, p), Runs(s, p), p in Starters(s));
  }

  lemma StartersBelow(s: State)
    requires forall p :: StackInv(s, p)
    ensures forall p :: p in Starters(s) ==> p < s.next
  {
    forall p | p in Starters(s) ensures p < s.next {
      assert StackInv(s, p);
    }
  }

  lemma ConstructMpi(s: State, h: Handle, comm: bool)
    requires MpiInv(s) && Legal(s, Construct(h, comm)) && forall p :: p in Starters(s) ==> p < s.next
    ensures MpiInv(Step(s, Construct(h, comm)))
  {
    var s' := Step(s, Construct(h, comm));
    var starter := !s.initialized;
    BuildStarts(s, s', starter, comm);
    BuildFinalizers(s, s', starter, comm);
    BuildIsNotForeign(s.trace, s.next, starter, comm);
    BuildFacts(s, s', Inits(s), Starters(s), Finalizers(s), ForeignFinalize in s.trace);
  }

  lemma ConstructKeeps(s: State, h: Handle, comm: bool)
    requires Inv(s) && Legal(s, Construct(h, comm))
    ensures Inv(Step(s, Construct(h, comm)))
  {
    StartersBelow(s);
    ConstructMpi(s, h, comm);
    ConstructLinked(s, h, comm);
    forall p ensures StackInv(Step(s, Construct(h, comm)), p) {
      assert StackInv(s, p);
      ConstructStackInv(s, h, comm, p);
    }
  }

  lemma ConstructLinked(s: State, h: Handle, comm: bool)
    requires Linked(s) && Legal(s, Construct(h, comm))
    ensures Linked(Step(s, Construct(h, comm)))
  {
    var s' := Step(s, Construct(h, comm));
    assert s'.handles[h] == Some(s.next);
    forall p | p in s'.pimpls ensures Referenced(s'.handles, p) {
      if p != s.next {
        var h' :| h' in s.handles && s.handles[h'] == Some(p);
        assert s'.handles[h'] == Some(p);
      }
    }
  }

  lemma PushReadings(s: State, s': State, q: Ptr, id: nat, p: Ptr)
    requires s'.trace == s.trace + [Pushed(q, User(id))]
    ensures Pushes(s', p) == if p == q then Pushes(s, p) + [User(id)] else Pushes(s, p)
    ensures Runs(s', p) == Runs(s, p)
    ensures Starters(s') == Starters(s) && Inits(s') == Inits(s) && Finalizers(s') == Finalizers(s)
  {
    var e := Pushed(q, User(id));
    SelectSilent(s.trace, e, Starting());
    SelectSilent(s.trace, e, Initializing());
    SelectSilent(s.trace, e, Finalizing());
    SelectSilent(s.trace, e, RanOn(p));
    if p == q {
      SelectOne(s.trace, e, PushedOn(p));
    } else {
      SelectSilent(s.trace, e, PushedOn(p));
    }
  }

  lemma PushStack(s: State, s': State, q: Ptr, id: nat, p: Ptr, pushes: seq<Callback>, runs: seq<Callback>, was: bool)
    requires StackFacts(s, p, pushes, runs, was) && Linked(s) && q in s.pimpls && s'.next == s.next
    requires s'.pimpls == s.pimpls[q := s.pimpls[q].(callbacks := s.pimpls[q].callbacks + [User(id)])]
    ensures StackFacts(s', p, if p == q then pushes + [User(id)] else pushes, runs, was)
  {
    if was && p == q {
      assert (pushes + [User(id)])[1..] == pushes[1..] + [User(id)];
    }
  }

  lemma PushStackInv(s: State, h: Handle, id: nat, p: Ptr)
    requires StackInv(s, p) && Linked(s) && Legal(s, StackCallback(h, id)) && s.handles[h].Some?
    ensures StackInv(Step(s, StackCallback(h, id)), p)
  {
    var s' := Step(s, StackCallback(h, id));
    var q := s.handles[h].value;
    PushReadings(s, s', q, id, p);
    PushStack(s, s', q, id, p, Pushes(s, p), Runs(s, p), p in Starters(s));
  }

  lemma PushMpi(s: State, h: Handle, id: nat)
    requires MpiInv(s) && Linked(s) && Legal(s, StackCallback(h, id)) && s.handles[h].Some?
    ensures MpiInv(Step(s, StackCallback(h, id)))
  {
    var e := Pushed(s.handles[h].value, User(id));
    var s' := Step(s, StackCallback(h, id));
    PushReadings(s, s', s.handles[h].value, id, 0);
    assert ForeignFinalize in s.trace + [e] <==> ForeignFinalize in s.trace;
  }

  lemma PushLinked(s: State, h: Handle, id: nat)
    requires Linked(s) && Legal(s, StackCallback(h, id))
    ensures Linked(Step(s, StackCallback(h, id)))
  {
  }

  lemma StackCallbackKeeps(s: State, h: Handle, id: nat)
    requires Inv(s) && Legal(s, StackCallback(h, id))
    ensures Inv(Step(s, StackCallback(h, id)))
  {
    if s.handles[h].Some? {
      PushMpi(s, h, id);
      PushLinked(s, h, id);
      forall p ensures StackInv(Step(s, StackCallback(h, id)), p) {
        assert StackInv(s, p);
        PushStackInv(s, h, id, p);
      }
    }
  }

  lemma ForeignReadings(s: State, s': State, e: Event, p: Ptr)
    requires e == ForeignInit || e == ForeignFinalize
    requires s'.trace == s.trace + [e]
    ensures Pushes(s', p) == Pushes(s, p) && Runs(s', p) == Runs(s, p)
    ensures Starters(s') == Starters(s) && Finalizers(s') == Finalizers(s)
    ensures Inits(s') == if e == ForeignInit then Inits(s) + [ForeignInit] else Inits(s)
  {
    SelectSilent(s.trace, e, Starting());
    SelectSilent(s.trace, e, Finalizing());
    SelectSilent(s.trace, e, PushedOn(p));
    SelectSilent(s.trace, e, RanOn(p));
    SelectOne(s.trace, e, Initializing());
    assert Inits(s) + [] == Inits(s);
  }

  lemma ForeignFacts(s: State, s': State, e: Event,
                     inits: seq<Event>, starters: seq<Ptr>, finalizers: seq<Ptr>, foreign: bool)
    requires MpiFacts(s, inits, starters, finalizers, foreign)
    requires s'.pimpls == s.pimpls && s'.next == s.next && s'.initialized
    requires e == ForeignInit ==> !s.initialized && s'.finalized == s.finalized
    requires e == ForeignFinalize ==> s.initialized && s'.finalized
    requires e == ForeignInit || e == ForeignFinalize
    ensures MpiFacts(s', if e == ForeignInit then inits + [ForeignInit] else inits, starters, finalizers,
                     foreign || e == ForeignFinalize)
  {
  }

  lemma ForeignKeeps(s: State, s': State, e: Event)
    requires Inv(s) && (e == ForeignInit || e == ForeignFinalize)
    requires e == ForeignInit ==> !s.initialized && s' == s.(initialized := true, trace := s.trace + [e])
    requires e == ForeignFinalize ==> s.initialized && s' == s.(finalized := true, trace := s.trace + [e])
    ensures Inv(s')
  {
    ForeignReadings(s, s', e, 0);
    ForeignFacts(s, s', e, Inits(s), Starters(s), Finalizers(s), ForeignFinalize in s.trace);
    forall p ensures StackInv(s', p) {
      assert StackInv(s, p);
      ForeignReadings(s, s', e, p);
    }
  }

  /** The handles an operation leaves, before anything is torn down, and the state it lets go of. */
  function Rehandled(s: State, op: Op): map<Handle, Option<Ptr>>
    requires Legal(s, op)
  {
    match op
    case Copy(dst, src) => s.handles[dst := s.handles[src]]
    case Move(dst, src) => s.handles[dst := s.handles[src]][src := None]
    case CopyAssign(dst, src) => s.handles[dst := s.handles[src]]
    case MoveAssign(dst, src) => if dst == src then s.handles else s.handles[dst := s.handles[src]][src := None]
    case Swap(dst, src) => s.handles[dst := s.handles[src]][src := s.handles[dst]]
    case Destroy(h) => s.handles - {h}
    case _ => s.handles
  }

  function LetGo(s: State, op: Op): Option<Ptr>
    requires Legal(s, op)
  {
    match op
    case CopyAssign(dst, _) => s.handles[dst]
    case MoveAssign(dst, src) => if dst == src then None else s.handles[dst]
    case Destroy(h) => s.handles[h]
    case _ => None
  }

  predicate Handling(op: Op) {
    !op.Construct? && !op.StackCallback? && !Using(op) && !op.InitMpi? && !op.FinalizeMpi?
  }

  lemma HandlingKeeps(s: State, op: Op)
    requires Inv(s) && Legal(s, op) && Handling(op)
    ensures Step(s, op) == Drop(s.(handles := Rehandled(s, op)), LetGo(s, op))
    ensures Inv(Step(s, op))
  {
    var handles := Rehandled(s, op);
    var t := s.(handles := handles);
    HandlesOnly(s, handles);
    forall p | p in t.pimpls
      ensures p < t.next && (Referenced(handles, p) || LetGo(s, op) == Some(p))
    {
      StillReferenced(s, op, p);
    }
    DropKeeps(t, LetGo(s, op));
  }

  lemma StillReferenced(s: State, op: Op, p: Ptr)
    requires Linked(s) && Legal(s, op) && Handling(op) && p in s.pimpls
    ensures Referenced(Rehandled(s, op), p) || LetGo(s, op) == Some(p)
  {
    var handles := Rehandled(s, op);
    var h :| h in s.handles && s.handles[h] == Some(p);
    match op
    case Copy(dst, src) => assert handles[h] == Some(p);
    case Move(dst, src) => assert handles[if h == src then dst else h] == Some(p);
    case CopyAssign(dst, src) => assert h != dst ==> handles[h] == Some(p);
    case MoveAssign(dst, src) =>
      if dst == src {
        assert handles[h] == Some(p);
      } else if h != dst {
        assert handles[if h == src then dst else h] == Some(p);
      }
    case Swap(dst, src) => assert handles[if h == src then dst else if h == dst then src else h] == Some(p);
    case Destroy(g) => assert h != g ==> h in handles && handles[h] == Some(p);
  }

  lemma {:induction false} SelectQuiet<T>(u: seq<Event>, f: Event -> seq<T>)
    requires forall i :: 0 <= i < |u| ==> f(u[i]) == []
    ensures Select(u, f) == []
  {
    if u != [] {
      SelectQuiet(u[..|u| - 1], f);
    }
  }

  lemma QuietUse<T>(s: State, op: Op, f: Event -> seq<T>)
    requires f(Query) == [] && f(Transfer) == [] && f(Compared) == []
    ensures Select(s.trace + Uses(s, op), f) == Select(s.trace, f)
  {
    SelectQuiet(Uses(s, op), f);
    SelectAppend(s.trace, Uses(s, op), f);
    assert Select(s.trace, f) + [] == Select(s.trace, f);
  }

  /** Using MPI shows in none of the readings of the trace. */
  lemma UseReadings(s: State, op: Op, s': State, p: Ptr)
    requires s'.trace == s.trace + Uses(s, op)
    ensures Pushes(s', p) == Pushes(s, p) && Runs(s', p) == Runs(s, p)
    ensures Starters(s') == Starters(s) && Finalizers(s') == Finalizers(s) && Inits(s') == Inits(s)
  {
    QuietUse(s, op, PushedOn(p));
    QuietUse(s, op, RanOn(p));
    QuietUse(s, op, Starting());
    QuietUse(s, op, Finalizing());
    QuietUse(s, op, Initializing());
  }

  lemma UseIsNotForeign(s: State, op: Op)
    ensures ForeignFinalize in s.trace + Uses(s, op) <==> ForeignFinalize in s.trace
  {
    assert ForeignFinalize !in Uses(s, op);
  }

  lemma UsingKeeps(s: State, op: Op)
    requires Inv(s) && Legal(s, op) && Using(op)
    ensures Inv(Step(s, op))
  {
    var s' := Step(s, op);
    UseReadings(s, op, s', 0);
    UseIsNotForeign(s, op);
    forall p ensures StackInv(s', p) {
      assert StackInv(s, p);
      UseReadings(s, op, s', p);
    }
  }

  lemma StepKeeps(s: State, op: Op)
    requires Inv(s) && Legal(s, op)
    ensures Inv(Step(s, op))
  {
    match op
    case Construct(h, comm) => ConstructKeeps(s, h, comm);
    case StackCallback(h, id) => StackCallbackKeeps(s, h, id);
    case InitMpi => ForeignKeeps(s, Step(s, op), ForeignInit);
    case FinalizeMpi => ForeignKeeps(s, Step(s, op), ForeignFinalize);
    case _ => if Using(op) { UsingKeeps(s, op); } else { HandlingKeeps(s, op); }
  }

  lemma {:induction false} InvAlways(ops: seq<Op>)
    requires Exec(ops).Some?
    ensures Inv(Exec(ops).value)
  {
    if ops != [] {
      InvAlways(ops[..|ops| - 1]);
      StepKeeps(Exec(ops[..|ops| - 1]).value, ops[|ops| - 1]);
    }
  }
}
