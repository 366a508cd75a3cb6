/**
 * A program with `RuntimeView` variables, as the library runs it: every variable holds a pointer to
 * shared state, every shared state counts its pointers, and the last one destroys it. Each
 * operation takes the step of `Lifecycle`, where a state is destroyed when no variable refers to it.
 */
module Program {
  import opened Outcomes
  import opened ResourceSets
  import opened Lifecycle
  import opened Operations
  import opened RuntimeView

  // ---------------------------------------------------------------------------
  // Counting pointers
  // ---------------------------------------------------------------------------

  /** The variables that refer to `p`. */
  function Holders(handles: map<Handle, Option<Ptr>>, p: Ptr): set<Handle> {
    set h | h in handles && handles[h] == Some(p)
  }

  function One(b: bool): nat { if b then 1 else 0 }

  lemma HoldersUpdated(handles: map<Handle, Option<Ptr>>, h: Handle, v: Option<Ptr>, p: Ptr)
    ensures |Holders(handles[h := v], p)| + One(h in handles && handles[h] == Some(p)) ==
            |Holders(handles, p)| + One(v == Some(p))
  {
    var rest := Holders(handles, p) - {h};
    if v == Some(p) {
      assert Holders(handles[h := v], p) == rest + {h};
    } else {
      assert Holders(handles[h := v], p) == rest;
    }
    if h in handles && handles[h] == Some(p) {
      assert Holders(handles, p) == rest + {h};
    } else {
      assert Holders(handles, p) == rest;
    }
  }

  lemma HeldIffReferenced(handles: map<Handle, Option<Ptr>>, p: Ptr)
    ensures |Holders(handles, p)| > 0 <==> Referenced(handles, p)
  {
    if Referenced(handles, p) {
      var h :| h in handles && handles[h] == Some(p);
      assert h in Holders(handles, p);
    }
    if |Holders(handles, p)| > 0 {
      var h :| h in Holders(handles, p);
    }
  }

  /** Every pointer is counted; the temporary `t` is one more. */
  ghost predicate Counted(counts: map<Ptr, nat>, handles: map<Handle, Option<Ptr>>, t: Option<Ptr>) {
    && (forall h :: h in handles && handles[h].Some? ==> handles[h].value in counts)
    && (t.Some? ==> t.value in counts)
    && (forall p :: p in counts ==> 0 < counts[p] == |Holders(handles, p)| + One(t == Some(p)))
  }

  lemma CountedFresh(counts: map<Ptr, nat>, handles: map<Handle, Option<Ptr>>, p: Ptr)
    requires Counted(counts, handles, None) && p !in counts
    ensures Counted(counts[p := 1], handles, Some(p))
  {
    HeldIffReferenced(handles, p);
  }

  lemma CountedAcquired(counts: map<Ptr, nat>, handles: map<Handle, Option<Ptr>>, p: Ptr)
    requires Counted(counts, handles, None) && p in counts
    ensures Counted(counts[p := counts[p] + 1], handles, Some(p))
  {
  }

  lemma CountedExchanged(counts: map<Ptr, nat>, handles: map<Handle, Option<Ptr>>, h: Handle, t: Option<Ptr>)
    requires Counted(counts, handles, t)
    ensures Counted(counts, handles[h := t], if h in handles then handles[h] else None)
  {
    forall p { HoldersUpdated(handles, h, t, p); }
  }

  lemma CountedSwapped(counts: map<Ptr, nat>, handles: map<Handle, Option<Ptr>>, g: Handle, h: Handle)
    requires Counted(counts, handles, None) && g in handles && h in handles
    ensures Counted(counts, handles[g := handles[h]][h := handles[g]], None)
  {
    forall p
      ensures |Holders(handles[g := handles[h]][h := handles[g]], p)| == |Holders(handles, p)|
    {
      HoldersUpdated(handles, g, handles[h], p);
      HoldersUpdated(handles[g := handles[h]], h, handles[g], p);
    }
  }

  lemma CountedRemoved(counts: map<Ptr, nat>, handles: map<Handle, Option<Ptr>>, h: Handle, t: Option<Ptr>)
    requires Counted(counts, handles, t) && h in handles && handles[h] == None
    ensures Counted(counts, handles - {h}, t)
  {
    forall p ensures Holders(handles - {h}, p) == Holders(handles, p) {}
  }

  lemma CountedReleased(counts: map<Ptr, nat>, handles: map<Handle, Option<Ptr>>, p: Ptr)
    requires Counted(counts, handles, Some(p))
    ensures counts[p] > 1 <==> Referenced(handles, p)
    ensures counts[p] > 1 ==> Counted(counts[p := counts[p] - 1], handles, None)
    ensures counts[p] == 1 ==> Counted(counts - {p}, handles, None)
  {
    HeldIffReferenced(handles, p);
  }

  lemma {:induction false} TeardownFinalizesIff(p: Ptr, cbs: seq<Callback>)
    ensures Ran(p, MpiFinalize) in Teardown(p, cbs) <==> MpiFinalize in cbs
  {
    if cbs != [] {
      var last := |cbs| - 1;
      TeardownFinalizesIff(p, cbs[..last]);
      assert cbs == cbs[..last] + [cbs[last]];
    }
  }

  // ---------------------------------------------------------------------------
  // The program
  // ---------------------------------------------------------------------------

  type Heap = map<Ptr, RuntimeViewPIMPL>

  ghost function Stacks(heap: Heap): map<Ptr, Pimpl>
    reads heap.Values`mCallbacksFinal
  {
    map p | p in heap :: Pimpl(heap[p].mDidIStartMpi, heap[p].mComm.Comm?, heap[p].mCallbacksFinal)
  }

  lemma StacksWith(heap: Heap, p: Ptr, t: RuntimeViewPIMPL)
    ensures Stacks(heap[p := t]) ==
            Stacks(heap)[p := Pimpl(t.mDidIStartMpi, t.mComm.Comm?, t.mCallbacksFinal)]
  {
  }

  predicate Placed(heap: Heap, next: Ptr, objects: set<RuntimeViewPIMPL>) {
    forall p :: p in heap ==> p < next && heap[p].mAddress == p && heap[p] in objects
  }

  lemma PlacedFresh(heap: Heap, next: Ptr, objects: set<RuntimeViewPIMPL>, t: RuntimeViewPIMPL)
    requires Placed(heap, next, objects) && t.mAddress == next
    ensures Placed(heap[next := t], next + 1, objects + {t}) && next !in heap
  {
  }

  function WithPimpl(s: State, pimpl: Pimpl): State {
    s.(pimpls := s.pimpls[s.next := pimpl], next := s.next + 1)
  }

  /** `start_mpi` before its result is stored in a variable. */
  function Started(s: State, comm: bool): State {
    WithPimpl(s, Pimpl(!s.initialized, comm, if s.initialized then [] else [MpiFinalize]))
      .(initialized := true, trace := s.trace + BuildEvents(s.next, !s.initialized, comm))
  }

  /** Through a temporary, as the library moves, is as the specification moves. */
  lemma MovedStep(s: State, dst: Handle, src: Handle)
    requires dst in s.handles && src in s.handles
    ensures var was := if dst == src then None else s.handles[dst];
            Step(s, Op.MoveAssign(dst, src)) == Drop(s.(handles := s.handles[src := None][dst := s.handles[src]]), was)
  {
    if dst == src {
      assert s.handles[src := None][dst := s.handles[src]] == s.handles;
    } else {
      assert s.handles[src := None][dst := s.handles[src]] == s.handles[dst := s.handles[src]][src := None];
    }
  }

  class Program {
    var mpiInitialized: bool
    var mpiFinalized: bool
    var handles: map<Handle, Option<Ptr>>
    /** The shared states not yet destroyed, how many pointers each has, and the next free address. */
    var heap: Heap
    var useCounts: map<Ptr, nat>
    var next: Ptr
    var trace: seq<Event>
    /** Every shared state there has been. */
    ghost var objects: set<RuntimeViewPIMPL>

    /** What holds while the temporary pointer `t` takes part in the counts. */
    ghost predicate Sound(t: Option<Ptr>)
      reads `heap, `handles, `useCounts, `next, `objects
    {
      Placed(heap, next, objects) && useCounts.Keys == heap.Keys && Counted(useCounts, handles, t)
    }

    ghost predicate Valid()
      reads `heap, `handles, `useCounts, `next, `objects
    {
      Sound(None)
    }

    ghost function Abs(): State
      reads `mpiInitialized, `mpiFinalized, `handles, `heap, `next, `trace, heap.Values`mCallbacksFinal
    {
      State(mpiInitialized, mpiFinalized, handles, Stacks(heap), next, trace)
    }

    /** The state at `p` serves `comm`, with a cache as it should be. */
    ghost predicate IsViewOf(p: Ptr, comm: Comm)
      reads `heap, heap.Values`mResourceSets
    {
      p in heap && heap[p].mComm == comm && heap[p].Valid()
    }

    constructor ()
      ensures Valid() && Abs() == START && objects == {}
    {
      mpiInitialized, mpiFinalized, next, trace := false, false, 0, [];
      handles, heap, useCounts, objects := map[], map[], map[], {};
    }

    /** What the library does to MPI, in the order in which it does it. */
    method Log(events: seq<Event>)
      modifies `trace
      ensures Abs() == old(Abs()).(trace := old(trace) + events)
    {
      trace := trace + events;
    }

    // -------------------------------------------------------------------------
    // std::shared_ptr
    // -------------------------------------------------------------------------

    /** A temporary copy of the pointer in `h`. */
    method Acquire(h: Handle) returns (t: Option<Ptr>)
      requires Valid() && h in handles
      modifies `useCounts
      ensures Sound(t) && t == handles[h] && Abs() == old(Abs())
    {
      t := handles[h];
      if t.Some? {
        CountedAcquired(useCounts, handles, t.value);
        useCounts := useCounts[t.value := useCounts[t.value] + 1];
      }
    }

    /** The temporary and the variable exchange their pointers. */
    method Exchange(h: Handle, t: Option<Ptr>) returns (was: Option<Ptr>)
      requires Sound(t)
      modifies `handles
      ensures Sound(was) && was == (if h in old(handles) then old(handles[h]) else None)
      ensures handles == old(handles)[h := t]
      ensures Abs() == old(Abs()).(handles := old(handles)[h := t])
    {
      CountedExchanged(useCounts, handles, h, t);
      was := if h in handles then handles[h] else None;
      handles := handles[h := t];
    }

    /** The destructor of a shared state. */
    method Delete(p: Ptr)
      requires p in heap && Placed(heap, next, objects) && !Referenced(handles, p)
      modifies `mpiFinalized, `heap, `trace, {heap[p]}`mCallbacksFinal
      ensures heap == old(heap) - {p}
      ensures Abs() == Drop(old(Abs()), Some(p))
    {
      var t := heap[p];
      TeardownFinalizesIff(p, t.mCallbacksFinal);
      var events := t.RunCallbacks();
      mpiFinalized := mpiFinalized || Ran(p, MpiFinalize) in events;
      heap := heap - {p};
      trace := trace + events;
      assert Stacks(heap) == old(Stacks(heap)) - {p};
    }

    /** The temporary goes, and the shared state with it if there is no other pointer. */
    method Release(t: Option<Ptr>)
      requires Sound(t)
      modifies `mpiFinalized, `heap, `useCounts, `trace, objects`mCallbacksFinal
      ensures Valid() && Abs() == Drop(old(Abs()), t)
    {
      if t == None {
        return;
      }
      var p := t.value;
      CountedReleased(useCounts, handles, p);
      if useCounts[p] > 1 {
        useCounts := useCounts[p := useCounts[p] - 1];
        assert Abs() == old(Abs());
      } else {
        useCounts := useCounts - {p};
        assert Abs() == old(Abs());
        Delete(p);
      }
    }

    // -------------------------------------------------------------------------
    // What a program does with its variables
    // -------------------------------------------------------------------------

    /** The temporary is the one pointer to a state just made. */
    method Adopt(t: RuntimeViewPIMPL)
      requires Valid() && t.mAddress == next
      modifies `heap, `useCounts, `next, `objects
      ensures Sound(Some(old(next))) && objects == old(objects) + {t}
      ensures heap == old(heap)[old(next) := t] && next == old(next) + 1
    {
      PlacedFresh(heap, next, objects, t);
      CountedFresh(useCounts, handles, next);
      heap, useCounts, next := heap[next := t], useCounts[next := 1], next + 1;
      objects := objects + {t};
    }

    method AdoptAs(t: RuntimeViewPIMPL, pimpl: Pimpl)
      requires Valid() && t.mAddress == next
      requires pimpl == Pimpl(t.mDidIStartMpi, t.mComm.Comm?, t.mCallbacksFinal)
      modifies `heap, `useCounts, `next, `objects
      ensures Sound(Some(old(next))) && objects == old(objects) + {t} && heap == old(heap)[old(next) := t]
      ensures Abs() == WithPimpl(old(Abs()), pimpl)
    {
      StacksWith(heap, next, t);
      Adopt(t);
    }

    method NewState(started: bool, comm: Comm) returns (t: RuntimeViewPIMPL)
      requires Valid() && comm.Valid()
      ensures fresh(t) && t.Valid() && t.mAddress == next && t.mComm == comm && t.mDidIStartMpi == started
      ensures t.mCallbacksFinal == if started then [MpiFinalize] else []
      ensures Abs() == old(Abs())
    {
      t := new RuntimeViewPIMPL(next, started, comm);
    }

    /** `make_shared`: the new state is held by the temporary. */
    method MakeShared(started: bool, comm: Comm)
      requires Valid() && comm.Valid()
      modifies `heap, `useCounts, `next, `objects
      ensures Sound(Some(old(next))) && fresh(objects - old(objects)) && IsViewOf(old(next), comm)
      ensures Abs() == WithPimpl(old(Abs()), Pimpl(started, comm.Comm?, if started then [MpiFinalize] else []))
    {
      var t := NewState(started, comm);
      AdoptAs(t, Pimpl(started, comm.Comm?, if started then [MpiFinalize] else []));
    }

    /** `if(!mpi_initialized) MPI_Init(...)`. */
    method InitUnlessDone() returns (started: bool)
      modifies `mpiInitialized
      ensures started == !old(mpiInitialized) && Abs() == old(Abs()).(initialized := true)
    {
      started := !mpiInitialized;
      mpiInitialized := true;
    }

    /** MPI is initialized unless it has been; whoever initializes it is the one to finalize it. */
    method StartMpi(comm: Comm)
      requires Valid() && comm.Valid()
      modifies `mpiInitialized, `heap, `useCounts, `next, `trace, `objects
      ensures Sound(Some(old(next))) && fresh(objects - old(objects)) && IsViewOf(old(next), comm)
      ensures Abs() == Started(old(Abs()), comm.Comm?)
    {
      var started := InitUnlessDone();
      Log(BuildEvents(next, started, comm.Comm?));
      MakeShared(started, comm);
    }

    /** `RuntimeView(argc, argv, comm)`. */
    method Construct(h: Handle, comm: Comm)
      requires Valid() && h !in handles && comm.Valid()
      modifies this
      ensures Valid() && fresh(objects - old(objects))
      ensures h in handles && handles[h].Some? && IsViewOf(handles[h].value, comm)
      ensures Abs() == Step(old(Abs()), Op.Construct(h, comm.Comm?))
      ensures handles == old(handles)[h := Some(old(next))] && HoldsNewState(old(Abs()), Abs(), h, comm.Comm?)
      ensures trace == old(trace) + Building(old(next), !old(mpiInitialized), comm.Comm?)
    {
      var p := next;
      NewStateByStep(Abs(), h, comm.Comm?);
      BuildingIs(next, !mpiInitialized, comm.Comm?);
      StartMpi(comm);
      var _ := Exchange(h, Some(p));
    }

    /** `RuntimeView(const RuntimeView&)`. */
    method Copy(dst: Handle, src: Handle)
      requires Valid() && dst !in handles && src in handles
      modifies `handles, `useCounts
      ensures Valid() && Abs() == Step(old(Abs()), Op.Copy(dst, src))
      ensures handles == old(handles)[dst := old(handles)[src]] && NothingElse(old(Abs()), Abs())
    {
      var t := Acquire(src);
      var _ := Exchange(dst, t);
    }

    /** `RuntimeView(RuntimeView&&)`: the source is left null. */
    method Move(dst: Handle, src: Handle)
      requires Valid() && dst !in handles && src in handles
      modifies `handles, `useCounts
      ensures Valid() && Abs() == Step(old(Abs()), Op.Move(dst, src))
      ensures handles == old(handles)[dst := old(handles)[src]][src := None] && NothingElse(old(Abs()), Abs())
    {
      assert handles[dst := handles[src]][src := None] == handles[src := None][dst := handles[src]];
      var t := Exchange(src, None);
      var _ := Exchange(dst, t);
    }

    /** `operator=(const RuntimeView&)`: a copy is made before the old state is let go. */
    method CopyAssign(dst: Handle, src: Handle)
      requires Valid() && dst in handles && src in handles
      modifies this, objects`mCallbacksFinal
      ensures Valid() && objects == old(objects) && Abs() == Step(old(Abs()), Op.CopyAssign(dst, src))
      ensures handles == old(handles)[dst := old(handles)[src]] && LetsGo(old(Abs()), Abs(), old(handles)[dst])
    {
      var t := Acquire(src);
      var was := Exchange(dst, t);
      DropLetsGo(old(Abs()), handles, was);
      Release(was);
    }

    /** `operator=(RuntimeView&&)`: through a temporary, so that a self-assignment changes nothing. */
    method MoveAssign(dst: Handle, src: Handle)
      requires Valid() && dst in handles && src in handles
      modifies this, objects`mCallbacksFinal
      ensures Valid() && objects == old(objects) && Abs() == Step(old(Abs()), Op.MoveAssign(dst, src))
      ensures MoveAssigned(old(Abs()), Abs(), dst, src)
    {
      MoveAssignedByStep(Abs(), dst, src);
      MovedStep(Abs(), dst, src);
      var t := Exchange(src, None);
      var was := Exchange(dst, t);
      Release(was);
    }

    method Swap(dst: Handle, src: Handle)
      requires Valid() && dst in handles && src in handles
      modifies `handles
      ensures Valid() && Abs() == Step(old(Abs()), Op.Swap(dst, src))
      ensures handles == old(handles)[dst := old(handles)[src]][src := old(handles)[dst]]
      ensures NothingElse(old(Abs()), Abs())
    {
      CountedSwapped(useCounts, handles, dst, src);
      handles := handles[dst := handles[src]][src := handles[dst]];
    }

    method Push(p: Ptr, cb: Callback)
      requires Valid() && p in heap
      modifies objects`mCallbacksFinal
      ensures var was := old(Stacks(heap));
              Abs() == old(Abs()).(pimpls := was[p := was[p].(callbacks := was[p].callbacks + [cb])])
    {
      heap[p].StackCallback(cb);
    }

    method PushLogged(p: Ptr, cb: Callback)
      requires Valid() && p in heap
      modifies `trace, objects`mCallbacksFinal
      ensures var was := old(Stacks(heap));
              Abs() == old(Abs()).(pimpls := was[p := was[p].(callbacks := was[p].callbacks + [cb])],
                                   trace := old(trace) + [Pushed(p, cb)])
    {
      Log([Pushed(p, cb)]);
      Push(p, cb);
    }

    /** `stack_callback(f)`: a null view throws and changes nothing. */
    method StackCallback(h: Handle, id: nat) returns (rv: Outcome<()>)
      requires Valid() && h in handles
      modifies `trace, objects`mCallbacksFinal
      ensures Valid() && Abs() == Step(old(Abs()), Op.StackCallback(h, id))
      ensures CallbackStacked(old(Abs()), Abs(), h, id)
      ensures rv == if handles[h] == None then Failed(NoPimpl) else Returned(())
    {
      StackedByStep(Abs(), h, id);
      if handles[h] == None {
        return Failed(NoPimpl);
      }
      PushLogged(handles[h].value, User(id));
      rv := Returned(());
    }

    /** A variable that has become null ceases to be. */
    method Remove(h: Handle, t: Option<Ptr>)
      requires Sound(t) && h in handles && handles[h] == None
      modifies `handles
      ensures Sound(t) && handles == old(handles) - {h} && Abs() == old(Abs()).(handles := handles)
    {
      CountedRemoved(useCounts, handles, h, t);
      handles := handles - {h};
    }

    method Destroy(h: Handle)
      requires Valid() && h in handles
      modifies this, objects`mCallbacksFinal
      ensures Valid() && objects == old(objects) && Abs() == Step(old(Abs()), Op.Destroy(h))
      ensures handles == old(handles) - {h} && LetsGo(old(Abs()), Abs(), old(handles)[h])
    {
      var was := Exchange(h, None);
      Remove(h, was);
      assert handles == old(handles) - {h};
      DropLetsGo(old(Abs()), handles, was);
      Release(was);
    }

    /** The shared states not yet destroyed are those that some variable refers to. */
    lemma LiveIffReferenced(p: Ptr)
      requires Valid()
      ensures p in heap <==> Referenced(handles, p)
    {
      HeldIffReferenced(handles, p);
    }

    /** `mpi_comm()`: of a null view it is MPI_COMM_NULL. */
    function CommOf(h: Handle): Comm
      requires h in handles && (handles[h].Some? ==> handles[h].value in heap)
      reads `handles, `heap
    {
      if handles[h] == None then NullComm else heap[handles[h].value].mComm
    }

    lemma CommOfView(h: Handle, comm: Comm)
      requires Valid() && h in handles && (handles[h].Some? ==> IsViewOf(handles[h].value, comm))
      ensures CommOf(h) == if handles[h].Some? then comm else NullComm
    {
    }

    lemma HasCommIff(h: Handle)
      requires Valid() && h in handles
      ensures HasComm(Abs(), h) <==> CommOf(h).Comm?
    {
    }

    /** `gather`, `gatherv` or `reduce` of a view: the communicator on which it collects, or why it does not. */
    method Collect(h: Handle, reduces: bool) returns (rv: Outcome<Comm>)
      requires Valid() && h in handles
      modifies `trace
      ensures Valid() && Abs() == Step(old(Abs()), Op.Collect(h, reduces))
      ensures trace == old(trace) + if CommOf(h).Comm? then [Query, Transfer] else if reduces then [Transfer] else []
      ensures rv == if CommOf(h).Comm? then Returned(CommOf(h)) else Failed(if reduces then MpiNullComm else NoPimpl)
    {
      var comm := CommOf(h);
      var built := if comm.Comm? then [Query] else [];
      var called := if comm.Comm? || reduces then [Transfer] else [];
      Log(built + called);
      rv := if comm.Comm? then Returned(comm) else Failed(if reduces then MpiNullComm else NoPimpl);
    }

    /** The same through `my_resource_set().ram()`, which a view of no communicator does not have. */
    method CollectRam(h: Handle) returns (rv: Outcome<Comm>)
      requires Valid() && h in handles
      modifies `trace
      ensures Valid() && Abs() == Step(old(Abs()), Op.CollectRam(h))
      ensures trace == old(trace) + if CommOf(h).Comm? then [Transfer] else []
      ensures rv == if handles[h] == None then Failed(NoPimpl)
                    else if CommOf(h).Comm? then Returned(CommOf(h)) else Failed(OutOfRange)
    {
      if handles[h] == None {
        return Failed(NoPimpl);
      }
      var comm := CommOf(h);
      if comm.NullComm? {
        return Failed(OutOfRange);
      }
      Log([Transfer]);
      rv := Returned(comm);
    }

    /** `operator==` of two communicators: MPI is asked if both are communicators. */
    method CompareComms(a: Comm, b: Comm) returns (same: bool)
      modifies `trace
      ensures Abs() == old(Abs()).(trace := old(trace) + if a.Comm? && b.Comm? then [Compared] else [])
      ensures same <==> (a.NullComm? && b.NullComm?) || (a.Comm? && b.Comm? && a.handle == b.handle)
    {
      if a.Comm? && b.Comm? {
        Log([Compared]);
      }
      same := a.Same(b);
    }

    /** `operator==` before it compares loggers: nullness, then communicators. */
    method Compare(g: Handle, h: Handle) returns (same: bool)
      requires Valid() && g in handles && h in handles
      modifies `trace
      ensures Valid() && Abs() == Step(old(Abs()), Op.Compare(g, h))
      ensures trace == old(trace) + if CommOf(g).Comm? && CommOf(h).Comm? then [Compared] else []
      ensures var a, b := CommOf(g), CommOf(h);
              same <==> (handles[g] == None <==> handles[h] == None) &&
                        ((a.NullComm? && b.NullComm?) || (a.Comm? && b.Comm? && a.handle == b.handle))
    {
      HasCommIff(g);
      HasCommIff(h);
      if handles[g].None? != handles[h].None? {
        return false;
      }
      same := CompareComms(CommOf(g), CommOf(h));
    }

    /** `MPI_Init` and `MPI_Finalize`, called by the program itself. */
    method InitMpi()
      requires Valid() && !mpiInitialized
      modifies `mpiInitialized, `trace
      ensures Valid() && Abs() == Step(old(Abs()), Op.InitMpi)
    {
      mpiInitialized, trace := true, trace + [ForeignInit];
    }

    method FinalizeMpi()
      requires Valid() && mpiInitialized && !mpiFinalized
      modifies `mpiFinalized, `trace
      ensures Valid() && Abs() == Step(old(Abs()), Op.FinalizeMpi)
    {
      mpiFinalized, trace := true, trace + [ForeignFinalize];
    }

    /** One operation; if it builds a view, then of `comm`. */
    method Perform(op: Op, comm: Comm)
      requires Valid() && Legal(Abs(), op) && comm.Valid() && (op.Construct? ==> op.comm == comm.Comm?)
      modifies this, objects`mCallbacksFinal
      ensures Valid() && fresh(objects - old(objects)) && Abs() == Step(old(Abs()), op)
    {
      match op {
        case Construct(h, _) => Construct(h, comm);
        case Copy(dst, src) => Copy(dst, src);
        case Move(dst, src) => Move(dst, src);
        case CopyAssign(dst, src) => CopyAssign(dst, src);
        case MoveAssign(dst, src) => MoveAssign(dst, src);
        case Swap(dst, src) => Swap(dst, src);
        case StackCallback(h, id) => var _ := StackCallback(h, id);
        case Destroy(h) => Destroy(h);
        case Collect(h, reduces) => var _ := Collect(h, reduces);
        case CollectRam(h) => var _ := CollectRam(h);
        case Compare(g, h) => var _ := Compare(g, h);
        case InitMpi => InitMpi();
        case FinalizeMpi => FinalizeMpi();
      }
    }
  }

  /**
   * Over every run, with any communicator for each view, counting pointers destroys each state
   * exactly when nothing refers to it.
   */
  method Run(ops: seq<Op>, comms: seq<Comm>) returns (program: Program)
    requires Exec(ops).Some? && |comms| == |ops|
    requires forall k :: 0 <= k < |ops| ==> comms[k].Valid() && (ops[k].Construct? ==> ops[k].comm == comms[k].Comm?)
    ensures program.Valid() && Exec(ops) == Some(program.Abs())
  {
    program := new Program();
    var k := 0;
    assert ops[..0] == [];
    while k < |ops|
      invariant 0 <= k <= |ops| && program.Valid() && fresh(program) && fresh(program.objects)
      invariant Exec(ops[..k]) == Some(program.Abs())
    {
      LegalPrefix(ops, k + 1);
      assert ops[..k + 1][..k] == ops[..k];
      program.Perform(ops[k], comms[k]);
      k := k + 1;
    }
    assert ops[..|ops|] == ops;
  }

  /** Every beginning of a legal run is one. */
  lemma {:induction false} LegalPrefix(ops: seq<Op>, k: nat)
    requires k <= |ops| && Exec(ops).Some?
    ensures Exec(ops[..k]).Some?
    decreases |ops|
  {
    if k < |ops| {
      LegalPrefix(ops[..|ops| - 1], k);
      assert ops[..|ops| - 1][..k] == ops[..k];
    } else {
      assert ops[..k] == ops;
    }
  }
}
