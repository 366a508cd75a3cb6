/**
 * `RuntimeView` and the state it shares: the lazily filled cache of resource sets and the callback
 * stack.
 */
module RuntimeView {
  import opened Bytes
  import opened Outcomes
  import opened ResourceSets
  import opened Lifecycle
  import opened Operations

  /** Of rank `rank` of `comm`, with RAM of that owner: ten bytes, whatever the machine has. */
  predicate IsSetOf(rs: Rs, rank: nat, comm: Comm) {
    && rs.Some? && rs.value.rank == rank && rs.value.comm == comm && rs.value.logger == NullLogger
    && rs.value.ram == Some(RamState(10, rank, comm))
  }

  /** A resource set handed out by reference; two are the same only if they are one object. */
  class ResourceSet {
    const mPimpl: Rs

    constructor (rank: nat, comm: Comm)
      ensures mPimpl == Some(FreshState(rank, comm)) && IsSetOf(mPimpl, rank, comm)
    {
      mPimpl := Some(FreshState(rank, comm));
    }
  }

  class RuntimeViewPIMPL {
    const mAddress: Ptr
    const mDidIStartMpi: bool
    const mComm: Comm
    var mResourceSets: map<nat, ResourceSet>
    var mCallbacksFinal: seq<Callback>

    /** Cached sets are as good as fresh ones, and only ranks of the communicator and this one are cached. */
    ghost predicate Valid()
      reads this`mResourceSets
    {
      && mComm.Valid()
      && mComm.Me() in mResourceSets
      && (forall r :: r in mResourceSets ==> r < mComm.Size() || r == mComm.Me())
      && (forall r :: r in mResourceSets ==> mResourceSets[r].mPimpl == Some(FreshState(r, mComm)))
    }

    /** The current rank's set is there from the start, and finalize is at the bottom of the starter's stack. */
    constructor (address: Ptr, didIStartMpi: bool, comm: Comm)
      requires comm.Valid()
      ensures Valid() && mAddress == address && mDidIStartMpi == didIStartMpi && mComm == comm
      ensures mResourceSets.Keys == {comm.Me()}
      ensures mCallbacksFinal == if didIStartMpi then [MpiFinalize] else []
    {
      mAddress, mDidIStartMpi, mComm := address, didIStartMpi, comm;
      mResourceSets, mCallbacksFinal := map[], [];
      new;
      Instantiate(comm.Me());
      if didIStartMpi {
        StackCallback(MpiFinalize);
        assert [] + [MpiFinalize] == [MpiFinalize];
      }
    }

    method StackCallback(cb: Callback)
      modifies this`mCallbacksFinal
      ensures mCallbacksFinal == old(mCallbacksFinal) + [cb]
    {
      mCallbacksFinal := mCallbacksFinal + [cb];
    }

    /** The destructor: the top of the stack is called, then popped, until nothing is left. */
    method RunCallbacks() returns (events: seq<Event>)
      modifies this`mCallbacksFinal
      ensures mCallbacksFinal == [] && events == Teardown(mAddress, old(mCallbacksFinal))
      ensures events == LastFirst(mAddress, old(mCallbacksFinal))
    {
      TeardownIsLastFirst(mAddress, mCallbacksFinal);
      events := [];
      while mCallbacksFinal != []
        invariant events + Teardown(mAddress, mCallbacksFinal) == Teardown(mAddress, old(mCallbacksFinal))
        decreases |mCallbacksFinal|
      {
        var top := |mCallbacksFinal| - 1;
        events := events + [Ran(mAddress, mCallbacksFinal[top])];
        mCallbacksFinal := mCallbacksFinal[..top];
      }
      assert events + [] == events;
    }

    /** A set is made for `rank` unless there is one; the sets already there stay the same objects. */
    method Instantiate(rank: nat)
      requires mComm.Valid() && (rank < mComm.Size() || rank == mComm.Me())
      requires forall r :: r in mResourceSets ==> r < mComm.Size() || r == mComm.Me()
      requires forall r :: r in mResourceSets ==> mResourceSets[r].mPimpl == Some(FreshState(r, mComm))
      modifies this`mResourceSets
      ensures mResourceSets.Keys == old(mResourceSets.Keys) + {rank}
      ensures forall r :: r in old(mResourceSets) ==> mResourceSets[r] == old(mResourceSets[r])
      ensures forall r :: r in mResourceSets ==> mResourceSets[r].mPimpl == Some(FreshState(r, mComm))
    {
      if rank in mResourceSets {
        return;
      }
      var rs := new ResourceSet(rank, mComm);
      mResourceSets := mResourceSets[rank := rs];
    }

    method At(rank: nat) returns (rs: ResourceSet)
      requires Valid() && (rank < mComm.Size() || rank == mComm.Me())
      modifies this`mResourceSets
      ensures Valid() && mResourceSets.Keys == old(mResourceSets.Keys) + {rank}
      ensures forall r :: r in old(mResourceSets) ==> mResourceSets[r] == old(mResourceSets[r])
      ensures rs == mResourceSets[rank] && rs.mPimpl == Some(FreshState(rank, mComm))
      ensures IsSetOf(rs.mPimpl, rank, mComm)
    {
      Instantiate(rank);
      rs := mResourceSets[rank];
    }
  }

  // ---------------------------------------------------------------------------
  // What a view does with the state it shares; a null view has none
  // ---------------------------------------------------------------------------

  function ViewSize(view: RuntimeViewPIMPL?): nat {
    if view == null then 0 else view.mComm.Size()
  }

  /** The cache gained sets for `keys`, and every set it had is still the same object. */
  ghost predicate Grown(before: map<nat, ResourceSet>, after: map<nat, ResourceSet>, keys: set<nat>) {
    && after.Keys == before.Keys + keys
    && forall r :: r in before ==> after[r] == before[r]
  }

  lemma GrownTwice(a: map<nat, ResourceSet>, b: map<nat, ResourceSet>, c: map<nat, ResourceSet>,
                   j: set<nat>, k: set<nat>)
    requires Grown(a, b, j) && Grown(b, c, k)
    ensures Grown(a, c, j + k)
  {
  }

  /** `at(i)`: the one set of rank `i`, in the state a fresh one would have, or std::out_of_range. */
  method At(view: RuntimeViewPIMPL?, i: nat) returns (rv: Outcome<ResourceSet>)
    requires view != null ==> view.Valid()
    modifies (if view == null then {} else {view})`mResourceSets
    ensures rv.Failed? <==> view == null || view.mComm.NullComm? || view.mComm.size <= i
    ensures rv.Failed? ==> rv.why == OutOfRange
    ensures view != null ==>
              && view.Valid()
              && Grown(old(view.mResourceSets), view.mResourceSets, if rv.Failed? then {} else {i})
    ensures rv.Returned? ==>
              && view != null && rv.value == view.mResourceSets[i]
              && rv.value.mPimpl == Some(FreshState(i, view.mComm)) && IsSetOf(rv.value.mPimpl, i, view.mComm)
  {
    if ViewSize(view) <= i {
      return Failed(OutOfRange);
    }
    var rs := view.At(i);
    rv := Returned(rs);
  }

  /**
   * `my_resource_set()`: the set of this process. On a communicator without this process it is a
   * null set, where the documentation announces std::out_of_range.
   */
  method MyResourceSet(view: RuntimeViewPIMPL?) returns (rv: Outcome<ResourceSet>)
    requires view != null ==> view.Valid()
    modifies (if view == null then {} else {view})`mResourceSets
    ensures view == null ==> rv == Failed(NoPimpl)
    ensures view != null ==>
              && view.Valid() && view.mResourceSets == old(view.mResourceSets)
              && rv == Returned(view.mResourceSets[view.mComm.Me()])
              && (IsMine(rv.value.mPimpl) <==> !IsNull(rv.value.mPimpl))
              && (IsNull(rv.value.mPimpl) <==> view.mComm.NullComm?)
              && (view.mComm.Comm? ==> IsSetOf(rv.value.mPimpl, view.mComm.me, view.mComm))
  {
    if view == null {
      return Failed(NoPimpl);
    }
    var rs := view.At(view.mComm.Me());
    rv := Returned(rs);
  }

  /** `at(i).ram() == ram`; on a rank of the communicator neither call throws. */
  method RamMatches(view: RuntimeViewPIMPL, i: nat, ram: Ram) returns (same: bool)
    requires view.Valid() && i < ViewSize(view)
    modifies view`mResourceSets
    ensures view.Valid() && Grown(old(view.mResourceSets), view.mResourceSets, {i})
    ensures same == RamSame(FreshState(i, view.mComm).ram, ram)
  {
    var rs := At(view, i);
    var r := RamOf(rs.value.mPimpl);
    same := RamSame(r.value, ram);
  }

  /** One pass of the loop: rank `i` is cached, besides those cached before, and counted if it matches. */
  method CountOne(view: RuntimeViewPIMPL, ram: Ram, i: nat, before: nat,
                  ghost start: map<nat, ResourceSet>, ghost touched: set<nat>)
    returns (count: nat)
    requires view.Valid() && i < ViewSize(view) && Grown(start, view.mResourceSets, touched)
    modifies view`mResourceSets
    ensures view.Valid() && Grown(start, view.mResourceSets, touched + {i})
    ensures count == before + (if RamSame(FreshState(i, view.mComm).ram, ram) then 1 else 0)
  {
    ghost var was := view.mResourceSets;
    var same := RamMatches(view, i, ram);
    GrownTwice(start, was, view.mResourceSets, touched, {i});
    count := if same then before + 1 else before;
  }

  lemma BelowMore(i: nat)
    ensures Below(i + 1) == Below(i) + {i}
  {
  }

  /** The loop of `count`, on a view with a state. */
  method CountIn(view: RuntimeViewPIMPL, ram: Ram) returns (count: nat)
    requires view.Valid()
    modifies view`mResourceSets
    ensures view.Valid() && Grown(old(view.mResourceSets), view.mResourceSets, Below(view.mComm.Size()))
    ensures count == Matching(view.mComm, ram, view.mComm.Size())
  {
    ghost var start, touched := view.mResourceSets, Below(0);
    count := 0;
    var i := 0;
    while i < ViewSize(view)
      invariant 0 <= i <= ViewSize(view) && view.Valid() && touched == Below(i)
      invariant Grown(start, view.mResourceSets, touched) && count == Matching(view.mComm, ram, i)
    {
      count := CountOne(view, ram, i, count, start, touched);
      BelowMore(i);
      touched := touched + {i};
      i := i + 1;
    }
  }

  /**
   * `count(ram)`: how many ranks' RAM equals `ram`. It caches every rank and never throws, not even
   * on a null view, whose size of 0 keeps it out of the loop.
   */
  method Count(view: RuntimeViewPIMPL?, ram: Ram) returns (count: nat)
    requires view != null ==> view.Valid()
    modifies (if view == null then {} else {view})`mResourceSets
    ensures view == null ==> count == 0
    ensures view != null ==>
              && view.Valid()
              && Grown(old(view.mResourceSets), view.mResourceSets, Below(view.mComm.Size()))
              && count == Matching(view.mComm, ram, view.mComm.Size())
              && count == if view.mComm.Comm? && ram.Some? && ram.value.size == 10 then view.mComm.size else 0
  {
    if view == null {
      return 0;
    }
    MatchingAllOrNone(view.mComm, ram, view.mComm.Size());
    RamSameIffSameSize(ram, ram);
    count := CountIn(view, ram);
  }

  // ---------------------------------------------------------------------------
  // Any history of queries
  // ---------------------------------------------------------------------------

  datatype Ask = AskAt(i: nat) | AskMine | AskCount(ram: Ram)

  /** The ranks a query leaves in the cache, whatever was asked before it. */
  function Touched(comm: Comm, a: Ask): set<nat> {
    match a
    case AskAt(i) => if i < comm.Size() then {i} else {}
    case AskMine => {}
    case AskCount(_) => Below(comm.Size())
  }

  function AllTouched(comm: Comm, asks: seq<Ask>): set<nat> {
    if asks == [] then {} else AllTouched(comm, asks[..|asks| - 1]) + Touched(comm, asks[|asks| - 1])
  }

  method Answer(view: RuntimeViewPIMPL, a: Ask)
    requires view.Valid()
    modifies view`mResourceSets
    ensures view.Valid() && Grown(old(view.mResourceSets), view.mResourceSets, Touched(view.mComm, a))
  {
    match a {
      case AskAt(i) => var _ := At(view, i);
      case AskMine => var _ := MyResourceSet(view);
      case AskCount(ram) => var _ := Count(view, ram);
    }
  }

  lemma TouchedMore(comm: Comm, asks: seq<Ask>, k: nat)
    requires k < |asks|
    ensures AllTouched(comm, asks[..k + 1]) == AllTouched(comm, asks[..k]) + Touched(comm, asks[k])
  {
    assert asks[..k + 1][..k] == asks[..k];
  }

  /**
   * After any history the cache holds a fresh-looking set for exactly the ranks asked for and those
   * it had; a set once handed out is never replaced.
   */
  method AnswerAll(view: RuntimeViewPIMPL, asks: seq<Ask>)
    requires view.Valid()
    modifies view`mResourceSets
    ensures view.Valid() && Grown(old(view.mResourceSets), view.mResourceSets, AllTouched(view.mComm, asks))
  {
    ghost var start, touched := view.mResourceSets, {};
    var k := 0;
    while k < |asks|
      invariant 0 <= k <= |asks| && view.Valid()
      invariant touched == AllTouched(view.mComm, asks[..k]) && Grown(start, view.mResourceSets, touched)
    {
      ghost var was, more := view.mResourceSets, Touched(view.mComm, asks[k]);
      Answer(view, asks[k]);
      GrownTwice(start, was, view.mResourceSets, touched, more);
      TouchedMore(view.mComm, asks, k);
      touched := touched + more;
      k := k + 1;
    }
    assert asks[..|asks|] == asks;
  }
}
