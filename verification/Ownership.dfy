/** N processes, each with a view of one communicator: who owns what, and who receives what. */
module Ownership {
  import opened Bytes
  import opened Outcomes
  import opened Codec
  import opened Protocol
  import opened ProtocolSafety
  import opened ProtocolLiveness
  import opened TypedCommPP
  import opened EndToEnd
  import opened ResourceSets
  import opened RuntimeView
  import opened Reduce

  /** `view.at(i)` on process `p` of the `n` processes of a communicator. */
  function Seen(handle: nat, n: nat, p: nat, i: nat): Rs {
    Some(FreshState(i, Comm(handle, n, p)))
  }

  /** Every process sees the same resource set of rank `i`, and it is one process's own. */
  lemma OwnedByExactlyOne(handle: nat, n: nat, i: nat)
    requires i < n <= INT_MAX
    ensures forall p, q :: 0 <= p < n && 0 <= q < n ==> RsSame(Seen(handle, n, p, i), Seen(handle, n, q, i))
    ensures forall p :: 0 <= p < n ==> (IsMine(Seen(handle, n, p, i)) <==> p == i)
  {
  }

  lemma SeenIsSet(handle: nat, n: nat, i: nat)
    ensures forall p: nat :: IsSetOf(Seen(handle, n, p, i), i, Comm(handle, n, p))
  {
  }

  /**
   * `at(i)` on every process's view, whatever was asked of the views before: each returns the set that
   * `Seen` says, all are equal, and one process's own.
   */
  method AtEverywhere(handle: nat, views: seq<RuntimeViewPIMPL>, i: nat) returns (sets: seq<ResourceSet>)
    requires i < |views| <= INT_MAX
    requires forall p :: 0 <= p < |views| ==> views[p].Valid() && views[p].mComm == Comm(handle, |views|, p)
    modifies (set p | 0 <= p < |views| :: views[p])`mResourceSets
    ensures |sets| == |views|
    ensures forall p :: 0 <= p < |views| ==> sets[p].mPimpl == Seen(handle, |views|, p, i)
    ensures forall p :: 0 <= p < |views| ==> IsSetOf(sets[p].mPimpl, i, Comm(handle, |views|, p))
    ensures forall p, q :: 0 <= p < |views| && 0 <= q < |views| ==> RsSame(sets[p].mPimpl, sets[q].mPimpl)
    ensures forall p :: 0 <= p < |views| ==> (IsMine(sets[p].mPimpl) <==> p == i)
  {
    var n := |views|;
    sets := [];
    var p := 0;
    while p < n
      invariant 0 <= p <= n && |sets| == p
      invariant forall q :: 0 <= q < n ==> views[q].Valid()
      invariant forall q :: 0 <= q < p ==> sets[q].mPimpl == Seen(handle, n, q, i)
    {
      var rv := At(views[p], i);
      sets := sets + [rv.value];
      p := p + 1;
    }
    OwnedByExactlyOne(handle, n, i);
    SeenIsSet(handle, n, i);
  }

  /** A collective: on which communicator a process calls it, and with which root. */
  datatype Rooted = Rooted(comm: Comm, root: nat)

  /** What `ram.gather` and `ram.reduce` call: on the communicator the RAM carries, rooted in its owner. */
  function Through(ram: Ram): Outcome<Rooted> {
    if ram.Some? then Returned(Rooted(ram.value.comm, ram.value.rank)) else Failed(NoPimpl)
  }

  /** What a process calls by `rs.ram().gather` on the set it sees, unless that throws. */
  function CallThrough(rs: Rs): Outcome<Rooted> {
    match RamOf(rs)
    case Failed(why) => Failed(why)
    case Returned(ram) => Through(ram)
  }

  /** The RAM of a rank of the communicator is there, and calls on that communicator with that rank as root. */
  lemma RootIsOwner(handle: nat, n: nat, p: nat, i: nat)
    requires i < n <= INT_MAX
    ensures CallThrough(Seen(handle, n, p, i)) == Returned(Rooted(Comm(handle, n, p), i))
  {
  }

  /** Process `p` calls `at(which(p)).ram().gather(x)`. */
  function Roots(handle: nat, n: nat, which: nat -> nat): (r: seq<Option<nat>>)
    requires n <= INT_MAX && forall p: nat :: p < n ==> which(p) < n
    ensures |r| == n
    ensures forall p: nat :: p < n ==> CallThrough(Seen(handle, n, p, which(p))).Returned?
                                       && r[p] == Some(CallThrough(Seen(handle, n, p, which(p))).value.root)
    ensures forall p: nat :: p < n ==> r[p] == Some(which(p))
  {
    seq(n, p requires 0 <= p < n =>
      RootIsOwner(handle, n, p, which(p));
      Some(CallThrough(Seen(handle, n, p, which(p))).value.root))
  }

  /** All processes call `at(i).ram().gather(x)`. */
  function RootsAt(handle: nat, n: nat, i: nat): (r: seq<Option<nat>>)
    requires i < n <= INT_MAX
    ensures |r| == n && forall p: nat :: p < n ==> r[p] == Some(i)
  {
    Roots(handle, n, _ => i)
  }

  /** All processes call `my_resource_set().ram().gather(x)`. */
  function RootsMine(handle: nat, n: nat): (r: seq<Option<nat>>)
    requires n <= INT_MAX
    ensures |r| == n && forall p: nat :: p < n ==> r[p] == Some(p)
  {
    Roots(handle, n, p => p)
  }

  /**
   * A gather through `at(i).ram()` is called by all processes on the communicator they share, ends on
   * every one in every run, and has a value, all objects in rank order, on exactly the process that
   * owns the resource set.
   */
  lemma GatherThroughRam(handle: nat, i: nat, ty: Ty, objs: seq<Val>, acts: seq<Action>)
    requires WellFormed(ty) && AllHaveType(ty, objs) && i < |objs| <= INT_MAX
    requires var c := GatherCallOf(RootsAt(handle, |objs|, i), ty, objs); c.Valid() && c.Healthy() && Exhausted(c, acts)
    ensures var c := GatherCallOf(RootsAt(handle, |objs|, i), ty, objs); var s := Exec(c, acts).value;
            forall p :: 0 <= p < |objs| ==>
              && CallThrough(Seen(handle, |objs|, p, i)) == Returned(Rooted(Comm(handle, |objs|, p), i))
              && Finished(c, s[p])
              && (Result(c, s, p).Some? <==> IsMine(Seen(handle, |objs|, p, i)))
              && (Result(c, s, p).Some? ==>
                    GatherTyped(ty, Result(c, s, p).value.0, |objs|) == Returned(Expectation(ty, objs)))
  {
    var roots := RootsAt(handle, |objs|, i);
    var c := GatherCallOf(roots, ty, objs);
    OwnedByExactlyOne(handle, |objs|, i);
    forall p: nat | p < |objs|
      ensures CallThrough(Seen(handle, |objs|, p, i)) == Returned(Rooted(Comm(handle, |objs|, p), i))
    {
      RootIsOwner(handle, |objs|, p, i);
    }
    assert forall p: nat :: p < |objs| ==> c.root[p] == Some(i);
    TypedGatherCompletes(roots, ty, objs, acts);
  }

  /** Through `my_resource_set().ram()` every process names itself root, and none ever returns. */
  lemma OwnGatherNeverReturns(handle: nat, ty: Ty, objs: seq<Val>, acts: seq<Action>)
    requires WellFormed(ty) && AllHaveType(ty, objs) && 2 <= |objs| <= INT_MAX
    requires var c := GatherCallOf(RootsMine(handle, |objs|), ty, objs); c.Valid() && Exec(c, acts).Some?
    ensures var c := GatherCallOf(RootsMine(handle, |objs|), ty, objs);
            forall p :: 0 <= p < |objs| ==> IsMine(Seen(handle, |objs|, p, p)) && !ReturnedOn(c, acts, p)
  {
    var c := GatherCallOf(RootsMine(handle, |objs|), ty, objs);
    forall p | 0 <= p < |objs|
      ensures c.root[p] == Some(p) && IsMine(Seen(handle, |objs|, p, p))
    {
      OwnedByExactlyOne(handle, |objs|, p);
    }
    SelfRootedNeverReturns(c, acts);
  }

  /**
   * `at(i).ram().reduce(x, op)` on process `p`, where `data` says what the ranks of each communicator
   * bring: only the owner has a value, the fold of every column of what the ranks of its view bring.
   */
  method ReduceThroughRam<T(!new)>(handle: nat, n: nat, p: nat, i: nat, op: (T, T) -> T, zero: T,
                                   data: nat -> seq<seq<T>>, schedule: Schedule)
    returns (rv: Outcome<Option<seq<T>>>)
    requires Associative(op) && Commutative(op)
    requires p < n <= INT_MAX && i < n && |data(handle)| == n
    requires forall k :: 0 <= k < n ==> |data(handle)[k]| == |data(handle)[0]| <= INT_MAX
    requires Legal(schedule, n) && |schedule| == n - 1
    ensures rv == Returned(if p == i then Some(ColumnFolds(op, data(handle), |data(handle)[0]|)) else None)
    ensures IsMine(Seen(handle, n, p, i)) <==> p == i
  {
    RootIsOwner(handle, n, p, i);
    OwnedByExactlyOne(handle, n, i);
    var call := CallThrough(Seen(handle, n, p, i)).value;
    rv := ReduceT(Some(call.comm.me), Some(call.root), op, zero, data(call.comm.handle), schedule);
  }
}
