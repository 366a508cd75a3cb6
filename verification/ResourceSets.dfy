/** Communicators, RAM and resource sets as values: what a process sees of each rank. */
module ResourceSets {
  import opened Bytes
  import opened Outcomes

  /** `size_t(MPI_PROC_NULL)`: the rank of no process, beyond every int. */
  const PROC_NULL: nat := 0xffff_ffff_ffff_fffe

  /** A `CommPP` on one process: its handle, the number of ranks and the rank of this process. */
  datatype Comm = NullComm | Comm(handle: nat, size: nat, me: nat) {
    predicate Valid() {
      Comm? ==> me < size <= INT_MAX
    }

    function Size(): nat { if NullComm? then 0 else size }

    function Me(): nat { if NullComm? then PROC_NULL else me }

    /** `operator==`: both null, or MPI_IDENT. */
    predicate Same(other: Comm) {
      if NullComm? || other.NullComm? then NullComm? == other.NullComm? else handle == other.handle
    }
  }

  /** Communicators are the same iff both are null, or both are not and MPI has one handle for them. */
  lemma CommSameIff(a: Comm, b: Comm)
    ensures a.Same(b) <==> (a.NullComm? && b.NullComm?) || (a.Comm? && b.Comm? && a.handle == b.handle)
  {
  }

  datatype Logger = NullLogger | Sink(id: nat)

  datatype RamState = RamState(size: nat, rank: nat, comm: Comm)

  /** A `RAM`: perhaps without a PIMPL. */
  type Ram = Option<RamState>

  predicate RamEmpty(r: Ram) { r.None? || r.value.size == 0 }

  function TotalSpace(r: Ram): nat { if RamEmpty(r) then 0 else r.value.size }

  /** `RAM::operator==`, branch by branch. */
  predicate RamSame(a: Ram, b: Ram) {
    if RamEmpty(a) != RamEmpty(b) then false
    else if RamEmpty(a) then true
    else a.value.size == b.value.size
  }

  /** The code compares sizes only, although its documentation asks for the same resource set. */
  lemma RamSameIffSameSize(a: Ram, b: Ram)
    ensures TotalSpace(a) == (if a == None then 0 else a.value.size)
    ensures RamSame(a, b) <==> TotalSpace(a) == TotalSpace(b)
  {
  }

  /** The two RAM objects are of one resource set, or of none. */
  predicate SameOwner(a: Ram, b: Ram) {
    if a.None? || b.None? then a.None? == b.None?
    else a.value.rank == b.value.rank && a.value.comm.Same(b.value.comm)
  }

  /** What the documentation of `RAM::operator==` asks for: one owner, and one amount of space. */
  predicate RamDocumented(a: Ram, b: Ram) {
    SameOwner(a, b) && TotalSpace(a) == TotalSpace(b)
  }

  /** The code keeps that promise exactly for RAM of different sizes, or of one owner. */
  lemma RamSameAsDocumentedIff(a: Ram, b: Ram)
    ensures (RamSame(a, b) <==> RamDocumented(a, b)) <==> TotalSpace(a) != TotalSpace(b) || SameOwner(a, b)
  {
  }

  datatype RsState = RsState(rank: nat, ram: Ram, comm: Comm, logger: Logger)

  /** A `ResourceSet`: perhaps without a PIMPL. */
  type Rs = Option<RsState>

  function MpiRank(rs: Rs): nat { if rs.Some? then rs.value.rank else PROC_NULL }

  predicate IsNull(rs: Rs) { MpiRank(rs) == PROC_NULL }

  predicate IsMine(rs: Rs) {
    if rs.None? then false
    else if MpiRank(rs) == PROC_NULL then false
    else rs.value.comm.Me() == MpiRank(rs)
  }

  predicate HasRam(rs: Rs) { rs.Some? && !IsNull(rs) }

  function RamOf(rs: Rs): Outcome<Ram> {
    if HasRam(rs) then Returned(rs.value.ram) else Failed(OutOfRange)
  }

  /** A set of a rank hands out its RAM, and is this process's iff that is its rank in the set's communicator. */
  lemma SetIsOfItsRank(rs: Rs)
    ensures IsNull(rs) <==> rs == None || rs.value.rank == PROC_NULL
    ensures RamOf(rs) == if IsNull(rs) then Failed(OutOfRange) else Returned(rs.value.ram)
    ensures IsMine(rs) <==> !IsNull(rs) && rs.value.comm.Comm? && rs.value.comm.me == rs.value.rank
  {
  }

  /** `ResourceSet::operator==`: rank, RAM by size, communicator and logger. */
  predicate RsSame(a: Rs, b: Rs) {
    if IsNull(a) != IsNull(b) then false
    else if IsNull(a) then true
    else
      && a.value.rank == b.value.rank && RamSame(a.value.ram, b.value.ram)
      && a.value.comm.Same(b.value.comm) && a.value.logger == b.value.logger
  }

  /** Equal are null sets, and sets of one rank and one communicator with as much RAM and the same logger. */
  lemma RsSameIff(a: Rs, b: Rs)
    requires !IsNull(a) && !IsNull(b)
    ensures RsSame(a, b) <==>
              && a.value.rank == b.value.rank
              && TotalSpace(a.value.ram) == TotalSpace(b.value.ram)
              && (a.value.comm.Comm? <==> b.value.comm.Comm?)
              && (a.value.comm.Comm? && b.value.comm.Comm? ==> a.value.comm.handle == b.value.comm.handle)
              && a.value.logger == b.value.logger
  {
  }

  lemma NullSetsSame(a: Rs, b: Rs)
    requires IsNull(a) || IsNull(b)
    ensures RsSame(a, b) <==> IsNull(a) && IsNull(b)
  {
  }

  /** `get_ram_size()`. */
  const RAM_SIZE: nat := 10

  /** `make_resource_set(rank, comm, Logger())`. */
  function FreshState(rank: nat, comm: Comm): RsState {
    RsState(rank, Some(RamState(RAM_SIZE, rank, comm)), comm, NullLogger)
  }

  /** Equality tells the ranks of a communicator apart, and communicators from each other. */
  lemma FreshSame(i: nat, j: nat, a: Comm, b: Comm)
    requires a.Comm? && b.Comm? && i < a.size <= INT_MAX && j < b.size <= INT_MAX
    ensures RsSame(Some(FreshState(i, a)), Some(FreshState(j, b))) <==> i == j && a.handle == b.handle
  {
  }

  // ---------------------------------------------------------------------------
  // Counting
  // ---------------------------------------------------------------------------

  /** The number of ranks below `n` whose fresh RAM equals `ram`. */
  function Matching(comm: Comm, ram: Ram, n: nat): (r: nat)
    ensures r <= n
  {
    if n == 0 then 0
    else Matching(comm, ram, n - 1) + (if RamSame(FreshState(n - 1, comm).ram, ram) then 1 else 0)
  }

  /** Every rank has the same, hard-coded amount of RAM, so all match or none does. */
  lemma {:induction false} MatchingAllOrNone(comm: Comm, ram: Ram, n: nat)
    ensures Matching(comm, ram, n) == if TotalSpace(ram) == RAM_SIZE then n else 0
  {
    if n > 0 {
      MatchingAllOrNone(comm, ram, n - 1);
    }
  }

  /**
   * The RAM of one rank belongs to one resource set by the documentation of `count`. The code
   * counts all of them, and so is right on a single rank only.
   */
  lemma CountOfOneRam(comm: Comm, i: nat, n: nat)
    requires i < n
    ensures Matching(comm, FreshState(i, comm).ram, n) == n
    ensures (set j | 0 <= j < n && RamDocumented(FreshState(j, comm).ram, FreshState(i, comm).ram)) == {i}
    ensures Matching(comm, FreshState(i, comm).ram, n) == 1 <==> n == 1
  {
    MatchingAllOrNone(comm, FreshState(i, comm).ram, n);
  }

  /** Two ranks' RAM compares equal although the owners differ. */
  lemma RamOfTwoRanksSame(comm: Comm)
    ensures var a, b := FreshState(0, comm).ram, FreshState(1, comm).ram; RamSame(a, b) && !RamDocumented(a, b)
  {
  }

  /** The count is the size of the set of matching ranks. */
  lemma {:induction false} MatchingIsCardinality(comm: Comm, ram: Ram, n: nat)
    ensures Matching(comm, ram, n) == |set i | 0 <= i < n && RamSame(FreshState(i, comm).ram, ram)|
  {
    var here := set i | 0 <= i < n && RamSame(FreshState(i, comm).ram, ram);
    if n == 0 {
      assert here == {};
    } else {
      MatchingIsCardinality(comm, ram, n - 1);
      var before := set i | 0 <= i < n - 1 && RamSame(FreshState(i, comm).ram, ram);
      if RamSame(FreshState(n - 1, comm).ram, ram) {
        assert here == before + {n - 1};
      } else {
        assert here == before;
      }
    }
  }
}
