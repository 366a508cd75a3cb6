/**
 * N ranks inside `CommPPPIMPL::gather` and `gatherv`, as a transition system.
 *
 * Each rank walks through the collectives its call makes (one for gather; two for gatherv:
 * sizes, then data). The collectives of a communicator are matched in the order each rank
 * calls them. A rank that has entered a collective has posted its block; a rank that
 * receives writes posted blocks, in any order, at the displacement of their sender. A rank
 * that only sends may leave as soon as it has posted, and so may run ahead of its root.
 */
module Protocol {
  import opened Bytes
  import opened Outcomes

  /** The two `gather` overloads (own buffer, each rank's caller's buffer) and `gatherv`. */
  datatype Kind = GatherCall | GatherIntoCall(out: seq<seq<byte>>) | GathervCall

  /** One call on a communicator: what each rank passes as root and as data. */
  datatype Config = Config(kind: Kind, root: seq<Option<nat>>, data: seq<seq<byte>>) {

    function N(): nat { |data| }

    predicate Valid() {
      && 1 <= N()
      && |root| == N()
      && (kind.GatherIntoCall? ==> |kind.out| == N())
      && forall i :: 0 <= i < N() && root[i].Some? ==> root[i].value < N()
    }

    function Phases(): nat { if kind.GathervCall? then 2 else 1 }

    /** `am_i_root`, as rank `i` computes it. */
    predicate Receives(i: nat)
      requires Valid() && i < N()
    {
      root[i].None? || root[i].value == i
    }

    /** Rank `i` sends its block to rank `r`. */
    predicate SendsTo(i: nat, r: nat)
      requires Valid() && i < N()
    {
      root[i].None? || root[i].value == r
    }

    /** `int n_in = data.size()` on rank `i`. */
    function Count(i: nat): int
      requires i < N()
    {
      Narrow32(|data[i]|)
    }

    /** The bytes MPI takes from rank `i` when told to send `n_in` of them. */
    function Sent(i: nat): seq<byte>
      requires i < N()
    {
      if Count(i) < 0 then [] else data[i][..Count(i)]
    }

    /** What rank `i` contributes to collective `k`. */
    function Block(k: nat, i: nat): seq<byte>
      requires i < N()
    {
      if kind.GathervCall? && k == 0 then EncodeInt(Count(i)) else Sent(i)
    }

    /** All ranks pass the same root, or none does. */
    predicate RootsAgree()
      requires Valid()
    {
      forall i :: 0 <= i < N() ==> root[i] == root[0]
    }

    predicate SameLengths() {
      forall i, j :: 0 <= i < N() && 0 <= j < N() ==> |data[i]| == |data[j]|
    }

    /** What the documentation asks of the caller, and the capacity of `int`. */
    predicate Healthy()
      requires Valid()
    {
      match kind
      case GatherCall => SameLengths() && Sum(Lengths(data)) <= INT_MAX
      case GatherIntoCall(out) =>
        && SameLengths() && |data[0]| <= INT_MAX
        && forall r :: 0 <= r < N() && Receives(r) ==> Copies(N(), |data[r]|) <= |out[r]|
      case GathervCall => Sum(Lengths(data)) <= INT_MAX
    }
  }

  /** One rank: collectives completed, whether it is inside the next, and its receive buffer. */
  datatype Rank = Rank(
    phase: nat, inside: bool, faulted: bool,
    counts: seq<int>, buf: seq<byte>, arrived: set<nat>)

  /** A rank that has not begun the call. */
  const OUTSIDE: Rank := Rank(0, false, false, [], [], {})

  type State = seq<Rank>

  function Init(c: Config): State {
    seq(c.N(), _ => OUTSIDE)
  }

  datatype Action = Enter(rank: nat) | Deliver(from: nat, to: nat) | Leave(rank: nat)

  // ---------------------------------------------------------------------------
  // What one rank does
  // ---------------------------------------------------------------------------

  /** The receive counts rank `r` uses in the collective it enters. */
  function RecvCounts(c: Config, r: nat, st: Rank): seq<int>
    requires c.Valid() && r < c.N()
  {
    if c.kind.GathervCall? then
      if st.phase == 0 then seq(c.N(), _ => 4)
      else if |st.buf| == 4 * c.N() then DecodeInts(st.buf, c.N())
      else []
    else seq(c.N(), _ => c.Count(r))
  }

  /** Running totals of nonnegative counts that stay inside `int`. */
  predicate LayoutFits(counts: seq<int>) {
    (forall i :: 0 <= i < |counts| ==> 0 <= counts[i]) && Sum(counts) <= INT_MAX
  }

  /** The bytes rank `r` tells MPI to take from it, before they become an `int`. */
  function Asked(c: Config, r: nat, st: Rank): nat
    requires c.Valid() && r < c.N()
  {
    if c.kind.GathervCall? && st.phase == 0 then 4 else |c.data[r]|
  }

  /** The size of the buffer rank `r` brings to the collective it enters, as the code computes it. */
  function Allocated(c: Config, r: nat, st: Rank): int
    requires c.Valid() && r < c.N()
  {
    match c.kind
    case GatherCall => if c.Receives(r) then Narrow32(Copies(c.N(), |c.data[r]|)) else 0
    case GatherIntoCall(out) => |out[r]|
    case GathervCall =>
      if !c.Receives(r) then 0 else if st.phase == 0 then 4 * c.N() else Sum(RecvCounts(c, r, st))
  }

  /**
   * The code before the MPI call neither throws nor overflows, and MPI accepts the counts: the
   * buffer has a size, and a root's is large enough (for the data of gatherv, which has no such
   * guard, the running total stays in `int`).
   */
  predicate EnterOk(c: Config, r: nat, st: Rank)
    requires c.Valid() && r < c.N()
  {
    var size := Allocated(c, r, st);
    && (st.phase + 1 == c.Phases() ==> 0 <= c.Count(r))
    && (c.Receives(r) && c.kind.GathervCall? && st.phase == 1 ==> LayoutFits(RecvCounts(c, r, st)))
    && 0 <= size
    && (c.Receives(r) && !(c.kind.GathervCall? && st.phase == 1) ==> Copies(c.N(), Asked(c, r, st)) <= size)
  }

  /** A buffer of its own begins with zeros, the caller's as it was. */
  function Fresh(c: Config, r: nat, st: Rank): (buf: seq<byte>)
    requires c.Valid() && r < c.N() && 0 <= Allocated(c, r, st)
    ensures |buf| == Allocated(c, r, st)
  {
    if c.kind.GatherIntoCall? then c.kind.out[r] else seq(Allocated(c, r, st), _ => 0)
  }

  function EnterRank(c: Config, r: nat, st: Rank): Rank
    requires c.Valid() && r < c.N()
  {
    if !EnterOk(c, r, st) then st.(faulted := true)
    else if c.Receives(r) then
      st.(inside := true, arrived := {}, counts := RecvCounts(c, r, st), buf := Fresh(c, r, st))
    else
      st.(inside := true, arrived := {}, counts := [], buf := [])
  }

  /** Section 5.5 of MPI 3.1: amounts agree, the block fits, and no location is written twice. */
  predicate Accepts(i: nat, st: Rank, block: seq<byte>) {
    && i < |st.counts|
    && |block| == st.counts[i]
    && 0 <= Sum(st.counts[..i]) && Sum(st.counts[..i]) + |block| <= |st.buf|
    && forall j :: j in st.arrived && j < |st.counts| ==>
         || Sum(st.counts[..j]) + st.counts[j] <= Sum(st.counts[..i])
         || Sum(st.counts[..i]) + st.counts[i] <= Sum(st.counts[..j])
  }

  /** A block arrives from rank `i`. */
  function Accept(i: nat, st: Rank, block: seq<byte>): Rank {
    if !Accepts(i, st, block) then st.(faulted := true)
    else st.(buf := Write(st.buf, Sum(st.counts[..i]), block), arrived := st.arrived + {i})
  }

  predicate DeliverOk(c: Config, i: nat, st: Rank)
    requires i < c.N()
  {
    Accepts(i, st, c.Block(st.phase, i))
  }

  function DeliverRank(c: Config, i: nat, st: Rank): Rank
    requires i < c.N()
  {
    Accept(i, st, c.Block(st.phase, i))
  }

  function Everyone(c: Config): set<nat> { Below(c.N()) }

  // ---------------------------------------------------------------------------
  // Steps and runs
  // ---------------------------------------------------------------------------

  /** Rank `i` has handed MPI its block for collective `k`. */
  predicate Posted(s: State, i: nat, k: nat)
    requires i < |s|
  {
    k < s[i].phase || (k == s[i].phase && s[i].inside)
  }

  predicate Enabled(c: Config, s: State, a: Action)
    requires c.Valid() && |s| == c.N()
  {
    match a
    case Enter(i) => i < c.N() && !s[i].faulted && !s[i].inside && s[i].phase < c.Phases()
    case Deliver(i, r) =>
      && i < c.N() && r < c.N()
      && !s[r].faulted && s[r].inside && c.Receives(r) && i !in s[r].arrived
      && c.SendsTo(i, r) && Posted(s, i, s[r].phase)
    case Leave(i) =>
      && i < c.N() && !s[i].faulted && s[i].inside
      && (c.Receives(i) ==> s[i].arrived == Everyone(c))
  }

  function Next(c: Config, s: State, a: Action): (s': State)
    requires c.Valid() && |s| == c.N() && Enabled(c, s, a)
    ensures |s'| == |s|
  {
    match a
    case Enter(i) => s[i := EnterRank(c, i, s[i])]
    case Deliver(i, r) => s[r := DeliverRank(c, i, s[r])]
    case Leave(i) => s[i := s[i].(phase := s[i].phase + 1, inside := false)]
  }

  /** The state after a run; `None` when some action was not enabled at its turn. */
  function Exec(c: Config, acts: seq<Action>): (r: Option<State>)
    requires c.Valid()
    ensures r.Some? ==> |r.value| == c.N()
  {
    if acts == [] then Some(Init(c))
    else
      var last := |acts| - 1;
      match Exec(c, acts[..last])
      case None => None
      case Some(s) => if Enabled(c, s, acts[last]) then Some(Next(c, s, acts[last])) else None
  }

  predicate Finished(c: Config, st: Rank) {
    !st.faulted && !st.inside && st.phase == c.Phases()
  }

  /** What the call returns on rank `r`: a buffer and the bytes per rank, if it is a root. */
  function Result(c: Config, s: State, r: nat): Option<(seq<byte>, seq<int>)>
    requires c.Valid() && |s| == c.N() && r < c.N()
  {
    if c.Receives(r) then Some((s[r].buf, s[r].counts)) else None
  }
}
