/** What every interleaving of `gather` and `gatherv` keeps, and what a root that returns holds. */
module ProtocolSafety {
  import opened Bytes
  import opened Outcomes
  import opened Protocol

  function AllCounts(c: Config): (r: seq<int>)
    ensures |r| == c.N()
  {
    seq(c.N(), i requires 0 <= i < c.N() => c.Count(i))
  }

  function AllSent(c: Config): (r: seq<seq<byte>>)
    ensures |r| == c.N()
  {
    seq(c.N(), i requires 0 <= i < c.N() => c.Sent(i))
  }

  /** The counts rank `r` must be using in collective `k`. */
  function Expected(c: Config, k: nat, r: nat): (e: seq<int>)
    requires c.Valid() && r < c.N()
    ensures |e| == c.N()
  {
    if !c.kind.GathervCall? then seq(c.N(), _ => c.Count(r))
    else if k == 0 then seq(c.N(), _ => 4)
    else AllCounts(c)
  }

  /** Rank `j`'s block of collective `k` lies in the receive buffer, at `j`'s displacement. */
  predicate Placed(c: Config, k: nat, counts: seq<int>, buf: seq<byte>, j: nat)
    requires j < c.N() && j < |counts|
  {
    |c.Block(k, j)| == counts[j] && CarriesAt(buf, Sum(counts[..j]), c.Block(k, j))
  }

  /** The size of the receive buffer, once the code got past its checks. */
  function AllocSize(c: Config, r: nat, counts: seq<int>): int
    requires c.Valid() && r < c.N()
  {
    if c.kind.GatherIntoCall? then |c.kind.out[r]| else Sum(counts)
  }

  /** The receive buffer as allocated for collective `k`; what no rank writes stays as it was. */
  predicate Layout(c: Config, k: nat, r: nat, counts: seq<int>, buf: seq<byte>)
    requires c.Valid() && r < c.N()
  {
    && counts == Expected(c, k, r)
    && (forall j :: 0 <= j < |counts| ==> 0 <= counts[j])
    && |buf| == AllocSize(c, r, counts) && 0 <= Sum(counts) <= |buf|
    && (c.kind.GatherCall? ==> Copies(c.N(), |c.data[r]|) <= INT_MAX)
    && (c.kind.GathervCall? && k == 1 ==> Sum(counts) <= INT_MAX)
    && (c.kind.GatherIntoCall? ==> Copies(c.N(), |c.data[r]|) <= |buf|)
    && (c.kind.GatherIntoCall? ==> forall p :: Sum(counts) <= p < |buf| ==> buf[p] == c.kind.out[r][p])
  }

  /** Laid out, and right wherever a block has arrived. */
  predicate Shape(c: Config, k: nat, r: nat, counts: seq<int>, buf: seq<byte>, arrived: set<nat>)
    requires c.Valid() && r < c.N()
  {
    && Layout(c, k, r, counts, buf)
    && forall j :: j in arrived ==> j < c.N() && Placed(c, k, counts, buf, j)
  }

  predicate RankInv(c: Config, r: nat, st: Rank)
    requires c.Valid() && r < c.N()
  {
    && st.phase <= c.Phases()
    && (st.inside || st.faulted ==> st.phase < c.Phases())
    && st.arrived <= Everyone(c)
    && (!st.faulted && st.inside && c.Receives(r) ==> Shape(c, st.phase, r, st.counts, st.buf, st.arrived))
    && (!st.faulted && !st.inside && 0 < st.phase && c.Receives(r) ==>
          Shape(c, st.phase - 1, r, st.counts, st.buf, st.arrived) && st.arrived == Everyone(c))
    && (st.inside || 0 < st.phase ==> !c.Receives(r) ==> st.buf == [] && st.counts == [])
    && (st.phase == c.Phases() ==> 0 <= c.Count(r))
    && (st.inside && st.phase + 1 == c.Phases() ==> 0 <= c.Count(r))
  }

  predicate Inv(c: Config, s: State)
    requires c.Valid()
  {
    |s| == c.N() && forall r :: 0 <= r < c.N() ==> RankInv(c, r, s[r])
  }

  function Blocks(c: Config, k: nat): (r: seq<seq<byte>>)
    ensures |r| == c.N()
  {
    seq(c.N(), i requires 0 <= i < c.N() => c.Block(k, i))
  }

  lemma EveryonePlaced(c: Config, k: nat, r: nat, counts: seq<int>, buf: seq<byte>)
    requires c.Valid() && r < c.N() && Shape(c, k, r, counts, buf, Everyone(c))
    ensures forall j :: 0 <= j < c.N() ==> Placed(c, k, counts, buf, j)
  {
    forall j | 0 <= j < c.N()
      ensures Placed(c, k, counts, buf, j)
    {
      assert j in Everyone(c);
    }
  }

  /** Blocks placed at the prefix sums of their lengths make up their concatenation. */
  lemma PlacedBlocks(c: Config, k: nat, counts: seq<int>, buf: seq<byte>)
    requires |counts| == c.N() && forall j :: 0 <= j < |counts| ==> 0 <= counts[j]
    requires 0 <= Sum(counts) <= |buf|
    requires forall j :: 0 <= j < c.N() ==> Placed(c, k, counts, buf, j)
    ensures Lengths(Blocks(c, k)) == counts
    ensures buf[..Sum(counts)] == Flatten(Blocks(c, k))
  {
    var blocks := Blocks(c, k);
    assert Lengths(blocks) == counts by {
      forall j | 0 <= j < c.N() ensures |blocks[j]| == counts[j] {
        assert Placed(c, k, counts, buf, j);
      }
    }
    assert CarriesAll(buf, blocks, counts) by {
      forall i | 0 <= i < |blocks|
        ensures CarriesAt(buf, Sum(counts[..i]), blocks[i])
      {
        assert Placed(c, k, counts, buf, i);
      }
    }
    FlattenPrefix(blocks, counts, buf, Sum(counts));
  }

  /** A complete buffer starts with the blocks, in rank order. */
  lemma CompleteBuffer(c: Config, k: nat, r: nat, counts: seq<int>, buf: seq<byte>)
    requires c.Valid() && r < c.N() && Shape(c, k, r, counts, buf, Everyone(c))
    ensures Lengths(Blocks(c, k)) == counts
    ensures buf[..Sum(counts)] == Flatten(Blocks(c, k))
  {
    EveryonePlaced(c, k, r, counts, buf);
    PlacedBlocks(c, k, counts, buf);
  }

  lemma SizeGathered(c: Config, counts: seq<int>, buf: seq<byte>, i: nat)
    requires c.kind.GathervCall? && i < c.N() && |counts| == c.N() && |buf| == 4 * c.N()
    requires forall j :: 0 <= j < |counts| ==> counts[j] == 4
    requires Placed(c, 0, counts, buf, i)
    ensures DecodeInt(buf[4 * i..4 * i + 4]) == c.Count(i)
  {
    SumConstant(counts[..i], 4);
    EncodeIntRoundTrip(c.Count(i));
  }

  lemma SizesDecoded(c: Config, counts: seq<int>, buf: seq<byte>)
    requires c.kind.GathervCall? && |counts| == c.N() && |buf| == 4 * c.N()
    requires forall j :: 0 <= j < |counts| ==> counts[j] == 4
    requires forall j :: 0 <= j < c.N() ==> Placed(c, 0, counts, buf, j)
    ensures DecodeInts(buf, c.N()) == AllCounts(c)
  {
    var sizes := DecodeInts(buf, c.N());
    forall i | 0 <= i < c.N()
      ensures sizes[i] == c.Count(i)
    {
      SizeGathered(c, counts, buf, i);
    }
  }

  lemma SizeBuffer(c: Config, r: nat, counts: seq<int>, buf: seq<byte>)
    requires c.Valid() && r < c.N() && c.kind.GathervCall? && Layout(c, 0, r, counts, buf)
    ensures |buf| == 4 * c.N() && forall j :: 0 <= j < |counts| ==> counts[j] == 4
  {
    SumConstant(counts, 4);
  }

  /** The first collective of gatherv leaves every rank's `n_in` in the root's `sizes`. */
  lemma SizesGathered(c: Config, r: nat, counts: seq<int>, buf: seq<byte>)
    requires c.Valid() && r < c.N() && c.kind.GathervCall?
    requires Shape(c, 0, r, counts, buf, Everyone(c))
    ensures |buf| == 4 * c.N() && DecodeInts(buf, c.N()) == AllCounts(c)
  {
    SizeBuffer(c, r, counts, buf);
    EveryonePlaced(c, 0, r, counts, buf);
    SizesDecoded(c, counts, buf);
  }

  lemma SizesReceived(c: Config, r: nat, st: Rank)
    requires c.Valid() && c.kind.GathervCall? && r < c.N()
    requires Shape(c, 0, r, st.counts, st.buf, Everyone(c)) && st.phase == 1
    ensures RecvCounts(c, r, st) == AllCounts(c)
  {
    SizesGathered(c, r, st.counts, st.buf);
  }

  /** What the code allocates, once past its checks, is the room its receive counts need. */
  lemma AllocatedIsAllocSize(c: Config, r: nat, st: Rank)
    requires c.Valid() && r < c.N() && c.Receives(r) && EnterOk(c, r, st) && st.phase < c.Phases()
    ensures var counts := RecvCounts(c, r, st);
            && Allocated(c, r, st) == AllocSize(c, r, counts)
            && (!c.kind.GathervCall? ==> 0 <= Sum(counts) <= Copies(c.N(), |c.data[r]|))
            && (c.kind.GatherCall? ==> Copies(c.N(), |c.data[r]|) <= INT_MAX)
  {
    var counts := RecvCounts(c, r, st);
    if c.kind.GathervCall? {
      if st.phase == 0 {
        SumConstant(counts, 4);
      }
    } else {
      CopiesMonotone(c.N(), |c.data[r]|, |c.data[r]|);
      CopiesMonotone(c.N(), c.Count(r), |c.data[r]|);
      SumCopies(counts, c.Count(r));
      SumNonNeg(counts);
    }
  }

  /** A root enters with its buffer laid out. */
  lemma EnterLayout(c: Config, r: nat, st: Rank)
    requires c.Valid() && r < c.N() && RankInv(c, r, st) && c.Receives(r) && EnterOk(c, r, st)
    requires !st.faulted && !st.inside && st.phase < c.Phases()
    ensures var st' := EnterRank(c, r, st); Layout(c, st.phase, r, st'.counts, st'.buf)
  {
    var counts := RecvCounts(c, r, st);
    if c.kind.GathervCall? && st.phase == 1 {
      SizesReceived(c, r, st);
    }
    assert counts == Expected(c, st.phase, r);
    SumNonNeg(counts);
    AllocatedIsAllocSize(c, r, st);
  }

  lemma EnterKeeps(c: Config, r: nat, st: Rank)
    requires c.Valid() && r < c.N() && RankInv(c, r, st)
    requires !st.faulted && !st.inside && st.phase < c.Phases()
    ensures RankInv(c, r, EnterRank(c, r, st))
  {
    if EnterOk(c, r, st) && c.Receives(r) {
      EnterLayout(c, r, st);
    }
  }

  lemma DeliverKeeps(c: Config, i: nat, r: nat, st: Rank)
    requires c.Valid() && r < c.N() && i < c.N() && RankInv(c, r, st)
    requires !st.faulted && st.inside && c.Receives(r) && i !in st.arrived
    ensures RankInv(c, r, DeliverRank(c, i, st))
  {
    if DeliverOk(c, i, st) {
      var st' := DeliverRank(c, i, st);
      var off := Sum(st.counts[..i]);
      var block := c.Block(st.phase, i);
      forall j | j in st'.arrived
        ensures j < c.N() && Placed(c, st.phase, st'.counts, st'.buf, j)
      {
        if j != i {
          WriteKeeps(st.buf, off, block, Sum(st.counts[..j]), c.Block(st.phase, j));
        }
      }
      SumBounds(st.counts, i);
    }
  }

  lemma LeaveKeeps(c: Config, i: nat, st: Rank)
    requires c.Valid() && i < c.N() && RankInv(c, i, st)
    requires !st.faulted && st.inside && (c.Receives(i) ==> st.arrived == Everyone(c))
    ensures RankInv(c, i, st.(phase := st.phase + 1, inside := false))
  {
  }

  lemma InvUpdate(c: Config, s: State, i: nat, st: Rank)
    requires c.Valid() && Inv(c, s) && i < c.N() && RankInv(c, i, st)
    ensures Inv(c, s[i := st])
  {
  }

  lemma StepKeeps(c: Config, s: State, a: Action)
    requires c.Valid() && Inv(c, s) && Enabled(c, s, a)
    ensures Inv(c, Next(c, s, a))
  {
    match a
    case Enter(i) =>
      assert RankInv(c, i, s[i]);
      EnterKeeps(c, i, s[i]);
      InvUpdate(c, s, i, EnterRank(c, i, s[i]));
    case Deliver(i, r) =>
      assert RankInv(c, r, s[r]);
      DeliverKeeps(c, i, r, s[r]);
      InvUpdate(c, s, r, DeliverRank(c, i, s[r]));
    case Leave(i) =>
      assert RankInv(c, i, s[i]);
      LeaveKeeps(c, i, s[i]);
      InvUpdate(c, s, i, s[i].(phase := s[i].phase + 1, inside := false));
  }

  /** The invariant holds after every run, whatever the roots, the data and the interleaving. */
  lemma {:induction false} InvAlways(c: Config, acts: seq<Action>)
    requires c.Valid() && Exec(c, acts).Some?
    ensures Inv(c, Exec(c, acts).value)
  {
    if acts != [] {
      var last := |acts| - 1;
      InvAlways(c, acts[..last]);
      StepKeeps(c, Exec(c, acts[..last]).value, acts[last]);
    }
  }

  // ---------------------------------------------------------------------------
  // What a rank that returns holds
  // ---------------------------------------------------------------------------

  lemma LastBlocks(c: Config)
    ensures Blocks(c, c.Phases() - 1) == AllSent(c)
  {
  }

  /** A finished root: laid out for the data, with the bytes sent in rank order at the front. */
  lemma FinishedRoot(c: Config, r: nat, st: Rank)
    requires c.Valid() && r < c.N() && c.Receives(r) && RankInv(c, r, st) && Finished(c, st)
    ensures Layout(c, c.Phases() - 1, r, st.counts, st.buf)
    ensures Lengths(AllSent(c)) == st.counts
    ensures st.buf[..Sum(st.counts)] == Flatten(AllSent(c))
  {
    LastBlocks(c);
    assert Shape(c, c.Phases() - 1, r, st.counts, st.buf, Everyone(c));
    CompleteBuffer(c, c.Phases() - 1, r, st.counts, st.buf);
  }

  /** The int conversions of the lengths lose nothing exactly when the lengths sum to an int. */
  lemma ExactIffFits(c: Config)
    requires c.Valid() && LayoutFits(AllCounts(c))
    requires Lengths(AllSent(c)) == AllCounts(c)
    ensures Flatten(AllSent(c)) == Flatten(c.data) <==> Sum(Lengths(c.data)) <= INT_MAX
    ensures Sum(Lengths(c.data)) <= INT_MAX ==> AllCounts(c) == Lengths(c.data)
  {
    FlattenLength(AllSent(c));
    FlattenLength(c.data);
    if Sum(Lengths(c.data)) <= INT_MAX {
      AllFit(c);
      assert AllSent(c) == c.data;
    }
  }

  lemma AllFit(c: Config)
    requires c.Valid() && Sum(Lengths(c.data)) <= INT_MAX
    ensures forall i :: 0 <= i < c.N() ==> |c.data[i]| <= INT_MAX && c.Count(i) == |c.data[i]| && c.Sent(i) == c.data[i]
  {
    forall i | 0 <= i < c.N()
      ensures |c.data[i]| <= INT_MAX
    {
      SumBounds(Lengths(c.data), i);
    }
  }

  /** Blocks no shorter than the root's: the first `m` bytes of each are everything iff all are `m` long. */
  lemma ExactIffSameLengths(c: Config, m: nat)
    requires c.Valid() && forall i :: 0 <= i < c.N() ==> |c.Sent(i)| == m
    requires exists r :: 0 <= r < c.N() && |c.data[r]| == m
    ensures Flatten(AllSent(c)) == Flatten(c.data) <==> c.SameLengths()
  {
    FlattenLength(AllSent(c));
    FlattenLength(c.data);
    SumCopies(Lengths(AllSent(c)), m);
    forall i | 0 <= i < c.N()
      ensures m <= Lengths(c.data)[i]
    {
      assert |c.Sent(i)| <= |c.data[i]|;
    }
    SameTotalSameLengths(Lengths(c.data), m);
    if c.SameLengths() {
      forall i | 0 <= i < c.N()
        ensures c.Sent(i) == c.data[i]
      {
        assert |c.data[i]| == m;
      }
      assert AllSent(c) == c.data;
    }
    if Flatten(AllSent(c)) == Flatten(c.data) {
      forall i | 0 <= i < c.N()
        ensures |c.data[i]| == m
      {
        assert Lengths(c.data)[i] == m;
      }
    }
  }

  /** Lengths bounded below by `m` whose total is that of as many copies of `m` are all `m`. */
  lemma {:induction false} SameTotalSameLengths(xs: seq<int>, m: int)
    requires forall i :: 0 <= i < |xs| ==> m <= xs[i]
    ensures Copies(|xs|, m) <= Sum(xs)
    ensures Sum(xs) == Copies(|xs|, m) ==> forall i :: 0 <= i < |xs| ==> xs[i] == m
  {
    if xs != [] {
      var last := |xs| - 1;
      SameTotalSameLengths(xs[..last], m);
      if Sum(xs) == Copies(|xs|, m) {
        forall i | 0 <= i < |xs|
          ensures xs[i] == m
        {
          assert i < last ==> xs[..last][i] == m;
        }
      }
    }
  }

  ghost predicate ReturnedOn(c: Config, acts: seq<Action>, r: nat)
    requires c.Valid()
  {
    r < c.N() && Exec(c, acts).Some? && Finished(c, Exec(c, acts).value[r])
  }

  lemma RootHolds(c: Config, acts: seq<Action>, r: nat)
    requires c.Valid() && ReturnedOn(c, acts, r) && c.Receives(r)
    ensures var st := Exec(c, acts).value[r];
            && Layout(c, c.Phases() - 1, r, st.counts, st.buf)
            && Lengths(AllSent(c)) == st.counts
            && st.buf[..Sum(st.counts)] == Flatten(AllSent(c))
  {
    InvAlways(c, acts);
    assert RankInv(c, r, Exec(c, acts).value[r]);
    FinishedRoot(c, r, Exec(c, acts).value[r]);
  }

  /** What a rank sends: as many bytes from the front of its data as the length has once it is an `int`. */
  lemma SentIsFront(c: Config, i: nat)
    requires i < c.N()
    ensures |c.data[i]| <= INT_MAX ==> AllCounts(c)[i] == |c.data[i]| && AllSent(c)[i] == c.data[i]
    ensures (|c.data[i]| - AllCounts(c)[i]) % TWO_32 == 0 && -INT_MAX - 1 <= AllCounts(c)[i] <= INT_MAX
    ensures 0 <= AllCounts(c)[i] ==>
              AllCounts(c)[i] <= |c.data[i]| && AllSent(c)[i] == c.data[i][..AllCounts(c)[i]]
  {
  }

  /**
   * gatherv, for every choice of roots, all data and every interleaving: a root that returns
   * holds the rank-order concatenation of the bytes sent and the number each rank sent.
   * That is the concatenation of the inputs, with their lengths, iff those lengths sum to an int.
   */
  lemma GathervReturns(c: Config, acts: seq<Action>, r: nat)
    requires c.Valid() && c.kind.GathervCall? && ReturnedOn(c, acts, r) && c.Receives(r)
    ensures LayoutFits(AllCounts(c))
    ensures var result := Result(c, Exec(c, acts).value, r);
            && result == Some((Flatten(AllSent(c)), AllCounts(c)))
            && (result == Some((Flatten(c.data), Lengths(c.data))) <==> Sum(Lengths(c.data)) <= INT_MAX)
  {
    RootHolds(c, acts, r);
    var st := Exec(c, acts).value[r];
    assert st.buf[..|st.buf|] == st.buf;
    ExactIffFits(c);
  }

  /**
   * gather into its own buffer: a root that returns holds the concatenation of the bytes sent,
   * all blocks being as long as its own; that is the concatenation of the inputs iff the
   * inputs have one length.
   */
  lemma GatherReturns(c: Config, acts: seq<Action>, r: nat)
    requires c.Valid() && c.kind.GatherCall? && ReturnedOn(c, acts, r) && c.Receives(r)
    ensures var buf := Exec(c, acts).value[r].buf;
            && buf == Flatten(AllSent(c))
            && |buf| == Copies(c.N(), |c.data[r]|) <= INT_MAX
            && (buf == Flatten(c.data) <==> c.SameLengths())
  {
    RootHolds(c, acts, r);
    var st := Exec(c, acts).value[r];
    assert st.buf[..|st.buf|] == st.buf;
    CopiesMonotone(c.N(), |c.data[r]|, |c.data[r]|);
    SumCopies(st.counts, |c.data[r]|);
    forall i | 0 <= i < c.N()
      ensures |c.Sent(i)| == |c.data[r]|
    {
      assert |AllSent(c)[i]| == st.counts[i] == c.Count(r);
    }
    ExactIffSameLengths(c, |c.data[r]|);
  }

  lemma TailKept(buf: seq<byte>, out: seq<byte>, n: int)
    requires |buf| == |out| && 0 <= n <= |buf| && forall p :: n <= p < |buf| ==> buf[p] == out[p]
    ensures buf == buf[..n] + out[n..]
  {
  }

  /**
   * gather into a buffer of the caller's, of any size and content: a root that returns finds the
   * bytes sent and behind them what was there before; the bytes sent are the inputs whenever
   * these have one length and it is an int.
   */
  lemma GatherIntoReturns(c: Config, acts: seq<Action>, r: nat)
    requires c.Valid() && c.kind.GatherIntoCall? && ReturnedOn(c, acts, r) && c.Receives(r)
    ensures var buf := Exec(c, acts).value[r].buf;
            var out, sent := c.kind.out[r], Flatten(AllSent(c));
            && Copies(c.N(), |c.data[r]|) <= |out| && |sent| <= |out|
            && buf == sent + out[|sent|..]
            && (c.SameLengths() && |c.data[r]| <= INT_MAX ==> sent == Flatten(c.data))
  {
    RootHolds(c, acts, r);
    var st := Exec(c, acts).value[r];
    FlattenLength(AllSent(c));
    TailKept(st.buf, c.kind.out[r], Sum(st.counts));
    if c.SameLengths() && |c.data[r]| <= INT_MAX {
      forall i | 0 <= i < c.N()
        ensures c.Sent(i) == c.data[i]
      {
        assert |c.data[i]| == |c.data[r]|;
      }
      assert AllSent(c) == c.data;
    }
  }

  // ---------------------------------------------------------------------------
  // Section 5.5 of MPI 3.1 is respected, and nothing throws or overflows
  // ---------------------------------------------------------------------------

  predicate Faultless(s: State) {
    forall r :: 0 <= r < |s| ==> !s[r].faulted
  }

  lemma HealthyFits(c: Config)
    requires c.Valid() && c.Healthy()
    ensures forall i :: 0 <= i < c.N() ==> |c.data[i]| <= INT_MAX && c.Sent(i) == c.data[i]
    ensures forall i :: 0 <= i < c.N() ==> c.Count(i) == |c.data[i]|
  {
    if !c.kind.GatherIntoCall? {
      AllFit(c);
    }
  }

  /** Every rank sends as many bytes as rank `r` expects of each. */
  predicate SameCounts(c: Config, r: nat)
    requires r < c.N()
  {
    forall i :: 0 <= i < c.N() ==> c.Count(i) == c.Count(r)
  }

  /** The counts suit rank `r`, its buffer is large enough, and what it computes stays in `int`. */
  predicate FitsOn(c: Config, r: nat)
    requires c.Valid() && r < c.N()
  {
    match c.kind
    case GatherCall => SameCounts(c, r) && Copies(c.N(), |c.data[r]|) <= INT_MAX
    case GatherIntoCall(out) => SameCounts(c, r) && Copies(c.N(), |c.data[r]|) <= |out[r]|
    case GathervCall => Sum(AllCounts(c)) <= INT_MAX
  }

  /** What a call needs so that nothing goes wrong on any rank: of the counts, not of the lengths they come from. */
  predicate Fits(c: Config)
    requires c.Valid()
  {
    && (forall i :: 0 <= i < c.N() ==> 0 <= c.Count(i))
    && forall r :: 0 <= r < c.N() && c.Receives(r) ==> FitsOn(c, r)
  }

  lemma HealthyIsFit(c: Config)
    requires c.Valid() && c.Healthy()
    ensures Fits(c)
  {
    HealthyFits(c);
    forall r | 0 <= r < c.N() && c.Receives(r)
      ensures FitsOn(c, r)
    {
      if c.kind.GatherCall? {
        SumCopies(Lengths(c.data), |c.data[r]|);
      } else if c.kind.GathervCall? {
        assert AllCounts(c) == Lengths(c.data);
      }
    }
  }

  lemma FitLayout(c: Config, r: nat)
    requires c.Valid() && c.kind.GathervCall? && r < c.N() && FitsOn(c, r)
    requires forall i :: 0 <= i < c.N() ==> 0 <= c.Count(i)
    ensures LayoutFits(AllCounts(c)) && 0 <= Sum(AllCounts(c))
  {
    SumNonNeg(AllCounts(c));
  }

  /** In the second collective of gatherv the root's counts are those of all ranks. */
  lemma DataCounts(c: Config, r: nat, st: Rank)
    requires c.Valid() && r < c.N() && RankInv(c, r, st) && c.Receives(r) && c.kind.GathervCall?
    requires !st.faulted && !st.inside && st.phase == 1
    ensures RecvCounts(c, r, st) == AllCounts(c)
  {
    SizesReceived(c, r, st);
  }

  lemma FitEnters(c: Config, r: nat, st: Rank)
    requires c.Valid() && Fits(c) && r < c.N() && RankInv(c, r, st)
    requires !st.faulted && !st.inside && st.phase < c.Phases()
    ensures EnterOk(c, r, st)
  {
    if c.Receives(r) {
      if !c.kind.GathervCall? {
        CopiesMonotone(c.N(), |c.data[r]|, |c.data[r]|);
      } else if st.phase == 0 {
        CopiesIsProduct(c.N(), 4);
      } else {
        DataCounts(c, r, st);
        FitLayout(c, r);
      }
    }
  }

  /** Blocks placed by prefix sums are accepted, each once, in any order. */
  lemma TiledAccepts(i: nat, st: Rank, block: seq<byte>)
    requires i < |st.counts| && |block| == st.counts[i] && i !in st.arrived
    requires forall j :: 0 <= j < |st.counts| ==> 0 <= st.counts[j]
    requires Sum(st.counts) <= |st.buf|
    ensures Accepts(i, st, block)
  {
    var counts := st.counts;
    SumBounds(counts, i);
    forall j | j in st.arrived && j < |counts|
      ensures Sum(counts[..j]) + counts[j] <= Sum(counts[..i]) || Sum(counts[..i]) + counts[i] <= Sum(counts[..j])
    {
      if i < j {
        PrefixSumsOrdered(counts, i, j);
      } else {
        PrefixSumsOrdered(counts, j, i);
      }
    }
  }

  lemma FitDelivers(c: Config, i: nat, r: nat, st: Rank)
    requires c.Valid() && Fits(c) && r < c.N() && i < c.N() && RankInv(c, r, st)
    requires !st.faulted && st.inside && c.Receives(r) && i !in st.arrived
    ensures DeliverOk(c, i, st)
  {
    assert Layout(c, st.phase, r, st.counts, st.buf);
    assert |c.Block(st.phase, i)| == st.counts[i];
    TiledAccepts(i, st, c.Block(st.phase, i));
  }

  /**
   * When the counts fit, no rank is ever faulted, in any run: every amount agrees, every block
   * fits, nothing is written twice, no buffer is too small and no int overflows. The roots need
   * not agree.
   */
  lemma {:induction false} NeverFaults(c: Config, acts: seq<Action>)
    requires c.Valid() && Fits(c) && Exec(c, acts).Some?
    ensures Faultless(Exec(c, acts).value)
  {
    if acts != [] {
      var last := |acts| - 1;
      NeverFaults(c, acts[..last]);
      InvAlways(c, acts[..last]);
      var s := Exec(c, acts[..last]).value;
      match acts[last]
      case Enter(i) =>
        assert RankInv(c, i, s[i]);
        FitEnters(c, i, s[i]);
      case Deliver(i, r) =>
        assert RankInv(c, r, s[r]);
        FitDelivers(c, i, r, s[r]);
      case Leave(i) =>
    }
  }
}
