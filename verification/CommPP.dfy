/**
 * One rank's side of the collectives: the local code of `CommPPPIMPL`, with MPI as its environment.
 *
 * The other ranks' side of a call is a `Config`; the order in which their blocks arrive is an
 * argument too. Each method is tied to the value the transition system of `Protocol` assigns
 * to the same rank, which no interleaving changes.
 */
module CommPP {
  import opened Bytes
  import opened Outcomes
  import opened Protocol
  import opened ProtocolSafety

  /** Every rank's block arrives. */
  predicate IsOrder(order: seq<nat>, n: nat) {
    && (forall k :: 0 <= k < |order| ==> order[k] < n)
    && (forall i :: 0 <= i < n ==> i in order)
  }

  /** What section 5.5 of MPI 3.1 asks of a root: counts agree, blocks fit, no location written twice. */
  predicate RootArguments(blocks: seq<seq<byte>>, counts: seq<int>, disps: seq<int>, size: nat) {
    && |counts| == |blocks| && |disps| == |blocks|
    && (forall i :: 0 <= i < |blocks| ==> counts[i] == |blocks[i]| && 0 <= disps[i] && disps[i] + counts[i] <= size)
    && (forall i, j :: 0 <= i < j < |blocks| ==> disps[i] + counts[i] <= disps[j] || disps[j] + counts[j] <= disps[i])
  }

  /** No rank's block covers position `p`. */
  predicate Outside(p: int, counts: seq<int>, disps: seq<int>)
    requires |counts| == |disps|
  {
    forall i :: 0 <= i < |counts| ==> p < disps[i] || disps[i] + counts[i] <= p
  }

  /** MPI_Gatherv on the root: blocks are written in arrival order, each at its displacement. */
  method MpiGatherv(blocks: seq<seq<byte>>, order: seq<nat>, recv: array<byte>, counts: seq<int>, disps: seq<int>)
    requires IsOrder(order, |blocks|)
    requires RootArguments(blocks, counts, disps, recv.Length)
    modifies recv
    ensures forall i :: 0 <= i < |blocks| ==> CarriesAt(recv[..], disps[i], blocks[i])
    ensures forall p :: 0 <= p < recv.Length && Outside(p, counts, disps) ==> recv[p] == old(recv[p])
  {
    for k := 0 to |order|
      invariant forall i :: 0 <= i < |blocks| && i in order[..k] ==> CarriesAt(recv[..], disps[i], blocks[i])
      invariant forall p :: 0 <= p < recv.Length && Outside(p, counts, disps) ==> recv[p] == old(recv[p])
    {
      var i := order[k];
      ghost var before := recv[..];
      PutBlock(recv, disps[i], blocks[i]);
      assert order[..k + 1] == order[..k] + [i];
      forall j | 0 <= j < |blocks| && j in order[..k + 1]
        ensures CarriesAt(recv[..], disps[j], blocks[j])
      {
        if j != i {
          WriteKeeps(before, disps[i], blocks[i], disps[j], blocks[j]);
        }
      }
    }
    assert order[..|order|] == order;
  }

  method PutBlock(recv: array<byte>, off: nat, block: seq<byte>)
    requires off + |block| <= recv.Length
    modifies recv
    ensures recv[..] == Write(old(recv[..]), off, block)
  {
    forall p | 0 <= p < |block| {
      recv[off + p] := block[p];
    }
  }

  function PrefixSums(counts: seq<int>): (d: seq<int>)
    ensures |d| == |counts|
    ensures forall i :: 0 <= i < |d| ==> d[i] == Sum(counts[..i])
  {
    seq(|counts|, i requires 0 <= i < |counts| => Sum(counts[..i]))
  }

  /** Displacements by prefix sums tile the front of the buffer, so they are what MPI asks for. */
  lemma PrefixSumsAreRootArguments(blocks: seq<seq<byte>>, size: nat)
    requires Sum(Lengths(blocks)) <= size
    ensures RootArguments(blocks, Lengths(blocks), PrefixSums(Lengths(blocks)), size)
  {
    var counts := Lengths(blocks);
    forall i | 0 <= i < |blocks|
      ensures 0 <= Sum(counts[..i]) && Sum(counts[..i]) + counts[i] <= size
    {
      SumBounds(counts, i);
    }
    forall i, j | 0 <= i < j < |blocks|
      ensures Sum(counts[..i]) + counts[i] <= Sum(counts[..j])
    {
      PrefixSumsOrdered(counts, i, j);
    }
  }

  /** Position `p` lies in the interval of rank `i`. */
  predicate Covers(counts: seq<int>, i: nat, p: int)
    requires i < |counts|
  {
    Sum(counts[..i]) <= p < Sum(counts[..i]) + counts[i]
  }

  lemma {:induction false} SomeTile(counts: seq<int>, p: int) returns (i: nat)
    requires forall k :: 0 <= k < |counts| ==> 0 <= counts[k]
    requires 0 <= p < Sum(counts)
    ensures i < |counts| && Covers(counts, i, p)
  {
    var last := |counts| - 1;
    if Sum(counts[..last]) <= p {
      i := last;
    } else {
      i := SomeTile(counts[..last], p);
      assert counts[..last][..i] == counts[..i];
    }
  }

  /**
   * The intervals of the ranks tile the gathered bytes: a position lies in the interval of some
   * rank iff it is before the total, and then in that of one rank only. Empty blocks cover nothing.
   */
  lemma PrefixSumsTile(counts: seq<int>, p: int)
    requires forall k :: 0 <= k < |counts| ==> 0 <= counts[k]
    ensures 0 <= p < Sum(counts) <==> exists i: nat :: i < |counts| && Covers(counts, i, p)
    ensures forall i: nat, j: nat :: i < |counts| && j < |counts| ==>
              Covers(counts, i, p) && Covers(counts, j, p) ==> i == j
  {
    if 0 <= p < Sum(counts) {
      var i := SomeTile(counts, p);
    }
    forall i: nat | i < |counts| && Covers(counts, i, p)
      ensures 0 <= p < Sum(counts)
    {
      SumBounds(counts, i);
    }
    forall i: nat, j: nat | i < j < |counts|
      ensures !(Covers(counts, i, p) && Covers(counts, j, p))
    {
      PrefixSumsOrdered(counts, i, j);
    }
  }

  lemma TilesEnd(counts: seq<int>, p: int)
    requires forall i :: 0 <= i < |counts| ==> 0 <= counts[i]
    requires Sum(counts) <= p
    ensures Outside(p, counts, PrefixSums(counts))
  {
    forall i | 0 <= i < |counts|
      ensures PrefixSums(counts)[i] + counts[i] <= p
    {
      SumBounds(counts, i);
    }
  }

  /** Blocks that lie at the prefix sums make up their concatenation. */
  lemma TiledFront(blocks: seq<seq<byte>>, counts: seq<int>, buf: seq<byte>)
    requires counts == Lengths(blocks) && 0 <= Sum(counts) <= |buf|
    requires forall i :: 0 <= i < |blocks| ==> CarriesAt(buf, PrefixSums(counts)[i], blocks[i])
    ensures buf[..Sum(counts)] == Flatten(blocks)
  {
    forall i | 0 <= i < |blocks|
      ensures CarriesAt(buf, Sum(counts[..i]), blocks[i])
    {
      assert CarriesAt(buf, PrefixSums(counts)[i], blocks[i]);
    }
    FlattenPrefix(blocks, counts, buf, Sum(counts));
  }

  /** MPI_Gatherv with prefix-sum displacements leaves the concatenation at the front. */
  method MpiGathervTiled(blocks: seq<seq<byte>>, order: seq<nat>, recv: array<byte>, counts: seq<int>, disps: seq<int>)
    requires IsOrder(order, |blocks|)
    requires counts == Lengths(blocks) && disps == PrefixSums(counts) && Sum(counts) <= recv.Length
    modifies recv
    ensures 0 <= Sum(counts) && recv[..Sum(counts)] == Flatten(blocks)
    ensures recv[Sum(counts)..] == old(recv[Sum(counts)..])
  {
    PrefixSumsAreRootArguments(blocks, recv.Length);
    SumNonNeg(counts);
    MpiGatherv(blocks, order, recv, counts, disps);
    TiledFront(blocks, counts, recv[..]);
    assert recv[..][..Sum(counts)] == recv[..Sum(counts)];
    forall p | Sum(counts) <= p < recv.Length
      ensures recv[p] == old(recv[p])
    {
      TilesEnd(counts, p);
    }
  }

  // ---------------------------------------------------------------------------
  // CommPPPIMPL::gather
  // ---------------------------------------------------------------------------

  predicate IsCall(c: Config, me: nat) {
    c.Valid() && c.RootsAgree() && me < c.N()
  }

  /** gather into a buffer of the caller's. The blocks have one length, as its documentation asks. */
  method GatherToBuffer(c: Config, me: nat, order: seq<nat>, out: array<byte>) returns (rv: Outcome<()>)
    requires IsCall(c, me) && c.SameLengths() && IsOrder(order, c.N())
    modifies out
    ensures rv == (if c.Receives(me) && out.Length < Copies(c.N(), |c.data[me]|) then Failed(BufferTooSmall)
                   else if c.Count(me) < 0 then Failed(MpiCount)
                   else Returned(()))
    ensures rv.Returned? && c.Receives(me) ==>
              var sent := Flatten(AllSent(c));
              |sent| <= out.Length && out[..|sent|] == sent && out[|sent|..] == old(out[|sent|..])
    ensures !c.Receives(me) || rv.Failed? ==> out[..] == old(out[..])
  {
    var nIn := |c.data[me]|;
    CopiesIsProduct(c.N(), nIn);
    if c.Receives(me) && out.Length < nIn * c.N() {
      return Failed(BufferTooSmall);
    }
    var count := Narrow32(nIn);
    if count < 0 {
      return Failed(MpiCount);
    }
    if c.Receives(me) {
      var blocks := AllSent(c);
      var counts := seq(c.N(), _ => count);
      assert forall i :: 0 <= i < c.N() ==> |c.data[i]| == nIn;
      assert counts == Lengths(blocks);
      SumCopies(counts, count);
      CopiesMonotone(c.N(), count, nIn);
      FlattenLength(blocks);
      MpiGathervTiled(blocks, order, out, counts, PrefixSums(counts));
    }
    rv := Returned(());
  }

  /** gather into a buffer it allocates: `int recv_size = size() * data.size()`. */
  method Gather(c: Config, me: nat, order: seq<nat>) returns (rv: Outcome<Option<seq<byte>>>)
    requires IsCall(c, me) && c.SameLengths() && IsOrder(order, c.N())
    ensures c.Receives(me) ==>
              if Copies(c.N(), |c.data[me]|) <= INT_MAX
              then rv == Returned(Some(Flatten(c.data)))
              else rv.Failed?
    ensures !c.Receives(me) ==>
              rv == if c.Count(me) < 0 then Failed(MpiCount) else Returned(None)
  {
    var needed := |c.data[me]| * c.N();
    CopiesIsProduct(c.N(), |c.data[me]|);
    CopiesMonotone(c.N(), |c.data[me]|, |c.data[me]|);
    var recvSize := if c.Receives(me) then Narrow32(needed) else 0;
    if recvSize < 0 {
      return Failed(IntOverflow);
    }
    var buffer := new byte[recvSize](_ => 0);
    var done := GatherToBuffer(c, me, order, buffer);
    if done.Failed? {
      return Failed(done.why);
    }
    if c.Receives(me) {
      GatherFills(c, me);
      assert buffer[..] == buffer[..|Flatten(c.data)|];
      rv := Returned(Some(buffer[..]));
    } else {
      rv := Returned(None);
    }
  }

  lemma GatherFills(c: Config, me: nat)
    requires IsCall(c, me) && c.SameLengths() && |c.data[me]| <= INT_MAX
    ensures AllSent(c) == c.data && |Flatten(c.data)| == Copies(c.N(), |c.data[me]|)
  {
    forall i | 0 <= i < c.N()
      ensures c.Sent(i) == c.data[i]
    {
      assert |c.data[i]| == |c.data[me]|;
    }
    SumCopies(Lengths(c.data), |c.data[me]|);
    FlattenLength(c.data);
  }

  // ---------------------------------------------------------------------------
  // CommPPPIMPL::gatherv
  // ---------------------------------------------------------------------------

  /** `sizes` before step 0: `size()` zeros on a root, empty elsewhere. */
  function SizesBefore(c: Config, r: nat): seq<byte>
    requires c.Valid() && r < c.N()
  {
    seq(if c.Receives(r) then 4 * c.N() else 0, _ => 0)
  }

  /** Step 0 of gatherv: every rank gathers the four bytes of its `n_in`. */
  function SizesCall(c: Config): Config
    requires c.Valid()
  {
    Config(GatherIntoCall(seq(c.N(), r requires 0 <= r < c.N() => SizesBefore(c, r))), c.root,
           seq(c.N(), i requires 0 <= i < c.N() => EncodeInt(c.Count(i))))
  }

  lemma SizesCallSends(c: Config)
    requires c.Valid()
    ensures var s := SizesCall(c); s.Valid() && s.SameLengths() && AllSent(s) == s.data
    ensures |Flatten(SizesCall(c).data)| == 4 * c.N()
    ensures DecodeInts(Flatten(SizesCall(c).data), c.N()) == AllCounts(c)
  {
    var s := SizesCall(c);
    assert forall i :: 0 <= i < s.N() ==> s.Sent(i) == s.data[i];
    FlattenLength(s.data);
    SumConstant(Lengths(s.data), 4);
    var sizes := DecodeInts(Flatten(s.data), c.N());
    forall i | 0 <= i < c.N()
      ensures sizes[i] == c.Count(i)
    {
      SizeAt(s.data, i);
      EncodeIntRoundTrip(c.Count(i));
    }
  }

  lemma SizeAt(data: seq<seq<byte>>, i: nat)
    requires i < |data| && forall j :: 0 <= j < |data| ==> |data[j]| == 4
    ensures CarriesAt(Flatten(data), 4 * i, data[i])
  {
    FlattenSlice(data, i);
    SumConstant(Lengths(data)[..i], 4);
  }

  /** Step 0: `sizes`, four bytes a rank, on the root; nothing elsewhere. */
  method GatherSizes(c: Config, me: nat, order: seq<nat>) returns (sizes: seq<int>)
    requires IsCall(c, me) && IsOrder(order, c.N())
    ensures sizes == if c.Receives(me) then AllCounts(c) else []
  {
    var call := SizesCall(c);
    SizesCallSends(c);
    CopiesIsProduct(c.N(), 4);
    assert call.Receives(me) == c.Receives(me);
    var store := new byte[if c.Receives(me) then 4 * c.N() else 0](_ => 0);
    var done := GatherToBuffer(call, me, order, store);
    if c.Receives(me) {
      assert store[..] == Flatten(call.data);
      sizes := DecodeInts(store[..], c.N());
    } else {
      sizes := [];
    }
  }

  /** Step 1: displacements and total, in `int`; `IntOverflow` where the running total leaves it. */
  method ComputeDisplacements(sizes: seq<int>) returns (rv: Outcome<(seq<int>, int)>)
    ensures rv.Returned? ==> rv.value == (PrefixSums(sizes), Sum(sizes)) && -INT_MAX - 1 <= Sum(sizes) <= INT_MAX
    ensures rv.Failed? ==> rv == Failed(IntOverflow)
    ensures rv.Failed? <==> exists i :: 0 <= i <= |sizes| && !(-INT_MAX - 1 <= Sum(sizes[..i]) <= INT_MAX)
  {
    var disp: seq<int> := [];
    var total := 0;
    var i := 0;
    while i < |sizes|
      invariant 0 <= i <= |sizes| && |disp| == i
      invariant forall j :: 0 <= j < i ==> disp[j] == Sum(sizes[..j])
      invariant total == Sum(sizes[..i])
      invariant forall j :: 0 <= j <= i ==> -INT_MAX - 1 <= Sum(sizes[..j]) <= INT_MAX
    {
      disp := disp + [total];
      SumStep(sizes, i);
      if !(-INT_MAX - 1 <= total + sizes[i] <= INT_MAX) {
        return Failed(IntOverflow);
      }
      total := total + sizes[i];
      i := i + 1;
    }
    assert sizes[..|sizes|] == sizes;
    assert disp == PrefixSums(sizes);
    rv := Returned((disp, total));
  }

  /** For counts that MPI accepts, the running total overflows iff the sum does. */
  lemma OverflowIffSum(sizes: seq<int>)
    requires forall i :: 0 <= i < |sizes| ==> 0 <= sizes[i]
    ensures (exists i :: 0 <= i <= |sizes| && !(-INT_MAX - 1 <= Sum(sizes[..i]) <= INT_MAX)) <==> INT_MAX < Sum(sizes)
  {
    assert sizes[..|sizes|] == sizes && Sum(sizes[..0]) == 0;
    forall i | 0 <= i <= |sizes|
      ensures 0 <= Sum(sizes[..i]) <= Sum(sizes)
    {
      SumMonotone(sizes, 0, i);
      SumMonotone(sizes, i, |sizes|);
    }
  }

  /** The whole of gatherv on one rank, for any arrival orders of the sizes and of the data. */
  method Gatherv(c: Config, me: nat, order0: seq<nat>, order1: seq<nat>)
    returns (rv: Outcome<Option<(seq<byte>, seq<int>)>>)
    requires IsCall(c, me) && IsOrder(order0, c.N()) && IsOrder(order1, c.N())
    ensures rv.Returned? <==> 0 <= c.Count(me) && (c.Receives(me) ==> LayoutFits(AllCounts(c)))
    ensures rv.Returned? ==>
              rv.value == if c.Receives(me) then Some((Flatten(AllSent(c)), AllCounts(c))) else None
    ensures c.Receives(me) && (forall i :: 0 <= i < c.N() ==> 0 <= c.Count(i)) && INT_MAX < Sum(AllCounts(c)) ==>
              rv == Failed(IntOverflow)
  {
    var nIn := Narrow32(|c.data[me]|);
    var sizes := GatherSizes(c, me, order0);
    var disp: seq<int> := [];
    var buffer := new byte[0];
    if c.Receives(me) {
      var layout := ComputeDisplacements(sizes);
      CountsOverflow(c);
      if layout.Failed? {
        return Failed(IntOverflow);
      }
      disp := layout.value.0;
      if layout.value.1 < 0 {
        CountsOverflow(c);
        return Failed(IntOverflow);
      }
      buffer := new byte[layout.value.1](_ => 0);
    }
    if nIn < 0 || exists i :: 0 <= i < |sizes| && sizes[i] < 0 {
      return Failed(MpiCount);
    }
    if !c.Receives(me) {
      return Returned(None);
    }
    CountsAreLengths(c);
    MpiGathervTiled(AllSent(c), order1, buffer, sizes, disp);
    assert buffer[..] == buffer[..Sum(sizes)];
    rv := Returned(Some((buffer[..], sizes)));
  }

  /**
   * The code of one rank and the runs of all ranks agree: if rank `me` returns from gatherv in some
   * run, its own code, for any arrival orders, returns what it holds there.
   */
  method GathervInRun(c: Config, me: nat, order0: seq<nat>, order1: seq<nat>, ghost acts: seq<Action>)
    returns (rv: Outcome<Option<(seq<byte>, seq<int>)>>)
    requires IsCall(c, me) && IsOrder(order0, c.N()) && IsOrder(order1, c.N())
    requires c.kind.GathervCall? && ReturnedOn(c, acts, me)
    ensures rv == Returned(Result(c, Exec(c, acts).value, me))
  {
    InvAlways(c, acts);
    assert RankInv(c, me, Exec(c, acts).value[me]);
    if c.Receives(me) {
      GathervReturns(c, acts, me);
    }
    rv := Gatherv(c, me, order0, order1);
  }

  /** The same for gather, of data of one length. */
  method GatherInRun(c: Config, me: nat, order: seq<nat>, ghost acts: seq<Action>)
    returns (rv: Outcome<Option<seq<byte>>>)
    requires IsCall(c, me) && c.SameLengths() && IsOrder(order, c.N())
    requires c.kind.GatherCall? && ReturnedOn(c, acts, me)
    ensures rv == Returned(if c.Receives(me) then Some(Exec(c, acts).value[me].buf) else None)
  {
    InvAlways(c, acts);
    assert RankInv(c, me, Exec(c, acts).value[me]);
    if c.Receives(me) {
      GatherReturns(c, acts, me);
    }
    rv := Gather(c, me, order);
  }

  lemma CountsAreLengths(c: Config)
    requires forall i :: 0 <= i < c.N() ==> 0 <= c.Count(i)
    ensures Lengths(AllSent(c)) == AllCounts(c)
  {
  }

  lemma CountsOverflow(c: Config)
    ensures var sizes := AllCounts(c);
            (forall i :: 0 <= i < c.N() ==> 0 <= sizes[i]) ==>
              0 <= Sum(sizes) &&
              ((exists i :: 0 <= i <= |sizes| && !(-INT_MAX - 1 <= Sum(sizes[..i]) <= INT_MAX)) <==>
                 INT_MAX < Sum(sizes))
  {
    if forall i :: 0 <= i < c.N() ==> 0 <= AllCounts(c)[i] {
      OverflowIffSum(AllCounts(c));
      SumNonNeg(AllCounts(c));
    }
  }
}
