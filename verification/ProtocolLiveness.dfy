/** gather and gatherv end: bounded runs, no deadlock when the roots agree, deadlock when they do not. */
module ProtocolLiveness {
  import opened Bytes
  import opened Outcomes
  import opened Protocol
  import opened ProtocolSafety

  // ---------------------------------------------------------------------------
  // Every run is bounded
  // ---------------------------------------------------------------------------

  /** How far a rank has come: a collective is worth one entry, a block from each rank, and one exit. */
  function Weight(n: nat, st: Rank): int {
    Copies(st.phase, n + 2) + (if st.inside then 1 + |st.arrived| else 0) + (if st.faulted then 1 else 0)
  }

  function Weights(c: Config, s: State): (r: seq<int>)
    ensures |r| == |s|
  {
    seq(|s|, i requires 0 <= i < |s| => Weight(c.N(), s[i]))
  }

  lemma {:induction false} SubsetSize(n: nat, a: set<nat>)
    requires a <= Below(n)
    ensures |a| <= n
  {
    if n > 0 {
      SubsetSize(n - 1, a - {n - 1});
    }
  }

  lemma EnterWeighs(c: Config, r: nat, st: Rank)
    requires c.Valid() && r < c.N() && !st.inside && !st.faulted
    ensures Weight(c.N(), EnterRank(c, r, st)) == Weight(c.N(), st) + 1
  {
  }

  lemma DeliverWeighs(c: Config, i: nat, st: Rank)
    requires i < c.N() && st.inside && !st.faulted && i !in st.arrived
    ensures Weight(c.N(), DeliverRank(c, i, st)) == Weight(c.N(), st) + 1
  {
  }

  lemma LeaveWeighs(c: Config, st: Rank)
    requires st.inside && !st.faulted && st.arrived <= Everyone(c)
    ensures Weight(c.N(), st.(phase := st.phase + 1, inside := false)) >= Weight(c.N(), st) + 1
  {
    SubsetSize(c.N(), st.arrived);
  }

  /** The rank an action changes. */
  function Mover(a: Action): nat {
    match a case Enter(i) => i case Deliver(_, to) => to case Leave(i) => i
  }

  lemma WeightRises(c: Config, s: State, a: Action)
    requires c.Valid() && Inv(c, s) && Enabled(c, s, a)
    ensures Weight(c.N(), Next(c, s, a)[Mover(a)]) >= Weight(c.N(), s[Mover(a)]) + 1
  {
    match a
    case Enter(i) => EnterWeighs(c, i, s[i]);
    case Deliver(i, r) => DeliverWeighs(c, i, s[r]);
    case Leave(i) =>
      assert RankInv(c, i, s[i]);
      LeaveWeighs(c, s[i]);
  }

  lemma WeightsUpdate(c: Config, s: State, r: nat, st: Rank)
    requires r < |s|
    ensures Weights(c, s[r := st]) == Weights(c, s)[r := Weight(c.N(), st)]
  {
  }

  lemma TotalRises(c: Config, s: State, a: Action)
    requires c.Valid() && Inv(c, s) && Enabled(c, s, a)
    ensures Sum(Weights(c, Next(c, s, a))) >= Sum(Weights(c, s)) + 1
  {
    var r := Mover(a);
    var st := Next(c, s, a)[r];
    WeightRises(c, s, a);
    assert Next(c, s, a) == s[r := st];
    WeightsUpdate(c, s, r, st);
    SumUpdate(Weights(c, s), r, Weight(c.N(), st));
  }

  lemma {:induction false} StepsCounted(c: Config, acts: seq<Action>)
    requires c.Valid() && Exec(c, acts).Some?
    ensures |acts| <= Sum(Weights(c, Exec(c, acts).value))
  {
    if acts == [] {
      SumNonNeg(Weights(c, Init(c)));
    } else {
      var last := |acts| - 1;
      StepsCounted(c, acts[..last]);
      InvAlways(c, acts[..last]);
      TotalRises(c, Exec(c, acts[..last]).value, acts[last]);
    }
  }

  lemma WeightBounded(c: Config, r: nat, st: Rank)
    requires c.Valid() && r < c.N() && RankInv(c, r, st)
    ensures Weight(c.N(), st) <= Copies(c.Phases(), c.N() + 2)
  {
    SubsetSize(c.N(), st.arrived);
    assert Copies(1, c.N() + 2) == c.N() + 2;
    assert Copies(2, c.N() + 2) == c.N() + 2 + (c.N() + 2);
  }

  lemma {:induction false} SumAtMost(xs: seq<int>, bound: int)
    requires forall k :: 0 <= k < |xs| ==> xs[k] <= bound
    ensures Sum(xs) <= Copies(|xs|, bound)
  {
    if xs != [] {
      SumAtMost(xs[..|xs| - 1], bound);
    }
  }

  function MostSteps(c: Config): nat { c.N() * (c.Phases() * (c.N() + 2)) }

  /** No run, however scheduled, takes more than `n * (phases * (n + 2))` steps. */
  lemma RunsAreBounded(c: Config, acts: seq<Action>)
    requires c.Valid() && Exec(c, acts).Some?
    ensures |acts| <= MostSteps(c)
  {
    var s := Exec(c, acts).value;
    InvAlways(c, acts);
    StepsCounted(c, acts);
    forall i | 0 <= i < c.N()
      ensures Weights(c, s)[i] <= Copies(c.Phases(), c.N() + 2)
    {
      assert RankInv(c, i, s[i]);
      WeightBounded(c, i, s[i]);
    }
    SumAtMost(Weights(c, s), Copies(c.Phases(), c.N() + 2));
    CopiesIsProduct(c.Phases(), c.N() + 2);
    CopiesIsProduct(c.N(), Copies(c.Phases(), c.N() + 2));
  }

  // ---------------------------------------------------------------------------
  // No deadlock when the roots agree
  // ---------------------------------------------------------------------------

  /** Every rank that receives in collective `k` has its last block. */
  predicate Received(c: Config, s: State, k: nat)
    requires c.Valid() && |s| == c.N()
  {
    forall r :: 0 <= r < c.N() && c.Receives(r) ==>
      k < s[r].phase || (k == s[r].phase && s[r].inside && s[r].arrived == Everyone(c))
  }

  /**
   * Enabled under the most reluctant MPI the standard allows: no rank leaves a collective until
   * every rank has entered it and every receiver is complete.
   */
  predicate StrictlyEnabled(c: Config, s: State, a: Action)
    requires c.Valid() && |s| == c.N()
  {
    && Enabled(c, s, a)
    && (a.Leave? ==>
          && (forall j :: 0 <= j < c.N() ==> Posted(s, j, s[a.rank].phase))
          && Received(c, s, s[a.rank].phase))
  }

  predicate AllFinished(c: Config, s: State) {
    forall i :: 0 <= i < |s| ==> Finished(c, s[i])
  }

  lemma {:induction false} Rearmost(c: Config, s: State) returns (m: nat)
    requires !AllFinished(c, s)
    ensures m < |s| && !Finished(c, s[m])
    ensures forall j :: 0 <= j < |s| && !Finished(c, s[j]) ==> s[m].phase <= s[j].phase
    decreases |s|
  {
    var last := |s| - 1;
    var init := s[..last];
    if AllFinished(c, init) {
      m := last;
      forall j | 0 <= j < last ensures Finished(c, s[j]) { assert init[j] == s[j]; }
    } else {
      m := Rearmost(c, init);
      assert init[m] == s[m];
      forall j | 0 <= j < last && !Finished(c, s[j])
        ensures s[m].phase <= s[j].phase
      {
        assert init[j] == s[j];
      }
      if !Finished(c, s[last]) && s[last].phase < s[m].phase {
        m := last;
      }
    }
  }

  lemma AllPosted(c: Config, s: State, m: nat)
    requires c.Valid() && Inv(c, s) && Faultless(s) && m < c.N() && !Finished(c, s[m])
    requires forall i :: 0 <= i < c.N() ==> s[i].inside || s[i].phase == c.Phases()
    requires forall j :: 0 <= j < |s| && !Finished(c, s[j]) ==> s[m].phase <= s[j].phase
    ensures s[m].inside && forall j :: 0 <= j < c.N() ==> Posted(s, j, s[m].phase)
  {
    assert RankInv(c, m, s[m]);
    forall j | 0 <= j < c.N()
      ensures Posted(s, j, s[m].phase)
    {
      assert RankInv(c, j, s[j]);
    }
  }

  /** An incomplete receiver, once everyone has posted, has a block to take. */
  lemma CanDeliver(c: Config, s: State, r: nat) returns (a: Action)
    requires c.Valid() && c.RootsAgree() && |s| == c.N() && r < c.N() && c.Receives(r)
    requires !s[r].faulted && s[r].inside && s[r].arrived <= Everyone(c) && s[r].arrived != Everyone(c)
    requires forall j :: 0 <= j < c.N() ==> Posted(s, j, s[r].phase)
    ensures StrictlyEnabled(c, s, a)
  {
    var i :| i in Everyone(c) && i !in s[r].arrived;
    assert c.root[i] == c.root[0] == c.root[r];
    a := Deliver(i, r);
  }

  /** Where everyone has posted and no receiver is incomplete, all have received. */
  lemma AllReceived(c: Config, s: State, k: nat)
    requires c.Valid() && |s| == c.N()
    requires forall j :: 0 <= j < c.N() ==> Posted(s, j, k)
    requires forall r :: 0 <= r < c.N() && c.Receives(r) && s[r].phase == k && s[r].inside ==>
               s[r].arrived == Everyone(c)
    ensures Received(c, s, k)
  {
    forall r | 0 <= r < c.N() && c.Receives(r)
      ensures k < s[r].phase || (k == s[r].phase && s[r].inside && s[r].arrived == Everyone(c))
    {
      assert Posted(s, r, k);
    }
  }

  /** When all have posted to the collective of rank `m`, an incomplete receiver takes a block or `m` may leave. */
  lemma DeliverOrLeave(c: Config, s: State, m: nat) returns (a: Action)
    requires c.Valid() && c.RootsAgree() && Inv(c, s) && Faultless(s) && m < c.N() && s[m].inside
    requires forall j :: 0 <= j < c.N() ==> Posted(s, j, s[m].phase)
    ensures StrictlyEnabled(c, s, a)
  {
    if r :| 0 <= r < c.N() && c.Receives(r) && s[r].phase == s[m].phase && s[r].inside &&
            s[r].arrived != Everyone(c)
    {
      assert RankInv(c, r, s[r]);
      a := CanDeliver(c, s, r);
    } else {
      a := Leave(m);
      AllReceived(c, s, s[m].phase);
    }
  }

  /** A faultless state of agreeing ranks in which some rank is unfinished can always step. */
  lemma CanStep(c: Config, s: State) returns (a: Action)
    requires c.Valid() && c.RootsAgree() && Inv(c, s) && Faultless(s) && !AllFinished(c, s)
    ensures StrictlyEnabled(c, s, a)
  {
    if i :| 0 <= i < c.N() && !s[i].inside && s[i].phase != c.Phases() {
      assert RankInv(c, i, s[i]);
      a := Enter(i);
    } else {
      var m := Rearmost(c, s);
      AllPosted(c, s, m);
      a := DeliverOrLeave(c, s, m);
    }
  }

  /** Deadlock freedom: after any run of agreeing ranks whose counts fit, all have returned or some step is enabled. */
  lemma NeverStuck(c: Config, acts: seq<Action>)
    requires c.Valid() && Fits(c) && c.RootsAgree() && Exec(c, acts).Some?
    ensures var s := Exec(c, acts).value;
            AllFinished(c, s) || exists a :: StrictlyEnabled(c, s, a)
  {
    InvAlways(c, acts);
    NeverFaults(c, acts);
    if !AllFinished(c, Exec(c, acts).value) {
      var a := CanStep(c, Exec(c, acts).value);
    }
  }

  /** No run faults. */
  ghost predicate AlwaysFaultless(c: Config)
    requires c.Valid()
  {
    forall acts :: Exec(c, acts).Some? ==> Faultless(Exec(c, acts).value)
  }

  /** Every run of agreeing ranks that cannot fault can be carried on until all have returned. */
  lemma {:induction false} CarryOn(c: Config, acts: seq<Action>) returns (full: seq<Action>)
    requires c.Valid() && AlwaysFaultless(c) && c.RootsAgree() && Exec(c, acts).Some?
    ensures acts <= full && Exec(c, full).Some? && AllFinished(c, Exec(c, full).value)
    decreases MostSteps(c) - |acts|
  {
    var s := Exec(c, acts).value;
    if AllFinished(c, s) {
      full := acts;
    } else {
      InvAlways(c, acts);
      var a := CanStep(c, s);
      assert (acts + [a])[..|acts|] == acts;
      RunsAreBounded(c, acts + [a]);
      full := CarryOn(c, acts + [a]);
    }
  }

  /** What a root that returns shows of the counts. */
  lemma ReturnedFits(c: Config, acts: seq<Action>, r: nat)
    requires c.Valid() && ReturnedOn(c, acts, r) && c.Receives(r)
    requires forall i :: 0 <= i < c.N() ==> 0 <= c.Count(i)
    ensures FitsOn(c, r)
  {
    RootHolds(c, acts, r);
    var st := Exec(c, acts).value[r];
    if !c.kind.GathervCall? {
      forall i | 0 <= i < c.N()
        ensures c.Count(i) == c.Count(r)
      {
        assert |AllSent(c)[i]| == st.counts[i] == c.Count(r);
      }
    }
  }

  /** For agreeing ranks the condition is exact: no run faults iff the counts fit. */
  lemma FaultlessIffFits(c: Config)
    requires c.Valid() && c.RootsAgree()
    ensures AlwaysFaultless(c) <==> Fits(c)
  {
    if Fits(c) {
      forall acts | Exec(c, acts).Some?
        ensures Faultless(Exec(c, acts).value)
      {
        NeverFaults(c, acts);
      }
    }
    if AlwaysFaultless(c) {
      assert Exec(c, []).Some?;
      var full := CarryOn(c, []);
      InvAlways(c, full);
      forall i | 0 <= i < c.N()
        ensures 0 <= c.Count(i)
      {
        assert RankInv(c, i, Exec(c, full).value[i]);
      }
      forall r | 0 <= r < c.N() && c.Receives(r)
        ensures FitsOn(c, r)
      {
        ReturnedFits(c, full, r);
      }
    }
  }

  /** Two ranks, one with a block of 2^32 bytes and one with a single byte. */
  function WrapsAround(): Config {
    Config(GathervCall, [None, None], [seq(TWO_32, _ => 0), [7]])
  }

  /**
   * A length that wraps around is lost without a fault: every rank returns from gatherv with the
   * one byte of the other rank, and the 2^32 bytes count as none.
   */
  lemma LengthsWrapAround() returns (acts: seq<Action>)
    ensures var c := WrapsAround();
            && c.Valid() && Exec(c, acts).Some? && AllFinished(c, Exec(c, acts).value)
            && forall r :: 0 <= r < 2 ==> Result(c, Exec(c, acts).value, r) == Some(([7], [0, 1]))
  {
    var c := WrapsAround();
    assert c.Count(0) == 0 && c.Count(1) == 1;
    assert AllCounts(c) == [0, 1] && [0, 1][..1] == [0] && [0][..0] == [];
    assert Sum([0, 1]) == 1;
    FaultlessIffFits(c);
    assert Exec(c, []).Some?;
    acts := CarryOn(c, []);
    assert c.Sent(0) == [] && c.Sent(1) == [7];
    assert AllSent(c) == [[], [7]] && [[], [7]][..1] == [[]];
    assert Flatten([[], [7]]) == [7];
    forall r | 0 <= r < 2
      ensures Result(c, Exec(c, acts).value, r) == Some(([7], [0, 1]))
    {
      GathervReturns(c, acts, r);
    }
  }

  /**
   * What the call promises on rank `r`: everything in rank order if it is a root, with the rest of
   * a caller's buffer behind it, and nothing if not.
   */
  function Promised(c: Config, r: nat): Option<(seq<byte>, seq<int>)>
    requires c.Valid() && r < c.N()
  {
    var all := Flatten(c.data);
    if !c.Receives(r) then None
    else if c.kind.GatherIntoCall? && |all| <= |c.kind.out[r]| then
      Some((all + c.kind.out[r][|all|..], Lengths(c.data)))
    else Some((all, Lengths(c.data)))
  }

  /**
   * Total correctness of gather and gatherv: take any data whose lengths meet the documented
   * conditions, any common root or none, and any run that cannot be carried further. Then every
   * rank has returned, the roots with the data of all ranks in rank order and the bytes per
   * rank, the others with nothing.
   */
  lemma CallCompletes(c: Config, acts: seq<Action>)
    requires c.Valid() && c.Healthy() && c.RootsAgree() && Exec(c, acts).Some?
    requires forall a :: !StrictlyEnabled(c, Exec(c, acts).value, a)
    ensures var s := Exec(c, acts).value;
            forall r :: 0 <= r < c.N() ==> Finished(c, s[r]) && Result(c, s, r) == Promised(c, r)
  {
    HealthyIsFit(c);
    NeverStuck(c, acts);
    forall r | 0 <= r < c.N()
      ensures Finished(c, Exec(c, acts).value[r])
      ensures Result(c, Exec(c, acts).value, r) == Promised(c, r)
    {
      if c.Receives(r) {
        PromiseKept(c, acts, r);
      }
    }
  }

  lemma PromiseKept(c: Config, acts: seq<Action>, r: nat)
    requires c.Valid() && c.Healthy() && ReturnedOn(c, acts, r) && c.Receives(r)
    ensures Result(c, Exec(c, acts).value, r) == Promised(c, r)
  {
    RootHolds(c, acts, r);
    HealthyFits(c);
    assert AllSent(c) == c.data;
    match c.kind
    case GatherCall => GatherReturns(c, acts, r);
    case GatherIntoCall(_) => GatherIntoReturns(c, acts, r);
    case GathervCall => GathervReturns(c, acts, r);
  }

  // ---------------------------------------------------------------------------
  // Deadlock when they do not
  // ---------------------------------------------------------------------------

  /** A root that some rank does not send to never gets past its first collective. */
  lemma {:induction false} WaitsForever(c: Config, acts: seq<Action>, r: nat, i: nat)
    requires c.Valid() && r < c.N() && i < c.N() && c.Receives(r) && !c.SendsTo(i, r)
    requires Exec(c, acts).Some?
    ensures Exec(c, acts).value[r].phase == 0 && i !in Exec(c, acts).value[r].arrived
  {
    if acts != [] {
      WaitsForever(c, acts[..|acts| - 1], r, i);
    }
  }

  /** `rv.my_resource_set().ram().gather(data)` on two or more ranks: each is its own root, and none returns. */
  lemma SelfRootedNeverReturns(c: Config, acts: seq<Action>)
    requires c.Valid() && 2 <= c.N() && Exec(c, acts).Some?
    requires forall r :: 0 <= r < c.N() ==> c.root[r] == Some(r)
    ensures forall r :: 0 <= r < c.N() ==> !ReturnedOn(c, acts, r)
  {
    forall r | 0 <= r < c.N()
      ensures !ReturnedOn(c, acts, r)
    {
      WaitsForever(c, acts, r, if r == 0 then 1 else 0);
    }
  }

  /** A rooted call that some rank takes to be its own can end on every rank iff all name one root. */
  lemma RootedCallEndsIffRootsAgree(c: Config)
    requires c.Valid() && c.Healthy()
    requires forall i :: 0 <= i < c.N() ==> c.root[i].Some?
    requires exists r :: 0 <= r < c.N() && c.root[r] == Some(r)
    ensures (exists acts :: Exec(c, acts).Some? && AllFinished(c, Exec(c, acts).value)) <==> c.RootsAgree()
  {
    if c.RootsAgree() {
      HealthyIsFit(c);
      FaultlessIffFits(c);
      assert Exec(c, []).Some?;
      var full := CarryOn(c, []);
    }
    if acts :| Exec(c, acts).Some? && AllFinished(c, Exec(c, acts).value) {
      var r :| 0 <= r < c.N() && c.root[r] == Some(r);
      forall i | 0 <= i < c.N()
        ensures c.root[i] == Some(r)
      {
        assert Finished(c, Exec(c, acts).value[r]);
        if !c.SendsTo(i, r) {
          WaitsForever(c, acts, r, i);
        }
      }
    }
  }
}
