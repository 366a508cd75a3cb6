/**
 * Several calls of `gather` and `gatherv`, one after the other, on one communicator. MPI knows nothing
 * of calls: it matches collectives by the order in which each rank makes them (section 5.13 of MPI
 * 3.1), so a rank may be calls ahead of a slow one.
 */
module Session {
  import opened Bytes
  import opened Outcomes
  import opened Protocol
  import opened ProtocolSafety
  import opened ProtocolLiveness

  /** The calls, in the order in which each of the `n` ranks makes them. */
  type Calls = seq<Config>

  predicate AllValid(calls: Calls, n: nat) {
    1 <= n && forall k :: 0 <= k < |calls| ==> calls[k].Valid() && calls[k].N() == n
  }

  /** What a rank handed to a collective. */
  datatype Post = Post(block: seq<byte>, root: Option<nat>)

  /**
   * One rank: the call its program is in and how far; what MPI knows of it, which is how many
   * collectives it completed and what it handed to the first, the second, and so on; and what its
   * earlier calls left it with.
   */
  datatype Seat = Seat(call: nat, rank: Rank, completed: nat, posted: seq<Post>, kept: seq<Rank>)

  function Start(n: nat): seq<Seat> {
    seq(n, _ => Seat(0, OUTSIDE, 0, [], []))
  }

  /** The rank is inside a collective of some call. */
  predicate Inside(calls: Calls, seats: seq<Seat>, i: nat) {
    i < |seats| && seats[i].call < |calls| && !seats[i].rank.faulted && seats[i].rank.inside
  }

  /** Rank `i` has handed its block to as many collectives as rank `r` has completed and one more; it is for `r`. */
  predicate Offers(seats: seq<Seat>, i: nat, r: nat)
    requires i < |seats| && r < |seats|
  {
    && seats[r].completed < |seats[i].posted|
    && var post := seats[i].posted[seats[r].completed];
       post.root.None? || post.root.value == r
  }

  predicate CanTake(calls: Calls, n: nat, seats: seq<Seat>, a: Action)
    requires AllValid(calls, n) && |seats| == n
  {
    match a
    case Enter(i) => i < n && seats[i].call < |calls| && !seats[i].rank.faulted && !seats[i].rank.inside
    case Deliver(i, r) =>
      && i < n && Inside(calls, seats, r) && calls[seats[r].call].Receives(r)
      && i !in seats[r].rank.arrived && Offers(seats, i, r)
    case Leave(i) =>
      && Inside(calls, seats, i)
      && (calls[seats[i].call].Receives(i) ==> seats[i].rank.arrived == Below(n))
  }

  function Entered(calls: Calls, i: nat, seat: Seat): Seat
    requires seat.call < |calls| && calls[seat.call].Valid() && i < calls[seat.call].N()
  {
    var c := calls[seat.call];
    var rank := EnterRank(c, i, seat.rank);
    seat.(rank := rank,
          posted := if rank.faulted then seat.posted else seat.posted + [Post(c.Block(seat.rank.phase, i), c.root[i])])
  }

  /** A collective is completed; after the last one of a call the program goes on to the next. */
  function Left(calls: Calls, seat: Seat): Seat
    requires seat.call < |calls|
  {
    var rank := seat.rank.(phase := seat.rank.phase + 1, inside := false);
    if rank.phase < calls[seat.call].Phases() then seat.(rank := rank, completed := seat.completed + 1)
    else Seat(seat.call + 1, OUTSIDE, seat.completed + 1, seat.posted, seat.kept + [rank])
  }

  function After(calls: Calls, n: nat, seats: seq<Seat>, a: Action): (r: seq<Seat>)
    requires AllValid(calls, n) && |seats| == n && CanTake(calls, n, seats, a)
    ensures |r| == n
  {
    match a
    case Enter(i) => seats[i := Entered(calls, i, seats[i])]
    case Deliver(i, r) =>
      var block := seats[i].posted[seats[r].completed].block;
      seats[r := seats[r].(rank := Accept(i, seats[r].rank, block))]
    case Leave(i) => seats[i := Left(calls, seats[i])]
  }

  /** The seats after these steps; `None` when some step was not possible at its turn. */
  function Take(calls: Calls, n: nat, steps: seq<Action>): (r: Option<seq<Seat>>)
    requires AllValid(calls, n)
    ensures r.Some? ==> |r.value| == n
  {
    if steps == [] then Some(Start(n))
    else
      match Take(calls, n, steps[..|steps| - 1])
      case None => None
      case Some(seats) =>
        var a := steps[|steps| - 1];
        if CanTake(calls, n, seats, a) then Some(After(calls, n, seats, a)) else None
  }

  // ---------------------------------------------------------------------------
  // Ordinals, and the call and phase they stand for
  // ---------------------------------------------------------------------------

  /** The collectives of the calls before call `k`. */
  function Offset(calls: Calls, k: nat): nat
    requires k <= |calls|
  {
    if k == 0 then 0 else Offset(calls, k - 1) + calls[k - 1].Phases()
  }

  lemma {:induction false} OffsetGrows(calls: Calls, j: nat, k: nat)
    requires j <= k <= |calls|
    ensures Offset(calls, j) <= Offset(calls, k)
    ensures j < k ==> Offset(calls, j) + calls[j].Phases() <= Offset(calls, k)
  {
    if j < k {
      OffsetGrows(calls, j, k - 1);
    }
  }

  /** An ordinal stands for one collective of one call, whatever the mix of one- and two-phase calls. */
  lemma OrdinalIsCallAndPhase(calls: Calls, j: nat, p: nat, k: nat, q: nat)
    requires j < |calls| && k < |calls| && p < calls[j].Phases() && q < calls[k].Phases()
    ensures Offset(calls, j) + p == Offset(calls, k) + q <==> j == k && p == q
  {
    if j < k {
      OffsetGrows(calls, j, k);
    } else if k < j {
      OffsetGrows(calls, k, j);
    }
  }

  /** What rank `i` handed to its first, second, ... collective is its block of that call and phase. */
  predicate Logged(calls: Calls, n: nat, i: nat, posted: seq<Post>)
    requires AllValid(calls, n) && i < n
  {
    forall k, p :: 0 <= k < |calls| && 0 <= p < calls[k].Phases() && Offset(calls, k) + p < |posted| ==>
      posted[Offset(calls, k) + p] == Post(calls[k].Block(p, i), calls[k].root[i])
  }

  /** Where a rank's program is agrees with how many collectives MPI has seen of it. */
  predicate Counts(calls: Calls, seat: Seat) {
    && seat.call <= |calls| && |seat.kept| == seat.call
    && seat.completed == Offset(calls, seat.call) + seat.rank.phase
    && |seat.posted| == seat.completed + (if seat.rank.inside then 1 else 0)
    && (seat.call == |calls| ==> seat.rank == OUTSIDE)
    && (seat.call < |calls| ==> seat.rank.phase < calls[seat.call].Phases())
    && forall k :: 0 <= k < seat.call ==> Finished(calls[k], seat.kept[k])
  }

  predicate SeatOk(calls: Calls, n: nat, i: nat, seat: Seat)
    requires AllValid(calls, n) && i < n
  {
    Counts(calls, seat) && Logged(calls, n, i, seat.posted)
  }

  predicate SeatsOk(calls: Calls, n: nat, seats: seq<Seat>)
    requires AllValid(calls, n)
  {
    |seats| == n && forall i :: 0 <= i < n ==> SeatOk(calls, n, i, seats[i])
  }

  /** Where a rank is in call `k`. */
  function In(seat: Seat, k: nat): Rank {
    if k < |seat.kept| then seat.kept[k] else if k == seat.call then seat.rank else OUTSIDE
  }

  /** Where the ranks are in call `k`: a state of that call alone. */
  function View(seats: seq<Seat>, k: nat): (s: State)
    ensures |s| == |seats|
  {
    seq(|seats|, i requires 0 <= i < |seats| => In(seats[i], k))
  }

  /** MPI's matching by ordinal is matching by call and phase. */
  lemma OrdinalMatching(calls: Calls, seats: seq<Seat>, i: nat, k: nat, p: nat)
    requires i < |seats| && Counts(calls, seats[i]) && k < |calls| && p < calls[k].Phases()
    ensures Offset(calls, k) + p < |seats[i].posted| <==> Posted(View(seats, k), i, p)
  {
    var seat := seats[i];
    if k < seat.call {
      OffsetGrows(calls, k, seat.call);
    } else if seat.call < k {
      OffsetGrows(calls, seat.call, k);
    }
  }

  // ---------------------------------------------------------------------------
  // Each step is a step of one call
  // ---------------------------------------------------------------------------

  lemma LogOneMore(calls: Calls, n: nat, i: nat, seat: Seat)
    requires AllValid(calls, n) && i < n && SeatOk(calls, n, i, seat) && seat.call < |calls| && !seat.rank.inside
    ensures var c := calls[seat.call];
            Logged(calls, n, i, seat.posted + [Post(c.Block(seat.rank.phase, i), c.root[i])])
  {
    var c := calls[seat.call];
    var posted := seat.posted + [Post(c.Block(seat.rank.phase, i), c.root[i])];
    forall k, p | 0 <= k < |calls| && 0 <= p < calls[k].Phases() && Offset(calls, k) + p < |posted|
      ensures posted[Offset(calls, k) + p] == Post(calls[k].Block(p, i), calls[k].root[i])
    {
      OrdinalIsCallAndPhase(calls, k, p, seat.call, seat.rank.phase);
    }
  }

  /** Entering a collective faults or gets inside it, and does nothing else that counts. */
  lemma EnterEffect(c: Config, r: nat, st: Rank)
    requires c.Valid() && r < c.N() && !st.faulted && !st.inside
    ensures var st' := EnterRank(c, r, st);
            st'.phase == st.phase && st'.inside == !st'.faulted
  {
  }

  lemma SeatEntered(calls: Calls, seat: Seat, rank: Rank, posted: seq<Post>)
    requires Counts(calls, seat) && seat.call < |calls| && !seat.rank.inside
    requires rank.phase == seat.rank.phase && |posted| == |seat.posted| + (if rank.inside then 1 else 0)
    ensures Counts(calls, seat.(rank := rank, posted := posted))
  {
  }

  lemma EnteredOk(calls: Calls, n: nat, i: nat, seat: Seat)
    requires AllValid(calls, n) && i < n && SeatOk(calls, n, i, seat) && seat.call < |calls|
    requires !seat.rank.inside && !seat.rank.faulted
    ensures SeatOk(calls, n, i, Entered(calls, i, seat))
  {
    LogOneMore(calls, n, i, seat);
    EnterEffect(calls[seat.call], i, seat.rank);
    var entered := Entered(calls, i, seat);
    SeatEntered(calls, seat, entered.rank, entered.posted);
  }

  lemma AcceptOk(calls: Calls, n: nat, r: nat, seat: Seat, i: nat, block: seq<byte>)
    requires AllValid(calls, n) && r < n && SeatOk(calls, n, r, seat) && seat.call < |calls|
    ensures SeatOk(calls, n, r, seat.(rank := Accept(i, seat.rank, block)))
  {
  }

  lemma LeftOk(calls: Calls, n: nat, i: nat, seat: Seat)
    requires AllValid(calls, n) && i < n && SeatOk(calls, n, i, seat)
    requires seat.call < |calls| && seat.rank.inside && !seat.rank.faulted
    ensures SeatOk(calls, n, i, Left(calls, seat))
  {
  }

  lemma SeatChanged(calls: Calls, n: nat, seats: seq<Seat>, m: nat, seat: Seat)
    requires AllValid(calls, n) && SeatsOk(calls, n, seats) && m < n && SeatOk(calls, n, m, seat)
    ensures SeatsOk(calls, n, seats[m := seat])
  {
  }

  lemma StepKeepsSeats(calls: Calls, n: nat, seats: seq<Seat>, a: Action)
    requires AllValid(calls, n) && SeatsOk(calls, n, seats) && CanTake(calls, n, seats, a)
    ensures SeatsOk(calls, n, After(calls, n, seats, a))
  {
    match a
    case Enter(i) =>
      EnteredOk(calls, n, i, seats[i]);
      SeatChanged(calls, n, seats, i, Entered(calls, i, seats[i]));
    case Deliver(i, r) =>
      var block := seats[i].posted[seats[r].completed].block;
      AcceptOk(calls, n, r, seats[r], i, block);
      SeatChanged(calls, n, seats, r, seats[r].(rank := Accept(i, seats[r].rank, block)));
    case Leave(i) =>
      LeftOk(calls, n, i, seats[i]);
      SeatChanged(calls, n, seats, i, Left(calls, seats[i]));
  }

  /** What arrives by ordinal is the sender's block of the very collective the receiver is in. */
  lemma RightBlock(calls: Calls, n: nat, seats: seq<Seat>, i: nat, r: nat)
    requires AllValid(calls, n) && SeatsOk(calls, n, seats) && i < n && r < n
    requires seats[r].call < |calls| && Offers(seats, i, r)
    ensures var k, p := seats[r].call, seats[r].rank.phase;
            && seats[i].posted[seats[r].completed] == Post(calls[k].Block(p, i), calls[k].root[i])
            && Posted(View(seats, k), i, p)
  {
    assert SeatOk(calls, n, r, seats[r]) && SeatOk(calls, n, i, seats[i]);
    OrdinalMatching(calls, seats, i, seats[r].call, seats[r].rank.phase);
  }

  /** The call that the rank which takes the step is in. */
  function At(seats: seq<Seat>, a: Action): nat
    requires Mover(a) < |seats|
  {
    seats[Mover(a)].call
  }

  /** Matched by ordinal, a step is one that its call, alone, could take. */
  lemma StepOfItsCall(calls: Calls, n: nat, seats: seq<Seat>, a: Action)
    requires AllValid(calls, n) && SeatsOk(calls, n, seats) && CanTake(calls, n, seats, a)
    ensures var k := At(seats, a);
            && Enabled(calls[k], View(seats, k), a)
            && View(After(calls, n, seats, a), k) == Next(calls[k], View(seats, k), a)
  {
    var k := At(seats, a);
    assert SeatOk(calls, n, Mover(a), seats[Mover(a)]);
    if a.Deliver? {
      RightBlock(calls, n, seats, a.from, a.to);
    }
    assert View(After(calls, n, seats, a), k)[Mover(a)] == Next(calls[k], View(seats, k), a)[Mover(a)];
  }

  /** It leaves every other call where it was. */
  lemma OtherCalls(calls: Calls, n: nat, seats: seq<Seat>, a: Action, k: nat)
    requires AllValid(calls, n) && SeatsOk(calls, n, seats) && CanTake(calls, n, seats, a) && k != At(seats, a)
    ensures View(After(calls, n, seats, a), k) == View(seats, k)
  {
    assert SeatOk(calls, n, Mover(a), seats[Mover(a)]);
  }

  // ---------------------------------------------------------------------------
  // Whole sessions
  // ---------------------------------------------------------------------------

  lemma {:induction false} SeatsAlwaysOk(calls: Calls, n: nat, steps: seq<Action>)
    requires AllValid(calls, n) && Take(calls, n, steps).Some?
    ensures SeatsOk(calls, n, Take(calls, n, steps).value)
  {
    if steps != [] {
      SeatsAlwaysOk(calls, n, steps[..|steps| - 1]);
      StepKeepsSeats(calls, n, Take(calls, n, steps[..|steps| - 1]).value, steps[|steps| - 1]);
    } else {
      StartOk(calls, n);
    }
  }

  lemma StartOk(calls: Calls, n: nat)
    requires AllValid(calls, n)
    ensures SeatsOk(calls, n, Start(n))
  {
    forall i | 0 <= i < n
      ensures SeatOk(calls, n, i, Start(n)[i])
    {
    }
  }

  /** The steps that were steps of call `k`. */
  function Of(calls: Calls, n: nat, steps: seq<Action>, k: nat): seq<Action>
    requires AllValid(calls, n) && Take(calls, n, steps).Some?
  {
    if steps == [] then []
    else
      var front, a := steps[..|steps| - 1], steps[|steps| - 1];
      Of(calls, n, front, k) + (if At(Take(calls, n, front).value, a) == k then [a] else [])
  }

  /**
   * Calls do not interfere: although MPI matches by order only, and ranks may be calls ahead of each
   * other, what happens in each call is a run of that call alone.
   */
  lemma {:induction false} CallsDoNotInterfere(calls: Calls, n: nat, steps: seq<Action>, k: nat)
    requires AllValid(calls, n) && Take(calls, n, steps).Some? && k < |calls|
    ensures Exec(calls[k], Of(calls, n, steps, k)) == Some(View(Take(calls, n, steps).value, k))
  {
    if steps == [] {
      assert View(Start(n), k) == Init(calls[k]);
    } else {
      var front, a := steps[..|steps| - 1], steps[|steps| - 1];
      var seats := Take(calls, n, front).value;
      CallsDoNotInterfere(calls, n, front, k);
      SeatsAlwaysOk(calls, n, front);
      var before := Of(calls, n, front, k);
      if At(seats, a) == k {
        StepOfItsCall(calls, n, seats, a);
        assert (before + [a])[..|before|] == before;
      } else {
        OtherCalls(calls, n, seats, a, k);
        assert before + [] == before;
      }
    }
  }

  /** Possible even with an MPI that lets no rank leave a collective before all are there and all is received. */
  predicate MustTake(calls: Calls, n: nat, seats: seq<Seat>, a: Action)
    requires AllValid(calls, n) && |seats| == n
  {
    && CanTake(calls, n, seats, a)
    && (a.Leave? ==>
          && (forall j :: 0 <= j < n ==> seats[a.rank].completed < |seats[j].posted|)
          && forall r :: 0 <= r < n && calls[seats[a.rank].call].Receives(r) ==>
               || seats[a.rank].completed < seats[r].completed
               || (seats[r].completed == seats[a.rank].completed &&
                     seats[r].rank.inside && seats[r].rank.arrived == Below(n)))
  }

  /** The calls meet the documented conditions, and in each all ranks name one root or none. */
  predicate Sensible(calls: Calls, n: nat)
    requires AllValid(calls, n)
  {
    forall k :: 0 <= k < |calls| ==> calls[k].Healthy() && calls[k].RootsAgree()
  }

  predicate AllReturned(calls: Calls, seats: seq<Seat>) {
    forall i :: 0 <= i < |seats| ==> seats[i].call == |calls|
  }

  lemma {:induction false} Hindmost(seats: seq<Seat>) returns (i: nat)
    requires seats != []
    ensures i < |seats| && forall j :: 0 <= j < |seats| ==> seats[i].call <= seats[j].call
  {
    var last := |seats| - 1;
    if last == 0 {
      i := 0;
    } else {
      i := Hindmost(seats[..last]);
      forall j | 0 <= j < last
        ensures seats[i].call <= seats[j].call
      {
        assert seats[..last][i].call <= seats[..last][j].call;
      }
      if seats[last].call < seats[i].call {
        i := last;
      }
    }
  }

  /** In the call of the hindmost rank, a step that must be possible for the call is so for the session. */
  lemma StepOfHindmost(calls: Calls, n: nat, seats: seq<Seat>, k: nat, a: Action)
    requires AllValid(calls, n) && SeatsOk(calls, n, seats) && k < |calls|
    requires forall j :: 0 <= j < n ==> k <= seats[j].call
    requires StrictlyEnabled(calls[k], View(seats, k), a)
    ensures MustTake(calls, n, seats, a)
  {
    var m := Mover(a);
    assert SeatOk(calls, n, m, seats[m]);
    match a
    case Enter(i) =>
    case Deliver(i, r) =>
      assert SeatOk(calls, n, i, seats[i]);
      var p := seats[r].rank.phase;
      OrdinalMatching(calls, seats, i, k, p);
      assert seats[i].posted[Offset(calls, k) + p] == Post(calls[k].Block(p, i), calls[k].root[i]);
    case Leave(i) =>
      forall j | 0 <= j < n
        ensures seats[i].completed < |seats[j].posted|
      {
        assert SeatOk(calls, n, j, seats[j]);
        OrdinalMatching(calls, seats, j, k, seats[i].rank.phase);
      }
      ReceivedByOrdinal(calls, n, seats, k, i);
  }

  lemma ReceivedByOrdinal(calls: Calls, n: nat, seats: seq<Seat>, k: nat, i: nat)
    requires AllValid(calls, n) && SeatsOk(calls, n, seats) && k < |calls| && i < n && seats[i].call == k
    requires forall j :: 0 <= j < n ==> k <= seats[j].call
    requires Received(calls[k], View(seats, k), seats[i].rank.phase)
    ensures forall r :: 0 <= r < n && calls[k].Receives(r) ==>
              || seats[i].completed < seats[r].completed
              || (seats[r].completed == seats[i].completed && seats[r].rank.inside && seats[r].rank.arrived == Below(n))
  {
    assert SeatOk(calls, n, i, seats[i]);
    forall r | 0 <= r < n && calls[k].Receives(r)
      ensures || seats[i].completed < seats[r].completed
              || (seats[r].completed == seats[i].completed && seats[r].rank.inside && seats[r].rank.arrived == Below(n))
    {
      assert SeatOk(calls, n, r, seats[r]);
      if k < seats[r].call {
        OffsetGrows(calls, k, seats[r].call);
      }
    }
  }

  /** The call of the hindmost rank, if it is not the last, has a step that must be possible. */
  lemma SomeStep(calls: Calls, n: nat, seats: seq<Seat>, i: nat) returns (a: Action)
    requires AllValid(calls, n) && Sensible(calls, n) && SeatsOk(calls, n, seats)
    requires i < n && seats[i].call < |calls| && forall j :: 0 <= j < n ==> seats[i].call <= seats[j].call
    requires Inv(calls[seats[i].call], View(seats, seats[i].call)) && Faultless(View(seats, seats[i].call))
    ensures MustTake(calls, n, seats, a)
  {
    var k := seats[i].call;
    assert SeatOk(calls, n, i, seats[i]);
    assert !Finished(calls[k], View(seats, k)[i]);
    a := CanStep(calls[k], View(seats, k));
    StepOfHindmost(calls, n, seats, k, a);
  }

  /** No deadlock across calls: until every rank has returned from all of them, some step must be possible. */
  lemma SessionNeverStuck(calls: Calls, n: nat, steps: seq<Action>)
    requires AllValid(calls, n) && Sensible(calls, n) && Take(calls, n, steps).Some?
    ensures var seats := Take(calls, n, steps).value;
            AllReturned(calls, seats) || exists a :: MustTake(calls, n, seats, a)
  {
    var seats := Take(calls, n, steps).value;
    SeatsAlwaysOk(calls, n, steps);
    var i := Hindmost(seats);
    var k := seats[i].call;
    if k < |calls| {
      CallsDoNotInterfere(calls, n, steps, k);
      InvAlways(calls[k], Of(calls, n, steps, k));
      HealthyIsFit(calls[k]);
      NeverFaults(calls[k], Of(calls, n, steps, k));
      var a := SomeStep(calls, n, seats, i);
    } else {
      AllAtEnd(calls, n, seats);
    }
  }

  lemma AllAtEnd(calls: Calls, n: nat, seats: seq<Seat>)
    requires AllValid(calls, n) && SeatsOk(calls, n, seats) && forall j :: 0 <= j < n ==> |calls| <= seats[j].call
    ensures AllReturned(calls, seats)
  {
    forall j | 0 <= j < n
      ensures seats[j].call == |calls|
    {
      assert SeatOk(calls, n, j, seats[j]);
    }
  }

  /** How many of the steps each call has. */
  function Shares(calls: Calls, n: nat, steps: seq<Action>): (r: seq<int>)
    requires AllValid(calls, n) && Take(calls, n, steps).Some?
    ensures |r| == |calls|
  {
    seq(|calls|, k requires 0 <= k < |calls| => |Of(calls, n, steps, k)|)
  }

  lemma ShareIsBounded(calls: Calls, n: nat, steps: seq<Action>, k: nat)
    requires AllValid(calls, n) && Take(calls, n, steps).Some? && k < |calls|
    ensures |Of(calls, n, steps, k)| <= MostSteps(calls[k])
  {
    CallsDoNotInterfere(calls, n, steps, k);
    RunsAreBounded(calls[k], Of(calls, n, steps, k));
  }

  /** A session has as many steps as its calls together, each call within the bound it has alone. */
  lemma SessionIsBounded(calls: Calls, n: nat, steps: seq<Action>)
    requires AllValid(calls, n) && Take(calls, n, steps).Some?
    ensures |steps| == Sum(Shares(calls, n, steps))
    ensures forall k :: 0 <= k < |calls| ==> Shares(calls, n, steps)[k] <= MostSteps(calls[k])
  {
    forall k | 0 <= k < |calls|
      ensures |Of(calls, n, steps, k)| <= MostSteps(calls[k])
    {
      ShareIsBounded(calls, n, steps, k);
    }
    SharesAddUp(calls, n, steps);
  }

  lemma OneMore(calls: Calls, n: nat, steps: seq<Action>)
    requires AllValid(calls, n) && Take(calls, n, steps).Some? && steps != []
    ensures var front, a := steps[..|steps| - 1], steps[|steps| - 1];
            var k := At(Take(calls, n, front).value, a);
            k < |calls| &&
            Shares(calls, n, steps) == Shares(calls, n, front)[k := |Of(calls, n, front, k)| + 1]
  {
  }

  lemma {:induction false} SharesAddUp(calls: Calls, n: nat, steps: seq<Action>)
    requires AllValid(calls, n) && Take(calls, n, steps).Some?
    ensures |steps| == Sum(Shares(calls, n, steps))
  {
    if steps == [] {
      SumConstant(Shares(calls, n, steps), 0);
    } else {
      var front, a := steps[..|steps| - 1], steps[|steps| - 1];
      var k := At(Take(calls, n, front).value, a);
      SharesAddUp(calls, n, front);
      OneMore(calls, n, steps);
      SumUpdate(Shares(calls, n, front), k, |Of(calls, n, front, k)| + 1);
    }
  }

  /**
   * Total correctness of a session: once no step is left, every rank has returned from every call
   * with what that call promises, however far ahead of each other the ranks were.
   */
  lemma SessionCompletes(calls: Calls, n: nat, steps: seq<Action>)
    requires AllValid(calls, n) && Sensible(calls, n) && Take(calls, n, steps).Some?
    requires forall a :: !MustTake(calls, n, Take(calls, n, steps).value, a)
    ensures var seats := Take(calls, n, steps).value;
            && AllReturned(calls, seats)
            && forall k, r :: 0 <= k < |calls| && 0 <= r < n ==>
                 Result(calls[k], View(seats, k), r) == Promised(calls[k], r)
  {
    var seats := Take(calls, n, steps).value;
    SessionNeverStuck(calls, n, steps);
    SeatsAlwaysOk(calls, n, steps);
    forall k, r | 0 <= k < |calls| && 0 <= r < n
      ensures Result(calls[k], View(seats, k), r) == Promised(calls[k], r)
    {
      assert SeatOk(calls, n, r, seats[r]);
      CallsDoNotInterfere(calls, n, steps, k);
      if calls[k].Receives(r) {
        PromiseKept(calls[k], Of(calls, n, steps, k), r);
      }
    }
  }
}
