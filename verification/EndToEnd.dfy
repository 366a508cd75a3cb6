/** The whole pipeline over every interleaving: objects in, objects out, on every rank. */
module EndToEnd {
  import opened Bytes
  import opened Outcomes
  import opened Codec
  import opened Protocol
  import opened ProtocolSafety
  import opened ProtocolLiveness
  import opened TypedCommPP

  /** The run cannot be carried further, even by an MPI that never lets a rank run ahead. */
  ghost predicate Exhausted(c: Config, acts: seq<Action>)
    requires c.Valid()
  {
    Exec(c, acts).Some? && forall a :: !StrictlyEnabled(c, Exec(c, acts).value, a)
  }

  /**
   * gatherv is exact end to end. Let each rank pass an object of one type, all with the same root
   * or none, the images together no longer than an int. Then every exhausted run has ended on
   * every rank, cutting and decoding turns each root's buffer into rank i's object at place i (or
   * the concatenation of the containers), and no other rank has a value.
   */
  lemma TypedGathervCompletes(roots: seq<Option<nat>>, ty: Ty, objs: seq<Val>, acts: seq<Action>)
    requires WellFormed(ty) && AllHaveType(ty, objs)
    requires var c := CallOf(GathervCall, roots, ty, objs);
             c.Valid() && c.Healthy() && c.RootsAgree() && Exhausted(c, acts)
    ensures var c := CallOf(GathervCall, roots, ty, objs); var s := Exec(c, acts).value;
            forall r :: 0 <= r < |objs| ==>
              && Finished(c, s[r])
              && (Result(c, s, r).Some? <==> c.Receives(r))
              && (c.Receives(r) ==>
                    var (buffer, sizes) := Result(c, s, r).value;
                    Cuttable(buffer, sizes) && Typed(ty, buffer, sizes) == Returned(Expectation(ty, objs)))
  {
    CallCompletes(CallOf(GathervCall, roots, ty, objs), acts);
    TypedImages(ty, objs);
  }

  /** A flat gather's output has exactly the room for the images, if they have one length. */
  lemma OutputIsFull(roots: seq<Option<nat>>, ty: Ty, objs: seq<Val>, r: nat)
    requires WellFormed(ty) && AllHaveType(ty, objs) && |roots| == |objs| && r < |objs|
    requires var c := GatherCallOf(roots, ty, objs); c.Valid() && c.Healthy() && c.Receives(r)
    ensures var c := GatherCallOf(roots, ty, objs); Promised(c, r) == Some((Flatten(c.data), Lengths(c.data)))
  {
    var c := GatherCallOf(roots, ty, objs);
    if c.kind.GatherIntoCall? {
      var all, out := Flatten(c.data), c.kind.out[r];
      FlattenLength(c.data);
      SumCopies(Lengths(c.data), |c.data[r]|);
      CopiesIsProduct(c.N(), |c.data[r]|);
      assert |out| == |all|;
      assert all + out[|all|..] == all;
    }
  }

  /**
   * gather is exact end to end: the same for images of one length, with the loop of gather, which
   * knows no sizes and divides the buffer by the number of ranks (or, for flat containers, has
   * received straight into the result).
   */
  lemma TypedGatherCompletes(roots: seq<Option<nat>>, ty: Ty, objs: seq<Val>, acts: seq<Action>)
    requires WellFormed(ty) && AllHaveType(ty, objs) && |roots| == |objs|
    requires var c := GatherCallOf(roots, ty, objs);
             c.Valid() && c.Healthy() && c.RootsAgree() && Exhausted(c, acts)
    ensures var c := GatherCallOf(roots, ty, objs); var s := Exec(c, acts).value;
            forall r :: 0 <= r < |objs| ==>
              && Finished(c, s[r])
              && (Result(c, s, r).Some? <==> c.Receives(r))
              && (c.Receives(r) ==> GatherTyped(ty, Result(c, s, r).value.0, |objs|) == Returned(Expectation(ty, objs)))
  {
    var c := GatherCallOf(roots, ty, objs);
    CallCompletes(c, acts);
    GatherTypedImages(ty, objs);
    forall r | 0 <= r < |objs| && c.Receives(r)
      ensures Result(c, Exec(c, acts).value, r).value.0 == Flatten(Images(ty, objs))
    {
      OutputIsFull(roots, ty, objs, r);
    }
  }

  /** Where both may be used, every run of either leaves the same bytes and counts on every rank. */
  lemma GatherSameBytes(roots: seq<Option<nat>>, ty: Ty, objs: seq<Val>, acts: seq<Action>, actsV: seq<Action>)
    requires WellFormed(ty) && AllHaveType(ty, objs) && |roots| == |objs|
    requires var c := GatherCallOf(roots, ty, objs);
             c.Valid() && c.Healthy() && c.RootsAgree() && Exhausted(c, acts)
    requires var v := CallOf(GathervCall, roots, ty, objs); v.Healthy() && Exhausted(v, actsV)
    ensures var c, v := GatherCallOf(roots, ty, objs), CallOf(GathervCall, roots, ty, objs);
            forall r :: 0 <= r < |objs| ==> Result(c, Exec(c, acts).value, r) == Result(v, Exec(v, actsV).value, r)
  {
    var c, v := GatherCallOf(roots, ty, objs), CallOf(GathervCall, roots, ty, objs);
    CallCompletes(c, acts);
    CallCompletes(v, actsV);
    forall r | 0 <= r < |objs| && c.Receives(r)
      ensures Promised(c, r) == Promised(v, r)
    {
      OutputIsFull(roots, ty, objs, r);
    }
  }

  /** gather refines gatherv: where both may be used, not only the bytes but the typed results are the same. */
  lemma GatherAgreesWithGatherv(roots: seq<Option<nat>>, ty: Ty, objs: seq<Val>, acts: seq<Action>, actsV: seq<Action>)
    requires WellFormed(ty) && AllHaveType(ty, objs) && |roots| == |objs|
    requires var c := GatherCallOf(roots, ty, objs);
             c.Valid() && c.Healthy() && c.RootsAgree() && Exhausted(c, acts)
    requires var v := CallOf(GathervCall, roots, ty, objs); v.Healthy() && Exhausted(v, actsV)
    ensures var c, v := GatherCallOf(roots, ty, objs), CallOf(GathervCall, roots, ty, objs);
            forall r :: 0 <= r < |objs| ==>
              var mine, other := Result(c, Exec(c, acts).value, r), Result(v, Exec(v, actsV).value, r);
              && mine == other
              && (mine.Some? ==>
                    && Cuttable(other.value.0, other.value.1)
                    && GatherTyped(ty, mine.value.0, |objs|) == Typed(ty, other.value.0, other.value.1))
  {
    GatherSameBytes(roots, ty, objs, acts, actsV);
    TypedGatherCompletes(roots, ty, objs, acts);
    TypedGathervCompletes(roots, ty, objs, actsV);
  }

  /** Two exhausted runs of one call end alike on every rank: the schedule does not show. */
  lemma ScheduleDoesNotShow(c: Config, acts: seq<Action>, acts': seq<Action>)
    requires c.Valid() && c.Healthy() && c.RootsAgree() && Exhausted(c, acts) && Exhausted(c, acts')
    ensures forall r :: 0 <= r < c.N() ==> Result(c, Exec(c, acts).value, r) == Result(c, Exec(c, acts').value, r)
  {
    CallCompletes(c, acts);
    CallCompletes(c, acts');
  }
}
