/** The typed layer of `CommPP`: objects to bytes, the collective, and the loops that cut and decode. */
module TypedCommPP {
  import opened Bytes
  import opened Outcomes
  import opened Codec
  import opened Protocol
  import opened ProtocolSafety
  import CommPP

  // ---------------------------------------------------------------------------
  // Views of a buffer
  // ---------------------------------------------------------------------------

  /**
   * `BinaryViewBase(buffer.data() + off, n)`: it is refused exactly for the null pointer, which the
   * data of an empty buffer is, with a size; otherwise the buffer carries the view's `n` bytes at `off`.
   */
  method MakeView(buffer: seq<byte>, off: nat, n: nat) returns (rv: Outcome<seq<byte>>)
    requires buffer != [] ==> off + n <= |buffer|
    ensures rv.Failed? <==> buffer == [] && 0 < n
    ensures rv.Failed? ==> rv.why == NullWithSize
    ensures rv.Returned? ==> |rv.value| == n && (buffer != [] ==> CarriesAt(buffer, off, rv.value))
  {
    if buffer == [] {
      return if 0 < n then Failed(NullWithSize) else Returned([]);
    }
    rv := Returned(buffer[off..off + n]);
  }

  /** `from_binary_view`: the serialized branch copies the view into a stream byte by byte. */
  method FromBinaryView(ty: Ty, view: seq<byte>) returns (rv: Outcome<Val>)
    requires WellFormed(ty)
    ensures rv == match FromBinary(ty, view)
                  case Short => Failed(ShortArchive)
                  case Got(v, _) => Returned(v)
  {
    if NeedsSerialized(ty) {
      var stream: seq<byte> := [];
      var i := 0;
      while i < |view|
        invariant 0 <= i <= |view| && stream == view[..i]
      {
        stream := stream + [view[i]];
        i := i + 1;
      }
      assert stream == view;
      match Decode(ty, stream) {
        case Short => rv := Failed(ShortArchive);
        case Got(v, _) => rv := Returned(v);
      }
    } else {
      rv := Returned(List(FromFlat(ty.elem.width, view)));
    }
  }

  // ---------------------------------------------------------------------------
  // What the typed calls promise
  // ---------------------------------------------------------------------------

  /** `gather_return_t`: a vector of objects, or one flattened container. */
  datatype Gathered = Objects(objs: seq<Val>) | Container(whole: Val)

  function Items(w: nat, v: Val): (r: seq<Val>)
    requires HasType(Vec(Fixed(w)), v)
    ensures AllHaveType(Fixed(w), r)
  {
    v.items
  }

  function ItemLists(w: nat, objs: seq<Val>): (r: seq<seq<Val>>)
    requires AllHaveType(Vec(Fixed(w)), objs)
    ensures |r| == |objs|
  {
    seq(|objs|, i requires 0 <= i < |objs| => Items(w, objs[i]))
  }

  /** Rank i's object at place i; or, for flat containers, all ranks' elements in rank order. */
  function Expectation(ty: Ty, objs: seq<Val>): Gathered
    requires AllHaveType(ty, objs)
  {
    if NeedsSerialized(ty) then Objects(objs) else Container(List(Flatten(ItemLists(ty.elem.width, objs))))
  }

  /** In the flattened container rank i's elements begin where those of the ranks before it end. */
  lemma ExpectationIs(ty: Ty, objs: seq<Val>, parts: seq<seq<Val>>)
    requires AllHaveType(ty, objs) && |parts| == |objs|
    requires !NeedsSerialized(ty) ==> forall i :: 0 <= i < |objs| ==> objs[i] == List(parts[i])
    ensures NeedsSerialized(ty) ==> Expectation(ty, objs) == Objects(objs)
    ensures !NeedsSerialized(ty) ==>
              && Expectation(ty, objs).Container? && Expectation(ty, objs).whole.List?
              && |Expectation(ty, objs).whole.items| == Sum(Lengths(parts))
              && forall i :: 0 <= i < |objs| ==>
                   CarriesAt(Expectation(ty, objs).whole.items, Sum(Lengths(parts)[..i]), parts[i])
  {
    if !NeedsSerialized(ty) {
      assert ItemLists(ty.elem.width, objs) == parts;
      FlattenLength(parts);
      forall i | 0 <= i < |objs| ensures CarriesAt(Flatten(parts), Sum(Lengths(parts)[..i]), parts[i]) {
        FlattenSlice(parts, i);
      }
    }
  }

  function Images(ty: Ty, objs: seq<Val>): (r: seq<seq<byte>>)
    requires AllHaveType(ty, objs)
    ensures |r| == |objs|
    ensures forall i :: 0 <= i < |r| ==> r[i] == ToBinary(ty, objs[i])
  {
    seq(|objs|, i requires 0 <= i < |objs| => ToBinary(ty, objs[i]))
  }

  /** The call the ranks make when rank i passes `objs[i]`. */
  function CallOf(kind: Kind, roots: seq<Option<nat>>, ty: Ty, objs: seq<Val>): Config
    requires AllHaveType(ty, objs)
  {
    Config(kind, roots, Images(ty, objs))
  }

  predicate IsTypedCall(roots: seq<Option<nat>>, ty: Ty, objs: seq<Val>, me: nat) {
    && WellFormed(ty) && AllHaveType(ty, objs)
    && CommPP.IsCall(CallOf(GathervCall, roots, ty, objs), me)
  }

  // ---------------------------------------------------------------------------
  // Flat containers: the gathered bytes are the image of the gathered elements
  // ---------------------------------------------------------------------------

  lemma {:induction false} FlatImages(w: nat, objs: seq<Val>)
    requires AllHaveType(Vec(Fixed(w)), objs)
    ensures AllHaveType(Fixed(w), Flatten(ItemLists(w, objs)))
    ensures Flatten(Images(Vec(Fixed(w)), objs)) == FlatBytes(w, Flatten(ItemLists(w, objs)))
  {
    if objs == [] {
    } else {
      var last := |objs| - 1;
      var init := objs[..last];
      FlatImages(w, init);
      assert ItemLists(w, objs)[..last] == ItemLists(w, init);
      assert Images(Vec(Fixed(w)), objs)[..last] == Images(Vec(Fixed(w)), init);
      assert HasType(Vec(Fixed(w)), objs[last]);
      FlatConcat(w, Flatten(ItemLists(w, init)), Items(w, objs[last]));
    }
  }

  /**
   * Element by element: `from_binary_view<element_type>` on each `sizeof` bytes of the buffer.
   * The int counter runs up to the size of the buffer, so it stops exactly at the end iff the
   * buffer holds whole elements.
   */
  method DecodeElements(w: nat, buffer: seq<byte>) returns (rv: Outcome<seq<Val>>)
    requires 1 <= w
    ensures rv == if |buffer| % w == 0 then Returned(FromFlat(w, buffer)) else Failed(OverRead)
  {
    var vec: seq<Val> := [];
    var i := 0;
    ghost var whole := FromFlat(w, buffer);
    while i < |buffer|
      invariant 0 <= i <= |buffer| && i == |vec| * w
      invariant |vec| <= |whole| && vec == whole[..|vec|]
    {
      ElementBounds(w, |buffer|, |vec|, i);
      if |buffer| < i + w {
        return Failed(OverRead);
      }
      var view := MakeView(buffer, i, w);
      var elem := FromBinaryView(Fixed(w), view.value);
      assert elem.value == whole[|vec|];
      vec := vec + [elem.value];
      i := i + w;
    }
    MulDiv(|vec|, w, |buffer|);
    assert whole[..|whole|] == whole;
    rv := Returned(vec);
  }

  lemma ElementBounds(w: nat, len: nat, j: nat, i: nat)
    requires 1 <= w && i == j * w && i < len
    ensures i + w == (j + 1) * w
    ensures len < i + w ==> len % w != 0
    ensures i + w <= len ==> j < len / w
  {
    var q := len / w;
    assert len == q * w + len % w;
    if q < j {
      MulLe(q + 1, j, w);
    } else if j < q {
      MulLe(j + 1, q, w);
    }
  }

  // ---------------------------------------------------------------------------
  // Serialized objects: block by block
  // ---------------------------------------------------------------------------

  /** The objects the blocks decode to, in order; the first failure otherwise. */
  function DecodeBlocks(ty: Ty, blocks: seq<seq<byte>>): (r: Outcome<seq<Val>>)
    requires WellFormed(ty)
    ensures r.Returned? ==> |r.value| == |blocks|
  {
    if blocks == [] then Returned([])
    else
      var last := |blocks| - 1;
      var front := DecodeBlocks(ty, blocks[..last]);
      if front.Failed? then front
      else
        match FromBinary(ty, blocks[last])
        case Short => Failed(ShortArchive)
        case Got(v, _) => Returned(front.value + [v])
  }

  lemma DecodeSnoc(ty: Ty, blocks: seq<seq<byte>>, block: seq<byte>, objs: seq<Val>)
    requires WellFormed(ty) && DecodeBlocks(ty, blocks) == Returned(objs)
    ensures DecodeBlocks(ty, blocks + [block])
         == match FromBinary(ty, block)
            case Short => Failed(ShortArchive)
            case Got(v, _) => Returned(objs + [v])
  {
    assert (blocks + [block])[..|blocks|] == blocks;
  }

  /** Blocks that each decode decode in order. */
  lemma {:induction false} DecodeEach(ty: Ty, blocks: seq<seq<byte>>, objs: seq<Val>)
    requires WellFormed(ty) && |blocks| == |objs|
    requires forall i :: 0 <= i < |blocks| ==> FromBinary(ty, blocks[i]) == Got(objs[i], [])
    ensures DecodeBlocks(ty, blocks) == Returned(objs)
  {
    if blocks != [] {
      var last := |blocks| - 1;
      DecodeEach(ty, blocks[..last], objs[..last]);
      DecodeSnoc(ty, blocks[..last], blocks[last], objs[..last]);
      assert blocks[..last] + [blocks[last]] == blocks && objs[..last] + [objs[last]] == objs;
    }
  }

  /** The images of objects decode to those objects. */
  lemma DecodeImages(ty: Ty, objs: seq<Val>)
    requires WellFormed(ty) && AllHaveType(ty, objs)
    ensures DecodeBlocks(ty, Images(ty, objs)) == Returned(objs)
  {
    forall i | 0 <= i < |objs|
      ensures FromBinary(ty, Images(ty, objs)[i]) == Got(objs[i], [])
    {
      BinaryRoundTrip(ty, objs[i]);
    }
    DecodeEach(ty, Images(ty, objs), objs);
  }

  lemma {:induction false} FailureStays(ty: Ty, blocks: seq<seq<byte>>, i: nat)
    requires WellFormed(ty) && i <= |blocks| && DecodeBlocks(ty, blocks[..i]).Failed?
    ensures DecodeBlocks(ty, blocks) == DecodeBlocks(ty, blocks[..i])
  {
    if i == |blocks| {
      assert blocks[..i] == blocks;
    } else {
      var last := |blocks| - 1;
      assert blocks[..last][..i] == blocks[..i];
      FailureStays(ty, blocks[..last], i);
    }
  }

  /** Nonnegative sizes whose total is within the buffer. */
  predicate Cuttable(buffer: seq<byte>, sizes: seq<int>) {
    (forall i :: 0 <= i < |sizes| ==> 0 <= sizes[i]) && Sum(sizes) <= |buffer|
  }

  function CutAt(buffer: seq<byte>, sizes: seq<int>, i: nat): seq<byte>
    requires Cuttable(buffer, sizes) && i < |sizes|
  {
    SumBounds(sizes, i);
    buffer[Sum(sizes[..i])..Sum(sizes[..i]) + sizes[i]]
  }

  /** The buffer cut at the running totals of the sizes. */
  function Cut(buffer: seq<byte>, sizes: seq<int>): (r: seq<seq<byte>>)
    requires Cuttable(buffer, sizes)
    ensures |r| == |sizes|
  {
    seq(|sizes|, i requires 0 <= i < |sizes| => CutAt(buffer, sizes, i))
  }

  /** Cutting undoes concatenating. */
  lemma CutFlatten(blocks: seq<seq<byte>>)
    ensures Cuttable(Flatten(blocks), Lengths(blocks))
    ensures Cut(Flatten(blocks), Lengths(blocks)) == blocks
  {
    FlattenLength(blocks);
    forall i | 0 <= i < |blocks|
      ensures CutAt(Flatten(blocks), Lengths(blocks), i) == blocks[i]
    {
      FlattenSlice(blocks, i);
    }
  }

  /** One more block, decoded: the objects so far are one more, or all of it fails as this one did. */
  lemma OneMoreBlock(ty: Ty, blocks: seq<seq<byte>>, i: nat, done: seq<Val>)
    requires WellFormed(ty) && i < |blocks| && DecodeBlocks(ty, blocks[..i]) == Returned(done)
    ensures match FromBinary(ty, blocks[i])
            case Short => DecodeBlocks(ty, blocks) == Failed(ShortArchive)
            case Got(v, _) => DecodeBlocks(ty, blocks[..i + 1]) == Returned(done + [v])
  {
    var front := blocks[..i];
    DecodeSnoc(ty, front, blocks[i], done);
    assert front + [blocks[i]] == blocks[..i + 1];
    if FromBinary(ty, blocks[i]).Short? {
      FailureStays(ty, blocks, i + 1);
    }
  }

  /**
   * A view of block `i` of `blocks`, which lies at `off`, decoded: one pass of the loops below. The view
   * is never refused, not even one of an empty buffer; only an archive that is too short fails.
   */
  method DecodeBlock(ty: Ty, buffer: seq<byte>, off: nat, n: nat, ghost blocks: seq<seq<byte>>, ghost i: nat,
                     ghost done: seq<Val>)
    returns (obj: Outcome<Val>)
    requires WellFormed(ty) && i < |blocks| && |blocks[i]| == n && CarriesAt(buffer, off, blocks[i])
    requires DecodeBlocks(ty, blocks[..i]) == Returned(done)
    ensures obj.Returned? ==> DecodeBlocks(ty, blocks[..i + 1]) == Returned(done + [obj.value])
    ensures obj.Failed? ==> DecodeBlocks(ty, blocks) == Failed(obj.why) && obj.why == ShortArchive
  {
    OneMoreBlock(ty, blocks, i, done);
    var view := MakeView(buffer, off, n);
    assert view.value == blocks[i];
    obj := FromBinaryView(ty, view.value);
  }

  /** The block of `sizes[i]` bytes at `total`. */
  method DecodeNext(ty: Ty, buffer: seq<byte>, sizes: seq<int>, i: nat, total: int, ghost done: seq<Val>)
    returns (obj: Outcome<Val>)
    requires WellFormed(ty) && Cuttable(buffer, sizes) && i < |sizes| && total == Sum(sizes[..i])
    requires DecodeBlocks(ty, Cut(buffer, sizes)[..i]) == Returned(done)
    ensures obj.Returned? ==> DecodeBlocks(ty, Cut(buffer, sizes)[..i + 1]) == Returned(done + [obj.value])
    ensures obj.Failed? ==> DecodeBlocks(ty, Cut(buffer, sizes)) == Failed(obj.why)
    ensures 0 <= total + sizes[i] == Sum(sizes[..i + 1]) <= |buffer|
  {
    SumStep(sizes, i);
    SumBounds(sizes, i);
    obj := DecodeBlock(ty, buffer, total, sizes[i], Cut(buffer, sizes), i, done);
  }

  /** The loop that cuts the buffer by `sizes` and decodes; its int `total` visits the displacements. */
  method DecodeBySizes(ty: Ty, buffer: seq<byte>, sizes: seq<int>) returns (rv: Outcome<seq<Val>>)
    requires WellFormed(ty) && Cuttable(buffer, sizes) && |buffer| <= INT_MAX
    ensures rv == DecodeBlocks(ty, Cut(buffer, sizes))
  {
    var n := |sizes|;
    var vec := new Val[n](_ => Default(ty));
    var i, total := 0, 0;
    ghost var done: seq<Val> := [];
    while i < n
      invariant 0 <= i <= n && total == Sum(sizes[..i]) && 0 <= total <= INT_MAX
      invariant vec[..i] == done && DecodeBlocks(ty, Cut(buffer, sizes)[..i]) == Returned(done)
    {
      var obj := DecodeNext(ty, buffer, sizes, i, total, done);
      if obj.Failed? {
        return Failed(obj.why);
      }
      vec[i] := obj.value;
      done := done + [obj.value];
      total := total + sizes[i];
      i := i + 1;
    }
    assert vec[..] == vec[..n] && Cut(buffer, sizes)[..n] == Cut(buffer, sizes);
    rv := Returned(vec[..]);
  }

  // ---------------------------------------------------------------------------
  // gatherv_t_
  // ---------------------------------------------------------------------------

  /** What the typed layer makes of a gathered buffer and the bytes each rank sent. */
  function Typed(ty: Ty, buffer: seq<byte>, sizes: seq<int>): Outcome<Gathered>
    requires WellFormed(ty) && Cuttable(buffer, sizes)
  {
    if NeedsSerialized(ty) then
      match DecodeBlocks(ty, Cut(buffer, sizes))
      case Failed(why) => Failed(why)
      case Returned(objs) => Returned(Objects(objs))
    else
      var w := ty.elem.width;
      if |buffer| % w == 0 then Returned(Container(List(FromFlat(w, buffer)))) else Failed(OverRead)
  }

  /** Of the images of the ranks' objects it makes what the documentation promises. */
  lemma TypedImages(ty: Ty, objs: seq<Val>)
    requires WellFormed(ty) && AllHaveType(ty, objs)
    ensures var images := Images(ty, objs);
            && Cuttable(Flatten(images), Lengths(images))
            && Typed(ty, Flatten(images), Lengths(images)) == Returned(Expectation(ty, objs))
  {
    CutFlatten(Images(ty, objs));
    if NeedsSerialized(ty) {
      DecodeImages(ty, objs);
    } else {
      var w := ty.elem.width;
      FlatImages(w, objs);
      var items := Flatten(ItemLists(w, objs));
      FlatLength(w, items);
      MulDiv(|items|, w, |FlatBytes(w, items)|);
      FlatRoundTrip(w, items);
    }
  }

  method TypedResult(ty: Ty, buffer: seq<byte>, sizes: seq<int>) returns (rv: Outcome<Gathered>)
    requires WellFormed(ty) && Cuttable(buffer, sizes) && |buffer| <= INT_MAX
    ensures rv == Typed(ty, buffer, sizes)
  {
    if NeedsSerialized(ty) {
      var vec := DecodeBySizes(ty, buffer, sizes);
      rv := if vec.Failed? then Failed(vec.why) else Returned(Objects(vec.value));
    } else {
      var vec := DecodeElements(ty.elem.width, buffer);
      rv := if vec.Failed? then Failed(vec.why) else Returned(Container(List(vec.value)));
    }
  }

  lemma SentIsCuttable(c: Config)
    requires LayoutFits(AllCounts(c))
    ensures Lengths(AllSent(c)) == AllCounts(c)
    ensures Cuttable(Flatten(AllSent(c)), AllCounts(c)) && |Flatten(AllSent(c))| <= INT_MAX
  {
    assert forall i :: 0 <= i < c.N() ==> 0 <= AllCounts(c)[i];
    FlattenLength(AllSent(c));
  }

  /**
   * gatherv of objects on one rank, for any arrival orders. Without a communicator it throws. A
   * root makes of the gathered bytes what `Typed` says, and any other rank returns nothing; a
   * root whose counts leave int, one by one or in sum, fails.
   */
  method GathervT(comm: Option<nat>, roots: seq<Option<nat>>, ty: Ty, objs: seq<Val>,
                  order0: seq<nat>, order1: seq<nat>)
    returns (rv: Outcome<Option<Gathered>>)
    requires comm.Some? ==> IsTypedCall(roots, ty, objs, comm.value)
    requires comm.Some? ==> CommPP.IsOrder(order0, |objs|) && CommPP.IsOrder(order1, |objs|)
    ensures comm.None? ==> rv == Failed(NoPimpl)
    ensures comm.Some? ==>
              var c := CallOf(GathervCall, roots, ty, objs);
              && (c.Count(comm.value) < 0 ==> rv.Failed?)
              && (0 <= c.Count(comm.value) && !c.Receives(comm.value) ==> rv == Returned(None))
              && (c.Receives(comm.value) && !LayoutFits(AllCounts(c)) ==> rv.Failed?)
              && (c.Receives(comm.value) && LayoutFits(AllCounts(c)) ==>
                    Cuttable(Flatten(AllSent(c)), AllCounts(c)) &&
                    rv == match Typed(ty, Flatten(AllSent(c)), AllCounts(c))
                          case Failed(why) => Failed(why)
                          case Returned(g) => Returned(Some(g)))
  {
    if comm.None? {
      return Failed(NoPimpl);
    }
    var me := comm.value;
    var c := CallOf(GathervCall, roots, ty, objs);
    if LayoutFits(AllCounts(c)) {
      SentIsCuttable(c);
      assert 0 <= AllCounts(c)[me];
    }
    var binary := CommPP.Gatherv(c, me, order0, order1);
    if binary.Failed? {
      return Failed(binary.why);
    }
    if binary.value.None? {
      return Returned(None);
    }
    var (buffer, sizes) := binary.value.value;
    var typed := TypedResult(ty, buffer, sizes);
    rv := if typed.Failed? then Failed(typed.why) else Returned(Some(typed.value));
  }

  lemma FittingCall(c: Config)
    requires c.Valid() && Sum(Lengths(c.data)) <= INT_MAX
    ensures AllSent(c) == c.data && AllCounts(c) == Lengths(c.data) && LayoutFits(AllCounts(c))
  {
    AllFit(c);
  }

  /** A block that decodes to an object is no shorter than the object's image. */
  lemma BlockIsLongEnough(ty: Ty, block: seq<byte>, obj: Val)
    requires WellFormed(ty) && NeedsSerialized(ty) && FromBinary(ty, block).Got? && FromBinary(ty, block).value == obj
    ensures HasType(ty, obj) && |ToBinary(ty, obj)| <= |block|
  {
    EncodeDecode(ty, block);
  }

  /** Of blocks that decode to objects, each decodes to the object at its place. */
  lemma {:induction false} DecodedAt(ty: Ty, blocks: seq<seq<byte>>, objs: seq<Val>, i: nat)
    requires WellFormed(ty) && DecodeBlocks(ty, blocks) == Returned(objs) && i < |blocks|
    ensures |objs| == |blocks| && FromBinary(ty, blocks[i]).Got? && FromBinary(ty, blocks[i]).value == objs[i]
  {
    var last := |blocks| - 1;
    if i < last {
      DecodedAt(ty, blocks[..last], objs[..last], i);
    }
  }

  lemma {:induction false} SumBelow(xs: seq<int>, ys: seq<int>)
    requires |xs| == |ys| && forall i :: 0 <= i < |xs| ==> xs[i] <= ys[i]
    ensures Sum(xs) <= Sum(ys)
  {
    if xs != [] {
      SumBelow(xs[..|xs| - 1], ys[..|ys| - 1]);
    }
  }

  /** So blocks that decode to objects are together no shorter than the images. */
  lemma BlocksAreLongEnough(ty: Ty, blocks: seq<seq<byte>>, objs: seq<Val>)
    requires WellFormed(ty) && AllHaveType(ty, objs) && NeedsSerialized(ty)
    requires DecodeBlocks(ty, blocks) == Returned(objs)
    ensures Sum(Lengths(Images(ty, objs))) <= Sum(Lengths(blocks))
  {
    forall i | 0 <= i < |blocks|
      ensures |objs| == |blocks| && |Images(ty, objs)[i]| <= |blocks[i]|
    {
      DecodedAt(ty, blocks, objs, i);
      BlockIsLongEnough(ty, blocks[i], objs[i]);
    }
    SumBelow(Lengths(Images(ty, objs)), Lengths(blocks));
  }

  lemma CutLengths(buffer: seq<byte>, sizes: seq<int>)
    requires Cuttable(buffer, sizes)
    ensures Lengths(Cut(buffer, sizes)) == sizes
  {
    forall i | 0 <= i < |sizes|
      ensures |Cut(buffer, sizes)[i]| == sizes[i]
    {
      SumBounds(sizes, i);
    }
  }

  /** A buffer from which all the elements are read is no shorter than the images together. */
  lemma ElementsNeedAll(w: nat, objs: seq<Val>, buffer: seq<byte>)
    requires 1 <= w && AllHaveType(Vec(Fixed(w)), objs)
    requires FromFlat(w, buffer) == Flatten(ItemLists(w, objs))
    ensures Sum(Lengths(Images(Vec(Fixed(w)), objs))) <= |buffer|
  {
    FlatImages(w, objs);
    var items := Flatten(ItemLists(w, objs));
    FlatLength(w, items);
    FlattenLength(Images(Vec(Fixed(w)), objs));
    WholeElements(|buffer|, w, |items|);
  }

  lemma WholeElements(len: nat, w: nat, n: nat)
    requires 1 <= w && n == len / w
    ensures n * w <= len
  {
  }

  /** A buffer that yields what the documentation promises is no shorter than the images together. */
  lemma PromiseNeedsAll(ty: Ty, objs: seq<Val>, buffer: seq<byte>, sizes: seq<int>)
    requires WellFormed(ty) && AllHaveType(ty, objs) && Cuttable(buffer, sizes)
    requires Typed(ty, buffer, sizes) == Returned(Expectation(ty, objs))
    ensures Sum(Lengths(Images(ty, objs))) <= |buffer|
  {
    if NeedsSerialized(ty) {
      BlocksAreLongEnough(ty, Cut(buffer, sizes), objs);
      CutLengths(buffer, sizes);
    } else {
      ElementsNeedAll(ty.elem.width, objs, buffer);
    }
  }

  /** On a root the typed result is what is promised exactly when all that was to be sent fits in an int. */
  lemma PromisedIffFits(c: Config, ty: Ty, objs: seq<Val>)
    requires WellFormed(ty) && AllHaveType(ty, objs) && c.data == Images(ty, objs) && c.Valid()
    requires LayoutFits(AllCounts(c)) && Cuttable(Flatten(AllSent(c)), AllCounts(c))
    ensures Typed(ty, Flatten(AllSent(c)), AllCounts(c)) == Returned(Expectation(ty, objs)) <==>
            Sum(Lengths(c.data)) <= INT_MAX
  {
    SentIsCuttable(c);
    if Sum(Lengths(c.data)) <= INT_MAX {
      FittingCall(c);
      TypedImages(ty, objs);
    } else if Typed(ty, Flatten(AllSent(c)), AllCounts(c)) == Returned(Expectation(ty, objs)) {
      PromiseNeedsAll(ty, objs, Flatten(AllSent(c)), AllCounts(c));
    }
  }

  /** gatherv with a root: it alone gets the objects, exactly when their images together fit in an int. */
  method GathervToRoot(me: nat, root: nat, ty: Ty, objs: seq<Val>, order0: seq<nat>, order1: seq<nat>)
    returns (rv: Outcome<Option<Gathered>>)
    requires WellFormed(ty) && AllHaveType(ty, objs) && me < |objs| && root < |objs|
    requires CommPP.IsOrder(order0, |objs|) && CommPP.IsOrder(order1, |objs|)
    ensures me == root ==>
              (rv == Returned(Some(Expectation(ty, objs))) <==> Sum(Lengths(Images(ty, objs))) <= INT_MAX)
    ensures me != root ==> if Narrow32(|ToBinary(ty, objs[me])|) < 0 then rv.Failed? else rv == Returned(None)
  {
    var roots := seq(|objs|, _ => Some(root));
    rv := GathervT(Some(me), roots, ty, objs, order0, order1);
    ghost var c := CallOf(GathervCall, roots, ty, objs);
    if me == root {
      WhenFits(c, ty, objs);
    }
  }

  /** Whether or not the counts fit, a root's typed result is the promised one iff the images fit. */
  lemma WhenFits(c: Config, ty: Ty, objs: seq<Val>)
    requires WellFormed(ty) && AllHaveType(ty, objs) && c.data == Images(ty, objs) && c.Valid()
    ensures LayoutFits(AllCounts(c)) ==> Cuttable(Flatten(AllSent(c)), AllCounts(c))
    ensures LayoutFits(AllCounts(c)) &&
            Typed(ty, Flatten(AllSent(c)), AllCounts(c)) == Returned(Expectation(ty, objs)) <==>
            Sum(Lengths(c.data)) <= INT_MAX
  {
    if Sum(Lengths(c.data)) <= INT_MAX {
      FittingCall(c);
    }
    if LayoutFits(AllCounts(c)) {
      SentIsCuttable(c);
      PromisedIffFits(c, ty, objs);
    }
  }

  /**
   * gatherv without a root: every rank is one, so the optional it dereferences always has a value.
   * It returns all ranks' objects exactly when their images together fit in an int.
   */
  method AllGathervT(me: nat, ty: Ty, objs: seq<Val>, order0: seq<nat>, order1: seq<nat>)
    returns (rv: Outcome<Gathered>)
    requires WellFormed(ty) && AllHaveType(ty, objs) && me < |objs|
    requires CommPP.IsOrder(order0, |objs|) && CommPP.IsOrder(order1, |objs|)
    ensures rv == Returned(Expectation(ty, objs)) <==> Sum(Lengths(Images(ty, objs))) <= INT_MAX
  {
    var roots := seq(|objs|, _ => None);
    var result := GathervT(Some(me), roots, ty, objs, order0, order1);
    WhenFits(CallOf(GathervCall, roots, ty, objs), ty, objs);
    rv := if result.Failed? then Failed(result.why) else Returned(result.value.value);
  }

  // ---------------------------------------------------------------------------
  // gather_t_
  // ---------------------------------------------------------------------------

  lemma {:induction false} CopiesOrder(i: nat, j: nat, x: nat)
    ensures i <= j ==> Copies(i, x) <= Copies(j, x)
    ensures 0 < x && Copies(i, x) < Copies(j, x) ==> i < j
    ensures x == 0 ==> Copies(i, x) == 0
    decreases i + j
  {
    if 0 < j && i < j {
      CopiesOrder(i, j - 1, x);
    } else if 0 < i {
      CopiesOrder(i - 1, j, x);
    }
  }

  /** Equal blocks: block `j` begins at `j * serialized_size`, and the size is the quotient by `size()`. */
  lemma EqualImages(images: seq<seq<byte>>, size: nat)
    requires 1 <= |images| && forall i :: 0 <= i < |images| ==> |images[i]| == size
    ensures |Flatten(images)| == Copies(|images|, size)
    ensures |Flatten(images)| / |images| == size
    ensures forall j :: 0 <= j < |images| ==> CarriesAt(Flatten(images), Copies(j, size), images[j])
  {
    FlattenLength(images);
    SumCopies(Lengths(images), size);
    CopiesIsProduct(|images|, size);
    MulDiv(size, |images|, |Flatten(images)|);
    forall j | 0 <= j < |images|
      ensures CarriesAt(Flatten(images), Copies(j, size), images[j])
    {
      FlattenSlice(images, j);
      SumCopies(Lengths(images)[..j], size);
    }
  }

  /** There is room for `n` blocks of `size` bytes. */
  predicate Room(len: nat, n: nat, size: nat) {
    forall j: nat :: j < n ==> 0 <= Copies(j, size) && Copies(j, size) + size <= len
  }

  /** The quotient is a size for which there is room, and leaves bytes over iff the division does. */
  lemma QuotientFits(len: nat, n: nat)
    requires 1 <= n
    ensures Room(len, n, len / n)
    ensures Copies(n, len / n) == len <==> len % n == 0
  {
    var q := len / n;
    CopiesIsProduct(n, q);
    assert n * q <= len;
    forall j: nat | j < n
      ensures 0 <= Copies(j, q) && Copies(j, q) + q <= len
    {
      CopiesMonotone(j, q, q);
      CopiesOrder(j + 1, n, q);
    }
  }

  /** The `n` blocks of `size` bytes at the front of a buffer. */
  function Chunks(buffer: seq<byte>, n: nat, size: nat): (r: seq<seq<byte>>)
    requires Room(|buffer|, n, size)
    ensures |r| == n
  {
    seq(n, j requires 0 <= j < n => buffer[Copies(j, size)..Copies(j, size) + size])
  }

  /** The loop comes round once more than there are ranks, at `i`: a view or a write past the end. */
  function OnceTooOften(ty: Ty, buffer: seq<byte>, i: int, size: nat): Failure
    requires WellFormed(ty)
  {
    if 0 <= i && i + size <= |buffer| && FromBinary(ty, buffer[i..i + size]).Short? then ShortArchive else OverRead
  }

  /** The objects of `n` blocks of `size` bytes, if that is the whole buffer. */
  function BySize(ty: Ty, buffer: seq<byte>, n: nat, size: nat): Outcome<seq<Val>>
    requires WellFormed(ty) && Room(|buffer|, n, size)
  {
    match DecodeBlocks(ty, Chunks(buffer, n, size))
    case Failed(why) => Failed(why)
    case Returned(objs) =>
      if Copies(n, size) == |buffer| then Returned(objs)
      else Failed(OnceTooOften(ty, buffer, Copies(n, size), size))
  }

  /**
   * What `gather_t_` makes of a buffer: the objects of its `n` equal blocks. An empty buffer leaves
   * `vec` as it was built, and one that `n` does not divide sends the loop past the end.
   */
  function ByQuotient(ty: Ty, buffer: seq<byte>, n: nat): Outcome<seq<Val>>
    requires WellFormed(ty) && 1 <= n
  {
    QuotientFits(|buffer|, n);
    if buffer == [] then Returned(seq(n, _ => Default(ty)))
    else BySize(ty, buffer, n, |buffer| / n)
  }

  /** The next block of `size` bytes, while there are ranks left. */
  method DecodeChunk(ty: Ty, buffer: seq<byte>, n: nat, size: nat, j: nat, i: int, ghost done: seq<Val>)
    returns (obj: Outcome<Val>)
    requires WellFormed(ty) && Room(|buffer|, n, size) && j < n && i == Copies(j, size)
    requires DecodeBlocks(ty, Chunks(buffer, n, size)[..j]) == Returned(done)
    ensures obj.Returned? ==> DecodeBlocks(ty, Chunks(buffer, n, size)[..j + 1]) == Returned(done + [obj.value])
    ensures obj.Failed? ==> BySize(ty, buffer, n, size) == Failed(obj.why)
    ensures i + size == Copies(j + 1, size) <= |buffer|
  {
    obj := DecodeBlock(ty, buffer, i, size, Chunks(buffer, n, size), j, done);
  }

  /** After the last rank's block the buffer is used up, or the loop comes round again. */
  lemma AfterLast(ty: Ty, buffer: seq<byte>, n: nat, size: nat, objs: seq<Val>)
    requires WellFormed(ty) && Room(|buffer|, n, size)
    requires DecodeBlocks(ty, Chunks(buffer, n, size)[..n]) == Returned(objs)
    ensures BySize(ty, buffer, n, size) == if Copies(n, size) == |buffer| then Returned(objs)
                                           else Failed(OnceTooOften(ty, buffer, Copies(n, size), size))
  {
    assert Chunks(buffer, n, size)[..n] == Chunks(buffer, n, size);
  }

  /** The loop over `i += serialized_size, ++j`, for a buffer that is not empty. */
  method DecodeChunks(ty: Ty, n: nat, serializedSize: nat, buffer: seq<byte>) returns (rv: Outcome<seq<Val>>)
    requires WellFormed(ty) && buffer != [] && Room(|buffer|, n, serializedSize)
    ensures rv == BySize(ty, buffer, n, serializedSize)
  {
    var vec := new Val[n](_ => Default(ty));
    var i, j := 0, 0;
    ghost var done: seq<Val> := [];
    while i < |buffer|
      invariant 0 <= j <= n && i == Copies(j, serializedSize) <= |buffer|
      invariant vec[..j] == done && DecodeBlocks(ty, Chunks(buffer, n, serializedSize)[..j]) == Returned(done)
      decreases n - j
    {
      if j == n {
        AfterLast(ty, buffer, n, serializedSize, done);
        return Failed(OnceTooOften(ty, buffer, i, serializedSize));
      }
      var obj := DecodeChunk(ty, buffer, n, serializedSize, j, i, done);
      if obj.Failed? {
        return Failed(obj.why);
      }
      vec[j] := obj.value;
      done := done + [obj.value];
      i, j := i + serializedSize, j + 1;
    }
    RoomReachesEnd(|buffer|, n, serializedSize, j);
    AfterLast(ty, buffer, n, serializedSize, done);
    assert vec[..n] == vec[..];
    rv := Returned(vec[..]);
  }

  /** With room for another block, all the bytes are used up only by blocks of none. */
  lemma RoomReachesEnd(len: nat, n: nat, size: nat, j: nat)
    requires Room(len, n, size) && 0 < len && j <= n && Copies(j, size) == len
    ensures j == n
  {
    CopiesOrder(j, j, size);
  }

  /** `serialized_size` is the quotient by `size()`; the loop never runs on an empty buffer. */
  method DecodeEqualBlocks(ty: Ty, n: nat, buffer: seq<byte>) returns (rv: Outcome<seq<Val>>)
    requires WellFormed(ty) && 1 <= n && |buffer| <= INT_MAX
    ensures rv == ByQuotient(ty, buffer, n)
  {
    QuotientFits(|buffer|, n);
    if buffer == [] {
      var vec := new Val[n](_ => Default(ty));
      assert vec[..] == seq(n, _ => Default(ty));
      return Returned(vec[..]);
    }
    rv := DecodeChunks(ty, n, |buffer| / n, buffer);
  }

  /** The blocks of a concatenation of images of one length are those images. */
  lemma ChunksAreImages(images: seq<seq<byte>>, size: nat)
    requires 1 <= |images| && forall i :: 0 <= i < |images| ==> |images[i]| == size
    ensures Room(|Flatten(images)|, |images|, size) && Chunks(Flatten(images), |images|, size) == images
    ensures |Flatten(images)| / |images| == size && |Flatten(images)| == Copies(|images|, size)
  {
    var buffer := Flatten(images);
    EqualImages(images, size);
    forall j: nat | j < |images|
      ensures 0 <= Copies(j, size) && Copies(j, size) + size <= |buffer|
    {
      assert CarriesAt(buffer, Copies(j, size), images[j]);
    }
    forall j: nat | j < |images|
      ensures Chunks(buffer, |images|, size)[j] == images[j]
    {
      assert CarriesAt(buffer, Copies(j, size), images[j]);
    }
  }

  /** Objects with empty images are default ones. */
  lemma AllDefault(ty: Ty, objs: seq<Val>)
    requires WellFormed(ty) && AllHaveType(ty, objs) && NeedsSerialized(ty)
    requires forall i :: 0 <= i < |objs| ==> |Images(ty, objs)[i]| == 0
    ensures objs == seq(|objs|, _ => Default(ty))
  {
    forall i | 0 <= i < |objs|
      ensures objs[i] == Default(ty)
    {
      assert Images(ty, objs)[i] == [];
      EmptyArchive(ty, objs[i]);
    }
  }

  /** Images of one length, divided evenly, decode to their objects: `gather_t_`'s loop undoes it all. */
  lemma QuotientOfImages(ty: Ty, objs: seq<Val>)
    requires WellFormed(ty) && AllHaveType(ty, objs) && NeedsSerialized(ty) && objs != []
    requires forall i, j :: 0 <= i < |objs| && 0 <= j < |objs| ==> |Images(ty, objs)[i]| == |Images(ty, objs)[j]|
    ensures ByQuotient(ty, Flatten(Images(ty, objs)), |objs|) == Returned(objs)
  {
    var images := Images(ty, objs);
    var size := |images[0]|;
    ChunksAreImages(images, size);
    DecodeImages(ty, objs);
    if Flatten(images) == [] {
      CopiesMonotone(|images|, size, size);
      AllDefault(ty, objs);
    }
  }

  /** `value_type(input.size() * size())` on a root, nothing elsewhere. */
  function Output(roots: seq<Option<nat>>, ty: Ty, objs: seq<Val>, r: nat): seq<byte>
    requires AllHaveType(ty, objs) && |roots| == |objs| && r < |objs|
  {
    seq(if roots[r].None? || roots[r].value == r then |objs| * |ToBinary(ty, objs[r])| else 0, _ => 0)
  }

  /** The call behind gather of `objs[i]` on rank i: serialized images, or containers into containers. */
  function GatherCallOf(roots: seq<Option<nat>>, ty: Ty, objs: seq<Val>): Config
    requires AllHaveType(ty, objs) && |roots| == |objs|
  {
    if NeedsSerialized(ty) then CallOf(GatherCall, roots, ty, objs)
    else CallOf(GatherIntoCall(seq(|objs|, r requires 0 <= r < |objs| => Output(roots, ty, objs, r))), roots, ty, objs)
  }

  /** What `gather_t_` makes of the bytes a root received: the container they were received in, or objects. */
  function GatherTyped(ty: Ty, buffer: seq<byte>, n: nat): Outcome<Gathered>
    requires WellFormed(ty) && 1 <= n
  {
    if NeedsSerialized(ty) then
      match ByQuotient(ty, buffer, n)
      case Failed(why) => Failed(why)
      case Returned(objs) => Returned(Objects(objs))
    else Returned(Container(List(FromFlat(ty.elem.width, buffer))))
  }

  /** Of the images of the ranks' objects, if they have one length, it makes what the documentation promises. */
  lemma GatherTypedImages(ty: Ty, objs: seq<Val>)
    requires WellFormed(ty) && AllHaveType(ty, objs) && objs != []
    requires forall i, j :: 0 <= i < |objs| && 0 <= j < |objs| ==> |Images(ty, objs)[i]| == |Images(ty, objs)[j]|
    ensures GatherTyped(ty, Flatten(Images(ty, objs)), |objs|) == Returned(Expectation(ty, objs))
  {
    if NeedsSerialized(ty) {
      QuotientOfImages(ty, objs);
    } else {
      TypedImages(ty, objs);
    }
  }

  /** The bytes that a root of the flat branch ends up with: those sent, then the zeros of the output. */
  function Received(c: Config, me: nat): seq<byte>
    requires me < c.N()
  {
    var sent := Flatten(AllSent(c));
    var size := c.N() * |c.data[me]|;
    sent + seq(if |sent| <= size then size - |sent| else 0, _ => 0)
  }

  /**
   * gather of objects whose images have one length, on one rank, for any arrival order. A
   * serialized root gets every rank's object iff the gathered images fit in an int, and fails
   * otherwise. A flat root gets the container of the bytes received, which are every rank's
   * elements if its own image fits in an int. The other ranks get nothing. No rank returns whose
   * image length becomes a negative int.
   */
  method GatherT(comm: Option<nat>, roots: seq<Option<nat>>, ty: Ty, objs: seq<Val>, order: seq<nat>)
    returns (rv: Outcome<Option<Gathered>>)
    requires comm.Some? ==> IsTypedCall(roots, ty, objs, comm.value) && CommPP.IsOrder(order, |objs|)
    requires comm.Some? ==> GatherCallOf(roots, ty, objs).SameLengths()
    ensures comm.None? ==> rv == Failed(NoPimpl)
    ensures comm.Some? ==>
              var c := GatherCallOf(roots, ty, objs);
              var me := comm.value;
              var mine := |c.data[me]|;
              && (c.Count(me) < 0 ==> rv.Failed?)
              && (0 <= c.Count(me) && !c.Receives(me) ==> rv == Returned(None))
              && (c.Receives(me) && NeedsSerialized(ty) ==>
                    if Copies(c.N(), mine) <= INT_MAX then rv == Returned(Some(Expectation(ty, objs))) else rv.Failed?)
              && (0 <= c.Count(me) && c.Receives(me) && !NeedsSerialized(ty) ==>
                    && rv == Returned(Some(Container(List(FromFlat(ty.elem.width, Received(c, me))))))
                    && (mine <= INT_MAX ==> rv == Returned(Some(Expectation(ty, objs)))))
  {
    if comm.None? {
      return Failed(NoPimpl);
    }
    var me := comm.value;
    var c := GatherCallOf(roots, ty, objs);
    CopiesMonotone(c.N(), |c.data[me]|, |c.data[me]|);
    if NeedsSerialized(ty) {
      rv := GatherSerialized(c, me, order, ty, objs);
    } else {
      rv := GatherFlat(c, me, order, ty, objs);
    }
  }

  /** The serialized branch. */
  method GatherSerialized(c: Config, me: nat, order: seq<nat>, ty: Ty, objs: seq<Val>)
    returns (rv: Outcome<Option<Gathered>>)
    requires WellFormed(ty) && AllHaveType(ty, objs) && NeedsSerialized(ty)
    requires c.data == Images(ty, objs) && CommPP.IsCall(c, me) && c.SameLengths() && CommPP.IsOrder(order, c.N())
    ensures c.Receives(me) ==>
              if Copies(c.N(), |c.data[me]|) <= INT_MAX
              then rv == Returned(Some(Expectation(ty, objs)))
              else rv.Failed?
    ensures !c.Receives(me) ==> rv == if c.Count(me) < 0 then Failed(MpiCount) else Returned(None)
  {
    var binary := CommPP.Gather(c, me, order);
    if binary.Failed? {
      return Failed(binary.why);
    }
    if binary.value.None? {
      return Returned(None);
    }
    CopiesMonotone(c.N(), |c.data[me]|, |c.data[me]|);
    CommPP.GatherFills(c, me);
    var vec := DecodeEqualBlocks(ty, |objs|, binary.value.value);
    QuotientOfImages(ty, objs);
    rv := Returned(Some(Objects(vec.value)));
  }

  /** The flat branch: the output container is the receive buffer. */
  method GatherFlat(c: Config, me: nat, order: seq<nat>, ty: Ty, objs: seq<Val>)
    returns (rv: Outcome<Option<Gathered>>)
    requires WellFormed(ty) && AllHaveType(ty, objs) && !NeedsSerialized(ty)
    requires c.data == Images(ty, objs) && CommPP.IsCall(c, me) && c.SameLengths() && CommPP.IsOrder(order, c.N())
    ensures c.Count(me) < 0 ==> rv == Failed(MpiCount)
    ensures 0 <= c.Count(me) && !c.Receives(me) ==> rv == Returned(None)
    ensures 0 <= c.Count(me) && c.Receives(me) ==>
              rv == Returned(Some(Container(List(FromFlat(ty.elem.width, Received(c, me))))))
    ensures |c.data[me]| <= INT_MAX && c.Receives(me) ==> rv == Returned(Some(Expectation(ty, objs)))
  {
    CopiesIsProduct(c.N(), |c.data[me]|);
    var output := new byte[if c.Receives(me) then c.N() * |c.data[me]| else 0](_ => 0);
    var done := CommPP.GatherToBuffer(c, me, order, output);
    if done.Failed? {
      return Failed(done.why);
    }
    if !c.Receives(me) {
      return Returned(None);
    }
    assert output[..] == Received(c, me) by {
      var sent := Flatten(AllSent(c));
      assert output[..] == output[..|sent|] + output[|sent|..];
    }
    if |c.data[me]| <= INT_MAX {
      CommPP.GatherFills(c, me);
      assert Received(c, me) == Flatten(c.data);
      TypedImages(ty, objs);
    }
    rv := Returned(Some(Container(List(FromFlat(ty.elem.width, output[..])))));
  }
}
