/** Objects as bytes: the archive layout, its decoder, and the flat form of contiguous containers. */
module Codec {
  import opened Bytes

  /**
   * The C++ types that travel. `Fixed(w)` is a trivially copyable element of `w` bytes
   * (an int, a double, a char); `Unit` is a class whose archive writes nothing. A `std::string`
   * is archived, and laid out in memory, as a `Vec(Fixed(1))`.
   */
  datatype Ty = Unit | Fixed(width: nat) | Vec(elem: Ty) | Pair(first: Ty, second: Ty)

  datatype Val = Nothing | Raw(bytes: seq<byte>) | List(items: seq<Val>) | Both(fst: Val, snd: Val)

  /** `sizeof` of an element is never zero. */
  predicate WellFormed(ty: Ty) {
    match ty
    case Unit => true
    case Fixed(w) => 1 <= w
    case Vec(t) => WellFormed(t)
    case Pair(a, b) => WellFormed(a) && WellFormed(b)
  }

  /** `v` is a value of type `ty`; a vector holds fewer than 2^64 elements. */
  predicate HasType(ty: Ty, v: Val) {
    match ty
    case Unit => v.Nothing?
    case Fixed(w) => v.Raw? && |v.bytes| == w
    case Vec(t) => v.List? && |v.items| < Pow256(8) && AllHaveType(t, v.items)
    case Pair(a, b) => v.Both? && HasType(a, v.fst) && HasType(b, v.snd)
  }

  predicate AllHaveType(ty: Ty, vs: seq<Val>) {
    forall i :: 0 <= i < |vs| ==> HasType(ty, vs[i])
  }

  /** What the default constructor builds: `value_type vec(size())` fills `vec` with these. */
  function Default(ty: Ty): (v: Val)
    ensures HasType(ty, v)
  {
    match ty
    case Unit => Nothing
    case Fixed(w) => Raw(seq(w, _ => 0))
    case Vec(_) => List([])
    case Pair(a, b) => Both(Default(a), Default(b))
  }

  // ---------------------------------------------------------------------------
  // The binary archive
  // ---------------------------------------------------------------------------

  /** The archive of `v`: elements as they lie in memory, vectors behind an 8-byte count. */
  function Encode(ty: Ty, v: Val): seq<byte>
    requires HasType(ty, v)
    decreases ty, 0
  {
    match ty
    case Unit => []
    case Fixed(_) => v.bytes
    case Vec(t) => ToBytes(|v.items|, 8) + EncodeAll(t, v.items)
    case Pair(a, b) => Encode(a, v.fst) + Encode(b, v.snd)
  }

  function EncodeAll(ty: Ty, vs: seq<Val>): seq<byte>
    requires AllHaveType(ty, vs)
    decreases ty, 1, |vs|
  {
    if vs == [] then [] else Encode(ty, vs[0]) + EncodeAll(ty, vs[1..])
  }

  datatype Parsed<+T> = Short | Got(value: T, rest: seq<byte>)

  /** Reads one object of type `ty` off the front of a stream; `Short` when the stream runs out. */
  function Decode(ty: Ty, bs: seq<byte>): Parsed<Val>
    decreases ty, 0
  {
    match ty
    case Unit => Got(Nothing, bs)
    case Fixed(w) => if |bs| < w then Short else Got(Raw(bs[..w]), bs[w..])
    case Vec(t) =>
      if |bs| < 8 then Short
      else
        (match DecodeAll(t, FromBytes(bs[..8]), bs[8..])
         case Short => Short
         case Got(vs, rest) => Got(List(vs), rest))
    case Pair(a, b) =>
      match Decode(a, bs)
      case Short => Short
      case Got(x, rest) =>
        match Decode(b, rest)
        case Short => Short
        case Got(y, rest') => Got(Both(x, y), rest')
  }

  function DecodeAll(ty: Ty, n: nat, bs: seq<byte>): Parsed<seq<Val>>
    decreases ty, 1, n
  {
    if n == 0 then Got([], bs)
    else
      match Decode(ty, bs)
      case Short => Short
      case Got(v, rest) =>
        match DecodeAll(ty, n - 1, rest)
        case Short => Short
        case Got(vs, rest') => Got([v] + vs, rest')
  }

  lemma Reassociate(a: seq<byte>, b: seq<byte>, c: seq<byte>)
    ensures a + b + c == a + (b + c)
  {
  }

  /** The archive of a vector is its count and then its elements. */
  lemma VectorArchive(ty: Ty, v: Val, rest: seq<byte>)
    requires HasType(Vec(ty), v)
    ensures var bs := Encode(Vec(ty), v) + rest;
            8 <= |bs| && bs[..8] == ToBytes(|v.items|, 8) && bs[8..] == EncodeAll(ty, v.items) + rest
  {
    var count := ToBytes(|v.items|, 8);
    Reassociate(count, EncodeAll(ty, v.items), rest);
  }

  /** An archived object is read back whatever follows it, and exactly its own bytes are consumed. */
  lemma {:induction false} DecodeEncode(ty: Ty, v: Val, rest: seq<byte>)
    requires HasType(ty, v)
    ensures Decode(ty, Encode(ty, v) + rest) == Got(v, rest)
    decreases ty, 0
  {
    match ty
    case Unit => assert Encode(ty, v) + rest == rest;
    case Fixed(w) =>
    case Vec(t) =>
      VectorArchive(t, v, rest);
      ToBytesRoundTrip(|v.items|, 8);
      DecodeEncodeAll(t, v.items, rest);
    case Pair(a, b) =>
      Reassociate(Encode(a, v.fst), Encode(b, v.snd), rest);
      DecodeEncode(a, v.fst, Encode(b, v.snd) + rest);
      DecodeEncode(b, v.snd, rest);
  }

  lemma {:induction false} DecodeEncodeAll(ty: Ty, vs: seq<Val>, rest: seq<byte>)
    requires AllHaveType(ty, vs)
    ensures DecodeAll(ty, |vs|, EncodeAll(ty, vs) + rest) == Got(vs, rest)
    decreases ty, 1, |vs|
  {
    if vs == [] {
      assert EncodeAll(ty, vs) + rest == rest;
    } else {
      Reassociate(Encode(ty, vs[0]), EncodeAll(ty, vs[1..]), rest);
      DecodeEncode(ty, vs[0], EncodeAll(ty, vs[1..]) + rest);
      DecodeEncodeAll(ty, vs[1..], rest);
      assert [vs[0]] + vs[1..] == vs;
    }
  }

  /** Only archives decode: whatever the decoder reads is the archive of what it returns. */
  lemma {:induction false} EncodeDecode(ty: Ty, bs: seq<byte>)
    ensures match Decode(ty, bs)
            case Short => true
            case Got(v, rest) => HasType(ty, v) && Encode(ty, v) + rest == bs
    decreases ty, 0
  {
    match ty
    case Unit =>
    case Fixed(w) =>
    case Vec(t) =>
      if 8 <= |bs| {
        var n := FromBytes(bs[..8]);
        FromBytesRoundTrip(bs[..8]);
        EncodeDecodeAll(t, n, bs[8..]);
        assert bs == bs[..8] + bs[8..];
        var d := DecodeAll(t, n, bs[8..]);
        if d.Got? {
          Reassociate(ToBytes(n, 8), EncodeAll(t, d.value), d.rest);
        }
      }
    case Pair(a, b) =>
      EncodeDecode(a, bs);
      match Decode(a, bs)
      case Short =>
      case Got(x, rest) =>
        EncodeDecode(b, rest);
        var d := Decode(b, rest);
        if d.Got? {
          Reassociate(Encode(a, x), Encode(b, d.value), d.rest);
        }
  }

  lemma {:induction false} EncodeDecodeAll(ty: Ty, n: nat, bs: seq<byte>)
    ensures match DecodeAll(ty, n, bs)
            case Short => true
            case Got(vs, rest) => |vs| == n && AllHaveType(ty, vs) && EncodeAll(ty, vs) + rest == bs
    decreases ty, 1, n
  {
    if n > 0 {
      EncodeDecode(ty, bs);
      match Decode(ty, bs)
      case Short =>
      case Got(v, rest) =>
        EncodeDecodeAll(ty, n - 1, rest);
        var d := DecodeAll(ty, n - 1, rest);
        if d.Got? {
          var vs := [v] + d.value;
          assert vs[0] == v && vs[1..] == d.value;
          Reassociate(Encode(ty, v), EncodeAll(ty, d.value), d.rest);
        }
    }
  }

  /** A type whose archive of some object is empty has one value, the default one. */
  lemma {:induction false} EmptyArchive(ty: Ty, v: Val)
    requires WellFormed(ty) && HasType(ty, v)
    requires Encode(ty, v) == []
    ensures v == Default(ty)
  {
    match ty
    case Unit =>
    case Fixed(w) =>
    case Vec(t) => assert false;
    case Pair(a, b) =>
      EmptyArchive(a, v.fst);
      EmptyArchive(b, v.snd);
  }

  // ---------------------------------------------------------------------------
  // Where in the archive everything lies
  // ---------------------------------------------------------------------------

  /** The archives of the items, one by one. */
  function Archives(ty: Ty, vs: seq<Val>): (r: seq<seq<byte>>)
    requires AllHaveType(ty, vs)
    ensures |r| == |vs| && forall i :: 0 <= i < |r| ==> r[i] == Encode(ty, vs[i])
  {
    seq(|vs|, i requires 0 <= i < |vs| => Encode(ty, vs[i]))
  }

  lemma FlattenCons<T>(block: seq<T>, blocks: seq<seq<T>>)
    ensures Flatten([block] + blocks) == block + Flatten(blocks)
  {
    FlattenAppend([block], blocks);
    assert [block][..0] == [] && [] + block == block;
  }

  lemma {:induction false} ItemsInOrder(ty: Ty, vs: seq<Val>)
    requires AllHaveType(ty, vs)
    ensures EncodeAll(ty, vs) == Flatten(Archives(ty, vs))
  {
    if vs != [] {
      ItemsInOrder(ty, vs[1..]);
      assert Archives(ty, vs) == [Encode(ty, vs[0])] + Archives(ty, vs[1..]);
      FlattenCons(Encode(ty, vs[0]), Archives(ty, vs[1..]));
    }
  }

  lemma CarriedBehind(front: seq<byte>, back: seq<byte>, off: int, block: seq<byte>)
    requires CarriesAt(back, off, block)
    ensures CarriesAt(front + back, |front| + off, block)
  {
    assert (front + back)[|front| + off..|front| + off + |block|] == back[off..off + |block|];
  }

  /** The archive of a vector begins with eight bytes of count, the least significant first. */
  lemma VectorCount(ty: Ty, v: Val, k: nat)
    requires HasType(Vec(ty), v) && k < 8
    ensures 8 <= |Encode(Vec(ty), v)| && Encode(Vec(ty), v)[k] == |v.items| / Pow256(k) % 256
  {
    ToBytesAt(|v.items|, 8, k);
  }

  /** The archives of the items follow in their order, each right behind the one before. */
  lemma VectorItem(ty: Ty, v: Val, i: nat)
    requires HasType(Vec(ty), v) && i < |v.items|
    ensures CarriesAt(Encode(Vec(ty), v), 8 + Sum(Lengths(Archives(ty, v.items))[..i]), Encode(ty, v.items[i]))
  {
    var parts := Archives(ty, v.items);
    ItemsInOrder(ty, v.items);
    FlattenSlice(parts, i);
    CarriedBehind(ToBytes(|v.items|, 8), Flatten(parts), Sum(Lengths(parts)[..i]), parts[i]);
  }

  /** Nothing else is in it. */
  lemma VectorLength(ty: Ty, v: Val)
    requires HasType(Vec(ty), v)
    ensures |Encode(Vec(ty), v)| == 8 + Sum(Lengths(Archives(ty, v.items)))
  {
    ItemsInOrder(ty, v.items);
    FlattenLength(Archives(ty, v.items));
  }

  /** The archive of a pair is that of the first and right behind it that of the second; an element is its memory. */
  lemma PairLayout(a: Ty, b: Ty, v: Val)
    requires HasType(Pair(a, b), v)
    ensures var bs := Encode(Pair(a, b), v);
            && |bs| == |Encode(a, v.fst)| + |Encode(b, v.snd)|
            && CarriesAt(bs, 0, Encode(a, v.fst)) && CarriesAt(bs, |Encode(a, v.fst)|, Encode(b, v.snd))
  {
  }

  lemma ElementLayout(w: nat, v: Val)
    requires HasType(Fixed(w), v)
    ensures Encode(Fixed(w), v) == v.bytes
  {
  }

  /** A string of `n` characters is archived in `8 + n` bytes. */
  lemma StringLength(s: Val)
    requires HasType(Vec(Fixed(1)), s)
    ensures |Encode(Vec(Fixed(1)), s)| == 8 + |s.items|
  {
    CharactersLength(s.items);
  }

  lemma {:induction false} CharactersLength(vs: seq<Val>)
    requires AllHaveType(Fixed(1), vs)
    ensures |EncodeAll(Fixed(1), vs)| == |vs|
  {
    if vs != [] {
      assert HasType(Fixed(1), vs[0]);
      CharactersLength(vs[1..]);
    }
  }

  lemma TwoItems(ty: Ty, x: Val, y: Val)
    requires HasType(ty, x) && HasType(ty, y)
    ensures EncodeAll(ty, [x, y]) == Encode(ty, x) + Encode(ty, y)
  {
    assert [x, y][1..] == [y] && [y][1..] == [];
    assert EncodeAll(ty, [y]) == Encode(ty, y) + [];
  }

  /** Two objects as an archived vector, of strings say: behind the count the first, right behind it the second. */
  lemma TwoObjects(ty: Ty, x: Val, y: Val)
    requires HasType(ty, x) && HasType(ty, y)
    ensures HasType(Vec(ty), List([x, y]))
    ensures var bs := Encode(Vec(ty), List([x, y]));
            && |bs| == 8 + |Encode(ty, x)| + |Encode(ty, y)|
            && CarriesAt(bs, 8, Encode(ty, x)) && CarriesAt(bs, 8 + |Encode(ty, x)|, Encode(ty, y))
  {
    assert Pow256(8) > 2 by { Pow256Values(); }
    TwoItems(ty, x, y);
    var first, second := Encode(ty, x), Encode(ty, y);
    CarriedBehind(ToBytes(2, 8), first + second, 0, first);
    CarriedBehind(ToBytes(2, 8), first + second, |first|, second);
  }

  /** A vector of two strings: their characters and three counts. */
  lemma TwoStrings(s: Val, t: Val)
    requires HasType(Vec(Fixed(1)), s) && HasType(Vec(Fixed(1)), t)
    ensures HasType(Vec(Vec(Fixed(1))), List([s, t]))
    ensures |Encode(Vec(Vec(Fixed(1))), List([s, t]))| == |s.items| + |t.items| + 3 * 8
  {
    StringLength(s);
    StringLength(t);
    TwoObjects(Vec(Fixed(1)), s, t);
  }

  // ---------------------------------------------------------------------------
  // NeedsSerialized, and the flat form of the containers that do not need it
  // ---------------------------------------------------------------------------

  /** `NeedsSerialized`: false only for strings and vectors of trivially copyable elements. */
  predicate NeedsSerialized(ty: Ty) {
    !(ty.Vec? && ty.elem.Fixed?)
  }

  /** Exactly the vectors of fixed-width elements, strings among them, travel as they lie in memory. */
  lemma FlatTypes(ty: Ty)
    ensures !NeedsSerialized(ty) <==> exists w :: ty == Vec(Fixed(w))
  {
    if !NeedsSerialized(ty) {
      assert ty == Vec(Fixed(ty.elem.width));
    }
  }

  /** The memory of one element. */
  function Cell(w: nat, v: Val): (r: seq<byte>)
    requires HasType(Fixed(w), v)
    ensures |r| == w
  {
    v.bytes
  }

  function Cells(w: nat, vs: seq<Val>): (r: seq<seq<byte>>)
    requires AllHaveType(Fixed(w), vs)
    ensures |r| == |vs|
  {
    seq(|vs|, i requires 0 <= i < |vs| => Cell(w, vs[i]))
  }

  /** What `data()` and `size() * sizeof(value_type)` of the container expose. */
  function FlatBytes(w: nat, vs: seq<Val>): seq<byte>
    requires AllHaveType(Fixed(w), vs)
  {
    Flatten(Cells(w, vs))
  }

  lemma MulLe(a: nat, b: nat, w: nat)
    requires a <= b
    ensures a * w <= b * w
  {
  }

  lemma CellFits(w: nat, len: nat, i: nat)
    requires 1 <= w && i < len / w
    ensures 0 <= i * w <= i * w + w <= len
  {
    var q := len / w;
    MulLe(i + 1, q, w);
    MulLe(0, i, w);
  }

  /** The element that begins at `p + i`. */
  function ElementAt(w: nat, bs: seq<byte>, i: nat): (v: Val)
    requires 1 <= w && i < |bs| / w
    ensures HasType(Fixed(w), v)
  {
    CellFits(w, |bs|, i);
    Raw(bs[i * w..i * w + w])
  }

  /** `T(p, p + n)` with `n = size / sizeof(value_type)`: a trailing partial element is dropped. */
  function FromFlat(w: nat, bs: seq<byte>): (vs: seq<Val>)
    requires 1 <= w
    ensures |vs| == |bs| / w
    ensures AllHaveType(Fixed(w), vs)
  {
    var n := |bs| / w;
    seq(n, i requires 0 <= i < n => ElementAt(w, bs, i))
  }

  /** Element `i` is read from the bytes at `i * sizeof`, whether or not a partial element follows the last. */
  lemma FromFlatAt(w: nat, bs: seq<byte>, i: nat)
    requires 1 <= w && i < |bs| / w
    ensures CarriesAt(bs, i * w, Cell(w, FromFlat(w, bs)[i]))
  {
    CellFits(w, |bs|, i);
  }

  /** The bytes `make_binary_buffer` holds for `v`. */
  function ToBinary(ty: Ty, v: Val): seq<byte>
    requires HasType(ty, v)
  {
    if NeedsSerialized(ty) then Encode(ty, v) else FlatBytes(ty.elem.width, v.items)
  }

  /** The object `from_binary_view` makes; `Short` where the archive throws for want of bytes. */
  function FromBinary(ty: Ty, bs: seq<byte>): Parsed<Val>
    requires WellFormed(ty)
  {
    if NeedsSerialized(ty) then Decode(ty, bs) else Got(List(FromFlat(ty.elem.width, bs)), [])
  }

  lemma {:induction false} FlatLength(w: nat, vs: seq<Val>)
    requires AllHaveType(Fixed(w), vs)
    ensures |FlatBytes(w, vs)| == |vs| * w
  {
    FlattenLength(Cells(w, vs));
    SumConstant(Lengths(Cells(w, vs)), w);
  }

  /** Element `i` of a flat image lies at byte `i * sizeof`. */
  lemma FlatSlice(w: nat, vs: seq<Val>, i: nat)
    requires AllHaveType(Fixed(w), vs) && i < |vs|
    ensures HasType(Fixed(w), vs[i]) && CarriesAt(FlatBytes(w, vs), i * w, vs[i].bytes)
  {
    var cells := Cells(w, vs);
    FlattenSlice(cells, i);
    SumConstant(Lengths(cells)[..i], w);
  }

  /** The image of a concatenation is the concatenation of the images. */
  lemma FlatConcat(w: nat, a: seq<Val>, b: seq<Val>)
    requires AllHaveType(Fixed(w), a) && AllHaveType(Fixed(w), b)
    ensures FlatBytes(w, a + b) == FlatBytes(w, a) + FlatBytes(w, b)
  {
    assert Cells(w, a + b) == Cells(w, a) + Cells(w, b);
    FlattenAppend(Cells(w, a), Cells(w, b));
  }

  lemma DivisionUnique(w: nat, n: int, q: int, r: int)
    requires 0 <= r < w && q * w + r == n * w
    ensures q == n && r == 0
  {
    assert (n - q) * w == r;
    MultipleApart(n - q, w);
  }

  lemma MulDiv(n: nat, w: nat, p: nat)
    requires 1 <= w && p == n * w
    ensures p / w == n && p % w == 0
  {
    DivisionUnique(w, n, p / w, p % w);
  }

  /** Reading a flat image back gives the elements. */
  lemma FlatRoundTrip(w: nat, vs: seq<Val>)
    requires 1 <= w && AllHaveType(Fixed(w), vs)
    ensures FromFlat(w, FlatBytes(w, vs)) == vs
  {
    var bs := FlatBytes(w, vs);
    FlatLength(w, vs);
    MulDiv(|vs|, w, |bs|);
    forall i | 0 <= i < |vs|
      ensures ElementAt(w, bs, i) == vs[i]
    {
      FlatSlice(w, vs, i);
    }
  }

  /** Any whole number of elements is the image of the elements read from it. */
  lemma FlatRoundTripBack(w: nat, bs: seq<byte>)
    requires 1 <= w && |bs| % w == 0
    ensures FlatBytes(w, FromFlat(w, bs)) == bs
  {
    var vs := FromFlat(w, bs);
    var cells := Cells(w, vs);
    SumConstant(Lengths(cells), w);
    assert |bs| == |bs| / w * w;
    forall i | 0 <= i < |cells|
      ensures CarriesAt(bs, Sum(Lengths(cells)[..i]), cells[i])
    {
      SumConstant(Lengths(cells)[..i], w);
      CellFits(w, |bs|, i);
      assert vs[i] == ElementAt(w, bs, i);
    }
    FlattenUnique(cells, bs);
  }

  /** A vector of fixed-width elements travels as these lie in memory, without a count; everything else is archived. */
  lemma BinaryForm(ty: Ty, v: Val, i: nat)
    requires HasType(ty, v)
    ensures ty.Vec? && ty.elem.Fixed? && i < |v.items| ==>
              && |ToBinary(ty, v)| == |v.items| * ty.elem.width
              && HasType(ty.elem, v.items[i]) && CarriesAt(ToBinary(ty, v), i * ty.elem.width, v.items[i].bytes)
    ensures ty.Vec? && ty.elem.Fixed? && v.items == [] ==> ToBinary(ty, v) == []
    ensures !(ty.Vec? && ty.elem.Fixed?) ==> ToBinary(ty, v) == Encode(ty, v)
  {
    if ty.Vec? && ty.elem.Fixed? {
      var w := ty.elem.width;
      FlatLength(w, v.items);
      if i < |v.items| {
        FlatSlice(w, v.items, i);
      }
    }
  }

  /** `from_binary_buffer(make_binary_buffer(x)) == x`, for every type and every nesting. */
  lemma BinaryRoundTrip(ty: Ty, v: Val)
    requires WellFormed(ty) && HasType(ty, v)
    ensures FromBinary(ty, ToBinary(ty, v)) == Got(v, [])
  {
    if NeedsSerialized(ty) {
      DecodeEncode(ty, v, []);
      assert Encode(ty, v) + [] == Encode(ty, v);
    } else {
      FlatRoundTrip(ty.elem.width, v.items);
    }
  }

  /** Two objects of a type with the same binary form are the same object. */
  lemma ToBinaryInjective(ty: Ty, u: Val, v: Val)
    requires WellFormed(ty) && HasType(ty, u) && HasType(ty, v)
    ensures ToBinary(ty, u) == ToBinary(ty, v) <==> u == v
  {
    BinaryRoundTrip(ty, u);
    BinaryRoundTrip(ty, v);
  }

  /**
   * The view decoder accepts a buffer iff it starts with the archive of some object, and has
   * nothing left over iff it is one.
   */
  lemma DecodeAcceptsExactlyArchives(ty: Ty, bs: seq<byte>)
    ensures Decode(ty, bs).Got? <==>
            exists v, rest :: HasType(ty, v) && Encode(ty, v) + rest == bs
    ensures Decode(ty, bs).Got? && Decode(ty, bs).rest == [] <==>
            exists v :: HasType(ty, v) && Encode(ty, v) == bs
  {
    EncodeDecode(ty, bs);
    if v, rest :| HasType(ty, v) && Encode(ty, v) + rest == bs {
      DecodeEncode(ty, v, rest);
    }
    if v :| HasType(ty, v) && Encode(ty, v) == bs {
      DecodeEncode(ty, v, []);
      assert Encode(ty, v) + [] == bs;
    }
    var d := Decode(ty, bs);
    if d.Got? && d.rest == [] {
      assert Encode(ty, d.value) + [] == Encode(ty, d.value);
    }
  }
}
