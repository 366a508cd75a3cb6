/** Raw bytes, the machine integers that travel as bytes, and sums of block lengths. */
module Bytes {

  /** One `std::byte`. */
  type byte = b: int | 0 <= b < 256

  /** The largest value of the 32-bit `int` that counts, displacements and ranks are held in. */
  const INT_MAX: int := 0x7fff_ffff
  const TWO_32: int := 0x1_0000_0000

  /** The numbers below `n`: the ranks of a communicator of that size. */
  function Below(n: nat): (r: set<nat>)
    ensures forall i: nat :: i in r <==> i < n
  {
    if n == 0 then {} else Below(n - 1) + {n - 1}
  }

  /** A multiple other than zero is at least as far from zero. */
  lemma MultipleApart(d: int, m: int)
    requires 1 <= m
    ensures 1 <= d ==> m <= d * m
    ensures d <= -1 ==> d * m <= -m
  {
  }

  /** Conversion of an integer to a 32-bit `int`: two's complement, as in `int n_in = data.size()`. */
  function Narrow32(x: int): (r: int)
    ensures -INT_MAX - 1 <= r <= INT_MAX
    ensures r == x <==> -INT_MAX - 1 <= x <= INT_MAX
    ensures (x - r) % TWO_32 == 0
    ensures 0 <= x ==> r <= x
  {
    var m := x % TWO_32;
    if m <= INT_MAX then m else m - TWO_32
  }

  // ---------------------------------------------------------------------------
  // Fixed-width unsigned integers, least significant byte first
  // ---------------------------------------------------------------------------

  function Pow256(w: nat): (r: nat)
    ensures 1 <= r
  {
    if w == 0 then 1 else 256 * Pow256(w - 1)
  }

  /** The low `w` bytes of `n`. */
  function ToBytes(n: nat, w: nat): (r: seq<byte>)
    ensures |r| == w
  {
    if w == 0 then [] else [n % 256] + ToBytes(n / 256, w - 1)
  }

  function FromBytes(bs: seq<byte>): nat {
    if bs == [] then 0 else bs[0] + 256 * FromBytes(bs[1..])
  }

  /** Every integer that fits in `w` bytes is read back from its own bytes. */
  lemma {:induction false} ToBytesRoundTrip(n: nat, w: nat)
    requires n < Pow256(w)
    ensures FromBytes(ToBytes(n, w)) == n
  {
    if w > 0 {
      ToBytesRoundTrip(n / 256, w - 1);
    }
  }

  /** Byte `k` counts the 256^k: the least significant byte comes first. */
  lemma {:induction false} ToBytesAt(n: nat, w: nat, k: nat)
    requires k < w
    ensures ToBytes(n, w)[k] == n / Pow256(k) % 256
  {
    if k > 0 {
      ToBytesAt(n / 256, w - 1, k - 1);
      DivideTwice(n, Pow256(k - 1));
    }
  }

  lemma DivideTwice(n: nat, d: nat)
    requires 1 <= d
    ensures n / 256 / d == n / (256 * d)
  {
    var q, r := n / 256, n % 256;
    var p, t := q / d, q % d;
    assert q == p * d + t;
    assert n == (256 * d) * p + (256 * t + r);
    QuotientIs(n, 256 * d, p, 256 * t + r);
  }

  lemma QuotientIs(n: int, m: int, q: int, r: int)
    requires 1 <= m && 0 <= r < m && n == m * q + r
    ensures n / m == q
  {
    var d := q - n / m;
    assert d * m == m * q - m * (n / m);
    MultipleApart(d, m);
  }

  /** Every `w` bytes are the bytes of exactly the integer they are read as. */
  lemma {:induction false} FromBytesRoundTrip(bs: seq<byte>)
    ensures FromBytes(bs) < Pow256(|bs|)
    ensures ToBytes(FromBytes(bs), |bs|) == bs
  {
    if bs != [] {
      FromBytesRoundTrip(bs[1..]);
      var m := FromBytes(bs[1..]);
      assert (bs[0] + 256 * m) % 256 == bs[0] && (bs[0] + 256 * m) / 256 == m;
    }
  }

  lemma Pow256Values()
    ensures Pow256(4) == TWO_32
    ensures Pow256(8) == 0x1_0000_0000_0000_0000
  {
    assert Pow256(1) == 256 && Pow256(2) == 0x1_0000 && Pow256(3) == 0x100_0000;
    assert Pow256(5) == 0x100_0000_0000 && Pow256(6) == 0x1_0000_0000_0000;
    assert Pow256(7) == 0x100_0000_0000_0000;
  }

  // ---------------------------------------------------------------------------
  // A signed 32-bit int as the four bytes MPI sends
  // ---------------------------------------------------------------------------

  function EncodeInt(x: int): (r: seq<byte>)
    ensures |r| == 4
  {
    ToBytes(x % TWO_32, 4)
  }

  function DecodeInt(bs: seq<byte>): int
    requires |bs| == 4
  {
    Narrow32(FromBytes(bs))
  }

  /** The bytes of an `int` in memory, least significant first, of negative ones in two's complement. */
  lemma EncodeIntAt(x: int, k: nat)
    requires k < 4
    ensures EncodeInt(x)[k] == x % TWO_32 / Pow256(k) % 256
  {
    ToBytesAt(x % TWO_32, 4, k);
  }

  /** Four bytes carry exactly the narrowed value: what arrives is what the sender's `int` held. */
  lemma EncodeIntRoundTrip(x: int)
    ensures DecodeInt(EncodeInt(x)) == Narrow32(x)
  {
    Pow256Values();
    ToBytesRoundTrip(x % TWO_32, 4);
  }

  /** The `std::vector<int>` whose storage is `bs`. */
  function DecodeInts(bs: seq<byte>, n: nat): (r: seq<int>)
    requires |bs| == 4 * n
    ensures |r| == n
  {
    seq(n, i requires 0 <= i < n => DecodeInt(bs[4 * i..4 * i + 4]))
  }

  // ---------------------------------------------------------------------------
  // Sums, lengths and concatenation
  // ---------------------------------------------------------------------------

  function Sum(xs: seq<int>): int {
    if xs == [] then 0 else Sum(xs[..|xs| - 1]) + xs[|xs| - 1]
  }

  function Lengths<T>(blocks: seq<seq<T>>): (r: seq<int>)
    ensures |r| == |blocks|
    ensures forall i :: 0 <= i < |r| ==> r[i] == |blocks[i]|
  {
    seq(|blocks|, i requires 0 <= i < |blocks| => |blocks[i]|)
  }

  /** The blocks one after another, in index order. */
  function Flatten<T>(blocks: seq<seq<T>>): seq<T> {
    if blocks == [] then [] else Flatten(blocks[..|blocks| - 1]) + blocks[|blocks| - 1]
  }

  lemma SumSnoc(xs: seq<int>, x: int)
    ensures Sum(xs + [x]) == Sum(xs) + x
  {
    assert (xs + [x])[..|xs|] == xs;
  }

  lemma SumStep(xs: seq<int>, i: nat)
    requires i < |xs|
    ensures Sum(xs[..i + 1]) == Sum(xs[..i]) + xs[i]
  {
    assert xs[..i + 1] == xs[..i] + [xs[i]];
    SumSnoc(xs[..i], xs[i]);
  }

  /** Prefix sums of nonnegative counts never fall. */
  lemma {:induction false} SumMonotone(xs: seq<int>, i: nat, j: nat)
    requires i <= j <= |xs|
    requires forall k :: 0 <= k < |xs| ==> 0 <= xs[k]
    ensures Sum(xs[..i]) <= Sum(xs[..j])
    decreases j
  {
    if i < j {
      SumMonotone(xs, i, j - 1);
      SumStep(xs, j - 1);
    }
  }

  lemma SumBounds(xs: seq<int>, i: nat)
    requires i < |xs|
    requires forall k :: 0 <= k < |xs| ==> 0 <= xs[k]
    ensures 0 <= Sum(xs[..i]) && Sum(xs[..i]) + xs[i] <= Sum(xs)
  {
    SumMonotone(xs, 0, i);
    SumMonotone(xs, i + 1, |xs|);
    SumStep(xs, i);
    assert xs[..|xs|] == xs && xs[..0] == [];
  }

  lemma {:induction false} SumNonNeg(xs: seq<int>)
    requires forall k :: 0 <= k < |xs| ==> 0 <= xs[k]
    ensures 0 <= Sum(xs)
  {
    if xs != [] {
      SumNonNeg(xs[..|xs| - 1]);
    }
  }

  /** The length of `n` blocks of `x` bytes. */
  function Copies(n: nat, x: int): int {
    if n == 0 then 0 else Copies(n - 1, x) + x
  }

  lemma {:induction false} CopiesIsProduct(n: nat, x: int)
    ensures Copies(n, x) == n * x
  {
    if n > 0 {
      CopiesIsProduct(n - 1, x);
      assert (n - 1) * x + x == n * x;
    }
  }

  lemma {:induction false} SumCopies(xs: seq<int>, c: int)
    requires forall k :: 0 <= k < |xs| ==> xs[k] == c
    ensures Sum(xs) == Copies(|xs|, c)
  {
    if xs != [] {
      SumCopies(xs[..|xs| - 1], c);
    }
  }

  lemma SumConstant(xs: seq<int>, c: int)
    requires forall k :: 0 <= k < |xs| ==> xs[k] == c
    ensures Sum(xs) == |xs| * c
  {
    SumCopies(xs, c);
    CopiesIsProduct(|xs|, c);
  }

  lemma {:induction false} CopiesMonotone(n: nat, x: int, y: int)
    requires x <= y
    ensures Copies(n, x) <= Copies(n, y)
    ensures 0 <= x && 1 <= n ==> x <= Copies(n, x)
    ensures 0 <= x ==> 0 <= Copies(n, x)
  {
    if n > 0 {
      CopiesMonotone(n - 1, x, y);
    }
  }

  lemma {:induction false} FlattenLength<T>(blocks: seq<seq<T>>)
    ensures |Flatten(blocks)| == Sum(Lengths(blocks))
  {
    if blocks != [] {
      var init := blocks[..|blocks| - 1];
      FlattenLength(init);
      assert Lengths(blocks)[..|blocks| - 1] == Lengths(init);
    }
  }

  lemma {:induction false} FlattenAppend<T>(a: seq<seq<T>>, b: seq<seq<T>>)
    ensures Flatten(a + b) == Flatten(a) + Flatten(b)
  {
    if b == [] {
      assert a + b == a;
    } else {
      var init := b[..|b| - 1];
      FlattenAppend(a, init);
      assert (a + b)[..|a + b| - 1] == a + init;
    }
  }

  /** `s` carries `block` at offset `off`. */
  predicate CarriesAt<T(==)>(s: seq<T>, off: int, block: seq<T>) {
    0 <= off && off + |block| <= |s| && s[off..off + |block|] == block
  }

  /** Cutting the concatenation at the prefix sums of the lengths gives each block back. */
  lemma {:induction false} FlattenSlice<T>(blocks: seq<seq<T>>, i: nat)
    requires i < |blocks|
    ensures CarriesAt(Flatten(blocks), Sum(Lengths(blocks)[..i]), blocks[i])
  {
    var last := |blocks| - 1;
    var init := blocks[..last];
    FlattenLength(init);
    if i == last {
      assert Lengths(blocks)[..i] == Lengths(init);
    } else {
      assert Lengths(init)[..i] == Lengths(blocks)[..i];
      FlattenSlice(init, i);
    }
  }

  /** A sequence that carries every block at its prefix sum, and nothing else, is the concatenation. */
  lemma {:induction false} FlattenUnique<T>(blocks: seq<seq<T>>, s: seq<T>)
    requires |s| == Sum(Lengths(blocks))
    requires forall i :: 0 <= i < |blocks| ==> CarriesAt(s, Sum(Lengths(blocks)[..i]), blocks[i])
    ensures s == Flatten(blocks)
  {
    if blocks != [] {
      var last := |blocks| - 1;
      var init := blocks[..last];
      assert Lengths(blocks)[..last] == Lengths(init);
      var cut := Sum(Lengths(init));
      FlattenLength(init);
      forall i | 0 <= i < |init|
        ensures CarriesAt(s[..cut], Sum(Lengths(init)[..i]), init[i])
      {
        CarriesPrefix(blocks, s, i);
      }
      FlattenUnique(init, s[..cut]);
      LastBlock(s, cut, blocks[last]);
    }
  }

  lemma CarriesInPrefix<T>(s: seq<T>, cut: int, off: int, block: seq<T>)
    requires 0 <= cut <= |s| && CarriesAt(s, off, block) && off + |block| <= cut
    ensures CarriesAt(s[..cut], off, block)
  {
    assert s[..cut][off..off + |block|] == s[off..off + |block|];
  }

  /** Every block lies in `s` at the prefix sum of the lengths before it. */
  predicate CarriesAll<T(==)>(s: seq<T>, blocks: seq<seq<T>>, counts: seq<int>)
    requires |counts| == |blocks|
  {
    forall i :: 0 <= i < |blocks| ==> CarriesAt(s, Sum(counts[..i]), blocks[i])
  }

  lemma CarriesAllInPrefix<T>(blocks: seq<seq<T>>, counts: seq<int>, s: seq<T>, cut: nat)
    requires counts == Lengths(blocks) && cut == Sum(counts) <= |s|
    requires CarriesAll(s, blocks, counts)
    ensures CarriesAll(s[..cut], blocks, counts)
  {
    forall i | 0 <= i < |blocks|
      ensures CarriesAt(s[..cut], Sum(counts[..i]), blocks[i])
    {
      SumBounds(counts, i);
      CarriesInPrefix(s, cut, Sum(counts[..i]), blocks[i]);
    }
  }

  /** A sequence that carries every block at its prefix sum starts with the concatenation. */
  lemma FlattenPrefix<T>(blocks: seq<seq<T>>, counts: seq<int>, s: seq<T>, cut: nat)
    requires counts == Lengths(blocks) && cut == Sum(counts) <= |s|
    requires CarriesAll(s, blocks, counts)
    ensures s[..cut] == Flatten(blocks)
  {
    CarriesAllInPrefix(blocks, counts, s, cut);
    FlattenUnique(blocks, s[..cut]);
  }

  lemma LastBlock<T>(s: seq<T>, cut: int, block: seq<T>)
    requires CarriesAt(s, cut, block) && cut + |block| == |s|
    ensures s == s[..cut] + block
  {
  }

  lemma CarriesPrefix<T>(blocks: seq<seq<T>>, s: seq<T>, i: nat)
    requires i < |blocks| - 1
    requires |s| == Sum(Lengths(blocks))
    requires CarriesAt(s, Sum(Lengths(blocks)[..i]), blocks[i])
    ensures var init := blocks[..|blocks| - 1]; var cut := Sum(Lengths(init));
            0 <= cut <= |s| && CarriesAt(s[..cut], Sum(Lengths(init)[..i]), blocks[i])
  {
    var init := blocks[..|blocks| - 1];
    var cut := Sum(Lengths(init));
    assert Lengths(blocks)[..|init|] == Lengths(init);
    assert Lengths(init)[..i] == Lengths(blocks)[..i];
    SumBounds(Lengths(init), i);
    CarriesInPrefix(s, cut, Sum(Lengths(init)[..i]), blocks[i]);
  }

  lemma {:induction false} SumUpdate(xs: seq<int>, i: nat, x: int)
    requires i < |xs|
    ensures Sum(xs[i := x]) == Sum(xs) - xs[i] + x
  {
    var last := |xs| - 1;
    if i == last {
      assert xs[i := x][..last] == xs[..last];
    } else {
      assert xs[i := x][..last] == xs[..last][i := x];
      SumUpdate(xs[..last], i, x);
    }
  }

  // ---------------------------------------------------------------------------
  // Writing a block into a buffer
  // ---------------------------------------------------------------------------

  function Write<T>(buf: seq<T>, off: nat, block: seq<T>): (r: seq<T>)
    requires off + |block| <= |buf|
    ensures |r| == |buf|
    ensures r[off..off + |block|] == block
    ensures forall p :: 0 <= p < |buf| && !(off <= p < off + |block|) ==> r[p] == buf[p]
  {
    buf[..off] + block + buf[off + |block|..]
  }

  /** A write leaves alone every block that lies wholly to one side of it. */
  lemma WriteKeeps<T>(buf: seq<T>, off: nat, block: seq<T>, off': int, block': seq<T>)
    requires off + |block| <= |buf|
    requires CarriesAt(buf, off', block')
    requires off' + |block'| <= off || off + |block| <= off'
    ensures CarriesAt(Write(buf, off, block), off', block')
  {
    var w := Write(buf, off, block);
    forall p | off' <= p < off' + |block'|
      ensures w[p] == buf[p]
    {
    }
    assert w[off'..off' + |block'|] == buf[off'..off' + |block'|];
  }

  /** Blocks laid out by prefix sums never overlap: the earlier one ends before the later begins. */
  lemma PrefixSumsOrdered(counts: seq<int>, i: nat, j: nat)
    requires i < j < |counts|
    requires forall k :: 0 <= k < |counts| ==> 0 <= counts[k]
    ensures 0 <= Sum(counts[..i]) && Sum(counts[..i]) + counts[i] <= Sum(counts[..j])
    ensures Sum(counts[..j]) + counts[j] <= Sum(counts)
  {
    SumStep(counts, i);
    SumMonotone(counts, i + 1, j);
    SumBounds(counts, i);
    SumBounds(counts, j);
  }
}
