/** What reducing with each registered operation comes to: over all ranks, element by element. */
module Reductions {
  import opened Bytes
  import opened Reduce

  // ---------------------------------------------------------------------------
  // Logic
  // ---------------------------------------------------------------------------

  predicate AllTrue(xs: seq<int>) { forall i :: 0 <= i < |xs| ==> xs[i] != 0 }

  predicate SomeTrue(xs: seq<int>) { exists i :: 0 <= i < |xs| && xs[i] != 0 }

  lemma {:induction false} FoldAnd(xs: seq<int>)
    requires 2 <= |xs|
    ensures Fold(LogicalAnd, xs) == if AllTrue(xs) then 1 else 0
  {
    var last := |xs| - 1;
    if last == 1 {
      assert Fold(LogicalAnd, xs[..1]) == xs[0];
    } else {
      FoldAnd(xs[..last]);
    }
    assert AllTrue(xs) <==> AllTrue(xs[..last]) && xs[last] != 0;
  }

  lemma {:induction false} FoldOr(xs: seq<int>)
    requires 2 <= |xs|
    ensures Fold(LogicalOr, xs) == if SomeTrue(xs) then 1 else 0
  {
    var last := |xs| - 1;
    var front := xs[..last];
    if last == 1 {
      assert Fold(LogicalOr, front) == xs[0] == front[0];
    } else {
      FoldOr(front);
    }
    if i :| 0 <= i < |front| && front[i] != 0 {
      assert xs[i] != 0;
    }
    if i :| 0 <= i < |xs| && xs[i] != 0 {
      assert i < last ==> front[i] != 0;
    }
  }

  /**
   * On two ranks or more the logical reductions are 1 or 0: 1 where every rank's element is true, or
   * some rank's. One rank alone keeps what it has.
   */
  lemma LogicalReductions(arrays: seq<seq<int>>, m: nat, k: nat)
    requires 2 <= |arrays| && (forall r :: 0 <= r < |arrays| ==> |arrays[r]| == m) && k < m
    ensures ColumnFolds(LogicalAnd, arrays, m)[k] ==
            if forall r :: 0 <= r < |arrays| ==> arrays[r][k] != 0 then 1 else 0
    ensures ColumnFolds(LogicalOr, arrays, m)[k] ==
            if exists r :: 0 <= r < |arrays| && arrays[r][k] != 0 then 1 else 0
  {
    var xs := Column(arrays, m, k);
    FoldAnd(xs);
    FoldOr(xs);
    assert forall r :: 0 <= r < |arrays| ==> xs[r] == arrays[r][k];
  }

  // ---------------------------------------------------------------------------
  // Arithmetic
  // ---------------------------------------------------------------------------

  function Product(xs: seq<int>): int {
    if xs == [] then 1 else Product(xs[..|xs| - 1]) * xs[|xs| - 1]
  }

  /** `r` has the range of the element type, and is `x` but for a multiple of the number of its values. */
  predicate WrapsTo(m: int, h: int, x: int, r: int)
    requires 1 <= m
  {
    -h <= r < m - h && (x - r) % m == 0 && (-h <= x < m - h ==> r == x)
  }

  lemma WrapWraps(m: int, h: int, x: int)
    requires 1 <= m
    ensures WrapsTo(m, h, x, Wrap(m, h, x))
  {
    var k := WrapShift(m, h, x);
    assert (-k) * m == -(k * m);
    ModUnique(x - Wrap(m, h, x), m, -k, 0);
  }

  predicate InRange(m: int, h: int, xs: seq<int>) {
    forall i :: 0 <= i < |xs| ==> -h <= xs[i] < m - h
  }

  lemma {:induction false} FoldPlus(m: int, h: int, xs: seq<int>)
    requires 1 <= m && xs != [] && InRange(m, h, xs)
    ensures Fold(Plus(m, h), xs) == Wrap(m, h, Sum(xs))
  {
    var last := |xs| - 1;
    if last == 0 {
      assert Sum(xs) == Sum([]) + xs[0];
    } else {
      var sum := Sum(xs[..last]);
      FoldPlus(m, h, xs[..last]);
      var k := WrapShift(m, h, sum);
      WrapSame(m, h, sum + xs[last], k);
    }
  }

  lemma {:induction false} FoldTimes(m: int, h: int, xs: seq<int>)
    requires 1 <= m && xs != [] && InRange(m, h, xs)
    ensures Fold(Times(m, h), xs) == Wrap(m, h, Product(xs))
  {
    var last := |xs| - 1;
    if last == 0 {
      assert Product(xs) == Product([]) * xs[0];
    } else {
      FoldTimes(m, h, xs[..last]);
      WrapFactor(m, h, Product(xs[..last]), xs[last]);
    }
  }

  /** The sum and the product of the ranks' elements, wrapped around once, and exact where they are in range. */
  lemma ArithmeticReductions(m: int, h: int, arrays: seq<seq<int>>, len: nat, k: nat)
    requires 1 <= m && arrays != [] && (forall r :: 0 <= r < |arrays| ==> |arrays[r]| == len) && k < len
    requires forall r :: 0 <= r < |arrays| ==> InRange(m, h, arrays[r])
    ensures WrapsTo(m, h, Sum(Column(arrays, len, k)), ColumnFolds(Plus(m, h), arrays, len)[k])
    ensures WrapsTo(m, h, Product(Column(arrays, len, k)), ColumnFolds(Times(m, h), arrays, len)[k])
    ensures forall r :: 0 <= r < |arrays| ==> Column(arrays, len, k)[r] == arrays[r][k]
  {
    var xs := Column(arrays, len, k);
    FoldPlus(m, h, xs);
    FoldTimes(m, h, xs);
    WrapWraps(m, h, Sum(xs));
    WrapWraps(m, h, Product(xs));
  }

  // ---------------------------------------------------------------------------
  // Bits
  // ---------------------------------------------------------------------------

  predicate OneBit(mask: bv8) { mask != 0 && mask & (mask - 1) == 0 }

  predicate Set(b: bv8, mask: bv8) { b & mask != 0 }

  lemma BitOfPair(a: bv8, b: bv8, mask: bv8)
    requires OneBit(mask)
    ensures Set(a & b, mask) <==> Set(a, mask) && Set(b, mask)
    ensures Set(a | b, mask) <==> Set(a, mask) || Set(b, mask)
  {
  }

  lemma XorOfPair(a: bv8, b: bv8, mask: bv8)
    requires OneBit(mask)
    ensures Set(BitXor(a, b), mask) <==> Set(a, mask) != Set(b, mask)
  {
  }

  /** The ranks whose byte has the bit. */
  function Having(bs: seq<bv8>, mask: bv8): set<nat> {
    set r: nat | r < |bs| && Set(bs[r], mask)
  }

  lemma HavingSnoc(bs: seq<bv8>, mask: bv8)
    requires bs != []
    ensures var last := |bs| - 1;
            |Having(bs, mask)| == |Having(bs[..last], mask)| + if Set(bs[last], mask) then 1 else 0
  {
    var last := |bs| - 1;
    assert Having(bs, mask) == Having(bs[..last], mask) + (if Set(bs[last], mask) then {last} else {});
  }

  lemma {:induction false} FoldBitAnd(bs: seq<bv8>, mask: bv8)
    requires bs != [] && OneBit(mask)
    ensures Set(Fold(BitAnd, bs), mask) <==> forall r :: 0 <= r < |bs| ==> Set(bs[r], mask)
  {
    var last := |bs| - 1;
    if last > 0 {
      FoldBitAnd(bs[..last], mask);
      BitOfPair(Fold(BitAnd, bs[..last]), bs[last], mask);
    }
  }

  lemma {:induction false} FoldBitOr(bs: seq<bv8>, mask: bv8)
    requires bs != [] && OneBit(mask)
    ensures Set(Fold(BitOr, bs), mask) <==> exists r :: 0 <= r < |bs| && Set(bs[r], mask)
  {
    var last := |bs| - 1;
    if last > 0 {
      FoldBitOr(bs[..last], mask);
      BitOfPair(Fold(BitOr, bs[..last]), bs[last], mask);
    }
    if r :| 0 <= r < last && Set(bs[..last][r], mask) {
      assert Set(bs[r], mask);
    }
    if r :| 0 <= r < last && Set(bs[r], mask) {
      assert Set(bs[..last][r], mask);
    }
  }

  lemma XorStep(bs: seq<bv8>, mask: bv8)
    requires 2 <= |bs| && OneBit(mask)
    ensures var last := |bs| - 1;
            Set(Fold(BitXor, bs), mask) <==> Set(Fold(BitXor, bs[..last]), mask) != Set(bs[last], mask)
  {
    FoldLast(BitXor, bs);
    XorOfPair(Fold(BitXor, bs[..|bs| - 1]), bs[|bs| - 1], mask);
  }

  lemma Parity(n: nat, b: bool)
    ensures (n + if b then 1 else 0) % 2 == 1 <==> (n % 2 == 1) != b
  {
  }

  lemma HavingOne(bs: seq<bv8>, mask: bv8)
    requires |bs| == 1
    ensures |Having(bs, mask)| == if Set(bs[0], mask) then 1 else 0
  {
    assert Having(bs, mask) == if Set(bs[0], mask) then {0} else {};
  }

  lemma {:induction false} FoldBitXor(bs: seq<bv8>, mask: bv8)
    requires bs != [] && OneBit(mask)
    ensures Set(Fold(BitXor, bs), mask) <==> |Having(bs, mask)| % 2 == 1
  {
    var last := |bs| - 1;
    if last == 0 {
      HavingOne(bs, mask);
    } else {
      FoldBitXor(bs[..last], mask);
      XorStep(bs, mask);
      HavingSnoc(bs, mask);
      Parity(|Having(bs[..last], mask)|, Set(bs[last], mask));
    }
  }

  /** Byte `i` of every element. */
  function ByteOf(xs: seq<seq<bv8>>, w: nat, i: nat): (r: seq<bv8>)
    requires i < w && forall r :: 0 <= r < |xs| ==> |xs[r]| == w
    ensures |r| == |xs|
  {
    seq(|xs|, r requires 0 <= r < |xs| => xs[r][i])
  }

  lemma BytewiseAt(op: (bv8, bv8) -> bv8, x: seq<bv8>, y: seq<bv8>, w: nat, i: nat)
    requires |x| == |y| == w && i < w
    ensures |Bytewise(op)(x, y)| == w && Bytewise(op)(x, y)[i] == op(x[i], y[i])
  {
  }

  lemma FoldLast<T>(op: (T, T) -> T, xs: seq<T>)
    requires 2 <= |xs|
    ensures Fold(op, xs) == op(Fold(op, xs[..|xs| - 1]), xs[|xs| - 1])
  {
  }

  /** Bytes do not meet: each is reduced for itself. */
  lemma {:induction false} FoldBytewise(op: (bv8, bv8) -> bv8, xs: seq<seq<bv8>>, w: nat, i: nat)
    requires xs != [] && (forall r :: 0 <= r < |xs| ==> |xs[r]| == w) && i < w
    ensures |Fold(Bytewise(op), xs)| == w
    ensures Fold(Bytewise(op), xs)[i] == Fold(op, ByteOf(xs, w, i))
  {
    var last := |xs| - 1;
    if last > 0 {
      FoldBytewise(op, xs[..last], w, i);
      BytewiseAt(op, Fold(Bytewise(op), xs[..last]), xs[last], w, i);
      assert ByteOf(xs, w, i)[..last] == ByteOf(xs[..last], w, i);
      FoldLast(op, ByteOf(xs, w, i));
    }
  }

  /** Byte `i` of element `k` of every rank. */
  function ColumnBytes(arrays: seq<seq<seq<bv8>>>, m: nat, k: nat, w: nat, i: nat): (r: seq<bv8>)
    requires (forall r :: 0 <= r < |arrays| ==> |arrays[r]| == m) && k < m
    requires (forall r :: 0 <= r < |arrays| ==> |arrays[r][k]| == w) && i < w
    ensures |r| == |arrays| && forall p :: 0 <= p < |r| ==> r[p] == arrays[p][k][i]
  {
    ByteOf(Column(arrays, m, k), w, i)
  }

  lemma ReducedByte(op: (bv8, bv8) -> bv8, arrays: seq<seq<seq<bv8>>>, m: nat, k: nat, w: nat, i: nat)
    requires arrays != [] && (forall r :: 0 <= r < |arrays| ==> |arrays[r]| == m) && k < m
    requires (forall r :: 0 <= r < |arrays| ==> |arrays[r][k]| == w) && i < w
    ensures |ColumnFolds(Bytewise(op), arrays, m)[k]| == w
    ensures ColumnFolds(Bytewise(op), arrays, m)[k][i] == Fold(op, ColumnBytes(arrays, m, k, w, i))
  {
    FoldBytewise(op, Column(arrays, m, k), w, i);
  }

  lemma BitwiseAnd(arrays: seq<seq<seq<bv8>>>, m: nat, k: nat, w: nat, i: nat, mask: bv8)
    requires arrays != [] && (forall r :: 0 <= r < |arrays| ==> |arrays[r]| == m) && k < m
    requires (forall r :: 0 <= r < |arrays| ==> |arrays[r][k]| == w) && i < w && OneBit(mask)
    ensures var conj := ColumnFolds(Bytewise(BitAnd), arrays, m)[k];
            |conj| == w &&
            (Set(conj[i], mask) <==> forall r :: 0 <= r < |arrays| ==> Set(arrays[r][k][i], mask))
  {
    ReducedByte(BitAnd, arrays, m, k, w, i);
    FoldBitAnd(ColumnBytes(arrays, m, k, w, i), mask);
  }

  lemma BitwiseOr(arrays: seq<seq<seq<bv8>>>, m: nat, k: nat, w: nat, i: nat, mask: bv8)
    requires arrays != [] && (forall r :: 0 <= r < |arrays| ==> |arrays[r]| == m) && k < m
    requires (forall r :: 0 <= r < |arrays| ==> |arrays[r][k]| == w) && i < w && OneBit(mask)
    ensures var disj := ColumnFolds(Bytewise(BitOr), arrays, m)[k];
            |disj| == w &&
            (Set(disj[i], mask) <==> exists r :: 0 <= r < |arrays| && Set(arrays[r][k][i], mask))
  {
    ReducedByte(BitOr, arrays, m, k, w, i);
    FoldBitOr(ColumnBytes(arrays, m, k, w, i), mask);
  }

  lemma BitwiseXor(arrays: seq<seq<seq<bv8>>>, m: nat, k: nat, w: nat, i: nat, mask: bv8)
    requires arrays != [] && (forall r :: 0 <= r < |arrays| ==> |arrays[r]| == m) && k < m
    requires (forall r :: 0 <= r < |arrays| ==> |arrays[r][k]| == w) && i < w && OneBit(mask)
    ensures var odd := ColumnFolds(Bytewise(BitXor), arrays, m)[k];
            |odd| == w &&
            (Set(odd[i], mask) <==> |set r: nat | r < |arrays| && Set(arrays[r][k][i], mask)| % 2 == 1)
  {
    var bs := ColumnBytes(arrays, m, k, w, i);
    ReducedByte(BitXor, arrays, m, k, w, i);
    FoldBitXor(bs, mask);
    assert Having(bs, mask) == set r: nat | r < |arrays| && Set(arrays[r][k][i], mask);
  }

  /** A bit of the result is set where it is on every rank, on some rank, or on an odd number of ranks. */
  lemma BitwiseReductions(arrays: seq<seq<seq<bv8>>>, m: nat, k: nat, w: nat, i: nat, mask: bv8)
    requires arrays != [] && (forall r :: 0 <= r < |arrays| ==> |arrays[r]| == m) && k < m
    requires (forall r :: 0 <= r < |arrays| ==> |arrays[r][k]| == w) && i < w && OneBit(mask)
    ensures var conj, disj, odd := ColumnFolds(Bytewise(BitAnd), arrays, m)[k],
                                   ColumnFolds(Bytewise(BitOr), arrays, m)[k],
                                   ColumnFolds(Bytewise(BitXor), arrays, m)[k];
            && |conj| == |disj| == |odd| == w
            && (Set(conj[i], mask) <==> forall r :: 0 <= r < |arrays| ==> Set(arrays[r][k][i], mask))
            && (Set(disj[i], mask) <==> exists r :: 0 <= r < |arrays| && Set(arrays[r][k][i], mask))
            && (Set(odd[i], mask) <==> |set r: nat | r < |arrays| && Set(arrays[r][k][i], mask)| % 2 == 1)
  {
    BitwiseAnd(arrays, m, k, w, i, mask);
    BitwiseOr(arrays, m, k, w, i, mask);
    BitwiseXor(arrays, m, k, w, i, mask);
  }
}
