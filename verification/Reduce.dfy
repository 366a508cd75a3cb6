/** `reduce_t_`, over every order and grouping in which MPI may combine the ranks' arrays. */
module Reduce {
  import opened Bytes
  import opened Outcomes

  ghost predicate Associative<T(!new)>(op: (T, T) -> T) {
    forall a, b, c :: op(op(a, b), c) == op(a, op(b, c))
  }

  ghost predicate Commutative<T(!new)>(op: (T, T) -> T) {
    forall a, b :: op(a, b) == op(b, a)
  }

  /** The reduction of the documentation: the operation across ranks 0, 1, ..., in that order. */
  function Fold<T>(op: (T, T) -> T, xs: seq<T>): T
    requires xs != []
  {
    var last := |xs| - 1;
    if last == 0 then xs[0] else op(Fold(op, xs[..last]), xs[last])
  }

  function Remove<T>(xs: seq<T>, i: nat): (r: seq<T>)
    requires i < |xs|
    ensures |r| == |xs| - 1
  {
    xs[..i] + xs[i + 1..]
  }

  /** Where element `j` lies once element `i` is gone. */
  function Shifted(i: nat, j: nat): nat
    requires i != j
  {
    if j < i then j else j - 1
  }

  lemma RemoveInFront<T>(xs: seq<T>, i: nat)
    requires i < |xs| - 1
    ensures Remove(xs, i) == Remove(xs[..|xs| - 1], i) + [xs[|xs| - 1]]
  {
    var last := |xs| - 1;
    assert xs[i + 1..] == xs[..last][i + 1..] + [xs[last]];
    assert xs[..last][..i] == xs[..i];
  }

  /** The last two of three operands may change places. */
  lemma Regroup<T(!new)>(op: (T, T) -> T, f: T, x: T, y: T)
    requires Associative(op) && Commutative(op)
    ensures op(op(f, x), y) == op(f, op(x, y)) == op(f, op(y, x)) == op(op(f, y), x)
  {
    assert op(x, y) == op(y, x);
    assert op(op(f, y), x) == op(f, op(y, x));
  }

  /** Element `i` can be pulled out of a fold and applied last. */
  lemma {:induction false} FoldPull<T(!new)>(op: (T, T) -> T, xs: seq<T>, i: nat)
    requires Associative(op) && Commutative(op) && 2 <= |xs| && i < |xs|
    ensures Fold(op, xs) == op(Fold(op, Remove(xs, i)), xs[i])
  {
    var last := |xs| - 1;
    var ys, z := xs[..last], xs[last];
    if i == last {
      assert Remove(xs, i) == ys;
    } else if last == 1 {
      assert Remove(xs, i) == [z];
      assert op(xs[0], z) == op(z, xs[0]);
    } else {
      FoldPull(op, ys, i);
      RemoveInFront(xs, i);
      assert Remove(xs, i)[..last - 1] == Remove(ys, i);
      Regroup(op, Fold(op, Remove(ys, i)), xs[i], z);
    }
  }

  lemma FoldSnoc<T>(op: (T, T) -> T, xs: seq<T>, x: T)
    requires xs != []
    ensures Fold(op, xs + [x]) == op(Fold(op, xs), x)
  {
    assert (xs + [x])[..|xs|] == xs;
  }

  /** Of two elements nothing is left but the combination. */
  lemma FoldPair<T(!new)>(op: (T, T) -> T, xs: seq<T>, i: nat, j: nat)
    requires Commutative(op) && |xs| == 2 && i < 2 && j < 2 && i != j
    ensures Fold(op, Remove(Remove(xs, i), Shifted(i, j)) + [op(xs[i], xs[j])]) == Fold(op, xs)
  {
    var rr := Remove(Remove(xs, i), Shifted(i, j));
    assert rr + [op(xs[i], xs[j])] == [op(xs[i], xs[j])];
    assert op(xs[i], xs[j]) == op(xs[j], xs[i]);
    assert Fold(op, xs[..1]) == xs[0];
  }

  /** Combining any two elements, wherever they are, leaves the fold as it was. */
  lemma FoldMerge<T(!new)>(op: (T, T) -> T, xs: seq<T>, i: nat, j: nat)
    requires Associative(op) && Commutative(op) && i < |xs| && j < |xs| && i != j
    ensures Fold(op, Remove(Remove(xs, i), Shifted(i, j)) + [op(xs[i], xs[j])]) == Fold(op, xs)
  {
    if |xs| == 2 {
      FoldPair(op, xs, i, j);
    } else {
      var r, j' := Remove(xs, i), Shifted(i, j);
      var rr := Remove(r, j');
      assert r[j'] == xs[j];
      FoldPull(op, xs, i);
      FoldPull(op, r, j');
      FoldSnoc(op, rr, op(xs[i], xs[j]));
      Regroup(op, Fold(op, rr), xs[i], xs[j]);
    }
  }

  // ---------------------------------------------------------------------------
  // MPI_Reduce as the environment: partial results are combined two at a time
  // ---------------------------------------------------------------------------

  function Column<T>(pool: seq<seq<T>>, m: nat, k: nat): (r: seq<T>)
    requires forall i :: 0 <= i < |pool| ==> |pool[i]| == m
    requires k < m
    ensures |r| == |pool|
  {
    seq(|pool|, i requires 0 <= i < |pool| => pool[i][k])
  }

  function Combine<T>(op: (T, T) -> T, a: seq<T>, b: seq<T>): (r: seq<T>)
    requires |a| == |b|
    ensures |r| == |a|
  {
    seq(|a|, k requires 0 <= k < |a| => op(a[k], b[k]))
  }

  /** Partial results `i` and `j` become one, combined in that order. */
  function Merge<T>(op: (T, T) -> T, pool: seq<seq<T>>, m: nat, i: nat, j: nat): (r: seq<seq<T>>)
    requires i < |pool| && j < |pool| && i != j
    requires forall k :: 0 <= k < |pool| ==> |pool[k]| == m
    ensures |r| == |pool| - 1
    ensures forall k :: 0 <= k < |r| ==> |r[k]| == m
  {
    Remove(Remove(pool, i), Shifted(i, j)) + [Combine(op, pool[i], pool[j])]
  }

  /** Which partial results MPI combines, step by step. */
  type Schedule = seq<(nat, nat)>

  /** Two different ones of the `left` partial results left. */
  predicate TwoOf(pair: (nat, nat), left: int) {
    pair.0 < left && pair.1 < left && pair.0 != pair.1
  }

  predicate Legal(schedule: Schedule, n: nat) {
    forall t :: 0 <= t < |schedule| ==> TwoOf(schedule[t], n - t)
  }

  lemma LegalFront(schedule: Schedule, n: nat)
    requires Legal(schedule, n) && schedule != []
    ensures Legal(schedule[..|schedule| - 1], n)
    ensures |schedule| <= n && TwoOf(schedule[|schedule| - 1], n - |schedule| + 1)
  {
    var front := schedule[..|schedule| - 1];
    assert TwoOf(schedule[|schedule| - 1], n - (|schedule| - 1));
    forall t | 0 <= t < |front|
      ensures TwoOf(front[t], n - t)
    {
      assert front[t] == schedule[t];
    }
  }

  /** The partial results left after the whole schedule. */
  function Combined<T>(op: (T, T) -> T, pool: seq<seq<T>>, m: nat, schedule: Schedule): (r: seq<seq<T>>)
    requires forall k :: 0 <= k < |pool| ==> |pool[k]| == m
    requires Legal(schedule, |pool|)
    ensures |r| == |pool| - |schedule|
    ensures forall k :: 0 <= k < |r| ==> |r[k]| == m
  {
    if schedule == [] then pool
    else
      var last := |schedule| - 1;
      LegalFront(schedule, |pool|);
      Merge(op, Combined(op, pool, m, schedule[..last]), m, schedule[last].0, schedule[last].1)
  }

  lemma ColumnRemove<T>(pool: seq<seq<T>>, m: nat, i: nat, k: nat)
    requires i < |pool| && k < m && forall t :: 0 <= t < |pool| ==> |pool[t]| == m
    ensures forall t :: 0 <= t < |Remove(pool, i)| ==> |Remove(pool, i)[t]| == m
    ensures Column(Remove(pool, i), m, k) == Remove(Column(pool, m, k), i)
  {
  }

  lemma ColumnSnoc<T>(pool: seq<seq<T>>, m: nat, row: seq<T>, k: nat)
    requires k < m == |row| && forall t :: 0 <= t < |pool| ==> |pool[t]| == m
    ensures forall t :: 0 <= t < |pool + [row]| ==> |(pool + [row])[t]| == m
    ensures Column(pool + [row], m, k) == Column(pool, m, k) + [row[k]]
  {
  }

  lemma MergeKeepsColumns<T(!new)>(op: (T, T) -> T, pool: seq<seq<T>>, m: nat, i: nat, j: nat, k: nat)
    requires Associative(op) && Commutative(op)
    requires i < |pool| && j < |pool| && i != j && k < m
    requires forall t :: 0 <= t < |pool| ==> |pool[t]| == m
    ensures Fold(op, Column(Merge(op, pool, m, i, j), m, k)) == Fold(op, Column(pool, m, k))
  {
    FoldMerge(op, Column(pool, m, k), i, j);
    ColumnRemove(pool, m, i, k);
    ColumnRemove(Remove(pool, i), m, Shifted(i, j), k);
    ColumnSnoc(Remove(Remove(pool, i), Shifted(i, j)), m, Combine(op, pool[i], pool[j]), k);
  }

  lemma {:induction false} CombinedKeepsColumns<T(!new)>(op: (T, T) -> T, pool: seq<seq<T>>, m: nat,
                                                         schedule: Schedule, k: nat)
    requires Associative(op) && Commutative(op)
    requires forall t :: 0 <= t < |pool| ==> |pool[t]| == m
    requires Legal(schedule, |pool|) && k < m && |schedule| < |pool|
    ensures Fold(op, Column(Combined(op, pool, m, schedule), m, k)) == Fold(op, Column(pool, m, k))
  {
    if schedule != [] {
      var last := |schedule| - 1;
      LegalFront(schedule, |pool|);
      CombinedKeepsColumns(op, pool, m, schedule[..last], k);
      MergeKeepsColumns(op, Combined(op, pool, m, schedule[..last]), m, schedule[last].0, schedule[last].1, k);
    }
  }

  /** `R[k]`, the operation across the ranks of `A_i[k]`, for every `k`. */
  function ColumnFolds<T>(op: (T, T) -> T, arrays: seq<seq<T>>, m: nat): (r: seq<T>)
    requires arrays != [] && forall i :: 0 <= i < |arrays| ==> |arrays[i]| == m
    ensures |r| == m
  {
    seq(m, k requires 0 <= k < m => Fold(op, Column(arrays, m, k)))
  }

  /** Whatever the schedule, what is left when one partial result remains is the documented reduction. */
  lemma ScheduleIrrelevant<T(!new)>(op: (T, T) -> T, arrays: seq<seq<T>>, m: nat, schedule: Schedule)
    requires Associative(op) && Commutative(op)
    requires arrays != [] && forall i :: 0 <= i < |arrays| ==> |arrays[i]| == m
    requires Legal(schedule, |arrays|) && |schedule| == |arrays| - 1
    ensures Combined(op, arrays, m, schedule) == [ColumnFolds(op, arrays, m)]
  {
    var left := Combined(op, arrays, m, schedule);
    forall k | 0 <= k < m
      ensures left[0][k] == ColumnFolds(op, arrays, m)[k]
    {
      CombinedKeepsColumns(op, arrays, m, schedule, k);
      assert Column(left, m, k) == [left[0][k]];
    }
    assert left[0] == ColumnFolds(op, arrays, m);
  }

  /** Element `k` of each of the `n` arrays of length `m` that a flat gather laid end to end. */
  function Strided<T>(flat: seq<T>, n: nat, m: nat, k: nat): (r: seq<T>)
    requires forall i: nat :: i < n ==> 0 <= Copies(i, m) && Copies(i, m) + k < |flat|
    ensures |r| == n
  {
    seq(n, i requires 0 <= i < n => flat[Copies(i, m) + k])
  }

  lemma GatheredElement<T>(arrays: seq<seq<T>>, m: nat, i: nat, k: nat)
    requires i < |arrays| && k < m && forall t :: 0 <= t < |arrays| ==> |arrays[t]| == m
    ensures 0 <= Copies(i, m) && Copies(i, m) + k < |Flatten(arrays)|
    ensures Flatten(arrays)[Copies(i, m) + k] == arrays[i][k]
  {
    FlattenSlice(arrays, i);
    SumCopies(Lengths(arrays)[..i], m);
    var off := Copies(i, m);
    assert Flatten(arrays)[off..off + m][k] == Flatten(arrays)[off + k];
  }

  /** The reduction is the fold of the columns of what a flat gather of the same arrays returns. */
  lemma ReductionOfGathered<T>(op: (T, T) -> T, arrays: seq<seq<T>>, m: nat, k: nat)
    requires arrays != [] && forall i :: 0 <= i < |arrays| ==> |arrays[i]| == m
    requires k < m
    ensures forall i: nat :: i < |arrays| ==> 0 <= Copies(i, m) && Copies(i, m) + k < |Flatten(arrays)|
    ensures ColumnFolds(op, arrays, m)[k] == Fold(op, Strided(Flatten(arrays), |arrays|, m, k))
  {
    forall i: nat | i < |arrays|
      ensures 0 <= Copies(i, m) && Copies(i, m) + k < |Flatten(arrays)|
      ensures Flatten(arrays)[Copies(i, m) + k] == arrays[i][k]
    {
      GatheredElement(arrays, m, i, k);
    }
    assert Column(arrays, m, k) == Strided(Flatten(arrays), |arrays|, m, k);
  }

  // ---------------------------------------------------------------------------
  // reduce_t_ on one rank
  // ---------------------------------------------------------------------------

  method CopyFront<T>(values: seq<T>, recv: array<T>)
    requires |values| <= recv.Length
    modifies recv
    ensures recv[..|values|] == values && recv[|values|..] == old(recv[|values|..])
  {
    forall k | 0 <= k < |values| {
      recv[k] := values[k];
    }
  }

  /** MPI_Reduce of the first `count` elements of every array into the front of `recv`. */
  method MpiReduce<T(!new)>(op: (T, T) -> T, arrays: seq<seq<T>>, count: nat, schedule: Schedule, recv: array<T>)
    requires Associative(op) && Commutative(op)
    requires arrays != [] && forall i :: 0 <= i < |arrays| ==> |arrays[i]| == count
    requires Legal(schedule, |arrays|) && |schedule| == |arrays| - 1
    requires count <= recv.Length
    modifies recv
    ensures recv[..count] == ColumnFolds(op, arrays, count) && recv[count..] == old(recv[count..])
  {
    var pool := arrays;
    for t := 0 to |schedule|
      invariant |pool| == |arrays| - t && forall i :: 0 <= i < |pool| ==> |pool[i]| == count
      invariant Legal(schedule[..t], |arrays|) && pool == Combined(op, arrays, count, schedule[..t])
    {
      assert schedule[..t + 1][..t] == schedule[..t];
      pool := Merge(op, pool, count, schedule[t].0, schedule[t].1);
    }
    assert schedule[..|schedule|] == schedule;
    ScheduleIrrelevant(op, arrays, count, schedule);
    CopyFront(pool[0], recv);
  }

  function Prefixes<T>(arrays: seq<seq<T>>, count: nat): (r: seq<seq<T>>)
    requires forall i :: 0 <= i < |arrays| ==> count <= |arrays[i]|
    ensures |r| == |arrays| && forall i :: 0 <= i < |r| ==> |r[i]| == count
  {
    seq(|arrays|, i requires 0 <= i < |arrays| => arrays[i][..count])
  }

  /** What a root's `temp` ends up with: the reduction of the elements MPI was told of, then zeros. */
  function Reduction<T>(op: (T, T) -> T, zero: T, arrays: seq<seq<T>>, m: nat, count: nat): (r: seq<T>)
    requires arrays != [] && count <= m && forall i :: 0 <= i < |arrays| ==> |arrays[i]| == m
    ensures |r| == m
  {
    ColumnFolds(op, Prefixes(arrays, count), count) + seq(m - count, _ => zero)
  }

  lemma WholeReduction<T>(op: (T, T) -> T, zero: T, arrays: seq<seq<T>>, m: nat)
    requires arrays != [] && forall i :: 0 <= i < |arrays| ==> |arrays[i]| == m
    ensures Reduction(op, zero, arrays, m, m) == ColumnFolds(op, arrays, m)
  {
    assert forall i :: 0 <= i < |arrays| ==> arrays[i][..m] == arrays[i];
    assert Prefixes(arrays, m) == arrays;
  }

  /**
   * reduce of equally long arrays on one rank, for any schedule. Unlike gather, nothing stands
   * between a null communicator and MPI, which refuses it, a root that is no rank, and a length
   * that becomes a negative int. Otherwise a root gets the documented reduction whenever the
   * length is an int, and in any case that of the elements it told MPI of; other ranks get nothing.
   */
  method ReduceT<T(!new)>(comm: Option<nat>, root: Option<nat>, op: (T, T) -> T, zero: T,
                          arrays: seq<seq<T>>, schedule: Schedule)
    returns (rv: Outcome<Option<seq<T>>>)
    requires Associative(op) && Commutative(op)
    requires comm.Some? ==> comm.value < |arrays| && forall i :: 0 <= i < |arrays| ==> |arrays[i]| == |arrays[0]|
    requires comm.Some? ==> Legal(schedule, |arrays|) && |schedule| == |arrays| - 1
    ensures comm.None? ==> rv == Failed(MpiNullComm)
    ensures comm.Some? ==>
              var m := |arrays[0]|;
              var count := Narrow32(m);
              if count < 0 || (root.Some? && |arrays| <= root.value) then rv == Failed(MpiCount)
              else if root.Some? && root.value != comm.value then rv == Returned(None)
              else
                && rv == Returned(Some(Reduction(op, zero, arrays, m, count)))
                && (m <= INT_MAX ==> rv == Returned(Some(ColumnFolds(op, arrays, m))))
  {
    if comm.None? {
      return Failed(MpiNullComm);
    }
    var amIRoot := root.None? || root.value == comm.value;
    var nElems := |arrays[comm.value]|;
    var count := Narrow32(nElems);
    if count < 0 || (root.Some? && |arrays| <= root.value) {
      return Failed(MpiCount);
    }
    if !amIRoot {
      return Returned(None);
    }
    var temp := new T[nElems](_ => zero);
    assert temp[count..] == seq(nElems - count, _ => zero);
    MpiReduce(op, Prefixes(arrays, count), count, schedule, temp);
    assert temp[..] == temp[..count] + temp[count..];
    if nElems <= INT_MAX {
      WholeReduction(op, zero, arrays, nElems);
    }
    rv := Returned(Some(temp[..]));
  }

  // ---------------------------------------------------------------------------
  // The registered operations: arithmetic wraps around within the range of the element
  // ---------------------------------------------------------------------------

  /** The integer from `-h` up to `m - h` that is `x` modulo `m`: unsigned for `h == 0`, signed for `h == m / 2`. */
  function Wrap(m: int, h: int, x: int): (r: int)
    requires 1 <= m
    ensures -h <= r < m - h
    ensures -h <= x < m - h ==> r == x
  {
    if -h <= x < m - h then x else (x + h) % m - h
  }

  /** `std::plus` and `std::multiplies` on elements with `m` values, the least of which is `-h`. */
  function Plus(m: int, h: int): (int, int) -> int
    requires 1 <= m
  {
    (a, b) => Wrap(m, h, a + b)
  }

  function Times(m: int, h: int): (int, int) -> int
    requires 1 <= m
  {
    (a, b) => Wrap(m, h, a * b)
  }

  function LogicalAnd(a: int, b: int): int { if a != 0 && b != 0 then 1 else 0 }
  function LogicalOr(a: int, b: int): int { if a != 0 || b != 0 then 1 else 0 }
  function BitAnd(a: bv8, b: bv8): bv8 { a & b }
  function BitOr(a: bv8, b: bv8): bv8 { a | b }
  function BitXor(a: bv8, b: bv8): bv8 { a ^ b }

  /** The bitwise operations, on the bytes of an element. */
  function Bytewise(op: (bv8, bv8) -> bv8): (seq<bv8>, seq<bv8>) -> seq<bv8> {
    (a, b) => ByteByByte(op, a, b)
  }

  function ByteByByte(op: (bv8, bv8) -> bv8, a: seq<bv8>, b: seq<bv8>): (r: seq<bv8>)
    ensures |r| == if |a| <= |b| then |a| else |b|
    ensures forall i :: 0 <= i < |r| ==> r[i] == op(a[i], b[i])
  {
    seq(if |a| <= |b| then |a| else |b|, i requires 0 <= i < |a| && i < |b| => op(a[i], b[i]))
  }

  /** A remainder is the only one. */
  lemma ModUnique(x: int, m: int, q: int, r: int)
    requires 1 <= m && 0 <= r < m && x == q * m + r
    ensures x % m == r
  {
    var d := q - x / m;
    assert d * m == q * m - (x / m) * m;
    MultipleApart(d, m);
  }

  /** What is added to `x` by wrapping it is a multiple of `m`. */
  lemma WrapShift(m: int, h: int, x: int) returns (k: int)
    requires 1 <= m
    ensures Wrap(m, h, x) == x + k * m
  {
    k := if -h <= x < m - h then 0 else -((x + h) / m);
  }

  /** Integers a multiple of `m` apart wrap to the same. */
  lemma WrapSame(m: int, h: int, x: int, k: int)
    requires 1 <= m
    ensures Wrap(m, h, x + k * m) == Wrap(m, h, x)
  {
    WrapIsMod(m, h, x);
    WrapIsMod(m, h, x + k * m);
    var q, r := (x + h) / m, (x + h) % m;
    assert (k + q) * m == k * m + q * m;
    ModUnique(x + k * m + h, m, k + q, r);
  }

  lemma WrapIsMod(m: int, h: int, x: int)
    requires 1 <= m
    ensures Wrap(m, h, x) == (x + h) % m - h
  {
    if -h <= x < m - h {
      ModUnique(x + h, m, 0, x + h);
    }
  }

  lemma PlusAssociates(m: int, h: int, a: int, b: int, c: int)
    requires 1 <= m
    ensures Plus(m, h)(Plus(m, h)(a, b), c) == Wrap(m, h, a + b + c)
    ensures Plus(m, h)(a, Plus(m, h)(b, c)) == Wrap(m, h, a + b + c)
  {
    var j := WrapShift(m, h, a + b);
    var k := WrapShift(m, h, b + c);
    WrapSame(m, h, a + b + c, j);
    WrapSame(m, h, a + b + c, k);
  }

  lemma Distributes(x: int, k: int, m: int, c: int)
    ensures (x + k * m) * c == x * c + (k * c) * m
  {
    assert (k * m) * c == (k * c) * m;
  }

  /** A factor may be wrapped first. */
  lemma WrapFactor(m: int, h: int, x: int, c: int)
    requires 1 <= m
    ensures Wrap(m, h, Wrap(m, h, x) * c) == Wrap(m, h, x * c)
  {
    var k := WrapShift(m, h, x);
    Distributes(x, k, m, c);
    WrapSame(m, h, x * c, k * c);
  }

  lemma MulAssociates(a: int, b: int, c: int)
    ensures (a * b) * c == (b * c) * a
  {
  }

  lemma MulCommutes(a: int, b: int)
    ensures a * b == b * a
  {
  }

  lemma TimesAssociates(m: int, h: int, a: int, b: int, c: int)
    requires 1 <= m
    ensures Times(m, h)(Times(m, h)(a, b), c) == Times(m, h)(a, Times(m, h)(b, c))
  {
    WrapFactor(m, h, a * b, c);
    WrapFactor(m, h, b * c, a);
    MulAssociates(a, b, c);
    MulCommutes(a, Wrap(m, h, b * c));
  }

  lemma ArithmeticLaws(m: int, h: int)
    requires 1 <= m
    ensures Associative(Plus(m, h)) && Commutative(Plus(m, h))
    ensures Associative(Times(m, h)) && Commutative(Times(m, h))
  {
    forall a, b, c
      ensures Plus(m, h)(Plus(m, h)(a, b), c) == Plus(m, h)(a, Plus(m, h)(b, c))
    {
      PlusAssociates(m, h, a, b, c);
    }
    forall a, b, c
      ensures Times(m, h)(Times(m, h)(a, b), c) == Times(m, h)(a, Times(m, h)(b, c))
    {
      TimesAssociates(m, h, a, b, c);
    }
    forall a, b
      ensures Times(m, h)(a, b) == Times(m, h)(b, a)
    {
      assert a * b == b * a;
    }
  }

  lemma BitAndLaws()
    ensures Associative(BitAnd) && Commutative(BitAnd)
  {
  }

  lemma BitOrLaws()
    ensures Associative(BitOr) && Commutative(BitOr)
  {
  }

  lemma BitXorLaws()
    ensures Associative(BitXor) && Commutative(BitXor)
  {
  }

  lemma BytesAssociate(op: (bv8, bv8) -> bv8, a: seq<bv8>, b: seq<bv8>, c: seq<bv8>)
    requires Associative(op)
    ensures ByteByByte(op, ByteByByte(op, a, b), c) == ByteByByte(op, a, ByteByByte(op, b, c))
  {
    var ab, bc := ByteByByte(op, a, b), ByteByByte(op, b, c);
    var l, r := ByteByByte(op, ab, c), ByteByByte(op, a, bc);
    forall i | 0 <= i < |l|
      ensures l[i] == r[i]
    {
      assert op(op(a[i], b[i]), c[i]) == op(a[i], op(b[i], c[i]));
    }
  }

  lemma BytesCommute(op: (bv8, bv8) -> bv8, a: seq<bv8>, b: seq<bv8>)
    requires Commutative(op)
    ensures ByteByByte(op, a, b) == ByteByByte(op, b, a)
  {
    forall i | 0 <= i < |ByteByByte(op, a, b)|
      ensures ByteByByte(op, a, b)[i] == ByteByByte(op, b, a)[i]
    {
      assert op(a[i], b[i]) == op(b[i], a[i]);
    }
  }

  /** Byte by byte an operation keeps its laws. */
  lemma BytewiseLaws(op: (bv8, bv8) -> bv8)
    requires Associative(op) && Commutative(op)
    ensures Associative(Bytewise(op)) && Commutative(Bytewise(op))
  {
    var f := Bytewise(op);
    forall a, b, c
      ensures f(f(a, b), c) == f(a, f(b, c))
    {
      BytesAssociate(op, a, b, c);
    }
    forall a, b
      ensures f(a, b) == f(b, a)
    {
      BytesCommute(op, a, b);
    }
  }

  /**
   * Every functor with a registered MPI operation is associative and commutative, on integers of
   * every width, signed or not: arithmetic that wraps around (and is exact where it need not),
   * logic, and the bitwise operations on any number of bytes.
   */
  lemma RegisteredOperations(m: int, h: int)
    requires 1 <= m
    ensures Associative(Plus(m, h)) && Commutative(Plus(m, h))
    ensures Associative(Times(m, h)) && Commutative(Times(m, h))
    ensures forall a, b :: -h <= a + b < m - h ==> Plus(m, h)(a, b) == a + b
    ensures forall a, b :: -h <= a * b < m - h ==> Times(m, h)(a, b) == a * b
    ensures Associative(LogicalAnd) && Commutative(LogicalAnd)
    ensures Associative(LogicalOr) && Commutative(LogicalOr)
    ensures Associative(Bytewise(BitAnd)) && Commutative(Bytewise(BitAnd))
    ensures Associative(Bytewise(BitOr)) && Commutative(Bytewise(BitOr))
    ensures Associative(Bytewise(BitXor)) && Commutative(Bytewise(BitXor))
  {
    ArithmeticLaws(m, h);
    BitAndLaws();
    BitOrLaws();
    BitXorLaws();
    BytewiseLaws(BitAnd);
    BytewiseLaws(BitOr);
    BytewiseLaws(BitXor);
  }
}
