/** Row-major index arithmetic of the Rust `ndarray` crate (`src/utils.rs`):
    strides, the enumeration of every index of a shape, axis reordering and the
    index-to-offset map.  The JavaScript packages use the same arithmetic. */
module IndexMath {
  import opened Wrappers

  /** Product of the entries of a shape; the empty shape has product 1. */
  function Product(s: seq<int>): int
  {
    if |s| == 0 then 1 else s[0] * Product(s[1..])
  }

  /** Every entry of a shape is a size (no negative entries). */
  predicate NonNeg(s: seq<int>)
  {
    forall i :: 0 <= i < |s| ==> s[i] >= 0
  }

  lemma {:induction false} ProductSnoc(p: seq<int>, x: int)
    ensures Product(p + [x]) == Product(p) * x
    decreases |p|
  {
    if |p| == 0 {
      assert p + [x] == [x];
    } else {
      assert (p + [x])[1..] == p[1..] + [x];
      ProductSnoc(p[1..], x);
    }
  }

  lemma {:induction false} ProductConcat(a: seq<int>, b: seq<int>)
    ensures Product(a + b) == Product(a) * Product(b)
    decreases |a|
  {
    if |a| == 0 {
      assert a + b == b;
    } else {
      assert (a + b)[1..] == a[1..] + b;
      ProductConcat(a[1..], b);
    }
  }

  lemma {:induction false} ProductNonNeg(s: seq<int>)
    requires NonNeg(s)
    ensures Product(s) >= 0
    decreases |s|
  {
    if |s| > 0 {
      ProductNonNeg(s[1..]);
    }
  }

  /** `get_strides`: the stride of axis i is the product of the sizes after it. */
  function Strides(shape: seq<int>): (r: seq<int>)
    ensures |r| == |shape|
  {
    seq(|shape|, i requires 0 <= i < |shape| => Product(shape[i + 1..]))
  }

  /** The last axis is the fastest-varying one, and each stride is the next
      stride times the next size, so the first stride times the first size is
      the number of elements. */
  lemma StridesRowMajor(shape: seq<int>)
    requires |shape| > 0
    ensures Strides(shape)[|shape| - 1] == 1
    ensures forall i :: 0 <= i < |shape| - 1 ==> Strides(shape)[i] == shape[i + 1] * Strides(shape)[i + 1]
    ensures shape[0] * Strides(shape)[0] == Product(shape)
  {
    var st := Strides(shape);
    assert shape[|shape|..] == [];
    forall i | 0 <= i < |shape| - 1
      ensures st[i] == shape[i + 1] * st[i + 1]
    {
      StridesStep(shape, i);
    }
    assert shape[1..] == shape[0 + 1..];
  }

  lemma StridesStep(shape: seq<int>, i: nat)
    requires i + 1 < |shape|
    ensures Strides(shape)[i] == shape[i + 1] * Strides(shape)[i + 1]
  {
    var t := shape[i + 1..];
    assert t[1..] == shape[i + 2..];
    assert Product(t) == t[0] * Product(t[1..]);
  }

  /** Strides of a shape extended by one trailing axis: every old stride is
      scaled by the new size and the new axis has stride 1. */
  lemma StridesSnoc(p: seq<int>, x: int)
    ensures Strides(p + [x]) == Scale(Strides(p), x) + [1]
  {
    var l := Strides(p + [x]);
    var r := Scale(Strides(p), x) + [1];
    forall i | 0 <= i < |p|
      ensures l[i] == r[i]
    {
      assert (p + [x])[i + 1..] == p[i + 1..] + [x];
      ProductSnoc(p[i + 1..], x);
    }
    assert (p + [x])[|p| + 1..] == [];
  }

  /** A suffix of the strides is the strides of the suffix of the shape. */
  lemma StridesSuffix(shape: seq<int>, k: nat)
    requires k <= |shape|
    ensures Strides(shape)[k..] == Strides(shape[k..])
  {
    forall i | 0 <= i < |shape| - k
      ensures Strides(shape)[k..][i] == Strides(shape[k..])[i]
    {
      assert shape[k..][i + 1..] == shape[k + i + 1..];
    }
  }

  /** `get_strides` over `usize` sizes: the strides of a shape of naturals are naturals. */
  function StridesNat(shape: seq<nat>): (r: seq<nat>)
    ensures r == Strides(shape)
  {
    StridesNonNeg(shape);
    Strides(shape)
  }

  lemma StridesNonNeg(shape: seq<nat>)
    ensures NonNeg(Strides(shape))
  {
    forall i | 0 <= i < |shape|
      ensures Strides(shape)[i] >= 0
    {
      ProductNonNeg(shape[i + 1..]);
    }
  }

  lemma {:induction false} OffsetNonNeg(idx: seq<int>, strides: seq<int>)
    requires |idx| == |strides| && NonNeg(idx) && NonNeg(strides)
    ensures Offset(idx, strides) >= 0
    decreases |idx|
  {
    if |idx| > 0 {
      OffsetNonNeg(idx[..|idx| - 1], strides[..|idx| - 1]);
    }
  }

  function Scale(s: seq<int>, x: int): (r: seq<int>)
    ensures |r| == |s|
  {
    seq(|s|, i requires 0 <= i < |s| => s[i] * x)
  }

  /** `nd_idx_to_offset` as a value: the sum of index times stride over the axes. */
  function Offset(idx: seq<int>, strides: seq<int>): int
    requires |idx| == |strides|
    decreases |idx|
  {
    if |idx| == 0 then 0
    else Offset(idx[..|idx| - 1], strides[..|idx| - 1]) + idx[|idx| - 1] * strides[|idx| - 1]
  }

  lemma {:induction false} OffsetScale(idx: seq<int>, strides: seq<int>, x: int)
    requires |idx| == |strides|
    ensures Offset(idx, Scale(strides, x)) == x * Offset(idx, strides)
    decreases |idx|
  {
    if |idx| > 0 {
      var n := |idx| - 1;
      assert Scale(strides, x)[..n] == Scale(strides[..n], x);
      OffsetScale(idx[..n], strides[..n], x);
      assert idx[n] * (strides[n] * x) == x * (idx[n] * strides[n]);
    }
  }

  /** The offset of a concatenated index splits along the concatenation. */
  lemma {:induction false} OffsetConcat(a: seq<int>, b: seq<int>, strides: seq<int>)
    requires |a| + |b| == |strides|
    ensures Offset(a + b, strides) == Offset(a, strides[..|a|]) + Offset(b, strides[|a|..])
    decreases |b|
  {
    if |b| == 0 {
      assert a + b == a;
      assert strides[..|a|] == strides;
    } else {
      var n := |b| - 1;
      assert (a + b)[..|a| + n] == a + b[..n];
      assert strides[..|a| + n][..|a|] == strides[..|a|];
      assert strides[..|a| + n][|a|..] == strides[|a|..][..n];
      OffsetConcat(a, b[..n], strides[..|a| + n]);
    }
  }

  /** `nd_idx_to_offset`: asserts that the index and the strides have the same
      length, then accumulates index times stride axis by axis. */
  method NdIdxToOffset(index: seq<nat>, strides: seq<nat>) returns (r: Result<int>)
    ensures r.Success? <==> |index| == |strides|
    ensures r.Success? ==> r.value == Offset(index, strides)
  {
    if |index| != |strides| {
      return Failure("assertion `left == right` failed");
    }
    var res := 0;
    var axis := 0;
    while axis < |index|
      invariant 0 <= axis <= |index|
      invariant res == Offset(index[..axis], strides[..axis])
    {
      assert index[..axis + 1][..axis] == index[..axis];
      assert strides[..axis + 1][..axis] == strides[..axis];
      res := res + index[axis] * strides[axis];
      axis := axis + 1;
    }
    assert index[..axis] == index && strides[..axis] == strides;
    return Success(res);
  }

  /** An index lies inside a shape: one entry per axis, each below that axis's size. */
  predicate InBounds(idx: seq<int>, shape: seq<int>)
  {
    |idx| == |shape| && forall a :: 0 <= a < |idx| ==> 0 <= idx[a] < shape[a]
  }

  lemma MulLeq(x: int, y: int, p: int)
    requires x <= y && p >= 0
    ensures x * p <= y * p
  {
    assert y * p - x * p == (y - x) * p;
  }

  lemma MulSucc(r: int, b: int)
    ensures r * b == (r - 1) * b + b
  {
  }

  /** `rows` rows of `n` cells, counted by repeated addition so that no
      product of two unknowns reaches the solver. */
  function Span(rows: nat, n: nat): nat
  {
    if rows == 0 then 0 else Span(rows - 1, n) + n
  }

  lemma {:induction false} SpanIsProduct(rows: nat, n: nat)
    ensures Span(rows, n) == rows * n
  {
    if rows > 0 {
      SpanIsProduct(rows - 1, n);
      MulSucc(rows, n);
    }
  }

  lemma DivModUnique(n: int, s: int, q: int, r: int)
    requires s > 0 && 0 <= r < s && n == q * s + r
    ensures n / s == q && n % s == r
  {
    var k := q - n / s;
    assert k * s == n % s - r;
  }

  lemma PositiveFactor(n: int, m: int, s: int)
    requires 0 <= n < m * s && m >= 0
    ensures s > 0
  {
  }

  lemma DivBelow(n: int, s: int, m: int)
    requires s > 0 && 0 <= n < m * s
    ensures 0 <= n / s < m
  {
    var q := n / s;
    assert n == q * s + n % s;
  }

  /** `n` split into its quotient and remainder by `s`. */
  lemma QuotRem(n: int, s: int, m: int) returns (q: nat, r: nat)
    requires s > 0 && 0 <= n < m * s
    ensures q == n / s && r == n % s && q < m && r < s && n == q * s + r
  {
    DivBelow(n, s, m);
    q, r := n / s, n % s;
  }

  /** One cell followed by each value below `s`. */
  function Row(c: seq<nat>, s: nat): (r: seq<seq<nat>>)
    ensures |r| == s
  {
    seq(s, v requires 0 <= v < s => c + [v])
  }

  /** Every cell followed by every value below `s`, cell-major: the step of
      `get_indexes` that adds one axis. */
  function Extend(cells: seq<seq<nat>>, s: nat): (r: seq<seq<nat>>)
    ensures |r| == |cells| * s
  {
    if |cells| == 0 then []
    else
      assert |cells| * s == s + (|cells| - 1) * s;
      Row(cells[0], s) + Extend(cells[1..], s)
  }

  lemma {:induction false} ExtendAt(cells: seq<seq<nat>>, s: nat, q: nat, v: nat)
    requires q < |cells| && v < s
    ensures q * s + v < |cells| * s
    ensures Extend(cells, s)[q * s + v] == cells[q] + [v]
    decreases q
  {
    if q == 0 {
      assert |cells| * s == s + (|cells| - 1) * s;
    } else {
      ExtendAt(cells[1..], s, q - 1, v);
      assert q * s + v == s + ((q - 1) * s + v);
      assert |cells| * s == s + (|cells| - 1) * s;
    }
  }

  lemma {:induction false} ExtendSnoc(cells: seq<seq<nat>>, c: seq<nat>, s: nat)
    ensures Extend(cells + [c], s) == Extend(cells, s) + Row(c, s)
    decreases |cells|
  {
    if |cells| == 0 {
      assert cells + [c] == [c];
      assert [c][1..] == [];
    } else {
      assert (cells + [c])[1..] == cells[1..] + [c];
      ExtendSnoc(cells[1..], c, s);
    }
  }

  /** All indexes of a shape, in row-major (lexicographic) order. */
  function Indexes(shape: seq<nat>): seq<seq<nat>>
    decreases |shape|
  {
    if |shape| == 0 then [[]]
    else Extend(Indexes(shape[..|shape| - 1]), shape[|shape| - 1])
  }

  /** There are as many indexes as elements. */
  lemma {:induction false} IndexesCount(shape: seq<nat>)
    ensures |Indexes(shape)| == Product(shape)
    decreases |shape|
  {
    if |shape| > 0 {
      var n := |shape| - 1;
      IndexesCount(shape[..n]);
      assert shape == shape[..n] + [shape[n]];
      ProductSnoc(shape[..n], shape[n]);
    }
  }

  /** A position below m * s is some row q below m and column v below s. */
  lemma Split(n: nat, m: nat, s: nat) returns (q: nat, v: nat)
    requires n < m * s
    ensures q < m && v < s && n == s * q + v && n == q * s + v
  {
    PositiveFactor(n, m, s);
    DivBelow(n, s, m);
    q, v := n / s, n % s;
  }

  /** Position n of an extension is a cell q extended by a value v, where
      n == s * q + v. */
  lemma ExtendAtPosition(cells: seq<seq<nat>>, s: nat, n: nat) returns (q: nat, v: nat)
    requires n < |Extend(cells, s)|
    ensures q < |cells| && v < s && n == s * q + v
    ensures Extend(cells, s)[n] == cells[q] + [v]
  {
    q, v := Split(n, |cells|, s);
    ExtendAt(cells, s, q, v);
  }

  /** The offset of an index extended by one trailing entry, under the strides
      of the shape extended by one trailing axis. */
  lemma OffsetSnoc(c: seq<int>, v: int, p: seq<int>, s: int)
    requires |c| == |p|
    ensures Offset(c + [v], Strides(p + [s])) == s * Offset(c, Strides(p)) + v
  {
    var st := Strides(p + [s]);
    StridesSnoc(p, s);
    assert st[..|p|] == Scale(Strides(p), s);
    assert (c + [v])[..|c|] == c;
    OffsetScale(c, Strides(p), s);
  }

  /** The last step of the enumeration: the indexes of a shape extended by one
      trailing axis are the indexes of the shorter shape, each extended. */
  lemma IndexesSnoc(shape: seq<nat>)
    requires |shape| > 0
    ensures Indexes(shape) == Extend(Indexes(shape[..|shape| - 1]), shape[|shape| - 1])
  {
  }

  lemma SplitAt<T>(s: seq<T>, j: nat)
    requires j <= |s|
    ensures s[..j] + s[j..] == s
  {
  }

  lemma TakeStep<T>(s: seq<T>, k: nat)
    requires k < |s|
    ensures s[..k + 1] == s[..k] + [s[k]] && s[k..][1..] == s[k + 1..]
  {
  }

  lemma LastSplit<T>(s: seq<T>)
    requires |s| > 0
    ensures s == s[..|s| - 1] + [s[|s| - 1]]
  {
  }

  lemma InBoundsSnoc(c: seq<int>, v: int, p: seq<int>, s: int)
    requires InBounds(c, p) && 0 <= v < s
    ensures InBounds(c + [v], p + [s])
  {
    forall a | 0 <= a < |c| + 1
      ensures 0 <= (c + [v])[a] < (p + [s])[a]
    {
      if a < |c| {
        assert (c + [v])[a] == c[a] && (p + [s])[a] == p[a];
      }
    }
  }

  /** Every index the enumeration produces lies inside the shape. */
  lemma {:induction false} IndexesInBounds(shape: seq<nat>, n: nat)
    requires n < |Indexes(shape)|
    ensures InBounds(Indexes(shape)[n], shape)
    decreases |shape|
  {
    if |shape| > 0 {
      var k := |shape| - 1;
      var p, s := shape[..k], shape[k];
      IndexesSnoc(shape);
      var q, v := ExtendAtPosition(Indexes(p), s, n);
      IndexesInBounds(p, q);
      InBoundsSnoc(Indexes(p)[q], v, p, s);
      LastSplit(shape);
    }
  }

  /** The enumeration visits each index at the offset that index has under the
      row-major strides: position n holds an in-bounds index whose offset is n. */
  lemma {:induction false} IndexesOffset(shape: seq<nat>, n: nat)
    requires n < |Indexes(shape)|
    ensures InBounds(Indexes(shape)[n], shape)
    ensures Offset(Indexes(shape)[n], Strides(shape)) == n
    decreases |shape|
  {
    IndexesInBounds(shape, n);
    if |shape| > 0 {
      var k := |shape| - 1;
      var p, s := shape[..k], shape[k];
      IndexesSnoc(shape);
      var q, v := ExtendAtPosition(Indexes(p), s, n);
      IndexesOffset(p, q);
      OffsetSnoc(Indexes(p)[q], v, p, s);
      LastSplit(shape);
    }
  }

  /** Conversely every in-bounds index occurs, at the position given by its offset. */
  lemma {:induction false} IndexesComplete(shape: seq<nat>, idx: seq<int>)
    requires InBounds(idx, shape)
    ensures 0 <= Offset(idx, Strides(shape)) < |Indexes(shape)|
    ensures Indexes(shape)[Offset(idx, Strides(shape))] == idx
    decreases |shape|
  {
    if |shape| == 0 {
      assert idx == [];
    } else {
      var k := |shape| - 1;
      var p, s := shape[..k], shape[k];
      var c, v := idx[..k], idx[k];
      InBoundsPrefix(idx, shape);
      IndexesComplete(p, c);
      IndexesCompleteStep(p, s, c, v);
    }
  }

  lemma IndexesCompleteStep(p: seq<nat>, s: nat, c: seq<int>, v: int)
    requires |c| == |p| && 0 <= v < s
    requires 0 <= Offset(c, Strides(p)) < |Indexes(p)| && Indexes(p)[Offset(c, Strides(p))] == c
    ensures 0 <= Offset(c + [v], Strides(p + [s])) < |Indexes(p + [s])|
    ensures Indexes(p + [s])[Offset(c + [v], Strides(p + [s]))] == c + [v]
  {
    var o := Offset(c, Strides(p));
    OffsetSnoc(c, v, p, s);
    assert Offset(c + [v], Strides(p + [s])) == s * o + v;
    IndexesSnoc(p + [s]);
    assert (p + [s])[..|p|] == p;
    assert Indexes(p + [s]) == Extend(Indexes(p), s);
    ExtendAtOffset(Indexes(p), s, o, v);
    assert Indexes(p)[o] + [v] == c + [v];
  }

  lemma InBoundsPrefix(idx: seq<int>, shape: seq<int>)
    requires InBounds(idx, shape) && |shape| > 0
    ensures InBounds(idx[..|idx| - 1], shape[..|shape| - 1])
    ensures 0 <= idx[|idx| - 1] < shape[|shape| - 1]
    ensures idx == idx[..|idx| - 1] + [idx[|idx| - 1]]
    ensures shape == shape[..|shape| - 1] + [shape[|shape| - 1]]
  {
  }

  /** `ExtendAt` with the position written as `s * q + v`. */
  lemma ExtendAtOffset(cells: seq<seq<nat>>, s: nat, q: nat, v: nat)
    requires q < |cells| && v < s
    ensures s * q + v < |cells| * s
    ensures Extend(cells, s)[s * q + v] == cells[q] + [v]
  {
    ExtendAt(cells, s, q, v);
    assert s * q == q * s;
  }

  /** Row-major offsets are injective on in-bounds indexes. */
  lemma OffsetInjective(shape: seq<nat>, x: seq<int>, y: seq<int>)
    requires InBounds(x, shape) && InBounds(y, shape)
    requires Offset(x, Strides(shape)) == Offset(y, Strides(shape))
    ensures x == y
  {
    IndexesComplete(shape, x);
    IndexesComplete(shape, y);
  }

  /** The block addressed by a prefix of an in-bounds index fits in the array:
      its start plus its size is at most the number of elements. */
  lemma {:induction false} PrefixOffsetBound(shape: seq<nat>, idx: seq<int>)
    requires |idx| <= |shape| && forall a :: 0 <= a < |idx| ==> 0 <= idx[a] < shape[a]
    ensures 0 <= Offset(idx, Strides(shape)[..|idx|])
    ensures Offset(idx, Strides(shape)[..|idx|]) + Product(shape[|idx|..]) <= Product(shape)
    decreases |idx|
  {
    var k := |idx|;
    if k == 0 {
      assert shape[0..] == shape;
    } else {
      var rest, tail := shape[1..], idx[1..];
      var p := Product(rest);
      ProductNonNeg(rest);
      PrefixOffsetFirst(shape, idx);
      assert forall a :: 0 <= a < |tail| ==> 0 <= tail[a] < rest[a] by {
        forall a | 0 <= a < |tail| ensures 0 <= tail[a] < rest[a] {
          assert tail[a] == idx[a + 1] && rest[a] == shape[a + 1];
        }
      }
      PrefixOffsetBound(rest, tail);
      assert rest[k - 1..] == shape[k..];
      assert Product(shape) == shape[0] * p;
      BlockBound(idx[0], shape[0], p, Offset(tail, Strides(rest)[..k - 1]), Product(shape[k..]));
    }
  }

  /** Block i0 of n0 blocks of size p, shifted by o1 within the block, leaves
      room for t more elements when o1 + t fits in a block. */
  lemma BlockBound(i0: int, n0: int, p: int, o1: int, t: int)
    requires 0 <= i0 < n0 && p >= 0 && 0 <= o1 && o1 + t <= p
    ensures 0 <= i0 * p + o1
    ensures i0 * p + o1 + t <= n0 * p
  {
    MulLeq(0, i0, p);
    MulLeq(i0 + 1, n0, p);
    assert (i0 + 1) * p == i0 * p + p;
  }

  /** The prefix offset is the first entry times the first stride plus the
      prefix offset of the rest within the rest of the shape. */
  lemma PrefixOffsetFirst(shape: seq<nat>, idx: seq<int>)
    requires 0 < |idx| <= |shape|
    ensures Offset(idx, Strides(shape)[..|idx|])
      == idx[0] * Product(shape[1..]) + Offset(idx[1..], Strides(shape[1..])[..|idx| - 1])
  {
    var k := |idx|;
    var st := Strides(shape)[..k];
    StridesSuffix(shape, 1);
    assert st[1..] == Strides(shape[1..])[..k - 1];
    OffsetCons(idx, st);
  }

  /** The offset split off at the first axis instead of the last. */
  lemma OffsetCons(idx: seq<int>, strides: seq<int>)
    requires 0 < |idx| == |strides|
    ensures Offset(idx, strides) == idx[0] * strides[0] + Offset(idx[1..], strides[1..])
  {
    assert idx == [idx[0]] + idx[1..];
    OffsetConcat([idx[0]], idx[1..], strides);
    assert strides[..1] == [strides[0]];
    assert Offset([idx[0]], [strides[0]]) == idx[0] * strides[0] by {
      assert [idx[0]][..0] == [] && [strides[0]][..0] == [];
    }
  }

  /** The one-axis indexes `[0], [1], ...` that `get_indexes` starts from
      are the indexes of the first axis alone. */
  lemma FirstAxisIndexes(shape: seq<nat>, res: seq<seq<nat>>)
    requires |shape| > 0 && |res| == shape[0] && forall x :: 0 <= x < |res| ==> res[x] == [x]
    ensures res == Indexes(shape[..1])
  {
    var unit: seq<seq<nat>> := [[]];
    assert shape[..1][..0] == [] && shape[..1][0] == shape[0];
    assert Indexes(shape[..1]) == Extend(unit, shape[0]);
    assert unit[1..] == [];
    assert Extend(unit, shape[0]) == Row([], shape[0]) + Extend([], shape[0]);
    forall x | 0 <= x < shape[0]
      ensures res[x] == Row([], shape[0])[x]
    {
      assert [] + [x] == [x];
    }
  }

  method GetIndexes(shape: seq<nat>) returns (r: Result<seq<seq<nat>>>)
    ensures r.Success? <==> |shape| > 0
    ensures r.Success? ==> r.value == Indexes(shape)
  {
    if |shape| == 0 {
      return Failure("assertion failed: shape.len() > 0");
    }
    var res: seq<seq<nat>> := seq(shape[0], x requires 0 <= x < shape[0] => [x]);
    FirstAxisIndexes(shape, res);
    var axis := 1;
    while axis < |shape|
      invariant 1 <= axis <= |shape|
      invariant res == Indexes(shape[..axis])
    {
      var next := ExtendCells(res, shape[axis]);
      assert shape[..axis + 1][..axis] == shape[..axis];
      res := next;
      axis := axis + 1;
    }
    assert shape[..axis] == shape;
    return Success(res);
  }

  /** One pass of the outer loop of `get_indexes`: every cell, cloned and
      pushed with each value below `size`. */
  method ExtendCells(res: seq<seq<nat>>, size: nat) returns (next: seq<seq<nat>>)
    ensures next == Extend(res, size)
  {
    next := [];
    var c := 0;
    while c < |res|
      invariant 0 <= c <= |res|
      invariant next == Extend(res[..c], size)
    {
      var value := 0;
      while value < size
        invariant 0 <= value <= size
        invariant next == Extend(res[..c], size) + Row(res[c], size)[..value]
      {
        assert Row(res[c], size)[..value + 1] == Row(res[c], size)[..value] + [res[c] + [value]];
        next := next + [res[c] + [value]];
        value := value + 1;
      }
      assert res[..c + 1] == res[..c] + [res[c]];
      ExtendSnoc(res[..c], res[c], size);
      c := c + 1;
    }
    assert res[..c] == res;
  }

  /** `reorder` as a value: position i takes the entry of axis order[i]. */
  function Reordered<T>(origin: seq<T>, order: seq<nat>): (r: seq<T>)
    requires forall i :: 0 <= i < |order| ==> order[i] < |origin|
    ensures |r| == |order|
  {
    seq(|order|, i requires 0 <= i < |order| => origin[order[i]])
  }

  /** `reorder`: asserts equal lengths, clones the origin and overwrites
      position src with origin[order[src]]; an order entry past the end panics. */
  method Reorder<T>(origin: seq<T>, order: seq<nat>) returns (r: Result<seq<T>>)
    ensures r.Success? <==> |origin| == |order| && forall i :: 0 <= i < |order| ==> order[i] < |origin|
    ensures r.Success? ==> r.value == Reordered(origin, order)
  {
    if |origin| != |order| {
      return Failure("assertion `left == right` failed");
    }
    var target := origin;
    var src := 0;
    while src < |order|
      invariant 0 <= src <= |order|
      invariant |target| == |origin|
      invariant forall i :: 0 <= i < src ==> order[i] < |origin| && target[i] == origin[order[i]]
      invariant target[src..] == origin[src..]
    {
      if order[src] >= |origin| {
        return Failure("index out of bounds");
      }
      target := target[src := origin[order[src]]];
      src := src + 1;
    }
    return Success(target);
  }

  /** No entry occurs twice. */
  predicate Distinct(p: seq<nat>)
  {
    forall i, j | 0 <= i < j < |p| :: p[i] != p[j]
  }

  /** A permutation of the axes 0..n-1: n distinct axes, each below n. */
  predicate IsPermutation(order: seq<nat>, n: nat)
  {
    |order| == n && (forall i :: 0 <= i < n ==> order[i] < n) && Distinct(order)
  }

  function Range(n: nat): set<nat>
  {
    if n == 0 then {} else Range(n - 1) + {n - 1}
  }

  lemma {:induction false} RangeMembers(n: nat)
    ensures forall a :: a in Range(n) <==> 0 <= a < n
    ensures |Range(n)| == n
  {
    if n > 0 {
      RangeMembers(n - 1);
    }
  }

  lemma {:induction false} DistinctCard(p: seq<nat>)
    requires Distinct(p)
    ensures |set i | 0 <= i < |p| :: p[i]| == |p|
  {
    if |p| > 0 {
      var q := p[..|p| - 1];
      DistinctCard(q);
      var sq := set i | 0 <= i < |q| :: q[i];
      var sp := set i | 0 <= i < |p| :: p[i];
      assert sp == sq + {p[|p| - 1]};
      assert p[|p| - 1] !in sq;
    }
  }

  lemma {:induction false} CardMono<T>(a: set<T>, b: set<T>)
    requires a <= b
    ensures |a| <= |b|
    decreases |a|
  {
    if a != {} {
      var y :| y in a;
      CardMono(a - {y}, b - {y});
    }
  }

  lemma SubsetCard<T>(a: set<T>, b: set<T>)
    requires a <= b && |a| == |b|
    ensures a == b
  {
    if a != b {
      assert exists x :: x in b && x !in a;
      var x :| x in b && x !in a;
      CardMono(a, b - {x});
    }
  }

  /** Pigeonhole: n distinct axes below n cover every axis. */
  lemma PermutationCovers(order: seq<nat>, n: nat)
    requires IsPermutation(order, n)
    ensures forall a :: 0 <= a < n ==> a in order
  {
    var sp := set i | 0 <= i < |order| :: order[i];
    DistinctCard(order);
    RangeMembers(n);
    assert sp <= Range(n);
    SubsetCard(sp, Range(n));
    forall a | 0 <= a < n
      ensures a in order
    {
      assert a in sp;
      var i :| 0 <= i < |order| && order[i] == a;
    }
  }

  /** Removing the position that holds the last axis leaves a permutation of
      the remaining axes, and the reordering splits around that position. */
  lemma RemoveLast<T>(s: seq<T>, order: seq<nat>, j: nat)
    requires |s| > 0 && IsPermutation(order, |s|) && j < |s| && order[j] == |s| - 1
    ensures IsPermutation(order[..j] + order[j + 1..], |s| - 1)
    ensures Reordered(s, order)
      == Reordered(s[..|s| - 1], order[..j] + order[j + 1..])[..j] + [s[|s| - 1]]
         + Reordered(s[..|s| - 1], order[..j] + order[j + 1..])[j..]
  {
    RemoveLastPermutation(order, |s|, j);
    var n := |s|;
    var q := order[..j] + order[j + 1..];
    var r := Reordered(s[..n - 1], q);
    var l := Reordered(s, order);
    var m := r[..j] + [s[n - 1]] + r[j..];
    forall i | 0 <= i < n
      ensures l[i] == m[i]
    {
      if i < j {
        assert q[i] == order[i];
      } else if i > j {
        assert q[i - 1] == order[i];
      }
    }
  }

  lemma RemoveLastPermutation(order: seq<nat>, n: nat, j: nat)
    requires n > 0 && IsPermutation(order, n) && j < n && order[j] == n - 1
    ensures IsPermutation(order[..j] + order[j + 1..], n - 1)
  {
    var q := order[..j] + order[j + 1..];
    forall i | 0 <= i < n - 1
      ensures q[i] < n - 1
    {
      if i < j { assert q[i] == order[i]; } else { assert q[i] == order[i + 1]; }
    }
    forall i, k | 0 <= i < k < n - 1
      ensures q[i] != q[k]
    {
      var i' := if i < j then i else i + 1;
      var k' := if k < j then k else k + 1;
      assert q[i] == order[i'] && q[k] == order[k'];
    }
  }

  lemma ProductSplit3(a: seq<int>, x: int, b: seq<int>)
    ensures Product(a + [x] + b) == x * Product(a + b)
  {
    ProductConcat(a, b);
    ProductSnoc(a, x);
    ProductConcat(a + [x], b);
    var pa, pb := Product(a), Product(b);
    assert (pa * x) * pb == x * (pa * pb);
  }

  /** Reordering by a permutation keeps the number of elements. */
  lemma {:induction false} ProductReordered(s: seq<int>, order: seq<nat>)
    requires IsPermutation(order, |s|)
    ensures Product(Reordered(s, order)) == Product(s)
    decreases |s|
  {
    var n := |s|;
    if n > 0 {
      var j := LastAxisAt(order, n);
      var q := order[..j] + order[j + 1..];
      RemoveLast(s, order, j);
      ProductReordered(s[..n - 1], q);
      ProductAround(Reordered(s[..n - 1], q), s[n - 1], j);
      ProductSnoc(s[..n - 1], s[n - 1]);
      assert s[..n - 1] + [s[n - 1]] == s;
    }
  }

  /** The position of a permutation that holds the last axis. */
  lemma LastAxisAt(order: seq<nat>, n: nat) returns (j: nat)
    requires n > 0 && IsPermutation(order, n)
    ensures j < n && order[j] == n - 1
  {
    PermutationCovers(order, n);
    assert n - 1 in order;
    j :| 0 <= j < n && order[j] == n - 1;
  }

  lemma ProductAround(r: seq<int>, x: int, j: nat)
    requires j <= |r|
    ensures Product(r[..j] + [x] + r[j..]) == x * Product(r)
  {
    ProductSplit3(r[..j], x, r[j..]);
    assert r[..j] + r[j..] == r;
  }

  /** The same for a shape of naturals. */
  lemma ProductReorderedNat(shape: seq<nat>, order: seq<nat>)
    requires IsPermutation(order, |shape|)
    ensures Product(Reordered(shape, order)) == Product(shape)
  {
    var wide: seq<int> := shape;
    ProductReordered(wide, order);
    assert Reordered(wide, order) == Reordered(shape, order);
  }

  /** Reordering an index and the strides by the same permutation keeps the offset. */
  lemma {:induction false} OffsetReordered(idx: seq<int>, strides: seq<int>, order: seq<nat>)
    requires |idx| == |strides| && IsPermutation(order, |idx|)
    ensures Offset(Reordered(idx, order), Reordered(strides, order)) == Offset(idx, strides)
    decreases |idx|
  {
    var n := |idx|;
    if n > 0 {
      var j := LastAxisAt(order, n);
      var q := order[..j] + order[j + 1..];
      RemoveLast(idx, order, j);
      OffsetReordered(idx[..n - 1], strides[..n - 1], q);
      OffsetReorderedStep(idx, strides, order, j);
    }
  }

  /** The inductive step of `OffsetReordered`: the last axis, wherever the
      permutation puts it, contributes its index times its stride. */
  lemma OffsetReorderedStep(idx: seq<int>, strides: seq<int>, order: seq<nat>, j: nat)
    requires 0 < |idx| == |strides| && IsPermutation(order, |idx|)
    requires j < |idx| && order[j] == |idx| - 1
    requires IsPermutation(order[..j] + order[j + 1..], |idx| - 1)
    requires Offset(Reordered(idx[..|idx| - 1], order[..j] + order[j + 1..]),
                    Reordered(strides[..|idx| - 1], order[..j] + order[j + 1..]))
             == Offset(idx[..|idx| - 1], strides[..|idx| - 1])
    ensures Offset(Reordered(idx, order), Reordered(strides, order)) == Offset(idx, strides)
  {
    var n := |idx|;
    var q := order[..j] + order[j + 1..];
    RemoveLast(idx, order, j);
    RemoveLast(strides, order, j);
    var ri := Reordered(idx[..n - 1], q);
    var rs := Reordered(strides[..n - 1], q);
    OffsetAround(ri, idx[n - 1], rs, strides[n - 1], j);
  }

  lemma OffsetAround(a: seq<int>, x: int, sa: seq<int>, y: int, j: nat)
    requires |a| == |sa| && j <= |a|
    ensures Offset(a[..j] + [x] + a[j..], sa[..j] + [y] + sa[j..]) == Offset(a, sa) + x * y
  {
    SplitAt(a, j);
    SplitAt(sa, j);
    OffsetSplit3(a[..j], x, a[j..], sa[..j], y, sa[j..]);
  }

  lemma OffsetSplit3(a: seq<int>, x: int, b: seq<int>, sa: seq<int>, y: int, sb: seq<int>)
    requires |a| == |sa| && |b| == |sb|
    ensures Offset(a + [x] + b, sa + [y] + sb) == Offset(a + b, sa + sb) + x * y
  {
    OffsetConcat(a + [x], b, sa + [y] + sb);
    assert (sa + [y] + sb)[..|a| + 1] == sa + [y];
    assert (sa + [y] + sb)[|a| + 1..] == sb;
    assert (a + [x])[..|a|] == a && (sa + [y])[..|a|] == sa;
    OffsetConcat(a, b, sa + sb);
    assert (sa + sb)[..|a|] == sa && (sa + sb)[|a|..] == sb;
  }

  /** Reordering by a permutation moves an in-bounds index to an in-bounds
      index of the reordered shape, and loses nothing: two indexes with the same
      image are equal. */
  lemma ReorderedInBounds(idx: seq<nat>, shape: seq<nat>, order: seq<nat>)
    requires InBounds(idx, shape) && IsPermutation(order, |shape|)
    ensures InBounds(Reordered(idx, order), Reordered(shape, order))
  {
  }

  lemma ReorderedInjective<T>(x: seq<T>, y: seq<T>, order: seq<nat>)
    requires |x| == |y| && IsPermutation(order, |x|)
    requires Reordered(x, order) == Reordered(y, order)
    ensures x == y
  {
    PermutationCovers(order, |x|);
    forall a | 0 <= a < |x|
      ensures x[a] == y[a]
    {
      assert a in order;
      var i :| 0 <= i < |x| && order[i] == a;
      assert Reordered(x, order)[i] == x[a];
    }
  }

  /** The axes in reverse, which `transpose` uses. */
  function ReversedAxes(n: nat): (r: seq<nat>)
    ensures |r| == n
  {
    seq(n, i requires 0 <= i < n => n - 1 - i)
  }

  lemma ReversedAxesIsPermutation(n: nat)
    ensures IsPermutation(ReversedAxes(n), n)
  {
  
  }

  /** The values the crate's unit tests expect. */
  lemma StridesExamples()
    ensures Strides([1, 2, 3]) == [6, 3, 1]
    ensures Strides([9, 8, 7]) == [56, 7, 1]
  {
    ProductExample([2, 3]);
    ProductExample([8, 7]);
    var s1: seq<int> := [1, 2, 3];
    assert s1[1..] == [2, 3] && s1[2..] == [3] && s1[3..] == [];
    var s2: seq<int> := [9, 8, 7];
    assert s2[1..] == [8, 7] && s2[2..] == [7] && s2[3..] == [];
  }

  lemma ProductExample(s: seq<int>)
    requires |s| == 2
    ensures Product(s) == s[0] * s[1] && Product(s[1..]) == s[1]
  {
    assert s[1..][1..] == [];
    assert Product(s[1..][1..]) == 1;
  }

  lemma ReorderAndOffsetExamples()
    ensures Reordered([2, 4, 6], [2, 0, 1]) == [6, 2, 4]
    ensures Offset([1, 5, 1], [3, 2, 3]) == 16
  {
    var idx: seq<int> := [1, 5, 1];
    var st: seq<int> := [3, 2, 3];
    assert idx[..2] == [1, 5] && st[..2] == [3, 2];
    assert idx[..2][..1] == [1] && st[..2][..1] == [3];
    assert idx[..2][..1][..0] == [] && st[..2][..1][..0] == [];
    assert Offset([1], [3]) == 3;
    assert Offset([1, 5], [3, 2]) == 13;
  }

  /** The strides and size of an `[H, W, C]` image. */
  lemma ImageStrides(h: int, w: int, c: int)
    ensures Strides([h, w, c]) == [w * c, c, 1]
    ensures Product([h, w, c]) == h * (w * c)
  {
    var s: seq<int> := [h, w, c];
    assert s[1..] == [w, c] && s[2..] == [c] && s[3..] == [];
    assert [w, c][1..] == [c] && [c][1..] == [];
    assert Product([c]) == c;
    assert Product([w, c]) == w * c;
  }

  /** Offset of a two-axis index. */
  lemma Offset2(i: int, j: int, si: int, sj: int)
    ensures Offset([i, j], [si, sj]) == i * si + j * sj
  {
    assert [i][..0] == [] && [si][..0] == [];
    assert Offset([i], [si]) == i * si;
    assert [i, j][..1] == [i] && [si, sj][..1] == [si];
  }

  /** Product and strides of a two-axis shape. */
  lemma Shape2(p: nat, q: nat)
    ensures Product([p, q]) == p * q && Strides([p, q]) == [q, 1]
  {
    ProductExample([p, q]);
    var s: seq<int> := [p, q];
    assert s[1..] == [q] && s[2..] == [];
  }

  /** The offset of a three-axis index, written out. */
  lemma Offset3(i: int, j: int, k: int, a: int, b: int, c: int)
    ensures Offset([i, j, k], [a, b, c]) == i * a + j * b + k * c
  {
    assert [i, j, k][..2] == [i, j] && [a, b, c][..2] == [a, b];
    assert [i, j][..1] == [i] && [a, b][..1] == [a];
    assert [i][..0] == [] && [a][..0] == [];
    assert Offset([i], [a]) == i * a;
    assert Offset([i, j], [a, b]) == i * a + j * b;
  }

  /** Position i*6 + j*3 + k of the enumeration of shape [3, 2, 3] is [i, j, k]. */
  lemma IndexesOf323(sh: seq<nat>, i: nat, j: nat, k: nat)
    requires sh == [3, 2, 3] && i < 3 && j < 2 && k < 3
    ensures i * 6 + j * 3 + k < |Indexes(sh)|
    ensures Indexes(sh)[i * 6 + j * 3 + k] == [i, j, k]
  {
    assert sh[1..] == [2, 3] && sh[2..] == [3] && sh[3..] == [];
    assert [2, 3][1..] == [3] && [3][1..] == [];
    assert Product([3]) == 3 && Product([2, 3]) == 6;
    assert Strides(sh) == [6, 3, 1];
    Offset3(i, j, k, 6, 3, 1);
    IndexesComplete(sh, [i, j, k]);
  }

  lemma IndexesExample(sh: seq<nat>)
    requires sh == [3, 2, 3]
    ensures |Indexes(sh)| == 18
    ensures Indexes(sh)[0] == [0, 0, 0] && Indexes(sh)[5] == [0, 1, 2]
    ensures Indexes(sh)[13] == [2, 0, 1] && Indexes(sh)[17] == [2, 1, 2]
  {
    IndexesCount(sh);
    assert sh[1..] == [2, 3] && sh[2..] == [3] && sh[3..] == [];
    assert [2, 3][1..] == [3] && [3][1..] == [];
    assert Product([3]) == 3 && Product([2, 3]) == 6 && Product(sh) == 18;
    IndexesOf323(sh, 0, 0, 0);
    IndexesOf323(sh, 0, 1, 2);
    IndexesOf323(sh, 2, 0, 1);
    IndexesOf323(sh, 2, 1, 2);
  }
}
