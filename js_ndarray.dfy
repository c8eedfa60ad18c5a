/** The zero-copy view `NdArray` of `packages/ndarray-js/src/ndarray.ts`:
    a flat buffer read through a shape and a stride list. The constructor
    fills or adopts a buffer; `slice`, `permute` and `T` build new views on
    the same buffer; `value` and `toArray` read a view in row-major order. */
module JsNdArray {
  import opened Wrappers
  import opened IndexMath
  import opened JsDType
  import opened JsLib

  /** A view: the buffer it reads, its dtype, shape and strides, and whether
      it was built by `permute` or `T` (`discontinuous`). The buffer is held
      by value: two views made from one another share its contents. */
  datatype NdArray = NdArray(buffer: seq<real>, dtype: DType, shape: seq<int>,
                             strides: seq<int>, discontinuous: bool)

  /** The optional second argument of the constructor. */
  datatype Options = Options(dtype: Option<DType>, shape: Option<seq<int>>,
                             strides: Option<seq<int>>, discontinuous: Option<bool>)

  const NoOptions := Options(None, None, None, None)

  /** The first argument of the constructor: a (nested) JavaScript array, or
      a typed array of some class. */
  datatype Input = Nested(items: seq<Value>) | Typed(kind: ArrayKind, data: seq<real>)

  /** `reduce` without a seed on an empty shape. */
  const EmptyReduce := "Reduce of empty array with no initial value"
  /** `new SharedArrayBuffer` with a negative size. */
  const InvalidLength := "Invalid array buffer length"

  function OrElse<T>(o: Option<T>, default: T): T
  {
    if o.Some? then o.value else default
  }

  /** One stride per axis: every view the model reads. */
  predicate WellFormed(a: NdArray)
  {
    |a.strides| == |a.shape|
  }

  /** A view that reads its whole buffer once, in order: canonical strides
      and as many cells as the shape holds. */
  predicate Contiguous(a: NdArray)
  {
    |a.shape| > 0 && NonNeg(a.shape) && a.strides == Strides(a.shape)
    && Product(a.shape) == |a.buffer|
  }

  /* ---------------------------------------------------------------------- */
  /* constructor                                                              */

  /** A fresh typed array of `n` zeros after writing `flat[i]` into cell `i`
      for every `i` of `flat`; writes past the end are dropped. */
  function Fill(flat: seq<real>, n: nat): (r: seq<real>)
    ensures |r| == n
  {
    seq(n, i requires 0 <= i < n => if i < |flat| then flat[i] else 0.0)
  }

  /** The constructor. A nested array gets the shape `getArrayShape` reads
      (or the given one), `float32` unless told otherwise, and a fresh
      buffer of `product(shape)` cells holding its leaves; a typed array is
      adopted as the buffer, with shape `[length]` and the dtype of its
      class unless given. Strides default to the row-major ones. */
  function NewSpec(input: Input, opts: Options): Result<NdArray>
  {
    match input
    case Nested(items) =>
      var shape := OrElse(opts.shape, ArrayShape(List(items)));
      if |shape| == 0 then Failure(EmptyReduce)
      else if Product(shape) < 0 then Failure(InvalidLength)
      else Success(NdArray(Fill(FlatEach(items), Product(shape)), OrElse(opts.dtype, Float32), shape,
                           OrElse(opts.strides, Strides(shape)), OrElse(opts.discontinuous, false)))
    case Typed(kind, data) =>
      var shape := OrElse(opts.shape, [|data|]);
      if opts.dtype.None? && kind == Other then Failure(UnknownArrayType)
      else Success(NdArray(data, if opts.dtype.Some? then opts.dtype.value else GetDType(kind).value, shape,
                           OrElse(opts.strides, Strides(shape)), OrElse(opts.discontinuous, false)))
  }

  /** `new NdArray(array, options)`: the nested branch allocates a zeroed
      buffer and copies the flattened leaves into it one by one. */
  method New(input: Input, opts: Options) returns (r: Result<NdArray>)
    ensures r == NewSpec(input, opts)
  {
    match input
    case Nested(items) =>
      var shape := OrElse(opts.shape, ArrayShape(List(items)));
      if |shape| == 0 {
        return Failure(EmptyReduce);
      }
      var size := Product(shape);
      if size < 0 {
        return Failure(InvalidLength);
      }
      var flat := FlatEach(items);
      var buf := new real[size](_ => 0.0);
      for i := 0 to |flat|
        invariant buf[..] == Fill(flat[..i], size)
      {
        if i < buf.Length {
          buf[i] := flat[i];
        }
      }
      assert flat[..|flat|] == flat;
      r := Success(NdArray(buf[..], OrElse(opts.dtype, Float32), shape,
                           OrElse(opts.strides, Strides(shape)), OrElse(opts.discontinuous, false)));
    case Typed(kind, data) =>
      r := NewSpec(input, opts);
  }

  /** A regular nested array fills its buffer exactly: the buffer is the
      leaves in row-major order and the view is contiguous. */
  lemma NewNested(items: seq<Value>, shape: seq<nat>)
    requires Conforms(List(items), shape) && Reachable(shape) && |shape| > 0
    ensures NewSpec(Nested(items), NoOptions).Success?
    ensures NewSpec(Nested(items), NoOptions).value.buffer == FlatEach(items)
    ensures NewSpec(Nested(items), NoOptions).value.shape == shape
    ensures Contiguous(NewSpec(Nested(items), NoOptions).value)
  {
    ArrayShapeOfRegular(List(items), shape);
    FlatLength(List(items), shape);
    ProductNonNeg(shape);
    var flat := FlatEach(items);
    assert Fill(flat, |flat|) == flat;
    NonNegNat(shape);
  }

  lemma NonNegNat(shape: seq<nat>)
    ensures NonNeg(shape)
  {
  }

  /** A typed array is adopted as it is; its dtype comes from its class. */
  lemma NewTyped(kind: ArrayKind, data: seq<real>)
    requires kind != Other
    ensures NewSpec(Typed(kind, data), NoOptions).Success?
    ensures NewSpec(Typed(kind, data), NoOptions).value
         == NdArray(data, GetDType(kind).value, [|data|], [1], false)
  {
    assert [|data|][1..] == [];
  }

  /** What assigning a value to a typed-array cell stores: a number as it
      is; an array goes through its string form, so `[]` stores 0, `[x]`
      stores what `x` stores, and a longer array stores `NaN` (`None`). */
  function ToNumber(v: Value): (r: Option<real>)
    ensures v.Num? ==> r == Some(v.x)
  {
    match v
    case Num(x) => Some(x)
    case List(items) =>
      if |items| == 0 then Some(0.0) else if |items| == 1 then ToNumber(items[0]) else None
  }

  /** The cells the constructor as written stores for a nested array: the
      one-level `flatten` of the input, converted cell by cell, in a buffer of
      `n` zeros. */
  function StoredCells(items: seq<Value>, n: nat): (r: seq<Option<real>>)
    ensures |r| == n
  {
    var flat := FlattenOnce(items);
    seq(n, i requires 0 <= i < n => if i < |flat| then ToNumber(flat[i]) else Some(0.0))
  }

  /** On one- and two-level arrays the one-level flatten stores exactly the
      leaves the corrected constructor stores. */
  lemma StoredCellsShallow(items: seq<Value>, shape: seq<nat>)
    requires Conforms(List(items), shape) && Reachable(shape) && 0 < |shape| <= 2
    ensures NewSpec(Nested(items), NoOptions).Success?
    ensures |NewSpec(Nested(items), NoOptions).value.buffer| == Product(shape)
    ensures forall i :: 0 <= i < Product(shape) ==>
      StoredCells(items, Product(shape))[i] == Some(NewSpec(Nested(items), NoOptions).value.buffer[i])
  {
    NewNested(items, shape);
    FlatLength(List(items), shape);
    FlattenOnceShallow(items, shape[1..]);
  }

  /** The package test's rank-3 input `[[[1, 2, 3], [2, 3, 4]], [[1, 2, 3], [2, 3, 4]]]`
      has the shape `[2, 2, 3]`, but the one-level flatten yields four rows of
      three: the first four cells store `NaN` and the other eight stay 0,
      where the corrected constructor stores the twelve leaves. */
  lemma StoredCellsRank3(items: seq<Value>)
    requires items == [Rows23(), Rows23()]
    ensures ArrayShape(List(items)) == [2, 2, 3]
    ensures StoredCells(items, 12) == [None, None, None, None] + seq(8, _ => Some(0.0))
    ensures NewSpec(Nested(items), NoOptions).Success?
    ensures NewSpec(Nested(items), NoOptions).value.buffer
         == [1.0, 2.0, 3.0, 2.0, 3.0, 4.0, 1.0, 2.0, 3.0, 2.0, 3.0, 4.0]
  {
    FlattenRank3(items);
    var c := StoredCells(items, 12);
    forall i | 0 <= i < 12 ensures c[i] == ([None, None, None, None] + seq(8, _ => Some(0.0)))[i] {
    }
    NewRank3(items);
  }

  lemma NewRank3(items: seq<Value>)
    requires items == [Rows23(), Rows23()]
    ensures ArrayShape(List(items)) == [2, 2, 3]
    ensures NewSpec(Nested(items), NoOptions).Success?
    ensures NewSpec(Nested(items), NoOptions).value.buffer
         == [1.0, 2.0, 3.0, 2.0, 3.0, 4.0, 1.0, 2.0, 3.0, 2.0, 3.0, 4.0]
  {
    var shape: seq<nat> := [2, 2, 3];
    Rank3Conforms(items, shape);
    NewNested(items, shape);
    ArrayShapeOfRegular(List(items), shape);
    Rank3Leaves(items);
  }

  lemma Rank3Conforms(items: seq<Value>, shape: seq<nat>)
    requires items == [Rows23(), Rows23()] && shape == [2, 2, 3]
    ensures Conforms(List(items), shape) && Reachable(shape)
  {
    Rows23Conforms();
    assert shape[1..] == [2, 3];
  }

  lemma Rank3Leaves(items: seq<Value>)
    requires items == [Rows23(), Rows23()]
    ensures FlatEach(items) == [1.0, 2.0, 3.0, 2.0, 3.0, 4.0, 1.0, 2.0, 3.0, 2.0, 3.0, 4.0]
  {
    Rows23Leaves();
    assert items[1..][1..] == [];
    assert FlatEach(items) == Flat(Rows23()) + Flat(Rows23());
  }

  lemma FlattenRank3(items: seq<Value>)
    requires items == [Rows23(), Rows23()]
    ensures |FlattenOnce(items)| == 4
    ensures forall i :: 0 <= i < 4 ==> ToNumber(FlattenOnce(items)[i]) == None
  {
    var row := Rows23();
    var r1, r2 := row.items[0], row.items[1];
    assert FlattenOnce([]) == [];
    assert items[1..] == [row] && [row][1..] == [];
    assert FlattenOnce(items) == [r1, r2, r1, r2];
    assert ToNumber(r1) == None && ToNumber(r2) == None;
  }

  /** `[[1, 2, 3], [2, 3, 4]]`. */
  function Rows23(): Value
  {
    List([List([Num(1.0), Num(2.0), Num(3.0)]), List([Num(2.0), Num(3.0), Num(4.0)])])
  }

  lemma Rows23Conforms()
    ensures Conforms(Rows23(), [2, 3])
  {
    var sh: seq<nat> := [2, 3];
    assert sh[1..] == [3] && sh[1..][1..] == [];
    assert Conforms(Rows23().items[0], [3]) && Conforms(Rows23().items[1], [3]);
  }

  lemma Rows23Leaves()
    ensures Flat(Rows23()) == [1.0, 2.0, 3.0, 2.0, 3.0, 4.0]
  {
    var r1, r2 := Rows23().items[0], Rows23().items[1];
    NumRow(r1.items);
    NumRow(r2.items);
    assert Rows23().items[1..] == [r2] && [r2][1..] == [];
  }

  /* ---------------------------------------------------------------------- */
  /* reading a view: value and toArray                                        */

  /** A read of the buffer; a read past either end (`undefined` in the
      source) is 0 here. */
  function At(buf: seq<real>, k: int): real
  {
    if 0 <= k < |buf| then buf[k] else 0.0
  }

  /** The number of iterations of `for (i = 0; i < n; ++i)`. */
  function Len(n: int): nat
  {
    if n > 0 then n else 0
  }

  /** The cells the recursive walk of `value` visits from `offset`, on the
      axes `shape` with strides `strides`, in the order it visits them. */
  function Walk(buf: seq<real>, shape: seq<int>, strides: seq<int>, offset: int): seq<real>
    requires |strides| == |shape|
    decreases |shape|, 1, 0
  {
    if |shape| == 0 then []
    else if |shape| == 1 then seq(Len(shape[0]), i requires 0 <= i < Len(shape[0]) => At(buf, offset + i * strides[0]))
    else WalkRows(buf, shape, strides, offset, Len(shape[0]))
  }

  /** The cells of the first `n` sub-blocks along the first axis. */
  function WalkRows(buf: seq<real>, shape: seq<int>, strides: seq<int>, offset: int, n: nat): seq<real>
    requires |strides| == |shape| > 1
    decreases |shape|, 0, n
  {
    if n == 0 then []
    else WalkRows(buf, shape, strides, offset, n - 1) + Walk(buf, shape[1..], strides[1..], offset + (n - 1) * strides[0])
  }

  /** `value`: a fresh buffer as long as the view's buffer, holding the
      visited cells from position 0 on. */
  function ValueOf(a: NdArray): (r: seq<real>)
    requires WellFormed(a)
    ensures |r| == |a.buffer|
  {
    Fill(Walk(a.buffer, a.shape, a.strides, 0), |a.buffer|)
  }

  /** `toArray`: the nested array of the visited cells. */
  function ToArrayFrom(buf: seq<real>, shape: seq<int>, strides: seq<int>, offset: int): Value
    requires |strides| == |shape|
    decreases |shape|
  {
    if |shape| == 0 then List([])
    else List(seq(Len(shape[0]), i requires 0 <= i < Len(shape[0]) =>
                    if |shape| == 1 then Num(At(buf, offset + i * strides[0]))
                    else ToArrayFrom(buf, shape[1..], strides[1..], offset + i * strides[0])))
  }

  function ToArray(a: NdArray): Value
    requires WellFormed(a)
  {
    ToArrayFrom(a.buffer, a.shape, a.strides, 0)
  }

  /** `s` with `w` written from position `at` on; writes past the end are
      dropped, as in a typed array. */
  function Write(s: seq<real>, at: nat, w: seq<real>): (r: seq<real>)
    ensures |r| == |s|
  {
    seq(|s|, k requires 0 <= k < |s| => if at <= k < at + |w| then w[k - at] else s[k])
  }

  lemma WriteTwice(s: seq<real>, at: nat, w: seq<real>, v: seq<real>)
    ensures Write(Write(s, at, w), at + |w|, v) == Write(s, at, w + v)
  {
  }

  lemma WriteZeros(n: nat, w: seq<real>)
    ensures Write(seq(n, _ => 0.0), 0, w) == Fill(w, n)
  {
  }

  /** The inner `dfs(offset, axis)` of `value`: loops over the axis, writes
      `res[cnt++]` on the last axis and recurses on the others. */
  method Visit(buf: seq<real>, shape: seq<int>, strides: seq<int>, res: array<real>,
               cnt: nat, offset: int, axis: nat) returns (next: nat)
    requires |strides| == |shape| && axis < |shape|
    modifies res
    ensures next == cnt + |Walk(buf, shape[axis..], strides[axis..], offset)|
    ensures res[..] == Write(old(res[..]), cnt, Walk(buf, shape[axis..], strides[axis..], offset))
    decreases |shape| - axis
  {
    ghost var start := res[..];
    var sh, st := shape[axis..], strides[axis..];
    next := cnt;
    if axis == |shape| - 1 {
      ghost var cells := Walk(buf, sh, st, offset);
      for i := 0 to Len(shape[axis])
        invariant next == cnt + i
        invariant res[..] == Write(start, cnt, cells[..i])
      {
        if next < res.Length {
          res[next] := At(buf, offset + i * strides[axis]);
        }
        next := next + 1;
      }
      assert cells[..Len(shape[axis])] == cells;
    } else {
      for i := 0 to Len(shape[axis])
        invariant next == cnt + |WalkRows(buf, sh, st, offset, i)|
        invariant res[..] == Write(start, cnt, WalkRows(buf, sh, st, offset, i))
      {
        assert sh[1..] == shape[axis + 1..] && st[1..] == strides[axis + 1..];
        ghost var before := res[..];
        next := Visit(buf, shape, strides, res, next, offset + i * strides[axis], axis + 1);
        WriteTwice(start, cnt, WalkRows(buf, sh, st, offset, i), Walk(buf, sh[1..], st[1..], offset + i * st[0]));
      }
    }
  }

  /** `value`: a zeroed buffer of the view's length, filled by the walk. */
  method Value(a: NdArray) returns (r: seq<real>)
    requires WellFormed(a)
    ensures r == ValueOf(a)
  {
    var res := new real[|a.buffer|](_ => 0.0);
    WriteZeros(|a.buffer|, Walk(a.buffer, a.shape, a.strides, 0));
    if |a.shape| > 0 {
      assert a.shape[0..] == a.shape && a.strides[0..] == a.strides;
      var _ := Visit(a.buffer, a.shape, a.strides, res, 0, 0, 0);
    }
    r := res[..];
  }

  /* ---------------------------------------------------------------------- */
  /* what the walk reads                                                      */

  /** The walk visits every cell of the shape once. */
  lemma {:induction false} WalkLength(buf: seq<real>, shape: seq<int>, strides: seq<int>, offset: int)
    requires |strides| == |shape| > 0 && NonNeg(shape)
    ensures |Walk(buf, shape, strides, offset)| == Product(shape)
    decreases |shape|, 1
  {
    if |shape| == 1 {
      assert shape[1..] == [];
    } else {
      WalkRowsLength(buf, shape, strides, offset, shape[0]);
    }
  }

  lemma {:induction false} WalkRowsLength(buf: seq<real>, shape: seq<int>, strides: seq<int>, offset: int, n: nat)
    requires |strides| == |shape| > 1 && NonNeg(shape)
    ensures |WalkRows(buf, shape, strides, offset, n)| == n * Product(shape[1..])
    decreases |shape|, 0, n
  {
    if n > 0 {
      WalkRowsLength(buf, shape, strides, offset, n - 1);
      assert NonNeg(shape[1..]) by {
        forall a | 0 <= a < |shape[1..]| ensures shape[1..][a] >= 0 { assert shape[1..][a] == shape[a + 1]; }
      }
      WalkLength(buf, shape[1..], strides[1..], offset + (n - 1) * strides[0]);
      MulSucc(n, Product(shape[1..]));
    }
  }

  /** Block `i` of the first `n` sub-blocks is the walk of sub-block `i`. */
  lemma {:induction false} WalkRowsAt(buf: seq<real>, shape: seq<int>, strides: seq<int>, offset: int,
                                      n: nat, i: nat, j: int)
    requires |strides| == |shape| > 1 && NonNeg(shape)
    requires i < n && 0 <= j < Product(shape[1..])
    ensures |WalkRows(buf, shape, strides, offset, n)| == n * Product(shape[1..])
    ensures i * Product(shape[1..]) + j < n * Product(shape[1..])
    ensures |Walk(buf, shape[1..], strides[1..], offset + i * strides[0])| == Product(shape[1..])
    ensures WalkRows(buf, shape, strides, offset, n)[i * Product(shape[1..]) + j]
         == Walk(buf, shape[1..], strides[1..], offset + i * strides[0])[j]
    decreases n
  {
    var p := Product(shape[1..]);
    WalkRowsLength(buf, shape, strides, offset, n);
    WalkRowsLength(buf, shape, strides, offset, n - 1);
    MulSucc(n, p);
    MulSucc(i + 1, p);
    MulLeq(i + 1, n, p);
    assert NonNeg(shape[1..]) by {
      forall a | 0 <= a < |shape[1..]| ensures shape[1..][a] >= 0 { assert shape[1..][a] == shape[a + 1]; }
    }
    WalkLength(buf, shape[1..], strides[1..], offset + i * strides[0]);
    if i < n - 1 {
      MulLeq(i + 1, n - 1, p);
      WalkRowsAt(buf, shape, strides, offset, n - 1, i, j);
    }
  }

  /** Sub-index `idx[1..]` of an in-bounds index is in bounds of the inner
      axes, and the shape has no negative entry. */
  lemma InBoundsTail(idx: seq<int>, shape: seq<int>)
    requires InBounds(idx, shape) && |shape| > 0
    ensures InBounds(idx[1..], shape[1..]) && NonNeg(shape) && 0 <= idx[0] < shape[0]
  {
    forall a | 0 <= a < |idx| - 1
      ensures 0 <= idx[1..][a] < shape[1..][a]
    {
      assert idx[1..][a] == idx[a + 1] && shape[1..][a] == shape[a + 1];
    }
  }

  /** The walk holds, at the row-major position of an in-bounds index, the
      buffer cell at that index's strided offset. */
  lemma {:induction false} WalkAt(buf: seq<real>, shape: seq<int>, strides: seq<int>, offset: int, idx: seq<int>)
    requires |strides| == |shape| > 0 && InBounds(idx, shape)
    ensures |Walk(buf, shape, strides, offset)| == Product(shape)
    ensures 0 <= Offset(idx, Strides(shape)) < Product(shape)
    ensures Walk(buf, shape, strides, offset)[Offset(idx, Strides(shape))] == At(buf, offset + Offset(idx, strides))
    decreases |shape|
  {
    InBoundsTail(idx, shape);
    WalkLength(buf, shape, strides, offset);
    if |shape| == 1 {
      WalkAtLast(buf, shape, strides, offset, idx);
    } else {
      var sub := offset + idx[0] * strides[0];
      WalkAt(buf, shape[1..], strides[1..], sub, idx[1..]);
      WalkAtInner(buf, shape, strides, offset, idx);
    }
  }

  /** The row-major position and the strided offset, split at the first
      axis. */
  lemma OffsetsCons(idx: seq<int>, shape: seq<int>, strides: seq<int>)
    requires |idx| == |shape| == |strides| > 0
    ensures Offset(idx, Strides(shape)) == idx[0] * Product(shape[1..]) + Offset(idx[1..], Strides(shape[1..]))
    ensures Offset(idx, strides) == idx[0] * strides[0] + Offset(idx[1..], strides[1..])
  {
    OffsetCons(idx, strides);
    OffsetCons(idx, Strides(shape));
    StridesSuffix(shape, 1);
    assert Strides(shape)[0] == Product(shape[1..]);
  }

  lemma WalkAtLast(buf: seq<real>, shape: seq<int>, strides: seq<int>, offset: int, idx: seq<int>)
    requires |strides| == |shape| == 1 && InBounds(idx, shape)
    ensures Offset(idx, Strides(shape)) == idx[0] < Len(shape[0])
    ensures Walk(buf, shape, strides, offset)[idx[0]] == At(buf, offset + Offset(idx, strides))
  {
    OffsetsCons(idx, shape, strides);
    assert idx[1..] == [] && shape[1..] == [];
  }

  lemma WalkAtInner(buf: seq<real>, shape: seq<int>, strides: seq<int>, offset: int, idx: seq<int>)
    requires |strides| == |shape| > 1 && InBounds(idx, shape)
    requires InBounds(idx[1..], shape[1..]) && NonNeg(shape) && 0 <= idx[0] < shape[0]
    requires 0 <= Offset(idx[1..], Strides(shape[1..])) < Product(shape[1..])
    requires |Walk(buf, shape[1..], strides[1..], offset + idx[0] * strides[0])| == Product(shape[1..])
    requires Walk(buf, shape[1..], strides[1..], offset + idx[0] * strides[0])[Offset(idx[1..], Strides(shape[1..]))]
          == At(buf, offset + idx[0] * strides[0] + Offset(idx[1..], strides[1..]))
    ensures 0 <= Offset(idx, Strides(shape)) < |Walk(buf, shape, strides, offset)|
    ensures Walk(buf, shape, strides, offset)[Offset(idx, Strides(shape))] == At(buf, offset + Offset(idx, strides))
  {
    var p, q := Product(shape[1..]), Offset(idx[1..], Strides(shape[1..]));
    OffsetsCons(idx, shape, strides);
    PositionBound(idx[0], shape[0], p, q);
    WalkRowsAt(buf, shape, strides, offset, shape[0], idx[0], q);
  }

  lemma PositionBound(i: int, n: int, p: int, q: int)
    requires 0 <= i < n && 0 <= q < p
    ensures 0 <= i * p + q < n * p
  {
    MulLeq(i + 1, n, p);
    MulSucc(i + 1, p);
  }

  /** `value` visits the logical indices in row-major order and reads
      `buffer[Σ idx[a]·strides[a]]`: the cell of the result at the
      row-major position of `idx` is the buffer cell `idx` addresses. */
  lemma ValueAt(a: NdArray, idx: seq<int>)
    requires WellFormed(a) && |a.shape| > 0 && InBounds(idx, a.shape)
    requires Product(a.shape) <= |a.buffer|
    ensures 0 <= Offset(idx, Strides(a.shape)) < |ValueOf(a)|
    ensures ValueOf(a)[Offset(idx, Strides(a.shape))] == At(a.buffer, Offset(idx, a.strides))
  {
    WalkAt(a.buffer, a.shape, a.strides, 0, idx);
  }

  /** Joining two adjacent slices. */
  lemma SliceJoin(s: seq<real>, i: int, j: int, k: int)
    requires 0 <= i <= j <= k <= |s|
    ensures s[i..j] + s[j..k] == s[i..k]
  {
  }

  /** On row-major strides the walk reads a block of the buffer in order:
      position `n` is the row-major position of the `n`-th index. */
  lemma WalkContiguous(buf: seq<real>, shape: seq<int>, offset: int)
    requires |shape| > 0 && NonNeg(shape)
    requires 0 <= offset <= offset + Product(shape) <= |buf|
    ensures Walk(buf, shape, Strides(shape), offset) == buf[offset..offset + Product(shape)]
  {
    var ns: seq<nat> := seq(|shape|, i requires 0 <= i < |shape| => shape[i] as nat);
    assert ns == shape;
    WalkLength(buf, shape, Strides(shape), offset);
    IndexesCount(ns);
    forall n | 0 <= n < Product(shape)
      ensures Walk(buf, shape, Strides(shape), offset)[n] == buf[offset + n]
    {
      IndexesOffset(ns, n);
      WalkAt(buf, shape, Strides(shape), offset, Indexes(ns)[n]);
    }
  }

  lemma InnerNonNeg(shape: seq<int>)
    requires |shape| > 0 && NonNeg(shape)
    ensures NonNeg(shape[1..])
  {
    forall a | 0 <= a < |shape[1..]| ensures shape[1..][a] >= 0 { assert shape[1..][a] == shape[a + 1]; }
  }

  /** `value` of a contiguous view is its buffer. */
  lemma ValueOfContiguous(a: NdArray)
    requires Contiguous(a)
    ensures WellFormed(a) && ValueOf(a) == a.buffer
  {
    WalkContiguous(a.buffer, a.shape, 0);
    assert a.buffer[0..|a.buffer|] == a.buffer;
  }

  /* ---------------------------------------------------------------------- */
  /* toArray against value and the constructor                               */

  lemma FlatEachSnoc(items: seq<Value>, v: Value)
    ensures FlatEach(items + [v]) == FlatEach(items) + Flat(v)
    decreases |items|
  {
    if |items| == 0 {
      assert [] + [v] == [v];
      assert [v][1..] == [];
    } else {
      assert (items + [v])[1..] == items[1..] + [v];
      FlatEachSnoc(items[1..], v);
    }
  }

  lemma {:induction false} FlatEachNums(s: seq<real>)
    ensures FlatEach(Nums(s)) == s
    decreases |s|
  {
    if |s| > 0 {
      assert Nums(s)[1..] == Nums(s[1..]);
      FlatEachNums(s[1..]);
      assert Flat(Nums(s)[0]) == [s[0]];
    }
  }

  /** The leaves of `toArray` are what `value` visits, in the same order. */
  lemma {:induction false} FlatToArray(buf: seq<real>, shape: seq<int>, strides: seq<int>, offset: int)
    requires |strides| == |shape| > 0
    ensures Flat(ToArrayFrom(buf, shape, strides, offset)) == Walk(buf, shape, strides, offset)
    decreases |shape|, 1
  {
    var t := ToArrayFrom(buf, shape, strides, offset);
    if |shape| == 1 {
      assert t.items == Nums(Walk(buf, shape, strides, offset));
      FlatEachNums(Walk(buf, shape, strides, offset));
    } else {
      FlatRows(buf, shape, strides, offset, Len(shape[0]));
      assert t.items[..Len(shape[0])] == t.items;
    }
  }

  lemma {:induction false} FlatRows(buf: seq<real>, shape: seq<int>, strides: seq<int>, offset: int, n: nat)
    requires |strides| == |shape| > 1 && n <= Len(shape[0])
    ensures FlatEach(ToArrayFrom(buf, shape, strides, offset).items[..n]) == WalkRows(buf, shape, strides, offset, n)
    decreases |shape|, 0, n
  {
    var items := ToArrayFrom(buf, shape, strides, offset).items;
    if n > 0 {
      FlatRows(buf, shape, strides, offset, n - 1);
      assert items[..n] == items[..n - 1] + [items[n - 1]];
      FlatEachSnoc(items[..n - 1], items[n - 1]);
      FlatToArray(buf, shape[1..], strides[1..], offset + (n - 1) * strides[0]);
    } else {
      assert items[..0] == [];
    }
  }

  /** `value` is the flattened `toArray`, placed in a buffer of the view's
      length. */
  lemma ValueIsFlatToArray(a: NdArray)
    requires WellFormed(a) && |a.shape| > 0
    ensures ValueOf(a) == Fill(Flat(ToArray(a)), |a.buffer|)
  {
    FlatToArray(a.buffer, a.shape, a.strides, 0);
  }

  /** Block `i` of the leaves of equally shaped siblings is the leaves of
      sibling `i`. */
  lemma {:induction false} FlatEachBlock(items: seq<Value>, inner: seq<nat>, p: int, i: nat)
    requires p == Product(inner)
    requires i < |items| && forall k :: 0 <= k < |items| ==> Conforms(items[k], inner)
    ensures 0 <= i * p <= (i + 1) * p <= |FlatEach(items)|
    ensures FlatEach(items)[i * p..(i + 1) * p] == Flat(items[i])
    decreases i
  {
    FlatEachLength(items, inner);
    FlatLength(items[0], inner);
    ProductNonNeg(inner);
    MulLeq(i + 1, |items|, p);
    MulSucc(i + 1, p);
    if i > 0 {
      FlatEachLength(items[1..], inner);
      FlatEachBlock(items[1..], inner, p, i - 1);
      MulSucc(i, p);
      ShiftBlock(Flat(items[0]), FlatEach(items[1..]), (i - 1) * p);
    }
  }

  /** A block past a prefix of length `p` is the block one earlier in the
      rest. */
  lemma ShiftBlock(x: seq<real>, y: seq<real>, a: int)
    requires 0 <= a && a + |x| <= |y|
    ensures (x + y)[a + |x|..a + 2 * |x|] == y[a..a + |x|]
  {
  }

  lemma SliceOfSlice(buf: seq<real>, lo: int, hi: int, a: int, b: int)
    requires 0 <= lo <= hi <= |buf| && 0 <= a <= b <= hi - lo
    ensures buf[lo..hi][a..b] == buf[lo + a..lo + b]
  {
    assert forall k :: 0 <= k < b - a ==> buf[lo..hi][a..b][k] == buf[lo + a + k];
  }

  /** Reading a buffer that holds the leaves of a regular nested array back
      with `toArray` rebuilds that array. */
  lemma {:induction false} ToArrayOfFlat(items: seq<Value>, shape: seq<nat>, buf: seq<real>, offset: int)
    requires |shape| > 0 && Conforms(List(items), shape)
    requires 0 <= offset <= offset + Product(shape) <= |buf|
    requires buf[offset..offset + Product(shape)] == FlatEach(items)
    ensures ToArrayFrom(buf, shape, Strides(shape), offset) == List(items)
    decreases |shape|, 1
  {
    var t := ToArrayFrom(buf, shape, Strides(shape), offset);
    assert |t.items| == |items|;
    forall i | 0 <= i < |items|
      ensures t.items[i] == items[i]
    {
      ToArrayOfFlatAt(items, shape, buf, offset, i);
    }
    assert t.items == items;
  }

  lemma {:induction false} ToArrayOfFlatAt(items: seq<Value>, shape: seq<nat>, buf: seq<real>, offset: int, i: nat)
    requires |shape| > 0 && Conforms(List(items), shape) && i < |items|
    requires 0 <= offset <= offset + Product(shape) <= |buf|
    requires buf[offset..offset + Product(shape)] == FlatEach(items)
    ensures |ToArrayFrom(buf, shape, Strides(shape), offset).items| == |items|
    ensures ToArrayFrom(buf, shape, Strides(shape), offset).items[i] == items[i]
    decreases |shape|, 0
  {
    if |shape| == 1 {
      LeafOfFlat(items, shape, buf, offset, i);
    } else {
      var p := Product(shape[1..]);
      FlatEachBlock(items, shape[1..], p, i);
      FlatSubList(items[i], shape[1..]);
      SliceOfSlice(buf, offset, offset + Product(shape), i * p, (i + 1) * p);
      ToArrayOfFlat(items[i].items, shape[1..], buf, offset + i * p);
      ChildOfFlat(items, shape, buf, offset, i, p);
    }
  }

  lemma LeafOfFlat(items: seq<Value>, shape: seq<nat>, buf: seq<real>, offset: int, i: nat)
    requires |shape| == 1 && Conforms(List(items), shape) && i < |items|
    requires 0 <= offset <= offset + Product(shape) <= |buf|
    requires buf[offset..offset + Product(shape)] == FlatEach(items)
    ensures |ToArrayFrom(buf, shape, Strides(shape), offset).items| == |items|
    ensures ToArrayFrom(buf, shape, Strides(shape), offset).items[i] == items[i]
  {
    assert shape[1..] == [];
    assert Strides(shape)[0] == 1;
    NumRow(items);
    SliceOfSlice(buf, offset, offset + Product(shape), i, i + 1);
  }

  lemma ChildOfFlat(items: seq<Value>, shape: seq<nat>, buf: seq<real>, offset: int, i: nat, p: int)
    requires |shape| > 1 && Conforms(List(items), shape) && i < |items| && p == Product(shape[1..])
    requires ToArrayFrom(buf, shape[1..], Strides(shape[1..]), offset + i * p) == items[i]
    ensures |ToArrayFrom(buf, shape, Strides(shape), offset).items| == |items|
    ensures ToArrayFrom(buf, shape, Strides(shape), offset).items[i] == items[i]
  {
    StridesSuffix(shape, 1);
    assert Strides(shape)[0] == p;
  }

  lemma FlatSubList(v: Value, shape: seq<nat>)
    requires |shape| > 0 && Conforms(v, shape)
    ensures v == List(v.items) && Flat(v) == FlatEach(v.items)
  {
  }

  /** The constructor and `toArray` are inverse on regular nested arrays:
      `new NdArray(x).toArray()` is `x`. */
  lemma NewThenToArray(items: seq<Value>, shape: seq<nat>)
    requires Conforms(List(items), shape) && Reachable(shape) && |shape| > 0
    ensures NewSpec(Nested(items), NoOptions).Success?
    ensures WellFormed(NewSpec(Nested(items), NoOptions).value)
    ensures ToArray(NewSpec(Nested(items), NoOptions).value) == List(items)
  {
    NewNested(items, shape);
    var a := NewSpec(Nested(items), NoOptions).value;
    assert a.buffer[0..Product(shape)] == a.buffer;
    ToArrayOfFlat(items, shape, a.buffer, 0);
  }

  /* ---------------------------------------------------------------------- */
  /* slice                                                                    */

  /** A typed-array position argument: a negative one counts from the end,
      and the result is clamped to `0..len`. */
  function Clamp(x: int, len: nat): (r: nat)
    ensures r <= len
    ensures 0 <= x <= len ==> r == x
  {
    if x < 0 then (if len + x < 0 then 0 else len + x) else if x > len then len else x
  }

  /** `subarray(begin, end)`: the cells between the clamped positions, none
      when they cross; `None` is `NaN`, which counts as 0. */
  function Subarray(buf: seq<real>, begin: Option<int>, end: Option<int>): (r: seq<real>)
  {
    var b, e := Clamp(OrElse(begin, 0), |buf|), Clamp(OrElse(end, 0), |buf|);
    if e <= b then [] else buf[b..e]
  }

  /** The start of the block `slice(...indices)` addresses: `Σ indices[i]·strides[i]`;
      `None` (`NaN`) once an index has no stride to multiply. */
  function SliceOffset(strides: seq<int>, indices: seq<int>): Option<int>
  {
    if |indices| <= |strides| then Some(Offset(indices, strides[..|indices|])) else None
  }

  /** `slice(...indices)`: the view of the block below the given leading
      indices, as a fresh contiguous view of `product(rest of shape)` cells
      from the block's start. */
  function SliceSpec(a: NdArray, indices: seq<int>): NdArray
  {
    var shape := if |indices| <= |a.shape| then a.shape[|indices|..] else [];
    var o := SliceOffset(a.strides, indices);
    var end := if o.Some? then Some(o.value + Product(shape)) else None;
    NdArray(Subarray(a.buffer, o, end), a.dtype, shape, Strides(shape), false)
  }

  /** `slice`: accumulates the offset index by index, then takes the
      subarray. */
  method Slice(a: NdArray, indices: seq<int>) returns (r: NdArray)
    ensures r == SliceSpec(a, indices)
  {
    var shape := if |indices| <= |a.shape| then a.shape[|indices|..] else [];
    var length := Product(shape);
    var stride: Option<int> := Some(0);
    for i := 0 to |indices|
      invariant stride == (if i <= |a.strides| then Some(Offset(indices[..i], a.strides[..i])) else None)
    {
      if stride.Some? && i < |a.strides| {
        assert indices[..i + 1][..i] == indices[..i] && a.strides[..i + 1][..i] == a.strides[..i];
        stride := Some(stride.value + indices[i] * a.strides[i]);
      } else {
        stride := None;
      }
    }
    assert indices[..|indices|] == indices;
    var end := if stride.Some? then Some(stride.value + length) else None;
    r := NdArray(Subarray(a.buffer, stride, end), a.dtype, shape, Strides(shape), false);
  }

  /** Slicing a contiguous view with in-bounds leading indices yields the
      block `buffer[o..o + product(rest)]` at `o = Σ idx[i]·strides[i]`, read
      as a contiguous view of the remaining axes; with an index for every
      axis the block is the one addressed cell. */
  lemma SliceOfContiguous(a: NdArray, idx: seq<int>) returns (o: int, p: int)
    requires Contiguous(a) && |idx| <= |a.shape|
    requires forall i :: 0 <= i < |idx| ==> 0 <= idx[i] < a.shape[i]
    ensures o == Offset(idx, a.strides[..|idx|]) && p == Product(a.shape[|idx|..])
    ensures 0 <= o && 0 <= p && o + p <= |a.buffer|
    ensures SliceSpec(a, idx).buffer == a.buffer[o..o + p]
    ensures SliceSpec(a, idx).shape == a.shape[|idx|..]
    ensures |idx| < |a.shape| ==> Contiguous(SliceSpec(a, idx))
  {
    o, p := Offset(idx, a.strides[..|idx|]), Product(a.shape[|idx|..]);
    ContiguousBlockBound(a, idx);
    SliceBuffer(a, idx, o, p);
    if |idx| < |a.shape| {
      SliceRest(a, idx, p);
    }
  }

  /** The view a slice leaves over the remaining axes of a view without
      negative sizes is contiguous once its buffer has the block's length. */
  lemma SliceRest(a: NdArray, idx: seq<int>, p: int)
    requires NonNeg(a.shape) && |idx| < |a.shape| && p == Product(a.shape[|idx|..])
    requires |SliceSpec(a, idx).buffer| == p
    ensures SliceSpec(a, idx).shape == a.shape[|idx|..]
    ensures Contiguous(SliceSpec(a, idx))
  {
    assert NonNeg(a.shape[|idx|..]);
  }

  /** `slice` with an index for every axis holds the one cell that index
      addresses, as `get` would read it. */
  lemma SliceGet(a: NdArray, idx: seq<int>)
    requires Contiguous(a) && InBounds(idx, a.shape)
    ensures 0 <= Offset(idx, a.strides) < |a.buffer|
    ensures SliceSpec(a, idx).buffer == [a.buffer[Offset(idx, a.strides)]]
  {
    var o, p := SliceOfContiguous(a, idx);
    assert a.strides[..|idx|] == a.strides && a.shape[|idx|..] == [];
  }

  /** The block below in-bounds leading indices of a contiguous view lies
      inside its buffer. */
  lemma ContiguousBlockBound(a: NdArray, idx: seq<int>)
    requires Contiguous(a) && |idx| <= |a.shape|
    requires forall i :: 0 <= i < |idx| ==> 0 <= idx[i] < a.shape[i]
    ensures 0 <= Product(a.shape[|idx|..])
    ensures 0 <= Offset(idx, a.strides[..|idx|])
    ensures Offset(idx, a.strides[..|idx|]) + Product(a.shape[|idx|..]) <= |a.buffer|
  {
    var ns: seq<nat> := seq(|a.shape|, i requires 0 <= i < |a.shape| => a.shape[i] as nat);
    assert ns == a.shape;
    PrefixOffsetBound(ns, idx);
    ProductNonNeg(ns[|idx|..]);
  }

  /** A slice whose block lies inside the buffer holds that block. */
  lemma SliceBuffer(a: NdArray, idx: seq<int>, o: int, p: int)
    requires |idx| <= |a.shape| && |idx| <= |a.strides|
    requires o == Offset(idx, a.strides[..|idx|]) && p == Product(a.shape[|idx|..])
    requires 0 <= o && 0 <= p && o + p <= |a.buffer|
    ensures SliceSpec(a, idx).buffer == a.buffer[o..o + p] && |SliceSpec(a, idx).buffer| == p
  {
    SubarrayInside(a.buffer, o, p);
  }

  /** In-range positions take exactly the cells between them. */
  lemma SubarrayInside(buf: seq<real>, o: int, p: int)
    requires 0 <= o && 0 <= p && o + p <= |buf|
    ensures Subarray(buf, Some(o), Some(o + p)) == buf[o..o + p]
  {
  }

  /** More indices than axes leave nothing to multiply: the offset is `NaN`
      and the slice is empty, of shape `[]`. */
  lemma SliceTooManyIndices(a: NdArray, idx: seq<int>)
    requires WellFormed(a) && |idx| > |a.shape|
    ensures SliceSpec(a, idx).buffer == [] && SliceSpec(a, idx).shape == []
  {
  }

  /** The package test's slices: row 1 of a 3×3 array is its middle row; the shapes
      left by `slice(0)` and `slice(0, 1)` of a `[2, 2, 3]` array. */
  lemma SliceExamples(a: NdArray, c: NdArray)
    requires a.buffer == [1.0, 2.0, 3.0, 2.0, 3.0, 4.0, 6.0, 6.0, 6.0] && a.shape == [3, 3] && a.strides == [3, 1]
    requires c.shape == [2, 2, 3] && c.strides == [6, 3, 1]
    ensures SliceSpec(a, [1]).buffer == [2.0, 3.0, 4.0]
    ensures SliceSpec(c, [0]).shape == [2, 3] && SliceSpec(SliceSpec(c, [0]), [0]).shape == [3]
    ensures SliceSpec(c, [0, 1]).shape == [3]
  {
    var i1: seq<int> := [1];
    assert a.strides[..1] == [3] && i1[..0] == [];
    assert Offset(i1, [3]) == 3;
    assert Product(a.shape[1..]) == 3 by { assert a.shape[1..] == [3]; assert Product([3]) == 3 * Product([]); }
    assert a.shape[1..] == [3];
  }

  /* ---------------------------------------------------------------------- */
  /* permute and T                                                            */

  /** `permute(...axis)`: the same buffer, with axis `i` of the new view
      being axis `axis[i]` of the old one (its size and its stride), marked
      discontinuous. */
  function Permute(a: NdArray, axes: seq<nat>): (r: NdArray)
    requires WellFormed(a) && forall i :: 0 <= i < |axes| ==> axes[i] < |a.shape|
    ensures WellFormed(r) && r.buffer == a.buffer && r.discontinuous
  {
    NdArray(a.buffer, a.dtype, Reordered(a.shape, axes), Reordered(a.strides, axes), true)
  }

  /** `T`: shape and strides reversed, marked discontinuous. */
  function T(a: NdArray): (r: NdArray)
    requires WellFormed(a)
    ensures WellFormed(r) && r.buffer == a.buffer && r.discontinuous && |r.shape| == |a.shape|
    ensures forall i :: 0 <= i < |a.shape| ==> r.shape[i] == a.shape[|a.shape| - 1 - i]
  {
    NdArray(a.buffer, a.dtype, Reordered(a.shape, ReversedAxes(|a.shape|)),
            Reordered(a.strides, ReversedAxes(|a.shape|)), true)
  }

  /** `T` is `permute` by the reversed axes. */
  lemma TIsPermute(a: NdArray)
    requires WellFormed(a)
    ensures T(a) == Permute(a, ReversedAxes(|a.shape|))
  {
  }

  /** A permuted view moves cells without copying: at the row-major position
      of the permuted index `pos` it reads the buffer cell the original index
      addresses through the original strides. */
  lemma PermuteValue(a: NdArray, axes: seq<nat>, idx: seq<int>) returns (pos: int)
    requires WellFormed(a) && |a.shape| > 0 && IsPermutation(axes, |a.shape|)
    requires InBounds(idx, a.shape) && Product(a.shape) <= |a.buffer|
    ensures pos == Offset(Reordered(idx, axes), Strides(Permute(a, axes).shape))
    ensures 0 <= pos < |ValueOf(Permute(a, axes))|
    ensures ValueOf(Permute(a, axes))[pos] == At(a.buffer, Offset(idx, a.strides))
  {
    var r := Permute(a, axes);
    var moved := Reordered(idx, axes);
    pos := Offset(moved, Strides(r.shape));
    assert InBounds(moved, r.shape) by {
      forall i | 0 <= i < |moved| ensures 0 <= moved[i] < r.shape[i] {
        assert moved[i] == idx[axes[i]] && r.shape[i] == a.shape[axes[i]];
      }
    }
    ProductReordered(a.shape, axes);
    ValueAt(r, moved);
    OffsetReordered(idx, a.strides, axes);
  }

  /** On a contiguous view: the permuted view's value holds, at the permuted
      index, the original's element at the original index. */
  lemma PermuteOfContiguous(a: NdArray, axes: seq<nat>, idx: seq<int>) returns (pos: int, src: int)
    requires Contiguous(a) && IsPermutation(axes, |a.shape|) && InBounds(idx, a.shape)
    ensures pos == Offset(Reordered(idx, axes), Strides(Permute(a, axes).shape))
    ensures src == Offset(idx, Strides(a.shape))
    ensures 0 <= pos < |ValueOf(Permute(a, axes))| && 0 <= src < |a.buffer|
    ensures ValueOf(Permute(a, axes))[pos] == a.buffer[src]
  {
    pos := PermuteValue(a, axes, idx);
    src := Offset(idx, Strides(a.shape));
    ValueAt(a, idx);
    ValueOfContiguous(a);
  }

  /** The transpose of a contiguous `p × q` matrix holds element `(i, j)` at
      row-major position `j * p + i` of the `q × p` result. */
  lemma TransposeMatrix(a: NdArray, p: nat, q: nat, i: nat, j: nat)
    requires Contiguous(a) && a.shape == [p, q] && i < p && j < q
    ensures T(a).shape == [q, p] && |ValueOf(T(a))| == |a.buffer| == p * q
    ensures 0 <= j * p + i < p * q && 0 <= i * q + j < p * q
    ensures ValueOf(T(a))[j * p + i] == a.buffer[i * q + j]
  {
    var axes := ReversedAxes(2);
    assert axes == [1, 0];
    ReversedAxesIsPermutation(2);
    TIsPermute(a);
    Shape2(p, q);
    Shape2(q, p);
    var idx: seq<int> := [i, j];
    assert Reordered(idx, axes) == [j, i];
    var pos, src := PermuteOfContiguous(a, axes, idx);
    Offset2(j, i, p, 1);
    Offset2(i, j, q, 1);
  }

  /** The package test's transpose: `[[1, 2, 3], [4, 5, 6]].T` reads
      `[[1, 4], [2, 5], [3, 6]]`. */
  lemma TransposeExample(a: NdArray)
    requires a.buffer == [1.0, 2.0, 3.0, 4.0, 5.0, 6.0] && a.shape == [2, 3] && a.strides == [3, 1]
    ensures T(a).shape == [3, 2] && T(a).strides == [1, 3]
    ensures ToArray(T(a)) == List([List([Num(1.0), Num(4.0)]), List([Num(2.0), Num(5.0)]), List([Num(3.0), Num(6.0)])])
  {
    var t := T(a);
    assert ReversedAxes(2) == [1, 0];
    assert t.shape == [3, 2] && t.strides == [1, 3];
    assert t.shape[1..] == [2] && t.strides[1..] == [3];
    var rows := ToArray(t).items;
    assert |rows| == 3;
    TransposeExampleRow(t.buffer, 0);
    TransposeExampleRow(t.buffer, 1);
    TransposeExampleRow(t.buffer, 2);
    assert rows[0] == ToArrayFrom(t.buffer, [2], [3], 0);
    assert rows[1] == ToArrayFrom(t.buffer, [2], [3], 1);
    assert rows[2] == ToArrayFrom(t.buffer, [2], [3], 2);
    assert rows == [rows[0], rows[1], rows[2]];
    assert ToArray(t) == List(rows);
  }

  lemma TransposeExampleRow(buf: seq<real>, r: nat)
    requires r + 3 < |buf|
    ensures ToArrayFrom(buf, [2], [3], r) == List([Num(buf[r]), Num(buf[r + 3])])
  {
    var cells := ToArrayFrom(buf, [2], [3], r).items;
    assert |cells| == 2 && cells[0] == Num(buf[r]) && cells[1] == Num(buf[r + 3]);
    assert cells == [Num(buf[r]), Num(buf[r + 3])];
  }

  /* ---------------------------------------------------------------------- */
  /* reshape                                                                  */

  const IncompatibleShape := "The new shape is not compatible with the original shape."
  const OneUnknown := "NdArray: can only specify one unknown dimension."
  const BadUnknown := "NdArray: unknown dimension size must be positive or -1."
  /** The message for a length the known sizes do not divide: the length,
      then the requested shape printed as an array. */
  function CannotReshape(length: nat, size: seq<int>): string
  {
    "NdArray: cannot reshape array of size " + Decimal(length) + " into shape [" + Joined(size) + "]"
  }

  /** `size.filter(d => d === -1).length`: the number of unknown sizes. */
  function CountUnknown(size: seq<int>): (r: nat)
    ensures r <= |size|
    ensures r == 0 <==> forall i :: 0 <= i < |size| ==> size[i] != -1
    decreases |size|
  {
    if |size| == 0 then 0
    else CountUnknown(size[..|size| - 1]) + (if size[|size| - 1] == -1 then 1 else 0)
  }

  /** The `knownSize` loop: the product of the positive sizes, failing at the
      first size below -1; zeros and the -1 are skipped. */
  function KnownSize(size: seq<int>): (r: Result<int>)
    ensures r.Success? ==> r.value >= 1
    ensures r.Failure? ==> r.error == BadUnknown
    decreases |size|
  {
    if |size| == 0 then Success(1)
    else
      var last := size[|size| - 1];
      match KnownSize(size[..|size| - 1])
      case Failure(e) => Failure(e)
      case Success(k) => if last > 0 then Success(k * last) else if last < -1 then Failure(BadUnknown) else Success(k)
  }

  /** `size.map(d => d === -1 ? newAxis : d)`. */
  function Substitute(size: seq<int>, x: int): (r: seq<int>)
    ensures |r| == |size|
  {
    seq(|size|, i requires 0 <= i < |size| => if size[i] == -1 then x else size[i])
  }

  /** `this.value` where `reshape` materialises a discontinuous view. */
  function Materialised(a: NdArray): (r: seq<real>)
    requires WellFormed(a)
  {
    if a.discontinuous then ValueOf(a) else a.buffer
  }

  /** `reshape(...size)` as written. Without an unknown size the new view
      keeps the buffer as it is, even on a discontinuous view; with one -1 it
      becomes the length divided by the product of the known sizes, and a
      discontinuous view is first materialised. */
  function ReshapeSpec(a: NdArray, size: seq<int>): Result<NdArray>
    requires WellFormed(a)
  {
    var unknown := CountUnknown(size);
    if unknown == 0 then
      if Product(size) != |a.buffer| then Failure(IncompatibleShape)
      else Success(NdArray(a.buffer, a.dtype, size, Strides(size), false))
    else if unknown > 1 then Failure(OneUnknown)
    else match KnownSize(size)
      case Failure(e) => Failure(e)
      case Success(known) =>
        if |a.buffer| % known != 0 then Failure(CannotReshape(|a.buffer|, size))
        else
          var shape := Substitute(size, |a.buffer| / known);
          Success(NdArray(Materialised(a), a.dtype, shape, Strides(shape), false))
  }

  /** `reshape` with the materialisation the `-1` branch performs applied in
      both branches, so that a discontinuous view keeps its element order. */
  function ReshapeFixed(a: NdArray, size: seq<int>): Result<NdArray>
    requires WellFormed(a)
  {
    if CountUnknown(size) == 0 then
      if Product(size) != |a.buffer| then Failure(IncompatibleShape)
      else Success(NdArray(Materialised(a), a.dtype, size, Strides(size), false))
    else ReshapeSpec(a, size)
  }

  /** `reshape`: counts the unknown sizes, multiplies the known ones in a
      loop, and materialises a discontinuous view in the `-1` branch. */
  method Reshape(a: NdArray, size: seq<int>) returns (r: Result<NdArray>)
    requires WellFormed(a)
    ensures r == ReshapeSpec(a, size)
  {
    var unknown := CountUnknown(size);
    if unknown == 0 {
      if Product(size) != |a.buffer| {
        return Failure(IncompatibleShape);
      }
      return Success(NdArray(a.buffer, a.dtype, size, Strides(size), false));
    } else if unknown > 1 {
      return Failure(OneUnknown);
    }
    var known := 1;
    for i := 0 to |size|
      invariant KnownSize(size[..i]) == Success(known)
    {
      assert size[..i + 1][..i] == size[..i];
      var d := size[i];
      if d > 0 {
        known := known * d;
      } else if d < -1 {
        KnownSizeChecks(size);
        return Failure(BadUnknown);
      }
    }
    assert size[..|size|] == size;
    if |a.buffer| % known != 0 {
      return Failure(CannotReshape(|a.buffer|, size));
    }
    var shape := Substitute(size, |a.buffer| / known);
    var buf := a.buffer;
    if a.discontinuous {
      buf := Value(a);
    }
    r := Success(NdArray(buf, a.dtype, shape, Strides(shape), false));
  }

  /** The known-size loop fails exactly when some size is below -1. */
  lemma {:induction false} KnownSizeChecks(size: seq<int>)
    ensures KnownSize(size).Success? <==> forall i :: 0 <= i < |size| ==> size[i] >= -1
    decreases |size|
  {
    if |size| > 0 {
      var n := |size|;
      KnownSizeChecks(size[..n - 1]);
      assert forall i :: 0 <= i < n - 1 ==> size[..n - 1][i] == size[i];
    }
  }

  /** With every size positive or -1 and at most one -1, the new shape holds
      the known sizes' product times the substituted size (times 1 when
      there is no -1). */
  lemma {:induction false} SubstituteProduct(size: seq<int>, x: int)
    requires forall i :: 0 <= i < |size| ==> size[i] > 0 || size[i] == -1
    requires CountUnknown(size) <= 1
    ensures KnownSize(size).Success?
    ensures Product(Substitute(size, x)) == KnownSize(size).value * (if CountUnknown(size) == 1 then x else 1)
    decreases |size|
  {
    var n := |size|;
    if n > 0 {
      var init, last := size[..n - 1], size[n - 1];
      assert forall i :: 0 <= i < n - 1 ==> init[i] == size[i];
      SubstituteProduct(init, x);
      assert Substitute(size, x) == Substitute(init, x) + [if last == -1 then x else last];
      ProductSnoc(Substitute(init, x), if last == -1 then x else last);
      var k := KnownSize(init).value;
      if last == -1 {
        assert CountUnknown(init) == 0;
        assert Product(Substitute(size, x)) == k * x;
      } else {
        assert Product(Substitute(size, x)) == (k * (if CountUnknown(init) == 1 then x else 1)) * last;
        assert KnownSize(size).value == k * last;
        assert (k * (if CountUnknown(init) == 1 then x else 1)) * last
            == k * last * (if CountUnknown(init) == 1 then x else 1);
      }
    }
  }

  /** Sizes that are each positive or -1. */
  predicate Sizes(size: seq<int>)
  {
    |size| > 0 && forall i :: 0 <= i < |size| ==> size[i] > 0 || size[i] == -1
  }

  /** Every successful reshape to positive-or-(-1) sizes is a contiguous view
      of as many cells as the buffer holds; without a -1 it has exactly the
      requested shape. */
  lemma ReshapeContiguous(a: NdArray, size: seq<int>)
    requires WellFormed(a) && Sizes(size)
    ensures ReshapeSpec(a, size).Success? ==> Contiguous(ReshapeSpec(a, size).value)
    ensures ReshapeFixed(a, size).Success? ==> Contiguous(ReshapeFixed(a, size).value)
    ensures ReshapeSpec(a, size).Success? && CountUnknown(size) == 0 ==> ReshapeSpec(a, size).value.shape == size
  {
    if ReshapeSpec(a, size).Success? && CountUnknown(size) == 1 {
      UnknownShape(a, size);
    }
  }

  /** The shape a single -1 resolves to has no negative size and holds as
      many cells as the buffer. */
  lemma UnknownShape(a: NdArray, size: seq<int>)
    requires WellFormed(a) && Sizes(size) && CountUnknown(size) == 1
    requires ReshapeSpec(a, size).Success?
    ensures NonNeg(ReshapeSpec(a, size).value.shape)
    ensures Product(ReshapeSpec(a, size).value.shape) == |a.buffer|
  {
    var known := UnknownResolved(a, size);
    ResolvedShape(size, |a.buffer|, known);
  }

  /** The arithmetic of the -1 branch: the quotient fills the shape up to
      the length. */
  lemma ResolvedShape(size: seq<int>, len: nat, known: int)
    requires Sizes(size) && CountUnknown(size) == 1
    requires KnownSize(size) == Success(known) && len % known == 0
    ensures NonNeg(Substitute(size, len / known)) && Product(Substitute(size, len / known)) == len
  {
    var x := len / known;
    var shape := Substitute(size, x);
    SubstituteProduct(size, x);
    assert known * x == len;
    forall i | 0 <= i < |shape| ensures shape[i] >= 0 {
      assert shape[i] == (if size[i] == -1 then x else size[i]);
    }
  }

  /** A successful reshape with one -1 divides the length by the known
      sizes' product and puts the quotient in place of the -1. */
  lemma UnknownResolved(a: NdArray, size: seq<int>) returns (known: int)
    requires WellFormed(a) && CountUnknown(size) == 1
    requires ReshapeSpec(a, size).Success?
    ensures KnownSize(size) == Success(known) && known >= 1 && |a.buffer| % known == 0
    ensures ReshapeSpec(a, size).value.shape == Substitute(size, |a.buffer| / known)
  {
    known := KnownSize(size).value;
  }

  /** The corrected reshape keeps the elements in row-major order: the new
      view's `value` is the old view's, whether the old view was contiguous or
      discontinuous. */
  lemma ReshapeFixedKeepsValue(a: NdArray, size: seq<int>)
    requires WellFormed(a) && (Contiguous(a) || a.discontinuous) && Sizes(size)
    requires ReshapeFixed(a, size).Success?
    ensures WellFormed(ReshapeFixed(a, size).value)
    ensures ValueOf(ReshapeFixed(a, size).value) == ValueOf(a)
  {
    ReshapeContiguous(a, size);
    var r := ReshapeFixed(a, size).value;
    ValueOfContiguous(r);
    if !a.discontinuous {
      ValueOfContiguous(a);
    }
  }

  /** Reshaping a view that is not discontinuous shares its buffer. */
  lemma ReshapeShares(a: NdArray, size: seq<int>)
    requires WellFormed(a) && !a.discontinuous
    ensures ReshapeSpec(a, size).Success? ==> ReshapeSpec(a, size).value.buffer == a.buffer
    ensures ReshapeFixed(a, size) == ReshapeSpec(a, size)
  {
  }

  /** The package test's reshapes of `[[1, 2, 3], [2, 3, 4]]`: `(-1, 2)` gives shape
      `[3, 2]`, `(1, -1)` gives `[1, 6]`, and `(1, 2, 3)` reads back as
      `[[[1, 2, 3], [2, 3, 4]]]`. */
  lemma ReshapeExamples(a: NdArray)
    requires a.buffer == [1.0, 2.0, 3.0, 2.0, 3.0, 4.0] && a.shape == [2, 3] && a.strides == [3, 1]
    requires !a.discontinuous
    ensures ReshapeSpec(a, [-1, 2]).Success? && ReshapeSpec(a, [-1, 2]).value.shape == [3, 2]
    ensures ReshapeSpec(a, [1, -1]).Success? && ReshapeSpec(a, [1, -1]).value.shape == [1, 6]
    ensures ReshapeSpec(a, [1, 2, 3]).Success?
    ensures ToArray(ReshapeSpec(a, [1, 2, 3]).value)
         == List([List([List([Num(1.0), Num(2.0), Num(3.0)]), List([Num(2.0), Num(3.0), Num(4.0)])])])
  {
    UnknownFirst(a);
    UnknownLast(a);
    var s3: seq<int> := [1, 2, 3];
    assert s3[..2] == [1, 2] && [1, 2][..1] == [1] && [1][..0] == [];
    assert CountUnknown(s3) == 0;
    ImageStrides(1, 2, 3);
    var r := ReshapeSpec(a, s3).value;
    assert r.shape == s3 && r.strides == [6, 3, 1] && r.buffer == a.buffer;
    ReshapeRead3(r.buffer);
  }

  /** Six cells cannot be split into four rows: the message gives the
      length and the request as JavaScript prints them. */
  lemma UnknownIndivisible(a: NdArray)
    requires |a.buffer| == 6 && WellFormed(a)
    ensures ReshapeSpec(a, [4, -1]) == Failure("NdArray: cannot reshape array of size 6 into shape [4,-1]")
  {
    var s1: seq<int> := [4, -1];
    assert s1[..1] == [4] && [4][..0] == [];
    assert KnownSize(s1) == Success(4) && CountUnknown(s1) == 1;
    assert ReshapeSpec(a, s1) == Failure(CannotReshape(6, s1));
    IndivisibleMessage();
  }

  lemma IndivisibleMessage()
    ensures CannotReshape(6, [4, -1]) == "NdArray: cannot reshape array of size 6 into shape [4,-1]"
  {
    var s1: seq<int> := [4, -1];
    assert Decimal(6) == "6" && Numeral(4) == "4" && Numeral(-1) == "-1";
    assert Joined(s1) == "4,-1" by {
      assert s1[1..] == [-1];
    }
  }

  lemma UnknownFirst(a: NdArray)
    requires |a.buffer| == 6 && WellFormed(a)
    ensures ReshapeSpec(a, [-1, 2]).Success? && ReshapeSpec(a, [-1, 2]).value.shape == [3, 2]
  {
    var s1: seq<int> := [-1, 2];
    assert s1[..1] == [-1] && [-1][..0] == [];
    assert KnownSize(s1) == Success(2) && CountUnknown(s1) == 1;
    assert Substitute(s1, 3) == [3, 2];
  }

  lemma UnknownLast(a: NdArray)
    requires |a.buffer| == 6 && WellFormed(a)
    ensures ReshapeSpec(a, [1, -1]).Success? && ReshapeSpec(a, [1, -1]).value.shape == [1, 6]
  {
    var s2: seq<int> := [1, -1];
    assert s2[..1] == [1] && [1][..0] == [];
    assert KnownSize(s2) == Success(1) && CountUnknown(s2) == 1;
    assert Substitute(s2, 6) == [1, 6];
  }

  lemma ReshapeRead3(buf: seq<real>)
    requires buf == [1.0, 2.0, 3.0, 2.0, 3.0, 4.0]
    ensures ToArrayFrom(buf, [1, 2, 3], [6, 3, 1], 0)
         == List([List([List([Num(1.0), Num(2.0), Num(3.0)]), List([Num(2.0), Num(3.0), Num(4.0)])])])
  {
    var s: seq<int> := [1, 2, 3];
    var st: seq<int> := [6, 3, 1];
    assert s[1..] == [2, 3] && st[1..] == [3, 1] && [2, 3][1..] == [3] && [3, 1][1..] == [1];
    ReadRow3(buf, 0);
    ReadRow3(buf, 3);
    var block := ToArrayFrom(buf, [2, 3], [3, 1], 0);
    assert block.items == [ToArrayFrom(buf, [3], [1], 0), ToArrayFrom(buf, [3], [1], 3)];
    assert ToArrayFrom(buf, s, st, 0).items == [block];
  }

  lemma ReadRow3(buf: seq<real>, o: nat)
    requires o + 2 < |buf|
    ensures ToArrayFrom(buf, [3], [1], o) == List([Num(buf[o]), Num(buf[o + 1]), Num(buf[o + 2])])
  {
    var cells := ToArrayFrom(buf, [3], [1], o).items;
    assert |cells| == 3 && cells[0] == Num(buf[o]) && cells[1] == Num(buf[o + 1]) && cells[2] == Num(buf[o + 2]);
    assert cells == [Num(buf[o]), Num(buf[o + 1]), Num(buf[o + 2])];
  }

  /** `value` of the transpose of a contiguous `2 × 3` matrix: its
      columns, one after the other. */
  lemma TransposeValue23(a: NdArray)
    requires Contiguous(a) && a.shape == [2, 3]
    ensures |a.buffer| == 6
    ensures ValueOf(T(a)) == [a.buffer[0], a.buffer[3], a.buffer[1], a.buffer[4], a.buffer[2], a.buffer[5]]
  {
    assert Product(a.shape) == 6 by { Shape2(2, 3); }
    TransposeMatrix(a, 2, 3, 0, 0);
    TransposeMatrix(a, 2, 3, 1, 0);
    TransposeMatrix(a, 2, 3, 0, 1);
    TransposeMatrix(a, 2, 3, 1, 1);
    TransposeMatrix(a, 2, 3, 0, 2);
    TransposeMatrix(a, 2, 3, 1, 2);
  }

  /** `reshape` without a -1 on the transpose of `[[1, 2, 3], [4, 5, 6]]`
      keeps the raw buffer, so `reshape(6)` and `reshape(-1)` of the same
      view disagree, and only the latter holds the transpose's elements;
      the corrected reshape gives the transposed order for both. */
  lemma ReshapeSkipsMaterialising(a: NdArray)
    requires Contiguous(a) && a.buffer == [1.0, 2.0, 3.0, 4.0, 5.0, 6.0] && a.shape == [2, 3]
    ensures ReshapeSpec(T(a), [6]).Success? && ReshapeSpec(T(a), [6]).value.buffer == [1.0, 2.0, 3.0, 4.0, 5.0, 6.0]
    ensures ReshapeSpec(T(a), [-1]).Success? && ReshapeSpec(T(a), [-1]).value.buffer == [1.0, 4.0, 2.0, 5.0, 3.0, 6.0]
    ensures ReshapeSpec(T(a), [6]).value.shape == ReshapeSpec(T(a), [-1]).value.shape == [6]
    ensures ValueOf(T(a)) == [1.0, 4.0, 2.0, 5.0, 3.0, 6.0]
    ensures ReshapeFixed(T(a), [6]).Success? && ReshapeFixed(T(a), [6]).value.buffer == [1.0, 4.0, 2.0, 5.0, 3.0, 6.0]
  {
    TransposeValue23(a);
    var six: seq<int> := [6];
    var unknown: seq<int> := [-1];
    assert six[..0] == [] && unknown[..0] == [];
    assert Product(six) == 6 * Product([]);
    assert CountUnknown(six) == 0 && CountUnknown(unknown) == 1;
    assert KnownSize(unknown) == Success(1);
    assert Substitute(unknown, 6) == six;
  }

  /** The package test's `b.reshape(-1, 1)` of the transpose `b`: it materialises,
      and reads back as `[[1], [4], [2], [5], [3], [6]]`. */
  lemma TransposeReshapeExample(a: NdArray)
    requires Contiguous(a) && a.buffer == [1.0, 2.0, 3.0, 4.0, 5.0, 6.0] && a.shape == [2, 3]
    ensures ReshapeSpec(T(a), [-1, 1]).Success?
    ensures ToArray(ReshapeSpec(T(a), [-1, 1]).value)
         == List([List([Num(1.0)]), List([Num(4.0)]), List([Num(2.0)]), List([Num(5.0)]), List([Num(3.0)]), List([Num(6.0)])])
  {
    TransposeValue23(a);
    var size: seq<int> := [-1, 1];
    assert size[..1] == [-1] && [-1][..0] == [];
    assert CountUnknown(size) == 1 && KnownSize(size) == Success(1);
    assert Substitute(size, 6) == [6, 1];
    Shape2(6, 1);
    var r := ReshapeSpec(T(a), size).value;
    assert r.shape == [6, 1] && r.strides == [1, 1] && r.buffer == [1.0, 4.0, 2.0, 5.0, 3.0, 6.0];
    ReadColumn(r.buffer, [6, 1], [1, 1]);
  }

  /** A `[6, 1]` view reads one single-cell row per position. */
  lemma ReadColumn(buf: seq<real>, shape: seq<int>, strides: seq<int>)
    requires |buf| == 6 && shape == [6, 1] && |strides| == 2 && strides[0] == 1
    ensures ToArrayFrom(buf, shape, strides, 0)
         == List([List([Num(buf[0])]), List([Num(buf[1])]), List([Num(buf[2])]),
                  List([Num(buf[3])]), List([Num(buf[4])]), List([Num(buf[5])])])
  {
    var rows := ToArrayFrom(buf, shape, strides, 0).items;
    assert shape[1..] == [1];
    forall i | 0 <= i < 6 ensures rows[i] == List([Num(buf[i])])
    {
      var cells := ToArrayFrom(buf, [1], strides[1..], i).items;
      assert |cells| == 1 && cells[0] == Num(buf[i]);
      assert cells == [Num(buf[i])];
    }
    assert rows == [rows[0], rows[1], rows[2], rows[3], rows[4], rows[5]];
  }
}
