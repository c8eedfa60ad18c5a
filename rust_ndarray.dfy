/** The Rust `NdArray` of `packages/ndarray/src/ndarray.rs`: an owned `f32`
    buffer with strides and shape.  Permute, slice and set copy their data;
    reshape and concat keep the buffer.  Cells are modelled as reals. */
module RustNdArray {
  import opened Wrappers
  import opened IndexMath

  datatype NdArray = NdArray(buffer: seq<real>, strides: seq<nat>, shape: seq<nat>)

  /** Laid out row-major with canonical strides and one cell per element. */
  predicate Contiguous(a: NdArray)
  {
    a.strides == Strides(a.shape) && |a.buffer| == Product(a.shape)
  }

  /** One cell per element and every in-bounds index addresses a cell. */
  ghost predicate Valid(a: NdArray)
  {
    && |a.strides| == |a.shape|
    && |a.buffer| == Product(a.shape)
    && forall idx :: InBounds(idx, a.shape) ==> Offset(idx, a.strides) < |a.buffer|
  }

  lemma ContiguousIsValid(a: NdArray)
    requires Contiguous(a)
    ensures Valid(a)
  {
    forall idx | InBounds(idx, a.shape)
      ensures Offset(idx, a.strides) < |a.buffer|
    {
      IndexesComplete(a.shape, idx);
      IndexesCount(a.shape);
    }
  }

  /** `NdArray::from`: shape defaults to [len], strides to the canonical ones. */
  function From(buffer: seq<real>, shape: Option<seq<nat>>, strides: Option<seq<nat>>): NdArray
  {
    var sh := if shape.Some? then shape.value else [|buffer|];
    NdArray(buffer, if strides.Some? then strides.value else StridesNat(sh), sh)
  }

  /** Without a shape the array is one axis over the whole buffer; with a
      shape of matching size and no strides it is contiguous. */
  lemma FromDefaults(buffer: seq<real>, shape: seq<nat>)
    ensures From(buffer, None, None).shape == [|buffer|]
    ensures From(buffer, None, None).buffer == buffer
    ensures Contiguous(From(buffer, None, None))
    ensures |buffer| == Product(shape) ==> Contiguous(From(buffer, Some(shape), None))
  {
    var b: seq<nat> := [|buffer|];
    assert b[1..] == [];
    assert Product(b) == |buffer| * Product(b[1..]);
  }

  /** `NdArray::zeros`. */
  function Zeros(shape: seq<nat>): (r: NdArray)
    ensures Contiguous(r) && r.shape == shape
    ensures forall i :: 0 <= i < |r.buffer| ==> r.buffer[i] == 0.0
  {
    ProductNonNeg(shape);
    From(seq(Product(shape), _ => 0.0), Some(shape), None)
  }

  /** `NdArray::ones`. */
  function Ones(shape: seq<nat>): (r: NdArray)
    ensures Contiguous(r) && r.shape == shape
    ensures forall i :: 0 <= i < |r.buffer| ==> r.buffer[i] == 1.0
  {
    ProductNonNeg(shape);
    From(seq(Product(shape), _ => 1.0), Some(shape), None)
  }

  /** The values `start, start + step, ...` that lie below `stop`. */
  function Stepped(start: nat, stop: nat, step: nat): seq<real>
    requires step > 0
    decreases stop - start
  {
    if start >= stop then [] else [start as real] + Stepped(start + step, stop, step)
  }

  lemma MulStep(i: int, step: int)
    ensures (i - 1) * step + step == i * step
  {
  }

  /** Every value of the stepped range is below `stop` and the next step
      would not be. */
  lemma {:induction false} SteppedValues(start: nat, stop: nat, step: nat)
    requires step > 0
    ensures var r := Stepped(start, stop, step);
      && (forall i :: 0 <= i < |r| ==> r[i] == (start + i * step) as real && start + i * step < stop)
      && start + |r| * step >= stop
    decreases stop - start
  {
    var r := Stepped(start, stop, step);
    if start < stop {
      SteppedValues(start + step, stop, step);
      var t := Stepped(start + step, stop, step);
      assert r == [start as real] + t;
      forall i | 1 <= i < |r|
        ensures r[i] == (start + i * step) as real && start + i * step < stop
      {
        assert r[i] == t[i - 1];
        MulStep(i, step);
      }
      MulStep(|r|, step);
    }
  }

  /** `NdArray::arange(start, stop, step)`: a one-axis array of the stepped
      range; `step_by(0)` panics. */
  function Arange(start: nat, stop: nat, step: Option<nat>): (r: Result<NdArray>)
    ensures r.Success? <==> (step.None? || step.value > 0)
    ensures r.Success? ==>
      && Contiguous(r.value) && |r.value.shape| == 1
      && r.value.buffer == Stepped(start, stop, if step.Some? then step.value else 1)
  {
    var s := if step.Some? then step.value else 1;
    if s == 0 then Failure("assertion failed: step != 0")
    else
      var r := From(Stepped(start, stop, s), None, None);
      FromDefaults(r.buffer, []);
      Success(r)
  }

  /* ---------------------------------------------------------------------- */
  /* permute                                                                  */

  /** The scatter loop of `permute` from step n on: step m copies
      `src[ins[m]]` to `out[outs[m]]`; an index out of range panics. */
  function ScatterFrom(src: seq<real>, ins: seq<int>, outs: seq<int>, out: seq<real>, n: nat): (r: Result<seq<real>>)
    requires |ins| == |outs| && n <= |ins|
    ensures r.Success? ==> |r.value| == |out|
    decreases |ins| - n
  {
    if n == |ins| then Success(out)
    else if !(0 <= ins[n] < |src|) || !(0 <= outs[n] < |out|) then Failure("index out of bounds")
    else ScatterFrom(src, ins, outs, out[outs[n] := src[ins[n]]], n + 1)
  }

  /** With every index in range and distinct targets, the scatter succeeds,
      each remaining target receives its source cell and every other cell
      keeps its value. */
  lemma {:induction false} ScatterFacts(src: seq<real>, ins: seq<int>, outs: seq<int>, out: seq<real>, n: nat)
    requires |ins| == |outs| && n <= |ins|
    requires forall m :: 0 <= m < |ins| ==> 0 <= ins[m] < |src| && 0 <= outs[m] < |out|
    requires forall m, m' :: 0 <= m < m' < |outs| ==> outs[m] != outs[m']
    ensures ScatterFrom(src, ins, outs, out, n).Success?
    ensures var res := ScatterFrom(src, ins, outs, out, n).value;
      && (forall m :: n <= m < |ins| ==> res[outs[m]] == src[ins[m]])
      && (forall k :: 0 <= k < |out| && (forall m :: n <= m < |outs| ==> outs[m] != k) ==> res[k] == out[k])
    decreases |ins| - n
  {
    if n < |ins| {
      var out' := out[outs[n] := src[ins[n]]];
      ScatterFacts(src, ins, outs, out', n + 1);
      var res := ScatterFrom(src, ins, outs, out', n + 1).value;
      assert res[outs[n]] == src[ins[n]] by {
        forall m | n + 1 <= m < |outs|
          ensures outs[m] != outs[n]
        {
        }
      }
    }
  }

  lemma IndexesLength(shape: seq<nat>)
    ensures forall m :: 0 <= m < |Indexes(shape)| ==> |Indexes(shape)[m]| == |shape|
  {
    forall m | 0 <= m < |Indexes(shape)|
      ensures |Indexes(shape)[m]| == |shape|
    {
      IndexesOffset(shape, m);
    }
  }

  /** Input offsets of the enumerated indexes. */
  function InOffsets(a: NdArray, idxs: seq<seq<nat>>): (r: seq<int>)
    requires forall m :: 0 <= m < |idxs| ==> |idxs[m]| == |a.strides|
    ensures |r| == |idxs|
  {
    seq(|idxs|, m requires 0 <= m < |idxs| => Offset(idxs[m], a.strides))
  }

  /** Output offsets: each index reordered, under the output strides. */
  function OutOffsets(indices: seq<nat>, outStrides: seq<nat>, idxs: seq<seq<nat>>): (r: seq<int>)
    requires |indices| == |outStrides|
    requires forall m :: 0 <= m < |idxs| ==> |idxs[m]| == |indices|
    requires forall i :: 0 <= i < |indices| ==> indices[i] < |indices|
    ensures |r| == |idxs|
  {
    seq(|idxs|, m requires 0 <= m < |idxs| => Offset(Reordered(idxs[m], indices), outStrides))
  }

  /** `NdArray::permute` as a value: the length assertion, the reorder of the
      shape, the empty-shape assertion of `get_indexes`, the rank assertion of
      `nd_idx_to_offset` on the first index, then the scatter. */
  function PermuteSpec(a: NdArray, indices: seq<nat>): Result<NdArray>
  {
    if |indices| != |a.shape| then Failure("assertion `left == right` failed")
    else if exists i :: 0 <= i < |indices| && indices[i] >= |a.shape| then Failure("index out of bounds")
    else if |a.shape| == 0 then Failure("assertion failed: shape.len() > 0")
    else
      var outShape := Reordered(a.shape, indices);
      var outStrides := StridesNat(outShape);
      var idxs := Indexes(a.shape);
      IndexesLength(a.shape);
      if |idxs| > 0 && |a.strides| != |a.shape| then Failure("assertion `left == right` failed")
      else
        match ScatterFrom(a.buffer, InOffsets(a, idxs), OutOffsets(indices, outStrides, idxs), a.buffer, 0)
        case Failure(e) => Failure(e)
        case Success(out) => Success(NdArray(out, outStrides, outShape))
  }

  /** The loop of `permute` over the enumerated input indexes, on a clone of
      the buffer: the rank assertion of `nd_idx_to_offset` fails on the first
      index, otherwise it is the scatter. */
  method ScatterIndexes(a: NdArray, indices: seq<nat>, outStrides: seq<nat>, idxs: seq<seq<nat>>)
    returns (res: Result<seq<real>>)
    requires |indices| == |outStrides| && forall i :: 0 <= i < |indices| ==> indices[i] < |indices|
    requires forall m :: 0 <= m < |idxs| ==> |idxs[m]| == |indices|
    ensures |idxs| > 0 && |a.strides| != |indices| ==> res == Failure("assertion `left == right` failed")
    ensures |idxs| == 0 || |a.strides| == |indices| ==>
      res == ScatterFrom(a.buffer, InOffsets(a, idxs), OutOffsets(indices, outStrides, idxs), a.buffer, 0)
  {
    if |idxs| > 0 && |a.strides| != |indices| {
      var failed := NdIdxToOffset(idxs[0], a.strides);
      return Failure("assertion `left == right` failed");
    }
    var output := new real[|a.buffer|](i requires 0 <= i < |a.buffer| => a.buffer[i]);
    ghost var ins := InOffsets(a, idxs);
    ghost var outs := OutOffsets(indices, outStrides, idxs);
    assert output[..] == a.buffer;
    var n := 0;
    while n < |idxs|
      invariant 0 <= n <= |idxs| && output.Length == |a.buffer|
      invariant ScatterFrom(a.buffer, ins, outs, output[..], n) == ScatterFrom(a.buffer, ins, outs, a.buffer, 0)
    {
      var inOff := NdIdxToOffset(idxs[n], a.strides);
      var moved := Reorder(idxs[n], indices);
      var outIdx: seq<nat> := moved.value;
      var outOff := NdIdxToOffset(outIdx, outStrides);
      if inOff.value < 0 || inOff.value >= |a.buffer| || outOff.value < 0 || outOff.value >= output.Length {
        return Failure("index out of bounds");
      }
      output[outOff.value] := a.buffer[inOff.value];
      n := n + 1;
    }
    return Success(output[..]);
  }

  /** `NdArray::permute`: asserts one entry per axis, reorders the shape,
      clones the buffer and copies every input cell to its reordered
      position. */
  method Permute(a: NdArray, indices: seq<nat>) returns (r: Result<NdArray>)
    ensures r == PermuteSpec(a, indices)
  {
    if |indices| != |a.shape| {
      return Failure("assertion `left == right` failed");
    }
    var shaped := Reorder(a.shape, indices);
    if shaped.Failure? {
      return Failure("index out of bounds");
    }
    var outShape: seq<nat> := shaped.value;
    var outStrides := StridesNat(outShape);
    var listed := GetIndexes(a.shape);
    if listed.Failure? {
      return Failure("assertion failed: shape.len() > 0");
    }
    IndexesLength(a.shape);
    var out := ScatterIndexes(a, indices, outStrides, listed.value);
    if out.Failure? {
      return Failure(out.error);
    }
    return Success(NdArray(out.value, outStrides, outShape));
  }

  /** An in-bounds input index is written below the size of the array. */
  lemma OutOffsetInRange(shape: seq<nat>, indices: seq<nat>, x: seq<nat>)
    requires IsPermutation(indices, |shape|) && InBounds(x, shape)
    ensures 0 <= Offset(Reordered(x, indices), Strides(Reordered(shape, indices))) < Product(shape)
  {
    var outShape := Reordered(shape, indices);
    var y := Reordered(x, indices);
    assert InBounds(y, outShape) by { ReorderedInBounds(x, shape, indices); }
    assert 0 <= Offset(y, Strides(outShape)) < |Indexes(outShape)| by { IndexesComplete(outShape, y); }
    assert |Indexes(outShape)| == Product(outShape) by { IndexesCount(outShape); }
    assert Product(outShape) == Product(shape) by { ProductReorderedNat(shape, indices); }
  }

  /** Distinct in-bounds input indexes are written to distinct offsets. */
  lemma OutOffsetInjective(shape: seq<nat>, indices: seq<nat>, x: seq<nat>, y: seq<nat>)
    requires IsPermutation(indices, |shape|) && InBounds(x, shape) && InBounds(y, shape) && x != y
    ensures Offset(Reordered(x, indices), Strides(Reordered(shape, indices)))
         != Offset(Reordered(y, indices), Strides(Reordered(shape, indices)))
  {
    var outShape := Reordered(shape, indices);
    ReorderedInBounds(x, shape, indices);
    ReorderedInBounds(y, shape, indices);
    if Offset(Reordered(x, indices), Strides(outShape)) == Offset(Reordered(y, indices), Strides(outShape)) {
      OffsetInjective(outShape, Reordered(x, indices), Reordered(y, indices));
      ReorderedInjective(x, y, indices);
    }
  }

  /** The offsets the scatter of `permute` uses are in range and its
      targets are distinct. */
  lemma PermuteOffsets(a: NdArray, indices: seq<nat>, ins: seq<int>, outs: seq<int>)
    requires Valid(a) && IsPermutation(indices, |a.shape|)
    requires forall m :: 0 <= m < |Indexes(a.shape)| ==> |Indexes(a.shape)[m]| == |a.shape|
    requires ins == InOffsets(a, Indexes(a.shape))
    requires outs == OutOffsets(indices, StridesNat(Reordered(a.shape, indices)), Indexes(a.shape))
    ensures forall m :: 0 <= m < |ins| ==> 0 <= ins[m] < |a.buffer| && 0 <= outs[m] < |a.buffer|
    ensures forall m, m' :: 0 <= m < m' < |outs| ==> outs[m] != outs[m']
  {
    var idxs := Indexes(a.shape);
    forall m | 0 <= m < |idxs|
      ensures 0 <= ins[m] < |a.buffer| && 0 <= outs[m] < |a.buffer|
    {
      IndexesOffset(a.shape, m);
      OffsetNonNeg(idxs[m], a.strides);
      OutOffsetInRange(a.shape, indices, idxs[m]);
    }
    forall m, m' | 0 <= m < m' < |outs|
      ensures outs[m] != outs[m']
    {
      IndexesOffset(a.shape, m);
      IndexesOffset(a.shape, m');
      OutOffsetInjective(a.shape, indices, idxs[m], idxs[m']);
    }
  }

  /** `permute` by a permutation of a valid array succeeds with the reordered
      shape and canonical strides, and the cell of every input index lands at
      the offset of the reordered index. */
  lemma PermuteMoves(a: NdArray, indices: seq<nat>)
    requires Valid(a) && IsPermutation(indices, |a.shape|) && |a.shape| > 0
    ensures PermuteSpec(a, indices).Success?
    ensures var r := PermuteSpec(a, indices).value;
      && r.shape == Reordered(a.shape, indices) && Contiguous(r)
      && forall idx: seq<nat> :: InBounds(idx, a.shape) ==>
           && 0 <= Offset(idx, a.strides) < |a.buffer|
           && 0 <= Offset(Reordered(idx, indices), r.strides) < |r.buffer|
           && r.buffer[Offset(Reordered(idx, indices), r.strides)] == a.buffer[Offset(idx, a.strides)]
  {
    var outShape := Reordered(a.shape, indices);
    var outStrides := StridesNat(outShape);
    var idxs := Indexes(a.shape);
    IndexesLength(a.shape);
    var ins := InOffsets(a, idxs);
    var outs := OutOffsets(indices, outStrides, idxs);
    PermuteOffsets(a, indices, ins, outs);
    ScatterFacts(a.buffer, ins, outs, a.buffer, 0);
    var r := PermuteSpec(a, indices).value;
    assert r == NdArray(ScatterFrom(a.buffer, ins, outs, a.buffer, 0).value, outStrides, outShape);
    ProductReorderedNat(a.shape, indices);
    forall idx: seq<nat> | InBounds(idx, a.shape)
      ensures 0 <= Offset(idx, a.strides) < |a.buffer|
      ensures 0 <= Offset(Reordered(idx, indices), r.strides) < |r.buffer|
      ensures r.buffer[Offset(Reordered(idx, indices), r.strides)] == a.buffer[Offset(idx, a.strides)]
    {
      IndexesComplete(a.shape, idx);
      var m := Offset(idx, Strides(a.shape));
      assert idxs[m] == idx;
      assert ins[m] == Offset(idx, a.strides);
      assert outs[m] == Offset(Reordered(idx, indices), r.strides);
    }
  }

  /** The shape part of `PermuteMoves`. */
  lemma PermuteShape(a: NdArray, indices: seq<nat>)
    requires Valid(a) && IsPermutation(indices, |a.shape|) && |a.shape| > 0
    ensures PermuteSpec(a, indices).Success?
    ensures PermuteSpec(a, indices).value.shape == Reordered(a.shape, indices)
    ensures Contiguous(PermuteSpec(a, indices).value)
  {
    PermuteMoves(a, indices);
  }

  /** `PermuteMoves` at one input index. */
  lemma PermuteMovesAt(a: NdArray, indices: seq<nat>, idx: seq<nat>)
    requires Valid(a) && IsPermutation(indices, |a.shape|) && |a.shape| > 0 && InBounds(idx, a.shape)
    ensures PermuteSpec(a, indices).Success?
    ensures var r := PermuteSpec(a, indices).value;
      && 0 <= Offset(idx, a.strides) < |a.buffer|
      && 0 <= Offset(Reordered(idx, indices), r.strides) < |r.buffer|
      && r.buffer[Offset(Reordered(idx, indices), r.strides)] == a.buffer[Offset(idx, a.strides)]
  {
    PermuteMoves(a, indices);
  }

  /** `NdArray::transpose`: permute by the reversed axes. */
  method Transpose(a: NdArray) returns (r: Result<NdArray>)
    ensures r == PermuteSpec(a, ReversedAxes(|a.shape|))
  {
    r := Permute(a, ReversedAxes(|a.shape|));
  }

  /** Reversing the axes twice restores any sequence. */
  lemma ReverseTwice<T>(s: seq<T>)
    ensures Reordered(Reordered(s, ReversedAxes(|s|)), ReversedAxes(|s|)) == s
  {
  }

  /** The two permutes of `TransposeTwice`, at one cell. */
  lemma TransposeTwiceAt(a: NdArray, b: NdArray, c: NdArray, k: nat)
    requires Valid(a) && |a.shape| > 0 && k < |a.buffer|
    requires a.strides == Strides(a.shape)
    requires PermuteSpec(a, ReversedAxes(|a.shape|)) == Success(b)
    requires PermuteSpec(b, ReversedAxes(|b.shape|)) == Success(c)
    ensures c.shape == a.shape && |c.buffer| == |a.buffer| && c.buffer[k] == a.buffer[k]
  {
    var n := |a.shape|;
    var rev := ReversedAxes(n);
    ReversedAxesIsPermutation(n);
    PermuteShape(a, rev);
    ContiguousIsValid(b);
    PermuteShape(b, rev);
    ReverseTwice(a.shape);
    IndexesCount(a.shape);
    IndexesOffset(a.shape, k);
    var idx := Indexes(a.shape)[k];
    var jdx := Reordered(idx, rev);
    PermuteMovesAt(a, rev, idx);
    ReorderedInBounds(idx, a.shape, rev);
    PermuteMovesAt(b, rev, jdx);
    ReverseTwice(idx);
  }

  /** Transposing a contiguous array twice restores its shape and buffer. */
  lemma TransposeTwice(a: NdArray)
    requires Contiguous(a) && |a.shape| > 0
    ensures PermuteSpec(a, ReversedAxes(|a.shape|)).Success?
    ensures var b := PermuteSpec(a, ReversedAxes(|a.shape|)).value;
      && PermuteSpec(b, ReversedAxes(|b.shape|)).Success?
      && PermuteSpec(b, ReversedAxes(|b.shape|)).value.shape == a.shape
      && PermuteSpec(b, ReversedAxes(|b.shape|)).value.buffer == a.buffer
  {
    var rev := ReversedAxes(|a.shape|);
    ReversedAxesIsPermutation(|a.shape|);
    ContiguousIsValid(a);
    PermuteMoves(a, rev);
    var b := PermuteSpec(a, rev).value;
    ContiguousIsValid(b);
    ReversedAxesIsPermutation(|b.shape|);
    PermuteMoves(b, ReversedAxes(|b.shape|));
    var c := PermuteSpec(b, ReversedAxes(|b.shape|)).value;
    if |a.buffer| > 0 {
      TransposeTwiceAt(a, b, c, 0);
    } else {
      ProductReorderedNat(a.shape, rev);
      ReverseTwice(a.shape);
    }
    forall k | 0 <= k < |a.buffer|
      ensures c.buffer[k] == a.buffer[k]
    {
      TransposeTwiceAt(a, b, c, k);
    }
  }

  /** One cell of `TransposeMatrix`. */
  lemma TransposeMatrixAt(a: NdArray, b: NdArray, p: nat, q: nat, i: nat, j: nat)
    requires Contiguous(a) && a.shape == [p, q] && i < p && j < q
    requires PermuteSpec(a, ReversedAxes(2)) == Success(b)
    ensures 0 <= j * p + i < |b.buffer| && 0 <= i * q + j < |a.buffer|
    ensures b.buffer[j * p + i] == a.buffer[i * q + j]
  {
    Shape2(p, q);
    Shape2(q, p);
    ContiguousIsValid(a);
    var rev := ReversedAxes(2);
    assert rev == [1, 0];
    ReversedAxesIsPermutation(2);
    var idx: seq<nat> := [i, j];
    assert InBounds(idx, a.shape);
    assert Reordered(idx, rev) == [j, i];
    PermuteShape(a, rev);
    assert b.strides == [p, 1] && a.strides == [q, 1];
    PermuteMovesAt(a, rev, idx);
    OffsetRowMajor2(j, i, p);
    OffsetRowMajor2(i, j, q);
  }

  /** Row-major offset of cell (i, j) of a matrix with rows of length q. */
  lemma OffsetRowMajor2(i: int, j: int, q: int)
    ensures Offset([i, j], [q, 1]) == i * q + j
  {
    Offset2(i, j, q, 1);
  }

  /** Cell (j, i) of the row-major q-by-p buffer `b` is cell (i, j) of the
      row-major p-by-q buffer `a`. */
  predicate MatrixTransposed(a: seq<real>, b: seq<real>, p: nat, q: nat)
  {
    forall i, j :: 0 <= i < p && 0 <= j < q ==>
      0 <= j * p + i < |b| && 0 <= i * q + j < |a| && b[j * p + i] == a[i * q + j]
  }

  /** On a contiguous p-by-q array `transpose` is the matrix transpose: a
      q-by-p contiguous array whose cell (j, i) is the input's cell (i, j). */
  lemma TransposeMatrix(a: NdArray, p: nat, q: nat)
    requires Contiguous(a) && a.shape == [p, q]
    ensures PermuteSpec(a, ReversedAxes(2)).Success?
    ensures var b := PermuteSpec(a, ReversedAxes(2)).value;
      && b.shape == [q, p] && b.strides == [p, 1] && |b.buffer| == p * q
      && MatrixTransposed(a.buffer, b.buffer, p, q)
  {
    var rev := ReversedAxes(2);
    assert rev == [1, 0];
    ReversedAxesIsPermutation(2);
    ContiguousIsValid(a);
    Shape2(q, p);
    PermuteShape(a, rev);
    TransposeMatrixCells(a, PermuteSpec(a, rev).value, p, q);
  }

  lemma TransposeMatrixCells(a: NdArray, b: NdArray, p: nat, q: nat)
    requires Contiguous(a) && a.shape == [p, q]
    requires PermuteSpec(a, ReversedAxes(2)) == Success(b)
    ensures MatrixTransposed(a.buffer, b.buffer, p, q)
  {
    forall i, j | 0 <= i < p && 0 <= j < q
      ensures 0 <= j * p + i < |b.buffer| && 0 <= i * q + j < |a.buffer| && b.buffer[j * p + i] == a.buffer[i * q + j]
    {
      TransposeMatrixAt(a, b, p, q, i, j);
    }
  }

  /** The crate's 2x3 transpose example: `[1..6]` as 2x3 (strides [3, 1])
      becomes `[1, 4, 2, 5, 3, 6]` as 3x2 with strides [2, 1]. */
  lemma TransposeExample(a: NdArray)
    requires a == NdArray([1.0, 2.0, 3.0, 4.0, 5.0, 6.0], [3, 1], [2, 3])
    ensures a == From([1.0, 2.0, 3.0, 4.0, 5.0, 6.0], Some([2, 3]), None)
    ensures PermuteSpec(a, ReversedAxes(2)).Success?
    ensures var b := PermuteSpec(a, ReversedAxes(2)).value;
      && b.shape == [3, 2] && b.strides == [2, 1] && b.buffer == [1.0, 4.0, 2.0, 5.0, 3.0, 6.0]
  {
    Shape2(2, 3);
    TransposeMatrix(a, 2, 3);
    TransposeExampleCells(a, PermuteSpec(a, ReversedAxes(2)).value);
  }

  /** The transpose of any contiguous 2x3 array, cell by cell. */
  lemma TransposeExampleCells(a: NdArray, b: NdArray)
    requires Contiguous(a) && a.shape == [2, 3]
    requires PermuteSpec(a, ReversedAxes(2)) == Success(b) && |b.buffer| == 6
    ensures b.buffer == [a.buffer[0], a.buffer[3], a.buffer[1], a.buffer[4], a.buffer[2], a.buffer[5]]
  {
    TransposeMatrixAt(a, b, 2, 3, 0, 0);
    TransposeMatrixAt(a, b, 2, 3, 0, 1);
    TransposeMatrixAt(a, b, 2, 3, 0, 2);
    TransposeMatrixAt(a, b, 2, 3, 1, 0);
    TransposeMatrixAt(a, b, 2, 3, 1, 1);
    TransposeMatrixAt(a, b, 2, 3, 1, 2);
  }

  /* ---------------------------------------------------------------------- */
  /* reshape and flatten                                                      */

  /** Rust's `i32`, the element type of a requested shape. */
  newtype I32 = x: int | -0x8000_0000 <= x < 0x8000_0000

  /** `usize` is 32 bits on the crate's wasm32 target. */
  const UsizeModulus: int := 0x1_0000_0000

  /** `x as usize` for an `i32`: negative values wrap around. */
  function UsizeOf(x: int): (r: nat)
    ensures r < UsizeModulus
    ensures 0 <= x < UsizeModulus ==> r == x
    ensures x < 0 && -x <= UsizeModulus ==> r == UsizeModulus + x
  {
    x % UsizeModulus
  }

  /** `x as i32` for a `usize`: values from 2^31 on wrap to negatives. */
  function I32Of(x: nat): (r: I32)
    ensures x < 0x8000_0000 ==> r as int == x
  {
    ((x + 0x8000_0000) % 0x1_0000_0000 - 0x8000_0000) as I32
  }

  /** How many requested sizes are not positive. */
  function NonPositiveCount(shape: seq<I32>): (r: nat)
    ensures r <= |shape|
  {
    if |shape| == 0 then 0 else (if shape[0] <= 0 then 1 else 0) + NonPositiveCount(shape[1..])
  }

  /** The `reduce` of the one-unknown branch from position k on: the seed is
      `shape[0]`, unchecked; a later entry below -1 or equal to 0 panics, -1
      is skipped and every other entry multiplies the accumulator. */
  function KnownSizeFrom(shape: seq<I32>, k: nat, acc: int): Result<int>
    requires k <= |shape|
    decreases |shape| - k
  {
    if k == |shape| then Success(acc)
    else if shape[k] < -1 || shape[k] == 0 then Failure("unknown dimension size must be positive or -1.")
    else KnownSizeFrom(shape, k + 1, if shape[k] == -1 then acc else acc * shape[k] as int)
  }

  /** Each requested size as a `usize`, every -1 replaced by `newSize`. */
  function FillUnknown(shape: seq<I32>, newSize: nat): (r: seq<nat>)
    ensures |r| == |shape|
  {
    seq(|shape|, i requires 0 <= i < |shape| => if shape[i] == -1 then newSize else UsizeOf(shape[i] as int))
  }

  /** `NdArray::reshape` as written: with no unknown size the product must
      match the buffer; with one unknown size its extent is the buffer length
      divided by the `reduce` of the entries, seeded unchecked with the first
      one; with more it panics. */
  function ReshapeAsWritten(a: NdArray, shape: seq<I32>): Result<NdArray>
  {
    var unknown := NonPositiveCount(shape);
    if unknown == 0 then
      if |shape| == 0 then Failure("called `Option::unwrap()` on a `None` value")
      else
        var sizes := FillUnknown(shape, 0);
        if Product(sizes) != |a.buffer| then Failure("shape is not compatible with buffer")
        else Success(NdArray(a.buffer, StridesNat(sizes), sizes))
    else if unknown == 1 then
      var known :- KnownSizeFrom(shape, 1, shape[0] as int);
      if UsizeOf(known) == 0 then Failure("attempt to divide by zero")
      else Success(From(a.buffer, Some(FillUnknown(shape, |a.buffer| / UsizeOf(known))), None))
    else Failure("too many new axis")
  }

  /** The product of every entry except -1. */
  function KnownProduct(shape: seq<I32>): int
  {
    if |shape| == 0 then 1 else (if shape[0] == -1 then 1 else shape[0] as int) * KnownProduct(shape[1..])
  }

  /** Every entry is -1 or positive. */
  predicate SizesOrUnknown(shape: seq<I32>)
  {
    forall i :: 0 <= i < |shape| ==> shape[i] == -1 || shape[i] > 0
  }

  lemma {:induction false} KnownProductPositive(shape: seq<I32>)
    requires SizesOrUnknown(shape)
    ensures KnownProduct(shape) > 0
    decreases |shape|
  {
    if |shape| > 0 {
      KnownProductPositive(shape[1..]);
    }
  }

  /** `reshape` as evidently intended: with one unknown size every other
      entry must be positive and their product must divide the buffer; the
      unknown extent is the quotient. A leading 0 still seeds the product
      with 0, so the division panics as in the code. */
  function ReshapeFixed(a: NdArray, shape: seq<I32>): Result<NdArray>
  {
    var unknown := NonPositiveCount(shape);
    if unknown == 0 then
      if |shape| == 0 then Failure("called `Option::unwrap()` on a `None` value")
      else
        var sizes := FillUnknown(shape, 0);
        if Product(sizes) != |a.buffer| then Failure("shape is not compatible with buffer")
        else Success(NdArray(a.buffer, StridesNat(sizes), sizes))
    else if unknown == 1 then
      if |shape| > 0 && shape[0] == 0 then Failure("attempt to divide by zero")
      else if !SizesOrUnknown(shape) then Failure("unknown dimension size must be positive or -1.")
      else
        KnownProductPositive(shape);
        var known := KnownProduct(shape);
        if |a.buffer| % known != 0 then Failure("shape is not compatible with buffer")
        else Success(From(a.buffer, Some(FillUnknown(shape, |a.buffer| / known)), None))
    else Failure("too many new axis")
  }

  /** With at most one -1 and positive entries otherwise, filling in n
      multiplies the known product by n once per unknown. */
  lemma {:induction false} FillProduct(shape: seq<I32>, n: nat)
    requires SizesOrUnknown(shape) && NonPositiveCount(shape) <= 1
    ensures Product(FillUnknown(shape, n)) == (if NonPositiveCount(shape) == 1 then n else 1) * KnownProduct(shape)
    decreases |shape|
  {
    if |shape| > 0 {
      var rest := shape[1..];
      FillProduct(rest, n);
      assert FillUnknown(shape, n)[1..] == FillUnknown(rest, n);
    }
  }

  /** A successful corrected reshape keeps the buffer, lays it out
      contiguously, keeps every positive requested extent, and the extents
      multiply to the buffer length. */
  lemma ReshapeFixedSound(a: NdArray, shape: seq<I32>)
    requires ReshapeFixed(a, shape).Success?
    ensures var r := ReshapeFixed(a, shape).value;
      && r.buffer == a.buffer && Contiguous(r) && |r.shape| == |shape|
      && (forall i :: 0 <= i < |shape| && shape[i] > 0 ==> r.shape[i] == shape[i] as int)
      && (forall i :: 0 <= i < |shape| && shape[i] == -1 ==> r.shape[i] * KnownProduct(shape) == |a.buffer|)
  {
    if NonPositiveCount(shape) == 1 {
      KnownProductPositive(shape);
      var known := KnownProduct(shape);
      var n := |a.buffer| / known;
      FillProduct(shape, n);
      assert n * known == |a.buffer|;
    } else {
      forall i | 0 <= i < |shape|
        ensures shape[i] > 0
      {
        NonPositiveZero(shape, i);
      }
    }
  }

  /** With no non-positive entry, every entry is positive. */
  lemma {:induction false} NonPositiveZero(shape: seq<I32>, i: nat)
    requires NonPositiveCount(shape) == 0 && i < |shape|
    ensures shape[i] > 0
    decreases i
  {
    if i > 0 {
      NonPositiveZero(shape[1..], i - 1);
    }
  }

  /** The corrected reshape succeeds exactly on a non-empty request of
      positive extents and at most one -1 whose known extents divide the
      buffer, multiplying out to it when nothing is unknown. */
  lemma ReshapeFixedSucceeds(a: NdArray, shape: seq<I32>)
    ensures ReshapeFixed(a, shape).Success? <==>
      && |shape| > 0 && SizesOrUnknown(shape) && NonPositiveCount(shape) <= 1
      && (if NonPositiveCount(shape) == 0 then KnownProduct(shape) == |a.buffer|
          else KnownProduct(shape) > 0 && |a.buffer| % KnownProduct(shape) == 0)
  {
    if SizesOrUnknown(shape) {
      KnownProductPositive(shape);
    }
    if NonPositiveCount(shape) == 0 {
      assert SizesOrUnknown(shape) by {
        forall i | 0 <= i < |shape|
          ensures shape[i] > 0
        {
          NonPositiveZero(shape, i);
        }
      }
      FillProduct(shape, 0);
    }
  }

  /** The `reduce` of the code, with every entry after the first positive or
      -1, multiplies its seed by their known product. */
  lemma {:induction false} KnownSizeFromProduct(shape: seq<I32>, k: nat, acc: int)
    requires k <= |shape| && SizesOrUnknown(shape[k..])
    ensures KnownSizeFrom(shape, k, acc) == Success(acc * KnownProduct(shape[k..]))
    decreases |shape| - k
  {
    if k < |shape| {
      var f := if shape[k] == -1 then 1 else shape[k] as int;
      var rest := KnownProduct(shape[k + 1..]);
      assert shape[k..][1..] == shape[k + 1..];
      assert KnownProduct(shape[k..]) == f * rest;
      KnownSizeFromProduct(shape, k + 1, acc * f);
      assert (acc * f) * rest == acc * (f * rest);
    }
  }

  /** Where the first requested extent is positive, the code agrees with the
      corrected reshape whenever the latter succeeds (and the known product
      fits a `usize`). */
  lemma ReshapeAgrees(a: NdArray, shape: seq<I32>)
    requires |shape| > 0 && shape[0] > 0 && KnownProduct(shape) < UsizeModulus
    requires ReshapeFixed(a, shape).Success?
    ensures ReshapeAsWritten(a, shape) == ReshapeFixed(a, shape)
  {
    if NonPositiveCount(shape) == 1 {
      KnownSizeFromProduct(shape, 1, shape[0] as int);
      KnownProductPositive(shape);
    }
  }

  /** On a request with no negative entry (the shapes the tensor package
      builds from extents) the code as written and the corrected reshape
      agree on every buffer, panics included. */
  lemma ReshapeAgreesNonNegative(a: NdArray, shape: seq<I32>)
    requires forall i :: 0 <= i < |shape| ==> shape[i] >= 0
    ensures ReshapeAsWritten(a, shape) == ReshapeFixed(a, shape)
  {
    if NonPositiveCount(shape) == 1 {
      if shape[0] == 0 {
        assert NonPositiveCount(shape[1..]) == 0;
        forall i | 0 <= i < |shape[1..]|
          ensures shape[1..][i] > 0
        {
          NonPositiveZero(shape[1..], i);
        }
        KnownSizeFromProduct(shape, 1, 0);
      } else {
        var j := NonPositiveAt(shape);
        KnownSizeFromFails(shape, 1, shape[0] as int, j);
        assert !SizesOrUnknown(shape) by {
          assert shape[j] == 0;
        }
      }
    }
  }

  /** A request with a non-positive entry names one. */
  lemma {:induction false} NonPositiveAt(shape: seq<I32>) returns (j: nat)
    requires NonPositiveCount(shape) > 0
    ensures j < |shape| && shape[j] <= 0
    decreases |shape|
  {
    if shape[0] <= 0 {
      j := 0;
    } else {
      var k := NonPositiveAt(shape[1..]);
      j := k + 1;
    }
  }

  /** The `reduce` panics once it reaches an entry that is 0 or below -1. */
  lemma {:induction false} KnownSizeFromFails(shape: seq<I32>, k: nat, acc: int, j: nat)
    requires k <= j < |shape| && (shape[j] == 0 || shape[j] < -1)
    ensures KnownSizeFrom(shape, k, acc) == Failure("unknown dimension size must be positive or -1.")
    decreases j - k
  {
    if k < j && !(shape[k] < -1 || shape[k] == 0) {
      KnownSizeFromFails(shape, k + 1, if shape[k] == -1 then acc else acc * shape[k] as int, j);
    }
  }

  /** The crate's reshape example: six cells as 2x3 reshaped to [3, -1] are
      3x2 with strides [2, 1]. */
  lemma ReshapeExample(a: NdArray)
    requires a == From([1.0, 2.0, 3.0, 4.0, 5.0, 6.0], Some([2, 3]), None)
    ensures ReshapeAsWritten(a, [3, -1]).Success?
    ensures ReshapeAsWritten(a, [3, -1]).value.shape == [3, 2]
    ensures ReshapeAsWritten(a, [3, -1]).value.strides == [2, 1]
  {
    var req: seq<I32> := [3, -1];
    assert NonPositiveCount(req) == 1 by {
      assert req[1..] == [-1] && req[1..][1..] == [];
    }
    assert FillUnknown(req, 2) == [3, 2];
    Shape2(3, 2);
  }

  /** A leading -1 is taken as the seed of the product of the other
      extents: six cells reshaped to [-1, 2] get the extent 6 / (2^32 - 2),
      that is 0, so the result has no cells for its six-cell buffer; the
      corrected reshape gives [3, 2]. */
  lemma ReshapeLeadingUnknown(a: NdArray)
    requires |a.buffer| == 6
    ensures ReshapeAsWritten(a, [-1, 2]).Success?
    ensures ReshapeAsWritten(a, [-1, 2]).value.shape == [0, 2]
    ensures Product(ReshapeAsWritten(a, [-1, 2]).value.shape) != |a.buffer|
    ensures ReshapeFixed(a, [-1, 2]).Success? && ReshapeFixed(a, [-1, 2]).value.shape == [3, 2]
  {
    var req: seq<I32> := [-1, 2];
    assert req[1..] == [2] && req[1..][1..] == [];
    assert NonPositiveCount(req) == 1;
    assert KnownSizeFrom(req, 1, -1) == Success(-2);
    assert UsizeOf(-2) == UsizeModulus - 2;
    assert FillUnknown(req, 0) == [0, 2];
    Shape2(0, 2);
    assert KnownProduct(req) == 2;
    assert FillUnknown(req, 3) == [3, 2];
  }

  /** With one unknown extent the code never checks that the extents cover
      the buffer: six cells reshaped to [4, -1] get the shape [4, 1], four
      cells; the corrected reshape refuses the request. */
  lemma ReshapeIndivisible(a: NdArray)
    requires |a.buffer| == 6
    ensures ReshapeAsWritten(a, [4, -1]).Success?
    ensures ReshapeAsWritten(a, [4, -1]).value.shape == [4, 1]
    ensures Product(ReshapeAsWritten(a, [4, -1]).value.shape) != |a.buffer|
    ensures ReshapeFixed(a, [4, -1]) == Failure("shape is not compatible with buffer")
  {
    var req: seq<I32> := [4, -1];
    assert req[1..] == [-1] && req[1..][1..] == [];
    assert NonPositiveCount(req) == 1;
    assert KnownSizeFrom(req, 1, 4) == Success(4);
    assert FillUnknown(req, 1) == [4, 1];
    Shape2(4, 1);
    assert KnownProduct(req) == 4;
  }

  /** `NdArray::flatten`: reshape to one axis of the buffer length, cast to
      `i32`. */
  function Flatten(a: NdArray): Result<NdArray>
  {
    ReshapeFixed(a, [I32Of(|a.buffer|)])
  }

  /** Flattening a non-empty buffer below 2^31 cells gives one contiguous
      axis over the same buffer; an empty buffer panics in the division (the
      request [0] is one unknown extent whose known product is 0). Either
      way the code as written agrees. */
  lemma FlattenShape(a: NdArray)
    ensures 0 < |a.buffer| < 0x8000_0000 ==> Flatten(a) == Success(NdArray(a.buffer, [1], [|a.buffer|]))
    ensures |a.buffer| == 0 ==> Flatten(a) == Failure("attempt to divide by zero")
    ensures |a.buffer| < 0x8000_0000 ==> ReshapeAsWritten(a, [I32Of(|a.buffer|)]) == Flatten(a)
  {
    var req: seq<I32> := [I32Of(|a.buffer|)];
    assert req[1..] == [];
    if |a.buffer| == 0 {
      assert NonPositiveCount(req) == 1;
      assert KnownSizeFrom(req, 1, 0) == Success(0);
    }
    if 0 < |a.buffer| < 0x8000_0000 {
      var sizes := FillUnknown(req, 0);
      assert sizes == [|a.buffer|];
      assert sizes[1..] == [];
      assert Product(sizes) == |a.buffer|;
      assert StridesNat(sizes) == [1];
      assert KnownProduct(req) == |a.buffer|;
      ReshapeAgrees(a, req);
    }
  }

  /* ---------------------------------------------------------------------- */
  /* slice, set and concat                                                    */

  /** Sum of `stride * index` over the leading axes `slice` and `set`
      address (`take` stops at the shorter of the two). */
  function LeadOffset(a: NdArray, idx: seq<nat>): (r: nat)
  {
    var k := if |idx| <= |a.strides| then |idx| else |a.strides|;
    OffsetNonNeg(idx[..k], a.strides[..k]);
    Offset(idx[..k], a.strides[..k])
  }

  /** `NdArray::slice`: the sub-array at the leading indexes, copied out of
      the buffer from their offset over as many cells as the remaining axes
      hold. */
  function Slice(a: NdArray, idx: seq<nat>): Result<NdArray>
  {
    if |idx| > |a.shape| then Failure("assertion failed: indexes.len() <= self.shape.len()")
    else
      var remaining := a.shape[|idx|..];
      ProductNonNeg(remaining);
      var off := LeadOffset(a, idx);
      if off + Product(remaining) > |a.buffer| then Failure("range end index out of range for slice")
      else Success(From(a.buffer[off..off + Product(remaining)], Some(remaining), None))
  }

  /** Leading indexes within the extents of their axes. */
  predicate LeadInBounds(idx: seq<nat>, shape: seq<nat>)
  {
    |idx| <= |shape| && forall i :: 0 <= i < |idx| ==> idx[i] < shape[i]
  }

  /** For a contiguous array the leading indexes address a block that fits
      the buffer. */
  lemma LeadBlock(a: NdArray, idx: seq<nat>)
    requires Contiguous(a) && LeadInBounds(idx, a.shape)
    ensures LeadOffset(a, idx) == Offset(idx, Strides(a.shape)[..|idx|])
    ensures LeadOffset(a, idx) + Product(a.shape[|idx|..]) <= |a.buffer|
  {
    var k := |idx|;
    assert idx[..k] == idx;
    assert LeadOffset(a, idx) == Offset(idx, a.strides[..k]);
    PrefixOffsetBound(a.shape, idx);
  }

  /** Within the block, the cells are laid out like the remaining axes: the
      full index `idx + j` sits at the block's offset plus the row-major
      offset of `j`. */
  lemma LeadBlockAt(a: NdArray, idx: seq<nat>, j: seq<nat>)
    requires Contiguous(a) && LeadInBounds(idx, a.shape) && InBounds(j, a.shape[|idx|..])
    ensures Offset(idx + j, a.strides) == LeadOffset(a, idx) + Offset(j, Strides(a.shape[|idx|..]))
    ensures 0 <= Offset(j, Strides(a.shape[|idx|..])) < Product(a.shape[|idx|..])
  {
    var k := |idx|;
    var rest := a.shape[k..];
    LeadBlock(a, idx);
    StridesSuffix(a.shape, k);
    OffsetConcat(idx, j, a.strides);
    assert (idx + j)[..k] == idx && (idx + j)[k..] == j;
    assert a.strides[..k] == Strides(a.shape)[..k];
    IndexesComplete(rest, j);
    IndexesCount(rest);
  }

  /** Slicing a contiguous array at in-bounds leading indexes gives a
      contiguous array of the remaining axes whose every cell is the cell of
      the input at the leading indexes followed by its own. */
  lemma SliceSelects(a: NdArray, idx: seq<nat>)
    requires Contiguous(a) && LeadInBounds(idx, a.shape)
    ensures Slice(a, idx).Success?
    ensures var r := Slice(a, idx).value;
      && r.shape == a.shape[|idx|..] && Contiguous(r)
      && forall j: seq<nat> :: InBounds(j, r.shape) ==>
           && 0 <= Offset(j, r.strides) < |r.buffer|
           && 0 <= Offset(idx + j, a.strides) < |a.buffer|
           && r.buffer[Offset(j, r.strides)] == a.buffer[Offset(idx + j, a.strides)]
  {
    SliceShape(a, idx);
    SliceCells(a, idx);
  }

  /** The shape part of `SliceSelects`. */
  lemma SliceShape(a: NdArray, idx: seq<nat>)
    requires Contiguous(a) && LeadInBounds(idx, a.shape)
    ensures Slice(a, idx).Success?
    ensures Slice(a, idx).value.shape == a.shape[|idx|..] && Contiguous(Slice(a, idx).value)
    ensures Slice(a, idx).value == From(
      a.buffer[LeadOffset(a, idx)..LeadOffset(a, idx) + Product(a.shape[|idx|..])], Some(a.shape[|idx|..]), None)
  {
    LeadBlock(a, idx);
    ProductNonNeg(a.shape[|idx|..]);
  }

  /** The cell part of `SliceSelects`. */
  lemma SliceCells(a: NdArray, idx: seq<nat>)
    requires Contiguous(a) && LeadInBounds(idx, a.shape)
    ensures Slice(a, idx).Success?
    ensures var r := Slice(a, idx).value;
      forall j: seq<nat> :: InBounds(j, r.shape) ==>
           && 0 <= Offset(j, r.strides) < |r.buffer|
           && 0 <= Offset(idx + j, a.strides) < |a.buffer|
           && r.buffer[Offset(j, r.strides)] == a.buffer[Offset(idx + j, a.strides)]
  {
    SliceShape(a, idx);
    LeadBlock(a, idx);
    var r := Slice(a, idx).value;
    forall j: seq<nat> | InBounds(j, r.shape)
      ensures 0 <= Offset(j, r.strides) < |r.buffer|
      ensures 0 <= Offset(idx + j, a.strides) < |a.buffer|
      ensures r.buffer[Offset(j, r.strides)] == a.buffer[Offset(idx + j, a.strides)]
    {
      SliceSelectsAt(a, idx, j, a.shape[|idx|..], LeadOffset(a, idx), r);
    }
  }

  lemma SliceSelectsAt(a: NdArray, idx: seq<nat>, j: seq<nat>, rest: seq<nat>, off: nat, r: NdArray)
    requires Contiguous(a) && LeadInBounds(idx, a.shape) && rest == a.shape[|idx|..] && InBounds(j, rest)
    requires off == LeadOffset(a, idx) && 0 <= Product(rest) && off + Product(rest) <= |a.buffer|
    requires r.strides == Strides(rest) && r.buffer == a.buffer[off..off + Product(rest)]
    ensures 0 <= Offset(j, r.strides) < |r.buffer|
    ensures 0 <= Offset(idx + j, a.strides) < |a.buffer|
    ensures r.buffer[Offset(j, r.strides)] == a.buffer[Offset(idx + j, a.strides)]
  {
    LeadBlockAt(a, idx, j);
    SubrangeAt(a.buffer, off, Product(rest), Offset(j, Strides(rest)));
  }

  lemma SubrangeAt(s: seq<real>, off: nat, len: nat, o: int)
    requires 0 <= o < len && off + len <= |s|
    ensures s[off..off + len][o] == s[off + o]
  {
  }

  /** `NdArray::set`: a copy of the array whose block at the leading indexes
      is overwritten by the value's buffer; the value must have as many
      cells as the block. */
  function Set(a: NdArray, idx: seq<nat>, value: NdArray): Result<NdArray>
  {
    if |idx| > |a.shape| then Failure("assertion failed: indexes.len() <= self.shape.len()")
    else
      var remaining := a.shape[|idx|..];
      ProductNonNeg(remaining);
      var off := LeadOffset(a, idx);
      if Product(remaining) != Product(value.shape) then Failure("assertion `left == right` failed")
      else if off + Product(remaining) > |a.buffer| then Failure("range end index out of range for slice")
      else if |value.buffer| != Product(remaining) then Failure("destination and source slices have different lengths")
      else Success(NdArray(a.buffer[..off] + value.buffer + a.buffer[off + Product(remaining)..], a.strides, a.shape))
  }

  /** Writing a value whose shape has as many cells as the block and reading
      the block back gives the value's cells; the rest of the buffer, the
      shape and the strides are kept. */
  lemma SetThenSlice(a: NdArray, idx: seq<nat>, value: NdArray)
    requires Contiguous(a) && LeadInBounds(idx, a.shape)
    requires Product(value.shape) == Product(a.shape[|idx|..]) && |value.buffer| == Product(value.shape)
    ensures Set(a, idx, value).Success?
    ensures var b := Set(a, idx, value).value;
      && b.shape == a.shape && b.strides == a.strides && |b.buffer| == |a.buffer|
      && Slice(b, idx) == Success(From(value.buffer, Some(a.shape[|idx|..]), None))
      && forall k :: 0 <= k < |a.buffer| && !(LeadOffset(a, idx) <= k < LeadOffset(a, idx) + |value.buffer|) ==>
           b.buffer[k] == a.buffer[k]
  {
    LeadBlock(a, idx);
    var off := LeadOffset(a, idx);
    var n := |value.buffer|;
    var b := Set(a, idx, value).value;
    assert LeadOffset(b, idx) == off;
    assert b.buffer[off..off + n] == value.buffer;
  }

  /** Writing back the block just read leaves the array as it was. */
  lemma SliceThenSet(a: NdArray, idx: seq<nat>)
    requires Contiguous(a) && LeadInBounds(idx, a.shape)
    ensures Slice(a, idx).Success?
    ensures Set(a, idx, Slice(a, idx).value) == Success(a)
  {
    LeadBlock(a, idx);
    var off := LeadOffset(a, idx);
    var end := off + Product(a.shape[|idx|..]);
    assert a.buffer[..off] + a.buffer[off..end] + a.buffer[end..] == a.buffer;
  }

  /** `concat`: the buffers one after the other and the first extent summed;
      the strides are those of `a`.  An array without axes panics. */
  function Concat(a: NdArray, b: NdArray): Result<NdArray>
  {
    if |a.shape| == 0 || |b.shape| == 0 then Failure("index out of bounds")
    else Success(NdArray(a.buffer + b.buffer, a.strides, [a.shape[0] + b.shape[0]] + a.shape[1..]))
  }

  /** Strides depend only on the extents after the first. */
  lemma StridesIgnoreFirst(s: seq<nat>, t: seq<nat>)
    requires |s| == |t| > 0 && s[1..] == t[1..]
    ensures Strides(s) == Strides(t)
  {
    forall i | 0 <= i < |s|
      ensures Strides(s)[i] == Strides(t)[i]
    {
      assert s[i + 1..] == s[1..][i..];
      assert t[i + 1..] == t[1..][i..];
    }
  }

  /** The offset of one leading index. */
  lemma LeadOffsetOne(a: NdArray, i: nat)
    requires |a.strides| > 0
    ensures LeadOffset(a, [i]) == i * a.strides[0]
  {
    assert [i][..0] == [] && [a.strides[0]][..0] == [];
    assert Offset([i], [a.strides[0]]) == i * a.strides[0];
    assert [i][..1] == [i] && a.strides[..1] == [a.strides[0]];
  }

  /** Concatenating two contiguous arrays whose axes after the first agree
      gives a contiguous array with the first extents summed. */
  lemma ConcatContiguous(a: NdArray, b: NdArray)
    requires Contiguous(a) && Contiguous(b) && |a.shape| > 0 && |b.shape| > 0 && a.shape[1..] == b.shape[1..]
    ensures Concat(a, b).Success?
    ensures var c := Concat(a, b).value;
      && Contiguous(c) && c.shape[0] == a.shape[0] + b.shape[0] && c.shape[1..] == a.shape[1..]
      && c.strides[0] == a.strides[0] == b.strides[0] == Product(a.shape[1..])
  {
    var c := Concat(a, b).value;
    var rest := a.shape[1..];
    var p := Product(rest);
    StridesIgnoreFirst(c.shape, a.shape);
    StridesIgnoreFirst(b.shape, a.shape);
    assert c.shape[1..] == rest;
    assert (a.shape[0] + b.shape[0]) * p == a.shape[0] * p + b.shape[0] * p;
    StridesRowMajor(a.shape);
  }

  /** The slice at one leading index of a contiguous array: the i-th block
      of `Product(shape[1..])` cells. */
  lemma SliceOne(a: NdArray, i: nat, lo: int)
    requires Contiguous(a) && |a.shape| > 0 && i < a.shape[0] && lo == i * Product(a.shape[1..])
    ensures 0 <= lo && lo + Product(a.shape[1..]) <= |a.buffer|
    ensures Slice(a, [i]) == Success(From(a.buffer[lo..lo + Product(a.shape[1..])], Some(a.shape[1..]), None))
  {
    var p := Product(a.shape[1..]);
    ProductNonNeg(a.shape[1..]);
    StridesRowMajor(a.shape);
    LeadOffsetOne(a, i);
    MulLeq(i + 1, a.shape[0], p);
    assert a.shape[0] * p == |a.buffer|;
  }

  /** A slice of a concatenation from its first part. */
  lemma ConcatSliceFront(a: NdArray, b: NdArray, i: nat)
    requires Contiguous(a) && Contiguous(b) && |a.shape| > 0 && |b.shape| > 0 && a.shape[1..] == b.shape[1..]
    requires i < a.shape[0]
    ensures Concat(a, b).Success? && Slice(Concat(a, b).value, [i]) == Slice(a, [i])
  {
    ConcatContiguous(a, b);
    var c := Concat(a, b).value;
    var p := Product(a.shape[1..]);
    assert c.shape[1..] == a.shape[1..];
    SliceOne(c, i, i * p);
    SliceOne(a, i, i * p);
    assert c.buffer[i * p..i * p + p] == a.buffer[i * p..i * p + p];
  }

  lemma MulAdd(x: int, y: int, p: int)
    ensures (x + y) * p == x * p + y * p
  {
  }

  lemma SliceOfConcat<T>(x: seq<T>, y: seq<T>, lo: int, p: int)
    requires 0 <= lo && 0 <= p && lo + p <= |y|
    ensures (x + y)[|x| + lo..|x| + lo + p] == y[lo..lo + p]
  {
  }

  /** A slice of a concatenation from its second part. */
  lemma ConcatSliceBack(a: NdArray, b: NdArray, i: nat)
    requires Contiguous(a) && Contiguous(b) && |a.shape| > 0 && |b.shape| > 0 && a.shape[1..] == b.shape[1..]
    requires a.shape[0] <= i < a.shape[0] + b.shape[0]
    ensures Concat(a, b).Success? && Slice(Concat(a, b).value, [i]) == Slice(b, [i - a.shape[0]])
  {
    ConcatContiguous(a, b);
    var c := Concat(a, b).value;
    var p := Product(a.shape[1..]);
    var j := i - a.shape[0];
    var off, lo := a.shape[0] * p, j * p;
    assert c.shape[1..] == a.shape[1..];
    MulAdd(a.shape[0], j, p);
    SliceOne(c, i, off + lo);
    SliceOne(b, j, lo);
    assert c.buffer == a.buffer + b.buffer && |a.buffer| == off;
    SliceOfConcat(a.buffer, b.buffer, lo, p);
    assert c.buffer[off + lo..off + lo + p] == b.buffer[lo..lo + p];
    assert c.shape[1..] == b.shape[1..];
  }

  /** Concatenation stacks: the first `a.shape[0]` slices of the result are
      those of `a` and the following ones those of `b`. */
  lemma ConcatStacks(a: NdArray, b: NdArray)
    requires Contiguous(a) && Contiguous(b) && |a.shape| > 0 && |b.shape| > 0 && a.shape[1..] == b.shape[1..]
    ensures Concat(a, b).Success?
    ensures var c := Concat(a, b).value;
      && (forall i: nat :: i < a.shape[0] ==> Slice(c, [i]) == Slice(a, [i]))
      && (forall i: nat :: a.shape[0] <= i < c.shape[0] ==> Slice(c, [i]) == Slice(b, [i - a.shape[0]]))
  {
    ConcatContiguous(a, b);
    var c := Concat(a, b).value;
    forall i: nat | i < c.shape[0]
      ensures i < a.shape[0] ==> Slice(c, [i]) == Slice(a, [i])
      ensures a.shape[0] <= i ==> Slice(c, [i]) == Slice(b, [i - a.shape[0]])
    {
      if i < a.shape[0] {
        ConcatSliceFront(a, b, i);
      } else {
        ConcatSliceBack(a, b, i);
      }
    }
  }

  /** Product and strides of a three-axis shape. */
  lemma Shape3(p: nat, q: nat, r: nat)
    ensures Product([p, q, r]) == p * q * r && Strides([p, q, r]) == [q * r, r, 1]
  {
    var s: seq<int> := [p, q, r];
    assert s[1..] == [q, r] && s[2..] == [r] && s[3..] == [];
    ProductExample([q, r]);
    assert Product(s) == p * (q * r);
  }

  /** The crate's slice test, first step: `arange(0, 12)` reshaped to
      [2, 3, 2] is the contiguous array of the values 0 to 11. */
  lemma ArangeReshapeExample()
    ensures Arange(0, 12, None).Success?
    ensures ReshapeFixed(Arange(0, 12, None).value, [2, 3, 2])
         == Success(NdArray(seq(12, i => i as real), [6, 2, 1], [2, 3, 2]))
  {
    SteppedValues(0, 12, 1);
    var r := Stepped(0, 12, 1);
    assert |r| == 12;
    assert r == seq(12, i => i as real);
    var req: seq<I32> := [2, 3, 2];
    assert req[1..] == [3, 2] && req[1..][1..] == [2] && req[1..][1..][1..] == [];
    assert NonPositiveCount(req) == 0;
    assert FillUnknown(req, 0) == [2, 3, 2];
    Shape3(2, 3, 2);
  }

  /** The crate's slice test: slice [1] of that array holds 6 to 11 as 3x2,
      and writing zeros at [0] clears the first six cells. */
  lemma SliceSetExample(a: NdArray, z: NdArray)
    requires a == NdArray(seq(12, i => i as real), [6, 2, 1], [2, 3, 2])
    requires z == Zeros([3, 2])
    ensures Slice(a, [1]) == Success(NdArray([6.0, 7.0, 8.0, 9.0, 10.0, 11.0], [2, 1], [3, 2]))
    ensures Set(a, [0], z)
         == Success(NdArray([0.0, 0.0, 0.0, 0.0, 0.0, 0.0, 6.0, 7.0, 8.0, 9.0, 10.0, 11.0], [6, 2, 1], [2, 3, 2]))
  {
    Shape3(2, 3, 2);
    Shape2(3, 2);
    assert a.shape[1..] == [3, 2];
    LeadOffsetOne(a, 1);
    LeadOffsetOne(a, 0);
    assert a.buffer[6..12] == [6.0, 7.0, 8.0, 9.0, 10.0, 11.0];
    assert z.buffer == [0.0, 0.0, 0.0, 0.0, 0.0, 0.0];
    assert a.buffer[..0] + z.buffer + a.buffer[6..]
        == [0.0, 0.0, 0.0, 0.0, 0.0, 0.0, 6.0, 7.0, 8.0, 9.0, 10.0, 11.0];
  }

  /** The crate's concat test: ones and zeros of shape [2, 3] stack to shape
      [4, 3], six ones then six zeros. */
  lemma ConcatExample(a: NdArray, b: NdArray)
    requires a == Ones([2, 3]) && b == Zeros([2, 3])
    ensures Concat(a, b).Success?
    ensures Concat(a, b).value.shape == [4, 3]
    ensures Concat(a, b).value.buffer == [1.0, 1.0, 1.0, 1.0, 1.0, 1.0, 0.0, 0.0, 0.0, 0.0, 0.0, 0.0]
  {
    Shape2(2, 3);
    assert a.buffer == [1.0, 1.0, 1.0, 1.0, 1.0, 1.0];
    assert b.buffer == [0.0, 0.0, 0.0, 0.0, 0.0, 0.0];
  }
}
