/** The array operations of `packages/ndarray-js/src/ops`: `matmul` (through
    the WebAssembly kernel of `packages/matops`, with a loop fallback),
    `concat` along the first axis, `argmax`, and the element-wise `dot`,
    `mul`, `sub` and `relu`. Every operation but `matmul` reads the raw
    `buffer` of its operands. */
module JsOps {
  import opened Wrappers
  import opened IndexMath
  import opened JsDType
  import opened JsLib
  import opened JsNdArray
  import Linalg
  import Matops

  /* ---------------------------------------------------------------------- */
  /* matmul                                                                   */

  const RankError := "matmul only support 2D matrix"
  const DTypeMismatch := "data type mismatch"
  /** The head of `Unsupported dtype: ${dtype}`. */
  const UnsupportedDType := "Unsupported dtype"

  /** A shape without negative sizes, as the unsigned sizes the kernel takes. */
  function Unsigned(s: seq<int>): (r: seq<nat>)
    requires NonNeg(s)
    ensures r == s
  {
    seq(|s|, i requires 0 <= i < |s| => s[i] as nat)
  }

  /** `wasm_procedure`: the dtypes must agree and have a kernel (every dtype
      but `bool`); the kernel is the generic `matmul` of `packages/matops`,
      which succeeds only on two matrices. */
  function WasmProcedure(a: seq<real>, ashape: seq<nat>, adtype: DType,
                         b: seq<real>, bshape: seq<nat>, bdtype: DType): (r: Result<seq<real>>)
    ensures r.Success? ==> adtype == bdtype != Bool && |ashape| == 2 && |bshape| == 2
    ensures r.Success? ==> Linalg.IsProduct(r.value, a, b, ashape[0], ashape[1], bshape[1])
  {
    Matops.MatmulSound(a, ashape, b, bshape);
    if adtype != bdtype then Failure(DTypeMismatch)
    else if adtype == Bool then Failure(UnsupportedDType)
    else Matops.MatmulSpec(a, ashape, b, bshape)
  }

  /** `matmul(a, b)`: the rank check only rejects a pair where neither
      operand is a matrix; both operands are materialised with `value` and
      handed to the kernel, and the kernel's typed array (of `a`'s class,
      which reads back as `a`'s dtype) becomes a `[a.shape[0], b.shape[1]]`
      view. */
  function Matmul(a: NdArray, b: NdArray): Result<NdArray>
    requires WellFormed(a) && WellFormed(b) && NonNeg(a.shape) && NonNeg(b.shape)
  {
    if |a.shape| != 2 && |b.shape| != 2 then Failure(RankError)
    else
      var res :- WasmProcedure(ValueOf(a), Unsigned(a.shape), a.dtype, ValueOf(b), Unsigned(b.shape), b.dtype);
      var shape := [a.shape[0], b.shape[1]];
      Success(NdArray(res, a.dtype, shape, Strides(shape), false))
  }

  /** `matmul` fails exactly when neither operand is a matrix, the dtypes
      differ or are `bool`, one operand is not a matrix, or a non-empty
      product would read past a materialised operand; otherwise the result
      is the contiguous `m × n` product of the operands' values. */
  lemma MatmulSound(a: NdArray, b: NdArray)
    requires WellFormed(a) && WellFormed(b) && NonNeg(a.shape) && NonNeg(b.shape)
    ensures Matmul(a, b).Failure? && |a.shape| != 2 && |b.shape| != 2 ==> Matmul(a, b).error == RankError
    ensures (|a.shape| == 2 || |b.shape| == 2) && a.dtype != b.dtype ==> Matmul(a, b) == Failure(DTypeMismatch)
    ensures Matmul(a, b).Success? <==>
      && |a.shape| == 2 && |b.shape| == 2 && a.dtype == b.dtype != Bool
      && (a.shape[0] == 0 || b.shape[1] == 0
          || (a.shape[0] * a.shape[1] <= |a.buffer| && a.shape[1] * b.shape[1] <= |b.buffer|))
    ensures Matmul(a, b).Success? ==>
      var r := Matmul(a, b).value;
      && r.shape == [a.shape[0], b.shape[1]] && r.strides == Strides(r.shape)
      && r.dtype == a.dtype && !r.discontinuous
      && Linalg.IsProduct(r.buffer, ValueOf(a), ValueOf(b), a.shape[0], a.shape[1], b.shape[1])
  {
    Matops.MatmulSound(ValueOf(a), Unsigned(a.shape), ValueOf(b), Unsigned(b.shape));
  }

  /** What the loop after `if (WASM)` computes (the constant `WASM = true`
      never lets it run): reads past a materialised operand are 0, so the
      product is that of the operands padded with zeros, and the result's
      dtype is the one its typed array reads back as. */
  function LoopSpec(a: NdArray, b: NdArray): NdArray
    requires WellFormed(a) && WellFormed(b) && NonNeg(a.shape) && NonNeg(b.shape)
    requires |a.shape| == 2 && |b.shape| == 2
  {
    var m, k, n := a.shape[0], a.shape[1], b.shape[1];
    var cells := Linalg.MatProd(Fill(ValueOf(a), m * k), Fill(ValueOf(b), k * n), m, k, n);
    NdArray(cells, GetDType(ArrayConstructor(a.dtype)).value, [m, n], Strides([m, n]), false)
  }

  /** The loop fallback: `res[cnt++]` receives, row by row and column by
      column, the sum over `k` of `bufferA[i*K + k] * bufferB[k*N + j]`. */
  method MatmulLoop(a: NdArray, b: NdArray) returns (r: NdArray)
    requires WellFormed(a) && WellFormed(b) && NonNeg(a.shape) && NonNeg(b.shape)
    requires |a.shape| == 2 && |b.shape| == 2
    ensures r == LoopSpec(a, b)
  {
    var m: nat, k: nat, n: nat := a.shape[0], a.shape[1], b.shape[1];
    var res := new real[m * n](_ => 0.0);
    var bufferA := JsNdArray.Value(a);
    var bufferB := JsNdArray.Value(b);
    ghost var pa, pb := Fill(bufferA, m * k), Fill(bufferB, k * n);
    Linalg.MatProdLength(pa, pb, m, k, n);
    var cnt := 0;
    for i := 0 to m
      invariant cnt == i * n <= m * n
      invariant res[..cnt] == Linalg.MatProd(pa, pb, i, k, n)
    {
      cnt := WriteRow(res, bufferA, bufferB, m, k, n, i, cnt);
    }
    assert res[..] == res[..cnt];
    r := NdArray(res[..], GetDType(ArrayConstructor(a.dtype)).value, [m, n], Strides([m, n]), false);
  }

  /** The inner loop for row `i`: `res[cnt++]` receives each column's sum,
      which extends the rows written so far by row `i` of the product. */
  method WriteRow(res: array<real>, bufferA: seq<real>, bufferB: seq<real>, m: nat, k: nat, n: nat, i: nat, cnt: nat)
    returns (next: nat)
    requires res.Length == m * n && i < m && cnt == i * n
    requires res[..cnt] == Linalg.MatProd(Fill(bufferA, m * k), Fill(bufferB, k * n), i, k, n)
    modifies res
    ensures next == (i + 1) * n <= m * n
    ensures res[..next] == Linalg.MatProd(Fill(bufferA, m * k), Fill(bufferB, k * n), i + 1, k, n)
  {
    ghost var pa, pb := Fill(bufferA, m * k), Fill(bufferB, k * n);
    FillPads(bufferA, m * k);
    FillPads(bufferB, k * n);
    Linalg.RowFits(i, m, k);
    Linalg.RowFits(i, m, n);
    next := cnt;
    for j := 0 to n
      invariant next == i * n + j && i * n + n <= m * n
      invariant res[..next] == Linalg.MatProd(pa, pb, i, k, n) + Linalg.ProductRow(pa, pb, k, n, i)[..j]
    {
      var sum := RowColumnSum(bufferA, bufferB, pa, pb, m, k, n, i, j);
      res[next] := sum;
      assert res[..next + 1] == res[..next] + [sum];
      assert Linalg.ProductRow(pa, pb, k, n, i)[..j + 1] == Linalg.ProductRow(pa, pb, k, n, i)[..j] + [sum];
      next := next + 1;
    }
    assert Linalg.ProductRow(pa, pb, k, n, i)[..n] == Linalg.ProductRow(pa, pb, k, n, i);
    Linalg.ProductStep(i, n);
    Linalg.ProductStep(i, k);
  }

  /** `range(K).map(k => bufferA[i*K + k] * bufferB[k*N + j]).reduce(+, 0)`,
      a read past either buffer being 0. */
  method RowColumnSum(bufferA: seq<real>, bufferB: seq<real>, ghost pa: seq<real>, ghost pb: seq<real>,
                      m: nat, k: nat, n: nat, i: nat, j: nat)
    returns (sum: real)
    requires |pa| == m * k && |pb| == k * n && Pads(pa, bufferA) && Pads(pb, bufferB)
    requires i < m && j < n
    ensures i * k + k <= |pa|
    ensures sum == Linalg.Dot(Linalg.MatRow(pa, k, i), Linalg.MatColumn(pb, k, n, j))
  {
    Linalg.RowFits(i, m, k);
    sum := 0.0;
    for t := 0 to k
      invariant sum == Linalg.Dot(Linalg.MatRow(pa, k, i)[..t], Linalg.MatColumn(pb, k, n, j)[..t])
    {
      var x, y := At(bufferA, i * k + t), At(bufferB, t * n + j);
      PaddedEntry(bufferA, bufferB, pa, pb, m, k, n, i, j, t, x, y);
      sum := sum + x * y;
    }
    assert Linalg.MatRow(pa, k, i)[..k] == Linalg.MatRow(pa, k, i);
    assert Linalg.MatColumn(pb, k, n, j)[..k] == Linalg.MatColumn(pb, k, n, j);
  }

  /** One more term of the sum, read from the unpadded buffers. */
  lemma PaddedEntry(bufferA: seq<real>, bufferB: seq<real>, pa: seq<real>, pb: seq<real>,
                    m: nat, k: nat, n: nat, i: nat, j: nat, t: nat, x: real, y: real)
    requires |pa| == m * k && |pb| == k * n && Pads(pa, bufferA) && Pads(pb, bufferB)
    requires i < m && j < n && t < k
    requires x == At(bufferA, i * k + t) && y == At(bufferB, t * n + j)
    ensures i * k + k <= |pa|
    ensures Linalg.Dot(Linalg.MatRow(pa, k, i)[..t + 1], Linalg.MatColumn(pb, k, n, j)[..t + 1])
         == Linalg.Dot(Linalg.MatRow(pa, k, i)[..t], Linalg.MatColumn(pb, k, n, j)[..t]) + x * y
  {
    var p, q := Linalg.MatProdEntryIndexes(pa, pb, m, k, n, i, j, t);
    assert pa[p] == x && pb[q] == y;
    Linalg.MatProdEntryOf(pa, pb, k, n, i, j, t, x, y);
  }

  /** Every cell of `padded` is the read of `buf` at that position. */
  predicate Pads(padded: seq<real>, buf: seq<real>)
  {
    forall p :: 0 <= p < |padded| ==> padded[p] == At(buf, p)
  }

  /** A zero-padded buffer pads the original. */
  lemma FillPads(buf: seq<real>, n: nat)
    ensures Pads(Fill(buf, n), buf)
  {
  }

  /** Where the kernel succeeds, the loop fallback computes the same view:
      it only pads reads the kernel never makes. */
  lemma LoopAgrees(a: NdArray, b: NdArray)
    requires WellFormed(a) && WellFormed(b) && NonNeg(a.shape) && NonNeg(b.shape)
    requires |a.shape| == 2 && |b.shape| == 2 && Matmul(a, b).Success?
    ensures Matmul(a, b).value == LoopSpec(a, b)
  {
    MatmulSound(a, b);
    GetDTypeInverts(a.dtype);
    var m, k, n := a.shape[0], a.shape[1], b.shape[1];
    var va, vb := ValueOf(a), ValueOf(b);
    var pa, pb := Fill(va, m * k), Fill(vb, k * n);
    Linalg.MatProdLength(pa, pb, m, k, n);
    if m > 0 && n > 0 {
      assert va[..m * k] == pa[..m * k];
      assert vb[..k * n] == pb[..k * n];
      Linalg.MatProdPrefix(va, pa, vb, pb, m, k, n);
      Linalg.MatProdIsProduct(va, vb, m, k, n);
      ProductUnique(Matmul(a, b).value.buffer, Linalg.MatProd(va, vb, m, k, n), va, vb, m, k, n);
    }
  }

  /** Two products of the same operands are equal. */
  lemma ProductUnique(c: seq<real>, d: seq<real>, a: seq<real>, b: seq<real>, m: nat, k: nat, n: nat)
    requires Linalg.IsProduct(c, a, b, m, k, n) && Linalg.IsProduct(d, a, b, m, k, n)
    ensures c == d
  {
    forall p | 0 <= p < |c|
      ensures c[p] == d[p]
    {
      var i, j := p / n, p % n;
      assert p == i * n + j;
      Linalg.ProductBelow(0, 1, 1, 0);
      assert i < m by {
        if i >= m {
          MulLeq(m, i, n);
        }
      }
      assert Linalg.IsEntry(c, a, b, k, n, i, j) && Linalg.IsEntry(d, a, b, k, n, i, j);
    }
  }

  /** The package test's product `[[1, 2, 3], [2, 3, 4]] × its transpose`: the
      transposed operand is materialised before the kernel reads it. */
  lemma MatmulExample(a: NdArray)
    requires a == NdArray([1.0, 2.0, 3.0, 2.0, 3.0, 4.0], Float32, [2, 3], [3, 1], false)
    ensures Matmul(a, T(a)) == Success(NdArray([14.0, 20.0, 20.0, 29.0], Float32, [2, 2], [2, 1], false))
    ensures ToArray(Matmul(a, T(a)).value) == List([List([Num(14.0), Num(20.0)]), List([Num(20.0), Num(29.0)])])
  {
    var va, vt := MatmulExampleOperands(a);
    Linalg.MatProd2x3x2(va, vt, 2, 3, 2);
    Shape2(2, 2);
    var sa, st := Unsigned(a.shape), Unsigned(T(a).shape);
    assert Matops.MatmulSpec(va, sa, vt, st) == Success(Linalg.MatProd(va, vt, 2, 3, 2));
    ReadRows22([14.0, 20.0, 20.0, 29.0]);
  }

  /** The values the kernel receives in the package test's product. */
  lemma MatmulExampleOperands(a: NdArray) returns (va: seq<real>, vt: seq<real>)
    requires a == NdArray([1.0, 2.0, 3.0, 2.0, 3.0, 4.0], Float32, [2, 3], [3, 1], false)
    ensures T(a).shape == [3, 2] && T(a).dtype == Float32
    ensures va == ValueOf(a) == [1.0, 2.0, 3.0, 2.0, 3.0, 4.0]
    ensures vt == ValueOf(T(a)) == [1.0, 2.0, 2.0, 3.0, 3.0, 4.0]
  {
    Shape2(2, 3);
    assert Contiguous(a);
    ValueOfContiguous(a);
    TransposeValue23(a);
    assert ReversedAxes(2) == [1, 0];
    va, vt := ValueOf(a), ValueOf(T(a));
  }

  lemma ReadRows22(buf: seq<real>)
    requires |buf| == 4
    ensures ToArrayFrom(buf, [2, 2], [2, 1], 0)
         == List([List([Num(buf[0]), Num(buf[1])]), List([Num(buf[2]), Num(buf[3])])])
  {
    var s: seq<int> := [2, 2];
    var st: seq<int> := [2, 1];
    assert s[1..] == [2] && st[1..] == [1];
    var rows := ToArrayFrom(buf, s, st, 0).items;
    ReadPair(buf, 0);
    ReadPair(buf, 2);
    assert rows == [ToArrayFrom(buf, [2], [1], 0), ToArrayFrom(buf, [2], [1], 2)];
  }

  lemma ReadPair(buf: seq<real>, o: nat)
    requires o + 1 < |buf|
    ensures ToArrayFrom(buf, [2], [1], o) == List([Num(buf[o]), Num(buf[o + 1])])
  {
    var cells := ToArrayFrom(buf, [2], [1], o).items;
    assert |cells| == 2 && cells[0] == Num(buf[o]) && cells[1] == Num(buf[o + 1]);
    assert cells == [Num(buf[o]), Num(buf[o + 1])];
  }

  /* ---------------------------------------------------------------------- */
  /* concat                                                                   */

  /** `args[0]!.shape` with no argument. */
  const UndefinedShape := "Cannot read properties of undefined (reading 'shape')"
  /** `buf.set(b.buffer, offset)` past the end of `buf`. */
  const OffsetOutOfBounds := "offset is out of bounds"

  /** The arguments' buffers, one after the other. */
  function Buffers(args: seq<NdArray>): seq<real>
  {
    if |args| == 0 then [] else Buffers(args[..|args| - 1]) + args[|args| - 1].buffer
  }

  /** The sum of the arguments' first sizes. */
  function Rows(args: seq<NdArray>): int
    requires forall i :: 0 <= i < |args| ==> |args[i].shape| > 0
  {
    if |args| == 0 then 0 else Rows(args[..|args| - 1]) + args[|args| - 1].shape[0]
  }

  /** Every argument has a first axis to add up. */
  predicate Ranked(args: seq<NdArray>)
  {
    forall i :: 0 <= i < |args| ==> |args[i].shape| > 0
  }

  /** `concat(...args)`: the first argument's shape with the first sizes
      summed, and `args[0]`'s dtype; a zeroed buffer of that many cells
      receives the raw buffers in argument order. */
  function ConcatSpec(args: seq<NdArray>): Result<NdArray>
    requires Ranked(args)
  {
    if |args| == 0 then Failure(UndefinedShape)
    else
      var shape := [Rows(args)] + args[0].shape[1..];
      var size := Product(shape);
      if size < 0 then Failure(InvalidLength)
      else if |Buffers(args)| > size then Failure(OffsetOutOfBounds)
      else Success(NdArray(Fill(Buffers(args), size), args[0].dtype, shape, Strides(shape), false))
  }

  method Concat(args: seq<NdArray>) returns (r: Result<NdArray>)
    requires Ranked(args)
    ensures r == ConcatSpec(args)
  {
    if |args| == 0 {
      return Failure(UndefinedShape);
    }
    var rows := args[0].shape[0];
    for i := 1 to |args|
      invariant rows == Rows(args[..i])
    {
      assert args[..i + 1][..i] == args[..i];
      rows := rows + args[i].shape[0];
    }
    assert args[..|args|] == args;
    var shape := [rows] + args[0].shape[1..];
    var size := Product(shape);
    if size < 0 {
      return Failure(InvalidLength);
    }
    var buf := new real[size](_ => 0.0);
    var offset := 0;
    for i := 0 to |args|
      invariant offset == |Buffers(args[..i])| <= size
      invariant buf[..] == Fill(Buffers(args[..i]), size)
    {
      assert args[..i + 1][..i] == args[..i];
      var b := args[i].buffer;
      if offset + |b| > size {
        BuffersGrow(args, i + 1);
        return Failure(OffsetOutOfBounds);
      }
      Set(buf, b, offset);
      FillThenWrite(Buffers(args[..i]), b, size);
      offset := offset + |b|;
    }
    return Success(NdArray(buf[..], args[0].dtype, shape, Strides(shape), false));
  }

  /** `buf.set(src, offset)` for a source that fits. */
  method Set(buf: array<real>, src: seq<real>, offset: nat)
    requires offset + |src| <= buf.Length
    modifies buf
    ensures buf[..] == Write(old(buf[..]), offset, src)
  {
    ghost var start := buf[..];
    for k := 0 to |src|
      invariant buf[..] == Write(start, offset, src[..k])
    {
      buf[offset + k] := src[k];
    }
    assert src[..|src|] == src;
  }

  /** Writing the next buffer after the ones already copied extends the
      copied prefix. */
  lemma FillThenWrite(x: seq<real>, y: seq<real>, n: nat)
    requires |x| + |y| <= n
    ensures Write(Fill(x, n), |x|, y) == Fill(x + y, n)
  {
  }

  /** The buffers of a prefix of the arguments are a prefix of all of them. */
  lemma {:induction false} BuffersGrow(args: seq<NdArray>, i: nat)
    requires i <= |args|
    ensures |Buffers(args[..i])| <= |Buffers(args)|
    decreases |args|
  {
    if i < |args| {
      assert args[..|args| - 1][..i] == args[..i];
      BuffersGrow(args[..|args| - 1], i);
    } else {
      assert args[..i] == args;
    }
  }

  /** Arguments that are contiguous views with the same trailing sizes
      `rest`. */
  predicate Stackable(args: seq<NdArray>, rest: seq<int>)
  {
    forall i :: 0 <= i < |args| ==> Contiguous(args[i]) && args[i].shape[1..] == rest
  }

  /** Stacked contiguous views hold `Rows × product(rest)` cells, as many as
      their concatenation's shape. */
  lemma {:induction false} BuffersLength(args: seq<NdArray>, rest: seq<int>)
    requires Stackable(args, rest)
    ensures Ranked(args) && Rows(args) >= 0
    ensures |Buffers(args)| == Rows(args) * Product(rest)
    decreases |args|
  {
    if |args| > 0 {
      var last := args[|args| - 1];
      var front := args[..|args| - 1];
      assert Stackable(front, rest);
      BuffersLength(front, rest);
      var x, y, p := Rows(front), last.shape[0], Product(rest);
      assert Product(last.shape) == y * p;
      MulSucc(x + 1, 0);
      AddRows(x, y, p);
    }
  }

  lemma AddRows(x: int, y: int, p: int)
    ensures (x + y) * p == x * p + y * p
  {
  }

  /** Concatenating stacked contiguous views succeeds and yields a
      contiguous view whose buffer is their buffers, one after the other. */
  lemma ConcatOfContiguous(args: seq<NdArray>, rest: seq<int>)
    requires |args| > 0 && Stackable(args, rest)
    ensures Ranked(args) && ConcatSpec(args).Success?
    ensures ConcatSpec(args).value.buffer == Buffers(args)
    ensures ConcatSpec(args).value.shape == [Rows(args)] + rest
    ensures ConcatSpec(args).value.dtype == args[0].dtype
    ensures Contiguous(ConcatSpec(args).value)
  {
    BuffersLength(args, rest);
    var shape := [Rows(args)] + args[0].shape[1..];
    assert Product(shape) == Rows(args) * Product(rest);
    assert Fill(Buffers(args), |Buffers(args)|) == Buffers(args);
    assert Contiguous(args[0]);
    RowsFirst(Rows(args), args[0].shape);
  }

  /** A shape with its first size replaced by another size is still a
      shape. */
  lemma RowsFirst(rows: int, s: seq<int>)
    requires rows >= 0 && |s| > 0 && NonNeg(s)
    ensures NonNeg([rows] + s[1..])
  {
    var t := [rows] + s[1..];
    forall a | 0 <= a < |t| ensures t[a] >= 0 {
      if a > 0 {
        assert t[a] == s[a];
      }
    }
  }

  /** Each argument comes back out of the concatenation: argument `i`
      occupies the cells after those of the arguments before it. */
  lemma ConcatBlock(args: seq<NdArray>, rest: seq<int>, i: nat) returns (lo: nat, hi: nat)
    requires |args| > 0 && Stackable(args, rest) && i < |args|
    ensures Ranked(args) && ConcatSpec(args).Success?
    ensures lo == |Buffers(args[..i])| && hi == lo + |args[i].buffer|
    ensures hi <= |ConcatSpec(args).value.buffer|
    ensures ConcatSpec(args).value.buffer[lo..hi] == args[i].buffer
  {
    ConcatOfContiguous(args, rest);
    lo, hi := |Buffers(args[..i])|, |Buffers(args[..i])| + |args[i].buffer|;
    assert args[..i + 1][..i] == args[..i];
    assert Buffers(args[..i + 1]) == Buffers(args[..i]) + args[i].buffer;
    BuffersGrow(args, i + 1);
    PrefixOfBuffers(args, i + 1);
  }

  /** The buffers of a prefix of the arguments start the buffers of all. */
  lemma {:induction false} PrefixOfBuffers(args: seq<NdArray>, i: nat)
    requires i <= |args|
    ensures |Buffers(args[..i])| <= |Buffers(args)|
    ensures Buffers(args)[..|Buffers(args[..i])|] == Buffers(args[..i])
    decreases |args|
  {
    if i < |args| {
      var front := args[..|args| - 1];
      assert front[..i] == args[..i];
      PrefixOfBuffers(front, i);
    } else {
      assert args[..i] == args;
    }
  }

  /** A single view is copied as its raw buffer under its own shape and
      fresh row-major strides, whatever strides it was read through. */
  lemma ConcatCopiesBuffer(x: NdArray)
    requires |x.shape| > 0 && Product(x.shape) == |x.buffer|
    ensures ConcatSpec([x]) == Success(NdArray(x.buffer, x.dtype, x.shape, Strides(x.shape), false))
  {
    var args := [x];
    assert args[..0] == [];
    assert Buffers(args) == x.buffer;
    assert Rows(args) == x.shape[0];
    assert [x.shape[0]] + x.shape[1..] == x.shape;
    assert Fill(x.buffer, |x.buffer|) == x.buffer;
  }

  /* ---------------------------------------------------------------------- */
  /* argmax                                                                   */

  /** `i` is where `buf` is largest, and every later entry is smaller. */
  predicate IsArgmax(buf: seq<real>, i: nat)
  {
    && i < |buf|
    && (forall j :: 0 <= j < |buf| ==> buf[j] <= buf[i])
    && (forall j :: i < j < |buf| ==> buf[j] < buf[i])
  }

  /** The entry `reduce((a, b) => a[1] > b[1] ? a : b)` holds after the first
      `n` entries: the running entry survives only a strictly smaller one,
      so of equal maxima the last is kept. */
  function Best(buf: seq<real>, n: nat): (r: nat)
    requires 0 < n <= |buf|
    ensures r < n
    ensures forall j :: 0 <= j < n ==> buf[j] <= buf[r]
    ensures forall j :: r < j < n ==> buf[j] < buf[r]
  {
    if n == 1 then 0
    else
      var a := Best(buf, n - 1);
      if buf[a] > buf[n - 1] then a else n - 1
  }

  /** `argmax`: the index `reduce` keeps over the entries of the raw
      buffer; an empty buffer has nothing to seed the reduction with. */
  function Argmax(lhs: NdArray): (r: Result<nat>)
    ensures r.Failure? <==> |lhs.buffer| == 0
    ensures r.Failure? ==> r.error == EmptyReduce
    ensures r.Success? ==> IsArgmax(lhs.buffer, r.value)
  {
    if |lhs.buffer| == 0 then Failure(EmptyReduce) else Success(Best(lhs.buffer, |lhs.buffer|))
  }

  /** There is only one such index: `argmax` returns `i` exactly when `i`
      holds the maximum and nothing after it does. */
  lemma ArgmaxUnique(lhs: NdArray, i: nat)
    ensures Argmax(lhs) == Success(i) <==> IsArgmax(lhs.buffer, i)
  {
    if IsArgmax(lhs.buffer, i) {
      var r := Argmax(lhs).value;
      assert lhs.buffer[r] <= lhs.buffer[i] && lhs.buffer[i] <= lhs.buffer[r];
    }
  }

  /** The package test's buffer `[1, 2, 3, 4, 66, 2, 3]` has its maximum at 4; of
      two equal entries the later one is returned. */
  lemma ArgmaxExamples(a: NdArray, b: NdArray)
    requires a.buffer == [1.0, 2.0, 3.0, 4.0, 66.0, 2.0, 3.0] && b.buffer == [5.0, 5.0]
    ensures Argmax(a) == Success(4) && Argmax(b) == Success(1)
  {
    ArgmaxUnique(a, 4);
    ArgmaxUnique(b, 1);
  }

  /* ---------------------------------------------------------------------- */
  /* dot, mul, sub, relu                                                      */

  /** A right-hand side: a number or another array. */
  datatype Operand = ByNumber(x: real) | ByArray(a: NdArray)

  /** A fresh view of `cells` (the result of `lhs.buffer.map(...)`) with
      `lhs`'s shape and row-major strides. The mapped typed array has the
      class of `lhs.buffer`, so its dtype is the one that class reads back
      as: `bool` becomes `uint8`. */
  function Mapped(lhs: NdArray, cells: seq<real>): (r: NdArray)
    ensures r.dtype == (if lhs.dtype == Bool then Uint8 else lhs.dtype)
  {
    GetDTypeInverts(lhs.dtype);
    NdArray(cells, GetDType(ArrayConstructor(lhs.dtype)).value, lhs.shape, Strides(lhs.shape), false)
  }

  /** `dot(lhs, rhs)`: the product of the entries at each position of
      `lhs.buffer` (a position past `rhs.buffer` reads 0). */
  function Dot(lhs: NdArray, rhs: NdArray): NdArray
  {
    Mapped(lhs, seq(|lhs.buffer|, i requires 0 <= i < |lhs.buffer| => lhs.buffer[i] * At(rhs.buffer, i)))
  }

  /** `mul(lhs, rhs)`: every entry times a number, or `dot` with an array. */
  function Mul(lhs: NdArray, rhs: Operand): NdArray
  {
    match rhs
    case ByNumber(x) => Mapped(lhs, seq(|lhs.buffer|, i requires 0 <= i < |lhs.buffer| => lhs.buffer[i] * x))
    case ByArray(b) => Dot(lhs, b)
  }

  /** `sub(lhs, rhs)`: every entry minus a number, or minus the entry at the
      same position of another array. */
  function Sub(lhs: NdArray, rhs: Operand): NdArray
  {
    match rhs
    case ByNumber(x) => Mapped(lhs, seq(|lhs.buffer|, i requires 0 <= i < |lhs.buffer| => lhs.buffer[i] - x))
    case ByArray(b) => Mapped(lhs, seq(|lhs.buffer|, i requires 0 <= i < |lhs.buffer| => lhs.buffer[i] - At(b.buffer, i)))
  }

  /** `Math.max(d, 0)` on every entry. */
  function ReluCells(s: seq<real>): (r: seq<real>)
    ensures |r| == |s|
    ensures forall i :: 0 <= i < |s| ==> r[i] >= 0.0 && r[i] >= s[i]
    ensures forall i :: 0 <= i < |s| ==> (r[i] == s[i] <==> s[i] >= 0.0)
  {
    seq(|s|, i requires 0 <= i < |s| => if s[i] > 0.0 then s[i] else 0.0)
  }

  /** `relu(lhs)`. */
  function Relu(lhs: NdArray): NdArray
  {
    Mapped(lhs, ReluCells(lhs.buffer))
  }

  /** An array of `n` copies of `x`. */
  function Filled(lhs: NdArray, x: real): NdArray
  {
    lhs.(buffer := seq(|lhs.buffer|, _ => x))
  }

  /** The two branches of `mul` and of `sub` agree: a number acts as an
      array holding that number everywhere. */
  lemma NumberIsFilledArray(lhs: NdArray, x: real)
    ensures Mul(lhs, ByNumber(x)) == Mul(lhs, ByArray(Filled(lhs, x)))
    ensures Sub(lhs, ByNumber(x)) == Sub(lhs, ByArray(Filled(lhs, x)))
  {
    var f := Filled(lhs, x);
    var p, q := Mul(lhs, ByNumber(x)).buffer, Mul(lhs, ByArray(f)).buffer;
    forall i | 0 <= i < |p| ensures p[i] == q[i] {
      assert At(f.buffer, i) == x;
    }
    var u, v := Sub(lhs, ByNumber(x)).buffer, Sub(lhs, ByArray(f)).buffer;
    forall i | 0 <= i < |u| ensures u[i] == v[i] {
      assert At(f.buffer, i) == x;
    }
  }

  /** `dot` commutes on buffers of equal length; only the shape and dtype
      come from the left operand. */
  lemma DotCommutes(a: NdArray, b: NdArray)
    requires |a.buffer| == |b.buffer|
    ensures Dot(a, b).buffer == Dot(b, a).buffer
  {
    var p, q := Dot(a, b).buffer, Dot(b, a).buffer;
    forall i | 0 <= i < |p| ensures p[i] == q[i] {
      assert p[i] == a.buffer[i] * b.buffer[i];
    }
  }

  /** Scaling twice is scaling by the product; scaling by 1 keeps every
      entry. */
  lemma MulScalars(a: NdArray, x: real, y: real)
    ensures Mul(Mul(a, ByNumber(x)), ByNumber(y)).buffer == Mul(a, ByNumber(x * y)).buffer
    ensures Mul(a, ByNumber(1.0)).buffer == a.buffer
  {
    var p, q := Mul(Mul(a, ByNumber(x)), ByNumber(y)).buffer, Mul(a, ByNumber(x * y)).buffer;
    forall i | 0 <= i < |p| ensures p[i] == q[i] {
      assert p[i] == (a.buffer[i] * x) * y;
    }
  }

  /** Subtracting twice is subtracting the sum; an array minus itself is
      zero everywhere. */
  lemma SubLaws(a: NdArray, x: real, y: real)
    ensures Sub(Sub(a, ByNumber(x)), ByNumber(y)).buffer == Sub(a, ByNumber(x + y)).buffer
    ensures Sub(a, ByArray(a)).buffer == seq(|a.buffer|, _ => 0.0)
  {
  }

  /** `relu` is idempotent, and it keeps an array unchanged exactly when no
      entry is negative. */
  lemma ReluLaws(a: NdArray)
    ensures Relu(Relu(a)) == Relu(a)
    ensures Relu(a).buffer == a.buffer <==> forall i :: 0 <= i < |a.buffer| ==> a.buffer[i] >= 0.0
  {
    var r := Relu(a);
    assert ReluCells(r.buffer) == r.buffer;
    if forall i :: 0 <= i < |a.buffer| ==> a.buffer[i] >= 0.0 {
      assert ReluCells(a.buffer) == a.buffer;
    }
  }

  /** `relu(x) - relu(-x)` gives back `x`: `relu` keeps the positive part. */
  lemma ReluSplits(a: NdArray)
    ensures Sub(Relu(a), ByArray(Relu(Mul(a, ByNumber(-1.0))))).buffer == a.buffer
  {
  }

  /* ---------------------------------------------------------------------- */
  /* Operating on a view's raw buffer                                         */

  /** `relu` reads the view's logical elements (its `value` when it is
      discontinuous), so the result keeps each element at its logical
      position. */
  function ReluFixed(lhs: NdArray): NdArray
    requires WellFormed(lhs)
  {
    Mapped(lhs, ReluCells(Materialised(lhs)))
  }

  /** On a view holding as many cells as its shape (a contiguous one, or a
      `permute`/`T` of one), the corrected `relu` holds the `relu` of each
      logical element, in row-major order. */
  lemma ReluFixedReadsValue(lhs: NdArray)
    requires WellFormed(lhs) && |lhs.shape| > 0 && NonNeg(lhs.shape) && Product(lhs.shape) == |lhs.buffer|
    requires lhs.discontinuous || lhs.strides == Strides(lhs.shape)
    ensures ValueOf(ReluFixed(lhs)) == ReluCells(ValueOf(lhs))
  {
    if !lhs.discontinuous {
      ValueOfContiguous(lhs);
    }
    ValueOfContiguous(ReluFixed(lhs));
  }

  /** `relu` of the transpose of `[[1, 2, 3], [4, 5, 6]]` as written: the raw
      buffer under the transposed shape, so it reads `[[1, 2], [3, 4], [5, 6]]`
      where the transpose reads `[[1, 4], [2, 5], [3, 6]]`; the corrected
      `relu` keeps the transposed order. */
  lemma ReluOfTranspose(a: NdArray)
    requires Contiguous(a) && a.buffer == [1.0, 2.0, 3.0, 4.0, 5.0, 6.0] && a.shape == [2, 3]
    ensures ValueOf(T(a)) == [1.0, 4.0, 2.0, 5.0, 3.0, 6.0]
    ensures ValueOf(Relu(T(a))) == [1.0, 2.0, 3.0, 4.0, 5.0, 6.0]
    ensures ValueOf(ReluFixed(T(a))) == [1.0, 4.0, 2.0, 5.0, 3.0, 6.0]
  {
    TransposeValue23(a);
    var t := T(a);
    assert ReversedAxes(2) == [1, 0];
    assert t.shape == [3, 2];
    Shape2(3, 2);
    assert ReluCells(t.buffer) == t.buffer;
    ValueOfContiguous(Relu(t));
    ReluFixedReadsValue(t);
    assert ReluCells(ValueOf(t)) == ValueOf(t);
  }
}
