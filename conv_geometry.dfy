/** The output sizes of `packages/common/src/conv.ts`: one extent per input
    axis, `floor((size + 2 * padding - kernel) / stride + 1)` in real
    division, and for the convolutions the output channel count after
    them. */
module ConvGeometry {
  import opened Wrappers

  /* ---------------------------------------------------------------------- */
  /* One extent                                                               */

  /** `Math.floor((size + 2 * padding - kernel) / stride + 1)`. */
  function OutExtent(size: int, kernel: int, stride: int, padding: int): int
    requires stride != 0
  {
    (((size + 2 * padding - kernel) as real) / (stride as real) + 1.0).Floor
  }

  /** The kernel placed at origin `i * stride` ends inside the padded
      axis. */
  predicate KernelFits(i: int, size: int, kernel: int, stride: int, padding: int)
  {
    i * stride + kernel <= size + 2 * padding
  }

  /** With a positive stride the real-division floor is integer division. */
  lemma OutExtentDivision(size: int, kernel: int, stride: int, padding: int)
    requires stride > 0
    ensures OutExtent(size, kernel, stride, padding) == (size + 2 * padding - kernel) / stride + 1
  {
    var x := size + 2 * padding - kernel;
    var q, m := x / stride, x % stride;
    assert x == q * stride + m && 0 <= m < stride;
    var s := stride as real;
    assert (x as real) / s == (q as real) + (m as real) / s;
    FractionBelowOne(m, stride);
    assert (x as real) / s + 1.0 == ((q + 1) as real) + (m as real) / s;
  }

  lemma FractionBelowOne(m: int, s: int)
    requires 0 <= m < s
    ensures 0.0 <= (m as real) / (s as real) < 1.0
  {
    assert (m as real) < (s as real);
  }

  /** With a positive stride the output extent counts the kernel origins
      `0, stride, 2 * stride, ...` that fit in the padded axis: origin `i`
      is counted exactly when the kernel placed there ends inside. */
  lemma OutExtentCountsOrigins(size: int, kernel: int, stride: int, padding: int, i: nat)
    requires stride > 0
    ensures i < OutExtent(size, kernel, stride, padding) <==> KernelFits(i, size, kernel, stride, padding)
  {
    OutExtentDivision(size, kernel, stride, padding);
    var x := size + 2 * padding - kernel;
    var q, m := x / stride, x % stride;
    assert x == q * stride + m;
    if i <= q {
      MulMono(i, q, stride);
    } else {
      MulMono(q + 1, i, stride);
    }
  }

  lemma MulMono(a: int, b: int, s: int)
    requires a <= b && s >= 0
    ensures a * s <= b * s
  {
  }

  /* ---------------------------------------------------------------------- */
  /* getConvSize and getPoolSize                                              */

  /** `getConvSize`: one extent per axis of `size`. */
  function ConvSizeSpec(size: seq<int>, kernelSize: seq<int>, stride: int, padding: int): (r: seq<int>)
    requires stride != 0 && |kernelSize| >= |size|
  {
    seq(|size|, i requires 0 <= i < |size| => OutExtent(size[i], kernelSize[i], stride, padding))
  }

  /** `getConvSize` pushes the extents in a loop. */
  method ConvSize(size: seq<int>, kernelSize: seq<int>, stride: int, padding: int) returns (outSize: seq<int>)
    requires stride != 0 && |kernelSize| >= |size|
    ensures outSize == ConvSizeSpec(size, kernelSize, stride, padding)
  {
    outSize := [];
    for i := 0 to |size|
      invariant outSize == ConvSizeSpec(size[..i], kernelSize, stride, padding)
    {
      outSize := outSize + [OutExtent(size[i], kernelSize[i], stride, padding)];
    }
    assert size[..|size|] == size;
  }

  /** Each extent of `getConvSize` counts the kernel positions that fit on
      its axis, and there is one extent per axis. */
  lemma ConvSizeCounts(size: seq<int>, kernelSize: seq<int>, stride: int, padding: int, a: nat, i: nat)
    requires stride > 0 && |kernelSize| >= |size| && a < |size|
    ensures |ConvSizeSpec(size, kernelSize, stride, padding)| == |size|
    ensures i < ConvSizeSpec(size, kernelSize, stride, padding)[a] <==> KernelFits(i, size[a], kernelSize[a], stride, padding)
  {
    OutExtentCountsOrigins(size[a], kernelSize[a], stride, padding, i);
  }

  /** The stride of `getPoolSize`: absent (`undefined` or `null`), one
      number for every axis, or one number per axis. */
  datatype PoolStride = Unset | Uniform(s: int) | PerAxis(ss: seq<int>)

  /** `stride ??= kernelSize`: an absent stride is the kernel itself. */
  function Resolved(stride: PoolStride, kernelSize: seq<int>): (r: PoolStride)
    ensures !r.Unset?
    ensures stride.Unset? ==> r == PerAxis(kernelSize)
    ensures !stride.Unset? ==> r == stride
  {
    if stride.Unset? then PerAxis(kernelSize) else stride
  }

  /** The stride used on axis `i`. */
  function AxisStride(stride: PoolStride, i: nat): int
    requires !stride.Unset?
    requires stride.PerAxis? ==> i < |stride.ss|
  {
    if stride.PerAxis? then stride.ss[i] else stride.s
  }

  /** Every axis of `size` has a stride, and none is zero. */
  predicate Strided(stride: PoolStride, kernelSize: seq<int>, n: nat)
  {
    var st := Resolved(stride, kernelSize);
    (st.PerAxis? ==> |st.ss| >= n) && forall i: nat :: i < n ==> AxisStride(st, i) != 0
  }

  /** `getPoolSize`: the extents with the stride of each axis. */
  function PoolSizeSpec(size: seq<int>, kernelSize: seq<int>, stride: PoolStride, padding: int): seq<int>
    requires |kernelSize| >= |size| && Strided(stride, kernelSize, |size|)
  {
    var st := Resolved(stride, kernelSize);
    seq(|size|, i requires 0 <= i < |size| => OutExtent(size[i], kernelSize[i], AxisStride(st, i), padding))
  }

  /** `getPoolSize` pushes the extents in a loop. */
  method PoolSize(size: seq<int>, kernelSize: seq<int>, stride: PoolStride, padding: int) returns (outSize: seq<int>)
    requires |kernelSize| >= |size| && Strided(stride, kernelSize, |size|)
    ensures outSize == PoolSizeSpec(size, kernelSize, stride, padding)
  {
    var st := if stride.Unset? then PerAxis(kernelSize) else stride;
    outSize := [];
    for i := 0 to |size|
      invariant |outSize| == i
      invariant forall t :: 0 <= t < i ==> outSize[t] == OutExtent(size[t], kernelSize[t], AxisStride(st, t), padding)
    {
      var s := if st.PerAxis? then st.ss[i] else st.s;
      assert s == AxisStride(st, i) != 0;
      outSize := outSize + [OutExtent(size[i], kernelSize[i], s, padding)];
    }
  }

  /** A pooling stride given as one non-zero number gives exactly the
      convolution's extents (`PoolTiles` covers an absent stride). */
  lemma PoolSizeLaws(size: seq<int>, kernelSize: seq<int>, s: int, padding: int)
    requires |kernelSize| >= |size| && s != 0
    ensures Strided(Uniform(s), kernelSize, |size|)
    ensures PoolSizeSpec(size, kernelSize, Uniform(s), padding) == ConvSizeSpec(size, kernelSize, s, padding)
  {
  }

  /** Without a stride and without padding, a positive kernel extent `k`
      gives `floor(size / k)` windows on its axis. */
  lemma PoolTiles(size: seq<int>, kernelSize: seq<int>, a: nat)
    requires |kernelSize| >= |size| && a < |size| && forall i :: 0 <= i < |kernelSize| ==> kernelSize[i] > 0
    ensures Strided(Unset, kernelSize, |size|)
    ensures PoolSizeSpec(size, kernelSize, Unset, 0)[a] == size[a] / kernelSize[a]
  {
    var k := kernelSize[a];
    OutExtentDivision(size[a], k, k, 0);
    assert (size[a] - k) / k + 1 == size[a] / k by {
      DivShift(size[a], k);
    }
  }

  lemma DivShift(x: int, k: int)
    requires k > 0
    ensures (x - k) / k + 1 == x / k
  {
    var q, m := x / k, x % k;
    DivUnique(x - k, k, q - 1, m);
  }

  lemma DivUnique(a: int, k: int, q: int, m: int)
    requires k > 0 && a == q * k + m && 0 <= m < k
    ensures a / k == q
  {
    var q', m' := a / k, a % k;
    if q' < q {
      MulMono(q' + 1, q, k);
    } else if q' > q {
      MulMono(q + 1, q', k);
    }
  }

  /** `getConvSize` on one and on two axes. */
  lemma ConvSizeOneTwo(n: int, w: int, k: int, kw: int, stride: int, padding: int)
    requires stride != 0
    ensures ConvSizeSpec([n], [k], stride, padding) == [OutExtent(n, k, stride, padding)]
    ensures ConvSizeSpec([n, w], [k, kw], stride, padding) == [OutExtent(n, k, stride, padding), OutExtent(w, kw, stride, padding)]
  {
  }

  /* ---------------------------------------------------------------------- */
  /* getConv1dSize and getConv2dSize                                          */


  function Conv1dSizeRank(n: nat): string
  {
    "conv1d: size must be 2D matrix, got " + Decimal(n) + "D matrix"
  }

  function Conv1dKernelRank(n: nat): string
  {
    "conv1d: kernel must be 3D matrix, got " + Decimal(n) + "D matrix"
  }

  function Conv2dSizeRank(n: nat): string
  {
    "conv2d: size must be 3D matrix, got " + Decimal(n) + "D matrix"
  }

  function Conv2dKernelRank(n: nat): string
  {
    "conv2d: kernel must be 4D matrix, got " + Decimal(n) + "D matrix"
  }

  /** `getConv1dSize([n, cin], [k, cin, cout], stride, padding)`:
      `[feat_out, cout]`. */
  function Conv1dSize(size: seq<int>, kernelSize: seq<int>, stride: int, padding: int): (r: Result<seq<int>>)
    requires stride != 0
  {
    if |size| != 2 then Failure(Conv1dSizeRank(|size|))
    else if |kernelSize| != 3 then Failure(Conv1dKernelRank(|kernelSize|))
    else Success(ConvSizeSpec([size[0]], [kernelSize[0]], stride, padding) + [kernelSize[2]])
  }

  /** `getConv2dSize([h, w, cin], [kh, kw, cin, cout], stride, padding)`:
      `[hout, wout, cout]`. */
  function Conv2dSize(size: seq<int>, kernelSize: seq<int>, stride: int, padding: int): (r: Result<seq<int>>)
    requires stride != 0
  {
    if |size| != 3 then Failure(Conv2dSizeRank(|size|))
    else if |kernelSize| != 4 then Failure(Conv2dKernelRank(|kernelSize|))
    else Success(ConvSizeSpec(size[..2], kernelSize[..2], stride, padding) + [kernelSize[3]])
  }

  /** `getConv1dSize` throws exactly on a size that is not `[n, cin]` or a
      kernel that is not `[k, cin, cout]`, size first; otherwise the
      result is the number of kernel positions that fit along the padded
      sequence, then the output channels. */
  lemma Conv1dSizeSound(size: seq<int>, kernelSize: seq<int>, stride: int, padding: int)
    requires stride > 0
    ensures var r := Conv1dSize(size, kernelSize, stride, padding);
      && (|size| != 2 ==> r == Failure(Conv1dSizeRank(|size|)))
      && (|size| == 2 && |kernelSize| != 3 ==> r == Failure(Conv1dKernelRank(|kernelSize|)))
      && (r.Success? <==> |size| == 2 && |kernelSize| == 3)
    ensures var r := Conv1dSize(size, kernelSize, stride, padding);
      r.Success? ==> (|r.value| == 2 && r.value[1] == kernelSize[2]
        && forall i: nat :: i < r.value[0] <==> KernelFits(i, size[0], kernelSize[0], stride, padding))
  {
    var r := Conv1dSize(size, kernelSize, stride, padding);
    if r.Success? {
      forall i: nat ensures i < r.value[0] <==> KernelFits(i, size[0], kernelSize[0], stride, padding) {
        OutExtentCountsOrigins(size[0], kernelSize[0], stride, padding, i);
      }
    }
  }

  /** `getConv2dSize` throws exactly on a size that is not `[h, w, cin]` or
      a kernel that is not `[kh, kw, cin, cout]`; otherwise the result
      counts the kernel positions on each of the two spatial axes, then
      gives the output channels. */
  lemma Conv2dSizeSound(size: seq<int>, kernelSize: seq<int>, stride: int, padding: int)
    requires stride > 0
    ensures var r := Conv2dSize(size, kernelSize, stride, padding);
      && (|size| != 3 ==> r == Failure(Conv2dSizeRank(|size|)))
      && (|size| == 3 && |kernelSize| != 4 ==> r == Failure(Conv2dKernelRank(|kernelSize|)))
      && (r.Success? <==> |size| == 3 && |kernelSize| == 4)
    ensures var r := Conv2dSize(size, kernelSize, stride, padding);
      r.Success? ==> (|r.value| == 3 && r.value[2] == kernelSize[3]
        && (forall i: nat :: i < r.value[0] <==> KernelFits(i, size[0], kernelSize[0], stride, padding))
        && (forall j: nat :: j < r.value[1] <==> KernelFits(j, size[1], kernelSize[1], stride, padding)))
  {
    var r := Conv2dSize(size, kernelSize, stride, padding);
    if r.Success? {
      forall i: nat ensures i < r.value[0] <==> KernelFits(i, size[0], kernelSize[0], stride, padding) {
        OutExtentCountsOrigins(size[0], kernelSize[0], stride, padding, i);
      }
      forall j: nat ensures j < r.value[1] <==> KernelFits(j, size[1], kernelSize[1], stride, padding) {
        OutExtentCountsOrigins(size[1], kernelSize[1], stride, padding, j);
      }
    }
  }

  /* ---------------------------------------------------------------------- */
  /* The sizes the package tests check                                       */

  /** `getConvSize([10, 10], [3, 3])` with stride 1, stride 2, and stride 2
      with padding 1. */
  lemma ConvSizeExamples()
    ensures ConvSizeSpec([10, 10], [3, 3], 1, 0) == [8, 8]
    ensures ConvSizeSpec([10, 10], [3, 3], 2, 0) == [4, 4]
    ensures ConvSizeSpec([10, 10], [3, 3], 2, 1) == [5, 5]
  {
    OutExtentDivision(10, 3, 1, 0);
    OutExtentDivision(10, 3, 2, 0);
    OutExtentDivision(10, 3, 2, 1);
    ConvSizeOneTwo(10, 10, 3, 3, 1, 0);
    ConvSizeOneTwo(10, 10, 3, 3, 2, 0);
    ConvSizeOneTwo(10, 10, 3, 3, 2, 1);
  }

  /** `getPoolSize([9, 9], [3, 3])` tiles; with stride 2 it agrees with
      `getConvSize`. */
  lemma PoolSizeExamples()
    ensures Strided(Unset, [3, 3], 2)
    ensures PoolSizeSpec([9, 9], [3, 3], Unset, 0) == [3, 3]
    ensures PoolSizeSpec([10, 10], [3, 3], Uniform(2), 0) == [4, 4]
    ensures PoolSizeSpec([10, 10], [3, 3], Uniform(2), 1) == [5, 5]
  {
    OutExtentDivision(9, 3, 3, 0);
    OutExtentDivision(10, 3, 2, 0);
    OutExtentDivision(10, 3, 2, 1);
  }

  /** The output shapes of the tensor conv tests: `[10, 16]` with kernel
      `[3, 16, 32]` under the four stride/padding settings, and `[10, 5, 3]`
      with `[3, 3, 3, 16]`. */
  lemma ConvShapeExamples()
    ensures Conv1dSize([10, 16], [3, 16, 32], 1, 0) == Success([8, 32])
    ensures Conv1dSize([10, 16], [3, 16, 32], 1, 1) == Success([10, 32])
    ensures Conv1dSize([10, 16], [3, 16, 32], 2, 0) == Success([4, 32])
    ensures Conv1dSize([10, 16], [3, 16, 32], 2, 1) == Success([5, 32])
    ensures Conv2dSize([10, 5, 3], [3, 3, 3, 16], 1, 0) == Success([8, 3, 16])
  {
    Conv1dShape(10, 16, 3, 16, 32, 1, 0, 8);
    Conv1dShape(10, 16, 3, 16, 32, 1, 1, 10);
    Conv1dShape(10, 16, 3, 16, 32, 2, 0, 4);
    Conv1dShape(10, 16, 3, 16, 32, 2, 1, 5);
    Conv2dShape(10, 5, 3, 3, 3, 3, 16, 1, 0, 8, 3);
  }

  lemma Conv1dShape(n: int, c: int, k: int, cin: int, cout: int, stride: int, padding: int, m: int)
    requires stride > 0 && m == (n + 2 * padding - k) / stride + 1
    ensures Conv1dSize([n, c], [k, cin, cout], stride, padding) == Success([m, cout])
  {
    OutExtentDivision(n, k, stride, padding);
    ConvSizeOneTwo(n, c, k, cin, stride, padding);
    assert [m] + [cout] == [m, cout];
  }

  lemma Conv2dShape(h: int, w: int, c: int, kh: int, kw: int, cin: int, cout: int, stride: int, padding: int, p: int, q: int)
    requires stride > 0 && p == (h + 2 * padding - kh) / stride + 1 && q == (w + 2 * padding - kw) / stride + 1
    ensures Conv2dSize([h, w, c], [kh, kw, cin, cout], stride, padding) == Success([p, q, cout])
  {
    OutExtentDivision(h, kh, stride, padding);
    OutExtentDivision(w, kw, stride, padding);
    ConvSizeOneTwo(h, w, kh, kw, stride, padding);
    assert [h, w, c][..2] == [h, w];
    assert [kh, kw, cin, cout][..2] == [kh, kw];
    assert [p, q] + [cout] == [p, q, cout];
  }

  /** A rank-1 size is rejected with the rank in the message. */
  lemma Conv1dRankMessage()
    ensures Conv1dSize([10], [3, 16, 32], 1, 0) == Failure("conv1d: size must be 2D matrix, got 1D matrix")
  {
  }
}
