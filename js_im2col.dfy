/** `im2col` of `packages/ndarray-js/src/ops/im2col.ts`: the windows of an
    `[H, W, C]` view (or of an `[N, C]` view lifted to `[1, N, C]`), one
    window per output row. The window arithmetic is the one of `Windows`;
    the loops here run while `i < H / stride` in real division. */
module JsIm2col {
  import opened Wrappers
  import opened IndexMath
  import opened JsDType
  import opened JsNdArray
  import opened Windows
  import JsOps

  const InputRank := "im2col only support 2D or 3D input"
  const KernelRank := "im2col only support 2D or 3D kernel"

  /* ---------------------------------------------------------------------- */
  /* The loop bound                                                           */

  /** How many of `i = 0, 1, 2, ...` satisfy `i < n / s` in real division. */
  function Iterations(n: nat, s: int): nat
  {
    if s <= 0 then 0 else (n + s - 1) / s
  }

  /** `i < n / s` holds exactly for the first `Iterations(n, s)` values of
      `i`: with a positive stride those with `i * s < n`, with a negative
      one none. */
  lemma IterationsBound(n: nat, s: int, i: nat)
    requires s != 0
    ensures (i as real) < (n as real) / (s as real) <==> i < Iterations(n, s)
  {
    if s > 0 {
      RealBelow(i as real, n as real, s as real);
      assert (i as real) * (s as real) == (i * s) as real;
      ProductBelow(n, s, i);
    } else {
      NegativeQuotient(n as real, s as real);
    }
  }

  lemma RealBelow(x: real, y: real, z: real)
    requires z > 0.0
    ensures x < y / z <==> x * z < y
  {
    assert (y / z) * z == y;
    if x < y / z {
      assert x * z < (y / z) * z;
    } else {
      assert x * z >= (y / z) * z;
    }
  }

  lemma NegativeQuotient(y: real, z: real)
    requires y >= 0.0 && z < 0.0
    ensures y / z <= 0.0
  {
    assert (y / z) * z == y;
  }

  /** `i * s < n` exactly for `i < (n + s - 1) / s`. */
  lemma ProductBelow(n: nat, s: int, i: nat)
    requires s > 0
    ensures i * s < n <==> i < (n + s - 1) / s
  {
    var q, m := (n + s - 1) / s, (n + s - 1) % s;
    assert n + s - 1 == q * s + m;
    if i < q {
      MulLeq(i + 1, q, s);
    } else {
      MulLeq(q, i, s);
    }
  }

  /* ---------------------------------------------------------------------- */
  /* Arguments                                                                */

  /** `stride ||= 1`: a missing stride and a zero stride both become 1. */
  function StrideOr(stride: Option<int>): (s: int)
    ensures s != 0
    ensures stride.Some? && stride.value != 0 ==> s == stride.value
  {
    if stride.None? || stride.value == 0 then 1 else stride.value
  }

  /** A one-extent kernel `[k]` becomes `[1, k]`; a kernel of two or three
      extents is kept (its third extent is never read); any other length
      throws. */
  function KernelOf(kernelSize: seq<int>): (r: Result<seq<int>>)
    ensures r.Failure? <==> |kernelSize| != 1 && |kernelSize| != 2 && |kernelSize| != 3
    ensures r.Failure? ==> r.error == KernelRank
    ensures r.Success? ==> |r.value| >= 2
    ensures r.Success? && |kernelSize| == 1 ==> r.value[..2] == [1, kernelSize[0]]
    ensures r.Success? && |kernelSize| > 1 ==> r.value[..2] == kernelSize[..2]
  {
    if |kernelSize| == 1 then Success([1] + kernelSize)
    else if |kernelSize| > 3 || |kernelSize| < 2 then Failure(KernelRank)
    else Success(kernelSize)
  }

  /** The input as the windows are read from it: an `[N, C]` view is
      reshaped to `[1, N, C]`, an `[H, W, C]` view is kept, any other rank
      throws. */
  function Lift(lhs: NdArray): (r: Result<NdArray>)
    requires WellFormed(lhs) && NonNeg(lhs.shape) && NonNeg(lhs.strides)
    ensures r.Failure? && r.error == InputRank <==> |lhs.shape| != 2 && |lhs.shape| != 3
    ensures r.Success? ==> |r.value.shape| == 3 && WellFormed(r.value) && NonNeg(r.value.shape) && NonNeg(r.value.strides)
    ensures r.Success? && |lhs.shape| == 3 ==> r.value == lhs
    ensures r.Success? && |lhs.shape| == 2 ==> r.value.shape == [1] + lhs.shape
  {
    if |lhs.shape| == 2 then
      var size := [1] + lhs.shape;
      assert CountUnknown(size) == 0 by {
        assert forall i :: 0 <= i < |size| ==> size[i] >= 0;
      }
      StridesNonNeg(JsOps.Unsigned(size));
      ReshapeFixed(lhs, size)
    else if |lhs.shape| > 3 || |lhs.shape| < 2 then Failure(InputRank)
    else Success(lhs)
  }

  /** The grid the loops read: the lifted view's buffer and strides, its
      first two extents, the kernel's first two extents, the stride (a
      negative one runs no iteration and is recorded as 0) and
      `chunkSize = kernelSize[0] * kernelSize[1] * last(shape)`. */
  function GridFor(x: NdArray, k: seq<int>, s: int): (g: Grid)
    requires |x.shape| == 3 && WellFormed(x) && NonNeg(x.shape) && NonNeg(x.strides)
    requires |k| >= 2 && k[0] >= 0 && k[1] >= 0
    ensures Addressable(g) && g.buf == x.buffer && g.h == x.shape[0] && g.w == x.shape[1]
  {
    Grid(x.buffer, JsOps.Unsigned(x.strides), x.shape[0], x.shape[1], k[0], k[1],
         if s > 0 then s else 0, k[0] * k[1] * x.shape[2])
  }

  /** `im2col(lhs, kernelSize, stride)`: the emitted windows, origin by
      origin in row-major order, adopted by a new view of shape
      `[cnt, chunkSize]`. */
  function Im2colSpec(lhs: NdArray, kernelSize: seq<int>, stride: Option<int>): Result<NdArray>
    requires WellFormed(lhs) && NonNeg(lhs.shape) && NonNeg(lhs.strides) && NonNeg(kernelSize)
  {
    var x :- Lift(lhs);
    Unfold(x, kernelSize, stride)
  }

  /** What follows the lift: the kernel and stride defaults, then the
      windows of the `[H, W, C]` view `x`. The rows are slices of
      `x.buffer`, so their typed array has its class. */
  function Unfold(x: NdArray, kernelSize: seq<int>, stride: Option<int>): Result<NdArray>
    requires |x.shape| == 3 && WellFormed(x) && NonNeg(x.shape) && NonNeg(x.strides) && NonNeg(kernelSize)
  {
    var k :- KernelOf(kernelSize);
    var s := StrideOr(stride);
    var g := GridFor(x, k, s);
    var ni, nj := Iterations(g.h, s), Iterations(g.w, s);
    NewSpec(Typed(ArrayConstructor(x.dtype), RowWindows(g, nj, ni)),
            Options(None, Some([RowCount(g, nj, ni), g.chunk]), None, None))
  }

  /** The two loops over the origins `(i * stride, j * stride)`; a row or a
      column origin whose kernel leaves the image is skipped, and so is a
      window that came out short. Pushing each window and concatenating
      them at the end is appending them as they come. */
  method Im2col(lhs: NdArray, kernelSize: seq<int>, stride: Option<int>) returns (r: Result<NdArray>)
    requires WellFormed(lhs) && NonNeg(lhs.shape) && NonNeg(lhs.strides) && NonNeg(kernelSize)
    ensures r == Im2colSpec(lhs, kernelSize, stride)
  {
    var x := lhs;
    if |lhs.shape| == 2 {
      var lifted := Lift(lhs);
      if lifted.Failure? {
        return Failure(lifted.error);
      }
      x := lifted.value;
    } else if |lhs.shape| > 3 || |lhs.shape| < 2 {
      return Failure(InputRank);
    }
    var k := kernelSize;
    if |k| == 1 {
      k := [1] + k;
    } else if |k| > 3 || |k| < 2 {
      return Failure(KernelRank);
    }
    var s := if stride.None? || stride.value == 0 then 1 else stride.value;
    var g := GridFor(x, k, s);
    var res, cnt := ScanRows(g, s);
    r := Success(NdArray(res, GetDType(ArrayConstructor(x.dtype)).value, [cnt, g.chunk], Strides([cnt, g.chunk]), false));
  }

  /** The row loop: `i` runs while `i < H / stride`. */
  method ScanRows(g: Grid, s: int) returns (res: seq<real>, cnt: nat)
    requires Addressable(g) && s != 0 && g.stride == (if s > 0 then s else 0)
    ensures res == RowWindows(g, Iterations(g.w, s), Iterations(g.h, s))
    ensures cnt == RowCount(g, Iterations(g.w, s), Iterations(g.h, s))
  {
    ghost var ni, nj := Iterations(g.h, s), Iterations(g.w, s);
    res, cnt := [], 0;
    var i := 0;
    while (i as real) < (g.h as real) / (s as real)
      invariant i <= ni
      invariant res == RowWindows(g, nj, i) && cnt == RowCount(g, nj, i)
      decreases ni - i
    {
      IterationsBound(g.h, s, i);
      var row := i * s;
      if row + g.kh <= g.h {
        var rows, n := ScanRow(g, s, row);
        res := res + rows;
        cnt := cnt + n;
      }
      i := i + 1;
    }
    IterationsBound(g.h, s, i);
  }

  /** The column loop of row origin `row`. */
  method ScanRow(g: Grid, s: int, row: nat) returns (rows: seq<real>, n: nat)
    requires Addressable(g) && s > 0 && g.stride == s && row + g.kh <= g.h
    ensures rows == ColumnWindows(g, row, Iterations(g.w, s))
    ensures n == ColumnCount(g, row, Iterations(g.w, s))
  {
    rows, n := [], 0;
    var j := 0;
    while (j as real) < (g.w as real) / (s as real)
      invariant j <= Iterations(g.w, s)
      invariant rows == ColumnWindows(g, row, j) && n == ColumnCount(g, row, j)
      decreases Iterations(g.w, s) - j
    {
      IterationsBound(g.w, s, j);
      var col := j * s;
      if col + g.kw <= g.w {
        var window := Window(g, row, col);
        if |window.value| == g.chunk {
          rows := rows + window.value;
          n := n + 1;
        }
      }
      j := j + 1;
    }
    IterationsBound(g.w, s, j);
  }

  /* ---------------------------------------------------------------------- */
  /* What the windows are                                                     */

  /** With the loop running while `i < n / s` in real division, every
      window of a kernel `1 <= k <= n` that fits is visited: there are
      `(n - k) / s + 1` of them, whatever the stride. */
  lemma WindowCount(n: nat, k: nat, s: nat)
    requires 1 <= k <= n && s > 0
    ensures Count(Iterations(n, s), s, k, n) == (n - k) / s + 1
  {
    var q := (n - k) / s;
    assert q * s <= n - k;
    ProductBelow(n, s, q);
    CountClosed(Iterations(n, s), s, k, n);
  }

  /** The result of `Unfold` for a two-extent kernel and a positive
      stride, written out: the emitted windows as a `[count, chunk]` view
      with the typed array's dtype. */
  lemma UnfoldWritten(x: NdArray, kh: nat, kw: nat, s: nat) returns (g: Grid)
    requires |x.shape| == 3 && WellFormed(x) && NonNeg(x.shape) && NonNeg(x.strides) && s > 0
    ensures g == GridFor(x, [kh, kw], s) && g.stride == s
    ensures var rows, n := RowWindows(g, Iterations(g.w, s), Iterations(g.h, s)), RowCount(g, Iterations(g.w, s), Iterations(g.h, s));
      Unfold(x, [kh, kw], Some(s)) == Success(NdArray(rows, if x.dtype == Bool then Uint8 else x.dtype, [n, g.chunk], Strides([n, g.chunk]), false))
  {
    GetDTypeInverts(x.dtype);
    g := GridFor(x, [kh, kw], s);
  }

  /** On a contiguous `[H, W, C]` image with a `kh x kw` kernel and a
      positive stride, the result is the contiguous `[count, kh * kw * C]`
      array whose row `a * cc + b` (`cc` origins per row) is the window at
      origin `(a * s, b * s)`: `kh` kernel rows of `kw * C` cells. */
  lemma ImageWindows(x: NdArray, kh: nat, kw: nat, s: nat)
    requires Contiguous(x) && NonNeg(x.strides) && |x.shape| == 3 && s > 0
    ensures Im2colSpec(x, [kh, kw], Some(s)).Success?
    ensures var h, w, c := x.shape[0], x.shape[1], x.shape[2];
      var g := GridFor(x, [kh, kw], s);
      var ci, cc := Count(Iterations(h, s), s, kh, h), Count(Iterations(w, s), s, kw, w);
      var r := Im2colSpec(x, [kh, kw], Some(s)).value;
      && Canonical(g, c) && g.chunk == kh * kw * c
      && r.shape == [ci * cc, kh * kw * c] && Contiguous(r)
      && r.dtype == (if x.dtype == Bool then Uint8 else x.dtype)
      && forall a: nat, b: nat :: a < ci && b < cc ==> IsOutputWindow(r.buffer, g, cc, a, b)
  {
    assert Im2colSpec(x, [kh, kw], Some(s)) == Unfold(x, [kh, kw], Some(s));
    var r, g, ci, cc := UnfoldWindows(x, kh, kw, s);
  }

  /** `ImageWindows` for the part after the lift. */
  lemma UnfoldWindows(x: NdArray, kh: nat, kw: nat, s: nat) returns (r: NdArray, g: Grid, ci: nat, cc: nat)
    requires Contiguous(x) && NonNeg(x.strides) && |x.shape| == 3 && s > 0
    ensures g == GridFor(x, [kh, kw], s) && Canonical(g, x.shape[2]) && g.chunk == kh * kw * x.shape[2] && g.stride == s
    ensures ci == Count(Iterations(x.shape[0], s), s, kh, x.shape[0])
    ensures cc == Count(Iterations(x.shape[1], s), s, kw, x.shape[1])
    ensures Unfold(x, [kh, kw], Some(s)) == Success(r)
    ensures r.shape == [ci * cc, g.chunk] && Contiguous(r)
    ensures r.dtype == (if x.dtype == Bool then Uint8 else x.dtype)
    ensures forall a: nat, b: nat :: a < ci && b < cc ==> IsOutputWindow(r.buffer, g, cc, a, b)
  {
    var h, w, c := x.shape[0], x.shape[1], x.shape[2];
    ImageCanonical(x, h, w, c);
    g := UnfoldWritten(x, kh, kw, s);
    MulAssoc(kh, kw, c);
    assert Canonical(g, c);
    var ni, nj := Iterations(h, s), Iterations(w, s);
    ci, cc := Count(ni, s, kh, h), Count(nj, s, kw, w);
    RowsCounted(g, c, nj, ni);
    Shape2(ci * cc, g.chunk);
    r := Unfold(x, [kh, kw], Some(s)).value;
    forall a: nat, b: nat | a < ci && b < cc
      ensures IsOutputWindow(r.buffer, g, cc, a, b)
    {
      RowWindowAt(g, c, nj, ni, a, b);
    }
  }

  lemma ImageCanonical(x: NdArray, h: nat, w: nat, c: nat)
    requires Contiguous(x) && x.shape == [h, w, c]
    ensures x.strides == [w * c, c, 1] && |x.buffer| == h * (w * c)
  {
    ImageStrides(h, w, c);
  }

  /** Cell `u` of output row `t` is cell `t * step + u` of the buffer. */
  predicate IsSliceCell(out: seq<real>, buf: seq<real>, t: nat, u: nat, chunk: nat, step: nat)
  {
    t * chunk + u < |out| && t * step + u < |buf| && out[t * chunk + u] == buf[t * step + u]
  }

  /** On a contiguous `[N, C]` array (lifted to `[1, N, C]`) with a kernel
      `[k]`, `1 <= k <= N`, and a positive stride `s`, the result is the
      contiguous `[(N - k) / s + 1, k * C]` array whose row `t` is the
      `k * C` cells from row `t * s` of the input. */
  lemma SequenceWindows(x: NdArray, k: nat, s: nat) returns (r: NdArray)
    requires Contiguous(x) && NonNeg(x.strides) && |x.shape| == 2 && 1 <= k <= x.shape[0] && s > 0
    ensures Im2colSpec(x, [k], Some(s)) == Success(r)
    ensures r.shape == [(x.shape[0] - k) / s + 1, k * x.shape[1]] && Contiguous(r)
    ensures forall t: nat, u: nat :: t < r.shape[0] && u < k * x.shape[1] ==> IsSliceCell(r.buffer, x.buffer, t, u, k * x.shape[1], s * x.shape[1])
  {
    var n, c := x.shape[0], x.shape[1];
    var y := Lifted(x);
    assert Im2colSpec(x, [k], Some(s)) == Unfold(y, [1, k], Some(s));
    var g, ci, cc;
    r, g, ci, cc := UnfoldWindows(y, 1, k, s);
    WindowCount(1, 1, s);
    WindowCount(n, k, s);
    SliceCells(r.buffer, g, c, cc);
  }

  /** Every cell of the output of a lifted `[1, N, C]` image. */
  lemma SliceCells(out: seq<real>, g: Grid, c: nat, cc: nat)
    requires Canonical(g, c) && g.h == 1 && g.kh == 1 && g.chunk == g.kw * c && g.stride > 0
    requires cc == Count(Iterations(g.w, g.stride), g.stride, g.kw, g.w)
    requires Count(Iterations(1, g.stride), g.stride, 1, 1) == 1
    requires forall a: nat, b: nat :: a < 1 && b < cc ==> IsOutputWindow(out, g, cc, a, b)
    ensures forall t: nat, u: nat :: t < cc && u < g.kw * c ==> IsSliceCell(out, g.buf, t, u, g.kw * c, g.stride * c)
  {
    forall t: nat, u: nat | t < cc && u < g.kw * c
      ensures IsSliceCell(out, g.buf, t, u, g.kw * c, g.stride * c)
    {
      assert IsOutputWindow(out, g, cc, 0, t);
      RowCell(g, c, out, cc, t, u);
    }
  }

  /** The lift of a contiguous `[N, C]` array: the same buffer as a
      contiguous `[1, N, C]` image. */
  lemma Lifted(x: NdArray) returns (y: NdArray)
    requires Contiguous(x) && NonNeg(x.strides) && |x.shape| == 2
    ensures Lift(x) == Success(y) && Contiguous(y) && NonNeg(y.strides) && y.buffer == x.buffer && y.dtype == x.dtype
    ensures y.shape == [1, x.shape[0], x.shape[1]]
  {
    var n, c := x.shape[0], x.shape[1];
    ValueOfContiguous(x);
    Shape2(n, c);
    ImageStrides(1, n, c);
    y := Lift(x).value;
    assert y.shape == [1, n, c];
  }

  /** Cell `u` of output row `t` of a lifted `[1, N, C]` image. */
  lemma RowCell(g: Grid, c: nat, out: seq<real>, cc: nat, t: nat, u: nat)
    requires Canonical(g, c) && g.h == 1 && g.kh == 1 && g.chunk == g.kw * c && g.stride > 0
    requires t < cc && cc == Count(Iterations(g.w, g.stride), g.stride, g.kw, g.w) && u < g.kw * c
    requires IsOutputWindow(out, g, cc, 0, t)
    ensures IsSliceCell(out, g.buf, t, u, g.kw * c, g.stride * c)
  {
    var st, kw, w := g.stride, g.kw, g.w;
    CountPrefix(Iterations(w, st), st, kw, w);
    assert Fits(t, st, kw, w);
    var col := t * st;
    var base := col * c;
    WindowCells(g, c, 0, col, 0, base);
    var win := WindowFrom(g, 0, col, 0);
    assert IsKernelCell(win, g.buf, base, kw * c, w * c, 0, u);
    assert out[t * g.chunk..(t + 1) * g.chunk] == win;
    MulAssoc(t, st, c);
  }

  lemma MulAssoc(x: int, y: int, z: int)
    ensures (x * y) * z == x * (y * z)
  {
  }

  /* ---------------------------------------------------------------------- */
  /* The lift as written                                                      */

  /** The lift as the source writes it: `lhs.reshape([1, ...lhs.shape])`
      hands one array to the variadic `reshape(...size)`, so `size` is a
      one-element list whose element is an array. No element is `-1`, and
      the product `1 * [1, N, C]` is `NaN` (the array reads as the string
      "1,N,C"), which never equals the length: every rank-2 input throws. */
  function LiftAsWritten(lhs: NdArray): (r: Result<NdArray>)
    ensures r.Failure? <==> |lhs.shape| != 3
    ensures r.Success? ==> r.value == lhs
  {
    if |lhs.shape| == 2 then Failure(IncompatibleShape)
    else if |lhs.shape| > 3 || |lhs.shape| < 2 then Failure(InputRank)
    else Success(lhs)
  }

  /** `im2col` with the lift as written. */
  function Im2colAsWritten(lhs: NdArray, kernelSize: seq<int>, stride: Option<int>): Result<NdArray>
    requires WellFormed(lhs) && NonNeg(lhs.shape) && NonNeg(lhs.strides) && NonNeg(kernelSize)
  {
    var x :- LiftAsWritten(lhs);
    Unfold(x, kernelSize, stride)
  }

  /** As written, no `[N, C]` input gets past the lift; on `[H, W, C]`
      inputs the two agree. */
  lemma LiftAsWrittenRejectsRankTwo(lhs: NdArray, kernelSize: seq<int>, stride: Option<int>)
    requires WellFormed(lhs) && NonNeg(lhs.shape) && NonNeg(lhs.strides) && NonNeg(kernelSize)
    ensures |lhs.shape| == 2 ==> Im2colAsWritten(lhs, kernelSize, stride) == Failure(IncompatibleShape)
    ensures |lhs.shape| == 2 && Product(lhs.shape) == |lhs.buffer| ==> Lift(lhs).Success?
    ensures |lhs.shape| != 2 ==> Im2colAsWritten(lhs, kernelSize, stride) == Im2colSpec(lhs, kernelSize, stride)
  {
    if |lhs.shape| == 2 && Product(lhs.shape) == |lhs.buffer| {
      var size := [1] + lhs.shape;
      assert CountUnknown(size) == 0 by {
        assert forall i :: 0 <= i < |size| ==> size[i] >= 0;
      }
      assert Product(size) == |lhs.buffer| by {
        assert size[1..] == lhs.shape;
      }
    }
  }

  /* ---------------------------------------------------------------------- */
  /* Strides                                                                  */

  /** A missing stride and a zero stride both act as stride 1. */
  lemma StrideDefaults(lhs: NdArray, kernelSize: seq<int>)
    requires WellFormed(lhs) && NonNeg(lhs.shape) && NonNeg(lhs.strides) && NonNeg(kernelSize)
    ensures Im2colSpec(lhs, kernelSize, None) == Im2colSpec(lhs, kernelSize, Some(1))
    ensures Im2colSpec(lhs, kernelSize, Some(0)) == Im2colSpec(lhs, kernelSize, Some(1))
  {
  }

  /** A negative stride makes `i < H / stride` false at once: no window is
      emitted and the result is an empty `[0, chunkSize]` array. */
  lemma NegativeStride(lhs: NdArray, kernelSize: seq<int>, stride: int)
    requires WellFormed(lhs) && NonNeg(lhs.shape) && NonNeg(lhs.strides) && NonNeg(kernelSize)
    requires stride < 0
    ensures var r := Im2colSpec(lhs, kernelSize, Some(stride));
      r.Success? ==> |r.value.buffer| == 0 && |r.value.shape| == 2 && r.value.shape[0] == 0
  {
  }

  /* ---------------------------------------------------------------------- */
  /* The package's unit test                                                  */

  /** Cell `u` of output row `t` of the `arange(10)` test: `2 t + u`. */
  predicate IsArangeCell(out: seq<real>, t: nat, u: nat)
  {
    t * 6 + u < |out| && out[t * 6 + u] == (2 * t + u) as real
  }

  /** `arange(10)` as `[5, 2]` with kernel `[3]` and stride 1: three rows of
      six cells, row `t` holding `2 t, ..., 2 t + 5`. */
  lemma SequenceExample(x: NdArray)
    requires x.buffer == seq(10, i => i as real) && x.shape == [5, 2] && x.strides == [2, 1]
    ensures Im2colSpec(x, [3], Some(1)).Success?
    ensures var r := Im2colSpec(x, [3], Some(1)).value;
      && r.shape == [3, 6] && |r.buffer| == 18
      && forall t: nat, u: nat :: t < 3 && u < 6 ==> IsArangeCell(r.buffer, t, u)
  {
    Shape2(5, 2);
    assert Contiguous(x);
    var r := SequenceRows(x);
  }

  /** The buffer of `arange(10)`. */
  predicate IsArange(buf: seq<real>)
  {
    |buf| == 10 && forall i :: 0 <= i < 10 ==> buf[i] == i as real
  }

  /** The output of the `arange(10)` test, named. */
  lemma SequenceRows(x: NdArray) returns (r: NdArray)
    requires Contiguous(x) && x.shape == [5, 2] && IsArange(x.buffer)
    ensures Im2colSpec(x, [3], Some(1)) == Success(r)
    ensures r.shape == [3, 6] && |r.buffer| == 18
    ensures forall t: nat, u: nat :: t < 3 && u < 6 ==> IsArangeCell(r.buffer, t, u)
  {
    Shape2(5, 2);
    Shape2(3, 6);
    r := SequenceWindows(x, 3, 1);
    ArangeCells(r.buffer, x.buffer, 3 * 2, 1 * 2);
  }

  lemma ArangeCells(out: seq<real>, buf: seq<real>, chunk: nat, step: nat)
    requires IsArange(buf) && chunk == 6 && step == 2
    requires forall t: nat, u: nat :: t < 3 && u < chunk ==> IsSliceCell(out, buf, t, u, chunk, step)
    ensures forall t: nat, u: nat :: t < 3 && u < 6 ==> IsArangeCell(out, t, u)
  {
    forall t: nat, u: nat | t < 3 && u < 6
      ensures IsArangeCell(out, t, u)
    {
      assert IsSliceCell(out, buf, t, u, 6, 2);
    }
  }

  /** As written, the same call throws in the lift. */
  lemma SequenceExampleAsWritten(x: NdArray)
    requires x.buffer == seq(10, i => i as real) && x.shape == [5, 2] && x.strides == [2, 1]
    ensures Im2colAsWritten(x, [3], Some(1)) == Failure(IncompatibleShape)
  {
    LiftAsWrittenRejectsRankTwo(x, [3], Some(1));
  }

  /** `arange(75)` as `[5, 5, 3]` with kernel `[3, 3]` and stride 2: the
      origins 0 and 2 on each axis, so four windows of 27 cells. */
  lemma ImageExample(x: NdArray)
    requires |x.buffer| == 75 && x.shape == [5, 5, 3] && x.strides == [15, 3, 1]
    ensures Im2colSpec(x, [3, 3], Some(2)).Success?
    ensures Im2colSpec(x, [3, 3], Some(2)).value.shape == [4, 27]
  {
    ImageStrides(5, 5, 3);
    ImageWindows(x, 3, 3, 2);
    WindowCount(5, 3, 2);
  }
}
