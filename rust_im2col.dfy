/** `im2col` in `packages/ndarray/src/ops.rs`: the windows of a padded
    sequence `[N, C]` (conv1d) or image `[H, W, C]` (conv2d), one window per
    output row. */
module RustIm2col {
  import opened Wrappers
  import opened IndexMath
  import opened RustNdArray
  import opened RustPad
  import opened Windows

  const PaddingPanic: string := "padding.length must be 0 or 2"
  const UnwrapNone: string := "called `Option::unwrap()` on a `None` value"
  const DivideByZero: string := "attempt to divide by zero"
  const IndexPanic: string := "index out of bounds"
  const OffsetPanic: string := "assertion `left == right` failed"
  const RankTodo: string := "not yet implemented"

  /** `kernel_size.iter().product()`. */
  function KernelProduct(kernel: seq<nat>): (r: nat)
    ensures r == Product(kernel)
  {
    ProductNonNeg(kernel);
    Product(kernel)
  }

  /* ---------------------------------------------------------------------- */
  /* Windows along a buffer (the rank-2 branch)                               */

  /** The candidates `i < n` that fit, each as the `chunk` cells from
      `i * step`, one after the other. */
  function Slices(buf: seq<real>, n: nat, step: nat, chunk: nat): seq<real>
  {
    if n == 0 then []
    else
      var o := (n - 1) * step;
      Slices(buf, n - 1, step, chunk) + if Fits(n - 1, step, chunk, |buf|) then buf[o..o + chunk] else []
  }

  /** The rank-2 branch on `[N, C]`: candidate `i < len / (stride * C)`
      starts at `i * stride * C`; those that end inside the buffer are kept,
      `chunk` cells each, and the result has shape `[count, chunk]`. */
  function Im2col2Spec(x: NdArray, chunk: nat, stride: nat): Result<NdArray>
    requires |x.shape| == 2
  {
    var step := stride * x.shape[1];
    if step == 0 then Failure(DivideByZero)
    else
      var n := |x.buffer| / step;
      Success(From(Slices(x.buffer, n, step, chunk), Some([Count(n, step, chunk, |x.buffer|), chunk]), None))
  }

  method Im2col2(x: NdArray, chunk: nat, stride: nat) returns (r: Result<NdArray>)
    requires |x.shape| == 2
    ensures r == Im2col2Spec(x, chunk, stride)
  {
    var step := stride * x.shape[1];
    if step == 0 {
      return Failure(DivideByZero);
    }
    var res, cnt := CutSlices(x.buffer, |x.buffer| / step, step, chunk);
    return Success(From(res, Some([cnt, chunk]), None));
  }

  /** The loop of the rank-2 branch over the first `n` candidates. */
  method CutSlices(buf: seq<real>, n: nat, step: nat, chunk: nat) returns (res: seq<real>, cnt: nat)
    ensures res == Slices(buf, n, step, chunk) && cnt == Count(n, step, chunk, |buf|)
  {
    res, cnt := [], 0;
    for i := 0 to n
      invariant res == Slices(buf, i, step, chunk)
      invariant cnt == Count(i, step, chunk, |buf|)
    {
      var offset := i * step;
      SlicesNext(buf, i, step, chunk);
      if offset + chunk > |buf| {
        continue;
      }
      var piece := buf[offset..offset + chunk];
      res := res + piece;
      cnt := cnt + 1;
    }
  }

  /** One more candidate appends its window when it fits. */
  lemma SlicesNext(buf: seq<real>, i: nat, step: nat, chunk: nat)
    ensures Fits(i, step, chunk, |buf|) <==> i * step + chunk <= |buf|
    ensures i * step + chunk <= |buf| ==>
      Slices(buf, i + 1, step, chunk) == Slices(buf, i, step, chunk) + buf[i * step..i * step + chunk]
        && Count(i + 1, step, chunk, |buf|) == Count(i, step, chunk, |buf|) + 1
    ensures i * step + chunk > |buf| ==>
      Slices(buf, i + 1, step, chunk) == Slices(buf, i, step, chunk)
        && Count(i + 1, step, chunk, |buf|) == Count(i, step, chunk, |buf|)
  {
  }

  /** Every kept window has `chunk` cells. */
  lemma {:induction false} SlicesLength(buf: seq<real>, n: nat, step: nat, chunk: nat)
    ensures |Slices(buf, n, step, chunk)| == Count(n, step, chunk, |buf|) * chunk
  {
    if n > 0 {
      SlicesLength(buf, n - 1, step, chunk);
      MulSucc(Count(n - 1, step, chunk, |buf|) + 1, chunk);
    }
  }

  /** Row `t` of the result is the window at `t * step`: the kept windows
      are the first `count` candidates, in order. */
  lemma {:induction false} SlicesAt(buf: seq<real>, n: nat, step: nat, chunk: nat, t: nat, u: nat)
    requires t < Count(n, step, chunk, |buf|) && u < chunk
    ensures t * step + u < |buf| && t * chunk + u < |Slices(buf, n, step, chunk)|
    ensures Slices(buf, n, step, chunk)[t * chunk + u] == buf[t * step + u]
  {
    CountPrefix(n, step, chunk, |buf|);
    SlicesLength(buf, n, step, chunk);
    var c := Count(n - 1, step, chunk, |buf|);
    SlicesLength(buf, n - 1, step, chunk);
    CountPrefix(n - 1, step, chunk, |buf|);
    RowFits(t, Count(n, step, chunk, |buf|), chunk);
    if t < c {
      SlicesAt(buf, n - 1, step, chunk, t, u);
      RowFits(t, c, chunk);
    } else {
      assert t == n - 1 && c == n - 1;
    }
  }

  lemma RowFits(t: nat, q: nat, w: nat)
    requires t < q
    ensures t * w + w <= q * w
  {
    RowBelow(t, q, w);
  }

  /* ---------------------------------------------------------------------- */
  /* Windows of an image (the rank-3 branch)                                  */

  /** The grid of `x: [H, W, C]` under a kernel of at least two extents. */
  function GridOf(x: NdArray, kernel: seq<nat>, chunk: nat, stride: nat): Grid
    requires |x.shape| == 3 && |kernel| >= 2
  {
    Grid(x.buffer, x.strides, x.shape[0], x.shape[1], kernel[0], kernel[1], stride, chunk)
  }

  /** Some window is tried: the first origin `(0, 0)` is visited and the
      kernel fits inside `H x W`. */
  predicate Reached(g: Grid)
  {
    g.stride > 0 && g.h / g.stride > 0 && g.w / g.stride > 0 && g.kh <= g.h && g.kw <= g.w
  }

  /** The rank-3 branch on `[H, W, C]` with kernel `kernel`: a zero stride
      divides by zero; a short kernel is indexed out of bounds as soon as a
      row (`kernel[0]`) or a column (`kernel[1]`) is tried; strides of
      another rank fail the first offset computation; otherwise the emitted
      windows, origin by origin in row-major order, with shape
      `[count, chunk]`. */
  function Im2col3Spec(x: NdArray, kernel: seq<nat>, chunk: nat, stride: nat): Result<NdArray>
    requires |x.shape| == 3
  {
    var h, w := x.shape[0], x.shape[1];
    if stride == 0 then Failure(DivideByZero)
    else
      var ni, nj := h / stride, w / stride;
      if ni > 0 && |kernel| == 0 then Failure(IndexPanic)
      else if ni > 0 && |kernel| == 1 && kernel[0] <= h && nj > 0 then Failure(IndexPanic)
      else if |kernel| < 2 then Success(From([], Some([0, chunk]), None))
      else
        var g := GridOf(x, kernel, chunk, stride);
        if !Addressable(g) && Reached(g) then Failure(OffsetPanic)
        else if !Addressable(g) then Success(From([], Some([0, chunk]), None))
        else Success(From(RowWindows(g, nj, ni), Some([RowCount(g, nj, ni), chunk]), None))
  }

  /** What the column loop of row origin `row` adds to the result (its rows
      and their count), or why it panics: `kernel[1]` is read at the first
      column, and the first window inside `W` computes an offset. */
  function ColumnScanSpec(x: NdArray, kernel: seq<nat>, chunk: nat, stride: nat, row: nat): Result<(seq<real>, nat)>
    requires |x.shape| == 3 && stride > 0 && |kernel| >= 1
  {
    var nj := x.shape[1] / stride;
    if nj == 0 then Success(([], 0))
    else if |kernel| == 1 then Failure(IndexPanic)
    else
      var g := GridOf(x, kernel, chunk, stride);
      if !Addressable(g) && g.kw <= g.w then Failure(OffsetPanic)
      else if !Addressable(g) then Success(([], 0))
      else Success((ColumnWindows(g, row, nj), ColumnCount(g, row, nj)))
  }

  /** The column loop of one row origin. */
  method ScanColumns(x: NdArray, kernel: seq<nat>, chunk: nat, stride: nat, row: nat)
    returns (r: Result<(seq<real>, nat)>)
    requires |x.shape| == 3 && stride > 0 && |kernel| >= 1 && row + kernel[0] <= x.shape[0]
    ensures r == ColumnScanSpec(x, kernel, chunk, stride, row)
  {
    var w := x.shape[1];
    var res: seq<real> := [];
    var cnt := 0;
    ghost var g := if |kernel| >= 2 then GridOf(x, kernel, chunk, stride) else Grid([], [], 0, 0, 0, 0, 0, 0);
    for j := 0 to w / stride
      invariant |kernel| >= 2 && Addressable(g) ==> res == ColumnWindows(g, row, j) && cnt == ColumnCount(g, row, j)
      invariant (|kernel| < 2 || !Addressable(g)) ==> res == [] && cnt == 0
      invariant |kernel| >= 2 && !Addressable(g) && g.kw <= w ==> j == 0
      invariant |kernel| == 1 ==> j == 0
    {
      var col := j * stride;
      if |kernel| < 2 {
        return Failure(IndexPanic);
      }
      if col + kernel[1] > w {
        continue;
      }
      var window := Window(GridOf(x, kernel, chunk, stride), row, col);
      if window.None? {
        return Failure(OffsetPanic);
      }
      if |window.value| != chunk {
        continue;
      }
      cnt := cnt + 1;
      res := res + window.value;
    }
    return Success((res, cnt));
  }

  method Im2col3(x: NdArray, kernel: seq<nat>, chunk: nat, stride: nat) returns (r: Result<NdArray>)
    requires |x.shape| == 3
    ensures r == Im2col3Spec(x, kernel, chunk, stride)
  {
    var h, w := x.shape[0], x.shape[1];
    var res: seq<real> := [];
    var cnt := 0;
    if stride == 0 {
      return Failure(DivideByZero);
    }
    ghost var g := if |kernel| >= 2 then GridOf(x, kernel, chunk, stride) else Grid([], [], 0, 0, 0, 0, 0, 0);
    for i := 0 to h / stride
      invariant |kernel| >= 2 && Addressable(g) ==> res == RowWindows(g, w / stride, i) && cnt == RowCount(g, w / stride, i)
      invariant (|kernel| < 2 || !Addressable(g)) ==> res == [] && cnt == 0
      invariant |kernel| >= 2 && !Addressable(g) && Reached(g) ==> i == 0
      invariant |kernel| == 1 && kernel[0] <= h && w / stride > 0 ==> i == 0
      invariant |kernel| == 0 ==> i == 0
    {
      var row := i * stride;
      if |kernel| < 1 {
        return Failure(IndexPanic);
      }
      if row + kernel[0] > h {
        continue;
      }
      var scanned := ScanColumns(x, kernel, chunk, stride, row);
      if scanned.Failure? {
        return Failure(scanned.error);
      }
      res := res + scanned.value.0;
      cnt := cnt + scanned.value.1;
    }
    return Success(From(res, Some([cnt, chunk]), None));
  }

  /* ---------------------------------------------------------------------- */
  /* im2col                                                                   */

  /** `im2col(x, kernel_size, stride, padding, pad_value)`: more than two
      padding entries panic; `padding[0]` pads the last axis with
      `pad_x_1d` (`padding[1]` is never applied); the row width is the
      kernel's product times the last extent (an empty shape has none); then
      the rank-2 or rank-3 branch, and any other rank is `todo!()`. */
  function Im2colSpec(x: NdArray, kernel: seq<nat>, stride: nat, padding: seq<nat>, padValue: Option<real>): Result<NdArray>
  {
    if |padding| > 2 then Failure(PaddingPanic)
    else
      var y :- if |padding| > 0 then PadX1dSpec(x, padding[0], padValue) else Success(x);
      UnfoldSpec(y, kernel, stride)
  }

  /** The part of `im2col` after padding. */
  function UnfoldSpec(y: NdArray, kernel: seq<nat>, stride: nat): Result<NdArray>
  {
    if |y.shape| == 0 then Failure(UnwrapNone)
    else
      var chunk := KernelProduct(kernel) * y.shape[|y.shape| - 1];
      if |y.shape| == 2 then Im2col2Spec(y, chunk, stride)
      else if |y.shape| == 3 then Im2col3Spec(y, kernel, chunk, stride)
      else Failure(RankTodo)
  }

  method Im2col(x: NdArray, kernel: seq<nat>, stride: nat, padding: seq<nat>, padValue: Option<real>)
    returns (r: Result<NdArray>)
    ensures r == Im2colSpec(x, kernel, stride, padding, padValue)
  {
    if |padding| > 2 {
      return Failure(PaddingPanic);
    }
    var y := x;
    if |padding| > 0 {
      var padded := PadX1d(y, padding[0], padValue);
      if padded.Failure? {
        return Failure(padded.error);
      }
      y := padded.value;
    }
    r := Unfold(y, kernel, stride);
  }

  method Unfold(y: NdArray, kernel: seq<nat>, stride: nat) returns (r: Result<NdArray>)
    ensures r == UnfoldSpec(y, kernel, stride)
  {
    if |y.shape| == 0 {
      return Failure(UnwrapNone);
    }
    var chunk := KernelProduct(kernel) * y.shape[|y.shape| - 1];
    if |y.shape| == 2 {
      r := Im2col2(y, chunk, stride);
    } else if |y.shape| == 3 {
      r := Im2col3(y, kernel, chunk, stride);
    } else {
      r := Failure(RankTodo);
    }
  }

  /* ---------------------------------------------------------------------- */
  /* What the windows are                                                     */

  lemma DivScaled(a: nat, b: nat, c: nat)
    requires b > 0 && c > 0
    ensures (a * c) / (b * c) == a / b
  {
    var q, m := a / b, a % b;
    assert a == q * b + m;
    assert a * c == q * (b * c) + m * c;
    assert m * c < b * c by {
      MulLeq(m + 1, b, c);
    }
    DivModUnique(a * c, b * c, q, m * c);
  }

  /** With a kernel at least as long as the stride, the last window that
      fits starts before the last candidate the loop bound allows. */
  lemma LastWindowInside(n: nat, k: nat, s: nat)
    requires 0 < s <= k <= n
    ensures (n - k) / s < n / s
  {
    var q, m := (n - s) / s, (n - s) % s;
    DivModUnique(n, s, q + 1, m);
    assert (n - k) / s <= (n - s) / s by {
      DivMono(n - k, n - s, s);
    }
  }

  lemma DivMono(a: nat, b: nat, s: nat)
    requires a <= b && s > 0
    ensures a / s <= b / s
  {
    var qa, qb := a / s, b / s;
    assert a == qa * s + a % s && b == qb * s + b % s;
    if qa > qb {
      MulLeq(qb + 1, qa, s);
    }
  }

  /** A candidate of the `[N, C]` branch fits exactly when its window of
      `k` rows fits among the `N` rows. */
  lemma FitsScaled(i: nat, s: nat, k: nat, n: nat, ch: nat)
    requires ch > 0
    ensures Fits(i, s * ch, k * ch, n * ch) <==> Fits(i, s, k, n)
  {
    assert i * (s * ch) + k * ch == (i * s + k) * ch by {
      assert i * (s * ch) == (i * s) * ch;
    }
    if i * s + k <= n {
      MulLeq(i * s + k, n, ch);
    } else {
      MulLeq(n + 1, i * s + k, ch);
    }
  }

  /** The window of the conv1d branch: on a contiguous `[N, C]` array with a
      one-extent kernel `[k]` at least as long as the stride, `im2col` gives
      the contiguous `[(N - k) / s + 1, k * C]` array whose row `t` is the
      `k * C` cells from row `t * s` of `x`. */
  lemma Im2col1dWindows(x: NdArray, k: nat, s: nat)
    requires Contiguous(x) && |x.shape| == 2 && x.shape[1] > 0 && 0 < s <= k <= x.shape[0]
    ensures Im2colSpec(x, [k], s, [], None).Success?
    ensures var n, ch := x.shape[0], x.shape[1];
      var r := Im2colSpec(x, [k], s, [], None).value;
      && r.shape == [(n - k) / s + 1, k * ch] && Contiguous(r)
      && forall t: nat, u: nat :: t < r.shape[0] && u < k * ch ==> IsWindowCell(r.buffer, x.buffer, t, u, k * ch, s * ch)
  {
    var n, ch := x.shape[0], x.shape[1];
    ProductExample(x.shape);
    assert Product([k]) == k by {
      assert [k][1..] == [];
    }
    var step, chunk, len := s * ch, k * ch, n * ch;
    assert |x.buffer| == len;
    DivScaled(n, s, ch);
    assert len / step == n / s;
    LastWindowInside(n, k, s);
    assert (len - chunk) / step == (n - k) / s by {
      assert len - chunk == (n - k) * ch;
      DivScaled(n - k, s, ch);
    }
    MulLeq(k, n, ch);
    CountClosed(n / s, step, chunk, len);
    SlicesLength(x.buffer, n / s, step, chunk);
    var r := Im2colSpec(x, [k], s, [], None).value;
    assert r == From(Slices(x.buffer, n / s, step, chunk), Some([(n - k) / s + 1, chunk]), None);
    RowsContiguous(r.buffer, (n - k) / s + 1, chunk);
    forall t: nat, u: nat | t < r.shape[0] && u < chunk
      ensures IsWindowCell(r.buffer, x.buffer, t, u, chunk, step)
    {
      SlicesAt(x.buffer, n / s, step, chunk, t, u);
    }
  }

  /** Cell `u` of output row `t` is cell `u` of the window at `t * step`. */
  predicate IsWindowCell(out: seq<real>, buf: seq<real>, t: nat, u: nat, chunk: nat, step: nat)
  {
    t * chunk + u < |out| && t * step + u < |buf| && out[t * chunk + u] == buf[t * step + u]
  }

  /** An `[rows, chunk]` array over exactly `rows * chunk` cells is
      contiguous. */
  lemma RowsContiguous(buf: seq<real>, rows: nat, chunk: nat)
    requires |buf| == rows * chunk
    ensures Contiguous(From(buf, Some([rows, chunk]), None))
  {
    ProductExample([rows, chunk]);
  }

  /* ---------------------------------------------------------------------- */
  /* The rank-2 loop bound                                                    */

  /** The loop of the rank-2 branch runs `len / step` candidates; with a
      kernel shorter than the stride the last window that fits can lie
      beyond that bound. On five one-channel rows, kernel `[1]` and stride 2
      the windows at rows 0, 2 and 4 all fit, and the convolution size
      `(5 - 1) / 2 + 1` is 3, but only two rows come out. */
  lemma Im2col2DropsLastWindow()
    ensures var x := NdArray([0.0, 1.0, 2.0, 3.0, 4.0], [1, 1], [5, 1]);
      && Im2colSpec(x, [1], 2, [], None).Success?
      && Im2colSpec(x, [1], 2, [], None).value.shape == [2, 1]
      && Fits(2, 2, 1, 5) && (5 - 1) / 2 + 1 == 3
  {
    var x := NdArray([0.0, 1.0, 2.0, 3.0, 4.0], [1, 1], [5, 1]);
    assert KernelProduct([1]) == 1 by {
      assert [1][1..] == [];
    }
    assert Count(2, 2, 1, 5) == 2 by {
      assert Fits(0, 2, 1, 5) && Fits(1, 2, 1, 5);
      assert Count(1, 2, 1, 5) == 1;
    }
  }

  /** The rank-2 branch with the loop running over every start that can
      fit, `(len - chunk) / step + 1` of them. */
  function Im2col2FixedSpec(x: NdArray, chunk: nat, stride: nat): Result<NdArray>
    requires |x.shape| == 2
  {
    var step := stride * x.shape[1];
    if step == 0 then Failure(DivideByZero)
    else
      var len := |x.buffer|;
      var n := if chunk <= len then (len - chunk) / step + 1 else 0;
      Success(From(Slices(x.buffer, n, step, chunk), Some([Count(n, step, chunk, len), chunk]), None))
  }

  /** With the corrected bound every kernel no longer than the input, of any
      length relative to the stride, gives the convolution size
      `(N - k) / s + 1` rows, each the window from row `t * s`. */
  lemma Im2col2FixedWindows(x: NdArray, k: nat, s: nat)
    requires Contiguous(x) && |x.shape| == 2 && x.shape[1] > 0 && s > 0 && k <= x.shape[0]
    ensures Im2col2FixedSpec(x, k * x.shape[1], s).Success?
    ensures var n, ch := x.shape[0], x.shape[1];
      var r := Im2col2FixedSpec(x, k * ch, s).value;
      && r.shape == [(n - k) / s + 1, k * ch] && Contiguous(r)
      && forall t: nat, u: nat :: t < r.shape[0] && u < k * ch ==> IsWindowCell(r.buffer, x.buffer, t, u, k * ch, s * ch)
  {
    var n, ch := x.shape[0], x.shape[1];
    ProductExample(x.shape);
    var step, chunk, len := s * ch, k * ch, n * ch;
    assert |x.buffer| == len;
    MulLeq(k, n, ch);
    assert (len - chunk) / step == (n - k) / s by {
      assert len - chunk == (n - k) * ch;
      DivScaled(n - k, s, ch);
    }
    var m := (n - k) / s + 1;
    CountClosed(m, step, chunk, len);
    SlicesLength(x.buffer, m, step, chunk);
    var r := Im2col2FixedSpec(x, chunk, s).value;
    assert r == From(Slices(x.buffer, m, step, chunk), Some([m, chunk]), None);
    RowsContiguous(r.buffer, m, chunk);
    forall t: nat, u: nat | t < r.shape[0] && u < chunk
      ensures IsWindowCell(r.buffer, x.buffer, t, u, chunk, step)
    {
      SlicesAt(x.buffer, m, step, chunk, t, u);
    }
  }

  /* ---------------------------------------------------------------------- */
  /* The rank-3 windows of a contiguous image                                 */

  /** On a contiguous `[H, W, C]` image with a `kh x kw` kernel, `im2col`
      emits one row per origin `(a * s, b * s)` whose kernel fits, among the
      candidates `a < H / s`, `b < W / s`, in row-major order: the result is
      the contiguous `[count, kh * kw * C]` array whose row `a * cc + b`
      (`cc` origins per row) is the window at that origin, made of `kh`
      kernel rows of `kw * C` cells read from image rows `a * s + q`. */
  lemma Im2col2dWindows(x: NdArray, kh: nat, kw: nat, s: nat)
    requires Contiguous(x) && |x.shape| == 3 && s > 0
    ensures Im2colSpec(x, [kh, kw], s, [], None).Success?
    ensures var h, w, c := x.shape[0], x.shape[1], x.shape[2];
      var g := GridOf(x, [kh, kw], kh * kw * c, s);
      var ci, cc := Count(h / s, s, kh, h), Count(w / s, s, kw, w);
      var r := Im2colSpec(x, [kh, kw], s, [], None).value;
      && Addressable(g) && Canonical(g, c)
      && r.shape == [ci * cc, kh * kw * c] && Contiguous(r)
      && forall a: nat, b: nat :: a < ci && b < cc ==> IsOutputWindow(r.buffer, g, cc, a, b)
  {
    var h, w, c := x.shape[0], x.shape[1], x.shape[2];
    assert x.shape == [h, w, c];
    ImageStrides(h, w, c);
    assert KernelProduct([kh, kw]) == kh * kw by {
      ProductExample([kh, kw]);
    }
    var chunk := kh * kw * c;
    var g := GridOf(x, [kh, kw], chunk, s);
    assert Canonical(g, c);
    var ci, cc := Count(h / s, s, kh, h), Count(w / s, s, kw, w);
    RowsCounted(g, c, w / s, h / s);
    var r := Im2colSpec(x, [kh, kw], s, [], None).value;
    assert r == From(RowWindows(g, w / s, h / s), Some([ci * cc, chunk]), None);
    RowsContiguous(r.buffer, ci * cc, chunk);
    forall a: nat, b: nat | a < ci && b < cc
      ensures IsOutputWindow(r.buffer, g, cc, a, b)
    {
      RowWindowAt(g, c, w / s, h / s, a, b);
    }
  }

  /* ---------------------------------------------------------------------- */
  /* The crate's unit test                                                    */

  /** `arange(0, 15)` as `[5, 3]` with kernel `[3]` and padding `[0]`:
      stride `s` in 1 or 2 gives `(5 - 3) / s + 1` rows of 9 cells, row `t`
      holding `t * 3 * s + u`. */
  lemma Im2colSequenceExample(x: NdArray, s: nat)
    requires x == NdArray(seq(15, i => i as real), [3, 1], [5, 3]) && (s == 1 || s == 2)
    ensures Im2colSpec(x, [3], s, [0], None).Success?
    ensures var r := Im2colSpec(x, [3], s, [0], None).value;
      && r.shape == (if s == 1 then [3, 9] else [2, 9])
      && forall t: nat, u: nat :: t < r.shape[0] && u < 9 ==> IsArangeWindowCell(r.buffer, s, t, u)
  {
    assert Im2colSpec(x, [3], s, [0], None) == Im2colSpec(x, [3], s, [], None);
    ImageShape2(x);
    Im2col1dWindows(x, 3, s);
    var r := Im2colSpec(x, [3], s, [0], None).value;
    forall t: nat, u: nat | t < r.shape[0] && u < 9
      ensures IsArangeWindowCell(r.buffer, s, t, u)
    {
      assert IsWindowCell(r.buffer, x.buffer, t, u, 3 * 3, s * 3);
    }
  }

  /** Cell `u` of row `t` holds `t * 3 * s + u`. */
  predicate IsArangeWindowCell(out: seq<real>, s: nat, t: nat, u: nat)
  {
    t * 9 + u < |out| && out[t * 9 + u] == (t * (s * 3) + u) as real
  }

  lemma ImageShape2(x: NdArray)
    requires x == NdArray(seq(15, i => i as real), [3, 1], [5, 3])
    ensures Contiguous(x)
  {
    ProductExample(x.shape);
    assert x.shape[1..] == [3] && x.shape[2..] == [];
    assert Strides(x.shape) == [3, 1];
  }

  /** `arange` as a `28 x 28 x 3` image with a `3 x 3` kernel: `26 * 26`
      windows at stride 1 and `13 * 13` at stride 2, 27 cells each. */
  lemma Im2colImageExample(x: NdArray)
    requires Contiguous(x) && x.shape == [28, 28, 3]
    ensures Im2colSpec(x, [3, 3], 1, [0, 0], None).Success?
    ensures Im2colSpec(x, [3, 3], 1, [0, 0], None).value.shape == [26 * 26, 3 * 3 * 3]
    ensures Im2colSpec(x, [3, 3], 2, [0, 0], None).Success?
    ensures Im2colSpec(x, [3, 3], 2, [0, 0], None).value.shape == [13 * 13, 3 * 3 * 3]
  {
    assert Im2colSpec(x, [3, 3], 1, [0, 0], None) == Im2colSpec(x, [3, 3], 1, [], None);
    assert Im2colSpec(x, [3, 3], 2, [0, 0], None) == Im2colSpec(x, [3, 3], 2, [], None);
    Im2col2dWindows(x, 3, 3, 1);
    Im2col2dWindows(x, 3, 3, 2);
    CountClosed(28, 1, 3, 28);
    CountClosed(14, 2, 3, 28);
  }
}
