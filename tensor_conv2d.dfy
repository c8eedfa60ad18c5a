/** The `Conv2d` operator of `packages/tensor/src/ops/conv/conv2d.ts`.

    `compute` records the origin-to-window map (see `Conv2dMapping`), then
    hands the work to the Rust `NdArray`: `im2col` of the image, times the
    kernel reshaped to `[kh * kw * cin, cout]`, reshaped to
    `[hout, wout, cout]`.  `gradient` returns a zero input gradient and the
    weight gradient `im2col^T x outGrad`.

    The reshapes are written with `ReshapeFixed`: the requests built here
    have no negative entry while every extent is below 2^31, and on such
    requests it is the reshape as written (`ReshapeAgreesNonNegative`). */
module TensorConv2d {
  import opened Wrappers
  import opened IndexMath
  import opened ConvGeometry
  import opened Linalg
  import opened RustNdArray
  import opened RustOps
  import opened RustPad
  import opened RustIm2col
  import opened Windows
  import opened Conv2dMapping
  import TensorConv1d

  /* ---------------------------------------------------------------------- */
  /* Construction                                                             */

  function PaddingMessage(p: int): string
  {
    "conv2d: padding must be greater or equal than 0, got " + Numeral(p)
  }

  function StrideMessage(s: int): string
  {
    "conv2d: stride must be greater than 0, got " + Numeral(s)
  }

  /** The constructor's defaults (padding 0, stride 1, padValue 0) and its
      two assertions, padding first, each message carrying the value. */
  function Configure(stride: Option<int>, padding: Option<int>, padValue: Option<real>): (r: Result<TensorConv1d.Params>)
    ensures var p := if padding.Some? then padding.value else 0;
      var s := if stride.Some? then stride.value else 1;
      && (p < 0 ==> r == Failure(PaddingMessage(p)))
      && (p >= 0 && s <= 0 ==> r == Failure(StrideMessage(s)))
      && (r.Success? <==> p >= 0 && s > 0)
      && (r.Success? ==> TensorConv1d.Checked(r.value) && r.value.stride == s && r.value.padding == p)
    ensures r.Success? ==> r.value.padValue == (if padValue.Some? then padValue.value else 0.0)
  {
    var p := if padding.Some? then padding.value else 0;
    if p < 0 then Failure(PaddingMessage(p))
    else
      var s := if stride.Some? then stride.value else 1;
      if s <= 0 then Failure(StrideMessage(s))
      else Success(TensorConv1d.Params(s, p, if padValue.Some? then padValue.value else 0.0))
  }

  /** `new Conv2d({ padding: -1 })` and `new Conv2d({ stride: 0 })` throw
      with the offending value in the message; `new Conv2d()` takes the
      defaults. */
  lemma ConfigureExamples()
    ensures Configure(None, Some(-1), None) == Failure("conv2d: padding must be greater or equal than 0, got -1")
    ensures Configure(Some(0), None, None) == Failure("conv2d: stride must be greater than 0, got 0")
    ensures Configure(None, None, None) == Success(TensorConv1d.Params(1, 0, 0.0))
  {
    assert Decimal(1) == "1" && Decimal(0) == "0";
  }

  /* ---------------------------------------------------------------------- */
  /* The forward pass as a value                                              */

  /** `range(n)` of lodash counts down from 0 for a negative `n`; the model
      covers output extents that are not negative. */
  predicate Spans(size: seq<int>, kernelSize: seq<int>, s: int, p: int)
    requires s > 0
  {
    |size| == 3 && |kernelSize| == 4 ==>
      OutExtent(size[0], kernelSize[0], s, p) >= 0 && OutExtent(size[1], kernelSize[1], s, p) >= 0
  }

  /** The extents `getConv2dSize` gives for a rank-3 image and a rank-4
      kernel. */
  lemma Conv2dSizeValue(size: seq<int>, kernelSize: seq<int>, s: int, p: int)
    requires s > 0 && |size| == 3 && |kernelSize| == 4
    ensures Conv2dSize(size, kernelSize, s, p)
      == Success([OutExtent(size[0], kernelSize[0], s, p), OutExtent(size[1], kernelSize[1], s, p), kernelSize[3]])
  {
    var a, b := size[..2], kernelSize[..2];
    assert a == [size[0], size[1]] && b == [kernelSize[0], kernelSize[1]];
    var r := ConvSizeSpec(a, b, s, p);
    var e0, e1 := OutExtent(size[0], kernelSize[0], s, p), OutExtent(size[1], kernelSize[1], s, p);
    assert r[0] == e0;
    assert r[1] == e1;
    assert r == [e0, e1];
    assert Conv2dSize(size, kernelSize, s, p) == Success(r + [kernelSize[3]]);
    assert r + [kernelSize[3]] == [e0, e1, kernelSize[3]];
  }

  /** The same extents as integer divisions. */
  lemma Conv2dSizeDivision(size: seq<int>, kernelSize: seq<int>, s: int, p: int)
    requires s > 0 && |size| == 3 && |kernelSize| == 4
    ensures Conv2dSize(size, kernelSize, s, p)
      == Success([(size[0] + 2 * p - kernelSize[0]) / s + 1, (size[1] + 2 * p - kernelSize[1]) / s + 1, kernelSize[3]])
  {
    Conv2dSizeValue(size, kernelSize, s, p);
    OutExtentDivision(size[0], kernelSize[0], s, p);
    OutExtentDivision(size[1], kernelSize[1], s, p);
  }

  /** What the loops of `compute` read, for a rank-3 image and a rank-4
      kernel. */
  function GeometryOf(x: NdArray, w: NdArray, s: int, p: int): Geometry
    requires s > 0 && p >= 0 && |x.shape| == 3 && |w.shape| == 4 && Spans(x.shape, w.shape, s, p)
  {
    Geometry(x.shape[0], x.shape[1], w.shape[0], w.shape[1], s, p,
             OutExtent(x.shape[0], w.shape[0], s, p), OutExtent(x.shape[1], w.shape[1], s, p))
  }

  /** The kernel as a `[kh * kw * cin, cout]` matrix (`Int32Array` of the
      products). */
  function FlatKernel(w: NdArray): Result<NdArray>
    requires |w.shape| == 4
  {
    ReshapeFixed(w, [I32Of(w.shape[0] * w.shape[1] * w.shape[2]), I32Of(w.shape[3])])
  }

  /** The output of `compute` on two present values: `getConv2dSize`, then
      `im2col` with the stride and `[padding, padding]`, the product with
      the flattened kernel, and the reshape to `[hout, wout, cout]`; each
      step's panic is the result. */
  function Conv2dSpec(x: NdArray, w: NdArray, s: int, p: int, v: real): Result<NdArray>
    requires s > 0 && p >= 0 && Spans(x.shape, w.shape, s, p)
  {
    var size :- Conv2dSize(x.shape, w.shape, s, p);
    Conv2dSizeSound(x.shape, w.shape, s, p);
    Conv2dSizeValue(x.shape, w.shape, s, p);
    var cols :- Im2colSpec(x, [w.shape[0], w.shape[1]], s, [p, p], Some(v));
    var flat :- FlatKernel(w);
    var res :- MatmulSpec(cols, flat);
    ReshapeFixed(res, [I32Of(size[0]), I32Of(size[1]), I32Of(w.shape[3])])
  }

  /** The mapping after `compute` on two present values: cleared, and
      refilled once `getConv2dSize` accepted the shapes. */
  function MappingOf(x: NdArray, w: NdArray, s: int, p: int): Mapping
    requires s > 0 && p >= 0 && Spans(x.shape, w.shape, s, p)
  {
    Conv2dSizeSound(x.shape, w.shape, s, p);
    if Conv2dSize(x.shape, w.shape, s, p).Failure? then map[] else MappingSpec(GeometryOf(x, w, s, p))
  }

  /** `savedIm2cols` after `compute` on two present values: assigned once
      `im2col` returned, kept otherwise. */
  function SavedOf(x: NdArray, w: NdArray, s: int, p: int, v: real, prev: Option<NdArray>): Option<NdArray>
    requires s > 0 && p >= 0
  {
    if Conv2dSize(x.shape, w.shape, s, p).Failure? then prev
    else
      Conv2dSizeSound(x.shape, w.shape, s, p);
      match Im2colSpec(x, [w.shape[0], w.shape[1]], s, [p, p], Some(v))
      case Success(cols) => Some(cols)
      case Failure(_) => prev
  }

  /* ---------------------------------------------------------------------- */
  /* The gradient as a value                                                  */

  /** `deconvKernel`: the kernel reshaped to `[kh * kw * cin, cout]`,
      where `cin` is the input's channel count and `cout` the gradient's,
      then transposed. */
  function DeconvKernel(w: NdArray, cin: nat, cout: nat): Result<NdArray>
    requires |w.shape| == 4
  {
    var flat :- ReshapeFixed(w, [I32Of(w.shape[0] * w.shape[1] * cin), I32Of(cout)]);
    PermuteSpec(flat, ReversedAxes(|flat.shape|))
  }

  /** `outGrad.flatten().reshape([hout * wout, cout])`. */
  function FlatGrad(g: NdArray): Result<NdArray>
    requires |g.shape| == 3
  {
    var flat :- Flatten(g);
    ReshapeFixed(flat, [I32Of(g.shape[0] * g.shape[1]), I32Of(g.shape[2])])
  }

  /** `gradient(outGrad, input, weight)` on present values: the zero input
      gradient, then `deconvKernel` (computed, never used), then the weight
      gradient `savedIm2cols^T x flatGrad` reshaped to `[kh, kw, cin, cout]`,
      which optional chaining leaves undefined when nothing was saved. */
  function GradientSpec(g: NdArray, x: NdArray, w: NdArray, saved: Option<NdArray>): Result<(NdArray, Option<NdArray>)>
    requires |g.shape| == 3 && |x.shape| == 3 && |w.shape| == 4
  {
    var inputGrad := Zeros(x.shape);
    var _ :- DeconvKernel(w, x.shape[2], g.shape[2]);
    var transposed :- if saved.None? then Success(None)
      else match PermuteSpec(saved.value, ReversedAxes(|saved.value.shape|))
           case Success(t) => Success(Some(t))
           case Failure(e) => Failure(e);
    var flatGrad :- FlatGrad(g);
    if transposed.None? then Success((inputGrad, None))
    else
      var prod :- MatmulSpec(transposed.value, flatGrad);
      var wg :- ReshapeFixed(prod, [I32Of(w.shape[0]), I32Of(w.shape[1]), I32Of(x.shape[2]), I32Of(g.shape[2])]);
      Success((inputGrad, Some(wg)))
  }

  /* ---------------------------------------------------------------------- */
  /* The operator                                                             */

  class Conv2dOp {
    const stride: int
    const padding: int
    const padValue: real
    /** Image row to image column to the output positions whose windows
        cover that cell. */
    var mapping: Mapping
    /** `[count, kh * kw * cin]`: the `im2col` of the last `compute`. */
    var savedIm2cols: Option<NdArray>

    /** `new Conv2d({ stride, padding, padValue })` after `Configure`
        accepted the options. */
    constructor (p: TensorConv1d.Params)
      requires TensorConv1d.Checked(p)
      ensures stride == p.stride && padding == p.padding && padValue == p.padValue
      ensures mapping == map[] && savedIm2cols == None
    {
      stride, padding, padValue := p.stride, p.padding, p.padValue;
      mapping, savedIm2cols := map[], None;
    }

    /** `compute(input, weight)`: the mapping is cleared first and a
        missing value throws; otherwise the result is `Conv2dSpec`, the
        mapping is the one `MappingSpec` describes and the `im2col` is
        saved when it did not panic. */
    method Compute(input: Option<NdArray>, weight: Option<NdArray>) returns (r: Result<NdArray>)
      requires stride > 0 && padding >= 0
      requires input.Some? && weight.Some? ==> Spans(input.value.shape, weight.value.shape, stride, padding)
      modifies this`mapping, this`savedIm2cols
      ensures input.None? || weight.None? ==>
        r == Failure(TensorConv1d.ValueIsNull) && mapping == map[] && savedIm2cols == old(savedIm2cols)
      ensures input.Some? && weight.Some? ==>
        && r == Conv2dSpec(input.value, weight.value, stride, padding, padValue)
        && mapping == MappingOf(input.value, weight.value, stride, padding)
        && savedIm2cols == SavedOf(input.value, weight.value, stride, padding, padValue, old(savedIm2cols))
    {
      mapping := map[];
      if input.None? || weight.None? {
        return Failure(TensorConv1d.ValueIsNull);
      }
      var x, w := input.value, weight.value;
      var size := Conv2dSize(x.shape, w.shape, stride, padding);
      if size.Failure? {
        return Failure(size.error);
      }
      Conv2dSizeSound(x.shape, w.shape, stride, padding);
      Conv2dSizeValue(x.shape, w.shape, stride, padding);
      FillMapping(GeometryOf(x, w, stride, padding));
      var cols := Im2col(x, [w.shape[0], w.shape[1]], stride, [padding, padding], Some(padValue));
      if cols.Failure? {
        return Failure(cols.error);
      }
      savedIm2cols := Some(cols.value);
      var flat := FlatKernel(w);
      if flat.Failure? {
        return Failure(flat.error);
      }
      var res := Matmul(cols.value, flat.value);
      if res.Failure? {
        return Failure(res.error);
      }
      r := ReshapeFixed(res.value, [I32Of(size.value[0]), I32Of(size.value[1]), I32Of(w.shape[3])]);
    }

    /** The `range(hout)` / `range(wout)` loops over the output positions,
        row-major, from the cleared map. */
    method FillMapping(g: Geometry)
      requires mapping == map[]
      modifies this`mapping
      ensures mapping == MappingSpec(g)
    {
      var h := 0;
      while h < g.hout
        invariant 0 <= h <= g.hout && mapping == Build(g, h)
      {
        ghost var before := mapping;
        var w := 0;
        while w < g.wout
          invariant 0 <= w <= g.wout && mapping == Cols(g, before, h, w)
        {
          MapWindow(g, h, w);
          w := w + 1;
        }
        h := h + 1;
      }
    }

    /** The window of output position `(h, w)`: padded rows
        `h * s <= i < h * s + kh` and columns `w * s <= j < w * s + kw`. */
    method MapWindow(g: Geometry, h: nat, w: nat)
      modifies this`mapping
      ensures mapping == Rows(g, old(mapping), h, w, Start(g, h), g.kh)
    {
      var startH, startW := h * g.s, w * g.s;
      var endH, endW := startH + g.kh, startW + g.kw;
      StartIs(g, h);
      StartIs(g, w);
      MapRows(g, h, w, Start(g, h), startH, endH, startW, endW);
    }

    /** The `i` loop of the window of `(h, w)`: for each padded row `i`,
        the outer entry of image row `i - p` is created if missing, then
        `MapRow` runs on it. */
    method MapRows(g: Geometry, h: nat, w: nat, ghost a0: int, startH: int, endH: int, startW: int, endW: int)
      requires startH == a0 + g.p && endH == startH + g.kh
      requires startW == Start(g, w) + g.p && endW == startW + g.kw
      modifies this`mapping
      ensures mapping == Rows(g, old(mapping), h, w, a0, g.kh)
    {
      ghost var m0 := mapping;
      var i := startH;
      while i < endH
        invariant startH <= i <= endH
        invariant mapping == Rows(g, m0, h, w, a0, i - startH)
      {
        var ii := i - g.p;
        mapping := mapping[ii := if ii in mapping then mapping[ii] else map[]];
        MapRow(g, h, w, ii, startW, endW);
        i := i + 1;
      }
    }

    /** One padded row of the window of `(h, w)`, at image row `ii`, over
        the padded columns `startW <= j < endW`: `(h, w)` is appended at
        each image cell of that row the window covers. */
    method MapRow(g: Geometry, h: nat, w: nat, ii: int, startW: int, endW: int)
      requires ii in mapping && startW == Start(g, w) + g.p && endW == startW + g.kw
      modifies this`mapping
      ensures mapping == Cells(g, old(mapping), h, w, ii, Start(g, w), g.kw)
    {
      ghost var m1 := mapping;
      var j := startW;
      while j < endW
        invariant startW <= j <= endW
        invariant ii in mapping && mapping == Cells(g, m1, h, w, ii, Start(g, w), j - startW)
      {
        var jj := j - g.p;
        if 0 <= ii < g.hin && 0 <= jj < g.win {
          var record := if jj in mapping[ii] then mapping[ii][jj] else [];
          mapping := mapping[ii := mapping[ii][jj := record + [(h, w)]]];
        }
        j := j + 1;
      }
    }

    /** `gradient(outGrad, input, weight)`: a missing value throws;
        otherwise `GradientSpec` with the saved `im2col`.  The input
        gradient stays zero: the scatter loop reads `this.mapping[h]`, a
        property of the `Map` object rather than an entry, which is
        always undefined, so every iteration `continue`s. */
    method Gradient(outGrad: Option<NdArray>, input: Option<NdArray>, weight: Option<NdArray>)
      returns (r: Result<(NdArray, Option<NdArray>)>)
      requires outGrad.Some? ==> |outGrad.value.shape| == 3
      requires input.Some? ==> |input.value.shape| == 3
      requires weight.Some? ==> |weight.value.shape| == 4
      ensures outGrad.None? || input.None? || weight.None? ==> r == Failure(TensorConv1d.ValueIsNull)
      ensures outGrad.Some? && input.Some? && weight.Some? ==>
        r == GradientSpec(outGrad.value, input.value, weight.value, savedIm2cols)
    {
      if outGrad.None? || input.None? || weight.None? {
        return Failure(TensorConv1d.ValueIsNull);
      }
      var g, x, w := outGrad.value, input.value, weight.value;
      var inputGrad := Zeros(x.shape);
      var flat := ReshapeFixed(w, [I32Of(w.shape[0] * w.shape[1] * x.shape[2]), I32Of(g.shape[2])]);
      if flat.Failure? {
        return Failure(flat.error);
      }
      var deconvKernel := Transpose(flat.value);
      if deconvKernel.Failure? {
        return Failure(deconvKernel.error);
      }
      var transposed: Option<NdArray> := None;
      if savedIm2cols.Some? {
        var t := Transpose(savedIm2cols.value);
        if t.Failure? {
          return Failure(t.error);
        }
        transposed := Some(t.value);
      }
      var flatGrad := FlatGrad(g);
      if flatGrad.Failure? {
        return Failure(flatGrad.error);
      }
      if transposed.None? {
        return Success((inputGrad, None));
      }
      var prod := Matmul(transposed.value, flatGrad.value);
      if prod.Failure? {
        return Failure(prod.error);
      }
      var wg := ReshapeFixed(prod.value, [I32Of(w.shape[0]), I32Of(w.shape[1]), I32Of(x.shape[2]), I32Of(g.shape[2])]);
      if wg.Failure? {
        return Failure(wg.error);
      }
      r := Success((inputGrad, Some(wg.value)));
    }
  }

  /* ---------------------------------------------------------------------- */
  /* What the forward pass computes                                           */

  /** The window of output position `(a, b)` of a contiguous `[h, w, c]`
      image under a `kh x kw` kernel with stride `s`, as `im2col` reads it. */
  function Window(x: NdArray, kh: nat, kw: nat, s: nat, a: nat, b: nat): seq<real>
    requires Contiguous(x) && |x.shape| == 3
  {
    WindowFrom(GridOf(x, [kh, kw], kh * kw * x.shape[2], s), a * s, b * s, 0)
  }

  /** A window inside the image holds its `kh` kernel rows of `kw * c`
      cells, kernel row `q` being the cells of image row `a * s + q` from
      column `b * s` on: cell `(q, u)` is the image cell
      `(a * s + q) * (w * c) + b * s * c + u`. */
  lemma WindowIsPatch(x: NdArray, kh: nat, kw: nat, s: nat, a: nat, b: nat)
    requires Contiguous(x) && |x.shape| == 3
    requires a * s + kh <= x.shape[0] && b * s + kw <= x.shape[1]
    ensures var c := x.shape[2];
      && |Window(x, kh, kw, s, a, b)| == kh * (kw * c)
      && KernelCells(Window(x, kh, kw, s, a, b), x.buffer, (a * s) * (x.shape[1] * c) + (b * s) * c, kw * c, x.shape[1] * c, kh)
  {
    var h, w, c := x.shape[0], x.shape[1], x.shape[2];
    assert x.shape == [h, w, c];
    ImageStrides(h, w, c);
    var g := GridOf(x, [kh, kw], kh * kw * c, s);
    assert Canonical(g, c);
    WindowCells(g, c, a * s, b * s, 0, (a * s) * (w * c) + (b * s) * c);
  }

  /** `((h - k) / s + 1) * s <= h`: the candidates `i < h / s` include
      every origin that fits when the stride is at most the kernel. */
  lemma LastOriginCounted(h: nat, k: nat, s: nat)
    requires 0 < s <= k <= h
    ensures (h - k) / s < h / s
  {
    var q, t := (h - k) / s, h / s;
    assert q * s <= h - k;
    assert h < t * s + s;
    if t <= q {
      MulLeq(t + 1, q + 1, s);
      assert false;
    }
  }

  /** The image side of the forward pass: with padding 0 the padding step
      of `im2col` is the identity, and on a contiguous image whose extents
      admit the kernel, with a stride at most the kernel, the columns are
      the `hout * wout` windows in row-major order. */
  lemma ForwardColumns(x: NdArray, kh: nat, kw: nat, s: nat, v: real)
    requires Contiguous(x) && |x.shape| == 3
    requires 0 < s <= kh <= x.shape[0] && s <= kw <= x.shape[1]
    ensures var hout, wout := (x.shape[0] - kh) / s + 1, (x.shape[1] - kw) / s + 1;
      var g := GridOf(x, [kh, kw], kh * kw * x.shape[2], s);
      var r := Im2colSpec(x, [kh, kw], s, [0, 0], Some(v));
      && r.Success? && Addressable(g)
      && r.value.shape == [hout * wout, kh * kw * x.shape[2]] && Contiguous(r.value)
      && forall a: nat, b: nat :: a < hout && b < wout ==> IsOutputWindow(r.value.buffer, g, wout, a, b)
  {
    var h, w := x.shape[0], x.shape[1];
    assert Im2colSpec(x, [kh, kw], s, [0, 0], Some(v)) == Im2colSpec(x, [kh, kw], s, [], None);
    Im2col2dWindows(x, kh, kw, s);
    LastOriginCounted(h, kh, s);
    LastOriginCounted(w, kw, s);
    CountClosed(h / s, s, kh, h);
    CountClosed(w / s, s, kw, w);
  }

  /** The product of a four-axis shape. */
  lemma Product4(p: nat, q: nat, r: nat, t: nat)
    ensures Product([p, q, r, t]) == p * q * r * t
  {
    var sh: seq<int> := [p, q, r, t];
    assert sh[1..] == [q, r, t];
    ImageStrides(q, r, t);
    assert p * (q * (r * t)) == p * q * r * t;
  }

  /** Asking for `[p, q]`, positive extents below 2^31 that cover the
      buffer, lays the buffer out as a contiguous `p x q` matrix. */
  lemma Reshape2(a: NdArray, p: nat, q: nat)
    requires 0 < p < 0x8000_0000 && 0 < q < 0x8000_0000 && |a.buffer| == p * q
    ensures ReshapeFixed(a, [I32Of(p), I32Of(q)]) == Success(NdArray(a.buffer, [q, 1], [p, q]))
  {
    var req: seq<I32> := [I32Of(p), I32Of(q)];
    assert req[1..] == [I32Of(q)] && req[1..][1..] == [];
    assert NonPositiveCount(req) == 0;
    assert FillUnknown(req, 0) == [p, q];
    Shape2(p, q);
  }

  /** The same for `[p, q, r]`: a contiguous `p x q x r` array. */
  lemma Reshape3(a: NdArray, p: nat, q: nat, r: nat)
    requires 0 < p < 0x8000_0000 && 0 < q < 0x8000_0000 && 0 < r < 0x8000_0000 && |a.buffer| == p * q * r
    ensures ReshapeFixed(a, [I32Of(p), I32Of(q), I32Of(r)]) == Success(NdArray(a.buffer, [q * r, r, 1], [p, q, r]))
    ensures Contiguous(NdArray(a.buffer, [q * r, r, 1], [p, q, r]))
  {
    var req: seq<I32> := [I32Of(p), I32Of(q), I32Of(r)];
    assert req[1..] == [I32Of(q), I32Of(r)] && req[1..][1..] == [I32Of(r)] && req[1..][1..][1..] == [];
    assert NonPositiveCount(req[1..][1..]) == 0;
    assert NonPositiveCount(req[1..]) == 0;
    assert NonPositiveCount(req) == 0;
    assert FillUnknown(req, 0) == [p, q, r];
    ImageStrides(p, q, r);
    assert p * q * r == p * (q * r);
  }

  /** Output cell `(a, b, o)` of the `[hout, wout, cout]` result is the
      window of `(a, b)` dotted with column `o` of the kernel read as a
      `[kh * kw * cin, cout]` matrix. */
  predicate OutputCell(out: seq<real>, x: NdArray, w: NdArray, s: nat, wout: nat, a: nat, b: nat, o: nat)
    requires Contiguous(x) && |x.shape| == 3 && |w.shape| == 4
  {
    var k, cout := w.shape[0] * w.shape[1] * x.shape[2], w.shape[3];
    && o < cout && k * cout <= |w.buffer| && (a * wout + b) * cout + o < |out|
    && |Window(x, w.shape[0], w.shape[1], s, a, b)| == k
    && out[(a * wout + b) * cout + o] == Linalg.Dot(Window(x, w.shape[0], w.shape[1], s, a, b), MatColumn(w.buffer, k, cout, o))
  }

  /** The operands the convolution theorems cover: a contiguous image and
      a contiguous kernel whose shapes fit. */
  predicate ConvFits(x: NdArray, w: NdArray, s: nat, p: nat)
  {
    Contiguous(x) && Contiguous(w) && ShapesFit(x.shape, w.shape, s, p)
  }

  /** An `[h, w, cin]` image and a `[kh, kw, cin, cout]` kernel, a stride
      at most the kernel, the kernel within the image grown by `p` on each
      side, and every extent below 2^31. */
  predicate ShapesFit(size: seq<nat>, kernelSize: seq<nat>, s: nat, p: nat)
  {
    && |size| == 3 && |kernelSize| == 4
    && 0 < s <= kernelSize[0] <= size[0] + 2 * p && s <= kernelSize[1] <= size[1] + 2 * p
    && size[2] == kernelSize[2] && 0 < size[2] && 0 < kernelSize[3]
    && size[0] + 2 * p < 0x8000_0000 && size[1] + 2 * p < 0x8000_0000
    && kernelSize[0] * kernelSize[1] * kernelSize[2] < 0x8000_0000 && kernelSize[3] < 0x8000_0000
  }

  /** The convolution: on a contiguous `[h, w, cin]` image and a contiguous
      `[kh, kw, cin, cout]` kernel, with padding 0, a stride at most the
      kernel and every extent below 2^31, `compute` returns the contiguous
      `[hout, wout, cout]` array whose cell `(a, b, o)` is the window at
      `(a * s, b * s)` dotted with output channel `o` of the kernel. */
  lemma Conv2dForward(x: NdArray, w: NdArray, s: nat, v: real) returns (out: NdArray)
    requires ConvFits(x, w, s, 0)
    ensures Spans(x.shape, w.shape, s, 0) && Conv2dSpec(x, w, s, 0, v) == Success(out)
    ensures Conv2dSize(x.shape, w.shape, s, 0) == Success(out.shape) && Contiguous(out) && |out.shape| == 3
    ensures forall a: nat, b: nat, o: nat :: a < out.shape[0] && b < out.shape[1] && o < out.shape[2] ==>
      OutputCell(out.buffer, x, w, s, out.shape[1], a, b, o)
  {
    var cout := w.shape[3];
    var hout, wout, res := ForwardProduct(x, w, s, v);
    Reshape3(res, hout, wout, cout);
    out := NdArray(res.buffer, [wout * cout, cout, 1], [hout, wout, cout]);
    assert Conv2dSpec(x, w, s, 0, v) == Success(out);
  }

  /** The steps of `compute` before the final reshape: the windows, the
      flattened kernel and their product, whose row `a * wout + b` holds
      the output cells of `(a, b)`. */
  lemma ForwardProduct(x: NdArray, w: NdArray, s: nat, v: real) returns (hout: nat, wout: nat, res: NdArray)
    requires ConvFits(x, w, s, 0)
    ensures Spans(x.shape, w.shape, s, 0) && Conv2dSize(x.shape, w.shape, s, 0) == Success([hout, wout, w.shape[3]])
    ensures 0 < hout < 0x8000_0000 && 0 < wout < 0x8000_0000 && |res.buffer| == hout * wout * w.shape[3]
    ensures var cols := Im2colSpec(x, [w.shape[0], w.shape[1]], s, [0, 0], Some(v));
      && cols.Success? && FlatKernel(w).Success? && MatmulSpec(cols.value, FlatKernel(w).value) == Success(res)
    ensures forall a: nat, b: nat, o: nat :: a < hout && b < wout && o < w.shape[3] ==>
      OutputCell(res.buffer, x, w, s, wout, a, b, o)
  {
    var kh, kw, cout := w.shape[0], w.shape[1], w.shape[3];
    hout, wout := ForwardSize(x, w, s);
    ForwardColumns(x, kh, kw, s, v);
    var cols := Im2colSpec(x, [kh, kw], s, [0, 0], Some(v)).value;
    var flat := ForwardKernel(w);
    assert hout * wout > 0 by {
      MulLeq(1, hout, wout);
    }
    res := MatmulContiguous(cols, flat);
    assert |res.buffer| == hout * wout * cout by {
      Shape2(hout * wout, cout);
    }
    ForwardCells(x, w, s, cols, res, hout, wout);
  }

  lemma ForwardCells(x: NdArray, w: NdArray, s: nat, cols: NdArray, res: NdArray, hout: nat, wout: nat)
    requires Contiguous(x) && |x.shape| == 3 && |w.shape| == 4
    requires var k := w.shape[0] * w.shape[1] * x.shape[2];
      var g := GridOf(x, [w.shape[0], w.shape[1]], k, s);
      && Addressable(g) && cols.shape == [hout * wout, k] && k * w.shape[3] <= |w.buffer|
      && (forall a: nat, b: nat :: a < hout && b < wout ==> IsOutputWindow(cols.buffer, g, wout, a, b))
      && IsProduct(res.buffer, cols.buffer, w.buffer, hout * wout, k, w.shape[3])
    ensures forall a: nat, b: nat, o: nat :: a < hout && b < wout && o < w.shape[3] ==>
      OutputCell(res.buffer, x, w, s, wout, a, b, o)
  {
    forall a: nat, b: nat, o: nat | a < hout && b < wout && o < w.shape[3]
      ensures OutputCell(res.buffer, x, w, s, wout, a, b, o)
    {
      ForwardCell(x, w, s, cols, res, hout, wout, a, b, o);
    }
  }

  /** The output extents of the forward pass with padding 0: at least one
      window per axis, no more than the image extent. */
  lemma ForwardSize(x: NdArray, w: NdArray, s: nat) returns (hout: nat, wout: nat)
    requires |x.shape| == 3 && |w.shape| == 4
    requires 0 < s <= w.shape[0] <= x.shape[0] && s <= w.shape[1] <= x.shape[1]
    ensures hout == (x.shape[0] - w.shape[0]) / s + 1 && wout == (x.shape[1] - w.shape[1]) / s + 1
    ensures 0 < hout <= x.shape[0] && 0 < wout <= x.shape[1]
    ensures Spans(x.shape, w.shape, s, 0)
    ensures Conv2dSize(x.shape, w.shape, s, 0) == Success([hout, wout, w.shape[3]])
  {
    hout, wout := (x.shape[0] - w.shape[0]) / s + 1, (x.shape[1] - w.shape[1]) / s + 1;
    OutExtentDivision(x.shape[0], w.shape[0], s, 0);
    OutExtentDivision(x.shape[1], w.shape[1], s, 0);
    Conv2dSizeValue(x.shape, w.shape, s, 0);
    LastOriginCounted(x.shape[0], w.shape[0], s);
    LastOriginCounted(x.shape[1], w.shape[1], s);
    DivAtMost(x.shape[0], s);
    DivAtMost(x.shape[1], s);
  }

  lemma DivAtMost(x: nat, s: nat)
    requires s > 0
    ensures x / s <= x
  {
    var q := x / s;
    assert q * s <= x;
    MulLeq(1, s, q);
  }

  /** A contiguous `[kh, kw, cin, cout]` kernel reshaped to
      `[kh * kw * cin, cout]` is the same buffer as a contiguous matrix. */
  lemma ForwardKernel(w: NdArray) returns (flat: NdArray)
    requires Contiguous(w) && |w.shape| == 4 && 0 < w.shape[3] < 0x8000_0000
    requires 0 < w.shape[0] && 0 < w.shape[1] && 0 < w.shape[2]
    requires w.shape[0] * w.shape[1] * w.shape[2] < 0x8000_0000
    ensures var k := w.shape[0] * w.shape[1] * w.shape[2];
      flat == NdArray(w.buffer, [w.shape[3], 1], [k, w.shape[3]]) && FlatKernel(w) == Success(flat)
      && Contiguous(flat) && k * w.shape[3] == |w.buffer|
  {
    var kh, kw, c, cout := w.shape[0], w.shape[1], w.shape[2], w.shape[3];
    var k := kh * kw * c;
    assert w.shape == [kh, kw, c, cout];
    MulLeq(1, kh, kw);
    MulLeq(1, kh * kw, c);
    Product4(kh, kw, c, cout);
    Reshape2(w, k, cout);
    Shape2(k, cout);
    flat := NdArray(w.buffer, [cout, 1], [k, cout]);
  }

  /** `matmul` of a contiguous `[m, k]` and a contiguous `[k, n]` array
      with `m, n > 0` is their product, a contiguous `[m, n]` array. */
  lemma MatmulContiguous(a: NdArray, b: NdArray) returns (res: NdArray)
    requires Contiguous(a) && Contiguous(b) && |a.shape| == 2 && |b.shape| == 2
    requires a.shape[1] == b.shape[0] && 0 < a.shape[0] && 0 < b.shape[1]
    ensures MatmulSpec(a, b) == Success(res)
    ensures res.shape == [a.shape[0], b.shape[1]] && Contiguous(res)
    ensures IsProduct(res.buffer, a.buffer, b.buffer, a.shape[0], a.shape[1], b.shape[1])
  {
    var m, k, n := a.shape[0], a.shape[1], b.shape[1];
    assert a.shape == [m, k] && b.shape == [k, n];
    Shape2(m, k);
    Shape2(k, n);
    Matops.MatmulSound(a.buffer, a.shape, b.buffer, b.shape);
    MatmulSound(a, b);
    res := MatmulSpec(a, b).value;
  }

  /** One cell of `Conv2dForward`: row `a * wout + b` of the product is the
      window of `(a, b)` against the kernel columns. */
  lemma ForwardCell(x: NdArray, w: NdArray, s: nat, cols: NdArray, res: NdArray, hout: nat, wout: nat, a: nat, b: nat, o: nat)
    requires Contiguous(x) && |x.shape| == 3 && |w.shape| == 4
    requires var k := w.shape[0] * w.shape[1] * x.shape[2];
      var g := GridOf(x, [w.shape[0], w.shape[1]], k, s);
      && Addressable(g) && cols.shape == [hout * wout, k] && k * w.shape[3] <= |w.buffer|
      && IsOutputWindow(cols.buffer, g, wout, a, b)
      && IsProduct(res.buffer, cols.buffer, w.buffer, hout * wout, k, w.shape[3])
    requires a < hout && b < wout && o < w.shape[3]
    ensures OutputCell(res.buffer, x, w, s, wout, a, b, o)
  {
    var k, cout := w.shape[0] * w.shape[1] * x.shape[2], w.shape[3];
    var i := a * wout + b;
    assert i < hout * wout by {
      Linalg.RowFits(a, hout, wout);
    }
    assert IsEntry(res.buffer, cols.buffer, w.buffer, k, cout, i, o);
    assert (i + 1) * k == i * k + k;
    assert MatRow(cols.buffer, k, i) == Window(x, w.shape[0], w.shape[1], s, a, b);
  }

  /* ---------------------------------------------------------------------- */
  /* Padding                                                                  */

  /** With a positive padding, `im2col` pads the image's last axis, the
      channels, instead of its rows and columns: each column then holds
      `kh * kw * (cin + 2p)` cells while the kernel matrix has
      `kh * kw * cin` rows, so `matmul` reads past the kernel and `compute`
      panics on every image that admits the kernel. */
  lemma PaddedComputeFails(x: NdArray, w: NdArray, s: nat, p: nat, v: real)
    requires Contiguous(x) && Contiguous(w) && |x.shape| == 3 && |w.shape| == 4
    requires 0 < s <= w.shape[0] <= x.shape[0] && s <= w.shape[1] <= x.shape[1]
    requires x.shape[2] == w.shape[2] && 0 < x.shape[2] && 0 < w.shape[3]
    requires w.shape[0] * w.shape[1] * w.shape[2] < 0x8000_0000 && w.shape[3] < 0x8000_0000
    requires p > 0
    ensures Spans(x.shape, w.shape, s, p)
    ensures Conv2dSpec(x, w, s, p, v) == Failure("index out of bounds")
  {
    var h, wd, c := x.shape[0], x.shape[1], x.shape[2];
    var kh, kw, cout := w.shape[0], w.shape[1], w.shape[3];
    var cols, m := PaddedCols(x, kh, kw, s, p, v);
    var flat := ForwardKernel(w);
    WiderRows(kh * kw, c, p, cout);
    MatmulTooWide(cols, flat);
    ExtentAtLeastOne(h, kh, s, p);
    ExtentAtLeastOne(wd, kw, s, p);
    Conv2dSizeValue(x.shape, w.shape, s, p);
  }

  /** `matmul` of a non-empty left matrix whose rows are longer than the
      right matrix has rows panics reading past the right buffer. */
  lemma MatmulTooWide(a: NdArray, b: NdArray)
    requires |a.shape| == 2 && |b.shape| == 2 && a.shape[0] > 0 && b.shape[1] > 0
    requires a.shape[1] * b.shape[1] > |b.buffer|
    ensures MatmulSpec(a, b) == Failure("index out of bounds")
  {
  }

  /** A kernel extent that fits the image leaves at least one output
      position. */
  lemma ExtentAtLeastOne(size: int, kernel: int, s: int, p: int)
    requires s > 0 && p >= 0 && kernel <= size
    ensures OutExtent(size, kernel, s, p) >= 1
  {
    OutExtentDivision(size, kernel, s, p);
    assert (size + 2 * p - kernel) / s >= 0;
  }

  /** `im2col` of the image padded by `p` along its channels: `m > 0`
      windows of `kh * kw * (c + 2p)` cells. */
  lemma PaddedCols(x: NdArray, kh: nat, kw: nat, s: nat, p: nat, v: real) returns (cols: NdArray, m: nat)
    requires Contiguous(x) && |x.shape| == 3 && 0 < x.shape[2] && p > 0
    requires 0 < s <= kh <= x.shape[0] && s <= kw <= x.shape[1]
    ensures Im2colSpec(x, [kh, kw], s, [p, p], Some(v)) == Success(cols)
    ensures m > 0 && cols.shape == [m, kh * kw * (x.shape[2] + 2 * p)]
  {
    var h, wd, c := x.shape[0], x.shape[1], x.shape[2];
    PadX1dSound(x, p, Some(v));
    var y := PadX1dSpec(x, p, Some(v)).value;
    assert y.shape[..2] == x.shape[..2];
    assert y.shape == [h, wd, c + 2 * p];
    assert Im2colSpec(x, [kh, kw], s, [p, p], Some(v)) == Im2colSpec(y, [kh, kw], s, [], None);
    Im2col2dWindows(y, kh, kw, s);
    cols := Im2colSpec(y, [kh, kw], s, [], None).value;
    m := ChannelPaddedRows(h, wd, kh, kw, s);
  }

  /** The number of windows `im2col` finds in an `h x wd` image that
      admits the kernel, with a stride at most the kernel: at least one. */
  lemma ChannelPaddedRows(h: nat, wd: nat, kh: nat, kw: nat, s: nat) returns (m: nat)
    requires 0 < s <= kh <= h && s <= kw <= wd
    ensures m == Count(h / s, s, kh, h) * Count(wd / s, s, kw, wd) && m > 0
  {
    var rows, cols := Count(h / s, s, kh, h), Count(wd / s, s, kw, wd);
    assert rows > 0 by {
      LastOriginCounted(h, kh, s);
      CountClosed(h / s, s, kh, h);
    }
    assert cols > 0 by {
      LastOriginCounted(wd, kw, s);
      CountClosed(wd / s, s, kw, wd);
    }
    m := rows * cols;
    MulLeq(1, rows, cols);
  }

  /** Rows of `n * (c + 2p)` cells times `cout > 0` columns need more
      cells than a kernel of `n * c` rows holds. */
  lemma WiderRows(n: nat, c: nat, p: nat, cout: nat)
    requires n > 0 && p > 0 && cout > 0
    ensures n * (c + 2 * p) * cout > n * c * cout
  {
    assert n * (c + 2 * p) == n * c + n * (2 * p);
    MulLeq(1, n, 2 * p);
    MulLeq(n * c + 1, n * (c + 2 * p), cout);
  }

  /** Image cell `(a, b, ch)` of a row-major `h x w x c` image lies inside
      its `h * (w * c)` cells. */
  lemma CellInImage(h: nat, w: nat, c: nat, a: nat, b: nat, ch: nat)
    requires a < h && b < w && ch < c
    ensures a * (w * c) + b * c + ch < h * (w * c)
  {
    Linalg.RowFits(b, w, c);
    Linalg.RowFits(a, h, w * c);
  }

  /** Row-major position `i` of cell `(a, b, ch)` of an `h x w x c`
      array lies in the buffer, and the cell is read back from it. */
  lemma RowMajorOf(h: nat, w: nat, c: nat, a: nat, b: nat, ch: nat) returns (i: nat)
    requires a < h && b < w && ch < c
    ensures i == a * (w * c) + b * c + ch && i < h * (w * c)
    ensures i / (w * c) == a && (i / c) % w == b && i % c == ch
  {
    i := a * (w * c) + b * c + ch;
    CellInImage(h, w, c, a, b, ch);
    Linalg.RowFits(b, w, c);
    DivModUnique(i, w * c, a, b * c + ch);
    assert i == (a * w + b) * c + ch;
    DivModUnique(i, c, a * w + b, ch);
    DivModUnique(a * w + b, w, a, b);
  }

  /** Every position of an `h x w x c` buffer is some cell's row-major
      position. */
  lemma RowMajorSplit(h: nat, w: nat, c: nat, i: nat) returns (a: nat, b: nat, ch: nat)
    requires i < h * (w * c)
    ensures a < h && b < w && ch < c && i == a * (w * c) + b * c + ch
  {
    PositiveFactor(i, h, w * c);
    var rest;
    a, rest := QuotRem(i, w * c, h);
    PositiveFactor(rest, w, c);
    b, ch := QuotRem(rest, c, w);
  }

  /** Cell `(r, q, ch)` of the image padded by `p` rows and columns of `v`
      on each side: image cell `(r - p, q - p, ch)` inside, `v` on the
      border. */
  function PadCell(x: NdArray, p: nat, v: real, r: nat, q: nat, ch: nat): real
    requires Contiguous(x) && |x.shape| == 3 && ch < x.shape[2]
  {
    var h, w, c := x.shape[0], x.shape[1], x.shape[2];
    if p <= r < h + p && p <= q < w + p then
      assert x.shape == [h, w, c];
      ImageStrides(h, w, c);
      CellInImage(h, w, c, r - p, q - p, ch);
      x.buffer[(r - p) * (w * c) + (q - p) * c + ch]
    else v
  }

  /** Cell `i` of the padded image, read row-major. */
  function PaddedAt(x: NdArray, p: nat, v: real, i: int): real
    requires Contiguous(x) && |x.shape| == 3
    requires 0 <= i < (x.shape[0] + 2 * p) * ((x.shape[1] + 2 * p) * x.shape[2])
  {
    var wp, c := x.shape[1] + 2 * p, x.shape[2];
    PositiveFactor(i, x.shape[0] + 2 * p, wp * c);
    PadCell(x, p, v, i / (wp * c), (i / c) % wp, i % c)
  }

  /** The first `n` row-major cells of the padded image. */
  function PaddedPrefix(x: NdArray, p: nat, v: real, n: nat): (r: seq<real>)
    requires Contiguous(x) && |x.shape| == 3
    requires n <= (x.shape[0] + 2 * p) * ((x.shape[1] + 2 * p) * x.shape[2])
    ensures |r| == n
  {
    if n == 0 then [] else PaddedPrefix(x, p, v, n - 1) + [PaddedAt(x, p, v, n - 1)]
  }

  /** Cell `i` of a prefix is `PaddedAt` of `i`. */
  lemma {:induction false} PaddedPrefixAt(x: NdArray, p: nat, v: real, n: nat, i: nat)
    requires Contiguous(x) && |x.shape| == 3
    requires i < n <= (x.shape[0] + 2 * p) * ((x.shape[1] + 2 * p) * x.shape[2])
    ensures PaddedPrefix(x, p, v, n)[i] == PaddedAt(x, p, v, i)
    decreases n
  {
    if i < n - 1 {
      PaddedPrefixAt(x, p, v, n - 1, i);
    }
  }

  /** The image padded by `p` rows above and below and `p` columns left and
      right, all `v`: the padding `getConv2dSize` and the mapping presuppose. */
  function PaddedImage(x: NdArray, p: nat, v: real): (r: NdArray)
    requires Contiguous(x) && |x.shape| == 3
    ensures r.shape == [x.shape[0] + 2 * p, x.shape[1] + 2 * p, x.shape[2]] && Contiguous(r)
  {
    var hp, wp, c := x.shape[0] + 2 * p, x.shape[1] + 2 * p, x.shape[2];
    ImageStrides(hp, wp, c);
    NdArray(PaddedPrefix(x, p, v, hp * (wp * c)), [wp * c, c, 1], [hp, wp, c])
  }

  /** The padded image holds `PadCell` at every row-major position `i`. */
  lemma PaddedImageCell(x: NdArray, p: nat, v: real, r: nat, q: nat, ch: nat) returns (i: nat)
    requires Contiguous(x) && |x.shape| == 3
    requires r < x.shape[0] + 2 * p && q < x.shape[1] + 2 * p && ch < x.shape[2]
    ensures i == r * ((x.shape[1] + 2 * p) * x.shape[2]) + q * x.shape[2] + ch
    ensures i < |PaddedImage(x, p, v).buffer| && PaddedImage(x, p, v).buffer[i] == PadCell(x, p, v, r, q, ch)
  {
    var grown := PaddedImage(x, p, v).shape;
    i := RowMajorOf(grown[0], grown[1], grown[2], r, q, ch);
    PaddedPrefixAt(x, p, v, grown[0] * (grown[1] * grown[2]), i);
  }

  lemma PaddedByNothing(x: NdArray, v: real)
    requires Contiguous(x) && |x.shape| == 3
    ensures PaddedImage(x, 0, v) == x
  {
    var h, w, c := x.shape[0], x.shape[1], x.shape[2];
    assert x.shape == [h, w, c];
    ImageStrides(h, w, c);
    var y := PaddedImage(x, 0, v);
    forall i | 0 <= i < |x.buffer|
      ensures y.buffer[i] == x.buffer[i]
    {
      var r, q, ch := RowMajorSplit(h, w, c, i);
      var j := PaddedImageCell(x, 0, v, r, q, ch);
    }
  }

  /** Padding by `p` in the formula of `getConv2dSize` is the same as
      growing both image extents by `2 * p`. */
  lemma PaddedExtents(size: seq<int>, kernelSize: seq<int>, s: int, p: int)
    requires s > 0 && |size| == 3
    ensures |kernelSize| == 4 ==>
      && OutExtent(size[0], kernelSize[0], s, p) == OutExtent(size[0] + 2 * p, kernelSize[0], s, 0)
      && OutExtent(size[1], kernelSize[1], s, p) == OutExtent(size[1] + 2 * p, kernelSize[1], s, 0)
    ensures Spans(size, kernelSize, s, p) <==> Spans([size[0] + 2 * p, size[1] + 2 * p, size[2]], kernelSize, s, 0)
  {
    if |kernelSize| == 4 {
      OutExtentDivision(size[0], kernelSize[0], s, p);
      OutExtentDivision(size[1], kernelSize[1], s, p);
      OutExtentDivision(size[0] + 2 * p, kernelSize[0], s, 0);
      OutExtentDivision(size[1] + 2 * p, kernelSize[1], s, 0);
    }
  }

  /** The convolution that `getConv2dSize` sizes and the mapping indexes:
      the image padded by `p` rows and columns of `padValue`, then
      convolved with no further padding. */
  function Conv2dFixedSpec(x: NdArray, w: NdArray, s: nat, p: nat, v: real): Result<NdArray>
    requires s > 0 && Contiguous(x) && |x.shape| == 3 && Spans(x.shape, w.shape, s, p)
  {
    PaddedExtents(x.shape, w.shape, s, p);
    Conv2dSpec(PaddedImage(x, p, v), w, s, 0, v)
  }

  /** With padding 0 the corrected forward pass is the one `compute`
      performs. */
  lemma FixedAgreesUnpadded(x: NdArray, w: NdArray, s: nat, v: real)
    requires s > 0 && Contiguous(x) && |x.shape| == 3 && Spans(x.shape, w.shape, s, 0)
    ensures Conv2dFixedSpec(x, w, s, 0, v) == Conv2dSpec(x, w, s, 0, v)
  {
    PaddedByNothing(x, v);
  }

  /** The corrected forward pass on a contiguous image and kernel whose
      padded extents admit the kernel: it succeeds with a contiguous
      result of the extents `getConv2dSize` gives for the padded image
      (`PaddedImageSize`: the ones it gives for the image with padding
      `p`), whose cell `(a, b, o)` is the window of the padded image at
      `(a * s, b * s)` dotted with output channel `o` of the kernel. */
  lemma Conv2dFixedForward(x: NdArray, w: NdArray, s: nat, p: nat, v: real) returns (out: NdArray)
    requires ConvFits(x, w, s, p)
    ensures Spans(x.shape, w.shape, s, p) && Conv2dFixedSpec(x, w, s, p, v) == Success(out)
    ensures Conv2dSize(PaddedImage(x, p, v).shape, w.shape, s, 0) == Success(out.shape) && Contiguous(out) && |out.shape| == 3
    ensures forall a: nat, b: nat, o: nat :: a < out.shape[0] && b < out.shape[1] && o < out.shape[2] ==>
      OutputCell(out.buffer, PaddedImage(x, p, v), w, s, out.shape[1], a, b, o)
  {
    FixedIsPadded(x, w, s, p, v);
    out := PaddedForward(x, w, s, p, v);
  }

  /** The padded image's unpadded extents are the ones `getConv2dSize`
      computes for the image itself with padding `p`. */
  lemma PaddedImageSize(x: NdArray, w: NdArray, s: nat, p: nat, v: real)
    requires Contiguous(x) && |x.shape| == 3 && |w.shape| == 4 && 0 < s
    ensures Conv2dSize(PaddedImage(x, p, v).shape, w.shape, s, 0) == Conv2dSize(x.shape, w.shape, s, p)
  {
    GrownSize(x.shape, w.shape, s, p, PaddedImage(x, p, v).shape);
  }

  /** The corrected pass is the unpadded one on the padded image. */
  lemma FixedIsPadded(x: NdArray, w: NdArray, s: nat, p: nat, v: real)
    requires ConvFits(x, w, s, p)
    ensures Spans(x.shape, w.shape, s, p)
    ensures Conv2dFixedSpec(x, w, s, p, v) == Conv2dSpec(PaddedImage(x, p, v), w, s, 0, v)
  {
    PaddedExtents(x.shape, w.shape, s, p);
  }

  /** `Conv2dForward` on the padded image. */
  lemma PaddedForward(x: NdArray, w: NdArray, s: nat, p: nat, v: real) returns (out: NdArray)
    requires ConvFits(x, w, s, p)
    ensures Conv2dSpec(PaddedImage(x, p, v), w, s, 0, v) == Success(out)
    ensures Conv2dSize(PaddedImage(x, p, v).shape, w.shape, s, 0) == Success(out.shape) && Contiguous(out) && |out.shape| == 3
    ensures forall a: nat, b: nat, o: nat :: a < out.shape[0] && b < out.shape[1] && o < out.shape[2] ==>
      OutputCell(out.buffer, PaddedImage(x, p, v), w, s, out.shape[1], a, b, o)
  {
    GrownFits(x, w, s, p, v);
    out := Conv2dForward(PaddedImage(x, p, v), w, s, v);
  }

  /** The padded image fits the kernel with no further padding. */
  lemma GrownFits(x: NdArray, w: NdArray, s: nat, p: nat, v: real)
    requires ConvFits(x, w, s, p)
    ensures ConvFits(PaddedImage(x, p, v), w, s, 0)
  {
  }

  /** `getConv2dSize` with padding `p` gives the extents of the unpadded
      convolution of an image grown by `2 * p` on both axes. */
  lemma GrownSize(size: seq<int>, kernelSize: seq<int>, s: int, p: int, grown: seq<int>)
    requires |size| == 3 && |kernelSize| == 4 && grown == [size[0] + 2 * p, size[1] + 2 * p, size[2]] && 0 < s
    ensures Conv2dSize(grown, kernelSize, s, 0) == Conv2dSize(size, kernelSize, s, p)
  {
    PaddedExtents(size, kernelSize, s, p);
    Conv2dSizeValue(size, kernelSize, s, p);
    Conv2dSizeValue(grown, kernelSize, s, 0);
  }

  /** `getConv2dSize` with no padding as integer divisions. */
  lemma UnpaddedSize(size: seq<int>, kernelSize: seq<int>, s: int)
    requires |size| == 3 && |kernelSize| == 4 && 0 < s
    ensures Conv2dSize(size, kernelSize, s, 0)
      == Success([(size[0] - kernelSize[0]) / s + 1, (size[1] - kernelSize[1]) / s + 1, kernelSize[3]])
  {
    Conv2dSizeDivision(size, kernelSize, s, 0);
  }

  /* ---------------------------------------------------------------------- */
  /* What the gradient computes                                               */

  /** Row `u` of the transpose of an `n x k` matrix is its column `u`. */
  lemma TransposedRow(a: seq<real>, t: seq<real>, n: nat, k: nat, u: nat)
    requires MatrixTransposed(a, t, n, k) && |a| == n * k && |t| == n * k && u < k
    ensures u * n + n <= |t| && MatRow(t, n, u) == MatColumn(a, n, k, u)
  {
    Linalg.RowFits(u, k, n);
    assert k * n == n * k;
    forall i | 0 <= i < n
      ensures MatRow(t, n, u)[i] == MatColumn(a, n, k, u)[i]
    {
      ColumnAt(a, n, k, u, i);
    }
  }

  /** Asking for `[p, q, r, t]`, positive extents below 2^31 that cover
      the buffer, lays the buffer out as a contiguous four-axis array. */
  lemma Reshape4(a: NdArray, p: nat, q: nat, r: nat, t: nat) returns (b: NdArray)
    requires 0 < p < 0x8000_0000 && 0 < q < 0x8000_0000 && 0 < r < 0x8000_0000 && 0 < t < 0x8000_0000
    requires |a.buffer| == p * q * r * t
    ensures ReshapeFixed(a, [I32Of(p), I32Of(q), I32Of(r), I32Of(t)]) == Success(b)
    ensures b.buffer == a.buffer && b.shape == [p, q, r, t] && Contiguous(b)
  {
    var req: seq<I32> := [I32Of(p), I32Of(q), I32Of(r), I32Of(t)];
    assert req[1..] == [I32Of(q), I32Of(r), I32Of(t)] && req[1..][1..] == [I32Of(r), I32Of(t)];
    assert req[1..][1..][1..] == [I32Of(t)] && req[1..][1..][1..][1..] == [];
    assert NonPositiveCount(req[1..][1..][1..]) == 0;
    assert NonPositiveCount(req[1..][1..]) == 0;
    assert NonPositiveCount(req[1..]) == 0;
    assert NonPositiveCount(req) == 0;
    assert FillUnknown(req, 0) == [p, q, r, t];
    Product4(p, q, r, t);
    b := ReshapeFixed(a, req).value;
  }

  /** The gradient's kernel side: the `[kh * kw * cin, cout]` reshape of a
      kernel holding that many cells succeeds, and so does its transpose. */
  lemma DeconvKernelSucceeds(w: NdArray, cin: nat, cout: nat)
    requires |w.shape| == 4 && 0 < cout < 0x8000_0000
    requires 0 < w.shape[0] * w.shape[1] * cin < 0x8000_0000
    requires |w.buffer| == w.shape[0] * w.shape[1] * cin * cout
    ensures DeconvKernel(w, cin, cout).Success?
  {
    var k := w.shape[0] * w.shape[1] * cin;
    Reshape2(w, k, cout);
    var flat := NdArray(w.buffer, [cout, 1], [k, cout]);
    Shape2(k, cout);
    TransposeMatrix(flat, k, cout);
  }

  /** `outGrad.flatten().reshape([hout * wout, cout])` of a contiguous
      gradient is its buffer as a contiguous `[hout * wout, cout]` matrix. */
  lemma FlatGradMatrix(g: NdArray) returns (fg: NdArray)
    requires Contiguous(g) && |g.shape| == 3
    requires 0 < g.shape[0] && 0 < g.shape[1] && 0 < g.shape[2]
    requires g.shape[0] * g.shape[1] * g.shape[2] < 0x8000_0000
    ensures FlatGrad(g) == Success(fg)
    ensures fg.buffer == g.buffer && fg.shape == [g.shape[0] * g.shape[1], g.shape[2]] && Contiguous(fg)
  {
    var n, cout := g.shape[0] * g.shape[1], g.shape[2];
    assert g.shape == [g.shape[0], g.shape[1], cout];
    ImageStrides(g.shape[0], g.shape[1], cout);
    assert |g.buffer| == n * cout;
    MulLeq(1, g.shape[0], g.shape[1]);
    MulLeq(1, n, cout);
    MulLeq(1, cout, n);
    FlattenShape(g);
    var flat := NdArray(g.buffer, [1], [|g.buffer|]);
    Reshape2(flat, n, cout);
    fg := NdArray(g.buffer, [cout, 1], [n, cout]);
    Shape2(n, cout);
  }

  /** The weight gradient: with the `[hout * wout, kh * kw * cin]` columns
      of a `compute` saved, and a contiguous `[hout, wout, cout]` gradient,
      `gradient` returns the zero input gradient and the contiguous
      `[kh, kw, cin, cout]` weight gradient whose cell `(u, o)` (kernel
      cell `u`, output channel `o`) is column `u` of the columns dotted with
      channel `o` of the gradient: the sum over output positions of the
      input value under kernel cell `u` times the gradient there. */
  lemma Conv2dWeightGradient(g: NdArray, x: NdArray, w: NdArray, cols: NdArray)
    requires Contiguous(g) && |g.shape| == 3 && |x.shape| == 3 && |w.shape| == 4
    requires 0 < g.shape[0] && 0 < g.shape[1] && 0 < g.shape[2]
    requires 0 < w.shape[0] < 0x8000_0000 && 0 < w.shape[1] < 0x8000_0000 && 0 < x.shape[2] < 0x8000_0000
    requires g.shape[0] * g.shape[1] * g.shape[2] < 0x8000_0000
    requires w.shape[0] * w.shape[1] * x.shape[2] < 0x8000_0000
    requires |w.buffer| == w.shape[0] * w.shape[1] * x.shape[2] * g.shape[2]
    requires Contiguous(cols) && cols.shape == [g.shape[0] * g.shape[1], w.shape[0] * w.shape[1] * x.shape[2]]
    ensures var n, k, cout := g.shape[0] * g.shape[1], w.shape[0] * w.shape[1] * x.shape[2], g.shape[2];
      var r := GradientSpec(g, x, w, Some(cols));
      && r.Success? && r.value.0 == Zeros(x.shape) && r.value.1.Some?
      && r.value.1.value.shape == [w.shape[0], w.shape[1], x.shape[2], cout] && Contiguous(r.value.1.value)
      && forall u: nat, o: nat :: u < k && o < cout ==> WeightGradCell(r.value.1.value.buffer, cols.buffer, g.buffer, n, k, cout, u, o)
  {
    var kh, kw, cin, cout := w.shape[0], w.shape[1], x.shape[2], g.shape[2];
    var n, k := g.shape[0] * g.shape[1], kh * kw * cin;
    MulLeq(1, kh, kw);
    MulLeq(1, kh * kw, cin);
    DeconvKernelSucceeds(w, cin, cout);
    TransposeMatrix(cols, n, k);
    var t := PermuteSpec(cols, ReversedAxes(2)).value;
    Shape2(k, n);
    assert Contiguous(t);
    var fg := FlatGradMatrix(g);
    var prod := MatmulContiguous(t, fg);
    Shape2(k, cout);
    var wg := Reshape4(prod, kh, kw, cin, cout);
    assert GradientSpec(g, x, w, Some(cols)) == Success((Zeros(x.shape), Some(wg)));
    Shape2(n, k);
    Shape2(n, cout);
    assert |cols.buffer| == n * k && |g.buffer| == n * cout;
    WeightGradCells(cols.buffer, t.buffer, g.buffer, prod.buffer, n, k, cout);
  }

  /** Cell `(u, o)` of the weight gradient: column `u` of the `n x k`
      columns dotted with column `o` of the `n x cout` gradient. */
  predicate WeightGradCell(wg: seq<real>, cols: seq<real>, grad: seq<real>, n: nat, k: nat, cout: nat, u: nat, o: nat)
  {
    && u < k && o < cout && u * cout + o < |wg| && n * k <= |cols| && n * cout <= |grad|
    && wg[u * cout + o] == Linalg.Dot(MatColumn(cols, n, k, u), MatColumn(grad, n, cout, o))
  }

  lemma WeightGradCells(cols: seq<real>, t: seq<real>, grad: seq<real>, prod: seq<real>, n: nat, k: nat, cout: nat)
    requires MatrixTransposed(cols, t, n, k) && |cols| == n * k && |t| == n * k && |grad| == n * cout
    requires IsProduct(prod, t, grad, k, n, cout)
    ensures forall u: nat, o: nat :: u < k && o < cout ==> WeightGradCell(prod, cols, grad, n, k, cout, u, o)
  {
    forall u: nat, o: nat | u < k && o < cout
      ensures WeightGradCell(prod, cols, grad, n, k, cout, u, o)
    {
      assert IsEntry(prod, t, grad, n, cout, u, o);
      TransposedRow(cols, t, n, k, u);
    }
  }

  /** Without a saved `im2col` (no `compute` ran), optional chaining leaves
      the weight gradient undefined; the input gradient is still zero. */
  lemma GradientWithoutForward(g: NdArray, x: NdArray, w: NdArray)
    requires Contiguous(g) && |g.shape| == 3 && |x.shape| == 3 && |w.shape| == 4
    requires 0 < g.shape[0] && 0 < g.shape[1] && 0 < g.shape[2]
    requires 0 < w.shape[0] && 0 < w.shape[1] && 0 < x.shape[2]
    requires g.shape[0] * g.shape[1] * g.shape[2] < 0x8000_0000
    requires w.shape[0] * w.shape[1] * x.shape[2] < 0x8000_0000
    requires |w.buffer| == w.shape[0] * w.shape[1] * x.shape[2] * g.shape[2]
    ensures GradientSpec(g, x, w, None) == Success((Zeros(x.shape), None))
  {
    MulLeq(1, w.shape[0], w.shape[1]);
    MulLeq(1, w.shape[0] * w.shape[1], x.shape[2]);
    DeconvKernelSucceeds(w, x.shape[2], g.shape[2]);
    var fg := FlatGradMatrix(g);
  }
}
