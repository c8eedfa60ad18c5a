/** The `Conv1d` operator of `packages/tensor/src/ops/conv/conv1d.ts`.

    Unlike the `conv1d` of `async-math`, which slides the kernel row by row,
    the operator regroups the windows of the padded input into one matrix
    per kernel row (`savedIm2cols`), multiplies each by its weight matrix
    and adds the products.  While doing so it records, for every output
    row, which rows of the unpadded input its window covers (`mapping`).
    Matrices are mathjs nested arrays, kept here as sequences of rows. */
module TensorConv1d {
  import opened Wrappers
  import opened ConvGeometry
  import opened AsyncConv1d
  import Linalg

  /** What `compute` and `gradient` throw on a missing value; the error
      class is named after it. */
  const ValueIsNull := "TensorValueIsNullError"

  /* ---------------------------------------------------------------------- */
  /* Construction                                                             */

  datatype Params = Params(stride: int, padding: int, padValue: real)

  /** The parameters a constructed operator holds. */
  predicate Checked(p: Params)
  {
    p.stride > 0 && p.padding >= 0
  }

  /** The constructor's defaults (stride 1, padding 0, padValue 0) and its
      two checks, padding first. */
  function Configure(stride: Option<int>, padding: Option<int>, padValue: Option<real>): (r: Result<Params>)
    ensures r.Success? <==> (padding.Some? ==> padding.value >= 0) && (stride.Some? ==> stride.value > 0)
    ensures r.Success? ==> Checked(r.value)
    ensures padding.Some? && padding.value < 0 ==> r == Failure(NegativePadding)
  {
    var p := if padding.Some? then padding.value else 0;
    if p < 0 then Failure(NegativePadding)
    else
      var s := if stride.Some? then stride.value else 1;
      if s <= 0 then Failure(NonPositiveStride)
      else Success(Params(s, p, if padValue.Some? then padValue.value else 0.0))
  }

  /** The operator refuses exactly the options `async-math`'s `conv1d`
      refuses, with the same message; the options it accepts behave as the
      explicit parameters it stores. */
  lemma ConfigureAsAsync(input: seq<seq<real>>, weight: seq<seq<seq<real>>>, cin: nat, wcin: nat, cout: nat,
                         stride: Option<int>, padding: Option<int>, padValue: Option<real>)
    requires Rect(input, cin) && Kernel(weight, wcin, cout)
    ensures var c := Configure(stride, padding, padValue);
      && (c.Failure? ==> Conv1dSpec(input, weight, cin, wcin, cout, stride, padding, padValue) == Failure(c.error))
      && (c.Success? ==> Conv1dSpec(input, weight, cin, wcin, cout, stride, padding, padValue)
                         == Conv1dSpec(input, weight, cin, wcin, cout, Some(c.value.stride), Some(c.value.padding), Some(c.value.padValue)))
  {
  }

  /* ---------------------------------------------------------------------- */
  /* The mapping from output rows to input rows                               */

  /** `pipe(range(st, ed), filter(inRange(p, p + n)), map(d => d - p))`:
      the positions of the window that fall on the unpadded input, as
      input rows. */
  function WindowRows(st: int, ed: int, p: int, n: int): (r: seq<int>)
    ensures forall x :: x in r <==> 0 <= x < n && st <= x + p < ed
    ensures forall a :: 0 <= a < |r| ==> r[a] + p < ed
    ensures forall a, b :: 0 <= a < b < |r| ==> r[a] < r[b]
    decreases ed - st
  {
    if ed <= st then []
    else WindowRows(st, ed - 1, p, n) + (if p <= ed - 1 < p + n then [ed - 1 - p] else [])
  }

  /** The window of output row `i` reaches past the leading padding and
      starts before the trailing one: the condition under which `compute`
      records it. */
  predicate Touches(i: int, s: int, k: int, p: int, n: int)
  {
    i * s + k >= p && i * s < p + n
  }

  /** The mapping after the first `m` output rows. */
  function MappingSpec(m: nat, s: int, k: int, p: int, n: int): map<int, seq<int>>
  {
    if m == 0 then map[]
    else
      var prev := MappingSpec(m - 1, s, k, p, n);
      var i := m - 1;
      if Touches(i, s, k, p, n) then prev[i := WindowRows(i * s, i * s + k, p, n)] else prev
  }

  /** After `m` output rows the mapping has an entry exactly for the rows
      whose window touches the input, and that entry lists, in ascending
      order, the input rows `x` whose padded position `x + p` lies in the
      window.  A window that ends exactly where the input starts gets an
      empty entry. */
  lemma {:induction false} MappingSound(m: nat, s: int, k: int, p: int, n: int)
    ensures var mp := MappingSpec(m, s, k, p, n);
      && (forall i :: i in mp <==> 0 <= i < m && Touches(i, s, k, p, n))
      && (forall i :: i in mp ==> mp[i] == WindowRows(i * s, i * s + k, p, n))
      && (forall i, x :: i in mp ==> (x in mp[i] <==> 0 <= x < n && i * s <= x + p < i * s + k))
      && (forall i, a, b :: i in mp && 0 <= a < b < |mp[i]| ==> mp[i][a] < mp[i][b])
  {
    if m > 0 {
      MappingSound(m - 1, s, k, p, n);
    }
  }

  /** With two rows of input, a kernel of 3, stride 1 and padding 3, the
      first output row's window ends where the input starts: it is recorded
      with no rows. */
  lemma EmptyEntryExample()
    ensures 0 in MappingSpec(1, 1, 3, 3, 2) && MappingSpec(1, 1, 3, 3, 2)[0] == []
  {
    assert WindowRows(0, 3, 3, 2) == [];
  }

  /* ---------------------------------------------------------------------- */
  /* Windows and their regrouping                                             */

  /** `win` is the `k` padded rows from `i * s` on. */
  predicate WindowAt(win: seq<seq<real>>, padded: seq<seq<real>>, i: nat, s: nat, k: nat)
  {
    |win| == k && i * s + k <= |padded| && forall t :: 0 <= t < k ==> win[t] == padded[i * s + t]
  }

  /** `paddedInput.slice(st, st + k)` for the first `m` output rows. */
  function Windows(padded: seq<seq<real>>, k: nat, s: nat, m: nat): (r: seq<seq<seq<real>>>)
    requires m == 0 || (m - 1) * s + k <= |padded|
    ensures |r| == m
    ensures forall i :: 0 <= i < m ==> WindowAt(r[i], padded, i, s, k)
  {
    if m == 0 then []
    else
      MulMono(m - 2, m - 1, s);
      Windows(padded, k, s, m - 1) + [padded[(m - 1) * s..(m - 1) * s + k]]
  }

  /** The `reduce` that appends row `t` of each window to matrix `t`: the
      regrouped matrices are the windows transposed, matrix `t` holding row
      `t` of every window in window order. */
  function Regroup(windows: seq<seq<seq<real>>>, k: nat): (r: seq<seq<seq<real>>>)
    requires forall i :: 0 <= i < |windows| ==> |windows[i]| == k
    ensures |r| == k
    ensures forall t :: 0 <= t < k ==> |r[t]| == |windows| && forall i :: 0 <= i < |windows| ==> r[t][i] == windows[i][t]
  {
    if |windows| == 0 then seq(k, _ => [])
    else
      var a := Regroup(windows[..|windows| - 1], k);
      var b := windows[|windows| - 1];
      seq(k, t requires 0 <= t < k => a[t] + [b[t]])
  }

  /** `savedIm2cols` after `compute`: one matrix per kernel row, one row
      per output row, row `i` of matrix `t` being padded row `i * s + t`. */
  function SavedSpec(padded: seq<seq<real>>, cin: nat, k: nat, s: nat, m: nat): (saved: seq<seq<seq<real>>>)
    requires Rect(padded, cin)
    requires m == 0 || (m - 1) * s + k <= |padded|
    ensures |saved| == k
    ensures forall t :: 0 <= t < k ==> |saved[t]| == m && Rect(saved[t], cin)
    ensures forall t, i :: 0 <= t < k && 0 <= i < m ==> SavedAt(saved, padded, t, i, s)
  {
    var w := Windows(padded, k, s, m);
    SavedFacts(padded, cin, k, s, m, w, Regroup(w, k));
    Regroup(w, k)
  }

  lemma SavedFacts(padded: seq<seq<real>>, cin: nat, k: nat, s: nat, m: nat,
                   w: seq<seq<seq<real>>>, saved: seq<seq<seq<real>>>)
    requires Rect(padded, cin)
    requires m == 0 || (m - 1) * s + k <= |padded|
    requires w == Windows(padded, k, s, m) && saved == Regroup(w, k)
    ensures |saved| == k
    ensures forall t :: 0 <= t < k ==> |saved[t]| == m && Rect(saved[t], cin)
    ensures forall t, i :: 0 <= t < k && 0 <= i < m ==> SavedAt(saved, padded, t, i, s)
  {
    forall t, i | 0 <= t < k && 0 <= i < m
      ensures SavedAt(saved, padded, t, i, s) && |saved[t][i]| == cin
    {
      SavedCell(padded, cin, w[i], saved[t][i], i, s, k, t);
    }
  }

  /** Row `t` of window `i` is padded row `i * s + t`. */
  lemma SavedCell(padded: seq<seq<real>>, cin: nat, win: seq<seq<real>>, row: seq<real>, i: nat, s: nat, k: nat, t: nat)
    requires Rect(padded, cin) && WindowAt(win, padded, i, s, k) && t < k && row == win[t]
    ensures i * s + t < |padded| && row == padded[i * s + t] && |row| == cin
  {
  }

  /** Row `i` of saved matrix `t` is padded row `i * s + t`. */
  predicate SavedAt(saved: seq<seq<seq<real>>>, padded: seq<seq<real>>, t: nat, i: nat, s: nat)
  {
    t < |saved| && i < |saved[t]| && i * s + t < |padded| && saved[t][i] == padded[i * s + t]
  }

  /** Channel `c` of the padded rows under kernel row `t`, one entry per
      output row. */
  function KernelRowChannel(padded: seq<seq<real>>, cin: nat, s: nat, m: nat, t: nat, c: nat): (r: seq<real>)
    requires Rect(padded, cin) && c < cin
    requires m == 0 || (m - 1) * s + t < |padded|
    ensures |r| == m
  {
    seq(m, i requires 0 <= i < m => (MulMono(i, m - 1, s); padded[i * s + t][c]))
  }

  /* ---------------------------------------------------------------------- */
  /* Matrix arithmetic of mathjs                                              */

  /** `matmul(a, b)`: row by row, each row of `a` times `b`. */
  function MatMul(a: seq<seq<real>>, b: seq<seq<real>>, cout: nat): (r: seq<seq<real>>)
    requires forall i :: 0 <= i < |a| ==> |a[i]| == |b|
    requires Rect(b, cout)
    ensures |r| == |a| && Rect(r, cout)
  {
    seq(|a|, i requires 0 <= i < |a| => VecMat(a[i], b, cout))
  }

  /** `add(a, b)` of two matrices of one size. */
  function MatAdd(a: seq<seq<real>>, b: seq<seq<real>>, cols: nat): (r: seq<seq<real>>)
    requires |a| == |b| && Rect(a, cols) && Rect(b, cols)
    ensures |r| == |a| && Rect(r, cols)
  {
    seq(|a|, i requires 0 <= i < |a| => Add(a[i], b[i]))
  }

  /** `transpose(m)` of a matrix of `cols` columns. */
  function TransposeOf(m: seq<seq<real>>, cols: nat): (r: seq<seq<real>>)
    requires Rect(m, cols)
    ensures |r| == cols && Rect(r, |m|)
  {
    seq(cols, c requires 0 <= c < cols => Column(m, c))
  }

  /** `zeros([rows, cols])`. */
  function ZeroMat(rows: nat, cols: nat): (r: seq<seq<real>>)
    ensures |r| == rows && Rect(r, cols)
  {
    seq(rows, _ => seq(cols, _ => 0.0))
  }

  /** The products `savedIm2cols[t] x weight[t]`. */
  function Features(saved: seq<seq<seq<real>>>, weight: seq<seq<seq<real>>>, cin: nat, cout: nat, m: nat): (r: seq<seq<seq<real>>>)
    requires |saved| == |weight| && Kernel(weight, cin, cout)
    requires forall t :: 0 <= t < |saved| ==> |saved[t]| == m && Rect(saved[t], cin)
    ensures |r| == |saved| && forall t :: 0 <= t < |r| ==> |r[t]| == m && Rect(r[t], cout)
  {
    seq(|saved|, t requires 0 <= t < |saved| => Feature(saved[t], weight[t], cin, cout))
  }

  /** `matmul(saved, weight)` of an `m x cin` and a `cin x cout` matrix. */
  function Feature(a: seq<seq<real>>, b: seq<seq<real>>, cin: nat, cout: nat): (r: seq<seq<real>>)
    requires Rect(a, cin) && |b| == cin && Rect(b, cout)
    ensures |r| == |a| && Rect(r, cout)
  {
    MatMul(a, b, cout)
  }

  /** The sum of the first `n` matrices, accumulated from the first. */
  function SumMats(feats: seq<seq<seq<real>>>, n: nat, m: nat, cout: nat): (r: seq<seq<real>>)
    requires 0 < n <= |feats|
    requires forall t :: 0 <= t < |feats| ==> |feats[t]| == m && Rect(feats[t], cout)
    ensures |r| == m && Rect(r, cout)
  {
    if n == 1 then feats[0] else MatAdd(SumMats(feats, n - 1, m, cout), feats[n - 1], cout)
  }

  /** Row `i` of the sum is the sum of the rows `i` of the matrices. */
  lemma {:induction false} SumMatsRow(feats: seq<seq<seq<real>>>, n: nat, m: nat, cout: nat, i: nat)
    requires 0 < n <= |feats| && i < m
    requires forall t :: 0 <= t < |feats| ==> |feats[t]| == m && Rect(feats[t], cout)
    ensures SumMats(feats, n, m, cout)[i] == SumRows(seq(n, t requires 0 <= t < n => feats[t][i]), cout)
  {
    var rows := seq(n, t requires 0 <= t < n => feats[t][i]);
    if n > 1 {
      SumMatsRow(feats, n - 1, m, cout, i);
      assert rows[..n - 1] == seq(n - 1, t requires 0 <= t < n - 1 => feats[t][i]);
    }
  }

  /** `let res = feats[0]; for (i = 1; i < feats.length; i++) res = add(res, feats[i])`. */
  method SumFeatures(feats: seq<seq<seq<real>>>, m: nat, cout: nat) returns (res: seq<seq<real>>)
    requires |feats| > 0
    requires forall t :: 0 <= t < |feats| ==> |feats[t]| == m && Rect(feats[t], cout)
    ensures res == SumMats(feats, |feats|, m, cout)
  {
    res := feats[0];
    var i := 1;
    while i < |feats|
      invariant 1 <= i <= |feats|
      invariant res == SumMats(feats, i, m, cout)
    {
      res := MatAdd(res, feats[i], cout);
      i := i + 1;
    }
  }

  /** The regroup-multiply-add forward pass is the convolution: the summed
      products are the output rows of `async-math`'s `conv1d` on the same
      padded input. */
  lemma ForwardIsConvolution(padded: seq<seq<real>>, weight: seq<seq<seq<real>>>, cin: nat, cout: nat, s: nat, m: nat)
    requires Rect(padded, cin) && Kernel(weight, cin, cout) && |weight| > 0 && m > 0
    requires (m - 1) * s + |weight| <= |padded|
    ensures var k := |weight|;
      var saved := SavedSpec(padded, cin, k, s, m);
      SumMats(Features(saved, weight, cin, cout, m), k, m, cout) == OutRows(padded, weight, cin, cout, s, m)
  {
    var k := |weight|;
    var saved := SavedSpec(padded, cin, k, s, m);
    var feats := Features(saved, weight, cin, cout, m);
    var lhs := SumMats(feats, k, m, cout);
    var rhs := OutRows(padded, weight, cin, cout, s, m);
    forall i | 0 <= i < m
      ensures lhs[i] == rhs[i]
    {
      SumMatsRow(feats, k, m, cout, i);
      OutRowsAt(padded, weight, cin, cout, s, m, i);
      RowOfFeatures(padded, weight, cin, cout, s, m, saved, feats, i);
    }
  }

  lemma RowOfFeatures(padded: seq<seq<real>>, weight: seq<seq<seq<real>>>, cin: nat, cout: nat, s: nat, m: nat,
                      saved: seq<seq<seq<real>>>, feats: seq<seq<seq<real>>>, i: nat)
    requires Rect(padded, cin) && Kernel(weight, cin, cout) && |weight| > 0 && i < m
    requires (m - 1) * s + |weight| <= |padded|
    requires saved == SavedSpec(padded, cin, |weight|, s, m)
    requires feats == Features(saved, weight, cin, cout, m)
    ensures i * s + |weight| <= |padded|
    ensures seq(|weight|, t requires 0 <= t < |weight| => feats[t][i])
         == seq(|weight|, t requires 0 <= t < |weight| => VecMat(padded[i * s + t], weight[t], cout))
  {
    MulMono(i, m - 1, s);
    forall t | 0 <= t < |weight|
      ensures feats[t][i] == VecMat(padded[i * s + t], weight[t], cout)
    {
      assert SavedAt(saved, padded, t, i, s);
    }
  }

  /* ---------------------------------------------------------------------- */
  /* The weight gradient                                                      */

  /** Slice `t` of the weight gradient: `add(zeros, matmul(transpose(col), outGrad))`. */
  function SliceGradient(col: seq<seq<real>>, outGrad: seq<seq<real>>, cin: nat, cout: nat): (r: seq<seq<real>>)
    requires Rect(col, cin) && Rect(outGrad, cout) && |col| == |outGrad|
    ensures |r| == cin && Rect(r, cout)
  {
    MatAdd(ZeroMat(cin, cout), MatMul(TransposeOf(col, cin), outGrad, cout), cout)
  }

  /** The weight gradient, one slice per saved matrix. */
  function WeightGradSpec(saved: seq<seq<seq<real>>>, outGrad: seq<seq<real>>, cin: nat, cout: nat): (r: seq<seq<seq<real>>>)
    requires Rect(outGrad, cout)
    requires forall t :: 0 <= t < |saved| ==> |saved[t]| == |outGrad| && Rect(saved[t], cin)
    ensures |r| == |saved|
  {
    seq(|saved|, t requires 0 <= t < |saved| => SliceGradient(saved[t], outGrad, cin, cout))
  }

  /** After `compute`, the weight gradient at `(t, c, o)` correlates input
      channel `c` of the padded rows under kernel row `t` with output
      channel `o` of the output gradient: the derivative, with respect to
      `weight[t][c][o]`, of the output gradient dotted with the output. */
  lemma WeightGradientCorrelates(padded: seq<seq<real>>, cin: nat, k: nat, s: nat, m: nat,
                                 outGrad: seq<seq<real>>, cout: nat, t: nat, c: nat, o: nat)
    requires Rect(padded, cin) && Rect(outGrad, cout) && |outGrad| == m
    requires m == 0 || (m - 1) * s + k <= |padded|
    requires t < k && c < cin && o < cout
    ensures var saved := SavedSpec(padded, cin, k, s, m);
      && |WeightGradSpec(saved, outGrad, cin, cout)| == k
      && WeightGradSpec(saved, outGrad, cin, cout)[t][c][o]
         == Linalg.Dot(KernelRowChannel(padded, cin, s, m, t, c), Column(outGrad, o))
  {
    var saved := SavedSpec(padded, cin, k, s, m);
    var col := saved[t];
    forall i | 0 <= i < m
      ensures Column(col, c)[i] == KernelRowChannel(padded, cin, s, m, t, c)[i]
    {
      assert SavedAt(saved, padded, t, i, s);
    }
    assert Column(col, c) == KernelRowChannel(padded, cin, s, m, t, c);
    var g := SliceGradient(col, outGrad, cin, cout);
    assert g[c][o] == 0.0 + VecMat(TransposeOf(col, cin)[c], outGrad, cout)[o];
  }

  /* ---------------------------------------------------------------------- */
  /* The operator                                                             */

  /** The kernel reaches into the input: no shorter padded input than the
      kernel.  (`compute` is not modelled when the kernel overhangs a
      non-empty padded input.) */
  predicate KernelReaches(n: nat, k: nat, p: int)
  {
    n == 0 || k <= n + 2 * p
  }

  /** Both values are present and `getConv1dSize` accepts their sizes:
      `compute` goes on to rebuild the mapping and the saved matrices. */
  predicate Sized(input: Option<seq<seq<real>>>, weight: Option<seq<seq<seq<real>>>>, wcin: nat)
  {
    input.Some? && weight.Some? && |input.value| > 0 && |weight.value| > 0 && wcin > 0
  }

  class Conv1dOp {
    const stride: int
    const padding: int
    const padValue: real
    /** Output row to the input rows its window covers. */
    var mapping: map<int, seq<int>>
    /** `[k, feat_out, cin]`: the regrouped windows of the last `compute`. */
    var savedIm2cols: seq<seq<seq<real>>>

    /** `new Conv1d({ stride, padding, padValue })` after `Configure`
        accepted the options. */
    constructor (p: Params)
      requires Checked(p)
      ensures stride == p.stride && padding == p.padding && padValue == p.padValue
      ensures mapping == map[] && savedIm2cols == []
    {
      stride, padding, padValue := p.stride, p.padding, p.padValue;
      mapping, savedIm2cols := map[], [];
    }

    /** `compute(input, weight)`: the mapping is cleared first, a missing
        value throws, a size `getConv1dSize` refuses throws; otherwise the
        mapping and the saved matrices are rebuilt, and only then does the
        first `matmul` throw when the weight's `wcin` rows do not match the
        input's `cin` columns.  The output is the one `async-math`'s
        `conv1d` gives with the operator's parameters. */
    method Compute(input: Option<seq<seq<real>>>, weight: Option<seq<seq<seq<real>>>>, cin: nat, wcin: nat, cout: nat)
      returns (r: Result<seq<seq<real>>>)
      requires stride > 0 && padding >= 0
      requires input.Some? ==> Rect(input.value, cin)
      requires weight.Some? ==> Kernel(weight.value, wcin, cout)
      requires input.Some? && weight.Some? ==> KernelReaches(|input.value|, |weight.value|, padding)
      modifies this`mapping, this`savedIm2cols
      ensures input.None? || weight.None? ==> r == Failure(ValueIsNull)
      ensures input.Some? && weight.Some? ==>
        r == Conv1dSpec(input.value, weight.value, cin, wcin, cout, Some(stride), Some(padding), Some(padValue))
      ensures !Sized(input, weight, wcin) ==> r.Failure? && mapping == map[] && savedIm2cols == old(savedIm2cols)
      ensures Sized(input, weight, wcin) ==>
        var n, k := |input.value|, |weight.value|;
        var m := Rows(n, k, stride, padding);
        && (r.Success? <==> cin == wcin)
        && (r.Failure? ==> r.error == MultiplyMismatch(cin, wcin))
        && mapping == MappingSpec(m, stride, k, padding, n)
        && savedIm2cols == SavedSpec(Padded(input.value, cin, padding, padValue), cin, k, stride, m)
    {
      mapping := map[];
      if input.None? || weight.None? {
        return Failure(ValueIsNull);
      }
      var x, w := input.value, weight.value;
      var convSize := Conv1dSize(InputSize(x, cin), WeightSize(w, wcin, cout), stride, padding);
      SizeChecked(x, w, cin, wcin, cout, stride, padding);
      if convSize.Failure? {
        return Failure(convSize.error);
      }
      var k := |w|;
      var m := Rows(|x|, k, stride, padding);
      RowsAtLeastOne(|x|, k, stride, padding);
      var padded := Padded(x, cin, padding, padValue);
      var windows := MapWindows(padded, |x|, k, m);
      savedIm2cols := Regroup(windows, k);
      assert savedIm2cols == SavedSpec(padded, cin, k, stride, m);
      if cin != wcin {
        // every saved matrix has `cin` columns and every kernel matrix
        // `wcin` rows, so the first product `Promise.all` awaits throws
        return Failure(MultiplyMismatch(cin, wcin));
      }
      var feats := Features(savedIm2cols, w, cin, cout, m);
      var res := SumFeatures(feats, m, cout);
      ForwardIsConvolution(padded, w, cin, cout, stride, m);
      r := Success(res);
    }

    /** The `range(convSize[0]).map(...)` loop: window `i` is cut from the
        padded input and recorded in the mapping when it touches the
        input. */
    method MapWindows(padded: seq<seq<real>>, n: nat, k: nat, m: nat) returns (windows: seq<seq<seq<real>>>)
      requires stride > 0 && padding >= 0 && mapping == map[]
      requires m == 0 || (m - 1) * stride + k <= |padded|
      modifies this`mapping
      ensures mapping == MappingSpec(m, stride, k, padding, n)
      ensures windows == Windows(padded, k, stride, m)
    {
      windows := [];
      var i := 0;
      while i < m
        invariant 0 <= i <= m
        invariant mapping == MappingSpec(i, stride, k, padding, n)
        invariant windows == Windows(padded, k, stride, i)
      {
        var st := i * stride;
        var ed := st + k;
        MulMono(i, m - 1, stride);
        if ed >= padding && st < padding + n {
          mapping := mapping[i := WindowRows(st, ed, padding, n)];
        }
        windows := windows + [padded[st..ed]];
        i := i + 1;
      }
    }

    /** The weight half of `gradient(outGrad, input, weight)`: a missing
        value throws; otherwise slice `t` is `transpose(savedIm2cols[t])`
        times the output gradient, added to a zero slice. */
    method WeightGradient(outGrad: Option<seq<seq<real>>>, input: Option<seq<seq<real>>>,
                          weight: Option<seq<seq<seq<real>>>>, cin: nat, cout: nat)
      returns (r: Result<seq<seq<seq<real>>>>)
      requires outGrad.Some? ==> (Rect(outGrad.value, cout)
        && forall t :: 0 <= t < |savedIm2cols| ==> |savedIm2cols[t]| == |outGrad.value| && Rect(savedIm2cols[t], cin))
      requires weight.Some? ==> Kernel(weight.value, cin, cout) && |weight.value| == |savedIm2cols|
      ensures outGrad.None? || input.None? || weight.None? ==> r == Failure(ValueIsNull)
      ensures outGrad.Some? && input.Some? && weight.Some? ==>
        r == Success(WeightGradSpec(savedIm2cols, outGrad.value, cin, cout))
    {
      if outGrad.None? || input.None? || weight.None? {
        return Failure(ValueIsNull);
      }
      var g := outGrad.value;
      var k := |weight.value|;
      var weightGrad := seq(k, _ => ZeroMat(cin, cout));
      var t := 0;
      while t < k
        invariant 0 <= t <= k && |weightGrad| == k
        invariant forall u :: 0 <= u < t ==> weightGrad[u] == SliceGradient(savedIm2cols[u], g, cin, cout)
        invariant forall u :: t <= u < k ==> weightGrad[u] == ZeroMat(cin, cout)
      {
        var grad := MatMul(TransposeOf(savedIm2cols[t], cin), g, cout);
        weightGrad := weightGrad[t := MatAdd(weightGrad[t], grad, cout)];
        t := t + 1;
      }
      assert weightGrad == WeightGradSpec(savedIm2cols, g, cin, cout);
      r := Success(weightGrad);
    }
  }

  /** A kernel that reaches into a non-empty input gives at least one
      output row, and the row count is `getConv1dSize`'s extent. */
  lemma RowsAtLeastOne(n: nat, k: nat, s: int, p: int)
    requires s > 0 && p >= 0 && n > 0 && KernelReaches(n, k, p)
    ensures Rows(n, k, s, p) == OutExtent(n, k, s, p) >= 1
  {
    OutExtentDivision(n, k, s, p);
  }
}
