/** `conv1d` of `packages/async-math/src/conv1d.ts`: a one-dimensional
    convolution over mathjs matrices. The input is `n` rows of `cin`
    features, the weight `k` matrices of `cin x cout`; the input is padded
    with `padding` rows of `padValue` at each end, and output row `i` is
    the sum over `idx < k` of padded row `i * stride + idx` times weight
    matrix `idx`. */
module AsyncConv1d {
  import opened Wrappers
  import opened ConvGeometry
  import Linalg

  const NegativePadding := "conv1d: padding must be greater than 0"
  const NonPositiveStride := "conv1d: stride must be greater than 0"

  /** The `RangeError` mathjs `multiply` throws for a `1 x cin` row times a
      matrix of `wcin` rows. */
  function MultiplyMismatch(cin: nat, wcin: nat): string
  {
    "Dimension mismatch in multiplication. Matrix A columns (" + Decimal(cin)
      + ") must match Matrix B rows (" + Decimal(wcin) + ")"
  }

  /* ---------------------------------------------------------------------- */
  /* Matrices                                                                 */

  /** Every row has `cols` entries. */
  predicate Rect(m: seq<seq<real>>, cols: nat)
  {
    forall r :: 0 <= r < |m| ==> |m[r]| == cols
  }

  /** Every matrix of the weight is `cin x cout`. */
  predicate Kernel(w: seq<seq<seq<real>>>, cin: nat, cout: nat)
  {
    forall t :: 0 <= t < |w| ==> |w[t]| == cin && Rect(w[t], cout)
  }

  /** `size()` of a mathjs matrix of `n` rows of `cin`: an empty matrix
      has size `[0]`. */
  function InputSize(input: seq<seq<real>>, cin: nat): (r: seq<int>)
    ensures |r| == 2 <==> |input| > 0
  {
    if |input| == 0 then [0] else [|input|, cin]
  }

  /** `size()` of the weight: `[0]` without matrices, `[k, 0]` when they
      have no rows. */
  function WeightSize(weight: seq<seq<seq<real>>>, cin: nat, cout: nat): (r: seq<int>)
    ensures |r| == 3 <==> |weight| > 0 && cin > 0
  {
    if |weight| == 0 then [0] else if cin == 0 then [|weight|, 0] else [|weight|, cin, cout]
  }

  /** `multiply([embed], w).flat()`: the row vector `embed` times the
      `cin x cout` matrix `w`. */
  function VecMat(v: seq<real>, w: seq<seq<real>>, cout: nat): (r: seq<real>)
    requires |w| == |v| && Rect(w, cout)
    ensures |r| == cout
  {
    seq(cout, j requires 0 <= j < cout => Linalg.Dot(v, Column(w, j)))
  }

  function Column(w: seq<seq<real>>, j: nat): (r: seq<real>)
    requires forall c :: 0 <= c < |w| ==> j < |w[c]|
    ensures |r| == |w|
  {
    seq(|w|, c requires 0 <= c < |w| => w[c][j])
  }

  /** `add` of two vectors of equal length. */
  function Add(a: seq<real>, b: seq<real>): (r: seq<real>)
    requires |a| == |b|
    ensures |r| == |a| && forall j :: 0 <= j < |a| ==> r[j] == a[j] + b[j]
  {
    seq(|a|, j requires 0 <= j < |a| => a[j] + b[j])
  }

  /** `reduce((a, b) => add(a, b))` over a non-empty list of rows of
      `cout` entries, from the first to the last. */
  function SumRows(rows: seq<seq<real>>, cout: nat): (r: seq<real>)
    requires |rows| > 0 && Rect(rows, cout)
    ensures |r| == cout
  {
    if |rows| == 1 then rows[0] else Add(SumRows(rows[..|rows| - 1], cout), rows[|rows| - 1])
  }

  /* ---------------------------------------------------------------------- */
  /* Padding and the output rows                                              */

  /** `padding` rows of `padValue`, the input, `padding` rows again; no
      padding keeps the input. */
  function Padded(input: seq<seq<real>>, cin: nat, padding: nat, padValue: real): (r: seq<seq<real>>)
    requires Rect(input, cin)
    ensures |r| == |input| + 2 * padding && Rect(r, cin)
  {
    if padding > 0 then PadRows(padding, cin, padValue) + input + PadRows(padding, cin, padValue)
    else input
  }

  /** `range(padding).map(() => Array(cin).fill(padValue))`. */
  function PadRows(padding: nat, cin: nat, padValue: real): (r: seq<seq<real>>)
    ensures |r| == padding && Rect(r, cin)
    ensures forall t :: 0 <= t < padding ==> r[t] == seq(cin, _ => padValue)
  {
    seq(padding, _ => seq(cin, _ => padValue))
  }

  /** Output row `i`: the window of `k` padded rows from `i * stride`, each
      times its weight matrix, summed. */
  function OutRow(padded: seq<seq<real>>, weight: seq<seq<seq<real>>>, cin: nat, cout: nat, i: nat, stride: nat): (r: seq<real>)
    requires Rect(padded, cin) && Kernel(weight, cin, cout) && |weight| > 0
    requires i * stride + |weight| <= |padded|
    ensures |r| == cout
  {
    var k := |weight|;
    SumRows(seq(k, idx requires 0 <= idx < k => VecMat(padded[i * stride + idx], weight[idx], cout)), cout)
  }

  /** The number of output rows: the loop runs while `i < convSize[0]`. */
  function Rows(n: nat, k: nat, stride: nat, padding: nat): (m: nat)
    requires stride > 0
    ensures m == 0 || (m - 1) * stride + k <= n + 2 * padding
  {
    var e := OutExtent(n, k, stride, padding);
    if e <= 0 then 0
    else
      OutExtentCountsOrigins(n, k, stride, padding, e - 1);
      e
  }

  /** Every output row's window lies inside the padded input. */
  lemma WindowInside(n: nat, k: nat, stride: nat, padding: nat, i: nat)
    requires stride > 0 && i < Rows(n, k, stride, padding)
    ensures i * stride + k <= n + 2 * padding
  {
    OutExtentCountsOrigins(n, k, stride, padding, i);
  }

  /** `getConv1dSize` on the sizes of the two matrices: it throws on an
      empty input or an empty or row-less weight, and otherwise gives the
      output extent first. It never compares the input's columns with the
      weight's rows. */
  lemma SizeChecked(input: seq<seq<real>>, weight: seq<seq<seq<real>>>, cin: nat, wcin: nat, cout: nat, s: int, p: int)
    requires Rect(input, cin) && Kernel(weight, wcin, cout) && s > 0 && p >= 0
    ensures var c := Conv1dSize(InputSize(input, cin), WeightSize(weight, wcin, cout), s, p);
      && (c.Success? <==> |input| > 0 && |weight| > 0 && wcin > 0)
      && (c.Success? ==> |c.value| == 2 && c.value[0] == OutExtent(|input|, |weight|, s, p))
      && (|input| == 0 ==> c == Failure(Conv1dSizeRank(1)))
  {
    if |input| > 0 && |weight| > 0 && wcin > 0 {
      ConvSizeOneTwo(|input|, cin, |weight|, wcin, s, p);
    }
  }

  /** `conv1d(input, weight, { stride, padding, padValue })` on an input of
      `cin` columns and a weight of `wcin x cout` matrices. */
  function Conv1dSpec(input: seq<seq<real>>, weight: seq<seq<seq<real>>>, cin: nat, wcin: nat, cout: nat,
                      stride: Option<int>, padding: Option<int>, padValue: Option<real>): Result<seq<seq<real>>>
    requires Rect(input, cin) && Kernel(weight, wcin, cout)
  {
    var p := if padding.Some? then padding.value else 0;
    if p < 0 then Failure(NegativePadding)
    else
      var s := if stride.Some? then stride.value else 1;
      if s <= 0 then Failure(NonPositiveStride)
      else
        var size :- Conv1dSize(InputSize(input, cin), WeightSize(weight, wcin, cout), s, p);
        var padded := Padded(input, cin, p, if padValue.Some? then padValue.value else 0.0);
        PushedRows(padded, weight, cin, wcin, cout, s, Rows(|input|, |weight|, s, p))
  }

  /** What the push loop gives for `m` windows: nothing to push without a
      window; otherwise the first `multiply` throws when the weight's row
      count is not the input's column count, and all `m` rows are pushed
      when it is. */
  function PushedRows(padded: seq<seq<real>>, weight: seq<seq<seq<real>>>, cin: nat, wcin: nat, cout: nat, s: nat, m: nat)
    : Result<seq<seq<real>>>
    requires Rect(padded, cin) && Kernel(weight, wcin, cout) && |weight| > 0
    requires m == 0 || (m - 1) * s + |weight| <= |padded|
  {
    if m == 0 then Success([])
    else if cin != wcin then Failure(MultiplyMismatch(cin, wcin))
    else Success(OutRows(padded, weight, cin, cout, s, m))
  }

  /** Row `i` of the first `m` output rows. */
  lemma {:induction false} OutRowsAt(padded: seq<seq<real>>, weight: seq<seq<seq<real>>>, cin: nat, cout: nat, stride: nat, m: nat, i: nat)
    requires Rect(padded, cin) && Kernel(weight, cin, cout) && |weight| > 0
    requires (m - 1) * stride + |weight| <= |padded| && i < m
    ensures i * stride + |weight| <= |padded|
    ensures OutRows(padded, weight, cin, cout, stride, m)[i] == OutRow(padded, weight, cin, cout, i, stride)
  {
    MulMono(i, m - 1, stride);
    if i < m - 1 {
      MulMono(m - 2, m - 1, stride);
      OutRowsAt(padded, weight, cin, cout, stride, m - 1, i);
    }
  }

  /** The first `m` output rows. */
  function OutRows(padded: seq<seq<real>>, weight: seq<seq<seq<real>>>, cin: nat, cout: nat, stride: nat, m: nat): (r: seq<seq<real>>)
    requires Rect(padded, cin) && Kernel(weight, cin, cout) && |weight| > 0
    requires m == 0 || (m - 1) * stride + |weight| <= |padded|
    ensures |r| == m && Rect(r, cout)
  {
    if m == 0 then []
    else
      MulMono(m - 2, m - 1, stride);
      OutRows(padded, weight, cin, cout, stride, m - 1) + [OutRow(padded, weight, cin, cout, m - 1, stride)]
  }

  /** The source's loop: defaults and checks, then one pushed row per
      `i < convSize[0]`. */
  method Conv1d(input: seq<seq<real>>, weight: seq<seq<seq<real>>>, cin: nat, wcin: nat, cout: nat,
                stride: Option<int>, padding: Option<int>, padValue: Option<real>) returns (r: Result<seq<seq<real>>>)
    requires Rect(input, cin) && Kernel(weight, wcin, cout)
    ensures r == Conv1dSpec(input, weight, cin, wcin, cout, stride, padding, padValue)
  {
    var p := if padding.Some? then padding.value else 0;
    if p < 0 {
      return Failure(NegativePadding);
    }
    var fill := if padValue.Some? then padValue.value else 0.0;
    var s := if stride.Some? then stride.value else 1;
    if s <= 0 {
      return Failure(NonPositiveStride);
    }
    var convSize := Conv1dSize(InputSize(input, cin), WeightSize(weight, wcin, cout), s, p);
    if convSize.Failure? {
      return Failure(convSize.error);
    }
    SizeChecked(input, weight, cin, wcin, cout, s, p);
    var padded := Padded(input, cin, p, fill);
    r := PushRows(padded, weight, cin, wcin, cout, s, convSize.value[0], Rows(|input|, |weight|, s, p));
  }

  /** `for (let i = 0; i < convSize[0]; i++) res.push(...)`: the first
      `multiply([embed], weightArr[0])` of a window throws when the row
      has a different length from the weight's row count. */
  method PushRows(padded: seq<seq<real>>, weight: seq<seq<seq<real>>>, cin: nat, wcin: nat, cout: nat,
                  s: nat, bound: int, m: nat)
    returns (r: Result<seq<seq<real>>>)
    requires Rect(padded, cin) && Kernel(weight, wcin, cout) && |weight| > 0
    requires m == (if bound < 0 then 0 else bound)
    requires m == 0 || (m - 1) * s + |weight| <= |padded|
    ensures r == PushedRows(padded, weight, cin, wcin, cout, s, m)
  {
    var res := [];
    var i := 0;
    while i < bound
      invariant 0 <= i <= m
      invariant i > 0 ==> cin == wcin
      invariant res == if i == 0 then [] else OutRows(padded, weight, cin, cout, s, i)
    {
      if cin != wcin {
        return Failure(MultiplyMismatch(cin, wcin));
      }
      MulMono(i, m - 1, s);
      res := res + [OutRow(padded, weight, cin, cout, i, s)];
      i := i + 1;
    }
    return Success(res);
  }

  /* ---------------------------------------------------------------------- */
  /* What the result is                                                       */

  /** `conv1d` throws on a negative padding, then on a non-positive stride
      (missing ones default to 0 and 1), then on an empty input or an
      empty or row-less weight, then, once there is a window, on a weight
      whose row count is not the input's column count; otherwise it returns
      `floor((n + 2 * padding - k) / stride) + 1` rows (none when the
      kernel is longer than the padded input) of `cout` entries. */
  lemma Conv1dShape(input: seq<seq<real>>, weight: seq<seq<seq<real>>>, cin: nat, wcin: nat, cout: nat,
                    stride: Option<int>, padding: Option<int>, padValue: Option<real>)
    requires Rect(input, cin) && Kernel(weight, wcin, cout)
    ensures var r := Conv1dSpec(input, weight, cin, wcin, cout, stride, padding, padValue);
      var p := if padding.Some? then padding.value else 0;
      var s := if stride.Some? then stride.value else 1;
      var sized := p >= 0 && s > 0 && |input| > 0 && |weight| > 0 && wcin > 0;
      var rows := if |input| + 2 * p < |weight| || s <= 0 then 0 else (|input| + 2 * p - |weight|) / s + 1;
      && (p < 0 ==> r == Failure(NegativePadding))
      && (p >= 0 && s <= 0 ==> r == Failure(NonPositiveStride))
      && (sized && rows > 0 && cin != wcin ==> r == Failure(MultiplyMismatch(cin, wcin)))
      && (r.Success? <==> sized && (rows == 0 || cin == wcin))
      && (r.Success? ==> |r.value| == rows && Rect(r.value, cout))
  {
    var p := if padding.Some? then padding.value else 0;
    var s := if stride.Some? then stride.value else 1;
    if p >= 0 && s > 0 {
      Conv1dAccepted(input, weight, cin, wcin, cout, stride, padding, padValue, s, p);
      RowsByDivision(|input|, |weight|, s, p);
    }
  }

  /** Past the option checks, the size check decides, then the weight's
      row count once there is a window, and the rows are counted by
      `Rows`. */
  lemma Conv1dAccepted(input: seq<seq<real>>, weight: seq<seq<seq<real>>>, cin: nat, wcin: nat, cout: nat,
                       stride: Option<int>, padding: Option<int>, padValue: Option<real>, s: int, p: int)
    requires Rect(input, cin) && Kernel(weight, wcin, cout)
    requires p == (if padding.Some? then padding.value else 0) && p >= 0
    requires s == (if stride.Some? then stride.value else 1) && s > 0
    ensures var r := Conv1dSpec(input, weight, cin, wcin, cout, stride, padding, padValue);
      var sized := |input| > 0 && |weight| > 0 && wcin > 0;
      && (sized && Rows(|input|, |weight|, s, p) > 0 && cin != wcin ==> r == Failure(MultiplyMismatch(cin, wcin)))
      && (r.Success? <==> sized && (Rows(|input|, |weight|, s, p) == 0 || cin == wcin))
      && (r.Success? ==> |r.value| == Rows(|input|, |weight|, s, p) && Rect(r.value, cout))
  {
    SizeChecked(input, weight, cin, wcin, cout, s, p);
  }

  /** `Rows` as a quotient. */
  lemma RowsByDivision(n: nat, k: nat, s: int, p: int)
    requires s > 0 && p >= 0
    ensures Rows(n, k, s, p) == if n + 2 * p < k then 0 else (n + 2 * p - k) / s + 1
  {
    OutExtentDivision(n, k, s, p);
    if n + 2 * p < k {
      NegativeQuotient(n + 2 * p - k, s);
    }
  }

  lemma NegativeQuotient(x: int, s: int)
    requires x < 0 && s > 0
    ensures x / s + 1 <= 0
  {
  }

  /** The padded input: rows `padding .. padding + n` are the input rows,
      the others are rows of `padValue`. */
  lemma PaddedRows(input: seq<seq<real>>, cin: nat, padding: nat, padValue: real, t: nat)
    requires Rect(input, cin) && t < |input| + 2 * padding
    ensures var q := Padded(input, cin, padding, padValue);
      && (padding <= t < padding + |input| ==> q[t] == input[t - padding])
      && (t < padding || t >= padding + |input| ==> q[t] == seq(cin, _ => padValue))
  {
  }

  /** A kernel of one matrix with stride 1 and no padding is a matrix
      product: output row `i` is input row `i` times that matrix. */
  lemma PointwiseIsProduct(input: seq<seq<real>>, w: seq<seq<real>>, cin: nat, cout: nat, i: nat)
    requires Rect(input, cin) && |input| > 0 && cin > 0 && |w| == cin && Rect(w, cout) && i < |input|
    ensures Kernel([w], cin, cout)
    ensures var r := Conv1dSpec(input, [w], cin, cin, cout, None, None, None);
      r.Success? && |r.value| == |input| && r.value[i] == VecMat(input[i], w, cout)
  {
    Conv1dShape(input, [w], cin, cin, cout, None, None, None);
    var r := Conv1dSpec(input, [w], cin, cin, cout, None, None, None);
    OutRowsAt(input, [w], cin, cout, 1, |input|, i);
    assert r.value[i] == OutRow(input, [w], cin, cout, i, 1);
    var terms := seq(1, idx requires 0 <= idx < 1 => VecMat(input[i * 1 + idx], [w][idx], cout));
    assert terms[0] == VecMat(input[i], w, cout);
  }

  /** A window read after another sums one more product. */
  lemma SumRowsSnoc(rows: seq<seq<real>>, row: seq<real>, cout: nat)
    requires |rows| > 0 && Rect(rows, cout) && |row| == cout
    ensures Rect(rows + [row], cout)
    ensures SumRows(rows + [row], cout) == Add(SumRows(rows, cout), row)
  {
    assert (rows + [row])[..|rows|] == rows;
  }

  /** The shapes the conv1d tests of `packages/tensor` check, for this
      conv1d: a `10 x 16` input and a `3 x 16 x 32` kernel give 8 rows by
      default, 10 with padding 1, 4 with stride 2 and 5 with both, each of
      32 entries. */
  lemma TestShapes(input: seq<seq<real>>, weight: seq<seq<seq<real>>>)
    requires |input| == 10 && Rect(input, 16) && |weight| == 3 && Kernel(weight, 16, 32)
    ensures var r := Conv1dSpec(input, weight, 16, 16, 32, None, None, None);
      r.Success? && |r.value| == 8 && Rect(r.value, 32)
    ensures var r := Conv1dSpec(input, weight, 16, 16, 32, None, Some(1), None);
      r.Success? && |r.value| == 10 && Rect(r.value, 32)
    ensures var r := Conv1dSpec(input, weight, 16, 16, 32, Some(2), None, None);
      r.Success? && |r.value| == 4 && Rect(r.value, 32)
    ensures var r := Conv1dSpec(input, weight, 16, 16, 32, Some(2), Some(1), None);
      r.Success? && |r.value| == 5 && Rect(r.value, 32)
  {
    Conv1dShape(input, weight, 16, 16, 32, None, None, None);
    Conv1dShape(input, weight, 16, 16, 32, None, Some(1), None);
    Conv1dShape(input, weight, 16, 16, 32, Some(2), None, None);
    Conv1dShape(input, weight, 16, 16, 32, Some(2), Some(1), None);
  }

  /** A `3 x 8 x 32` kernel on a `10 x 16` input passes the size check,
      which reads neither channel count, and the first product throws;
      on a kernel longer than the input there is no product to throw. */
  lemma MismatchExamples(input: seq<seq<real>>, weight: seq<seq<seq<real>>>, long: seq<seq<seq<real>>>)
    requires |input| == 10 && Rect(input, 16) && |weight| == 3 && Kernel(weight, 8, 32)
    requires |long| == 12 && Kernel(long, 8, 32)
    ensures Conv1dSpec(input, weight, 16, 8, 32, None, None, None) == Failure(MultiplyMismatch(16, 8))
    ensures Conv1dSpec(input, long, 16, 8, 32, None, None, None) == Success([])
  {
    Conv1dShape(input, weight, 16, 8, 32, None, None, None);
    Conv1dShape(input, long, 16, 8, 32, None, None, None);
  }

  /** An empty input is a one-axis mathjs matrix: the size check throws. */
  lemma EmptyInputThrows(weight: seq<seq<seq<real>>>, cin: nat, wcin: nat, cout: nat)
    requires Kernel(weight, wcin, cout)
    ensures Conv1dSpec([], weight, cin, wcin, cout, None, None, None) == Failure(Conv1dSizeRank(1))
  {
  }
}
