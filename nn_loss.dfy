/** The negative log-likelihood loss of `packages/nn/src/loss/nllloss.ts`:
    the operator `NLLLossOp` (its construction, `compute` and `gradient`)
    and the `forward` of the `NLLLoss` module.  `pred` holds one row of
    log-probabilities per sample, `target` one class label per sample;
    both are row-major matrices as the tensor values of `TensorOps`. */
module NnLoss {
  import opened Wrappers
  import Ops = TensorOps
  import Linalg
  import IndexMath

  const ValueIsNull := "TensorValueIsNullError"
  const RankMismatch := "NLLLoss: pred and target should be 2D and 1D tensors"
  const BatchMismatch := "NLLLoss: pred and target should have the same batch size"
  const EmptyReduce := "TypeError: Reduce of empty array with no initial value"

  /* ---------------------------------------------------------------------- */
  /* Construction                                                             */

  /** How the per-sample losses are combined. */
  datatype Reduction = Mean | Sum

  /** `new NLLLossOp(reduction)`: the constructor asserts that the name is
      `mean` or `sum`, so the `unknown reduction` branches of `compute` and
      `gradient` are never reached. */
  function ReductionNamed(name: string): (r: Result<Reduction>)
    ensures r == Success(Mean) <==> name == "mean"
    ensures r == Success(Sum) <==> name == "sum"
    ensures r.Failure? ==> r.error == "NLLLoss: reduction should be mean or sum, not " + name
  {
    if name == "mean" then Success(Mean)
    else if name == "sum" then Success(Sum)
    else Failure("NLLLoss: reduction should be mean or sum, not " + name)
  }

  /** The reduction both constructors default to. */
  const DefaultReduction := Mean

  /* ---------------------------------------------------------------------- */
  /* The loss                                                                 */

  /** Every label is a whole number naming one of `n` classes. */
  predicate LabelsIn(labels: seq<real>, n: nat)
  {
    forall i :: 0 <= i < |labels| ==> labels[i] == labels[i].Floor as real && 0 <= labels[i].Floor < n
  }

  /** Classes below `n`. */
  predicate Below(ls: seq<nat>, n: nat)
  {
    forall i :: 0 <= i < |ls| ==> ls[i] < n
  }

  /** The labels as class numbers. */
  function Classes(labels: seq<real>, n: nat): (ls: seq<nat>)
    requires LabelsIn(labels, n)
    ensures |ls| == |labels| && Below(ls, n)
    ensures forall i :: 0 <= i < |ls| ==> ls[i] as real == labels[i]
  {
    seq(|labels|, i requires 0 <= i < |labels| => labels[i].Floor as nat)
  }

  /** `res`: for each sample `i`, the entry of row `i` of the `[b, n]`
      prediction in the column its label names. */
  function Picked(cells: seq<real>, n: nat, ls: seq<nat>): (r: seq<real>)
    requires Below(ls, n) && |cells| == IndexMath.Span(|ls|, n)
    ensures |r| == |ls|
    decreases |ls|
  {
    if |ls| == 0 then []
    else
      var k := |ls| - 1;
      Picked(cells[..IndexMath.Span(k, n)], n, ls[..k]) + [cells[IndexMath.Span(k, n) + ls[k]]]
  }

  /** Pick `i` is entry `[i, label_i]`. */
  lemma {:induction false} PickedAt(cells: seq<real>, n: nat, ls: seq<nat>, i: nat)
    requires Below(ls, n) && |cells| == IndexMath.Span(|ls|, n) && i < |ls|
    ensures IndexMath.Span(i, n) + ls[i] < |cells| && Picked(cells, n, ls)[i] == cells[IndexMath.Span(i, n) + ls[i]]
    decreases |ls|
  {
    SpanBelow(i, |ls|, n);
    var k := |ls| - 1;
    if i < k {
      PickedAt(cells[..IndexMath.Span(k, n)], n, ls[..k], i);
    }
  }

  /** The reduced loss of the picked entries: minus their sum, divided by
      their count for the mean. */
  function Reduce(red: Reduction, res: seq<real>): real
    requires |res| > 0
  {
    Scaled(red, Ops.Sum(res), |res|)
  }

  /** Minus a total, divided by the batch size for the mean. */
  function Scaled(red: Reduction, total: real, b: nat): real
    requires b > 0
  {
    if red == Mean then -total / (b as real) else -total
  }

  /** Labels that address the prediction once the shape checks pass. */
  predicate Addressable(pred: Ops.Data, target: Ops.Data)
  {
    (pred.Dense? && target.Dense? && |pred.shape| == 2 && |target.shape| == 1 && pred.shape[0] == target.shape[0])
      ==> LabelsIn(target.cells, pred.shape[1])
  }

  /** The pairs `compute` accepts: a `[b, n]` prediction and `b > 0`
      labels. */
  predicate Accepted(pred: Ops.Data, target: Ops.Data)
  {
    && pred.Dense? && target.Dense? && |pred.shape| == 2 && |target.shape| == 1
    && pred.shape[0] == target.shape[0] && 0 < target.shape[0]
  }

  /** `compute(pred, target)` on the realised values: a missing value, a
      number (which has no `shape`), a rank other than 2 and 1, unequal
      batch sizes and an empty batch (`reduce` without a seed) fail in
      that order; otherwise the one-cell loss. */
  function Compute(red: Reduction, pred: Option<Ops.Data>, target: Option<Ops.Data>): (r: Result<Ops.Data>)
    requires pred.Some? ==> Ops.WellFormed(pred.value)
    requires target.Some? ==> Ops.WellFormed(target.value)
    requires pred.Some? && target.Some? ==> Addressable(pred.value, target.value)
    ensures pred.None? || target.None? ==> r == Failure(ValueIsNull)
    ensures r.Success? <==> pred.Some? && target.Some? && Accepted(pred.value, target.value)
    ensures r.Success? ==> r.value.Dense? && r.value.shape == [1] && |r.value.cells| == 1
  {
    if pred.None? || target.None? then Failure(ValueIsNull)
    else
      var p, t := pred.value, target.value;
      if p.Scalar? || t.Scalar? then Failure("TypeError")
      else if |p.shape| != 2 || |t.shape| != 1 then Failure(RankMismatch)
      else if p.shape[0] != t.shape[0] then Failure(BatchMismatch)
      else if t.shape[0] == 0 then Failure(EmptyReduce)
      else
        Grid(p.shape);
        Single(t.shape);
        Success(Ops.Dense([1], [Reduce(red, Picked(p.cells, p.shape[1], Classes(t.cells, p.shape[1])))]))
  }

  lemma {:induction false} SpanBelow(i: nat, m: nat, n: nat)
    requires i < m
    ensures IndexMath.Span(i, n) + n <= IndexMath.Span(m, n)
    decreases m
  {
    if i + 1 < m {
      SpanBelow(i, m - 1, n);
    }
  }

  /** The size of a rank-2 shape. */
  lemma Grid(s: seq<nat>)
    requires |s| == 2
    ensures IndexMath.Product(s) == s[0] * s[1] == IndexMath.Span(s[0], s[1])
  {
    Ops.Product2(s);
    IndexMath.SpanIsProduct(s[0], s[1]);
  }

  lemma Single(s: seq<nat>)
    requires |s| == 1
    ensures IndexMath.Product(s) == s[0]
  {
    assert s[1..] == [];
  }

  /** The mean reduction is the sum reduction divided by the batch size. */
  lemma MeanIsSumOverBatch(p: Ops.Data, t: Ops.Data)
    requires Ops.WellFormed(p) && Ops.WellFormed(t) && Addressable(p, t) && Accepted(p, t)
    ensures Compute(Mean, Some(p), Some(t)).value.cells[0]
      == Compute(Sum, Some(p), Some(t)).value.cells[0] / (t.shape[0] as real)
  {
    Grid(p.shape);
    Single(t.shape);
  }

  /** Two samples: the losses pick `-2` from the first row and `-3` from
      the second. */
  lemma ComputeExample(p: Ops.Data, t: Ops.Data)
    requires p == Ops.Dense([2, 2], [-1.0, -2.0, -3.0, -4.0]) && t == Ops.Dense([2], [1.0, 0.0])
    ensures Compute(Sum, Some(p), Some(t)) == Success(Ops.Dense([1], [5.0]))
    ensures Compute(Mean, Some(p), Some(t)) == Success(Ops.Dense([1], [2.5]))
  {
    Grid(p.shape);
    Single(t.shape);
    var ls := Classes(t.cells, 2);
    assert ls == [1, 0];
    var res := Picked(p.cells, 2, ls);
    PickedAt(p.cells, 2, ls, 0);
    PickedAt(p.cells, 2, ls, 1);
    assert IndexMath.Span(1, 2) == 2;
    assert res == [-2.0, -3.0];
    SumLast(res);
    SumLast(res[..1]);
    assert Ops.Sum(res) == -5.0;
  }

  /* ---------------------------------------------------------------------- */
  /* The gradient                                                             */

  /** The value each labelled cell receives: `outGrad * (-1 / batch)` for
      the mean, `outGrad * -1` for the sum.  With an empty batch no cell
      receives it, so the division by zero JavaScript would do is never
      evaluated; 0 stands for it here. */
  function Step(red: Reduction, g: real, b: nat): real
  {
    if red == Sum then g * -1.0 else if b == 0 then 0.0 else g * (-1.0 / (b as real))
  }

  /** A row of `n` zeros with `c` in column `l`. */
  function OneHot(n: nat, l: nat, c: real): (r: seq<real>)
    requires l < n
    ensures |r| == n && forall j :: 0 <= j < n ==> r[j] == if j == l then c else 0.0
  {
    seq(n, j => if j == l then c else 0.0)
  }

  /** The gradient's rows: one per label, holding `c` in the labelled
      column. */
  function Rows(n: nat, ls: seq<nat>, c: real): (r: seq<real>)
    requires Below(ls, n)
    ensures |r| == IndexMath.Span(|ls|, n)
  {
    if |ls| == 0 then []
    else
      var k := |ls| - 1;
      Rows(n, ls[..k], c) + OneHot(n, ls[k], c)
  }

  /** The operands `gradient` can scatter into: a one-cell output
      gradient, a `[b, n]` prediction and `b` labels naming its columns. */
  predicate Scatterable(g: Ops.Data, pred: Ops.Data, target: Ops.Data)
  {
    && g.Dense? && |g.cells| == 1
    && (pred.Dense? ==> |pred.shape| == 2 && target.Dense? && |target.cells| == pred.shape[0]
                        && LabelsIn(target.cells, pred.shape[1]))
  }

  /** What `gradient` returns: zeros of the prediction's size, except that
      cell `[i, label_i]` holds `Step` of the output gradient. */
  function GradientSpec(red: Reduction, outGrad: Option<Ops.Data>, pred: Option<Ops.Data>, target: Option<Ops.Data>): (r: Result<Ops.Data>)
    requires outGrad.Some? && pred.Some? && target.Some? ==> Scatterable(outGrad.value, pred.value, target.value)
  {
    if outGrad.None? || pred.None? || target.None? then Failure(ValueIsNull)
    else if pred.value.Scalar? then Failure("TypeError")
    else
      var g, p, t := outGrad.value, pred.value, target.value;
      Success(Ops.Dense(p.shape, Rows(p.shape[1], Classes(t.cells, p.shape[1]), Step(red, g.cells[0], p.shape[0]))))
  }

  /** `gradient(outGrad, pred, target)`: the zero array of the
      prediction's size, written at `[index, label]` once per label. */
  method Gradient(red: Reduction, outGrad: Option<Ops.Data>, pred: Option<Ops.Data>, target: Option<Ops.Data>) returns (r: Result<Ops.Data>)
    requires outGrad.Some? && pred.Some? && target.Some? ==> Scatterable(outGrad.value, pred.value, target.value)
    ensures r == GradientSpec(red, outGrad, pred, target)
  {
    if outGrad.None? || pred.None? || target.None? {
      return Failure(ValueIsNull);
    }
    var g, p, t := outGrad.value, pred.value, target.value;
    if p.Scalar? {
      return Failure("TypeError");
    }
    var n := p.shape[1];
    var c := Step(red, g.cells[0], p.shape[0]);
    var cells := WriteLabels(t.cells, n, c);
    r := Success(Ops.Dense(p.shape, cells));
  }

  /** The loop of `gradient`: a zero buffer of `|labels|` rows of `n`
      cells, and `c` written at `[index, label]` for each label in turn. */
  method WriteLabels(labels: seq<real>, n: nat, c: real) returns (cells: seq<real>)
    requires LabelsIn(labels, n)
    ensures cells == Rows(n, Classes(labels, n), c)
  {
    ghost var ls := Classes(labels, n);
    var b := |labels|;
    IndexMath.SpanIsProduct(b, n);
    var buffer := new real[b * n](_ => 0.0);
    for index := 0 to b
      invariant buffer[..] == Rows(n, ls[..index], c) + Zeros(b - index, n)
    {
      var at := index * n + labels[index].Floor;
      ghost var next := Scatter(buffer[..], n, ls, c, index);
      assert at == next;
      buffer[at] := c;
    }
    Finished(buffer[..], n, ls, c);
    cells := buffer[..];
  }

  /** After the last label no zero rows are left. */
  lemma Finished(cells: seq<real>, n: nat, ls: seq<nat>, c: real)
    requires Below(ls, n) && cells == Rows(n, ls[..|ls|], c) + Zeros(0, n)
    ensures cells == Rows(n, ls, c)
  {
    assert ls[..|ls|] == ls;
    assert Zeros(0, n) == [];
  }

  /** `rows` zero rows of length `n`. */
  function Zeros(rows: nat, n: nat): (r: seq<real>)
    ensures |r| == IndexMath.Span(rows, n)
  {
    Ops.Fill(IndexMath.Span(rows, n), 0.0)
  }

  /** One pass of the loop of `Gradient`: writing `c` at `[index, label]`
      into the rows done so far followed by zeros adds the next row. */
  lemma Scatter(cells: seq<real>, n: nat, ls: seq<nat>, c: real, index: nat) returns (at: nat)
    requires Below(ls, n) && index < |ls|
    requires cells == Rows(n, ls[..index], c) + Zeros(|ls| - index, n)
    ensures at == index * n + ls[index] && at < |cells|
    ensures cells[at := c] == Rows(n, ls[..index + 1], c) + Zeros(|ls| - index - 1, n)
  {
    var rest := Zeros(|ls| - index - 1, n);
    assert Zeros(|ls| - index, n) == Ops.Fill(n + |rest|, 0.0);
    var l := ls[index];
    IndexMath.SpanIsProduct(index, n);
    at := index * n + l;
    RowWritten(Rows(n, ls[..index], c), n, l, c, |rest|);
    assert ls[..index + 1][..index] == ls[..index];
  }

  /** Writing `c` at column `l` of the first zero row after `pre` turns it
      into the one-hot row. */
  lemma RowWritten(pre: seq<real>, n: nat, l: nat, c: real, rest: nat)
    requires l < n
    ensures |pre| + l < |pre + Ops.Fill(n + rest, 0.0)|
    ensures (pre + Ops.Fill(n + rest, 0.0))[|pre| + l := c] == pre + OneHot(n, l, c) + Ops.Fill(rest, 0.0)
  {
  }

  /** `Rows` paired with a vector adds up `c` times each labelled entry. */
  lemma {:induction false} RowsDot(n: nat, ls: seq<nat>, c: real, y: seq<real>)
    requires Below(ls, n) && |y| == IndexMath.Span(|ls|, n)
    ensures Linalg.Dot(Rows(n, ls, c), y) == Ops.Sum(Multiples(c, Picked(y, n, ls)))
    decreases |ls|
  {
    if |ls| > 0 {
      var k := |ls| - 1;
      var front, back := LastRow(y, n, k);
      RowsDot(n, ls[..k], c, front);
      RowsDotStep(n, ls, c, y, front, back);
    }
  }

  /** The rows of a `[k + 1, n]` buffer before the last, and the last. */
  lemma LastRow(y: seq<real>, n: nat, k: nat) returns (front: seq<real>, back: seq<real>)
    requires |y| == IndexMath.Span(k + 1, n)
    ensures |front| == IndexMath.Span(k, n) && |back| == n && front + back == y
  {
    front, back := y[..IndexMath.Span(k, n)], y[IndexMath.Span(k, n)..];
    assert front + back == y;
  }

  lemma RowsDotStep(n: nat, ls: seq<nat>, c: real, y: seq<real>, front: seq<real>, back: seq<real>)
    requires Below(ls, n) && |ls| > 0 && |y| == IndexMath.Span(|ls|, n)
    requires |front| == IndexMath.Span(|ls| - 1, n) && |back| == n && front + back == y
    requires Linalg.Dot(Rows(n, ls[..|ls| - 1], c), front) == Ops.Sum(Multiples(c, Picked(front, n, ls[..|ls| - 1])))
    ensures Linalg.Dot(Rows(n, ls, c), y) == Ops.Sum(Multiples(c, Picked(y, n, ls)))
  {
    var k := |ls| - 1;
    RowsDotSplit(n, ls, c, y, front, back);
    OneHotDot(n, ls[k], c, back);
    var before := PickedSplit(y, n, ls, front, back);
    var x := back[ls[k]];
    MultiplesSnoc(c, before, x);
    SumSnoc(Multiples(c, before), Ops.Times(c, x));
    Add(Linalg.Dot(Rows(n, ls, c), y), Linalg.Dot(Rows(n, ls[..k], c), front), Linalg.Dot(OneHot(n, ls[k], c), back),
        Ops.Sum(Multiples(c, Picked(y, n, ls))), Ops.Sum(Multiples(c, before)), Ops.Times(c, x));
  }

  /** Sums of equal parts are equal. */
  lemma Add(total: real, x: real, y: real, total': real, x': real, y': real)
    requires total == x + y && total' == x' + y' && x == x' && y == y'
    ensures total == total'
  {
  }

  /** Pairing `Rows` with a buffer pairs the rows before the last and the
      last row separately. */
  lemma RowsDotSplit(n: nat, ls: seq<nat>, c: real, y: seq<real>, front: seq<real>, back: seq<real>)
    requires Below(ls, n) && |ls| > 0 && |y| == IndexMath.Span(|ls|, n)
    requires |front| == IndexMath.Span(|ls| - 1, n) && |back| == n && front + back == y
    ensures Linalg.Dot(Rows(n, ls, c), y)
      == Linalg.Dot(Rows(n, ls[..|ls| - 1], c), front) + Linalg.Dot(OneHot(n, ls[|ls| - 1], c), back)
  {
    var k := |ls| - 1;
    DotConcat(Rows(n, ls[..k], c), front, OneHot(n, ls[k], c), back);
  }

  /** The picks of a buffer are the picks of its rows before the last
      followed by the pick of the last row. */
  lemma PickedSplit(y: seq<real>, n: nat, ls: seq<nat>, front: seq<real>, back: seq<real>) returns (before: seq<real>)
    requires Below(ls, n) && |ls| > 0 && |y| == IndexMath.Span(|ls|, n)
    requires |front| == IndexMath.Span(|ls| - 1, n) && |back| == n && front + back == y
    ensures before == Picked(front, n, ls[..|ls| - 1])
    ensures Picked(y, n, ls) == before + [back[ls[|ls| - 1]]]
  {
    var k := |ls| - 1;
    assert y[..IndexMath.Span(k, n)] == front;
    before := Picked(front, n, ls[..k]);
  }

  /** Each entry times `c`. */
  function Multiples(c: real, p: seq<real>): (r: seq<real>)
    ensures |r| == |p|
  {
    if |p| == 0 then [] else Multiples(c, p[..|p| - 1]) + [Ops.Times(c, p[|p| - 1])]
  }

  lemma MultiplesSnoc(c: real, p: seq<real>, x: real)
    ensures Multiples(c, p + [x]) == Multiples(c, p) + [Ops.Times(c, x)]
  {
    var q := p + [x];
    assert q[..|q| - 1] == p && q[|q| - 1] == x;
  }

  /** Scaling every entry scales the sum. */
  lemma {:induction false} SumMultiples(c: real, p: seq<real>)
    ensures Ops.Sum(Multiples(c, p)) == Ops.Times(c, Ops.Sum(p))
    decreases |p|
  {
    if |p| > 0 {
      var k := |p| - 1;
      SumMultiples(c, p[..k]);
      SumLast(p);
      SumLast(Multiples(c, p));
      Distribute(c, Ops.Sum(p[..k]), p[k], Ops.Sum(p));
    }
  }

  lemma Distribute(c: real, x: real, y: real, t: real)
    requires t == x + y
    ensures Ops.Times(c, t) == Ops.Times(c, x) + Ops.Times(c, y)
  {
  }

  lemma SumLast(p: seq<real>)
    requires |p| > 0
    ensures Ops.Sum(p) == Ops.Sum(p[..|p| - 1]) + p[|p| - 1]
  {
  }

  lemma SumSnoc(p: seq<real>, x: real)
    ensures Ops.Sum(p + [x]) == Ops.Sum(p) + x
  {
    assert (p + [x])[..|p|] == p;
  }

  /** Pairing concatenations pairs the parts. */
  lemma {:induction false} DotConcat(x1: seq<real>, y1: seq<real>, x2: seq<real>, y2: seq<real>)
    requires |x1| == |y1| && |x2| == |y2|
    ensures Linalg.Dot(x1 + x2, y1 + y2) == Linalg.Dot(x1, y1) + Linalg.Dot(x2, y2)
    decreases |x2|
  {
    if |x2| > 0 {
      var m := |x2| - 1;
      DotConcat(x1, y1, x2[..m], y2[..m]);
      assert (x1 + x2)[..|x1| + m] == x1 + x2[..m];
      assert (y1 + y2)[..|y1| + m] == y1 + y2[..m];
    } else {
      assert x1 + x2 == x1 && y1 + y2 == y1;
    }
  }

  /** A one-hot row paired with a vector is `c` times one entry. */
  lemma {:induction false} OneHotDot(n: nat, l: nat, c: real, y: seq<real>)
    requires l < n && |y| == n
    ensures Linalg.Dot(OneHot(n, l, c), y) == Ops.Times(c, y[l])
  {
    OneHotPrefixDot(n, l, c, y, n);
    assert OneHot(n, l, c)[..n] == OneHot(n, l, c) && y[..n] == y;
  }

  lemma {:induction false} OneHotPrefixDot(n: nat, l: nat, c: real, y: seq<real>, m: nat)
    requires l < n && |y| == n && m <= n
    ensures Linalg.Dot(OneHot(n, l, c)[..m], y[..m]) == if l < m then Ops.Times(c, y[l]) else 0.0
    decreases m
  {
    if m > 0 {
      OneHotPrefixDot(n, l, c, y, m - 1);
      Linalg.DotSnoc(OneHot(n, l, c), y, m - 1);
    }
  }

  /** The loss is linear in the prediction, and the gradient is its exact
      derivative: moving the prediction by `d` changes the loss by an
      amount whose product with the output gradient `g` is the pairing of
      `d` with what `gradient` returns. */
  lemma GradientExact(red: Reduction, p: Ops.Data, t: Ops.Data, d: Ops.Data, g: Ops.Data)
    requires Ops.WellFormed(p) && Ops.WellFormed(t) && Ops.WellFormed(d) && Ops.WellFormed(g)
    requires Accepted(p, t) && Addressable(p, t) && Ops.Same(p, d) && Scatterable(g, p, t)
    ensures var before := Compute(red, Some(p), Some(t));
      var after := Compute(red, Some(Ops.Shifted(p, d)), Some(t));
      var grad := GradientSpec(red, Some(g), Some(p), Some(t));
      && before.Success? && after.Success? && grad.Success? && Ops.Same(grad.value, d)
      && Ops.Times(g.cells[0], after.value.cells[0] - before.value.cells[0]) == Linalg.Dot(grad.value.cells, d.cells)
  {
    Grid(p.shape);
    Single(t.shape);
    CellsExact(red, p.cells, d.cells, p.shape[1], Classes(t.cells, p.shape[1]), g.cells[0]);
  }

  /** `GradientExact` on the buffers. */
  lemma CellsExact(red: Reduction, a: seq<real>, d: seq<real>, n: nat, ls: seq<nat>, g: real)
    requires Below(ls, n) && |a| == IndexMath.Span(|ls|, n) && |d| == |a| && |ls| > 0
    ensures Ops.Times(g, Reduce(red, Picked(Ops.Zip(a, d, Ops.Plus), n, ls)) - Reduce(red, Picked(a, n, ls)))
      == Linalg.Dot(Rows(n, ls, Step(red, g, |ls|)), d)
  {
    var moved, before, delta := Picked(Ops.Zip(a, d, Ops.Plus), n, ls), Picked(a, n, ls), Picked(d, n, ls);
    var c := Step(red, g, |ls|);
    PickedSumShifted(a, d, n, ls);
    LossMoved(red, g, moved, before, delta);
    RowsDot(n, ls, c, d);
    SumMultiples(c, delta);
  }

  /** Moving the picks by `delta` moves the reduced loss, times `g`, by
      the step times the sum of `delta`. */
  lemma LossMoved(red: Reduction, g: real, moved: seq<real>, before: seq<real>, delta: seq<real>)
    requires |moved| == |before| == |delta| > 0 && Ops.Sum(moved) == Ops.Sum(before) + Ops.Sum(delta)
    ensures Ops.Times(g, Reduce(red, moved) - Reduce(red, before)) == Ops.Times(Step(red, g, |before|), Ops.Sum(delta))
  {
    var x, dx, b := Ops.Sum(before), Ops.Sum(delta), |before|;
    ScaledMoved(red, g, x, dx, b);
    ReduceOf(red, moved, x + dx);
    ReduceOf(red, before, x);
    TimesOfChange(g, Reduce(red, moved), Reduce(red, before), Scaled(red, x + dx, b), Scaled(red, x, b));
  }

  lemma TimesOfChange(g: real, after: real, before: real, after': real, before': real)
    requires after == after' && before == before'
    ensures Ops.Times(g, after - before) == Ops.Times(g, after' - before')
  {
  }

  lemma ReduceOf(red: Reduction, res: seq<real>, total: real)
    requires |res| > 0 && Ops.Sum(res) == total
    ensures Reduce(red, res) == Scaled(red, total, |res|)
  {
  }

  /** Picking from a moved buffer moves the sum of the picks. */
  lemma {:induction false} PickedSumShifted(a: seq<real>, d: seq<real>, n: nat, ls: seq<nat>)
    requires Below(ls, n) && |a| == IndexMath.Span(|ls|, n) && |d| == |a|
    ensures Ops.Sum(Picked(Ops.Zip(a, d, Ops.Plus), n, ls)) == Ops.Sum(Picked(a, n, ls)) + Ops.Sum(Picked(d, n, ls))
    decreases |ls|
  {
    if |ls| > 0 {
      var k := |ls| - 1;
      var s := IndexMath.Span(k, n);
      var moved := Ops.Zip(a, d, Ops.Plus);
      assert moved[..s] == Ops.Zip(a[..s], d[..s], Ops.Plus);
      PickedSumShifted(a[..s], d[..s], n, ls[..k]);
      SumSnoc(Picked(moved[..s], n, ls[..k]), moved[s + ls[k]]);
      SumSnoc(Picked(a[..s], n, ls[..k]), a[s + ls[k]]);
      SumSnoc(Picked(d[..s], n, ls[..k]), d[s + ls[k]]);
    }
  }

  /** The reduced loss moves by the step times the moved total. */
  lemma ScaledMoved(red: Reduction, g: real, x: real, dx: real, b: nat)
    requires b > 0
    ensures Ops.Times(g, Scaled(red, x + dx, b) - Scaled(red, x, b)) == Ops.Times(Step(red, g, b), dx)
  {
    if red == Mean {
      MeanMoved(g, x, dx, b as real);
    } else {
      assert -(x + dx) - -x == -1.0 * dx;
    }
  }

  lemma MeanMoved(g: real, x: real, dx: real, s: real)
    requires s > 0.0
    ensures g * (-(x + dx) / s - -x / s) == g * (-1.0 / s) * dx
  {
    var q := 1.0 / s;
    assert -(x + dx) / s == -(x + dx) * q;
    assert -x / s == -x * q;
  }

  /* ---------------------------------------------------------------------- */
  /* The module                                                               */

  /** The size `forward` reads: a matrix's, and `[1]` for a number. */
  function Lifted(pred: Ops.Data): (r: Ops.Data)
    ensures pred.Dense? && |pred.shape| == 1 ==> r == Ops.Dense([1, pred.shape[0]], pred.cells)
    ensures !(pred.Dense? && |pred.shape| == 1) ==> r == pred
  {
    if pred.Dense? && |pred.shape| == 1 then Ops.Dense([1, pred.shape[0]], pred.cells) else pred
  }

  /** `NLLLoss.forward(pred, target)` as written: it reshapes a rank-1
      prediction to `[1, n]` into a local, then passes the original
      prediction on, so the loss node computes `Compute` of the original. */
  function ForwardAsWritten(red: Reduction, pred: Option<Ops.Data>, target: Option<Ops.Data>): (r: Result<Ops.Data>)
    requires pred.Some? ==> Ops.WellFormed(pred.value)
    requires target.Some? ==> Ops.WellFormed(target.value)
    requires pred.Some? && target.Some? ==> Addressable(pred.value, target.value)
  {
    Compute(red, pred, target)
  }

  /** `NLLLoss.forward` as evidently intended: the reshaped prediction is
      the one passed on. */
  function Forward(red: Reduction, pred: Option<Ops.Data>, target: Option<Ops.Data>): (r: Result<Ops.Data>)
    requires pred.Some? ==> Ops.WellFormed(pred.value)
    requires target.Some? ==> Ops.WellFormed(target.value)
    requires pred.Some? && target.Some? ==> Addressable(Lifted(pred.value), target.value)
  {
    if pred.Some? && pred.value.Dense? && |pred.value.shape| == 1 then
      Single(pred.value.shape);
      Grid([1, pred.value.shape[0]]);
      Compute(red, Some(Lifted(pred.value)), target)
    else Compute(red, pred, target)
  }

  /** A single sample given as a vector: the code as written rejects it
      with the rank error, because the prediction it passes on is still
      1-D. */
  lemma VectorPrediction(red: Reduction, cells: seq<real>, l: nat)
    requires l < |cells|
    ensures var p, t := Ops.Dense([|cells|], cells), Ops.Dense([1], [l as real]);
      ForwardAsWritten(red, Some(p), Some(t)) == Failure(RankMismatch)
  {
    Single([|cells|]);
    Single([1]);
  }

  /** The same sample through the corrected `forward`: the reshaped
      `[1, n]` prediction is passed on, and the loss is minus the entry the
      label names, for either reduction. */
  lemma ForwardOneSample(red: Reduction, cells: seq<real>, l: nat)
    requires l < |cells|
    ensures var p, t := Ops.Dense([|cells|], cells), Ops.Dense([1], [l as real]);
      Forward(red, Some(p), Some(t)) == Success(Ops.Dense([1], [-cells[l]]))
  {
    var p, t := Ops.Dense([|cells|], cells), Ops.Dense([1], [l as real]);
    Single(p.shape);
    Single(t.shape);
    Grid([1, |cells|]);
    assert Classes(t.cells, |cells|) == [l];
    var res := Picked(cells, |cells|, [l]);
    assert res == [cells[l]];
    SumLast(res);
    assert Ops.Sum(res) == cells[l];
  }
}
