/** The local rules of the tensor operators (`packages/tensor/src/ops`):
    each op's `compute`, which maps the values of its inputs to its output
    value, and its `gradient`, which maps the output gradient and the input
    values to one gradient per input.

    A tensor's value is a number or a dense matrix; the matrix is kept as
    its size and its cells in row-major order.  The arithmetic the ops hand
    to the math library is stated here directly: cell by cell for equally
    shaped matrices, a number meeting every cell, and the row-major matrix
    product of `Linalg` for rank-2 matrices. */
module TensorOps {
  import opened Wrappers
  import opened IndexMath
  import Linalg

  /** A tensor value: a number, or a matrix of the given size. */
  datatype Data = Scalar(x: real) | Dense(shape: seq<nat>, cells: seq<real>)

  /** A matrix holds one cell per index of its size. */
  predicate WellFormed(d: Data)
  {
    d.Dense? ==> |d.cells| == Product(d.shape)
  }

  predicate AllWellFormed(ds: seq<Data>)
  {
    forall k :: 0 <= k < |ds| ==> WellFormed(ds[k])
  }

  /** `Tensor.shape`: a matrix's size, and `[1]` for a number. */
  function ShapeOf(d: Data): (r: seq<nat>)
    ensures d.Scalar? ==> r == [1]
    ensures d.Dense? ==> r == d.shape
  {
    if d.Scalar? then [1] else d.shape
  }

  /** Two matrices of the same size. */
  predicate Same(a: Data, b: Data)
  {
    a.Dense? && b.Dense? && a.shape == b.shape && |a.cells| == |b.cells|
  }

  function Plus(x: real, y: real): real { x + y }
  function Minus(x: real, y: real): real { x - y }
  function Times(x: real, y: real): real { x * y }

  /** The indicator the ReLU gradient multiplies by: 1 where the input is
      positive, 0 elsewhere (also at 0). */
  function Positive(v: real): real { if v > 0.0 then 1.0 else 0.0 }

  function Rectify(v: real): real { if v > 0.0 then v else 0.0 }

  function Zip(a: seq<real>, b: seq<real>, f: (real, real) -> real): (r: seq<real>)
    requires |a| == |b|
    ensures |r| == |a| && forall i :: 0 <= i < |a| ==> r[i] == f(a[i], b[i])
  {
    seq(|a|, i requires 0 <= i < |a| => f(a[i], b[i]))
  }

  /** `n` copies of a number, the number broadcast over `n` cells. */
  function Fill(n: nat, x: real): (r: seq<real>)
    ensures |r| == n && forall i :: 0 <= i < n ==> r[i] == x
  {
    seq(n, _ => x)
  }

  function MapCells(a: seq<real>, f: real -> real): (r: seq<real>)
    ensures |r| == |a| && forall i :: 0 <= i < |a| ==> r[i] == f(a[i])
  {
    seq(|a|, i requires 0 <= i < |a| => f(a[i]))
  }

  /** Elementwise arithmetic as the math library does it for the ops
      `add`, `dot` and the scalar ops: two numbers combine, a number meets
      every cell of a matrix, equally sized matrices meet cell by cell, and
      any other pair of sizes is a dimension error. */
  function Elementwise(a: Data, b: Data, f: (real, real) -> real): (r: Result<Data>)
    requires WellFormed(a) && WellFormed(b)
    ensures r.Success? <==> a.Scalar? || b.Scalar? || a.shape == b.shape
    ensures r.Success? ==> WellFormed(r.value)
    ensures r.Success? && a.Dense? ==> r.value.Dense? && r.value.shape == a.shape
    ensures r.Success? && b.Dense? ==> r.value.Dense? && r.value.shape == b.shape
  {
    match (a, b)
    case (Scalar(x), Scalar(y)) => Success(Scalar(f(x, y)))
    case (Scalar(x), Dense(s, c)) => Success(Dense(s, Zip(Fill(|c|, x), c, f)))
    case (Dense(s, c), Scalar(y)) => Success(Dense(s, Zip(c, Fill(|c|, y), f)))
    case (Dense(s, c), Dense(t, e)) =>
      if s == t then Success(Dense(s, Zip(c, e, f))) else Failure("DimensionError")
  }

  lemma Product2(s: seq<int>)
    requires |s| == 2
    ensures Product(s) == s[0] * s[1]
  {
    assert s[1..][1..] == [];
    assert Product(s[1..]) == s[1] * Product(s[1..][1..]);
  }

  /** The row-major transpose of an `m x n` buffer: its first `j` rows are
      the first `j` columns of the buffer. */
  function TransposeRows(c: seq<real>, m: nat, n: nat, j: nat): (r: seq<real>)
    requires j <= n && m * n <= |c|
    ensures |r| == j * m
  {
    if j == 0 then []
    else
      Linalg.ProductStep(j - 1, m);
      TransposeRows(c, m, n, j - 1) + Linalg.MatColumn(c, m, n, j - 1)
  }

  /** Entry `(j, i)` of the transpose is entry `(i, j)` of the buffer. */
  lemma {:induction false} TransposeAt(c: seq<real>, m: nat, n: nat, j: nat, p: nat, i: nat)
    requires j <= n && m * n <= |c| && p < j && i < m
    ensures p * m + i < j * m && i * n + p < |c|
    ensures TransposeRows(c, m, n, j)[p * m + i] == c[i * n + p]
  {
    Linalg.ProductStep(j - 1, m);
    Linalg.ColumnAt(c, m, n, p, i);
    if p < j - 1 {
      TransposeAt(c, m, n, j - 1, p, i);
      Linalg.ProductBelow(p, j - 1, m, i);
    } else {
      assert TransposeRows(c, m, n, j) == TransposeRows(c, m, n, j - 1) + Linalg.MatColumn(c, m, n, j - 1);
    }
  }

  /** `transpose` of a tensor value: a number is a type error, a vector is
      unchanged, an `m x n` matrix becomes `n x m`, and any higher rank is a
      dimension error. */
  function Transpose(d: Data): (r: Result<Data>)
    requires WellFormed(d)
    ensures r.Success? ==> WellFormed(r.value)
  {
    match d
    case Scalar(_) => Failure("TensorValueTypeError")
    case Dense(s, c) =>
      if |s| <= 1 then Success(d)
      else if |s| == 2 then
        Product2(s);
        Product2([s[1], s[0]]);
        Success(Dense([s[1], s[0]], TransposeRows(c, s[0], s[1], s[1])))
      else Failure("DimensionError")
  }

  /** `multiply` of two tensor values: a number scales the other operand,
      an `m x k` matrix times a `k x n` matrix is their row-major product,
      and every other pair of sizes is a dimension error. */
  function MatProduct(a: Data, b: Data): (r: Result<Data>)
    requires WellFormed(a) && WellFormed(b)
    ensures r.Success? ==> WellFormed(r.value)
  {
    match (a, b)
    case (Scalar(_), _) => Elementwise(a, b, Times)
    case (_, Scalar(_)) => Elementwise(a, b, Times)
    case (Dense(s, c), Dense(t, e)) =>
      if |s| == 2 && |t| == 2 && s[1] == t[0] then
        Product2(s);
        Product2(t);
        Product2([s[0], t[1]]);
        Linalg.MatProdLength(c, e, s[0], s[1], t[1]);
        Success(Dense([s[0], t[1]], Linalg.MatProd(c, e, s[0], s[1], t[1])))
      else Failure("DimensionError")
  }

  /** `reshape` of a tensor value: a number has no `reshape` and fails, a
      matrix keeps its cells under any size with as many cells, and any
      other size is a dimension error. */
  function Reshape(d: Data, shape: seq<nat>): (r: Result<Data>)
    requires WellFormed(d)
    ensures r.Success? <==> d.Dense? && Product(shape) == |d.cells|
    ensures r.Success? ==> r.value == Dense(shape, d.cells) && WellFormed(r.value)
  {
    match d
    case Scalar(_) => Failure("TypeError")
    case Dense(_, c) => if Product(shape) == |c| then Success(Dense(shape, c)) else Failure("DimensionError")
  }

  /** The ops of the tensor package whose rules are stated here; the scalar
      and the target size are fixed when the op is built. */
  datatype Op =
    | Add
    | AddScalar(scalar: real)
    | Dot
    | MulScalar(scalar: real)
    | MatMul
    | ReLU
    | ReshapeTo(target: seq<nat>)
    | Flatten

  /** `op.compute(...inputs)` on the realised input values.  A missing
      argument is `undefined` in the source and fails with a type error. */
  function Compute(op: Op, args: seq<Data>): (r: Result<Data>)
    requires AllWellFormed(args)
    ensures r.Success? ==> WellFormed(r.value)
  {
    match op
    case Add => if |args| < 2 then Failure("TypeError") else Elementwise(args[0], args[1], Plus)
    case AddScalar(s) => if |args| < 1 then Failure("TypeError") else Elementwise(args[0], Scalar(s), Plus)
    case Dot => if |args| < 2 then Failure("TypeError") else Elementwise(args[0], args[1], Times)
    case MulScalar(s) => if |args| < 1 then Failure("TypeError") else Elementwise(args[0], Scalar(s), Times)
    case MatMul => if |args| < 2 then Failure("TypeError") else MatProduct(args[0], args[1])
    case ReLU =>
      if |args| < 1 then Failure("TypeError")
      else if args[0].Scalar? then Failure("TensorValueTypeError")
      else Success(Dense(args[0].shape, MapCells(args[0].cells, Rectify)))
    case ReshapeTo(target) => if |args| < 1 then Failure("TypeError") else Reshape(args[0], target)
    case Flatten =>
      if |args| < 1 || args[0].Scalar? then Failure("TypeError")
      else if |args[0].shape| == 0 then Failure("TypeError: Reduce of empty array with no initial value")
      else Reshape(args[0], [1, Product(args[0].shape)])
  }

  /** `op.gradient(grad, ...inputs)`: one gradient per input, in input order.
      The arity checks of `add`, `addScalar` and `flatten` report the count. */
  function Gradient(op: Op, g: Data, ins: seq<Data>): (r: Result<seq<Data>>)
    requires WellFormed(g) && AllWellFormed(ins)
    ensures r.Success? ==> AllWellFormed(r.value)
  {
    match op
    case Add =>
      if |ins| != 2 then Failure("add: expected 2 input, got " + Decimal(|ins|)) else Success([g, g])
    case AddScalar(_) =>
      if |ins| != 1 then Failure("addScalar: expected 1 input, got " + Decimal(|ins|)) else Success([g])
    case Dot =>
      if |ins| < 2 then Failure("TypeError")
      else
        var forLeft :- Elementwise(g, ins[1], Times);
        var forRight :- Elementwise(g, ins[0], Times);
        Success([forLeft, forRight])
    case MulScalar(s) =>
      var scaled :- Elementwise(g, Scalar(s), Times);
      Success([scaled])
    case MatMul =>
      if |ins| < 2 then Failure("TypeError")
      else
        var rhsT :- Transpose(ins[1]);
        var forLeft :- MatProduct(g, rhsT);
        var lhsT :- Transpose(ins[0]);
        var forRight :- MatProduct(lhsT, g);
        Success([forLeft, forRight])
    case ReLU =>
      if |ins| < 1 || ins[0].Scalar? then Failure("TypeError")
      else
        var masked :- Elementwise(g, Dense(ins[0].shape, MapCells(ins[0].cells, Positive)), Times);
        Success([masked])
    case ReshapeTo(_) =>
      if |ins| < 1 then Failure("TypeError")
      else
        var back :- Reshape(g, ShapeOf(ins[0]));
        Success([back])
    case Flatten =>
      if |ins| != 1 then Failure("flatten: expected 1 input, got " + Decimal(|ins|))
      else if ins[0].Scalar? then Failure("TypeError")
      else
        var back :- Reshape(g, ins[0].shape);
        Success([back])
  }

  /** The number of inputs each op is built with. */
  function Arity(op: Op): nat
  {
    if op == Add || op == Dot || op == MatMul then 2 else 1
  }

  /** Inputs that are all matrices. */
  predicate AllDense(ds: seq<Data>)
  {
    forall k :: 0 <= k < |ds| ==> ds[k].Dense?
  }

  /** Whenever an op computes an output from matrix inputs, its gradient
      rule, given an output gradient of the output's size, returns one
      gradient per input, each of that input's size: `n x k` and `k x m`
      for the two inputs of an `n x k` by `k x m` product. */
  lemma GradientMatchesInputs(op: Op, g: Data, ins: seq<Data>)
    requires |ins| == Arity(op) && AllWellFormed(ins) && AllDense(ins) && WellFormed(g)
    requires Compute(op, ins).Success? && g.Dense? && g.shape == Compute(op, ins).value.shape
    ensures Gradient(op, g, ins).Success?
    ensures |Gradient(op, g, ins).value| == |ins|
    ensures forall k :: 0 <= k < |ins| ==>
      Gradient(op, g, ins).value[k].Dense? && Gradient(op, g, ins).value[k].shape == ins[k].shape
  {
    if op == MatMul {
      MatMulGradientShapes(g, ins[0], ins[1]);
    }
  }

  /** The two gradients of a product of an `n x k` by a `k x m` matrix, given
      an `n x m` output gradient, are `n x k` and `k x m`. */
  lemma MatMulGradientShapes(g: Data, x: Data, w: Data)
    requires WellFormed(g) && WellFormed(x) && WellFormed(w) && g.Dense? && x.Dense? && w.Dense?
    requires |x.shape| == 2 && |w.shape| == 2 && x.shape[1] == w.shape[0]
    requires g.shape == [x.shape[0], w.shape[1]]
    ensures Gradient(MatMul, g, [x, w]).Success?
    ensures Gradient(MatMul, g, [x, w]).value == [
      Dense(x.shape, MatProductCells(g, TransposeOf(w))), Dense(w.shape, MatProductCells(TransposeOf(x), g))]
  {
    var wt := TransposeOf(w);
    var xt := TransposeOf(x);
    var forLeft := MatProductCells(g, wt);
    var forRight := MatProductCells(xt, g);
    assert x.shape == [x.shape[0], x.shape[1]];
    assert w.shape == [w.shape[0], w.shape[1]];
  }

  /** The transpose of a rank-2 matrix, as a value. */
  function TransposeOf(d: Data): (r: Data)
    requires WellFormed(d) && d.Dense? && |d.shape| == 2
    ensures Transpose(d) == Success(r)
    ensures r.Dense? && r.shape == [d.shape[1], d.shape[0]] && WellFormed(r)
  {
    Transpose(d).value
  }

  /** The cells of the product of two rank-2 matrices whose inner sizes agree. */
  function MatProductCells(a: Data, b: Data): (r: seq<real>)
    requires WellFormed(a) && WellFormed(b) && a.Dense? && b.Dense?
    requires |a.shape| == 2 && |b.shape| == 2 && a.shape[1] == b.shape[0]
    ensures MatProduct(a, b) == Success(Dense([a.shape[0], b.shape[1]], r))
    ensures Linalg.IsProduct(r, a.cells, b.cells, a.shape[0], a.shape[1], b.shape[1])
  {
    Product2(a.shape);
    Product2(b.shape);
    Linalg.MatProdIsProduct(a.cells, b.cells, a.shape[0], a.shape[1], b.shape[1]);
    MatProduct(a, b).value.cells
  }

  /** Column `t` of the transpose of a `k x m` buffer is row `t` of the
      buffer. */
  lemma TransposeColumn(c: seq<real>, k: nat, m: nat, t: nat)
    requires k * m <= |c| && t < k
    ensures t * m + m <= |c| && |TransposeRows(c, k, m, m)| == m * k
    ensures Linalg.MatColumn(TransposeRows(c, k, m, m), m, k, t) == Linalg.MatRow(c, m, t)
  {
    Linalg.RowFits(t, k, m);
    var ct := TransposeRows(c, k, m, m);
    assert |ct| == m * k;
    forall j | 0 <= j < m
      ensures Linalg.MatColumn(ct, m, k, t)[j] == c[t * m + j]
    {
      Linalg.ColumnAt(ct, m, k, t, j);
      TransposeAt(c, k, m, m, j, t);
    }
  }

  /** Row `t` of the transpose of an `n x k` buffer is column `t` of the
      buffer. */
  lemma TransposeRow(c: seq<real>, n: nat, k: nat, t: nat)
    requires n * k <= |c| && t < k
    ensures |TransposeRows(c, n, k, k)| == k * n && t * n + n <= k * n
    ensures Linalg.MatRow(TransposeRows(c, n, k, k), n, t) == Linalg.MatColumn(c, n, k, t)
  {
    Linalg.RowFits(t, k, n);
    var ct := TransposeRows(c, n, k, k);
    forall i | 0 <= i < n
      ensures Linalg.MatRow(ct, n, t)[i] == Linalg.MatColumn(c, n, k, t)[i]
    {
      Linalg.ColumnAt(c, n, k, t, i);
      TransposeAt(c, n, k, k, t, i);
    }
  }

  /** Entry `(i, t)` of the gradient for the left factor `X` (`n x k`) is
      the sum over `j` of `grad[i][j] * W[t][j]`: row `i` of the output
      gradient against row `t` of `W`, which is `grad x W^T`. */
  lemma MatMulLeftGradientAt(g: Data, x: Data, w: Data, i: nat, t: nat)
    requires WellFormed(g) && WellFormed(x) && WellFormed(w) && g.Dense? && x.Dense? && w.Dense?
    requires |x.shape| == 2 && |w.shape| == 2 && x.shape[1] == w.shape[0]
    requires g.shape == [x.shape[0], w.shape[1]] && i < x.shape[0] && t < x.shape[1]
    ensures Gradient(MatMul, g, [x, w]).Success?
    ensures i * w.shape[1] + w.shape[1] <= |g.cells| && t * w.shape[1] + w.shape[1] <= |w.cells|
    ensures i * x.shape[1] + t < |Gradient(MatMul, g, [x, w]).value[0].cells|
    ensures Gradient(MatMul, g, [x, w]).value[0].cells[i * x.shape[1] + t]
         == Linalg.Dot(Linalg.MatRow(g.cells, w.shape[1], i), Linalg.MatRow(w.cells, w.shape[1], t))
  {
    var n, k, m := x.shape[0], x.shape[1], w.shape[1];
    MatMulGradientShapes(g, x, w);
    var wt := TransposeOf(w);
    Product2(w.shape);
    Product2(g.shape);
    var r := MatProductCells(g, wt);
    assert Linalg.IsEntry(r, g.cells, wt.cells, m, k, i, t);
    TransposeColumn(w.cells, k, m, t);
  }

  /** Entry `(t, j)` of the gradient for the right factor `W` (`k x m`) is
      the sum over `i` of `X[i][t] * grad[i][j]`: column `t` of `X` against
      column `j` of the output gradient, which is `X^T x grad`. */
  lemma MatMulRightGradientAt(g: Data, x: Data, w: Data, t: nat, j: nat)
    requires WellFormed(g) && WellFormed(x) && WellFormed(w) && g.Dense? && x.Dense? && w.Dense?
    requires |x.shape| == 2 && |w.shape| == 2 && x.shape[1] == w.shape[0]
    requires g.shape == [x.shape[0], w.shape[1]] && t < x.shape[1] && j < w.shape[1]
    ensures Gradient(MatMul, g, [x, w]).Success?
    ensures x.shape[0] * x.shape[1] <= |x.cells| && x.shape[0] * w.shape[1] <= |g.cells|
    ensures t * w.shape[1] + j < |Gradient(MatMul, g, [x, w]).value[1].cells|
    ensures Gradient(MatMul, g, [x, w]).value[1].cells[t * w.shape[1] + j]
         == Linalg.Dot(Linalg.MatColumn(x.cells, x.shape[0], x.shape[1], t),
                       Linalg.MatColumn(g.cells, x.shape[0], w.shape[1], j))
  {
    var n, k, m := x.shape[0], x.shape[1], w.shape[1];
    MatMulGradientShapes(g, x, w);
    var xt := TransposeOf(x);
    Product2(x.shape);
    Product2(g.shape);
    var r := MatProductCells(xt, g);
    assert Linalg.IsEntry(r, xt.cells, g.cells, n, m, t, j);
    TransposeRow(x.cells, n, k, t);
  }

  /** A matrix moved cell by cell by a matrix of the same size. */
  function Shifted(a: Data, d: Data): (r: Data)
    requires Same(a, d) && WellFormed(a)
    ensures Same(r, a) && WellFormed(r)
  {
    Dense(a.shape, Zip(a.cells, d.cells, Plus))
  }

  /** Moving input `i` by `d` changes the output by an amount whose pairing
      with the output gradient `g` equals the pairing of `d` with the
      gradient the rule returns for input `i`: the rule is the op's exact
      derivative in that direction. */
  predicate ExactAt(op: Op, ins: seq<Data>, i: nat, d: Data, g: Data)
    requires AllWellFormed(ins) && WellFormed(g) && i < |ins| && Same(ins[i], d) && WellFormed(ins[i])
  {
    var before := Compute(op, ins);
    var after := Compute(op, ins[i := Shifted(ins[i], d)]);
    var grads := Gradient(op, g, ins);
    && before.Success? && after.Success? && grads.Success? && i < |grads.value|
    && Same(before.value, after.value) && g.Dense? && |g.cells| == |before.value.cells|
    && Same(grads.value[i], d)
    && Linalg.Dot(g.cells, Zip(after.value.cells, before.value.cells, Minus)) == Linalg.Dot(grads.value[i].cells, d.cells)
  }

  /** Pairings whose terms agree one by one are equal. */
  lemma {:induction false} DotTermwise(x: seq<real>, y: seq<real>, u: seq<real>, v: seq<real>)
    requires |x| == |y| == |u| == |v|
    requires forall k :: 0 <= k < |x| ==> x[k] * y[k] == u[k] * v[k]
    ensures Linalg.Dot(x, y) == Linalg.Dot(u, v)
    decreases |x|
  {
    if |x| > 0 {
      var n := |x| - 1;
      DotTermwise(x[..n], y[..n], u[..n], v[..n]);
    }
  }

  /** `add` passes the output gradient to both inputs unchanged, which is
      its exact derivative in either input. */
  lemma AddExact(a: Data, b: Data, i: nat, d: Data, g: Data)
    requires WellFormed(a) && WellFormed(b) && WellFormed(g) && Same(a, b) && Same(a, d) && Same(a, g) && i < 2
    ensures ExactAt(Add, [a, b], i, d, g)
  {
    var ins := [a, b];
    var after := Compute(Add, ins[i := Shifted(ins[i], d)]).value;
    var before := Compute(Add, ins).value;
    DotTermwise(g.cells, Zip(after.cells, before.cells, Minus), g.cells, d.cells);
  }

  /** `addScalar` passes the output gradient through unchanged, its exact
      derivative. */
  lemma AddScalarExact(a: Data, s: real, d: Data, g: Data)
    requires WellFormed(a) && WellFormed(g) && Same(a, d) && Same(a, g)
    ensures ExactAt(AddScalar(s), [a], 0, d, g)
  {
    var after := Compute(AddScalar(s), [Shifted(a, d)]).value;
    var before := Compute(AddScalar(s), [a]).value;
    DotTermwise(g.cells, Zip(after.cells, before.cells, Minus), g.cells, d.cells);
  }

  /** `dot` returns `grad * r` for the left input and `grad * l` for the
      right one, cell by cell: the exact derivative of the cellwise product
      in each input. */
  lemma DotExact(l: Data, r: Data, i: nat, d: Data, g: Data)
    requires WellFormed(l) && WellFormed(r) && WellFormed(g) && Same(l, r) && Same(l, d) && Same(l, g) && i < 2
    ensures ExactAt(Dot, [l, r], i, d, g)
  {
    var ins := [l, r];
    var moved := Shifted(ins[i], d);
    assert Compute(Dot, ins).value.cells == Zip(l.cells, r.cells, Times);
    if i == 0 {
      assert Compute(Dot, ins[i := moved]).value.cells == Zip(moved.cells, r.cells, Times);
      assert Gradient(Dot, g, ins).value[0].cells == Zip(g.cells, r.cells, Times);
      LeftFactorMoved(g.cells, l.cells, r.cells, d.cells);
    } else {
      assert Compute(Dot, ins[i := moved]).value.cells == Zip(l.cells, moved.cells, Times);
      assert Gradient(Dot, g, ins).value[1].cells == Zip(g.cells, l.cells, Times);
      RightFactorMoved(g.cells, r.cells, l.cells, d.cells);
    }
  }

  /** The sum of a vector. */
  function Sum(p: seq<real>): real
  {
    if |p| == 0 then 0.0 else Sum(p[..|p| - 1]) + p[|p| - 1]
  }

  /** A pairing is the sum of the cellwise product. */
  lemma {:induction false} DotAsSum(x: seq<real>, y: seq<real>)
    requires |x| == |y|
    ensures Linalg.Dot(x, y) == Sum(Zip(x, y, Times))
    decreases |x|
  {
    if |x| > 0 {
      var n := |x| - 1;
      DotAsSum(x[..n], y[..n]);
      assert Zip(x, y, Times)[..n] == Zip(x[..n], y[..n], Times);
    }
  }

  /** Moving the left factor of a cellwise product by `d` changes it,
      paired with `g`, by the pairing of `d` with `g` times the right
      factor. */
  lemma LeftFactorMoved(g: seq<real>, x: seq<real>, y: seq<real>, d: seq<real>)
    requires |g| == |x| == |y| == |d|
    ensures Linalg.Dot(g, Zip(Zip(Zip(x, d, Plus), y, Times), Zip(x, y, Times), Minus)) == Linalg.Dot(Zip(g, y, Times), d)
  {
    var change := Zip(Zip(Zip(x, d, Plus), y, Times), Zip(x, y, Times), Minus);
    LeftFactorTerms(g, x, y, d);
    DotAsSum(g, change);
    DotAsSum(Zip(g, y, Times), d);
  }

  lemma LeftFactorTerms(g: seq<real>, x: seq<real>, y: seq<real>, d: seq<real>)
    requires |g| == |x| == |y| == |d|
    ensures var change := Zip(Zip(Zip(x, d, Plus), y, Times), Zip(x, y, Times), Minus);
      Zip(g, change, Times) == Zip(Zip(g, y, Times), d, Times)
  {
    var change := Zip(Zip(Zip(x, d, Plus), y, Times), Zip(x, y, Times), Minus);
    forall k | 0 <= k < |g|
      ensures Zip(g, change, Times)[k] == Zip(Zip(g, y, Times), d, Times)[k]
    {
      assert change[k] == (x[k] + d[k]) * y[k] - x[k] * y[k];
      CellMoved(g[k], x[k], y[k], d[k]);
    }
  }

  /** The same for the right factor. */
  lemma RightFactorMoved(g: seq<real>, x: seq<real>, y: seq<real>, d: seq<real>)
    requires |g| == |x| == |y| == |d|
    ensures Linalg.Dot(g, Zip(Zip(y, Zip(x, d, Plus), Times), Zip(y, x, Times), Minus)) == Linalg.Dot(Zip(g, y, Times), d)
  {
    var change := Zip(Zip(y, Zip(x, d, Plus), Times), Zip(y, x, Times), Minus);
    RightFactorTerms(g, x, y, d);
    DotAsSum(g, change);
    DotAsSum(Zip(g, y, Times), d);
  }

  lemma RightFactorTerms(g: seq<real>, x: seq<real>, y: seq<real>, d: seq<real>)
    requires |g| == |x| == |y| == |d|
    ensures var change := Zip(Zip(y, Zip(x, d, Plus), Times), Zip(y, x, Times), Minus);
      Zip(g, change, Times) == Zip(Zip(g, y, Times), d, Times)
  {
    var change := Zip(Zip(y, Zip(x, d, Plus), Times), Zip(y, x, Times), Minus);
    forall k | 0 <= k < |g|
      ensures Zip(g, change, Times)[k] == Zip(Zip(g, y, Times), d, Times)[k]
    {
      assert change[k] == y[k] * (x[k] + d[k]) - y[k] * x[k];
      CellMoved(g[k], x[k], y[k], d[k]);
    }
  }

  lemma CellMoved(g: real, x: real, y: real, d: real)
    ensures g * ((x + d) * y - x * y) == (g * y) * d
    ensures g * (y * (x + d) - y * x) == (g * y) * d
  {
  }

  /** `mulScalar` returns `grad * scalar`, the exact derivative of scaling. */
  lemma MulScalarExact(a: Data, s: real, d: Data, g: Data)
    requires WellFormed(a) && WellFormed(g) && Same(a, d) && Same(a, g)
    ensures ExactAt(MulScalar(s), [a], 0, d, g)
  {
    var after := Compute(MulScalar(s), [Shifted(a, d)]).value;
    var before := Compute(MulScalar(s), [a]).value;
    var grad := Gradient(MulScalar(s), g, [a]).value[0];
    DotTermwise(g.cells, Zip(after.cells, before.cells, Minus), grad.cells, d.cells);
  }

  /** `relu` masks the output gradient by the sign of the input, which is
      its exact derivative for every move that keeps each cell on its side
      of zero (a cell at 0 counts as non-positive). */
  lemma ReluExact(a: Data, d: Data, g: Data)
    requires WellFormed(a) && WellFormed(g) && Same(a, d) && Same(a, g)
    requires forall k :: 0 <= k < |a.cells| ==> (a.cells[k] > 0.0 <==> a.cells[k] + d.cells[k] > 0.0)
    ensures ExactAt(ReLU, [a], 0, d, g)
  {
    var after := Compute(ReLU, [Shifted(a, d)]).value;
    var before := Compute(ReLU, [a]).value;
    var grad := Gradient(ReLU, g, [a]).value[0];
    DotTermwise(g.cells, Zip(after.cells, before.cells, Minus), grad.cells, d.cells);
  }

  /** `reshape` hands the output gradient back under the input's size with
      its cells in the same order, the exact derivative of a reshape. */
  lemma ReshapeExact(a: Data, target: seq<nat>, d: Data, g: Data)
    requires WellFormed(a) && WellFormed(g) && Same(a, d) && g.Dense? && g.shape == target
    requires Product(target) == |a.cells|
    ensures ExactAt(ReshapeTo(target), [a], 0, d, g)
  {
    var after := Compute(ReshapeTo(target), [Shifted(a, d)]).value;
    var before := Compute(ReshapeTo(target), [a]).value;
    DotTermwise(g.cells, Zip(after.cells, before.cells, Minus), g.cells, d.cells);
  }

  /** `flatten` hands the `[1, n]` output gradient back under the input's
      size with its cells in the same order: its exact derivative. */
  lemma FlattenExact(a: Data, d: Data, g: Data)
    requires WellFormed(a) && WellFormed(g) && Same(a, d) && |a.shape| > 0
    requires g.Dense? && g.shape == [1, Product(a.shape)]
    ensures ExactAt(Flatten, [a], 0, d, g)
  {
    Product2(g.shape);
    var after := Compute(Flatten, [Shifted(a, d)]).value;
    var before := Compute(Flatten, [a]).value;
    DotTermwise(g.cells, Zip(after.cells, before.cells, Minus), g.cells, d.cells);
  }

  /** A successful gradient rule returns one gradient per input the op is
      built with; `add` and `addScalar` succeed exactly on that many inputs
      and otherwise report the count they got, as `flatten` does. */
  lemma GradientArity(op: Op, g: Data, ins: seq<Data>)
    requires WellFormed(g) && AllWellFormed(ins)
    ensures Gradient(op, g, ins).Success? ==> |Gradient(op, g, ins).value| == Arity(op)
    ensures (op.Add? || op.AddScalar?) ==> (Gradient(op, g, ins).Success? <==> |ins| == Arity(op))
    ensures op.Add? && |ins| != 2 ==> Gradient(op, g, ins).error == "add: expected 2 input, got " + Decimal(|ins|)
    ensures op.AddScalar? && |ins| != 1 ==> Gradient(op, g, ins).error == "addScalar: expected 1 input, got " + Decimal(|ins|)
    ensures op.Flatten? && |ins| != 1 ==> Gradient(op, g, ins).error == "flatten: expected 1 input, got " + Decimal(|ins|)
  {
  }

  /** `add` does not reduce a gradient back to a broadcast input's size: a
      number added to a vector receives the vector-sized output gradient. */
  lemma AddGradientKeepsOutputSize()
    ensures var a, b, g := Scalar(1.0), Dense([2], [1.0, 2.0]), Dense([2], [1.0, 1.0]);
      && Compute(Add, [a, b]) == Success(Dense([2], [2.0, 3.0]))
      && Gradient(Add, g, [a, b]).Success?
      && ShapeOf(Gradient(Add, g, [a, b]).value[0]) == [2] != ShapeOf(a)
  {
    var b := Dense([2], [1.0, 2.0]);
    assert Product([2]) == 2 by {
      assert [2][1..] == [];
    }
    assert Zip(Fill(2, 1.0), b.cells, Plus) == [2.0, 3.0];
  }

  /** `relu` keeps positive cells, zeroes the rest, never yields a negative
      cell, keeps the input's size, and applying it twice is applying it
      once; a number is a type error. */
  lemma ReluLaws(x: Data)
    requires WellFormed(x)
    ensures x.Scalar? ==> Compute(ReLU, [x]) == Failure("TensorValueTypeError")
    ensures x.Dense? ==> Compute(ReLU, [x]).Success?
    ensures x.Dense? ==> var y := Compute(ReLU, [x]).value;
      && y.Dense? && y.shape == x.shape && |y.cells| == |x.cells|
      && (forall k :: 0 <= k < |y.cells| ==> y.cells[k] >= 0.0)
      && (forall k :: 0 <= k < |y.cells| ==> (x.cells[k] > 0.0 ==> y.cells[k] == x.cells[k]))
      && (forall k :: 0 <= k < |y.cells| ==> (x.cells[k] <= 0.0 ==> y.cells[k] == 0.0))
      && Compute(ReLU, [y]) == Success(y)
  {
    if x.Dense? {
      var y := Compute(ReLU, [x]).value;
      var z := Compute(ReLU, [y]).value;
      assert z.cells == y.cells;
    }
  }

  /** The `relu` gradient is the output gradient where the input is
      positive and 0 elsewhere, including where the input is 0. */
  lemma ReluGradientCells(x: Data, g: Data)
    requires WellFormed(x) && WellFormed(g) && Same(x, g)
    ensures Gradient(ReLU, g, [x]).Success?
    ensures var r := Gradient(ReLU, g, [x]).value;
      && |r| == 1 && Same(r[0], x)
      && forall k :: 0 <= k < |x.cells| ==> r[0].cells[k] == if x.cells[k] > 0.0 then g.cells[k] else 0.0
  {
  }

  /** `flatten` turns a matrix of rank at least 1 into a `1 x n` matrix with
      the same cells in the same order; a number, or a matrix of rank 0, is
      an error.  Its gradient rule turns the flattened value back into the
      input. */
  lemma FlattenRoundTrip(x: Data)
    requires WellFormed(x)
    ensures Compute(Flatten, [x]).Success? <==> x.Dense? && |x.shape| > 0
    ensures Compute(Flatten, [x]).Success? ==>
      && Compute(Flatten, [x]).value == Dense([1, Product(x.shape)], x.cells)
      && Gradient(Flatten, Compute(Flatten, [x]).value, [x]) == Success([x])
  {
    if x.Dense? && |x.shape| > 0 {
      Product2([1, Product(x.shape)]);
    }
  }

  /** `reshape` keeps the cells under the target size when the counts
      agree, and its gradient rule turns the reshaped value back into the
      input. */
  lemma ReshapeRoundTrip(x: Data, target: seq<nat>)
    requires WellFormed(x)
    ensures Compute(ReshapeTo(target), [x]).Success? <==> x.Dense? && Product(target) == |x.cells|
    ensures Compute(ReshapeTo(target), [x]).Success? ==>
      && Compute(ReshapeTo(target), [x]).value == Dense(target, x.cells)
      && Gradient(ReshapeTo(target), Compute(ReshapeTo(target), [x]).value, [x]) == Success([x])
  {
  }

  /** The `reshape` gradient rule as written: it calls `reshape` on the
      output gradient tensor, a method tensors do not have, so every call
      is a type error. */
  function ReshapeGradientAsWritten(g: Data, ins: seq<Data>): (r: Result<seq<Data>>)
    ensures r.Failure?
  {
    Failure("TypeError")
  }

  /** Where the rule as written throws, the intended rule (`Gradient` on
      `ReshapeTo`) hands the input its own size back: for `[1, 2, 3, 4]`
      reshaped to `[2, 2]` it returns a `[4]` gradient. */
  lemma ReshapeGradientAsWrittenThrows()
    ensures var x := Dense([4], [1.0, 2.0, 3.0, 4.0]);
      var g := Dense([2, 2], [1.0, 1.0, 1.0, 1.0]);
      && WellFormed(x) && WellFormed(g)
      && ReshapeGradientAsWritten(g, [x]).Failure?
      && Gradient(ReshapeTo([2, 2]), g, [x]) == Success([Dense([4], [1.0, 1.0, 1.0, 1.0])])
  {
    Product2([2, 2]);
    assert Product([4]) == 4 by {
      assert [4][1..] == [];
    }
  }

  /** `matmul` of an `n x k` and a `k x m` matrix is the `n x m` matrix whose
      entry `(i, j)` is row `i` of the first dotted with column `j` of the
      second; inner sizes that differ are a dimension error. */
  lemma MatMulComputes(x: Data, w: Data)
    requires WellFormed(x) && WellFormed(w) && x.Dense? && w.Dense? && |x.shape| == 2 && |w.shape| == 2
    ensures Compute(MatMul, [x, w]).Success? <==> x.shape[1] == w.shape[0]
    ensures x.shape[1] == w.shape[0] ==>
      var r := Compute(MatMul, [x, w]).value;
      && r.Dense? && r.shape == [x.shape[0], w.shape[1]]
      && Linalg.IsProduct(r.cells, x.cells, w.cells, x.shape[0], x.shape[1], w.shape[1])
  {
    if x.shape[1] == w.shape[0] {
      var c := MatProductCells(x, w);
    }
  }

  /** The matrix `[[1, 2, 3], [1, 2, 3]]` of the tensor tests. */
  function T1(): Data
  {
    Dense([2, 3], [1.0, 2.0, 3.0, 1.0, 2.0, 3.0])
  }

  lemma T1WellFormed()
    ensures WellFormed(T1())
  {
    Product2([2, 3]);
  }

  /** The package test's values: `add(t1, t1)`, `addScalar(t1, 1)`, `t1.dot(t1)`,
      `t1.mul(2)` and `t1.mul(t1.mul(2))`, the last routed to `dot`. */
  lemma TensorTestExamples()
    ensures WellFormed(T1())
    ensures Compute(Add, [T1(), T1()]) == Success(Dense([2, 3], [2.0, 4.0, 6.0, 2.0, 4.0, 6.0]))
    ensures Compute(AddScalar(1.0), [T1()]) == Success(Dense([2, 3], [2.0, 3.0, 4.0, 2.0, 3.0, 4.0]))
    ensures Compute(Dot, [T1(), T1()]) == Success(Dense([2, 3], [1.0, 4.0, 9.0, 1.0, 4.0, 9.0]))
    ensures Compute(MulScalar(2.0), [T1()]) == Success(Dense([2, 3], [2.0, 4.0, 6.0, 2.0, 4.0, 6.0]))
    ensures Compute(Dot, [T1(), Dense([2, 3], [2.0, 4.0, 6.0, 2.0, 4.0, 6.0])])
         == Success(Dense([2, 3], [2.0, 8.0, 18.0, 2.0, 8.0, 18.0]))
  {
    T1WellFormed();
    var c := T1().cells;
    var doubled := [2.0, 4.0, 6.0, 2.0, 4.0, 6.0];
    assert Zip(c, c, Plus) == doubled;
    assert Zip(c, Fill(6, 1.0), Plus) == [2.0, 3.0, 4.0, 2.0, 3.0, 4.0];
    assert Zip(c, c, Times) == [1.0, 4.0, 9.0, 1.0, 4.0, 9.0];
    assert Zip(c, Fill(6, 2.0), Times) == doubled;
    assert Zip(c, doubled, Times) == [2.0, 8.0, 18.0, 2.0, 8.0, 18.0];
  }
}
