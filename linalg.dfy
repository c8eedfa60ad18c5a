/** The row-major matrix product shared by every `matmul` of the repository:
    an `m x k` buffer times a `k x n` buffer gives an `m x n` buffer whose
    entry `(i, j)` is the sum over `t < k` of `a[i*k+t] * b[t*n+j]`. */
module Linalg {

  /** Sum of the products of corresponding entries, accumulated from the
      first entry to the last. */
  function Dot(x: seq<real>, y: seq<real>): real
    requires |x| == |y|
  {
    if |x| == 0 then 0.0 else Dot(x[..|x| - 1], y[..|y| - 1]) + x[|x| - 1] * y[|y| - 1]
  }

  /** Extending both vectors by one entry adds that entry's product. */
  lemma DotSnoc(x: seq<real>, y: seq<real>, t: nat)
    requires |x| == |y| && t < |x|
    ensures Dot(x[..t + 1], y[..t + 1]) == Dot(x[..t], y[..t]) + x[t] * y[t]
  {
    assert x[..t + 1][..t] == x[..t];
    assert y[..t + 1][..t] == y[..t];
  }

  lemma ProductStep(m: int, k: int)
    ensures (m + 1) * k == m * k + k
  {
  }

  lemma RowFits(i: nat, m: nat, k: nat)
    requires i < m
    ensures i * k + k <= m * k
  {
    assert (i + 1) * k <= m * k by {
      assert i + 1 <= m;
    }
    ProductStep(i, k);
  }

  lemma ProductBelow(i: nat, m: nat, k: nat, t: nat)
    requires i < m && t < k
    ensures i * k + t < m * k && i * k + k <= m * k
  {
    RowFits(i, m, k);
  }

  /** Row `i` of an `? x k` row-major buffer. */
  function MatRow(a: seq<real>, k: nat, i: nat): (r: seq<real>)
    requires i * k + k <= |a|
    ensures |r| == k && forall t :: 0 <= t < k ==> r[t] == a[i * k + t]
  {
    a[i * k..i * k + k]
  }

  /** Column `j` of a `k x n` row-major buffer. */
  function MatColumn(b: seq<real>, k: nat, n: nat, j: nat): (r: seq<real>)
    requires j < n && k * n <= |b|
    ensures |r| == k
  {
    seq(k, t requires 0 <= t < k => ColumnEntry(b, k, n, j, t))
  }

  /** Entry `t` of column `j` is `b[t*n + j]`. */
  lemma ColumnAt(b: seq<real>, k: nat, n: nat, j: nat, t: nat)
    requires j < n && t < k && k * n <= |b|
    ensures t * n + j < |b| && MatColumn(b, k, n, j)[t] == b[t * n + j]
  {
    ProductBelow(t, k, n, j);
    assert t * n == n * t;
    assert k * n == n * k;
  }

  function ColumnEntry(b: seq<real>, k: nat, n: nat, j: nat, t: nat): real
    requires j < n && t < k && k * n <= |b|
  {
    ProductBelow(t, k, n, j);
    assert t * n + j < k * n by {
      assert t * n == n * t;
      assert k * n == n * k;
    }
    b[t * n + j]
  }

  /** Row `i` of the product. */
  function ProductRow(a: seq<real>, b: seq<real>, k: nat, n: nat, i: nat): (r: seq<real>)
    requires i * k + k <= |a| && k * n <= |b|
    ensures |r| == n
  {
    seq(n, j requires 0 <= j < n => Dot(MatRow(a, k, i), MatColumn(b, k, n, j)))
  }

  /** The first `m` rows of the product of `a` (`? x k`) and `b` (`k x n`),
      row after row. */
  function MatProd(a: seq<real>, b: seq<real>, m: nat, k: nat, n: nat): (r: seq<real>)
    requires m * k <= |a| && k * n <= |b|
  {
    if m == 0 then []
    else
      ProductStep(m - 1, k);
      MatProd(a, b, m - 1, k, n) + ProductRow(a, b, k, n, m - 1)
  }

  /** The product has `m * n` entries. */
  lemma {:induction false} MatProdLength(a: seq<real>, b: seq<real>, m: nat, k: nat, n: nat)
    requires m * k <= |a| && k * n <= |b|
    ensures |MatProd(a, b, m, k, n)| == m * n
  {
    if m > 0 {
      ProductStep(m - 1, k);
      MatProdLength(a, b, m - 1, k, n);
      ProductStep(m - 1, n);
    }
  }

  /** Entry `i*n + j` of the product is row `i` of `a` dotted with column
      `j` of `b`. */
  lemma {:induction false} MatProdAt(a: seq<real>, b: seq<real>, m: nat, k: nat, n: nat, i: nat, j: nat)
    requires m * k <= |a| && k * n <= |b| && i < m && j < n
    ensures i * k + k <= |a| && i * n + j < m * n && |MatProd(a, b, m, k, n)| == m * n
    ensures MatProd(a, b, m, k, n)[i * n + j] == Dot(MatRow(a, k, i), MatColumn(b, k, n, j))
  {
    RowFits(i, m, k);
    ProductBelow(i, m, n, j);
    MatProdLength(a, b, m, k, n);
    ProductStep(m - 1, k);
    MatProdLength(a, b, m - 1, k, n);
    var front := MatProd(a, b, m - 1, k, n);
    assert MatProd(a, b, m, k, n) == front + ProductRow(a, b, k, n, m - 1);
    if i < m - 1 {
      MatProdAt(a, b, m - 1, k, n, i, j);
      ProductBelow(i, m - 1, n, j);
    } else {
      assert i * n + j == |front| + j;
    }
  }

  /** `c` is the `m x n` product of `a` (`m x k`) and `b` (`k x n`): one
      entry per row and column, each the dot product of that row of `a` and
      that column of `b`. */
  predicate IsProduct(c: seq<real>, a: seq<real>, b: seq<real>, m: nat, k: nat, n: nat)
  {
    |c| == m * n && forall i: nat, j: nat :: i < m && j < n ==> IsEntry(c, a, b, k, n, i, j)
  }

  /** Entry `i*n + j` of `c` is row `i` of `a` dotted with column `j` of `b`. */
  predicate IsEntry(c: seq<real>, a: seq<real>, b: seq<real>, k: nat, n: nat, i: nat, j: nat)
  {
    && i * k + k <= |a| && j < n && k * n <= |b| && i * n + j < |c|
    && c[i * n + j] == Dot(MatRow(a, k, i), MatColumn(b, k, n, j))
  }

  lemma MatProdIsProduct(a: seq<real>, b: seq<real>, m: nat, k: nat, n: nat)
    requires m * k <= |a| && k * n <= |b|
    ensures IsProduct(MatProd(a, b, m, k, n), a, b, m, k, n)
  {
    MatProdLength(a, b, m, k, n);
    var c := MatProd(a, b, m, k, n);
    forall i: nat, j: nat | i < m && j < n
      ensures IsEntry(c, a, b, k, n, i, j)
    {
      MatProdAt(a, b, m, k, n, i, j);
    }
  }

  /** An empty result is the product whenever it has no entry. */
  lemma EmptyIsProduct(a: seq<real>, b: seq<real>, m: nat, k: nat, n: nat)
    requires m == 0 || n == 0
    ensures IsProduct([], a, b, m, k, n)
  {
  }

  /** The dot product of row `i` and column `j`, summed in ascending `t` as
      the `matmul` loops do. */
  method SumProducts(a: seq<real>, b: seq<real>, m: nat, k: nat, n: nat, i: nat, j: nat) returns (sum: real)
    requires m * k <= |a| && k * n <= |b| && i < m && j < n
    ensures i * k + k <= |a|
    ensures sum == Dot(MatRow(a, k, i), MatColumn(b, k, n, j))
  {
    RowFits(i, m, k);
    sum := 0.0;
    for t := 0 to k
      invariant sum == Dot(MatRow(a, k, i)[..t], MatColumn(b, k, n, j)[..t])
    {
      MatProdEntry(a, b, m, k, n, i, j, t);
      sum := sum + a[i * k + t] * b[t * n + j];
    }
    assert MatRow(a, k, i)[..k] == MatRow(a, k, i);
    assert MatColumn(b, k, n, j)[..k] == MatColumn(b, k, n, j);
  }

  /** `MatProd` reads exactly the entries the loops of a `matmul` read:
      `a[i*k + t] * b[t*n + j]` summed over `t < k`, written at `i*n + j`. */
  lemma MatProdEntry(a: seq<real>, b: seq<real>, m: nat, k: nat, n: nat, i: nat, j: nat, t: nat)
    requires m * k <= |a| && k * n <= |b| && i < m && j < n && t < k
    ensures i * k + t < |a| && t * n + j < |b| && i * k + k <= |a|
    ensures Dot(MatRow(a, k, i)[..t + 1], MatColumn(b, k, n, j)[..t + 1])
      == Dot(MatRow(a, k, i)[..t], MatColumn(b, k, n, j)[..t]) + a[i * k + t] * b[t * n + j]
  {
    ProductBelow(i, m, k, t);
    ColumnAt(b, k, n, j, t);
    DotSnoc(MatRow(a, k, i), MatColumn(b, k, n, j), t);
  }

  /** The positions of the next term's two factors. */
  lemma MatProdEntryIndexes(a: seq<real>, b: seq<real>, m: nat, k: nat, n: nat, i: nat, j: nat, t: nat)
    returns (p: nat, q: nat)
    requires m * k <= |a| && k * n <= |b| && i < m && j < n && t < k
    ensures p == i * k + t && q == t * n + j && p < |a| && q < |b| && i * k + k <= |a|
  {
    p, q := i * k + t, t * n + j;
    ProductBelow(i, m, k, t);
    ColumnAt(b, k, n, j, t);
  }

  /** `MatProdEntry` with the two factors given by value. */
  lemma MatProdEntryOf(a: seq<real>, b: seq<real>, k: nat, n: nat, i: nat, j: nat, t: nat, x: real, y: real)
    requires i * k + k <= |a| && k * n <= |b| && j < n && t < k
    requires i * k + t < |a| && t * n + j < |b| && a[i * k + t] == x && b[t * n + j] == y
    ensures Dot(MatRow(a, k, i)[..t + 1], MatColumn(b, k, n, j)[..t + 1])
      == Dot(MatRow(a, k, i)[..t], MatColumn(b, k, n, j)[..t]) + x * y
  {
    ColumnAt(b, k, n, j, t);
    DotSnoc(MatRow(a, k, i), MatColumn(b, k, n, j), t);
  }

  /** The product reads only the first `m*k` entries of `a` and the first
      `k*n` of `b`: buffers that agree there have the same product. */
  lemma {:induction false} MatProdPrefix(a: seq<real>, a': seq<real>, b: seq<real>, b': seq<real>, m: nat, k: nat, n: nat)
    requires m * k <= |a| && m * k <= |a'| && k * n <= |b| && k * n <= |b'|
    requires a[..m * k] == a'[..m * k] && b[..k * n] == b'[..k * n]
    ensures MatProd(a, b, m, k, n) == MatProd(a', b', m, k, n)
  {
    if m > 0 {
      ProductStep(m - 1, k);
      PrefixOfPrefix(a, a', (m - 1) * k, m * k);
      MatProdPrefix(a, a', b, b', m - 1, k, n);
      RowsAgree(a, a', b, b', m, k, n);
    }
  }

  lemma PrefixOfPrefix(a: seq<real>, a': seq<real>, p: nat, q: nat)
    requires p <= q <= |a| && q <= |a'| && a[..q] == a'[..q]
    ensures a[..p] == a'[..p]
  {
    assert a[..p] == a[..q][..p];
    assert a'[..p] == a'[..q][..p];
  }

  /** The last row of the product agrees on agreeing prefixes. */
  lemma RowsAgree(a: seq<real>, a': seq<real>, b: seq<real>, b': seq<real>, m: nat, k: nat, n: nat)
    requires m > 0 && m * k <= |a| && m * k <= |a'| && k * n <= |b| && k * n <= |b'|
    requires a[..m * k] == a'[..m * k] && b[..k * n] == b'[..k * n]
    ensures (m - 1) * k + k <= |a| && (m - 1) * k + k <= |a'|
    ensures ProductRow(a, b, k, n, m - 1) == ProductRow(a', b', k, n, m - 1)
  {
    var i := m - 1;
    ProductStep(i, k);
    assert MatRow(a, k, i) == a[..m * k][i * k..i * k + k] == MatRow(a', k, i);
    forall j | 0 <= j < n
      ensures MatColumn(b, k, n, j) == MatColumn(b', k, n, j)
    {
      ColumnsAgree(b, b', k, n, j);
    }
  }

  lemma ColumnsAgree(b: seq<real>, b': seq<real>, k: nat, n: nat, j: nat)
    requires j < n && k * n <= |b| && k * n <= |b'| && b[..k * n] == b'[..k * n]
    ensures MatColumn(b, k, n, j) == MatColumn(b', k, n, j)
  {
    forall t | 0 <= t < k
      ensures MatColumn(b, k, n, j)[t] == MatColumn(b', k, n, j)[t]
    {
      ColumnAt(b, k, n, j, t);
      ColumnAt(b', k, n, j, t);
      ProductBelow(t, k, n, j);
      assert b[t * n + j] == b[..k * n][t * n + j];
      assert b'[t * n + j] == b'[..k * n][t * n + j];
    }
  }

  /** An entry of a product with inner extent 3: row `i` of `a`, holding
      `x0, x1, x2`, against column `j` of `b`, holding `y0, y1, y2`. */
  lemma Entry3(a: seq<real>, b: seq<real>, m: nat, n: nat, i: nat, j: nat,
               x0: real, x1: real, x2: real, y0: real, y1: real, y2: real) returns (e: nat)
    requires m * 3 <= |a| && 3 * n <= |b| && i < m && j < n
    requires i * 3 + 2 < |a| && x0 == a[i * 3] && x1 == a[i * 3 + 1] && x2 == a[i * 3 + 2]
    requires 2 * n + j < |b| && y0 == b[j] && y1 == b[n + j] && y2 == b[2 * n + j]
    ensures e == i * n + j && e < m * n == |MatProd(a, b, m, 3, n)|
    ensures MatProd(a, b, m, 3, n)[e] == x0 * y0 + x1 * y1 + x2 * y2
  {
    e := i * n + j;
    var x, y := MatRow(a, 3, i), MatColumn(b, 3, n, j);
    assert x == [x0, x1, x2] && y == [y0, y1, y2] by {
      Row3(a, i);
      Column3(b, n, j);
    }
    Dot3(x0, x1, x2, y0, y1, y2);
    MatProdAt(a, b, m, 3, n, i, j);
  }

  /** Row `i` of a matrix with three columns. */
  lemma Row3(a: seq<real>, i: nat)
    requires i * 3 + 3 <= |a|
    ensures MatRow(a, 3, i) == [a[i * 3], a[i * 3 + 1], a[i * 3 + 2]]
  {
  }

  /** Column `j` of a matrix with three rows. */
  lemma Column3(b: seq<real>, n: nat, j: nat)
    requires 3 * n <= |b| && j < n
    ensures 2 * n + j < |b| && MatColumn(b, 3, n, j) == [b[j], b[n + j], b[2 * n + j]]
  {
    ColumnAt(b, 3, n, j, 0);
    ColumnAt(b, 3, n, j, 1);
    ColumnAt(b, 3, n, j, 2);
  }

  /** The package test's product `[[1,2,3],[4,5,6]] x [[1,2],[3,4],[5,6]]`. */
  lemma MatProdExample(a: seq<real>)
    requires a == [1.0, 2.0, 3.0, 4.0, 5.0, 6.0]
    ensures MatProd(a, a, 2, 3, 2) == [22.0, 28.0, 49.0, 64.0]
  {
    MatProdExampleCells(a);
  }

  lemma MatProdExampleCells(a: seq<real>)
    requires |a| == 6 && forall t :: 0 <= t < 6 ==> a[t] == (t + 1) as real
    ensures MatProd(a, a, 2, 3, 2) == [22.0, 28.0, 49.0, 64.0]
  {
    MatProd2x3x2(a, a, 2, 3, 2);
  }

  /** A `2 x 3` by `3 x 2` product, written out entry by entry. */
  lemma MatProd2x3x2(a: seq<real>, b: seq<real>, m: nat, k: nat, n: nat)
    requires |a| == 6 && |b| == 6 && m == 2 && k == 3 && n == 2
    ensures MatProd(a, b, m, k, n)
         == [a[0] * b[0] + a[1] * b[2] + a[2] * b[4], a[0] * b[1] + a[1] * b[3] + a[2] * b[5],
             a[3] * b[0] + a[4] * b[2] + a[5] * b[4], a[3] * b[1] + a[4] * b[3] + a[5] * b[5]]
  {
    var c := MatProd(a, b, m, k, n);
    var e0 := Entry3(a, b, m, n, 0, 0, a[0], a[1], a[2], b[0], b[2], b[4]);
    var e1 := Entry3(a, b, m, n, 0, 1, a[0], a[1], a[2], b[1], b[3], b[5]);
    var e2 := Entry3(a, b, m, n, 1, 0, a[3], a[4], a[5], b[0], b[2], b[4]);
    var e3 := Entry3(a, b, m, n, 1, 1, a[3], a[4], a[5], b[1], b[3], b[5]);
    assert e0 == 0 && e1 == 1 && e2 == 2 && e3 == 3 && |c| == 4;
    assert c[0] == a[0] * b[0] + a[1] * b[2] + a[2] * b[4];
    assert c[1] == a[0] * b[1] + a[1] * b[3] + a[2] * b[5];
    assert c[2] == a[3] * b[0] + a[4] * b[2] + a[5] * b[4];
    assert c[3] == a[3] * b[1] + a[4] * b[3] + a[5] * b[5];
    assert c == [c[0], c[1], c[2], c[3]];
  }

  /** The dot product of two vectors of three entries. */
  lemma Dot3(x0: real, x1: real, x2: real, y0: real, y1: real, y2: real)
    ensures Dot([x0, x1, x2], [y0, y1, y2]) == x0 * y0 + x1 * y1 + x2 * y2
  {
    var x, y := [x0, x1, x2], [y0, y1, y2];
    assert Dot([x0], [y0]) == x0 * y0 by {
      assert [x0][..0] == [] && [y0][..0] == [];
    }
    assert Dot([x0, x1], [y0, y1]) == x0 * y0 + x1 * y1 by {
      assert [x0, x1][..1] == [x0] && [y0, y1][..1] == [y0];
    }
    assert x[..2] == [x0, x1] && y[..2] == [y0, y1];
  }
}
