/** `packages/matops/src/ops/matmul.rs`: the generic row-major `matmul` over
    a raw buffer and its metadata, behind ten typed entry points.  The
    metadata strides are parsed but never read, so both buffers are taken as
    contiguous. */
module Matops {
  import opened Wrappers
  import opened Linalg

  /** `NdArrayMetadata`: what JavaScript passes along with each buffer. */
  datatype Metadata = Metadata(strides: seq<nat>, shape: seq<nat>)

  const RankPanic: string := "not yet implemented: Not implemented for matrices with more than 2 dimensions"

  /** What `matmul` returns or why it panics.  Only the two ranks, `a`'s two
      extents and `b`'s column count are consulted; a read past either buffer
      panics, which can only happen when the output is not empty. */
  function MatmulSpec(a: seq<real>, ashape: seq<nat>, b: seq<real>, bshape: seq<nat>): Result<seq<real>>
  {
    if |ashape| != |bshape| || |ashape| > 2 then Failure(RankPanic)
    else if |ashape| < 2 then Failure("index out of bounds")
    else
      var m, k, n := ashape[0], ashape[1], bshape[1];
      if m == 0 || n == 0 then Success([])
      else if m * k > |a| || k * n > |b| then Failure("index out of bounds")
      else Success(MatProd(a, b, m, k, n))
  }

  /** The generic body: for each row `i` and column `j`, in that order, the
      sum over `k` of `a[i*K + k] * b[k*N + j]` is pushed.  A read past a
      buffer is decided before the loops; the source panics at the first
      such read, which has the same outcome. */
  method Matmul(a: seq<real>, am: Metadata, b: seq<real>, bm: Metadata) returns (r: Result<seq<real>>)
    ensures r == MatmulSpec(a, am.shape, b, bm.shape)
  {
    if |am.shape| != |bm.shape| || |am.shape| > 2 {
      return Failure(RankPanic);
    }
    if |am.shape| < 2 {
      return Failure("index out of bounds");
    }
    var m, k, n := am.shape[0], am.shape[1], bm.shape[1];
    if m == 0 || n == 0 {
      return Success([]);
    }
    if m * k > |a| || k * n > |b| {
      return Failure("index out of bounds");
    }
    var buffer: seq<real> := [];
    for i := 0 to m
      invariant buffer == MatProd(a, b, i, k, n)
    {
      RowFits(i, m, k);
      for j := 0 to n
        invariant buffer == MatProd(a, b, i, k, n) + ProductRow(a, b, k, n, i)[..j]
      {
        var sum := SumProducts(a, b, m, k, n, i, j);
        assert ProductRow(a, b, k, n, i)[..j + 1] == ProductRow(a, b, k, n, i)[..j] + [sum];
        buffer := buffer + [sum];
      }
      assert ProductRow(a, b, k, n, i)[..n] == ProductRow(a, b, k, n, i);
      ProductStep(i, k);
    }
    return Success(buffer);
  }

  /** The panics are exactly a rank mismatch, a rank above 2, a rank below
      2, and a non-empty output whose reads leave a buffer; otherwise the
      result is the `m x n` product of `a` (`m x k`) and `b` (`? x n`). */
  lemma MatmulSound(a: seq<real>, ashape: seq<nat>, b: seq<real>, bshape: seq<nat>)
    ensures MatmulSpec(a, ashape, b, bshape).Failure? <==>
      || |ashape| != |bshape| || |ashape| != 2
      || (ashape[0] > 0 && bshape[1] > 0 && (ashape[0] * ashape[1] > |a| || ashape[1] * bshape[1] > |b|))
    ensures MatmulSpec(a, ashape, b, bshape).Success? ==>
      IsProduct(MatmulSpec(a, ashape, b, bshape).value, a, b, ashape[0], ashape[1], bshape[1])
  {
    var r := MatmulSpec(a, ashape, b, bshape);
    if r.Success? {
      var m, k, n := ashape[0], ashape[1], bshape[1];
      if m > 0 && n > 0 {
        MatProdIsProduct(a, b, m, k, n);
      }
    }
  }
}
