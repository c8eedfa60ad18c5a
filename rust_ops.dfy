/** The arithmetic of `packages/ndarray/src/ops.rs`: `matmul` and the
    cell-by-cell operations, each of which clones its first operand and
    rewrites every cell of the clone in a loop. */
module RustOps {
  import opened Wrappers
  import opened IndexMath
  import opened Linalg
  import opened RustNdArray
  import Matops

  /* ---------------------------------------------------------------------- */
  /* matmul                                                                   */

  /** `matmul` of `ops.rs`: the same checks and loops as the generic body in
      `matops`, wrapped as a contiguous `[m, n]` array. */
  function MatmulSpec(a: NdArray, b: NdArray): Result<NdArray>
  {
    Matops.MatmulSound(a.buffer, a.shape, b.buffer, b.shape);
    match Matops.MatmulSpec(a.buffer, a.shape, b.buffer, b.shape)
    case Failure(e) => Failure(e)
    case Success(c) => Success(From(c, Some([a.shape[0], b.shape[1]]), None))
  }

  /** `matmul(a, b)`: rows of `a` times columns of `b`, pushed row after
      row; the strides of both operands are ignored. */
  method Matmul(a: NdArray, b: NdArray) returns (r: Result<NdArray>)
    ensures r == MatmulSpec(a, b)
  {
    if |a.shape| != |b.shape| || |a.shape| > 2 {
      return Failure(Matops.RankPanic);
    }
    if |a.shape| < 2 {
      return Failure("index out of bounds");
    }
    var m, k, n := a.shape[0], a.shape[1], b.shape[1];
    if m == 0 || n == 0 {
      return Success(From([], Some([m, n]), None));
    }
    if m * k > |a.buffer| || k * n > |b.buffer| {
      return Failure("index out of bounds");
    }
    var buffer: seq<real> := [];
    for i := 0 to m
      invariant buffer == MatProd(a.buffer, b.buffer, i, k, n)
    {
      RowFits(i, m, k);
      for j := 0 to n
        invariant buffer == MatProd(a.buffer, b.buffer, i, k, n) + ProductRow(a.buffer, b.buffer, k, n, i)[..j]
      {
        var sum := SumProducts(a.buffer, b.buffer, m, k, n, i, j);
        assert ProductRow(a.buffer, b.buffer, k, n, i)[..j + 1] == ProductRow(a.buffer, b.buffer, k, n, i)[..j] + [sum];
        buffer := buffer + [sum];
      }
      assert ProductRow(a.buffer, b.buffer, k, n, i)[..n] == ProductRow(a.buffer, b.buffer, k, n, i);
      ProductStep(i, k);
    }
    return Success(From(buffer, Some([m, n]), None));
  }

  /** A successful `matmul` is the contiguous `[m, n]` array holding the
      product of `a` read as `m x k` and `b` read as `k x n`. */
  lemma MatmulSound(a: NdArray, b: NdArray)
    requires MatmulSpec(a, b).Success?
    ensures |a.shape| == |b.shape| == 2
    ensures var c := MatmulSpec(a, b).value;
      && c.shape == [a.shape[0], b.shape[1]] && Contiguous(c)
      && IsProduct(c.buffer, a.buffer, b.buffer, a.shape[0], a.shape[1], b.shape[1])
  {
    Matops.MatmulSound(a.buffer, a.shape, b.buffer, b.shape);
    Shape2(a.shape[0], b.shape[1]);
  }

  /** The crate's matmul test: `[[1,2,3],[4,5,6]]` times its reshape to
      [3, -1] is `[[22, 28], [49, 64]]`. */
  lemma MatmulExample(a: NdArray)
    requires a == From([1.0, 2.0, 3.0, 4.0, 5.0, 6.0], Some([2, 3]), None)
    ensures ReshapeFixed(a, [3, -1]).Success?
    ensures MatmulSpec(a, ReshapeFixed(a, [3, -1]).value).Success?
    ensures MatmulSpec(a, ReshapeFixed(a, [3, -1]).value).value.shape == [2, 2]
    ensures MatmulSpec(a, ReshapeFixed(a, [3, -1]).value).value.buffer == [22.0, 28.0, 49.0, 64.0]
  {
    ReshapeExample(a);
    MatProdExample(a.buffer);
  }

  /* ---------------------------------------------------------------------- */
  /* Cell-by-cell operations                                                  */

  /** Every cell times `x` (`mul_scalar`). */
  function Scaled(s: seq<real>, x: real): (r: seq<real>)
    ensures |r| == |s|
  {
    seq(|s|, i requires 0 <= i < |s| => s[i] * x)
  }

  /** Every cell plus `x` (`add_scalar`; `sub_scalar` adds `-x`). */
  function Shifted(s: seq<real>, x: real): (r: seq<real>)
    ensures |r| == |s|
  {
    seq(|s|, i requires 0 <= i < |s| => s[i] + x)
  }

  /** Cell `i` of `s` times cell `i` of `t` (`dot`). */
  function Products(s: seq<real>, t: seq<real>): (r: seq<real>)
    requires |s| <= |t|
    ensures |r| == |s|
  {
    seq(|s|, i requires 0 <= i < |s| => s[i] * t[i])
  }

  /** Cell `i` of `s` minus cell `i` of `t` (`sub`). */
  function Differences(s: seq<real>, t: seq<real>): (r: seq<real>)
    requires |s| <= |t|
    ensures |r| == |s|
  {
    seq(|s|, i requires 0 <= i < |s| => s[i] - t[i])
  }

  /** Cell `i` of `s` plus cell `i mod |t|` of `t` (`add`). */
  function CyclicSums(s: seq<real>, t: seq<real>): (r: seq<real>)
    requires |t| > 0
    ensures |r| == |s|
  {
    seq(|s|, i requires 0 <= i < |s| => s[i] + t[i % |t|])
  }

  function Max0(x: real): real
  {
    if 0.0 < x then x else 0.0
  }

  /** Every cell clamped below at zero (`relu`, `f32::max(0.0, x)`). */
  function Rectified(s: seq<real>): (r: seq<real>)
    ensures |r| == |s|
  {
    seq(|s|, i requires 0 <= i < |s| => Max0(s[i]))
  }

  /** A fresh buffer holding a copy of `s` (`clone`). */
  method CloneBuffer(s: seq<real>) returns (buf: array<real>)
    ensures fresh(buf) && buf[..] == s
  {
    buf := new real[|s|](i requires 0 <= i < |s| => s[i]);
  }

  /** `mul_scalar(a, b)`: the clone of `a` with every cell multiplied by `b`. */
  method MulScalar(a: NdArray, x: real) returns (c: NdArray)
    ensures c == NdArray(Scaled(a.buffer, x), a.strides, a.shape)
  {
    var buf := CloneBuffer(a.buffer);
    for i := 0 to buf.Length
      invariant buf.Length == |a.buffer|
      invariant forall j :: 0 <= j < i ==> buf[j] == Scaled(a.buffer, x)[j]
      invariant forall j :: i <= j < buf.Length ==> buf[j] == a.buffer[j]
    {
      buf[i] := a.buffer[i] * x;
    }
    assert buf[..] == Scaled(a.buffer, x);
    c := NdArray(buf[..], a.strides, a.shape);
  }

  /** `add_scalar(a, b)`: the clone of `a` with `b` added to every cell. */
  method AddScalar(a: NdArray, x: real) returns (c: NdArray)
    ensures c == NdArray(Shifted(a.buffer, x), a.strides, a.shape)
  {
    var buf := CloneBuffer(a.buffer);
    for i := 0 to buf.Length
      invariant buf.Length == |a.buffer|
      invariant forall j :: 0 <= j < i ==> buf[j] == Shifted(a.buffer, x)[j]
      invariant forall j :: i <= j < buf.Length ==> buf[j] == a.buffer[j]
    {
      buf[i] := a.buffer[i] + x;
    }
    assert buf[..] == Shifted(a.buffer, x);
    c := NdArray(buf[..], a.strides, a.shape);
  }

  /** `sub_scalar(a, b)`: the clone of `a` with `b` subtracted from every
      cell. */
  method SubScalar(a: NdArray, x: real) returns (c: NdArray)
    ensures c == NdArray(Shifted(a.buffer, -x), a.strides, a.shape)
  {
    var buf := CloneBuffer(a.buffer);
    for i := 0 to buf.Length
      invariant buf.Length == |a.buffer|
      invariant forall j :: 0 <= j < i ==> buf[j] == Shifted(a.buffer, -x)[j]
      invariant forall j :: i <= j < buf.Length ==> buf[j] == a.buffer[j]
    {
      buf[i] := a.buffer[i] - x;
    }
    assert buf[..] == Shifted(a.buffer, -x);
    c := NdArray(buf[..], a.strides, a.shape);
  }

  /** `relu(a)`: the clone of `a` with every cell replaced by
      `max(0, cell)`. */
  method Relu(a: NdArray) returns (c: NdArray)
    ensures c == NdArray(Rectified(a.buffer), a.strides, a.shape)
  {
    var buf := CloneBuffer(a.buffer);
    for i := 0 to buf.Length
      invariant buf.Length == |a.buffer|
      invariant forall j :: 0 <= j < i ==> buf[j] == Rectified(a.buffer)[j]
      invariant forall j :: i <= j < buf.Length ==> buf[j] == a.buffer[j]
    {
      buf[i] := if 0.0 < a.buffer[i] then a.buffer[i] else 0.0;
    }
    assert buf[..] == Rectified(a.buffer);
    c := NdArray(buf[..], a.strides, a.shape);
  }

  /** `dot(a, b)`: the clone of `a` with cell `i` multiplied by cell `i` of
      `b`; a `b` with fewer cells panics at its first missing cell. */
  method Dot(a: NdArray, b: NdArray) returns (r: Result<NdArray>)
    ensures r.Failure? <==> |b.buffer| < |a.buffer|
    ensures r.Success? ==> r.value == NdArray(Products(a.buffer, b.buffer), a.strides, a.shape)
  {
    var buf := CloneBuffer(a.buffer);
    for i := 0 to buf.Length
      invariant buf.Length == |a.buffer| && i <= |b.buffer|
      invariant forall j :: 0 <= j < i ==> buf[j] == a.buffer[j] * b.buffer[j]
      invariant forall j :: i <= j < buf.Length ==> buf[j] == a.buffer[j]
    {
      if i >= |b.buffer| {
        return Failure("index out of bounds");
      }
      buf[i] := a.buffer[i] * b.buffer[i];
    }
    forall j | 0 <= j < |a.buffer|
      ensures buf[j] == Products(a.buffer, b.buffer)[j]
    {
    }
    assert buf[..] == Products(a.buffer, b.buffer);
    return Success(NdArray(buf[..], a.strides, a.shape));
  }

  /** `sub(a, b)`: the clone of `a` with cell `i` of `b` subtracted from
      cell `i`; a `b` with fewer cells panics at its first missing cell. */
  method Sub(a: NdArray, b: NdArray) returns (r: Result<NdArray>)
    ensures r.Failure? <==> |b.buffer| < |a.buffer|
    ensures r.Success? ==> r.value == NdArray(Differences(a.buffer, b.buffer), a.strides, a.shape)
  {
    var buf := CloneBuffer(a.buffer);
    for i := 0 to buf.Length
      invariant buf.Length == |a.buffer| && i <= |b.buffer|
      invariant forall j :: 0 <= j < i ==> buf[j] == a.buffer[j] - b.buffer[j]
      invariant forall j :: i <= j < buf.Length ==> buf[j] == a.buffer[j]
    {
      if i >= |b.buffer| {
        return Failure("index out of bounds");
      }
      buf[i] := a.buffer[i] - b.buffer[i];
    }
    assert buf[..] == Differences(a.buffer, b.buffer);
    return Success(NdArray(buf[..], a.strides, a.shape));
  }

  const RemainderByZero: string := "attempt to calculate the remainder with a divisor of zero"
  const UnequalShapes: string := "not yet implemented: Not implemented for matrices with unequal shapes"

  /** `add(a, b)`: `b`'s cells are repeated cyclically over `a`'s, which
      needs `|b|` to divide `|a|`; an empty `b` panics on the remainder. */
  method Add(a: NdArray, b: NdArray) returns (r: Result<NdArray>)
    ensures |b.buffer| == 0 ==> r == Failure(RemainderByZero)
    ensures |b.buffer| > 0 && |a.buffer| % |b.buffer| != 0 ==> r == Failure(UnequalShapes)
    ensures |b.buffer| > 0 && |a.buffer| % |b.buffer| == 0 ==>
      r == Success(NdArray(CyclicSums(a.buffer, b.buffer), a.strides, a.shape))
  {
    if |b.buffer| == 0 {
      return Failure(RemainderByZero);
    }
    if |a.buffer| % |b.buffer| != 0 {
      return Failure(UnequalShapes);
    }
    var buf := CloneBuffer(a.buffer);
    for i := 0 to buf.Length
      invariant buf.Length == |a.buffer|
      invariant forall j :: 0 <= j < i ==> buf[j] == CyclicSums(a.buffer, b.buffer)[j]
      invariant forall j :: i <= j < buf.Length ==> buf[j] == a.buffer[j]
    {
      buf[i] := a.buffer[i] + b.buffer[i % |b.buffer|];
    }
    assert buf[..] == CyclicSums(a.buffer, b.buffer);
    return Success(NdArray(buf[..], a.strides, a.shape));
  }

  /* ---------------------------------------------------------------------- */
  /* Laws of the cell-by-cell operations                                      */

  /** Scaling twice scales by the product, and scaling by 1 changes nothing. */
  lemma ScaledCompose(s: seq<real>, x: real, y: real)
    ensures Scaled(Scaled(s, x), y) == Scaled(s, x * y)
    ensures Scaled(s, 1.0) == s
  {
    forall i | 0 <= i < |s|
      ensures Scaled(Scaled(s, x), y)[i] == Scaled(s, x * y)[i]
    {
      assert Scaled(s, x)[i] * y == s[i] * (x * y);
    }
  }

  /** `sub_scalar` by `x` undoes `add_scalar` by `x`, and the other way
      round. */
  lemma ShiftRoundTrip(s: seq<real>, x: real)
    ensures Shifted(Shifted(s, x), -x) == s
    ensures Shifted(Shifted(s, -x), x) == s
  {
  }

  /** `sub` by `b` undoes `add` of an equally long `b`, which then adds cell
      by cell. */
  lemma AddSubRoundTrip(s: seq<real>, t: seq<real>)
    requires |s| == |t| > 0
    ensures forall i :: 0 <= i < |s| ==> CyclicSums(s, t)[i] == s[i] + t[i]
    ensures Differences(CyclicSums(s, t), t) == s
  {
    forall i | 0 <= i < |s|
      ensures CyclicSums(s, t)[i] == s[i] + t[i]
    {
      DivModUnique(i, |t|, 0, i);
    }
    assert Differences(CyclicSums(s, t), t) == s;
  }

  /** With `|a| = q * |b|`, `add` adds `b` to each of the `q` consecutive
      blocks of `a`: the trailing-axes broadcast. */
  lemma CyclicSumsBlocks(s: seq<real>, t: seq<real>, q: nat, v: nat)
    requires |t| > 0 && v < |t| && q * |t| + v < |s|
    ensures CyclicSums(s, t)[q * |t| + v] == s[q * |t| + v] + t[v]
  {
    DivModUnique(q * |t| + v, |t|, q, v);
  }

  /** `dot` of equally long buffers does not depend on the operand order. */
  lemma ProductsCommute(s: seq<real>, t: seq<real>)
    requires |s| == |t|
    ensures Products(s, t) == Products(t, s)
  {
  }

  /** `relu` yields no negative cell, keeps the non-negative ones and is
      idempotent. */
  lemma RectifiedLaws(s: seq<real>)
    ensures forall i :: 0 <= i < |s| ==> Rectified(s)[i] >= 0.0
    ensures forall i :: 0 <= i < |s| && s[i] >= 0.0 ==> Rectified(s)[i] == s[i]
    ensures Rectified(Rectified(s)) == Rectified(s)
  {
  }

  /** The crate's add test: zeros of shape [2, 2, 2] plus `arange(4)`
      reshaped to [2, 2] repeats 0, 1, 2, 3 twice. */
  lemma AddExample(a: NdArray, b: NdArray)
    requires a == Zeros([2, 2, 2]) && b.buffer == [0.0, 1.0, 2.0, 3.0]
    ensures |a.buffer| % |b.buffer| == 0
    ensures CyclicSums(a.buffer, b.buffer) == [0.0, 1.0, 2.0, 3.0, 0.0, 1.0, 2.0, 3.0]
  {
    Shape3(2, 2, 2);
    var c := CyclicSums(a.buffer, b.buffer);
    assert |c| == 8;
    forall i | 0 <= i < 8
      ensures c[i] == [0.0, 1.0, 2.0, 3.0][i % 4]
    {
      assert a.buffer[i] == 0.0;
    }
  }
}
