/** Padding in `packages/ndarray/src/ops.rs`: `pad_x_1d` frames every row
    (last axis) with pad cells, `pad_y_2d` frames every trailing 2-D block
    with pad rows, and `padding_1d` applies one, the other or both. */
module RustPad {
  import opened Wrappers
  import opened IndexMath
  import opened RustNdArray

  /** `n` cells of value `v` (`vec![v; n]`). */
  function Fill(n: nat, v: real): (r: seq<real>)
    ensures |r| == n && forall i :: 0 <= i < n ==> r[i] == v
  {
    seq(n, _ => v)
  }

  /** `pad` written `n` times in a row. */
  function Repeat(pad: seq<real>, n: nat): seq<real>
  {
    if n == 0 then [] else Repeat(pad, n - 1) + pad
  }

  /** Writing a `w`-cell run of `v` `n` times writes `Span(n, w)`, that is
      `n * w`, cells of `v`. */
  lemma {:induction false} RepeatFill(w: nat, v: real, n: nat)
    ensures Repeat(Fill(w, v), n) == Fill(Span(n, w), v)
  {
    if n > 0 {
      RepeatFill(w, v, n - 1);
      assert Fill(Span(n - 1, w), v) + Fill(w, v) == Fill(Span(n, w), v);
    }
  }

  /** `buf` cut into chunks of `w` cells (the last one may be shorter, as
      with `chunks`), each written between two copies of `pad`. */
  function Framed(buf: seq<real>, w: nat, pad: seq<real>): seq<real>
    requires w > 0
    decreases |buf|
  {
    if |buf| == 0 then []
    else if |buf| <= w then pad + buf + pad
    else pad + buf[..w] + pad + Framed(buf[w..], w, pad)
  }

  /** Cell `c` of framed row `r`: the leading pad, then row `r` of `buf`,
      then the trailing pad. */
  predicate IsFramedCell(out: seq<real>, buf: seq<real>, w: nat, pad: seq<real>, r: nat, c: nat)
  {
    IsFramedCellAt(out, buf, w, pad, r * (w + 2 * |pad|), r * w, c)
  }

  /** Cell `c` of the framed row that starts at `k` in `out` and frames the
      row that starts at `j` in `buf`. */
  predicate IsFramedCellAt(out: seq<real>, buf: seq<real>, w: nat, pad: seq<real>, k: int, j: int, c: nat)
  {
    var p := |pad|;
    && 0 <= k && 0 <= j && c < w + 2 * p && j + w <= |buf| && k + c < |out|
    && out[k + c] == if c < p then pad[c] else if c < p + w then buf[j + (c - p)] else pad[c - p - w]
  }

  /** `out` is `buf`, read as `q` rows of `w` cells, with every row framed by
      `pad`. */
  predicate FramedRows(out: seq<real>, buf: seq<real>, w: nat, pad: seq<real>, q: int)
  {
    && |out| == q * (w + 2 * |pad|)
    && forall r: nat, c: nat :: r < q && c < w + 2 * |pad| ==> IsFramedCell(out, buf, w, pad, r, c)
  }

  lemma {:induction false} FramedLength(buf: seq<real>, w: nat, pad: seq<real>, q: nat)
    requires w > 0 && |buf| == q * w
    ensures |Framed(buf, w, pad)| == q * (w + 2 * |pad|)
    decreases q
  {
    if q > 1 {
      MulSucc(q, w);
      FramedLength(buf[w..], w, pad, q - 1);
      MulSucc(q, w + 2 * |pad|);
    } else if q == 1 {
      assert |buf| == w;
    }
  }

  /** A buffer of at least one full chunk frames its first chunk, then the
      rest. */
  lemma FramedHead(buf: seq<real>, w: nat, pad: seq<real>)
    requires w > 0 && |buf| >= w
    ensures Framed(buf, w, pad) == pad + buf[..w] + pad + Framed(buf[w..], w, pad)
  {
    if |buf| == w {
      assert buf[..w] == buf;
      assert |buf[w..]| == 0;
    }
  }

  /** One step of the chunk loop. */
  lemma FramedStep(rest: seq<real>, w: nat, pad: seq<real>)
    requires w > 0 && |rest| > 0
    ensures Framed(rest, w, pad) == pad + NextChunk(rest, w) + pad + Framed(AfterChunk(rest, w), w, pad)
  {
  }

  /** Cell `c` of the framed first chunk. */
  lemma FrontCell(front: seq<real>, head: seq<real>, pad: seq<real>, x: seq<real>, c: nat)
    requires front == pad + head + pad && c < |front|
    ensures (front + x)[c]
      == if c < |pad| then pad[c] else if c < |pad| + |head| then head[c - |pad|] else pad[c - |pad| - |head|]
  {
  }

  lemma BackCell(front: seq<real>, x: seq<real>, k: nat)
    requires k < |x|
    ensures (front + x)[|front| + k] == x[k]
  {
  }

  /** One framed cell, by induction on the row. */
  lemma {:induction false} FramedAt(buf: seq<real>, w: nat, pad: seq<real>, q: nat, r: nat, c: nat)
    requires w > 0 && |buf| == q * w && r < q && c < w + 2 * |pad|
    ensures IsFramedCell(Framed(buf, w, pad), buf, w, pad, r, c)
    decreases r
  {
    RowBelow(0, q, w);
    FramedHead(buf, w, pad);
    MulSucc(q, w);
    if r == 0 {
      FirstRowCell(buf, w, pad, Framed(buf[w..], w, pad), c);
    } else {
      FramedAt(buf[w..], w, pad, q - 1, r - 1, c);
      NextRowCell(buf, w, pad, Framed(buf[w..], w, pad), r, c);
    }
  }

  lemma FirstRowCell(buf: seq<real>, w: nat, pad: seq<real>, x: seq<real>, c: nat)
    requires w <= |buf| && c < w + 2 * |pad|
    ensures IsFramedCell(pad + buf[..w] + pad + x, buf, w, pad, 0, c)
  {
    FrontCell(pad + buf[..w] + pad, buf[..w], pad, x, c);
  }

  /** A cell of a later row is the same cell, one row up, of the frames of
      the buffer after its first chunk. */
  lemma NextRowCell(buf: seq<real>, w: nat, pad: seq<real>, x: seq<real>, r: nat, c: nat)
    requires w <= |buf| && 0 < r && IsFramedCell(x, buf[w..], w, pad, r - 1, c)
    ensures IsFramedCell(pad + buf[..w] + pad + x, buf, w, pad, r, c)
  {
    var p := |pad|;
    MulSucc(r, w + 2 * p);
    MulSucc(r, w);
    ShiftCell(pad + buf[..w] + pad, x, buf, w, pad, c, (r - 1) * (w + 2 * p), (r - 1) * w);
  }

  /** Putting a framed first chunk in front shifts a framed cell by one
      row. */
  lemma ShiftCell(front: seq<real>, x: seq<real>, buf: seq<real>, w: nat, pad: seq<real>, c: nat, k: int, j: int)
    requires |front| == w + 2 * |pad| && w <= |buf|
    requires IsFramedCellAt(x, buf[w..], w, pad, k, j, c)
    ensures IsFramedCellAt(front + x, buf, w, pad, |front| + k, j + w, c)
  {
    BackCell(front, x, k + c);
  }

  lemma RowBelow(r: nat, q: nat, w: nat)
    requires r < q
    ensures r * w + w <= q * w
  {
    assert (r + 1) * w <= q * w by {
      assert r + 1 <= q;
    }
    MulSucc(r + 1, w);
  }

  lemma FramedIsFramedRows(buf: seq<real>, w: nat, pad: seq<real>, q: nat)
    requires w > 0 && |buf| == q * w
    ensures FramedRows(Framed(buf, w, pad), buf, w, pad, q)
  {
    FramedLength(buf, w, pad, q);
    forall r: nat, c: nat | r < q && c < w + 2 * |pad|
      ensures IsFramedCell(Framed(buf, w, pad), buf, w, pad, r, c)
    {
      FramedAt(buf, w, pad, q, r, c);
    }
  }

  /** The next chunk of `chunks(w)` and what follows it. */
  function NextChunk(rest: seq<real>, w: nat): seq<real>
  {
    if |rest| <= w then rest else rest[..w]
  }

  function AfterChunk(rest: seq<real>, w: nat): (r: seq<real>)
    ensures |rest| > 0 && w > 0 ==> |r| < |rest|
  {
    if |rest| <= w then [] else rest[w..]
  }

  /** The chunk loop of `pad_x_1d`: each chunk of `w` cells is pushed
      between two copies of `pad`. */
  method FrameRows(buf: seq<real>, w: nat, pad: seq<real>) returns (buffer: seq<real>)
    requires w > 0
    ensures buffer == Framed(buf, w, pad)
  {
    buffer := [];
    var rest := buf;
    while |rest| > 0
      invariant buffer + Framed(rest, w, pad) == Framed(buf, w, pad)
      decreases |rest|
    {
      FramedStep(rest, w, pad);
      var chunk := NextChunk(rest, w);
      buffer := buffer + pad;
      buffer := buffer + chunk;
      buffer := buffer + pad;
      rest := AfterChunk(rest, w);
    }
  }

  /** The chunk loop of `pad_y_2d`: before and after each chunk, `pad` is
      pushed `size` times. */
  method FrameBlocks(buf: seq<real>, chunkSize: nat, pad: seq<real>, size: nat) returns (buffer: seq<real>)
    requires chunkSize > 0
    ensures buffer == Framed(buf, chunkSize, Repeat(pad, size))
  {
    buffer := [];
    var rest := buf;
    while |rest| > 0
      invariant buffer + Framed(rest, chunkSize, Repeat(pad, size)) == Framed(buf, chunkSize, Repeat(pad, size))
      decreases |rest|
    {
      FramedStep(rest, chunkSize, Repeat(pad, size));
      var chunk := NextChunk(rest, chunkSize);
      ghost var before := buffer;
      buffer := PushPads(buffer, pad, size);
      buffer := buffer + chunk;
      buffer := PushPads(buffer, pad, size);
      Regroup(before, Repeat(pad, size), chunk, Framed(AfterChunk(rest, chunkSize), chunkSize, Repeat(pad, size)));
      rest := AfterChunk(rest, chunkSize);
    }
  }

  lemma Regroup(b: seq<real>, p: seq<real>, c: seq<real>, f: seq<real>)
    ensures b + p + c + p + f == b + (p + c + p + f)
  {
  }

  lemma UpdateLast(s: seq<nat>, x: nat)
    requires |s| > 0
    ensures s[|s| - 1 := x] == s[..|s| - 1] + [x]
  {
  }

  lemma UpdateSecondLast(s: seq<nat>, x: nat)
    requires |s| > 1
    ensures s[|s| - 2 := x] == s[..|s| - 2] + [x, s[|s| - 1]]
  {
  }

  const SubtractOverflow: string := "attempt to subtract with overflow"
  const ZeroChunk: string := "chunk size must be non-zero"

  /* ---------------------------------------------------------------------- */
  /* pad_x_1d                                                                 */

  /** `pad_x_1d(a, size, value)`: size 0 is a clone; otherwise the last
      extent grows by `2 * size` and every row of the last axis gets `size`
      pad cells (default 0) on each side. */
  function PadX1dSpec(a: NdArray, size: nat, value: Option<real>): Result<NdArray>
  {
    if size == 0 then Success(a)
    else if |a.shape| == 0 then Failure(SubtractOverflow)
    else
      var w := a.shape[|a.shape| - 1];
      if w == 0 then Failure(ZeroChunk)
      else
        var pad := Fill(size, if value.Some? then value.value else 0.0);
        Success(From(Framed(a.buffer, w, pad), Some(a.shape[|a.shape| - 1 := w + 2 * size]), None))
  }

  method PadX1d(a: NdArray, size: nat, value: Option<real>) returns (r: Result<NdArray>)
    ensures r == PadX1dSpec(a, size, value)
  {
    if size == 0 {
      return Success(a);
    }
    if |a.shape| == 0 {
      return Failure(SubtractOverflow);
    }
    var shape := a.shape[|a.shape| - 1 := a.shape[|a.shape| - 1] + size * 2];
    var pad := Fill(size, if value.Some? then value.value else 0.0);
    var w := a.shape[|a.shape| - 1];
    if w == 0 {
      return Failure(ZeroChunk);
    }
    var buffer := FrameRows(a.buffer, w, pad);
    return Success(From(buffer, Some(shape), None));
  }

  /** On a contiguous array with rows of `w > 0` cells, `pad_x_1d` gives the
      contiguous array of shape `[..., w + 2*size]` whose every row is `size`
      pads, the original row, `size` pads. */
  lemma PadX1dSound(a: NdArray, size: nat, value: Option<real>)
    requires Contiguous(a) && |a.shape| > 0 && a.shape[|a.shape| - 1] > 0 && size > 0
    ensures PadX1dSpec(a, size, value).Success?
    ensures var n, w := |a.shape|, a.shape[|a.shape| - 1];
      var r := PadX1dSpec(a, size, value).value;
      && Contiguous(r)
      && |r.shape| == n && r.shape[..n - 1] == a.shape[..n - 1] && r.shape[n - 1] == w + 2 * size
      && FramedRows(r.buffer, a.buffer, w, Fill(size, if value.Some? then value.value else 0.0),
                    Product(a.shape[..n - 1]))
  {
    var w := a.shape[|a.shape| - 1];
    var init := a.shape[..|a.shape| - 1];
    var r := PadX1dSpec(a, size, value).value;
    assert a.shape[|a.shape| - 1 := w] == a.shape;
    ProductLast(a.shape, w);
    ProductLast(a.shape, w + 2 * size);
    ProductNonNeg(init);
    FramedContiguous(a.buffer, w, Fill(size, if value.Some? then value.value else 0.0), Product(init), r.shape);
    assert r.shape[..|a.shape| - 1] == init;
  }

  /** The product of a shape with its last extent set to `x`. */
  lemma ProductLast(s: seq<nat>, x: nat)
    requires |s| > 0
    ensures Product(s[|s| - 1 := x]) == Product(s[..|s| - 1]) * x
  {
    UpdateLast(s, x);
    ProductSnoc(s[..|s| - 1], x);
  }

  /** The crate's pad test: `[[1,2],[3,4]]` padded by 1 is
      `[[0,1,2,0],[0,3,4,0]]`. */
  lemma PadX1dExample(a: NdArray)
    requires a == From([1.0, 2.0, 3.0, 4.0], Some([2, 2]), None)
    ensures PadX1dSpec(a, 1, None) == Success(From([0.0, 1.0, 2.0, 0.0, 0.0, 3.0, 4.0, 0.0], Some([2, 4]), None))
  {
    var pad := Fill(1, 0.0);
    assert pad == [0.0];
    FramedHead(a.buffer, 2, pad);
    assert a.buffer[..2] == [1.0, 2.0] && a.buffer[2..] == [3.0, 4.0];
    assert Framed([3.0, 4.0], 2, pad) == pad + [3.0, 4.0] + pad;
    assert Framed(a.buffer, 2, pad) == [0.0, 1.0, 2.0, 0.0, 0.0, 3.0, 4.0, 0.0];
    assert a.shape[1 := 2 + 2 * 1] == [2, 4];
  }

  /** The same test's second case: `[[1,2,3,4]]` padded by 2 with 1 is
      `[[1,1,1,2,3,4,1,1]]`. */
  lemma PadX1dValueExample(a: NdArray)
    requires a == From([1.0, 2.0, 3.0, 4.0], Some([1, 4]), None)
    ensures PadX1dSpec(a, 2, Some(1.0)) == Success(From([1.0, 1.0, 1.0, 2.0, 3.0, 4.0, 1.0, 1.0], Some([1, 8]), None))
  {
    var pad := Fill(2, 1.0);
    assert pad == [1.0, 1.0];
    assert Framed(a.buffer, 4, pad) == pad + a.buffer + pad;
    assert pad + a.buffer + pad == [1.0, 1.0, 1.0, 2.0, 3.0, 4.0, 1.0, 1.0];
    assert a.shape[1 := 4 + 2 * 2] == [1, 8];
  }

  /* ---------------------------------------------------------------------- */
  /* pad_y_2d                                                                 */

  /** `pad_y_2d(a, size, value)`: size 0 is a clone; otherwise the
      second-to-last extent grows by `2 * size` and every trailing 2-D block
      of `Span(h, w) == h * w` cells gets `size` pad rows (as wide as the
      last axis) above and below. */
  function PadY2dSpec(a: NdArray, size: nat, value: Option<real>): Result<NdArray>
  {
    if size == 0 then Success(a)
    else if |a.shape| < 2 then Failure(SubtractOverflow)
    else
      var h, w := a.shape[|a.shape| - 2], a.shape[|a.shape| - 1];
      if Span(h, w) == 0 then Failure(ZeroChunk)
      else
        var pad := Fill(w, if value.Some? then value.value else 0.0);
        Success(From(Framed(a.buffer, Span(h, w), Repeat(pad, size)), Some(a.shape[|a.shape| - 2 := h + 2 * size]), None))
  }

  /** `size` copies of `pad` appended to `buffer`. */
  method PushPads(buffer: seq<real>, pad: seq<real>, size: nat) returns (out: seq<real>)
    ensures out == buffer + Repeat(pad, size)
  {
    out := buffer;
    for t := 0 to size
      invariant out == buffer + Repeat(pad, t)
    {
      out := out + pad;
    }
  }

  /** The block size `shape[len - 1] * shape[len - 2]` is computed as
      `Span(h, w)`, the same number (`IndexMath.SpanIsProduct`). */
  method PadY2d(a: NdArray, size: nat, value: Option<real>) returns (r: Result<NdArray>)
    ensures r == PadY2dSpec(a, size, value)
  {
    if size == 0 {
      return Success(a);
    }
    if |a.shape| < 2 {
      return Failure(SubtractOverflow);
    }
    r := PadBlocks(a, size, value);
  }

  /** The part of `pad_y_2d` past its two early exits. */
  method PadBlocks(a: NdArray, size: nat, value: Option<real>) returns (r: Result<NdArray>)
    requires size > 0 && |a.shape| >= 2
    ensures r == PadY2dSpec(a, size, value)
  {
    var h, w := a.shape[|a.shape| - 2], a.shape[|a.shape| - 1];
    var shape := a.shape[|a.shape| - 2 := h + 2 * size];
    var pad := Fill(w, if value.Some? then value.value else 0.0);
    var chunkSize := Span(h, w);
    if chunkSize == 0 {
      return Failure(ZeroChunk);
    }
    var buffer := FrameBlocks(a.buffer, chunkSize, pad, size);
    SpanPositive(h, w);
    PadY2dRows(a, size, value);
    return Success(From(buffer, Some(shape), None));
  }

  /** A block has cells exactly when both of its extents are positive. */
  lemma {:induction false} SpanPositive(h: nat, w: nat)
    ensures Span(h, w) > 0 <==> h > 0 && w > 0
  {
    if h > 0 {
      SpanPositive(h - 1, w);
    }
  }

  lemma ProductOfBlocks(init: seq<nat>, h: nat, w: nat)
    ensures Product(init + [h, w]) == Product(init) * (h * w)
  {
    ProductConcat(init, [h, w]);
    ProductExample([h, w]);
  }

  /** `pad_y_2d` frames each block with `size * w` pad cells, as one run. */
  lemma PadY2dValue(a: NdArray, size: nat, value: Option<real>)
    requires |a.shape| >= 2 && size > 0
    requires a.shape[|a.shape| - 2] > 0 && a.shape[|a.shape| - 1] > 0
    ensures PadY2dSpec(a, size, value).Success?
    ensures var h, w := a.shape[|a.shape| - 2], a.shape[|a.shape| - 1];
      PadY2dSpec(a, size, value)
      == Success(From(Framed(a.buffer, Span(h, w), Fill(Span(size, w), if value.Some? then value.value else 0.0)),
                      Some(a.shape[|a.shape| - 2 := h + 2 * size]), None))
  {
    var h, w := a.shape[|a.shape| - 2], a.shape[|a.shape| - 1];
    var v := if value.Some? then value.value else 0.0;
    PadY2dRows(a, size, value);
    RepeatFill(w, v, size);
  }

  /** The result of `pad_y_2d` with its pad written as `size` rows. */
  lemma PadY2dRows(a: NdArray, size: nat, value: Option<real>)
    requires |a.shape| >= 2 && size > 0
    requires a.shape[|a.shape| - 2] > 0 && a.shape[|a.shape| - 1] > 0
    ensures PadY2dSpec(a, size, value).Success?
    ensures var h, w := a.shape[|a.shape| - 2], a.shape[|a.shape| - 1];
      PadY2dSpec(a, size, value)
      == Success(From(Framed(a.buffer, Span(h, w), Repeat(Fill(w, if value.Some? then value.value else 0.0), size)),
                      Some(a.shape[|a.shape| - 2 := h + 2 * size]), None))
  {
    var h, w := a.shape[|a.shape| - 2], a.shape[|a.shape| - 1];
    SpanPositive(h, w);
  }

  /** On a contiguous array of `h x w` blocks with `h, w > 0`, `pad_y_2d`
      gives the contiguous array of shape `[..., h + 2*size, w]` whose every
      block of `Span(h, w)` cells is framed by `Span(size, w)` pads on each
      side. */
  lemma PadY2dSound(a: NdArray, size: nat, value: Option<real>)
    requires Contiguous(a) && |a.shape| >= 2 && size > 0
    requires a.shape[|a.shape| - 2] > 0 && a.shape[|a.shape| - 1] > 0
    ensures PadY2dSpec(a, size, value).Success?
    ensures var n, h, w := |a.shape|, a.shape[|a.shape| - 2], a.shape[|a.shape| - 1];
      var r := PadY2dSpec(a, size, value).value;
      && Contiguous(r)
      && |r.shape| == n && r.shape[..n - 2] == a.shape[..n - 2] && r.shape[n - 2] == h + 2 * size && r.shape[n - 1] == w
      && FramedRows(r.buffer, a.buffer, Span(h, w), Fill(Span(size, w), if value.Some? then value.value else 0.0),
                    Product(a.shape[..n - 2]))
  {
    var h, w := a.shape[|a.shape| - 2], a.shape[|a.shape| - 1];
    var pad := Fill(Span(size, w), if value.Some? then value.value else 0.0);
    PadY2dValue(a, size, value);
    var q, shape := PadSizes(a, size, pad);
  }

  /** The shape and sizes `pad_y_2d` relies on: the shape with its
      second-to-last extent grown by `2 * size`, and `q` blocks of `h x w`
      cells before, `q` blocks of `(h + 2*size) x w` cells after. */
  lemma PadSizes(a: NdArray, size: nat, pad: seq<real>) returns (q: nat, shape: seq<nat>)
    requires Contiguous(a) && |a.shape| >= 2 && |pad| == Span(size, a.shape[|a.shape| - 1])
    requires a.shape[|a.shape| - 2] > 0 && a.shape[|a.shape| - 1] > 0
    ensures var n, h, w := |a.shape|, a.shape[|a.shape| - 2], a.shape[|a.shape| - 1];
      && shape == a.shape[n - 2 := h + 2 * size]
      && |shape| == n && shape[..n - 2] == a.shape[..n - 2] && shape[n - 2] == h + 2 * size && shape[n - 1] == w
      && q == Product(a.shape[..n - 2])
      && |a.buffer| == q * Span(h, w)
      && Contiguous(From(Framed(a.buffer, Span(h, w), pad), Some(shape), None))
      && FramedRows(Framed(a.buffer, Span(h, w), pad), a.buffer, Span(h, w), pad, q)
  {
    var h, w := a.shape[|a.shape| - 2], a.shape[|a.shape| - 1];
    var init := a.shape[..|a.shape| - 2];
    shape := a.shape[|a.shape| - 2 := h + 2 * size];
    ProductNonNeg(init);
    q := Product(init);
    assert a.shape[|a.shape| - 2 := h] == a.shape;
    ProductSecondLast(a.shape, h);
    ProductSecondLast(a.shape, h + 2 * size);
    SpanIsProduct(h, w);
    SpanIsProduct(size, w);
    BlockArithmetic(q, h, w, size);
    SpanPositive(h, w);
    FramedContiguous(a.buffer, Span(h, w), pad, q, shape);
  }

  /** The padded block count times the padded block size is the product of
      the padded shape. */
  lemma BlockArithmetic(q: int, h: int, w: int, s: int)
    ensures q * (h * w + 2 * (s * w)) == q * ((h + 2 * s) * w)
  {
    assert h * w + 2 * (s * w) == (h + 2 * s) * w;
  }

  /** The product of a shape with its second-to-last extent set to `x`. */
  lemma ProductSecondLast(s: seq<nat>, x: nat)
    requires |s| > 1
    ensures Product(s[|s| - 2 := x]) == Product(s[..|s| - 2]) * (x * s[|s| - 1])
  {
    UpdateSecondLast(s, x);
    ProductOfBlocks(s[..|s| - 2], x, s[|s| - 1]);
  }

  /** Framing `q` chunks gives a contiguous array of any shape whose size is
      `q` framed chunks. */
  lemma FramedContiguous(buf: seq<real>, chunk: nat, pad: seq<real>, q: nat, shape: seq<nat>)
    requires chunk > 0 && |buf| == q * chunk && Product(shape) == q * (chunk + 2 * |pad|)
    ensures Contiguous(From(Framed(buf, chunk, pad), Some(shape), None))
    ensures FramedRows(Framed(buf, chunk, pad), buf, chunk, pad, q)
  {
    FramedIsFramedRows(buf, chunk, pad, q);
  }

  /* ---------------------------------------------------------------------- */
  /* padding_1d                                                               */

  /** `NdArray::padding_1d(value, px, py)`: `pad_x_1d` by `px` when it is
      positive, then `pad_y_2d` by `py` when it is positive. */
  function Padding1dSpec(a: NdArray, value: real, px: nat, py: nat): Result<NdArray>
  {
    var x :- if px > 0 then PadX1dSpec(a, px, Some(value)) else Success(a);
    if py > 0 then PadY2dSpec(x, py, Some(value)) else Success(x)
  }

  method Padding1d(a: NdArray, value: real, px: nat, py: nat) returns (r: Result<NdArray>)
    ensures r == Padding1dSpec(a, value, px, py)
  {
    var res := a;
    if px > 0 {
      var padded := PadX1d(res, px, Some(value));
      if padded.Failure? {
        return padded;
      }
      res := padded.value;
    }
    if py > 0 {
      r := PadY2d(res, py, Some(value));
      return;
    }
    return Success(res);
  }

  /** A contiguous `[H, W]` array with `W > 0` padded by `px, py > 0` is the
      contiguous `[H + 2*py, W + 2*px]` array. */
  lemma Padding1dShape(a: NdArray, value: real, px: nat, py: nat)
    requires Contiguous(a) && |a.shape| == 2 && a.shape[0] > 0 && a.shape[1] > 0 && px > 0 && py > 0
    ensures Padding1dSpec(a, value, px, py).Success?
    ensures Contiguous(Padding1dSpec(a, value, px, py).value)
    ensures Padding1dSpec(a, value, px, py).value.shape == [a.shape[0] + 2 * py, a.shape[1] + 2 * px]
  {
    PadX1dSound(a, px, Some(value));
    var x := PadX1dSpec(a, px, Some(value)).value;
    assert x.shape == [a.shape[0], a.shape[1] + 2 * px];
    PadY2dSound(x, py, Some(value));
    assert x.shape[..0] == [];
  }
}
