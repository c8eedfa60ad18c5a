/** The window arithmetic shared by both `im2col` implementations (the
    Rust one in `packages/ndarray/src/ops.rs` and the TypeScript one in
    `packages/ndarray-js/src/ops/im2col.ts`): which candidate origins fit,
    and the kernel-row slices a window of an `[H, W, C]` image is made of. */
module Windows {
  import opened Wrappers
  import opened IndexMath

  /* ---------------------------------------------------------------------- */
  /* Candidates along one axis                                                */

  /** Whether the candidate window at `i` (starting at `i * step`) ends
      inside a buffer of `len` cells. */
  predicate Fits(i: nat, step: nat, chunk: nat, len: nat)
  {
    i * step + chunk <= len
  }

  /** How many of the candidates `i < n` fit. */
  function Count(n: nat, step: nat, chunk: nat, len: nat): nat
  {
    if n == 0 then 0
    else Count(n - 1, step, chunk, len) + if Fits(n - 1, step, chunk, len) then 1 else 0
  }

  /** Fitting is closed downwards: a window that fits has every earlier one
      fitting too. */
  lemma FitsBefore(i: nat, j: nat, step: nat, chunk: nat, len: nat)
    requires j <= i && Fits(i, step, chunk, len)
    ensures Fits(j, step, chunk, len)
  {
    MulLeq(j, i, step);
  }

  /** The fitting candidates are a prefix: while every candidate fits, all
      are counted; afterwards the count stays put. */
  lemma {:induction false} CountPrefix(n: nat, step: nat, chunk: nat, len: nat)
    ensures Count(n, step, chunk, len) <= n
    ensures n > 0 && Fits(n - 1, step, chunk, len) ==> Count(n, step, chunk, len) == n
    ensures forall t: nat :: t < Count(n, step, chunk, len) ==> Fits(t, step, chunk, len)
  {
    if n > 0 {
      CountPrefix(n - 1, step, chunk, len);
      if Fits(n - 1, step, chunk, len) {
        forall t: nat | t < n ensures Fits(t, step, chunk, len) {
          FitsBefore(n - 1, t, step, chunk, len);
        }
        if n > 1 {
          FitsBefore(n - 1, n - 2, step, chunk, len);
        }
      }
    }
  }

  /** When `k >= 1` windows fit, the candidates with `i * step <= len - k`
      are exactly those below `(len - k) / step + 1`. */
  lemma {:induction false} CountClosed(n: nat, step: nat, chunk: nat, len: nat)
    requires step > 0 && chunk <= len && (len - chunk) / step < n
    ensures Count(n, step, chunk, len) == (len - chunk) / step + 1
    decreases n
  {
    var m := (len - chunk) / step;
    FitsAt(m, step, chunk, len);
    if n - 1 == m {
      CountPrefix(n, step, chunk, len);
    } else {
      CountClosed(n - 1, step, chunk, len);
      NotFitsAfter(m, n - 1, step, chunk, len);
    }
  }

  lemma FitsAt(m: nat, step: nat, chunk: nat, len: nat)
    requires step > 0 && chunk <= len && m == (len - chunk) / step
    ensures Fits(m, step, chunk, len)
  {
    assert m * step <= len - chunk;
  }

  lemma NotFitsAfter(m: nat, i: nat, step: nat, chunk: nat, len: nat)
    requires step > 0 && chunk <= len && m == (len - chunk) / step && m < i
    ensures !Fits(i, step, chunk, len)
  {
    MulLeq(m + 1, i, step);
    assert (m + 1) * step == m * step + step;
    assert len - chunk == m * step + (len - chunk) % step;
  }

  /* ---------------------------------------------------------------------- */
  /* Windows of an image                                                      */

  /** What the rank-3 branch reads: the buffer and strides of `x: [H, W, C]`,
      `H`, `W`, the kernel `kh x kw`, the stride and the row width. */
  datatype Grid = Grid(buf: seq<real>, strides: seq<nat>, h: nat, w: nat, kh: nat, kw: nat, stride: nat, chunk: nat)

  /** `nd_idx_to_offset` can be called on the strides, or is never called
      because the kernel has no rows. */
  predicate Addressable(g: Grid)
  {
    |g.strides| == 3 || g.kh == 0
  }

  /** The cells of the window at `(r, c)` from kernel row `k` on: each kernel
      row is the slice from `[r+k, c, 0]` to `[r+k, c+kw, 0]`, and the first
      slice that ends past the buffer stops the window (`break`). */
  function WindowFrom(g: Grid, r: nat, c: nat, k: nat): seq<real>
    requires Addressable(g)
    decreases g.kh - k
  {
    if k >= g.kh then []
    else
      var start, end := Offset([r + k, c, 0], g.strides), Offset([r + k, c + g.kw, 0], g.strides);
      StartBeforeEnd(g.strides, r + k, c, g.kw);
      if end > |g.buf| then [] else g.buf[start..end] + WindowFrom(g, r, c, k + 1)
  }

  lemma StartBeforeEnd(st: seq<nat>, a: nat, c: nat, kw: nat)
    requires |st| == 3
    ensures 0 <= Offset([a, c, 0], st) <= Offset([a, c + kw, 0], st)
    ensures Offset([a, c + kw, 0], st) == Offset([a, c, 0], st) + kw * st[1]
  {
    assert st == [st[0], st[1], st[2]];
    Offset3(a, c, 0, st[0], st[1], st[2]);
    Offset3(a, c + kw, 0, st[0], st[1], st[2]);
  }

  /** Whether the window at `(r, c)` is emitted: it lies inside `H x W` and
      collected a full row. */
  predicate Emitted(g: Grid, r: nat, c: nat)
    requires Addressable(g)
  {
    r + g.kh <= g.h && c + g.kw <= g.w && |WindowFrom(g, r, c, 0)| == g.chunk
  }

  /** The emitted windows of row origin `r` among the column candidates
      `j < n`, and their count. */
  function ColumnWindows(g: Grid, r: nat, n: nat): seq<real>
    requires Addressable(g)
  {
    if n == 0 then []
    else ColumnWindows(g, r, n - 1) + if Emitted(g, r, (n - 1) * g.stride) then WindowFrom(g, r, (n - 1) * g.stride, 0) else []
  }

  function ColumnCount(g: Grid, r: nat, n: nat): nat
    requires Addressable(g)
  {
    if n == 0 then 0
    else ColumnCount(g, r, n - 1) + if Emitted(g, r, (n - 1) * g.stride) then 1 else 0
  }

  /** The emitted windows of the row candidates `i < n`, each scanning the
      column candidates `j < nj`, and their count. */
  function RowWindows(g: Grid, nj: nat, n: nat): seq<real>
    requires Addressable(g)
  {
    if n == 0 then []
    else
      var r := (n - 1) * g.stride;
      RowWindows(g, nj, n - 1) + if r + g.kh <= g.h then ColumnWindows(g, r, nj) else []
  }

  function RowCount(g: Grid, nj: nat, n: nat): nat
    requires Addressable(g)
  {
    if n == 0 then 0
    else
      var r := (n - 1) * g.stride;
      RowCount(g, nj, n - 1) + if r + g.kh <= g.h then ColumnCount(g, r, nj) else 0
  }

  /** The kernel-row loop for the window at `(r, c)`: it fails at the first
      offset exactly when the strides are not of rank 3 and the kernel has a
      row, and otherwise collects `WindowFrom(g, r, c, 0)`. */
  method Window(g: Grid, r: nat, c: nat) returns (res: Option<seq<real>>)
    ensures res.None? <==> !Addressable(g)
    ensures res.Some? ==> Addressable(g) && res.value == WindowFrom(g, r, c, 0)
  {
    var chunk: seq<real> := [];
    var k := 0;
    while k < g.kh
      invariant !Addressable(g) ==> k == 0
      invariant Addressable(g) ==> chunk + WindowFrom(g, r, c, k) == WindowFrom(g, r, c, 0)
      decreases g.kh - k
    {
      var startOffset := NdIdxToOffset([r + k, c, 0], g.strides);
      if startOffset.Failure? {
        return None;
      }
      var endOffset := NdIdxToOffset([r + k, c + g.kw, 0], g.strides);
      var start, end := startOffset.value, endOffset.value;
      StartBeforeEnd(g.strides, r + k, c, g.kw);
      if end > |g.buf| {
        break;
      }
      chunk := chunk + g.buf[start..end];
      k := k + 1;
    }
    return Some(chunk);
  }

  /* ---------------------------------------------------------------------- */
  /* Windows of a contiguous image                                            */

  /** The grid reads a contiguous `[H, W, C]` image: strides
      `[W * C, C, 1]` over `H * W * C` cells. */
  predicate Canonical(g: Grid, c: nat)
  {
    g.strides == [g.w * c, c, 1] && |g.buf| == g.h * (g.w * c)
  }

  /** Cell `(a, u)` of a window (kernel row `a`, cell `u` of that row) is the
      image cell `base + a * wc + u`. */
  predicate IsKernelCell(out: seq<real>, buf: seq<real>, base: int, kwc: int, wc: int, a: int, u: int)
  {
    0 <= a * kwc + u < |out| && 0 <= base + a * wc + u < |buf| && out[a * kwc + u] == buf[base + a * wc + u]
  }

  /** Every cell of the first `rows` kernel rows of a window is where
      `IsKernelCell` puts it. */
  predicate KernelCells(out: seq<real>, buf: seq<real>, base: int, kwc: int, wc: int, rows: int)
  {
    forall a: nat, u: nat :: a < rows && u < kwc ==> IsKernelCell(out, buf, base, kwc, wc, a, u)
  }

  /** The kernel row starting at image row `a` and column `col` ends inside
      the image. */
  lemma KernelRowInside(a: nat, col: nat, kw: nat, w: nat, c: nat, h: nat)
    requires a < h && col + kw <= w
    ensures a * (w * c) + (col + kw) * c <= h * (w * c)
  {
    MulLeq(col + kw, w, c);
    MulLeq(a + 1, h, w * c);
  }

  /** A kernel row read from `base`, followed by a window whose rows start
      one image row further on. */
  lemma KernelCellsCons(head: seq<real>, rest: seq<real>, buf: seq<real>, base: nat, kwc: nat, wc: nat, rows: nat)
    requires base + kwc <= |buf| && head == buf[base..base + kwc] && rows > 0
    requires |rest| == (rows - 1) * kwc && KernelCells(rest, buf, base + wc, kwc, wc, rows - 1)
    ensures |head + rest| == rows * kwc && KernelCells(head + rest, buf, base, kwc, wc, rows)
  {
    MulSucc(rows, kwc);
    forall a: nat, u: nat | a < rows && u < kwc
      ensures IsKernelCell(head + rest, buf, base, kwc, wc, a, u)
    {
      if a == 0 {
        FrontKernelCell(head, rest, buf, base, kwc, wc, u);
      } else {
        ShiftKernelCell(head, rest, buf, base, kwc, wc, a, u);
      }
    }
  }

  lemma FrontKernelCell(head: seq<real>, rest: seq<real>, buf: seq<real>, base: nat, kwc: nat, wc: nat, u: nat)
    requires base + kwc <= |buf| && head == buf[base..base + kwc] && u < kwc
    ensures IsKernelCell(head + rest, buf, base, kwc, wc, 0, u)
  {
  }

  lemma ShiftKernelCell(head: seq<real>, rest: seq<real>, buf: seq<real>, base: nat, kwc: nat, wc: nat, a: nat, u: nat)
    requires |head| == kwc && a > 0 && IsKernelCell(rest, buf, base + wc, kwc, wc, a - 1, u)
    ensures IsKernelCell(head + rest, buf, base, kwc, wc, a, u)
  {
    assert a * kwc == (a - 1) * kwc + kwc;
    assert a * wc == (a - 1) * wc + wc;
  }

  /** One kernel row of a window inside a contiguous image: the `kw * C`
      cells from `[r + k, col, 0]`. */
  lemma WindowHead(g: Grid, c: nat, r: nat, col: nat, k: nat, base: nat)
    requires Canonical(g, c) && r + g.kh <= g.h && col + g.kw <= g.w && k < g.kh
    requires base == (r + k) * (g.w * c) + col * c
    ensures Addressable(g) && base + g.kw * c <= |g.buf|
    ensures WindowFrom(g, r, col, k) == g.buf[base..base + g.kw * c] + WindowFrom(g, r, col, k + 1)
  {
    var wc := g.w * c;
    Offset3(r + k, col, 0, wc, c, 1);
    Offset3(r + k, col + g.kw, 0, wc, c, 1);
    assert Offset([r + k, col, 0], g.strides) == base;
    assert (col + g.kw) * c == col * c + g.kw * c;
    assert Offset([r + k, col + g.kw, 0], g.strides) == base + g.kw * c;
    KernelRowInside(r + k, col, g.kw, g.w, c, g.h);
  }

  /** On a contiguous image, the window at an origin `(r, col)` whose
      kernel lies inside `H x W` collects all its kernel rows from row `k`
      on: `kw * C` cells each, row `a` being the cells of image row
      `r + k + a` from column `col`. */
  lemma {:induction false} WindowCells(g: Grid, c: nat, r: nat, col: nat, k: nat, base: nat)
    requires Canonical(g, c) && r + g.kh <= g.h && col + g.kw <= g.w && k <= g.kh
    requires base == (r + k) * (g.w * c) + col * c
    ensures Addressable(g)
    ensures |WindowFrom(g, r, col, k)| == (g.kh - k) * (g.kw * c)
    ensures KernelCells(WindowFrom(g, r, col, k), g.buf, base, g.kw * c, g.w * c, g.kh - k)
    decreases g.kh - k
  {
    if k < g.kh {
      var wc := g.w * c;
      WindowHead(g, c, r, col, k, base);
      assert (r + k + 1) * wc + col * c == base + wc;
      WindowCells(g, c, r, col, k + 1, base + wc);
      KernelCellsCons(g.buf[base..base + g.kw * c], WindowFrom(g, r, col, k + 1), g.buf, base, g.kw * c, wc, g.kh - k);
    }
  }

  /** With a row origin whose kernel rows lie inside the image, a window is
      emitted exactly when its columns lie inside it too. */
  lemma EmittedInside(g: Grid, c: nat, r: nat, col: nat)
    requires Canonical(g, c) && r + g.kh <= g.h && g.chunk == g.kh * (g.kw * c)
    ensures Addressable(g)
    ensures Emitted(g, r, col) <==> col + g.kw <= g.w
  {
    if col + g.kw <= g.w {
      WindowCells(g, c, r, col, 0, r * (g.w * c) + col * c);
    }
  }

  /** Along a row origin inside the image, the emitted windows are the
      column candidates that fit in `W`: as many as `Count`, `chunk`
      cells each. */
  lemma {:induction false} ColumnsCounted(g: Grid, c: nat, r: nat, n: nat)
    requires Canonical(g, c) && r + g.kh <= g.h && g.chunk == g.kh * (g.kw * c)
    ensures Addressable(g)
    ensures ColumnCount(g, r, n) == Count(n, g.stride, g.kw, g.w)
    ensures |ColumnWindows(g, r, n)| == ColumnCount(g, r, n) * g.chunk
  {
    if n > 0 {
      ColumnsCounted(g, c, r, n - 1);
      var col := (n - 1) * g.stride;
      EmittedInside(g, c, r, col);
      if Emitted(g, r, col) {
        MulSucc(ColumnCount(g, r, n - 1) + 1, g.chunk);
      }
    }
  }

  lemma SliceLeft(x: seq<real>, y: seq<real>, lo: nat, hi: nat)
    requires lo <= hi <= |x|
    ensures (x + y)[lo..hi] == x[lo..hi]
  {
  }

  lemma SliceRight(x: seq<real>, y: seq<real>, lo: nat, hi: nat)
    requires lo == |x| && hi == |x| + |y|
    ensures (x + y)[lo..hi] == y
  {
  }

  /** Row `b` of the output of a row origin is the window at column
      `b * stride`: the emitted windows are the first candidates, in
      order. */
  lemma {:induction false} ColumnWindowAt(g: Grid, c: nat, r: nat, n: nat, b: nat)
    requires Canonical(g, c) && r + g.kh <= g.h && g.chunk == g.kh * (g.kw * c)
    requires b < Count(n, g.stride, g.kw, g.w)
    ensures Addressable(g)
    ensures (b + 1) * g.chunk <= |ColumnWindows(g, r, n)|
    ensures ColumnWindows(g, r, n)[b * g.chunk..(b + 1) * g.chunk] == WindowFrom(g, r, b * g.stride, 0)
  {
    if b < Count(n - 1, g.stride, g.kw, g.w) {
      ColumnWindowAt(g, c, r, n - 1, b);
      ColumnKept(g, r, n, b);
    } else {
      ColumnLast(g, c, r, n, b);
    }
  }

  lemma ColumnKept(g: Grid, r: nat, n: nat, b: nat)
    requires Addressable(g) && n > 0
    requires (b + 1) * g.chunk <= |ColumnWindows(g, r, n - 1)|
    requires ColumnWindows(g, r, n - 1)[b * g.chunk..(b + 1) * g.chunk] == WindowFrom(g, r, b * g.stride, 0)
    ensures (b + 1) * g.chunk <= |ColumnWindows(g, r, n)|
    ensures ColumnWindows(g, r, n)[b * g.chunk..(b + 1) * g.chunk] == WindowFrom(g, r, b * g.stride, 0)
  {
    var col := (n - 1) * g.stride;
    var tail := if Emitted(g, r, col) then WindowFrom(g, r, col, 0) else [];
    KeptRow(ColumnWindows(g, r, n - 1), tail, b, g.chunk, WindowFrom(g, r, b * g.stride, 0));
  }

  lemma ColumnLast(g: Grid, c: nat, r: nat, n: nat, b: nat)
    requires Canonical(g, c) && r + g.kh <= g.h && g.chunk == g.kh * (g.kw * c)
    requires n > 0 && Count(n - 1, g.stride, g.kw, g.w) <= b < Count(n, g.stride, g.kw, g.w)
    ensures Addressable(g)
    ensures (b + 1) * g.chunk <= |ColumnWindows(g, r, n)|
    ensures ColumnWindows(g, r, n)[b * g.chunk..(b + 1) * g.chunk] == WindowFrom(g, r, b * g.stride, 0)
  {
    LastCounted(n, g.stride, g.kw, g.w, b);
    ColumnsCounted(g, c, r, n - 1);
    EmittedInside(g, c, r, b * g.stride);
    LastRow(ColumnWindows(g, r, n - 1), WindowFrom(g, r, b * g.stride, 0), b, g.chunk);
  }

  /** A window appended after `b` rows is output row `b`. */
  lemma LastRow(prev: seq<real>, tail: seq<real>, b: nat, chunk: nat)
    requires |prev| == b * chunk && |tail| == chunk
    ensures (b + 1) * chunk <= |prev + tail| && (prev + tail)[b * chunk..(b + 1) * chunk] == tail
  {
    MulSucc(b + 1, chunk);
    SliceRight(prev, tail, b * chunk, (b + 1) * chunk);
  }

  /** The candidate counted last is the last candidate. */
  lemma LastCounted(n: nat, step: nat, chunk: nat, len: nat, b: nat)
    requires n > 0 && Count(n - 1, step, chunk, len) <= b < Count(n, step, chunk, len)
    ensures b == n - 1 && Fits(n - 1, step, chunk, len) && Count(n - 1, step, chunk, len) == b
  {
    CountPrefix(n, step, chunk, len);
  }


  /** Over the row candidates `i < n`, the emitted windows are the origins
      whose rows and columns both fit: `Count` of each, multiplied. */
  lemma {:induction false} RowsCounted(g: Grid, c: nat, nj: nat, n: nat)
    requires Canonical(g, c) && g.chunk == g.kh * (g.kw * c)
    ensures Addressable(g)
    ensures RowCount(g, nj, n) == Count(n, g.stride, g.kh, g.h) * Count(nj, g.stride, g.kw, g.w)
    ensures |RowWindows(g, nj, n)| == RowCount(g, nj, n) * g.chunk
  {
    if n > 0 {
      RowsCounted(g, c, nj, n - 1);
      var r := (n - 1) * g.stride;
      if r + g.kh <= g.h {
        ColumnsCounted(g, c, r, nj);
        CountsStep(Count(n - 1, g.stride, g.kh, g.h), Count(nj, g.stride, g.kw, g.w), g.chunk);
      }
    }
  }

  lemma CountsStep(q: nat, cc: nat, chunk: nat)
    ensures (q + 1) * cc == q * cc + cc
    ensures (q * cc + cc) * chunk == (q * cc) * chunk + cc * chunk
  {
  }

  /** Output row `t = a * cc + b` (with `cc` windows per row origin) is
      the window at origin `(a * stride, b * stride)`. */
  predicate IsOutputWindow(out: seq<real>, g: Grid, cc: nat, a: nat, b: nat)
    requires Addressable(g)
  {
    var t := a * cc + b;
    (t + 1) * g.chunk <= |out| && out[t * g.chunk..(t + 1) * g.chunk] == WindowFrom(g, a * g.stride, b * g.stride, 0)
  }

  /** The emitted windows come origin by origin in row-major order: row
      origin `a`, column origin `b` is output row `a * cc + b`. */
  lemma {:induction false} RowWindowAt(g: Grid, c: nat, nj: nat, n: nat, a: nat, b: nat)
    requires Canonical(g, c) && g.chunk == g.kh * (g.kw * c)
    requires a < Count(n, g.stride, g.kh, g.h) && b < Count(nj, g.stride, g.kw, g.w)
    ensures Addressable(g)
    ensures IsOutputWindow(RowWindows(g, nj, n), g, Count(nj, g.stride, g.kw, g.w), a, b)
  {
    if a < Count(n - 1, g.stride, g.kh, g.h) {
      RowWindowAt(g, c, nj, n - 1, a, b);
      RowKept(g, nj, n, Count(nj, g.stride, g.kw, g.w), a, b);
    } else {
      RowLast(g, c, nj, n, a, b);
    }
  }

  lemma RowKept(g: Grid, nj: nat, n: nat, cc: nat, a: nat, b: nat)
    requires Addressable(g) && n > 0
    requires IsOutputWindow(RowWindows(g, nj, n - 1), g, cc, a, b)
    ensures IsOutputWindow(RowWindows(g, nj, n), g, cc, a, b)
  {
    var r := (n - 1) * g.stride;
    var tail := if r + g.kh <= g.h then ColumnWindows(g, r, nj) else [];
    KeptRow(RowWindows(g, nj, n - 1), tail, a * cc + b, g.chunk, WindowFrom(g, a * g.stride, b * g.stride, 0));
  }

  lemma RowLast(g: Grid, c: nat, nj: nat, n: nat, a: nat, b: nat)
    requires Canonical(g, c) && g.chunk == g.kh * (g.kw * c)
    requires n > 0 && Count(n - 1, g.stride, g.kh, g.h) <= a < Count(n, g.stride, g.kh, g.h)
    requires b < Count(nj, g.stride, g.kw, g.w)
    ensures Addressable(g)
    ensures IsOutputWindow(RowWindows(g, nj, n), g, Count(nj, g.stride, g.kw, g.w), a, b)
  {
    var cc := Count(nj, g.stride, g.kw, g.w);
    LastCounted(n, g.stride, g.kh, g.h, a);
    RowsCounted(g, c, nj, n - 1);
    var r := a * g.stride;
    ColumnWindowAt(g, c, r, nj, b);
    ColumnsCounted(g, c, r, nj);
    NewRow(RowWindows(g, nj, n - 1), ColumnWindows(g, r, nj), a, cc, b, g.chunk, WindowFrom(g, r, b * g.stride, 0));
  }

  /** A row of the output so far stays where it is. */
  lemma KeptRow(prev: seq<real>, tail: seq<real>, t: nat, chunk: nat, win: seq<real>)
    requires (t + 1) * chunk <= |prev| && prev[t * chunk..(t + 1) * chunk] == win
    ensures (t + 1) * chunk <= |prev + tail| && (prev + tail)[t * chunk..(t + 1) * chunk] == win
  {
  }

  /** Row `b` of the windows of row origin `a`, appended after `a * cc`
      rows, is output row `a * cc + b`. */
  lemma NewRow(prev: seq<real>, tail: seq<real>, a: nat, cc: nat, b: nat, chunk: nat, win: seq<real>)
    requires |prev| == (a * cc) * chunk && |tail| == cc * chunk && b < cc
    requires (b + 1) * chunk <= |tail| && tail[b * chunk..(b + 1) * chunk] == win
    ensures var t := a * cc + b;
      (t + 1) * chunk <= |prev + tail| && (prev + tail)[t * chunk..(t + 1) * chunk] == win
  {
    RowOffsets(a, cc, b, chunk);
    SliceInside(prev, tail, (a * cc + b) * chunk, (a * cc + b + 1) * chunk);
  }

  lemma RowOffsets(a: nat, cc: nat, b: nat, chunk: nat)
    requires b < cc
    ensures (a * cc + b) * chunk == (a * cc) * chunk + b * chunk
    ensures (a * cc + b + 1) * chunk == (a * cc) * chunk + (b + 1) * chunk
    ensures (b + 1) * chunk <= cc * chunk
  {
    MulLeq(b + 1, cc, chunk);
  }

  lemma SliceInside(x: seq<real>, y: seq<real>, lo: nat, hi: nat)
    requires |x| <= lo <= hi <= |x| + |y|
    ensures (x + y)[lo..hi] == y[lo - |x|..hi - |x|]
  {
  }
}
