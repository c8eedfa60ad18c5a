/** The origin-to-window map that `compute` of the `Conv2d` operator
    (`packages/tensor/src/ops/conv/conv2d.ts`) fills in before running the
    forward pass: for every output position `(h, w)`, taken row-major, and
    every cell `(i, j)` of its kernel window in the padded image, the
    position is appended to `mapping[i - p][j - p]` when that cell lies on
    the unpadded image.  The outer entry for `i - p` is created for every
    window row, on the image or not.

    The four nested loops are stated as four folds, innermost first; each
    fold's effect on the recorded lists is proved in turn, ending with the
    closed form: the list at an image cell is every output position whose
    window covers it, in row-major order. */
module Conv2dMapping {

  /** The sizes the loops read: the image extents, the kernel extents, the
      stride, the padding and the output extents. */
  datatype Geometry = Geometry(hin: int, win: int, kh: nat, kw: nat, s: nat, p: int, hout: nat, wout: nat)

  /** Image row to image column to the output positions recorded there. */
  type Mapping = map<int, map<int, seq<(nat, nat)>>>

  /** The list recorded at `(a, b)`, empty where nothing was recorded. */
  function Entry(m: Mapping, a: int, b: int): seq<(nat, nat)>
  {
    if a in m && b in m[a] then m[a][b] else []
  }

  /** An inner entry is only ever created together with its first record. */
  predicate Tidy(m: Mapping)
  {
    forall a, b :: a in m && b in m[a] ==> m[a][b] != []
  }

  predicate InImage(g: Geometry, a: int, b: int)
  {
    0 <= a < g.hin && 0 <= b < g.win
  }

  /** The image coordinate `h * s - p` where window `h` starts, by
      repeated addition as the loops step it. */
  function Start(g: Geometry, h: nat): int
  {
    if h == 0 then -g.p else Start(g, h - 1) + g.s
  }

  lemma {:induction false} StartIs(g: Geometry, h: nat)
    ensures Start(g, h) == h * g.s - g.p
  {
    if h > 0 {
      StartIs(g, h - 1);
    }
  }

  /** Window row `h` covers image row `a` (padded row `a + p`). */
  predicate RowOf(g: Geometry, h: nat, a: int)
  {
    Start(g, h) <= a < Start(g, h) + g.kh
  }

  /** Window column `w` covers image column `b`. */
  predicate ColOf(g: Geometry, w: nat, b: int)
  {
    Start(g, w) <= b < Start(g, w) + g.kw
  }

  /* ---------------------------------------------------------------------- */
  /* The four folds                                                           */

  /** The `j` loop of window `(h, w)` on image row `a`, after its first `n`
      steps from image column `c0 = w * s - p`: each in-image cell
      `(a, c0 + t)` gets `(h, w)` appended. */
  function Cells(g: Geometry, m: Mapping, h: nat, w: nat, a: int, c0: int, n: nat): (r: Mapping)
    requires a in m
    ensures a in r
  {
    if n == 0 then m
    else
      var r1 := Cells(g, m, h, w, a, c0, n - 1);
      var b := c0 + (n - 1);
      if InImage(g, a, b) then r1[a := r1[a][b := Entry(r1, a, b) + [(h, w)]]] else r1
  }

  /** `this.mapping.set(ii, this.mapping.get(ii) ?? new Map())`. */
  function Touch(m: Mapping, a: int): (r: Mapping)
    ensures a in r
  {
    m[a := if a in m then m[a] else map[]]
  }

  /** The `i` loop of window `(h, w)`, after its first `n` steps from image
      row `a0 = h * s - p`: image row `a0 + t` is touched, then its `j`
      loop runs. */
  function Rows(g: Geometry, m: Mapping, h: nat, w: nat, a0: int, n: nat): (r: Mapping)
  {
    if n == 0 then m
    else
      var a := a0 + (n - 1);
      Cells(g, Touch(Rows(g, m, h, w, a0, n - 1), a), h, w, a, Start(g, w), g.kw)
  }

  /** The `w` loop of output row `h`, after its first `n` windows. */
  function Cols(g: Geometry, m: Mapping, h: nat, n: nat): Mapping
  {
    if n == 0 then m else Rows(g, Cols(g, m, h, n - 1), h, n - 1, Start(g, h), g.kh)
  }

  /** The `h` loop, after its first `n` output rows, from the cleared map. */
  function Build(g: Geometry, n: nat): Mapping
  {
    if n == 0 then map[] else Cols(g, Build(g, n - 1), n - 1, g.wout)
  }

  /** The mapping after `compute`. */
  function MappingSpec(g: Geometry): Mapping
  {
    Build(g, g.hout)
  }

  /* ---------------------------------------------------------------------- */
  /* What the recorded lists are                                              */

  /** The positions `(h, w)` with `w < n` whose window covers `(a, b)`, in
      order. */
  function HitsCols(g: Geometry, a: int, b: int, h: nat, n: nat): (r: seq<(nat, nat)>)
    ensures forall t :: 0 <= t < |r| ==> r[t].0 == h && r[t].1 < n
    ensures r != [] ==> InImage(g, a, b)
    ensures forall t, u :: 0 <= t < u < |r| ==> r[t].1 < r[u].1
  {
    if n == 0 then []
    else HitsCols(g, a, b, h, n - 1) + (if InImage(g, a, b) && RowOf(g, h, a) && ColOf(g, n - 1, b) then [(h, n - 1)] else [])
  }

  /** The positions `(h, w)` with `h < n` whose window covers `(a, b)`, in
      row-major order. */
  function HitsRows(g: Geometry, a: int, b: int, n: nat): (r: seq<(nat, nat)>)
    ensures forall t :: 0 <= t < |r| ==> r[t].0 < n
    ensures r != [] ==> InImage(g, a, b)
  {
    if n == 0 then [] else HitsRows(g, a, b, n - 1) + HitsCols(g, a, b, n - 1, g.wout)
  }

  /** Row-major order of output positions. */
  predicate Before(x: (nat, nat), y: (nat, nat))
  {
    x.0 < y.0 || (x.0 == y.0 && x.1 < y.1)
  }

  /** A list of output positions in strictly increasing row-major order. */
  predicate RowMajor(r: seq<(nat, nat)>)
  {
    forall t, u :: 0 <= t < u < |r| ==> Before(r[t], r[u])
  }

  /** Every output position whose window covers an image cell is listed,
      and nothing else. */
  lemma {:induction false} HitsRowsMembers(g: Geometry, a: int, b: int, n: nat)
    ensures forall h: nat, w: nat :: ((h, w) in HitsRows(g, a, b, n)
      <==> InImage(g, a, b) && h < n && w < g.wout && RowOf(g, h, a) && ColOf(g, w, b))
  {
    if n > 0 {
      HitsRowsMembers(g, a, b, n - 1);
      HitsRowsStep(g, a, b, n);
    }
  }

  /** One more output row: its positions are the ones `HitsCols` adds. */
  lemma HitsRowsStep(g: Geometry, a: int, b: int, n: nat)
    requires n > 0
    requires forall h: nat, w: nat :: ((h, w) in HitsRows(g, a, b, n - 1)
      <==> InImage(g, a, b) && h < n - 1 && w < g.wout && RowOf(g, h, a) && ColOf(g, w, b))
    ensures forall h: nat, w: nat :: ((h, w) in HitsRows(g, a, b, n)
      <==> InImage(g, a, b) && h < n && w < g.wout && RowOf(g, h, a) && ColOf(g, w, b))
  {
    HitsColsMembers(g, a, b, n - 1, g.wout);
    var r0 := HitsRows(g, a, b, n - 1);
    var c := HitsCols(g, a, b, n - 1, g.wout);
    forall h: nat, w: nat
      ensures (h, w) in r0 + c <==> InImage(g, a, b) && h < n && w < g.wout && RowOf(g, h, a) && ColOf(g, w, b)
    {
      SplitByRow(r0, c, n - 1, (h, w));
    }
  }

  /** In a list of earlier rows followed by a list of row `k`, a position
      of row `k` can only be in the second part, and an earlier one only
      in the first. */
  lemma SplitByRow(r0: seq<(nat, nat)>, c: seq<(nat, nat)>, k: nat, p: (nat, nat))
    requires forall t :: 0 <= t < |r0| ==> r0[t].0 < k
    requires forall t :: 0 <= t < |c| ==> c[t].0 == k
    ensures p in r0 + c <==> (p.0 < k && p in r0) || (p.0 == k && p in c)
  {
    if p in c {
      var t :| 0 <= t < |c| && c[t] == p;
    }
    if p in r0 {
      var t :| 0 <= t < |r0| && r0[t] == p;
    }
  }

  /** The list is in strictly increasing row-major order. */
  lemma {:induction false} HitsRowsOrdered(g: Geometry, a: int, b: int, n: nat)
    ensures RowMajor(HitsRows(g, a, b, n))
  {
    if n > 0 {
      HitsRowsOrdered(g, a, b, n - 1);
      HitsRowsOrderedStep(g, a, b, n);
    }
  }

  /** The rows below `n - 1` are listed in order and before row `n - 1`,
      whose columns are listed in order. */
  lemma HitsRowsOrderedStep(g: Geometry, a: int, b: int, n: nat)
    requires n > 0 && RowMajor(HitsRows(g, a, b, n - 1))
    ensures RowMajor(HitsRows(g, a, b, n))
  {
    var r0 := HitsRows(g, a, b, n - 1);
    var c := HitsCols(g, a, b, n - 1, g.wout);
    var r := r0 + c;
    forall t, u | 0 <= t < u < |r|
      ensures Before(r[t], r[u])
    {
      if u < |r0| {
        assert r[t] == r0[t] && r[u] == r0[u];
      } else if t < |r0| {
        assert r[t] == r0[t] && r[u] == c[u - |r0|];
        assert r0[t].0 < n - 1 && c[u - |r0|].0 == n - 1;
      } else {
        assert r[t] == c[t - |r0|] && r[u] == c[u - |r0|];
        assert c[t - |r0|].0 == c[u - |r0|].0 && c[t - |r0|].1 < c[u - |r0|].1;
      }
    }
  }

  lemma {:induction false} HitsColsMembers(g: Geometry, a: int, b: int, h: nat, n: nat)
    ensures forall w: nat :: (h, w) in HitsCols(g, a, b, h, n) <==> InImage(g, a, b) && w < n && RowOf(g, h, a) && ColOf(g, w, b)
  {
    if n > 0 {
      HitsColsMembers(g, a, b, h, n - 1);
      var r0 := HitsCols(g, a, b, h, n - 1);
      forall w: nat
        ensures (h, w) in HitsCols(g, a, b, h, n) <==> InImage(g, a, b) && w < n && RowOf(g, h, a) && ColOf(g, w, b)
      {
        if (h, w) in r0 {
          var t :| 0 <= t < |r0| && r0[t] == (h, w);
        }
      }
    }
  }

  /** The `j` loop appends to row `a` only, at the in-image cells its
      columns reach. */
  lemma {:induction false} CellsEffect(g: Geometry, m: Mapping, h: nat, w: nat, a: int, c0: int, n: nat)
    requires a in m
    ensures forall x, b :: (Entry(Cells(g, m, h, w, a, c0, n), x, b)
      == Entry(m, x, b) + (if x == a && InImage(g, x, b) && c0 <= b < c0 + n then [(h, w)] else []))
  {
    if n > 0 {
      CellsEffect(g, m, h, w, a, c0, n - 1);
      CellsEffectStep(g, m, h, w, a, c0, n);
    }
  }

  lemma CellsEffectStep(g: Geometry, m: Mapping, h: nat, w: nat, a: int, c0: int, n: nat)
    requires n > 0 && a in m
    requires forall x, b :: (Entry(Cells(g, m, h, w, a, c0, n - 1), x, b)
      == Entry(m, x, b) + (if x == a && InImage(g, x, b) && c0 <= b < c0 + (n - 1) then [(h, w)] else []))
    ensures forall x, b :: (Entry(Cells(g, m, h, w, a, c0, n), x, b)
      == Entry(m, x, b) + (if x == a && InImage(g, x, b) && c0 <= b < c0 + n then [(h, w)] else []))
  {
    var r1 := Cells(g, m, h, w, a, c0, n - 1);
    var r := Cells(g, m, h, w, a, c0, n);
    var bb := c0 + (n - 1);
    forall x, b
      ensures Entry(r, x, b) == Entry(m, x, b) + (if x == a && InImage(g, x, b) && c0 <= b < c0 + n then [(h, w)] else [])
    {
      if x == a && b == bb && InImage(g, a, bb) {
        assert Entry(r, x, b) == Entry(r1, x, b) + [(h, w)];
      } else {
        assert Entry(r, x, b) == Entry(r1, x, b);
      }
    }
  }

  lemma {:induction false} CellsTidy(g: Geometry, m: Mapping, h: nat, w: nat, a: int, c0: int, n: nat)
    requires a in m && Tidy(m)
    ensures Tidy(Cells(g, m, h, w, a, c0, n))
  {
    if n > 0 {
      CellsTidy(g, m, h, w, a, c0, n - 1);
      var r1 := Cells(g, m, h, w, a, c0, n - 1);
      var r := Cells(g, m, h, w, a, c0, n);
      var bb := c0 + (n - 1);
      {
        forall x, b | x in r && b in r[x]
          ensures r[x][b] != []
        {
          if !(x == a && b == bb && InImage(g, a, bb)) {
            assert r[x][b] == r1[x][b];
          }
        }
      }
    }
  }

  /** Touching a row records nothing. */
  lemma TouchKeeps(m: Mapping, a: int)
    ensures forall x, b :: Entry(Touch(m, a), x, b) == Entry(m, x, b)
  {
  }

  lemma TouchTidy(m: Mapping, a: int)
    requires Tidy(m)
    ensures Tidy(Touch(m, a))
  {
    var r := Touch(m, a);
    {
      forall x, b | x in r && b in r[x]
        ensures r[x][b] != []
      {
        assert x in m && r[x] == m[x];
      }
    }
  }

  /** The `j` loop adds no outer entry. */
  lemma {:induction false} CellsKeys(g: Geometry, m: Mapping, h: nat, w: nat, a: int, c0: int, n: nat)
    requires a in m
    ensures forall x :: x in Cells(g, m, h, w, a, c0, n) <==> x in m
  {
    if n > 0 {
      CellsKeys(g, m, h, w, a, c0, n - 1);
    }
  }

  /** The `i` loop touches the rows of its window. */
  lemma {:induction false} RowsKeys(g: Geometry, m: Mapping, h: nat, w: nat, a0: int, n: nat)
    ensures forall x :: x in Rows(g, m, h, w, a0, n) <==> x in m || a0 <= x < a0 + n
  {
    if n > 0 {
      RowsKeys(g, m, h, w, a0, n - 1);
      var a := a0 + (n - 1);
      CellsKeys(g, Touch(Rows(g, m, h, w, a0, n - 1), a), h, w, a, Start(g, w), g.kw);
    }
  }

  /** The `i` loop appends `(h, w)` at every in-image cell of the first `n`
      rows of its window. */
  lemma {:induction false} RowsEntries(g: Geometry, m: Mapping, h: nat, w: nat, a0: int, n: nat)
    ensures forall x, b :: (Entry(Rows(g, m, h, w, a0, n), x, b)
      == Entry(m, x, b) + (if InImage(g, x, b) && a0 <= x < a0 + n && ColOf(g, w, b) then [(h, w)] else []))
  {
    if n > 0 {
      RowsEntries(g, m, h, w, a0, n - 1);
      RowsEntriesStep(g, m, h, w, a0, n);
    }
  }

  lemma RowsEntriesStep(g: Geometry, m: Mapping, h: nat, w: nat, a0: int, n: nat)
    requires n > 0
    requires forall x, b :: (Entry(Rows(g, m, h, w, a0, n - 1), x, b)
      == Entry(m, x, b) + (if InImage(g, x, b) && a0 <= x < a0 + (n - 1) && ColOf(g, w, b) then [(h, w)] else []))
    ensures forall x, b :: (Entry(Rows(g, m, h, w, a0, n), x, b)
      == Entry(m, x, b) + (if InImage(g, x, b) && a0 <= x < a0 + n && ColOf(g, w, b) then [(h, w)] else []))
  {
    var a := a0 + (n - 1);
    var c0 := Start(g, w);
    var r1 := Rows(g, m, h, w, a0, n - 1);
    var r2 := Touch(r1, a);
    var r := Rows(g, m, h, w, a0, n);
    assert r == Cells(g, r2, h, w, a, c0, g.kw);
    TouchKeeps(r1, a);
    CellsEffect(g, r2, h, w, a, c0, g.kw);
    forall x, b
      ensures Entry(r, x, b)
        == Entry(m, x, b) + (if InImage(g, x, b) && a0 <= x < a0 + n && ColOf(g, w, b) then [(h, w)] else [])
    {
      assert ColOf(g, w, b) <==> c0 <= b < c0 + g.kw;
      assert Entry(r, x, b) == Entry(r1, x, b) + (if x == a && InImage(g, x, b) && c0 <= b < c0 + g.kw then [(h, w)] else []);
      assert Entry(r1, x, b)
        == Entry(m, x, b) + (if InImage(g, x, b) && a0 <= x < a0 + (n - 1) && ColOf(g, w, b) then [(h, w)] else []);
    }
  }

  lemma {:induction false} RowsTidy(g: Geometry, m: Mapping, h: nat, w: nat, a0: int, n: nat)
    requires Tidy(m)
    ensures Tidy(Rows(g, m, h, w, a0, n))
  {
    if n > 0 {
      var a := a0 + (n - 1);
      var r1 := Rows(g, m, h, w, a0, n - 1);
      assert Tidy(Touch(r1, a)) by {
        RowsTidy(g, m, h, w, a0, n - 1);
        TouchTidy(r1, a);
      }
      CellsTidy(g, Touch(r1, a), h, w, a, Start(g, w), g.kw);
    }
  }

  /** The `w` loop touches the rows of window row `h` (when it runs at
      all). */
  lemma {:induction false} ColsKeys(g: Geometry, m: Mapping, h: nat, n: nat)
    ensures forall x :: x in Cols(g, m, h, n) <==> x in m || (n > 0 && RowOf(g, h, x))
  {
    if n > 0 {
      ColsKeys(g, m, h, n - 1);
      var a0 := Start(g, h);
      RowsKeys(g, Cols(g, m, h, n - 1), h, n - 1, a0, g.kh);
      assert forall x :: RowOf(g, h, x) <==> a0 <= x < a0 + g.kh;
    }
  }

  /** Window `(h, w)` appends `(h, w)` at every in-image cell it covers. */
  lemma WindowEntries(g: Geometry, m: Mapping, h: nat, w: nat)
    ensures forall x, b :: (Entry(Rows(g, m, h, w, Start(g, h), g.kh), x, b)
      == Entry(m, x, b) + (if InImage(g, x, b) && RowOf(g, h, x) && ColOf(g, w, b) then [(h, w)] else []))
  {
    RowsEntries(g, m, h, w, Start(g, h), g.kh);
  }

  /** The `w` loop appends window `(h, w)` for each of its first `n`
      windows, in order. */
  lemma {:induction false} ColsEntries(g: Geometry, m: Mapping, h: nat, n: nat)
    ensures forall x, b :: Entry(Cols(g, m, h, n), x, b) == Entry(m, x, b) + HitsCols(g, x, b, h, n)
  {
    if n > 0 {
      ColsEntries(g, m, h, n - 1);
      ColsEntriesStep(g, m, h, n, Cols(g, m, h, n - 1));
    }
  }

  /** Window `(h, n - 1)` appends itself after the first `n - 1` windows'
      entries. */
  lemma ColsEntriesStep(g: Geometry, m: Mapping, h: nat, n: nat, r1: Mapping)
    requires n > 0 && r1 == Cols(g, m, h, n - 1)
    requires forall x, b :: Entry(r1, x, b) == Entry(m, x, b) + HitsCols(g, x, b, h, n - 1)
    ensures forall x, b :: Entry(Cols(g, m, h, n), x, b) == Entry(m, x, b) + HitsCols(g, x, b, h, n)
  {
    var r := Cols(g, m, h, n);
    WindowEntries(g, r1, h, n - 1);
    forall x, b
      ensures Entry(r, x, b) == Entry(m, x, b) + HitsCols(g, x, b, h, n)
    {
      var tail: seq<(nat, nat)> := if InImage(g, x, b) && RowOf(g, h, x) && ColOf(g, n - 1, b) then [(h, n - 1)] else [];
      assert Entry(r, x, b) == Entry(r1, x, b) + tail;
      assert HitsCols(g, x, b, h, n) == HitsCols(g, x, b, h, n - 1) + tail;
      assert (Entry(m, x, b) + HitsCols(g, x, b, h, n - 1)) + tail == Entry(m, x, b) + (HitsCols(g, x, b, h, n - 1) + tail);
    }
  }

  lemma {:induction false} ColsTidy(g: Geometry, m: Mapping, h: nat, n: nat)
    requires Tidy(m)
    ensures Tidy(Cols(g, m, h, n))
  {
    if n > 0 {
      ColsTidy(g, m, h, n - 1);
      RowsTidy(g, Cols(g, m, h, n - 1), h, n - 1, Start(g, h), g.kh);
    }
  }

  /** Some output row below `n` has a window row on padded row `a + p`
      (and the output has columns). */
  predicate Touched(g: Geometry, a: int, n: nat)
  {
    g.wout > 0 && exists h: nat :: h < n && RowOf(g, h, a)
  }

  lemma {:induction false} BuildEffect(g: Geometry, n: nat)
    ensures forall x :: x in Build(g, n) <==> Touched(g, x, n)
    ensures forall x, b :: Entry(Build(g, n), x, b) == HitsRows(g, x, b, n)
    ensures Tidy(Build(g, n))
  {
    if n > 0 {
      BuildEffect(g, n - 1);
      ColsKeys(g, Build(g, n - 1), n - 1, g.wout);
      ColsEntries(g, Build(g, n - 1), n - 1, g.wout);
      ColsTidy(g, Build(g, n - 1), n - 1, g.wout);
      forall x
        ensures x in Build(g, n) <==> Touched(g, x, n)
      {
        if g.wout > 0 && RowOf(g, n - 1, x) {
          assert Touched(g, x, n);
        }
        if Touched(g, x, n) {
          var h: nat :| h < n && RowOf(g, h, x);
          if h < n - 1 {
            assert Touched(g, x, n - 1);
          }
        }
      }
    }
  }

  /** After `compute`:
      - there is an outer entry exactly for the image rows `a` some window
        row reaches (on the image or in the padding);
      - the list at `(a, b)` is every output position whose window covers
        that image cell, in row-major order, and an inner entry exists
        exactly where that list is not empty;
      - the outer entries of rows off the image are empty maps. */
  lemma MappingSound(g: Geometry)
    ensures var mp := MappingSpec(g);
      && (forall a :: a in mp <==> Touched(g, a, g.hout))
      && (forall a, b :: Entry(mp, a, b) == HitsRows(g, a, b, g.hout))
      && (forall a, b :: a in mp ==> (b in mp[a] <==> HitsRows(g, a, b, g.hout) != []))
      && (forall a :: a in mp && !(0 <= a < g.hin) ==> mp[a] == map[])
  {
    var mp := MappingSpec(g);
    BuildEffect(g, g.hout);
    forall a, b | a in mp
      ensures b in mp[a] <==> HitsRows(g, a, b, g.hout) != []
    {
      assert Entry(mp, a, b) == HitsRows(g, a, b, g.hout);
    }
    forall a | a in mp && !(0 <= a < g.hin)
      ensures mp[a] == map[]
    {
      assert forall b :: b !in mp[a];
    }
  }

  /** A 3 x 3 image under a 2 x 2 kernel with stride 1 and no padding:
      the centre cell is covered by all four windows, in row-major order;
      the corner `(0, 0)` only by the first. */
  lemma MappingExample(g: Geometry)
    requires g == Geometry(3, 3, 2, 2, 1, 0, 2, 2)
    ensures Entry(MappingSpec(g), 1, 1) == [(0, 0), (0, 1), (1, 0), (1, 1)]
    ensures Entry(MappingSpec(g), 0, 0) == [(0, 0)]
  {
    BuildEffect(g, g.hout);
    HitsExample(g);
  }

  lemma HitsExample(g: Geometry)
    requires g == Geometry(3, 3, 2, 2, 1, 0, 2, 2)
    ensures HitsRows(g, 1, 1, 2) == [(0, 0), (0, 1), (1, 0), (1, 1)]
    ensures HitsRows(g, 0, 0, 2) == [(0, 0)]
  {
    assert Start(g, 0) == 0 && Start(g, 1) == 1;
    assert HitsRows(g, 1, 1, 2) == [(0, 0), (0, 1), (1, 0), (1, 1)] by {
      assert RowOf(g, 0, 1) && RowOf(g, 1, 1) && ColOf(g, 0, 1) && ColOf(g, 1, 1);
      assert HitsCols(g, 1, 1, 0, 1) == [(0, 0)];
      assert HitsCols(g, 1, 1, 0, 2) == HitsCols(g, 1, 1, 0, 1) + [(0, 1)];
      assert [(0, 0)] + [(0, 1)] == [(0, 0), (0, 1)];
      assert HitsCols(g, 1, 1, 1, 1) == [(1, 0)];
      assert HitsCols(g, 1, 1, 1, 2) == HitsCols(g, 1, 1, 1, 1) + [(1, 1)];
      assert [(1, 0)] + [(1, 1)] == [(1, 0), (1, 1)];
      assert HitsRows(g, 1, 1, 1) == [(0, 0), (0, 1)];
    }
    assert HitsRows(g, 0, 0, 2) == [(0, 0)] by {
      assert RowOf(g, 0, 0) && !RowOf(g, 1, 0) && ColOf(g, 0, 0) && !ColOf(g, 1, 0);
      assert HitsCols(g, 0, 0, 0, 1) == [(0, 0)];
      assert HitsCols(g, 0, 0, 0, 2) == [(0, 0)];
      assert HitsCols(g, 0, 0, 1, 2) == [];
    }
  }
}
