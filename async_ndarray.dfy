/** The nested-array `NdArray` of `packages/async-math/src/ndarray.ts`:
    `permute` and `T` over plain nested JavaScript arrays, the depth-first
    leaf walk `forEachElementForArray`, `mapElementForArray`,
    `setElementForArray` and the axis-order check. The shape getter is mathjs
    `size`, which follows element 0 exactly like `JsLib.ArrayShape`. */
module AsyncNdArray {
  import opened Wrappers
  import opened IndexMath
  import opened JsLib

  /* ---------------------------------------------------------------------- */
  /* Reading and writing one leaf                                             */

  /** The leaf at a full index path of a nested array (0 off the array,
      which a regular array never reaches). */
  function At(v: Value, idx: seq<nat>): real
    decreases |idx|
  {
    if |idx| == 0 then (if v.Num? then v.x else 0.0)
    else if v.List? && idx[0] < |v.items| then At(v.items[idx[0]], idx[1..])
    else 0.0
  }

  /** An in-bounds index splits into an in-bounds first entry and an
      in-bounds rest. */
  lemma InBoundsTail(idx: seq<nat>, shape: seq<nat>)
    requires InBounds(idx, shape) && |idx| > 0
    ensures idx[0] < shape[0] && InBounds(idx[1..], shape[1..])
  {
    forall a | 0 <= a < |idx| - 1
      ensures idx[1..][a] < shape[1..][a]
    {
      assert idx[1..][a] == idx[a + 1] && shape[1..][a] == shape[a + 1];
    }
  }

  /** `setElementForArray`: follows every index entry but the last down from
      the root, then stores `value` under the last entry. With an empty index
      the store goes to a property that is not an element, so no element
      changes. */
  function SetAt(arr: Value, value: Value, index: seq<nat>): Value
    decreases |index|
  {
    if |index| == 0 || !arr.List? || index[0] >= |arr.items| then arr
    else if |index| == 1 then List(arr.items[index[0] := value])
    else List(arr.items[index[0] := SetAt(arr.items[index[0]], value, index[1..])])
  }

  /** Storing a number at an in-bounds index of a regular array keeps the
      array regular, puts the number at that index and leaves every other
      leaf alone. */
  lemma {:induction false} SetAtLaws(arr: Value, shape: seq<nat>, index: seq<nat>, x: real)
    requires Conforms(arr, shape) && |shape| > 0 && InBounds(index, shape)
    ensures Conforms(SetAt(arr, Num(x), index), shape)
    ensures At(SetAt(arr, Num(x), index), index) == x
    ensures forall j: seq<nat> :: InBounds(j, shape) && j != index ==>
      At(SetAt(arr, Num(x), index), j) == At(arr, j)
    decreases |shape|
  {
    var r := SetAt(arr, Num(x), index);
    var i := index[0];
    InBoundsTail(index, shape);
    if |shape| == 1 {
      assert index[1..] == [];
      forall j: seq<nat> | InBounds(j, shape) && j != index
        ensures At(r, j) == At(arr, j)
      {
        InBoundsTail(j, shape);
        assert j[1..] == [] && j == [j[0]] && index == [i];
      }
    } else {
      var inner := arr.items[i];
      SetAtLaws(inner, shape[1..], index[1..], x);
      assert r.items[i] == SetAt(inner, Num(x), index[1..]);
      forall j: seq<nat> | InBounds(j, shape) && j != index
        ensures At(r, j) == At(arr, j)
      {
        InBoundsTail(j, shape);
        if j[0] == i {
          assert j == [i] + j[1..] && index == [i] + index[1..];
        }
      }
    }
  }

  /** mathjs `zeros(size)` for a size given as an array: a regular array of
      zeros. */
  function Zeros(size: seq<nat>): (r: Value)
    ensures Conforms(r, size)
    decreases |size|
  {
    if |size| == 0 then Num(0.0)
    else List(seq(size[0], _ => Zeros(size[1..])))
  }

  /* ---------------------------------------------------------------------- */
  /* forEachElementForArray                                                   */

  /** One call of the `forEachElementForArray` callback: a leaf and its
      index path. */
  datatype Visit = Visit(leaf: real, path: seq<nat>)

  /** `forEachElementForArray`'s `dfs(cell, i)`, as the calls it makes: an
      array visits each element j with path i + [j] in turn; anything else
      is a single call with path i. */
  function Walk(cell: Value, path: seq<nat>): seq<Visit>
    decreases cell, 1
  {
    match cell
    case Num(x) => [Visit(x, path)]
    case List(items) => WalkFrom(items, path, 0)
  }

  /** The calls for the elements from j on. */
  function WalkFrom(items: seq<Value>, path: seq<nat>, j: nat): seq<Visit>
    requires j <= |items|
    decreases items, |items| - j
  {
    if j == |items| then [] else Walk(items[j], path + [j]) + WalkFrom(items, path, j + 1)
  }

  /** `vis` is the call for the leaf that comes `pos`-th in row-major order
      in the regular array `root` of shape `shape`, walked under `prefix`. */
  predicate Places(vis: Visit, prefix: seq<nat>, root: Value, shape: seq<nat>, pos: int)
  {
    |vis.path| == |prefix| + |shape| && vis.path[..|prefix|] == prefix
    && InBounds(vis.path[|prefix|..], shape)
    && Offset(vis.path[|prefix|..], Strides(shape)) == pos
    && vis.leaf == At(root, vis.path[|prefix|..])
  }

  /** On a regular array the walk makes one call per leaf, and the t-th call
      carries the in-bounds index whose row-major offset is t, with the leaf
      stored there. */
  lemma {:induction false} WalkLaws(cell: Value, shape: seq<nat>, prefix: seq<nat>)
    requires Conforms(cell, shape)
    ensures |Walk(cell, prefix)| == Product(shape)
    ensures forall t :: 0 <= t < |Walk(cell, prefix)| ==> Places(Walk(cell, prefix)[t], prefix, cell, shape, t)
    decreases |shape|, 1, 0
  {
    if |shape| == 0 {
      var vis := Walk(cell, prefix)[0];
      assert vis.path[|prefix|..] == [];
      assert vis.path[..|prefix|] == prefix;
    } else {
      WalkFromLaws(cell.items, shape, prefix, 0);
    }
  }

  lemma {:induction false} WalkFromLaws(items: seq<Value>, shape: seq<nat>, prefix: seq<nat>, j: nat)
    requires |shape| > 0 && |items| == shape[0] && j <= |items|
    requires forall i :: 0 <= i < |items| ==> Conforms(items[i], shape[1..])
    ensures |WalkFrom(items, prefix, j)| == (|items| - j) * Product(shape[1..])
    ensures forall t :: 0 <= t < |WalkFrom(items, prefix, j)| ==>
      Places(WalkFrom(items, prefix, j)[t], prefix, List(items), shape, j * Product(shape[1..]) + t)
    decreases |shape|, 0, |items| - j
  {
    if j < |items| {
      var p := Product(shape[1..]);
      var head := Walk(items[j], prefix + [j]);
      var rest := WalkFrom(items, prefix, j + 1);
      WalkLaws(items[j], shape[1..], prefix + [j]);
      WalkFromLaws(items, shape, prefix, j + 1);
      assert (|items| - j) * p == p + (|items| - (j + 1)) * p;
      forall t | 0 <= t < |head| + |rest|
        ensures Places((head + rest)[t], prefix, List(items), shape, j * p + t)
      {
        if t < |head| {
          PlacesStep(head[t], prefix, j, items, shape, t);
        } else {
          assert (head + rest)[t] == rest[t - p];
          assert (j + 1) * p + (t - p) == j * p + t;
        }
      }
    }
  }

  /** A call placed at `t` within element j is placed at j * P + t within
      the whole array, P being the size of an element. */
  lemma PlacesStep(vis: Visit, prefix: seq<nat>, j: nat, items: seq<Value>, shape: seq<nat>, t: int)
    requires |shape| > 0 && |items| == shape[0] && j < |items|
    requires Places(vis, prefix + [j], items[j], shape[1..], t)
    ensures Places(vis, prefix, List(items), shape, j * Product(shape[1..]) + t)
  {
    var k := |prefix|;
    var rel := vis.path[k..];
    var sub := vis.path[k + 1..];
    assert vis.path[..k] == vis.path[..k + 1][..k];
    assert rel[0] == vis.path[..k + 1][k] == j;
    assert rel == [j] + sub;
    forall a | 0 <= a < |rel|
      ensures 0 <= rel[a] < shape[a]
    {
      if a > 0 {
        assert rel[a] == sub[a - 1] && shape[a] == shape[1..][a - 1];
      }
    }
    var st := Strides(shape);
    OffsetCons(rel, st);
    StridesSuffix(shape, 1);
    assert st[0] == Product(shape[0 + 1..]);
    assert rel[1..] == sub;
  }

  /** `forEachElementForArray` visits the leaves of a regular array in
      row-major order: the t-th call carries the t-th index of the shape. */
  lemma WalkIsRowMajor(v: Value, shape: seq<nat>)
    requires Conforms(v, shape)
    ensures |Walk(v, [])| == |Indexes(shape)|
    ensures forall t :: 0 <= t < |Walk(v, [])| ==>
      Walk(v, [])[t].path == Indexes(shape)[t] && Walk(v, [])[t].leaf == At(v, Indexes(shape)[t])
  {
    var w := Walk(v, []);
    WalkLaws(v, shape, []);
    IndexesCount(shape);
    forall t | 0 <= t < |w|
      ensures w[t].path == Indexes(shape)[t]
    {
      assert w[t].path[0..] == w[t].path;
      IndexesComplete(shape, w[t].path);
    }
  }

  /* ---------------------------------------------------------------------- */
  /* mapElementForArray                                                       */

  /** `mapElementForArray`'s `dfs(cell, i)`: an array is mapped element by
      element with path i + [j]; a leaf becomes `fn(leaf, i)`. */
  function MapLeaves(cell: Value, path: seq<nat>, fn: (real, seq<nat>) -> real): Value
    decreases cell
  {
    match cell
    case Num(x) => Num(fn(x, path))
    case List(items) => List(seq(|items|, j requires 0 <= j < |items| => MapLeaves(items[j], path + [j], fn)))
  }

  /** The map keeps the nesting exactly: the result has a shape iff the
      argument has it. */
  lemma {:induction false} MapKeepsNesting(cell: Value, shape: seq<nat>, path: seq<nat>, fn: (real, seq<nat>) -> real)
    ensures Conforms(MapLeaves(cell, path, fn), shape) <==> Conforms(cell, shape)
    decreases |shape|
  {
    if |shape| > 0 && cell.List? {
      var m := MapLeaves(cell, path, fn);
      forall j | 0 <= j < |cell.items|
        ensures Conforms(m.items[j], shape[1..]) <==> Conforms(cell.items[j], shape[1..])
      {
        MapKeepsNesting(cell.items[j], shape[1..], path + [j], fn);
      }
    }
  }

  /** On a regular array every leaf of the map is `fn` of the old leaf and
      its full path. */
  lemma {:induction false} MapLeavesAt(cell: Value, shape: seq<nat>, path: seq<nat>, fn: (real, seq<nat>) -> real, idx: seq<nat>)
    requires Conforms(cell, shape) && InBounds(idx, shape)
    ensures At(MapLeaves(cell, path, fn), idx) == fn(At(cell, idx), path + idx)
    decreases |shape|
  {
    if |shape| == 0 {
      assert idx == [] && path + idx == path;
    } else {
      InBoundsTail(idx, shape);
      var j := idx[0];
      var items := cell.items;
      var m := MapLeaves(cell, path, fn);
      assert m.items[j] == MapLeaves(items[j], path + [j], fn);
      MapLeavesAt(items[j], shape[1..], path + [j], fn, idx[1..]);
      assert path + [j] + idx[1..] == path + idx;
    }
  }

  /** `NdArray.mapElement`: maps every leaf of the array with its index. */
  function MapElement(value: seq<Value>, fn: (real, seq<nat>) -> real): seq<Value>
  {
    MapLeaves(List(value), [], fn).items
  }

  /* ---------------------------------------------------------------------- */
  /* checkAxisOrder                                                           */

  /** lodash `uniq`: the first occurrence of each entry, in order. */
  function Uniq(s: seq<int>): seq<int>
  {
    if |s| == 0 then []
    else
      var u := Uniq(s[..|s| - 1]);
      if s[|s| - 1] in u then u else u + [s[|s| - 1]]
  }

  predicate NoRepeats(s: seq<int>)
  {
    forall i, j :: 0 <= i < j < |s| ==> s[i] != s[j]
  }

  /** `uniq` keeps exactly the entries of its argument, and drops nothing
      precisely when nothing repeats. */
  lemma {:induction false} UniqLaws(s: seq<int>)
    ensures forall d :: d in Uniq(s) <==> d in s
    ensures |Uniq(s)| <= |s|
    ensures |Uniq(s)| == |s| <==> NoRepeats(s)
  {
    if |s| > 0 {
      var n := |s| - 1;
      var init := s[..n];
      UniqLaws(init);
      assert s == init + [s[n]];
      if NoRepeats(s) {
        assert NoRepeats(init) by {
          forall i, j | 0 <= i < j < |init| ensures init[i] != init[j] {
            assert init[i] == s[i] && init[j] == s[j];
          }
        }
        assert s[n] !in init;
      }
      if |Uniq(s)| == |s| {
        assert s[n] !in Uniq(init) && |Uniq(init)| == |init|;
        forall i, j | 0 <= i < j < |s|
          ensures s[i] != s[j]
        {
          if j == n {
            assert s[i] == init[i];
          } else {
            assert s[i] == init[i] && s[j] == init[j];
          }
        }
      }
    }
  }

  const SameLength := "axisOrder must be same length as shape"

  /** `wrong order: ${order}`: an array prints as its entries joined by commas. */
  function WrongOrder(order: seq<int>): string
  {
    "wrong order: " + Joined(order)
  }

  /** `checkAxisOrder`: the order must have one entry per axis, and its
      `uniq` must too, and every entry of the `uniq` must occur in the order. */
  function CheckAxisOrder(order: seq<int>, shape: seq<nat>): Result<()>
  {
    if |order| != |shape| then Failure(SameLength)
    else
      var unique := Uniq(order);
      if |unique| != |shape| || exists d :: d in unique && d !in order then Failure(WrongOrder(order))
      else Success(())
  }

  /** The check accepts exactly the orders of the right length without a
      repeated entry. Its second test can never fire, so entries are not
      checked to be axes. */
  lemma CheckAxisOrderSound(order: seq<int>, shape: seq<nat>)
    ensures CheckAxisOrder(order, shape).Success? <==> |order| == |shape| && NoRepeats(order)
    ensures |order| != |shape| ==> CheckAxisOrder(order, shape) == Failure(SameLength)
    ensures |order| == |shape| && !NoRepeats(order) ==> CheckAxisOrder(order, shape) == Failure(WrongOrder(order))
    ensures forall d :: d in Uniq(order) ==> d in order
  {
    UniqLaws(order);
  }

  /** Entries that are not axes pass: [0, 5] and [-1, 0] for a 2 x 2 array. */
  lemma RangeNotChecked()
    ensures CheckAxisOrder([0, 5], [2, 2]) == Success(())
    ensures CheckAxisOrder([-1, 0], [2, 2]) == Success(())
    ensures CheckAxisOrder([1, 1], [2, 2]) == Failure("wrong order: 1,1")
  {
    CheckAxisOrderSound([0, 5], [2, 2]);
    CheckAxisOrderSound([-1, 0], [2, 2]);
    CheckAxisOrderSound([1, 1], [2, 2]);
    assert Joined([1, 1]) == "1" + "," + "1";
  }

  /** A permutation of the axes repeats nothing. */
  lemma PermutationNoRepeats(order: seq<nat>, n: nat)
    requires IsPermutation(order, n)
    ensures NoRepeats(order)
  {
  }

  /* ---------------------------------------------------------------------- */
  /* permute and T                                                            */

  /** Where the callback of `permute` stores a leaf: entry d of its path is
      entry order[d] of the leaf's path. */
  function Target(vis: Visit, order: seq<nat>): (r: seq<nat>)
    requires forall d :: 0 <= d < |order| ==> order[d] < |vis.path|
    ensures |r| == |order|
  {
    Reordered(vis.path, order)
  }

  /** Every call's path has one entry per axis of `order`, which names only
      axes. */
  predicate Aimed(visits: seq<Visit>, order: seq<nat>)
  {
    (forall d :: 0 <= d < |order| ==> order[d] < |order|)
    && forall t :: 0 <= t < |visits| ==> |visits[t].path| == |order|
  }

  function Targets(visits: seq<Visit>, order: seq<nat>): (r: seq<seq<nat>>)
    requires Aimed(visits, order)
    ensures |r| == |visits|
  {
    seq(|visits|, t requires 0 <= t < |visits| => Target(visits[t], order))
  }

  /** The stores the callback makes, in walk order, starting from `res`. */
  function Scatter(res: Value, visits: seq<Visit>, order: seq<nat>): Value
    requires Aimed(visits, order)
    decreases |visits|
  {
    if |visits| == 0 then res
    else
      assert Aimed(visits[1..], order) by {
        forall t | 0 <= t < |visits| - 1 ensures |visits[1..][t].path| == |order| {
          assert visits[1..][t] == visits[t + 1];
        }
      }
      Scatter(SetAt(res, Num(visits[0].leaf), Target(visits[0], order)), visits[1..], order)
  }

  /** Stores at distinct in-bounds places: each place ends up holding its
      leaf and every other place keeps its old leaf. */
  lemma {:induction false} ScatterLaws(res: Value, visits: seq<Visit>, order: seq<nat>, shape: seq<nat>)
    requires Aimed(visits, order) && Conforms(res, shape) && |shape| > 0
    requires forall t :: 0 <= t < |visits| ==> InBounds(Targets(visits, order)[t], shape)
    requires forall s, t :: 0 <= s < t < |visits| ==> Targets(visits, order)[s] != Targets(visits, order)[t]
    ensures Conforms(Scatter(res, visits, order), shape)
    ensures forall t :: 0 <= t < |visits| ==> At(Scatter(res, visits, order), Targets(visits, order)[t]) == visits[t].leaf
    ensures forall j: seq<nat> :: InBounds(j, shape) && j !in Targets(visits, order) ==>
      At(Scatter(res, visits, order), j) == At(res, j)
    decreases |visits|
  {
    if |visits| > 0 {
      var all := Targets(visits, order);
      var rest := visits[1..];
      TargetsTail(visits, order);
      var later := Targets(rest, order);
      var first := SetAt(res, Num(visits[0].leaf), all[0]);
      SetAtLaws(res, shape, all[0], visits[0].leaf);
      ScatterLaws(first, rest, order, shape);
      var out := Scatter(res, visits, order);
      assert out == Scatter(first, rest, order);
      ScatterCombine(res, first, out, visits, all, later, shape);
    }
  }

  /** The first store followed by the later ones: the places of all the
      stores hold their leaves and every other place its leaf in `res`. */
  lemma ScatterCombine(res: Value, first: Value, out: Value, visits: seq<Visit>,
                       all: seq<seq<nat>>, later: seq<seq<nat>>, shape: seq<nat>)
    requires |visits| == |all| > 0 && later == all[1..]
    requires forall s, t :: 0 <= s < t < |all| ==> all[s] != all[t]
    requires InBounds(all[0], shape) && At(first, all[0]) == visits[0].leaf
    requires forall j: seq<nat> :: InBounds(j, shape) && j != all[0] ==> At(first, j) == At(res, j)
    requires forall t :: 0 <= t < |visits[1..]| ==> At(out, later[t]) == visits[1..][t].leaf
    requires forall j: seq<nat> :: InBounds(j, shape) && j !in later ==> At(out, j) == At(first, j)
    ensures forall t :: 0 <= t < |visits| ==> At(out, all[t]) == visits[t].leaf
    ensures forall j: seq<nat> :: InBounds(j, shape) && j !in all ==> At(out, j) == At(res, j)
  {
    assert all[0] !in later by {
      forall t | 0 <= t < |later| ensures later[t] != all[0] {
        assert later[t] == all[t + 1];
      }
    }
    forall t | 0 <= t < |visits|
      ensures At(out, all[t]) == visits[t].leaf
    {
      if t > 0 {
        assert all[t] == later[t - 1] && visits[t] == visits[1..][t - 1];
      }
    }
  }

  /** The calls after the first aim at the targets after the first. */
  lemma TargetsTail(visits: seq<Visit>, order: seq<nat>)
    requires Aimed(visits, order) && |visits| > 0
    ensures Aimed(visits[1..], order)
    ensures Targets(visits[1..], order) == Targets(visits, order)[1..]
  {
    var rest := visits[1..];
    assert Aimed(rest, order) by {
      forall t | 0 <= t < |rest| ensures |rest[t].path| == |order| {
        assert rest[t] == visits[t + 1];
      }
    }
    var later, all := Targets(rest, order), Targets(visits, order);
    forall t | 0 <= t < |rest| ensures later[t] == all[1..][t] {
      assert rest[t] == visits[t + 1];
    }
  }

  /** `permute` as a value: the check, then zeros of the reordered shape
      receive every leaf at its reordered path. */
  function PermuteSpec(value: seq<Value>, order: seq<int>): Result<Value>
    requires forall d :: 0 <= d < |order| ==> 0 <= order[d] < |order|
    requires Conforms(List(value), ArrayShape(List(value)))
  {
    var shape := ArrayShape(List(value));
    var _ :- CheckAxisOrder(order, shape);
    var axes: seq<nat> := order;
    WalkLaws(List(value), shape, []);
    Success(Scatter(Zeros(Reordered(shape, axes)), Walk(List(value), []), axes))
  }

  /** `permute`: reads the shape, checks the order, fills zeros of the
      reordered shape by walking the leaves and storing each one at its
      reordered path. */
  method Permute(value: seq<Value>, order: seq<int>) returns (r: Result<Value>)
    requires forall d :: 0 <= d < |order| ==> 0 <= order[d] < |order|
    requires Conforms(List(value), ArrayShape(List(value)))
    ensures r == PermuteSpec(value, order)
  {
    var shape := GetArrayShape(List(value));
    var checked := CheckAxisOrder(order, shape);
    if checked.Failure? {
      return Failure(checked.error);
    }
    var axes: seq<nat> := order;
    var start := Zeros(Reordered(shape, axes));
    var res := start;
    var visits := Walk(List(value), []);
    WalkLaws(List(value), shape, []);
    var n := 0;
    while n < |visits|
      invariant n <= |visits| && Aimed(visits[n..], axes)
      invariant Scatter(res, visits[n..], axes) == Scatter(start, visits, axes)
    {
      assert visits[n..][1..] == visits[n + 1..];
      res := SetAt(res, Num(visits[n].leaf), Reordered(visits[n].path, axes));
      n := n + 1;
    }
    return Success(res);
  }

  /** The promise of `permute`: for a regular array and a permutation of its
      axes, the result is a regular array of the reordered shape, and the leaf
      at index i lands at the index whose entry d is i[order[d]]. */
  lemma PermuteMoves(value: seq<Value>, order: seq<nat>)
    requires Conforms(List(value), ArrayShape(List(value)))
    requires IsPermutation(order, |ArrayShape(List(value))|)
    ensures PermuteSpec(value, order).Success?
    ensures Conforms(PermuteSpec(value, order).value, Reordered(ArrayShape(List(value)), order))
    ensures forall idx: seq<nat> :: InBounds(idx, ArrayShape(List(value))) ==>
      At(PermuteSpec(value, order).value, Reordered(idx, order)) == At(List(value), idx)
  {
    var v := List(value);
    var shape := ArrayShape(v);
    CheckAxisOrderSound(order, shape);
    PermutationNoRepeats(order, |shape|);
    var visits := Walk(v, []);
    WalkLaws(v, shape, []);
    var places := Targets(visits, order);
    forall t | 0 <= t < |visits|
      ensures visits[t].path == visits[t].path[0..] && InBounds(places[t], Reordered(shape, order))
    {
      ReorderedInBounds(visits[t].path, shape, order);
    }
    forall s, t | 0 <= s < t < |visits|
      ensures places[s] != places[t]
    {
      if places[s] == places[t] {
        ReorderedInjective(visits[s].path, visits[t].path, order);
      }
    }
    var tshape := Reordered(shape, order);
    ScatterLaws(Zeros(tshape), visits, order, tshape);
    forall idx: seq<nat> | InBounds(idx, shape)
      ensures At(PermuteSpec(value, order).value, Reordered(idx, order)) == At(v, idx)
    {
      IndexesComplete(shape, idx);
      IndexesCount(shape);
      var t := Offset(idx, Strides(shape));
      assert visits[t].path == visits[t].path[0..];
      OffsetInjective(shape, visits[t].path, idx);
      assert places[t] == Reordered(idx, order);
    }
  }

  /** `T`: `permute` by the axes in reverse. */
  method T(value: seq<Value>) returns (r: Result<Value>)
    requires Conforms(List(value), ArrayShape(List(value)))
    ensures r == PermuteSpec(value, ReversedAxes(|ArrayShape(List(value))|))
  {
    var shape := GetArrayShape(List(value));
    r := Permute(value, ReversedAxes(|shape|));
  }

  /** Transposing puts the leaf at index i at the reversed index. */
  lemma TransposeMoves(value: seq<Value>)
    requires Conforms(List(value), ArrayShape(List(value)))
    ensures PermuteSpec(value, ReversedAxes(|ArrayShape(List(value))|)).Success?
    ensures forall idx: seq<nat> :: InBounds(idx, ArrayShape(List(value))) ==>
      At(PermuteSpec(value, ReversedAxes(|ArrayShape(List(value))|)).value, Reordered(idx, ReversedAxes(|idx|)))
        == At(List(value), idx)
  {
    ReversedAxesIsPermutation(|ArrayShape(List(value))|);
    PermuteMoves(value, ReversedAxes(|ArrayShape(List(value))|));
  }

  /* ---------------------------------------------------------------------- */
  /* The package's own expectations                                           */

  /** Two regular arrays of one shape that agree at every index are equal. */
  lemma {:induction false} Extensional(a: Value, b: Value, shape: seq<nat>)
    requires Conforms(a, shape) && Conforms(b, shape)
    requires forall idx: seq<nat> :: InBounds(idx, shape) ==> At(a, idx) == At(b, idx)
    ensures a == b
    decreases |shape|
  {
    if |shape| == 0 {
      assert InBounds([], shape) && At(a, []) == At(b, []);
    } else {
      forall j | 0 <= j < shape[0]
        ensures a.items[j] == b.items[j]
      {
        forall idx: seq<nat> | InBounds(idx, shape[1..])
          ensures At(a.items[j], idx) == At(b.items[j], idx)
        {
          assert InBounds([j] + idx, shape);
          assert ([j] + idx)[1..] == idx;
        }
        Extensional(a.items[j], b.items[j], shape[1..]);
      }
    }
  }

  function Row3(x: real, y: real, z: real): Value
  {
    List([Num(x), Num(y), Num(z)])
  }

  /** A rows x cols array permuted by [1, 0] holds at [i, j] what the
      original holds at [j, i]. */
  lemma Swapped(value: seq<Value>, rows: nat, cols: nat) returns (got: Value)
    requires Conforms(List(value), [rows, cols]) && rows > 0
    ensures ArrayShape(List(value)) == [rows, cols]
    ensures PermuteSpec(value, [1, 0]) == Success(got) && Conforms(got, [cols, rows])
    ensures forall i: nat, j: nat :: i < cols && j < rows ==> At(got, [i, j]) == At(List(value), [j, i])
  {
    var order: seq<nat> := [1, 0];
    ArrayShapeOfRegular(List(value), [rows, cols]);
    PermuteMoves(value, order);
    got := PermuteSpec(value, order).value;
    assert Reordered([rows, cols], order) == [cols, rows];
    forall i: nat, j: nat | i < cols && j < rows
      ensures At(got, [i, j]) == At(List(value), [j, i])
    {
      assert InBounds([j, i], [rows, cols]);
      assert Reordered([j, i], order) == [i, j];
    }
  }

  /** [[1,2,3],[2,3,4],[6,6,6]] permuted by [1, 0] is
      [[1,2,6],[2,3,6],[3,4,6]]. */
  lemma PermuteExample()
    ensures PermuteSpec([Row3(1.0, 2.0, 3.0), Row3(2.0, 3.0, 4.0), Row3(6.0, 6.0, 6.0)], [1, 0])
      == Success(List([Row3(1.0, 2.0, 6.0), Row3(2.0, 3.0, 6.0), Row3(3.0, 4.0, 6.0)]))
  {
    var value := [Row3(1.0, 2.0, 3.0), Row3(2.0, 3.0, 4.0), Row3(6.0, 6.0, 6.0)];
    var want := List([Row3(1.0, 2.0, 6.0), Row3(2.0, 3.0, 6.0), Row3(3.0, 4.0, 6.0)]);
    ExampleCells(value, want);
    SwapEquals(value, want, 3, 3);
  }

  /** A regular array that holds at [i, j] what `value` holds at [j, i] is
      the result of permuting `value` by [1, 0]. */
  lemma SwapEquals(value: seq<Value>, want: Value, rows: nat, cols: nat)
    requires Conforms(List(value), [rows, cols]) && rows > 0 && Conforms(want, [cols, rows])
    requires forall i: nat, j: nat :: i < cols && j < rows ==> At(want, [i, j]) == At(List(value), [j, i])
    ensures ArrayShape(List(value)) == [rows, cols]
    ensures PermuteSpec(value, [1, 0]) == Success(want)
  {
    var got := Swapped(value, rows, cols);
    forall idx: seq<nat> | InBounds(idx, [cols, rows])
      ensures At(got, idx) == At(want, idx)
    {
      assert idx == [idx[0], idx[1]];
    }
    Extensional(got, want, [cols, rows]);
  }

  lemma ExampleCells(value: seq<Value>, want: Value)
    requires value == [Row3(1.0, 2.0, 3.0), Row3(2.0, 3.0, 4.0), Row3(6.0, 6.0, 6.0)]
    requires want == List([Row3(1.0, 2.0, 6.0), Row3(2.0, 3.0, 6.0), Row3(3.0, 4.0, 6.0)])
    ensures Conforms(List(value), [3, 3]) && Conforms(want, [3, 3])
    ensures forall i: nat, j: nat :: i < 3 && j < 3 ==> At(want, [i, j]) == At(List(value), [j, i])
  {
    forall i: nat, j: nat | i < 3 && j < 3
      ensures At(want, [i, j]) == At(List(value), [j, i])
    {
      Cell(List(value), j, i);
      Cell(want, i, j);
      assert i == 0 || i == 1 || i == 2;
      assert j == 0 || j == 1 || j == 2;
    }
  }

  /** Reading [i, j] of a nested array goes through row i, then element j. */
  lemma Cell(v: Value, i: nat, j: nat)
    requires v.List? && i < |v.items| && v.items[i].List? && j < |v.items[i].items|
    ensures At(v, [i, j]) == At(v.items[i].items[j], [])
  {
    assert [i, j][1..] == [j] && [j][1..] == [];
  }

  /** For a regular array whose axes are all non-empty, the shape getter
      reads the reordered shape off the result of `permute`. */
  lemma PermutedShape(value: seq<Value>, shape: seq<nat>, order: seq<nat>)
    requires Conforms(List(value), shape) && forall a :: 0 <= a < |shape| ==> shape[a] > 0
    requires IsPermutation(order, |shape|)
    ensures ArrayShape(List(value)) == shape
    ensures PermuteSpec(value, order).Success?
    ensures ArrayShape(PermuteSpec(value, order).value) == Reordered(shape, order)
  {
    ArrayShapeOfRegular(List(value), shape);
    var r := PermutedValue(value, shape, order);
    ArrayShapeOfRegular(r, Reordered(shape, order));
  }

  /** `permute` of a regular array succeeds with an array of the reordered
      shape. */
  lemma PermutedValue(value: seq<Value>, shape: seq<nat>, order: seq<nat>) returns (r: Value)
    requires Conforms(List(value), shape) && ArrayShape(List(value)) == shape
    requires IsPermutation(order, |shape|)
    ensures PermuteSpec(value, order) == Success(r)
    ensures Conforms(r, Reordered(shape, order))
  {
    PermuteMoves(value, order);
    r := PermuteSpec(value, order).value;
  }

  /** A [12, 23, 32, 33] array permuted by [2, 0, 3, 1] has shape
      [32, 12, 33, 23]. */
  lemma PermuteShapeExample(value: seq<Value>)
    requires Conforms(List(value), [12, 23, 32, 33])
    ensures ArrayShape(List(value)) == [12, 23, 32, 33]
    ensures PermuteSpec(value, [2, 0, 3, 1]).Success?
    ensures ArrayShape(PermuteSpec(value, [2, 0, 3, 1]).value) == [32, 12, 33, 23]
  {
    var order: seq<nat> := [2, 0, 3, 1];
    assert IsPermutation(order, 4);
    PermutedShape(value, [12, 23, 32, 33], order);
  }

  /** Its transpose has shape [33, 32, 23, 12]. */
  lemma TransposeShapeExample(value: seq<Value>)
    requires Conforms(List(value), [12, 23, 32, 33])
    ensures ArrayShape(List(value)) == [12, 23, 32, 33]
    ensures PermuteSpec(value, ReversedAxes(4)).Success?
    ensures ArrayShape(PermuteSpec(value, ReversedAxes(4)).value) == [33, 32, 23, 12]
  {
    ReversedAxesIsPermutation(4);
    PermutedShape(value, [12, 23, 32, 33], ReversedAxes(4));
    assert Reordered([12, 23, 32, 33], ReversedAxes(4)) == [33, 32, 23, 12];
  }
}
