/** Nested JavaScript arrays and the helpers of
    `packages/ndarray-js/src/lib.ts`: `getArrayShape`, which reads a shape off
    a nested array by following element 0, and `getStrides`, which is the
    row-major `IndexMath.Strides`. */
module JsLib {
  import opened Wrappers
  import opened IndexMath

  /** A JavaScript value as the array constructors see it: a number or an
      array of values (possibly ragged). */
  datatype Value = Num(x: real) | List(items: seq<Value>)

  /** `getArrayShape`: the length of each nesting level, always following
      element 0; an empty array ends the walk after recording its 0. */
  function ArrayShape(v: Value): (r: seq<nat>)
    ensures v.Num? <==> r == []
  {
    match v
    case Num(_) => []
    case List(items) => [|items|] + (if |items| == 0 then [] else ArrayShape(items[0]))
  }

  /** What is left of the shape to read from the current position (`None`
      once `array[0]` of an empty array has been taken). */
  function ShapeFrom(cur: Option<Value>): seq<nat>
  {
    if cur.None? then [] else ArrayShape(cur.value)
  }

  /** `getArrayShape`: pushes `array.length` and steps into `array[0]` while
      the current value is an array. */
  method GetArrayShape(v: Value) returns (shape: seq<nat>)
    ensures shape == ArrayShape(v)
  {
    shape := [];
    var cur: Option<Value> := Some(v);
    while cur.Some? && cur.value.List?
      invariant shape + ShapeFrom(cur) == ArrayShape(v)
      decreases |ShapeFrom(cur)|
    {
      var items := cur.value.items;
      var next := Inner(cur.value);
      assert shape + [|items|] + ShapeFrom(next) == shape + ShapeFrom(cur);
      shape := shape + [|items|];
      cur := next;
    }
    assert ShapeFrom(cur) == [];
    assert shape == shape + ShapeFrom(cur);
  }

  /** `array[0]` of an array: `None` (undefined) when it is empty. */
  function Inner(a: Value): (r: Option<Value>)
    requires a.List?
    ensures ShapeFrom(Some(a)) == [|a.items|] + ShapeFrom(r)
  {
    if |a.items| == 0 then None else Some(a.items[0])
  }

  /** `v` is a regular nested array of shape `shape`: every array on level
      `a` has `shape[a]` elements and the leaves are numbers. */
  predicate Conforms(v: Value, shape: seq<nat>)
  {
    if |shape| == 0 then v.Num?
    else v.List? && |v.items| == shape[0]
         && forall i :: 0 <= i < |v.items| ==> Conforms(v.items[i], shape[1..])
  }

  /** Every axis but the last has at least one element, so following
      element 0 reaches the bottom level. */
  predicate Reachable(shape: seq<nat>)
  {
    forall a :: 0 <= a < |shape| - 1 ==> shape[a] > 0
  }

  /** On a regular array whose inner levels are non-empty, `getArrayShape`
      recovers the shape. */
  lemma {:induction false} ArrayShapeOfRegular(v: Value, shape: seq<nat>)
    requires Conforms(v, shape) && Reachable(shape)
    ensures ArrayShape(v) == shape
    decreases |shape|
  {
    if |shape| > 0 && shape[0] > 0 {
      assert Reachable(shape[1..]) by {
        forall a | 0 <= a < |shape[1..]| - 1
          ensures shape[1..][a] > 0
        {
          assert shape[1..][a] == shape[a + 1];
        }
      }
      ArrayShapeOfRegular(v.items[0], shape[1..]);
      assert shape == [shape[0]] + shape[1..];
    }
  }

  /** Siblings of element 0 are never inspected: a ragged array reports the
      shape of its first branch. */
  lemma RaggedNotDetected()
    ensures ArrayShape(List([List([Num(1.0), Num(2.0)]), List([Num(3.0)])])) == [2, 2]
    ensures !Conforms(List([List([Num(1.0), Num(2.0)]), List([Num(3.0)])]), [2, 2])
  {
    var v := List([List([Num(1.0), Num(2.0)]), List([Num(3.0)])]);
    assert !Conforms(v.items[1], [2]);
  }

  /** The leaves of a nested array, depth first (a full flatten). */
  function Flat(v: Value): seq<real>
    decreases v, 1
  {
    match v
    case Num(x) => [x]
    case List(items) => FlatEach(items)
  }

  function FlatEach(items: seq<Value>): seq<real>
    decreases items, 0
  {
    if |items| == 0 then [] else Flat(items[0]) + FlatEach(items[1..])
  }

  /** A regular array of shape `shape` has exactly `Product(shape)`
      leaves. */
  lemma {:induction false} FlatLength(v: Value, shape: seq<nat>)
    requires Conforms(v, shape)
    ensures |Flat(v)| == Product(shape)
    decreases |shape|, 0
  {
    if |shape| > 0 {
      FlatEachLength(v.items, shape[1..]);
    }
  }

  lemma {:induction false} FlatEachLength(items: seq<Value>, inner: seq<nat>)
    requires forall i :: 0 <= i < |items| ==> Conforms(items[i], inner)
    ensures |FlatEach(items)| == |items| * Product(inner)
    decreases |inner|, |items|
  {
    if |items| > 0 {
      FlatLength(items[0], inner);
      FlatEachLength(items[1..], inner);
      MulSucc(|items|, Product(inner));
    }
  }

  /** lodash `flatten`: one level only; an element that is itself an array
      is spliced in, anything else is kept. */
  function FlattenOnce(items: seq<Value>): (r: seq<Value>)
  {
    if |items| == 0 then []
    else (if items[0].List? then items[0].items else [items[0]]) + FlattenOnce(items[1..])
  }

  /** Numbers as values. */
  function Nums(s: seq<real>): (r: seq<Value>)
    ensures |r| == |s| && forall i :: 0 <= i < |s| ==> r[i] == Num(s[i])
  {
    seq(|s|, i requires 0 <= i < |s| => Num(s[i]))
  }

  /** For a one- or two-level regular array, the one-level flatten already
      yields the leaves. */
  lemma {:induction false} FlattenOnceShallow(items: seq<Value>, inner: seq<nat>)
    requires |inner| <= 1
    requires forall i :: 0 <= i < |items| ==> Conforms(items[i], inner)
    ensures FlattenOnce(items) == Nums(FlatEach(items))
    decreases |items|
  {
    if |items| > 0 {
      FlattenOnceShallow(items[1..], inner);
      var head := items[0];
      if |inner| == 0 {
        assert Flat(head) == [head.x];
        assert [head] == Nums(Flat(head));
      } else {
        assert inner == [inner[0]];
        LeavesOfRow(head, inner[0]);
      }
      assert Nums(Flat(head) + FlatEach(items[1..])) == Nums(Flat(head)) + Nums(FlatEach(items[1..]));
    }
  }

  /** A one-level array of numbers flattens to its own elements. */
  lemma {:induction false} LeavesOfRow(v: Value, n: nat)
    requires Conforms(v, [n])
    ensures v.items == Nums(Flat(v))
  {
    NumRow(v.items);
  }

  lemma {:induction false} NumRow(items: seq<Value>)
    requires forall i :: 0 <= i < |items| ==> items[i].Num?
    ensures items == Nums(FlatEach(items))
    decreases |items|
  {
    if |items| > 0 {
      NumRow(items[1..]);
      assert Flat(items[0]) == [items[0].x];
      assert Nums([items[0].x] + FlatEach(items[1..])) == [items[0]] + Nums(FlatEach(items[1..]));
    }
  }

  /** `getStrides` is the row-major stride list; the two shapes of the package test. */
  lemma GetStridesExamples()
    ensures Strides([4, 5]) == [5, 1]
    ensures Strides([4, 5, 6]) == [30, 6, 1]
  {
    Shape2(4, 5);
    ImageStrides(4, 5, 6);
  }
}
