/** Parameter collection of `packages/nn/src/modules/module.ts`: a module
    is a tree whose enumerable properties are tensors, sub-modules or
    anything else, and `getParameters` lists the tensors in property
    order, a sub-module's own list spliced in where the sub-module sits.
    Tensors are node numbers of the `TensorEngine`. */
module NnModule {

  /** One enumerable property of a module, as `forIn` visits it. */
  datatype Prop =
    | TensorProp(tensor: nat)
    | ModuleProp(sub: Module)
    | OtherProp

  /** A module: its enumerable properties in `forIn` order. */
  datatype Module = Module(props: seq<Prop>)

  /** The tensors of a module, depth first, in property order. */
  function Params(m: Module): seq<nat>
    decreases m, 2
  {
    PropsParams(m.props)
  }

  function PropsParams(ps: seq<Prop>): seq<nat>
    decreases ps, 1
  {
    if |ps| == 0 then [] else PropsParams(ps[..|ps| - 1]) + PropParams(ps[|ps| - 1])
  }

  /** What one property contributes: itself for a tensor, its own
      parameters for a module, nothing otherwise. */
  function PropParams(p: Prop): seq<nat>
    decreases p, 0
  {
    match p
    case TensorProp(t) => [t]
    case ModuleProp(sub) => Params(sub)
    case OtherProp => []
  }

  /** `getParameters(module)`: the accumulator `res` walks the properties,
      pushing a tensor and replacing itself by `res` followed by the
      sub-module's list for a module. */
  method GetParameters(m: Module) returns (res: seq<nat>)
    ensures res == Params(m)
    decreases m
  {
    res := [];
    var i := 0;
    while i < |m.props|
      invariant i <= |m.props|
      invariant res == PropsParams(m.props[..i])
    {
      var v := m.props[i];
      assert m.props[..i + 1][..i] == m.props[..i];
      match v {
        case TensorProp(t) =>
          res := res + [t];
        case ModuleProp(sub) =>
          assert v in m.props;
          var inner := GetParameters(sub);
          res := res + inner;
        case OtherProp =>
      }
      i := i + 1;
    }
    assert m.props[..i] == m.props;
  }

  /** `module.parameters()`: `getParameters` of the module itself. */
  method Parameters(m: Module) returns (res: seq<nat>)
    ensures res == Params(m)
  {
    res := GetParameters(m);
  }

  /** Tensor `t` sits somewhere in the tree: as a property of `m` or of a
      sub-module, at any depth. */
  predicate Owns(m: Module, t: nat)
    decreases m
  {
    exists i :: 0 <= i < |m.props| && PropOwns(m, i, t)
  }

  predicate PropOwns(m: Module, i: nat, t: nat)
    requires i < |m.props|
    decreases m, 0
  {
    match m.props[i]
    case TensorProp(u) => u == t
    case ModuleProp(sub) => Owns(sub, t)
    case OtherProp => false
  }

  /** A tensor is listed exactly when the tree holds it. */
  lemma {:induction false} ParamsOwned(m: Module, t: nat)
    ensures t in Params(m) <==> Owns(m, t)
    decreases m, 1
  {
    var n := |m.props|;
    PropsOwned(m, n, t);
    assert m.props[..n] == m.props;
    if t in Params(m) {
      assert t in PropsParams(m.props[..n]);
      var i :| 0 <= i < n && PropOwns(m, i, t);
    }
    if Owns(m, t) {
      var i := OwnedAt(m, t);
      assert exists j :: 0 <= j < n && PropOwns(m, j, t);
      assert t in PropsParams(m.props[..n]);
    }
  }

  /** The property through which a module holds a tensor. */
  lemma OwnedAt(m: Module, t: nat) returns (i: nat)
    requires Owns(m, t)
    ensures i < |m.props| && PropOwns(m, i, t)
  {
    i :| 0 <= i < |m.props| && PropOwns(m, i, t);
  }

  /** The list of the first `k` properties holds `t` exactly when one of
      them does. */
  lemma {:induction false} PropsOwned(m: Module, k: nat, t: nat)
    requires k <= |m.props|
    ensures t in PropsParams(m.props[..k]) <==> exists i :: 0 <= i < k && PropOwns(m, i, t)
    decreases m, 0, k
  {
    if k > 0 {
      var ps, front, p := m.props[..k], m.props[..k - 1], m.props[k - 1];
      assert ps[..k - 1] == front;
      assert PropsParams(ps) == PropsParams(front) + PropParams(p);
      PropsOwned(m, k - 1, t);
      assert p in m.props;
      if p.ModuleProp? {
        ParamsOwned(p.sub, t);
      }
      assert t in PropParams(p) <==> PropOwns(m, k - 1, t);
      if t in PropsParams(ps) {
        var w := k - 1;
        if !(t in PropParams(p)) {
          w :| 0 <= w < k - 1 && PropOwns(m, w, t);
        }
        assert 0 <= w < k && PropOwns(m, w, t);
        assert exists i :: 0 <= i < k && PropOwns(m, i, t);
        assert t in PropsParams(m.props[..k]);
      } else {
        forall i | 0 <= i < k
          ensures !PropOwns(m, i, t)
        {
          if i < k - 1 {
            assert !(t in PropsParams(front));
          }
        }
      }
    }
  }

  /** The properties' lists are concatenated in order. */
  lemma {:induction false} PropsAppend(a: seq<Prop>, b: seq<Prop>)
    ensures PropsParams(a + b) == PropsParams(a) + PropsParams(b)
    decreases |b|
  {
    if |b| > 0 {
      var k := |b| - 1;
      assert (a + b)[..|a + b| - 1] == a + b[..k];
      assert (a + b)[|a + b| - 1] == b[k];
      PropsAppend(a, b[..k]);
    } else {
      assert a + b == a;
    }
  }

  lemma SingleProp(p: Prop)
    ensures PropsParams([p]) == PropParams(p)
  {
    assert [p][..0] == [];
  }

  /** A property that is neither a tensor nor a module adds nothing. */
  lemma OtherIgnored(a: seq<Prop>, b: seq<Prop>)
    ensures Params(Module(a + [OtherProp] + b)) == Params(Module(a + b))
  {
    PropsAppend(a + [OtherProp], b);
    PropsAppend(a, [OtherProp]);
    PropsAppend(a, b);
    SingleProp(OtherProp);
  }

  /** A sub-module contributes its parameters at its own position. */
  lemma SubModuleSpliced(a: seq<Prop>, sub: Module, b: seq<Prop>)
    ensures Params(Module(a + [ModuleProp(sub)] + b)) == Params(Module(a)) + Params(sub) + Params(Module(b))
  {
    PropsAppend(a + [ModuleProp(sub)], b);
    PropsAppend(a, [ModuleProp(sub)]);
    SingleProp(ModuleProp(sub));
  }

  /** The number of tensors in the tree, counted independently of the
      list. */
  function TensorCount(m: Module): nat
    decreases m, 2
  {
    PropsCount(m.props)
  }

  function PropsCount(ps: seq<Prop>): nat
    decreases ps, 1
  {
    if |ps| == 0 then 0 else PropsCount(ps[1..]) + PropCount(ps[0])
  }

  function PropCount(p: Prop): nat
    decreases p, 0
  {
    match p
    case TensorProp(_) => 1
    case ModuleProp(sub) => TensorCount(sub)
    case OtherProp => 0
  }

  /** Every tensor occurrence is listed once: the list is as long as the
      tree has tensors. */
  lemma {:induction false} ParamsCounted(m: Module)
    ensures |Params(m)| == TensorCount(m)
    decreases m, 1
  {
    PropsCounted(m, 0);
    assert m.props[0..] == m.props;
  }

  lemma {:induction false} PropsCounted(m: Module, k: nat)
    requires k <= |m.props|
    ensures |PropsParams(m.props[k..])| == PropsCount(m.props[k..])
    decreases m, 0, |m.props| - k
  {
    if k < |m.props| {
      var ps, rest, p := m.props[k..], m.props[k + 1..], m.props[k];
      PropsCounted(m, k + 1);
      assert ps[1..] == rest && ps[0] == p && [p] + rest == ps;
      assert PropsCount(ps) == PropsCount(rest) + PropCount(p);
      assert p in m.props;
      if p.ModuleProp? {
        ParamsCounted(p.sub);
      }
      PropsAppend([p], rest);
      SingleProp(p);
    }
  }

  /** The `ScaleAdd` module of the autograd tests: properties `s` and `b`. */
  function ScaleAdd(s: nat, b: nat): Module
  {
    Module([TensorProp(s), TensorProp(b)])
  }

  /** `MultiPathScaleAdd`: two `ScaleAdd` paths yield the four parameters
      `s` and `b` of `path0`, then those of `path1`. */
  lemma MultiPathParameters(s0: nat, b0: nat, s1: nat, b1: nat)
    ensures Params(Module([ModuleProp(ScaleAdd(s0, b0)), ModuleProp(ScaleAdd(s1, b1))])) == [s0, b0, s1, b1]
  {
    var p0, p1 := ModuleProp(ScaleAdd(s0, b0)), ModuleProp(ScaleAdd(s1, b1));
    PairParams(s0, b0);
    PairParams(s1, b1);
    PropsAppend([p0], [p1]);
    assert [p0] + [p1] == [p0, p1];
    SingleProp(p0);
    SingleProp(p1);
  }

  lemma PairParams(s: nat, b: nat)
    ensures Params(ScaleAdd(s, b)) == [s, b]
  {
    PropsAppend([TensorProp(s)], [TensorProp(b)]);
    assert [TensorProp(s)] + [TensorProp(b)] == ScaleAdd(s, b).props;
    SingleProp(TensorProp(s));
    SingleProp(TensorProp(b));
  }
}
