/** The tensor node graph of `packages/tensor/src/tensor.ts`: nodes with an
    op, their inputs, a cached value, a gradient-recording flag and a
    gradient; realisation (a memoised `op.compute`), `detach`, `fromOp`,
    and reverse-mode differentiation (`backward` and `computeGradient`).

    Nodes are numbered in creation order and held by one `Engine` object;
    an op node's inputs were created before it, so every input number is
    smaller than the node's own. */
module TensorEngine {
  import opened Wrappers
  import opened IndexMath
  import opened TensorOps
  import opened TensorValues
  import opened TensorAutograd
  import opened TensorBackprop
  import TensorGraph
  import TensorMode

  /** The nodes created so far, identified by their numbers. */
  class Engine {
    /** `op` of each node; `None` for a node built from data. */
    var ops: seq<Option<Op>>
    /** `inputs` of each node, in argument order. */
    var inputs: seq<seq<nat>>
    /** `cache`: the realised value, if any. */
    var cache: seq<Option<Data>>
    /** `requiresGrad` of each node. */
    var requiresGrad: seq<bool>
    /** `gradient` of each node, held as its value. */
    var gradient: seq<Option<Data>>
    /** The configuration captured when the module is loaded. */
    const config: TensorMode.Config

    ghost predicate Valid()
      reads this
    {
      && Shaped(ops, inputs, cache)
      && |requiresGrad| == |ops| && |gradient| == |ops|
      && (forall t :: 0 <= t < |ops| && inputs[t] != [] ==> ops[t].Some?)
    }

    constructor(config: TensorMode.Config)
      ensures this.config == config && ops == [] && inputs == [] && cache == []
      ensures requiresGrad == [] && gradient == []
      ensures Valid()
    {
      this.config := config;
      ops, inputs, cache, requiresGrad, gradient := [], [], [], [], [];
    }

    /** The value node `t` realises to in the current state. */
    function Value(t: nat): Result<Data>
      reads this
      requires Valid() && t < |ops|
    {
      ValueOf(ops, inputs, cache, t)
    }

    /** `new Tensor(data, { requiresGrad })`: a node with no op and no
        inputs, holding `data` (if any) and no gradient. */
    method NewTensor(data: Option<Data>, grad: bool) returns (t: nat)
      requires Valid() && (data.Some? ==> WellFormed(data.value))
      modifies this
      ensures Valid() && t == |old(ops)|
      ensures ops == old(ops) + [None] && inputs == old(inputs) + [[]] && cache == old(cache) + [data]
      ensures requiresGrad == old(requiresGrad) + [grad] && gradient == old(gradient) + [None]
    {
      t := |ops|;
      ops, inputs, cache := ops + [None], inputs + [[]], cache + [data];
      requiresGrad, gradient := requiresGrad + [grad], gradient + [None];
    }

    /** `realize` (read through `raw`): the node's value, computed at most
        once; every value computed on the way, the node's own included, is
        kept in the cache, and a cached node is left as it is. */
    method Realize(t: nat) returns (r: Result<Data>)
      requires Valid() && t < |ops|
      modifies this
      ensures Valid()
      ensures ops == old(ops) && inputs == old(inputs) && requiresGrad == old(requiresGrad) && gradient == old(gradient)
      ensures r == ValueOf(old(ops), old(inputs), old(cache), t)
      ensures Memo(old(ops), old(inputs), old(cache), cache)
      ensures r.Success? ==> cache[t] == Some(r.value)
      ensures old(cache[t]).Some? ==> cache == old(cache)
      decreases t, 1
    {
      if cache[t].Some? {
        return Success(cache[t].value);
      }
      if ops[t].None? {
        return Failure("op is null");
      }
      ghost var c0 := cache;
      var args :- RealizeAll(inputs[t], t);
      var v := Compute(ops[t].value, args);
      if v.Failure? {
        return v;
      }
      MemoKeepsValue(ops, inputs, c0, cache, t);
      ghost var before := cache;
      cache := cache[t := Some(v.value)];
      assert Memo(ops, inputs, before, cache);
      MemoTransitive(ops, inputs, c0, before, cache);
      r := v;
    }

    /** The inputs' `raw` values, read one after the other; the first
        failure stops the reading. */
    method RealizeAll(ins: seq<nat>, bound: nat) returns (r: Result<seq<Data>>)
      requires Valid() && bound <= |ops| && forall k :: 0 <= k < |ins| ==> ins[k] < bound
      modifies this
      ensures Valid()
      ensures ops == old(ops) && inputs == old(inputs) && requiresGrad == old(requiresGrad) && gradient == old(gradient)
      ensures r == ValuesOf(old(ops), old(inputs), old(cache), ins, bound)
      ensures Memo(old(ops), old(inputs), old(cache), cache)
      decreases bound, 0
    {
      ghost var c0 := cache;
      var args: seq<Data> := [];
      for k := 0 to |ins|
        invariant Valid() && ops == old(ops) && inputs == old(inputs)
        invariant requiresGrad == old(requiresGrad) && gradient == old(gradient)
        invariant Memo(ops, inputs, c0, cache)
        invariant ValuesOf(ops, inputs, c0, ins[..k], bound) == Success(args)
      {
        ghost var before := cache;
        var x := Realize(ins[k]);
        MemoKeepsValue(ops, inputs, c0, before, ins[k]);
        MemoTransitive(ops, inputs, c0, before, cache);
        assert ins[..k + 1][..k] == ins[..k];
        if x.Failure? {
          ValuesOfPrefixFails(ops, inputs, c0, ins, bound, k + 1);
          return Failure(x.error);
        }
        args := args + [x.value];
      }
      assert ins[..|ins|] == ins;
      r := Success(args);
    }

    /** `setRaw(v)`: the node's cached value is replaced; nothing else
        changes. */
    method SetRaw(t: nat, v: Option<Data>)
      requires Valid() && t < |ops| && (v.Some? ==> WellFormed(v.value))
      modifies this
      ensures Valid()
      ensures ops == old(ops) && inputs == old(inputs) && requiresGrad == old(requiresGrad) && gradient == old(gradient)
      ensures cache == old(cache)[t := v]
    {
      cache := cache[t := v];
    }

    /** `detach`: a new node holding the node's value, with no op and
        gradient recording off. */
    method Detach(t: nat) returns (r: Result<nat>)
      requires Valid() && t < |ops|
      modifies this
      ensures Valid()
      ensures var v := ValueOf(old(ops), old(inputs), old(cache), t);
        && (v.Failure? ==> r == Failure(v.error) && ops == old(ops) && inputs == old(inputs)
                             && requiresGrad == old(requiresGrad) && gradient == old(gradient)
                             && Memo(old(ops), old(inputs), old(cache), cache))
        && (v.Success? ==> r == Success(|old(ops)|)
                             && ops == old(ops) + [None] && inputs == old(inputs) + [[]]
                             && requiresGrad == old(requiresGrad) + [false] && gradient == old(gradient) + [None]
                             && Memo(old(ops), old(inputs), old(cache), cache[..|old(ops)|])
                             && cache[t] == Some(v.value) && cache[|old(ops)|] == Some(v.value))
    {
      var v := Realize(t);
      if v.Failure? {
        return Failure(v.error);
      }
      ghost var c1 := cache;
      var n := NewTensor(Some(v.value), false);
      assert cache[..n] == c1;
      r := Success(n);
    }

    /** `Tensor.fromOp(op, ...inputs)`: a new node for `op` over `ins`;
        in eager mode it is realised at once, and detached when gradient
        recording is off. */
    method FromOp(op: Op, ins: seq<nat>) returns (r: Result<nat>)
      requires Valid() && forall k :: 0 <= k < |ins| ==> ins[k] < |ops|
      modifies this
      ensures Valid()
      ensures var t := |old(ops)|;
        && |ops| > t && ops[..t + 1] == old(ops) + [Some(op)] && inputs[..t + 1] == old(inputs) + [ins]
        && requiresGrad[..t + 1] == old(requiresGrad) + [true] && gradient[..t + 1] == old(gradient) + [None]
      ensures Memo(old(ops), old(inputs), old(cache), cache[..|old(ops)|])
      ensures var t := |old(ops)|;
        var v := Applied(old(ops), old(inputs), old(cache), op, ins);
        && (config.lazyMode ==> r == Success(t) && cache == old(cache) + [None] && |ops| == t + 1)
        && (!config.lazyMode && config.requiresGrad ==>
              |ops| == t + 1 && (v.Failure? ==> r == Failure(v.error))
              && (v.Success? ==> r == Success(t) && cache[t] == Some(v.value)))
        && (!config.lazyMode && !config.requiresGrad ==>
              (v.Failure? ==> r == Failure(v.error) && |ops| == t + 1)
              && (v.Success? ==> r == Success(t + 1) && |ops| == t + 2 && ops[t + 1] == None
                                 && requiresGrad[t + 1] == false && cache[t] == Some(v.value)
                                 && cache[t + 1] == Some(v.value)))
    {
      ghost var (ops0, inputs0, cache0) := (ops, inputs, cache);
      var t := NewOpNode(op, ins);
      if !config.lazyMode {
        if !config.requiresGrad {
          r := Detach(t);
          if r.Success? {
            assert cache[..t + 1][..t] == cache[..t];
            MemoRetract(ops0, inputs0, cache0, cache[..t + 1], Some(op), ins, None);
          } else {
            MemoRetract(ops0, inputs0, cache0, cache, Some(op), ins, None);
          }
          return;
        }
        var v := Realize(t);
        MemoRetract(ops0, inputs0, cache0, cache, Some(op), ins, None);
        if v.Failure? {
          return Failure(v.error);
        }
      } else {
        assert cache[..t] == cache0;
      }
      r := Success(t);
    }

    /** `backward(outGrad)`: the gradient pass from this node, seeded with
        `outGrad`, or by default with a new all-ones tensor of the node's
        size (reading the size realises the node). */
    method Backward(t: nat, outGrad: Option<Data>) returns (err: Option<string>)
      requires Valid() && t < |ops| && (outGrad.Some? ==> WellFormed(outGrad.value))
      modifies this
      ensures Valid()
      ensures outGrad.Some? ==>
        var pass := GradientPass(old(ops), old(inputs), old(cache), old(gradient), t, outGrad.value);
        && ops == old(ops) && inputs == old(inputs) && requiresGrad == old(requiresGrad)
        && Memo(old(ops), old(inputs), old(cache), cache)
        && gradient == pass.sweep.gradient && err == pass.error
      ensures outGrad.None? && ValueOf(old(ops), old(inputs), old(cache), t).Failure? ==>
        && ops == old(ops) && inputs == old(inputs) && requiresGrad == old(requiresGrad) && gradient == old(gradient)
        && Memo(old(ops), old(inputs), old(cache), cache)
        && err == Some(ValueOf(old(ops), old(inputs), old(cache), t).error)
      ensures outGrad.None? && ValueOf(old(ops), old(inputs), old(cache), t).Success? ==>
        var seed := OnesLike(ValueOf(old(ops), old(inputs), old(cache), t).value);
        var (ops1, inputs1, cache1) := (old(ops) + [None], old(inputs) + [[]], old(cache) + [Some(seed)]);
        && ops == ops1 && inputs == inputs1 && requiresGrad == old(requiresGrad) + [true]
        && Shaped(ops1, inputs1, cache1) && Memo(ops1, inputs1, cache1, cache)
        && var pass := GradientPass(ops1, inputs1, cache1, old(gradient) + [None], t, seed);
           gradient == pass.sweep.gradient && err == pass.error
    {
      if outGrad.Some? {
        err := ComputeGradient(t, outGrad.value);
        return;
      }
      var v := Realize(t);
      if v.Failure? {
        return Some(v.error);
      }
      ghost var (ops0, inputs0, cache0, c1) := (old(ops), old(inputs), old(cache), cache);
      var seed := OnesLike(v.value);
      var n := NewTensor(Some(seed), true);
      ghost var (ops1, inputs1, cache1) := (ops0 + [None], inputs0 + [[]], cache0 + [Some(seed)]);
      LeafAppended(ops0, inputs0, cache0, Some(seed));
      MemoExtend(ops0, inputs0, cache0, c1, None, [], Some(seed));
      PassMemo(ops1, inputs1, cache1, cache, gradient, t, seed);
      ghost var c2 := cache;
      err := ComputeGradient(t, seed);
      MemoTransitive(ops1, inputs1, cache1, c2, cache);
    }

    /** `computeGradient(out, seed)`: walk the graph of `out`, sort it and
        sweep it from `{out: [seed]}`; the first error thrown ends the
        sweep and is returned. */
    method ComputeGradient(out: nat, seed: Data) returns (err: Option<string>)
      requires Valid() && out < |ops| && WellFormed(seed)
      modifies this
      ensures Valid()
      ensures ops == old(ops) && inputs == old(inputs) && requiresGrad == old(requiresGrad)
      ensures Memo(old(ops), old(inputs), old(cache), cache)
      ensures var pass := GradientPass(old(ops), old(inputs), old(cache), old(gradient), out, seed);
        gradient == pass.sweep.gradient && err == pass.error
    {
      var g := BuildGraph(inputs, out);
      var order := g.Sort();
      OrderInRange(inputs, out);
      assert order == Order(inputs, out);
      err := SweepNodes(order, map[out := [seed]]);
    }

    /** The loop over the sorted nodes, from the gradients `pending`. */
    method SweepNodes(order: seq<nat>, pending: map<nat, seq<Data>>) returns (err: Option<string>)
      requires Valid() && InRange(|ops|, order) && PendingOk(pending)
      modifies this
      ensures Valid()
      ensures ops == old(ops) && inputs == old(inputs) && requiresGrad == old(requiresGrad)
      ensures Memo(old(ops), old(inputs), old(cache), cache)
      ensures var o := Propagate(old(ops), old(inputs), old(cache), Sweep(pending, old(gradient)), order);
        gradient == o.sweep.gradient && err == o.error
    {
      ghost var c0 := cache;
      ghost var start := Sweep(pending, gradient);
      var held := pending;
      for k := 0 to |order|
        invariant Valid() && ops == old(ops) && inputs == old(inputs) && requiresGrad == old(requiresGrad)
        invariant Memo(ops, inputs, c0, cache) && PendingOk(held)
        invariant Propagate(ops, inputs, c0, Sweep(held, gradient), order[k..]) == Propagate(ops, inputs, c0, start, order)
      {
        ghost var before := cache;
        VisitMemo(ops, inputs, c0, before, Sweep(held, gradient), order[k]);
        TakeStep(order, k);
        var p, e := VisitNode(order[k], held);
        MemoTransitive(ops, inputs, c0, before, cache);
        if e.Some? {
          return e;
        }
        held := p;
      }
      err := None;
    }

    /** One turn of the sweep: sum the gradients handed to `node` (the
        `reduce(add)`), set it as the node's gradient, and unless the node
        has no op, hand its op's input gradients on; the inputs are realised
        first for the ops whose rule reads them. */
    method VisitNode(node: nat, pending: map<nat, seq<Data>>) returns (p: map<nat, seq<Data>>, err: Option<string>)
      requires Valid() && node < |ops| && PendingOk(pending)
      modifies this
      ensures Valid()
      ensures ops == old(ops) && inputs == old(inputs) && requiresGrad == old(requiresGrad)
      ensures Memo(old(ops), old(inputs), old(cache), cache)
      ensures Visit(ops, inputs, old(cache), Sweep(pending, old(gradient)), node) == Outcome(Sweep(p, gradient), err)
    {
      p := pending;
      if node !in pending {
        return pending, Some(MissingGradient);
      }
      var sum := SumAll(pending[node]);
      if sum.Failure? {
        return pending, Some(sum.error);
      }
      gradient := gradient[node := Some(sum.value)];
      if ops[node].None? {
        return pending, None;
      }
      var op, ins := ops[node].value, inputs[node];
      var vals: Result<seq<Data>>;
      if ReadsInputs(op) {
        vals := RealizeAll(ins, node);
      } else {
        vals := Success(Placeholders(|ins|));
      }
      if vals.Failure? {
        return pending, Some(vals.error);
      }
      var grads := Gradient(op, sum.value, vals.value);
      if grads.Failure? {
        return pending, Some(grads.error);
      }
      if |grads.value| < |ins| {
        return pending, Some("TypeError");
      }
      p := PushGradients(pending, ins, grads.value);
      err := None;
    }

    /** `new Tensor()` with `op` and `inputs` set: an unrealised node that
        records gradients. */
    method NewOpNode(op: Op, ins: seq<nat>) returns (t: nat)
      requires Valid() && forall k :: 0 <= k < |ins| ==> ins[k] < |ops|
      modifies this
      ensures Valid() && t == |old(ops)|
      ensures ops == old(ops) + [Some(op)] && inputs == old(inputs) + [ins] && cache == old(cache) + [None]
      ensures requiresGrad == old(requiresGrad) + [true] && gradient == old(gradient) + [None]
      ensures ValueOf(ops, inputs, cache, t) == Applied(old(ops), old(inputs), old(cache), op, ins)
    {
      AppliedNew(ops, inputs, cache, op, ins);
      t := |ops|;
      ops, inputs, cache := ops + [Some(op)], inputs + [ins], cache + [None];
      requiresGrad, gradient := requiresGrad + [true], gradient + [None];
    }
  }

  /** The loop handing `grads[i]` to `ins[i]`, appended to what the input
      already holds. */
  method PushGradients(pending: map<nat, seq<Data>>, ins: seq<nat>, grads: seq<Data>) returns (p: map<nat, seq<Data>>)
    requires |grads| >= |ins|
    ensures p == Push(pending, ins, grads)
  {
    p := pending;
    for i := 0 to |ins|
      invariant Push(p, ins[i..], grads[i..]) == Push(pending, ins, grads)
    {
      TakeStep(ins, i);
      TakeStep(grads, i);
      var held := if ins[i] in p then p[ins[i]] else [];
      p := p[ins[i] := held + [grads[i]]];
    }
    assert ins[|ins|..] == [];
  }

  /** `ones(...shape)` of `onesLike`: a matrix of the given value's size
      (`[1]` for a number) filled with ones. */
  function OnesLike(d: Data): (r: Data)
    ensures WellFormed(r) && r.Dense? && r.shape == ShapeOf(d)
    ensures forall i :: 0 <= i < |r.cells| ==> r.cells[i] == 1.0
  {
    ProductNonNeg(ShapeOf(d));
    Dense(ShapeOf(d), Fill(Product(ShapeOf(d)), 1.0))
  }

  /** A new leaf keeps the arrays shaped. */
  lemma LeafAppended(ops: seq<Option<Op>>, inputs: seq<seq<nat>>, cache: seq<Option<Data>>, d: Option<Data>)
    requires Shaped(ops, inputs, cache) && (d.Some? ==> WellFormed(d.value))
    ensures Shaped(ops + [None], inputs + [[]], cache + [d])
  {
    var ops1, inputs1, cache1 := ops + [None], inputs + [[]], cache + [d];
    assert forall t :: 0 <= t < |ops| ==> inputs1[t] == inputs[t] && cache1[t] == cache[t];
  }

  lemma OrderInRange(inputs: seq<seq<nat>>, out: nat)
    requires Below(inputs) && out < |inputs|
    ensures InRange(|inputs|, Order(inputs, out))
  {
    GradientOrder(inputs, out);
  }

  /** The value a new node for `op` over the existing nodes `ins` has. */
  function Applied(ops: seq<Option<Op>>, inputs: seq<seq<nat>>, cache: seq<Option<Data>>, op: Op, ins: seq<nat>): (r: Result<Data>)
    requires Shaped(ops, inputs, cache) && forall k :: 0 <= k < |ins| ==> ins[k] < |ops|
    ensures r.Success? ==> WellFormed(r.value)
  {
    var args :- ValuesOf(ops, inputs, cache, ins, |ops|);
    Compute(op, args)
  }

  /** The appended op node realises to `Applied`: its inputs keep the
      values they had before it was added. */
  lemma AppliedNew(ops: seq<Option<Op>>, inputs: seq<seq<nat>>, cache: seq<Option<Data>>, op: Op, ins: seq<nat>)
    requires Shaped(ops, inputs, cache) && forall k :: 0 <= k < |ins| ==> ins[k] < |ops|
    ensures Shaped(ops + [Some(op)], inputs + [ins], cache + [None])
    ensures ValueOf(ops + [Some(op)], inputs + [ins], cache + [None], |ops|) == Applied(ops, inputs, cache, op, ins)
  {
    var ops1, inputs1, cache1 := ops + [Some(op)], inputs + [ins], cache + [None];
    assert forall t :: 0 <= t < |ops| ==> ops1[t] == ops[t] && inputs1[t] == inputs[t] && cache1[t] == cache[t];
    assert Shaped(ops1, inputs1, cache1);
    ValuesOfExtend(ops, inputs, cache, Some(op), ins, None, ins, |ops|);
  }

  /** `y = add(x, x)` built lazily from the matrix `[[1, 2, 3], [1, 2, 3]]`,
      then `y.backward(ones(2, 3))`: `y` keeps the ones and `x`, used twice,
      collects twos. */
  method AddTwiceBackward() returns (gx: Option<Data>, gy: Option<Data>, err: Option<string>)
    ensures err == None
    ensures gx == Some(Dense([2, 3], Fill(6, 2.0))) && gy == Some(Dense([2, 3], Fill(6, 1.0)))
  {
    var config := new TensorMode.Config();
    var e := new Engine(config);
    T1WellFormed();
    var x := e.NewTensor(Some(T1()), true);
    var y := e.FromOp(Add, [x, x]);
    assert y == Success(1);
    assert e.ops == e.ops[..2] == [None, Some(Add)];
    assert e.inputs == e.inputs[..2] == [[], [0, 0]];
    assert e.gradient == e.gradient[..2] == [None, None];
    assert e.cache == [Some(T1()), None];
    var seed := Dense([2, 3], Fill(6, 1.0));
    AddTwicePass(T1(), seed);
    assert Elementwise(seed, seed, Plus).value == Dense([2, 3], Fill(6, 2.0));
    err := e.Backward(y.value, Some(seed));
    gx, gy := e.gradient[0], e.gradient[1];
  }
}
