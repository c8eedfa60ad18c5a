/** The optimisers of `packages/nn/src/optim`: `Optimizer.resetGrad`
    (`index.ts`) and `SGD.step` (`sgd.ts`), over the node state of a
    `TensorEngine.Engine`.  The parameters are node numbers. */
module NnOptim {
  import opened Wrappers
  import opened TensorOps
  import opened TensorValues
  import TensorEngine

  /* ---------------------------------------------------------------------- */
  /* resetGrad                                                                */

  /** Every parameter names a node of a gradient list of this length. */
  predicate Within(params: seq<nat>, n: nat)
  {
    forall i :: 0 <= i < |params| ==> params[i] < n
  }

  /** The gradients after `resetGrad`: the parameters', in order, set to
      `null`. */
  function Cleared(gradient: seq<Option<Data>>, params: seq<nat>): (r: seq<Option<Data>>)
    requires Within(params, |gradient|)
    ensures |r| == |gradient|
  {
    if |params| == 0 then gradient
    else Cleared(gradient, params[..|params| - 1])[params[|params| - 1] := None]
  }

  /** After `resetGrad` a parameter has no gradient and every other node
      keeps its own. */
  lemma {:induction false} ClearedAt(gradient: seq<Option<Data>>, params: seq<nat>, t: nat)
    requires Within(params, |gradient|) && t < |gradient|
    ensures Cleared(gradient, params)[t] == if t in params then None else gradient[t]
    decreases |params|
  {
    if |params| > 0 {
      var k := |params| - 1;
      ClearedAt(gradient, params[..k], t);
      assert params == params[..k] + [params[k]];
      assert t in params <==> t in params[..k] || t == params[k];
    }
  }

  /** Resetting twice is resetting once. */
  lemma ClearedTwice(gradient: seq<Option<Data>>, params: seq<nat>)
    requires Within(params, |gradient|)
    ensures Cleared(Cleared(gradient, params), params) == Cleared(gradient, params)
  {
    var once := Cleared(gradient, params);
    forall t | 0 <= t < |gradient|
      ensures Cleared(once, params)[t] == once[t]
    {
      ClearedAt(once, params, t);
      ClearedAt(gradient, params, t);
    }
  }

  /** `Optimizer`: the parameter list captured at construction. */
  class Optimizer {
    /** The nodes the parameters live in. */
    const engine: TensorEngine.Engine
    /** `params`, read-only. */
    const params: seq<nat>

    ghost predicate Valid()
      reads engine
    {
      engine.Valid() && Within(params, |engine.ops|)
    }

    constructor(engine: TensorEngine.Engine, params: seq<nat>)
      ensures this.engine == engine && this.params == params
    {
      this.engine := engine;
      this.params := params;
    }

    /** `resetGrad()`: each parameter's gradient becomes `null`; values,
        other nodes' gradients and the parameter list are left alone. */
    method ResetGrad()
      requires Valid()
      modifies engine
      ensures Valid()
      ensures engine.gradient == Cleared(old(engine.gradient), params)
      ensures engine.ops == old(engine.ops) && engine.inputs == old(engine.inputs)
      ensures engine.cache == old(engine.cache) && engine.requiresGrad == old(engine.requiresGrad)
    {
      for i := 0 to |params|
        invariant engine.Valid()
        invariant engine.gradient == Cleared(old(engine.gradient), params[..i])
        invariant engine.ops == old(engine.ops) && engine.inputs == old(engine.inputs)
        invariant engine.cache == old(engine.cache) && engine.requiresGrad == old(engine.requiresGrad)
      {
        assert params[..i + 1][..i] == params[..i];
        engine.gradient := engine.gradient[params[i] := None];
      }
      assert params[..|params|] == params;
    }
  }

  /* ---------------------------------------------------------------------- */
  /* SGD                                                                      */

  /** The learning rate `SGD` uses when none is given. */
  const DefaultLr := 0.01

  /** One parameter's new value: its value (read through `value`) plus its
      gradient times `-lr`.  A value that cannot be read fails first, then
      a missing gradient (`null.mul` is a type error), then the ops. */
  function Update(value: Result<Data>, grad: Option<Data>, lr: real): (r: Result<Data>)
    requires value.Success? ==> WellFormed(value.value)
    requires grad.Some? ==> WellFormed(grad.value)
    ensures r.Success? ==> WellFormed(r.value)
  {
    if value.Failure? then Failure(value.error)
    else if grad.None? then Failure("TypeError")
    else
      var step :- Compute(MulScalar(-lr), [grad.value]);
      Compute(Add, [value.value, step])
  }

  /** A parameter and its gradient of one size: every cell moves by the
      gradient's cell times `-lr`; sizes that differ fail. */
  lemma UpdateCells(v: Data, g: Data, lr: real)
    requires WellFormed(v) && WellFormed(g) && v.Dense? && g.Dense?
    ensures var r := Update(Success(v), Some(g), lr);
      && (r.Success? <==> v.shape == g.shape)
      && (r.Success? ==> r.value.shape == v.shape && |r.value.cells| == |v.cells|
                         && forall i :: 0 <= i < |v.cells| ==> r.value.cells[i] == v.cells[i] + g.cells[i] * -lr)
  {
  }

  /** Without a gradient the update fails, whatever the value. */
  lemma UpdateNeedsGradient(v: Data, lr: real)
    requires WellFormed(v)
    ensures Update(Success(v), None, lr) == Failure("TypeError")
  {
  }

  /** A learning rate of zero leaves a well-sized parameter as it is. */
  lemma UpdateByNothing(v: Data, g: Data)
    requires WellFormed(v) && WellFormed(g) && v.Dense? && g.Dense? && v.shape == g.shape
    ensures Update(Success(v), Some(g), 0.0) == Success(v)
  {
    var r := Update(Success(v), Some(g), 0.0).value;
    assert r.cells == v.cells;
  }

  /** The state every update reads: values and gradients as they were
      when `step` was called. */
  predicate Readable(ops: seq<Option<Op>>, inputs: seq<seq<nat>>, cache: seq<Option<Data>>,
                     gradient: seq<Option<Data>>, params: seq<nat>)
  {
    && Shaped(ops, inputs, cache) && |gradient| == |ops| && Within(params, |ops|)
    && forall i :: 0 <= i < |params| && gradient[params[i]].Some? ==> WellFormed(gradient[params[i]].value)
  }

  /** The update of each parameter, in order, from the state as it was. */
  function Updates(ops: seq<Option<Op>>, inputs: seq<seq<nat>>, cache: seq<Option<Data>>,
                   gradient: seq<Option<Data>>, params: seq<nat>, lr: real): (r: seq<Result<Data>>)
    requires Readable(ops, inputs, cache, gradient, params)
    ensures |r| == |params|
    ensures forall i :: 0 <= i < |params| ==>
      r[i] == Update(ValueOf(ops, inputs, cache, params[i]), gradient[params[i]], lr)
  {
    seq(|params|, i requires 0 <= i < |params| =>
      Update(ValueOf(ops, inputs, cache, params[i]), gradient[params[i]], lr))
  }

  /** The cache after `setRaw` of each successful update, in order. */
  function Written(cache: seq<Option<Data>>, params: seq<nat>, updates: seq<Result<Data>>): (r: seq<Option<Data>>)
    requires Within(params, |cache|) && |updates| == |params|
    ensures |r| == |cache|
  {
    if |params| == 0 then cache
    else
      var k := |params| - 1;
      var before := Written(cache, params[..k], updates[..k]);
      if updates[k].Success? then before[params[k] := Some(updates[k].value)] else before
  }

  /** The first failure, in parameter order. */
  function FirstError(updates: seq<Result<Data>>): (r: Option<string>)
    ensures r.None? <==> forall i :: 0 <= i < |updates| ==> updates[i].Success?
    ensures r.Some? ==> exists i :: 0 <= i < |updates| && updates[i] == Failure(r.value)
  {
    if |updates| == 0 then None
    else if updates[0].Failure? then Some(updates[0].error)
    else
      var rest := FirstError(updates[1..]);
      assert forall i :: 1 <= i < |updates| ==> updates[i] == updates[1..][i - 1];
      rest
  }

  /** Updates that agree wherever a parameter repeats, as updates read
      from one state do. */
  predicate Consistent(params: seq<nat>, updates: seq<Result<Data>>)
    requires |updates| == |params|
  {
    forall i, j :: 0 <= i < |params| && 0 <= j < |params| && params[i] == params[j] ==> updates[i] == updates[j]
  }

  /** What `step` leaves in a node's cache: a node that is no parameter is
      untouched, and a parameter holds its update, or its old value when
      the update failed. */
  lemma {:induction false} WrittenAt(cache: seq<Option<Data>>, params: seq<nat>, updates: seq<Result<Data>>, t: nat)
    requires Within(params, |cache|) && |updates| == |params| && Consistent(params, updates) && t < |cache|
    ensures !(t in params) ==> Written(cache, params, updates)[t] == cache[t]
    ensures forall i :: 0 <= i < |params| && params[i] == t ==>
      Written(cache, params, updates)[t] == if updates[i].Success? then Some(updates[i].value) else cache[t]
    decreases |params|
  {
    if |params| > 0 {
      var k := |params| - 1;
      var ps, us := params[..k], updates[..k];
      assert Consistent(ps, us);
      WrittenAt(cache, ps, us, t);
      assert forall i :: 0 <= i < k ==> ps[i] == params[i] && us[i] == updates[i];
      assert params == ps + [params[k]];
    }
  }

  /** The updates of one state agree wherever a parameter repeats. */
  lemma UpdatesConsistent(ops: seq<Option<Op>>, inputs: seq<seq<nat>>, cache: seq<Option<Data>>,
                          gradient: seq<Option<Data>>, params: seq<nat>, lr: real)
    requires Readable(ops, inputs, cache, gradient, params)
    ensures Consistent(params, Updates(ops, inputs, cache, gradient, params, lr))
  {
  }

  /** `step` right after `resetGrad` changes no value: every update fails
      for want of a gradient (or of a value). */
  lemma StepAfterReset(ops: seq<Option<Op>>, inputs: seq<seq<nat>>, cache: seq<Option<Data>>,
                       gradient: seq<Option<Data>>, params: seq<nat>, lr: real)
    requires Readable(ops, inputs, cache, gradient, params)
    ensures Readable(ops, inputs, cache, Cleared(gradient, params), params)
    ensures var updates := Updates(ops, inputs, cache, Cleared(gradient, params), params, lr);
      && Written(cache, params, updates) == cache
      && (|params| > 0 ==> FirstError(updates).Some?)
  {
    var cleared := Cleared(gradient, params);
    forall i | 0 <= i < |params|
      ensures cleared[params[i]] == None
    {
      ClearedAt(gradient, params, params[i]);
    }
    var updates := Updates(ops, inputs, cache, cleared, params, lr);
    UpdatesConsistent(ops, inputs, cache, cleared, params, lr);
    forall t | 0 <= t < |cache|
      ensures Written(cache, params, updates)[t] == cache[t]
    {
      WrittenAt(cache, params, updates, t);
      if t in params {
        var i :| 0 <= i < |params| && params[i] == t;
        assert updates[i].Failure?;
      }
    }
    if |params| > 0 {
      assert updates[0].Failure?;
    }
  }

  /** `SGD`: an optimiser with a learning rate. */
  class SGD {
    /** The `Optimizer` part: the engine and the parameter list. */
    const base: Optimizer
    /** `lr`, public and writable. */
    var lr: real

    ghost predicate Valid()
      reads this, base.engine
    {
      base.Valid()
    }

    constructor(engine: TensorEngine.Engine, params: seq<nat>, lr: real := DefaultLr)
      ensures base.engine == engine && base.params == params && this.lr == lr
    {
      base := new Optimizer(engine, params);
      this.lr := lr;
    }

    /** `step()`: every parameter reads its value and gradient, and its
        cache is set to value plus gradient times `-lr`.  All parameters
        read the state as `step` found it; a failed update leaves its
        parameter alone and the first failure is reported.  Gradients are
        kept: only `resetGrad` clears them. */
    method Step() returns (err: Option<string>)
      requires Valid()
      requires Readable(base.engine.ops, base.engine.inputs, base.engine.cache, base.engine.gradient, base.params)
      modifies base.engine
      ensures Valid()
      ensures var updates := Updates(old(base.engine.ops), old(base.engine.inputs), old(base.engine.cache),
                                     old(base.engine.gradient), base.params, lr);
        && base.engine.cache == Written(old(base.engine.cache), base.params, updates)
        && err == FirstError(updates)
      ensures base.engine.ops == old(base.engine.ops) && base.engine.inputs == old(base.engine.inputs)
      ensures base.engine.gradient == old(base.engine.gradient) && base.engine.requiresGrad == old(base.engine.requiresGrad)
    {
      var engine, params := base.engine, base.params;
      var computed := ReadUpdates(engine, params, lr);
      err := FirstError(computed);
      WriteUpdates(engine, params, computed);
    }
  }

  /** The first loop of `step`: each parameter's update, read from the
      state as `step` found it. */
  method ReadUpdates(engine: TensorEngine.Engine, params: seq<nat>, lr: real) returns (computed: seq<Result<Data>>)
    requires engine.Valid() && Within(params, |engine.ops|)
    requires Readable(engine.ops, engine.inputs, engine.cache, engine.gradient, params)
    ensures computed == Updates(engine.ops, engine.inputs, engine.cache, engine.gradient, params, lr)
    ensures forall i :: 0 <= i < |computed| && computed[i].Success? ==> WellFormed(computed[i].value)
  {
    ghost var updates := Updates(engine.ops, engine.inputs, engine.cache, engine.gradient, params, lr);
    computed := [];
    for i := 0 to |params|
      invariant computed == updates[..i]
    {
      var v := engine.Value(params[i]);
      computed := computed + [Update(v, engine.gradient[params[i]], lr)];
    }
  }

  /** The second loop of `step`: `setRaw` of each successful update, in
      parameter order. */
  method WriteUpdates(engine: TensorEngine.Engine, params: seq<nat>, computed: seq<Result<Data>>)
    requires engine.Valid() && Within(params, |engine.ops|) && |computed| == |params|
    requires forall i :: 0 <= i < |computed| && computed[i].Success? ==> WellFormed(computed[i].value)
    modifies engine
    ensures engine.Valid()
    ensures engine.cache == Written(old(engine.cache), params, computed)
    ensures engine.ops == old(engine.ops) && engine.inputs == old(engine.inputs)
    ensures engine.gradient == old(engine.gradient) && engine.requiresGrad == old(engine.requiresGrad)
  {
    for i := 0 to |params|
      invariant engine.Valid()
      invariant engine.cache == Written(old(engine.cache), params[..i], computed[..i])
      invariant engine.ops == old(engine.ops) && engine.inputs == old(engine.inputs)
      invariant engine.gradient == old(engine.gradient) && engine.requiresGrad == old(engine.requiresGrad)
    {
      assert params[..i + 1][..i] == params[..i] && computed[..i + 1][..i] == computed[..i];
      if computed[i].Success? {
        engine.SetRaw(params[i], Some(computed[i].value));
      }
    }
    assert params[..|params|] == params && computed[..|params|] == computed;
  }

  /** `new SGD(params)` steps with a learning rate of 0.01. */
  method DefaultRate(engine: TensorEngine.Engine, params: seq<nat>) returns (lr: real)
    ensures lr == 0.01
  {
    var sgd := new SGD(engine, params);
    lr := sgd.lr;
  }
}
