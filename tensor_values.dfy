/** The values of tensor nodes in `packages/tensor/src/tensor.ts`: what
    `realize` gives a node, as a function of the node arrays, and why a
    cache filled by realisation changes no node's value.

    Nodes are numbered in creation order; an op node's inputs were created
    before it, so every input number is smaller than the node's own. */
module TensorValues {
  import opened Wrappers
  import opened TensorOps

  /** The node arrays agree in length, inputs point to earlier nodes, and
      cached values are well formed. */
  predicate Shaped(ops: seq<Option<Op>>, inputs: seq<seq<nat>>, cache: seq<Option<Data>>)
  {
    && |inputs| == |ops| && |cache| == |ops|
    && (forall t, k :: 0 <= t < |inputs| && 0 <= k < |inputs[t]| ==> inputs[t][k] < t)
    && (forall t :: 0 <= t < |cache| && cache[t].Some? ==> WellFormed(cache[t].value))
  }

  /** The value `realize` gives node `t`: its cache when there is one, a
      failure without an op, and otherwise the op computed on the values of
      its inputs, taken in order (the first failing input decides). */
  function ValueOf(ops: seq<Option<Op>>, inputs: seq<seq<nat>>, cache: seq<Option<Data>>, t: nat): (r: Result<Data>)
    requires Shaped(ops, inputs, cache) && t < |ops|
    ensures r.Success? ==> WellFormed(r.value)
    decreases t, 1
  {
    if cache[t].Some? then Success(cache[t].value)
    else if ops[t].None? then Failure("op is null")
    else
      var args :- ValuesOf(ops, inputs, cache, inputs[t], t);
      Compute(ops[t].value, args)
  }

  /** The values of the nodes `ts`, all below `bound`, in order. */
  function ValuesOf(ops: seq<Option<Op>>, inputs: seq<seq<nat>>, cache: seq<Option<Data>>, ts: seq<nat>, bound: nat)
    : (r: Result<seq<Data>>)
    requires Shaped(ops, inputs, cache) && bound <= |ops| && forall k :: 0 <= k < |ts| ==> ts[k] < bound
    ensures r.Success? ==> |r.value| == |ts| && AllWellFormed(r.value)
    decreases bound, 0, |ts|
  {
    if |ts| == 0 then Success([])
    else
      var front :- ValuesOf(ops, inputs, cache, ts[..|ts| - 1], bound);
      var last :- ValueOf(ops, inputs, cache, ts[|ts| - 1]);
      Success(front + [last])
  }

  /** `c2` only adds to `c1` values that realisation would give. */
  ghost predicate Memo(ops: seq<Option<Op>>, inputs: seq<seq<nat>>, c1: seq<Option<Data>>, c2: seq<Option<Data>>)
    requires Shaped(ops, inputs, c1)
  {
    |c2| == |c1|
    && forall v :: 0 <= v < |c1| ==>
         c2[v] == c1[v] || (c1[v].None? && c2[v].Some? && ValueOf(ops, inputs, c1, v) == Success(c2[v].value))
  }

  lemma MemoShaped(ops: seq<Option<Op>>, inputs: seq<seq<nat>>, c1: seq<Option<Data>>, c2: seq<Option<Data>>)
    requires Shaped(ops, inputs, c1) && Memo(ops, inputs, c1, c2)
    ensures Shaped(ops, inputs, c2)
  {
    forall v | 0 <= v < |c2| && c2[v].Some?
      ensures WellFormed(c2[v].value)
    {
      if c2[v] != c1[v] {
        assert ValueOf(ops, inputs, c1, v) == Success(c2[v].value);
      }
    }
  }

  /** Filling the cache with realised values changes no node's value. */
  lemma {:induction false} MemoKeepsValue(ops: seq<Option<Op>>, inputs: seq<seq<nat>>, c1: seq<Option<Data>>, c2: seq<Option<Data>>, t: nat)
    requires Shaped(ops, inputs, c1) && Memo(ops, inputs, c1, c2) && t < |ops|
    ensures Shaped(ops, inputs, c2)
    ensures ValueOf(ops, inputs, c1, t) == ValueOf(ops, inputs, c2, t)
    decreases t, 1
  {
    MemoShaped(ops, inputs, c1, c2);
    if c2[t] == c1[t] && c1[t].None? && ops[t].Some? {
      MemoKeepsValues(ops, inputs, c1, c2, inputs[t], t);
    }
  }

  lemma {:induction false} MemoKeepsValues(ops: seq<Option<Op>>, inputs: seq<seq<nat>>, c1: seq<Option<Data>>, c2: seq<Option<Data>>,
                                           ts: seq<nat>, bound: nat)
    requires Shaped(ops, inputs, c1) && Memo(ops, inputs, c1, c2)
    requires bound <= |ops| && forall k :: 0 <= k < |ts| ==> ts[k] < bound
    ensures Shaped(ops, inputs, c2)
    ensures ValuesOf(ops, inputs, c1, ts, bound) == ValuesOf(ops, inputs, c2, ts, bound)
    decreases bound, 0, |ts|
  {
    MemoShaped(ops, inputs, c1, c2);
    if |ts| > 0 {
      MemoKeepsValues(ops, inputs, c1, c2, ts[..|ts| - 1], bound);
      MemoKeepsValue(ops, inputs, c1, c2, ts[|ts| - 1]);
    }
  }

  lemma MemoTransitive(ops: seq<Option<Op>>, inputs: seq<seq<nat>>, c1: seq<Option<Data>>, c2: seq<Option<Data>>, c3: seq<Option<Data>>)
    requires Shaped(ops, inputs, c1) && Memo(ops, inputs, c1, c2)
    requires Shaped(ops, inputs, c2) && Memo(ops, inputs, c2, c3)
    ensures Memo(ops, inputs, c1, c3)
  {
    forall v | 0 <= v < |c1| && c3[v] != c1[v]
      ensures c1[v].None? && c3[v].Some? && ValueOf(ops, inputs, c1, v) == Success(c3[v].value)
    {
      if c3[v] != c2[v] {
        MemoKeepsValue(ops, inputs, c1, c2, v);
      }
    }
  }

  /** A failing prefix of the inputs makes the whole list fail the same way. */
  lemma {:induction false} ValuesOfPrefixFails(ops: seq<Option<Op>>, inputs: seq<seq<nat>>, cache: seq<Option<Data>>,
                                               ts: seq<nat>, bound: nat, k: nat)
    requires Shaped(ops, inputs, cache) && bound <= |ops| && forall j :: 0 <= j < |ts| ==> ts[j] < bound
    requires k <= |ts| && ValuesOf(ops, inputs, cache, ts[..k], bound).Failure?
    ensures ValuesOf(ops, inputs, cache, ts, bound) == ValuesOf(ops, inputs, cache, ts[..k], bound)
    decreases |ts|
  {
    if k < |ts| {
      assert ts[..|ts| - 1][..k] == ts[..k];
      ValuesOfPrefixFails(ops, inputs, cache, ts[..|ts| - 1], bound, k);
    } else {
      assert ts[..k] == ts;
    }
  }

  /** A node appended later (a new leaf, or a new op node over existing
      nodes) changes no earlier node's value. */
  lemma {:induction false} ValueOfExtend(ops: seq<Option<Op>>, inputs: seq<seq<nat>>, cache: seq<Option<Data>>,
                                         op: Option<Op>, ins: seq<nat>, d: Option<Data>, t: nat)
    requires Shaped(ops, inputs, cache) && Shaped(ops + [op], inputs + [ins], cache + [d]) && t < |ops|
    ensures ValueOf(ops + [op], inputs + [ins], cache + [d], t) == ValueOf(ops, inputs, cache, t)
    decreases t, 1
  {
    if cache[t].None? && ops[t].Some? {
      ValuesOfExtend(ops, inputs, cache, op, ins, d, inputs[t], t);
    }
  }

  lemma {:induction false} ValuesOfExtend(ops: seq<Option<Op>>, inputs: seq<seq<nat>>, cache: seq<Option<Data>>,
                                          op: Option<Op>, ins: seq<nat>, d: Option<Data>, ts: seq<nat>, bound: nat)
    requires Shaped(ops, inputs, cache) && Shaped(ops + [op], inputs + [ins], cache + [d])
    requires bound <= |ops| && forall k :: 0 <= k < |ts| ==> ts[k] < bound
    ensures ValuesOf(ops + [op], inputs + [ins], cache + [d], ts, bound) == ValuesOf(ops, inputs, cache, ts, bound)
    decreases bound, 0, |ts|
  {
    if |ts| > 0 {
      ValuesOfExtend(ops, inputs, cache, op, ins, d, ts[..|ts| - 1], bound);
      ValueOfExtend(ops, inputs, cache, op, ins, d, ts[|ts| - 1]);
    }
  }

  /** Realisation that filled the cache before a node was appended still
      only added values realisation gives. */
  lemma MemoExtend(ops: seq<Option<Op>>, inputs: seq<seq<nat>>, c1: seq<Option<Data>>, c2: seq<Option<Data>>,
                   op: Option<Op>, ins: seq<nat>, d: Option<Data>)
    requires Shaped(ops, inputs, c1) && Memo(ops, inputs, c1, c2)
    requires Shaped(ops + [op], inputs + [ins], c1 + [d])
    ensures Memo(ops + [op], inputs + [ins], c1 + [d], c2 + [d])
  {
    forall v | 0 <= v < |c1| && c2[v] != c1[v]
      ensures ValueOf(ops + [op], inputs + [ins], c1 + [d], v) == Success(c2[v].value)
    {
      ValueOfExtend(ops, inputs, c1, op, ins, d, v);
    }
    var e1, e2 := c1 + [d], c2 + [d];
    assert forall v :: 0 <= v < |c1| ==> e1[v] == c1[v] && e2[v] == c2[v];
  }

  /** Realisation done after a node was appended, read on the nodes that
      were there before, is realisation of the graph without it. */
  lemma MemoRetract(ops: seq<Option<Op>>, inputs: seq<seq<nat>>, c1: seq<Option<Data>>, c2: seq<Option<Data>>,
                    op: Option<Op>, ins: seq<nat>, d: Option<Data>)
    requires Shaped(ops, inputs, c1) && Shaped(ops + [op], inputs + [ins], c1 + [d])
    requires Memo(ops + [op], inputs + [ins], c1 + [d], c2)
    ensures Memo(ops, inputs, c1, c2[..|c1|])
  {
    var e1 := c1 + [d];
    forall v | 0 <= v < |c1|
      ensures c2[v] == c1[v] || (c1[v].None? && c2[v].Some? && ValueOf(ops, inputs, c1, v) == Success(c2[v].value))
    {
      assert e1[v] == c1[v];
      ValueOfExtend(ops, inputs, c1, op, ins, d, v);
    }
  }
}
