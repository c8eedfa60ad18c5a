/** The sweep of `computeGradient` in `packages/tensor/src/tensor.ts`, as
    functions of the node arrays: each node of the sweep order sums the
    gradients handed to it (`node2Grad`), keeps the sum as its gradient, and
    hands its op's input gradients to its inputs, the i-th to the i-th.

    Gradients are held as values; the sweep reads the inputs' values only
    for the ops whose gradient rule needs them. */
module TensorBackprop {
  import opened Wrappers
  import opened IndexMath
  import opened TensorOps
  import opened TensorValues
  import opened TensorAutograd
  import G = TensorGraph

  /** The sweep's state: `node2Grad`, and the `gradient` of every node. */
  datatype Sweep = Sweep(pending: map<nat, seq<Data>>, gradient: seq<Option<Data>>)

  /** Where the sweep stopped: its state, and the error thrown, if any. */
  datatype Outcome = Outcome(sweep: Sweep, error: Option<string>)

  /** The error of `node2Grad.get(node)!.map(...)` on a node that was never
      handed a gradient. */
  const MissingGradient := "TypeError: Cannot read properties of undefined (reading 'map')"

  /** The error of `reduce` without an initial value on an empty list. */
  const EmptyReduce := "TypeError: Reduce of empty array with no initial value"

  predicate PendingOk(p: map<nat, seq<Data>>)
  {
    forall x :: x in p ==> AllWellFormed(p[x])
  }

  /** `node2Grad.get(x) || []`. */
  function Pending(p: map<nat, seq<Data>>, x: nat): seq<Data>
  {
    if x in p then p[x] else []
  }

  /* ---------------------------------------------------------------------- */
  /* Summing the handed gradients                                             */

  /** `grads.reduce(add)`: the sum from the left, the first gradient alone
      when there is one, and no sum for an empty list. */
  function SumAll(gs: seq<Data>): (r: Result<Data>)
    requires AllWellFormed(gs)
    ensures r.Success? ==> WellFormed(r.value)
    ensures |gs| == 0 ==> r == Failure(EmptyReduce)
    ensures |gs| == 1 ==> r == Success(gs[0])
  {
    if |gs| == 0 then Failure(EmptyReduce)
    else if |gs| == 1 then Success(gs[0])
    else
      var front :- SumAll(gs[..|gs| - 1]);
      Elementwise(front, gs[|gs| - 1], Plus)
  }

  /** Matrices of one size, all of them. */
  predicate OneSize(gs: seq<Data>, shape: seq<nat>)
  {
    forall k :: 0 <= k < |gs| ==> gs[k].Dense? && gs[k].shape == shape && |gs[k].cells| == Product(shape)
  }

  /** The sum of cell `i` over the matrices `gs`. */
  function CellSum(gs: seq<Data>, shape: seq<nat>, i: nat): real
    requires OneSize(gs, shape) && i < Product(shape)
  {
    if |gs| == 0 then 0.0 else CellSum(gs[..|gs| - 1], shape, i) + gs[|gs| - 1].cells[i]
  }

  /** Matrices of one size sum cell by cell, and keep their size. */
  lemma {:induction false} SumAllCells(gs: seq<Data>, shape: seq<nat>)
    requires |gs| > 0 && OneSize(gs, shape) && AllWellFormed(gs)
    ensures SumAll(gs).Success?
    ensures SumAll(gs).value.Dense? && SumAll(gs).value.shape == shape
    ensures |SumAll(gs).value.cells| == Product(shape)
    ensures forall i :: 0 <= i < Product(shape) ==> SumAll(gs).value.cells[i] == CellSum(gs, shape, i)
  {
    var front := gs[..|gs| - 1];
    if |gs| > 1 {
      SumAllCells(front, shape);
    }
  }

  /** Sizes that differ and are not numbers cannot be summed. */
  lemma SumAllMismatch(a: Data, b: Data)
    requires WellFormed(a) && WellFormed(b) && a.Dense? && b.Dense? && a.shape != b.shape
    ensures SumAll([a, b]) == Failure("DimensionError")
  {
    assert [a, b][..1] == [a];
  }

  /* ---------------------------------------------------------------------- */
  /* Handing gradients on                                                     */

  /** The loop over `node.inputs`: input `ins[i]` is handed `grads[i]`,
      appended to what it already holds. */
  function Push(p: map<nat, seq<Data>>, ins: seq<nat>, grads: seq<Data>): map<nat, seq<Data>>
    requires |grads| >= |ins|
    decreases |ins|
  {
    if |ins| == 0 then p
    else Push(p[ins[0] := Pending(p, ins[0]) + [grads[0]]], ins[1..], grads[1..])
  }

  /** The gradients handed to `x` by one node, in input order. */
  function Received(ins: seq<nat>, grads: seq<Data>, x: nat): seq<Data>
    requires |grads| >= |ins|
    decreases |ins|
  {
    if |ins| == 0 then []
    else (if ins[0] == x then [grads[0]] else []) + Received(ins[1..], grads[1..], x)
  }

  /** Each input is handed its own gradient once per time it is listed, in
      input order, after what it held; nothing else changes. */
  lemma PushLaw(p: map<nat, seq<Data>>, ins: seq<nat>, grads: seq<Data>, x: nat)
    requires |grads| >= |ins|
    ensures Pending(Push(p, ins, grads), x) == Pending(p, x) + Received(ins, grads, x)
    ensures |Received(ins, grads, x)| == multiset(ins)[x]
    ensures x in Push(p, ins, grads) <==> x in p || x in ins
  {
    PushPending(p, ins, grads, x);
    ReceivedCount(ins, grads, x);
    PushKeys(p, ins, grads, x);
  }

  lemma {:induction false} PushPending(p: map<nat, seq<Data>>, ins: seq<nat>, grads: seq<Data>, x: nat)
    requires |grads| >= |ins|
    ensures Pending(Push(p, ins, grads), x) == Pending(p, x) + Received(ins, grads, x)
    decreases |ins|
  {
    if |ins| > 0 {
      var p1 := p[ins[0] := Pending(p, ins[0]) + [grads[0]]];
      PushPending(p1, ins[1..], grads[1..], x);
      if ins[0] == x {
        Append3(Pending(p, x), [grads[0]], Received(ins[1..], grads[1..], x));
      } else {
        assert Pending(p1, x) == Pending(p, x);
        assert Received(ins, grads, x) == Received(ins[1..], grads[1..], x);
      }
    }
  }

  lemma Append3<T>(a: seq<T>, b: seq<T>, c: seq<T>)
    ensures (a + b) + c == a + (b + c)
  {
  }

  lemma {:induction false} ReceivedCount(ins: seq<nat>, grads: seq<Data>, x: nat)
    requires |grads| >= |ins|
    ensures |Received(ins, grads, x)| == multiset(ins)[x]
    decreases |ins|
  {
    if |ins| > 0 {
      ReceivedCount(ins[1..], grads[1..], x);
      assert ins == [ins[0]] + ins[1..];
      assert multiset(ins) == multiset{ins[0]} + multiset(ins[1..]);
    }
  }

  lemma {:induction false} PushKeys(p: map<nat, seq<Data>>, ins: seq<nat>, grads: seq<Data>, x: nat)
    requires |grads| >= |ins|
    ensures x in Push(p, ins, grads) <==> x in p || x in ins
    decreases |ins|
  {
    if |ins| > 0 {
      var p1 := p[ins[0] := Pending(p, ins[0]) + [grads[0]]];
      PushKeys(p1, ins[1..], grads[1..], x);
      assert ins == [ins[0]] + ins[1..];
    }
  }

  lemma {:induction false} PushOk(p: map<nat, seq<Data>>, ins: seq<nat>, grads: seq<Data>)
    requires |grads| >= |ins| && PendingOk(p) && AllWellFormed(grads)
    ensures PendingOk(Push(p, ins, grads))
    decreases |ins|
  {
    if |ins| > 0 {
      var p1 := p[ins[0] := Pending(p, ins[0]) + [grads[0]]];
      assert AllWellFormed(grads[1..]);
      PushOk(p1, ins[1..], grads[1..]);
    }
  }

  /* ---------------------------------------------------------------------- */
  /* One node, and the sweep                                                  */

  /** The ops whose gradient rule reads its inputs' values: `dot`, `matmul`
      and `relu` multiply by them, `reshape` and `flatten` take their size. */
  predicate ReadsInputs(op: Op)
  {
    op.Dot? || op.MatMul? || op.ReLU? || op.ReshapeTo? || op.Flatten?
  }

  /** Stand-ins for the input values of a rule that does not read them. */
  function Placeholders(n: nat): (r: seq<Data>)
    ensures |r| == n && AllWellFormed(r)
  {
    seq(n, _ => Scalar(0.0))
  }

  predicate SweepOk(n: nat, sw: Sweep)
  {
    |sw.gradient| == n && PendingOk(sw.pending)
  }

  /** One turn of the sweep at `node`: sum what it was handed and keep the
      sum as its gradient; a node without an op stops there, and an op node
      hands the i-th gradient of its op's rule to its i-th input. */
  function Visit(ops: seq<Option<Op>>, inputs: seq<seq<nat>>, cache: seq<Option<Data>>, sw: Sweep, node: nat): (o: Outcome)
    requires Shaped(ops, inputs, cache) && node < |ops| && SweepOk(|ops|, sw)
    ensures SweepOk(|ops|, o.sweep)
  {
    if node !in sw.pending then Outcome(sw, Some(MissingGradient))
    else
      match SumAll(sw.pending[node])
      case Failure(e) => Outcome(sw, Some(e))
      case Success(grad) =>
        var kept := sw.(gradient := sw.gradient[node := Some(grad)]);
        if ops[node].None? then Outcome(kept, None)
        else
          var op := ops[node].value;
          var ins := inputs[node];
          var vals := if ReadsInputs(op) then ValuesOf(ops, inputs, cache, ins, node) else Success(Placeholders(|ins|));
          if vals.Failure? then Outcome(kept, Some(vals.error))
          else
            match Gradient(op, grad, vals.value)
            case Failure(e) => Outcome(kept, Some(e))
            case Success(grads) =>
              // A rule returns `Arity(op)` gradients (`GradientArity`) and a
              // node is built with that many inputs, so this branch is never
              // taken; the source would push `undefined` here, not throw.
              if |grads| < |ins| then Outcome(kept, Some("TypeError"))
              else
                PushOk(sw.pending, ins, grads);
                Outcome(kept.(pending := Push(sw.pending, ins, grads)), None)
  }

  predicate InRange(n: nat, order: seq<nat>)
  {
    forall i :: 0 <= i < |order| ==> order[i] < n
  }

  /** The sweep over `order`, stopped by the first error. */
  function Propagate(ops: seq<Option<Op>>, inputs: seq<seq<nat>>, cache: seq<Option<Data>>, sw: Sweep, order: seq<nat>): (o: Outcome)
    requires Shaped(ops, inputs, cache) && SweepOk(|ops|, sw) && InRange(|ops|, order)
    ensures SweepOk(|ops|, o.sweep)
    decreases |order|
  {
    if |order| == 0 then Outcome(sw, None)
    else
      var o := Visit(ops, inputs, cache, sw, order[0]);
      if o.error.Some? then o else Propagate(ops, inputs, cache, o.sweep, order[1..])
  }

  /** `computeGradient(out, seed)` on the gradients `gradient`: the graph
      of `out`, sorted, swept from `{out: [seed]}`. */
  function GradientPass(ops: seq<Option<Op>>, inputs: seq<seq<nat>>, cache: seq<Option<Data>>,
                        gradient: seq<Option<Data>>, out: nat, seed: Data): (o: Outcome)
    requires Shaped(ops, inputs, cache) && out < |ops| && |gradient| == |ops| && WellFormed(seed)
    ensures SweepOk(|ops|, o.sweep)
  {
    GradientOrder(inputs, out);
    Propagate(ops, inputs, cache, Sweep(map[out := [seed]], gradient), Order(inputs, out))
  }

  /* ---------------------------------------------------------------------- */
  /* What a turn and the sweep change                                         */

  /** A turn sets the gradient of its own node and of no other, to the sum
      of what the node was handed; it hands gradients to the node's inputs
      only; and a turn without error had something to sum. */
  lemma VisitFrame(ops: seq<Option<Op>>, inputs: seq<seq<nat>>, cache: seq<Option<Data>>, sw: Sweep, node: nat)
    requires Shaped(ops, inputs, cache) && node < |ops| && SweepOk(|ops|, sw)
    ensures var o := Visit(ops, inputs, cache, sw, node);
      && (forall x :: 0 <= x < |ops| && x != node ==> o.sweep.gradient[x] == sw.gradient[x])
      && (o.sweep.gradient[node] == sw.gradient[node]
          || (node in sw.pending && SumAll(sw.pending[node]).Success?
              && o.sweep.gradient[node] == Some(SumAll(sw.pending[node]).value)))
      && (o.error.None? ==> node in sw.pending && SumAll(sw.pending[node]).Success?
                            && o.sweep.gradient[node] == Some(SumAll(sw.pending[node]).value))
      && (forall x :: x !in inputs[node] ==> Pending(o.sweep.pending, x) == Pending(sw.pending, x))
  {
    var o := Visit(ops, inputs, cache, sw, node);
    if node in sw.pending && SumAll(sw.pending[node]).Success? && o.sweep.pending != sw.pending {
      var grad := SumAll(sw.pending[node]).value;
      var op := ops[node].value;
      var ins := inputs[node];
      var vals := if ReadsInputs(op) then ValuesOf(ops, inputs, cache, ins, node) else Success(Placeholders(|ins|));
      var grads := Gradient(op, grad, vals.value).value;
      forall x | x !in ins ensures Pending(o.sweep.pending, x) == Pending(sw.pending, x) {
        PushLaw(sw.pending, ins, grads, x);
        NotReceived(ins, grads, x);
      }
    }
  }

  lemma {:induction false} NotReceived(ins: seq<nat>, grads: seq<Data>, x: nat)
    requires |grads| >= |ins| && x !in ins
    ensures Received(ins, grads, x) == []
    decreases |ins|
  {
    if |ins| > 0 {
      assert x !in ins[1..];
      NotReceived(ins[1..], grads[1..], x);
    }
  }

  /** The sweep sets the gradients of the nodes of `order` and of no other;
      a gradient once set stays set; without error every node of the order
      has one; and a node that is no input of the order keeps what it was
      handed. */
  lemma {:induction false} PropagateFrame(ops: seq<Option<Op>>, inputs: seq<seq<nat>>, cache: seq<Option<Data>>, sw: Sweep, order: seq<nat>)
    requires Shaped(ops, inputs, cache) && SweepOk(|ops|, sw) && InRange(|ops|, order)
    ensures var o := Propagate(ops, inputs, cache, sw, order);
      && (forall x :: 0 <= x < |ops| && x !in order ==> o.sweep.gradient[x] == sw.gradient[x])
      && (forall x :: 0 <= x < |ops| && sw.gradient[x].Some? ==> o.sweep.gradient[x].Some?)
      && (o.error.None? ==> forall i :: 0 <= i < |order| ==> o.sweep.gradient[order[i]].Some?)
      && (forall x :: (forall i :: 0 <= i < |order| ==> x !in inputs[order[i]])
                      ==> Pending(o.sweep.pending, x) == Pending(sw.pending, x))
    decreases |order|
  {
    if |order| > 0 {
      var v := Visit(ops, inputs, cache, sw, order[0]);
      VisitFrame(ops, inputs, cache, sw, order[0]);
      if v.error.None? {
        var rest := order[1..];
        PropagateFrame(ops, inputs, cache, v.sweep, rest);
        var o := Propagate(ops, inputs, cache, v.sweep, rest);
        forall i | 0 <= i < |order| && o.error.None?
          ensures o.sweep.gradient[order[i]].Some?
        {
          if i > 0 {
            assert order[i] == rest[i - 1];
          }
        }
        forall x | (forall i :: 0 <= i < |order| ==> x !in inputs[order[i]])
          ensures Pending(o.sweep.pending, x) == Pending(sw.pending, x)
        {
          assert x !in inputs[order[0]];
          forall i | 0 <= i < |rest| ensures x !in inputs[rest[i]] {
            assert rest[i] == order[i + 1];
          }
        }
      }
    }
  }

  /** The number of gradients handed to `x` by the op nodes of `order`:
      one per time it is listed as an input. */
  function Uses(ops: seq<Option<Op>>, inputs: seq<seq<nat>>, order: seq<nat>, x: nat): nat
    requires |inputs| == |ops| && InRange(|ops|, order)
    decreases |order|
  {
    if |order| == 0 then 0
    else (if ops[order[0]].Some? then multiset(inputs[order[0]])[x] else 0) + Uses(ops, inputs, order[1..], x)
  }

  /** A turn without error hands `x` one gradient per time the node's op
      lists it. */
  lemma VisitCounts(ops: seq<Option<Op>>, inputs: seq<seq<nat>>, cache: seq<Option<Data>>, sw: Sweep, node: nat, x: nat)
    requires Shaped(ops, inputs, cache) && node < |ops| && SweepOk(|ops|, sw)
    requires Visit(ops, inputs, cache, sw, node).error.None?
    ensures |Pending(Visit(ops, inputs, cache, sw, node).sweep.pending, x)|
            == |Pending(sw.pending, x)| + (if ops[node].Some? then multiset(inputs[node])[x] else 0)
  {
    if ops[node].Some? {
      var grad := SumAll(sw.pending[node]).value;
      var op := ops[node].value;
      var ins := inputs[node];
      var vals := if ReadsInputs(op) then ValuesOf(ops, inputs, cache, ins, node) else Success(Placeholders(|ins|));
      var grads := Gradient(op, grad, vals.value).value;
      PushLaw(sw.pending, ins, grads, x);
    }
  }

  /** A sweep without error hands `x` one gradient per time an op node of
      the order lists it: an input used twice receives two. */
  lemma {:induction false} PropagateCounts(ops: seq<Option<Op>>, inputs: seq<seq<nat>>, cache: seq<Option<Data>>,
                                           sw: Sweep, order: seq<nat>, x: nat)
    requires Shaped(ops, inputs, cache) && SweepOk(|ops|, sw) && InRange(|ops|, order)
    requires Propagate(ops, inputs, cache, sw, order).error.None?
    ensures |Pending(Propagate(ops, inputs, cache, sw, order).sweep.pending, x)|
            == |Pending(sw.pending, x)| + Uses(ops, inputs, order, x)
    decreases |order|
  {
    if |order| > 0 {
      var v := Visit(ops, inputs, cache, sw, order[0]);
      VisitCounts(ops, inputs, cache, sw, order[0], x);
      PropagateCounts(ops, inputs, cache, v.sweep, order[1..], x);
    }
  }

  /** When consumers come first, the sweep gives every node of the order,
      on success, the sum of all it was ever handed: no gradient reaches a
      node after it has been summed. */
  lemma {:induction false} PropagateSums(ops: seq<Option<Op>>, inputs: seq<seq<nat>>, cache: seq<Option<Data>>,
                                         sw: Sweep, order: seq<nat>)
    requires Shaped(ops, inputs, cache) && SweepOk(|ops|, sw) && InRange(|ops|, order)
    requires ConsumersFirst(inputs, order)
    ensures var o := Propagate(ops, inputs, cache, sw, order);
      o.error.None? ==>
        forall i :: 0 <= i < |order| ==>
          var x := order[i];
          SumAll(Pending(o.sweep.pending, x)).Success?
          && o.sweep.gradient[x] == Some(SumAll(Pending(o.sweep.pending, x)).value)
    decreases |order|
  {
    var o := Propagate(ops, inputs, cache, sw, order);
    if |order| > 0 && o.error.None? {
      var node := order[0];
      var rest := order[1..];
      var v := Visit(ops, inputs, cache, sw, node);
      VisitFrame(ops, inputs, cache, sw, node);
      assert ConsumersFirst(inputs, rest) by {
        forall i, j | 0 <= i < |rest| && 0 <= j < |rest| && rest[i] < |inputs| && rest[j] in inputs[rest[i]]
          ensures i < j
        {
          assert rest[i] == order[i + 1] && rest[j] == order[j + 1];
        }
      }
      PropagateSums(ops, inputs, cache, v.sweep, rest);
      PropagateFrame(ops, inputs, cache, v.sweep, rest);
      if node !in rest {
        forall i | 0 <= i < |rest| ensures node !in inputs[rest[i]] {
          assert rest[i] == order[i + 1];
        }
        assert node !in inputs[node];
        assert Pending(o.sweep.pending, node) == Pending(v.sweep.pending, node) == Pending(sw.pending, node);
      }
      forall i | 0 <= i < |order|
        ensures SumAll(Pending(o.sweep.pending, order[i])).Success?
        ensures o.sweep.gradient[order[i]] == Some(SumAll(Pending(o.sweep.pending, order[i])).value)
      {
        if order[i] in rest {
          var j :| 0 <= j < |rest| && rest[j] == order[i];
        }
      }
    }
  }

  /* ---------------------------------------------------------------------- */
  /* The whole pass                                                           */

  /** `backward` on a node without inputs records no edge, so the sorted
      graph is empty and no gradient is set, not even the node's own. */
  lemma LeafPass(ops: seq<Option<Op>>, inputs: seq<seq<nat>>, cache: seq<Option<Data>>,
                 gradient: seq<Option<Data>>, out: nat, seed: Data)
    requires Shaped(ops, inputs, cache) && out < |ops| && |gradient| == |ops| && WellFormed(seed)
    requires inputs[out] == []
    ensures GradientPass(ops, inputs, cache, gradient, out, seed) == Outcome(Sweep(map[out := [seed]], gradient), None)
  {
    GradientOrder(inputs, out);
  }

  /** A sweep whose first node appears once and was handed exactly `seed`
      leaves `seed` as that node's gradient. */
  lemma SweepSeed(ops: seq<Option<Op>>, inputs: seq<seq<nat>>, cache: seq<Option<Data>>,
                  sw: Sweep, order: seq<nat>, seed: Data)
    requires Shaped(ops, inputs, cache) && SweepOk(|ops|, sw) && InRange(|ops|, order)
    requires |order| > 0 && Distinct(order) && WellFormed(seed)
    requires order[0] in sw.pending && sw.pending[order[0]] == [seed]
    ensures Propagate(ops, inputs, cache, sw, order).sweep.gradient[order[0]] == Some(seed)
  {
    var v := Visit(ops, inputs, cache, sw, order[0]);
    VisitFrame(ops, inputs, cache, sw, order[0]);
    assert v.sweep.gradient[order[0]] == Some(seed);
    if v.error.None? {
      var rest := order[1..];
      assert order[0] !in rest by {
        forall i | 0 <= i < |rest| ensures rest[i] != order[0] {
          assert rest[i] == order[i + 1];
        }
      }
      PropagateFrame(ops, inputs, cache, v.sweep, rest);
    }
  }

  /** On a node with inputs the pass visits the node first, so its gradient
      is the seed, whatever happens later. */
  lemma SeedPass(ops: seq<Option<Op>>, inputs: seq<seq<nat>>, cache: seq<Option<Data>>,
                 gradient: seq<Option<Data>>, out: nat, seed: Data)
    requires Shaped(ops, inputs, cache) && out < |ops| && |gradient| == |ops| && WellFormed(seed)
    requires inputs[out] != []
    ensures GradientPass(ops, inputs, cache, gradient, out, seed).sweep.gradient[out] == Some(seed)
  {
    GradientOrder(inputs, out);
    SweepSeed(ops, inputs, cache, Sweep(map[out := [seed]], gradient), Order(inputs, out), seed);
  }

  /** The pass leaves the gradient of every node outside the order alone. */
  lemma PassUntouched(ops: seq<Option<Op>>, inputs: seq<seq<nat>>, cache: seq<Option<Data>>,
                      gradient: seq<Option<Data>>, out: nat, seed: Data)
    requires Shaped(ops, inputs, cache) && out < |ops| && |gradient| == |ops| && WellFormed(seed)
    ensures var o := GradientPass(ops, inputs, cache, gradient, out, seed);
      forall x :: 0 <= x < |ops| && x !in Order(inputs, out) ==> o.sweep.gradient[x] == gradient[x]
  {
    GradientOrder(inputs, out);
    PropagateFrame(ops, inputs, cache, Sweep(map[out := [seed]], gradient), Order(inputs, out));
  }

  /** What a sweep without error leaves at one node of a consumers-first
      order: its gradient is the sum of the list, which grew by one entry
      per use. */
  lemma SweepSumAt(ops: seq<Option<Op>>, inputs: seq<seq<nat>>, cache: seq<Option<Data>>,
                   sw: Sweep, order: seq<nat>, x: nat)
    requires Shaped(ops, inputs, cache) && SweepOk(|ops|, sw) && InRange(|ops|, order)
    requires ConsumersFirst(inputs, order) && x in order
    requires Propagate(ops, inputs, cache, sw, order).error.None?
    ensures var o := Propagate(ops, inputs, cache, sw, order);
      && SumAll(Pending(o.sweep.pending, x)).Success?
      && o.sweep.gradient[x] == Some(SumAll(Pending(o.sweep.pending, x)).value)
      && |Pending(o.sweep.pending, x)| == |Pending(sw.pending, x)| + Uses(ops, inputs, order, x)
  {
    PropagateSums(ops, inputs, cache, sw, order);
    PropagateCounts(ops, inputs, cache, sw, order, x);
  }

  /** A pass without error gives every node `out` depends on a gradient:
      the sum of what it was handed, which is the seed for `out` and one
      gradient per time an op node of the order lists it as an input. */
  lemma PassSums(ops: seq<Option<Op>>, inputs: seq<seq<nat>>, cache: seq<Option<Data>>,
                 gradient: seq<Option<Data>>, out: nat, seed: Data)
    requires Shaped(ops, inputs, cache) && out < |ops| && |gradient| == |ops| && WellFormed(seed)
    ensures (
      GradientOrder(inputs, out);
      var order := Order(inputs, out);
      var o := GradientPass(ops, inputs, cache, gradient, out, seed);
      o.error.None? ==>
        forall x :: x in order ==>
          && SumAll(Pending(o.sweep.pending, x)).Success?
          && o.sweep.gradient[x] == Some(SumAll(Pending(o.sweep.pending, x)).value)
          && |Pending(o.sweep.pending, x)| == (if x == out then 1 else 0) + Uses(ops, inputs, order, x))
  {
    GradientOrder(inputs, out);
    var order := Order(inputs, out);
    var sw := Sweep(map[out := [seed]], gradient);
    if Propagate(ops, inputs, cache, sw, order).error.None? {
      forall x | x in order
        ensures var o := Propagate(ops, inputs, cache, sw, order);
          && SumAll(Pending(o.sweep.pending, x)).Success?
          && o.sweep.gradient[x] == Some(SumAll(Pending(o.sweep.pending, x)).value)
          && |Pending(o.sweep.pending, x)| == (if x == out then 1 else 0) + Uses(ops, inputs, order, x)
      {
        SweepSumAt(ops, inputs, cache, sw, order, x);
      }
    }
  }

  /** The pass does not depend on what realisation has added to the cache. */
  lemma VisitMemo(ops: seq<Option<Op>>, inputs: seq<seq<nat>>, c1: seq<Option<Data>>, c2: seq<Option<Data>>,
                  sw: Sweep, node: nat)
    requires Shaped(ops, inputs, c1) && Memo(ops, inputs, c1, c2) && node < |ops| && SweepOk(|ops|, sw)
    ensures Shaped(ops, inputs, c2)
    ensures Visit(ops, inputs, c1, sw, node) == Visit(ops, inputs, c2, sw, node)
  {
    MemoShaped(ops, inputs, c1, c2);
    if ops[node].Some? {
      MemoKeepsValues(ops, inputs, c1, c2, inputs[node], node);
    }
  }

  lemma {:induction false} PropagateMemo(ops: seq<Option<Op>>, inputs: seq<seq<nat>>, c1: seq<Option<Data>>, c2: seq<Option<Data>>,
                                         sw: Sweep, order: seq<nat>)
    requires Shaped(ops, inputs, c1) && Memo(ops, inputs, c1, c2) && SweepOk(|ops|, sw) && InRange(|ops|, order)
    ensures Shaped(ops, inputs, c2)
    ensures Propagate(ops, inputs, c1, sw, order) == Propagate(ops, inputs, c2, sw, order)
    decreases |order|
  {
    MemoShaped(ops, inputs, c1, c2);
    if |order| > 0 {
      VisitMemo(ops, inputs, c1, c2, sw, order[0]);
      var v := Visit(ops, inputs, c1, sw, order[0]);
      PropagateMemo(ops, inputs, c1, c2, v.sweep, order[1..]);
    }
  }

  lemma PassMemo(ops: seq<Option<Op>>, inputs: seq<seq<nat>>, c1: seq<Option<Data>>, c2: seq<Option<Data>>,
                 gradient: seq<Option<Data>>, out: nat, seed: Data)
    requires Shaped(ops, inputs, c1) && Memo(ops, inputs, c1, c2) && out < |ops| && |gradient| == |ops| && WellFormed(seed)
    ensures Shaped(ops, inputs, c2)
    ensures GradientPass(ops, inputs, c1, gradient, out, seed) == GradientPass(ops, inputs, c2, gradient, out, seed)
  {
    MemoShaped(ops, inputs, c1, c2);
    GradientOrder(inputs, out);
    PropagateMemo(ops, inputs, c1, c2, Sweep(map[out := [seed]], gradient), Order(inputs, out));
  }

  /* ---------------------------------------------------------------------- */
  /* `add(x, x)`                                                              */

  /** `y = add(x, x)` is sorted as `y` first, then `x`. */
  lemma AddTwiceOrder()
    ensures Order([[], [0, 0]], 1) == [1, 0]
  {
    var inputs: seq<seq<nat>> := [[], [0, 0]];
    GradientOrder(inputs, 1);
    var order := Order(inputs, 1);
    assert inputs[order[0]][0] == 0;
    PairOrder(order);
  }

  /** The only repetition-free order of the nodes 0 and 1 that starts with
      1 and holds 0. */
  lemma PairOrder(order: seq<nat>)
    requires Distinct(order) && |order| > 0 && order[0] == 1 && 0 in order
    requires forall i :: 0 <= i < |order| ==> order[i] <= 1
    ensures order == [1, 0]
  {
    assert forall x :: x in order ==> x in [0, 1];
    G.DistinctBound(order, [0, 1]);
  }

  lemma PushTwice(p: map<nat, seq<Data>>, seed: Data)
    requires 0 !in p
    ensures Push(p, [0, 0], [seed, seed]) == p[0 := [seed, seed]]
  {
    var p1 := p[0 := [seed]];
    assert Pending(p, 0) + [seed] == [seed];
    assert Push(p, [0, 0], [seed, seed]) == Push(p1, [0], [seed]) by {
      assert [0, 0][1..] == [0] && [seed, seed][1..] == [seed];
    }
    assert Pending(p1, 0) + [seed] == [seed, seed];
    assert Push(p1, [0], [seed]) == Push(p1[0 := [seed, seed]], [], []) by {
      assert [0][1..] == [] && [seed][1..] == [];
    }
    assert p1[0 := [seed, seed]] == p[0 := [seed, seed]];
  }

  /** The turn at `y = add(x, x)`: `y` keeps the seed and hands it to `x`
      twice. */
  lemma AddTwiceRoot(x: Data, seed: Data)
    requires WellFormed(x) && WellFormed(seed)
    ensures Visit([None, Some(Add)], [[], [0, 0]], [Some(x), None], Sweep(map[1 := [seed]], [None, None]), 1)
         == Outcome(Sweep(map[1 := [seed], 0 := [seed, seed]], [None, Some(seed)]), None)
  {
    var p: map<nat, seq<Data>> := map[1 := [seed]];
    PushTwice(p, seed);
    assert p[0 := [seed, seed]] == map[1 := [seed], 0 := [seed, seed]];
  }

  /** The turn at `x`: it sums the two gradients and stops, having no op. */
  lemma AddTwiceLeaf(x: Data, seed: Data)
    requires WellFormed(x) && WellFormed(seed)
    ensures Elementwise(seed, seed, Plus).Success?
    ensures Visit([None, Some(Add)], [[], [0, 0]], [Some(x), None],
                  Sweep(map[1 := [seed], 0 := [seed, seed]], [None, Some(seed)]), 0)
         == Outcome(Sweep(map[1 := [seed], 0 := [seed, seed]],
                          [Some(Elementwise(seed, seed, Plus).value), Some(seed)]), None)
  {
    assert [seed, seed][..1] == [seed];
    assert SumAll([seed, seed]) == Elementwise(seed, seed, Plus);
  }

  /** Back from `y = add(x, x)`: `y` keeps the seed, and `x` is handed the
      seed twice and keeps their sum. */
  lemma AddTwicePass(x: Data, seed: Data)
    requires WellFormed(x) && WellFormed(seed)
    ensures Elementwise(seed, seed, Plus).Success?
    ensures GradientPass([None, Some(Add)], [[], [0, 0]], [Some(x), None], [None, None], 1, seed)
         == Outcome(Sweep(map[1 := [seed], 0 := [seed, seed]],
                          [Some(Elementwise(seed, seed, Plus).value), Some(seed)]), None)
  {
    var ops: seq<Option<Op>> := [None, Some(Add)];
    var inputs: seq<seq<nat>> := [[], [0, 0]];
    var cache: seq<Option<Data>> := [Some(x), None];
    var sw0 := Sweep(map[1 := [seed]], [None, None]);
    var sw1 := Sweep(map[1 := [seed], 0 := [seed, seed]], [None, Some(seed)]);
    assert Shaped(ops, inputs, cache) && SweepOk(2, sw0) && SweepOk(2, sw1);
    assert InRange(2, [1, 0]) && InRange(2, [0]);
    AddTwiceOrder();
    AddTwiceRoot(x, seed);
    AddTwiceLeaf(x, seed);
    assert GradientPass(ops, inputs, cache, [None, None], 1, seed) == Propagate(ops, inputs, cache, sw0, [1, 0]);
    assert Propagate(ops, inputs, cache, sw0, [1, 0]) == Propagate(ops, inputs, cache, sw1, [0]) by {
      assert [1, 0][1..] == [0];
    }
  }
}
