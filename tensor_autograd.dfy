/** Reverse-mode differentiation of `computeGradient` in
    `packages/tensor/src/tensor.ts`, as functions of the node arrays.

    The pass has three stages:
    - a walk from the output node: a stack with no visited set, so a node
      reached along two paths is expanded twice and its edges are recorded
      twice;
    - the dependency graph of `helper.ts`, sorted by Kahn's algorithm, so
      that every node comes after the nodes that consume it;
    - a sweep in that order, in which each node sums the gradients it has
      received, keeps the sum, and hands its op's input gradients on to its
      inputs.

    Nodes are numbered in creation order, and every input of a node has a
    smaller number than the node itself. */
module TensorAutograd {
  import opened Wrappers
  import opened IndexMath
  import opened TensorOps
  import opened TensorValues
  import G = TensorGraph

  /** Every input of a node was created before it. */
  predicate Below(inputs: seq<seq<nat>>)
  {
    forall t, k :: 0 <= t < |inputs| && 0 <= k < |inputs[t]| ==> inputs[t][k] < t
  }

  predicate OnStack(inputs: seq<seq<nat>>, stack: seq<nat>)
  {
    forall i :: 0 <= i < |stack| ==> stack[i] < |inputs|
  }

  /* ---------------------------------------------------------------------- */
  /* The walk                                                                 */

  /** The number of paths leaving `x` towards the leaves, `x` itself
      counted: what the walk pops below `x`. */
  ghost function Paths(inputs: seq<seq<nat>>, x: nat): nat
    requires Below(inputs) && x < |inputs|
    decreases x, 1
  {
    1 + PathsFrom(inputs, x, |inputs[x]|)
  }

  ghost function PathsFrom(inputs: seq<seq<nat>>, x: nat, k: nat): nat
    requires Below(inputs) && x < |inputs| && k <= |inputs[x]|
    decreases x, 0, k
  {
    if k == 0 then 0 else PathsFrom(inputs, x, k - 1) + Paths(inputs, inputs[x][k - 1])
  }

  ghost function StackPaths(inputs: seq<seq<nat>>, stack: seq<nat>): nat
    requires Below(inputs) && OnStack(inputs, stack)
  {
    if |stack| == 0 then 0 else StackPaths(inputs, stack[..|stack| - 1]) + Paths(inputs, stack[|stack| - 1])
  }

  lemma {:induction false} StackPathsPush(inputs: seq<seq<nat>>, stack: seq<nat>, x: nat, k: nat)
    requires Below(inputs) && OnStack(inputs, stack) && x < |inputs| && k <= |inputs[x]|
    ensures OnStack(inputs, stack + inputs[x][..k])
    ensures StackPaths(inputs, stack + inputs[x][..k]) == StackPaths(inputs, stack) + PathsFrom(inputs, x, k)
  {
    if k == 0 {
      assert stack + inputs[x][..k] == stack;
    } else {
      StackPathsPush(inputs, stack, x, k - 1);
      assert (stack + inputs[x][..k])[..|stack| + k - 1] == stack + inputs[x][..k - 1];
    }
  }

  function Empty(): G.GraphState
  {
    G.GraphState([], map[], map[])
  }

  /** `node.inputs.forEach(input => g.addEdge(node, input))`. */
  function LinkAll(st: G.GraphState, node: nat, ins: seq<nat>): G.GraphState
    decreases |ins|
  {
    if |ins| == 0 then st else LinkAll(G.Link(st, node, ins[0]), node, ins[1..])
  }

  /** The walk of `computeGradient`: pop the top node, record an edge to
      each of its inputs and push them, until the stack is empty. */
  function Walk(inputs: seq<seq<nat>>, stack: seq<nat>, st: G.GraphState): G.GraphState
    requires Below(inputs) && OnStack(inputs, stack)
    decreases StackPaths(inputs, stack)
  {
    if |stack| == 0 then st
    else
      var node := stack[|stack| - 1];
      var rest := stack[..|stack| - 1];
      StackPathsPush(inputs, rest, node, |inputs[node]|);
      assert inputs[node][..|inputs[node]|] == inputs[node];
      Walk(inputs, rest + inputs[node], LinkAll(st, node, inputs[node]))
  }

  /** The graph `computeGradient` builds for the output node `out`. */
  function GraphOf(inputs: seq<seq<nat>>, out: nat): G.GraphState
    requires Below(inputs) && out < |inputs|
  {
    Walk(inputs, [out], Empty())
  }

  /** The walk, run on a `Graph` object. */
  method BuildGraph(inputs: seq<seq<nat>>, out: nat) returns (g: G.Graph)
    requires Below(inputs) && out < |inputs|
    ensures fresh(g) && g.Valid()
    ensures g.State() == GraphOf(inputs, out)
  {
    g := new G.Graph();
    var stack := [out];
    while |stack| > 0
      invariant fresh(g) && g.Valid()
      invariant OnStack(inputs, stack)
      invariant Walk(inputs, stack, g.State()) == GraphOf(inputs, out)
      decreases StackPaths(inputs, stack)
    {
      var node := stack[|stack| - 1];
      stack := stack[..|stack| - 1];
      StackPathsPush(inputs, stack, node, |inputs[node]|);
      assert inputs[node][..|inputs[node]|] == inputs[node];
      Expand(g, node, inputs[node]);
      stack := stack + inputs[node];
    }
  }

  /** One turn of the walk: an edge from `node` to each input, in order. */
  method Expand(g: G.Graph, node: nat, ins: seq<nat>)
    requires g.Valid()
    modifies g
    ensures g.Valid()
    ensures g.State() == LinkAll(old(g.State()), node, ins)
  {
    ghost var st0 := g.State();
    for k := 0 to |ins|
      invariant g.Valid()
      invariant LinkAll(g.State(), node, ins[k..]) == LinkAll(st0, node, ins)
    {
      g.AddEdge(node, ins[k]);
      TakeStep(ins, k);
    }
    assert ins[|ins|..] == [];
  }

  /* ---------------------------------------------------------------------- */
  /* What the walk builds                                                     */

  ghost predicate Valid(st: G.GraphState)
  {
    G.Shaped(st.nodes, st.edges) && G.Counted(st.nodes, st.edges, st.indegree)
  }

  /** Recording the edges of one node: it and its inputs become nodes, its
      edge list grows by the inputs in order, and each input's in-degree
      grows by the number of times it is listed. */
  lemma LinkAllLaws(st: G.GraphState, node: nat, ins: seq<nat>)
    requires Valid(st)
    ensures var r := LinkAll(st, node, ins);
      && Valid(r)
      && (forall x :: x in r.nodes <==> x in st.nodes || (|ins| > 0 && x == node) || x in ins)
      && (forall src :: G.EdgesOf(r.edges, src)
                        == if src == node then G.EdgesOf(st.edges, src) + ins else G.EdgesOf(st.edges, src))
      && (forall x :: G.DegreeOf(r.indegree, x) == G.DegreeOf(st.indegree, x) + multiset(ins)[x])
  {
    LinkAllValid(st, node, ins);
    LinkAllNodes(st, node, ins);
    forall src {
      LinkAllEdges(st, node, ins, src);
    }
    forall x {
      LinkAllDegree(st, node, ins, x);
    }
  }

  lemma {:induction false} LinkAllValid(st: G.GraphState, node: nat, ins: seq<nat>)
    requires Valid(st)
    ensures Valid(LinkAll(st, node, ins))
    decreases |ins|
  {
    if |ins| > 0 {
      G.AddEdgeKeepsValid(st.nodes, st.edges, st.indegree, node, ins[0]);
      LinkAllValid(G.Link(st, node, ins[0]), node, ins[1..]);
    }
  }

  lemma {:induction false} LinkAllNodes(st: G.GraphState, node: nat, ins: seq<nat>)
    ensures forall x :: x in LinkAll(st, node, ins).nodes <==> x in st.nodes || (|ins| > 0 && x == node) || x in ins
    decreases |ins|
  {
    if |ins| > 0 {
      LinkAllNodes(G.Link(st, node, ins[0]), node, ins[1..]);
      assert ins == [ins[0]] + ins[1..];
    }
  }

  lemma {:induction false} LinkAllEdges(st: G.GraphState, node: nat, ins: seq<nat>, src: nat)
    ensures G.EdgesOf(LinkAll(st, node, ins).edges, src)
            == if src == node then G.EdgesOf(st.edges, src) + ins else G.EdgesOf(st.edges, src)
    decreases |ins|
  {
    if |ins| > 0 {
      var st1 := G.Link(st, node, ins[0]);
      LinkAllEdges(st1, node, ins[1..], src);
      LinkEdges(st, node, ins[0], src);
      if src == node {
        SplitHead(G.EdgesOf(st.edges, src), ins);
      }
    }
  }

  lemma LinkEdges(st: G.GraphState, from: nat, to: nat, src: nat)
    ensures G.EdgesOf(G.Link(st, from, to).edges, src)
            == if src == from then G.EdgesOf(st.edges, src) + [to] else G.EdgesOf(st.edges, src)
  {
  }

  lemma SplitHead(e: seq<nat>, ins: seq<nat>)
    requires |ins| > 0
    ensures (e + [ins[0]]) + ins[1..] == e + ins
  {
    assert [ins[0]] + ins[1..] == ins;
  }

  lemma {:induction false} LinkAllDegree(st: G.GraphState, node: nat, ins: seq<nat>, x: nat)
    ensures G.DegreeOf(LinkAll(st, node, ins).indegree, x) == G.DegreeOf(st.indegree, x) + multiset(ins)[x]
    decreases |ins|
  {
    if |ins| > 0 {
      LinkAllDegree(G.Link(st, node, ins[0]), node, ins[1..], x);
      assert ins == [ins[0]] + ins[1..];
      assert multiset(ins) == multiset{ins[0]} + multiset(ins[1..]);
    }
  }

  /** All inputs of `x` are recorded as its edges. */
  predicate Linked(inputs: seq<seq<nat>>, edges: map<nat, seq<nat>>, x: nat)
  {
    x < |inputs| && forall k :: 0 <= k < |inputs[x]| ==> inputs[x][k] in G.EdgesOf(edges, x)
  }

  /** What holds between two turns of the walk from `out`: every edge goes
      from a node to one of its inputs; every node but `out` has an edge
      into it and `out` has none; every stacked node but `out` is a node
      already; and a node off the stack has all its inputs as edges. */
  ghost predicate Walked(inputs: seq<seq<nat>>, out: nat, stack: seq<nat>, st: G.GraphState)
  {
    Valid(st) && Tidy(inputs, out, stack, st)
  }

  /** `Walked` but for the graph's own validity. */
  ghost predicate Tidy(inputs: seq<seq<nat>>, out: nat, stack: seq<nat>, st: G.GraphState)
  {
    && Below(inputs) && out < |inputs|
    && StackedNodes(out, stack, st.nodes)
    && (forall x :: x in st.nodes ==> x <= out)
    && EdgesDown(inputs, out, st.edges)
    && Entered(out, st.nodes, st.indegree)
    && (forall x :: x in st.nodes && x !in stack ==> Linked(inputs, st.edges, x))
  }

  predicate StackedNodes(out: nat, stack: seq<nat>, nodes: seq<nat>)
  {
    forall i :: 0 <= i < |stack| ==> stack[i] <= out && (stack[i] != out ==> stack[i] in nodes)
  }

  ghost predicate EdgesDown(inputs: seq<seq<nat>>, out: nat, edges: map<nat, seq<nat>>)
    requires out < |inputs|
  {
    forall src: nat, t: nat :: t in G.EdgesOf(edges, src) ==> src <= out && t < src && t in inputs[src]
  }

  ghost predicate Entered(out: nat, nodes: seq<nat>, indegree: map<nat, int>)
  {
    && (forall x: nat :: G.DegreeOf(indegree, x) >= 0)
    && (forall x :: x in nodes && x != out ==> G.DegreeOf(indegree, x) > 0)
    && G.DegreeOf(indegree, out) == 0
  }

  /** The facts of `LinkAllLaws` other than validity, for `r`. */
  ghost predicate LinkedFrom(st: G.GraphState, node: nat, ins: seq<nat>, r: G.GraphState)
  {
    && (forall x :: x in r.nodes <==> x in st.nodes || (|ins| > 0 && x == node) || x in ins)
    && (forall src :: G.EdgesOf(r.edges, src)
                      == if src == node then G.EdgesOf(st.edges, src) + ins else G.EdgesOf(st.edges, src))
    && (forall x :: G.DegreeOf(r.indegree, x) == G.DegreeOf(st.indegree, x) + multiset(ins)[x])
  }

  lemma StepStacked(inputs: seq<seq<nat>>, out: nat, stack: seq<nat>, st: G.GraphState, r: G.GraphState)
    requires Below(inputs) && |stack| > 0 && StackedNodes(out, stack, st.nodes)
    requires stack[|stack| - 1] < |inputs|
    requires LinkedFrom(st, stack[|stack| - 1], inputs[stack[|stack| - 1]], r)
    ensures var node := stack[|stack| - 1];
      StackedNodes(out, stack[..|stack| - 1] + inputs[node], r.nodes)
  {
    var node := stack[|stack| - 1];
    var ins := inputs[node];
    var rest := stack[..|stack| - 1];
    var next := rest + ins;
    forall i | 0 <= i < |next|
      ensures next[i] <= out && (next[i] != out ==> next[i] in r.nodes)
    {
      if i >= |rest| {
        assert next[i] == ins[i - |rest|];
        assert next[i] in ins;
      } else {
        assert next[i] == stack[i];
      }
    }
  }

  lemma StepEdges(inputs: seq<seq<nat>>, out: nat, node: nat, st: G.GraphState, r: G.GraphState)
    requires out < |inputs| && node <= out
    requires EdgesDown(inputs, out, st.edges) && LinkedFrom(st, node, inputs[node], r)
    requires forall k :: 0 <= k < |inputs[node]| ==> inputs[node][k] < node
    ensures EdgesDown(inputs, out, r.edges)
  {
    forall src: nat, t: nat | t in G.EdgesOf(r.edges, src)
      ensures src <= out && t < src && t in inputs[src]
    {
      if src == node && t !in G.EdgesOf(st.edges, src) {
        assert G.EdgesOf(r.edges, src) == G.EdgesOf(st.edges, src) + inputs[node];
      }
    }
  }

  lemma StepEntered(out: nat, node: nat, ins: seq<nat>, st: G.GraphState, r: G.GraphState)
    requires Entered(out, st.nodes, st.indegree) && LinkedFrom(st, node, ins, r)
    requires node <= out && (node != out ==> node in st.nodes)
    requires forall k :: 0 <= k < |ins| ==> ins[k] < node
    ensures Entered(out, r.nodes, r.indegree)
  {
    assert out !in ins;
    forall x: nat
      ensures G.DegreeOf(r.indegree, x) >= 0
      ensures x in r.nodes && x != out ==> G.DegreeOf(r.indegree, x) > 0
    {
      assert G.DegreeOf(r.indegree, x) == G.DegreeOf(st.indegree, x) + multiset(ins)[x];
      if x in ins {
        assert multiset(ins)[x] > 0;
      }
    }
  }

  lemma StepLinked(inputs: seq<seq<nat>>, stack: seq<nat>, st: G.GraphState, r: G.GraphState)
    requires |stack| > 0 && stack[|stack| - 1] < |inputs|
    requires forall x :: x in st.nodes && x !in stack ==> Linked(inputs, st.edges, x)
    requires LinkedFrom(st, stack[|stack| - 1], inputs[stack[|stack| - 1]], r)
    ensures var next := stack[..|stack| - 1] + inputs[stack[|stack| - 1]];
      forall x :: x in r.nodes && x !in next ==> Linked(inputs, r.edges, x)
  {
    var node := stack[|stack| - 1];
    var ins := inputs[node];
    var rest := stack[..|stack| - 1];
    var next := rest + ins;
    forall x | x in r.nodes && x !in next
      ensures Linked(inputs, r.edges, x)
    {
      if x == node {
        forall k | 0 <= k < |ins| ensures ins[k] in G.EdgesOf(r.edges, x) {
          assert G.EdgesOf(r.edges, x) == G.EdgesOf(st.edges, x) + ins;
        }
      } else {
        assert x !in stack;
        assert x in st.nodes;
        assert Linked(inputs, st.edges, x);
        forall k | 0 <= k < |inputs[x]| ensures inputs[x][k] in G.EdgesOf(r.edges, x) {
          assert G.EdgesOf(r.edges, x) == G.EdgesOf(st.edges, x);
        }
      }
    }
  }

  /** One turn of the walk keeps `Walked`. */
  lemma WalkStep(inputs: seq<seq<nat>>, out: nat, stack: seq<nat>, st: G.GraphState)
    requires Walked(inputs, out, stack, st) && |stack| > 0
    ensures var node := stack[|stack| - 1];
      Walked(inputs, out, stack[..|stack| - 1] + inputs[node], LinkAll(st, node, inputs[node]))
  {
    var node := stack[|stack| - 1];
    LinkAllValid(st, node, inputs[node]);
    TidyStep(inputs, out, stack, st);
  }

  lemma TidyStep(inputs: seq<seq<nat>>, out: nat, stack: seq<nat>, st: G.GraphState)
    requires Tidy(inputs, out, stack, st) && |stack| > 0
    ensures var node := stack[|stack| - 1];
      Tidy(inputs, out, stack[..|stack| - 1] + inputs[node], LinkAll(st, node, inputs[node]))
  {
    var node := stack[|stack| - 1];
    var ins := inputs[node];
    var r := LinkAll(st, node, ins);
    LinkAllFrom(st, node, ins);
    StepNodes(inputs, out, stack, st, r);
    StepCounts(inputs, out, node, st, r);
  }

  /** A turn keeps the stack and node facts of `Tidy`. */
  lemma StepNodes(inputs: seq<seq<nat>>, out: nat, stack: seq<nat>, st: G.GraphState, r: G.GraphState)
    requires Below(inputs) && out < |inputs| && |stack| > 0 && StackedNodes(out, stack, st.nodes)
    requires forall x :: x in st.nodes ==> x <= out
    requires forall x :: x in st.nodes && x !in stack ==> Linked(inputs, st.edges, x)
    requires LinkedFrom(st, stack[|stack| - 1], inputs[stack[|stack| - 1]], r)
    ensures var next := stack[..|stack| - 1] + inputs[stack[|stack| - 1]];
      && StackedNodes(out, next, r.nodes)
      && (forall x :: x in r.nodes ==> x <= out)
      && (forall x :: x in r.nodes && x !in next ==> Linked(inputs, r.edges, x))
  {
    StepStacked(inputs, out, stack, st, r);
    StepBounded(inputs, out, stack[|stack| - 1], st, r);
    StepLinked(inputs, stack, st, r);
  }

  /** A turn keeps the edge and in-degree facts of `Tidy`. */
  lemma StepCounts(inputs: seq<seq<nat>>, out: nat, node: nat, st: G.GraphState, r: G.GraphState)
    requires Below(inputs) && out < |inputs| && node <= out && (node != out ==> node in st.nodes)
    requires EdgesDown(inputs, out, st.edges) && Entered(out, st.nodes, st.indegree)
    requires LinkedFrom(st, node, inputs[node], r)
    ensures EdgesDown(inputs, out, r.edges) && Entered(out, r.nodes, r.indegree)
  {
    StepEdges(inputs, out, node, st, r);
    StepEntered(out, node, inputs[node], st, r);
  }

  /** The nodes a turn adds are the popped node and its inputs, all at
      most `out`. */
  lemma StepBounded(inputs: seq<seq<nat>>, out: nat, node: nat, st: G.GraphState, r: G.GraphState)
    requires Below(inputs) && node <= out && out < |inputs|
    requires forall x :: x in st.nodes ==> x <= out
    requires LinkedFrom(st, node, inputs[node], r)
    ensures forall x :: x in r.nodes ==> x <= out
  {
    forall x | x in r.nodes
      ensures x <= out
    {
      if x in inputs[node] {
        var k :| 0 <= k < |inputs[node]| && inputs[node][k] == x;
      }
    }
  }

  lemma LinkAllFrom(st: G.GraphState, node: nat, ins: seq<nat>)
    ensures LinkedFrom(st, node, ins, LinkAll(st, node, ins))
  {
    LinkAllNodes(st, node, ins);
    forall src {
      LinkAllEdges(st, node, ins, src);
    }
    forall x {
      LinkAllDegree(st, node, ins, x);
    }
  }

  /** The walk keeps `Walked`, ends with an empty stack, and only adds
      nodes. */
  lemma {:induction false} WalkLaws(inputs: seq<seq<nat>>, out: nat, stack: seq<nat>, st: G.GraphState)
    requires Walked(inputs, out, stack, st) && OnStack(inputs, stack)
    ensures Walked(inputs, out, [], Walk(inputs, stack, st))
    ensures forall x :: x in st.nodes ==> x in Walk(inputs, stack, st).nodes
    decreases StackPaths(inputs, stack)
  {
    if |stack| > 0 {
      var node := stack[|stack| - 1];
      var rest := stack[..|stack| - 1];
      StackPathsPush(inputs, rest, node, |inputs[node]|);
      assert inputs[node][..|inputs[node]|] == inputs[node];
      WalkStep(inputs, out, stack, st);
      LinkAllLaws(st, node, inputs[node]);
      WalkLaws(inputs, out, rest + inputs[node], LinkAll(st, node, inputs[node]));
    }
  }

  /** The graph built from `out`: a valid graph whose edges are the input
      links of its nodes, each pointing to a smaller number; `out` is its
      only node without an edge into it, and it is a node exactly when it
      has inputs; and every input of a node is a node with that edge. */
  lemma GraphOfLaws(inputs: seq<seq<nat>>, out: nat)
    requires Below(inputs) && out < |inputs|
    ensures var g := GraphOf(inputs, out);
      && Valid(g)
      && (forall x :: x in g.nodes ==> x <= out)
      && (forall src: nat, t: nat :: t in G.EdgesOf(g.edges, src) ==> src <= out && t < src && t in inputs[src])
      && (forall x :: x in g.nodes && x != out ==> G.DegreeOf(g.indegree, x) > 0)
      && G.DegreeOf(g.indegree, out) == 0
      && (forall x :: x in g.nodes ==> Linked(inputs, g.edges, x))
      && (out in g.nodes <==> inputs[out] != [])
  {
    assert Walked(inputs, out, [out], Empty()) by {
      assert G.Counted([], map[], map[]) by {
        forall x ensures G.DegreeOf(map[], x) == G.InCount(map[], [], {}, x) {
        }
      }
    }
    WalkLaws(inputs, out, [out], Empty());
    GraphOfRoot(inputs, out);
  }

  /** The root is a node of the graph exactly when it has inputs. */
  lemma GraphOfRoot(inputs: seq<seq<nat>>, out: nat)
    requires Below(inputs) && out < |inputs|
    ensures out in GraphOf(inputs, out).nodes <==> inputs[out] != []
  {
    var ins := inputs[out];
    StackPathsPush(inputs, [], out, |ins|);
    assert ins[..|ins|] == ins;
    assert [out][..0] + ins == ins;
    var st1 := LinkAll(Empty(), out, ins);
    assert GraphOf(inputs, out) == Walk(inputs, ins, st1);
    if ins == [] {
      GraphOfLeaf(inputs, out);
    } else {
      LinkAllNodes(Empty(), out, ins);
      WalkGrows(inputs, ins, st1);
    }
  }

  /** The walk only adds nodes. */
  lemma {:induction false} WalkGrows(inputs: seq<seq<nat>>, stack: seq<nat>, st: G.GraphState)
    requires Below(inputs) && OnStack(inputs, stack)
    ensures forall x :: x in st.nodes ==> x in Walk(inputs, stack, st).nodes
    decreases StackPaths(inputs, stack)
  {
    if |stack| > 0 {
      var node := stack[|stack| - 1];
      var rest := stack[..|stack| - 1];
      StackPathsPush(inputs, rest, node, |inputs[node]|);
      assert inputs[node][..|inputs[node]|] == inputs[node];
      LinkAllNodes(st, node, inputs[node]);
      WalkGrows(inputs, rest + inputs[node], LinkAll(st, node, inputs[node]));
    }
  }

  /** A root without inputs gives the empty graph. */
  lemma GraphOfLeaf(inputs: seq<seq<nat>>, out: nat)
    requires Below(inputs) && out < |inputs| && inputs[out] == []
    ensures GraphOf(inputs, out) == Empty()
  {
    var ins := inputs[out];
    StackPathsPush(inputs, [], out, |ins|);
    assert ins[..|ins|] == ins;
    assert [out][..0] + ins == ins;
    var st1 := LinkAll(Empty(), out, ins);
    assert GraphOf(inputs, out) == Walk(inputs, ins, st1);
    assert st1 == Empty();
    assert Walk(inputs, [], Empty()) == Empty();
  }

  /* ---------------------------------------------------------------------- */
  /* The order of the sweep                                                   */

  /** `g.sort()` on the graph built from `out`. */
  function Order(inputs: seq<seq<nat>>, out: nat): seq<nat>
    requires Below(inputs) && out < |inputs|
  {
    GraphOfLaws(inputs, out);
    var g := GraphOf(inputs, out);
    G.SortSpec(g.nodes, g.edges, g.indegree).out
  }

  /** Consumers come first: a node that is an input of the node at `i`
      comes after `i`. */
  predicate ConsumersFirst(inputs: seq<seq<nat>>, order: seq<nat>)
  {
    forall i, j :: 0 <= i < |order| && 0 <= j < |order| && order[i] < |inputs| && order[j] in inputs[order[i]] ==> i < j
  }

  /** The sweep order: empty when `out` has no inputs and led by `out`
      otherwise; every node at most once; consumers before their inputs;
      and closed under inputs, so that every node `out` depends on is in
      it. */
  lemma GradientOrder(inputs: seq<seq<nat>>, out: nat)
    requires Below(inputs) && out < |inputs|
    ensures var order := Order(inputs, out);
      && (inputs[out] == [] ==> order == [])
      && (inputs[out] != [] ==> |order| > 0 && order[0] == out)
      && Distinct(order)
      && (forall i :: 0 <= i < |order| ==> order[i] <= out)
      && ConsumersFirst(inputs, order)
      && (forall i, k :: 0 <= i < |order| && 0 <= k < |inputs[order[i]]| ==> inputs[order[i]][k] in order)
  {
    var order := Order(inputs, out);
    OrderBelow(inputs, out);
    OrderSorted(inputs, out);
    if inputs[out] == [] {
      OrderOfLeaf(inputs, out);
    } else {
      OrderedRoot(inputs, out);
    }
    OrderConsumersFirst(inputs, out);
    OrderClosed(inputs, out);
  }

  lemma OrderBelow(inputs: seq<seq<nat>>, out: nat)
    requires Below(inputs) && out < |inputs|
    ensures var order := Order(inputs, out); forall i :: 0 <= i < |order| ==> order[i] <= out
  {
    var order := Order(inputs, out);
    OrderComplete(inputs, out);
    GraphShape(inputs, out);
    forall i | 0 <= i < |order| ensures order[i] <= out {
      assert order[i] in order;
    }
  }

  lemma OrderOfLeaf(inputs: seq<seq<nat>>, out: nat)
    requires Below(inputs) && out < |inputs| && inputs[out] == []
    ensures Order(inputs, out) == []
  {
    var order := Order(inputs, out);
    OrderComplete(inputs, out);
    GraphOfLeaf(inputs, out);
  }

  /** The order holds each node of the graph once and respects its edges. */
  lemma OrderSpan(inputs: seq<seq<nat>>, out: nat)
    requires Below(inputs) && out < |inputs|
    ensures var g := GraphOf(inputs, out); var order := Order(inputs, out);
      && Distinct(order) && (forall x :: x in order <==> x in g.nodes)
      && G.Ordered(g.nodes, g.edges, order)
  {
    OrderSorted(inputs, out);
    OrderComplete(inputs, out);
  }

  lemma OrderSorted(inputs: seq<seq<nat>>, out: nat)
    requires Below(inputs) && out < |inputs|
    ensures var g := GraphOf(inputs, out); var order := Order(inputs, out);
      Distinct(order) && G.Ordered(g.nodes, g.edges, order)
  {
    GraphOfLaws(inputs, out);
    var g := GraphOf(inputs, out);
    G.SortOrder(g.nodes, g.edges, g.indegree);
  }

  lemma OrderComplete(inputs: seq<seq<nat>>, out: nat)
    requires Below(inputs) && out < |inputs|
    ensures var g := GraphOf(inputs, out); forall x :: x in Order(inputs, out) <==> x in g.nodes
  {
    GraphOfLaws(inputs, out);
    var g := GraphOf(inputs, out);
    var rank := Rank(|inputs|);
    assert Descending(g, rank) by {
      EdgesDescend(inputs, out);
    }
    G.SortAcyclicComplete(g.nodes, g.edges, g.indegree, rank);
  }

  /** Nodes ranked by how far below `n` they are. */
  function Rank(n: nat): nat -> nat
  {
    (x: nat) => if x < n then n - x else 0
  }

  predicate Descending(g: G.GraphState, rank: nat -> nat)
  {
    forall src, t :: src in g.nodes && t in G.EdgesOf(g.edges, src) ==> rank(src) < rank(t)
  }

  lemma EdgesDescend(inputs: seq<seq<nat>>, out: nat)
    requires Below(inputs) && out < |inputs|
    ensures Descending(GraphOf(inputs, out), Rank(|inputs|))
  {
    GraphOfLaws(inputs, out);
  }

  /** The nodes of the graph are at most `out`, have their inputs as
      edges, and include `out` exactly when it has inputs. */
  lemma GraphShape(inputs: seq<seq<nat>>, out: nat)
    requires Below(inputs) && out < |inputs|
    ensures var g := GraphOf(inputs, out);
      && (forall x :: x in g.nodes ==> x <= out && Linked(inputs, g.edges, x))
      && (out in g.nodes <==> inputs[out] != [])
  {
    GraphOfLaws(inputs, out);
  }

  lemma OrderConsumersFirst(inputs: seq<seq<nat>>, out: nat)
    requires Below(inputs) && out < |inputs|
    ensures ConsumersFirst(inputs, Order(inputs, out))
  {
    var g := GraphOf(inputs, out);
    var order := Order(inputs, out);
    OrderSpan(inputs, out);
    GraphShape(inputs, out);
    forall i, j | 0 <= i < |order| && 0 <= j < |order| && order[i] < |inputs| && order[j] in inputs[order[i]]
      ensures i < j
    {
      assert order[i] in g.nodes;
      assert Linked(inputs, g.edges, order[i]);
      assert order[j] in G.EdgesOf(g.edges, order[i]);
      assert order[i] in order[..j];
      var m :| 0 <= m < j && order[..j][m] == order[i];
      assert order[m] == order[i];
    }
  }

  lemma OrderClosed(inputs: seq<seq<nat>>, out: nat)
    requires Below(inputs) && out < |inputs|
    ensures var order := Order(inputs, out);
      forall i, k :: 0 <= i < |order| && order[i] < |inputs| && 0 <= k < |inputs[order[i]]| ==> inputs[order[i]][k] in order
  {
    var g := GraphOf(inputs, out);
    var order := Order(inputs, out);
    OrderSpan(inputs, out);
    GraphShape(inputs, out);
    GraphOfLaws(inputs, out);
    forall i, k | 0 <= i < |order| && order[i] < |inputs| && 0 <= k < |inputs[order[i]]|
      ensures inputs[order[i]][k] in order
    {
      assert Linked(inputs, g.edges, order[i]);
      assert inputs[order[i]][k] in G.EdgesOf(g.edges, order[i]);
    }
  }

  /** The root is the only node without an edge into it. */
  lemma RootOnlySeed(inputs: seq<seq<nat>>, out: nat)
    requires Below(inputs) && out < |inputs| && inputs[out] != []
    ensures var g := GraphOf(inputs, out); G.Seeds(g.nodes, g.indegree) == [out]
  {
    var g := GraphOf(inputs, out);
    RootDegrees(inputs, out);
    var seeds := G.Seeds(g.nodes, g.indegree);
    forall x ensures x in seeds <==> x == out {
      G.SeedsMember(g.nodes, g.indegree, x);
    }
    G.SeedsDistinct(g.nodes, g.indegree);
    assert out in seeds;
    G.DistinctBound(seeds, [out]);
    assert seeds[0] in seeds;
  }

  lemma RootDegrees(inputs: seq<seq<nat>>, out: nat)
    requires Below(inputs) && out < |inputs| && inputs[out] != []
    ensures var g := GraphOf(inputs, out);
      && Distinct(g.nodes) && out in g.nodes && G.DegreeOf(g.indegree, out) == 0
      && (forall x :: x in g.nodes && x != out ==> G.DegreeOf(g.indegree, x) > 0)
  {
    GraphOfLaws(inputs, out);
  }

  /** The root leads the order when it has inputs. */
  lemma OrderedRoot(inputs: seq<seq<nat>>, out: nat)
    requires Below(inputs) && out < |inputs| && inputs[out] != []
    ensures var order := Order(inputs, out); |order| > 0 && order[0] == out
  {
    GraphOfLaws(inputs, out);
    var g := GraphOf(inputs, out);
    RootOnlySeed(inputs, out);
    G.SortSeedsFirst(g.nodes, g.edges, g.indegree);
    var order := Order(inputs, out);
    assert order[..1] == [out];
  }
}
