/** The dependency graph of `packages/tensor/src/helper.ts`: `addEdge`
    records an edge and bumps the target's in-degree, and `sort` is Kahn's
    algorithm with a FIFO queue, consuming the in-degree map as it goes.
    Nodes are identified by numbers (the tensors' identities). */
module TensorGraph {
  import opened IndexMath

  /** `edges.get(node) || []`. */
  function EdgesOf(edges: map<nat, seq<nat>>, node: nat): seq<nat>
  {
    if node in edges then edges[node] else []
  }

  /** `indegree.get(node) || 0`. */
  function DegreeOf(indegree: map<nat, int>, node: nat): int
  {
    if node in indegree then indegree[node] else 0
  }

  /** `Set.add`: insertion order, no repeats. */
  function Insert(nodes: seq<nat>, x: nat): (r: seq<nat>)
    ensures forall y :: y in r <==> y in nodes || y == x
  {
    if x in nodes then nodes else nodes + [x]
  }

  /** The number of edge entries into `x` from the sources in `srcs` that
      are not in `done`. */
  function InCount(edges: map<nat, seq<nat>>, srcs: seq<nat>, done: set<nat>, x: nat): nat
  {
    if |srcs| == 0 then 0
    else (if srcs[0] in done then 0 else multiset(EdgesOf(edges, srcs[0]))[x])
         + InCount(edges, srcs[1..], done, x)
  }

  /** Every source and every target of an edge is a node, and nodes do not
      repeat. */
  predicate Shaped(nodes: seq<nat>, edges: map<nat, seq<nat>>)
  {
    Distinct(nodes)
    && (forall src :: src in edges ==> src in nodes)
    && (forall src, t :: src in edges && t in edges[src] ==> t in nodes)
  }

  /** The in-degree map counts the edge entries into every number, which is
      0 for a number that is not a node. */
  ghost predicate Counted(nodes: seq<nat>, edges: map<nat, seq<nat>>, indegree: map<nat, int>)
  {
    forall x :: DegreeOf(indegree, x) == InCount(edges, nodes, {}, x)
  }

  /* ---------------------------------------------------------------------- */
  /* Counting edge entries                                                    */

  lemma {:induction false} InCountConcat(edges: map<nat, seq<nat>>, a: seq<nat>, b: seq<nat>, done: set<nat>, x: nat)
    ensures InCount(edges, a + b, done, x) == InCount(edges, a, done, x) + InCount(edges, b, done, x)
  {
    if |a| > 0 {
      assert (a + b)[1..] == a[1..] + b;
      InCountConcat(edges, a[1..], b, done, x);
    } else {
      assert a + b == b;
    }
  }

  /** Sources that have no edges count nothing. */
  lemma {:induction false} InCountNoEdges(edges: map<nat, seq<nat>>, srcs: seq<nat>, done: set<nat>, x: nat)
    requires forall s :: s in srcs ==> s !in edges
    ensures InCount(edges, srcs, done, x) == 0
  {
    if |srcs| > 0 {
      assert srcs[0] in srcs;
      InCountNoEdges(edges, srcs[1..], done, x);
    }
  }

  /** Replacing the edge list of one source that occurs once in `srcs`
      changes the count by the difference of its entries. */
  lemma {:induction false} InCountUpdate(edges: map<nat, seq<nat>>, srcs: seq<nat>, done: set<nat>, x: nat, src: nat, l: seq<nat>)
    requires Distinct(srcs) && src !in done
    ensures src in srcs ==>
      InCount(edges[src := l], srcs, done, x) + multiset(EdgesOf(edges, src))[x] == InCount(edges, srcs, done, x) + multiset(l)[x]
    ensures src !in srcs ==> InCount(edges[src := l], srcs, done, x) == InCount(edges, srcs, done, x)
  {
    if |srcs| > 0 {
      assert Distinct(srcs[1..]) by {
        forall i, j | 0 <= i < j < |srcs| - 1 ensures srcs[1..][i] != srcs[1..][j] {
          assert srcs[1..][i] == srcs[i + 1] && srcs[1..][j] == srcs[j + 1];
        }
      }
      InCountUpdate(edges, srcs[1..], done, x, src, l);
      if srcs[0] == src {
        assert src !in srcs[1..] by {
          forall i | 0 <= i < |srcs| - 1 ensures srcs[1..][i] != src {
            assert srcs[1..][i] == srcs[i + 1];
          }
        }
      } else {
        assert src in srcs <==> src in srcs[1..];
      }
    }
  }

  /** Marking a source done that occurs once in `srcs` removes its entries
      from the count. */
  lemma {:induction false} InCountDone(edges: map<nat, seq<nat>>, srcs: seq<nat>, done: set<nat>, node: nat, x: nat)
    requires Distinct(srcs) && node in srcs && node !in done
    ensures InCount(edges, srcs, done + {node}, x) + multiset(EdgesOf(edges, node))[x] == InCount(edges, srcs, done, x)
  {
    assert Distinct(srcs[1..]) by {
      forall i, j | 0 <= i < j < |srcs| - 1 ensures srcs[1..][i] != srcs[1..][j] {
        assert srcs[1..][i] == srcs[i + 1] && srcs[1..][j] == srcs[j + 1];
      }
    }
    if srcs[0] == node {
      assert node !in srcs[1..] by {
        forall i | 0 <= i < |srcs| - 1 ensures srcs[1..][i] != node {
          assert srcs[1..][i] == srcs[i + 1];
        }
      }
      InCountOutside(edges, srcs[1..], done, node, x);
    } else {
      InCountDone(edges, srcs[1..], done, node, x);
    }
  }

  lemma {:induction false} InCountOutside(edges: map<nat, seq<nat>>, srcs: seq<nat>, done: set<nat>, node: nat, x: nat)
    requires node !in srcs
    ensures InCount(edges, srcs, done + {node}, x) == InCount(edges, srcs, done, x)
  {
    if |srcs| > 0 {
      assert srcs[0] != node;
      InCountOutside(edges, srcs[1..], done, node, x);
    }
  }

  /** A zero count means no pending source has an edge into `x`. */
  lemma {:induction false} InCountZero(edges: map<nat, seq<nat>>, srcs: seq<nat>, done: set<nat>, x: nat, src: nat)
    requires InCount(edges, srcs, done, x) == 0 && src in srcs && src !in done
    ensures x !in EdgesOf(edges, src)
  {
    if srcs[0] != src {
      InCountZero(edges, srcs[1..], done, x, src);
    }
  }

  /** A positive count has a pending source with an edge into `x`. */
  lemma {:induction false} InCountPositive(edges: map<nat, seq<nat>>, srcs: seq<nat>, done: set<nat>, x: nat) returns (src: nat)
    requires InCount(edges, srcs, done, x) > 0
    ensures src in srcs && src !in done && x in EdgesOf(edges, src)
  {
    if srcs[0] !in done && multiset(EdgesOf(edges, srcs[0]))[x] > 0 {
      src := srcs[0];
    } else {
      src := InCountPositive(edges, srcs[1..], done, x);
    }
  }

  /** The entries of one pending source are part of the count. */
  lemma {:induction false} InCountAtLeast(edges: map<nat, seq<nat>>, srcs: seq<nat>, done: set<nat>, x: nat, src: nat)
    requires src in srcs && src !in done
    ensures InCount(edges, srcs, done, x) >= multiset(EdgesOf(edges, src))[x]
  {
    if srcs[0] != src {
      InCountAtLeast(edges, srcs[1..], done, x, src);
    }
  }

  /** The three fields of a graph, as a value. */
  datatype GraphState = GraphState(nodes: seq<nat>, edges: map<nat, seq<nat>>, indegree: map<nat, int>)

  /** What `addEdge(from, to)` does to the fields. */
  function Link(st: GraphState, from: nat, to: nat): GraphState
  {
    GraphState(Insert(Insert(st.nodes, from), to),
               st.edges[from := EdgesOf(st.edges, from) + [to]],
               st.indegree[to := DegreeOf(st.indegree, to) + 1])
  }

  /* ---------------------------------------------------------------------- */
  /* The Graph class                                                          */

  class Graph {
    var edges: map<nat, seq<nat>>
    var indegree: map<nat, int>
    var nodes: seq<nat>

    /** Edges and nodes agree and the in-degree map is up to date. */
    ghost predicate Valid()
      reads this
    {
      Shaped(nodes, edges) && Counted(nodes, edges, indegree)
    }

    function State(): GraphState
      reads this
    {
      GraphState(nodes, edges, indegree)
    }

    constructor()
      ensures edges == map[] && indegree == map[] && nodes == []
      ensures Valid()
    {
      edges := map[];
      indegree := map[];
      nodes := [];
    }

    /** `addEdge`: both ends become nodes, `to` is appended to the list of
        `from` (repeats kept) and the in-degree of `to` goes up by one. */
    method AddEdge(from: nat, to: nat)
      requires Valid()
      modifies this
      ensures nodes == Insert(Insert(old(nodes), from), to)
      ensures edges == old(edges)[from := EdgesOf(old(edges), from) + [to]]
      ensures indegree == old(indegree)[to := DegreeOf(old(indegree), to) + 1]
      ensures State() == Link(old(State()), from, to)
      ensures Valid()
    {
      ghost var n0, e0, d0 := nodes, edges, indegree;
      nodes := Insert(Insert(nodes, from), to);
      var list := EdgesOf(edges, from);
      edges := edges[from := list + [to]];
      indegree := indegree[to := DegreeOf(indegree, to) + 1];
      AddEdgeKeepsValid(n0, e0, d0, from, to);
    }

    /** `sort`, run to the end: the nodes in the order Kahn's algorithm
        yields them. The in-degree map is consumed. */
    method Sort() returns (out: seq<nat>)
      requires Valid()
      modifies this
      ensures nodes == old(nodes) && edges == old(edges)
      ensures out == SortSpec(old(nodes), old(edges), old(indegree)).out
      ensures indegree == SortSpec(old(nodes), old(edges), old(indegree)).indegree
    {
      var ns, es, indeg := nodes, edges, indegree;
      var queue := SeedQueue(ns, indeg);
      SeedsInv(ns, es, indeg);
      ghost var start := Kahn(queue, indeg, []);
      out := [];
      while |queue| > 0
        invariant Inv(ns, es, Kahn(queue, indeg, out))
        invariant Drain(ns, es, Kahn(queue, indeg, out)) == Drain(ns, es, start)
        invariant nodes == ns && edges == es
        decreases |ns| - |out|
      {
        ghost var before := Kahn(queue, indeg, out);
        StepKeepsInv(ns, es, before);
        var node := queue[0];
        out := out + [node];
        indeg, queue := ReleaseTargets(EdgesOf(es, node), indeg, queue[1..]);
        assert Kahn(queue, indeg, out) == Step(es, before);
      }
      assert Drain(ns, es, Kahn(queue, indeg, out)) == Kahn(queue, indeg, out);
      indegree := indeg;
    }
  }

  /** The first loop of `sort`: queue every node whose in-degree is 0. */
  method SeedQueue(nodes: seq<nat>, indegree: map<nat, int>) returns (queue: seq<nat>)
    ensures queue == Seeds(nodes, indegree)
  {
    queue := [];
    for i := 0 to |nodes|
      invariant queue + Seeds(nodes[i..], indegree) == Seeds(nodes, indegree)
    {
      ghost var q0 := queue;
      var head := if DegreeOf(indegree, nodes[i]) == 0 then [nodes[i]] else [];
      assert nodes[i..][1..] == nodes[i + 1..];
      assert Seeds(nodes[i..], indegree) == head + Seeds(nodes[i + 1..], indegree);
      if DegreeOf(indegree, nodes[i]) == 0 {
        queue := queue + [nodes[i]];
      }
      assert queue + Seeds(nodes[i + 1..], indegree) == q0 + (head + Seeds(nodes[i + 1..], indegree));
    }
    assert nodes[|nodes|..] == [];
  }

  /** The inner loop of `sort` over the targets of the yielded node. */
  method ReleaseTargets(targets: seq<nat>, indegree: map<nat, int>, queue: seq<nat>)
    returns (indegree': map<nat, int>, queue': seq<nat>)
    ensures (indegree', queue') == Release(targets, indegree, queue)
  {
    indegree', queue' := indegree, queue;
    for k := 0 to |targets|
      invariant Release(targets[k..], indegree', queue') == Release(targets, indegree, queue)
    {
      assert targets[k..][1..] == targets[k + 1..];
      var tgt := targets[k];
      var d := DegreeOf(indegree', tgt) - 1;
      indegree' := indegree'[tgt := d];
      if d == 0 {
        queue' := queue' + [tgt];
      }
    }
    assert targets[|targets|..] == [];
  }

  /** `addEdge` keeps edges, nodes and in-degrees in agreement. */
  lemma AddEdgeKeepsValid(nodes: seq<nat>, edges: map<nat, seq<nat>>, indegree: map<nat, int>, from: nat, to: nat)
    requires Shaped(nodes, edges) && Counted(nodes, edges, indegree)
    ensures Shaped(Insert(Insert(nodes, from), to), edges[from := EdgesOf(edges, from) + [to]])
    ensures Counted(Insert(Insert(nodes, from), to), edges[from := EdgesOf(edges, from) + [to]],
                    indegree[to := DegreeOf(indegree, to) + 1])
  {
    AddEdgeShaped(nodes, edges, from, to);
    AddEdgeCounted(nodes, edges, indegree, from, to);
  }

  lemma AddEdgeShaped(nodes: seq<nat>, edges: map<nat, seq<nat>>, from: nat, to: nat)
    requires Shaped(nodes, edges)
    ensures Shaped(Insert(Insert(nodes, from), to), edges[from := EdgesOf(edges, from) + [to]])
  {
    InsertDistinct(nodes, from);
    InsertDistinct(Insert(nodes, from), to);
  }

  lemma AddEdgeCounted(nodes: seq<nat>, edges: map<nat, seq<nat>>, indegree: map<nat, int>, from: nat, to: nat)
    requires Shaped(nodes, edges) && Counted(nodes, edges, indegree)
    ensures Counted(Insert(Insert(nodes, from), to), edges[from := EdgesOf(edges, from) + [to]],
                    indegree[to := DegreeOf(indegree, to) + 1])
  {
    InsertDistinct(nodes, from);
    InsertDistinct(Insert(nodes, from), to);
    var n1 := Insert(Insert(nodes, from), to);
    var more := n1[|nodes|..];
    assert n1 == nodes + more;
    var e1 := edges[from := EdgesOf(edges, from) + [to]];
    var d1 := indegree[to := DegreeOf(indegree, to) + 1];
    forall x
      ensures DegreeOf(d1, x) == InCount(e1, n1, {}, x)
    {
      AddEdgeCounts(nodes, more, edges, from, to, x);
    }
  }

  /** The count after `addEdge` gains one entry into `to`. */
  lemma AddEdgeCounts(nodes: seq<nat>, more: seq<nat>, edges: map<nat, seq<nat>>, from: nat, to: nat, x: nat)
    requires Shaped(nodes, edges) && Distinct(nodes + more) && from in nodes + more
    requires forall s :: s in more ==> s !in nodes
    ensures InCount(edges[from := EdgesOf(edges, from) + [to]], nodes + more, {}, x)
      == InCount(edges, nodes, {}, x) + (if x == to then 1 else 0)
  {
    var l := EdgesOf(edges, from);
    InCountConcat(edges, nodes, more, {}, x);
    InCountNoEdges(edges, more, {}, x);
    InCountUpdate(edges, nodes + more, {}, x, from, l + [to]);
    var bump: nat := if x == to then 1 else 0;
    var before: multiset<nat> := multiset(l);
    var after: multiset<nat> := multiset(l + [to]);
    assert after == before + multiset{to};
    assert after[x] == before[x] + bump;
  }

  lemma InsertDistinct(nodes: seq<nat>, x: nat)
    requires Distinct(nodes)
    ensures Distinct(Insert(nodes, x)) && |Insert(nodes, x)| >= |nodes| && Insert(nodes, x)[..|nodes|] == nodes
  {
    if x !in nodes {
      DistinctAppend(nodes, [x]);
    }
  }

  /* ---------------------------------------------------------------------- */
  /* Kahn's algorithm as a value                                              */

  /** The queue, the in-degree map and the nodes yielded so far. */
  datatype Kahn = Kahn(queue: seq<nat>, indegree: map<nat, int>, out: seq<nat>)

  /** The nodes whose in-degree is 0, in insertion order. */
  function Seeds(nodes: seq<nat>, indegree: map<nat, int>): seq<nat>
  {
    if |nodes| == 0 then []
    else (if DegreeOf(indegree, nodes[0]) == 0 then [nodes[0]] else []) + Seeds(nodes[1..], indegree)
  }

  /** The seeds are exactly the nodes with in-degree 0. */
  lemma {:induction false} SeedsMember(nodes: seq<nat>, indegree: map<nat, int>, x: nat)
    ensures x in Seeds(nodes, indegree) <==> x in nodes && DegreeOf(indegree, x) == 0
  {
    if |nodes| > 0 {
      SeedsMember(nodes[1..], indegree, x);
      var head := if DegreeOf(indegree, nodes[0]) == 0 then [nodes[0]] else [];
      assert Seeds(nodes, indegree) == head + Seeds(nodes[1..], indegree);
      assert x in nodes <==> x == nodes[0] || x in nodes[1..] by {
        assert nodes == [nodes[0]] + nodes[1..];
      }
    } else {
      assert Seeds(nodes, indegree) == [];
    }
  }

  /** The inner loop of `sort`: each listed target loses one in-degree, and
      joins the queue when it reaches 0. */
  function Release(targets: seq<nat>, indegree: map<nat, int>, queue: seq<nat>): (map<nat, int>, seq<nat>)
  {
    if |targets| == 0 then (indegree, queue)
    else
      var d := DegreeOf(indegree, targets[0]) - 1;
      Release(targets[1..], indegree[targets[0] := d], if d == 0 then queue + [targets[0]] else queue)
  }

  /** One turn of the outer loop: the head of the queue is yielded and its
      targets are released. */
  function Step(edges: map<nat, seq<nat>>, st: Kahn): Kahn
    requires |st.queue| > 0
  {
    var node := st.queue[0];
    var (indegree, queue) := Release(EdgesOf(edges, node), st.indegree, st.queue[1..]);
    Kahn(queue, indegree, st.out + [node])
  }

  /** Every yielded node comes after every source of an edge into it. */
  predicate Ordered(nodes: seq<nat>, edges: map<nat, seq<nat>>, out: seq<nat>)
  {
    forall i, src :: 0 <= i < |out| && src in nodes && out[i] in EdgesOf(edges, src) ==> src in out[..i]
  }

  function Yielded(out: seq<nat>): set<nat>
  {
    set x | x in out
  }

  /** What holds between two turns of the outer loop: yielded and queued
      nodes are distinct nodes, each in-degree counts the entries from
      sources not yet yielded, a node is yielded or queued exactly when that
      count is 0, and the order so far respects the edges. */
  predicate Inv(nodes: seq<nat>, edges: map<nat, seq<nat>>, st: Kahn)
  {
    Shaped(nodes, edges)
    && Distinct(st.out + st.queue)
    && (forall x :: x in st.out + st.queue ==> x in nodes)
    && (forall x :: x in nodes ==> DegreeOf(st.indegree, x) == InCount(edges, nodes, Yielded(st.out), x))
    && (forall x :: x in nodes ==> (x in st.out + st.queue <==> InCount(edges, nodes, Yielded(st.out), x) == 0))
    && Ordered(nodes, edges, st.out)
  }

  /** Kahn's algorithm from a given state until the queue is empty. */
  function Drain(nodes: seq<nat>, edges: map<nat, seq<nat>>, st: Kahn): Kahn
    requires Inv(nodes, edges, st)
    decreases |nodes| - |st.out|
  {
    if |st.queue| == 0 then st
    else
      StepKeepsInv(nodes, edges, st);
      Drain(nodes, edges, Step(edges, st))
  }

  /** `sort` as a value. */
  function SortSpec(nodes: seq<nat>, edges: map<nat, seq<nat>>, indegree: map<nat, int>): Kahn
    requires Shaped(nodes, edges) && Counted(nodes, edges, indegree)
  {
    SeedsInv(nodes, edges, indegree);
    Drain(nodes, edges, Kahn(Seeds(nodes, indegree), indegree, []))
  }

  lemma {:induction false} SeedsDistinct(nodes: seq<nat>, indegree: map<nat, int>)
    requires Distinct(nodes)
    ensures Distinct(Seeds(nodes, indegree))
  {
    if |nodes| > 0 {
      var rest := nodes[1..];
      assert Distinct(rest) by {
        forall i, j | 0 <= i < j < |rest| ensures rest[i] != rest[j] {
          assert rest[i] == nodes[i + 1] && rest[j] == nodes[j + 1];
        }
      }
      SeedsDistinct(rest, indegree);
      assert nodes[0] !in rest by {
        forall i | 0 <= i < |rest| ensures rest[i] != nodes[0] {
          assert rest[i] == nodes[i + 1];
        }
      }
      SeedsMember(rest, indegree, nodes[0]);
      var head := if DegreeOf(indegree, nodes[0]) == 0 then [nodes[0]] else [];
      assert Seeds(nodes, indegree) == head + Seeds(rest, indegree);
      DistinctAppend(head, Seeds(rest, indegree));
    }
  }

  /** The seeded queue satisfies the invariant. */
  lemma SeedsInv(nodes: seq<nat>, edges: map<nat, seq<nat>>, indegree: map<nat, int>)
    requires Shaped(nodes, edges) && Counted(nodes, edges, indegree)
    ensures Inv(nodes, edges, Kahn(Seeds(nodes, indegree), indegree, []))
  {
    SeedsDistinct(nodes, indegree);
    forall x {
      SeedsMember(nodes, indegree, x);
    }
    var st := Kahn(Seeds(nodes, indegree), indegree, []);
    assert Yielded(st.out) == {};
    assert st.out + st.queue == st.queue;
  }

  /** What the inner loop does: each in-degree drops by the number of times
      the node is listed, and the queue grows by the distinct listed nodes
      whose in-degree ends at 0, provided no in-degree drops below 0. */
  lemma {:induction false} ReleaseLaws(targets: seq<nat>, indegree: map<nat, int>, queue: seq<nat>)
    requires forall x :: x in targets ==> DegreeOf(indegree, x) >= multiset(targets)[x]
    ensures var (ind, q) := Release(targets, indegree, queue);
      |q| >= |queue| && q[..|queue|] == queue
      && (forall x :: DegreeOf(ind, x) == DegreeOf(indegree, x) - multiset(targets)[x])
      && (forall x :: x in q[|queue|..] <==> x in targets && DegreeOf(ind, x) == 0)
      && Distinct(q[|queue|..])
  {
    if |targets| > 0 {
      var t := targets[0];
      var rest := targets[1..];
      assert targets == [t] + rest;
      var d := DegreeOf(indegree, t) - 1;
      var ind1 := indegree[t := d];
      var q1 := if d == 0 then queue + [t] else queue;
      forall x | x in rest
        ensures DegreeOf(ind1, x) >= multiset(rest)[x]
      {
        assert x in targets;
      }
      ReleaseLaws(rest, ind1, q1);
      var (ind, q) := Release(rest, ind1, q1);
      assert Release(targets, indegree, queue) == (ind, q);
      ReleaseStep(targets, indegree, queue, ind1, q1, ind, q);
    }
  }

  /** The first target released, then the rest: the laws of the rest give
      the laws of the whole list. */
  lemma ReleaseStep(targets: seq<nat>, indegree: map<nat, int>, queue: seq<nat>,
                    ind1: map<nat, int>, q1: seq<nat>, ind: map<nat, int>, q: seq<nat>)
    requires |targets| > 0 && DegreeOf(indegree, targets[0]) >= multiset(targets)[targets[0]]
    requires ind1 == indegree[targets[0] := DegreeOf(indegree, targets[0]) - 1]
    requires q1 == if DegreeOf(indegree, targets[0]) - 1 == 0 then queue + [targets[0]] else queue
    requires |q| >= |q1| && q[..|q1|] == q1
    requires forall x :: DegreeOf(ind, x) == DegreeOf(ind1, x) - multiset(targets[1..])[x]
    requires forall x :: x in q[|q1|..] <==> x in targets[1..] && DegreeOf(ind, x) == 0
    requires Distinct(q[|q1|..])
    ensures |q| >= |queue| && q[..|queue|] == queue
    ensures forall x :: DegreeOf(ind, x) == DegreeOf(indegree, x) - multiset(targets)[x]
    ensures forall x :: x in q[|queue|..] <==> x in targets && DegreeOf(ind, x) == 0
    ensures Distinct(q[|queue|..])
  {
    var t := targets[0];
    var d := DegreeOf(indegree, t) - 1;
    var head: seq<nat> := if d == 0 then [t] else [];
    ReleaseQueue(queue, head, q1, q);
    ReleaseDegrees(targets, indegree, ind1, ind);
    ReleaseMembers(targets, indegree, ind, head, q[|q1|..]);
  }

  /** The queue after the rest is the queue, the first target when it was
      pushed, then what the rest pushed. */
  lemma ReleaseQueue(queue: seq<nat>, head: seq<nat>, q1: seq<nat>, q: seq<nat>)
    requires q1 == queue + head && |q| >= |q1| && q[..|q1|] == q1
    ensures |q| >= |queue| && q[..|queue|] == queue && q[|queue|..] == head + q[|q1|..]
  {
    assert q[..|queue|] == q1[..|queue|];
    assert q == q1 + q[|q1|..];
  }

  /** Every in-degree drops by the times its node is listed. */
  lemma ReleaseDegrees(targets: seq<nat>, indegree: map<nat, int>, ind1: map<nat, int>, ind: map<nat, int>)
    requires |targets| > 0 && ind1 == indegree[targets[0] := DegreeOf(indegree, targets[0]) - 1]
    requires forall x :: DegreeOf(ind, x) == DegreeOf(ind1, x) - multiset(targets[1..])[x]
    ensures forall x :: DegreeOf(ind, x) == DegreeOf(indegree, x) - multiset(targets)[x]
  {
    assert targets == [targets[0]] + targets[1..];
  }

  /** The nodes pushed are the listed ones whose in-degree reached zero, each
      once. */
  lemma ReleaseMembers(targets: seq<nat>, indegree: map<nat, int>, ind: map<nat, int>, head: seq<nat>, tail: seq<nat>)
    requires |targets| > 0 && DegreeOf(indegree, targets[0]) >= multiset(targets)[targets[0]]
    requires head == if DegreeOf(indegree, targets[0]) - 1 == 0 then [targets[0]] else []
    requires forall x :: DegreeOf(ind, x) == DegreeOf(indegree, x) - multiset(targets)[x]
    requires forall x :: x in tail <==> x in targets[1..] && DegreeOf(ind, x) == 0
    requires Distinct(tail)
    ensures forall x :: x in head + tail <==> x in targets && DegreeOf(ind, x) == 0
    ensures Distinct(head + tail)
  {
    var t, rest := targets[0], targets[1..];
    assert targets == [t] + rest;
    if head != [] {
      assert multiset(rest)[t] == 0;
      assert t !in tail;
      DistinctAppend(head, tail);
    } else {
      assert head + tail == tail;
    }
  }

  /** One turn keeps the invariant and yields one more node. */
  lemma StepKeepsInv(nodes: seq<nat>, edges: map<nat, seq<nat>>, st: Kahn)
    requires Inv(nodes, edges, st) && |st.queue| > 0
    ensures Inv(nodes, edges, Step(edges, st))
    ensures |Step(edges, st).out| == |st.out| + 1 <= |nodes|
    ensures var next := Step(edges, st);
      |next.out + next.queue| >= |st.out + st.queue|
      && (next.out + next.queue)[..|st.out + st.queue|] == st.out + st.queue
  {
    var node := st.queue[0];
    var targets := EdgesOf(edges, node);
    HeadNotOut(st.out, st.queue);
    assert node in st.out + st.queue;
    forall x | x in targets
      ensures DegreeOf(st.indegree, x) >= multiset(targets)[x]
    {
      InCountAtLeast(edges, nodes, Yielded(st.out), x, node);
    }
    ReleaseLaws(targets, st.indegree, st.queue[1..]);
    var (ind, q) := Release(targets, st.indegree, st.queue[1..]);
    assert Step(edges, st) == Kahn(q, ind, st.out + [node]);
    Advanced(nodes, edges, st, ind, q);
  }

  /** The state after a turn, from what the inner loop did to the in-degrees
      and the queue. */
  lemma Advanced(nodes: seq<nat>, edges: map<nat, seq<nat>>, st: Kahn, ind: map<nat, int>, q: seq<nat>)
    requires Inv(nodes, edges, st) && |st.queue| > 0
    requires |q| >= |st.queue| - 1 && q[..|st.queue| - 1] == st.queue[1..]
    requires forall x :: DegreeOf(ind, x) == DegreeOf(st.indegree, x) - multiset(EdgesOf(edges, st.queue[0]))[x]
    requires forall x :: x in q[|st.queue| - 1..] <==> x in EdgesOf(edges, st.queue[0]) && DegreeOf(ind, x) == 0
    requires Distinct(q[|st.queue| - 1..])
    ensures Inv(nodes, edges, Kahn(q, ind, st.out + [st.queue[0]]))
    ensures |st.out| + 1 <= |nodes|
    ensures |st.out + [st.queue[0]] + q| >= |st.out + st.queue|
      && (st.out + [st.queue[0]] + q)[..|st.out + st.queue|] == st.out + st.queue
  {
    var node := st.queue[0];
    var all := st.out + st.queue;
    var pushed := q[|st.queue| - 1..];
    HeadNotOut(st.out, st.queue);
    StepSeqs(st.out, st.queue, q);
    assert Yielded(st.out + [node]) == Yielded(st.out) + {node};
    TurnCounts(nodes, edges, st, ind, q);
    StepOrder(nodes, edges, st.out, node);
    DistinctBound(all + pushed, nodes);
    assert (all + pushed)[..|all|] == all;
  }

  /** What a turn does to the counts: every in-degree drops by the edges out
      of the head of the queue, and the nodes pushed are new and exactly the
      ones whose count reached zero. */
  lemma TurnCounts(nodes: seq<nat>, edges: map<nat, seq<nat>>, st: Kahn, ind: map<nat, int>, q: seq<nat>)
    requires Inv(nodes, edges, st) && |st.queue| > 0 && |q| >= |st.queue| - 1
    requires forall x :: DegreeOf(ind, x) == DegreeOf(st.indegree, x) - multiset(EdgesOf(edges, st.queue[0]))[x]
    requires forall x :: x in q[|st.queue| - 1..] <==> x in EdgesOf(edges, st.queue[0]) && DegreeOf(ind, x) == 0
    requires Distinct(q[|st.queue| - 1..])
    ensures var done, all := Yielded(st.out) + {st.queue[0]}, st.out + st.queue + q[|st.queue| - 1..];
      && Distinct(all)
      && (forall x :: x in all ==> x in nodes)
      && (forall x :: x in nodes ==> DegreeOf(ind, x) == InCount(edges, nodes, done, x))
      && (forall x :: x in nodes ==> (x in all <==> InCount(edges, nodes, done, x) == 0))
  {
    var node := st.queue[0];
    var targets := EdgesOf(edges, node);
    var done := Yielded(st.out);
    var all := st.out + st.queue;
    var pushed := q[|st.queue| - 1..];
    HeadNotOut(st.out, st.queue);
    assert node in all;
    forall x | x in nodes
      ensures InCount(edges, nodes, done + {node}, x) + multiset(targets)[x] == InCount(edges, nodes, done, x)
    {
      InCountDone(edges, nodes, done, node, x);
    }
    forall y | y in pushed ensures y !in all && y in nodes {
      assert y in targets && DegreeOf(ind, y) == 0;
      assert node in edges && y in edges[node];
      assert DegreeOf(st.indegree, y) == multiset(targets)[y] > 0;
    }
    DistinctAppend(all, pushed);
    forall x | x in nodes
      ensures x in all + pushed <==> InCount(edges, nodes, done + {node}, x) == 0
    {
      if x in pushed {
        assert x in targets;
      }
    }
  }

  lemma HeadNotOut(out: seq<nat>, queue: seq<nat>)
    requires Distinct(out + queue) && |queue| > 0
    ensures queue[0] !in out
  {
    var k := |out|;
    assert (out + queue)[k] == queue[0];
    forall i | 0 <= i < k ensures out[i] != queue[0] {
      assert (out + queue)[i] == out[i];
    }
  }

  /** Moving the head of the queue to `out` and appending to the rest keeps
      the concatenation, extended. */
  lemma StepSeqs(out: seq<nat>, queue: seq<nat>, q: seq<nat>)
    requires |queue| > 0 && |q| >= |queue| - 1 && q[..|queue| - 1] == queue[1..]
    ensures (out + [queue[0]]) + q == (out + queue) + q[|queue| - 1..]
  {
    assert q == queue[1..] + q[|queue| - 1..];
    assert queue == [queue[0]] + queue[1..];
  }

  lemma DistinctAppend(a: seq<nat>, b: seq<nat>)
    requires Distinct(a) && Distinct(b) && forall y :: y in b ==> y !in a
    ensures Distinct(a + b)
  {
    forall i, j | 0 <= i < j < |a + b| ensures (a + b)[i] != (a + b)[j] {
      if j >= |a| {
        assert (a + b)[j] == b[j - |a|];
        if i >= |a| {
          assert (a + b)[i] == b[i - |a|];
        } else {
          assert (a + b)[i] == a[i];
          assert b[j - |a|] in b;
        }
      } else {
        assert (a + b)[i] == a[i] && (a + b)[j] == a[j];
      }
    }
  }

  /** Yielding a node none of whose pending sources remain keeps the order. */
  lemma StepOrder(nodes: seq<nat>, edges: map<nat, seq<nat>>, out: seq<nat>, node: nat)
    requires Ordered(nodes, edges, out) && InCount(edges, nodes, Yielded(out), node) == 0
    ensures Ordered(nodes, edges, out + [node])
  {
    var next := out + [node];
    forall i, src | 0 <= i < |next| && src in nodes && next[i] in EdgesOf(edges, src)
      ensures src in next[..i]
    {
      if i < |out| {
        assert next[i] == out[i] && next[..i] == out[..i];
      } else {
        assert next[i] == node && next[..i] == out;
        if src !in Yielded(out) {
          InCountZero(edges, nodes, Yielded(out), node, src);
        }
      }
    }
  }

  /** Distinct nodes are no more than the nodes. */
  lemma DistinctBound(s: seq<nat>, nodes: seq<nat>)
    requires Distinct(s) && Distinct(nodes) && forall x :: x in s ==> x in nodes
    ensures |s| <= |nodes|
  {
    var a := set i | 0 <= i < |s| :: s[i];
    var b := set i | 0 <= i < |nodes| :: nodes[i];
    DistinctCard(s);
    DistinctCard(nodes);
    forall y | y in a ensures y in b {
      assert y in nodes;
    }
    CardMono(a, b);
  }

  /* ---------------------------------------------------------------------- */
  /* What `sort` promises                                                     */

  /** Draining keeps the invariant, empties the queue, and only appends to
      what was yielded or queued before. */
  lemma {:induction false} DrainLaws(nodes: seq<nat>, edges: map<nat, seq<nat>>, st: Kahn)
    requires Inv(nodes, edges, st)
    ensures var r := Drain(nodes, edges, st);
      Inv(nodes, edges, r) && |r.queue| == 0
      && |r.out| >= |st.out + st.queue| && r.out[..|st.out + st.queue|] == st.out + st.queue
    decreases |nodes| - |st.out|
  {
    if |st.queue| == 0 {
      assert st.out + st.queue == st.out;
    } else {
      StepKeepsInv(nodes, edges, st);
      var next := Step(edges, st);
      DrainLaws(nodes, edges, next);
      var r := Drain(nodes, edges, next);
      var n := |st.out + st.queue|;
      assert r.out[..n] == r.out[..|next.out + next.queue|][..n];
    }
  }

  /** A node no pending source holds back is yielded or queued. */
  predicate HeldBack(nodes: seq<nat>, edges: map<nat, seq<nat>>, out: seq<nat>)
  {
    forall x :: x in nodes && x !in out ==>
      exists src :: src in nodes && src !in out && x in EdgesOf(edges, src)
  }

  /** The sorted nodes are distinct graph nodes, each after every source of
      an edge into it; a node left out has a source that is left out too. */
  lemma SortOrder(nodes: seq<nat>, edges: map<nat, seq<nat>>, indegree: map<nat, int>)
    requires Shaped(nodes, edges) && Counted(nodes, edges, indegree)
    ensures var out := SortSpec(nodes, edges, indegree).out;
      Distinct(out) && (forall x :: x in out ==> x in nodes)
      && Ordered(nodes, edges, out)
      && HeldBack(nodes, edges, out)
  {
    SeedsInv(nodes, edges, indegree);
    var st := Kahn(Seeds(nodes, indegree), indegree, []);
    DrainLaws(nodes, edges, st);
    var r := SortSpec(nodes, edges, indegree);
    assert r.out + r.queue == r.out;
    forall x | x in nodes && x !in r.out
      ensures exists src :: src in nodes && src !in r.out && x in EdgesOf(edges, src)
    {
      var src := InCountPositive(edges, nodes, Yielded(r.out), x);
    }
  }

  /** `sort` consumes the in-degree map: a yielded node ends at 0 and a node
      left out still counts its pending edges. */
  lemma SortConsumes(nodes: seq<nat>, edges: map<nat, seq<nat>>, indegree: map<nat, int>)
    requires Shaped(nodes, edges) && Counted(nodes, edges, indegree)
    ensures var r := SortSpec(nodes, edges, indegree);
      forall x :: x in nodes ==> (DegreeOf(r.indegree, x) == 0 <==> x in r.out)
  {
    SeedsInv(nodes, edges, indegree);
    DrainLaws(nodes, edges, Kahn(Seeds(nodes, indegree), indegree, []));
    var r := SortSpec(nodes, edges, indegree);
    assert r.out + r.queue == r.out;
  }

  /** The nodes that start with in-degree 0 come first, in insertion order. */
  lemma SortSeedsFirst(nodes: seq<nat>, edges: map<nat, seq<nat>>, indegree: map<nat, int>)
    requires Shaped(nodes, edges) && Counted(nodes, edges, indegree)
    ensures var out := SortSpec(nodes, edges, indegree).out;
      |out| >= |Seeds(nodes, indegree)| && out[..|Seeds(nodes, indegree)|] == Seeds(nodes, indegree)
  {
    SeedsInv(nodes, edges, indegree);
    var st := Kahn(Seeds(nodes, indegree), indegree, []);
    DrainLaws(nodes, edges, st);
    assert st.out + st.queue == Seeds(nodes, indegree);
  }

  /** With every edge going up a rank, nothing is held back. */
  lemma {:induction false} SortedBelow(nodes: seq<nat>, edges: map<nat, seq<nat>>, out: seq<nat>, rank: nat -> nat, b: nat)
    requires HeldBack(nodes, edges, out)
    requires forall src, t :: src in nodes && t in EdgesOf(edges, src) ==> rank(src) < rank(t)
    ensures forall x :: x in nodes && rank(x) < b ==> x in out
  {
    if b > 0 {
      SortedBelow(nodes, edges, out, rank, b - 1);
      forall x | x in nodes && rank(x) < b ensures x in out {
        if x !in out {
          assert false;
        }
      }
    }
  }

  /** On an acyclic graph (edges rise in some rank) every node is sorted,
      exactly once. */
  lemma SortAcyclicComplete(nodes: seq<nat>, edges: map<nat, seq<nat>>, indegree: map<nat, int>, rank: nat -> nat)
    requires Shaped(nodes, edges) && Counted(nodes, edges, indegree)
    requires forall src, t :: src in nodes && t in EdgesOf(edges, src) ==> rank(src) < rank(t)
    ensures var out := SortSpec(nodes, edges, indegree).out;
      Distinct(out) && |out| == |nodes| && forall x :: x in nodes <==> x in out
  {
    SortOrder(nodes, edges, indegree);
    var out := SortSpec(nodes, edges, indegree).out;
    forall x | x in nodes ensures x in out {
      SortedBelow(nodes, edges, out, rank, rank(x) + 1);
    }
    DistinctBound(out, nodes);
    DistinctBound(nodes, out);
  }

  /** A path that returns to where it started. */
  predicate Cycle(edges: map<nat, seq<nat>>, cycle: seq<nat>)
  {
    |cycle| >= 2 && cycle[0] == cycle[|cycle| - 1]
    && forall k :: 0 <= k < |cycle| - 1 ==> cycle[k + 1] in EdgesOf(edges, cycle[k])
  }

  lemma {:induction false} CycleOutside(nodes: seq<nat>, edges: map<nat, seq<nat>>, out: seq<nat>, cycle: seq<nat>, n: nat)
    requires Shaped(nodes, edges) && Ordered(nodes, edges, out) && Cycle(edges, cycle) && n <= |out|
    ensures forall j :: 0 <= j < n ==> out[j] !in cycle
  {
    if n > 0 {
      CycleOutside(nodes, edges, out, cycle, n - 1);
      var j := n - 1;
      forall k | 0 <= k < |cycle| ensures cycle[k] != out[j] {
        var p := if k > 0 then k - 1 else |cycle| - 2;
        assert cycle[p + 1] == cycle[k];
        assert cycle[p] in nodes by {
          assert cycle[k] in EdgesOf(edges, cycle[p]);
        }
        assert cycle[p] !in out[..j] by {
          forall i | 0 <= i < j ensures out[..j][i] != cycle[p] {
            assert out[..j][i] == out[i];
            assert cycle[p] in cycle;
          }
        }
      }
    }
  }

  /** No node on a cycle is ever sorted. */
  lemma SortSkipsCycles(nodes: seq<nat>, edges: map<nat, seq<nat>>, indegree: map<nat, int>, cycle: seq<nat>)
    requires Shaped(nodes, edges) && Counted(nodes, edges, indegree) && Cycle(edges, cycle)
    ensures forall x :: x in cycle ==> x !in SortSpec(nodes, edges, indegree).out
  {
    SortOrder(nodes, edges, indegree);
    var out := SortSpec(nodes, edges, indegree).out;
    CycleOutside(nodes, edges, out, cycle, |out|);
  }
}
