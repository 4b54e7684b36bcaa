/**
 * The task graph (data/TaskGraph.java): tasks 0..n-1 with durations, parent and child id lists,
 * an n-by-n communication-cost matrix and two boolean adjacency matrices.  Once built it is only
 * read, so it is a datatype; the graph-file constructor is modelled as a fold of `AddEdge` over the
 * edges entering each node, in node order.
 */
module Graph {
  import opened Wrappers
  import opened Seqs

  /** An edge of the input graph: source task, target task and its communication cost. */
  datatype Edge = Edge(source: int, target: int, weight: int)

  datatype TaskGraph = TaskGraph(
    numberOfTasks: nat,
    parentsList: seq<seq<int>>,
    childrenList: seq<seq<int>>,
    durations: seq<int>,
    commCosts: seq<seq<int>>,
    parentsAdjacency: Option<seq<seq<bool>>>,
    childrenAdjacency: Option<seq<seq<bool>>>)
  {
    /** Every per-task array has one entry per task, the cost matrix is n by n and all ids are tasks. */
    predicate Shaped() {
      && |parentsList| == numberOfTasks && |childrenList| == numberOfTasks
      && |durations| == numberOfTasks && |commCosts| == numberOfTasks
      && (forall i :: 0 <= i < numberOfTasks ==> |commCosts[i]| == numberOfTasks)
      && (forall i :: 0 <= i < numberOfTasks ==> AllBelow(parentsList[i], numberOfTasks))
      && (forall i :: 0 <= i < numberOfTasks ==> AllBelow(childrenList[i], numberOfTasks))
    }

    /** A boolean matrix, when present, is true exactly for the pairs `related` names. */
    predicate MatrixIs(m: Option<seq<seq<bool>>>, lists: seq<seq<int>>)
      requires |lists| == numberOfTasks
    {
      m.Some? ==>
        && |m.value| == numberOfTasks
        && (forall i :: 0 <= i < numberOfTasks ==> |m.value[i]| == numberOfTasks)
        && (forall i, j :: 0 <= i < numberOfTasks && 0 <= j < numberOfTasks ==> (m.value[i][j] <==> j in lists[i]))
    }

    /**
     * The graph invariants the search relies on: lists without repeats, every edge recorded on
     * both sides, non-negative weights, zero cost off the edges, adjacency matrices matching the lists.
     */
    predicate WellFormed() {
      && Shaped()
      && (forall i :: 0 <= i < numberOfTasks ==> Distinct(parentsList[i]) && Distinct(childrenList[i]))
      && (forall p, c {:trigger p in parentsList[c]} {:trigger c in childrenList[p]} ::
            0 <= p < numberOfTasks && 0 <= c < numberOfTasks ==> (p in parentsList[c] <==> c in childrenList[p]))
      && (forall i :: 0 <= i < numberOfTasks ==> durations[i] >= 0)
      && (forall p, c :: 0 <= p < numberOfTasks && 0 <= c < numberOfTasks ==> commCosts[p][c] >= 0)
      && (forall p, c :: 0 <= p < numberOfTasks && 0 <= c < numberOfTasks && c !in childrenList[p] ==>
            commCosts[p][c] == 0)
      && MatrixIs(parentsAdjacency, parentsList)
      && MatrixIs(childrenAdjacency, childrenList)
    }

    function GetNumberOfTasks(): (n: nat)
      requires Shaped()
      ensures n == |parentsList| == |childrenList| == |durations| == |commCosts|
    {
      numberOfTasks
    }

    function GetParentsList(task: int): (parents: seq<int>)
      requires WellFormed() && 0 <= task < numberOfTasks
      ensures Distinct(parents) && AllBelow(parents, numberOfTasks)
      ensures forall p :: 0 <= p < numberOfTasks ==> (p in parents <==> task in childrenList[p])
    {
      parentsList[task]
    }

    function GetChildrenList(task: int): (children: seq<int>)
      requires WellFormed() && 0 <= task < numberOfTasks
      ensures Distinct(children) && AllBelow(children, numberOfTasks)
      ensures forall c :: 0 <= c < numberOfTasks ==> (c in children <==> task in parentsList[c])
    {
      childrenList[task]
    }

    function GetDuration(task: int): (d: int)
      requires WellFormed() && 0 <= task < numberOfTasks
      ensures d >= 0
    {
      durations[task]
    }

    /** The cost of sending the parent's result to another processor; 0 for a pair that is not an edge. */
    function GetCommCost(parent: int, child: int): (cost: int)
      requires WellFormed() && 0 <= parent < numberOfTasks && 0 <= child < numberOfTasks
      ensures cost >= 0
      ensures child !in childrenList[parent] ==> cost == 0
    {
      commCosts[parent][child]
    }
  }

  /** A topological rank: every child ranks strictly below each of its parents, so the graph has no cycle. */
  ghost predicate Ranked(g: TaskGraph, rank: seq<nat>) {
    && g.Shaped()
    && |rank| == g.numberOfTasks
    && forall p, j :: 0 <= p < g.numberOfTasks && 0 <= j < |g.childrenList[p]| ==>
         rank[g.childrenList[p][j]] < rank[p]
  }

  /** The testing constructor (TaskGraph.java:51-58): stores its arguments as given, no adjacency matrices. */
  function FromFields(parentsList: seq<seq<int>>, childrenList: seq<seq<int>>, durations: seq<int>,
                      commCosts: seq<seq<int>>): (g: TaskGraph)
    ensures g.numberOfTasks == |parentsList|
    ensures g.parentsList == parentsList && g.childrenList == childrenList
    ensures g.durations == durations && g.commCosts == commCosts
    ensures g.parentsAdjacency.None? && g.childrenAdjacency.None?
  {
    TaskGraph(|parentsList|, parentsList, childrenList, durations, commCosts, None, None)
  }

  // ---------------------------------------------------------------------------------------------
  // The graph-file constructor (TaskGraph.java:26-45, 64-76) as a fold over the entering edges.

  function Row<T>(n: nat, x: T): (r: seq<T>)
    ensures |r| == n && forall i :: 0 <= i < n ==> r[i] == x
  {
    seq(n, _ => x)
  }

  /** initializeDataStructures plus the node weights: empty lists, a zero cost matrix, false matrices. */
  function EmptyGraph(weights: seq<int>): (g: TaskGraph)
    ensures g.Shaped() && g.numberOfTasks == |weights| && g.durations == weights
  {
    var n := |weights|;
    TaskGraph(n, Row(n, []), Row(n, []), weights, Row(n, Row(n, 0)),
              Some(Row(n, Row(n, false))), Some(Row(n, Row(n, false))))
  }

  predicate EdgeIn(e: Edge, n: nat) {
    0 <= e.source < n && 0 <= e.target < n
  }

  /** One iteration of the entering-edge loop body: both lists, the cost and both matrices. */
  function AddEdge(g: TaskGraph, e: Edge): (r: TaskGraph)
    requires g.Shaped() && g.parentsAdjacency.Some? && g.childrenAdjacency.Some?
    requires |g.parentsAdjacency.value| == g.numberOfTasks && |g.childrenAdjacency.value| == g.numberOfTasks
    requires forall i :: 0 <= i < g.numberOfTasks ==>
               |g.parentsAdjacency.value[i]| == g.numberOfTasks && |g.childrenAdjacency.value[i]| == g.numberOfTasks
    requires EdgeIn(e, g.numberOfTasks)
  {
    var s, t := e.source, e.target;
    var pa, ca := g.parentsAdjacency.value, g.childrenAdjacency.value;
    g.(parentsList := g.parentsList[t := g.parentsList[t] + [s]],
       childrenList := g.childrenList[s := g.childrenList[s] + [t]],
       commCosts := g.commCosts[s := g.commCosts[s][t := e.weight]],
       parentsAdjacency := Some(pa[t := pa[t][s := true]]),
       childrenAdjacency := Some(ca[s := ca[s][t := true]]))
  }

  /** Shape facts kept by every prefix of the fold. */
  predicate Building(g: TaskGraph) {
    && g.Shaped() && g.parentsAdjacency.Some? && g.childrenAdjacency.Some?
    && |g.parentsAdjacency.value| == g.numberOfTasks && |g.childrenAdjacency.value| == g.numberOfTasks
    && (forall i :: 0 <= i < g.numberOfTasks ==>
          |g.parentsAdjacency.value[i]| == g.numberOfTasks && |g.childrenAdjacency.value[i]| == g.numberOfTasks)
  }

  predicate EdgesIn(edges: seq<Edge>, n: nat) {
    forall k :: 0 <= k < |edges| ==> EdgeIn(edges[k], n)
  }

  function AddEdges(weights: seq<int>, edges: seq<Edge>): (g: TaskGraph)
    requires EdgesIn(edges, |weights|)
    ensures Building(g) && g.numberOfTasks == |weights| && g.durations == weights
  {
    if edges == [] then EmptyGraph(weights)
    else
      var g := AddEdges(weights, edges[..|edges| - 1]);
      AddEdge(g, edges[|edges| - 1])
  }

  function Flatten(entering: seq<seq<Edge>>): seq<Edge> {
    if entering == [] then [] else Flatten(entering[..|entering| - 1]) + entering[|entering| - 1]
  }

  /** The graph built from node weights and, per node, its entering edges (GraphStream's order). */
  function FromDotGraph(weights: seq<int>, entering: seq<seq<Edge>>): TaskGraph
    requires EdgesIn(Flatten(entering), |weights|)
  {
    AddEdges(weights, Flatten(entering))
  }

  // What the fold computes, edge list by edge list.

  function SourcesInto(edges: seq<Edge>, t: int): seq<int> {
    if edges == [] then []
    else SourcesInto(edges[..|edges| - 1], t) +
         (if edges[|edges| - 1].target == t then [edges[|edges| - 1].source] else [])
  }

  function TargetsFrom(edges: seq<Edge>, s: int): seq<int> {
    if edges == [] then []
    else TargetsFrom(edges[..|edges| - 1], s) +
         (if edges[|edges| - 1].source == s then [edges[|edges| - 1].target] else [])
  }

  /** The weight of the last edge s -> t in the list, 0 when there is none. */
  function CostOf(edges: seq<Edge>, s: int, t: int): int {
    if edges == [] then 0
    else if edges[|edges| - 1].source == s && edges[|edges| - 1].target == t then edges[|edges| - 1].weight
    else CostOf(edges[..|edges| - 1], s, t)
  }

  predicate HasEdge(edges: seq<Edge>, s: int, t: int) {
    exists k :: 0 <= k < |edges| && edges[k].source == s && edges[k].target == t
  }

  /** No pair of tasks is joined by two edges and no edge is a self-loop. */
  predicate Simple(edges: seq<Edge>) {
    && (forall k :: 0 <= k < |edges| ==> edges[k].source != edges[k].target)
    && (forall k, l :: 0 <= k < l < |edges| ==>
          edges[k].source != edges[l].source || edges[k].target != edges[l].target)
  }

  lemma {:induction false} AddEdgesComputes(weights: seq<int>, edges: seq<Edge>)
    requires EdgesIn(edges, |weights|)
    ensures var g := AddEdges(weights, edges);
      && (forall t :: 0 <= t < |weights| ==> g.parentsList[t] == SourcesInto(edges, t))
      && (forall s :: 0 <= s < |weights| ==> g.childrenList[s] == TargetsFrom(edges, s))
      && (forall s, t :: 0 <= s < |weights| && 0 <= t < |weights| ==> g.commCosts[s][t] == CostOf(edges, s, t))
      && (forall t, s :: 0 <= t < |weights| && 0 <= s < |weights| ==>
            (g.parentsAdjacency.value[t][s] <==> HasEdge(edges, s, t)))
      && (forall s, t :: 0 <= s < |weights| && 0 <= t < |weights| ==>
            (g.childrenAdjacency.value[s][t] <==> HasEdge(edges, s, t)))
  {
    if edges != [] {
      var init := edges[..|edges| - 1];
      var e := edges[|edges| - 1];
      AddEdgesComputes(weights, init);
      forall s, t | 0 <= s < |weights| && 0 <= t < |weights|
        ensures HasEdge(edges, s, t) <==> HasEdge(init, s, t) || (e.source == s && e.target == t)
      {
        if HasEdge(edges, s, t) && !(e.source == s && e.target == t) {
          var k :| 0 <= k < |edges| && edges[k].source == s && edges[k].target == t;
          assert init[k] == edges[k];
        }
        if HasEdge(init, s, t) {
          var k :| 0 <= k < |init| && init[k].source == s && init[k].target == t;
          assert edges[k] == init[k];
        }
      }
    }
  }

  lemma {:induction false} SourcesMembership(edges: seq<Edge>, t: int)
    ensures forall s :: s in SourcesInto(edges, t) <==> HasEdge(edges, s, t)
    ensures Simple(edges) ==> Distinct(SourcesInto(edges, t))
  {
    if edges != [] {
      var init := edges[..|edges| - 1];
      var e := edges[|edges| - 1];
      SourcesMembership(init, t);
      forall s ensures s in SourcesInto(edges, t) <==> HasEdge(edges, s, t) {
        if HasEdge(edges, s, t) && !(e.source == s && e.target == t) {
          var k :| 0 <= k < |edges| && edges[k].source == s && edges[k].target == t;
          assert init[k] == edges[k];
        }
        if HasEdge(init, s, t) {
          var k :| 0 <= k < |init| && init[k].source == s && init[k].target == t;
          assert edges[k] == init[k];
        }
      }
      if Simple(edges) {
        assert Simple(init);
        if e.target == t {
          forall k | 0 <= k < |init| ensures !(init[k].source == e.source && init[k].target == t) {
            assert edges[k] == init[k];
          }
          DistinctSnoc(SourcesInto(init, t), e.source);
        } else {
          assert SourcesInto(edges, t) == SourcesInto(init, t);
        }
      }
    }
  }

  lemma {:induction false} TargetsMembership(edges: seq<Edge>, s: int)
    ensures forall t :: t in TargetsFrom(edges, s) <==> HasEdge(edges, s, t)
    ensures Simple(edges) ==> Distinct(TargetsFrom(edges, s))
  {
    if edges != [] {
      var init := edges[..|edges| - 1];
      var e := edges[|edges| - 1];
      TargetsMembership(init, s);
      forall t ensures t in TargetsFrom(edges, s) <==> HasEdge(edges, s, t) {
        if HasEdge(edges, s, t) && !(e.source == s && e.target == t) {
          var k :| 0 <= k < |edges| && edges[k].source == s && edges[k].target == t;
          assert init[k] == edges[k];
        }
        if HasEdge(init, s, t) {
          var k :| 0 <= k < |init| && init[k].source == s && init[k].target == t;
          assert edges[k] == init[k];
        }
      }
      if Simple(edges) {
        assert Simple(init);
        if e.source == s {
          forall k | 0 <= k < |init| ensures !(init[k].source == s && init[k].target == e.target) {
            assert edges[k] == init[k];
          }
          DistinctSnoc(TargetsFrom(init, s), e.target);
        } else {
          assert TargetsFrom(edges, s) == TargetsFrom(init, s);
        }
      }
    }
  }

  lemma {:induction false} CostOffEdges(edges: seq<Edge>, s: int, t: int)
    ensures !HasEdge(edges, s, t) ==> CostOf(edges, s, t) == 0
    ensures (forall k :: 0 <= k < |edges| ==> edges[k].weight >= 0) ==> CostOf(edges, s, t) >= 0
  {
    if edges != [] {
      var init := edges[..|edges| - 1];
      CostOffEdges(init, s, t);
      if HasEdge(init, s, t) {
        var k :| 0 <= k < |init| && init[k].source == s && init[k].target == t;
        assert edges[k] == init[k];
      }
      if forall k :: 0 <= k < |edges| ==> edges[k].weight >= 0 {
        assert forall k :: 0 <= k < |init| ==> init[k].weight >= 0 by {
          forall k | 0 <= k < |init| ensures init[k].weight >= 0 { assert init[k] == edges[k]; }
        }
      }
    }
  }

  /**
   * Building from a simple edge list with non-negative weights gives a well-formed graph in which
   * every edge s -> t is recorded on both sides with its weight, both matrices are true exactly on
   * the edges, and the cost of a pair that is not an edge is 0.
   */
  lemma FromDotGraphWellFormed(weights: seq<int>, entering: seq<seq<Edge>>)
    requires EdgesIn(Flatten(entering), |weights|) && Simple(Flatten(entering))
    requires forall i :: 0 <= i < |weights| ==> weights[i] >= 0
    requires forall k :: 0 <= k < |Flatten(entering)| ==> Flatten(entering)[k].weight >= 0
    ensures var g := FromDotGraph(weights, entering); var edges := Flatten(entering);
      && g.WellFormed()
      && g.numberOfTasks == |weights|
      && (forall k :: 0 <= k < |edges| ==>
            && edges[k].source in g.parentsList[edges[k].target]
            && edges[k].target in g.childrenList[edges[k].source]
            && g.commCosts[edges[k].source][edges[k].target] == edges[k].weight)
      && (forall s, t :: 0 <= s < |weights| && 0 <= t < |weights| ==>
            (t in g.childrenList[s] <==> HasEdge(edges, s, t)) &&
            (g.childrenAdjacency.value[s][t] <==> HasEdge(edges, s, t)) &&
            (g.parentsAdjacency.value[t][s] <==> HasEdge(edges, s, t)))
  {
    var edges := Flatten(entering);
    var g := FromDotGraph(weights, entering);
    var n := |weights|;
    AddEdgesComputes(weights, edges);
    forall i | 0 <= i < n
      ensures g.parentsList[i] == SourcesInto(edges, i) && g.childrenList[i] == TargetsFrom(edges, i)
      ensures Distinct(g.parentsList[i]) && Distinct(g.childrenList[i])
      ensures forall s :: s in g.parentsList[i] <==> HasEdge(edges, s, i)
      ensures forall t :: t in g.childrenList[i] <==> HasEdge(edges, i, t)
    {
      SourcesMembership(edges, i);
      TargetsMembership(edges, i);
    }
    forall s, t | 0 <= s < n && 0 <= t < n
      ensures g.commCosts[s][t] >= 0 && (t !in g.childrenList[s] ==> g.commCosts[s][t] == 0)
    {
      CostOffEdges(edges, s, t);
    }
    forall k | 0 <= k < |edges|
      ensures g.commCosts[edges[k].source][edges[k].target] == edges[k].weight
    {
      LastEdgeCost(edges, k);
    }
  }

  /** In a simple edge list the cost of an edge's pair is that edge's weight. */
  lemma {:induction false} LastEdgeCost(edges: seq<Edge>, k: int)
    requires Simple(edges) && 0 <= k < |edges|
    ensures CostOf(edges, edges[k].source, edges[k].target) == edges[k].weight
  {
    var init := edges[..|edges| - 1];
    if k < |edges| - 1 {
      assert init[k] == edges[k];
      assert Simple(init);
      LastEdgeCost(init, k);
    }
  }
}
