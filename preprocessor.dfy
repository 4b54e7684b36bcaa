/**
 * Preprocessing for the search (solution/helpers/PreProcessor.java): bottom levels computed by
 * memoised recursion over the children, and the classes of interchangeable tasks found by
 * pairwise comparison.  Comparing two tasks sorts their parent and child lists inside the graph,
 * so the comparison returns the graph with those lists reordered.
 */
module PreProcessing {
  import opened Seqs
  import opened Graph

  /**
   * The bottom level of task t: its duration plus the largest bottom level among its children,
   * or just its duration when it has none (the length of the longest path from t to an exit task).
   */
  ghost function BLevel(g: TaskGraph, rank: seq<nat>, t: int): int
    requires Ranked(g, rank) && 0 <= t < g.numberOfTasks
    decreases rank[t], 1, 0
  {
    if |g.childrenList[t]| == 0 then g.durations[t]
    else MaxChildBLevel(g, rank, t, |g.childrenList[t]|) + g.durations[t]
  }

  /** The largest bottom level among the first k children of t, or 0 when k is 0. */
  ghost function MaxChildBLevel(g: TaskGraph, rank: seq<nat>, t: int, k: nat): int
    requires Ranked(g, rank) && 0 <= t < g.numberOfTasks && k <= |g.childrenList[t]|
    decreases rank[t], 0, k
  {
    if k == 0 then 0
    else
      var child := g.childrenList[t][k - 1];
      assert 0 <= child < g.numberOfTasks && rank[child] < rank[t];
      Max(MaxChildBLevel(g, rank, t, k - 1), BLevel(g, rank, child))
  }

  /** The maximum over the first k children bounds each of them, is non-negative, and is 0 or attained. */
  lemma {:induction false} MaxChildBounds(g: TaskGraph, rank: seq<nat>, t: int, k: nat)
    requires Ranked(g, rank) && 0 <= t < g.numberOfTasks && k <= |g.childrenList[t]|
    ensures MaxChildBLevel(g, rank, t, k) >= 0
    ensures forall j :: 0 <= j < k ==> BLevel(g, rank, g.childrenList[t][j]) <= MaxChildBLevel(g, rank, t, k)
    ensures MaxChildBLevel(g, rank, t, k) == 0 ||
            exists j :: 0 <= j < k && BLevel(g, rank, g.childrenList[t][j]) == MaxChildBLevel(g, rank, t, k)
  {
    if k > 0 {
      MaxChildBounds(g, rank, t, k - 1);
    }
  }

  /** A task with no children has its duration as bottom level. */
  lemma ExitTaskBLevel(g: TaskGraph, rank: seq<nat>, t: int)
    requires Ranked(g, rank) && 0 <= t < g.numberOfTasks && |g.childrenList[t]| == 0
    ensures BLevel(g, rank, t) == g.durations[t]
  {
  }

  /**
   * With non-negative durations the bottom level is at least the task's duration and at least
   * its duration plus each child's bottom level, and it equals the duration or the duration plus
   * some child's bottom level: it is the duration plus the maximum over the children.
   */
  lemma {:induction false} BLevelIsLongestPath(g: TaskGraph, rank: seq<nat>, t: int)
    requires g.WellFormed() && Ranked(g, rank) && 0 <= t < g.numberOfTasks
    ensures BLevel(g, rank, t) >= g.durations[t] >= 0
    ensures forall c :: c in g.childrenList[t] ==> BLevel(g, rank, t) >= g.durations[t] + BLevel(g, rank, c)
    ensures BLevel(g, rank, t) == g.durations[t] ||
            exists c :: c in g.childrenList[t] && BLevel(g, rank, t) == g.durations[t] + BLevel(g, rank, c)
  {
    var children := g.childrenList[t];
    if |children| > 0 {
      MaxChildBounds(g, rank, t, |children|);
      forall c | c in children ensures BLevel(g, rank, t) >= g.durations[t] + BLevel(g, rank, c) {
        var j :| 0 <= j < |children| && children[j] == c;
      }
    }
  }

  /** A memo table in which every entry is either unfilled (0) or the task's bottom level. */
  ghost predicate MemoSound(g: TaskGraph, rank: seq<nat>, lengths: seq<int>)
    requires Ranked(g, rank)
  {
    |lengths| == g.numberOfTasks &&
    forall i :: 0 <= i < g.numberOfTasks ==> lengths[i] == 0 || lengths[i] == BLevel(g, rank, i)
  }

  /**
   * bLevels (PreProcessor.java:41-62): the bottom level of `node`, filling the memo table.  A
   * filled (non-zero) entry is returned as it is; no filled entry is overwritten, and every
   * entry written is a bottom level.
   */
  method BLevels(node: int, lengths: array<int>, g: TaskGraph, ghost rank: seq<nat>) returns (level: int)
    requires g.WellFormed() && Ranked(g, rank) && 0 <= node < g.numberOfTasks
    requires MemoSound(g, rank, lengths[..])
    modifies lengths
    ensures MemoSound(g, rank, lengths[..])
    ensures level == BLevel(g, rank, node) && lengths[node] == level
    ensures forall i :: 0 <= i < lengths.Length && old(lengths[i]) != 0 ==> lengths[i] == old(lengths[i])
    decreases rank[node]
  {
    if lengths[node] != 0 {
      return lengths[node];
    }

    var childrenList := g.GetChildrenList(node);
    if |childrenList| == 0 {
      lengths[node] := g.GetDuration(node);
      return lengths[node];
    }

    var maxLength := 0;
    var k := 0;
    while k < |childrenList|
      invariant 0 <= k <= |childrenList|
      invariant MemoSound(g, rank, lengths[..])
      invariant maxLength == MaxChildBLevel(g, rank, node, k)
      invariant forall i :: 0 <= i < lengths.Length && old(lengths[i]) != 0 ==> lengths[i] == old(lengths[i])
    {
      var child := childrenList[k];
      assert rank[child] < rank[node];
      var childLevel := BLevels(child, lengths, g, rank);
      maxLength := Max(maxLength, childLevel);
      k := k + 1;
    }

    lengths[node] := maxLength + g.GetDuration(node);
    return lengths[node];
  }

  /**
   * maxLengthToExitNode (PreProcessor.java:20-30): a new array holding every task's bottom level,
   * whatever order the recursion fills it in.
   */
  method MaxLengthToExitNode(g: TaskGraph, ghost rank: seq<nat>) returns (lengths: array<int>)
    requires g.WellFormed() && Ranked(g, rank)
    ensures fresh(lengths) && lengths.Length == g.numberOfTasks
    ensures forall i :: 0 <= i < g.numberOfTasks ==> lengths[i] == BLevel(g, rank, i)
  {
    var numberOfTasks := g.GetNumberOfTasks();
    lengths := new int[numberOfTasks](_ => 0);
    var node := 0;
    while node < numberOfTasks
      invariant 0 <= node <= numberOfTasks
      invariant MemoSound(g, rank, lengths[..])
      invariant forall i :: 0 <= i < node ==> lengths[i] == BLevel(g, rank, i)
    {
      var _ := BLevels(node, lengths, g, rank);
      node := node + 1;
    }
  }

  /**
   * Two tasks are interchangeable: equal durations, the same parents and the same children
   * (as multisets of ids), equal costs on the edges from each parent, and equal costs on the
   * edges to each child.
   */
  predicate Equivalent(g: TaskGraph, a: int, b: int)
    requires g.Shaped() && 0 <= a < g.numberOfTasks && 0 <= b < g.numberOfTasks
  {
    && g.durations[a] == g.durations[b]
    && multiset(g.parentsList[a]) == multiset(g.parentsList[b])
    && multiset(g.childrenList[a]) == multiset(g.childrenList[b])
    && (forall p :: 0 <= p < g.numberOfTasks && p in g.parentsList[a] ==> g.commCosts[p][a] == g.commCosts[p][b])
    && (forall c :: 0 <= c < g.numberOfTasks && c in g.childrenList[a] ==> g.commCosts[a][c] == g.commCosts[b][c])
  }

  /** Interchangeability is an equivalence relation. */
  lemma EquivalentIsEquivalence(g: TaskGraph, a: int, b: int, c: int)
    requires g.Shaped() && 0 <= a < g.numberOfTasks && 0 <= b < g.numberOfTasks && 0 <= c < g.numberOfTasks
    ensures Equivalent(g, a, a)
    ensures Equivalent(g, a, b) ==> Equivalent(g, b, a)
    ensures Equivalent(g, a, b) && Equivalent(g, b, c) ==> Equivalent(g, a, c)
  {
    SameMultisetSameElements(g.parentsList[a], g.parentsList[b]);
    SameMultisetSameElements(g.childrenList[a], g.childrenList[b]);
  }

  /** Sequences with the same multiset have the same elements. */
  lemma SameMultisetSameElements(s: seq<int>, t: seq<int>)
    ensures multiset(s) == multiset(t) ==> forall x :: x in s <==> x in t
  {
    if multiset(s) == multiset(t) {
      forall x ensures x in s <==> x in t {
        assert x in s <==> x in multiset(s);
        assert x in t <==> x in multiset(t);
      }
    }
  }

  /** On a well-formed graph, interchangeable means the same parent set, the same child set, and equal costs. */
  lemma EquivalentMeansSameNeighbours(g: TaskGraph, a: int, b: int)
    requires g.WellFormed() && 0 <= a < g.numberOfTasks && 0 <= b < g.numberOfTasks
    ensures Equivalent(g, a, b) <==>
      && g.durations[a] == g.durations[b]
      && (forall p :: p in g.parentsList[a] <==> p in g.parentsList[b])
      && (forall c :: c in g.childrenList[a] <==> c in g.childrenList[b])
      && (forall p :: 0 <= p < g.numberOfTasks && p in g.parentsList[a] ==> g.commCosts[p][a] == g.commCosts[p][b])
      && (forall c :: 0 <= c < g.numberOfTasks && c in g.childrenList[a] ==> g.commCosts[a][c] == g.commCosts[b][c])
  {
    if (forall p :: p in g.parentsList[a] <==> p in g.parentsList[b]) {
      SameElementsSameMultiset(g.parentsList[a], g.parentsList[b]);
    }
    if (forall c :: c in g.childrenList[a] <==> c in g.childrenList[b]) {
      SameElementsSameMultiset(g.childrenList[a], g.childrenList[b]);
    }
    if Equivalent(g, a, b) {
      assert forall p :: p in g.parentsList[a] <==> p in multiset(g.parentsList[a]);
      assert forall p :: p in g.parentsList[b] <==> p in multiset(g.parentsList[b]);
      assert forall c :: c in g.childrenList[a] <==> c in multiset(g.childrenList[a]);
      assert forall c :: c in g.childrenList[b] <==> c in multiset(g.childrenList[b]);
    }
  }

  /** Two sequences without repeats that have the same elements have the same multiset. */
  lemma SameElementsSameMultiset(s: seq<int>, t: seq<int>)
    requires Distinct(s) && Distinct(t) && forall x :: x in s <==> x in t
    ensures multiset(s) == multiset(t)
  {
    DistinctCounts(s);
    DistinctCounts(t);
    forall x ensures multiset(s)[x] == multiset(t)[x] {
      assert x in s <==> x in multiset(s);
      assert x in t <==> x in multiset(t);
    }
  }

  /**
   * `h` is `g` with some parent and child lists reordered: every other field is the same and
   * each list holds the same ids as before.
   */
  predicate SameGraph(g: TaskGraph, h: TaskGraph) {
    && h.numberOfTasks == g.numberOfTasks && h.durations == g.durations && h.commCosts == g.commCosts
    && h.parentsAdjacency == g.parentsAdjacency && h.childrenAdjacency == g.childrenAdjacency
    && |h.parentsList| == |g.parentsList| && |h.childrenList| == |g.childrenList|
    && (forall i :: 0 <= i < |g.parentsList| ==> multiset(h.parentsList[i]) == multiset(g.parentsList[i]))
    && (forall i :: 0 <= i < |g.childrenList| ==> multiset(h.childrenList[i]) == multiset(g.childrenList[i]))
  }

  /** Reordering lists keeps the graph well formed, keeps a topological rank valid, and keeps interchangeability. */
  lemma SameGraphKeeps(g: TaskGraph, h: TaskGraph, rank: seq<nat>)
    requires SameGraph(g, h) && g.WellFormed()
    ensures h.WellFormed()
    ensures Ranked(g, rank) ==> Ranked(h, rank)
    ensures forall a, b :: 0 <= a < g.numberOfTasks && 0 <= b < g.numberOfTasks ==>
              (Equivalent(h, a, b) <==> Equivalent(g, a, b))
  {
    var n := g.numberOfTasks;
    forall i, x | 0 <= i < n
      ensures (x in h.parentsList[i] <==> x in g.parentsList[i]) && (x in h.childrenList[i] <==> x in g.childrenList[i])
    {
      assert x in h.parentsList[i] <==> x in multiset(h.parentsList[i]);
      assert x in g.parentsList[i] <==> x in multiset(g.parentsList[i]);
      assert x in h.childrenList[i] <==> x in multiset(h.childrenList[i]);
      assert x in g.childrenList[i] <==> x in multiset(g.childrenList[i]);
    }
    forall i | 0 <= i < n
      ensures AllBelow(h.parentsList[i], n) && AllBelow(h.childrenList[i], n)
      ensures Distinct(h.parentsList[i]) && Distinct(h.childrenList[i])
    {
      forall j | 0 <= j < |h.parentsList[i]| ensures 0 <= h.parentsList[i][j] < n {
        assert h.parentsList[i][j] in g.parentsList[i];
      }
      forall j | 0 <= j < |h.childrenList[i]| ensures 0 <= h.childrenList[i][j] < n {
        assert h.childrenList[i][j] in g.childrenList[i];
      }
      DistinctPermutation(g.parentsList[i], h.parentsList[i]);
      DistinctPermutation(g.childrenList[i], h.childrenList[i]);
    }
    if Ranked(g, rank) {
      forall p, j | 0 <= p < n && 0 <= j < |h.childrenList[p]| ensures rank[h.childrenList[p][j]] < rank[p] {
        assert h.childrenList[p][j] in g.childrenList[p];
      }
    }
  }

  /**
   * h is g with at most the parent and child lists of a and b changed, each into its sorted copy:
   * the only change compare makes to the graph.
   */
  predicate Resorted(g: TaskGraph, h: TaskGraph, a: int, b: int)
    requires g.Shaped() && |h.parentsList| == |h.childrenList| == g.numberOfTasks
  {
    var resorted :=
      && (forall i :: 0 <= i < g.numberOfTasks && i != a && i != b ==>
            h.parentsList[i] == g.parentsList[i] && h.childrenList[i] == g.childrenList[i])
      && (forall i :: 0 <= i < g.numberOfTasks ==>
            (h.parentsList[i] == g.parentsList[i] || h.parentsList[i] == Sort(g.parentsList[i])) &&
            (h.childrenList[i] == g.childrenList[i] || h.childrenList[i] == Sort(g.childrenList[i])));
    resorted
  }

  /** Both neighbour lists of task x are in ascending order. */
  predicate ListsAscending(h: TaskGraph, x: int)
    requires 0 <= x < |h.parentsList| && x < |h.childrenList|
  {
    Ascending(h.parentsList[x]) && Ascending(h.childrenList[x])
  }

  /** Every neighbour list of h is the one of g or is in ascending order, so lists of g that were ascending stay so. */
  predicate KeptOrAscending(g: TaskGraph, h: TaskGraph)
    requires |h.parentsList| == |g.parentsList| && |h.childrenList| == |g.childrenList|
  {
    && (forall i :: 0 <= i < |g.parentsList| ==> h.parentsList[i] == g.parentsList[i] || Ascending(h.parentsList[i]))
    && (forall i :: 0 <= i < |g.childrenList| ==> h.childrenList[i] == g.childrenList[i] || Ascending(h.childrenList[i]))
  }

  /** What compare does to the lists keeps each one or sorts it. */
  lemma ResortedKept(g: TaskGraph, h: TaskGraph, a: int, b: int)
    requires g.Shaped() && |h.parentsList| == |h.childrenList| == g.numberOfTasks
    requires Resorted(g, h, a, b)
    ensures KeptOrAscending(g, h)
  {
    forall i | 0 <= i < g.numberOfTasks ensures Ascending(Sort(g.parentsList[i])) && Ascending(Sort(g.childrenList[i])) {
      SortAscending(g.parentsList[i]);
      SortAscending(g.childrenList[i]);
    }
  }

  /** Keeping or sorting twice is keeping or sorting. */
  lemma KeptOrAscendingTrans(g: TaskGraph, h: TaskGraph, k: TaskGraph)
    requires |h.parentsList| == |g.parentsList| == |k.parentsList| && |h.childrenList| == |g.childrenList| == |k.childrenList|
    requires KeptOrAscending(g, h) && KeptOrAscending(h, k)
    ensures KeptOrAscending(g, k)
  {
  }

  lemma ResortedNothing(g: TaskGraph, a: int, b: int)
    requires g.Shaped()
    ensures Resorted(g, g, a, b)
  {
  }

  /** Sorting the parent lists of a and b. */
  lemma ResortedParents(g: TaskGraph, a: int, b: int)
    requires g.Shaped() && 0 <= a < g.numberOfTasks && 0 <= b < g.numberOfTasks
    ensures var h := g.(parentsList := g.parentsList[a := Sort(g.parentsList[a])][b := Sort(g.parentsList[b])]);
      Resorted(g, h, a, b)
  {
  }

  /** Then sorting their child lists. */
  lemma ResortedChildren(g: TaskGraph, h: TaskGraph, a: int, b: int)
    requires g.Shaped() && 0 <= a < g.numberOfTasks && 0 <= b < g.numberOfTasks
    requires |h.parentsList| == |h.childrenList| == g.numberOfTasks && h.childrenList == g.childrenList
    requires Resorted(g, h, a, b)
    ensures var k := h.(childrenList := g.childrenList[a := Sort(g.childrenList[a])][b := Sort(g.childrenList[b])]);
      Resorted(g, k, a, b)
  {
  }

  /**
   * compare (PreProcessor.java:109-143): whether tasks a and b are interchangeable.  Durations
   * are compared first, then list sizes; then both parent lists are sorted in the graph and
   * compared position by position with their edge costs, and then likewise the child lists.
   */
  method Compare(a: int, b: int, g: TaskGraph) returns (equivalent: bool, sorted: TaskGraph)
    requires g.WellFormed() && 0 <= a < g.numberOfTasks && 0 <= b < g.numberOfTasks && a != b
    ensures equivalent <==> Equivalent(g, a, b)
    ensures SameGraph(g, sorted) && sorted.WellFormed() && Resorted(g, sorted, a, b)
    ensures equivalent ==> ListsAscending(sorted, a) && ListsAscending(sorted, b)
  {
    sorted := g;
    SameGraphKeeps(g, g, []);
    ResortedNothing(g, a, b);
    if g.GetDuration(a) != g.GetDuration(b) {
      return false, sorted;
    }
    var aParents := g.GetParentsList(a);
    var bParents := g.GetParentsList(b);
    var aChildren := g.GetChildrenList(a);
    var bChildren := g.GetChildrenList(b);
    if |aParents| != |bParents| || |aChildren| != |bChildren| {
      assert |multiset(aParents)| == |aParents| && |multiset(bParents)| == |bParents|;
      assert |multiset(aChildren)| == |aChildren| && |multiset(bChildren)| == |bChildren|;
      return false, sorted;
    }

    aParents := Sort(aParents);
    bParents := Sort(bParents);
    sorted := g.(parentsList := g.parentsList[a := aParents][b := bParents]);
    SameGraphKeeps(g, sorted, []);
    ResortedParents(g, a, b);
    SortAscending(g.parentsList[a]);
    SortAscending(g.parentsList[b]);
    var sameParents := SameNeighbours(g, a, b, g.parentsList[a], g.parentsList[b], aParents, bParents, true);
    if !sameParents {
      return false, sorted;
    }
    equivalent, sorted := CompareChildren(a, b, g, sorted, aParents);
  }

  /**
   * The second half of compare (PreProcessor.java:132-142): with equal durations, sizes and
   * parents, the two child lists are sorted in the graph and compared the same way.
   */
  method CompareChildren(a: int, b: int, g: TaskGraph, parentsSorted: TaskGraph, aParents: seq<int>)
    returns (equivalent: bool, sorted: TaskGraph)
    requires g.WellFormed() && 0 <= a < g.numberOfTasks && 0 <= b < g.numberOfTasks
    requires g.durations[a] == g.durations[b] && |g.childrenList[a]| == |g.childrenList[b]|
    requires SameGraph(g, parentsSorted) && parentsSorted.childrenList == g.childrenList
    requires Resorted(g, parentsSorted, a, b)
    requires multiset(aParents) == multiset(g.parentsList[a]) == multiset(g.parentsList[b])
    requires AllBelow(aParents, g.numberOfTasks)
    requires forall k :: 0 <= k < |aParents| ==> EdgeCost(g, a, aParents[k], true) == EdgeCost(g, b, aParents[k], true)
    requires Ascending(parentsSorted.parentsList[a]) && Ascending(parentsSorted.parentsList[b])
    ensures equivalent <==> Equivalent(g, a, b)
    ensures SameGraph(g, sorted) && sorted.WellFormed() && Resorted(g, sorted, a, b)
    ensures equivalent ==> ListsAscending(sorted, a) && ListsAscending(sorted, b)
  {
    var aChildren := Sort(g.GetChildrenList(a));
    var bChildren := Sort(g.GetChildrenList(b));
    sorted := parentsSorted.(childrenList := g.childrenList[a := aChildren][b := bChildren]);
    SameGraphKeeps(g, sorted, []);
    ResortedChildren(g, parentsSorted, a, b);
    SortAscending(g.childrenList[a]);
    SortAscending(g.childrenList[b]);
    var sameChildren := SameNeighbours(g, a, b, g.childrenList[a], g.childrenList[b], aChildren, bChildren, false);
    if !sameChildren {
      return false, sorted;
    }
    CompareMatch(g, a, b, aParents, aChildren);
    return true, sorted;
  }

  /**
   * The position-by-position loops of compare over two sorted lists of equal length (parents
   * when `parents` holds, children otherwise): they agree when the lists are equal and the edge
   * costs agree at every position, and a disagreement rules the tasks out as interchangeable.
   */
  method SameNeighbours(g: TaskGraph, a: int, b: int, la: seq<int>, lb: seq<int>, sa: seq<int>, sb: seq<int>,
                        parents: bool)
    returns (same: bool)
    requires g.Shaped() && 0 <= a < g.numberOfTasks && 0 <= b < g.numberOfTasks
    requires la == (if parents then g.parentsList[a] else g.childrenList[a])
    requires lb == (if parents then g.parentsList[b] else g.childrenList[b])
    requires Ascending(sa) && Ascending(sb) && multiset(sa) == multiset(la) && multiset(sb) == multiset(lb)
    requires |sa| == |sb|
    ensures AllBelow(sa, g.numberOfTasks) && AllBelow(sb, g.numberOfTasks)
    ensures same <==> sa == sb && forall k :: 0 <= k < |sa| ==> EdgeCost(g, a, sa[k], parents) == EdgeCost(g, b, sa[k], parents)
    ensures !same ==> !Equivalent(g, a, b)
  {
    NeighboursInRange(g, a, la, sa, parents);
    NeighboursInRange(g, b, lb, sb, parents);
    var i := 0;
    while i < |sa|
      invariant 0 <= i <= |sa|
      invariant forall k :: 0 <= k < i ==> (sa[k] == sb[k] && EdgeCost(g, a, sa[k], parents) == EdgeCost(g, b, sb[k], parents))
    {
      var aNeighbour := sa[i];
      var bNeighbour := sb[i];
      // getCommCost reads the cost matrix
      var aCost := if parents then g.commCosts[aNeighbour][a] else g.commCosts[a][aNeighbour];
      var bCost := if parents then g.commCosts[bNeighbour][b] else g.commCosts[b][bNeighbour];
      if aNeighbour != bNeighbour || aCost != bCost {
        CompareAt(g, a, b, la, lb, sa, sb, i, parents);
        return false;
      }
      i := i + 1;
    }
    return true;
  }

  /** A rearranged neighbour list names tasks only. */
  lemma NeighboursInRange(g: TaskGraph, t: int, l: seq<int>, s: seq<int>, parents: bool)
    requires g.Shaped() && 0 <= t < g.numberOfTasks
    requires l == (if parents then g.parentsList[t] else g.childrenList[t])
    requires multiset(s) == multiset(l)
    ensures AllBelow(s, g.numberOfTasks)
  {
    forall k | 0 <= k < |s| ensures 0 <= s[k] < g.numberOfTasks {
      assert s[k] in multiset(l);
    }
  }

  /** The cost on the edge between a task and a neighbour: from the neighbour when it is a parent, to it when a child. */
  function EdgeCost(g: TaskGraph, task: int, other: int, fromOther: bool): int
    requires g.Shaped() && 0 <= task < g.numberOfTasks && 0 <= other < g.numberOfTasks
  {
    if fromOther then g.commCosts[other][task] else g.commCosts[task][other]
  }

  /** Interchangeable tasks have equal sorted lists and equal edge costs at every position. */
  lemma CompareAt(g: TaskGraph, a: int, b: int, la: seq<int>, lb: seq<int>, sa: seq<int>, sb: seq<int>,
                        i: int, parents: bool)
    requires g.Shaped() && 0 <= a < g.numberOfTasks && 0 <= b < g.numberOfTasks
    requires la == (if parents then g.parentsList[a] else g.childrenList[a])
    requires lb == (if parents then g.parentsList[b] else g.childrenList[b])
    requires Ascending(sa) && Ascending(sb) && multiset(sa) == multiset(la) && multiset(sb) == multiset(lb)
    requires 0 <= i < |sa| && i < |sb| && 0 <= sa[i] < g.numberOfTasks && 0 <= sb[i] < g.numberOfTasks
    ensures Equivalent(g, a, b) ==> sa[i] == sb[i] && EdgeCost(g, a, sa[i], parents) == EdgeCost(g, b, sb[i], parents)
  {
    if Equivalent(g, a, b) {
      AscendingUnique(sa, sb);
      assert sa[i] in multiset(la);
    }
  }

  /** Equal sorted lists with equal edge costs at every position mean interchangeable tasks. */
  lemma CompareMatch(g: TaskGraph, a: int, b: int, parents: seq<int>, children: seq<int>)
    requires g.WellFormed() && 0 <= a < g.numberOfTasks && 0 <= b < g.numberOfTasks
    requires g.durations[a] == g.durations[b]
    requires multiset(parents) == multiset(g.parentsList[a]) == multiset(g.parentsList[b])
    requires multiset(children) == multiset(g.childrenList[a]) == multiset(g.childrenList[b])
    requires AllBelow(parents, g.numberOfTasks) && AllBelow(children, g.numberOfTasks)
    requires forall k :: 0 <= k < |parents| ==> g.commCosts[parents[k]][a] == g.commCosts[parents[k]][b]
    requires forall k :: 0 <= k < |children| ==> g.commCosts[a][children[k]] == g.commCosts[b][children[k]]
    ensures Equivalent(g, a, b)
  {
    forall p | 0 <= p < g.numberOfTasks && p in g.parentsList[a] ensures g.commCosts[p][a] == g.commCosts[p][b] {
      assert p in multiset(parents);
      var k :| 0 <= k < |parents| && parents[k] == p;
    }
    forall c | 0 <= c < g.numberOfTasks && c in g.childrenList[a] ensures g.commCosts[a][c] == g.commCosts[b][c] {
      assert c in multiset(children);
      var k :| 0 <= k < |children| && children[k] == c;
    }
  }

  /** Some task below i is interchangeable with x: x's class has already been recorded. */
  ghost predicate Covered(g: TaskGraph, i: int, x: int)
    requires g.Shaped() && 0 <= x < g.numberOfTasks && i <= g.numberOfTasks
  {
    exists y :: 0 <= y < i && Equivalent(g, y, x)
  }

  /** The list recorded for x holds exactly the tasks interchangeable with x, and each of them records the same list. */
  ghost predicate ClassRecorded(g: TaskGraph, classes: seq<seq<int>>, x: int)
    requires g.Shaped() && |classes| == g.numberOfTasks && 0 <= x < g.numberOfTasks
  {
    && (forall z :: z in classes[x] <==> 0 <= z < g.numberOfTasks && Equivalent(g, x, z))
    && (forall z :: z in classes[x] ==> 0 <= z < g.numberOfTasks && classes[z] == classes[x])
  }

  /**
   * getNodeEquivalence (PreProcessor.java:70-99): for every task, the list of tasks
   * interchangeable with it.  Each task not yet seen starts a list with itself, adds every
   * later unseen task that compares equal, and that one list is recorded for all its members.
   * The comparisons reorder lists of the graph, which is returned as well: both lists of every
   * task with an interchangeable partner end up sorted, and every other list is kept or sorted.
   */
  method GetNodeEquivalence(g: TaskGraph) returns (equivalentNodesList: array<seq<int>>, sorted: TaskGraph)
    requires g.WellFormed()
    ensures fresh(equivalentNodesList) && equivalentNodesList.Length == g.numberOfTasks
    ensures SameGraph(g, sorted) && sorted.WellFormed() && KeptOrAscending(g, sorted)
    ensures forall i, j :: 0 <= i < g.numberOfTasks && j in equivalentNodesList[i] && j != i ==> ListsAscending(sorted, i)
    ensures forall i :: 0 <= i < g.numberOfTasks ==> i in equivalentNodesList[i]
    ensures forall i, j :: 0 <= i < g.numberOfTasks ==>
              (j in equivalentNodesList[i] <==> 0 <= j < g.numberOfTasks && Equivalent(g, i, j))
    ensures forall i, j :: 0 <= i < g.numberOfTasks && j in equivalentNodesList[i] ==>
              0 <= j < g.numberOfTasks && equivalentNodesList[j] == equivalentNodesList[i]
  {
    var seen: set<int> := {};
    var numTasks := g.GetNumberOfTasks();
    equivalentNodesList := new seq<int>[numTasks](_ => []);
    sorted := g;
    SameGraphKeeps(g, g, []);

    var i := 0;
    while i < numTasks
      invariant 0 <= i <= numTasks
      invariant SameGraph(g, sorted) && sorted.WellFormed() && KeptOrAscending(g, sorted)
      invariant ClassesSoFar(g, equivalentNodesList[..], i, seen)
      invariant SortedSoFar(sorted, equivalentNodesList[..], seen)
    {
      ghost var before := sorted;
      seen, sorted := NodeEquivalenceStep(g, sorted, equivalentNodesList, i, seen);
      KeptOrAscendingTrans(g, before, sorted);
      i := i + 1;
    }
    forall x | 0 <= x < numTasks ensures x in seen {
      EquivalentIsEquivalence(g, x, x, x);
      assert Covered(g, numTasks, x);
    }
    AllRecorded(g, equivalentNodesList[..]);
  }

  /**
   * Where the loop of getNodeEquivalence stands before task i: the tasks seen are those
   * interchangeable with some task before i, and each of them has its class recorded.
   */
  ghost predicate ClassesSoFar(g: TaskGraph, classes: seq<seq<int>>, i: int, seen: set<int>)
    requires g.Shaped() && |classes| == g.numberOfTasks && i <= g.numberOfTasks
  {
    && (forall x :: x in seen <==> 0 <= x < g.numberOfTasks && Covered(g, i, x))
    && (forall x :: 0 <= x < g.numberOfTasks && x in seen ==> ClassRecorded(g, classes, x))
  }

  /** Every seen task that shares its recorded list with another task has both lists sorted in h. */
  ghost predicate SortedSoFar(h: TaskGraph, classes: seq<seq<int>>, seen: set<int>)
    requires |h.parentsList| == |h.childrenList| == |classes|
  {
    forall x, z :: 0 <= x < |classes| && x in seen && z in classes[x] && z != x ==> ListsAscending(h, x)
  }

  /** One turn of the loop of getNodeEquivalence (PreProcessor.java:78-96): task i starts a class unless it was seen. */
  method NodeEquivalenceStep(g: TaskGraph, current: TaskGraph, equivalentNodesList: array<seq<int>>, i: int,
                             seen: set<int>)
    returns (seenAfter: set<int>, sorted: TaskGraph)
    requires g.WellFormed() && SameGraph(g, current) && current.WellFormed()
    requires 0 <= i < g.numberOfTasks && equivalentNodesList.Length == g.numberOfTasks
    requires ClassesSoFar(g, equivalentNodesList[..], i, seen)
    requires SortedSoFar(current, equivalentNodesList[..], seen)
    modifies equivalentNodesList
    ensures SameGraph(g, sorted) && sorted.WellFormed() && KeptOrAscending(current, sorted)
    ensures ClassesSoFar(g, equivalentNodesList[..], i + 1, seenAfter)
    ensures SortedSoFar(sorted, equivalentNodesList[..], seenAfter)
  {
    sorted := current;
    seenAfter := seen;
    if i !in seen {
      seenAfter, sorted := NewClass(g, current, equivalentNodesList, i, seen);
    } else {
      forall x | 0 <= x < g.numberOfTasks ensures Covered(g, i + 1, x) ==> Covered(g, i, x) {
        CoveredStep(g, i, x);
      }
    }
  }

  /** The body of the loop of getNodeEquivalence for an unseen task i: its class is built and recorded for every member. */
  method NewClass(g: TaskGraph, current: TaskGraph, equivalentNodesList: array<seq<int>>, i: int, seen: set<int>)
    returns (seenAfter: set<int>, sorted: TaskGraph)
    requires g.WellFormed() && SameGraph(g, current) && current.WellFormed()
    requires 0 <= i < g.numberOfTasks && equivalentNodesList.Length == g.numberOfTasks && i !in seen
    requires ClassesSoFar(g, equivalentNodesList[..], i, seen)
    requires SortedSoFar(current, equivalentNodesList[..], seen)
    modifies equivalentNodesList
    ensures SameGraph(g, sorted) && sorted.WellFormed() && KeptOrAscending(current, sorted)
    ensures ClassesSoFar(g, equivalentNodesList[..], i + 1, seenAfter)
    ensures SortedSoFar(sorted, equivalentNodesList[..], seenAfter)
  {
    var equivalentNodes;
    equivalentNodes, sorted := ClassOf(g, current, i, seen);
    ghost var before := equivalentNodesList[..];
    seenAfter := RecordMembers(equivalentNodesList, equivalentNodes, seen);
    RecordClass(g, before, equivalentNodesList[..], seen, seenAfter, equivalentNodes, i);
    RecordSorted(current, sorted, before, equivalentNodesList[..], seen, seenAfter, equivalentNodes, i);
  }

  /** Recording a class whose lists are sorted keeps every seen task with a partner sorted. */
  lemma RecordSorted(current: TaskGraph, sorted: TaskGraph, before: seq<seq<int>>, after: seq<seq<int>>,
                     seen: set<int>, seenAfter: set<int>, nodes: seq<int>, i: int)
    requires |current.parentsList| == |current.childrenList| == |before| == |after|
    requires |sorted.parentsList| == |sorted.childrenList| == |before|
    requires 0 <= i < |before| && AllBelow(nodes, |before|)
    requires SortedSoFar(current, before, seen) && KeptOrAscending(current, sorted) && ClassSorted(sorted, nodes, i)
    requires |nodes| >= 1 && nodes[0] == i
    requires forall z :: z in nodes ==> after[z] == nodes && z !in seen
    requires forall x :: 0 <= x < |before| && x !in nodes ==> after[x] == before[x]
    requires seenAfter == seen + set k | 0 <= k < |nodes| :: nodes[k]
    ensures SortedSoFar(sorted, after, seenAfter)
  {
    forall x, z | 0 <= x < |after| && x in seenAfter && z in after[x] && z != x ensures ListsAscending(sorted, x) {
      if x in nodes {
        var m :| 0 <= m < |nodes| && nodes[m] == x;
        if x == i {
          var q :| 0 <= q < |nodes| && nodes[q] == z;
          assert nodes[q] != i;
        } else {
          assert nodes[m] != i;
        }
      } else {
        assert x in seen && z in before[x];
      }
    }
  }

  /** The final loop of a class: the class list is recorded for each member, which is marked seen. */
  method RecordMembers(equivalentNodesList: array<seq<int>>, equivalentNodes: seq<int>, seen: set<int>)
    returns (seenAfter: set<int>)
    requires AllBelow(equivalentNodes, equivalentNodesList.Length)
    modifies equivalentNodesList
    ensures forall z :: z in equivalentNodes ==> equivalentNodesList[z] == equivalentNodes
    ensures forall x :: 0 <= x < equivalentNodesList.Length && x !in equivalentNodes ==>
              equivalentNodesList[x] == old(equivalentNodesList[x])
    ensures seenAfter == seen + set k | 0 <= k < |equivalentNodes| :: equivalentNodes[k]
  {
    seenAfter := seen;
    var m := 0;
    while m < |equivalentNodes|
      invariant 0 <= m <= |equivalentNodes|
      invariant forall k :: 0 <= k < m ==> equivalentNodesList[equivalentNodes[k]] == equivalentNodes
      invariant forall x :: 0 <= x < equivalentNodesList.Length && x !in equivalentNodes[..m] ==>
                  equivalentNodesList[x] == old(equivalentNodesList[x])
      invariant seenAfter == seen + set k | 0 <= k < m :: equivalentNodes[k]
    {
      equivalentNodesList[equivalentNodes[m]] := equivalentNodes;
      seenAfter := seenAfter + {equivalentNodes[m]};
      m := m + 1;
    }
    assert equivalentNodes[..m] == equivalentNodes;
  }

  /** When every task's class is recorded, the lists are exactly the classes and shared by their members. */
  lemma AllRecorded(g: TaskGraph, classes: seq<seq<int>>)
    requires g.Shaped() && |classes| == g.numberOfTasks
    requires forall x :: 0 <= x < g.numberOfTasks ==> ClassRecorded(g, classes, x)
    ensures forall x :: 0 <= x < g.numberOfTasks ==> x in classes[x]
    ensures forall x, z :: 0 <= x < g.numberOfTasks ==> (z in classes[x] <==> 0 <= z < g.numberOfTasks && Equivalent(g, x, z))
    ensures forall x, z :: 0 <= x < g.numberOfTasks && z in classes[x] ==> 0 <= z < g.numberOfTasks && classes[z] == classes[x]
  {
    forall x, z | 0 <= x < g.numberOfTasks
      ensures x in classes[x]
      ensures z in classes[x] <==> 0 <= z < g.numberOfTasks && Equivalent(g, x, z)
      ensures z in classes[x] ==> 0 <= z < g.numberOfTasks && classes[z] == classes[x]
    {
      EquivalentIsEquivalence(g, x, x, x);
      assert ClassRecorded(g, classes, x);
    }
  }

  /** If i's class is already covered, covering up to i + 1 adds nothing. */
  lemma CoveredStep(g: TaskGraph, i: int, x: int)
    requires g.Shaped() && 0 <= x < g.numberOfTasks && 0 <= i < g.numberOfTasks && Covered(g, i, i)
    ensures Covered(g, i + 1, x) ==> Covered(g, i, x)
  {
    if Covered(g, i + 1, x) && !Covered(g, i, x) {
      var y :| 0 <= y < i && Equivalent(g, y, i);
      EquivalentIsEquivalence(g, y, i, x);
    }
  }

  /**
   * The inner scan of getNodeEquivalence for an unseen task i: i followed, in increasing order,
   * by every other unseen task that compares equal to it.  Seen tasks are never interchangeable
   * with i, so the list is exactly i's class.
   */
  method ClassOf(g: TaskGraph, current: TaskGraph, i: int, seen: set<int>) returns (equivalentNodes: seq<int>, sorted: TaskGraph)
    requires g.WellFormed() && SameGraph(g, current) && current.WellFormed() && 0 <= i < g.numberOfTasks
    requires forall x :: x in seen <==> 0 <= x < g.numberOfTasks && Covered(g, i, x)
    requires i !in seen
    ensures SameGraph(g, sorted) && sorted.WellFormed()
    ensures |equivalentNodes| >= 1 && equivalentNodes[0] == i
    ensures AllBelow(equivalentNodes, g.numberOfTasks)
    ensures forall z :: z in equivalentNodes <==> 0 <= z < g.numberOfTasks && Equivalent(g, i, z)
    ensures forall z :: z in equivalentNodes ==> z !in seen
    ensures KeptOrAscending(current, sorted) && ClassSorted(sorted, equivalentNodes, i)
  {
    var numTasks := g.numberOfTasks;
    sorted := current;
    equivalentNodes := [i];
    EquivalentIsEquivalence(g, i, i, i);
    assert !Covered(g, i, i);
    var j := 0;
    while j < numTasks
      invariant 0 <= j <= numTasks
      invariant SameGraph(g, sorted)
      invariant |equivalentNodes| >= 1 && equivalentNodes[0] == i
      invariant AllBelow(equivalentNodes, numTasks)
      invariant forall z :: z in equivalentNodes <==> z == i || (0 <= z < j && z != i && Equivalent(g, i, z))
      invariant KeptOrAscending(current, sorted) && ClassSorted(sorted, equivalentNodes, i)
    {
      ghost var before := sorted;
      equivalentNodes, sorted := ScanStep(g, sorted, i, j, seen, equivalentNodes);
      KeptOrAscendingTrans(current, before, sorted);
      j := j + 1;
    }
    SameGraphKeeps(g, sorted, []);
    forall z | z in equivalentNodes ensures z !in seen {
      if z != i {
        assert !Covered(g, i, i);
        NotEquivalentToSeen(g, i, z);
      }
    }
  }

  /** Every member of the class other than i, and then i itself, has both lists sorted in h. */
  predicate ClassSorted(h: TaskGraph, nodes: seq<int>, i: int)
    requires |h.parentsList| == |h.childrenList| && AllBelow(nodes, |h.parentsList|) && 0 <= i < |h.parentsList|
  {
    forall k :: 0 <= k < |nodes| && nodes[k] != i ==> ListsAscending(h, nodes[k]) && ListsAscending(h, i)
  }

  /** One step of the inner scan: task j joins the list when it is unseen, not i, and compares equal to i. */
  method ScanStep(g: TaskGraph, current: TaskGraph, i: int, j: int, seen: set<int>, nodes: seq<int>)
    returns (equivalentNodes: seq<int>, sorted: TaskGraph)
    requires g.WellFormed() && SameGraph(g, current) && 0 <= i < g.numberOfTasks && 0 <= j < g.numberOfTasks
    requires forall x :: x in seen <==> 0 <= x < g.numberOfTasks && Covered(g, i, x)
    requires !Covered(g, i, i)
    requires |nodes| >= 1 && nodes[0] == i && AllBelow(nodes, g.numberOfTasks)
    requires forall z :: z in nodes <==> z == i || (0 <= z < j && z != i && Equivalent(g, i, z))
    requires ClassSorted(current, nodes, i)
    ensures SameGraph(g, sorted)
    ensures |equivalentNodes| >= 1 && equivalentNodes[0] == i && AllBelow(equivalentNodes, g.numberOfTasks)
    ensures forall z :: z in equivalentNodes <==> z == i || (0 <= z < j + 1 && z != i && Equivalent(g, i, z))
    ensures KeptOrAscending(current, sorted) && ClassSorted(sorted, equivalentNodes, i)
  {
    equivalentNodes, sorted := nodes, current;
    if j != i && j !in seen {
      SameGraphKeeps(g, current, []);
      var equivalent, next := Compare(i, j, current);
      SameGraphTrans(g, current, next);
      ResortedKept(current, next, i, j);
      sorted := next;
      if equivalent {
        equivalentNodes := nodes + [j];
      }
      ClassSortedStep(current, next, nodes, equivalentNodes, i, j, equivalent);
    } else if j != i {
      NotEquivalentToSeen(g, i, j);
    }
  }

  /** The class stays sorted when the lists are kept or sorted, and j joins it only with both lists sorted. */
  lemma ClassSortedStep(current: TaskGraph, next: TaskGraph, nodes: seq<int>, after: seq<int>, i: int, j: int,
                        equivalent: bool)
    requires |current.parentsList| == |current.childrenList| == |next.parentsList| == |next.childrenList|
    requires 0 <= i < |current.parentsList| && 0 <= j < |current.parentsList| && AllBelow(nodes, |current.parentsList|)
    requires ClassSorted(current, nodes, i) && KeptOrAscending(current, next)
    requires after == if equivalent then nodes + [j] else nodes
    requires equivalent ==> ListsAscending(next, i) && ListsAscending(next, j)
    ensures AllBelow(after, |next.parentsList|) && ClassSorted(next, after, i)
  {
  }

  /** Reordering twice is reordering. */
  lemma SameGraphTrans(g: TaskGraph, h: TaskGraph, k: TaskGraph)
    requires SameGraph(g, h) && SameGraph(h, k)
    ensures SameGraph(g, k)
  {
  }

  /** A task whose class is covered below i is not interchangeable with an uncovered i. */
  lemma NotEquivalentToSeen(g: TaskGraph, i: int, j: int)
    requires g.Shaped() && 0 <= i < g.numberOfTasks && 0 <= j < g.numberOfTasks && !Covered(g, i, i)
    ensures Covered(g, i, j) ==> !Equivalent(g, i, j)
  {
    if Covered(g, i, j) {
      var y :| 0 <= y < i && Equivalent(g, y, j);
      EquivalentIsEquivalence(g, y, j, i);
      EquivalentIsEquivalence(g, i, j, i);
    }
  }

  /** Recording i's class for each of its members keeps every recorded class correct and covers up to i + 1. */
  lemma RecordClass(g: TaskGraph, before: seq<seq<int>>, after: seq<seq<int>>, seenBefore: set<int>, seen: set<int>,
                    cls: seq<int>, i: int)
    requires g.Shaped() && 0 <= i < g.numberOfTasks && |before| == |after| == g.numberOfTasks
    requires forall x :: x in seenBefore <==> 0 <= x < g.numberOfTasks && Covered(g, i, x)
    requires forall x :: 0 <= x < g.numberOfTasks && x in seenBefore ==> ClassRecorded(g, before, x)
    requires forall z :: z in cls <==> 0 <= z < g.numberOfTasks && Equivalent(g, i, z)
    requires forall z :: z in cls ==> z !in seenBefore
    requires forall z :: z in cls ==> after[z] == cls
    requires forall x :: 0 <= x < g.numberOfTasks && x !in cls ==> after[x] == before[x]
    requires seen == seenBefore + set k | 0 <= k < |cls| :: cls[k]
    ensures forall x :: x in seen <==> 0 <= x < g.numberOfTasks && Covered(g, i + 1, x)
    ensures forall x :: 0 <= x < g.numberOfTasks && x in seen ==> ClassRecorded(g, after, x)
  {
    forall x ensures x in seen <==> 0 <= x < g.numberOfTasks && Covered(g, i + 1, x) {
      if x in cls {
        assert Equivalent(g, i, x);
      }
      if 0 <= x < g.numberOfTasks && Covered(g, i + 1, x) && !Covered(g, i, x) {
        var y :| 0 <= y < i + 1 && Equivalent(g, y, x);
        assert y == i;
        assert x in cls;
        var k :| 0 <= k < |cls| && cls[k] == x;
      }
    }
    forall x | 0 <= x < g.numberOfTasks && x in seen ensures ClassRecorded(g, after, x) {
      if x in cls {
        forall z ensures z in after[x] <==> 0 <= z < g.numberOfTasks && Equivalent(g, x, z) {
          if 0 <= z < g.numberOfTasks {
            EquivalentIsEquivalence(g, i, x, z);
            EquivalentIsEquivalence(g, x, i, z);
          }
        }
      } else {
        assert x in seenBefore;
        assert ClassRecorded(g, before, x);
        forall z | z in after[x] ensures 0 <= z < g.numberOfTasks && after[z] == after[x] {
          assert z in before[x];
          assert Equivalent(g, x, z);
          var y :| 0 <= y < i && Equivalent(g, y, x);
          EquivalentIsEquivalence(g, y, x, z);
          assert z in seenBefore;
        }
      }
    }
  }
}
