/**
 * The operator-routing graph: n vertices, a forward adjacency structure
 * (adj, the header's adjList) and its transpose (rev, reverseAdjList).
 * Edits are described by value-level specification functions; the class
 * methods are proved to produce exactly those values and to keep the two
 * structures mirrored and the forward graph acyclic.
 */
module DirectedGraphs {
  import opened GraphTheory

  /** What an edit did (ADDED, REMOVED, REMOVED_REV, CYCLE in the header). */
  datatype ToggleEdgeResult = Added | Removed | RemovedRev | Cycle

  /** An edit's result together with both adjacency structures after it. */
  datatype Edit = Edit(result: ToggleEdgeResult, adj: Adjacency, rev: Adjacency)

  /** Both structures have n in-range lists, and rev is the transpose of adj. */
  ghost predicate WellFormed(adj: Adjacency, rev: Adjacency, n: nat) {
    && InRange(adj, n)
    && InRange(rev, n)
    && forall a, b :: 0 <= a < n && 0 <= b < n ==> (b in adj[a] <==> a in rev[b])
  }

  // ---------------------------------------------------------------------
  // Specifications of the edits

  /**
   * addEdge: append dest to adj[src] and src to rev[dest]; if the grown
   * forward graph has a cycle, undo both appends and report Cycle.
   */
  ghost function AddEdgeSpec(adj: Adjacency, rev: Adjacency, src: nat, dest: nat): Edit
    requires src < |adj| && dest < |rev|
  {
    var grown := adj[src := adj[src] + [dest]];
    if HasCycle(grown) then Edit(Cycle, adj, rev)
    else Edit(Added, grown, rev[dest := rev[dest] + [src]])
  }

  /** removeEdge: erase every dest from adj[src] and every src from rev[dest]. */
  function RemoveEdgeSpec(adj: Adjacency, rev: Adjacency, src: nat, dest: nat): (Adjacency, Adjacency)
    requires src < |adj| && dest < |rev|
  {
    (adj[src := Remove(adj[src], dest)], rev[dest := Remove(rev[dest], src)])
  }

  /**
   * toggleEdge: remove src -> dest if present, else remove dest -> src if
   * present, else add src -> dest.
   */
  ghost function ToggleEdgeSpec(adj: Adjacency, rev: Adjacency, src: nat, dest: nat): Edit
    requires src < |adj| && dest < |adj| && |rev| == |adj|
  {
    if dest in adj[src] then
      var (a, r) := RemoveEdgeSpec(adj, rev, src, dest); Edit(Removed, a, r)
    else if src in adj[dest] then
      var (a, r) := RemoveEdgeSpec(adj, rev, dest, src); Edit(RemovedRev, a, r)
    else
      AddEdgeSpec(adj, rev, src, dest)
  }

  /** Fewer edges cannot create a cycle. */
  lemma SubgraphAcyclic(adj: Adjacency, sub: Adjacency)
    requires forall a, b :: IsEdge(sub, a, b) ==> IsEdge(adj, a, b)
    requires !HasCycle(adj)
    ensures !HasCycle(sub)
  {
    if HasCycle(sub) {
      var p :| IsCycle(sub, p);
      assert IsCycle(adj, p);
    }
  }

  /**
   * addEdge keeps the mirror relation; it reports Cycle exactly when the new
   * edge closes a cycle and then leaves both structures as they were;
   * otherwise src -> dest is now an edge. An acyclic graph stays acyclic.
   */
  lemma AddEdgeSpecSound(adj: Adjacency, rev: Adjacency, n: nat, src: nat, dest: nat)
    requires WellFormed(adj, rev, n) && src < n && dest < n
    ensures var e := AddEdgeSpec(adj, rev, src, dest);
      && WellFormed(e.adj, e.rev, n)
      && (e.result == Added || e.result == Cycle)
      && (e.result == Cycle <==> HasCycle(adj[src := adj[src] + [dest]]))
      && (e.result == Cycle ==> e.adj == adj && e.rev == rev)
      && (e.result == Added ==> IsEdge(e.adj, src, dest) && !HasCycle(e.adj))
      && (!HasCycle(adj) ==> !HasCycle(e.adj))
  {
  }

  /**
   * removeEdge keeps the mirror relation, deletes the edge src -> dest,
   * keeps every other edge, and cannot create a cycle.
   */
  lemma RemoveEdgeSpecSound(adj: Adjacency, rev: Adjacency, n: nat, src: nat, dest: nat)
    requires WellFormed(adj, rev, n) && src < n && dest < n
    ensures var (a, r) := RemoveEdgeSpec(adj, rev, src, dest);
      && WellFormed(a, r, n)
      && !IsEdge(a, src, dest)
      && (forall x: nat, y: nat :: x < n && (x, y) != (src, dest) ==> (IsEdge(a, x, y) <==> IsEdge(adj, x, y)))
      && (!HasCycle(adj) ==> !HasCycle(a))
  {
    var (a, r) := RemoveEdgeSpec(adj, rev, src, dest);
    if !HasCycle(adj) {
      SubgraphAcyclic(adj, a);
    }
  }

  /**
   * toggleEdge in its three cases: Removed when src -> dest existed,
   * RemovedRev (only the reverse edge is erased) when dest -> src existed,
   * otherwise the outcome of addEdge. Every case keeps the mirror relation
   * and acyclicity.
   */
  lemma ToggleEdgeSpecSound(adj: Adjacency, rev: Adjacency, n: nat, src: nat, dest: nat)
    requires WellFormed(adj, rev, n) && src < n && dest < n
    ensures var e := ToggleEdgeSpec(adj, rev, src, dest);
      && WellFormed(e.adj, e.rev, n)
      && (!HasCycle(adj) ==> !HasCycle(e.adj))
      && (e.result == Removed <==> IsEdge(adj, src, dest))
      && (e.result == Removed ==> !IsEdge(e.adj, src, dest))
      && (e.result == RemovedRev <==> !IsEdge(adj, src, dest) && IsEdge(adj, dest, src))
      && (e.result == RemovedRev ==> !IsEdge(e.adj, dest, src) && !IsEdge(e.adj, src, dest))
      && (e.result == Added ==> IsEdge(e.adj, src, dest))
      && (e.result == Cycle ==> e.adj == adj && e.rev == rev)
  {
    if dest in adj[src] {
      RemoveEdgeSpecSound(adj, rev, n, src, dest);
    } else if src in adj[dest] {
      RemoveEdgeSpecSound(adj, rev, n, dest, src);
    } else {
      AddEdgeSpecSound(adj, rev, n, src, dest);
    }
  }

  /** Toggling an edge in and toggling it again restores both structures. */
  lemma ToggleTwiceRestores(adj: Adjacency, rev: Adjacency, n: nat, src: nat, dest: nat)
    requires WellFormed(adj, rev, n) && src < n && dest < n
    requires ToggleEdgeSpec(adj, rev, src, dest).result == Added
    ensures var e := ToggleEdgeSpec(adj, rev, src, dest);
      ToggleEdgeSpec(e.adj, e.rev, src, dest) == Edit(Removed, adj, rev)
  {
    var e := ToggleEdgeSpec(adj, rev, src, dest);
    assert dest !in adj[src] && src !in rev[dest];
    assert e.adj == adj[src := adj[src] + [dest]];
    RemoveAppended(adj[src], dest);
    RemoveAppended(rev[dest], src);
    assert e.adj[src := Remove(e.adj[src], dest)] == adj;
    assert e.rev[dest := Remove(e.rev[dest], src)] == rev;
  }

  /** A graph without edges has no cycle. */
  lemma NoEdgesAcyclic(adj: Adjacency)
    requires NoEdges(adj)
    ensures !HasCycle(adj)
  {
    var fin := Iota(|adj|);
    forall v | 0 <= v < |adj| ensures v in fin {
      assert fin[v] == v;
    }
    AcyclicWhenClosed(adj, fin);
  }

  // ---------------------------------------------------------------------
  // topologicalSort as a function: the same counts, queue and release
  // order as the method, so that its exact output can be named

  /**
   * The in-degree of every vertex: the first loop of topologicalSort. A
   * count is zero exactly when no edge points at the vertex.
   */
  function InitialDegrees(adj: Adjacency): (deg: seq<int>)
    ensures |deg| == |adj|
    ensures forall w :: 0 <= w < |adj| ==> deg[w] == Pending(adj, {}, w, |adj|)
    ensures forall w :: 0 <= w < |adj| ==> (deg[w] == 0 <==> forall a :: 0 <= a < |adj| ==> w !in adj[a])
  {
    InitialDegreeZeroIffNoSource(adj);
    seq(|adj|, w requires 0 <= w => Pending(adj, {}, w, |adj|))
  }

  /** Before anything is output, a vertex has no pending in-degree exactly when it has no source. */
  lemma InitialDegreeZeroIffNoSource(adj: Adjacency)
    ensures forall w :: 0 <= w < |adj| ==>
      (Pending(adj, {}, w, |adj|) == 0 <==> forall a :: 0 <= a < |adj| ==> w !in adj[a])
  {
    forall w | 0 <= w < |adj|
      ensures Pending(adj, {}, w, |adj|) == 0 <==> forall a :: 0 <= a < |adj| ==> w !in adj[a]
    {
      if Pending(adj, {}, w, |adj|) == 0 {
        PendingZero(adj, {}, w, |adj|);
      } else {
        var a := PendingPositive(adj, {}, w, |adj|);
      }
    }
  }

  /** The vertices below i whose count is zero, in increasing order: the second loop. */
  function ZeroSeq(deg: seq<int>, i: nat): (q: seq<nat>)
    requires i <= |deg|
    ensures forall k :: 0 <= k < |q| ==> q[k] < i && deg[q[k]] == 0
    ensures forall w :: 0 <= w < i && deg[w] == 0 ==> w in q
  {
    if i == 0 then []
    else ZeroSeq(deg, i - 1) + (if deg[i - 1] == 0 then [i - 1] else [])
  }

  predicate Ascending(s: seq<nat>) {
    forall a, b :: 0 <= a < b < |s| ==> s[a] < s[b]
  }

  /** The seed queue is in increasing order. */
  lemma {:induction false} ZeroSeqAscending(deg: seq<int>, i: nat)
    requires i <= |deg|
    ensures Ascending(ZeroSeq(deg, i))
  {
    if i > 0 {
      ZeroSeqAscending(deg, i - 1);
      var p := ZeroSeq(deg, i - 1);
      var q := ZeroSeq(deg, i);
      assert q == p + (if deg[i - 1] == 0 then [i - 1] else []);
      forall a, b | 0 <= a < b < |q| ensures q[a] < q[b] {
        assert q[a] == p[a];
        if b < |p| {
          assert q[b] == p[b] && p[a] < p[b];
        } else {
          assert q[b] == i - 1 && p[a] < i - 1;
        }
      }
    }
  }

  /** When every count is zero the seed queue is 0, 1, ..., i-1. */
  lemma {:induction false} ZeroSeqAllZero(deg: seq<int>, i: nat)
    requires i <= |deg| && forall w :: 0 <= w < i ==> deg[w] == 0
    ensures ZeroSeq(deg, i) == Iota(i)
  {
    if i > 0 {
      ZeroSeqAllZero(deg, i - 1);
      assert Iota(i) == Iota(i - 1) + [i - 1];
    }
  }

  /** The turn of the inner loop for the k-th target, unfolded. */
  lemma ReleaseAt(ts: seq<nat>, k: nat, deg: seq<int>, q: seq<nat>)
    requires k < |ts| && ts[k] < |deg|
    ensures var t := ts[k];
            var deg' := deg[t := deg[t] - 1];
            Release(ts[k..], deg, q) == Release(ts[k + 1..], deg', if deg'[t] == 0 then q + [t] else q)
  {
  }

  /**
   * The inner loop over the targets ts of the dequeued vertex: each one's
   * count drops by one, and it joins the back of the queue when it reaches
   * zero. (A target without a count, which a graph in range never has, is
   * passed over.)
   */
  function Release(ts: seq<nat>, deg: seq<int>, q: seq<nat>): (r: (seq<int>, seq<nat>))
    ensures |r.0| == |deg|
    decreases |ts|
  {
    if ts == [] then (deg, q)
    else if ts[0] >= |deg| then Release(ts[1..], deg, q)
    else
      var t := ts[0];
      var deg' := deg[t := deg[t] - 1];
      Release(ts[1..], deg', if deg'[t] == 0 then q + [t] else q)
  }

  /** Where the main loop stands: the in-degree counts, the queue and the output so far. */
  datatype KahnConfig = KahnConfig(deg: seq<int>, queue: seq<nat>, output: seq<nat>)

  /**
   * One turn of the main loop: dequeue the front, output it, release its
   * targets. With the queue empty the loop has stopped and nothing changes.
   */
  function KahnStep(adj: Adjacency, c: KahnConfig): (r: KahnConfig)
    ensures |r.output| <= |c.output| + 1
  {
    if c.queue == [] then c
    else
      var u := c.queue[0];
      var (deg', q') := Release(if u < |adj| then adj[u] else [], c.deg, c.queue[1..]);
      KahnConfig(deg', q', c.output + [u])
  }

  /** Where the main loop stands after k turns from c. */
  function KahnAfter(adj: Adjacency, c: KahnConfig, k: nat): (r: KahnConfig)
    ensures |r.output| <= |c.output| + k
    decreases k
  {
    if k == 0 then c else KahnStep(adj, KahnAfter(adj, c, k - 1))
  }

  /** Once the queue has run dry, further turns change nothing. */
  lemma {:induction false} KahnAfterStops(adj: Adjacency, c: KahnConfig, k: nat, m: nat)
    requires k <= m && KahnAfter(adj, c, k).queue == []
    ensures KahnAfter(adj, c, m) == KahnAfter(adj, c, k)
    decreases m
  {
    if m > k {
      KahnAfterStops(adj, c, k, m - 1);
    }
  }

  /**
   * A run from the seeded queue whose queue has run dry after |order| <= |adj|
   * turns, with order as its output, gives the list topologicalSort returns.
   */
  lemma KahnOrderReached(adj: Adjacency, c: KahnConfig, order: seq<nat>)
    requires c == KahnConfig(InitialDegrees(adj), ZeroSeq(InitialDegrees(adj), |adj|), [])
    requires |order| <= |adj| && KahnAfter(adj, c, |order|) == KahnConfig(KahnAfter(adj, c, |order|).deg, [], order)
    ensures KahnOrder(adj) == order
  {
    KahnAfterStops(adj, c, |order|, |adj|);
  }

  /**
   * The list topologicalSort returns. Each vertex is output at most once,
   * so |adj| turns are enough for the queue to run dry.
   */
  function KahnOrder(adj: Adjacency): (order: seq<nat>)
    ensures |order| <= |adj|
  {
    var deg := InitialDegrees(adj);
    KahnAfter(adj, KahnConfig(deg, ZeroSeq(deg, |adj|), []), |adj|).output
  }

  // ---------------------------------------------------------------------
  // The graph object

  class DirectedGraph {
    const n: nat
    var adj: Adjacency
    var rev: Adjacency

    /** Mirrored structures and an acyclic forward graph. */
    ghost predicate Valid()
      reads this
    {
      WellFormed(adj, rev, n) && !HasCycle(adj)
    }

    /** n vertices, both structures n empty lists. */
    constructor (vertices: nat)
      ensures n == vertices && adj == EmptyLists(vertices) && rev == EmptyLists(vertices)
      ensures Valid()
    {
      n := vertices;
      adj := EmptyLists(vertices);
      rev := EmptyLists(vertices);
      NoEdgesAcyclic(EmptyLists(vertices));
    }

    /** Empties every list; the graph keeps its n vertices. */
    method Clear()
      modifies this
      ensures adj == EmptyLists(n) && rev == EmptyLists(n)
      ensures Valid()
    {
      adj := EmptyLists(n);
      rev := EmptyLists(n);
      NoEdgesAcyclic(adj);
    }

    method AddEdge(src: nat, dest: nat) returns (r: ToggleEdgeResult)
      requires WellFormed(adj, rev, n) && src < n && dest < n
      modifies this
      ensures Edit(r, adj, rev) == AddEdgeSpec(old(adj), old(rev), src, dest)
      ensures WellFormed(adj, rev, n) && (old(Valid()) ==> Valid())
    {
      AddEdgeSpecSound(adj, rev, n, src, dest);
      adj := adj[src := adj[src] + [dest]];
      rev := rev[dest := rev[dest] + [src]];

      var cyclic := IsCyclic();
      if cyclic {
        adj := adj[src := adj[src][..|adj[src]| - 1]];
        rev := rev[dest := rev[dest][..|rev[dest]| - 1]];
        assert adj == old(adj) && rev == old(rev);
        return Cycle;
      }
      return Added;
    }

    method ToggleEdge(src: nat, dest: nat) returns (r: ToggleEdgeResult)
      requires WellFormed(adj, rev, n) && src < n && dest < n
      modifies this
      ensures Edit(r, adj, rev) == ToggleEdgeSpec(old(adj), old(rev), src, dest)
      ensures WellFormed(adj, rev, n) && (old(Valid()) ==> Valid())
    {
      ToggleEdgeSpecSound(adj, rev, n, src, dest);
      if HasEdge(src, dest) {
        RemoveEdge(src, dest);
        r := Removed;
      } else if HasEdge(dest, src) {
        RemoveEdge(dest, src);
        r := RemovedRev;
      } else {
        r := AddEdge(src, dest);
      }
    }

    method RemoveEdge(src: nat, dest: nat)
      requires WellFormed(adj, rev, n) && src < n && dest < n
      modifies this
      ensures (adj, rev) == RemoveEdgeSpec(old(adj), old(rev), src, dest)
      ensures WellFormed(adj, rev, n) && (old(Valid()) ==> Valid())
    {
      RemoveEdgeSpecSound(adj, rev, n, src, dest);
      adj := adj[src := Remove(adj[src], dest)];
      rev := rev[dest := Remove(rev[dest], src)];
    }

    // -------------------------------------------------------------------
    // Cycle detection: depth-first search with visited / recStack arrays

    /**
     * The search state: the vertices on recStack are exactly those of the
     * path gray, which repeats no vertex; the visited vertices off the
     * stack are exactly those of the finish order fin, and each finished
     * vertex points only to vertices finished before it.
     */
    ghost predicate DfsState(visited: seq<bool>, recStack: seq<bool>, gray: seq<nat>, fin: seq<nat>)
      reads this
    {
      && InRange(adj, n) && |visited| == n && |recStack| == n
      && IsPath(adj, gray) && Distinct(gray)
      && (forall u :: 0 <= u < n ==> (recStack[u] <==> u in gray))
      && (forall u :: 0 <= u < n && recStack[u] ==> visited[u])
      && (forall u :: 0 <= u < n ==> (visited[u] && !recStack[u] <==> u in fin))
      && Distinct(fin)
      && ClosedOrder(adj, fin)
    }

    /** Entering an unvisited vertex v pushes it onto the gray path. */
    lemma EnterVertex(visited: seq<bool>, recStack: seq<bool>, stack: seq<nat>, fin: seq<nat>, v: nat)
      requires DfsState(visited, recStack, stack, fin) && v < n && !visited[v]
      requires stack != [] ==> IsEdge(adj, stack[|stack| - 1], v)
      ensures DfsState(visited[v := true], recStack[v := true], stack + [v], fin)
    {
      var gray := stack + [v];
      forall k | 0 <= k < |gray| - 1 ensures IsEdge(adj, gray[k], gray[k + 1]) {
        if k < |stack| - 1 {
          assert gray[k] == stack[k] && gray[k + 1] == stack[k + 1];
        }
      }
      DistinctAppend(stack, v);
    }

    /** Leaving v once all its targets are finished: v is popped and finished. */
    lemma LeaveVertex(visited: seq<bool>, recStack: seq<bool>, stack: seq<nat>, fin: seq<nat>, v: nat)
      requires DfsState(visited, recStack, stack + [v], fin) && v < n && recStack[v]
      requires forall w :: w in adj[v] ==> w in fin
      ensures DfsState(visited, recStack[v := false], stack, fin + [v])
    {
      var gray := stack + [v];
      DistinctSplit(stack, [v]);
      forall k | 0 <= k < |stack| - 1 ensures IsEdge(adj, stack[k], stack[k + 1]) {
        assert stack[k] == gray[k] && stack[k + 1] == gray[k + 1];
      }
      DistinctAppend(fin, v);
      var fin' := fin + [v];
      forall i | 0 <= i < |fin'| ensures fin'[i] < |adj| && forall w :: w in adj[fin'[i]] ==> w in fin'[..i] {
        if i < |fin| {
          assert fin'[..i] == fin[..i];
        } else {
          assert fin'[..i] == fin;
        }
      }
    }

    /** The vertices the search has not reached yet. */
    ghost function Unvisited(visited: seq<bool>): set<nat> {
      set u: nat | u < |visited| && !visited[u]
    }

    /** No vertex visited in before is unvisited in after. */
    ghost predicate Grows(before: seq<bool>, after: seq<bool>) {
      |before| == |after| && forall u :: 0 <= u < |before| && before[u] ==> after[u]
    }

    /** Marking v visited (and unmarking nothing) shrinks the unvisited set. */
    lemma UnvisitedShrinks(before: seq<bool>, after: seq<bool>, v: nat)
      requires Grows(before, after) && v < |before| && !before[v] && after[v]
      ensures Unvisited(after) < Unvisited(before)
    {
      assert v in Unvisited(before) && v !in Unvisited(after);
    }

    /** The recursion stack is determined by the gray path. */
    lemma StackDetermined(v1: seq<bool>, r1: seq<bool>, v2: seq<bool>, r2: seq<bool>, gray: seq<nat>, f1: seq<nat>, f2: seq<nat>)
      requires DfsState(v1, r1, gray, f1) && DfsState(v2, r2, gray, f2)
      ensures r1 == r2
    {
      assert forall u :: 0 <= u < n ==> r1[u] == r2[u];
    }

    /**
     * isCyclicHelper: depth-first search from v. A true result means the
     * graph has a cycle; false means v and everything it reaches are
     * finished, and recStack is as it was.
     */
    method IsCyclicHelper(v: nat, visited: array<bool>, recStack: array<bool>, ghost stack: seq<nat>, ghost fin: seq<nat>)
      returns (cyc: bool, ghost fin': seq<nat>)
      requires visited != recStack && v < n
      requires DfsState(visited[..], recStack[..], stack, fin)
      requires !recStack[v]
      requires stack != [] ==> IsEdge(adj, stack[|stack| - 1], v)
      modifies visited, recStack
      decreases Unvisited(visited[..])
      ensures Grows(old(visited[..]), visited[..])
      ensures cyc ==> HasCycle(adj)
      ensures !cyc ==> DfsState(visited[..], recStack[..], stack, fin') && fin <= fin' && v in fin'
      ensures !cyc ==> recStack[..] == old(recStack[..])
    {
      fin' := fin;
      ghost var entry := visited[..];
      if !visited[v] {
        ghost var gray := stack + [v];
        EnterVertex(visited[..], recStack[..], stack, fin, v);
        visited[v] := true;
        recStack[v] := true;
        assert visited[..] == entry[v := true];
        assert recStack[..] == old(recStack[..])[v := true];

        for j := 0 to |adj[v]|
          invariant DfsState(visited[..], recStack[..], gray, fin')
          invariant fin <= fin' && visited[v] && recStack[v]
          invariant forall k :: 0 <= k < j ==> adj[v][k] in fin'
          invariant Grows(entry, visited[..])
        {
          var dest := adj[v][j];
          assert dest in adj[v];
          var found := false;
          if !visited[dest] {
            UnvisitedShrinks(entry, visited[..], v);
            ghost var prev := fin';
            found, fin' := IsCyclicHelper(dest, visited, recStack, gray, fin');
            assert forall k :: 0 <= k < j ==> adj[v][k] in prev;
          }
          if found {
            return true, fin';
          } else if recStack[dest] {
            ghost var k :| 0 <= k < |gray| && gray[k] == dest;
            CycleFromStack(adj, gray, dest, k);
            return true, fin';
          }
        }

        assert forall w :: w in adj[v] ==> w in fin';
        LeaveVertex(visited[..], recStack[..], stack, fin', v);
        fin' := fin' + [v];
      }
      recStack[v] := false;
      StackDetermined(old(visited[..]), old(recStack[..]), visited[..], recStack[..], stack, fin, fin');
      cyc := false;
    }

    /** isCyclic: true exactly when the forward graph has a cycle. */
    method IsCyclic() returns (cyc: bool)
      requires InRange(adj, n)
      ensures cyc <==> HasCycle(adj)
    {
      var visited := new bool[|adj|](_ => false);
      var recStack := new bool[|adj|](_ => false);
      ghost var fin: seq<nat> := [];

      for i := 0 to |adj|
        invariant DfsState(visited[..], recStack[..], [], fin)
        invariant forall u :: 0 <= u < i ==> visited[u]
      {
        var found;
        found, fin := IsCyclicHelper(i, visited, recStack, [], fin);
        if found {
          return true;
        }
      }
      AcyclicWhenClosed(adj, fin);
      return false;
    }

    // -------------------------------------------------------------------
    // Kahn's algorithm

    /** Every source of order[j] appears before it in order. */
    ghost predicate SourcesFirst(order: seq<nat>)
      reads this
      requires InRange(adj, n)
    {
      forall j, a :: 0 <= j < |order| && 0 <= a < n && order[j] in adj[a] ==> a in order[..j]
    }

    /** The first loop of topologicalSort: the in-degree of every vertex. */
    method InDegrees() returns (inDegree: array<int>)
      requires InRange(adj, n)
      ensures fresh(inDegree) && inDegree.Length == n
      ensures forall w :: 0 <= w < n ==> inDegree[w] == Pending(adj, {}, w, n)
      ensures inDegree[..] == InitialDegrees(adj)
    {
      inDegree := new int[|adj|](_ => 0);
      for u := 0 to |adj|
        invariant forall w :: 0 <= w < n ==> inDegree[w] == Pending(adj, {}, w, u)
      {
        for k := 0 to |adj[u]|
          invariant forall w :: 0 <= w < n ==> inDegree[w] == Pending(adj, {}, w, u) + Occ(adj[u][..k], w)
        {
          forall w | 0 <= w < n {
            OccStep(adj[u], k, w);
          }
          var dest := adj[u][k];
          assert dest in adj[u];
          inDegree[dest] := inDegree[dest] + 1;
        }
        assert adj[u][..|adj[u]|] == adj[u];
      }
      assert inDegree[..] == InitialDegrees(adj);
    }

    /**
     * The state of the main loop of topologicalSort: output followed by
     * queue is repetition-free, done is the set of output vertices, deg
     * holds for every other vertex the number of its incoming edges from
     * vertices not yet output, the queue holds exactly those whose count
     * is zero, and every source of an output vertex was output before it.
     */
    ghost predicate KahnState(deg: seq<int>, order: seq<nat>, q: seq<nat>, done: set<nat>)
      reads this
      requires InRange(adj, n)
    {
      && |deg| == n
      && Distinct(order + q) && (forall i :: 0 <= i < |order + q| ==> (order + q)[i] < n)
      && (forall v :: v in done <==> v in order)
      && (forall w :: 0 <= w < n && w !in done ==> deg[w] == Pending(adj, done, w, n))
      && (forall w :: 0 <= w < n && w !in done ==> (w in q <==> deg[w] == 0))
      && SourcesFirst(order)
    }

    /** KahnState after u has been output and its first k edges released. */
    ghost predicate Releasing(deg: seq<int>, order: seq<nat>, q: seq<nat>, done: set<nat>, u: nat, k: nat)
      reads this
      requires InRange(adj, n)
    {
      && |deg| == n && u < n && k <= |adj[u]|
      && |order| >= 1 && order[|order| - 1] == u && SourcesFirst(order)
      && (forall v :: v in done <==> v in order)
      && Distinct(order + q) && (forall i :: 0 <= i < |order + q| ==> (order + q)[i] < n)
      && (forall w :: 0 <= w < n && w !in done ==>
            deg[w] == Pending(adj, done, w, n) + Occ(adj[u], w) - Occ(adj[u][..k], w))
      && (forall w :: 0 <= w < n && w !in done ==> (w in q <==> deg[w] == 0))
    }

    /** The vertices not yet output. */
    ghost function NotDone(done: set<nat>): set<nat>
      reads this
    {
      set v: nat | v < n && v !in done
    }

    lemma NotDoneShrinks(done: set<nat>, u: nat)
      requires u < n && u !in done
      ensures NotDone(done + {u}) < NotDone(done)
    {
      assert u in NotDone(done) && u !in NotDone(done + {u});
    }

    /** The seeded queue and an empty output satisfy the loop state. */
    lemma KahnStart(deg: seq<int>, q: seq<nat>)
      requires InRange(adj, n) && |deg| == n
      requires forall w :: 0 <= w < n ==> deg[w] == Pending(adj, {}, w, n)
      requires Distinct(q) && forall k :: 0 <= k < |q| ==> q[k] < n
      requires forall w :: 0 <= w < n ==> (w in q <==> deg[w] == 0)
      ensures KahnState(deg, [], q, {})
    {
      assert [] + q == q;
    }

    /** Dequeuing the head u and outputting it starts the release of u's edges. */
    lemma KahnDequeue(deg: seq<int>, order: seq<nat>, q: seq<nat>, done: set<nat>)
      requires InRange(adj, n) && KahnState(deg, order, q, done) && q != []
      ensures q[0] < n && q[0] !in done
      ensures (order + [q[0]]) + q[1..] == order + q
      ensures Releasing(deg, order + [q[0]], q[1..], done + {q[0]}, q[0], 0)
    {
      var u := q[0];
      DistinctDequeue(order, q);
      assert (order + q)[|order|] == u;
      var order' := order + [u];
      assert order'[..|order'| - 1] == order;
      OutputStep(order', q[1..], done, u);
      assert adj[u][..0] == [];
    }

    /** Releasing the k-th edge out of u keeps the loop state. */
    lemma ReleaseStep(deg: seq<int>, order: seq<nat>, q: seq<nat>, done: set<nat>, u: nat, k: nat)
      requires InRange(adj, n) && Releasing(deg, order, q, done, u, k) && k < |adj[u]|
      ensures adj[u][k] < n && deg[adj[u][k]] >= 1
      ensures var dest := adj[u][k];
              var deg' := deg[dest := deg[dest] - 1];
              Releasing(deg', order, if deg'[dest] == 0 then q + [dest] else q, done, u, k + 1)
    {
      var dest := adj[u][k];
      assert dest in adj[u];
      DistinctSplit(order, q);
      NotYetOutput(order, u, dest);
      ReleaseCount(deg, done, u, k);
      ReleaseQueue(deg, order, q, done, dest);
    }

    /** Releasing the k-th edge out of u lowers its target's pending count by one. */
    lemma ReleaseCount(deg: seq<int>, done: set<nat>, u: nat, k: nat)
      requires InRange(adj, n) && |deg| == n && u < n && k < |adj[u]|
      requires forall w :: 0 <= w < n && w !in done ==>
                 deg[w] == Pending(adj, done, w, n) + Occ(adj[u], w) - Occ(adj[u][..k], w)
      ensures adj[u][k] < n && (adj[u][k] !in done ==> deg[adj[u][k]] >= 1)
      ensures var dest := adj[u][k];
              forall w :: 0 <= w < n && w !in done ==>
                deg[dest := deg[dest] - 1][w] == Pending(adj, done, w, n) + Occ(adj[u], w) - Occ(adj[u][..k + 1], w)
    {
      var dest := adj[u][k];
      assert dest in adj[u];
      forall w | 0 <= w < n {
        OccStep(adj[u], k, w);
      }
      OccPrefix(adj[u], k + 1, dest);
    }

    /** Enqueuing a target whose count reaches zero keeps the queue exactly the zero-count vertices. */
    lemma ReleaseQueue(deg: seq<int>, order: seq<nat>, q: seq<nat>, done: set<nat>, dest: nat)
      requires |deg| == n && dest < n && dest !in order && deg[dest] >= 1
      requires (forall v :: v in done <==> v in order)
      requires Distinct(order + q) && (forall i :: 0 <= i < |order + q| ==> (order + q)[i] < n)
      requires forall w :: 0 <= w < n && w !in done ==> (w in q <==> deg[w] == 0)
      ensures var deg' := deg[dest := deg[dest] - 1];
              var q' := if deg'[dest] == 0 then q + [dest] else q;
              && Distinct(order + q') && (forall i :: 0 <= i < |order + q'| ==> (order + q')[i] < n)
              && (forall w :: 0 <= w < n && w !in done ==> (w in q' <==> deg'[w] == 0))
    {
      var deg' := deg[dest := deg[dest] - 1];
      if deg'[dest] == 0 {
        assert dest !in q;
        DistinctAppend(order + q, dest);
        assert (order + q) + [dest] == order + (q + [dest]);
      }
    }

    /** With every edge out of u released the main loop's state holds again. */
    lemma ReleasedAll(deg: seq<int>, order: seq<nat>, q: seq<nat>, done: set<nat>, u: nat)
      requires InRange(adj, n) && u < n && Releasing(deg, order, q, done, u, |adj[u]|)
      ensures KahnState(deg, order, q, done)
    {
      assert adj[u][..|adj[u]|] == adj[u];
    }

    /**
     * When the queue runs dry the output is repetition-free with every
     * edge forward, and if some vertex was never output the graph has a
     * cycle.
     */
    lemma KahnDone(deg: seq<int>, order: seq<nat>, done: set<nat>)
      requires InRange(adj, n) && KahnState(deg, order, [], done)
      ensures Distinct(order) && forall i :: 0 <= i < |order| ==> order[i] < n
      ensures forall i, j :: 0 <= i < |order| && 0 <= j < |order| && order[j] in adj[order[i]] ==> i < j
      ensures !HasCycle(adj) ==> IsTopologicalOrder(adj, order)
    {
      assert order + [] == order;
      var stuck := NotDone(done);
      forall w | w in stuck ensures HasSourceIn(adj, stuck, w) {
        var a := PendingPositive(adj, done, w, n);
        assert a in stuck;
      }
      if w0 :| w0 in stuck {
        StuckImpliesCycle(adj, stuck, w0);
      } else {
        forall v | 0 <= v < n ensures v in order {
          assert v !in stuck;
        }
      }
      forall i, j | 0 <= i < |order| && 0 <= j < |order| && order[j] in adj[order[i]] ensures i < j {
        assert order[i] in order[..j];
      }
    }

    /**
     * The inner loop of topologicalSort, after u has been output: each
     * edge out of u takes one off its target's in-degree, and a target
     * whose in-degree reaches zero joins the back of the queue.
     */
    method ReleaseTargets(u: nat, inDegree: array<int>, q: seq<nat>, ghost order: seq<nat>, ghost done: set<nat>)
      returns (q': seq<nat>)
      requires InRange(adj, n) && inDegree.Length == n && Releasing(inDegree[..], order, q, done, u, 0)
      modifies inDegree
      ensures KahnState(inDegree[..], order, q', done)
      ensures adj[u] == [] ==> q' == q
      ensures (inDegree[..], q') == Release(adj[u], old(inDegree[..]), q)
    {
      q' := q;
      assert adj[u][0..] == adj[u];
      for k := 0 to |adj[u]|
        invariant Releasing(inDegree[..], order, q', done, u, k)
        invariant adj[u] == [] ==> q' == q
        invariant Release(adj[u][k..], inDegree[..], q') == Release(adj[u], old(inDegree[..]), q)
      {
        q' := ReleaseEdge(u, k, inDegree, q', order, done);
      }
      assert adj[u][|adj[u]|..] == [];
      ReleasedAll(inDegree[..], order, q', done, u);
    }

    /** One turn of the inner loop: decrement the k-th target of u, enqueue it at zero. */
    method ReleaseEdge(u: nat, k: nat, inDegree: array<int>, q: seq<nat>, ghost order: seq<nat>, ghost done: set<nat>)
      returns (q': seq<nat>)
      requires InRange(adj, n) && inDegree.Length == n && u < n && k < |adj[u]|
      requires Releasing(inDegree[..], order, q, done, u, k)
      modifies inDegree
      ensures Releasing(inDegree[..], order, q', done, u, k + 1)
      ensures Release(adj[u][k + 1..], inDegree[..], q') == Release(adj[u][k..], old(inDegree[..]), q)
    {
      ghost var deg := inDegree[..];
      ReleaseStep(deg, order, q, done, u, k);
      ReleaseAt(adj[u], k, deg, q);
      var dest := adj[u][k];
      inDegree[dest] := inDegree[dest] - 1;
      assert inDegree[..] == deg[dest := deg[dest] - 1];
      q' := if inDegree[dest] == 0 then q + [dest] else q;
    }

    /** The second loop of topologicalSort: the vertices of in-degree zero, in increasing order. */
    method ZeroInDegree(inDegree: array<int>) returns (q: seq<nat>)
      requires inDegree.Length == n
      ensures Distinct(q) && forall k :: 0 <= k < |q| ==> q[k] < n
      ensures forall w :: 0 <= w < n ==> (w in q <==> inDegree[w] == 0)
      ensures Ascending(q)
      ensures (forall w :: 0 <= w < n ==> inDegree[w] == 0) ==> q == Iota(n)
      ensures q == ZeroSeq(inDegree[..], n)
    {
      q := [];
      ghost var deg := inDegree[..];
      for i := 0 to n
        invariant q == ZeroSeq(deg, i)
      {
        if inDegree[i] == 0 {
          q := q + [i];
        }
      }
      ZeroSeqAscending(deg, n);
      if forall w :: 0 <= w < n ==> inDegree[w] == 0 {
        ZeroSeqAllZero(deg, n);
      }
    }

    /**
     * topologicalSort: a repetition-free list of vertices in which every
     * edge goes forward; on an acyclic graph it is a topological order of
     * all n vertices, and with no edges it is 0, 1, ..., n-1.
     */
    method TopologicalSort() returns (order: seq<nat>)
      requires InRange(adj, n)
      ensures Distinct(order) && forall i :: 0 <= i < |order| ==> order[i] < n
      ensures forall i, j :: 0 <= i < |order| && 0 <= j < |order| && order[j] in adj[order[i]] ==> i < j
      ensures !HasCycle(adj) ==> IsTopologicalOrder(adj, order)
      ensures NoEdges(adj) ==> order == Iota(n)
      ensures !HasCycle(adj) ==> |order| == n
      ensures order == KahnOrder(adj)
    {
      var inDegree, q := SeedQueue();
      ghost var c0 := KahnConfig(inDegree[..], q, []);
      ghost var done;
      order, done := KahnLoop(inDegree, q);
      KahnDone(inDegree[..], order, done);
      KahnOrderReached(adj, c0, order);
      if !HasCycle(adj) {
        TopologicalOrderLength(adj, order);
      }
    }

    /** The first two loops of topologicalSort: count the in-degrees, seed the queue. */
    method SeedQueue() returns (inDegree: array<int>, q: seq<nat>)
      requires InRange(adj, n)
      ensures fresh(inDegree) && inDegree.Length == n && KahnState(inDegree[..], [], q, {})
      ensures NoEdges(adj) ==> q == Iota(n)
      ensures KahnConfig(inDegree[..], q, []) == KahnConfig(InitialDegrees(adj), ZeroSeq(InitialDegrees(adj), n), [])
    {
      inDegree := InDegrees();
      if NoEdges(adj) {
        forall w | 0 <= w < n ensures inDegree[w] == 0 {
          PendingNoEdges(adj, {}, w, n);
        }
      }
      q := ZeroInDegree(inDegree);
      KahnStart(inDegree[..], q);
    }

    /**
     * The while loop of topologicalSort, run from the seeded queue: it stops
     * with the queue empty and every output vertex counted as done, after
     * |order| turns of the functional loop.
     */
    method KahnLoop(inDegree: array<int>, q0: seq<nat>) returns (order: seq<nat>, ghost done: set<nat>)
      requires InRange(adj, n) && inDegree.Length == n && KahnState(inDegree[..], [], q0, {})
      requires NoEdges(adj) ==> q0 == Iota(n)
      modifies inDegree
      ensures KahnState(inDegree[..], order, [], done) && |order| <= n
      ensures NoEdges(adj) ==> order == Iota(n)
      ensures KahnConfig(inDegree[..], [], order) == KahnAfter(adj, KahnConfig(old(inDegree[..]), q0, []), |order|)
    {
      var q := q0;
      order := [];
      done := {};
      ghost var c0 := KahnConfig(inDegree[..], q0, []);
      assert order + q == q;
      while q != []
        invariant KahnState(inDegree[..], order, q, done)
        invariant NoEdges(adj) ==> order + q == Iota(n)
        invariant KahnConfig(inDegree[..], q, order) == KahnAfter(adj, c0, |order|)
        decreases NotDone(done)
      {
        q, order, done := OutputNext(inDegree, q, order, done, c0);
      }
      KahnRoom(inDegree[..], order, q, done);
      assert order + q == order;
    }

    /** The queue and the output never hold more than n vertices between them. */
    lemma KahnRoom(deg: seq<int>, order: seq<nat>, q: seq<nat>, done: set<nat>)
      requires InRange(adj, n) && KahnState(deg, order, q, done)
      ensures |order| + |q| <= n
    {
      DistinctBounded(order + q, n);
    }

    /** One turn of the main loop: dequeue the front, output it, release its targets. */
    method OutputNext(inDegree: array<int>, q: seq<nat>, order: seq<nat>, ghost done: set<nat>, ghost c0: KahnConfig)
      returns (q': seq<nat>, order': seq<nat>, ghost done': set<nat>)
      requires InRange(adj, n) && inDegree.Length == n && KahnState(inDegree[..], order, q, done) && q != []
      requires KahnConfig(inDegree[..], q, order) == KahnAfter(adj, c0, |order|)
      modifies inDegree
      ensures q[0] < n && KahnState(inDegree[..], order', q', done')
      ensures order' == order + [q[0]] && NotDone(done') < NotDone(done)
      ensures KahnConfig(inDegree[..], q', order') == KahnAfter(adj, c0, |order'|)
      ensures NoEdges(adj) ==> order' + q' == order + q
    {
      ghost var c := KahnConfig(inDegree[..], q, order);
      assert KahnAfter(adj, c0, |order| + 1) == KahnStep(adj, c);
      KahnDequeue(inDegree[..], order, q, done);
      NotDoneShrinks(done, q[0]);
      var u := q[0];
      order' := order + [u];
      done' := done + {u};
      q' := ReleaseTargets(u, inDegree, q[1..], order', done');
    }

    /**
     * Moving u (dequeued with in-degree 0) into the output keeps every
     * source before its target, and takes u's own edges off the count.
     */
    lemma OutputStep(order: seq<nat>, q: seq<nat>, before: set<nat>, u: nat)
      requires InRange(adj, n) && |order| >= 1 && order[|order| - 1] == u && u < n && u !in before
      requires forall v :: v in before <==> v in order[..|order| - 1]
      requires Pending(adj, before, u, n) == 0
      requires SourcesFirst(order[..|order| - 1])
      ensures SourcesFirst(order)
      ensures forall w :: Pending(adj, before, w, n) == Pending(adj, before + {u}, w, n) + Occ(adj[u], w)
    {
      PendingZero(adj, before, u, n);
      forall w {
        PendingOutput(adj, before, u, w, n);
      }
      forall j | 0 <= j < |order| - 1 ensures order[..j] == order[..|order| - 1][..j] {
      }
    }

    /** A target of the vertex just output has not been output yet. */
    lemma NotYetOutput(order: seq<nat>, u: nat, dest: nat)
      requires InRange(adj, n) && SourcesFirst(order) && Distinct(order)
      requires |order| >= 1 && order[|order| - 1] == u && u < n && dest in adj[u]
      ensures dest !in order
    {
      assert forall m :: 0 <= m < |order| - 1 ==> order[m] != u;
      if dest in order {
        assert false;
      }
    }

    // -------------------------------------------------------------------
    // Queries

    /** hasEdge agrees with the reverse structure. */
    function HasEdge(src: nat, dest: nat): (b: bool)
      reads this
      requires WellFormed(adj, rev, n) && src < n && dest < n
      ensures b <==> src in rev[dest]
    {
      dest in adj[src]
    }

    /** hasReverseEdge agrees with the forward structure. */
    function HasReverseEdge(src: nat, dest: nat): (b: bool)
      reads this
      requires WellFormed(adj, rev, n) && src < n && dest < n
      ensures b <==> src in adj[dest]
    {
      dest in rev[src]
    }

    /** The consumers of v: exactly the vertices whose reverse list holds v. */
    function GetAdjacentVertices(v: nat): (r: seq<nat>)
      reads this
      requires WellFormed(adj, rev, n) && v < n
      ensures forall w: nat :: w in r <==> w < n && v in rev[w]
    {
      adj[v]
    }

    /** The modulators of v: exactly the sources of edges into v. */
    function GetAdjacentVerticesRev(v: nat): (r: seq<nat>)
      reads this
      requires WellFormed(adj, rev, n) && v < n
      ensures forall u: nat :: u in r <==> u < n && v in adj[u]
    {
      rev[v]
    }
  }
}
