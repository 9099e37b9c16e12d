/**
 * Value-level definitions about the modulation-routing graph: adjacency
 * lists over vertex ids 0..n-1, paths and cycles, order-preserving removal
 * from a list, occurrence counts (for in-degrees) and topological orders.
 * The class in DirectedGraphs and the Spider module state their contracts
 * in these terms.
 */
module GraphTheory {

  /** adj[v] is the list of vertices v points to (a list may repeat a vertex). */
  type Adjacency = seq<seq<nat>>

  /** n lists, every entry a vertex id below n. */
  predicate InRange(adj: Adjacency, n: nat) {
    |adj| == n && forall a, b :: 0 <= a < n && b in adj[a] ==> b < n
  }

  /** n empty lists: the graph with no edges. */
  function EmptyLists(n: nat): (adj: Adjacency)
    ensures |adj| == n && InRange(adj, n)
    ensures forall v :: 0 <= v < n ==> adj[v] == []
  {
    seq(n, _ => [])
  }

  predicate NoEdges(adj: Adjacency) {
    forall v :: 0 <= v < |adj| ==> adj[v] == []
  }

  predicate IsEdge(adj: Adjacency, a: nat, b: nat) {
    a < |adj| && b in adj[a]
  }

  /** Consecutive vertices of p are joined by edges. */
  ghost predicate IsPath(adj: Adjacency, p: seq<nat>) {
    forall k :: 0 <= k < |p| - 1 ==> IsEdge(adj, p[k], p[k + 1])
  }

  /** A path of at least one edge that ends where it starts. */
  ghost predicate IsCycle(adj: Adjacency, p: seq<nat>) {
    |p| >= 2 && p[0] == p[|p| - 1] && IsPath(adj, p)
  }

  ghost predicate HasCycle(adj: Adjacency) {
    exists p :: IsCycle(adj, p)
  }

  predicate Distinct(s: seq<nat>) {
    forall i, j :: 0 <= i < j < |s| ==> s[i] != s[j]
  }

  /** Both halves of a repetition-free concatenation are repetition-free and share nothing. */
  lemma DistinctSplit(s: seq<nat>, t: seq<nat>)
    requires Distinct(s + t)
    ensures Distinct(s) && Distinct(t)
    ensures forall x :: x in s ==> x !in t
  {
    forall i, j | 0 <= i < j < |s| ensures s[i] != s[j] {
      assert s[i] == (s + t)[i] && s[j] == (s + t)[j];
    }
    forall i, j | 0 <= i < j < |t| ensures t[i] != t[j] {
      assert t[i] == (s + t)[|s| + i] && t[j] == (s + t)[|s| + j];
    }
    forall i, j | 0 <= i < |s| && 0 <= j < |t| ensures s[i] != t[j] {
      assert s[i] == (s + t)[i] && t[j] == (s + t)[|s| + j];
    }
  }

  /** Appending a new element keeps a list repetition-free. */
  lemma DistinctAppend(s: seq<nat>, x: nat)
    requires Distinct(s) && x !in s
    ensures Distinct(s + [x])
  {
  }

  /** Moving the head of the queue q to the end of the output. */
  lemma DistinctDequeue(order: seq<nat>, q: seq<nat>)
    requires Distinct(order + q) && q != []
    ensures q[0] !in order
    ensures (order + [q[0]]) + q[1..] == order + q
    ensures forall w :: w in q[1..] <==> w in q && w != q[0]
  {
    DistinctSplit(order, q);
    assert q == [q[0]] + q[1..];
    forall w | w in q[1..] ensures w != q[0] {
      var j :| 0 <= j < |q[1..]| && q[1..][j] == w;
      assert q[j + 1] == w;
    }
  }

  /** 0, 1, ..., n-1 */
  function Iota(n: nat): (s: seq<nat>)
    ensures |s| == n && forall i :: 0 <= i < n ==> s[i] == i
  {
    seq(n, i => i)
  }

  /**
   * order lists every vertex exactly once and, for every edge a -> b,
   * a comes before b.
   */
  ghost predicate IsTopologicalOrder(adj: Adjacency, order: seq<nat>) {
    && Distinct(order)
    && (forall i :: 0 <= i < |order| ==> order[i] < |adj|)
    && (forall v :: 0 <= v < |adj| ==> v in order)
    && (forall i, j :: 0 <= i < |order| && 0 <= j < |order| && order[j] in adj[order[i]] ==> i < j)
  }

  // ---------------------------------------------------------------------
  // Order-preserving removal (erase-remove idiom)

  /** s without any occurrence of x, the other entries in their order. */
  function Remove(s: seq<nat>, x: nat): (r: seq<nat>)
    ensures x !in r
    ensures forall y :: y in r <==> y in s && y != x
    ensures |r| <= |s|
  {
    if s == [] then []
    else (if s[0] == x then [] else [s[0]]) + Remove(s[1..], x)
  }

  /** Removal distributes over concatenation, so relative order is kept. */
  lemma {:induction false} RemoveConcat(s: seq<nat>, t: seq<nat>, x: nat)
    ensures Remove(s + t, x) == Remove(s, x) + Remove(t, x)
  {
    if s == [] {
      assert s + t == t;
    } else {
      var head := if s[0] == x then [] else [s[0]];
      assert (s + t)[0] == s[0];
      assert (s + t)[1..] == s[1..] + t;
      RemoveConcat(s[1..], t, x);
      calc {
        Remove(s + t, x);
        head + Remove(s[1..] + t, x);
        head + (Remove(s[1..], x) + Remove(t, x));
        (head + Remove(s[1..], x)) + Remove(t, x);
        Remove(s, x) + Remove(t, x);
      }
    }
  }

  /** Removing an absent value changes nothing. */
  lemma {:induction false} RemoveAbsent(s: seq<nat>, x: nat)
    requires x !in s
    ensures Remove(s, x) == s
  {
    if s != [] {
      assert s[0] != x;
      assert x !in s[1..];
      RemoveAbsent(s[1..], x);
      assert s == [s[0]] + s[1..];
    }
  }

  /** Appending a fresh x and removing x gives back the list. */
  lemma RemoveAppended(s: seq<nat>, x: nat)
    requires x !in s
    ensures Remove(s + [x], x) == s
  {
    RemoveConcat(s, [x], x);
    RemoveAbsent(s, x);
    assert Remove([x], x) == [] + Remove([], x);
  }

  // ---------------------------------------------------------------------
  // Occurrence counts and pending in-degrees

  /** Number of occurrences of x in s, counted from the back. */
  function Occ(s: seq<nat>, x: nat): (c: nat)
    ensures c <= |s|
    ensures c == 0 <==> x !in s
  {
    if s == [] then 0
    else Occ(s[..|s| - 1], x) + (if s[|s| - 1] == x then 1 else 0)
  }

  lemma OccStep(s: seq<nat>, j: nat, x: nat)
    requires j < |s|
    ensures Occ(s[..j + 1], x) == Occ(s[..j], x) + (if s[j] == x then 1 else 0)
  {
    assert s[..j + 1][..j] == s[..j];
  }

  lemma {:induction false} OccPrefix(s: seq<nat>, j: nat, x: nat)
    requires j <= |s|
    ensures Occ(s[..j], x) <= Occ(s, x)
  {
    if j < |s| {
      assert s[..|s|][..|s| - 1] == s[..|s| - 1];
      assert s[..|s| - 1][..j] == s[..j];
      OccPrefix(s[..|s| - 1], j, x);
    } else {
      assert s[..j] == s;
    }
  }

  /**
   * The number of edges into w from sources below k that are not in done:
   * the in-degree of w once every vertex of done has been output.
   */
  function Pending(adj: Adjacency, done: set<nat>, w: nat, k: nat): nat
    requires k <= |adj|
  {
    if k == 0 then 0
    else Pending(adj, done, w, k - 1) + (if k - 1 in done then 0 else Occ(adj[k - 1], w))
  }

  /** Outputting u (below k) removes exactly u's edges into w from the count. */
  lemma {:induction false} PendingOutput(adj: Adjacency, done: set<nat>, u: nat, w: nat, k: nat)
    requires k <= |adj| && u !in done
    ensures Pending(adj, done, w, k) == Pending(adj, done + {u}, w, k) + (if u < k then Occ(adj[u], w) else 0)
  {
    if k > 0 {
      PendingOutput(adj, done, u, w, k - 1);
    }
  }

  /** No pending edge into w: every source of w below k is in done. */
  lemma {:induction false} PendingZero(adj: Adjacency, done: set<nat>, w: nat, k: nat)
    requires k <= |adj| && Pending(adj, done, w, k) == 0
    ensures forall a :: 0 <= a < k && w in adj[a] ==> a in done
  {
    if k > 0 {
      PendingZero(adj, done, w, k - 1);
    }
  }

  /** A pending edge into w comes from some source below k outside done. */
  lemma {:induction false} PendingPositive(adj: Adjacency, done: set<nat>, w: nat, k: nat) returns (a: nat)
    requires k <= |adj| && Pending(adj, done, w, k) > 0
    ensures a < k && a !in done && w in adj[a]
  {
    if k - 1 !in done && w in adj[k - 1] {
      a := k - 1;
    } else {
      a := PendingPositive(adj, done, w, k - 1);
    }
  }

  /** With no edges nothing is ever pending. */
  lemma {:induction false} PendingNoEdges(adj: Adjacency, done: set<nat>, w: nat, k: nat)
    requires k <= |adj| && NoEdges(adj)
    ensures Pending(adj, done, w, k) == 0
  {
    if k > 0 {
      PendingNoEdges(adj, done, w, k - 1);
    }
  }

  // ---------------------------------------------------------------------
  // Counting: a list of distinct ids below n has at most n entries

  function Elements(s: seq<nat>): set<nat> {
    set x | x in s
  }

  function Below(n: nat): (b: set<nat>)
    ensures forall x: nat :: x in b <==> x < n
  {
    if n == 0 then {} else Below(n - 1) + {n - 1}
  }

  lemma {:induction false} DistinctElements(s: seq<nat>)
    requires Distinct(s)
    ensures |Elements(s)| == |s|
  {
    if s != [] {
      var t := s[..|s| - 1];
      assert Distinct(t);
      DistinctElements(t);
      assert Elements(s) == Elements(t) + {s[|s| - 1]};
      assert s[|s| - 1] !in Elements(t);
    }
  }

  lemma BelowSize(n: nat)
    ensures |Below(n)| == n
  {
    if n > 0 {
      BelowSize(n - 1);
      assert n - 1 !in Below(n - 1);
    }
  }

  lemma SubsetSize(a: set<nat>, b: set<nat>)
    requires a <= b
    ensures |a| <= |b|
  {
    assert b == a + (b - a);
  }

  /** Pigeonhole: distinct ids below n number at most n. */
  lemma DistinctBounded(s: seq<nat>, n: nat)
    requires Distinct(s) && forall x :: x in s ==> x < n
    ensures |s| <= n
  {
    DistinctElements(s);
    BelowSize(n);
    SubsetSize(Elements(s), Below(n));
  }

  /** A topological order of an n-vertex graph has exactly n entries. */
  lemma TopologicalOrderLength(adj: Adjacency, order: seq<nat>)
    requires IsTopologicalOrder(adj, order)
    ensures |order| == |adj|
  {
    DistinctElements(order);
    BelowSize(|adj|);
    assert Elements(order) == Below(|adj|);
  }

  // ---------------------------------------------------------------------
  // Cycles

  /** A path p whose first vertex is fin[i] ends among fin[..i], if fin is closed. */
  ghost predicate ClosedOrder(adj: Adjacency, fin: seq<nat>) {
    forall i :: 0 <= i < |fin| ==> fin[i] < |adj| && forall w :: w in adj[fin[i]] ==> w in fin[..i]
  }

  lemma {:induction false} PathDescends(adj: Adjacency, fin: seq<nat>, p: seq<nat>, i: nat)
    requires ClosedOrder(adj, fin) && IsPath(adj, p) && |p| >= 2
    requires i < |fin| && p[0] == fin[i]
    ensures p[|p| - 1] in fin[..i]
  {
    assert IsEdge(adj, p[0], p[1]);
    assert p[1] in fin[..i];
    var j :| 0 <= j < i && fin[j] == p[1];
    if |p| > 2 {
      var q := p[1..];
      assert IsPath(adj, q) by {
        forall k | 0 <= k < |q| - 1 ensures IsEdge(adj, q[k], q[k + 1]) {
          assert IsEdge(adj, p[k + 1], p[k + 2]);
        }
      }
      PathDescends(adj, fin, q, j);
      assert fin[..j] == fin[..i][..j];
    }
  }

  /**
   * If every vertex has been finished and each finished vertex only points to
   * vertices finished before it, the graph has no cycle.
   */
  lemma AcyclicWhenClosed(adj: Adjacency, fin: seq<nat>)
    requires ClosedOrder(adj, fin) && Distinct(fin)
    requires forall v :: 0 <= v < |adj| ==> v in fin
    ensures !HasCycle(adj)
  {
    if HasCycle(adj) {
      var p :| IsCycle(adj, p);
      assert IsEdge(adj, p[0], p[1]);
      assert p[0] in fin;
      var i :| 0 <= i < |fin| && fin[i] == p[0];
      PathDescends(adj, fin, p, i);
      assert false;
    }
  }

  /** The stack s ends with an edge back to its own entry s[k]: a cycle. */
  lemma CycleFromStack(adj: Adjacency, s: seq<nat>, dest: nat, k: nat)
    requires IsPath(adj, s) && |s| >= 1 && IsEdge(adj, s[|s| - 1], dest)
    requires k < |s| && s[k] == dest
    ensures HasCycle(adj)
  {
    var p := s[k..] + [dest];
    forall m | 0 <= m < |p| - 1 ensures IsEdge(adj, p[m], p[m + 1]) {
      if m < |s| - k - 1 {
        assert p[m] == s[k + m] && p[m + 1] == s[k + m + 1];
      }
    }
    assert IsCycle(adj, p);
  }

  /** A repeated vertex on a path closes a cycle. */
  lemma CycleFromRepeat(adj: Adjacency, p: seq<nat>, i: nat, j: nat)
    requires IsPath(adj, p) && i < j < |p| && p[i] == p[j]
    ensures HasCycle(adj)
  {
    var c := p[i..j + 1];
    forall m | 0 <= m < |c| - 1 ensures IsEdge(adj, c[m], c[m + 1]) {
      assert c[m] == p[i + m] && c[m + 1] == p[i + m + 1];
    }
    assert IsCycle(adj, c);
  }

  /** Some edge into w starts inside s. */
  ghost predicate HasSourceIn(adj: Adjacency, s: set<nat>, w: nat) {
    exists a :: a in s && IsEdge(adj, a, w)
  }

  /** Walking backwards from w0 inside stuck for L vertices. */
  lemma {:induction false} BackChain(adj: Adjacency, stuck: set<nat>, w0: nat, L: nat) returns (p: seq<nat>)
    requires L >= 1 && w0 in stuck
    requires forall w {:trigger HasSourceIn(adj, stuck, w)} :: w in stuck ==> HasSourceIn(adj, stuck, w)
    ensures |p| == L && p[L - 1] == w0 && IsPath(adj, p)
    ensures forall m :: 0 <= m < |p| ==> p[m] in stuck
  {
    if L == 1 {
      p := [w0];
    } else {
      var q := BackChain(adj, stuck, w0, L - 1);
      assert HasSourceIn(adj, stuck, q[0]);
      var a :| a in stuck && IsEdge(adj, a, q[0]);
      p := [a] + q;
      forall m | 0 <= m < |p| - 1 ensures IsEdge(adj, p[m], p[m + 1]) {
        if m > 0 {
          assert p[m] == q[m - 1] && p[m + 1] == q[m];
        }
      }
      forall m | 0 <= m < |p| ensures p[m] in stuck {
        if m > 0 {
          assert p[m] == q[m - 1];
        }
      }
    }
  }

  /**
   * A non-empty set of vertices each of which has a predecessor in the set
   * forces a cycle (the vertices Kahn's algorithm can never output).
   */
  lemma StuckImpliesCycle(adj: Adjacency, stuck: set<nat>, w0: nat)
    requires w0 in stuck
    requires forall w {:trigger HasSourceIn(adj, stuck, w)} :: w in stuck ==> HasSourceIn(adj, stuck, w)
    ensures HasCycle(adj)
  {
    var p := BackChain(adj, stuck, w0, |adj| + 2);
    var q := p[..|adj| + 1];
    assert forall x :: x in q ==> x < |adj| by {
      forall x | x in q ensures x < |adj| {
        var m :| 0 <= m < |q| && q[m] == x;
        assert IsEdge(adj, p[m], p[m + 1]);
      }
    }
    if Distinct(q) {
      DistinctBounded(q, |adj|);
      assert false;
    }
    var i, j :| 0 <= i < j < |q| && q[i] == q[j];
    CycleFromRepeat(adj, p, i, j);
  }

  /** The index order is a topological order of an edge-free graph. */
  lemma IotaIsTopologicalOrder(adj: Adjacency)
    requires NoEdges(adj)
    ensures IsTopologicalOrder(adj, Iota(|adj|))
  {
    var s := Iota(|adj|);
    forall v | 0 <= v < |adj| ensures v in s {
      assert s[v] == v;
    }
  }
}
