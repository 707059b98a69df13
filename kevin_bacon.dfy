/**
 * The Kevin Bacon game: breadth-first search over a graph of actors, the
 * histogram of the distances it finds, and the reconstruction of a path of
 * actors (with the movies that link them) from the search's parent map.
 */
module KevinBacon {
  import opened Graphs
  import opened Tally

  // ---------------------------------------------------------------------
  // The FIFO queue.

  /** Python's list.remove: drops the first occurrence of x. */
  function RemoveFirst<T(==)>(s: seq<T>, x: T): (r: seq<T>)
    requires x in s
    ensures |r| == |s| - 1
    ensures multiset(r) == multiset(s) - multiset{x}
    ensures s[0] == x ==> r == s[1..]
  {
    assert s == [s[0]] + s[1..];
    if s[0] == x then s[1..]
    else [s[0]] + RemoveFirst(s[1..], x)
  }

  /** A first-in first-out queue backed by a list. */
  class Queue<T(==)> {
    var items: seq<T>

    constructor ()
      ensures items == []
    {
      items := [];
    }

    /** The number of items held. */
    function Len(): (n: nat)
      reads this
      ensures n == |items|
    {
      |items|
    }

    /** Adds x at the back. */
    method Push(x: T)
      modifies this
      ensures items == old(items) + [x]
    {
      items := items + [x];
    }

    /** Removes and returns the least recently added item. */
    method Pop() returns (x: T)
      requires |items| > 0
      modifies this
      ensures x == old(items)[0]
      ensures items == old(items)[1..]
    {
      x := items[0];
      items := items[1..];
    }

    /** Removes, one by one, each item of a copy of the list. */
    method Clear()
      modifies this
      ensures items == []
    {
      var copy := items;
      var i := 0;
      while i < |copy|
        invariant 0 <= i <= |copy|
        invariant items == copy[i..]
      {
        items := RemoveFirst(items, copy[i]);
        i := i + 1;
      }
    }
  }

  /** Items leave the queue in the order they arrived: pushing s and then popping everything gives back s. */
  method QueueOrder<T(==)>(s: seq<T>) returns (out: seq<T>)
    ensures out == s
  {
    var q := new Queue<T>();
    var i := 0;
    while i < |s|
      invariant 0 <= i <= |s| && q.items == s[..i]
    {
      q.Push(s[i]);
      i := i + 1;
    }
    assert q.items == s;
    out := [];
    while q.Len() > 0
      invariant out + q.items == s
      decreases |q.items|
    {
      var x := q.Pop();
      out := out + [x];
    }
  }

  // ---------------------------------------------------------------------
  // Breadth-first search.

  /** A distance; None stands for float("inf"), a node not reached. */
  type Dist = Option<nat>

  /** The maps have one entry per node; start is at 0 with no parent; a node other than start has a parent exactly when it was reached. */
  ghost predicate Shape<Node>(graph: Graph<Node>, start: Node, dist: map<Node, Dist>, parent: map<Node, Option<Node>>)
  {
    && start in graph
    && dist.Keys == graph.Keys
    && parent.Keys == graph.Keys
    && dist[start] == Some(0)
    && parent[start] == None
    && (forall n :: n in graph && n != start ==> (dist[n].None? <==> parent[n].None?))
  }

  /** Every parent link is an edge from a reached node one step closer to the start. */
  ghost predicate Links<Node>(graph: Graph<Node>, dist: map<Node, Dist>, parent: map<Node, Option<Node>>)
  {
    forall n :: n in parent && parent[n].Some? ==>
      && parent[n].value in graph
      && n in graph[parent[n].value]
      && n in dist && parent[n].value in dist
      && dist[parent[n].value].Some?
      && dist[n] == Some(dist[parent[n].value].value + 1)
  }

  /** Every neighbour of n is reached, at most one step further from the start than n. */
  ghost predicate Expanded<Node>(graph: Graph<Node>, dist: map<Node, Dist>, n: Node)
    requires n in graph && n in dist && dist[n].Some?
  {
    forall m :: m in graph[n] ==> m in dist && dist[m].Some? && dist[m].value <= dist[n].value + 1
  }

  /** What breadth-first search returns: a shortest-path tree rooted at start. */
  ghost predicate BfsTree<Node>(graph: Graph<Node>, start: Node, dist: map<Node, Dist>, parent: map<Node, Option<Node>>)
  {
    && Shape(graph, start, dist, parent)
    && Links(graph, dist, parent)
    && (forall n :: n in graph && dist[n].Some? ==> Expanded(graph, dist, n))
  }

  /** The nodes with a finite distance. */
  ghost function ReachedSet<Node>(dist: map<Node, Dist>): set<Node>
  {
    set n | n in dist && dist[n].Some?
  }

  /** The queue holds distinct reached nodes. */
  ghost predicate QueueOk<Node>(graph: Graph<Node>, dist: map<Node, Dist>, q: seq<Node>)
  {
    && (forall i :: 0 <= i < |q| ==> q[i] in graph && q[i] in dist && dist[q[i]].Some?)
    && (forall i, j :: 0 <= i < j < |q| ==> q[i] != q[j])
  }

  /** Queued distances never decrease from front to back and span at most one level. */
  ghost predicate Levels<Node>(graph: Graph<Node>, dist: map<Node, Dist>, q: seq<Node>)
  {
    && QueueOk(graph, dist, q)
    && (forall i, j :: 0 <= i < j < |q| ==> dist[q[i]].value <= dist[q[j]].value)
    && (forall i :: 0 <= i < |q| ==> dist[q[i]].value <= dist[q[0]].value + 1)
  }

  /** While u, at distance du, is being expanded: the queue holds distinct nodes at distance du or du + 1, in order. */
  ghost predicate Band<Node>(graph: Graph<Node>, dist: map<Node, Dist>, q: seq<Node>, du: nat)
  {
    && QueueOk(graph, dist, q)
    && (forall i, j :: 0 <= i < j < |q| ==> dist[q[i]].value <= dist[q[j]].value)
    && (forall i :: 0 <= i < |q| ==> du <= dist[q[i]].value <= du + 1)
  }

  /** Every reached node that has left the queue is expanded, and none is further than the front of the queue. */
  ghost predicate Done<Node>(graph: Graph<Node>, dist: map<Node, Dist>, q: seq<Node>)
    requires dist.Keys == graph.Keys
  {
    forall n :: n in graph && dist[n].Some? && n !in q ==>
      (|q| > 0 && q[0] in dist && dist[q[0]].Some? ==> dist[n].value <= dist[q[0]].value) && Expanded(graph, dist, n)
  }

  /** As Done, for the nodes other than u, which are all at most du away. */
  ghost predicate DoneBut<Node>(graph: Graph<Node>, dist: map<Node, Dist>, q: seq<Node>, u: Node, du: nat)
    requires dist.Keys == graph.Keys
  {
    forall n :: n in graph && dist[n].Some? && n !in q && n != u ==> dist[n].value <= du && Expanded(graph, dist, n)
  }

  /** u has left the queue and its neighbours before index j are reached, at most du + 1 away. */
  ghost predicate Scanned<Node>(graph: Graph<Node>, dist: map<Node, Dist>, q: seq<Node>, u: Node, du: nat, j: int)
  {
    && u in graph && u in dist && dist[u] == Some(du) && u !in q
    && 0 <= j <= |graph[u]|
    && (forall k :: 0 <= k < j ==> graph[u][k] in dist && dist[graph[u][k]].Some? && dist[graph[u][k]].value <= du + 1)
  }

  /** The state at the head of the outer loop. */
  ghost predicate Searching<Node>(graph: Graph<Node>, start: Node, dist: map<Node, Dist>, parent: map<Node, Option<Node>>, q: seq<Node>)
  {
    && Closed(graph)
    && Shape(graph, start, dist, parent)
    && Links(graph, dist, parent)
    && Levels(graph, dist, q)
    && Done(graph, dist, q)
  }

  /** The state inside the inner loop, while the neighbours of u before index j have been looked at. */
  ghost predicate Scanning<Node>(graph: Graph<Node>, start: Node, dist: map<Node, Dist>, parent: map<Node, Option<Node>>, q: seq<Node>, u: Node, du: nat, j: int)
  {
    && Closed(graph)
    && Shape(graph, start, dist, parent)
    && Links(graph, dist, parent)
    && Band(graph, dist, q, du)
    && DoneBut(graph, dist, q, u, du)
    && Scanned(graph, dist, q, u, du, j)
  }

  lemma BfsStart<Node>(graph: Graph<Node>, start: Node, dist: map<Node, Dist>, parent: map<Node, Option<Node>>)
    requires Closed(graph) && start in graph
    requires dist == (map n | n in graph :: None)[start := Some(0)]
    requires parent == map n | n in graph :: None
    ensures Searching(graph, start, dist, parent, [start])
    ensures ReachedSet(dist) == {start}
  {
  }

  lemma BfsPop<Node>(graph: Graph<Node>, start: Node, dist: map<Node, Dist>, parent: map<Node, Option<Node>>, q: seq<Node>)
    requires Searching(graph, start, dist, parent, q) && |q| > 0
    ensures Scanning(graph, start, dist, parent, q[1..], q[0], dist[q[0]].value, 0)
  {
    var u := q[0];
    var du := dist[u].value;
    assert Band(graph, dist, q[1..], du);
    forall n | n in graph && dist[n].Some? && n !in q[1..] && n != u
      ensures dist[n].value <= du && Expanded(graph, dist, n)
    {
      assert n !in q;
    }
  }

  /** Giving the unreached neighbour nbr of u a distance and a parent keeps every parent link valid. */
  lemma LinksVisit<Node>(graph: Graph<Node>, dist: map<Node, Dist>, parent: map<Node, Option<Node>>, u: Node, du: nat, nbr: Node)
    requires Links(graph, dist, parent)
    requires u in graph && nbr in graph[u] && u in dist && dist[u] == Some(du) && u != nbr
    requires nbr in dist && dist[nbr].None?
    ensures Links(graph, dist[nbr := Some(du + 1)], parent[nbr := Some(u)])
  {
    var dist' := dist[nbr := Some(du + 1)];
    var parent' := parent[nbr := Some(u)];
    forall n | n in parent' && parent'[n].Some?
      ensures parent'[n].value in graph && n in graph[parent'[n].value]
      ensures n in dist' && parent'[n].value in dist' && dist'[parent'[n].value].Some?
      ensures dist'[n] == Some(dist'[parent'[n].value].value + 1)
    {
      if n != nbr {
        assert parent[n].Some?;
        assert parent[n].value != nbr;
      }
    }
  }

  lemma BandPush<Node>(graph: Graph<Node>, dist: map<Node, Dist>, q: seq<Node>, du: nat, nbr: Node)
    requires Band(graph, dist, q, du)
    requires nbr in graph && nbr in dist && dist[nbr].None?
    ensures Band(graph, dist[nbr := Some(du + 1)], q + [nbr], du)
  {
    assert forall i :: 0 <= i < |q| ==> q[i] != nbr;
  }

  lemma DonePush<Node>(graph: Graph<Node>, dist: map<Node, Dist>, q: seq<Node>, u: Node, du: nat, nbr: Node)
    requires dist.Keys == graph.Keys && DoneBut(graph, dist, q, u, du)
    requires nbr in graph && dist[nbr].None?
    ensures DoneBut(graph, dist[nbr := Some(du + 1)], q + [nbr], u, du)
  {
    var dist' := dist[nbr := Some(du + 1)];
    forall n | n in graph && dist'[n].Some? && n !in q + [nbr] && n != u
      ensures dist'[n].value <= du && Expanded(graph, dist', n)
    {
      assert n != nbr && dist'[n] == dist[n];
    }
  }

  lemma ScannedPush<Node>(graph: Graph<Node>, dist: map<Node, Dist>, q: seq<Node>, u: Node, du: nat, j: int)
    requires Scanned(graph, dist, q, u, du, j) && j < |graph[u]|
    requires graph[u][j] in dist && dist[graph[u][j]].None?
    ensures Scanned(graph, dist[graph[u][j] := Some(du + 1)], q + [graph[u][j]], u, du, j + 1)
  {
  }

  /** Looking at an unreached neighbour: it is reached, queued and given u as its parent. */
  lemma BfsVisitNew<Node>(graph: Graph<Node>, start: Node, dist: map<Node, Dist>, parent: map<Node, Option<Node>>, q: seq<Node>, u: Node, du: nat, j: int)
    requires Scanning(graph, start, dist, parent, q, u, du, j) && j < |graph[u]|
    requires graph[u][j] in dist && dist[graph[u][j]].None?
    ensures var nbr := graph[u][j];
      && Scanning(graph, start, dist[nbr := Some(du + 1)], parent[nbr := Some(u)], q + [nbr], u, du, j + 1)
      && ReachedSet(dist[nbr := Some(du + 1)]) == ReachedSet(dist) + {nbr}
      && nbr !in ReachedSet(dist)
  {
    var nbr := graph[u][j];
    var dist' := dist[nbr := Some(du + 1)];
    assert nbr in graph && nbr != start && nbr != u;
    LinksVisit(graph, dist, parent, u, du, nbr);
    BandPush(graph, dist, q, du, nbr);
    DonePush(graph, dist, q, u, du, nbr);
    ScannedPush(graph, dist, q, u, du, j);
    assert ReachedSet(dist') == ReachedSet(dist) + {nbr};
  }

  /** Looking at a neighbour already reached changes nothing. */
  lemma BfsVisitSeen<Node>(graph: Graph<Node>, start: Node, dist: map<Node, Dist>, parent: map<Node, Option<Node>>, q: seq<Node>, u: Node, du: nat, j: int)
    requires Scanning(graph, start, dist, parent, q, u, du, j) && j < |graph[u]|
    requires graph[u][j] in dist && dist[graph[u][j]].Some?
    ensures Scanning(graph, start, dist, parent, q, u, du, j + 1)
  {
    var nbr := graph[u][j];
    if nbr !in q && nbr != u {
      assert dist[nbr].value <= du;
    } else if nbr in q {
      var i :| 0 <= i < |q| && q[i] == nbr;
    }
  }

  lemma BfsExpand<Node>(graph: Graph<Node>, start: Node, dist: map<Node, Dist>, parent: map<Node, Option<Node>>, q: seq<Node>, u: Node, du: nat)
    requires u in graph && Scanning(graph, start, dist, parent, q, u, du, |graph[u]|)
    ensures Searching(graph, start, dist, parent, q)
  {
    assert Expanded(graph, dist, u) by {
      forall m | m in graph[u] ensures m in dist && dist[m].Some? && dist[m].value <= du + 1 {
        var k :| 0 <= k < |graph[u]| && graph[u][k] == m;
      }
    }
  }

  lemma BfsFinish<Node>(graph: Graph<Node>, start: Node, dist: map<Node, Dist>, parent: map<Node, Option<Node>>)
    requires Searching(graph, start, dist, parent, [])
    ensures BfsTree(graph, start, dist, parent)
  {
  }

  /**
   * The inner loop of the search: every neighbour of node not yet reached
   * gets distance du + 1 and parent node, and joins the back of the queue.
   */
  method VisitNeighbors<Node(==)>(graph: Graph<Node>, start: Node, dist0: map<Node, Dist>, parent0: map<Node, Option<Node>>,
                                  queue: Queue<Node>, node: Node, du: nat)
      returns (dist: map<Node, Dist>, parent: map<Node, Option<Node>>)
    requires Scanning(graph, start, dist0, parent0, queue.items, node, du, 0)
    modifies queue
    ensures Scanning(graph, start, dist, parent, queue.items, node, du, |graph[node]|)
    ensures |queue.items| - |old(queue.items)| == |ReachedSet(dist)| - |ReachedSet(dist0)|
  {
    dist, parent := dist0, parent0;
    var nbrs := graph[node];
    var j := 0;
    while j < |nbrs|
      invariant Scanning(graph, start, dist, parent, queue.items, node, du, j)
      invariant |queue.items| - |old(queue.items)| == |ReachedSet(dist)| - |ReachedSet(dist0)|
    {
      var nbr := nbrs[j];
      assert nbr in graph;
      if dist[nbr].None? {
        BfsVisitNew(graph, start, dist, parent, queue.items, node, du, j);
        dist := dist[nbr := Some(du + 1)];
        parent := parent[nbr := Some(node)];
        queue.Push(nbr);
      } else {
        BfsVisitSeen(graph, start, dist, parent, queue.items, node, du, j);
      }
      j := j + 1;
    }
  }

  /**
   * Breadth-first search from start: every node gets a distance (None if it
   * is never reached) and a parent (None for start and for nodes never
   * reached). pops counts the iterations of the outer loop: one per reached
   * node, so every node is queued at most once.
   */
  method Bfs<Node(==)>(graph: Graph<Node>, start: Node) returns (dist: map<Node, Dist>, parent: map<Node, Option<Node>>, ghost pops: nat)
    requires Closed(graph) && start in graph
    ensures BfsTree(graph, start, dist, parent)
    ensures pops == |ReachedSet(dist)| <= |graph|
  {
    var queue := new Queue<Node>();
    dist := map n | n in graph :: None;
    parent := map n | n in graph :: None;
    dist := dist[start := Some(0)];
    queue.Push(start);
    BfsStart(graph, start, dist, parent);
    pops := 0;
    SubsetCard(ReachedSet(dist), graph.Keys);
    while queue.Len() > 0
      invariant Searching(graph, start, dist, parent, queue.items)
      invariant pops + |queue.items| == |ReachedSet(dist)| <= |graph.Keys|
      decreases |graph.Keys| - pops
    {
      BfsPop(graph, start, dist, parent, queue.items);
      var node := queue.Pop();
      pops := pops + 1;
      var du := dist[node].value;
      dist, parent := VisitNeighbors(graph, start, dist, parent, queue, node, du);
      BfsExpand(graph, start, dist, parent, queue.items, node, du);
      SubsetCard(ReachedSet(dist), graph.Keys);
    }
    BfsFinish(graph, start, dist, parent);
  }

  // ---------------------------------------------------------------------
  // Distances are shortest.

  /** No walk from start is shorter than the distance of the node it ends at. */
  lemma {:induction false} WalkBound<Node>(graph: Graph<Node>, start: Node, dist: map<Node, Dist>, parent: map<Node, Option<Node>>, w: seq<Node>)
    requires BfsTree(graph, start, dist, parent) && IsWalk(graph, w) && w[0] == start
    ensures dist[w[|w| - 1]].Some? && dist[w[|w| - 1]].value <= |w| - 1
    decreases |w|
  {
    if |w| > 1 {
      var w' := w[..|w| - 1];
      assert IsWalk(graph, w');
      WalkBound(graph, start, dist, parent, w');
      var u := w[|w| - 2];
      assert w' [|w'| - 1] == u;
      assert w[|w| - 1] in graph[u];
    }
  }

  /** Following parent links back from a reached node gives a walk from start as long as its distance. */
  lemma {:induction false} TreeWalk<Node>(graph: Graph<Node>, start: Node, dist: map<Node, Dist>, parent: map<Node, Option<Node>>, n: Node)
      returns (w: seq<Node>)
    requires Shape(graph, start, dist, parent) && Links(graph, dist, parent)
    requires n in graph && dist[n].Some?
    ensures WalkFromTo(graph, w, start, n) && |w| == dist[n].value + 1
    decreases dist[n].value
  {
    if n == start {
      w := [start];
    } else {
      assert parent[n].Some?;
      var p := parent[n].value;
      assert p in graph && n in graph[p] && dist[p].Some? && dist[n].value == dist[p].value + 1;
      var w' := TreeWalk(graph, start, dist, parent, p);
      w := w' + [n];
      assert forall i :: 0 <= i < |w'| ==> w[i] == w'[i];
      assert w[|w| - 2] == p && w[|w| - 1] == n;
      assert IsWalk(graph, w);
    }
  }

  /**
   * The distances BFS computes are the shortest: a node is reached exactly
   * when some walk from start ends at it, the shortest such walk has
   * dist[n] edges, and no walk has fewer.
   */
  lemma BfsShortest<Node>(graph: Graph<Node>, start: Node, dist: map<Node, Dist>, parent: map<Node, Option<Node>>, n: Node)
    requires BfsTree(graph, start, dist, parent) && n in graph
    ensures dist[n].Some? <==> exists w :: WalkFromTo(graph, w, start, n)
    ensures dist[n].Some? ==> exists w :: WalkFromTo(graph, w, start, n) && |w| == dist[n].value + 1
    ensures dist[n].Some? ==> forall w :: WalkFromTo(graph, w, start, n) ==> |w| >= dist[n].value + 1
  {
    if dist[n].Some? {
      var w := TreeWalk(graph, start, dist, parent, n);
    }
    forall w | WalkFromTo(graph, w, start, n) ensures dist[n].Some? && |w| >= dist[n].value + 1 {
      WalkBound(graph, start, dist, parent, w);
    }
  }

  // ---------------------------------------------------------------------
  // The distance histogram.

  /** The nodes among seen at distance d. */
  ghost function ClassIn<Node>(dist: map<Node, Dist>, seen: set<Node>, d: Dist): set<Node>
    requires seen <= dist.Keys
  {
    set n | n in seen && dist[n] == d
  }

  /** hist counts, for each distance occurring among seen, the nodes of seen at that distance. */
  ghost predicate Counts<Node>(hist: map<Dist, nat>, dist: map<Node, Dist>, seen: set<Node>)
    requires seen <= dist.Keys
  {
    && (forall d :: d in hist <==> exists n :: n in seen && dist[n] == d)
    && (forall d :: d in hist ==> hist[d] == |ClassIn(dist, seen, d)|)
  }

  /** Counting one more node at distance d. */
  lemma CountsStep<Node>(hist: map<Dist, nat>, dist: map<Node, Dist>, seen: set<Node>, n: Node)
    requires seen <= dist.Keys && n in dist && n !in seen
    requires Counts(hist, dist, seen)
    ensures Counts(hist[dist[n] := (if dist[n] in hist then hist[dist[n]] else 0) + 1], dist, seen + {n})
  {
    var d := dist[n];
    var c := if d in hist then hist[d] else 0;
    var hist' := hist[d := c + 1];
    var seen' := seen + {n};
    assert ClassIn(dist, seen', d) == ClassIn(dist, seen, d) + {n};
    if d !in hist {
      assert ClassIn(dist, seen, d) == {};
    }
    forall e | e in hist' ensures hist'[e] == |ClassIn(dist, seen', e)| {
      if e != d {
        assert ClassIn(dist, seen', e) == ClassIn(dist, seen, e);
      }
    }
  }

  /** One round of the counting loop keeps the counts and their total right. */
  lemma CountOne<Node>(hist: map<Dist, nat>, dist: map<Node, Dist>, seen: set<Node>, n: Node)
    requires seen <= dist.Keys && n in dist && n !in seen
    requires Counts(hist, dist, seen) && Total(hist) == |seen|
    ensures Counts(Bump(hist, dist[n]), dist, seen + {n}) && Total(Bump(hist, dist[n])) == |seen + {n}|
  {
    CountsStep(hist, dist, seen, n);
    TotalBump(hist, dist[n]);
  }

  /** The counting loop: one increment per entry of dist. */
  method CountDistances<Node(==)>(dist: map<Node, Dist>) returns (hist: map<Dist, nat>)
    ensures Counts(hist, dist, dist.Keys)
    ensures Total(hist) == |dist.Keys|
  {
    hist := map[];
    var remaining := dist.Keys;
    ghost var seen: set<Node> := {};
    while remaining != {}
      invariant seen <= dist.Keys && remaining <= dist.Keys && seen !! remaining
      invariant forall k :: k in dist ==> k in seen || k in remaining
      invariant Counts(hist, dist, seen)
      invariant Total(hist) == |seen|
      decreases |remaining|
    {
      var n :| n in remaining;
      CountOne(hist, dist, seen, n);
      hist := Bump(hist, dist[n]);
      remaining := remaining - {n};
      seen := seen + {n};
    }
    assert seen == dist.Keys;
  }

  /**
   * The histogram of the distances from node: for every distance that
   * occurs (None for nodes not reached), the number of nodes at that
   * distance. The counts add up to the number of nodes.
   */
  method DistanceHistogram<Node(==)>(graph: Graph<Node>, node: Node) returns (hist: map<Dist, nat>)
    requires Closed(graph) && node in graph
    ensures exists dist, parent :: BfsTree(graph, node, dist, parent) && Counts(hist, dist, dist.Keys)
    ensures Total(hist) == |graph.Keys|
  {
    var dist, parent, pops := Bfs(graph, node);
    hist := CountDistances(dist);
  }

  // ---------------------------------------------------------------------
  // The histogram as the source computes it.

  /**
   * A value stored in one of the search's dictionaries over integer nodes:
   * a number (a distance or a parent node), float("inf"), or None.
   */
  datatype Value = Num(n: int) | Infinity | Nothing

  /** The distance dictionary's values. */
  function DistValues(dist: map<int, Dist>): (m: map<int, Value>)
    ensures m.Keys == dist.Keys
    ensures forall n :: n in dist ==> m[n] == (if dist[n].Some? then Num(dist[n].value) else Infinity)
  {
    map n | n in dist :: if dist[n].Some? then Num(dist[n].value) else Infinity
  }

  /** The parent dictionary's values. */
  function ParentValues(parent: map<int, Option<int>>): (m: map<int, Value>)
    ensures m.Keys == parent.Keys
    ensures forall n :: n in parent ==> m[n] == (if parent[n].Some? then Num(parent[n].value) else Nothing)
  {
    map n | n in parent :: if parent[n].Some? then Num(parent[n].value) else Nothing
  }

  /** The number of values counted: every dictionary with 0 among its values contributes all of them. */
  ghost function CountedSize(dicts: seq<map<int, Value>>): nat
  {
    if dicts == [] then 0
    else (if Num(0) in dicts[0].Values then |dicts[0].Keys| else 0) + CountedSize(dicts[1..])
  }

  /** Counts every value of dict into hist, one increment per key. */
  method CountValues<K>(hist0: map<Value, nat>, dict: map<K, Value>) returns (hist: map<Value, nat>)
    ensures Total(hist) == Total(hist0) + |dict.Keys|
  {
    hist := hist0;
    var remaining := dict.Keys;
    ghost var seen: set<K> := {};
    while remaining != {}
      invariant remaining <= dict.Keys && seen !! remaining
      invariant forall k :: k in dict ==> k in seen || k in remaining
      invariant Total(hist) + |remaining| == Total(hist0) + |dict.Keys|
      decreases |remaining|
    {
      var k :| k in remaining;
      seen := seen + {k};
      TotalBump(hist, dict[k]);
      hist := Bump(hist, dict[k]);
      remaining := remaining - {k};
    }
  }

  /**
   * The source's histogram loop: every dictionary of the search's result
   * that has 0 among its values is taken for the distances and all its
   * values are counted.
   */
  method HistogramAsWritten(dicts: seq<map<int, Value>>) returns (hist: map<Value, nat>)
    ensures Total(hist) == CountedSize(dicts)
  {
    hist := map[];
    var i := 0;
    while i < |dicts|
      invariant 0 <= i <= |dicts|
      invariant Total(hist) + CountedSize(dicts[i..]) == CountedSize(dicts)
    {
      assert dicts[i..][1..] == dicts[i + 1..];
      if Num(0) in dicts[i].Values {
        hist := CountValues(hist, dicts[i]);
      }
      i := i + 1;
    }
    assert dicts[i..] == [];
  }

  /** The source's distance histogram: the search's two dictionaries, in order, both go through the loop. */
  method DistanceHistogramAsWritten(graph: Graph<int>, node: int) returns (hist: map<Value, nat>)
    requires Closed(graph) && node in graph
    ensures exists dist, parent :: BfsTree(graph, node, dist, parent) && Total(hist) == CountedSize([DistValues(dist), ParentValues(parent)])
  {
    var dist, parent, pops := Bfs(graph, node);
    hist := HistogramAsWritten([DistValues(dist), ParentValues(parent)]);
  }

  /**
   * On the graph with one edge each way between 0 and 1, searched from 0,
   * the parent dictionary also holds 0 (the parent of 1), so the source
   * counts four values for two nodes.
   */
  lemma HistogramOvercounts(dist: map<int, Dist>, parent: map<int, Option<int>>)
    requires BfsTree(map[0 := [1], 1 := [0]], 0, dist, parent)
    ensures CountedSize([DistValues(dist), ParentValues(parent)]) == 4
    ensures |map[0 := [1], 1 := [0]].Keys| == 2
  {
    TwoNodeTree(dist, parent);
    var dists := DistValues(dist);
    var parents := ParentValues(parent);
    assert dists[0] == Num(0) && parents[1] == Num(0);
    assert Num(0) in dists.Values && Num(0) in parents.Values;
    assert [dists, parents][1..] == [parents];
    assert [parents][1..] == [];
    assert |dists.Keys| == 2 && |parents.Keys| == 2 by {
      assert dists.Keys == parents.Keys == {0, 1};
    }
    assert CountedSize([parents]) == 2;
    assert map[0 := [1], 1 := [0]].Keys == {0, 1};
  }

  /** The search from 0 over the two-node graph gives 0 distance 0 and makes 0 the parent of 1. */
  lemma TwoNodeTree(dist: map<int, Dist>, parent: map<int, Option<int>>)
    requires BfsTree(map[0 := [1], 1 := [0]], 0, dist, parent)
    ensures dist.Keys == parent.Keys == {0, 1}
    ensures dist[0] == Some(0) && parent[1] == Some(0)
  {
    var graph := map[0 := [1], 1 := [0]];
    assert graph.Keys == {0, 1};
    assert Expanded(graph, dist, 0) && 1 in graph[0];
    assert parent[1].Some?;
    var p := parent[1].value;
    assert p in graph && 1 in graph[p];
    assert p == 0 by {
      assert p == 0 || p == 1;
      assert 1 !in graph[1] by { assert graph[1] == [0]; }
    }
  }

  // ---------------------------------------------------------------------
  // Path reconstruction.

  /** How far n is from the start, for the nodes that have a distance. */
  function Rank<Node>(dist: map<Node, Dist>, n: Node): nat
  {
    if n in dist && dist[n].Some? then dist[n].value else 0
  }

  /** Following parent links from n arrives at start. */
  ghost predicate Reaches<Node>(graph: Graph<Node>, dist: map<Node, Dist>, parents: map<Node, Option<Node>>, n: Node, start: Node)
    requires parents.Keys == graph.Keys && Links(graph, dist, parents) && n in parents
    decreases Rank(dist, n)
  {
    n == start || (parents[n].Some? && Reaches(graph, dist, parents, parents[n].value, start))
  }

  /** Each entry's person is the parent of the next entry's, and carries the movies that link the two. */
  ghost predicate Linked<Node, Movie>(parents: map<Node, Option<Node>>, attrs: (Node, Node) -> set<Movie>, path: seq<(Node, set<Movie>)>)
  {
    forall i :: 0 < i < |path| ==>
      path[i].0 in parents && parents[path[i].0] == Some(path[i - 1].0) && path[i - 1].1 == attrs(path[i].0, path[i - 1].0)
  }

  /**
   * Walks the parent links back from end, prepending each parent together
   * with the movies linking it to its child, until start is reached; [] if
   * a node without a parent comes first. attrs stands for the graph's edge
   * attributes. dist is the distance map computed alongside parents.
   */
  method FindPath<Node(==), Movie>(graph: Graph<Node>, attrs: (Node, Node) -> set<Movie>, start: Node, end: Node,
                                    parents: map<Node, Option<Node>>, ghost dist: map<Node, Dist>)
      returns (path: seq<(Node, set<Movie>)>)
    requires start in graph && end in graph && parents.Keys == graph.Keys && dist.Keys == graph.Keys && Links(graph, dist, parents)
    ensures path == [] <==> !Reaches(graph, dist, parents, end, start)
    ensures start == end ==> path == [(end, {})]
    ensures path != [] ==> path[0].0 == start && path[|path| - 1] == (end, {}) && Linked(parents, attrs, path)
    ensures path != [] && start != end ==>
      dist[start].Some? && dist[end].Some? && dist[end].value == dist[start].value + |path| - 1
  {
    var current := end;
    path := [];
    while current != start
      invariant current in graph
      invariant Reaches(graph, dist, parents, end, start) <==> Reaches(graph, dist, parents, current, start)
      invariant (path + [(end, {})])[0].0 == current
      invariant Linked(parents, attrs, path + [(end, {})])
      invariant path == [] ==> current == end
      invariant path != [] ==> dist[current].Some? && dist[end].Some? && dist[end].value == dist[current].value + |path|
      decreases Rank(dist, current)
    {
      var currentParent := parents[current];
      if currentParent == None {
        return [];
      }
      var p := currentParent.value;
      ghost var old_full := path + [(end, {})];
      path := [(p, attrs(current, p))] + path;
      assert path + [(end, {})] == [(p, attrs(current, p))] + old_full;
      current := p;
    }
    path := path + [(end, {})];
  }
}
