/**
 * Searching a street map: a breadth-first or depth-first search that
 * differ only in the restricted-access container they use (a FIFO queue or
 * a LIFO stack), and a recursive depth-first search, all filling a map from
 * each visited node to the node it was reached from.
 */
module MapSearch {
  import opened Graphs

  // ---------------------------------------------------------------------
  // Restricted-access containers.

  /** A first-in first-out queue backed by a list. */
  class Queue<T> {
    var items: seq<T>

    constructor ()
      ensures items == []
    {
      items := [];
    }

    /** The number of items held. */
    function Len(): (n: nat)
      reads this
      ensures n == |items|
    {
      |items|
    }

    /** Adds x at the back. */
    method Push(x: T)
      modifies this
      ensures items == old(items) + [x]
    {
      items := items + [x];
    }

    /** Removes and returns the least recently added item. */
    method Pop() returns (x: T)
      requires |items| > 0
      modifies this
      ensures x == old(items)[0]
      ensures items == old(items)[1..]
    {
      x := items[0];
      items := items[1..];
    }

    /** Removes every item. */
    method Clear()
      modifies this
      ensures items == []
    {
      items := [];
    }
  }

  /** A last-in first-out stack backed by a list. */
  class Stack<T> {
    var items: seq<T>

    constructor ()
      ensures items == []
    {
      items := [];
    }

    /** The number of items held. */
    function Len(): (n: nat)
      reads this
      ensures n == |items|
    {
      |items|
    }

    /** Adds x on top. */
    method Push(x: T)
      modifies this
      ensures items == old(items) + [x]
    {
      items := items + [x];
    }

    /** Removes and returns the most recently added item. */
    method Pop() returns (x: T)
      requires |items| > 0
      modifies this
      ensures x == old(items)[|old(items)| - 1]
      ensures items == old(items)[..|old(items)| - 1]
    {
      x := items[|items| - 1];
      items := items[..|items| - 1];
    }

    /** Removes every item. */
    method Clear()
      modifies this
      ensures items == []
    {
      items := [];
    }
  }

  /** Items leave the queue in the order they arrived: pushing s and then popping everything gives back s. */
  method QueueOrder<T>(s: seq<T>) returns (out: seq<T>)
    ensures out == s
  {
    var q := new Queue<T>();
    var i := 0;
    while i < |s|
      invariant 0 <= i <= |s| && q.items == s[..i]
    {
      q.Push(s[i]);
      i := i + 1;
    }
    assert q.items == s;
    out := [];
    while q.Len() > 0
      invariant out + q.items == s
      decreases |q.items|
    {
      var x := q.Pop();
      out := out + [x];
    }
  }

  /** s in the opposite order. */
  function Reversed<T>(s: seq<T>): (r: seq<T>)
    ensures |r| == |s|
    ensures forall i :: 0 <= i < |s| ==> r[i] == s[|s| - 1 - i]
  {
    if s == [] then [] else [s[|s| - 1]] + Reversed(s[..|s| - 1])
  }

  /** Items leave the stack in the reverse of the order they arrived: pushing s and then popping everything gives s reversed. */
  method StackOrder<T>(s: seq<T>) returns (out: seq<T>)
    ensures out == Reversed(s)
  {
    var st := new Stack<T>();
    var i := 0;
    while i < |s|
      invariant 0 <= i <= |s| && st.items == s[..i]
    {
      st.Push(s[i]);
      i := i + 1;
    }
    out := [];
    while st.Len() > 0
      invariant |out| <= |s| && st.items == s[..|s| - |out|]
      invariant forall k :: 0 <= k < |out| ==> out[k] == s[|s| - 1 - k]
      decreases |st.items|
    {
      var x := st.Pop();
      out := out + [x];
    }
  }

  // ---------------------------------------------------------------------
  // Search with either container.

  /** The container class a search is given: a Queue makes it breadth-first, a Stack depth-first. */
  datatype ContainerClass = QueueClass | StackClass

  /**
   * The container of the given class. Dafny has no class values, so both
   * containers exist and the class picks the one in use.
   */
  function Held<T>(rac: ContainerClass, queue: Queue<T>, stack: Stack<T>): seq<T>
    reads queue, stack
  {
    if rac == QueueClass then queue.items else stack.items
  }

  method RacPush<T>(rac: ContainerClass, queue: Queue<T>, stack: Stack<T>, x: T)
    modifies queue, stack
    ensures Held(rac, queue, stack) == old(Held(rac, queue, stack)) + [x]
  {
    if rac == QueueClass {
      queue.Push(x);
    } else {
      stack.Push(x);
    }
  }

  method RacPop<T>(rac: ContainerClass, queue: Queue<T>, stack: Stack<T>) returns (x: T)
    requires |Held(rac, queue, stack)| > 0
    modifies queue, stack
    ensures multiset(old(Held(rac, queue, stack))) == multiset(Held(rac, queue, stack)) + multiset{x}
    ensures |Held(rac, queue, stack)| == |old(Held(rac, queue, stack))| - 1
    ensures rac == QueueClass ==> x == old(Held(rac, queue, stack))[0]
    ensures rac == StackClass ==> x == old(Held(rac, queue, stack))[|old(Held(rac, queue, stack))| - 1]
  {
    if rac == QueueClass {
      x := queue.Pop();
      assert old(queue.items) == [x] + queue.items;
    } else {
      x := stack.Pop();
      assert old(stack.items) == stack.items + [x];
    }
  }

  /** n has been visited: it is the start or has been given a parent. */
  ghost predicate Visited<Node(!new)>(parent: map<Node, Option<Node>>, start: Node, n: Node)
    requires n in parent
  {
    n == start || parent[n].Some?
  }

  /** Every parent entry is an edge of the graph into the node. */
  ghost predicate Edges<Node(!new)>(graph: Graph<Node>, parent: map<Node, Option<Node>>)
  {
    forall v :: v in parent && parent[v].Some? ==> parent[v].value in graph && v in graph[parent[v].value]
  }

  /** Every neighbour of n has a parent. */
  ghost predicate Expanded<Node(!new)>(graph: Graph<Node>, parent: map<Node, Option<Node>>, n: Node)
    requires n in graph
  {
    forall m :: m in graph[n] ==> m in parent && parent[m].Some?
  }

  /** The search ran to the end: every neighbour of every visited node has a parent. */
  ghost predicate Exhausted<Node(!new)>(graph: Graph<Node>, start: Node, parent: map<Node, Option<Node>>)
    requires parent.Keys == graph.Keys
  {
    forall n :: n in graph && Visited(parent, start, n) ==> Expanded(graph, parent, n)
  }

  /** The nodes given a parent. */
  ghost function Assigned<Node(!new)>(parent: map<Node, Option<Node>>): set<Node>
  {
    set n | n in parent && parent[n].Some?
  }

  /** Every node given a parent is reached by a walk from start. */
  ghost predicate Rooted<Node(!new)>(graph: Graph<Node>, start: Node, parent: map<Node, Option<Node>>)
  {
    forall n :: n in parent && parent[n].Some? ==> Reachable(graph, start, n)
  }

  /** Giving a neighbour of a visited node that node as its parent keeps every parent rooted at start. */
  lemma RootedVisit<Node(!new)>(graph: Graph<Node>, start: Node, parent: map<Node, Option<Node>>, u: Node, nbr: Node)
    requires Rooted(graph, start, parent) && start in graph
    requires u in graph && u in parent && Visited(parent, start, u) && nbr in graph[u] && nbr in graph
    ensures Rooted(graph, start, parent[nbr := Some(u)])
  {
    if u == start {
      ReachableSelf(graph, start);
    }
    ReachableStep(graph, start, u, nbr);
  }

  /** The state at the head of the outer loop. */
  ghost predicate Pending<Node(!new)>(graph: Graph<Node>, start: Node, parent: map<Node, Option<Node>>, items: seq<Node>)
  {
    && Closed(graph) && start in graph
    && parent.Keys == graph.Keys
    && Edges(graph, parent)
    && (forall i :: 0 <= i < |items| ==> items[i] in graph && Visited(parent, start, items[i]))
    && (forall n :: n in graph && Visited(parent, start, n) && n !in items ==> Expanded(graph, parent, n))
  }

  /** The state in the inner loop, while the neighbours of u before index j have been looked at. */
  ghost predicate Expanding<Node(!new)>(graph: Graph<Node>, start: Node, parent: map<Node, Option<Node>>, items: seq<Node>, u: Node, j: int)
  {
    && Closed(graph) && start in graph
    && parent.Keys == graph.Keys
    && Edges(graph, parent)
    && (forall i :: 0 <= i < |items| ==> items[i] in graph && Visited(parent, start, items[i]))
    && (forall n :: n in graph && Visited(parent, start, n) && n !in items && n != u ==> Expanded(graph, parent, n))
    && u in graph && Visited(parent, start, u)
    && 0 <= j <= |graph[u]|
    && (forall k :: 0 <= k < j ==> graph[u][k] in parent && parent[graph[u][k]].Some?)
  }

  lemma PopPending<Node(!new)>(graph: Graph<Node>, start: Node, parent: map<Node, Option<Node>>, items: seq<Node>, rest: seq<Node>, u: Node)
    requires Pending(graph, start, parent, items)
    requires multiset(items) == multiset(rest) + multiset{u}
    ensures Expanding(graph, start, parent, rest, u, 0)
  {
    assert u in multiset(items);
    forall i | 0 <= i < |rest| ensures rest[i] in graph && Visited(parent, start, rest[i]) {
      assert rest[i] in multiset(rest);
      assert rest[i] in multiset(items);
    }
    forall n | n in graph && Visited(parent, start, n) && n !in rest && n != u ensures Expanded(graph, parent, n) {
      assert n !in multiset(rest);
      assert n !in multiset(items);
    }
  }

  lemma VisitNew<Node(!new)>(graph: Graph<Node>, start: Node, parent: map<Node, Option<Node>>, items: seq<Node>, u: Node, j: int)
    requires Expanding(graph, start, parent, items, u, j) && j < |graph[u]|
    requires graph[u][j] in parent && parent[graph[u][j]].None?
    ensures var nbr := graph[u][j];
      && Expanding(graph, start, parent[nbr := Some(u)], items + [nbr], u, j + 1)
      && Assigned(parent[nbr := Some(u)]) == Assigned(parent) + {nbr}
      && nbr !in Assigned(parent)
  {
    var nbr := graph[u][j];
    var parent' := parent[nbr := Some(u)];
    assert Edges(graph, parent');
    forall n | n in graph && Visited(parent', start, n) && n !in items + [nbr] && n != u
      ensures Expanded(graph, parent', n)
    {
      assert n != nbr && Visited(parent, start, n);
    }
    assert Assigned(parent') == Assigned(parent) + {nbr};
  }

  lemma VisitSeen<Node(!new)>(graph: Graph<Node>, start: Node, parent: map<Node, Option<Node>>, items: seq<Node>, u: Node, j: int)
    requires Expanding(graph, start, parent, items, u, j) && j < |graph[u]|
    requires graph[u][j] in parent && parent[graph[u][j]].Some?
    ensures Expanding(graph, start, parent, items, u, j + 1)
  {
  }

  lemma ExpandDone<Node(!new)>(graph: Graph<Node>, start: Node, parent: map<Node, Option<Node>>, items: seq<Node>, u: Node)
    requires u in graph && Expanding(graph, start, parent, items, u, |graph[u]|)
    ensures Pending(graph, start, parent, items)
  {
    assert Expanded(graph, parent, u) by {
      forall m | m in graph[u] ensures m in parent && parent[m].Some? {
        var k :| 0 <= k < |graph[u]| && graph[u][k] == m;
      }
    }
  }

  /**
   * The inner loop of the search: every neighbour of node without a parent
   * gets node as its parent and joins the container; found is set, and the
   * loop stops, as soon as that neighbour is end.
   */
  method OfferNeighbors<Node(==,!new)>(graph: Graph<Node>, rac: ContainerClass, queue: Queue<Node>, stack: Stack<Node>,
                                  start: Node, end: Node, parent0: map<Node, Option<Node>>, node: Node)
      returns (parent: map<Node, Option<Node>>, found: bool)
    requires Expanding(graph, start, parent0, Held(rac, queue, stack), node, 0)
    requires Rooted(graph, start, parent0) && !(end in parent0 && parent0[end].Some?)
    modifies queue, stack
    ensures found ==> end in parent && parent[end].Some? && parent.Keys == graph.Keys && Edges(graph, parent)
    ensures found ==> |Held(rac, queue, stack)| > 0
    ensures !found ==> Expanding(graph, start, parent, Held(rac, queue, stack), node, |graph[node]|)
    ensures !found ==> !(end in parent && parent[end].Some?)
    ensures Rooted(graph, start, parent)
    ensures |Held(rac, queue, stack)| - |old(Held(rac, queue, stack))| == |Assigned(parent)| - |Assigned(parent0)|
  {
    parent := parent0;
    found := false;
    var nbrs := graph[node];
    var j := 0;
    while j < |nbrs|
      invariant Expanding(graph, start, parent, Held(rac, queue, stack), node, j)
      invariant Rooted(graph, start, parent) && !(end in parent && parent[end].Some?)
      invariant |Held(rac, queue, stack)| - |old(Held(rac, queue, stack))| == |Assigned(parent)| - |Assigned(parent0)|
    {
      var nbr := nbrs[j];
      assert nbr in graph;
      if parent[nbr] == None {
        VisitNew(graph, start, parent, Held(rac, queue, stack), node, j);
        RootedVisit(graph, start, parent, node, nbr);
        parent := parent[nbr := Some(node)];
        RacPush(rac, queue, stack, nbr);
        if nbr == end {
          found := true;
          return;
        }
      } else {
        VisitSeen(graph, start, parent, Held(rac, queue, stack), node, j);
      }
      j := j + 1;
    }
  }

  /**
   * Breadth-first (with a Queue) or depth-first (with a Stack) search from
   * start: every node has an entry, None until it is given the node it was
   * reached from. The search stops as soon as end is given a parent;
   * otherwise it runs until every neighbour of every visited node has a
   * parent. Every node given a parent is reached by a walk from start.
   * found records whether the search stopped at end. pops counts the nodes
   * taken from the container: the start, and each node once more when it gets
   * its parent, unless the search stops first.
   */
  method BfsDfs<Node(==,!new)>(graph: Graph<Node>, rac: ContainerClass, start: Node, end: Node)
      returns (parent: map<Node, Option<Node>>, ghost found: bool, ghost pops: nat)
    requires Closed(graph) && start in graph
    ensures parent.Keys == graph.Keys
    ensures Edges(graph, parent)
    ensures Rooted(graph, start, parent)
    ensures found <==> end in parent && parent[end].Some?
    ensures !found ==> Exhausted(graph, start, parent)
    ensures !found ==> pops == 1 + |Assigned(parent)|
    ensures found ==> pops <= |Assigned(parent)|
    ensures pops <= |graph.Keys| + 1
  {
    var queue := new Queue<Node>();
    var stack := new Stack<Node>();
    parent := map n | n in graph :: None;
    RacPush(rac, queue, stack, start);
    assert Assigned(parent) == {};
    pops := 0;
    found := false;
    SubsetCard(Assigned(parent), graph.Keys);
    while |Held(rac, queue, stack)| > 0
      invariant Pending(graph, start, parent, Held(rac, queue, stack))
      invariant Rooted(graph, start, parent) && !(end in parent && parent[end].Some?)
      invariant pops + |Held(rac, queue, stack)| == 1 + |Assigned(parent)| <= 1 + |graph.Keys|
      decreases |graph.Keys| + 1 - pops
    {
      ghost var before := Held(rac, queue, stack);
      var node := RacPop(rac, queue, stack);
      pops := pops + 1;
      ghost var popped := Held(rac, queue, stack);
      ghost var parent1 := parent;
      PopPending(graph, start, parent, before, popped, node);
      var hit;
      parent, hit := OfferNeighbors(graph, rac, queue, stack, start, end, parent, node);
      SubsetCard(Assigned(parent), graph.Keys);
      assert |Held(rac, queue, stack)| - |popped| == |Assigned(parent)| - |Assigned(parent1)|;
      if hit {
        found := true;
        return;
      }
      ExpandDone(graph, start, parent, Held(rac, queue, stack), node);
    }
  }

  /** When the search runs to the end, every walk from start stays among the visited nodes. */
  lemma {:induction false} ExhaustedWalk<Node(!new)>(graph: Graph<Node>, start: Node, parent: map<Node, Option<Node>>, w: seq<Node>)
    requires parent.Keys == graph.Keys && Exhausted(graph, start, parent)
    requires IsWalk(graph, w) && w[0] == start
    ensures Visited(parent, start, w[|w| - 1])
    decreases |w|
  {
    if |w| > 1 {
      var w' := w[..|w| - 1];
      assert IsWalk(graph, w');
      ExhaustedWalk(graph, start, parent, w');
      assert w[|w| - 1] in graph[w'[|w'| - 1]];
    }
  }

  /** A search that leaves end without a parent has shown that no walk leads from start to end. */
  lemma NotFoundUnreachable<Node(!new)>(graph: Graph<Node>, start: Node, end: Node, parent: map<Node, Option<Node>>)
    requires parent.Keys == graph.Keys && end in graph && end != start
    requires (end in parent && parent[end].Some?) || Exhausted(graph, start, parent)
    requires parent[end].None?
    ensures forall w :: !WalkFromTo(graph, w, start, end)
  {
    forall w | WalkFromTo(graph, w, start, end) ensures false {
      ExhaustedWalk(graph, start, parent, w);
    }
  }

  /**
   * For an end other than start, a finished search gives end a parent
   * exactly when some walk leads from start to end.
   */
  lemma FoundIffReachable<Node(!new)>(graph: Graph<Node>, start: Node, end: Node, parent: map<Node, Option<Node>>)
    requires parent.Keys == graph.Keys && end in graph && end != start
    requires Rooted(graph, start, parent)
    requires (end in parent && parent[end].Some?) || Exhausted(graph, start, parent)
    ensures parent[end].Some? <==> Reachable(graph, start, end)
  {
    if !parent[end].Some? {
      NotFoundUnreachable(graph, start, end, parent);
    }
  }

  // ---------------------------------------------------------------------
  // Recursive depth-first search.

  /** Every neighbour of n has an entry. */
  ghost predicate Covered<Node(!new)>(graph: Graph<Node>, n: Node, parent: map<Node, Option<Node>>)
    requires n in graph
  {
    forall m :: m in graph[n] ==> m in parent
  }

  /**
   * parent grows parent0 by a search from start: no entry is dropped or
   * changed, and each new entry is an edge into its node from start or from
   * another new node, so a walk from start reaches it.
   */
  ghost predicate Extends<Node(!new)>(graph: Graph<Node>, start: Node, parent0: map<Node, Option<Node>>, parent: map<Node, Option<Node>>)
  {
    && parent0.Keys <= parent.Keys <= graph.Keys
    && (forall k :: k in parent0 ==> parent[k] == parent0[k])
    && (forall k :: k in parent && k !in parent0 ==>
          && parent[k].Some?
          && parent[k].value in graph && k in graph[parent[k].value]
          && (parent[k].value == start || (parent[k].value in parent && parent[k].value !in parent0)))
    && (forall k :: k in parent && k !in parent0 ==> Reachable(graph, start, k))
  }

  /** The search from start looked at every neighbour of start and of every node it added. */
  ghost predicate Explored<Node(!new)>(graph: Graph<Node>, start: Node, parent0: map<Node, Option<Node>>, parent: map<Node, Option<Node>>)
    requires start in graph && parent.Keys <= graph.Keys
  {
    && Covered(graph, start, parent)
    && (forall k :: k in parent && k !in parent0 ==> Covered(graph, k, parent))
  }

  /** Whether every neighbour already has an entry (the first loop of the search). */
  method AllKnown<Node(==,!new)>(nbrs: seq<Node>, parent: map<Node, Option<Node>>) returns (checked: bool)
    ensures checked <==> forall m :: m in nbrs ==> m in parent
  {
    checked := true;
    var j := 0;
    while j < |nbrs|
      invariant 0 <= j <= |nbrs|
      invariant checked <==> forall k :: 0 <= k < j ==> nbrs[k] in parent
    {
      if nbrs[j] !in parent {
        checked := false;
      }
      j := j + 1;
    }
  }

  /** Adding a new key makes fewer nodes remain without an entry. */
  lemma MeasureDrop<Node(!new)>(graph: Graph<Node>, a: set<Node>, b: set<Node>, x: Node)
    requires a <= b && x in b && x !in a && x in graph
    ensures |graph.Keys - b| < |graph.Keys - a|
  {
    SubsetCard((graph.Keys - b) + {x}, graph.Keys - a);
  }

  /** Giving nbr the parent start keeps the growth from parent0 a search from start. */
  lemma ExtendsAdd<Node(!new)>(graph: Graph<Node>, start: Node, parent0: map<Node, Option<Node>>, parent: map<Node, Option<Node>>, nbr: Node)
    requires start in graph && nbr in graph[start] && nbr in graph && nbr !in parent
    requires Extends(graph, start, parent0, parent)
    ensures Extends(graph, start, parent0, parent[nbr := Some(start)])
  {
    ReachableSelf(graph, start);
    ReachableStep(graph, start, start, nbr);
  }

  /** The growth from a recursive call at a new node nbr joins on to the growth from parent0. */
  lemma ExtendsChild<Node(!new)>(graph: Graph<Node>, start: Node, nbr: Node,
                           parent0: map<Node, Option<Node>>, parent1: map<Node, Option<Node>>, parent2: map<Node, Option<Node>>)
    requires Extends(graph, start, parent0, parent1)
    requires nbr in parent1 && nbr !in parent0
    requires Extends(graph, nbr, parent1, parent2)
    ensures Extends(graph, start, parent0, parent2)
  {
    forall k | k in parent2 && k !in parent0
      ensures parent2[k].Some? && parent2[k].value in graph && k in graph[parent2[k].value]
      ensures parent2[k].value == start || (parent2[k].value in parent2 && parent2[k].value !in parent0)
    {
      if k in parent1 {
        assert parent2[k] == parent1[k];
      }
    }
    forall k | k in parent2 && k !in parent0 ensures Reachable(graph, start, k) {
      if k !in parent1 {
        ReachableTrans(graph, start, nbr, k);
      }
    }
  }

  /** The state of the second loop, after the neighbours of start before index j. */
  ghost predicate Progress<Node(!new)>(graph: Graph<Node>, start: Node, end: Node,
                                 parent0: map<Node, Option<Node>>, parent: map<Node, Option<Node>>, j: int)
    requires start in graph
  {
    && Extends(graph, start, parent0, parent)
    && 0 <= j <= |graph[start]|
    && ((end in parent && end !in parent0)
        || ((forall k :: 0 <= k < j ==> graph[start][k] in parent)
            && (forall k :: k in parent && k !in parent0 ==> k in graph && Covered(graph, k, parent))))
  }

  /** The neighbour at index j has been dealt with: it had an entry, or was added and searched from. */
  lemma ProgressStep<Node(!new)>(graph: Graph<Node>, start: Node, end: Node, parent0: map<Node, Option<Node>>,
                           parent: map<Node, Option<Node>>, parent': map<Node, Option<Node>>, j: int)
    requires start in graph && Progress(graph, start, end, parent0, parent, j) && j < |graph[start]|
    requires parent' == parent || graph[start][j] !in parent
    requires var nbr := graph[start][j];
      parent' != parent ==>
        && nbr in graph
        && Extends(graph, nbr, parent[nbr := Some(start)], parent')
        && ((end in parent' && end !in parent[nbr := Some(start)]) || Explored(graph, nbr, parent[nbr := Some(start)], parent'))
    requires parent' == parent ==> graph[start][j] in parent
    ensures Progress(graph, start, end, parent0, parent', j + 1)
  {
    var nbr := graph[start][j];
    if parent' != parent {
      var parent1 := parent[nbr := Some(start)];
      ExtendsAdd(graph, start, parent0, parent, nbr);
      ExtendsChild(graph, start, nbr, parent0, parent1, parent');
      if !(end in parent' && end !in parent0) {
        assert end !in parent || end in parent0;
        forall k | 0 <= k < j + 1 ensures graph[start][k] in parent' {
        }
        forall k | k in parent' && k !in parent0 ensures k in graph && Covered(graph, k, parent') {
          if k in parent1 && k != nbr {
            assert Covered(graph, k, parent);
          }
        }
      }
    }
  }

  /**
   * Recursive depth-first search from start: if start has a neighbour
   * without an entry, each such neighbour in turn gets start as its parent
   * and, unless it is end, the search goes on from it. An entry, once made,
   * is never changed. Reaching end stops only the call that reached it; the
   * calls below it on the recursion go on.
   */
  method Dfs<Node(==,!new)>(graph: Graph<Node>, start: Node, end: Node, parent0: map<Node, Option<Node>>)
      returns (parent: map<Node, Option<Node>>)
    requires Closed(graph) && start in graph && parent0.Keys <= graph.Keys
    ensures Extends(graph, start, parent0, parent)
    ensures (forall m :: m in graph[start] ==> m in parent0) ==> parent == parent0
    ensures (end in parent && end !in parent0) || Explored(graph, start, parent0, parent)
    ensures end in parent && end !in parent0 ==> Reachable(graph, start, end)
    decreases |graph.Keys - parent0.Keys|
  {
    parent := parent0;
    var nbrs := graph[start];
    var checked := AllKnown(nbrs, parent);
    if checked {
      return;
    }
    var j := 0;
    while j < |nbrs|
      invariant Progress(graph, start, end, parent0, parent, j)
    {
      var nbr := nbrs[j];
      ghost var before := parent;
      if nbr !in parent {
        parent := parent[nbr := Some(start)];
        if nbr == end {
          ExtendsAdd(graph, start, parent0, before, nbr);
          return;
        }
        MeasureDrop(graph, parent0.Keys, parent.Keys, nbr);
        parent := Dfs(graph, nbr, end, parent);
      }
      ProgressStep(graph, start, end, parent0, before, parent, j);
      j := j + 1;
    }
  }

  /** Every walk from start stays within the entries of a search that explored all it added. */
  lemma {:induction false} ExploredWalk<Node(!new)>(graph: Graph<Node>, start: Node, parent0: map<Node, Option<Node>>,
                                              parent: map<Node, Option<Node>>, w: seq<Node>)
    requires start in graph && parent.Keys <= graph.Keys && parent0.Keys <= {start}
    requires Explored(graph, start, parent0, parent)
    requires IsWalk(graph, w) && w[0] == start
    ensures w[|w| - 1] == start || w[|w| - 1] in parent
    decreases |w|
  {
    if |w| > 1 {
      var w' := w[..|w| - 1];
      assert IsWalk(graph, w');
      ExploredWalk(graph, start, parent0, parent, w');
      var last := w'[|w'| - 1];
      assert w[|w| - 1] in graph[last];
      if last != start {
        assert last in parent && last !in parent0;
      }
    }
  }

  /**
   * Started as the source starts it, with only start's entry, a search that
   * does not add end has given entries to every node a walk from start
   * reaches.
   */
  lemma DfsReaches<Node(!new)>(graph: Graph<Node>, start: Node, end: Node, parent: map<Node, Option<Node>>)
    requires start in graph && parent.Keys <= graph.Keys
    requires (end in parent && end !in map[start := Option<Node>.None]) || Explored(graph, start, map[start := Option<Node>.None], parent)
    requires end !in parent
    ensures forall w, n :: WalkFromTo(graph, w, start, n) ==> n == start || n in parent
  {
    forall w, n | WalkFromTo(graph, w, start, n) ensures n == start || n in parent {
      ExploredWalk(graph, start, map[start := Option<Node>.None], parent, w);
    }
  }

  /**
   * Started as the source starts it, with only start's entry, the search
   * gives end, for an end other than start, an entry exactly when some walk
   * leads from start to end.
   */
  lemma DfsFindsIffReachable<Node(!new)>(graph: Graph<Node>, start: Node, end: Node, parent: map<Node, Option<Node>>)
    requires start in graph && end in graph && end != start && parent.Keys <= graph.Keys
    requires Extends(graph, start, map[start := Option<Node>.None], parent)
    requires (end in parent && end !in map[start := Option<Node>.None]) || Explored(graph, start, map[start := Option<Node>.None], parent)
    ensures end in parent <==> Reachable(graph, start, end)
  {
    if end !in parent {
      DfsReaches(graph, start, end, parent);
    }
  }
}
