/**
 * Directed graphs as adjacency maps, shared by the two graph searches.
 * The graph library the searches call is not part of this model: a graph is
 * a map from each node to the sequence of its neighbours.
 */
module Graphs {

  datatype Option<T> = None | Some(value: T)

  type Graph<Node> = map<Node, seq<Node>>

  /** Every neighbour is itself a node of the graph. */
  ghost predicate Closed<Node>(graph: Graph<Node>)
  {
    forall n, m :: n in graph && m in graph[n] ==> m in graph
  }

  /** w is a non-empty walk along the edges of graph. */
  ghost predicate IsWalk<Node>(graph: Graph<Node>, w: seq<Node>)
  {
    && |w| > 0
    && (forall i :: 0 <= i < |w| ==> w[i] in graph)
    && (forall i :: 0 <= i < |w| - 1 ==> w[i + 1] in graph[w[i]])
  }

  /** w is a walk from a to b. */
  ghost predicate WalkFromTo<Node>(graph: Graph<Node>, w: seq<Node>, a: Node, b: Node)
  {
    IsWalk(graph, w) && w[0] == a && w[|w| - 1] == b
  }

  /** Some walk leads from a to b. */
  ghost predicate Reachable<Node(!new)>(graph: Graph<Node>, a: Node, b: Node)
  {
    exists w :: WalkFromTo(graph, w, a, b)
  }

  /** Every node reaches itself by the walk of one node. */
  lemma ReachableSelf<Node(!new)>(graph: Graph<Node>, a: Node)
    requires a in graph
    ensures Reachable(graph, a, a)
  {
    assert WalkFromTo(graph, [a], a, a);
  }

  /** A walk to b followed by the edge from b to c is a walk to c. */
  lemma ReachableStep<Node(!new)>(graph: Graph<Node>, a: Node, b: Node, c: Node)
    requires Reachable(graph, a, b) && b in graph && c in graph[b] && c in graph
    ensures Reachable(graph, a, c)
  {
    var w :| WalkFromTo(graph, w, a, b);
    var w' := w + [c];
    assert forall i :: 0 <= i < |w| ==> w'[i] == w[i];
    assert WalkFromTo(graph, w', a, c);
  }

  /** Reachability is transitive: two walks joined at b make one. */
  lemma ReachableTrans<Node(!new)>(graph: Graph<Node>, a: Node, b: Node, c: Node)
    requires Reachable(graph, a, b) && Reachable(graph, b, c)
    ensures Reachable(graph, a, c)
  {
    var w1 :| WalkFromTo(graph, w1, a, b);
    var w2 :| WalkFromTo(graph, w2, b, c);
    var w := w1 + w2[1..];
    assert forall i :: 0 <= i < |w1| ==> w[i] == w1[i];
    assert forall i :: |w1| <= i < |w| ==> w[i] == w2[i - |w1| + 1];
    assert IsWalk(graph, w) by {
      forall i | 0 <= i < |w| - 1 ensures w[i + 1] in graph[w[i]] {
        if i == |w1| - 1 {
          assert w[i] == w2[0];
        }
      }
    }
    assert w[|w| - 1] == c by {
      if |w2| == 1 {
        assert w == w1;
      }
    }
    assert WalkFromTo(graph, w, a, c);
  }

  /** A subset is no larger than the set that holds it. */
  lemma SubsetCard<T>(a: set<T>, b: set<T>)
    requires a <= b
    ensures |a| <= |b|
  {
    if a != {} {
      var x :| x in a;
      SubsetCard(a - {x}, b - {x});
    }
  }
}
