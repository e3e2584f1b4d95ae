/**
  The scenarios exercised by test_dag.py, stated over the DAG class and the
  graph definitions for any three distinct vertex labels a, b, c: what each
  sequence of calls is guaranteed to produce, derived from the contracts
  alone.
 */
module Scenarios {
  import opened Graphs
  import opened Dag

  /** g is the graph a -> b -> c. */
  ghost predicate IsChain<V>(g: Graph<V>, a: V, b: V, c: V)
  {
    g.Keys == {a, b, c} && a in g && g[a] == [b] && b in g && g[b] == [c] && c in g && g[c] == []
  }

  /** g is the graph a -> b, b -> c, a -> c. */
  ghost predicate IsDiamond<V>(g: Graph<V>, a: V, b: V, c: V)
  {
    g.Keys == {a, b, c} && a in g && g[a] == [b, c] && b in g && g[b] == [c] && c in g && g[c] == []
  }

  lemma ChainIsAcyclic<V(!new)>(g: Graph<V>, a: V, b: V, c: V)
    requires a != b && b != c && a != c
    requires IsChain(g, a, b, c)
    ensures !Cyclic(g)
  {
    var s := [a, b, c];
    assert s[1..] == [b, c] && s[2..] == [c];
    assert EdgesForward(g, s);
    FinishOrderAcyclic(g, s);
  }

  lemma DiamondIsAcyclic<V(!new)>(g: Graph<V>, a: V, b: V, c: V)
    requires a != b && b != c && a != c
    requires IsDiamond(g, a, b, c)
    ensures !Cyclic(g)
  {
    var s := [a, b, c];
    assert s[1..] == [b, c] && s[2..] == [c];
    assert EdgesForward(g, s);
    FinishOrderAcyclic(g, s);
  }

  /** The graph a -> b -> c -> a. */
  lemma TriangleIsCyclic<V(!new)>(g: Graph<V>, a: V, b: V, c: V)
    requires a in g && g[a] == [b] && b in g && g[b] == [c] && c in g && g[c] == [a]
    ensures Cyclic(g)
  {
    assert IsCycle(g, [a, b, c, a]);
  }

  /** The only topological order of the diamond's vertices is a, b, c. */
  lemma DiamondHasOneOrder<V>(g: Graph<V>, a: V, b: V, c: V, s: seq<V>)
    requires a != b && b != c && a != c
    requires IsDiamond(g, a, b, c)
    requires IsPermutation(s, [a, b, c])
    requires TopologicallyOrdered(g, s)
    ensures s == [a, b, c]
  {
    assert |s| == |multiset(s)| == 3;
    assert a in multiset(s) && b in multiset(s) && c in multiset(s);
    var i, j, k := IndexOf(s, a), IndexOf(s, b), IndexOf(s, c);
    assert s[j] in g[s[i]];
    assert s[k] in g[s[j]];
  }

  /** Adding a vertex twice leaves one key with an empty neighbour list. */
  method AddVertexTwice<V(==, !new)>(v: V) returns (keys: seq<V>, neighbors: seq<V>)
    ensures keys == [v] && neighbors == []
  {
    var dag := new DAG<V>();
    dag.AddVertex(v);
    dag.AddVertex(v);
    keys, neighbors := dag.keys, dag.adj[v];
  }

  /** Adding the same edge twice keeps both copies. */
  method AddEdgeTwice<V(==, !new)>(a: V, b: V) returns (keys: seq<V>, neighbors: seq<V>)
    ensures keys == if a == b then [a] else [a, b]
    ensures neighbors == [b, b]
  {
    var dag := new DAG<V>();
    dag.AddEdge(a, b);
    dag.AddEdge(a, b);
    keys, neighbors := dag.keys, dag.adj[a];
  }

  /** The empty graph has no cycle and sorts to the empty sequence. */
  method EmptyGraph<V(==, !new)>() returns (found: bool, order: seq<V>)
    ensures !found && order == []
  {
    var dag := new DAG<V>();
    assert !Cyclic(dag.adj) by {
      FinishOrderAcyclic(dag.adj, []);
    }
    found := dag.HasCycle();
    order := dag.TopologicalSort();
    assert |order| == |multiset(order)| == 0;
  }

  /** A self-loop is a cycle. */
  method SelfLoop<V(==, !new)>(a: V) returns (found: bool)
    ensures found
  {
    var dag := new DAG<V>();
    dag.AddEdge(a, a);
    assert IsCycle(dag.adj, [a, a]);
    found := dag.HasCycle();
  }

  /** Builds the single edge a -> b on a fresh graph. */
  method BuildEdge<V(==, !new)>(a: V, b: V) returns (dag: DAG<V>)
    requires a != b
    ensures fresh(dag) && dag.Valid() && dag.keys == [a, b]
    ensures dag.adj.Keys == {a, b} && dag.adj[a] == [b] && dag.adj[b] == []
  {
    dag := new DAG<V>();
    dag.AddEdge(a, b);
  }

  /** Builds a -> b -> c with two AddEdge calls. */
  method BuildChain<V(==, !new)>(a: V, b: V, c: V) returns (dag: DAG<V>)
    requires a != b && b != c && a != c
    ensures fresh(dag) && dag.Valid() && dag.keys == [a, b, c] && IsChain(dag.adj, a, b, c)
  {
    dag := BuildEdge(a, b);
    ghost var keys0, adj0 := dag.keys, dag.adj;
    dag.AddEdge(b, c);
    EdgeKeys(keys0, adj0, b, c);
  }

  /** a -> b -> c has no cycle; adding c -> a creates one. */
  method ChainThenClose<V(==, !new)>(a: V, b: V, c: V) returns (before: bool, after: bool)
    requires a != b && b != c && a != c
    ensures !before && after
  {
    var dag := BuildChain(a, b, c);
    ChainIsAcyclic(dag.adj, a, b, c);
    before := dag.HasCycle();
    dag.AddEdge(c, a);
    assert dag.adj[a] == [b] && dag.adj[b] == [c] && dag.adj[c] == [a];
    TriangleIsCyclic(dag.adj, a, b, c);
    after := dag.HasCycle();
  }

  /** Builds a -> b, b -> c, a -> c with three AddEdge calls. */
  method BuildDiamond<V(==, !new)>(a: V, b: V, c: V) returns (dag: DAG<V>)
    requires a != b && b != c && a != c
    ensures fresh(dag) && dag.Valid() && dag.keys == [a, b, c] && IsDiamond(dag.adj, a, b, c)
  {
    dag := BuildChain(a, b, c);
    dag.AddEdge(a, c);
    assert dag.keys == [a, b, c] && dag.adj[a] == [b, c] && dag.adj[b] == [c] && dag.adj[c] == [];
  }

  /** Sorting a -> b, b -> c, a -> c yields exactly a, b, c. */
  method SortDiamond<V(==, !new)>(a: V, b: V, c: V) returns (order: seq<V>)
    requires a != b && b != c && a != c
    ensures order == [a, b, c]
  {
    var dag := BuildDiamond(a, b, c);
    DiamondIsAcyclic(dag.adj, a, b, c);
    order := dag.TopologicalSort();
    DiamondHasOneOrder(dag.adj, a, b, c, order);
  }
}
