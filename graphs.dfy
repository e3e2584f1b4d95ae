/**
  Directed graphs stored as adjacency lists, and the classical facts about
  cycles and topological orders that the depth-first traversals of the DAG
  class rely on.  Everything here is a pure value-level definition or lemma.
 */
module Graphs {

  /** Each vertex maps to its out-neighbours in edge-insertion order; an
      edge added twice appears twice. */
  type Graph<V> = map<V, seq<V>>

  /** Every vertex named in some neighbour list is itself a key. */
  ghost predicate Closed<V>(g: Graph<V>)
  {
    forall u, i :: u in g && 0 <= i < |g[u]| ==> g[u][i] in g
  }

  predicate NoDuplicates<V(==)>(s: seq<V>)
  {
    forall i, j :: 0 <= i < j < |s| ==> s[i] != s[j]
  }

  /** keys lists the vertices of g, each exactly once. */
  ghost predicate Lists<V(!new)>(keys: seq<V>, g: Graph<V>)
  {
    NoDuplicates(keys) && forall v :: v in g <==> v in keys
  }

  /** The graph after adding vertex v: a new vertex gets an empty list, an
      existing one is left alone. */
  function WithVertex<V>(g: Graph<V>, v: V): (r: Graph<V>)
    ensures r.Keys == g.Keys + {v} && r[v] == (if v in g then g[v] else [])
    ensures forall x :: x in g ==> r[x] == g[x]
  {
    if v in g then g else g[v := []]
  }

  /** Appending an edge between two vertices keeps the graph closed. */
  lemma AppendKeepsClosed<V>(g: Graph<V>, u: V, w: V)
    requires Closed(g) && u in g && w in g
    ensures Closed(g[u := g[u] + [w]])
  {
  }

  /** The graph after adding edge u -> w: both endpoints become vertices and
      w is appended to u's list, so a repeated edge is listed twice. */
  function WithEdge<V>(g: Graph<V>, u: V, w: V): (r: Graph<V>)
    ensures r.Keys == g.Keys + {u, w}
    ensures r[u] == (if u in g then g[u] else []) + [w]
    ensures forall x :: x in r && x != u ==> r[x] == if x in g then g[x] else []
    ensures Closed(g) ==> Closed(r)
  {
    var h := WithVertex(WithVertex(g, u), w);
    h[u := h[u] + [w]]
  }

  /** The vertex listing after adding vertex v: a new vertex goes last. */
  function WithKey<V(!new)>(keys: seq<V>, g: Graph<V>, v: V): (r: seq<V>)
    ensures Lists(keys, g) ==> Lists(r, WithVertex(g, v))
    ensures |keys| <= |r| && r[..|keys|] == keys
  {
    if v in g then keys else keys + [v]
  }

  /** Adding edge u -> w lists the missing endpoints last, u before w. */
  lemma EdgeKeys<V(!new)>(keys: seq<V>, g: Graph<V>, u: V, w: V)
    ensures WithKey(WithKey(keys, g, u), WithVertex(g, u), w)
         == keys + (if u in g then [] else [u]) + (if w in g || w == u then [] else [w])
  {
  }

  /** p is a non-empty walk along edges of g. */
  ghost predicate IsPath<V>(g: Graph<V>, p: seq<V>)
  {
    && |p| >= 1
    && (forall i :: 0 <= i < |p| ==> p[i] in g)
    && (forall i :: 0 <= i < |p| - 1 ==> p[i + 1] in g[p[i]])
  }

  /** c is a closed walk with at least one edge; a self-loop [a, a] is one. */
  ghost predicate IsCycle<V>(g: Graph<V>, c: seq<V>)
  {
    |c| >= 2 && IsPath(g, c) && c[0] == c[|c| - 1]
  }

  ghost predicate Cyclic<V(!new)>(g: Graph<V>)
  {
    exists c :: IsCycle(g, c)
  }

  /** Every out-neighbour of an entry of s that is a vertex is listed after it. */
  ghost predicate EdgesForward<V>(g: Graph<V>, s: seq<V>)
  {
    forall i :: 0 <= i < |s| && s[i] in g ==> forall w :: w in g[s[i]] ==> w in s[i + 1..]
  }

  /** A finish order: distinct vertices, each listed before all its successors,
      and every successor already listed. */
  ghost predicate FinishOrder<V>(g: Graph<V>, s: seq<V>)
  {
    && NoDuplicates(s)
    && (forall x :: x in s ==> x in g)
    && EdgesForward(g, s)
  }

  /** For every edge u -> w between entries of s, u comes before w. */
  ghost predicate TopologicallyOrdered<V>(g: Graph<V>, s: seq<V>)
  {
    forall i, j :: 0 <= i < |s| && 0 <= j < |s| && s[i] in g && s[j] in g[s[i]] ==> i < j
  }

  ghost predicate IsPermutation<V>(s: seq<V>, t: seq<V>)
  {
    multiset(s) == multiset(t)
  }

  function IndexOf<V(==)>(s: seq<V>, x: V): (k: nat)
    requires x in s
    ensures k < |s| && s[k] == x
    ensures forall j :: 0 <= j < k ==> s[j] != x
  {
    if s[0] == x then 0 else 1 + IndexOf(s[1..], x)
  }

  /** Prepending a vertex whose successors are all already finished keeps a
      finish order. */
  lemma PrependFinished<V>(g: Graph<V>, s: seq<V>, v: V)
    requires FinishOrder(g, s)
    requires v in g && v !in s
    requires forall w :: w in g[v] ==> w in s
    ensures FinishOrder(g, [v] + s)
  {
    var t := [v] + s;
    forall i | 0 <= i < |t| && t[i] in g
      ensures forall w :: w in g[t[i]] ==> w in t[i + 1..]
    {
      if i > 0 {
        assert t[i] == s[i - 1] && t[i + 1..] == s[i..];
      } else {
        assert t[1..] == s;
      }
    }
  }

  /** With no repeated entries, "every successor is listed later" is the
      position-wise topological condition. */
  lemma EdgesForwardIsTopological<V>(g: Graph<V>, s: seq<V>)
    requires NoDuplicates(s) && EdgesForward(g, s)
    ensures TopologicallyOrdered(g, s)
  {
    forall i, j | 0 <= i < |s| && 0 <= j < |s| && s[i] in g && s[j] in g[s[i]]
      ensures i < j
    {
      assert s[j] in s[i + 1..];
      var k :| 0 <= k < |s[i + 1..]| && s[i + 1..][k] == s[j];
      assert s[i + 1 + k] == s[j];
    }
  }

  /** Along any walk of at least one edge, positions in a topological order
      strictly increase from the first to the last vertex. */
  lemma {:induction false} PathClimbs<V>(g: Graph<V>, s: seq<V>, p: seq<V>)
    requires TopologicallyOrdered(g, s)
    requires forall x :: x in g ==> x in s
    requires IsPath(g, p) && |p| >= 2
    ensures IndexOf(s, p[0]) < IndexOf(s, p[|p| - 1])
  {
    assert p[1] in g[p[0]];
    if |p| > 2 {
      var q := p[1..];
      PathClimbs(g, s, q);
    }
  }

  /** A graph that has a topological order of all its vertices has no cycle;
      equivalently, a cyclic graph has no such order. */
  lemma OrderedIsAcyclic<V(!new)>(g: Graph<V>, s: seq<V>)
    requires TopologicallyOrdered(g, s)
    requires forall x :: x in g ==> x in s
    ensures !Cyclic(g)
  {
    if Cyclic(g) {
      var c :| IsCycle(g, c);
      PathClimbs(g, s, c);
    }
  }

  /** A finish order listing every vertex certifies that the graph is acyclic. */
  lemma FinishOrderAcyclic<V(!new)>(g: Graph<V>, s: seq<V>)
    requires FinishOrder(g, s)
    requires forall x :: x in g ==> x in s
    ensures !Cyclic(g)
  {
    EdgesForwardIsTopological(g, s);
    OrderedIsAcyclic(g, s);
  }

  /** An edge from the end of a walk back to a vertex on it closes a cycle. */
  lemma BackEdgeCycle<V(!new)>(g: Graph<V>, p: seq<V>, w: V)
    requires IsPath(g, p)
    requires w in p && w in g[p[|p| - 1]]
    ensures Cyclic(g)
  {
    var m :| 0 <= m < |p| && p[m] == w;
    var c := p[m..] + [w];
    assert IsCycle(g, c);
  }

  /** In a sequence without repeats every element occurs exactly once. */
  lemma {:induction false} DistinctCount<V>(s: seq<V>, x: V)
    requires NoDuplicates(s)
    ensures multiset(s)[x] == if x in s then 1 else 0
  {
    if s != [] {
      assert s == [s[0]] + s[1..];
      DistinctCount(s[1..], x);
    }
  }

  /** Two repeat-free sequences with the same elements are permutations of
      each other. */
  lemma DistinctSameElements<V>(s: seq<V>, t: seq<V>)
    requires NoDuplicates(s) && NoDuplicates(t)
    requires forall x :: x in s <==> x in t
    ensures IsPermutation(s, t)
  {
    forall x ensures multiset(s)[x] == multiset(t)[x] {
      DistinctCount(s, x);
      DistinctCount(t, x);
    }
  }
}
