/**
  The DAG class of dag.py: an adjacency-list graph store with two mutators
  (AddVertex, AddEdge) and two depth-first traversals (HasCycle and
  TopologicalSort, each with its recursive helper).

  The Python dictionary `graph` is split into `keys`, its iteration
  (insertion) order, and `adj`, its contents.  The `visited` and `rec_stack`
  dictionaries and the result list of a traversal are local to one call of
  the public method; the helpers take them as values and hand back the
  updated values, which is how the in-place updates are modelled.
 */
module Dag {
  import opened Graphs

  class DAG<V(==, !new)> {
    var keys: seq<V>
    var adj: map<V, seq<V>>

    /** keys lists each vertex once, and every neighbour is a vertex. */
    ghost predicate Valid()
      reads this
    {
      && Lists(keys, adj)
      && Closed(adj)
    }

    /** A flag map with exactly one entry per vertex. */
    ghost predicate Flags(m: map<V, bool>)
      reads this
    {
      m.Keys == adj.Keys
    }

    ghost function Unvisited(visited: map<V, bool>): set<V>
      reads this
      requires Flags(visited)
    {
      set x | x in adj && !visited[x]
    }

    constructor ()
      ensures Valid()
      ensures keys == [] && adj == map[]
    {
      keys := [];
      adj := map[];
    }

    /** Inserts v with no neighbours when it is absent; otherwise does nothing. */
    method AddVertex(v: V)
      requires Valid()
      modifies this
      ensures Valid()
      ensures keys == WithKey(old(keys), old(adj), v)
      ensures adj == WithVertex(old(adj), v)
    {
      if v !in adj {
        keys := keys + [v];
        adj := adj[v := []];
      }
    }

    /** Creates the missing endpoints, in the order source then target, and
        appends target to source's list. */
    method AddEdge(source: V, target: V)
      requires Valid()
      modifies this
      ensures Valid()
      ensures keys == WithKey(WithKey(old(keys), old(adj), source), WithVertex(old(adj), source), target)
      ensures adj == WithEdge(old(adj), source, target)
    {
      AddVertex(source);
      AddVertex(target);
      AppendKeepsClosed(adj, source, target);
      adj := adj[source := adj[source] + [target]];
    }

    /** Depth-first search from the unvisited vertex v.  `path` is the current
        DFS path (the vertices whose stack flag is set) and `done` lists the
        finished vertices, the most recently finished first. */
    method HasCycleUtil(v: V, visited: map<V, bool>, onStack: map<V, bool>,
                        ghost path: seq<V>, ghost done: seq<V>)
      returns (found: bool, visited': map<V, bool>, onStack': map<V, bool>, ghost done': seq<V>)
      requires Valid() && Flags(visited) && Flags(onStack)
      requires v in adj && !visited[v]
      requires IsPath(adj, path + [v])
      requires forall x :: x in adj ==> (onStack[x] <==> x in path)
      requires forall x :: x in adj ==> (visited[x] <==> x in path || x in done)
      requires FinishOrder(adj, done)
      decreases Unvisited(visited)
      ensures Flags(visited') && Flags(onStack')
      ensures forall x :: x in adj && visited[x] ==> visited'[x]
      ensures found ==> Cyclic(adj)
      ensures !found ==> && visited'[v]
                         && onStack' == onStack
                         && FinishOrder(adj, done') && v in done'
                         && (forall x :: x in adj ==> (visited'[x] <==> x in path || x in done'))
                         && (forall x :: x in done ==> x in done')
                         && (forall x :: x in done' ==> x in done || !visited[x])
    {
      visited' := visited[v := true];
      onStack' := onStack[v := true];
      done' := done;
      var neighbors := adj[v];
      for k := 0 to |neighbors|
        invariant Flags(visited') && Flags(onStack')
        invariant forall x :: x in adj && visited[x] ==> visited'[x]
        invariant visited'[v]
        invariant onStack' == onStack[v := true]
        invariant FinishOrder(adj, done') && v !in done'
        invariant forall x :: x in adj ==> (visited'[x] <==> x in path + [v] || x in done')
        invariant forall x :: x in done ==> x in done'
        invariant forall x :: x in done' ==> x in done || !visited[x]
        invariant forall j :: 0 <= j < k ==> neighbors[j] in done'
      {
        var w := neighbors[k];
        if !visited'[w] {
          assert v in Unvisited(visited) - Unvisited(visited');
          assert IsPath(adj, path + [v] + [w]);
          found, visited', onStack', done' := HasCycleUtil(w, visited', onStack', path + [v], done');
          if found {
            return;
          }
        } else if onStack'[w] {
          BackEdgeCycle(adj, path + [v], w);
          found := true;
          return;
        }
      }
      PrependFinished(adj, done', v);
      onStack' := onStack'[v := false];
      done' := [v] + done';
      found := false;
    }

    /** True exactly when the graph has a directed cycle (a self-loop counts). */
    method HasCycle() returns (found: bool)
      requires Valid()
      ensures found <==> Cyclic(adj)
    {
      var visited := map x | x in adj :: false;
      var onStack := map x | x in adj :: false;
      ghost var done: seq<V> := [];
      for i := 0 to |keys|
        invariant Flags(visited) && Flags(onStack)
        invariant forall x :: x in adj ==> !onStack[x]
        invariant forall x :: x in adj ==> (visited[x] <==> x in done)
        invariant FinishOrder(adj, done)
        invariant forall j :: 0 <= j < i ==> visited[keys[j]]
      {
        var v := keys[i];
        if !visited[v] {
          var f;
          f, visited, onStack, done := HasCycleUtil(v, visited, onStack, [], done);
          if f {
            return true;
          }
        }
      }
      FinishOrderAcyclic(adj, done);
      return false;
    }

    /** Depth-first search from the unvisited vertex v that prepends each
        vertex to the result once all its unvisited successors are placed.
        `path` is the current DFS path. */
    method TopologicalSortUtil(v: V, visited: map<V, bool>, stack: seq<V>, ghost path: seq<V>)
      returns (visited': map<V, bool>, stack': seq<V>)
      requires Valid() && Flags(visited)
      requires v in adj && !visited[v]
      requires IsPath(adj, path + [v])
      requires forall x :: x in adj ==> (visited[x] <==> x in path || x in stack)
      requires NoDuplicates(stack) && forall x :: x in stack ==> x in adj
      requires !Cyclic(adj) ==> EdgesForward(adj, stack)
      decreases Unvisited(visited)
      ensures Flags(visited')
      ensures forall x :: x in adj && visited[x] ==> visited'[x]
      ensures visited'[v] && stack' != [] && stack'[0] == v
      ensures forall x :: x in stack ==> x in stack'
      ensures forall x :: x in adj ==> (visited'[x] <==> x in path || x in stack')
      ensures forall x :: x in stack' ==> x in stack || (x in adj && !visited[x])
      ensures NoDuplicates(stack')
      ensures !Cyclic(adj) ==> EdgesForward(adj, stack')
    {
      visited' := visited[v := true];
      stack' := stack;
      var neighbors := adj[v];
      for k := 0 to |neighbors|
        invariant Flags(visited')
        invariant forall x :: x in adj && visited[x] ==> visited'[x]
        invariant visited'[v] && v !in stack'
        invariant forall x :: x in stack ==> x in stack'
        invariant forall x :: x in adj ==> (visited'[x] <==> x in path + [v] || x in stack')
        invariant forall x :: x in stack' ==> x in stack || (x in adj && !visited[x])
        invariant NoDuplicates(stack') && forall x :: x in stack' ==> x in adj
        invariant !Cyclic(adj) ==> EdgesForward(adj, stack')
        invariant forall j :: 0 <= j < k ==> neighbors[j] in path + [v] || neighbors[j] in stack'
      {
        var w := neighbors[k];
        if !visited'[w] {
          assert v in Unvisited(visited) - Unvisited(visited');
          assert IsPath(adj, path + [v] + [w]);
          ghost var before := stack';
          visited', stack' := TopologicalSortUtil(w, visited', stack', path + [v]);
          forall j | 0 <= j <= k
            ensures neighbors[j] in path + [v] || neighbors[j] in stack'
          {
            if j == k {
              assert stack'[0] == neighbors[j];
            } else if neighbors[j] in before {
              assert neighbors[j] in stack';
            }
          }
          assert forall x :: x in adj ==> (visited'[x] <==> x in path + [v] || x in stack');
        } else {
          assert forall j :: 0 <= j <= k ==> neighbors[j] in path + [v] || neighbors[j] in stack';
        }
      }
      if !Cyclic(adj) {
        // a visited successor is either placed already or on the current
        // path, and the latter is a back edge
        forall w | w in adj[v]
          ensures w in stack'
        {
          if w in path + [v] {
            BackEdgeCycle(adj, path + [v], w);
          }
        }
        PrependFinished(adj, stack', v);
      }
      stack' := [v] + stack';
    }

    /** Every vertex exactly once; on an acyclic graph every edge points
        forward.  On a cyclic graph it still returns, in no particular order. */
    method TopologicalSort() returns (order: seq<V>)
      requires Valid()
      ensures NoDuplicates(order) && IsPermutation(order, keys)
      ensures TopologicallyOrdered(adj, order) <==> !Cyclic(adj)
    {
      var visited := map x | x in adj :: false;
      order := [];
      for i := 0 to |keys|
        invariant Flags(visited)
        invariant forall x :: x in adj ==> (visited[x] <==> x in order)
        invariant NoDuplicates(order) && forall x :: x in order ==> x in adj
        invariant !Cyclic(adj) ==> EdgesForward(adj, order)
        invariant forall j :: 0 <= j < i ==> visited[keys[j]]
      {
        var v := keys[i];
        if !visited[v] {
          visited, order := TopologicalSortUtil(v, visited, order, []);
        }
      }
      DistinctSameElements(order, keys);
      if !Cyclic(adj) {
        EdgesForwardIsTopological(adj, order);
      } else if TopologicallyOrdered(adj, order) {
        OrderedIsAcyclic(adj, order);
      }
    }
  }
}
