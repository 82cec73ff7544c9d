/**
 * `toUnweighted`: a fresh map with the same nodes and one weight-1 edge per
 * adjacent unordered pair, however many parallel records the original has.
 * The Java code iterates two hash maps; the orders in which it visits their
 * keys are parameters here, and every result below holds for every order.
 */
module Unweighted {
  import opened GameMap
  import EdgeKey

  /** `order` visits exactly the keys of `m` (possibly with repeats). */
  ghost predicate Enumerates<V>(order: seq<int>, m: map<int, V>)
  {
    forall x :: x in order <==> x in m
  }

  /** Every node's adjacency list is empty. */
  ghost predicate NoEdges(g: GameMap)
  {
    forall u :: u in g.adj ==> g.adj[u] == []
  }

  /** Every edge record carries weight 1. */
  ghost predicate UnitWeights(g: GameMap)
  {
    forall u, e :: u in g.adj && e in g.adj[u] ==> e.weight == 1.0
  }

  /** How many records of the unordered pair {u, v} the copy puts into u's list. */
  function Mult(u: int, v: int): nat
  {
    if u == v then 2 else 1
  }

  /** The copy under construction and the set of pair keys already handled. */
  datatype Copy = Copy(out: GameMap, seen: set<string>)

  lemma AddEdgeKeepsUnitWeights(g: GameMap, s: int, t: int)
    requires UnitWeights(g)
    ensures UnitWeights(AddEdge(g, s, t, 1.0))
  {
    var r := AddEdge(g, s, t, 1.0);
    forall u, e | u in r.adj && e in r.adj[u]
      ensures e.weight == 1.0
    {
      if s in g.adj && t in g.adj && e !in g.adj[u] {
        assert multiset(r.adj[u])[e] > 0;
        AddEdgeCount(g, s, t, 1.0, u, e);
      }
    }
  }

  /** The node-copying loop: `AddNode` for every id, in iteration order. */
  function CopyNodes(g: GameMap, ids: seq<int>, acc: GameMap): (r: GameMap)
    requires forall x :: x in ids ==> x in g.names
    requires Valid(acc) && NoEdges(acc)
    requires forall k :: k in acc.names ==> k in g.names && acc.names[k] == g.names[k]
    ensures Valid(r) && NoEdges(r)
    ensures forall k :: k in r.names <==> k in acc.names || k in ids
    ensures forall k :: k in r.names ==> r.names[k] == g.names[k]
    decreases |ids|
  {
    if ids == [] then acc
    else
      AddNodePreservesValid(acc, ids[0], g.names[ids[0]]);
      CopyNodes(g, ids[1..], AddNode(acc, ids[0], g.names[ids[0]]))
  }

  /**
   * The inner edge loop over one node's list: the first record of each
   * unordered pair adds a weight-1 edge and remembers the pair's key; later
   * records of the same pair are skipped.
   */
  function CopyList(source: int, es: seq<Edge>, st: Copy): (r: Copy)
    requires Valid(st.out) && UnitWeights(st.out)
    ensures Valid(r.out) && UnitWeights(r.out)
    ensures r.out.names == st.out.names && r.out.numNodes == st.out.numNodes && r.out.adj.Keys == st.out.adj.Keys
    ensures st.seen <= r.seen
    ensures forall e :: e in es ==> EdgeKey.Key(source, e.target) in r.seen
    decreases |es|
  {
    if es == [] then st
    else
      var key := EdgeKey.Key(source, es[0].target);
      if key in st.seen then
        CopyList(source, es[1..], st)
      else
        AddEdgePreservesValid(st.out, source, es[0].target, 1.0);
        AddEdgeKeepsUnitWeights(st.out, source, es[0].target);
        CopyList(source, es[1..], Copy(AddEdge(st.out, source, es[0].target, 1.0), st.seen + {key}))
  }

  /** The outer edge loop over the adjacency table, in iteration order. */
  function CopyAdjacency(g: GameMap, order: seq<int>, st: Copy): (r: Copy)
    requires forall x :: x in order ==> x in g.adj
    requires Valid(st.out) && UnitWeights(st.out)
    ensures Valid(r.out) && UnitWeights(r.out)
    ensures r.out.names == st.out.names && r.out.numNodes == st.out.numNodes && r.out.adj.Keys == st.out.adj.Keys
    ensures st.seen <= r.seen
    ensures forall u, e :: u in order && e in g.adj[u] ==> EdgeKey.Key(u, e.target) in r.seen
    decreases |order|
  {
    if order == [] then st
    else CopyAdjacency(g, order[1..], CopyList(order[0], g.adj[order[0]], st))
  }

  /**
   * `nodeOrder` and `edgeOrder` are the iteration orders of the name table and
   * of the adjacency table. The source map is a value and is left untouched.
   */
  function ToUnweighted(g: GameMap, nodeOrder: seq<int>, edgeOrder: seq<int>): (r: GameMap)
    requires Enumerates(nodeOrder, g.names) && Enumerates(edgeOrder, g.adj)
    ensures Valid(r) && UnitWeights(r)
    ensures r.names == g.names
    ensures NodeIds(r) == NodeIds(g) && NumNodes(r) == |NodeIds(g)|
    ensures Valid(g) ==> NumNodes(r) == NumNodes(g)
  {
    var nodes := CopyNodes(g, nodeOrder, Empty());
    assert forall k :: k in nodes.names <==> k in g.names;
    assert nodes.names.Keys == g.names.Keys;
    assert nodes.names == g.names;
    CopyAdjacency(g, edgeOrder, Copy(nodes, {})).out
  }

  // ---------------------------------------------------------------------------
  // The copy mirrors the adjacency of the original

  /**
   * While copying a valid map: the copy has exactly the pair's multiplicity of
   * weight-1 records for each handled pair and none for the others, and every
   * handled pair is adjacent in the original.
   */
  ghost predicate Mirrors(g: GameMap, st: Copy)
  {
    && Valid(st.out) && UnitWeights(st.out)
    && st.out.adj.Keys == g.adj.Keys
    && (forall u, v :: u in g.adj && v in g.adj ==>
          Count(st.out.adj[u], Edge(v, 1.0)) == (if EdgeKey.Key(u, v) in st.seen then Mult(u, v) else 0))
    && (forall u, v :: u in g.adj && v in g.adj && EdgeKey.Key(u, v) in st.seen ==> Adjacent(g, u, v))
  }

  lemma HandlePairCounts(g: GameMap, st: Copy, s: int, t: int, u: int, v: int)
    requires Valid(g) && Mirrors(g, st)
    requires s in g.adj && t in g.adj && u in g.adj && v in g.adj
    requires EdgeKey.Key(s, t) !in st.seen
    ensures Count(AddEdge(st.out, s, t, 1.0).adj[u], Edge(v, 1.0))
         == (if EdgeKey.Key(u, v) in st.seen + {EdgeKey.Key(s, t)} then Mult(u, v) else 0)
  {
    AddEdgeCount(st.out, s, t, 1.0, u, Edge(v, 1.0));
    EdgeKey.KeyInjective(u, v, s, t);
  }

  lemma HandlePairMirrors(g: GameMap, st: Copy, s: int, t: int)
    requires Valid(g) && Mirrors(g, st)
    requires s in g.adj && t in g.adj && Adjacent(g, s, t)
    requires EdgeKey.Key(s, t) !in st.seen
    ensures Mirrors(g, Copy(AddEdge(st.out, s, t, 1.0), st.seen + {EdgeKey.Key(s, t)}))
  {
    var r := AddEdge(st.out, s, t, 1.0);
    var seen := st.seen + {EdgeKey.Key(s, t)};
    AddEdgePreservesValid(st.out, s, t, 1.0);
    AddEdgeKeepsUnitWeights(st.out, s, t);
    forall u, v | u in g.adj && v in g.adj
      ensures Count(r.adj[u], Edge(v, 1.0)) == (if EdgeKey.Key(u, v) in seen then Mult(u, v) else 0)
    {
      HandlePairCounts(g, st, s, t, u, v);
    }
    forall u, v | u in g.adj && v in g.adj && EdgeKey.Key(u, v) in seen
      ensures Adjacent(g, u, v)
    {
      if EdgeKey.Key(u, v) == EdgeKey.Key(s, t) {
        EdgeKey.KeyInjective(u, v, s, t);
        AdjacentSymmetric(g, s, t);
      }
    }
  }

  lemma {:induction false} CopyListMirrors(g: GameMap, source: int, es: seq<Edge>, st: Copy)
    requires Valid(g) && source in g.adj && Mirrors(g, st)
    requires forall e :: e in es ==> e in g.adj[source]
    ensures Mirrors(g, CopyList(source, es, st))
    decreases |es|
  {
    if es != [] {
      var t := es[0].target;
      var key := EdgeKey.Key(source, t);
      if key in st.seen {
        CopyListMirrors(g, source, es[1..], st);
      } else {
        assert es[0] in g.adj[source];
        var i :| 0 <= i < |g.adj[source]| && g.adj[source][i] == es[0];
        assert Adjacent(g, source, t);
        HandlePairMirrors(g, st, source, t);
        CopyListMirrors(g, source, es[1..], Copy(AddEdge(st.out, source, t, 1.0), st.seen + {key}));
      }
    }
  }

  lemma {:induction false} CopyAdjacencyMirrors(g: GameMap, order: seq<int>, st: Copy)
    requires Valid(g) && Mirrors(g, st)
    requires forall x :: x in order ==> x in g.adj
    ensures Mirrors(g, CopyAdjacency(g, order, st))
    decreases |order|
  {
    if order != [] {
      CopyListMirrors(g, order[0], g.adj[order[0]], st);
      CopyAdjacencyMirrors(g, order[1..], CopyList(order[0], g.adj[order[0]], st));
    }
  }

  /** The final state of the copy loops mirrors the original and has handled every pair. */
  lemma ToUnweightedState(g: GameMap, nodeOrder: seq<int>, edgeOrder: seq<int>) returns (st: Copy)
    requires Valid(g) && Enumerates(nodeOrder, g.names) && Enumerates(edgeOrder, g.adj)
    ensures st.out == ToUnweighted(g, nodeOrder, edgeOrder)
    ensures Mirrors(g, st)
    ensures forall u, e :: u in g.adj && e in g.adj[u] ==> EdgeKey.Key(u, e.target) in st.seen
  {
    var nodes := CopyNodes(g, nodeOrder, Empty());
    var st0 := Copy(nodes, {});
    assert forall k :: k in nodes.names <==> k in g.names;
    assert nodes.names.Keys == g.names.Keys;
    assert Mirrors(g, st0);
    st := CopyAdjacency(g, edgeOrder, st0);
    CopyAdjacencyMirrors(g, edgeOrder, st0);
  }

  /**
   * In the projection of a valid map, u's list holds one weight-1 record for
   * each neighbour v != u (two for a self-loop, since `AddEdge` appends at
   * both ends of the same list), exactly when u and v are adjacent in the
   * original; so adjacency is preserved and parallel edges collapse.
   */
  lemma ToUnweightedAdjacency(g: GameMap, nodeOrder: seq<int>, edgeOrder: seq<int>, u: int, v: int)
    requires Valid(g) && Enumerates(nodeOrder, g.names) && Enumerates(edgeOrder, g.adj)
    requires HasNode(g, u) && HasNode(g, v)
    ensures Count(GetEdges(ToUnweighted(g, nodeOrder, edgeOrder), u), Edge(v, 1.0))
         == (if Adjacent(g, u, v) then Mult(u, v) else 0)
    ensures Adjacent(ToUnweighted(g, nodeOrder, edgeOrder), u, v) <==> Adjacent(g, u, v)
  {
    var st := ToUnweightedState(g, nodeOrder, edgeOrder);
    var r := st.out;
    if Adjacent(g, u, v) {
      var i :| 0 <= i < |g.adj[u]| && g.adj[u][i].target == v;
      assert g.adj[u][i] in g.adj[u];
      assert EdgeKey.Key(u, v) in st.seen;
    }
    if Adjacent(r, u, v) {
      var i :| 0 <= i < |r.adj[u]| && r.adj[u][i].target == v;
      assert r.adj[u][i] in r.adj[u];
      assert r.adj[u][i] == Edge(v, 1.0);
    }
    if Count(r.adj[u], Edge(v, 1.0)) > 0 {
      assert Edge(v, 1.0) in r.adj[u];
      var i :| 0 <= i < |r.adj[u]| && r.adj[u][i] == Edge(v, 1.0);
      assert Adjacent(r, u, v);
    }
  }
}
