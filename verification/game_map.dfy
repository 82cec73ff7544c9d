/**
 * The graph store of the pathfinding engine: named nodes and an undirected,
 * weighted adjacency structure. Every mutator is a pure function returning
 * the new map; the Java object's fields become the record's fields.
 */
module GameMap {
  import opened Wrappers

  /** One adjacency record: the neighbour it leads to and the movement cost. */
  datatype Edge = Edge(target: int, weight: real)

  /**
   * `numNodes` is the node counter, `names` the node-id-to-name table and
   * `adj` the ordered adjacency list of every node. A name is `None` when the
   * node was added with a `null` name, which Java accepts.
   */
  datatype GameMap = GameMap(numNodes: int, names: map<int, Option<string>>, adj: map<int, seq<Edge>>)

  /** How often `e` occurs in an adjacency list. */
  function Count(es: seq<Edge>, e: Edge): nat
  {
    multiset(es)[e]
  }

  /** Every adjacency record points at an existing node. */
  ghost predicate Closed(g: GameMap)
  {
    forall u, e :: u in g.adj && e in g.adj[u] ==> e.target in g.adj
  }

  /** Each record u -> (v, w) is matched by as many records v -> (u, w). */
  ghost predicate Symmetric(g: GameMap)
  {
    forall u, v, w :: u in g.adj && v in g.adj ==> Count(g.adj[u], Edge(v, w)) == Count(g.adj[v], Edge(u, w))
  }

  /**
   * The invariant of every map built from the empty constructor with
   * `AddNode` and `AddEdge`: the two tables share a domain, the counter is the
   * number of nodes, and the edge records are closed and symmetric.
   */
  ghost predicate Valid(g: GameMap)
  {
    && g.names.Keys == g.adj.Keys
    && g.numNodes == |g.names.Keys|
    && Closed(g)
    && Symmetric(g)
  }

  /** `u` has at least one edge record leading to `v`. */
  ghost predicate Adjacent(g: GameMap, u: int, v: int)
  {
    u in g.adj && exists i :: 0 <= i < |g.adj[u]| && g.adj[u][i].target == v
  }

  // ---------------------------------------------------------------------------
  // Lookups

  /** The node counter; in a valid map it is the number of distinct ids. */
  function NumNodes(g: GameMap): (n: int)
    ensures Valid(g) ==> n == |NodeIds(g)|
  {
    g.numNodes
  }

  function NodeIds(g: GameMap): (ids: set<int>)
    ensures forall id :: id in ids <==> HasNode(g, id)
  {
    g.names.Keys
  }

  /** A node exists exactly when it has a name entry, and then also an adjacency list. */
  predicate HasNode(g: GameMap, id: int): (b: bool)
    ensures Valid(g) ==> (b <==> id in g.adj)
  {
    id in g.names
  }

  /**
   * The node's name; `None` stands for Java's `null`, returned for an unknown
   * id and for a node added with a `null` name.
   */
  function GetNodeName(g: GameMap, id: int): (r: Option<string>)
    ensures !HasNode(g, id) ==> r == None
  {
    if id in g.names then g.names[id] else None
  }

  /** The node's adjacency list, or the empty list for an unknown id. */
  function GetEdges(g: GameMap, id: int): (es: seq<Edge>)
    ensures Valid(g) && !HasNode(g, id) ==> es == []
    ensures Valid(g) ==> forall e :: e in es ==> HasNode(g, e.target)
  {
    if id in g.adj then g.adj[id] else []
  }

  // ---------------------------------------------------------------------------
  // Construction and mutation

  function Empty(): (g: GameMap)
    ensures Valid(g)
    ensures NumNodes(g) == 0 && NodeIds(g) == {}
    ensures forall id :: !HasNode(g, id) && GetNodeName(g, id) == None && GetEdges(g, id) == []
  {
    GameMap(0, map[], map[])
  }

  /** Adds a node with no edges; an id already present leaves the map as it was. */
  function AddNode(g: GameMap, id: int, name: Option<string>): (r: GameMap)
    ensures HasNode(g, id) ==> r == g
    ensures !HasNode(g, id) ==>
              && HasNode(r, id)
              && GetNodeName(r, id) == name
              && GetEdges(r, id) == []
              && NumNodes(r) == NumNodes(g) + 1
    ensures NodeIds(r) == NodeIds(g) + {id}
    ensures forall x :: x != id ==> GetNodeName(r, x) == GetNodeName(g, x) && GetEdges(r, x) == GetEdges(g, x)
  {
    if id in g.names then g
    else GameMap(g.numNodes + 1, g.names[id := name], g.adj[id := []])
  }

  /**
   * Adds an undirected edge as two records, one at each end, appended to the
   * end of the lists; nothing happens unless both endpoints exist.
   */
  function AddEdge(g: GameMap, s: int, t: int, w: real): (r: GameMap)
    ensures !(s in g.adj && t in g.adj) ==> r == g
    ensures r.names == g.names && r.numNodes == g.numNodes && r.adj.Keys == g.adj.Keys
    ensures s in g.adj && t in g.adj && s != t ==>
              r.adj[s] == g.adj[s] + [Edge(t, w)] && r.adj[t] == g.adj[t] + [Edge(s, w)]
    ensures s in g.adj && s == t ==> r.adj[s] == g.adj[s] + [Edge(t, w), Edge(s, w)]
    ensures forall x :: x in g.adj && x != s && x != t ==> r.adj[x] == g.adj[x]
  {
    if s in g.adj && t in g.adj then
      var a := g.adj[s := g.adj[s] + [Edge(t, w)]];
      g.(adj := a[t := a[t] + [Edge(s, w)]])
    else
      g
  }

  /**
   * The index of the first record in `es` that leads to `t`, scanning in list
   * order.
   */
  function FirstMatch(es: seq<Edge>, t: int): (r: Option<nat>)
    ensures r.None? <==> forall i :: 0 <= i < |es| ==> es[i].target != t
    ensures r.Some? ==> r.value < |es| && es[r.value].target == t
    ensures r.Some? ==> forall j :: 0 <= j < r.value ==> es[j].target != t
    decreases |es|
  {
    if es == [] then None
    else if es[0].target == t then Some(0)
    else
      match FirstMatch(es[1..], t)
      case None => None
      case Some(i) => Some(i + 1)
  }

  /**
   * The weight of the first record from `s` to `t`, or the sentinel -1 when `s`
   * is unknown or has no record leading to `t`.
   */
  function GetEdgeWeight(g: GameMap, s: int, t: int): (r: real)
    ensures s !in g.adj ==> r == -1.0
    ensures s in g.adj && (forall i :: 0 <= i < |g.adj[s]| ==> g.adj[s][i].target != t) ==> r == -1.0
    ensures s in g.adj ==>
              forall i | 0 <= i < |g.adj[s]| && g.adj[s][i].target == t
                :: (forall j :: 0 <= j < i ==> g.adj[s][j].target != t) ==> r == g.adj[s][i].weight
  {
    if s !in g.adj then -1.0
    else
      match FirstMatch(g.adj[s], t)
      case None => -1.0
      case Some(i) => g.adj[s][i].weight
  }

  // ---------------------------------------------------------------------------
  // Properties

  /** Multiset view of `AddEdge`: exactly the two new records are added. */
  lemma AddEdgeCount(g: GameMap, s: int, t: int, w: real, x: int, e: Edge)
    requires s in g.adj && t in g.adj && x in g.adj
    ensures Count(AddEdge(g, s, t, w).adj[x], e)
         == Count(g.adj[x], e)
            + (if x == s && e == Edge(t, w) then 1 else 0)
            + (if x == t && e == Edge(s, w) then 1 else 0)
  {
    var r := AddEdge(g, s, t, w);
    if s == t && x == s {
      assert multiset(r.adj[x]) == multiset(g.adj[x]) + multiset{Edge(t, w), Edge(s, w)};
    } else if x == s {
      assert multiset(r.adj[x]) == multiset(g.adj[x]) + multiset{Edge(t, w)};
    } else if x == t {
      assert multiset(r.adj[x]) == multiset(g.adj[x]) + multiset{Edge(s, w)};
    }
  }

  lemma AddNodePreservesValid(g: GameMap, id: int, name: Option<string>)
    requires Valid(g)
    ensures Valid(AddNode(g, id, name))
  {
    if id !in g.names {
      var r := AddNode(g, id, name);
      assert r.names.Keys == g.names.Keys + {id};
      forall u, v, w | u in r.adj && v in r.adj
        ensures Count(r.adj[u], Edge(v, w)) == Count(r.adj[v], Edge(u, w))
      {
        if u == id && v != id {
          assert Edge(u, w) !in g.adj[v];
        } else if v == id && u != id {
          assert Edge(v, w) !in g.adj[u];
        }
      }
    }
  }

  lemma AddEdgePreservesValid(g: GameMap, s: int, t: int, w: real)
    requires Valid(g)
    ensures Valid(AddEdge(g, s, t, w))
  {
    if s in g.adj && t in g.adj {
      var r := AddEdge(g, s, t, w);
      forall u, e | u in r.adj && e in r.adj[u]
        ensures e.target in r.adj
      {
        if u != s && u != t {
          assert e in g.adj[u];
        } else if e !in g.adj[u] {
          assert multiset(r.adj[u])[e] > 0;
          AddEdgeCount(g, s, t, w, u, e);
        }
      }
      forall u, v, w' | u in r.adj && v in r.adj
        ensures Count(r.adj[u], Edge(v, w')) == Count(r.adj[v], Edge(u, w'))
      {
        AddEdgeCount(g, s, t, w, u, Edge(v, w'));
        AddEdgeCount(g, s, t, w, v, Edge(u, w'));
      }
    }
  }

  /** In a valid map adjacency is a symmetric relation. */
  lemma AdjacentSymmetric(g: GameMap, u: int, v: int)
    requires Valid(g) && v in g.adj
    ensures Adjacent(g, u, v) <==> Adjacent(g, v, u)
  {
    if Adjacent(g, u, v) {
      var i :| 0 <= i < |g.adj[u]| && g.adj[u][i].target == v;
      var w := g.adj[u][i].weight;
      assert Count(g.adj[u], Edge(v, w)) > 0;
      assert Count(g.adj[v], Edge(u, w)) > 0;
      assert Edge(u, w) in g.adj[v];
      var j :| 0 <= j < |g.adj[v]| && g.adj[v][j] == Edge(u, w);
    }
    if Adjacent(g, v, u) {
      var i :| 0 <= i < |g.adj[v]| && g.adj[v][i].target == u;
      var w := g.adj[v][i].weight;
      assert Count(g.adj[v], Edge(u, w)) > 0;
      assert Count(g.adj[u], Edge(v, w)) > 0;
      assert Edge(v, w) in g.adj[u];
      var j :| 0 <= j < |g.adj[u]| && g.adj[u][j] == Edge(v, w);
    }
  }

  /**
   * Connecting two nodes that were not yet adjacent makes `GetEdgeWeight`
   * report the new weight, in both directions when the map is valid.
   */
  lemma AddEdgeThenWeight(g: GameMap, s: int, t: int, w: real)
    requires s in g.adj && t in g.adj && !Adjacent(g, s, t)
    ensures GetEdgeWeight(AddEdge(g, s, t, w), s, t) == w
    ensures Valid(g) ==> GetEdgeWeight(AddEdge(g, s, t, w), t, s) == w
  {
    var r := AddEdge(g, s, t, w);
    var n := |g.adj[s]|;
    assert r.adj[s][n] == Edge(t, w);
    if Valid(g) {
      AdjacentSymmetric(g, s, t);
      assert r.adj[t][|g.adj[t]|] == Edge(s, w);
    }
  }

  /** With parallel edges the first record wins, not the cheapest one. */
  lemma FirstParallelEdgeWins()
    ensures
      var g := AddEdge(AddEdge(AddNode(AddNode(Empty(), 0, Some("A")), 1, Some("B")), 0, 1, 7.0), 0, 1, 3.0);
      GetEdgeWeight(g, 0, 1) == 7.0 && GetEdgeWeight(g, 1, 0) == 7.0
  {
    var g := AddEdge(AddEdge(AddNode(AddNode(Empty(), 0, Some("A")), 1, Some("B")), 0, 1, 7.0), 0, 1, 3.0);
    assert g.adj[0] == [Edge(1, 7.0), Edge(1, 3.0)];
    assert g.adj[1] == [Edge(0, 7.0), Edge(0, 3.0)];
  }

  lemma TestNodesFirstStage(n0: GameMap, n1: GameMap, n2: GameMap)
    requires n0 == AddNode(Empty(), 0, Some("Node0")) && n1 == AddNode(n0, 1, Some("Node1"))
    requires n2 == AddNode(n1, 2, Some("Node2"))
    ensures 0 in n2.names && 3 !in n2.names && 4 !in n2.names && 99 !in n2.names
    ensures n2.adj == map[0 := [], 1 := [], 2 := []]
  {
  }

  lemma TestNodesSecondStage(n2: GameMap, n3: GameMap, n4: GameMap)
    requires 0 in n2.names && 3 !in n2.names && 4 !in n2.names && 99 !in n2.names
    requires n2.adj == map[0 := [], 1 := [], 2 := []]
    requires n3 == AddNode(n2, 3, Some("Node3")) && n4 == AddNode(n3, 4, Some("Node4"))
    ensures 0 in n4.names && 99 !in n4.names
    ensures n4.adj == map[0 := [], 1 := [], 2 := [], 3 := [], 4 := []]
  {
  }

  lemma TestEdgesStage(n4: GameMap, e0: GameMap, e1: GameMap, e2: GameMap, e3: GameMap, e4: GameMap)
    requires n4.adj == map[0 := [], 1 := [], 2 := [], 3 := [], 4 := []]
    requires e0 == AddEdge(n4, 0, 1, 1.0) && e1 == AddEdge(e0, 0, 2, 2.0) && e2 == AddEdge(e1, 1, 3, 1.5)
    requires e3 == AddEdge(e2, 2, 3, 1.0) && e4 == AddEdge(e3, 3, 4, 2.0)
    ensures e4.names == n4.names
    ensures e4.adj[0] == [Edge(1, 1.0), Edge(2, 2.0)]
    ensures e4.adj[3] == [Edge(1, 1.5), Edge(2, 1.0), Edge(4, 2.0)]
  {
  }

  lemma QueriesOnShape(m: GameMap)
    requires 0 in m.names && 99 !in m.names && 0 in m.adj && 3 in m.adj
    requires m.adj[0] == [Edge(1, 1.0), Edge(2, 2.0)]
    requires m.adj[3] == [Edge(1, 1.5), Edge(2, 1.0), Edge(4, 2.0)]
    ensures HasNode(m, 0) && !HasNode(m, 99)
    ensures GetEdgeWeight(m, 0, 2) == 2.0
    ensures GetEdgeWeight(m, 0, 4) == -1.0
    ensures GetEdges(m, 3) == [Edge(1, 1.5), Edge(2, 1.0), Edge(4, 2.0)]
  {
    assert m.adj[0][1].target == 2;
  }

  /**
   * The edge queries the unit tests make on their five-node map, whose states
   * after each `addNode` and `addEdge` call are `n0` ... `n4` and `e0` ... `e4`:
   *   0 --- 1
   *   |     |
   *   2 --- 3 --- 4
   */
  lemma SimpleTestMapQueries(n0: GameMap, n1: GameMap, n2: GameMap, n3: GameMap, n4: GameMap,
                             e0: GameMap, e1: GameMap, e2: GameMap, e3: GameMap, e4: GameMap)
    requires n0 == AddNode(Empty(), 0, Some("Node0")) && n1 == AddNode(n0, 1, Some("Node1"))
    requires n2 == AddNode(n1, 2, Some("Node2")) && n3 == AddNode(n2, 3, Some("Node3"))
    requires n4 == AddNode(n3, 4, Some("Node4"))
    requires e0 == AddEdge(n4, 0, 1, 1.0) && e1 == AddEdge(e0, 0, 2, 2.0) && e2 == AddEdge(e1, 1, 3, 1.5)
    requires e3 == AddEdge(e2, 2, 3, 1.0) && e4 == AddEdge(e3, 3, 4, 2.0)
    ensures HasNode(e4, 0) && !HasNode(e4, 99)
    ensures GetEdgeWeight(e4, 0, 2) == 2.0
    ensures GetEdgeWeight(e4, 0, 4) == -1.0
    ensures GetEdges(e4, 3) == [Edge(1, 1.5), Edge(2, 1.0), Edge(4, 2.0)]
  {
    TestNodesFirstStage(n0, n1, n2);
    TestNodesSecondStage(n2, n3, n4);
    TestEdgesStage(n4, e0, e1, e2, e3, e4);
    QueriesOnShape(e4);
  }
}
