# Strategic-map pathfinding core in Dafny

This project models the data layer of a course project on pathfinding for
grand-strategy game maps:

- **GameMap**: named provinces (nodes), plus an undirected, weighted adjacency
  structure. Every edge is stored as two directed records, one at each end.
- **toUnweighted**: turns a map into a BFS-ready map with all weights 1. Each
  unordered node pair gets one edge, remembered by the string key `min-max`.
- **WeatherSystem**: a global weather condition with per-tile overrides. Each
  condition has a movement-penalty multiplier, and an edge's base cost is
  scaled by the mean of its two endpoints' multipliers.
- **PathfindingAlgorithms**: the `PathQuery` cache key with Java's
  `equals`/`hashCode`, and `reconstructPath`, which walks parent pointers back
  from the target.

Each Java object becomes an immutable datatype, and each mutator becomes a
pure function that returns the new value.

Modules:
- `Wrappers` (`wrappers.dfy`): `Option`. `None` stands for Java's `null`.
- `EdgeKey` (`edge_key.dfy`): the dedup key and its parser.
- `GameMap` (`game_map.dfy`): the map.
- `Unweighted` (`unweighted.dfy`): `toUnweighted`.
- `WeatherSystem` (`weather_system.dfy`): the weather system.
- `PathfindingAlgorithms` (`pathfinding.dfy`): the query key and path reconstruction.

Modelling choices:
- Java `double` becomes `real`.
- Node ids and the node counter are unbounded integers.
- `hashCode` wraps to 32 bits explicitly.
- HashMap iteration order is not fixed by Java. Where the result depends on it
  (`toUnweighted`), the order is a parameter. The properties are stated for
  every order, as counts per node pair rather than list positions.

## Model

| member | source | states |
|---|---|---|
| GameMap.Empty | src/main/java/GameMap.java:34-38 | The new map is valid. It has zero nodes and no ids. Every id is unknown, with a null name and an empty edge list. |
| GameMap.AddNode | src/main/java/GameMap.java:102-108 | An existing id leaves the map unchanged. A fresh id becomes a node with the given name (possibly null) and no edges, and the counter grows by one. The id set gains exactly that id. Every other node keeps its name and edges. |
| GameMap.AddEdge | src/main/java/GameMap.java:117-122 | If either endpoint is missing, nothing changes. Otherwise (target, w) is appended to the source's list and (source, w) to the target's list. A self-loop appends both records to the same list. Names, counter and the node set are unchanged, and so are all other lists. |
| GameMap.NumNodes | src/main/java/GameMap.java:129-131 | In a valid map, getNumNodes equals the number of distinct node ids. |
| GameMap.NodeIds | src/main/java/GameMap.java:138-140 | getNodeIds contains exactly the ids for which hasNode holds. |
| GameMap.HasNode | src/main/java/GameMap.java:168-170 | In a valid map, a node exists exactly when it has an adjacency list. |
| GameMap.GetNodeName | src/main/java/GameMap.java:148-150 | An unknown id gives null. A known id gives the name it was added with, which AddNode pins down and which may itself be null. |
| GameMap.GetEdges | src/main/java/GameMap.java:158-160 | In a valid map, an unknown id gives the empty list and every returned edge leads to an existing node. |
| GameMap.FirstMatch | src/main/java/GameMap.java:214-218 | Returns the index of the first record leading to the target. Returns none exactly when no record does. |
| GameMap.GetEdgeWeight | src/main/java/GameMap.java:209-221 | Returns -1 when the source is unknown or has no record to the target. Otherwise returns the weight of the first such record in list order. |
| GameMap.AddEdgeCount | src/main/java/GameMap.java:117-122 | addEdge adds exactly one record at each end, counted as a multiset per list. |
| GameMap.AddNodePreservesValid | src/main/java/GameMap.java:102-108 | addNode keeps these invariants: equal name and adjacency domains, the counter equal to the node count, closed edges, and symmetric edges. |
| GameMap.AddEdgePreservesValid | src/main/java/GameMap.java:117-122 | addEdge keeps the same invariants. Each record u->(v,w) is matched by as many records v->(u,w). |
| GameMap.AdjacentSymmetric | src/main/java/GameMap.java:117-122 | In a valid map, u has an edge to v exactly when v has an edge to u. |
| GameMap.AddEdgeThenWeight | src/main/java/GameMap.java:117-122 | After addEdge connects two nodes that had no edge between them, getEdgeWeight reports the new weight from the source. In a valid map it also reports it from the target. |
| GameMap.SimpleTestMapQueries | src/test/java/PathfindingTest.java:390-399 | On the five-node test map built with addNode and addEdge: node 0 exists and 99 does not, the 0-2 edge weighs 2.0, 0 and 4 have no direct edge (-1), and node 3 has exactly the edges to 1 (1.5), 2 (1.0) and 4 (2.0), in that order. |
| GameMap.FirstParallelEdgeWins | src/main/java/GameMap.java:214-218 | With parallel edges of weight 7 then 3, getEdgeWeight reports 7 in both directions: the first record wins, not the cheapest. |
| EdgeKey.IntToString | src/main/java/GameMap.java:191 | Java's decimal rendering of an int: non-empty, starting with '-' exactly for negative values, digits after that. |
| EdgeKey.NatRoundTrip | src/main/java/GameMap.java:191 | Parsing the decimal rendering of a natural number gives that number back. |
| EdgeKey.IntRoundTrip | src/main/java/GameMap.java:191 | Parsing the rendering of any int, negative ones included, gives it back. |
| EdgeKey.KeyRoundTrip | src/main/java/GameMap.java:191 | The key `min + "-" + max` parses back to (min, max), negative ids included. |
| EdgeKey.KeyInjective | src/main/java/GameMap.java:187-194 | Two dedup keys are equal exactly when they come from the same unordered pair, so the key set tracks unordered pairs faithfully. |
| Unweighted.AddEdgeKeepsUnitWeights | src/main/java/GameMap.java:193 | Adding a weight-1 edge to a map whose weights are all 1 keeps every weight at 1. |
| Unweighted.CopyNodes | src/main/java/GameMap.java:182-184 | The node-copy loop yields a valid, edge-free map. Its ids are exactly those already present plus those iterated, with the original's names. |
| Unweighted.CopyList | src/main/java/GameMap.java:190-196 | The inner edge loop keeps the copy valid with unit weights. It leaves names, counter and node set alone, only grows the key set, and records the key of every edge it visits. |
| Unweighted.CopyAdjacency | src/main/java/GameMap.java:188-197 | The outer edge loop does the same, and records the key of every edge of every node it iterates. |
| Unweighted.ToUnweighted | src/main/java/GameMap.java:178-199 | For any iteration order, the result is valid with all weights 1. It has the same names and node ids, and its node count equals the number of ids, which is the original's getNumNodes when that map is valid. |
| Unweighted.HandlePairCounts | src/main/java/GameMap.java:192-195 | Adding the weight-1 edge (s,t) raises the count of weight-1 records u->v by the multiplicity of {s,t} when {u,v} = {s,t}, and leaves other pairs alone. |
| Unweighted.HandlePairMirrors | src/main/java/GameMap.java:192-195 | Handling a pair of adjacent nodes whose key is new keeps the copy an exact mirror of the handled pairs. |
| Unweighted.CopyListMirrors | src/main/java/GameMap.java:190-196 | The inner loop keeps the copy an exact mirror of the handled pairs. |
| Unweighted.CopyAdjacencyMirrors | src/main/java/GameMap.java:188-197 | The outer loop keeps the copy an exact mirror of the handled pairs. |
| Unweighted.ToUnweightedState | src/main/java/GameMap.java:178-199 | After both loops every adjacent pair of the original has been handled, and the copy mirrors them. |
| Unweighted.ToUnweightedAdjacency | src/main/java/GameMap.java:178-199 | For a valid map: u's list in the copy holds one weight-1 record to v (two for a self-loop) exactly when u and v are adjacent in the original, and none otherwise. Adjacency is preserved and parallel edges collapse into one. |
| WeatherSystem.Multiplier | src/main/java/WeatherSystem.java:20-26 | Every multiplier is at least 1, and exactly CLEAR has multiplier 1. |
| WeatherSystem.GetWeather | src/main/java/WeatherSystem.java:91-93 | A tile's override wins over the global weather. A tile without an override sees the global weather. |
| WeatherSystem.HasActiveWeather | src/main/java/WeatherSystem.java:195-207 | hasActiveWeather holds exactly when some tile experiences non-clear weather. This also covers a non-clear global condition, because the overrides are finite and so some tile has none. |
| WeatherSystem.GetWeatherMultiplier | src/main/java/WeatherSystem.java:79-83 | A tile's multiplier lies between 1 and 2.5, and is 1 exactly when the tile's weather (override, else global) is clear. |
| WeatherSystem.New | src/main/java/WeatherSystem.java:48-51 | A new system has clear weather and multiplier 1 on every tile, and no active weather. |
| WeatherSystem.SetGlobalWeather | src/main/java/WeatherSystem.java:58-61 | Overrides are discarded, so every tile has the new weather and its multiplier. Weather is active exactly when the new condition is not clear. |
| WeatherSystem.SetTileWeather | src/main/java/WeatherSystem.java:69-71 | The tile gets the given weather. Every other tile and the global condition are unchanged. |
| WeatherSystem.ApplyWeatherFront | src/main/java/WeatherSystem.java:120-124 | Every listed tile gets the front's weather. Unlisted tiles and the global condition are unchanged. |
| WeatherSystem.ClearAllWeather | src/main/java/WeatherSystem.java:129-132 | Returns the state of a new system: all tiles clear, no active weather. |
| WeatherSystem.ApplyWeatherToEdge | src/main/java/WeatherSystem.java:104-111 | With both endpoints clear the base weight is unchanged. A non-negative weight is never lowered and at most multiplied by 2.5. |
| WeatherSystem.ApplyWeatherToEdgeSymmetric | src/main/java/WeatherSystem.java:104-111 | The weathered cost is the same in both directions. |
| WeatherSystem.UniformWeatherScales | src/main/java/WeatherSystem.java:58-61 | Under one uniform condition, every edge costs its base weight times that condition's multiplier. |
| PathfindingAlgorithms.Equals | src/main/java/PathfindingAlgorithms.java:30-36 | equals holds exactly for a query object with the same start and target. null and objects of other classes are never equal. |
| PathfindingAlgorithms.EqualsIsEquivalence | src/main/java/PathfindingAlgorithms.java:30-36 | equals is reflexive, symmetric and transitive, and false against null. |
| PathfindingAlgorithms.QueryOrderSensitive | src/main/java/PathfindingAlgorithms.java:30-36 | (a, b) equals (b, a) only when a = b: queries are directional. |
| PathfindingAlgorithms.Wrap32 | src/main/java/PathfindingAlgorithms.java:39-41 | Java int arithmetic lands in the 32-bit signed range. |
| PathfindingAlgorithms.Wrap32Periodic | src/main/java/PathfindingAlgorithms.java:39-41 | Wrap-around ignores multiples of 2^32. |
| PathfindingAlgorithms.Wrap32OfInt32 | src/main/java/PathfindingAlgorithms.java:39-41 | Wrap-around leaves values that are already ints unchanged. |
| PathfindingAlgorithms.HashCode | src/main/java/PathfindingAlgorithms.java:39-41 | `Objects.hash(start, target)` is an int, equal to 961 + 31*start + target reduced to 32 bits. |
| PathfindingAlgorithms.HashCodeConsistent | src/main/java/PathfindingAlgorithms.java:30-41 | Equal queries have equal hash codes. |
| PathfindingAlgorithms.AncestorNoneStays | src/main/java/PathfindingAlgorithms.java:266-270 | Once the parent chain breaks, following more links stays broken. |
| PathfindingAlgorithms.CycleNeverStops | src/main/java/PathfindingAlgorithms.java:266-270 | A parent cycle that avoids start never lets the loop exit. |
| PathfindingAlgorithms.NextIsFresh | src/main/java/PathfindingAlgorithms.java:266-270 | When the loop terminates, the node it is about to prepend is not already on the path. |
| PathfindingAlgorithms.PathDeterminesReach | src/main/java/PathfindingAlgorithms.java:266-275 | The returned path fixes when the chain first reaches start. A path not headed by start means the chain never reaches start. |
| PathfindingAlgorithms.ReconstructPath | src/main/java/PathfindingAlgorithms.java:261-278 | Requires termination of the loop. The path ends at target, and read backwards it is target's parent chain. Each node's parent is its predecessor, and no node repeats. start = target gives [start]. The path starts with start exactly when the chain reaches start, and then its length is one plus the number of links to start's first occurrence. Otherwise it starts at the first parentless node and contains no start. |

## Left out

- Breadth-first search, Dijkstra, precomputation, weather-aware Dijkstra,
  `compareApproaches` and `main`: they are unimplemented stubs or console
  drivers, with no behaviour to model.
- `GameMap(String)` and `loadFromFile`: file I/O.
- `toString`, `getWeatherSummary` and `Weather.getDisplayName`: text formatting only.
- `generateRandomWeather`: depends on a random source.
- `Complexity.java` and `Tile.java`: not part of this model.
- Iteration order of Java's HashMap: taken as a parameter of `toUnweighted`.
  The properties hold for every order.
- GameMap.AddNode: the node counter is an unbounded integer, so the model
  does not cover `numNodes++` wrapping past 2^31 - 1.
- GameMap.GetEdgeWeight: weights are reals, so NaN, infinities and rounding
  of IEEE-754 doubles are not modelled.
- WeatherSystem.ApplyWeatherToEdge: computed in exact real arithmetic, so
  double rounding of the mean and of the product is not modelled.
- PathfindingAlgorithms.ReconstructPath: the Java loop does not terminate when
  the parent chain from target cycles without meeting start. The model
  requires termination, stated exactly as the condition under which the loop
  exits, instead of modelling divergence.
- PathfindingAlgorithms.ReconstructPath: the documentation says an
  unreachable target yields an empty path. The code instead returns the
  walked part of the chain, ending at the first node without a parent, and
  the model follows the code. The postcondition states this case.
- The facts that the repository's tests check on the map loaded from a
  temporary file: that map comes from file I/O. The ten-node test map is
  used only by tests of the unimplemented search algorithms.
- GameMap.GetEdges: Java returns the node's live list, not a copy. A caller
  that changes it alters the map without going through `addEdge`, and can
  break the closed and symmetric invariants. The model returns a value, so
  the invariants it proves assume callers never change a returned list.
- WeatherSystem.SetGlobalWeather, WeatherSystem.SetTileWeather and
  WeatherSystem.ApplyWeatherFront: a `null` weather is not representable.
  In Java, a null global weather makes `getWeatherMultiplier` throw a
  NullPointerException and makes `hasActiveWeather` return true. A null
  override behaves the same way on its tile. The model promises nothing about
  these states.
