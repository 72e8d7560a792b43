# Planarity session adapter, modelled in Dafny

This project models `tl_planarity.c`, the adapter that drives the external
planarity library (graphLib) for one graph given as an edge list and reads
the result back in the caller's own vertex and edge identifiers.

The six process-wide globals become the fields of the class
`Planarity.Session`:

- `graph`: the library graph, or `None`;
- `edgeIdByArc`: the arc identity map, or `null`;
- `edgeIdByArcSize`, `vertexCount`, `edgeCount`;
- `lastEmbedResult`.

The entry points are methods of that class:

- `Run`: resets the state, validates the counts and builds the graph, requesting an arc capacity of `max(2m+4, 6n)`. It inserts the edges and fills the arc map. Each in-use arc of the edge range whose twin handle is at least its own gets the first unclaimed input edge with the same unordered endpoint pair, and its twin gets the same entry. With parallel edges this may be a different parallel edge than the one inserted at that arc. An arc with no free match, or a handle outside the map, stays -1. It then calls the embedder and, when the outcome is OK or NONEMBEDDABLE, restores the vertex numbering.
- `RotationSize` and `WriteRotation`: the planar rotation system in compressed rows.
- `WitnessEdgeCount`, `WriteWitnessEdges`, `WitnessVertexCount`, `WriteWitnessVertices` and `WitnessType`: the non-planarity witness.
- `Free`.

Every call into graphLib is an input of the model, a field of the
`Planarity.Library` value given to `Run`:

- whether each allocation or insertion succeeds;
- the arc handle bound;
- the graph after insertion and after embedding;
- the embedding outcome.

The graph itself (`GraphLib.Graph`) holds only what the adapter reads:

- the arc records (in-use flag, twin, neighbour);
- the edge range;
- the rotation order around each vertex;
- the virtual flags;
- the minor-type bits.

Each loop of the source is a method with loop invariants. Each method that fills
a result is proved equal to a reference function:

- the arc map: `ArcMap.MatchUpTo` and `ArcMap.ArcMapOf`;
- the rotation rows: `Rotation.RotationOffset`, `Rotation.FlatEdgeIds` and `Rotation.FlatNeighbors`;
- the witness edges: `Witness.FirstOccurrences` over `Witness.InUseArcIds`;
- the witness vertices: `Witness.VirtualVertices`.

`Planarity.NewArcMap` and `Planarity.InsertEdges` instead state their results in closed form: every entry is -1, and insertion succeeds exactly when every edge is accepted.

What the source promises is then proved of those functions as lemmas:

- the map is consistent: twins agree, each edge is claimed at most once, and each stored edge joins the arc's endpoints;
- the rows are exactly each vertex's incidences;
- the witness edges are exactly the distinct in-range ids, ordered by first arc, and number at most m;
- the witness vertices are exactly the flagged ones, in ascending order.

Two points about what the code visits:

- The witness-edge walk visits every in-use arc of the edge range, in both directions of each edge; duplicates are dropped through the `seen` flags.
- The matching visits each in-use arc of the edge range whose twin handle is at least its own.

`ArcMap.Canonical` also requires the twin handle to be an arc handle. This always holds in a built graph (`GraphLib.BuiltWellFormed`), so it changes nothing for the graphs the model admits.

## Model

All source paths are `packages/topoloom/third_party/eaps/tl_planarity.c`.

| member | source | states |
|---|---|---|
| Planarity.Session.constructor | packages/topoloom/third_party/eaps/tl_planarity.c:6-11 | the session starts with no graph, no map, zero counters and status 0 |
| Planarity.Session.ClearState | packages/topoloom/third_party/eaps/tl_planarity.c:13-26 | afterwards there is no graph, no map, every counter is zero and the status is the cleared 0 |
| Planarity.Session.Free | packages/topoloom/third_party/eaps/tl_planarity.c:187-189 | ends in the cleared state from any state |
| Planarity.RequiredArcs | packages/topoloom/third_party/eaps/tl_planarity.c:42-44 | the requested capacity is at least 2m+4 and at least 6n, and equals one of them |
| Planarity.NewArcMap | packages/topoloom/third_party/eaps/tl_planarity.c:49-51 | a fresh map of the reported size with every entry -1 |
| Planarity.InsertEdges | packages/topoloom/third_party/eaps/tl_planarity.c:53-58 | succeeds exactly when the library accepts every input edge, stopping at the first refusal |
| Planarity.Session.Run | packages/topoloom/third_party/eaps/tl_planarity.c:28-94 | for each stop point (bad counts, no graph, no capacity, no init, no map, refused edge, no scratch, embedded): the result, the stored status, whether a graph and a map are kept, the map's contents, the sizes and the counts; among the failure stops, only a refused edge stores NOTOK (the embedding call may itself return NOTOK), and a failure before insertion leaves the status cleared; invalid counts leave the whole state cleared |
| Planarity.Session.MatchAndEmbed | packages/topoloom/third_party/eaps/tl_planarity.c:60-93 | without the scratch flags the run fails and the map stays all -1; otherwise the map becomes the reference matching, the status is the embedding outcome, and the graph is restored exactly when that outcome is OK or NONEMBEDDABLE |
| ArcMap.FirstUnclaimed | packages/topoloom/third_party/eaps/tl_planarity.c:71-80 | the result is -1 or an unclaimed edge with the arc's unordered endpoint pair, and every earlier edge is claimed or has another pair |
| ArcMap.ClaimFirstUnclaimed | packages/topoloom/third_party/eaps/tl_planarity.c:70-80 | the scan returns the first unclaimed matching edge and flags exactly that one |
| ArcMap.BuildArcMap | packages/topoloom/third_party/eaps/tl_planarity.c:64-85 | the in-place loop over the arc handles leaves exactly the reference map `ArcMapOf` |
| ArcMap.ClaimKeepsOnce | packages/topoloom/third_party/eaps/tl_planarity.c:75-83 | claiming a fresh edge for a canonical arc and its twin keeps every edge index at one arc/twin pair at most |
| ArcMap.ClaimKeepsTwins | packages/topoloom/third_party/eaps/tl_planarity.c:81-84 | after a visit each visited canonical arc still holds the same entry as its twin |
| ArcMap.ClaimKeepsEndpoints | packages/topoloom/third_party/eaps/tl_planarity.c:68-83 | after a visit the edge stored at each visited canonical arc or at its twin joins that arc's endpoints |
| ArcMap.MatchUpToRange | packages/topoloom/third_party/eaps/tl_planarity.c:51-85 | along the matching every entry is -1 or an input edge index, and every stored index is flagged as claimed |
| ArcMap.MatchUpToOnce | packages/topoloom/third_party/eaps/tl_planarity.c:64-85 | along the matching an edge index sits at one arc and its twin at most |
| ArcMap.MatchUpToPending | packages/topoloom/third_party/eaps/tl_planarity.c:64-85 | canonical arcs not yet visited, and their twins, are still -1 |
| ArcMap.MatchUpToTwins | packages/topoloom/third_party/eaps/tl_planarity.c:64-85 | every visited canonical arc agrees with its twin |
| ArcMap.MatchUpToEndpoints | packages/topoloom/third_party/eaps/tl_planarity.c:64-85 | every visited canonical arc carries an edge joining its two endpoints, or -1 |
| ArcMap.ArcMapProperties | packages/topoloom/third_party/eaps/tl_planarity.c:60-86 | the finished map has the table's size and entries -1 or edge indices; each edge index is claimed by at most one arc/twin pair; twins agree; endpoints match |
| Planarity.Session.RotationSize | packages/topoloom/third_party/eaps/tl_planarity.c:96-105 | the number of incidences over all vertices when the last outcome is OK, otherwise 0 |
| Planarity.Session.WriteRotation | packages/topoloom/third_party/eaps/tl_planarity.c:107-120 | when OK, each `offsets[w]` is the incidence count below w and `offsets[n]` the total; the edge-id and neighbour arrays hold the flattened rows, and nothing past them changes; otherwise nothing is written |
| Rotation.WriteRows | packages/topoloom/third_party/eaps/tl_planarity.c:109-119 | the rows loop writes the offsets and the flattened edge ids and neighbours, and nothing past them |
| Rotation.WriteIncidences | packages/topoloom/third_party/eaps/tl_planarity.c:112-117 | one vertex's arcs are written from the cursor in rotation order, with -1 for unmapped arcs; the cursor advances by the row length |
| Rotation.VertexRow | packages/topoloom/third_party/eaps/tl_planarity.c:110-118 | vertex w's slice of the flattened layout, from its offset to the next, is exactly its own incidences in rotation order |
| Rotation.OffsetMonotone | packages/topoloom/third_party/eaps/tl_planarity.c:110-118 | the offsets never decrease |
| Rotation.FlatEdgeIdsInRange | packages/topoloom/third_party/eaps/tl_planarity.c:114 | every emitted edge id is -1 or an input edge index |
| Planarity.Session.WitnessEdgeCount | packages/topoloom/third_party/eaps/tl_planarity.c:122-139 | when NONEMBEDDABLE and the flags are allocated, the number of distinct witness edges; otherwise 0 |
| Planarity.Session.WriteWitnessEdges | packages/topoloom/third_party/eaps/tl_planarity.c:141-157 | when NONEMBEDDABLE and the flags are allocated, the prefix equals the witness edge list and nothing past it changes; otherwise nothing is written |
| Witness.CountWitnessEdges | packages/topoloom/third_party/eaps/tl_planarity.c:124-138 | the flagged walk counts exactly the first occurrences of in-range entries of the in-use arcs |
| Witness.VisitWitnessArc | packages/topoloom/third_party/eaps/tl_planarity.c:147-154 | one arc visit extends the written list and the flags by exactly the reference scan's next step |
| Witness.WriteWitnessEdgeIds | packages/topoloom/third_party/eaps/tl_planarity.c:143-156 | the flagged walk writes exactly the first occurrences from position 0, and nothing past them |
| Witness.WitnessScanFirstOccurrences | packages/topoloom/third_party/eaps/tl_planarity.c:147-154 | the arc-by-arc scan equals the first occurrences of the in-use arcs' entries |
| Witness.InUseArcIdsSpec | packages/topoloom/third_party/eaps/tl_planarity.c:148-151 | an id is among the walked entries exactly when some in-use arc of the edge range carries it (-1 for a handle outside the map) |
| Witness.FirstOccurrencesSpec | packages/topoloom/third_party/eaps/tl_planarity.c:150-153 | an id is listed exactly when it occurs among the entries and is in 0..m-1, and none is listed twice; with `Witness.InUseArcIdsSpec`, exactly the in-range ids some in-use arc carries |
| Witness.FirstOccurrencesOrder | packages/topoloom/third_party/eaps/tl_planarity.c:147-154 | witness edges are listed in the order of their first arcs |
| Witness.FirstOccurrencesBound | packages/topoloom/third_party/eaps/tl_planarity.c:150 | there are at most m witness edges |
| Planarity.Session.WitnessVertexCount | packages/topoloom/third_party/eaps/tl_planarity.c:159-166 | when NONEMBEDDABLE, the number of virtual vertices; otherwise 0 |
| Planarity.Session.WriteWitnessVertices | packages/topoloom/third_party/eaps/tl_planarity.c:168-176 | when NONEMBEDDABLE, the prefix equals the virtual vertices and nothing past it changes; otherwise nothing is written |
| Witness.VirtualVerticesSpec | packages/topoloom/third_party/eaps/tl_planarity.c:170-175 | the listed vertices are exactly the flagged ones below n, strictly ascending |
| Witness.VirtualVerticesPrefix | packages/topoloom/third_party/eaps/tl_planarity.c:170-175 | scanning further only extends the list found so far |
| Planarity.Session.WitnessType | packages/topoloom/third_party/eaps/tl_planarity.c:178-185 | when NONEMBEDDABLE, the minor classification; otherwise 0 |
| Witness.MinorClass | packages/topoloom/third_party/eaps/tl_planarity.c:180-184 | the class is 0, 5 or 33. It is 33 exactly when a bit among A, B, C, D, E1-E4 is set, and 5 exactly when only the E bit of those is set |

## Left out

- The graphLib internals are not modelled: graph creation, capacity reservation, initialisation, edge insertion, the embedding algorithm, vertex re-sorting and freeing. Each call's outcome and resulting graph are inputs (`Planarity.Library`), and `Run` requires what the library guarantees of them (`GraphLib.BuiltWellFormed`, `GraphLib.EmbeddedWellFormed`).
- The `malloc`/`calloc` outcomes are inputs:
  - the arc map's and the claimed flags' outcomes, in `Planarity.Library`;
  - the `seen` flags' outcome, as the `scratchAllocated` parameter of the witness-edge operations.
- Releasing memory (`gp_Free`, `free`) is not modelled; dropping the reference stands for it.
- Planarity.Session.Run: after a run that fails past graph creation, the graph is kept but its contents are not tracked. The extraction operations never read it then.
- The arcs around a vertex are a linked list in the library (`gp_GetFirstArc`/`gp_GetNextArc`). Here they are a sequence of handles per vertex.
- Caller buffer sizes and distinctness are preconditions. The C code trusts its callers for both.
- Planarity.RequiredArcs: integers are unbounded. The 32-bit products `m * 2 + 4` and `6 * n` are not wrapped.
- The numeric values of the status codes and of the minor-type bits come from a library header that is not part of this model. Only their distinctness is used. The cleared status 0 is taken to be neither OK nor NONEMBEDDABLE. Keeping `Cleared` apart from `NotOk` is a modelling choice: extraction only compares the status with OK and NONEMBEDDABLE, so callers cannot observe it.
