/**
  The planarity session: the adapter's process-wide state, the one-shot run
  that builds the library graph, the arc identity map and the embedding
  outcome, and the extraction operations that read them back in the caller's
  vertex and edge identifiers.

  Each extraction is gated on the last outcome: the rotation on `Ok`, the
  witness on `NonEmbeddable`; in every other state it reports zero or writes
  nothing.
 */
module Planarity {
  import opened GraphLib
  import opened ArcMap
  import opened Rotation
  import opened Witness

  /** What the library answers during a run; every call into it is an input of
      the model. */
  datatype Library = Library(
    newSucceeds: bool,          // the graph object is created
    reservesArcs: int -> bool,  // reserving capacity for that many arcs succeeds
    initSucceeds: bool,         // initialising the graph with n vertices succeeds
    edgeIndexBound: nat,        // the arc handle bound reported after initialisation
    arcMapAllocated: bool,      // allocating the arc map succeeds
    insertsEdge: int -> bool,   // inserting the input edge of that index succeeds
    built: Graph,               // the graph once every input edge is inserted
    scratchAllocated: bool,     // allocating the claimed-edge flags succeeds
    embedOutcome: int -> Status, // the embedding call's outcome for the given flags
    embedded: int -> Graph,     // the graph after the embedding call
    restore: Graph -> Graph)    // restoring the original vertex numbering

  /** The arc capacity requested for n vertices and m edges: two arcs per edge
      plus four, raised to six per vertex when that is more. */
  function RequiredArcs(n: int, m: int): (r: int)
    ensures r >= 2 * m + 4 && r >= 6 * n
    ensures r == 2 * m + 4 || r == 6 * n
  {
    var requiredArcs := m * 2 + 4;
    var minArcs := 6 * n;
    if requiredArcs < minArcs then minArcs else requiredArcs
  }

  /** Where a run stops. */
  datatype RunStage =
    | InvalidInput    // n <= 0 or m < 0
    | NoGraph         // the graph object could not be created
    | NoArcCapacity   // the arc capacity could not be reserved
    | NoInit          // the graph could not be initialised
    | NoArcMap        // the arc map could not be allocated
    | InsertFailed    // some input edge could not be inserted
    | NoScratch       // the claimed-edge flags could not be allocated
    | Embedded        // the arc map was built and the embedding call made

  ghost function StageOf(n: int, m: int, lib: Library): RunStage {
    if n <= 0 || m < 0 then InvalidInput
    else if !lib.newSucceeds then NoGraph
    else if !lib.reservesArcs(RequiredArcs(n, m)) then NoArcCapacity
    else if !lib.initSucceeds then NoInit
    else if !lib.arcMapAllocated then NoArcMap
    else if exists i :: 0 <= i < m && !lib.insertsEdge(i) then InsertFailed
    else if !lib.scratchAllocated then NoScratch
    else Embedded
  }

  /** The graph the session keeps after a run that reached the embedding call. */
  function GraphAfterEmbed(lib: Library, embedFlags: int): Graph {
    var outcome := lib.embedOutcome(embedFlags);
    if outcome == Ok || outcome == NonEmbeddable then lib.restore(lib.embedded(embedFlags))
    else lib.embedded(embedFlags)
  }

  /** A fresh arc map of the given size with every entry -1 (no input edge). */
  method NewArcMap(size: nat) returns (arcMap: array<int>)
    ensures fresh(arcMap) && arcMap.Length == size
    ensures forall a :: 0 <= a < size ==> arcMap[a] == Unmapped
  {
    arcMap := new int[size];
    for i := 0 to size
      invariant forall j :: 0 <= j < i ==> arcMap[j] == Unmapped
    {
      arcMap[i] := Unmapped;
    }
  }

  /** Inserts the input edges in index order, stopping at the first one the
      library refuses; succeeds exactly when every one is accepted. */
  method InsertEdges(m: int, lib: Library) returns (inserted: bool)
    ensures inserted <==> forall i :: 0 <= i < m ==> lib.insertsEdge(i)
  {
    var i := 0;
    while i < m
      invariant 0 <= i
      invariant forall j :: 0 <= j < i ==> lib.insertsEdge(j)
    {
      if !lib.insertsEdge(i) {
        return false;
      }
      i := i + 1;
    }
    return true;
  }

  class Session {
    var graph: Option<Graph>      // the library graph, None when there is none
    var edgeIdByArc: array?<int>  // the arc identity map, null when there is none
    var edgeIdByArcSize: int
    var vertexCount: int
    var edgeCount: int
    var lastEmbedResult: Status

    /** An outcome that enables extraction comes with a graph the library
        vouches for and an arc map holding -1 or input edge indices. */
    ghost predicate Valid()
      reads this, edgeIdByArc
    {
      && (edgeIdByArc != null ==> edgeIdByArc.Length == edgeIdByArcSize)
      && ((lastEmbedResult == Ok || lastEmbedResult == NonEmbeddable) ==>
            && graph.Some?
            && edgeIdByArc != null
            && edgeCount >= 0
            && EmbeddedWellFormed(graph.value, vertexCount)
            && MapInRange(edgeIdByArc[..], edgeCount))
    }

    /** The state before any run and after a reset. */
    ghost predicate IsCleared()
      reads this
    {
      && graph == None
      && edgeIdByArc == null
      && edgeIdByArcSize == 0
      && vertexCount == 0
      && edgeCount == 0
      && lastEmbedResult == Cleared
    }

    predicate PlanarActive()
      reads this
    {
      graph.Some? && lastEmbedResult == Ok
    }

    predicate WitnessActive()
      reads this
    {
      graph.Some? && lastEmbedResult == NonEmbeddable
    }

    /** Total number of rotation incidences in a planar session. */
    ghost function RotationTotal(): nat
      reads this
      requires graph.Some? && 0 <= vertexCount <= |graph.value.rotation|
    {
      RotationOffset(graph.value, vertexCount)
    }

    /** The witness edges of a non-planar session. */
    ghost function WitnessEdges(): seq<int>
      reads this, edgeIdByArc
      requires graph.Some? && ArcRangeValid(graph.value) && edgeIdByArc != null
    {
      var g := graph.value;
      FirstOccurrences(InUseArcIds(g, edgeIdByArc[..], g.edgeInUseBound), edgeCount)
    }

    /** The witness vertices of a non-planar session. */
    ghost function WitnessVertices(): seq<int>
      reads this
      requires graph.Some? && 0 <= vertexCount <= |graph.value.virtualFlags|
    {
      VirtualVertices(graph.value.virtualFlags, vertexCount)
    }

    constructor ()
      ensures Valid() && IsCleared()
    {
      graph := None;
      edgeIdByArc := null;
      edgeIdByArcSize := 0;
      vertexCount := 0;
      edgeCount := 0;
      lastEmbedResult := Cleared;
    }

    /** Releases the graph and the arc map and zeroes every counter. */
    method ClearState()
      modifies this
      ensures Valid() && IsCleared()
    {
      if graph != None {
        graph := None;
      }
      if edgeIdByArc != null {
        edgeIdByArc := null;
      }
      edgeIdByArcSize := 0;
      vertexCount := 0;
      edgeCount := 0;
      lastEmbedResult := Cleared;
    }

    /** One run: reset, validate, build the graph, build the arc map, embed.
        The new state depends only on the arguments, never on an earlier run. */
    method Run(n: int, m: int, u: seq<int>, v: seq<int>, embedFlags: int, lib: Library) returns (r: Status)
      requires m <= |u| && m <= |v|
      requires BuiltWellFormed(lib.built)
      requires n > 0 ==> EmbeddedWellFormed(GraphAfterEmbed(lib, embedFlags), n)
      modifies this
      ensures Valid()
      ensures StageOf(n, m, lib) == InvalidInput ==> IsCleared()
      ensures r == if StageOf(n, m, lib) == Embedded then lib.embedOutcome(embedFlags) else NotOk
      ensures lastEmbedResult ==
        match StageOf(n, m, lib)
        case InsertFailed => NotOk
        case Embedded => lib.embedOutcome(embedFlags)
        case _ => Cleared
      ensures graph.Some? <==> StageOf(n, m, lib) !in {InvalidInput, NoGraph}
      ensures StageOf(n, m, lib) == NoScratch ==> graph == Some(lib.built)
      ensures StageOf(n, m, lib) == Embedded ==> graph == Some(GraphAfterEmbed(lib, embedFlags))
      ensures edgeIdByArc != null <==> StageOf(n, m, lib) in {InsertFailed, NoScratch, Embedded}
      ensures edgeIdByArc != null ==> fresh(edgeIdByArc)
      ensures StageOf(n, m, lib) in {InsertFailed, NoScratch} ==>
                forall a :: 0 <= a < edgeIdByArc.Length ==> edgeIdByArc[a] == Unmapped
      ensures StageOf(n, m, lib) == Embedded ==>
                edgeIdByArc[..] == ArcMapOf(lib.built, u, v, lib.edgeIndexBound, m)
      ensures edgeIdByArcSize ==
                if StageOf(n, m, lib) in {InvalidInput, NoGraph, NoArcCapacity, NoInit} then 0
                else lib.edgeIndexBound
      ensures StageOf(n, m, lib) != InvalidInput ==> vertexCount == n && edgeCount == m
    {
      ClearState();
      ghost var stage := StageOf(n, m, lib);
      if n <= 0 { assert stage == InvalidInput; return NotOk; }
      if m < 0 { assert stage == InvalidInput; return NotOk; }
      vertexCount := n;
      edgeCount := m;

      if !lib.newSucceeds { assert stage == NoGraph; return NotOk; }
      graph := Some(EmptyGraph);

      var requiredArcs := RequiredArcs(n, m);
      if !lib.reservesArcs(requiredArcs) { assert stage == NoArcCapacity; return NotOk; }
      if !lib.initSucceeds { assert stage == NoInit; return NotOk; }

      edgeIdByArcSize := lib.edgeIndexBound;
      if !lib.arcMapAllocated { assert stage == NoArcMap; return NotOk; }
      var arcMap := NewArcMap(edgeIdByArcSize);
      edgeIdByArc := arcMap;

      var inserted := InsertEdges(m, lib);
      if !inserted {
        assert stage == InsertFailed;
        lastEmbedResult := NotOk;
        return lastEmbedResult;
      }
      graph := Some(lib.built);
      r := MatchAndEmbed(u, v, embedFlags, lib);
      assert stage == if lib.scratchAllocated then Embedded else NoScratch;
    }

    /** The rest of a run once every edge is inserted: allocate the claimed-edge
        flags, match every canonical arc to an input edge, embed, and restore
        the vertex numbering when the outcome is `Ok` or `NonEmbeddable`. */
    method MatchAndEmbed(u: seq<int>, v: seq<int>, embedFlags: int, lib: Library) returns (r: Status)
      requires edgeIdByArc != null && edgeIdByArc.Length == edgeIdByArcSize
      requires 0 <= edgeCount <= |u| && edgeCount <= |v|
      requires BuiltWellFormed(lib.built) && graph == Some(lib.built)
      requires EmbeddedWellFormed(GraphAfterEmbed(lib, embedFlags), vertexCount)
      requires forall a :: 0 <= a < edgeIdByArc.Length ==> edgeIdByArc[a] == Unmapped
      requires lastEmbedResult == Cleared
      modifies this, edgeIdByArc
      ensures Valid()
      ensures edgeIdByArc == old(edgeIdByArc) && edgeIdByArcSize == old(edgeIdByArcSize)
      ensures vertexCount == old(vertexCount) && edgeCount == old(edgeCount)
      ensures !lib.scratchAllocated ==>
                && r == NotOk && lastEmbedResult == Cleared && graph == Some(lib.built)
                && unchanged(edgeIdByArc)
      ensures lib.scratchAllocated ==>
                && r == lastEmbedResult == lib.embedOutcome(embedFlags)
                && graph == Some(GraphAfterEmbed(lib, embedFlags))
                && edgeIdByArc[..] == ArcMapOf(lib.built, u, v, edgeIdByArcSize, edgeCount)
    {
      if !lib.scratchAllocated { return NotOk; }
      var arcMap := edgeIdByArc;
      var edgeUsed := new bool[edgeCount](_ => false);
      BuildArcMap(lib.built, u, v, edgeCount, arcMap, edgeUsed);
      ArcMapProperties(lib.built, u, v, arcMap.Length, edgeCount);
      lastEmbedResult := lib.embedOutcome(embedFlags);
      if lastEmbedResult == Ok || lastEmbedResult == NonEmbeddable {
        graph := Some(lib.restore(lib.embedded(embedFlags)));
      } else {
        graph := Some(lib.embedded(embedFlags));
      }
      r := lastEmbedResult;
    }

    /** Number of rotation incidences over all vertices; 0 unless the last
        outcome is `Ok`. */
    method RotationSize() returns (total: int)
      requires Valid()
      ensures total == if PlanarActive() then RotationTotal() else 0
    {
      if !PlanarActive() { return 0; }
      var g := graph.value;
      total := 0;
      var w := 0;
      while w < vertexCount
        invariant 0 <= w <= vertexCount
        invariant total == RotationOffset(g, w)
      {
        var arcs := g.rotation[w];
        var j := 0;
        while j < |arcs|
          invariant 0 <= j <= |arcs|
          invariant total == RotationOffset(g, w) + j
        {
          total := total + 1;
          j := j + 1;
        }
        w := w + 1;
      }
    }

    /** Writes the rotation system in compressed rows: `offsets[w]` is where
        vertex w's incidences start and `offsets[n]` is the total; each
        incidence gives the arc's edge id (-1 when unmapped) and its neighbour.
        Writes nothing unless the last outcome is `Ok`. */
    method WriteRotation(offsets: array<int>, edgeIds: array<int>, neighbors: array<int>)
      requires Valid()
      requires PlanarActive() ==>
        offsets.Length > vertexCount && edgeIds.Length >= RotationTotal() && neighbors.Length >= RotationTotal()
      requires offsets != edgeIds && offsets != neighbors && edgeIds != neighbors
      requires edgeIdByArc != offsets && edgeIdByArc != edgeIds && edgeIdByArc != neighbors
      modifies offsets, edgeIds, neighbors
      ensures !PlanarActive() ==> unchanged(offsets, edgeIds, neighbors)
      ensures PlanarActive() ==>
        && (forall w {:trigger offsets[w]} :: 0 <= w <= vertexCount ==> offsets[w] == RotationOffset(graph.value, w))
        && offsets[vertexCount + 1..] == old(offsets[vertexCount + 1..])
        && edgeIds[..RotationTotal()] == FlatEdgeIds(graph.value, edgeIdByArc[..], vertexCount)
        && edgeIds[RotationTotal()..] == old(edgeIds[RotationTotal()..])
        && neighbors[..RotationTotal()] == FlatNeighbors(graph.value, vertexCount)
        && neighbors[RotationTotal()..] == old(neighbors[RotationTotal()..])
    {
      if !PlanarActive() { return; }
      WriteRows(graph.value, edgeIdByArc[..], vertexCount, offsets, edgeIds, neighbors);
    }

    /** Number of distinct witness edges; 0 unless the last outcome is
        `NonEmbeddable` and the scratch flags could be allocated. */
    method WitnessEdgeCount(scratchAllocated: bool) returns (count: int)
      requires Valid()
      ensures count == if WitnessActive() && scratchAllocated then |WitnessEdges()| else 0
    {
      if !WitnessActive() { return 0; }
      if !scratchAllocated { return 0; }
      count := CountWitnessEdges(graph.value, edgeIdByArc[..], edgeCount);
    }

    /** Writes the distinct witness edges in the order of their first in-use
        arc; writes nothing unless the last outcome is `NonEmbeddable` and the
        scratch flags could be allocated. */
    method WriteWitnessEdges(edgeIds: array<int>, scratchAllocated: bool)
      requires Valid()
      requires WitnessActive() && scratchAllocated ==> edgeIds.Length >= |WitnessEdges()|
      requires edgeIdByArc != edgeIds
      modifies edgeIds
      ensures !(WitnessActive() && scratchAllocated) ==> unchanged(edgeIds)
      ensures WitnessActive() && scratchAllocated ==>
        && edgeIds[..|WitnessEdges()|] == WitnessEdges()
        && edgeIds[|WitnessEdges()|..] == old(edgeIds[|WitnessEdges()|..])
    {
      if !WitnessActive() { return; }
      if !scratchAllocated { return; }
      WriteWitnessEdgeIds(graph.value, edgeIdByArc[..], edgeCount, edgeIds);
    }

    /** Number of virtual vertices; 0 unless the last outcome is `NonEmbeddable`. */
    method WitnessVertexCount() returns (count: int)
      requires Valid()
      ensures count == if WitnessActive() then |WitnessVertices()| else 0
    {
      if !WitnessActive() { return 0; }
      var g := graph.value;
      count := 0;
      var w := 0;
      while w < vertexCount
        invariant 0 <= w <= vertexCount
        invariant count == |VirtualVertices(g.virtualFlags, w)|
      {
        if g.virtualFlags[w] {
          count := count + 1;
        }
        w := w + 1;
      }
    }

    /** Writes the virtual vertices in ascending order; writes nothing unless
        the last outcome is `NonEmbeddable`. */
    method WriteWitnessVertices(vertexIds: array<int>)
      requires Valid()
      requires WitnessActive() ==> vertexIds.Length >= |WitnessVertices()|
      requires edgeIdByArc != vertexIds
      modifies vertexIds
      ensures !WitnessActive() ==> unchanged(vertexIds)
      ensures WitnessActive() ==>
        && vertexIds[..|WitnessVertices()|] == WitnessVertices()
        && vertexIds[|WitnessVertices()|..] == old(vertexIds[|WitnessVertices()|..])
    {
      if !WitnessActive() { return; }
      var g := graph.value;
      var n := vertexCount;
      ghost var all := VirtualVertices(g.virtualFlags, n);
      var cursor := 0;
      var w := 0;
      while w < n
        invariant 0 <= w <= n
        invariant cursor <= |all|
        invariant VirtualVertices(g.virtualFlags, w) == all[..cursor]
        invariant forall x :: 0 <= x < cursor ==> vertexIds[x] == all[x]
        invariant forall x :: cursor <= x < vertexIds.Length ==> vertexIds[x] == old(vertexIds[x])
      {
        VirtualVerticesPrefix(g.virtualFlags, w + 1, n);
        ghost var next := VirtualVertices(g.virtualFlags, w + 1);
        if g.virtualFlags[w] {
          assert next == all[..cursor] + [w];
          assert all[cursor] == next[cursor] == w;
          vertexIds[cursor] := w;
          cursor := cursor + 1;
        } else {
          assert next == all[..cursor];
        }
        w := w + 1;
      }
      assert |all| == cursor;
    }

    /** The witness classification: 33, 5 or 0; 0 unless the last outcome is
        `NonEmbeddable`. */
    method WitnessType() returns (t: int)
      requires Valid()
      ensures t == if WitnessActive() then MinorClass(graph.value.minorType) else 0
    {
      if !WitnessActive() { return 0; }
      t := MinorClass(graph.value.minorType);
    }

    /** Ends the session; safe in any state. */
    method Free()
      modifies this
      ensures Valid() && IsCleared()
    {
      ClearState();
    }
  }
}
