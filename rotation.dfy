/**
  The rotation system in caller identifiers, laid out as compressed rows:
  `RotationOffset(g, w)` is where vertex w's incidences start, and the
  flattened edge-id and neighbour sequences hold every vertex's incidences in
  rising vertex order, each vertex's in the rotation order the library fixed.
 */
module Rotation {
  import opened GraphLib
  import opened ArcMap

  /** Number of incidences of the vertices below k. */
  function RotationOffset(g: Graph, k: int): nat
    requires 0 <= k <= |g.rotation|
  {
    if k == 0 then 0 else RotationOffset(g, k - 1) + |g.rotation[k - 1]|
  }

  /** The edge ids of one vertex's arcs, unmapped arcs giving -1. */
  function VertexEdgeIds(arcMap: seq<int>, arcs: seq<int>): seq<int> {
    seq(|arcs|, j requires 0 <= j < |arcs| => EdgeIdOf(arcMap, arcs[j]))
  }

  /** The neighbour vertices of one vertex's arcs. */
  function VertexNeighbors(g: Graph, arcs: seq<int>): seq<int>
    requires forall j :: 0 <= j < |arcs| ==> 0 <= arcs[j] < |g.arcs|
  {
    seq(|arcs|, j requires 0 <= j < |arcs| => g.arcs[arcs[j]].neighbor)
  }

  /** The edge ids of the incidences of the vertices below k. */
  function FlatEdgeIds(g: Graph, arcMap: seq<int>, k: int): (r: seq<int>)
    requires 0 <= k <= |g.rotation|
    ensures |r| == RotationOffset(g, k)
  {
    if k == 0 then [] else FlatEdgeIds(g, arcMap, k - 1) + VertexEdgeIds(arcMap, g.rotation[k - 1])
  }

  /** The neighbours of the incidences of the vertices below k. */
  function FlatNeighbors(g: Graph, k: int): (r: seq<int>)
    requires EmbeddedWellFormed(g, |g.rotation|)
    requires 0 <= k <= |g.rotation|
    ensures |r| == RotationOffset(g, k)
  {
    if k == 0 then [] else FlatNeighbors(g, k - 1) + VertexNeighbors(g, g.rotation[k - 1])
  }

  /** Offsets never decrease from one vertex to a later one. */
  lemma {:induction false} OffsetMonotone(g: Graph, j: int, k: int)
    requires 0 <= j <= k <= |g.rotation|
    decreases k - j
    ensures RotationOffset(g, j) <= RotationOffset(g, k)
  {
    if j < k {
      OffsetMonotone(g, j, k - 1);
    }
  }

  /** Vertex w's row of the flattened layout is exactly its own incidences, in
      rotation order. */
  lemma {:induction false} VertexRow(g: Graph, arcMap: seq<int>, k: int, w: int)
    requires EmbeddedWellFormed(g, |g.rotation|)
    requires 0 <= w < k <= |g.rotation|
    ensures RotationOffset(g, w + 1) <= RotationOffset(g, k)
    ensures FlatEdgeIds(g, arcMap, k)[RotationOffset(g, w)..RotationOffset(g, w + 1)]
            == VertexEdgeIds(arcMap, g.rotation[w])
    ensures FlatNeighbors(g, k)[RotationOffset(g, w)..RotationOffset(g, w + 1)]
            == VertexNeighbors(g, g.rotation[w])
  {
    OffsetMonotone(g, w + 1, k);
    if w < k - 1 {
      VertexRow(g, arcMap, k - 1, w);
      OffsetMonotone(g, w + 1, k - 1);
      assert FlatEdgeIds(g, arcMap, k)[..RotationOffset(g, k - 1)] == FlatEdgeIds(g, arcMap, k - 1);
      assert FlatNeighbors(g, k)[..RotationOffset(g, k - 1)] == FlatNeighbors(g, k - 1);
    }
  }

  /** Over a map whose entries are -1 or edge indices below m, every emitted
      edge id is -1 or such an index. */
  lemma {:induction false} FlatEdgeIdsInRange(g: Graph, arcMap: seq<int>, m: int, k: int)
    requires MapInRange(arcMap, m)
    requires 0 <= k <= |g.rotation|
    ensures forall i :: 0 <= i < |FlatEdgeIds(g, arcMap, k)| ==>
              FlatEdgeIds(g, arcMap, k)[i] == Unmapped || 0 <= FlatEdgeIds(g, arcMap, k)[i] < m
  {
    if k > 0 {
      FlatEdgeIdsInRange(g, arcMap, m, k - 1);
    }
  }

  /** Writes one vertex's incidences from position `start`, in rotation
      order: each arc's edge id (-1 when unmapped) and its neighbour vertex.
      The positions before `start` already hold the flattened layout
      `flatIds`/`flatNeighbors`, whose next |arcs| entries are this vertex's
      row; afterwards the layout holds up to `next`, and nothing from `next`
      on has changed. */
  method WriteIncidences(g: Graph, arcMap: seq<int>, arcs: seq<int>, start: int,
                         edgeIds: array<int>, neighbors: array<int>,
                         ghost flatIds: seq<int>, ghost flatNeighbors: seq<int>) returns (next: int)
    requires forall j :: 0 <= j < |arcs| ==> 0 <= arcs[j] < |g.arcs|
    requires 0 <= start && start + |arcs| <= edgeIds.Length && start + |arcs| <= neighbors.Length
    requires start + |arcs| <= |flatIds| && start + |arcs| <= |flatNeighbors|
    requires flatIds[start..start + |arcs|] == VertexEdgeIds(arcMap, arcs)
    requires flatNeighbors[start..start + |arcs|] == VertexNeighbors(g, arcs)
    requires forall x :: 0 <= x < start ==> edgeIds[x] == flatIds[x]
    requires forall x :: 0 <= x < start ==> neighbors[x] == flatNeighbors[x]
    requires edgeIds != neighbors
    modifies edgeIds, neighbors
    ensures next == start + |arcs|
    ensures forall x :: 0 <= x < next ==> edgeIds[x] == flatIds[x]
    ensures forall x :: next <= x < edgeIds.Length ==> edgeIds[x] == old(edgeIds[x])
    ensures forall x :: 0 <= x < next ==> neighbors[x] == flatNeighbors[x]
    ensures forall x :: next <= x < neighbors.Length ==> neighbors[x] == old(neighbors[x])
  {
    next := start;
    var j := 0;
    while j < |arcs|
      invariant 0 <= j <= |arcs| && next == start + j
      invariant forall x :: 0 <= x < next ==> edgeIds[x] == flatIds[x]
      invariant forall x :: next <= x < edgeIds.Length ==> edgeIds[x] == old(edgeIds[x])
      invariant forall x :: 0 <= x < next ==> neighbors[x] == flatNeighbors[x]
      invariant forall x :: next <= x < neighbors.Length ==> neighbors[x] == old(neighbors[x])
    {
      var arc := arcs[j];
      var edgeId := EdgeIdOf(arcMap, arc);
      assert flatIds[next] == flatIds[start..start + |arcs|][j] == edgeId;
      assert flatNeighbors[next] == flatNeighbors[start..start + |arcs|][j] == g.arcs[arc].neighbor;
      edgeIds[next] := edgeId;
      neighbors[next] := g.arcs[arc].neighbor;
      next := next + 1;
      j := j + 1;
    }
  }

  /** Writes the rotation system of an embedded graph with n vertices in
      compressed rows: `offsets[w]` is where vertex w's incidences start,
      `offsets[n]` is the total, and the incidences themselves are the
      flattened edge ids and neighbours.  Nothing past those positions
      changes. */
  method WriteRows(g: Graph, arcMap: seq<int>, n: int, offsets: array<int>, edgeIds: array<int>, neighbors: array<int>)
    requires EmbeddedWellFormed(g, n)
    requires offsets.Length > n && edgeIds.Length >= RotationOffset(g, n) && neighbors.Length >= RotationOffset(g, n)
    requires offsets != edgeIds && offsets != neighbors && edgeIds != neighbors
    modifies offsets, edgeIds, neighbors
    ensures forall w {:trigger offsets[w]} :: 0 <= w <= n ==> offsets[w] == RotationOffset(g, w)
    ensures offsets[n + 1..] == old(offsets[n + 1..])
    ensures edgeIds[..RotationOffset(g, n)] == FlatEdgeIds(g, arcMap, n)
    ensures edgeIds[RotationOffset(g, n)..] == old(edgeIds[RotationOffset(g, n)..])
    ensures neighbors[..RotationOffset(g, n)] == FlatNeighbors(g, n)
    ensures neighbors[RotationOffset(g, n)..] == old(neighbors[RotationOffset(g, n)..])
  {
    ghost var flatIds := FlatEdgeIds(g, arcMap, n);
    ghost var flatNeighbors := FlatNeighbors(g, n);
    ghost var total := RotationOffset(g, n);
    ghost var origOffsets, origIds, origNeighbors := offsets[..], edgeIds[..], neighbors[..];
    var cursor := 0;
    var w := 0;
    while w < n
      invariant 0 <= w <= n
      invariant cursor == RotationOffset(g, w) <= total
      invariant forall x {:trigger offsets[x]} :: 0 <= x < w ==> offsets[x] == RotationOffset(g, x)
      invariant forall x :: w <= x < offsets.Length ==> offsets[x] == origOffsets[x]
      invariant forall x :: 0 <= x < cursor ==> edgeIds[x] == flatIds[x]
      invariant forall x :: cursor <= x < edgeIds.Length ==> edgeIds[x] == origIds[x]
      invariant forall x :: 0 <= x < cursor ==> neighbors[x] == flatNeighbors[x]
      invariant forall x :: cursor <= x < neighbors.Length ==> neighbors[x] == origNeighbors[x]
    {
      offsets[w] := cursor;
      VertexRow(g, arcMap, n, w);
      cursor := WriteIncidences(g, arcMap, g.rotation[w], cursor, edgeIds, neighbors, flatIds, flatNeighbors);
      w := w + 1;
    }
    offsets[n] := cursor;
  }
}
