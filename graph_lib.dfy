/**
  The external planarity library (graphLib) as the adapter sees it.

  The adapter never looks inside the embedding algorithm; it only reads a
  handful of facts from the library's graph object: the range of arc handles,
  each arc's in-use flag, twin handle and neighbour vertex, the rotation order
  of the arcs around every vertex, the per-vertex virtual flag and the
  minor-type bitmask.  `Graph` collects exactly those facts.
 */
module GraphLib {

  datatype Option<T> = None | Some(value: T)

  /** Outcome codes.  Their numeric values come from a library header that is
      not part of this model; only their distinctness matters here.
      `Cleared` is the value 0 stored when the session is reset, assumed to be
      neither `Ok` nor `NonEmbeddable`; `OtherCode` stands for any other code
      the embedding call may report. */
  datatype Status = Cleared | Ok | NotOk | NonEmbeddable | OtherCode(code: int)

  /** One directed half-edge of the library graph. */
  datatype Arc = Arc(inUse: bool, twin: int, neighbor: int)

  /** The bits of the library's minor-type bitmask, as distinct flags. */
  datatype MinorFlag =
    | MinorA | MinorB | MinorC | MinorD | MinorE
    | MinorE1 | MinorE2 | MinorE3 | MinorE4
    | OtherMinorBit(bit: nat)

  /** What the adapter reads from the library graph. */
  datatype Graph = Graph(
    arcs: seq<Arc>,            // arc records, indexed by arc handle
    firstEdge: int,            // first arc handle of the edge range
    edgeInUseBound: int,       // one past the last arc handle in use
    rotation: seq<seq<int>>,   // per vertex, its arc handles in rotation order
    virtualFlags: seq<bool>,   // per vertex, whether it is a virtual vertex
    minorType: set<MinorFlag>) // the bits set in the minor-type bitmask

  /** The graph a fresh library object holds before any edge is added. */
  const EmptyGraph: Graph := Graph([], 0, 0, [], [], {})

  /** The edge range of arc handles lies within the arc records. */
  predicate ArcRangeValid(g: Graph) {
    0 <= g.firstEdge && g.edgeInUseBound <= |g.arcs|
  }

  /** What the library guarantees of its graph once all edges are inserted:
      every in-use arc of the edge range has a twin within the arc records,
      and twinning is an involution. */
  ghost predicate BuiltWellFormed(g: Graph) {
    && ArcRangeValid(g)
    && forall a {:trigger g.arcs[a].inUse} :: g.firstEdge <= a < g.edgeInUseBound && g.arcs[a].inUse ==>
         0 <= g.arcs[a].twin < |g.arcs| && g.arcs[g.arcs[a].twin].twin == a
  }

  /** What the library guarantees of its graph after the embedding call, for
      a session of `n` vertices: a rotation list and a virtual flag for each
      vertex, and every arc of a rotation list within the arc records. */
  ghost predicate EmbeddedWellFormed(g: Graph, n: int) {
    && ArcRangeValid(g)
    && |g.rotation| == n
    && |g.virtualFlags| == n
    && forall w, j :: 0 <= w < |g.rotation| && 0 <= j < |g.rotation[w]| ==>
         0 <= g.rotation[w][j] < |g.arcs|
  }
}
