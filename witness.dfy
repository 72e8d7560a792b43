/**
  The non-planarity witness in caller identifiers: the distinct edge indices
  carried by the in-use arcs of the embedded graph, the virtual vertices, and
  the classification of the minor-type bitmask.
 */
module Witness {
  import opened GraphLib
  import opened ArcMap

  // ---------------------------------------------------------------------------
  // Witness edges

  /** The map entries of the in-use arcs from the first edge up to `hi`, in
      ascending handle order. */
  function InUseArcIds(g: Graph, arcMap: seq<int>, hi: int): seq<int>
    requires ArcRangeValid(g)
    requires hi <= g.edgeInUseBound || hi <= g.firstEdge
    decreases hi - g.firstEdge
  {
    if hi <= g.firstEdge then []
    else InUseArcIds(g, arcMap, hi - 1) + (if g.arcs[hi - 1].inUse then [EdgeIdOf(arcMap, hi - 1)] else [])
  }

  /** An id is among the entries exactly when some in-use arc of the range
      below `hi` carries it. */
  lemma {:induction false} InUseArcIdsSpec(g: Graph, arcMap: seq<int>, hi: int, x: int)
    requires ArcRangeValid(g)
    requires hi <= g.edgeInUseBound || hi <= g.firstEdge
    decreases hi - g.firstEdge
    ensures x in InUseArcIds(g, arcMap, hi) <==>
              exists a :: g.firstEdge <= a < hi && g.arcs[a].inUse && EdgeIdOf(arcMap, a) == x
  {
    if hi > g.firstEdge {
      InUseArcIdsSpec(g, arcMap, hi - 1, x);
      if g.arcs[hi - 1].inUse && EdgeIdOf(arcMap, hi - 1) == x {
        assert x in InUseArcIds(g, arcMap, hi);
      }
    }
  }

  /** The values of `ids` that are edge indices below m, each kept at its first
      occurrence only. */
  function FirstOccurrences(ids: seq<int>, m: int): (r: seq<int>)
    ensures |r| <= |ids|
  {
    if |ids| == 0 then []
    else
      var prev := FirstOccurrences(ids[..|ids| - 1], m);
      var x := ids[|ids| - 1];
      if 0 <= x < m && x !in prev then prev + [x] else prev
  }

  /** The witness edges are exactly the edge indices below m that some entry
      carries, and none is listed twice. */
  lemma {:induction false} FirstOccurrencesSpec(ids: seq<int>, m: int)
    ensures forall x :: x in FirstOccurrences(ids, m) <==> x in ids && 0 <= x < m
    ensures forall i, j :: 0 <= i < j < |FirstOccurrences(ids, m)| ==>
              FirstOccurrences(ids, m)[i] != FirstOccurrences(ids, m)[j]
  {
    if |ids| > 0 {
      var p, x := ids[..|ids| - 1], ids[|ids| - 1];
      assert ids == p + [x];
      FirstOccurrencesSpec(p, m);
    }
  }

  /** One more arc entry adds its edge index when it is new and in range. */
  lemma FirstOccurrencesSnoc(ids: seq<int>, x: int, m: int)
    ensures FirstOccurrences(ids + [x], m) ==
      if 0 <= x < m && x !in FirstOccurrences(ids, m) then FirstOccurrences(ids, m) + [x]
      else FirstOccurrences(ids, m)
  {
    assert (ids + [x])[..|ids|] == ids;
  }

  /** The witness edges found by scanning the arcs of the edge range up to
      `hi`: an in-use arc whose entry is an edge index below m not yet found
      adds that index; any other arc adds nothing. */
  function WitnessScan(g: Graph, arcMap: seq<int>, m: int, hi: int): seq<int>
    requires ArcRangeValid(g)
    requires hi <= g.edgeInUseBound || hi <= g.firstEdge
    decreases hi - g.firstEdge
  {
    if hi <= g.firstEdge then []
    else
      var found := WitnessScan(g, arcMap, m, hi - 1);
      var e := EdgeIdOf(arcMap, hi - 1);
      if g.arcs[hi - 1].inUse && 0 <= e < m && e !in found then found + [e] else found
  }

  /** The scan finds exactly the first occurrences of the in-use arcs' entries. */
  lemma {:induction false} WitnessScanFirstOccurrences(g: Graph, arcMap: seq<int>, m: int, hi: int)
    requires ArcRangeValid(g)
    requires hi <= g.edgeInUseBound || hi <= g.firstEdge
    decreases hi - g.firstEdge
    ensures WitnessScan(g, arcMap, m, hi) == FirstOccurrences(InUseArcIds(g, arcMap, hi), m)
  {
    if g.firstEdge < hi {
      WitnessScanFirstOccurrences(g, arcMap, m, hi - 1);
      var before := InUseArcIds(g, arcMap, hi - 1);
      if g.arcs[hi - 1].inUse {
        FirstOccurrencesSnoc(before, EdgeIdOf(arcMap, hi - 1), m);
      } else {
        assert InUseArcIds(g, arcMap, hi) == before;
      }
    }
  }

  /** Scanning further never finds fewer witness edges. */
  lemma {:induction false} WitnessScanGrows(g: Graph, arcMap: seq<int>, m: int, lo: int, hi: int)
    requires ArcRangeValid(g)
    requires lo <= hi && (hi <= g.edgeInUseBound || hi <= g.firstEdge)
    decreases hi - lo
    ensures |WitnessScan(g, arcMap, m, lo)| <= |WitnessScan(g, arcMap, m, hi)|
  {
    if lo < hi && g.firstEdge < hi {
      WitnessScanGrows(g, arcMap, m, lo, hi - 1);
    }
  }

  /** Counts the distinct edge indices below m carried by the in-use arcs of
      the edge range, marking each in scratch flags that start cleared. */
  method CountWitnessEdges(g: Graph, arcMap: seq<int>, m: nat) returns (count: int)
    requires ArcRangeValid(g)
    ensures count == |FirstOccurrences(InUseArcIds(g, arcMap, g.edgeInUseBound), m)|
  {
    var seen := new bool[m](_ => false);
    ghost var found: seq<int> := [];
    count := 0;
    var arc := g.firstEdge;
    while arc < g.edgeInUseBound
      modifies seen
      invariant g.firstEdge <= arc && (arc <= g.edgeInUseBound || arc == g.firstEdge)
      invariant found == WitnessScan(g, arcMap, m, arc)
      invariant count == |found|
      invariant forall e :: 0 <= e < m ==> (seen[e] <==> e in found)
    {
      if g.arcs[arc].inUse {
        var edgeId := EdgeIdOf(arcMap, arc);
        if 0 <= edgeId < m && !seen[edgeId] {
          seen[edgeId] := true;
          count := count + 1;
          found := found + [edgeId];
        }
      }
      arc := arc + 1;
    }
    WitnessScanFirstOccurrences(g, arcMap, m, g.edgeInUseBound);
  }

  /** One step of the witness-edge walk: visits arc `arc`, appending its edge
      index at `cursor` and flagging it when the arc is in use and the index is
      below m and not yet flagged.  Before and after, positions below the
      cursor hold the scan so far and the flags mark exactly its indices. */
  method VisitWitnessArc(g: Graph, arcMap: seq<int>, m: nat, arc: int, seen: array<bool>, edgeIds: array<int>,
                         cursor: int) returns (next: int)
    requires ArcRangeValid(g) && g.firstEdge <= arc < g.edgeInUseBound
    requires seen.Length == m
    requires cursor == |WitnessScan(g, arcMap, m, arc)|
    requires |WitnessScan(g, arcMap, m, arc + 1)| <= edgeIds.Length
    requires forall x :: 0 <= x < cursor ==> edgeIds[x] == WitnessScan(g, arcMap, m, arc)[x]
    requires forall e :: 0 <= e < m ==> (seen[e] <==> e in WitnessScan(g, arcMap, m, arc))
    modifies seen, edgeIds
    ensures next == |WitnessScan(g, arcMap, m, arc + 1)|
    ensures forall x :: 0 <= x < next ==> edgeIds[x] == WitnessScan(g, arcMap, m, arc + 1)[x]
    ensures forall x :: next <= x < edgeIds.Length ==> edgeIds[x] == old(edgeIds[x])
    ensures forall e :: 0 <= e < m ==> (seen[e] <==> e in WitnessScan(g, arcMap, m, arc + 1))
  {
    ghost var found := WitnessScan(g, arcMap, m, arc);
    next := cursor;
    if g.arcs[arc].inUse {
      var edgeId := EdgeIdOf(arcMap, arc);
      if 0 <= edgeId < m && !seen[edgeId] {
        seen[edgeId] := true;
        edgeIds[cursor] := edgeId;
        next := cursor + 1;
        assert WitnessScan(g, arcMap, m, arc + 1) == found + [edgeId];
      }
    }
  }

  /** Writes the distinct edge indices below m carried by the in-use arcs of
      the edge range, each at its first arc, in arc order; nothing past them
      changes. */
  method WriteWitnessEdgeIds(g: Graph, arcMap: seq<int>, m: nat, edgeIds: array<int>)
    requires ArcRangeValid(g)
    requires edgeIds.Length >= |FirstOccurrences(InUseArcIds(g, arcMap, g.edgeInUseBound), m)|
    modifies edgeIds
    ensures var r := FirstOccurrences(InUseArcIds(g, arcMap, g.edgeInUseBound), m);
            edgeIds[..|r|] == r && edgeIds[|r|..] == old(edgeIds[|r|..])
  {
    ghost var all := WitnessScan(g, arcMap, m, g.edgeInUseBound);
    assert |all| <= edgeIds.Length by {
      WitnessScanFirstOccurrences(g, arcMap, m, g.edgeInUseBound);
    }
    ghost var orig := edgeIds[..];
    var seen := new bool[m](_ => false);
    var cursor := 0;
    var arc := g.firstEdge;
    while arc < g.edgeInUseBound
      modifies seen, edgeIds
      invariant g.firstEdge <= arc && (arc <= g.edgeInUseBound || arc == g.firstEdge)
      invariant cursor == |WitnessScan(g, arcMap, m, arc)| <= |all|
      invariant forall x :: 0 <= x < cursor ==> edgeIds[x] == WitnessScan(g, arcMap, m, arc)[x]
      invariant forall x :: cursor <= x < edgeIds.Length ==> edgeIds[x] == orig[x]
      invariant forall e :: 0 <= e < m ==> (seen[e] <==> e in WitnessScan(g, arcMap, m, arc))
    {
      WitnessScanGrows(g, arcMap, m, arc + 1, g.edgeInUseBound);
      cursor := VisitWitnessArc(g, arcMap, m, arc, seen, edgeIds, cursor);
      arc := arc + 1;
    }
    WitnessScanFirstOccurrences(g, arcMap, m, g.edgeInUseBound);
  }

  /** Position of the first occurrence of x in s. */
  function IndexOf(s: seq<int>, x: int): (k: int)
    requires x in s
    ensures 0 <= k < |s| && s[k] == x && x !in s[..k]
  {
    if s[0] == x then 0
    else
      assert s == [s[0]] + s[1..];
      1 + IndexOf(s[1..], x)
  }

  lemma IndexOfUnique(s: seq<int>, x: int, k: int)
    requires 0 <= k < |s| && s[k] == x && x !in s[..k]
    ensures IndexOf(s, x) == k
  {
    var k' := IndexOf(s, x);
    assert s[k] == x && s[k'] == x;
  }

  lemma IndexOfAppend(s: seq<int>, y: int, x: int)
    requires x in s
    ensures IndexOf(s + [y], x) == IndexOf(s, x)
  {
    var k := IndexOf(s, x);
    assert (s + [y])[..k] == s[..k];
    IndexOfUnique(s + [y], x, k);
  }

  /** The first occurrence of an earlier witness edge precedes that of a
      later one. */
  predicate InFirstOccurrenceOrder(ids: seq<int>, r: seq<int>) {
    forall i, j :: 0 <= i < j < |r| ==>
      && r[i] in ids && r[j] in ids
      && IndexOf(ids, r[i]) < IndexOf(ids, r[j])
  }

  lemma OrderStep(p: seq<int>, x: int, m: int)
    requires InFirstOccurrenceOrder(p, FirstOccurrences(p, m))
    ensures InFirstOccurrenceOrder(p + [x], FirstOccurrences(p + [x], m))
  {
    var ids := p + [x];
    assert ids[..|ids| - 1] == p;
    var prev, r := FirstOccurrences(p, m), FirstOccurrences(ids, m);
    FirstOccurrencesSpec(p, m);
    FirstOccurrencesSpec(ids, m);
    forall i, j | 0 <= i < j < |r|
      ensures r[i] in ids && r[j] in ids && IndexOf(ids, r[i]) < IndexOf(ids, r[j])
    {
      assert r[i] in prev;
      IndexOfAppend(p, x, r[i]);
      if j < |prev| {
        assert r[j] in prev;
        IndexOfAppend(p, x, r[j]);
      } else {
        // r[j] is x, seen for the first time at the last position
        assert r[j] == x && x !in prev;
        assert ids[..|p|] == p;
        IndexOfUnique(ids, x, |p|);
      }
    }
  }

  /** The witness edges appear in the order in which their first arcs appear. */
  lemma {:induction false} FirstOccurrencesOrder(ids: seq<int>, m: int)
    ensures InFirstOccurrenceOrder(ids, FirstOccurrences(ids, m))
  {
    if |ids| > 0 {
      var p, x := ids[..|ids| - 1], ids[|ids| - 1];
      assert ids == p + [x];
      FirstOccurrencesOrder(p, m);
      OrderStep(p, x, m);
    }
  }

  /** Distinct edge indices below m number at most m. */
  lemma {:induction false} DistinctInRangeBound(r: seq<int>, m: nat)
    requires forall i, j :: 0 <= i < j < |r| ==> r[i] != r[j]
    requires forall x :: x in r ==> 0 <= x < m
    ensures |r| <= m
  {
    if |r| == 0 {
    } else if m - 1 in r {
      var k :| 0 <= k < |r| && r[k] == m - 1;
      var rest := r[..k] + r[k + 1..];
      assert |rest| == |r| - 1;
      forall x | x in rest ensures 0 <= x < m - 1 {
        var i :| 0 <= i < |rest| && rest[i] == x;
        var i' := if i < k then i else i + 1;
        assert x == r[i'] && r[i'] in r;
        if i' < k { assert r[i'] != r[k]; } else { assert r[k] != r[i']; }
      }
      forall i, j | 0 <= i < j < |rest| ensures rest[i] != rest[j] {
        var i', j' := if i < k then i else i + 1, if j < k then j else j + 1;
        assert rest[i] == r[i'] && rest[j] == r[j'];
      }
      DistinctInRangeBound(rest, m - 1);
    } else {
      assert r[0] in r;
      DistinctInRangeBound(r, m - 1);
    }
  }

  /** No more witness edges than input edges. */
  lemma FirstOccurrencesBound(ids: seq<int>, m: nat)
    ensures |FirstOccurrences(ids, m)| <= m
  {
    FirstOccurrencesSpec(ids, m);
    DistinctInRangeBound(FirstOccurrences(ids, m), m);
  }

  // ---------------------------------------------------------------------------
  // Witness vertices

  /** The vertices below k flagged virtual, in ascending order. */
  function VirtualVertices(flags: seq<bool>, k: int): (r: seq<int>)
    requires 0 <= k <= |flags|
    ensures |r| <= k
  {
    if k == 0 then []
    else VirtualVertices(flags, k - 1) + (if flags[k - 1] then [k - 1] else [])
  }

  /** The witness vertices are exactly the flagged vertices below k, in
      strictly ascending order. */
  lemma {:induction false} VirtualVerticesSpec(flags: seq<bool>, k: int)
    requires 0 <= k <= |flags|
    ensures forall i, j :: 0 <= i < j < |VirtualVertices(flags, k)| ==>
              VirtualVertices(flags, k)[i] < VirtualVertices(flags, k)[j]
    ensures forall x :: x in VirtualVertices(flags, k) <==> 0 <= x < k && flags[x]
  {
    if k > 0 {
      var prev := VirtualVertices(flags, k - 1);
      VirtualVerticesSpec(flags, k - 1);
      assert forall i :: 0 <= i < |prev| ==> prev[i] in prev;
    }
  }

  /** Scanning further only extends the virtual vertices found. */
  lemma {:induction false} VirtualVerticesPrefix(flags: seq<bool>, j: int, k: int)
    requires 0 <= j <= k <= |flags|
    decreases k - j
    ensures VirtualVertices(flags, j) <= VirtualVertices(flags, k)
  {
    if j < k {
      VirtualVerticesPrefix(flags, j, k - 1);
    }
  }

  // ---------------------------------------------------------------------------
  // Witness classification

  /** The bits of the K3,3 family. */
  const K33Family: set<MinorFlag> :=
    {MinorA, MinorB, MinorC, MinorD, MinorE1, MinorE2, MinorE3, MinorE4}

  lemma K33FamilyMember(minor: set<MinorFlag>)
    ensures minor * K33Family != {} <==>
      (MinorA in minor || MinorB in minor || MinorC in minor || MinorD in minor ||
       MinorE1 in minor || MinorE2 in minor || MinorE3 in minor || MinorE4 in minor)
  {
    if minor * K33Family != {} {
      var f :| f in minor * K33Family;
    } else {
      assert forall f :: f in K33Family && f in minor ==> f in minor * K33Family;
    }
  }

  /** 33 when any K3,3-family bit is set, otherwise 5 when the K5 bit is set,
      otherwise 0. */
  function MinorClass(minor: set<MinorFlag>): (t: int)
    ensures t == 0 || t == 5 || t == 33
    ensures t == 33 <==>
      (MinorA in minor || MinorB in minor || MinorC in minor || MinorD in minor ||
       MinorE1 in minor || MinorE2 in minor || MinorE3 in minor || MinorE4 in minor)
    ensures t == 5 <==> MinorE in minor && t != 33
  {
    K33FamilyMember(minor);
    if minor * K33Family != {} then 33
    else if MinorE in minor then 5
    else 0
  }
}
