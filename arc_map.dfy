/**
  The arc identity map: for every arc handle of the built library graph, the
  index of the input edge it carries, or `Unmapped`.

  Each canonical arc (an in-use arc whose twin handle is not smaller than its
  own) is visited once, in ascending handle order, and claims the
  lowest-indexed input edge that no earlier arc has claimed and whose
  unordered endpoint pair equals the arc's; that index is stored for the arc
  and for its twin.  `MatchUpTo` is the reference definition; `BuildArcMap`
  is the in-place loop over an array, proved equal to it.
 */
module ArcMap {
  import opened GraphLib

  /** The map entry of an arc that carries no input edge. */
  const Unmapped: int := -1

  /** Input edge (ue, ve) joins the same two vertices as an arc from y to x. */
  predicate SamePair(ue: int, ve: int, x: int, y: int) {
    (ue == x && ve == y) || (ue == y && ve == x)
  }

  /** Reading the map at an arc handle, with the bounds guard every reader uses. */
  function EdgeIdOf(arcMap: seq<int>, arc: int): int {
    if 0 <= arc < |arcMap| then arcMap[arc] else Unmapped
  }

  /** Writing the map at an arc handle, skipped when the handle is out of range. */
  function Store(arcMap: seq<int>, arc: int, e: int): seq<int> {
    if 0 <= arc < |arcMap| then arcMap[arc := e] else arcMap
  }

  /** The first input edge at or after `from` that is not yet claimed and whose
      endpoints are {x, y}; -1 when there is none. */
  function FirstUnclaimed(u: seq<int>, v: seq<int>, used: seq<bool>, x: int, y: int, from: nat): (e: int)
    requires |used| <= |u| && |used| <= |v|
    requires from <= |used|
    decreases |used| - from
    ensures e == -1 || (from <= e < |used| && !used[e] && SamePair(u[e], v[e], x, y))
    ensures forall k :: from <= k < (if e == -1 then |used| else e) ==> used[k] || !SamePair(u[k], v[k], x, y)
  {
    if from == |used| then -1
    else if !used[from] && SamePair(u[from], v[from], x, y) then from
    else FirstUnclaimed(u, v, used, x, y, from + 1)
  }

  /** The arc map being built together with the claimed-edge flags. */
  datatype Matching = Matching(arcMap: seq<int>, used: seq<bool>)

  /** An in-use arc of the edge range whose twin handle is not below its own
      (and, as in every built graph, is itself an arc handle). */
  predicate Canonical(g: Graph, arc: int)
    requires ArcRangeValid(g)
  {
    g.firstEdge <= arc < g.edgeInUseBound && g.arcs[arc].inUse && arc <= g.arcs[arc].twin < |g.arcs|
  }

  /** Visiting one arc handle of the edge range. */
  function Claim(g: Graph, u: seq<int>, v: seq<int>, st: Matching, arc: int): Matching
    requires ArcRangeValid(g)
    requires g.firstEdge <= arc < g.edgeInUseBound
    requires |st.used| <= |u| && |st.used| <= |v|
  {
    if !Canonical(g, arc) then st
    else
      var twin := g.arcs[arc].twin;
      var e := FirstUnclaimed(u, v, st.used, g.arcs[twin].neighbor, g.arcs[arc].neighbor, 0);
      if e >= 0 then Matching(Store(Store(st.arcMap, arc, e), twin, e), st.used[e := true])
      else st
  }

  /** Every entry unmapped and no edge claimed. */
  function InitialMatching(mapSize: nat, m: nat): Matching {
    Matching(seq(mapSize, _ => Unmapped), seq(m, _ => false))
  }

  /** The matching after visiting the arc handles from the first edge up to `hi`. */
  function MatchUpTo(g: Graph, u: seq<int>, v: seq<int>, mapSize: nat, m: nat, hi: int): (st: Matching)
    requires ArcRangeValid(g)
    requires m <= |u| && m <= |v|
    requires hi <= g.edgeInUseBound || hi <= g.firstEdge
    decreases hi - g.firstEdge
    ensures |st.arcMap| == mapSize && |st.used| == m
  {
    if hi <= g.firstEdge then InitialMatching(mapSize, m)
    else Claim(g, u, v, MatchUpTo(g, u, v, mapSize, m, hi - 1), hi - 1)
  }

  /** The finished arc map of a built graph. */
  function ArcMapOf(g: Graph, u: seq<int>, v: seq<int>, mapSize: nat, m: nat): seq<int>
    requires ArcRangeValid(g)
    requires m <= |u| && m <= |v|
  {
    MatchUpTo(g, u, v, mapSize, m, g.edgeInUseBound).arcMap
  }

  // ---------------------------------------------------------------------------
  // Invariants of the matching

  /** Every entry is unmapped or an input edge index. */
  ghost predicate MapInRange(arcMap: seq<int>, m: int) {
    forall i :: 0 <= i < |arcMap| ==> Unmapped <= arcMap[i] < m
  }

  /** Every edge index stored in the map is flagged as claimed. */
  ghost predicate ClaimsRecorded(arcMap: seq<int>, used: seq<bool>) {
    forall i :: 0 <= i < |arcMap| && 0 <= arcMap[i] < |used| ==> used[arcMap[i]]
  }

  /** An edge index is stored at most at one arc and at its twin. */
  ghost predicate ClaimedOnce(g: Graph, arcMap: seq<int>) {
    forall i, j :: 0 <= i < j < |arcMap| && arcMap[i] >= 0 && arcMap[i] == arcMap[j] ==>
      i < |g.arcs| && g.arcs[i].twin == j
  }

  /** Each visited canonical arc and its twin hold the same entry. */
  ghost predicate TwinsAgree(g: Graph, arcMap: seq<int>, hi: int)
    requires ArcRangeValid(g)
  {
    forall a {:trigger Canonical(g, a)} ::
      (g.firstEdge <= a < hi && a < g.edgeInUseBound && Canonical(g, a)
       && a < |arcMap| && g.arcs[a].twin < |arcMap|) ==>
      arcMap[a] == arcMap[g.arcs[a].twin]
  }

  /** The edge stored at a visited canonical arc, or at its twin, joins the
      arc's two endpoints. */
  ghost predicate EndpointsAgree(g: Graph, u: seq<int>, v: seq<int>, arcMap: seq<int>, hi: int)
    requires ArcRangeValid(g)
  {
    forall a {:trigger Canonical(g, a)} :: g.firstEdge <= a < hi && a < g.edgeInUseBound && Canonical(g, a) ==>
      var t := g.arcs[a].twin;
      var e := EdgeIdOf(arcMap, a);
      var f := EdgeIdOf(arcMap, t);
      (0 <= e < |u| && e < |v| ==> SamePair(u[e], v[e], g.arcs[t].neighbor, g.arcs[a].neighbor)) &&
      (0 <= f < |u| && f < |v| ==> SamePair(u[f], v[f], g.arcs[t].neighbor, g.arcs[a].neighbor))
  }

  /** Canonical arcs not yet visited, and their twins, are still unmapped. */
  ghost predicate PendingUnmapped(g: Graph, arcMap: seq<int>, hi: int)
    requires ArcRangeValid(g)
  {
    forall a {:trigger Canonical(g, a)} :: hi <= a < g.edgeInUseBound && g.firstEdge <= a && Canonical(g, a) ==>
      EdgeIdOf(arcMap, a) == Unmapped && EdgeIdOf(arcMap, g.arcs[a].twin) == Unmapped
  }

  /** Pointwise effect of a visit that claims edge `e` for `arc` and its twin. */
  lemma ClaimStores(g: Graph, u: seq<int>, v: seq<int>, st: Matching, arc: int)
    requires ArcRangeValid(g)
    requires g.firstEdge <= arc < g.edgeInUseBound
    requires |st.used| <= |u| && |st.used| <= |v|
    requires Canonical(g, arc)
    ensures var t := g.arcs[arc].twin;
            var e := FirstUnclaimed(u, v, st.used, g.arcs[t].neighbor, g.arcs[arc].neighbor, 0);
            var st' := Claim(g, u, v, st, arc);
            e >= 0 ==>
              && |st'.arcMap| == |st.arcMap|
              && (forall i :: 0 <= i < |st.arcMap| ==>
                    st'.arcMap[i] == if i == arc || i == t then e else st.arcMap[i])
              && st'.used == st.used[e := true]
  {
  }

  /** A later visit never overwrites the entries of an earlier canonical arc. */
  lemma EarlierArcUntouched(g: Graph, arc: int, a: int)
    requires BuiltWellFormed(g)
    requires Canonical(g, arc) && Canonical(g, a) && a < arc
    ensures a != g.arcs[arc].twin
    ensures g.arcs[a].twin != arc && g.arcs[a].twin != g.arcs[arc].twin
  {
    assert g.arcs[g.arcs[arc].twin].twin == arc;
    assert g.arcs[g.arcs[a].twin].twin == a;
  }

  lemma ClaimKeepsRange(g: Graph, u: seq<int>, v: seq<int>, st: Matching, m: nat, arc: int)
    requires ArcRangeValid(g)
    requires m <= |u| && m <= |v|
    requires g.firstEdge <= arc < g.edgeInUseBound
    requires |st.used| == m && MapInRange(st.arcMap, m) && ClaimsRecorded(st.arcMap, st.used)
    ensures var st' := Claim(g, u, v, st, arc);
            |st'.used| == m && MapInRange(st'.arcMap, m) && ClaimsRecorded(st'.arcMap, st'.used)
  {
    if Canonical(g, arc) {
      ClaimStores(g, u, v, st, arc);
    }
  }

  lemma ClaimKeepsOnce(g: Graph, u: seq<int>, v: seq<int>, st: Matching, m: nat, arc: int)
    requires BuiltWellFormed(g)
    requires m <= |u| && m <= |v|
    requires g.firstEdge <= arc < g.edgeInUseBound
    requires |st.used| == m && ClaimsRecorded(st.arcMap, st.used) && ClaimedOnce(g, st.arcMap)
    ensures ClaimedOnce(g, Claim(g, u, v, st, arc).arcMap)
  {
    var st' := Claim(g, u, v, st, arc);
    if Canonical(g, arc) {
      var t := g.arcs[arc].twin;
      var e := FirstUnclaimed(u, v, st.used, g.arcs[t].neighbor, g.arcs[arc].neighbor, 0);
      if e >= 0 {
        ClaimStores(g, u, v, st, arc);
        var M, M' := st.arcMap, st'.arcMap;
        assert forall i :: 0 <= i < |M| ==> M[i] != e;
        forall i, j | 0 <= i < j < |M'| && M'[i] >= 0 && M'[i] == M'[j]
          ensures i < |g.arcs| && g.arcs[i].twin == j
        {
          var ti, tj := i == arc || i == t, j == arc || j == t;
          if ti && tj {
            assert i == arc && j == t;
          } else if ti || tj {
            assert false;
          } else {
            assert M[i] == M'[i] && M[j] == M'[j];
          }
        }
      }
    }
  }

  lemma ClaimKeepsTwins(g: Graph, u: seq<int>, v: seq<int>, st: Matching, arc: int)
    requires BuiltWellFormed(g)
    requires g.firstEdge <= arc < g.edgeInUseBound
    requires |st.used| <= |u| && |st.used| <= |v|
    requires TwinsAgree(g, st.arcMap, arc) && PendingUnmapped(g, st.arcMap, arc)
    ensures TwinsAgree(g, Claim(g, u, v, st, arc).arcMap, arc + 1)
  {
    var M, M' := st.arcMap, Claim(g, u, v, st, arc).arcMap;
    if Canonical(g, arc) {
      ClaimStores(g, u, v, st, arc);
      forall a | (g.firstEdge <= a < arc + 1 && a < g.edgeInUseBound && Canonical(g, a)
                  && a < |M'| && g.arcs[a].twin < |M'|)
        ensures M'[a] == M'[g.arcs[a].twin]
      {
        if a < arc {
          EarlierArcUntouched(g, arc, a);
        }
      }
    }
  }

  lemma ClaimKeepsEndpoints(g: Graph, u: seq<int>, v: seq<int>, st: Matching, arc: int)
    requires BuiltWellFormed(g)
    requires g.firstEdge <= arc < g.edgeInUseBound
    requires |st.used| <= |u| && |st.used| <= |v|
    requires EndpointsAgree(g, u, v, st.arcMap, arc) && PendingUnmapped(g, st.arcMap, arc)
    ensures EndpointsAgree(g, u, v, Claim(g, u, v, st, arc).arcMap, arc + 1)
  {
    var M, M' := st.arcMap, Claim(g, u, v, st, arc).arcMap;
    if Canonical(g, arc) {
      ClaimStores(g, u, v, st, arc);
      forall a | g.firstEdge <= a < arc + 1 && a < g.edgeInUseBound && Canonical(g, a)
        ensures var t := g.arcs[a].twin;
                var e := EdgeIdOf(M', a);
                var f := EdgeIdOf(M', t);
                (0 <= e < |u| && e < |v| ==> SamePair(u[e], v[e], g.arcs[t].neighbor, g.arcs[a].neighbor)) &&
                (0 <= f < |u| && f < |v| ==> SamePair(u[f], v[f], g.arcs[t].neighbor, g.arcs[a].neighbor))
      {
        if a < arc {
          EarlierArcUntouched(g, arc, a);
          assert EdgeIdOf(M', a) == EdgeIdOf(M, a);
          assert EdgeIdOf(M', g.arcs[a].twin) == EdgeIdOf(M, g.arcs[a].twin);
        }
      }
    }
  }

  lemma ClaimKeepsPending(g: Graph, u: seq<int>, v: seq<int>, st: Matching, arc: int)
    requires BuiltWellFormed(g)
    requires g.firstEdge <= arc < g.edgeInUseBound
    requires |st.used| <= |u| && |st.used| <= |v|
    requires PendingUnmapped(g, st.arcMap, arc)
    ensures PendingUnmapped(g, Claim(g, u, v, st, arc).arcMap, arc + 1)
  {
    var M, M' := st.arcMap, Claim(g, u, v, st, arc).arcMap;
    if Canonical(g, arc) {
      ClaimStores(g, u, v, st, arc);
      forall a | arc + 1 <= a < g.edgeInUseBound && g.firstEdge <= a && Canonical(g, a)
        ensures EdgeIdOf(M', a) == Unmapped && EdgeIdOf(M', g.arcs[a].twin) == Unmapped
      {
        EarlierArcUntouched(g, a, arc);
        assert EdgeIdOf(M', a) == EdgeIdOf(M, a);
        assert EdgeIdOf(M', g.arcs[a].twin) == EdgeIdOf(M, g.arcs[a].twin);
      }
    }
  }

  /** The reference matching after one more visit. */
  lemma MatchUpToUnfold(g: Graph, u: seq<int>, v: seq<int>, mapSize: nat, m: nat, hi: int)
    requires ArcRangeValid(g)
    requires m <= |u| && m <= |v|
    requires g.firstEdge < hi <= g.edgeInUseBound
    ensures MatchUpTo(g, u, v, mapSize, m, hi) == Claim(g, u, v, MatchUpTo(g, u, v, mapSize, m, hi - 1), hi - 1)
  {
  }

  /** Before any visit, nothing is mapped. */
  lemma InitialUnmapped(mapSize: nat, m: nat)
    ensures forall a :: EdgeIdOf(InitialMatching(mapSize, m).arcMap, a) == Unmapped
  {
  }

  /** Along the reference matching, every entry is -1 or an input edge index,
      and every stored index is flagged as claimed. */
  lemma {:induction false} MatchUpToRange(g: Graph, u: seq<int>, v: seq<int>, mapSize: nat, m: nat, hi: int)
    requires BuiltWellFormed(g)
    requires m <= |u| && m <= |v|
    requires hi <= g.edgeInUseBound || hi <= g.firstEdge
    decreases hi - g.firstEdge
    ensures var st := MatchUpTo(g, u, v, mapSize, m, hi);
            MapInRange(st.arcMap, m) && ClaimsRecorded(st.arcMap, st.used)
  {
    if hi > g.firstEdge {
      MatchUpToRange(g, u, v, mapSize, m, hi - 1);
      MatchUpToUnfold(g, u, v, mapSize, m, hi);
      ClaimKeepsRange(g, u, v, MatchUpTo(g, u, v, mapSize, m, hi - 1), m, hi - 1);
    } else {
      InitialUnmapped(mapSize, m);
    }
  }

  /** Along the reference matching, an edge index is stored at one arc and its
      twin at most. */
  lemma {:induction false} MatchUpToOnce(g: Graph, u: seq<int>, v: seq<int>, mapSize: nat, m: nat, hi: int)
    requires BuiltWellFormed(g)
    requires m <= |u| && m <= |v|
    requires hi <= g.edgeInUseBound || hi <= g.firstEdge
    decreases hi - g.firstEdge
    ensures ClaimedOnce(g, MatchUpTo(g, u, v, mapSize, m, hi).arcMap)
  {
    if hi > g.firstEdge {
      MatchUpToOnce(g, u, v, mapSize, m, hi - 1);
      MatchUpToRange(g, u, v, mapSize, m, hi - 1);
      MatchUpToUnfold(g, u, v, mapSize, m, hi);
      ClaimKeepsOnce(g, u, v, MatchUpTo(g, u, v, mapSize, m, hi - 1), m, hi - 1);
    } else {
      InitialUnmapped(mapSize, m);
    }
  }

  /** Along the reference matching, canonical arcs not yet visited, and their
      twins, are unmapped. */
  lemma {:induction false} MatchUpToPending(g: Graph, u: seq<int>, v: seq<int>, mapSize: nat, m: nat, hi: int)
    requires BuiltWellFormed(g)
    requires m <= |u| && m <= |v|
    requires hi <= g.edgeInUseBound || hi <= g.firstEdge
    decreases hi - g.firstEdge
    ensures PendingUnmapped(g, MatchUpTo(g, u, v, mapSize, m, hi).arcMap, hi)
  {
    if hi > g.firstEdge {
      MatchUpToPending(g, u, v, mapSize, m, hi - 1);
      MatchUpToUnfold(g, u, v, mapSize, m, hi);
      ClaimKeepsPending(g, u, v, MatchUpTo(g, u, v, mapSize, m, hi - 1), hi - 1);
    } else {
      InitialUnmapped(mapSize, m);
    }
  }

  /** Along the reference matching, each visited canonical arc agrees with its
      twin. */
  lemma {:induction false} MatchUpToTwins(g: Graph, u: seq<int>, v: seq<int>, mapSize: nat, m: nat, hi: int)
    requires BuiltWellFormed(g)
    requires m <= |u| && m <= |v|
    requires hi <= g.edgeInUseBound || hi <= g.firstEdge
    decreases hi - g.firstEdge
    ensures TwinsAgree(g, MatchUpTo(g, u, v, mapSize, m, hi).arcMap, hi)
  {
    if hi > g.firstEdge {
      MatchUpToTwins(g, u, v, mapSize, m, hi - 1);
      MatchUpToPending(g, u, v, mapSize, m, hi - 1);
      MatchUpToUnfold(g, u, v, mapSize, m, hi);
      ClaimKeepsTwins(g, u, v, MatchUpTo(g, u, v, mapSize, m, hi - 1), hi - 1);
    }
  }

  /** Along the reference matching, the edge stored at a visited canonical arc,
      or at its twin, joins the arc's endpoints. */
  lemma {:induction false} MatchUpToEndpoints(g: Graph, u: seq<int>, v: seq<int>, mapSize: nat, m: nat, hi: int)
    requires BuiltWellFormed(g)
    requires m <= |u| && m <= |v|
    requires hi <= g.edgeInUseBound || hi <= g.firstEdge
    decreases hi - g.firstEdge
    ensures EndpointsAgree(g, u, v, MatchUpTo(g, u, v, mapSize, m, hi).arcMap, hi)
  {
    if hi > g.firstEdge {
      MatchUpToEndpoints(g, u, v, mapSize, m, hi - 1);
      MatchUpToPending(g, u, v, mapSize, m, hi - 1);
      MatchUpToUnfold(g, u, v, mapSize, m, hi);
      ClaimKeepsEndpoints(g, u, v, MatchUpTo(g, u, v, mapSize, m, hi - 1), hi - 1);
    }
  }

  /** The finished map: entries are -1 or input edge indices, an edge index sits
      at one arc/twin pair at most, each canonical arc agrees with its twin and
      carries an edge joining its endpoints. */
  lemma ArcMapProperties(g: Graph, u: seq<int>, v: seq<int>, mapSize: nat, m: nat)
    requires BuiltWellFormed(g)
    requires m <= |u| && m <= |v|
    ensures |ArcMapOf(g, u, v, mapSize, m)| == mapSize
    ensures MapInRange(ArcMapOf(g, u, v, mapSize, m), m)
    ensures ClaimedOnce(g, ArcMapOf(g, u, v, mapSize, m))
    ensures TwinsAgree(g, ArcMapOf(g, u, v, mapSize, m), g.edgeInUseBound)
    ensures EndpointsAgree(g, u, v, ArcMapOf(g, u, v, mapSize, m), g.edgeInUseBound)
  {
    MatchUpToRange(g, u, v, mapSize, m, g.edgeInUseBound);
    MatchUpToOnce(g, u, v, mapSize, m, g.edgeInUseBound);
    MatchUpToTwins(g, u, v, mapSize, m, g.edgeInUseBound);
    MatchUpToEndpoints(g, u, v, mapSize, m, g.edgeInUseBound);
  }

  // ---------------------------------------------------------------------------
  // The in-place loops

  /** The scan for a free matching input edge; the edge found is flagged. */
  method ClaimFirstUnclaimed(u: seq<int>, v: seq<int>, used: array<bool>, x: int, y: int) returns (e: int)
    requires used.Length <= |u| && used.Length <= |v|
    modifies used
    ensures e == FirstUnclaimed(u, v, old(used[..]), x, y, 0)
    ensures used[..] == if e >= 0 then old(used[..])[e := true] else old(used[..])
  {
    ghost var before := used[..];
    e := -1;
    var k := 0;
    while k < used.Length
      invariant 0 <= k <= used.Length
      invariant used[..] == before
      invariant FirstUnclaimed(u, v, before, x, y, 0) == FirstUnclaimed(u, v, before, x, y, k)
    {
      if !used[k] && SamePair(u[k], v[k], x, y) {
        e := k;
        used[k] := true;
        return;
      }
      k := k + 1;
    }
  }

  /** The visit of every arc handle of the edge range over an arc map that
      starts all unmapped and claim flags that start all clear. */
  method BuildArcMap(g: Graph, u: seq<int>, v: seq<int>, m: nat, arcMap: array<int>, used: array<bool>)
    requires BuiltWellFormed(g)
    requires m <= |u| && m <= |v| && used.Length == m
    requires forall i :: 0 <= i < arcMap.Length ==> arcMap[i] == Unmapped
    requires forall e :: 0 <= e < m ==> !used[e]
    modifies arcMap, used
    ensures arcMap[..] == ArcMapOf(g, u, v, arcMap.Length, m)
  {
    assert arcMap[..] == InitialMatching(arcMap.Length, m).arcMap;
    assert used[..] == InitialMatching(arcMap.Length, m).used;
    var arc := g.firstEdge;
    while arc < g.edgeInUseBound
      invariant g.firstEdge <= arc && (arc <= g.edgeInUseBound || arc == g.firstEdge)
      invariant Matching(arcMap[..], used[..]) == MatchUpTo(g, u, v, arcMap.Length, m, arc)
    {
      ghost var st := Matching(arcMap[..], used[..]);
      if g.arcs[arc].inUse {
        var twinArc := g.arcs[arc].twin;
        if twinArc >= arc {
          var uArc := g.arcs[twinArc].neighbor;
          var vArc := g.arcs[arc].neighbor;
          var found := ClaimFirstUnclaimed(u, v, used, uArc, vArc);
          if found >= 0 {
            if 0 <= arc < arcMap.Length { arcMap[arc] := found; }
            if 0 <= twinArc < arcMap.Length { arcMap[twinArc] := found; }
          }
          assert arcMap[..] == Claim(g, u, v, st, arc).arcMap;
        }
      }
      arc := arc + 1;
    }
  }
}
