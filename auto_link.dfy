/**
 * Reference definition of the greedy auto-link pass over `path` nodes, and
 * what it guarantees.  For each path node A, in list order, the pass picks
 * the nearest other path node B whose pair with A is not yet registered
 * (strict `<`, so the earliest candidate wins a tie) and adds the edge
 * A -> B when the distance is within the threshold; the pair is registered
 * at once, so it shapes the choices of later nodes in the same pass.
 */
module AutoLink {
  import opened FloorGraph

  /** B (position b) is a candidate partner for A (position a) under the registered pairs. */
  predicate Eligible(nodes: seq<Node>, pairs: set<Pair>, a: nat, b: nat)
    requires a < |nodes| && b < |nodes|
  {
    && nodes[a].id != nodes[b].id
    && nodes[b].kind.Path?
    && Canon(nodes[a].id, nodes[b].id) !in pairs
  }

  /**
   * The candidate the scan has kept after looking at positions 0 .. n-1:
   * a later candidate replaces the kept one only when strictly nearer.
   */
  function NearestAmong(nodes: seq<Node>, pairs: set<Pair>, a: nat, n: nat): (r: Option<nat>)
    requires a < |nodes| && n <= |nodes|
    ensures r.Some? ==> r.value < n
  {
    if n == 0 then None
    else
      var kept := NearestAmong(nodes, pairs, a, n - 1);
      if !Eligible(nodes, pairs, a, n - 1) then kept
      else if kept.None? || SqDist(nodes[a], nodes[n - 1]) < SqDist(nodes[a], nodes[kept.value]) then Some(n - 1)
      else kept
  }

  /**
   * k is the nearest eligible candidate among positions 0 .. n-1, and the
   * first one in list order among those at that distance.
   */
  ghost predicate IsNearest(nodes: seq<Node>, pairs: set<Pair>, a: nat, n: nat, k: nat)
    requires a < |nodes| && n <= |nodes|
  {
    && k < n
    && Eligible(nodes, pairs, a, k)
    && (forall m :: 0 <= m < n && Eligible(nodes, pairs, a, m) ==>
          SqDist(nodes[a], nodes[k]) <= SqDist(nodes[a], nodes[m]))
    && (forall m :: 0 <= m < k && Eligible(nodes, pairs, a, m) ==>
          SqDist(nodes[a], nodes[k]) < SqDist(nodes[a], nodes[m]))
  }

  /** The scan finds nothing exactly when no candidate is eligible, and otherwise the nearest, earliest one. */
  lemma {:induction false} NearestAmongSpec(nodes: seq<Node>, pairs: set<Pair>, a: nat, n: nat)
    requires a < |nodes| && n <= |nodes|
    ensures NearestAmong(nodes, pairs, a, n).None? <==>
              forall m :: 0 <= m < n ==> !Eligible(nodes, pairs, a, m)
    ensures NearestAmong(nodes, pairs, a, n).Some? ==>
              IsNearest(nodes, pairs, a, n, NearestAmong(nodes, pairs, a, n).value)
  {
    if n > 0 {
      NearestAmongSpec(nodes, pairs, a, n - 1);
    }
  }

  /** At most one candidate is the nearest, earliest one. */
  lemma NearestUnique(nodes: seq<Node>, pairs: set<Pair>, a: nat, n: nat, k1: nat, k2: nat)
    requires a < |nodes| && n <= |nodes|
    requires IsNearest(nodes, pairs, a, n, k1) && IsNearest(nodes, pairs, a, n, k2)
    ensures k1 == k2
  {
  }

  /** The edge the pass adds for the node at position a, if any. */
  function Choice(nodes: seq<Node>, pairs: set<Pair>, a: nat): (r: Option<Edge>)
    requires a < |nodes|
    ensures r.Some? ==> nodes[a].kind.Path? && r.value.source == nodes[a].id && r.value.weight <= MaxAutoLinkSq
  {
    if !nodes[a].kind.Path? then None
    else match NearestAmong(nodes, pairs, a, |nodes|)
      case None => None
      case Some(k) =>
        var d := SqDist(nodes[a], nodes[k]);
        if d <= MaxAutoLinkSq then Some(Edge(nodes[a].id, nodes[k].id, d)) else None
  }

  /** The edges the pass adds for the nodes at positions i .. |nodes|-1, given the pairs registered so far. */
  function LinkFrom(nodes: seq<Node>, pairs: set<Pair>, i: nat): (r: seq<Edge>)
    requires i <= |nodes|
    ensures |r| <= |nodes| - i
    decreases |nodes| - i
  {
    if i == |nodes| then []
    else match Choice(nodes, pairs, i)
      case None => LinkFrom(nodes, pairs, i + 1)
      case Some(e) => [e] + LinkFrom(nodes, pairs + {PairOf(e)}, i + 1)
  }

  /** One step of the pass: the node at position i adds its choice, if any, and registers its pair. */
  lemma LinkFromStep(nodes: seq<Node>, pairs: set<Pair>, i: nat)
    requires i < |nodes|
    ensures Choice(nodes, pairs, i).None? ==> LinkFrom(nodes, pairs, i) == LinkFrom(nodes, pairs, i + 1)
    ensures Choice(nodes, pairs, i).Some? ==>
              var e := Choice(nodes, pairs, i).value;
              LinkFrom(nodes, pairs, i) == [e] + LinkFrom(nodes, pairs + {PairOf(e)}, i + 1)
  {
  }

  /** Any scan result meeting the characterisation is the one the reference scan keeps. */
  lemma ScanIsNearestAmong(nodes: seq<Node>, pairs: set<Pair>, a: nat, closest: Option<nat>)
    requires a < |nodes|
    requires closest.None? <==> forall m :: 0 <= m < |nodes| ==> !Eligible(nodes, pairs, a, m)
    requires closest.Some? ==> IsNearest(nodes, pairs, a, |nodes|, closest.value)
    ensures closest == NearestAmong(nodes, pairs, a, |nodes|)
  {
    NearestAmongSpec(nodes, pairs, a, |nodes|);
    if closest.Some? {
      NearestUnique(nodes, pairs, a, |nodes|, closest.value, NearestAmong(nodes, pairs, a, |nodes|).value);
    }
  }

  /** The edges one whole pass adds. */
  function AutoEdges(nodes: seq<Node>, pairs: set<Pair>): (r: seq<Edge>)
    ensures |r| <= |nodes|
  {
    LinkFrom(nodes, pairs, 0)
  }

  /**
   * A path node gets an edge exactly when it has an eligible partner and
   * its nearest (earliest on ties) one lies within the threshold; the edge
   * goes from it to that partner and weighs their distance.
   */
  lemma ChoiceSpec(nodes: seq<Node>, pairs: set<Pair>, a: nat)
    requires a < |nodes|
    ensures Choice(nodes, pairs, a).Some? <==>
              nodes[a].kind.Path? &&
              exists k: nat :: IsNearest(nodes, pairs, a, |nodes|, k) && SqDist(nodes[a], nodes[k]) <= MaxAutoLinkSq
    ensures Choice(nodes, pairs, a).Some? ==>
              exists k: nat :: IsNearest(nodes, pairs, a, |nodes|, k) &&
                Choice(nodes, pairs, a).value == Edge(nodes[a].id, nodes[k].id, SqDist(nodes[a], nodes[k]))
  {
    NearestAmongSpec(nodes, pairs, a, |nodes|);
    var r := NearestAmong(nodes, pairs, a, |nodes|);
    if r.Some? {
      forall k: nat | IsNearest(nodes, pairs, a, |nodes|, k)
        ensures k == r.value
      {
        NearestUnique(nodes, pairs, a, |nodes|, k, r.value);
      }
    }
  }

  /** The edge is between two distinct path nodes, within the threshold, and weighs their distance. */
  ghost predicate LinksPathNodes(nodes: seq<Node>, e: Edge)
  {
    exists p, q ::
      && 0 <= p < |nodes|
      && 0 <= q < |nodes|
      && nodes[p].kind.Path?
      && nodes[q].kind.Path?
      && nodes[p].id != nodes[q].id
      && e == Edge(nodes[p].id, nodes[q].id, SqDist(nodes[p], nodes[q]))
      && e.weight <= MaxAutoLinkSq
  }

  /** Every auto edge links two distinct path nodes within the threshold; room nodes are never touched. */
  lemma {:induction false} LinkFromLinksPathNodes(nodes: seq<Node>, pairs: set<Pair>, i: nat)
    requires i <= |nodes|
    ensures forall e :: e in LinkFrom(nodes, pairs, i) ==> LinksPathNodes(nodes, e)
    decreases |nodes| - i
  {
    if i < |nodes| {
      match Choice(nodes, pairs, i)
      case None =>
        LinkFromLinksPathNodes(nodes, pairs, i + 1);
      case Some(e) =>
        LinkFromLinksPathNodes(nodes, pairs + {PairOf(e)}, i + 1);
        var k := NearestAmong(nodes, pairs, i, |nodes|).value;
        NearestAmongSpec(nodes, pairs, i, |nodes|);
        assert Eligible(nodes, pairs, i, k);
        assert LinksPathNodes(nodes, e) by {
          assert e == Edge(nodes[i].id, nodes[k].id, SqDist(nodes[i], nodes[k]));
        }
    }
  }

  /** The pass adds no pair that was registered before it, and no pair twice. */
  lemma {:induction false} LinkFromFresh(nodes: seq<Node>, pairs: set<Pair>, i: nat)
    requires i <= |nodes|
    ensures forall e :: e in LinkFrom(nodes, pairs, i) ==> PairOf(e) !in pairs
    ensures NoDuplicatePairs(LinkFrom(nodes, pairs, i))
    decreases |nodes| - i
  {
    if i < |nodes| {
      match Choice(nodes, pairs, i)
      case None =>
        LinkFromFresh(nodes, pairs, i + 1);
      case Some(e) =>
        var pairs' := pairs + {PairOf(e)};
        LinkFromFresh(nodes, pairs', i + 1);
        var k := NearestAmong(nodes, pairs, i, |nodes|).value;
        NearestAmongSpec(nodes, pairs, i, |nodes|);
        assert Eligible(nodes, pairs, i, k);
        assert PairOf(e) !in pairs;
        var rest := LinkFrom(nodes, pairs', i + 1);
        var all := [e] + rest;
        assert LinkFrom(nodes, pairs, i) == all;
        forall x, y | 0 <= x < y < |all|
          ensures PairOf(all[x]) != PairOf(all[y])
        {
          if x == 0 {
            assert all[y] in rest;
          } else {
            assert all[x] == rest[x - 1] && all[y] == rest[y - 1];
          }
        }
    }
  }

  /** The number of path nodes in a list. */
  function PathCount(nodes: seq<Node>): nat
  {
    if nodes == [] then 0
    else (if nodes[0].kind.Path? then 1 else 0) + PathCount(nodes[1..])
  }

  /** Each path node adds at most one edge, and other nodes none. */
  lemma {:induction false} LinkFromBound(nodes: seq<Node>, pairs: set<Pair>, i: nat)
    requires i <= |nodes|
    ensures |LinkFrom(nodes, pairs, i)| <= PathCount(nodes[i..])
    decreases |nodes| - i
  {
    if i < |nodes| {
      assert nodes[i..][1..] == nodes[i + 1..];
      match Choice(nodes, pairs, i)
      case None =>
        LinkFromBound(nodes, pairs, i + 1);
      case Some(e) =>
        LinkFromBound(nodes, pairs + {PairOf(e)}, i + 1);
    }
  }

  /**
   * With ids equal to positions, every auto edge joins two existing, distinct
   * path nodes and weighs their distance; so no room node is ever linked and
   * the pass adds at most one edge per path node.
   */
  lemma AutoEdgesSound(nodes: seq<Node>, pairs: set<Pair>)
    requires DenseIds(nodes)
    ensures WeightsAgree(nodes, AutoEdges(nodes, pairs))
    ensures forall e :: e in AutoEdges(nodes, pairs) ==>
              e.source != e.target && nodes[e.source].kind.Path? && nodes[e.target].kind.Path?
    ensures NoDuplicatePairs(AutoEdges(nodes, pairs))
    ensures forall e :: e in AutoEdges(nodes, pairs) ==> PairOf(e) !in pairs
    ensures |AutoEdges(nodes, pairs)| <= PathCount(nodes)
  {
    LinkFromLinksPathNodes(nodes, pairs, 0);
    LinkFromFresh(nodes, pairs, 0);
    LinkFromBound(nodes, pairs, 0);
    assert nodes[0..] == nodes;
    forall e | e in AutoEdges(nodes, pairs)
      ensures 0 <= e.source < |nodes| && 0 <= e.target < |nodes|
      ensures e.weight == SqDist(nodes[e.source], nodes[e.target])
      ensures e.source != e.target && nodes[e.source].kind.Path? && nodes[e.target].kind.Path?
    {
      assert LinksPathNodes(nodes, e);
      var p, q :| 0 <= p < |nodes| && 0 <= q < |nodes| && nodes[p].kind.Path? && nodes[q].kind.Path?
        && nodes[p].id != nodes[q].id && e == Edge(nodes[p].id, nodes[q].id, SqDist(nodes[p], nodes[q]));
      assert nodes[p].id == p && nodes[q].id == q;
    }
  }

  // Concrete runs of the pass.

  /**
   * Two corridor points 10 apart and a room 1 further: the pass links the
   * corridor points with squared weight 100 and leaves the room alone.
   */
  lemma CorridorAndRoomScenario()
    ensures AutoEdges([Node(0, 0, 0, Path), Node(1, 10, 0, Path), Node(2, 11, 0, Room("G01"))], {})
            == [Edge(0, 1, 100)]
  {
    var nodes := [Node(0, 0, 0, Path), Node(1, 10, 0, Path), Node(2, 11, 0, Room("G01"))];
    var p1 := {(0, 1)};
    assert NearestAmong(nodes, {}, 0, 1) == None;
    assert NearestAmong(nodes, {}, 0, 2) == Some(1);
    assert NearestAmong(nodes, {}, 0, 3) == Some(1);
    assert NearestAmong(nodes, p1, 1, 1) == None;
    assert NearestAmong(nodes, p1, 1, 2) == None;
    assert NearestAmong(nodes, p1, 1, 3) == None;
    assert LinkFrom(nodes, p1, 3) == [];
    assert LinkFrom(nodes, p1, 2) == [];
    assert LinkFrom(nodes, p1, 1) == [];
    assert SqDist(nodes[0], nodes[1]) == 100;
    assert Choice(nodes, {}, 0) == Some(Edge(0, 1, 100));
    assert {} + {PairOf(Edge(0, 1, 100))} == p1;
    assert LinkFrom(nodes, {}, 0) == [Edge(0, 1, 100)] + LinkFrom(nodes, p1, 1);
  }

  /** Two path nodes 50 apart are not linked. */
  lemma TooFarScenario()
    ensures AutoEdges([Node(0, 0, 0, Path), Node(1, 50, 0, Path)], {}) == []
  {
    var nodes := [Node(0, 0, 0, Path), Node(1, 50, 0, Path)];
    assert NearestAmong(nodes, {}, 0, 1) == None;
    assert NearestAmong(nodes, {}, 0, 2) == Some(1);
    assert NearestAmong(nodes, {}, 1, 1) == Some(0);
    assert NearestAmong(nodes, {}, 1, 2) == Some(0);
    assert LinkFrom(nodes, {}, 2) == [];
    assert LinkFrom(nodes, {}, 1) == [];
  }

  function Collinear4(): seq<Node>
  {
    [Node(0, 0, 0, Path), Node(1, 10, 0, Path), Node(2, 20, 0, Path), Node(3, 30, 0, Path)]
  }

  /** On four collinear path nodes 10 apart, one pass links 0-1, 1-2, 2-3 and 3-1. */
  lemma Collinear4FirstPass()
    ensures AutoEdges(Collinear4(), {}) == [Edge(0, 1, 100), Edge(1, 2, 100), Edge(2, 3, 100), Edge(3, 1, 400)]
  {
    var nodes := Collinear4();
    var p1 := {(0, 1)};
    var p2 := p1 + {(1, 2)};
    var p3 := p2 + {(2, 3)};
    var p4 := p3 + {(1, 3)};
    assert NearestAmong(nodes, {}, 0, 1) == None;
    assert NearestAmong(nodes, {}, 0, 2) == Some(1);
    assert NearestAmong(nodes, {}, 0, 3) == Some(1);
    assert NearestAmong(nodes, {}, 0, 4) == Some(1);
    assert NearestAmong(nodes, p1, 1, 1) == None;
    assert NearestAmong(nodes, p1, 1, 2) == None;
    assert NearestAmong(nodes, p1, 1, 3) == Some(2);
    assert NearestAmong(nodes, p1, 1, 4) == Some(2);
    assert NearestAmong(nodes, p2, 2, 1) == Some(0);
    assert NearestAmong(nodes, p2, 2, 2) == Some(0);
    assert NearestAmong(nodes, p2, 2, 3) == Some(0);
    assert NearestAmong(nodes, p2, 2, 4) == Some(3);
    assert NearestAmong(nodes, p3, 3, 1) == Some(0);
    assert nodes[3] == Node(3, 30, 0, Path) && nodes[1] == Node(1, 10, 0, Path) && nodes[0] == Node(0, 0, 0, Path);
    assert SqDist(nodes[3], nodes[0]) == 900;
    assert SqDist(nodes[3], nodes[1]) == 400;
    assert Eligible(nodes, p3, 3, 1);
    assert NearestAmong(nodes, p3, 3, 2) == Some(1);
    assert NearestAmong(nodes, p3, 3, 3) == Some(1);
    assert NearestAmong(nodes, p3, 3, 4) == Some(1);
    assert LinkFrom(nodes, p4, 4) == [];
    assert LinkFrom(nodes, p3, 3) == [Edge(3, 1, 400)];
    assert LinkFrom(nodes, p2, 2) == [Edge(2, 3, 100), Edge(3, 1, 400)];
    assert LinkFrom(nodes, p1, 1) == [Edge(1, 2, 100), Edge(2, 3, 100), Edge(3, 1, 400)];
    assert Choice(nodes, {}, 0) == Some(Edge(0, 1, 100));
    assert {} + {PairOf(Edge(0, 1, 100))} == p1;
    assert LinkFrom(nodes, {}, 0) == [Edge(0, 1, 100)] + LinkFrom(nodes, p1, 1);
  }

  /** After 0-2 is added in the second pass, nodes 1 and 2 find no partner and node 3 links to 0. */
  lemma Collinear4SecondPassTail()
    ensures LinkFrom(Collinear4(), {(0, 1), (1, 2), (2, 3), (1, 3), (0, 2)}, 1) == [Edge(3, 0, 900)]
  {
    var nodes := Collinear4();
    var q1 := {(0, 1), (1, 2), (2, 3), (1, 3), (0, 2)};
    var q2 := q1 + {(0, 3)};
    assert nodes[3] == Node(3, 30, 0, Path) && nodes[0] == Node(0, 0, 0, Path);
    assert SqDist(nodes[3], nodes[0]) == 900;
    assert NearestAmong(nodes, q1, 1, 4) == None;
    assert NearestAmong(nodes, q1, 2, 4) == None;
    assert NearestAmong(nodes, q1, 3, 1) == Some(0);
    assert NearestAmong(nodes, q1, 3, 2) == Some(0);
    assert NearestAmong(nodes, q1, 3, 3) == Some(0);
    assert NearestAmong(nodes, q1, 3, 4) == Some(0);
    assert Choice(nodes, q1, 3) == Some(Edge(3, 0, 900));
    assert q1 + {PairOf(Edge(3, 0, 900))} == q2;
    assert LinkFrom(nodes, q2, 4) == [];
    assert LinkFrom(nodes, q1, 3) == [Edge(3, 0, 900)];
    assert LinkFrom(nodes, q1, 2) == [Edge(3, 0, 900)];
  }

  /** The second pass, started from the pairs of the first, adds 0-2 and then 3-0. */
  lemma Collinear4SecondPass()
    ensures LinkFrom(Collinear4(), {(0, 1), (1, 2), (2, 3), (1, 3)}, 0) == [Edge(0, 2, 400), Edge(3, 0, 900)]
  {
    var nodes := Collinear4();
    var p4 := {(0, 1), (1, 2), (2, 3), (1, 3)};
    var q1 := {(0, 1), (1, 2), (2, 3), (1, 3), (0, 2)};
    assert p4 + {PairOf(Edge(0, 2, 400))} == q1;
    assert nodes[2] == Node(2, 20, 0, Path) && nodes[0] == Node(0, 0, 0, Path);
    assert SqDist(nodes[0], nodes[2]) == 400;
    assert NearestAmong(nodes, p4, 0, 3) == Some(2);
    assert NearestAmong(nodes, p4, 0, 4) == Some(2);
    assert Choice(nodes, p4, 0) == Some(Edge(0, 2, 400));
    Collinear4SecondPassTail();
    var tail := LinkFrom(nodes, q1, 1);
    assert LinkFrom(nodes, p4, 0) == [Edge(0, 2, 400)] + tail;
  }

  /**
   * The pass is not idempotent: after the first pass over four collinear
   * path nodes, a second pass over the same nodes still adds 0-2 and 3-0.
   */
  lemma SecondPassCanAddEdges()
    ensures AutoEdges(Collinear4(), PairSet(AutoEdges(Collinear4(), {}))) == [Edge(0, 2, 400), Edge(3, 0, 900)]
  {
    Collinear4FirstPass();
    Collinear4FirstPairs();
    Collinear4SecondPass();
  }

  lemma Collinear4FirstPairs()
    ensures PairSet([Edge(0, 1, 100), Edge(1, 2, 100), Edge(2, 3, 100), Edge(3, 1, 400)]) == {(0, 1), (1, 2), (2, 3), (1, 3)}
  {
    var first := [Edge(0, 1, 100), Edge(1, 2, 100), Edge(2, 3, 100), Edge(3, 1, 400)];
    assert PairOf(first[0]) == (0, 1) && PairOf(first[1]) == (1, 2);
    assert PairOf(first[2]) == (2, 3) && PairOf(first[3]) == (1, 3);
  }
}
