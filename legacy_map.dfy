/**
 * The older annotator, assets/maps/map.py: the same node append and the same
 * range-checked manual edge entry, but no pair index, so repeated or
 * reversed entries are appended again, no auto-link pass, and on resume only
 * the node list is restored.
 */
module LegacyMap {
  import opened FloorGraph

  /**
   * The node list after resuming: the saved file is read only when earlier
   * annotations were found; its `nodes` key, when present, replaces the
   * list, and a file that cannot be parsed resets it.
   */
  function Resumed(annotationsFound: bool, file: SavedFile, current: seq<Node>): (r: seq<Node>)
    ensures !annotationsFound ==> r == current
    ensures r == current || r == [] || (file.Document? && file.nodes.Some? && r == file.nodes.value)
  {
    if !annotationsFound then current
    else match file
      case NoFile => current
      case Unparsable => []
      case Document(ns, _) => if ns.Some? then ns.value else current
  }

  /** The saved edge list is never read back: resuming a saved graph restores its nodes only. */
  lemma ResumeRestoresNodesOnly(g: Graph, current: seq<Node>)
    ensures Resumed(true, Saved(g), current) == g.nodes
    ensures Resumed(false, Saved(g), current) == current
  {
  }

  predicate InRange(n: nat, entry: (int, int))
  {
    0 <= entry.0 < n && 0 <= entry.1 < n
  }

  /** The edges a run of manual entries appends: one per entry whose ids are in range. */
  function LegacyEdges(nodes: seq<Node>, entries: seq<(int, int)>): (r: seq<Edge>)
    ensures |r| <= |entries|
    decreases |entries|
  {
    if entries == [] then []
    else if !InRange(|nodes|, entries[0]) then LegacyEdges(nodes, entries[1..])
    else
      var a := entries[0].0;
      var b := entries[0].1;
      [Edge(a, b, SqDist(nodes[a], nodes[b]))] + LegacyEdges(nodes, entries[1..])
  }

  /** How many entries have both ids in range. */
  function InRangeCount(n: nat, entries: seq<(int, int)>): nat
    decreases |entries|
  {
    if entries == [] then 0
    else (if InRange(n, entries[0]) then 1 else 0) + InRangeCount(n, entries[1..])
  }

  /**
   * One edge per in-range entry, joining existing nodes and weighing their
   * distance; an edge is present exactly when some in-range entry names it,
   * and nothing is deduplicated.
   */
  lemma {:induction false} LegacyEdgesSound(nodes: seq<Node>, entries: seq<(int, int)>)
    ensures |LegacyEdges(nodes, entries)| == InRangeCount(|nodes|, entries)
    ensures WeightsAgree(nodes, LegacyEdges(nodes, entries))
    ensures forall e :: e in LegacyEdges(nodes, entries) <==> FromEntry(nodes, entries, e)
    decreases |entries|
  {
    if entries != [] {
      var rest := entries[1..];
      LegacyEdgesSound(nodes, rest);
      forall e
        ensures e in LegacyEdges(nodes, entries) <==> FromEntry(nodes, entries, e)
      {
        if e in LegacyEdges(nodes, rest) {
          var j :| 0 <= j < |rest| && 0 <= rest[j].0 < |nodes| && 0 <= rest[j].1 < |nodes| &&
            e == Edge(rest[j].0, rest[j].1, SqDist(nodes[rest[j].0], nodes[rest[j].1]));
          assert entries[j + 1] == rest[j];
        }
        if FromEntry(nodes, entries, e) {
          var i :| 0 <= i < |entries| && 0 <= entries[i].0 < |nodes| && 0 <= entries[i].1 < |nodes| &&
            e == Edge(entries[i].0, entries[i].1, SqDist(nodes[entries[i].0], nodes[entries[i].1]));
          if i > 0 {
            assert rest[i - 1] == entries[i];
            assert FromEntry(nodes, rest, e);
          }
        }
      }
    }
  }

  /** Entering a pair and then its reverse yields two edges over the same pair. */
  lemma LegacyKeepsRepeats(nodes: seq<Node>, a: int, b: int)
    requires 0 <= a < |nodes| && 0 <= b < |nodes|
    ensures |LegacyEdges(nodes, [(a, b), (b, a)])| == 2
    ensures !NoDuplicatePairs(LegacyEdges(nodes, [(a, b), (b, a)]))
  {
    var es := LegacyEdges(nodes, [(a, b), (b, a)]);
    assert [(a, b), (b, a)][1..] == [(b, a)];
    assert [(b, a)][1..] == [];
    assert LegacyEdges(nodes, [(b, a)]) == [Edge(b, a, SqDist(nodes[b], nodes[a]))];
    assert es == [Edge(a, b, SqDist(nodes[a], nodes[b])), Edge(b, a, SqDist(nodes[b], nodes[a]))];
    assert PairOf(es[0]) == PairOf(es[1]);
  }

  class Session {
    /** `nodes_data["nodes"]` */
    var nodes: seq<Node>
    /** `edges_data["edges"]` */
    var edges: seq<Edge>

    constructor ()
      ensures nodes == [] && edges == []
    {
      nodes := [];
      edges := [];
    }

    /** `final_graph`: the current node list and edge list. */
    function Current(): Graph
      reads this
    {
      Graph(nodes, edges)
    }

    /** Start-up: restore the node list from the saved file; the edge list stays as it is. */
    method Resume(annotationsFound: bool, file: SavedFile)
      modifies this`nodes
      ensures nodes == Resumed(annotationsFound, file, old(nodes))
    {
      if annotationsFound {
        match file {
          case NoFile =>
          case Unparsable =>
            nodes := [];
          case Document(ns, _) =>
            if ns.Some? {
              nodes := ns.value;
            }
        }
      }
    }

    /** A click appends a node at the clicked point whose id is the number of nodes before it. */
    method Click(x: int, y: int, kind: Kind) returns (id: nat)
      modifies this`nodes
      ensures id == |old(nodes)|
      ensures nodes == old(nodes) + [Node(id, x, y, kind)]
      ensures DenseIds(old(nodes)) ==> DenseIds(nodes)
      ensures WeightsAgree(old(nodes), edges) ==> WeightsAgree(nodes, edges)
    {
      id := |nodes|;
      var ns := nodes + [Node(id, x, y, kind)];
      forall e | e in edges && 0 <= e.source < |nodes| && 0 <= e.target < |nodes|
        ensures ns[e.source] == nodes[e.source] && ns[e.target] == nodes[e.target]
      {
      }
      nodes := ns;
    }

    /**
     * One manual edge entry: rejected, with nothing changed, when an id is
     * out of range; otherwise the edge, weighted by the distance between the
     * stored coordinates, is appended whether or not the pair (or its
     * reverse) is already present, and also when both ids are equal.
     */
    method AddEdge(a: int, b: int) returns (accepted: bool)
      modifies this`edges
      ensures accepted <==> 0 <= a < |nodes| && 0 <= b < |nodes|
      ensures accepted ==> edges == old(edges) + [Edge(a, b, SqDist(nodes[a], nodes[b]))]
      ensures !accepted ==> edges == old(edges)
      ensures edges == old(edges) + LegacyEdges(nodes, [(a, b)])
    {
      assert [(a, b)][1..] == [];
      if a >= |nodes| || b >= |nodes| || a < 0 || b < 0 {
        return false;
      }
      edges := edges + [Edge(a, b, SqDist(nodes[a], nodes[b]))];
      accepted := true;
    }

    /** The manual entry loop: each entry in turn goes through AddEdge. */
    method ManualLinking(entries: seq<(int, int)>)
      modifies this`edges
      ensures edges == old(edges) + LegacyEdges(nodes, entries)
    {
      ghost var edges0 := edges;
      var n := 0;
      while n < |entries|
        invariant n <= |entries|
        invariant edges + LegacyEdges(nodes, entries[n..]) == edges0 + LegacyEdges(nodes, entries)
      {
        assert entries[n..][1..] == entries[n + 1..];
        assert LegacyEdges(nodes, entries[n..]) == LegacyEdges(nodes, [entries[n]]) + LegacyEdges(nodes, entries[n + 1..]) by {
          assert [entries[n]][1..] == [];
        }
        var _ := AddEdge(entries[n].0, entries[n].1);
        n := n + 1;
      }
    }
  }

  /**
   * One whole run of the older annotator: resume the node list, take the
   * clicks, stop when there are no nodes, otherwise take the manual entries
   * and return `final_graph`.  The edge list starts empty, so the result
   * holds one edge per in-range entry.
   */
  method Annotate(annotationsFound: bool, file: SavedFile, clicks: seq<Click>, entries: seq<(int, int)>)
    returns (g: Option<Graph>)
    ensures var resumed := Resumed(annotationsFound, file, []);
            g.None? <==> |resumed| + |clicks| == 0
    ensures var resumed := Resumed(annotationsFound, file, []);
            g.Some? ==> g.value.nodes == resumed + ClickedNodes(|resumed|, clicks)
    ensures g.Some? ==> g.value.edges == LegacyEdges(g.value.nodes, entries)
    ensures g.Some? ==> |g.value.edges| == InRangeCount(|g.value.nodes|, entries)
    ensures g.Some? && DenseIds(Resumed(annotationsFound, file, [])) ==>
              DenseIds(g.value.nodes) && WeightsAgree(g.value.nodes, g.value.edges)
  {
    var s := new Session();
    s.Resume(annotationsFound, file);
    ghost var resumed := s.nodes;
    var k := 0;
    while k < |clicks|
      invariant k <= |clicks|
      invariant s.nodes == resumed + ClickedNodes(|resumed|, clicks[..k])
      invariant s.edges == []
      invariant DenseIds(resumed) ==> DenseIds(s.nodes)
    {
      var id := s.Click(clicks[k].x, clicks[k].y, clicks[k].kind);
      assert ClickedNodes(|resumed|, clicks[..k + 1])
          == ClickedNodes(|resumed|, clicks[..k]) + [Node(id, clicks[k].x, clicks[k].y, clicks[k].kind)];
      k := k + 1;
    }
    assert clicks[..|clicks|] == clicks;
    if s.nodes == [] {
      return None;
    }
    s.ManualLinking(entries);
    LegacyEdgesSound(s.nodes, entries);
    g := Some(s.Current());
  }
}
