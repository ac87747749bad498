/**
 * The annotator session of map_annotator.py: the node list grown by clicks,
 * the edge list, and the index of canonical pairs that keeps the edge list
 * free of duplicate connections while the auto-link pass and the manual
 * edge entries append to it.
 */
module Annotator {
  import opened FloorGraph
  import opened AutoLink

  /** Result of one manual edge entry. */
  datatype AddOutcome = InvalidId | AlreadyExists | Added(edge: Edge)

  /**
   * The graph after reading the saved file at start-up: each key that is
   * present replaces its list, and a file that cannot be parsed resets both.
   */
  function Reload(file: SavedFile, current: Graph): (r: Graph)
    ensures file.NoFile? ==> r == current
    ensures file.Document? && file.nodes.Some? && file.edges.Some? ==> Saved(r) == file
  {
    match file
    case NoFile => current
    case Unparsable => Graph([], [])
    case Document(ns, es) =>
      Graph(if ns.Some? then ns.value else current.nodes, if es.Some? then es.value else current.edges)
  }

  /** Reading back a saved graph gives that graph, whatever was there before. */
  lemma SaveThenReload(g: Graph, current: Graph)
    ensures Reload(Saved(g), current) == g
  {
  }

  /**
   * The edges a run of manual entries appends: an entry is skipped when an
   * id is out of range or its pair is already registered; otherwise its edge
   * is appended and its pair registered.
   */
  function ManualEdges(nodes: seq<Node>, pairs: set<Pair>, entries: seq<(int, int)>): (r: seq<Edge>)
    ensures |r| <= |entries|
    decreases |entries|
  {
    if entries == [] then []
    else
      var a := entries[0].0;
      var b := entries[0].1;
      if !(0 <= a < |nodes| && 0 <= b < |nodes|) || Canon(a, b) in pairs then
        ManualEdges(nodes, pairs, entries[1..])
      else
        [Edge(a, b, SqDist(nodes[a], nodes[b]))] + ManualEdges(nodes, pairs + {Canon(a, b)}, entries[1..])
  }

  /**
   * An in-range entry whose pair is neither registered nor named by an
   * earlier in-range entry is accepted: its edge is among the manual edges.
   */
  lemma {:induction false} ManualEdgesComplete(nodes: seq<Node>, pairs: set<Pair>, entries: seq<(int, int)>, i: nat)
    requires i < |entries| && 0 <= entries[i].0 < |nodes| && 0 <= entries[i].1 < |nodes|
    requires Canon(entries[i].0, entries[i].1) !in pairs
    requires forall j :: 0 <= j < i && 0 <= entries[j].0 < |nodes| && 0 <= entries[j].1 < |nodes| ==>
               Canon(entries[j].0, entries[j].1) != Canon(entries[i].0, entries[i].1)
    ensures Edge(entries[i].0, entries[i].1, SqDist(nodes[entries[i].0], nodes[entries[i].1]))
              in ManualEdges(nodes, pairs, entries)
    decreases i
  {
    if i > 0 {
      var a := entries[0].0;
      var b := entries[0].1;
      var rest := entries[1..];
      var accepted := 0 <= a < |nodes| && 0 <= b < |nodes| && Canon(a, b) !in pairs;
      var pairs' := if accepted then pairs + {Canon(a, b)} else pairs;
      assert rest[i - 1] == entries[i];
      forall j | 0 <= j < i - 1 && 0 <= rest[j].0 < |nodes| && 0 <= rest[j].1 < |nodes|
        ensures Canon(rest[j].0, rest[j].1) != Canon(rest[i - 1].0, rest[i - 1].1)
      {
        assert rest[j] == entries[j + 1];
      }
      ManualEdgesComplete(nodes, pairs', rest, i - 1);
    }
  }

  /** Every manual edge is the edge of some in-range entry. */
  lemma {:induction false} ManualEdgesFromEntries(nodes: seq<Node>, pairs: set<Pair>, entries: seq<(int, int)>)
    ensures forall e :: e in ManualEdges(nodes, pairs, entries) ==> FromEntry(nodes, entries, e)
    decreases |entries|
  {
    if entries != [] {
      var a := entries[0].0;
      var b := entries[0].1;
      var rest := entries[1..];
      var pairs' := if 0 <= a < |nodes| && 0 <= b < |nodes| && Canon(a, b) !in pairs then pairs + {Canon(a, b)} else pairs;
      ManualEdgesFromEntries(nodes, pairs', rest);
      forall e | e in ManualEdges(nodes, pairs', rest)
        ensures FromEntry(nodes, entries, e)
      {
        var j :| 0 <= j < |rest| && 0 <= rest[j].0 < |nodes| && 0 <= rest[j].1 < |nodes| &&
          e == Edge(rest[j].0, rest[j].1, SqDist(nodes[rest[j].0], nodes[rest[j].1]));
        assert entries[j + 1] == rest[j];
      }
    }
  }

  /** One manual entry, then the rest under the pairs registered so far. */
  lemma ManualEdgesStep(nodes: seq<Node>, pairs: set<Pair>, entries: seq<(int, int)>)
    requires entries != []
    ensures var a := entries[0].0;
            var b := entries[0].1;
            var added := 0 <= a < |nodes| && 0 <= b < |nodes| && Canon(a, b) !in pairs;
            ManualEdges(nodes, pairs, entries)
              == ManualEdges(nodes, pairs, [(a, b)])
               + ManualEdges(nodes, if added then pairs + {Canon(a, b)} else pairs, entries[1..])
  {
    assert [entries[0]][1..] == [];
  }

  /**
   * Manual edges join existing nodes, weigh their distance, repeat no
   * registered pair and no pair among themselves.
   */
  lemma {:induction false} ManualEdgesSound(nodes: seq<Node>, pairs: set<Pair>, entries: seq<(int, int)>)
    ensures WeightsAgree(nodes, ManualEdges(nodes, pairs, entries))
    ensures forall e :: e in ManualEdges(nodes, pairs, entries) ==> PairOf(e) !in pairs
    ensures NoDuplicatePairs(ManualEdges(nodes, pairs, entries))
    decreases |entries|
  {
    if entries != [] {
      var a := entries[0].0;
      var b := entries[0].1;
      if !(0 <= a < |nodes| && 0 <= b < |nodes|) || Canon(a, b) in pairs {
        ManualEdgesSound(nodes, pairs, entries[1..]);
      } else {
        var e := Edge(a, b, SqDist(nodes[a], nodes[b]));
        var rest := ManualEdges(nodes, pairs + {Canon(a, b)}, entries[1..]);
        ManualEdgesSound(nodes, pairs + {Canon(a, b)}, entries[1..]);
        var all := [e] + rest;
        assert ManualEdges(nodes, pairs, entries) == all;
        forall x, y | 0 <= x < y < |all|
          ensures PairOf(all[x]) != PairOf(all[y])
        {
          if x == 0 {
            assert all[y] in rest;
          } else {
            assert all[x] == rest[x - 1] && all[y] == rest[y - 1];
          }
        }
      }
    }
  }

  /** The final graph of one session with ids matching positions has every graph invariant. */
  lemma SessionEdgesWellFormed(edges: seq<Edge>, nodes: seq<Node>, entries: seq<(int, int)>)
    requires WellFormed(Graph(nodes, edges))
    ensures var auto := AutoEdges(nodes, PairSet(edges));
            WellFormed(Graph(nodes, edges + auto + ManualEdges(nodes, PairSet(edges + auto), entries)))
  {
    var auto := AutoEdges(nodes, PairSet(edges));
    var manual := ManualEdges(nodes, PairSet(edges + auto), entries);
    AutoEdgesSound(nodes, PairSet(edges));
    AppendFreshKeepsNoDuplicates(edges, auto);
    ManualEdgesSound(nodes, PairSet(edges + auto), entries);
    AppendFreshKeepsNoDuplicates(edges + auto, manual);
  }

  /**
   * Appending one pass's auto edges keeps the edge list free of duplicate
   * pairs and, with ids equal to positions, well-formed; the pass adds at
   * most one edge per path node.
   */
  lemma AutoEdgesAppended(nodes: seq<Node>, edges: seq<Edge>, pairs: set<Pair>)
    requires pairs == PairSet(edges)
    ensures |AutoEdges(nodes, pairs)| <= PathCount(nodes)
    ensures NoDuplicatePairs(edges) ==> NoDuplicatePairs(edges + AutoEdges(nodes, pairs))
    ensures WellFormed(Graph(nodes, edges)) ==> WellFormed(Graph(nodes, edges + AutoEdges(nodes, pairs)))
  {
    LinkFromFresh(nodes, pairs, 0);
    LinkFromBound(nodes, pairs, 0);
    assert nodes[0..] == nodes;
    if NoDuplicatePairs(edges) {
      AppendFreshKeepsNoDuplicates(edges, AutoEdges(nodes, pairs));
    }
    if WellFormed(Graph(nodes, edges)) {
      AutoEdgesSound(nodes, pairs);
    }
  }

  class Session {
    /** `nodes_data["nodes"]` */
    var nodes: seq<Node>
    /** `edges_data["edges"]` */
    var edges: seq<Edge>
    /** `added_edges`: canonical pairs of the edges, seeded before linking */
    var addedEdges: set<Pair>

    constructor ()
      ensures nodes == [] && edges == [] && addedEdges == {}
    {
      nodes := [];
      edges := [];
      addedEdges := {};
    }

    /** The pair index agrees with the edge list. */
    ghost predicate Indexed()
      reads this
    {
      addedEdges == PairSet(edges)
    }

    /** `final_graph`: the current node list and edge list. */
    function Current(): Graph
      reads this
    {
      Graph(nodes, edges)
    }

    /** Start-up: read the saved graph file, taking its data as it is. */
    method Load(file: SavedFile)
      modifies this`nodes, this`edges
      ensures Current() == Reload(file, old(Current()))
    {
      match file {
        case NoFile =>
        case Unparsable =>
          nodes := [];
          edges := [];
        case Document(ns, es) =>
          if ns.Some? {
            nodes := ns.value;
          }
          if es.Some? {
            edges := es.value;
          }
      }
    }

    /** A click appends a node whose id is the number of nodes before it. */
    method Click(x: int, y: int, kind: Kind) returns (id: nat)
      modifies this`nodes
      ensures id == |old(nodes)|
      ensures nodes == old(nodes) + [Node(id, x, y, kind)]
      ensures WellFormed(old(Current())) ==> WellFormed(Current())
    {
      id := |nodes|;
      if WellFormed(Current()) {
        AppendNodeKeepsWellFormed(Current(), Node(id, x, y, kind));
      }
      nodes := nodes + [Node(id, x, y, kind)];
    }

    /** Registers the canonical pair of every edge present before linking starts. */
    method SeedIndex()
      modifies this`addedEdges
      ensures Indexed()
    {
      addedEdges := {};
      var k := 0;
      while k < |edges|
        invariant k <= |edges|
        invariant addedEdges == PairSet(edges[..k])
      {
        PairSetAppend(edges[..k], [edges[k]]);
        assert edges[..k + 1] == edges[..k] + [edges[k]];
        addedEdges := addedEdges + {PairOf(edges[k])};
        k := k + 1;
      }
      assert edges[..|edges|] == edges;
    }

    /**
     * The inner scan of the auto-link pass for the node at position a: the
     * nearest other path node whose pair with it is not registered, the
     * earliest one on ties, with its squared distance.
     */
    method ClosestUnpairedPath(a: nat) returns (closest: Option<nat>, minDist: nat)
      requires a < |nodes|
      ensures closest.None? <==> forall m :: 0 <= m < |nodes| ==> !Eligible(nodes, addedEdges, a, m)
      ensures closest.Some? ==> IsNearest(nodes, addedEdges, a, |nodes|, closest.value)
      ensures closest.Some? ==> minDist == SqDist(nodes[a], nodes[closest.value])
    {
      closest := None;
      minDist := 0;
      var j := 0;
      while j < |nodes|
        invariant j <= |nodes|
        invariant closest == NearestAmong(nodes, addedEdges, a, j)
        invariant closest.Some? ==> minDist == SqDist(nodes[a], nodes[closest.value])
      {
        if nodes[a].id != nodes[j].id && nodes[j].kind.Path? && Canon(nodes[a].id, nodes[j].id) !in addedEdges {
          var dist := SqDist(nodes[a], nodes[j]);
          if closest.None? || dist < minDist {
            minDist := dist;
            closest := Some(j);
          }
        }
        j := j + 1;
      }
      NearestAmongSpec(nodes, addedEdges, a, |nodes|);
    }

    /**
     * The auto-link step for the node at position i: a path node whose
     * nearest unregistered path partner lies within the threshold gets an
     * edge to it, and the pair is registered at once.
     */
    method LinkNode(i: nat) returns (added: bool)
      requires i < |nodes| && Indexed()
      modifies this`edges, this`addedEdges
      ensures Indexed()
      ensures added <==> Choice(nodes, old(addedEdges), i).Some?
      ensures added ==> edges == old(edges) + [Choice(nodes, old(addedEdges), i).value]
      ensures !added ==> edges == old(edges)
      ensures edges + LinkFrom(nodes, addedEdges, i + 1) == old(edges) + LinkFrom(nodes, old(addedEdges), i)
    {
      added := false;
      LinkFromStep(nodes, addedEdges, i);
      if nodes[i].kind.Path? {
        var closest, minDist := ClosestUnpairedPath(i);
        ScanIsNearestAmong(nodes, addedEdges, i, closest);
        if closest.Some? && minDist <= MaxAutoLinkSq {
          var e := Edge(nodes[i].id, nodes[closest.value].id, minDist);
          PairSetAppend(edges, [e]);
          PairSetOne(e);
          edges := edges + [e];
          addedEdges := addedEdges + {Canon(nodes[i].id, nodes[closest.value].id)};
          added := true;
        }
      }
    }

    /**
     * The auto-link pass: appends exactly the edges of the reference pass,
     * registering each pair as it goes, and returns how many it added.
     */
    method AutoLink() returns (newAutoEdges: nat)
      requires Indexed()
      modifies this`edges, this`addedEdges
      ensures Indexed()
      ensures edges == old(edges) + AutoEdges(nodes, old(addedEdges))
      ensures newAutoEdges == |edges| - |old(edges)|
      ensures newAutoEdges <= PathCount(nodes)
      ensures NoDuplicatePairs(old(edges)) ==> NoDuplicatePairs(edges)
      ensures WellFormed(old(Current())) ==> WellFormed(Current())
    {
      ghost var edges0 := edges;
      ghost var pairs0 := addedEdges;
      newAutoEdges := 0;
      var i := 0;
      while i < |nodes|
        invariant i <= |nodes|
        invariant Indexed()
        invariant |edges| == |edges0| + newAutoEdges
        invariant edges + LinkFrom(nodes, addedEdges, i) == edges0 + LinkFrom(nodes, pairs0, 0)
      {
        var added := LinkNode(i);
        if added {
          newAutoEdges := newAutoEdges + 1;
        }
        i := i + 1;
      }
      AutoEdgesAppended(nodes, edges0, pairs0);
    }

    /**
     * One manual edge entry: rejected when an id is out of range or the pair
     * already exists (nothing changes); otherwise the edge, weighted by the
     * distance between the stored coordinates, is appended and its pair
     * registered.  An entry with both ids equal is accepted.
     */
    method AddEdge(a: int, b: int) returns (r: AddOutcome)
      requires Indexed()
      modifies this`edges, this`addedEdges
      ensures Indexed()
      ensures r == InvalidId <==> !(0 <= a < |nodes| && 0 <= b < |nodes|)
      ensures r == AlreadyExists <==> 0 <= a < |nodes| && 0 <= b < |nodes| && Canon(a, b) in old(addedEdges)
      ensures r.Added? ==> 0 <= a < |nodes| && 0 <= b < |nodes| && r.edge == Edge(a, b, SqDist(nodes[a], nodes[b]))
      ensures r.Added? ==> edges == old(edges) + [r.edge] && addedEdges == old(addedEdges) + {Canon(a, b)}
      ensures !r.Added? ==> edges == old(edges) && addedEdges == old(addedEdges)
      ensures edges == old(edges) + ManualEdges(nodes, old(addedEdges), [(a, b)])
      ensures NoDuplicatePairs(old(edges)) ==> NoDuplicatePairs(edges)
      ensures WellFormed(old(Current())) ==> WellFormed(Current())
    {
      assert [(a, b)][1..] == [];
      if a >= |nodes| || b >= |nodes| || a < 0 || b < 0 {
        return InvalidId;
      }
      if Canon(a, b) in addedEdges {
        return AlreadyExists;
      }
      var e := Edge(a, b, SqDist(nodes[a], nodes[b]));
      if NoDuplicatePairs(edges) {
        AppendFreshKeepsNoDuplicates(edges, [e]);
      }
      PairSetAppend(edges, [e]);
      PairSetOne(e);
      edges := edges + [e];
      addedEdges := addedEdges + {Canon(a, b)};
      r := Added(e);
    }

    /** The manual entry loop: each entry in turn goes through AddEdge. */
    method ManualLinking(entries: seq<(int, int)>)
      requires Indexed()
      modifies this`edges, this`addedEdges
      ensures Indexed()
      ensures edges == old(edges) + ManualEdges(nodes, old(addedEdges), entries)
    {
      ghost var edges0 := edges;
      ghost var pairs0 := addedEdges;
      var n := 0;
      while n < |entries|
        invariant n <= |entries|
        invariant Indexed()
        invariant edges + ManualEdges(nodes, addedEdges, entries[n..]) == edges0 + ManualEdges(nodes, pairs0, entries)
      {
        assert entries[n..][1..] == entries[n + 1..];
        ManualEdgesStep(nodes, addedEdges, entries[n..]);
        var _ := AddEdge(entries[n].0, entries[n].1);
        n := n + 1;
      }
    }
  }

  /** Start-up and node marking: load the saved file, then take the clicks in order. */
  method Start(file: SavedFile, clicks: seq<Click>) returns (s: Session)
    ensures fresh(s)
    ensures var loaded := Reload(file, Graph([], []));
            s.Current() == Graph(loaded.nodes + ClickedNodes(|loaded.nodes|, clicks), loaded.edges)
    ensures WellFormed(Reload(file, Graph([], []))) ==> WellFormed(s.Current())
  {
    s := new Session();
    s.Load(file);
    ghost var loaded := s.Current();
    var k := 0;
    while k < |clicks|
      invariant k <= |clicks|
      invariant s.nodes == loaded.nodes + ClickedNodes(|loaded.nodes|, clicks[..k])
      invariant s.edges == loaded.edges
      invariant WellFormed(loaded) ==> WellFormed(s.Current())
    {
      var id := s.Click(clicks[k].x, clicks[k].y, clicks[k].kind);
      assert ClickedNodes(|loaded.nodes|, clicks[..k + 1])
          == ClickedNodes(|loaded.nodes|, clicks[..k]) + [Node(id, clicks[k].x, clicks[k].y, clicks[k].kind)];
      k := k + 1;
    }
    assert clicks[..|clicks|] == clicks;
  }

  /**
   * One whole run of the annotator: load the saved file, take the clicks,
   * stop when there are no nodes, otherwise seed the pair index, run the
   * auto-link pass, take the manual entries, and return `final_graph`.
   */
  method Annotate(file: SavedFile, clicks: seq<Click>, entries: seq<(int, int)>) returns (g: Option<Graph>)
    ensures var loaded := Reload(file, Graph([], []));
            g.None? <==> |loaded.nodes| + |clicks| == 0
    ensures var loaded := Reload(file, Graph([], []));
            g.Some? ==> g.value.nodes == loaded.nodes + ClickedNodes(|loaded.nodes|, clicks)
    ensures var loaded := Reload(file, Graph([], []));
            g.Some? ==>
              var auto := AutoEdges(g.value.nodes, PairSet(loaded.edges));
              g.value.edges == loaded.edges + auto + ManualEdges(g.value.nodes, PairSet(loaded.edges + auto), entries)
    ensures g.Some? && NoDuplicatePairs(Reload(file, Graph([], [])).edges) ==> NoDuplicatePairs(g.value.edges)
    ensures g.Some? && WellFormed(Reload(file, Graph([], []))) ==> WellFormed(g.value)
  {
    var s := Start(file, clicks);
    ghost var clicked := s.Current();
    if s.nodes == [] {
      return None;
    }
    s.SeedIndex();
    var _ := s.AutoLink();
    ghost var linked := s.edges;
    ghost var pairs1 := s.addedEdges;
    s.ManualLinking(entries);
    g := Some(s.Current());
    if WellFormed(clicked) {
      SessionEdgesWellFormed(clicked.edges, s.nodes, entries);
    }
    if NoDuplicatePairs(clicked.edges) {
      LinkFromFresh(s.nodes, PairSet(clicked.edges), 0);
      AppendFreshKeepsNoDuplicates(clicked.edges, AutoEdges(s.nodes, PairSet(clicked.edges)));
      ManualEdgesSound(s.nodes, PairSet(linked), entries);
      AppendFreshKeepsNoDuplicates(linked, ManualEdges(s.nodes, PairSet(linked), entries));
    }
  }
}
