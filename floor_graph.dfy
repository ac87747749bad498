/**
 * The values the floor-plan annotator works on: annotated nodes, weighted
 * undirected edges, the canonical id pairs used to detect duplicate edges,
 * the graph invariants, and the saved document.
 *
 * Coordinates are integers in the original (unscaled) image.  The annotator
 * stores `math.dist` as an edge weight; its square root is strictly
 * monotone, so this model stores the SQUARED Euclidean distance instead and
 * every comparison against a distance becomes a comparison of squares.
 */
module FloorGraph {

  datatype Option<T> = None | Some(value: T)

  /** A room carries the name typed at the prompt (possibly empty); a path node carries none. */
  datatype Kind = Room(name: string) | Path

  datatype Node = Node(id: int, x: int, y: int, kind: Kind)

  /** `weight` is the square of the Euclidean distance between the endpoints. */
  datatype Edge = Edge(source: int, target: int, weight: nat)

  /** The `{"nodes": ..., "edges": ...}` document. */
  datatype Graph = Graph(nodes: seq<Node>, edges: seq<Edge>)

  /** What reading the saved graph file yields. */
  datatype SavedFile =
    | NoFile
    | Unparsable
    | Document(nodes: Option<seq<Node>>, edges: Option<seq<Edge>>)

  type Pair = (int, int)

  /** One click on the map, in image coordinates, with the type (and room name) entered for it. */
  datatype Click = Click(x: int, y: int, kind: Kind)

  /** Auto-link threshold, in pixels. */
  const MaxAutoLinkDistance: nat := 40

  /** The threshold compared against squared distances. */
  const MaxAutoLinkSq: nat := MaxAutoLinkDistance * MaxAutoLinkDistance

  /** Squared Euclidean distance between the stored coordinates of two nodes. */
  function SqDist(p: Node, q: Node): (d: nat)
    ensures d == 0 <==> p.x == q.x && p.y == q.y
  {
    var dx := p.x - q.x;
    var dy := p.y - q.y;
    assert dx * dx >= 0 && dy * dy >= 0;
    assert dx != 0 ==> dx * dx > 0;
    assert dy != 0 ==> dy * dy > 0;
    dx * dx + dy * dy
  }

  lemma SqDistSymmetric(p: Node, q: Node)
    ensures SqDist(p, q) == SqDist(q, p)
  {
    assert (p.x - q.x) * (p.x - q.x) == (q.x - p.x) * (q.x - p.x);
    assert (p.y - q.y) * (p.y - q.y) == (q.y - p.y) * (q.y - p.y);
  }

  /** `tuple(sorted((a, b)))`: the unordered pair {a, b} as (min, max). */
  function Canon(a: int, b: int): (p: Pair)
    ensures p.0 <= p.1
    ensures (p.0 == a && p.1 == b) || (p.0 == b && p.1 == a)
  {
    if a <= b then (a, b) else (b, a)
  }

  /** Two id pairs have the same canonical pair exactly when they name the same two ids. */
  lemma CanonSameIff(a: int, b: int, c: int, d: int)
    ensures Canon(a, b) == Canon(c, d) <==> (a == c && b == d) || (a == d && b == c)
  {
  }

  function PairOf(e: Edge): Pair
  {
    Canon(e.source, e.target)
  }

  /** The canonical pairs of a list of edges. */
  function PairSet(edges: seq<Edge>): (s: set<Pair>)
    ensures forall e :: e in edges ==> PairOf(e) in s
    ensures forall p :: p in s ==> exists e :: e in edges && PairOf(e) == p
  {
    set e | e in edges :: PairOf(e)
  }

  lemma PairSetAppend(edges: seq<Edge>, more: seq<Edge>)
    ensures PairSet(edges + more) == PairSet(edges) + PairSet(more)
  {
    assert forall e :: e in edges + more <==> e in edges || e in more;
  }

  lemma PairSetOne(e: Edge)
    ensures PairSet([e]) == {PairOf(e)}
  {
    assert forall x :: x in [e] <==> x == e;
  }

  /** No two edges connect the same unordered pair of ids. */
  ghost predicate NoDuplicatePairs(edges: seq<Edge>)
  {
    forall i, j :: 0 <= i < j < |edges| ==> PairOf(edges[i]) != PairOf(edges[j])
  }

  /** Appending one edge keeps the list free of duplicate pairs exactly when its pair is new. */
  lemma NoDuplicatesSnoc(init: seq<Edge>, last: Edge)
    ensures NoDuplicatePairs(init + [last]) <==> NoDuplicatePairs(init) && PairOf(last) !in PairSet(init)
  {
    var edges := init + [last];
    if NoDuplicatePairs(edges) {
      forall i, j | 0 <= i < j < |init|
        ensures PairOf(init[i]) != PairOf(init[j])
      {
        assert init[i] == edges[i] && init[j] == edges[j];
      }
      forall e | e in init
        ensures PairOf(e) != PairOf(last)
      {
        var i :| 0 <= i < |init| && init[i] == e;
        assert edges[i] == e && edges[|init|] == last;
      }
    }
    if NoDuplicatePairs(init) && PairOf(last) !in PairSet(init) {
      forall i, j | 0 <= i < j < |edges|
        ensures PairOf(edges[i]) != PairOf(edges[j])
      {
        if j == |init| {
          assert edges[i] in init;
        } else {
          assert init[i] == edges[i] && init[j] == edges[j];
        }
      }
    }
  }

  /**
   * The seeded index has one pair per edge exactly when no two edges share
   * a pair; in general it never has more pairs than there are edges.
   */
  lemma {:induction false} IndexMatchesEdges(edges: seq<Edge>)
    ensures |PairSet(edges)| <= |edges|
    ensures NoDuplicatePairs(edges) <==> |PairSet(edges)| == |edges|
    decreases |edges|
  {
    if edges != [] {
      var init := edges[..|edges| - 1];
      var last := edges[|edges| - 1];
      assert edges == init + [last];
      PairSetAppend(init, [last]);
      PairSetOne(last);
      NoDuplicatesSnoc(init, last);
      IndexMatchesEdges(init);
      if PairOf(last) in PairSet(init) {
        assert PairSet(edges) == PairSet(init);
      } else {
        assert |PairSet(edges)| == |PairSet(init)| + 1;
      }
    }
  }

  /** Every node's id is its position in the list. */
  ghost predicate DenseIds(nodes: seq<Node>)
  {
    forall i :: 0 <= i < |nodes| ==> nodes[i].id == i
  }

  /** Every edge joins existing nodes and weighs the (squared) distance between them. */
  ghost predicate WeightsAgree(nodes: seq<Node>, edges: seq<Edge>)
  {
    forall e :: e in edges ==>
      && 0 <= e.source < |nodes|
      && 0 <= e.target < |nodes|
      && e.weight == SqDist(nodes[e.source], nodes[e.target])
  }

  ghost predicate WellFormed(g: Graph)
  {
    DenseIds(g.nodes) && WeightsAgree(g.nodes, g.edges) && NoDuplicatePairs(g.edges)
  }

  /**
   * Appending edges whose pairs are new and pairwise distinct keeps the
   * edge list free of duplicate pairs.
   */
  lemma {:induction false} AppendFreshKeepsNoDuplicates(edges: seq<Edge>, more: seq<Edge>)
    requires NoDuplicatePairs(edges) && NoDuplicatePairs(more)
    requires forall e :: e in more ==> PairOf(e) !in PairSet(edges)
    ensures NoDuplicatePairs(edges + more)
  {
    var all := edges + more;
    forall i, j | 0 <= i < j < |all|
      ensures PairOf(all[i]) != PairOf(all[j])
    {
      if j >= |edges| {
        if i >= |edges| {
          assert all[i] == more[i - |edges|] && all[j] == more[j - |edges|];
        } else {
          assert all[j] in more && all[i] in edges;
        }
      }
    }
  }

  /** Appending a node with the next id keeps the edge invariants and dense ids. */
  lemma AppendNodeKeepsWellFormed(g: Graph, n: Node)
    requires WellFormed(g)
    requires n.id == |g.nodes|
    ensures WellFormed(Graph(g.nodes + [n], g.edges))
  {
    var ns := g.nodes + [n];
    forall e | e in g.edges
      ensures e.weight == SqDist(ns[e.source], ns[e.target])
    {
      assert ns[e.source] == g.nodes[e.source] && ns[e.target] == g.nodes[e.target];
    }
  }

  /** The document written out for a graph. */
  function Saved(g: Graph): (f: SavedFile)
    ensures f.Document? && f.nodes.Some? && f.edges.Some?
  {
    Document(Some(g.nodes), Some(g.edges))
  }

  /** The nodes a run of clicks appends after `start` existing nodes. */
  function ClickedNodes(start: nat, clicks: seq<Click>): (ns: seq<Node>)
    ensures |ns| == |clicks|
    ensures forall k :: 0 <= k < |clicks| ==>
              ns[k] == Node(start + k, clicks[k].x, clicks[k].y, clicks[k].kind)
  {
    seq(|clicks|, k requires 0 <= k < |clicks| => Node(start + k, clicks[k].x, clicks[k].y, clicks[k].kind))
  }

  /** e is the edge of some manual entry whose two ids are in range: it joins them and weighs their distance. */
  ghost predicate FromEntry(nodes: seq<Node>, entries: seq<(int, int)>, e: Edge)
  {
    exists i :: 0 <= i < |entries| && 0 <= entries[i].0 < |nodes| && 0 <= entries[i].1 < |nodes| &&
      e == Edge(entries[i].0, entries[i].1, SqDist(nodes[entries[i].0], nodes[entries[i].1]))
  }

  /** Clicks appended after a list whose ids are its positions keep ids equal to positions. */
  lemma ClickedNodesKeepDenseIds(ns: seq<Node>, clicks: seq<Click>)
    ensures DenseIds(ns) ==> DenseIds(ns + ClickedNodes(|ns|, clicks))
  {
  }
}
