# Floor-plan graph annotator, modelled in Dafny

The annotator turns a floor-plan image into a navigation graph. It has two
versions.

`map_annotator.py`:

- Each click on the map appends a node. The node's id is the number of nodes
  before it. The node is a `room` with a typed name, or a `path` point.
- At start-up it reloads a previously saved `{"nodes", "edges"}` document.
- It seeds an index of canonical id pairs (`added_edges`) from the loaded
  edges.
- It runs a greedy auto-link pass. Each path node, in list order, is joined
  to its nearest other path node whose pair is not yet registered, when that
  node is at most 40 pixels away. A tie goes to the earliest candidate.
- It accepts manual edge entries. An entry is rejected when an id is out of
  range or the pair already exists in either order. Otherwise it becomes an
  edge weighted by the Euclidean distance.
- It returns `final_graph`, the node list and the edge list.

`assets/maps/map.py`, the older version:

- Node marking is the same.
- On resume it restores only the node list.
- Manual entries are range-checked but not deduplicated.
- It has no auto-link pass.

Modules:

- `FloorGraph` (`floor_graph.dfy`) holds the shared values and invariants:
  - nodes, edges, the saved document;
  - squared distance and canonical pairs;
  - dense ids, weights that agree with coordinates, no duplicate pairs.
- `AutoLink` (`auto_link.dfy`) is a functional reference definition of the
  auto-link pass, with its characterisation and its guarantees.
- `Annotator` (`annotator.dfy`) models `map_annotator.py`. It has a `Session`
  class with the three mutable collections of the script (`nodes`, `edges`,
  `added_edges`). Its methods are proved against the reference functions.
- `LegacyMap` (`legacy_map.dfy`) models `assets/maps/map.py` in the same way.
- `DedupVsLegacy` (`dedup_vs_legacy.dfy`) relates the manual entry of the two
  versions.

Distances:

- An edge weight is the **squared** Euclidean distance, a `nat`.
- `math.dist` is the strictly monotone square root of it, so every
  comparison the source makes is kept. The 40-pixel threshold becomes
  `<= 1600`.

How the model treats loaded data:

- Loaded nodes and edges are taken as they are, exactly as the script does.
- Guarantees that need ids equal to list positions (`DenseIds`) are stated
  conditionally.

Two behaviours of the code that a reader might not expect are kept as
written:

- Re-running the auto-link pass is not a no-op. `AutoLink.SecondPassCanAddEdges`
  exhibits a second pass that adds edges.
- A manual entry with both ids equal is accepted, as a zero-weight self-loop
  (`DedupVsLegacy.SelfPairAccepted`).

## Model

| member | source | states |
|---|---|---|
| FloorGraph.SqDist | map_annotator.py:165 | the distance between two nodes is zero exactly when their coordinates coincide |
| FloorGraph.SqDistSymmetric | map_annotator.py:229-231 | the weight of a-b equals the weight of b-a |
| FloorGraph.Canon | map_annotator.py:146 | the canonical pair is ordered (min, max) and consists of exactly the two given ids |
| FloorGraph.CanonSameIff | map_annotator.py:223 | two entries hit the same registered pair exactly when they name the same two ids in either order |
| FloorGraph.IndexMatchesEdges | map_annotator.py:144-146 | the seeded index never has more pairs than there are edges, and has exactly one pair per edge if and only if no two edges share a pair |
| FloorGraph.AppendFreshKeepsNoDuplicates | map_annotator.py:176-177 | appending edges whose pairs are unregistered and mutually distinct keeps the edge list free of duplicate pairs |
| FloorGraph.AppendNodeKeepsWellFormed | map_annotator.py:33-51 | appending a node whose id is the current count keeps dense ids, the weights and the no-duplicate invariant |
| FloorGraph.ClickedNodesKeepDenseIds | map_annotator.py:33-51 | nodes clicked after a list whose ids are its positions keep ids equal to positions |
| FloorGraph.Saved | map_annotator.py:244 | reference definition of the written `final_graph` document: it always carries both keys, so reloading it replaces both lists (`Annotator.SaveThenReload`) |
| AutoLink.NearestAmong | map_annotator.py:155-169 | reference definition of the inner scan (a later candidate replaces the kept one only when strictly nearer); the result is a position already scanned; its guarantee is `AutoLink.NearestAmongSpec` |
| AutoLink.NearestAmongSpec | map_annotator.py:155-169 | the inner scan finds nothing exactly when no other unregistered path node exists; otherwise it finds the nearest one, and the earliest on ties |
| AutoLink.NearestUnique | map_annotator.py:167-169 | the nearest, earliest candidate is unique |
| AutoLink.ScanIsNearestAmong | map_annotator.py:155-169 | any scan result meeting that characterisation is the reference scan's result |
| AutoLink.ChoiceSpec | map_annotator.py:151-177 | a node gets an auto edge exactly when it is a path node whose nearest eligible partner is within 40 pixels; the edge goes from it to that partner and weighs their distance |
| AutoLink.Choice | map_annotator.py:171-177 | reference definition of one node's auto edge: only a path node gets one, it starts at that node, and its weight is within the threshold; its characterisation is `AutoLink.ChoiceSpec` |
| AutoLink.LinkFrom | map_annotator.py:151-180 | reference definition of the pass from position i on, registering each chosen pair before the next node; at most one edge per remaining node; its guarantees are `AutoLink.LinkFromLinksPathNodes`, `AutoLink.LinkFromFresh` and `AutoLink.LinkFromBound` |
| AutoLink.AutoEdges | map_annotator.py:151-180 | reference definition of one whole pass; at most one edge per node; its guarantees are `AutoLink.AutoEdgesSound` |
| AutoLink.LinkFromLinksPathNodes | map_annotator.py:151-177 | every auto edge joins two distinct path nodes within the threshold and weighs their distance |
| AutoLink.LinkFromFresh | map_annotator.py:162-177 | no auto edge repeats a registered pair, and no two auto edges share a pair |
| AutoLink.LinkFromBound | map_annotator.py:151-153 | the pass adds at most one edge per path node it visits |
| AutoLink.AutoEdgesSound | map_annotator.py:151-180 | with ids equal to positions, auto edges join existing distinct path nodes, weigh their distance, are fresh and duplicate-free, and number at most the path nodes |
| AutoLink.CorridorAndRoomScenario | map_annotator.py:151-177 | two corridor points 10 apart are linked with weight 10² and the room beside them is never linked |
| AutoLink.TooFarScenario | map_annotator.py:171 | path nodes 50 apart are not linked |
| AutoLink.Collinear4FirstPass | map_annotator.py:151-177 | the edges one pass adds on four collinear path points 10 apart: the last point, whose nearest partner is already paired with it, links to the next nearest one |
| AutoLink.SecondPassCanAddEdges | map_annotator.py:144-180 | running the pass again on the graph it produced adds further edges: the pass is not idempotent |
| Annotator.Reload | map_annotator.py:95-109 | reference definition of start-up loading: a missing file keeps the current graph, and a document carrying both keys loads to a graph that saves back to that same document |
| Annotator.SaveThenReload | map_annotator.py:244-247 | reading back a saved `final_graph` restores exactly its nodes and edges |
| Annotator.ManualEdges | map_annotator.py:213-241 | reference definition of the manual entry loop: never more edges than entries; its guarantees are `Annotator.ManualEdgesSound` |
| Annotator.ManualEdgesStep | map_annotator.py:213-241 | the entry loop handles one entry, then the rest under the pairs registered so far |
| Annotator.ManualEdgesSound | map_annotator.py:218-235 | manual edges join existing nodes, weigh their distance, repeat no registered pair and no pair among themselves |
| Annotator.ManualEdgesComplete | map_annotator.py:218-235 | an in-range entry whose pair is neither registered nor named by an earlier in-range entry yields its edge `(a, b, distance)` among the manual edges |
| Annotator.ManualEdgesFromEntries | map_annotator.py:218-235 | every manual edge is the edge `(a, b, distance)` of some in-range entry |
| Annotator.SessionEdgesWellFormed | map_annotator.py:144-241 | from a well-formed loaded graph, loaded edges plus auto edges plus manual edges form a well-formed graph |
| Annotator.Session.constructor | map_annotator.py:18-19 | a session starts with no nodes, no edges and an empty index |
| Annotator.Session.Load | map_annotator.py:95-109 | a missing file leaves the state as it is; each present key replaces its list; a parse failure resets both lists |
| Annotator.Session.Click | map_annotator.py:30-51 | a click appends one node with id equal to the previous count and the clicked coordinates and kind; a well-formed graph stays well-formed |
| Annotator.Session.SeedIndex | map_annotator.py:144-146 | after seeding, the index holds exactly the canonical pairs of the edges |
| Annotator.Session.ClosestUnpairedPath | map_annotator.py:155-169 | the scan returns none exactly when no candidate is eligible, otherwise the nearest, earliest one and its distance |
| Annotator.AutoEdgesAppended | map_annotator.py:151-180 | appending one pass's auto edges keeps the edge list duplicate-free and, with ids equal to positions, well-formed; the pass adds at most one edge per path node |
| Annotator.Session.LinkNode | map_annotator.py:152-177 | one node's step adds an edge exactly when the reference pass chooses one for it, appends exactly that edge, and registers its pair |
| Annotator.Session.AutoLink | map_annotator.py:148-180 | the pass appends exactly the reference auto edges, keeps the index in step, returns their count (at most the number of path nodes), and preserves no-duplicates and well-formedness |
| Annotator.Session.AddEdge | map_annotator.py:218-235 | an entry is rejected as invalid exactly when an id is out of range, and as existing exactly when its pair is registered; in both cases nothing changes; otherwise exactly the weighted edge is appended and its pair registered |
| Annotator.Session.ManualLinking | map_annotator.py:213-241 | the entry loop appends exactly the manual edges of the entries, in order |
| Annotator.Start | map_annotator.py:94-132 | start-up state is the loaded graph with the clicked nodes appended |
| Annotator.Annotate | map_annotator.py:134-244 | no graph when there are no nodes; otherwise `final_graph` is the loaded and clicked nodes, with the loaded edges, the auto edges and the manual edges in that order, and well-formedness is preserved |
| LegacyMap.Resumed | assets/maps/map.py:83-95 | reference definition of resuming: without earlier annotations the node list is kept; otherwise it is kept, reset, or replaced by the saved node list |
| LegacyMap.ResumeRestoresNodesOnly | assets/maps/map.py:83-95 | resuming from a saved graph restores its nodes but not its edges, and only when earlier annotations were found |
| LegacyMap.LegacyEdges | assets/maps/map.py:125-145 | reference definition of the older entry loop: never more edges than entries; its guarantees are `LegacyMap.LegacyEdgesSound` |
| LegacyMap.LegacyEdgesSound | assets/maps/map.py:125-145 | as many edges as in-range entries, each between existing nodes at their distance; an edge is present exactly when some in-range entry names its two ids, repeats included |
| LegacyMap.LegacyKeepsRepeats | assets/maps/map.py:130-145 | a pair entered and then entered reversed yields two edges over the same pair |
| LegacyMap.Session.constructor | assets/maps/map.py:23-24 | a session starts with no nodes and no edges |
| LegacyMap.Session.Resume | assets/maps/map.py:83-95 | the saved node list is read only when annotations were found; a parse failure resets the nodes; the edges are untouched |
| LegacyMap.Session.Click | assets/maps/map.py:28-54 | a click appends one node with id equal to the previous count; dense ids and weights are preserved |
| LegacyMap.Session.AddEdge | assets/maps/map.py:130-145 | an entry is accepted exactly when both ids are in range, and then exactly its weighted edge is appended, repeats included |
| LegacyMap.Session.ManualLinking | assets/maps/map.py:125-152 | the entry loop appends exactly one edge per in-range entry, in order |
| LegacyMap.Annotate | assets/maps/map.py:83-158 | no graph when there are no nodes; otherwise `final_graph` is the resumed and clicked nodes with one edge per in-range entry |
| DedupVsLegacy.DedupAgreesOnFreshEntries | map_annotator.py:223-225 | on entries that never repeat a pair, deduplication changes nothing: both versions append the same edges |
| DedupVsLegacy.DedupNeverLonger | map_annotator.py:223-225 | the deduplicating version never appends more edges than the older one |
| DedupVsLegacy.DedupDropsRepeats | map_annotator.py:223-225 | once an in-range entry repeats a registered pair or an earlier entry's pair, the deduplicating version appends strictly fewer edges than the older one |
| DedupVsLegacy.DedupChangesExactlyOnRepeats | map_annotator.py:223-225 | the two versions append the same edges if and only if no in-range entry repeats a registered or earlier pair |
| DedupVsLegacy.ReversedRepeat | map_annotator.py:223-225 | for a pair and its reverse, the index keeps one edge and the older version keeps two over the same pair |
| DedupVsLegacy.SelfPairAccepted | map_annotator.py:219-235 | an entry with both ids equal is accepted by both versions, as a zero-weight self-loop |

## Left out

- Drawing, windows, the mouse callback, the ESC wait loop and the temporary
  annotated image are OpenCV user-interface work. A run of clicks is a
  parameter (`seq<Click>`).
- Console prompts: the re-prompt for a node type other than `room`/`path`,
  the room-name prompt, and the `done` terminator are console I/O. The typed
  kind and name are parts of `Click`, and manual entries are a parameter.
  An entry line that does not parse as two integers is caught and skipped,
  which is the same as that entry being absent from the parameter.
- Display scaling (`int(x / scale_factor)`) is left out. Clicks are given in
  original image coordinates.
- `math.dist` and floating point are replaced by the exact squared distance.
  Float rounding could make two different squared distances compare equal
  after the square root. That could change which candidate wins a near-tie,
  and it is not modelled.
- Reading and writing JSON and checking files exist are modelled as the
  `SavedFile` parameter and the returned graph. Five kinds of loaded data
  cannot be expressed in the model:
  - a type string other than `room`/`path`;
  - missing keys;
  - a `null` room name on a room node;
  - a loaded edge weight that is not a whole number. The script itself writes
    `math.dist` floats, and `Edge.weight` holds a squared distance as a
    `nat`. Loaded weights are never recomputed or compared, so behaviour is
    unaffected.
  - coordinates that are not whole numbers, which a hand-edited file could
    hold.
- A failure to write the output file is left out. `Annotate` returns the
  `final_graph` value that is written.
- The early returns when the map image is missing or unreadable are image
  I/O. They are left out.
- The networkx shortest-path verification step after saving and its prompt
  loop are left out. They change neither the graph nor the file.
- `generate_patent_diagrams.py` is not part of this model.
- The temporary-image check in `assets/maps/map.py` is a boolean parameter,
  `annotationsFound`.
- Annotator.Session.AutoLink, Annotator.Session.AddEdge and
  Annotator.Annotate state well-formedness of the result only when the loaded
  graph is well-formed, because the script never validates what it loads.
