/**
 * What the pair index of map_annotator.py adds over assets/maps/map.py:
 * on the same manual entries the two append the same edges until an entry
 * repeats a registered pair (in either order), which only the older
 * version appends again.
 */
module DedupVsLegacy {
  import opened FloorGraph
  import opened Annotator
  import opened LegacyMap

  /** Every in-range entry names a pair that is neither registered nor named by another in-range entry. */
  ghost predicate FreshEntries(nodes: seq<Node>, pairs: set<Pair>, entries: seq<(int, int)>)
  {
    && (forall i :: 0 <= i < |entries| && InRange(|nodes|, entries[i]) ==>
          Canon(entries[i].0, entries[i].1) !in pairs)
    && (forall i, j :: 0 <= i < j < |entries| && InRange(|nodes|, entries[i]) && InRange(|nodes|, entries[j]) ==>
          Canon(entries[i].0, entries[i].1) != Canon(entries[j].0, entries[j].1))
  }

  /** On entries that never repeat a pair, the index changes nothing: both versions append the same edges. */
  lemma {:induction false} DedupAgreesOnFreshEntries(nodes: seq<Node>, pairs: set<Pair>, entries: seq<(int, int)>)
    requires FreshEntries(nodes, pairs, entries)
    ensures ManualEdges(nodes, pairs, entries) == LegacyEdges(nodes, entries)
    decreases |entries|
  {
    if entries != [] {
      var a := entries[0].0;
      var b := entries[0].1;
      var pairs' := if InRange(|nodes|, entries[0]) then pairs + {Canon(a, b)} else pairs;
      var rest := entries[1..];
      forall i, j | 0 <= i < j < |rest| && InRange(|nodes|, rest[i]) && InRange(|nodes|, rest[j])
        ensures Canon(rest[i].0, rest[i].1) != Canon(rest[j].0, rest[j].1)
      {
        assert rest[i] == entries[i + 1] && rest[j] == entries[j + 1];
      }
      forall i | 0 <= i < |rest| && InRange(|nodes|, rest[i])
        ensures Canon(rest[i].0, rest[i].1) !in pairs'
      {
        assert rest[i] == entries[i + 1];
      }
      DedupAgreesOnFreshEntries(nodes, pairs', rest);
    }
  }

  /** The index only ever drops entries: never more edges than the older version appends. */
  lemma {:induction false} DedupNeverLonger(nodes: seq<Node>, pairs: set<Pair>, entries: seq<(int, int)>)
    ensures |ManualEdges(nodes, pairs, entries)| <= |LegacyEdges(nodes, entries)|
    decreases |entries|
  {
    if entries != [] {
      var a := entries[0].0;
      var b := entries[0].1;
      DedupNeverLonger(nodes, pairs, entries[1..]);
      DedupNeverLonger(nodes, pairs + {Canon(a, b)}, entries[1..]);
    }
  }

  /**
   * Freshness of the entries after the first one, under the pairs registered
   * once the first is handled, together with a fresh first entry, is
   * freshness of all of them.
   */
  lemma FreshTail(nodes: seq<Node>, pairs: set<Pair>, entries: seq<(int, int)>)
    requires entries != []
    ensures var c := Canon(entries[0].0, entries[0].1);
            var inRange := InRange(|nodes|, entries[0]);
            FreshEntries(nodes, if inRange then pairs + {c} else pairs, entries[1..]) && (inRange ==> c !in pairs)
            ==> FreshEntries(nodes, pairs, entries)
  {
    var c := Canon(entries[0].0, entries[0].1);
    var inRange := InRange(|nodes|, entries[0]);
    var pairs' := if inRange then pairs + {c} else pairs;
    var rest := entries[1..];
    if FreshEntries(nodes, pairs', rest) && (inRange ==> c !in pairs) {
      forall i | 0 <= i < |entries| && InRange(|nodes|, entries[i])
        ensures Canon(entries[i].0, entries[i].1) !in pairs
      {
        if i > 0 {
          assert entries[i] == rest[i - 1];
        }
      }
      forall i, j | 0 <= i < j < |entries| && InRange(|nodes|, entries[i]) && InRange(|nodes|, entries[j])
        ensures Canon(entries[i].0, entries[i].1) != Canon(entries[j].0, entries[j].1)
      {
        assert entries[j] == rest[j - 1];
        if i > 0 {
          assert entries[i] == rest[i - 1];
        }
      }
    }
  }

  /**
   * Once an in-range entry repeats a registered pair or an earlier entry's
   * pair, the index drops it: strictly fewer edges than the older version.
   */
  lemma {:induction false} DedupDropsRepeats(nodes: seq<Node>, pairs: set<Pair>, entries: seq<(int, int)>)
    ensures !FreshEntries(nodes, pairs, entries) ==>
              |ManualEdges(nodes, pairs, entries)| < |LegacyEdges(nodes, entries)|
    decreases |entries|
  {
    if entries != [] {
      var a := entries[0].0;
      var b := entries[0].1;
      var rest := entries[1..];
      FreshTail(nodes, pairs, entries);
      if !InRange(|nodes|, entries[0]) {
        DedupDropsRepeats(nodes, pairs, rest);
      } else if Canon(a, b) in pairs {
        DedupNeverLonger(nodes, pairs, rest);
      } else {
        DedupDropsRepeats(nodes, pairs + {Canon(a, b)}, rest);
      }
    }
  }

  /** The index changes the manual edges exactly when some in-range entry repeats a pair. */
  lemma DedupChangesExactlyOnRepeats(nodes: seq<Node>, pairs: set<Pair>, entries: seq<(int, int)>)
    ensures FreshEntries(nodes, pairs, entries) <==> ManualEdges(nodes, pairs, entries) == LegacyEdges(nodes, entries)
  {
    if FreshEntries(nodes, pairs, entries) {
      DedupAgreesOnFreshEntries(nodes, pairs, entries);
    } else {
      DedupDropsRepeats(nodes, pairs, entries);
    }
  }

  /**
   * A pair entered and then entered reversed: the older version appends two
   * edges over the same pair, the index lets only the first through.
   */
  lemma ReversedRepeat(nodes: seq<Node>, a: int, b: int)
    requires 0 <= a < |nodes| && 0 <= b < |nodes|
    ensures ManualEdges(nodes, {}, [(a, b), (b, a)]) == [Edge(a, b, SqDist(nodes[a], nodes[b]))]
    ensures |LegacyEdges(nodes, [(a, b), (b, a)])| == 2
    ensures !NoDuplicatePairs(LegacyEdges(nodes, [(a, b), (b, a)]))
  {
    assert [(a, b), (b, a)][1..] == [(b, a)];
    assert [(b, a)][1..] == [];
    assert Canon(b, a) == Canon(a, b);
    assert ManualEdges(nodes, {Canon(a, b)}, [(b, a)]) == [];
    var none: set<Pair> := {};
    assert none + {Canon(a, b)} == {Canon(a, b)};
    assert ManualEdges(nodes, {}, [(a, b), (b, a)])
        == [Edge(a, b, SqDist(nodes[a], nodes[b]))] + ManualEdges(nodes, {Canon(a, b)}, [(b, a)]);
    LegacyKeepsRepeats(nodes, a, b);
  }

  /** Neither version rejects an entry whose two ids are equal. */
  lemma SelfPairAccepted(nodes: seq<Node>, a: int)
    requires 0 <= a < |nodes|
    ensures ManualEdges(nodes, {}, [(a, a)]) == [Edge(a, a, 0)]
    ensures LegacyEdges(nodes, [(a, a)]) == [Edge(a, a, 0)]
  {
    assert [(a, a)][1..] == [];
  }
}
