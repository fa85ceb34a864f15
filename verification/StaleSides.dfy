/**
 Deletion after sorting. Sorting may leave the target side of a self-loop with
 the neighbours of an earlier order. Walks never look at that side, but deletion
 follows it and patches whatever it names.
 */
module StaleSides {
  import opened Graph
  import opened Linking

  /** y is on the list of n and stays there when x goes. */
  predicate StaysListed(s: Store, n: NodeId, x: RelId, y: RelId) {
    y != x && y in s.rels && Incident(s.rels[y], n)
  }

  /** The successor of y on the list of n once x is off it. */
  function NextWithout(s: Store, n: NodeId, x: RelId, y: RelId): RelId
    requires x in s.rels && y in s.rels
  {
    if NextOf(s.rels[y], n) == x then NextOf(s.rels[x], n) else NextOf(s.rels[y], n)
  }

  /** The two records named on the target side of x are off the list, or neighbours once x has gone. */
  predicate TargetSideFits(s: Store, x: RelId)
    requires NeighboursLive(s, x)
  {
    var r := s.rels[x];
    if StaysListed(s, r.source, x, r.prevT) then NextWithout(s, r.source, x, r.prevT) == r.nextT
    else !StaysListed(s, r.source, x, r.nextT)
  }

  /** The states in which deletion leaves rings behind, read off the record and the two it names. */
  predicate Unlinkable(s: Store, x: RelId)
    requires NeighboursLive(s, x)
  {
    if CoherentRel(s.rels[x]) then Removable(s, x) else s.rels[x].prevS == x || TargetSideFits(s, x)
  }

  // ----- where the target side does no harm -------------------------------------------------

  lemma LinkBack(s: Store, ring: map<NodeId, seq<RelId>>, n: NodeId, y: RelId)
    requires Rings(s, ring) && y in s.rels && Incident(s.rels[y], n)
    ensures n in s.nodes && NextOf(s.rels[y], n) in s.rels && PrevOf(s.rels[y], n) in s.rels
    ensures Incident(s.rels[NextOf(s.rels[y], n)], n) && Incident(s.rels[PrevOf(s.rels[y], n)], n)
    ensures PrevOf(s.rels[NextOf(s.rels[y], n)], n) == y && NextOf(s.rels[PrevOf(s.rels[y], n)], n) == y
  {
    assert n in s.nodes;
    assert RingAt(s, n, ring[n]);
    RingNeighbours(s, n, ring[n], y);
  }

  /** The four patches of a neighbour of a self-loop, those of the target side last. */
  lemma PatchedLinks(rx: Rel, r: Rel, y: RelId, n: NodeId)
    requires rx.source == rx.target == n && Incident(r, n)
    ensures NextOf(PatchedRel(rx, r, y), n) ==
      if y == rx.prevT then rx.nextT else if y == rx.prevS then rx.nextS else NextOf(r, n)
    ensures PrevOf(PatchedRel(rx, r, y), n) ==
      if y == rx.nextT then rx.prevT else if y == rx.nextS then rx.prevS else PrevOf(r, n)
  {
  }

  lemma PatchedElsewhere(rx: Rel, r: Rel, y: RelId)
    requires rx.source == rx.target
    ensures var r' := PatchedRel(rx, r, y);
      && r'.source == r.source && r'.target == r.target && r'.weight == r.weight && r'.tag == r.tag
      && (CoherentRel(r) ==> CoherentRel(r'))
      && forall n :: Incident(r, n) && n != rx.source ==> NextOf(r', n) == NextOf(r, n) && PrevOf(r', n) == PrevOf(r, n)
  {
  }

  /** The patches on the target side find what they would write. */
  lemma FittingPatch(s: Store, ring: map<NodeId, seq<RelId>>, x: RelId, y: RelId)
    requires Rings(s, ring) && NeighboursLive(s, x) && !CoherentRel(s.rels[x]) && TargetSideFits(s, x)
    requires y in s.rels && y != x
    ensures RelAfterRemove(s.rels[x], s.rels[y], PatchedRel(s.rels[x], s.rels[y], y), y)
  {
    var rx, n := s.rels[x], s.rels[x].source;
    PatchedElsewhere(rx, s.rels[y], y);
    if Incident(s.rels[y], n) {
      PatchedLinks(rx, s.rels[y], y, n);
      LinkBack(s, ring, n, x);
      LinkBack(s, ring, n, y);
      if y == rx.nextT {
        LinkBack(s, ring, n, rx.prevT);
      }
    }
  }

  /** A self-loop that is alone on its list has no neighbours to relink. */
  lemma AlonePatch(s: Store, ring: map<NodeId, seq<RelId>>, x: RelId, y: RelId)
    requires Rings(s, ring) && x in s.rels && !CoherentRel(s.rels[x]) && s.rels[x].prevS == x
    requires y in s.rels && y != x
    ensures RelAfterRemove(s.rels[x], s.rels[y], s.rels[y], y)
  {
    LinkBack(s, ring, s.rels[x].source, x);
  }

  lemma FittingShrinks(s: Store, ring: map<NodeId, seq<RelId>>, x: RelId)
    requires Rings(s, ring) && NeighboursLive(s, x) && !CoherentRel(s.rels[x])
    requires s.rels[x].prevS == x || TargetSideFits(s, x)
    ensures Shrunk(s, Remove(s, x), x)
  {
    var t := Remove(s, x);
    DropFirstPointwise(s, x);
    forall y | y in t.rels ensures RelAfterRemove(s.rels[x], s.rels[y], t.rels[y], y) {
      if s.rels[x].prevS == x {
        AlonePatch(s, ring, x, y);
      } else {
        RemovedRel(s, x, y);
        FittingPatch(s, ring, x, y);
      }
    }
  }

  // ----- where it does ----------------------------------------------------------------------

  /** Two members of a list cannot have the same next one. */
  lemma NextClash(s: Store, ring: map<NodeId, seq<RelId>>, n: NodeId, a: RelId, b: RelId)
    requires a != b && a in s.rels && b in s.rels && Incident(s.rels[a], n) && Incident(s.rels[b], n)
    requires NextOf(s.rels[a], n) == NextOf(s.rels[b], n)
    ensures !Rings(s, ring)
  {
    if Rings(s, ring) {
      LinkBack(s, ring, n, a);
      LinkBack(s, ring, n, b);
    }
  }

  lemma RemovedRel(s: Store, x: RelId, y: RelId)
    requires NeighboursLive(s, x) && s.rels[x].prevS != x && y in s.rels && y != x
    ensures y in Remove(s, x).rels && Remove(s, x).rels[y] == PatchedRel(s.rels[x], s.rels[y], y)
  {
    RelinkPatches(s, x, y);
  }

  /** The record before the target side's next one is made to skip it. */
  lemma MisfitBreaks(s: Store, ring: map<NodeId, seq<RelId>>, x: RelId, ring': map<NodeId, seq<RelId>>)
    requires Rings(s, ring) && NeighboursLive(s, x) && !CoherentRel(s.rels[x])
    requires s.rels[x].prevS != x && !TargetSideFits(s, x)
    ensures !Rings(Remove(s, x), ring')
  {
    var t, r, n := Remove(s, x), s.rels[x], s.rels[x].source;
    if Rings(t, ring') {
      if StaysListed(s, n, x, r.prevT) {
        RemovedRel(s, x, r.prevT);
        LinkBack(t, ring', n, r.prevT);
        assert NextOf(t.rels[r.prevT], n) == r.nextT;
        SecondPredecessor(s, ring, x, ring');
      } else {
        RemovedRel(s, x, r.nextT);
        LinkBack(t, ring', n, r.nextT);
        assert PrevOf(t.rels[r.nextT], n) == r.prevT;
        RemovedRel(s, x, r.prevT);
      }
    }
  }

  /** Somebody else precedes the target side's next record, too. */
  lemma SecondPredecessor(s: Store, ring: map<NodeId, seq<RelId>>, x: RelId, ring': map<NodeId, seq<RelId>>)
    requires Rings(s, ring) && NeighboursLive(s, x) && !CoherentRel(s.rels[x]) && s.rels[x].prevS != x
    requires StaysListed(s, s.rels[x].source, x, s.rels[x].prevT)
    requires StaysListed(s, s.rels[x].source, x, s.rels[x].nextT)
    requires NextWithout(s, s.rels[x].source, x, s.rels[x].prevT) != s.rels[x].nextT
    ensures !Rings(Remove(s, x), ring')
  {
    var r, n := s.rels[x], s.rels[x].source;
    var c := PredecessorWithout(s, ring, n, x, r.nextT);
    RemovedNext(s, ring, x, c);
    RemovedNext(s, ring, x, r.prevT);
    NextClash(Remove(s, x), ring', n, c, r.prevT);
  }

  lemma PredecessorWithout(s: Store, ring: map<NodeId, seq<RelId>>, n: NodeId, x: RelId, y: RelId) returns (c: RelId)
    requires Rings(s, ring) && x in s.rels && Incident(s.rels[x], n) && PrevOf(s.rels[x], n) != x
    requires StaysListed(s, n, x, y)
    ensures StaysListed(s, n, x, c) && NextWithout(s, n, x, c) == y
  {
    LinkBack(s, ring, n, x);
    LinkBack(s, ring, n, y);
    c := if PrevOf(s.rels[y], n) == x then PrevOf(s.rels[x], n) else PrevOf(s.rels[y], n);
    LinkBack(s, ring, n, c);
  }

  /** Deletion leads every record past x, and then the target side's previous one to its next one. */
  lemma RemovedNext(s: Store, ring: map<NodeId, seq<RelId>>, x: RelId, y: RelId)
    requires Rings(s, ring) && NeighboursLive(s, x) && !CoherentRel(s.rels[x]) && s.rels[x].prevS != x
    requires StaysListed(s, s.rels[x].source, x, y)
    ensures y in Remove(s, x).rels && Incident(Remove(s, x).rels[y], s.rels[x].source)
    ensures NextOf(Remove(s, x).rels[y], s.rels[x].source) ==
      if y == s.rels[x].prevT then s.rels[x].nextT else NextWithout(s, s.rels[x].source, x, y)
  {
    RemovedRel(s, x, y);
    PatchedLinks(s.rels[x], s.rels[y], y, s.rels[x].source);
    LinkBack(s, ring, s.rels[x].source, x);
    LinkBack(s, ring, s.rels[x].source, y);
  }

  /**
   Deletion from any store with rings, sorted or not: rings are left exactly when
   the record is unlinkable, and then they are the old ones without it.
   */
  lemma RemoveAnyRingsIff(s: Store, ring: map<NodeId, seq<RelId>>, x: RelId)
    requires Rings(s, ring) && NeighboursLive(s, x)
    ensures HasRings(Remove(s, x)) <==> Unlinkable(s, x)
    ensures Unlinkable(s, x) ==> Rings(Remove(s, x), RemoveFromRings(ring, x))
  {
    if CoherentRel(s.rels[x]) {
      RemoveRingsIff(s, ring, x);
    } else if Unlinkable(s, x) {
      FittingShrinks(s, ring, x);
      ShrunkKeepsRings(s, Remove(s, x), ring, x);
    } else {
      forall ring' ensures !Rings(Remove(s, x), ring') {
        MisfitBreaks(s, ring, x, ring');
      }
    }
  }

  /** A relationship between two different nodes is as deletable after sorting as before. */
  lemma RemoveNonLoopIff(s: Store, ring: map<NodeId, seq<RelId>>, x: RelId)
    requires Rings(s, ring) && x in s.rels && s.rels[x].source != s.rels[x].target
    ensures NeighboursLive(s, x) && (HasRings(Remove(s, x)) <==> Removable(s, x))
  {
    RemoveRingsIff(s, ring, x);
  }
}
