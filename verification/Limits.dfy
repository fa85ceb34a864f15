/**
 Concrete stores on which operations break what they should keep. The exact
 conditions are RemoveCorrectIff, InsertThenRemove, SwapCorrectIff,
 SortCoherentIff and, for reordering, VisitReorders.
 */
module Limits {
  import opened Graph
  import opened Linking
  import opened SwapNodes
  import opened SortRings
  import opened StaleSides
  import Reorder
  import Orders

  /** Two relationships, 0 and 4, from nodes 0 and 2 into node 1. */
  function TwoInto(): Store {
    Store(map[0 := Node(Some(0), 0), 1 := Node(Some(0), 0), 2 := Node(Some(4), 0)],
          map[0 := Rel(0, 1, 0, 0, 4, 4, 1, 0), 4 := Rel(2, 1, 4, 4, 0, 0, 1, 0)])
  }

  function TwoIntoRings(): map<NodeId, seq<RelId>> {
    map[0 := [0], 1 := [0, 4], 2 := [4]]
  }

  lemma RingOfOne(s: Store, n: NodeId, x: RelId)
    requires n in s.nodes && s.nodes[n].first == Some(x) && Covers(s, n, [x])
    requires x in s.rels && NextOf(s.rels[x], n) == x && PrevOf(s.rels[x], n) == x
    ensures RingAt(s, n, [x])
  {
  }

  lemma BrokenByRemoval(s: Store, ring: map<NodeId, seq<RelId>>, x: RelId)
    requires WellFormed(s, ring) && x in s.rels && !Removable(s, x)
    ensures HasRings(s) && NeighboursLive(s, x) && !HasRings(Remove(s, x))
  {
    RemoveCorrectIff(s, ring, x);
  }

  lemma BrokenBySwap(s: Store, ring: map<NodeId, seq<RelId>>, fst: NodeId, snd: NodeId)
    requires WellFormed(s, ring) && !Follows(s, ring, fst, snd)
    ensures HasRings(s) && !HasRings(SwappedNodes(s, fst, snd))
  {
    SwapCorrectIff(s, ring, fst, snd);
  }

  lemma TwoIntoEachRing()
    ensures RingAt(TwoInto(), 0, [0]) && RingAt(TwoInto(), 1, [0, 4]) && RingAt(TwoInto(), 2, [4])
  {
    RingOfOne(TwoInto(), 0, 0);
    RingOfOne(TwoInto(), 2, 4);
  }

  lemma TwoIntoWellFormed()
    ensures WellFormed(TwoInto(), TwoIntoRings())
  {
    var s, ring := TwoInto(), TwoIntoRings();
    TwoIntoEachRing();
    forall n {:trigger ring[n]} | n in s.nodes ensures RingAt(s, n, ring[n]) {
    }
  }

  /**
   Deleting the only relationship of its source while the target has another
   leaves that other one pointing at a record that is gone.
   */
  lemma DeleteStrandsTarget()
    ensures HasRings(TwoInto()) && NeighboursLive(TwoInto(), 0) && !HasRings(Remove(TwoInto(), 0))
  {
    TwoIntoWellFormed();
    BrokenByRemoval(TwoInto(), TwoIntoRings(), 0);
  }

  /** Moving a node that has relationships to a free id leaves them at the old id. */
  lemma SwapStrandsRelationships()
    ensures HasRings(TwoInto()) && !HasRings(SwappedNodes(TwoInto(), 0, 7))
  {
    TwoIntoWellFormed();
    BrokenBySwap(TwoInto(), TwoIntoRings(), 0, 7);
  }

  /** The store before relationship 4 was created. */
  function OneInto(): Store {
    Store(map[0 := Node(Some(0), 0), 1 := Node(Some(0), 0), 2 := Node(None, 0)], map[0 := Rel(0, 1, 0, 0, 0, 0, 1, 0)])
  }

  lemma OneMore()
    ensures EndsLive(OneInto(), 2) && EndsLive(OneInto(), 1) && Insert(OneInto(), 4, 2, 1, 1, 0) == TwoInto()
  {
    var rels := InsertRels(OneInto(), 4, 2, 1, 1, 0);
    assert rels.Keys == {0, 4};
    assert rels == TwoInto().rels;
  }

  /**
   Creating a first relationship of node 2 towards a node that has others, and
   deleting it at once, does not lead back: it breaks the rings.
   */
  lemma CreateThenDeleteStrands()
    ensures EndsLive(OneInto(), 2) && EndsLive(OneInto(), 1)
    ensures var t := Insert(OneInto(), 4, 2, 1, 1, 0);
      HasRings(t) && NeighboursLive(t, 4) && !HasRings(Remove(t, 4))
  {
    OneMore();
    TwoIntoWellFormed();
    BrokenByRemoval(TwoInto(), TwoIntoRings(), 4);
  }

  // ----- sorting with a self-loop -----------------------------------------------------------

  /** Node 0 has the ring 0, 12, 4, 8, in which 4 is a self-loop. */
  function Looped(): Store {
    Store(map[0 := Node(Some(0), 0), 1 := Node(Some(0), 0), 2 := Node(Some(8), 0), 3 := Node(Some(12), 0)],
          map[0 := Rel(0, 1, 8, 12, 0, 0, 1, 0), 12 := Rel(0, 3, 0, 4, 12, 12, 1, 0),
              4 := Rel(0, 0, 12, 8, 12, 8, 1, 0), 8 := Rel(0, 2, 4, 0, 8, 8, 1, 0)])
  }

  function LoopedRings(): map<NodeId, seq<RelId>> {
    map[0 := [0, 12, 4, 8], 1 := [0], 2 := [8], 3 := [12]]
  }

  /** The same store with the lists sorted: the source side of 4 follows the ids, its target side does not. */
  function LoopedSorted(): Store {
    Looped().(rels := map[0 := Rel(0, 1, 12, 4, 0, 0, 1, 0), 12 := Rel(0, 3, 8, 0, 12, 12, 1, 0),
                          4 := Rel(0, 0, 0, 8, 12, 8, 1, 0), 8 := Rel(0, 2, 4, 12, 8, 8, 1, 0)])
  }

  lemma LoopedWellFormed()
    ensures WellFormed(Looped(), LoopedRings())
  {
    var s, ring := Looped(), LoopedRings();
    LoopedRecords();
    forall n {:trigger ring[n]} | n in s.nodes ensures RingAt(s, n, ring[n]) {
      if n == 0 {
        LoopedRing();
      } else {
        LoopedSmallRings();
      }
    }
  }

  lemma LoopedRecords()
    ensures EndpointsLive(Looped()) && Coherent(Looped()) && LoopedRings().Keys == Looped().nodes.Keys
  {
  }

  lemma LoopedSmallRings()
    ensures RingAt(Looped(), 1, [0]) && RingAt(Looped(), 2, [8]) && RingAt(Looped(), 3, [12])
  {
    RingOfOne(Looped(), 1, 0);
    RingOfOne(Looped(), 2, 8);
    RingOfOne(Looped(), 3, 12);
  }

  lemma LoopedRing()
    ensures RingAt(Looped(), 0, [0, 12, 4, 8])
  {
    var q: seq<RelId> := [0, 12, 4, 8];
    assert Distinct(q);
    assert Covers(Looped(), 0, q);
    assert Succ(0, 4) == 1 && Succ(1, 4) == 2 && Succ(2, 4) == 3 && Succ(3, 4) == 0;
  }

  lemma LoopedIsSorted()
    ensures StoreSorted(Looped(), LoopedSorted(), LoopedRings())
  {
    var s, t, ring := Looped(), LoopedSorted(), LoopedRings();
    forall x {:trigger t.rels[x]} | x in s.rels ensures RecSorted(s.rels[x], t.rels[x], x, ring, s.nodes.Keys) {
    }
  }

  /**
   Sorting leaves the self-loop's two sides at odds, and deleting it afterwards,
   in a state that passes for removable, breaks the ring of node 0.
   */
  lemma SortThenDeleteStrands(t: Store)
    requires StoreSorted(Looped(), t, LoopedRings())
    ensures WellFormed(Looped(), LoopedRings()) && !Coherent(t)
    ensures NeighboursLive(t, 4) && Removable(t, 4) && !HasRings(Remove(t, 4))
  {
    LoopedWellFormed();
    LoopedIsSorted();
    StoreSortedUnique(Looped(), t, LoopedSorted(), LoopedRings());
    LoopedSortedStrands();
  }

  lemma LoopedSortedStrands()
    ensures !Coherent(LoopedSorted()) && NeighboursLive(LoopedSorted(), 4) && Removable(LoopedSorted(), 4)
    ensures !HasRings(Remove(LoopedSorted(), 4))
  {
    var t := LoopedSorted();
    assert !CoherentRel(t.rels[4]);
    RemovedRel(t, 4, 0);
    RemovedRel(t, 4, 12);
    forall ring ensures !Rings(Remove(t, 4), ring) {
      NextClash(Remove(t, 4), ring, 0, 0, 12);
    }
  }

  // ----- reordering around gaps -------------------------------------------------------------

  /** Three relationships with gaps between them, each to go where the next one is. */
  function ThreeCycle(): Reorder.Dict {
    map[0 := 16, 16 := 32, 32 := 0]
  }

  function ThreeCycleBack(): Reorder.Dict {
    map[16 := 0, 32 := 16, 0 := 32]
  }

  lemma ThreeCyclePermutes()
    ensures Orders.Permutes(ThreeCycle(), {0, 16, 32})
  {
    assert Orders.Inverts(ThreeCycleBack(), ThreeCycle(), {0, 16, 32});
  }

  lemma ThreeCycleInverse()
    ensures Reorder.MutuallyInverse(ThreeCycle(), ThreeCycleBack())
  {
  }

  lemma ThreeCycleTargets()
    ensures Reorder.Compact(ThreeCycle(), ThreeCycle().Keys, 3) && !Reorder.TargetsVisited(ThreeCycle(), 3)
  {
    assert ThreeCycle()[0] in ThreeCycle().Values;
  }

  /**
   The loop over the first three positions, 0, 4 and 8, meets one target, ends
   without an error and leaves the other two relationships out of place.
   */
  lemma CycleLeftUndone(s: Store, ring: map<NodeId, seq<RelId>>)
    requires WellFormed(s, ring) && s.rels.Keys == {0, 16, 32}
    ensures Orders.Permutes(ThreeCycle(), s.rels.Keys)
    ensures var p := Reorder.Visit(Reorder.State(ThreeCycle(), ThreeCycleBack(), s, true), 0, 3);
      p.ok && p.m != map[]
  {
    ThreeCyclePermutes();
    ThreeCycleInverse();
    ThreeCycleTargets();
    var done := Reorder.VisitReorders(s, ThreeCycle(), ThreeCycleBack(), 3, ring);
  }

  // ----- positions that the reordering of nodes visits --------------------------------------

  /** Page and slot in iteration i of the loop over nodes. */
  function NodePosition(i: nat): (nat, nat) {
    if i == 0 then (0, 0)
    else
      var (page, slot) := NodePosition(i - 1);
      if slot + 1 >= 255 then (page + 1, 0) else (page, slot + 1)
  }

  /** The last slot of a page is never visited: there are 255 positions a page, where there are 256 slots. */
  lemma {:induction false} LastSlotSkipped(i: nat)
    ensures NodePosition(i) == (i / 255, i % 255)
  {
    if i > 0 {
      LastSlotSkipped(i - 1);
    }
  }
}
