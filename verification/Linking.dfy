/**
 Linking a new relationship into the lists of its two endpoints and unlinking
 one, as functions on the whole store. The functions patch records one after
 another, in the order of the in-memory graph; the heap file, which patches
 copies and writes them back, is proved to compute the same stores.
 */
module Linking {
  import opened Graph

  // ----- single-record patches ---------------------------------------------

  /** Redirect the next pointer of every side of r that lies in n's list. */
  function SetNext(r: Rel, n: NodeId, id: RelId): (r': Rel)
    ensures r'.source == r.source && r'.target == r.target
    ensures r'.weight == r.weight && r'.tag == r.tag
    ensures forall m :: Incident(r, m) ==>
      NextOf(r', m) == (if m == n then id else NextOf(r, m)) && PrevOf(r', m) == PrevOf(r, m)
    ensures CoherentRel(r) ==> CoherentRel(r')
  {
    var r1 := if r.source == n then r.(nextS := id) else r;
    if r1.target == n then r1.(nextT := id) else r1
  }

  function SetPrev(r: Rel, n: NodeId, id: RelId): (r': Rel)
    ensures r'.source == r.source && r'.target == r.target
    ensures r'.weight == r.weight && r'.tag == r.tag
    ensures forall m :: Incident(r, m) ==>
      PrevOf(r', m) == (if m == n then id else PrevOf(r, m)) && NextOf(r', m) == NextOf(r, m)
    ensures CoherentRel(r) ==> CoherentRel(r')
  {
    var r1 := if r.source == n then r.(prevS := id) else r;
    if r1.target == n then r1.(prevT := id) else r1
  }

  // ----- insertion -----------------------------------------------------------

  /** The pointers that insertion follows out of n lead to live records. */
  predicate EndsLive(s: Store, n: NodeId) {
    n in s.nodes
    && (s.nodes[n].first.Some? ==>
      s.nodes[n].first.value in s.rels
      && PrevOf(s.rels[s.nodes[n].first.value], n) in s.rels)
  }

  /** First member of n's list, or the new relationship x when the list is empty. */
  function FirstIn(s: Store, n: NodeId, x: RelId): RelId
    requires EndsLive(s, n)
  {
    if s.nodes[n].first.None? then x else s.nodes[n].first.value
  }

  function LastIn(s: Store, n: NodeId, x: RelId): RelId
    requires EndsLive(s, n)
  {
    if s.nodes[n].first.None? then x else PrevOf(s.rels[s.nodes[n].first.value], n)
  }

  function FreshRel(s: Store, x: RelId, from: NodeId, to: NodeId, weight: int, tag: nat): Rel
    requires EndsLive(s, from) && EndsLive(s, to)
  {
    Rel(from, to, LastIn(s, from, x), FirstIn(s, from, x), LastIn(s, to, x), FirstIn(s, to, x), weight, tag)
  }

  /** Point the ends of both lists at x: next of the last members, prev of the first ones. */
  function LinkEnds(m0: map<RelId, Rel>, x: RelId, from: NodeId, to: NodeId,
                    firstFrom: RelId, lastFrom: RelId, firstTo: RelId, lastTo: RelId): (m: map<RelId, Rel>)
    requires firstFrom in m0 && lastFrom in m0 && firstTo in m0 && lastTo in m0
    ensures m.Keys == m0.Keys
  {
    var m1 := m0[lastFrom := SetNext(m0[lastFrom], from, x)];
    var m2 := m1[lastTo := SetNext(m1[lastTo], to, x)];
    var m3 := m2[firstFrom := SetPrev(m2[firstFrom], from, x)];
    m3[firstTo := SetPrev(m3[firstTo], to, x)]
  }

  function InsertRels(s: Store, x: RelId, from: NodeId, to: NodeId, weight: int, tag: nat): map<RelId, Rel>
    requires EndsLive(s, from) && EndsLive(s, to)
  {
    LinkEnds(s.rels[x := FreshRel(s, x, from, to, weight, tag)], x, from, to,
             FirstIn(s, from, x), LastIn(s, from, x), FirstIn(s, to, x), LastIn(s, to, x))
  }

  function SetFirstIfNone(nodes: map<NodeId, Node>, n: NodeId, x: RelId): (nodes': map<NodeId, Node>)
    requires n in nodes
    ensures nodes'.Keys == nodes.Keys
  {
    if nodes[n].first.None? then nodes[n := nodes[n].(first := Some(x))] else nodes
  }

  function Insert(s: Store, x: RelId, from: NodeId, to: NodeId, weight: int, tag: nat): Store
    requires EndsLive(s, from) && EndsLive(s, to)
  {
    Store(SetFirstIfNone(SetFirstIfNone(s.nodes, from, x), to, x),
          InsertRels(s, x, from, to, weight, tag))
  }

  /** x joins the end of its endpoints' rings (once for a self-loop); no other ring changes. */
  ghost function AppendRing(ring: map<NodeId, seq<RelId>>, from: NodeId, to: NodeId, x: RelId)
    : map<NodeId, seq<RelId>>
  {
    map n | n in ring :: if n == from || n == to then ring[n] + [x] else ring[n]
  }

  lemma RingEnds(s: Store, ring: map<NodeId, seq<RelId>>, n: NodeId)
    requires Rings(s, ring) && n in s.nodes
    ensures EndsLive(s, n)
    ensures ring[n] != [] ==> forall x :: FirstIn(s, n, x) == ring[n][0] && LastIn(s, n, x) == ring[n][|ring[n]| - 1]
    ensures ring[n] == [] ==> forall x :: FirstIn(s, n, x) == x == LastIn(s, n, x)
  {
    if ring[n] != [] {
      assert Succ(|ring[n]| - 1, |ring[n]|) == 0;
    }
  }

  // ----- what insertion does, record by record --------------------------------

  /** An existing record after x joined the lists of from and to: only list ends move, on their own node. */
  ghost predicate OldRelAfterInsert(s: Store, r: Rel, r': Rel, y: RelId, x: RelId, from: NodeId, to: NodeId)
    requires EndsLive(s, from) && EndsLive(s, to)
  {
    && r'.source == r.source && r'.target == r.target && r'.weight == r.weight && r'.tag == r.tag
    && (CoherentRel(r) ==> CoherentRel(r'))
    && forall n :: Incident(r, n) ==>
      && NextOf(r', n) ==
        (if (n == from && y == LastIn(s, from, x)) || (n == to && y == LastIn(s, to, x)) then x else NextOf(r, n))
      && PrevOf(r', n) ==
        (if (n == from && y == FirstIn(s, from, x)) || (n == to && y == FirstIn(s, to, x)) then x else PrevOf(r, n))
  }

  /** The new record lies between the last and the first member of both lists. */
  ghost predicate NewRelAfterInsert(s: Store, r: Rel, x: RelId, from: NodeId, to: NodeId)
    requires EndsLive(s, from) && EndsLive(s, to)
  {
    && r.source == from && r.target == to && CoherentRel(r)
    && NextOf(r, from) == FirstIn(s, from, x) && PrevOf(r, from) == LastIn(s, from, x)
    && NextOf(r, to) == FirstIn(s, to, x) && PrevOf(r, to) == LastIn(s, to, x)
  }

  lemma InsertOnOldRel(s: Store, x: RelId, from: NodeId, to: NodeId, weight: int, tag: nat, y: RelId)
    requires EndsLive(s, from) && EndsLive(s, to) && x !in s.rels && y in s.rels
    ensures OldRelAfterInsert(s, s.rels[y], InsertRels(s, x, from, to, weight, tag)[y], y, x, from, to)
  {
  }

  lemma InsertOnNewRel(s: Store, x: RelId, from: NodeId, to: NodeId, weight: int, tag: nat)
    requires EndsLive(s, from) && EndsLive(s, to) && x !in s.rels
    ensures var r := InsertRels(s, x, from, to, weight, tag)[x];
      NewRelAfterInsert(s, r, x, from, to) && r.weight == weight && r.tag == tag
  {
  }

  lemma InsertKeys(s: Store, x: RelId, from: NodeId, to: NodeId, weight: int, tag: nat)
    requires EndsLive(s, from) && EndsLive(s, to)
    ensures var t := Insert(s, x, from, to, weight, tag);
      t.nodes.Keys == s.nodes.Keys && t.rels.Keys == s.rels.Keys + {x}
  {
  }

  lemma InsertOnFirsts(nodes: map<NodeId, Node>, from: NodeId, to: NodeId, x: RelId)
    requires from in nodes && to in nodes
    ensures var nodes' := SetFirstIfNone(SetFirstIfNone(nodes, from, x), to, x);
      forall n :: n in nodes ==>
        nodes'[n].first == if (n == from || n == to) && nodes[n].first.None? then Some(x) else nodes[n].first
  {
  }

  /** t is s with x linked in, said record by record. */
  ghost predicate Extended(s: Store, t: Store, x: RelId, from: NodeId, to: NodeId)
    requires EndsLive(s, from) && EndsLive(s, to)
  {
    && t.rels.Keys == s.rels.Keys + {x}
    && t.nodes.Keys == s.nodes.Keys
    && NewRelAfterInsert(s, t.rels[x], x, from, to)
    && (forall y :: y in s.rels ==> OldRelAfterInsert(s, s.rels[y], t.rels[y], y, x, from, to))
    && (forall n :: n in s.nodes ==>
      t.nodes[n].first == (if (n == from || n == to) && s.nodes[n].first.None? then Some(x) else s.nodes[n].first))
  }

  lemma InsertExtends(s: Store, x: RelId, from: NodeId, to: NodeId, weight: int, tag: nat)
    requires EndsLive(s, from) && EndsLive(s, to) && x !in s.rels
    ensures Extended(s, Insert(s, x, from, to, weight, tag), x, from, to)
  {
    var t := Insert(s, x, from, to, weight, tag);
    InsertOnNewRel(s, x, from, to, weight, tag);
    InsertKeys(s, x, from, to, weight, tag);
    InsertOnFirsts(s.nodes, from, to, x);
    forall y | y in s.rels ensures OldRelAfterInsert(s, s.rels[y], t.rels[y], y, x, from, to) {
      InsertOnOldRel(s, x, from, to, weight, tag, y);
    }
  }

  // ----- rings under insertion ----------------------------------------------------

  lemma ExtendedKeepsOtherRing(s: Store, t: Store, x: RelId, from: NodeId, to: NodeId, n: NodeId, q: seq<RelId>)
    requires EndsLive(s, from) && EndsLive(s, to) && x !in s.rels
    requires Extended(s, t, x, from, to)
    requires n in s.nodes && n != from && n != to && RingAt(s, n, q)
    ensures RingAt(t, n, q)
  {
    forall y | y in q
      ensures OldRelAfterInsert(s, s.rels[y], t.rels[y], y, x, from, to) && Incident(s.rels[y], n)
    {
    }
    forall y ensures y in q <==> y in t.rels && Incident(t.rels[y], n) {
      if y in s.rels {
        assert OldRelAfterInsert(s, s.rels[y], t.rels[y], y, x, from, to);
      }
    }
    assert Covers(t, n, q);
  }

  lemma ExtendedCovers(s: Store, t: Store, x: RelId, from: NodeId, to: NodeId, n: NodeId, q: seq<RelId>)
    requires EndsLive(s, from) && EndsLive(s, to) && x !in s.rels
    requires Extended(s, t, x, from, to)
    requires n in s.nodes && (n == from || n == to) && RingAt(s, n, q)
    ensures Covers(t, n, q + [x])
  {
    forall y ensures y in q + [x] <==> y in t.rels && Incident(t.rels[y], n) {
      if y in s.rels {
        assert OldRelAfterInsert(s, s.rels[y], t.rels[y], y, x, from, to);
      }
    }
  }

  lemma ExtendedAppends(s: Store, t: Store, x: RelId, from: NodeId, to: NodeId, n: NodeId, q: seq<RelId>)
    requires EndsLive(s, from) && EndsLive(s, to) && x !in s.rels
    requires Extended(s, t, x, from, to)
    requires n in s.nodes && (n == from || n == to) && RingAt(s, n, q)
    ensures RingAt(t, n, q + [x])
  {
    ExtendedCovers(s, t, x, from, to, n, q);
    forall i {:trigger Succ(i, |q + [x]|)} | 0 <= i < |q + [x]|
      ensures NextOf(t.rels[(q + [x])[i]], n) == (q + [x])[Succ(i, |q + [x]|)]
      ensures PrevOf(t.rels[(q + [x])[Succ(i, |q + [x]|)]], n) == (q + [x])[i]
    {
      ExtendedLink(s, t, x, from, to, n, q, i);
    }
  }

  lemma ExtendedLink(s: Store, t: Store, x: RelId, from: NodeId, to: NodeId, n: NodeId, q: seq<RelId>, i: nat)
    requires EndsLive(s, from) && EndsLive(s, to) && x !in s.rels
    requires Extended(s, t, x, from, to)
    requires n in s.nodes && (n == from || n == to) && RingAt(s, n, q) && i <= |q|
    ensures var q' := q + [x];
      && q'[i] in t.rels && q'[Succ(i, |q'|)] in t.rels
      && NextOf(t.rels[q'[i]], n) == q'[Succ(i, |q'|)] && PrevOf(t.rels[q'[Succ(i, |q'|)]], n) == q'[i]
  {
    var m := |q|;
    if m > 0 {
      assert Succ(m - 1, m) == 0;
    }
    if i < m {
      assert OldRelAfterInsert(s, s.rels[q[i]], t.rels[q[i]], q[i], x, from, to);
      if i < m - 1 {
        assert Succ(i, m) == i + 1;
        assert OldRelAfterInsert(s, s.rels[q[i + 1]], t.rels[q[i + 1]], q[i + 1], x, from, to);
      }
    } else if m > 0 {
      assert OldRelAfterInsert(s, s.rels[q[0]], t.rels[q[0]], q[0], x, from, to);
    }
  }

  lemma ExtendedKeepsRecords(s: Store, t: Store, x: RelId, from: NodeId, to: NodeId)
    requires EndpointsLive(s) && Coherent(s) && x !in s.rels
    requires EndsLive(s, from) && EndsLive(s, to) && Extended(s, t, x, from, to)
    ensures EndpointsLive(t) && Coherent(t)
  {
    forall y | y in t.rels
      ensures CoherentRel(t.rels[y]) && t.rels[y].source in t.nodes && t.rels[y].target in t.nodes
    {
      if y != x {
        assert OldRelAfterInsert(s, s.rels[y], t.rels[y], y, x, from, to);
      }
    }
  }

  lemma ExtendedKeepsRing(s: Store, t: Store, ring: map<NodeId, seq<RelId>>, x: RelId, from: NodeId, to: NodeId,
                          n: NodeId)
    requires Rings(s, ring) && x !in s.rels && n in s.nodes
    requires EndsLive(s, from) && EndsLive(s, to) && Extended(s, t, x, from, to)
    ensures RingAt(t, n, AppendRing(ring, from, to, x)[n])
  {
    assert RingAt(s, n, ring[n]);
    if n == from || n == to {
      ExtendedAppends(s, t, x, from, to, n, ring[n]);
    } else {
      ExtendedKeepsOtherRing(s, t, x, from, to, n, ring[n]);
    }
  }

  lemma ExtendedKeepsWellFormed(s: Store, t: Store, ring: map<NodeId, seq<RelId>>, x: RelId, from: NodeId, to: NodeId)
    requires WellFormed(s, ring) && x !in s.rels
    requires EndsLive(s, from) && EndsLive(s, to) && Extended(s, t, x, from, to)
    ensures WellFormed(t, AppendRing(ring, from, to, x))
  {
    var ring' := AppendRing(ring, from, to, x);
    assert EndpointsLive(t) && Coherent(t) by {
      ExtendedKeepsRecords(s, t, x, from, to);
    }
    forall n {:trigger ring'[n]} | n in t.nodes ensures RingAt(t, n, ring'[n]) {
      ExtendedKeepsRing(s, t, ring, x, from, to, n);
    }
  }

  /** Creation keeps every ring: the new relationship ends its endpoints' rings and touches no other. */
  lemma InsertKeepsWellFormed(s: Store, ring: map<NodeId, seq<RelId>>, x: RelId,
                              from: NodeId, to: NodeId, weight: int, tag: nat)
    requires WellFormed(s, ring) && x !in s.rels && from in s.nodes && to in s.nodes
    ensures EndsLive(s, from) && EndsLive(s, to)
    ensures WellFormed(Insert(s, x, from, to, weight, tag), AppendRing(ring, from, to, x))
  {
    RingEnds(s, ring, from);
    RingEnds(s, ring, to);
    InsertExtends(s, x, from, to, weight, tag);
    ExtendedKeepsWellFormed(s, Insert(s, x, from, to, weight, tag), ring, x, from, to);
  }

  // ----- removal ----------------------------------------------------------------

  predicate NeighboursLive(s: Store, x: RelId) {
    && x in s.rels
    && s.rels[x].prevS in s.rels && s.rels[x].nextS in s.rels
    && s.rels[x].prevT in s.rels && s.rels[x].nextT in s.rels
    && s.rels[x].source in s.nodes && s.rels[x].target in s.nodes
  }

  /** The records with the neighbours of r, on both its lists, pointed at each other. */
  function PatchedAround(rels: map<RelId, Rel>, r: Rel): (m: map<RelId, Rel>)
    requires r.prevS in rels && r.nextS in rels && r.prevT in rels && r.nextT in rels
    ensures m.Keys == rels.Keys
  {
    var m1 := rels[r.prevS := SetNext(rels[r.prevS], r.source, r.nextS)];
    var m2 := m1[r.nextS := SetPrev(m1[r.nextS], r.source, r.prevS)];
    var m3 := m2[r.prevT := SetNext(m2[r.prevT], r.target, r.nextT)];
    m3[r.nextT := SetPrev(m3[r.nextT], r.target, r.prevT)]
  }

  /** The neighbours are relinked only if x is not alone in its source's list. */
  function Relink(s: Store, x: RelId): (m: map<RelId, Rel>)
    requires NeighboursLive(s, x)
    ensures m.Keys == s.rels.Keys
  {
    if x == s.rels[x].prevS then s.rels else PatchedAround(s.rels, s.rels[x])
  }

  /** Advance `first` past x, or clear it when x was the only member. */
  function DropFirst(nodes: map<NodeId, Node>, n: NodeId, x: RelId, next: RelId): (nodes': map<NodeId, Node>)
    requires n in nodes
    ensures nodes'.Keys == nodes.Keys
  {
    if nodes[n].first == Some(x) then nodes[n := nodes[n].(first := if next == x then None else Some(next))]
    else nodes
  }

  function Remove(s: Store, x: RelId): Store
    requires NeighboursLive(s, x)
  {
    var r := s.rels[x];
    Store(DropFirst(DropFirst(s.nodes, r.source, x, r.nextS), r.target, x, r.nextT), Relink(s, x) - {x})
  }

  /** The states in which deletion relinks everything it has to: a caller can read this off the record. */
  predicate Removable(s: Store, x: RelId)
    requires x in s.rels
  {
    s.rels[x].prevS != x || s.rels[x].prevT == x
  }

  ghost function RemoveFromRings(ring: map<NodeId, seq<RelId>>, x: RelId): map<NodeId, seq<RelId>> {
    map n | n in ring :: Without(ring[n], x)
  }

  ghost predicate RelAfterRemove(rx: Rel, r: Rel, r': Rel, y: RelId) {
    && r'.source == r.source && r'.target == r.target && r'.weight == r.weight && r'.tag == r.tag
    && (CoherentRel(r) ==> CoherentRel(r'))
    && forall n :: Incident(r, n) ==>
      && NextOf(r', n) == (if Incident(rx, n) && y == PrevOf(rx, n) then NextOf(rx, n) else NextOf(r, n))
      && PrevOf(r', n) == (if Incident(rx, n) && y == NextOf(rx, n) then PrevOf(rx, n) else PrevOf(r, n))
  }

  /** t is s with x unlinked, said record by record. */
  ghost predicate Shrunk(s: Store, t: Store, x: RelId)
    requires x in s.rels
  {
    && t.rels.Keys == s.rels.Keys - {x}
    && t.nodes.Keys == s.nodes.Keys
    && (forall y :: y in t.rels ==> RelAfterRemove(s.rels[x], s.rels[y], t.rels[y], y))
    && (forall n :: n in s.nodes ==>
      t.nodes[n].first ==
        if Incident(s.rels[x], n) && s.nodes[n].first == Some(x)
        then (if NextOf(s.rels[x], n) == x then None else Some(NextOf(s.rels[x], n)))
        else s.nodes[n].first)
  }

  /** The four patches of one neighbour y of x, in order. */
  function PatchedRel(rx: Rel, r: Rel, y: RelId): Rel {
    var r1 := if y == rx.prevS then SetNext(r, rx.source, rx.nextS) else r;
    var r2 := if y == rx.nextS then SetPrev(r1, rx.source, rx.prevS) else r1;
    var r3 := if y == rx.prevT then SetNext(r2, rx.target, rx.nextT) else r2;
    if y == rx.nextT then SetPrev(r3, rx.target, rx.prevT) else r3
  }

  lemma PatchedRelLinks(rx: Rel, r: Rel, y: RelId)
    requires CoherentRel(rx)
    ensures RelAfterRemove(rx, r, PatchedRel(rx, r, y), y)
  {
    var r1 := if y == rx.prevS then SetNext(r, rx.source, rx.nextS) else r;
    var r2 := if y == rx.nextS then SetPrev(r1, rx.source, rx.prevS) else r1;
    var r3 := if y == rx.prevT then SetNext(r2, rx.target, rx.nextT) else r2;
    var r4 := if y == rx.nextT then SetPrev(r3, rx.target, rx.prevT) else r3;
    forall n | Incident(r, n)
      ensures NextOf(r4, n) == (if Incident(rx, n) && y == PrevOf(rx, n) then NextOf(rx, n) else NextOf(r, n))
      ensures PrevOf(r4, n) == (if Incident(rx, n) && y == NextOf(rx, n) then PrevOf(rx, n) else PrevOf(r, n))
    {
      assert NextOf(r2, n) == if y == rx.prevS && n == rx.source then rx.nextS else NextOf(r, n);
      assert PrevOf(r2, n) == if y == rx.nextS && n == rx.source then rx.prevS else PrevOf(r, n);
      assert NextOf(r4, n) == if y == rx.prevT && n == rx.target then rx.nextT else NextOf(r2, n);
      assert PrevOf(r4, n) == if y == rx.nextT && n == rx.target then rx.prevT else PrevOf(r2, n);
    }
  }

  lemma RelinkPatches(s: Store, x: RelId, y: RelId)
    requires NeighboursLive(s, x) && y in s.rels && s.rels[x].prevS != x
    ensures Relink(s, x)[y] == PatchedRel(s.rels[x], s.rels[y], y)
  {
  }

  lemma RelinkOnRel(s: Store, x: RelId, y: RelId)
    requires NeighboursLive(s, x) && CoherentRel(s.rels[x]) && Removable(s, x)
    requires s.rels[x].prevS == x ==> s.rels[x].nextS == x
    requires s.rels[x].prevT == x ==> s.rels[x].nextT == x
    requires y in s.rels && y != x
    ensures RelAfterRemove(s.rels[x], s.rels[y], Relink(s, x)[y], y)
  {
    if s.rels[x].prevS != x {
      RelinkPatches(s, x, y);
      PatchedRelLinks(s.rels[x], s.rels[y], y);
    }
  }

  lemma DropFirstPointwise(s: Store, x: RelId)
    requires NeighboursLive(s, x)
    ensures var t := Remove(s, x);
      && t.nodes.Keys == s.nodes.Keys
      && forall n :: n in s.nodes ==>
        t.nodes[n].first ==
          if Incident(s.rels[x], n) && s.nodes[n].first == Some(x)
          then (if NextOf(s.rels[x], n) == x then None else Some(NextOf(s.rels[x], n)))
          else s.nodes[n].first
  {
  }

  lemma RingAlone(s: Store, n: NodeId, q: seq<RelId>, x: RelId)
    requires n in s.nodes && RingAt(s, n, q) && x in q
    ensures PrevOf(s.rels[x], n) == x <==> q == [x]
    ensures NextOf(s.rels[x], n) == x <==> q == [x]
  {
    var i :| 0 <= i < |q| && q[i] == x;
    var j := if i == 0 then |q| - 1 else i - 1;
    assert Succ(j, |q|) == i;
    assert NextOf(s.rels[q[i]], n) == q[Succ(i, |q|)];
  }

  /** All four pointers of a live record lead to live records of the same rings. */
  lemma RecordNeighbours(s: Store, ring: map<NodeId, seq<RelId>>, x: RelId)
    requires Rings(s, ring) && x in s.rels && CoherentRel(s.rels[x])
    ensures NeighboursLive(s, x)
    ensures var r := s.rels[x];
      && (r.prevS == x <==> ring[r.source] == [x]) && (r.nextS == x <==> ring[r.source] == [x])
      && (r.prevT == x <==> ring[r.target] == [x]) && (r.nextT == x <==> ring[r.target] == [x])
      && x in ring[r.source] && x in ring[r.target]
  {
    var r := s.rels[x];
    assert RingAt(s, r.source, ring[r.source]) && RingAt(s, r.target, ring[r.target]);
    RingNeighbours(s, r.source, ring[r.source], x);
    RingNeighbours(s, r.target, ring[r.target], x);
    RingAlone(s, r.source, ring[r.source], x);
    RingAlone(s, r.target, ring[r.target], x);
  }

  lemma RemoveShrinks(s: Store, ring: map<NodeId, seq<RelId>>, x: RelId)
    requires Rings(s, ring) && x in s.rels && CoherentRel(s.rels[x]) && Removable(s, x)
    ensures NeighboursLive(s, x)
    ensures Shrunk(s, Remove(s, x), x)
  {
    RecordNeighbours(s, ring, x);
    DropFirstPointwise(s, x);
    var t := Remove(s, x);
    forall y | y in t.rels ensures RelAfterRemove(s.rels[x], s.rels[y], t.rels[y], y) {
      RelinkOnRel(s, x, y);
    }
  }

  // ----- rings under removal -----------------------------------------------------

  lemma ShrunkCovers(s: Store, t: Store, x: RelId, n: NodeId, q: seq<RelId>, q': seq<RelId>)
    requires x in s.rels && Shrunk(s, t, x) && n in s.nodes && RingAt(s, n, q)
    requires forall y :: y in q' <==> y in q && y != x
    ensures Covers(t, n, q')
  {
    forall y ensures y in q' <==> y in t.rels && Incident(t.rels[y], n) {
      if y in t.rels {
        assert RelAfterRemove(s.rels[x], s.rels[y], t.rels[y], y);
      }
    }
  }

  lemma ShrunkKeepsOtherRing(s: Store, t: Store, x: RelId, n: NodeId, q: seq<RelId>)
    requires x in s.rels && Shrunk(s, t, x) && n in s.nodes && RingAt(s, n, q)
    requires !Incident(s.rels[x], n)
    ensures RingAt(t, n, q)
  {
    ShrunkCovers(s, t, x, n, q, q);
    forall y | y in q ensures RelAfterRemove(s.rels[x], s.rels[y], t.rels[y], y) && Incident(s.rels[y], n) {
    }
  }

  /** Neighbours in a ring without its k-th member were neighbours before, or on either side of it. */
  lemma CutNeighbours(q: seq<RelId>, k: nat, i: nat) returns (a: nat, b: nat)
    requires k < |q| && i < |q| - 1
    ensures var q' := q[..k] + q[k + 1..];
      && a < |q| && b < |q| && a != k && b != k
      && q'[i] == q[a] && q'[Succ(i, |q'|)] == q[b]
      && if Succ(a, |q|) == k then b == Succ(k, |q|) else b == Succ(a, |q|)
  {
    a := if i < k then i else i + 1;
    var i' := Succ(i, |q| - 1);
    b := if i' < k then i' else i' + 1;
  }

  lemma ShrunkLinks(s: Store, t: Store, x: RelId, n: NodeId, q: seq<RelId>, k: nat, i: nat)
    requires x in s.rels && Shrunk(s, t, x) && n in s.nodes && RingAt(s, n, q)
    requires k < |q| && q[k] == x && i < |q| - 1
    ensures var q' := q[..k] + q[k + 1..];
      && q'[i] in t.rels && q'[Succ(i, |q'|)] in t.rels
      && NextOf(t.rels[q'[i]], n) == q'[Succ(i, |q'|)]
      && PrevOf(t.rels[q'[Succ(i, |q'|)]], n) == q'[i]
  {
    var a, b := CutNeighbours(q, k, i);
    assert q[a] != x && q[b] != x;
    ShrunkLink(s, t, x, n, q, k, a, b);
  }

  lemma ShrunkLink(s: Store, t: Store, x: RelId, n: NodeId, q: seq<RelId>, k: nat, a: nat, b: nat)
    requires x in s.rels && Shrunk(s, t, x) && n in s.nodes && RingAt(s, n, q)
    requires k < |q| && q[k] == x && a < |q| && b < |q| && a != k && b != k
    requires if Succ(a, |q|) == k then b == Succ(k, |q|) else b == Succ(a, |q|)
    ensures q[a] in t.rels && q[b] in t.rels
    ensures NextOf(t.rels[q[a]], n) == q[b] && PrevOf(t.rels[q[b]], n) == q[a]
  {
    assert q[a] in q && q[b] in q && q[a] != q[k] && q[b] != q[k];
    assert RelAfterRemove(s.rels[x], s.rels[q[a]], t.rels[q[a]], q[a]);
    assert RelAfterRemove(s.rels[x], s.rels[q[b]], t.rels[q[b]], q[b]);
    assert NextOf(s.rels[q[a]], n) == q[Succ(a, |q|)] && NextOf(s.rels[q[k]], n) == q[Succ(k, |q|)];
    RingNeighbours(s, n, q, x);
  }

  lemma ShrunkLinked(s: Store, t: Store, x: RelId, n: NodeId, q: seq<RelId>, k: nat)
    requires x in s.rels && Shrunk(s, t, x) && n in s.nodes && RingAt(s, n, q)
    requires k < |q| && q[k] == x
    requires forall y :: y in q[..k] + q[k + 1..] ==> y in t.rels
    ensures Linked(t, n, q[..k] + q[k + 1..])
  {
    var q' := q[..k] + q[k + 1..];
    forall i {:trigger Succ(i, |q'|)} | 0 <= i < |q'|
      ensures NextOf(t.rels[q'[i]], n) == q'[Succ(i, |q'|)]
      ensures PrevOf(t.rels[q'[Succ(i, |q'|)]], n) == q'[i]
    {
      ShrunkLinks(s, t, x, n, q, k, i);
    }
  }

  lemma ShrunkFirst(s: Store, t: Store, x: RelId, n: NodeId, q: seq<RelId>, k: nat)
    requires x in s.rels && Shrunk(s, t, x) && n in s.nodes && RingAt(s, n, q)
    requires Incident(s.rels[x], n) && k < |q| && q[k] == x
    ensures t.nodes[n].first == FirstOf(q[..k] + q[k + 1..])
  {
    assert NextOf(s.rels[q[k]], n) == q[Succ(k, |q|)];
    if k > 0 {
      assert q[0] != q[k];
    }
  }

  lemma ShrunkDrops(s: Store, t: Store, x: RelId, n: NodeId, q: seq<RelId>)
    requires x in s.rels && Shrunk(s, t, x) && n in s.nodes && RingAt(s, n, q)
    requires Incident(s.rels[x], n)
    ensures RingAt(t, n, Without(q, x))
  {
    var k :| 0 <= k < |q| && q[k] == x;
    WithoutAt(q, x, k);
    CutMembers(q, k);
    ShrunkCovers(s, t, x, n, q, q[..k] + q[k + 1..]);
    ShrunkLinked(s, t, x, n, q, k);
    ShrunkFirst(s, t, x, n, q, k);
  }

  // ----- what deletion does to the records, in every state ----------------------------

  predicate NeighbourOf(r: Rel, y: RelId) {
    y == r.prevS || y == r.nextS || y == r.prevT || y == r.nextT
  }

  /** All records but x's neighbours are as they were; if x precedes itself at its source, so are its neighbours. */
  ghost predicate OnlyNeighboursChange(rels: map<RelId, Rel>, rels': map<RelId, Rel>, x: RelId)
    requires x in rels
  {
    && SamePayload(rels - {x}, rels')
    && (forall y {:trigger rels'[y]} :: y in rels && y != x && !NeighbourOf(rels[x], y) ==> rels'[y] == rels[y])
    && (rels[x].prevS == x ==> rels' == rels - {x})
  }

  /** Labels stay, and only a list that started with x starts anew: with the next one, or not at all. */
  ghost predicate FirstsAdvance(s: Store, nodes': map<NodeId, Node>, x: RelId)
    requires x in s.rels
  {
    && SameTags(s.nodes, nodes')
    && forall n :: n in s.nodes ==>
      nodes'[n].first ==
        if Incident(s.rels[x], n) && s.nodes[n].first == Some(x)
        then (if NextOf(s.rels[x], n) == x then None else Some(NextOf(s.rels[x], n)))
        else s.nodes[n].first
  }

  lemma PatchedPayload(rels: map<RelId, Rel>, r: Rel, y: RelId)
    requires r.prevS in rels && r.nextS in rels && r.prevT in rels && r.nextT in rels && y in rels
    ensures var r' := PatchedAround(rels, r)[y];
      && r'.source == rels[y].source && r'.target == rels[y].target
      && r'.weight == rels[y].weight && r'.tag == rels[y].tag
      && (!NeighbourOf(r, y) ==> r' == rels[y])
  {
  }

  lemma RemoveTouches(s: Store, x: RelId)
    requires NeighboursLive(s, x)
    ensures OnlyNeighboursChange(s.rels, Remove(s, x).rels, x) && FirstsAdvance(s, Remove(s, x).nodes, x)
  {
    DropFirstPointwise(s, x);
    RemoveKeepsTags(s, x);
    if s.rels[x].prevS != x {
      var t := Remove(s, x);
      forall y {:trigger t.rels[y]} | y in s.rels && y != x
        ensures t.rels[y].source == s.rels[y].source && t.rels[y].target == s.rels[y].target
        ensures t.rels[y].weight == s.rels[y].weight && t.rels[y].tag == s.rels[y].tag
        ensures !NeighbourOf(s.rels[x], y) ==> t.rels[y] == s.rels[y]
      {
        PatchedPayload(s.rels, s.rels[x], y);
      }
    }
  }

  /** Deletion removes x from both its rings, keeps the order of the rest and touches no other ring. */
  lemma RemoveKeepsWellFormed(s: Store, ring: map<NodeId, seq<RelId>>, x: RelId)
    requires WellFormed(s, ring) && x in s.rels && Removable(s, x)
    ensures NeighboursLive(s, x)
    ensures WellFormed(Remove(s, x), RemoveFromRings(ring, x))
  {
    RemoveShrinks(s, ring, x);
    ShrunkKeepsRings(s, Remove(s, x), ring, x);
    ShrunkKeepsRecords(s, Remove(s, x), x);
  }

  lemma ShrunkKeepsRing(s: Store, t: Store, ring: map<NodeId, seq<RelId>>, x: RelId, n: NodeId)
    requires Rings(s, ring) && x in s.rels && Shrunk(s, t, x) && n in s.nodes
    ensures RingAt(t, n, Without(ring[n], x))
  {
    assert RingAt(s, n, ring[n]);
    if Incident(s.rels[x], n) {
      ShrunkDrops(s, t, x, n, ring[n]);
    } else {
      WithoutAbsent(ring[n], x);
      ShrunkKeepsOtherRing(s, t, x, n, ring[n]);
    }
  }

  lemma ShrunkKeepsRecords(s: Store, t: Store, x: RelId)
    requires EndpointsLive(s) && x in s.rels && Shrunk(s, t, x)
    ensures EndpointsLive(t) && (Coherent(s) ==> Coherent(t))
  {
    forall y | y in t.rels
      ensures (CoherentRel(s.rels[y]) ==> CoherentRel(t.rels[y]))
        && t.rels[y].source in t.nodes && t.rels[y].target in t.nodes
    {
      assert RelAfterRemove(s.rels[x], s.rels[y], t.rels[y], y);
    }
  }

  lemma ShrunkKeepsRings(s: Store, t: Store, ring: map<NodeId, seq<RelId>>, x: RelId)
    requires Rings(s, ring) && x in s.rels && Shrunk(s, t, x)
    ensures Rings(t, RemoveFromRings(ring, x))
  {
    assert EndpointsLive(t) by {
      ShrunkKeepsRecords(s, t, x);
    }
    forall n {:trigger RemoveFromRings(ring, x)[n]} | n in t.nodes ensures RingAt(t, n, RemoveFromRings(ring, x)[n]) {
      ShrunkKeepsRing(s, t, ring, x, n);
    }
  }

  /** A live record still points at x: no ring can exist round its node. */
  lemma DanglingBreaksRings(t: Store, n: NodeId, p: RelId, x: RelId, ring: map<NodeId, seq<RelId>>)
    requires p in t.rels && Incident(t.rels[p], n) && NextOf(t.rels[p], n) == x && x !in t.rels
    ensures !Rings(t, ring)
  {
    if Rings(t, ring) {
      assert RingAt(t, n, ring[n]);
      RingNeighbours(t, n, ring[n], p);
      assert false;
    }
  }

  /**
   When x is alone in its source's list but not in its target's, the neighbours
   in the target's list keep pointing at the dead record.
   */
  lemma RemoveDangles(s: Store, ring: map<NodeId, seq<RelId>>, x: RelId) returns (n: NodeId, p: RelId)
    requires Rings(s, ring) && x in s.rels && CoherentRel(s.rels[x]) && !Removable(s, x)
    ensures NeighboursLive(s, x)
    ensures var t := Remove(s, x);
      p in t.rels && Incident(t.rels[p], n) && NextOf(t.rels[p], n) == x && x !in t.rels
  {
    RecordNeighbours(s, ring, x);
    n := s.rels[x].target;
    assert RingAt(s, n, ring[n]);
    RingNeighbours(s, n, ring[n], x);
    p := PrevOf(s.rels[x], n);
  }

  ghost predicate HasRings(s: Store) {
    exists ring :: Rings(s, ring)
  }

  /** Deletion leaves rings exactly when x is removable; the sides of other self-loops need not agree. */
  lemma RemoveRingsIff(s: Store, ring: map<NodeId, seq<RelId>>, x: RelId)
    requires Rings(s, ring) && x in s.rels && CoherentRel(s.rels[x])
    ensures NeighboursLive(s, x)
    ensures HasRings(Remove(s, x)) <==> Removable(s, x)
    ensures Removable(s, x) ==> Rings(Remove(s, x), RemoveFromRings(ring, x))
  {
    if Removable(s, x) {
      RemoveShrinks(s, ring, x);
      ShrunkKeepsRings(s, Remove(s, x), ring, x);
    } else {
      var n, p := RemoveDangles(s, ring, x);
      forall ring' ensures !Rings(Remove(s, x), ring') {
        DanglingBreaksRings(Remove(s, x), n, p, x, ring');
      }
    }
  }

  /** Deletion leaves a ring store exactly when x is removable. */
  lemma RemoveCorrectIff(s: Store, ring: map<NodeId, seq<RelId>>, x: RelId)
    requires WellFormed(s, ring) && x in s.rels
    ensures NeighboursLive(s, x)
    ensures HasRings(Remove(s, x)) <==> Removable(s, x)
  {
    assert CoherentRel(s.rels[x]);
    RemoveRingsIff(s, ring, x);
  }

  /** Removability in terms of the rings: x has company at its source, or none at its target. */
  lemma RemovableByRings(s: Store, ring: map<NodeId, seq<RelId>>, x: RelId)
    requires WellFormed(s, ring) && x in s.rels
    ensures Removable(s, x) <==> |ring[s.rels[x].source]| > 1 || |ring[s.rels[x].target]| == 1
  {
    RecordNeighbours(s, ring, x);
  }

  // ----- removing what was just inserted --------------------------------------------

  /** A new relationship can be deleted cleanly if its source had others before, or its target had none. */
  lemma InsertedRemovableIff(s: Store, ring: map<NodeId, seq<RelId>>, x: RelId,
                             from: NodeId, to: NodeId, weight: int, tag: nat)
    requires WellFormed(s, ring) && x !in s.rels && from in s.nodes && to in s.nodes
    ensures EndsLive(s, from) && EndsLive(s, to)
    ensures var t := Insert(s, x, from, to, weight, tag);
      x in t.rels && (Removable(t, x) <==> ring[from] != [] || ring[to] == [])
  {
    InsertKeepsWellFormed(s, ring, x, from, to, weight, tag);
    InsertExtends(s, x, from, to, weight, tag);
    RemovableByRings(Insert(s, x, from, to, weight, tag), AppendRing(ring, from, to, x), x);
  }

  lemma RingsUndone(ring: map<NodeId, seq<RelId>>, x: RelId, from: NodeId, to: NodeId)
    requires forall n :: n in ring ==> x !in ring[n]
    ensures RemoveFromRings(AppendRing(ring, from, to, x), x) == ring
  {
    var ring' := AppendRing(ring, from, to, x);
    forall n | n in ring ensures Without(ring'[n], x) == ring[n] {
      WithoutAbsent(ring[n], x);
      if n == from || n == to {
        WithoutLast(ring[n], x);
      }
    }
  }

  lemma InsertKeepsTags(s: Store, x: RelId, from: NodeId, to: NodeId, weight: int, tag: nat)
    requires EndsLive(s, from) && EndsLive(s, to)
    ensures SameTags(s.nodes, Insert(s, x, from, to, weight, tag).nodes)
  {
  }

  lemma RemoveKeepsTags(s: Store, x: RelId)
    requires NeighboursLive(s, x)
    ensures SameTags(s.nodes, Remove(s, x).nodes)
  {
  }

  lemma TagsTransitive(a: map<NodeId, Node>, b: map<NodeId, Node>, c: map<NodeId, Node>)
    requires SameTags(a, b) && SameTags(b, c)
    ensures SameTags(a, c)
  {
    forall n {:trigger c[n]} | n in a ensures c[n].tag == a[n].tag {
      assert b[n].tag == a[n].tag;
    }
  }

  /** What the two steps leave of the records that were there. */
  lemma PayloadUndone(s: Store, t: Store, u: Store, x: RelId, from: NodeId, to: NodeId)
    requires EndsLive(s, from) && EndsLive(s, to) && x !in s.rels && Extended(s, t, x, from, to) && Shrunk(t, u, x)
    ensures SamePayload(s.rels, u.rels)
  {
    assert u.rels.Keys == s.rels.Keys;
    forall y {:trigger u.rels[y]} | y in s.rels
      ensures u.rels[y].source == s.rels[y].source && u.rels[y].target == s.rels[y].target
      ensures u.rels[y].weight == s.rels[y].weight && u.rels[y].tag == s.rels[y].tag
    {
      assert OldRelAfterInsert(s, s.rels[y], t.rels[y], y, x, from, to);
      assert RelAfterRemove(t.rels[x], t.rels[y], u.rels[y], y);
    }
  }

  lemma InsertThenRemovePayload(s: Store, ring: map<NodeId, seq<RelId>>, x: RelId,
                                from: NodeId, to: NodeId, weight: int, tag: nat)
    requires WellFormed(s, ring) && x !in s.rels && from in s.nodes && to in s.nodes
    requires ring[from] != [] || ring[to] == []
    ensures EndsLive(s, from) && EndsLive(s, to)
    ensures var t := Insert(s, x, from, to, weight, tag);
      && NeighboursLive(t, x)
      && SamePayload(s.rels, Remove(t, x).rels) && SameTags(s.nodes, Remove(t, x).nodes)
  {
    InsertKeepsWellFormed(s, ring, x, from, to, weight, tag);
    InsertedRemovableIff(s, ring, x, from, to, weight, tag);
    var t := Insert(s, x, from, to, weight, tag);
    RemoveShrinks(t, AppendRing(ring, from, to, x), x);
    InsertExtends(s, x, from, to, weight, tag);
    PayloadUndone(s, t, Remove(t, x), x, from, to);
    InsertKeepsTags(s, x, from, to, weight, tag);
    RemoveKeepsTags(t, x);
    TagsTransitive(s.nodes, t.nodes, Remove(t, x).nodes);
  }

  /**
   Creating a relationship and deleting it again restores the store, record by
   record, whenever the deletion is clean.
   */
  lemma InsertThenRemove(s: Store, ring: map<NodeId, seq<RelId>>, x: RelId,
                         from: NodeId, to: NodeId, weight: int, tag: nat)
    requires WellFormed(s, ring) && x !in s.rels && from in s.nodes && to in s.nodes
    ensures EndsLive(s, from) && EndsLive(s, to)
    ensures var t := Insert(s, x, from, to, weight, tag);
      NeighboursLive(t, x) && (Remove(t, x) == s <==> ring[from] != [] || ring[to] == [])
  {
    InsertKeepsWellFormed(s, ring, x, from, to, weight, tag);
    var t, ring' := Insert(s, x, from, to, weight, tag), AppendRing(ring, from, to, x);
    InsertedRemovableIff(s, ring, x, from, to, weight, tag);
    if ring[from] != [] || ring[to] == [] {
      RemoveKeepsWellFormed(t, ring', x);
      forall n | n in ring ensures x !in ring[n] {
        assert RingAt(s, n, ring[n]);
      }
      RingsUndone(ring, x, from, to);
      InsertThenRemovePayload(s, ring, x, from, to, weight, tag);
      StoreDetermined(s, Remove(t, x), ring);
    } else {
      RemoveCorrectIff(t, ring', x);
      assert Rings(s, ring);
    }
  }
}
