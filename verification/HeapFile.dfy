/**
 The heap file: nodes and relationships kept as records in two slot files.
 Relationship records are read into private copies, the copies are patched, and
 every changed copy is written back.
 */
module HeapFile {
  import opened Graph
  import opened Linking
  import opened Slots

  /** What a fresh record holds in its pointer fields. */
  const UNINITIALIZED: nat := 0xFFFFFFFFFFFFF666

  /** A relationship record read out of the file into memory. */
  class RelCopy {
    const id: RelId
    var rec: Rel

    constructor (id: RelId, rec: Rel)
      ensures this.id == id && this.rec == rec
    {
      this.id := id;
      this.rec := rec;
    }
  }

  /** No two copies of the same record are being worked on. */
  ghost predicate OneCopyEach(cs: set<RelCopy>) {
    forall c, d :: c in cs && d in cs && c.id == d.id ==> c == d
  }

  /** The copies hold what the store m holds for their ids. */
  ghost predicate Synced(cs: set<RelCopy>, m: map<RelId, Rel>)
    reads cs
  {
    forall c :: c in cs ==> c.id in m && c.rec == m[c.id]
  }

  /** `log` lists the records written since `before`, each once, and they now hold what m holds. */
  ghost predicate Logged(before: map<RelId, Rel>, after: map<RelId, Rel>, m: map<RelId, Rel>, log: seq<RelId>) {
    && Distinct(log)
    && (forall y :: y in log ==> y in m && y in after && after[y] == m[y])
    && (forall y :: y in before ==> y in after && (y !in log ==> after[y] == before[y]))
    && (forall y :: y in after ==> y in before || y in log)
  }

  ghost function AppendIf(yes: bool, log: seq<RelId>, y: RelId): (log': seq<RelId>)
    ensures forall z :: z in log' <==> z in log || (yes && z == y)
  {
    if yes then log + [y] else log
  }

  method PatchNext(c: RelCopy, n: NodeId, id: RelId, ghost cs: set<RelCopy>, ghost m: map<RelId, Rel>)
    requires OneCopyEach(cs) && Synced(cs, m) && c in cs
    modifies c
    ensures Synced(cs, m[c.id := SetNext(m[c.id], n, id)])
  {
    if c.rec.source == n {
      c.rec := c.rec.(nextS := id);
    }
    if c.rec.target == n {
      c.rec := c.rec.(nextT := id);
    }
  }

  method PatchPrev(c: RelCopy, n: NodeId, id: RelId, ghost cs: set<RelCopy>, ghost m: map<RelId, Rel>)
    requires OneCopyEach(cs) && Synced(cs, m) && c in cs
    modifies c
    ensures Synced(cs, m[c.id := SetPrev(m[c.id], n, id)])
  {
    if c.rec.source == n {
      c.rec := c.rec.(prevS := id);
    }
    if c.rec.target == n {
      c.rec := c.rec.(prevT := id);
    }
  }

  /** The two slot files are apart, in order, and have exactly these records. */
  ghost predicate StoredIn(nodeSlots: SlotFile, relSlots: SlotFile, nodes: set<NodeId>, rels: set<RelId>)
    reads nodeSlots, relSlots
  {
    && nodeSlots != relSlots
    && nodeSlots.Valid() && nodeSlots.stride == NODE_STRIDE
    && relSlots.Valid() && relSlots.stride == REL_STRIDE
    && nodeSlots.used == nodes && relSlots.used == rels
  }

  class HeapFile {
    const nodeSlots: SlotFile
    const relSlots: SlotFile
    var nodes: map<NodeId, Node>
    var rels: map<RelId, Rel>
    var nNodes: int
    var nRels: int
    var relUpdates: nat   // relationship records written back so far

    ghost function Contents(): Store
      reads this`nodes, this`rels
    {
      Store(nodes, rels)
    }

    /** Records exist exactly where slots are taken. */
    ghost predicate Stored()
      reads this`nodes, this`rels, nodeSlots, relSlots
    {
      StoredIn(nodeSlots, relSlots, nodes.Keys, rels.Keys)
    }

    /** Stored, and the pointers of every node form the ring that `ring` names. */
    ghost predicate Valid(ring: map<NodeId, seq<RelId>>)
      reads this`nodes, this`rels, nodeSlots, relSlots
    {
      Stored() && WellFormed(Contents(), ring)
    }

    /** The counters count the records; every creation and deletion moves them by one. */
    ghost predicate Counted()
      reads this
    {
      nNodes == |nodes| && nRels == |rels|
    }

    constructor ()
      ensures Valid(map[]) && Counted() && Contents() == Store(map[], map[])
      ensures fresh(nodeSlots) && fresh(relSlots)
      ensures nodeSlots.NoGapBelowLast() && relSlots.NoGapBelowLast()
    {
      nodeSlots := new SlotFile(NODE_STRIDE);
      relSlots := new SlotFile(REL_STRIDE);
      nodes, rels := map[], map[];
      nNodes, nRels, relUpdates := 0, 0, 0;
    }

    method ReadRelationship(id: RelId) returns (c: RelCopy)
      requires id in rels
      ensures fresh(c) && c.id == id && c.rec == rels[id]
    {
      c := new RelCopy(id, rels[id]);
    }

    method CreateNode(tag: nat, ghost ring: map<NodeId, seq<RelId>>) returns (n: NodeId)
      requires Valid(ring)
      modifies this, nodeSlots
      ensures Valid(ring[n := []])
      ensures n !in old(nodes) && nodes == old(nodes)[n := Node(None, tag)] && rels == old(rels)
      ensures old(nodeSlots.NoGapBelowLast()) ==>
        nodeSlots.NoGapBelowLast() && forall j: nat :: j < n ==> j in old(nodes)
      ensures relUpdates == old(relUpdates) && nNodes == old(nNodes) + 1 && nRels == old(nRels)
    {
      n := nodeSlots.NextFreeSlots();
      NewNodeKeepsWellFormed(Contents(), ring, n, tag);
      nodes := nodes[n := Node(None, tag)];
      nNodes := nNodes + 1;
    }

    /**
     The ends of the lists of rel's endpoints, one copy per distinct record;
     an empty list has rel itself at both ends.
     */
    method LoadEnds(rel: RelCopy, from: NodeId, to: NodeId)
      returns (firstFrom: RelCopy, lastFrom: RelCopy, firstTo: RelCopy, lastTo: RelCopy)
      requires EndsLive(Contents(), from) && EndsLive(Contents(), to)
      requires rel.id !in rels
      ensures firstFrom.id == FirstIn(Contents(), from, rel.id) && lastFrom.id == LastIn(Contents(), from, rel.id)
      ensures firstTo.id == FirstIn(Contents(), to, rel.id) && lastTo.id == LastIn(Contents(), to, rel.id)
      ensures forall c :: c in {firstFrom, lastFrom, firstTo, lastTo} ==>
        c == rel || (fresh(c) && c.id in rels && c.rec == rels[c.id])
      ensures OneCopyEach({rel, firstFrom, lastFrom, firstTo, lastTo})
    {
      if nodes[from].first == None {
        lastFrom, firstFrom := rel, rel;
      } else {
        firstFrom := ReadRelationship(nodes[from].first.value);
        var temp := if from == firstFrom.rec.source then firstFrom.rec.prevS else firstFrom.rec.prevT;
        if temp == nodes[from].first.value {
          lastFrom := firstFrom;
        } else {
          lastFrom := ReadRelationship(temp);
        }
      }
      if nodes[to].first == None {
        lastTo, firstTo := rel, rel;
      } else {
        var first := nodes[to].first.value;
        if first == firstFrom.id {
          firstTo := firstFrom;
        } else if first == lastFrom.id {
          firstTo := lastFrom;
        } else {
          firstTo := ReadRelationship(first);
        }
        var temp := if to == firstTo.rec.source then firstTo.rec.prevS else firstTo.rec.prevT;
        if temp == firstFrom.id {
          lastTo := firstFrom;
        } else if temp == lastFrom.id {
          lastTo := lastFrom;
        } else if temp == first {
          lastTo := firstTo;
        } else {
          lastTo := ReadRelationship(temp);
        }
      }
    }

    /** Write back one copy, if asked to, whose record has not been written yet. */
    method UpdateIf(write: bool, c: RelCopy, ghost before: map<RelId, Rel>, ghost m: map<RelId, Rel>,
                    ghost log: seq<RelId>)
      returns (ghost log': seq<RelId>)
      requires Logged(before, rels, m, log)
      requires write ==> c.id !in log && c.id in m && c.rec == m[c.id]
      modifies this`rels, this`relUpdates
      ensures log' == AppendIf(write, log, c.id) && Logged(before, rels, m, log')
      ensures relUpdates + |log| == old(relUpdates) + |log'|
    {
      log' := log;
      if write {
        rels := rels[c.id := c.rec];
        relUpdates := relUpdates + 1;
        log' := log + [c.id];
      }
    }

    /**
     Write four possibly shared copies back, each record once. `rel` is held by
     the caller and skipped here.
     */
    method WriteBack(rel: RelCopy, a: RelCopy, b: RelCopy, c: RelCopy, d: RelCopy, ghost m: map<RelId, Rel>)
      returns (ghost log: seq<RelId>)
      requires OneCopyEach({a, b, c, d}) && Synced({a, b, c, d}, m)
      modifies this`rels, this`relUpdates
      ensures Logged(old(rels), rels, m, log) && log == Batch(rel, a, b, c, d)
      ensures relUpdates == old(relUpdates) + |log|
    {
      ghost var before, cs := rels, {a, b, c, d};
      assert a in cs && b in cs && c in cs && d in cs;
      ghost var log1 := UpdateIf(a != rel && a != b && a != c && a != d, a, before, m, []);
      ghost var log2 := UpdateIf(b != rel && b != c && b != d, b, before, m, log1);
      ghost var log3 := UpdateIf(c != rel && c != d, c, before, m, log2);
      log := UpdateIf(d != rel, d, before, m, log3);
    }

    /** Patch the list ends of both endpoints to meet the new record. */
    method PatchEnds(rel: RelCopy, firstFrom: RelCopy, lastFrom: RelCopy, firstTo: RelCopy, lastTo: RelCopy,
                     from: NodeId, to: NodeId, weight: int, tag: nat)
      returns (ghost m: map<RelId, Rel>)
      requires EndsLive(Contents(), from) && EndsLive(Contents(), to) && rel.id !in rels
      requires firstFrom.id == FirstIn(Contents(), from, rel.id) && lastFrom.id == LastIn(Contents(), from, rel.id)
      requires firstTo.id == FirstIn(Contents(), to, rel.id) && lastTo.id == LastIn(Contents(), to, rel.id)
      requires forall c :: c in {firstFrom, lastFrom, firstTo, lastTo} ==>
        c == rel || (c.id in rels && c.rec == rels[c.id])
      requires OneCopyEach({rel, firstFrom, lastFrom, firstTo, lastTo})
      requires rel.rec.source == from && rel.rec.target == to && rel.rec.weight == weight && rel.rec.tag == tag
      modifies rel, firstFrom, lastFrom, firstTo, lastTo
      ensures m == InsertRels(Contents(), rel.id, from, to, weight, tag)
      ensures Synced({rel, firstFrom, lastFrom, firstTo, lastTo}, m)
    {
      rel.rec := rel.rec.(prevS := lastFrom.id, nextS := firstFrom.id, prevT := lastTo.id, nextT := firstTo.id);
      ghost var m0: map<RelId, Rel> := rels[rel.id := rel.rec];
      m := PatchCopies(rel.id, firstFrom, lastFrom, firstTo, lastTo, from, to,
                       {rel, firstFrom, lastFrom, firstTo, lastTo}, m0);
    }

    /** Point the copies of the list ends at x. */
    method PatchCopies(x: RelId, firstFrom: RelCopy, lastFrom: RelCopy, firstTo: RelCopy, lastTo: RelCopy,
                       from: NodeId, to: NodeId, ghost cs: set<RelCopy>, ghost m0: map<RelId, Rel>)
      returns (ghost m: map<RelId, Rel>)
      requires OneCopyEach(cs) && Synced(cs, m0) && {firstFrom, lastFrom, firstTo, lastTo} <= cs
      modifies firstFrom, lastFrom, firstTo, lastTo
      ensures firstFrom.id in m0 && lastFrom.id in m0 && firstTo.id in m0 && lastTo.id in m0
      ensures m == LinkEnds(m0, x, from, to, firstFrom.id, lastFrom.id, firstTo.id, lastTo.id)
      ensures Synced(cs, m)
    {
      PatchNext(lastFrom, from, x, cs, m0);
      ghost var m1: map<RelId, Rel> := m0[lastFrom.id := SetNext(m0[lastFrom.id], from, x)];
      PatchNext(lastTo, to, x, cs, m1);
      ghost var m2: map<RelId, Rel> := m1[lastTo.id := SetNext(m1[lastTo.id], to, x)];
      PatchPrev(firstFrom, from, x, cs, m2);
      ghost var m3: map<RelId, Rel> := m2[firstFrom.id := SetPrev(m2[firstFrom.id], from, x)];
      PatchPrev(firstTo, to, x, cs, m3);
      m := m3[firstTo.id := SetPrev(m3[firstTo.id], to, x)];
    }

    /** Point the endpoints at x where their lists were empty; both node copies were read beforehand. */
    method UpdateFirsts(from: NodeId, to: NodeId, x: RelId)
      requires from in nodes && to in nodes
      modifies this`nodes
      ensures nodes == SetFirstIfNone(SetFirstIfNone(old(nodes), from, x), to, x)
    {
      var fromNode, toNode := nodes[from], nodes[to];
      if fromNode.first == None {
        nodes := nodes[from := fromNode.(first := Some(x))];
      }
      if toNode.first == None {
        nodes := nodes[to := toNode.(first := Some(x))];
      }
    }

    /**
     Create a relationship. The result is the in-place insertion on the whole
     store: each distinct neighbour was patched in one copy and written once.
     */
    method CreateRelationship(from: NodeId, to: NodeId, weight: int, tag: nat, ghost ring: map<NodeId, seq<RelId>>)
      returns (x: RelId)
      requires Valid(ring) && from in nodes && to in nodes
      modifies this, relSlots
      ensures x !in old(rels) && Valid(AppendRing(ring, from, to, x))
      ensures EndsLive(old(Contents()), from) && EndsLive(old(Contents()), to)
      ensures Contents() == Insert(old(Contents()), x, from, to, weight, tag)
      ensures Aligned(x, REL_STRIDE)
      ensures old(relSlots.NoGapBelowLast()) ==>
        relSlots.NoGapBelowLast() && forall j: nat :: j < x && Aligned(j, REL_STRIDE) ==> j in old(rels)
      ensures nRels == old(nRels) + 1 && nNodes == old(nNodes)
    {
      ghost var s := Contents();
      assert EndsLive(s, from) && EndsLive(s, to) by {
        RingEnds(s, ring, from);
        RingEnds(s, ring, to);
      }
      ghost var log;
      x, log := StoreRelationship(from, to, weight, tag);
      assert WellFormed(Contents(), AppendRing(ring, from, to, x)) by {
        InsertKeepsWellFormed(s, ring, x, from, to, weight, tag);
      }
    }

    /** The steps of creation, on any store whose list ends can be followed. */
    method StoreRelationship(from: NodeId, to: NodeId, weight: int, tag: nat)
      returns (x: RelId, ghost log: seq<RelId>)
      requires Stored() && EndsLive(Contents(), from) && EndsLive(Contents(), to)
      modifies this, relSlots
      ensures Stored() && x !in old(rels)
      ensures Contents() == Insert(old(Contents()), x, from, to, weight, tag)
      ensures Aligned(x, REL_STRIDE)
      ensures old(relSlots.NoGapBelowLast()) ==>
        relSlots.NoGapBelowLast() && forall j: nat :: j < x && Aligned(j, REL_STRIDE) ==> j in old(rels)
      ensures Distinct(log) && relUpdates == old(relUpdates) + |log| + 1
      ensures forall y :: y in log <==> y in EndIds(old(Contents()), x, from, to) && y != x
      ensures nRels == old(nRels) + 1 && nNodes == old(nNodes)
    {
      x := relSlots.NextFreeSlots();
      var rel := new RelCopy(x, Rel(from, to, UNINITIALIZED, UNINITIALIZED, UNINITIALIZED, UNINITIALIZED, weight, tag));
      InsertTouches(Contents(), x, from, to, weight, tag);
      log := LinkRecord(rel, from, to, weight, tag);
      nRels := nRels + 1;
    }

    /** Find, patch and write the neighbours of a new record, then the record itself. */
    method LinkRecord(rel: RelCopy, from: NodeId, to: NodeId, weight: int, tag: nat) returns (ghost log: seq<RelId>)
      requires EndsLive(Contents(), from) && EndsLive(Contents(), to) && rel.id !in rels
      requires rel.rec.source == from && rel.rec.target == to && rel.rec.weight == weight && rel.rec.tag == tag
      modifies rel, this`nodes, this`rels, this`relUpdates
      ensures Contents() == Insert(old(Contents()), rel.id, from, to, weight, tag)
      ensures Distinct(log) && relUpdates == old(relUpdates) + |log| + 1
      ensures forall y :: y in log <==> y in EndIds(old(Contents()), rel.id, from, to) && y != rel.id
    {
      ghost var s := Contents();
      var firstFrom, lastFrom, firstTo, lastTo;
      ghost var m;
      firstFrom, lastFrom, firstTo, lastTo, m := PatchedEnds(rel, from, to, weight, tag);
      UpdateFirsts(from, to, rel.id);
      InsertTouches(s, rel.id, from, to, weight, tag);
      assert rels == s.rels;
      log := WriteAll(rel, firstFrom, lastFrom, firstTo, lastTo, m, EndIds(s, rel.id, from, to));
    }

    /** Write back the copies of old records, then the new record. */
    method WriteAll(rel: RelCopy, a: RelCopy, b: RelCopy, c: RelCopy, d: RelCopy, ghost m: map<RelId, Rel>,
                    ghost ids: set<RelId>)
      returns (ghost log: seq<RelId>)
      requires OneCopyEach({rel, a, b, c, d}) && Synced({rel, a, b, c, d}, m)
      requires rel.id !in rels && m.Keys == rels.Keys + {rel.id}
      requires {a.id, b.id, c.id, d.id} == ids && forall y :: y in rels && y !in ids ==> m[y] == rels[y]
      modifies this`rels, this`relUpdates
      ensures rels == m
      ensures Distinct(log) && relUpdates == old(relUpdates) + |log| + 1
      ensures forall y :: y in log <==> y in ids && y != rel.id
    {
      ghost var before := rels;
      log := WriteBack(rel, a, b, c, d, m);
      LogHasEnds(rel, a, b, c, d, log, ids);
      AllWritten(before, rels, m, log, rel.id);
      rels := rels[rel.id := rel.rec];
      relUpdates := relUpdates + 1;
    }

    /** Copies of the list ends, patched to meet the new record, which is patched as well. */
    method PatchedEnds(rel: RelCopy, from: NodeId, to: NodeId, weight: int, tag: nat)
      returns (firstFrom: RelCopy, lastFrom: RelCopy, firstTo: RelCopy, lastTo: RelCopy, ghost m: map<RelId, Rel>)
      requires EndsLive(Contents(), from) && EndsLive(Contents(), to) && rel.id !in rels
      requires rel.rec.source == from && rel.rec.target == to && rel.rec.weight == weight && rel.rec.tag == tag
      modifies rel
      ensures {firstFrom.id, lastFrom.id, firstTo.id, lastTo.id} == EndIds(old(Contents()), rel.id, from, to)
      ensures OneCopyEach({rel, firstFrom, lastFrom, firstTo, lastTo})
      ensures m == InsertRels(old(Contents()), rel.id, from, to, weight, tag)
      ensures Synced({rel, firstFrom, lastFrom, firstTo, lastTo}, m)
    {
      firstFrom, lastFrom, firstTo, lastTo := LoadEnds(rel, from, to);
      m := PatchEnds(rel, firstFrom, lastFrom, firstTo, lastTo, from, to, weight, tag);
    }

    /** The four neighbours of a record, one copy per distinct record. */
    method LoadNeighbours(rel: RelCopy)
      returns (prevFrom: RelCopy, nextFrom: RelCopy, prevTo: RelCopy, nextTo: RelCopy)
      requires rel.rec.prevS in rels && rel.rec.nextS in rels && rel.rec.prevT in rels && rel.rec.nextT in rels
      ensures prevFrom.id == rel.rec.prevS && nextFrom.id == rel.rec.nextS
      ensures prevTo.id == rel.rec.prevT && nextTo.id == rel.rec.nextT
      ensures fresh(prevFrom) && fresh(nextFrom) && fresh(prevTo) && fresh(nextTo)
      ensures OneCopyEach({nextFrom, prevFrom, nextTo, prevTo}) && Synced({nextFrom, prevFrom, nextTo, prevTo}, rels)
    {
      prevFrom := ReadRelationship(rel.rec.prevS);
      if rel.rec.nextS == prevFrom.id {
        nextFrom := prevFrom;
      } else {
        nextFrom := ReadRelationship(rel.rec.nextS);
      }
      if rel.rec.prevT == prevFrom.id {
        prevTo := prevFrom;
      } else if rel.rec.prevT == nextFrom.id {
        prevTo := nextFrom;
      } else {
        prevTo := ReadRelationship(rel.rec.prevT);
      }
      if rel.rec.nextT == prevFrom.id {
        nextTo := prevFrom;
      } else if rel.rec.nextT == nextFrom.id {
        nextTo := nextFrom;
      } else if rel.rec.nextT == prevTo.id {
        nextTo := prevTo;
      } else {
        nextTo := ReadRelationship(rel.rec.nextT);
      }
    }

    /** Point the copies of the neighbours past r. */
    method PatchNeighbours(r: Rel, prevFrom: RelCopy, nextFrom: RelCopy, prevTo: RelCopy, nextTo: RelCopy)
      returns (ghost m: map<RelId, Rel>)
      requires prevFrom.id == r.prevS && nextFrom.id == r.nextS && prevTo.id == r.prevT && nextTo.id == r.nextT
      requires OneCopyEach({nextFrom, prevFrom, nextTo, prevTo}) && Synced({nextFrom, prevFrom, nextTo, prevTo}, rels)
      modifies prevFrom, nextFrom, prevTo, nextTo
      ensures Synced({nextFrom, prevFrom, nextTo, prevTo}, m)
      ensures r.prevS in rels && r.nextS in rels && r.prevT in rels && r.nextT in rels
      ensures m == PatchedAround(rels, r)
    {
      ghost var cs := {nextFrom, prevFrom, nextTo, prevTo};
      PatchNext(prevFrom, r.source, r.nextS, cs, rels);
      ghost var m1 := rels[r.prevS := SetNext(rels[r.prevS], r.source, r.nextS)];
      PatchPrev(nextFrom, r.source, r.prevS, cs, m1);
      ghost var m2 := m1[r.nextS := SetPrev(m1[r.nextS], r.source, r.prevS)];
      PatchNext(prevTo, r.target, r.nextT, cs, m2);
      ghost var m3 := m2[r.prevT := SetNext(m2[r.prevT], r.target, r.nextT)];
      PatchPrev(nextTo, r.target, r.prevT, cs, m3);
      m := m3[r.nextT := SetPrev(m3[r.nextT], r.target, r.prevT)];
    }

    /** Take rel out of the lists of its neighbours, unless it is alone in its source's list. */
    method UnlinkRecord(rel: RelCopy) returns (ghost log: seq<RelId>)
      requires NeighboursLive(Contents(), rel.id) && rel.rec == rels[rel.id]
      modifies this`rels, this`relUpdates
      ensures rels == Relink(old(Contents()), rel.id)
      ensures Distinct(log) && relUpdates == old(relUpdates) + |log|
      ensures rel.id == rel.rec.prevS ==> log == []
      ensures rel.id != rel.rec.prevS ==> forall y :: y in log <==> NeighbourOf(rel.rec, y)
    {
      log := [];
      if rel.id != rel.rec.prevS {
        var prevFrom, nextFrom, prevTo, nextTo := LoadNeighbours(rel);
        ghost var m := PatchNeighbours(rel.rec, prevFrom, nextFrom, prevTo, nextTo);
        ghost var before := rels;
        log := WriteBack(rel, nextFrom, prevFrom, nextTo, prevTo, m);
        AllRelinked(rel, before, rels, m, log, rel.rec, nextFrom, prevFrom, nextTo, prevTo);
        NeighboursWritten(rel, log, rel.rec, nextFrom, prevFrom, nextTo, prevTo);
      }
    }

    /** Advance the endpoints' `first` past x, reading the target node after the source was written. */
    method UpdateFirstsAfter(rel: RelCopy)
      requires rel.rec.source in nodes && rel.rec.target in nodes
      modifies this`nodes
      ensures nodes == DropFirst(DropFirst(old(nodes), rel.rec.source, rel.id, rel.rec.nextS),
                                 rel.rec.target, rel.id, rel.rec.nextT)
    {
      var node := nodes[rel.rec.source];
      if node.first == Some(rel.id) {
        node := node.(first := if rel.rec.nextS == rel.id then None else Some(rel.rec.nextS));
        nodes := nodes[rel.rec.source := node];
      }
      node := nodes[rel.rec.target];
      if node.first == Some(rel.id) {
        node := node.(first := if rel.rec.nextT == rel.id then None else Some(rel.rec.nextT));
        nodes := nodes[rel.rec.target := node];
      }
    }

    /** Delete a relationship: exactly `Remove` on the whole store, whether or not it leaves rings behind. */
    method DeleteRelationship(x: RelId, ghost ring: map<NodeId, seq<RelId>>)
      requires Valid(ring) && x in rels
      modifies this, relSlots
      ensures Stored()
      ensures OnlyNeighboursChange(old(rels), rels, x) && FirstsAdvance(old(Contents()), nodes, x)
      ensures NeighboursLive(old(Contents()), x) && Contents() == Remove(old(Contents()), x)
      ensures HasRings(Contents()) <==> old(Removable(Contents(), x))
      ensures old(Removable(Contents(), x)) ==> Valid(RemoveFromRings(ring, x))
      ensures old(relSlots.NoGapBelowLast()) ==> relSlots.NoGapBelowLast()
      ensures nRels == old(nRels) - 1 && nNodes == old(nNodes)
    {
      ghost var s := Contents();
      assert NeighboursLive(s, x) by {
        RecordNeighbours(s, ring, x);
      }
      EraseRelationship(x);
      assert HasRings(Contents()) <==> Removable(s, x) by {
        RemoveCorrectIff(s, ring, x);
      }
      if Removable(s, x) {
        RemoveKeepsWellFormed(s, ring, x);
      }
    }

    /** The steps of deletion, on any store where x's pointers lead to live records. */
    method EraseRelationship(x: RelId)
      requires Stored() && NeighboursLive(Contents(), x)
      modifies this, relSlots
      ensures Stored() && Contents() == Remove(old(Contents()), x)
      ensures OnlyNeighboursChange(old(rels), rels, x) && FirstsAdvance(old(Contents()), nodes, x)
      ensures old(relSlots.NoGapBelowLast()) ==> relSlots.NoGapBelowLast()
      ensures nRels == old(nRels) - 1 && nNodes == old(nNodes)
    {
      ghost var s := Contents();
      ghost var log := DropRecord(x);
      relSlots.Release(x);
      nRels := nRels - 1;
      RemoveTouches(s, x);
    }

    /** Unlink the record, advance the nodes that start with it, and forget it. */
    method DropRecord(x: RelId) returns (ghost log: seq<RelId>)
      requires NeighboursLive(Contents(), x)
      modifies this`nodes, this`rels, this`relUpdates
      ensures Contents() == Remove(old(Contents()), x)
      ensures Distinct(log) && relUpdates == old(relUpdates) + |log|
      ensures old(rels)[x].prevS == x ==> log == []
      ensures old(rels)[x].prevS != x ==> forall y :: y in log <==> NeighbourOf(old(rels)[x], y)
    {
      var rel := ReadRelationship(x);
      log := UnlinkRecord(rel);
      UpdateFirstsAfter(rel);
      rels := rels - {x};
    }
  }

  lemma AllRelinked(rel: RelCopy, before: map<RelId, Rel>, after: map<RelId, Rel>, m: map<RelId, Rel>, log: seq<RelId>,
                    r: Rel, a: RelCopy, b: RelCopy, c: RelCopy, d: RelCopy)
    requires r.prevS in before && r.nextS in before && r.prevT in before && r.nextT in before
    requires m == PatchedAround(before, r) && Logged(before, after, m, log)
    requires rel !in {a, b, c, d} && a.id == r.nextS && b.id == r.prevS && c.id == r.nextT && d.id == r.prevT
    requires log == Batch(rel, a, b, c, d)
    ensures after == m
  {
    BatchHasEach(rel, a, b, c, d);
    assert forall p :: p in {a, b, c, d} ==> p.id in log;
    assert forall y :: y in before && y !in log ==> m[y] == before[y];
  }

  /** The ids of four possibly shared copies without rel, each copy at its last place. */
  ghost function Batch(rel: RelCopy, a: RelCopy, b: RelCopy, c: RelCopy, d: RelCopy): seq<RelId> {
    var log1 := AppendIf(a != rel && a != b && a != c && a != d, [], a.id);
    var log2 := AppendIf(b != rel && b != c && b != d, log1, b.id);
    AppendIf(d != rel, AppendIf(c != rel && c != d, log2, c.id), d.id)
  }

  /** Skipping a copy that comes again later skips no record. */
  lemma BatchHasEach(rel: RelCopy, a: RelCopy, b: RelCopy, c: RelCopy, d: RelCopy)
    ensures var log := Batch(rel, a, b, c, d);
      forall y :: y in log <==> exists p :: p in {a, b, c, d} && p != rel && p.id == y
  {
    var log := Batch(rel, a, b, c, d);
    forall y | y in log ensures exists p :: p in {a, b, c, d} && p != rel && p.id == y {
      assert a in {a, b, c, d} && b in {a, b, c, d} && c in {a, b, c, d} && d in {a, b, c, d};
    }
  }

  lemma NeighboursWritten(rel: RelCopy, log: seq<RelId>, r: Rel, a: RelCopy, b: RelCopy, c: RelCopy, d: RelCopy)
    requires rel !in {a, b, c, d} && a.id == r.nextS && b.id == r.prevS && c.id == r.nextT && d.id == r.prevT
    requires log == Batch(rel, a, b, c, d)
    ensures forall y :: y in log <==> NeighbourOf(r, y)
  {
    BatchHasEach(rel, a, b, c, d);
    assert a in {a, b, c, d} && b in {a, b, c, d} && c in {a, b, c, d} && d in {a, b, c, d};
  }

  lemma LogHasEnds(rel: RelCopy, a: RelCopy, b: RelCopy, c: RelCopy, d: RelCopy, log: seq<RelId>, ids: set<RelId>)
    requires OneCopyEach({rel, a, b, c, d}) && log == Batch(rel, a, b, c, d)
    requires ids == {a.id, b.id, c.id, d.id}
    ensures forall y :: y in log <==> y in ids && y != rel.id
  {
    BatchHasEach(rel, a, b, c, d);
  }

  ghost function EndIds(s: Store, x: RelId, from: NodeId, to: NodeId): set<RelId>
    requires EndsLive(s, from) && EndsLive(s, to)
  {
    {FirstIn(s, from, x), LastIn(s, from, x), FirstIn(s, to, x), LastIn(s, to, x)}
  }

  /** Once every changed record has been written, the store is m. */
  lemma AllWritten(before: map<RelId, Rel>, after: map<RelId, Rel>, m: map<RelId, Rel>, log: seq<RelId>, x: RelId)
    requires Logged(before, after, m, log) && m.Keys == before.Keys + {x} && x !in before
    requires forall y :: y in before && y !in log ==> m[y] == before[y]
    ensures after[x := m[x]] == m
  {
  }

  /** Insertion leaves every record but the list ends alone. */
  lemma InsertTouches(s: Store, x: RelId, from: NodeId, to: NodeId, weight: int, tag: nat)
    requires EndsLive(s, from) && EndsLive(s, to) && x !in s.rels
    ensures var m := InsertRels(s, x, from, to, weight, tag);
      && m.Keys == s.rels.Keys + {x}
      && (forall y :: y in s.rels && y !in EndIds(s, x, from, to) ==> m[y] == s.rels[y])
  {
  }

  lemma NewNodeKeepsWellFormed(s: Store, ring: map<NodeId, seq<RelId>>, n: NodeId, tag: nat)
    requires WellFormed(s, ring) && n !in s.nodes
    ensures WellFormed(Store(s.nodes[n := Node(None, tag)], s.rels), ring[n := []])
  {
    var t := Store(s.nodes[n := Node(None, tag)], s.rels);
    forall m | m in t.nodes ensures RingAt(t, m, ring[n := []][m]) {
      if m != n {
        assert RingAt(s, m, ring[m]);
      }
    }
  }
}
