/**
 The orders handed to the reorderer: a given sequence of relationships, the
 outgoing relationships of one node after another, and a random shuffle. Each
 is a permutation of the live ids.
 */
module Orders {
  import opened Graph
  import opened Renaming
  import opened Slots
  import opened HeapFile
  import opened Expansion
  import opened Swap
  import opened Reorder
  import opened Scratch

  // ----- lists against sets ------------------------------------------------------------

  /** q lists the live relationships, each once. */
  ghost predicate Enumerates(q: seq<nat>, live: set<nat>) {
    Distinct(q) && forall x :: x in q <==> x in live
  }

  lemma {:induction false} DistinctWithin(q: seq<nat>, live: set<nat>)
    requires Distinct(q) && forall x :: x in q ==> x in live
    ensures |q| <= |live|
    ensures (forall x :: x in live ==> x in q) ==> |q| == |live|
    decreases |q|
  {
    if q == [] {
      if forall x :: x in live ==> x in q {
        assert live == {};
      }
    } else {
      var k := |q| - 1;
      assert forall x :: x in q[..k] <==> x in q && x != q[k];
      assert q[k] in live;
      DistinctWithin(q[..k], live - {q[k]});
    }
  }

  // ----- by sequence -------------------------------------------------------------------

  /** The first k members of q at the first k record positions. */
  function Numbered(q: seq<RelId>, k: nat): Dict
    requires k <= |q|
  {
    if k == 0 then map[] else Numbered(q, k - 1)[q[k - 1] := 4 * (k - 1)]
  }

  lemma {:induction false} NumberedKeys(q: seq<RelId>, k: nat)
    requires k <= |q|
    ensures forall x :: x in Numbered(q, k) <==> x in q[..k]
  {
    if k > 0 {
      NumberedKeys(q, k - 1);
      assert q[..k] == q[..k - 1] + [q[k - 1]];
    }
  }

  lemma {:induction false} NumberedAt(q: seq<RelId>, k: nat, i: nat)
    requires Distinct(q) && i < k <= |q|
    ensures q[i] in Numbered(q, k) && Numbered(q, k)[q[i]] == 4 * i
  {
    if i < k - 1 {
      NumberedAt(q, k - 1, i);
    }
  }

  /** Every entry is some member's number. */
  lemma NumberedBy(q: seq<RelId>, x: RelId) returns (i: nat)
    requires Distinct(q) && x in Numbered(q, |q|)
    ensures i < |q| && q[i] == x && Numbered(q, |q|)[x] == 4 * i
  {
    NumberedKeys(q, |q|);
    assert q[..|q|] == q;
    i :| i < |q| && q[i] == x;
    NumberedAt(q, |q|, i);
  }

  /** The order as a dictionary: no two members share a position. */
  lemma NumberedInjective(q: seq<RelId>)
    requires Distinct(q)
    ensures InjectiveDict(Numbered(q, |q|))
  {
    var m := Numbered(q, |q|);
    forall x, y | x in m && y in m && m[x] == m[y] ensures x == y {
      var i := NumberedBy(q, x);
      var j := NumberedBy(q, y);
    }
  }

  /** The positions are the first |q|. */
  lemma NumberedExact(q: seq<RelId>)
    requires Distinct(q)
    ensures forall v: nat :: v in Numbered(q, |q|).Values <==> Visited(v, |q|)
  {
    var m := Numbered(q, |q|);
    forall v: nat | Visited(v, |q|) ensures v in m.Values {
      NumberedAt(q, |q|, v / 4);
      assert m[q[v / 4]] == v;
    }
    forall x | x in m ensures Visited(m[x], |q|) {
      var i := NumberedBy(q, x);
    }
  }

  ghost predicate FirstPositions(ids: set<nat>, n: nat) {
    forall x: nat :: x in ids <==> Visited(x, n)
  }

  /** The least position not among the first n is the next one. */
  lemma NextFirstPosition(ids: set<nat>, id: nat, n: nat)
    requires FirstPositions(ids, n) && Aligned(id, REL_STRIDE) && id !in ids
    requires forall j: nat :: j < id && Aligned(j, REL_STRIDE) ==> j in ids
    ensures id == 4 * n && FirstPositions(ids + {id}, n + 1)
  {
    assert !Visited(4 * n, n);
    NextVisited(n);
  }

  /**
   Positions are drawn from the allocator of an empty scratch file: 0, 4, 8 and so
   on. For an empty sequence the scratch file cannot be opened.
   */
  method NumberSequence(q: seq<RelId>) returns (ok: bool, newIds: Dict)
    ensures ok <==> q != []
    ensures ok ==> newIds == Numbered(q, |q|)
  {
    newIds := map[];
    ok := OpenScratch(|q|);
    if !ok {
      return;
    }
    var scratch := new SlotFile(REL_STRIDE);
    for i := 0 to |q|
      invariant fresh(scratch) && scratch.Valid() && scratch.stride == REL_STRIDE && scratch.NoGapBelowLast()
      invariant FirstPositions(scratch.used, i)
      invariant newIds == Numbered(q, i)
    {
      ghost var taken := scratch.used;
      var id := scratch.NextFreeSlots();
      NextFirstPosition(taken, id, i);
      newIds := newIds[q[i] := scratch.last];
    }
  }

  /** Exactly the first n record positions are taken, if n records are. */
  predicate Packed(live: set<nat>, n: nat) {
    forall i: nat :: i < n ==> 4 * i in live
  }

  /** The renaming sends the i-th member of the order to the i-th record position. */
  ghost predicate InOrder(order: seq<RelId>) {
    forall i {:trigger order[i]} :: 0 <= i < |order| ==> Placement(Numbered(order, |order|))(order[i]) == 4 * i
  }

  /** t is s with the relationships put in that order, every pointer following, and one ring a node as before. */
  ghost predicate Placed(s: Store, t: Store, order: seq<RelId>, ring: map<NodeId, seq<RelId>>) {
    InOrder(order) && Repositioned(s, t, Numbered(order, |order|), ring)
  }

  /**
   Reorder so that the i-th relationship of the sequence ends at the i-th record
   position. The program gets through exactly when there are relationships and
   the file has no gaps.
   */
  method ReorderBySequence(hf: HeapFile, order: seq<RelId>, ghost ring: map<NodeId, seq<RelId>>) returns (ok: bool)
    requires hf.Valid(ring) && hf.Counted() && Enumerates(order, hf.rels.Keys)
    modifies hf`nodes, hf`rels, hf.relSlots
    ensures hf.Stored()
    ensures ok <==> order != [] && Packed(old(hf.rels).Keys, |order|)
    ensures ok ==> Placed(old(hf.Contents()), hf.Contents(), order, ring)
  {
    var newIds;
    ok, newIds := NumberSequence(order);
    if ok {
      ok := ReorderNumbered(hf, newIds, order, ring);
      InOrderAlways(order);
    }
  }

  method ReorderNumbered(hf: HeapFile, newIds: Dict, ghost order: seq<RelId>, ghost ring: map<NodeId, seq<RelId>>)
    returns (ok: bool)
    requires hf.Valid(ring) && hf.Counted() && Enumerates(order, hf.rels.Keys) && newIds == Numbered(order, |order|)
    modifies hf`nodes, hf`rels, hf.relSlots
    ensures hf.Stored()
    ensures ok <==> Packed(old(hf.rels).Keys, |order|)
    ensures ok ==> Repositioned(old(hf.Contents()), hf.Contents(), newIds, ring)
  {
    ghost var live, n := hf.rels.Keys, hf.nRels;
    OrderFits(hf, newIds, order);
    var rest;
    ghost var done;
    ok, rest, done := ReorderRelationships(hf, newIds, ring);
    assert Accepts(newIds, live, n) && n == |order| by {
      OrderReady(order, live);
    }
    assert hf.nRels == n;
    assert ok ==> rest == map[];
  }

  lemma OrderFits(hf: HeapFile, newIds: Dict, order: seq<RelId>)
    requires hf.Stored() && hf.Counted() && Enumerates(order, hf.rels.Keys) && newIds == Numbered(order, |order|)
    ensures hf.nRels == |hf.rels.Keys|
    ensures InjectiveDict(newIds) && forall x :: x in newIds ==> Placeable(x, hf.relSlots.pages)
  {
    OrderReady(order, hf.rels.Keys);
  }

  lemma InOrderAlways(order: seq<RelId>)
    requires Distinct(order)
    ensures InOrder(order)
  {
    forall i {:trigger order[i]} | 0 <= i < |order| ensures Placement(Numbered(order, |order|))(order[i]) == 4 * i {
      NumberedAt(order, |order|, i);
    }
  }

  /** A one-to-one dictionary on the live records that moves them to the first n positions. */
  ghost predicate Accepts(m: Dict, live: set<nat>, n: nat) {
    && m.Keys == live && InjectiveDict(m) && TargetsVisited(m, n)
    && (Compact(m, live, n) <==> Packed(live, n))
  }

  /**
   An order that enumerates the live records is a dictionary the reorderer accepts
   and, if it gets through, settles.
   */
  lemma OrderReady(order: seq<RelId>, live: set<nat>)
    requires Enumerates(order, live)
    ensures |order| == |live|
    ensures var m := Numbered(order, |order|);
      Accepts(m, live, |order|)
  {
    var m := Numbered(order, |order|);
    NumberedKeys(order, |order|);
    assert order[..|order|] == order;
    assert m.Keys == live;
    NumberedInjective(order);
    NumberedExact(order);
    DistinctWithin(order, live);
    PackedCompact(m, live, |order|);
  }

  lemma PackedCompact(newIds: Dict, live: set<nat>, n: nat)
    requires forall v: nat :: v in newIds.Values <==> Visited(v, n)
    ensures Compact(newIds, live, n) <==> Packed(live, n)
  {
    forall i: nat | i < n ensures 4 * i in newIds.Values {
      assert Visited(4 * i, n);
    }
    forall v | v in newIds.Values ensures v == 4 * (v / 4) {
    }
  }

  // ----- by nodes ----------------------------------------------------------------------

  /** The outgoing relationships of the listed nodes, node after node. */
  ghost function OutgoingOf(s: Store, nodes: seq<NodeId>, ring: map<NodeId, seq<RelId>>): seq<RelId>
    requires forall n :: n in nodes ==> n in ring
  {
    if nodes == [] then []
    else
      var n := nodes[|nodes| - 1];
      OutgoingOf(s, nodes[..|nodes| - 1], ring) + Selected(s, n, Outgoing, ring[n])
  }

  /** Every live relationship leaves one node, so no list repeats another's members. */
  lemma {:induction false} OutgoingDistinct(s: Store, nodes: seq<NodeId>, ring: map<NodeId, seq<RelId>>)
    requires Rings(s, ring) && Distinct(nodes) && forall n :: n in nodes ==> n in s.nodes
    ensures Distinct(OutgoingOf(s, nodes, ring))
    ensures forall x :: x in OutgoingOf(s, nodes, ring) <==> x in s.rels && s.rels[x].source in nodes
    decreases |nodes|
  {
    if nodes != [] {
      var k, n := |nodes| - 1, nodes[|nodes| - 1];
      assert n in nodes && RingAt(s, n, ring[n]);
      OutgoingDistinct(s, nodes[..k], ring);
      ExpansionExact(s, n, Outgoing, ring[n]);
      LastOrBefore(nodes);
      var p, q := OutgoingOf(s, nodes[..k], ring), Selected(s, n, Outgoing, ring[n]);
      assert forall x :: x in q <==> x in s.rels && s.rels[x].source == n;
      JoinDistinct(p, q);
    }
  }

  lemma JoinDistinct(p: seq<nat>, q: seq<nat>)
    requires Distinct(p) && Distinct(q) && forall x :: x in p ==> x !in q
    ensures Distinct(p + q)
  {
    forall i, j | 0 <= i < j < |p + q| ensures (p + q)[i] != (p + q)[j] {
      if i < |p| <= j {
        assert p[i] in p && q[j - |p|] in q;
      }
    }
  }

  /** All nodes together yield every live relationship exactly once. */
  lemma OutgoingEnumerates(s: Store, nodes: seq<NodeId>, ring: map<NodeId, seq<RelId>>)
    requires Rings(s, ring) && Enumerates(nodes, s.nodes.Keys)
    ensures Enumerates(OutgoingOf(s, nodes, ring), s.rels.Keys)
    ensures |OutgoingOf(s, nodes, ring)| == |s.rels.Keys|
  {
    OutgoingDistinct(s, nodes, ring);
    forall x | x in s.rels ensures s.rels[x].source in nodes {
      assert s.rels[x].source in s.nodes;
    }
    DistinctWithin(OutgoingOf(s, nodes, ring), s.rels.Keys);
  }

  /** What part of the nodes yields never overruns an array of one entry a relationship. */
  lemma OutgoingFits(s: Store, nodes: seq<NodeId>, ring: map<NodeId, seq<RelId>>, i: nat)
    requires Rings(s, ring) && Enumerates(nodes, s.nodes.Keys) && i <= |nodes|
    ensures |OutgoingOf(s, nodes[..i], ring)| <= |s.rels.Keys|
  {
    assert forall n :: n in nodes[..i] ==> n in nodes;
    OutgoingDistinct(s, nodes[..i], ring);
    DistinctWithin(OutgoingOf(s, nodes[..i], ring), s.rels.Keys);
  }

  method CopyInto(a: array<nat>, k: nat, q: seq<nat>)
    requires k + |q| <= a.Length
    modifies a
    ensures a[..k + |q|] == old(a[..k]) + q
  {
    for j := 0 to |q|
      invariant a[..k + j] == old(a[..k]) + q[..j]
    {
      a[k + j] := q[j];
      assert a[..k + j + 1] == a[..k + j] + [q[j]];
    }
  }

  /** Copy the outgoing relationships of n behind the first k entries. */
  method AppendOutgoing(hf: HeapFile, n: NodeId, a: array<nat>, k: nat, ghost q: seq<RelId>) returns (k': nat)
    requires n in hf.nodes && RingAt(hf.Contents(), n, q)
    requires k + |Selected(hf.Contents(), n, Outgoing, q)| <= a.Length
    modifies a
    ensures k <= k' <= a.Length && a[..k'] == old(a[..k]) + Selected(hf.Contents(), n, Outgoing, q)
  {
    var rels := Expand(hf, n, Outgoing, q);
    CopyInto(a, k, rels);
    k' := k + |rels|;
  }

  lemma OutgoingStep(s: Store, nodes: seq<NodeId>, ring: map<NodeId, seq<RelId>>, i: nat)
    requires Rings(s, ring) && Enumerates(nodes, s.nodes.Keys) && i < |nodes|
    ensures nodes[i] in s.nodes && RingAt(s, nodes[i], ring[nodes[i]])
    ensures OutgoingOf(s, nodes[..i + 1], ring) ==
      OutgoingOf(s, nodes[..i], ring) + Selected(s, nodes[i], Outgoing, ring[nodes[i]])
    ensures |OutgoingOf(s, nodes[..i + 1], ring)| <= |s.rels.Keys|
  {
    assert nodes[i] in nodes;
    assert nodes[..i + 1] == nodes[..i] + [nodes[i]] && nodes[..i + 1][..i] == nodes[..i];
    OutgoingFits(s, nodes, ring, i + 1);
  }

  /** Fill an array of n_rels entries with the outgoing relationships of all nodes, nodes in file order. */
  method CollectOutgoing(hf: HeapFile, ghost ring: map<NodeId, seq<RelId>>)
    returns (order: array<nat>, ghost nodes: seq<NodeId>)
    requires hf.Stored() && Rings(hf.Contents(), ring) && hf.Counted()
    ensures Ascending(nodes) && Enumerates(nodes, hf.nodes.Keys)
    ensures fresh(order) && order[..] == OutgoingOf(hf.Contents(), nodes, ring)
  {
    var all := hf.nodeSlots.Records();
    nodes := all;
    DistinctWithin(all, hf.nodes.Keys);
    order := new nat[hf.nRels];
    FillOutgoing(hf, all, order, ring);
  }

  method FillOutgoing(hf: HeapFile, nodes: seq<NodeId>, order: array<nat>, ghost ring: map<NodeId, seq<RelId>>)
    requires Rings(hf.Contents(), ring) && Enumerates(nodes, hf.nodes.Keys) && hf.nNodes == |nodes|
    requires order.Length == |hf.rels.Keys|
    modifies order
    ensures order[..] == OutgoingOf(hf.Contents(), nodes, ring)
  {
    ghost var s := hf.Contents();
    var k: nat := 0;
    for i := 0 to hf.nNodes
      invariant k <= order.Length && order[..k] == OutgoingOf(s, nodes[..i], ring)
    {
      OutgoingStep(s, nodes, ring, i);
      k := AppendOutgoing(hf, nodes[i], order, k, ring[nodes[i]]);
    }
    assert nodes[..|nodes|] == nodes;
    OutgoingEnumerates(s, nodes, ring);
    assert order[..k] == order[..];
  }

  /** Sources do not fall along the list. */
  ghost predicate GroupedBySource(s: Store, order: seq<RelId>) {
    && (forall x :: x in order ==> x in s.rels)
    && forall i, j :: 0 <= i < j < |order| ==> s.rels[order[i]].source <= s.rels[order[j]].source
  }

  lemma GroupedJoin(s: Store, p: seq<RelId>, q: seq<RelId>, n: NodeId)
    requires GroupedBySource(s, p) && forall x :: x in p ==> s.rels[x].source <= n
    requires forall x :: x in q ==> x in s.rels && s.rels[x].source == n
    ensures GroupedBySource(s, p + q)
  {
    var r := p + q;
    forall i, j | 0 <= i < j < |r| ensures s.rels[r[i]].source <= s.rels[r[j]].source {
      if i < |p| {
        assert r[i] in p;
      } else {
        assert r[i] in q;
      }
      if j >= |p| {
        assert r[j] in q;
      }
    }
  }

  /** Node after node in file order, the list is grouped by source. */
  lemma {:induction false} OutgoingGrouped(s: Store, nodes: seq<NodeId>, ring: map<NodeId, seq<RelId>>)
    requires Rings(s, ring) && Ascending(nodes) && forall n :: n in nodes ==> n in s.nodes
    ensures GroupedBySource(s, OutgoingOf(s, nodes, ring))
    decreases |nodes|
  {
    if nodes != [] {
      var k, n := |nodes| - 1, nodes[|nodes| - 1];
      OutgoingGrouped(s, nodes[..k], ring);
      OutgoingDistinct(s, nodes[..k], ring);
      assert n in nodes && RingAt(s, n, ring[n]);
      ExpansionExact(s, n, Outgoing, ring[n]);
      GroupedJoin(s, OutgoingOf(s, nodes[..k], ring), Selected(s, n, Outgoing, ring[n]), n);
    }
  }

  /** The records at the first n positions, in order of their source nodes. */
  ghost predicate PositionsGrouped(t: Store, n: nat) {
    && (forall i: nat :: i < n ==> 4 * i in t.rels)
    && forall i: nat, j: nat :: i < j < n ==> t.rels[4 * i].source <= t.rels[4 * j].source
  }

  lemma PlacedGrouped(s: Store, t: Store, order: seq<RelId>, ring: map<NodeId, seq<RelId>>)
    requires Placed(s, t, order, ring) && GroupedBySource(s, order)
    ensures PositionsGrouped(t, |order|)
  {
    forall i: nat | i < |order| ensures 4 * i in t.rels && t.rels[4 * i].source == s.rels[order[i]].source {
      PlacedAt(s, t, order, ring, i);
    }
  }

  /** The i-th member of the order, moved to its position. */
  lemma PlacedAt(s: Store, t: Store, order: seq<RelId>, ring: map<NodeId, seq<RelId>>, i: nat)
    requires Placed(s, t, order, ring) && i < |order| && order[i] in s.rels
    ensures 4 * i in t.rels && t.rels[4 * i].source == s.rels[order[i]].source
  {
    var f := Placement(Numbered(order, |order|));
    assert f(order[i]) == 4 * i;
    assert t.rels[f(order[i])] == RenameRel(s.rels[order[i]], f, Unchanged());
  }

  /** Relationships end up grouped by source node, nodes in file order, each group in ring order. */
  method ReorderByNodes(hf: HeapFile, ghost ring: map<NodeId, seq<RelId>>) returns (ok: bool, ghost nodes: seq<NodeId>)
    requires hf.Valid(ring) && hf.Counted()
    modifies hf`nodes, hf`rels, hf.relSlots
    ensures hf.Stored() && Ascending(nodes) && Enumerates(nodes, old(hf.nodes).Keys)
    ensures var order := OutgoingOf(old(hf.Contents()), nodes, ring);
      && (ok <==> order != [] && Packed(old(hf.rels).Keys, |order|))
      && (ok ==> Placed(old(hf.Contents()), hf.Contents(), order, ring) && PositionsGrouped(hf.Contents(), |order|))
  {
    ghost var s := hf.Contents();
    var newOrder;
    newOrder, nodes := CollectOutgoing(hf, ring);
    ghost var order := newOrder[..];
    OutgoingEnumerates(s, nodes, ring);
    OutgoingGrouped(s, nodes, ring);
    ok := ReorderBySequence(hf, newOrder[..], ring);
    if ok {
      PlacedGrouped(s, hf.Contents(), order, ring);
    }
  }

  // ----- shuffles ------------------------------------------------------------------------

  /** inv takes m's value at x back to x. */
  predicate Undoes(inv: Dict, m: Dict, x: nat) {
    x in m && m[x] in inv && inv[m[x]] == x
  }

  ghost predicate UndoesAll(inv: Dict, m: Dict, live: set<nat>) {
    forall x {:trigger Undoes(inv, m, x)} :: x in live ==> Undoes(inv, m, x) && m[x] in live
  }

  ghost predicate Inverts(inv: Dict, m: Dict, live: set<nat>) {
    && m.Keys == live && inv.Keys == live
    && UndoesAll(inv, m, live) && UndoesAll(m, inv, live)
  }

  /** The dictionary sends the live ids to the live ids, one to one and onto: it has an inverse there. */
  ghost predicate Permutes(m: Dict, live: set<nat>) {
    exists inv :: Inverts(inv, m, live)
  }

  /** A permutation is a dictionary the reorderer accepts: one to one, and every target live. */
  lemma PermutesReady(m: Dict, live: set<nat>)
    requires Permutes(m, live)
    ensures m.Keys == live && InjectiveDict(m)
    ensures forall x :: x in live ==> m[x] in live
  {
    var inv :| Inverts(inv, m, live);
    forall x | x in live ensures m[x] in live {
      assert Undoes(inv, m, x);
    }
    forall x, y | x in m && y in m && m[x] == m[y] ensures x == y {
      assert Undoes(inv, m, x) && Undoes(inv, m, y);
    }
  }

  lemma {:induction false} PackedCount(ids: set<nat>, n: nat)
    requires Packed(ids, n)
    ensures |ids| >= n
  {
    if n > 0 {
      assert 4 * (n - 1) in ids;
      PackedCount(ids - {4 * (n - 1)}, n - 1);
    }
  }

  /** So many records are all among the first positions exactly when there are no gaps. */
  lemma PackedIffVisited(live: set<nat>)
    requires forall x :: x in live ==> Aligned(x, REL_STRIDE)
    ensures Packed(live, |live|) <==> AllVisited(live, |live|)
  {
    if AllVisited(live, |live|) {
      forall i: nat | i < |live| ensures 4 * i in live {
        PositionsBelow(live + {4 * i}, |live|);
      }
    }
    if Packed(live, |live|) {
      forall x | x in live ensures Visited(x, |live|) {
        if !Visited(x, |live|) {
          assert x != 4 * (x / 4) || x / 4 >= |live|;
          PackedCount(live - {x}, |live|);
        }
      }
    }
  }

  /**
   The reorderer gets through every shuffle of the live relationships. It places
   all of them exactly when the file has no gaps.
   */
  lemma ShuffleFinishesIff(m: Dict, live: set<nat>)
    requires Permutes(m, live) && forall x :: x in live ==> Aligned(x, REL_STRIDE)
    ensures Compact(m, m.Keys, |live|)
    ensures TargetsVisited(m, |live|) <==> Packed(live, |live|)
  {
    PermutesOnto(m, live);
    PackedIffVisited(live);
  }

  lemma PermutesOnto(m: Dict, live: set<nat>)
    requires Permutes(m, live)
    ensures m.Keys == live && m.Values == live
  {
    forall v: nat ensures v in m.Values <==> v in live {
      if v in live {
        TakenValue(m, live, v);
      }
      if v in m.Values {
        LiveValue(m, live, v);
      }
    }
    PermutedKeys(m, live);
  }

  lemma PermutedKeys(m: Dict, live: set<nat>)
    requires Permutes(m, live)
    ensures m.Keys == live
  {
  }

  lemma LiveValue(m: Dict, live: set<nat>, v: nat)
    requires Permutes(m, live) && v in m.Values
    ensures v in live
  {
    PermutesReady(m, live);
  }

  lemma TakenValue(m: Dict, live: set<nat>, v: nat)
    requires Permutes(m, live) && v in live
    ensures v in m.Values
  {
    var inv :| Inverts(inv, m, live);
    assert Undoes(m, inv, v);
    assert m[inv[v]] == v;
  }

  function ExchangeValues(m: Dict, a: nat, b: nat): Dict
    requires a in m && b in m
  {
    m[a := m[b]][b := m[a]]
  }

  lemma ExchangeKeepsKeys(m: Dict, a: nat, b: nat)
    requires a in m && b in m
    ensures ExchangeValues(m, a, b).Keys == m.Keys
  {
  }

  lemma ExchangeUndone(m: Dict, inv: Dict, a: nat, b: nat, x: nat)
    requires Undoes(inv, m, a) && Undoes(inv, m, b) && Undoes(inv, m, x)
    ensures Undoes(ExchangeValues(inv, m[b], m[a]), ExchangeValues(m, a, b), x)
    ensures var v := ExchangeValues(m, a, b)[x]; v == m[a] || v == m[b] || v == m[x]
  {
  }

  /** Exchanging two values undoes as before, once the inverse exchanges the matching two. */
  lemma ExchangeUndoneAll(m: Dict, inv: Dict, live: set<nat>, a: nat, b: nat)
    requires UndoesAll(inv, m, live) && a in live && b in live && Undoes(inv, m, a) && Undoes(inv, m, b)
    ensures UndoesAll(ExchangeValues(inv, m[b], m[a]), ExchangeValues(m, a, b), live)
  {
    forall x | x in live
      ensures Undoes(ExchangeValues(inv, m[b], m[a]), ExchangeValues(m, a, b), x) && ExchangeValues(m, a, b)[x] in live
    {
      assert Undoes(inv, m, x);
      ExchangeUndone(m, inv, a, b, x);
    }
  }

  lemma ExchangeValuesPermutes(m: Dict, live: set<nat>, a: nat, b: nat)
    requires Permutes(m, live) && a in live && b in live
    ensures a in m && b in m && Permutes(ExchangeValues(m, a, b), live)
  {
    var inv :| Inverts(inv, m, live);
    assert Undoes(inv, m, a) && Undoes(inv, m, b);
    ExchangeUndoneAll(m, inv, live, a, b);
    ExchangeUndoneAll(inv, m, live, m[b], m[a]);
    ExchangeKeepsKeys(m, a, b);
    ExchangeKeepsKeys(inv, m[b], m[a]);
    assert Inverts(ExchangeValues(inv, m[b], m[a]), ExchangeValues(m, a, b), live);
  }

  method IdentityOrder(ids: seq<nat>, ghost live: set<nat>) returns (order: Dict)
    requires Enumerates(ids, live)
    ensures Permutes(order, live) && forall x :: x in order ==> order[x] == x
  {
    order := map[];
    for i := 0 to |ids|
      invariant forall x :: x in order <==> x in ids[..i]
      invariant forall x :: x in order ==> order[x] == x
    {
      order := order[ids[i] := ids[i]];
      assert ids[..i + 1] == ids[..i] + [ids[i]];
    }
    assert ids[..|ids|] == ids;
    assert Inverts(order, order, live);
  }

  /** Exchange the values of two entries. */
  method ExchangeEntries(order: Dict, curId: nat, randId: nat, ghost live: set<nat>) returns (order': Dict)
    requires Permutes(order, live) && curId in live && randId in live
    ensures Permutes(order', live) && EntriesExchanged(order, order', curId, randId)
  {
    ExchangeValuesPermutes(order, live, curId, randId);
    ExchangeDone(order, curId, randId);
    var curVal, randVal := order[curId], order[randId];
    order' := order[curId := randVal];
    order' := order'[randId := curVal];
  }

  lemma MemberAt(ids: seq<nat>, live: set<nat>, i: nat)
    requires Enumerates(ids, live) && i < |live|
    ensures i < |ids| && ids[i] in live
  {
    DistinctWithin(ids, live);
    assert ids[i] in ids;
  }

  // ----- the outcome of a shuffle -------------------------------------------------------

  /** The entries of a and b have changed values, and no others. */
  ghost predicate EntriesExchanged(m: Dict, m': Dict, a: nat, b: nat) {
    && m'.Keys == m.Keys && a in m && b in m
    && m'[a] == m[b] && m'[b] == m[a]
    && forall x {:trigger m'[x]} :: x in m && x != a && x != b ==> m'[x] == m[x]
  }

  /** Iteration i exchanges the entry of the i-th id with that of the one drawn. */
  ghost predicate ShuffleStep(ids: seq<nat>, random: nat -> nat, ms: seq<Dict>, i: nat) {
    && i < |ids| && i + 1 < |ms|
    && EntriesExchanged(ms[i], ms[i + 1], ids[i], ids[random(i) % |ids|])
  }

  /** The dictionary before the shuffle, which sends every id to itself, and after each iteration. */
  ghost predicate ShuffleRun(ids: seq<nat>, random: nat -> nat, ms: seq<Dict>) {
    && ms != [] && |ms| <= |ids| + 1
    && (forall x :: x in ms[0] <==> x in ids) && (forall x {:trigger ms[0][x]} :: x in ms[0] ==> ms[0][x] == x)
    && forall i: nat {:trigger ShuffleStep(ids, random, ms, i)} :: i < |ms| - 1 ==> ShuffleStep(ids, random, ms, i)
  }

  lemma ShuffleRunNext(ids: seq<nat>, random: nat -> nat, ms: seq<Dict>, m: Dict)
    requires ShuffleRun(ids, random, ms) && |ms| <= |ids|
    requires EntriesExchanged(ms[|ms| - 1], m, ids[|ms| - 1], ids[random(|ms| - 1) % |ids|])
    ensures ShuffleRun(ids, random, ms + [m])
  {
    var ms' := ms + [m];
    forall i: nat {:trigger ShuffleStep(ids, random, ms', i)} | i < |ms'| - 1 ensures ShuffleStep(ids, random, ms', i) {
      if i < |ms| - 1 {
        assert ShuffleStep(ids, random, ms, i);
      }
    }
  }

  lemma ExchangeDone(m: Dict, a: nat, b: nat)
    requires a in m && b in m
    ensures EntriesExchanged(m, ExchangeValues(m, a, b), a, b)
  {
  }

  /** The draws settle the outcome. */
  lemma {:induction false} ShuffleDetermined(ids: seq<nat>, random: nat -> nat, ms: seq<Dict>, ms': seq<Dict>, k: nat)
    requires ShuffleRun(ids, random, ms) && ShuffleRun(ids, random, ms') && k < |ms| && k < |ms'|
    ensures ms[k] == ms'[k]
  {
    if k > 0 {
      ShuffleDetermined(ids, random, ms, ms', k - 1);
      assert ShuffleStep(ids, random, ms, k - 1) && ShuffleStep(ids, random, ms', k - 1);
      SameExchange(ms[k - 1], ms[k], ms'[k], ids[k - 1], ids[random(k - 1) % |ids|]);
    }
  }

  lemma SameExchange(m: Dict, m1: Dict, m2: Dict, a: nat, b: nat)
    requires EntriesExchanged(m, m1, a, b) && EntriesExchanged(m, m2, a, b)
    ensures m1 == m2
  {
    forall x | x in m ensures m1[x] == m2[x] {
    }
  }

  /** m has the values of `goal` for the first k ids. */
  ghost predicate AgreesUpTo(ids: seq<nat>, m: Dict, goal: Dict, k: nat)
    requires k <= |ids|
  {
    forall i {:trigger ids[i]} :: 0 <= i < k ==> ids[i] in m && ids[i] in goal && m[ids[i]] == goal[ids[i]]
  }

  /** Some id has the value that the k-th should have. */
  lemma NextDraw(ids: seq<nat>, live: set<nat>, m: Dict, goal: Dict, k: nat) returns (j: nat)
    requires Enumerates(ids, live) && Permutes(m, live) && Permutes(goal, live) && k < |ids|
    ensures j < |ids| && ids[k] in goal && ids[j] in m && m[ids[j]] == goal[ids[k]]
  {
    assert ids[k] in live && ids[k] in goal && goal[ids[k]] in live by {
      PermutesReady(goal, live);
      assert ids[k] in ids;
    }
    var x := WhoHas(m, live, goal[ids[k]]);
    j :| j < |ids| && ids[j] == x;
  }

  lemma WhoHas(m: Dict, live: set<nat>, v: nat) returns (x: nat)
    requires Permutes(m, live) && v in live
    ensures x in live && x in m && m[x] == v
  {
    var inv :| Inverts(inv, m, live);
    assert Undoes(m, inv, v);
    x := inv[v];
  }

  /** Giving that value to the k-th leaves the ones before it alone. */
  lemma ExchangeAgrees(ids: seq<nat>, m: Dict, goal: Dict, k: nat, j: nat)
    requires Distinct(ids) && InjectiveDict(goal) && k < |ids| && j < |ids| && AgreesUpTo(ids, m, goal, k)
    requires ids[k] in m && ids[k] in goal && ids[j] in m && m[ids[j]] == goal[ids[k]]
    ensures AgreesUpTo(ids, ExchangeValues(m, ids[k], ids[j]), goal, k + 1)
  {
    var m' := ExchangeValues(m, ids[k], ids[j]);
    forall i {:trigger ids[i]} | 0 <= i < k + 1 ensures ids[i] in m' && ids[i] in goal && m'[ids[i]] == goal[ids[i]] {
      if i < k {
        assert ids[i] != ids[k] && goal[ids[i]] == m[ids[i]];
      }
    }
  }

  lemma AgreesEverywhere(ids: seq<nat>, live: set<nat>, m: Dict, goal: Dict)
    requires Enumerates(ids, live) && Permutes(m, live) && Permutes(goal, live) && AgreesUpTo(ids, m, goal, |ids|)
    ensures m == goal
  {
    PermutedKeys(m, live);
    PermutedKeys(goal, live);
    forall x | x in m ensures m[x] == goal[x] {
      assert x in ids;
      var i :| 0 <= i < |ids| && ids[i] == x;
    }
  }

  lemma IdentityPermutes(m: Dict, live: set<nat>)
    requires m.Keys == live && forall x :: x in m ==> m[x] == x
    ensures Permutes(m, live)
  {
    assert Inverts(m, m, live);
  }

  function Drawn(ds: seq<nat>): nat -> nat {
    (i: nat) => if i < |ds| then ds[i] else 0
  }

  /** After k iterations with the draws ds the dictionary agrees with the goal for the first k ids. */
  ghost predicate OnTheWay(ids: seq<nat>, live: set<nat>, goal: Dict, ds: seq<nat>, ms: seq<Dict>, k: nat) {
    && k <= |ids| && |ds| == k && |ms| == k + 1
    && (forall i {:trigger ds[i]} :: 0 <= i < k ==> ds[i] < |ids|)
    && ShuffleRun(ids, Drawn(ds), ms) && Permutes(ms[k], live) && AgreesUpTo(ids, ms[k], goal, k)
  }

  lemma OneMoreDraw(ids: seq<nat>, live: set<nat>, goal: Dict, ds: seq<nat>, ms: seq<Dict>, k: nat)
    returns (j: nat, m: Dict)
    requires Enumerates(ids, live) && Permutes(goal, live) && OnTheWay(ids, live, goal, ds, ms, k) && k < |ids|
    ensures OnTheWay(ids, live, goal, ds + [j], ms + [m], k + 1)
  {
    j := NextDraw(ids, live, ms[k], goal, k);
    m := DrawAgrees(ids, live, ms[k], goal, k, j);
    RunGrows(ids, ds, ms, j, m);
  }

  lemma LastDraw(ds: seq<nat>, j: nat, n: nat)
    requires j < n
    ensures Drawn(ds + [j])(|ds|) % n == j
  {
    assert j % n == j;
  }

  lemma RunGrows(ids: seq<nat>, ds: seq<nat>, ms: seq<Dict>, j: nat, m: Dict)
    requires ShuffleRun(ids, Drawn(ds), ms) && |ms| == |ds| + 1 && |ds| < |ids| && j < |ids|
    requires EntriesExchanged(ms[|ds|], m, ids[|ds|], ids[j])
    ensures ShuffleRun(ids, Drawn(ds + [j]), ms + [m])
  {
    LastDraw(ds, j, |ids|);
    SameDraws(ids, ds, j, ms);
    ShuffleRunNext(ids, Drawn(ds + [j]), ms, m);
  }

  lemma DrawAgrees(ids: seq<nat>, live: set<nat>, m: Dict, goal: Dict, k: nat, j: nat) returns (m': Dict)
    requires Enumerates(ids, live) && Permutes(m, live) && Permutes(goal, live)
    requires k < |ids| && AgreesUpTo(ids, m, goal, k)
    requires j < |ids| && ids[k] in goal && ids[j] in m && m[ids[j]] == goal[ids[k]]
    ensures EntriesExchanged(m, m', ids[k], ids[j]) && Permutes(m', live) && AgreesUpTo(ids, m', goal, k + 1)
  {
    PermutedKeys(m, live);
    PermutesReady(goal, live);
    assert ids[k] in ids && ids[j] in ids;
    m' := ExchangeValues(m, ids[k], ids[j]);
    ExchangeDone(m, ids[k], ids[j]);
    ExchangeValuesPermutes(m, live, ids[k], ids[j]);
    ExchangeAgrees(ids, m, goal, k, j);
  }

  lemma SameDraws(ids: seq<nat>, ds: seq<nat>, j: nat, ms: seq<Dict>)
    requires ShuffleRun(ids, Drawn(ds), ms) && |ms| == |ds| + 1
    ensures ShuffleRun(ids, Drawn(ds + [j]), ms)
  {
    forall i: nat {:trigger ShuffleStep(ids, Drawn(ds + [j]), ms, i)} | i < |ms| - 1
      ensures ShuffleStep(ids, Drawn(ds + [j]), ms, i)
    {
      assert ShuffleStep(ids, Drawn(ds), ms, i);
      assert Drawn(ds + [j])(i) == Drawn(ds)(i);
    }
  }

  /** Every permutation of the ids is the outcome of some draws. */
  lemma EveryShuffle(ids: seq<nat>, live: set<nat>, goal: Dict) returns (random: nat -> nat, ms: seq<Dict>)
    requires Enumerates(ids, live) && Permutes(goal, live)
    ensures ShuffleRun(ids, random, ms) && |ms| == |ids| + 1 && ms[|ids|] == goal
  {
    var ds, start := [], map x | x in live :: x;
    IdentityPermutes(start, live);
    ms := [start];
    for k := 0 to |ids|
      invariant OnTheWay(ids, live, goal, ds, ms, k)
    {
      var j, m := OneMoreDraw(ids, live, goal, ds, ms, k);
      ds, ms := ds + [j], ms + [m];
    }
    random := Drawn(ds);
    AgreesEverywhere(ids, live, ms[|ids|], goal);
  }

  /** The order is what the draws make of the identity on the ids, in file order. */
  ghost predicate ShuffledTo(ids: seq<nat>, random: nat -> nat, order: Dict) {
    exists ms :: ShuffleRun(ids, random, ms) && |ms| == |ids| + 1 && ms[|ids|] == order
  }

  /** Exchange the entry of each id with a randomly chosen one; random(i) is the i-th number drawn. */
  method Shuffle(ids: seq<nat>, count: nat, random: nat -> nat, ghost live: set<nat>) returns (order: Dict)
    requires Enumerates(ids, live) && count == |live|
    ensures Permutes(order, live) && ShuffledTo(ids, random, order)
  {
    order := IdentityOrder(ids, live);
    DistinctWithin(ids, live);
    var size := |order|;
    assert size == count by {
      PermutedKeys(order, live);
    }
    ghost var ms := StartRun(ids, live, random, order);
    for i := 0 to size
      invariant Permutes(order, live) && ShuffledUpTo(ids, random, ms, order, i)
    {
      ghost var before := order;
      order := ShuffleOnce(ids, count, random(i), i, order, live);
      ms := NextRun(ids, random, ms, before, order, i);
    }
  }

  ghost predicate ShuffledUpTo(ids: seq<nat>, random: nat -> nat, ms: seq<Dict>, order: Dict, i: nat) {
    ShuffleRun(ids, random, ms) && |ms| == i + 1 && ms[i] == order
  }

  lemma NextRun(ids: seq<nat>, random: nat -> nat, ms: seq<Dict>, m: Dict, m': Dict, i: nat) returns (ms': seq<Dict>)
    requires ShuffledUpTo(ids, random, ms, m, i) && i < |ids|
    requires EntriesExchanged(m, m', ids[i], ids[random(i) % |ids|])
    ensures ShuffledUpTo(ids, random, ms', m', i + 1)
  {
    ShuffleRunNext(ids, random, ms, m');
    ms' := ms + [m'];
  }

  lemma StartRun(ids: seq<nat>, live: set<nat>, random: nat -> nat, order: Dict) returns (ms: seq<Dict>)
    requires Enumerates(ids, live) && Permutes(order, live) && forall x :: x in order ==> order[x] == x
    ensures ShuffledUpTo(ids, random, ms, order, 0)
  {
    PermutedKeys(order, live);
    ms := [order];
  }

  /** One iteration: look up the two ids in the list and exchange their entries. */
  method ShuffleOnce(ids: seq<nat>, count: nat, draw: nat, i: nat, order: Dict, ghost live: set<nat>)
    returns (order': Dict)
    requires Enumerates(ids, live) && Permutes(order, live) && count == |live| && i < |live|
    ensures Permutes(order', live) && i < |ids|
    ensures EntriesExchanged(order, order', ids[i], ids[draw % |ids|])
  {
    DistinctWithin(ids, live);
    var chosen := draw % count;
    MemberAt(ids, live, chosen);
    MemberAt(ids, live, i);
    order' := ExchangeEntries(order, ids[i], ids[chosen], live);
  }

  method RandomRelationshipOrder(hf: HeapFile, random: nat -> nat) returns (order: Dict, ghost ids: seq<nat>)
    requires hf.Stored() && hf.Counted()
    ensures Ascending(ids) && Enumerates(ids, hf.rels.Keys)
    ensures Permutes(order, hf.rels.Keys) && ShuffledTo(ids, random, order)
  {
    var rels := hf.relSlots.Records();
    ids := rels;
    order := Shuffle(rels, hf.nRels, random, hf.rels.Keys);
  }

  method RandomNodeOrder(hf: HeapFile, random: nat -> nat) returns (order: Dict, ghost ids: seq<nat>)
    requires hf.Stored() && hf.Counted()
    ensures Ascending(ids) && Enumerates(ids, hf.nodes.Keys)
    ensures Permutes(order, hf.nodes.Keys) && ShuffledTo(ids, random, order)
  {
    var nodes := hf.nodeSlots.Records();
    ids := nodes;
    order := Shuffle(nodes, hf.nNodes, random, hf.nodes.Keys);
  }
}
