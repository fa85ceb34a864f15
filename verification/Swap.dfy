/**
 Exchanging two record ids. A swap must be the transposition of the two ids on
 the whole store: both records move, and every pointer to either follows.
 */
module Swap {
  import opened Graph
  import opened Linking
  import opened Renaming
  import opened Slots
  import opened HeapFile

  function Transpose(a: nat, b: nat, x: nat): nat {
    if x == a then b else if x == b then a else x
  }

  /** The renaming that exchanges a and b. */
  function Exchange(a: nat, b: nat): Renamer {
    (x: nat) => Transpose(a, b, x)
  }

  function Unchanged(): Renamer {
    (x: nat) => x
  }

  lemma ExchangeInjective(a: nat, b: nat)
    ensures Injective(Exchange(a, b)) && Injective(Unchanged())
  {
  }

  function SwapPointers(r: Rel, a: RelId, b: RelId): Rel {
    RenameRel(r, Exchange(a, b), Unchanged())
  }

  predicate Mentions(r: Rel, a: RelId) {
    r.prevS == a || r.nextS == a || r.prevT == a || r.nextT == a
  }

  /** The store with ids a and b exchanged: the records and every pointer. */
  function Transposed(s: Store, a: RelId, b: RelId): Store {
    Store(map n | n in s.nodes :: RenameNode(s.nodes[n], Exchange(a, b)),
          map y | y in s.rels.Keys + {a, b} && Transpose(a, b, y) in s.rels ::
            SwapPointers(s.rels[Transpose(a, b, y)], a, b))
  }

  lemma TransposedRels(s: Store, a: RelId, b: RelId)
    ensures RelsRenamed(s.rels, Transposed(s, a, b).rels, Exchange(a, b), Unchanged())
  {
    var u: map<RelId, Rel> := Transposed(s, a, b).rels;
    ExchangeOnto(s.rels.Keys, u.Keys, a, b);
    forall x {:trigger s.rels[x]} | x in s.rels
      ensures Exchange(a, b)(x) in u && u[Exchange(a, b)(x)] == RenameRel(s.rels[x], Exchange(a, b), Unchanged())
    {
      assert Exchange(a, b)(x) == Transpose(a, b, x);
      assert Transpose(a, b, Transpose(a, b, x)) == x;
    }
  }

  /** A transposition is an isomorphism of stores. */
  lemma TransposedRenamed(s: Store, a: RelId, b: RelId)
    ensures Renamed(s, Transposed(s, a, b), Exchange(a, b), Unchanged())
  {
    TransposedRels(s, a, b);
    UnchangedOnto(s.nodes.Keys);
  }

  // ----- the neighbour lists cover every pointer ----------------------------------

  /** Append v unless the list has it. */
  function AddOnce(l: seq<nat>, v: nat): (l': seq<nat>)
    ensures Distinct(l) ==> Distinct(l')
    ensures forall x :: x in l' <==> x in l || x == v
  {
    if v in l then l else l + [v]
  }

  function WithNeighbours(l: seq<RelId>, r: Rel): (l': seq<RelId>)
    ensures Distinct(l) ==> Distinct(l')
    ensures forall x :: x in l' <==> x in l || Mentions(r, x)
  {
    AddOnce(AddOnce(AddOnce(AddOnce(l, r.prevS), r.prevT), r.nextS), r.nextT)
  }

  function WithEndpoints(l: seq<NodeId>, r: Rel): (l': seq<NodeId>)
    ensures Distinct(l) ==> Distinct(l')
    ensures forall x :: x in l' <==> x in l || Incident(r, x)
  {
    AddOnce(AddOnce(l, r.source), r.target)
  }

  /** In a well-formed store whoever points at a is pointed at by a. */
  lemma PointersAreMutual(s: Store, ring: map<NodeId, seq<RelId>>, y: RelId, a: RelId)
    requires WellFormed(s, ring) && y in s.rels && Mentions(s.rels[y], a)
    ensures a in s.rels && Mentions(s.rels[a], y)
  {
    var r := s.rels[y];
    assert CoherentRel(r);
    assert RingAt(s, r.source, ring[r.source]) && RingAt(s, r.target, ring[r.target]);
    RingNeighbours(s, r.source, ring[r.source], y);
    RingNeighbours(s, r.target, ring[r.target], y);
  }

  lemma FirstIsIncident(s: Store, ring: map<NodeId, seq<RelId>>, n: NodeId, a: RelId)
    requires WellFormed(s, ring) && n in s.nodes && s.nodes[n].first == Some(a)
    ensures a in s.rels && Incident(s.rels[a], n)
  {
    assert RingAt(s, n, ring[n]);
    assert ring[n][0] in ring[n];
  }

  /** fst or snd, as far as they exist, lead to y. */
  ghost predicate LeadsTo(s: Store, fst: RelId, snd: RelId, y: RelId) {
    (fst in s.rels && Mentions(s.rels[fst], y)) || (snd in s.rels && Mentions(s.rels[snd], y))
  }

  ghost predicate TouchesNode(s: Store, fst: RelId, snd: RelId, n: NodeId) {
    (fst in s.rels && Incident(s.rels[fst], n)) || (snd in s.rels && Incident(s.rels[snd], n))
  }

  lemma UntouchedRecord(s: Store, ring: map<NodeId, seq<RelId>>, fst: RelId, snd: RelId, y: RelId)
    requires WellFormed(s, ring) && y in s.rels && !LeadsTo(s, fst, snd, y)
    ensures SwapPointers(s.rels[y], fst, snd) == s.rels[y]
  {
    if Mentions(s.rels[y], fst) { PointersAreMutual(s, ring, y, fst); }
    if Mentions(s.rels[y], snd) { PointersAreMutual(s, ring, y, snd); }
  }

  lemma UntouchedNode(s: Store, ring: map<NodeId, seq<RelId>>, fst: RelId, snd: RelId, n: NodeId)
    requires WellFormed(s, ring) && n in s.nodes && !TouchesNode(s, fst, snd, n)
    ensures RenameNode(s.nodes[n], Exchange(fst, snd)) == s.nodes[n]
  {
    if s.nodes[n].first == Some(fst) { FirstIsIncident(s, ring, n, fst); }
    if s.nodes[n].first == Some(snd) { FirstIsIncident(s, ring, n, snd); }
  }

  // ----- swap_relationships ----------------------------------------------------------

  /** The records that mention fst or snd, and the nodes whose lists may start with them. */
  method CollectAffected(hf: HeapFile, fst: RelId, snd: RelId) returns (ids: seq<RelId>, nodes: seq<NodeId>)
    ensures Distinct(ids) && Distinct(nodes)
    ensures forall y :: y in ids <==> LeadsTo(hf.Contents(), fst, snd, y)
    ensures forall n :: n in nodes <==> TouchesNode(hf.Contents(), fst, snd, n)
  {
    ids, nodes := [], [];
    if fst in hf.rels {
      ids, nodes := WithNeighbours(ids, hf.rels[fst]), WithEndpoints(nodes, hf.rels[fst]);
    }
    if snd in hf.rels {
      ids, nodes := WithNeighbours(ids, hf.rels[snd]), WithEndpoints(nodes, hf.rels[snd]);
    }
  }

  method RewriteRecord(r: Rel, fst: RelId, snd: RelId) returns (r': Rel)
    ensures r' == SwapPointers(r, fst, snd)
  {
    var prevS := RewriteId(r.prevS, fst, snd);
    var prevT := RewriteId(r.prevT, fst, snd);
    var nextS := RewriteId(r.nextS, fst, snd);
    var nextT := RewriteId(r.nextT, fst, snd);
    r' := r.(prevS := prevS, prevT := prevT, nextS := nextS, nextT := nextT);
  }

  method RewriteId(x: RelId, fst: RelId, snd: RelId) returns (x': RelId)
    ensures x' == Transpose(fst, snd, x)
  {
    x' := x;
    if x == fst { x' := snd; } else if x == snd { x' := fst; }
  }

  /** Rewrite the pointers of the listed records, each read and written once. */
  method RewritePointers(hf: HeapFile, ids: seq<RelId>, fst: RelId, snd: RelId)
    requires Distinct(ids) && forall y :: y in ids ==> y in hf.rels
    modifies hf`rels
    ensures hf.rels.Keys == old(hf.rels).Keys
    ensures forall y :: y in hf.rels ==>
      hf.rels[y] == if y in ids then SwapPointers(old(hf.rels)[y], fst, snd) else old(hf.rels)[y]
  {
    for i := 0 to |ids|
      invariant hf.rels.Keys == old(hf.rels).Keys
      invariant forall y :: y in hf.rels ==>
        hf.rels[y] == if y in ids[..i] then SwapPointers(old(hf.rels)[y], fst, snd) else old(hf.rels)[y]
    {
      var r := hf.rels[ids[i]];
      assert ids[i] in ids && ids[i] !in ids[..i];
      r := RewriteRecord(r, fst, snd);
      hf.rels := hf.rels[ids[i] := r];
      assert ids[..i + 1] == ids[..i] + [ids[i]];
    }
    assert ids[..|ids|] == ids;
  }

  method RewriteFirsts(hf: HeapFile, nodes: seq<NodeId>, fst: RelId, snd: RelId)
    requires Distinct(nodes) && forall n :: n in nodes ==> n in hf.nodes
    modifies hf`nodes
    ensures hf.nodes.Keys == old(hf.nodes).Keys
    ensures forall n :: n in hf.nodes ==>
      hf.nodes[n] == if n in nodes then RenameNode(old(hf.nodes)[n], Exchange(fst, snd)) else old(hf.nodes)[n]
  {
    for i := 0 to |nodes|
      invariant hf.nodes.Keys == old(hf.nodes).Keys
      invariant forall n :: n in hf.nodes ==>
        hf.nodes[n] == if n in nodes[..i] then RenameNode(old(hf.nodes)[n], Exchange(fst, snd)) else old(hf.nodes)[n]
    {
      var node := hf.nodes[nodes[i]];
      assert nodes[i] in nodes && nodes[i] !in nodes[..i];
      if node.first == Some(fst) {
        node := node.(first := Some(snd));
      } else if node.first == Some(snd) {
        node := node.(first := Some(fst));
      }
      hf.nodes := hf.nodes[nodes[i] := node];
      assert nodes[..i + 1] == nodes[..i] + [nodes[i]];
    }
    assert nodes[..|nodes|] == nodes;
  }

  /** Rewriting just the listed records is rewriting all of them: nobody else mentions fst or snd. */
  lemma RewritingCovers(s: Store, t: Store, ring: map<NodeId, seq<RelId>>, fst: RelId, snd: RelId, ids: seq<RelId>,
                        nodes: seq<NodeId>)
    requires WellFormed(s, ring) && t.rels.Keys == s.rels.Keys && t.nodes.Keys == s.nodes.Keys
    requires forall y :: y in ids <==> LeadsTo(s, fst, snd, y)
    requires forall n :: n in nodes <==> TouchesNode(s, fst, snd, n)
    requires forall y :: y in t.rels ==> t.rels[y] == if y in ids then SwapPointers(s.rels[y], fst, snd) else s.rels[y]
    requires forall n :: n in t.nodes ==>
      t.nodes[n] == if n in nodes then RenameNode(s.nodes[n], Exchange(fst, snd)) else s.nodes[n]
    ensures PointersSwapped(s, t, fst, snd)
  {
    forall y | y in s.rels ensures t.rels[y] == SwapPointers(s.rels[y], fst, snd) {
      if y !in ids {
        UntouchedRecord(s, ring, fst, snd, y);
      }
    }
    forall n | n in s.nodes ensures t.nodes[n] == RenameNode(s.nodes[n], Exchange(fst, snd)) {
      if n !in nodes {
        UntouchedNode(s, ring, fst, snd, n);
      }
    }
  }

  /** Every pointer is renamed, and no record has moved yet. */
  ghost predicate PointersSwapped(s: Store, t: Store, fst: RelId, snd: RelId) {
    && t.rels.Keys == s.rels.Keys && t.nodes.Keys == s.nodes.Keys
    && (forall y :: y in s.rels ==> t.rels[y] == SwapPointers(s.rels[y], fst, snd))
    && (forall n :: n in s.nodes ==> t.nodes[n] == RenameNode(s.nodes[n], Exchange(fst, snd)))
  }

  /** The records at fst and snd change places, an empty place moving like a record. */
  ghost predicate Moved(rels: map<RelId, Rel>, rels': map<RelId, Rel>, fst: RelId, snd: RelId) {
    && (forall y :: y in rels' ==> Transpose(fst, snd, y) in rels)
    && (forall x :: x in rels ==> Transpose(fst, snd, x) in rels' && rels'[Transpose(fst, snd, x)] == rels[x])
  }

  /** The entries at fst and snd change places, an absent one moving like a present one. */
  function Exchanged<T>(m: map<nat, T>, fst: nat, snd: nat): map<nat, T> {
    if fst in m && snd in m then m[snd := m[fst]][fst := m[snd]]
    else if fst in m then (m - {fst})[snd := m[fst]]
    else if snd in m then (m - {snd})[fst := m[snd]]
    else m
  }

  lemma ExchangedMoves(rels: map<RelId, Rel>, fst: RelId, snd: RelId)
    requires fst != snd
    ensures Moved(rels, Exchanged(rels, fst, snd), fst, snd)
  {
  }

  lemma ExchangeOnto(ks: set<nat>, ks': set<nat>, fst: nat, snd: nat)
    requires forall y :: y in ks' ==> Transpose(fst, snd, y) in ks
    ensures Onto(ks, ks', Exchange(fst, snd))
  {
    forall y | y in ks' ensures Reached(ks, Exchange(fst, snd), y) {
      assert Exchange(fst, snd)(Transpose(fst, snd, y)) == y;
    }
  }

  lemma UnchangedOnto(ks: set<nat>)
    ensures Onto(ks, ks, Unchanged())
  {
    forall y | y in ks ensures Reached(ks, Unchanged(), y) {
      assert Unchanged()(y) == y;
    }
  }

  lemma MovedRelsRenamed(s: Store, t: Store, u: map<RelId, Rel>, fst: RelId, snd: RelId)
    requires PointersSwapped(s, t, fst, snd) && Moved(t.rels, u, fst, snd)
    ensures RelsRenamed(s.rels, u, Exchange(fst, snd), Unchanged())
  {
    ExchangeOnto(s.rels.Keys, u.Keys, fst, snd);
    forall x {:trigger x in s.rels} | x in s.rels
      ensures Exchange(fst, snd)(x) in u
      ensures u[Exchange(fst, snd)(x)] == RenameRel(s.rels[x], Exchange(fst, snd), Unchanged())
    {
      assert Exchange(fst, snd)(x) == Transpose(fst, snd, x);
      assert t.rels[x] == SwapPointers(s.rels[x], fst, snd);
    }
  }

  /** t is s with the two ids exchanged. */
  ghost predicate Swapped(s: Store, t: Store, fst: RelId, snd: RelId) {
    Renamed(s, t, Exchange(fst, snd), Unchanged())
  }

  lemma MovedIsRenamed(s: Store, t: Store, fst: RelId, snd: RelId)
    requires PointersSwapped(s, t, fst, snd) && fst != snd
    ensures Swapped(s, Store(t.nodes, Exchanged(t.rels, fst, snd)), fst, snd)
  {
    ExchangedMoves(t.rels, fst, snd);
    MovedRelsRenamed(s, t, Exchanged(t.rels, fst, snd), fst, snd);
    UnchangedOnto(s.nodes.Keys);
  }

  /** Slots of the file from which a record would not run over the end of its page. */
  predicate Swappable(id: nat, pages: nat) {
    id < Capacity(pages) && id % 256 + REL_STRIDE <= 256
  }

  /** The program tests for it by wrap-around of the slot number. */
  lemma SwappableGuard(id: nat, pages: nat)
    ensures Swappable(id, pages) <==> id / 256 < pages && id % 256 <= (id + (REL_STRIDE - 1)) % 256
  {
    var q, r := id / 256, id % 256;
    assert id == 256 * q + r;
    if r + 3 < 256 {
      assert (256 * q + (r + 3)) % 256 == r + 3;
    } else {
      assert (256 * (q + 1) + (r + 3 - 256)) % 256 == r + 3 - 256;
    }
  }

  /** A record position of a file with so many pages. */
  predicate Placeable(id: nat, pages: nat) {
    Aligned(id, REL_STRIDE) && id < Capacity(pages)
  }

  /**
   Move the records once all pointers are renamed: read both, set the slot bits,
   write both. A record is written only to a record position.
   */
  method MoveRecords(hf: HeapFile, fst: RelId, snd: RelId) returns (ok: bool)
    requires hf.Stored() && fst != snd && (fst in hf.rels || snd in hf.rels)
    requires Swappable(fst, hf.relSlots.pages) && Swappable(snd, hf.relSlots.pages)
    modifies hf`rels, hf.relSlots
    ensures hf.Stored() && hf.relSlots.pages == old(hf.relSlots.pages)
    ensures ok <==> Aligned(fst, REL_STRIDE) && Aligned(snd, REL_STRIDE)
    ensures hf.rels == if ok then Exchanged(old(hf.rels), fst, snd) else old(hf.rels)
  {
    var before: map<RelId, Rel> := hf.rels;
    var fstExists, sndExists := fst in before, snd in before;
    if fstExists != sndExists {
      if !Aligned(if fstExists then snd else fst, REL_STRIDE) {
        return false;
      }
      hf.relSlots.Mark(fst, sndExists);
      hf.relSlots.Mark(snd, fstExists);
      hf.rels := hf.rels - {if fstExists then fst else snd};
    }
    if fstExists {
      hf.rels := hf.rels[snd := before[fst]];
    }
    if sndExists {
      hf.rels := hf.rels[fst := before[snd]];
    }
    ok := true;
  }

  /** There is a record to move, and the other id is no record position: the program ends when it writes the record. */
  predicate Misplaces(s: Store, fst: RelId, snd: RelId) {
    fst != snd && (fst in s.rels || snd in s.rels) && !(Aligned(fst, REL_STRIDE) && Aligned(snd, REL_STRIDE))
  }

  /**
   Swap two relationship ids, either of which may be unused: the whole store is
   renamed by the transposition of the two. The program does not get through if a
   record would have to move to a slot that is no record position.
   */
  method SwapRelationships(hf: HeapFile, fst: RelId, snd: RelId, ghost ring: map<NodeId, seq<RelId>>)
    returns (ok: bool)
    requires hf.Valid(ring)
    requires Swappable(fst, hf.relSlots.pages) && Swappable(snd, hf.relSlots.pages)
    modifies hf`nodes, hf`rels, hf.relSlots
    ensures hf.relSlots.pages == old(hf.relSlots.pages) && hf.Stored()
    ensures ok <==> !Misplaces(old(hf.Contents()), fst, snd)
    ensures ok ==> hf.Contents() == Transposed(old(hf.Contents()), fst, snd)
    ensures ok ==> hf.Valid(MapRings(ring, Exchange(fst, snd)))
    ensures !ok ==> PointersSwapped(old(hf.Contents()), hf.Contents(), fst, snd)
  {
    ghost var s := hf.Contents();
    if fst == snd || (fst !in hf.rels && snd !in hf.rels) {
      SwapNothing(s, ring, fst, snd);
      ok := true;
    } else {
      ghost var t;
      ok, t := ExchangeRecords(hf, fst, snd, ring);
      MovedIsRenamed(s, t, fst, snd);
    }
    if ok {
      SwapIsTransposed(s, hf.Contents(), fst, snd, ring);
    }
  }

  lemma SwapIsTransposed(s: Store, t: Store, fst: RelId, snd: RelId, ring: map<NodeId, seq<RelId>>)
    requires WellFormed(s, ring) && Swapped(s, t, fst, snd)
    ensures t == Transposed(s, fst, snd) && WellFormed(t, MapRings(ring, Exchange(fst, snd)))
  {
    assert WellFormed(t, MapRings(ring, Exchange(fst, snd))) by {
      ExchangeInjective(fst, snd);
      RenamedRelsWellFormed(s, t, Exchange(fst, snd), ring);
    }
    assert t == Transposed(s, fst, snd) by {
      TransposedRenamed(s, fst, snd);
      RenamedUnique(s, t, Transposed(s, fst, snd), Exchange(fst, snd), Unchanged());
    }
  }

  method ExchangeRecords(hf: HeapFile, fst: RelId, snd: RelId, ghost ring: map<NodeId, seq<RelId>>)
    returns (ok: bool, ghost t: Store)
    requires hf.Valid(ring) && fst != snd && (fst in hf.rels || snd in hf.rels)
    requires Swappable(fst, hf.relSlots.pages) && Swappable(snd, hf.relSlots.pages)
    modifies hf`nodes, hf`rels, hf.relSlots
    ensures hf.Stored() && hf.relSlots.pages == old(hf.relSlots.pages)
    ensures ok <==> Aligned(fst, REL_STRIDE) && Aligned(snd, REL_STRIDE)
    ensures PointersSwapped(old(hf.Contents()), t, fst, snd)
    ensures hf.Contents() == if ok then Store(t.nodes, Exchanged(t.rels, fst, snd)) else t
  {
    RenamePointers(hf, fst, snd, ring);
    t := hf.Contents();
    ok := MoveRecords(hf, fst, snd);
  }

  /** Rename fst and snd in every pointer, leaving the records where they are. */
  method RenamePointers(hf: HeapFile, fst: RelId, snd: RelId, ghost ring: map<NodeId, seq<RelId>>)
    requires hf.Valid(ring)
    modifies hf`nodes, hf`rels
    ensures hf.Stored() && PointersSwapped(old(hf.Contents()), hf.Contents(), fst, snd)
  {
    ghost var s := hf.Contents();
    var ids, nodes := CollectAffected(hf, fst, snd);
    AffectedAreLive(s, ring, fst, snd);
    RewritePointers(hf, ids, fst, snd);
    RewriteFirsts(hf, nodes, fst, snd);
    RewritingCovers(s, hf.Contents(), ring, fst, snd, ids, nodes);
  }

  lemma AffectedAreLive(s: Store, ring: map<NodeId, seq<RelId>>, fst: RelId, snd: RelId)
    requires WellFormed(s, ring)
    ensures forall y :: LeadsTo(s, fst, snd, y) ==> y in s.rels
    ensures forall n :: TouchesNode(s, fst, snd, n) ==> n in s.nodes
  {
    forall y | LeadsTo(s, fst, snd, y) ensures y in s.rels {
      RecordNeighbours(s, ring, if fst in s.rels && Mentions(s.rels[fst], y) then fst else snd);
    }
  }

  lemma FixedRecord(s: Store, ring: map<NodeId, seq<RelId>>, fst: RelId, snd: RelId, y: RelId)
    requires WellFormed(s, ring) && (fst == snd || (fst !in s.rels && snd !in s.rels)) && y in s.rels
    ensures Exchange(fst, snd)(y) == y && SwapPointers(s.rels[y], fst, snd) == s.rels[y]
  {
    if fst != snd {
      UntouchedRecord(s, ring, fst, snd, y);
    }
  }

  lemma FixedNode(s: Store, ring: map<NodeId, seq<RelId>>, fst: RelId, snd: RelId, n: NodeId)
    requires WellFormed(s, ring) && (fst == snd || (fst !in s.rels && snd !in s.rels)) && n in s.nodes
    ensures Unchanged()(n) == n && RenameNode(s.nodes[n], Exchange(fst, snd)) == s.nodes[n]
  {
    if fst != snd {
      UntouchedNode(s, ring, fst, snd, n);
    }
  }

  lemma SwapNothing(s: Store, ring: map<NodeId, seq<RelId>>, fst: RelId, snd: RelId)
    requires WellFormed(s, ring) && (fst == snd || (fst !in s.rels && snd !in s.rels))
    ensures Swapped(s, s, fst, snd)
  {
    ExchangeOnto(s.rels.Keys, s.rels.Keys, fst, snd);
    UnchangedOnto(s.nodes.Keys);
    forall y {:trigger y in s.rels} | y in s.rels
      ensures Exchange(fst, snd)(y) == y && SwapPointers(s.rels[y], fst, snd) == s.rels[y]
    {
      FixedRecord(s, ring, fst, snd, y);
    }
    forall n {:trigger n in s.nodes} | n in s.nodes
      ensures Unchanged()(n) == n && RenameNode(s.nodes[n], Exchange(fst, snd)) == s.nodes[n]
    {
      FixedNode(s, ring, fst, snd, n);
    }
  }

  lemma UnchangedKeys(m: map<NodeId, Node>, m': map<NodeId, Node>, f: Renamer)
    requires NodesRenamed(m, m', f, Unchanged())
    ensures m.Keys == m'.Keys
  {
    forall n | n in m.Keys ensures n in m'.Keys {
      assert m[n] == m[n] && Unchanged()(n) == n;
    }
    forall n | n in m'.Keys ensures n in m.Keys {
      assert Reached(m.Keys, Unchanged(), n);
    }
  }

  ghost function MapRings(ring: map<NodeId, seq<RelId>>, f: Renamer): map<NodeId, seq<RelId>> {
    map n | n in ring :: MapIds(ring[n], f)
  }

  /** Renaming relationship ids keeps the store well formed, with the rings renamed member by member. */
  lemma RenamedRelsWellFormed(s: Store, t: Store, f: Renamer, ring: map<NodeId, seq<RelId>>)
    requires WellFormed(s, ring) && Renamed(s, t, f, Unchanged()) && Injective(f)
    ensures WellFormed(t, MapRings(ring, f))
  {
    ExchangeInjective(0, 0);
    UnchangedOnto(ring.Keys);
    UnchangedKeys(s.nodes, t.nodes, f);
    RenamedWellFormed(s, t, f, Unchanged(), ring, MapRings(ring, f));
  }

  /** Swapping the same two ids twice restores the store. */
  lemma SwapTwice(s: Store, fst: RelId, snd: RelId)
    ensures Transposed(Transposed(s, fst, snd), fst, snd) == s
  {
    var t := Transposed(s, fst, snd);
    TransposedRenamed(s, fst, snd);
    TransposedRenamed(t, fst, snd);
    RenamedCompose(s, t, Transposed(t, fst, snd), Exchange(fst, snd), Exchange(fst, snd), Unchanged(),
                   Unchanged(), Unchanged(), Unchanged());
    RenamedByNothing(s);
    RenamedUnique(s, s, Transposed(t, fst, snd), Unchanged(), Unchanged());
  }

  lemma RenamedByNothing(s: Store)
    ensures Renamed(s, s, Unchanged(), Unchanged())
  {
    UnchangedOnto(s.rels.Keys);
    UnchangedOnto(s.nodes.Keys);
  }
}
