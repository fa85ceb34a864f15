/**
 Exchanging two node ids. The endpoints stored in relationships follow only when
 the second id is in use, so moving a node with relationships to a free id
 leaves them at an id that no longer exists.
 */
module SwapNodes {
  import opened Graph
  import opened Linking
  import opened Renaming
  import opened Slots
  import opened HeapFile
  import opened Expansion
  import opened Swap

  function SwapEnds(r: Rel, fst: NodeId, snd: NodeId): Rel {
    r.(source := Transpose(fst, snd, r.source), target := Transpose(fst, snd, r.target))
  }

  function SwappedEnds(rels: map<RelId, Rel>, fst: NodeId, snd: NodeId): map<RelId, Rel> {
    map x | x in rels :: SwapEnds(rels[x], fst, snd)
  }

  /** Whoever was joined to fst is joined to snd and the other way round; nothing else changes. */
  ghost predicate EndsMoved(rels: map<RelId, Rel>, rels': map<RelId, Rel>, fst: NodeId, snd: NodeId) {
    && rels'.Keys == rels.Keys
    && forall x {:trigger rels'[x]} :: x in rels ==>
      rels'[x] == rels[x].(source := Transpose(fst, snd, rels[x].source), target := Transpose(fst, snd, rels[x].target))
  }

  /** The node records have changed places, and the endpoints have followed if the second id was in use. */
  ghost predicate NodesSwapped(s: Store, t: Store, fst: NodeId, snd: NodeId) {
    && NodesMoved(s.nodes, t.nodes, fst, snd)
    && if snd in s.nodes then EndsMoved(s.rels, t.rels, fst, snd) else t.rels == s.rels
  }

  /** The record at each id is the one that was at the id it is exchanged with, if there was one. */
  ghost predicate NodesMoved(nodes: map<NodeId, Node>, nodes': map<NodeId, Node>, fst: NodeId, snd: NodeId) {
    forall n {:trigger nodes'[n]} :: (n in nodes' <==> Transpose(fst, snd, n) in nodes)
      && (n in nodes' ==> nodes'[n] == nodes[Transpose(fst, snd, n)])
  }

  lemma SwappedNodesMove(s: Store, fst: NodeId, snd: NodeId)
    ensures NodesSwapped(s, SwappedNodes(s, fst, snd), fst, snd)
  {
    var nodes': map<NodeId, Node> := SwappedNodes(s, fst, snd).nodes;
    forall n {:trigger nodes'[n]}
      ensures (n in nodes' <==> Transpose(fst, snd, n) in s.nodes)
        && (n in nodes' ==> nodes'[n] == s.nodes[Transpose(fst, snd, n)])
    {
      NodeMoved(s, fst, snd, n);
    }
  }

  lemma NodeMoved(s: Store, fst: NodeId, snd: NodeId, n: NodeId)
    ensures var nodes' := SwappedNodes(s, fst, snd).nodes;
      && (n in nodes' <==> Transpose(fst, snd, n) in s.nodes)
      && (n in nodes' ==> nodes'[n] == s.nodes[Transpose(fst, snd, n)])
  {
  }

  /** The store that the program leaves behind. */
  function SwappedNodes(s: Store, fst: NodeId, snd: NodeId): Store {
    if fst == snd || (fst !in s.nodes && snd !in s.nodes) then s
    else Store(Exchanged(s.nodes, fst, snd), if snd in s.nodes then SwappedEnds(s.rels, fst, snd) else s.rels)
  }

  // ----- swap_nodes ----------------------------------------------------------------------

  ghost predicate Touches(s: Store, fst: NodeId, snd: NodeId, x: RelId) {
    x in s.rels && (Incident(s.rels[x], fst) || Incident(s.rels[x], snd))
  }

  /** The relationships of both nodes, each once. */
  method CollectIncident(hf: HeapFile, fst: NodeId, snd: NodeId, ghost ring: map<NodeId, seq<RelId>>)
    returns (rels: seq<RelId>)
    requires Rings(hf.Contents(), ring) && snd in hf.nodes
    ensures Distinct(rels) && forall x :: x in rels <==> Touches(hf.Contents(), fst, snd, x)
  {
    ghost var s := hf.Contents();
    NoneTouch(s, ring, fst);
    rels := [];
    if fst in hf.nodes {
      rels := ExpandAll(hf, fst, ring);
    }
    ghost var first := rels;
    var more := ExpandAll(hf, snd, ring);
    for i := 0 to |more|
      invariant Distinct(rels) && forall x :: x in rels <==> x in first || x in more[..i]
    {
      assert more[..i + 1] == more[..i] + [more[i]];
      if more[i] !in rels {
        rels := rels + [more[i]];
      }
    }
    assert more[..|more|] == more;
  }

  method ExpandAll(hf: HeapFile, n: NodeId, ghost ring: map<NodeId, seq<RelId>>) returns (rels: seq<RelId>)
    requires Rings(hf.Contents(), ring) && n in hf.nodes
    ensures Distinct(rels) && forall x :: x in rels <==> x in hf.rels && Incident(hf.rels[x], n)
  {
    assert RingAt(hf.Contents(), n, ring[n]);
    rels := Expand(hf, n, Both, ring[n]);
    ExpansionExact(hf.Contents(), n, Both, ring[n]);
    assert forall x :: Selects(hf.Contents(), n, Both, x) <==> x in hf.rels && Incident(hf.rels[x], n);
  }

  /** An id that is not in use has no relationships. */
  lemma NoneTouch(s: Store, ring: map<NodeId, seq<RelId>>, n: NodeId)
    requires Rings(s, ring)
    ensures n !in s.nodes ==> forall x :: x in s.rels ==> !Incident(s.rels[x], n)
  {
    if n !in s.nodes {
      forall x | x in s.rels ensures !Incident(s.rels[x], n) {
        assert s.rels[x].source in s.nodes && s.rels[x].target in s.nodes;
      }
    }
  }

  /** Exchange the ids in the endpoints of one record. */
  method RenameEnds(r: Rel, fst: NodeId, snd: NodeId) returns (r': Rel)
    ensures r' == SwapEnds(r, fst, snd)
  {
    r' := r;
    if r'.source == fst { r' := r'.(source := snd); } else if r'.source == snd { r' := r'.(source := fst); }
    if r'.target == fst { r' := r'.(target := snd); } else if r'.target == snd { r' := r'.(target := fst); }
  }

  method RewriteEnds(hf: HeapFile, ids: seq<RelId>, fst: NodeId, snd: NodeId)
    requires Distinct(ids) && forall x :: x in ids <==> Touches(hf.Contents(), fst, snd, x)
    modifies hf`rels
    ensures hf.rels == SwappedEnds(old(hf.rels), fst, snd)
  {
    for i := 0 to |ids|
      invariant hf.rels.Keys == old(hf.rels).Keys
      invariant forall y :: y in hf.rels ==>
        hf.rels[y] == if y in ids[..i] then SwapEnds(old(hf.rels)[y], fst, snd) else old(hf.rels)[y]
    {
      assert ids[i] in ids && ids[i] !in ids[..i];
      var r := RenameEnds(hf.rels[ids[i]], fst, snd);
      hf.rels := hf.rels[ids[i] := r];
      assert ids[..i + 1] == ids[..i] + [ids[i]];
    }
    assert ids[..|ids|] == ids;
  }

  /** Move the node records, setting the slot bits when one id was free. */
  method MoveNodes(hf: HeapFile, fst: NodeId, snd: NodeId)
    requires hf.Stored() && fst != snd && (fst in hf.nodes || snd in hf.nodes)
    requires fst < Capacity(hf.nodeSlots.pages) && snd < Capacity(hf.nodeSlots.pages)
    modifies hf`nodes, hf.nodeSlots
    ensures hf.Stored() && hf.nodes == Exchanged(old(hf.nodes), fst, snd)
  {
    var before: map<NodeId, Node> := hf.nodes;
    var fstExists, sndExists := fst in before, snd in before;
    if fstExists != sndExists {
      hf.nodeSlots.Mark(fst, sndExists);
      hf.nodeSlots.Mark(snd, fstExists);
      hf.nodes := hf.nodes - {if fstExists then fst else snd};
    }
    if fstExists {
      hf.nodes := hf.nodes[snd := before[fst]];
    }
    if sndExists {
      hf.nodes := hf.nodes[fst := before[snd]];
    }
  }

  /**
   Swap two node ids, either of which may be unused. The node records change places
   in every case; the endpoints follow only if the second id is in use.
   */
  method SwapNodeIds(hf: HeapFile, fst: NodeId, snd: NodeId, ghost ring: map<NodeId, seq<RelId>>)
    requires hf.Valid(ring) && fst < Capacity(hf.nodeSlots.pages) && snd < Capacity(hf.nodeSlots.pages)
    modifies hf`nodes, hf`rels, hf.nodeSlots
    ensures hf.Contents() == SwappedNodes(old(hf.Contents()), fst, snd) && hf.Stored()
    ensures NodesSwapped(old(hf.Contents()), hf.Contents(), fst, snd)
  {
    ghost var s := hf.Contents();
    SwapNodeRecords(hf, fst, snd, ring);
    SwappedNodesMove(s, fst, snd);
  }

  method SwapNodeRecords(hf: HeapFile, fst: NodeId, snd: NodeId, ghost ring: map<NodeId, seq<RelId>>)
    requires hf.Valid(ring) && fst < Capacity(hf.nodeSlots.pages) && snd < Capacity(hf.nodeSlots.pages)
    modifies hf`nodes, hf`rels, hf.nodeSlots
    ensures hf.Contents() == SwappedNodes(old(hf.Contents()), fst, snd) && hf.Stored()
  {
    if fst == snd || (fst !in hf.nodes && snd !in hf.nodes) {
      return;
    }
    if snd in hf.nodes {
      FollowEnds(hf, fst, snd, ring);
    }
    MoveNodes(hf, fst, snd);
  }

  method FollowEnds(hf: HeapFile, fst: NodeId, snd: NodeId, ghost ring: map<NodeId, seq<RelId>>)
    requires Rings(hf.Contents(), ring) && snd in hf.nodes
    modifies hf`rels
    ensures hf.rels == SwappedEnds(old(hf.rels), fst, snd)
  {
    var rels := CollectIncident(hf, fst, snd, ring);
    RewriteEnds(hf, rels, fst, snd);
  }

  // ----- when the swap is a transposition -----------------------------------------------

  /** The endpoints follow the nodes: the second id is in use, or the first has nothing to rename. */
  predicate Follows(s: Store, ring: map<NodeId, seq<RelId>>, fst: NodeId, snd: NodeId)
    requires ring.Keys == s.nodes.Keys
  {
    fst == snd || snd in s.nodes || fst !in s.nodes || ring[fst] == []
  }

  ghost function ExchangedRings(ring: map<NodeId, seq<RelId>>, fst: NodeId, snd: NodeId): map<NodeId, seq<RelId>> {
    map n | n in ring.Keys + {fst, snd} && Transpose(fst, snd, n) in ring :: ring[Transpose(fst, snd, n)]
  }

  lemma EndsUntouched(s: Store, fst: NodeId, snd: NodeId)
    requires forall x :: x in s.rels ==> fst == snd || (!Incident(s.rels[x], fst) && !Incident(s.rels[x], snd))
    ensures SwappedEnds(s.rels, fst, snd) == s.rels
  {
  }

  /** Where the endpoints follow, the program renames all of them. */
  lemma EndsFollow(s: Store, ring: map<NodeId, seq<RelId>>, fst: NodeId, snd: NodeId)
    requires Rings(s, ring) && Follows(s, ring, fst, snd)
    ensures SwappedNodes(s, fst, snd).rels == SwappedEnds(s.rels, fst, snd)
    ensures SwappedNodes(s, fst, snd).nodes == Exchanged(s.nodes, fst, snd)
  {
    NoneTouch(s, ring, fst);
    NoneTouch(s, ring, snd);
    if fst == snd {
      EndsUntouched(s, fst, snd);
    } else if snd !in s.nodes {
      if fst in s.nodes {
        assert RingAt(s, fst, ring[fst]);
      }
      EndsUntouched(s, fst, snd);
    }
  }

  lemma ExchangedNodesRenamed(nodes: map<NodeId, Node>, fst: NodeId, snd: NodeId)
    ensures NodesRenamed(nodes, Exchanged(nodes, fst, snd), Unchanged(), Exchange(fst, snd))
  {
    var nodes': map<NodeId, Node> := Exchanged(nodes, fst, snd);
    ExchangeOnto(nodes.Keys, nodes'.Keys, fst, snd);
    forall n {:trigger nodes[n]} | n in nodes
      ensures Exchange(fst, snd)(n) in nodes' && nodes'[Exchange(fst, snd)(n)] == RenameNode(nodes[n], Unchanged())
    {
      assert Exchange(fst, snd)(n) == Transpose(fst, snd, n);
    }
  }

  lemma SwappedEndsRenamed(s: Store, fst: NodeId, snd: NodeId)
    ensures RelsRenamed(s.rels, SwappedEnds(s.rels, fst, snd), Unchanged(), Exchange(fst, snd))
  {
    UnchangedOnto(s.rels.Keys);
  }

  lemma ExchangedRingsRenamed(ring: map<NodeId, seq<RelId>>, fst: NodeId, snd: NodeId)
    ensures RingsRenamed(ring, ExchangedRings(ring, fst, snd), Unchanged(), Exchange(fst, snd))
  {
    var ring' := ExchangedRings(ring, fst, snd);
    ExchangeOnto(ring.Keys, ring'.Keys, fst, snd);
    forall n {:trigger ring[n]} | n in ring
      ensures Exchange(fst, snd)(n) in ring' && ring'[Exchange(fst, snd)(n)] == MapIds(ring[n], Unchanged())
    {
      assert Exchange(fst, snd)(n) == Transpose(fst, snd, n);
      assert Transpose(fst, snd, Transpose(fst, snd, n)) == n;
      assert MapIds(ring[n], Unchanged()) == ring[n];
    }
  }

  lemma ExchangedKeys(s: Store, ring: map<NodeId, seq<RelId>>, fst: NodeId, snd: NodeId)
    requires ring.Keys == s.nodes.Keys
    ensures ExchangedRings(ring, fst, snd).Keys == Exchanged(s.nodes, fst, snd).Keys
  {
    forall n ensures n in ExchangedRings(ring, fst, snd) <==> n in Exchanged(s.nodes, fst, snd) {
    }
  }

  /** Where the endpoints follow, the swap is the transposition of the two node ids on the whole store. */
  lemma SwapIsTransposition(s: Store, ring: map<NodeId, seq<RelId>>, fst: NodeId, snd: NodeId)
    requires WellFormed(s, ring) && Follows(s, ring, fst, snd)
    ensures Renamed(s, SwappedNodes(s, fst, snd), Unchanged(), Exchange(fst, snd))
    ensures WellFormed(SwappedNodes(s, fst, snd), ExchangedRings(ring, fst, snd))
  {
    var t := SwappedNodes(s, fst, snd);
    assert Renamed(s, t, Unchanged(), Exchange(fst, snd)) by {
      EndsFollow(s, ring, fst, snd);
      ExchangedNodesRenamed(s.nodes, fst, snd);
      SwappedEndsRenamed(s, fst, snd);
    }
    assert ExchangedRings(ring, fst, snd).Keys == t.nodes.Keys by {
      EndsFollow(s, ring, fst, snd);
      ExchangedKeys(s, ring, fst, snd);
    }
    ExchangedRingsRenamed(ring, fst, snd);
    ExchangeInjective(fst, snd);
    RenamedWellFormed(s, t, Unchanged(), Exchange(fst, snd), ring, ExchangedRings(ring, fst, snd));
  }

  /** Rings survive exactly the swaps whose endpoints follow. */
  lemma SwapCorrectIff(s: Store, ring: map<NodeId, seq<RelId>>, fst: NodeId, snd: NodeId)
    requires WellFormed(s, ring)
    ensures HasRings(SwappedNodes(s, fst, snd)) <==> Follows(s, ring, fst, snd)
  {
    var t := SwappedNodes(s, fst, snd);
    if Follows(s, ring, fst, snd) {
      SwapIsTransposition(s, ring, fst, snd);
    } else {
      assert RingAt(s, fst, ring[fst]);
      assert ring[fst][0] in ring[fst];
      assert t.rels == s.rels && fst !in t.nodes;
      assert Incident(t.rels[ring[fst][0]], fst);
      assert !EndpointsLive(t);
    }
  }

  /** Swapping two live nodes twice restores the store. */
  lemma SwapNodesTwice(s: Store, fst: NodeId, snd: NodeId)
    requires fst in s.nodes && snd in s.nodes
    ensures SwappedNodes(SwappedNodes(s, fst, snd), fst, snd) == s
  {
    var t := SwappedNodes(s, fst, snd);
    var u := SwappedNodes(t, fst, snd);
    assert u.nodes == s.nodes;
    assert u.rels == s.rels;
  }
}
