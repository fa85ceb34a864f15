/**
 The stored multigraph: node and relationship records, and the circular
 incidence lists ("rings") that the prev/next pointers of the relationship
 records spell out around every node.
 */
module Graph {
  type NodeId = nat
  type RelId = nat

  /** An id field that may hold the "uninitialized" marker. */
  datatype Option<+T> = None | Some(value: T)

  // `tag` is the record field that the source calls label, a keyword here.
  datatype Node = Node(first: Option<RelId>, tag: nat)

  /**
   A relationship record carries one prev/next pair for the list of its source
   node and one for the list of its target node. Weights are doubles in the
   source; every finite double is an integer multiple of 2^-1074, and that
   integer is what is kept here.
   */
  datatype Rel = Rel(
    source: NodeId, target: NodeId,
    prevS: RelId, nextS: RelId, prevT: RelId, nextT: RelId,
    weight: int, tag: nat)

  datatype Store = Store(nodes: map<NodeId, Node>, rels: map<RelId, Rel>)

  datatype Direction = Outgoing | Incoming | Both

  // ----- one record seen from one node -------------------------------------

  predicate Incident(r: Rel, n: NodeId) {
    r.source == n || r.target == n
  }

  /** The side a walk round n's list follows: source wins on a self-loop. */
  function NextOf(r: Rel, n: NodeId): RelId {
    if r.source == n then r.nextS else r.nextT
  }

  function PrevOf(r: Rel, n: NodeId): RelId {
    if r.source == n then r.prevS else r.prevT
  }

  predicate Matches(r: Rel, n: NodeId, dir: Direction) {
    (r.source == n && dir != Incoming) || (r.target == n && dir != Outgoing)
  }

  /** The node a traversal reaches when it leaves n along r. */
  function Other(r: Rel, n: NodeId): NodeId {
    if n == r.source then r.target else r.source
  }

  /** A self-loop stores the same list twice; its two sides must agree. */
  predicate CoherentRel(r: Rel) {
    r.source == r.target ==> r.nextS == r.nextT && r.prevS == r.prevT
  }

  // ----- rings ---------------------------------------------------------------

  /** Cyclic successor of position i in a ring of m members. */
  function Succ(i: int, m: int): int {
    if i + 1 == m then 0 else i + 1
  }

  ghost predicate Distinct<T>(q: seq<T>) {
    forall i, j :: 0 <= i < j < |q| ==> q[i] != q[j]
  }

  /** The members of q are exactly the live relationships incident to n. */
  ghost predicate Covers(s: Store, n: NodeId, q: seq<RelId>) {
    forall x :: x in q <==> x in s.rels && Incident(s.rels[x], n)
  }

  /** next leads from each member to its cyclic successor, and prev leads back. */
  ghost predicate Linked(s: Store, n: NodeId, q: seq<RelId>)
    requires forall x :: x in q ==> x in s.rels
  {
    forall i {:trigger Succ(i, |q|)} :: 0 <= i < |q| ==>
      && NextOf(s.rels[q[i]], n) == q[Succ(i, |q|)]
      && PrevOf(s.rels[q[Succ(i, |q|)]], n) == q[i]
  }

  function FirstOf(q: seq<RelId>): Option<RelId> {
    if q == [] then None else Some(q[0])
  }

  ghost predicate RingAt(s: Store, n: NodeId, q: seq<RelId>)
    requires n in s.nodes
  {
    && Distinct(q)
    && Covers(s, n, q)
    && Linked(s, n, q)
    && s.nodes[n].first == FirstOf(q)
  }

  ghost predicate EndpointsLive(s: Store) {
    forall x {:trigger s.rels[x].source} {:trigger s.rels[x].target} ::
       x in s.rels ==> s.rels[x].source in s.nodes && s.rels[x].target in s.nodes
  }

  /** Every live node's pointers form one ring, and `ring` names it. */
  ghost predicate Rings(s: Store, ring: map<NodeId, seq<RelId>>) {
    && ring.Keys == s.nodes.Keys
    && EndpointsLive(s)
    && forall n {:trigger ring[n]} :: n in s.nodes ==> RingAt(s, n, ring[n])
  }

  ghost predicate Coherent(s: Store) {
    forall x {:trigger CoherentRel(s.rels[x])} :: x in s.rels ==> CoherentRel(s.rels[x])
  }

  /** The invariant of the store: one ring a node, self-loops coherent. */
  ghost predicate WellFormed(s: Store, ring: map<NodeId, seq<RelId>>) {
    Rings(s, ring) && Coherent(s)
  }

  // ----- consequences ----------------------------------------------------------

  /** Following next from `first` i times. */
  ghost function Walk(s: Store, n: NodeId, start: RelId, steps: nat): RelId
  {
    if steps == 0 then start
    else
      var x := Walk(s, n, start, steps - 1);
      if x in s.rels then NextOf(s.rels[x], n) else x
  }

  lemma {:induction false} WalkVisitsRing(s: Store, n: NodeId, q: seq<RelId>, i: nat)
    requires n in s.nodes && RingAt(s, n, q) && i < |q|
    ensures Walk(s, n, q[0], i) == q[i]
  {
    if i > 0 {
      WalkVisitsRing(s, n, q, i - 1);
      assert Succ(i - 1, |q|) == i;
    }
  }

  /** Walking as many steps as there are incident relationships comes back to the start. */
  lemma WalkCloses(s: Store, n: NodeId, q: seq<RelId>)
    requires n in s.nodes && RingAt(s, n, q) && q != []
    ensures Walk(s, n, q[0], |q|) == q[0]
  {
    WalkVisitsRing(s, n, q, |q| - 1);
    assert Succ(|q| - 1, |q|) == 0;
  }

  lemma {:induction false} RingPrefixUnique(s: Store, n: NodeId, p: seq<RelId>, q: seq<RelId>, i: nat)
    requires n in s.nodes && RingAt(s, n, p) && RingAt(s, n, q)
    requires i < |p|
    ensures i < |q| && p[i] == q[i]
  {
    if i == 0 {
      assert s.nodes[n].first == Some(p[0]);
    } else {
      RingPrefixUnique(s, n, p, q, i - 1);
      assert Succ(i - 1, |p|) == i;
      assert q[Succ(i - 1, |q|)] == NextOf(s.rels[q[i - 1]], n);
    }
  }

  /** The pointers determine the ring: there is only one. */
  lemma RingUnique(s: Store, n: NodeId, p: seq<RelId>, q: seq<RelId>)
    requires n in s.nodes && RingAt(s, n, p) && RingAt(s, n, q)
    ensures p == q
  {
    forall i | 0 <= i < |p| ensures i < |q| && p[i] == q[i] {
      RingPrefixUnique(s, n, p, q, i);
    }
    forall i | 0 <= i < |q| ensures i < |p| && p[i] == q[i] {
      RingPrefixUnique(s, n, q, p, i);
    }
    if |p| < |q| {
      RingPrefixUnique(s, n, q, p, |p|);
      assert false;
    }
    if |q| < |p| {
      RingPrefixUnique(s, n, p, q, |q|);
      assert false;
    }
  }

  lemma RingsUnique(s: Store, ring: map<NodeId, seq<RelId>>, ring': map<NodeId, seq<RelId>>)
    requires Rings(s, ring) && Rings(s, ring')
    ensures ring == ring'
  {
    forall n | n in ring ensures ring[n] == ring'[n] {
      RingUnique(s, n, ring[n], ring'[n]);
    }
  }

  /** The neighbours of a member are live, incident to the same node, and point back. */
  lemma RingNeighbours(s: Store, n: NodeId, q: seq<RelId>, x: RelId)
    requires n in s.nodes && RingAt(s, n, q) && x in q
    ensures var r := s.rels[x];
      && NextOf(r, n) in q && PrevOf(r, n) in q
      && PrevOf(s.rels[NextOf(r, n)], n) == x
      && NextOf(s.rels[PrevOf(r, n)], n) == x
  {
    var i :| 0 <= i < |q| && q[i] == x;
    assert NextOf(s.rels[q[i]], n) == q[Succ(i, |q|)];
    var j := if i == 0 then |q| - 1 else i - 1;
    assert Succ(j, |q|) == i;
  }

  /** A member of a list is its last one or comes before it. */
  lemma LastOrBefore<T>(q: seq<T>)
    requires q != []
    ensures forall x :: x in q <==> x == q[|q| - 1] || x in q[..|q| - 1]
  {
    assert q == q[..|q| - 1] + [q[|q| - 1]];
  }

  // ----- taking one element out of a list -----------------------------------------

  function Without<T(==)>(q: seq<T>, x: T): seq<T> {
    if q == [] then [] else if q[0] == x then q[1..] else [q[0]] + Without(q[1..], x)
  }

  lemma {:induction false} WithoutAt<T>(q: seq<T>, x: T, k: nat)
    requires k < |q| && q[k] == x && Distinct(q)
    ensures Without(q, x) == q[..k] + q[k + 1..]
  {
    if k > 0 {
      assert q[0] != q[k];
      WithoutAt(q[1..], x, k - 1);
      assert q[1..][..k - 1] == q[1..k];
    }
  }

  lemma {:induction false} WithoutAbsent<T>(q: seq<T>, x: T)
    requires x !in q
    ensures Without(q, x) == q
  {
    if q != [] {
      WithoutAbsent(q[1..], x);
    }
  }

  lemma {:induction false} WithoutLast<T>(q: seq<T>, x: T)
    requires x !in q
    ensures Without(q + [x], x) == q
  {
    if q != [] {
      WithoutLast(q[1..], x);
      assert (q + [x])[1..] == q[1..] + [x];
    }
  }

  lemma CutMembers<T>(q: seq<T>, k: nat)
    requires k < |q| && Distinct(q)
    ensures Distinct(q[..k] + q[k + 1..])
    ensures forall y :: y in q[..k] + q[k + 1..] <==> y in q && y != q[k]
  {
    var q' := q[..k] + q[k + 1..];
    forall y | y in q && y != q[k] ensures y in q' {
      var i :| 0 <= i < |q| && q[i] == y;
      assert q'[if i < k then i else i - 1] == y;
    }
  }

  lemma WithoutExact<T>(q: seq<T>, x: T)
    requires Distinct(q)
    ensures Distinct(Without(q, x)) && forall y :: y in Without(q, x) <==> y in q && y != x
  {
    if k :| 0 <= k < |q| && q[k] == x {
      WithoutAt(q, x, k);
      CutMembers(q, k);
    } else {
      WithoutAbsent(q, x);
    }
  }

  // ----- what the rings do not say ------------------------------------------------

  /** The same relationships between the same nodes, with the same weights and labels. */
  ghost predicate SamePayload(rels: map<RelId, Rel>, rels': map<RelId, Rel>) {
    && rels'.Keys == rels.Keys
    && forall x {:trigger rels'[x]} :: x in rels ==>
      && rels'[x].source == rels[x].source && rels'[x].target == rels[x].target
      && rels'[x].weight == rels[x].weight && rels'[x].tag == rels[x].tag
  }

  ghost predicate SameTags(nodes: map<NodeId, Node>, nodes': map<NodeId, Node>) {
    nodes'.Keys == nodes.Keys && forall n {:trigger nodes'[n]} :: n in nodes ==> nodes'[n].tag == nodes[n].tag
  }

  lemma SameLinks(s: Store, t: Store, n: NodeId, q: seq<RelId>, x: RelId)
    requires n in s.nodes && n in t.nodes && RingAt(s, n, q) && RingAt(t, n, q) && x in q
    ensures NextOf(s.rels[x], n) == NextOf(t.rels[x], n) && PrevOf(s.rels[x], n) == PrevOf(t.rels[x], n)
  {
    var i :| 0 <= i < |q| && q[i] == x;
    assert NextOf(s.rels[q[i]], n) == q[Succ(i, |q|)];
    var j := if i == 0 then |q| - 1 else i - 1;
    assert Succ(j, |q|) == i;
  }

  lemma SameRecord(s: Store, t: Store, ring: map<NodeId, seq<RelId>>, x: RelId)
    requires WellFormed(s, ring) && WellFormed(t, ring) && SamePayload(s.rels, t.rels) && x in s.rels
    ensures s.rels[x] == t.rels[x]
  {
    var r, r' := s.rels[x], t.rels[x];
    assert r'.source == r.source && CoherentRel(r) && CoherentRel(r');
    assert RingAt(s, r.source, ring[r.source]) && RingAt(s, r.target, ring[r.target]);
    assert RingAt(t, r.source, ring[r.source]) && RingAt(t, r.target, ring[r.target]);
    SameLinks(s, t, r.source, ring[r.source], x);
    SameLinks(s, t, r.target, ring[r.target], x);
  }

  /** Rings and payload together are the whole store. */
  lemma StoreDetermined(s: Store, t: Store, ring: map<NodeId, seq<RelId>>)
    requires WellFormed(s, ring) && WellFormed(t, ring)
    requires SamePayload(s.rels, t.rels) && SameTags(s.nodes, t.nodes)
    ensures s == t
  {
    forall x | x in s.rels ensures s.rels[x] == t.rels[x] {
      SameRecord(s, t, ring, x);
    }
    forall n | n in s.nodes ensures s.nodes[n] == t.nodes[n] {
      assert RingAt(s, n, ring[n]) && RingAt(t, n, ring[n]);
      assert t.nodes[n].tag == s.nodes[n].tag;
    }
    assert s.rels == t.rels && s.nodes == t.nodes;
  }
}
