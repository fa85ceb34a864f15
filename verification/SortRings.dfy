/**
 Sorting every node's incidence list by relationship id. Only the side that a
 walk round the node follows is rewritten, and the node's first relationship
 stays where it was.
 */
module SortRings {
  import opened Graph
  import opened Slots
  import opened HeapFile
  import opened Expansion

  function Pred(i: int, m: int): int {
    if i == 0 then m - 1 else i - 1
  }

  // ----- sorting ids -------------------------------------------------------------------

  ghost predicate SameMembers(p: seq<nat>, q: seq<nat>) {
    forall x :: x in p <==> x in q
  }

  method InsertSorted(q: seq<nat>, x: nat) returns (r: seq<nat>)
    requires Ascending(q) && x !in q
    ensures Ascending(r) && forall y :: y in r <==> y in q || y == x
    ensures |r| == |q| + 1
  {
    var k := 0;
    while k < |q| && q[k] < x
      invariant k <= |q| && forall i :: 0 <= i < k ==> q[i] < x
    {
      k := k + 1;
    }
    r := q[..k] + [x] + q[k..];
    InsertedAt(q, k, x);
  }

  lemma InsertedAt(q: seq<nat>, k: nat, x: nat)
    requires Ascending(q) && x !in q && k <= |q| && (forall i :: 0 <= i < k ==> q[i] < x) && (k < |q| ==> q[k] >= x)
    ensures var r := q[..k] + [x] + q[k..]; Ascending(r) && forall y :: y in r <==> y in q || y == x
  {
    var r := q[..k] + [x] + q[k..];
    assert q == q[..k] + q[k..];
    assert forall y :: y in r <==> y in q || y == x;
    assert forall i :: k <= i < |q| ==> x < q[i];
    forall i, j | 0 <= i < j < |r| ensures r[i] < r[j] {
      assert r[i] == if i < k then q[i] else if i == k then x else q[i - 1];
      assert r[j] == if j < k then q[j] else if j == k then x else q[j - 1];
    }
  }

  /** The distinct ids of q in ascending order. */
  method SortIds(q: seq<nat>) returns (r: seq<nat>)
    requires Distinct(q)
    ensures Ascending(r) && SameMembers(r, q) && |r| == |q|
  {
    r := [];
    for i := 0 to |q|
      invariant Ascending(r) && SameMembers(r, q[..i]) && |r| == i
    {
      assert q[i] !in q[..i];
      assert q[..i + 1] == q[..i] + [q[i]];
      r := InsertSorted(r, q[i]);
    }
    assert q[..|q|] == q;
  }

  // ----- relinking one node's list -----------------------------------------------------

  function Rewired(r: Rel, n: NodeId, prev: RelId, next: RelId): Rel {
    if r.source == n then r.(prevS := prev, nextS := next) else r.(prevT := prev, nextT := next)
  }

  /** The i-th member of q has its cyclic neighbours in q as its links in n's list. */
  predicate RewiredAt(rels: map<RelId, Rel>, rels': map<RelId, Rel>, n: NodeId, q: seq<RelId>, i: int) {
    && 0 <= i < |q| && q[i] in rels && q[i] in rels'
    && rels'[q[i]] == Rewired(rels[q[i]], n, q[Pred(i, |q|)], q[Succ(i, |q|)])
  }

  /** rels' is rels with n's list in the cyclic order q. */
  ghost predicate Arranged(rels: map<RelId, Rel>, rels': map<RelId, Rel>, n: NodeId, q: seq<RelId>) {
    && rels'.Keys == rels.Keys
    && (forall i {:trigger RewiredAt(rels, rels', n, q, i)} :: 0 <= i < |q| ==> RewiredAt(rels, rels', n, q, i))
    && (forall x {:trigger rels'[x]} :: x in rels && x !in q ==> rels'[x] == rels[x])
  }

  /** The first k members of q are rewired. */
  ghost predicate RewiredUpTo(rels: map<RelId, Rel>, rels': map<RelId, Rel>, n: NodeId, q: seq<RelId>, k: nat)
    requires k <= |q|
  {
    && rels'.Keys == rels.Keys
    && (forall i {:trigger RewiredAt(rels, rels', n, q, i)} :: 0 <= i < k ==> RewiredAt(rels, rels', n, q, i))
    && (forall x {:trigger rels'[x]} :: x in rels && x !in q[..k] ==> rels'[x] == rels[x])
  }

  lemma RewireNext(rels: map<RelId, Rel>, now: map<RelId, Rel>, n: NodeId, q: seq<RelId>, k: nat)
    requires Distinct(q) && k < |q| && q[k] in rels && RewiredUpTo(rels, now, n, q, k)
    ensures q[k] in now
    ensures RewiredUpTo(rels, now[q[k] := Rewired(now[q[k]], n, q[Pred(k, |q|)], q[Succ(k, |q|)])], n, q, k + 1)
  {
    var now' := now[q[k] := Rewired(now[q[k]], n, q[Pred(k, |q|)], q[Succ(k, |q|)])];
    assert q[..k + 1] == q[..k] + [q[k]];
    assert q[k] !in q[..k];
    forall i {:trigger RewiredAt(rels, now', n, q, i)} | 0 <= i < k + 1 ensures RewiredAt(rels, now', n, q, i) {
      if i < k {
        assert RewiredAt(rels, now, n, q, i);
      }
    }
  }

  /** Read the k-th member, rewire it, write it back. */
  method RewireRecord(hf: HeapFile, n: NodeId, q: seq<RelId>, k: nat, prev: RelId, next: RelId,
                      ghost rels: map<RelId, Rel>)
    requires Distinct(q) && k < |q| && q[k] in rels && RewiredUpTo(rels, hf.rels, n, q, k)
    requires prev == q[Pred(k, |q|)] && next == q[Succ(k, |q|)]
    modifies hf`rels
    ensures RewiredUpTo(rels, hf.rels, n, q, k + 1)
  {
    RewireNext(rels, hf.rels, n, q, k);
    var rel := hf.rels[q[k]];
    if rel.source == n {
      rel := rel.(prevS := prev, nextS := next);
    } else {
      rel := rel.(prevT := prev, nextT := next);
    }
    hf.rels := hf.rels[q[k] := rel];
  }

  /** Link the ids of q in a circle: the first, those in between, the last. */
  method Relink(hf: HeapFile, n: NodeId, q: seq<RelId>)
    requires Distinct(q) && |q| >= 3 && forall x :: x in q ==> x in hf.rels
    modifies hf`rels
    ensures Arranged(old(hf.rels), hf.rels, n, q)
  {
    ghost var rels := hf.rels;
    RewireRecord(hf, n, q, 0, q[|q| - 1], q[1], rels);
    for j := 1 to |q| - 1
      invariant RewiredUpTo(rels, hf.rels, n, q, j)
    {
      RewireRecord(hf, n, q, j, q[j - 1], q[j + 1], rels);
    }
    RewireRecord(hf, n, q, |q| - 1, q[|q| - 2], q[0], rels);
    assert q[..|q|] == q;
  }

  // ----- what relinking keeps -------------------------------------------------------------

  /** The ring that starts at position k of the circle q. */
  function Rotated(q: seq<RelId>, k: nat): (p: seq<RelId>)
    requires k < |q|
    ensures |p| == |q| && p[0] == q[k]
  {
    q[k..] + q[..k]
  }

  function Turn(i: int, k: int, m: int): int {
    if i + k < m then i + k else i + k - m
  }

  lemma RotatedAt(q: seq<RelId>, k: nat, i: nat)
    requires k < |q| && i < |q|
    ensures Rotated(q, k)[i] == q[Turn(i, k, |q|)]
    ensures Rotated(q, k)[Succ(i, |q|)] == q[Succ(Turn(i, k, |q|), |q|)]
  {
  }

  lemma RotatedDistinct(q: seq<RelId>, k: nat)
    requires Distinct(q) && k < |q|
    ensures Distinct(Rotated(q, k)) && SameMembers(Rotated(q, k), q)
  {
    assert q == q[..k] + q[k..];
  }

  /** Relinked in the order q, n's ring is q turned so that it starts where it started before. */
  lemma ArrangedLinks(s: Store, rels': map<RelId, Rel>, n: NodeId, q: seq<RelId>, k: nat, i: nat)
    requires Distinct(q) && k < |q| && i < |q| && Arranged(s.rels, rels', n, q)
    ensures var p := Rotated(q, k);
      && p[i] in rels' && p[Succ(i, |p|)] in rels'
      && NextOf(rels'[p[i]], n) == p[Succ(i, |p|)] && PrevOf(rels'[p[Succ(i, |p|)]], n) == p[i]
  {
    RotatedAt(q, k, i);
    var j := Turn(i, k, |q|);
    assert Pred(Succ(j, |q|), |q|) == j;
    assert RewiredAt(s.rels, rels', n, q, j) && RewiredAt(s.rels, rels', n, q, Succ(j, |q|));
  }

  lemma ArrangedRing(s: Store, rels': map<RelId, Rel>, n: NodeId, p: seq<RelId>, q: seq<RelId>, k: nat)
    requires n in s.nodes && RingAt(s, n, p) && SameMembers(q, p) && Distinct(q) && k < |q|
    requires s.nodes[n].first == Some(q[k]) && Arranged(s.rels, rels', n, q)
    ensures RingAt(Store(s.nodes, rels'), n, Rotated(q, k))
  {
    var t, p' := Store(s.nodes, rels'), Rotated(q, k);
    RotatedDistinct(q, k);
    forall x ensures x in p' <==> x in t.rels && Incident(t.rels[x], n) {
      if x in q {
        var i :| 0 <= i < |q| && q[i] == x;
        assert RewiredAt(s.rels, rels', n, q, i);
      }
    }
    forall i {:trigger Succ(i, |p'|)} | 0 <= i < |p'|
      ensures NextOf(t.rels[p'[i]], n) == p'[Succ(i, |p'|)] && PrevOf(t.rels[p'[Succ(i, |p'|)]], n) == p'[i]
    {
      ArrangedLinks(s, rels', n, q, k, i);
    }
  }

  /** The record keeps its ends, and its links in every list but n's. */
  ghost predicate KeptElsewhere(r: Rel, r': Rel, n: NodeId) {
    && r'.source == r.source && r'.target == r.target && r'.weight == r.weight && r'.tag == r.tag
    && forall m {:trigger NextOf(r', m)} {:trigger PrevOf(r', m)} :: m != n && Incident(r, m) ==>
      NextOf(r', m) == NextOf(r, m) && PrevOf(r', m) == PrevOf(r, m)
  }

  lemma ArrangedKept(rels: map<RelId, Rel>, rels': map<RelId, Rel>, n: NodeId, q: seq<RelId>, x: RelId)
    requires Arranged(rels, rels', n, q) && x in rels && (x in q ==> Incident(rels[x], n))
    ensures KeptElsewhere(rels[x], rels'[x], n)
  {
    if x in q {
      var i :| 0 <= i < |q| && q[i] == x;
      assert RewiredAt(rels, rels', n, q, i);
    }
  }

  /** Relinking n's list disturbs no other node's ring. */
  lemma OtherRing(s: Store, t: Store, n: NodeId, m: NodeId, p: seq<RelId>)
    requires m in s.nodes && m != n && RingAt(s, m, p) && t.nodes == s.nodes && t.rels.Keys == s.rels.Keys
    requires forall x {:trigger t.rels[x]} :: x in s.rels ==> KeptElsewhere(s.rels[x], t.rels[x], n)
    ensures RingAt(t, m, p)
  {
    forall x ensures x in p <==> x in t.rels && Incident(t.rels[x], m) {
      if x in t.rels {
        assert KeptElsewhere(s.rels[x], t.rels[x], n);
      }
    }
    forall i {:trigger Succ(i, |p|)} | 0 <= i < |p|
      ensures NextOf(t.rels[p[i]], m) == p[Succ(i, |p|)] && PrevOf(t.rels[p[Succ(i, |p|)]], m) == p[i]
    {
      assert p[i] in p && p[Succ(i, |p|)] in p;
      assert KeptElsewhere(s.rels[p[i]], t.rels[p[i]], n);
      assert KeptElsewhere(s.rels[p[Succ(i, |p|)]], t.rels[p[Succ(i, |p|)]], n);
    }
  }

  /** Relinking one node's list keeps one ring a node. */
  lemma ArrangedRings(s: Store, rels': map<RelId, Rel>, ring: map<NodeId, seq<RelId>>, n: NodeId, q: seq<RelId>, k: nat)
    requires Rings(s, ring) && n in s.nodes && SameMembers(q, ring[n]) && Distinct(q) && k < |q|
    requires s.nodes[n].first == Some(q[k]) && Arranged(s.rels, rels', n, q)
    ensures Rings(Store(s.nodes, rels'), ring[n := Rotated(q, k)])
    ensures SamePayload(s.rels, rels')
  {
    var t, ring' := Store(s.nodes, rels'), ring[n := Rotated(q, k)];
    assert RingAt(s, n, ring[n]);
    AllKept(s, rels', n, q, ring[n]);
    ArrangedRing(s, rels', n, ring[n], q, k);
    forall m {:trigger ring'[m]} | m in t.nodes ensures RingAt(t, m, ring'[m]) {
      if m != n {
        ArrangedOthers(s, rels', ring, n, m);
      }
    }
  }

  lemma AllKept(s: Store, rels': map<RelId, Rel>, n: NodeId, q: seq<RelId>, p: seq<RelId>)
    requires n in s.nodes && RingAt(s, n, p) && SameMembers(q, p) && Arranged(s.rels, rels', n, q)
    ensures forall x {:trigger rels'[x]} :: x in s.rels ==> KeptElsewhere(s.rels[x], rels'[x], n)
    ensures SamePayload(s.rels, rels')
  {
    forall x {:trigger rels'[x]} | x in s.rels ensures KeptElsewhere(s.rels[x], rels'[x], n) {
      ArrangedKept(s.rels, rels', n, q, x);
    }
  }

  lemma ArrangedOthers(s: Store, rels': map<RelId, Rel>, ring: map<NodeId, seq<RelId>>, n: NodeId, m: NodeId)
    requires Rings(s, ring) && m in s.nodes && m != n && rels'.Keys == s.rels.Keys
    requires forall x {:trigger rels'[x]} :: x in s.rels ==> KeptElsewhere(s.rels[x], rels'[x], n)
    ensures RingAt(Store(s.nodes, rels'), m, ring[m])
  {
    assert RingAt(s, m, ring[m]);
    OtherRing(s, Store(s.nodes, rels'), n, m, ring[m]);
  }

  // ----- cyclic order ----------------------------------------------------------------------

  /** Going once round, the ids fall at exactly one place. */
  ghost predicate OneDescent(q: seq<RelId>) {
    exists d :: FallsOnlyAt(q, d)
  }

  ghost predicate FallsOnlyAt(q: seq<RelId>, d: int) {
    0 <= d < |q| && forall i {:trigger Succ(i, |q|)} :: 0 <= i < |q| ==> (q[i] > q[Succ(i, |q|)] <==> i == d)
  }

  lemma RotatedDescent(q: seq<RelId>, k: nat)
    requires Ascending(q) && |q| >= 2 && k < |q|
    ensures OneDescent(Rotated(q, k))
  {
    var p, m := Rotated(q, k), |q|;
    var d := if k == 0 then m - 1 else m - 1 - k;
    forall i {:trigger Succ(i, |p|)} | 0 <= i < |p| ensures p[i] > p[Succ(i, |p|)] <==> i == d {
      RotatedAt(q, k, i);
    }
    assert FallsOnlyAt(p, d);
  }

  /** What sorting makes of one node's ring. */
  ghost predicate SortedRing(p: seq<RelId>, p': seq<RelId>) {
    SameMembers(p', p) && |p'| == |p| && if |p| < 3 then p' == p else p'[0] == p[0] && OneDescent(p')
  }

  lemma BothSelectsAll(s: Store, n: NodeId, q: seq<RelId>)
    requires forall x :: x in q ==> x in s.rels && Incident(s.rels[x], n)
    ensures Selected(s, n, Both, q) == q
  {
    if q != [] {
      BothSelectsAll(s, n, q[..|q| - 1]);
      assert q[|q| - 1] in q;
    }
  }

  // ----- what becomes of each record --------------------------------------------------------

  /** Among the members of q, b is the next id after a; the least one follows the greatest. */
  ghost predicate IsNext(q: seq<RelId>, a: RelId, b: RelId) {
    && a in q && b in q && a != b
    && forall y :: y in q ==> if a < b then !(a < y < b) else !(y > a || y < b)
  }

  /** x stands between its neighbours by id. */
  ghost predicate Between(q: seq<RelId>, prev: RelId, x: RelId, next: RelId) {
    IsNext(q, prev, x) && IsNext(q, x, next)
  }

  lemma BetweenUnique(q: seq<RelId>, prev: RelId, prev': RelId, x: RelId, next: RelId, next': RelId)
    requires Between(q, prev, x, next) && Between(q, prev', x, next')
    ensures prev == prev' && next == next'
  {
  }

  lemma AscendingNext(q: seq<RelId>, i: nat)
    requires Ascending(q) && |q| >= 2 && i < |q|
    ensures IsNext(q, q[i], q[Succ(i, |q|)])
  {
    forall y | y in q ensures var a, b := q[i], q[Succ(i, |q|)]; if a < b then !(a < y < b) else !(y > a || y < b) {
      var j :| 0 <= j < |q| && q[j] == y;
    }
  }

  lemma AscendingBetween(p: seq<RelId>, q: seq<RelId>, i: nat)
    requires Ascending(q) && |q| >= 2 && i < |q| && SameMembers(p, q)
    ensures Between(p, q[Pred(i, |q|)], q[i], q[Succ(i, |q|)])
  {
    AscendingNext(q, i);
    AscendingNext(q, Pred(i, |q|));
    assert Succ(Pred(i, |q|), |q|) == i;
  }

  predicate Long(ring: map<NodeId, seq<RelId>>, n: NodeId) {
    n in ring && |ring[n]| >= 3
  }

  /** The record x after the lists of the nodes in `done` were sorted: which sides are rewritten, and to what. */
  ghost predicate RecSorted(r: Rel, r': Rel, x: RelId, ring: map<NodeId, seq<RelId>>, done: set<NodeId>) {
    && r'.source == r.source && r'.target == r.target && r'.weight == r.weight && r'.tag == r.tag
    && (if r.source in done && Long(ring, r.source) then Between(ring[r.source], r'.prevS, x, r'.nextS)
        else r'.prevS == r.prevS && r'.nextS == r.nextS)
    && (if r.target in done && r.target != r.source && Long(ring, r.target)
        then Between(ring[r.target], r'.prevT, x, r'.nextT)
        else r'.prevT == r.prevT && r'.nextT == r.nextT)
  }

  ghost predicate RelsSorted(rels: map<RelId, Rel>, rels': map<RelId, Rel>, ring: map<NodeId, seq<RelId>>,
                             done: set<NodeId>) {
    && rels'.Keys == rels.Keys
    && forall x {:trigger rels'[x]} :: x in rels ==> RecSorted(rels[x], rels'[x], x, ring, done)
  }

  /** One node's list was brought into ascending order, or had fewer than three members and was left alone. */
  ghost predicate NodeSorted(rels: map<RelId, Rel>, rels': map<RelId, Rel>, n: NodeId, q: seq<RelId>, p: seq<RelId>) {
    if |p| < 3 then rels' == rels
    else Ascending(q) && SameMembers(p, q) && |q| == |p| && Arranged(rels, rels', n, q)
  }

  lemma RecSortedNext(rels: map<RelId, Rel>, now: map<RelId, Rel>, next: map<RelId, Rel>,
                      ring: map<NodeId, seq<RelId>>, done: set<NodeId>, n: NodeId, q: seq<RelId>, x: RelId)
    requires RelsSorted(rels, now, ring, done) && n !in done && n in ring && NodeSorted(now, next, n, q, ring[n])
    requires x in rels && (x in ring[n] <==> Incident(now[x], n))
    ensures x in next && RecSorted(rels[x], next[x], x, ring, done + {n})
  {
    assert RecSorted(rels[x], now[x], x, ring, done);
    if |ring[n]| >= 3 && x in q {
      var i :| 0 <= i < |q| && q[i] == x;
      assert RewiredAt(now, next, n, q, i);
      AscendingBetween(ring[n], q, i);
    }
  }

  lemma RelsSortedNext(rels: map<RelId, Rel>, now: map<RelId, Rel>, next: map<RelId, Rel>,
                       ring: map<NodeId, seq<RelId>>, done: set<NodeId>, n: NodeId, q: seq<RelId>)
    requires RelsSorted(rels, now, ring, done) && n !in done && n in ring && NodeSorted(now, next, n, q, ring[n])
    requires forall x :: x in now ==> (x in ring[n] <==> Incident(now[x], n))
    ensures RelsSorted(rels, next, ring, done + {n})
  {
    forall x {:trigger next[x]} | x in rels ensures RecSorted(rels[x], next[x], x, ring, done + {n}) {
      RecSortedNext(rels, now, next, ring, done, n, q, x);
    }
  }

  /** The store after sorting, record by record: the lists are determined by the ids in the old rings. */
  ghost predicate StoreSorted(s: Store, t: Store, ring: map<NodeId, seq<RelId>>) {
    t.nodes == s.nodes && RelsSorted(s.rels, t.rels, ring, s.nodes.Keys)
  }

  lemma RecSortedUnique(r: Rel, a: Rel, b: Rel, x: RelId, ring: map<NodeId, seq<RelId>>, done: set<NodeId>)
    requires RecSorted(r, a, x, ring, done) && RecSorted(r, b, x, ring, done)
    ensures a == b
  {
    if r.source in done && Long(ring, r.source) {
      BetweenUnique(ring[r.source], a.prevS, b.prevS, x, a.nextS, b.nextS);
    }
    if r.target in done && r.target != r.source && Long(ring, r.target) {
      BetweenUnique(ring[r.target], a.prevT, b.prevT, x, a.nextT, b.nextT);
    }
  }

  /** Sorting has one possible outcome. */
  lemma StoreSortedUnique(s: Store, t: Store, t': Store, ring: map<NodeId, seq<RelId>>)
    requires StoreSorted(s, t, ring) && StoreSorted(s, t', ring)
    ensures t == t'
  {
    forall x | x in s.rels ensures t.rels[x] == t'.rels[x] {
      assert RecSorted(s.rels[x], t.rels[x], x, ring, s.nodes.Keys);
      assert RecSorted(s.rels[x], t'.rels[x], x, ring, s.nodes.Keys);
      RecSortedUnique(s.rels[x], t.rels[x], t'.rels[x], x, ring, s.nodes.Keys);
    }
    assert t.rels == t'.rels;
  }

  // ----- sort_incidence_list ---------------------------------------------------------------

  /** Sort one node's list, if it has at least three members. */
  method SortNode(hf: HeapFile, n: NodeId, ghost ring: map<NodeId, seq<RelId>>)
    returns (ghost p: seq<RelId>, ghost q: seq<RelId>)
    requires Rings(hf.Contents(), ring) && n in hf.nodes
    modifies hf`rels
    ensures Rings(hf.Contents(), ring[n := p]) && SortedRing(ring[n], p)
    ensures NodeSorted(old(hf.rels), hf.rels, n, q, ring[n])
  {
    ghost var s := hf.Contents();
    assert RingAt(s, n, ring[n]);
    BothSelectsAll(s, n, ring[n]);
    var rels := Expand(hf, n, Both, ring[n]);
    p, q := rels, [];
    if |rels| < 3 {
      assert ring[n := p] == ring;
      return;
    }
    var sorted := SortIds(rels);
    q := sorted;
    Relink(hf, n, sorted);
    p := Outcome(s, hf.rels, ring, n, sorted);
  }

  /** The ring that relinking in ascending order leaves at n. */
  lemma Outcome(s: Store, rels': map<RelId, Rel>, ring: map<NodeId, seq<RelId>>, n: NodeId, q: seq<RelId>)
    returns (p: seq<RelId>)
    requires Rings(s, ring) && n in s.nodes && Arranged(s.rels, rels', n, q)
    requires Ascending(q) && SameMembers(q, ring[n]) && |q| == |ring[n]| >= 3
    ensures Rings(Store(s.nodes, rels'), ring[n := p]) && SortedRing(ring[n], p) && SamePayload(s.rels, rels')
  {
    assert RingAt(s, n, ring[n]);
    var k := StartOf(q, ring[n]);
    p := Rotated(q, k);
    RotatedDistinct(q, k);
    RotatedDescent(q, k);
    ArrangedRings(s, rels', ring, n, q, k);
  }

  /** Where the old first member stands in the sorted order. */
  lemma StartOf(sorted: seq<RelId>, p: seq<RelId>) returns (k: nat)
    requires SameMembers(sorted, p) && p != []
    ensures k < |sorted| && sorted[k] == p[0]
  {
    assert p[0] in p;
    k :| k < |sorted| && sorted[k] == p[0];
  }

  /** The rings of the listed nodes are sorted, the others as they were. */
  ghost predicate SortedFor(ring: map<NodeId, seq<RelId>>, ring': map<NodeId, seq<RelId>>, nodes: seq<NodeId>) {
    && ring'.Keys == ring.Keys
    && forall n {:trigger ring'[n]} :: n in ring ==>
      if n in nodes then SortedRing(ring[n], ring'[n]) else ring'[n] == ring[n]
  }

  lemma SortedForNext(ring: map<NodeId, seq<RelId>>, now: map<NodeId, seq<RelId>>, nodes: seq<NodeId>, i: nat,
                      p: seq<RelId>)
    requires Distinct(nodes) && i < |nodes| && SortedFor(ring, now, nodes[..i]) && nodes[i] in ring
    requires SortedRing(now[nodes[i]], p)
    ensures SortedFor(ring, now[nodes[i] := p], nodes[..i + 1])
  {
    assert nodes[i] !in nodes[..i];
    assert nodes[..i + 1] == nodes[..i] + [nodes[i]];
  }

  lemma SortedPayload(rels: map<RelId, Rel>, rels': map<RelId, Rel>, ring: map<NodeId, seq<RelId>>, done: set<NodeId>)
    requires RelsSorted(rels, rels', ring, done)
    ensures SamePayload(rels, rels')
  {
    forall x {:trigger rels'[x]} | x in rels
      ensures rels'[x].source == rels[x].source && rels'[x].target == rels[x].target
      ensures rels'[x].weight == rels[x].weight && rels'[x].tag == rels[x].tag
    {
      assert RecSorted(rels[x], rels'[x], x, ring, done);
    }
  }

  /** Every ring is sorted, the payload is untouched, and self-loops agree if and only if they were in order. */
  ghost predicate ListsSorted(s: Store, t: Store, ring: map<NodeId, seq<RelId>>, ring': map<NodeId, seq<RelId>>) {
    && StoreSorted(s, t, ring) && SamePayload(s.rels, t.rels)
    && (forall n :: n in t.nodes ==> n in ring && n in ring' && SortedRing(ring[n], ring'[n]))
    && (Coherent(s) ==> (Coherent(t) <==> SelfLoopsInOrder(s, ring)))
  }

  /**
   Sort the lists of all nodes in file order. The rings stay rings; the two sides
   of self-loops agree afterwards exactly when all self-loops of nodes with three
   or more relationships already stood in the order of ids.
   */
  method SortIncidenceLists(hf: HeapFile, ghost ring: map<NodeId, seq<RelId>>)
    returns (ghost ring': map<NodeId, seq<RelId>>)
    requires hf.Stored() && Rings(hf.Contents(), ring)
    modifies hf`rels
    ensures hf.Stored() && Rings(hf.Contents(), ring') && ListsSorted(old(hf.Contents()), hf.Contents(), ring, ring')
  {
    ghost var s := hf.Contents();
    var nodes := hf.nodeSlots.Records();
    ring' := SortAll(hf, nodes, ring);
    SortDone(s, hf.Contents(), ring, ring', nodes);
  }

  lemma SortDone(s: Store, t: Store, ring: map<NodeId, seq<RelId>>, ring': map<NodeId, seq<RelId>>, nodes: seq<NodeId>)
    requires Rings(s, ring) && t.nodes == s.nodes && forall n :: n in nodes <==> n in s.nodes
    requires RelsSorted(s.rels, t.rels, ring, Members(nodes)) && SortedFor(ring, ring', nodes)
    ensures ListsSorted(s, t, ring, ring')
  {
    assert Members(nodes) == s.nodes.Keys;
    SortedPayload(s.rels, t.rels, ring, s.nodes.Keys);
    if Coherent(s) {
      SortCoherentIff(s, t, ring);
    }
  }

  ghost function Members(nodes: seq<NodeId>): set<NodeId> {
    set n | n in nodes
  }

  method SortAll(hf: HeapFile, nodes: seq<NodeId>, ghost ring: map<NodeId, seq<RelId>>)
    returns (ghost ring': map<NodeId, seq<RelId>>)
    requires Rings(hf.Contents(), ring) && Distinct(nodes) && forall n :: n in nodes ==> n in hf.nodes
    modifies hf`rels
    ensures Rings(hf.Contents(), ring') && SortedFor(ring, ring', nodes)
    ensures RelsSorted(old(hf.rels), hf.rels, ring, Members(nodes))
  {
    ghost var before := hf.rels;
    ring' := ring;
    assert Members(nodes[..0]) == {};
    for i := 0 to |nodes|
      invariant Rings(hf.Contents(), ring') && SortedFor(ring, ring', nodes[..i])
      invariant RelsSorted(before, hf.rels, ring, Members(nodes[..i]))
    {
      ghost var now := hf.rels;
      NextUnsorted(hf.Contents(), ring, ring', nodes, i);
      ghost var p, q := SortNode(hf, nodes[i], ring');
      RelsSortedNext(before, now, hf.rels, ring, Members(nodes[..i]), nodes[i], q);
      SortedForNext(ring, ring', nodes, i, p);
      ring' := ring'[nodes[i] := p];
    }
    assert nodes[..|nodes|] == nodes;
  }

  /** The next node's list is still as it was. */
  lemma NextUnsorted(now: Store, ring: map<NodeId, seq<RelId>>, ring': map<NodeId, seq<RelId>>, nodes: seq<NodeId>,
                     i: nat)
    requires i < |nodes| && nodes[i] in now.nodes && Distinct(nodes)
    requires Rings(now, ring') && SortedFor(ring, ring', nodes[..i])
    ensures nodes[i] in ring && ring'[nodes[i]] == ring[nodes[i]]
    ensures nodes[i] !in Members(nodes[..i]) && Members(nodes[..i + 1]) == Members(nodes[..i]) + {nodes[i]}
    ensures forall x :: x in now.rels ==> (x in ring[nodes[i]] <==> Incident(now.rels[x], nodes[i]))
  {
    assert nodes[i] !in nodes[..i];
    assert nodes[..i + 1] == nodes[..i] + [nodes[i]];
    assert RingAt(now, nodes[i], ring'[nodes[i]]);
  }

  // ----- self-loops ------------------------------------------------------------------------

  /**
   Every self-loop at a node with three or more relationships stands, in the ring
   as it is, between its neighbours by id.
   */
  ghost predicate SelfLoopsInOrder(s: Store, ring: map<NodeId, seq<RelId>>) {
    forall x {:trigger s.rels[x].target} ::
      x in s.rels && s.rels[x].source == s.rels[x].target ==> InOrderAt(s, ring, x)
  }

  ghost predicate InOrderAt(s: Store, ring: map<NodeId, seq<RelId>>, x: RelId)
    requires x in s.rels
  {
    var n := s.rels[x].source;
    Long(ring, n) ==> exists i :: 0 <= i < |ring[n]| && OrderedAt(ring[n], i, x)
  }

  ghost predicate OrderedAt(q: seq<RelId>, i: int, x: RelId)
    requires 0 <= i < |q|
  {
    q[i] == x && Between(q, q[Pred(i, |q|)], x, q[Succ(i, |q|)])
  }

  lemma LoopInOrderIff(s: Store, ring: map<NodeId, seq<RelId>>, x: RelId)
    requires Rings(s, ring) && x in s.rels && s.rels[x].source == s.rels[x].target && Long(ring, s.rels[x].source)
    ensures InOrderAt(s, ring, x) <==> Between(ring[s.rels[x].source], s.rels[x].prevS, x, s.rels[x].nextS)
  {
    var n := s.rels[x].source;
    var q := ring[n];
    assert RingAt(s, n, q) && x in q;
    var i :| 0 <= i < |q| && q[i] == x;
    RingNeighboursAt(s, n, q, i);
    assert s.rels[x].prevS == q[Pred(i, |q|)] && s.rels[x].nextS == q[Succ(i, |q|)];
    assert OrderedAt(q, i, x) <==> Between(q, s.rels[x].prevS, x, s.rels[x].nextS);
    if InOrderAt(s, ring, x) {
      var k :| 0 <= k < |q| && OrderedAt(q, k, x);
      assert k == i;
    }
  }

  lemma RingNeighboursAt(s: Store, n: NodeId, q: seq<RelId>, i: nat)
    requires n in s.nodes && RingAt(s, n, q) && i < |q|
    ensures NextOf(s.rels[q[i]], n) == q[Succ(i, |q|)] && PrevOf(s.rels[q[i]], n) == q[Pred(i, |q|)]
  {
    assert NextOf(s.rels[q[i]], n) == q[Succ(i, |q|)];
    assert Succ(Pred(i, |q|), |q|) == i;
  }

  lemma LoopCoherentIff(s: Store, t: Store, ring: map<NodeId, seq<RelId>>, x: RelId)
    requires WellFormed(s, ring) && StoreSorted(s, t, ring) && x in s.rels && s.rels[x].source == s.rels[x].target
    ensures x in t.rels && (CoherentRel(t.rels[x]) <==> InOrderAt(s, ring, x))
  {
    var r, r', n := s.rels[x], t.rels[x], s.rels[x].source;
    assert CoherentRel(r) && RecSorted(r, r', x, ring, s.nodes.Keys);
    if Long(ring, n) {
      LoopInOrderIff(s, ring, x);
      if Between(ring[n], r.prevS, x, r.nextS) {
        BetweenUnique(ring[n], r.prevS, r'.prevS, x, r.nextS, r'.nextS);
      }
    }
  }

  /** Sorting keeps the two sides of every self-loop in agreement exactly when they were in order already. */
  lemma SortCoherentIff(s: Store, t: Store, ring: map<NodeId, seq<RelId>>)
    requires WellFormed(s, ring) && StoreSorted(s, t, ring)
    ensures Coherent(t) <==> SelfLoopsInOrder(s, ring)
  {
    forall x | x in s.rels && s.rels[x].source == s.rels[x].target
      ensures x in t.rels && (CoherentRel(t.rels[x]) <==> InOrderAt(s, ring, x))
    {
      LoopCoherentIff(s, t, ring, x);
    }
    NonLoopsCoherent(s, t, ring);
  }

  lemma NonLoopsCoherent(s: Store, t: Store, ring: map<NodeId, seq<RelId>>)
    requires StoreSorted(s, t, ring)
    ensures t.rels.Keys == s.rels.Keys
    ensures forall x :: x in t.rels && s.rels[x].source != s.rels[x].target ==> CoherentRel(t.rels[x])
  {
    forall x | x in t.rels && s.rels[x].source != s.rels[x].target ensures CoherentRel(t.rels[x]) {
      assert RecSorted(s.rels[x], t.rels[x], x, ring, s.nodes.Keys);
    }
  }

  /** A case a caller can see at once: no self-loop at a node with three or more relationships. */
  lemma NoLoopsInOrder(s: Store, ring: map<NodeId, seq<RelId>>)
    requires forall x {:trigger s.rels[x].target} ::
      x in s.rels && s.rels[x].source == s.rels[x].target ==> !Long(ring, s.rels[x].source)
    ensures SelfLoopsInOrder(s, ring)
  {
  }
}
