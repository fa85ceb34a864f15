/**
 Graph isomorphism between stores: the same graph under other record ids. A
 renaming moves every record to the new name of its id and renames every pointer
 in it the same way.
 */
module Renaming {
  import opened Graph
  import opened Linking

  type Renamer = nat -> nat

  ghost predicate Injective(f: Renamer) {
    forall a, b {:trigger Apart(f, a, b)} :: Apart(f, a, b)
  }

  /** f does not give two ids the same name. */
  ghost predicate Apart(f: Renamer, a: nat, b: nat) {
    f(a) == f(b) ==> a == b
  }

  function RenameRel(r: Rel, f: Renamer, g: Renamer): Rel {
    Rel(g(r.source), g(r.target), f(r.prevS), f(r.nextS), f(r.prevT), f(r.nextT), r.weight, r.tag)
  }

  function RenameFirst(first: Option<RelId>, f: Renamer): Option<RelId> {
    if first.None? then None else Some(f(first.value))
  }

  function RenameNode(n: Node, f: Renamer): Node {
    n.(first := RenameFirst(n.first, f))
  }

  /** Every member of ks' is the new name of a member of ks. */
  ghost predicate Onto(ks: set<nat>, ks': set<nat>, f: Renamer) {
    forall y {:trigger Reached(ks, f, y)} :: y in ks' ==> Reached(ks, f, y)
  }

  ghost predicate Reached(ks: set<nat>, f: Renamer, y: nat) {
    exists x :: x in ks && f(x) == y
  }

  ghost predicate RelsRenamed(m: map<RelId, Rel>, m': map<RelId, Rel>, f: Renamer, g: Renamer) {
    && (forall x {:trigger m[x]} :: x in m ==> f(x) in m' && m'[f(x)] == RenameRel(m[x], f, g))
    && Onto(m.Keys, m'.Keys, f)
  }

  ghost predicate NodesRenamed(m: map<NodeId, Node>, m': map<NodeId, Node>, f: Renamer, g: Renamer) {
    && (forall n {:trigger m[n]} :: n in m ==> g(n) in m' && m'[g(n)] == RenameNode(m[n], f))
    && Onto(m.Keys, m'.Keys, g)
  }

  /** t is s with relationship ids renamed by f and node ids by g. */
  ghost predicate Renamed(s: Store, t: Store, f: Renamer, g: Renamer) {
    RelsRenamed(s.rels, t.rels, f, g) && NodesRenamed(s.nodes, t.nodes, f, g)
  }

  // ----- a renaming is a function of the store, composes and inverts ------------

  lemma RenamedUnique(s: Store, t: Store, t': Store, f: Renamer, g: Renamer)
    requires Renamed(s, t, f, g) && Renamed(s, t', f, g)
    ensures t == t'
  {
    forall y ensures y in t.rels <==> y in t'.rels
      ensures y in t.rels && y in t'.rels ==> t.rels[y] == t'.rels[y]
    {
      if y in t.rels || y in t'.rels {
        assert Reached(s.rels.Keys, f, y);
        var x :| x in s.rels.Keys && f(x) == y;
        assert t.rels[f(x)] == RenameRel(s.rels[x], f, g);
      }
    }
    forall y ensures y in t.nodes <==> y in t'.nodes
      ensures y in t.nodes && y in t'.nodes ==> t.nodes[y] == t'.nodes[y]
    {
      if y in t.nodes || y in t'.nodes {
        assert Reached(s.nodes.Keys, g, y);
        var x :| x in s.nodes.Keys && g(x) == y;
        assert t.nodes[g(x)] == RenameNode(s.nodes[x], f);
      }
    }
    assert t.rels == t'.rels && t.nodes == t'.nodes;
  }

  /** Only the values of a renaming matter. */
  lemma SameRenaming(s: Store, t: Store, f: Renamer, f': Renamer, g: Renamer)
    requires Renamed(s, t, f, g)
    requires forall x {:trigger f(x)} {:trigger f'(x)} :: f(x) == f'(x)
    ensures Renamed(s, t, f', g)
  {
    forall y | y in t.rels ensures Reached(s.rels.Keys, f', y) {
      assert Reached(s.rels.Keys, f, y);
      var x :| x in s.rels.Keys && f(x) == y;
      assert f'(x) == y;
    }
  }

  lemma OntoCompose(ks: set<nat>, ks': set<nat>, ks'': set<nat>, f: Renamer, f': Renamer, h: Renamer)
    requires Onto(ks, ks', f) && Onto(ks', ks'', f')
    requires forall x {:trigger h(x)} :: h(x) == f'(f(x))
    ensures Onto(ks, ks'', h)
  {
    forall y | y in ks'' ensures Reached(ks, h, y) {
      assert Reached(ks', f', y);
      var z :| z in ks' && f'(z) == y;
      assert Reached(ks, f, z);
      var x :| x in ks && f(x) == z;
      assert h(x) == y;
    }
  }

  lemma RenamedCompose(s: Store, t: Store, u: Store, f: Renamer, f': Renamer, h: Renamer, g: Renamer, g': Renamer,
                       k: Renamer)
    requires Renamed(s, t, f, g) && Renamed(t, u, f', g')
    requires forall x {:trigger h(x)} :: h(x) == f'(f(x))
    requires forall x {:trigger k(x)} :: k(x) == g'(g(x))
    ensures Renamed(s, u, h, k)
  {
    OntoCompose(s.rels.Keys, t.rels.Keys, u.rels.Keys, f, f', h);
    OntoCompose(s.nodes.Keys, t.nodes.Keys, u.nodes.Keys, g, g', k);
    forall x | x in s.rels ensures h(x) in u.rels && u.rels[h(x)] == RenameRel(s.rels[x], h, k) {
      assert u.rels[f'(f(x))] == RenameRel(t.rels[f(x)], f', g');
    }
    forall n | n in s.nodes ensures k(n) in u.nodes && u.nodes[k(n)] == RenameNode(s.nodes[n], h) {
      assert u.nodes[g'(g(n))] == RenameNode(t.nodes[g(n)], f');
    }
  }

  // ----- rings -------------------------------------------------------------------

  ghost function MapIds(q: seq<RelId>, f: Renamer): seq<RelId> {
    seq(|q|, i requires 0 <= i < |q| => f(q[i]))
  }

  lemma RenamedLinks(r: Rel, f: Renamer, g: Renamer, n: NodeId)
    requires Injective(g)
    ensures Incident(RenameRel(r, f, g), g(n)) <==> Incident(r, n)
    ensures Incident(r, n) ==> NextOf(RenameRel(r, f, g), g(n)) == f(NextOf(r, n))
    ensures Incident(r, n) ==> PrevOf(RenameRel(r, f, g), g(n)) == f(PrevOf(r, n))
  {
    assert Apart(g, r.source, n) && Apart(g, r.target, n);
  }

  lemma RenamedMember(s: Store, t: Store, f: Renamer, g: Renamer, n: NodeId, q: seq<RelId>, y: RelId)
    requires RelsRenamed(s.rels, t.rels, f, g) && Injective(g) && Covers(s, n, q) && y in MapIds(q, f)
    ensures y in t.rels && Incident(t.rels[y], g(n))
  {
    var i :| 0 <= i < |q| && MapIds(q, f)[i] == y;
    assert q[i] in q;
    RenamedLinks(s.rels[q[i]], f, g, n);
  }

  lemma RenamedIncident(s: Store, t: Store, f: Renamer, g: Renamer, n: NodeId, q: seq<RelId>, y: RelId)
    requires RelsRenamed(s.rels, t.rels, f, g) && Injective(g) && Covers(s, n, q)
    requires y in t.rels && Incident(t.rels[y], g(n))
    ensures y in MapIds(q, f)
  {
    assert Reached(s.rels.Keys, f, y);
    var x :| x in s.rels.Keys && f(x) == y;
    RenamedLinks(s.rels[x], f, g, n);
    assert x in q;
    var i :| 0 <= i < |q| && q[i] == x;
    assert MapIds(q, f)[i] == y;
  }

  lemma RenamedCovers(s: Store, t: Store, f: Renamer, g: Renamer, n: NodeId, q: seq<RelId>)
    requires RelsRenamed(s.rels, t.rels, f, g) && Injective(g) && Covers(s, n, q)
    ensures Covers(t, g(n), MapIds(q, f))
  {
    forall y ensures y in MapIds(q, f) <==> y in t.rels && Incident(t.rels[y], g(n)) {
      if y in MapIds(q, f) {
        RenamedMember(s, t, f, g, n, q, y);
      } else if y in t.rels && Incident(t.rels[y], g(n)) {
        RenamedIncident(s, t, f, g, n, q, y);
      }
    }
  }

  lemma RenamedRing(s: Store, t: Store, f: Renamer, g: Renamer, n: NodeId, q: seq<RelId>)
    requires Renamed(s, t, f, g) && Injective(f) && Injective(g)
    requires n in s.nodes && RingAt(s, n, q)
    ensures g(n) in t.nodes && RingAt(t, g(n), MapIds(q, f))
  {
    var q' := MapIds(q, f);
    RenamedCovers(s, t, f, g, n, q);
    assert Distinct(q') by {
      forall i, j | 0 <= i < j < |q'| ensures q'[i] != q'[j] {
        assert Apart(f, q[i], q[j]);
      }
    }
    assert Linked(t, g(n), q') by {
      forall i {:trigger Succ(i, |q'|)} | 0 <= i < |q'|
        ensures NextOf(t.rels[q'[i]], g(n)) == q'[Succ(i, |q'|)] && PrevOf(t.rels[q'[Succ(i, |q'|)]], g(n)) == q'[i]
      {
        var j := Succ(i, |q|);
        assert q[i] in q && q[j] in q;
        RenamedLinks(s.rels[q[i]], f, g, n);
        RenamedLinks(s.rels[q[j]], f, g, n);
      }
    }
  }

  ghost predicate RingsRenamed(ring: map<NodeId, seq<RelId>>, ring': map<NodeId, seq<RelId>>, f: Renamer, g: Renamer) {
    && (forall n :: n in ring ==> g(n) in ring' && ring'[g(n)] == MapIds(ring[n], f))
    && Onto(ring.Keys, ring'.Keys, g)
  }

  lemma RenamedRecord(s: Store, t: Store, f: Renamer, g: Renamer, x: RelId)
    requires Renamed(s, t, f, g) && Injective(g) && EndpointsLive(s) && Coherent(s) && x in s.rels
    ensures f(x) in t.rels
    ensures var r := t.rels[f(x)]; CoherentRel(r) && r.source in t.nodes && r.target in t.nodes
  {
    var r := s.rels[x];
    assert CoherentRel(r) && Apart(g, r.source, r.target);
    assert t.nodes[g(r.source)] == RenameNode(s.nodes[r.source], f);
    assert t.nodes[g(r.target)] == RenameNode(s.nodes[r.target], f);
  }

  lemma RenamedRecords(s: Store, t: Store, f: Renamer, g: Renamer)
    requires Renamed(s, t, f, g) && Injective(g) && EndpointsLive(s) && Coherent(s)
    ensures EndpointsLive(t) && Coherent(t)
  {
    forall y {:trigger y in t.rels} | y in t.rels
      ensures CoherentRel(t.rels[y]) && t.rels[y].source in t.nodes && t.rels[y].target in t.nodes
    {
      assert Reached(s.rels.Keys, f, y);
      var x :| x in s.rels.Keys && f(x) == y;
      RenamedRecord(s, t, f, g, x);
    }
  }

  /** An isomorphic store is well formed, with the renamed rings. */
  lemma RenamedWellFormed(s: Store, t: Store, f: Renamer, g: Renamer,
                          ring: map<NodeId, seq<RelId>>, ring': map<NodeId, seq<RelId>>)
    requires Renamed(s, t, f, g) && Injective(f) && Injective(g)
    requires WellFormed(s, ring) && RingsRenamed(ring, ring', f, g) && ring'.Keys == t.nodes.Keys
    ensures WellFormed(t, ring')
  {
    RenamedRecords(s, t, f, g);
    forall m {:trigger ring'[m]} | m in t.nodes ensures RingAt(t, m, ring'[m]) {
      assert Reached(s.nodes.Keys, g, m);
      var n :| n in s.nodes.Keys && g(n) == m;
      assert RingAt(s, n, ring[n]);
      RenamedRing(s, t, f, g, n, ring[n]);
    }
  }

  // ----- insertion commutes with renaming -------------------------------------------

  lemma RenamedUpdate(m: map<RelId, Rel>, m': map<RelId, Rel>, f: Renamer, g: Renamer, x: RelId, r: Rel)
    requires RelsRenamed(m, m', f, g) && Injective(f)
    ensures RelsRenamed(m[x := r], m'[f(x) := RenameRel(r, f, g)], f, g)
  {
    var n: map<RelId, Rel>, n': map<RelId, Rel> := m[x := r], m'[f(x) := RenameRel(r, f, g)];
    UpdateKeys(m, x, r);
    UpdateKeys(m', f(x), RenameRel(r, f, g));
    forall y: RelId {:trigger y in n} | y in n ensures f(y) in n' && n'[f(y)] == RenameRel(n[y], f, g) {
      if y != x {
        assert y in m && Apart(f, x, y);
      }
    }
    OntoAdd(m.Keys, m'.Keys, f, x);
  }

  lemma UpdateKeys<V>(m: map<nat, V>, k: nat, v: V)
    ensures m[k := v].Keys == m.Keys + {k}
  {
  }

  lemma OntoAdd(ks: set<nat>, ks': set<nat>, f: Renamer, x: nat)
    requires Onto(ks, ks', f)
    ensures Onto(ks + {x}, ks' + {f(x)}, f)
  {
    forall y | y in ks' + {f(x)} ensures Reached(ks + {x}, f, y) {
      if y == f(x) {
        assert x in ks + {x};
      } else {
        assert Reached(ks, f, y);
        var z :| z in ks && f(z) == y;
        assert z in ks + {x};
      }
    }
  }

  lemma RenamedPatches(r: Rel, f: Renamer, g: Renamer, n: NodeId, id: RelId)
    requires Injective(g)
    ensures RenameRel(SetNext(r, n, id), f, g) == SetNext(RenameRel(r, f, g), g(n), f(id))
    ensures RenameRel(SetPrev(r, n, id), f, g) == SetPrev(RenameRel(r, f, g), g(n), f(id))
  {
    assert Apart(g, r.source, n) && Apart(g, r.target, n);
  }

  lemma RenamedEnds(s: Store, t: Store, f: Renamer, g: Renamer, n: NodeId, x: RelId)
    requires Renamed(s, t, f, g) && Injective(g) && EndsLive(s, n)
    requires s.nodes[n].first.Some? ==> Incident(s.rels[s.nodes[n].first.value], n)
    ensures EndsLive(t, g(n))
    ensures FirstIn(t, g(n), f(x)) == f(FirstIn(s, n, x)) && LastIn(t, g(n), f(x)) == f(LastIn(s, n, x))
  {
    if s.nodes[n].first.Some? {
      RenamedLinks(s.rels[s.nodes[n].first.value], f, g, n);
    }
  }

  lemma RenamedSetNext(m: map<RelId, Rel>, m': map<RelId, Rel>, f: Renamer, g: Renamer, y: RelId, n: NodeId, id: RelId)
    requires RelsRenamed(m, m', f, g) && Injective(f) && Injective(g) && y in m
    ensures f(y) in m'
    ensures RelsRenamed(m[y := SetNext(m[y], n, id)], m'[f(y) := SetNext(m'[f(y)], g(n), f(id))], f, g)
  {
    RenamedPatches(m[y], f, g, n, id);
    RenamedUpdate(m, m', f, g, y, SetNext(m[y], n, id));
  }

  lemma RenamedSetPrev(m: map<RelId, Rel>, m': map<RelId, Rel>, f: Renamer, g: Renamer, y: RelId, n: NodeId, id: RelId)
    requires RelsRenamed(m, m', f, g) && Injective(f) && Injective(g) && y in m
    ensures f(y) in m'
    ensures RelsRenamed(m[y := SetPrev(m[y], n, id)], m'[f(y) := SetPrev(m'[f(y)], g(n), f(id))], f, g)
  {
    RenamedPatches(m[y], f, g, n, id);
    RenamedUpdate(m, m', f, g, y, SetPrev(m[y], n, id));
  }

  lemma RenamedLinkEnds(m0: map<RelId, Rel>, m0': map<RelId, Rel>, f: Renamer, g: Renamer, x: RelId,
                        from: NodeId, to: NodeId, ff: RelId, lf: RelId, ft: RelId, lt: RelId)
    requires RelsRenamed(m0, m0', f, g) && Injective(f) && Injective(g)
    requires ff in m0 && lf in m0 && ft in m0 && lt in m0
    ensures f(ff) in m0' && f(lf) in m0' && f(ft) in m0' && f(lt) in m0'
    ensures RelsRenamed(LinkEnds(m0, x, from, to, ff, lf, ft, lt),
                        LinkEnds(m0', f(x), g(from), g(to), f(ff), f(lf), f(ft), f(lt)), f, g)
  {
    RenamedSetNext(m0, m0', f, g, lf, from, x);
    var m1: map<RelId, Rel> := m0[lf := SetNext(m0[lf], from, x)];
    var m1': map<RelId, Rel> := m0'[f(lf) := SetNext(m0'[f(lf)], g(from), f(x))];
    RenamedSetNext(m1, m1', f, g, lt, to, x);
    var m2: map<RelId, Rel> := m1[lt := SetNext(m1[lt], to, x)];
    var m2': map<RelId, Rel> := m1'[f(lt) := SetNext(m1'[f(lt)], g(to), f(x))];
    RenamedSetPrev(m2, m2', f, g, ff, from, x);
    var m3: map<RelId, Rel> := m2[ff := SetPrev(m2[ff], from, x)];
    var m3': map<RelId, Rel> := m2'[f(ff) := SetPrev(m2'[f(ff)], g(from), f(x))];
    RenamedSetPrev(m3, m3', f, g, ft, to, x);
  }

  lemma RenamedInsertRels(s: Store, t: Store, f: Renamer, g: Renamer, x: RelId, from: NodeId, to: NodeId,
                          weight: int, tag: nat)
    requires Renamed(s, t, f, g) && Injective(f) && Injective(g)
    requires EndsLive(s, from) && EndsLive(s, to) && EndsLive(t, g(from)) && EndsLive(t, g(to))
    requires FirstIn(t, g(from), f(x)) == f(FirstIn(s, from, x)) && LastIn(t, g(from), f(x)) == f(LastIn(s, from, x))
    requires FirstIn(t, g(to), f(x)) == f(FirstIn(s, to, x)) && LastIn(t, g(to), f(x)) == f(LastIn(s, to, x))
    ensures RelsRenamed(InsertRels(s, x, from, to, weight, tag), InsertRels(t, f(x), g(from), g(to), weight, tag), f, g)
  {
    var r, r' := FreshRel(s, x, from, to, weight, tag), FreshRel(t, f(x), g(from), g(to), weight, tag);
    assert r' == RenameRel(r, f, g);
    RenamedUpdate(s.rels, t.rels, f, g, x, r);
    RenamedLinkEnds(s.rels[x := r], t.rels[f(x) := r'], f, g, x, from, to,
                    FirstIn(s, from, x), LastIn(s, from, x), FirstIn(s, to, x), LastIn(s, to, x));
  }

  lemma RenamedSetFirst(m: map<NodeId, Node>, m': map<NodeId, Node>, f: Renamer, g: Renamer, n: NodeId, x: RelId)
    requires NodesRenamed(m, m', f, g) && Injective(g) && n in m
    ensures g(n) in m'
    ensures NodesRenamed(SetFirstIfNone(m, n, x), SetFirstIfNone(m', g(n), f(x)), f, g)
    ensures forall k :: k in m ==> k in SetFirstIfNone(m, n, x)
  {
    var a, b := SetFirstIfNone(m, n, x), SetFirstIfNone(m', g(n), f(x));
    assert a.Keys == m.Keys && b.Keys == m'.Keys;
    forall k {:trigger a[k]} | k in a ensures g(k) in b && b[g(k)] == RenameNode(a[k], f) {
      assert Apart(g, k, n) && m'[g(k)] == RenameNode(m[k], f) && m'[g(n)] == RenameNode(m[n], f);
    }
  }

  /** Creating the same relationship in isomorphic stores leaves isomorphic stores. */
  lemma RenamedInsert(s: Store, t: Store, f: Renamer, g: Renamer, ring: map<NodeId, seq<RelId>>,
                      x: RelId, from: NodeId, to: NodeId, weight: int, tag: nat)
    requires Renamed(s, t, f, g) && Injective(f) && Injective(g) && Rings(s, ring)
    requires from in s.nodes && to in s.nodes
    ensures EndsLive(s, from) && EndsLive(s, to) && EndsLive(t, g(from)) && EndsLive(t, g(to))
    ensures Renamed(Insert(s, x, from, to, weight, tag), Insert(t, f(x), g(from), g(to), weight, tag), f, g)
  {
    RingEnds(s, ring, from);
    RingEnds(s, ring, to);
    assert RingAt(s, from, ring[from]) && RingAt(s, to, ring[to]);
    RenamedEnds(s, t, f, g, from, x);
    RenamedEnds(s, t, f, g, to, x);
    RenamedInsertRels(s, t, f, g, x, from, to, weight, tag);
    RenamedSetFirst(s.nodes, t.nodes, f, g, from, x);
    RenamedSetFirst(SetFirstIfNone(s.nodes, from, x), SetFirstIfNone(t.nodes, g(from), f(x)), f, g, to, x);
  }
}
