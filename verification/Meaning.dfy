/**
 What renaming record ids leaves alone: walks, their costs, and so every answer
 of the traversals. Reordering and swapping are renamings, and so is the step
 from the in-memory graph to the heap file.
 */
module Meaning {
  import opened Graph
  import opened Renaming
  import opened Expansion
  import opened Walks
  import opened Swap
  import opened Reorder
  import opened Runs

  // ----- single hops and expansions -----------------------------------------------------

  lemma SelectsRenamed(s: Store, t: Store, f: Renamer, g: Renamer, dir: Direction, u: NodeId, e: RelId)
    requires Renamed(s, t, f, g) && Injective(g) && e in s.rels
    ensures f(e) in t.rels && (Selects(t, g(u), dir, f(e)) <==> Selects(s, u, dir, e))
    ensures Other(t.rels[f(e)], g(u)) == g(Other(s.rels[e], u))
    ensures forall m: Measure :: HopCost(m, t.rels[f(e)]) == HopCost(m, s.rels[e])
  {
    assert t.rels[f(e)] == RenameRel(s.rels[e], f, g);
    assert Apart(g, s.rels[e].source, u) && Apart(g, s.rels[e].target, u);
  }

  lemma MapIdsSnoc(q: seq<RelId>, x: RelId, f: Renamer)
    ensures MapIds(q + [x], f) == MapIds(q, f) + [f(x)]
  {
  }

  /** Expanding the renamed node round the renamed ring gives the renamed expansion. */
  lemma {:induction false} SelectedRenamed(s: Store, t: Store, f: Renamer, g: Renamer, dir: Direction, n: NodeId,
                                           q: seq<RelId>)
    requires Renamed(s, t, f, g) && Injective(g) && forall x :: x in q ==> x in s.rels
    ensures Selected(t, g(n), dir, MapIds(q, f)) == MapIds(Selected(s, n, dir, q), f)
  {
    if q != [] {
      var k, x := |q| - 1, q[|q| - 1];
      SelectedRenamed(s, t, f, g, dir, n, q[..k]);
      SelectsRenamed(s, t, f, g, dir, n, x);
      MapIdsLast(q, f);
      MapIdsSnoc(Selected(s, n, dir, q[..k]), x, f);
    }
  }

  lemma MapIdsLast(q: seq<RelId>, f: Renamer)
    requires q != []
    ensures var k, p := |q| - 1, MapIds(q, f);
      |p| == |q| && p[k] == f(q[k]) && p[..k] == MapIds(q[..k], f)
  {
  }

  // ----- walks ------------------------------------------------------------------------------

  lemma {:induction false} WalkRenamed(s: Store, t: Store, f: Renamer, g: Renamer, dir: Direction, m: Measure,
                                       u: NodeId, es: seq<RelId>, v: NodeId)
    requires Renamed(s, t, f, g) && Injective(g) && IsWalk(s, dir, u, es, v)
    ensures IsWalk(t, dir, g(u), MapIds(es, f), g(v)) && Cost(t, m, MapIds(es, f)) == Cost(s, m, es)
    decreases |es|
  {
    if es != [] {
      SelectsRenamed(s, t, f, g, dir, u, es[0]);
      WalkRenamed(s, t, f, g, dir, m, Other(s.rels[es[0]], u), es[1..], v);
      assert MapIds(es, f)[1..] == MapIds(es[1..], f);
    }
  }

  /** Every walk in the renamed store from a renamed node is a renamed walk. */
  lemma {:induction false} WalkUnrenamed(s: Store, t: Store, f: Renamer, g: Renamer, dir: Direction, m: Measure,
                                         u: NodeId, es': seq<RelId>, w: NodeId)
    returns (es: seq<RelId>, v: NodeId)
    requires Renamed(s, t, f, g) && Injective(g) && IsWalk(t, dir, g(u), es', w)
    ensures w == g(v) && IsWalk(s, dir, u, es, v) && Cost(t, m, es') == Cost(s, m, es)
    decreases |es'|
  {
    if es' == [] {
      return [], u;
    }
    assert Reached(s.rels.Keys, f, es'[0]);
    var e :| e in s.rels.Keys && f(e) == es'[0];
    SelectsRenamed(s, t, f, g, dir, u, e);
    var rest;
    rest, v := WalkUnrenamed(s, t, f, g, dir, m, Other(s.rels[e], u), es'[1..], w);
    WalkCons(s, dir, m, u, e, Other(s.rels[e], u), rest, v);
    es := [e] + rest;
  }

  /** Renaming keeps which costs walks between two nodes can have. */
  lemma AttainedRenamed(s: Store, t: Store, f: Renamer, g: Renamer, dir: Direction, m: Measure, u: NodeId, v: NodeId,
                        k: int)
    requires Renamed(s, t, f, g) && Injective(g)
    ensures Attained(t, dir, m, g(u), g(v), k) <==> Attained(s, dir, m, u, v, k)
  {
    if Attained(s, dir, m, u, v, k) {
      var es :| IsWalk(s, dir, u, es, v) && Cost(s, m, es) == k;
      WalkRenamed(s, t, f, g, dir, m, u, es, v);
    }
    if Attained(t, dir, m, g(u), g(v), k) {
      var es' :| IsWalk(t, dir, g(u), es', g(v)) && Cost(t, m, es') == k;
      var es, v' := WalkUnrenamed(s, t, f, g, dir, m, u, es', g(v));
      assert Apart(g, v', v);
    }
  }

  /** Reachability, shortest distances and hop counts are the same before and after. */
  lemma DistancesRenamed(s: Store, t: Store, f: Renamer, g: Renamer, dir: Direction, m: Measure, u: NodeId,
                         v: NodeId, k: int)
    requires Renamed(s, t, f, g) && Injective(g)
    ensures Least(t, dir, m, g(u), g(v), k) <==> Least(s, dir, m, u, v, k)
    ensures Reachable(t, dir, g(u), g(v)) <==> Reachable(s, dir, u, v)
  {
    AttainedRenamed(s, t, f, g, dir, m, u, v, k);
    forall es | IsWalk(s, dir, u, es, v)
      ensures Reachable(t, dir, g(u), g(v)) && (Least(t, dir, m, g(u), g(v), k) ==> k <= Cost(s, m, es))
    {
      WalkRenamed(s, t, f, g, dir, m, u, es, v);
    }
    forall es' | IsWalk(t, dir, g(u), es', g(v))
      ensures Reachable(s, dir, u, v) && (Least(s, dir, m, u, v, k) ==> k <= Cost(t, m, es'))
    {
      var es, v' := WalkUnrenamed(s, t, f, g, dir, m, u, es', g(v));
      assert Apart(g, v', v);
    }
  }

  // ----- what follows for the operations -----------------------------------------------------

  /** Reordering relationship ids changes no distance between nodes. */
  lemma ReorderKeepsDistances(s: Store, t: Store, newIds: Dict, dir: Direction, m: Measure, u: NodeId, v: NodeId,
                              k: int)
    requires Renamed(s, t, Placement(newIds), Unchanged())
    ensures Least(t, dir, m, u, v, k) <==> Least(s, dir, m, u, v, k)
    ensures Reachable(t, dir, u, v) <==> Reachable(s, dir, u, v)
  {
    ExchangeInjective(0, 0);
    DistancesRenamed(s, t, Placement(newIds), Unchanged(), dir, m, u, v, k);
  }

  lemma SpacingInjective()
    ensures Injective(Times4) && Injective(Same)
  {
    forall a, b ensures Apart(Times4, a, b) && Apart(Same, a, b) {
    }
  }

  /**
   After the same creations, expanding a node in the heap file and in the
   in-memory graph lists the same relationships in the same order.
   */
  lemma ExpansionsAgree(ops: seq<Op>, n: NodeId, dir: Direction)
    requires WellPosed(ops) && n < NodeCount(ops)
    ensures n in BuiltRings(ops, 1) && n in BuiltRings(ops, 4)
    ensures Selected(Built(ops, 4), n, dir, BuiltRings(ops, 4)[n])
      == MapIds(Selected(Built(ops, 1), n, dir, BuiltRings(ops, 1)[n]), Times4)
  {
    var s, t := Built(ops, 1), Built(ops, 4);
    BuiltWellFormed(ops, 1);
    BuiltWellFormed(ops, 4);
    BuiltIsomorphic(ops);
    SpacingInjective();
    assert RingAt(s, n, BuiltRings(ops, 1)[n]) && RingAt(t, n, BuiltRings(ops, 4)[n]);
    RenamedRing(s, t, Times4, Same, n, BuiltRings(ops, 1)[n]);
    RingUnique(t, n, MapIds(BuiltRings(ops, 1)[n], Times4), BuiltRings(ops, 4)[n]);
    SelectedRenamed(s, t, Times4, Same, dir, n, BuiltRings(ops, 1)[n]);
  }

  /** Distances in the two are the same as well. */
  lemma DistancesAgree(ops: seq<Op>, dir: Direction, m: Measure, u: NodeId, v: NodeId, k: int)
    requires WellPosed(ops)
    ensures Least(Built(ops, 4), dir, m, u, v, k) <==> Least(Built(ops, 1), dir, m, u, v, k)
  {
    BuiltIsomorphic(ops);
    SpacingInjective();
    DistancesRenamed(Built(ops, 1), Built(ops, 4), Times4, Same, dir, m, u, v, k);
  }
}
