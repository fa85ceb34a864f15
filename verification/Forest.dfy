/**
 Parent edges recorded by a search: following them from any node leads to the
 source, because along each of them the recorded distance falls, or stays and the
 parent got its distance earlier.
 */
module Forest {
  import opened Graph
  import opened Expansion
  import opened Walks

  type Distances = map<NodeId, nat>
  type Parents = map<NodeId, RelId>

  /** The distance falls from v to u, or stays the same and u has the older stamp. */
  predicate Below(dist: Distances, stamp: Distances, u: NodeId, v: NodeId) {
    && u in dist && v in dist && u in stamp && v in stamp
    && (dist[u] < dist[v] || (dist[u] == dist[v] && stamp[u] < stamp[v]))
  }

  /** The parent edge of v leads to v from the source or from a node with a parent edge, further down. */
  ghost predicate ParentEdge(s: Store, dir: Direction, src: NodeId, dist: Distances, parents: Parents,
                             stamp: Distances, v: NodeId)
    requires v in parents
  {
    var e := parents[v];
    && e in s.rels
    && var u := Other(s.rels[e], v);
      Hop(s, dir, u, e, v) && (u == src || u in parents) && Below(dist, stamp, u, v)
  }

  ghost predicate ParentForest(s: Store, dir: Direction, src: NodeId, dist: Distances, parents: Parents,
                               stamp: Distances) {
    forall v {:trigger parents[v]} :: v in parents ==> ParentEdge(s, dir, src, dist, parents, stamp, v)
  }

  ghost predicate Stamped(dist: Distances, stamp: Distances, bound: int) {
    stamp.Keys == dist.Keys && bound >= 0 && forall v {:trigger stamp[v]} :: v in stamp ==> stamp[v] < bound
  }

  ghost predicate Falling(s: Store, dir: Direction, src: NodeId, dist: Distances, parents: Parents) {
    exists stamp, bound :: Stamped(dist, stamp, bound) && ParentForest(s, dir, src, dist, parents, stamp)
  }

  lemma NoParentsFall(s: Store, dir: Direction, src: NodeId)
    ensures Falling(s, dir, src, map[src := 0], map[])
  {
    assert Stamped(map[src := 0], map[src := 0], 1);
    assert ParentForest(s, dir, src, map[src := 0], map[], map[src := 0]);
  }

  /** A fresh, latest stamp for a node that gets a smaller distance keeps every parent edge falling. */
  lemma SetParent(s: Store, dir: Direction, src: NodeId, dist: Distances, parents: Parents,
                  u: NodeId, e: RelId, v: NodeId, reach: nat)
    requires Falling(s, dir, src, dist, parents)
    requires u in dist && (u == src || u in parents) && Hop(s, dir, u, e, v)
    requires dist[u] <= reach && (v in dist ==> reach < dist[v])
    ensures Falling(s, dir, src, dist[v := reach], parents[v := e])
  {
    var stamp, bound :| Stamped(dist, stamp, bound) && ParentForest(s, dir, src, dist, parents, stamp);
    var dist', parents', stamp' := dist[v := reach], parents[v := e], stamp[v := bound];
    HopBack(s, dir, u, e, v);
    forall w | w in parents' ensures ParentEdge(s, dir, src, dist', parents', stamp', w) {
      if w != v {
        assert ParentEdge(s, dir, src, dist, parents, stamp, w);
      }
    }
    assert Stamped(dist', stamp', bound + 1);
  }

  /** es spells the parent edges back from v to src. */
  ghost predicate FollowsParents(s: Store, parents: Parents, src: NodeId, v: NodeId, es: seq<RelId>)
    decreases |es|
  {
    if es == [] then v == src
    else
      && v in parents && parents[v] == es[|es| - 1] && parents[v] in s.rels
      && FollowsParents(s, parents, src, Other(s.rels[parents[v]], v), es[..|es| - 1])
  }

  /** The distance of each node is that of its parent and the cost of the parent edge. */
  ghost predicate Tight(s: Store, m: Measure, dist: Distances, parents: Parents) {
    forall v {:trigger parents[v]} :: v in parents ==>
      && parents[v] in s.rels
      && var u := Other(s.rels[parents[v]], v);
        u in dist && v in dist && dist[v] == dist[u] + HopCost(m, s.rels[parents[v]])
  }

  /** The parent edges back from v are a walk from the source whose cost is v's distance. */
  ghost predicate Spells(s: Store, dir: Direction, m: Measure, src: NodeId, dist: Distances, parents: Parents,
                         v: NodeId, es: seq<RelId>) {
    v in dist && FollowsParents(s, parents, src, v, es) && IsWalk(s, dir, src, es, v) && Cost(s, m, es) == dist[v]
  }

  lemma {:induction false} ParentWalk(s: Store, dir: Direction, m: Measure, src: NodeId, dist: Distances,
                                      parents: Parents, stamp: Distances, v: NodeId) returns (es: seq<RelId>)
    requires ParentForest(s, dir, src, dist, parents, stamp) && Tight(s, m, dist, parents)
    requires src in dist && dist[src] == 0 && src !in parents
    requires v == src || v in parents
    ensures Spells(s, dir, m, src, dist, parents, v, es)
    decreases if v in dist then dist[v] else 0, if v in stamp then stamp[v] else 0
  {
    if v == src {
      return [];
    }
    var e := parents[v];
    assert ParentEdge(s, dir, src, dist, parents, stamp, v);
    var u := Other(s.rels[e], v);
    var before := ParentWalk(s, dir, m, src, dist, parents, stamp, u);
    WalkSnoc(s, dir, m, src, before, u, e, v);
    es := before + [e];
    assert es[..|es| - 1] == before;
  }

  /** Every reached node has such a walk. */
  lemma ParentsSpell(s: Store, dir: Direction, m: Measure, src: NodeId, dist: Distances, parents: Parents)
    requires Falling(s, dir, src, dist, parents) && Tight(s, m, dist, parents)
    requires src in dist && dist[src] == 0 && src !in parents
    ensures forall v :: v in parents ==> exists es :: Spells(s, dir, m, src, dist, parents, v, es)
  {
    var stamp, bound :| Stamped(dist, stamp, bound) && ParentForest(s, dir, src, dist, parents, stamp);
    forall v | v in parents ensures exists es :: Spells(s, dir, m, src, dist, parents, v, es) {
      var es := ParentWalk(s, dir, m, src, dist, parents, stamp, v);
    }
  }

  // ----- labels as distances --------------------------------------------------------------

  /** The labels that are finite. */
  function Finite(labels: Labels): Distances {
    map v: NodeId | v in labels && labels[v].Some? :: labels[v].value
  }

  lemma FiniteUpdate(labels: Labels, v: NodeId, k: nat)
    ensures Finite(labels[v := Some(k)]) == Finite(labels)[v := k]
  {
  }
}
