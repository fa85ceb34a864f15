/**
 Walks through the stored graph in a direction, their weight and length: the
 reference that the traversals are measured against.
 */
module Walks {
  import opened Graph
  import opened Expansion

  /** Relationship e leads from u to v in direction dir. */
  predicate Hop(s: Store, dir: Direction, u: NodeId, e: RelId, v: NodeId) {
    Selects(s, u, dir, e) && v == Other(s.rels[e], u)
  }

  ghost predicate IsWalk(s: Store, dir: Direction, u: NodeId, es: seq<RelId>, v: NodeId)
    decreases es
  {
    if es == [] then u == v
    else Selects(s, u, dir, es[0]) && IsWalk(s, dir, Other(s.rels[es[0]], u), es[1..], v)
  }

  /** What a hop costs: its weight for shortest paths, one for breadth-first levels. */
  datatype Measure = Weights | Hops

  function HopCost(m: Measure, r: Rel): int {
    if m.Weights? then r.weight else 1
  }

  function Cost(s: Store, m: Measure, es: seq<RelId>): int {
    if es == [] then 0 else (if es[0] in s.rels then HopCost(m, s.rels[es[0]]) else 0) + Cost(s, m, es[1..])
  }

  lemma {:induction false} WalkSnoc(s: Store, dir: Direction, m: Measure, u: NodeId, es: seq<RelId>, v: NodeId,
                                    e: RelId, w: NodeId)
    requires IsWalk(s, dir, u, es, v) && Hop(s, dir, v, e, w)
    ensures IsWalk(s, dir, u, es + [e], w)
    ensures Cost(s, m, es + [e]) == Cost(s, m, es) + HopCost(m, s.rels[e])
    decreases es
  {
    if es == [] {
      assert (es + [e])[1..] == [];
    } else {
      WalkSnoc(s, dir, m, Other(s.rels[es[0]], u), es[1..], v, e, w);
      assert (es + [e])[1..] == es[1..] + [e];
    }
  }

  /** A walk led by one more hop. */
  lemma WalkCons(s: Store, dir: Direction, m: Measure, u: NodeId, e: RelId, v: NodeId, es: seq<RelId>, w: NodeId)
    requires Hop(s, dir, u, e, v) && IsWalk(s, dir, v, es, w)
    ensures IsWalk(s, dir, u, [e] + es, w)
    ensures Cost(s, m, [e] + es) == HopCost(m, s.rels[e]) + Cost(s, m, es)
  {
    assert ([e] + es)[1..] == es;
  }

  /** Counted in hops, a walk costs its length. */
  lemma {:induction false} HopsAreLength(s: Store, dir: Direction, u: NodeId, es: seq<RelId>, v: NodeId)
    requires IsWalk(s, dir, u, es, v)
    ensures Cost(s, Hops, es) == |es|
    decreases es
  {
    if es != [] {
      HopsAreLength(s, dir, Other(s.rels[es[0]], u), es[1..], v);
    }
  }

  /** The end a relationship was left from, given the end it led to. */
  lemma HopBack(s: Store, dir: Direction, u: NodeId, e: RelId, v: NodeId)
    requires Hop(s, dir, u, e, v)
    ensures u == Other(s.rels[e], v)
    ensures u == if s.rels[e].target == v then s.rels[e].source else s.rels[e].target
  {
  }

  /** Whoever's other end a relationship has, it is a node. */
  lemma OthersAreNodes(s: Store)
    requires EndpointsLive(s)
    ensures forall e, u {:trigger Other(s.rels[e], u)} :: e in s.rels ==> Other(s.rels[e], u) in s.nodes
  {
    forall e, u {:trigger Other(s.rels[e], u)} | e in s.rels ensures Other(s.rels[e], u) in s.nodes {
      assert s.rels[e].source in s.nodes && s.rels[e].target in s.nodes;
    }
  }

  ghost predicate Reachable(s: Store, dir: Direction, u: NodeId, v: NodeId) {
    exists es :: IsWalk(s, dir, u, es, v)
  }

  /** Some walk from u to v costs k. */
  ghost predicate Attained(s: Store, dir: Direction, m: Measure, u: NodeId, v: NodeId, k: int) {
    exists es :: IsWalk(s, dir, u, es, v) && Cost(s, m, es) == k
  }

  /** k is the least cost of a walk from u to v. */
  ghost predicate Least(s: Store, dir: Direction, m: Measure, u: NodeId, v: NodeId, k: int) {
    && Attained(s, dir, m, u, v, k)
    && forall es :: IsWalk(s, dir, u, es, v) ==> k <= Cost(s, m, es)
  }

  lemma AttainedHop(s: Store, dir: Direction, m: Measure, u: NodeId, v: NodeId, k: int, e: RelId, w: NodeId)
    requires Attained(s, dir, m, u, v, k) && Hop(s, dir, v, e, w)
    ensures Attained(s, dir, m, u, w, k + HopCost(m, s.rels[e]))
  {
    var es :| IsWalk(s, dir, u, es, v) && Cost(s, m, es) == k;
    WalkSnoc(s, dir, m, u, es, v, e, w);
  }

  lemma AttainedStart(s: Store, dir: Direction, m: Measure, u: NodeId)
    ensures Attained(s, dir, m, u, u, 0)
  {
    assert IsWalk(s, dir, u, [], u) && Cost(s, m, []) == 0;
  }

  // ----- labels that no relationship can improve --------------------------------------

  /** A finite label, or infinity. */
  type Label = Option<nat>
  type Labels = map<NodeId, Label>

  /** Every listed node without a label. */
  function InitialLabels(order: seq<NodeId>): (labels: Labels)
    ensures forall v :: v in labels <==> v in order
    ensures forall v :: v in labels ==> labels[v] == None
  {
    map v | v in order :: None
  }

  /** Crossing from a node labelled a to one labelled b at this cost does not undercut b. */
  predicate NoGain(a: Label, b: Label, cost: int) {
    a.Some? ==> b.Some? && b.value <= a.value + cost
  }

  ghost predicate ClosedAt(s: Store, dir: Direction, m: Measure, labels: Labels, u: NodeId)
    requires u in labels
  {
    forall e {:trigger Selects(s, u, dir, e)} :: Selects(s, u, dir, e) ==>
      Other(s.rels[e], u) in labels && NoGain(labels[u], labels[Other(s.rels[e], u)], HopCost(m, s.rels[e]))
  }

  /** Labels closed everywhere bound the cost of every walk from below. */
  lemma {:induction false} ClosedBounds(s: Store, dir: Direction, m: Measure, labels: Labels,
                                        u: NodeId, es: seq<RelId>, v: NodeId)
    requires forall n :: n in labels ==> ClosedAt(s, dir, m, labels, n)
    requires u in labels && labels[u].Some? && IsWalk(s, dir, u, es, v)
    ensures v in labels && labels[v].Some? && labels[v].value <= labels[u].value + Cost(s, m, es)
    decreases es
  {
    if es != [] {
      assert ClosedAt(s, dir, m, labels, u);
      ClosedBounds(s, dir, m, labels, Other(s.rels[es[0]], u), es[1..], v);
    }
  }

  /** Every finite label is the cost of some walk from src. */
  ghost predicate Witnessed(s: Store, dir: Direction, m: Measure, src: NodeId, labels: Labels) {
    forall v {:trigger labels[v]} :: v in labels && labels[v].Some? ==> Attained(s, dir, m, src, v, labels[v].value)
  }

  /** Witnessed labels that nothing improves are exact: least costs, and infinity just for the unreachable. */
  lemma ClosedLabelsExact(s: Store, dir: Direction, m: Measure, src: NodeId, labels: Labels, v: NodeId)
    requires forall n :: n in labels ==> ClosedAt(s, dir, m, labels, n)
    requires Witnessed(s, dir, m, src, labels) && src in labels && labels[src] == Some(0) && v in labels
    ensures labels[v].Some? ==> Least(s, dir, m, src, v, labels[v].value)
    ensures labels[v].None? ==> !Reachable(s, dir, src, v)
  {
    forall es | IsWalk(s, dir, src, es, v)
      ensures labels[v].Some? && labels[v].value <= Cost(s, m, es)
    {
      ClosedBounds(s, dir, m, labels, src, es, v);
    }
  }

  // ----- progress of a labelling ------------------------------------------------------

  /** How many of the listed nodes are unlabelled. */
  function Unlabelled(order: seq<NodeId>, labels: Labels): nat {
    if order == [] then 0
    else Unlabelled(order[1..], labels) + if order[0] in labels && labels[order[0]].Some? then 0 else 1
  }

  /** The labels of the listed nodes added up. */
  function LabelSum(order: seq<NodeId>, labels: Labels): nat {
    if order == [] then 0
    else
      LabelSum(order[1..], labels) + if order[0] in labels && labels[order[0]].Some? then labels[order[0]].value else 0
  }

  lemma {:induction false} RelabelOutside(order: seq<NodeId>, labels: Labels, v: NodeId, k: nat)
    requires v !in order
    ensures Unlabelled(order, labels[v := Some(k)]) == Unlabelled(order, labels)
    ensures LabelSum(order, labels[v := Some(k)]) == LabelSum(order, labels)
  {
    if order != [] {
      RelabelOutside(order[1..], labels, v, k);
    }
  }

  /** Labelling a node for the first time, or with less than before, is progress. */
  lemma {:induction false} RelabelProgress(order: seq<NodeId>, labels: Labels, v: NodeId, k: nat)
    requires Distinct(order) && v in order
    ensures v in labels && labels[v].Some? ==>
      && Unlabelled(order, labels[v := Some(k)]) == Unlabelled(order, labels)
      && LabelSum(order, labels[v := Some(k)]) == LabelSum(order, labels) - labels[v].value + k
    ensures !(v in labels && labels[v].Some?) ==>
      Unlabelled(order, labels[v := Some(k)]) == Unlabelled(order, labels) - 1
  {
    if order[0] == v {
      assert v !in order[1..];
      RelabelOutside(order[1..], labels, v, k);
    } else {
      RelabelProgress(order[1..], labels, v, k);
    }
  }
}
