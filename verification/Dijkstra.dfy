/**
 Single-source shortest paths by relaxation. A node goes back into the queue
 whenever its distance falls, and the queue may hand nodes out in any order.
 */
module Dijkstra {
  import opened Graph
  import opened HeapFile
  import opened Expansion
  import opened Walks
  import opened Forest

  datatype Search = Search(dist: Labels, parents: map<NodeId, RelId>, queue: multiset<NodeId>)

  ghost predicate NonNegative(s: Store) {
    forall e {:trigger s.rels[e]} :: e in s.rels ==> s.rels[e].weight >= 0
  }

  // ----- relaxation ---------------------------------------------------------------------

  predicate CanRelax(s: Store, d: Search, u: NodeId, e: RelId) {
    && e in s.rels && s.rels[e].weight >= 0
    && u in d.dist && d.dist[u].Some? && Other(s.rels[e], u) in d.dist
  }

  /** Try to reach the other end of e through u. */
  function Relax(s: Store, d: Search, u: NodeId, e: RelId): Search
    requires CanRelax(s, d, u, e)
  {
    var v := Other(s.rels[e], u);
    var reach: nat := d.dist[u].value + s.rels[e].weight;
    if d.dist[v].None? || d.dist[v].value > reach
    then Search(d.dist[v := Some(reach)], d.parents[v := e], d.queue + multiset{v})
    else d
  }

  /** Relax the relationships of u one after another. */
  function RelaxAll(s: Store, d: Search, u: NodeId, es: seq<RelId>): (d': Search)
    requires forall e :: e in es ==> CanRelax(s, d, u, e)
    ensures d'.dist.Keys == d.dist.Keys && (u in d.dist ==> d'.dist[u] == d.dist[u])
  {
    if es == [] then d
    else
      var e := es[|es| - 1];
      assert CanRelax(s, d, u, e);
      var d1 := RelaxAll(s, d, u, es[..|es| - 1]);
      Relax(s, d1, u, e)
  }

  // ----- what one relaxation keeps ----------------------------------------------------------

  /** parents[v] leads to v from a node at least its weight nearer. */
  ghost predicate ParentFits(s: Store, dir: Direction, d: Search, v: NodeId)
    requires v in d.dist && v in d.parents
  {
    var e := d.parents[v];
    && e in s.rels
    && var u := Other(s.rels[e], v);
      && u in d.dist && d.dist[u].Some? && d.dist[v].Some? && Hop(s, dir, u, e, v)
      && d.dist[u].value + s.rels[e].weight <= d.dist[v].value
  }

  /** Labels are costs of walks, the queue holds labelled nodes, and parents are recorded for all but the source. */
  ghost predicate Sound(s: Store, dir: Direction, src: NodeId, d: Search) {
    && d.dist.Keys == s.nodes.Keys
    && src in d.dist && d.dist[src] == Some(0)
    && Witnessed(s, dir, Weights, src, d.dist)
    && (forall v :: v in d.queue ==> v in d.dist && d.dist[v].Some?)
    && (forall v {:trigger v in d.parents} :: v in d.parents <==> v in d.dist && d.dist[v].Some? && v != src)
    && (forall v {:trigger d.parents[v]} :: v in d.parents ==> ParentFits(s, dir, d, v))
    && Falling(s, dir, src, Finite(d.dist), d.parents)
  }

  /** d' came from d by lowering labels of nodes that are now queued. */
  ghost predicate Lowered(d: Search, d': Search) {
    && d'.dist.Keys == d.dist.Keys
    && d.queue <= d'.queue
    && (forall v {:trigger d'.dist[v]} :: v in d.dist ==>
      NoGain(d.dist[v], d'.dist[v], 0) && (d'.dist[v] != d.dist[v] ==> v in d'.queue))
  }

  lemma RelaxWitnessed(s: Store, dir: Direction, src: NodeId, d: Search, u: NodeId, e: RelId)
    requires CanRelax(s, d, u, e) && Selects(s, u, dir, e) && Witnessed(s, dir, Weights, src, d.dist)
    ensures Witnessed(s, dir, Weights, src, Relax(s, d, u, e).dist)
  {
    var v := Other(s.rels[e], u);
    AttainedHop(s, dir, Weights, src, u, d.dist[u].value, e, v);
  }

  lemma RelaxParents(s: Store, dir: Direction, src: NodeId, d: Search, u: NodeId, e: RelId)
    requires CanRelax(s, d, u, e) && Selects(s, u, dir, e) && Sound(s, dir, src, d)
    ensures var d' := Relax(s, d, u, e); forall v :: v in d'.parents ==> v in d'.dist && ParentFits(s, dir, d', v)
  {
    var d' := Relax(s, d, u, e);
    HopBack(s, dir, u, e, Other(s.rels[e], u));
    forall v | v in d'.parents ensures v in d'.dist && ParentFits(s, dir, d', v) {
      if v in d.parents {
        assert ParentFits(s, dir, d, v);
      }
    }
  }

  lemma RelaxLowers(s: Store, d: Search, u: NodeId, e: RelId)
    requires CanRelax(s, d, u, e)
    ensures var d' := Relax(s, d, u, e);
      && Lowered(d, d') && d'.dist[u] == d.dist[u]
      && NoGain(d'.dist[u], d'.dist[Other(s.rels[e], u)], s.rels[e].weight)
  {
  }

  lemma RelaxQueue(s: Store, dir: Direction, src: NodeId, d: Search, u: NodeId, e: RelId)
    requires CanRelax(s, d, u, e) && Sound(s, dir, src, d)
    ensures var d' := Relax(s, d, u, e);
      && d'.dist.Keys == s.nodes.Keys && d'.dist[src] == Some(0)
      && (forall v :: v in d'.queue ==> v in d'.dist && d'.dist[v].Some?)
      && (forall v :: v in d'.parents <==> v in d'.dist && d'.dist[v].Some? && v != src)
  {
  }

  /** A smaller label with its parent edge keeps the parent edges falling. */
  lemma FallsOn(s: Store, dir: Direction, src: NodeId, dist: Labels, parents: map<NodeId, RelId>, u: NodeId, e: RelId,
                reach: nat)
    requires Falling(s, dir, src, Finite(dist), parents) && Selects(s, u, dir, e)
    requires u in dist && dist[u].Some? && dist[u].value <= reach && (u == src || u in parents)
    ensures var v := Other(s.rels[e], u);
      v in dist && (dist[v].None? || dist[v].value > reach) ==>
        Falling(s, dir, src, Finite(dist[v := Some(reach)]), parents[v := e])
  {
    var v := Other(s.rels[e], u);
    if v in dist && (dist[v].None? || dist[v].value > reach) {
      FiniteUpdate(dist, v, reach);
      SetParent(s, dir, src, Finite(dist), parents, u, e, v, reach);
    }
  }

  lemma RelaxFalls(s: Store, dir: Direction, src: NodeId, d: Search, u: NodeId, e: RelId)
    requires CanRelax(s, d, u, e) && Selects(s, u, dir, e) && (u == src || u in d.parents)
    requires Falling(s, dir, src, Finite(d.dist), d.parents)
    ensures var d' := Relax(s, d, u, e); Falling(s, dir, src, Finite(d'.dist), d'.parents)
  {
    FallsOn(s, dir, src, d.dist, d.parents, u, e, d.dist[u].value + s.rels[e].weight);
  }

  lemma RelaxSound(s: Store, dir: Direction, src: NodeId, d: Search, u: NodeId, e: RelId)
    requires CanRelax(s, d, u, e) && Selects(s, u, dir, e) && Sound(s, dir, src, d)
    ensures Sound(s, dir, src, Relax(s, d, u, e))
  {
    assert Witnessed(s, dir, Weights, src, Relax(s, d, u, e).dist) by {
      RelaxWitnessed(s, dir, src, d, u, e);
    }
    RelaxParents(s, dir, src, d, u, e);
    RelaxFalls(s, dir, src, d, u, e);
    RelaxQueue(s, dir, src, d, u, e);
  }

  /** After the relationships es of u have been relaxed, none of them offers an improvement. */
  ghost predicate Relaxed(s: Store, d: Search, u: NodeId, es: seq<RelId>)
    requires u in d.dist
  {
    forall e {:trigger e in es} :: e in es ==>
      && e in s.rels && Other(s.rels[e], u) in d.dist
      && NoGain(d.dist[u], d.dist[Other(s.rels[e], u)], s.rels[e].weight)
  }

  lemma LoweredTransitive(a: Search, b: Search, c: Search)
    requires Lowered(a, b) && Lowered(b, c)
    ensures Lowered(a, c)
  {
    forall v {:trigger c.dist[v]} | v in a.dist
      ensures NoGain(a.dist[v], c.dist[v], 0) && (c.dist[v] != a.dist[v] ==> v in c.queue)
    {
      assert NoGain(a.dist[v], b.dist[v], 0);
    }
  }

  lemma {:induction false} RelaxAllSound(s: Store, dir: Direction, src: NodeId, d: Search, u: NodeId, es: seq<RelId>)
    requires Sound(s, dir, src, d) && u in d.dist
    requires forall e :: e in es ==> CanRelax(s, d, u, e) && Selects(s, u, dir, e)
    ensures var d' := RelaxAll(s, d, u, es);
      Sound(s, dir, src, d') && Lowered(d, d') && d'.dist[u] == d.dist[u] && Relaxed(s, d', u, es)
  {
    RelaxAllCloses(s, d, u, es);
    if es != [] {
      var k, e := |es| - 1, es[|es| - 1];
      RelaxAllSound(s, dir, src, d, u, es[..k]);
      assert CanRelax(s, d, u, e);
      RelaxSound(s, dir, src, RelaxAll(s, d, u, es[..k]), u, e);
    }
  }

  lemma {:induction false} RelaxAllCloses(s: Store, d: Search, u: NodeId, es: seq<RelId>)
    requires u in d.dist && forall e :: e in es ==> CanRelax(s, d, u, e)
    ensures var d' := RelaxAll(s, d, u, es); Lowered(d, d') && Relaxed(s, d', u, es)
  {
    if es != [] {
      var k, e := |es| - 1, es[|es| - 1];
      RelaxAllCloses(s, d, u, es[..k]);
      assert CanRelax(s, d, u, e);
      var d1 := RelaxAll(s, d, u, es[..k]);
      RelaxLowers(s, d1, u, e);
      LoweredTransitive(d, d1, Relax(s, d1, u, e));
      StaysRelaxed(s, d1, Relax(s, d1, u, e), u, es[..k]);
      LastOrBefore(es);
    }
  }

  /** Lower labels elsewhere do not undo what has been relaxed. */
  lemma StaysRelaxed(s: Store, d: Search, d': Search, u: NodeId, es: seq<RelId>)
    requires u in d.dist && Relaxed(s, d, u, es) && Lowered(d, d') && d'.dist[u] == d.dist[u]
    ensures Relaxed(s, d', u, es)
  {
    forall e | e in es
      ensures Other(s.rels[e], u) in d'.dist && NoGain(d'.dist[u], d'.dist[Other(s.rels[e], u)], s.rels[e].weight)
    {
      assert NoGain(d.dist[Other(s.rels[e], u)], d'.dist[Other(s.rels[e], u)], 0);
    }
  }

  // ----- the whole search ------------------------------------------------------------------

  /** Nodes out of the queue offer no improvement. */
  ghost predicate ClosedOutsideQueue(s: Store, dir: Direction, d: Search) {
    forall n {:trigger ClosedAt(s, dir, Weights, d.dist, n)} ::
      n in d.dist && n !in d.queue ==> ClosedAt(s, dir, Weights, d.dist, n)
  }

  lemma LoweredStaysClosed(s: Store, dir: Direction, d: Search, d': Search, n: NodeId)
    requires Lowered(d, d') && n in d.dist && n !in d'.queue && ClosedAt(s, dir, Weights, d.dist, n)
    ensures ClosedAt(s, dir, Weights, d'.dist, n)
  {
    assert d'.dist[n] == d.dist[n];
    forall e | Selects(s, n, dir, e)
      ensures Other(s.rels[e], n) in d'.dist && NoGain(d'.dist[n], d'.dist[Other(s.rels[e], n)], s.rels[e].weight)
    {
      var v := Other(s.rels[e], n);
      assert v in d.dist && NoGain(d.dist[v], d'.dist[v], 0);
    }
  }

  /** Taking u out of the queue and relaxing all its relationships keeps everything closed outside the queue. */
  lemma ProcessKeepsClosed(s: Store, dir: Direction, src: NodeId, d: Search, u: NodeId, es: seq<RelId>)
    requires Sound(s, dir, src, d) && ClosedOutsideQueue(s, dir, d) && u in d.queue
    requires forall e :: e in es <==> Selects(s, u, dir, e)
    requires forall e :: e in es ==> CanRelax(s, d, u, e)
    ensures var d1 := d.(queue := d.queue - multiset{u});
      && (forall e :: e in es ==> CanRelax(s, d1, u, e))
      && Sound(s, dir, src, RelaxAll(s, d1, u, es)) && ClosedOutsideQueue(s, dir, RelaxAll(s, d1, u, es))
  {
    var d1 := d.(queue := d.queue - multiset{u});
    forall v | v in d1.parents ensures ParentFits(s, dir, d1, v) {
      assert ParentFits(s, dir, d, v);
    }
    assert forall e :: e in es ==> CanRelax(s, d, u, e) && CanRelax(s, d1, u, e);
    RelaxAllSound(s, dir, src, d1, u, es);
    var d2 := RelaxAll(s, d1, u, es);
    forall n | n in d2.dist && n !in d2.queue ensures ClosedAt(s, dir, Weights, d2.dist, n) {
      if n == u {
        forall e | Selects(s, u, dir, e)
          ensures Other(s.rels[e], u) in d2.dist && NoGain(d2.dist[u], d2.dist[Other(s.rels[e], u)], s.rels[e].weight)
        {
          assert e in es;
        }
      } else {
        assert n !in d1.queue && n !in d.queue;
        LoweredStaysClosed(s, dir, d1, d2, n);
      }
    }
  }

  // ----- termination -------------------------------------------------------------------------

  /** Fewer unlabelled nodes, or as many and a smaller sum of labels, or nothing changed. */
  ghost predicate Advances(order: seq<NodeId>, d: Search, d': Search) {
    || Unlabelled(order, d'.dist) < Unlabelled(order, d.dist)
    || (Unlabelled(order, d'.dist) == Unlabelled(order, d.dist) && LabelSum(order, d'.dist) < LabelSum(order, d.dist))
    || d' == d
  }

  lemma RelaxAdvances(s: Store, d: Search, u: NodeId, e: RelId, order: seq<NodeId>)
    requires CanRelax(s, d, u, e) && Distinct(order) && forall v :: v in d.dist ==> v in order
    ensures Advances(order, d, Relax(s, d, u, e))
  {
    RelabelProgress(order, d.dist, Other(s.rels[e], u), d.dist[u].value + s.rels[e].weight);
  }

  lemma {:induction false} RelaxAllAdvances(s: Store, d: Search, u: NodeId, es: seq<RelId>, order: seq<NodeId>)
    requires forall e :: e in es ==> CanRelax(s, d, u, e)
    requires Distinct(order) && forall v :: v in d.dist ==> v in order
    ensures Advances(order, d, RelaxAll(s, d, u, es))
  {
    if es != [] {
      var k := |es| - 1;
      RelaxAllAdvances(s, d, u, es[..k], order);
      assert CanRelax(s, d, u, es[k]);
      RelaxAdvances(s, RelaxAll(s, d, u, es[..k]), u, es[k], order);
    }
  }

  // ----- dijkstra ------------------------------------------------------------------------------

  /** Relax the listed relationships of u in turn. */
  method RelaxList(hf: HeapFile, u: NodeId, d: Search, rels: seq<RelId>) returns (d': Search)
    requires forall e :: e in rels ==> CanRelax(hf.Contents(), d, u, e)
    ensures d' == RelaxAll(hf.Contents(), d, u, rels)
  {
    ghost var s := hf.Contents();
    var dist: Labels, parents: map<NodeId, RelId>, queue: multiset<NodeId> := d.dist, d.parents, d.queue;
    for i := 0 to |rels|
      invariant forall e :: e in rels[..i] ==> CanRelax(s, d, u, e)
      invariant Search(dist, parents, queue) == RelaxAll(s, d, u, rels[..i])
    {
      assert rels[i] in rels && CanRelax(s, d, u, rels[i]);
      var r := hf.rels[rels[i]];
      var v := if u == r.source then r.target else r.source;
      var reach: nat := dist[u].value + r.weight;
      assert rels[..i + 1][..i] == rels[..i];
      ghost var before := Search(dist, parents, queue);
      if dist[v].None? || dist[v].value > reach {
        dist, parents, queue := dist[v := Some(reach)], parents[v := rels[i]], queue + multiset{v};
      }
      assert Search(dist, parents, queue) == Relax(s, before, u, rels[i]);
    }
    assert rels[..|rels|] == rels;
    d' := Search(dist, parents, queue);
  }

  /** Expand u and relax each of its relationships. */
  method Process(hf: HeapFile, dir: Direction, u: NodeId, d: Search, ghost q: seq<RelId>)
    returns (d': Search, ghost es: seq<RelId>)
    requires u in hf.nodes && RingAt(hf.Contents(), u, q)
    requires u in d.dist && d.dist[u].Some? && NonNegative(hf.Contents())
    requires forall e :: Selects(hf.Contents(), u, dir, e) ==> Other(hf.rels[e], u) in d.dist
    ensures forall e :: e in es <==> Selects(hf.Contents(), u, dir, e)
    ensures forall e :: e in es ==> CanRelax(hf.Contents(), d, u, e)
    ensures d' == RelaxAll(hf.Contents(), d, u, es)
  {
    var rels := Expand(hf, u, dir, q);
    ExpansionExact(hf.Contents(), u, dir, q);
    es := rels;
    d' := RelaxList(hf, u, d, rels);
  }

  /**
   Distances and predecessor edges from src. Each distance is the least weight of
   a walk, infinity exactly for unreachable nodes, and every node but the source
   that is reached has a predecessor edge on a shortest walk.
   */
  method Run(hf: HeapFile, src: NodeId, dir: Direction, ghost ring: map<NodeId, seq<RelId>>)
    returns (dist: Labels, parents: map<NodeId, RelId>)
    requires hf.Stored() && Rings(hf.Contents(), ring) && NonNegative(hf.Contents()) && src in hf.nodes
    ensures dist.Keys == hf.nodes.Keys
    ensures forall v :: v in dist && dist[v].Some? ==> Least(hf.Contents(), dir, Weights, src, v, dist[v].value)
    ensures forall v :: v in dist && dist[v].None? ==> !Reachable(hf.Contents(), dir, src, v)
    ensures forall v :: v in parents <==> v in dist && dist[v].Some? && v != src
    ensures forall v :: v in parents ==> OnShortestWalk(hf.Contents(), dir, dist, parents[v], v)
    ensures forall v :: v in parents ==>
      exists es :: Spells(hf.Contents(), dir, Weights, src, Finite(dist), parents, v, es)
  {
    ghost var s := hf.Contents();
    var order := hf.nodeSlots.Records();
    var d := Search(InitialLabels(order)[src := Some(0)], map[], multiset{src});
    StartSound(s, dir, src, order);
    while d.queue != multiset{}
      invariant Sound(s, dir, src, d) && ClosedOutsideQueue(s, dir, d)
      decreases Unlabelled(order, d.dist), LabelSum(order, d.dist), |d.queue|
    {
      var u :| u in d.queue;
      ghost var before := d;
      assert RingAt(s, u, ring[u]);
      OthersAreNodes(s);
      ghost var es;
      var d1 := d.(queue := d.queue - multiset{u});
      d, es := Process(hf, dir, u, d1, ring[u]);
      RelaxAllAdvances(s, d1, u, es, order);
      ProcessKeepsClosed(s, dir, src, before, u, es);
    }
    dist, parents := d.dist, d.parents;
    FinalLabels(s, dir, src, d);
    FinalParents(s, dir, src, d);
  }

  lemma StartSound(s: Store, dir: Direction, src: NodeId, order: seq<NodeId>)
    requires src in s.nodes && EndpointsLive(s) && forall v :: v in order <==> v in s.nodes
    ensures var d := Search(InitialLabels(order)[src := Some(0)], map[], multiset{src});
      Sound(s, dir, src, d) && ClosedOutsideQueue(s, dir, d)
  {
    AttainedStart(s, dir, Weights, src);
    NoParentsFall(s, dir, src);
    assert Finite(InitialLabels(order)[src := Some(0)]) == map[src := 0];
    var d := Search(InitialLabels(order)[src := Some(0)], map[], multiset{src});
    assert d.dist.Keys == s.nodes.Keys;
    forall n | n in d.dist && n !in d.queue ensures ClosedAt(s, dir, Weights, d.dist, n) {
      OthersAreNodes(s);
    }
  }

  /** e is the last relationship of a shortest walk to v. */
  ghost predicate OnShortestWalk(s: Store, dir: Direction, dist: Labels, e: RelId, v: NodeId) {
    && e in s.rels
    && var u := Other(s.rels[e], v);
      && u in dist && v in dist && dist[u].Some? && dist[v].Some?
      && Hop(s, dir, u, e, v) && dist[v].value == dist[u].value + s.rels[e].weight
  }

  lemma FinalLabels(s: Store, dir: Direction, src: NodeId, d: Search)
    requires Sound(s, dir, src, d) && ClosedOutsideQueue(s, dir, d) && d.queue == multiset{}
    ensures forall v :: v in d.dist && d.dist[v].Some? ==> Least(s, dir, Weights, src, v, d.dist[v].value)
    ensures forall v :: v in d.dist && d.dist[v].None? ==> !Reachable(s, dir, src, v)
    ensures forall v :: v in d.parents ==> OnShortestWalk(s, dir, d.dist, d.parents[v], v)
  {
    forall n | n in d.dist ensures ClosedAt(s, dir, Weights, d.dist, n) {
      assert n !in d.queue;
    }
    forall v | v in d.dist
      ensures d.dist[v].Some? ==> Least(s, dir, Weights, src, v, d.dist[v].value)
      ensures d.dist[v].None? ==> !Reachable(s, dir, src, v)
    {
      ClosedLabelsExact(s, dir, Weights, src, d.dist, v);
    }
    forall v | v in d.parents ensures OnShortestWalk(s, dir, d.dist, d.parents[v], v) {
      assert ParentFits(s, dir, d, v);
      assert ClosedAt(s, dir, Weights, d.dist, Other(s.rels[d.parents[v]], v));
    }
  }

  /** The parent edges back from a reached node are a shortest walk to it. */
  lemma FinalParents(s: Store, dir: Direction, src: NodeId, d: Search)
    requires Sound(s, dir, src, d) && forall v :: v in d.parents ==> OnShortestWalk(s, dir, d.dist, d.parents[v], v)
    ensures forall v :: v in d.parents ==> exists es :: Spells(s, dir, Weights, src, Finite(d.dist), d.parents, v, es)
  {
    forall v {:trigger d.parents[v]} | v in d.parents
      ensures d.parents[v] in s.rels
      ensures var u, dist := Other(s.rels[d.parents[v]], v), Finite(d.dist);
        u in dist && v in dist && dist[v] == dist[u] + HopCost(Weights, s.rels[d.parents[v]])
    {
      assert OnShortestWalk(s, dir, d.dist, d.parents[v], v);
    }
    ParentsSpell(s, dir, Weights, src, Finite(d.dist), d.parents);
  }
}
