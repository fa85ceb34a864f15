/** Breadth-first levels: hop counts from a source, with the edge each node was first reached by. */
module Bfs {
  import opened Graph
  import opened HeapFile
  import opened Expansion
  import opened Walks
  import opened Forest

  datatype Search = Search(level: Labels, parents: map<NodeId, RelId>, queue: seq<NodeId>)

  predicate CanVisit(s: Store, d: Search, u: NodeId, e: RelId) {
    e in s.rels && u in d.level && d.level[u].Some? && Other(s.rels[e], u) in d.level
  }

  /** Label and queue the other end of e if it has not been seen. */
  function Visit(s: Store, d: Search, u: NodeId, e: RelId): Search
    requires CanVisit(s, d, u, e)
  {
    var v := Other(s.rels[e], u);
    if d.level[v].None?
    then Search(d.level[v := Some(d.level[u].value + 1)], d.parents[v := e], d.queue + [v])
    else d
  }

  function VisitAll(s: Store, d: Search, u: NodeId, es: seq<RelId>): (d': Search)
    requires forall e :: e in es ==> CanVisit(s, d, u, e)
    ensures d'.level.Keys == d.level.Keys && (u in d.level && d.level[u].Some? ==> d'.level[u] == d.level[u])
  {
    if es == [] then d
    else
      var e := es[|es| - 1];
      assert CanVisit(s, d, u, e);
      Visit(s, VisitAll(s, d, u, es[..|es| - 1]), u, e)
  }

  // ----- what the search keeps ---------------------------------------------------------------

  /** v was reached from a node exactly one level nearer the source. */
  ghost predicate ParentFits(s: Store, dir: Direction, level: Labels, e: RelId, v: NodeId) {
    && e in s.rels
    && var u := Other(s.rels[e], v);
      && u in level && v in level && level[u].Some? && level[v].Some?
      && Hop(s, dir, u, e, v) && level[v].value == level[u].value + 1
  }

  ghost predicate Sound(s: Store, dir: Direction, src: NodeId, d: Search) {
    && d.level.Keys == s.nodes.Keys
    && src in d.level && d.level[src] == Some(0)
    && Witnessed(s, dir, Hops, src, d.level)
    && (forall i {:trigger d.queue[i]} :: 0 <= i < |d.queue| ==> d.queue[i] in d.level && d.level[d.queue[i]].Some?)
    && (forall v {:trigger v in d.parents} :: v in d.parents <==> v in d.level && d.level[v].Some? && v != src)
    && (forall v {:trigger d.parents[v]} :: v in d.parents ==> ParentFits(s, dir, d.level, d.parents[v], v))
  }

  /** All labels are at most base + 1, and the queue climbs from base on. */
  ghost predicate Window(d: Search, base: nat) {
    && (forall v {:trigger d.level[v]} :: v in d.level && d.level[v].Some? ==> d.level[v].value <= base + 1)
    && (forall i {:trigger d.queue[i]} :: 0 <= i < |d.queue| ==>
      d.queue[i] in d.level && d.level[d.queue[i]].Some? && base <= d.level[d.queue[i]].value)
    && (forall i, j {:trigger d.queue[i], d.queue[j]} :: 0 <= i < j < |d.queue| ==>
      d.level[d.queue[i]].value <= d.level[d.queue[j]].value)
  }

  /** d' has the labels of d and possibly new ones, whose nodes are queued. */
  ghost predicate Grown(d: Search, d': Search) {
    && d'.level.Keys == d.level.Keys
    && (forall v {:trigger d'.level[v]} :: v in d.level ==>
      if d.level[v].Some? then d'.level[v] == d.level[v] else d'.level[v].None? || v in d'.queue)
    && (forall v :: v in d.queue ==> v in d'.queue)
  }

  lemma VisitWitnessed(s: Store, dir: Direction, src: NodeId, d: Search, u: NodeId, e: RelId)
    requires CanVisit(s, d, u, e) && Selects(s, u, dir, e) && Witnessed(s, dir, Hops, src, d.level)
    ensures Witnessed(s, dir, Hops, src, Visit(s, d, u, e).level)
  {
    AttainedHop(s, dir, Hops, src, u, d.level[u].value, e, Other(s.rels[e], u));
  }

  lemma VisitParents(s: Store, dir: Direction, src: NodeId, d: Search, u: NodeId, e: RelId)
    requires CanVisit(s, d, u, e) && Selects(s, u, dir, e) && Sound(s, dir, src, d)
    ensures var d' := Visit(s, d, u, e); forall v :: v in d'.parents ==> ParentFits(s, dir, d'.level, d'.parents[v], v)
  {
    var d' := Visit(s, d, u, e);
    HopBack(s, dir, u, e, Other(s.rels[e], u));
    forall v | v in d'.parents ensures ParentFits(s, dir, d'.level, d'.parents[v], v) {
      if v in d.parents {
        assert ParentFits(s, dir, d.level, d.parents[v], v);
      }
    }
  }

  lemma VisitSound(s: Store, dir: Direction, src: NodeId, d: Search, u: NodeId, e: RelId)
    requires CanVisit(s, d, u, e) && Selects(s, u, dir, e) && Sound(s, dir, src, d)
    ensures Sound(s, dir, src, Visit(s, d, u, e))
  {
    VisitWitnessed(s, dir, src, d, u, e);
    VisitParents(s, dir, src, d, u, e);
  }

  lemma VisitWindow(s: Store, d: Search, u: NodeId, e: RelId)
    requires CanVisit(s, d, u, e) && Window(d, d.level[u].value)
    ensures Window(Visit(s, d, u, e), d.level[u].value) && Grown(d, Visit(s, d, u, e))
  {
  }

  lemma GrownTransitive(a: Search, b: Search, c: Search)
    requires Grown(a, b) && Grown(b, c)
    ensures Grown(a, c)
  {
    forall v {:trigger c.level[v]} | v in a.level
      ensures if a.level[v].Some? then c.level[v] == a.level[v] else c.level[v].None? || v in c.queue
    {
      assert v in b.level && (b.level[v].Some? || b.level[v].None?);
    }
  }

  ghost predicate AllLabelled(s: Store, d: Search, u: NodeId, es: seq<RelId>) {
    forall e {:trigger e in es} :: e in es ==>
      e in s.rels && Other(s.rels[e], u) in d.level && d.level[Other(s.rels[e], u)].Some?
  }

  lemma {:induction false} VisitAllSound(s: Store, dir: Direction, src: NodeId, d: Search, u: NodeId, es: seq<RelId>)
    requires Sound(s, dir, src, d) && u in d.level && d.level[u].Some? && Window(d, d.level[u].value)
    requires forall e :: e in es ==> CanVisit(s, d, u, e) && Selects(s, u, dir, e)
    ensures var d' := VisitAll(s, d, u, es);
      Sound(s, dir, src, d') && Window(d', d.level[u].value) && Grown(d, d') && AllLabelled(s, d', u, es)
  {
    if es != [] {
      var k, e := |es| - 1, es[|es| - 1];
      VisitAllSound(s, dir, src, d, u, es[..k]);
      var d1 := VisitAll(s, d, u, es[..k]);
      assert CanVisit(s, d, u, e);
      VisitSound(s, dir, src, d1, u, e);
      VisitWindow(s, d1, u, e);
      GrownTransitive(d, d1, Visit(s, d1, u, e));
      LabelledSnoc(s, d1, u, es);
    }
  }

  lemma LabelledSnoc(s: Store, d1: Search, u: NodeId, es: seq<RelId>)
    requires es != [] && AllLabelled(s, d1, u, es[..|es| - 1]) && CanVisit(s, d1, u, es[|es| - 1])
    ensures AllLabelled(s, Visit(s, d1, u, es[|es| - 1]), u, es)
  {
    forall e | e in es
      ensures var d2 := Visit(s, d1, u, es[|es| - 1]);
        e in s.rels && Other(s.rels[e], u) in d2.level && d2.level[Other(s.rels[e], u)].Some?
    {
      if e != es[|es| - 1] {
        assert e in es[..|es| - 1];
      }
    }
  }

  // ----- closure -------------------------------------------------------------------------------

  ghost predicate ClosedOutsideQueue(s: Store, dir: Direction, d: Search) {
    forall n {:trigger ClosedAt(s, dir, Hops, d.level, n)} ::
      n in d.level && n !in d.queue ==> ClosedAt(s, dir, Hops, d.level, n)
  }

  lemma GrownStaysClosed(s: Store, dir: Direction, d: Search, d': Search, n: NodeId)
    requires Grown(d, d') && n in d.level && n !in d'.queue && ClosedAt(s, dir, Hops, d.level, n)
    ensures ClosedAt(s, dir, Hops, d'.level, n)
  {
    forall e | Selects(s, n, dir, e)
      ensures Other(s.rels[e], n) in d'.level && NoGain(d'.level[n], d'.level[Other(s.rels[e], n)], 1)
    {
      var v := Other(s.rels[e], n);
      assert v in d.level && NoGain(d.level[n], d.level[v], 1);
    }
  }

  /** Processing the head of the queue keeps the search sound, closed outside the queue, and in its window. */
  lemma ProcessKeeps(s: Store, dir: Direction, src: NodeId, d: Search, es: seq<RelId>)
    requires Sound(s, dir, src, d) && ClosedOutsideQueue(s, dir, d)
    requires d.queue != [] && Window(d, d.level[d.queue[0]].value)
    requires forall e :: e in es <==> Selects(s, d.queue[0], dir, e)
    requires forall e :: e in es ==> CanVisit(s, d, d.queue[0], e)
    ensures var u, d1 := d.queue[0], d.(queue := d.queue[1..]);
      && (forall e :: e in es ==> CanVisit(s, d1, u, e))
      && var d2 := VisitAll(s, d1, u, es);
        Sound(s, dir, src, d2) && ClosedOutsideQueue(s, dir, d2) && Window(d2, d.level[u].value)
  {
    var u, d1 := d.queue[0], d.(queue := d.queue[1..]);
    assert forall e :: e in es ==> CanVisit(s, d, u, e) && CanVisit(s, d1, u, e);
    PopKeeps(s, dir, src, d);
    VisitAllSound(s, dir, src, d1, u, es);
    assert d.queue == [u] + d1.queue;
    StillClosed(s, dir, d, d1, VisitAll(s, d1, u, es), u, es);
  }

  /** The node taken out of the queue is closed now, and the others outside still are. */
  lemma StillClosed(s: Store, dir: Direction, d: Search, d1: Search, d2: Search, u: NodeId, es: seq<RelId>)
    requires ClosedOutsideQueue(s, dir, d) && d.queue == [u] + d1.queue && d1.level == d.level && Grown(d1, d2)
    requires u in d.level && d.level[u].Some? && Window(d2, d.level[u].value) && AllLabelled(s, d2, u, es)
    requires forall e :: e in es <==> Selects(s, u, dir, e)
    ensures ClosedOutsideQueue(s, dir, d2)
  {
    forall n | n in d2.level && n !in d2.queue ensures ClosedAt(s, dir, Hops, d2.level, n) {
      if n == u {
        forall e | Selects(s, u, dir, e)
          ensures Other(s.rels[e], u) in d2.level && NoGain(d2.level[u], d2.level[Other(s.rels[e], u)], 1)
        {
          assert e in es;
        }
      } else {
        assert n !in d1.queue && n !in d.queue;
        GrownStaysClosed(s, dir, d1, d2, n);
      }
    }
  }

  lemma PopKeeps(s: Store, dir: Direction, src: NodeId, d: Search)
    requires Sound(s, dir, src, d) && d.queue != [] && Window(d, d.level[d.queue[0]].value)
    ensures var d1 := d.(queue := d.queue[1..]); Sound(s, dir, src, d1) && Window(d1, d.level[d.queue[0]].value)
  {
    var d1 := d.(queue := d.queue[1..]);
    assert forall i :: 0 <= i < |d1.queue| ==> d1.queue[i] == d.queue[i + 1];
  }

  /** The window moves up to the new head. */
  lemma WindowMoves(d: Search, base: nat)
    requires Window(d, base) && d.queue != []
    ensures Window(d, d.level[d.queue[0]].value)
  {
    var head := d.queue[0];
    assert base <= d.level[head].value;
  }

  // ----- termination ---------------------------------------------------------------------------

  lemma {:induction false} VisitAllAdvances(s: Store, d: Search, u: NodeId, es: seq<RelId>, order: seq<NodeId>)
    requires forall e :: e in es ==> CanVisit(s, d, u, e)
    requires Distinct(order) && forall v :: v in d.level ==> v in order
    ensures Unlabelled(order, VisitAll(s, d, u, es).level) < Unlabelled(order, d.level) || VisitAll(s, d, u, es) == d
  {
    if es != [] {
      var k := |es| - 1;
      VisitAllAdvances(s, d, u, es[..k], order);
      assert CanVisit(s, d, u, es[k]);
      var d1 := VisitAll(s, d, u, es[..k]);
      RelabelProgress(order, d1.level, Other(s.rels[es[k]], u), d1.level[u].value + 1);
    }
  }

  // ----- bfs -------------------------------------------------------------------------------------

  method VisitList(hf: HeapFile, u: NodeId, d: Search, rels: seq<RelId>) returns (d': Search)
    requires forall e :: e in rels ==> CanVisit(hf.Contents(), d, u, e)
    ensures d' == VisitAll(hf.Contents(), d, u, rels)
  {
    ghost var s := hf.Contents();
    var level: Labels, parents: map<NodeId, RelId>, queue: seq<NodeId> := d.level, d.parents, d.queue;
    for i := 0 to |rels|
      invariant forall e :: e in rels[..i] ==> CanVisit(s, d, u, e)
      invariant Search(level, parents, queue) == VisitAll(s, d, u, rels[..i])
    {
      assert rels[i] in rels && CanVisit(s, d, u, rels[i]);
      var r := hf.rels[rels[i]];
      var v := if u == r.source then r.target else r.source;
      assert rels[..i + 1][..i] == rels[..i];
      if level[v].None? {
        level, parents, queue := level[v := Some(level[u].value + 1)], parents[v := rels[i]], queue + [v];
      }
    }
    assert rels[..|rels|] == rels;
    d' := Search(level, parents, queue);
  }

  method Process(hf: HeapFile, dir: Direction, u: NodeId, d: Search, ghost q: seq<RelId>)
    returns (d': Search, ghost es: seq<RelId>)
    requires u in hf.nodes && RingAt(hf.Contents(), u, q) && u in d.level && d.level[u].Some?
    requires forall e :: Selects(hf.Contents(), u, dir, e) ==> Other(hf.rels[e], u) in d.level
    ensures forall e :: e in es <==> Selects(hf.Contents(), u, dir, e)
    ensures forall e :: e in es ==> CanVisit(hf.Contents(), d, u, e)
    ensures d' == VisitAll(hf.Contents(), d, u, es)
  {
    var rels := Expand(hf, u, dir, q);
    ExpansionExact(hf.Contents(), u, dir, q);
    es := rels;
    d' := VisitList(hf, u, d, rels);
  }

  /**
   Levels and parent edges from src: every reachable node gets its least number
   of hops, every other node stays at the maximum value (None), and each parent
   edge joins a node to one exactly one level nearer.
   */
  method Run(hf: HeapFile, src: NodeId, dir: Direction, ghost ring: map<NodeId, seq<RelId>>)
    returns (level: Labels, parents: map<NodeId, RelId>)
    requires hf.Stored() && Rings(hf.Contents(), ring) && src in hf.nodes
    ensures level.Keys == hf.nodes.Keys
    ensures forall v :: v in level && level[v].Some? ==> Least(hf.Contents(), dir, Hops, src, v, level[v].value)
    ensures forall v :: v in level && level[v].None? ==> !Reachable(hf.Contents(), dir, src, v)
    ensures forall v :: v in parents <==> v in level && level[v].Some? && v != src
    ensures forall v :: v in parents ==> ParentFits(hf.Contents(), dir, level, parents[v], v)
    ensures forall v :: v in parents ==>
      exists es :: Spells(hf.Contents(), dir, Hops, src, Finite(level), parents, v, es)
  {
    ghost var s := hf.Contents();
    var order := hf.nodeSlots.Records();
    var d := Search(InitialLabels(order)[src := Some(0)], map[], [src]);
    StartSound(s, dir, src, order);
    while d.queue != []
      invariant Sound(s, dir, src, d) && ClosedOutsideQueue(s, dir, d)
      invariant d.queue != [] ==> Window(d, d.level[d.queue[0]].value)
      decreases Unlabelled(order, d.level), |d.queue|
    {
      var u := d.queue[0];
      ghost var before := d;
      assert RingAt(s, u, ring[u]);
      OthersAreNodes(s);
      ghost var es;
      var d1 := d.(queue := d.queue[1..]);
      d, es := Process(hf, dir, u, d1, ring[u]);
      VisitAllAdvances(s, d1, u, es, order);
      ProcessKeeps(s, dir, src, before, es);
      if d.queue != [] {
        WindowMoves(d, before.level[u].value);
      }
    }
    level, parents := d.level, d.parents;
    FinalLevels(s, dir, src, d);
    FinalParents(s, dir, src, d);
  }

  lemma StartSound(s: Store, dir: Direction, src: NodeId, order: seq<NodeId>)
    requires src in s.nodes && EndpointsLive(s) && forall v :: v in order <==> v in s.nodes
    ensures var d := Search(InitialLabels(order)[src := Some(0)], map[], [src]);
      Sound(s, dir, src, d) && ClosedOutsideQueue(s, dir, d) && Window(d, 0)
  {
    AttainedStart(s, dir, Hops, src);
    var d := Search(InitialLabels(order)[src := Some(0)], map[], [src]);
    assert d.level.Keys == s.nodes.Keys;
    assert src in d.queue;
    forall n | n in d.level && n !in d.queue ensures ClosedAt(s, dir, Hops, d.level, n) {
      OthersAreNodes(s);
    }
  }

  lemma FinalLevels(s: Store, dir: Direction, src: NodeId, d: Search)
    requires Sound(s, dir, src, d) && ClosedOutsideQueue(s, dir, d) && d.queue == []
    ensures forall v :: v in d.level && d.level[v].Some? ==> Least(s, dir, Hops, src, v, d.level[v].value)
    ensures forall v :: v in d.level && d.level[v].None? ==> !Reachable(s, dir, src, v)
  {
    forall n | n in d.level ensures ClosedAt(s, dir, Hops, d.level, n) {
      assert n !in d.queue;
    }
    forall v | v in d.level
      ensures d.level[v].Some? ==> Least(s, dir, Hops, src, v, d.level[v].value)
      ensures d.level[v].None? ==> !Reachable(s, dir, src, v)
    {
      ClosedLabelsExact(s, dir, Hops, src, d.level, v);
    }
  }

  /** The parent edges back from a reached node are a walk of as many hops as its level. */
  lemma FinalParents(s: Store, dir: Direction, src: NodeId, d: Search)
    requires Sound(s, dir, src, d)
    ensures forall v :: v in d.parents ==> exists es :: Spells(s, dir, Hops, src, Finite(d.level), d.parents, v, es)
  {
    var dist := Finite(d.level);
    var stamp := map v | v in dist :: 0;
    forall v | v in d.parents ensures ParentEdge(s, dir, src, dist, d.parents, stamp, v) {
      assert ParentFits(s, dir, d.level, d.parents[v], v);
    }
    assert Stamped(dist, stamp, 1) && ParentForest(s, dir, src, dist, d.parents, stamp);
    forall v {:trigger d.parents[v]} | v in d.parents
      ensures d.parents[v] in s.rels
      ensures var u := Other(s.rels[d.parents[v]], v);
        u in dist && v in dist && dist[v] == dist[u] + HopCost(Hops, s.rels[d.parents[v]])
    {
      assert ParentFits(s, dir, d.level, d.parents[v], v);
    }
    ParentsSpell(s, dir, Hops, src, dist, d.parents);
  }
}
