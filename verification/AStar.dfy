/**
 Guided search for one path. The heuristic of every node that a walk leaves is
 added into the stored distances, so they are least guided sums and not least
 weights. What the parent edges spell out is a genuine walk all the same, and its
 reported distance is the sum of its weights.
 */
module AStar {
  import opened Graph
  import opened HeapFile
  import opened Expansion
  import opened Walks
  import opened Forest
  import opened Dijkstra

  /** distance is None where the source reports DBL_MAX. */
  datatype Path = Path(source: NodeId, target: NodeId, distance: Option<int>, edges: seq<RelId>)

  type Guide = map<NodeId, nat>

  /** A node in the heap; None is the largest key, with which the source goes in. */
  datatype Entry = Entry(key: Option<nat>, node: NodeId)

  datatype Probe = Probe(dist: Distances, parents: Parents, queue: multiset<Entry>)

  // ----- parent edges -----------------------------------------------------------------

  function Reversed(es: seq<RelId>): (r: seq<RelId>)
    ensures |r| == |es| && forall i :: 0 <= i < |es| ==> r[i] == es[|es| - 1 - i]
  {
    seq(|es|, i requires 0 <= i < |es| => es[|es| - 1 - i])
  }

  lemma ReversedSnoc(es: seq<RelId>, e: RelId)
    ensures Reversed(es + [e]) == [e] + Reversed(es)
  {
  }

  lemma {:induction false} TailCons(s: Store, parents: Parents, u: NodeId, w: NodeId, es: seq<RelId>, v: NodeId)
    requires FollowsParents(s, parents, w, v, es)
    requires w in parents && parents[w] in s.rels && u == Other(s.rels[parents[w]], w)
    ensures FollowsParents(s, parents, u, v, [parents[w]] + es)
    decreases |es|
  {
    var more := [parents[w]] + es;
    if es == [] {
      assert more[..|more| - 1] == [];
    } else {
      TailCons(s, parents, u, w, es[..|es| - 1], Other(s.rels[parents[v]], v));
      assert more[..|more| - 1] == [parents[w]] + es[..|es| - 1];
    }
  }

  /** The parent edges es lead from u to v, at this cost. */
  ghost predicate Trail(s: Store, dir: Direction, parents: Parents, u: NodeId, es: seq<RelId>, v: NodeId, cost: int) {
    IsWalk(s, dir, u, es, v) && FollowsParents(s, parents, u, v, es) && cost == Cost(s, Weights, es)
  }

  /** One more step back along the parent edges. */
  lemma TrailCons(s: Store, dir: Direction, src: NodeId, dist: Distances, parents: Parents,
                  stamp: Distances, w: NodeId, back: seq<RelId>, v: NodeId, cost: int)
    requires ParentForest(s, dir, src, dist, parents, stamp) && w in parents
    requires Trail(s, dir, parents, w, Reversed(back), v, cost)
    ensures parents[w] in s.rels
    ensures var r := s.rels[parents[w]]; var u := if r.target == w then r.source else r.target;
      && Trail(s, dir, parents, u, Reversed(back + [parents[w]]), v, cost + r.weight)
      && (u == src || u in parents) && Below(dist, stamp, u, w)
  {
    var e := parents[w];
    assert ParentEdge(s, dir, src, dist, parents, stamp, w);
    var u := Other(s.rels[e], w);
    HopBack(s, dir, u, e, w);
    WalkCons(s, dir, Weights, u, e, w, Reversed(back), v);
    TailCons(s, parents, u, w, Reversed(back), v);
    ReversedSnoc(back, e);
  }

  /** Collect the parent edges from the target back to the source, last edge first. */
  method StepBack(hf: HeapFile, src: NodeId, target: NodeId, parents: Parents,
                  ghost dir: Direction, ghost dist: Distances, ghost stamp: Distances)
    returns (ok: bool, back: seq<RelId>, distance: int)
    requires ParentForest(hf.Contents(), dir, src, dist, parents, stamp)
    ensures ok <==> target in parents
    ensures ok ==> back != [] && Trail(hf.Contents(), dir, parents, src, Reversed(back), target, distance)
  {
    ghost var s := hf.Contents();
    var node, more := target, true;
    back, distance := [], 0;
    while more
      invariant if back == [] then node == target && more else target in parents
      invariant back != [] && more ==> node in parents
      invariant !more ==> node == src
      invariant Trail(s, dir, parents, node, Reversed(back), target, distance)
      decreases more, if node in dist then dist[node] else 0, if node in stamp then stamp[node] else 0
    {
      if node !in parents {
        return false, [], 0;
      }
      TrailCons(s, dir, src, dist, parents, stamp, node, back, target, distance);
      var rel := hf.rels[parents[node]];
      back := back + [parents[node]];
      node := if rel.target == node then rel.source else rel.target;
      distance := distance + rel.weight;
      more := node != src;
    }
    ok := true;
  }

  /**
   Walk the parent edges back from the target, then reverse them. It fails, as
   the lookup of the missing key does, exactly when the target has no parent
   edge. Otherwise the path is a walk in the given direction made of parent
   edges, and its distance is the sum of their weights.
   */
  method ConstructPath(hf: HeapFile, src: NodeId, target: NodeId, parents: Parents,
                       ghost dir: Direction, ghost dist: Distances, ghost stamp: Distances)
    returns (r: Option<Path>)
    requires ParentForest(hf.Contents(), dir, src, dist, parents, stamp)
    ensures r.None? <==> target !in parents
    ensures r.Some? ==>
      && r.value.source == src && r.value.target == target && r.value.edges != [] && r.value.distance.Some?
      && IsWalk(hf.Contents(), dir, src, r.value.edges, target)
      && FollowsParents(hf.Contents(), parents, src, target, r.value.edges)
      && r.value.distance.value == Cost(hf.Contents(), Weights, r.value.edges)
  {
    var ok, back, distance := StepBack(hf, src, target, parents, dir, dist, stamp);
    if !ok {
      return None;
    }
    var edges := [];
    for i := 1 to |back| + 1
      invariant edges == Reversed(back)[..i - 1]
    {
      edges := edges + [back[|back| - i]];
    }
    assert edges == Reversed(back);
    r := Some(Path(src, target, Some(distance), edges));
  }

  // ----- guided sums --------------------------------------------------------------------

  function GuideOf(guide: Guide, u: NodeId): nat {
    if u in guide then guide[u] else 0
  }

  /** The weights along a walk, with the heuristic of every node that it leaves. */
  function GuidedSum(s: Store, guide: Guide, u: NodeId, es: seq<RelId>): int
    decreases |es|
  {
    if es == [] || es[0] !in s.rels then 0
    else s.rels[es[0]].weight + GuideOf(guide, u) + GuidedSum(s, guide, Other(s.rels[es[0]], u), es[1..])
  }

  lemma {:induction false} GuidedSnoc(s: Store, guide: Guide, dir: Direction, u: NodeId, es: seq<RelId>, v: NodeId,
                                      e: RelId)
    requires IsWalk(s, dir, u, es, v) && e in s.rels
    ensures GuidedSum(s, guide, u, es + [e]) == GuidedSum(s, guide, u, es) + s.rels[e].weight + GuideOf(guide, v)
    decreases |es|
  {
    if es == [] {
      assert (es + [e])[1..] == [];
    } else {
      GuidedSnoc(s, guide, dir, Other(s.rels[es[0]], u), es[1..], v, e);
      assert (es + [e])[1..] == es[1..] + [e];
    }
  }

  lemma {:induction false} GuidedNonNegative(s: Store, guide: Guide, u: NodeId, es: seq<RelId>)
    requires NonNegative(s)
    ensures GuidedSum(s, guide, u, es) >= 0
    decreases |es|
  {
    if es != [] && es[0] in s.rels {
      GuidedNonNegative(s, guide, Other(s.rels[es[0]], u), es[1..]);
    }
  }

  /** With a heuristic of zero the guided sum is the weight. */
  lemma {:induction false} GuidedByZero(s: Store, guide: Guide, dir: Direction, u: NodeId, es: seq<RelId>, v: NodeId)
    requires (forall n :: n in guide ==> guide[n] == 0) && IsWalk(s, dir, u, es, v)
    ensures GuidedSum(s, guide, u, es) == Cost(s, Weights, es)
    decreases |es|
  {
    if es != [] {
      GuidedByZero(s, guide, dir, Other(s.rels[es[0]], u), es[1..], v);
    }
  }

  /** k is the guided sum of a walk from src to v. */
  ghost predicate GuidedAttained(s: Store, guide: Guide, dir: Direction, src: NodeId, v: NodeId, k: int) {
    exists es :: IsWalk(s, dir, src, es, v) && GuidedSum(s, guide, src, es) == k
  }

  lemma GuidedHop(s: Store, guide: Guide, dir: Direction, src: NodeId, u: NodeId, k: int, e: RelId)
    requires GuidedAttained(s, guide, dir, src, u, k) && Selects(s, u, dir, e)
    ensures GuidedAttained(s, guide, dir, src, Other(s.rels[e], u), k + s.rels[e].weight + GuideOf(guide, u))
  {
    var es :| IsWalk(s, dir, src, es, u) && GuidedSum(s, guide, src, es) == k;
    WalkSnoc(s, dir, Hops, src, es, u, e, Other(s.rels[e], u));
    GuidedSnoc(s, guide, dir, src, es, u, e);
  }

  lemma AttainedReaches(s: Store, guide: Guide, dir: Direction, src: NodeId, v: NodeId, k: int)
    requires GuidedAttained(s, guide, dir, src, v, k)
    ensures Reachable(s, dir, src, v)
  {
  }

  // ----- relaxation -------------------------------------------------------------------

  predicate CanProbe(s: Store, guide: Guide, d: Probe, u: NodeId, e: RelId) {
    e in s.rels && s.rels[e].weight >= 0 && u in d.dist && u in guide
  }

  function Relax(s: Store, guide: Guide, d: Probe, u: NodeId, e: RelId): Probe
    requires CanProbe(s, guide, d, u, e)
  {
    var v := Other(s.rels[e], u);
    var reach: nat := d.dist[u] + s.rels[e].weight + guide[u];
    if v !in d.dist || d.dist[v] > reach
    then Probe(d.dist[v := reach], d.parents[v := e], d.queue + multiset{Entry(Some(reach), v)})
    else d
  }

  function RelaxAll(s: Store, guide: Guide, d: Probe, u: NodeId, es: seq<RelId>): (d': Probe)
    requires forall e :: e in es ==> CanProbe(s, guide, d, u, e)
    ensures u in d.dist ==> u in d'.dist && d'.dist[u] == d.dist[u]
  {
    if es == [] then d
    else
      assert CanProbe(s, guide, d, u, es[|es| - 1]);
      Relax(s, guide, RelaxAll(s, guide, d, u, es[..|es| - 1]), u, es[|es| - 1])
  }

  /** The node parents[v] leads to v from: its distance, weight and heuristic are at most v's distance. */
  ghost predicate ParentFits(s: Store, guide: Guide, d: Probe, v: NodeId)
    requires v in d.parents && v in d.dist
  {
    var e := d.parents[v];
    && e in s.rels
    && var u := Other(s.rels[e], v); u in d.dist && d.dist[u] + s.rels[e].weight + GuideOf(guide, u) <= d.dist[v]
  }

  ghost predicate ParentsFit(s: Store, guide: Guide, d: Probe) {
    forall v {:trigger d.parents[v]} :: v in d.parents ==> v in d.dist && ParentFits(s, guide, d, v)
  }

  /** Every stored distance is the guided sum of a walk. */
  ghost predicate AllAttained(s: Store, guide: Guide, dir: Direction, src: NodeId, dist: Distances) {
    forall v {:trigger v in dist} :: v in dist ==> GuidedAttained(s, guide, dir, src, v, dist[v])
  }

  /** Entries are of reached nodes, and their keys are no smaller than the distances now. */
  ghost predicate QueueFits(src: NodeId, d: Probe) {
    forall x :: x in d.queue ==>
      x.node in d.dist && if x.key.None? then x.node == src else d.dist[x.node] <= x.key.value
  }

  /** The source is at distance 0, and the nodes with parent edges are the others that were reached. */
  ghost predicate Reaches(s: Store, src: NodeId, d: Probe) {
    && src in d.dist && d.dist[src] == 0
    && d.parents.Keys == d.dist.Keys - {src}
    && d.dist.Keys <= s.nodes.Keys
  }

  ghost predicate Sound(s: Store, guide: Guide, dir: Direction, src: NodeId, d: Probe) {
    && Reaches(s, src, d) && QueueFits(src, d)
    && AllAttained(s, guide, dir, src, d.dist) && ParentsFit(s, guide, d)
    && Falling(s, dir, src, d.dist, d.parents)
  }

  lemma RelaxFalls(s: Store, guide: Guide, dir: Direction, src: NodeId, d: Probe, u: NodeId, e: RelId)
    requires CanProbe(s, guide, d, u, e) && Selects(s, u, dir, e) && Reaches(s, src, d)
    requires Falling(s, dir, src, d.dist, d.parents)
    ensures var d' := Relax(s, guide, d, u, e); Falling(s, dir, src, d'.dist, d'.parents)
  {
    if Relax(s, guide, d, u, e) != d {
      SetParent(s, dir, src, d.dist, d.parents, u, e, Other(s.rels[e], u), d.dist[u] + s.rels[e].weight + guide[u]);
    }
  }

  lemma RelaxAttained(s: Store, guide: Guide, dir: Direction, src: NodeId, d: Probe, u: NodeId, e: RelId)
    requires CanProbe(s, guide, d, u, e) && Selects(s, u, dir, e) && AllAttained(s, guide, dir, src, d.dist)
    ensures AllAttained(s, guide, dir, src, Relax(s, guide, d, u, e).dist)
  {
    GuidedHop(s, guide, dir, src, u, d.dist[u], e);
  }

  lemma RelaxParents(s: Store, guide: Guide, dir: Direction, d: Probe, u: NodeId, e: RelId)
    requires CanProbe(s, guide, d, u, e) && Selects(s, u, dir, e) && ParentsFit(s, guide, d)
    ensures ParentsFit(s, guide, Relax(s, guide, d, u, e))
  {
    var d' := Relax(s, guide, d, u, e);
    HopBack(s, dir, u, e, Other(s.rels[e], u));
    forall v {:trigger d'.parents[v]} | v in d'.parents ensures v in d'.dist && ParentFits(s, guide, d', v) {
      if v in d.parents {
        assert d.parents[v] == d.parents[v] && ParentFits(s, guide, d, v);
      }
    }
  }

  lemma RelaxReaches(s: Store, guide: Guide, src: NodeId, d: Probe, u: NodeId, e: RelId)
    requires CanProbe(s, guide, d, u, e) && Reaches(s, src, d) && QueueFits(src, d) && EndpointsLive(s)
    ensures Reaches(s, src, Relax(s, guide, d, u, e)) && QueueFits(src, Relax(s, guide, d, u, e))
  {
    OthersAreNodes(s);
    assert Other(s.rels[e], u) in s.nodes;
  }

  lemma RelaxSound(s: Store, guide: Guide, dir: Direction, src: NodeId, d: Probe, u: NodeId, e: RelId)
    requires CanProbe(s, guide, d, u, e) && Selects(s, u, dir, e) && Sound(s, guide, dir, src, d) && EndpointsLive(s)
    ensures Sound(s, guide, dir, src, Relax(s, guide, d, u, e))
  {
    RelaxReaches(s, guide, src, d, u, e);
    RelaxAttained(s, guide, dir, src, d, u, e);
    RelaxParents(s, guide, dir, d, u, e);
    RelaxFalls(s, guide, dir, src, d, u, e);
  }

  /** d' came from d by lowering distances and reaching new nodes, all of which are now queued with their distance. */
  ghost predicate Lowered(d: Probe, d': Probe) {
    && d.dist.Keys <= d'.dist.Keys && d.queue <= d'.queue
    && (forall v {:trigger d'.dist[v]} :: v in d.dist ==> d'.dist[v] <= d.dist[v])
    && forall v {:trigger v in d'.dist} :: v in d'.dist ==>
      (v in d.dist && d'.dist[v] == d.dist[v]) || Entry(Some(d'.dist[v]), v) in d'.queue
  }

  lemma LoweredTransitive(a: Probe, b: Probe, c: Probe)
    requires Lowered(a, b) && Lowered(b, c)
    ensures Lowered(a, c)
  {
    forall v {:trigger v in c.dist} | v in c.dist
      ensures (v in a.dist && c.dist[v] == a.dist[v]) || Entry(Some(c.dist[v]), v) in c.queue
    {
      if v in b.dist && c.dist[v] == b.dist[v] {
        assert (v in a.dist && b.dist[v] == a.dist[v]) || Entry(Some(b.dist[v]), v) in b.queue;
      }
    }
    forall v {:trigger c.dist[v]} | v in a.dist ensures c.dist[v] <= a.dist[v] {
      assert b.dist[v] <= a.dist[v];
    }
  }

  /** The relationship e of n offers no smaller distance at its other end. */
  predicate NoBetter(s: Store, guide: Guide, dist: Distances, n: NodeId, e: RelId)
    requires e in s.rels && n in dist
  {
    && n in guide && Other(s.rels[e], n) in dist
    && dist[Other(s.rels[e], n)] <= dist[n] + s.rels[e].weight + guide[n]
  }

  lemma RelaxLowers(s: Store, guide: Guide, d: Probe, u: NodeId, e: RelId)
    requires CanProbe(s, guide, d, u, e)
    ensures var d' := Relax(s, guide, d, u, e);
      Lowered(d, d') && d'.dist[u] == d.dist[u] && NoBetter(s, guide, d'.dist, u, e)
  {
  }

  lemma StaysNoBetter(s: Store, guide: Guide, d: Probe, d': Probe, n: NodeId, e: RelId)
    requires Lowered(d, d') && n in d.dist && e in s.rels && d'.dist[n] == d.dist[n] && NoBetter(s, guide, d.dist, n, e)
    ensures NoBetter(s, guide, d'.dist, n, e)
  {
  }

  lemma {:induction false} RelaxAllCloses(s: Store, guide: Guide, d: Probe, u: NodeId, es: seq<RelId>)
    requires u in d.dist && forall e :: e in es ==> CanProbe(s, guide, d, u, e)
    ensures var d' := RelaxAll(s, guide, d, u, es);
      Lowered(d, d') && forall e {:trigger e in es} :: e in es ==> NoBetter(s, guide, d'.dist, u, e)
  {
    if es != [] {
      var k, e := |es| - 1, es[|es| - 1];
      var d1 := RelaxAll(s, guide, d, u, es[..k]);
      RelaxAllCloses(s, guide, d, u, es[..k]);
      assert CanProbe(s, guide, d, u, e);
      RelaxLowers(s, guide, d1, u, e);
      LoweredTransitive(d, d1, Relax(s, guide, d1, u, e));
      LastOrBefore(es);
      forall e' | e' in es ensures NoBetter(s, guide, Relax(s, guide, d1, u, e).dist, u, e') {
        if e' != e {
          StaysNoBetter(s, guide, d1, Relax(s, guide, d1, u, e), u, e');
        }
      }
    }
  }

  lemma {:induction false} RelaxAllSound(s: Store, guide: Guide, dir: Direction, src: NodeId, d: Probe, u: NodeId,
                                         es: seq<RelId>)
    requires Sound(s, guide, dir, src, d) && EndpointsLive(s)
    requires forall e :: e in es ==> CanProbe(s, guide, d, u, e) && Selects(s, u, dir, e)
    ensures Sound(s, guide, dir, src, RelaxAll(s, guide, d, u, es))
  {
    if es != [] {
      var k, e := |es| - 1, es[|es| - 1];
      RelaxAllSound(s, guide, dir, src, d, u, es[..k]);
      assert CanProbe(s, guide, d, u, e);
      RelaxSound(s, guide, dir, src, RelaxAll(s, guide, d, u, es[..k]), u, e);
    }
  }

  // ----- the whole search ---------------------------------------------------------------

  /** The entry that a node got with its present distance. */
  function EntryOf(src: NodeId, dist: Distances, v: NodeId): Entry
    requires v in dist
  {
    Entry(if v == src then None else Some(dist[v]), v)
  }

  predicate Open(src: NodeId, d: Probe, v: NodeId) {
    v in d.dist && EntryOf(src, d.dist, v) in d.queue
  }

  /** None of n's relationships in the direction offers a smaller distance. */
  ghost predicate Closed(s: Store, guide: Guide, dir: Direction, dist: Distances, n: NodeId)
    requires n in dist
  {
    forall e {:trigger Selects(s, n, dir, e)} :: Selects(s, n, dir, e) ==> NoBetter(s, guide, dist, n, e)
  }

  /** Every node reached is closed, or waits in the queue with its present distance. */
  ghost predicate Explored(s: Store, guide: Guide, dir: Direction, src: NodeId, d: Probe) {
    forall n {:trigger Open(src, d, n)} :: n in d.dist && !Open(src, d, n) ==> Closed(s, guide, dir, d.dist, n)
  }

  lemma StaysClosed(s: Store, guide: Guide, dir: Direction, d: Probe, d': Probe, n: NodeId)
    requires Lowered(d, d') && n in d.dist && d'.dist[n] == d.dist[n] && Closed(s, guide, dir, d.dist, n)
    ensures Closed(s, guide, dir, d'.dist, n)
  {
    forall e {:trigger Selects(s, n, dir, e)} | Selects(s, n, dir, e) ensures NoBetter(s, guide, d'.dist, n, e) {
      StaysNoBetter(s, guide, d, d', n, e);
    }
  }

  /** Who was open, and is not the node taken out, is open still; who got a new distance is open now. */
  lemma StaysOpen(src: NodeId, d: Probe, x: Entry, d2: Probe, n: NodeId)
    requires x in d.queue && Lowered(d.(queue := d.queue - multiset{x}), d2)
    requires src in d.dist && d.dist[src] == 0
    requires n in d2.dist && n != x.node && !Open(src, d2, n)
    ensures n in d.dist && !Open(src, d, n) && d2.dist[n] == d.dist[n]
  {
    assert n != src ==> Entry(Some(d2.dist[n]), n) !in d2.queue;
    if n == src {
      assert d2.dist[src] <= d.dist[src];
    }
  }

  lemma ProcessKeeps(s: Store, guide: Guide, dir: Direction, src: NodeId, d: Probe, x: Entry, es: seq<RelId>)
    requires Sound(s, guide, dir, src, d) && Explored(s, guide, dir, src, d) && EndpointsLive(s) && x in d.queue
    requires forall e :: e in es <==> Selects(s, x.node, dir, e)
    requires forall e :: e in es ==> CanProbe(s, guide, d, x.node, e)
    ensures var d1 := d.(queue := d.queue - multiset{x});
      && (forall e :: e in es ==> CanProbe(s, guide, d1, x.node, e))
      && var d2 := RelaxAll(s, guide, d1, x.node, es);
        Sound(s, guide, dir, src, d2) && Explored(s, guide, dir, src, d2) && Lowered(d1, d2)
  {
    var d1 := d.(queue := d.queue - multiset{x});
    assert forall e :: e in es ==> CanProbe(s, guide, d, x.node, e) && CanProbe(s, guide, d1, x.node, e);
    PopSound(s, guide, dir, src, d, x);
    RelaxAllSound(s, guide, dir, src, d1, x.node, es);
    RelaxAllCloses(s, guide, d1, x.node, es);
    StillExplored(s, guide, dir, src, d, x, RelaxAll(s, guide, d1, x.node, es), es);
  }

  lemma PopSound(s: Store, guide: Guide, dir: Direction, src: NodeId, d: Probe, x: Entry)
    requires Sound(s, guide, dir, src, d)
    ensures Sound(s, guide, dir, src, d.(queue := d.queue - multiset{x}))
  {
    var d1 := d.(queue := d.queue - multiset{x});
    forall v {:trigger d1.parents[v]} | v in d1.parents ensures v in d1.dist && ParentFits(s, guide, d1, v) {
      assert d.parents[v] == d1.parents[v] && ParentFits(s, guide, d, v);
    }
  }

  lemma StillExplored(s: Store, guide: Guide, dir: Direction, src: NodeId, d: Probe, x: Entry, d2: Probe,
                      es: seq<RelId>)
    requires Explored(s, guide, dir, src, d) && x in d.queue && x.node in d.dist
    requires src in d.dist && d.dist[src] == 0 && Lowered(d.(queue := d.queue - multiset{x}), d2)
    requires forall e :: e in es <==> Selects(s, x.node, dir, e)
    requires forall e {:trigger e in es} :: e in es ==> e in s.rels && NoBetter(s, guide, d2.dist, x.node, e)
    ensures Explored(s, guide, dir, src, d2)
  {
    forall n {:trigger Open(src, d2, n)} | n in d2.dist && !Open(src, d2, n)
      ensures Closed(s, guide, dir, d2.dist, n)
    {
      if n == x.node {
        forall e {:trigger Selects(s, n, dir, e)} | Selects(s, n, dir, e) ensures NoBetter(s, guide, d2.dist, n, e) {
          assert e in es;
        }
      } else {
        StaysOpen(src, d, x, d2, n);
        StaysClosed(s, guide, dir, d.(queue := d.queue - multiset{x}), d2, n);
      }
    }
  }

  /** Reached nodes that are all explored include everything a walk from them can reach. */
  lemma {:induction false} ExploredReaches(s: Store, guide: Guide, dir: Direction, src: NodeId, d: Probe, u: NodeId,
                                           es: seq<RelId>, v: NodeId)
    requires Explored(s, guide, dir, src, d) && d.queue == multiset{} && u in d.dist && IsWalk(s, dir, u, es, v)
    ensures v in d.dist
    decreases es
  {
    if es != [] {
      assert !Open(src, d, u) && Selects(s, u, dir, es[0]);
      ExploredReaches(s, guide, dir, src, d, Other(s.rels[es[0]], u), es[1..], v);
    }
  }

  // ----- least guided sums ------------------------------------------------------------------

  predicate NotAfter(x: Entry, y: Entry) {
    y.key.None? || (x.key.Some? && x.key.value <= y.key.value)
  }

  /** x has a least key of the queue. */
  predicate IsLeast(queue: multiset<Entry>, x: Entry) {
    forall y :: y in queue ==> NotAfter(x, y)
  }

  lemma LeastExists(queue: multiset<Entry>) returns (x: Entry)
    requires queue != multiset{}
    ensures x in queue && IsLeast(queue, x)
    decreases |queue|
  {
    var y :| y in queue;
    var rest := queue - multiset{y};
    x := y;
    if rest != multiset{} {
      var z := LeastExists(rest);
      x := if NotAfter(y, z) then y else z;
    }
    forall w | w in queue ensures NotAfter(x, w) {
      assert w == y || w in rest;
    }
  }

  /** Everything open is at least k away. */
  ghost predicate OpenFrom(src: NodeId, d: Probe, k: nat) {
    forall n {:trigger Open(src, d, n)} :: Open(src, d, n) ==> d.dist[n] >= k
  }

  /** Then so is everything a walk goes on to from a node that was reached, if it ends at an open node. */
  lemma {:induction false} WalkFrom(s: Store, guide: Guide, dir: Direction, src: NodeId, d: Probe, k: nat, u: NodeId,
                                    es: seq<RelId>, v: NodeId)
    requires Explored(s, guide, dir, src, d) && OpenFrom(src, d, k) && NonNegative(s)
    requires u in d.dist && IsWalk(s, dir, u, es, v) && Open(src, d, v)
    ensures d.dist[u] + GuidedSum(s, guide, u, es) >= k
    decreases |es|
  {
    GuidedNonNegative(s, guide, u, es);
    if es != [] && !Open(src, d, u) {
      assert Closed(s, guide, dir, d.dist, u) && Selects(s, u, dir, es[0]);
      WalkFrom(s, guide, dir, src, d, k, Other(s.rels[es[0]], u), es[1..], v);
    }
  }

  /** No walk from src to v has a smaller guided sum. */
  ghost predicate LeastGuided(s: Store, guide: Guide, dir: Direction, src: NodeId, v: NodeId, k: int) {
    forall es {:trigger IsWalk(s, dir, src, es, v)} :: IsWalk(s, dir, src, es, v) ==> k <= GuidedSum(s, guide, src, es)
  }

  /** The parent edges back from v have at most v's distance as their guided sum. */
  lemma {:induction false} TrailFits(s: Store, guide: Guide, dir: Direction, src: NodeId, d: Probe, v: NodeId,
                                     es: seq<RelId>)
    requires Sound(s, guide, dir, src, d) && v in d.dist
    requires FollowsParents(s, d.parents, src, v, es) && IsWalk(s, dir, src, es, v)
    ensures GuidedSum(s, guide, src, es) <= d.dist[v]
    decreases |es|
  {
    if es != [] {
      var k, e := |es| - 1, es[|es| - 1];
      assert ParentFits(s, guide, d, v);
      var w := WalkInit(s, dir, src, es, v);
      HopBack(s, dir, w, e, v);
      TrailFits(s, guide, dir, src, d, w, es[..k]);
      GuidedSnoc(s, guide, dir, src, es[..k], w, e);
      assert es[..k] + [e] == es;
    }
  }

  // ----- termination -----------------------------------------------------------------------

  function AsLabels(dist: Distances): Labels {
    map v: NodeId | v in dist :: Some(dist[v])
  }

  ghost predicate Advances(order: seq<NodeId>, d: Probe, d': Probe) {
    || Unlabelled(order, AsLabels(d'.dist)) < Unlabelled(order, AsLabels(d.dist))
    || (&& Unlabelled(order, AsLabels(d'.dist)) == Unlabelled(order, AsLabels(d.dist))
        && LabelSum(order, AsLabels(d'.dist)) < LabelSum(order, AsLabels(d.dist)))
    || d' == d
  }

  lemma RelaxAdvances(s: Store, guide: Guide, d: Probe, u: NodeId, e: RelId, order: seq<NodeId>)
    requires CanProbe(s, guide, d, u, e) && Distinct(order) && Other(s.rels[e], u) in order
    ensures Advances(order, d, Relax(s, guide, d, u, e))
  {
    var v, reach: nat := Other(s.rels[e], u), d.dist[u] + s.rels[e].weight + guide[u];
    assert AsLabels(d.dist[v := reach]) == AsLabels(d.dist)[v := Some(reach)];
    RelabelProgress(order, AsLabels(d.dist), v, reach);
  }

  lemma {:induction false} RelaxAllAdvances(s: Store, guide: Guide, d: Probe, u: NodeId, es: seq<RelId>,
                                            order: seq<NodeId>)
    requires forall e :: e in es ==> CanProbe(s, guide, d, u, e) && Other(s.rels[e], u) in order
    requires Distinct(order)
    ensures Advances(order, d, RelaxAll(s, guide, d, u, es))
  {
    if es != [] {
      var k := |es| - 1;
      RelaxAllAdvances(s, guide, d, u, es[..k], order);
      assert CanProbe(s, guide, d, u, es[k]);
      RelaxAdvances(s, guide, RelaxAll(s, guide, d, u, es[..k]), u, es[k], order);
    }
  }

  // ----- a_star ----------------------------------------------------------------------------

  /** Store a first or smaller distance, with its parent edge, and queue the node again. */
  method RelaxOne(hf: HeapFile, guide: Guide, u: NodeId, d: Probe, e: RelId) returns (d': Probe)
    requires CanProbe(hf.Contents(), guide, d, u, e)
    ensures d' == Relax(hf.Contents(), guide, d, u, e)
  {
    var r := hf.rels[e];
    var v := if u == r.source then r.target else r.source;
    var reach: nat := d.dist[u] + r.weight + guide[u];
    d' := d;
    if v !in d.dist || d.dist[v] > reach {
      d' := Probe(d.dist[v := reach], d.parents[v := e], d.queue + multiset{Entry(Some(reach), v)});
    }
  }

  method RelaxList(hf: HeapFile, guide: Guide, u: NodeId, d: Probe, rels: seq<RelId>) returns (d': Probe)
    requires forall e :: e in rels ==> CanProbe(hf.Contents(), guide, d, u, e)
    ensures d' == RelaxAll(hf.Contents(), guide, d, u, rels)
  {
    ghost var s := hf.Contents();
    d' := d;
    for i := 0 to |rels|
      invariant forall e :: e in rels[..i] ==> CanProbe(s, guide, d, u, e)
      invariant d' == RelaxAll(s, guide, d, u, rels[..i])
    {
      assert rels[i] in rels && CanProbe(s, guide, d, u, rels[i]);
      assert rels[..i + 1][..i] == rels[..i];
      d' := RelaxOne(hf, guide, u, d', rels[i]);
    }
    assert rels[..|rels|] == rels;
  }

  /** Expand u and relax its relationships; each looks up u's heuristic, and fails if there is none. */
  method Process(hf: HeapFile, guide: Guide, dir: Direction, u: NodeId, d: Probe, ghost q: seq<RelId>)
    returns (ok: bool, d': Probe, ghost es: seq<RelId>)
    requires u in hf.nodes && RingAt(hf.Contents(), u, q)
    requires u in d.dist && NonNegative(hf.Contents())
    ensures forall e :: e in es <==> Selects(hf.Contents(), u, dir, e)
    ensures !ok <==> es != [] && u !in guide
    ensures ok ==> forall e :: e in es ==> CanProbe(hf.Contents(), guide, d, u, e)
    ensures ok ==> d' == RelaxAll(hf.Contents(), guide, d, u, es)
  {
    var rels := Expand(hf, u, dir, q);
    ExpansionExact(hf.Contents(), u, dir, q);
    es := rels;
    if rels != [] && u !in guide {
      return false, d, es;
    }
    d' := RelaxList(hf, guide, u, d, rels);
    ok := true;
  }

  /** The source's first entry, with the largest key, is there only at the start. */
  ghost predicate Started(src: NodeId, d: Probe) {
    || d == Start(src)
    || forall x :: x in d.queue ==> x.key.Some?
  }

  function Start(src: NodeId): Probe {
    Probe(map[src := 0], map[], multiset{Entry(None, src)})
  }

  /** What holds while the search goes on: the target, once reached, is still queued. */
  ghost predicate Searching(s: Store, guide: Guide, dir: Direction, src: NodeId, target: NodeId, d: Probe) {
    && Sound(s, guide, dir, src, d) && Explored(s, guide, dir, src, d) && Started(src, d)
    && (target in d.dist ==> Open(src, d, target))
    && (src == target ==> d == Start(src))
  }

  lemma SearchStep(s: Store, guide: Guide, dir: Direction, src: NodeId, target: NodeId, d: Probe, x: Entry,
                   es: seq<RelId>, order: seq<NodeId>)
    requires Searching(s, guide, dir, src, target, d) && EndpointsLive(s) && x in d.queue && x.node != target
    requires forall e :: e in es <==> Selects(s, x.node, dir, e)
    requires forall e :: e in es ==> CanProbe(s, guide, d, x.node, e)
    requires Distinct(order) && forall n :: n in s.nodes ==> n in order
    ensures var d1 := d.(queue := d.queue - multiset{x});
      && (forall e :: e in es ==> CanProbe(s, guide, d1, x.node, e))
      && var d2 := RelaxAll(s, guide, d1, x.node, es);
        Searching(s, guide, dir, src, target, d2) && Advances(order, d1, d2)
  {
    var d1 := d.(queue := d.queue - multiset{x});
    ProcessKeeps(s, guide, dir, src, d, x, es);
    OthersAreNodes(s);
    RelaxAllAdvances(s, guide, d1, x.node, es, order);
    RelaxAllKeyed(s, guide, d1, x.node, es);
    var d2 := RelaxAll(s, guide, d1, x.node, es);
    if target in d2.dist && !Open(src, d2, target) {
      StaysOpen(src, d, x, d2, target);
    }
  }

  /** Only entries with a distance are added. */
  lemma {:induction false} RelaxAllKeyed(s: Store, guide: Guide, d: Probe, u: NodeId, es: seq<RelId>)
    requires forall e :: e in es ==> CanProbe(s, guide, d, u, e)
    requires forall x :: x in d.queue ==> x.key.Some?
    ensures var d' := RelaxAll(s, guide, d, u, es);
      forall x :: x in d'.queue ==> x.key.Some?
  {
    if es != [] {
      assert CanProbe(s, guide, d, u, es[|es| - 1]);
      RelaxAllKeyed(s, guide, d, u, es[..|es| - 1]);
    }
  }

  datatype Ending = Found | Dry | Unguided

  /** A node that the search may have to expand, and whose heuristic is missing. */
  ghost predicate MissingGuide(s: Store, guide: Guide, dir: Direction, src: NodeId, target: NodeId, u: NodeId) {
    Reachable(s, dir, src, u) && u != target && u !in guide && exists e :: Selects(s, u, dir, e)
  }

  ghost predicate Smaller(order: seq<NodeId>, d: Probe, d': Probe) {
    || Unlabelled(order, AsLabels(d'.dist)) < Unlabelled(order, AsLabels(d.dist))
    || (&& Unlabelled(order, AsLabels(d'.dist)) == Unlabelled(order, AsLabels(d.dist))
        && (|| LabelSum(order, AsLabels(d'.dist)) < LabelSum(order, AsLabels(d.dist))
            || (LabelSum(order, AsLabels(d'.dist)) == LabelSum(order, AsLabels(d.dist)) && |d'.queue| < |d.queue|)))
  }

  /** Take an entry out of the queue and process its node. */
  method Advance(hf: HeapFile, guide: Guide, src: NodeId, target: NodeId, dir: Direction, next: Entry, d: Probe,
                 ghost ring: map<NodeId, seq<RelId>>, ghost order: seq<NodeId>)
    returns (ok: bool, d': Probe)
    requires Rings(hf.Contents(), ring) && NonNegative(hf.Contents())
    requires Distinct(order) && forall n :: n in hf.nodes ==> n in order
    requires Searching(hf.Contents(), guide, dir, src, target, d) && next in d.queue && next.node != target
    ensures ok ==> Searching(hf.Contents(), guide, dir, src, target, d') && Smaller(order, d, d')
    ensures !ok ==> src != target && MissingGuide(hf.Contents(), guide, dir, src, target, next.node)
  {
    ghost var es;
    ghost var s := hf.Contents();
    var popped := d.(queue := d.queue - multiset{next});
    assert next.node in s.nodes && RingAt(s, next.node, ring[next.node]);
    ok, d', es := Process(hf, guide, dir, next.node, popped, ring[next.node]);
    if ok {
      SearchStep(s, guide, dir, src, target, d, next, es, order);
      assert |popped.queue| < |d.queue|;
    } else {
      assert es[0] in es;
      GuideMissing(s, guide, dir, src, target, d, next, es[0]);
    }
  }

  lemma GuideMissing(s: Store, guide: Guide, dir: Direction, src: NodeId, target: NodeId, d: Probe, next: Entry,
                     e: RelId)
    requires Searching(s, guide, dir, src, target, d) && next in d.queue && next.node != target
    requires Selects(s, next.node, dir, e) && next.node !in guide
    ensures src != target && MissingGuide(s, guide, dir, src, target, next.node)
  {
    AttainedReaches(s, guide, dir, src, next.node, d.dist[next.node]);
  }

  /** An entry with a least key, or without `leastFirst` any entry. */
  method ExtractMin(queue: multiset<Entry>, leastFirst: bool) returns (x: Entry)
    requires queue != multiset{}
    ensures x in queue && (leastFirst ==> IsLeast(queue, x))
  {
    ghost var least := LeastExists(queue);
    x :| x in queue && (leastFirst ==> IsLeast(queue, x));
  }

  /**
   Search until the target comes out of the queue, the queue runs dry, or a
   heuristic is missing. A heap hands out an entry with a least key; without
   `leastFirst` it may be any entry. At the end every node reached, if it is not
   queued with its present distance, offers no smaller distance to any other.
   */
  method Search(hf: HeapFile, guide: Guide, src: NodeId, target: NodeId, dir: Direction, leastFirst: bool,
                ghost ring: map<NodeId, seq<RelId>>, ghost order: seq<NodeId>)
    returns (ending: Ending, d: Probe, ghost u: NodeId)
    requires Rings(hf.Contents(), ring) && NonNegative(hf.Contents()) && src in hf.nodes
    requires Distinct(order) && forall n :: n in hf.nodes ==> n in order
    ensures !ending.Unguided? ==> Searching(hf.Contents(), guide, dir, src, target, d)
    ensures match ending
      case Found => target in d.dist && (leastFirst && src != target ==> OpenFrom(src, d, d.dist[target]))
      case Dry => d.queue == multiset{}
      case Unguided => src != target && MissingGuide(hf.Contents(), guide, dir, src, target, u)
  {
    ghost var s := hf.Contents();
    d := Start(src);
    u := src;
    StartSound(s, guide, dir, src);
    while d.queue != multiset{}
      invariant Searching(s, guide, dir, src, target, d)
      decreases Unlabelled(order, AsLabels(d.dist)), LabelSum(order, AsLabels(d.dist)), |d.queue|
    {
      var next := ExtractMin(d.queue, leastFirst);
      u := next.node;
      if next.node == target {
        if leastFirst && src != target {
          LeastIsNear(s, guide, dir, src, target, d, next);
        }
        return Found, d, u;
      }
      var ok, d' := Advance(hf, guide, src, target, dir, next, d, ring, order);
      if !ok {
        return Unguided, d, u;
      }
      d := d';
    }
    ending := Dry;
  }

  /** When the target comes out with a least key, everything that is open is at least as far away. */
  lemma LeastIsNear(s: Store, guide: Guide, dir: Direction, src: NodeId, target: NodeId, d: Probe, next: Entry)
    requires Searching(s, guide, dir, src, target, d) && src != target
    requires next in d.queue && next.node == target && IsLeast(d.queue, next)
    ensures target in d.dist && OpenFrom(src, d, d.dist[target])
  {
    assert d != Start(src);
    forall n {:trigger Open(src, d, n)} | Open(src, d, n) ensures d.dist[n] >= d.dist[target] {
      assert NotAfter(next, EntryOf(src, d.dist, n));
    }
  }

  /** A search that ran dry without its target shows that no walk reaches it. */
  lemma DryMeansUnreachable(s: Store, guide: Guide, dir: Direction, src: NodeId, target: NodeId, d: Probe)
    requires Searching(s, guide, dir, src, target, d) && d.queue == multiset{}
    ensures !Reachable(s, dir, src, target) && src != target
  {
    forall es | IsWalk(s, dir, src, es, target) ensures false {
      ExploredReaches(s, guide, dir, src, d, src, es, target);
    }
  }

  /** r is what a_star may report about a walk from src to target. */
  ghost predicate Reports(s: Store, dir: Direction, src: NodeId, target: NodeId, p: Path) {
    && p.source == src && p.target == target
    && if p.distance.None? then p.edges == [] && !Reachable(s, dir, src, target)
       else IsWalk(s, dir, src, p.edges, target) && p.distance.value == Cost(s, Weights, p.edges)
  }

  /** The walk reported has the least guided sum, and the least weight if the heuristic is zero. */
  ghost predicate ReportsLeast(s: Store, guide: Guide, dir: Direction, src: NodeId, target: NodeId, p: Path) {
    p.distance.Some? ==>
      && LeastGuided(s, guide, dir, src, target, GuidedSum(s, guide, src, p.edges))
      && ((forall n :: n in guide ==> guide[n] == 0) ==> Least(s, dir, Weights, src, target, p.distance.value))
  }

  /**
   The outcome, whatever order the queue hands entries out in. None stands for the
   exit on a missing key: it happens when source and target coincide, and
   otherwise only if the heuristic lacks a node that the search has to expand. A
   reported distance is infinite exactly when the target is unreachable, and a
   finite one belongs to a walk from source to target. If entries come out with
   the least key first, that walk has the least guided sum of all.
   */
  method Run(hf: HeapFile, guide: Guide, src: NodeId, target: NodeId, dir: Direction, leastFirst: bool,
             ghost ring: map<NodeId, seq<RelId>>)
    returns (r: Option<Path>)
    requires Rings(hf.Contents(), ring) && NonNegative(hf.Contents()) && src in hf.nodes
    ensures src == target ==> r.None?
    ensures r.None? && src != target ==> exists u :: MissingGuide(hf.Contents(), guide, dir, src, target, u)
    ensures r.Some? ==> Reports(hf.Contents(), dir, src, target, r.value)
    ensures r.Some? && leastFirst ==> ReportsLeast(hf.Contents(), guide, dir, src, target, r.value)
  {
    ghost var s := hf.Contents();
    ghost var order := Listing(hf.nodes.Keys);
    ghost var u;
    var ending, d;
    ending, d, u := Search(hf, guide, src, target, dir, leastFirst, ring, order);
    match ending
    case Found =>
      r := Report(hf, guide, src, target, dir, d);
    case Dry =>
      DryMeansUnreachable(s, guide, dir, src, target, d);
      r := Some(Path(src, target, None, []));
    case Unguided =>
      r := None;
  }

  /** Build the path once the target came out of the queue. */
  method Report(hf: HeapFile, ghost guide: Guide, src: NodeId, target: NodeId, ghost dir: Direction, d: Probe)
    returns (r: Option<Path>)
    requires Searching(hf.Contents(), guide, dir, src, target, d) && NonNegative(hf.Contents()) && target in d.dist
    ensures r.None? <==> src == target
    ensures r.Some? ==> Reports(hf.Contents(), dir, src, target, r.value)
    ensures r.Some? && OpenFrom(src, d, d.dist[target]) ==>
      ReportsLeast(hf.Contents(), guide, dir, src, target, r.value)
  {
    ghost var s := hf.Contents();
    ghost var stamp, bound :| Stamped(d.dist, stamp, bound) && ParentForest(s, dir, src, d.dist, d.parents, stamp);
    r := ConstructPath(hf, src, target, d.parents, dir, d.dist, stamp);
    if r.Some? && OpenFrom(src, d, d.dist[target]) {
      FoundLeast(s, guide, dir, src, target, d, r.value);
    }
  }

  lemma FoundLeast(s: Store, guide: Guide, dir: Direction, src: NodeId, target: NodeId, d: Probe, p: Path)
    requires Searching(s, guide, dir, src, target, d) && NonNegative(s)
    requires target in d.dist && OpenFrom(src, d, d.dist[target])
    requires IsWalk(s, dir, src, p.edges, target) && FollowsParents(s, d.parents, src, target, p.edges)
    requires p.distance == Some(Cost(s, Weights, p.edges))
    ensures ReportsLeast(s, guide, dir, src, target, p)
  {
    TrailFits(s, guide, dir, src, d, target, p.edges);
    forall es {:trigger IsWalk(s, dir, src, es, target)} | IsWalk(s, dir, src, es, target)
      ensures GuidedSum(s, guide, src, p.edges) <= GuidedSum(s, guide, src, es)
    {
      WalkFrom(s, guide, dir, src, d, d.dist[target], src, es, target);
    }
    if forall n :: n in guide ==> guide[n] == 0 {
      ZeroLeast(s, guide, dir, src, target, p.edges);
    }
  }

  lemma ZeroLeast(s: Store, guide: Guide, dir: Direction, src: NodeId, target: NodeId, es: seq<RelId>)
    requires (forall n :: n in guide ==> guide[n] == 0) && IsWalk(s, dir, src, es, target)
    requires LeastGuided(s, guide, dir, src, target, GuidedSum(s, guide, src, es))
    ensures Least(s, dir, Weights, src, target, Cost(s, Weights, es))
  {
    GuidedByZero(s, guide, dir, src, es, target);
    forall es' | IsWalk(s, dir, src, es', target) ensures Cost(s, Weights, es) <= Cost(s, Weights, es') {
      GuidedByZero(s, guide, dir, src, es', target);
    }
  }

  lemma StartSound(s: Store, guide: Guide, dir: Direction, src: NodeId)
    requires src in s.nodes
    ensures Sound(s, guide, dir, src, Start(src)) && Explored(s, guide, dir, src, Start(src))
    ensures Open(src, Start(src), src)
  {
    NoParentsFall(s, dir, src);
    assert IsWalk(s, dir, src, [], src) && GuidedSum(s, guide, src, []) == 0;
  }

  /** Some order of a finite set of nodes. */
  lemma Listing(nodes: set<NodeId>) returns (order: seq<NodeId>)
    ensures Distinct(order) && forall n :: n in nodes <==> n in order
  {
    if nodes == {} {
      return [];
    }
    var n :| n in nodes;
    order := Listing(nodes - {n});
    order := order + [n];
  }

  // ----- vertices of a path ------------------------------------------------------------------

  /** vs lists the nodes that the walk es visits, both ends included. */
  ghost predicate Visits(s: Store, dir: Direction, vs: seq<NodeId>, es: seq<RelId>) {
    |vs| == |es| + 1 && forall i {:trigger es[i]} :: 0 <= i < |es| ==> Hop(s, dir, vs[i], es[i], vs[i + 1])
  }

  /** The vertices met along the edges; an edge that does not touch the last vertex adds none. */
  function Vertices(s: Store, u: NodeId, es: seq<RelId>): (vs: seq<NodeId>)
    requires forall e :: e in es ==> e in s.rels
    ensures vs != []
  {
    if es == [] then [u]
    else
      var vs := Vertices(s, u, es[..|es| - 1]);
      assert es[|es| - 1] in es;
      var r, last := s.rels[es[|es| - 1]], vs[|vs| - 1];
      if r.source == last then vs + [r.target] else if r.target == last then vs + [r.source] else vs
  }

  /** Along a walk: one vertex more than edges, each joined to the next by its edge, and the far end last. */
  lemma {:induction false} VerticesOfWalk(s: Store, dir: Direction, u: NodeId, es: seq<RelId>, v: NodeId)
    requires IsWalk(s, dir, u, es, v)
    ensures forall e :: e in es ==> e in s.rels
    ensures var vs := Vertices(s, u, es); Visits(s, dir, vs, es) && vs[0] == u && vs[|es|] == v
    decreases |es|
  {
    WalkStaysLive(s, dir, u, es, v);
    if es != [] {
      var k, e := |es| - 1, es[|es| - 1];
      var w := WalkInit(s, dir, u, es, v);
      VerticesOfWalk(s, dir, u, es[..k], w);
      assert Vertices(s, u, es) == Vertices(s, u, es[..k]) + [v];
    }
  }

  /** An edge that does not touch the last vertex adds none. */
  lemma VerticesSkip(s: Store, u: NodeId, es: seq<RelId>, e: RelId)
    requires (forall x :: x in es ==> x in s.rels) && e in s.rels
    requires var vs := Vertices(s, u, es); !Incident(s.rels[e], vs[|vs| - 1])
    ensures Vertices(s, u, es + [e]) == Vertices(s, u, es)
  {
    assert (es + [e])[..|es|] == es;
  }

  lemma {:induction false} WalkStaysLive(s: Store, dir: Direction, u: NodeId, es: seq<RelId>, v: NodeId)
    requires IsWalk(s, dir, u, es, v)
    ensures forall e :: e in es ==> e in s.rels
    decreases |es|
  {
    if es != [] {
      WalkStaysLive(s, dir, Other(s.rels[es[0]], u), es[1..], v);
    }
  }

  /** All but the last hop of a walk, and where it ends. */
  lemma {:induction false} WalkInit(s: Store, dir: Direction, u: NodeId, es: seq<RelId>, v: NodeId) returns (w: NodeId)
    requires IsWalk(s, dir, u, es, v) && es != []
    ensures IsWalk(s, dir, u, es[..|es| - 1], w) && Hop(s, dir, w, es[|es| - 1], v)
    decreases |es|
  {
    if |es| == 1 {
      return u;
    }
    w := WalkInit(s, dir, Other(s.rels[es[0]], u), es[1..], v);
    assert es[..|es| - 1][1..] == es[1..][..|es| - 2];
  }

  /** Reads the edges of a path one after another. */
  method ExtractVertices(hf: HeapFile, p: Path) returns (vs: seq<NodeId>)
    requires forall e :: e in p.edges ==> e in hf.rels
    ensures vs == Vertices(hf.Contents(), p.source, p.edges)
  {
    vs := [p.source];
    for i := 0 to |p.edges|
      invariant vs == Vertices(hf.Contents(), p.source, p.edges[..i])
    {
      assert p.edges[..i + 1][..i] == p.edges[..i] && p.edges[i] in p.edges;
      var rel := hf.rels[p.edges[i]];
      var prev := vs[|vs| - 1];
      if rel.source == prev {
        vs := vs + [rel.target];
      } else if rel.target == prev {
        vs := vs + [rel.source];
      }
    }
    assert p.edges[..|p.edges|] == p.edges;
  }
}
