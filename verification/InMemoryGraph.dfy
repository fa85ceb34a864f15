/**
 The in-memory graph: the same records in dictionaries, patched in place, with
 ids counted up from zero.
 */
module InMemoryGraph {
  import opened Graph
  import opened Linking
  import HeapFile
  import opened Expansion

  class InMemoryGraph {
    var nodes: map<NodeId, Node>
    var rels: map<RelId, Rel>
    var nNodes: nat
    var nRels: nat

    ghost function Contents(): Store
      reads this`nodes, this`rels
    {
      Store(nodes, rels)
    }

    /** Ids are handed out in sequence and never given back. */
    ghost predicate Sequential()
      reads this
    {
      && (forall n: nat :: n in nodes <==> n < nNodes)
      && (forall x: nat :: x in rels <==> x < nRels)
    }

    ghost predicate Valid(ring: map<NodeId, seq<RelId>>)
      reads this
    {
      Sequential() && WellFormed(Contents(), ring)
    }

    constructor ()
      ensures Valid(map[]) && Contents() == Store(map[], map[]) && nNodes == nRels == 0
    {
      nodes, rels, nNodes, nRels := map[], map[], 0, 0;
    }

    method CreateNode(tag: nat, ghost ring: map<NodeId, seq<RelId>>) returns (n: NodeId)
      requires Valid(ring)
      modifies this
      ensures n == old(nNodes) && nNodes == old(nNodes) + 1 && nRels == old(nRels)
      ensures Contents() == Store(old(nodes)[n := Node(None, tag)], old(rels))
      ensures Valid(ring[n := []])
    {
      n := nNodes;
      HeapFile.NewNodeKeepsWellFormed(Contents(), ring, n, tag);
      nNodes := nNodes + 1;
      nodes := nodes[n := Node(None, tag)];
    }

    /** Patch the next pointers of the record at id that belong to n's list. */
    method PatchNext(id: RelId, n: NodeId, x: RelId)
      requires id in rels
      modifies this`rels
      ensures rels == old(rels)[id := SetNext(old(rels)[id], n, x)]
    {
      if rels[id].source == n {
        rels := rels[id := rels[id].(nextS := x)];
      }
      if rels[id].target == n {
        rels := rels[id := rels[id].(nextT := x)];
      }
    }

    method PatchPrev(id: RelId, n: NodeId, x: RelId)
      requires id in rels
      modifies this`rels
      ensures rels == old(rels)[id := SetPrev(old(rels)[id], n, x)]
    {
      if rels[id].source == n {
        rels := rels[id := rels[id].(prevS := x)];
      }
      if rels[id].target == n {
        rels := rels[id := rels[id].(prevT := x)];
      }
    }

    /** First and last member of n's list; the new relationship itself when the list is empty. */
    method FindEnds(n: NodeId, x: RelId) returns (first: RelId, last: RelId)
      requires EndsLive(Contents(), n)
      ensures first == FirstIn(Contents(), n, x) && last == LastIn(Contents(), n, x)
    {
      if nodes[n].first == None {
        last, first := x, x;
      } else {
        first := nodes[n].first.value;
        last := if n == rels[first].source then rels[first].prevS else rels[first].prevT;
      }
    }

    /** Create a relationship by patching the records where they are. */
    method StoreRelationship(from: NodeId, to: NodeId, weight: int, tag: nat) returns (x: RelId)
      requires EndsLive(Contents(), from) && EndsLive(Contents(), to) && Sequential()
      modifies this
      ensures Sequential()
      ensures x == old(nRels) && nRels == old(nRels) + 1 && nNodes == old(nNodes)
      ensures Contents() == Insert(old(Contents()), x, from, to, weight, tag)
    {
      x := nRels;
      InsertKeys(Contents(), x, from, to, weight, tag);
      nRels := nRels + 1;
      var firstS, lastS := FindEnds(from, x);
      var firstT, lastT := FindEnds(to, x);
      rels := rels[x := Rel(from, to, lastS, firstS, lastT, firstT, weight, tag)];
      PatchEnds(x, from, to, firstS, lastS, firstT, lastT);
      PatchFirst(from, x);
      PatchFirst(to, x);
    }

    /** Point the ends of both lists at x. */
    method PatchEnds(x: RelId, from: NodeId, to: NodeId, firstS: RelId, lastS: RelId, firstT: RelId, lastT: RelId)
      requires firstS in rels && lastS in rels && firstT in rels && lastT in rels
      modifies this`rels
      ensures rels == LinkEnds(old(rels), x, from, to, firstS, lastS, firstT, lastT)
    {
      PatchNext(lastS, from, x);
      PatchNext(lastT, to, x);
      PatchPrev(firstS, from, x);
      PatchPrev(firstT, to, x);
    }

    /** A node without relationships starts its list with x. */
    method PatchFirst(n: NodeId, x: RelId)
      requires n in nodes
      modifies this`nodes
      ensures nodes == SetFirstIfNone(old(nodes), n, x)
    {
      if nodes[n].first == None {
        nodes := nodes[n := nodes[n].(first := Some(x))];
      }
    }

    method CreateRelationship(from: NodeId, to: NodeId, weight: int, tag: nat, ghost ring: map<NodeId, seq<RelId>>)
      returns (x: RelId)
      requires Valid(ring) && from in nodes && to in nodes
      modifies this
      ensures x == old(nRels) && nRels == old(nRels) + 1 && nNodes == old(nNodes)
      ensures EndsLive(old(Contents()), from) && EndsLive(old(Contents()), to)
      ensures Contents() == Insert(old(Contents()), x, from, to, weight, tag)
      ensures Valid(AppendRing(ring, from, to, x))
    {
      ghost var s := Contents();
      assert EndsLive(s, from) && EndsLive(s, to) by {
        RingEnds(s, ring, from);
        RingEnds(s, ring, to);
      }
      x := StoreRelationship(from, to, weight, tag);
      assert WellFormed(Contents(), AppendRing(ring, from, to, x)) by {
        InsertKeepsWellFormed(s, ring, x, from, to, weight, tag);
      }
    }
  }

  // ----- expansion ------------------------------------------------------------------------

  /** Follow n's list from x until the next relationship that matches, or back to x. */
  method NextRelationshipId(g: InMemoryGraph, n: NodeId, x: RelId, dir: Direction, ghost q: seq<RelId>, ghost k: nat)
    returns (y: Option<RelId>, ghost j: int)
    requires n in g.nodes && RingAt(g.Contents(), n, q)
    requires k < |q| && q[k] == x
    ensures y.Some? ==> NextMatch(g.Contents(), n, dir, q, k, j) && q[j] == y.value
    ensures y.None? ==> NoOtherMatch(g.Contents(), n, dir, q, k)
  {
    ghost var s := g.Contents();
    var id := NextOf(g.rels[x], n);
    j := Succ(k, |q|);
    while true
      invariant Passed(s, n, dir, q, k, j) && q[j] == id && (j == k ==> |q| == 1)
      decreases if k < j then |q| - j + k else k - j
    {
      if id != x && Matches(g.rels[id], n, dir) {
        return Some(id), j;
      }
      id := NextOf(g.rels[id], n);
      assert NextOf(s.rels[q[j]], n) == q[Succ(j, |q|)];
      PassedNext(s, n, dir, q, k, j);
      j := Succ(j, |q|);
      if id == x {
        return None, j;
      }
    }
  }

  method CollectFrom(g: InMemoryGraph, n: NodeId, dir: Direction, start: RelId, ghost q: seq<RelId>, ghost f: nat)
    returns (result: seq<RelId>)
    requires n in g.nodes && RingAt(g.Contents(), n, q)
    requires f < |q| && q[f] == start && Selects(g.Contents(), n, dir, q[f]) && NoneIn(g.Contents(), n, dir, q, 0, f)
    ensures result == Selected(g.Contents(), n, dir, q)
  {
    ghost var s := g.Contents();
    var id := Some(start);
    ghost var k := f;
    result := [];
    SelectedSkips(s, n, dir, q, 0, f);
    while id.Some?
      invariant f <= k < |q|
      invariant id.Some? ==> id.value == q[k] && Selects(s, n, dir, q[k]) && result == Selected(s, n, dir, q[..k])
      invariant id.None? ==> result == Selected(s, n, dir, q)
      decreases id.Some?, |q| - k
    {
      result := result + [id.value];
      SelectedTakes(s, n, dir, q, k);
      ghost var j;
      id, j := NextRelationshipId(g, n, id.value, dir, q, k);
      if id == None || id.value == start {
        SelectedRest(s, n, dir, q, f, k, if id == None then k else j);
        if id.Some? {
          return;
        }
      } else {
        SelectedSkips(s, n, dir, q, k + 1, j);
        k := j;
      }
    }
  }

  /** All relationships of n in a direction: the matching part of the ring, in ring order. */
  method Expand(g: InMemoryGraph, n: NodeId, dir: Direction, ghost q: seq<RelId>) returns (result: seq<RelId>)
    requires n in g.nodes && RingAt(g.Contents(), n, q)
    ensures result == Selected(g.Contents(), n, dir, q)
  {
    ghost var s := g.Contents();
    if g.nodes[n].first == None {
      return [];
    }
    var id := g.nodes[n].first;
    ghost var f := 0;
    if !Matches(g.rels[id.value], n, dir) {
      id, f := NextRelationshipId(g, n, id.value, dir, q, 0);
    }
    if id == None {
      SelectedSkips(s, n, dir, q, 0, |q|);
      assert q[..|q|] == q;
      return [];
    }
    result := CollectFrom(g, n, dir, id.value, q, f);
  }
}
