/**
 Walking a node's ring: the next relationship in a direction, and the list of
 all of them.
 */
module Expansion {
  import opened Graph
  import opened HeapFile

  // ----- the part of a ring that matches a direction ---------------------------

  predicate Selects(s: Store, n: NodeId, dir: Direction, x: RelId) {
    x in s.rels && Matches(s.rels[x], n, dir)
  }

  /** The members of q that match, in order. */
  function Selected(s: Store, n: NodeId, dir: Direction, q: seq<RelId>): seq<RelId> {
    if q == [] then []
    else
      var x := q[|q| - 1];
      Selected(s, n, dir, q[..|q| - 1]) + if Selects(s, n, dir, x) then [x] else []
  }

  lemma {:induction false} SelectedMembers(s: Store, n: NodeId, dir: Direction, q: seq<RelId>)
    ensures forall x :: x in Selected(s, n, dir, q) <==> x in q && Selects(s, n, dir, x)
  {
    if q != [] {
      SelectedMembers(s, n, dir, q[..|q| - 1]);
      assert q == q[..|q| - 1] + [q[|q| - 1]];
    }
  }

  lemma {:induction false} SelectedDistinct(s: Store, n: NodeId, dir: Direction, q: seq<RelId>)
    requires Distinct(q)
    ensures Distinct(Selected(s, n, dir, q))
  {
    if q != [] {
      SelectedDistinct(s, n, dir, q[..|q| - 1]);
      SelectedMembers(s, n, dir, q[..|q| - 1]);
    }
  }

  /** x stands before y. */
  ghost predicate Before(q: seq<RelId>, x: RelId, y: RelId) {
    exists i, j :: 0 <= i < j < |q| && q[i] == x && q[j] == y
  }

  /** The matching members keep the order of the ring. */
  lemma {:induction false} SelectedInOrder(s: Store, n: NodeId, dir: Direction, q: seq<RelId>, a: nat, b: nat)
    requires a < b < |Selected(s, n, dir, q)|
    ensures Before(q, Selected(s, n, dir, q)[a], Selected(s, n, dir, q)[b])
  {
    var k := |q| - 1;
    var r := Selected(s, n, dir, q[..k]);
    if b < |r| {
      SelectedInOrder(s, n, dir, q[..k], a, b);
      var i, j :| 0 <= i < j < k && q[..k][i] == r[a] && q[..k][j] == r[b];
      assert q[i] == r[a] && q[j] == r[b];
    } else {
      SelectedMembers(s, n, dir, q[..k]);
      assert r[a] in q[..k];
      var i :| 0 <= i < k && q[..k][i] == r[a];
      assert q[i] == r[a] && q[k] == Selected(s, n, dir, q)[b];
    }
  }

  /** No member at a position from a up to b matches. */
  ghost predicate NoneIn(s: Store, n: NodeId, dir: Direction, q: seq<RelId>, a: int, b: int)
    requires 0 <= a && b <= |q|
  {
    forall i :: a <= i < b ==> !Selects(s, n, dir, q[i])
  }

  lemma {:induction false} SelectedSkips(s: Store, n: NodeId, dir: Direction, q: seq<RelId>, a: nat, b: nat)
    requires a <= b <= |q| && NoneIn(s, n, dir, q, a, b)
    ensures Selected(s, n, dir, q[..b]) == Selected(s, n, dir, q[..a])
  {
    if a < b {
      SelectedSkips(s, n, dir, q, a, b - 1);
      assert q[..b][..b - 1] == q[..b - 1];
    }
  }

  lemma SelectedTakes(s: Store, n: NodeId, dir: Direction, q: seq<RelId>, k: nat)
    requires k < |q| && Selects(s, n, dir, q[k])
    ensures Selected(s, n, dir, q[..k + 1]) == Selected(s, n, dir, q[..k]) + [q[k]]
  {
    assert q[..k + 1][..k] == q[..k];
  }

  // ----- next match -------------------------------------------------------------

  /** j is the first matching position after k, going round; k itself does not count. */
  ghost predicate NextMatch(s: Store, n: NodeId, dir: Direction, q: seq<RelId>, k: int, j: int) {
    && 0 <= k < |q| && 0 <= j < |q| && j != k && Selects(s, n, dir, q[j])
    && (k < j ==> NoneIn(s, n, dir, q, k + 1, j))
    && (j < k ==> NoneIn(s, n, dir, q, k + 1, |q|) && NoneIn(s, n, dir, q, 0, j))
  }

  ghost predicate NoOtherMatch(s: Store, n: NodeId, dir: Direction, q: seq<RelId>, k: int) {
    forall i :: 0 <= i < |q| && i != k ==> !Selects(s, n, dir, q[i])
  }

  /** The walk from position k has reached j, going round, without a match. */
  ghost predicate Passed(s: Store, n: NodeId, dir: Direction, q: seq<RelId>, k: int, j: int) {
    && 0 <= k < |q| && 0 <= j < |q|
    && (k < j ==> NoneIn(s, n, dir, q, k + 1, j))
    && (j <= k ==> NoneIn(s, n, dir, q, k + 1, |q|) && NoneIn(s, n, dir, q, 0, j))
  }

  lemma PassedNext(s: Store, n: NodeId, dir: Direction, q: seq<RelId>, k: int, j: int)
    requires Passed(s, n, dir, q, k, j) && (j == k ==> |q| == 1) && (j == k || !Selects(s, n, dir, q[j]))
    ensures Passed(s, n, dir, q, k, Succ(j, |q|))
    ensures Succ(j, |q|) == k ==> NoOtherMatch(s, n, dir, q, k)
  {
  }

  /** Follow n's list from x until the next relationship that matches, or back to x. */
  method NextRelationshipId(hf: HeapFile, n: NodeId, x: RelId, dir: Direction, ghost q: seq<RelId>, ghost k: nat)
    returns (y: Option<RelId>, ghost j: int)
    requires n in hf.nodes && RingAt(hf.Contents(), n, q)
    requires k < |q| && q[k] == x
    ensures y.Some? ==> NextMatch(hf.Contents(), n, dir, q, k, j) && q[j] == y.value
    ensures y.None? ==> NoOtherMatch(hf.Contents(), n, dir, q, k)
  {
    ghost var s := hf.Contents();
    var id := if n == hf.rels[x].source then hf.rels[x].nextS else hf.rels[x].nextT;
    j := Succ(k, |q|);
    while true
      invariant Passed(s, n, dir, q, k, j) && q[j] == id && (j == k ==> |q| == 1)
      decreases if k < j then |q| - j + k else k - j
    {
      var r := hf.rels[id];
      if id != x && ((r.source == n && dir != Incoming) || (r.target == n && dir != Outgoing)) {
        return Some(id), j;
      }
      id := if n == r.source then r.nextS else r.nextT;
      assert NextOf(s.rels[q[j]], n) == q[Succ(j, |q|)];
      PassedNext(s, n, dir, q, k, j);
      j := Succ(j, |q|);
      if id == x {
        return None, j;
      }
    }
  }

  /** Append matching relationships from position f, the first match, until the walk is back there. */
  method CollectFrom(hf: HeapFile, n: NodeId, dir: Direction, start: RelId, ghost q: seq<RelId>, ghost f: nat)
    returns (result: seq<RelId>)
    requires n in hf.nodes && RingAt(hf.Contents(), n, q)
    requires f < |q| && q[f] == start && Selects(hf.Contents(), n, dir, q[f]) && NoneIn(hf.Contents(), n, dir, q, 0, f)
    ensures result == Selected(hf.Contents(), n, dir, q)
  {
    ghost var s := hf.Contents();
    var id := Some(start);
    ghost var k := f;
    result := [];
    SelectedSkips(s, n, dir, q, 0, f);
    while id.Some?
      invariant f <= k < |q|
      invariant id.Some? ==> id.value == q[k] && Selects(s, n, dir, q[k]) && result == Selected(s, n, dir, q[..k])
      invariant id.None? ==> result == Selected(s, n, dir, q)
      decreases id.Some?, |q| - k
    {
      result := result + [id.value];
      SelectedTakes(s, n, dir, q, k);
      ghost var j;
      id, j := NextRelationshipId(hf, n, id.value, dir, q, k);
      if id == None || id.value == start {
        SelectedRest(s, n, dir, q, f, k, if id == None then k else j);
        if id.Some? {
          return;
        }
      } else {
        SelectedSkips(s, n, dir, q, k + 1, j);
        k := j;
      }
    }
  }

  /** Coming back to the first match means nothing matched after k. */
  lemma LastMatch(s: Store, n: NodeId, dir: Direction, q: seq<RelId>, f: int, k: int, j: int)
    requires Distinct(q) && 0 <= f <= k < |q| && 0 <= j < |q|
    requires (j == k && NoOtherMatch(s, n, dir, q, k)) || (NextMatch(s, n, dir, q, k, j) && q[j] == q[f])
    ensures NoneIn(s, n, dir, q, k + 1, |q|)
  {
  }

  lemma SelectedRest(s: Store, n: NodeId, dir: Direction, q: seq<RelId>, f: int, k: int, j: int)
    requires Distinct(q) && 0 <= f <= k < |q| && 0 <= j < |q|
    requires (j == k && NoOtherMatch(s, n, dir, q, k)) || (NextMatch(s, n, dir, q, k, j) && q[j] == q[f])
    ensures Selected(s, n, dir, q[..k + 1]) == Selected(s, n, dir, q)
  {
    LastMatch(s, n, dir, q, f, k, j);
    SelectedSkips(s, n, dir, q, k + 1, |q|);
    assert q[..|q|] == q;
  }

  /** All relationships of n in a direction: the matching part of the ring, in ring order, each once. */
  method Expand(hf: HeapFile, n: NodeId, dir: Direction, ghost q: seq<RelId>) returns (result: seq<RelId>)
    requires n in hf.nodes && RingAt(hf.Contents(), n, q)
    ensures result == Selected(hf.Contents(), n, dir, q)
  {
    ghost var s := hf.Contents();
    if hf.nodes[n].first == None {
      return [];
    }
    var id := hf.nodes[n].first;
    var r := hf.rels[id.value];
    ghost var f := 0;
    if !((r.source == n && dir != Incoming) || (r.target == n && dir != Outgoing)) {
      id, f := NextRelationshipId(hf, n, id.value, dir, q, 0);
    }
    if id == None {
      SelectedSkips(s, n, dir, q, 0, |q|);
      assert q[..|q|] == q;
      return [];
    }
    result := CollectFrom(hf, n, dir, id.value, q, f);
  }

  /** The expansion lists exactly the live relationships of n in the direction, each once. */
  lemma ExpansionExact(s: Store, n: NodeId, dir: Direction, q: seq<RelId>)
    requires n in s.nodes && RingAt(s, n, q)
    ensures Distinct(Selected(s, n, dir, q))
    ensures forall x :: x in Selected(s, n, dir, q) <==> Selects(s, n, dir, x)
  {
    SelectedMembers(s, n, dir, q);
    SelectedDistinct(s, n, dir, q);
    forall x | Selects(s, n, dir, x) ensures x in q {
      assert Incident(s.rels[x], n);
    }
  }
}
