/**
 Moving every relationship to a prescribed id by swaps. `newIds` says where each
 record has to go; as records change places the dictionary and its inverse are
 kept in step.
 */
module Reorder {
  import opened Graph
  import opened Linking
  import opened Renaming
  import opened Slots
  import opened HeapFile
  import opened Swap

  type Dict = map<nat, nat>

  ghost predicate InjectiveDict(m: Dict) {
    forall x, y :: x in m && y in m && m[x] == m[y] ==> x == y
  }

  /** Where a dictionary sends x: ids it does not list stay. */
  function Look(m: Dict, x: nat): nat {
    if x in m then m[x] else x
  }

  /** The renaming a dictionary stands for. */
  function Placement(m: Dict): Renamer {
    (x: nat) => Look(m, x)
  }

  ghost predicate MutuallyInverse(m: Dict, inv: Dict) {
    && (forall x :: x in m ==> m[x] in inv && inv[m[x]] == x)
    && (forall y :: y in inv ==> inv[y] in m && m[inv[y]] == y)
  }

  /** Turn a dictionary round. */
  method Invert(m: Dict) returns (inv: Dict)
    requires InjectiveDict(m)
    ensures MutuallyInverse(m, inv)
  {
    inv := map[];
    var rest := m.Keys;
    while rest != {}
      invariant rest <= m.Keys
      invariant forall x :: x in m && x !in rest ==> m[x] in inv && inv[m[x]] == x
      invariant forall y :: y in inv ==> inv[y] in m && m[inv[y]] == y && inv[y] !in rest
      decreases rest
    {
      var x :| x in rest;
      inv := inv[m[x] := x];
      rest := rest - {x};
    }
  }

  // ----- one step on the dictionaries ------------------------------------------------

  /** The dictionary after the record at `oldId` went to `new` and the one there came back. */
  function Settle(m: Dict, oldId: nat, newId: nat): Dict {
    if oldId == newId then m - {oldId}
    else if newId in m then (m - {oldId, newId})[oldId := m[newId]]
    else m - {oldId}
  }

  function SettleInverse(m: Dict, inv: Dict, oldId: nat, newId: nat): Dict {
    if oldId != newId && newId in m then (inv - {newId, m[newId]})[m[newId] := oldId] else inv - {newId}
  }

  /** The step keeps the two dictionaries inverse to each other. */
  lemma SettleKeepsInverse(m: Dict, inv: Dict, oldId: nat, newId: nat)
    requires MutuallyInverse(m, inv) && newId in inv && inv[newId] == oldId && (oldId == newId || newId in m)
    ensures MutuallyInverse(Settle(m, oldId, newId), SettleInverse(m, inv, oldId, newId))
    ensures Settle(m, oldId, newId).Keys == m.Keys - {newId}
    ensures SettleInverse(m, inv, oldId, newId).Keys == inv.Keys - {newId}
  {
  }

  /** What remains to be done after the swap, applied to swapped ids, is what remained before. */
  lemma SettleFollowsSwap(m: Dict, oldId: nat, newId: nat, x: nat)
    requires oldId in m && m[oldId] == newId && (oldId == newId || newId in m)
    ensures Look(Settle(m, oldId, newId), Transpose(oldId, newId, x)) == Look(m, x)
  {
  }

  /** The next id visited: four slots on, or the start of the next page. */
  method NextPosition(page: nat, slot: nat) returns (page': nat, slot': nat)
    requires slot < 256 && slot % 4 == 0
    ensures 256 * page' + slot' == 256 * page + slot + 4 && slot' < 256 && slot' % 4 == 0
  {
    if slot + 4 >= 255 {
      page', slot' := page + 1, 0;
    } else {
      page', slot' := page, slot + 4;
    }
  }

  // ----- reorder_relationships ---------------------------------------------------------

  /** `done` followed by what m still has to do is what was asked for. */
  ghost predicate LeavesOnly(target: Dict, m: Dict, done: Renamer) {
    forall x {:trigger done(x)} :: Look(m, done(x)) == Look(target, x)
  }

  lemma LeavesOnlyStep(target: Dict, m: Dict, done: Renamer, done': Renamer, oldId: nat, newId: nat)
    requires LeavesOnly(target, m, done) && forall x {:trigger done'(x)} :: done'(x) == Transpose(oldId, newId, done(x))
    requires oldId in m && m[oldId] == newId && (oldId == newId || newId in m)
    ensures LeavesOnly(target, Settle(m, oldId, newId), done')
  {
    forall x {:trigger done'(x)} ensures Look(Settle(m, oldId, newId), done'(x)) == Look(target, x) {
      SettleFollowsSwap(m, oldId, newId, done(x));
    }
  }

  lemma RenamedThenSwapped(s: Store, now: Store, next: Store, done: Renamer, done': Renamer, oldId: nat, newId: nat)
    requires Renamed(s, now, done, Unchanged()) && Renamed(now, next, Exchange(oldId, newId), Unchanged())
    requires forall x {:trigger done'(x)} :: done'(x) == Transpose(oldId, newId, done(x))
    ensures Renamed(s, next, done', Unchanged())
  {
    RenamedCompose(s, now, next, done, Exchange(oldId, newId), done', Unchanged(), Unchanged(), Unchanged());
  }

  /** How far the loop is: `done` renames s into the current store, and the dictionary has the rest. */
  ghost predicate Progress(s: Store, now: Store, target: Dict, m: Dict, done: Renamer) {
    Renamed(s, now, done, Unchanged()) && Injective(done) && LeavesOnly(target, m, done)
  }

  lemma TransposeApart(a: nat, b: nat, x: nat, y: nat)
    ensures Transpose(a, b, x) == Transpose(a, b, y) ==> x == y
  {
  }

  lemma ProgressStep(s: Store, now: Store, next: Store, target: Dict, m: Dict, done: Renamer, oldId: nat, newId: nat)
    returns (done': Renamer)
    requires Progress(s, now, target, m, done)
    requires Renamed(now, next, Exchange(oldId, newId), Unchanged())
    requires oldId in m && m[oldId] == newId && (oldId == newId || newId in m)
    ensures Progress(s, next, target, Settle(m, oldId, newId), done')
  {
    done' := (x: nat) => Transpose(oldId, newId, done(x));
    assert Injective(done') by {
      forall a, b ensures Apart(done', a, b) {
        assert Apart(done, a, b);
        TransposeApart(oldId, newId, done(a), done(b));
      }
    }
    RenamedThenSwapped(s, now, next, done, done', oldId, newId);
    LeavesOnlyStep(target, m, done, done', oldId, newId);
  }

  /** v is among the first n record positions. */
  predicate Visited(v: nat, n: nat) {
    v % 4 == 0 && v < 4 * n
  }

  /** The dictionaries when the first i positions have been settled. */
  ghost predicate Pending(m: Dict, inv: Dict, live: set<nat>, targets: set<nat>, i: nat) {
    && MutuallyInverse(m, inv)
    && (forall x :: x in m <==> x in live && !(x in targets && Visited(x, i)))
    && (forall y :: y in inv <==> y in targets && !Visited(y, i))
    && AllMet(targets, live, i)
  }

  lemma NextVisited(i: nat)
    ensures forall v: nat :: Visited(v, i + 1) <==> Visited(v, i) || v == 4 * i
  {
  }

  lemma PendingStep(m: Dict, inv: Dict, live: set<nat>, targets: set<nat>, i: nat)
    requires Pending(m, inv, live, targets, i) && 4 * i in inv
    requires inv[4 * i] == 4 * i || 4 * i in m
    ensures Pending(Settle(m, inv[4 * i], 4 * i), SettleInverse(m, inv, inv[4 * i], 4 * i), live, targets, i + 1)
  {
    SettleKeepsInverse(m, inv, inv[4 * i], 4 * i);
    NextVisited(i);
  }

  lemma PendingSkip(m: Dict, inv: Dict, live: set<nat>, targets: set<nat>, i: nat)
    requires Pending(m, inv, live, targets, i) && 4 * i !in inv
    ensures Pending(m, inv, live, targets, i + 1)
  {
    NextVisited(i);
  }

  /** The targets among the first n positions are live. */
  predicate AllMet(targets: set<nat>, live: set<nat>, n: nat) {
    forall v :: v in targets && Visited(v, n) ==> v in live
  }

  /** There are no other targets. */
  predicate AllVisited(targets: set<nat>, n: nat) {
    forall v :: v in targets ==> Visited(v, n)
  }

  /** An empty dictionary stays settled to the end. */
  lemma PendingEmpty(m: Dict, inv: Dict, live: set<nat>, targets: set<nat>, i: nat, n: nat)
    requires Pending(m, inv, live, targets, i) && i <= n && m == map[]
    ensures Pending(m, inv, live, targets, n)
  {
    assert inv == map[];
    assert forall v: nat :: Visited(v, i) ==> Visited(v, n);
  }

  /** Nothing is left exactly when no target lies beyond the positions visited. */
  lemma PendingLeft(m: Dict, inv: Dict, live: set<nat>, targets: set<nat>, n: nat)
    requires Pending(m, inv, live, targets, n)
    ensures m == map[] <==> AllVisited(targets, n)
  {
    if x :| x in m {
      assert m[x] in inv;
    }
    if y :| y in targets && !Visited(y, n) {
      assert inv[y] in m;
    }
  }

  /** The targets among the first n positions are listed: the only dictionaries the loop gets through. */
  predicate Compact(newIds: Dict, live: set<nat>, n: nat) {
    AllMet(newIds.Values, live, n)
  }

  predicate TargetsVisited(newIds: Dict, n: nat) {
    AllVisited(newIds.Values, n)
  }

  /** t is s with every relationship where newIds sends it, every pointer renamed alike, and the rings renamed. */
  ghost predicate Repositioned(s: Store, t: Store, newIds: Dict, ring: map<NodeId, seq<RelId>>) {
    Renamed(s, t, Placement(newIds), Unchanged()) && WellFormed(t, MapRings(ring, Placement(newIds)))
  }

  /**
   t is s renamed by `done`: whoever was to go to one of the first n positions is
   there, and the entries in `rest` take the others from where they are to where
   they should be.
   */
  ghost predicate PartlyRepositioned(s: Store, t: Store, newIds: Dict, rest: Dict, n: nat, done: Renamer,
                                     ring: map<NodeId, seq<RelId>>) {
    && Renamed(s, t, done, Unchanged()) && WellFormed(t, MapRings(ring, done))
    && LeavesOnly(newIds, rest, done)
    && forall x {:trigger newIds[x]} :: x in newIds && Visited(newIds[x], n) ==> done(x) == newIds[x]
  }

  // ----- the loop as a function of its state ----------------------------------------

  datatype State = State(m: Dict, inv: Dict, store: Store, ok: bool)

  /** One iteration at record position newId: swap, then update both dictionaries, or stop for want of an entry. */
  function Step(p: State, newId: nat): State {
    if newId !in p.inv then p
    else
      var oldId := p.inv[newId];
      var store := Transposed(p.store, oldId, newId);
      if oldId != newId && newId !in p.m then State(p.m - {oldId}, p.inv - {newId}, store, false)
      else State(Settle(p.m, oldId, newId), SettleInverse(p.m, p.inv, oldId, newId), store, true)
  }

  /** Positions 4*i, 4*(i+1), ... below 4*n, until the dictionary is empty or an entry is missing. */
  function Visit(p: State, i: nat, n: nat): State
    decreases n - i
  {
    if i >= n || !p.ok then p
    else
      var p' := Step(p, 4 * i);
      if p'.ok && p'.m == map[] then p' else Visit(p', i + 1, n)
  }

  /** One iteration either finds its target without a record or settles it. */
  lemma StepPending(p: State, i: nat, live: set<nat>, targets: set<nat>)
    requires p.ok && Pending(p.m, p.inv, live, targets, i)
    ensures var p' := Step(p, 4 * i);
      if p'.ok then Pending(p'.m, p'.inv, live, targets, i + 1) else 4 * i in targets && 4 * i !in live
  {
    if 4 * i !in p.inv {
      PendingSkip(p.m, p.inv, live, targets, i);
    } else if Step(p, 4 * i).ok {
      PendingStep(p.m, p.inv, live, targets, i);
    }
  }

  lemma NotMet(targets: set<nat>, live: set<nat>, i: nat, n: nat)
    requires i < n && 4 * i in targets && 4 * i !in live
    ensures !AllMet(targets, live, n)
  {
    assert Visited(4 * i, n);
  }

  /** A visit ends well exactly when every target among the first n positions is live, and then has settled them all. */
  lemma {:induction false} VisitSettles(p: State, i: nat, n: nat, live: set<nat>, targets: set<nat>)
    requires p.ok && i <= n && Pending(p.m, p.inv, live, targets, i)
    ensures Visit(p, i, n).ok <==> AllMet(targets, live, n)
    ensures Visit(p, i, n).ok ==> Pending(Visit(p, i, n).m, Visit(p, i, n).inv, live, targets, n)
    decreases n - i
  {
    if i < n {
      var p' := Step(p, 4 * i);
      VisitStep(p, i, n);
      StepPending(p, i, live, targets);
      if !p'.ok {
        NotMet(targets, live, i, n);
      } else if p'.m == map[] {
        PendingEmpty(p'.m, p'.inv, live, targets, i + 1, n);
      } else {
        VisitSettles(p', i + 1, n, live, targets);
      }
    }
  }

  lemma VisitStep(p: State, i: nat, n: nat)
    requires p.ok && i < n
    ensures var p' := Step(p, 4 * i); Visit(p, i, n) == if !p'.ok || p'.m == map[] then p' else Visit(p', i + 1, n)
  {
  }

  lemma StepProgress(p: State, newId: nat, s: Store, target: Dict, done: Renamer) returns (done': Renamer)
    requires MutuallyInverse(p.m, p.inv) && Progress(s, p.store, target, p.m, done) && p.ok && Step(p, newId).ok
    ensures MutuallyInverse(Step(p, newId).m, Step(p, newId).inv)
    ensures Progress(s, Step(p, newId).store, target, Step(p, newId).m, done')
  {
    done' := done;
    if newId in p.inv {
      var oldId := p.inv[newId];
      TransposedRenamed(p.store, oldId, newId);
      SettleKeepsInverse(p.m, p.inv, oldId, newId);
      done' := ProgressStep(s, p.store, Transposed(p.store, oldId, newId), target, p.m, done, oldId, newId);
    }
  }

  /** Throughout a visit the dictionaries stay inverse to each other, and the store is s renamed by what was done. */
  lemma {:induction false} VisitProgress(p: State, i: nat, n: nat, s: Store, target: Dict, done: Renamer)
    returns (done': Renamer)
    requires p.ok && MutuallyInverse(p.m, p.inv) && Progress(s, p.store, target, p.m, done) && Visit(p, i, n).ok
    ensures MutuallyInverse(Visit(p, i, n).m, Visit(p, i, n).inv)
    ensures Progress(s, Visit(p, i, n).store, target, Visit(p, i, n).m, done')
    decreases n - i
  {
    done' := done;
    if i < n {
      VisitStops(Step(p, 4 * i), i + 1, n);
      done' := StepProgress(p, 4 * i, s, target, done);
      if Step(p, 4 * i).m != map[] {
        done' := VisitProgress(Step(p, 4 * i), i + 1, n, s, target, done');
      }
    }
  }

  lemma VisitStops(p: State, i: nat, n: nat)
    ensures !p.ok ==> Visit(p, i, n) == p
  {
  }

  // ----- the loop itself ---------------------------------------------------------------

  /** Drop the settled entry and redirect the entry of the record that was displaced, if it has one. */
  method SettleDicts(m: Dict, inv: Dict, newId: nat) returns (ok: bool, m': Dict, inv': Dict)
    requires newId in inv
    ensures ok <==> inv[newId] == newId || newId in m
    ensures ok ==> m' == Settle(m, inv[newId], newId) && inv' == SettleInverse(m, inv, inv[newId], newId)
    ensures !ok ==> m' == m - {inv[newId]} && inv' == inv - {newId}
  {
    var oldId := inv[newId];
    m', inv' := m - {oldId}, inv - {newId};
    if oldId != newId {
      if newId !in m' {
        return false, m', inv';
      }
      var temp := m'[newId];
      m', inv' := m' - {newId}, inv' - {temp};
      m', inv' := m'[oldId := temp], inv'[temp := oldId];
    }
    ok := true;
  }

  /** The records to be moved are at record positions of the file. */
  ghost predicate InFile(m: Dict, inv: Dict, pages: nat) {
    && (forall x {:trigger m[x]} :: x in m ==> Placeable(x, pages))
    && (forall y {:trigger inv[y]} :: y in inv ==> Placeable(inv[y], pages))
  }

  lemma StepStaysInFile(m: Dict, inv: Dict, newId: nat, pages: nat)
    requires InFile(m, inv, pages) && newId in inv && (inv[newId] == newId || newId in m)
    ensures InFile(Settle(m, inv[newId], newId), SettleInverse(m, inv, inv[newId], newId), pages)
  {
    assert Placeable(inv[newId], pages);
  }

  lemma PlaceableSwappable(id: nat, pages: nat)
    requires Placeable(id, pages)
    ensures Swappable(id, pages)
  {
    PositionOf(id, REL_STRIDE);
  }

  /** One iteration computes Step. */
  method VisitPosition(hf: HeapFile, newId: nat, m: Dict, inv: Dict, ghost ring: map<NodeId, seq<RelId>>)
    returns (ok: bool, m': Dict, inv': Dict, ghost ring': map<NodeId, seq<RelId>>)
    requires hf.Valid(ring) && InFile(m, inv, hf.relSlots.pages) && Placeable(newId, hf.relSlots.pages)
    modifies hf`nodes, hf`rels, hf.relSlots
    ensures State(m', inv', hf.Contents(), ok) == Step(State(m, inv, old(hf.Contents()), true), newId)
    ensures hf.Valid(ring') && hf.relSlots.pages == old(hf.relSlots.pages)
    ensures ok ==> InFile(m', inv', hf.relSlots.pages)
  {
    if newId !in inv {
      return true, m, inv, ring;
    }
    var oldId := inv[newId];
    PlaceableSwappable(oldId, hf.relSlots.pages);
    PlaceableSwappable(newId, hf.relSlots.pages);
    var swapped := SwapRelationships(hf, oldId, newId, ring);
    ring' := MapRings(ring, Exchange(oldId, newId));
    ok, m', inv' := SettleDicts(m, inv, newId);
    if ok {
      StepStaysInFile(m, inv, newId, hf.relSlots.pages);
    }
  }

  /** One iteration takes one step of the visit, and says whether it was the last. */
  method VisitNext(hf: HeapFile, newId: nat, m: Dict, inv: Dict, ghost i: nat, ghost n: nat,
                   ghost ring: map<NodeId, seq<RelId>>)
    returns (ok: bool, m': Dict, inv': Dict, ghost ring': map<NodeId, seq<RelId>>)
    requires hf.Valid(ring) && InFile(m, inv, hf.relSlots.pages) && newId == 4 * i && i < n
    requires 4 * n <= Capacity(hf.relSlots.pages)
    modifies hf`nodes, hf`rels, hf.relSlots
    ensures hf.Valid(ring') && (ok ==> InFile(m', inv', hf.relSlots.pages))
    ensures hf.relSlots.pages == old(hf.relSlots.pages)
    ensures Visit(State(m, inv, old(hf.Contents()), true), i, n)
      == if !ok || m' == map[] then State(m', inv', hf.Contents(), ok)
         else Visit(State(m', inv', hf.Contents(), true), i + 1, n)
  {
    VisitStep(State(m, inv, hf.Contents(), true), i, n);
    ok, m', inv', ring' := VisitPosition(hf, newId, m, inv, ring);
  }

  /** The loop over record positions computes Visit. */
  method VisitPositions(hf: HeapFile, newIds: Dict, inverse: Dict, n: nat, ghost ring: map<NodeId, seq<RelId>>)
    returns (ok: bool, rest: Dict, inv: Dict)
    requires hf.Valid(ring) && InFile(newIds, inverse, hf.relSlots.pages) && 4 * n <= Capacity(hf.relSlots.pages)
    modifies hf`nodes, hf`rels, hf.relSlots
    ensures hf.Stored()
    ensures State(rest, inv, hf.Contents(), ok) == Visit(State(newIds, inverse, old(hf.Contents()), true), 0, n)
  {
    ghost var goal := Visit(State(newIds, inverse, hf.Contents(), true), 0, n);
    ghost var ring' := ring;
    rest, inv, ok := newIds, inverse, true;
    var page: nat, slot: nat := 0, 0;
    var i: nat := 0;
    while i < n
      invariant i <= n && 256 * page + slot == 4 * i && slot < 256 && slot % 4 == 0
      invariant hf.Valid(ring') && InFile(rest, inv, hf.relSlots.pages) && ok
      invariant hf.relSlots.pages == old(hf.relSlots.pages)
      invariant Visit(State(rest, inv, hf.Contents(), true), i, n) == goal
    {
      ok, rest, inv, ring' := VisitNext(hf, 256 * page + slot, rest, inv, i, n, ring');
      if !ok || rest == map[] {
        return;
      }
      page, slot := NextPosition(page, slot);
      i := i + 1;
    }
  }

  /** A file has room for the records it holds. */
  lemma {:induction false} PositionsBelow(ids: set<nat>, k: nat)
    requires forall id :: id in ids ==> Aligned(id, REL_STRIDE) && id < 4 * k
    ensures |ids| <= k
  {
    if k == 0 {
      assert ids == {};
    } else {
      PositionsBelow(ids - {4 * (k - 1)}, k - 1);
    }
  }

  /**
   Put every listed relationship where `newIds` sends it. The loop looks at the
   first n_rels record positions. A target among them that is not itself listed
   stops the program (`ok` is false). Otherwise the targets among them are met;
   with targets elsewhere the loop ends as if all was well, and `rest` is what it
   left undone.
   */
  method ReorderRelationships(hf: HeapFile, newIds: Dict, ghost ring: map<NodeId, seq<RelId>>)
    returns (ok: bool, rest: Dict, ghost done: Renamer)
    requires hf.Valid(ring) && hf.Counted()
    requires InjectiveDict(newIds) && forall x :: x in newIds ==> Placeable(x, hf.relSlots.pages)
    modifies hf`nodes, hf`rels, hf.relSlots
    ensures hf.Stored()
    ensures ok <==> Compact(newIds, newIds.Keys, hf.nRels)
    ensures ok ==> PartlyRepositioned(old(hf.Contents()), hf.Contents(), newIds, rest, hf.nRels, done, ring)
    ensures ok ==> (rest == map[] <==> TargetsVisited(newIds, hf.nRels))
    ensures ok && rest == map[] ==> Repositioned(old(hf.Contents()), hf.Contents(), newIds, ring)
  {
    ghost var s, n := hf.Contents(), hf.nRels;
    PositionsBelow(hf.rels.Keys, 64 * hf.relSlots.pages);
    assert hf.nRels == |hf.rels.Keys|;
    var inv := Invert(newIds);
    var inv';
    ok, rest, inv' := VisitPositions(hf, newIds, inv, hf.nRels, ring);
    done := VisitReorders(s, newIds, inv, n, ring);
  }

  /** From the start of the loop: it gets through exactly the compact dictionaries, and places what it meets. */
  lemma VisitReorders(s: Store, newIds: Dict, inv: Dict, n: nat, ring: map<NodeId, seq<RelId>>) returns (done: Renamer)
    requires MutuallyInverse(newIds, inv) && WellFormed(s, ring)
    ensures var p := Visit(State(newIds, inv, s, true), 0, n);
      && (p.ok <==> Compact(newIds, newIds.Keys, n))
      && (p.ok ==> PartlyRepositioned(s, p.store, newIds, p.m, n, done, ring))
      && (p.ok ==> (p.m == map[] <==> TargetsVisited(newIds, n)))
      && (p.ok && p.m == map[] ==> Repositioned(s, p.store, newIds, ring))
  {
    RenamedByNothing(s);
    ExchangeInjective(0, 0);
    var p := Visit(State(newIds, inv, s, true), 0, n);
    VisitSettles(State(newIds, inv, s, true), 0, n, newIds.Keys, newIds.Values);
    done := Unchanged();
    if p.ok {
      PendingLeft(p.m, p.inv, newIds.Keys, newIds.Values, n);
      done := VisitProgress(State(newIds, inv, s, true), 0, n, s, newIds, Unchanged());
      RenamedRelsWellFormed(s, p.store, done, ring);
      VisitedPlaced(newIds, p.m, p.inv, n, done);
      if p.m == map[] {
        ProgressEnds(s, p.store, newIds, done);
        RenamedRelsWellFormed(s, p.store, Placement(newIds), ring);
      }
    }
  }

  /** What the remaining dictionary does not ask for has been done. */
  lemma VisitedPlaced(newIds: Dict, rest: Dict, inv: Dict, n: nat, done: Renamer)
    requires Pending(rest, inv, newIds.Keys, newIds.Values, n) && LeavesOnly(newIds, rest, done)
    ensures forall x {:trigger newIds[x]} :: x in newIds && Visited(newIds[x], n) ==> done(x) == newIds[x]
  {
    assert forall y :: y in rest ==> !Visited(rest[y], n);
    forall x {:trigger newIds[x]} | x in newIds && Visited(newIds[x], n) ensures done(x) == newIds[x] {
      assert Look(rest, done(x)) == newIds[x];
    }
  }

  lemma ProgressEnds(s: Store, now: Store, target: Dict, done: Renamer)
    requires Progress(s, now, target, map[], done)
    ensures Renamed(s, now, Placement(target), Unchanged()) && Injective(Placement(target))
  {
    forall x {:trigger done(x)} {:trigger Placement(target)(x)} ensures done(x) == Placement(target)(x) {
      assert Look(map[], done(x)) == Look(target, x);
    }
    forall a, b ensures Apart(Placement(target), a, b) {
      assert Apart(done, a, b);
    }
    SameRenaming(s, now, done, Placement(target), Unchanged());
  }
}
