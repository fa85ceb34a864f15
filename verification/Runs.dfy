/**
 Whole runs. Every sequence of creations and deletions keeps the rings, and
 every sequence of creations builds the same graph in the heap file and in the
 in-memory graph, up to the spacing of relationship ids.
 */
module Runs {
  import opened Graph
  import opened Linking
  import opened Renaming
  import opened Slots
  import HeapFile
  import InMemoryGraph

  // ----- runs of creations and deletions ---------------------------------------

  datatype Event =
    | NodeAdded(n: NodeId, tag: nat)
    | RelAdded(x: RelId, from: NodeId, to: NodeId, weight: int, tag: nat)
    | RelDeleted(x: RelId)

  const EMPTY := Store(map[], map[])

  predicate Enabled(s: Store, e: Event) {
    match e
    case NodeAdded(n, _) => n !in s.nodes
    case RelAdded(x, from, to, _, _) => x !in s.rels && EndsLive(s, from) && EndsLive(s, to)
    case RelDeleted(x) => NeighboursLive(s, x) && Removable(s, x)
  }

  function Apply(s: Store, e: Event): Store
    requires Enabled(s, e)
  {
    match e
    case NodeAdded(n, tag) => Store(s.nodes[n := Node(None, tag)], s.rels)
    case RelAdded(x, from, to, weight, tag) => Insert(s, x, from, to, weight, tag)
    case RelDeleted(x) => Remove(s, x)
  }

  /** A run from the empty store: states[i] is the store after the first i events. */
  ghost predicate IsRun(states: seq<Store>, events: seq<Event>) {
    && |states| == |events| + 1
    && states[0] == EMPTY
    && forall i {:trigger events[i]} :: 0 <= i < |events| ==>
      Enabled(states[i], events[i]) && states[i + 1] == Apply(states[i], events[i])
  }

  /** n's relationships in the order they were created, without the deleted ones. */
  ghost function History(events: seq<Event>, n: NodeId): seq<RelId> {
    if events == [] then []
    else
      var before := History(events[..|events| - 1], n);
      match events[|events| - 1]
      case NodeAdded(_, _) => before
      case RelAdded(x, from, to, _, _) => if n == from || n == to then before + [x] else before
      case RelDeleted(x) => Without(before, x)
  }

  ghost function Histories(s: Store, events: seq<Event>): map<NodeId, seq<RelId>> {
    map n | n in s.nodes :: History(events, n)
  }

  lemma {:induction false} NoHistoryBeforeBirth(states: seq<Store>, events: seq<Event>, n: NodeId)
    requires IsRun(states, events) && n !in states[|events|].nodes
    ensures History(events, n) == []
  {
    if events != [] {
      var k := |events| - 1;
      RunPrefix(states, events);
      NodesOnlyGrow(states[k], events[k]);
      NoHistoryBeforeBirth(states[..k + 1], events[..k], n);
    }
  }

  lemma NodesOnlyGrow(s: Store, e: Event)
    requires Enabled(s, e)
    ensures s.nodes.Keys <= Apply(s, e).nodes.Keys
    ensures e.RelAdded? ==> e.from in s.nodes && e.to in s.nodes
  {
    if e.RelAdded? {
      InsertKeys(s, e.x, e.from, e.to, e.weight, e.tag);
    }
  }

  lemma RunPrefix(states: seq<Store>, events: seq<Event>)
    requires IsRun(states, events) && events != []
    ensures IsRun(states[..|events|], events[..|events| - 1])
  {
    var k := |events| - 1;
    forall i {:trigger events[..k][i]} | 0 <= i < k
      ensures Enabled(states[..k + 1][i], events[..k][i])
      ensures states[..k + 1][i + 1] == Apply(states[..k + 1][i], events[..k][i])
    {
      assert events[i] == events[..k][i];
    }
  }

  /** One step of the run keeps the rings, and they follow the history. */
  lemma StepKeepsRings(s: Store, e: Event, ring: map<NodeId, seq<RelId>>)
    requires WellFormed(s, ring) && Enabled(s, e)
    ensures match e
      case NodeAdded(n, _) => WellFormed(Apply(s, e), ring[n := []])
      case RelAdded(x, from, to, _, _) => WellFormed(Apply(s, e), AppendRing(ring, from, to, x))
      case RelDeleted(x) => WellFormed(Apply(s, e), RemoveFromRings(ring, x))
  {
    match e
    case NodeAdded(n, tag) => HeapFile.NewNodeKeepsWellFormed(s, ring, n, tag);
    case RelAdded(x, from, to, weight, tag) => InsertKeepsWellFormed(s, ring, x, from, to, weight, tag);
    case RelDeleted(x) => RemoveKeepsWellFormed(s, ring, x);
  }

  /** After every run each node's ring lists its live relationships in creation order. */
  lemma {:induction false} RunKeepsRings(states: seq<Store>, events: seq<Event>)
    requires IsRun(states, events)
    ensures WellFormed(states[|events|], Histories(states[|events|], events))
  {
    if events == [] {
      return;
    }
    var k := |events| - 1;
    var s, e, t := states[k], events[k], states[k + 1];
    RunPrefix(states, events);
    RunKeepsRings(states[..k + 1], events[..k]);
    var ring := Histories(s, events[..k]);
    StepKeepsRings(s, e, ring);
    NodesOnlyGrow(s, e);
    if e.NodeAdded? {
      NoHistoryBeforeBirth(states[..k + 1], events[..k], e.n);
    } else if e.RelAdded? {
      InsertKeys(s, e.x, e.from, e.to, e.weight, e.tag);
    }
    HistoriesStep(s, t, events, ring);
  }

  lemma HistoriesStep(s: Store, t: Store, events: seq<Event>, ring: map<NodeId, seq<RelId>>)
    requires events != []
    requires ring == Histories(s, events[..|events| - 1])
    ensures var e := events[|events| - 1];
      match e
      case NodeAdded(n, _) =>
        t.nodes.Keys == s.nodes.Keys + {n} && History(events[..|events| - 1], n) == [] ==>
          Histories(t, events) == ring[n := []]
      case RelAdded(x, from, to, _, _) =>
        t.nodes.Keys == s.nodes.Keys ==> Histories(t, events) == AppendRing(ring, from, to, x)
      case RelDeleted(x) =>
        t.nodes.Keys == s.nodes.Keys ==> Histories(t, events) == RemoveFromRings(ring, x)
  {
  }

  // ----- creations only: heap file and in-memory graph agree --------------------

  datatype Op =
    | AddNode(tag: nat)
    | AddRel(from: NodeId, to: NodeId, weight: int, tag: nat)

  function NodeCount(ops: seq<Op>): nat {
    if ops == [] then 0 else NodeCount(ops[..|ops| - 1]) + if ops[|ops| - 1].AddNode? then 1 else 0
  }

  function RelCount(ops: seq<Op>): nat {
    if ops == [] then 0 else RelCount(ops[..|ops| - 1]) + if ops[|ops| - 1].AddRel? then 1 else 0
  }

  /** Relationships join nodes that exist by then. */
  ghost predicate WellPosed(ops: seq<Op>) {
    forall i {:trigger ops[i]} :: 0 <= i < |ops| ==> Posed(ops[i], NodeCount(ops[..i]))
  }

  /** One creation, when nNodes nodes and nRels relationships exist and relationship ids are `stride` apart. */
  ghost function BuildStep(s: Store, op: Op, nNodes: nat, nRels: nat, stride: nat): Store {
    match op
    case AddNode(tag) => Store(s.nodes[nNodes := Node(None, tag)], s.rels)
    case AddRel(from, to, weight, tag) =>
      if EndsLive(s, from) && EndsLive(s, to) then Insert(s, stride * nRels, from, to, weight, tag) else s
  }

  ghost function RingStep(ring: map<NodeId, seq<RelId>>, op: Op, nNodes: nat, nRels: nat, stride: nat)
    : map<NodeId, seq<RelId>>
  {
    match op
    case AddNode(tag) => ring[nNodes := []]
    case AddRel(from, to, weight, tag) => AppendRing(ring, from, to, stride * nRels)
  }

  /** The store that a sequence of creations builds. */
  ghost function Built(ops: seq<Op>, stride: nat): Store {
    if ops == [] then EMPTY
    else
      var before := ops[..|ops| - 1];
      BuildStep(Built(before, stride), ops[|ops| - 1], NodeCount(before), RelCount(before), stride)
  }

  ghost function BuiltRings(ops: seq<Op>, stride: nat): map<NodeId, seq<RelId>> {
    if ops == [] then map[]
    else
      var before := ops[..|ops| - 1];
      RingStep(BuiltRings(before, stride), ops[|ops| - 1], NodeCount(before), RelCount(before), stride)
  }

  predicate Posed(op: Op, nNodes: nat) {
    op.AddRel? ==> op.from < nNodes && op.to < nNodes
  }

  /** Ids are dense: nodes 0 .. nNodes-1, relationships 0, stride, ... */
  ghost predicate DenseNodes(s: Store, nNodes: nat) {
    forall n: nat :: n in s.nodes <==> n < nNodes
  }

  ghost predicate DenseRels(s: Store, nRels: nat, stride: nat)
    requires stride > 0
  {
    forall x: nat :: x in s.rels <==> x < stride * nRels && Aligned(x, stride)
  }

  lemma BuildStepDense(s: Store, op: Op, nNodes: nat, nRels: nat, stride: nat)
    requires stride == 1 || stride == 4
    requires op.AddRel? ==> EndsLive(s, op.from) && EndsLive(s, op.to)
    requires DenseNodes(s, nNodes) && DenseRels(s, nRels, stride)
    ensures DenseNodes(BuildStep(s, op, nNodes, nRels, stride), if op.AddNode? then nNodes + 1 else nNodes)
    ensures DenseRels(BuildStep(s, op, nNodes, nRels, stride), if op.AddRel? then nRels + 1 else nRels, stride)
  {
    if op.AddRel? {
      var x := stride * nRels;
      InsertKeys(s, x, op.from, op.to, op.weight, op.tag);
      forall y: nat ensures y in s.rels || y == x <==> y < stride * (nRels + 1) && Aligned(y, stride) {
        NextDenseId(nRels, stride, y);
      }
    }
  }

  lemma BuildStepRings(s: Store, ring: map<NodeId, seq<RelId>>, op: Op, nNodes: nat, nRels: nat, stride: nat)
    requires stride == 1 || stride == 4
    requires WellFormed(s, ring) && DenseNodes(s, nNodes) && DenseRels(s, nRels, stride) && Posed(op, nNodes)
    ensures op.AddRel? ==> EndsLive(s, op.from) && EndsLive(s, op.to)
    ensures WellFormed(BuildStep(s, op, nNodes, nRels, stride), RingStep(ring, op, nNodes, nRels, stride))
  {
    match op
    case AddNode(tag) =>
      HeapFile.NewNodeKeepsWellFormed(s, ring, nNodes, tag);
    case AddRel(from, to, weight, tag) =>
      InsertKeepsWellFormed(s, ring, stride * nRels, from, to, weight, tag);
  }

  lemma WellPosedPrefix(ops: seq<Op>)
    requires WellPosed(ops) && ops != []
    ensures WellPosed(ops[..|ops| - 1])
    ensures Posed(ops[|ops| - 1], NodeCount(ops[..|ops| - 1]))
  {
    WellPosedTake(ops, |ops| - 1);
  }

  lemma NextDenseId(nRels: nat, stride: nat, x: nat)
    requires stride == 1 || stride == 4
    ensures Aligned(stride * nRels, stride)
    ensures x < stride * (nRels + 1) && Aligned(x, stride) <==>
      x == stride * nRels || (x < stride * nRels && Aligned(x, stride))
  {
  }

  lemma {:induction false} BuiltWellFormed(ops: seq<Op>, stride: nat)
    requires WellPosed(ops) && (stride == 1 || stride == 4)
    ensures WellFormed(Built(ops, stride), BuiltRings(ops, stride))
    ensures DenseNodes(Built(ops, stride), NodeCount(ops)) && DenseRels(Built(ops, stride), RelCount(ops), stride)
  {
    if ops != [] {
      var before, op := ops[..|ops| - 1], ops[|ops| - 1];
      WellPosedPrefix(ops);
      BuiltWellFormed(before, stride);
      BuildStepRings(Built(before, stride), BuiltRings(before, stride), op,
                     NodeCount(before), RelCount(before), stride);
      BuildStepDense(Built(before, stride), op, NodeCount(before), RelCount(before), stride);
    }
  }

  /**
   Every sequence of creations builds isomorphic graphs in memory, where ids are
   consecutive, and in the heap file, where relationship ids are four slots apart.
   */
  lemma {:induction false} BuiltIsomorphic(ops: seq<Op>)
    requires WellPosed(ops)
    ensures Renamed(Built(ops, 1), Built(ops, 4), Times4, Same)
  {
    if ops != [] {
      var before, op := ops[..|ops| - 1], ops[|ops| - 1];
      WellPosedPrefix(ops);
      BuiltIsomorphic(before);
      BuiltWellFormed(before, 1);
      BuiltWellFormed(before, 4);
      var s, t := Built(before, 1), Built(before, 4);
      match op
      case AddNode(tag) =>
        OntoAdd(s.nodes.Keys, t.nodes.Keys, Same, NodeCount(before));
        UpdateKeys(s.nodes, NodeCount(before), Node(None, tag));
        UpdateKeys(t.nodes, NodeCount(before), Node(None, tag));
      case AddRel(from, to, weight, tag) =>
        RenamedInsert(s, t, Times4, Same, BuiltRings(before, 1), RelCount(before), from, to, weight, tag);
    }
  }

  function Times4(x: nat): nat { 4 * x }
  function Same(x: nat): nat { x }

  // ----- the two implementations build these stores -----------------------------

  method StepInMemory(g: InMemoryGraph.InMemoryGraph, op: Op, ghost ring: map<NodeId, seq<RelId>>)
    requires g.Valid(ring) && Posed(op, g.nNodes)
    modifies g
    ensures g.Contents() == BuildStep(old(g.Contents()), op, old(g.nNodes), old(g.nRels), 1)
    ensures g.Valid(RingStep(ring, op, old(g.nNodes), old(g.nRels), 1))
    ensures g.nNodes == old(g.nNodes) + (if op.AddNode? then 1 else 0)
    ensures g.nRels == old(g.nRels) + (if op.AddRel? then 1 else 0)
  {
    match op
    case AddNode(tag) =>
      var n := g.CreateNode(tag, ring);
    case AddRel(from, to, weight, tag) =>
      var x := g.CreateRelationship(from, to, weight, tag, ring);
  }

  method RunInMemory(ops: seq<Op>) returns (g: InMemoryGraph.InMemoryGraph)
    requires WellPosed(ops)
    ensures g.Contents() == Built(ops, 1)
  {
    g := new InMemoryGraph.InMemoryGraph();
    for i := 0 to |ops|
      invariant fresh(g)
      invariant g.nNodes == NodeCount(ops[..i]) && g.nRels == RelCount(ops[..i])
      invariant g.Contents() == Built(ops[..i], 1) && g.Valid(BuiltRings(ops[..i], 1))
    {
      ghost var after := ops[..i + 1];
      assert after[..|after| - 1] == ops[..i] && after[|after| - 1] == ops[i];
      StepInMemory(g, ops[i], BuiltRings(ops[..i], 1));
    }
    assert ops[..|ops|] == ops;
  }

  method StepHeapNode(hf: HeapFile.HeapFile, tag: nat, ghost ring: map<NodeId, seq<RelId>>, ghost nNodes: nat)
    requires hf.Valid(ring) && DenseNodes(hf.Contents(), nNodes)
    requires hf.nodeSlots.NoGapBelowLast() && hf.relSlots.NoGapBelowLast()
    modifies hf, hf.nodeSlots, hf.relSlots
    ensures hf.Contents() == Store(old(hf.nodes)[nNodes := Node(None, tag)], old(hf.rels))
    ensures hf.Valid(ring[nNodes := []])
    ensures hf.nodeSlots.NoGapBelowLast() && hf.relSlots.NoGapBelowLast()
  {
    ghost var live := hf.nodes;
    assert nNodes !in live;
    var n := hf.CreateNode(tag, ring);
    assert nNodes < n ==> nNodes in live;
  }

  method StepHeapRel(hf: HeapFile.HeapFile, from: NodeId, to: NodeId, weight: int, tag: nat,
                     ghost ring: map<NodeId, seq<RelId>>, ghost nRels: nat)
    requires hf.Valid(ring) && from in hf.nodes && to in hf.nodes && DenseRels(hf.Contents(), nRels, 4)
    requires hf.nodeSlots.NoGapBelowLast() && hf.relSlots.NoGapBelowLast()
    modifies hf, hf.nodeSlots, hf.relSlots
    ensures EndsLive(old(hf.Contents()), from) && EndsLive(old(hf.Contents()), to)
    ensures hf.Contents() == Insert(old(hf.Contents()), 4 * nRels, from, to, weight, tag)
    ensures hf.Valid(AppendRing(ring, from, to, 4 * nRels))
    ensures hf.nodeSlots.NoGapBelowLast() && hf.relSlots.NoGapBelowLast()
  {
    ghost var live := hf.rels.Keys;
    var x := hf.CreateRelationship(from, to, weight, tag, ring);
    LeastFreeIsNext(x, nRels, live);
  }

  method StepHeapFile(hf: HeapFile.HeapFile, op: Op, ghost ring: map<NodeId, seq<RelId>>,
                      ghost nNodes: nat, ghost nRels: nat)
    requires hf.Valid(ring) && Posed(op, nNodes)
    requires DenseNodes(hf.Contents(), nNodes) && DenseRels(hf.Contents(), nRels, 4)
    requires hf.nodeSlots.NoGapBelowLast() && hf.relSlots.NoGapBelowLast()
    modifies hf, hf.nodeSlots, hf.relSlots
    ensures hf.Contents() == BuildStep(old(hf.Contents()), op, nNodes, nRels, 4)
    ensures hf.Valid(RingStep(ring, op, nNodes, nRels, 4))
    ensures hf.nodeSlots.NoGapBelowLast() && hf.relSlots.NoGapBelowLast()
  {
    match op
    case AddNode(tag) => StepHeapNode(hf, tag, ring, nNodes);
    case AddRel(from, to, weight, tag) => StepHeapRel(hf, from, to, weight, tag, ring, nRels);
  }

  method RunHeapFile(ops: seq<Op>) returns (hf: HeapFile.HeapFile)
    requires WellPosed(ops)
    ensures hf.Contents() == Built(ops, 4)
  {
    hf := new HeapFile.HeapFile();
    for i := 0 to |ops|
      invariant fresh(hf) && fresh(hf.nodeSlots) && fresh(hf.relSlots)
      invariant hf.Contents() == Built(ops[..i], 4) && hf.Valid(BuiltRings(ops[..i], 4))
      invariant hf.nodeSlots.NoGapBelowLast() && hf.relSlots.NoGapBelowLast()
    {
      ghost var before, after := ops[..i], ops[..i + 1];
      assert after[..|after| - 1] == before && after[|after| - 1] == ops[i];
      assert DenseNodes(hf.Contents(), NodeCount(before)) && DenseRels(hf.Contents(), RelCount(before), 4) by {
        WellPosedTake(ops, i);
        BuiltWellFormed(before, 4);
      }
      StepHeapFile(hf, ops[i], BuiltRings(before, 4), NodeCount(before), RelCount(before));
    }
    assert ops[..|ops|] == ops;
  }

  lemma WellPosedTake(ops: seq<Op>, k: nat)
    requires WellPosed(ops) && k <= |ops|
    ensures WellPosed(ops[..k])
  {
    forall i {:trigger ops[..k][i]} | 0 <= i < k ensures Posed(ops[..k][i], NodeCount(ops[..k][..i])) {
      assert ops[..k][i] == ops[i] && ops[..k][..i] == ops[..i];
    }
  }

  lemma LeastFreeIsNext(x: nat, count: nat, live: set<nat>)
    requires forall y: nat :: y in live <==> y < 4 * count && Aligned(y, 4)
    requires Aligned(x, 4) && x !in live && forall j: nat :: j < x && Aligned(j, 4) ==> j in live
    ensures x == 4 * count
  {
    assert Aligned(4 * count, 4);
  }

  // ----- heap file runs with deletions --------------------------------------------

  datatype HeapOp =
    | NewNode(tag: nat)
    | NewRel(from: NodeId, to: NodeId, weight: int, tag: nat)
    | DropRel(x: RelId)

  /** The event is this operation, with the id that the heap file chose. */
  predicate Realizes(op: HeapOp, e: Event) {
    match op
    case NewNode(tag) => e.NodeAdded? && e.tag == tag
    case NewRel(from, to, weight, tag) => e.RelAdded? && e == RelAdded(e.x, from, to, weight, tag)
    case DropRel(x) => e == RelDeleted(x)
  }

  /** A new record gets the least id that is free. */
  ghost predicate LeastFree(s: Store, e: Event) {
    match e
    case NodeAdded(n, _) => forall j: nat :: j < n ==> j in s.nodes
    case RelAdded(x, _, _, _, _) => x % 4 == 0 && forall j: nat :: j < x && j % 4 == 0 ==> j in s.rels
    case RelDeleted(_) => true
  }

  /** The operation goes through: its records exist, and a deletion is clean. */
  predicate Possible(s: Store, op: HeapOp) {
    match op
    case NewNode(_) => true
    case NewRel(from, to, _, _) => from in s.nodes && to in s.nodes
    case DropRel(x) => x in s.rels && Removable(s, x)
  }

  /** The files after one operation, and the event that it was. */
  ghost predicate Stepped(s: Store, op: HeapOp, e: Event, t: Store) {
    Realizes(op, e) && LeastFree(s, e) && Enabled(s, e) && t == Apply(s, e)
  }

  lemma RelAddedSteps(s: Store, x: RelId, from: NodeId, to: NodeId, weight: int, tag: nat, t: Store)
    requires x !in s.rels && EndsLive(s, from) && EndsLive(s, to) && t == Insert(s, x, from, to, weight, tag)
    requires Aligned(x, 4) && forall j: nat :: j < x && Aligned(j, 4) ==> j in s.rels
    ensures Stepped(s, NewRel(from, to, weight, tag), RelAdded(x, from, to, weight, tag), t)
  {
    forall j: nat | j < x && j % 4 == 0 ensures j in s.rels {
      assert Aligned(j, 4);
    }
  }

  lemma RelDeletedSteps(s: Store, x: RelId, t: Store)
    requires NeighboursLive(s, x) && Removable(s, x) && t == Remove(s, x)
    ensures Stepped(s, DropRel(x), RelDeleted(x), t)
  {
  }

  method AddNodeRecord(hf: HeapFile.HeapFile, tag: nat, ghost ring: map<NodeId, seq<RelId>>) returns (ghost e: Event)
    requires hf.Valid(ring) && hf.nodeSlots.NoGapBelowLast() && hf.relSlots.NoGapBelowLast()
    modifies hf, hf.nodeSlots, hf.relSlots
    ensures hf.Stored() && hf.nodeSlots.NoGapBelowLast() && hf.relSlots.NoGapBelowLast()
    ensures Stepped(old(hf.Contents()), NewNode(tag), e, hf.Contents())
  {
    var n := hf.CreateNode(tag, ring);
    e := NodeAdded(n, tag);
  }

  method AddRelRecord(hf: HeapFile.HeapFile, from: NodeId, to: NodeId, weight: int, tag: nat,
                      ghost ring: map<NodeId, seq<RelId>>) returns (ghost e: Event)
    requires hf.Valid(ring) && hf.nodeSlots.NoGapBelowLast() && hf.relSlots.NoGapBelowLast()
    requires from in hf.nodes && to in hf.nodes
    modifies hf, hf.nodeSlots, hf.relSlots
    ensures hf.Stored() && hf.nodeSlots.NoGapBelowLast() && hf.relSlots.NoGapBelowLast()
    ensures Stepped(old(hf.Contents()), NewRel(from, to, weight, tag), e, hf.Contents())
  {
    ghost var s := hf.Contents();
    var x := hf.CreateRelationship(from, to, weight, tag, ring);
    e := RelAdded(x, from, to, weight, tag);
    RelAddedSteps(s, x, from, to, weight, tag, hf.Contents());
  }

  method DropRelRecord(hf: HeapFile.HeapFile, x: RelId, ghost ring: map<NodeId, seq<RelId>>) returns (ghost e: Event)
    requires hf.Valid(ring) && hf.nodeSlots.NoGapBelowLast() && hf.relSlots.NoGapBelowLast()
    requires x in hf.rels && Removable(hf.Contents(), x)
    modifies hf, hf.nodeSlots, hf.relSlots
    ensures hf.Stored() && hf.nodeSlots.NoGapBelowLast() && hf.relSlots.NoGapBelowLast()
    ensures Stepped(old(hf.Contents()), DropRel(x), e, hf.Contents())
  {
    ghost var s := hf.Contents();
    hf.DeleteRelationship(x, ring);
    e := RelDeleted(x);
    RelDeletedSteps(s, x, hf.Contents());
  }

  method StepWithDeletions(hf: HeapFile.HeapFile, op: HeapOp, ghost ring: map<NodeId, seq<RelId>>)
    returns (ghost e: Event)
    requires hf.Valid(ring) && hf.nodeSlots.NoGapBelowLast() && hf.relSlots.NoGapBelowLast()
    requires Possible(hf.Contents(), op)
    modifies hf, hf.nodeSlots, hf.relSlots
    ensures hf.Stored() && hf.nodeSlots.NoGapBelowLast() && hf.relSlots.NoGapBelowLast()
    ensures Stepped(old(hf.Contents()), op, e, hf.Contents())
  {
    match op
    case NewNode(tag) => e := AddNodeRecord(hf, tag, ring);
    case NewRel(from, to, weight, tag) => e := AddRelRecord(hf, from, to, weight, tag, ring);
    case DropRel(x) => e := DropRelRecord(hf, x, ring);
  }

  lemma RunExtended(states: seq<Store>, events: seq<Event>, e: Event, t: Store)
    requires IsRun(states, events) && Enabled(states[|events|], e) && t == Apply(states[|events|], e)
    ensures IsRun(states + [t], events + [e])
  {
    var states', events' := states + [t], events + [e];
    forall i {:trigger events'[i]} | 0 <= i < |events'|
      ensures Enabled(states'[i], events'[i]) && states'[i + 1] == Apply(states'[i], events'[i])
    {
      if i < |events| {
        assert events'[i] == events[i];
      }
    }
  }

  /** Event i is what operation i does, at the least free id. */
  ghost predicate OpAt(ops: seq<HeapOp>, states: seq<Store>, events: seq<Event>, i: nat) {
    && i < |ops| && i < |states| && i < |events|
    && Realizes(ops[i], events[i]) && LeastFree(states[i], events[i])
  }

  /** The run of the given operations: one event each, ids the least free ones. */
  ghost predicate RunOf(ops: seq<HeapOp>, states: seq<Store>, events: seq<Event>) {
    && IsRun(states, events) && |events| == |ops|
    && forall i: nat {:trigger OpAt(ops, states, events, i)} :: i < |ops| ==> OpAt(ops, states, events, i)
  }

  /** After the first k operations the store is s. */
  ghost predicate RanTo(ops: seq<HeapOp>, k: nat, states: seq<Store>, events: seq<Event>, s: Store)
    requires k <= |ops|
  {
    RunOf(ops[..k], states, events) && s == states[k]
  }

  /**
   Any sequence of creations and deletions on a new heap file, up to the first
   that cannot be carried out cleanly: ids are the least free ones, and each
   node's ring lists its live relationships in the order of their creation.
   */
  method RunWithDeletions(ops: seq<HeapOp>)
    returns (hf: HeapFile.HeapFile, done: nat, ghost states: seq<Store>, ghost events: seq<Event>)
    ensures done <= |ops| && RanTo(ops, done, states, events, hf.Contents())
    ensures hf.Valid(Histories(hf.Contents(), events))
    ensures done < |ops| ==> !Possible(hf.Contents(), ops[done])
  {
    hf := new HeapFile.HeapFile();
    done, states, events := 0, [EMPTY], [];
    while done < |ops|
      invariant fresh(hf) && fresh(hf.nodeSlots) && fresh(hf.relSlots) && hf.Stored()
      invariant hf.nodeSlots.NoGapBelowLast() && hf.relSlots.NoGapBelowLast()
      invariant done <= |ops| && RanTo(ops, done, states, events, hf.Contents())
    {
      if !PossibleNow(hf, ops[done]) {
        break;
      }
      RunKeepsRings(states, events);
      ghost var e := StepWithDeletions(hf, ops[done], Histories(hf.Contents(), events));
      RunOfExtended(ops, done, states, events, e, hf.Contents());
      states, events := states + [hf.Contents()], events + [e];
      done := done + 1;
    }
    RunKeepsRings(states, events);
  }

  lemma RunOfExtended(ops: seq<HeapOp>, k: nat, states: seq<Store>, events: seq<Event>, e: Event, t: Store)
    requires k < |ops| && RunOf(ops[..k], states, events) && Stepped(states[k], ops[k], e, t)
    ensures RunOf(ops[..k + 1], states + [t], events + [e])
  {
    var ops', states', events' := ops[..k + 1], states + [t], events + [e];
    RunExtended(states, events, e, t);
    forall i: nat {:trigger OpAt(ops', states', events', i)} | i < |ops'| ensures OpAt(ops', states', events', i) {
      if i < k {
        assert OpAt(ops[..k], states, events, i);
      }
    }
  }

  /** Whether the operation can be carried out, read off the records. */
  function PossibleNow(hf: HeapFile.HeapFile, op: HeapOp): bool
    reads hf`nodes, hf`rels
    ensures PossibleNow(hf, op) <==> Possible(hf.Contents(), op)
  {
    match op
    case NewNode(_) => true
    case NewRel(from, to, _, _) => from in hf.nodes && to in hf.nodes
    case DropRel(x) => x in hf.rels && (hf.rels[x].prevS != x || hf.rels[x].prevT == x)
  }
}
