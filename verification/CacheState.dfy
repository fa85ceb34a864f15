/**
 The state of the page cache, frames in memory in front of the disk files, and
 what each operation makes of it. A run of pins, writes, unpins, evictions,
 flushes, allocations and resizes must look like a run on plain files. Where the
 program exits the result is None.
 */
module CacheState {
  import opened Graph
  import Slots

  datatype RecordType = NodeFile | RelationshipFile
  datatype FileId = Header(of: RecordType) | Records(of: RecordType)
  datatype PageId = PageId(file: FileId, no: nat)

  type Page = seq<bv8>

  /** One hundred pages in the cache: 1 + 100 * 0.1F pages are evicted at a time. */
  const EVICT_LRU_K: nat := 11

  function ZeroPage(): Page {
    seq(Slots.PAGE_SIZE, _ => 0)
  }

  // ----- files without a cache ------------------------------------------------------------

  datatype Disk = Disk(pages: map<PageId, Page>, size: map<FileId, nat>)

  function SizeOf(d: Disk, file: FileId): nat {
    if file in d.size then d.size[file] else 0
  }

  /** One zero page more at the end of a file. */
  function AddPage(d: Disk, file: FileId): Disk {
    Disk(d.pages[PageId(file, SizeOf(d, file)) := ZeroPage()], d.size[file := SizeOf(d, file) + 1])
  }

  function GrowDisk(d: Disk, file: FileId, n: nat): Disk {
    if n == 0 then d else AddPage(GrowDisk(d, file, n - 1), file)
  }

  // ----- the state of the cache -------------------------------------------------------------

  datatype Frame = Frame(page: Option<PageId>, pins: nat, dirty: bool, data: Page)

  datatype State = State(
    frames: seq<Frame>, where: map<PageId, nat>, free: seq<nat>, queue: seq<nat>,
    disk: Disk, pinned: nat, unpinned: nat, bulk: bool)

  function EmptyFrame(): Frame {
    Frame(None, 0, false, ZeroPage())
  }

  function PinSum(frames: seq<Frame>): nat {
    if frames == [] then 0 else PinSum(frames[..|frames| - 1]) + frames[|frames| - 1].pins
  }

  lemma {:induction false} PinSumUpdate(frames: seq<Frame>, f: nat, frame: Frame)
    requires f < |frames|
    ensures PinSum(frames[f := frame]) == PinSum(frames) - frames[f].pins + frame.pins
  {
    var k := |frames| - 1;
    if f < k {
      PinSumUpdate(frames[..k], f, frame);
      assert frames[f := frame][..k] == frames[..k][f := frame];
    } else {
      assert frames[f := frame][..k] == frames[..k];
    }
  }

  /** A frame is free and blank, or holds the page that the page map says. */
  ghost predicate FrameGood(c: State, f: nat)
    requires f < |c.frames|
  {
    var frame := c.frames[f];
    if frame.page.None? then f in c.free && frame.pins == 0 && !frame.dirty
    else
      && f !in c.free
      && frame.page.value in c.where && c.where[frame.page.value] == f
      && frame.page.value in c.disk.pages
      && (!frame.dirty ==> frame.data == c.disk.pages[frame.page.value])
  }

  ghost predicate MapGood(c: State, p: PageId)
    requires p in c.where
  {
    c.where[p] < |c.frames| && c.frames[c.where[p]].page == Some(p)
  }

  ghost predicate Sized(d: Disk) {
    forall p {:trigger p in d.pages} :: p in d.pages <==> p.no < SizeOf(d, p.file)
  }

  /** Frames, page map, free list, files and counters fit together. */
  ghost predicate Core(c: State) {
    && (forall f: nat {:trigger FrameGood(c, f)} :: f < |c.frames| ==> FrameGood(c, f))
    && (forall p {:trigger MapGood(c, p)} :: p in c.where ==> MapGood(c, p))
    && Distinct(c.free) && (forall f :: f in c.free ==> f < |c.frames|)
    && Sized(c.disk)
    && c.pinned == c.unpinned + PinSum(c.frames)
  }

  predicate Mapped(c: State, f: nat) {
    f < |c.frames| && c.frames[f].page.Some?
  }

  /** The queue lists frames, none twice. What it lists depends on when bulk import was on. */
  ghost predicate QueueSafe(c: State) {
    Distinct(c.queue) && forall f :: f in c.queue ==> f < |c.frames|
  }

  /** What every reachable state satisfies. */
  ghost predicate Good(c: State) {
    Core(c) && QueueSafe(c)
  }

  /** As long as bulk import has not been on: the queue lists frames in use, and all that are not pinned. */
  ghost predicate Listed(c: State) {
    && !c.bulk
    && (forall f :: f in c.queue ==> Mapped(c, f))
    && (forall f: nat {:trigger Mapped(c, f)} :: Mapped(c, f) && c.frames[f].pins == 0 ==> f in c.queue)
  }

  /** What a reader sees of a page: its frame, or else the disk. */
  function Look(c: State, p: PageId): Page
    requires p in c.disk.pages
  {
    if p in c.where && c.where[p] < |c.frames| then c.frames[c.where[p]].data else c.disk.pages[p]
  }

  /** The files as they look through the cache. */
  function View(c: State): Disk {
    Disk(map p | p in c.disk.pages :: Look(c, p), c.disk.size)
  }

  // ----- flushing and evicting one frame ------------------------------------------------------

  function Flush(c: State, f: nat): State
    requires f < |c.frames|
  {
    var frame := c.frames[f];
    if frame.dirty && frame.page.Some?
    then c.(disk := c.disk.(pages := c.disk.pages[frame.page.value := frame.data]),
            frames := c.frames[f := frame.(dirty := false)])
    else c
  }

  /** Blank the frame and put it on the free list. */
  function Forget(c: State, f: nat): State
    requires f < |c.frames| && c.frames[f].page.Some?
  {
    c.(where := c.where - {c.frames[f].page.value}, free := c.free + [f],
       frames := c.frames[f := c.frames[f].(page := None, data := ZeroPage())])
  }

  /** Write the frame back, forget its page and put it on the free list. */
  function EvictFrame(c: State, f: nat): State
    requires f < |c.frames|
  {
    if c.frames[f].page.None? then c else Forget(Flush(c, f), f)
  }

  lemma FlushKeeps(c: State, f: nat)
    requires Core(c) && f < |c.frames|
    ensures Core(Flush(c, f)) && View(Flush(c, f)) == View(c)
    ensures !Flush(c, f).frames[f].dirty
  {
    var c' := Flush(c, f);
    assert FrameGood(c, f);
    FlushShows(c, f);
    PinSumUpdate(c.frames, f, c'.frames[f]);
    forall g: nat {:trigger FrameGood(c', g)} | g < |c'.frames| ensures FrameGood(c', g) {
      assert FrameGood(c, g);
    }
    forall p {:trigger MapGood(c', p)} | p in c'.where ensures MapGood(c', p) {
      assert MapGood(c, p);
    }
  }

  lemma FlushShows(c: State, f: nat)
    requires Core(c) && f < |c.frames|
    ensures Flush(c, f).disk.pages.Keys == c.disk.pages.Keys && View(Flush(c, f)) == View(c)
  {
    var c' := Flush(c, f);
    assert FrameGood(c, f);
    forall p | p in c.disk.pages ensures p in c'.disk.pages && Look(c', p) == Look(c, p) {
      if p in c.where {
        assert MapGood(c, p);
      }
    }
  }

  lemma EvictFrameKeeps(c: State, f: nat)
    requires Core(c) && f < |c.frames| && c.frames[f].pins == 0
    ensures Core(EvictFrame(c, f)) && View(EvictFrame(c, f)) == View(c)
  {
    FlushKeeps(c, f);
    if c.frames[f].page.Some? {
      ForgetKeeps(Flush(c, f), f);
    }
  }

  /** A clean frame that is not pinned can be forgotten. */
  lemma ForgetKeeps(c: State, f: nat)
    requires Core(c) && f < |c.frames| && c.frames[f].pins == 0 && !c.frames[f].dirty && c.frames[f].page.Some?
    ensures Core(Forget(c, f)) && View(Forget(c, f)) == View(c)
  {
    var c' := Forget(c, f);
    assert FrameGood(c, f);
    ForgetShows(c, f);
    PinSumUpdate(c.frames, f, c'.frames[f]);
    forall g: nat {:trigger FrameGood(c', g)} | g < |c'.frames| ensures FrameGood(c', g) {
      assert FrameGood(c, g);
    }
    forall p {:trigger MapGood(c', p)} | p in c'.where ensures MapGood(c', p) {
      assert MapGood(c, p);
    }
  }

  lemma ForgetShows(c: State, f: nat)
    requires Core(c) && f < |c.frames| && !c.frames[f].dirty && c.frames[f].page.Some?
    ensures View(Forget(c, f)) == View(c)
  {
    var c' := Forget(c, f);
    assert FrameGood(c, f);
    forall p | p in c.disk.pages ensures Look(c', p) == Look(c, p) {
      if p in c.where {
        assert MapGood(c, p);
      }
    }
  }

  // ----- evicting several frames ----------------------------------------------------------------

  /** Frames keep their pins, a pinned frame keeps everything, and the counters stand still. */
  ghost predicate PinsKept(c: State, c': State) {
    && |c'.frames| == |c.frames| && c'.bulk == c.bulk
    && c'.pinned == c.pinned && c'.unpinned == c.unpinned
    && forall f: nat {:trigger c'.frames[f]} :: f < |c.frames| ==>
      c'.frames[f].pins == c.frames[f].pins && (c.frames[f].pins > 0 ==> c'.frames[f] == c.frames[f])
  }

  /**
   Evict unpinned frames from position i of the queue on, until the batch is full;
   `picked` are the positions. To evict a frame that is free would be a lookup
   outside the page maps, here None.
   */
  function Scan(c: State, i: nat, picked: seq<nat>): Option<(State, seq<nat>)>
    decreases |c.queue| - i
  {
    if i >= |c.queue| then Some((c, picked))
    else if c.queue[i] < |c.frames| && c.frames[c.queue[i]].pins == 0 then
      if c.frames[c.queue[i]].page.None? then None
      else
        var c' := EvictFrame(c, c.queue[i]);
        if |picked| + 1 >= EVICT_LRU_K then Some((c', picked + [i])) else Scan(c', i + 1, picked + [i])
    else Scan(c, i + 1, picked)
  }

  /** Take the picked positions out of the queue, last one first. */
  function RemovePicked(q: seq<nat>, picked: seq<nat>): seq<nat>
    decreases |picked|
  {
    if picked == [] then q
    else
      var k := picked[|picked| - 1];
      RemovePicked(if k < |q| then q[..k] + q[k + 1..] else q, picked[..|picked| - 1])
  }

  function Evict(c: State): Option<State> {
    var r := Scan(c, 0, []);
    if r.None? || r.value.1 == [] then None else Some(r.value.0.(queue := RemovePicked(c.queue, r.value.1)))
  }

  ghost predicate Climbing(picked: seq<nat>, bound: nat) {
    && (forall a, b :: 0 <= a < b < |picked| ==> picked[a] < picked[b])
    && (forall a :: 0 <= a < |picked| ==> picked[a] < bound)
  }

  /** During the scan the frames at the picked positions have been freed. */
  ghost predicate Scanning(c: State, i: nat, picked: seq<nat>) {
    && Good(c) && i <= |c.queue| && Climbing(picked, i)
    && (forall j {:trigger c.queue[j]} :: j in picked && 0 <= j < |c.queue| ==>
      c.queue[j] < |c.frames| && c.frames[c.queue[j]].page.None?)
  }

  lemma ScanStep(c: State, i: nat, picked: seq<nat>)
    requires Scanning(c, i, picked) && i < |c.queue|
    ensures c.queue[i] < |c.frames|
    ensures c.frames[c.queue[i]].pins == 0 && c.frames[c.queue[i]].page.Some? ==>
      var c' := EvictFrame(c, c.queue[i]);
      Scanning(c', i + 1, picked + [i]) && View(c') == View(c) && PinsKept(c, c') && |c'.free| == |c.free| + 1
    ensures c.frames[c.queue[i]].pins > 0 ==> Scanning(c, i + 1, picked)
  {
    var f := c.queue[i];
    assert f in c.queue;
    if c.frames[f].pins == 0 && c.frames[f].page.Some? {
      EvictFrameKeeps(c, f);
    }
  }

  /** Unpinned frames wait in the queue from position i on. */
  ghost predicate Waiting(c: State, i: nat) {
    exists j :: i <= j < |c.queue| && c.queue[j] < |c.frames| && c.frames[c.queue[j]].pins == 0
  }

  lemma PinsKeptTransitive(a: State, b: State, c: State)
    requires PinsKept(a, b) && PinsKept(b, c)
    ensures PinsKept(a, c)
  {
    forall f: nat {:trigger c.frames[f]} | f < |a.frames|
      ensures c.frames[f].pins == a.frames[f].pins && (a.frames[f].pins > 0 ==> c.frames[f] == a.frames[f])
    {
      assert b.frames[f].pins == a.frames[f].pins;
    }
  }

  lemma {:induction false} ScanKeeps(c: State, i: nat, picked: seq<nat>)
    requires Scanning(c, i, picked) && Scan(c, i, picked).Some?
    ensures var r := Scan(c, i, picked).value;
      && Scanning(r.0, |c.queue|, r.1) && r.0.queue == c.queue
      && View(r.0) == View(c) && PinsKept(c, r.0)
      && |r.0.free| + |picked| == |c.free| + |r.1|
    decreases |c.queue| - i
  {
    if i < |c.queue| {
      ScanStep(c, i, picked);
      if c.frames[c.queue[i]].pins == 0 {
        var c' := EvictFrame(c, c.queue[i]);
        if |picked| + 1 < EVICT_LRU_K {
          ScanKeeps(c', i + 1, picked + [i]);
          PinsKeptTransitive(c, c', Scan(c, i, picked).value.0);
        }
      } else {
        ScanKeeps(c, i + 1, picked);
      }
    }
  }

  /** Queued frames from position i on are in use. */
  ghost predicate QueueMapped(c: State, i: nat) {
    forall j {:trigger c.queue[j]} :: i <= j < |c.queue| ==> Mapped(c, c.queue[j])
  }

  /** With the queued frames in use, the scan gets through, and picks a position exactly if an unpinned frame waits. */
  lemma {:induction false} ScanPicks(c: State, i: nat, picked: seq<nat>)
    requires Distinct(c.queue) && QueueMapped(c, i)
    ensures Scan(c, i, picked).Some? && |Scan(c, i, picked).value.1| >= |picked|
    ensures picked == [] ==> (Scan(c, i, picked).value.1 == [] <==> !Waiting(c, i))
    decreases |c.queue| - i
  {
    if i < |c.queue| {
      if c.frames[c.queue[i]].pins == 0 {
        if |picked| + 1 < EVICT_LRU_K {
          ScanPicks(EvictFrame(c, c.queue[i]), i + 1, picked + [i]);
        }
      } else {
        ScanPicks(c, i + 1, picked);
      }
    }
  }

  /** Positions that climb leave room for those after them. */
  lemma {:induction false} ClimbingRoom(picked: seq<nat>, bound: nat, j: nat)
    requires Climbing(picked, bound) && j < |picked|
    ensures picked[j] + |picked| - j <= bound
    decreases |picked| - j
  {
    if j + 1 < |picked| {
      ClimbingRoom(picked, bound, j + 1);
    }
  }

  /** Taking out the last picked position leaves the positions of the other picks alone. */
  lemma UnpickedStep(q: seq<nat>, picked: seq<nat>, x: nat)
    requires Climbing(picked, |q|) && picked != []
    ensures var k := picked[|picked| - 1];
      Unpicked(q[..k] + q[k + 1..], picked[..|picked| - 1], x) <==> Unpicked(q, picked, x)
  {
    var k := picked[|picked| - 1];
    var q', rest := q[..k] + q[k + 1..], picked[..|picked| - 1];
    if Unpicked(q', rest, x) {
      var j :| 0 <= j < |q'| && j !in rest && q'[j] == x;
      UnpickedBefore(q, picked, j);
    }
    if Unpicked(q, picked, x) {
      var j :| 0 <= j < |q| && j !in picked && q[j] == x;
      UnpickedAfter(q, picked, j);
    }
  }

  lemma UnpickedBefore(q: seq<nat>, picked: seq<nat>, j: nat)
    requires Climbing(picked, |q|) && picked != [] && j < |q| - 1 && j !in picked[..|picked| - 1]
    ensures var k := picked[|picked| - 1]; Unpicked(q, picked, (q[..k] + q[k + 1..])[j])
  {
    var k := picked[|picked| - 1];
    var j' := if j < k then j else j + 1;
    assert j' !in picked && q[j'] == (q[..k] + q[k + 1..])[j];
  }

  lemma UnpickedAfter(q: seq<nat>, picked: seq<nat>, j: nat)
    requires Climbing(picked, |q|) && picked != [] && j < |q| && j !in picked
    ensures var k := picked[|picked| - 1]; Unpicked(q[..k] + q[k + 1..], picked[..|picked| - 1], q[j])
  {
    var k := picked[|picked| - 1];
    var j' := if j < k then j else j - 1;
    assert j' !in picked[..|picked| - 1] && q[j] == (q[..k] + q[k + 1..])[j'];
  }

  /** What is left of the queue: the entries at the positions that were not picked. */
  lemma {:induction false} RemovePickedExact(q: seq<nat>, picked: seq<nat>)
    requires Distinct(q) && Climbing(picked, |q|)
    ensures Distinct(RemovePicked(q, picked))
    ensures forall x :: x in RemovePicked(q, picked) <==> Unpicked(q, picked, x)
    decreases |picked|
  {
    if picked == [] {
      forall x ensures x in q <==> Unpicked(q, picked, x) {
      }
    } else {
      var k := picked[|picked| - 1];
      RemovePickedExact(q[..k] + q[k + 1..], picked[..|picked| - 1]);
      forall x ensures x in RemovePicked(q, picked) <==> Unpicked(q, picked, x) {
        UnpickedStep(q, picked, x);
      }
    }
  }

  ghost predicate Unpicked(q: seq<nat>, picked: seq<nat>, x: nat) {
    exists j :: 0 <= j < |q| && j !in picked && q[j] == x
  }

  lemma QueueAfterScan(c: State, picked: seq<nat>)
    requires Scanning(c, |c.queue|, picked)
    ensures QueueSafe(c.(queue := RemovePicked(c.queue, picked)))
  {
    RemovePickedExact(c.queue, picked);
    forall f | f in RemovePicked(c.queue, picked) ensures f < |c.frames| {
      assert Unpicked(c.queue, picked, f);
    }
  }

  ghost predicate SomeUnpinned(c: State) {
    exists f: nat :: f < |c.frames| && c.frames[f].pins == 0
  }

  lemma QueueUnchanged(c: State, queue: seq<nat>)
    requires Core(c)
    ensures Core(c.(queue := queue)) && View(c.(queue := queue)) == View(c)
  {
    var c' := c.(queue := queue);
    forall f: nat {:trigger FrameGood(c', f)} | f < |c'.frames| ensures FrameGood(c', f) {
      assert FrameGood(c, f);
    }
    forall p {:trigger MapGood(c', p)} | p in c'.where ensures MapGood(c', p) {
      assert MapGood(c, p);
    }
    assert forall p :: p in c.disk.pages ==> Look(c', p) == Look(c, p);
  }

  /** Wherever eviction gets through, nothing visible changes and at least one frame more is free. */
  lemma EvictKeeps(c: State)
    requires Good(c) && Evict(c).Some?
    ensures var c' := Evict(c).value;
      Good(c') && View(c') == View(c) && PinsKept(c, c') && |c'.free| > |c.free|
  {
    ScanKeeps(c, 0, []);
    var r := Scan(c, 0, []).value;
    QueueAfterScan(r.0, r.1);
    QueueUnchanged(r.0, RemovePicked(c.queue, r.1));
  }

  /** With no frame free, it gets through exactly when an unpinned frame waits in the queue. */
  lemma EvictFrees(c: State)
    requires Good(c) && c.free == []
    ensures Evict(c).Some? <==> Waiting(c, 0)
  {
    forall j | 0 <= j < |c.queue| ensures Mapped(c, c.queue[j]) {
      assert c.queue[j] in c.queue;
      assert FrameGood(c, c.queue[j]);
    }
    ScanPicks(c, 0, []);
  }

  /** If bulk import has not been on, that is when any frame is unpinned. */
  lemma ListedWaiting(c: State)
    requires Good(c) && Listed(c) && c.free == []
    ensures Waiting(c, 0) <==> SomeUnpinned(c)
  {
    if SomeUnpinned(c) {
      var f: nat :| f < |c.frames| && c.frames[f].pins == 0;
      assert FrameGood(c, f);
      assert Mapped(c, f);
    }
  }

  // ----- bulk eviction ----------------------------------------------------------------------------

  /** Evict every unpinned frame from i on, with their number; a free frame is no good here either. */
  function BulkScan(c: State, i: nat): Option<(State, nat)>
    decreases |c.frames| - i
  {
    if i >= |c.frames| then Some((c, 0))
    else if c.frames[i].pins == 0 then
      if c.frames[i].page.None? then None
      else
        var r := BulkScan(EvictFrame(c, i), i + 1);
        if r.None? then None else Some((r.value.0, r.value.1 + 1))
    else BulkScan(c, i + 1)
  }

  function BulkEvict(c: State): Option<State> {
    var r := BulkScan(c, 0);
    if r.None? || r.value.1 == 0 then None else Some(r.value.0)
  }

  lemma EvictFramePins(c: State, f: nat)
    requires f < |c.frames| && c.frames[f].pins == 0
    ensures PinsKept(c, EvictFrame(c, f)) && EvictFrame(c, f).queue == c.queue
    ensures c.frames[f].page.Some? ==> EvictFrame(c, f).free == c.free + [f]
  {
  }

  lemma {:induction false} BulkScanKeeps(c: State, i: nat)
    requires Core(c) && i <= |c.frames| && BulkScan(c, i).Some?
    ensures var r := BulkScan(c, i).value;
      && Core(r.0) && r.0.queue == c.queue && View(r.0) == View(c) && PinsKept(c, r.0)
      && |r.0.free| == |c.free| + r.1
    decreases |c.frames| - i
  {
    if i < |c.frames| {
      if c.frames[i].pins == 0 {
        EvictFrameKeeps(c, i);
        EvictFramePins(c, i);
        BulkScanKeeps(EvictFrame(c, i), i + 1);
        PinsKeptTransitive(c, EvictFrame(c, i), BulkScan(c, i).value.0);
      } else {
        BulkScanKeeps(c, i + 1);
      }
    }
  }

  /** When all frames from i on are in use, the scan gets through, and evicts none exactly if they are all pinned. */
  lemma {:induction false} BulkScanCounts(c: State, i: nat)
    requires forall f: nat :: i <= f < |c.frames| ==> c.frames[f].page.Some?
    ensures BulkScan(c, i).Some?
    ensures BulkScan(c, i).value.1 == 0 <==> forall f: nat :: i <= f < |c.frames| ==> c.frames[f].pins > 0
    decreases |c.frames| - i
  {
    if i < |c.frames| {
      BulkScanCounts(if c.frames[i].pins == 0 then EvictFrame(c, i) else c, i + 1);
    }
  }

  lemma BulkEvictKeeps(c: State)
    requires Good(c) && BulkEvict(c).Some?
    ensures var c' := BulkEvict(c).value;
      Good(c') && View(c') == View(c) && PinsKept(c, c') && |c'.free| > |c.free|
  {
    BulkScanKeeps(c, 0);
  }

  lemma BulkEvictFrees(c: State)
    requires Good(c) && c.free == []
    ensures BulkEvict(c).Some? <==> SomeUnpinned(c)
  {
    forall f: nat | f < |c.frames| ensures c.frames[f].page.Some? {
      assert FrameGood(c, f);
    }
    BulkScanCounts(c, 0);
  }

  // ----- pinning and unpinning ----------------------------------------------------------------------

  /** Make room if no frame is free. */
  function MakeRoom(c: State): Option<State> {
    if c.free != [] then Some(c) else if c.bulk then BulkEvict(c) else Evict(c)
  }

  /** Eviction has something to work on: with bulk import any unpinned frame, without it one that is in the queue. */
  ghost predicate CanFree(c: State) {
    if c.bulk then SomeUnpinned(c) else Waiting(c, 0)
  }

  /** Read a page into the first free frame. */
  function Load(c: State, p: PageId): State
    requires p in c.disk.pages && c.free != [] && c.free[0] < |c.frames|
  {
    var f := c.free[0];
    c.(frames := c.frames[f := Frame(Some(p), 1, false, c.disk.pages[p])], where := c.where[p := f],
       free := c.free[1..], pinned := c.pinned + 1)
  }

  function PinAgain(c: State, p: PageId): State
    requires p in c.where && c.where[p] < |c.frames|
  {
    var f := c.where[p];
    c.(frames := c.frames[f := c.frames[f].(pins := c.frames[f].pins + 1)], pinned := c.pinned + 1)
  }

  function Pin(c: State, p: PageId): Option<State> {
    if p !in c.disk.pages then None
    else if p in c.where then (if c.where[p] < |c.frames| then Some(PinAgain(c, p)) else None)
    else
      var room := MakeRoom(c);
      if room.None? || room.value.free == [] then None
      else if room.value.free[0] >= |room.value.frames| || p !in room.value.disk.pages then None
      else Some(Load(room.value, p))
  }

  lemma LoadFrames(c: State, p: PageId)
    requires Core(c) && p in c.disk.pages && p !in c.where && c.free != [] && c.free[0] < |c.frames|
    ensures var c' := Load(c, p);
      && (forall g: nat {:trigger FrameGood(c', g)} :: g < |c'.frames| ==> FrameGood(c', g))
      && (forall q {:trigger MapGood(c', q)} :: q in c'.where ==> MapGood(c', q))
      && View(c') == View(c)
  {
    var f, c' := c.free[0], Load(c, p);
    assert f in c.free && FrameGood(c, f);
    assert c.free == [f] + c.free[1..];
    forall g: nat {:trigger FrameGood(c', g)} | g < |c'.frames| ensures FrameGood(c', g) {
      assert FrameGood(c, g);
    }
    forall q {:trigger MapGood(c', q)} | q in c'.where ensures MapGood(c', q) {
      if q != p {
        assert MapGood(c, q);
      }
    }
    forall q | q in c.disk.pages ensures Look(c', q) == Look(c, q) {
      if q in c.where {
        assert MapGood(c, q);
      }
    }
  }

  lemma LoadKeeps(c: State, p: PageId)
    requires Good(c) && p in c.disk.pages && p !in c.where && c.free != []
    ensures c.free[0] < |c.frames| && Good(Load(c, p)) && View(Load(c, p)) == View(c)
  {
    var f := c.free[0];
    assert f in c.free && FrameGood(c, f);
    LoadFrames(c, p);
    PinSumUpdate(c.frames, f, Load(c, p).frames[f]);
    assert forall g :: g in c.free[1..] ==> g in c.free;
  }

  /** c' differs from c in one mapped frame f, which keeps its page and stays dirty or as the disk has it. */
  ghost predicate Touched(c: State, c': State, f: nat) {
    && f < |c.frames| == |c'.frames| && c.frames[f].page.Some?
    && c'.frames == c.frames[f := c'.frames[f]] && c'.frames[f].page == c.frames[f].page
    && (!c'.frames[f].dirty ==> !c.frames[f].dirty && c'.frames[f].data == c.frames[f].data)
    && c'.where == c.where && c'.free == c.free && c'.disk == c.disk && c'.bulk == c.bulk
  }

  lemma TouchedCore(c: State, c': State, f: nat)
    requires Core(c) && Touched(c, c', f)
    requires c'.pinned - c'.unpinned - c'.frames[f].pins == c.pinned - c.unpinned - c.frames[f].pins
    ensures Core(c')
    ensures c'.frames[f].data == c.frames[f].data ==> View(c') == View(c)
  {
    PinSumUpdate(c.frames, f, c'.frames[f]);
    forall g: nat {:trigger FrameGood(c', g)} | g < |c'.frames| ensures FrameGood(c', g) {
      assert FrameGood(c, g);
    }
    forall p {:trigger MapGood(c', p)} | p in c'.where ensures MapGood(c', p) {
      assert MapGood(c, p);
    }
    if c'.frames[f].data == c.frames[f].data {
      assert forall p :: p in c.disk.pages ==> Look(c', p) == Look(c, p);
    }
  }

  lemma PinAgainKeeps(c: State, p: PageId)
    requires Good(c) && p in c.where
    ensures c.where[p] < |c.frames| && Good(PinAgain(c, p)) && View(PinAgain(c, p)) == View(c)
  {
    assert MapGood(c, p);
    var c' := PinAgain(c, p);
    TouchedCore(c, c', c.where[p]);
  }

  /** Where there is room, the first free frame can take the page. */
  lemma RoomReady(c: State, p: PageId)
    requires Good(c) && p in c.disk.pages && p !in c.where
    ensures MakeRoom(c).Some? <==> c.free != [] || CanFree(c)
    ensures MakeRoom(c).Some? ==> var c' := MakeRoom(c).value;
      && Good(c') && View(c') == View(c) && PinsKept(c, c')
      && c'.free != [] && c'.free[0] < |c'.frames| && p in c'.disk.pages && p !in c'.where
  {
    if c.free == [] && c.bulk {
      BulkEvictFrees(c);
      if SomeUnpinned(c) {
        BulkEvictKeeps(c);
      }
    } else if c.free == [] {
      EvictFrees(c);
      if Waiting(c, 0) {
        EvictKeeps(c);
      }
    }
    if MakeRoom(c).Some? {
      var c' := MakeRoom(c).value;
      RoomStillUnmapped(c, c', p);
      assert c'.free[0] in c'.free;
    }
  }

  /** Pinning succeeds unless the page is missing or needs a frame that cannot be had; nothing visible changes. */
  lemma PinKeeps(c: State, p: PageId)
    requires Good(c)
    ensures Pin(c, p).Some? <==> p in c.disk.pages && (p in c.where || c.free != [] || CanFree(c))
    ensures Pin(c, p).Some? ==> var c' := Pin(c, p).value;
      && Good(c') && View(c') == View(c) && c'.bulk == c.bulk
      && p in c'.where && c'.where[p] < |c'.frames| && c'.frames[c'.where[p]].pins > 0
      && c'.frames[c'.where[p]].data == Look(c, p)
  {
    if p in c.disk.pages && p in c.where {
      PinAgainKeeps(c, p);
    } else if p in c.disk.pages {
      RoomReady(c, p);
      var room := MakeRoom(c);
      if room.Some? {
        LoadKeeps(room.value, p);
        assert View(room.value).pages[p] == View(c).pages[p];
      }
    }
  }

  /** Making room maps no new page, and no page becomes unreadable. */
  lemma RoomStillUnmapped(c: State, c': State, p: PageId)
    requires Good(c) && p in c.disk.pages && p !in c.where && MakeRoom(c) == Some(c') && View(c') == View(c)
    ensures p !in c'.where && p in c'.disk.pages
  {
    assert p in View(c').pages;
    if c.free == [] && c.bulk {
      BulkScanMaps(c, 0);
    } else if c.free == [] {
      ScanMaps(c, 0, []);
    }
  }

  lemma EvictFrameMaps(c: State, f: nat)
    requires f < |c.frames|
    ensures EvictFrame(c, f).where.Keys <= c.where.Keys
  {
  }

  lemma {:induction false} ScanMaps(c: State, i: nat, picked: seq<nat>)
    requires Scan(c, i, picked).Some?
    ensures Scan(c, i, picked).value.0.where.Keys <= c.where.Keys
    decreases |c.queue| - i
  {
    if i < |c.queue| {
      if c.queue[i] < |c.frames| && c.frames[c.queue[i]].pins == 0 {
        EvictFrameMaps(c, c.queue[i]);
        if |picked| + 1 < EVICT_LRU_K {
          ScanMaps(EvictFrame(c, c.queue[i]), i + 1, picked + [i]);
        }
      } else {
        ScanMaps(c, i + 1, picked);
      }
    }
  }

  lemma {:induction false} BulkScanMaps(c: State, i: nat)
    requires BulkScan(c, i).Some?
    ensures BulkScan(c, i).value.0.where.Keys <= c.where.Keys
    decreases |c.frames| - i
  {
    if i < |c.frames| {
      if c.frames[i].pins == 0 {
        EvictFrameMaps(c, i);
        BulkScanMaps(EvictFrame(c, i), i + 1);
      } else {
        BulkScanMaps(c, i + 1);
      }
    }
  }

  /**
   How the queue is reordered on unpinning: an element in between goes to the
   back, the first stays, the last makes the first go to the back, and a new one
   is appended.
   */
  function MoveBack(q: seq<nat>, f: nat): seq<nat> {
    if f !in q then q + [f]
    else if q[0] == f then q
    else if q[|q| - 1] == f then q[1..] + [q[0]]
    else Without(q, f) + [f]
  }

  lemma MoveBackExact(q: seq<nat>, f: nat)
    requires Distinct(q)
    ensures Distinct(MoveBack(q, f)) && forall x :: x in MoveBack(q, f) <==> x in q || x == f
  {
    WithoutExact(q, f);
    if f in q && q[0] != f && q[|q| - 1] == f {
      assert q == [q[0]] + q[1..];
    }
  }

  function Unpin(c: State, p: PageId): Option<State> {
    if p !in c.where || c.where[p] >= |c.frames| || c.frames[c.where[p]].pins == 0 then None
    else
      var f := c.where[p];
      Some(c.(frames := c.frames[f := c.frames[f].(pins := c.frames[f].pins - 1)],
              queue := if c.bulk then c.queue else MoveBack(c.queue, f), unpinned := c.unpinned + 1))
  }

  lemma UnpinKeeps(c: State, p: PageId)
    requires Good(c) && Unpin(c, p).Some?
    ensures Good(Unpin(c, p).value) && View(Unpin(c, p).value) == View(c)
  {
    assert MapGood(c, p);
    var f, c' := c.where[p], Unpin(c, p).value;
    TouchedCore(c, c', f);
    MoveBackExact(c.queue, f);
  }

  /** A client writes through the pointer it got by pinning, and marks the page dirty. */
  function Write(c: State, p: PageId, data: Page): Option<State> {
    if p !in c.where || c.where[p] >= |c.frames| || c.frames[c.where[p]].pins == 0 then None
    else Some(c.(frames := c.frames[c.where[p] := c.frames[c.where[p]].(data := data, dirty := true)]))
  }

  /** Exactly the page written changes, and only for what the write says. */
  lemma WriteChanges(c: State, p: PageId, data: Page)
    requires Good(c) && Write(c, p, data).Some?
    ensures var c' := Write(c, p, data).value;
      Good(c') && View(c') == View(c).(pages := View(c).pages[p := data]) && p in View(c).pages
  {
    assert MapGood(c, p);
    var f, c' := c.where[p], Write(c, p, data).value;
    assert FrameGood(c, f);
    TouchedCore(c, c', f);
    forall q | q in c.disk.pages ensures Look(c', q) == if q == p then data else Look(c, q) {
      if q in c.where {
        assert MapGood(c, q);
      }
    }
  }

  // ----- flushing all, growing, resizing -----------------------------------------------------------

  function FlushFrame(c: State, f: nat): Option<State> {
    if f >= |c.frames| || c.frames[f].pins > 0 then None else Some(Flush(c, f))
  }

  function FlushFrom(c: State, i: nat): (r: Option<State>)
    decreases |c.frames| - i
  {
    if i >= |c.frames| then Some(c)
    else if c.frames[i].pins > 0 then None
    else FlushFrom(Flush(c, i), i + 1)
  }

  function FlushAll(c: State): Option<State> {
    FlushFrom(c, 0)
  }

  ghost predicate AllUnpinned(c: State) {
    forall f: nat :: f < |c.frames| ==> c.frames[f].pins == 0
  }

  ghost predicate CleanBelow(c: State, i: nat) {
    forall f: nat :: f < i && f < |c.frames| ==> !c.frames[f].dirty
  }

  lemma {:induction false} FlushFromKeeps(c: State, i: nat)
    requires Good(c) && CleanBelow(c, i) && forall f: nat :: f < i && f < |c.frames| ==> c.frames[f].pins == 0
    ensures FlushFrom(c, i).Some? <==> AllUnpinned(c)
    ensures FlushFrom(c, i).Some? ==> var c' := FlushFrom(c, i).value;
      Good(c') && View(c') == View(c) && CleanBelow(c', |c'.frames|) && AllUnpinned(c') && c'.bulk == c.bulk
    decreases |c.frames| - i
  {
    if i < |c.frames| && c.frames[i].pins == 0 {
      FlushKeeps(c, i);
      assert forall f: nat :: f < |c.frames| ==> Flush(c, i).frames[f].pins == c.frames[f].pins;
      FlushFromKeeps(Flush(c, i), i + 1);
    }
  }

  /** After a full flush the files on disk are what readers see. */
  lemma CleanMeansDisk(c: State)
    requires Core(c) && CleanBelow(c, |c.frames|)
    ensures c.disk == View(c)
  {
    forall p | p in c.disk.pages ensures Look(c, p) == c.disk.pages[p] {
      if p in c.where {
        assert MapGood(c, p);
        assert FrameGood(c, c.where[p]);
      }
    }
  }

  function Grow(c: State, file: FileId, n: nat): State {
    c.(disk := GrowDisk(c.disk, file, n))
  }

  lemma {:induction false} GrowDiskKeeps(d: Disk, file: FileId, n: nat)
    requires Sized(d)
    ensures var d' := GrowDisk(d, file, n);
      Sized(d') && forall p :: p in d.pages ==> p in d'.pages && d'.pages[p] == d.pages[p]
  {
    if n > 0 {
      GrowDiskKeeps(d, file, n - 1);
    }
  }

  lemma AddPageView(c: State, file: FileId)
    requires PageId(file, SizeOf(c.disk, file)) !in c.where
    ensures View(c.(disk := AddPage(c.disk, file))) == AddPage(View(c), file)
  {
    var added, c' := PageId(file, SizeOf(c.disk, file)), c.(disk := AddPage(c.disk, file));
    assert SizeOf(View(c), file) == SizeOf(c.disk, file);
    forall p | p in c'.disk.pages ensures Look(c', p) == if p == added then ZeroPage() else Look(c, p) {
    }
    assert View(c').pages == View(c).pages[added := ZeroPage()];
  }

  /** The grown files seen through the cache are the grown view. */
  lemma {:induction false} GrowView(c: State, file: FileId, n: nat)
    requires Core(c)
    ensures View(Grow(c, file, n)) == GrowDisk(View(c), file, n)
  {
    if n > 0 {
      GrowView(c, file, n - 1);
      GrowDiskKeeps(c.disk, file, n - 1);
      var c1 := Grow(c, file, n - 1);
      var added := PageId(file, SizeOf(c1.disk, file));
      assert added !in c1.disk.pages;
      if added in c.where {
        MappedOnDisk(c, added);
      }
      AddPageView(c1, file);
    }
  }

  /** Only pages of the files are in frames. */
  lemma MappedOnDisk(c: State, p: PageId)
    requires Core(c) && p in c.where
    ensures p in c.disk.pages
  {
    assert MapGood(c, p);
    assert FrameGood(c, c.where[p]);
  }

  lemma GrowKeeps(c: State, file: FileId, n: nat)
    requires Good(c)
    ensures Good(Grow(c, file, n)) && View(Grow(c, file, n)) == GrowDisk(View(c), file, n)
  {
    GrowDiskKeeps(c.disk, file, n);
    GrowView(c, file, n);
    var c' := Grow(c, file, n);
    forall f: nat {:trigger FrameGood(c', f)} | f < |c'.frames| ensures FrameGood(c', f) {
      assert FrameGood(c, f);
    }
    forall p {:trigger MapGood(c', p)} | p in c'.where ensures MapGood(c', p) {
      assert MapGood(c, p);
    }
  }

  /**
   Append a page to a record file and pin it. `headers` is the number of header
   pages that allocation adds to keep a bit for every slot.
   */
  function NewPage(c: State, of: RecordType, headers: nat): Option<State> {
    var grown := Grow(Grow(c, Records(of), 1), Header(of), headers);
    Pin(grown, PageId(Records(of), SizeOf(c.disk, Records(of))))
  }

  function Iota(n: nat): (s: seq<nat>)
    ensures |s| == n && forall i :: 0 <= i < n ==> s[i] == i
  {
    seq(n, i => i)
  }

  function EmptyFrames(n: nat): (s: seq<Frame>)
    ensures |s| == n && forall f :: 0 <= f < n ==> s[f] == EmptyFrame()
  {
    seq(n, _ => EmptyFrame())
  }

  function Fresh(d: Disk, n: nat, pinned: nat, unpinned: nat, bulk: bool): State {
    State(EmptyFrames(n), map[], Iota(n), [], d, pinned, unpinned, bulk)
  }

  /** A cache without frames has no first frame whose memory could be released. */
  function Resize(c: State, n: nat): Option<State> {
    var flushed := FlushAll(c);
    if flushed.None? || |c.frames| == 0 then None
    else Some(Fresh(flushed.value.disk, n, flushed.value.pinned, flushed.value.unpinned, c.bulk))
  }

  lemma {:induction false} NoPins(frames: seq<Frame>)
    requires forall f :: 0 <= f < |frames| ==> frames[f].pins == 0
    ensures PinSum(frames) == 0
  {
    if frames != [] {
      NoPins(frames[..|frames| - 1]);
    }
  }

  lemma FreshGood(d: Disk, n: nat, pins: nat, bulk: bool)
    requires Sized(d)
    ensures Good(Fresh(d, n, pins, pins, bulk)) && View(Fresh(d, n, pins, pins, bulk)) == d
  {
    NoPins(EmptyFrames(n));
    var c := Fresh(d, n, pins, pins, bulk);
    forall f: nat {:trigger FrameGood(c, f)} | f < n ensures FrameGood(c, f) {
      assert Iota(n)[f] == f;
    }
    assert forall p :: p in d.pages ==> Look(c, p) == d.pages[p];
  }

  /** An empty cache can serve a page exactly if it has a frame. */
  lemma FreshPins(d: Disk, n: nat, p: PageId)
    requires Sized(d) && p in d.pages
    ensures Good(Fresh(d, n, 0, 0, false))
    ensures Pin(Fresh(d, n, 0, 0, false), p).Some? <==> n > 0
  {
    FreshGood(d, n, 0, false);
    PinKeeps(Fresh(d, n, 0, 0, false), p);
  }

  lemma ResizeKeeps(c: State, n: nat)
    requires Good(c)
    ensures Resize(c, n).Some? <==> AllUnpinned(c) && |c.frames| > 0
    ensures Resize(c, n).Some? ==> var c' := Resize(c, n).value;
      Good(c') && View(c') == View(c) && c'.disk == View(c)
  {
    FlushFromKeeps(c, 0);
    if AllUnpinned(c) {
      var c1 := FlushAll(c).value;
      CleanMeansDisk(c1);
      NoPins(c1.frames);
      FreshGood(c1.disk, n, c1.pinned, c.bulk);
    }
  }

  // ----- whole runs ------------------------------------------------------------------------------------

  datatype Op =
    | PinPage(page: PageId)
    | WritePage(page: PageId, data: Page)
    | UnpinPage(page: PageId)
    | FlushPage(frame: nat)
    | FlushAllPages
    | AllocatePage(of: RecordType, headers: nat)
    | GrowFile(of: RecordType, n: nat, headers: nat)
    | ChangeFrames(n: nat)
    | EvictPages
    | BulkEvictPages
    | SetBulk(on: bool)

  function Apply(c: State, op: Op): Option<State> {
    match op
    case PinPage(p) => Pin(c, p)
    case WritePage(p, data) => Write(c, p, data)
    case UnpinPage(p) => Unpin(c, p)
    case FlushPage(f) => FlushFrame(c, f)
    case FlushAllPages => FlushAll(c)
    case AllocatePage(of, headers) => NewPage(c, of, headers)
    case GrowFile(of, n, headers) => Some(Grow(Grow(c, Records(of), n), Header(of), headers))
    case ChangeFrames(n) => Resize(c, n)
    case EvictPages => Evict(c)
    case BulkEvictPages => BulkEvict(c)
    case SetBulk(on) => Some(c.(bulk := on))
  }

  /** What the operation does to plain files. */
  function Effect(d: Disk, op: Op): Disk {
    match op
    case WritePage(p, data) => d.(pages := d.pages[p := data])
    case AllocatePage(of, headers) => GrowDisk(GrowDisk(d, Records(of), 1), Header(of), headers)
    case GrowFile(of, n, headers) => GrowDisk(GrowDisk(d, Records(of), n), Header(of), headers)
    case _ => d
  }

  function Run(c: State, ops: seq<Op>): Option<State> {
    if ops == [] then Some(c)
    else
      var before := Run(c, ops[..|ops| - 1]);
      if before.None? then None else Apply(before.value, ops[|ops| - 1])
  }

  function Effects(d: Disk, ops: seq<Op>): Disk {
    if ops == [] then d else Effect(Effects(d, ops[..|ops| - 1]), ops[|ops| - 1])
  }

  /** Each operation keeps the bookkeeping, and shows readers just its effect on plain files. */
  lemma ApplyTransparent(c: State, op: Op)
    requires Good(c) && Apply(c, op).Some?
    ensures Good(Apply(c, op).value) && View(Apply(c, op).value) == Effect(View(c), op)
  {
    match op
    case PinPage(p) => PinKeeps(c, p);
    case WritePage(p, data) => WriteChanges(c, p, data);
    case UnpinPage(p) => UnpinKeeps(c, p);
    case FlushPage(f) => FlushKeeps(c, f);
    case FlushAllPages => FlushFromKeeps(c, 0);
    case AllocatePage(of, headers) =>
      GrowKeeps(c, Records(of), 1);
      GrowKeeps(Grow(c, Records(of), 1), Header(of), headers);
      PinKeeps(Grow(Grow(c, Records(of), 1), Header(of), headers), PageId(Records(of), SizeOf(c.disk, Records(of))));
    case GrowFile(of, n, headers) =>
      GrowKeeps(c, Records(of), n);
      GrowKeeps(Grow(c, Records(of), n), Header(of), headers);
    case ChangeFrames(n) => ResizeKeeps(c, n);
    case EvictPages => EvictKeeps(c);
    case BulkEvictPages => BulkEvictKeeps(c);
    case SetBulk(on) => SwitchKeeps(c, on);
  }

  /** Switching bulk import touches neither frames nor files. */
  lemma SwitchKeeps(c: State, on: bool)
    requires Core(c)
    ensures Core(c.(bulk := on)) && View(c.(bulk := on)) == View(c)
  {
    var c' := c.(bulk := on);
    forall f: nat {:trigger FrameGood(c', f)} | f < |c'.frames| ensures FrameGood(c', f) {
      assert FrameGood(c, f);
    }
    forall p {:trigger MapGood(c', p)} | p in c'.where ensures MapGood(c', p) {
      assert MapGood(c, p);
    }
    assert forall p :: p in c.disk.pages ==> Look(c', p) == Look(c, p);
  }

  /** The cache is invisible: any run looks like the same run on plain files. */
  lemma {:induction false} RunTransparent(c: State, ops: seq<Op>)
    requires Good(c) && Run(c, ops).Some?
    ensures Good(Run(c, ops).value) && View(Run(c, ops).value) == Effects(View(c), ops)
  {
    if ops != [] {
      RunTransparent(c, ops[..|ops| - 1]);
      ApplyTransparent(Run(c, ops[..|ops| - 1]).value, ops[|ops| - 1]);
    }
  }

  /** From an empty cache, after a last flush the disk holds exactly the effects of the run. */
  lemma FlushedRunOnDisk(d: Disk, frames: nat, bulk: bool, ops: seq<Op>)
    requires Sized(d) && Run(Fresh(d, frames, 0, 0, bulk), ops + [FlushAllPages]).Some?
    ensures Run(Fresh(d, frames, 0, 0, bulk), ops + [FlushAllPages]).value.disk == Effects(d, ops)
  {
    var c := Fresh(d, frames, 0, 0, bulk);
    var all := ops + [FlushAllPages];
    FreshGood(d, frames, 0, bulk);
    assert all[..|all| - 1] == ops;
    RunTransparent(c, ops);
    FlushFromKeeps(Run(c, ops).value, 0);
    CleanMeansDisk(Run(c, all).value);
  }

  /** Page p is pinned in frame f. */
  predicate PinnedIn(c: State, p: PageId, f: nat) {
    p in c.where && c.where[p] == f < |c.frames| && c.frames[f].pins > 0
  }

  lemma PinnedStaysOnPin(c: State, q: PageId, p: PageId, f: nat)
    requires Good(c) && Pin(c, q).Some? && PinnedIn(c, p, f)
    ensures PinnedIn(Pin(c, q).value, p, f)
  {
    assert MapGood(c, p);
    if q !in c.where {
      RoomReady(c, q);
      var room := MakeRoom(c).value;
      assert FrameGood(room, f);
      assert room.free[0] in room.free;
    }
  }

  /** A pinned page never changes frame: no operation moves it until it is unpinned. */
  lemma PinnedStays(c: State, op: Op, p: PageId, f: nat)
    requires Good(c) && Apply(c, op).Some? && PinnedIn(c, p, f)
    ensures PinnedIn(Apply(c, op).value, p, f) || op == UnpinPage(p)
  {
    match op
    case PinPage(q) => PinnedStaysOnPin(c, q, p, f);
    case UnpinPage(q) =>
      assert MapGood(c, p);
      assert MapGood(c, q);
    case AllocatePage(of, headers) =>
      GrowKeeps(c, Records(of), 1);
      GrowKeeps(Grow(c, Records(of), 1), Header(of), headers);
      PinnedStaysOnPin(Grow(Grow(c, Records(of), 1), Header(of), headers),
                       PageId(Records(of), SizeOf(c.disk, Records(of))), p, f);
    case FlushAllPages => FlushFromKeeps(c, 0);
    case ChangeFrames(n) => ResizeKeeps(c, n);
    case EvictPages => PinnedStaysOnEvict(c, Evict(c).value, p, f);
    case BulkEvictPages => PinnedStaysOnEvict(c, BulkEvict(c).value, p, f);
    case _ =>
  }

  lemma PinnedStaysOnEvict(c: State, c': State, p: PageId, f: nat)
    requires Good(c) && PinnedIn(c, p, f) && (Evict(c) == Some(c') || BulkEvict(c) == Some(c'))
    ensures PinnedIn(c', p, f)
  {
    assert MapGood(c, p);
    if Evict(c) == Some(c') {
      EvictKeeps(c);
    } else {
      BulkEvictKeeps(c);
    }
    assert FrameGood(c', f);
  }

  // ----- runs without bulk import ----------------------------------------------------------------------

  /** The scan changes the pages of frames at picked positions only. */
  lemma {:induction false} ScanTouches(c: State, i: nat, picked: seq<nat>, f: nat)
    requires Scan(c, i, picked).Some? && f < |c.frames|
    ensures var r := Scan(c, i, picked).value;
      && f < |r.0.frames| && (forall j :: j in picked ==> j in r.1)
      && (r.0.frames[f].page == c.frames[f].page || exists j: nat :: j in r.1 && j < |c.queue| && c.queue[j] == f)
    decreases |c.queue| - i
  {
    if i < |c.queue| {
      if c.queue[i] < |c.frames| && c.frames[c.queue[i]].pins == 0 {
        var c' := EvictFrame(c, c.queue[i]);
        assert i in picked + [i];
        if |picked| + 1 < EVICT_LRU_K {
          ScanTouches(c', i + 1, picked + [i], f);
        }
      } else {
        ScanTouches(c, i + 1, picked, f);
      }
    }
  }

  lemma EvictKeepsListed(c: State)
    requires Good(c) && Listed(c) && Evict(c).Some?
    ensures Listed(Evict(c).value)
  {
    var r, c' := Scan(c, 0, []).value, Evict(c).value;
    ScanKeeps(c, 0, []);
    RemovePickedExact(c.queue, r.1);
    forall f | f in c'.queue ensures Mapped(c', f) {
      StillMapped(c, f);
    }
    forall f: nat {:trigger Mapped(c', f)} | Mapped(c', f) && c'.frames[f].pins == 0 ensures f in c'.queue {
      StillQueued(c, f);
    }
  }

  /** What is left in the queue is still in use. */
  lemma StillMapped(c: State, f: nat)
    requires Good(c) && Listed(c) && Evict(c).Some? && f in Evict(c).value.queue
    ensures Mapped(Evict(c).value, f)
  {
    var r := Scan(c, 0, []).value;
    ScanKeeps(c, 0, []);
    RemovePickedExact(c.queue, r.1);
    assert Unpicked(c.queue, r.1, f);
    assert Mapped(c, f);
    ScanTouches(c, 0, [], f);
  }

  /** What is still in use and unpinned is left in the queue. */
  lemma StillQueued(c: State, f: nat)
    requires Good(c) && Listed(c) && Evict(c).Some? && Mapped(Evict(c).value, f) && Evict(c).value.frames[f].pins == 0
    ensures f in Evict(c).value.queue
  {
    var r := Scan(c, 0, []).value;
    ScanKeeps(c, 0, []);
    ScanTouches(c, 0, [], f);
    assert r.0.frames[f].pins == c.frames[f].pins;
    assert Mapped(c, f);
    RemovePickedExact(c.queue, r.1);
    assert Unpicked(c.queue, r.1, f);
  }

  /** Same frames in use, none unpinned that was not: the queue may stay. */
  lemma SameListed(c: State, c': State)
    requires Listed(c) && !c'.bulk && (forall f :: f in c.queue ==> f in c'.queue)
    requires forall f :: f in c'.queue ==> Mapped(c', f)
    requires forall f: nat {:trigger Mapped(c', f)} :: Mapped(c', f) && c'.frames[f].pins == 0 ==>
      f in c'.queue || (Mapped(c, f) && c.frames[f].pins == 0)
    ensures Listed(c')
  {
  }

  lemma {:induction false} FlushFromListed(c: State, i: nat)
    requires Listed(c) && FlushFrom(c, i).Some?
    ensures Listed(FlushFrom(c, i).value)
    decreases |c.frames| - i
  {
    if i < |c.frames| {
      FlushListed(c, i);
      FlushFromListed(Flush(c, i), i + 1);
    }
  }

  lemma FlushListed(c: State, f: nat)
    requires Listed(c) && f < |c.frames|
    ensures Listed(Flush(c, f))
  {
    var c' := Flush(c, f);
    forall g | g in c'.queue ensures Mapped(c', g) {
      assert Mapped(c, g);
    }
    SameListed(c, c');
  }

  lemma PinListed(c: State, p: PageId)
    requires Good(c) && Listed(c) && Pin(c, p).Some?
    ensures Listed(Pin(c, p).value)
  {
    var c' := Pin(c, p).value;
    if p in c.where {
      assert MapGood(c, p);
      forall g | g in c'.queue ensures Mapped(c', g) {
        assert Mapped(c, g);
      }
      SameListed(c, c');
    } else {
      RoomReady(c, p);
      var room := MakeRoom(c).value;
      if c.free == [] {
        EvictKeepsListed(c);
      }
      forall g | g in c'.queue ensures Mapped(c', g) {
        assert Mapped(room, g);
      }
      SameListed(room, c');
    }
  }

  lemma UnpinListed(c: State, p: PageId)
    requires Good(c) && Listed(c) && Unpin(c, p).Some?
    ensures Listed(Unpin(c, p).value)
  {
    var f, c' := c.where[p], Unpin(c, p).value;
    assert MapGood(c, p);
    MoveBackExact(c.queue, f);
    forall g | g in c'.queue ensures Mapped(c', g) {
      if g != f {
        assert Mapped(c, g);
      }
    }
    SameListed(c, c');
  }

  lemma WriteListed(c: State, p: PageId, data: Page)
    requires Good(c) && Listed(c) && Write(c, p, data).Some?
    ensures Listed(Write(c, p, data).value)
  {
    var c' := Write(c, p, data).value;
    forall g | g in c'.queue ensures Mapped(c', g) {
      assert Mapped(c, g);
    }
    SameListed(c, c');
  }

  lemma GrowListed(c: State, file: FileId, n: nat)
    requires Listed(c)
    ensures Listed(Grow(c, file, n))
  {
    var c' := Grow(c, file, n);
    forall g | g in c'.queue ensures Mapped(c', g) {
      assert Mapped(c, g);
    }
    SameListed(c, c');
  }

  predicate UsesBulk(op: Op) {
    op.BulkEvictPages? || op == SetBulk(true)
  }

  lemma ApplyKeepsListed(c: State, op: Op)
    requires Good(c) && Listed(c) && Apply(c, op).Some? && !UsesBulk(op)
    ensures Listed(Apply(c, op).value)
  {
    match op
    case PinPage(p) => PinListed(c, p);
    case WritePage(p, data) => WriteListed(c, p, data);
    case UnpinPage(p) => UnpinListed(c, p);
    case FlushPage(f) => FlushListed(c, f);
    case FlushAllPages => FlushFromListed(c, 0);
    case AllocatePage(of, headers) =>
      GrowListed(c, Records(of), 1);
      GrowKeeps(c, Records(of), 1);
      GrowListed(Grow(c, Records(of), 1), Header(of), headers);
      GrowKeeps(Grow(c, Records(of), 1), Header(of), headers);
      PinListed(Grow(Grow(c, Records(of), 1), Header(of), headers), PageId(Records(of), SizeOf(c.disk, Records(of))));
    case GrowFile(of, n, headers) =>
      GrowListed(c, Records(of), n);
      GrowListed(Grow(c, Records(of), n), Header(of), headers);
    case EvictPages => EvictKeepsListed(c);
    case _ =>
  }

  /**
   In a run that never uses bulk import, a page that exists can be pinned exactly
   if it is in a frame, a frame is free, or any frame is unpinned.
   */
  lemma {:induction false} RunWithoutBulk(d: Disk, frames: nat, ops: seq<Op>, p: PageId)
    requires Sized(d) && Run(Fresh(d, frames, 0, 0, false), ops).Some? && forall op :: op in ops ==> !UsesBulk(op)
    ensures var c := Run(Fresh(d, frames, 0, 0, false), ops).value;
      && Good(c) && Listed(c)
      && (Pin(c, p).Some? <==> p in c.disk.pages && (p in c.where || c.free != [] || SomeUnpinned(c)))
  {
    var start := Fresh(d, frames, 0, 0, false);
    FreshGood(d, frames, 0, false);
    RunKeepsListed(start, ops);
    var c := Run(start, ops).value;
    PinKeeps(c, p);
    if c.free == [] {
      ListedWaiting(c);
    }
  }

  lemma {:induction false} RunKeepsListed(c: State, ops: seq<Op>)
    requires Good(c) && Listed(c) && Run(c, ops).Some? && forall op :: op in ops ==> !UsesBulk(op)
    ensures Good(Run(c, ops).value) && Listed(Run(c, ops).value)
  {
    if ops != [] {
      var k := |ops| - 1;
      RunKeepsListed(c, ops[..k]);
      ApplyTransparent(Run(c, ops[..k]).value, ops[k]);
      ApplyKeepsListed(Run(c, ops[..k]).value, ops[k]);
    }
  }

  // ----- one page at a time ---------------------------------------------------------------------------

  /** Nothing is pinned, bulk import has not been used, and there is a frame. */
  ghost predicate Idle(c: State) {
    Good(c) && Listed(c) && AllUnpinned(c) && c.frames != []
  }

  /** Pin a page, write it if there is something to write, and unpin it. */
  function Access(c: State, p: PageId, data: Option<Page>): Option<State> {
    var c1 := Pin(c, p);
    var c2 := if c1.None? || data.None? then c1 else Write(c1.value, p, data.value);
    if c2.None? then None else Unpin(c2.value, p)
  }

  /** After a pin in an idle cache that page is the only one pinned. */
  ghost predicate Holds(c: State, p: PageId) {
    && Good(c) && Listed(c) && p in c.where && c.where[p] < |c.frames| && c.frames[c.where[p]].pins == 1
    && forall f: nat {:trigger c.frames[f]} :: f < |c.frames| && f != c.where[p] ==> c.frames[f].pins == 0
  }

  lemma PinHolds(c: State, p: PageId)
    requires Idle(c) && p in c.disk.pages
    ensures Pin(c, p).Some? && Holds(Pin(c, p).value, p)
  {
    assert c.frames[0].pins == 0;
    if c.free == [] {
      ListedWaiting(c);
    }
    PinKeeps(c, p);
    PinListed(c, p);
    if p !in c.where {
      RoomReady(c, p);
    }
  }

  lemma WriteHolds(c: State, p: PageId, data: Page)
    requires Holds(c, p)
    ensures Write(c, p, data).Some? && Holds(Write(c, p, data).value, p)
  {
    WriteChanges(c, p, data);
    WriteListed(c, p, data);
  }

  lemma UnpinIdle(c: State, p: PageId)
    requires Holds(c, p)
    ensures Unpin(c, p).Some? && Idle(Unpin(c, p).value)
  {
    UnpinKeeps(c, p);
    UnpinListed(c, p);
  }

  /** With one frame or more, whoever pins one page at a time always gets the page, if it exists. */
  lemma OneAtATime(c: State, p: PageId, data: Option<Page>)
    requires Idle(c)
    ensures Access(c, p, data).Some? <==> p in c.disk.pages
    ensures Access(c, p, data).Some? ==> Idle(Access(c, p, data).value)
  {
    PinKeeps(c, p);
    if p in c.disk.pages {
      PinHolds(c, p);
      var c1 := Pin(c, p).value;
      if data.None? {
        UnpinIdle(c1, p);
      } else {
        WriteHolds(c1, p, data.value);
        UnpinIdle(Write(c1, p, data.value).value, p);
      }
    }
  }

  /** So it is while files grow in between. */
  lemma IdleGrows(c: State, file: FileId, n: nat)
    requires Idle(c)
    ensures Idle(Grow(c, file, n)) && forall p :: p in c.disk.pages ==> p in Grow(c, file, n).disk.pages
  {
    GrowKeeps(c, file, n);
    GrowListed(c, file, n);
    GrowDiskKeeps(c.disk, file, n);
  }

  // ----- what bulk import leaves behind ---------------------------------------------------------------

  /**
   After bulk import an unpinned frame may be in no queue, and then eviction does
   not find it: the pin fails although a frame could be had.
   */
  lemma UnlistedIsLost(c: State, p: PageId)
    requires Good(c) && !c.bulk && c.free == [] && p in c.disk.pages && p !in c.where && !Waiting(c, 0)
    ensures Pin(c, p).None?
  {
    PinKeeps(c, p);
  }

  lemma RunOne(c: State, ops: seq<Op>, op: Op, all: seq<Op>)
    requires Run(c, ops).Some? && all == ops + [op]
    ensures Run(c, all) == Apply(Run(c, ops).value, op)
  {
    assert all[..|ops|] == ops;
  }

  /** A page pinned and unpinned while bulk import is on, in a cache of one frame. */
  function BulkUse(p: PageId): seq<Op> {
    [SetBulk(true), PinPage(p), UnpinPage(p), SetBulk(false)]
  }

  /** The only frame holds p, unpinned, and the queue does not know. */
  function Stranded(d: Disk, p: PageId): State
    requires p in d.pages
  {
    State([Frame(Some(p), 0, false, d.pages[p])], map[p := 0], [], [], d, 1, 1, false)
  }

  /** That frame at the steps before. */
  function Holding(d: Disk, p: PageId, pins: nat, unpinned: nat): State
    requires p in d.pages
  {
    State([Frame(Some(p), pins, false, d.pages[p])], map[p := 0], [], [], d, 1, unpinned, true)
  }

  lemma FirstPin(d: Disk, p: PageId)
    requires p in d.pages
    ensures Pin(Fresh(d, 1, 0, 0, true), p) == Some(Holding(d, p, 1, 0))
  {
    var c, c' := Fresh(d, 1, 0, 0, true), Holding(d, p, 1, 0);
    assert c.free == [0] && c.frames == [EmptyFrame()];
    assert Load(c, p).frames == c'.frames && Load(c, p).free == [] && Load(c, p).where == c'.where;
  }

  lemma FirstUnpin(d: Disk, p: PageId)
    requires p in d.pages
    ensures Unpin(Holding(d, p, 1, 0), p) == Some(Holding(d, p, 0, 1))
  {
    assert Holding(d, p, 1, 0).frames[0 := Frame(Some(p), 0, false, d.pages[p])] == Holding(d, p, 0, 1).frames;
  }

  lemma SwitchedOn(d: Disk, ops: seq<Op>)
    requires ops == [SetBulk(true)]
    ensures Run(Fresh(d, 1, 0, 0, false), ops) == Some(Fresh(d, 1, 0, 0, true))
  {
    RunOne(Fresh(d, 1, 0, 0, false), [], SetBulk(true), ops);
  }

  lemma BulkPinned(d: Disk, p: PageId, before: seq<Op>, ops: seq<Op>)
    requires p in d.pages && before == [SetBulk(true)] && ops == before + [PinPage(p)]
    ensures Run(Fresh(d, 1, 0, 0, false), ops) == Some(Holding(d, p, 1, 0))
  {
    SwitchedOn(d, before);
    FirstPin(d, p);
    RunOne(Fresh(d, 1, 0, 0, false), before, PinPage(p), ops);
  }

  lemma BulkUseStrands(d: Disk, p: PageId)
    requires p in d.pages
    ensures Run(Fresh(d, 1, 0, 0, false), BulkUse(p)) == Some(Stranded(d, p))
  {
    var c, pinned := Fresh(d, 1, 0, 0, false), [SetBulk(true), PinPage(p)];
    var used := [SetBulk(true), PinPage(p), UnpinPage(p)];
    assert Run(c, pinned) == Some(Holding(d, p, 1, 0)) by { BulkPinned(d, p, [SetBulk(true)], pinned); }
    assert Run(c, used) == Some(Holding(d, p, 0, 1)) by {
      FirstUnpin(d, p);
      RunOne(c, pinned, UnpinPage(p), used);
    }
    RunOne(c, used, SetBulk(false), BulkUse(p));
  }

  /** After such a use no other page can be had, although the frame is not pinned. */
  lemma BulkStrandsFrame(d: Disk, p: PageId, q: PageId)
    requires Sized(d) && p in d.pages && q in d.pages && q != p
    ensures var r := Run(Fresh(d, 1, 0, 0, false), BulkUse(p));
      r.Some? && Good(r.value) && SomeUnpinned(r.value) && Pin(r.value, q).None?
  {
    FreshGood(d, 1, 0, false);
    BulkUseStrands(d, p);
    RunTransparent(Fresh(d, 1, 0, 0, false), BulkUse(p));
    assert Stranded(d, p).frames[0].pins == 0;
    UnlistedIsLost(Stranded(d, p), q);
  }
}
