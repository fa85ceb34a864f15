/**
 What the operations of the page cache do, said without the transitions: whose
 pins they count, how files grow, which frames are evicted, and what is left of
 everything else.
 */
module CacheEffects {
  import opened Graph
  import opened CacheState

  // ----- pins -------------------------------------------------------------------------------

  /** How often a page is pinned; a page in no frame is not. */
  function PinsOn(c: State, p: PageId): nat {
    if p in c.where && c.where[p] < |c.frames| then c.frames[c.where[p]].pins else 0
  }

  /** The page that an operation pins: an allocation pins the page it appends. */
  function PinnedBy(c: State, op: Op): Option<PageId> {
    match op
    case PinPage(p) => Some(p)
    case AllocatePage(of, _) => Some(PageId(Records(of), SizeOf(c.disk, Records(of))))
    case _ => None
  }

  function One(yes: bool): nat {
    if yes then 1 else 0
  }

  function UnpinnedBy(op: Op): Option<PageId> {
    if op.UnpinPage? then Some(op.page) else None
  }

  /** One pin more for the page `up`, one less for `down`, no change for any other; both are counted. */
  ghost predicate Counted(c: State, up: Option<PageId>, down: Option<PageId>, c': State) {
    && (forall p {:trigger PinsOn(c', p)} {:trigger PinsOn(c, p)} ::
      PinsOn(c', p) + One(down == Some(p)) == PinsOn(c, p) + One(up == Some(p)))
    && c'.pinned == c.pinned + One(up.Some?) && c'.unpinned == c.unpinned + One(down.Some?)
  }

  /** The operation counts for the page that it pins or unpins, and for no other. */
  ghost predicate CountsPins(c: State, op: Op, c': State) {
    Counted(c, PinnedBy(c, op), UnpinnedBy(op), c')
  }

  ghost predicate SamePins(c: State, c': State) {
    Counted(c, None, None, c')
  }

  lemma KeptPinsOn(c: State, c': State, p: PageId)
    requires Core(c) && Core(c') && PinsKept(c, c')
    ensures PinsOn(c', p) == PinsOn(c, p)
  {
    if p in c.where {
      assert MapGood(c, p);
      var f := c.where[p];
      assert c'.frames[f].pins == c.frames[f].pins;
      if c.frames[f].pins > 0 {
        assert FrameGood(c', f);
      }
    }
    if p in c'.where {
      assert MapGood(c', p);
      var f := c'.where[p];
      assert c'.frames[f].pins == c.frames[f].pins;
      if c.frames[f].pins > 0 {
        assert FrameGood(c, f);
      }
    }
  }

  lemma KeptPins(c: State, c': State)
    requires Core(c) && Core(c') && PinsKept(c, c')
    ensures SamePins(c, c')
  {
    forall p {:trigger PinsOn(c', p)} {:trigger PinsOn(c, p)} ensures PinsOn(c', p) == PinsOn(c, p) {
      KeptPinsOn(c, c', p);
    }
  }

  /** One pin more on p. */
  ghost predicate PinAdded(c: State, p: PageId, c': State) {
    Counted(c, Some(p), None, c')
  }

  lemma LoadPins(c: State, p: PageId)
    requires Core(c) && p in c.disk.pages && p !in c.where && c.free != [] && c.free[0] < |c.frames|
    ensures PinAdded(c, p, Load(c, p))
  {
    var c' := Load(c, p);
    assert c.free[0] in c.free && FrameGood(c, c.free[0]);
    forall q {:trigger PinsOn(c', q)} {:trigger PinsOn(c, q)} ensures PinsOn(c', q) == PinsOn(c, q) + One(q == p) {
      if q in c.where {
        assert MapGood(c, q);
      }
    }
  }

  lemma PinAgainPins(c: State, p: PageId)
    requires Core(c) && p in c.where && c.where[p] < |c.frames|
    ensures PinAdded(c, p, PinAgain(c, p))
  {
    var c' := PinAgain(c, p);
    assert MapGood(c, p);
    forall q {:trigger PinsOn(c', q)} {:trigger PinsOn(c, q)} ensures PinsOn(c', q) == PinsOn(c, q) + One(q == p) {
      if q in c.where {
        assert MapGood(c, q);
      }
    }
  }

  lemma PinCounts(c: State, p: PageId)
    requires Good(c) && Pin(c, p).Some?
    ensures PinAdded(c, p, Pin(c, p).value)
  {
    if p in c.where {
      PinAgainPins(c, p);
    } else {
      RoomReady(c, p);
      var room := MakeRoom(c).value;
      KeptPins(c, room);
      LoadPins(room, p);
    }
  }

  lemma UnpinCounts(c: State, p: PageId)
    requires Good(c) && Unpin(c, p).Some?
    ensures CountsPins(c, UnpinPage(p), Unpin(c, p).value)
  {
    var c' := Unpin(c, p).value;
    assert MapGood(c, p);
    forall q {:trigger PinsOn(c', q)} {:trigger PinsOn(c, q)} ensures PinsOn(c', q) + One(q == p) == PinsOn(c, q) {
      if q in c.where {
        assert MapGood(c, q);
      }
    }
  }

  /** Frames differ in their dirty marks at most. */
  ghost predicate SameFrames(c: State, c': State) {
    && |c'.frames| == |c.frames|
    && (forall f: nat {:trigger c'.frames[f]} :: f < |c.frames| ==>
      c'.frames[f] == c.frames[f].(dirty := c'.frames[f].dirty))
  }

  /** The same pages in the same frames, the same frames free, in the same order. */
  ghost predicate SameLists(c: State, c': State) {
    c'.where == c.where && c'.free == c.free && c'.queue == c.queue && c'.bulk == c.bulk
  }

  ghost predicate SameCounters(c: State, c': State) {
    c'.pinned == c.pinned && c'.unpinned == c.unpinned
  }

  lemma SameFramesPins(c: State, c': State)
    requires SameFrames(c, c') && c'.where == c.where && SameCounters(c, c')
    ensures SamePins(c, c')
  {
    forall p {:trigger PinsOn(c', p)} {:trigger PinsOn(c, p)} ensures PinsOn(c', p) == PinsOn(c, p) {
    }
  }

  lemma FlushSame(c: State, f: nat)
    requires f < |c.frames|
    ensures SameFrames(c, Flush(c, f)) && SameLists(c, Flush(c, f)) && SameCounters(c, Flush(c, f))
  {
  }

  lemma {:induction false} FlushFromSame(c: State, i: nat)
    requires FlushFrom(c, i).Some?
    ensures var c' := FlushFrom(c, i).value; SameFrames(c, c') && SameLists(c, c') && SameCounters(c, c')
    decreases |c.frames| - i
  {
    if i < |c.frames| {
      var c1 := Flush(c, i);
      FlushSame(c, i);
      FlushFromSame(c1, i + 1);
      var c' := FlushFrom(c, i).value;
      forall f: nat {:trigger c'.frames[f]} | f < |c.frames|
        ensures c'.frames[f] == c.frames[f].(dirty := c'.frames[f].dirty)
      {
        assert c1.frames[f] == c.frames[f].(dirty := c1.frames[f].dirty);
      }
    }
  }

  lemma ResizePins(c: State, n: nat)
    requires Good(c) && Resize(c, n).Some?
    ensures SamePins(c, Resize(c, n).value)
  {
    var c' := Resize(c, n).value;
    FlushFromKeeps(c, 0);
    FlushFromSame(c, 0);
    forall p {:trigger PinsOn(c', p)} {:trigger PinsOn(c, p)} ensures PinsOn(c', p) == PinsOn(c, p) {
    }
  }

  lemma WritePins(c: State, p: PageId, data: Page)
    requires Write(c, p, data).Some?
    ensures SamePins(c, Write(c, p, data).value)
  {
    var c' := Write(c, p, data).value;
    forall q {:trigger PinsOn(c', q)} {:trigger PinsOn(c, q)} ensures PinsOn(c', q) == PinsOn(c, q) {
    }
  }

  lemma GrowPins(c: State, file: FileId, n: nat)
    ensures SamePins(c, Grow(c, file, n))
  {
  }

  lemma GrowFilePins(c: State, of: RecordType, n: nat, headers: nat)
    ensures SamePins(c, Grow(Grow(c, Records(of), n), Header(of), headers))
  {
    GrowPins(c, Records(of), n);
    GrowPins(Grow(c, Records(of), n), Header(of), headers);
  }

  lemma NewPageCounts(c: State, of: RecordType, headers: nat)
    requires Good(c) && NewPage(c, of, headers).Some?
    ensures PinAdded(c, PageId(Records(of), SizeOf(c.disk, Records(of))), NewPage(c, of, headers).value)
  {
    var grown := Grow(Grow(c, Records(of), 1), Header(of), headers);
    GrowKeeps(c, Records(of), 1);
    GrowKeeps(Grow(c, Records(of), 1), Header(of), headers);
    PinCounts(grown, PageId(Records(of), SizeOf(c.disk, Records(of))));
  }

  predicate Quiet(op: Op) {
    !op.PinPage? && !op.UnpinPage? && !op.AllocatePage?
  }

  lemma QuietKeepsPins(c: State, op: Op)
    requires Good(c) && Apply(c, op).Some? && Quiet(op)
    ensures SamePins(c, Apply(c, op).value)
  {
    match op
    case WritePage(p, data) => WritePins(c, p, data);
    case FlushPage(f) =>
      FlushSame(c, f);
      SameFramesPins(c, Flush(c, f));
    case FlushAllPages =>
      FlushFromSame(c, 0);
      SameFramesPins(c, FlushAll(c).value);
    case GrowFile(of, n, headers) => GrowFilePins(c, of, n, headers);
    case ChangeFrames(n) => ResizePins(c, n);
    case EvictPages =>
      EvictKeeps(c);
      KeptPins(c, Evict(c).value);
    case BulkEvictPages =>
      BulkEvictKeeps(c);
      KeptPins(c, BulkEvict(c).value);
    case SetBulk(on) =>
  }

  /** What every operation does to the pins of every page. */
  lemma PinsAfter(c: State, op: Op)
    requires Good(c) && Apply(c, op).Some?
    ensures CountsPins(c, op, Apply(c, op).value)
  {
    match op
    case PinPage(p) => PinCounts(c, p);
    case UnpinPage(p) => UnpinCounts(c, p);
    case AllocatePage(of, headers) => NewPageCounts(c, of, headers);
    case _ => QuietKeepsPins(c, op);
  }

  // ----- pins over runs -----------------------------------------------------------------------

  function UnpinCount(ops: seq<Op>, p: PageId): nat {
    if ops == [] then 0 else UnpinCount(ops[..|ops| - 1], p) + One(ops[|ops| - 1] == UnpinPage(p))
  }

  /** How often a run pins p. */
  function PinCount(c: State, ops: seq<Op>, p: PageId): nat {
    if ops == [] then 0
    else
      var k := |ops| - 1;
      PinCount(c, ops[..k], p) + One(Run(c, ops[..k]).Some? && PinnedBy(Run(c, ops[..k]).value, ops[k]) == Some(p))
  }

  /** After any run a page has as many pins as before, and one for each pin less one for each unpin. */
  lemma {:induction false} RunPins(c: State, ops: seq<Op>, p: PageId)
    requires Good(c) && Run(c, ops).Some?
    ensures PinsOn(Run(c, ops).value, p) + UnpinCount(ops, p) == PinsOn(c, p) + PinCount(c, ops, p)
  {
    if ops != [] {
      var k := |ops| - 1;
      RunPins(c, ops[..k], p);
      RunTransparent(c, ops[..k]);
      PinsAfter(Run(c, ops[..k]).value, ops[k]);
    }
  }

  /** A page that is pinned k times stays in its frame until it has been unpinned k times. */
  lemma {:induction false} StaysUntilLastUnpin(c: State, ops: seq<Op>, p: PageId, f: nat)
    requires Good(c) && Run(c, ops).Some? && PinnedIn(c, p, f) && UnpinCount(ops, p) < PinsOn(c, p)
    ensures PinnedIn(Run(c, ops).value, p, f)
  {
    if ops != [] {
      var k := |ops| - 1;
      StaysUntilLastUnpin(c, ops[..k], p, f);
      RunPins(c, ops, p);
      RunTransparent(c, ops[..k]);
      PinnedStays(Run(c, ops[..k]).value, ops[k], p, f);
      if ops[k] == UnpinPage(p) {
        UnpinInPlace(Run(c, ops[..k]).value, p);
      }
    }
  }

  lemma UnpinInPlace(c: State, p: PageId)
    requires Unpin(c, p).Some?
    ensures Unpin(c, p).value.where == c.where && |Unpin(c, p).value.frames| == |c.frames|
  {
  }

  // ----- growth ---------------------------------------------------------------------------------

  predicate Blank(page: Page) {
    |page| == 4096 && forall i :: 0 <= i < |page| ==> page[i] == 0
  }

  /** n blank pages more at the end of one file, and nothing else. */
  ghost predicate FileGrown(d: Disk, d': Disk, file: FileId, n: nat) {
    && (forall g {:trigger SizeOf(d', g)} :: SizeOf(d', g) == SizeOf(d, g) + if g == file then n else 0)
    && (forall p {:trigger p in d'.pages} :: p in d'.pages <==>
      p in d.pages || (p.file == file && SizeOf(d, file) <= p.no < SizeOf(d, file) + n))
    && (forall p {:trigger d'.pages[p]} :: p in d'.pages ==>
      if p in d.pages then d'.pages[p] == d.pages[p] else Blank(d'.pages[p]))
  }

  lemma AddPageGrows(d: Disk, file: FileId)
    requires Sized(d)
    ensures FileGrown(d, AddPage(d, file), file, 1)
  {
  }

  lemma FileGrownOn(a: Disk, b: Disk, c: Disk, file: FileId, n: nat)
    requires FileGrown(a, b, file, n) && FileGrown(b, c, file, 1)
    ensures FileGrown(a, c, file, n + 1)
  {
    forall p {:trigger c.pages[p]} | p in c.pages
      ensures if p in a.pages then c.pages[p] == a.pages[p] else Blank(c.pages[p])
    {
      if p in b.pages {
        assert c.pages[p] == b.pages[p];
      }
    }
    forall g {:trigger SizeOf(c, g)} ensures SizeOf(c, g) == SizeOf(a, g) + if g == file then n + 1 else 0 {
      assert SizeOf(b, g) == SizeOf(a, g) + if g == file then n else 0;
    }
  }

  /** Growing a file appends exactly so many blank pages. */
  lemma {:induction false} GrowDiskExact(d: Disk, file: FileId, n: nat)
    requires Sized(d)
    ensures FileGrown(d, GrowDisk(d, file, n), file, n)
  {
    if n > 0 {
      GrowDiskExact(d, file, n - 1);
      GrowDiskKeeps(d, file, n - 1);
      AddPageGrows(GrowDisk(d, file, n - 1), file);
      FileGrownOn(d, GrowDisk(d, file, n - 1), GrowDisk(d, file, n), file, n - 1);
    }
  }

  /** n blank pages more in a record file and `headers` in its header file, and nothing else. */
  ghost predicate RecordsGrown(d: Disk, d': Disk, of: RecordType, n: nat, headers: nat) {
    && SizeOf(d', Records(of)) == SizeOf(d, Records(of)) + n
    && SizeOf(d', Header(of)) == SizeOf(d, Header(of)) + headers
    && (forall g {:trigger SizeOf(d', g)} :: g != Records(of) && g != Header(of) ==> SizeOf(d', g) == SizeOf(d, g))
    && (forall p {:trigger p in d'.pages} :: p in d'.pages <==> p.no < SizeOf(d', p.file))
    && (forall p {:trigger p in d.pages} :: p in d.pages ==> p in d'.pages && d'.pages[p] == d.pages[p])
    && (forall p {:trigger d'.pages[p]} :: p in d'.pages && p !in d.pages ==> Blank(d'.pages[p]))
  }

  lemma GrownTwice(a: Disk, b: Disk, c: Disk, of: RecordType, n: nat, headers: nat)
    requires FileGrown(a, b, Records(of), n) && FileGrown(b, c, Header(of), headers) && Sized(c)
    ensures RecordsGrown(a, c, of, n, headers)
  {
    assert SizeOf(b, Header(of)) == SizeOf(a, Header(of)) && SizeOf(b, Records(of)) == SizeOf(a, Records(of)) + n;
    forall g {:trigger SizeOf(c, g)} | g != Records(of) && g != Header(of) ensures SizeOf(c, g) == SizeOf(a, g) {
      assert SizeOf(b, g) == SizeOf(a, g);
    }
    forall p {:trigger p in a.pages} | p in a.pages ensures p in c.pages && c.pages[p] == a.pages[p] {
      assert p in b.pages && b.pages[p] == a.pages[p];
    }
    forall p {:trigger c.pages[p]} | p in c.pages && p !in a.pages ensures Blank(c.pages[p]) {
      if p in b.pages {
        assert c.pages[p] == b.pages[p];
      }
    }
  }

  lemma RecordsGrow(d: Disk, of: RecordType, n: nat, headers: nat)
    requires Sized(d)
    ensures RecordsGrown(d, GrowDisk(GrowDisk(d, Records(of), n), Header(of), headers), of, n, headers)
  {
    var d1 := GrowDisk(d, Records(of), n);
    GrowDiskKeeps(d, Records(of), n);
    GrowDiskExact(d, Records(of), n);
    GrowDiskKeeps(d1, Header(of), headers);
    GrowDiskExact(d1, Header(of), headers);
    GrownTwice(d, d1, GrowDisk(d1, Header(of), headers), of, n, headers);
  }

  lemma ViewSized(c: State)
    requires Core(c)
    ensures Sized(View(c))
  {
    var v := View(c);
    forall p {:trigger p in v.pages} ensures p in v.pages <==> p.no < SizeOf(v, p.file) {
      assert p in c.disk.pages <==> p.no < SizeOf(c.disk, p.file);
    }
  }

  // ----- eviction -------------------------------------------------------------------------------

  /** The frames of a list that are not pinned, in the order of the list. */
  function UnpinnedIn(frames: seq<Frame>, q: seq<nat>): seq<nat> {
    if q == [] then []
    else (if q[0] < |frames| && frames[q[0]].pins == 0 then [q[0]] else []) + UnpinnedIn(frames, q[1..])
  }

  function FirstFew(q: seq<nat>, k: nat): seq<nat> {
    if |q| <= k then q else q[..k]
  }

  /** Least recently unpinned first, a batch of eleven; all of them with bulk import. */
  function Victims(c: State): seq<nat> {
    FirstFew(UnpinnedIn(c.frames, c.queue), 11)
  }

  function BulkVictims(c: State): seq<nat> {
    UnpinnedIn(c.frames, Iota(|c.frames|))
  }

  /** These frames have lost their pages and are free, in this order, and no other page has moved. */
  ghost predicate Evicted(c: State, c': State, victims: seq<nat>) {
    && c'.free == c.free + victims
    && (forall p {:trigger p in c'.where} :: p in c'.where <==> p in c.where && c.where[p] !in victims)
    && (forall p {:trigger c'.where[p]} :: p in c'.where ==> c'.where[p] == c.where[p])
  }

  lemma {:induction false} UnpinnedKept(frames: seq<Frame>, frames': seq<Frame>, q: seq<nat>)
    requires |frames'| == |frames| && forall f: nat {:trigger frames'[f]} ::
      f < |frames| ==> frames'[f].pins == frames[f].pins
    ensures UnpinnedIn(frames', q) == UnpinnedIn(frames, q)
  {
    if q != [] {
      UnpinnedKept(frames, frames', q[1..]);
    }
  }

  lemma {:induction false} UnpinnedMembers(frames: seq<Frame>, q: seq<nat>)
    ensures forall f :: f in UnpinnedIn(frames, q) <==> f in q && f < |frames| && frames[f].pins == 0
  {
    if q != [] {
      UnpinnedMembers(frames, q[1..]);
      assert q == [q[0]] + q[1..];
    }
  }

  lemma EvictFrameEvicts(c: State, f: nat)
    requires Core(c) && f < |c.frames| && c.frames[f].pins == 0 && c.frames[f].page.Some?
    ensures Evicted(c, EvictFrame(c, f), [f])
  {
    var c' := EvictFrame(c, f);
    assert FrameGood(c, f);
    forall p {:trigger p in c'.where} ensures p in c'.where <==> p in c.where && c.where[p] !in [f] {
      if p in c.where {
        assert MapGood(c, p);
      }
    }
  }

  lemma EvictedThen(a: State, b: State, c: State, f: nat, rest: seq<nat>)
    requires Evicted(a, b, [f]) && Evicted(b, c, rest)
    ensures Evicted(a, c, [f] + rest)
  {
    forall p {:trigger p in c.where} ensures p in c.where <==> p in a.where && a.where[p] !in [f] + rest {
      assert p in b.where <==> p in a.where && a.where[p] !in [f];
      if p in b.where {
        assert b.where[p] == a.where[p];
      }
    }
    forall p {:trigger c.where[p]} | p in c.where ensures c.where[p] == a.where[p] {
      assert p in b.where && b.where[p] == a.where[p];
    }
  }

  lemma EvictedNone(c: State)
    ensures Evicted(c, c, [])
  {
  }

  /** What the scan still has to pick from position i on. */
  function ToPick(c: State, i: nat, picked: seq<nat>): seq<nat>
    requires i <= |c.queue| && |picked| <= 11
  {
    FirstFew(UnpinnedIn(c.frames, c.queue[i..]), 11 - |picked|)
  }

  lemma ToPickStep(c: State, c': State, i: nat, picked: seq<nat>)
    requires i < |c.queue| && |picked| < 11 && c.queue[i] < |c.frames| && c.frames[c.queue[i]].pins == 0
    requires PinsKept(c, c') && c'.queue == c.queue
    ensures ToPick(c, i, picked) == [c.queue[i]] + ToPick(c', i + 1, picked + [i])
  {
    assert c.queue[i..][0] == c.queue[i] && c.queue[i..][1..] == c.queue[i + 1..];
    UnpinnedKept(c.frames, c'.frames, c.queue[i + 1..]);
  }

  lemma ToPickSkip(c: State, i: nat, picked: seq<nat>)
    requires i < |c.queue| && |picked| < 11 && c.queue[i] < |c.frames| && c.frames[c.queue[i]].pins > 0
    ensures ToPick(c, i, picked) == ToPick(c, i + 1, picked)
  {
    assert c.queue[i..][0] == c.queue[i] && c.queue[i..][1..] == c.queue[i + 1..];
  }

  /** The scan evicts the first unpinned frames of the queue, in order, up to the batch. */
  lemma {:induction false} ScanEvicts(c: State, i: nat, picked: seq<nat>)
    requires Scanning(c, i, picked) && |picked| < 11 && Scan(c, i, picked).Some?
    ensures Evicted(c, Scan(c, i, picked).value.0, ToPick(c, i, picked))
    decreases |c.queue| - i
  {
    if i == |c.queue| {
      EvictedNone(c);
    } else {
      ScanStep(c, i, picked);
      if c.frames[c.queue[i]].pins == 0 {
        var c' := EvictFrame(c, c.queue[i]);
        EvictFrameEvicts(c, c.queue[i]);
        EvictFramePins(c, c.queue[i]);
        ToPickStep(c, c', i, picked);
        if |picked| + 1 < 11 {
          ScanEvicts(c', i + 1, picked + [i]);
          EvictedThen(c, c', Scan(c, i, picked).value.0, c.queue[i], ToPick(c', i + 1, picked + [i]));
        }
      } else {
        ToPickSkip(c, i, picked);
        ScanEvicts(c, i + 1, picked);
      }
    }
  }

  lemma EvictEvicts(c: State)
    requires Good(c) && Evict(c).Some?
    ensures Evicted(c, Evict(c).value, Victims(c))
  {
    ScanEvicts(c, 0, []);
    assert c.queue[0..] == c.queue;
  }

  lemma {:induction false} BulkScanEvicts(c: State, i: nat)
    requires Core(c) && i <= |c.frames| && BulkScan(c, i).Some?
    ensures Evicted(c, BulkScan(c, i).value.0, UnpinnedIn(c.frames, Iota(|c.frames|)[i..]))
    decreases |c.frames| - i
  {
    var q := Iota(|c.frames|)[i..];
    if i == |c.frames| {
      EvictedNone(c);
    } else {
      assert q[0] == i && q[1..] == Iota(|c.frames|)[i + 1..];
      if c.frames[i].pins == 0 {
        var c' := EvictFrame(c, i);
        EvictFrameKeeps(c, i);
        EvictFrameEvicts(c, i);
        EvictFramePins(c, i);
        UnpinnedKept(c.frames, c'.frames, q[1..]);
        BulkScanEvicts(c', i + 1);
        EvictedThen(c, c', BulkScan(c, i).value.0, i, UnpinnedIn(c'.frames, q[1..]));
      } else {
        BulkScanEvicts(c, i + 1);
      }
    }
  }

  lemma BulkEvictEvicts(c: State)
    requires Good(c) && BulkEvict(c).Some?
    ensures Evicted(c, BulkEvict(c).value, BulkVictims(c)) && BulkEvict(c).value.queue == c.queue
  {
    BulkScanEvicts(c, 0);
    BulkScanKeeps(c, 0);
    assert Iota(|c.frames|)[0..] == Iota(|c.frames|);
  }

  // ----- the queue --------------------------------------------------------------------------------

  /** The elements that are not gone, in the same order. */
  function Leaving(q: seq<nat>, gone: seq<nat>): seq<nat> {
    if q == [] then [] else (if q[0] in gone then [] else [q[0]]) + Leaving(q[1..], gone)
  }

  lemma {:induction false} LeavingJoin(a: seq<nat>, b: seq<nat>, gone: seq<nat>)
    ensures Leaving(a + b, gone) == Leaving(a, gone) + Leaving(b, gone)
  {
    if a == [] {
      assert a + b == b;
    } else {
      assert (a + b)[1..] == a[1..] + b;
      LeavingJoin(a[1..], b, gone);
    }
  }

  lemma {:induction false} LeavingAll(q: seq<nat>, gone: seq<nat>)
    requires forall j :: 0 <= j < |q| ==> q[j] !in gone
    ensures Leaving(q, gone) == q
  {
    if q != [] {
      LeavingAll(q[1..], gone);
    }
  }

  lemma LeavingCut(q: seq<nat>, k: nat, gone: seq<nat>)
    requires k < |q| && q[k] in gone
    ensures Leaving(q[..k] + q[k + 1..], gone) == Leaving(q, gone)
  {
    assert q == q[..k] + ([q[k]] + q[k + 1..]);
    LeavingJoin(q[..k], [q[k]] + q[k + 1..], gone);
    LeavingJoin([q[k]], q[k + 1..], gone);
    LeavingJoin(q[..k], q[k + 1..], gone);
    assert [q[k]][1..] == [];
  }

  /** The positions picked are those of the elements gone. */
  ghost predicate PicksJust(q: seq<nat>, picked: seq<nat>, gone: seq<nat>) {
    forall j: nat {:trigger q[j]} :: j < |q| ==> (j in picked <==> q[j] in gone)
  }

  /** Removing the picked positions from back to front leaves the others in order. */
  lemma {:induction false} RemovePickedLeaves(q: seq<nat>, picked: seq<nat>, gone: seq<nat>)
    requires Climbing(picked, |q|) && PicksJust(q, picked, gone)
    ensures RemovePicked(q, picked) == Leaving(q, gone)
    decreases |picked|
  {
    if picked == [] {
      LeavingAll(q, gone);
    } else {
      var n := |picked| - 1;
      var k := picked[n];
      PicksFewer(q, picked, gone);
      RemovePickedLeaves(q[..k] + q[k + 1..], picked[..n], gone);
      LeavingCut(q, k, gone);
    }
  }

  lemma PicksFewer(q: seq<nat>, picked: seq<nat>, gone: seq<nat>)
    requires Climbing(picked, |q|) && PicksJust(q, picked, gone) && picked != []
    ensures var n := |picked| - 1; var k := picked[n];
      PicksJust(q[..k] + q[k + 1..], picked[..n], gone) && Climbing(picked[..n], |q| - 1)
  {
    var n := |picked| - 1;
    var k := picked[n];
    var q' := q[..k] + q[k + 1..];
    assert picked == picked[..n] + [k];
    forall j: nat {:trigger q'[j]} | j < |q'| ensures j in picked[..n] <==> q'[j] in gone {
      if j < k {
        assert q'[j] == q[j] && (j in picked <==> j in picked[..n]);
      } else {
        assert q'[j] == q[j + 1] && j + 1 !in picked && j !in picked[..n];
      }
    }
  }

  /** The positions that the scan adds are those of the frames it evicts. */
  lemma {:induction false} ScanPicksJust(c: State, i: nat, picked: seq<nat>)
    requires Scanning(c, i, picked) && |picked| < 11 && Scan(c, i, picked).Some?
    ensures var r := Scan(c, i, picked).value.1;
      forall j: nat {:trigger c.queue[j]} :: j < |c.queue| ==>
        (j in r <==> j in picked || c.queue[j] in ToPick(c, i, picked))
    decreases |c.queue| - i
  {
    if i < |c.queue| {
      ScanStep(c, i, picked);
      if c.frames[c.queue[i]].pins == 0 {
        var c' := EvictFrame(c, c.queue[i]);
        EvictFramePins(c, c.queue[i]);
        ToPickStep(c, c', i, picked);
        if |picked| + 1 < 11 {
          ScanPicksJust(c', i + 1, picked + [i]);
        }
      } else {
        ToPickSkip(c, i, picked);
        ScanPicksJust(c, i + 1, picked);
      }
    }
  }

  lemma EvictLeaves(c: State)
    requires Good(c) && Evict(c).Some?
    ensures Evict(c).value.queue == Leaving(c.queue, Victims(c))
  {
    ScanPicksJust(c, 0, []);
    ScanKeeps(c, 0, []);
    assert c.queue[0..] == c.queue;
    RemovePickedLeaves(c.queue, Scan(c, 0, []).value.1, Victims(c));
  }

  /**
   The queue after a frame was unpinned: the frame is last and the others are in the
   order they were in. Only the first one stays where it is, and if the frame was
   last already, the first one goes behind it.
   */
  ghost predicate Requeued(q: seq<nat>, q': seq<nat>, f: nat) {
    if q != [] && q[0] == f then q' == q
    else if q != [] && q[|q| - 1] == f then SentBack(q, q', q[0])
    else SentBack(q, q', f)
  }

  /** x is last, and the others are in the order they were in. */
  ghost predicate SentBack(q: seq<nat>, q': seq<nat>, x: nat) {
    q' != [] && q'[|q'| - 1] == x && Leaving(q', [x]) == Leaving(q, [x])
  }

  lemma {:induction false} WithoutLeaves(q: seq<nat>, f: nat)
    requires Distinct(q)
    ensures Leaving(q, [f]) == Without(q, f)
  {
    if q != [] {
      if q[0] == f {
        LeavingAll(q[1..], [f]);
      } else {
        WithoutLeaves(q[1..], f);
      }
    }
  }

  lemma LeavingLast(q: seq<nat>, f: nat)
    requires f !in q
    ensures Leaving(q + [f], [f]) == q
  {
    LeavingJoin(q, [f], [f]);
    LeavingAll(q, [f]);
    assert [f][1..] == [];
  }

  lemma MoveBackRequeues(q: seq<nat>, f: nat)
    requires Distinct(q)
    ensures Requeued(q, MoveBack(q, f), f)
  {
    if f !in q {
      NewSentBack(q, f);
    } else if q[0] != f && q[|q| - 1] == f {
      FirstSentBack(q);
    } else if q[0] != f {
      OldSentBack(q, f);
    }
  }

  lemma NewSentBack(q: seq<nat>, f: nat)
    requires f !in q
    ensures SentBack(q, q + [f], f)
  {
    LeavingLast(q, f);
    LeavingAll(q, [f]);
  }

  lemma FirstSentBack(q: seq<nat>)
    requires Distinct(q) && q != []
    ensures SentBack(q, q[1..] + [q[0]], q[0])
  {
    LeavingLast(q[1..], q[0]);
    LeavingAll(q[1..], [q[0]]);
  }

  lemma OldSentBack(q: seq<nat>, f: nat)
    requires Distinct(q)
    ensures SentBack(q, Without(q, f) + [f], f)
  {
    WithoutExact(q, f);
    WithoutLeaves(q, f);
    LeavingLast(Without(q, f), f);
  }

  // ----- everything else ------------------------------------------------------------------------

  /** Who has to go for p to come in. */
  function Outgoing(c: State, p: PageId): seq<nat> {
    if p in c.where || c.free != [] then [] else if c.bulk then BulkVictims(c) else Victims(c)
  }

  /** p is in the frame it had, or in the first one that is free, evictions included; no other page comes or moves. */
  ghost predicate Brought(c: State, p: PageId, c': State) {
    var free := c.free + Outgoing(c, p);
    && (forall q {:trigger q in c'.where} ::
      q in c'.where <==> q == p || (q in c.where && c.where[q] !in Outgoing(c, p)))
    && (forall q {:trigger c'.where[q]} :: q in c'.where && q in c.where ==> c'.where[q] == c.where[q])
    && (if p in c.where then c'.free == c.free else free != [] && c'.where[p] == free[0] && c'.free == free[1..])
    && c'.queue == (if c.bulk then c.queue else Leaving(c.queue, Outgoing(c, p)))
    && c'.bulk == c.bulk
  }

  /** The frame is clean, its page is on disk as readers saw it, and no other frame or page has changed. */
  ghost predicate WrittenBack(c: State, f: nat, c': State)
    requires f < |c.frames|
  {
    && c'.frames == c.frames[f := c.frames[f].(dirty := false)]
    && c'.disk.size == c.disk.size && c'.disk.pages.Keys == c.disk.pages.Keys
    && forall p {:trigger c'.disk.pages[p]} :: p in c.disk.pages ==>
      c'.disk.pages[p] == if c.frames[f].page == Some(p) then Look(c, p) else c.disk.pages[p]
  }

  /** Frames differ in their pins at most. */
  ghost predicate SameContents(c: State, c': State) {
    && |c'.frames| == |c.frames|
    && (forall f: nat {:trigger c'.frames[f]} :: f < |c.frames| ==>
      c'.frames[f] == c.frames[f].(pins := c'.frames[f].pins))
  }

  /** n blank frames, all of them free, and the files as readers saw them. */
  ghost predicate StartedOver(c: State, n: nat, c': State) {
    && |c'.frames| == n && c'.where == map[] && c'.queue == [] && c'.disk == View(c) && c'.bulk == c.bulk
    && Distinct(c'.free) && (forall f: nat :: f in c'.free <==> f < n)
    && (forall f: nat {:trigger c'.frames[f]} :: f < n ==> c'.frames[f].page.None? && c'.frames[f].pins == 0)
  }

  /** What becomes of frames, lists and files, operation by operation. */
  ghost predicate Settles(c: State, op: Op, c': State) {
    match op
    case PinPage(p) => Brought(c, p, c')
    case WritePage(p, data) => SameLists(c, c') && c'.disk == c.disk
    case UnpinPage(p) =>
      && c'.where == c.where && c'.free == c.free && c'.disk == c.disk && c'.bulk == c.bulk && SameContents(c, c')
      && p in c.where && (if c.bulk then c'.queue == c.queue else Requeued(c.queue, c'.queue, c.where[p]))
    case FlushPage(f) => f < |c.frames| && SameLists(c, c') && WrittenBack(c, f, c')
    case FlushAllPages =>
      && SameLists(c, c') && SameFrames(c, c') && c'.disk == View(c)
      && forall f: nat {:trigger c'.frames[f]} :: f < |c'.frames| ==> !c'.frames[f].dirty
    case AllocatePage(of, headers) =>
      && RecordsGrown(View(c), View(c'), of, 1, headers)
      && Brought(c, PageId(Records(of), SizeOf(c.disk, Records(of))), c')
    case GrowFile(of, n, headers) =>
      SameLists(c, c') && c'.frames == c.frames && RecordsGrown(View(c), View(c'), of, n, headers)
    case ChangeFrames(n) => StartedOver(c, n, c')
    case EvictPages => Evicted(c, c', Victims(c)) && c'.queue == Leaving(c.queue, Victims(c)) && c'.bulk == c.bulk
    case BulkEvictPages => Evicted(c, c', BulkVictims(c)) && c'.queue == c.queue && c'.bulk == c.bulk
    case SetBulk(on) => c'.bulk == on && c'.frames == c.frames && c'.disk == c.disk && SameLists(c, c'.(bulk := c.bulk))
  }

  lemma LoadBrings(c: State, room: State, p: PageId)
    requires p in room.disk.pages && p !in c.where && p !in room.where && room.free != []
    requires room.free[0] < |room.frames| && room.bulk == c.bulk
    requires Evicted(c, room, Outgoing(c, p))
    requires room.queue == if c.bulk then c.queue else Leaving(c.queue, Outgoing(c, p))
    ensures Brought(c, p, Load(room, p))
  {
    var c' := Load(room, p);
    forall q {:trigger c'.where[q]} | q in c'.where && q in c.where ensures c'.where[q] == c.where[q] {
      assert q != p && q in room.where && room.where[q] == c.where[q];
    }
    forall q {:trigger q in c'.where}
      ensures q in c'.where <==> q == p || (q in c.where && c.where[q] !in Outgoing(c, p))
    {
      assert q in room.where <==> q in c.where && c.where[q] !in Outgoing(c, p);
    }
  }

  lemma RoomMade(c: State, p: PageId)
    requires Good(c) && p in c.disk.pages && p !in c.where && MakeRoom(c).Some?
    ensures var room := MakeRoom(c).value;
      && Evicted(c, room, Outgoing(c, p))
      && room.queue == if c.bulk then c.queue else Leaving(c.queue, Outgoing(c, p))
  {
    if c.free != [] {
      EvictedNone(c);
      LeavingAll(c.queue, []);
    } else if c.bulk {
      BulkEvictEvicts(c);
    } else {
      EvictEvicts(c);
      EvictLeaves(c);
    }
  }

  lemma PinBrings(c: State, p: PageId)
    requires Good(c) && Pin(c, p).Some?
    ensures Brought(c, p, Pin(c, p).value)
  {
    if p in c.where {
      LeavingAll(c.queue, []);
    } else {
      RoomReady(c, p);
      RoomMade(c, p);
      LoadBrings(c, MakeRoom(c).value, p);
    }
  }

  lemma FlushWritesBack(c: State, f: nat)
    requires Core(c) && f < |c.frames|
    ensures WrittenBack(c, f, Flush(c, f))
  {
    var c' := Flush(c, f);
    assert FrameGood(c, f);
    forall p {:trigger c'.disk.pages[p]} | p in c.disk.pages
      ensures c'.disk.pages[p] == if c.frames[f].page == Some(p) then Look(c, p) else c.disk.pages[p]
    {
    }
  }

  lemma FlushAllSettles(c: State)
    requires Good(c) && FlushAll(c).Some?
    ensures Settles(c, FlushAllPages, FlushAll(c).value)
  {
    FlushFromKeeps(c, 0);
    FlushFromSame(c, 0);
    CleanMeansDisk(FlushAll(c).value);
  }

  lemma IotaMembers(n: nat)
    ensures Distinct(Iota(n)) && forall f: nat :: f in Iota(n) <==> f < n
  {
    forall f: nat | f < n ensures f in Iota(n) {
      assert Iota(n)[f] == f;
    }
  }

  lemma ResizeSettles(c: State, n: nat)
    requires Good(c) && Resize(c, n).Some?
    ensures StartedOver(c, n, Resize(c, n).value)
  {
    ResizeKeeps(c, n);
    IotaMembers(n);
  }

  lemma GrowSettles(c: State, of: RecordType, n: nat, headers: nat)
    requires Good(c)
    ensures RecordsGrown(View(c), View(Grow(Grow(c, Records(of), n), Header(of), headers)), of, n, headers)
    ensures Good(Grow(Grow(c, Records(of), n), Header(of), headers))
  {
    GrowKeeps(c, Records(of), n);
    GrowKeeps(Grow(c, Records(of), n), Header(of), headers);
    ViewSized(c);
    RecordsGrow(View(c), of, n, headers);
  }

  lemma NewPageSettles(c: State, of: RecordType, headers: nat)
    requires Good(c) && NewPage(c, of, headers).Some?
    ensures Settles(c, AllocatePage(of, headers), NewPage(c, of, headers).value)
  {
    var grown := Grow(Grow(c, Records(of), 1), Header(of), headers);
    var p := PageId(Records(of), SizeOf(c.disk, Records(of)));
    GrowSettles(c, of, 1, headers);
    PinKeeps(grown, p);
    PinBrings(grown, p);
    assert Outgoing(grown, p) == Outgoing(c, p);
  }

  /** What every operation leaves behind. */
  lemma SettlesAfter(c: State, op: Op)
    requires Good(c) && Apply(c, op).Some?
    ensures Settles(c, op, Apply(c, op).value)
  {
    match op
    case PinPage(p) => PinBrings(c, p);
    case WritePage(p, data) =>
    case UnpinPage(p) => MoveBackRequeues(c.queue, c.where[p]);
    case FlushPage(f) =>
      FlushSame(c, f);
      FlushWritesBack(c, f);
    case FlushAllPages => FlushAllSettles(c);
    case AllocatePage(of, headers) => NewPageSettles(c, of, headers);
    case GrowFile(of, n, headers) => GrowSettles(c, of, n, headers);
    case ChangeFrames(n) => ResizeSettles(c, n);
    case EvictPages =>
      EvictEvicts(c);
      EvictLeaves(c);
      EvictKeeps(c);
    case BulkEvictPages =>
      BulkEvictEvicts(c);
      BulkEvictKeeps(c);
    case SetBulk(on) =>
  }
}
