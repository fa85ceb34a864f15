/**
 The page cache itself: its operations update frames, page map, free list and
 queue in place. Each is shown to compute the state transition of the same name.
 */
module PageCache {
  import opened Graph
  import opened CacheState
  import opened CacheEffects

  /**
   The operation went through exactly when the transition exists, and left its
   state. Readers see its effect, it has counted its pins, and everything else is
   as Settles says.
   */
  ghost predicate Performed(c: State, op: Op, ok: bool, c': State) {
    && (ok <==> Apply(c, op).Some?)
    && (ok ==> Apply(c, op) == Some(c') && Good(c') && View(c') == Effect(View(c), op))
    && (ok ==> CountsPins(c, op, c') && Settles(c, op, c'))
  }

  lemma Performs(c: State, op: Op, ok: bool, c': State)
    requires Good(c) && (ok <==> Apply(c, op).Some?) && (ok ==> Apply(c, op).value == c')
    ensures Performed(c, op, ok, c')
  {
    if ok {
      ApplyTransparent(c, op);
      PinsAfter(c, op);
      SettlesAfter(c, op);
    }
  }

  class PageCache {
    var frames: array<Frame>
    var where: map<PageId, nat>
    var free: seq<nat>
    var queue: seq<nat>
    var disk: Disk
    var pinned: nat
    var unpinned: nat
    var bulk: bool

    ghost function Now(): State
      reads this, frames
    {
      State(frames[..], where, free, queue, disk, pinned, unpinned, bulk)
    }

    constructor (disk: Disk, n: nat)
      requires Sized(disk)
      ensures Now() == Fresh(disk, n, 0, 0, false) && Good(Now()) && View(Now()) == disk && fresh(frames)
    {
      this.disk := disk;
      bulk := false;
      frames := new Frame[n](_ => EmptyFrame());
      where, free, queue, pinned, unpinned := map[], Iota(n), [], 0, 0;
      new;
      assert frames[..] == EmptyFrames(n);
      FreshGood(disk, n, 0, false);
    }

    /** Write a dirty frame to its file. */
    method WriteBack(f: nat)
      requires f < frames.Length && (frames[f].dirty ==> frames[f].page.Some?)
      modifies this`disk, frames
      ensures Now() == Flush(old(Now()), f)
    {
      if frames[f].dirty {
        disk := disk.(pages := disk.pages[frames[f].page.value := frames[f].data]);
        frames[f] := frames[f].(dirty := false);
      }
    }

    /** Flush a frame and free it. */
    method FreeFrame(f: nat)
      requires f < frames.Length && frames[f].page.Some?
      modifies this`disk, this`where, this`free, frames
      ensures Now() == EvictFrame(old(Now()), f)
    {
      WriteBack(f);
      where := where - {frames[f].page.value};
      free := free + [f];
      frames[f] := frames[f].(page := None, data := ZeroPage());
    }

    /**
     Free a batch of unpinned frames in queue order, then take them out of the
     queue, back to front. Not getting through includes a queued frame that is
     free, for which the program would look outside its page maps.
     */
    method Evict() returns (ok: bool)
      requires Good(Now())
      modifies this`disk, this`where, this`free, this`queue, frames
      ensures Performed(old(Now()), Op.EvictPages, ok, Now())
    {
      ghost var c := Now();
      var picked;
      ok, picked := EvictScan();
      if ok {
        DropPicked(picked);
        ok := picked != [];
      }
      Performs(c, Op.EvictPages, ok, Now());
    }

    /** Remove the picked positions, from back to front so that the others do not move. */
    method DropPicked(picked: seq<nat>)
      requires Climbing(picked, |queue|)
      modifies this`queue
      ensures queue == RemovePicked(old(queue), picked)
    {
      assert picked[..|picked|] == picked;
      for i := 0 to |picked|
        invariant |queue| + i == old(|queue|)
        invariant RemovePicked(queue, picked[..|picked| - i]) == RemovePicked(old(queue), picked)
      {
        var k := picked[|picked| - 1 - i];
        ClimbingRoom(picked, old(|queue|), |picked| - 1 - i);
        assert picked[..|picked| - i][..|picked| - i - 1] == picked[..|picked| - i - 1];
        queue := queue[..k] + queue[k + 1..];
      }
    }

    /** The first loop of the eviction. */
    method EvictScan() returns (ok: bool, picked: seq<nat>)
      requires Good(Now())
      modifies this`disk, this`where, this`free, frames
      ensures ok <==> Scan(old(Now()), 0, []).Some?
      ensures ok ==> Some((Now(), picked)) == Scan(old(Now()), 0, []) && Climbing(picked, |queue|)
    {
      ghost var c := Now();
      picked := [];
      var i := 0;
      while i < |queue|
        invariant i <= |queue| && Scanning(Now(), i, picked) && |picked| < EVICT_LRU_K
        invariant Scan(c, 0, []) == Scan(Now(), i, picked)
      {
        var candidate := queue[i];
        ScanStep(Now(), i, picked);
        if frames[candidate].pins == 0 {
          if frames[candidate].page.None? {
            return false, picked;
          }
          FreeFrame(candidate);
          picked := picked + [i];
          if |picked| >= EVICT_LRU_K {
            return true, picked;
          }
        }
        i := i + 1;
      }
      ok := true;
    }

    /** Free every unpinned frame; a free one among them is no good here either. */
    method BulkEvict() returns (ok: bool)
      requires Good(Now())
      modifies this`disk, this`where, this`free, frames
      ensures Performed(old(Now()), Op.BulkEvictPages, ok, Now())
    {
      ghost var c := Now();
      var evicted;
      ok, evicted := BulkEvictScan();
      ok := ok && evicted != 0;
      Performs(c, Op.BulkEvictPages, ok, Now());
    }

    method BulkEvictScan() returns (ok: bool, evicted: nat)
      requires Core(Now())
      modifies this`disk, this`where, this`free, frames
      ensures ok <==> BulkScan(old(Now()), 0).Some?
      ensures ok ==> Some((Now(), evicted)) == BulkScan(old(Now()), 0)
    {
      ghost var c := Now();
      evicted := 0;
      for i := 0 to frames.Length
        invariant Core(Now())
        invariant BulkScan(c, 0).Some? <==> BulkScan(Now(), i).Some?
        invariant BulkScan(c, 0).Some? ==>
          BulkScan(c, 0).value.0 == BulkScan(Now(), i).value.0
          && BulkScan(c, 0).value.1 == evicted + BulkScan(Now(), i).value.1
      {
        if frames[i].pins == 0 {
          if frames[i].page.None? {
            return false, evicted;
          }
          EvictFrameKeeps(Now(), i);
          FreeFrame(i);
          evicted := evicted + 1;
        }
      }
      ok := true;
    }

    /** What the importer does before and after its run. */
    method SetBulkImport(on: bool) returns (ok: bool)
      requires Good(Now())
      modifies this`bulk
      ensures Performed(old(Now()), Op.SetBulk(on), ok, Now())
    {
      ghost var c := Now();
      bulk := on;
      ok := true;
      Performs(c, Op.SetBulk(on), ok, Now());
    }

    /** Bring a page into a frame, if it is in none, and count one pin more. */
    method PinPage(p: PageId) returns (ok: bool)
      requires Good(Now())
      modifies this`disk, this`where, this`free, this`queue, this`pinned, frames
      ensures Performed(old(Now()), Op.PinPage(p), ok, Now())
      ensures ok ==> PinAdded(old(Now()), p, Now())
    {
      ghost var c := Now();
      if Pin(c, p).Some? {
        PinCounts(c, p);
      }
      if p !in disk.pages {
        ok := false;
      } else if p in where {
        assert MapGood(c, p);
        var f := where[p];
        frames[f] := frames[f].(pins := frames[f].pins + 1);
        pinned := pinned + 1;
        ok := true;
      } else {
        ok := LoadPage(p);
      }
      Performs(c, Op.PinPage(p), ok, Now());
    }

    method LoadPage(p: PageId) returns (ok: bool)
      requires Good(Now()) && p in disk.pages && p !in where
      modifies this`disk, this`where, this`free, this`queue, this`pinned, frames
      ensures ok <==> Pin(old(Now()), p).Some?
      ensures ok ==> Some(Now()) == Pin(old(Now()), p)
    {
      RoomReady(Now(), p);
      ok := MakeRoom();
      if ok {
        ReadIn(p);
      }
    }

    /** Take the first free frame and read the page into it. */
    method ReadIn(p: PageId)
      requires p in disk.pages && free != [] && free[0] < frames.Length
      modifies this`where, this`free, this`pinned, frames
      ensures Now() == Load(old(Now()), p)
    {
      var f := free[0];
      free := free[1..];
      frames[f] := Frame(Some(p), 1, false, disk.pages[p]);
      where := where[p := f];
      pinned := pinned + 1;
    }

    /** Evict if no frame is free. */
    method MakeRoom() returns (ok: bool)
      requires Good(Now())
      modifies this`disk, this`where, this`free, this`queue, frames
      ensures ok <==> CacheState.MakeRoom(old(Now())).Some?
      ensures ok ==> Some(Now()) == CacheState.MakeRoom(old(Now()))
    {
      ok := true;
      if |free| == 0 {
        if bulk {
          ok := BulkEvict();
        } else {
          ok := Evict();
        }
      }
    }

    method UnpinPage(p: PageId) returns (ok: bool)
      requires Good(Now())
      modifies this`queue, this`unpinned, frames
      ensures Performed(old(Now()), Op.UnpinPage(p), ok, Now())
    {
      ghost var c := Now();
      ok := false;
      if p in where {
        assert MapGood(c, p);
        var f := where[p];
        if frames[f].pins != 0 {
          frames[f] := frames[f].(pins := frames[f].pins - 1);
          if !bulk {
            queue := MoveBack(queue, f);
          }
          unpinned := unpinned + 1;
          ok := true;
        }
      }
      Performs(c, Op.UnpinPage(p), ok, Now());
    }

    /** What clients do with a page they have pinned. */
    method WritePage(p: PageId, data: Page) returns (ok: bool)
      requires Good(Now())
      modifies frames
      ensures Performed(old(Now()), Op.WritePage(p, data), ok, Now())
    {
      ghost var c := Now();
      ok := false;
      if p in where {
        assert MapGood(c, p);
        var f := where[p];
        if frames[f].pins != 0 {
          frames[f] := frames[f].(data := data, dirty := true);
          ok := true;
        }
      }
      Performs(c, Op.WritePage(p, data), ok, Now());
    }

    method FlushPage(f: nat) returns (ok: bool)
      requires Good(Now()) && f < frames.Length
      modifies this`disk, frames
      ensures Performed(old(Now()), Op.FlushPage(f), ok, Now())
    {
      ghost var c := Now();
      assert FrameGood(c, f);
      ok := frames[f].pins == 0;
      if ok {
        WriteBack(f);
      }
      Performs(c, Op.FlushPage(f), ok, Now());
    }

    method FlushAllPages() returns (ok: bool)
      requires Good(Now())
      modifies this`disk, frames
      ensures Performed(old(Now()), Op.FlushAllPages, ok, Now())
      ensures ok ==> disk == View(old(Now()))
    {
      ghost var c := Now();
      FlushFromKeeps(c, 0);
      if FlushAll(c).Some? {
        CleanMeansDisk(FlushAll(c).value);
      }
      ok := FlushFrames();
      Performs(c, Op.FlushAllPages, ok, Now());
    }

    method FlushFrames() returns (ok: bool)
      requires Core(Now())
      modifies this`disk, frames
      ensures ok <==> FlushAll(old(Now())).Some?
      ensures ok ==> Some(Now()) == FlushAll(old(Now()))
    {
      ghost var c := Now();
      for i := 0 to frames.Length
        invariant Core(Now()) && FlushAll(c) == FlushFrom(Now(), i)
      {
        assert FrameGood(Now(), i);
        if frames[i].pins > 0 {
          return false;
        }
        FlushKeeps(Now(), i);
        WriteBack(i);
      }
      ok := true;
    }

    /** Allocate a page at the end of a record file, with the header pages it needs, and pin it. */
    method NewPage(of: RecordType, headers: nat) returns (ok: bool)
      requires Good(Now())
      modifies this`disk, this`where, this`free, this`queue, this`pinned, frames
      ensures Performed(old(Now()), Op.AllocatePage(of, headers), ok, Now())
      ensures ok ==> RecordsGrown(View(old(Now())), View(Now()), of, 1, headers)
      ensures ok ==> PinAdded(old(Now()), PageId(Records(of), old(SizeOf(disk, Records(of)))), Now())
    {
      ghost var c := Now();
      if CacheState.NewPage(c, of, headers).Some? {
        NewPageCounts(c, of, headers);
        NewPageSettles(c, of, headers);
      }
      GrowKeeps(c, Records(of), 1);
      GrowKeeps(Grow(c, Records(of), 1), Header(of), headers);
      var p := PageId(Records(of), SizeOf(disk, Records(of)));
      disk := GrowDisk(disk, Records(of), 1);
      disk := GrowDisk(disk, Header(of), headers);
      ok := PinPage(p);
      Performs(c, Op.AllocatePage(of, headers), ok, Now());
    }

    /** Allocate n record pages, with the header pages they need, and pin none of them. */
    method AllocatePages(of: RecordType, n: nat, headers: nat) returns (ok: bool)
      requires Good(Now())
      modifies this`disk
      ensures Performed(old(Now()), Op.GrowFile(of, n, headers), ok, Now())
      ensures ok && RecordsGrown(View(old(Now())), View(Now()), of, n, headers)
    {
      ghost var c := Now();
      GrowSettles(c, of, n, headers);
      disk := GrowDisk(disk, Records(of), n);
      disk := GrowDisk(disk, Header(of), headers);
      ok := true;
      Performs(c, Op.GrowFile(of, n, headers), ok, Now());
    }

    /**
     Flush everything and start over with n empty frames. The memory of the frames
     is released through the first of them, so there has to be one.
     */
    method ChangeFrames(n: nat) returns (ok: bool)
      requires Good(Now())
      modifies this`disk, this`where, this`free, this`queue, this`frames, frames
      ensures Performed(old(Now()), Op.ChangeFrames(n), ok, Now())
    {
      ghost var c := Now();
      ok := FlushAllPages();
      ok := ok && frames.Length > 0;
      if ok {
        frames := new Frame[n](_ => EmptyFrame());
        assert frames[..] == EmptyFrames(n);
        where, free, queue := map[], Iota(n), [];
      }
      Performs(c, Op.ChangeFrames(n), ok, Now());
    }
  }
}
