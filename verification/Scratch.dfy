/**
 The scratch database on which new record positions are numbered. Its cache has a
 frame for each header page that the relationships need, so with no relationships
 it has none, and opening a heap file on it fails.
 */
module Scratch {
  import opened Slots
  import opened CacheState
  import opened PageCache

  /** Frames of the scratch cache: as many as header pages are needed for n relationships. */
  function ScratchFrames(n: nat): nat {
    CeilDiv(REL_STRIDE * n, 32768)
  }

  lemma ScratchFramesZero(n: nat)
    ensures ScratchFrames(n) == 0 <==> n == 0
  {
  }

  /** The files of a new database, a header page each, with so many header pages more. */
  function ScratchDisk(more: nat): Disk {
    GrowDisk(GrowDisk(GrowDisk(Disk(map[], map[]), Header(NodeFile), 1), Header(RelationshipFile), 1),
             Header(RelationshipFile), more)
  }

  lemma ScratchSized(more: nat)
    ensures Sized(ScratchDisk(more)) && FIRST_PAGE in ScratchDisk(more).pages
  {
    var nodes := GrowDisk(Disk(map[], map[]), Header(NodeFile), 1);
    GrowDiskKeeps(Disk(map[], map[]), Header(NodeFile), 1);
    assert nodes == AddPage(GrowDisk(Disk(map[], map[]), Header(NodeFile), 0), Header(NodeFile));
    GrowDiskKeeps(nodes, Header(RelationshipFile), 1);
    GrowDiskKeeps(GrowDisk(nodes, Header(RelationshipFile), 1), Header(RelationshipFile), more);
  }

  /** The page that opening a heap file looks at first. */
  const FIRST_PAGE: PageId := PageId(Header(NodeFile), 0)

  /** A cache without frames cannot serve that page; a cache with one can. */
  lemma ScratchOpens(frames: nat)
    ensures var c := Fresh(ScratchDisk(frames), frames, 0, 0, false);
      Good(c) && (Pin(c, FIRST_PAGE).Some? <==> frames > 0)
  {
    ScratchSized(frames);
    FreshPins(ScratchDisk(frames), frames, FIRST_PAGE);
  }

  /** Make a scratch database and its cache, and open a heap file on it. */
  method OpenScratch(n: nat) returns (ok: bool)
    ensures ok <==> n > 0
  {
    var frames := ScratchFrames(n);
    ScratchFramesZero(n);
    ScratchSized(frames);
    ScratchOpens(frames);
    var cache := new PageCache(ScratchDisk(frames), frames);
    ok := cache.PinPage(FIRST_PAGE);
  }
}
