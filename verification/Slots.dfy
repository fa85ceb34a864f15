/**
 The slot bitmap of one record file and its first-fit allocator. A record file
 is a number of 256-slot pages; header page h holds the bits of the slots
 32768*h .. 32768*h + 32767. A record occupies `stride` consecutive slots (one
 for a node, four for a relationship), its id is its first slot, and it exists
 when all its bits are set.
 */
module Slots {
  import opened HeaderPage
  import opened BitWrites

  const NODE_STRIDE: nat := 1
  const REL_STRIDE: nat := 4

  const PAGE_SIZE: nat := 4096

  /** Slots in so many record pages: 4096-byte pages of 16-byte slots. */
  function Capacity(pages: nat): nat {
    256 * pages
  }

  /** Bits in so many header pages. */
  function HeaderBits(headerPages: nat): nat {
    32768 * headerPages
  }

  /** A position at which a record may start. */
  predicate Aligned(id: nat, stride: nat)
    requires stride > 0
  {
    id % stride == 0
  }

  // ----- header pages grow with the record file --------------------------------

  function CeilDiv(a: nat, b: nat): nat
    requires b > 0
  {
    a / b + (if a % b != 0 then 1 else 0)
  }

  /** Header pages to add when `extra` more bits are needed than remain. */
  function HeaderGrowth(extra: nat): nat {
    CeilDiv(CeilDiv(extra, 8), 4096)
  }

  lemma HeaderGrowthSuffices(extra: nat)
    ensures HeaderBits(HeaderGrowth(extra)) >= extra
    ensures extra > 0 ==> HeaderGrowth(extra) > 0 && HeaderBits(HeaderGrowth(extra) - 1) < extra
  {
    var bytes := CeilDiv(extra, 8);
    assert bytes * 8 >= extra;
  }

  /** The id of a record position, split into page and slot. */
  predicate Position(page: nat, slot: nat, id: nat, stride: nat)
    requires stride > 0
  {
    slot < 256 && Aligned(slot, stride) && id == 256 * page + slot
  }

  lemma PositionAligned(page: nat, slot: nat, id: nat, stride: nat)
    requires (stride == 1 || stride == 4) && Position(page, slot, id, stride)
    ensures Aligned(id, stride) && slot % 256 <= (slot + (stride - 1)) % 256
  {
    assert slot + (stride - 1) < 256;
  }

  lemma PositionOf(id: nat, stride: nat)
    requires (stride == 1 || stride == 4) && Aligned(id, stride)
    ensures Position(id / 256, id % 256, id, stride)
  {
  }

  /** The order in which the scans visit ids: the next record in the page, else the next page. */
  method NextRecord(page: nat, slot: nat, id: nat, stride: nat) returns (page': nat, slot': nat)
    requires (stride == 1 || stride == 4) && Position(page, slot, id, stride)
    ensures Position(page', slot', id + stride, stride)
  {
    assert slot + stride <= 256;
    if (slot + stride) % 256 < slot % 256 {
      page', slot' := page + 1, 0;
    } else {
      page', slot' := page, slot + stride;
    }
  }

  lemma OnlyPosition(id: nat, stride: nat)
    requires (stride == 1 || stride == 4) && Aligned(id, stride)
    ensures Aligned(id + stride, stride)
    ensures forall j: nat :: id <= j < id + stride && Aligned(j, stride) ==> j == id
  {
  }

  ghost predicate Ascending(ids: seq<nat>) {
    forall i, j :: 0 <= i < j < |ids| ==> ids[i] < ids[j]
  }

  // ----- header pages ---------------------------------------------------------------

  function BlankPage(): (page: seq<Byte>)
    ensures |page| == PAGE_SIZE && forall i :: 0 <= i < |page| ==> page[i] == 0
  {
    seq(PAGE_SIZE, _ => 0)
  }

  /** The header pages say that a record exists at id. */
  predicate MarkedIn(headers: seq<seq<Byte>>, stride: nat, id: nat) {
    && id / 32768 < |headers| && id % 32768 + stride <= 8 * |headers[id / 32768]|
    && Marked(headers[id / 32768], stride, id % 32768)
  }

  /** The bits of the header pages are set for exactly the records in `used`. */
  ghost predicate Recorded(headers: seq<seq<Byte>>, stride: nat, used: set<nat>)
    requires stride > 0
  {
    && (forall h :: 0 <= h < |headers| ==> |headers[h]| == PAGE_SIZE)
    && (forall id: nat {:trigger MarkedIn(headers, stride, id)} :: id < HeaderBits(|headers|) && Aligned(id, stride) ==>
      (id in used <==> MarkedIn(headers, stride, id)))
  }

  /** The header pages after the bits of one record position were written. */
  function Rewritten(headers: seq<seq<Byte>>, stride: nat, id: nat, taken: bool): seq<seq<Byte>>
    requires id / 32768 < |headers| && Fits(headers[id / 32768], id % 32768, stride, [Marks(taken)])
  {
    headers[id / 32768 := Written(headers[id / 32768], id % 32768, stride, [Marks(taken)])]
  }

  lemma PositionsInPage(id: nat, stride: nat)
    requires (stride == 1 || stride == 4) && Aligned(id, stride)
    ensures id % 32768 % stride == 0 && id % 32768 + stride <= 32768
  {
  }

  lemma RecordFits(headers: seq<seq<Byte>>, stride: nat, used: set<nat>, id: nat, taken: bool)
    requires (stride == 1 || stride == 4) && Aligned(id, stride) && id < HeaderBits(|headers|)
    requires Recorded(headers, stride, used)
    ensures id / 32768 < |headers| && Fits(headers[id / 32768], id % 32768, stride, [Marks(taken)])
  {
    PositionsInPage(id, stride);
    MarksFit(headers[id / 32768], stride, id % 32768, taken);
  }

  /** Writing the bits of one position adds or removes exactly that record. */
  lemma RewrittenRecords(headers: seq<seq<Byte>>, stride: nat, used: set<nat>, id: nat, taken: bool)
    requires (stride == 1 || stride == 4) && Aligned(id, stride) && id < HeaderBits(|headers|)
    requires Recorded(headers, stride, used)
    ensures id / 32768 < |headers| && Fits(headers[id / 32768], id % 32768, stride, [Marks(taken)])
    ensures Recorded(Rewritten(headers, stride, id, taken), stride, if taken then used + {id} else used - {id})
  {
    RecordFits(headers, stride, used, id, taken);
    var headers', used' := Rewritten(headers, stride, id, taken), if taken then used + {id} else used - {id};
    forall other: nat {:trigger MarkedIn(headers', stride, other)}
      | other < HeaderBits(|headers'|) && Aligned(other, stride)
      ensures other in used' <==> MarkedIn(headers', stride, other)
    {
      RewrittenAt(headers, stride, used, id, taken, other);
    }
  }

  lemma RewrittenAt(headers: seq<seq<Byte>>, stride: nat, used: set<nat>, id: nat, taken: bool, other: nat)
    requires (stride == 1 || stride == 4) && Aligned(id, stride) && id < HeaderBits(|headers|)
    requires Aligned(other, stride) && other < HeaderBits(|headers|) && Recorded(headers, stride, used)
    ensures id / 32768 < |headers| && Fits(headers[id / 32768], id % 32768, stride, [Marks(taken)])
    ensures MarkedIn(Rewritten(headers, stride, id, taken), stride, other) <==>
      if other == id then taken else MarkedIn(headers, stride, other)
  {
    RecordFits(headers, stride, used, id, taken);
    PositionsInPage(id, stride);
    PositionsInPage(other, stride);
    if other / 32768 == id / 32768 {
      WriteMarks(headers[id / 32768], stride, id % 32768, taken, other % 32768);
      assert other % 32768 == id % 32768 ==> other == id;
    }
  }

  lemma BlankUnmarked(stride: nat, offset: nat)
    requires 1 <= stride <= 8 && offset + stride <= 32768
    ensures !Marked(BlankPage(), stride, offset)
  {
    MarkedIffAllSet(BlankPage(), stride, offset);
    BitOfZero(7 - offset % 8);
    assert !BitAt(BlankPage(), offset);
  }

  function BlankPages(n: nat): (pages: seq<seq<Byte>>)
    ensures |pages| == n && forall h :: 0 <= h < n ==> pages[h] == BlankPage()
  {
    seq(n, _ => BlankPage())
  }

  /** Blank header pages at the end record nothing new. */
  lemma BlankRecords(headers: seq<seq<Byte>>, stride: nat, used: set<nat>, n: nat)
    requires (stride == 1 || stride == 4) && Recorded(headers, stride, used)
    requires forall id :: id in used ==> id < HeaderBits(|headers|)
    ensures Recorded(headers + BlankPages(n), stride, used)
  {
    var headers' := headers + BlankPages(n);
    forall id: nat {:trigger MarkedIn(headers', stride, id)} | id < HeaderBits(|headers'|) && Aligned(id, stride)
      ensures id in used <==> MarkedIn(headers', stride, id)
    {
      if id < HeaderBits(|headers|) {
        assert headers'[id / 32768] == headers[id / 32768];
        assert MarkedIn(headers, stride, id) <==> MarkedIn(headers', stride, id);
      } else {
        PositionsInPage(id, stride);
        BlankUnmarked(stride, id % 32768);
        assert headers'[id / 32768] == BlankPage();
      }
    }
  }

  /** Pin a header page, write the bits of one record, and unpin it. */
  method WriteToPage(page: seq<Byte>, id: nat, stride: nat, taken: bool) returns (page': seq<Byte>)
    requires |page| == PAGE_SIZE && Fits(page, id % 32768, stride, [Marks(taken)])
    ensures page' == Written(page, id % 32768, stride, [Marks(taken)])
  {
    var frame := new Byte[|page|](i requires 0 <= i < |page| => page[i]);
    assert frame[..] == page;
    var byteOffset, bitOffset := id / 8 % 4096, id % 8;
    assert 8 * byteOffset + bitOffset == id % 32768;
    WriteBits(frame, byteOffset, bitOffset, stride, [Marks(taken)]);
    page' := frame[..];
  }

  class SlotFile {
    const stride: nat
    var headers: seq<seq<Byte>>
    var pages: nat           // record pages
    var remaining: nat       // header bits not yet backed by a record slot
    var last: nat            // where the next scan starts
    ghost var used: set<nat> // the ids of the records

    ghost predicate Valid()
      reads this
    {
      && (stride == NODE_STRIDE || stride == REL_STRIDE)
      && (forall id :: id in used ==> Aligned(id, stride) && id < Capacity(pages))
      && Aligned(last, stride)
      && (last < Capacity(pages) || last == 0)
      && HeaderBits(|headers|) == Capacity(pages) + remaining
      && |headers| > 0
      && Recorded(headers, stride, used)
    }

    /** Every record position below the scan start is taken. */
    ghost predicate NoGapBelowLast()
      requires stride > 0
      reads this
    {
      forall id: nat :: id < last && Aligned(id, stride) ==> id in used
    }

    constructor (stride: nat)
      requires stride == NODE_STRIDE || stride == REL_STRIDE
      ensures Valid() && used == {} && NoGapBelowLast() && this.stride == stride && pages == 0
    {
      this.stride := stride;
      used := {};
      pages := 0;
      headers := [BlankPage()];
      remaining := HeaderBits(1);
      last := 0;
      assert [] + BlankPages(1) == [BlankPage()];
      BlankRecords([], stride, {}, 1);
    }

    /** Every slot of the file has a bit on an existing header page. */
    lemma HeaderPageExists(id: nat)
      requires Valid() && id < Capacity(pages)
      ensures id / 32768 < |headers|
    {
    }

    /** Grow the record file, and the header file when its bits run out. */
    method AllocatePages(n: nat)
      requires Valid()
      modifies this
      ensures Valid() && used == old(used) && last == old(last)
      ensures pages == old(pages) + n
      ensures |headers| >= |old(headers)|
      ensures |headers| > |old(headers)| ==> HeaderBits(|headers| - 1) < Capacity(pages)
    {
      var necessary := Capacity(n);
      pages := pages + n;
      if remaining < necessary {
        var extra := necessary - remaining;
        HeaderGrowthSuffices(extra);
        var grow := HeaderGrowth(extra);
        BlankRecords(headers, stride, used, grow);
        headers := headers + BlankPages(grow);
        remaining := HeaderBits(grow) - extra;
      } else {
        remaining := remaining - necessary;
      }
    }

    /** Compare the bits of the record position on its header page. */
    method CheckRecordExists(id: nat) returns (exist: bool)
      requires Valid() && id / 32768 < |headers|
      ensures exist <==> id in used
    {
      if !Aligned(id, stride) {
        return false;
      }
      PositionsInPage(id, stride);
      assert id in used <==> MarkedIn(headers, stride, id);
      exist := CompareBits(headers[id / 32768], 32768, 255, id % 32768, stride);
    }

    /** Write the bits of a record position to its header page. */
    method WriteRecordBits(id: nat, taken: bool)
      requires Valid() && Aligned(id, stride) && id < Capacity(pages)
      modifies this`headers, this`used
      ensures Valid() && used == if taken then old(used) + {id} else old(used) - {id}
    {
      RewrittenRecords(headers, stride, used, id, taken);
      var page := WriteToPage(headers[id / 32768], id, stride, taken);
      headers := headers[id / 32768 := page];
      used := if taken then used + {id} else used - {id};
    }

    /** Walk the record positions from `last` on until one is free or the file ends. */
    method ScanForFree() returns (found: bool, id: nat)
      requires Valid()
      ensures Aligned(id, stride)
      ensures found ==> last <= id < Capacity(pages) && id !in used
      ensures !found ==> id == Capacity(pages)
      ensures forall j: nat :: last <= j < id && Aligned(j, stride) ==> j in used
    {
      var page: nat, slot: nat := last / 256, last % 256;
      id := last;
      PositionOf(id, stride);
      while page < pages
        invariant Position(page, slot, id, stride)
        invariant page <= pages && (page == pages ==> slot == 0)
        invariant last <= id
        invariant forall j: nat :: last <= j < id && Aligned(j, stride) ==> j in used
        decreases 256 * pages - id
      {
        HeaderPageExists(id);
        PositionAligned(page, slot, id, stride);
        OnlyPosition(id, stride);
        var exist := CheckRecordExists(id);
        if !exist && slot % 256 <= (slot + (stride - 1)) % 256 {
          return true, id;
        }
        page, slot := NextRecord(page, slot, id, stride);
        id := 256 * page + slot;
      }
      PositionAligned(page, slot, id, stride);
      return false, id;
    }

    /**
     Take the first free record position at or after `last`, growing the file by
     a page only when there is none.
     */
    method NextFreeSlots() returns (id: nat)
      requires Valid()
      modifies this
      ensures Valid()
      ensures Aligned(id, stride) && id !in old(used) && used == old(used) + {id}
      ensures last == id < Capacity(pages)
      ensures forall j: nat :: old(last) <= j < id && Aligned(j, stride) ==> j in old(used)
      ensures old(NoGapBelowLast()) ==>
        && NoGapBelowLast()
        && (forall j: nat :: j < id && Aligned(j, stride) ==> j in old(used))
      ensures pages == (if id < Capacity(old(pages)) then old(pages) else old(pages) + 1)
    {
      var found, cur := ScanForFree();
      if found {
        last := cur;
      } else {
        AllocatePages(1);
        last := 256 * (pages - 1);
      }
      id := last;
      WriteRecordBits(id, true);
    }

    /** All records in file order, as the scans that list nodes and relationships find them. */
    method Records() returns (ids: seq<nat>)
      requires Valid()
      ensures Ascending(ids) && forall id :: id in ids <==> id in used
    {
      var page: nat, slot: nat, id: nat := 0, 0, 0;
      ids := [];
      while true
        invariant Position(page, slot, id, stride)
        invariant page < pages || id == 0
        invariant Ascending(ids) && (forall i :: 0 <= i < |ids| ==> ids[i] < id)
        invariant forall x :: x in ids <==> x in used && x < id
        decreases 256 * pages - id
      {
        HeaderPageExistsOrFirst(id);
        PositionAligned(page, slot, id, stride);
        OnlyPosition(id, stride);
        var exist := CheckRecordExists(id);
        if exist {
          ids := ids + [id];
        }
        page, slot := NextRecord(page, slot, id, stride);
        id := 256 * page + slot;
        if page >= pages {
          return;
        }
      }
    }

    lemma HeaderPageExistsOrFirst(id: nat)
      requires Valid() && (id < Capacity(pages) || id == 0)
      ensures id / 32768 < |headers|
    {
    }

    /** Release a record and let the next scan start no later than there. */
    method Release(id: nat)
      requires Valid() && id in used
      modifies this
      ensures Valid() && used == old(used) - {id} && pages == old(pages)
      ensures last == if id < old(last) then id else old(last)
      ensures old(NoGapBelowLast()) ==> NoGapBelowLast()
    {
      WriteRecordBits(id, false);
      if id < last {
        last := id;
      }
    }

    /** Set or clear the bits of one record position; the scan start stays. */
    method Mark(id: nat, taken: bool)
      requires Valid() && Aligned(id, stride) && id < Capacity(pages)
      modifies this
      ensures Valid() && pages == old(pages) && last == old(last)
      ensures used == if taken then old(used) + {id} else old(used) - {id}
    {
      WriteRecordBits(id, taken);
    }
  }
}
