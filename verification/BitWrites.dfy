/**
 Writing bits to a header page. The data is shifted to where it goes, the page
 bytes are masked, and the two are joined. What a write does is stated bit by
 bit; in particular which bits it loses.
 */
module BitWrites {
  import opened HeaderPage

  // ----- the operations, bit by bit -----------------------------------------------------

  lemma {:induction false} BitOfZero(k: nat)
    ensures !Bit(0, k)
  {
    if k > 0 {
      BitOfZero(k - 1);
    }
  }

  lemma {:induction false} BitAnd(x: nat, y: nat, k: nat)
    ensures Bit(And(x, y), k) <==> Bit(x, k) && Bit(y, k)
  {
    if x == 0 || y == 0 {
      BitOfZero(k);
    } else if k > 0 {
      BitAnd(x / 2, y / 2, k - 1);
    }
  }

  lemma {:induction false} BitOr(x: nat, y: nat, k: nat)
    ensures Bit(Or(x, y), k) <==> Bit(x, k) || Bit(y, k)
  {
    if x == 0 || y == 0 {
      BitOfZero(k);
    } else if k > 0 {
      BitOr(x / 2, y / 2, k - 1);
    }
  }

  lemma {:induction false} BitShiftLeft(x: nat, j: nat, k: nat)
    ensures Bit(ShiftLeft(x, j), k) <==> k >= j && Bit(x, k - j)
  {
    if j > 0 && k > 0 {
      BitShiftLeft(x, j - 1, k - 1);
    }
  }

  lemma {:induction false} BitShiftRight(x: nat, j: nat, k: nat)
    ensures Bit(ShiftRight(x, j), k) <==> Bit(x, k + j)
  {
    if j > 0 {
      BitShiftRight(x / 2, j - 1, k);
    }
  }

  lemma {:induction false} BitLow(x: nat, m: nat, k: nat)
    ensures Bit(Low(x, m), k) <==> k < m && Bit(x, k)
  {
    if m == 0 {
      BitOfZero(k);
    } else if k > 0 {
      BitLow(x / 2, m - 1, k - 1);
    }
  }

  lemma BitToByte(x: nat, k: nat)
    ensures Bit(ToByte(x), k) <==> k < 8 && Bit(x, k)
  {
    EightBits(x);
    BitLow(x, 8, k);
  }

  /** A byte has eight bits. */
  lemma BitOfByte(x: Byte, k: nat)
    ensures Bit(x, k) ==> k < 8
  {
    BitToByte(x, k);
  }

  lemma {:induction false} BitOfOnes(m: nat, k: nat)
    ensures Bit(Pow2(m) - 1, k) <==> k < m
  {
    if m == 0 {
      BitOfZero(k);
    } else if k > 0 {
      BitOfOnes(m - 1, k - 1);
    }
  }

  lemma BitOf255(k: nat)
    ensures Bit(255, k) <==> k < 8
  {
    EightBits(0);
    BitOfOnes(8, k);
  }

  // ----- shifted arrays -------------------------------------------------------------------

  lemma RightByteBit(before: Byte, x: Byte, n: nat, k: nat)
    requires 1 <= n <= 8 && k < 8
    ensures Bit(RightByte(before, x, n), k) <==> if k >= 8 - n then Bit(before, k + n - 8) else Bit(x, k + n)
  {
    var mask := ToByte(ShiftRight(255, 8 - n));
    var carry, rest := ShiftLeft(And(before, mask), 8 - n), ShiftRight(x, n);
    assert Bit(RightByte(before, x, n), k) <==> Bit(carry, k) || Bit(rest, k) by {
      BitToByte(Or(carry, rest), k);
      BitOr(carry, rest, k);
    }
    assert Bit(rest, k) <==> k < 8 - n && Bit(x, k + n) by {
      BitShiftRight(x, n, k);
      BitOfByte(x, k + n);
    }
    assert Bit(carry, k) <==> k >= 8 - n && Bit(before, k + n - 8) by {
      BitShiftLeft(And(before, mask), 8 - n, k);
      if k >= 8 - n {
        CarryBitRight(before, n, k + n - 8);
      }
    }
  }

  lemma CarryBitRight(before: Byte, n: nat, m: nat)
    requires 1 <= n <= 8 && m < n
    ensures Bit(And(before, ToByte(ShiftRight(255, 8 - n))), m) <==> Bit(before, m)
  {
    BitAnd(before, ToByte(ShiftRight(255, 8 - n)), m);
    BitToByte(ShiftRight(255, 8 - n), m);
    BitShiftRight(255, 8 - n, m);
    BitOf255(m + 8 - n);
  }

  lemma LeftByteBit(x: Byte, after: Byte, n: nat, k: nat)
    requires 1 <= n <= 8 && k < 8
    ensures Bit(LeftByte(x, after, n), k) <==> if k >= n then Bit(x, k - n) else Bit(after, k + 8 - n)
  {
    var mask := ToByte(ShiftLeft(255, 8 - n));
    var carry, rest := ShiftRight(And(after, mask), 8 - n), ShiftLeft(x, n);
    assert Bit(LeftByte(x, after, n), k) <==> Bit(carry, k) || Bit(rest, k) by {
      BitToByte(Or(carry, rest), k);
      BitOr(carry, rest, k);
    }
    assert Bit(rest, k) <==> k >= n && Bit(x, k - n) by { BitShiftLeft(x, n, k); }
    assert Bit(carry, k) <==> k < n && Bit(after, k + 8 - n) by {
      BitShiftRight(And(after, mask), 8 - n, k);
      CarryBitLeft(after, n, k + 8 - n);
    }
  }

  lemma CarryBitLeft(after: Byte, n: nat, m: nat)
    requires 1 <= n <= 8 && m >= 8 - n
    ensures Bit(And(after, ToByte(ShiftLeft(255, 8 - n))), m) <==> m < 8 && Bit(after, m)
  {
    BitAnd(after, ToByte(ShiftLeft(255, 8 - n)), m);
    BitToByte(ShiftLeft(255, 8 - n), m);
    BitShiftLeft(255, 8 - n, m);
    BitOf255(m + n - 8);
  }

  /** Position and byte of a bit that lies n places before or after bit p. */
  lemma ShiftedRightBit(s: seq<Byte>, n: nat, p: nat)
    requires 1 <= n <= 8 && p < 8 * |s|
    ensures BitAt(ShiftedRight(s, n), p) <==> p >= n && BitAt(s, p - n)
  {
    var i, k := p / 8, 7 - p % 8;
    ShiftedRightIndex(s, n, i);
    RightByteBit(ByteAt(s, i - 1), s[i], n, k);
    if k + n >= 8 {
      BitOfZero(k + n - 8);
      assert p >= n ==> (p - n) / 8 == i - 1 && 7 - (p - n) % 8 == k + n - 8;
    } else {
      assert (p - n) / 8 == i && 7 - (p - n) % 8 == k + n;
    }
  }

  lemma ShiftedLeftBit(s: seq<Byte>, n: int, p: nat)
    requires -8 <= n < 0 && p < 8 * |s|
    ensures BitAt(ShiftedLeft(s, -n), p) <==> p - n < 8 * |s| && BitAt(s, p - n)
  {
    var i, k, m: nat := p / 8, 7 - p % 8, -n;
    LeftByteBit(s[i], ByteAt(s, i + 1), m, k);
    if k < m {
      BitOfZero(k + 8 - m);
      assert (p - n) / 8 == i + 1 && 7 - (p - n) % 8 == k + 8 - m;
    } else {
      assert (p - n) / 8 == i && 7 - (p - n) % 8 == k - m;
    }
  }

  lemma ShiftedBit(s: seq<Byte>, n: int, p: nat)
    requires -8 <= n <= 8 && p < 8 * |s|
    ensures |Shifted(s, n)| == |s|
    ensures BitAt(Shifted(s, n), p) <==> 0 <= p - n < 8 * |s| && BitAt(s, p - n)
  {
    if n > 0 {
      assert Shifted(s, n) == ShiftedRight(s, n);
      ShiftedRightBit(s, n, p);
    } else if n < 0 {
      assert Shifted(s, n) == ShiftedLeft(s, -n);
      ShiftedLeftBit(s, n, p);
    } else {
      assert Shifted(s, n) == s;
    }
  }

  // ----- the data, where it goes ---------------------------------------------------------------

  /** The data bytes without the leading bits that do not belong to the n bits. */
  function Trimmed(data: seq<Byte>, n: nat): seq<Byte>
    requires n >= 1 && |data| == BytesFor(n)
  {
    data[0 := ToByte(And(data[0], ShiftRight(255, 8 * |data| - n)))]
  }

  /** With a byte more, if the field reaches into one more byte than the data has. */
  function Padded(data: seq<Byte>, at: nat, n: nat): (s: seq<Byte>)
    requires at < 8 && n >= 1 && |data| == BytesFor(n)
    ensures |s| == BytesFor(at + n)
  {
    if |data| < BytesFor(at + n) then Trimmed(data, n) + [0] else Trimmed(data, n)
  }

  /** The bytes that are joined to the page: the data, shifted to where it goes. */
  function InPlace(data: seq<Byte>, at: nat, n: nat): seq<Byte>
    requires at < 8 && n >= 1 && |data| == BytesFor(n)
  {
    Shifted(Padded(data, at, n), at - (8 * |data| - n))
  }

  lemma TrimmedBit(data: seq<Byte>, n: nat, p: nat)
    requires n >= 1 && |data| == BytesFor(n) && p < 8 * |data|
    ensures BitAt(Trimmed(data, n), p) <==> p >= 8 * |data| - n && BitAt(data, p)
  {
    var z := 8 * |data| - n;
    if p / 8 == 0 {
      TrimmedByteBit(data[0], z, 7 - p % 8);
    }
  }

  lemma TrimmedByteBit(x: Byte, z: nat, k: nat)
    requires k < 8
    ensures Bit(ToByte(And(x, ShiftRight(255, z))), k) <==> k + z < 8 && Bit(x, k)
  {
    BitToByte(And(x, ShiftRight(255, z)), k);
    BitAnd(x, ShiftRight(255, z), k);
    BitShiftRight(255, z, k);
    BitOf255(k + z);
  }

  lemma PaddedBit(s: seq<Byte>, p: nat)
    requires p < 8 * |s| + 8
    ensures BitAt(s + [0], p) <==> p < 8 * |s| && BitAt(s, p)
  {
    BitOfZero(7 - p % 8);
  }

  /** The n low bits of the data stand at positions at .. at+n-1, and no other bit is set. */
  lemma InPlaceBit(data: seq<Byte>, at: nat, n: nat, p: nat)
    requires at < 8 && n >= 1 && |data| == BytesFor(n) && p < 8 * BytesFor(at + n)
    ensures |InPlace(data, at, n)| == BytesFor(at + n)
    ensures BitAt(InPlace(data, at, n), p) <==> at <= p < at + n && BitAt(data, 8 * |data| - n + p - at)
  {
    var k := at - (8 * |data| - n);
    ShiftedBit(Padded(data, at, n), k, p);
    if 0 <= p - k < 8 * BytesFor(at + n) {
      PaddedDataBit(data, at, n, p - k);
    }
  }

  lemma PaddedDataBit(data: seq<Byte>, at: nat, n: nat, p: nat)
    requires at < 8 && n >= 1 && |data| == BytesFor(n) && p < 8 * BytesFor(at + n)
    ensures BitAt(Padded(data, at, n), p) <==> 8 * |data| - n <= p < 8 * |data| && BitAt(data, p)
  {
    if |data| < BytesFor(at + n) {
      PaddedBit(Trimmed(data, n), p);
    }
    if p < 8 * |data| {
      TrimmedBit(data, n, p);
    }
  }

  // ----- the bits of the page that are kept ---------------------------------------------------

  /** The write keeps the tail of its last byte: there is none, or its mask is right. */
  predicate KeepsTail(at: nat, n: nat) {
    n % 8 + at < 8 || (n + at) % 8 == 0
  }

  function FrontMask(at: nat, len: nat): seq<Byte>
    requires at < 8 && len >= 1
  {
    seq(len, _ => 0)[0 := ToByte(Or(0, ShiftLeft(255, 8 - at)))]
  }

  /** Ones where the page bits survive, as the program computes them. */
  function Mask(at: nat, n: nat): (mask: seq<Byte>)
    requires at < 8 && n >= 1
    ensures |mask| == BytesFor(at + n)
  {
    var len := BytesFor(at + n);
    var front := FrontMask(at, len);
    if (n + at) % 8 != 0 then front[len - 1 := ToByte(Or(front[len - 1], ShiftRight(255, n % 8 + at)))] else front
  }

  lemma FrontMaskBit(at: nat, len: nat, p: nat)
    requires at < 8 && len >= 1 && p < 8 * len
    ensures BitAt(FrontMask(at, len), p) <==> p < at
  {
    var k := 7 - p % 8;
    BitOfZero(k);
    if p / 8 == 0 {
      FrontByteBit(at, k);
    }
  }

  lemma FrontByteBit(at: nat, k: nat)
    requires at < 8 && k < 8
    ensures Bit(ToByte(Or(0, ShiftLeft(255, 8 - at))), k) <==> k >= 8 - at
  {
    BitToByte(Or(0, ShiftLeft(255, 8 - at)), k);
    BitShiftLeft(255, 8 - at, k);
    if k >= 8 - at {
      BitOf255(k + at - 8);
    }
  }

  lemma TailByteBit(x: Byte, tail: nat, k: nat)
    requires k < 8
    ensures Bit(ToByte(Or(x, ShiftRight(255, tail))), k) <==> Bit(x, k) || k + tail < 8
  {
    BitToByte(Or(x, ShiftRight(255, tail)), k);
    BitOr(x, ShiftRight(255, tail), k);
    BitShiftRight(255, tail, k);
    BitOf255(k + tail);
  }

  /** In the last byte, the positions that the tail mask leaves alone. */
  lemma TailPositions(at: nat, n: nat, p: nat)
    requires at < 8 && n >= 1 && (n + at) % 8 != 0 && p / 8 == BytesFor(at + n) - 1
    ensures 7 - p % 8 + (n % 8 + at) < 8 <==> p >= at + n && KeepsTail(at, n)
  {
    assert BytesFor(at + n) - 1 == (at + n) / 8;
    assert p == 8 * (p / 8) + p % 8 && at + n == 8 * ((at + n) / 8) + (at + n) % 8;
    if n % 8 + at < 8 {
      assert (n + at) % 8 == n % 8 + at;
    }
  }

  /** Kept are the bits before the field, and those after it in its last byte if the tail is kept. */
  lemma MaskBit(at: nat, n: nat, p: nat)
    requires at < 8 && n >= 1 && p < 8 * BytesFor(at + n)
    ensures BitAt(Mask(at, n), p) <==> p < at || (p >= at + n && KeepsTail(at, n))
  {
    var len := BytesFor(at + n);
    FrontMaskBit(at, len, p);
    if (n + at) % 8 != 0 && p / 8 == len - 1 {
      TailByteBit(FrontMask(at, len)[len - 1], n % 8 + at, 7 - p % 8);
      TailPositions(at, n, p);
    }
  }

  // ----- the page after a write -----------------------------------------------------------------

  function MergeByte(x: Byte, mask: Byte, y: Byte): Byte {
    ToByte(Or(And(x, mask), y))
  }

  lemma MergeByteBit(x: Byte, mask: Byte, y: Byte, k: nat)
    requires k < 8
    ensures Bit(MergeByte(x, mask, y), k) <==> (Bit(x, k) && Bit(mask, k)) || Bit(y, k)
  {
    BitToByte(Or(And(x, mask), y), k);
    BitOr(And(x, mask), y, k);
    BitAnd(x, mask, k);
  }

  function Merge(page: seq<Byte>, b: nat, mask: seq<Byte>, bytes: seq<Byte>): (r: seq<Byte>)
    requires |mask| == |bytes| && b + |mask| <= |page|
    ensures |r| == |page|
    ensures forall i :: 0 <= i < |page| ==>
      r[i] == if b <= i < b + |mask| then MergeByte(page[i], mask[i - b], bytes[i - b]) else page[i]
  {
    seq(|page|, i requires 0 <= i < |page| =>
      if b <= i < b + |mask| then MergeByte(page[i], mask[i - b], bytes[i - b]) else page[i])
  }

  predicate Fits(s: seq<Byte>, offset: nat, n: nat, data: seq<Byte>) {
    n >= 1 && offset + n <= 8 * |s| && |data| == BytesFor(n)
  }

  /** The page s after writing the n low bits of the data at a bit offset. */
  function Written(s: seq<Byte>, offset: nat, n: nat, data: seq<Byte>): (t: seq<Byte>)
    requires Fits(s, offset, n, data)
    ensures |t| == |s|
  {
    InPlaceBit(data, offset % 8, n, 0);
    Merge(s, offset / 8, Mask(offset % 8, n), InPlace(data, offset % 8, n))
  }

  /** Bit p of the field, as the data has it. */
  predicate DataBit(offset: nat, n: nat, data: seq<Byte>, p: nat)
    requires |data| == BytesFor(n) && offset <= p < offset + n
  {
    BitAt(data, 8 * |data| - n + p - offset)
  }

  /** Bit p lies behind the field in the last byte that the write touches. */
  predicate InTail(offset: nat, n: nat, p: nat) {
    offset + n <= p && p / 8 == (offset + n - 1) / 8
  }

  lemma MergeBit(s: seq<Byte>, b: nat, mask: seq<Byte>, bytes: seq<Byte>, q: nat)
    requires |mask| == |bytes| && b + |mask| <= |s| && q < 8 * |mask|
    ensures BitAt(Merge(s, b, mask, bytes), 8 * b + q) <==> (BitAt(s, 8 * b + q) && BitAt(mask, q)) || BitAt(bytes, q)
  {
    var i := q / 8;
    assert (8 * b + q) / 8 == b + i && (8 * b + q) % 8 == q % 8;
    assert Merge(s, b, mask, bytes)[b + i] == MergeByte(s[b + i], mask[i], bytes[i]);
    MergeByteBit(s[b + i], mask[i], bytes[i], 7 - q % 8);
  }

  /** Bit q of the bytes that the write touches, counted from the first of them. */
  predicate NearBit(s: seq<Byte>, b: nat, at: nat, n: nat, data: seq<Byte>, q: nat)
    requires |data| == BytesFor(n) && b + q / 8 < |s|
  {
    if at <= q < at + n then BitAt(data, 8 * |data| - n + q - at)
    else BitAt(s, 8 * b + q) && (q < at || KeepsTail(at, n))
  }

  lemma NearOf(s: seq<Byte>, b: nat, at: nat, n: nat, data: seq<Byte>, mask: seq<Byte>, bytes: seq<Byte>, p: nat,
               q: nat)
    requires p == 8 * b + q && |data| == BytesFor(n) && |mask| == |bytes| && b + |mask| <= |s| && q < 8 * |mask|
    requires BitAt(mask, q) <==> q < at || (q >= at + n && KeepsTail(at, n))
    requires BitAt(bytes, q) <==> at <= q < at + n && BitAt(data, 8 * |data| - n + q - at)
    ensures p / 8 == b + q / 8 && (BitAt(Merge(s, b, mask, bytes), p) <==> NearBit(s, b, at, n, data, q))
  {
    MergeBit(s, b, mask, bytes, q);
  }

  /** A write joins some bytes to the page under some mask, with these bits at position q. */
  lemma WriteParts(s: seq<Byte>, offset: nat, b: nat, at: nat, n: nat, data: seq<Byte>, q: nat)
    returns (mask: seq<Byte>, bytes: seq<Byte>)
    requires at < 8 && offset == 8 * b + at && Fits(s, offset, n, data) && q < 8 * BytesFor(at + n)
    ensures |mask| == |bytes| == BytesFor(at + n) && b + |mask| <= |s|
    ensures Written(s, offset, n, data) == Merge(s, b, mask, bytes)
    ensures BitAt(mask, q) <==> q < at || (q >= at + n && KeepsTail(at, n))
    ensures BitAt(bytes, q) <==> at <= q < at + n && BitAt(data, 8 * |data| - n + q - at)
  {
    assert offset / 8 == b && offset % 8 == at;
    mask, bytes := Mask(at, n), InPlace(data, at, n);
    InPlaceBit(data, at, n, q);
    MaskBit(at, n, q);
  }

  lemma WrittenNear(s: seq<Byte>, offset: nat, b: nat, at: nat, n: nat, data: seq<Byte>, p: nat, q: nat)
    requires at < 8 && offset == 8 * b + at && p == 8 * b + q && q < 8 * BytesFor(at + n)
    requires Fits(s, offset, n, data)
    ensures p < 8 * |s| && p / 8 == b + q / 8
    ensures BitAt(Written(s, offset, n, data), p) <==> NearBit(s, b, at, n, data, q)
  {
    var mask, bytes := WriteParts(s, offset, b, at, n, data, q);
    NearOf(s, b, at, n, data, mask, bytes, p, q);
  }

  lemma WrittenFar(s: seq<Byte>, offset: nat, n: nat, data: seq<Byte>, p: nat)
    requires Fits(s, offset, n, data) && p < 8 * |s|
    requires !(offset / 8 <= p / 8 < offset / 8 + BytesFor(offset % 8 + n))
    ensures BitAt(Written(s, offset, n, data), p) <==> BitAt(s, p)
  {
    InPlaceBit(data, offset % 8, n, 0);
    assert Written(s, offset, n, data)[p / 8] == s[p / 8];
  }

  /** Bit p of the page after the write: the data in the field, elsewhere the old bit, unless it is in a lost tail. */
  predicate WrittenAs(s: seq<Byte>, offset: nat, n: nat, data: seq<Byte>, p: nat)
    requires Fits(s, offset, n, data) && p < 8 * |s|
  {
    if offset <= p < offset + n then DataBit(offset, n, data, p)
    else BitAt(s, p) && (InTail(offset, n, p) ==> KeepsTail(offset % 8, n))
  }

  lemma NearIsWrittenAs(s: seq<Byte>, offset: nat, b: nat, at: nat, n: nat, data: seq<Byte>, p: nat, q: nat)
    requires at < 8 && offset == 8 * b + at && p == 8 * b + q && q < 8 * BytesFor(at + n)
    requires Fits(s, offset, n, data)
    ensures p < 8 * |s| && p / 8 == b + q / 8
    ensures NearBit(s, b, at, n, data, q) <==> WrittenAs(s, offset, n, data, p)
  {
    assert offset % 8 == at && offset / 8 == b && p / 8 == b + q / 8;
    FieldPositions(offset, n, p);
  }

  lemma WrittenNearAs(s: seq<Byte>, offset: nat, b: nat, at: nat, n: nat, data: seq<Byte>, p: nat, q: nat)
    requires at < 8 && offset == 8 * b + at && p == 8 * b + q && q < 8 * BytesFor(at + n)
    requires Fits(s, offset, n, data) && p < 8 * |s|
    ensures BitAt(Written(s, offset, n, data), p) <==> WrittenAs(s, offset, n, data, p)
  {
    NearIsWrittenAs(s, offset, b, at, n, data, p, q);
    WrittenNear(s, offset, b, at, n, data, p, q);
  }

  lemma WrittenFarAs(s: seq<Byte>, offset: nat, n: nat, data: seq<Byte>, p: nat)
    requires Fits(s, offset, n, data) && p < 8 * |s|
    requires !(offset / 8 <= p / 8 < offset / 8 + BytesFor(offset % 8 + n))
    ensures BitAt(Written(s, offset, n, data), p) <==> WrittenAs(s, offset, n, data, p)
  {
    FieldPositions(offset, n, p);
    WrittenFar(s, offset, n, data, p);
  }

  /** The whole effect of a write. */
  lemma WrittenBit(s: seq<Byte>, offset: nat, n: nat, data: seq<Byte>, p: nat)
    requires Fits(s, offset, n, data) && p < 8 * |s|
    ensures BitAt(Written(s, offset, n, data), p) <==> WrittenAs(s, offset, n, data, p)
  {
    if offset / 8 <= p / 8 < offset / 8 + BytesFor(offset % 8 + n) {
      WrittenNearAs(s, offset, offset / 8, offset % 8, n, data, p, p - 8 * (offset / 8));
    } else {
      WrittenFarAs(s, offset, n, data, p);
    }
  }

  lemma FieldPositions(offset: nat, n: nat, p: nat)
    requires n >= 1
    ensures var b, at := offset / 8, offset % 8; var len := BytesFor(at + n);
      && (offset <= p < offset + n ==> b <= p / 8 < b + len)
      && (InTail(offset, n, p) <==> b <= p / 8 < b + len && p >= offset + n)
  {
    var b, at := offset / 8, offset % 8;
    assert (offset + n - 1) / 8 == b + (at + n - 1) / 8;
    assert BytesFor(at + n) == (at + n - 1) / 8 + 1;
  }

  /** What a write is for: it can be read back, and it leaves all other bits alone. */
  ghost predicate Exact(s: seq<Byte>, offset: nat, n: nat, data: seq<Byte>)
    requires n >= 1 && Fits(s, offset, n, data)
  {
    forall p: nat :: p < 8 * |s| ==>
      (BitAt(Written(s, offset, n, data), p) <==>
        if offset <= p < offset + n then DataBit(offset, n, data, p) else BitAt(s, p))
  }

  ghost predicate AlwaysExact(at: nat, n: nat)
    requires n >= 1
  {
    forall s, offset: nat, data :: offset % 8 == at && Fits(s, offset, n, data) ==> Exact(s, offset, n, data)
  }

  lemma KeptTailIsExact(s: seq<Byte>, offset: nat, n: nat, data: seq<Byte>)
    requires Fits(s, offset, n, data) && KeepsTail(offset % 8, n)
    ensures Exact(s, offset, n, data)
  {
    forall p: nat | p < 8 * |s|
      ensures BitAt(Written(s, offset, n, data), p) <==>
        if offset <= p < offset + n then DataBit(offset, n, data, p) else BitAt(s, p)
    {
      WrittenBit(s, offset, n, data, p);
    }
  }

  function Ones(len: nat): (s: seq<Byte>)
    ensures |s| == len && forall i :: 0 <= i < len ==> s[i] == 255
  {
    seq(len, _ => 255)
  }

  function Zeros(len: nat): (s: seq<Byte>)
    ensures |s| == len && forall i :: 0 <= i < len ==> s[i] == 0
  {
    seq(len, _ => 0)
  }

  /** Whatever was in a tail that is not kept is cleared. */
  lemma TailCleared(s: seq<Byte>, offset: nat, n: nat, data: seq<Byte>, p: nat)
    requires Fits(s, offset, n, data) && p < 8 * |s| && InTail(offset, n, p) && !KeepsTail(offset % 8, n)
    ensures !BitAt(Written(s, offset, n, data), p)
  {
    WrittenBit(s, offset, n, data, p);
  }

  /** On a page of ones, a write that does not keep its tail loses the bit behind the field. */
  lemma LostBit(at: nat, n: nat)
    requires at < 8 && n >= 1 && !KeepsTail(at, n)
    ensures var s, data := Ones(BytesFor(at + n)), Zeros(BytesFor(n));
      && Fits(s, at, n, data) && at + n < 8 * |s|
      && BitAt(s, at + n) && !BitAt(Written(s, at, n, data), at + n)
  {
    TailBit(at, n);
    BitOf255(7 - (at + n) % 8);
    TailCleared(Ones(BytesFor(at + n)), at, n, Zeros(BytesFor(n)), at + n);
  }

  /** There is a bit behind the field. */
  lemma TailBit(at: nat, n: nat)
    requires at < 8 && n >= 1 && !KeepsTail(at, n)
    ensures (at + n) / 8 == (at + n - 1) / 8 && at + n < 8 * BytesFor(at + n) && InTail(at, n, at + n)
  {
  }

  /**
   Which writes are right on all pages and for all data: exactly those whose last
   partial byte is masked by less than eight, and those that end with a byte.
   */
  lemma WriteExactIff(at: nat, n: nat)
    requires at < 8 && n >= 1
    ensures AlwaysExact(at, n) <==> n % 8 + at < 8 || (n + at) % 8 == 0
  {
    if KeepsTail(at, n) {
      forall s, offset: nat, data | offset % 8 == at && Fits(s, offset, n, data) ensures Exact(s, offset, n, data) {
        KeptTailIsExact(s, offset, n, data);
      }
    } else {
      LostBit(at, n);
      assert !Exact(Ones(BytesFor(at + n)), at, n, Zeros(BytesFor(n)));
    }
  }

  /** Five bits at position six: on a page of ones the eleventh bit changes, although it is not among them. */
  lemma FiveBitsAtSix()
    ensures Fits([255, 255], 6, 5, [0]) && BitAt([255, 255], 11) && !BitAt(Written([255, 255], 6, 5, [0]), 11)
  {
    LostBit(6, 5);
    assert Ones(2) == [255, 255] && Zeros(1) == [0];
  }

  // ----- write_bits ----------------------------------------------------------------------------

  method PadData(data: seq<Byte>, at: nat, n: nat) returns (bytes: seq<Byte>)
    requires at < 8 && n >= 1 && |data| == BytesFor(n)
    ensures bytes == Padded(data, at, n)
  {
    bytes := data[0 := ToByte(And(data[0], ShiftRight(255, 8 * |data| - n)))];
    if |data| < BytesFor(at + n) {
      bytes := bytes + [0];
    }
  }

  method ShiftBytes(bytes: seq<Byte>, k: int) returns (shifted: array<Byte>)
    requires -8 <= k <= 8 && |bytes| >= 1
    ensures fresh(shifted) && shifted[..] == Shifted(bytes, k)
  {
    shifted := new Byte[|bytes|](i requires 0 <= i < |bytes| => bytes[i]);
    assert shifted[..|bytes|] == bytes && shifted[|bytes|..] == [] && BytesFor(8 * |bytes|) == |bytes|;
    ShiftBitArray(shifted, 8 * |bytes|, k);
  }

  /** The data as an array of the bytes that are joined to the page. */
  method AlignData(data: seq<Byte>, at: nat, n: nat) returns (shifted: array<Byte>)
    requires at < 8 && n >= 1 && |data| == BytesFor(n)
    ensures fresh(shifted) && shifted[..] == InPlace(data, at, n)
  {
    var bytes := PadData(data, at, n);
    shifted := ShiftBytes(bytes, -(8 * |data| - n) + at);
  }

  method ComputeMask(at: nat, n: nat) returns (mask: array<Byte>)
    requires at < 8 && n >= 1
    ensures fresh(mask) && mask[..] == Mask(at, n)
  {
    var len := BytesFor(at + n);
    mask := new Byte[len](_ => 0);
    mask[0] := ToByte(Or(mask[0], ShiftLeft(255, 8 - at)));
    assert mask[..] == FrontMask(at, len);
    if (n + at) % 8 != 0 {
      mask[len - 1] := ToByte(Or(mask[len - 1], ShiftRight(255, n % 8 + at)));
    }
  }

  /** Write the n low bits of the data at a bit position of a byte of the page. */
  method WriteBits(page: array<Byte>, byteOffset: nat, bitOffset: nat, n: nat, data: seq<Byte>)
    requires bitOffset < 8 && Fits(page[..], 8 * byteOffset + bitOffset, n, data)
    modifies page
    ensures page[..] == Written(old(page[..]), 8 * byteOffset + bitOffset, n, data)
  {
    ghost var s := page[..];
    InPlaceBit(data, bitOffset, n, 0);
    var shifted := AlignData(data, bitOffset, n);
    var mask := ComputeMask(bitOffset, n);
    JoinBytes(page, byteOffset, mask, shifted);
    assert (8 * byteOffset + bitOffset) / 8 == byteOffset;
  }

  method JoinBytes(page: array<Byte>, b: nat, mask: array<Byte>, bytes: array<Byte>)
    requires mask.Length == bytes.Length && b + mask.Length <= page.Length && page != mask && page != bytes
    modifies page
    ensures page[..] == Merge(old(page[..]), b, mask[..], bytes[..])
  {
    for i := 0 to mask.Length
      invariant forall j :: 0 <= j < page.Length ==>
        page[j] == if b <= j < b + i then MergeByte(old(page[j]), mask[j - b], bytes[j - b]) else old(page[j])
    {
      page[b + i] := MergeByte(page[b + i], mask[i], bytes[i]);
    }
  }

  // ----- header pages as sets of records ----------------------------------------------------------

  /** All bits of the record position `id` are set. */
  predicate Marked(s: seq<Byte>, stride: nat, id: nat)
    requires id + stride <= 8 * |s|
  {
    BitsAt(s, id, stride) == Low(255, stride)
  }

  lemma {:induction false} OnesIffAllSet(s: seq<Byte>, offset: nat, n: nat)
    requires offset + n <= 8 * |s|
    ensures BitsAt(s, offset, n) < Pow2(n)
    ensures BitsAt(s, offset, n) == Pow2(n) - 1 <==> forall p: nat :: offset <= p < offset + n ==> BitAt(s, p)
  {
    if n > 0 {
      OnesIffAllSet(s, offset, n - 1);
    }
  }

  lemma MarkedIffAllSet(s: seq<Byte>, stride: nat, id: nat)
    requires id + stride <= 8 * |s| && stride <= 8
    ensures Marked(s, stride, id) <==> forall p: nat :: id <= p < id + stride ==> BitAt(s, p)
  {
    OnesIffAllSet(s, id, stride);
    EightBits(0);
    LowOfOnes(8, stride);
  }

  lemma {:induction false} LowOfOnes(m: nat, k: nat)
    requires k <= m
    ensures Low(Pow2(m) - 1, k) == Pow2(k) - 1
  {
    if k > 0 {
      LowOfOnes(m - 1, k - 1);
    }
  }

  /** The byte that marks a record position, or clears it. */
  function Marks(taken: bool): Byte {
    if taken then 255 else 0
  }

  lemma MarksFit(s: seq<Byte>, stride: nat, id: nat, taken: bool)
    requires (stride == 1 || stride == 4) && id % stride == 0 && id + stride <= 8 * |s|
    ensures Fits(s, id, stride, [Marks(taken)]) && Exact(s, id, stride, [Marks(taken)])
  {
    StaysInByte(id, stride);
    KeptTailIsExact(s, id, stride, [Marks(taken)]);
  }

  lemma StaysInByte(id: nat, stride: nat)
    requires (stride == 1 || stride == 4) && id % stride == 0
    ensures id % 8 + stride <= 8 && KeepsTail(id % 8, stride) && BytesFor(stride) == 1
  {
  }

  lemma WriteMarksSelf(s: seq<Byte>, stride: nat, id: nat, taken: bool)
    requires 1 <= stride <= 8 && Fits(s, id, stride, [Marks(taken)]) && Exact(s, id, stride, [Marks(taken)])
    ensures Marked(Written(s, id, stride, [Marks(taken)]), stride, id) <==> taken
  {
    var t := Written(s, id, stride, [Marks(taken)]);
    MarkedIffAllSet(t, stride, id);
    forall p: nat | id <= p < id + stride ensures BitAt(t, p) <==> taken {
      MarksBit(taken, 8 - stride + p - id);
    }
    assert BitAt(t, id) <==> taken;
  }

  lemma WriteMarksOther(s: seq<Byte>, stride: nat, id: nat, taken: bool, other: nat)
    requires 1 <= stride <= 8 && Fits(s, id, stride, [Marks(taken)]) && Exact(s, id, stride, [Marks(taken)])
    requires other + stride <= 8 * |s| && (other + stride <= id || id + stride <= other)
    ensures Marked(Written(s, id, stride, [Marks(taken)]), stride, other) <==> Marked(s, stride, other)
  {
    var t := Written(s, id, stride, [Marks(taken)]);
    MarkedIffAllSet(s, stride, other);
    MarkedIffAllSet(t, stride, other);
    assert forall p: nat :: other <= p < other + stride ==> (BitAt(t, p) <==> BitAt(s, p));
  }

  /** Setting or clearing the bits of one record position marks or unmarks it, and no other position. */
  lemma WriteMarks(s: seq<Byte>, stride: nat, id: nat, taken: bool, other: nat)
    requires (stride == 1 || stride == 4) && id % stride == 0 && other % stride == 0
    requires id + stride <= 8 * |s| && other + stride <= 8 * |s|
    ensures Fits(s, id, stride, [Marks(taken)])
    ensures Marked(Written(s, id, stride, [Marks(taken)]), stride, other) <==>
      if other == id then taken else Marked(s, stride, other)
  {
    MarksFit(s, stride, id, taken);
    if other == id {
      WriteMarksSelf(s, stride, id, taken);
    } else {
      WriteMarksOther(s, stride, id, taken, other);
    }
  }

  lemma MarksBit(taken: bool, p: nat)
    requires p < 8
    ensures BitAt([Marks(taken)], p) <==> taken
  {
    BitOf255(7 - p);
    BitOfZero(7 - p);
  }
}
