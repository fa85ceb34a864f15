/**
 Bit arrays on header pages: shifting, comparing and writing a few bits. Bytes
 are numbers below 256, most significant bit first, and an array of bytes is a
 big-endian number.
 */
module HeaderPage {
  type Byte = x: nat | x < 256

  // ----- bit operations on numbers ---------------------------------------------------------

  function ShiftLeft(x: nat, k: nat): (r: nat)
    ensures r >= x
  {
    if k == 0 then x else 2 * ShiftLeft(x, k - 1)
  }

  function ShiftRight(x: nat, k: nat): nat {
    if k == 0 then x else ShiftRight(x / 2, k - 1)
  }

  /** The k lowest bits. */
  function Low(x: nat, k: nat): nat {
    if k == 0 then 0 else 2 * Low(x / 2, k - 1) + x % 2
  }

  function And(x: nat, y: nat): nat {
    if x == 0 || y == 0 then 0 else 2 * And(x / 2, y / 2) + if x % 2 == 1 && y % 2 == 1 then 1 else 0
  }

  function Or(x: nat, y: nat): nat {
    if x == 0 then y else if y == 0 then x else 2 * Or(x / 2, y / 2) + if x % 2 == 1 || y % 2 == 1 then 1 else 0
  }

  /** What an assignment to a byte keeps. */
  function ToByte(x: nat): Byte {
    x % 256
  }

  function Pow2(k: nat): nat {
    ShiftLeft(1, k)
  }

  // ----- their arithmetic ---------------------------------------------------------------------

  /** Every number is its high part, shifted back, and its low part. */
  lemma {:induction false} Split(x: nat, k: nat)
    ensures x == ShiftLeft(ShiftRight(x, k), k) + Low(x, k) && Low(x, k) < Pow2(k)
  {
    if k > 0 {
      Split(x / 2, k - 1);
    }
  }

  /** There is only one such split. */
  lemma {:induction false} SplitUnique(x: nat, k: nat, a: nat, b: nat)
    requires x == ShiftLeft(a, k) + b && b < Pow2(k)
    ensures ShiftRight(x, k) == a && Low(x, k) == b
  {
    if k > 0 {
      SplitUnique(x / 2, k - 1, a, b / 2);
    }
  }

  lemma {:induction false} ShiftLeftAdd(a: nat, b: nat, k: nat)
    ensures ShiftLeft(a + b, k) == ShiftLeft(a, k) + ShiftLeft(b, k)
  {
    if k > 0 {
      ShiftLeftAdd(a, b, k - 1);
    }
  }

  lemma {:induction false} ShiftLeftTwice(x: nat, j: nat, k: nat)
    ensures ShiftLeft(ShiftLeft(x, j), k) == ShiftLeft(x, j + k)
  {
    if k > 0 {
      ShiftLeftTwice(x, j, k - 1);
    }
  }

  lemma {:induction false} ShiftLeftMonotone(a: nat, b: nat, k: nat)
    requires a <= b
    ensures ShiftLeft(a, k) <= ShiftLeft(b, k)
  {
    if k > 0 {
      ShiftLeftMonotone(a, b, k - 1);
    }
  }

  /** A byte's worth of shifting. */
  lemma ShiftLeftByte(x: nat)
    ensures ShiftLeft(x, 8) == 256 * x
  {
    assert ShiftLeft(x, 1) == 2 * x;
    assert ShiftLeft(x, 2) == 4 * x;
    assert ShiftLeft(x, 4) == 16 * x;
    assert ShiftLeft(x, 6) == 64 * x;
  }

  lemma {:induction false} ShiftLeft256(x: nat, k: nat)
    ensures ShiftLeft(256 * x, k) == 256 * ShiftLeft(x, k)
  {
    if k > 0 {
      ShiftLeft256(x, k - 1);
    }
  }

  /** a below 2^j and b below 2^k make a number below 2^(j+k). */
  lemma JoinBound(a: nat, j: nat, b: nat, k: nat)
    requires a < Pow2(j) && b < Pow2(k)
    ensures ShiftLeft(a, k) + b < Pow2(j + k)
  {
    ShiftLeftMonotone(a + 1, Pow2(j), k);
    ShiftLeftAdd(a, 1, k);
    ShiftLeftTwice(1, j, k);
  }

  lemma {:induction false} ShiftRightBound(x: nat, m: nat, k: nat)
    requires x < Pow2(m) && k <= m
    ensures ShiftRight(x, k) < Pow2(m - k)
  {
    if k > 0 {
      ShiftRightBound(x / 2, m - 1, k - 1);
    }
  }

  lemma {:induction false} LowOfSmall(x: nat, k: nat)
    requires x < Pow2(k)
    ensures Low(x, k) == x
  {
    if k > 0 {
      LowOfSmall(x / 2, k - 1);
    }
  }

  lemma {:induction false} ZeroShifted(k: nat)
    ensures ShiftLeft(0, k) == 0 && ShiftRight(0, k) == 0 && Low(0, k) == 0
  {
    if k > 0 {
      ZeroShifted(k - 1);
    }
  }

  lemma EightBits(x: nat)
    ensures Pow2(8) == 256 && ToByte(x) == Low(x, 8) && (x < 256 ==> Low(x, 8) == x)
  {
    assert Pow2(4) == 16;
    Split(x, 8);
    ShiftLeftByte(ShiftRight(x, 8));
  }

  /** In ordinary arithmetic: shifts multiply and divide, the low bits are the remainder. */
  lemma {:induction false} ShiftsAreArithmetic(x: nat, k: nat)
    ensures ShiftLeft(x, k) == x * Pow2(k)
    ensures ShiftRight(x, k) == x / Pow2(k) && Low(x, k) == x % Pow2(k)
  {
    TimesPow2(x, k);
    TimesPow2(ShiftRight(x, k), k);
    Split(x, k);
    DivideUnique(x, Pow2(k), ShiftRight(x, k), Low(x, k));
  }

  lemma {:induction false} TimesPow2(x: nat, k: nat)
    ensures ShiftLeft(x, k) == x * Pow2(k)
  {
    if k > 0 {
      TimesPow2(x, k - 1);
      assert x * (2 * Pow2(k - 1)) == 2 * (x * Pow2(k - 1));
    }
  }

  lemma MulStep(d: nat, a: nat, b: nat)
    requires a < b
    ensures d * a + d <= d * b
  {
    var c := b - a - 1;
    assert d * b == d * (a + 1 + c) == d * a + d + d * c;
  }

  /** Quotient and remainder are determined by their defining equation. */
  lemma DivideUnique(x: nat, d: nat, q: nat, r: nat)
    requires d > 0 && x == d * q + r && r < d
    ensures x / d == q && x % d == r
  {
    Quotient(x, d);
    if q < x / d {
      MulStep(d, q, x / d);
    }
    if x / d < q {
      MulStep(d, x / d, q);
    }
  }

  lemma Quotient(x: nat, d: nat)
    requires d > 0
    ensures x == d * (x / d) + x % d && x % d < d
  {
  }

  /** Masking with k low ones keeps the low bits. */
  lemma {:induction false} AndLow(x: nat, k: nat)
    ensures And(x, Pow2(k) - 1) == Low(x, k)
  {
    if x == 0 {
      ZeroShifted(k);
    } else if k > 0 {
      AndLow(x / 2, k - 1);
      var mask := Pow2(k) - 1;
      assert mask / 2 == Pow2(k - 1) - 1 && mask % 2 == 1;
    }
  }

  /** Masking with ones from position k up to position m. */
  lemma {:induction false} AndBetween(x: nat, m: nat, k: nat)
    requires k <= m
    ensures Pow2(k) <= Pow2(m)
    ensures And(x, Pow2(m) - Pow2(k)) == Low(x, m) - Low(x, k)
  {
    if k == 0 {
      AndLow(x, m);
    } else {
      AndBetween(x / 2, m - 1, k - 1);
    }
  }

  /** Or of numbers without a common bit is their sum. */
  lemma {:induction false} OrDisjoint(a: nat, b: nat, k: nat)
    requires b < Pow2(k)
    ensures Or(ShiftLeft(a, k), b) == ShiftLeft(a, k) + b && Or(b, ShiftLeft(a, k)) == ShiftLeft(a, k) + b
  {
    if k > 0 {
      OrDisjoint(a, b / 2, k - 1);
    }
  }

  lemma {:induction false} OnesShifted(m: nat, k: nat)
    requires k <= m
    ensures ShiftRight(Pow2(m) - 1, k) == Pow2(m - k) - 1
  {
    if k > 0 {
      OnesShifted(m - 1, k - 1);
    }
  }

  // ----- shifting arrays ---------------------------------------------------------------------

  /** The number an array of bytes spells, first byte most significant. */
  function Value(s: seq<Byte>): nat {
    if s == [] then 0 else 256 * Value(s[..|s| - 1]) + s[|s| - 1]
  }

  /** One byte of a right shift: the low bits of the byte before come in at the top. */
  function RightByte(before: Byte, x: Byte, n: nat): Byte
    requires 1 <= n <= 8
  {
    ToByte(Or(ShiftLeft(And(before, ToByte(ShiftRight(255, 8 - n))), 8 - n), ShiftRight(x, n)))
  }

  /** One byte of a left shift: the high bits of the byte after come in at the bottom. */
  function LeftByte(x: Byte, after: Byte, n: nat): Byte
    requires 1 <= n <= 8
  {
    ToByte(Or(ShiftRight(And(after, ToByte(ShiftLeft(255, 8 - n))), 8 - n), ShiftLeft(x, n)))
  }

  /** The low bits of the byte before, and the rest of this one. */
  lemma RightCarry(before: Byte, x: Byte, n: nat)
    requires 1 <= n <= 8
    ensures And(before, ToByte(ShiftRight(255, 8 - n))) == Low(before, n) < Pow2(n)
    ensures ShiftRight(x, n) < Pow2(8 - n)
  {
    assert ToByte(ShiftRight(255, 8 - n)) == Pow2(n) - 1 by {
      OnesMask(n);
      PowerBound(n);
    }
    AndLow(before, n);
    Split(before, n);
    EightBits(0);
    ShiftRightBound(x, 8, n);
  }

  lemma RightJoin(c: nat, top: nat, n: nat)
    requires 1 <= n <= 8 && c < Pow2(n) && top < Pow2(8 - n)
    ensures ToByte(Or(ShiftLeft(c, 8 - n), top)) == ShiftLeft(c, 8 - n) + top
  {
    OrDisjoint(c, top, 8 - n);
    JoinBound(c, n, top, 8 - n);
    EightBits(0);
  }

  lemma RightShifted(c: nat, top: nat, n: nat)
    requires 1 <= n <= 8
    ensures ShiftLeft(ShiftLeft(c, 8 - n) + top, n) == 256 * c + ShiftLeft(top, n)
  {
    ShiftLeftAdd(ShiftLeft(c, 8 - n), top, n);
    ShiftLeftTwice(c, 8 - n, n);
    ShiftLeftByte(c);
  }

  lemma RightByteIs(before: Byte, x: Byte, n: nat)
    requires 1 <= n <= 8
    ensures RightByte(before, x, n) == ShiftLeft(Low(before, n), 8 - n) + ShiftRight(x, n)
  {
    RightCarry(before, x, n);
    RightJoin(Low(before, n), ShiftRight(x, n), n);
  }

  lemma RightValue(y: nat, before: Byte, x: Byte, n: nat)
    requires 1 <= n <= 8 && y == ShiftLeft(Low(before, n), 8 - n) + ShiftRight(x, n)
    ensures ShiftLeft(y, n) + Low(x, n) == 256 * Low(before, n) + x
  {
    RightShifted(Low(before, n), ShiftRight(x, n), n);
    Split(x, n);
  }

  lemma RightByteValue(before: Byte, x: Byte, n: nat)
    requires 1 <= n <= 8
    ensures ShiftLeft(RightByte(before, x, n), n) + Low(x, n) == 256 * Low(before, n) + x
  {
    RightByteIs(before, x, n);
    RightValue(RightByte(before, x, n), before, x, n);
  }

  lemma PowerBound(j: nat)
    requires j <= 8
    ensures 1 <= Pow2(j) <= 256
  {
    EightBits(0);
    ShiftLeftMonotone(1, Pow2(8 - j), j);
    ShiftLeftTwice(1, 8 - j, j);
  }

  lemma RemainderBelow(v: nat, t: nat)
    requires v + t == 256 * t && 1 <= t <= 256
    ensures v % 256 == 256 - t
  {
    assert v == 256 * (t - 1) + (256 - t);
  }

  /** The mask for the bits that a left shift carries over. */
  lemma HighMask(j: nat)
    requires j <= 8
    ensures 1 <= Pow2(j) <= 256 && ToByte(ShiftLeft(255, j)) == 256 - Pow2(j)
  {
    PowerBound(j);
    assert ShiftLeft(255, j) + Pow2(j) == 256 * Pow2(j) by {
      ShiftLeftAdd(255, 1, j);
      ShiftLeft256(1, j);
    }
    RemainderBelow(ShiftLeft(255, j), Pow2(j));
  }

  /** The high bits of the byte after, moved to the bottom. */
  lemma LeftCarry(after: Byte, j: nat)
    requires j < 8
    ensures ShiftRight(And(after, ToByte(ShiftLeft(255, j))), j) == ShiftRight(after, j) < Pow2(8 - j)
  {
    EightBits(after);
    HighMask(j);
    AndBetween(after, 8, j);
    Split(after, j);
    SplitUnique(after - Low(after, j), j, ShiftRight(after, j), 0);
    ShiftRightBound(after, 8, j);
  }

  /** A byte shifted left: its high part leaves, the rest moves up and c comes in. */
  lemma LeftShifted(x: Byte, n: nat)
    requires 1 <= n <= 8
    ensures ShiftLeft(x, n) == 256 * ShiftRight(x, 8 - n) + ShiftLeft(Low(x, 8 - n), n)
  {
    var j, h, l := 8 - n, ShiftRight(x, 8 - n), Low(x, 8 - n);
    Split(x, j);
    ShiftLeftAdd(ShiftLeft(h, j), l, n);
    ShiftLeftTwice(h, j, n);
    ShiftLeftByte(h);
  }

  lemma RemainderOf(v: nat, h: nat, w: nat)
    requires v == 256 * h + w && w < 256
    ensures ToByte(v) == w
  {
  }

  lemma LeftJoinBound(l: nat, c: nat, n: nat)
    requires 1 <= n <= 8 && l < Pow2(8 - n) && c < Pow2(n)
    ensures ShiftLeft(l, n) + c < 256
  {
    JoinBound(l, 8 - n, c, n);
    EightBits(0);
  }

  lemma LeftJoin(x: Byte, c: nat, n: nat)
    requires 1 <= n <= 8 && c < Pow2(n)
    ensures ToByte(Or(c, ShiftLeft(x, n))) == ShiftLeft(Low(x, 8 - n), n) + c
  {
    var l := Low(x, 8 - n);
    assert ShiftLeft(l, n) + c < 256 by {
      Split(x, 8 - n);
      LeftJoinBound(l, c, n);
    }
    assert Or(c, ShiftLeft(x, n)) == ShiftLeft(x, n) + c by {
      OrDisjoint(x, c, n);
    }
    LeftShifted(x, n);
    RemainderOf(Or(c, ShiftLeft(x, n)), ShiftRight(x, 8 - n), ShiftLeft(l, n) + c);
  }

  lemma LeftByteIs(x: Byte, after: Byte, n: nat)
    requires 1 <= n <= 8
    ensures LeftByte(x, after, n) == ShiftLeft(Low(x, 8 - n), n) + ShiftRight(after, 8 - n)
  {
    LeftCarry(after, 8 - n);
    LeftJoin(x, ShiftRight(after, 8 - n), n);
  }

  lemma LeftByteValue(x: Byte, after: Byte, n: nat)
    requires 1 <= n <= 8
    ensures ShiftLeft(x, n) + ShiftRight(after, 8 - n) == 256 * ShiftRight(x, 8 - n) + LeftByte(x, after, n)
  {
    LeftByteIs(x, after, n);
    LeftShifted(x, n);
  }

  function ByteAt(s: seq<Byte>, i: int): Byte {
    if 0 <= i < |s| then s[i] else 0
  }

  function ShiftedRight(s: seq<Byte>, n: nat): (r: seq<Byte>)
    requires 1 <= n <= 8
    ensures |r| == |s|
  {
    if s == [] then []
    else ShiftedRight(s[..|s| - 1], n) + [RightByte(ByteAt(s, |s| - 2), s[|s| - 1], n)]
  }

  function ShiftedLeft(s: seq<Byte>, n: nat): (r: seq<Byte>)
    requires 1 <= n <= 8
    ensures |r| == |s|
  {
    seq(|s|, i requires 0 <= i < |s| => LeftByte(s[i], ByteAt(s, i + 1), n))
  }

  lemma ValueSnoc(s: seq<Byte>, i: nat)
    requires i < |s|
    ensures Value(s[..i + 1]) == 256 * Value(s[..i]) + s[i]
  {
    assert s[..i + 1][..i] == s[..i];
  }

  lemma RightStep(n: nat, v: nat, v': nat, c: nat, c': nat, x: nat, y: nat)
    requires ShiftLeft(v', n) + c == v && ShiftLeft(y, n) + c' == 256 * c + x
    ensures ShiftLeft(256 * v' + y, n) + c' == 256 * v + x
  {
    ShiftLeftAdd(256 * v', y, n);
    ShiftLeft256(v', n);
  }

  /** Byte i of r is byte i of s shifted right, with what comes in and what goes out accounted for. */
  ghost predicate RightAt(s: seq<Byte>, r: seq<Byte>, n: nat, i: nat) {
    i < |s| == |r| && ShiftLeft(r[i], n) + Low(s[i], n) == 256 * Low(ByteAt(s, i - 1), n) + s[i]
  }

  lemma {:induction false} ShiftedRightIndex(s: seq<Byte>, n: nat, i: nat)
    requires 1 <= n <= 8 && i < |s|
    ensures ShiftedRight(s, n)[i] == RightByte(ByteAt(s, i - 1), s[i], n)
  {
    if i < |s| - 1 {
      ShiftedRightIndex(s[..|s| - 1], n, i);
    }
  }

  lemma ShiftedRightAt(s: seq<Byte>, n: nat, i: nat)
    requires 1 <= n <= 8 && i < |s|
    ensures RightAt(s, ShiftedRight(s, n), n, i)
  {
    ShiftedRightIndex(s, n, i);
    RightByteValue(ByteAt(s, i - 1), s[i], n);
  }

  /** The first i bytes, shifted, and the bits on their way out of them. */
  lemma {:induction false} RightPrefix(s: seq<Byte>, r: seq<Byte>, n: nat, i: nat)
    requires |r| == |s| && i <= |s| && forall j: nat :: j < |s| ==> RightAt(s, r, n, j)
    ensures ShiftLeft(Value(r[..i]), n) + Low(ByteAt(s, i - 1), n) == Value(s[..i])
  {
    if i == 0 {
      ZeroShifted(n);
    } else {
      RightPrefix(s, r, n, i - 1);
      RightNext(s, r, n, i - 1);
    }
  }

  lemma RightNext(s: seq<Byte>, r: seq<Byte>, n: nat, i: nat)
    requires RightAt(s, r, n, i) && ShiftLeft(Value(r[..i]), n) + Low(ByteAt(s, i - 1), n) == Value(s[..i])
    ensures ShiftLeft(Value(r[..i + 1]), n) + Low(ByteAt(s, i), n) == Value(s[..i + 1])
  {
    assert Value(s[..i + 1]) == 256 * Value(s[..i]) + s[i] by { ValueSnoc(s, i); }
    assert Value(r[..i + 1]) == 256 * Value(r[..i]) + r[i] by { ValueSnoc(r, i); }
    RightStep(n, Value(s[..i]), Value(r[..i]), Low(ByteAt(s, i - 1), n), Low(s[i], n), s[i], r[i]);
  }

  /** A right shift divides by a power of two. */
  lemma ShiftRightDivides(s: seq<Byte>, n: nat)
    requires 1 <= n <= 8
    ensures Value(ShiftedRight(s, n)) == Value(s) / Pow2(n)
  {
    forall j: nat | j < |s| ensures RightAt(s, ShiftedRight(s, n), n, j) {
      ShiftedRightAt(s, n, j);
    }
    RightQuotient(s, ShiftedRight(s, n), n);
  }

  lemma RightQuotient(s: seq<Byte>, r: seq<Byte>, n: nat)
    requires |r| == |s| && forall j: nat :: j < |s| ==> RightAt(s, r, n, j)
    ensures Value(r) == Value(s) / Pow2(n)
  {
    var out := Low(ByteAt(s, |s| - 1), n);
    assert ShiftLeft(Value(r), n) + out == Value(s) by {
      RightPrefix(s, r, n, |s|);
      assert s[..|s|] == s && r[..|s|] == r;
    }
    assert out < Pow2(n) by {
      Split(ByteAt(s, |s| - 1), n);
    }
    SplitUnique(Value(s), n, Value(r), out);
    ShiftsAreArithmetic(Value(s), n);
  }

  lemma LeftStep(n: nat, v: nat, v': nat, t: nat, c: nat, c': nat, x: nat, y: nat, w: nat, w': nat, t': nat)
    requires ShiftLeft(v, n) + c == t + v' && ShiftLeft(x, n) + c' == 256 * c + y
    requires w == 256 * v + x && w' == 256 * v' + y && t' == 256 * t
    ensures ShiftLeft(w, n) + c' == t' + w'
  {
    ShiftLeftAdd(256 * v, x, n);
    ShiftLeft256(v, n);
  }

  lemma ShiftByBytes(x: nat, i: nat)
    ensures ShiftLeft(x, 8 * (i + 1)) == 256 * ShiftLeft(x, 8 * i)
  {
    ShiftLeftTwice(x, 8 * i, 8);
    ShiftLeftByte(ShiftLeft(x, 8 * i));
  }

  /** Byte i of r is byte i of s shifted left, with what comes in and what goes out accounted for. */
  ghost predicate LeftAt(s: seq<Byte>, r: seq<Byte>, n: nat, i: nat)
    requires n <= 8
  {
    && i < |s| == |r|
    && ShiftLeft(s[i], n) + ShiftRight(ByteAt(s, i + 1), 8 - n) == 256 * ShiftRight(s[i], 8 - n) + r[i]
  }

  lemma ShiftedLeftAt(s: seq<Byte>, n: nat, i: nat)
    requires 1 <= n <= 8 && i < |s|
    ensures LeftAt(s, ShiftedLeft(s, n), n, i)
  {
    LeftByteValue(s[i], ByteAt(s, i + 1), n);
  }

  /** The first i bytes, shifted, with the bits that come in, and what leaves at the top. */
  lemma {:induction false} LeftPrefix(s: seq<Byte>, r: seq<Byte>, n: nat, i: nat)
    requires 1 <= n <= 8 && |r| == |s| && i <= |s| && forall j: nat :: j < |s| ==> LeftAt(s, r, n, j)
    ensures ShiftLeft(Value(s[..i]), n) + ShiftRight(ByteAt(s, i), 8 - n)
      == ShiftLeft(ShiftRight(ByteAt(s, 0), 8 - n), 8 * i) + Value(r[..i])
  {
    if i == 0 {
      ZeroShifted(n);
    } else {
      var top := ShiftRight(ByteAt(s, 0), 8 - n);
      LeftPrefix(s, r, n, i - 1);
      assert LeftAt(s, r, n, i - 1);
      ValueSnoc(s, i - 1);
      ValueSnoc(r, i - 1);
      ShiftByBytes(top, i - 1);
      LeftStep(n, Value(s[..i - 1]), Value(r[..i - 1]), ShiftLeft(top, 8 * (i - 1)),
               ShiftRight(s[i - 1], 8 - n), ShiftRight(ByteAt(s, i), 8 - n), s[i - 1], r[i - 1],
               Value(s[..i]), Value(r[..i]), ShiftLeft(top, 8 * i));
    }
  }

  lemma {:induction false} ValueBound(s: seq<Byte>)
    ensures Value(s) < Pow2(8 * |s|)
  {
    if s != [] {
      ValueBound(s[..|s| - 1]);
      ShiftByBytes(1, |s| - 1);
    }
  }

  /** A left shift multiplies by a power of two; what leaves at the top is lost. */
  lemma ShiftLeftMultiplies(s: seq<Byte>, n: nat)
    requires 1 <= n <= 8
    ensures Value(ShiftedLeft(s, n)) == (Value(s) * Pow2(n)) % Pow2(8 * |s|)
  {
    forall j: nat | j < |s| ensures LeftAt(s, ShiftedLeft(s, n), n, j) {
      ShiftedLeftAt(s, n, j);
    }
    LeftProduct(s, ShiftedLeft(s, n), n);
  }

  lemma LeftProduct(s: seq<Byte>, r: seq<Byte>, n: nat)
    requires 1 <= n <= 8 && |r| == |s| && forall j: nat :: j < |s| ==> LeftAt(s, r, n, j)
    ensures Value(r) == (Value(s) * Pow2(n)) % Pow2(8 * |s|)
  {
    var top := ShiftRight(ByteAt(s, 0), 8 - n);
    assert ShiftLeft(Value(s), n) == ShiftLeft(top, 8 * |s|) + Value(r) by {
      LeftPrefix(s, r, n, |s|);
      assert s[..|s|] == s && r[..|s|] == r;
      ZeroShifted(8 - n);
    }
    ValueBound(r);
    SplitUnique(ShiftLeft(Value(s), n), 8 * |s|, top, Value(r));
    ShiftsAreArithmetic(ShiftLeft(Value(s), n), 8 * |s|);
    TimesPow2(Value(s), n);
  }

  // ----- shift_bit_array -------------------------------------------------------------------

  function BytesFor(bits: nat): nat {
    bits / 8 + if bits % 8 != 0 then 1 else 0
  }

  /** An array whose first i bytes are shifted right already. */
  ghost function PartlyRight(s: seq<Byte>, rest: seq<Byte>, n: nat, i: nat): seq<Byte>
    requires 1 <= n <= 8 && i <= |s|
  {
    ShiftedRight(s[..i], n) + s[i..] + rest
  }

  lemma PartlyRightEnds(s: seq<Byte>, rest: seq<Byte>, n: nat)
    requires 1 <= n <= 8
    ensures PartlyRight(s, rest, n, 0) == s + rest && PartlyRight(s, rest, n, |s|) == ShiftedRight(s, n) + rest
  {
    assert s[..|s|] == s;
  }

  lemma PartlyRightNext(s: seq<Byte>, rest: seq<Byte>, n: nat, i: nat)
    requires 1 <= n <= 8 && i < |s|
    ensures PartlyRight(s, rest, n, i)[i] == s[i]
    ensures PartlyRight(s, rest, n, i + 1) == PartlyRight(s, rest, n, i)[i := RightByte(ByteAt(s, i - 1), s[i], n)]
  {
    var p := s[..i + 1];
    assert p[..i] == s[..i] && p[i] == s[i] && ByteAt(p, i - 1) == ByteAt(s, i - 1);
    assert ShiftedRight(p, n) == ShiftedRight(s[..i], n) + [RightByte(ByteAt(s, i - 1), s[i], n)];
  }

  /** An array whose bytes from i on are shifted left already. */
  ghost function PartlyLeft(s: seq<Byte>, rest: seq<Byte>, n: nat, i: nat): seq<Byte>
    requires 1 <= n <= 8 && i <= |s|
  {
    s[..i] + ShiftedLeft(s, n)[i..] + rest
  }

  lemma PartlyLeftNext(s: seq<Byte>, rest: seq<Byte>, n: nat, i: nat)
    requires 1 <= n <= 8 && i < |s|
    ensures PartlyLeft(s, rest, n, i + 1)[i] == s[i]
    ensures PartlyLeft(s, rest, n, i) == PartlyLeft(s, rest, n, i + 1)[i := LeftByte(s[i], ByteAt(s, i + 1), n)]
  {
  }

  method PutByte(ar: array<Byte>, i: nat, x: nat)
    requires i < ar.Length
    modifies ar
    ensures ar[..] == old(ar[..])[i := ToByte(x)]
  {
    ar[i] := ToByte(x);
  }

  /** From the front, the low bits of each byte carried into the next. */
  method ShiftRightInPlace(ar: array<Byte>, len: nat, n: nat)
    requires 1 <= n <= 8 && len <= ar.Length
    modifies ar
    ensures ar[..] == ShiftedRight(old(ar[..len]), n) + old(ar[len..])
  {
    ghost var s, rest := ar[..len], ar[len..];
    var carryMask := ToByte(ShiftRight(255, 8 - n));
    var carry: nat := 0;
    PartlyRightEnds(s, rest, n);
    assert ar[..] == s + rest;
    for i := 0 to len
      invariant carry == And(ByteAt(s, i - 1), carryMask)
      invariant ar[..] == PartlyRight(s, rest, n, i)
    {
      carry := CarryRight(ar, carryMask, n, s, rest, i, carry);
    }
  }

  method CarryRight(ar: array<Byte>, carryMask: Byte, n: nat, ghost s: seq<Byte>, ghost rest: seq<Byte>, i: nat,
                    carry: nat)
    returns (nextCarry: nat)
    requires 1 <= n <= 8 && i < |s| && carryMask == ToByte(ShiftRight(255, 8 - n))
    requires carry == And(ByteAt(s, i - 1), carryMask) && ar[..] == PartlyRight(s, rest, n, i)
    modifies ar
    ensures nextCarry == And(ByteAt(s, i), carryMask) && ar[..] == PartlyRight(s, rest, n, i + 1)
  {
    PartlyRightNext(s, rest, n, i);
    assert ar[i] == ar[..][i];
    nextCarry := And(ar[i], carryMask);
    PutByte(ar, i, Or(ShiftLeft(carry, 8 - n), ShiftRight(ar[i], n)));
  }

  /** From the back, the high bits of each byte carried into the one before. */
  method ShiftLeftInPlace(ar: array<Byte>, len: nat, n: nat)
    requires 1 <= n <= 8 && len <= ar.Length
    modifies ar
    ensures ar[..] == ShiftedLeft(old(ar[..len]), n) + old(ar[len..])
  {
    ghost var s, rest := ar[..len], ar[len..];
    var carryMask := ToByte(ShiftLeft(255, 8 - n));
    var carry: nat := 0;
    assert ar[..] == PartlyLeft(s, rest, n, len);
    for i := len downto 0
      invariant carry == And(ByteAt(s, i), carryMask)
      invariant ar[..] == PartlyLeft(s, rest, n, i)
    {
      PartlyLeftNext(s, rest, n, i);
      assert ar[i] == ar[..][i];
      var nextCarry := And(ar[i], carryMask);
      PutByte(ar, i, Or(ShiftRight(carry, 8 - n), ShiftLeft(ar[i], n)));
      carry := nextCarry;
    }
    assert PartlyLeft(s, rest, n, 0) == ShiftedLeft(s, n) + rest;
  }

  /** Right for a positive amount, left for a negative one. */
  function Shifted(s: seq<Byte>, n: int): seq<Byte>
    requires -8 <= n <= 8
  {
    if n > 0 then ShiftedRight(s, n) else if n < 0 then ShiftedLeft(s, -n) else s
  }

  /** Shift the first `size` bits, rounded up to bytes. */
  method ShiftBitArray(ar: array<Byte>, size: nat, n: int)
    requires -8 <= n <= 8 && n <= size && -n <= size && BytesFor(size) <= ar.Length
    modifies ar
    ensures ar[..] == Shifted(old(ar[..BytesFor(size)]), n) + old(ar[BytesFor(size)..])
  {
    var len := BytesFor(size);
    if n > 0 {
      ShiftRightInPlace(ar, len, n);
    } else if n < 0 {
      ShiftLeftInPlace(ar, len, -n);
    }
  }

  // ----- single bits ---------------------------------------------------------------------------

  /** Bit k of a number, the least significant one being bit 0. */
  predicate Bit(x: nat, k: nat) {
    if k == 0 then x % 2 == 1 else Bit(x / 2, k - 1)
  }

  lemma {:induction false} BitIsShift(x: nat, k: nat)
    ensures Bit(x, k) <==> ShiftRight(x, k) % 2 == 1
  {
    if k > 0 {
      BitIsShift(x / 2, k - 1);
    }
  }

  /** Bit p of an array, in reading order. */
  predicate BitAt(s: seq<Byte>, p: nat)
    requires p / 8 < |s|
  {
    Bit(s[p / 8], 7 - p % 8)
  }

  /** The n bits from offset on, read as a number. */
  function BitsAt(s: seq<Byte>, offset: nat, n: nat): nat
    requires offset + n <= 8 * |s|
  {
    if n == 0 then 0 else 2 * BitsAt(s, offset, n - 1) + if BitAt(s, offset + n - 1) then 1 else 0
  }

  lemma {:induction false} ShiftRightMore(x: nat, k: nat)
    ensures ShiftRight(x, k + 1) == ShiftRight(x, k) / 2
  {
    if k > 0 {
      ShiftRightMore(x / 2, k - 1);
    }
  }

  lemma {:induction false} LowSplit(x: nat, r: nat, n: nat)
    ensures Low(x, r + n) == ShiftLeft(Low(ShiftRight(x, r), n), r) + Low(x, r)
  {
    if r > 0 {
      LowSplit(x / 2, r - 1, n);
    }
  }

  /** The n bits of a byte from position `at` on. */
  function Field(x: Byte, at: nat, n: nat): nat
    requires at + n <= 8
  {
    Low(ShiftRight(x, 8 - at - n), n)
  }

  lemma {:induction false} FieldIsBits(s: seq<Byte>, b: nat, at: nat, n: nat)
    requires b < |s| && at + n <= 8
    ensures BitsAt(s, 8 * b + at, n) == Field(s[b], at, n)
  {
    if n > 0 {
      FieldIsBits(s, b, at, n - 1);
      ShiftRightMore(s[b], 8 - at - n);
      BitIsShift(s[b], 8 - at - n);
      assert (8 * b + at + n - 1) / 8 == b && (8 * b + at + n - 1) % 8 == at + n - 1;
    }
  }

  lemma {:induction false} BitsJoin(s: seq<Byte>, offset: nat, j: nat, k: nat)
    requires offset + j + k <= 8 * |s|
    ensures BitsAt(s, offset, j + k) == ShiftLeft(BitsAt(s, offset, j), k) + BitsAt(s, offset + j, k)
  {
    if k > 0 {
      BitsJoin(s, offset, j, k - 1);
    }
  }

  // ----- compare_bits ----------------------------------------------------------------------------

  lemma {:induction false} PowMonotone(j: nat, k: nat)
    requires j <= k
    ensures Pow2(j) <= Pow2(k)
    decreases k
  {
    if j < k {
      PowMonotone(j, k - 1);
    }
  }

  /** n low ones. */
  lemma OnesMask(n: nat)
    requires n <= 8
    ensures ShiftRight(255, 8 - n) == Pow2(n) - 1
  {
    EightBits(0);
    OnesShifted(8, 8 - n);
  }

  /** The ones above position m of a byte. */
  lemma TopOnes(m: nat)
    requires m <= 8
    ensures ShiftLeft(Pow2(8 - m) - 1, m) + Pow2(m) == 256
  {
    EightBits(0);
    ShiftLeftAdd(Pow2(8 - m) - 1, 1, m);
    ShiftLeftTwice(1, 8 - m, m);
  }

  lemma LowOfComplement(x: nat, m: nat, a: nat, p: nat)
    requires ShiftLeft(a, m) + Pow2(m) == 256 == x + p && 1 <= p <= Pow2(m)
    ensures Low(x, m) == Pow2(m) - p
  {
    SplitUnique(x, m, a, Pow2(m) - p);
  }

  lemma FieldMaskFrom(high: nat, low: nat, m: nat, r: nat)
    requires r <= m <= 8 && high + Pow2(r) == 256 && low == Pow2(m) - 1
    ensures Pow2(r) <= Pow2(m) && And(high, low) == Pow2(m) - Pow2(r)
  {
    PowMonotone(r, m);
    assert Low(high, m) == Pow2(m) - Pow2(r) by {
      TopOnes(m);
      LowOfComplement(high, m, Pow2(8 - m) - 1, Pow2(r));
    }
    assert And(high, low) == Low(high, m) by {
      AndLow(high, m);
    }
  }

  /** The mask for the field of n bits from position `at` on. */
  lemma FieldMask(at: nat, n: nat)
    requires at + n <= 8 && at < 8
    ensures var r := 8 - at - n;
      Pow2(r) <= Pow2(8 - at) && And(ToByte(ShiftLeft(255, r)), ShiftRight(255, at)) == Pow2(8 - at) - Pow2(r)
  {
    HighMask(8 - at - n);
    OnesMask(8 - at);
    FieldMaskFrom(ToByte(ShiftLeft(255, 8 - at - n)), ShiftRight(255, at), 8 - at, 8 - at - n);
  }

  lemma MaskedField(x: Byte, at: nat, n: nat)
    requires at + n <= 8
    ensures Pow2(8 - at - n) <= Pow2(8 - at)
    ensures And(x, Pow2(8 - at) - Pow2(8 - at - n)) == ShiftLeft(Field(x, at, n), 8 - at - n)
  {
    var m, r := 8 - at, 8 - at - n;
    PowMonotone(r, m);
    assert And(x, Pow2(m) - Pow2(r)) == Low(x, m) - Low(x, r) by { AndBetween(x, m, r); }
    assert Low(x, m) == ShiftLeft(Field(x, at, n), r) + Low(x, r) by { LowSplit(x, r, n); }
  }

  lemma ShiftLeftInjective(a: nat, b: nat, k: nat)
    ensures ShiftLeft(a, k) == ShiftLeft(b, k) <==> a == b
  {
    SplitUnique(ShiftLeft(a, k), k, a, 0);
    SplitUnique(ShiftLeft(b, k), k, b, 0);
  }

  lemma LowMask(mask: Byte, n: nat)
    requires n <= 8
    ensures And(mask, ShiftRight(255, 8 - n)) == Low(mask, n) < Pow2(n) <= 256
  {
    assert ShiftRight(255, 8 - n) == Pow2(n) - 1 by { OnesMask(n); }
    AndLow(mask, n);
    Split(mask, n);
    PowerBound(n);
  }

  /** Aligning a value of n bits with the field at position `at`. */
  lemma AlignedMask(v: Byte, at: nat, n: nat)
    requires at + n <= 8 && v < Pow2(n)
    ensures Shifted([v], at + n - 8) == [ShiftLeft(v, 8 - at - n)]
  {
    var r := 8 - at - n;
    if r > 0 {
      LeftByteIs(v, 0, r);
      ZeroShifted(8 - r);
      ShiftLeftMonotone(1, Pow2(at), n);
      ShiftLeftTwice(1, at, n);
      LowOfSmall(v, 8 - r);
    }
  }

  /** A value of n bits, shifted as a one-byte array to the field at position `at`. */
  method AlignValue(v: Byte, at: nat, n: nat) returns (d: Byte)
    requires at + n <= 8 && v < Pow2(n)
    ensures d == ShiftLeft(v, 8 - at - n)
  {
    var m := new Byte[1];
    m[0] := v;
    assert m[..1] == [v] && m[1..] == [];
    ShiftBitArray(m, 8, -(8 - n) + at);
    AlignedMask(v, at, n);
    d := m[..][0];
  }

  lemma MaskedFieldIs(x: Byte, v: nat, at: nat, n: nat)
    requires at < 8 && at + n <= 8
    ensures And(x, And(ToByte(ShiftLeft(255, 8 - at - n)), ShiftRight(255, at))) == ShiftLeft(v, 8 - at - n) <==>
      Field(x, at, n) == v
  {
    FieldMask(at, n);
    MaskedField(x, at, n);
    ShiftLeftInjective(Field(x, at, n), v, 8 - at - n);
  }

  method CompareInByte(x: Byte, mask: Byte, at: nat, n: nat) returns (same: bool)
    requires at < 8 && at + n <= 8 && mask < Pow2(n)
    ensures same <==> Field(x, at, n) == mask
  {
    var aligned := AlignValue(mask, at, n);
    var dataMask := And(ToByte(ShiftLeft(255, 8 - at - n)), ShiftRight(255, at));
    MaskedFieldIs(x, mask, at, n);
    same := And(x, dataMask) == aligned;
  }

  lemma HighPart(y: Byte, j: nat)
    requires j < 8
    ensures And(y, ToByte(ShiftLeft(255, j))) <= y
  {
    assert ToByte(ShiftLeft(255, j)) == 256 - Pow2(j) by { HighMask(j); }
    EightBits(y);
    AndBetween(y, 8, j);
  }

  lemma LowOfLow(x: nat, j: nat, k: nat)
    requires j <= k
    ensures Low(Low(x, j), k) == Low(x, j)
  {
    PowMonotone(j, k);
    Split(x, j);
    LowOfSmall(Low(x, j), k);
  }

  lemma AcrossByte(hi: Byte, lo: Byte, x: Byte, y: Byte, at: nat, k: nat)
    requires 1 <= k <= at < 8 && hi == Low(x, 8 - at) && ShiftRight(lo, 8 - k) == ShiftRight(y, 8 - k)
    ensures LeftByte(hi, lo, k) == ShiftLeft(Low(x, 8 - at), k) + ShiftRight(y, 8 - k)
  {
    LeftByteIs(hi, lo, k);
    LowOfLow(x, 8 - at, 8 - k);
  }

  /** The two masked bytes of a field across a byte boundary, shifted together. */
  lemma AcrossValue(x: Byte, y: Byte, at: nat, n: nat)
    requires at < 8 && n <= 8 && at + n > 8
    ensures And(x, ShiftRight(255, at)) < 256 && And(y, ToByte(ShiftLeft(255, 16 - n - at))) < 256
    ensures LeftByte(And(x, ShiftRight(255, at)), And(y, ToByte(ShiftLeft(255, 16 - n - at))), n + at - 8)
      == ShiftLeft(Low(x, 8 - at), n + at - 8) + ShiftRight(y, 16 - n - at)
  {
    var k := n + at - 8;
    var hi, lo := And(x, ShiftRight(255, at)), And(y, ToByte(ShiftLeft(255, 8 - k)));
    assert hi == Low(x, 8 - at) < 256 by { LowMask(x, 8 - at); }
    assert lo <= y by { HighPart(y, 8 - k); }
    assert ShiftRight(lo, 8 - k) == ShiftRight(y, 8 - k) by { LeftCarry(y, 8 - k); }
    AcrossByte(hi, lo, x, y, at, k);
  }

  method CompareAcross(x: Byte, y: Byte, mask: Byte, at: nat, n: nat) returns (same: bool)
    requires at < 8 && n <= 8 && at + n > 8
    ensures same <==> ShiftLeft(Low(x, 8 - at), n + at - 8) + ShiftRight(y, 16 - n - at) == mask
  {
    var upperMask, lowerMask := ShiftRight(255, at), ToByte(ShiftLeft(255, 8 - n + 8 - at));
    AcrossValue(x, y, at, n);
    var pair := new Byte[2];
    pair[0] := And(x, upperMask);
    pair[1] := And(y, lowerMask);
    ghost var before := pair[..2];
    ShiftBitArray(pair, 16, 8 - at - n);
    assert pair[0] == pair[..2][0] == LeftByte(before[0], ByteAt(before, 1), n + at - 8);
    same := pair[0] == mask;
  }

  lemma TopField(y: Byte, k: nat)
    requires k <= 8
    ensures Field(y, 0, k) == ShiftRight(y, 8 - k)
  {
    EightBits(0);
    ShiftRightBound(y, 8, 8 - k);
    LowOfSmall(ShiftRight(y, 8 - k), k);
  }

  lemma LowEnd(s: seq<Byte>, b: nat, at: nat)
    requires at < 8 && b < |s|
    ensures BitsAt(s, 8 * b + at, 8 - at) == Low(s[b], 8 - at)
  {
    FieldIsBits(s, b, at, 8 - at);
  }

  lemma HighEnd(s: seq<Byte>, b: nat, k: nat)
    requires k <= 8 && b < |s|
    ensures BitsAt(s, 8 * b, k) == ShiftRight(s[b], 8 - k)
  {
    FieldIsBits(s, b, 0, k);
    TopField(s[b], k);
  }

  lemma AcrossIsBits(s: seq<Byte>, b: nat, at: nat, n: nat)
    requires at < 8 && n <= 8 && at + n > 8 && b + 1 < |s|
    ensures BitsAt(s, 8 * b + at, n) == ShiftLeft(Low(s[b], 8 - at), n + at - 8) + ShiftRight(s[b + 1], 16 - n - at)
  {
    LowEnd(s, b, at);
    HighEnd(s, b + 1, n + at - 8);
    BitsJoin(s, 8 * b + at, 8 - at, n + at - 8);
  }

  /** True exactly when the addressed bits are the mask's low bits. */
  method CompareBits(ar: seq<Byte>, size: nat, mask: Byte, offset: nat, n: nat) returns (same: bool)
    requires offset + n <= size <= 8 * |ar| && n <= 8 && offset / 8 < |ar|
    ensures same <==> BitsAt(ar, offset, n) == Low(mask, n)
  {
    var startByte, bitOffset := offset / 8, offset % 8;
    LowMask(mask, n);
    var low := And(mask, ShiftRight(255, 8 - n));
    if bitOffset == 0 || bitOffset + n <= 8 {
      FieldIsBits(ar, startByte, bitOffset, n);
      same := CompareInByte(ar[startByte], low, bitOffset, n);
    } else {
      AcrossIsBits(ar, startByte, bitOffset, n);
      same := CompareAcross(ar[startByte], ar[startByte + 1], low, bitOffset, n);
    }
  }
}
