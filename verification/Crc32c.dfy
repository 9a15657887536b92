/** CRC32C with the reflected Castagnoli polynomial (section 12.1 of RFC 3720): the
    table-driven software path computes the bit-by-bit definition, and no corruption
    confined to four consecutive bytes goes unnoticed.  Words are naturals and `Xor`
    works bit by bit, so `/ 2` is a right shift and `% 256` masks the low byte. */
module Crc32c {

  type Byte = b: nat | b < 256

  const POLY: nat := 0x82F6_3B78
  const ONES: nat := 0xFFFF_FFFF
  const WORD: nat := 0x1_0000_0000

  /** Carry-less addition. */
  function Xor(a: nat, b: nat): nat {
    if a == 0 then b
    else if b == 0 then a
    else 2 * Xor(a / 2, b / 2) + (if a % 2 == b % 2 then 0 else 1)
  }

  /** One bit of the reflected division. */
  function Shift(x: nat): nat {
    Xor(x / 2, if x % 2 == 1 then POLY else 0)
  }

  function Shifts(x: nat, n: nat): nat {
    if n == 0 then x else Shift(Shifts(x, n - 1))
  }

  /** The definition: xor the byte into the low end, then eight single-bit divisions. */
  function Feed(crc: nat, b: Byte): nat {
    Shifts(Xor(crc, b), 8)
  }

  function FeedAll(crc: nat, data: seq<Byte>): nat
    decreases |data|
  {
    if data == [] then crc else FeedAll(Feed(crc, data[0]), data[1..])
  }

  function Checksum(data: seq<Byte>): nat {
    Xor(FeedAll(ONES, data), ONES)
  }

  // ---------------------------------------------------------------------------
  // Xor is a group operation that respects shifts and word width
  // ---------------------------------------------------------------------------

  lemma XorHalf(a: nat, b: nat)
    ensures Xor(a, b) / 2 == Xor(a / 2, b / 2)
    ensures Xor(a, b) % 2 == if a % 2 == b % 2 then 0 else 1
  {
  }

  lemma {:induction false} XorCommutes(a: nat, b: nat)
    ensures Xor(a, b) == Xor(b, a)
  {
    if a != 0 && b != 0 {
      XorCommutes(a / 2, b / 2);
    }
  }

  lemma XorZero(a: nat)
    ensures Xor(a, 0) == a && Xor(0, a) == a
  {
  }

  lemma {:induction false} XorAssociates(a: nat, b: nat, c: nat)
    ensures Xor(Xor(a, b), c) == Xor(a, Xor(b, c))
    decreases a + b + c
  {
    if a != 0 && b != 0 && c != 0 {
      XorAssociates(a / 2, b / 2, c / 2);
      XorHalf(a, b);
      XorHalf(b, c);
      XorHalf(Xor(a, b), c);
      XorHalf(a, Xor(b, c));
    }
  }

  lemma {:induction false} XorSelf(a: nat)
    ensures Xor(a, a) == 0
  {
    if a != 0 {
      XorSelf(a / 2);
    }
  }

  lemma XorCancels(a: nat, b: nat)
    ensures Xor(Xor(a, b), b) == a
  {
    XorAssociates(a, b, b);
    XorSelf(b);
  }

  /** Swapping the middle terms of a four-fold xor. */
  lemma XorExchange(a: nat, b: nat, c: nat, d: nat)
    ensures Xor(Xor(a, b), Xor(c, d)) == Xor(Xor(a, c), Xor(b, d))
  {
    hide Xor;
    XorAssociates(a, b, Xor(c, d));
    XorAssociates(b, c, d);
    XorCommutes(b, c);
    XorAssociates(c, b, d);
    XorAssociates(a, c, Xor(b, d));
  }

  function Pow2(n: nat): (p: nat)
    ensures p > 0
  {
    if n == 0 then 1 else 2 * Pow2(n - 1)
  }

  lemma {:induction false} XorBound(a: nat, b: nat, n: nat)
    requires a < Pow2(n) && b < Pow2(n)
    ensures Xor(a, b) < Pow2(n)
  {
    if n > 0 && a != 0 && b != 0 {
      XorBound(a / 2, b / 2, n - 1);
    }
  }

  lemma WordIsPow2()
    ensures Pow2(31) == 0x8000_0000 && Pow2(32) == WORD
  {
    assert Pow2(8) == 256;
    assert Pow2(16) == 0x1_0000;
    assert Pow2(24) == 0x100_0000;
  }

  // ---------------------------------------------------------------------------
  // Division is linear and loses nothing
  // ---------------------------------------------------------------------------

  lemma ShiftLinear(x: nat, y: nat)
    ensures Shift(Xor(x, y)) == Xor(Shift(x), Shift(y))
  {
    hide Xor;
    var p := if x % 2 == 1 then POLY else 0;
    var q := if y % 2 == 1 then POLY else 0;
    XorHalf(x, y);
    XorExchange(x / 2, p, y / 2, q);
    XorSelf(POLY);
    XorZero(POLY);
    XorZero(0);
  }

  lemma {:induction false} ShiftsLinear(x: nat, y: nat, n: nat)
    ensures Shifts(Xor(x, y), n) == Xor(Shifts(x, n), Shifts(y, n))
  {
    hide Xor, Shift;
    if n > 0 {
      ShiftsLinear(x, y, n - 1);
      ShiftLinear(Shifts(x, n - 1), Shifts(y, n - 1));
    }
  }

  /** A non-zero register never becomes zero: the polynomial's top bit marks every odd step. */
  lemma ShiftNonzero(x: nat)
    requires 0 < x < WORD
    ensures 0 < Shift(x) < WORD
  {
    WordIsPow2();
    XorBound(x / 2, if x % 2 == 1 then POLY else 0, 32);
    if x % 2 == 1 {
      XorCancels(x / 2, POLY);
    }
  }

  lemma {:induction false} ShiftsNonzero(x: nat, n: nat)
    requires 0 < x < WORD
    ensures 0 < Shifts(x, n) < WORD
  {
    if n > 0 {
      ShiftsNonzero(x, n - 1);
      ShiftNonzero(Shifts(x, n - 1));
    }
  }

  lemma ShiftsNone(x: nat)
    ensures Shifts(x, 0) == x
  {
  }

  lemma {:induction false} ShiftsAdd(x: nat, m: nat, n: nat)
    ensures Shifts(Shifts(x, m), n) == Shifts(x, m + n)
  {
    if n > 0 {
      ShiftsAdd(x, m, n - 1);
    }
  }

  lemma {:induction false} ShiftsZero(n: nat)
    ensures Shifts(0, n) == 0
  {
    if n > 0 {
      ShiftsZero(n - 1);
    }
  }

  /** A low zero bit only slides out: nothing is divided. */
  lemma ZeroBitSlides(x: nat, n: nat)
    ensures Shifts(2 * x, n + 1) == Shifts(x, n)
    ensures n == 0 ==> Shifts(2 * x, 1) == x
  {
    XorCommutes(x, 0);
    assert Shift(2 * x) == x;
    assert Shifts(2 * x, 1) == Shift(Shifts(2 * x, 0));
    ShiftsAdd(2 * x, 1, n);
  }

  lemma ByteSlides(x: nat)
    ensures Shifts(256 * x, 8) == x
  {
    hide Shifts, Shift, Xor;
    ZeroBitSlides(128 * x, 7);
    ZeroBitSlides(64 * x, 6);
    ZeroBitSlides(32 * x, 5);
    ZeroBitSlides(16 * x, 4);
    ZeroBitSlides(8 * x, 3);
    ZeroBitSlides(4 * x, 2);
    ZeroBitSlides(2 * x, 1);
    ZeroBitSlides(x, 0);
  }

  /** Disjoint bits add up: one doubling at a time. */
  lemma JoinBit(hi: nat, lo: nat)
    requires Xor(hi, lo / 2) == hi + lo / 2
    ensures Xor(2 * hi, lo) == 2 * hi + lo
  {
    XorHalf(2 * hi, lo);
  }

  lemma ByteJoins(hi: nat, lo: Byte)
    ensures Xor(256 * hi, lo) == 256 * hi + lo
  {
    hide Xor;
    XorZero(hi);
    JoinBit(hi, lo / 128);
    JoinBit(2 * hi, lo / 64);
    JoinBit(4 * hi, lo / 32);
    JoinBit(8 * hi, lo / 16);
    JoinBit(16 * hi, lo / 8);
    JoinBit(32 * hi, lo / 4);
    JoinBit(64 * hi, lo / 2);
    JoinBit(128 * hi, lo);
  }

  // ---------------------------------------------------------------------------
  // The table
  // ---------------------------------------------------------------------------

  lemma ByteBound(a: Byte, b: Byte)
    ensures Xor(a, b) < 256
  {
    assert Pow2(8) == 256;
    XorBound(a, b, 8);
  }

  lemma XorByteKeepsHigh(hi: nat, lo: Byte, b: Byte)
    ensures Xor(256 * hi + lo, b) == 256 * hi + Xor(lo, b)
  {
    hide Xor;
    ByteJoins(hi, lo);
    XorAssociates(256 * hi, lo, b);
    ByteBound(lo, b);
    ByteJoins(hi, Xor(lo, b));
  }

  /** Eight divisions of a word: its low byte is divided, the rest slides. */
  lemma WordStep(hi: nat, lo: Byte)
    ensures Shifts(256 * hi + lo, 8) == Xor(hi, Shifts(lo, 8))
  {
    hide Shifts, Shift, Xor;
    ByteJoins(hi, lo);
    ShiftsLinear(256 * hi, lo, 8);
    ByteSlides(hi);
  }

  /** The step the table makes possible: eight divisions are one lookup and one slide. */
  lemma TableStep(crc: nat, b: Byte)
    ensures Feed(crc, b) == Xor(crc / 256, Shifts(Xor(crc, b) % 256, 8))
  {
    hide Shifts, Shift, Xor;
    var hi, lo: Byte := crc / 256, crc % 256;
    var x: nat := Xor(lo, b);
    ByteBound(lo, b);
    XorByteKeepsHigh(hi, lo, b);
    assert Xor(crc, b) == 256 * hi + x;
    assert (256 * hi + x) % 256 == x;
    WordStep(hi, x);
  }

  ghost predicate TableReady(table: seq<nat>) {
    |table| == 256 && forall i :: 0 <= i < 256 ==> table[i] == Shifts(i, 8)
  }

  method InitTable(table: array<nat>)
    requires table.Length == 256
    modifies table
    ensures TableReady(table[..])
  {
    for i := 0 to 256
      invariant forall k :: 0 <= k < i ==> table[k] == Shifts(k, 8)
    {
      var crc: nat := i;
      for j := 0 to 8
        invariant crc == Shifts(i, j)
        invariant forall k :: 0 <= k < i ==> table[k] == Shifts(k, 8)
      {
        crc := Xor(crc / 2, if crc % 2 == 1 then POLY else 0);
      }
      table[i] := crc;
    }
  }

  lemma {:induction false} FeedAllSnoc(crc: nat, data: seq<Byte>, b: Byte)
    ensures FeedAll(crc, data + [b]) == Feed(FeedAll(crc, data), b)
    decreases |data|
  {
    if data == [] {
      assert data + [b] == [b];
      assert FeedAll(Feed(crc, b), [b][1..]) == Feed(crc, b);
    } else {
      assert (data + [b])[1..] == data[1..] + [b];
      FeedAllSnoc(Feed(crc, data[0]), data[1..], b);
    }
  }

  /** The table-driven loop is the bit-by-bit checksum, for every message. */
  method ChecksumByTable(table: array<nat>, data: seq<Byte>) returns (r: nat)
    requires TableReady(table[..])
    ensures r == Checksum(data)
  {
    hide Shifts, Shift, Xor, Feed;
    var crc: nat := ONES;
    for i := 0 to |data|
      invariant crc == FeedAll(ONES, data[..i])
    {
      TableStep(crc, data[i]);
      FeedAllSnoc(ONES, data[..i], data[i]);
      assert data[..i + 1] == data[..i] + [data[i]];
      crc := Xor(crc / 256, table[Xor(crc, data[i]) % 256]);
    }
    assert data[..|data|] == data;
    r := Xor(crc, ONES);
  }

  // ---------------------------------------------------------------------------
  // Bursts of up to 32 bits
  // ---------------------------------------------------------------------------

  /** A message as the number it enters the register as, first byte lowest. */
  function Number(data: seq<Byte>): nat {
    if data == [] then 0 else data[0] + 256 * Number(data[1..])
  }

  /** Bytes still to come may be xored in ahead of time, one byte further up. */
  lemma FeedAhead(crc: nat, b: Byte, n: nat)
    ensures Xor(Feed(crc, b), n) == Shifts(Xor(crc, b + 256 * n), 8)
  {
    hide Shifts, Shift, Xor;
    ByteSlides(n);
    ShiftsLinear(Xor(crc, b), 256 * n, 8);
    ByteJoins(n, b);
    XorCommutes(b, 256 * n);
    XorAssociates(crc, b, 256 * n);
  }

  /** The whole checksum loop is one long division of the message's number. */
  lemma {:induction false} FeedAllIsDivision(crc: nat, data: seq<Byte>)
    ensures FeedAll(crc, data) == Shifts(Xor(crc, Number(data)), 8 * |data|)
    decreases |data|
  {
    hide Shifts, Shift, Xor, Feed;
    if data == [] {
      XorZero(crc);
      assert Shifts(crc, 0) == crc by {
        ShiftsNone(crc);
      }
    } else {
      var b, rest := data[0], data[1..];
      FeedAllIsDivision(Feed(crc, b), rest);
      FeedAhead(crc, b, Number(rest));
      ShiftsAdd(Xor(crc, Number(data)), 8, 8 * |rest|);
    }
  }

  predicate DifferWithin(x: seq<Byte>, y: seq<Byte>, from: nat, len: nat) {
    && |x| == |y|
    && from + len <= |x|
    && x[..from] == y[..from]
    && x[from + len..] == y[from + len..]
    && x != y
  }

  lemma {:induction false} FeedAllConcat(crc: nat, x: seq<Byte>, y: seq<Byte>)
    ensures FeedAll(crc, x + y) == FeedAll(FeedAll(crc, x), y)
    decreases |x|
  {
    if x == [] {
      assert x + y == y;
    } else {
      assert (x + y)[1..] == x[1..] + y;
      FeedAllConcat(Feed(crc, x[0]), x[1..], y);
    }
  }

  lemma {:induction false} NumberBound(x: seq<Byte>)
    ensures Number(x) < Pow2(8 * |x|)
  {
    if x != [] {
      NumberBound(x[1..]);
      Pow2Byte(8 * |x| - 8);
    }
  }

  lemma Pow2Byte(n: nat)
    ensures Pow2(n + 8) == 256 * Pow2(n)
  {
    assert Pow2(n + 2) == 4 * Pow2(n);
    assert Pow2(n + 4) == 4 * Pow2(n + 2);
    assert Pow2(n + 6) == 4 * Pow2(n + 4);
  }

  lemma {:induction false} NumberInjective(x: seq<Byte>, y: seq<Byte>)
    requires |x| == |y| && Number(x) == Number(y)
    ensures x == y
  {
    if x != [] {
      assert x[0] == Number(x) % 256 && y[0] == Number(y) % 256;
      NumberInjective(x[1..], y[1..]);
      assert x == [x[0]] + x[1..] && y == [y[0]] + y[1..];
    }
  }

  /** Registers that differ keep differing when fed the same bytes. */
  lemma SameTailKeepsApart(c: nat, c': nat, tail: seq<Byte>)
    requires c < WORD && c' < WORD && c != c'
    ensures FeedAll(c, tail) != FeedAll(c', tail)
  {
    hide Shifts, Shift, Xor, FeedAll;
    var n := Number(tail);
    FeedAllIsDivision(c, tail);
    FeedAllIsDivision(c', tail);
    ShiftsLinear(Xor(c, n), Xor(c', n), 8 * |tail|);
    XorExchange(c, n, c', n);
    XorSelf(n);
    XorZero(Xor(c, c'));
    XorNonzero(c, c');
    WordIsPow2();
    XorBound(c, c', 32);
    ShiftsNonzero(Xor(c, c'), 8 * |tail|);
    XorSelf(FeedAll(c, tail));
  }

  lemma XorNonzero(a: nat, b: nat)
    requires a != b
    ensures Xor(a, b) != 0
  {
    XorCancels(a, b);
  }

  lemma {:induction false} FeedAllBound(crc: nat, data: seq<Byte>)
    requires crc < WORD
    ensures FeedAll(crc, data) < WORD
    decreases |data|
  {
    if data != [] {
      WordIsPow2();
      XorBound(crc, data[0], 32);
      var x := Xor(crc, data[0]);
      if x == 0 {
        ShiftsZero(8);
      } else {
        ShiftsNonzero(x, 8);
      }
      FeedAllBound(Feed(crc, data[0]), data[1..]);
    }
  }

  lemma WindowKeepsApart(crc: nat, u: seq<Byte>, v: seq<Byte>)
    requires |u| == |v| <= 4 && u != v
    ensures FeedAll(crc, u) != FeedAll(crc, v)
  {
    hide Shifts, Shift, Xor, FeedAll;
    var m, n := Number(u), Number(v);
    FeedAllIsDivision(crc, u);
    FeedAllIsDivision(crc, v);
    ShiftsLinear(Xor(crc, m), Xor(crc, n), 8 * |u|);
    XorExchange(crc, m, crc, n);
    XorSelf(crc);
    XorZero(Xor(m, n));
    if m == n {
      NumberInjective(u, v);
      assert false;
    }
    XorNonzero(m, n);
    NumberBound(u);
    NumberBound(v);
    Pow2Monotone(8 * |u|, 32);
    WordIsPow2();
    XorBound(m, n, 32);
    ShiftsNonzero(Xor(m, n), 8 * |u|);
    XorSelf(FeedAll(crc, u));
  }

  lemma {:induction false} Pow2Monotone(m: nat, n: nat)
    requires m <= n
    ensures Pow2(m) <= Pow2(n)
    decreases n
  {
    if m < n {
      Pow2Monotone(m, n - 1);
    }
  }

  /** Two messages of one length that differ, and differ only inside four consecutive
      bytes, never have the same checksum. */
  lemma BurstDetected(x: seq<Byte>, y: seq<Byte>, from: nat, len: nat)
    requires len <= 4 && DifferWithin(x, y, from, len)
    ensures Checksum(x) != Checksum(y)
  {
    hide Shifts, Shift, Xor, FeedAll, Feed;
    var pre, u, v, post := x[..from], x[from..from + len], y[from..from + len], x[from + len..];
    assert x == (pre + u) + post && y == (pre + v) + post;
    assert u != v;
    FeedAllConcat(ONES, pre + u, post);
    FeedAllConcat(ONES, pre + v, post);
    FeedAllConcat(ONES, pre, u);
    FeedAllConcat(ONES, pre, v);
    FeedAllBound(ONES, pre + u);
    FeedAllBound(ONES, pre + v);
    WindowKeepsApart(FeedAll(ONES, pre), u, v);
    SameTailKeepsApart(FeedAll(ONES, pre + u), FeedAll(ONES, pre + v), post);
    XorCancels(FeedAll(ONES, x), ONES);
    XorCancels(FeedAll(ONES, y), ONES);
  }

  // ---------------------------------------------------------------------------
  // Which polynomial: the residue of CRC32C
  // ---------------------------------------------------------------------------

  /** Carry-less addition of two bits. */
  function XorBit(a: nat, b: nat): nat {
    if a == b then 0 else 1
  }

  lemma {:induction false} BitIsXor(a: nat, b: nat)
    requires a < 2 && b < 2
    ensures Xor(a, b) == XorBit(a, b)
  {
  }

  lemma {:induction false} JoinOne(a: nat, c: nat, b: nat, d: nat)
    requires c < 2 && d < 2
    ensures Xor(2 * a + c, 2 * b + d) == 2 * Xor(a, b) + Xor(c, d)
  {
    hide Xor;
    assert (2 * a + c) / 2 == a && (2 * b + d) / 2 == b;
    XorHalf(2 * a + c, 2 * b + d);
    BitIsXor(c, d);
  }

  lemma {:induction false} JoinTwo(a: nat, c: nat, b: nat, d: nat)
    requires c < 4 && d < 4
    ensures Xor(4 * a + c, 4 * b + d) == 4 * Xor(a, b) + Xor(c, d)
  {
    hide Xor;
    JoinOne(2 * a + c / 2, c % 2, 2 * b + d / 2, d % 2);
    JoinOne(a, c / 2, b, d / 2);
    JoinOne(c / 2, c % 2, d / 2, d % 2);
  }

  lemma {:induction false} JoinNibble(a: nat, c: nat, b: nat, d: nat)
    requires c < 16 && d < 16
    ensures Xor(16 * a + c, 16 * b + d) == 16 * Xor(a, b) + Xor(c, d)
  {
    hide Xor;
    JoinTwo(4 * a + c / 4, c % 4, 4 * b + d / 4, d % 4);
    JoinTwo(a, c / 4, b, d / 4);
    JoinTwo(c / 4, c % 4, d / 4, d % 4);
  }

  lemma {:induction false} XorTwoBits(p: nat, q: nat, p': nat, q': nat)
    requires p < 2 && q < 2 && p' < 2 && q' < 2
    ensures Xor(2 * p + q, 2 * p' + q') == 2 * XorBit(p, p') + XorBit(q, q')
  {
    hide Xor, XorBit;
    JoinOne(p, q, p', q');
    BitIsXor(p, p');
    BitIsXor(q, q');
  }

  lemma {:induction false} XorDigits(p: nat, q: nat, r: nat, s: nat, p': nat, q': nat, r': nat, s': nat)
    requires p < 2 && q < 2 && r < 2 && s < 2 && p' < 2 && q' < 2 && r' < 2 && s' < 2
    ensures Xor(8 * p + 4 * q + 2 * r + s, 8 * p' + 4 * q' + 2 * r' + s')
            == 8 * XorBit(p, p') + 4 * XorBit(q, q') + 2 * XorBit(r, r') + XorBit(s, s')
  {
    hide Xor, XorBit;
    JoinTwo(2 * p + q, 2 * r + s, 2 * p' + q', 2 * r' + s');
    XorTwoBits(p, q, p', q');
    XorTwoBits(r, s, r', s');
  }

  lemma DigitBits(a: nat) returns (p: nat, q: nat, r: nat, s: nat)
    requires a < 16
    ensures p < 2 && q < 2 && r < 2 && s < 2 && a == 8 * p + 4 * q + 2 * r + s
  {
    p := if a < 8 then 0 else 1;
    var b := a - 8 * p;
    q := if b < 4 then 0 else 1;
    var c := b - 4 * q;
    r := if c < 2 then 0 else 1;
    s := c - 2 * r;
  }

  // Adding each hexadecimal digit of the polynomial, without division.

  function Add8(a: nat): nat
    requires a < 16
  {
    if a < 8 then a + 8 else a - 8
  }

  function Add2(a: nat): nat
    requires a < 16
  {
    if a < 2 || 4 <= a < 6 || 8 <= a < 10 || 12 <= a < 14 then a + 2 else a - 2
  }

  function AddF(a: nat): nat
    requires a < 16
  {
    15 - a
  }

  function Add6(a: nat): nat
    requires a < 16
  {
    if a < 2 || 8 <= a < 10 then a + 6 else if a < 4 || 10 <= a < 12 then a + 2
    else if a < 6 || 12 <= a < 14 then a - 2 else a - 6
  }

  function Add3(a: nat): nat
    requires a < 16
  {
    if a < 4 then 3 - a else if a < 8 then 11 - a else if a < 12 then 19 - a else 27 - a
  }

  function AddB(a: nat): nat
    requires a < 16
  {
    if a < 4 || 8 <= a < 12 then 11 - a else 19 - a
  }

  function Add7(a: nat): nat
    requires a < 16
  {
    if a < 8 then 7 - a else 23 - a
  }

  lemma {:induction false} AddIsXor(a: nat)
    requires a < 16
    ensures Xor(a, 8) == Add8(a)
    ensures Xor(a, 2) == Add2(a)
    ensures Xor(a, 15) == AddF(a)
    ensures Xor(a, 6) == Add6(a)
    ensures Xor(a, 3) == Add3(a)
    ensures Xor(a, 11) == AddB(a)
    ensures Xor(a, 7) == Add7(a)
  {
    hide Xor;
    var p, q, r, s := DigitBits(a);
    XorDigits(p, q, r, s, 1, 0, 0, 0);
    XorDigits(p, q, r, s, 0, 0, 1, 0);
    XorDigits(p, q, r, s, 1, 1, 1, 1);
    XorDigits(p, q, r, s, 0, 1, 1, 0);
    XorDigits(p, q, r, s, 0, 0, 1, 1);
    XorDigits(p, q, r, s, 1, 0, 1, 1);
    XorDigits(p, q, r, s, 0, 1, 1, 1);
  }

  function Quad(a: nat, b: nat, c: nat, d: nat): nat {
    4096 * a + 256 * b + 16 * c + d
  }

  lemma {:induction false} XorQuad(h: nat, a: nat, b: nat, c: nat, d: nat, h': nat, a': nat, b': nat, c': nat, d': nat)
    requires a < 16 && b < 16 && c < 16 && d < 16 && a' < 16 && b' < 16 && c' < 16 && d' < 16
    ensures Xor(65536 * h + Quad(a, b, c, d), 65536 * h' + Quad(a', b', c', d'))
            == 65536 * Xor(h, h') + Quad(Xor(a, a'), Xor(b, b'), Xor(c, c'), Xor(d, d'))
  {
    hide Xor;
    JoinNibble(4096 * h + 256 * a + 16 * b + c, d, 4096 * h' + 256 * a' + 16 * b' + c', d');
    JoinNibble(256 * h + 16 * a + b, c, 256 * h' + 16 * a' + b', c');
    JoinNibble(16 * h + a, b, 16 * h' + a', b');
    JoinNibble(h, a, h', a');
  }

  /** A word from its eight hexadecimal digits. */
  function Word(a: nat, b: nat, c: nat, d: nat, e: nat, f: nat, g: nat, h: nat): nat {
    65536 * Quad(a, b, c, d) + Quad(e, f, g, h)
  }

  lemma PolyDigits()
    ensures POLY == Word(8, 2, 15, 6, 3, 11, 7, 8)
  {
  }

  lemma {:induction false} XorPoly(a: nat, b: nat, c: nat, d: nat, e: nat, f: nat, g: nat, h: nat)
    requires a < 16 && b < 16 && c < 16 && d < 16 && e < 16 && f < 16 && g < 16 && h < 16
    ensures Xor(Word(a, b, c, d, e, f, g, h), POLY)
            == Word(Xor(a, 8), Xor(b, 2), Xor(c, 15), Xor(d, 6), Xor(e, 3), Xor(f, 11), Xor(g, 7), Xor(h, 8))
  {
    PolyDigits();
    hide Xor, Quad;
    XorQuad(Quad(a, b, c, d), e, f, g, h, Quad(8, 2, 15, 6), 3, 11, 7, 8);
    XorQuad(0, a, b, c, d, 0, 8, 2, 15, 6);
    XorZero(0);
  }

  lemma {:induction false} OddShiftIs(x: nat, y: nat)
    requires x == 2 * y + 1
    ensures Shift(x) == Xor(y, POLY)
  {
    hide Xor;
  }

  /** An odd register, given by the digits of its upper 31 bits, takes the polynomial in. */
  lemma {:induction false} OddShift(x: nat, a: nat, b: nat, c: nat, d: nat, e: nat, f: nat, g: nat, h: nat)
    requires a < 16 && b < 16 && c < 16 && d < 16 && e < 16 && f < 16 && g < 16 && h < 16
    requires x == 2 * Word(a, b, c, d, e, f, g, h) + 1
    ensures Shift(x) == Word(Add8(a), Add2(b), AddF(c), Add6(d), Add3(e), AddB(f), Add7(g), Add8(h))
  {
    hide Xor, Add8, Add2, AddF, Add6, Add3, AddB, Add7, Quad, Word, Shift;
    OddShiftIs(x, Word(a, b, c, d, e, f, g, h));
    XorPoly(a, b, c, d, e, f, g, h);
    AddIsXor(a);
    AddIsXor(b);
    AddIsXor(c);
    AddIsXor(d);
    AddIsXor(e);
    AddIsXor(f);
    AddIsXor(g);
    AddIsXor(h);
  }

  lemma {:induction false} EvenShift(x: nat)
    ensures Shift(2 * x) == x
  {
    XorZero(x);
  }

  /** One more shift. */
  lemma {:induction false} Then(x: nat, n: nat)
    ensures Shifts(x, n + 1) == Shift(Shifts(x, n))
  {
    hide Shift;
  }

  // The register after each further eight shifts, worked out digit by digit.

  lemma Shifts8()
    ensures Shifts(ONES, 8) == 0xAD82_ACAE
  {
    hide Shift, Shifts, Xor;
    ShiftsNone(ONES);
    Then(ONES, 0);
    OddShift(0xFFFF_FFFF, 0x7, 0xF, 0xF, 0xF, 0xF, 0xF, 0xF, 0xF);
    Then(ONES, 1);
    OddShift(0xFD09_C487, 0x7, 0xE, 0x8, 0x4, 0xE, 0x2, 0x4, 0x3);
    Then(ONES, 2);
    OddShift(0xFC72_D93B, 0x7, 0xE, 0x3, 0x9, 0x6, 0xC, 0x9, 0xD);
    Then(ONES, 3);
    OddShift(0xFCCF_57E5, 0x7, 0xE, 0x6, 0x7, 0xA, 0xB, 0xF, 0x2);
    Then(ONES, 4);
    EvenShift(0x7E48_C845);
    Then(ONES, 5);
    OddShift(0x7E48_C845, 0x3, 0xF, 0x2, 0x4, 0x6, 0x4, 0x2, 0x2);
    Then(ONES, 6);
    EvenShift(0x5EE9_2FAD);
    Then(ONES, 7);
    OddShift(0x5EE9_2FAD, 0x2, 0xF, 0x7, 0x4, 0x9, 0x7, 0xD, 0x6);
  }

  lemma Shifts16()
    ensures Shifts(ONES, 16) == 0x0E9E_882D
  {
    hide Shift, Shifts, Xor;
    Shifts8();
    Then(ONES, 8);
    EvenShift(0x56C1_5657);
    Then(ONES, 9);
    OddShift(0x56C1_5657, 0x2, 0xB, 0x6, 0x0, 0xA, 0xB, 0x2, 0xB);
    Then(ONES, 10);
    OddShift(0xA996_9053, 0x5, 0x4, 0xC, 0xB, 0x4, 0x8, 0x2, 0x9);
    Then(ONES, 11);
    OddShift(0xD63D_7351, 0x6, 0xB, 0x1, 0xE, 0xB, 0x9, 0xA, 0x8);
    Then(ONES, 12);
    EvenShift(0x74F4_4168);
    Then(ONES, 13);
    EvenShift(0x3A7A_20B4);
    Then(ONES, 14);
    EvenShift(0x1D3D_105A);
    Then(ONES, 15);
    EvenShift(0x0E9E_882D);
  }

  lemma Shifts24()
    ensures Shifts(ONES, 24) == 0x9F9B_5C85
  {
    hide Shift, Shifts, Xor;
    Shifts16();
    Then(ONES, 16);
    OddShift(0x0E9E_882D, 0x0, 0x7, 0x4, 0xF, 0x4, 0x4, 0x1, 0x6);
    Then(ONES, 17);
    EvenShift(0x42DC_BFB7);
    Then(ONES, 18);
    OddShift(0x42DC_BFB7, 0x2, 0x1, 0x6, 0xE, 0x5, 0xF, 0xD, 0xB);
    Then(ONES, 19);
    OddShift(0xA398_64A3, 0x5, 0x1, 0xC, 0xC, 0x3, 0x2, 0x5, 0x1);
    Then(ONES, 20);
    OddShift(0xD33A_0929, 0x6, 0x9, 0x9, 0xD, 0x0, 0x4, 0x9, 0x4);
    Then(ONES, 21);
    EvenShift(0x75B5_9FF6);
    Then(ONES, 22);
    EvenShift(0x3ADA_CFFB);
    Then(ONES, 23);
    OddShift(0x3ADA_CFFB, 0x1, 0xD, 0x6, 0xD, 0x6, 0x7, 0xF, 0xD);
  }

  lemma Shifts32()
    ensures Shifts(ONES, 32) == 0xB798_B438
  {
    hide Shift, Shifts, Xor;
    Shifts24();
    Then(ONES, 24);
    OddShift(0x9F9B_5C85, 0x4, 0xF, 0xC, 0xD, 0xA, 0xE, 0x4, 0x2);
    Then(ONES, 25);
    EvenShift(0x669D_CA9D);
    Then(ONES, 26);
    OddShift(0x669D_CA9D, 0x3, 0x3, 0x4, 0xE, 0xE, 0x5, 0x4, 0xE);
    Then(ONES, 27);
    EvenShift(0x58DC_6F1B);
    Then(ONES, 28);
    OddShift(0x58DC_6F1B, 0x2, 0xC, 0x6, 0xE, 0x3, 0x7, 0x8, 0xD);
    Then(ONES, 29);
    OddShift(0xAE98_0CF5, 0x5, 0x7, 0x4, 0xC, 0x0, 0x6, 0x7, 0xA);
    Then(ONES, 30);
    EvenShift(0x6ADD_1E81);
    Then(ONES, 31);
    OddShift(0x6ADD_1E81, 0x3, 0x5, 0x6, 0xE, 0x8, 0xF, 0x4, 0x0);
  }

  /** The four bytes of a word, lowest first. */
  function Bytes(w: nat): (s: seq<Byte>)
    ensures |s| == 4
  {
    [w % 256, w / 256 % 256, w / 65536 % 256, w / 16777216 % 256]
  }

  lemma FourBytes(a: Byte, b: Byte, c: Byte, d: Byte)
    ensures Number([a, b, c, d]) == a + 256 * (b + 256 * (c + 256 * d))
  {
    assert [a, b, c, d][1..] == [b, c, d] && [b, c, d][1..] == [c, d] && [c, d][1..] == [d] && [d][1..] == [];
    assert Number([d]) == d;
    assert Number([c, d]) == c + 256 * d;
    assert Number([b, c, d]) == b + 256 * Number([c, d]);
  }

  lemma BytesNumber(w: nat)
    requires w < WORD
    ensures Number(Bytes(w)) == w
  {
    hide Number;
    FourBytes(w % 256, w / 256 % 256, w / 65536 % 256, w / 16777216 % 256);
    var x, y := w / 256, w / 65536;
    assert y == x / 256 && w / 16777216 == y / 256;
    assert y / 256 < 256;
  }

  /** Every message followed by its own checksum leaves the register at the residue of
      CRC32C. */
  lemma Residue(m: seq<Byte>)
    ensures FeedAll(ONES, m + Bytes(Checksum(m))) == 0xB798_B438
  {
    hide Xor, Shift, Shifts, Feed, FeedAll, Bytes, Number;
    var reg, c := FeedAll(ONES, m), Checksum(m);
    FeedAllBound(ONES, m);
    WordIsPow2();
    XorBound(reg, ONES, 32);
    FeedAllConcat(ONES, m, Bytes(c));
    FeedAllIsDivision(reg, Bytes(c));
    BytesNumber(c);
    XorCommutes(reg, ONES);
    XorCommutes(reg, Xor(ONES, reg));
    XorCancels(ONES, reg);
    Shifts32();
  }

  /** Four bytes after a message bring the register to the residue exactly when they are
      its checksum. */
  lemma ResidueIff(m: seq<Byte>, c: seq<Byte>)
    requires |c| == 4
    ensures FeedAll(ONES, m + c) == 0xB798_B438 <==> c == Bytes(Checksum(m))
  {
    hide Xor, FeedAll, Bytes;
    var own := Bytes(Checksum(m));
    Residue(m);
    FeedAllConcat(ONES, m, c);
    FeedAllConcat(ONES, m, own);
    if c != own {
      WindowKeepsApart(FeedAll(ONES, m), c, own);
    }
  }

  lemma ChecksumOfNothing()
    ensures Checksum([]) == 0
  {
    XorSelf(ONES);
  }
}
