/**
 * CRC-32 of 7zCrc.c and 7zCrcOpt.c. The meaning is the shift register of section 8 of RFC 1952, one bit at a
 * time; the tables, and four bytes at a time, rest on its linearity.
 */
module Crc {
  import opened Bits
  import opened Modular

  // ---------------------------------------------------------------- exclusive or

  function Xor(a: nat, b: nat): nat
    decreases a + b
  {
    if a == 0 then b else if b == 0 then a else (a % 2 + b % 2) % 2 + 2 * Xor(a / 2, b / 2)
  }

  lemma {:induction false} XorHalves(a: nat, b: nat)
    ensures Xor(a, b) / 2 == Xor(a / 2, b / 2) && Xor(a, b) % 2 == (a % 2 + b % 2) % 2
  {
  }

  lemma {:induction false} XorCommutes(a: nat, b: nat)
    ensures Xor(a, b) == Xor(b, a)
    decreases a + b
  {
    if a > 0 && b > 0 { XorCommutes(a / 2, b / 2); }
  }

  lemma {:induction false} XorZero(a: nat)
    ensures Xor(a, 0) == a && Xor(0, a) == a
  {
  }

  lemma {:induction false} XorAssociates(a: nat, b: nat, c: nat)
    ensures Xor(Xor(a, b), c) == Xor(a, Xor(b, c))
    decreases a + b + c
  {
    hide Xor;
    XorZero(a);
    XorZero(b);
    XorZero(c);
    XorZero(Xor(a, b));
    XorZero(Xor(b, c));
    if a > 0 && b > 0 && c > 0 {
      XorAssociates(a / 2, b / 2, c / 2);
      XorHalves(a, b);
      XorHalves(b, c);
      XorHalves(Xor(a, b), c);
      XorHalves(a, Xor(b, c));
      Parities(a % 2, b % 2, c % 2);
      SameHalves(Xor(Xor(a, b), c), Xor(a, Xor(b, c)));
    }
  }

  lemma {:induction false} Parities(a: Bit, b: Bit, c: Bit)
    ensures ((a + b) % 2 + c) % 2 == (a + (b + c) % 2) % 2
  {
  }

  lemma {:induction false} SameHalves(x: nat, y: nat)
    ensures x / 2 == y / 2 && x % 2 == y % 2 ==> x == y
  {
  }

  lemma {:induction false} XorSelf(a: nat)
    ensures Xor(a, a) == 0
  {
    if a > 0 { XorSelf(a / 2); }
  }

  /** (a ^ b) ^ (c ^ d) == (a ^ c) ^ (b ^ d) */
  lemma {:induction false} XorExchange(a: nat, b: nat, c: nat, d: nat)
    ensures Xor(Xor(a, b), Xor(c, d)) == Xor(Xor(a, c), Xor(b, d))
  {
    hide Xor;
    XorAssociates(a, b, Xor(c, d));
    XorAssociates(b, c, d);
    XorCommutes(b, c);
    XorAssociates(c, b, d);
    XorAssociates(a, c, Xor(b, d));
  }

  lemma {:induction false} XorBound(a: nat, b: nat, n: nat)
    requires a < Pow2(n) && b < Pow2(n)
    ensures Xor(a, b) < Pow2(n)
    decreases n
  {
    if a > 0 && b > 0 && n > 0 { XorBound(a / 2, b / 2, n - 1); }
  }

  /** Numbers without a common bit. */
  lemma {:induction false} XorAdds(high: nat, low: nat, n: nat)
    requires low < Pow2(n)
    ensures Xor(Shl(high, n), low) == Shl(high, n) + low
    decreases n
  {
    if n == 0 {
      assert Xor(high, 0) == high;
    } else if Shl(high, n) > 0 && low > 0 {
      XorAdds(high, low / 2, n - 1);
    }
  }

  // ---------------------------------------------------------------- the shift register

  const POLY := 0xEDB88320

  /** One bit: (r >> 1) ^ (kCrcPoly & ~((r & 1) - 1)) */
  function Shift(r: nat): nat
  {
    Xor(r / 2, if r % 2 == 1 then POLY else 0)
  }

  function Shifts(r: nat, n: nat): nat
  {
    if n == 0 then r else Shift(Shifts(r, n - 1))
  }

  /** The register after one more byte. */
  function Feed(v: nat, b: Byte): nat
  {
    Shifts(Xor(v, b), 8)
  }

  /** The register after all bytes of s. */
  function FeedAll(v: nat, s: seq<Byte>): nat
  {
    if s == [] then v else Feed(FeedAll(v, s[..|s| - 1]), s[|s| - 1])
  }

  lemma {:induction false} ShiftLinear(a: nat, b: nat)
    ensures Shift(Xor(a, b)) == Xor(Shift(a), Shift(b))
  {
    hide Xor;
    XorHalves(a, b);
    XorSelf(POLY);
    XorExchange(a / 2, if a % 2 == 1 then POLY else 0, b / 2, if b % 2 == 1 then POLY else 0);
    XorZero(POLY);
    XorZero(0);
  }

  lemma {:induction false} ShiftsLinear(a: nat, b: nat, n: nat)
    ensures Shifts(Xor(a, b), n) == Xor(Shifts(a, n), Shifts(b, n))
  {
    hide Xor, Shift;
    if n > 0 {
      ShiftsLinear(a, b, n - 1);
      ShiftLinear(Shifts(a, n - 1), Shifts(b, n - 1));
    }
  }

  lemma {:induction false} ShiftsAdd(r: nat, m: nat, n: nat)
    ensures Shifts(r, m + n) == Shifts(Shifts(r, m), n)
  {
    if n > 0 { ShiftsAdd(r, m, n - 1); }
  }

  /** Zeros shifted out leave the rest as it is. */
  lemma {:induction false} ShiftsOut(x: nat, n: nat)
    ensures Shifts(Shl(x, n), n) == x
    decreases n
  {
    if n > 0 {
      ShiftsOut(2 * x, n - 1);
      ShlTwice(x, n - 1);
      XorZero(x);
    }
  }

  lemma {:induction false} ShiftsBound(r: nat, n: nat)
    requires r < B32
    ensures Shifts(r, n) < B32
  {
    if n > 0 {
      ShiftsBound(r, n - 1);
      Pow2Word();
      XorBound(Shifts(r, n - 1) / 2, if Shifts(r, n - 1) % 2 == 1 then POLY else 0, 32);
    }
  }

  lemma {:induction false} ShlEight(x: nat)
    ensures Shl(x, 8) == 256 * x
  {
    assert Shl(x, 1) == 2 * x;
    assert Shl(x, 2) == 4 * x;
    assert Shl(x, 3) == 8 * x;
    assert Shl(x, 4) == 16 * x;
    assert Shl(x, 5) == 32 * x;
    assert Shl(x, 6) == 64 * x;
    assert Shl(x, 7) == 128 * x;
  }

  /** The low byte and the rest of a register can be shifted on their own. */
  lemma {:induction false} SplitShifts(v: nat, n: nat)
    ensures Shifts(v, n + 8) == Xor(Shifts(v % 256, n + 8), Shifts(v / 256, n))
  {
    hide Xor, Shifts, Shl;
    ShlEight(v / 256);
    Pow2Small();
    XorAdds(v / 256, v % 256, 8);
    XorCommutes(Shl(v / 256, 8), v % 256);
    ShiftsLinear(v % 256, Shl(v / 256, 8), n + 8);
    ShiftsAdd(Shl(v / 256, 8), 8, n);
    ShiftsOut(v / 256, 8);
  }

  // ---------------------------------------------------------------- the register as a polynomial

  /** The low n bits of r in the opposite order. */
  function Reversed(r: nat, n: nat): nat
    decreases n, r
  {
    if n == 0 then 0 else Shl(r % 2, n - 1) + Reversed(r / 2, n - 1)
  }

  /** The sum of the powers of x with the given exponents; bit e stands for x^e. */
  function Powers(exponents: seq<nat>): nat
  {
    if exponents == [] then 0 else Pow2(exponents[0]) + Powers(exponents[1..])
  }

  /** The generator of CRC-32. */
  const GENERATOR: seq<nat> := [32, 26, 23, 22, 16, 12, 11, 10, 8, 7, 5, 4, 2, 1, 0]

  /** A polynomial of degree 32 or less modulo the generator. */
  function Reduced(p: nat): nat
  {
    if p >= B32 then Xor(p, Powers(GENERATOR)) else p
  }

  lemma {:induction false} ReversedBound(r: nat, n: nat)
    ensures Reversed(r, n) < Pow2(n)
  {
    if n > 0 {
      ReversedBound(r / 2, n - 1);
      ShlOne(n - 1);
      ShlNothing(n - 1);
      assert r % 2 == 0 || r % 2 == 1;
    }
  }

  lemma {:induction false} ShlNothing(n: nat)
    ensures Shl(0, n) == 0
  {
    if n > 0 { ShlNothing(n - 1); }
  }

  lemma {:induction false} ReversedWider(x: nat, n: nat)
    requires x < Pow2(n)
    ensures Reversed(x, n + 1) == 2 * Reversed(x, n)
  {
    if n > 0 {
      ReversedWider(x / 2, n - 1);
    } else {
      assert Reversed(0, 1) == Shl(0, 0) + Reversed(0, 0);
    }
  }

  lemma {:induction false} XorTops(a: Bit, b: Bit, n: nat)
    ensures Xor(Shl(a, n), Shl(b, n)) == Shl((a + b) % 2, n)
  {
    ShlNothing(n);
    XorSelf(Shl(a, n));
    XorZero(Shl(a, n));
    XorZero(Shl(b, n));
  }

  lemma {:induction false} XorParts(a: Bit, x: nat, b: Bit, y: nat, n: nat)
    requires x < Pow2(n) && y < Pow2(n)
    ensures Xor(Shl(a, n) + x, Shl(b, n) + y) == Shl((a + b) % 2, n) + Xor(x, y)
  {
    hide Xor, Shl;
    XorAdds(a, x, n);
    XorAdds(b, y, n);
    XorExchange(Shl(a, n), x, Shl(b, n), y);
    XorTops(a, b, n);
    XorBound(x, y, n);
    XorAdds((a + b) % 2, Xor(x, y), n);
  }

  lemma {:induction false} ReversedXor(a: nat, b: nat, n: nat)
    ensures Reversed(Xor(a, b), n) == Xor(Reversed(a, n), Reversed(b, n))
    decreases n
  {
    hide Xor, Shl;
    if n == 0 {
      XorZero(0);
    } else {
      XorHalves(a, b);
      ReversedXor(a / 2, b / 2, n - 1);
      ReversedBound(a / 2, n - 1);
      ReversedBound(b / 2, n - 1);
      XorParts(a % 2, Reversed(a / 2, n - 1), b % 2, Reversed(b / 2, n - 1), n - 1);
    }
  }

  lemma {:induction false} ReversedTwice(a: nat, b: nat, n: nat)
    requires b < 4
    ensures Reversed(4 * a + b, n + 2) == (b % 2 * 2 + b / 2) * Pow2(n) + Reversed(a, n)
  {
    hide Shl, Pow2;
    var v := 4 * a + b;
    assert v / 2 / 2 == a && v % 2 == b % 2 && v / 2 % 2 == b / 2;
    Unrolled(v, n + 1);
    Unrolled(v / 2, n);
    ShlOne(n + 1);
    ShlOne(n);
    ShlNothing(n + 1);
    ShlNothing(n);
    Pow2Next(n);
    assert b == 0 || b == 1 || b == 2 || b == 3;
  }

  lemma {:induction false} Unrolled(r: nat, n: nat)
    ensures Reversed(r, n + 1) == Shl(r % 2, n) + Reversed(r / 2, n)
  {
  }

  lemma {:induction false} ReversedNibble(a: nat, b: nat, n: nat)
    requires b < 16
    ensures Reversed(16 * a + b, n + 4) == (b % 2 * 8 + b / 2 % 2 * 4 + b / 4 % 2 * 2 + b / 8) * Pow2(n) + Reversed(a, n)
  {
    hide Reversed, Pow2;
    ReversedTwice(4 * a + b / 4, b % 4, n + 2);
    ReversedTwice(a, b / 4, n);
    Pow2Next(n);
    Pow2Next(n + 1);
    NibbleCases(b, Pow2(n));
  }

  lemma {:induction false} NibbleCases(b: nat, w: nat)
    requires b < 16
    ensures (b % 4 % 2 * 2 + b % 4 / 2) * (4 * w) + (b / 4 % 2 * 2 + b / 4 / 2) * w
            == (b % 2 * 8 + b / 2 % 2 * 4 + b / 4 % 2 * 2 + b / 8) * w
  {
    var x, y := b % 4 % 2 * 2 + b % 4 / 2, b / 4 % 2 * 2 + b / 4 / 2;
    NibbleDigits(b);
    TwoDigits(x, y, w);
  }

  lemma {:induction false} TwoDigits(x: nat, y: nat, w: nat)
    ensures x * (4 * w) + y * w == (4 * x + y) * w
  {
  }

  lemma {:induction false} NibbleDigits(b: nat)
    requires b < 16
    ensures 4 * (b % 4 % 2 * 2 + b % 4 / 2) + (b / 4 % 2 * 2 + b / 4 / 2)
            == b % 2 * 8 + b / 2 % 2 * 4 + b / 4 % 2 * 2 + b / 8
  {
  }

  /** The constant of the register, read from its other end, is the generator without its leading term. */
  lemma {:induction false} GeneratorReversed()
    ensures Reversed(POLY, 32) + B32 == Powers(GENERATOR)
  {
    hide Reversed;
    NibblesOfPoly();
    PowersOfGenerator();
  }

  lemma {:induction false} NibblesOfPoly()
    ensures Reversed(0xEDB88320, 32) == 0x04C11DB7
  {
    hide Reversed, Pow2;
    Pow2Small();
    Pow2Word();
    SixteenTimes(8);
    SixteenTimes(16);
    Pow2None();
    ReversedNibble(0xEDB8832, 0x0, 28);
    ReversedNibble(0xEDB883, 0x2, 24);
    ReversedNibble(0xEDB88, 0x3, 20);
    ReversedNibble(0xEDB8, 0x8, 16);
    ReversedNibble(0xEDB, 0x8, 12);
    ReversedNibble(0xED, 0xB, 8);
    ReversedNibble(0xE, 0xD, 4);
    ReversedNibble(0, 0xE, 0);
  }

  lemma {:induction false} Pow2None()
    ensures Pow2(0) == 1 && Reversed(0, 0) == 0
  {
  }

  lemma {:induction false} PowersOfGenerator()
    ensures Powers(GENERATOR) == 0x1_04C1_1DB7
  {
    hide Pow2, Powers;
    var e := GENERATOR;
    PowersFrom(e, 0);
    PowersFrom(e, 1);
    PowersFrom(e, 2);
    PowersFrom(e, 3);
    PowersFrom(e, 4);
    PowersFrom(e, 5);
    PowersFrom(e, 6);
    PowersFrom(e, 7);
    PowersFrom(e, 8);
    PowersFrom(e, 9);
    PowersFrom(e, 10);
    PowersFrom(e, 11);
    PowersFrom(e, 12);
    PowersFrom(e, 13);
    PowersFrom(e, 14);
    PowersEnd(e);
    SmallPowers();
  }

  lemma {:induction false} PowersFrom(e: seq<nat>, k: nat)
    requires k < |e|
    ensures Powers(e[k..]) == Pow2(e[k]) + Powers(e[k + 1..])
  {
  }

  lemma {:induction false} PowersEnd(e: seq<nat>)
    ensures Powers(e[|e|..]) == 0 && e[0..] == e
  {
  }

  lemma {:induction false} SmallPowers()
    ensures Pow2(0) == 1 && Pow2(1) == 2 && Pow2(2) == 4 && Pow2(4) == 16 && Pow2(5) == 32 && Pow2(7) == 128
    ensures Pow2(8) == 256 && Pow2(10) == 1024 && Pow2(11) == 2048 && Pow2(12) == 4096 && Pow2(16) == 0x1_0000
    ensures Pow2(22) == 0x40_0000 && Pow2(23) == 0x80_0000 && Pow2(26) == 0x400_0000 && Pow2(32) == B32
  {
    Pow2Word();
    var p16: nat, p24: nat := Pow2(16), Pow2(24);
    assert Pow2(8) == 256;
    Pow2Next(8);
    Pow2Next(9);
    Pow2Next(10);
    Pow2Next(11);
    Pow2Next(22);
    Pow2Next(23);
    Pow2Next(24);
    Pow2Next(25);
  }

  /**
   * Read from the other end, a shift of the register is multiplication by x modulo the generator: the register holds
   * the remainder of polynomial division.
   */
  lemma {:induction false} ShiftMultiplies(r: nat)
    requires r < B32
    ensures Reversed(Shift(r), 32) == Reduced(2 * Reversed(r, 32))
  {
    hide Xor, Reversed, Shl, Pow2, Powers;
    var half := r / 2;
    var low: nat := Reversed(half, 31);
    Pow2Word();
    Pow2Next(31);
    Unrolled(r, 31);
    ReversedWider(half, 31);
    ReversedBound(half, 31);
    GeneratorReversed();
    ShlOne(31);
    ShlNothing(31);
    XorZero(half);
    if r % 2 == 1 {
      ReversedXor(half, POLY, 32);
      ReversedBound(POLY, 32);
      XorParts(1, 2 * low, 1, Reversed(POLY, 32), 32);
      ShlOne(32);
      ShlNothing(32);
    }
  }

  /** A byte goes in with its low bit as the highest power. */
  lemma {:induction false} ByteEnters(v: nat, b: Byte)
    ensures Reversed(Xor(v, b), 32) == Xor(Reversed(v, 32), Shl(Reversed(b, 8), 24))
  {
    hide Xor, Shl;
    ReversedXor(v, b, 32);
    ReversedLow(b, 24);
  }

  lemma {:induction false} ReversedLow(b: Byte, n: nat)
    ensures Reversed(b, n + 8) == Shl(Reversed(b, 8), n)
  {
    Pow2Small();
    ReversedWide(b, 8, n);
  }

  lemma {:induction false} ReversedWide(x: nat, m: nat, n: nat)
    requires x < Pow2(m)
    ensures Reversed(x, m + n) == Shl(Reversed(x, m), n)
  {
    hide Reversed;
    if n > 0 {
      ReversedWide(x, m, n - 1);
      Pow2More(x, m, n - 1);
      ReversedWider(x, m + n - 1);
    }
  }

  /** A polynomial times x^n modulo the generator. */
  function Times(p: nat, n: nat): nat
  {
    if n == 0 then p else Reduced(2 * Times(p, n - 1))
  }

  lemma {:induction false} ShiftsMultiply(r: nat, n: nat)
    requires r < B32
    ensures Reversed(Shifts(r, n), 32) == Times(Reversed(r, 32), n)
  {
    hide Shift, Reversed, Reduced;
    if n > 0 {
      ShiftsMultiply(r, n - 1);
      ShiftsBound(r, n - 1);
      ShiftMultiplies(Shifts(r, n - 1));
    }
  }

  /** A byte adds its bits, the low one as the highest power, and multiplies the sum by x^8. */
  lemma {:induction false} FeedDivides(v: nat, b: Byte)
    requires v < B32
    ensures Reversed(Feed(v, b), 32) == Times(Xor(Reversed(v, 32), Shl(Reversed(b, 8), 24)), 8)
  {
    hide Xor, Shifts, Reversed, Shl, Times;
    Pow2Word();
    XorBound(v, b, 32);
    ByteEnters(v, b);
    ShiftsMultiply(Xor(v, b), 8);
  }

  lemma {:induction false} Pow2More(x: nat, m: nat, n: nat)
    requires x < Pow2(m)
    ensures x < Pow2(m + n)
  {
    if n > 0 { Pow2More(x, m, n - 1); }
  }

  // ---------------------------------------------------------------- tables

  /** Table k says what a byte does to the register, followed by k zero bytes. */
  ghost predicate TableOk(table: seq<nat>, tables: nat)
  {
    && |table| == 256 * tables
    && forall k, i :: 0 <= k < tables && 0 <= i < 256 ==> Entry(table, k, i) == Shifts(i, 8 * k + 8)
  }

  function Entry(table: seq<nat>, k: nat, i: nat): nat
  {
    if 256 * k + i < |table| then table[256 * k + i] else 0
  }

  /** CRC_UPDATE_BYTE_2 */
  function UpdateByte(table: seq<nat>, crc: nat, b: Byte): nat
  {
    Xor(Entry(table, 0, Xor(crc, b) % 256), crc / 256)
  }

  lemma {:induction false} XorHigh(v: nat, b: Byte)
    ensures Xor(v, b) / 256 == v / 256
  {
    hide Xor, Shl;
    ShlEight(v / 256);
    Pow2Small();
    XorAdds(v / 256, v % 256, 8);
    XorAssociates(Shl(v / 256, 8), v % 256, b);
    XorBound(v % 256, b, 8);
    XorAdds(v / 256, Xor(v % 256, b), 8);
  }

  /** The table look-up for one byte is eight shifts. */
  lemma {:induction false} LookupIsFeed(table: seq<nat>, tables: nat, v: nat, b: Byte)
    requires TableOk(table, tables) && tables >= 1
    ensures UpdateByte(table, v, b) == Feed(v, b)
  {
    hide Xor, Shifts, Entry;
    SplitShifts(Xor(v, b), 0);
    XorHigh(v, b);
    NoShift(v / 256);
    assert Entry(table, 0, Xor(v, b) % 256) == Shifts(Xor(v, b) % 256, 8 * 0 + 8);
  }

  lemma {:induction false} NoShift(v: nat)
    ensures Shifts(v, 0) == v
  {
  }

  /** Four look-ups are 32 shifts. */
  lemma {:induction false} FourLookups(table: seq<nat>, tables: nat, v: nat)
    requires TableOk(table, tables) && tables >= 4 && v < B32
    ensures Xor(Xor(Xor(Entry(table, 3, v % 256), Entry(table, 2, v / 0x100 % 256)), Entry(table, 1, v / 0x1_0000 % 256)),
                Entry(table, 0, v / 0x100_0000))
            == Shifts(v, 32)
  {
    hide Xor, Shifts, Entry;
    var v1, v2, v3 := v / 256, v / 256 / 256, v / 256 / 256 / 256;
    assert v1 == v / 0x100 && v2 == v / 0x1_0000 && v3 == v / 0x100_0000 && v3 / 256 == 0 && v3 % 256 == v3;
    SplitShifts(v, 24);
    SplitShifts(v1, 16);
    SplitShifts(v2, 8);
    assert Entry(table, 3, v % 256) == Shifts(v % 256, 8 * 3 + 8);
    assert Entry(table, 2, v1 % 256) == Shifts(v1 % 256, 8 * 2 + 8);
    assert Entry(table, 1, v2 % 256) == Shifts(v2 % 256, 8 * 1 + 8);
    assert Entry(table, 0, v3) == Shifts(v3, 8 * 0 + 8);
    XorAssociates(Xor(Entry(table, 3, v % 256), Entry(table, 2, v1 % 256)), Entry(table, 1, v2 % 256), Entry(table, 0, v3));
    XorAssociates(Entry(table, 3, v % 256), Entry(table, 2, v1 % 256), Xor(Entry(table, 1, v2 % 256), Entry(table, 0, v3)));
  }

  /** One more byte behind n bits that have not been shifted yet. */
  lemma {:induction false} FeedLater(x: nat, b: Byte, n: nat)
    ensures Feed(Shifts(x, n), b) == Shifts(Xor(x, Shl(b, n)), n + 8)
  {
    hide Xor, Shifts, Shl;
    ShiftsOut(b, n);
    ShiftsLinear(x, Shl(b, n), n);
    ShiftsAdd(Xor(x, Shl(b, n)), n, 8);
  }

  /** The four bytes at p as a little-endian number. */
  function WordAt(s: seq<Byte>, p: nat): nat
    requires p + 4 <= |s|
  {
    Shl(s[p + 3], 24) + (Shl(s[p + 2], 16) + (Shl(s[p + 1], 8) + s[p]))
  }

  lemma {:induction false} ShlBelow(a: nat, m: nat, n: nat)
    requires a < Pow2(m)
    ensures Shl(a, n) + Pow2(n) <= Pow2(m + n)
  {
    if n > 0 { ShlBelow(a, m, n - 1); }
  }

  lemma {:induction false} WordXor(v: nat, s: seq<Byte>, p: nat)
    requires p + 4 <= |s|
    ensures Xor(v, WordAt(s, p)) == Xor(Xor(Xor(Xor(v, s[p]), Shl(s[p + 1], 8)), Shl(s[p + 2], 16)), Shl(s[p + 3], 24))
    ensures WordAt(s, p) < B32
  {
    hide Xor, Shl, Pow2;
    var b0: nat, b1, b2, b3 := s[p], Shl(s[p + 1], 8), Shl(s[p + 2], 16), Shl(s[p + 3], 24);
    Pow2Small();
    Pow2Word();
    ShlBelow(s[p + 1], 8, 8);
    ShlBelow(s[p + 2], 8, 16);
    ShlBelow(s[p + 3], 8, 24);
    XorAdds(s[p + 1], b0, 8);
    XorAdds(s[p + 2], b1 + b0, 16);
    XorAdds(s[p + 3], b2 + (b1 + b0), 24);
    XorCommutes(b3, Xor(b2, Xor(b1, b0)));
    XorCommutes(b2, Xor(b1, b0));
    XorCommutes(b1, b0);
    XorAssociates(v, Xor(Xor(b0, b1), b2), b3);
    XorAssociates(v, Xor(b0, b1), b2);
    XorAssociates(v, b0, b1);
  }

  /** Four bytes fed one by one. */
  lemma {:induction false} FeedFour(v: nat, s: seq<Byte>, p: nat)
    requires p + 4 <= |s| && v < B32
    ensures FeedAll(v, s[p..p + 4]) == Shifts(Xor(v, WordAt(s, p)), 32)
  {
    hide Xor, Shifts, Feed, Shl;
    var q := s[p..p + 4];
    assert q[..3][..2][..1][..0] == [] && q[..3][..2][..1] == q[..1] && q[..3][..2] == q[..2];
    FeedNext(v, q, 0);
    FeedNext(v, q, 1);
    FeedNext(v, q, 2);
    FeedNext(v, q, 3);
    assert q[..4] == q && q[..0] == [];
    NoShift(v);
    FeedLater(v, s[p], 0);
    ShlNone(s[p]);
    var x0 := Xor(v, s[p]);
    FeedLater(x0, s[p + 1], 8);
    var x1 := Xor(x0, Shl(s[p + 1], 8));
    FeedLater(x1, s[p + 2], 16);
    var x2 := Xor(x1, Shl(s[p + 2], 16));
    FeedLater(x2, s[p + 3], 24);
    WordXor(v, s, p);
  }

  lemma {:induction false} FeedNext(v: nat, s: seq<Byte>, k: nat)
    requires k < |s|
    ensures FeedAll(v, s[..k + 1]) == Feed(FeedAll(v, s[..k]), s[k])
  {
    assert s[..k + 1][..k] == s[..k];
  }

  lemma {:induction false} FeedConcat(v: nat, a: seq<Byte>, b: seq<Byte>)
    ensures FeedAll(v, a + b) == FeedAll(FeedAll(v, a), b)
    decreases |b|
  {
    if b == [] {
      assert a + b == a;
    } else {
      assert (a + b)[..|a + b| - 1] == a + b[..|b| - 1];
      FeedConcat(v, a, b[..|b| - 1]);
    }
  }

  lemma {:induction false} FeedBound(v: nat, s: seq<Byte>)
    requires v < B32
    ensures FeedAll(v, s) < B32
  {
    if s != [] {
      FeedBound(v, s[..|s| - 1]);
      Pow2Word();
      XorBound(FeedAll(v, s[..|s| - 1]), s[|s| - 1], 32);
      ShiftsBound(Xor(FeedAll(v, s[..|s| - 1]), s[|s| - 1]), 8);
    }
  }

  // ---------------------------------------------------------------- the code

  /** CrcGenerateTable for the given number of tables. */
  method GenerateTable(tables: nat) returns (table: array<nat>)
    requires tables >= 1
    ensures fresh(table) && TableOk(table[..], tables)
  {
    hide Shifts, Xor;
    table := new nat[256 * tables];
    var i := 0;
    while i < 256
      invariant i <= 256 && forall j :: 0 <= j < i ==> table[j] == Shifts(j, 8)
    {
      var r := i;
      NoShift(i);
      for j := 0 to 8
        invariant r == Shifts(i, j) && forall q :: 0 <= q < i ==> table[q] == Shifts(q, 8)
      {
        ShiftMore(i, j);
        r := Xor(r / 2, if r % 2 == 1 then POLY else 0);
      }
      table[i] := r;
      i := i + 1;
    }
    FirstTable(table[..]);
    while i < 256 * tables
      invariant 256 <= i <= 256 * tables && Filled(table[..], i)
    {
      NextEntry(table[..], i);
      var r := table[i - 256];
      ghost var before := table[..];
      table[i] := Xor(table[r % 256], r / 256);
      assert table[..] == before[i := table[i]];
      StillFilled(before, i, table[i]);
      i := i + 1;
    }
    AllFilled(table[..], tables);
  }

  lemma {:induction false} ShiftMore(r: nat, n: nat)
    ensures Shifts(r, n + 1) == Shift(Shifts(r, n))
  {
  }

  /** The first n entries hold what they should. */
  ghost predicate Filled(table: seq<nat>, n: nat)
  {
    forall j :: 0 <= j < n && j < |table| ==> table[j] == Shifts(j % 256, 8 * (j / 256) + 8)
  }

  lemma {:induction false} FirstTable(table: seq<nat>)
    requires |table| >= 256 && forall j :: 0 <= j < 256 ==> table[j] == Shifts(j, 8)
    ensures Filled(table, 256)
  {
    hide Shifts;
    forall j | 0 <= j < 256
      ensures j % 256 == j && j / 256 == 0
    {
    }
  }

  lemma {:induction false} StillFilled(table: seq<nat>, i: nat, v: nat)
    requires i < |table| && Filled(table, i) && v == Shifts(i % 256, 8 * (i / 256) + 8)
    ensures Filled(table[i := v], i + 1)
  {
    hide Shifts;
  }

  /** Every entry is the one 256 places before, followed by a zero byte. */
  lemma {:induction false} NextEntry(table: seq<nat>, i: nat)
    requires 256 <= i < |table| && Filled(table, i)
    ensures var r := table[i - 256];
            r % 256 < |table| && Xor(table[r % 256], r / 256) == Shifts(i % 256, 8 * (i / 256) + 8)
  {
    hide Shifts, Xor;
    var r := table[i - 256];
    QuotientOf(i - 256, 256, i / 256 - 1, i % 256);
    QuotientOf(r % 256, 256, 0, r % 256);
    ShiftsAdd(i % 256, 8 * (i / 256 - 1) + 8, 8);
    SplitShifts(r, 0);
    NoShift(r / 256);
  }

  lemma {:induction false} AllFilled(table: seq<nat>, tables: nat)
    requires |table| == 256 * tables && Filled(table, 256 * tables)
    ensures TableOk(table, tables)
  {
    hide Shifts;
    forall k, i | 0 <= k < tables && 0 <= i < 256
      ensures Entry(table, k, i) == Shifts(i, 8 * k + 8)
    {
      QuotientOf(256 * k + i, 256, k, i);
    }
  }

  /** CrcUpdateT4 on the bytes of data, the first of which lies at the given address. */
  method CrcUpdateT4(v0: nat, data: seq<Byte>, address: nat, table: array<nat>, ghost tables: nat) returns (v: nat)
    requires v0 < B32 && TableOk(table[..], tables) && tables >= 4
    ensures v == FeedAll(v0, data)
  {
    hide FeedAll, TableOk, Entry, Xor, WordAt;
    v := v0;
    var p, size := 0, |data|;
    Begin(v0, data);
    TableLength(table[..], tables);
    while size > 0 && (address + p) % 4 != 0
      invariant 0 <= p && 0 <= size && p + size == |data| && v == FeedAll(v0, data[..p])
      decreases size
    {
      v := ByteStep(v0, data, p, v, table, tables);
      size := size - 1;
      p := p + 1;
    }
    while size >= 4
      invariant 0 <= p && 0 <= size && p + size == |data| && v == FeedAll(v0, data[..p])
      decreases size
    {
      WordStep(v0, data, p, v, table[..], tables);
      v := Xor(v, WordAt(data, p));
      assert table[..][0x300 + v % 256] == table[0x300 + v % 256];
      assert table[..][0x200 + v / 0x100 % 256] == table[0x200 + v / 0x100 % 256];
      assert table[..][0x100 + v / 0x1_0000 % 256] == table[0x100 + v / 0x1_0000 % 256];
      assert table[..][v / 0x100_0000] == table[v / 0x100_0000];
      v := Xor(Xor(Xor(table[0x300 + v % 256], table[0x200 + v / 0x100 % 256]), table[0x100 + v / 0x1_0000 % 256]),
               table[v / 0x100_0000]);
      size := size - 4;
      p := p + 4;
    }
    while size > 0
      invariant 0 <= p && 0 <= size && p + size == |data| && v == FeedAll(v0, data[..p])
      decreases size
    {
      v := ByteStep(v0, data, p, v, table, tables);
      size := size - 1;
      p := p + 1;
    }
    assert data[..p] == data;
  }

  lemma {:induction false} Begin(v: nat, s: seq<Byte>)
    ensures FeedAll(v, s[..0]) == v
  {
  }

  lemma {:induction false} TableLength(table: seq<nat>, tables: nat)
    requires TableOk(table, tables)
    ensures |table| == 256 * tables
  {
  }

  method ByteStep(ghost v0: nat, data: seq<Byte>, p: nat, v: nat, table: array<nat>, ghost tables: nat)
    returns (next: nat)
    requires TableOk(table[..], tables) && tables >= 4 && p < |data| && v == FeedAll(v0, data[..p])
    ensures next == FeedAll(v0, data[..p + 1])
  {
    hide FeedAll, TableOk, Xor;
    TableLength(table[..], tables);
    FeedNext(v0, data, p);
    LookupIsFeed(table[..], tables, v, data[p]);
    assert table[..][Xor(v, data[p]) % 256] == table[Xor(v, data[p]) % 256];
    next := Xor(table[Xor(v, data[p]) % 256], v / 256);
  }

  /** What the four look-ups make of the next four bytes. */
  lemma {:induction false} WordStep(v0: nat, data: seq<Byte>, p: nat, v: nat, table: seq<nat>, tables: nat)
    requires TableOk(table, tables) && tables >= 4 && v0 < B32 && p + 4 <= |data| && v == FeedAll(v0, data[..p])
    ensures var x := Xor(v, WordAt(data, p));
            && |table| >= 1024 && x / 0x100_0000 < 256
            && Xor(Xor(Xor(table[0x300 + x % 256], table[0x200 + x / 0x100 % 256]), table[0x100 + x / 0x1_0000 % 256]),
                   table[x / 0x100_0000])
               == FeedAll(v0, data[..p + 4])
  {
    hide Xor, FeedAll, WordAt, Shifts;
    var x := Xor(v, WordAt(data, p));
    FeedBound(v0, data[..p]);
    WordXor(v, data, p);
    Pow2Word();
    XorBound(v, WordAt(data, p), 32);
    FourLookups(table, tables, x);
    FeedFour(v, data, p);
    assert data[..p + 4] == data[..p] + data[p..p + 4];
    FeedConcat(v0, data[..p], data[p..p + 4]);
  }

  const CRC_INIT_VAL := 0xFFFF_FFFF

  /** CrcCalc: the complemented register after all bytes, from a register of ones. */
  method CrcCalc(data: seq<Byte>, address: nat, table: array<nat>, ghost tables: nat) returns (crc: nat)
    requires TableOk(table[..], tables) && tables >= 4
    ensures crc == Xor(FeedAll(CRC_INIT_VAL, data), CRC_INIT_VAL)
  {
    crc := CrcUpdateT4(CRC_INIT_VAL, data, address, table, tables);
    crc := Xor(crc, CRC_INIT_VAL);
  }

  /** The checksum of two pieces, one after the other, is the checksum of the whole. */
  lemma {:induction false} CrcInPieces(v: nat, a: seq<Byte>, b: seq<Byte>)
    ensures FeedAll(FeedAll(v, a), b) == FeedAll(v, a + b)
  {
    FeedConcat(v, a, b);
  }

  function ByByte(table: seq<nat>, v: nat, s: seq<Byte>): nat
  {
    if s == [] then v else UpdateByte(table, ByByte(table, v, s[..|s| - 1]), s[|s| - 1])
  }

  /** Byte at a time through the first table is bit at a time through the register. */
  lemma {:induction false} ByteAtATime(table: seq<nat>, tables: nat, v: nat, s: seq<Byte>)
    requires TableOk(table, tables) && tables >= 1
    ensures ByByte(table, v, s) == FeedAll(v, s)
  {
    hide UpdateByte, Feed;
    if s != [] {
      ByteAtATime(table, tables, v, s[..|s| - 1]);
      LookupIsFeed(table, tables, FeedAll(v, s[..|s| - 1]), s[|s| - 1]);
    }
  }
}
