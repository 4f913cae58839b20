/** Shifts of unbounded naturals, defined so that reasoning about them stays linear. */
module Bits {
  type Byte = x: int | 0 <= x < 256
  type Bit = x: int | 0 <= x <= 1

  /** One more than the largest 32-bit unsigned value. */
  const B32 := 0x1_0000_0000

  function Pow2(n: nat): (r: nat)
    ensures r > 0
  {
    if n == 0 then 1 else 2 * Pow2(n - 1)
  }

  /** v << n */
  function Shl(v: nat, n: nat): nat
  {
    if n == 0 then v else 2 * Shl(v, n - 1)
  }

  /** v >> n */
  function Shr(v: nat, n: nat): nat
    decreases n, v
  {
    if n == 0 then v else Shr(v / 2, n - 1)
  }

  /** (v >> i) & 1 */
  function BitAt(v: nat, i: nat): Bit
  {
    Shr(v, i) % 2
  }

  /** v & ((1 << n) - 1) */
  function Trunc(v: nat, n: nat): nat
    decreases n, v
  {
    if n == 0 then 0 else v % 2 + 2 * Trunc(v / 2, n - 1)
  }

  lemma {:induction false} TruncBound(v: nat, n: nat)
    ensures Trunc(v, n) < Pow2(n)
    ensures v < Pow2(n) ==> Trunc(v, n) == v && Shr(v, n) == 0
    decreases n
  {
    if n > 0 {
      TruncBound(v / 2, n - 1);
    }
  }

  /** The low n bits are the bit at n - 1 above the low n - 1 bits. */
  lemma {:induction false} TopBit(v: nat, n: nat)
    requires n >= 1
    ensures Trunc(v, n) == Trunc(v, n - 1) + (if BitAt(v, n - 1) == 1 then Pow2(n - 1) else 0)
    decreases n
  {
    if n > 1 {
      TopBit(v / 2, n - 1);
    }
  }

  /** Appending a bit below m before shifting adds that bit's weight. */
  lemma {:induction false} ShlAppend(m: nat, b: Bit, n: nat)
    ensures Shl(2 * m + b, n) == Shl(m, n + 1) + (if b == 1 then Pow2(n) else 0)
  {
    if n > 0 {
      ShlAppend(m, b, n - 1);
    }
  }

  lemma {:induction false} ShlOne(n: nat)
    ensures Shl(1, n) == Pow2(n)
  {
    if n > 0 {
      ShlOne(n - 1);
    }
  }

  /** The number read when the low n bits of v follow m, most significant first. */
  function Descend(n: nat, m: nat, v: nat): nat
  {
    if n == 0 then m else Descend(n - 1, 2 * m + BitAt(v, n - 1), v)
  }

  lemma {:induction false} DescendValue(n: nat, m: nat, v: nat)
    ensures Descend(n, m, v) == Shl(m, n) + Trunc(v, n)
    decreases n
  {
    if n > 0 {
      TopBit(v, n);
      ShlAppend(m, BitAt(v, n - 1), n - 1);
      DescendValue(n - 1, 2 * m + BitAt(v, n - 1), v);
    }
  }

  lemma {:induction false} Pow2Small()
    ensures Pow2(3) == 8 && Pow2(4) == 16 && Pow2(6) == 64 && Pow2(8) == 256
  {
  }

  lemma {:induction false} SixteenTimes(n: nat)
    ensures Pow2(n + 4) == 16 * Pow2(n)
  {
    assert Pow2(n + 2) == 4 * Pow2(n);
  }

  lemma {:induction false} Pow2Word()
    ensures Pow2(16) == 0x1_0000 && Pow2(24) == 0x100_0000 && Pow2(28) == 0x1000_0000 && Pow2(32) == B32
  {
    hide Pow2;
    Pow2Small();
    SixteenTimes(8);
    SixteenTimes(12);
    SixteenTimes(16);
    SixteenTimes(20);
    SixteenTimes(24);
    SixteenTimes(28);
  }

  lemma {:induction false} Pow2Next(n: nat)
    ensures Pow2(n + 1) == 2 * Pow2(n)
  {
  }

  lemma {:induction false} Pow2Monotone(a: nat, b: nat)
    requires a <= b
    ensures Pow2(a) <= Pow2(b)
    decreases b
  {
    if a < b { Pow2Monotone(a, b - 1); }
  }

  lemma {:induction false} ShlNone(v: nat)
    ensures Shl(v, 0) == v
  {
  }

  lemma {:induction false} ShlZero(n: nat)
    ensures Shl(0, n) == 0
  {
    if n > 0 { ShlZero(n - 1); }
  }

  lemma {:induction false} ShlTwice(v: nat, n: nat)
    ensures Shl(2 * v, n) == Shl(v, n + 1)
  {
    if n > 0 { ShlTwice(v, n - 1); }
  }

  lemma {:induction false} ShrHalves(v: nat, n: nat)
    ensures Shr(v, n + 1) == Shr(v, n) / 2
    decreases n
  {
    if n > 0 { ShrHalves(v / 2, n - 1); }
  }

  lemma {:induction false} ShrBound(v: nat, n: nat, k: nat)
    requires v < Pow2(n + k)
    ensures Shr(v, n) < Pow2(k)
    decreases n
  {
    if n > 0 { ShrBound(v / 2, n - 1, k); }
  }
}
