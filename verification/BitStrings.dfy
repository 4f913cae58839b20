/**
 * Bit strings, most significant bit first, and JPEG byte stuffing: a data byte 0xFF is followed by a
 * byte that carries no data.
 */
module BitStrings {
  import opened Bits

  /** The low n bits of v. */
  function BitsOf(v: nat, n: nat): (r: seq<Bit>)
    ensures |r| == n
    decreases n, v
  {
    if n == 0 then [] else BitsOf(v / 2, n - 1) + [v % 2]
  }

  function ValueOf(s: seq<Bit>): nat
  {
    if s == [] then 0 else 2 * ValueOf(s[..|s| - 1]) + s[|s| - 1]
  }

  lemma {:induction false} ValueOfBits(v: nat, n: nat)
    ensures ValueOf(BitsOf(v, n)) == Trunc(v, n)
    ensures v < Pow2(n) ==> ValueOf(BitsOf(v, n)) == v
    decreases n
  {
    hide BitsOf, ValueOf, Trunc;
    TruncBound(v, n);
    if n > 0 {
      ValueOfBits(v / 2, n - 1);
      LastBit(v, n);
    } else {
      EmptyField(v);
    }
  }

  lemma {:induction false} EmptyField(v: nat)
    ensures BitsOf(v, 0) == [] && ValueOf([]) == 0 && Trunc(v, 0) == 0
  {
  }

  lemma {:induction false} LastBit(v: nat, n: nat)
    requires n > 0
    ensures ValueOf(BitsOf(v, n)) == 2 * ValueOf(BitsOf(v / 2, n - 1)) + v % 2
    ensures Trunc(v, n) == 2 * Trunc(v / 2, n - 1) + v % 2
  {
    hide Trunc;
    assert BitsOf(v, n)[..n - 1] == BitsOf(v / 2, n - 1);
    TruncNext(v, n);
  }

  lemma {:induction false} TruncNext(v: nat, n: nat)
    requires n > 0
    ensures Trunc(v, n) == 2 * Trunc(v / 2, n - 1) + v % 2
  {
  }

  lemma {:induction false} ValueConcat(a: seq<Bit>, b: seq<Bit>)
    ensures ValueOf(a + b) == Shl(ValueOf(a), |b|) + ValueOf(b)
    decreases |b|
  {
    if b == [] {
      assert a + b == a;
    } else {
      var b0 := b[..|b| - 1];
      ValueConcat(a, b0);
      assert (a + b)[..|a + b| - 1] == a + b0;
    }
  }

  lemma {:induction false} ValueBound(s: seq<Bit>)
    ensures ValueOf(s) < Pow2(|s|)
    decreases |s|
  {
    if s != [] { ValueBound(s[..|s| - 1]); }
  }

  lemma {:induction false} ShrShl(v: nat, r: nat, n: nat)
    requires r < Pow2(n)
    ensures Shr(Shl(v, n) + r, n) == v && Trunc(Shl(v, n) + r, n) == r
    decreases n
  {
    if n > 0 {
      assert (Shl(v, n) + r) / 2 == Shl(v, n - 1) + r / 2;
      ShrShl(v, r / 2, n - 1);
    }
  }

  /** Shifting a buffered bit string right leaves its front, masking it leaves its back. */
  lemma {:induction false} Cut(a: seq<Bit>, b: seq<Bit>)
    ensures Shr(ValueOf(a + b), |b|) == ValueOf(a) && Trunc(ValueOf(a + b), |b|) == ValueOf(b)
  {
    ValueConcat(a, b);
    ValueBound(b);
    ShrShl(ValueOf(a), ValueOf(b), |b|);
  }

  /** A field of n bits is its upper bits followed by its lower k. */
  lemma {:induction false} SplitField(v: nat, n: nat, k: nat)
    requires k <= n
    ensures BitsOf(v, n) == BitsOf(Shr(v, k), n - k) + BitsOf(Trunc(v, k), k)
    decreases k
  {
    if k > 0 {
      SplitField(v / 2, n - 1, k - 1);
      assert Trunc(v, k) / 2 == Trunc(v / 2, k - 1) && Trunc(v, k) % 2 == v % 2;
    }
  }

  lemma {:induction false} JoinField(a: nat, m: nat, b: nat, n: nat)
    requires b < Pow2(n)
    ensures BitsOf(a, m) + BitsOf(b, n) == BitsOf(Shl(a, n) + b, m + n)
    decreases n
  {
    if n == 0 {
      assert BitsOf(a, m) + BitsOf(b, 0) == BitsOf(a, m);
    } else {
      JoinField(a, m, b / 2, n - 1);
      assert (Shl(a, n) + b) / 2 == Shl(a, n - 1) + b / 2 && (Shl(a, n) + b) % 2 == b % 2;
    }
  }

  // ---------------------------------------------------------------- bytes and stuffing

  function AllBits(d: seq<Byte>): (r: seq<Bit>)
    ensures |r| == 8 * |d|
  {
    if d == [] then [] else AllBits(d[..|d| - 1]) + BitsOf(d[|d| - 1], 8)
  }

  lemma {:induction false} AllBitsAt(d: seq<Byte>, f: nat)
    requires f < |d|
    ensures AllBits(d)[8 * f..8 * f + 8] == BitsOf(d[f], 8)
    decreases |d|
  {
    hide BitsOf;
    var n := |d| - 1;
    if f < n {
      AllBitsAt(d[..n], f);
      PartInFront(AllBits(d[..n]), BitsOf(d[n], 8), 8 * f, 8 * f + 8);
    } else {
      assert AllBits(d)[8 * n..8 * n + 8] == BitsOf(d[n], 8);
    }
  }

  lemma {:induction false} PartInFront(a: seq<Bit>, b: seq<Bit>, i: nat, j: nat)
    requires i <= j <= |a|
    ensures (a + b)[i..j] == a[i..j]
  {
  }

  /** Data bytes as they are written to the scan. */
  function Stuffed(d: seq<Byte>): seq<Byte>
  {
    if d == [] then []
    else Stuffed(d[..|d| - 1]) + (if d[|d| - 1] == 0xFF then [0xFF, 0] else [d[|d| - 1]])
  }

  lemma {:induction false} AppendData(d: seq<Byte>, b: Byte)
    ensures Stuffed(d + [b]) == Stuffed(d) + (if b == 0xFF then [0xFF, 0] else [b])
    ensures AllBits(d + [b]) == AllBits(d) + BitsOf(b, 8)
  {
    assert (d + [b])[..|d|] == d;
  }

  // ---------------------------------------------------------------- reading

  /** What a pointer into memory shows, including whatever lies behind the data. */
  type Memory = nat -> Byte

  /** Where the f-th data byte of a scan lies. */
  function RawPos(mem: Memory, start: nat, f: nat): nat
  {
    if f == 0 then start
    else
      var p := RawPos(mem, start, f - 1);
      p + if mem(p) == 0xFF then 2 else 1
  }

  function DataByte(mem: Memory, start: nat, f: nat): Byte
  {
    mem(RawPos(mem, start, f))
  }

  function StreamBit(mem: Memory, start: nat, j: nat): Bit
  {
    BitsOf(DataByte(mem, start, j / 8), 8)[j % 8]
  }

  /** n bits of the scan from bit p on. */
  function Window(mem: Memory, start: nat, p: nat, n: nat): (r: seq<Bit>)
    ensures |r| == n
  {
    seq<Bit>(n, i requires 0 <= i < n => StreamBit(mem, start, p + i))
  }

  lemma {:induction false} WindowSplit(mem: Memory, start: nat, p: nat, n: nat, m: nat)
    ensures Window(mem, start, p, n + m) == Window(mem, start, p, n) + Window(mem, start, p + n, m)
  {
  }

  lemma {:induction false} WindowByte(mem: Memory, start: nat, f: nat)
    ensures Window(mem, start, 8 * f, 8) == BitsOf(DataByte(mem, start, f), 8)
  {
    forall i | 0 <= i < 8
      ensures StreamBit(mem, start, 8 * f + i) == BitsOf(DataByte(mem, start, f), 8)[i]
    {
      assert (8 * f + i) / 8 == f && (8 * f + i) % 8 == i;
    }
  }

  lemma {:induction false} RawPosGrows(mem: Memory, start: nat, f: nat, g: nat)
    requires f <= g
    ensures RawPos(mem, start, f) + (g - f) <= RawPos(mem, start, g) <= RawPos(mem, start, f) + 2 * (g - f)
    decreases g
  {
    if f < g { RawPosGrows(mem, start, f, g - 1); }
  }

  ghost predicate Contains(mem: Memory, start: nat, raw: seq<Byte>)
  {
    forall i :: 0 <= i < |raw| ==> mem(start + i) == raw[i]
  }

  lemma {:induction false} ContainsParts(mem: Memory, start: nat, a: seq<Byte>, b: seq<Byte>)
    requires Contains(mem, start, a + b)
    ensures Contains(mem, start, a) && Contains(mem, start + |a|, b)
  {
    forall i | 0 <= i < |a|
      ensures mem(start + i) == a[i]
    {
      assert (a + b)[i] == a[i];
    }
    forall i | 0 <= i < |b|
      ensures mem(start + |a| + i) == b[i]
    {
      assert (a + b)[|a| + i] == b[i];
    }
  }

  /** The reader finds the data bytes that were stuffed. */
  lemma {:induction false} UnstuffedEnd(mem: Memory, start: nat, d: seq<Byte>)
    requires Contains(mem, start, Stuffed(d))
    ensures RawPos(mem, start, |d|) == start + |Stuffed(d)|
    ensures forall f :: 0 <= f < |d| ==> DataByte(mem, start, f) == d[f]
    decreases |d|
  {
    if d != [] {
      var d0 := d[..|d| - 1];
      var tail := if d[|d| - 1] == 0xFF then [0xFF, 0] else [d[|d| - 1]];
      ContainsParts(mem, start, Stuffed(d0), tail);
      UnstuffedEnd(mem, start, d0);
      assert mem(start + |Stuffed(d0)| + 0) == tail[0];
      forall f | 0 <= f < |d|
        ensures DataByte(mem, start, f) == d[f]
      {
        if f < |d| - 1 { assert d0[f] == d[f]; }
      }
    }
  }

  /** A scan holding stuffed data shows the bits of that data. */
  lemma {:induction false} StreamShows(mem: Memory, start: nat, d: seq<Byte>, bits: seq<Bit>, pad: seq<Bit>)
    requires Contains(mem, start, Stuffed(d)) && AllBits(d) == bits + pad
    ensures Window(mem, start, 0, |bits|) == bits
  {
    UnstuffedEnd(mem, start, d);
    forall j | 0 <= j < |bits|
      ensures StreamBit(mem, start, j) == bits[j]
    {
      var f := j / 8;
      AllBitsAt(d, f);
      assert AllBits(d)[j] == AllBits(d)[8 * f..8 * f + 8][j % 8];
      assert AllBits(d)[j] == bits[j];
      assert DataByte(mem, start, f) == d[f];
    }
  }

  /** A window shows the corresponding part of a larger one. */
  lemma {:induction false} WindowInside(mem: Memory, start: nat, bits: seq<Bit>, a: seq<Bit>, mid: seq<Bit>,
                                        c: seq<Bit>)
    requires Window(mem, start, 0, |bits|) == bits && bits == a + mid + c
    ensures Window(mem, start, |a|, |mid|) == mid
  {
    forall i | 0 <= i < |mid|
      ensures StreamBit(mem, start, |a| + i) == mid[i]
    {
      assert Window(mem, start, 0, |bits|)[|a| + i] == StreamBit(mem, start, 0 + (|a| + i));
      assert bits[|a| + i] == mid[i];
    }
  }
}
