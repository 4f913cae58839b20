/**
 * The range encoder of LzmaEnc.c: a 33-bit low end, one cached byte, and a run of
 * pending 0xFF bytes through which a carry may still propagate.
 */
module RangeEncoder {
  import opened Bits
  import opened Bytes
  import opened RangeSpec

  function Repeat(b: Byte, n: nat): (r: seq<Byte>)
    ensures |r| == n && forall i :: 0 <= i < n ==> r[i] == b
  {
    seq(n, _ => b)
  }

  /** The bytes held back: the cached byte followed by cacheSize - 1 bytes 0xFF. */
  function Pending(cache: Byte, cacheSize: nat): seq<Byte>
    requires cacheSize >= 1
  {
    [cache] + Repeat(255, cacheSize - 1)
  }

  /** A run of 0xFF is one short of a power of 256, and a run of 0x00 is worth nothing. */
  lemma {:induction false} RunValues(n: nat)
    ensures BigEndian(Repeat(255, n)) == Pow256(n) - 1
    ensures BigEndian(Repeat(0, n)) == 0
  {
    if n == 0 {
    } else {
      RunValues(n - 1);
      assert Repeat(255, n)[..n - 1] == Repeat(255, n - 1);
      assert Repeat(0, n)[..n - 1] == Repeat(0, n - 1);
    }
  }

  lemma {:induction false} PendingValue(cache: Byte, cacheSize: nat)
    requires cacheSize >= 1
    ensures BigEndian(Pending(cache, cacheSize)) == (cache + 1) * Pow256(cacheSize - 1) - 1
    ensures Pow256(cacheSize) == 256 * Pow256(cacheSize - 1)
  {
    RunValues(cacheSize - 1);
    Single(cache);
    BigEndianConcat([cache], Repeat(255, cacheSize - 1));
  }

  /** The number denoted by the written bytes, the pending bytes and low together. */
  function Total(out: seq<Byte>, cache: Byte, cacheSize: nat, low: nat): nat
    requires cacheSize >= 1
  {
    BigEndian(out + Pending(cache, cacheSize)) * B32 + low
  }

  /** An interval of the given width above low never carries out of the pending bytes. */
  predicate Contained(cache: Byte, cacheSize: nat, low: nat, width: nat)
    requires cacheSize >= 1
  {
    && low + width <= 2 * B32
    && BigEndian(Pending(cache, cacheSize)) * B32 + low + width <= Pow256(cacheSize) * B32
  }

  lemma {:induction false} CarryFits(cache: Byte, cacheSize: nat, low: nat, width: nat)
    requires cacheSize >= 1 && width >= 1 && low >= B32
    requires Contained(cache, cacheSize, low, width)
    ensures cache < 255
  {
    PendingValue(cache, cacheSize);
    if cache >= 255 {
      assert false;
    }
  }

  /** The pending bytes as written once the carry is known. */
  function Released(cache: Byte, count: nat, carry: nat): seq<Byte>
  {
    if count == 0 then [] else [(cache + carry) % 256] + Repeat((255 + carry) % 256, count - 1)
  }

  lemma {:induction false} ReleasedNext(out: seq<Byte>, out0: seq<Byte>, cache: Byte, count: nat, carry: nat)
    requires out == out0 + Released(cache, count, carry)
    ensures out + [((if count == 0 then cache else 255) + carry) % 256] == out0 + Released(cache, count + 1, carry)
  {
  }

  lemma {:induction false} ReleasedLength(cache: Byte, count: nat, carry: nat)
    ensures |Released(cache, count, carry)| == count
  {
  }

  lemma {:induction false} ShiftedWord(low: nat)
    requires low < 2 * B32
    ensures low % B32 * 256 % B32 == low % TOP * 256
    ensures low % B32 >= 0xFF00_0000 && low / B32 == 0 ==> low == low % B32
    ensures low % B32 / TOP < 256
  {
    var w := low % B32;
    assert w == w / TOP * TOP + w % TOP;
    assert w % TOP == low % TOP;
    assert w * 256 == (w / TOP) * B32 + (w % TOP) * 256;
  }

  /** Releasing the pending bytes with the carry added writes the number they stood for. */
  lemma {:induction false} CarriedValue(cache: Byte, cacheSize: nat, carry: Bit)
    requires cacheSize >= 1 && (carry == 1 ==> cache < 255)
    ensures |Released(cache, cacheSize, carry)| == cacheSize
    ensures BigEndian(Released(cache, cacheSize, carry)) == BigEndian(Pending(cache, cacheSize)) + carry
  {
    var n := cacheSize - 1;
    PendingValue(cache, cacheSize);
    RunValues(n);
    if carry == 0 {
      assert (cache + carry) % 256 == cache && (255 + carry) % 256 == 255;
    } else {
      assert (cache + carry) % 256 == cache + 1 && (255 + carry) % 256 == 0;
      Single(cache + 1);
      BigEndianConcat([cache + 1], Repeat(0, n));
    }
  }

  /** ShiftLow when the top byte is 0xFF and no carry is known yet: one more byte is held back. */
  lemma {:induction false} HoldBack(out: seq<Byte>, cache: Byte, cacheSize: nat, low: nat, width: nat)
    requires cacheSize >= 1 && 0xFF00_0000 <= low < B32 && 1 <= width <= TOP
    requires Contained(cache, cacheSize, low, width)
    ensures Total(out, cache, cacheSize + 1, low % TOP * 256) == 256 * Total(out, cache, cacheSize, low)
    ensures Contained(cache, cacheSize + 1, low % TOP * 256, width * 256)
  {
    var p, p' := Pending(cache, cacheSize), Pending(cache, cacheSize + 1);
    assert p' == p + [255];
    assert out + p' == (out + p) + [255];
    AppendByte(p, 255);
    AppendByte(out + p, 255);
    assert Pow256(cacheSize + 1) == 256 * Pow256(cacheSize);
    assert low == 255 * TOP + low % TOP;
  }

  /** ShiftLow otherwise: the pending bytes are released and the top byte of low is cached. */
  lemma {:induction false} Release(out: seq<Byte>, cache: Byte, cacheSize: nat, low: nat, width: nat, out': seq<Byte>)
    requires cacheSize >= 1 && low < 2 * B32 && 1 <= width <= TOP
    requires low < 0xFF00_0000 || low >= B32
    requires Contained(cache, cacheSize, low, width)
    requires out' == out + Released(cache, cacheSize, low / B32)
    ensures Total(out', low % B32 / TOP, 1, low % TOP * 256) == 256 * Total(out, cache, cacheSize, low)
    ensures Contained(low % B32 / TOP, 1, low % TOP * 256, width * 256)
  {
    hide Released, BigEndian, Pow256;
    var carry := low / B32;
    var cache' := low % B32 / TOP;
    if carry == 1 {
      CarryFits(cache, cacheSize, low, width);
    }
    CarriedValue(cache, cacheSize, carry);
    var pend := Pending(cache, cacheSize);
    BigEndianConcat(out, Released(cache, cacheSize, carry));
    BigEndianConcat(out, pend);
    assert BigEndian(out') == BigEndian(out + pend) + carry;
    assert Pending(cache', 1) == [cache'];
    AppendByte(out', cache');
    Single(cache');
    Pow256Small();
    ReleasedLow(BigEndian(out + pend), low, width);
  }

  /** The number written, shifted by one byte: the carry moves into it and the top byte leaves low. */
  lemma {:induction false} ReleasedLow(written: nat, low: nat, width: nat)
    requires low < 0xFF00_0000 || low >= B32
    requires low + width <= 2 * B32 && 1 <= width <= TOP
    ensures (256 * (written + low / B32) + low % B32 / TOP) * B32 + low % TOP * 256 == 256 * (written * B32 + low)
    ensures low % TOP * 256 + width * 256 <= 2 * B32
    ensures low % B32 / TOP * B32 + low % TOP * 256 + width * 256 <= 256 * B32
  {
    var w := low % B32;
    assert low == low / B32 * B32 + w && w == w / TOP * TOP + w % TOP && w % TOP == low % TOP;
    assert w < 0xFF00_0000 || w + width <= B32;
  }

  class RangeEncoder {
    var low: nat
    var range: nat
    var cache: Byte
    var cacheSize: nat
    var out: seq<Byte>        // the bytes handed to the output stream
    ghost var steps: seq<Step> // every decision encoded since the start

    /** The registers represent exactly the interval the decisions so far select. */
    ghost predicate Valid()
      reads this
    {
      && cacheSize >= 1 && Normal(range)
      && var iv := AfterAll(START, steps);
         && range == iv.range
         && |out| + cacheSize == iv.shifts + 1
         && Total(out, cache, cacheSize, low) == iv.low
         && Contained(cache, cacheSize, low, range)
    }

    constructor ()
      ensures Valid() && steps == [] && out == []
    {
      low, range, cache, cacheSize := 0, 0xFFFF_FFFF, 0, 1;
      out, steps := [], [];
      new;
      PendingValue(0, 1);
      assert [] + Pending(0, 1) == Pending(0, 1);
      assert Pow256(1) == 256 * Pow256(0);
    }

    /** Writes the cached byte and the 0xFF run behind it, plus the carry, until nothing is pending. */
    method WritePending(carry: nat)
      modifies this`cacheSize, this`out
      ensures cacheSize == 0
      ensures out == old(out) + Released(cache, old(cacheSize), carry)
    {
      var temp := cache;
      ghost var count := 0;
      while cacheSize != 0
        invariant count + cacheSize == old(cacheSize)
        invariant temp == if count == 0 then cache else 255
        invariant out == old(out) + Released(cache, count, carry)
      {
        ReleasedNext(out, old(out), cache, count, carry);
        out := out + [(temp + carry) % 256];
        temp := 255;
        cacheSize := cacheSize - 1;
        count := count + 1;
      }
    }

    /** Multiplies the number written so far by 256 and makes room for one more byte of low. */
    method ShiftLow(ghost width: nat)
      requires cacheSize >= 1 && 1 <= width <= TOP && Contained(cache, cacheSize, low, width)
      modifies this`low, this`cache, this`cacheSize, this`out
      ensures cacheSize >= 1 && |out| + cacheSize == old(|out| + cacheSize) + 1
      ensures Total(out, cache, cacheSize, low) == 256 * old(Total(out, cache, cacheSize, low))
      ensures Contained(cache, cacheSize, low, width * 256)
      ensures low == old(low) % TOP * 256
      ensures old(low) < 0xFF00_0000 ==> cacheSize == 1
    {
      ghost var low0, out0, size0, cache0 := low, out, cacheSize, cache;
      ShiftedWord(low);
      if low % B32 < 0xFF00_0000 || low / B32 != 0 {
        WritePending(low / B32);
        cache := low % B32 / TOP;
        ReleasedLength(cache0, size0, low0 / B32);
        Release(out0, cache0, size0, low0, width, out);
      } else {
        HoldBack(out, cache, cacheSize, low, width);
      }
      cacheSize := cacheSize + 1;
      low := low % B32 * 256 % B32;
    }

    /** The state after one more decision, once the registers hold the narrowed interval. */
    method Renormalize(ghost s: Step)
      requires Normal(AfterAll(START, steps).range)
      requires var n := Narrow(AfterAll(START, steps), s);
               && cacheSize >= 1
               && range == n.range && |out| + cacheSize == n.shifts + 1
               && Total(out, cache, cacheSize, low) == n.low
               && Contained(cache, cacheSize, low, range)
      modifies this
      ensures Valid() && steps == old(steps) + [s]
    {
      ghost var iv := AfterAll(START, steps);
      NarrowWidth(iv, s);
      AfterAllConcat(START, steps, [s]);
      assert [s][1..] == [];
      assert AfterAll(START, steps + [s]) == After(iv, s);
      if range < TOP {
        ghost var width := range;
        range := range * 256;
        ShiftLow(width);
      }
      steps := steps + [s];
    }

    /** Encodes one adaptive bit and returns the updated probability. */
    method EncodeBit(prob: Prob, symbol: Bit) returns (prob': Prob)
      requires Valid()
      modifies this
      ensures Valid() && steps == old(steps) + [Modelled(prob, symbol)]
      ensures prob' == Adapt(prob, symbol) && Learned(prob, symbol, prob')
    {
      SplitBounds(range, prob);
      var newBound := range / MODEL_TOTAL * prob;
      LowMoves(out, cache, cacheSize, low, newBound);
      if symbol == 0 {
        range := newBound;
        prob' := prob + (MODEL_TOTAL - prob) / 32;
      } else {
        low := low + newBound;
        range := range - newBound;
        prob' := prob - prob / 32;
      }
      Renormalize(Modelled(prob, symbol));
    }

    /** Encodes one bit without a model: the range is halved. */
    method EncodeDirectBit(bit: Bit)
      requires Valid()
      modifies this
      ensures Valid() && steps == old(steps) + [Direct(bit)]
    {
      range := range / 2;
      LowMoves(out, cache, cacheSize, low, range);
      low := low + (if bit == 1 then range else 0);
      Renormalize(Direct(bit));
    }

    /** Encodes the low numBits bits of value, most significant first. */
    method EncodeDirectBits(value: nat, numBits: nat)
      requires Valid() && numBits >= 1
      modifies this
      ensures Valid() && steps == old(steps) + DirectSteps(value, numBits)
    {
      var n := numBits;
      while n != 0
        invariant n <= numBits && Valid()
        invariant steps + DirectSteps(value, n) == old(steps) + DirectSteps(value, numBits)
      {
        n := n - 1;
        DirectStepsNext(steps, value, n);
        EncodeDirectBit(BitAt(value, n));
      }
    }

    /** Writes the remaining bytes: the output is then exactly the low end of the interval. */
    method FlushData()
      requires Valid()
      modifies this`low, this`cache, this`cacheSize, this`out
      ensures var iv := AfterAll(START, steps);
              |out| == iv.shifts + 5 && BigEndian(out) == iv.low
    {
      ghost var t0, l0 := Total(out, cache, cacheSize, low), low;
      Weaken(cache, cacheSize, low, range);
      for i := 0 to 5
        invariant cacheSize >= 1 && Contained(cache, cacheSize, low, 1)
        invariant |out| + cacheSize == old(|out| + cacheSize) + i
        invariant Total(out, cache, cacheSize, low) == Scaled(t0, i)
        invariant low == Shifted(l0, i)
        invariant i == 5 ==> cacheSize == 1
      {
        ShiftedOut(l0);
        ShiftLow(1);
        Weaken(cache, cacheSize, low, 256);
      }
      ShiftedOut(l0);
      FlushedValue(out, cache, t0);
    }
  }

  lemma {:induction false} Weaken(cache: Byte, cacheSize: nat, low: nat, width: nat)
    requires cacheSize >= 1 && width >= 1 && Contained(cache, cacheSize, low, width)
    ensures Contained(cache, cacheSize, low, 1)
  {
  }

  function Scaled(t: nat, n: nat): nat
  {
    if n == 0 then t else 256 * Scaled(t, n - 1)
  }

  function Shifted(low: nat, n: nat): nat
  {
    if n == 0 then low else Shifted(low, n - 1) % TOP * 256
  }

  /** Four shifts push every significant bit out of low. */
  lemma {:induction false} ShiftedOut(low: nat)
    ensures Shifted(low, 4) == 0 && Shifted(low, 5) == 0
  {
    var a := Shifted(low, 1);
    var b := Shifted(low, 2);
    var c := Shifted(low, 3);
    assert a % 256 == 0;
    assert b % 0x1_0000 == 0;
    assert c % TOP == 0;
  }

  lemma {:induction false} FlushedValue(out: seq<Byte>, cache: Byte, t: nat)
    requires Total(out, cache, 1, 0) == Scaled(t, 5)
    ensures BigEndian(out) == t
  {
    assert Pending(cache, 1) == [cache];
    AppendByte(out, cache);
    assert Scaled(t, 1) == 256 * t;
    assert Scaled(t, 2) == 0x1_0000 * t;
    assert Scaled(t, 3) == TOP * t;
    assert Scaled(t, 4) == B32 * t;
    assert Scaled(t, 5) == 256 * (B32 * t);
    CancelScale(BigEndian(out), cache, t);
  }

  lemma {:induction false} CancelScale(o: nat, cache: Byte, t: nat)
    requires (256 * o + cache) * B32 == 256 * (B32 * t)
    ensures o == t
  {
  }

  lemma {:induction false} LowMoves(out: seq<Byte>, cache: Byte, cacheSize: nat, low: nat, delta: nat)
    requires cacheSize >= 1
    ensures Total(out, cache, cacheSize, low + delta) == Total(out, cache, cacheSize, low) + delta
  {
  }

  /** The adaptation rule: a probability moves 1/32 of the way towards the observed bit. */
  function Adapt(p: Prob, bit: Bit): Prob
  {
    if bit == 0 then p + (MODEL_TOTAL - p) / 32 else p - p / 32
  }

  /** What is left to the bit not coded shrinks by a 32nd, rounded up. */
  predicate Learned(p: Prob, bit: Bit, p': Prob)
  {
    if bit == 0 then 31 * (MODEL_TOTAL - p) <= 32 * (MODEL_TOTAL - p') < 31 * (MODEL_TOTAL - p) + 32
    else 31 * p <= 32 * p' < 31 * p + 32
  }

  lemma {:induction false} DirectStepsNext(before: seq<Step>, value: nat, n: nat)
    ensures before + DirectSteps(value, n + 1) == (before + [Direct(BitAt(value, n))]) + DirectSteps(value, n)
  {
  }

  function DirectSteps(value: nat, numBits: nat): seq<Step>
  {
    if numBits == 0 then []
    else [Direct(BitAt(value, numBits - 1))] + DirectSteps(value, numBits - 1)
  }
}
