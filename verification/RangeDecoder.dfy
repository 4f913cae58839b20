/**
 * The range decoder of LzmaDec.c and its agreement with the encoder: a reader whose
 * remaining input denotes the low end of the interval of a step string returns
 * exactly the bits of that string.
 */
module RangeDecoder {
  import opened Bits
  import opened Bytes
  import opened RangeSpec

  /** The registers of the decoder; range is normalised lazily, before the next decision. */
  datatype Reader = Reader(range: nat, code: nat, pos: nat)

  function ByteAt(s: seq<Byte>, i: nat): Byte
  {
    if i < |s| then s[i] else 0
  }

  /** The range of every reachable state: wide enough for one shift to restore 2^24. */
  predicate Wide(range: nat)
  {
    0x1_0000 <= range < B32
  }

  function Normalize(r: Reader, s: seq<Byte>): Reader
  {
    if r.range < TOP then Reader(r.range * 256 % B32, (r.code * 256 + ByteAt(s, r.pos)) % B32, r.pos + 1) else r
  }

  /** Decodes one bit with a normalised range and the given probability of a zero. */
  function Select(n: Reader, p: Prob): (Reader, Bit)
    requires Normal(n.range)
  {
    SplitBounds(n.range, p);
    var bound := Bound(n.range, p);
    if n.code < bound then (n.(range := bound), 0)
    else (n.(range := n.range - bound, code := n.code - bound), 1)
  }

  /** The branch-free form: subtract the half range in 32 bits and undo it when the sign bit is set. */
  function SelectDirect(n: Reader): (Reader, Bit)
    requires Normal(n.range)
  {
    var range := n.range / 2;
    var code := (n.code - range) % B32;
    if code / 0x8000_0000 == 1 then (n.(range := range, code := (code + range) % B32), 0)
    else (n.(range := range, code := code), 1)
  }

  function DecodeBit(r: Reader, s: seq<Byte>, p: Prob): (d: (Reader, Bit))
    requires Wide(r.range)
    ensures Wide(d.0.range)
  {
    var n := Normalize(r, s);
    SplitBounds(n.range, p);
    Select(n, p)
  }

  function DecodeDirectBit(r: Reader, s: seq<Byte>): (d: (Reader, Bit))
    requires Wide(r.range)
    ensures Wide(d.0.range)
  {
    SelectDirect(Normalize(r, s))
  }

  /** Decodes whatever kind of bit the given step is. */
  function DecodeStep(r: Reader, s: seq<Byte>, step: Step): (Reader, Bit)
    requires Wide(r.range)
  {
    match step
    case Modelled(p, _) => DecodeBit(r, s, p)
    case Direct(_) => DecodeDirectBit(r, s)
  }

  /** The bytes from a normalised reader up to end denote the low end of the interval that q selects. */
  ghost predicate Denotes(n: Reader, s: seq<Byte>, q: seq<Step>, end: nat)
    requires Normal(n.range)
  {
    var iv := Relative(n.range, q);
    && n.pos + iv.shifts == end <= |s|
    && n.code * Pow256(iv.shifts) + BigEndian(s[n.pos..end]) == iv.low
  }

  /** From this reader the bytes up to index end spell out the decisions q. */
  ghost predicate Reads(r: Reader, s: seq<Byte>, q: seq<Step>, end: nat)
  {
    Wide(r.range) && r.code < r.range && Denotes(Normalize(r, s), s, q, end)
  }

  /** Two's-complement subtraction is a comparison as long as code is below twice the halved range. */
  lemma {:induction false} DirectIsComparison(n: Reader)
    requires Normal(n.range) && n.code < n.range / 2 * 2
    ensures var half := n.range / 2;
            SelectDirect(n) == if n.code < half then (n.(range := half), 0)
                               else (n.(range := half, code := n.code - half), 1)
  {
    var half := n.range / 2;
    if n.code < half {
      assert (n.code - half) % B32 == n.code - half + B32;
      assert (n.code - half + B32) / 0x8000_0000 == 1;
      assert (n.code - half + B32 + half) % B32 == n.code;
    } else {
      assert (n.code - half) % B32 == n.code - half;
    }
  }

  /** A number of which the leading part is code lies in [low, low + width) exactly when code does. */
  lemma {:induction false} LeadingPart(code: nat, p: nat, tail: nat, low: nat, width: nat, rest: nat)
    requires p > 0 && tail < p
    requires code * p + tail == low * p + rest && rest < width * p
    ensures low <= code < low + width
    ensures (code - low) * p + tail == rest
  {
    if code < low {
      MulLe(p, code + 1, low);
    }
    if low + width <= code {
      MulLe(p, low + width, code);
    }
  }

  /** The code lies in the sub-interval of the first step, and what is left belongs to the rest. */
  lemma {:induction false} StepValue(range: nat, code: nat, tail: seq<Byte>, q: seq<Step>)
    requires q != [] && Normal(range)
    requires var iv := Relative(range, q);
             |tail| == iv.shifts && code * Pow256(iv.shifts) + BigEndian(tail) == iv.low
    ensures var w := Narrow(Interval(0, range, 0), q[0]);
            var z := Renorm(w);
            var rest := Relative(z.range, q[1..]);
            && w.low <= code < w.low + w.range
            && |tail| == z.shifts + rest.shifts
            && (code - w.low) * Pow256(z.shifts + rest.shifts) + BigEndian(tail) == rest.low
  {
    var w := Narrow(Interval(0, range, 0), q[0]);
    var z := Renorm(w);
    NarrowWidth(Interval(0, range, 0), q[0]);
    RelativeStep(range, q);
    var rest := Relative(z.range, q[1..]);
    RelativeInside(z.range, q[1..]);
    var p := Pow256(z.shifts + rest.shifts);
    Pow256Small();
    Pow256Add(z.shifts, rest.shifts);
    BigEndianBound(tail);
    ScaleBy(w.low, Pow256(z.shifts), Pow256(rest.shifts));
    ScaleBy(w.range, Pow256(z.shifts), Pow256(rest.shifts));
    assert z.low == w.low * Pow256(z.shifts) && z.range == w.range * Pow256(z.shifts);
    LeadingPart(code, p, BigEndian(tail), w.low, w.range, rest.low);
  }

  /** The reader after the step q[0] reads the remaining steps. */
  lemma {:induction false} StepReads(n: Reader, s: seq<Byte>, q: seq<Step>, end: nat)
    requires q != [] && Normal(n.range) && Denotes(n, s, q, end)
    ensures var w := Narrow(Interval(0, n.range, 0), q[0]);
            && w.low <= n.code < w.low + w.range
            && Reads(Reader(w.range, n.code - w.low, n.pos), s, q[1..], end)
  {
    var w := Narrow(Interval(0, n.range, 0), q[0]);
    NarrowWidth(Interval(0, n.range, 0), q[0]);
    StepValue(n.range, n.code, s[n.pos..end], q);
    var rest := Relative(Renorm(w).range, q[1..]);
    var r := Reader(w.range, n.code - w.low, n.pos);
    if w.range < TOP {
      ShiftReads(r, s, rest.shifts, rest.low, end);
    }
  }

  /** Normalising takes one byte from the input into the code. */
  lemma {:induction false} ShiftReads(r: Reader, s: seq<Byte>, k: nat, low: nat, end: nat)
    requires Wide(r.range) && r.range < TOP && r.code < r.range
    requires r.pos + 1 + k == end <= |s|
    requires r.code * Pow256(1 + k) + BigEndian(s[r.pos..end]) == low
    ensures var n := Normalize(r, s);
            n == Reader(r.range * 256, r.code * 256 + s[r.pos], r.pos + 1)
            && n.code * Pow256(k) + BigEndian(s[n.pos..end]) == low
  {
    assert s[r.pos..end] == [s[r.pos]] + s[r.pos + 1..end];
    PrependByte(r.code, s[r.pos], s[r.pos + 1..end], k);
  }

  lemma {:induction false} PrependByte(c: nat, b: Byte, tail: seq<Byte>, k: nat)
    requires |tail| == k
    ensures c * Pow256(k + 1) + BigEndian([b] + tail) == (c * 256 + b) * Pow256(k) + BigEndian(tail)
  {
    BigEndianConcat([b], tail);
    Single(b);
    Distribute(c, 256, b, Pow256(k));
  }

  lemma {:induction false} ScaleBy(a: nat, b: nat, c: nat)
    ensures a * b * c == a * (b * c)
  {
  }

  /** One step: the decoder returns the bit that was encoded and is ready for the next one. */
  lemma {:induction false} ReadStep(r: Reader, s: seq<Byte>, q: seq<Step>, end: nat)
    requires q != [] && Reads(r, s, q, end)
    ensures var (r', bit) := DecodeStep(r, s, q[0]);
            bit == q[0].bit && Reads(r', s, q[1..], end)
  {
    var n := Normalize(r, s);
    StepReads(n, s, q, end);
    match q[0]
    case Modelled(p, b) => SplitBounds(n.range, p);
    case Direct(b) => DirectIsComparison(n);
  }

  function DecodeAll(r: Reader, s: seq<Byte>, q: seq<Step>): (d: (Reader, seq<Bit>))
    requires Wide(r.range)
    ensures Wide(d.0.range) && |d.1| == |q|
    decreases |q|
  {
    if q == [] then (r, [])
    else
      var (r1, b) := DecodeStep(r, s, q[0]);
      var (r2, bs) := DecodeAll(r1, s, q[1..]);
      (r2, [b] + bs)
  }

  /** Four bytes after the first one make up the initial code; the first is checked to be zero. */
  function InitReader(s: seq<Byte>): Reader
    requires |s| >= 5
  {
    Reader(0xFFFF_FFFF, BigEndian(s[1..5]), 5)
  }

  /** The bytes FlushData leaves behind are readable from the start, and begin with a zero byte. */
  lemma {:induction false} FlushedIsReadable(out: seq<Byte>, extra: seq<Byte>, q: seq<Step>)
    requires var iv := AfterAll(START, q); |out| == iv.shifts + 5 && BigEndian(out) == iv.low
    ensures out[0] == 0 && Reads(InitReader(out + extra), out + extra, q, |out|)
  {
    var s := out + extra;
    var iv := Relative(0xFFFF_FFFF, q);
    var head, tail := out[1..5], out[5..];
    SplitOutput(out);
    assert s[1..5] == head && s[5..|out|] == tail;
    RelativeInside(0xFFFF_FFFF, q);
    LeadingZero(out[0], BigEndian(head), BigEndian(tail), Pow256(iv.shifts), iv.low, iv.range);
  }

  lemma {:induction false} SplitOutput(out: seq<Byte>)
    requires |out| >= 5
    ensures BigEndian(out) == out[0] * (B32 * Pow256(|out| - 5))
                              + (BigEndian(out[1..5]) * Pow256(|out| - 5) + BigEndian(out[5..]))
  {
    var head, tail := out[1..5], out[5..];
    assert out == [out[0]] + (head + tail);
    BigEndianConcat([out[0]], head + tail);
    BigEndianConcat(head, tail);
    Single(out[0]);
    Pow256Add(4, |tail|);
    FourBytes();
  }

  lemma {:induction false} FourBytes()
    ensures Pow256(4) == B32
  {
    assert Pow256(1) == 256 * Pow256(0);
    assert Pow256(2) == 256 * Pow256(1);
    assert Pow256(3) == 256 * Pow256(2);
  }

  lemma {:induction false} LeadingZero(first: nat, code: nat, tail: nat, p: nat, low: nat, width: nat)
    requires width > 0 && p > 0 && low + width <= 0xFFFF_FFFF * p
    requires first * (B32 * p) + (code * p + tail) == low
    ensures first == 0 && code < 0xFFFF_FFFF
  {
    if first >= 1 {
      MulLe(B32 * p, 1, first);
    }
    if code >= 0xFFFF_FFFF {
      MulLe(p, 0xFFFF_FFFF, code);
    }
  }

  /**
   * Round trip: after any decisions and a flush, a decoder started on the output, whatever follows it,
   * reads the same bits, ends with a zero code and has consumed exactly the emitted bytes.
   */
  lemma {:induction false} DecodeAllReads(r: Reader, s: seq<Byte>, q: seq<Step>, end: nat)
    requires Reads(r, s, q, end)
    ensures var (r', bits) := DecodeAll(r, s, q);
            && bits == StepBits(q)
            && Normalize(r', s).code == 0 && Normalize(r', s).pos == end
    decreases |q|
  {
    if q == [] {
      Pow256Small();
    } else {
      ReadStep(r, s, q, end);
      DecodeAllReads(DecodeStep(r, s, q[0]).0, s, q[1..], end);
    }
  }

  function StepBits(q: seq<Step>): (b: seq<Bit>)
    ensures |b| == |q|
    decreases |q|
  {
    if q == [] then [] else [q[0].bit] + StepBits(q[1..])
  }

  lemma {:induction false} RangeCoderRoundTrip(out: seq<Byte>, extra: seq<Byte>, q: seq<Step>)
    requires var iv := AfterAll(START, q); |out| == iv.shifts + 5 && BigEndian(out) == iv.low
    ensures out[0] == 0
    ensures var s := out + extra;
            var (r, bits) := DecodeAll(InitReader(s), s, q);
            bits == StepBits(q) && Normalize(r, s).code == 0 && Normalize(r, s).pos == |out|
  {
    FlushedIsReadable(out, extra, q);
    DecodeAllReads(InitReader(out + extra), out + extra, q, |out|);
  }
}
