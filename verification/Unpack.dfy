/**
 * Packed raw pixels, as dng.c unpacks them: the pixels of a frame are the consecutive groups of bpp bits of
 * its 16-bit words, most significant bit first.
 */
module Unpack {
  import opened Bits
  import opened BitStrings
  import opened Modular

  type Word = x: nat | x < 0x1_0000

  /** Words as a pointer shows them, with whatever lies behind the frame. */
  type Words = nat -> Word

  /** Pixel p of a frame: bits p bpp to (p + 1) bpp of the frame. */
  function PixelAt(words: Words, bpp: nat, p: nat): nat
  {
    ValueOf(FrameBits(words, bpp * p, bpp))
  }

  function FrameBit(words: Words, i: nat): Bit
  {
    BitsOf(words(i / 16), 16)[i % 16]
  }

  function FrameBits(words: Words, i: nat, n: nat): (r: seq<Bit>)
    ensures |r| == n
  {
    seq<Bit>(n, k requires 0 <= k < n => FrameBit(words, i + k))
  }

  // ---------------------------------------------------------------- rotation

  /** A 32-bit rotation to the right; the amount counts modulo 32. */
  function Ror(v: nat, amount: nat): nat
  {
    var n := amount % 32;
    Shl(Trunc(v, n), 32 - n) + Shr(v, n)
  }

  /** Rotating moves the last bits to the front. */
  lemma {:induction false} RorBits(v: nat, amount: nat)
    requires v < B32
    ensures var n := amount % 32; var s := BitsOf(v, 32);
            BitsOf(Ror(v, amount), 32) == s[32 - n..] + s[..32 - n]
  {
    hide Shl, Shr, Trunc, BitsOf, Pow2;
    var n := amount % 32;
    var high, low := BitsOf(Shr(v, n), 32 - n), BitsOf(Trunc(v, n), n);
    SplitField(v, 32, n);
    BitsLength(Shr(v, n), 32 - n);
    BitsLength(Trunc(v, n), n);
    TruncBound(v, n);
    Pow2Word();
    ShrBound(v, n, 32 - n);
    JoinField(Trunc(v, n), n, Shr(v, n), 32 - n);
    assert (high + low)[32 - n..] == low && (high + low)[..32 - n] == high;
  }

  lemma {:induction false} BitsLength(v: nat, n: nat)
    ensures |BitsOf(v, n)| == n
  {
  }

  /** The low n bits of a number are the last n of its bits. */
  lemma {:induction false} LowBits(v: nat, m: nat, n: nat)
    requires n <= m
    ensures |BitsOf(v, m)| == m && ValueOf(BitsOf(v, m)[m - n..]) == Trunc(v, n)
  {
    hide Trunc, Shr, BitsOf;
    SplitField(v, m, n);
    BitsLength(v, m);
    BitsLength(Shr(v, n), m - n);
    BitsLength(Trunc(v, n), n);
    assert BitsOf(v, m)[m - n..] == BitsOf(Trunc(v, n), n);
    TruncBound(v, n);
    ValueOfBits(Trunc(v, n), n);
  }

  // ---------------------------------------------------------------- one pixel

  /** Two words in the order a 32-bit load sees them. */
  function Loaded(first: Word, second: Word): nat
  {
    second * 0x1_0000 + first
  }

  lemma {:induction false} LoadedBits(first: Word, second: Word)
    ensures Loaded(first, second) < B32 && BitsOf(Loaded(first, second), 32) == BitsOf(second, 16) + BitsOf(first, 16)
  {
    hide Shl, BitsOf;
    Pow2Word();
    JoinField(second, 16, first, 16);
    SixteenShifts(second);
  }

  lemma {:induction false} SixteenShifts(v: nat)
    ensures Shl(v, 16) == 0x1_0000 * v
  {
    hide Shl;
    FourShifts(v, 0);
    FourShifts(v, 4);
    FourShifts(v, 8);
    FourShifts(v, 12);
    ShlNone(v);
  }

  lemma {:induction false} FourShifts(v: nat, n: nat)
    ensures Shl(v, n + 4) == 16 * Shl(v, n)
  {
    assert Shl(v, n + 1) == 2 * Shl(v, n);
    assert Shl(v, n + 2) == 4 * Shl(v, n);
    assert Shl(v, n + 3) == 8 * Shl(v, n);
  }

  /** The rotation brings bits shift to shift + bpp of two words to the lower end. */
  lemma {:induction false} RotatedPixel(first: Word, second: Word, bpp: nat, shift: nat)
    requires 1 <= bpp <= 16 && shift < 16
    ensures var both := BitsOf(first, 16) + BitsOf(second, 16);
            Trunc(Ror(Loaded(first, second), 16 + (32 - bpp - shift)), bpp) == ValueOf(both[shift..shift + bpp])
  {
    hide Ror, Trunc, BitsOf, Loaded;
    var amount := 16 + (32 - bpp - shift);
    var v := Loaded(first, second);
    var a, b := BitsOf(first, 16), BitsOf(second, 16);
    BitsLength(first, 16);
    BitsLength(second, 16);
    LoadedBits(first, second);
    RorBits(v, amount);
    LowBits(Ror(v, amount), 32, bpp);
    RotatedSlice(a, b, bpp, shift, amount % 32);
  }

  lemma {:induction false} RotatedSlice(a: seq<Bit>, b: seq<Bit>, bpp: nat, shift: nat, n: nat)
    requires |a| == |b| == 16 && 1 <= bpp <= 16 && shift < 16
    requires n == if bpp + shift > 16 then 48 - bpp - shift else 16 - bpp - shift
    ensures var s := b + a; (s[32 - n..] + s[..32 - n])[32 - bpp..] == (a + b)[shift..shift + bpp]
  {
    var s := b + a;
    var front, back := s[32 - n..], s[..32 - n];
    var x, y := (front + back)[32 - bpp..], (a + b)[shift..shift + bpp];
    forall i | 0 <= i < bpp
      ensures x[i] == y[i]
    {
      var j := 32 - bpp + i;
      assert x[i] == (front + back)[j];
      assert y[i] == (a + b)[shift + i];
      if j < n {
        assert (front + back)[j] == front[j] == s[32 - n + j];
      } else {
        assert (front + back)[j] == back[j - n] == s[j - n];
      }
    }
  }

  /** Two neighbouring words hold a whole pixel. */
  lemma {:induction false} PixelInTwoWords(words: Words, i: nat, bpp: nat)
    requires bpp <= 16
    ensures (BitsOf(words(i / 16), 16) + BitsOf(words(i / 16 + 1), 16))[i % 16..i % 16 + bpp] == FrameBits(words, i, bpp)
  {
    var q, r := i / 16, i % 16;
    var both := BitsOf(words(q), 16) + BitsOf(words(q + 1), 16);
    var x, y := both[r..r + bpp], FrameBits(words, i, bpp);
    forall k | 0 <= k < bpp
      ensures x[k] == y[k]
    {
      assert x[k] == both[r + k] && y[k] == FrameBit(words, i + k);
      if r + k < 16 {
        QuotientOf(i + k, 16, q, r + k);
      } else {
        QuotientOf(i + k, 16, q + 1, r + k - 16);
      }
    }
  }

  // ---------------------------------------------------------------- the loop

  function StartAddress(start: nat, bpp: nat): nat
  {
    start * bpp / 16
  }

  /** packed shows the words of the frame from that of pixel start on. */
  ghost predicate Shows(packed: Words, frame: Words, start: nat, bpp: nat)
  {
    forall i :: StartAddress(start, bpp) <= i ==> packed(Back(i, start, bpp)) == frame(i)
  }

  /** raw_bits[i], with raw_bits = packed_bits - pixel_start_address */
  function Back(i: nat, start: nat, bpp: nat): nat
  {
    if i >= StartAddress(start, bpp) then i - StartAddress(start, bpp) else 0
  }

  /** The frame whose words the buffer holds from that of pixel start on. */
  function Shown(packed: Words, start: nat, bpp: nat): Words
  {
    (i: nat) => packed(Back(i, start, bpp))
  }

  /**
   * dng_get_image_data_inline for an even offset: the pixels of the window go to the output, and nothing else of it is
   * written. A negative offset leaves that many bytes in front of the first pixel. If the words read for the window
   * are those of a frame and hold all its bits, then these are the pixels of the frame, whatever follows the words.
   */
  method UnpackPixels(packed: Words, output: array<nat>, offset: int, maxSize: nat, bpp: nat, ghost frame: Words)
    requires 1 <= bpp <= 16 && offset % 2 == 0 && (offset < 0 ==> 0 - offset <= maxSize) && maxSize / 2 <= output.Length
    modifies output
    ensures var start := (if offset < 0 then 0 else offset) / 2; var front := (if offset < 0 then 0 - offset else 0) / 2;
            && (forall k :: front <= k < maxSize / 2 ==>
                  output[k] == PixelAt(Shown(packed, start, bpp), bpp, start + (k - front)))
            && (forall k :: 0 <= k < output.Length && !(front <= k < maxSize / 2) ==> output[k] == old(output[k]))
            && (Read(packed, frame, start, maxSize / 2 - front, bpp) && HoldsPixels(start, maxSize / 2 - front, bpp) ==>
                  forall k :: front <= k < maxSize / 2 ==> output[k] == PixelAt(frame, bpp, start + (k - front)))
  {
    hide Ror, PixelAt, HoldsPixels, Read, Shown, Shows;
    ghost var shown := Shown(packed, (if offset < 0 then 0 else offset) / 2, bpp);
    ShownShows(packed, (if offset < 0 then 0 else offset) / 2, bpp);
    var pixelStart := (if offset < 0 then 0 else offset) / 2;
    var outputSize := maxSize - if offset < 0 then 0 - offset else 0;
    var front := (if offset < 0 then 0 - offset else 0) / 2;
    var pixelEnd := pixelStart + outputSize / 2;
    HalfSizes(offset, maxSize);
    var p: nat := pixelStart;
    while p < pixelEnd
      invariant pixelStart <= p <= pixelEnd
      invariant forall k :: front <= k < front + (p - pixelStart) ==>
                  output[k] == PixelAt(shown, bpp, pixelStart + (k - front))
      invariant forall k :: 0 <= k < output.Length && !(front <= k < front + (p - pixelStart)) ==>
                output[k] == old(output[k])
    {
      var bitsOffset: nat := p * bpp;
      var bitsAddress, bitsShift := bitsOffset / 16, bitsOffset % 16;
      Forward(pixelStart, p, bpp);
      var rotateValue := 16 + ((32 - bpp) - bitsShift);
      var at: nat := bitsAddress - pixelStart * bpp / 16;
      var uncorrected := Loaded(packed(at), packed(at + 1));
      PixelComputed(packed, shown, pixelStart, bpp, p);
      var data := Ror(uncorrected, rotateValue);
      output[front + (p - pixelStart)] := Trunc(data, bpp);
      p := p + 1;
    }
    ghost var n := maxSize / 2 - front;
    if Read(packed, frame, pixelStart, n, bpp) && HoldsPixels(pixelStart, n, bpp) {
      forall k | front <= k < maxSize / 2
        ensures output[k] == PixelAt(frame, bpp, pixelStart + (k - front))
      {
        PixelRead(packed, frame, pixelStart, n, bpp, pixelStart + (k - front));
      }
    }
  }

  lemma {:induction false} ShownShows(packed: Words, start: nat, bpp: nat)
    ensures Shows(packed, Shown(packed, start, bpp), start, bpp)
  {
  }

  lemma {:induction false} HalfSizes(offset: int, maxSize: nat)
    requires offset % 2 == 0 && (offset < 0 ==> 0 - offset <= maxSize)
    ensures var front := (if offset < 0 then 0 - offset else 0) / 2;
            front + (maxSize - if offset < 0 then 0 - offset else 0) / 2 == maxSize / 2
  {
  }

  lemma {:induction false} Forward(start: nat, p: nat, bpp: nat)
    requires start <= p
    ensures start * bpp / 16 <= p * bpp / 16
  {
    if bpp > 0 { ScaleLe(bpp, start, p); }
  }

  lemma {:induction false} PixelComputed(packed: Words, frame: Words, start: nat, bpp: nat, p: nat)
    requires 1 <= bpp <= 16 && start <= p && Shows(packed, frame, start, bpp)
    ensures start * bpp / 16 <= p * bpp / 16
    ensures var at := p * bpp / 16 - start * bpp / 16;
            Trunc(Ror(Loaded(packed(at), packed(at + 1)), 16 + ((32 - bpp) - p * bpp % 16)), bpp) == PixelAt(frame, bpp, p)
  {
    hide Ror, Trunc, Loaded, BitsOf;
    Forward(start, p, bpp);
    var i := p * bpp;
    assert bpp * p == i;
    WordsShown(packed, frame, start, bpp, i / 16);
    RotatedPixel(frame(i / 16), frame(i / 16 + 1), bpp, i % 16);
    PixelInTwoWords(frame, i, bpp);
  }

  lemma {:induction false} WordsShown(packed: Words, frame: Words, start: nat, bpp: nat, i: nat)
    requires Shows(packed, frame, start, bpp) && StartAddress(start, bpp) <= i
    ensures var at := i - StartAddress(start, bpp); packed(at) == frame(i) && packed(at + 1) == frame(i + 1)
  {
    assert Back(i, start, bpp) == i - StartAddress(start, bpp)
           && Back(i + 1, start, bpp) == i + 1 - StartAddress(start, bpp);
    assert packed(Back(i, start, bpp)) == frame(i) && packed(Back(i + 1, start, bpp)) == frame(i + 1);
  }

  // ---------------------------------------------------------------- how much is read

  /** The words get_image_data reads for a window of n pixels. */
  function PackedSize(n: nat, bpp: nat): nat
  {
    (n + 2) * bpp / 16
  }

  /** The words read from that of pixel start on hold every bit of n pixels. */
  predicate HoldsPixels(start: nat, n: nat, bpp: nat)
  {
    (start + n) * bpp <= 16 * (StartAddress(start, bpp) + PackedSize(n, bpp))
  }

  /** The words of a frame that get_image_data reads for n pixels from pixel start on; the buffer may go on anyhow. */
  ghost predicate Read(packed: Words, frame: Words, start: nat, n: nat, bpp: nat)
  {
    forall i :: 0 <= i < PackedSize(n, bpp) ==> packed(i) == frame(StartAddress(start, bpp) + i)
  }

  /** A pixel all of whose bits have been read. */
  lemma {:induction false} PixelRead(packed: Words, frame: Words, start: nat, n: nat, bpp: nat, p: nat)
    requires Read(packed, frame, start, n, bpp) && HoldsPixels(start, n, bpp) && start <= p < start + n
    ensures PixelAt(Shown(packed, start, bpp), bpp, p) == PixelAt(frame, bpp, p)
  {
    hide Shown, FrameBit, Read, HoldsPixels, FrameBits;
    WindowPixels(start, n, bpp, p);
    forall j | bpp * p <= j < bpp * p + bpp
      ensures FrameBit(Shown(packed, start, bpp), j) == FrameBit(frame, j)
    {
      BitRead(packed, frame, start, n, bpp, j);
    }
    SameBits(Shown(packed, start, bpp), frame, bpp * p, bpp);
  }

  lemma {:induction false} BitRead(packed: Words, frame: Words, start: nat, n: nat, bpp: nat, j: nat)
    requires Read(packed, frame, start, n, bpp) && HoldsPixels(start, n, bpp) && start * bpp <= j < (start + n) * bpp
    ensures FrameBit(Shown(packed, start, bpp), j) == FrameBit(frame, j)
  {
    hide BitsOf;
    var a := StartAddress(start, bpp);
    var w: nat := j / 16;
    assert a <= w < a + PackedSize(n, bpp);
    assert packed(w - a) == frame(a + (w - a));
    assert Back(w, start, bpp) == w - a && Shown(packed, start, bpp)(w) == frame(w);
  }

  lemma {:induction false} SameBits(f: Words, g: Words, i: nat, n: nat)
    requires forall j :: i <= j < i + n ==> FrameBit(f, j) == FrameBit(g, j)
    ensures FrameBits(f, i, n) == FrameBits(g, i, n)
  {
    hide FrameBit;
    var x, y := FrameBits(f, i, n), FrameBits(g, i, n);
    assert x == y;
  }

  /** Where the pixels of a window lie. */
  lemma {:induction false} WindowPixels(start: nat, n: nat, bpp: nat, p: nat)
    requires start <= p < start + n
    ensures start * bpp <= bpp * p && bpp * p + bpp <= (start + n) * bpp
  {
    if bpp > 0 {
      ScaleLe(bpp, start, p);
      ScaleLe(bpp, p + 1, start + n);
    }
  }

  /** The words read, followed by the opposite of what follows in the frame. */
  function Opposite(frame: Words, start: nat, n: nat, bpp: nat): Words
  {
    (i: nat) => FlippedFrom(frame(StartAddress(start, bpp) + i), i < PackedSize(n, bpp))
  }

  function FlippedFrom(w: Word, kept: bool): Word
  {
    if kept then w else Flipped(w)
  }

  function Flipped(w: Word): Word
  {
    0xFFFF - w
  }

  lemma {:induction false} SixteenBits()
    ensures Pow2(16) == 0x1_0000
  {
    assert Pow2(10) == 1024;
  }

  lemma {:induction false} FlippedBit(w: Word, j: nat)
    requires j < 16
    ensures |BitsOf(w, 16)| == |BitsOf(Flipped(w), 16)| == 16 && BitsOf(Flipped(w), 16)[j] == 1 - BitsOf(w, 16)[j]
  {
    hide BitsOf;
    var v: nat := w;
    assert Pow2(8) == 0x100;
    SixteenBits();
    BitsLength(v, 16);
    BitsLength(0xFFFF - v, 16);
    OppositeBits(v, 16, j);
  }

  lemma {:induction false} OppositeBits(v: nat, n: nat, j: nat)
    requires v < Pow2(n) && j < n
    ensures BitsOf(Pow2(n) - 1 - v, n)[j] == 1 - BitsOf(v, n)[j]
    decreases n
  {
    var u := Pow2(n) - 1 - v;
    assert u / 2 == Pow2(n - 1) - 1 - v / 2 && u % 2 == 1 - v % 2;
    if j < n - 1 { OppositeBits(v / 2, n - 1, j); }
  }

  /** The last pixel of a window that is not read whole depends on what follows the words read. */
  lemma {:induction false} PixelLost(frame: Words, start: nat, n: nat, bpp: nat)
    requires 1 <= bpp <= 16 && n >= 1 && !HoldsPixels(start, n, bpp)
    ensures var packed := Opposite(frame, start, n, bpp);
            && Read(packed, frame, start, n, bpp)
            && PixelAt(Shown(packed, start, bpp), bpp, start + n - 1) != PixelAt(frame, bpp, start + n - 1)
  {
    hide FrameBit, FrameBits, Shown, Opposite, PackedSize, StartAddress;
    var packed := Opposite(frame, start, n, bpp);
    OppositeRead(frame, start, n, bpp);
    var p := start + n - 1;
    WindowPixels(start, n, bpp, p);
    var last := bpp * p + bpp - 1;
    assert last + 1 == (start + n) * bpp by { assert bpp * p + bpp == (p + 1) * bpp; }
    BitLost(frame, start, n, bpp, last);
    LastPixelBit(Shown(packed, start, bpp), bpp, p);
    LastPixelBit(frame, bpp, p);
  }

  lemma {:induction false} OppositeRead(frame: Words, start: nat, n: nat, bpp: nat)
    ensures Read(Opposite(frame, start, n, bpp), frame, start, n, bpp)
  {
    hide Opposite;
    forall i | 0 <= i < PackedSize(n, bpp)
      ensures Opposite(frame, start, n, bpp)(i) == frame(StartAddress(start, bpp) + i)
    {
      OppositeAt(frame, start, n, bpp, i);
    }
  }

  lemma {:induction false} OppositeAt(frame: Words, start: nat, n: nat, bpp: nat, i: nat)
    ensures Opposite(frame, start, n, bpp)(i)
            == FlippedFrom(frame(StartAddress(start, bpp) + i), i < PackedSize(n, bpp))
  {
  }

  lemma {:induction false} BitLost(frame: Words, start: nat, n: nat, bpp: nat, j: nat)
    requires 16 * (StartAddress(start, bpp) + PackedSize(n, bpp)) <= j
    ensures FrameBit(Shown(Opposite(frame, start, n, bpp), start, bpp), j) != FrameBit(frame, j)
  {
    hide BitsOf, Opposite, StartAddress;
    var w: nat, a := j / 16, StartAddress(start, bpp);
    assert Back(w, start, bpp) == w - a;
    OppositeAt(frame, start, n, bpp, w - a);
    assert Shown(Opposite(frame, start, n, bpp), start, bpp)(w) == Flipped(frame(w));
    FlippedBit(frame(w), j % 16);
  }

  lemma {:induction false} LastPixelBit(f: Words, bpp: nat, p: nat)
    requires bpp >= 1
    ensures PixelAt(f, bpp, p) % 2 == FrameBit(f, bpp * p + bpp - 1)
  {
    hide FrameBit;
    var s := FrameBits(f, bpp * p, bpp);
    assert s[bpp - 1] == FrameBit(f, bpp * p + (bpp - 1));
    LastBit(s);
  }

  lemma {:induction false} LastBit(s: seq<Bit>)
    requires s != []
    ensures ValueOf(s) % 2 == s[|s| - 1]
  {
    var front, last: nat := ValueOf(s[..|s| - 1]), s[|s| - 1];
    assert ValueOf(s) == 2 * front + last;
  }

  /** Whatever lies behind the words read, every pixel of the window comes out right. */
  ghost predicate AllRight(frame: Words, start: nat, n: nat, bpp: nat)
  {
    forall packed: Words, p: nat :: Read(packed, frame, start, n, bpp) && start <= p < start + n ==>
      PixelAt(Shown(packed, start, bpp), bpp, p) == PixelAt(frame, bpp, p)
  }

  /**
   * Reading and unpacking together: for every frame, the words get_image_data reads give the right pixels if and only
   * if they hold all bits of the window. If they do not, some continuation of the buffer gives a wrong pixel.
   */
  lemma {:induction false} ReadAndUnpack(frame: Words, start: nat, n: nat, bpp: nat)
    requires 1 <= bpp <= 16
    ensures AllRight(frame, start, n, bpp) <==> n == 0 || HoldsPixels(start, n, bpp)
  {
    hide PixelAt, Shown, Read, HoldsPixels;
    if n > 0 {
      if HoldsPixels(start, n, bpp) {
        forall packed: Words, p: nat | Read(packed, frame, start, n, bpp) && start <= p < start + n
          ensures PixelAt(Shown(packed, start, bpp), bpp, p) == PixelAt(frame, bpp, p)
        {
          PixelRead(packed, frame, start, n, bpp, p);
        }
      } else {
        PixelLost(frame, start, n, bpp);
      }
    }
  }

  lemma {:induction false} HoldsInBits(start: nat, n: nat, bpp: nat)
    ensures HoldsPixels(start, n, bpp) <==> n * bpp + start * bpp % 16 <= 16 * PackedSize(n, bpp)
  {
    assert (start + n) * bpp == start * bpp + n * bpp;
  }

  /** What is left over in the first word before the window and in the last word behind it has 2 bpp bits of slack. */
  lemma {:induction false} HoldsInSlack(start: nat, n: nat, bpp: nat)
    ensures HoldsPixels(start, n, bpp) <==> start * bpp % 16 + (n + 2) * bpp % 16 <= 2 * bpp
  {
    HoldsInBits(start, n, bpp);
    assert (n + 2) * bpp == n * bpp + 2 * bpp;
  }

  lemma {:induction false} RemainderSteps(x: nat, y: nat, z: nat)
    requires x % 16 % 8 == 0 && y % 16 % 4 == 0 && z % 16 % 2 == 0
    ensures (x + 8) % 16 % 8 == 0 && (y + 12) % 16 % 4 == 0 && (z + 14) % 16 % 2 == 0
  {
  }

  lemma {:induction false} Remainders(v: nat)
    ensures v * 8 % 16 % 8 == 0 && v * 12 % 16 % 4 == 0 && v * 14 % 16 % 2 == 0
  {
    if v > 0 {
      Remainders(v - 1);
      var x, y, z := (v - 1) * 8, (v - 1) * 12, (v - 1) * 14;
      RemainderSteps(x, y, z);
      assert v * 8 == x + 8 && v * 12 == y + 12 && v * 14 == z + 14;
    }
  }

  lemma {:induction false} QuarterWords(v: nat)
    ensures v * 8 % 16 <= 8 && v * 12 % 16 <= 12 && v * 14 % 16 <= 14 && v * 16 % 16 == 0
  {
    Remainders(v);
    var x, y, z := v * 8 % 16, v * 12 % 16, v * 14 % 16;
    assert x < 16 && y < 16 && z < 16 && x % 8 == 0 && y % 4 == 0 && z % 2 == 0;
    assert v * 16 == 16 * v;
  }

  /**
   * A window from the first pixel is always unpacked right, and so is any window of 8, 12, 14 or 16 bits per pixel.
   * For 10 bits per pixel the last pixel can be cut off, exactly when what is left over in the first word before the
   * window and in the last word behind it exceeds 20 bits.
   */
  lemma {:induction false} WindowRead(frame: Words, start: nat, n: nat, bpp: nat)
    requires 8 <= bpp <= 16 && n >= 1
    ensures AllRight(frame, start, n, bpp) <==> start * bpp % 16 + (n + 2) * bpp % 16 <= 2 * bpp
    ensures start == 0 ==> AllRight(frame, start, n, bpp)
    ensures bpp == 8 || bpp == 12 || bpp == 14 || bpp == 16 ==> AllRight(frame, start, n, bpp)
  {
    hide HoldsPixels, AllRight;
    ReadAndUnpack(frame, start, n, bpp);
    HoldsInSlack(start, n, bpp);
    QuarterWords(start);
    QuarterWords(n + 2);
    if start == 0 { assert start * bpp == 0; }
  }

  /** Three pixels into a frame of 10 bits per pixel, two more pixels end in a third word, and only two are read. */
  lemma {:induction false} TenBitsCutOff(frame: Words)
    ensures StartAddress(3, 10) == 1 && PackedSize(2, 10) == 2 && !AllRight(frame, 3, 2, 10)
  {
    WindowRead(frame, 3, 2, 10);
  }
}
