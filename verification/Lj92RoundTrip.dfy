/**
 * From image to file and back: whatever lj92_encode writes, lj92_open and lj92_decode restore.
 */
module Lj92RoundTrip {
  import opened Bits
  import opened BitStrings
  import opened HuffmanTree
  import opened HuffmanCodes
  import opened Lj92Model
  import opened Modular
  import opened Lj92Encoder
  import opened Lj92Decoder

  lemma {:induction false} HeaderLengths(width: nat, height: nat, depth: nat, bits: seq<nat>, vals: seq<nat>)
    requires Writable(width, height, depth, bits, vals)
    ensures |FrameHeader(width, height, depth)| == 15 && |HuffmanHeader(bits, vals)| == 21 + |vals|
    ensures |Header(width, height, depth, bits, vals)| == 46 + |vals|
  {
  }

  /** The parts of a file in memory. */
  lemma {:induction false} FileParts(mem: Memory, width: nat, height: nat, depth: nat, bits: seq<nat>, vals: seq<nat>,
                                     scan: seq<Byte>)
    requires Writable(width, height, depth, bits, vals)
    requires Contains(mem, 0, Header(width, height, depth, bits, vals) + scan + END_OF_IMAGE)
    ensures Contains(mem, 0, FrameHeader(width, height, depth)) && Contains(mem, 15, HuffmanHeader(bits, vals))
    ensures Contains(mem, 36 + |vals|, ScanHeader()) && Contains(mem, 46 + |vals|, scan)
  {
    hide Contains;
    var a, b, c := FrameHeader(width, height, depth), HuffmanHeader(bits, vals), ScanHeader();
    HeaderLengths(width, height, depth, bits, vals);
    ContainsParts(mem, 0, a + b + c + scan, END_OF_IMAGE);
    ContainsParts(mem, 0, a + b + c, scan);
    ContainsParts(mem, 0, a + b, c);
    ContainsParts(mem, 0, a, b);
  }

  lemma {:induction false} FrameBytes(mem: Memory, width: nat, height: nat, depth: nat)
    requires width < 0x1_0000 && height < 0x1_0000 && depth < 256 && Contains(mem, 0, FrameHeader(width, height, depth))
    ensures mem(0) == 0xFF && mem(1) == 0xD8 && mem(2) == 0xFF && mem(3) == 0xC3
    ensures Word16(mem, 4) == 11 && mem(6) == depth && Word16(mem, 7) == height && Word16(mem, 9) == width
  {
    var f := FrameHeader(width, height, depth);
    assert mem(0 + 0) == f[0] && mem(0 + 1) == f[1] && mem(0 + 2) == f[2] && mem(0 + 3) == f[3];
    assert mem(0 + 4) == f[4] && mem(0 + 5) == f[5] && mem(0 + 6) == f[6];
    assert mem(0 + 7) == f[7] && mem(0 + 8) == f[8] && mem(0 + 9) == f[9] && mem(0 + 10) == f[10];
  }

  lemma {:induction false} HuffmanBytes(mem: Memory, bits: seq<nat>, vals: seq<nat>)
    requires |bits| == LONGEST + 1 && |vals| <= CATEGORIES && forall i :: 0 <= i < |bits| ==> bits[i] < 0xFF
    requires forall i :: 0 <= i < |vals| ==> vals[i] < 0xFF
    requires Contains(mem, 15, HuffmanHeader(bits, vals))
    ensures mem(15) == 0xFF && mem(16) == 0xC4 && Word16(mem, 17) == 19 + |vals| && mem(19) == 0
    ensures forall l :: 1 <= l <= 16 ==> mem(19 + l) == bits[l]
    ensures forall k :: 0 <= k < |vals| ==> mem(36 + k) == vals[k]
    ensures forall q :: 17 <= q < 36 + |vals| ==> mem(q) != 0xFF
  {
    var f := HuffmanHeader(bits, vals);
    assert mem(15 + 0) == f[0] && mem(15 + 1) == f[1] && mem(15 + 2) == f[2] && mem(15 + 3) == f[3]
           && mem(15 + 4) == f[4];
    forall l | 1 <= l <= 16
      ensures mem(19 + l) == bits[l]
    {
      assert mem(15 + (4 + l)) == f[4 + l] == bits[1..][l - 1];
    }
    forall k | 0 <= k < |vals|
      ensures mem(36 + k) == vals[k]
    {
      assert mem(15 + (21 + k)) == f[21 + k] == vals[k];
    }
    forall q | 17 <= q < 36 + |vals|
      ensures mem(q) != 0xFF
    {
      if q >= 36 {
        assert mem(36 + (q - 36)) == vals[q - 36];
      } else if q >= 20 {
        assert mem(19 + (q - 19)) == bits[q - 19];
      }
    }
  }

  lemma {:induction false} ScanBytes(mem: Memory, at: nat)
    requires Contains(mem, at, ScanHeader())
    ensures mem(at) == 0xFF && mem(at + 1) == 0xDA && Word16(mem, at + 2) == 8 && mem(at + 4) == 1 && mem(at + 7) == 6
  {
    var f := ScanHeader();
    assert mem(at + 0) == f[0] && mem(at + 1) == f[1] && mem(at + 2) == f[2] && mem(at + 3) == f[3]
           && mem(at + 4) == f[4]
        && mem(at + 7) == f[7];
  }

  lemma {:induction false} LongestIs(bits: seq<nat>, m: nat, l: nat)
    requires m <= l < |bits| && bits[m] > 0 && forall k :: m < k <= l ==> bits[k] == 0
    ensures Longest(bits, l) == m
    decreases l
  {
    if m < l { LongestIs(bits, m, l - 1); }
  }

  /** The decoder reads back the table the encoder wrote. */
  lemma {:induction false} TableRead(mem: Memory, t: Table)
    requires TableOk(t) && t.bits[0] == 0 && |Lengths(t)| == |t.vals|
    requires forall l :: 1 <= l <= 16 ==> mem(19 + l) == t.bits[l]
    requires forall k :: 0 <= k < |t.vals| ==> mem(36 + k) == t.vals[k]
    ensures TableAt(mem, 17) == t
  {
    hide Lens, Start;
    var r := TableAt(mem, 17);
    assert r.bits == t.bits;
    LongestIs(t.bits, t.m, 16);
    assert r.vals == t.vals;
  }

  /** A file of the encoder has the headers the decoder looks for. */
  lemma {:induction false} FileHeaded(mem: Memory, datalen: int, file: seq<Byte>, px: seq<int>, width: nat,
                                      height: nat, depth: nat, t: Table, sym: seq<nat>, data: seq<Byte>,
                                      pad: seq<Bit>)
    requires width >= 1 && FileOf(file, px, width, height, depth, t, sym, data, pad)
    requires Contains(mem, 0, file) && |file| <= datalen
    ensures TableOk(t) && Headed(mem, datalen, width, height, depth, t)
    ensures var n := |t.vals|;
            && mem(40 + n) == 1 && mem(43 + n) == 6 && Word16(mem, 38 + n) == 8
            && Contains(mem, 46 + n, Stuffed(data)) && |file| == 46 + n + |Stuffed(data)| + 2
  {
    hide Contains, Header, FrameHeader, HuffmanHeader, ScanHeader, TableOk, Word16, ImageBits, AllBits, Stuffed,
        TableAt;
    CoversOk(t, sym, px, width, depth);
    HeaderLengths(width, height, depth, t.bits, t.vals);
    FileParts(mem, width, height, depth, t.bits, t.vals, Stuffed(data));
    FrameBytes(mem, width, height, depth);
    HuffmanBytes(mem, t.bits, t.vals);
    ScanBytes(mem, 36 + |t.vals|);
    TableRead(mem, t);
  }

  /** The scan of the file, read by the reference procedures, is the image. */
  lemma {:induction false} FileScanned(mem: Memory, file: seq<Byte>, px: seq<int>, width: nat, height: nat,
                                       depth: nat, t: Table, sym: seq<nat>, data: seq<Byte>, pad: seq<Bit>, k: nat)
    requires width >= 1 && FileOf(file, px, width, height, depth, t, sym, data, pad) && TableOk(t) && k <= |px|
    requires Contains(mem, 46 + |t.vals|, Stuffed(data))
    ensures Scan(mem, 46 + |t.vals|, t, 6, width, depth, |px|).0 == px
    ensures Scan(mem, 46 + |t.vals|, t, 6, width, depth, k).1.pos <= 8 * |data|
  {
    hide Contains, Header, TableOk, ImageBits, AllBits, Stuffed, Covers, Scan, Window;
    var start := 46 + |t.vals|;
    StreamShows(mem, start, data, ImageBits(t, sym, px, width, depth, |px|), pad);
    AllBitsLength(data);
    ScanRestores(mem, start, t, sym, px, width, depth, |px|);
    assert px[..|px|] == px;
    ScanRestores(mem, start, t, sym, px, width, depth, k);
    ImageBitsPrefix(t, sym, px, width, depth, k, |px|);
  }

  lemma {:induction false} AllBitsLength(data: seq<Byte>)
    ensures |AllBits(data)| == 8 * |data|
  {
  }

  // ---------------------------------------------------------------- how far the reader runs ahead

  lemma {:induction false} FillBound(mem: Memory, start: nat, f: nat, p: nat, need: nat)
    requires need <= 16 && 8 * f <= p + 31
    ensures 8 * Fill(mem, start, f, p, need) <= p + 31
    decreases p + need - 8 * f
  {
    if 8 * f < p + need {
      FillBound(mem, start, f + if DataByte(mem, start, f) == 0xFF then 1 else 2, p, need);
    }
  }

  /** At most 31 bits are buffered. */
  lemma {:induction false} ScanAhead(mem: Memory, start: nat, t: Table, pred: nat, w: nat, depth: nat, k: nat)
    requires TableOk(t) && w >= 1
    ensures var c := Scan(mem, start, t, pred, w, depth, k).1; 8 * c.fetched <= c.pos + 31
  {
    hide TableOk, Predict, CodeAt, Fill;
    if k > 0 {
      ScanAhead(mem, start, t, pred, w, depth, k - 1);
      var c := Scan(mem, start, t, pred, w, depth, k - 1).1;
      var i := CodeAt(mem, start, t, c.pos);
      CodeLength(t, i);
      TableDepth(t);
      FillBound(mem, start, c.fetched, c.pos, t.m);
      FillBound(mem, start, Fill(mem, start, c.fetched, c.pos, t.m), c.pos + Lengths(t)[i], t.vals[i]);
    }
  }

  /** The reader never gets further than six bytes behind the scan. */
  lemma {:induction false} ReachedBound(mem: Memory, start: nat, t: Table, w: nat, depth: nat, k: nat,
                                        data: seq<Byte>)
    requires TableOk(t) && w >= 1 && Contains(mem, start, Stuffed(data))
    requires Scan(mem, start, t, 6, w, depth, k).1.pos <= 8 * |data|
    ensures Reached(mem, start, t, 6, w, depth, k) <= start + |Stuffed(data)| + 6
  {
    hide TableOk, Scan, Contains, Stuffed;
    ScanAhead(mem, start, t, 6, w, depth, k);
    UnstuffedEnd(mem, start, data);
    var f := Scan(mem, start, t, 6, w, depth, k).1.fetched;
    if f <= |data| { RawPosGrows(mem, start, f, |data|); } else { RawPosGrows(mem, start, |data|, f); }
  }

  // ---------------------------------------------------------------- the round trip

  /** The target shows the first k pixels, each at its spot. */
  ghost predicate Restored(target: seq<int>, px: seq<int>, line: nat, skip: nat, k: nat)
  {
    k <= |px| && forall j :: 0 <= j < k ==> var p := Spot(j, line, skip); p < |target| && target[p] == px[j]
  }

  lemma {:induction false} RestoredFrom(target: seq<int>, px: seq<int>, line: nat, skip: nat, k: nat, depth: nat)
    requires k <= |px| && InImage(target, px, line, skip, k) && PixelsFit(px, depth) && depth <= 15
    ensures Restored(target, px, line, skip, k)
  {
    Pow2Monotone(depth, 15);
    assert Pow2(15) == 0x8000;
    forall j | 0 <= j < k
      ensures U16(px[j]) == px[j]
    {
    }
  }

  /** The pixels of a successful call: all, unless their number does not fit an int; then the first row. */
  function Wanted(width: nat, height: nat): nat
  {
    if width * height < SIGN then width * height else width
  }

  /** The pixels whose guard decides. */
  function Deciding(width: nat, height: nat): nat
  {
    if width * height < SIGN then Guard(width, height) else width
  }

  /**
   * Opening and decoding a file of the encoder's format, with anything behind it in memory. Every pixel that is
   * written is the pixel that was encoded. The call succeeds exactly when the reader is still inside datalen at the
   * deciding guard, for which five bytes behind the file are always enough, and success means all pixels exactly when
   * their number is an int, or there is but one row: from 2^31 pixels on the product of the sizes is negative, and a
   * successful call has written the first row only.
   */
  method DecodeFile(mem: Memory, datalen: int, target: array<int>, writeLength: nat, skipLength: nat,
                    ghost file: seq<Byte>, ghost px: seq<int>, width: nat, height: nat, depth: nat, ghost t: Table,
                    ghost sym: seq<nat>, ghost data: seq<Byte>, ghost pad: seq<Bit>)
    returns (opening: Status, ret: Status, w: nat, h: nat, bitdepth: nat, k: nat)
    requires 1 <= width && 1 <= height && depth <= 15 && PixelsFit(px, depth) && |px| == width * height
    requires FileOf(file, px, width, height, depth, t, sym, data, pad)
    requires Contains(mem, 0, file) && |file| <= datalen
    requires HasRoom(target.Length, |px|, if writeLength < 2 then 0 else writeLength, skipLength)
    modifies target
    ensures opening == OK && w == width && h == height && bitdepth == depth
    ensures Restored(target[..], px, if writeLength < 2 then 0 else writeLength, skipLength, k)
    ensures 1 <= k <= |px|
    ensures ret == OK ==> k == Wanted(width, height) && (k == |px| <==> width * height < SIGN || height == 1)
    ensures TableOk(t)
    ensures ret == OK <==> Reached(mem, 46 + |t.vals|, t, 6, width, depth, Deciding(width, height)) < datalen
    ensures |file| + 5 <= datalen ==> ret == OK
  {
    hide FileOf, Contains, TableOk, Headed, Stuffed, PixelsFit, Reached, HasRoom, InImage, Scan, Restored, Guard;
    var ljp := new Ljp(mem, datalen);
    FileHeaded(mem, datalen, file, px, width, height, depth, t, sym, data, pad);
    opening := ljp.OpenFile(width, height, depth, t);
    w, h, bitdepth := ljp.x, ljp.y, ljp.bits;
    assert ljp.ScanPredictor() == 6;
    ret := ljp.Decode(target, writeLength, skipLength);
    k := ljp.c;
    FileReached(mem, file, px, width, height, depth, t, sym, data, pad);
    RestoredFrom(target[..], px, ljp.line, skipLength, k, depth);
    OneRow(width, height);
  }

  lemma {:induction false} OneRow(width: nat, height: nat)
    requires width >= 1 && height >= 1
    ensures width == width * height <==> height == 1
    ensures width <= width * height
  {
    if height >= 2 { ScaleLe(width, 2, height); }
  }

  /** The bytes of a file, and whatever lies behind it. */
  function InMemory(file: seq<Byte>, beyond: Memory): (mem: Memory)
    ensures Contains(mem, 0, file)
  {
    (i: nat) => if i < |file| then var b: Byte := file[i]; b else beyond(i)
  }

  /**
   * lj92_encode, then lj92_open and lj92_decode on what it wrote with slack bytes behind: every pixel written is the
   * pixel of the tile, whatever lies behind the file; decoding succeeds, with all of them written, exactly when the
   * reader stays inside the slack at the deciding guard, and five bytes are always enough for that. Only tiles whose
   * output buffer has no length in an int are refused.
   */
  method EncodeThenDecode(image: seq<int>, width: nat, height: nat, bitdepth: nat, readLength: nat, skipIn: nat,
                          f: Floats, beyond: Memory, slack: nat, target: array<int>, writeLength: nat, skipOut: nat,
                          ghost px: seq<int>)
    returns (ok: bool, encoded: seq<Byte>, ret: Status, k: nat, ghost t: Table)
    requires 1 <= width < 0x1_0000 && 1 <= height < 0x1_0000 && 1 <= bitdepth <= 15 && |px| == width * height
    requires Shows(image, readLength, skipIn, px) && PixelsFit(px, bitdepth) && CodeFitting(px, width, bitdepth)
    requires Rounds(f)
    requires HasRoom(target.Length, |px|, if writeLength < 2 then 0 else writeLength, skipOut)
    modifies target
    ensures ok <==> Allocatable(width, height)
    ensures ok ==>
              && TableOk(t) && Restored(target[..], px, if writeLength < 2 then 0 else writeLength, skipOut, k)
              && (ret == OK ==> k == |px|) && (slack >= 5 ==> ret == OK)
              && (ret == OK <==>
                    Reached(InMemory(encoded, beyond), 46 + |t.vals|, t, 6, width, bitdepth, Guard(width, height))
                    < |encoded| + slack)
  {
    hide FileOf, Contains, TableOk, PixelsFit, Reached, HasRoom, Restored, Guard, Shows, Rounds, Histogram, Frugal;
    ghost var sym, data, pad, hist;
    ok, encoded, t, sym, data, pad, hist := Encode(image, width, height, bitdepth, readLength, skipIn, f, px);
    ret, k := CORRUPT, 0;
    if ok {
      var opening, w, h, depth;
      opening, ret, w, h, depth, k := DecodeFile(InMemory(encoded, beyond), |encoded| + slack, target, writeLength,
                                                 skipOut, encoded, px, width, height, bitdepth, t, sym, data, pad);
    }
  }

  /** The image is in the scan, and the reader stays within six bytes behind it. */
  lemma {:induction false} FileReached(mem: Memory, file: seq<Byte>, px: seq<int>, width: nat, height: nat,
                                       depth: nat, t: Table, sym: seq<nat>, data: seq<Byte>, pad: seq<Bit>)
    requires width >= 1 && height >= 1 && FileOf(file, px, width, height, depth, t, sym, data, pad) && TableOk(t)
    requires |px| == width * height && Contains(mem, 46 + |t.vals|, Stuffed(data))
    ensures Scan(mem, 46 + |t.vals|, t, 6, width, depth, width * height).0 == px
    ensures Reached(mem, 46 + |t.vals|, t, 6, width, depth, Deciding(width, height)) <= 46 + |t.vals| + |Stuffed(data)| + 6
  {
    hide FileOf, Contains, TableOk, Stuffed, Reached, Scan, Guard;
    GuardWithin(width, height);
    FileScanned(mem, file, px, width, height, depth, t, sym, data, pad, Deciding(width, height));
    ReachedBound(mem, 46 + |t.vals|, t, width, depth, Deciding(width, height), data);
  }

  lemma {:induction false} GuardWithin(x: nat, y: nat)
    requires x >= 1 && y >= 1
    ensures Deciding(x, y) <= x * y
  {
    Area(x, y, 1);
    OneRow(x, y);
  }

  // ---------------------------------------------------------------- the guards are not free of false alarms

  /** What the encoder writes for one pixel in the middle of the range: two code words, and the scan 0x80. */
  lemma {:induction false} OnePixelFile(file: seq<Byte>, px: seq<int>, t: Table, sym: seq<nat>, data: seq<Byte>,
                                        pad: seq<Bit>, hist: seq<nat>)
    requires px == [128] && FileOf(file, px, 1, 1, 8, t, sym, data, pad)
    requires Histogram(hist, px, 1, 8, 1) && Frugal(t, sym, hist)
    ensures |t.vals| == 2 && TableOk(t) && t.m == 1 && data == [0x80] && Stuffed(data) == [0x80]
    ensures |ImageBits(t, sym, px, 1, 8, 1)| == 1
  {
    hide Complete, Code, Stuffed, Header, Kinds, AllBits, BitsOf, TableOk, Residual, PixelBits;
    CoversOk(t, sym, px, 1, 8);
    OnePixelBits(t, sym, px, hist);
    assert |AllBits(data)| == 8 * |data|;
    OneByte(data, pad);
    assert Stuffed(data) == [0x80] by {
      assert data == [] + [0x80];
      StuffedNothing();
      AppendData([], 0x80);
    }
  }

  lemma {:induction false} StuffedNothing()
    ensures Stuffed([]) == []
  {
  }

  lemma {:induction false} OnePixelBits(t: Table, sym: seq<nat>, px: seq<int>, hist: seq<nat>)
    requires px == [128] && Covers(t, sym, px, 1, 8) && Histogram(hist, px, 1, 8, 1) && Frugal(t, sym, hist)
    ensures t.m == 1 && |Lengths(t)| == 2 && ImageBits(t, sym, px, 1, 8, 1) == [1]
  {
    hide Code, Kinds, Lens, Start;
    assert Residual(px, 1, 8, 0) == 0 && Category(0) == 0 && Extra(0) == 0 by {
      assert Middle(8) == 128;
    }
    OneKind(hist, px);
    TwoWords(t.bits, t.m);
    LastCodeAllOnes(t.bits, t.m);
    assert Pow2(1) == 2;
    assert BitsOf(1, 1) == [1] && BitsOf(0, 0) == [];
    assert ImageBits(t, sym, px, 1, 8, 0) == [];
  }

  lemma {:induction false} OneKind(hist: seq<nat>, px: seq<int>)
    requires |px| == 1 && Histogram(hist, px, 1, 8, 1) && Category(Residual(px, 1, 8, 0)) == 0
    ensures Kinds(hist, CATEGORIES) == 1 && hist[0] > 0
  {
    hide Category, Residual, SumOf;
    forall s | 0 <= s < CATEGORIES
      ensures hist[s] == if s == 0 then 1 else 0
    {
      assert Occurrences(px, 1, 8, s, 0) == 0;
      assert Occurrences(px, 1, 8, s, 1) == if s == 0 then 1 else 0;
    }
    OnlyFirst(hist, CATEGORIES);
  }

  lemma {:induction false} OnlyFirst(hist: seq<nat>, n: nat)
    requires 1 <= n <= |hist| && hist[0] == 1 && forall s :: 1 <= s < |hist| ==> hist[s] == 0
    ensures Kinds(hist, n) == 1
  {
    if n > 1 { OnlyFirst(hist, n - 1); } else { assert Kinds(hist, 0) == 0; }
  }

  /** A one and the zeros that fill its byte. */
  lemma {:induction false} OneByte(data: seq<Byte>, pad: seq<Bit>)
    requires AllBits(data) == [1] + pad && |pad| < 8 && pad == BitsOf(0, |pad|) && |AllBits(data)| == 8 * |data|
    ensures data == [0x80]
  {
    hide AllBits, BitsOf;
    assert |data| == 1 && |pad| == 7;
    AllBitsAt(data, 0);
    var b: nat := data[0];
    assert BitsOf(b, 8) == AllBits(data)[0..8] == [1] + pad;
    LeadingOne(b, pad);
  }

  lemma {:induction false} LeadingOne(b: nat, pad: seq<Bit>)
    requires b < 256 && BitsOf(b, 8) == [1] + pad && pad == BitsOf(0, 7)
    ensures b == 0x80
  {
    hide BitsOf;
    ValueOfBits(b, 8);
    ValueOfBits(0, 7);
    ValueConcat([1], pad);
    assert ValueOf([1]) == 1 by { assert ValueOf([]) == 0 && [1][..0] == []; }
    assert Shl(1, 7) == 128 && Pow2(8) == 256 && Pow2(7) == 128;
  }

  /** Its reader fetches the 0xFF of the end marker together with the byte behind it. */
  lemma {:induction false} OnePixelReach(mem: Memory, start: nat, t: Table)
    requires TableOk(t) && t.m == 1 && mem(start) == 0x80 && mem(start + 1) == 0xFF
    requires Scan(mem, start, t, 6, 1, 8, 1).1.pos == 1
    ensures Reached(mem, start, t, 6, 1, 8, Guard(1, 1)) == start + 3
  {
    var k := CodeAt(mem, start, t, 0);
    CodeLength(t, k);
    hide TableOk, CodeAt, Lengths, Window, ValueOf, BitsOf, Predict;
    assert RawPos(mem, start, 1) == start + 1;
    assert RawPos(mem, start, 2) == start + 3;
    assert Fill(mem, start, 0, 0, 1) == 2;
    assert Scan(mem, start, t, 6, 1, 8, 0) == ([], Cursor(0, 0));
    assert Scan(mem, start, t, 6, 1, 8, 1).1 == DiffAt(mem, start, t, Cursor(0, 0)).1;
  }

  /**
   * Without bytes to spare a complete file can be refused: the decoder reports the file that the encoder writes for a
   * single pixel of 128 as corrupt, although it has restored the pixel.
   */
  method OnePixelRefused(f: Floats, beyond: Memory, target: array<int>) returns (encoded: seq<Byte>, ret: Status, k: nat)
    requires Rounds(f) && target.Length == 1
    modifies target
    ensures ret == CORRUPT && k == 1 && target[0] == 128
  {
    hide FileOf, Contains, TableOk, Reached, Rounds, Histogram, Frugal, Scan, ImageBits, Stuffed, PixelsFit,
        Shows, HasRoom, Guard;
    ghost var px := [128];
    OnePixelShown(px);
    var ok;
    ghost var t, sym, data, pad, hist;
    ok, encoded, t, sym, data, pad, hist := Encode([128], 1, 1, 8, 1, 0, f, px);
    OnePixelFile(encoded, px, t, sym, data, pad, hist);
    var mem := InMemory(encoded, beyond);
    var opening, w, h, depth;
    opening, ret, w, h, depth, k := DecodeFile(mem, |encoded|, target, 1, 0, encoded, px, 1, 1, 8, t, sym, data, pad);
    OnePixelEnd(mem, encoded, px, t, sym, data, pad);
    assert Spot(0, 0, 0) == 0;
    assert target[..][0] == px[0];
  }

  lemma {:induction false} OnePixelEnd(mem: Memory, file: seq<Byte>, px: seq<int>, t: Table, sym: seq<nat>,
                                       data: seq<Byte>, pad: seq<Bit>)
    requires px == [128] && FileOf(file, px, 1, 1, 8, t, sym, data, pad) && Contains(mem, 0, file)
    requires |t.vals| == 2 && TableOk(t) && t.m == 1 && data == [0x80] && Stuffed(data) == [0x80]
    requires |ImageBits(t, sym, px, 1, 8, 1)| == 1
    ensures Reached(mem, 46 + |t.vals|, t, 6, 1, 8, Guard(1, 1)) == |file|
  {
    hide TableOk, Reached, Scan, ImageBits, Header, AllBits, Stuffed, Covers, Window;
    FileHeaded(mem, |file|, file, px, 1, 1, 8, t, sym, data, pad);
    HeaderLengths(1, 1, 8, t.bits, t.vals);
    assert mem(0 + 48) == file[48] == 0x80 && mem(0 + 49) == file[49] == 0xFF;
    StreamShows(mem, 48, data, ImageBits(t, sym, px, 1, 8, 1), pad);
    ScanRestores(mem, 48, t, sym, px, 1, 8, 1);
    OnePixelReach(mem, 48, t);
  }

  lemma {:induction false} OnePixelShown(px: seq<int>)
    requires px == [128]
    ensures Shows([128], 1, 0, px) && PixelsFit(px, 8) && CodeFitting(px, 1, 8) && HasRoom(1, 1, 0, 0)
  {
    assert Spot(0, 1, 0) == 0 && Spot(0, 0, 0) == 0 && Pow2(8) == 256;
  }

  // ---------------------------------------------------------------- the fast path and the general loop

  /** parsePred6 and parseScan's own loop put pixels in the same places unless lines of one pixel have gaps. */
  lemma {:induction false} SameSpots(len: nat, skip: nat, n: nat)
    ensures (forall k :: 0 <= k < n ==> Spot(k, if len < 2 then 0 else len, skip) == Spot(k, len, skip))
            <==> len != 1 || skip == 0 || n <= 1
  {
    if len == 1 {
      if skip == 0 {
        forall k | 0 <= k < n
          ensures Spot(k, 0, skip) == Spot(k, 1, skip)
        {
          SpotClosed(k, 0, skip);
          SpotClosed(k, 1, skip);
        }
      } else if n > 1 {
        assert Spot(1, 0, skip) == 1;
        assert Spot(1, 1, skip) == 1 + skip;
      }
    }
  }
}
