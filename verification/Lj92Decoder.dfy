/**
 * The decoder of lj92.c: marker search, table lookup, the prefetching bit reader, and the two scan loops.
 */
module Lj92Decoder {
  import opened Bits
  import opened BitStrings
  import opened HuffmanTree
  import opened HuffmanCodes
  import opened Lj92Model
  import opened Modular

  // ---------------------------------------------------------------- segments

  /** Frame header, one Huffman table and scan header in this order, with nothing else before the scan. */
  ghost predicate Headed(mem: Memory, datalen: int, width: nat, height: nat, depth: nat, t: Table)
  {
    var n := |t.vals|;
    && datalen > 46 + n
    && mem(0) == 0xFF && mem(1) == 0xD8 && mem(2) == 0xFF && mem(3) == 0xC3
    && Word16(mem, 4) == 11 && mem(6) == depth && Word16(mem, 7) == height && Word16(mem, 9) == width
    && mem(15) == 0xFF && mem(16) == 0xC4 && Word16(mem, 17) == 19 + n && mem(19) == 0 && TableAt(mem, 17) == t
    && (forall q :: 17 <= q < 36 + n ==> mem(q) != 0xFF) && mem(36 + n) == 0xFF && mem(37 + n) == 0xDA
  }

  /** The markers find meets in such a file. */
  lemma {:induction false} HeadedMarks(mem: Memory, datalen: int, width: nat, height: nat, depth: nat, t: Table)
    requires Headed(mem, datalen, width, height, depth, t)
    ensures NextMark(mem, datalen, 0) == 0 && NextMark(mem, datalen, 2) == 2 && NextMark(mem, datalen, 15) == 15
    ensures NextMark(mem, datalen, 17) == 36 + |t.vals|
  {
    hide TableAt;
    MarkAhead(mem, datalen, 17, 36 + |t.vals|);
  }

  function Word16(mem: Memory, p: nat): nat
  {
    mem(p) * 256 + mem(p + 1)
  }

  /** The next 0xFF from i on, or the last byte of the data. */
  function NextMark(mem: Memory, datalen: int, i: nat): (p: nat)
    ensures i <= p && (p == i || p < datalen)
    decreases datalen - i
  {
    if mem(i) != 0xFF && i < datalen - 1 then NextMark(mem, datalen, i + 1) else i
  }

  lemma {:induction false} MarkAhead(mem: Memory, datalen: int, i: nat, j: nat)
    requires i <= j < datalen && mem(j) == 0xFF && forall q :: i <= q < j ==> mem(q) != 0xFF
    ensures NextMark(mem, datalen, i) == j
    decreases j - i
  {
    if i < j { MarkAhead(mem, datalen, i + 1, j); }
  }

  /** The longest code word length in use. */
  function Longest(bits: seq<nat>, l: nat): (m: nat)
    requires l < |bits|
    ensures m <= l && (m > 0 ==> bits[m] > 0) && forall k :: m < k <= l ==> bits[k] == 0
  {
    if l > 0 && bits[l] == 0 then Longest(bits, l - 1) else l
  }

  /** The table of a DHT segment at p. */
  function TableAt(mem: Memory, p: nat): Table
  {
    var bits := [0] + seq<nat>(16, i requires 0 <= i < 16 => mem(p + 3 + i));
    Table(bits, seq<nat>(|Lens(bits, 16)|, k requires 0 <= k < |Lens(bits, 16)| => mem(p + 19 + k)), Longest(bits, 16))
  }

  /** Where the prefetching reader stands in memory when k pixels have been decoded. */
  ghost function Reached(mem: Memory, start: nat, t: Table, pred: nat, w: nat, depth: nat, k: nat): nat
    requires TableOk(t) && w >= 1
  {
    RawPos(mem, start, Scan(mem, start, t, pred, w, depth, k).1.fetched)
  }

  lemma {:induction false} FillGrows(mem: Memory, start: nat, f: nat, p: nat, need: nat)
    ensures f <= Fill(mem, start, f, p, need)
    decreases p + need - 8 * f
  {
    if 8 * f < p + need {
      FillGrows(mem, start, f + if DataByte(mem, start, f) == 0xFF then 1 else 2, p, need);
    }
  }

  lemma {:induction false} ReachedGrows(mem: Memory, start: nat, t: Table, pred: nat, w: nat, depth: nat, j: nat,
                                        k: nat)
    requires TableOk(t) && w >= 1 && j <= k
    ensures Scan(mem, start, t, pred, w, depth, j).1.fetched <= Scan(mem, start, t, pred, w, depth, k).1.fetched
    ensures Reached(mem, start, t, pred, w, depth, j) <= Reached(mem, start, t, pred, w, depth, k)
    decreases k
  {
    hide TableOk, Predict, CodeAt;
    if j < k {
      ReachedGrows(mem, start, t, pred, w, depth, j, k - 1);
      var c := Scan(mem, start, t, pred, w, depth, k - 1).1;
      FetchedGrows(mem, start, t, c);
    }
    RawPosGrows(mem, start, Scan(mem, start, t, pred, w, depth, j).1.fetched,
                Scan(mem, start, t, pred, w, depth, k).1.fetched);
  }

  lemma {:induction false} FetchedGrows(mem: Memory, start: nat, t: Table, c: Cursor)
    requires TableOk(t)
    ensures c.fetched <= DiffAt(mem, start, t, c).1.fetched
  {
    hide TableOk, CodeAt;
    var k := CodeAt(mem, start, t, c.pos);
    FillGrows(mem, start, c.fetched, c.pos, t.m);
    CodeLength(t, k);
    FillGrows(mem, start, Fill(mem, start, c.fetched, c.pos, t.m), c.pos + Lengths(t)[k], t.vals[k]);
  }

  lemma {:induction false} ScanPrefix(mem: Memory, start: nat, t: Table, pred: nat, w: nat, depth: nat, j: nat,
                                      k: nat)
    requires TableOk(t) && w >= 1 && j <= k
    ensures Scan(mem, start, t, pred, w, depth, j).0 == Scan(mem, start, t, pred, w, depth, k).0[..j]
    decreases k
  {
    hide TableOk, Predict, DiffAt;
    if j < k { ScanPrefix(mem, start, t, pred, w, depth, j, k - 1); }
  }

  /** The buffer b holds the cnt bits from the cursor on, and ix is where the next data byte lies. */
  ghost predicate Buffered(mem: Memory, start: nat, c: Cursor, b: nat, cnt: nat, ix: nat)
  {
    && c.pos + cnt == 8 * c.fetched && b == ValueOf(Window(mem, start, c.pos, cnt))
    && ix == RawPos(mem, start, c.fetched)
  }

  /** One more data byte in the buffer. */
  lemma {:induction false} BufferByte(mem: Memory, start: nat, c: Cursor, b: nat, cnt: nat, ix: nat)
    requires Buffered(mem, start, c, b, cnt, ix)
    ensures Buffered(mem, start, c.(fetched := c.fetched + 1), b * 256 + mem(ix), cnt + 8,
                     ix + if mem(ix) == 0xFF then 2 else 1)
    ensures mem(ix) == DataByte(mem, start, c.fetched)
  {
    hide Window, BitsOf;
    var d := mem(ix);
    WindowSplit(mem, start, c.pos, cnt, 8);
    WindowByte(mem, start, c.fetched);
    ValueConcat(Window(mem, start, c.pos, cnt), BitsOf(d, 8));
    Pow2Small();
    ValueOfBits(d, 8);
    EightShifts(b);
    assert |BitsOf(d, 8)| == 8 by { WindowLength(mem, start, 8 * c.fetched, 8); }
  }

  lemma {:induction false} EightShifts(b: nat)
    ensures Shl(b, 8) == 256 * b
  {
    hide Shl;
    TwoShifts(b, 0);
    TwoShifts(b, 2);
    TwoShifts(b, 4);
    TwoShifts(b, 6);
    ShlNone(b);
  }

  lemma {:induction false} TwoShifts(b: nat, n: nat)
    ensures Shl(b, n + 2) == 4 * Shl(b, n)
  {
    assert Shl(b, n + 1) == 2 * Shl(b, n);
  }

  /** Taking n bits off the front of the buffer. */
  lemma {:induction false} TakeBits(mem: Memory, start: nat, c: Cursor, b: nat, cnt: nat, ix: nat, n: nat)
    requires Buffered(mem, start, c, b, cnt, ix) && n <= cnt
    ensures Shr(b, cnt - n) == ValueOf(Window(mem, start, c.pos, n))
    ensures Buffered(mem, start, c.(pos := c.pos + n), Trunc(b, cnt - n), cnt - n, ix)
  {
    hide Window, Shr, Trunc;
    WindowSplit(mem, start, c.pos, n, cnt - n);
    WindowLength(mem, start, c.pos + n, cnt - n);
    Cut(Window(mem, start, c.pos, n), Window(mem, start, c.pos + n, cnt - n));
  }

  lemma {:induction false} BufferBound(mem: Memory, start: nat, c: Cursor, b: nat, cnt: nat, ix: nat)
    requires Buffered(mem, start, c, b, cnt, ix)
    ensures b < Pow2(cnt)
  {
    WindowLength(mem, start, c.pos, cnt);
    ValueBound(Window(mem, start, c.pos, cnt));
  }

  /** The lookup table: at every number the value and the length of the code word it begins with. */
  ghost predicate LutOk(t: Table, lut: seq<nat>)
  {
    && TableOk(t) && |lut| == Pow2(t.m)
    && forall v :: 0 <= v < Pow2(t.m) ==> LutEntry(t, lut, v)
  }

  ghost predicate LutEntry(t: Table, lut: seq<nat>, v: nat)
    requires TableOk(t) && |lut| == Pow2(t.m) && v < Pow2(t.m)
  {
    lut[v] == Entry(t, v)
  }

  /** Value and length of the code word at the front of v, packed. */
  ghost function Entry(t: Table, v: nat): nat
    requires TableOk(t) && v < Pow2(t.m)
  {
    var k := CodeOf(Lengths(t), t.m, v, |Lengths(t)|);
    t.vals[k] * 256 + Lengths(t)[k]
  }

  /** The lookup of the next m bits finds the code word that comes next. */
  lemma {:induction false} LutFinds(mem: Memory, start: nat, t: Table, lut: seq<nat>, p: nat)
    requires LutOk(t, lut)
    ensures var v := ValueOf(Window(mem, start, p, t.m));
            var k := CodeAt(mem, start, t, p);
            v < |lut| && lut[v] % 256 == Lengths(t)[k] <= t.m && lut[v] / 256 == t.vals[k] <= 16
  {
    hide Complete, Lengths, Window, CodeOf;
    WindowLength(mem, start, p, t.m);
    ValueBound(Window(mem, start, p, t.m));
    var v := ValueOf(Window(mem, start, p, t.m));
    assert LutEntry(t, lut, v);
    TableDepth(t);
  }

  lemma {:induction false} TableDepth(t: Table)
    requires TableOk(t)
    ensures 1 <= t.m <= 16
  {
  }

  class Ljp {
    var data: Memory
    const datalen: int
    var ix: nat
    var x: nat
    var y: nat
    var bits: nat
    var scanstart: nat
    var writelen: nat
    var skiplen: nat
    var hufflut: array<nat>
    var huffbits: nat
    var cnt: nat
    var b: nat
    ghost var table: Table
    ghost var start: nat
    ghost var at: Cursor

    /** The bit reader is in order, with no more than 31 bits buffered. */
    ghost predicate Reading()
      reads `data, `start, `at, `b, `cnt, `ix, `table, `hufflut, `huffbits, hufflut
    {
      && LutOk(table, hufflut[..]) && huffbits == table.m
      && Buffered(data, start, at, b, cnt, ix) && cnt <= 31
    }

    /** The prefetching loop of nextdiff: 16 bits at a time, or 8 if the first byte is 0xFF. */
    method Refill(need: nat)
      requires Buffered(data, start, at, b, cnt, ix) && cnt <= 31 && need <= 16
      modifies this`b, this`cnt, this`ix, this`at
      ensures Buffered(data, start, at, b, cnt, ix) && need <= cnt <= 31
      ensures at == Cursor(old(at).pos, Fill(data, start, old(at).fetched, old(at).pos, need))
    {
      hide Buffered;
      CountBits(data, start, at, b, cnt, ix);
      while cnt < need
        invariant Buffered(data, start, at, b, cnt, ix) && cnt <= 31 && at.pos == old(at).pos
                  && at.pos + cnt == 8 * at.fetched
        invariant Fill(data, start, at.fetched, at.pos, need) == Fill(data, start, old(at).fetched, old(at).pos, need)
      {
        BufferByte(data, start, at, b, cnt, ix);
        BufferByte(data, start, at.(fetched := at.fetched + 1), b * 256 + data(ix), cnt + 8,
                   ix + if data(ix) == 0xFF then 2 else 1);
        var one: nat, two: nat := data(ix), data(ix + 1);
        at := at.(fetched := at.fetched + if one == 0xFF then 1 else 2);
        b := b * 0x1_0000 + one * 0x100 + two;
        cnt := cnt + 16;
        ix := ix + 2;
        if one == 0xFF {
          b := b / 0x100;
          cnt := cnt - 8;
        } else if two == 0xFF {
          ix := ix + 1;
        }
        CountBits(data, start, at, b, cnt, ix);
      }
    }

    /** The first half of nextdiff: the code word at the front of the buffer is looked up and removed. */
    method Lookup() returns (t: nat)
      requires Reading()
      modifies this`b, this`cnt, this`ix, this`at
      ensures Reading() && t <= 16
      ensures var k := CodeAt(data, start, table, old(at).pos);
              k < |Lengths(table)| && k < |table.vals| && t == table.vals[k]
              && at == Cursor(old(at).pos + Lengths(table)[k], Fill(data, start, old(at).fetched, old(at).pos, table.m))
    {
      hide Buffered, Fill, LutOk, Window, TableOk, Shr, Trunc, Lengths;
      LutTable(table, hufflut[..]);
      TableDepth(table);
      LutFinds(data, start, table, hufflut[..], at.pos);
      Refill(huffbits);
      TakeBits(data, start, at, b, cnt, ix, huffbits);
      var index := Shr(b, cnt - huffbits);
      var ssssused := hufflut[index];
      assert ssssused == hufflut[..][index];
      var usedbits := ssssused % 256;
      t := ssssused / 256;
      TakeBits(data, start, at, b, cnt, ix, usedbits);
      cnt := cnt - usedbits;
      b := Trunc(b, cnt);
      at := at.(pos := at.pos + usedbits);
    }

    /** The second half: t more bits, extended to a residual. */
    method Receive(t: nat) returns (diff: int)
      requires Reading() && t <= 16
      modifies this`b, this`cnt, this`ix, this`at
      ensures Reading()
      ensures diff == Extend(ValueOf(Window(data, start, old(at).pos, t)), t)
      ensures at == Cursor(old(at).pos + t, Fill(data, start, old(at).fetched, old(at).pos, t))
    {
      hide Buffered, Fill, LutOk, Window, Shr, Trunc, ValueOf;
      Refill(t);
      TakeBits(data, start, at, b, cnt, ix, t);
      cnt := cnt - t;
      diff := Shr(b, cnt);
      // 1 << (t - 1) is undefined for t == 0, but diff is 0 then and stays 0 on either branch.
      var vt := Middle(t);
      if diff < vt {
        diff := diff + (1 - Pow2(t));
      }
      b := Trunc(b, cnt);
      at := at.(pos := at.pos + t);
    }

    /** nextdiff: the lookup and the shifts deliver exactly the residual of the reference procedures. */
    method NextDiff() returns (diff: int)
      requires Reading()
      modifies this`b, this`cnt, this`ix, this`at
      ensures Reading()
      ensures (diff, at) == DiffAt(data, start, table, old(at))
    {
      hide Buffered, Fill, Window, Complete, Extend, CodeAt, Lengths;
      LutTable(table, hufflut[..]);
      var t := Lookup();
      diff := Receive(t);
    }

    // -------------------------------------------------------------- pixels

    var image: array<int>
    var thisrow: array<int>
    var lastrow: array<int>
    var c: nat
    var col: nat
    var out: nat
    var write: int
    var left: int
    ghost var pred: nat
    ghost var line: nat

    /** The number of pixels. */
    ghost function Size(): nat
      reads `x, `y
    {
      x * y
    }

    /** The scan as the reference procedures read it. */
    ghost function Pixels(k: nat): (r: seq<int>)
      requires TableOk(table) && x >= 1
      reads `data, `start, `table, `pred, `x, `bits
      ensures |r| == k
    {
      Scan(data, start, table, pred, x, bits, k).0
    }

    /** c pixels have been decoded; they are in the image and in the row buffers. */
    ghost predicate Decoding()
      reads `data, `start, `at, `b, `cnt, `ix, `table, `hufflut, `huffbits, `x, `y, `bits, `pred, `c, `col, `left
      reads `image, `thisrow, `lastrow, `line, `skiplen, hufflut, image, thisrow, lastrow
    {
      && Reading() && TableOk(table) && x >= 1 && c <= Size()
      && image != thisrow && image != lastrow && thisrow != lastrow
      && at == Scan(data, start, table, pred, x, bits, c).1
      && InRow(c, col, x) && (c > 0 ==> left == Pixels(Size())[c - 1])
      && Rows(Cut16(Pixels(Size())), c, x, col, lastrow[..], thisrow[..])
      && InImage(image[..], Pixels(Size()), line, skiplen, c)
      && HasRoom(image.Length, Size(), line, skiplen)
    }

    /** The next pixel goes to its place in the image. */
    ghost predicate Settled()
      reads `out, `c, `line, `skiplen, `write, `writelen
    {
      out + c == Spot(c, line, skiplen) && write == LineLeft(c, line, writelen)
    }

    /** A pixel has just been written, and the line counter has not been moved yet. */
    ghost predicate Unsettled()
      reads `out, `c, `line, `skiplen, `write, `writelen
    {
      c >= 1 && out + c == Spot(c - 1, line, skiplen) + 1 && write == LineLeft(c - 1, line, writelen)
    }

    /** The value of the next pixel, from its prediction and the next residual. */
    method NextValue(predicted: int)
      requires Reading() && TableOk(table) && x >= 1 && c < Size()
      requires at == Scan(data, start, table, pred, x, bits, c).1
      requires predicted == Predict(pred, Pixels(Size()), x, bits, c)
      modifies this`b, this`cnt, this`ix, this`at, this`left
      ensures Reading() && left == Pixels(Size())[c]
      ensures at == Scan(data, start, table, pred, x, bits, c + 1).1
      ensures ix == Reached(data, start, table, pred, x, bits, c + 1)
    {
      hide Reading, Predict, Scan, TableOk, DiffAt;
      ScanNext(data, start, table, pred, x, bits, c, Size());
      var diff := NextDiff();
      left := predicted + diff;
      ReadingPlace();
    }

    /** Decodes one pixel from its prediction. */
    method PutPixel(predicted: int)
      requires Decoding() && Settled() && col < x && c < Size()
      requires predicted == Predict(pred, Pixels(Size()), x, bits, c)
      modifies this`b, this`cnt, this`ix, this`at, this`c, this`col, this`left, image, thisrow
      ensures Decoding() && Unsettled() && c == old(c) + 1 && col == old(col) + 1
      ensures ix == Reached(data, start, table, pred, x, bits, c)
    {
      hide Reading, Predict, Rows, InImage, HasRoom, Cut16, Scan, Spot, TableOk, U16, Reached, InRow;
      NextValue(predicted);
      ghost var px := Pixels(Size());
      ghost var row0, image0 := thisrow[..], image[..];
      Cut16At(px, c);
      RowsLength(Cut16(px), c, x, col, lastrow[..], row0);
      RowsWrite(Cut16(px), c, x, col, lastrow[..], row0, U16(left));
      RowsStep(Cut16(px), c, x, col, lastrow[..], row0[col := U16(left)]);
      assert Spot(c, line, skiplen) < image.Length by { RoomFor(c); }
      InImageNext(image0, px, line, skiplen, c, U16(left));
      InRowNext(c, col, x);
      Store(U16(left));
      col := col + 1;
      c := c + 1;
    }

    /** The value goes into the row buffer and to its place in the image. */
    method Store(value: int)
      requires image != thisrow && col < thisrow.Length && 0 <= out + c < image.Length
      modifies image, thisrow
      ensures thisrow[..] == old(thisrow[..])[col := value] && image[..] == old(image[..])[out + c := value]
    {
      thisrow[col] := value;
      image[out + c] := value;
    }

    lemma {:induction false} RoomFor(k: nat)
      requires HasRoom(image.Length, Size(), line, skiplen) && k < Size()
      ensures Spot(k, line, skiplen) < image.Length
    {
    }

    lemma {:induction false} ReadingPlace()
      requires Reading()
      ensures ix == RawPos(data, start, at.fetched)
    {
      hide Window;
    }

    /** --write, and a gap in the image at the end of a line. */
    method EndOfLine()
      requires Unsettled() && (line == 0 || line == writelen) && (line == 0 ==> writelen < c)
      modifies this`out, this`write
      ensures Settled()
    {
      LineNext(c - 1, line, writelen);
      write := write - 1;
      if write == 0 {
        out := out + skiplen;
        write := writelen;
      }
    }

    /** The finished row becomes the row above. */
    method NextRow()
      requires Decoding() && col == x
      modifies this`thisrow, this`lastrow, this`col
      ensures Decoding() && col == 0 && {thisrow, lastrow} == old({thisrow, lastrow})
    {
      hide Reading, Rows, InImage, HasRoom, Cut16, Scan, Spot, TableOk;
      RowsSwap(Cut16(Pixels(Size())), c, x, lastrow[..], thisrow[..]);
      RowDone(c, x);
      thisrow, lastrow := lastrow, thisrow;
      col := 0;
    }

    /** The prediction of the next pixel, from the row buffers and the pixel to the left. */
    lemma {:induction false} PredictHere()
      requires Decoding() && col < x && c < Size()
      ensures lastrow.Length == x && (c < x ==> c == col)
      ensures Predict(pred, Pixels(Size()), x, bits, c)
              == if c == 0 then Middle(bits)
                 else if c < x then left
                 else if col == 0 then lastrow[0]
                 else Select(pred, left, lastrow[col], lastrow[col - 1])
    {
      hide Reading, InImage, HasRoom, Scan, Spot, TableOk, Select;
      var px := Pixels(Size());
      PredictRows(pred, px, x, bits, c, col, lastrow[..], thisrow[..]);
    }

    /** A handle that lj92_open has returned, and a target with room for every pixel. */
    ghost predicate Open()
      reads `table, `hufflut, `huffbits, `x, `y, `thisrow, `lastrow, hufflut
    {
      && LutOk(table, hufflut[..]) && huffbits == table.m && 1 <= x < 0x1_0000 && 1 <= y < 0x1_0000
      && thisrow != lastrow && thisrow.Length == x && lastrow.Length == x
    }

    /** The scan data begins after the scan header. */
    ghost function ScanData(): nat
      reads `data, `scanstart
    {
      scanstart + Word16(data, scanstart)
    }

    /** An empty bit buffer behind the scan header. */
    method StartReader()
      requires LutOk(table, hufflut[..]) && huffbits == table.m
      modifies `ix, `cnt, `b, `start, `at
      ensures Reading() && start == ScanData() && at == Cursor(0, 0)
    {
      hide LutOk, Word16, Buffered;
      ix := scanstart;
      ix := ix + Word16(data, ix);
      cnt, b := 0, 0;
      start, at := ix, Cursor(0, 0);
      EmptyBuffer(data, start);
    }

    /** The first pixel of the image is the next one to be written. */
    method StartPixels(ghost predictor: nat, ghost length: nat)
      requires length == writelen || length == 0
      modifies `write, `c, `col, `out, `left, `pred, `line
      ensures Settled() && c == 0 && col == 0 && pred == predictor && line == length
    {
      hide LineLeft, Spot;
      write := writelen;
      c, col, out, left := 0, 0, 0, 0;
      pred, line := predictor, length;
      FullLine(length, skiplen, writelen);
    }

    method StartScan(ghost predictor: nat, ghost length: nat)
      requires Open() && image != thisrow && image != lastrow
      requires HasRoom(image.Length, Size(), length, skiplen)
      requires length == writelen || (length == 0 && writelen <= 1)
      modifies `ix, `cnt, `b, `write, `c, `col, `out, `left, `start, `at, `pred, `line
      ensures Decoding() && Settled() && c == 0 && col == 0 && pred == predictor && line == length
              && start == ScanData()
    {
      hide Open, LutOk, TableOk, HasRoom, LineLeft, Spot, Size, Reading, ScanData, Decoding;
      OpenTable();
      StartPixels(predictor, length);
      StartReader();
      Begun();
    }

    lemma {:induction false} OpenTable()
      requires Open()
      ensures LutOk(table, hufflut[..]) && huffbits == table.m
    {
    }

    lemma {:induction false} Begun()
      requires Open() && Reading() && c == 0 && col == 0 && at == Cursor(0, 0)
      requires image != thisrow && image != lastrow
      requires HasRoom(image.Length, Size(), line, skiplen)
      ensures Decoding()
    {
      hide TableOk, HasRoom, Scan, InImage, Rows, Cut16, Reading, InRow, Size;
      LutTable(table, hufflut[..]);
      NothingScanned(data, start, table, pred, x, bits, Size(), lastrow[..], thisrow[..], image[..], line, skiplen);
    }

    /** The pixels whose guard decides whether parsePred6 reports success. */
    ghost function Guarded6(): nat
      reads `x, `y
    {
      if Size() < SIGN then Guard(x, y) else x
    }

    /** The pixels a scan writes if it succeeds: all of them, unless their number as an int is negative. */
    ghost function Goal(predictor: nat): nat
      reads `x, `y
    {
      if Size() < SIGN then Size() else if predictor == 6 then x else 0
    }

    /** Outcome of a scan: the first c pixels are in place, and all of them if it succeeded. */
    ghost predicate Scanned(ret: Status, predictor: nat, length: nat)
      reads this, image
    {
      && TableOk(table) && x >= 1 && pred == predictor && line == length && start == ScanData()
      && c <= Size() && (pred == 6 ==> c >= 1) && (ret == OK ==> c == Goal(pred))
      && InImage(image[..], Pixels(Size()), line, skiplen, c)
    }

    lemma {:induction false} GuardFails(k: nat)
      requires TableOk(table) && x >= 1 && k <= Guarded6()
      requires datalen <= Reached(data, start, table, pred, x, bits, k)
      ensures datalen <= Reached(data, start, table, pred, x, bits, Guarded6())
    {
      hide TableOk, Scan, Reached;
      ReachedGrows(data, start, table, pred, x, bits, k, Guarded6());
    }

    lemma {:induction false} DecodingScanned()
      requires Decoding()
      ensures TableOk(table) && x >= 1 && c <= Size() && InImage(image[..], Pixels(Size()), line, skiplen, c)
    {
      hide TableOk, Reading, InImage, Scan;
    }

    /** The first pixel is counted without looking for the end of a line. */
    lemma {:induction false} FirstOfLine()
      requires Unsettled() && c == 1 && line != 1
      ensures out + c == Spot(c, line, skiplen) && write - 1 == LineLeft(c, line, writelen)
    {
      if line > 0 {
        QuotientOf(0, line, 0, 0);
        QuotientOf(1, line, 0, 1);
      }
    }

    /** The other pixels of a row below the first. */
    method RestOfRow6()
      requires Decoding() && Settled() && pred == 6 && line != 1 && (line == 0 ==> writelen <= 1)
               && (line > 0 ==> line == writelen)
      requires x < c && col == 1 && c + (x - 1) <= Size() && ix == Reached(data, start, table, pred, x, bits, c)
      modifies `b, `cnt, `ix, `at, `c, `col, `left, `out, `write, image, thisrow
      ensures Decoding() && Settled() && c == old(c) + (x - 1) && col == x
      ensures ix == Reached(data, start, table, pred, x, bits, c)
    {
      hide Reading, Predict, Rows, InImage, HasRoom, Cut16, Scan, Spot, TableOk, U16, Reached, InRow;
      var rowcount := x - 1;
      while rowcount > 0
        invariant rowcount >= 0 && Decoding() && Settled() && c == old(c) + (x - 1) - rowcount && col + rowcount == x
                  && 1 <= col
        invariant ix == Reached(data, start, table, pred, x, bits, c)
      {
        PredictHere();
        var predicted := lastrow[col] + (left - lastrow[col - 1]) / 2;
        PutPixel(predicted);
        EndOfLine();
        rowcount := rowcount - 1;
      }
    }

    /** The other pixels of the first row, each followed by a guard. */
    method RestOfFirstRow() returns (ok: bool)
      requires Decoding() && Settled() && line != 1 && (line == 0 ==> writelen <= 1) && (line > 0 ==> line == writelen)
      requires c == 1 && col == 1 && x <= Size() && Reached(data, start, table, pred, x, bits, c) < datalen
      modifies `b, `cnt, `ix, `at, `c, `col, `left, `out, `write, image, thisrow
      ensures Decoding() && 1 <= c == col <= x && ix == Reached(data, start, table, pred, x, bits, c)
      ensures if ok then Settled() && col == x && ix < datalen else datalen <= ix
    {
      hide Reading, Predict, Rows, InImage, HasRoom, Cut16, Scan, Spot, TableOk, U16;
      ReadingPlaceAt();
      var rowcount := x - 1;
      while rowcount > 0
        invariant rowcount >= 0 && Decoding() && Settled() && c == col && col + rowcount == x && 1 <= col
        invariant ix == Reached(data, start, table, pred, x, bits, c) < datalen
      {
        PredictHere();
        PutPixel(left);
        if ix >= datalen { return false; }
        EndOfLine();
        rowcount := rowcount - 1;
      }
      return true;
    }

    lemma {:induction false} ReadingPlaceAt()
      requires Decoding()
      ensures TableOk(table) && x >= 1 && ix == Reached(data, start, table, pred, x, bits, c)
    {
      hide Reading, Rows, InImage, HasRoom, Scan, TableOk;
      ReadingPlace();
    }

    /** The first row of parsePred6. */
    method FirstRow6() returns (ok: bool)
      requires Decoding() && Settled() && pred == 6 && c == 0 && col == 0 && x <= Size()
      requires line != 1 && (line == 0 ==> writelen <= 1) && (line > 0 ==> line == writelen)
      modifies `b, `cnt, `ix, `at, `c, `col, `left, `out, `write, `thisrow, `lastrow, image, thisrow, lastrow
      ensures Decoding() && {thisrow, lastrow} == old({thisrow, lastrow})
      ensures TableOk(table) && x >= 1 && ix == Reached(data, start, table, pred, x, bits, c) && 1 <= c <= x
      ensures if ok then Settled() && col == 0 && c == x && ix < datalen else datalen <= ix
    {
      hide Decoding, Reading, Reached, InImage, HasRoom, Predict, Scan, Spot, Settled, Unsettled, TableOk, Size,
          LineLeft;
      DecodingScanned();
      PredictHere();
      PutPixel(Middle(bits));
      DecodingScanned();
      if ix >= datalen { return false; }
      FirstOfLine();
      write := write - 1;
      SettledNow();
      ok := RestOfFirstRow();
      DecodingScanned();
      if ok { NextRow(); }
    }

    /** One more row of parsePred6; the result tells whether both of its guards let the scan go on. */
    method NextRow6() returns (inside: bool)
      requires Decoding() && Settled() && pred == 6 && col == 0 && x <= c && c + x <= Size()
      requires line != 1 && (line == 0 ==> writelen <= 1) && (line > 0 ==> line == writelen)
      modifies `b, `cnt, `ix, `at, `c, `col, `left, `out, `write, `thisrow, `lastrow, image, thisrow, lastrow
      ensures Decoding() && {thisrow, lastrow} == old({thisrow, lastrow})
      ensures TableOk(table) && x >= 1 && ix == Reached(data, start, table, pred, x, bits, c)
      ensures inside ==> Settled() && col == 0 && c == old(c) + x && ix < datalen
      ensures !inside ==> datalen <= ix && (c == old(c) + 1 || c == old(c) + x)
      ensures inside || (c == old(c) + x && x != 1) ==> Reached(data, start, table, pred, x, bits, old(c) + 1) < datalen
    {
      hide Decoding, Reading, Reached, InImage, HasRoom, Predict, Scan, Spot, Settled, Unsettled, TableOk, Size,
          LineLeft;
      DecodingScanned();
      PredictHere();
      PutPixel(lastrow[0]);
      DecodingScanned();
      if ix >= datalen { return false; }
      EndOfLine();
      RestOfRow6();
      NextRow();
      DecodingScanned();
      inside := ix < datalen;
    }

    /** Where row r begins, and which pixels its guards come after. */
    lemma {:induction false} RowPlace(r: nat)
      requires x >= 1 && 1 <= r <= y
      ensures RowStart(1, x) == x && RowStart(r + 1, x) == RowStart(r, x) + x && RowStart(r, x) >= x
      ensures RowStart(r, x) <= Size() && (r == y <==> RowStart(r, x) >= Size())
      ensures r < y ==> RowStart(r, x) + x <= Size() && RowStart(r, x) <= Guard(x, y)
      ensures r + 1 < y ==> RowStart(r, x) + x <= Guard(x, y) && RowStart(r, x) + 1 <= Guard(x, y)
      ensures r + 1 < y ==> RowStart(r, x) + x < Size()
      ensures r + 1 == y ==> RowStart(r, x) + x == Size()
      ensures r + 1 == y ==> Guard(x, y) == if x == 1 then RowStart(r, x) else RowStart(r, x) + 1
      ensures y == 1 ==> Guard(x, y) == x
    {
      Area(x, y, r);
      Area(x, y, r + 1);
      Area(x, y, 1);
      if r + 1 < y { ScaleLe(x, r + 1, y - 1); ScaleLe(x, 1, r); }
      if r + 1 == y { ScaleLe(x, 1, r); }
      ScaleLe(x, 1, r);
    }

    /** The rows of parsePred6, with its guards. */
    method Rows6() returns (ret: Status)
      requires Decoding() && Settled() && pred == 6 && 1 <= y < 0x1_0000 && x < 0x1_0000 && c == 0 && col == 0
      requires line != 1 && (line == 0 ==> writelen <= 1) && (line > 0 ==> line == writelen)
      modifies `b, `cnt, `ix, `at, `c, `col, `left, `out, `write, `thisrow, `lastrow, image, thisrow, lastrow
      ensures TableOk(table) && 1 <= c <= Size() && InImage(image[..], Pixels(Size()), line, skiplen, c)
      ensures {thisrow, lastrow} == old({thisrow, lastrow})
      ensures ret == OK ==> c == Goal(6)
      ensures ret == OK <==> Reached(data, start, table, pred, x, bits, Guarded6()) < datalen
    {
      hide Decoding, Reading, Reached, InImage, HasRoom, Predict, Scan, Spot, Settled, Unsettled, TableOk, RowStart;
      hide Size, Guarded6;
      ret := CORRUPT;
      DecodingScanned();
      var pixels := Int32(y * x);
      PixelCount(pixels);
      RowPlace(1);
      var ok := FirstRow6();
      DecodingScanned();
      if !ok {
        FirstRowGuard();
        GuardFails(c);
        return;
      }
      ret := OtherRows6(pixels);
    }

    /** The rows below the first. */
    method OtherRows6(pixels: int) returns (ret: Status)
      requires Decoding() && Settled() && pred == 6 && 1 <= y < 0x1_0000 && col == 0 && c == x
      requires TableOk(table) && 1 <= x < 0x1_0000
      requires line != 1 && (line == 0 ==> writelen <= 1) && (line > 0 ==> line == writelen)
      requires ix == Reached(data, start, table, pred, x, bits, c) < datalen && pixels == Int32(y * x)
      modifies `b, `cnt, `ix, `at, `c, `col, `left, `out, `write, `thisrow, `lastrow, image, thisrow, lastrow
      ensures TableOk(table) && 1 <= c <= Size() && InImage(image[..], Pixels(Size()), line, skiplen, c)
      ensures {thisrow, lastrow} == old({thisrow, lastrow})
      ensures ret == OK ==> c == Goal(6)
      ensures ret == OK <==> Reached(data, start, table, pred, x, bits, Guarded6()) < datalen
    {
      hide Decoding, Reading, Reached, InImage, HasRoom, Predict, Scan, Spot, Settled, Unsettled, TableOk, RowStart;
      hide Size, Guarded6;
      ret := CORRUPT;
      PixelCount(pixels);
      RowPlace(1);
      ghost var r := 1;
      var inside := true;
      while c < pixels && inside
        invariant Decoding() && {thisrow, lastrow} == old({thisrow, lastrow}) && 1 <= r <= y
        invariant TableOk(table) && ix == Reached(data, start, table, pred, x, bits, c)
        invariant inside ==> Settled() && col == 0 && c == RowStart(r, x) && ix < datalen
        invariant c >= 1 && (pixels < 0 ==> inside && c == x)
        invariant inside && r == y ==> Reached(data, start, table, pred, x, bits, Guarded6()) < datalen
        invariant !inside ==> datalen <= ix && c <= Size()
                              && (c == Size() ==> Reached(data, start, table, pred, x, bits, Guarded6()) < datalen)
                              && (c < Size() ==> c <= Guarded6())
        decreases y - r, inside
      {
        RowPlace(r);
        inside := NextRow6();
        if inside {
          r := r + 1;
          RowPlace(r);
        }
      }
      DecodingScanned();
      RowPlace(r);
      if c >= pixels { ret := OK; } else { GuardFails(c); }
    }

    lemma {:induction false} PixelCount(n: int)
      requires n == Int32(y * x) && x < 0x1_0000 && y < 0x1_0000
      ensures if Size() < SIGN then n == Size() && Guarded6() == Guard(x, y) else n < 0 && Guarded6() == x
      ensures Size() < SIGN ==> Goal(pred) == Size()
      ensures Size() >= SIGN ==> Goal(pred) == if pred == 6 then x else 0
    {
      Swapped(x, y);
      if x >= 1 { ScaleLe(x, y, 0xFFFF); }
    }

    lemma {:induction false} FirstRowGuard()
      requires x >= 1 && y >= 1 && c <= x
      ensures c <= Guarded6()
    {
      Area(x, y, 1);
      if y >= 2 { ScaleLe(x, 1, y - 1); }
    }

    lemma {:induction false} SettledNow()
      requires out + c == Spot(c, line, skiplen) && write == LineLeft(c, line, writelen)
      ensures Settled()
    {
    }

    /**
     * parsePred6. Every pixel written is the pixel the reference procedures define; and the call succeeds
     * exactly when the prefetching reader is still inside the data at the deciding guard.
     */
    method ParsePred6() returns (ret: Status)
      requires Open() && image != thisrow && image != lastrow
      requires HasRoom(image.Length, Size(), if writelen >= 2 then writelen else 0, skiplen)
      modifies `start, `pred, `line
      modifies `b, `cnt, `ix, `at, `c, `col, `left, `out, `write, `thisrow, `lastrow, image, thisrow, lastrow
      ensures Scanned(ret, 6, if writelen >= 2 then writelen else 0) && {thisrow, lastrow} == old({thisrow, lastrow})
      ensures ret == OK <==> Reached(data, start, table, 6, x, bits, Guarded6()) < datalen
    {
      hide Decoding, Reading, Reached, InImage, HasRoom, Predict, Scan, Spot, Settled, Unsettled, TableOk;
      StartScan(6, if writelen >= 2 then writelen else 0);
      ret := Rows6();
    }

    /** The switch of parseScan. */
    method Prediction(predictor: nat, row: nat) returns (predicted: int)
      requires Decoding() && pred == predictor && col < x && c < Size() && (row == 0 <==> c < x)
      ensures TableOk(table) && x >= 1 && predicted == Predict(pred, Pixels(Size()), x, bits, c)
    {
      hide Decoding, Reading, InImage, HasRoom, Predict, Scan, TableOk, Size, Select, Middle;
      DecodingScanned();
      PredictHere();
      if col == 0 && row == 0 {
        predicted := Middle(bits);
      } else if row == 0 {
        predicted := left;
      } else if col == 0 {
        predicted := lastrow[col];
      } else {
        predicted := Select(predictor, left, lastrow[col], lastrow[col - 1]);
      }
    }

    /** One pixel of parseScan. */
    method GeneralPixel(predictor: nat, row: nat) returns (row': nat)
      requires Decoding() && Settled() && pred == predictor && line == writelen && col < x && c < Size()
               && (row == 0 <==> c < x)
      modifies `b, `cnt, `ix, `at, `c, `col, `left, `out, `write, `thisrow, `lastrow, image, thisrow
      ensures Decoding() && Settled() && {thisrow, lastrow} == old({thisrow, lastrow})
      ensures c == old(c) + 1 && col < x && (row' == 0 <==> c < x)
      ensures TableOk(table) && x >= 1 && ix == Reached(data, start, table, pred, x, bits, c)
    {
      hide Decoding, Reading, InImage, HasRoom, Predict, Scan, Spot, Settled, Unsettled, TableOk, Size, LineLeft,
          Reached;
      RowCounted();
      var predicted := Prediction(predictor, row);
      PutPixel(predicted);
      DecodingScanned();
      RowCounted();
      row' := row;
      if col == x {
        NextRow();
        row' := row + 1;
      }
      EndOfLine();
    }

    /** The loop of parseScan with a given predictor of its switch. */
    method ParseGeneral(predictor: nat) returns (ret: Status)
      requires predictor != 6 && Open() && image != thisrow && image != lastrow
      requires HasRoom(image.Length, Size(), writelen, skiplen)
      modifies `start, `pred, `line
      modifies `b, `cnt, `ix, `at, `c, `col, `left, `out, `write, `thisrow, `lastrow, image, thisrow, lastrow
      ensures Scanned(ret, predictor, writelen) && {thisrow, lastrow} == old({thisrow, lastrow})
      ensures ret == OK <==> || Size() <= 1 || Size() >= SIGN
                             || Reached(data, start, table, predictor, x, bits, Size() - 1) < datalen + 2
    {
      hide Decoding, Reading, InImage, HasRoom, Predict, Scan, Spot, Settled, Unsettled, TableOk, Size, Reached,
          ScanData, Goal;
      StartScan(predictor, writelen);
      DecodingScanned();
      ret := GeneralLoop(predictor, Int32(y * x));
      DecodingScanned();
    }

    method GeneralLoop(predictor: nat, pixels: int) returns (ret: Status)
      requires TableOk(table) && 1 <= x < 0x1_0000 && y < 0x1_0000 && pixels == Int32(y * x)
      requires Decoding() && Settled() && c == 0 && col == 0 && pred == predictor != 6 && line == writelen
      modifies `b, `cnt, `ix, `at, `c, `col, `left, `out, `write, `thisrow, `lastrow, image, thisrow, lastrow
      ensures Decoding() && {thisrow, lastrow} == old({thisrow, lastrow})
      ensures ret == OK ==> c == Goal(predictor)
      ensures ret == OK <==> || Size() <= 1 || Size() >= SIGN
                             || Reached(data, start, table, predictor, x, bits, Size() - 1) < datalen + 2
    {
      hide Decoding, Reading, InImage, HasRoom, Predict, Scan, Spot, Settled, Unsettled, TableOk, Size, Reached, Goal,
          Int32;
      ret := CORRUPT;
      PixelCount(pixels);
      var row := 0;
      DecodingScanned();
      while c < pixels
        invariant Decoding() && Settled() && {thisrow, lastrow} == old({thisrow, lastrow}) && col < x
        invariant (row == 0 <==> c < x) && (c <= pixels || c == 0)
        invariant c > 0 ==> Reached(data, start, table, pred, x, bits, c) < datalen + 2
        invariant c > 1 ==> Reached(data, start, table, pred, x, bits, c - 1) < datalen + 2
      {
        row := GeneralPixel(predictor, row);
        if ix >= datalen + 2 { break; }
      }
      DecodingScanned();
      if c >= pixels {
        ret := OK;
      } else {
        LaterReached(c, Size() - 1);
      }
    }

    lemma {:induction false} RowCounted()
      requires Decoding()
      ensures c < x ==> c == col
      ensures c == x ==> col == x || col == 0
    {
      hide Reading, Rows, InImage, HasRoom, Scan, TableOk;
    }

    lemma {:induction false} LaterReached(j: nat, k: nat)
      requires TableOk(table) && x >= 1 && j <= k
      ensures Reached(data, start, table, pred, x, bits, j) <= Reached(data, start, table, pred, x, bits, k)
    {
      hide TableOk, Scan, Reached;
      ReachedGrows(data, start, table, pred, x, bits, j, k);
    }

    // -------------------------------------------------------------- segments

    /** find: the byte behind the next 0xFF, or -1 if the data ends. */
    method Find() returns (marker: int)
      modifies `ix
      ensures var p := NextMark(data, datalen, old(ix));
              if p + 2 < datalen then marker == data(p + 1) && ix == p + 2 else marker == -1 && ix == old(ix)
    {
      var i := ix;
      while data(i) != 0xFF && i < datalen - 1
        invariant ix <= i && NextMark(data, datalen, i) == NextMark(data, datalen, ix)
        decreases datalen - i
      {
        i := i + 1;
      }
      i := i + 2;
      if i >= datalen { return -1; }
      ix := i;
      return data(ix - 1);
    }

    /** The position of the highest nonzero count. */
    method HighestBits(counts: seq<nat>) returns (maxbits: nat)
      requires |counts| == LONGEST + 1
      ensures maxbits == Longest(counts, LONGEST)
    {
      maxbits := 16;
      while maxbits > 0
        invariant maxbits <= LONGEST && Longest(counts, maxbits) == Longest(counts, LONGEST)
      {
        if counts[maxbits] != 0 { break; }
        maxbits := maxbits - 1;
      }
    }

    /**
     * parseHuff. The first byte of the counts is overwritten with zero; a complete table fills the lookup
     * table. The position is not moved past the segment.
     */
    method ParseHuff() returns (ret: Status)
      modifies `data, `hufflut, `huffbits, `table
      ensures forall p :: data(p) == if p == ix + 2 then 0 else old(data)(p)
      ensures old(data(ix + 2)) == 0 ==> data == old(data)
      ensures ret == OK <==> ix + Word16(data, ix) < datalen
      ensures ret == OK ==> table == TableAt(data, ix) && huffbits == table.m && fresh(hufflut)
                            && (TableOk(table) ==> LutOk(table, hufflut[..]))
    {
      hide Longest, TableAt;
      ret := CORRUPT;
      ClearByte(ix + 2);
      var hufflen := Word16(data, ix);
      if ix + hufflen >= datalen { return; }
      table := TableAt(data, ix);
      var counts := CountsAt(ix);
      var maxbits := HighestBits(counts);
      TableAtParts(data, ix, counts);
      huffbits := maxbits;
      hufflut := new nat[Pow2(maxbits)](_ => 0);
      FillLut(counts, maxbits, ix + 19);
      ret := OK;
    }

    /** Stores a zero; over a zero that changes nothing. */
    method ClearByte(q: nat)
      modifies `data
      ensures forall p :: data(p) == if p == q then 0 else old(data)(p)
      ensures old(data(q)) == 0 ==> data == old(data)
    {
      var mem := data;
      if mem(q) != 0 {
        data := (p: nat) => if p == q then 0 else mem(p);
      }
    }

    method CountsAt(p: nat) returns (counts: seq<nat>)
      ensures |counts| == LONGEST + 1 && counts[0] == 0 && forall l :: 1 <= l <= 16 ==> counts[l] == data(p + 2 + l)
    {
      counts := [0];
      for l := 1 to 17
        invariant |counts| == l && counts[0] == 0 && forall k :: 1 <= k < l ==> counts[k] == data(p + 2 + k)
      {
        counts := counts + [data(p + 2 + l)];
      }
    }

    /** The loop of parseHuff that fills the lookup table. */
    method FillLut(counts: seq<nat>, maxbits: nat, huffvals: nat)
      requires |counts| == LONGEST + 1 && maxbits <= LONGEST && hufflut.Length == Pow2(maxbits)
      requires table.bits == counts && table.m == maxbits
      requires forall k :: 0 <= k < |table.vals| ==> table.vals[k] == data(huffvals + k)
      modifies hufflut
      ensures TableOk(table) ==> LutOk(table, hufflut[..])
    {
      hide TableOk, Entry, Lens, Start, Pow2, Lengths;
      var i, hv, rv, vl, bitsused := 0, 0, 0, 0, 1;
      if TableOk(table) { LutStart(table); }
      PowPositive(maxbits);
      while i < Pow2(maxbits)
        invariant i <= Pow2(maxbits) && 1 <= bitsused <= maxbits + 1 && vl <= CountAt(counts, bitsused)
        invariant rv <= Span(maxbits, bitsused) && (vl >= CountAt(counts, bitsused) ==> rv == 0)
        invariant TableOk(table) ==> InTable(table, bitsused, vl, hv, i, rv)
        invariant TableOk(table) ==> forall v :: 0 <= v < i ==> v < Pow2(table.m) && hufflut[v] == Entry(table, v)
        decreases maxbits + 1 - bitsused, CountAt(counts, bitsused) - vl, Span(maxbits, bitsused) - rv
      {
        if bitsused > maxbits {
          if TableOk(table) { LutComplete(table, bitsused, vl, hv, i, rv); }
          break;
        }
        if vl >= counts[bitsused] {
          if TableOk(table) { LengthFinished(table, bitsused, vl, hv, i); }
          bitsused := bitsused + 1;
          vl := 0;
          continue;
        }
        if rv == Pow2(maxbits - bitsused) {
          if TableOk(table) { WordFinished(table, bitsused, vl, hv, i, rv); }
          rv := 0;
          vl := vl + 1;
          hv := hv + 1;
          continue;
        }
        if TableOk(table) { EntryHere(table, bitsused, vl, hv, i, rv); }
        var hcode: nat := data(huffvals + hv);
        hufflut[i] := hcode * 256 + bitsused;
        i := i + 1;
        rv := rv + 1;
      }
      if TableOk(table) { LutDone(table, hufflut[..]); }
    }

    /** parseSof3. */
    method ParseSof3() returns (ret: Status)
      modifies `ix, `x, `y, `bits
      ensures ret == OK <==> old(ix) + 6 < datalen
      ensures ret == OK ==> y == Word16(data, old(ix) + 3) && x == Word16(data, old(ix) + 5)
                            && bits == data(old(ix) + 2) && ix == old(ix) + Word16(data, old(ix))
      ensures ret == CORRUPT ==> ix == old(ix)
    {
      if ix + 6 >= datalen { return CORRUPT; }
      y := Word16(data, ix + 3);
      x := Word16(data, ix + 5);
      bits := data(ix + 2);
      ix := ix + Word16(data, ix);
      return OK;
    }

    /** parseBlock: any other segment is skipped. */
    method ParseBlock() returns (ret: Status)
      modifies `ix
      ensures ix == old(ix) + Word16(data, old(ix)) && (ret == OK <==> ix < datalen)
    {
      ix := ix + Word16(data, ix);
      if ix >= datalen { return CORRUPT; }
      return OK;
    }

    /**
     * parseImage, behind the start-of-image marker: segments up to the scan. A file with the segments the encoder
     * writes is understood; the size, depth and table are those of its headers.
     */
    method ParseImage(ghost width: nat, ghost height: nat, ghost depth: nat, ghost t: Table) returns (ret: Status)
      modifies `ix, `data, `x, `y, `bits, `hufflut, `huffbits, `table, `scanstart
      ensures old(ix == 2 && Headed(data, datalen, width, height, depth, t)) && TableOk(t) ==>
                && ret == OK && data == old(data)
                && x == width && y == height && bits == depth && table == t && huffbits == t.m
                && LutOk(t, hufflut[..]) && scanstart == 38 + |t.vals|
    {
      hide TableOk, LutOk, Headed, NextMark, TableAt, Word16;
      ghost var good := ix == 2 && Headed(data, datalen, width, height, depth, t) && TableOk(t);
      ghost var stage := 0;
      ret := OK;
      while true
        invariant ret == OK
        invariant good ==> Headed(data, datalen, width, height, depth, t) && TableOk(t) && data == old(data)
        invariant good ==> (stage == 0 && ix == 2) || (stage == 1 && ix == 15) || (stage == 2 && ix == 17)
        invariant good && stage >= 1 ==> x == width && y == height && bits == depth
        invariant good && stage == 2 ==> table == t && huffbits == t.m && LutOk(t, hufflut[..])
        decreases datalen - ix
      {
        if good {
          HeadedMarks(data, datalen, width, height, depth, t);
          HeadedBytes(data, datalen, width, height, depth, t);
        }
        var nextMarker := Find();
        if nextMarker == 0xC4 {
          ret := ParseHuff();
        } else if nextMarker == 0xC3 {
          ret := ParseSof3();
        } else if nextMarker == 0xFE {
          ret := ParseBlock();
        } else if nextMarker == 0xD9 {
          break;
        } else if nextMarker == 0xDA {
          scanstart := ix;
          ret := OK;
          break;
        } else if nextMarker == -1 {
          ret := CORRUPT;
          break;
        } else {
          ret := ParseBlock();
        }
        if ret != OK { break; }
        stage := stage + 1;
      }
    }

    constructor (mem: Memory, datalen: int)
      ensures data == mem && this.datalen == datalen
    {
      data, this.datalen := mem, datalen;
      ix, x, y, bits, scanstart, writelen, skiplen, huffbits, cnt, b := 0, 0, 0, 0, 0, 0, 0, 0, 0, 0;
      hufflut := new nat[0];
      image, thisrow, lastrow := new int[0], new int[0], new int[0];
      c, col, out, write, left := 0, 0, 0, 0, 0;
    }

    /** lj92_open. */
    method OpenFile(ghost width: nat, ghost height: nat, ghost depth: nat, ghost t: Table) returns (ret: Status)
      modifies `ix, `data, `x, `y, `bits, `hufflut, `huffbits, `table, `scanstart, `thisrow, `lastrow
      ensures ret == OK ==> x >= 1
      ensures old(Headed(data, datalen, width, height, depth, t)) && TableOk(t) && width >= 1 && height >= 1 ==>
                && ret == OK && data == old(data)
                && x == width && y == height && bits == depth && table == t && scanstart == 38 + |t.vals|
                && Open() && fresh(thisrow) && fresh(lastrow)
    {
      hide TableOk, LutOk, Headed, NextMark;
      ghost var good := Headed(data, datalen, width, height, depth, t);
      if good {
        HeadedMarks(data, datalen, width, height, depth, t);
        HeadedBytes(data, datalen, width, height, depth, t);
      }
      ix := 0;
      var marker := Find();
      ret := CORRUPT;
      if marker == 0xD8 {
        ret := ParseImage(width, height, depth, t);
      }
      if ret == OK {
        if x <= 0 {
          ret := CORRUPT;
        } else {
          thisrow := new int[x](_ => 0);
          lastrow := new int[x](_ => 0);
        }
      }
    }

    /** The predictor named in the scan header. */
    ghost function ScanPredictor(): nat
      reads `data, `scanstart
    {
      data(scanstart + 3 + 2 * data(scanstart + 2))
    }

    /** The length of a line as the loop for the given predictor counts it: parsePred6 never ends lines of one pixel. */
    function LineOf(predictor: nat, writeLength: nat): nat
    {
      if predictor == 6 && writeLength < 2 then 0 else writeLength
    }

    /** parseScan: predictor 6 has a loop of its own, the others share one. */
    method ParseScan() returns (ret: Status)
      requires Open() && image != thisrow && image != lastrow
      requires HasRoom(image.Length, Size(), LineOf(ScanPredictor(), writelen), skiplen)
      modifies `start, `pred, `line
      modifies `b, `cnt, `ix, `at, `c, `col, `left, `out, `write, `thisrow, `lastrow, image, thisrow, lastrow
      ensures ScanPredictor() <= 7 ==> Scanned(ret, ScanPredictor(), LineOf(ScanPredictor(), writelen))
      ensures ScanPredictor() > 7 ==> ret == CORRUPT
      ensures ScanPredictor() == 6 ==>
                TableOk(table) && x >= 1
                && (ret == OK <==> Reached(data, start, table, 6, x, bits, Guarded6()) < datalen)
    {
      hide HasRoom, Scanned, Reached, Open, TableOk, Size, Guarded6;
      ix := scanstart;
      var compcount: nat := data(ix + 2);
      var predictor := data(ix + 3 + 2 * compcount);
      if predictor > 7 { return CORRUPT; }
      if predictor == 6 {
        ret := ParsePred6();
        ScannedTable(ret, 6, if writelen >= 2 then writelen else 0);
      } else {
        ret := ParseGeneral(predictor);
      }
    }

    lemma {:induction false} ScannedTable(ret: Status, predictor: nat, length: nat)
      requires Scanned(ret, predictor, length)
      ensures TableOk(table) && x >= 1
    {
    }

    method SetTarget(target: array<int>, writeLength: nat, skipLength: nat)
      modifies `image, `writelen, `skiplen
      ensures image == target && skiplen == skipLength && writelen == writeLength
    {
      image := target;
      writelen := writeLength;
      skiplen := skipLength;
    }

    /** lj92_decode, without a linearisation table. */
    method Decode(target: array<int>, writeLength: nat, skipLength: nat) returns (ret: Status)
      requires Open() && target != thisrow && target != lastrow
      requires HasRoom(target.Length, Size(), LineOf(ScanPredictor(), writeLength), skipLength)
      modifies `image, `writelen, `skiplen, `start, `pred, `line
      modifies `b, `cnt, `ix, `at, `c, `col, `left, `out, `write, `thisrow, `lastrow, target, thisrow, lastrow
      ensures image == target && skiplen == skipLength && writelen == writeLength
      ensures ScanPredictor() <= 7 ==> Scanned(ret, ScanPredictor(), LineOf(ScanPredictor(), writeLength))
      ensures ScanPredictor() > 7 ==> ret == CORRUPT
      ensures ScanPredictor() == 6 ==>
                TableOk(table) && x >= 1
                && (ret == OK <==> Reached(data, start, table, 6, x, bits, Guarded6()) < datalen)
    {
      hide HasRoom, Scanned, Reached, Open, TableOk, Size, Guarded6, LineOf, ScanPredictor;
      SetTarget(target, writeLength, skipLength);
      ret := ParseScan();
    }
  }

  lemma {:induction false} CountBits(mem: Memory, start: nat, c: Cursor, b: nat, cnt: nat, ix: nat)
    requires Buffered(mem, start, c, b, cnt, ix)
    ensures c.pos + cnt == 8 * c.fetched && ix == RawPos(mem, start, c.fetched)
  {
  }

  lemma {:induction false} LutTable(t: Table, lut: seq<nat>)
    requires LutOk(t, lut)
    ensures TableOk(t) && |lut| == Pow2(t.m)
  {
  }

  /** Pixel c lies col pixels after the start of a row. */
  predicate InRow(c: nat, col: nat, x: nat)
  {
    x >= 1 && col <= c && (c - col) % x == 0
  }

  lemma {:induction false} InRowNext(c: nat, col: nat, x: nat)
    requires InRow(c, col, x)
    ensures InRow(c + 1, col + 1, x)
  {
  }

  function Cut16(px: seq<int>): (r: seq<int>)
    ensures |r| == |px|
  {
    seq(|px|, i requires 0 <= i < |px| => U16(px[i]))
  }

  lemma {:induction false} Cut16At(px: seq<int>, k: nat)
    requires k < |px|
    ensures |Cut16(px)| == |px| && Cut16(px)[k] == U16(px[k])
  {
  }

  /** The first k pixels are in the image, each at its spot. */
  ghost predicate InImage(image: seq<int>, px: seq<int>, line: nat, skip: nat, k: nat)
    requires k <= |px|
  {
    forall j :: 0 <= j < k ==> var p := Spot(j, line, skip); p < |image| && image[p] == U16(px[j])
  }

  ghost predicate HasRoom(size: nat, n: nat, line: nat, skip: nat)
  {
    forall j :: 0 <= j < n ==> Spot(j, line, skip) < size
  }

  lemma {:induction false} InImageNext(image: seq<int>, px: seq<int>, line: nat, skip: nat, k: nat, v: int)
    requires k < |px| && InImage(image, px, line, skip, k) && Spot(k, line, skip) < |image| && v == U16(px[k])
    ensures InImage(image[Spot(k, line, skip) := v], px, line, skip, k + 1)
  {
    forall j | 0 <= j < k
      ensures Spot(j, line, skip) < Spot(k, line, skip)
    {
      SpotGrows(j, k, line, skip);
    }
  }

  lemma {:induction false} ScanNext(mem: Memory, start: nat, t: Table, pred: nat, w: nat, depth: nat, k: nat, n: nat)
    requires TableOk(t) && w >= 1 && k < n
    ensures |Scan(mem, start, t, pred, w, depth, n).0| == n
    ensures var px := Scan(mem, start, t, pred, w, depth, n).0;
            var (d, c) := DiffAt(mem, start, t, Scan(mem, start, t, pred, w, depth, k).1);
            && px[k] == Predict(pred, px, w, depth, k) + d
            && Scan(mem, start, t, pred, w, depth, k + 1).1 == c
  {
    hide Predict, TableOk, DiffAt;
    var px := Scan(mem, start, t, pred, w, depth, n).0;
    ScanPrefix(mem, start, t, pred, w, depth, k, n);
    ScanPrefix(mem, start, t, pred, w, depth, k + 1, n);
    PredictPrefix(pred, px, w, depth, k);
    assert px[k] == px[..k + 1][k];
  }

  lemma {:induction false} RowsStep(px: seq<int>, k: nat, width: nat, col: nat, above: seq<int>, current: seq<int>)
    requires Rows(px, k, width, col, above, current) && k < |px| && col < width && current[col] == px[k]
    ensures Rows(px, k + 1, width, col + 1, above, current)
  {
  }

  lemma {:induction false} RowsSwap(px: seq<int>, k: nat, width: nat, above: seq<int>, current: seq<int>)
    requires Rows(px, k, width, width, above, current)
    ensures Rows(px, k, width, 0, current, above)
  {
  }

  lemma {:induction false} RowDone(c: nat, x: nat)
    requires InRow(c, x, x)
    ensures InRow(c, 0, x)
  {
    NextMultiple(c - x, x);
  }

  lemma {:induction false} NextMultiple(v: int, d: nat)
    requires d >= 1 && v >= 0
    ensures (v + d) % d == v % d
  {
    var q, r := v / d, v % d;
    assert v == q * d + r;
    assert v + d == (q + 1) * d + r;
    QuotientOf(v + d, d, q + 1, r);
  }

  /** How many pixels are left in the line before pixel k; a line of 0 never ends. */
  function LineLeft(k: nat, line: nat, writelen: nat): int
  {
    if line > 0 then line - k % line else writelen - k
  }

  lemma {:induction false} LineNext(k: nat, line: nat, writelen: nat)
    ensures line > 0 ==> (LineLeft(k, line, writelen) - 1 == 0 <==> (k + 1) % line == 0)
    ensures line > 0 ==>
              LineLeft(k + 1, line, writelen)
              == if LineLeft(k, line, writelen) - 1 == 0 then line else LineLeft(k, line, writelen) - 1
  {
    if line > 0 { NextQuotient(k, line); }
  }

  /** The prediction of a pixel out of the row buffers. */
  lemma {:induction false} PredictRows(pred: nat, px: seq<int>, w: nat, depth: nat, k: nat, col: nat, above: seq<int>,
                                       current: seq<int>)
    requires Rows(Cut16(px), k, w, col, above, current) && col < w && k < |px| && InRow(k, col, w)
    ensures |above| == w && (k < w ==> k == col)
    ensures Predict(pred, px, w, depth, k)
            == if k == 0 then Middle(depth)
               else if k < w then px[k - 1]
               else if col == 0 then above[0]
               else Select(pred, px[k - 1], above[col], above[col - 1])
  {
    hide Select, Middle;
    var q := (k - col) / w;
    assert k - col == q * w;
    QuotientOf(k, w, q, col);
    if q >= 1 { ScaleLe(w, 1, q); }
    if k < w {
      QuotientOf(k, w, 0, k);
    } else {
      assert k - col >= w by { if q < 1 { ScaleLe(w, q, 0); } }
      forall i | 0 <= i < w
        ensures above[i] == Cut16(px)[k - col - w + i] == U16(px[k - col - w + i])
      {
      }
    }
  }

  lemma {:induction false} EmptyBuffer(mem: Memory, start: nat)
    ensures Buffered(mem, start, Cursor(0, 0), 0, 0, start)
  {
    assert Window(mem, start, 0, 0) == [];
  }

  lemma {:induction false} FullLine(line: nat, skip: nat, writelen: nat)
    requires line == writelen || line == 0
    ensures LineLeft(0, line, writelen) == writelen && Spot(0, line, skip) == 0
  {
    if line > 0 { QuotientOf(0, line, 0, 0); }
  }

  lemma {:induction false} NothingScanned(mem: Memory, start: nat, t: Table, pred: nat, w: nat, depth: nat, n: nat,
                                          above: seq<int>, current: seq<int>, image: seq<int>, line: nat, skip: nat)
    requires TableOk(t) && w >= 1 && |above| == |current| == w
    ensures Scan(mem, start, t, pred, w, depth, 0) == ([], Cursor(0, 0)) && InRow(0, 0, w)
    ensures var px := Scan(mem, start, t, pred, w, depth, n).0;
            |px| == n && Rows(Cut16(px), 0, w, 0, above, current) && InImage(image, px, line, skip, 0)
  {
    hide TableOk;
    QuotientOf(0, w, 0, 0);
  }

  /** The first row has a guard behind every pixel, the others behind the first pixel and behind the row. */
  function Guard(x: nat, y: nat): nat
  {
    if y <= 1 then x else if x == 1 then y - 1 else (y - 1) * x + 1
  }

  function RowStart(r: nat, x: nat): nat
  {
    r * x
  }

  lemma {:induction false} Swapped(x: nat, y: nat)
    ensures y * x == x * y
  {
  }

  /** Rows and pixels. */
  lemma {:induction false} Area(x: nat, y: nat, r: nat)
    requires x >= 1
    ensures y * x == x * y && (r + 1) * x == r * x + x
    ensures r < y ==> r * x + x <= x * y
    ensures r <= y && r * x >= x * y ==> r == y
    ensures y >= 1 ==> (y - 1) * x == x * y - x && r <= y ==> r * x <= x * y
    ensures x == 1 ==> r * x == r && x * y == y
    ensures r < y ==> r * x <= (y - 1) * x
  {
    if r < y {
      ScaleLe(x, r + 1, y);
    }
  }

  lemma {:induction false} TableAtParts(mem: Memory, p: nat, counts: seq<nat>)
    requires |counts| == LONGEST + 1 && counts[0] == 0 && forall l :: 1 <= l <= 16 ==> counts[l] == mem(p + 2 + l)
    ensures var t := TableAt(mem, p);
            t.bits == counts && t.m == Longest(counts, LONGEST) && t.m <= LONGEST
            && forall k :: 0 <= k < |t.vals| ==> t.vals[k] == mem(p + 19 + k)
  {
    assert TableAt(mem, p).bits == counts;
  }

  function CountAt(counts: seq<nat>, l: nat): nat
  {
    if l < |counts| then counts[l] else 0
  }

  /** How many numbers begin with a code word of l bits. */
  function Span(m: nat, l: nat): nat
  {
    if l <= m then Pow2(m - l) else 0
  }

  /** i is the rv-th number of the hv-th code word, which is the vl-th of its length. */
  ghost predicate InTable(t: Table, l: nat, vl: nat, hv: nat, i: nat, rv: nat)
    requires TableOk(t)
  {
    && 1 <= l <= t.m + 1 && vl <= CountAt(t.bits, l) && hv == |Lens(t.bits, l - 1)| + vl <= |Lengths(t)|
    && i == Start(Lengths(t), t.m, hv) + rv
  }

  lemma {:induction false} LutStart(t: Table)
    requires TableOk(t)
    ensures InTable(t, 1, 0, 0, 0, 0)
  {
  }

  lemma {:induction false} LengthFinished(t: Table, l: nat, vl: nat, hv: nat, i: nat)
    requires TableOk(t) && InTable(t, l, vl, hv, i, 0) && l <= t.m && vl >= CountAt(t.bits, l)
    ensures InTable(t, l + 1, 0, hv, i, 0)
  {
    LensPrefix(t.bits, l, LONGEST);
  }

  /** While the count is not reached, the hv-th code word has length l. */
  lemma {:induction false} WordHere(t: Table, l: nat, vl: nat, hv: nat, i: nat, rv: nat)
    requires TableOk(t) && InTable(t, l, vl, hv, i, rv) && l <= t.m && vl < CountAt(t.bits, l)
    ensures hv < |Lengths(t)| && Lengths(t)[hv] == l && hv < |t.vals|
    ensures Start(Lengths(t), t.m, hv + 1) == Start(Lengths(t), t.m, hv) + Pow2(t.m - l)
  {
    LensAt(t.bits, l, vl, LONGEST);
  }

  lemma {:induction false} WordFinished(t: Table, l: nat, vl: nat, hv: nat, i: nat, rv: nat)
    requires TableOk(t) && InTable(t, l, vl, hv, i, rv) && l <= t.m && vl < CountAt(t.bits, l) && rv == Pow2(t.m - l)
    ensures InTable(t, l, vl + 1, hv + 1, i, 0)
  {
    WordHere(t, l, vl, hv, i, rv);
  }

  /** The entry to be written is the one the code word at the front of i asks for. */
  lemma {:induction false} EntryHere(t: Table, l: nat, vl: nat, hv: nat, i: nat, rv: nat)
    requires TableOk(t) && InTable(t, l, vl, hv, i, rv) && l <= t.m && vl < CountAt(t.bits, l) && rv < Pow2(t.m - l)
    ensures hv < |t.vals| && i < Pow2(t.m) && Entry(t, i) == t.vals[hv] * 256 + l
    ensures InTable(t, l, vl, hv, i + 1, rv + 1)
  {
    hide Lens;
    WordHere(t, l, vl, hv, i, rv);
    StartMonotone(Lengths(t), t.m, hv + 1, |Lengths(t)|);
    CodeUnique(Lengths(t), t.m, i, hv, |Lengths(t)|);
  }

  lemma {:induction false} LutComplete(t: Table, l: nat, vl: nat, hv: nat, i: nat, rv: nat)
    requires TableOk(t) && InTable(t, l, vl, hv, i, rv) && l == t.m + 1
    ensures i >= Pow2(t.m)
  {
    LensEnd(t.bits, t.m, LONGEST);
  }

  lemma {:induction false} LutDone(t: Table, lut: seq<nat>)
    requires TableOk(t) && |lut| == Pow2(t.m)
    requires forall v :: 0 <= v < Pow2(t.m) ==> lut[v] == Entry(t, v)
    ensures LutOk(t, lut)
  {
  }

  lemma {:induction false} HeadedBytes(mem: Memory, datalen: int, width: nat, height: nat, depth: nat, t: Table)
    requires Headed(mem, datalen, width, height, depth, t)
    ensures datalen > 46 + |t.vals| && mem(1) == 0xD8 && mem(3) == 0xC3 && mem(16) == 0xC4 && mem(37 + |t.vals|) == 0xDA
    ensures Word16(mem, 4) == 11 && mem(6) == depth && Word16(mem, 7) == height && Word16(mem, 9) == width
    ensures mem(19) == 0 && TableAt(mem, 17) == t && Word16(mem, 17) == 19 + |t.vals|
  {
    hide TableAt;
  }
}
