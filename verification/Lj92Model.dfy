/**
 * Lossless JPEG as lj92.c understands it: prediction, residual categories, the order of pixels in memory,
 * and what a scan means by the reference procedures of ITU-T T.81 (sections F.2.2 and H.1.2).
 */
module Lj92Model {
  import opened Bits
  import opened BitStrings
  import opened HuffmanTree
  import opened Modular
  import opened HuffmanCodes

  /** LJ92_ERROR_NONE and LJ92_ERROR_CORRUPT */
  datatype Status = OK | CORRUPT

  const SIGN: nat := 0x8000_0000

  /** A product of two 16-bit numbers as the int that lj92.c keeps it in. */
  function Int32(v: nat): int
  {
    if v < SIGN then v else v - 2 * SIGN
  }

  // ---------------------------------------------------------------- residuals

  /** The number of bits of n. */
  function BitLength(n: nat): nat
  {
    if n == 0 then 0 else 1 + BitLength(n / 2)
  }

  function Abs(d: int): nat
  {
    if d < 0 then -d else d
  }

  /** SSSS, the category of a residual. */
  function Category(d: int): nat
  {
    BitLength(Abs(d))
  }

  /** The lower half of a category's bit patterns stands for its negative residuals. */
  function Middle(t: nat): nat
  {
    if t > 0 then Pow2(t - 1) else 0
  }

  /** The bits written after the category. */
  function Extra(d: int): int
  {
    var t := Category(d);
    if d < Middle(t) then d + Pow2(t) - 1 else d
  }

  /** EXTEND of section F.2.2.1. */
  function Extend(v: nat, t: nat): int
  {
    if v < Middle(t) then v - Pow2(t) + 1 else v
  }

  lemma {:induction false} BitLengthBound(n: nat)
    ensures n < Pow2(BitLength(n)) && (n > 0 ==> Pow2(BitLength(n) - 1) <= n)
  {
    if n > 0 { BitLengthBound(n / 2); }
  }

  lemma {:induction false} BitLengthFits(n: nat, k: nat)
    requires n < Pow2(k)
    ensures BitLength(n) <= k
    decreases k
  {
    if k > 0 && n > 0 { BitLengthFits(n / 2, k - 1); }
  }

  /** Category and extra bits determine the residual. */
  lemma {:induction false} ResidualRoundTrip(d: int)
    ensures 0 <= Extra(d) < Pow2(Category(d)) && Extend(Extra(d), Category(d)) == d
  {
    BitLengthBound(Abs(d));
  }

  // ---------------------------------------------------------------- prediction

  function U16(v: int): nat
  {
    v % 0x1_0000
  }

  /** The seven predictors of table H.1, and none for 0; the upper neighbours come from 16-bit row buffers. */
  function Select(pred: nat, left: int, up: int, upLeft: int): int
  {
    match pred
    case 1 => left
    case 2 => up
    case 3 => upLeft
    case 4 => left + up - upLeft
    case 5 => left + (up - upLeft) / 2
    case 6 => up + (left - upLeft) / 2
    case 7 => (left + up) / 2
    case _ => 0
  }

  /** The prediction of pixel k from the pixels before it, in rows of w. */
  function Predict(pred: nat, px: seq<int>, w: nat, depth: nat, k: nat): int
    requires k <= |px| && w >= 1
  {
    if k == 0 then Middle(depth)
    else if k < w then px[k - 1]
    else if k % w == 0 then U16(px[k - w])
    else Select(pred, px[k - 1], U16(px[k - w]), U16(px[k - w - 1]))
  }

  function Residual(px: seq<int>, w: nat, depth: nat, k: nat): int
    requires k < |px| && w >= 1
  {
    px[k] - Predict(6, px, w, depth, k)
  }

  ghost predicate PixelsFit(px: seq<int>, depth: nat)
  {
    forall k :: 0 <= k < |px| ==> 0 <= px[k] < Pow2(depth)
  }

  lemma {:induction false} SelectBound(range: int, left: int, up: int, upLeft: int)
    requires 0 <= left < range <= 0x8000 && 0 <= up < range && 0 <= upLeft < range
    ensures U16(up) == up && U16(upLeft) == upLeft && -range < Select(6, left, U16(up), U16(upLeft)) < 2 * range
  {
  }

  lemma {:induction false} PredictBound(px: seq<int>, w: nat, depth: nat, k: nat)
    requires PixelsFit(px, depth) && 1 <= depth && Pow2(depth) <= 0x8000 && k < |px| && w >= 1
    ensures var range: int := Pow2(depth); -range < Predict(6, px, w, depth, k) < 2 * range
  {
    hide U16, Select;
    if k == 0 {
      assert Pow2(depth) == 2 * Pow2(depth - 1);
    } else if k < w {
    } else {
      var i := if k % w == 0 then k - w else k - w - 1;
      SelectBound(Pow2(depth), px[k - 1], px[k - w], px[i]);
    }
  }

  /** Pixels of depth bits have residuals of at most depth + 1 bits. */
  lemma {:induction false} CategoryBound(px: seq<int>, w: nat, depth: nat, k: nat)
    requires PixelsFit(px, depth) && 1 <= depth <= 15 && k < |px| && w >= 1
    ensures Category(Residual(px, w, depth, k)) <= depth + 1
  {
    Pow2Monotone(depth, 15);
    assert Pow2(15) == 0x8000;
    PredictBound(px, w, depth, k);
    hide Predict;
    assert Pow2(depth + 1) == 2 * Pow2(depth);
    BitLengthFits(Abs(Residual(px, w, depth, k)), depth + 1);
  }

  // ---------------------------------------------------------------- row buffers

  /** The row buffers hold the current row up to col, and the row above. */
  predicate Rows(px: seq<int>, k: nat, width: nat, col: nat, above: seq<int>, current: seq<int>)
  {
    && col <= k <= |px| && |above| == |current| == width && col <= width
    && (forall j :: 0 <= j < col ==> current[j] == px[k - col + j])
    && (k - col >= width ==> forall j :: 0 <= j < width ==> above[j] == px[k - col - width + j])
  }

  lemma {:induction false} RowsNext(px: seq<int>, k: nat, width: nat, col: nat, above: seq<int>, current: seq<int>)
    requires Rows(px, k, width, col, above, current) && k < |px| && col < width && current[col] == px[k]
    ensures if col + 1 == width then Rows(px, k + 1, width, 0, current, above)
            else Rows(px, k + 1, width, col + 1, above, current)
  {
  }

  lemma {:induction false} RowsLength(px: seq<int>, k: nat, width: nat, col: nat, above: seq<int>, current: seq<int>)
    requires Rows(px, k, width, col, above, current)
    ensures |above| == |current| == width
  {
  }

  lemma {:induction false} RowsWrite(px: seq<int>, k: nat, width: nat, col: nat, above: seq<int>, current: seq<int>,
                                     p: int)
    requires Rows(px, k, width, col, above, current) && col < width
    ensures Rows(px, k, width, col, above, current[col := p])
  {
  }

  // ---------------------------------------------------------------- pixels in memory

  /** The position of pixel k when skip values are left out after every len pixels; len 0 never skips. */
  function Spot(k: nat, len: nat, skip: nat): nat
  {
    if k == 0 then 0 else Spot(k - 1, len, skip) + 1 + if len > 0 && k % len == 0 then skip else 0
  }

  lemma {:induction false} SpotClosed(k: nat, len: nat, skip: nat)
    ensures Spot(k, len, skip) == k + if len > 0 then skip * (k / len) else 0
  {
    if k > 0 {
      SpotClosed(k - 1, len, skip);
      if len > 0 {
        NextQuotient(k - 1, len);
        assert skip * ((k - 1) / len + 1) == skip * ((k - 1) / len) + skip;
      }
    } else if len > 0 {
      assert 0 / len == 0;
    }
  }

  lemma {:induction false} SpotGrows(j: nat, k: nat, len: nat, skip: nat)
    requires j <= k
    ensures Spot(j, len, skip) + (k - j) <= Spot(k, len, skip)
    decreases k
  {
    if j < k { SpotGrows(j, k - 1, len, skip); }
  }

  // ---------------------------------------------------------------- what a scan means

  /** A Huffman table: how many code words of each length, their values, and the longest length in use. */
  datatype Table = Table(bits: seq<nat>, vals: seq<nat>, m: nat)

  function Lengths(t: Table): seq<nat>
  {
    if |t.bits| == LONGEST + 1 then Lens(t.bits, LONGEST) else []
  }

  ghost predicate TableOk(t: Table)
  {
    && Complete(t.bits, t.m) && |Lengths(t)| <= |t.vals|
    && forall k :: 0 <= k < |Lengths(t)| ==> t.vals[k] <= 16
  }

  /** The code word at bit p of a scan. */
  ghost function CodeAt(mem: Memory, start: nat, t: Table, p: nat): (k: nat)
    requires TableOk(t)
    ensures k < |Lengths(t)| && 1 <= Lengths(t)[k] <= t.m
  {
    ValueBound(Window(mem, start, p, t.m));
    LensBounds(t.bits, LONGEST, t.m);
    CodeOf(Lengths(t), t.m, ValueOf(Window(mem, start, p, t.m)), |Lengths(t)|)
  }

  /** The number of data bytes in the reader once at least need bits from bit p on are buffered. */
  function Fill(mem: Memory, start: nat, f: nat, p: nat, need: nat): nat
    decreases p + need - 8 * f
  {
    if 8 * f >= p + need then f
    else Fill(mem, start, f + if DataByte(mem, start, f) == 0xFF then 1 else 2, p, need)
  }

  /** How far a scan has been read: the bits decoded, and the data bytes fetched ahead. */
  datatype Cursor = Cursor(pos: nat, fetched: nat)

  /** One residual: DECODE, RECEIVE and EXTEND. */
  ghost function DiffAt(mem: Memory, start: nat, t: Table, c: Cursor): (int, Cursor)
    requires TableOk(t)
  {
    var k := CodeAt(mem, start, t, c.pos);
    var p := c.pos + Lengths(t)[k];
    var ssss := t.vals[k];
    (Extend(ValueOf(Window(mem, start, p, ssss)), ssss),
     Cursor(p + ssss, Fill(mem, start, Fill(mem, start, c.fetched, c.pos, t.m), p, ssss)))
  }

  /** The first k pixels of a scan, before they are cut to 16 bits, and how far it has been read then. */
  ghost function Scan(mem: Memory, start: nat, t: Table, pred: nat, w: nat, depth: nat, k: nat): (r: (seq<int>, Cursor))
    requires TableOk(t) && w >= 1
    ensures |r.0| == k
  {
    if k == 0 then ([], Cursor(0, 0))
    else
      var (px, c) := Scan(mem, start, t, pred, w, depth, k - 1);
      var (d, c') := DiffAt(mem, start, t, c);
      (px + [Predict(pred, px, w, depth, k - 1) + d], c')
  }

  // ---------------------------------------------------------------- what the encoder writes

  /** sym names a code word for every category that occurs, and that code word stands for it. */
  ghost predicate Covers(t: Table, sym: seq<nat>, px: seq<int>, w: nat, depth: nat)
    requires w >= 1
  {
    && TableOk(t) && |sym| == 17
    && forall k :: 0 <= k < |px| ==> var s := Category(Residual(px, w, depth, k));
         s < 17 && sym[s] < |Lengths(t)| && t.vals[sym[s]] == s
  }

  /** Code word and extra bits of pixel k. */
  function PixelBits(t: Table, sym: seq<nat>, px: seq<int>, w: nat, depth: nat, k: nat): seq<Bit>
    requires k < |px| && w >= 1
  {
    var d := Residual(px, w, depth, k);
    var s := Category(d);
    if s < |sym| && sym[s] < |Lengths(t)| && Extra(d) >= 0
    then BitsOf(Code(Lengths(t), t.m, sym[s]), Lengths(t)[sym[s]]) + BitsOf(Extra(d), s)
    else []
  }

  function ImageBits(t: Table, sym: seq<nat>, px: seq<int>, w: nat, depth: nat, n: nat): seq<Bit>
    requires n <= |px| && w >= 1
  {
    if n == 0 then [] else ImageBits(t, sym, px, w, depth, n - 1) + PixelBits(t, sym, px, w, depth, n - 1)
  }

  /** Whatever follows a code word in the scan, that code word is found. */
  lemma {:induction false} CodeFound(mem: Memory, start: nat, t: Table, p: nat, k: nat)
    requires TableOk(t) && k < |Lengths(t)| && 1 <= Lengths(t)[k] <= t.m
    requires Window(mem, start, p, Lengths(t)[k]) == BitsOf(Code(Lengths(t), t.m, k), Lengths(t)[k])
    ensures CodeAt(mem, start, t, p) == k
  {
    hide Code, CodeOf, BitsOf, Window, Complete;
    var len := Lengths(t)[k];
    var rest := Window(mem, start, p + len, t.m - len);
    WindowSplit(mem, start, p, len, t.m - len);
    WindowLength(mem, start, p + len, t.m - len);
    ValueConcat(BitsOf(Code(Lengths(t), t.m, k), len), rest);
    ValueBound(rest);
    CodeFits(t.bits, t.m, k);
    ValueOfBits(Code(Lengths(t), t.m, k), len);
    FollowedCode(t.bits, t.m, k, ValueOf(rest));
  }

  lemma {:induction false} WindowLength(mem: Memory, start: nat, p: nat, n: nat)
    ensures |Window(mem, start, p, n)| == n
  {
  }

  /** The residual of a pixel is read back. */
  lemma {:induction false} DiffFound(mem: Memory, start: nat, t: Table, sym: seq<nat>, px: seq<int>, w: nat,
                                     depth: nat, k: nat, c: Cursor)
    requires w >= 1 && k < |px| && Covers(t, sym, px, w, depth)
    requires var bits := PixelBits(t, sym, px, w, depth, k); Window(mem, start, c.pos, |bits|) == bits
    ensures var (d, c') := DiffAt(mem, start, t, c);
            d == Residual(px, w, depth, k) && c'.pos == c.pos + |PixelBits(t, sym, px, w, depth, k)|
  {
    hide Code, CodeOf, CodeAt, Window, Complete, Residual, Category, Extra, Extend, Fill, Lengths;
    var d := Residual(px, w, depth, k);
    var s := Category(d);
    var i := sym[s];
    ResidualRoundTrip(d);
    CodeLength(t, i);
    var len := Lengths(t)[i];
    var a, b := BitsOf(Code(Lengths(t), t.m, i), len), BitsOf(Extra(d), s);
    WindowSplit(mem, start, c.pos, len, s);
    WindowLength(mem, start, c.pos, len);
    assert Window(mem, start, c.pos, len + s) == a + b;
    WindowLength(mem, start, c.pos + len, s);
    SameParts(Window(mem, start, c.pos, len), Window(mem, start, c.pos + len, s), a, b);
    CodeFound(mem, start, t, c.pos, i);
    ValueOfBits(Extra(d), s);
  }

  lemma {:induction false} SameParts(a: seq<Bit>, b: seq<Bit>, c: seq<Bit>, d: seq<Bit>)
    requires a + b == c + d && |a| == |c|
    ensures a == c && b == d
  {
    assert (a + b)[..|a|] == a && (c + d)[..|c|] == c && (a + b)[|a|..] == b && (c + d)[|c|..] == d;
  }

  lemma {:induction false} CodeLength(t: Table, k: nat)
    requires TableOk(t) && k < |Lengths(t)|
    ensures 1 <= Lengths(t)[k] <= t.m && k < |t.vals| && t.vals[k] <= 16
  {
    LensBounds(t.bits, LONGEST, t.m);
  }

  lemma {:induction false} ImageBitsPrefix(t: Table, sym: seq<nat>, px: seq<int>, w: nat, depth: nat, k: nat, n: nat)
    requires k <= n <= |px| && w >= 1
    ensures ImageBits(t, sym, px, w, depth, k) <= ImageBits(t, sym, px, w, depth, n)
    decreases n
  {
    hide PixelBits;
    if k < n { ImageBitsPrefix(t, sym, px, w, depth, k, n - 1); }
  }

  /** A scan that begins with the bits of an image decodes to its pixels, whatever follows. */
  lemma {:induction false} ScanRestores(mem: Memory, start: nat, t: Table, sym: seq<nat>, px: seq<int>, w: nat,
                                        depth: nat, k: nat)
    requires w >= 1 && k <= |px| && Covers(t, sym, px, w, depth)
    requires var bits := ImageBits(t, sym, px, w, depth, |px|); Window(mem, start, 0, |bits|) == bits
    ensures var (r, c) := Scan(mem, start, t, 6, w, depth, k);
            r == px[..k] && c.pos == |ImageBits(t, sym, px, w, depth, k)|
    decreases k
  {
    hide Window, PixelBits, DiffAt, Covers, Predict;
    CoversOk(t, sym, px, w, depth);
    if k > 0 {
      ScanRestores(mem, start, t, sym, px, w, depth, k - 1);
      var all := ImageBits(t, sym, px, w, depth, |px|);
      var before, mine := ImageBits(t, sym, px, w, depth, k - 1), PixelBits(t, sym, px, w, depth, k - 1);
      ImageBitsPrefix(t, sym, px, w, depth, k, |px|);
      assert all == before + mine + all[|before| + |mine|..];
      WindowInside(mem, start, all, before, mine, all[|before| + |mine|..]);
      var (r, c) := Scan(mem, start, t, 6, w, depth, k - 1);
      DiffFound(mem, start, t, sym, px, w, depth, k - 1, c);
      PredictPrefix(6, px, w, depth, k - 1);
      assert px[..k] == px[..k - 1] + [px[k - 1]];
    }
  }

  lemma {:induction false} CoversOk(t: Table, sym: seq<nat>, px: seq<int>, w: nat, depth: nat)
    requires w >= 1 && Covers(t, sym, px, w, depth)
    ensures TableOk(t)
  {
  }

  lemma {:induction false} PredictPrefix(pred: nat, px: seq<int>, w: nat, depth: nat, k: nat)
    requires w >= 1 && k <= |px|
    ensures Predict(pred, px[..k], w, depth, k) == Predict(pred, px, w, depth, k)
  {
  }
}
