/**
 * The "uncompressed GIF" stream of gif.c: a clear code in front of at most 125 pixels keeps every LZW code
 * eight bits wide, so that a pixel is a byte. A decoder after appendix F of the GIF89a specification reads
 * the pixels back.
 */
module Gif {
  import opened Bits
  import opened Modular

  const CLEAR := 0x80
  const END := 0x81
  const SUB_BLOCK_SIZE := 126

  // ---------------------------------------------------------------- the decoder

  /** The payload of sub-blocks up to the terminator. */
  function Unblock(s: seq<Byte>): seq<Byte>
  {
    if s == [] || s[0] == 0 then []
    else if 1 + s[0] > |s| then s[1..]
    else s[1..1 + s[0]] + Unblock(s[1 + s[0]..])
  }

  /** n bits from bit p on, the least significant first. */
  function ReadCode(d: seq<Byte>, p: nat, n: nat): nat
    decreases n, p
  {
    if n == 0 || p / 8 >= |d| then 0 else BitAt(d[p / 8], p % 8) + 2 * ReadCode(d, p + 1, n - 1)
  }

  /** What a decoder makes of a stream: its output and the widest code it had to read, or an error. */
  datatype Decoded = Output(bytes: seq<Byte>, widest: nat) | Malformed

  function Roots(): (r: seq<seq<Byte>>)
    ensures |r| == 130
  {
    seq<seq<Byte>>(130, i requires 0 <= i < 130 => if i < CLEAR then [i] else [])
  }

  function Before(bytes: seq<Byte>, width: nat, r: Decoded): Decoded
  {
    match r
    case Malformed => Malformed
    case Output(b, w) => Output(bytes + b, if w < width then width else w)
  }

  /** LZW decoding with codes of width bits from bit p on; prev is the last code since a clear code, or -1. */
  function Decode(d: seq<Byte>, p: nat, width: nat, table: seq<seq<Byte>>, prev: int): Decoded
    decreases 8 * |d| - p
  {
    if p + width > 8 * |d| || width == 0 then Malformed
    else
      var code := ReadCode(d, p, width);
      if code == CLEAR then Before([], width, Decode(d, p + width, 8, Roots(), -1))
      else if code == END then Output([], width)
      else if prev < 0 || prev >= |table| then
        if code < CLEAR then Before([code], width, Decode(d, p + width, width, table, code)) else Malformed
      else if code > |table| || (code < |table| && table[code] == []) || table[prev] == [] then Malformed
      else
        var word := if code < |table| then table[code] else table[prev] + [table[prev][0]];
        var grown := if |table| < 4096 then table + [table[prev] + [word[0]]] else table;
        var width' := if |grown| == Pow2(width) && width < 12 then width + 1 else width;
        Before(word, width, Decode(d, p + width, width', grown, code))
  }

  // ---------------------------------------------------------------- bytes as codes

  lemma {:induction false} ByteFromBits(d: seq<Byte>, k: nat, i: nat)
    requires k < |d| && i <= 8
    ensures ReadCode(d, 8 * k + i, 8 - i) == Shr(d[k], i)
    decreases 8 - i
  {
    if i == 8 {
      ShrAll(d[k]);
    } else {
      QuotientOf(8 * k + i, 8, k, i);
      ByteFromBits(d, k, i + 1);
      ShrHalves(d[k], i);
    }
  }

  lemma {:induction false} ShrAll(v: Byte)
    ensures Shr(v, 8) == 0
  {
    Pow2Small();
    TruncBound(v, 8);
  }

  lemma {:induction false} AlignedCode(d: seq<Byte>, k: nat)
    requires k < |d|
    ensures ReadCode(d, 8 * k, 8) == d[k]
  {
    ByteFromBits(d, k, 0);
  }

  /** A stream of byte codes with a clear code before 126 pixels have gone by. */
  predicate Paced(d: seq<Byte>, k: nat, since: nat)
    decreases |d| - k
  {
    k < |d|
    && if d[k] == CLEAR then Paced(d, k + 1, 0)
       else if d[k] == END then true
       else d[k] < CLEAR && since < 126 && Paced(d, k + 1, since + 1)
  }

  /** The pixels among the codes. */
  function Pixels(d: seq<Byte>, k: nat): seq<Byte>
    decreases |d| - k
  {
    if k >= |d| || d[k] == END then []
    else (if d[k] == CLEAR then [] else [d[k]]) + Pixels(d, k + 1)
  }

  /** The table after that many pixels since the clear code. */
  ghost predicate InStep(table: seq<seq<Byte>>, prev: int, since: nat)
  {
    && |table| == 130 + (if since == 0 then 0 else since - 1)
    && (forall i :: 0 <= i < CLEAR ==> table[i] == [i])
    && (if since == 0 then prev == -1 else 0 <= prev < CLEAR)
  }

  /** As long as it is paced, the decoder stays at eight bits and outputs the pixels. */
  lemma {:induction false} PacedDecodes(d: seq<Byte>, k: nat, table: seq<seq<Byte>>, prev: int, since: nat)
    requires Paced(d, k, since) && InStep(table, prev, since)
    ensures Decode(d, 8 * k, 8, table, prev) == Output(Pixels(d, k), 8)
    decreases |d| - k
  {
    hide Decode;
    OneCode(d, k, table, prev, since);
    if d[k] == CLEAR {
      PacedDecodes(d, k + 1, Roots(), -1, 0);
      assert [] + Pixels(d, k + 1) == Pixels(d, k + 1);
    } else if d[k] != END {
      PacedDecodes(d, k + 1, Grown(table, prev, since, d[k]), d[k], since + 1);
    }
  }

  /** The table after one more pixel. */
  function Grown(table: seq<seq<Byte>>, prev: int, since: nat, b: Byte): seq<seq<Byte>>
  {
    if since == 0 || prev < 0 || prev >= |table| then table else table + [table[prev] + [b]]
  }

  /** What the decoder does with one byte code. */
  lemma {:induction false} OneCode(d: seq<Byte>, k: nat, table: seq<seq<Byte>>, prev: int, since: nat)
    requires Paced(d, k, since) && InStep(table, prev, since)
    ensures Decode(d, 8 * k, 8, table, prev)
            == if d[k] == CLEAR then Before([], 8, Decode(d, 8 * (k + 1), 8, Roots(), -1))
               else if d[k] == END then Output([], 8)
               else Before([d[k]], 8, Decode(d, 8 * (k + 1), 8, Grown(table, prev, since, d[k]), d[k]))
    ensures d[k] < CLEAR ==> InStep(Grown(table, prev, since, d[k]), d[k], since + 1)
    ensures InStep(Roots(), -1, 0)
  {
    hide Paced;
    PacedCode(d, k, since);
    AlignedCode(d, k);
    Pow2Small();
  }

  lemma {:induction false} PacedCode(d: seq<Byte>, k: nat, since: nat)
    requires Paced(d, k, since)
    ensures k < |d| && (d[k] == CLEAR || d[k] == END || (d[k] < CLEAR && since < 126))
  {
  }

  // ---------------------------------------------------------------- what is emitted

  /** The sub-blocks that are complete after the pixels px. */
  function Flushed(px: seq<Byte>): seq<Byte>
  {
    if px == [] then []
    else
      var before := px[..|px| - 1];
      if |Held(before)| == 124 then Flushed(before) + [126, CLEAR] + Held(before) + [px[|px| - 1]] else Flushed(before)
  }

  /** The pixels in the sub-block being filled. */
  function Held(px: seq<Byte>): (r: seq<Byte>)
    ensures |r| <= 124
  {
    if px == [] then []
    else
      var before := px[..|px| - 1];
      if |Held(before)| == 124 then [] else Held(before) + [px[|px| - 1]]
  }

  /** The image data of a frame. */
  function Frame(px: seq<Byte>): seq<Byte>
  {
    Flushed(px) + [|Held(px)| + 2, CLEAR] + Held(px) + [END, 0]
  }

  /** The codes in it. */
  function Codes(px: seq<Byte>): seq<Byte>
  {
    FlushedCodes(px) + [CLEAR] + Held(px) + [END]
  }

  function FlushedCodes(px: seq<Byte>): seq<Byte>
  {
    if px == [] then []
    else
      var before := px[..|px| - 1];
      if |Held(before)| == 124 then FlushedCodes(before) + [CLEAR] + Held(before) + [px[|px| - 1]] else FlushedCodes(before)
  }

  /** Whole sub-blocks, none of them empty. */
  predicate Whole(s: seq<Byte>)
  {
    s == [] || (s[0] > 0 && 1 + s[0] <= |s| && Whole(s[1 + s[0]..]))
  }

  lemma {:induction false} UnblockStep(s: seq<Byte>, n: nat)
    requires 0 < n < |s| && s[0] == n
    ensures Unblock(s) == s[1..1 + n] + Unblock(s[1 + n..]) && (Whole(s) <==> Whole(s[1 + n..]))
  {
    hide Unblock, Whole;
    UnblockUnfold(s);
  }

  lemma {:induction false} UnblockUnfold(s: seq<Byte>)
    requires s != [] && s[0] > 0 && 1 + s[0] <= |s|
    ensures Unblock(s) == s[1..1 + s[0]] + Unblock(s[1 + s[0]..]) && (Whole(s) <==> Whole(s[1 + s[0]..]))
  {
  }

  lemma {:induction false} WholeFront(s: seq<Byte>)
    requires Whole(s) && s != []
    ensures 0 < s[0] < |s|
  {
  }

  lemma {:induction false} UnblockWhole(a: seq<Byte>, b: seq<Byte>)
    requires Whole(a)
    ensures Unblock(a + b) == Unblock(a) + Unblock(b)
    ensures Whole(b) ==> Whole(a + b)
    decreases |a|
  {
    hide Unblock, Whole;
    if a == [] {
      assert a + b == b;
      NothingBlocked();
    } else {
      WholeFront(a);
      var size: nat := a[0];
      var n := 1 + size;
      assert (a + b)[1..n] == a[1..n] && (a + b)[n..] == a[n..] + b;
      UnblockStep(a, size);
      UnblockStep(a + b, size);
      UnblockWhole(a[n..], b);
      assert a[1..n] + (Unblock(a[n..]) + Unblock(b)) == (a[1..n] + Unblock(a[n..])) + Unblock(b);
    }
  }

  lemma {:induction false} OneBlock(body: seq<Byte>, tail: seq<Byte>)
    requires 1 <= |body| < 256
    ensures Unblock([|body|] + body + ([0] + tail)) == body && Unblock([|body|] + body) == body
            && Whole([|body|] + body)
  {
    hide Unblock, Whole;
    NothingBlocked();
    Terminated(tail);
    var n: nat := |body|;
    var s := [n] + body + ([0] + tail);
    assert s[1..1 + n] == body && s[1 + n..] == [0] + tail && body + [] == body;
    UnblockStep(s, n);
    var u := [n] + body;
    assert u[1..1 + n] == body && u[1 + n..] == [];
    UnblockStep(u, n);
  }

  lemma {:induction false} Terminated(tail: seq<Byte>)
    ensures Unblock([0] + tail) == []
  {
  }

  lemma {:induction false} NothingBlocked()
    ensures Whole([]) && Unblock([]) == []
  {
  }

  /** When the 125th pixel comes, a sub-block is complete. */
  lemma {:induction false} BlockFlushed(px: seq<Byte>)
    requires px != []
    ensures var before := px[..|px| - 1];
            if |Held(before)| == 124
            then var body := [CLEAR] + Held(before) + [px[|px| - 1]];
                 && Flushed(px) == Flushed(before) + ([126] + body) && FlushedCodes(px) == FlushedCodes(before) + body
                 && Held(px) == [] && |body| == 126
            else Flushed(px) == Flushed(before) && FlushedCodes(px) == FlushedCodes(before)
                 && Held(px) == Held(before) + [px[|px| - 1]]
  {
    var before := px[..|px| - 1];
    if |Held(before)| == 124 {
      var body := [CLEAR] + Held(before) + [px[|px| - 1]];
      assert Flushed(before) + [126, CLEAR] + Held(before) + [px[|px| - 1]] == Flushed(before) + ([126] + body);
      assert FlushedCodes(before) + [CLEAR] + Held(before) + [px[|px| - 1]] == FlushedCodes(before) + body;
    }
  }

  lemma {:induction false} FlushedUnblocks(px: seq<Byte>)
    ensures Whole(Flushed(px)) && Unblock(Flushed(px)) == FlushedCodes(px)
    decreases |px|
  {
    hide Unblock, Whole, Held;
    if px == [] {
      NothingBlocked();
    } else {
      var before := px[..|px| - 1];
      FlushedUnblocks(before);
      BlockFlushed(px);
      if |Held(before)| == 124 {
        var body := [CLEAR] + Held(before) + [px[|px| - 1]];
        OneBlock(body, []);
        UnblockWhole(Flushed(before), [126] + body);
      }
    }
  }

  /** Unpacking the sub-blocks gives the codes. */
  lemma {:induction false} FrameUnblocks(px: seq<Byte>, tail: seq<Byte>)
    ensures Unblock(Frame(px) + tail) == Codes(px)
  {
    hide Unblock, Whole, Flushed, FlushedCodes, Held;
    HeldIsLast(px);
    var body := [CLEAR] + Held(px) + [END];
    FlushedUnblocks(px);
    OneBlock(body, tail);
    UnblockWhole(Flushed(px), [|body|] + body + ([0] + tail));
    assert Frame(px) + tail == Flushed(px) + ([|body|] + body + ([0] + tail));
    assert Codes(px) == FlushedCodes(px) + body;
  }

  /** A stretch of pixels keeps the pace. */
  lemma {:induction false} PixelsPaced(d: seq<Byte>, k: nat, run: seq<Byte>, since: nat)
    requires k + |run| <= |d| && d[k..k + |run|] == run && since + |run| <= 126
    requires forall i :: 0 <= i < |run| ==> run[i] < CLEAR
    ensures Paced(d, k + |run|, since + |run|) ==> Paced(d, k, since)
    ensures Pixels(d, k) == run + Pixels(d, k + |run|)
    decreases |run|
  {
    if run != [] {
      assert d[k] == d[k..k + |run|][0] == run[0];
      assert d[k + 1..k + 1 + |run[1..]|] == d[k..k + |run|][1..] == run[1..];
      PixelsPaced(d, k + 1, run[1..], since + 1);
      assert [run[0]] + run[1..] == run;
    }
  }

  lemma {:induction false} ClearThenPixels(d: seq<Byte>, k: nat, run: seq<Byte>, since: nat)
    requires k + 1 + |run| <= |d| && d[k] == CLEAR && d[k + 1..k + 1 + |run|] == run && |run| <= 126
    requires forall i :: 0 <= i < |run| ==> run[i] < CLEAR
    ensures Paced(d, k + 1 + |run|, |run|) ==> Paced(d, k, since)
    ensures Pixels(d, k) == run + Pixels(d, k + 1 + |run|)
  {
    PixelsPaced(d, k + 1, run, 0);
    assert [] + Pixels(d, k + 1) == Pixels(d, k + 1);
  }

  lemma {:induction false} NoPixels()
    ensures FlushedCodes([]) == [] && Held([]) == []
  {
  }

  lemma {:induction false} HeldIsLast(px: seq<Byte>)
    ensures |Held(px)| <= |px| && |Held(px)| <= 124 && Held(px) == px[|px| - |Held(px)|..]
    decreases |px|
  {
    hide Flushed, FlushedCodes, Held;
    if px == [] {
      NoPixels();
    } else {
      var before := px[..|px| - 1];
      HeldIsLast(before);
      BlockFlushed(px);
      if |Held(before)| != 124 {
        assert px[|px| - 1 - |Held(before)|..] == before[|before| - |Held(before)|..] + [px[|px| - 1]];
      }
    }
  }

  /** The complete sub-blocks stand for the pixels that are not held back, at an even pace. */
  lemma {:induction false} FlushedPaced(d: seq<Byte>, px: seq<Byte>)
    requires FlushedCodes(px) <= d && |FlushedCodes(px)| < |d| && d[|FlushedCodes(px)|] == CLEAR
    requires forall i :: 0 <= i < |px| ==> px[i] < CLEAR
    ensures Paced(d, |FlushedCodes(px)| + 1, 0) ==> Paced(d, 0, 0)
    ensures |Held(px)| <= |px| && Pixels(d, 0) == px[..|px| - |Held(px)|] + Pixels(d, |FlushedCodes(px)|)
    decreases |px|
  {
    hide Pixels, Flushed, FlushedCodes, Held;
    HeldIsLast(px);
    if px == [] {
      NoPixels();
      assert px[..0] + Pixels(d, 0) == Pixels(d, 0);
    } else {
      var before := px[..|px| - 1];
      HeldIsLast(before);
      BlockFlushed(px);
      var f, h := FlushedCodes(before), Held(before);
      if |h| == 124 {
        var run := h + [px[|px| - 1]];
        RunFlushed(d, f, run, FlushedCodes(px));
        FlushedPaced(d, before);
        LastRun(px, h);
        ClearThenPixels(d, |f|, run, 0);
        Regrouped(px, run, Pixels(d, |FlushedCodes(px)|));
      } else {
        FlushedPaced(d, before);
        assert px[..|px| - |Held(px)|] == before[..|before| - |h|];
      }
    }
  }

  /** A clear code and a run of pixels that end the codes flushed so far. */
  lemma {:induction false} RunFlushed(d: seq<Byte>, f: seq<Byte>, run: seq<Byte>, codes: seq<Byte>)
    requires codes == f + [CLEAR] + run && codes <= d
    ensures |f| + 1 + |run| <= |d| && d[|f|] == CLEAR && d[|f| + 1..|f| + 1 + |run|] == run && f <= d && |f| < |d|
  {
    assert d[|f|] == codes[|f|];
    assert d[|f| + 1..|f| + 1 + |run|] == codes[|f| + 1..] == run;
  }

  lemma {:induction false} LastRun(px: seq<Byte>, h: seq<Byte>)
    requires |px| >= 125 && |h| == 124 && h == px[|px| - 125..|px| - 1] && forall i :: 0 <= i < |px| ==> px[i] < CLEAR
    ensures var run := h + [px[|px| - 1]]; run == px[|px| - 125..] && forall i :: 0 <= i < |run| ==> run[i] < CLEAR
  {
  }

  lemma {:induction false} Regrouped(px: seq<Byte>, run: seq<Byte>, more: seq<Byte>)
    requires |px| >= 125 && |run| == 125 && run == px[|px| - 125..]
    ensures px[..|px| - 125] + (run + more) == px + more && px[..|px|] == px
    ensures px[..|px| - 1][..|px| - 125] == px[..|px| - 125]
  {
    assert px == px[..|px| - 125] + run;
  }

  lemma {:induction false} CodeParts(f: seq<Byte>, h: seq<Byte>)
    ensures var d := f + ([CLEAR] + h + [END]);
            |d| == |f| + |h| + 2 && d[|f|] == CLEAR && d[|f| + 1..|f| + 1 + |h|] == h && d[|f| + 1 + |h|] == END
                && f <= d
  {
    var d := f + ([CLEAR] + h + [END]);
    assert d == f + [CLEAR] + h + [END];
  }

  lemma {:induction false} AtEnd(d: seq<Byte>, k: nat, since: nat)
    requires k < |d| && d[k] == END
    ensures Pixels(d, k) == [] && Paced(d, k, since)
  {
  }

  lemma {:induction false} AtClear(d: seq<Byte>, k: nat)
    requires k < |d| && d[k] == CLEAR
    ensures forall s: nat :: Paced(d, k, s) ==> Paced(d, k + 1, 0)
  {
  }

  /**
   * A decoder run on the image data of a frame, whatever follows it, returns exactly the pixels, and never has
   * to read a code of more than eight bits.
   */
  lemma {:induction false} FrameDecodes(px: seq<Byte>, tail: seq<Byte>)
    requires forall i :: 0 <= i < |px| ==> px[i] < CLEAR
    ensures Decode(Unblock(Frame(px) + tail), 0, 8, Roots(), -1) == Output(px, 8)
  {
    hide Decode, Unblock, Flushed, FlushedCodes, Held, Pixels, Paced;
    FrameUnblocks(px, tail);
    var d, f, h := Codes(px), FlushedCodes(px), Held(px);
    HeldIsLast(px);
    assert d == f + ([CLEAR] + h + [END]);
    CodeParts(f, h);
    FlushedPaced(d, px);
    forall i | 0 <= i < |h|
      ensures h[i] < CLEAR
    {
      assert h[i] == px[|px| - |h| + i];
    }
    ClearThenPixels(d, |f|, h, 0);
    AtEnd(d, |f| + 1 + |h|, |h|);
    AtClear(d, |f|);
    assert px[..|px| - |h|] + (h + []) == px;
    PacedDecodes(d, 0, Roots(), -1, 0);
  }

  // ---------------------------------------------------------------- sizes

  lemma {:induction false} FrameLength(px: seq<Byte>)
    ensures |Held(px)| == |px| % 125 && |Flushed(px)| == 127 * (|px| / 125)
    decreases |px|
  {
    if px != [] {
      FrameLength(px[..|px| - 1]);
      NextQuotient(|px| - 1, 125);
    }
  }

  /** What gif_get_size reckons for the image data of a frame of n pixels. */
  function Reckoned(n: nat): nat
  {
    var pixels := n + 1;
    var lzwOverhead := (pixels / (SUB_BLOCK_SIZE - 1) + 1) * 2;
    pixels + lzwOverhead + 1
  }

  /** The bytes written never exceed the reckoned size, and fall short of it only when n mod 125 is 124. */
  lemma {:induction false} SizeReckoned(px: seq<Byte>)
    ensures |Frame(px)| <= Reckoned(|px|)
    ensures |Frame(px)| == Reckoned(|px|) <==> |px| % 125 != 124
  {
    FrameLength(px);
    NextQuotient(|px|, 125);
  }

  // ---------------------------------------------------------------- the code

  const DOWNSCALE := 4

  /** Every fourth pixel of every fourth line, as a shade of grey. */
  function Shade(image: seq<nat>, gamma: seq<Byte>, width: nat, x: nat, y: nat): Byte
  {
    var i := y * DOWNSCALE * width * DOWNSCALE + x * DOWNSCALE + 1;
    if i < |image| && image[i] / 16 < |gamma| then gamma[image[i] / 16] else 0
  }

  /** The shades in the order in which they are emitted, up to pixel x of line y. */
  function Shades(image: seq<nat>, gamma: seq<Byte>, width: nat, x: nat, y: nat): seq<Byte>
    decreases y, x
  {
    if x > 0 then Shades(image, gamma, width, x - 1, y) + [Shade(image, gamma, width, x - 1, y)]
    else if y > 0 then Shades(image, gamma, width, width, y - 1)
    else []
  }

  /** The indices stay inside the image. */
  lemma {:induction false} PixelInside(width: nat, height: nat, x: nat, y: nat, size: nat)
    requires x < width && y < height && 16 * (width * height) <= size
    ensures y * DOWNSCALE * width * DOWNSCALE + x * DOWNSCALE + 1 < size
  {
    assert y * DOWNSCALE * width * DOWNSCALE == 16 * (y * width);
    ScaleLe(width, y + 1, height);
  }

  /** The sub-block loop of gif_get_data. */
  method EmitFrame(image: seq<nat>, gamma: seq<Byte>, width: nat, height: nat) returns (out: seq<Byte>)
    requires |gamma| == 1024 && 16 * (width * height) <= |image|
    requires forall i :: 0 <= i < |image| ==> image[i] < 0x4000
    ensures out == Frame(Shades(image, gamma, width, 0, height))
    ensures SevenBits(gamma) ==>
              forall tail: seq<Byte> :: Shows(Decode(Unblock(out + tail), 0, 8, Roots(), -1), image, gamma, width, height)
  {
    hide Flushed, Held, Filling, Frame, Shade, Decode, Unblock, Shows;
    StartFilling();
    out := [];
    var subBlock: seq<Byte> := [CLEAR] + Zeros(SUB_BLOCK_SIZE - 1);
    var subBlockPosition: nat := 0;
    ghost var px: seq<Byte> := [];
    for y := 0 to height
      invariant px == Shades(image, gamma, width, 0, y) && Filling(px, out, subBlock, subBlockPosition)
    {
      for x := 0 to width
        invariant px == Shades(image, gamma, width, x, y) && Filling(px, out, subBlock, subBlockPosition)
      {
        PixelInside(width, height, x, y, |image|);
        FillingSizes(px, out, subBlock, subBlockPosition);
        ShadeIs(image, gamma, width, x, y);
        subBlockPosition := subBlockPosition + 1;
        var shade := gamma[image[y * DOWNSCALE * width * DOWNSCALE + x * DOWNSCALE + 1] / 16];
        PixelAdded(px, out, subBlock, subBlockPosition - 1, shade);
        subBlock := subBlock[subBlockPosition := shade];
        if subBlockPosition == SUB_BLOCK_SIZE - 1 {
          out := out + [subBlockPosition + 1] + subBlock[..subBlockPosition + 1];
          subBlockPosition := 0;
          subBlock := [CLEAR] + Zeros(SUB_BLOCK_SIZE - 1);
        }
        px := px + [shade];
      }
    }
    FillingSizes(px, out, subBlock, subBlockPosition);
    LastBlock(px, out, subBlock, subBlockPosition);
    subBlockPosition := subBlockPosition + 1;
    subBlock := subBlock[subBlockPosition := END];
    out := out + [subBlockPosition + 1] + subBlock[..subBlockPosition + 1];
    out := out + [0];
    PreviewShown(image, gamma, width, height);
  }

  // ---------------------------------------------------------------- which pixel is where

  /** Byte x of line y is the shade of the fourth pixel's green neighbour in every fourth line. */
  ghost predicate Pixel(bytes: seq<Byte>, image: seq<nat>, gamma: seq<Byte>, width: nat, x: nat, y: nat)
  {
    var i := 16 * (width * y) + 4 * x + 1;
    && y * width + x < |bytes| && i < |image| && image[i] / 16 < |gamma|
    && bytes[y * width + x] == gamma[image[i] / 16]
  }

  /** A decoder has read the preview of an image, line by line from the top and every line from the left. */
  ghost predicate Shows(d: Decoded, image: seq<nat>, gamma: seq<Byte>, width: nat, height: nat)
  {
    && d.Output? && d.widest == 8 && |d.bytes| == width * height
    && forall x: nat, y: nat :: x < width && y < height ==> Pixel(d.bytes, image, gamma, width, x, y)
  }

  lemma {:induction false} ShadesLength(image: seq<nat>, gamma: seq<Byte>, width: nat, x: nat, y: nat)
    ensures |Shades(image, gamma, width, x, y)| == y * width + x
    decreases y, x
  {
    hide Shade;
    if x > 0 {
      ShadesLength(image, gamma, width, x - 1, y);
    } else if y > 0 {
      ShadesLength(image, gamma, width, width, y - 1);
      assert y * width == (y - 1) * width + width;
    }
  }

  lemma {:induction false} ShadesGrow(image: seq<nat>, gamma: seq<Byte>, width: nat, x: nat, y: nat, x': nat, y': nat)
    requires y < y' || (y == y' && x <= x')
    requires x <= width
    ensures Shades(image, gamma, width, x, y) <= Shades(image, gamma, width, x', y')
    decreases y', x'
  {
    hide Shade;
    if x' > 0 && (y < y' || x < x') {
      ShadesGrow(image, gamma, width, x, y, x' - 1, y');
    } else if y < y' {
      ShadesGrow(image, gamma, width, x, y, width, y' - 1);
    }
  }

  lemma {:induction false} ShadesAt(image: seq<nat>, gamma: seq<Byte>, width: nat, height: nat, x: nat, y: nat)
    requires |gamma| == 1024 && 16 * (width * height) <= |image| && x < width && y < height
    requires forall i :: 0 <= i < |image| ==> image[i] < 0x4000
    ensures Pixel(Shades(image, gamma, width, 0, height), image, gamma, width, x, y)
  {
    hide Shade;
    PixelInside(width, height, x, y, |image|);
    var i := 16 * (width * y) + 4 * x + 1;
    assert i == y * DOWNSCALE * width * DOWNSCALE + x * DOWNSCALE + 1;
    ShadeIs(image, gamma, width, x, y);
    ShadesLength(image, gamma, width, x, y);
    ShadesGrow(image, gamma, width, x + 1, y, 0, height);
    assert Shades(image, gamma, width, x + 1, y)[y * width + x] == gamma[image[i] / 16];
    ShadesLength(image, gamma, width, x + 1, y);
  }

  predicate SevenBits(px: seq<Byte>)
  {
    forall i :: 0 <= i < |px| ==> px[i] < CLEAR
  }

  lemma {:induction false} ShadesBelow(image: seq<nat>, gamma: seq<Byte>, width: nat, x: nat, y: nat)
    requires SevenBits(gamma)
    ensures SevenBits(Shades(image, gamma, width, x, y))
    decreases y, x
  {
    if x > 0 {
      ShadesBelow(image, gamma, width, x - 1, y);
    } else if y > 0 {
      ShadesBelow(image, gamma, width, width, y - 1);
      assert Shades(image, gamma, width, x, y) == Shades(image, gamma, width, width, y - 1);
    }
  }

  /** Whatever follows the image data, the decoder shows the preview. */
  lemma {:induction false} PreviewShown(image: seq<nat>, gamma: seq<Byte>, width: nat, height: nat)
    requires |gamma| == 1024 && 16 * (width * height) <= |image|
    requires forall i :: 0 <= i < |image| ==> image[i] < 0x4000
    ensures SevenBits(gamma) ==>
              forall tail: seq<Byte> ::
                Shows(Decode(Unblock(Frame(Shades(image, gamma, width, 0, height)) + tail), 0, 8, Roots(), -1),
                      image, gamma, width, height)
  {
    hide Decode, Unblock, Frame, Shades, Pixel;
    if SevenBits(gamma) {
      var px := Shades(image, gamma, width, 0, height);
      ShadesBelow(image, gamma, width, 0, height);
      ShadesLength(image, gamma, width, 0, height);
      assert |px| == width * height;
      forall x: nat, y: nat | x < width && y < height
        ensures Pixel(px, image, gamma, width, x, y)
      {
        ShadesAt(image, gamma, width, height, x, y);
      }
      forall tail: seq<Byte>
        ensures Shows(Decode(Unblock(Frame(px) + tail), 0, 8, Roots(), -1), image, gamma, width, height)
      {
        FrameDecodes(px, tail);
      }
    }
  }

  // ---------------------------------------------------------------- the shades

  /** The brightness of the i-th of 1024 levels; log2 stands for log2f. */
  function Brightness(log2: nat -> real, black: nat, i: nat): int
  {
    if i > black then (log2(i - black) * 255.0 / 10.0).Floor else 0
  }

  /** The logarithms of 1 to 1023 lie between 0 and 10. */
  ghost predicate Logarithm(log2: nat -> real)
  {
    forall n {:trigger log2(n)} :: 1 <= n < 1024 ==> 0.0 <= log2(n) <= 10.0
  }

  ghost predicate Grows(log2: nat -> real)
  {
    forall m, n {:trigger log2(m), log2(n)} :: 1 <= m <= n < 1024 ==> log2(m) <= log2(n)
  }

  function Squared(g: nat): nat
  {
    g * g / 255 / 2
  }

  lemma {:induction false} SquaredGrows(a: nat, b: nat)
    requires a <= b <= 255
    ensures Squared(a) <= Squared(b) <= 127
  {
    if a > 0 { ScaleLe(a, a, b); }
    if b > 0 {
      ScaleLe(b, a, b);
      ScaleLe(b, b, 255);
    }
    assert a * a <= b * b <= 255 * 255;
  }

  lemma {:induction false} Brighter(log2: nat -> real, black: nat, i: nat, j: nat)
    requires Logarithm(log2) && i <= j < 1024
    ensures 0 <= Brightness(log2, black, i) <= 255
    ensures Grows(log2) ==> Brightness(log2, black, i) <= Brightness(log2, black, j)
  {
    if i > black {
      assert 0.0 <= log2(i - black) <= 10.0;
      if Grows(log2) { assert log2(i - black) <= log2(j - black); }
    } else if j > black {
      assert 0.0 <= log2(j - black) <= 10.0;
    }
  }

  /** The shades of the 1024 levels: seven bits, so that no pixel is taken for a clear or an end code. */
  method GammaTable(log2: nat -> real, blackLevel: nat) returns (gamma: seq<Byte>)
    requires Logarithm(log2)
    ensures |gamma| == 1024 && SevenBits(gamma)
    ensures forall i :: 0 <= i < 1024 && i <= blackLevel / 16 ==> gamma[i] == 0
    ensures Grows(log2) ==> forall i, j :: 0 <= i <= j < 1024 ==> gamma[i] <= gamma[j]
  {
    hide Squared, Logarithm, Grows;
    gamma := [];
    var black := blackLevel / 16;
    for i := 0 to 1024
      invariant |gamma| == i && forall j :: 0 <= j < i ==> gamma[j] < CLEAR && (j <= black ==> gamma[j] == 0)
      invariant Grows(log2) ==> forall j, k :: 0 <= j <= k < i ==> gamma[j] <= gamma[k]
      invariant i > 0 ==> 0 <= Brightness(log2, black, i - 1) <= 255
                          && gamma[i - 1] == Squared(Brightness(log2, black, i - 1))
    {
      Brighter(log2, black, i, i);
      if i > 0 { Brighter(log2, black, i - 1, i); }
      var g := if i > black then (log2(i - black) * 255.0 / 10.0).Floor else 0;
      SquaredIs(g);
      SquaredGrows(g, 255);
      if i > 0 && Grows(log2) { SquaredGrows(Brightness(log2, black, i - 1), g); }
      gamma := gamma + [g * g / 255 / 2];
    }
  }

  lemma {:induction false} SquaredIs(g: nat)
    ensures Squared(g) == g * g / 255 / 2 && Squared(0) == 0
  {
  }

  function Zeros(n: nat): (r: seq<Byte>)
    ensures |r| == n
  {
    seq<Byte>(n, _ => 0)
  }

  /** The output and the sub-block being filled, after the pixels px. */
  ghost predicate Filling(px: seq<Byte>, out: seq<Byte>, subBlock: seq<Byte>, position: nat)
  {
    && out == Flushed(px) && |subBlock| == SUB_BLOCK_SIZE && position == |Held(px)|
    && subBlock[0] == CLEAR && subBlock[1..position + 1] == Held(px)
  }

  lemma {:induction false} StartFilling()
    ensures Filling([], [], [CLEAR] + Zeros(SUB_BLOCK_SIZE - 1), 0)
  {
  }

  lemma {:induction false} FillingSizes(px: seq<Byte>, out: seq<Byte>, subBlock: seq<Byte>, position: nat)
    requires Filling(px, out, subBlock, position)
    ensures |subBlock| == SUB_BLOCK_SIZE && position <= 124
  {
    assert |Held(px)| <= 124;
  }

  lemma {:induction false} ShadeIs(image: seq<nat>, gamma: seq<Byte>, width: nat, x: nat, y: nat)
    ensures var i := y * DOWNSCALE * width * DOWNSCALE + x * DOWNSCALE + 1;
            i < |image| && image[i] / 16 < |gamma| ==> Shade(image, gamma, width, x, y) == gamma[image[i] / 16]
  {
  }

  lemma {:induction false} LastBlock(px: seq<Byte>, out: seq<Byte>, subBlock: seq<Byte>, position: nat)
    requires Filling(px, out, subBlock, position) && position <= 124
    ensures var last := subBlock[position + 1 := END];
            out + [position + 2] + last[..position + 2] + [0] == Frame(px)
  {
    var last := subBlock[position + 1 := END];
    assert last[..position + 2] == [CLEAR] + subBlock[1..position + 1] + [END];
    assert out + [position + 2] + ([CLEAR] + Held(px) + [END]) + [0]
        == Flushed(px) + [|Held(px)| + 2, CLEAR] + Held(px) + [END, 0];
  }

  lemma {:induction false} PixelAdded(px: seq<Byte>, out: seq<Byte>, subBlock: seq<Byte>, position: nat, b: Byte)
    requires Filling(px, out, subBlock, position)
    ensures var next := subBlock[position + 1 := b];
            if position + 1 == SUB_BLOCK_SIZE - 1
            then Filling(px + [b], out + [SUB_BLOCK_SIZE] + next[..SUB_BLOCK_SIZE], [CLEAR] + Zeros(SUB_BLOCK_SIZE - 1), 0)
            else Filling(px + [b], out, next, position + 1)
  {
    assert (px + [b])[..|px|] == px;
    var next := subBlock[position + 1 := b];
    assert next[1..position + 2] == Held(px) + [b];
    assert next[..position + 2] == [CLEAR] + next[1..position + 2];
    if position + 1 == SUB_BLOCK_SIZE - 1 {
      assert out + [126] + next[..126] == Flushed(px) + [126, CLEAR] + Held(px) + [b];
    }
  }
}
