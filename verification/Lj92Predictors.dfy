/** What the predictors of a lossless JPEG scan do to an image, told by the pixels that come out. */
module Lj92Predictors {
  import opened Bits
  import opened Modular
  import opened HuffmanTree
  import opened BitStrings
  import opened Lj92Model
  import opened Lj92Decoder

  /** The residuals of the first n pixels of a scan. */
  ghost function Residuals(mem: Memory, start: nat, t: Table, pred: nat, w: nat, depth: nat, n: nat): (r: seq<int>)
    requires TableOk(t) && w >= 1
    ensures |r| == n
  {
    if n == 0 then []
    else Residuals(mem, start, t, pred, w, depth, n - 1)
         + [DiffAt(mem, start, t, Scan(mem, start, t, pred, w, depth, n - 1).1).0]
  }

  /** Every pixel is its prediction and its residual. */
  predicate Composed(px: seq<int>, r: seq<int>, pred: nat, w: nat, depth: nat)
    requires w >= 1
  {
    |r| == |px| && forall k :: 0 <= k < |px| ==> px[k] == Predict(pred, px, w, depth, k) + r[k]
  }

  lemma {:induction false} ResidualOf(mem: Memory, start: nat, t: Table, pred: nat, w: nat, depth: nat, n: nat, k: nat)
    requires TableOk(t) && w >= 1 && k < n
    ensures Residuals(mem, start, t, pred, w, depth, n)[k]
            == DiffAt(mem, start, t, Scan(mem, start, t, pred, w, depth, k).1).0
  {
    hide TableOk, DiffAt, Scan;
    if k < n - 1 { ResidualOf(mem, start, t, pred, w, depth, n - 1, k); }
  }

  lemma {:induction false} ScanComposed(mem: Memory, start: nat, t: Table, pred: nat, w: nat, depth: nat, n: nat)
    requires TableOk(t) && w >= 1
    ensures Composed(Scan(mem, start, t, pred, w, depth, n).0, Residuals(mem, start, t, pred, w, depth, n), pred, w, depth)
  {
    hide TableOk, DiffAt, Scan, Predict, Residuals;
    var px := Scan(mem, start, t, pred, w, depth, n).0;
    assert |px| == n by { ScanCount(mem, start, t, pred, w, depth, n); }
    assert |Residuals(mem, start, t, pred, w, depth, n)| == n;
    forall k | 0 <= k < n
      ensures px[k] == Predict(pred, px, w, depth, k) + Residuals(mem, start, t, pred, w, depth, n)[k]
    {
      ScanNext(mem, start, t, pred, w, depth, k, n);
      ResidualOf(mem, start, t, pred, w, depth, n, k);
    }
  }

  lemma {:induction false} ScanCount(mem: Memory, start: nat, t: Table, pred: nat, w: nat, depth: nat, n: nat)
    requires TableOk(t) && w >= 1
    ensures |Scan(mem, start, t, pred, w, depth, n).0| == n
  {
    hide TableOk, DiffAt;
  }

  /**
   * On the edge every predictor does the same: the first pixel is predicted as half the range, the others of the first
   * row from the left, and the first of each further row from above.
   */
  lemma {:induction false} Edges(px: seq<int>, r: seq<int>, pred: nat, w: nat, depth: nat, k: nat)
    requires w >= 1 && depth >= 1 && Composed(px, r, pred, w, depth) && k < |px|
    ensures k == 0 ==> 2 * (px[k] - r[k]) == Pow2(depth)
    ensures 0 < k < w ==> px[k] - r[k] == px[k - 1]
    ensures k >= w && k % w == 0 ==> px[k] - r[k] == U16(px[k - w])
  {
    hide U16, Select;
    assert px[k] == Predict(pred, px, w, depth, k) + r[k];
  }

  /**
   * Inside, with the neighbours a to the left, b above and c above to the left: predictors 1 to 3 take one of them, 4
   * goes along both differences, 5 corrects a by half of what b differs from c, 6 corrects b by half of what a differs
   * from c, and 7 takes the mean of a and b, all halves rounded down.
   */
  lemma {:induction false} Inside(px: seq<int>, r: seq<int>, pred: nat, w: nat, depth: nat, k: nat)
    requires w >= 1 && Composed(px, r, pred, w, depth) && w <= k < |px| && k % w != 0
    ensures var a, b, c, guess := px[k - 1], U16(px[k - w]), U16(px[k - w - 1]), px[k] - r[k];
            && (pred == 0 ==> guess == 0)
            && (pred == 1 ==> guess == a) && (pred == 2 ==> guess == b) && (pred == 3 ==> guess == c)
            && (pred == 4 ==> guess - a == b - c && guess - b == a - c)
            && (pred == 5 ==> 2 * (guess - a) <= b - c < 2 * (guess - a) + 2)
            && (pred == 6 ==> 2 * (guess - b) <= a - c < 2 * (guess - b) + 2)
            && (pred == 7 ==> 2 * guess <= a + b < 2 * guess + 2)
  {
    hide U16;
    assert px[k] == Predict(pred, px, w, depth, k) + r[k];
  }

  // ---------------------------------------------------------------- without residuals

  /** All pixels are 16-bit values, and those behind the first row and column have no residual. */
  predicate Plain(px: seq<int>, r: seq<int>, w: nat)
    requires w >= 1
  {
    && |r| == |px| && (forall k :: 0 <= k < |px| ==> 0 <= px[k] < 0x1_0000)
    && forall k :: w <= k < |px| && k % w != 0 ==> r[k] == 0
  }

  /** Where pixel col of a row stands, and its neighbours. */
  lemma {:induction false} PlaceOf(row: nat, col: nat, w: nat)
    requires col < w
    ensures (row * w + col) % w == col && row * w >= 0
    ensures row >= 1 ==> (row - 1) * w == row * w - w && row * w >= w
  {
    QuotientOf(row * w + col, w, row, col);
    if row >= 1 { ScaleLe(w, 1, row); } else { assert row * w == 0; }
  }

  lemma {:induction false} PlainInside(px: seq<int>, r: seq<int>, pred: nat, w: nat, depth: nat, row: nat, col: nat)
    requires w >= 1 && Composed(px, r, pred, w, depth) && Plain(px, r, w)
    requires row >= 1 && 1 <= col < w && row * w + col < |px|
    ensures row * w >= w && (row - 1) * w == row * w - w
    ensures var k := row * w + col;
            var a, b, c := px[k - 1], px[k - w], px[k - w - 1];
            && (pred == 1 ==> px[k] == a) && (pred == 2 ==> px[k] == b) && (pred == 3 ==> px[k] == c)
            && (pred == 4 ==> px[k] == a + b - c)
  {
    hide Composed, Select;
    PlaceOf(row, col, w);
    Inside(px, r, pred, w, depth, row * w + col);
  }

  /** Predictor 1 repeats the first pixel of each row. */
  lemma {:induction false} RowsRepeat(px: seq<int>, r: seq<int>, w: nat, depth: nat, row: nat, col: nat)
    requires w >= 1 && Composed(px, r, 1, w, depth) && Plain(px, r, w)
    requires row >= 1 && col < w && row * w + col < |px|
    ensures row * w >= 0 && px[row * w + col] == px[row * w]
    decreases col
  {
    hide Composed, Plain;
    PlaceOf(row, col, w);
    if col >= 1 {
      PlainInside(px, r, 1, w, depth, row, col);
      RowsRepeat(px, r, w, depth, row, col - 1);
    }
  }

  /** Predictor 2 repeats the first pixel of each column. */
  lemma {:induction false} ColumnsRepeat(px: seq<int>, r: seq<int>, w: nat, depth: nat, row: nat, col: nat)
    requires w >= 1 && Composed(px, r, 2, w, depth) && Plain(px, r, w)
    requires 1 <= col < w && row * w + col < |px|
    ensures row * w >= 0 && px[row * w + col] == px[col]
    decreases row
  {
    hide Composed, Plain;
    PlaceOf(row, col, w);
    if row >= 1 {
      PlainInside(px, r, 2, w, depth, row, col);
      ColumnsRepeat(px, r, w, depth, row - 1, col);
    } else {
      assert row * w == 0;
    }
  }

  /** Predictor 3 repeats the first pixel of each diagonal. */
  lemma {:induction false} DiagonalsRepeat(px: seq<int>, r: seq<int>, w: nat, depth: nat, row: nat, col: nat)
    requires w >= 1 && Composed(px, r, 3, w, depth) && Plain(px, r, w)
    requires col < w && row * w + col < |px|
    ensures 0 <= (row - col) * w < |px| || row < col
    ensures row * w >= 0 && px[row * w + col] == if row < col then px[col - row] else px[(row - col) * w]
    decreases row
  {
    hide Composed, Plain;
    PlaceOf(row, col, w);
    if row >= 1 && col >= 1 {
      PlainInside(px, r, 3, w, depth, row, col);
      DiagonalsRepeat(px, r, w, depth, row - 1, col - 1);
    } else if row == 0 {
      assert row * w == 0;
    }
  }

  /** Predictor 4 adds up what the first row and the first column say. */
  lemma {:induction false} EdgesAddUp(px: seq<int>, r: seq<int>, w: nat, depth: nat, row: nat, col: nat)
    requires w >= 1 && Composed(px, r, 4, w, depth) && Plain(px, r, w)
    requires col < w && row * w + col < |px|
    ensures row * w >= 0 && px[row * w + col] == px[row * w] + px[col] - px[0]
    decreases row, col
  {
    hide Composed, Plain;
    PlaceOf(row, col, w);
    if row >= 1 && col >= 1 {
      PlainInside(px, r, 4, w, depth, row, col);
      EdgesAddUp(px, r, w, depth, row, col - 1);
      EdgesAddUp(px, r, w, depth, row - 1, col);
      EdgesAddUp(px, r, w, depth, row - 1, col - 1);
    } else if row == 0 {
      assert row * w == 0;
    }
  }

  // ---------------------------------------------------------------- categories

  /**
   * The category counts the bits of the absolute value, and the extra bits are the value itself, or for a negative
   * residual its complement, so that they begin with a zero exactly there.
   */
  lemma {:induction false} ExtraBits(d: int)
    ensures d == 0 <==> Category(d) == 0
    ensures d > 0 ==> Pow2(Category(d) - 1) <= d < Pow2(Category(d)) && Extra(d) == d
    ensures d < 0 ==> Pow2(Category(d) - 1) <= -d < Pow2(Category(d)) && Extra(d) == Pow2(Category(d)) - 1 - (-d)
                      && Extra(d) < Pow2(Category(d) - 1)
  {
    BitLengthBound(Abs(d));
  }
}
