/**
 * The encoder of lj92.c: frequency scan, Huffman table, header and entropy-coded scan.
 */
module Lj92Encoder {
  import opened Bits
  import opened BitStrings
  import opened HuffmanTree
  import opened HuffmanCodes
  import opened HuffmanOptimal
  import opened Lj92Model
  import opened Modular

  const CATEGORIES := 17

  // ---------------------------------------------------------------- walking over the image

  /** Where the counters stand before pixel k: column, row and, in a line of len pixels, how many are left. */
  predicate Placed(k: int, width: nat, col: nat, row: nat, len: nat, left: int)
  {
    && width >= 1 && k >= 0 && col == k % width && (row == 0 <==> k < width) && (k >= width ==> k - col >= width)
    && left == if len > 0 then len - k % len else 0 - k
  }

  lemma {:induction false} PlacedNext(k: int, width: nat, col: nat, row: nat, len: nat, left: int)
    requires Placed(k, width, col, row, len, left)
    ensures col < width && (k < width ==> k == col)
    ensures left - 1 == 0 <==> len > 0 && (k + 1) % len == 0
    ensures Placed(k + 1, width, if col + 1 == width then 0 else col + 1, if col + 1 == width then row + 1 else row,
                   len, if left - 1 == 0 then len else left - 1)
  {
    NextQuotient(k, width);
    if len > 0 { NextQuotient(k, len); }
    if k < width { QuotientOf(k, width, 0, k); }
    if k >= width && col + 1 < width { }
  }

  lemma {:induction false} PlacedStart(width: nat, len: nat)
    requires width >= 1
    ensures Placed(0, width, 0, 0, len, len)
  {
    QuotientOf(0, width, 0, 0);
    if len > 0 { QuotientOf(0, len, 0, 0); }
  }

  /** The prediction out of the row buffers is the one of the model. */
  lemma {:induction false} PredictFromRows(px: seq<int>, k: nat, width: nat, col: nat, row: nat, len: nat, left: int,
                                           depth: nat, above: seq<int>, current: seq<int>)
    requires Placed(k, width, col, row, len, left) && Rows(px, k, width, col, above, current)
    requires forall i :: 0 <= i < |px| ==> 0 <= px[i] < 0x1_0000
    ensures col < width
    ensures Predict(6, px, width, depth, k)
            == if row == 0 && col == 0 then Middle(depth)
               else if row == 0 then current[col - 1]
               else if col == 0 then above[col]
               else above[col] + (current[col - 1] - above[col - 1]) / 2
  {
    PlacedNext(k, width, col, row, len, left);
    hide Middle;
    if k >= width {
      assert U16(px[k - width]) == px[k - width] == above[col];
      if col > 0 {
        assert U16(px[k - width - 1]) == px[k - width - 1] == above[col - 1];
      }
    }
  }

  /** The image memory shows pixel k at its place. */
  ghost predicate Shows(image: seq<int>, len: nat, skip: nat, px: seq<int>)
  {
    forall i :: 0 <= i < |px| ==>
      var at := Spot(i, len, skip); at < |image| && image[at] == px[i] && 0 <= px[i] < 0x1_0000
  }

  /**
   * The loop shared by frequencyScan and writeBody: it runs over the pixels of a tile and predicts each of
   * them from two row buffers.
   */
  class Walker {
    const image: seq<int>
    const width: nat
    const bitdepth: nat
    const readLength: nat
    const skipLength: nat
    ghost const px: seq<int>
    var pixel: nat
    var scan: int
    var col: nat
    var row: nat
    var above: array<int>
    var current: array<int>
    ghost var k: nat

    ghost predicate Valid()
      reads this, above, current
    {
      && above != current && Shows(image, readLength, skipLength, px)
      && Placed(k, width, col, row, readLength, scan) && pixel == Spot(k, readLength, skipLength)
      && Rows(px, k, width, col, above[..], current[..])
    }

    constructor (image: seq<int>, width: nat, bitdepth: nat, readLength: nat, skipLength: nat, ghost px: seq<int>)
      requires width >= 1 && Shows(image, readLength, skipLength, px)
      ensures Valid() && k == 0 && fresh(above) && fresh(current) && this.px == px && this.width == width
      ensures this.bitdepth == bitdepth
    {
      this.image, this.width, this.bitdepth := image, width, bitdepth;
      this.readLength, this.skipLength, this.px := readLength, skipLength, px;
      pixel, scan, col, row, k := 0, readLength, 0, 0, 0;
      above := new int[width](_ => 0);
      current := new int[width](_ => 0);
      new;
      PlacedStart(width, readLength);
    }

    /** What is left of pixel k after prediction; the pixel goes into the row buffer. */
    method Predicted() returns (diff: int)
      requires Valid() && k < |px|
      modifies current
      ensures Valid() && col < width && current[col] == px[k]
      ensures diff == px[k] - Predict(6, px, width, bitdepth, k)
    {
      hide Predict, Shows, Placed, Rows, Middle;
      ShownPixel(image, readLength, skipLength, px, k);
      PredictFromRows(px, k, width, col, row, readLength, scan, bitdepth, above[..], current[..]);
      RowsLength(px, k, width, col, above[..], current[..]);
      var p := image[pixel];
      var predicted: int;
      if row == 0 && col == 0 {
        predicted := Middle(bitdepth);
      } else if row == 0 {
        predicted := current[col - 1];
      } else if col == 0 {
        predicted := above[col];
      } else {
        predicted := above[col] + (current[col - 1] - above[col - 1]) / 2;
      }
      diff := p - predicted;
      RowsWrite(px, k, width, col, above[..], current[..], p);
      ghost var before := current[..];
      current[col] := p;
      assert current[..] == before[col := p];
    }

    /** Moves on by one pixel, over the skipped ones at the end of a line, and to the next row. */
    method Advance()
      requires Valid() && k < |px| && col < width && current[col] == px[k]
      modifies this`pixel, this`scan, this`col, this`row, this`above, this`current, this`k
      ensures Valid() && k == old(k) + 1
      ensures {above, current} == old({above, current})
    {
      hide Shows, Placed, Rows;
      PlacedNext(k, width, col, row, readLength, scan);
      RowsLength(px, k, width, col, above[..], current[..]);
      assert current[..][col] == px[k];
      RowsNext(px, k, width, col, above[..], current[..]);
      pixel := pixel + 1;
      scan := scan - 1;
      col := col + 1;
      k := k + 1;
      if scan == 0 {
        pixel := pixel + skipLength;
        scan := readLength;
      }
      if col == width {
        above, current := current, above;
        col := 0;
        row := row + 1;
      }
    }

    /** Reads the next pixel and returns what is left of it after prediction. */
    method Next() returns (diff: int)
      requires Valid() && k < |px|
      modifies this`pixel, this`scan, this`col, this`row, this`above, this`current, this`k, current
      ensures Valid() && k == old(k) + 1
      ensures {above, current} == old({above, current})
      ensures diff == px[old(k)] - Predict(6, px, width, bitdepth, old(k))
    {
      diff := Predicted();
      Advance();
    }
  }

  lemma {:induction false} ShownPixel(image: seq<int>, len: nat, skip: nat, px: seq<int>, k: nat)
    requires Shows(image, len, skip, px) && k < |px|
    ensures Spot(k, len, skip) < |image| && image[Spot(k, len, skip)] == px[k]
    ensures forall i :: 0 <= i < |px| ==> 0 <= px[i] < 0x1_0000
  {
  }

  // ---------------------------------------------------------------- frequencies

  /** How many of the first n pixels have residuals of category s. */
  function Occurrences(px: seq<int>, w: nat, depth: nat, s: nat, n: nat): nat
    requires n <= |px| && w >= 1
  {
    if n == 0 then 0
    else Occurrences(px, w, depth, s, n - 1) + if Category(Residual(px, w, depth, n - 1)) == s then 1 else 0
  }

  lemma {:induction false} OccursOnce(px: seq<int>, w: nat, depth: nat, k: nat, n: nat)
    requires k < n <= |px| && w >= 1
    ensures Occurrences(px, w, depth, Category(Residual(px, w, depth, k)), n) >= 1
  {
    if k < n - 1 { OccursOnce(px, w, depth, k, n - 1); }
  }

  function SumOf(h: seq<nat>, n: nat): nat
    requires n <= |h|
  {
    if n == 0 then 0 else SumOf(h, n - 1) + h[n - 1]
  }

  /** The categories s < n that occur. */
  function Kinds(hist: seq<nat>, n: nat): nat
    requires n <= |hist|
  {
    if n == 0 then 0 else Kinds(hist, n - 1) + if hist[n - 1] > 0 then 1 else 0
  }

  lemma {:induction false} SumIncremented(h: seq<nat>, s: nat, n: nat)
    requires s < |h| && n <= |h|
    ensures SumOf(h[s := h[s] + 1], n) == SumOf(h, n) + if s < n then 1 else 0
  {
    if n > 0 { SumIncremented(h, s, n - 1); }
  }

  /** The histogram of the residual categories of an image. */
  ghost predicate Histogram(hist: seq<nat>, px: seq<int>, w: nat, depth: nat, n: nat)
    requires n <= |px| && w >= 1
  {
    && |hist| == CATEGORIES && SumOf(hist, CATEGORIES) == n
    && forall s :: 0 <= s < CATEGORIES ==> hist[s] == Occurrences(px, w, depth, s, n)
  }

  /** frequencyScan. */
  method FrequencyScan(image: seq<int>, width: nat, height: nat, bitdepth: nat, readLength: nat, skipLength: nat,
                       ghost px: seq<int>)
    returns (hist: seq<nat>)
    requires width >= 1 && 1 <= bitdepth <= 15 && |px| == width * height
    requires Shows(image, readLength, skipLength, px) && PixelsFit(px, bitdepth)
    ensures Histogram(hist, px, width, bitdepth, |px|)
  {
    hide PixelsFit, Shows, Category, Predict, SumOf;
    hist := seq<nat>(CATEGORIES, _ => 0);
    var pixcount := width * height;
    var walker := new Walker(image, width, bitdepth, readLength, skipLength, px);
    EmptyHistogram(hist, px, width, bitdepth);
    while pixcount > 0
      invariant walker.Valid() && walker.px == px && walker.width == width && walker.bitdepth == bitdepth
      invariant fresh(walker) && fresh(walker.above) && fresh(walker.current)
      invariant walker.k + pixcount == |px| && Histogram(hist, px, width, bitdepth, walker.k)
    {
      CategoryBound(px, width, bitdepth, walker.k);
      var diff := walker.Next();
      var ssss := Category(diff);
      SumIncremented(hist, ssss, CATEGORIES);
      hist := hist[ssss := hist[ssss] + 1];
      pixcount := pixcount - 1;
    }
  }

  lemma {:induction false} EmptyHistogram(hist: seq<nat>, px: seq<int>, w: nat, depth: nat)
    requires |hist| == CATEGORIES && w >= 1 && forall s :: 0 <= s < CATEGORIES ==> hist[s] == 0
    ensures Histogram(hist, px, w, depth, 0)
  {
    SumZero(hist, CATEGORIES);
  }

  lemma {:induction false} SumZero(h: seq<nat>, n: nat)
    requires n <= |h| && forall s :: 0 <= s < |h| ==> h[s] == 0
    ensures SumOf(h, n) == 0
  {
    if n > 0 { SumZero(h, n - 1); }
  }

  // ---------------------------------------------------------------- the Huffman table

  lemma {:induction false} FrequencyTotal(freq: seq<real>, hist: seq<nat>, total: nat, n: nat)
    requires total > 0 && n <= |hist| <= |freq|
    requires forall i :: 0 <= i < |hist| ==> Near(freq[i], hist[i] as real / total as real)
    ensures Total(freq, n) <= 1.01 * (SumOf(hist, n) as real / total as real)
  {
    if n > 0 {
      FrequencyTotal(freq, hist, total, n - 1);
      AddFractions(SumOf(hist, n - 1) as real, hist[n - 1] as real, total as real);
    }
  }

  lemma {:induction false} AddFractions(a: real, b: real, t: real)
    requires t > 0.0
    ensures a / t + b / t == (a + b) / t
  {
  }

  lemma {:induction false} FractionSign(a: nat, t: nat, x: real)
    requires t > 0 && Near(x, a as real / t as real)
    ensures x >= 0.0 && (x > 0.0 <==> a > 0)
  {
  }

  lemma {:induction false} PositiveKinds(freq: seq<real>, hist: seq<nat>, n: nat)
    requires n <= |freq| && n <= |hist| && forall i :: 0 <= i < n ==> (freq[i] > 0.0 <==> hist[i] > 0)
    ensures Positive(freq, n) == Kinds(hist, n)
  {
    if n > 0 { PositiveKinds(freq, hist, n - 1); }
  }

  lemma {:induction false} PositiveHas(freq: seq<real>, i: nat, n: nat)
    requires i < n <= |freq| && freq[i] > 0.0
    ensures Positive(freq, n) >= 1
  {
    if i < n - 1 { PositiveHas(freq, i, n - 1); }
  }

  /** The relative frequencies of the categories, rounded, and 1.0 for the spare leaf. */
  method Frequencies(hist: seq<nat>, total: nat, f: Floats) returns (freq: array<real>)
    requires |hist| == CATEGORIES && SumOf(hist, CATEGORIES) == total > 0 && Kinds(hist, CATEGORIES) <= LONGEST
    requires Rounds(f)
    ensures fresh(freq) && freq.Length == LEAVES && Total(freq[..], LEAVES) <= 2.02
    ensures freq[17] == 1.0 && forall i :: 0 <= i < CATEGORIES ==> Near(freq[i], hist[i] as real / total as real)
    ensures forall i :: 0 <= i < LEAVES ==> freq[i] >= 0.0 && (freq[i] > 0.0 <==> i == 17 || hist[i] > 0)
    ensures 2 <= Positive(freq[..], LEAVES) <= LONGEST + 1
  {
    hide SumOf;
    freq := new real[LEAVES](_ => 0.0);
    for i := 0 to CATEGORIES
      invariant forall j :: 0 <= j < i ==> Near(freq[j], hist[j] as real / total as real)
    {
      freq[i] := f.div(hist[i], total);
    }
    freq[CATEGORIES] := 1.0;
    forall i | 0 <= i < CATEGORIES
      ensures freq[i] >= 0.0 && (freq[i] > 0.0 <==> hist[i] > 0)
    {
      FractionSign(hist[i], total, freq[i]);
    }
    AllFrequencies(freq[..], hist, total);
  }

  lemma {:induction false} AllFrequencies(freq: seq<real>, hist: seq<nat>, total: nat)
    requires |hist| == CATEGORIES && SumOf(hist, CATEGORIES) == total > 0 && Kinds(hist, CATEGORIES) <= LONGEST
    requires |freq| == LEAVES && freq[17] == 1.0
    requires forall i :: 0 <= i < CATEGORIES ==> Near(freq[i], hist[i] as real / total as real)
    requires forall i :: 0 <= i < CATEGORIES ==> freq[i] >= 0.0 && (freq[i] > 0.0 <==> hist[i] > 0)
    ensures Total(freq, LEAVES) <= 2.02 && 2 <= Positive(freq, LEAVES) <= LONGEST + 1
  {
    hide SumOf, Total, Positive;
    FrequencyTotal(freq, hist, total, CATEGORIES);
    Whole(total);
    SomeCategory(hist, freq);
    PositiveKinds(freq, hist, CATEGORIES);
    OneMoreWeight(freq, 17);
  }

  lemma {:induction false} Whole(t: nat)
    requires t > 0
    ensures t as real / t as real == 1.0
  {
  }

  lemma {:induction false} OneMoreWeight(freq: seq<real>, n: nat)
    requires n < |freq|
    ensures Total(freq, n + 1) == Total(freq, n) + freq[n]
    ensures Positive(freq, n + 1) == Positive(freq, n) + if freq[n] > 0.0 then 1 else 0
  {
  }

  lemma {:induction false} SomeAdded(hist: seq<nat>, n: nat) returns (i: nat)
    requires n <= |hist| && SumOf(hist, n) > 0
    ensures i < n && hist[i] > 0
  {
    if hist[n - 1] > 0 { i := n - 1; } else { i := SomeAdded(hist, n - 1); }
  }

  lemma {:induction false} SomeCategory(hist: seq<nat>, freq: seq<real>)
    requires |hist| == CATEGORIES <= |freq| && SumOf(hist, CATEGORIES) > 0
    requires forall i :: 0 <= i < CATEGORIES && hist[i] > 0 ==> freq[i] > 0.0
    ensures Positive(freq, CATEGORIES) >= 1
  {
    var i := SomeAdded(hist, CATEGORIES);
    PositiveHas(freq, i, CATEGORIES);
  }

  /** bits[]: how many code words of each length. */
  method CountLengths(codesize: array<nat>) returns (bits: seq<nat>)
    requires codesize.Length == LEAVES && forall i :: 0 <= i < LEAVES ==> codesize[i] <= LONGEST
    ensures |bits| == LONGEST + 1 && bits[0] == 0
    ensures forall l :: 1 <= l <= LONGEST ==> bits[l] == CountOf(codesize[..], l, LEAVES)
  {
    bits := seq<nat>(LONGEST + 1, _ => 0);
    for i := 0 to LEAVES
      invariant |bits| == LONGEST + 1 && bits[0] == 0
      invariant forall l :: 1 <= l <= LONGEST ==> bits[l] == CountOf(codesize[..], l, i)
    {
      if codesize[i] != 0 {
        bits := bits[codesize[i] := bits[codesize[i]] + 1];
      }
    }
  }

  /** The leaves i < n with a code word of at most l bits. */
  function UsedUpTo(cs: seq<nat>, l: nat, n: nat): nat
    requires n <= |cs|
  {
    if n == 0 then 0 else UsedUpTo(cs, l, n - 1) + if 1 <= cs[n - 1] <= l then 1 else 0
  }

  lemma {:induction false} UsedByLength(cs: seq<nat>, l: nat, n: nat)
    requires 1 <= l && n <= |cs|
    ensures UsedUpTo(cs, l, n) == UsedUpTo(cs, l - 1, n) + CountOf(cs, l, n)
    ensures UsedUpTo(cs, l, n) <= n
  {
    if n > 0 { UsedByLength(cs, l, n - 1); }
  }

  lemma {:induction false} CountGrows(cs: seq<nat>, l: nat, m: nat, n: nat)
    requires m <= n <= |cs|
    ensures CountOf(cs, l, m) <= CountOf(cs, l, n)
    decreases n
  {
    if m < n { CountGrows(cs, l, m, n - 1); }
  }

  lemma {:induction false} UsedNone(cs: seq<nat>, n: nat)
    requires n <= |cs|
    ensures UsedUpTo(cs, 0, n) == 0
  {
    if n > 0 { UsedNone(cs, n - 1); }
  }

  lemma {:induction false} UsedAll(cs: seq<nat>, l: nat, n: nat)
    requires n <= |cs| && l >= LONGEST && forall i :: 0 <= i < |cs| ==> cs[i] <= LONGEST
    ensures UsedUpTo(cs, l, n) == UsedUpTo(cs, LONGEST, n)
  {
    if n > 0 { UsedAll(cs, l, n - 1); }
  }

  /** The number of code words is the number of used leaves. */
  lemma {:induction false} LensCount(bits: seq<nat>, cs: seq<nat>, l: nat)
    requires l < |bits| && forall i :: 1 <= i < |bits| ==> bits[i] == CountOf(cs, i, |cs|)
    ensures |Lens(bits, l)| == UsedUpTo(cs, l, |cs|)
  {
    if l == 0 {
      UsedNone(cs, |cs|);
    } else {
      LensCount(bits, cs, l - 1);
      UsedByLength(cs, l, |cs|);
    }
  }

  predicate Listed(huffval: seq<nat>, k: nat, s: nat)
  {
    exists p :: 0 <= p < k && p < |huffval| && huffval[p] == s
  }

  /** The first k entries are used categories, the others zero. */
  predicate Entries(huffval: seq<nat>, k: nat, cs: seq<nat>)
  {
    && |huffval| == CATEGORIES && k <= CATEGORIES && |cs| == LEAVES
    && (forall p :: 0 <= p < k ==> huffval[p] < CATEGORIES && cs[huffval[p]] > 0)
    && (forall p :: k <= p < CATEGORIES ==> huffval[p] == 0)
  }

  /** Every category with a code word shorter than i, or of length i and below j, is listed. */
  predicate AllListed(huffval: seq<nat>, k: nat, cs: seq<nat>, i: nat, j: nat)
    requires |cs| == LEAVES
  {
    forall s :: 0 <= s < CATEGORIES && (1 <= cs[s] < i || (cs[s] == i && s < j)) ==> Listed(huffval, k, s)
  }

  lemma {:induction false} EntryAdded(before: seq<nat>, k: nat, cs: seq<nat>, i: nat, j: nat)
    requires Entries(before, k, cs) && AllListed(before, k, cs, i, j) && k < CATEGORIES && j < CATEGORIES
             && cs[j] == i >= 1
    ensures Entries(before[k := j], k + 1, cs) && AllListed(before[k := j], k + 1, cs, i, j + 1)
  {
    var after := before[k := j];
    forall s | 0 <= s < CATEGORIES && (1 <= cs[s] < i || (cs[s] == i && s < j + 1))
      ensures Listed(after, k + 1, s)
    {
      if s == j {
        assert after[k] == s;
      } else {
        assert Listed(before, k, s);
        var p :| 0 <= p < k && before[p] == s;
        assert after[p] == s;
      }
    }
  }

  lemma {:induction false} LengthDone(huffval: seq<nat>, k: nat, cs: seq<nat>, i: nat)
    requires |cs| == LEAVES && AllListed(huffval, k, cs, i, CATEGORIES)
    ensures AllListed(huffval, k, cs, i + 1, 0)
  {
  }

  lemma {:induction false} NothingListed(huffval: seq<nat>, cs: seq<nat>)
    requires |cs| == LEAVES
    ensures AllListed(huffval, 0, cs, 1, 0)
  {
  }

  lemma {:induction false} NotListed(huffval: seq<nat>, k: nat, cs: seq<nat>, i: nat, j: nat)
    requires |cs| == LEAVES && AllListed(huffval, k, cs, i, j) && j < CATEGORIES && cs[j] != i
    ensures AllListed(huffval, k, cs, i, j + 1)
  {
  }

  lemma {:induction false} ListedAll(huffval: seq<nat>, k: nat, cs: seq<nat>)
    requires Entries(huffval, k, cs) && AllListed(huffval, k, cs, 33, 0) && forall i :: 0 <= i < LEAVES ==>
             cs[i] <= LONGEST
    ensures forall s :: 0 <= s < CATEGORIES && cs[s] > 0 ==> Listed(huffval, k, s)
  {
  }

  /** huffval[]: the used categories, those with short code words first, and zeros. */
  method SortByLength(codesize: array<nat>) returns (huffval: seq<nat>, k: nat)
    requires codesize.Length == LEAVES && forall i :: 0 <= i < LEAVES ==> codesize[i] <= LONGEST
    ensures Entries(huffval, k, codesize[..]) && k == UsedUpTo(codesize[..], LONGEST, CATEGORIES)
    ensures forall s :: 0 <= s < CATEGORIES && codesize[s] > 0 ==> Listed(huffval, k, s)
  {
    hide AllListed, Listed, UsedUpTo;
    huffval := seq<nat>(CATEGORIES, _ => 0);
    k := 0;
    var i := 1;
    ghost var cs := codesize[..];
    UsedNone(cs, CATEGORIES);
    NothingListed(huffval, cs);
    while i <= 32
      invariant 1 <= i <= 33 && k == UsedUpTo(cs, i - 1, CATEGORIES)
      invariant Entries(huffval, k, cs) && AllListed(huffval, k, cs, i, 0)
    {
      var j := 0;
      UsedByLength(cs, i, CATEGORIES);
      while j < CATEGORIES
        invariant j <= CATEGORIES && k == UsedUpTo(cs, i - 1, CATEGORIES) + CountOf(cs, i, j)
        invariant Entries(huffval, k, cs) && AllListed(huffval, k, cs, i, j)
      {
        CountGrows(cs, i, j + 1, CATEGORIES);
        if codesize[j] == i {
          EntryAdded(huffval, k, cs, i, j);
          huffval := huffval[k := j];
          k := k + 1;
        } else {
          NotListed(huffval, k, cs, i, j);
        }
        j := j + 1;
      }
      LengthDone(huffval, k, cs, i);
      i := i + 1;
    }
    UsedAll(cs, 32, CATEGORIES);
    ListedAll(huffval, k, cs);
  }

  /** The longest length in use. */
  method MaxBits(bits: seq<nat>) returns (maxbits: nat)
    requires |bits| == LONGEST + 1
    ensures maxbits <= LONGEST && (maxbits > 0 ==> bits[maxbits] > 0)
    ensures forall l :: maxbits < l <= LONGEST ==> bits[l] == 0
  {
    maxbits := 16;
    while maxbits > 0
      invariant maxbits <= LONGEST && forall l :: maxbits < l <= LONGEST ==> bits[l] == 0
    {
      if bits[maxbits] != 0 { break; }
      maxbits := maxbits - 1;
    }
  }

  function AtOr0(s: seq<nat>, i: nat): nat
  {
    if i < |s| then s[i] else 0
  }

  /** Code words are numbered length by length: v of length l come after all shorter ones. */
  lemma {:induction false} NumberOf(bits: seq<nat>, m: nat, l: nat, v: nat)
    requires Complete(bits, m) && 1 <= l <= m + 1 && v <= AtOr0(bits, l)
    ensures |Lens(bits, l - 1)| + v <= |Lens(bits, LONGEST)|
    ensures l <= m && v < bits[l] ==>
              |Lens(bits, l - 1)| + v < |Lens(bits, LONGEST)| && Lens(bits, LONGEST)[|Lens(bits, l - 1)| + v] == l
    ensures l <= m && v == bits[l] ==> |Lens(bits, l)| == |Lens(bits, l - 1)| + v
    ensures l == m + 1 ==> |Lens(bits, l - 1)| == |Lens(bits, LONGEST)|
  {
    if l <= m {
      LensPrefix(bits, l, LONGEST);
      if v < bits[l] { LensAt(bits, l, v, LONGEST); }
    } else {
      LensEnd(bits, m, LONGEST);
      if l <= LONGEST { assert bits[l] == 0; }
    }
  }

  /**
   * The code words: the loop walks over the m-bit numbers in steps of a code word's interval. Past the last
   * code word both tables stay zero.
   */
  method CodeWords(bits: seq<nat>, maxbits: nat) returns (huffenc: seq<nat>, huffbits: seq<nat>)
    requires Complete(bits, maxbits) && |Lens(bits, LONGEST)| <= CATEGORIES
    ensures |huffenc| == |huffbits| == CATEGORIES
    ensures forall k :: 0 <= k < CATEGORIES ==>
              if k < |Lens(bits, LONGEST)|
              then huffbits[k] == Lens(bits, LONGEST)[k] && huffenc[k] == Code(Lens(bits, LONGEST), maxbits, k)
              else huffbits[k] == 0
  {
    hide Lens, Start;
    ghost var lens := Lens(bits, LONGEST);
    huffenc := seq<nat>(CATEGORIES, _ => 0);
    huffbits := seq<nat>(CATEGORIES, _ => 0);
    var i, hv, rv, vl, bitsused, sym := 0, 0, 0, 0, 1, 0;
    NothingBefore(bits, maxbits);
    LensBounds(bits, LONGEST, maxbits);
    while i < Pow2(maxbits)
      invariant |huffenc| == |huffbits| == CATEGORIES && 1 <= bitsused <= maxbits + 1 && vl <= AtOr0(bits, bitsused)
      invariant hv == |Lens(bits, bitsused - 1)| + vl
      invariant if rv == 0 then sym == hv
                else bitsused <= maxbits && rv == Pow2(maxbits - bitsused) && vl < bits[bitsused] && sym == hv + 1
      invariant sym <= |lens| && i == Start(lens, maxbits, sym)
      invariant forall k :: 0 <= k < CATEGORIES ==>
                  if k < sym then huffbits[k] == lens[k] && huffenc[k] == Code(lens, maxbits, k) else huffbits[k] == 0
      decreases maxbits + 1 - bitsused, AtOr0(bits, bitsused) - vl, if rv == 0 then 1 else 0
    {
      NumberOf(bits, maxbits, bitsused, vl);
      if bitsused > maxbits {
        break;
      }
      if vl >= bits[bitsused] {
        bitsused := bitsused + 1;
        vl := 0;
        continue;
      }
      if rv == Pow2(maxbits - bitsused) {
        rv := 0;
        vl := vl + 1;
        hv := hv + 1;
        continue;
      }
      StartNext(lens, maxbits, sym);
      huffbits := huffbits[sym := bitsused];
      huffenc := huffenc[sym := Shr(i, maxbits - bitsused)];
      sym := sym + 1;
      i := i + Pow2(maxbits - bitsused);
      rv := Pow2(maxbits - bitsused);
    }
    AllCoded(bits, maxbits, sym);
  }

  lemma {:induction false} NothingBefore(bits: seq<nat>, m: nat)
    requires |bits| == LONGEST + 1
    ensures |Lens(bits, 0)| == 0 && Start(Lens(bits, LONGEST), m, 0) == 0
  {
  }

  lemma {:induction false} StartNext(lens: seq<nat>, m: nat, k: nat)
    requires k < |lens|
    ensures Start(lens, m, k + 1) == Start(lens, m, k) + Space(m, lens[k])
  {
  }

  /** The loop ends at 2^m exactly when every code word has been reached. */
  lemma {:induction false} AllCoded(bits: seq<nat>, m: nat, k: nat)
    requires Complete(bits, m) && k <= |Lens(bits, LONGEST)| && Start(Lens(bits, LONGEST), m, k) >= Pow2(m)
    ensures k == |Lens(bits, LONGEST)|
  {
    hide Lens;
    var lens := Lens(bits, LONGEST);
    LensBounds(bits, LONGEST, m);
    if k < |lens| {
      StartNext(lens, m, k);
      StartMonotone(lens, m, k + 1, |lens|);
    }
  }

  /** huffsym[]: for each value the last code word that stands for it. */
  method SymbolNumbers(huffval: seq<nat>, huffbits: seq<nat>) returns (huffsym: seq<nat>)
    requires |huffval| == |huffbits| == CATEGORIES && forall i :: 0 <= i < CATEGORIES ==> huffval[i] < CATEGORIES
    ensures |huffsym| == CATEGORIES
    ensures forall i :: 0 <= i < CATEGORIES && huffbits[i] > 0 ==>
              var last := huffsym[huffval[i]];
              i <= last < CATEGORIES && huffbits[last] > 0 && huffval[last] == huffval[i]
  {
    huffsym := seq<nat>(CATEGORIES, _ => 0);
    for i := 0 to CATEGORIES
      invariant |huffsym| == CATEGORIES
      invariant forall j :: 0 <= j < i && huffbits[j] > 0 ==>
                  var last := huffsym[huffval[j]]; j <= last < i && huffbits[last] > 0 && huffval[last] == huffval[j]
    {
      if huffbits[i] > 0 {
        huffsym := huffsym[huffval[i] := i];
      }
    }
  }

  /** The tables of one encoding. */
  datatype Tables = Tables(table: Table, huffenc: seq<nat>, huffbits: seq<nat>, huffsym: seq<nat>)

  /** Code words of the table, and a code word for every category in the histogram. */
  ghost predicate TablesOk(ts: Tables, hist: seq<nat>)
  {
    var lens := Lengths(ts.table);
    && TableOk(ts.table) && |ts.huffenc| == |ts.huffbits| == |ts.huffsym| == |hist| == CATEGORIES
    && |lens| == |ts.table.vals| <= CATEGORIES && ts.table.bits[0] == 0
    && (forall l :: 0 <= l < |ts.table.bits| ==> ts.table.bits[l] <= LEAVES)
    && (forall k :: 0 <= k < |lens| ==> ts.huffbits[k] == lens[k] && ts.huffenc[k] == Code(lens, ts.table.m, k))
    && (forall s :: 0 <= s < CATEGORIES && hist[s] > 0 ==> ts.huffsym[s] < |lens| && ts.table.vals[ts.huffsym[s]] == s)
  }

  lemma {:induction false} KindsUsed(hist: seq<nat>, cs: seq<nat>, n: nat)
    requires n <= |hist| && |hist| <= |cs|
    requires forall i :: 0 <= i < |hist| ==> cs[i] <= LONGEST && (cs[i] > 0 <==> hist[i] > 0)
    ensures Kinds(hist, n) == UsedUpTo(cs, LONGEST, n)
  {
    if n > 0 { KindsUsed(hist, cs, n - 1); }
  }

  /** The last code word is category 0's if that occurs; it is all ones, and nothing else is written with it. */
  ghost predicate Frugal(t: Table, huffsym: seq<nat>, hist: seq<nat>)
  {
    && |hist| == |huffsym| == CATEGORIES && |Lengths(t)| == Kinds(hist, CATEGORIES) + 1
    && (forall s :: 0 <= s < CATEGORIES && hist[s] > 0 ==>
          if s == 0 then huffsym[s] == |Lengths(t)| - 1 else huffsym[s] < |Lengths(t)| - 1)
  }

  /**
   * createEncodeTable: for every histogram of at most 16 categories, and however the frequencies are rounded, the code
   * is complete, no code word is longer than 16 bits, there is one for each category that occurs and one to spare, and
   * every category that occurs is stood for by the code word it is written with.
   */
  method CreateEncodeTable(hist: seq<nat>, total: nat, f: Floats) returns (ts: Tables)
    requires |hist| == CATEGORIES && SumOf(hist, CATEGORIES) == total > 0 && Kinds(hist, CATEGORIES) <= LONGEST
    requires Rounds(f)
    ensures TablesOk(ts, hist) && Frugal(ts.table, ts.huffsym, hist)
  {
    hide SumOf, Total, Positive, Kraft, CountOf, Lens, UsedUpTo, Start, Complete, Listed, Code, Pow2, Kinds, Rounds, Near;
    var freq := Frequencies(hist, total, f);
    var codesize := CodeLengths(freq, f);
    KindsUsed(hist, codesize[..], CATEGORIES);
    var bits := CountLengths(codesize);
    var huffval, n := SortByLength(codesize);
    var maxbits := MaxBits(bits);
    CodesFrom(bits, maxbits, codesize[..], n);
    ghost var lens := Lens(bits, LONGEST);
    var huffenc, huffbits := CodeWords(bits, maxbits);
    var huffsym := SymbolNumbers(huffval, huffbits);
    ts := Tables(Table(bits, huffval[..n + 1], maxbits), huffenc, huffbits, huffsym);
    LensBoundsOf(bits, maxbits);
    SymbolsFound(codesize[..], huffval, n, huffbits, huffsym);
  }

  /** Every used category is among the values, and the last code word of its value is the one it gets. */
  lemma {:induction false} SymbolsFound(cs: seq<nat>, huffval: seq<nat>, n: nat, huffbits: seq<nat>,
                                        huffsym: seq<nat>)
    requires Entries(huffval, n, cs) && n < CATEGORIES && |huffbits| == |huffsym| == CATEGORIES
    requires forall s :: 0 <= s < CATEGORIES && cs[s] > 0 ==> Listed(huffval, n, s)
    requires forall i :: 0 <= i < CATEGORIES ==> (huffbits[i] > 0 <==> i <= n)
    requires forall i :: 0 <= i < CATEGORIES && huffbits[i] > 0 ==>
               var last := huffsym[huffval[i]];
               i <= last < CATEGORIES && huffbits[last] > 0 && huffval[last] == huffval[i]
    ensures forall p :: 0 <= p <= n ==> huffval[p] <= 16
    ensures forall s :: 0 <= s < CATEGORIES && cs[s] > 0 ==>
              huffsym[s] <= n && huffval[huffsym[s]] == s && (if s == 0 then huffsym[s] == n else huffsym[s] < n)
  {
    forall s | 0 <= s < CATEGORIES && cs[s] > 0
      ensures huffsym[s] <= n && huffval[huffsym[s]] == s && (if s == 0 then huffsym[s] == n else huffsym[s] < n)
    {
      assert Listed(huffval, n, s);
      var p :| 0 <= p < n && huffval[p] == s;
      assert huffbits[p] > 0;
      assert huffbits[n] > 0 && huffval[n] == 0;
    }
  }

  lemma {:induction false} LensBoundsOf(bits: seq<nat>, m: nat)
    requires Complete(bits, m)
    ensures |bits| == LONGEST + 1
    ensures forall k :: 0 <= k < |Lens(bits, LONGEST)| ==> 1 <= Lens(bits, LONGEST)[k] <= m
  {
    LensBounds(bits, LONGEST, m);
  }

  /** The lengths chosen for the used leaves make a complete code of one word more than there are categories. */
  lemma {:induction false} CodesFrom(bits: seq<nat>, m: nat, cs: seq<nat>, n: nat)
    requires |bits| == LONGEST + 1 && |cs| == LEAVES && m <= LONGEST && (m > 0 ==> bits[m] > 0) && bits[0] == 0
    requires forall l :: m < l <= LONGEST ==> bits[l] == 0
    requires forall l :: 1 <= l <= LONGEST ==> bits[l] == CountOf(cs, l, LEAVES)
    requires forall i :: 0 <= i < LEAVES ==> cs[i] <= LONGEST
    requires cs[17] > 0 && Kraft(cs, LEAVES) == Pow2(LONGEST) && n == UsedUpTo(cs, LONGEST, CATEGORIES)
    requires n <= LONGEST
    ensures Complete(bits, m) && |Lens(bits, LONGEST)| == n + 1 <= CATEGORIES
    ensures forall l :: 0 <= l <= LONGEST ==> bits[l] <= LEAVES
  {
    hide Kraft, Lens;
    LensCount(bits, cs, LONGEST);
    UsedByLength(cs, LONGEST, 16);
    if m == 0 {
      LensEnd(bits, 0, LONGEST);
      EmptyLens(bits);
    }
    CompleteFrom(bits, m, cs);
    forall l | 1 <= l <= LONGEST
      ensures bits[l] <= LEAVES
    {
      UsedByLength(cs, l, LEAVES);
    }
  }

  lemma {:induction false} EmptyLens(bits: seq<nat>)
    requires |bits| > 0
    ensures Lens(bits, 0) == []
  {
  }

  // ---------------------------------------------------------------- the file

  function Bytes16(v: nat): seq<Byte>
    requires v < 0x1_0000
  {
    [v / 256, v % 256]
  }

  function AsBytes(s: seq<nat>): (r: seq<Byte>)
    requires forall i :: 0 <= i < |s| ==> s[i] < 256
    ensures |r| == |s| && forall i :: 0 <= i < |s| ==> r[i] == s[i]
  {
    seq<Byte>(|s|, i requires 0 <= i < |s| => s[i])
  }

  /** What can be written into a header: 16-bit dimensions and byte-sized table entries. */
  predicate Writable(width: nat, height: nat, bitdepth: nat, bits: seq<nat>, vals: seq<nat>)
  {
    && width < 0x1_0000 && height < 0x1_0000 && bitdepth < 256 && |bits| == LONGEST + 1 && |vals| <= CATEGORIES
    && (forall i :: 0 <= i < |bits| ==> bits[i] < 0xFF) && (forall i :: 0 <= i < |vals| ==> vals[i] < 0xFF)
  }

  /** Start of image and the SOF3 segment. */
  function FrameHeader(width: nat, height: nat, bitdepth: nat): seq<Byte>
    requires width < 0x1_0000 && height < 0x1_0000 && bitdepth < 256
  {
    [0xFF, 0xD8, 0xFF, 0xC3, 0, 11, bitdepth] + Bytes16(height) + Bytes16(width) + [1, 0, 0x11, 0]
  }

  /** The DHT segment. */
  function HuffmanHeader(bits: seq<nat>, vals: seq<nat>): seq<Byte>
    requires |bits| == LONGEST + 1 && |vals| <= CATEGORIES
    requires forall i :: 0 <= i < |bits| ==> bits[i] < 256
    requires forall i :: 0 <= i < |vals| ==> vals[i] < 256
  {
    [0xFF, 0xC4, 0, 17 + 2 + |vals|, 0] + AsBytes(bits[1..]) + AsBytes(vals)
  }

  /** The SOS segment: one component, predictor 6. */
  function ScanHeader(): seq<Byte>
  {
    [0xFF, 0xDA, 0, 8, 1, 0, 0, 6, 0, 0]
  }

  function Header(width: nat, height: nat, bitdepth: nat, bits: seq<nat>, vals: seq<nat>): seq<Byte>
    requires Writable(width, height, bitdepth, bits, vals)
  {
    FrameHeader(width, height, bitdepth) + HuffmanHeader(bits, vals) + ScanHeader()
  }

  const END_OF_IMAGE: seq<Byte> := [0xFF, 0xD9]

  /** The state of the bit writer: the data bytes completed, and acc, the bits of the byte being filled. */
  ghost predicate Filling(next: nat, nextbits: nat, acc: nat)
  {
    1 <= nextbits <= 8 && next == Shl(acc, nextbits) && acc < Pow2(8 - nextbits) && next < 256
  }

  /** Adding the upper bits of a field to the byte being filled. */
  lemma {:induction false} FillMore(next: nat, nextbits: nat, acc: nat, v: nat, n: nat, use: nat)
    requires Filling(next, nextbits, acc) && v < Pow2(n) && 1 <= use <= n && use <= nextbits
    ensures var top := Shr(v, n - use);
            var acc' := Shl(acc, use) + top;
            && next + Shl(top, nextbits - use) == Shl(acc', nextbits - use) < 256 && acc' < Pow2(8 - nextbits + use)
            && BitsOf(acc, 8 - nextbits) + BitsOf(v, n)
               == BitsOf(acc', 8 - nextbits + use) + BitsOf(Trunc(v, n - use), n - use)
            && Trunc(v, n - use) < Pow2(n - use)
  {
    hide Shl, Shr, Trunc, Pow2, BitsOf;
    var top := Shr(v, n - use);
    ShrBound(v, n - use, use);
    TruncBound(v, n - use);
    SplitField(v, n, n - use);
    JoinField(acc, 8 - nextbits, top, use);
    ShlTwoSteps(acc, use, nextbits - use);
    ShlAdd(Shl(acc, use), top, nextbits - use);
    ShlBelow(acc, top, 8 - nextbits, use);
    ShlUnder(Shl(acc, use) + top, 8 - nextbits + use, nextbits - use);
    Pow2Small();
    assert BitsOf(acc, 8 - nextbits) + (BitsOf(top, use) + BitsOf(Trunc(v, n - use), n - use))
        == (BitsOf(acc, 8 - nextbits) + BitsOf(top, use)) + BitsOf(Trunc(v, n - use), n - use);
  }

  lemma {:induction false} ShlTwoSteps(a: nat, m: nat, n: nat)
    ensures Shl(Shl(a, m), n) == Shl(a, m + n)
  {
    if n > 0 { ShlTwoSteps(a, m, n - 1); }
  }

  lemma {:induction false} ShlBelow(a: nat, b: nat, m: nat, n: nat)
    requires a < Pow2(m) && b < Pow2(n)
    ensures Shl(a, n) + b < Pow2(m + n)
    decreases n
  {
    if n > 0 {
      ShlBelow(a, b / 2, m, n - 1);
    }
  }

  lemma {:induction false} ShlUnder(a: nat, m: nat, n: nat)
    requires a < Pow2(m)
    ensures Shl(a, n) < Pow2(m + n)
  {
    if n > 0 { ShlUnder(a, m, n - 1); }
  }

  /** The output of an encoding. */
  class Lje {
    var encoded: seq<Byte>
    var next: nat
    var nextbits: nat
    ghost var head: seq<Byte>
    ghost var data: seq<Byte>
    ghost var acc: nat

    constructor ()
      ensures encoded == []
    {
      encoded := [];
    }

    /** writeHeader. */
    method WriteHeader(width: nat, height: nat, bitdepth: nat, bits: seq<nat>, huffval: seq<nat>)
      requires Writable(width, height, bitdepth, bits, huffval)
      modifies this`encoded
      ensures encoded == old(encoded) + Header(width, height, bitdepth, bits, huffval)
    {
      hide Writable;
      WritableEntries(width, height, bitdepth, bits, huffval);
      encoded := encoded + [0xFF, 0xD8, 0xFF, 0xC3, 0, 11, bitdepth, height / 256, height % 256, width / 256, width % 256,
                            1, 0, 0x11, 0];
      assert encoded == old(encoded) + FrameHeader(width, height, bitdepth);
      ghost var before := encoded;
      encoded := encoded + [0xFF, 0xC4, 0, 17 + 2 + |huffval|, 0];
      WriteEntries(bits, 1);
      WriteEntries(huffval, 0);
      assert huffval[0..] == huffval;
      assert encoded == before + HuffmanHeader(bits, huffval);
      encoded := encoded + [0xFF, 0xDA, 0, 8, 1, 0, 0, 6, 0, 0];
    }

    /** The entries of a table from index first on. */
    method WriteEntries(entries: seq<nat>, first: nat)
      requires first <= |entries| && forall i :: 0 <= i < |entries| ==> entries[i] < 256
      modifies this`encoded
      ensures encoded == old(encoded) + AsBytes(entries[first..])
    {
      for i := first to |entries|
        invariant encoded == old(encoded) + AsBytes(entries[first..i])
      {
        assert entries[first..i + 1] == entries[first..i] + [entries[i]];
        encoded := encoded + [entries[i]];
      }
      assert entries[first..|entries|] == entries[first..];
    }

    /** writePost. */
    method WritePost()
      modifies this`encoded
      ensures encoded == old(encoded) + END_OF_IMAGE
    {
      encoded := encoded + [0xFF, 0xD9];
    }

    /** The bits written since the scan began. */
    ghost function Written(): seq<Bit>
      reads this
    {
      AllBits(data) + BitsOf(acc, 8 - (if nextbits <= 8 then nextbits else 8))
    }

    ghost predicate Writing()
      reads this
    {
      Filling(next, nextbits, acc) && encoded == head + Stuffed(data)
    }

    method StartBits()
      modifies this
      ensures Writing() && Written() == [] && head == old(encoded) && encoded == old(encoded)
    {
      next, nextbits := 0, 8;
      head, data, acc := encoded, [], 0;
      assert Pow2(0) == 1;
      ShlZero(8);
    }

    /** Writes the byte being filled, and a zero byte behind 0xFF. */
    method PutByte()
      requires next < 256
      modifies this`encoded
      ensures encoded == old(encoded) + if next == 0xFF then [0xFF, 0] else [next]
    {
      encoded := encoded + [next];
      if next == 0xFF { encoded := encoded + [0]; }
    }

    /**
     * One of the two loops of writeBody that write a field of n bits. The lower bits of next are zero, so the OR
     * adds.
     */
    method PutBits(value: nat, n: nat)
      requires Writing() && value < Pow2(n)
      modifies this
      ensures Writing() && Written() == old(Written()) + BitsOf(value, n) && head == old(head)
    {
      hide Filling, BitsOf, Shl, Shr, Trunc, Pow2, AllBits, Stuffed;
      var v: nat := value;
      var bits: nat := n;
      while bits > 0
        invariant Writing() && v < Pow2(bits) && head == old(head)
        invariant Written() + BitsOf(v, bits) == old(Written()) + BitsOf(value, n)
      {
        NextBitsBound(next, nextbits, acc);
        var usebits := if bits > nextbits then nextbits else bits;
        var tophuff := Shr(v, bits - usebits);
        FillMore(next, nextbits, acc, v, bits, usebits);
        Regroup(AllBits(data), BitsOf(acc, 8 - nextbits), BitsOf(v, bits),
                BitsOf(Shl(acc, usebits) + tophuff, 8 - nextbits + usebits),
                BitsOf(Trunc(v, bits - usebits), bits - usebits));
        next := next + Shl(tophuff, nextbits - usebits);
        acc := Shl(acc, usebits) + tophuff;
        nextbits := nextbits - usebits;
        bits := bits - usebits;
        v := Trunc(v, bits);
        if nextbits == 0 {
          WholeByte(next, acc);
          AppendData(data, next);
          PutByte();
          data := data + [next];
          next, nextbits, acc := 0, 8, 0;
          EmptyByte();
          assert encoded == head + Stuffed(data);
        } else {
          StillFilling(next, nextbits, acc);
        }
      }
      NoBits(v);
    }

    /** The last byte, filled up with zeros. */
    method FlushBits() returns (ghost pad: seq<Bit>)
      requires Writing()
      modifies this
      ensures encoded == head + Stuffed(data) && AllBits(data) == old(Written()) + pad && head == old(head)
      ensures |pad| < 8 && pad == BitsOf(0, |pad|)
    {
      hide BitsOf, Filling, Stuffed, AllBits;
      NextBitsBound(next, nextbits, acc);
      pad := BitsOf(0, if nextbits < 8 then nextbits else 0);
      if nextbits < 8 {
        LastByte(next, nextbits, acc);
        AppendData(data, next);
        PutByte();
        data := data + [next];
      } else {
        NoBits(acc);
        NoBits(0);
      }
    }

    /** writeBody: every pixel's code word and extra bits, in raster order. */
    method WriteBody(image: seq<int>, width: nat, height: nat, bitdepth: nat, readLength: nat, skipLength: nat,
                     ts: Tables, ghost px: seq<int>)
      returns (ghost pad: seq<Bit>)
      requires width >= 1 && |px| == width * height && Shows(image, readLength, skipLength, px)
      requires Covers(ts.table, ts.huffsym, px, width, bitdepth) && Coded(ts)
      modifies this
      ensures encoded == old(encoded) + Stuffed(data)
      ensures AllBits(data) == ImageBits(ts.table, ts.huffsym, px, width, bitdepth, |px|) + pad
      ensures |pad| < 8 && pad == BitsOf(0, |pad|)
    {
      hide Shows, Covers, Coded, Predict, Category, Extra, Filling, BitsOf, AllBits, Stuffed, PixelBits;
      StartBits();
      var pixcount := width * height;
      var walker := new Walker(image, width, bitdepth, readLength, skipLength, px);
      while pixcount > 0
        invariant walker.Valid() && walker.px == px && walker.width == width && walker.bitdepth == bitdepth
        invariant fresh(walker) && fresh(walker.above) && fresh(walker.current)
        invariant walker.k + pixcount == |px| && Writing() && head == old(encoded)
        invariant Written() == ImageBits(ts.table, ts.huffsym, px, width, bitdepth, walker.k)
      {
        ghost var k := walker.k;
        CoversPixel(ts, px, width, bitdepth, k);
        var diff := walker.Next();
        var ssss := Category(diff);
        var huffcode := ts.huffsym[ssss];
        var huffenc := ts.huffenc[huffcode];
        var huffbits := ts.huffbits[huffcode];
        var vt := Middle(ssss);
        if diff < vt {
          diff := diff + Pow2(ssss) - 1;
        }
        PutBits(huffenc, huffbits);
        PutBits(diff, ssss);
        assert Written() == ImageBits(ts.table, ts.huffsym, px, width, bitdepth, k)
                            + (BitsOf(huffenc, huffbits) + BitsOf(diff, ssss));
        pixcount := pixcount - 1;
      }
      pad := FlushBits();
    }
  }

  lemma {:induction false} WritableEntries(width: nat, height: nat, bitdepth: nat, bits: seq<nat>, vals: seq<nat>)
    requires Writable(width, height, bitdepth, bits, vals)
    ensures width < 0x1_0000 && height < 0x1_0000 && bitdepth < 256 && |bits| == LONGEST + 1 && |vals| <= CATEGORIES
    ensures (forall i :: 0 <= i < |bits| ==> bits[i] < 256) && (forall i :: 0 <= i < |vals| ==> vals[i] < 256)
  {
  }

  lemma {:induction false} Regroup(a: seq<Bit>, b: seq<Bit>, c: seq<Bit>, d: seq<Bit>, e: seq<Bit>)
    requires b + c == d + e
    ensures (a + b) + c == (a + d) + e
  {
    assert (a + b) + c == a + (b + c);
    assert (a + d) + e == a + (d + e);
  }

  lemma {:induction false} NextBitsBound(next: nat, nextbits: nat, acc: nat)
    requires Filling(next, nextbits, acc)
    ensures 1 <= nextbits <= 8 && next < 256
  {
  }

  lemma {:induction false} StillFilling(next: nat, nextbits: nat, acc: nat)
    requires 1 <= nextbits <= 8 && next == Shl(acc, nextbits) < 256 && acc < Pow2(8 - nextbits)
    ensures Filling(next, nextbits, acc)
  {
  }

  lemma {:induction false} WholeByte(next: nat, acc: nat)
    requires next == Shl(acc, 0)
    ensures next == acc
  {
  }

  lemma {:induction false} EmptyByte()
    ensures Filling(0, 8, 0) && BitsOf(0, 0) == []
  {
    ShlZero(8);
  }

  lemma {:induction false} NoBits(v: nat)
    ensures BitsOf(v, 0) == []
  {
  }

  lemma {:induction false} LastByte(next: nat, nextbits: nat, acc: nat)
    requires Filling(next, nextbits, acc)
    ensures BitsOf(next, 8) == BitsOf(acc, 8 - nextbits) + BitsOf(0, nextbits)
  {
    hide Shl, BitsOf, Pow2;
    PowPositive(nextbits);
    JoinField(acc, 8 - nextbits, 0, nextbits);
  }

  /** The code words agree with the table. */
  ghost predicate Coded(ts: Tables)
  {
    var lens := Lengths(ts.table);
    && |ts.huffenc| == |ts.huffbits| == CATEGORIES && |lens| <= CATEGORIES
    && forall k :: 0 <= k < |lens| ==> ts.huffbits[k] == lens[k] && ts.huffenc[k] == Code(lens, ts.table.m, k)
  }

  lemma {:induction false} CoversPixel(ts: Tables, px: seq<int>, w: nat, depth: nat, k: nat)
    requires w >= 1 && k < |px| && Covers(ts.table, ts.huffsym, px, w, depth) && Coded(ts)
    ensures var d := Residual(px, w, depth, k);
            var s := Category(d);
            && s < |ts.huffsym| && ts.huffsym[s] < |ts.huffenc| == |ts.huffbits|
            && var e, n := ts.huffenc[ts.huffsym[s]], ts.huffbits[ts.huffsym[s]];
               && e < Pow2(n) && 0 <= Extra(d) < Pow2(s)
               && Extra(d) == (if d < Middle(s) then d + Pow2(s) - 1 else d)
               && PixelBits(ts.table, ts.huffsym, px, w, depth, k) == BitsOf(e, n) + BitsOf(Extra(d), s)
  {
    hide BitsOf, Code, Lengths, Predict, Complete;
    var d := Residual(px, w, depth, k);
    ResidualRoundTrip(d);
    CodeOfTable(ts.table, ts.huffsym[Category(d)]);
  }

  lemma {:induction false} CodeOfTable(t: Table, k: nat)
    requires TableOk(t) && k < |Lengths(t)|
    ensures Code(Lengths(t), t.m, k) < Pow2(Lengths(t)[k])
  {
    CodeFits(t.bits, t.m, k);
  }

  /** The tables made from an image's histogram cover the image. */
  lemma {:induction false} HistogramCovers(ts: Tables, hist: seq<nat>, px: seq<int>, w: nat, depth: nat)
    requires w >= 1 && 1 <= depth <= 15 && PixelsFit(px, depth) && Histogram(hist, px, w, depth, |px|)
    requires TablesOk(ts, hist)
    ensures Covers(ts.table, ts.huffsym, px, w, depth) && Coded(ts)
  {
    hide PixelsFit, Code, Lengths, Predict, Complete, Residual, Category;
    forall k | 0 <= k < |px|
      ensures var s := Category(Residual(px, w, depth, k));
              s < 17 && ts.huffsym[s] < |Lengths(ts.table)| && ts.table.vals[ts.huffsym[s]] == s
    {
      CategoryBound(px, w, depth, k);
      OccursOnce(px, w, depth, k, |px|);
    }
  }

  /**
   * No more than 16 of the 17 residual categories occur, so that no code word can need more than 16 bits. Pixels of
   * up to 14 bits cannot have all; for those of 15 bits the caller has to know.
   */
  ghost predicate CodeFitting(px: seq<int>, w: nat, depth: nat)
    requires w >= 1
  {
    depth <= 14 || exists s :: 0 <= s < CATEGORIES && Occurrences(px, w, depth, s, |px|) == 0
  }

  lemma {:induction false} FewKinds(hist: seq<nat>, px: seq<int>, w: nat, depth: nat)
    requires w >= 1 && 1 <= depth <= 15 && PixelsFit(px, depth) && CodeFitting(px, w, depth)
    requires Histogram(hist, px, w, depth, |px|)
    ensures Kinds(hist, CATEGORIES) <= LONGEST
  {
    hide PixelsFit, SumOf, Kinds;
    if depth <= 14 { NoSixteen(px, w, depth, |px|); }
    var s :| 0 <= s < CATEGORIES && hist[s] == 0;
    KindsMiss(hist, s, CATEGORIES);
  }

  lemma {:induction false} KindsMiss(hist: seq<nat>, s: nat, n: nat)
    requires n <= |hist| && s < |hist| && hist[s] == 0
    ensures Kinds(hist, n) <= if s < n then n - 1 else n
  {
    if n > 0 { KindsMiss(hist, s, n - 1); }
  }

  /** No pixel of at most 14 bits has a residual of category 16. */
  lemma {:induction false} NoSixteen(px: seq<int>, w: nat, depth: nat, n: nat)
    requires w >= 1 && 1 <= depth <= 14 && PixelsFit(px, depth) && n <= |px|
    ensures Occurrences(px, w, depth, 16, n) == 0
  {
    hide PixelsFit, Residual, Category;
    if n > 0 {
      NoSixteen(px, w, depth, n - 1);
      CategoryBound(px, w, depth, n - 1);
    }
  }

  /** A complete file for the pixels px: header, stuffed scan with its last byte filled up with zeros, end of image. */
  ghost predicate FileOf(file: seq<Byte>, px: seq<int>, width: nat, height: nat, depth: nat, t: Table, sym: seq<nat>,
                         data: seq<Byte>, pad: seq<Bit>)
    requires width >= 1
  {
    && Writable(width, height, depth, t.bits, t.vals) && Covers(t, sym, px, width, depth)
    && |Lengths(t)| == |t.vals| && t.bits[0] == 0
    && file == Header(width, height, depth, t.bits, t.vals) + Stuffed(data) + END_OF_IMAGE
    && AllBits(data) == ImageBits(t, sym, px, width, depth, |px|) + pad && |pad| < 8 && pad == BitsOf(0, |pad|)
  }

  /** Whether the length of the output buffer, three bytes for each pixel and 200, is an int. */
  predicate Allocatable(width: nat, height: nat)
  {
    width * height * 3 + 200 < SIGN
  }

  /**
   * lj92_encode; ok is false for LJ92_ERROR_NO_MEMORY. A tile whose output buffer has no length in an int is refused;
   * for every other one the result is a complete file with one code word for each category that occurs and one to
   * spare.
   */
  method Encode(image: seq<int>, width: nat, height: nat, bitdepth: nat, readLength: nat, skipLength: nat, f: Floats,
                ghost px: seq<int>)
    returns (ok: bool, encoded: seq<Byte>, ghost t: Table, ghost sym: seq<nat>, ghost data: seq<Byte>,
             ghost pad: seq<Bit>, ghost hist: seq<nat>)
    requires 1 <= width < 0x1_0000 && 1 <= height < 0x1_0000 && 1 <= bitdepth <= 15 && |px| == width * height
    requires Shows(image, readLength, skipLength, px) && PixelsFit(px, bitdepth) && CodeFitting(px, width, bitdepth)
    requires Rounds(f)
    ensures ok <==> Allocatable(width, height)
    ensures ok ==>
              && FileOf(encoded, px, width, height, bitdepth, t, sym, data, pad)
              && Histogram(hist, px, width, bitdepth, |px|) && Frugal(t, sym, hist)
  {
    hide Shows, PixelsFit, Covers, Coded, Predict, ImageBits, AllBits, Stuffed, Header, SumOf, Complete, Lens, Frugal,
        Rounds, CodeFitting, Kinds;
    var encodedLength := width * height * 3 + 200;
    if encodedLength >= SIGN {
      ok, encoded, t, sym, data, pad, hist := false, [], Table([], [], 0), [], [], [], [];
      return;
    }
    ok := true;
    var counts := FrequencyScan(image, width, height, bitdepth, readLength, skipLength, px);
    hist := counts;
    FewKinds(hist, px, width, bitdepth);
    AreaPositive(width, height);
    var ts := CreateEncodeTable(counts, width * height, f);
    HistogramCovers(ts, hist, px, width, bitdepth);
    TableWritable(ts, hist);
    var lje := new Lje();
    lje.WriteHeader(width, height, bitdepth, ts.table.bits, ts.table.vals);
    pad := lje.WriteBody(image, width, height, bitdepth, readLength, skipLength, ts, px);
    lje.WritePost();
    encoded, t, sym, data := lje.encoded, ts.table, ts.huffsym, lje.data;
    assert [] + Header(width, height, bitdepth, t.bits, t.vals) == Header(width, height, bitdepth, t.bits, t.vals);
  }

  lemma {:induction false} AreaPositive(w: nat, h: nat)
    requires w >= 1 && h >= 1
    ensures w * h >= 1
  {
  }

  lemma {:induction false} TableWritable(ts: Tables, hist: seq<nat>)
    requires TablesOk(ts, hist)
    ensures |ts.table.bits| == LONGEST + 1 && |ts.table.vals| <= CATEGORIES && |Lengths(ts.table)| == |ts.table.vals|
    ensures ts.table.bits[0] == 0
    ensures forall i :: 0 <= i < |ts.table.bits| ==> ts.table.bits[i] < 0xFF
    ensures forall i :: 0 <= i < |ts.table.vals| ==> ts.table.vals[i] < 0xFF
  {
  }
}
