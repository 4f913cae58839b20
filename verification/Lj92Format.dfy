/** The order of bits and bytes in a scan, which its writer and its readers have to agree on. */
module Lj92Format {
  import opened Bits
  import opened Modular
  import opened HuffmanTree
  import opened BitStrings
  import opened Lj92Model
  import opened Lj92Encoder

  // ---------------------------------------------------------------- bits

  /** A field goes out with its most significant bit first. */
  lemma {:induction false} FieldBit(v: nat, n: nat, k: nat)
    requires k < n
    ensures BitsOf(v, n)[k] == v / Pow2(n - 1 - k) % 2
    decreases n
  {
    if k < n - 1 {
      FieldBit(v / 2, n - 1, k);
      HalfFirst(v, Pow2(n - 2 - k));
    } else {
      assert Pow2(0) == 1;
    }
  }

  lemma {:induction false} HalfFirst(v: nat, d: nat)
    requires d > 0
    ensures v / 2 / d == v / (2 * d)
  {
    var h, q := v / 2, v / 2 / d;
    assert h == q * d + h % d && v == 2 * h + v % 2;
    QuotientOf(v, 2 * d, q, 2 * (h % d) + v % 2);
  }

  /** Every byte of the data holds eight bits of the scan, the first of them on top. */
  lemma {:induction false} ScanBit(d: seq<Byte>, f: nat, k: nat)
    requires f < |d| && k < 8
    ensures 8 * f + k < |AllBits(d)| && AllBits(d)[8 * f + k] == d[f] / Pow2(7 - k) % 2
  {
    hide BitsOf, AllBits, Pow2;
    AllBitsAt(d, f);
    assert AllBits(d)[8 * f + k] == AllBits(d)[8 * f..8 * f + 8][k];
    FieldBit(d[f], 8, k);
  }

  // ---------------------------------------------------------------- markers

  /** Behind every 0xFF stands a zero. */
  predicate NoMarker(s: seq<Byte>)
  {
    forall i :: 0 <= i < |s| && s[i] == 0xFF ==> i + 1 < |s| && s[i + 1] == 0
  }

  /** Without the zeros behind 0xFF. */
  function Unstuffed(s: seq<Byte>): seq<Byte>
  {
    if s == [] then [] else [s[0]] + Unstuffed(s[if s[0] == 0xFF && |s| > 1 then 2 else 1..])
  }

  lemma {:induction false} UnstuffedBehind(a: seq<Byte>, b: seq<Byte>)
    requires NoMarker(a)
    ensures Unstuffed(a + b) == Unstuffed(a) + Unstuffed(b)
    decreases |a|
  {
    if a == [] {
      assert a + b == b;
    } else {
      var n := if a[0] == 0xFF then 2 else 1;
      assert (a + b)[n..] == a[n..] + b;
      UnstuffedBehind(a[n..], b);
      assert [a[0]] + (Unstuffed(a[n..]) + Unstuffed(b)) == ([a[0]] + Unstuffed(a[n..])) + Unstuffed(b);
    }
  }

  /** Stuffed data show no marker, and dropping the zeros gives them back. */
  lemma {:induction false} StuffedHidesMarkers(d: seq<Byte>)
    ensures NoMarker(Stuffed(d)) && Unstuffed(Stuffed(d)) == d
    decreases |d|
  {
    if d != [] {
      var n := |d| - 1;
      StuffedHidesMarkers(d[..n]);
      var tail: seq<Byte> := if d[n] == 0xFF then [0xFF, 0] else [d[n]];
      UnstuffedBehind(Stuffed(d[..n]), tail);
      TailAlone(d[n], tail);
      assert d[..n] + [d[n]] == d;
    }
  }

  lemma {:induction false} TailAlone(b: Byte, tail: seq<Byte>)
    requires tail == if b == 0xFF then [0xFF, 0] else [b]
    ensures Unstuffed(tail) == [b]
  {
    assert Unstuffed([]) == [];
    assert tail[if b == 0xFF then 2 else 1..] == [];
  }

  /**
   * In a file of the encoder the first marker behind the headers is the one that ends the image, and the bytes between
   * are the data with a zero behind every 0xFF.
   */
  lemma {:induction false} OneMarkerLeft(file: seq<Byte>, px: seq<int>, width: nat, height: nat, depth: nat, t: Table,
                                         sym: seq<nat>, data: seq<Byte>, pad: seq<Bit>)
    requires width >= 1 && FileOf(file, px, width, height, depth, t, sym, data, pad)
    ensures var n := 46 + |t.vals|;
            && n + 2 <= |file| && NoMarker(file[n..|file| - 2]) && Unstuffed(file[n..|file| - 2]) == data
            && file[|file| - 2..] == [0xFF, 0xD9]
  {
    hide Stuffed, NoMarker, Unstuffed, AllBits, ImageBits;
    StuffedHidesMarkers(data);
    var h := Header(width, height, depth, t.bits, t.vals);
    assert |h| == 46 + |t.vals|;
    assert file == h + (Stuffed(data) + END_OF_IMAGE);
    assert file[|h|..|file| - 2] == Stuffed(data);
  }
}
