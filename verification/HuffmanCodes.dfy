/**
 * Canonical Huffman codes from the number of code words of each length (section C.2 of ITU-T T.81). A code
 * word of length l is drawn as the interval of all m-bit numbers it is a prefix of.
 */
module HuffmanCodes {
  import opened Bits
  import opened HuffmanTree
  import opened HuffmanOptimal

  /** The lengths of the code words of at most l bits, shortest first. */
  function Lens(bits: seq<nat>, l: nat): seq<nat>
    requires l < |bits|
  {
    if l == 0 then [] else Lens(bits, l - 1) + Same(l, bits[l])
  }

  function Same(l: nat, n: nat): (r: seq<nat>)
    ensures |r| == n && forall i :: 0 <= i < n ==> r[i] == l
  {
    seq<nat>(n, _ => l)
  }

  /** Where the interval of the k-th code word begins. */
  function Start(lens: seq<nat>, m: nat, k: nat): nat
    requires k <= |lens|
  {
    if k == 0 then 0 else Start(lens, m, k - 1) + Space(m, lens[k - 1])
  }

  function Code(lens: seq<nat>, m: nat, k: nat): nat
    requires k < |lens|
  {
    Shr(Start(lens, m, k), m - (if lens[k] <= m then lens[k] else m))
  }

  /** Lengths of up to m bits whose code words divide the m-bit numbers among them. */
  ghost predicate Complete(bits: seq<nat>, m: nat)
  {
    && |bits| == LONGEST + 1 && 1 <= m <= LONGEST && bits[m] > 0
    && (forall l :: m < l <= LONGEST ==> bits[l] == 0)
    && Start(Lens(bits, LONGEST), m, |Lens(bits, LONGEST)|) == Pow2(m)
  }

  // ---------------------------------------------------------------- lengths

  lemma {:induction false} LensPrefix(bits: seq<nat>, l: nat, n: nat)
    requires l <= n < |bits|
    ensures Lens(bits, l) <= Lens(bits, n)
    decreases n
  {
    if l < n { LensPrefix(bits, l, n - 1); }
  }

  /** The code words of l bits come right after all shorter ones. */
  lemma {:induction false} LensAt(bits: seq<nat>, l: nat, v: nat, n: nat)
    requires 1 <= l <= n < |bits| && v < bits[l]
    ensures |Lens(bits, l - 1)| + v < |Lens(bits, n)| && Lens(bits, n)[|Lens(bits, l - 1)| + v] == l
  {
    LensPrefix(bits, l, n);
    assert Lens(bits, l)[|Lens(bits, l - 1)| + v] == l;
  }

  lemma {:induction false} LensBounds(bits: seq<nat>, n: nat, m: nat)
    requires n < |bits| && forall l :: m < l <= n ==> bits[l] == 0
    ensures forall k :: 0 <= k < |Lens(bits, n)| ==> 1 <= Lens(bits, n)[k] <= m && Lens(bits, n)[k] <= n
    ensures forall j, k :: 0 <= j <= k < |Lens(bits, n)| ==> Lens(bits, n)[j] <= Lens(bits, n)[k]
  {
    if n > 0 { LensBounds(bits, n - 1, m); }
  }

  /** Every place in the list belongs to a length. */
  lemma {:induction false} LensOf(bits: seq<nat>, n: nat, k: nat) returns (l: nat, v: nat)
    requires n < |bits| && k < |Lens(bits, n)|
    ensures 1 <= l <= n && v < bits[l] && k == |Lens(bits, l - 1)| + v && Lens(bits, n)[k] == l
  {
    if k < |Lens(bits, n - 1)| {
      l, v := LensOf(bits, n - 1, k);
    } else {
      l, v := n, k - |Lens(bits, n - 1)|;
    }
  }

  lemma {:induction false} LensEnd(bits: seq<nat>, m: nat, n: nat)
    requires m <= n < |bits| && forall l :: m < l <= n ==> bits[l] == 0
    ensures Lens(bits, n) == Lens(bits, m)
    decreases n
  {
    if m < n {
      LensEnd(bits, m, n - 1);
      assert Same(n, 0) == [];
    }
  }

  // ---------------------------------------------------------------- the total

  function CountOf(cs: seq<nat>, l: nat, n: nat): nat
    requires n <= |cs|
  {
    if n == 0 then 0 else CountOf(cs, l, n - 1) + if cs[n - 1] == l then 1 else 0
  }

  function Times(n: nat, w: nat): nat
  {
    if n == 0 then 0 else Times(n - 1, w) + w
  }

  /** The code space of the first n leaves with a code word of at most l bits. */
  function KraftUpTo(cs: seq<nat>, l: nat, n: nat): nat
    requires n <= |cs|
  {
    if n == 0 then 0 else KraftUpTo(cs, l, n - 1) + if 1 <= cs[n - 1] <= l then Weight(cs[n - 1]) else 0
  }

  lemma {:induction false} KraftByLength(cs: seq<nat>, l: nat, n: nat)
    requires 1 <= l && n <= |cs|
    ensures KraftUpTo(cs, l, n) == KraftUpTo(cs, l - 1, n) + Times(CountOf(cs, l, n), Weight(l))
  {
    if n > 0 { KraftByLength(cs, l, n - 1); }
  }

  lemma {:induction false} StartSame(lens: seq<nat>, m: nat, l: nat, n: nat)
    ensures Start(lens + Same(l, n), m, |lens| + n) == Start(lens, m, |lens|) + Times(n, Space(m, l))
    decreases n
  {
    if n == 0 {
      assert lens + Same(l, 0) == lens;
    } else {
      StartSame(lens, m, l, n - 1);
      assert lens + Same(l, n) == (lens + Same(l, n - 1)) + [l];
      StartPrefix(lens + Same(l, n - 1), [l], m, |lens| + n - 1);
    }
  }

  lemma {:induction false} StartPrefix(a: seq<nat>, b: seq<nat>, m: nat, k: nat)
    requires k <= |a|
    ensures Start(a + b, m, k) == Start(a, m, k)
  {
    if k > 0 { StartPrefix(a, b, m, k - 1); }
  }

  lemma {:induction false} KraftZero(cs: seq<nat>, n: nat)
    requires n <= |cs|
    ensures KraftUpTo(cs, 0, n) == 0
  {
    if n > 0 { KraftZero(cs, n - 1); }
  }

  /** Sorting the code words by length keeps the code space they take. */
  lemma {:induction false} SortedKraft(bits: seq<nat>, cs: seq<nat>, l: nat)
    requires l < |bits| <= LONGEST + 1 && forall i :: 1 <= i < |bits| ==> bits[i] == CountOf(cs, i, |cs|)
    ensures Start(Lens(bits, l), LONGEST, |Lens(bits, l)|) == KraftUpTo(cs, l, |cs|)
  {
    if l == 0 {
      KraftZero(cs, |cs|);
    } else {
      SortedKraft(bits, cs, l - 1);
      KraftByLength(cs, l, |cs|);
      StartSame(Lens(bits, l - 1), LONGEST, l, bits[l]);
    }
  }

  lemma {:induction false} KraftAll(cs: seq<nat>, n: nat)
    requires n <= |cs| && forall i :: 0 <= i < |cs| ==> cs[i] <= LONGEST
    ensures KraftUpTo(cs, LONGEST, n) == Kraft(cs, n)
  {
    if n > 0 { KraftAll(cs, n - 1); }
  }

  lemma {:induction false} ShlAdd(a: nat, b: nat, n: nat)
    ensures Shl(a + b, n) == Shl(a, n) + Shl(b, n)
  {
    if n > 0 { ShlAdd(a, b, n - 1); }
  }

  lemma {:induction false} ShlPower(a: nat, n: nat)
    ensures Shl(Pow2(a), n) == Pow2(a + n)
  {
    if n > 0 { ShlPower(a, n - 1); }
  }

  /** The intervals scale with the number of bits. */
  lemma {:induction false} StartScales(lens: seq<nat>, m: nat, n: nat, k: nat)
    requires k <= |lens| && forall j :: 0 <= j < |lens| ==> lens[j] <= m
    ensures Start(lens, m + n, k) == Shl(Start(lens, m, k), n)
    decreases k
  {
    if k == 0 {
      ShlZero(n);
    } else {
      StartScales(lens, m, n, k - 1);
      ShlAdd(Start(lens, m, k - 1), Space(m, lens[k - 1]), n);
      ShlPower(m - lens[k - 1], n);
    }
  }

  lemma {:induction false} ShlInjective(a: nat, b: nat, n: nat)
    requires Shl(a, n) == Shl(b, n)
    ensures a == b
  {
    if n > 0 { ShlInjective(a, b, n - 1); }
  }

  /** Code lengths that fill the code space make a complete table. */
  lemma {:induction false} CompleteFrom(bits: seq<nat>, m: nat, cs: seq<nat>)
    requires |bits| == LONGEST + 1 && 1 <= m <= LONGEST && bits[m] > 0 && forall l :: m < l <= LONGEST ==> bits[l] == 0
    requires forall i :: 1 <= i < |bits| ==> bits[i] == CountOf(cs, i, |cs|)
    requires forall i :: 0 <= i < |cs| ==> cs[i] <= LONGEST
    requires Kraft(cs, |cs|) == Pow2(LONGEST)
    ensures Complete(bits, m)
  {
    hide Start, Kraft, KraftUpTo, Shl, Pow2;
    var lens := Lens(bits, LONGEST);
    SortedKraft(bits, cs, LONGEST);
    KraftAll(cs, |cs|);
    LensBounds(bits, LONGEST, m);
    StartScales(lens, m, LONGEST - m, |lens|);
    ShlPower(m, LONGEST - m);
    ShlInjective(Start(lens, m, |lens|), Pow2(m), LONGEST - m);
  }

  // ---------------------------------------------------------------- looking up

  lemma {:induction false} StartMonotone(lens: seq<nat>, m: nat, j: nat, k: nat)
    requires j <= k <= |lens|
    ensures Start(lens, m, j) <= Start(lens, m, k)
    decreases k
  {
    if j < k { StartMonotone(lens, m, j, k - 1); }
  }

  /** The code word among the first n that is a prefix of the m-bit number x. */
  function CodeOf(lens: seq<nat>, m: nat, x: nat, n: nat): (k: nat)
    requires n <= |lens| && x < Start(lens, m, n)
    ensures k < n && Start(lens, m, k) <= x < Start(lens, m, k + 1)
  {
    if Start(lens, m, n - 1) <= x then n - 1 else CodeOf(lens, m, x, n - 1)
  }

  /** Code words are prefix-free: no number has two of them. */
  lemma {:induction false} CodeUnique(lens: seq<nat>, m: nat, x: nat, j: nat, n: nat)
    requires n <= |lens| && x < Start(lens, m, n) && j < n && Start(lens, m, j) <= x < Start(lens, m, j + 1)
    ensures CodeOf(lens, m, x, n) == j
  {
    var k := CodeOf(lens, m, x, n);
    if j < k {
      StartMonotone(lens, m, j + 1, k);
    } else if k < j {
      StartMonotone(lens, m, k + 1, j);
    }
  }

  /** The intervals of words of up to l bits begin at multiples of 2^(m - l). */
  lemma {:induction false} StartAligned(lens: seq<nat>, m: nat, k: nat, l: nat)
    requires k <= |lens| && l <= m && forall j :: 0 <= j < k ==> lens[j] <= l
    ensures Shl(Shr(Start(lens, m, k), m - l), m - l) == Start(lens, m, k)
    decreases k
  {
    if k == 0 {
      ShrShlExact(0, m - l);
      ShlZero(m - l);
    } else {
      StartAligned(lens, m, k - 1, l);
      var a := Shr(Start(lens, m, k - 1), m - l);
      ShlPower(l - lens[k - 1], m - l);
      ShlAdd(a, Pow2(l - lens[k - 1]), m - l);
      ShrShlExact(a + Pow2(l - lens[k - 1]), m - l);
    }
  }

  lemma {:induction false} ShrShlExact(v: nat, n: nat)
    ensures Shr(Shl(v, n), n) == v
  {
    if n > 0 {
      assert Shl(v, n) / 2 == Shl(v, n - 1);
      ShrShlExact(v, n - 1);
    }
  }

  /** The code word itself, shifted up, is where its interval begins. */
  lemma {:induction false} CodeStarts(bits: seq<nat>, m: nat, k: nat)
    requires Complete(bits, m) && k < |Lens(bits, LONGEST)|
    ensures var lens := Lens(bits, LONGEST);
            1 <= lens[k] <= m && Shl(Code(lens, m, k), m - lens[k]) == Start(lens, m, k)
            && Start(lens, m, k + 1) == Start(lens, m, k) + Pow2(m - lens[k])
  {
    var lens := Lens(bits, LONGEST);
    LensBounds(bits, LONGEST, m);
    StartAligned(lens, m, k, lens[k]);
  }

  lemma {:induction false} ShlLess(a: nat, b: nat, n: nat)
    ensures Shl(a, n) < Shl(b, n) <==> a < b
  {
    if n > 0 { ShlLess(a, b, n - 1); }
  }

  /** The code word of length lens[k] has that many bits. */
  lemma {:induction false} CodeFits(bits: seq<nat>, m: nat, k: nat)
    requires Complete(bits, m) && k < |Lens(bits, LONGEST)|
    ensures var lens := Lens(bits, LONGEST); Code(lens, m, k) < Pow2(lens[k])
  {
    hide Start, Shl, Shr, Lens, Code;
    var lens := Lens(bits, LONGEST);
    CodeStarts(bits, m, k);
    StartMonotone(lens, m, k + 1, |lens|);
    ShlPower(lens[k], m - lens[k]);
    PowPositive(m - lens[k]);
    ShlLess(Code(lens, m, k), Pow2(lens[k]), m - lens[k]);
  }

  /** The last code word of a complete code is all ones. */
  lemma {:induction false} LastCodeAllOnes(bits: seq<nat>, m: nat)
    requires Complete(bits, m)
    ensures var lens := Lens(bits, LONGEST);
            lens != [] && Code(lens, m, |lens| - 1) == Pow2(lens[|lens| - 1]) - 1
  {
    hide Shl, Shr, Lens, Code;
    var lens := Lens(bits, LONGEST);
    PowPositive(m);
    var last := |lens| - 1;
    CodeStarts(bits, m, last);
    var n := m - lens[last];
    PowPositive(lens[last]);
    ShlAdd(Pow2(lens[last]) - 1, 1, n);
    ShlPower(lens[last], n);
    ShlOne(n);
    ShlInjective(Code(lens, m, last), Pow2(lens[last]) - 1, n);
  }

  /** The only complete code of two words has one bit for each. */
  lemma {:induction false} TwoWords(bits: seq<nat>, m: nat)
    requires Complete(bits, m) && |Lens(bits, LONGEST)| == 2
    ensures Lens(bits, LONGEST) == [1, 1] && m == 1
  {
    hide Lens;
    var lens := Lens(bits, LONGEST);
    LensBounds(bits, LONGEST, m);
    assert Start(lens, m, 2) == Space(m, lens[0]) + Space(m, lens[1]) by {
      assert Start(lens, m, 0) == 0;
      assert Start(lens, m, 1) == Space(m, lens[0]);
    }
    HalfRoom(m, lens[0]);
    HalfRoom(m, lens[1]);
    InUse(bits, m);
  }

  lemma {:induction false} HalfRoom(m: nat, c: nat)
    requires 1 <= c <= m
    ensures if c == 1 then 2 * Space(m, c) == Pow2(m) else 4 * Space(m, c) <= Pow2(m)
  {
    if c >= 2 {
      Pow2Monotone(m - c, m - 2);
      assert Pow2(m) == 2 * Pow2(m - 1) && Pow2(m - 1) == 2 * Pow2(m - 2);
    }
  }

  /** The longest length in use is that of some code word. */
  lemma {:induction false} InUse(bits: seq<nat>, m: nat)
    requires Complete(bits, m)
    ensures exists k :: 0 <= k < |Lens(bits, LONGEST)| && Lens(bits, LONGEST)[k] == m
  {
    hide Start;
    LensAt(bits, m, 0, LONGEST);
  }

  lemma {:induction false} PowPositive(n: nat)
    ensures Pow2(n) > 0
  {
  }

  /** Whatever bits follow a code word, the number they make finds that code word. */
  lemma {:induction false} FollowedCode(bits: seq<nat>, m: nat, k: nat, y: nat)
    requires Complete(bits, m) && k < |Lens(bits, LONGEST)| && 1 <= Lens(bits, LONGEST)[k] <= m
    requires y < Pow2(m - Lens(bits, LONGEST)[k])
    ensures var lens := Lens(bits, LONGEST); var x := Shl(Code(lens, m, k), m - lens[k]) + y;
            x < Pow2(m) && CodeOf(lens, m, x, |lens|) == k
  {
    hide Shl, Shr, Lens, Code;
    var lens := Lens(bits, LONGEST);
    CodeStarts(bits, m, k);
    StartMonotone(lens, m, k + 1, |lens|);
    CodeUnique(lens, m, Shl(Code(lens, m, k), m - lens[k]) + y, k, |lens|);
  }
}
