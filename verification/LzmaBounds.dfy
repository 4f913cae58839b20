/**
 * How much input one LZMA symbol can take: the hard bound of 20 bytes, and the exact
 * agreement of the dry run LzmaDec_TryDummy with the real decoder.
 */
module LzmaBounds {
  import opened Bits
  import opened Bytes
  import opened RangeSpec
  import opened RangeEncoder
  import opened RangeDecoder
  import opened LzmaContexts
  import opened LzmaPackets
  import opened LzmaRun

  /** The number of bytes LzmaDec_DecodeToDic keeps in reserve before decoding without checks. */
  const LZMA_REQUIRED_INPUT_MAX := 20

  // ---------------------------------------------------------------- the 20-byte bound

  function Pow(b: nat, n: nat): (r: nat)
    ensures b >= 1 ==> r >= 1
  {
    if n == 0 then 1 else b * Pow(b, n - 1)
  }

  /** The modelled and the direct bits a run reads. */
  function Counts(e: Env, ph: Phase, d: Machine, s: seq<Byte>, coders: nat): (nat, nat)
    requires EnvOk(e, coders) && PhaseOk(ph) && MachineOk(d, coders)
    decreases BitsLeft(ph), d
  {
    if ph.Done? then (0, 0)
    else
      var (d', b) := Answer(e, ph, d, s, coders);
      NextOk(e, ph, b);
      BitsLeftDrops(e, ph, b);
      var (m, r) := Counts(e, Next(e, ph, b), d', s, coders);
      if AsksRaw(ph) then (m, r + 1) else (m + 1, r)
  }

  /** Modelled bits that may still come before the distance footer. */
  function Ahead(ph: Phase): nat
  {
    match ph
    case AtIsMatch => 18
    case AtIsRep => 17
    case AtRepG0 => 16
    case AtRep0Long => 15
    case AtRepG1 => 15
    case AtRepG2 => 14
    case AtChoice(u) => if u.ForMatch? then 16 else 10
    case AtChoice2(u) => if u.ForMatch? then 15 else 9
    case AtTree(t, n, _) => n + (if (t.TLow? || t.TMid? || t.THigh?) && t.u.ForMatch? then 6 else 0)
    case AtMatched(n, _, _, _) => n
    case _ => 0
  }

  /** The most bits of each kind still to come: five special bits, or 26 direct and four align bits. */
  predicate CountsFit(ph: Phase, m: nat, r: nat)
  {
    match ph
    case Done(_) => m == 0 && r == 0
    case AtSpec(_, _, n, _, _, _) => m <= n && r == 0
    case AtAlign(_, _, n, _, _) => m <= n && r == 0
    case AtDirect(_, _, n) => m <= 4 && r <= n
    case _ => (m <= Ahead(ph) + 5 && r == 0) || (m <= Ahead(ph) + 4 && r <= 26)
  }

  lemma {:induction false} CountsFitStep(e: Env, ph: Phase, b: Bit, m: nat, r: nat)
    requires PhaseOk(ph) && !ph.Done? && CountsFit(Next(e, ph, b), m, r)
    requires PhaseOk(Next(e, ph, b))
    ensures if AsksRaw(ph) then CountsFit(ph, m, r + 1) else CountsFit(ph, m + 1, r)
  {
    if ph.AtTree? {
      CountsFitTree(e, ph.t, ph.n, ph.m, b, m, r);
    }
  }

  lemma {:induction false} CountsFitTree(e: Env, t: TreeUse, n: nat, node: nat, b: Bit, m: nat, r: nat)
    requires PhaseOk(AtTree(t, n, node)) && CountsFit(Next(e, AtTree(t, n, node), b), m, r)
    requires PhaseOk(Next(e, AtTree(t, n, node), b))
    ensures CountsFit(AtTree(t, n, node), m + 1, r)
  {
    if n <= 1 {
      var v := ToNat(2 * node + b - Pow2(TreeDepth(t)));
      match t
      case TSlot(len) => assert Next(e, AtTree(t, n, node), b) == SlotRead(len, v);
      case _ =>
    }
  }

  lemma {:induction false} CountsBound(e: Env, ph: Phase, d: Machine, s: seq<Byte>, coders: nat)
    requires EnvOk(e, coders) && PhaseOk(ph) && MachineOk(d, coders)
    ensures var (m, r) := Counts(e, ph, d, s, coders); CountsFit(ph, m, r)
    decreases BitsLeft(ph)
  {
    if !ph.Done? {
      var (d', b) := Answer(e, ph, d, s, coders);
      NextOk(e, ph, b);
      BitsLeftDrops(e, ph, b);
      CountsBound(e, Next(e, ph, b), d', s, coders);
      var (m, r) := Counts(e, Next(e, ph, b), d', s, coders);
      CountsFitStep(e, ph, b, m, r);
    }
  }

  /** One bit shrinks the range by less than the factor its kind is charged. */
  lemma {:induction false} BitCost(n: Reader, p: Prob)
    requires Normal(n.range)
    ensures n.range <= 67 * Select(n, p).0.range
    ensures 100 * n.range <= 201 * SelectDirect(n).0.range
  {
    SplitBounds(n.range, p);
    var q := n.range / MODEL_TOTAL;
    MulLe(q, 31, p);
    MulLe(q, p, 2017);
    assert 67 * (q * 31) >= n.range;
  }

  /** Either choice normalises to a range 256 times as large after one byte, or stays as it is. */
  lemma {:induction false} NormalizeScales(r: Reader, s: seq<Byte>)
    requires Wide(r.range)
    ensures var n := Normalize(r, s);
            && r.pos <= n.pos <= r.pos + 1
            && n.range == r.range * Pow256(n.pos - r.pos)
  {
    assert Pow256(0) == 1 && Pow256(1) == 256 by { assert Pow256(1) == 256 * Pow256(0); }
  }

  /** Answering one question: the normalising byte is read, and the range shrinks by the charged factor. */
  lemma {:induction false} AnswerCost(e: Env, ph: Phase, d: Machine, s: seq<Byte>, coders: nat)
    requires EnvOk(e, coders) && PhaseOk(ph) && !ph.Done? && MachineOk(d, coders)
    ensures var n := Normalize(d.rc, s);
            var r := Answer(e, ph, d, s, coders).0.rc;
            && r.pos == n.pos
            && (if AsksRaw(ph) then 100 * n.range <= 201 * r.range else n.range <= 67 * r.range)
  {
    var n := Normalize(d.rc, s);
    if AsksRaw(ph) {
      BitCost(n, PROB_INIT);
    } else {
      AskedInRange(e, ph, coders);
      IndexInvertible(Asked(e, ph), coders);
      BitCost(n, d.probs[Index(Asked(e, ph))]);
    }
  }

  /** After m modelled and r direct bits the range has shrunk at most to 100^r / (67^m 201^r) of itself. */
  predicate Shrunk(from: nat, to: nat, scale: nat, m: nat, r: nat)
  {
    from * scale * Pow(100, r) <= to * (Pow(67, m) * Pow(201, r))
  }

  lemma {:induction false} ShrunkModel(n: nat, mid: nat, pk: nat, pr: nat, to: nat, m: nat, r: nat)
    requires n <= 67 * mid && Shrunk(mid * pk, to, pr, m, r)
    ensures Shrunk(n, to, pk * pr, m + 1, r)
  {
    ShrunkArith(n, mid, 1, 67, pk, pr, Pow(100, r), to, Pow(67, m) * Pow(201, r));
    assert Pow(67, m + 1) * Pow(201, r) == 67 * (Pow(67, m) * Pow(201, r)) by { Assoc(67, Pow(67, m), Pow(201, r)); }
  }

  lemma {:induction false} ShrunkRaw(n: nat, mid: nat, pk: nat, pr: nat, to: nat, m: nat, r: nat)
    requires 100 * n <= 201 * mid && Shrunk(mid * pk, to, pr, m, r)
    ensures Shrunk(n, to, pk * pr, m, r + 1)
  {
    ShrunkArith(n, mid, 100, 201, pk, pr, Pow(100, r), to, Pow(67, m) * Pow(201, r));
    assert Pow(67, m) * Pow(201, r + 1) == 201 * (Pow(67, m) * Pow(201, r)) by {
      Assoc(201, Pow(67, m), Pow(201, r));
      Assoc(Pow(67, m), 201, Pow(201, r));
    }
    var x := n * (pk * pr);
    assert x * Pow(100, r + 1) == 100 * x * Pow(100, r) by { Assoc(x, 100, Pow(100, r)); }
    assert 100 * n * (pk * pr) == 100 * x by { Assoc(100, n, pk * pr); }
  }

  lemma {:induction false} Assoc(a: int, b: int, c: int)
    ensures a * b * c == a * (b * c)
  {
  }

  /** a n <= b mid and mid pk pr h <= to y give (a n)(pk pr) h <= to (b y). */
  lemma {:induction false} ShrunkArith(n: nat, mid: nat, a: nat, b: nat, pk: nat, pr: nat, h: nat, to: nat, y: nat)
    requires a * n <= b * mid && mid * pk * pr * h <= to * y
    ensures a * n * (pk * pr) * h <= to * (b * y)
  {
    var z := pk * pr * h;
    MulLe(z, a * n, b * mid);
    MulLe(b, mid * pk * pr * h, to * y);
    calc {
      a * n * (pk * pr) * h;
      { Assoc(a * n, pk * pr, h); }
      (a * n) * z;
    <=
      (b * mid) * z;
      { Assoc(b, mid, z); Assoc(mid, pk * pr, h); Assoc(mid, pk, pr); }
      b * (mid * pk * pr * h);
    <=
      b * (to * y);
      { Assoc(b, to, y); Assoc(to, b, y); }
      to * (b * y);
    }
  }

  lemma {:induction false} CostStep(raw: bool, n0: Reader, r0: Reader, n1: Reader, s: seq<Byte>, m: nat, r: nat)
    requires Wide(r0.range) && r0.pos == n0.pos
    requires if raw then 100 * n0.range <= 201 * r0.range else n0.range <= 67 * r0.range
    requires var n := Normalize(r0, s); n.pos <= n1.pos && Shrunk(n.range, n1.range, Pow256(n1.pos - n.pos), m, r)
    ensures n0.pos <= n1.pos
    ensures Shrunk(n0.range, n1.range, Pow256(n1.pos - n0.pos), if raw then m else m + 1, if raw then r + 1 else r)
  {
    NormalizeScales(r0, s);
    var n := Normalize(r0, s);
    var k, rest := n.pos - n0.pos, n1.pos - n.pos;
    Pow256Add(k, rest);
    if raw {
      ShrunkRaw(n0.range, r0.range, Pow256(k), Pow256(rest), n1.range, m, r);
    } else {
      ShrunkModel(n0.range, r0.range, Pow256(k), Pow256(rest), n1.range, m, r);
    }
  }

  lemma {:induction false} NoCost(range: nat)
    ensures Shrunk(range, range, Pow256(0), 0, 0)
  {
    assert Pow256(0) == 1 && Pow(100, 0) == 1 && Pow(67, 0) == 1 && Pow(201, 0) == 1;
  }

  /** Every byte read multiplies the range by 256, and every bit shrinks it at most by its charge. */
  lemma {:induction false} RunCost(e: Env, ph: Phase, d: Machine, s: seq<Byte>, coders: nat)
    requires EnvOk(e, coders) && PhaseOk(ph) && MachineOk(d, coders)
    ensures var n0 := Normalize(d.rc, s);
            var n1 := Normalize(Run(e, ph, d, s, coders).0.rc, s);
            var (m, r) := Counts(e, ph, d, s, coders);
            n0.pos <= n1.pos && Shrunk(n0.range, n1.range, Pow256(n1.pos - n0.pos), m, r)
    decreases BitsLeft(ph)
  {
    hide Answer, Next, Normalize, Shrunk, PhaseOk, Pow256;
    var n0 := Normalize(d.rc, s);
    if ph.Done? {
      NoCost(n0.range);
    } else {
      var (d', b) := Answer(e, ph, d, s, coders);
      var next := Next(e, ph, b);
      NextOk(e, ph, b);
      BitsLeftDrops(e, ph, b);
      AnswerCost(e, ph, d, s, coders);
      RunCost(e, next, d', s, coders);
      var n1 := Normalize(Run(e, next, d', s, coders).0.rc, s);
      var (m, r) := Counts(e, next, d', s, coders);
      CostStep(AsksRaw(ph), n0, d'.rc, n1, s, m, r);
    }
  }

  lemma {:induction false} PowMonotone(b: nat, m: nat, n: nat)
    requires b >= 1 && m <= n
    ensures Pow(b, m) <= Pow(b, n)
    decreases n
  {
    if m < n {
      PowMonotone(b, m, n - 1);
      MulLe(Pow(b, n - 1), 1, b);
    }
  }

  /** An upper bound of 1000 * 2.01^r. */
  function RatioBound(r: nat): nat
  {
    Pow2(r) * (1000 + 7 * r)
  }

  lemma {:induction false} RawRatio(r: nat)
    requires r <= 26
    ensures 1000 * Pow(201, r) <= RatioBound(r) * Pow(100, r)
  {
    if r > 0 {
      RawRatio(r - 1);
      RatioStep(Pow(201, r - 1), Pow2(r - 1), 1000 + 7 * (r - 1), 1000 + 7 * r, Pow(100, r - 1));
    }
  }

  lemma {:induction false} RatioStep(q: nat, w: nat, x: nat, y: nat, p: nat)
    requires 1000 * q <= w * x * p && 201 * x <= 200 * y
    ensures 1000 * (201 * q) <= 2 * w * y * (100 * p)
  {
    var z := w * p;
    MulLe(z, 201 * x, 200 * y);
    assert w * x * p == z * x by { Assoc(w, x, p); Assoc(w, p, x); }
    assert 2 * w * y * (100 * p) == 200 * (z * y) by {
      Assoc(2, w, y);
      Assoc(2 * (w * y), 100, p);
      Assoc(w, y, p);
      Assoc(w, p, y);
    }
    assert z * (201 * x) == 201 * (z * x) && z * (200 * y) == 200 * (z * y) by { Assoc(z, 201, x); Assoc(z, 200, y); }
  }

  lemma {:induction false} RatioBoundMonotone(r: nat)
    requires r <= 26
    ensures RatioBound(r) <= 79_400_000_000
    decreases 26 - r
  {
    if r < 26 {
      RatioBoundMonotone(r + 1);
      MulLe(Pow2(r), 1000 + 7 * r, 2 * (1007 + 7 * r));
    } else {
      assert Pow2(26) == 0x400_0000 by { assert Pow2(13) == 0x2000; }
    }
  }

  /** 256^21 */
  const TOO_MANY: nat := 0x100_0000_0000_0000_0000_0000_0000_0000_0000_0000_0000

  lemma {:induction false} Pow256Big(k: nat)
    requires k >= 21
    ensures Pow256(k) >= TOO_MANY
    decreases k
  {
    if k == 21 {
      assert Pow256(8) == 0x1_0000_0000_0000_0000 by { assert Pow256(4) == B32; }
      assert Pow256(5) == 0x100_0000_0000 by { assert Pow256(2) == 0x1_0000; }
      Pow256Add(8, 5);
      Pow256Add(8, 13);
    } else {
      Pow256Big(k - 1);
    }
  }

  /** All factors together: 22 modelled and 26 direct bits are worth less than 160 bits. */
  lemma {:induction false} BudgetBound(m: nat, r: nat)
    requires (m <= 23 && r == 0) || (m <= 22 && r <= 26)
    ensures 256 * (Pow(67, m) * Pow(201, r)) < TOO_MANY * Pow(100, r)
  {
    Pow67();
    if r == 0 {
      PowMonotone(67, m, 23);
    } else {
      PowMonotone(67, m, 22);
      RawRatio(r);
      RatioBoundMonotone(r);
      BudgetArith(Pow(67, m), Pow(201, r), RatioBound(r), Pow(100, r));
    }
  }

  /** 67^22 */
  const MODELLED_22: nat := 14915769363385151583217201855136979828889

  lemma {:induction false} BudgetArith(m67: nat, r201: nat, ratio: nat, r100: nat)
    requires m67 <= MODELLED_22 && 1000 * r201 <= ratio * r100 && ratio <= 79_400_000_000 && r100 > 0
    ensures 256 * (m67 * r201) < TOO_MANY * r100
  {
    MulLe(r100, ratio, 79_400_000_000);
    MulLe(r201, m67, MODELLED_22);
    assert r201 <= 79_400_000 * r100;
  }

  lemma {:induction false} Pow67()
    ensures Pow(67, 22) == MODELLED_22
    ensures 256 * Pow(67, 23) < TOO_MANY
  {
    assert Pow(67, 11) == 122130132904968017083;
    PowAdd(67, 11, 11);
    assert Pow(67, 23) == 67 * Pow(67, 22);
  }

  lemma {:induction false} PowAdd(b: nat, m: nat, n: nat)
    ensures Pow(b, m + n) == Pow(b, m) * Pow(b, n)
  {
    if m > 0 {
      PowAdd(b, m - 1, n);
      Assoc(b, Pow(b, m - 1), Pow(b, n));
    }
  }

  lemma {:induction false} LimitsClash(n0: nat, n1: nat, p: nat, h: nat, y: nat)
    requires n0 >= TOP && n1 < B32 && p >= TOO_MANY && n0 * p * h <= n1 * y
    requires h > 0
    ensures TOO_MANY * h <= 256 * y
  {
    MulLe(y, n1, B32);
    MulLe(p, TOP, n0);
    MulLe(TOP, TOO_MANY, p);
    MulLe(h, TOP * TOO_MANY, n0 * p);
    assert TOP * TOO_MANY * h <= n0 * p * h;
    assert TOP * (TOO_MANY * h) <= B32 * y;
  }

  /** A normalised range lies between 2^24 and 2^32, so the bytes read are bounded by the bits read. */
  lemma {:induction false} RangeLimits(n0: nat, n1: nat, p: nat, m: nat, r: nat)
    requires n0 >= TOP && n1 < B32 && Shrunk(n0, n1, p, m, r)
    requires 256 * (Pow(67, m) * Pow(201, r)) < TOO_MANY * Pow(100, r)
    ensures p < TOO_MANY
  {
    if p >= TOO_MANY {
      LimitsClash(n0, n1, p, Pow(100, r), Pow(67, m) * Pow(201, r));
    }
  }

  lemma {:induction false} RunBytes(e: Env, ph: Phase, d: Machine, s: seq<Byte>, coders: nat)
    requires EnvOk(e, coders) && PhaseOk(ph) && MachineOk(d, coders)
    requires forall m, r :: CountsFit(ph, m, r) ==> (m <= 23 && r == 0) || (m <= 22 && r <= 26)
    ensures var n0 := Normalize(d.rc, s);
            var n1 := Normalize(Run(e, ph, d, s, coders).0.rc, s);
            n0.pos <= n1.pos <= n0.pos + LZMA_REQUIRED_INPUT_MAX
  {
    hide Run, Counts, Shrunk;
    var n0 := Normalize(d.rc, s);
    var n1 := Normalize(Run(e, ph, d, s, coders).0.rc, s);
    var (m, r) := Counts(e, ph, d, s, coders);
    RunCost(e, ph, d, s, coders);
    CountsBound(e, ph, d, s, coders);
    BytesBound(n0.range, n1.range, n1.pos - n0.pos, m, r);
  }

  /** One LZMA symbol, with the normalisation after it, takes at most 20 bytes. */
  lemma {:induction false} SymbolTakesAtMost20Bytes(e: Env, d: Machine, s: seq<Byte>, coders: nat)
    requires EnvOk(e, coders) && MachineOk(d, coders)
    ensures var n0 := Normalize(d.rc, s);
            var n1 := Normalize(Run(e, AtIsMatch, d, s, coders).0.rc, s);
            n0.pos <= n1.pos <= n0.pos + LZMA_REQUIRED_INPUT_MAX
  {
    RunBytes(e, AtIsMatch, d, s, coders);
  }

  lemma {:induction false} BytesBound(n0: nat, n1: nat, k: nat, m: nat, r: nat)
    requires n0 >= TOP && n1 < B32 && Shrunk(n0, n1, Pow256(k), m, r)
    requires (m <= 23 && r == 0) || (m <= 22 && r <= 26)
    ensures k <= 20
  {
    BudgetBound(m, r);
    RangeLimits(n0, n1, Pow256(k), m, r);
    if k > 20 {
      Pow256Big(k);
    }
  }
}
