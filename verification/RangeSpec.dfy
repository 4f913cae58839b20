/**
 * The arithmetic of the LZMA range coder on unbounded integers.
 *
 * An encoder state is an interval [low, low + range) scaled by 256^shifts; a
 * binary decision narrows the interval, and a renormalisation multiplies it by 256.
 */
module RangeSpec {
  import opened Bits
  import opened Bytes

  const TOP := 0x100_0000
  const MODEL_TOTAL := 2048

  /** The values an adaptive probability can take in any run. */
  type Prob = p: int | 31 <= p <= 2017 witness 1024

  /** One binary decision: with an 11-bit probability of a zero, or an equiprobable bit. */
  datatype Step = Modelled(prob: Prob, bit: Bit) | Direct(bit: Bit)

  datatype Interval = Interval(low: nat, range: nat, shifts: nat)

  const START := Interval(0, 0xFFFF_FFFF, 0)

  predicate Normal(range: nat)
  {
    TOP <= range < B32
  }

  function Bound(range: nat, p: Prob): nat
  {
    range / MODEL_TOTAL * p
  }

  /** The sub-interval a decision selects, before renormalisation. */
  function Narrow(iv: Interval, s: Step): Interval
    requires Normal(iv.range)
  {
    match s
    case Modelled(p, b) =>
      SplitBounds(iv.range, p);
      if b == 0 then iv.(range := Bound(iv.range, p))
      else iv.(low := iv.low + Bound(iv.range, p), range := iv.range - Bound(iv.range, p))
    case Direct(b) =>
      iv.(low := iv.low + (if b == 1 then iv.range / 2 else 0), range := iv.range / 2)
  }

  function Renorm(iv: Interval): Interval
  {
    if iv.range < TOP then Interval(256 * iv.low, 256 * iv.range, iv.shifts + 1) else iv
  }

  /** Both halves of a split are at least 2^16 wide, so a single shift always restores 2^24. */
  lemma {:induction false} SplitBounds(range: nat, p: Prob)
    requires Normal(range)
    ensures 0x1_0000 <= Bound(range, p) && Bound(range, p) + 0x1_0000 <= range
  {
    var q := range / MODEL_TOTAL;
    assert q * 31 <= q * p <= q * 2017 by {
      MulLe(q, 31, p);
      MulLe(q, p, 2017);
    }
  }

  lemma {:induction false} MulLe(a: int, x: int, y: int)
    requires 0 <= a && x <= y
    ensures a * x <= a * y
  {
  }

  function After(iv: Interval, s: Step): (r: Interval)
    requires Normal(iv.range)
    ensures Normal(r.range)
  {
    NarrowWidth(iv, s);
    Renorm(Narrow(iv, s))
  }

  lemma {:induction false} NarrowWidth(iv: Interval, s: Step)
    requires Normal(iv.range)
    ensures var n := Narrow(iv, s);
            0x1_0000 <= n.range <= iv.range && iv.low <= n.low &&
            n.low + n.range <= iv.low + iv.range && n.shifts == iv.shifts
  {
    match s
    case Modelled(p, b) => SplitBounds(iv.range, p);
    case Direct(b) =>
  }

  function AfterAll(iv: Interval, q: seq<Step>): (r: Interval)
    requires Normal(iv.range)
    ensures Normal(r.range)
    decreases |q|
  {
    if q == [] then iv else AfterAll(After(iv, q[0]), q[1..])
  }

  lemma {:induction false} AfterAllConcat(iv: Interval, q: seq<Step>, r: seq<Step>)
    requires Normal(iv.range)
    ensures AfterAll(iv, q + r) == AfterAll(AfterAll(iv, q), r)
    decreases |q|
  {
    if q == [] {
      assert q + r == r;
    } else {
      assert (q + r)[1..] == q[1..] + r;
      AfterAllConcat(After(iv, q[0]), q[1..], r);
    }
  }

  /** The interval reached from [0, range): what a decoder knows relative to its own position. */
  function Relative(range: nat, q: seq<Step>): Interval
    requires Normal(range)
  {
    AfterAll(Interval(0, range, 0), q)
  }

  /** One decision, from any starting point, is the same decision from zero. */
  lemma {:induction false} AfterShift(iv: Interval, s: Step)
    requires Normal(iv.range)
    ensures var z := After(Interval(0, iv.range, 0), s);
            z.shifts <= 1 &&
            After(iv, s) == Interval(iv.low * Pow256(z.shifts) + z.low, z.range, iv.shifts + z.shifts)
  {
    Pow256Small();
  }

  lemma {:induction false} Pow256Small()
    ensures Pow256(0) == 1 && Pow256(1) == 256
  {
    assert Pow256(1) == 256 * Pow256(0);
  }

  /** Narrowing commutes with moving and rescaling the starting interval. */
  lemma {:induction false} AfterAllShift(iv: Interval, q: seq<Step>)
    requires Normal(iv.range)
    ensures var rel := Relative(iv.range, q);
            AfterAll(iv, q) == Interval(iv.low * Pow256(rel.shifts) + rel.low, rel.range, iv.shifts + rel.shifts)
    decreases |q|
  {
    if q == [] {
      Pow256Small();
    } else {
      var z := After(Interval(0, iv.range, 0), q[0]);
      AfterShift(iv, q[0]);
      AfterAllShift(After(iv, q[0]), q[1..]);
      RelativeStep(iv.range, q);
      var k := Relative(z.range, q[1..]).shifts;
      Pow256Add(z.shifts, k);
      Distribute(iv.low, Pow256(z.shifts), z.low, Pow256(k));
    }
  }

  /** The relative interval of a whole string from the one of its tail. */
  lemma {:induction false} RelativeStep(range: nat, q: seq<Step>)
    requires Normal(range) && q != []
    ensures var z := After(Interval(0, range, 0), q[0]);
            var rest := Relative(z.range, q[1..]);
            Relative(range, q) == Interval(z.low * Pow256(rest.shifts) + rest.low, rest.range, z.shifts + rest.shifts)
    decreases |q|, 0
  {
    AfterAllShift(After(Interval(0, range, 0), q[0]), q[1..]);
  }

  lemma {:induction false} Distribute(a: int, b: int, c: int, d: int)
    ensures (a * b + c) * d == a * (b * d) + c * d
  {
    assert (a * b) * d == a * (b * d);
  }

  /** Every later interval stays inside the first one. */
  lemma {:induction false} RelativeInside(range: nat, q: seq<Step>)
    requires Normal(range)
    ensures var r := Relative(range, q); r.low + r.range <= range * Pow256(r.shifts)
    decreases |q|
  {
    if q == [] {
      Pow256Small();
    } else {
      hide After, Relative, Pow256;
      var z := After(Interval(0, range, 0), q[0]);
      var k := Relative(z.range, q[1..]).shifts;
      RelativeInside(z.range, q[1..]);
      RelativeStep(range, q);
      Pow256Add(z.shifts, k);
      AfterInside(range, q[0]);
      NestedBound(z.low, z.range, range, Pow256(z.shifts), Pow256(k));
    }
  }

  lemma {:induction false} AfterInside(range: nat, s: Step)
    requires Normal(range)
    ensures var z := After(Interval(0, range, 0), s); Normal(z.range) && z.low + z.range <= range * Pow256(z.shifts)
  {
    NarrowWidth(Interval(0, range, 0), s);
    Pow256Small();
  }

  lemma {:induction false} NestedBound(low: nat, width: nat, range: nat, p: nat, k: nat)
    requires low + width <= range * p
    ensures low * k + width * k <= range * (p * k)
  {
    MulLe(k, low + width, range * p);
    assert k * (range * p) == range * (p * k);
  }
}
