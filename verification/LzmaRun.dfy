/**
 * Driving the packet decisions with the range decoder and its probability array, and the
 * round trip of one packet through both layers.
 */
module LzmaRun {
  import opened Bits
  import opened Bytes
  import opened RangeSpec
  import opened RangeEncoder
  import opened RangeDecoder
  import opened LzmaContexts
  import opened LzmaPackets

  // ---------------------------------------------------------------- well-formed decision points

  predicate UseOk(u: LenUse)
  {
    u.ForRep? ==> u.which < 4
  }

  predicate TreeOk(t: TreeUse)
  {
    match t
    case TLit => true
    case TLow(u) => UseOk(u)
    case TMid(u) => UseOk(u)
    case THigh(u) => UseOk(u)
    case TSlot(len) => 2 <= len <= 273
  }

  /** m is a node at depth w - n of a bit tree of depth w. */
  predicate NodeAt(w: nat, n: nat, m: nat)
  {
    1 <= n <= w && Pow2(w - n) <= m < 2 * Pow2(w - n)
  }

  /** What the variables of the decoding loop can be at each decision; no 32-bit value overflows. */
  predicate PhaseOk(ph: Phase)
  {
    match ph
    case AtTree(t, n, m) => TreeOk(t) && NodeAt(TreeDepth(t), n, m)
    case AtMatched(n, m, offs, _) => NodeAt(8, n, m) && (offs == 0 || offs == 0x100)
    case AtChoice(u) => UseOk(u)
    case AtChoice2(u) => UseOk(u)
    case AtSpec(len, off, n, m, mask, dist) =>
      2 <= len <= 273 && 1 <= n <= 5 && m >= 1 && -1 <= off && off + Shl(m + 1, n - 1) <= 114
      && dist + Shl(mask, n) - mask < B32
    case AtDirect(len, dist, n) => 2 <= len <= 273 && 1 <= n <= 26 && Shl(dist + 1, n) <= 0x1000_0000
    case AtAlign(len, dist, n, m, mask) =>
      2 <= len <= 273 && NodeAt(4, n, m) && mask == Pow2(4 - n) && dist + 16 - mask < B32
    case Done(p) => Encodable(p)
    case _ => true
  }

  lemma {:induction false} ShlGrows(a: nat, b: nat, n: nat)
    requires a <= b
    ensures a <= Shl(a, n) <= Shl(b, n)
  {
    if n > 0 { ShlGrows(a, b, n - 1); }
  }

  lemma {:induction false} SpecSlotOk(len: nat, slot: nat)
    requires 2 <= len <= 273 && 4 <= slot < 14
    ensures PhaseOk(SlotRead(len, slot))
  {
    var n := SlotBits(slot);
    assert slot == 2 * n + 2 || slot == 2 * n + 3;
    assert Pow2(1) == 2 && Pow2(2) == 4 && Pow2(5) == 32;
    ShlTwice(1, n - 1);
    ShlOne(n);
  }

  lemma {:induction false} DirectRoom(top: nat, n: nat)
    requires top <= 4 && n <= 26
    ensures Shl(top, n) <= 0x1000_0000
  {
    hide Shl, Pow2;
    ShlGrows(top, 4, n);
    ShlTwice(2, n);
    ShlTwice(1, n + 1);
    ShlOne(n + 2);
    Pow2Monotone(n + 2, 28);
    Pow2Word();
  }

  lemma {:induction false} SlotReadOk(len: nat, slot: nat)
    requires 2 <= len <= 273 && slot < 64
    ensures PhaseOk(SlotRead(len, slot))
  {
    hide Shl, Pow2;
    if 4 <= slot < 14 {
      SpecSlotOk(len, slot);
    } else if slot >= 14 {
      DirectRoom(slot % 2 + 3, SlotBits(slot) - 4);
    }
  }

  lemma {:induction false} TreeReadOk(t: TreeUse, v: nat)
    requires TreeOk(t) && v < Pow2(TreeDepth(t))
    ensures PhaseOk(TreeRead(t, v))
  {
    Pow2Small();
    match t
    case TSlot(len) => SlotReadOk(len, v);
    case _ =>
  }

  lemma {:induction false} TreeNextOk(e: Env, t: TreeUse, n: nat, m: nat, b: Bit)
    requires PhaseOk(AtTree(t, n, m))
    ensures PhaseOk(Next(e, AtTree(t, n, m), b))
  {
    var w := TreeDepth(t);
    assert Pow2(w - n + 1) == 2 * Pow2(w - n);
    if n <= 1 {
      TreeReadOk(t, 2 * m + b - Pow2(w));
    }
  }

  lemma {:induction false} SpecNextOk(e: Env, ph: Phase, b: Bit)
    requires ph.AtSpec? && PhaseOk(ph)
    ensures PhaseOk(Next(e, ph, b))
  {
    if ph.n > 1 {
      ShlTwice(ph.mask, ph.n - 1);
      ShlTwice(ph.m + 1, ph.n - 2);
      ShlGrows(2 * ph.m + b + 1, 2 * (ph.m + 1), ph.n - 2);
    } else {
      assert Shl(ph.mask, 1) == 2 * ph.mask;
    }
  }

  lemma {:induction false} DirectNextOk(e: Env, ph: Phase, b: Bit)
    requires ph.AtDirect? && PhaseOk(ph)
    ensures PhaseOk(Next(e, ph, b))
  {
    ShlTwice(ph.dist + 1, ph.n - 1);
    ShlGrows(2 * ph.dist + b + 1, 2 * (ph.dist + 1), ph.n - 1);
  }

  lemma {:induction false} MatchedNextOk(e: Env, n: nat, m: nat, offs: nat, shifted: nat, b: Bit)
    requires PhaseOk(AtMatched(n, m, offs, shifted))
    ensures PhaseOk(Next(e, AtMatched(n, m, offs, shifted), b))
  {
    hide Next;
    NextInMatched(e, n, m, offs, shifted, b);
    assert Pow2(8 - n + 1) == 2 * Pow2(8 - n);
  }

  lemma {:induction false} AlignNextOk(e: Env, ph: Phase, b: Bit)
    requires ph.AtAlign? && PhaseOk(ph)
    ensures PhaseOk(Next(e, ph, b))
  {
    hide Next;
    NextInAlign(e, ph.len, ph.dist, ph.n, ph.m, ph.mask, b);
    assert Pow2(4 - ph.n + 1) == 2 * Pow2(4 - ph.n);
  }

  /** The decision points stay well formed. */
  lemma {:induction false} NextOk(e: Env, ph: Phase, b: Bit)
    requires PhaseOk(ph) && !ph.Done?
    ensures PhaseOk(Next(e, ph, b))
  {
    match ph
    case AtTree(t, n, m) => TreeNextOk(e, t, n, m, b);
    case AtMatched(n, m, offs, shifted) => MatchedNextOk(e, n, m, offs, shifted, b);
    case AtSpec(_, _, _, _, _, _) => SpecNextOk(e, ph, b);
    case AtDirect(_, _, _) => DirectNextOk(e, ph, b);
    case AtAlign(_, _, _, _, _) => AlignNextOk(e, ph, b);
    case _ =>
  }

  /** Every context the decoder asks for is one of its array. */
  lemma {:induction false} AskedInRange(e: Env, ph: Phase, coders: nat)
    requires EnvOk(e, coders) && PhaseOk(ph) && !ph.Done? && !AsksRaw(ph)
    ensures InRange(Asked(e, ph), coders)
  {
    match ph
    case AtTree(t, n, m) =>
      Pow2Monotone(TreeDepth(t) - n, TreeDepth(t) - 1);
      Pow2Sub();
    case AtMatched(n, m, _, _) =>
      Pow2Monotone(8 - n, 7);
      Pow2Sub();
    case AtSpec(_, _, n, m, _, _) => ShlGrows(m + 1, m + 1, n - 1);
    case AtAlign(_, _, n, m, _) =>
      Pow2Monotone(4 - n, 3);
      Pow2Sub();
    case _ =>
  }

  lemma {:induction false} Pow2Sub()
    ensures Pow2(2) == 4 && Pow2(3) == 8 && Pow2(5) == 32 && Pow2(7) == 128
  {
  }

  // ---------------------------------------------------------------- running

  /** An upper bound of the number of bits still to be read for the packet. */
  function BitsLeft(ph: Phase): nat
  {
    match ph
    case AtIsMatch => 60
    case AtIsRep => 59
    case AtRepG0 => 58
    case AtRep0Long => 57
    case AtRepG1 => 57
    case AtRepG2 => 56
    case AtChoice(_) => 50
    case AtChoice2(_) => 49
    case AtTree(t, n, _) => n + (match t case TLit => 0 case TSlot(_) => 30 case _ => 36)
    case AtMatched(n, _, _, _) => n
    case AtSpec(_, _, n, _, _, _) => n
    case AtDirect(_, _, n) => n + 4
    case AtAlign(_, _, n, _, _) => n
    case Done(_) => 0
  }

  lemma {:induction false} BitsLeftDrops(e: Env, ph: Phase, b: Bit)
    requires PhaseOk(ph) && !ph.Done?
    ensures BitsLeft(Next(e, ph, b)) < BitsLeft(ph)
  {
    if ph.AtTree? && ph.n <= 1 && ph.t.TSlot? {
      assert Pow2(6) == 64 && Pow2(5) == 32;
    }
  }

  /** The range decoder with its probabilities. */
  datatype Machine = Machine(rc: Reader, probs: seq<Prob>)

  predicate MachineOk(d: Machine, coders: nat)
  {
    Wide(d.rc.range) && |d.probs| == NumProbs(coders)
  }

  /** The GET_BIT macro: decode with the probability at i, and adapt it. */
  function GetBit(d: Machine, s: seq<Byte>, i: int): (Machine, Bit)
    requires Wide(d.rc.range) && 0 <= i < |d.probs|
  {
    var (rc, b) := DecodeBit(d.rc, s, d.probs[i]);
    (Machine(rc, d.probs[i := Adapt(d.probs[i], b)]), b)
  }

  function GetRawBit(d: Machine, s: seq<Byte>): (Machine, Bit)
    requires Wide(d.rc.range)
  {
    var (rc, b) := DecodeDirectBit(d.rc, s);
    (d.(rc := rc), b)
  }

  /** One decision point: the bit it needs, by the model or raw. */
  function Answer(e: Env, ph: Phase, d: Machine, s: seq<Byte>, coders: nat): (r: (Machine, Bit))
    requires EnvOk(e, coders) && PhaseOk(ph) && !ph.Done? && MachineOk(d, coders)
    ensures MachineOk(r.0, coders)
  {
    if AsksRaw(ph) then GetRawBit(d, s)
    else
      AskedInRange(e, ph, coders);
      IndexInvertible(Asked(e, ph), coders);
      GetBit(d, s, Index(Asked(e, ph)))
  }

  /** Reads bits until the packet is complete. */
  function Run(e: Env, ph: Phase, d: Machine, s: seq<Byte>, coders: nat): (r: (Machine, Packet))
    requires EnvOk(e, coders) && PhaseOk(ph) && MachineOk(d, coders)
    ensures MachineOk(r.0, coders) && Encodable(r.1)
    decreases BitsLeft(ph), d
  {
    if ph.Done? then (d, ph.packet)
    else
      var (d', b) := Answer(e, ph, d, s, coders);
      NextOk(e, ph, b);
      BitsLeftDrops(e, ph, b);
      Run(e, Next(e, ph, b), d', s, coders)
  }

  // ---------------------------------------------------------------- the round trip of a packet

  /** The machine holds the encoder's probabilities, and its input spells out the symbols q. */
  ghost predicate Follows(d: Machine, s: seq<Byte>, m: ProbMap, q: seq<Symbol>, end: nat, coders: nat)
  {
    Agree(m, d.probs, coders) && Reads(d.rc, s, Steps(m, q), end)
  }

  lemma {:induction false} FollowsOk(d: Machine, s: seq<Byte>, m: ProbMap, q: seq<Symbol>, end: nat, coders: nat)
    requires Follows(d, s, m, q, end, coders)
    ensures MachineOk(d, coders)
  {
  }

  lemma {:induction false} AnswerFollows(e: Env, ph: Phase, d: Machine, s: seq<Byte>, m: ProbMap, q: seq<Symbol>,
                                         end: nat, coders: nat)
    requires EnvOk(e, coders) && PhaseOk(ph) && !ph.Done?
    requires q != [] && Answers(e, ph, q[0]) && Follows(d, s, m, q, end, coders)
    ensures var (d', b) := Answer(e, ph, d, s, coders);
            b == q[0].bit && Follows(d', s, Learn(m, q[0]), q[1..], end, coders)
  {
    var steps := Steps(m, q);
    assert steps[1..] == Steps(Learn(m, q[0]), q[1..]);
    ReadStep(d.rc, s, steps, end);
    if !AsksRaw(ph) {
      var c := Asked(e, ph);
      AskedInRange(e, ph, coders);
      IndexInvertible(c, coders);
      AgreeUpdate(m, d.probs, coders, c, Adapt(Get(m, c), q[0].bit));
    }
  }

  lemma {:induction false} LearnNone(m: ProbMap)
    ensures LearnAll(m, []) == m
  {
  }

  lemma {:induction false} LearnFirst(m: ProbMap, q: seq<Symbol>)
    requires q != []
    ensures LearnAll(m, q) == LearnAll(Learn(m, q[0]), q[1..])
  {
  }

  /** Any string of symbols the decoder walks along is decoded to the packet it leads to. */
  lemma {:induction false} RunFollows(e: Env, ph: Phase, d: Machine, s: seq<Byte>, m: ProbMap, q: seq<Symbol>,
                                      p: Packet, rest: seq<Symbol>, end: nat, coders: nat)
    requires EnvOk(e, coders) && PhaseOk(ph) && Walks(e, ph, q, Done(p))
    requires Follows(d, s, m, q + rest, end, coders)
    ensures var (d', p') := Run(e, ph, d, s, coders);
            p' == p && Follows(d', s, LearnAll(m, q), rest, end, coders)
    decreases |q|
  {
    hide Answer, Next, Asked, Reads, Agree, PhaseOk, LearnAll;
    if q == [] {
      assert q + rest == rest;
      LearnNone(m);
    } else {
      FollowsOk(d, s, m, q + rest, end, coders);
      LearnFirst(m, q);
      AnswerFollows(e, ph, d, s, m, q + rest, end, coders);
      assert (q + rest)[1..] == q[1..] + rest;
      NextOk(e, ph, q[0].bit);
      RunFollows(e, Next(e, ph, q[0].bit), Answer(e, ph, d, s, coders).0, s, Learn(m, q[0]), q[1..], p, rest, end, coders);
    }
  }

  /**
   * Packet round trip: from equal probabilities, the decoder recovers the packet that was encoded next,
   * ends with equal probabilities again, and stands at the symbols that follow.
   */
  lemma {:induction false} PacketRoundTrip(e: Env, p: Packet, d: Machine, s: seq<Byte>, m: ProbMap, rest: seq<Symbol>,
                                           end: nat, coders: nat)
    requires EnvOk(e, coders) && Encodable(p)
    requires Follows(d, s, m, PacketSyms(e, p) + rest, end, coders)
    ensures var (d', p') := Run(e, AtIsMatch, d, s, coders);
            p' == p && Follows(d', s, LearnAll(m, PacketSyms(e, p)), rest, end, coders)
  {
    PacketWalk(e, p);
    RunFollows(e, AtIsMatch, d, s, m, PacketSyms(e, p), p, rest, end, coders);
  }
}
