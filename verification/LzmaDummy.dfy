/**
 * LzmaDec_TryDummy: a dry run of one symbol on bounded input with frozen probabilities, and
 * why it predicts the real decoder exactly: no symbol visits a context twice.
 */
module LzmaDummy {
  import opened Bits
  import opened RangeSpec
  import opened RangeEncoder
  import opened RangeDecoder
  import opened LzmaContexts
  import opened LzmaPackets
  import opened LzmaRun

  datatype Option<T> = None | Some(value: T)

  /** NORMALIZE_CHECK fails when it needs a byte at or beyond the limit. */
  predicate Starved(r: Reader, limit: nat)
  {
    r.range < TOP && r.pos >= limit
  }

  /** A dry run from a decision point; None is DUMMY_ERROR. */
  function DryRun(e: Env, ph: Phase, r: Reader, probs: seq<Prob>, s: seq<Byte>, limit: nat,
                  coders: nat): Option<(Reader, Packet)>
    requires EnvOk(e, coders) && PhaseOk(ph) && MachineOk(Machine(r, probs), coders)
    decreases BitsLeft(ph), r
  {
    if Starved(r, limit) then None
    else if ph.Done? then Some((Normalize(r, s), ph.packet))
    else
      var (d', b) := Answer(e, ph, Machine(r, probs), s, coders);
      NextOk(e, ph, b);
      BitsLeftDrops(e, ph, b);
      DryRun(e, Next(e, ph, b), d'.rc, probs, s, limit, coders)
  }

  // ---------------------------------------------------------------- no context twice

  /** A measure of contexts that grows strictly along every symbol. */
  function Key(c: Context): int
  {
    match c
    case IsMatch(_, _) => 0
    case IsRep(_) => 0x400
    case IsRepG0(_) => 0x800
    case IsRep0Long(_, _) => 0xC00
    case IsRepG1(_) => 0xC00
    case IsRepG2(_) => 0x1000
    case Choice(_) => 0x1400
    case Choice2(_) => 0x1800
    case Low(_, _, m) => 0x1C00 + m
    case Mid(_, _, m) => 0x1C00 + m
    case High(_, m) => 0x1C00 + m
    case Literal(_, m) => 0x1C00 + m % 0x100
    case PosSlot(_, m) => 0x2000 + m
    case SpecPos(i) => 0x2400 + i
    case Align(m) => 0x2800 + m
  }

  /** A lower bound of the keys of all contexts still to be asked for. */
  function KeyFloor(e: Env, ph: Phase): int
  {
    match ph
    case Done(_) => 0x2C00
    case AtDirect(_, _, _) => 0x2400
    case _ => Key(Asked(e, ph))
  }

  lemma {:induction false} KeyGrows(e: Env, ph: Phase, b: Bit)
    requires PhaseOk(ph) && !ph.Done? && PhaseOk(Next(e, ph, b))
    ensures KeyFloor(e, ph) <= KeyFloor(e, Next(e, ph, b))
    ensures !AsksRaw(ph) ==> KeyFloor(e, ph) < KeyFloor(e, Next(e, ph, b))
  {
    match ph
    case AtTree(t, n, m) => TreeKeyGrows(e, t, n, m, b);
    case AtMatched(n, m, offs, shifted) => MatchedKeyGrows(e, n, m, offs, shifted, b);
    case AtSpec(_, _, _, _, _, _) =>
    case AtAlign(_, _, n, m, _) =>
      Pow2Monotone(4 - n, 3);
      Pow2Sub();
    case _ =>
  }

  function TreeKey(t: TreeUse): int
  {
    if t.TSlot? then 0x2000 else 0x1C00
  }

  lemma {:induction false} NodeBelow(w: nat, n: nat, m: nat)
    requires NodeAt(w, n, m) && w <= 8
    ensures m < 256 && (w == 6 ==> m < 64)
  {
    Pow2Monotone(w - n, w - 1);
    Pow2Monotone(w - 1, 7);
    Pow2Sub();
  }

  lemma {:induction false} TreeKeyFloor(e: Env, t: TreeUse, n: nat, m: nat)
    requires m < 256
    ensures KeyFloor(e, AtTree(t, n, m)) == TreeKey(t) + m
  {
  }

  lemma {:induction false} AfterTree(e: Env, t: TreeUse, v: nat)
    requires PhaseOk(TreeRead(t, v))
    ensures KeyFloor(e, TreeRead(t, v)) >= if t.TSlot? then 0x2400 else 0x2000
  {
    hide Pow2, NodeAt;
    if t.TSlot? && v >= 4 {
      SlotKeys(e, t.len, v);
    }
  }

  lemma {:induction false} TreeKeyGrows(e: Env, t: TreeUse, n: nat, m: nat, b: Bit)
    requires PhaseOk(AtTree(t, n, m)) && PhaseOk(Next(e, AtTree(t, n, m), b))
    ensures KeyFloor(e, AtTree(t, n, m)) < KeyFloor(e, Next(e, AtTree(t, n, m), b))
  {
    hide TreeRead, Pow2, Next, KeyFloor;
    NextInTree(e, t, n, m, b);
    NodeBelow(TreeDepth(t), n, m);
    TreeKeyFloor(e, t, n, m);
    if n <= 1 {
      AfterTree(e, t, ToNat(2 * m + b - Pow2(TreeDepth(t))));
    } else {
      NodeBelow(TreeDepth(t), n - 1, 2 * m + b);
      TreeKeyFloor(e, t, n - 1, 2 * m + b);
    }
  }

  lemma {:induction false} SlotKeys(e: Env, len: nat, slot: nat)
    requires 4 <= slot && PhaseOk(SlotRead(len, slot))
    ensures KeyFloor(e, SlotRead(len, slot)) >= 0x2400
  {
  }

  lemma {:induction false} MatchedKeyFloor(e: Env, n: nat, m: nat, offs: nat, shifted: nat)
    requires m < 256 && (offs == 0 || offs == 0x100)
    ensures KeyFloor(e, AtMatched(n, m, offs, shifted)) == 0x1C00 + m
  {
    assert MatchBit(offs, shifted) == 0 || MatchBit(offs, shifted) == 0x100;
    assert (offs + MatchBit(offs, shifted) + m) % 0x100 == m;
  }

  lemma {:induction false} MatchedKeyGrows(e: Env, n: nat, m: nat, offs: nat, shifted: nat, b: Bit)
    requires PhaseOk(AtMatched(n, m, offs, shifted)) && PhaseOk(Next(e, AtMatched(n, m, offs, shifted), b))
    ensures KeyFloor(e, AtMatched(n, m, offs, shifted)) < KeyFloor(e, Next(e, AtMatched(n, m, offs, shifted), b))
  {
    hide Pow2, Next, KeyFloor, MatchBit;
    NextInMatched(e, n, m, offs, shifted, b);
    NodeBelow(8, n, m);
    MatchedKeyFloor(e, n, m, offs, shifted);
    if n > 1 {
      NodeBelow(8, n - 1, 2 * m + b);
      MatchedKeyFloor(e, n - 1, 2 * m + b, NextOffs(offs, shifted, b), 2 * shifted);
    } else {
      assert KeyFloor(e, Done(Lit((2 * m + b) % 256))) == 0x2C00 by { DoneKey(e, Lit((2 * m + b) % 256)); }
    }
  }

  lemma {:induction false} DoneKey(e: Env, p: Packet)
    ensures KeyFloor(e, Done(p)) == 0x2C00
  {
  }

  /** The adapted array still has the old probability in every context that may come. */
  ghost predicate Untouched(now: seq<Prob>, before: seq<Prob>, floor: int, coders: nat)
    requires |now| == |before| == NumProbs(coders)
  {
    forall c :: InRange(c, coders) && Key(c) >= floor ==>
      0 <= Index(c) < |now| && now[Index(c)] == before[Index(c)]
  }

  lemma {:induction false} UntouchedAfter(now: seq<Prob>, before: seq<Prob>, c: Context, p: Prob, floor: int,
                                          coders: nat)
    requires |now| == |before| == NumProbs(coders) && InRange(c, coders)
    requires Untouched(now, before, Key(c), coders) && Key(c) < floor
    ensures 0 <= Index(c) < |now| && Untouched(now[Index(c) := p], before, floor, coders)
  {
    hide Index;
    IndexInvertible(c, coders);
    forall d | InRange(d, coders) && Key(d) >= floor
      ensures 0 <= Index(d) < |now| && now[Index(c) := p][Index(d)] == before[Index(d)]
    {
      IndexInvertible(d, coders);
    }
  }

  lemma {:induction false} UntouchedLater(now: seq<Prob>, before: seq<Prob>, floor: int, floor': int, coders: nat)
    requires |now| == |before| == NumProbs(coders)
    requires Untouched(now, before, floor, coders) && floor <= floor'
    ensures Untouched(now, before, floor', coders)
  {
  }

  /** The input position never moves back. */
  lemma {:induction false} AnswerMoves(e: Env, ph: Phase, d: Machine, s: seq<Byte>, coders: nat)
    requires EnvOk(e, coders) && PhaseOk(ph) && !ph.Done? && MachineOk(d, coders)
    ensures Answer(e, ph, d, s, coders).0.rc.pos == Normalize(d.rc, s).pos >= d.rc.pos
  {
  }

  lemma {:induction false} RunMoves(e: Env, ph: Phase, d: Machine, s: seq<Byte>, coders: nat)
    requires EnvOk(e, coders) && PhaseOk(ph) && MachineOk(d, coders)
    ensures d.rc.pos <= Run(e, ph, d, s, coders).0.rc.pos
    ensures !ph.Done? ==> Normalize(d.rc, s).pos <= Run(e, ph, d, s, coders).0.rc.pos
    decreases BitsLeft(ph)
  {
    if !ph.Done? {
      var (d', b) := Answer(e, ph, d, s, coders);
      NextOk(e, ph, b);
      BitsLeftDrops(e, ph, b);
      AnswerMoves(e, ph, d, s, coders);
      RunMoves(e, Next(e, ph, b), d', s, coders);
    }
  }

  /** With the probability unchanged in the asked context, both runs take the same decision. */
  lemma {:induction false} SameAnswer(e: Env, ph: Phase, r: Reader, now: seq<Prob>, before: seq<Prob>, s: seq<Byte>,
                                      coders: nat)
    requires EnvOk(e, coders) && PhaseOk(ph) && !ph.Done?
    requires MachineOk(Machine(r, now), coders) && MachineOk(Machine(r, before), coders)
    requires Untouched(now, before, KeyFloor(e, ph), coders)
    ensures var (d, b) := Answer(e, ph, Machine(r, now), s, coders);
            var (d', b') := Answer(e, ph, Machine(r, before), s, coders);
            && d.rc == d'.rc && b == b'
            && (PhaseOk(Next(e, ph, b)) ==> Untouched(d.probs, before, KeyFloor(e, Next(e, ph, b)), coders))
  {
    var (d, b) := Answer(e, ph, Machine(r, now), s, coders);
    if !AsksRaw(ph) {
      var c := Asked(e, ph);
      AskedInRange(e, ph, coders);
      IndexInvertible(c, coders);
      if PhaseOk(Next(e, ph, b)) {
        KeyGrows(e, ph, b);
        UntouchedAfter(now, before, c, Adapt(now[Index(c)], b), KeyFloor(e, Next(e, ph, b)), coders);
      }
    } else if PhaseOk(Next(e, ph, b)) {
      KeyGrows(e, ph, b);
      UntouchedLater(now, before, KeyFloor(e, ph), KeyFloor(e, Next(e, ph, b)), coders);
    }
  }

  /** The dry run fails exactly when the real run would read beyond the limit, and otherwise agrees with it. */
  lemma {:induction false} DryRunAgrees(e: Env, ph: Phase, r: Reader, now: seq<Prob>, before: seq<Prob>, s: seq<Byte>,
                                        limit: nat, coders: nat)
    requires EnvOk(e, coders) && PhaseOk(ph)
    requires MachineOk(Machine(r, now), coders) && MachineOk(Machine(r, before), coders)
    requires Untouched(now, before, KeyFloor(e, ph), coders) && r.pos <= limit
    ensures var (d, p) := Run(e, ph, Machine(r, now), s, coders);
            var n := Normalize(d.rc, s);
            DryRun(e, ph, r, before, s, limit, coders) == if n.pos <= limit then Some((n, p)) else None
    decreases BitsLeft(ph)
  {
    if ph.Done? {
    } else {
      var (d, b) := Answer(e, ph, Machine(r, now), s, coders);
      var (d', b') := Answer(e, ph, Machine(r, before), s, coders);
      NextOk(e, ph, b);
      BitsLeftDrops(e, ph, b);
      AnswerMoves(e, ph, Machine(r, now), s, coders);
      SameAnswer(e, ph, r, now, before, s, coders);
      assert Run(e, ph, Machine(r, now), s, coders) == Run(e, Next(e, ph, b), d, s, coders);
      if Starved(r, limit) {
        RunMoves(e, Next(e, ph, b), d, s, coders);
      } else {
        assert DryRun(e, ph, r, before, s, limit, coders) == DryRun(e, Next(e, ph, b), d.rc, before, s, limit, coders);
        DryRunAgrees(e, Next(e, ph, b), d.rc, d.probs, before, s, limit, coders);
      }
    }
  }

  /**
   * LzmaDec_TryDummy: on inSize bytes it reports an error exactly when decoding one symbol, with the
   * trailing normalisation, needs more than inSize bytes; otherwise it finds the same symbol.
   */
  lemma {:induction false} TryDummyExact(e: Env, d: Machine, s: seq<Byte>, limit: nat, coders: nat)
    requires EnvOk(e, coders) && MachineOk(d, coders) && d.rc.pos <= limit
    ensures var (d', p) := Run(e, AtIsMatch, d, s, coders);
            var n := Normalize(d'.rc, s);
            DryRun(e, AtIsMatch, d.rc, d.probs, s, limit, coders) == if n.pos <= limit then Some((n, p)) else None
  {
    hide Run, DryRun;
    UntouchedAtStart(d.probs, coders);
    DryRunAgrees(e, AtIsMatch, d.rc, d.probs, d.probs, s, limit, coders);
  }

  lemma {:induction false} UntouchedAtStart(probs: seq<Prob>, coders: nat)
    requires |probs| == NumProbs(coders)
    ensures Untouched(probs, probs, 0, coders)
  {
    forall c | InRange(c, coders)
      ensures 0 <= Index(c) < |probs|
    {
      IndexInvertible(c, coders);
    }
  }
}
