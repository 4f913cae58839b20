/**
 * Input in pieces: what the decoder does on a part of the input that holds all it reads is what it does on the whole,
 * and it does not matter where in memory a stream stands.
 */
module LzmaParts {
  import opened Bits
  import opened Bytes
  import opened RangeSpec
  import opened RangeEncoder
  import opened RangeDecoder
  import opened LzmaContexts
  import opened LzmaPackets
  import opened LzmaRun
  import opened LzmaStream
  import opened LzmaBounds
  import opened LzmaDummy
  import opened LzmaLoop

  // ---------------------------------------------------------------- a part of the input

  /** Two inputs that cannot be told apart before place n. */
  ghost predicate Alike(s: seq<Byte>, s': seq<Byte>, n: nat)
  {
    forall i :: 0 <= i < n ==> ByteAt(s, i) == ByteAt(s', i)
  }

  lemma {:induction false} PartAlike(v: seq<Byte>, s: seq<Byte>)
    requires v <= s
    ensures Alike(v, s, |v|) && Alike(s, v, |v|)
  {
  }

  lemma {:induction false} AnswerAlike(e: Env, ph: Phase, d: Machine, s: seq<Byte>, s': seq<Byte>, n: nat, coders: nat)
    requires EnvOk(e, coders) && PhaseOk(ph) && !ph.Done? && MachineOk(d, coders)
    requires Alike(s, s', n) && Normalize(d.rc, s).pos <= n
    ensures Normalize(d.rc, s') == Normalize(d.rc, s)
    ensures Answer(e, ph, d, s', coders) == Answer(e, ph, d, s, coders)
  {
    hide PhaseOk, NumProbs;
    if !AsksRaw(ph) {
      AskedInRange(e, ph, coders);
      IndexInvertible(Asked(e, ph), coders);
    }
  }

  lemma {:induction false} RunAlike(e: Env, ph: Phase, d: Machine, s: seq<Byte>, s': seq<Byte>, n: nat, coders: nat)
    requires EnvOk(e, coders) && PhaseOk(ph) && MachineOk(d, coders) && Alike(s, s', n)
    requires Normalize(Run(e, ph, d, s, coders).0.rc, s).pos <= n
    ensures var r := Run(e, ph, d, s, coders);
            Run(e, ph, d, s', coders) == r && Normalize(r.0.rc, s') == Normalize(r.0.rc, s)
    decreases BitsLeft(ph)
  {
    hide PhaseOk, Alike, Next, BitsLeft, EnvOk, Answer;
    if ph.Done? {
      assert Normalize(d.rc, s') == Normalize(d.rc, s) by { NormalizeAlike(d.rc, s, s', n); }
    } else {
      var (d', b) := Answer(e, ph, d, s, coders);
      NextOk(e, ph, b);
      BitsLeftDrops(e, ph, b);
      RunMoves(e, ph, d, s, coders);
      AnswerAlike(e, ph, d, s, s', n, coders);
      RunAlike(e, Next(e, ph, b), d', s, s', n, coders);
    }
  }

  lemma {:induction false} NormalizeAlike(r: Reader, s: seq<Byte>, s': seq<Byte>, n: nat)
    requires Alike(s, s', n) && Normalize(r, s).pos <= n
    ensures Normalize(r, s') == Normalize(r, s)
  {
  }

  lemma {:induction false} NextRunAlike(p: Props, st: DecState, total: nat, s: seq<Byte>, s': seq<Byte>, n: nat)
    requires DecOk(p, st, total) && Alike(s, s', n)
    requires Normalize(NextRun(p, st, total, s).0.rc, s).pos <= n
    ensures NextRun(p, st, total, s') == NextRun(p, st, total, s)
    ensures Normalize(NextRun(p, st, total, s).0.rc, s') == Normalize(NextRun(p, st, total, s).0.rc, s)
  {
    hide Run, Normalize, Alike, DecOk, EnvOk;
    DecEnvOk(p, st, total);
    NextRunOk(p, st, total, s);
    MachineOf(p, st, total);
    RunAlike(DecEnv(p, st), AtIsMatch, st.m, s, s', n, Coders(p));
  }

  lemma {:induction false} MachineOf(p: Props, st: DecState, total: nat)
    requires DecOk(p, st, total)
    ensures p.lc <= 8 && MachineOk(st.m, Coders(p))
  {
  }

  /** A packet that fits a part of the input is the packet of the whole. */
  lemma {:induction false} PacketInPart(p: Props, st: DecState, total: nat, v: seq<Byte>, s: seq<Byte>)
    requires DecOk(p, st, total) && v <= s && PacketFits(p, st, total, v)
    ensures NextRun(p, st, total, s) == NextRun(p, st, total, v) && PacketFits(p, st, total, s)
    ensures Normalize(NextRun(p, st, total, v).0.rc, s) == Normalize(NextRun(p, st, total, v).0.rc, v)
  {
    hide NextRun, Normalize, DecOk, Alike;
    PartAlike(v, s);
    NextRunAlike(p, st, total, v, s, |v|);
  }

  /** A packet of the whole that ends early enough is the packet of the part. */
  lemma {:induction false} PacketOfPart(p: Props, st: DecState, total: nat, v: seq<Byte>, s: seq<Byte>)
    requires DecOk(p, st, total) && v <= s && Normalize(NextRun(p, st, total, s).0.rc, s).pos <= |v|
    ensures PacketFits(p, st, total, v) && NextRun(p, st, total, s) == NextRun(p, st, total, v)
  {
    hide NextRun, Normalize, DecOk, Alike;
    PartAlike(v, s);
    NextRunAlike(p, st, total, s, v, |v|);
  }

  lemma {:induction false} DecodePacketInPart(p: Props, st: DecState, total: nat, v: seq<Byte>, s: seq<Byte>, limit: nat)
    requires LimitOk(p, st, total, v, limit) && v <= s && PacketFits(p, st, total, v)
    ensures LimitOk(p, st, total, s, limit) && DecodePacket(p, st, total, s, limit) == DecodePacket(p, st, total, v, limit)
    ensures var o := DecodePacket(p, st, total, v, limit); !o.Failed? ==> Normalized(o.st, s) == Normalized(o.st, v)
  {
    hide NextRun, Normalize, DecOk, Apply;
    PacketInPart(p, st, total, v, s);
    NextRunOk(p, st, total, v);
    var (m', pkt) := NextRun(p, st, total, v);
    LimitParts(p, st, total, v, limit);
    ApplyKeeps(st.(m := m'), pkt, limit);
  }

  lemma {:induction false} LimitParts(p: Props, st: DecState, total: nat, s: seq<Byte>, limit: nat)
    requires LimitOk(p, st, total, s, limit)
    ensures DecOk(p, st, total) && st.dicPos <= limit
  {
  }

  lemma {:induction false} LoopInPart(p: Props, st: DecState, total: nat, v: seq<Byte>, s: seq<Byte>, limit: nat,
                                      bufLimit: int)
    requires LimitOk(p, st, total, v, limit) && v <= s && LoopFits(p, st, total, v, limit, bufLimit)
    ensures LimitOk(p, st, total, s, limit)
    ensures DecodeLoop(p, st, total, s, limit, bufLimit) == DecodeLoop(p, st, total, v, limit, bufLimit)
    ensures var o := DecodeLoop(p, st, total, v, limit, bufLimit); !o.Failed? ==> Normalized(o.st, s) == Normalized(o.st, v)
    decreases limit - st.dicPos
  {
    hide DecodePacket, DecOk, PacketFits, Normalized, NextPacket;
    DecodePacketOk(p, st, total, v, limit);
    DecodePacketInPart(p, st, total, v, s, limit);
    DecodePacketOk(p, st, total, s, limit);
    var o := DecodePacket(p, st, total, v, limit);
    if o.More? && o.st.dicPos < limit && o.st.m.rc.pos < bufLimit {
      LoopInPart(p, o.st, total + (o.st.dicPos - st.dicPos), v, s, limit, bufLimit);
    }
  }

  lemma {:induction false} RoundInPart(p: Props, st: DecState, base: nat, v: seq<Byte>, s: seq<Byte>, limit: nat,
                                       bufLimit: int)
    requires MayDecode(p, st, base, v, limit) && v <= s && RoundFits(p, st, base, v, limit, bufLimit)
    ensures MayDecode(p, st, base, s, limit)
    ensures Round(p, st, base, s, limit, bufLimit) == Round(p, st, base, v, limit, bufLimit)
  {
    hide DecodeLoop, LoopFits, DecOk, NextPacket, Normalized, WriteRem, MarkFull, CappedLimit;
    CappedLimitOk(p, st, base, v, limit);
    var cap := CappedLimit(p, st, limit);
    FirstFits(p, st, base + st.dicPos, v, cap, bufLimit);
    StartInPart(p, st, base, v, s, limit);
    CappedLimitOk(p, st, base, s, limit);
    LoopInPart(p, st, base + st.dicPos, v, s, cap, bufLimit);
    DecodeLoopOk(p, st, base + st.dicPos, v, cap, bufLimit);
    DecodeLoopOk(p, st, base + st.dicPos, s, cap, bufLimit);
  }

  lemma {:induction false} FirstFits(p: Props, st: DecState, total: nat, v: seq<Byte>, limit: nat, bufLimit: int)
    requires LimitOk(p, st, total, v, limit) && LoopFits(p, st, total, v, limit, bufLimit)
    ensures DecOk(p, st, total) && PacketFits(p, st, total, v)
  {
    hide DecOk, DecodePacket, PacketFits, NextPacket;
  }

  lemma {:induction false} StartInPart(p: Props, st: DecState, base: nat, v: seq<Byte>, s: seq<Byte>, limit: nat)
    requires MayDecode(p, st, base, v, limit) && v <= s && PacketFits(p, st, base + st.dicPos, v)
    ensures MayDecode(p, st, base, s, limit)
  {
    hide DecOk, NextRun, Normalize;
    PacketInPart(p, st, base + st.dicPos, v, s);
  }

  /** Decoding with all packets inside a part of the input is decoding on the whole. */
  lemma {:induction false} Decode2InPart(p: Props, st: DecState, base: nat, v: seq<Byte>, s: seq<Byte>, limit: nat,
                                         bufLimit: int)
    requires MayDecode(p, st, base, v, limit) && v <= s && Decode2Fits(p, st, base, v, limit, bufLimit)
    ensures MayDecode(p, st, base, s, limit)
    ensures Decode2(p, st, base, s, limit, bufLimit) == Decode2(p, st, base, v, limit, bufLimit)
    decreases limit - st.dicPos
  {
    hide Round, RoundFits, Settled, NextPacket;
    RoundOk(p, st, base, v, limit, bufLimit);
    RoundInPart(p, st, base, v, s, limit, bufLimit);
    RoundOk(p, st, base, s, limit, bufLimit);
    var o := Round(p, st, base, v, limit, bufLimit);
    if o.More? && o.st.dicPos < limit && o.st.m.rc.pos < bufLimit && o.st.remainLen < MATCH_SPEC_LEN_START {
      Decode2InPart(p, o.st, base, v, s, limit, bufLimit);
    }
  }
}
