/**
 * The loops around the packet decoder - LzmaDec_DecodeReal, LzmaDec_DecodeReal2, LzmaDec_WriteRem and a
 * call of LzmaDec_DecodeToDic on a fresh input - as functions of the decoder's fields.
 */
module LzmaLoop {
  import opened Bits
  import opened Bytes
  import opened RangeSpec
  import opened RangeEncoder
  import opened RangeDecoder
  import opened LzmaContexts
  import opened LzmaPackets
  import opened LzmaRun
  import opened LzmaStream
  import opened LzmaBounds
  import opened LzmaDummy

  /** The packet the next iteration will decode, and the range decoder after it. */
  ghost function NextRun(p: Props, st: DecState, total: nat, s: seq<Byte>): (r: (Machine, Packet))
    requires DecOk(p, st, total)
    ensures MachineOk(r.0, Coders(p)) && Encodable(r.1)
  {
    DecEnvOk(p, st, total);
    Run(DecEnv(p, st), AtIsMatch, st.m, s, Coders(p))
  }

  lemma {:induction false} NextRunOk(p: Props, st: DecState, total: nat, s: seq<Byte>)
    requires DecOk(p, st, total)
    ensures MachineOk(NextRun(p, st, total, s).0, Coders(p)) && Encodable(NextRun(p, st, total, s).1)
  {
    hide NextRun;
  }

  ghost function NextPacket(p: Props, st: DecState, total: nat, s: seq<Byte>): Packet
    requires DecOk(p, st, total)
  {
    NextRun(p, st, total, s).1
  }

  /**
   * A limit the decoding loop may be given: inside the buffer, and before the dictionary fills up for the first time.
   */
  ghost predicate LimitOk(p: Props, st: DecState, total: nat, s: seq<Byte>, limit: nat)
  {
    && DecOk(p, st, total)
    && st.dicPos <= limit <= |st.dic|
    && (st.checkDicSize == 0 ==> total + (limit - st.dicPos) <= p.dicSize)
    && (st.dicPos == limit ==> NextPacket(p, st, total, s).Match?)
  }

  ghost function DecodePacket(p: Props, st: DecState, total: nat, s: seq<Byte>, limit: nat): Outcome
    requires LimitOk(p, st, total, s, limit)
  {
    var (m', pkt) := NextRun(p, st, total, s);
    Apply(st.(m := m'), pkt, limit)
  }

  lemma {:induction false} DecodePacketOk(p: Props, st: DecState, total: nat, s: seq<Byte>, limit: nat)
    requires LimitOk(p, st, total, s, limit)
    ensures match DecodePacket(p, st, total, s, limit)
            case Failed(st') => st'.dic == st.dic
            case EndMark(st') =>
              && st'.dicPos == st.dicPos && |st'.dic| == |st.dic| && st'.remainLen >= MATCH_SPEC_LEN_START
              && st'.checkDicSize == st.checkDicSize && DecOk(p, st', total)
            case More(st') =>
              && st.dicPos < st'.dicPos <= limit && |st'.dic| == |st.dic| && st'.checkDicSize == st.checkDicSize
              && DecOk(p, st', total + (st'.dicPos - st.dicPos))
  {
    hide NextRun, CopyRun;
    var (m', pkt) := NextRun(p, st, total, s);
    NextRunOk(p, st, total, s);
    ApplyOk(p, st.(m := m'), total, pkt, limit);
    ApplyKeeps(st.(m := m'), pkt, limit);
  }

  function Normalized(st: DecState, s: seq<Byte>): DecState
  {
    st.(m := st.m.(rc := Normalize(st.m.rc, s)))
  }

  /** How LzmaDec_DecodeReal leaves the fields: on an error only the dictionary has changed. */
  function NormalizedOutcome(st0: DecState, o: Outcome, s: seq<Byte>): Outcome
  {
    match o
    case Failed(st) => Failed(st0.(dic := st.dic))
    case More(st) => More(Normalized(st, s))
    case EndMark(st) => EndMark(Normalized(st, s))
  }

  /** The do-while loop of LzmaDec_DecodeReal; the first packet is always decoded. */
  ghost function DecodeLoop(p: Props, st: DecState, total: nat, s: seq<Byte>, limit: nat, bufLimit: int): Outcome
    requires LimitOk(p, st, total, s, limit)
    decreases limit - st.dicPos, st
  {
    hide DecodePacket, DecOk;
    DecodePacketOk(p, st, total, s, limit);
    var o := DecodePacket(p, st, total, s, limit);
    if o.More? && o.st.dicPos < limit && o.st.m.rc.pos < bufLimit
    then DecodeLoop(p, o.st, total + (o.st.dicPos - st.dicPos), s, limit, bufLimit)
    else o
  }

  lemma {:induction false} DecodeLoopOk(p: Props, st: DecState, total: nat, s: seq<Byte>, limit: nat, bufLimit: int)
    requires LimitOk(p, st, total, s, limit)
    ensures match DecodeLoop(p, st, total, s, limit, bufLimit)
            case Failed(st') => |st'.dic| == |st.dic|
            case EndMark(st') =>
              && st.dicPos <= st'.dicPos <= limit && |st'.dic| == |st.dic| && st'.remainLen >= MATCH_SPEC_LEN_START
              && st'.checkDicSize == st.checkDicSize && DecOk(p, st', total + (st'.dicPos - st.dicPos))
            case More(st') =>
              && st.dicPos < st'.dicPos <= limit && |st'.dic| == |st.dic|
              && st'.checkDicSize == st.checkDicSize && DecOk(p, st', total + (st'.dicPos - st.dicPos))
    decreases limit - st.dicPos
  {
    hide DecodePacket, DecOk;
    DecodePacketOk(p, st, total, s, limit);
    var o := DecodePacket(p, st, total, s, limit);
    if o.More? && o.st.dicPos < limit && o.st.m.rc.pos < bufLimit {
      DecodeLoopOk(p, o.st, total + (o.st.dicPos - st.dicPos), s, limit, bufLimit);
    }
  }

  // ---------------------------------------------------------------- DecodeReal2 and WriteRem

  /** LzmaDec_WriteRem: continue a match that was cut off at an earlier limit. */
  function WriteRem(p: Props, st: DecState, limit: nat): DecState
    requires st.dicPos <= limit
  {
    if 0 < st.remainLen < MATCH_SPEC_LEN_START then
      var len := if limit - st.dicPos < st.remainLen then limit - st.dicPos else st.remainLen;
      st.(checkDicSize := if st.checkDicSize == 0 && p.dicSize - st.processedPos <= len then p.dicSize else st.checkDicSize,
          processedPos := Word(st.processedPos + len), remainLen := st.remainLen - len,
          dic := CopyRun(st.dic, st.dicPos, st.rep0, len), dicPos := st.dicPos + len)
    else st
  }

  /** Between calls the dictionary is marked full as soon as it is; base is the output before this buffer position. */
  ghost predicate Settled(p: Props, st: DecState, base: nat)
  {
    DecOk(p, st, base + st.dicPos) && (st.checkDicSize == 0 ==> base + st.dicPos < p.dicSize)
  }

  /** What decoding may start from: at the limit only a packet that writes nothing there is acceptable. */
  ghost predicate MayDecode(p: Props, st: DecState, base: nat, s: seq<Byte>, limit: nat)
  {
    && Settled(p, st, base) && st.dicPos <= limit <= |st.dic|
    && (st.dicPos == limit ==> NextPacket(p, st, base + st.dicPos, s).Match?)
  }

  lemma {:induction false} WriteRemOk(p: Props, st: DecState, base: nat, limit: nat)
    requires Settled(p, st, base) && st.dicPos <= limit <= |st.dic|
    ensures var r := WriteRem(p, st, limit);
            && Settled(p, r, base) && st.dicPos <= r.dicPos <= limit && |r.dic| == |st.dic| && r.m == st.m
            && (0 < r.remainLen < MATCH_SPEC_LEN_START ==> r.dicPos == limit)
  {
    hide CopyRun, MachineOk, Word, Normalize;
    var len := if limit - st.dicPos < st.remainLen then limit - st.dicPos else st.remainLen;
    AddMod(base + st.dicPos, len);
    AddMod(base + st.dicPos, 0);
    CopyRunLength(st.dic, st.dicPos, st.rep0, len);
  }

  lemma {:induction false} CopyRunLength(dic: seq<Byte>, pos: nat, rep0: nat, n: nat)
    ensures |CopyRun(dic, pos, rep0, n)| == |dic|
  {
  }

  /** While the dictionary has not been filled once, decoding stops where it becomes full. */
  function CappedLimit(p: Props, st: DecState, limit: nat): nat
    requires st.dicPos <= limit
  {
    var rem := p.dicSize - st.processedPos;
    if st.checkDicSize == 0 && 0 <= rem < limit - st.dicPos then st.dicPos + rem else limit
  }

  function MarkFull(p: Props, st: DecState): DecState
  {
    if st.processedPos >= p.dicSize then st.(checkDicSize := p.dicSize) else st
  }

  lemma {:induction false} MarkFullOk(p: Props, st: DecState, base: nat)
    requires DecOk(p, st, base + st.dicPos)
    ensures Settled(p, MarkFull(p, st), base)
  {
    hide MachineOk, Word;
    AddMod(base + st.dicPos, 0);
  }

  lemma {:induction false} CappedLimitOk(p: Props, st: DecState, base: nat, s: seq<Byte>, limit: nat)
    requires MayDecode(p, st, base, s, limit)
    ensures st.dicPos <= CappedLimit(p, st, limit) <= limit
    ensures LimitOk(p, st, base + st.dicPos, s, CappedLimit(p, st, limit))
  {
    hide MachineOk, Word, NextPacket;
    AddMod(base + st.dicPos, 0);
  }

  /** One round of LzmaDec_DecodeReal2. */
  ghost function Round(p: Props, st: DecState, base: nat, s: seq<Byte>, limit: nat, bufLimit: int): Outcome
    requires MayDecode(p, st, base, s, limit)
  {
    CappedLimitOk(p, st, base, s, limit);
    DecodeLoopOk(p, st, base + st.dicPos, s, CappedLimit(p, st, limit), bufLimit);
    match DecodeLoop(p, st, base + st.dicPos, s, CappedLimit(p, st, limit), bufLimit)
    case Failed(o) => Failed(st.(dic := o.dic))
    case More(o) => More(WriteRem(p, MarkFull(p, Normalized(o, s)), limit))
    case EndMark(o) => EndMark(WriteRem(p, MarkFull(p, Normalized(o, s)), limit))
  }

  lemma {:induction false} NormalizedOk(p: Props, st: DecState, total: nat, s: seq<Byte>)
    requires DecOk(p, st, total)
    ensures DecOk(p, Normalized(st, s), total) && Normal(Normalized(st, s).m.rc.range)
  {
    hide Word;
  }

  lemma {:induction false} RoundOk(p: Props, st: DecState, base: nat, s: seq<Byte>, limit: nat, bufLimit: int)
    requires MayDecode(p, st, base, s, limit)
    ensures match Round(p, st, base, s, limit, bufLimit)
            case Failed(r) => Settled(p, r, base) && |r.dic| == |st.dic| && r == st.(dic := r.dic)
            case More(r) =>
              && Settled(p, r, base) && st.dicPos < r.dicPos <= limit && |r.dic| == |st.dic| && Normal(r.m.rc.range)
              && (0 < r.remainLen < MATCH_SPEC_LEN_START ==> r.dicPos == limit)
            case EndMark(r) =>
              && Settled(p, r, base) && st.dicPos <= r.dicPos <= limit && |r.dic| == |st.dic| && Normal(r.m.rc.range)
              && r.remainLen >= MATCH_SPEC_LEN_START
  {
    hide DecodeLoop, DecOk, WriteRem, MarkFull, NextPacket, Normalize;
    CappedLimitOk(p, st, base, s, limit);
    var cap := CappedLimit(p, st, limit);
    DecodeLoopOk(p, st, base + st.dicPos, s, cap, bufLimit);
    var o := DecodeLoop(p, st, base + st.dicPos, s, cap, bufLimit);
    if !o.Failed? {
      NormalizedOk(p, o.st, base + o.st.dicPos, s);
      MarkFullOk(p, Normalized(o.st, s), base);
      SettleSame(p, Normalized(o.st, s));
      WriteRemOk(p, MarkFull(p, Normalized(o.st, s)), base, limit);
      WriteRemEnd(p, MarkFull(p, Normalized(o.st, s)), limit);
    } else {
      OtherBytes(p, st, base, o.st.dic);
    }
  }

  lemma {:induction false} OtherBytes(p: Props, st: DecState, base: nat, dic: seq<Byte>)
    requires Settled(p, st, base) && |dic| == |st.dic|
    ensures Settled(p, st.(dic := dic), base)
  {
    hide MachineOk, Word;
  }

  lemma {:induction false} SettleSame(p: Props, st: DecState)
    ensures var r := MarkFull(p, st);
            r.dicPos == st.dicPos && r.dic == st.dic && r.m == st.m && r.remainLen == st.remainLen
  {
  }

  lemma {:induction false} WriteRemEnd(p: Props, st: DecState, limit: nat)
    requires st.dicPos <= limit
    ensures WriteRem(p, st, limit).m == st.m
    ensures st.remainLen >= MATCH_SPEC_LEN_START ==> WriteRem(p, st, limit).remainLen == st.remainLen
    ensures st.remainLen < MATCH_SPEC_LEN_START ==> WriteRem(p, st, limit).remainLen < MATCH_SPEC_LEN_START
  {
  }

  /** The do-while loop of LzmaDec_DecodeReal2. */
  ghost function Decode2(p: Props, st: DecState, base: nat, s: seq<Byte>, limit: nat, bufLimit: int): Outcome
    requires MayDecode(p, st, base, s, limit)
    decreases limit - st.dicPos, st
  {
    hide Round, Settled, NextPacket;
    RoundOk(p, st, base, s, limit, bufLimit);
    match Round(p, st, base, s, limit, bufLimit)
    case Failed(r) => Failed(r)
    case EndMark(r) => EndMark(r.(remainLen := MATCH_SPEC_LEN_START))
    case More(r) =>
      if r.dicPos < limit && r.m.rc.pos < bufLimit && r.remainLen < MATCH_SPEC_LEN_START
      then Decode2(p, r, base, s, limit, bufLimit)
      else More(r)
  }

  lemma {:induction false} Decode2Ok(p: Props, st: DecState, base: nat, s: seq<Byte>, limit: nat, bufLimit: int)
    requires MayDecode(p, st, base, s, limit)
    ensures match Decode2(p, st, base, s, limit, bufLimit)
            case Failed(r) =>
              && Settled(p, r, base) && st.dicPos <= r.dicPos <= limit && |r.dic| == |st.dic|
              && (Normal(st.m.rc.range) ==> Normal(r.m.rc.range))
              && (0 < r.remainLen < MATCH_SPEC_LEN_START ==> r.dicPos == limit || r == st.(dic := r.dic))
            case More(r) =>
              && Settled(p, r, base) && st.dicPos < r.dicPos <= limit && |r.dic| == |st.dic| && Normal(r.m.rc.range)
              && (0 < r.remainLen < MATCH_SPEC_LEN_START ==> r.dicPos == limit)
            case EndMark(r) =>
              && Settled(p, r, base) && st.dicPos <= r.dicPos <= limit && |r.dic| == |st.dic| && Normal(r.m.rc.range)
              && r.remainLen == MATCH_SPEC_LEN_START
    decreases limit - st.dicPos
  {
    hide Round, NextPacket, MachineOk, Word;
    RoundOk(p, st, base, s, limit, bufLimit);
    var o := Round(p, st, base, s, limit, bufLimit);
    if o.More? && o.st.dicPos < limit && o.st.m.rc.pos < bufLimit && o.st.remainLen < MATCH_SPEC_LEN_START {
      Decode2Ok(p, o.st, base, s, limit, bufLimit);
    }
  }

  // ---------------------------------------------------------------- a call of DecodeToDic

  datatype Status = NotSpecified | FinishedWithMark | NotFinished | NeedsMoreInput | MaybeFinishedWithoutMark

  /** How a call ends. Of the fields after an error the probabilities alone are left open. */
  datatype Result = Result(ok: bool, status: Status, st: DecState)

  /** LzmaDec_TryDummy on the bytes of s from the reader's position on. */
  ghost function TryDummy(p: Props, st: DecState, total: nat, s: seq<Byte>): Option<(Reader, Packet)>
    requires DecOk(p, st, total)
  {
    DecEnvOk(p, st, total);
    DryRun(DecEnv(p, st), AtIsMatch, st.m.rc, st.m.probs, s, |s|, Coders(p))
  }

  // ---------------------------------------------------------------- no byte beyond the input is read

  /** Where the input position is once a decoded packet has been followed by a normalisation. */
  function EndPos(st: DecState, s: seq<Byte>): nat
  {
    Normalize(st.m.rc, s).pos
  }

  lemma {:induction false} OneByteMore(st: DecState, s: seq<Byte>)
    ensures st.m.rc.pos <= EndPos(st, s) <= st.m.rc.pos + 1
    ensures Normal(st.m.rc.range) ==> EndPos(st, s) == st.m.rc.pos
  {
  }

  /** Where the next packet and the normalisation after it end. */
  ghost function PacketEnd(p: Props, st: DecState, total: nat, s: seq<Byte>): nat
    requires DecOk(p, st, total)
  {
    Normalize(NextRun(p, st, total, s).0.rc, s).pos
  }

  /** They need no byte beyond s. */
  ghost predicate PacketFits(p: Props, st: DecState, total: nat, s: seq<Byte>)
    requires DecOk(p, st, total)
  {
    PacketEnd(p, st, total, s) <= |s|
  }

  lemma {:induction false} ApplyKeeps(st: DecState, pkt: Packet, limit: nat)
    requires st.dicPos <= limit && Encodable(pkt)
    ensures match Apply(st, pkt, limit)
            case Failed(o) => o.dic == st.dic
            case More(o) => o.m == st.m
            case EndMark(o) => o.m == st.m
  {
    hide CopyRun, Word;
  }

  lemma {:induction false} DecodePacketReads(p: Props, st: DecState, total: nat, s: seq<Byte>, limit: nat)
    requires LimitOk(p, st, total, s, limit) && PacketFits(p, st, total, s)
    ensures st.m.rc.pos <= NextRun(p, st, total, s).0.rc.pos <= |s|
    ensures var o := DecodePacket(p, st, total, s, limit);
            !o.Failed? ==> o.st.m == NextRun(p, st, total, s).0 && o.st.m.rc.pos <= EndPos(o.st, s) <= |s|
  {
    hide Run, Apply;
    DecEnvOk(p, st, total);
    var e := DecEnv(p, st);
    var (m', pkt) := Run(e, AtIsMatch, st.m, s, Coders(p));
    ApplyKeeps(st.(m := m'), pkt, limit);
    RunMoves(e, AtIsMatch, st.m, s, Coders(p));
  }

  /** Twenty bytes are enough for any packet. */
  lemma {:induction false} TwentyBytesFit(p: Props, st: DecState, total: nat, s: seq<Byte>)
    requires DecOk(p, st, total) && EndPos(st, s) <= |s| - LZMA_REQUIRED_INPUT_MAX
    ensures PacketFits(p, st, total, s)
  {
    hide Run;
    DecEnvOk(p, st, total);
    SymbolTakesAtMost20Bytes(DecEnv(p, st), st.m, s, Coders(p));
  }

  /** Either a checked single packet, or packets that each start at least 20 bytes before the end. */
  ghost predicate Guarded(p: Props, st: DecState, total: nat, s: seq<Byte>, bufLimit: int)
    requires DecOk(p, st, total)
  {
    || (bufLimit <= st.m.rc.pos && PacketFits(p, st, total, s))
    || (bufLimit == |s| - LZMA_REQUIRED_INPUT_MAX && EndPos(st, s) <= bufLimit)
  }

  lemma {:induction false} GuardedStart(p: Props, st: DecState, total: nat, s: seq<Byte>, bufLimit: int)
    requires DecOk(p, st, total) && Guarded(p, st, total, s, bufLimit)
    ensures PacketFits(p, st, total, s)
  {
    hide PacketFits, DecOk;
    if EndPos(st, s) <= |s| - LZMA_REQUIRED_INPUT_MAX { TwentyBytesFit(p, st, total, s); }
  }

  lemma {:induction false} GuardedAfter(p: Props, st: DecState, total: nat, st': DecState, total': nat, s: seq<Byte>,
                                        bufLimit: int)
    requires DecOk(p, st, total) && DecOk(p, st', total') && Guarded(p, st, total, s, bufLimit)
    requires st.m.rc.pos <= st'.m.rc.pos < bufLimit
    ensures Guarded(p, st', total', s, bufLimit)
  {
    hide DecOk, PacketFits, Normalize;
    OneByteMore(st', s);
  }

  /** Every packet the loop begins, the last one included if it turns out to be an error, lies within the input. */
  ghost predicate LoopFits(p: Props, st: DecState, total: nat, s: seq<Byte>, limit: nat, bufLimit: int)
    requires LimitOk(p, st, total, s, limit)
    decreases limit - st.dicPos, st
  {
    hide DecodePacket, DecOk;
    DecodePacketOk(p, st, total, s, limit);
    PacketFits(p, st, total, s)
    && var o := DecodePacket(p, st, total, s, limit);
       o.More? && o.st.dicPos < limit && o.st.m.rc.pos < bufLimit ==>
         LoopFits(p, o.st, total + (o.st.dicPos - st.dicPos), s, limit, bufLimit)
  }

  lemma {:induction false} DecodeLoopReads(p: Props, st: DecState, total: nat, s: seq<Byte>, limit: nat,
                                           bufLimit: int)
    requires LimitOk(p, st, total, s, limit) && Guarded(p, st, total, s, bufLimit)
    ensures LoopFits(p, st, total, s, limit, bufLimit)
    ensures var o := DecodeLoop(p, st, total, s, limit, bufLimit);
            st.m.rc.pos <= |s| && (!o.Failed? ==> st.m.rc.pos <= o.st.m.rc.pos <= EndPos(o.st, s) <= |s|)
    decreases limit - st.dicPos
  {
    hide DecodePacket, DecOk, Guarded, Normalize, PacketFits, NextRun;
    DecodePacketOk(p, st, total, s, limit);
    GuardedStart(p, st, total, s, bufLimit);
    DecodePacketReads(p, st, total, s, limit);
    var o := DecodePacket(p, st, total, s, limit);
    if o.More? && o.st.dicPos < limit && o.st.m.rc.pos < bufLimit {
      GuardedAfter(p, st, total, o.st, total + (o.st.dicPos - st.dicPos), s, bufLimit);
      DecodeLoopReads(p, o.st, total + (o.st.dicPos - st.dicPos), s, limit, bufLimit);
    }
  }

  ghost predicate RoundFits(p: Props, st: DecState, base: nat, s: seq<Byte>, limit: nat, bufLimit: int)
    requires MayDecode(p, st, base, s, limit)
  {
    CappedLimitOk(p, st, base, s, limit);
    LoopFits(p, st, base + st.dicPos, s, CappedLimit(p, st, limit), bufLimit)
  }

  lemma {:induction false} RoundReads(p: Props, st: DecState, base: nat, s: seq<Byte>, limit: nat, bufLimit: int)
    requires MayDecode(p, st, base, s, limit)
    requires Guarded(p, st, base + st.dicPos, s, bufLimit)
    ensures RoundFits(p, st, base, s, limit, bufLimit)
    ensures st.m.rc.pos <= Round(p, st, base, s, limit, bufLimit).st.m.rc.pos <= |s|
  {
    hide DecodeLoop, LoopFits, DecOk, NextPacket, Guarded, WriteRem, MarkFull, CappedLimit, Normalize;
    CappedLimitOk(p, st, base, s, limit);
    var cap := CappedLimit(p, st, limit);
    DecodeLoopOk(p, st, base + st.dicPos, s, cap, bufLimit);
    DecodeLoopReads(p, st, base + st.dicPos, s, cap, bufLimit);
    var o := DecodeLoop(p, st, base + st.dicPos, s, cap, bufLimit);
    if !o.Failed? {
      SettleSame(p, Normalized(o.st, s));
      WriteRemEnd(p, MarkFull(p, Normalized(o.st, s)), limit);
    }
  }

  ghost predicate Decode2Fits(p: Props, st: DecState, base: nat, s: seq<Byte>, limit: nat, bufLimit: int)
    requires MayDecode(p, st, base, s, limit)
    decreases limit - st.dicPos, st
  {
    hide Round, RoundFits, Settled, NextPacket;
    RoundOk(p, st, base, s, limit, bufLimit);
    RoundFits(p, st, base, s, limit, bufLimit)
    && var o := Round(p, st, base, s, limit, bufLimit);
       o.More? && o.st.dicPos < limit && o.st.m.rc.pos < bufLimit && o.st.remainLen < MATCH_SPEC_LEN_START ==>
         Decode2Fits(p, o.st, base, s, limit, bufLimit)
  }

  lemma {:induction false} Decode2Reads(p: Props, st: DecState, base: nat, s: seq<Byte>, limit: nat, bufLimit: int)
    requires MayDecode(p, st, base, s, limit)
    requires Guarded(p, st, base + st.dicPos, s, bufLimit)
    ensures Decode2Fits(p, st, base, s, limit, bufLimit)
    ensures st.m.rc.pos <= Decode2(p, st, base, s, limit, bufLimit).st.m.rc.pos <= |s|
    decreases limit - st.dicPos
  {
    hide Round, RoundFits, NextPacket, DecOk, Guarded, Normalize;
    RoundOk(p, st, base, s, limit, bufLimit);
    RoundReads(p, st, base, s, limit, bufLimit);
    var o := Round(p, st, base, s, limit, bufLimit);
    if o.More? && o.st.dicPos < limit && o.st.m.rc.pos < bufLimit && o.st.remainLen < MATCH_SPEC_LEN_START {
      GuardedAfter(p, st, base + st.dicPos, o.st, base + o.st.dicPos, s, bufLimit);
      Decode2Reads(p, o.st, base, s, limit, bufLimit);
    }
  }

  // ---------------------------------------------------------------- a single packet

  lemma {:induction false} SinglePacket(p: Props, st: DecState, total: nat, s: seq<Byte>, limit: nat, bufLimit: int)
    requires LimitOk(p, st, total, s, limit) && PacketFits(p, st, total, s) && bufLimit <= st.m.rc.pos
    ensures DecodeLoop(p, st, total, s, limit, bufLimit) == DecodePacket(p, st, total, s, limit)
    ensures var o := DecodePacket(p, st, total, s, limit); !o.Failed? ==> EndPos(o.st, s) == PacketEnd(p, st, total, s)
  {
    hide DecodePacket, DecOk, NextRun, Normalize;
    DecodePacketOk(p, st, total, s, limit);
    DecodePacketReads(p, st, total, s, limit);
  }

  lemma {:induction false} SingleRound(p: Props, st: DecState, base: nat, s: seq<Byte>, limit: nat, bufLimit: int)
    requires MayDecode(p, st, base, s, limit) && PacketFits(p, st, base + st.dicPos, s) && bufLimit <= st.m.rc.pos
    ensures var o := Round(p, st, base, s, limit, bufLimit);
            !o.Failed? ==> o.st.m.rc.pos == PacketEnd(p, st, base + st.dicPos, s) >= st.m.rc.pos
  {
    hide DecodeLoop, DecodePacket, DecOk, NextPacket, NextRun, WriteRem, MarkFull, CappedLimit, Normalize;
    CappedLimitOk(p, st, base, s, limit);
    var cap := CappedLimit(p, st, limit);
    DecodeLoopOk(p, st, base + st.dicPos, s, cap, bufLimit);
    SinglePacket(p, st, base + st.dicPos, s, cap, bufLimit);
    DecodePacketReads(p, st, base + st.dicPos, s, cap);
    OneByteOrNone(p, st, base + st.dicPos, s);
    var o := DecodeLoop(p, st, base + st.dicPos, s, cap, bufLimit);
    if !o.Failed? {
      SettleSame(p, Normalized(o.st, s));
      WriteRemEnd(p, MarkFull(p, Normalized(o.st, s)), limit);
    }
  }

  lemma {:induction false} OneByteOrNone(p: Props, st: DecState, total: nat, s: seq<Byte>)
    requires DecOk(p, st, total)
    ensures NextRun(p, st, total, s).0.rc.pos <= PacketEnd(p, st, total, s)
  {
    hide NextRun;
  }

  /** With the input limit at the reader, one packet is decoded and no more. */
  lemma {:induction false} SingleDecode(p: Props, st: DecState, base: nat, s: seq<Byte>, limit: nat, bufLimit: int)
    requires MayDecode(p, st, base, s, limit) && PacketFits(p, st, base + st.dicPos, s) && bufLimit <= st.m.rc.pos
    ensures var o := Decode2(p, st, base, s, limit, bufLimit);
            !o.Failed? ==> o.st.m.rc.pos == PacketEnd(p, st, base + st.dicPos, s)
  {
    hide Round, Settled, NextPacket, PacketEnd;
    SingleRound(p, st, base, s, limit, bufLimit);
    RoundOk(p, st, base, s, limit, bufLimit);
  }

  /** The dry run's verdict is the exact truth about the next packet. */
  lemma {:induction false} TryDummyTells(p: Props, st: DecState, total: nat, s: seq<Byte>)
    requires DecOk(p, st, total) && st.m.rc.pos <= |s|
    ensures TryDummy(p, st, total, s).Some? <==> PacketFits(p, st, total, s)
    ensures TryDummy(p, st, total, s).Some? ==> TryDummy(p, st, total, s).value.1 == NextPacket(p, st, total, s)
  {
    hide Run, DryRun;
    DecEnvOk(p, st, total);
    TryDummyExact(DecEnv(p, st), st.m, s, |s|, Coders(p));
  }

  /** The number of symbols decoded without checks is limited so that 20 bytes always remain. */
  function BufLimit(st: DecState, s: seq<Byte>, careful: bool): int
  {
    if careful then st.m.rc.pos else |s| - LZMA_REQUIRED_INPUT_MAX
  }

  /** What every turn of LzmaDec_DecodeToDic starts from: the input is s, the output ends at dicLimit. */
  ghost predicate Ready(p: Props, st: DecState, base: nat, s: seq<Byte>, dicLimit: nat)
  {
    && Settled(p, st, base) && st.dicPos <= dicLimit <= |st.dic|
    && st.m.rc.pos <= |s| && Normal(st.m.rc.range)
    && (0 < st.remainLen < MATCH_SPEC_LEN_START ==> st.dicPos == dicLimit)
  }

  datatype Turn = Stop(result: Result) | Go(st: DecState)

  /** Whether input must be checked packet by packet: little is left, or only an end mark is acceptable. */
  function Careful(st: DecState, s: seq<Byte>, dicLimit: nat): bool
  {
    |s| - st.m.rc.pos < LZMA_REQUIRED_INPUT_MAX || st.dicPos >= dicLimit
  }

  /** Only one packet is decoded where input must be checked, and where it comes from tempBuf. */
  function TurnLimit(st: DecState, s: seq<Byte>, dicLimit: nat, single: bool): int
  {
    BufLimit(st, s, single || Careful(st, s, dicLimit))
  }

  /** The decoding done in one turn. */
  ghost function TurnDecode(p: Props, st: DecState, base: nat, s: seq<Byte>, dicLimit: nat, single: bool): Outcome
    requires MayDecode(p, st, base, s, dicLimit)
  {
    Decode2(p, st, base, s, dicLimit, TurnLimit(st, s, dicLimit, single))
  }

  /**
   * One turn of the while loop of LzmaDec_DecodeToDic with the range decoder initialised. The input at hand is s;
   * single if it stands in tempBuf.
   */
  ghost function OneTurn(p: Props, st: DecState, base: nat, s: seq<Byte>, dicLimit: nat, finishEnd: bool, single: bool)
    : Turn
    requires Ready(p, st, base, s, dicLimit)
  {
    hide TryDummy, Decode2, NextPacket, DecOk, PacketFits, Normalize;
    var atLimit := st.dicPos >= dicLimit;
    if st.remainLen == MATCH_SPEC_LEN_START then
      Stop(Result(st.m.rc.code == 0, if st.m.rc.code == 0 then FinishedWithMark else NotSpecified, st))
    else if atLimit && st.remainLen == 0 && st.m.rc.code == 0
    then Stop(Result(true, MaybeFinishedWithoutMark, st))
    else if atLimit && !finishEnd then Stop(Result(true, NotFinished, st))
    else if atLimit && st.remainLen != 0 then Stop(Result(false, NotFinished, st))
    else
      var dummy := TryDummy(p, st, base + st.dicPos, s);
      TryDummyTells(p, st, base + st.dicPos, s);
      if Careful(st, s, dicLimit) && dummy.None? then Stop(Result(true, NeedsMoreInput, st))
      else if atLimit && !dummy.value.1.Match? then Stop(Result(false, NotFinished, st))
      else
        match TurnDecode(p, st, base, s, dicLimit, single)
        case Failed(r) => Stop(Result(false, NotSpecified, r))
        case More(r) => Go(r)
        case EndMark(r) => Go(r)
  }

  lemma {:induction false} GuardedFrom(p: Props, st: DecState, base: nat, s: seq<Byte>, careful: bool)
    requires DecOk(p, st, base + st.dicPos) && Normal(st.m.rc.range)
    requires careful ==> PacketFits(p, st, base + st.dicPos, s)
    requires !careful ==> |s| - st.m.rc.pos >= LZMA_REQUIRED_INPUT_MAX
    ensures Guarded(p, st, base + st.dicPos, s, BufLimit(st, s, careful))
  {
    hide PacketFits, Normalize, DecOk;
    OneByteMore(st, s);
  }

  lemma {:induction false} TurnDecodeOk(p: Props, st: DecState, base: nat, s: seq<Byte>, dicLimit: nat, single: bool)
    requires Ready(p, st, base, s, dicLimit)
    requires st.dicPos == dicLimit ==> NextPacket(p, st, base + st.dicPos, s).Match?
    requires Careful(st, s, dicLimit) ==> PacketFits(p, st, base + st.dicPos, s)
    ensures Decode2Fits(p, st, base, s, dicLimit, TurnLimit(st, s, dicLimit, single))
    ensures st.m.rc.pos <= TurnDecode(p, st, base, s, dicLimit, single).st.m.rc.pos
    ensures var o := TurnDecode(p, st, base, s, dicLimit, single);
            single && !o.Failed? ==> o.st.m.rc.pos == PacketEnd(p, st, base + st.dicPos, s)
    ensures match TurnDecode(p, st, base, s, dicLimit, single)
            case Failed(r) => Ready(p, r, base, s, dicLimit) && |r.dic| == |st.dic| && st.dicPos <= r.dicPos
            case More(r) => Ready(p, r, base, s, dicLimit) && |r.dic| == |st.dic| && st.dicPos < r.dicPos
            case EndMark(r) =>
              Ready(p, r, base, s, dicLimit) && |r.dic| == |st.dic| && st.dicPos <= r.dicPos
                  && r.remainLen == MATCH_SPEC_LEN_START
  {
    hide Decode2, Decode2Fits, NextPacket, DecOk, PacketFits, PacketEnd, Normalize, Guarded;
    var careful := single || Careful(st, s, dicLimit);
    if |s| - st.m.rc.pos >= LZMA_REQUIRED_INPUT_MAX { TwentyAhead(p, st, base, s, dicLimit); }
    GuardedFrom(p, st, base, s, careful);
    Decode2Ok(p, st, base, s, dicLimit, BufLimit(st, s, careful));
    Decode2Reads(p, st, base, s, dicLimit, BufLimit(st, s, careful));
    if single { SingleDecode(p, st, base, s, dicLimit, BufLimit(st, s, careful)); }
  }

  /** Whether a turn gets as far as decoding. */
  ghost predicate Decodes(p: Props, st: DecState, base: nat, s: seq<Byte>, dicLimit: nat, finishEnd: bool)
    requires Ready(p, st, base, s, dicLimit)
  {
    && st.remainLen != MATCH_SPEC_LEN_START
    && (st.dicPos < dicLimit || (finishEnd && st.remainLen == 0 && st.m.rc.code != 0))
    && (Careful(st, s, dicLimit) ==> TryDummy(p, st, base + st.dicPos, s).Some?)
    && (st.dicPos < dicLimit || TryDummy(p, st, base + st.dicPos, s).value.1.Match?)
  }

  /** All packets a turn begins lie within the input. */
  ghost predicate TurnFits(p: Props, st: DecState, base: nat, s: seq<Byte>, dicLimit: nat, finishEnd: bool, single: bool)
    requires Ready(p, st, base, s, dicLimit)
  {
    Decodes(p, st, base, s, dicLimit, finishEnd) ==>
      && MayDecode(p, st, base, s, dicLimit)
      && Decode2Fits(p, st, base, s, dicLimit, TurnLimit(st, s, dicLimit, single))
  }

  /** The next packet, if the state is in order. */
  ghost predicate TurnPacketFits(p: Props, st: DecState, base: nat, s: seq<Byte>)
  {
    DecOk(p, st, base + st.dicPos) && PacketFits(p, st, base + st.dicPos, s)
  }

  ghost function TurnPacketEnd(p: Props, st: DecState, base: nat, s: seq<Byte>): nat
  {
    if DecOk(p, st, base + st.dicPos) then PacketEnd(p, st, base + st.dicPos, s) else 0
  }

  /**
   * On any input: a turn begins no packet that reaches beyond the input; a turn that stops leaves the state, or reports
   * an error, or asks for more input with fewer than 20 bytes left; a turn that goes on has made progress and has kept
   * every distance inside the dictionary.
   */
  lemma {:induction false} OneTurnOk(p: Props, st: DecState, base: nat, s: seq<Byte>, dicLimit: nat, finishEnd: bool,
                                     single: bool)
    requires Ready(p, st, base, s, dicLimit)
    ensures TurnFits(p, st, base, s, dicLimit, finishEnd, single)
    ensures match OneTurn(p, st, base, s, dicLimit, finishEnd, single)
            case Stop(r) =>
              && Ready(p, r.st, base, s, dicLimit) && |r.st.dic| == |st.dic| && st.dicPos <= r.st.dicPos
              && (r.ok ==> r.st == st)
              && (r.status == NeedsMoreInput ==>
                    && r.ok && |s| - st.m.rc.pos < LZMA_REQUIRED_INPUT_MAX
                    && !(0 < st.remainLen < MATCH_SPEC_LEN_START) && !TurnPacketFits(p, st, base, s))
            case Go(r) =>
              && Ready(p, r, base, s, dicLimit) && |r.dic| == |st.dic|
              && (st.dicPos < r.dicPos || (st.dicPos == r.dicPos && st.remainLen != MATCH_SPEC_LEN_START
                                           && r.remainLen == MATCH_SPEC_LEN_START))
              && st.m.rc.pos <= r.m.rc.pos
              && (single ==> TurnPacketFits(p, st, base, s) && r.m.rc.pos == TurnPacketEnd(p, st, base, s))
  {
    hide TryDummy, Ready, TurnDecode, Decode2Fits, NextPacket, PacketFits, PacketEnd, Settled;
    TurnSettled(p, st, base, s, dicLimit);
    TryDummyTells(p, st, base + st.dicPos, s);
    AtLimitRem(p, st, base, s, dicLimit);
    if |s| - st.m.rc.pos >= LZMA_REQUIRED_INPUT_MAX { TwentyAhead(p, st, base, s, dicLimit); }
    if Decodes(p, st, base, s, dicLimit, finishEnd) { TurnDecodeOk(p, st, base, s, dicLimit, single); }
  }

  lemma {:induction false} AtLimitRem(p: Props, st: DecState, base: nat, s: seq<Byte>, dicLimit: nat)
    requires Ready(p, st, base, s, dicLimit)
    ensures 0 < st.remainLen < MATCH_SPEC_LEN_START ==> st.dicPos == dicLimit
    ensures TurnPacketFits(p, st, base, s) == PacketFits(p, st, base + st.dicPos, s)
    ensures TurnPacketEnd(p, st, base, s) == PacketEnd(p, st, base + st.dicPos, s)
  {
    hide PacketFits, PacketEnd;
  }

  lemma {:induction false} TwentyAhead(p: Props, st: DecState, base: nat, s: seq<Byte>, dicLimit: nat)
    requires Ready(p, st, base, s, dicLimit) && |s| - st.m.rc.pos >= LZMA_REQUIRED_INPUT_MAX
    ensures DecOk(p, st, base + st.dicPos) && PacketFits(p, st, base + st.dicPos, s)
  {
    hide PacketFits, DecOk;
    TwentyBytesFit(p, st, base + st.dicPos, s);
  }

  lemma {:induction false} TurnSettled(p: Props, st: DecState, base: nat, s: seq<Byte>, dicLimit: nat)
    requires Ready(p, st, base, s, dicLimit)
    ensures DecOk(p, st, base + st.dicPos) && Settled(p, st, base) && st.dicPos <= dicLimit <= |st.dic|
            && st.m.rc.pos <= |s|
  {
  }
}
