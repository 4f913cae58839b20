/**
 * Decoding well-formed LZMA streams: from any moment of what the encoder emits for any legal parse of any data, the
 * loops of the decoder lead to a later moment.
 */
module LzmaRoundTrip {
  import opened Bits
  import opened Bytes
  import opened RangeSpec
  import opened RangeEncoder
  import opened RangeDecoder
  import opened LzmaContexts
  import opened LzmaPackets
  import opened LzmaRun
  import opened LzmaStream
  import opened LzmaBounds
  import opened LzmaDummy
  import opened LzmaLoop
  import opened LzmaParts

  /** Where the encoder stands when the decoder has written w and still owes remainLen bytes of a match. */
  function EncoderWindow(c: Control, w: seq<Byte>, owed: nat): (full: seq<Byte>)
    ensures |full| >= |w|
  {
    if owed > 0 && c.rep0 < |w| then CopyOut(w, c.rep0, owed) else w
  }

  /** Everything about a moment of decoding a well-formed stream: pkts remain to be decoded. */
  datatype Moment = Moment(c: Control, w: seq<Byte>, m: ProbMap, pkts: seq<Packet>)

  ghost predicate Stage(p: Props, a: Moment, st: DecState, data: seq<Byte>, mark: bool, s: seq<Byte>, end: nat)
  {
    && InStep(p, a.c, a.w, st) && st.remainLen < MATCH_SPEC_LEN_START
    && var full := EncoderWindow(a.c, a.w, st.remainLen);
       && Parses(p, a.c, full, a.pkts, data)
       && Follows(st.m, s, a.m, StreamSyms(p, a.c, full, a.pkts, mark), end, Coders(p))
  }

  /** The data still to be written. */
  function Missing(a: Moment, data: seq<Byte>): int
  {
    |data| - |a.w|
  }

  lemma {:induction false} StageData(p: Props, a: Moment, st: DecState, data: seq<Byte>, mark: bool, s: seq<Byte>,
                                     end: nat)
    requires Stage(p, a, st, data, mark, s, end)
    ensures a.w <= data && Missing(a, data) >= st.remainLen
    ensures st.remainLen == 0 && Missing(a, data) > 0 ==> a.pkts != []
  {
    hide Follows, DecOk, Applicable;
    var full := EncoderWindow(a.c, a.w, st.remainLen);
    ParsesExtend(p, a.c, full, a.pkts, data);
    assert a.w <= full;
  }

  /** The next packet, alone: the decoder reads what was encoded. */
  lemma {:induction false} PacketStage(p: Props, a: Moment, st: DecState, data: seq<Byte>, mark: bool, s: seq<Byte>,
                                       end: nat)
    requires Stage(p, a, st, data, mark, s, end) && st.remainLen == 0 && a.pkts != []
    ensures var (m', pkt) := NextRun(p, st, |a.w|, s);
            && Applicable(p, a.c, a.w, a.pkts[0]) && pkt == a.pkts[0]
            && var full := Expand(p, a.c, a.w, pkt);
            && Parses(p, EncNext(a.c, pkt), full, a.pkts[1..], data)
            && Follows(m', s, LearnAll(a.m, PacketSyms(EncEnv(p, a.c, a.w), pkt)),
                       StreamSyms(p, EncNext(a.c, pkt), full, a.pkts[1..], mark), end, Coders(p))
  {
    hide Run, Follows, CopyOut, PacketSyms, DecEnv, EncEnv, Word, Holds;
    DecEnvOk(p, st, |a.w|);
    SameEnv(p, a.c, a.w, st);
    var e := DecEnv(p, st);
    var pkt := a.pkts[0];
    var full := Expand(p, a.c, a.w, pkt);
    var rest := StreamSyms(p, EncNext(a.c, pkt), full, a.pkts[1..], mark);
    assert StreamSyms(p, a.c, a.w, a.pkts, mark) == PacketSyms(e, pkt) + rest;
    PacketRoundTrip(e, pkt, st.m, s, a.m, rest, end, Coders(p));
  }

  /** Decoding one packet leads to the next moment. */
  function NextMoment(p: Props, a: Moment, owed: nat): Moment
    requires p.lc <= 8 && a.pkts != [] && a.c.state < NUM_STATES && Applicable(p, a.c, a.w, a.pkts[0])
  {
    var full := Expand(p, a.c, a.w, a.pkts[0]);
    Moment(EncNext(a.c, a.pkts[0]), if owed <= |full| then full[..|full| - owed] else full,
           LearnAll(a.m, PacketSyms(EncEnv(p, a.c, a.w), a.pkts[0])), a.pkts[1..])
  }

  lemma {:induction false} DecodePacketStage(p: Props, a: Moment, st: DecState, data: seq<Byte>, mark: bool,
                                             s: seq<Byte>, end: nat, limit: nat)
    returns (a': Moment)
    requires Stage(p, a, st, data, mark, s, end) && st.remainLen == 0 && a.pkts != []
    requires LimitOk(p, st, |a.w|, s, limit) && st.dicPos < limit
    ensures var o := DecodePacket(p, st, |a.w|, s, limit);
            && o.More? && Stage(p, a', o.st, data, mark, s, end)
            && o.st.dicPos > st.dicPos && o.st.dicPos - st.dicPos == |a'.w| - |a.w|
            && (o.st.remainLen > 0 ==> o.st.dicPos == limit)
  {
    hide NextRun, Follows, CopyOut, Holds, Word, CopyRun, StreamSyms, PacketSyms, EncEnv, Apply, MachineOk;
    PacketStage(p, a, st, data, mark, s, end);
    var (m', pkt) := NextRun(p, st, |a.w|, s);
    NextRunOk(p, st, |a.w|, s);
    var st1 := st.(m := m');
    NoEndMark(p, a.c, a.w, pkt);
    PacketInStep(p, a.c, a.w, st1, pkt, limit);
    var o := Apply(st1, pkt, limit);
    a' := NextMoment(p, a, o.st.remainLen);
    var full := Expand(p, a.c, a.w, pkt);
    assert full[..|full|] == full;
    assert EncoderWindow(a'.c, a'.w, o.st.remainLen) == full;
  }

  lemma {:induction false} NoEndMark(p: Props, c: Control, w: seq<Byte>, pkt: Packet)
    requires PropsOk(p) && Applicable(p, c, w, pkt)
    ensures pkt.Match? ==> pkt.dist != END_DISTANCE
  {
  }

  // ---------------------------------------------------------------- the end of the stream

  /** All data written: no packets and no bytes are left. */
  lemma {:induction false} StageDone(p: Props, a: Moment, st: DecState, data: seq<Byte>, mark: bool, s: seq<Byte>,
                                     end: nat)
    requires Stage(p, a, st, data, mark, s, end) && Missing(a, data) == 0
    ensures a.w == data && st.remainLen == 0 && a.pkts == []
    ensures Follows(st.m, s, a.m, StreamSyms(p, a.c, data, [], mark), end, Coders(p))
  {
    hide Follows, DecOk, StreamSyms, Holds;
    StageData(p, a, st, data, mark, s, end);
    if a.pkts != [] {
      var full := EncoderWindow(a.c, a.w, st.remainLen);
      ParsesExtend(p, EncNext(a.c, a.pkts[0]), Expand(p, a.c, full, a.pkts[0]), a.pkts[1..], data);
    }
  }

  /** With nothing left to read the code is zero and every emitted byte has been consumed. */
  lemma {:induction false} NothingLeft(d: Machine, s: seq<Byte>, m: ProbMap, end: nat, coders: nat)
    requires Follows(d, s, m, [], end, coders) && Normal(d.rc.range)
    ensures d.rc.code == 0 && d.rc.pos == end
  {
    assert Pow256(0) == 1;
    assert s[end..end] == [];
  }

  /** A one still to be read keeps the code from being zero. */
  lemma {:induction false} OneAhead(d: Machine, s: seq<Byte>, m: ProbMap, q: seq<Symbol>, end: nat, coders: nat)
    requires Follows(d, s, m, q, end, coders) && Normal(d.rc.range)
    requires q != [] && q[0].Model? && q[0].bit == 1
    ensures d.rc.code > 0
  {
    hide Agree;
    StepReads(d.rc, s, Steps(m, q), end);
    SplitBounds(d.rc.range, Get(m, q[0].ctx));
  }

  /** The next packet of a finished stream with an end mark is the end mark. */
  lemma {:induction false} MarkStage(p: Props, a: Moment, st: DecState, data: seq<Byte>, s: seq<Byte>, end: nat)
    requires Stage(p, a, st, data, true, s, end) && Missing(a, data) == 0
    ensures var (m', pkt) := NextRun(p, st, |data|, s);
            && pkt == END_MARK && a.w == data
            && Follows(m', s, LearnAll(a.m, PacketSyms(EncEnv(p, a.c, data), END_MARK)), [], end, Coders(p))
  {
    hide Run, Follows, PacketSyms, DecEnv, EncEnv, Word, Holds;
    StageDone(p, a, st, data, true, s, end);
    DecEnvOk(p, st, |data|);
    SameEnv(p, a.c, a.w, st);
    var e := DecEnv(p, st);
    assert StreamSyms(p, a.c, data, [], true) == PacketSyms(e, END_MARK) + [];
    PacketRoundTrip(e, END_MARK, st.m, s, a.m, [], end, Coders(p));
  }

  lemma {:induction false} MarkSymsOne(e: Env)
    ensures PacketSyms(e, END_MARK) != [] && PacketSyms(e, END_MARK)[0] == Model(IsMatch(e.state, e.posState), 1)
  {
    hide LenSyms, DistSyms;
  }

  lemma {:induction false} MarkEnds(n: Reader, d: Machine, s: seq<Byte>, m: ProbMap, end: nat, coders: nat)
    requires Follows(d, s, m, [], end, coders) && n == Normalize(d.rc, s)
    ensures n.code == 0 && n.pos == end && end <= |s| && Wide(d.rc.range)
  {
    hide Agree;
    NormalizedReads(d.rc, s, Steps(m, []), end);
    NormalRange(d.rc, s);
    NothingLeft(d.(rc := n), s, m, end, coders);
  }

  lemma {:induction false} NormalRange(r: Reader, s: seq<Byte>)
    requires Wide(r.range)
    ensures Normal(Normalize(r, s).range)
  {
  }

  lemma {:induction false} StageHolds(p: Props, a: Moment, st: DecState, data: seq<Byte>, mark: bool, s: seq<Byte>,
                                      end: nat)
    requires Stage(p, a, st, data, mark, s, end) && Missing(a, data) == 0
    ensures Holds(st.dic, st.dicPos, data) && |a.w| == |data| && PropsOk(p)
  {
    hide Follows, Holds, Parses, EncoderWindow, MachineOk, StreamSyms;
    StageDone(p, a, st, data, mark, s, end);
  }

  /** The end mark has been read behind all data: nothing is left of the stream. */
  ghost predicate MarkRead(st: DecState, data: seq<Byte>, s: seq<Byte>, end: nat)
  {
    && st.remainLen == MATCH_SPEC_LEN_START && Holds(st.dic, st.dicPos, data) && Wide(st.m.rc.range)
    && Normalize(st.m.rc, s).code == 0 && Normalize(st.m.rc, s).pos == end
  }

  /** The packet behind the data of a marked stream is the mark, and it writes nothing. */
  lemma {:induction false} MarkPacket(p: Props, a: Moment, st: DecState, data: seq<Byte>, s: seq<Byte>, end: nat,
                                      limit: nat)
    requires Stage(p, a, st, data, true, s, end) && Missing(a, data) == 0 && LimitOk(p, st, |a.w|, s, limit)
    ensures a.w == data
    ensures var o := DecodePacket(p, st, |a.w|, s, limit);
            o.EndMark? && o.st.dicPos == st.dicPos && MarkRead(o.st, data, s, end)
  {
    hide NextRun, Follows, PacketSyms, Normalize, Holds, Word, DecOk, StreamSyms, Parses;
    StageHolds(p, a, st, data, true, s, end);
    MarkStage(p, a, st, data, s, end);
    var (m', pkt) := NextRun(p, st, |data|, s);
    MarkEnds(Normalize(m'.rc, s), m', s, LearnAll(a.m, PacketSyms(EncEnv(p, a.c, data), END_MARK)), end, Coders(p));
  }

  /** The output limit asks for data that is still to come, or the stream has an end mark to stop at. */
  predicate InRoom(a: Moment, data: seq<Byte>, mark: bool, room: int)
  {
    mark || room <= Missing(a, data)
  }

  /** Without data to come there are no packets, and the other way round. */
  lemma {:induction false} NoMorePackets(p: Props, a: Moment, st: DecState, data: seq<Byte>, mark: bool, s: seq<Byte>,
                                         end: nat)
    requires Stage(p, a, st, data, mark, s, end) && st.remainLen == 0
    ensures a.pkts == [] <==> Missing(a, data) == 0
    ensures Missing(a, data) >= 0
  {
    hide Follows, DecOk, StreamSyms, Holds;
    StageData(p, a, st, data, mark, s, end);
    if Missing(a, data) == 0 { StageDone(p, a, st, data, mark, s, end); }
  }

  // ---------------------------------------------------------------- the loops

  /** From one moment of a stream to a later one: more data written, or the end mark read behind all of it. */
  ghost predicate Advanced(p: Props, a: Moment, st: DecState, a': Moment, o: Outcome, data: seq<Byte>, mark: bool,
                           s: seq<Byte>, end: nat, limit: nat)
  {
    && !o.Failed? && o.st.dicPos - st.dicPos == |a'.w| - |a.w|
    && (o.More? ==> Stage(p, a', o.st, data, mark, s, end) && st.dicPos < o.st.dicPos)
    && (o.EndMark? ==> mark && a'.w == data && MarkRead(o.st, data, s, end)
                       && (o.st.dicPos < limit || o.st.dicPos == st.dicPos))
  }

  lemma {:induction false} LoopStage(p: Props, a: Moment, st: DecState, data: seq<Byte>, mark: bool, s: seq<Byte>,
                                     end: nat, limit: nat, bufLimit: int)
    returns (a': Moment)
    requires Stage(p, a, st, data, mark, s, end) && st.remainLen == 0
    requires LimitOk(p, st, |a.w|, s, limit) && InRoom(a, data, mark, limit - st.dicPos)
    requires if Missing(a, data) == 0 then mark else st.dicPos < limit
    ensures var o := DecodeLoop(p, st, |a.w|, s, limit, bufLimit);
            && Advanced(p, a, st, a', o, data, mark, s, end, limit)
            && (o.More? && o.st.remainLen > 0 ==> o.st.dicPos == limit)
    decreases limit - st.dicPos
  {
    hide DecodePacket, Stage, DecOk, MarkRead, LimitOk;
    NoMorePackets(p, a, st, data, mark, s, end);
    LimitStart(p, st, |a.w|, s, limit);
    if a.pkts == [] {
      MarkPacket(p, a, st, data, s, end, limit);
      a' := a;
    } else {
      a' := DecodePacketStage(p, a, st, data, mark, s, end, limit);
      NextLimitOk(p, st, |a.w|, s, limit);
      var o := DecodePacket(p, st, |a.w|, s, limit);
      if o.st.dicPos < limit && o.st.m.rc.pos < bufLimit {
        NoMorePackets(p, a', o.st, data, mark, s, end);
        a' := LoopStage(p, a', o.st, data, mark, s, end, limit, bufLimit);
      }
    }
  }

  lemma {:induction false} LimitStart(p: Props, st: DecState, total: nat, s: seq<Byte>, limit: nat)
    requires LimitOk(p, st, total, s, limit)
    ensures DecOk(p, st, total) && st.dicPos <= limit
  {
  }

  lemma {:induction false} NextLimitOk(p: Props, st: DecState, total: nat, s: seq<Byte>, limit: nat)
    requires LimitOk(p, st, total, s, limit)
    ensures var o := DecodePacket(p, st, total, s, limit);
            o.More? && o.st.dicPos < limit ==>
              st.dicPos < o.st.dicPos && LimitOk(p, o.st, total + (o.st.dicPos - st.dicPos), s, limit)
  {
    hide DecodePacket, DecOk, NextPacket;
    DecodePacketOk(p, st, total, s, limit);
  }

  lemma {:induction false} NormalizeTwice(r: Reader, s: seq<Byte>)
    requires Wide(r.range) && r.code < r.range
    ensures var n := Normalize(r, s); Wide(n.range) && n.code < n.range && Normalize(n, s) == n
  {
  }

  /** Normalising early changes nothing for the reader. */
  lemma {:induction false} NormalizedReads(r: Reader, s: seq<Byte>, q: seq<Step>, end: nat)
    requires Reads(r, s, q, end)
    ensures Reads(Normalize(r, s), s, q, end)
  {
    hide Denotes;
    NormalizeTwice(r, s);
  }

  lemma {:induction false} NormalizedStage(p: Props, a: Moment, st: DecState, data: seq<Byte>, mark: bool,
                                           s: seq<Byte>, end: nat)
    requires Stage(p, a, st, data, mark, s, end)
    ensures Stage(p, a, Normalized(st, s), data, mark, s, end)
  {
    hide Normalize, Holds, Word, Parses, StreamSyms;
    NormalizedOk(p, st, |a.w|, s);
    NormalizedReads(st.m.rc, s, Steps(a.m, StreamSyms(p, a.c, EncoderWindow(a.c, a.w, st.remainLen), a.pkts, mark)), end);
  }

  lemma {:induction false} MarkFullStage(p: Props, a: Moment, st: DecState, base: nat, data: seq<Byte>, mark: bool,
                                         s: seq<Byte>, end: nat)
    requires Stage(p, a, st, data, mark, s, end) && base + st.dicPos == |a.w|
    ensures Stage(p, a, MarkFull(p, st), data, mark, s, end)
  {
    hide Follows, Holds, Word, Parses, StreamSyms, EncoderWindow, MachineOk;
    MarkFullOk(p, st, base);
  }

  lemma {:induction false} WriteRemStage(p: Props, a: Moment, st: DecState, base: nat, data: seq<Byte>, mark: bool,
                                         s: seq<Byte>, end: nat, limit: nat)
    returns (a': Moment)
    requires Stage(p, a, st, data, mark, s, end) && Settled(p, st, base) && base + st.dicPos == |a.w|
    requires st.dicPos <= limit <= |st.dic|
    ensures var r := WriteRem(p, st, limit);
            && Stage(p, a', r, data, mark, s, end)
            && r.dicPos - st.dicPos == |a'.w| - |a.w|
  {
    hide Follows, InStep, Settled, Parses, StreamSyms, CopyOut, CopyRun, Word;
    if st.remainLen > 0 {
      var len := if limit - st.dicPos < st.remainLen then limit - st.dicPos else st.remainLen;
      WriteRemInStep(p, a, st, base, limit, len);
      a' := a.(w := CopyOut(a.w, a.c.rep0, len));
      CopySplit(a.w, a.c.rep0, len, st.remainLen - len);
      CopyNone(a'.w, a.c.rep0);
      assert EncoderWindow(a.c, a'.w, st.remainLen - len) == EncoderWindow(a.c, a.w, st.remainLen);
    } else {
      a' := a;
    }
  }

  lemma {:induction false} CopyNone(w: seq<Byte>, dist: nat)
    ensures dist < |w| ==> CopyOut(w, dist, 0) == w
  {
  }

  lemma {:induction false} RepInside(p: Props, st: DecState, total: nat)
    requires DecOk(p, st, total)
    ensures 1 <= st.rep0 && (st.rep0 <= total ==> st.rep0 <= |st.dic|)
  {
    hide MachineOk, Word;
  }

  lemma {:induction false} WriteRemInStep(p: Props, a: Moment, st: DecState, base: nat, limit: nat, len: nat)
    requires InStep(p, a.c, a.w, st) && Settled(p, st, base) && base + st.dicPos == |a.w|
    requires st.dicPos <= limit <= |st.dic| && 0 < st.remainLen < MATCH_SPEC_LEN_START
    requires len == if limit - st.dicPos < st.remainLen then limit - st.dicPos else st.remainLen
    ensures var r := WriteRem(p, st, limit);
            && InStep(p, a.c, CopyOut(a.w, a.c.rep0, len), r) && r.remainLen == st.remainLen - len && r.m == st.m
            && r.dicPos == st.dicPos + len
            && a.c.rep0 < |a.w| && |CopyOut(a.w, a.c.rep0, len)| == |a.w| + len
  {
    hide Holds, CopyRun, CopyOut, Word, DecOk;
    WriteRemOk(p, st, base, limit);
    RepInside(p, st, |a.w|);
    HoldsCopy(st.dic, st.dicPos, a.w, a.c.rep0, len);
    assert base + (st.dicPos + len) == |a.w| + len;
  }

  lemma {:induction false} RoundStage(p: Props, a: Moment, st: DecState, base: nat, data: seq<Byte>, mark: bool,
                                      s: seq<Byte>, end: nat, limit: nat, bufLimit: int)
    returns (a': Moment)
    requires Stage(p, a, st, data, mark, s, end) && st.remainLen == 0
    requires MayDecode(p, st, base, s, limit) && base + st.dicPos == |a.w|
    requires InRoom(a, data, mark, limit - st.dicPos) && if Missing(a, data) == 0 then mark else st.dicPos < limit
    ensures Advanced(p, a, st, a', Round(p, st, base, s, limit, bufLimit), data, mark, s, end, limit)
  {
    hide DecodeLoop, Stage, WriteRem, MarkFull, Normalize, DecOk, NextPacket, MarkRead;
    var cap := CappedLimit(p, st, limit);
    CappedLimitOk(p, st, base, s, limit);
    if st.dicPos < limit { CappedAbove(p, st, base, limit); }
    var a1 := LoopStage(p, a, st, data, mark, s, end, cap, bufLimit);
    DecodeLoopOk(p, st, base + st.dicPos, s, cap, bufLimit);
    var o := DecodeLoop(p, st, base + st.dicPos, s, cap, bufLimit);
    NormalizedOk(p, o.st, base + o.st.dicPos, s);
    MarkFullOk(p, Normalized(o.st, s), base);
    SettleSame(p, Normalized(o.st, s));
    if o.More? {
      NormalizedStage(p, a1, o.st, data, mark, s, end);
      MarkFullStage(p, a1, Normalized(o.st, s), base, data, mark, s, end);
      a' := WriteRemStage(p, a1, MarkFull(p, Normalized(o.st, s)), base, data, mark, s, end, limit);
      WriteRemOk(p, MarkFull(p, Normalized(o.st, s)), base, limit);
    } else {
      a' := a1;
      MarkSettles(p, o.st, data, s, end, limit);
    }
  }

  /** Behind the mark there is nothing to settle. */
  lemma {:induction false} MarkSettles(p: Props, st: DecState, data: seq<Byte>, s: seq<Byte>, end: nat, limit: nat)
    requires MarkRead(st, data, s, end) && st.dicPos <= limit
    ensures var r := WriteRem(p, MarkFull(p, Normalized(st, s)), limit);
            MarkRead(r, data, s, end) && r.dicPos == st.dicPos
  {
    hide Holds, CopyRun, Word;
  }

  lemma {:induction false} Decode2Stage(p: Props, a: Moment, st: DecState, base: nat, data: seq<Byte>, mark: bool,
                                        s: seq<Byte>, end: nat, limit: nat, bufLimit: int)
    returns (a': Moment)
    requires Stage(p, a, st, data, mark, s, end) && st.remainLen == 0
    requires MayDecode(p, st, base, s, limit) && base + st.dicPos == |a.w|
    requires InRoom(a, data, mark, limit - st.dicPos) && if Missing(a, data) == 0 then mark else st.dicPos < limit
    ensures Advanced(p, a, st, a', Decode2(p, st, base, s, limit, bufLimit), data, mark, s, end, limit)
    decreases limit - st.dicPos
  {
    hide Round, Stage, Settled, NextPacket, MarkRead;
    a' := RoundStage(p, a, st, base, data, mark, s, end, limit, bufLimit);
    RoundOk(p, st, base, s, limit, bufLimit);
    var o := Round(p, st, base, s, limit, bufLimit);
    if o.More? {
      StageRem(p, a', o.st, data, mark, s, end);
      StageData(p, a', o.st, data, mark, s, end);
      if o.st.dicPos < limit && o.st.m.rc.pos < bufLimit {
        a' := Decode2Stage(p, a', o.st, base, data, mark, s, end, limit, bufLimit);
      }
    } else {
      MarkLength(o.st, data, s, end);
    }
  }

  lemma {:induction false} MarkLength(st: DecState, data: seq<Byte>, s: seq<Byte>, end: nat)
    requires MarkRead(st, data, s, end)
    ensures st.(remainLen := MATCH_SPEC_LEN_START) == st
  {
  }

  lemma {:induction false} CappedAbove(p: Props, st: DecState, base: nat, limit: nat)
    requires Settled(p, st, base) && st.dicPos < limit
    ensures st.dicPos < CappedLimit(p, st, limit)
  {
    hide Word, MachineOk;
    AddMod(base + st.dicPos, 0);
  }

  lemma {:induction false} StageRem(p: Props, a: Moment, st: DecState, data: seq<Byte>, mark: bool, s: seq<Byte>,
                                    end: nat)
    requires Stage(p, a, st, data, mark, s, end)
    ensures st.remainLen < MATCH_SPEC_LEN_START
    ensures st.m.rc.code < st.m.rc.range && EndPos(st, s) <= end <= |s|
  {
    hide InStep, Parses, StreamSyms, EncoderWindow, Relative, BigEndian;
  }

  // ---------------------------------------------------------------- a call

  /** A packet of the stream never needs a byte beyond the stream. */
  lemma {:induction false} StageFits(p: Props, a: Moment, st: DecState, data: seq<Byte>, mark: bool, s: seq<Byte>,
                                     end: nat)
    requires Stage(p, a, st, data, mark, s, end) && st.remainLen == 0 && a.pkts != []
    ensures PacketFits(p, st, |a.w|, s)
  {
    hide NextRun, Normalize, StreamSyms, Holds, Word, CopyOut, Agree, Relative, BigEndian;
    PacketStage(p, a, st, data, mark, s, end);
  }

  /** The end mark is a match, keeps the code from being zero, and lies within the stream. */
  lemma {:induction false} MarkAhead(p: Props, a: Moment, st: DecState, data: seq<Byte>, s: seq<Byte>, end: nat)
    requires Stage(p, a, st, data, true, s, end) && Missing(a, data) == 0 && Normal(st.m.rc.range)
    ensures st.remainLen == 0 && st.m.rc.code > 0
    ensures NextPacket(p, st, |a.w|, s).Match? && PacketFits(p, st, |a.w|, s)
  {
    hide Run, Holds, Word, CopyRun, Reads, Agree, PacketSyms, Normalize, NextRun;
    StageDone(p, a, st, data, true, s, end);
    MarkStage(p, a, st, data, s, end);
    MarkSymsOne(EncEnv(p, a.c, data));
    OneAhead(st.m, s, a.m, PacketSyms(EncEnv(p, a.c, data), END_MARK), end, Coders(p));
    var (m', pkt) := NextRun(p, st, |data|, s);
    MarkEnds(Normalize(m'.rc, s), m', s, LearnAll(a.m, PacketSyms(EncEnv(p, a.c, data), END_MARK)), end, Coders(p));
  }

  /** What one turn of the call achieves if there is data to write or a mark to read. */
  ghost predicate Turned(p: Props, a: Moment, st: DecState, a': Moment, st': DecState, data: seq<Byte>, mark: bool,
                         s: seq<Byte>, end: nat, dicLimit: nat)
  {
    && st'.dicPos - st.dicPos == |a'.w| - |a.w|
    && if st'.remainLen == MATCH_SPEC_LEN_START then mark && a'.w == data && MarkRead(st', data, s, end)
            && (st'.dicPos < dicLimit || st'.dicPos == st.dicPos)
       else Stage(p, a', st', data, mark, s, end) && st.dicPos < st'.dicPos
  }

  /** A stream that ends inside a part of the input is a stream of that part. */
  lemma {:induction false} StageCut(p: Props, a: Moment, st: DecState, data: seq<Byte>, mark: bool, v: seq<Byte>,
                                    s: seq<Byte>, end: nat)
    requires Stage(p, a, st, data, mark, s, end) && v <= s && end <= |v|
    ensures Stage(p, a, st, data, mark, v, end)
  {
    hide Holds, Parses, StreamSyms, EncoderWindow, Agree, Reads, Word;
    ReadsCut(st.m.rc, v, s, Steps(a.m, StreamSyms(p, a.c, EncoderWindow(a.c, a.w, st.remainLen), a.pkts, mark)), end);
  }

  lemma {:induction false} ReadsCut(r: Reader, v: seq<Byte>, s: seq<Byte>, q: seq<Step>, end: nat)
    requires Reads(r, s, q, end) && v <= s && end <= |v|
    ensures Reads(r, v, q, end)
  {
    hide Relative;
    var n := Normalize(r, s);
    assert Normalize(r, v) == n;
    assert v[n.pos..end] == s[n.pos..end];
  }

  /** If there is something to decode, and all of the stream is at hand, the next packet is. */
  lemma {:induction false} NextAtHand(p: Props, a: Moment, st: DecState, data: seq<Byte>, mark: bool, v: seq<Byte>,
                                      s: seq<Byte>, end: nat)
    requires Stage(p, a, st, data, mark, s, end) && st.remainLen == 0 && (Missing(a, data) > 0 || mark) && v <= s
    requires Normal(st.m.rc.range) && end <= |v|
    ensures PacketFits(p, st, |a.w|, v)
  {
    hide Stage, PacketFits;
    StageCut(p, a, st, data, mark, v, s, end);
    StageData(p, a, st, data, mark, v, end);
    if Missing(a, data) == 0 {
      MarkAhead(p, a, st, data, v, end);
    } else {
      StageFits(p, a, st, data, mark, v, end);
    }
  }

  /** A turn with something to write or a mark to read, where v is at hand: it goes on, unless v does not reach. */
  lemma {:induction false} MidTurn(p: Props, a: Moment, st: DecState, base: nat, data: seq<Byte>, mark: bool,
                                   v: seq<Byte>, s: seq<Byte>, end: nat, dicLimit: nat, finishEnd: bool, single: bool)
    returns (a': Moment)
    requires Stage(p, a, st, data, mark, s, end) && v <= s && Ready(p, st, base, v, dicLimit)
    requires base + st.dicPos == |a.w| && InRoom(a, data, mark, dicLimit - st.dicPos)
    requires st.dicPos < dicLimit || (Missing(a, data) == 0 && mark && finishEnd)
    ensures var t := OneTurn(p, st, base, v, dicLimit, finishEnd, single);
            if t.Go? then Turned(p, a, st, a', t.st, data, mark, s, end, dicLimit)
            else t.result == Result(true, NeedsMoreInput, st) && |v| < end
  {
    hide Stage, Decode2, Decode2Fits, NextPacket, PacketFits, DecOk, TryDummy, MarkRead, Normalize;
    StageRem(p, a, st, data, mark, s, end);
    StageData(p, a, st, data, mark, s, end);
    TryDummyTells(p, st, base + st.dicPos, v);
    if Missing(a, data) == 0 { MarkAhead(p, a, st, data, s, end); }
    if Careful(st, v, dicLimit) && !PacketFits(p, st, base + st.dicPos, v) {
      a' := a;
      if end <= |v| { NextAtHand(p, a, st, data, mark, v, s, end); }
    } else {
      if !Careful(st, v, dicLimit) { TwentyAhead(p, st, base, v, dicLimit); }
      SamePacket(p, st, base + st.dicPos, v, s);
      TurnDecodeOk(p, st, base, v, dicLimit, single);
      var bufLimit := TurnLimit(st, v, dicLimit, single);
      Decode2InPart(p, st, base, v, s, dicLimit, bufLimit);
      a' := Decode2Stage(p, a, st, base, data, mark, s, end, dicLimit, bufLimit);
      var o := Decode2(p, st, base, s, dicLimit, bufLimit);
      if o.More? { StageRem(p, a', o.st, data, mark, s, end); } else { MarkLength(o.st, data, s, end); }
    }
  }

  lemma {:induction false} SamePacket(p: Props, st: DecState, total: nat, v: seq<Byte>, s: seq<Byte>)
    requires DecOk(p, st, total) && v <= s && PacketFits(p, st, total, v)
    ensures NextPacket(p, st, total, s) == NextPacket(p, st, total, v)
  {
    hide NextRun, PacketFits, DecOk;
    PacketInPart(p, st, total, v, s);
  }

  /** What is left of two numbers of bytes when one has run out. */
  function Least(a: int, b: int): int
  {
    if a < b then a else b
  }

  /**
   * What a call reports that had room for some bytes and all the input it needed, when some were missing. With more
   * room than data, or asked for it, it reads the end mark; with room for all data it stops behind them; with less it
   * stops earlier, and only a caller who asked for the end then gets an error.
   */
  predicate Reported(ok: bool, status: Status, room: int, missing: int, mark: bool, finishEnd: bool)
  {
    if room > missing || (room == missing && mark && finishEnd) then ok && status == FinishedWithMark
    else if room == missing then ok && status == if mark then NotFinished else MaybeFinishedWithoutMark
    else if ok then status == MaybeFinishedWithoutMark || (status == NotFinished && !finishEnd)
    else finishEnd
  }

  /** Whether such a call consumes the stream to its last byte: all but those that leave an end mark unread. */
  predicate AllRead(room: int, missing: int, mark: bool, finishEnd: bool)
  {
    room > missing || (room == missing && (!mark || finishEnd))
  }

  /** A turn at the limit, unless an end mark is asked for: without a mark and data the code is zero. */
  lemma {:induction false} AtLimit(p: Props, a: Moment, st: DecState, base: nat, data: seq<Byte>, mark: bool,
                                   v: seq<Byte>, s: seq<Byte>, end: nat, finishEnd: bool, single: bool)
    requires Stage(p, a, st, data, mark, s, end) && v <= s && Ready(p, st, base, v, st.dicPos)
    requires base + st.dicPos == |a.w| && !(Missing(a, data) == 0 && mark && finishEnd)
    ensures var t := OneTurn(p, st, base, v, st.dicPos, finishEnd, single);
            && t.Stop? && t.result.st == st
            && if t.result.status == NeedsMoreInput then t.result.ok && |v| < end
               else Reported(t.result.ok, t.result.status, 0, Missing(a, data), mark, finishEnd)
    ensures Missing(a, data) == 0 && !mark ==> st.m.rc.pos == end
  {
    hide Stage, TurnDecode, TryDummy, NextPacket, PacketFits, Settled, DecOk;
    StageData(p, a, st, data, mark, s, end);
    ReadyLimit(p, st, base, v, st.dicPos);
    TurnSettled(p, st, base, v, st.dicPos);
    TryDummyTells(p, st, base + st.dicPos, v);
    StageRem(p, a, st, data, mark, s, end);
    if Missing(a, data) > 0 && st.remainLen == 0 {
      if PacketFits(p, st, base + st.dicPos, v) {
        SamePacket(p, st, base + st.dicPos, v, s);
        if NextPacket(p, st, base + st.dicPos, v).Match? {
          NoRoomForMatch(p, a, st, base, data, mark, v, s, end, single);
        }
      } else if end <= |v| {
        NextAtHand(p, a, st, data, mark, v, s, end);
      }
    }
    if Missing(a, data) == 0 {
      if mark { MarkAhead(p, a, st, data, s, end); } else { NoMarkEnd(p, a, st, data, s, end); }
    }
  }

  lemma {:induction false} NoMarkEnd(p: Props, a: Moment, st: DecState, data: seq<Byte>, s: seq<Byte>, end: nat)
    requires Stage(p, a, st, data, false, s, end) && Missing(a, data) == 0 && Normal(st.m.rc.range)
    ensures st.remainLen == 0 && st.m.rc.code == 0 && st.m.rc.pos == end
  {
    hide Follows, DecOk, Holds;
    StageDone(p, a, st, data, false, s, end);
    NothingLeft(st.m, s, a.m, end, Coders(p));
  }

  lemma {:induction false} ReadyLimit(p: Props, st: DecState, base: nat, s: seq<Byte>, dicLimit: nat)
    requires Ready(p, st, base, s, dicLimit)
    ensures st.dicPos <= dicLimit && Normal(st.m.rc.range)
  {
  }

  /** A match where no room is left is an error. */
  lemma {:induction false} NoRoomForMatch(p: Props, a: Moment, st: DecState, base: nat, data: seq<Byte>, mark: bool,
                                          v: seq<Byte>, s: seq<Byte>, end: nat, single: bool)
    requires Stage(p, a, st, data, mark, s, end) && st.remainLen == 0 && a.pkts != []
    requires MayDecode(p, st, base, v, st.dicPos) && base + st.dicPos == |a.w|
    requires v <= s && PacketFits(p, st, |a.w|, v)
    ensures TurnDecode(p, st, base, v, st.dicPos, single) == Failed(st)
  {
    hide NextRun, Stage, DecodePacket, Parses, MachineOk, Word, StreamSyms, Follows, TurnDecode;
    CappedLimitOk(p, st, base, v, st.dicPos);
    PacketStage(p, a, st, data, mark, s, end);
    PacketInPart(p, st, |a.w|, v, s);
    NoEndMark(p, a.c, a.w, a.pkts[0]);
    NoRoomFails(p, st, |a.w|, v);
    FailedTurn(p, st, base, v, single);
  }

  lemma {:induction false} FailedTurn(p: Props, st: DecState, base: nat, s: seq<Byte>, single: bool)
    requires MayDecode(p, st, base, s, st.dicPos) && LimitOk(p, st, base + st.dicPos, s, st.dicPos)
    requires DecodePacket(p, st, base + st.dicPos, s, st.dicPos).Failed?
    ensures TurnDecode(p, st, base, s, st.dicPos, single) == Failed(st)
  {
    hide DecodePacket, DecOk, NextPacket;
    DecodePacketOk(p, st, base + st.dicPos, s, st.dicPos);
    assert st.(dic := st.dic) == st;
  }

  lemma {:induction false} NoRoomFails(p: Props, st: DecState, total: nat, s: seq<Byte>)
    requires LimitOk(p, st, total, s, st.dicPos) && NextPacket(p, st, total, s).dist != END_DISTANCE
    ensures DecodePacket(p, st, total, s, st.dicPos).Failed?
  {
    hide NextRun, DecOk, CopyRun, Word;
  }

  // ---------------------------------------------------------------- wherever the stream stands

  /** The fields with the input pointer at the start of what is left. */
  function Rebased(st: DecState): DecState
  {
    st.(m := st.m.(rc := st.m.rc.(pos := 0)))
  }

  lemma {:induction false} NormalizeMoved(r: Reader, s: seq<Byte>)
    requires r.pos <= |s|
    ensures var n := Normalize(r, s); Normalize(r.(pos := 0), s[r.pos..]) == n.(pos := n.pos - r.pos) && n.pos >= r.pos
  {
  }

  lemma {:induction false} RestMoved(s: seq<Byte>, a: nat, b: nat, end: nat)
    requires a <= b <= end <= |s|
    ensures s[a..][b - a..end - a] == s[b..end]
  {
  }

  lemma {:induction false} ReadsMoved(r: Reader, s: seq<Byte>, q: seq<Step>, end: nat)
    requires Reads(r, s, q, end) && r.pos <= |s|
    ensures r.pos <= end && Reads(r.(pos := 0), s[r.pos..], q, end - r.pos)
  {
    hide Relative, Normalize, BigEndian;
    NormalizeMoved(r, s);
    var n := Normalize(r, s);
    RestMoved(s, r.pos, n.pos, end);
  }

  /** A moment of a stream is a moment of what is left of it. */
  lemma {:induction false} StageMoved(p: Props, a: Moment, st: DecState, data: seq<Byte>, mark: bool, s: seq<Byte>,
                                      end: nat)
    requires Stage(p, a, st, data, mark, s, end) && st.m.rc.pos <= |s|
    ensures st.m.rc.pos <= end && Stage(p, a, Rebased(st), data, mark, s[st.m.rc.pos..], end - st.m.rc.pos)
  {
    hide Holds, Parses, StreamSyms, EncoderWindow, Agree, Reads, Word;
    ReadsMoved(st.m.rc, s, Steps(a.m, StreamSyms(p, a.c, EncoderWindow(a.c, a.w, st.remainLen), a.pkts, mark)), end);
  }

  lemma {:induction false} MarkReadMoved(st: DecState, data: seq<Byte>, s: seq<Byte>, end: nat)
    requires MarkRead(st, data, s, end) && st.m.rc.pos <= |s|
    ensures st.m.rc.pos <= end && MarkRead(Rebased(st), data, s[st.m.rc.pos..], end - st.m.rc.pos)
  {
    hide Holds;
    NormalizeMoved(st.m.rc, s);
  }

  // ---------------------------------------------------------------- the beginning

  /** The decoder after LzmaDec_Init and LzmaDec_InitStateReal; range and code are not used before LzmaDec_InitRc. */
  function FreshState(p: Props, dic: seq<Byte>): DecState
  {
    DecState(Machine(Reader(0xFFFF_FFFF, 0, 0), seq(NumProbs(Coders(p)), _ => PROB_INIT)), 0, 1, 1, 1, 1, dic, 0, 0, 0, 0)
  }

  /** The same after LzmaDec_InitRc. */
  function InitState(p: Props, dic: seq<Byte>, s: seq<Byte>): DecState
    requires |s| >= 5
  {
    var st := FreshState(p, dic);
    st.(m := st.m.(rc := InitReader(s)))
  }

  lemma {:induction false} InitSettled(p: Props, dic: seq<Byte>, s: seq<Byte>, dicLimit: nat)
    requires PropsOk(p) && |s| >= 5 && dicLimit <= |dic|
    ensures Ready(p, InitState(p, dic, s), 0, s, dicLimit)
  {
    hide NumProbs, Coders;
    AddMod(0, 0);
  }

  /** The bytes out are what the range encoder leaves for a legal parse of the data. */
  ghost predicate Stream(p: Props, pkts: seq<Packet>, data: seq<Byte>, mark: bool, out: seq<Byte>)
  {
    && PropsOk(p) && Parses(p, CONTROL_INIT, [], pkts, data)
    && var iv := AfterAll(START, Steps(map[], StreamSyms(p, CONTROL_INIT, [], pkts, mark)));
       |out| == iv.shifts + 5 && BigEndian(out) == iv.low
  }

  /** A fresh decoder on a stream is at the beginning of the data. */
  lemma {:induction false} FreshStage(p: Props, pkts: seq<Packet>, data: seq<Byte>, mark: bool, out: seq<Byte>,
                                      extra: seq<Byte>, dic: seq<Byte>)
    requires Stream(p, pkts, data, mark, out)
    ensures out[0] == 0
    ensures var a := Moment(CONTROL_INIT, [], map[], pkts);
            Stage(p, a, InitState(p, dic, out + extra), data, mark, out + extra, |out|)
  {
    hide Stage, AfterAll, Steps, StreamSyms, Parses, Follows, NumProbs, Coders;
    var s := out + extra;
    var q := Steps(map[], StreamSyms(p, CONTROL_INIT, [], pkts, mark));
    FlushedIsReadable(out, extra, q);
    var st := InitState(p, dic, s);
    InitSettled(p, dic, s, 0);
    AgreeInitially(st.m.probs, Coders(p));
    InitFollows(p, dic, s, pkts, mark, |out|);
    InitStage(p, Moment(CONTROL_INIT, [], map[], pkts), st, data, mark, s, |out|);
  }

  lemma {:induction false} InitFollows(p: Props, dic: seq<Byte>, s: seq<Byte>, pkts: seq<Packet>, mark: bool, end: nat)
    requires PropsOk(p) && |s| >= 5
    requires Reads(InitReader(s), s, Steps(map[], StreamSyms(p, CONTROL_INIT, [], pkts, mark)), end)
    requires Agree(map[], InitState(p, dic, s).m.probs, Coders(p))
    ensures Follows(InitState(p, dic, s).m, s, map[], StreamSyms(p, CONTROL_INIT, [], pkts, mark), end, Coders(p))
  {
    hide Reads, Agree, StreamSyms, Steps;
  }

  lemma {:induction false} StreamLength(p: Props, pkts: seq<Packet>, data: seq<Byte>, mark: bool, out: seq<Byte>)
    requires Stream(p, pkts, data, mark, out)
    ensures PropsOk(p) && |out| >= 5
  {
    hide AfterAll, Steps, StreamSyms, Parses;
  }

  lemma {:induction false} InitStage(p: Props, a: Moment, st: DecState, data: seq<Byte>, mark: bool, s: seq<Byte>,
                                     end: nat)
    requires DecOk(p, st, 0) && a.c == CONTROL_INIT && a.w == [] && st.remainLen == 0 && st.state == 0
    requires st.rep0 == 1 && st.rep1 == 1 && st.rep2 == 1 && st.rep3 == 1
    requires Parses(p, a.c, a.w, a.pkts, data)
    requires Follows(st.m, s, a.m, StreamSyms(p, a.c, a.w, a.pkts, mark), end, Coders(p))
    ensures Stage(p, a, st, data, mark, s, end)
  {
    hide Follows, Parses, StreamSyms;
  }

  /** The last bytes written lie in front of the buffer position. */
  lemma {:induction false} HeldPiece(dic: seq<Byte>, from: nat, dicPos: nat, w: seq<Byte>)
    requires Holds(dic, dicPos, w) && from <= dicPos && dicPos - from <= |w|
    ensures dic[from..dicPos] == w[|w| - (dicPos - from)..]
  {
    forall k | from <= k < dicPos
      ensures dic[k] == w[|w| - dicPos + k]
    {
      assert Behind(dic, dicPos, dicPos - k) == w[|w| - (dicPos - k)];
    }
    assert dic[from..dicPos] == w[|w| - (dicPos - from)..];
  }
}
