/**
 * LzmaDec_DecodeToDic on input that comes in pieces: the first five bytes start the range decoder, and what does not
 * hold a whole packet waits in tempBuf for the next call.
 */
module LzmaFeed {
  import opened Bits
  import opened Bytes
  import opened RangeSpec
  import opened RangeEncoder
  import opened RangeDecoder
  import opened LzmaContexts
  import opened LzmaPackets
  import opened LzmaRun
  import opened LzmaStream
  import opened LzmaBounds
  import opened LzmaLoop
  import opened LzmaParts
  import opened LzmaRoundTrip

  /** RC_INIT_SIZE */
  const INIT_SIZE := 5

  /** The decoder between turns: its fields, the bytes kept in tempBuf, and needFlush. */
  datatype Feed = Feed(st: DecState, temp: seq<Byte>, flush: bool)

  /** What is kept does not hold a packet, so that it is never too much for tempBuf. */
  ghost predicate FeedOk(p: Props, f: Feed, base: nat)
  {
    && Settled(p, f.st, base) && f.st.m.rc.pos == 0 && Normal(f.st.m.rc.range) && |f.temp| < LZMA_REQUIRED_INPUT_MAX
    && (f.flush ==> |f.temp| < INIT_SIZE && f.st.remainLen == 0)
    && (f.temp != [] && !f.flush ==>
          !(0 < f.st.remainLen < MATCH_SPEC_LEN_START) && !TurnPacketFits(p, f.st, base, f.temp))
  }

  ghost predicate FeedReady(p: Props, f: Feed, base: nat, dicLimit: nat)
  {
    && FeedOk(p, f, base) && f.st.dicPos <= dicLimit <= |f.st.dic|
    && (0 < f.st.remainLen < MATCH_SPEC_LEN_START ==> f.st.dicPos == dicLimit)
  }

  /** The bytes a turn works on: the input itself, or tempBuf filled up from it. */
  function View(f: Feed, src: seq<Byte>): (v: seq<Byte>)
    ensures |v| <= |f.temp| + |src|
  {
    if f.temp == [] then src
    else if |f.temp| + |src| <= LZMA_REQUIRED_INPUT_MAX then f.temp + src
    else if |f.temp| <= LZMA_REQUIRED_INPUT_MAX then f.temp + src[..LZMA_REQUIRED_INPUT_MAX - |f.temp|]
    else f.temp
  }

  lemma {:induction false} ViewIs(f: Feed, src: seq<Byte>)
    requires |f.temp| < LZMA_REQUIRED_INPUT_MAX
    ensures View(f, src) <= f.temp + src && f.temp <= View(f, src)
    ensures |View(f, src)| < LZMA_REQUIRED_INPUT_MAX ==> View(f, src) == f.temp + src
    ensures f.temp == [] ==> View(f, src) == src
  {
  }

  lemma {:induction false} ViewReady(p: Props, f: Feed, base: nat, src: seq<Byte>, dicLimit: nat)
    requires FeedReady(p, f, base, dicLimit)
    ensures Ready(p, f.st, base, View(f, src), dicLimit)
  {
    hide Settled;
  }

  /** LzmaDec_InitRc, with the state initialised. */
  function Started(st: DecState, t: seq<Byte>): DecState
    requires |t| >= INIT_SIZE
  {
    st.(m := st.m.(rc := InitReader(t).(pos := 0)))
  }

  datatype Fed = Fed(ok: bool, status: Status, f: Feed, used: nat)

  datatype FeedTurn = FStop(result: Fed) | FGo(f: Feed, used: nat)

  /** What the call takes from the input to start the range decoder. */
  function InitPart(f: Feed, src: seq<Byte>): (t: seq<Byte>)
    ensures |t| <= |f.temp| + |src|
  {
    if |f.temp| + |src| <= INIT_SIZE then f.temp + src
    else if |f.temp| <= INIT_SIZE then f.temp + src[..INIT_SIZE - |f.temp|]
    else f.temp
  }

  /** The start of the range decoder: five bytes, of which the first is zero. */
  function StartTurn(f: Feed, src: seq<Byte>): FeedTurn
  {
    var t := InitPart(f, src);
    var used: nat := if |t| >= |f.temp| then |t| - |f.temp| else 0;
    if |t| < INIT_SIZE then FStop(Fed(true, NeedsMoreInput, f.(temp := t), used))
    else if t[0] != 0 then FStop(Fed(false, NotSpecified, f.(temp := t), used))
    else FGo(Feed(Started(f.st, t), [], false), used)
  }

  /** One turn of the while loop. */
  ghost function OneFeed(p: Props, f: Feed, base: nat, src: seq<Byte>, dicLimit: nat, finishEnd: bool): FeedTurn
    requires FeedReady(p, f, base, dicLimit)
  {
    hide OneTurn, Ready, FeedReady;
    if f.flush then StartTurn(f, src)
    else
      ViewReady(p, f, base, src, dicLimit);
      var v := View(f, src);
      var turn := OneTurn(p, f.st, base, v, dicLimit, finishEnd, f.temp != []);
      if turn.Stop? then
        var r := turn.result;
        if r.status == NeedsMoreInput
        then FStop(Fed(true, NeedsMoreInput, f.(temp := v), if |v| >= |f.temp| then |v| - |f.temp| else 0))
        else FStop(Fed(r.ok, r.status, f.(st := Rebased(r.st)), 0))
      else
        var pos := turn.st.m.rc.pos;
        FGo(Feed(Rebased(turn.st), [], false), if pos >= |f.temp| then pos - |f.temp| else 0)
  }

  lemma {:induction false} RebasedSettled(p: Props, st: DecState, base: nat)
    requires Settled(p, st, base)
    ensures Settled(p, Rebased(st), base)
  {
  }

  /** Kept bytes do not hold a packet, so decoding from tempBuf reads more than was kept. */
  lemma {:induction false} ReadsMore(p: Props, f: Feed, base: nat, src: seq<Byte>, dicLimit: nat, finishEnd: bool)
    requires FeedReady(p, f, base, dicLimit) && !f.flush
    ensures Ready(p, f.st, base, View(f, src), dicLimit)
    ensures var t := OneTurn(p, f.st, base, View(f, src), dicLimit, finishEnd, f.temp != []);
            t.Go? ==> |f.temp| <= t.st.m.rc.pos <= |View(f, src)|
  {
    hide OneTurn, Settled, TurnFits, PacketFits, DecOk;
    ViewReady(p, f, base, src, dicLimit);
    ViewIs(f, src);
    var v := View(f, src);
    OneTurnOk(p, f.st, base, v, dicLimit, finishEnd, f.temp != []);
    var t := OneTurn(p, f.st, base, v, dicLimit, finishEnd, f.temp != []);
    if f.temp != [] && t.Go? && t.st.m.rc.pos <= |f.temp| {
      PacketOfPart(p, f.st, base + f.st.dicPos, f.temp, v);
    }
  }

  /** Progress is output, the end mark, or the start of the range decoder. */
  ghost predicate Progress(f: Feed, f': Feed)
  {
    || f.st.dicPos < f'.st.dicPos
    || (f.st.dicPos == f'.st.dicPos && f.st.remainLen != MATCH_SPEC_LEN_START && f'.st.remainLen == MATCH_SPEC_LEN_START)
    || (f.st.dicPos == f'.st.dicPos && f.st.remainLen == f'.st.remainLen && f.flush && !f'.flush)
  }

  /** On any input a turn takes no more than there is and leaves the decoder in order. */
  ghost predicate FeedTurnOk(p: Props, f: Feed, base: nat, src: seq<Byte>, dicLimit: nat, turn: FeedTurn)
  {
    match turn
    case FStop(r) =>
      && r.used <= |src| && |r.f.st.dic| == |f.st.dic| && f.st.dicPos <= r.f.st.dicPos <= dicLimit
      && (r.ok ==> FeedReady(p, r.f, base, dicLimit)) && (r.status == NeedsMoreInput ==> r.ok && r.used == |src|)
    case FGo(f', used) =>
      && used <= |src| && |f'.st.dic| == |f.st.dic| && FeedReady(p, f', base, dicLimit) && Progress(f, f')
  }

  lemma {:induction false} StartFeedOk(p: Props, f: Feed, base: nat, src: seq<Byte>, dicLimit: nat, finishEnd: bool)
    requires FeedReady(p, f, base, dicLimit) && f.flush
    ensures FeedTurnOk(p, f, base, src, dicLimit, OneFeed(p, f, base, src, dicLimit, finishEnd))
  {
    hide Word, OneTurn;
  }

  lemma {:induction false} OneFeedOk(p: Props, f: Feed, base: nat, src: seq<Byte>, dicLimit: nat, finishEnd: bool)
    requires FeedReady(p, f, base, dicLimit)
    ensures FeedTurnOk(p, f, base, src, dicLimit, OneFeed(p, f, base, src, dicLimit, finishEnd))
  {
    hide OneTurn, Settled, TurnFits, TurnPacketFits, View;
    if f.flush {
      StartFeedOk(p, f, base, src, dicLimit, finishEnd);
    } else {
      ViewReady(p, f, base, src, dicLimit);
      ViewIs(f, src);
      var v := View(f, src);
      OneTurnOk(p, f.st, base, v, dicLimit, finishEnd, f.temp != []);
      ReadsMore(p, f, base, src, dicLimit, finishEnd);
      var t := OneTurn(p, f.st, base, v, dicLimit, finishEnd, f.temp != []);
      if t.Go? { RebasedSettled(p, t.st, base); } else { SameRebased(p, f, t.result.st); }
    }
  }

  lemma {:induction false} SameRebased(p: Props, f: Feed, st: DecState)
    requires f.st.m.rc.pos == 0
    ensures st == f.st ==> Rebased(st) == f.st
    ensures Rebased(st).dicPos == st.dicPos && Rebased(st).dic == st.dic
  {
  }

  /** The while loop of LzmaDec_DecodeToDic. */
  ghost function Feeding(p: Props, f: Feed, base: nat, src: seq<Byte>, dicLimit: nat, finishEnd: bool): Fed
    requires FeedReady(p, f, base, dicLimit)
    decreases dicLimit - f.st.dicPos, f.st.remainLen != MATCH_SPEC_LEN_START, f.flush, f
  {
    hide OneFeed, FeedOk;
    OneFeedOk(p, f, base, src, dicLimit, finishEnd);
    match OneFeed(p, f, base, src, dicLimit, finishEnd)
    case FStop(r) => r
    case FGo(f', used) =>
      var rest := Feeding(p, f', base, src[used..], dicLimit, finishEnd);
      rest.(used := used + rest.used)
  }

  /** All packets begun by a call lie within the input at hand. */
  ghost predicate FeedFits(p: Props, f: Feed, base: nat, src: seq<Byte>, dicLimit: nat, finishEnd: bool)
    requires FeedReady(p, f, base, dicLimit)
    decreases dicLimit - f.st.dicPos, f.st.remainLen != MATCH_SPEC_LEN_START, f.flush, f
  {
    hide OneFeed, FeedOk, TurnFits, Ready;
    ViewReady(p, f, base, src, dicLimit);
    OneFeedOk(p, f, base, src, dicLimit, finishEnd);
    (!f.flush ==> TurnFits(p, f.st, base, View(f, src), dicLimit, finishEnd, f.temp != []))
    && match OneFeed(p, f, base, src, dicLimit, finishEnd)
       case FStop(_) => true
       case FGo(f', used) => FeedFits(p, f', base, src[used..], dicLimit, finishEnd)
  }

  /**
   * On any input, corrupt or cut short, and in whatever pieces it comes: a call reads nothing beyond the input it was
   * given, consumes no more of it, writes inside the buffer, keeps fewer than the 20 bytes tempBuf holds, and leaves
   * the decoder, unless it reports an error, in order for a further call.
   */
  lemma {:induction false} FeedingOk(p: Props, f: Feed, base: nat, src: seq<Byte>, dicLimit: nat, finishEnd: bool)
    requires FeedReady(p, f, base, dicLimit)
    ensures FeedFits(p, f, base, src, dicLimit, finishEnd)
    ensures FeedTurnOk(p, f, base, src, dicLimit, FStop(Feeding(p, f, base, src, dicLimit, finishEnd)))
    decreases dicLimit - f.st.dicPos, f.st.remainLen != MATCH_SPEC_LEN_START, f.flush
  {
    hide OneFeed, FeedOk, TurnFits, OneTurn, Ready;
    OneFeedOk(p, f, base, src, dicLimit, finishEnd);
    ViewReady(p, f, base, src, dicLimit);
    if !f.flush { OneTurnOk(p, f.st, base, View(f, src), dicLimit, finishEnd, f.temp != []); }
    var t := OneFeed(p, f, base, src, dicLimit, finishEnd);
    if t.FGo? { FeedingOk(p, t.f, base, src[t.used..], dicLimit, finishEnd); }
  }

  // ---------------------------------------------------------------- a whole call

  /** What a call may start from. */
  ghost predicate MayCall(p: Props, f: Feed, base: nat, dicLimit: nat)
  {
    FeedOk(p, f, base) && f.st.dicPos <= dicLimit <= |f.st.dic|
  }

  /** The rest of a match is written first. */
  function Resumed(p: Props, f: Feed, dicLimit: nat): Feed
    requires f.st.dicPos <= dicLimit
  {
    f.(st := WriteRem(p, f.st, dicLimit))
  }

  lemma {:induction false} ResumedReady(p: Props, f: Feed, base: nat, dicLimit: nat)
    requires MayCall(p, f, base, dicLimit)
    ensures Settled(p, f.st, base) && f.st.dicPos <= dicLimit <= |f.st.dic|
    ensures FeedReady(p, Resumed(p, f, dicLimit), base, dicLimit)
    ensures |Resumed(p, f, dicLimit).st.dic| == |f.st.dic| && f.st.dicPos <= Resumed(p, f, dicLimit).st.dicPos
  {
    hide Settled, TurnPacketFits, CopyRun, Word;
    WriteRemOk(p, f.st, base, dicLimit);
  }

  /** LzmaDec_DecodeToDic */
  ghost function Call(p: Props, f: Feed, base: nat, src: seq<Byte>, dicLimit: nat, finishEnd: bool): Fed
    requires MayCall(p, f, base, dicLimit)
  {
    ResumedReady(p, f, base, dicLimit);
    Feeding(p, Resumed(p, f, dicLimit), base, src, dicLimit, finishEnd)
  }

  /** A call on any input. */
  lemma {:induction false} CallOk(p: Props, f: Feed, base: nat, src: seq<Byte>, dicLimit: nat, finishEnd: bool)
    requires MayCall(p, f, base, dicLimit)
    ensures FeedTurnOk(p, f, base, src, dicLimit, FStop(Call(p, f, base, src, dicLimit, finishEnd)))
  {
    hide Feeding, FeedReady, FeedFits, Resumed;
    ResumedReady(p, f, base, dicLimit);
    FeedingOk(p, Resumed(p, f, dicLimit), base, src, dicLimit, finishEnd);
  }

  // ---------------------------------------------------------------- on a well-formed stream

  /**
   * In the middle of a stream of which rest is left, with whatever follows it; before its first five bytes; or behind
   * its end mark. What is kept in tempBuf is the beginning of the rest.
   */
  ghost predicate OnFeed(p: Props, a: Moment, f: Feed, base: nat, data: seq<Byte>, mark: bool, rest: seq<Byte>, end: nat)
  {
    && FeedOk(p, f, base) && base + f.st.dicPos == |a.w| && a.w <= data && f.temp <= rest && end <= |rest|
    && (f.temp != [] ==> |f.temp| < end)
    && if f.flush then
         && INIT_SIZE <= end && rest[0] == 0
         && Stage(p, a, f.st.(m := f.st.m.(rc := InitReader(rest))), data, mark, rest, end)
       else if f.st.remainLen == MATCH_SPEC_LEN_START then
         mark && a.w == data && f.temp == [] && MarkRead(f.st, data, rest, end)
       else Stage(p, a, f.st, data, mark, rest, end)
  }

  /** What a call reports: behind the end mark always the end, otherwise as there was room. */
  predicate Answered(atEnd: bool, ok: bool, status: Status, room: int, missing: int, mark: bool, finishEnd: bool)
  {
    if atEnd then ok && status == FinishedWithMark else Reported(ok, status, room, missing, mark, finishEnd)
  }

  /** How much of the stream is decoded. */
  function Decoded(f: Feed, r: Fed): int
  {
    |f.temp| + r.used - |r.f.temp|
  }

  /**
   * What a call achieves on a stream with room for some bytes: it writes what is missing as far as there is room, or
   * runs out of input and has taken all of it. Either way a later call can go on.
   */
  ghost predicate Served(p: Props, a: Moment, f: Feed, a': Moment, r: Fed, base: nat, data: seq<Byte>, mark: bool,
                         rest: seq<Byte>, end: nat, src: seq<Byte>, room: int, finishEnd: bool)
  {
    var d := Decoded(f, r);
    var missing := Missing(a, data);
    && 0 <= d <= end <= |rest| && (r.ok ==> OnFeed(p, a', r.f, base, data, mark, rest[d..], end - d))
    && a.w <= a'.w <= data && |a'.w| - |a.w| == r.f.st.dicPos - f.st.dicPos && |r.f.st.dic| == |f.st.dic|
    && Holds(r.f.st.dic, r.f.st.dicPos, a'.w)
    && (r.f.st.remainLen == MATCH_SPEC_LEN_START && f.st.remainLen != MATCH_SPEC_LEN_START ==>
          room > missing || (room == missing && mark && finishEnd))
    && if r.status == NeedsMoreInput
       then r.ok && r.used == |src| && |f.temp| + |src| < end && |a'.w| - |a.w| <= Least(room, missing)
       else
         && |a'.w| - |a.w| == Least(room, missing)
         && Answered(f.st.remainLen == MATCH_SPEC_LEN_START, r.ok, r.status, room, missing, mark, finishEnd)
         && (f.st.remainLen == MATCH_SPEC_LEN_START || AllRead(room, missing, mark, finishEnd) ==> d == end)
  }

  lemma {:induction false} ViewPart(f: Feed, src: seq<Byte>, rest: seq<Byte>)
    requires |f.temp| < LZMA_REQUIRED_INPUT_MAX && f.temp + src <= rest
    ensures View(f, src) <= rest
  {
    ViewIs(f, src);
  }

  /** Behind the end mark a turn only reports it. */
  lemma {:induction false} EndFeed(p: Props, a: Moment, f: Feed, base: nat, data: seq<Byte>, mark: bool,
                                   rest: seq<Byte>, end: nat, src: seq<Byte>, dicLimit: nat, finishEnd: bool)
    requires OnFeed(p, a, f, base, data, mark, rest, end) && FeedReady(p, f, base, dicLimit)
    requires f.st.remainLen == MATCH_SPEC_LEN_START
    ensures OneFeed(p, f, base, src, dicLimit, finishEnd) == FStop(Fed(true, FinishedWithMark, f, 0))
    ensures Served(p, a, f, a, Fed(true, FinishedWithMark, f, 0), base, data, mark, rest, end, src,
                   dicLimit - f.st.dicPos, finishEnd)
  {
    hide Settled, TryDummy, NextPacket, TurnDecode, PacketFits, Holds, Stage;
    assert rest[0..] == rest;
    assert Rebased(f.st) == f.st;
  }

  lemma {:induction false} InitAlike(t: seq<Byte>, s: seq<Byte>)
    requires |t| >= INIT_SIZE && t <= s
    ensures InitReader(t) == InitReader(s)
  {
    assert t[1..5] == s[1..5];
  }

  /** The first five bytes of a stream start the decoder at its first packet. */
  lemma {:induction false} StartFeed(p: Props, a: Moment, f: Feed, base: nat, data: seq<Byte>, mark: bool,
                                     rest: seq<Byte>, end: nat, src: seq<Byte>, dicLimit: nat, finishEnd: bool)
    requires OnFeed(p, a, f, base, data, mark, rest, end) && FeedReady(p, f, base, dicLimit) && f.flush
    requires f.temp + src <= rest
    ensures var t := OneFeed(p, f, base, src, dicLimit, finishEnd);
            if t.FStop? then
              |f.temp| + |src| < INIT_SIZE && t.result == Fed(true, NeedsMoreInput, f.(temp := f.temp + src), |src|)
              && OnFeed(p, a, t.result.f, base, data, mark, rest, end)
            else
              && t.used + |f.temp| == INIT_SIZE && t.used <= |src| && t.f.st.dicPos == f.st.dicPos
              && t.f.temp == [] && !t.f.flush && t.f.st.dic == f.st.dic && t.f.st.remainLen == 0
              && OnFeed(p, a, t.f, base, data, mark, rest[INIT_SIZE..], end - INIT_SIZE)
  {
    hide Settled, Stage, OneTurn, Holds;
    var t := InitPart(f, src);
    if |t| == INIT_SIZE {
      InitAlike(t, rest);
      var st0 := f.st.(m := f.st.m.(rc := InitReader(rest)));
      assert Rebased(st0) == Started(f.st, t);
      StageMoved(p, a, st0, data, mark, rest, end);
      StartFeedOk(p, f, base, src, dicLimit, finishEnd);
    }
  }

  /** A turn of the decoder proper that ends the call. */
  lemma {:induction false} StopFeed(p: Props, a: Moment, f: Feed, base: nat, data: seq<Byte>, mark: bool,
                                    rest: seq<Byte>, end: nat, src: seq<Byte>, dicLimit: nat, finishEnd: bool, r: Result)
    requires OnFeed(p, a, f, base, data, mark, rest, end) && FeedReady(p, f, base, dicLimit)
    requires !f.flush && f.st.remainLen != MATCH_SPEC_LEN_START && f.temp + src <= rest
    requires r.st == f.st && f.st.dicPos <= dicLimit
    requires if r.status == NeedsMoreInput
             then && r.ok && |View(f, src)| < end && |View(f, src)| < LZMA_REQUIRED_INPUT_MAX
                  && !(0 < f.st.remainLen < MATCH_SPEC_LEN_START) && !TurnPacketFits(p, f.st, base, View(f, src))
             else && Reported(r.ok, r.status, 0, Missing(a, data), mark, finishEnd) && f.st.dicPos == dicLimit
                  && !(Missing(a, data) == 0 && mark && finishEnd) && Missing(a, data) >= 0
                  && (Missing(a, data) == 0 && !mark ==> f.st.m.rc.pos == end)
    ensures View(f, src) <= rest && Missing(a, data) >= 0
    ensures var fed := if r.status == NeedsMoreInput
                       then Fed(true, NeedsMoreInput, f.(temp := View(f, src)), |View(f, src)| - |f.temp|)
                       else Fed(r.ok, r.status, f.(st := Rebased(r.st)), 0);
            Served(p, a, f, a, fed, base, data, mark, rest, end, src, dicLimit - f.st.dicPos, finishEnd)
  {
    hide Settled, Stage, TurnPacketFits, Holds, View;
    ViewIs(f, src);
    ViewPart(f, src, rest);
    StageHeld(p, a, f.st, data, mark, rest, end);
    assert rest[0..] == rest;
    assert Rebased(f.st) == f.st;
  }

  lemma {:induction false} StageHeld(p: Props, a: Moment, st: DecState, data: seq<Byte>, mark: bool, s: seq<Byte>,
                                     end: nat)
    requires Stage(p, a, st, data, mark, s, end)
    ensures Holds(st.dic, st.dicPos, a.w) && Missing(a, data) >= 0 && a.w <= data && st.remainLen < MATCH_SPEC_LEN_START
    ensures end <= |s|
  {
    hide Holds, Follows, Parses, EncoderWindow, DecOk, StreamSyms;
    StageData(p, a, st, data, mark, s, end);
    StageRem(p, a, st, data, mark, s, end);
  }

  /** A turn of the decoder proper after which the call goes on. */
  lemma {:induction false} GoFeed(p: Props, a: Moment, f: Feed, a': Moment, st': DecState, base: nat, data: seq<Byte>,
                                  mark: bool, rest: seq<Byte>, end: nat, dicLimit: nat)
    requires OnFeed(p, a, f, base, data, mark, rest, end) && !f.flush && f.st.remainLen != MATCH_SPEC_LEN_START
    requires Turned(p, a, f.st, a', st', data, mark, rest, end, dicLimit) && st'.m.rc.pos <= |rest|
    requires FeedReady(p, Feed(Rebased(st'), [], false), base, dicLimit)
    ensures var pos := st'.m.rc.pos;
            pos <= end && OnFeed(p, a', Feed(Rebased(st'), [], false), base, data, mark, rest[pos..], end - pos)
    ensures a.w <= a'.w <= data
  {
    hide Settled, Stage, Holds, MarkRead;
    if st'.remainLen == MATCH_SPEC_LEN_START {
      MarkReadMoved(st', data, rest, end);
    } else {
      StageMoved(p, a', st', data, mark, rest, end);
      StageHeld(p, a', st', data, mark, rest, end);
    }
  }

  /** A call on a stream, from any moment of it and with any piece of the input. */
  lemma {:induction false} FeedStage(p: Props, a: Moment, f: Feed, base: nat, data: seq<Byte>, mark: bool,
                                     rest: seq<Byte>, end: nat, src: seq<Byte>, dicLimit: nat, finishEnd: bool)
    returns (a': Moment)
    requires OnFeed(p, a, f, base, data, mark, rest, end) && FeedReady(p, f, base, dicLimit)
    requires f.temp + src <= rest && InRoom(a, data, mark, dicLimit - f.st.dicPos)
    ensures Served(p, a, f, a', Feeding(p, f, base, src, dicLimit, finishEnd), base, data, mark, rest, end, src,
                   dicLimit - f.st.dicPos, finishEnd)
    decreases dicLimit - f.st.dicPos, f.st.remainLen != MATCH_SPEC_LEN_START, f.flush
  {
    hide OneFeed, OnFeed, Served, OneTurn, Turned, View, FeedReady, Reported;
    OneFeedOk(p, f, base, src, dicLimit, finishEnd);
    var turn := OneFeed(p, f, base, src, dicLimit, finishEnd);
    if f.st.remainLen == MATCH_SPEC_LEN_START {
      a' := a;
      EndFeed(p, a, f, base, data, mark, rest, end, src, dicLimit, finishEnd);
    } else {
      a' := TurnFeed(p, a, f, base, data, mark, rest, end, src, dicLimit, finishEnd);
      if turn.FGo? {
        var a1, d := a', |f.temp| + turn.used;
        PartAfter(f, src, rest, turn.used);
        a' := FeedStage(p, a1, turn.f, base, data, mark, rest[d..], end - d, src[turn.used..], dicLimit, finishEnd);
        ServedOn(p, a, f, a1, turn.f, turn.used, a', Feeding(p, turn.f, base, src[turn.used..], dicLimit, finishEnd), base,
                 data, mark, rest, end, src, dicLimit, finishEnd);
      }
    }
  }

  lemma {:induction false} PartAfter(f: Feed, src: seq<Byte>, rest: seq<Byte>, used: nat)
    requires f.temp + src <= rest && used <= |src|
    ensures src[used..] <= rest[|f.temp| + used..]
  {
    assert rest[|f.temp| + used..][..|src| - used] == src[used..];
  }

  /** What one turn achieves before the end mark is read. */
  ghost predicate TurnServed(p: Props, a: Moment, f: Feed, a': Moment, turn: FeedTurn, base: nat, data: seq<Byte>,
                             mark: bool, rest: seq<Byte>, end: nat, src: seq<Byte>, dicLimit: nat, finishEnd: bool)
  {
    match turn
    case FStop(r) => Served(p, a, f, a', r, base, data, mark, rest, end, src, dicLimit - f.st.dicPos, finishEnd)
    case FGo(f', used) =>
      var d := |f.temp| + used;
      && used <= |src| && d <= end <= |rest| && f'.temp == [] && |f'.st.dic| == |f.st.dic|
      && OnFeed(p, a', f', base, data, mark, rest[d..], end - d)
      && a.w <= a'.w <= data && |a'.w| - |a.w| == f'.st.dicPos - f.st.dicPos && f'.st.dicPos <= dicLimit
      && (f'.st.remainLen == MATCH_SPEC_LEN_START ==>
            mark && a'.w == data
            && (f'.st.dicPos < dicLimit || (f'.st.dicPos == f.st.dicPos && finishEnd)))
  }

  lemma {:induction false} TurnFeed(p: Props, a: Moment, f: Feed, base: nat, data: seq<Byte>, mark: bool,
                                    rest: seq<Byte>, end: nat, src: seq<Byte>, dicLimit: nat, finishEnd: bool)
    returns (a': Moment)
    requires OnFeed(p, a, f, base, data, mark, rest, end) && FeedReady(p, f, base, dicLimit)
    requires f.temp + src <= rest && InRoom(a, data, mark, dicLimit - f.st.dicPos)
    requires f.st.remainLen != MATCH_SPEC_LEN_START
    ensures TurnServed(p, a, f, a', OneFeed(p, f, base, src, dicLimit, finishEnd), base, data, mark, rest, end, src,
                       dicLimit, finishEnd)
  {
    hide OnFeed, Served, OneTurn, Turned, View, FeedReady, Reported;
    OneFeedOk(p, f, base, src, dicLimit, finishEnd);
    if f.flush {
      a' := a;
      StartServed(p, a, f, base, data, mark, rest, end, src, dicLimit, finishEnd);
    } else {
      a' := ProperTurn(p, a, f, base, data, mark, rest, end, src, dicLimit, finishEnd);
    }
  }

  lemma {:induction false} StartServed(p: Props, a: Moment, f: Feed, base: nat, data: seq<Byte>, mark: bool,
                                       rest: seq<Byte>, end: nat, src: seq<Byte>, dicLimit: nat, finishEnd: bool)
    requires OnFeed(p, a, f, base, data, mark, rest, end) && FeedReady(p, f, base, dicLimit) && f.flush
    requires f.temp + src <= rest
    ensures TurnServed(p, a, f, a, OneFeed(p, f, base, src, dicLimit, finishEnd), base, data, mark, rest, end, src,
                       dicLimit, finishEnd)
  {
    hide OneFeed, FeedOk, Stage, Holds;
    StartFeed(p, a, f, base, data, mark, rest, end, src, dicLimit, finishEnd);
    StageHeld(p, a, f.st.(m := f.st.m.(rc := InitReader(rest))), data, mark, rest, end);
    assert rest[0..] == rest;
  }

  lemma {:induction false} ProperTurn(p: Props, a: Moment, f: Feed, base: nat, data: seq<Byte>, mark: bool,
                                      rest: seq<Byte>, end: nat, src: seq<Byte>, dicLimit: nat, finishEnd: bool)
    returns (a': Moment)
    requires OnFeed(p, a, f, base, data, mark, rest, end) && FeedReady(p, f, base, dicLimit)
    requires f.temp + src <= rest && InRoom(a, data, mark, dicLimit - f.st.dicPos)
    requires f.st.remainLen != MATCH_SPEC_LEN_START && !f.flush
    ensures TurnServed(p, a, f, a', OneFeed(p, f, base, src, dicLimit, finishEnd), base, data, mark, rest, end, src,
                       dicLimit, finishEnd)
  {
    hide Served, OneTurn, View, Reported, Stage, Settled, TurnPacketFits, Holds, MarkRead, TurnFits;
    var v, single := View(f, src), f.temp != [];
    ViewReady(p, f, base, src, dicLimit);
    ViewIs(f, src);
    ViewPart(f, src, rest);
    OneTurnOk(p, f.st, base, v, dicLimit, finishEnd, single);
    ReadsMore(p, f, base, src, dicLimit, finishEnd);
    OneFeedOk(p, f, base, src, dicLimit, finishEnd);
    StageHeld(p, a, f.st, data, mark, rest, end);
    var turn := OneTurn(p, f.st, base, v, dicLimit, finishEnd, single);
    if f.st.dicPos == dicLimit && !(Missing(a, data) == 0 && mark && finishEnd) {
      a' := a;
      AtLimit(p, a, f.st, base, data, mark, v, rest, end, finishEnd, single);
      StopFeed(p, a, f, base, data, mark, rest, end, src, dicLimit, finishEnd, turn.result);
    } else {
      a' := MidTurn(p, a, f.st, base, data, mark, v, rest, end, dicLimit, finishEnd, single);
      if turn.Go? {
        GoFeed(p, a, f, a', turn.st, base, data, mark, rest, end, dicLimit);
      } else {
        a' := a;
        StopFeed(p, a, f, base, data, mark, rest, end, src, dicLimit, finishEnd, turn.result);
      }
    }
  }

  /** What the rest of a call achieves, the call achieves. */
  lemma {:induction false} ServedOn(p: Props, a: Moment, f: Feed, a1: Moment, f1: Feed, used: nat, a': Moment, r: Fed,
                                    base: nat, data: seq<Byte>, mark: bool, rest: seq<Byte>, end: nat, src: seq<Byte>,
                                    dicLimit: nat, finishEnd: bool)
    requires TurnServed(p, a, f, a1, FGo(f1, used), base, data, mark, rest, end, src, dicLimit, finishEnd)
    requires f.st.remainLen != MATCH_SPEC_LEN_START && f.st.dicPos <= dicLimit
    requires Served(p, a1, f1, a', r, base, data, mark, rest[|f.temp| + used..], end - (|f.temp| + used), src[used..],
                    dicLimit - f1.st.dicPos, finishEnd)
    ensures Served(p, a, f, a', r.(used := used + r.used), base, data, mark, rest, end, src, dicLimit - f.st.dicPos,
                   finishEnd)
  {
    hide OnFeed, Holds;
    var d := |f.temp| + used;
    var d1 := Decoded(f1, r);
    assert rest[d..][d1..] == rest[d + d1..];
  }

  /** A whole call on a stream. */
  lemma {:induction false} CallStage(p: Props, a: Moment, f: Feed, base: nat, data: seq<Byte>, mark: bool,
                                     rest: seq<Byte>, end: nat, src: seq<Byte>, dicLimit: nat, finishEnd: bool)
    returns (a': Moment)
    requires OnFeed(p, a, f, base, data, mark, rest, end) && MayCall(p, f, base, dicLimit)
    requires f.temp + src <= rest && InRoom(a, data, mark, dicLimit - f.st.dicPos)
    ensures Served(p, a, f, a', Call(p, f, base, src, dicLimit, finishEnd), base, data, mark, rest, end, src,
                   dicLimit - f.st.dicPos, finishEnd)
  {
    hide Feeding, OnFeed, Served, FeedReady, FeedOk;
    ResumedReady(p, f, base, dicLimit);
    var a1 := ResumedStage(p, a, f, base, data, mark, rest, end, dicLimit);
    var f1 := Resumed(p, f, dicLimit);
    a' := FeedStage(p, a1, f1, base, data, mark, rest, end, src, dicLimit, finishEnd);
    ResumedServed(p, a, f, a1, f1, a', Feeding(p, f1, base, src, dicLimit, finishEnd), base, data, mark, rest, end, src,
                  dicLimit, finishEnd);
  }

  lemma {:induction false} ResumedStage(p: Props, a: Moment, f: Feed, base: nat, data: seq<Byte>, mark: bool,
                                        rest: seq<Byte>, end: nat, dicLimit: nat)
    returns (a1: Moment)
    requires OnFeed(p, a, f, base, data, mark, rest, end) && MayCall(p, f, base, dicLimit)
    ensures f.st.dicPos <= dicLimit
    ensures var f1 := Resumed(p, f, dicLimit);
            && OnFeed(p, a1, f1, base, data, mark, rest, end) && f1.temp == f.temp && f1.st.dicPos <= dicLimit
            && f1.st.dicPos - f.st.dicPos == |a1.w| - |a.w| >= 0 && |f1.st.dic| == |f.st.dic| && a.w <= a1.w
            && (f1.st.remainLen == MATCH_SPEC_LEN_START <==> f.st.remainLen == MATCH_SPEC_LEN_START)
            && (f.st.remainLen == MATCH_SPEC_LEN_START ==> f1 == f)
  {
    hide Settled, Stage, MarkRead, Holds, FeedReady, CopyRun;
    ResumedReady(p, f, base, dicLimit);
    if f.flush || f.st.remainLen == MATCH_SPEC_LEN_START {
      a1 := a;
    } else {
      a1 := WriteRemStage(p, a, f.st, base, data, mark, rest, end, dicLimit);
      StageHeld(p, a, f.st, data, mark, rest, end);
      StageHeld(p, a1, WriteRem(p, f.st, dicLimit), data, mark, rest, end);
      FeedReadyOk(p, Resumed(p, f, dicLimit), base, dicLimit);
    }
  }

  lemma {:induction false} FeedReadyOk(p: Props, f: Feed, base: nat, dicLimit: nat)
    requires FeedReady(p, f, base, dicLimit)
    ensures FeedOk(p, f, base) && f.st.dicPos <= dicLimit
  {
    hide FeedOk;
  }

  lemma {:induction false} ResumedServed(p: Props, a: Moment, f: Feed, a1: Moment, f1: Feed, a': Moment, r: Fed, base: nat,
                                         data: seq<Byte>, mark: bool, rest: seq<Byte>, end: nat, src: seq<Byte>,
                                         dicLimit: nat, finishEnd: bool)
    requires f1.temp == f.temp && f1.st.dicPos - f.st.dicPos == |a1.w| - |a.w| && |f1.st.dic| == |f.st.dic|
    requires a.w <= a1.w && (f1.st.remainLen == MATCH_SPEC_LEN_START <==> f.st.remainLen == MATCH_SPEC_LEN_START)
    requires f.st.remainLen == MATCH_SPEC_LEN_START ==> f1.st.dicPos == f.st.dicPos
    requires Served(p, a1, f1, a', r, base, data, mark, rest, end, src, dicLimit - f1.st.dicPos, finishEnd)
    ensures Served(p, a, f, a', r, base, data, mark, rest, end, src, dicLimit - f.st.dicPos, finishEnd)
  {
    hide OnFeed, Holds;
  }

  // ---------------------------------------------------------------- from the beginning

  /** LzmaDec_Init */
  function Fresh(p: Props, dic: seq<Byte>): Feed
  {
    Feed(FreshState(p, dic), [], true)
  }

  lemma {:induction false} FreshOk(p: Props, dic: seq<Byte>, dicLimit: nat)
    requires PropsOk(p) && dicLimit <= |dic|
    ensures MayCall(p, Fresh(p, dic), 0, dicLimit) && FeedReady(p, Fresh(p, dic), 0, dicLimit)
  {
    hide NumProbs, Coders, TurnPacketFits;
    AddMod(0, 0);
  }

  lemma {:induction false} FreshOnFeed(p: Props, pkts: seq<Packet>, data: seq<Byte>, mark: bool, out: seq<Byte>,
                                       extra: seq<Byte>, dic: seq<Byte>)
    requires Stream(p, pkts, data, mark, out)
    ensures PropsOk(p)
    ensures OnFeed(p, Moment(CONTROL_INIT, [], map[], pkts), Fresh(p, dic), 0, data, mark, out + extra, |out|)
  {
    hide Stage, Stream, FeedOk;
    FreshStage(p, pkts, data, mark, out, extra, dic);
    StreamLength(p, pkts, data, mark, out);
    FreshOk(p, dic, 0);
  }

  /**
   * LZMA round trip. Take any data and any legal parse of it; let out be the bytes the range encoder leaves for its
   * symbols, with or without an end mark. Then one call of the decoder on out, whatever follows it in the input, up to
   * any limit of its buffer and whatever the buffer held, writes exactly the data as far as the limit allows, reports
   * the end of the stream accordingly, and has then consumed exactly the bytes of out. Only an unmarked stream has to
   * be asked for no more than the data, because nothing in it says where it ends.
   */
  lemma {:induction false} StreamRoundTrip(p: Props, pkts: seq<Packet>, data: seq<Byte>, mark: bool, out: seq<Byte>,
                                           extra: seq<Byte>, dic: seq<Byte>, dicLimit: nat, finishEnd: bool)
    requires Stream(p, pkts, data, mark, out) && dicLimit <= |dic| && (mark || dicLimit <= |data|)
    ensures MayCall(p, Fresh(p, dic), 0, dicLimit)
    ensures var r := Call(p, Fresh(p, dic), 0, out + extra, dicLimit, finishEnd);
            var n := Least(dicLimit, |data|);
            && r.f.st.dicPos == n && n <= |r.f.st.dic| && r.f.st.dic[..n] == data[..n]
            && Reported(r.ok, r.status, dicLimit, |data|, mark, finishEnd)
            && (AllRead(dicLimit, |data|, mark, finishEnd) ==> r.used == |out|)
  {
    hide OnFeed, Call, MayCall, Stream, Reported;
    FreshOnFeed(p, pkts, data, mark, out, extra, dic);
    FreshOk(p, dic, dicLimit);
    var a := Moment(CONTROL_INIT, [], map[], pkts);
    assert [] + (out + extra) == out + extra;
    var a' := CallStage(p, a, Fresh(p, dic), 0, data, mark, out + extra, |out|, out + extra, dicLimit, finishEnd);
    var r := Call(p, Fresh(p, dic), 0, out + extra, dicLimit, finishEnd);
    HeldPiece(r.f.st.dic, 0, r.f.st.dicPos, a'.w);
    assert a'.w == data[..r.f.st.dicPos];
    if AllRead(dicLimit, |data|, mark, finishEnd) {
      var d := Decoded(Fresh(p, dic), r);
      assert r.ok by { AllReadOk(r.ok, r.status, dicLimit, |data|, mark, finishEnd); }
      NothingKept(p, a', r.f, 0, data, mark, (out + extra)[d..], |out| - d);
    }
  }

  lemma {:induction false} AllReadOk(ok: bool, status: Status, room: int, missing: int, mark: bool, finishEnd: bool)
    requires Reported(ok, status, room, missing, mark, finishEnd) && AllRead(room, missing, mark, finishEnd)
    ensures ok
  {
  }

  /** Behind the stream nothing is kept. */
  lemma {:induction false} NothingKept(p: Props, a: Moment, f: Feed, base: nat, data: seq<Byte>, mark: bool,
                                       rest: seq<Byte>, end: nat)
    requires OnFeed(p, a, f, base, data, mark, rest, end) && end == 0
    ensures f.temp == []
  {
    hide FeedOk, Stage, MarkRead;
  }
}
