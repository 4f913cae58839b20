/**
 * LzmaDec_DecodeToBuf: decoding through a circular dictionary into buffers of the caller, and the round trip of streams
 * of any length through a dictionary buffer that may be much smaller, with input and output in pieces.
 */
module LzmaBuffer {
  import opened Bits
  import opened Bytes
  import opened RangeSpec
  import opened RangeEncoder
  import opened RangeDecoder
  import opened LzmaContexts
  import opened LzmaPackets
  import opened LzmaRun
  import opened LzmaStream
  import opened LzmaBounds
  import opened LzmaLoop
  import opened LzmaRoundTrip
  import opened LzmaFeed

  /** What a call may start from. The buffer is at least as large as the dictionary the stream was made for. */
  ghost predicate MayFill(p: Props, f: Feed, base: nat)
  {
    FeedOk(p, f, base) && p.dicSize <= |f.st.dic|
  }

  /** At the end of the buffer writing goes on at its start. */
  function Wrapped(f: Feed): Feed
  {
    if f.st.dicPos == |f.st.dic| then f.(st := f.st.(dicPos := 0)) else f
  }

  /** The output that lies before the start of the buffer after that. */
  function WrappedBase(f: Feed, base: nat): nat
  {
    if f.st.dicPos == |f.st.dic| then base + |f.st.dic| else base
  }

  /** The next packet does not depend on it. */
  lemma {:induction false} WrappedPacket(p: Props, st: DecState, total: nat, s: seq<Byte>)
    requires DecOk(p, st, total) && st.dicPos == |st.dic| >= p.dicSize
    ensures DecOk(p, st.(dicPos := 0), total) && NextRun(p, st.(dicPos := 0), total, s) == NextRun(p, st, total, s)
  {
    hide Run, MachineOk, Word, EnvOk;
    DecEnvOk(p, st, total);
    DecEnvOk(p, st.(dicPos := 0), total);
    assert DecEnv(p, st.(dicPos := 0)) == DecEnv(p, st);
  }

  lemma {:induction false} WrappedMayFill(p: Props, f: Feed, base: nat)
    requires MayFill(p, f, base)
    ensures MayFill(p, Wrapped(f), WrappedBase(f, base)) && Wrapped(f).st.dicPos < |f.st.dic|
    ensures WrappedBase(f, base) + Wrapped(f).st.dicPos == base + f.st.dicPos
    ensures |Wrapped(f).st.dic| == |f.st.dic|
  {
    hide MachineOk, Word, NextRun, Normalize;
    if f.st.dicPos == |f.st.dic| { WrappedPacket(p, f.st, base + f.st.dicPos, f.temp); }
  }

  /** What one call puts into the caller's buffer, and how it leaves the decoder. */
  datatype Filled = Filled(ok: bool, status: Status, f: Feed, base: nat, used: nat, out: seq<Byte>)

  /** The limit of the inner call: what is asked for, or the end of the buffer. */
  function InnerLimit(st: DecState, outSize: nat): nat
  {
    if outSize > |st.dic| - st.dicPos then |st.dic| else st.dicPos + outSize
  }

  /** Only the inner call that may end the output asks for the end of the stream. */
  function InnerFinish(st: DecState, outSize: nat, finishEnd: bool): bool
  {
    outSize <= |st.dic| - st.dicPos && finishEnd
  }

  /** The inner call. */
  ghost function Inner(p: Props, f: Feed, base: nat, src: seq<Byte>, outSize: nat, finishEnd: bool): Fed
    requires MayFill(p, f, base)
  {
    Call(p, f, base, src, InnerLimit(f.st, outSize), InnerFinish(f.st, outSize, finishEnd))
  }

  lemma {:induction false} FillCall(p: Props, f: Feed, base: nat, outSize: nat)
    requires MayFill(p, f, base)
    ensures MayCall(p, f, base, InnerLimit(f.st, outSize))
  {
    hide TurnPacketFits;
  }

  lemma {:induction false} InnerOk(p: Props, f: Feed, base: nat, src: seq<Byte>, outSize: nat, finishEnd: bool)
    requires MayFill(p, f, base)
    ensures var r := Inner(p, f, base, src, outSize, finishEnd);
            && r.used <= |src| && |r.f.st.dic| == |f.st.dic| && (r.ok ==> MayFill(p, r.f, base))
            && f.st.dicPos <= r.f.st.dicPos <= InnerLimit(f.st, outSize) <= |r.f.st.dic|
  {
    hide Call, FeedOk;
    FillCall(p, f, base, outSize);
    CallOk(p, f, base, src, InnerLimit(f.st, outSize), InnerFinish(f.st, outSize, finishEnd));
  }

  /** The loop of LzmaDec_DecodeToBuf. */
  ghost function ToBuf(p: Props, f: Feed, base: nat, src: seq<Byte>, outSize: nat, finishEnd: bool): Filled
    requires MayFill(p, f, base)
    decreases outSize, f
  {
    hide Inner, MayFill;
    WrappedMayFill(p, f, base);
    var f0, base0 := Wrapped(f), WrappedBase(f, base);
    InnerOk(p, f0, base0, src, outSize, finishEnd);
    var r := Inner(p, f0, base0, src, outSize, finishEnd);
    var piece := r.f.st.dic[f0.st.dicPos..r.f.st.dicPos];
    if !r.ok || piece == [] || |piece| == outSize then Filled(r.ok, r.status, r.f, base0, r.used, piece)
    else Onto(r.used, piece, ToBuf(p, r.f, base0, src[r.used..], outSize - |piece|, finishEnd))
  }

  /** Output and consumed input that come behind what is there already. */
  function Onto(used: nat, out: seq<Byte>, g: Filled): Filled
  {
    g.(used := used + g.used, out := out + g.out)
  }

  /** On any input the caller's buffer does not overflow and a further call may follow. */
  lemma {:induction false} ToBufOk(p: Props, f: Feed, base: nat, src: seq<Byte>, outSize: nat, finishEnd: bool)
    requires MayFill(p, f, base)
    ensures var g := ToBuf(p, f, base, src, outSize, finishEnd);
            && |g.out| <= outSize && g.used <= |src| && |g.f.st.dic| == |f.st.dic|
            && g.base + g.f.st.dicPos == base + f.st.dicPos + |g.out| && (g.ok ==> MayFill(p, g.f, g.base))
    decreases outSize
  {
    hide Inner, MayFill;
    WrappedMayFill(p, f, base);
    var f0, base0 := Wrapped(f), WrappedBase(f, base);
    InnerOk(p, f0, base0, src, outSize, finishEnd);
    var r := Inner(p, f0, base0, src, outSize, finishEnd);
    var piece := r.f.st.dic[f0.st.dicPos..r.f.st.dicPos];
    if r.ok && piece != [] && |piece| != outSize {
      ToBufOk(p, r.f, base0, src[r.used..], outSize - |piece|, finishEnd);
    }
  }

  // ---------------------------------------------------------------- on a well-formed stream

  /** At some place of a stream, with a buffer that holds all a packet can refer to. */
  ghost predicate OnStream(p: Props, a: Moment, f: Feed, base: nat, data: seq<Byte>, mark: bool, rest: seq<Byte>,
                           end: nat)
  {
    MayFill(p, f, base) && OnFeed(p, a, f, base, data, mark, rest, end)
  }

  lemma {:induction false} OnStreamParts(p: Props, a: Moment, f: Feed, base: nat, data: seq<Byte>, mark: bool,
                                         rest: seq<Byte>, end: nat)
    requires OnStream(p, a, f, base, data, mark, rest, end)
    ensures MayFill(p, f, base) && a.w <= data && f.temp <= rest && (f.temp != [] ==> |f.temp| < end)
    ensures f.st.remainLen == MATCH_SPEC_LEN_START ==> Missing(a, data) == 0 && mark
  {
    hide Settled, TurnPacketFits, Stage, MarkRead;
  }

  lemma {:induction false} WrappedHolds(st: DecState, w: seq<Byte>)
    requires Holds(st.dic, st.dicPos, w) && st.dicPos == |st.dic|
    ensures Holds(st.dic, 0, w)
  {
    forall j | 1 <= j <= |w| && j <= |st.dic|
      ensures Behind(st.dic, 0, j) == w[|w| - j]
    {
      assert Behind(st.dic, st.dicPos, j) == w[|w| - j];
    }
  }

  lemma {:induction false} WrappedStage(p: Props, a: Moment, st: DecState, data: seq<Byte>, mark: bool, s: seq<Byte>,
                                        end: nat)
    requires Stage(p, a, st, data, mark, s, end) && st.dicPos == |st.dic| >= p.dicSize
    ensures Stage(p, a, st.(dicPos := 0), data, mark, s, end)
  {
    hide Holds, Follows, Parses, StreamSyms, EncoderWindow, MachineOk, Word;
    WrappedHolds(st, a.w);
  }

  /** Going back to the start of the buffer loses nothing a later packet could refer to. */
  lemma {:induction false} WrappedOnStream(p: Props, a: Moment, f: Feed, base: nat, data: seq<Byte>, mark: bool,
                                           rest: seq<Byte>, end: nat)
    requires OnStream(p, a, f, base, data, mark, rest, end)
    ensures OnStream(p, a, Wrapped(f), WrappedBase(f, base), data, mark, rest, end)
  {
    hide Holds, Stage, FeedOk, Normalize;
    WrappedMayFill(p, f, base);
    if f.st.dicPos == |f.st.dic| {
      if f.flush {
        WrappedStage(p, a, f.st.(m := f.st.m.(rc := InitReader(rest))), data, mark, rest, end);
      } else if f.st.remainLen == MATCH_SPEC_LEN_START {
        WrappedHolds(f.st, data);
      } else {
        WrappedStage(p, a, f.st, data, mark, rest, end);
      }
    }
  }

  /** What an inner call achieves: the next piece of the data lies in front of the buffer position. */
  ghost predicate Continued(p: Props, a: Moment, f: Feed, a': Moment, r: Fed, base: nat, data: seq<Byte>, mark: bool,
                            rest: seq<Byte>, end: nat, src: seq<Byte>, room: int, finishEnd: bool)
  {
    && Served(p, a, f, a', r, base, data, mark, rest, end, src, room, finishEnd)
    && f.st.dicPos <= r.f.st.dicPos <= |r.f.st.dic| && r.f.st.dic[f.st.dicPos..r.f.st.dicPos] == data[|a.w|..|a'.w|]
    && (r.ok ==> MayFill(p, r.f, base)) && r.used <= |src|
  }

  lemma {:induction false} ServedPiece(p: Props, a: Moment, f: Feed, a': Moment, r: Fed, base: nat, data: seq<Byte>,
                                       mark: bool, rest: seq<Byte>, end: nat, src: seq<Byte>, room: int, finishEnd: bool)
    requires Served(p, a, f, a', r, base, data, mark, rest, end, src, room, finishEnd)
    requires f.st.dicPos <= r.f.st.dicPos <= |r.f.st.dic|
    ensures a.w <= a'.w <= data && r.f.st.dic[f.st.dicPos..r.f.st.dicPos] == data[|a.w|..|a'.w|]
  {
    hide OnFeed, Holds, Answered;
    HeldPiece(r.f.st.dic, f.st.dicPos, r.f.st.dicPos, a'.w);
    assert a'.w[|a.w|..] == data[|a.w|..|a'.w|];
  }

  lemma {:induction false} InnerOnStream(p: Props, a: Moment, f: Feed, base: nat, data: seq<Byte>, mark: bool,
                                         rest: seq<Byte>, end: nat, src: seq<Byte>, outSize: nat, finishEnd: bool)
    returns (a': Moment)
    requires OnStream(p, a, f, base, data, mark, rest, end) && f.temp + src <= rest && InRoom(a, data, mark, outSize)
    ensures MayFill(p, f, base)
    ensures Continued(p, a, f, a', Inner(p, f, base, src, outSize, finishEnd), base, data, mark, rest, end, src,
                      InnerLimit(f.st, outSize) - f.st.dicPos, InnerFinish(f.st, outSize, finishEnd))
  {
    hide Call, OnFeed, MayFill, Served;
    InnerOk(p, f, base, src, outSize, finishEnd);
    FillCall(p, f, base, outSize);
    a' := CallStage(p, a, f, base, data, mark, rest, end, src, InnerLimit(f.st, outSize),
                    InnerFinish(f.st, outSize, finishEnd));
    ServedPiece(p, a, f, a', Inner(p, f, base, src, outSize, finishEnd), base, data, mark, rest, end, src,
                InnerLimit(f.st, outSize) - f.st.dicPos, InnerFinish(f.st, outSize, finishEnd));
  }

  /** What a call with room for outSize bytes achieves. */
  ghost predicate Poured(p: Props, a: Moment, f: Feed, a': Moment, g: Filled, data: seq<Byte>, mark: bool,
                         rest: seq<Byte>, end: nat, src: seq<Byte>, outSize: nat, finishEnd: bool)
  {
    var d := |f.temp| + g.used - |g.f.temp|;
    var missing := Missing(a, data);
    && 0 <= d <= end <= |rest| && g.used <= |src|
    && (g.ok ==> OnStream(p, a', g.f, g.base, data, mark, rest[d..], end - d))
    && a.w <= a'.w <= data && g.out == data[|a.w|..|a'.w|]
    && if g.status == NeedsMoreInput
       then g.ok && g.used == |src| && |f.temp| + |src| < end && |g.out| <= Least(outSize, missing)
       else
         && |g.out| == Least(outSize, missing)
         && Answered(f.st.remainLen == MATCH_SPEC_LEN_START, g.ok, g.status, outSize, missing, mark, finishEnd)
         && (f.st.remainLen == MATCH_SPEC_LEN_START || AllRead(outSize, missing, mark, finishEnd) ==> d == end)
  }

  /**
   * LzmaDec_DecodeToBuf on a stream, from any moment of it and with any piece of the input: the caller's buffer gets the
   * next bytes of the data, as many as fit, however often the dictionary buffer wraps on the way, unless the input runs
   * out; and a further call may go on from there.
   */
  lemma {:induction false} ToBufOnStream(p: Props, a: Moment, f: Feed, base: nat, data: seq<Byte>, mark: bool,
                                         rest: seq<Byte>, end: nat, src: seq<Byte>, outSize: nat, finishEnd: bool)
    returns (a': Moment)
    requires OnStream(p, a, f, base, data, mark, rest, end) && f.temp + src <= rest && InRoom(a, data, mark, outSize)
    ensures MayFill(p, f, base)
    ensures Poured(p, a, f, a', ToBuf(p, f, base, src, outSize, finishEnd), data, mark, rest, end, src, outSize, finishEnd)
    decreases outSize
  {
    hide Inner, MayFill, OnStream, Continued, Poured;
    WrappedOnStream(p, a, f, base, data, mark, rest, end);
    OnStreamParts(p, a, f, base, data, mark, rest, end);
    WrappedMayFill(p, f, base);
    var f0, base0 := Wrapped(f), WrappedBase(f, base);
    InnerOk(p, f0, base0, src, outSize, finishEnd);
    var a1 := InnerOnStream(p, a, f0, base0, data, mark, rest, end, src, outSize, finishEnd);
    var r := Inner(p, f0, base0, src, outSize, finishEnd);
    var n := r.f.st.dicPos - f0.st.dicPos;
    if r.ok && 0 < n != outSize {
      var d := Going(p, a, f0, a1, r, base0, data, mark, rest, end, src, outSize, finishEnd);
      a' := ToBufOnStream(p, a1, r.f, base0, data, mark, rest[d..], end - d, src[r.used..], outSize - n, finishEnd);
      PouredLater(p, a, f0, a1, r, a', ToBuf(p, r.f, base0, src[r.used..], outSize - n, finishEnd), base0, data, mark, rest,
                  end, src, outSize, finishEnd);
    } else {
      a' := a1;
      PouredNow(p, a, f0, a1, r, base0, data, mark, rest, end, src, outSize, finishEnd);
    }
    PouredFrom(p, a, f, a', ToBuf(p, f, base, src, outSize, finishEnd), data, mark, rest, end, src, outSize, finishEnd);
  }

  lemma {:induction false} PouredFrom(p: Props, a: Moment, f: Feed, a': Moment, g: Filled, data: seq<Byte>, mark: bool,
                                      rest: seq<Byte>, end: nat, src: seq<Byte>, outSize: nat, finishEnd: bool)
    requires Poured(p, a, Wrapped(f), a', g, data, mark, rest, end, src, outSize, finishEnd)
    ensures Poured(p, a, f, a', g, data, mark, rest, end, src, outSize, finishEnd)
  {
    hide OnStream, Answered;
  }

  /** Where the next inner call starts. */
  lemma {:induction false} Going(p: Props, a: Moment, f: Feed, a': Moment, r: Fed, base: nat, data: seq<Byte>, mark: bool,
                                 rest: seq<Byte>, end: nat, src: seq<Byte>, outSize: nat, finishEnd: bool)
    returns (d: nat)
    requires InRoom(a, data, mark, outSize) && r.ok && f.temp + src <= rest
    requires Continued(p, a, f, a', r, base, data, mark, rest, end, src, InnerLimit(f.st, outSize) - f.st.dicPos,
                       InnerFinish(f.st, outSize, finishEnd))
    ensures d == Decoded(f, r) <= end <= |rest| && OnStream(p, a', r.f, base, data, mark, rest[d..], end - d)
    ensures InRoom(a', data, mark, outSize - (r.f.st.dicPos - f.st.dicPos))
    ensures r.used <= |src| && r.f.temp + src[r.used..] <= rest[d..]
  {
    hide OnFeed, Answered, MayFill, Holds;
    d := Decoded(f, r);
    KeptOnFeed(p, a', r.f, base, data, mark, rest[d..], end - d);
    StillPart(f.temp, src, r.f.temp, r.used, rest, d);
  }

  lemma {:induction false} KeptOnFeed(p: Props, a: Moment, f: Feed, base: nat, data: seq<Byte>, mark: bool,
                                      rest: seq<Byte>, end: nat)
    requires OnFeed(p, a, f, base, data, mark, rest, end)
    ensures f.temp <= rest && a.w <= data
    ensures f.st.remainLen == MATCH_SPEC_LEN_START ==> Missing(a, data) == 0 && mark
  {
    hide Settled, TurnPacketFits, Stage, MarkRead;
  }

  /** What is kept and what is left of a piece of input are again a part of what is left of all. */
  lemma {:induction false} StillPart(temp: seq<Byte>, src: seq<Byte>, temp': seq<Byte>, used: nat, rest: seq<Byte>, d: nat)
    requires temp + src <= rest && used <= |src| && d == |temp| + used - |temp'| && d <= |rest| && temp' <= rest[d..]
    ensures temp' + src[used..] <= rest[d..]
  {
    var x, y := temp' + src[used..], rest[d..];
    forall i | 0 <= i < |x|
      ensures i < |y| && x[i] == y[i]
    {
      if i >= |temp'| {
        assert (temp + src)[|temp| + used + (i - |temp'|)] == rest[d + i];
      }
    }
  }

  /** The inner call that ends the output. */
  lemma {:induction false} PouredNow(p: Props, a: Moment, f: Feed, a': Moment, r: Fed, base: nat, data: seq<Byte>,
                                     mark: bool, rest: seq<Byte>, end: nat, src: seq<Byte>, outSize: nat, finishEnd: bool)
    requires OnStream(p, a, f, base, data, mark, rest, end) && InRoom(a, data, mark, outSize) && f.st.dicPos < |f.st.dic|
    requires Continued(p, a, f, a', r, base, data, mark, rest, end, src, InnerLimit(f.st, outSize) - f.st.dicPos,
                       InnerFinish(f.st, outSize, finishEnd))
    requires r.ok ==> f.st.dicPos == r.f.st.dicPos || r.f.st.dicPos - f.st.dicPos == outSize
    ensures f.st.dicPos <= r.f.st.dicPos <= |r.f.st.dic|
    ensures Poured(p, a, f, a', Filled(r.ok, r.status, r.f, base, r.used, r.f.st.dic[f.st.dicPos..r.f.st.dicPos]), data,
                   mark, rest, end, src, outSize, finishEnd)
  {
    hide OnFeed, Answered, MayFill, Holds;
    OnStreamParts(p, a, f, base, data, mark, rest, end);
    var room := InnerLimit(f.st, outSize) - f.st.dicPos;
    if r.status != NeedsMoreInput {
      AnsweredNow(f.st.remainLen == MATCH_SPEC_LEN_START, r.ok, r.status, r.f.st.dicPos - f.st.dicPos, outSize, room,
                  Missing(a, data), mark, finishEnd);
    }
  }

  lemma {:induction false} AnsweredNow(atEnd: bool, ok: bool, status: Status, n: nat, outSize: nat, room: int, missing: int,
                                       mark: bool, finishEnd: bool)
    requires Answered(atEnd, ok, status, room, missing, mark, room == outSize && finishEnd)
    requires n == Least(room, missing) && room <= outSize && (0 < outSize ==> 0 < room) && 0 <= missing
    requires ok ==> n == 0 || n == outSize
    requires (mark || outSize <= missing) && (atEnd ==> missing == 0)
    ensures n == Least(outSize, missing) && Answered(atEnd, ok, status, outSize, missing, mark, finishEnd)
    ensures !atEnd && AllRead(outSize, missing, mark, finishEnd) ==>
              AllRead(room, missing, mark, room == outSize && finishEnd)
  {
  }

  /** The inner call with more to follow. */
  lemma {:induction false} PouredLater(p: Props, a: Moment, f: Feed, a1: Moment, r: Fed, a': Moment, g: Filled, base: nat,
                                       data: seq<Byte>, mark: bool, rest: seq<Byte>, end: nat, src: seq<Byte>,
                                       outSize: nat, finishEnd: bool)
    requires OnStream(p, a, f, base, data, mark, rest, end) && r.ok && 0 < r.f.st.dicPos - f.st.dicPos < outSize
    requires Continued(p, a, f, a1, r, base, data, mark, rest, end, src, InnerLimit(f.st, outSize) - f.st.dicPos,
                       InnerFinish(f.st, outSize, finishEnd))
    requires 0 <= Decoded(f, r) <= end <= |rest| && r.used <= |src|
    requires Poured(p, a1, r.f, a', g, data, mark, rest[Decoded(f, r)..], end - Decoded(f, r), src[r.used..],
                    outSize - (r.f.st.dicPos - f.st.dicPos), finishEnd)
    ensures f.st.dicPos <= r.f.st.dicPos <= |r.f.st.dic|
    ensures Poured(p, a, f, a', Onto(r.used, r.f.st.dic[f.st.dicPos..r.f.st.dicPos], g), data, mark, rest, end, src,
                   outSize, finishEnd)
  {
    hide MayFill, OnFeed, Answered, Holds;
    var d, n := Decoded(f, r), r.f.st.dicPos - f.st.dicPos;
    OnStreamParts(p, a, f, base, data, mark, rest, end);
    KeptOnFeed(p, a1, r.f, base, data, mark, rest[d..], end - d);
    assert data[|a.w|..|a1.w|] + data[|a1.w|..|a'.w|] == data[|a.w|..|a'.w|];
    var d1 := |r.f.temp| + g.used - |g.f.temp|;
    assert rest[d..][d1..] == rest[d + d1..];
    if g.status != NeedsMoreInput {
      AnsweredLater(f.st.remainLen == MATCH_SPEC_LEN_START, r.f.st.remainLen == MATCH_SPEC_LEN_START, g.ok, g.status, n,
                    outSize, InnerLimit(f.st, outSize) - f.st.dicPos, Missing(a, data), mark, finishEnd);
    }
  }

  lemma {:induction false} AnsweredLater(atEnd: bool, endNow: bool, ok: bool, status: Status, n: nat, outSize: nat,
                                         room: int, missing: int, mark: bool, finishEnd: bool)
    requires Answered(endNow, ok, status, outSize - n, missing - n, mark, finishEnd)
    requires 0 < n < outSize && n <= missing && (atEnd ==> missing == 0) && room <= outSize
    requires endNow ==> mark && n == missing
    requires endNow && !atEnd ==> room > missing || (room == missing && room == outSize)
    ensures Answered(atEnd, ok, status, outSize, missing, mark, finishEnd)
    ensures AllRead(outSize, missing, mark, finishEnd) ==> endNow || AllRead(outSize - n, missing - n, mark, finishEnd)
  {
  }

  // ---------------------------------------------------------------- any sequence of calls

  /**
   * A call of the caller: how many bytes of the input are there by then, the size of the buffer, and whether the end of
   * the stream is expected in it.
   */
  datatype Ask = Ask(given: nat, size: nat, finishEnd: bool)

  /** The input that is there and not yet consumed. */
  function Given(s: seq<Byte>, at: nat, given: nat): seq<Byte>
  {
    if |s| <= at || given <= at then [] else if given < |s| then s[at..given] else s[at..]
  }

  function Total(asks: seq<Ask>): nat
  {
    if asks == [] then 0 else asks[0].size + Total(asks[1..])
  }

  /** The room of the calls made when the first n bytes of the input are there. */
  function Supplied(asks: seq<Ask>, n: int): nat
  {
    if asks == [] then 0 else (if n <= asks[0].given then asks[0].size else 0) + Supplied(asks[1..], n)
  }

  predicate EndExpected(asks: seq<Ask>)
  {
    asks != [] && (asks[0].finishEnd || EndExpected(asks[1..]))
  }

  /**
   * Of the data left these calls deliver a beginning: no more than they have room for, and at least as much as those
   * have room for that are made when the first whole bytes of the input are there. One fails only if it expects the end
   * where data are still missing.
   */
  predicate InOrder(g: Filled, left: seq<Byte>, asks: seq<Ask>, whole: int)
  {
    && g.out <= left && (!g.ok ==> |g.out| < |left| && EndExpected(asks))
    && (g.ok ==> Least(Supplied(asks, whole), |left|) <= |g.out| <= Least(Total(asks), |left|))
  }

  /** One call after the other, until one fails; at bytes of s have been consumed before. */
  ghost function Session(p: Props, f: Feed, base: nat, s: seq<Byte>, at: nat, asks: seq<Ask>): Filled
    requires MayFill(p, f, base)
    decreases |asks|
  {
    hide ToBuf, MayFill;
    if asks == [] then Filled(true, NotSpecified, f, base, 0, [])
    else
      var src := Given(s, at, asks[0].given);
      ToBufOk(p, f, base, src, asks[0].size, asks[0].finishEnd);
      var g := ToBuf(p, f, base, src, asks[0].size, asks[0].finishEnd);
      if !g.ok then g else Onto(g.used, g.out, Session(p, g.f, g.base, s, at + g.used, asks[1..]))
  }

  lemma {:induction false} GivenPart(temp: seq<Byte>, s: seq<Byte>, at: nat, given: nat, rest: seq<Byte>, end: nat)
    requires at <= |s| && rest == temp + s[at..] && end <= |rest| && (temp != [] ==> |temp| < end)
    ensures temp + Given(s, at, given) <= rest && |Given(s, at, given)| <= |s| - at
    ensures at - |temp| + end <= given ==> |temp| + |Given(s, at, given)| >= end
  {
    if at < given < |s| { assert s[at..given] == s[at..][..given - at]; }
  }

  lemma {:induction false} RestAfter(temp: seq<Byte>, s: seq<Byte>, at: nat, rest: seq<Byte>, temp': seq<Byte>, used: nat,
                                     d: nat)
    requires at <= |s| && rest == temp + s[at..] && used <= |s| - at
    requires d == |temp| + used - |temp'| && d <= |rest| && temp' <= rest[d..]
    ensures rest[d..] == temp' + s[at + used..]
  {
    assert rest[d..] == temp' + rest[d..][|temp'|..];
    assert rest[d..][|temp'|..] == rest[|temp| + used..] == s[at..][used..] == s[at + used..];
  }

  /**
   * Any sequence of calls on a stream, with input and output in any pieces: together they deliver the data in order,
   * no more than they have room for, and at least as much as the calls have room for that have all of the stream. One
   * fails only if it expects the end of the stream where data are still missing.
   */
  lemma {:induction false} SessionOnStream(p: Props, a: Moment, f: Feed, base: nat, data: seq<Byte>, mark: bool,
                                           s: seq<Byte>, at: nat, rest: seq<Byte>, end: nat, asks: seq<Ask>)
    requires at <= |s| && rest == f.temp + s[at..] && OnStream(p, a, f, base, data, mark, rest, end)
    requires InRoom(a, data, mark, Total(asks))
    ensures MayFill(p, f, base) && |a.w| <= |data|
    ensures InOrder(Session(p, f, base, s, at, asks), data[|a.w|..], asks, at - |f.temp| + end)
    decreases |asks|
  {
    hide ToBuf, MayFill, OnStream, Poured, Given, Supplied, Total, InOrder;
    OnStreamParts(p, a, f, base, data, mark, rest, end);
    if asks == [] {
      NoAsks(Session(p, f, base, s, at, asks), data[|a.w|..], at - |f.temp| + end);
    } else {
      var ask := asks[0];
      var src := Given(s, at, ask.given);
      TotalParts(asks);
      OnStreamEnd(p, a, f, base, data, mark, rest, end);
      GivenPart(f.temp, s, at, ask.given, rest, end);
      var a' := ToBufOnStream(p, a, f, base, data, mark, rest, end, src, ask.size, ask.finishEnd);
      var g := ToBuf(p, f, base, src, ask.size, ask.finishEnd);
      PouredParts(p, a, f, a', g, data, mark, rest, end, src, ask.size, ask.finishEnd);
      if g.ok {
        var d := |f.temp| + g.used - |g.f.temp|;
        OnStreamParts(p, a', g.f, g.base, data, mark, rest[d..], end - d);
        RestAfter(f.temp, s, at, rest, g.f.temp, g.used, d);
        SessionOnStream(p, a', g.f, g.base, data, mark, s, at + g.used, rest[d..], end - d, asks[1..]);
        assert data[|a.w|..] == g.out + data[|a'.w|..];
        MoreAsks(g, Session(p, g.f, g.base, s, at + g.used, asks[1..]), data[|a'.w|..], asks, at - |f.temp| + end);
      } else {
        LastAsk(g, data[|a.w|..], asks, at - |f.temp| + end);
      }
    }
  }

  lemma {:induction false} NoAsks(g: Filled, left: seq<Byte>, whole: int)
    requires g.ok && g.out == []
    ensures InOrder(g, left, [], whole)
  {
  }

  lemma {:induction false} LastAsk(g: Filled, left: seq<Byte>, asks: seq<Ask>, whole: int)
    requires !g.ok && asks != [] && asks[0].finishEnd && g.out <= left && |g.out| < |left|
    ensures InOrder(g, left, asks, whole)
  {
  }

  lemma {:induction false} TotalParts(asks: seq<Ask>)
    requires asks != []
    ensures Total(asks) == asks[0].size + Total(asks[1..])
  {
  }

  /** A call and those after it. */
  lemma {:induction false} MoreAsks(g: Filled, more: Filled, left: seq<Byte>, asks: seq<Ask>, whole: int)
    requires asks != [] && g.ok && |g.out| <= Least(asks[0].size, |g.out| + |left|)
    requires whole <= asks[0].given ==> |g.out| == Least(asks[0].size, |g.out| + |left|)
    requires InOrder(more, left, asks[1..], whole)
    ensures InOrder(Onto(g.used, g.out, more), g.out + left, asks, whole)
  {
  }

  lemma {:induction false} OnStreamEnd(p: Props, a: Moment, f: Feed, base: nat, data: seq<Byte>, mark: bool,
                                       rest: seq<Byte>, end: nat)
    requires OnStream(p, a, f, base, data, mark, rest, end)
    ensures end <= |rest|
  {
    hide FeedOk, Stage, MarkRead;
  }

  /** What of this a sequence of calls needs. */
  lemma {:induction false} PouredParts(p: Props, a: Moment, f: Feed, a': Moment, g: Filled, data: seq<Byte>, mark: bool,
                                       rest: seq<Byte>, end: nat, src: seq<Byte>, outSize: nat, finishEnd: bool)
    requires Poured(p, a, f, a', g, data, mark, rest, end, src, outSize, finishEnd) && a.w <= data
    requires f.st.remainLen == MATCH_SPEC_LEN_START ==> Missing(a, data) == 0
    ensures var d := |f.temp| + g.used - |g.f.temp|;
            && 0 <= d <= end <= |rest| && g.used <= |src|
            && (g.ok ==> OnStream(p, a', g.f, g.base, data, mark, rest[d..], end - d))
            && a.w <= a'.w <= data && g.out == data[|a.w|..|a'.w|] && |g.out| == |a'.w| - |a.w|
            && |g.out| <= Least(outSize, Missing(a, data))
            && (end <= |f.temp| + |src| && g.ok ==> |g.out| == Least(outSize, Missing(a, data)))
            && (!g.ok ==> finishEnd && |g.out| < Missing(a, data))
  {
    hide OnStream;
  }

  /**
   * The round trip through a circular dictionary. Take any data and any legal parse of it, however long; a fresh
   * decoder with any buffer of at least the dictionary size, whatever it held; and any sequence of calls, with the
   * input arriving and the output wanted in pieces of any sizes. The calls together deliver the data from its
   * beginning: never anything else, never more than they have room for, and all that the calls have room for that are
   * made with the whole stream at hand. None fails unless it expects the end of the stream before that end.
   */
  lemma {:induction false} StreamInPieces(p: Props, pkts: seq<Packet>, data: seq<Byte>, mark: bool, out: seq<Byte>,
                                          extra: seq<Byte>, dic: seq<Byte>, asks: seq<Ask>)
    requires Stream(p, pkts, data, mark, out) && p.dicSize <= |dic| && (mark || Total(asks) <= |data|)
    ensures MayFill(p, Fresh(p, dic), 0)
    ensures InOrder(Session(p, Fresh(p, dic), 0, out + extra, 0, asks), data, asks, |out|)
  {
    hide OnFeed, Session, Stream, MayCall, InOrder;
    FreshOnFeed(p, pkts, data, mark, out, extra, dic);
    FreshFill(p, dic);
    var s := out + extra;
    assert s == [] + s[0..];
    SessionOnStream(p, Moment(CONTROL_INIT, [], map[], pkts), Fresh(p, dic), 0, data, mark, s, 0, s, |out|, asks);
    assert data[0..] == data;
  }

  lemma {:induction false} FreshFill(p: Props, dic: seq<Byte>)
    requires PropsOk(p) && p.dicSize <= |dic|
    ensures MayFill(p, Fresh(p, dic), 0)
  {
    FreshOk(p, dic, 0);
  }

  /** A single call with all the input. */
  lemma {:induction false} StreamToBuf(p: Props, pkts: seq<Packet>, data: seq<Byte>, mark: bool, out: seq<Byte>,
                                       extra: seq<Byte>, dic: seq<Byte>, outSize: nat, finishEnd: bool)
    requires Stream(p, pkts, data, mark, out) && p.dicSize <= |dic| && (mark || outSize <= |data|)
    ensures MayFill(p, Fresh(p, dic), 0)
    ensures var g := ToBuf(p, Fresh(p, dic), 0, out + extra, outSize, finishEnd);
            && g.out == data[..Least(outSize, |data|)]
            && Reported(g.ok, g.status, outSize, |data|, mark, finishEnd)
            && (AllRead(outSize, |data|, mark, finishEnd) ==> g.used == |out|)
  {
    hide OnFeed, ToBuf, Stream, MayFill, Reported;
    FreshOnFeed(p, pkts, data, mark, out, extra, dic);
    FreshFill(p, dic);
    var a := Moment(CONTROL_INIT, [], map[], pkts);
    var s := out + extra;
    assert [] + s == s;
    var a' := ToBufOnStream(p, a, Fresh(p, dic), 0, data, mark, s, |out|, s, outSize, finishEnd);
    var g := ToBuf(p, Fresh(p, dic), 0, s, outSize, finishEnd);
    if AllRead(outSize, |data|, mark, finishEnd) {
      AllReadOk(g.ok, g.status, outSize, |data|, mark, finishEnd);
      var d := g.used - |g.f.temp|;
      NothingKept(p, a', g.f, g.base, data, mark, s[d..], |out| - d);
    }
  }
}
