/**
 * Whole LZMA streams: how packets change the state, the repeat distances and the window on either
 * side, the circular dictionary of the decoder, and the simulation between the two.
 */
module LzmaStream {
  import opened Bits
  import opened Bytes
  import opened RangeSpec
  import opened RangeEncoder
  import opened RangeDecoder
  import opened LzmaContexts
  import opened Modular
  import opened LzmaPackets
  import opened LzmaRun

  /** lc, lp and pb as LzmaProps_Decode yields them, and a dictionary of at least LZMA_DIC_MIN bytes. */
  datatype Props = Props(lc: nat, lp: nat, pb: nat, dicSize: nat)

  const DIC_MIN := 0x1000

  predicate PropsOk(p: Props)
  {
    p.lc <= 8 && p.lp <= 4 && p.pb <= 4 && DIC_MIN <= p.dicSize < B32
  }

  function Coders(p: Props): nat
  {
    Pow2(p.lc + p.lp)
  }

  /** The literal coder chosen by the low bits of the position and the high bits of the previous byte. */
  function LitCoder(p: Props, pos: nat, prev: Byte): nat
    requires p.lc <= 8
  {
    Shl(Trunc(pos, p.lp), p.lc) + Shr(prev, 8 - p.lc)
  }

  // ---------------------------------------------------------------- the encoder's side

  const LITERAL_NEXT_STATES: seq<nat> := [0, 0, 0, 0, 1, 2, 3, 4, 5, 6, 4, 5]
  const MATCH_NEXT_STATES: seq<nat> := [7, 7, 7, 7, 7, 7, 7, 10, 10, 10, 10, 10]
  const REP_NEXT_STATES: seq<nat> := [8, 8, 8, 8, 8, 8, 8, 11, 11, 11, 11, 11]
  const SHORT_REP_NEXT_STATES: seq<nat> := [9, 9, 9, 9, 9, 9, 9, 11, 11, 11, 11, 11]

  /** The encoder's state and its 0-based repeat distances. */
  datatype Control = Control(state: nat, rep0: nat, rep1: nat, rep2: nat, rep3: nat)

  const CONTROL_INIT := Control(0, 0, 0, 0, 0)

  function RepOf(c: Control, k: nat): nat
    requires k < 4
  {
    if k == 0 then c.rep0 else if k == 1 then c.rep1 else if k == 2 then c.rep2 else c.rep3
  }

  function EncNext(c: Control, p: Packet): Control
    requires c.state < NUM_STATES && Encodable(p)
  {
    match p
    case Lit(_) => c.(state := LITERAL_NEXT_STATES[c.state])
    case ShortRep => c.(state := SHORT_REP_NEXT_STATES[c.state])
    case Rep(k, _) =>
      Control(REP_NEXT_STATES[c.state], RepOf(c, k), if k == 0 then c.rep1 else c.rep0,
              if k >= 2 then c.rep1 else c.rep2, if k == 3 then c.rep2 else c.rep3)
    case Match(d, _) => Control(MATCH_NEXT_STATES[c.state], d, c.rep0, c.rep1, c.rep2)
  }

  /** len bytes from dist + 1 back, one at a time, so that a match may overlap itself. */
  function CopyOut(w: seq<Byte>, dist: nat, len: nat): (r: seq<Byte>)
    requires dist < |w|
    ensures |r| == |w| + len && r[..|w|] == w
    decreases len
  {
    if len == 0 then w
    else
      var r := CopyOut(w + [w[|w| - 1 - dist]], dist, len - 1);
      assert r[..|w|] == r[..|w| + 1][..|w|];
      r
  }

  /** What a packet may refer to after the window w. */
  predicate Applicable(p: Props, c: Control, w: seq<Byte>, pkt: Packet)
  {
    && Encodable(pkt)
    && match pkt
       case Lit(_) => true
       case ShortRep => c.rep0 < |w|
       case Rep(k, _) => RepOf(c, k) < |w|
       case Match(d, _) => d < |w| && d < p.dicSize
  }

  /** The window after a packet. */
  function Expand(p: Props, c: Control, w: seq<Byte>, pkt: Packet): (r: seq<Byte>)
    requires Applicable(p, c, w, pkt)
    ensures |w| < |r| && r[..|w|] == w
  {
    match pkt
    case Lit(b) => w + [b]
    case ShortRep => CopyOut(w, c.rep0, 1)
    case Rep(k, len) => CopyOut(w, RepOf(c, k), len)
    case Match(d, len) => CopyOut(w, d, len)
  }

  function PacketLen(pkt: Packet): nat
  {
    match pkt
    case Lit(_) => 1
    case ShortRep => 1
    case Rep(_, len) => len
    case Match(_, len) => len
  }

  /** pkts is a legal parse of the rest of data after w: every packet refers into the window and reproduces data. */
  predicate Parses(p: Props, c: Control, w: seq<Byte>, pkts: seq<Packet>, data: seq<Byte>)
    decreases |pkts|
  {
    && c.state < NUM_STATES
    && if pkts == [] then w == data
       else Applicable(p, c, w, pkts[0])
            && Parses(p, EncNext(c, pkts[0]), Expand(p, c, w, pkts[0]), pkts[1..], data)
  }

  lemma {:induction false} ParsesExtend(p: Props, c: Control, w: seq<Byte>, pkts: seq<Packet>, data: seq<Byte>)
    requires Parses(p, c, w, pkts, data)
    ensures w <= data
    decreases |pkts|
  {
    if pkts != [] {
      ParsesExtend(p, EncNext(c, pkts[0]), Expand(p, c, w, pkts[0]), pkts[1..], data);
    }
  }

  function EncEnv(p: Props, c: Control, w: seq<Byte>): Env
    requires p.lc <= 8
  {
    Env(c.state, Trunc(|w|, p.pb), if w == [] then 0 else LitCoder(p, |w|, w[|w| - 1]),
        if c.state >= NUM_LIT_STATES && c.rep0 < |w| then w[|w| - 1 - c.rep0] else 0)
  }

  /** The end mark: a match with an impossible distance. */
  const END_MARK := Match(END_DISTANCE, 2)

  /** All symbols of a parse, each packet coded in the context its predecessors left, and the end mark if wanted. */
  function StreamSyms(p: Props, c: Control, w: seq<Byte>, pkts: seq<Packet>, mark: bool): seq<Symbol>
    requires p.lc <= 8 && c.state < NUM_STATES
    decreases |pkts|
  {
    if pkts == [] then if mark then PacketSyms(EncEnv(p, c, w), END_MARK) else []
    else if !Applicable(p, c, w, pkts[0]) then []
    else PacketSyms(EncEnv(p, c, w), pkts[0])
         + StreamSyms(p, EncNext(c, pkts[0]), Expand(p, c, w, pkts[0]), pkts[1..], mark)
  }

  // ---------------------------------------------------------------- the decoder's side

  /** A 32-bit counter: v modulo 2^32. */
  function Word(v: nat): nat
  {
    if v < B32 then v else Word(v - B32)
  }

  lemma {:induction false} WordIsMod(v: nat)
    ensures Word(v) == v % B32
  {
    if v >= B32 { WordIsMod(v - B32); }
  }

  const MATCH_SPEC_LEN_START := 274

  /** The fields of CLzmaDec; the repeat distances are 1-based. */
  datatype DecState = DecState(m: Machine, state: nat, rep0: nat, rep1: nat, rep2: nat, rep3: nat,
                               dic: seq<Byte>, dicPos: nat, processedPos: nat, checkDicSize: nat, remainLen: nat)

  /** What one iteration of the decoding loop can lead to; of a failed one only the dictionary is of interest. */
  datatype Outcome = Failed(st: DecState) | More(st: DecState) | EndMark(st: DecState)

  /** The place in the circular dictionary that lies rep0 bytes back. */
  function Source(pos: nat, rep0: nat, size: nat): int
  {
    if pos < rep0 then pos - rep0 + size else pos - rep0
  }

  /** Every distance in use lies inside the part of the dictionary that has been written. */
  ghost predicate DecOk(p: Props, st: DecState, total: nat)
  {
    && PropsOk(p) && MachineOk(st.m, Coders(p)) && st.state < NUM_STATES
    && st.dicPos <= |st.dic| && st.processedPos == Word(total)
    && (st.checkDicSize == 0 ==> total <= p.dicSize)
    && (st.checkDicSize != 0 ==> st.checkDicSize == p.dicSize <= total)
    && (|st.dic| >= p.dicSize || total == st.dicPos)
    && (st.dicPos <= total)
    && RepOk(p, total, st.rep0) && RepOk(p, total, st.rep1) && RepOk(p, total, st.rep2) && RepOk(p, total, st.rep3)
    && (st.state >= NUM_LIT_STATES ==> total > 0)
    && (0 < st.remainLen < MATCH_SPEC_LEN_START ==> total > 0)
  }

  predicate RepOk(p: Props, total: nat, rep: nat)
  {
    1 <= rep <= p.dicSize && (rep <= total || rep == 1)
  }

  lemma {:induction false} SourceInside(p: Props, st: DecState, total: nat, rep: nat)
    requires DecOk(p, st, total) && RepOk(p, total, rep) && total > 0
    ensures 0 <= Source(st.dicPos, rep, |st.dic|) < |st.dic|
  {
  }

  function DecEnv(p: Props, st: DecState): Env
    requires p.lc <= 8
  {
    Env(st.state, Trunc(st.processedPos, p.pb),
        if st.checkDicSize != 0 || st.processedPos != 0
        then LitCoder(p, st.processedPos, At(st.dic, (if st.dicPos == 0 then |st.dic| else st.dicPos) - 1)) else 0,
        if st.state >= NUM_LIT_STATES then At(st.dic, Source(st.dicPos, st.rep0, |st.dic|)) else 0)
  }

  function At(dic: seq<Byte>, i: int): Byte
  {
    if 0 <= i < |dic| then dic[i] else 0
  }

  function Put(dic: seq<Byte>, i: int, b: Byte): (r: seq<Byte>)
    ensures |r| == |dic|
  {
    if 0 <= i < |dic| then dic[i := b] else dic
  }

  /** The copying loops: n bytes from rep0 back, through the end of the buffer. */
  function CopyRun(dic: seq<Byte>, pos: nat, rep0: nat, n: nat): (r: seq<Byte>)
    ensures |r| == |dic|
    decreases n
  {
    if n == 0 then dic
    else CopyRun(Put(dic, pos, At(dic, Source(pos, rep0, |dic|))), pos + 1, rep0, n - 1)
  }

  function LitNext(state: nat): nat
  {
    if state < 4 then 0 else if state < 10 then state - 3 else state - 6
  }

  function AfterLit(st: DecState, b: Byte): DecState
  {
    st.(state := LitNext(st.state), dic := Put(st.dic, st.dicPos, b), dicPos := st.dicPos + 1,
        processedPos := Word(st.processedPos + 1), remainLen := 0)
  }

  function AfterShortRep(st: DecState): DecState
  {
    st.(state := if st.state < NUM_LIT_STATES then 9 else 11, dic := CopyRun(st.dic, st.dicPos, st.rep0, 1),
        dicPos := st.dicPos + 1, processedPos := Word(st.processedPos + 1), remainLen := 0)
  }

  /** Writes as much of a match as fits below limit and remembers the rest. */
  function CopyPart(st: DecState, len: nat, limit: nat): Outcome
    requires st.dicPos <= limit
  {
    if limit == st.dicPos then Failed(st)
    else
      var cur := if limit - st.dicPos < len then limit - st.dicPos else len;
      More(st.(dic := CopyRun(st.dic, st.dicPos, st.rep0, cur), dicPos := st.dicPos + cur,
               processedPos := Word(st.processedPos + cur), remainLen := len - cur))
  }

  function RepsRotated(st: DecState, k: nat): DecState
    requires k < 4
  {
    if k == 0 then st
    else if k == 1 then st.(rep0 := st.rep1, rep1 := st.rep0)
    else if k == 2 then st.(rep0 := st.rep2, rep1 := st.rep0, rep2 := st.rep1)
    else st.(rep0 := st.rep3, rep1 := st.rep0, rep2 := st.rep1, rep3 := st.rep2)
  }

  /** The effect of a packet on everything but the range decoder. */
  function Apply(st: DecState, pkt: Packet, limit: nat): Outcome
    requires st.dicPos <= limit && Encodable(pkt)
  {
    match pkt
    case Lit(b) => More(AfterLit(st, b))
    case ShortRep =>
      if st.checkDicSize == 0 && st.processedPos == 0 then Failed(st) else More(AfterShortRep(st))
    case Rep(k, len) =>
      if st.checkDicSize == 0 && st.processedPos == 0 then Failed(st)
      else CopyPart(RepsRotated(st, k).(state := if st.state < NUM_LIT_STATES then 8 else 11), len, limit)
    case Match(d, len) =>
      if d == END_DISTANCE then EndMark(st.(remainLen := len - 2 + MATCH_SPEC_LEN_START))
      else if (if st.checkDicSize == 0 then d >= st.processedPos else d >= st.checkDicSize) then Failed(st)
      else CopyPart(st.(rep0 := d + 1, rep1 := st.rep0, rep2 := st.rep1, rep3 := st.rep2,
                        state := if st.state < NUM_LIT_STATES then 7 else 10), len, limit)
  }

  /** The contexts the decoder derives from its state are contexts of its array. */
  lemma {:induction false} DecEnvOk(p: Props, st: DecState, total: nat)
    requires DecOk(p, st, total)
    ensures EnvOk(DecEnv(p, st), Coders(p))
  {
    PosStateBound(st.processedPos, p.pb);
    LitCoderBound(p, st.processedPos, At(st.dic, (if st.dicPos == 0 then |st.dic| else st.dicPos) - 1));
  }

  lemma {:induction false} PosStateBound(pos: nat, pb: nat)
    requires pb <= 4
    ensures Trunc(pos, pb) < 16
  {
    TruncBound(pos, pb);
    Pow2Monotone(pb, 4);
    Pow2Small();
  }

  lemma {:induction false} LitCoderBound(p: Props, pos: nat, prev: Byte)
    requires p.lc <= 8
    ensures LitCoder(p, pos, prev) < Coders(p)
  {
    TruncBound(pos, p.lp);
    ShrBound(prev, 8 - p.lc, p.lc);
    Pow2Small();
    ShlPow2(Trunc(pos, p.lp), p.lp, p.lc);
  }

  lemma {:induction false} ShlPow2(v: nat, n: nat, k: nat)
    requires v < Pow2(n)
    ensures Shl(v, k) + Pow2(k) <= Pow2(k + n)
    decreases k
  {
    if k > 0 { ShlPow2(v, n, k - 1); }
  }

  /** One iteration of the decoding loop. */
  function DecodeOne(p: Props, st: DecState, s: seq<Byte>, limit: nat): Outcome
    requires EnvOk(DecEnv0(p, st), Coders(p)) && MachineOk(st.m, Coders(p)) && st.dicPos <= limit
  {
    var (m', pkt) := Run(DecEnv0(p, st), AtIsMatch, st.m, s, Coders(p));
    Apply(st.(m := m'), pkt, limit)
  }

  /** DecEnv, without its precondition. */
  function DecEnv0(p: Props, st: DecState): Env
  {
    if p.lc <= 8 then DecEnv(p, st) else Env(0, 0, 0, 0)
  }

  // ---------------------------------------------------------------- no distance ever leaves the window

  lemma {:induction false} RepsRotatedOk(p: Props, st: DecState, total: nat, k: nat)
    requires DecOk(p, st, total) && k < 4
    ensures DecOk(p, RepsRotated(st, k), total)
  {
  }

  /** What is left after a packet, and where. */
  ghost predicate AppliedOk(p: Props, st: DecState, total: nat, limit: nat, o: Outcome)
  {
    match o
    case Failed(_) => true
    case EndMark(st') => DecOk(p, st', total)
    case More(st') =>
      && st.dicPos < st'.dicPos <= limit && |st'.dic| == |st.dic|
      && DecOk(p, st', total + (st'.dicPos - st.dicPos))
  }

  /** On any input the loop keeps every distance inside the written part of the dictionary. */
  lemma {:induction false} ApplyOk(p: Props, st: DecState, total: nat, pkt: Packet, limit: nat)
    requires DecOk(p, st, total) && Encodable(pkt) && st.dicPos <= limit <= |st.dic|
    requires (pkt.Lit? || pkt.ShortRep?) ==> st.dicPos < limit
    requires st.checkDicSize == 0 ==> total + (limit - st.dicPos) <= p.dicSize
    ensures match Apply(st, pkt, limit)
            case Failed(_) => true
            case EndMark(st') => DecOk(p, st', total)
            case More(st') =>
              && st.dicPos < st'.dicPos <= limit && |st'.dic| == |st.dic|
              && DecOk(p, st', total + (st'.dicPos - st.dicPos))
  {
    hide DecOk, Apply;
    assert AppliedOk(p, st, total, limit, Apply(st, pkt, limit)) by {
      match pkt
      case Lit(b) => LitOk(p, st, total, b, limit);
      case ShortRep => ShortRepOk(p, st, total, limit);
      case Rep(k, len) => RepMatchOk(p, st, total, k, len, limit);
      case Match(d, len) => NewMatchOk(p, st, total, d, len, limit);
    }
  }

  lemma {:induction false} LitOk(p: Props, st: DecState, total: nat, b: Byte, limit: nat)
    requires DecOk(p, st, total) && st.dicPos < limit <= |st.dic|
    requires st.checkDicSize == 0 ==> total + (limit - st.dicPos) <= p.dicSize
    ensures AppliedOk(p, st, total, limit, Apply(st, Lit(b), limit))
  {
    hide MachineOk, Word;
    AddMod(total, 1);
  }

  lemma {:induction false} ShortRepOk(p: Props, st: DecState, total: nat, limit: nat)
    requires DecOk(p, st, total) && st.dicPos < limit <= |st.dic|
    requires st.checkDicSize == 0 ==> total + (limit - st.dicPos) <= p.dicSize
    ensures AppliedOk(p, st, total, limit, Apply(st, ShortRep, limit))
  {
    hide MachineOk, Word;
    AddMod(total, 0);
    AddMod(total, 1);
  }

  lemma {:induction false} RepMatchOk(p: Props, st: DecState, total: nat, k: nat, len: nat, limit: nat)
    requires DecOk(p, st, total) && Encodable(Rep(k, len)) && st.dicPos <= limit <= |st.dic|
    requires st.checkDicSize == 0 ==> total + (limit - st.dicPos) <= p.dicSize
    ensures AppliedOk(p, st, total, limit, Apply(st, Rep(k, len), limit))
  {
    hide MachineOk, Word, CopyPart;
    AddMod(total, 0);
    RepsRotatedOk(p, st, total, k);
    if !(st.checkDicSize == 0 && st.processedPos == 0) {
      CopyPartOk(p, RepsRotated(st, k).(state := if st.state < NUM_LIT_STATES then 8 else 11), total, len, limit);
    }
  }

  lemma {:induction false} NewMatchOk(p: Props, st: DecState, total: nat, d: nat, len: nat, limit: nat)
    requires DecOk(p, st, total) && Encodable(Match(d, len)) && st.dicPos <= limit <= |st.dic|
    requires st.checkDicSize == 0 ==> total + (limit - st.dicPos) <= p.dicSize
    ensures AppliedOk(p, st, total, limit, Apply(st, Match(d, len), limit))
  {
    hide MachineOk, Word, CopyPart;
    AddMod(total, 0);
    if d != END_DISTANCE && !(if st.checkDicSize == 0 then d >= st.processedPos else d >= st.checkDicSize) {
      CopyPartOk(p, st.(rep0 := d + 1, rep1 := st.rep0, rep2 := st.rep1, rep3 := st.rep2,
                        state := if st.state < NUM_LIT_STATES then 7 else 10), total, len, limit);
    }
  }

  lemma {:induction false} CopyPartOk(p: Props, st: DecState, total: nat, len: nat, limit: nat)
    requires DecOk(p, st, total) && total > 0 && st.dicPos <= limit <= |st.dic| && len >= 1
    requires st.checkDicSize == 0 ==> total + (limit - st.dicPos) <= p.dicSize
    ensures match CopyPart(st, len, limit)
            case Failed(st') => st.dicPos == limit && st' == st
            case EndMark(_) => false
            case More(st') =>
              && st.dicPos < st'.dicPos <= limit && |st'.dic| == |st.dic|
              && DecOk(p, st', total + (st'.dicPos - st.dicPos))
  {
    hide CopyRun, MachineOk, Word;
    AddMod(total, if limit - st.dicPos < len then limit - st.dicPos else len);
  }

  lemma {:induction false} AddMod(a: nat, b: nat)
    ensures Word(Word(a) + b) == Word(a + b)
    ensures a < B32 ==> Word(a) == a
    ensures Word(a) <= a
  {
    if a >= B32 { AddMod(a - B32, b); }
  }

  // ---------------------------------------------------------------- simulation

  /** The byte written j positions ago. */
  function Behind(dic: seq<Byte>, dicPos: nat, j: nat): Byte
  {
    At(dic, Source(dicPos, j, |dic|))
  }

  /** The dictionary holds the end of the window, up to its own size. */
  ghost predicate Holds(dic: seq<Byte>, dicPos: nat, w: seq<Byte>)
  {
    dicPos <= |dic| && forall j :: 1 <= j <= |w| && j <= |dic| ==> Behind(dic, dicPos, j) == w[|w| - j]
  }

  lemma {:induction false} HoldsAppend(dic: seq<Byte>, dicPos: nat, w: seq<Byte>, b: Byte)
    requires dicPos < |dic| && Holds(dic, dicPos, w)
    ensures Holds(Put(dic, dicPos, b), dicPos + 1, w + [b])
  {
    var dic', w', pos' := dic[dicPos := b], w + [b], dicPos + 1;
    forall j | 1 <= j <= |w'| && j <= |dic|
      ensures Behind(dic', pos', j) == w'[|w'| - j]
    {
      if j >= 2 {
        assert Behind(dic', pos', j) == Behind(dic, dicPos, j - 1);
        assert w'[|w'| - j] == w[|w| - (j - 1)];
      }
    }
  }

  /** Copying inside the dictionary copies inside the window. */
  lemma {:induction false} HoldsCopy(dic: seq<Byte>, dicPos: nat, w: seq<Byte>, dist: nat, n: nat)
    requires dicPos + n <= |dic| && Holds(dic, dicPos, w) && dist < |w| && dist < |dic|
    ensures Holds(CopyRun(dic, dicPos, dist + 1, n), dicPos + n, CopyOut(w, dist, n))
    ensures |CopyRun(dic, dicPos, dist + 1, n)| == |dic| && |CopyOut(w, dist, n)| == |w| + n
    decreases n
  {
    if n > 0 {
      var b := w[|w| - 1 - dist];
      assert Behind(dic, dicPos, dist + 1) == b;
      HoldsAppend(dic, dicPos, w, b);
      HoldsCopy(Put(dic, dicPos, b), dicPos + 1, w + [b], dist, n - 1);
    }
  }

  /** A copy can be split. */
  lemma {:induction false} CopySplit(w: seq<Byte>, dist: nat, m: nat, n: nat)
    requires dist < |w|
    ensures CopyOut(w, dist, m + n) == CopyOut(CopyOut(w, dist, m), dist, n)
    decreases m
  {
    if m > 0 {
      CopySplit(w + [w[|w| - 1 - dist]], dist, m - 1, n);
    }
  }

  /**
   * The decoder has written w of a stream whose encoder stands remainLen bytes further on: those
   * bytes are the rest of a match at the last distance.
   */
  ghost predicate InStep(p: Props, c: Control, w: seq<Byte>, st: DecState)
  {
    && DecOk(p, st, |w|)
    && st.state == c.state
    && st.rep0 == c.rep0 + 1 && st.rep1 == c.rep1 + 1 && st.rep2 == c.rep2 + 1 && st.rep3 == c.rep3 + 1
    && Holds(st.dic, st.dicPos, w)
    && (c.state >= NUM_LIT_STATES ==> c.rep0 < |w|)
    && (st.remainLen > 0 ==> c.rep0 < |w|)
  }

  lemma {:induction false} StatesAgree(state: nat)
    requires state < NUM_STATES
    ensures LITERAL_NEXT_STATES[state] == LitNext(state)
    ensures MATCH_NEXT_STATES[state] == if state < NUM_LIT_STATES then 7 else 10
    ensures REP_NEXT_STATES[state] == if state < NUM_LIT_STATES then 8 else 11
    ensures SHORT_REP_NEXT_STATES[state] == if state < NUM_LIT_STATES then 9 else 11
  {
  }

  lemma {:induction false} TruncMod(v: nat, n: nat, k: nat, d: nat)
    requires n <= k && d == Pow2(k)
    ensures Trunc(v % d, n) == Trunc(v, n)
    decreases n
  {
    if n > 0 {
      var h := Pow2(k - 1);
      HalfMod(v, h);
      TruncMod(v / 2, n - 1, k - 1, h);
    }
  }

  lemma {:induction false} HalfMod(v: nat, h: nat)
    requires h > 0
    ensures v % (2 * h) / 2 == v / 2 % h && v % (2 * h) % 2 == v % 2
  {
    var q, r := v / (2 * h), v % (2 * h);
    assert v == q * (2 * h) + r;
    assert q * (2 * h) == 2 * (q * h);
    assert v / 2 == q * h + r / 2;
    QuotientOf(v / 2, h, q, r / 2);
  }

  lemma {:induction false} WordTrunc(v: nat, n: nat)
    requires n <= 4
    ensures Trunc(Word(v), n) == Trunc(v, n)
  {
    Pow2Word();
    WordIsMod(v);
    TruncMod(v, n, 32, B32);
  }

  lemma {:induction false} BehindIs(dic: seq<Byte>, dicPos: nat, w: seq<Byte>, j: nat)
    requires Holds(dic, dicPos, w) && 1 <= j <= |w| && j <= |dic|
    ensures At(dic, Source(dicPos, j, |dic|)) == w[|w| - j]
  {
    assert Behind(dic, dicPos, j) == w[|w| - j];
  }

  /** Both sides derive the same contexts. */
  lemma {:induction false} SameEnv(p: Props, c: Control, w: seq<Byte>, st: DecState)
    requires InStep(p, c, w, st)
    ensures DecEnv(p, st) == EncEnv(p, c, w)
  {
    hide Word, Holds, Behind, MachineOk, Trunc, Shl, Shr;
    WordTrunc(|w|, p.pb);
    WordTrunc(|w|, p.lp);
    AddMod(|w|, 0);
    if w == [] {
    } else {
      BehindIs(st.dic, st.dicPos, w, 1);
      assert st.checkDicSize != 0 || st.processedPos != 0;
      if c.state >= NUM_LIT_STATES {
        SourceInside(p, st, |w|, st.rep0);
        BehindIs(st.dic, st.dicPos, w, st.rep0);
      }
    }
  }

  /** A match written below the limit, in full or in part. */
  lemma {:induction false} CopyInStep(p: Props, c: Control, w: seq<Byte>, st: DecState, len: nat, limit: nat)
    requires DecOk(p, st, |w|) && Holds(st.dic, st.dicPos, w) && st.state == c.state
    requires st.rep0 == c.rep0 + 1 && st.rep1 == c.rep1 + 1 && st.rep2 == c.rep2 + 1 && st.rep3 == c.rep3 + 1
    requires c.rep0 < |w| && st.dicPos < limit <= |st.dic| && len >= 1
    requires st.checkDicSize == 0 ==> |w| + (limit - st.dicPos) <= p.dicSize
    ensures var cur := if limit - st.dicPos < len then limit - st.dicPos else len;
            var o := CopyPart(st, len, limit);
            && o.More? && o.st.dicPos == st.dicPos + cur && o.st.remainLen == len - cur
            && InStep(p, c, CopyOut(w, c.rep0, cur), o.st)
            && CopyOut(CopyOut(w, c.rep0, cur), c.rep0, len - cur) == CopyOut(w, c.rep0, len)
  {
    hide CopyRun, CopyOut, Holds, Word, MachineOk;
    var cur := if limit - st.dicPos < len then limit - st.dicPos else len;
    HoldsCopy(st.dic, st.dicPos, w, c.rep0, cur);
    CopySplit(w, c.rep0, cur, len - cur);
    CopyPartOk(p, st, |w|, len, limit);
  }

  /** The decoder has written the packet below the limit, and what is missing is the rest of a match. */
  ghost predicate Written(p: Props, c: Control, w: seq<Byte>, st: DecState, pkt: Packet, limit: nat)
    requires st.dicPos <= limit && Applicable(p, c, w, pkt) && c.state < NUM_STATES
  {
    var o := Apply(st, pkt, limit);
    var full := Expand(p, c, w, pkt);
    && o.More? && st.dicPos < o.st.dicPos <= limit && o.st.m == st.m && |o.st.dic| == |st.dic|
    && o.st.checkDicSize == st.checkDicSize
    && (o.st.remainLen > 0 ==> o.st.dicPos == limit)
    && o.st.dicPos - st.dicPos + o.st.remainLen == |full| - |w|
    && var w' := full[..|full| - o.st.remainLen];
       && InStep(p, EncNext(c, pkt), w', o.st)
       && (o.st.remainLen > 0 ==> CopyOut(w', EncNext(c, pkt).rep0, o.st.remainLen) == full)
  }

  /**
   * One packet on both sides: the decoder writes what fits below its limit, remembers the rest, and the
   * two sides stay in step.
   */
  lemma {:induction false} PacketInStep(p: Props, c: Control, w: seq<Byte>, st: DecState, pkt: Packet, limit: nat)
    requires InStep(p, c, w, st) && st.remainLen == 0 && Applicable(p, c, w, pkt)
    requires st.dicPos < limit <= |st.dic|
    requires st.checkDicSize == 0 ==> |w| + (limit - st.dicPos) <= p.dicSize
    requires pkt.Match? ==> pkt.dist != END_DISTANCE
    ensures Written(p, c, w, st, pkt, limit)
  {
    hide Written, InStep;
    match pkt
    case Lit(b) => LitInStep(p, c, w, st, b, limit);
    case ShortRep => ShortRepInStep(p, c, w, st, limit);
    case Rep(k, len) => RepInStep(p, c, w, st, k, len, limit);
    case Match(d, len) => MatchInStep(p, c, w, st, d, len, limit);
  }

  lemma {:induction false} LitInStep(p: Props, c: Control, w: seq<Byte>, st: DecState, b: Byte, limit: nat)
    requires InStep(p, c, w, st) && st.dicPos < limit <= |st.dic|
    requires st.checkDicSize == 0 ==> |w| + (limit - st.dicPos) <= p.dicSize
    requires st.remainLen == 0
    ensures Written(p, c, w, st, Lit(b), limit)
  {
    hide Holds, Put, Word, MachineOk;
    StatesAgree(c.state);
    HoldsAppend(st.dic, st.dicPos, w, b);
    assert (w + [b])[..|w| + 1] == w + [b];
    ApplyOk(p, st, |w|, Lit(b), limit);
  }

  lemma {:induction false} ShortRepInStep(p: Props, c: Control, w: seq<Byte>, st: DecState, limit: nat)
    requires InStep(p, c, w, st) && st.dicPos < limit <= |st.dic| && c.rep0 < |w|
    requires st.checkDicSize == 0 ==> |w| + (limit - st.dicPos) <= p.dicSize
    requires st.remainLen == 0
    ensures Written(p, c, w, st, ShortRep, limit)
  {
    hide Holds, CopyRun, CopyOut, Word, MachineOk;
    AddMod(|w|, 1);
    StatesAgree(c.state);
    HoldsCopy(st.dic, st.dicPos, w, c.rep0, 1);
    PrefixOfCopy(w, c.rep0, 1, 1);
    ApplyOk(p, st, |w|, ShortRep, limit);
  }

  lemma {:induction false} RepInStep(p: Props, c: Control, w: seq<Byte>, st: DecState, k: nat, len: nat, limit: nat)
    requires InStep(p, c, w, st) && st.dicPos < limit <= |st.dic| && Applicable(p, c, w, Rep(k, len))
    requires st.checkDicSize == 0 ==> |w| + (limit - st.dicPos) <= p.dicSize
    ensures Written(p, c, w, st, Rep(k, len), limit)
  {
    hide Holds, CopyRun, CopyOut, Word, MachineOk;
    AddMod(|w|, 1);
    StatesAgree(c.state);
    var c' := EncNext(c, Rep(k, len));
    var st1 := RepsRotated(st, k).(state := if st.state < NUM_LIT_STATES then 8 else 11);
    RepsRotatedOk(p, st, |w|, k);
    CopyInStep(p, c', w, st1, len, limit);
    PrefixOfCopy(w, c'.rep0, len, limit - st.dicPos);
  }

  lemma {:induction false} MatchInStep(p: Props, c: Control, w: seq<Byte>, st: DecState, d: nat, len: nat, limit: nat)
    requires InStep(p, c, w, st) && st.dicPos < limit <= |st.dic| && Applicable(p, c, w, Match(d, len))
    requires st.checkDicSize == 0 ==> |w| + (limit - st.dicPos) <= p.dicSize
    requires d != END_DISTANCE
    ensures Written(p, c, w, st, Match(d, len), limit)
  {
    hide Holds, CopyRun, CopyOut, Word, MachineOk;
    AddMod(|w|, 1);
    StatesAgree(c.state);
    var c' := EncNext(c, Match(d, len));
    var st1 := st.(rep0 := d + 1, rep1 := st.rep0, rep2 := st.rep1, rep3 := st.rep2,
                   state := if st.state < NUM_LIT_STATES then 7 else 10);
    CopyInStep(p, c', w, st1, len, limit);
    PrefixOfCopy(w, d, len, limit - st.dicPos);
  }

  lemma {:induction false} PrefixOfCopy(w: seq<Byte>, dist: nat, len: nat, room: nat)
    requires dist < |w|
    ensures var cur := if room < len then room else len;
            && |CopyOut(w, dist, len)| == |w| + len
            && CopyOut(w, dist, len)[..|w| + cur] == CopyOut(w, dist, cur)
  {
    var cur := if room < len then room else len;
    CopySplit(w, dist, cur, len - cur);
  }
}
