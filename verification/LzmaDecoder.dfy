/**
 * The decoder of LzmaDec.c as it runs: registers, one array of probabilities and the dictionary buffer, updated
 * bit by bit. Each method is tied to the functions of LzmaRun, LzmaStream and LzmaLoop.
 */
module LzmaDecoder {
  import opened Bits
  import opened Bytes
  import opened RangeSpec
  import opened RangeEncoder
  import opened RangeDecoder
  import opened LzmaContexts
  import opened LzmaPackets
  import opened LzmaPlaces
  import opened LzmaRun
  import opened LzmaBounds
  import opened LzmaDummy
  import opened LzmaStream
  import opened LzmaLoop
  import opened LzmaRoundTrip
  import opened LzmaFeed
  import opened LzmaBuffer
  import Dry = LzmaTryDummy

  /** SZ_OK, SZ_ERROR_DATA, and SZ_OK after the end mark. */
  datatype Res = Ok | ErrorData | End

  /** A packet has been decoded as told; of a failed one only the dictionary matters. */
  ghost predicate Leaves(res: Res, st: DecState, o: Outcome)
  {
    match o
    case Failed(was) => res == ErrorData && st.dic == was.dic
    case More(was) => res == Ok && st == was
    case EndMark(was) => res == End && st == was
  }

  /** The same fields, the probabilities aside. */
  ghost predicate SameButProbs(st: DecState, was: DecState)
  {
    st == was.(m := was.m.(probs := st.m.probs))
  }

  /** The local copies of LzmaDec_DecodeReal. */
  datatype Locals = Locals(range: nat, code: nat, buf: nat, state: nat, rep0: nat, rep1: nat, rep2: nat, rep3: nat,
                           dicPos: nat, processedPos: nat, remainLen: nat)

  function LocalsOf(st: DecState): Locals
  {
    Locals(st.m.rc.range, st.m.rc.code, st.m.rc.pos, st.state, st.rep0, st.rep1, st.rep2, st.rep3, st.dicPos,
           st.processedPos, st.remainLen)
  }

  /** Packets have been decoded as told; after an error all fields but the probabilities are known. */
  ghost predicate Yields(res: Res, st: DecState, o: Outcome)
  {
    match o
    case Failed(was) => res == ErrorData && SameButProbs(st, was)
    case More(was) => res == Ok && st == was
    case EndMark(was) => res == End && st == was
  }

  // ---------------------------------------------------------------- what is still to be read

  /** The result of reading the packet to its end from a decision point. */
  ghost function Rest(e: Env, ph: Phase, m: Machine, s: seq<Byte>, coders: nat): (Machine, Packet)
  {
    if EnvOk(e, coders) && PhaseOk(ph) && MachineOk(m, coders) then Run(e, ph, m, s, coders) else (m, ShortRep)
  }

  ghost predicate Sound(e: Env, ph: Phase, m: Machine, coders: nat)
  {
    EnvOk(e, coders) && PhaseOk(ph) && MachineOk(m, coders)
  }

  /** A decision point from which the packet can be read to its end without leaving the input. */
  ghost predicate Covered(e: Env, ph: Phase, m: Machine, s: seq<Byte>, coders: nat)
  {
    Sound(e, ph, m, coders) && Rest(e, ph, m, s, coders).0.rc.pos <= |s|
  }

  /** There the byte that the next bit may need exists. */
  lemma {:induction false} NextByte(e: Env, ph: Phase, m: Machine, s: seq<Byte>, coders: nat)
    requires Covered(e, ph, m, s, coders) && !ph.Done?
    ensures m.rc.range < TOP ==> m.rc.pos < |s|
  {
    hide Run, PhaseOk;
    RunMoves(e, ph, m, s, coders);
  }

  /** One answer leads to the next decision point. */
  lemma {:induction false} RestNext(e: Env, ph: Phase, m: Machine, s: seq<Byte>, coders: nat)
    requires Sound(e, ph, m, coders) && !ph.Done?
    ensures var (m', b) := Answer(e, ph, m, s, coders);
            Sound(e, Next(e, ph, b), m', coders) && Rest(e, Next(e, ph, b), m', s, coders) == Rest(e, ph, m, s, coders)
  {
    var (m', b) := Answer(e, ph, m, s, coders);
    NextOk(e, ph, b);
    BitsLeftDrops(e, ph, b);
  }

  lemma {:induction false} AnswerModel(e: Env, ph: Phase, m: Machine, s: seq<Byte>, coders: nat, i: nat)
    requires Sound(e, ph, m, coders) && !ph.Done? && !AsksRaw(ph) && i == Index(Asked(e, ph))
    ensures i < |m.probs| && Answer(e, ph, m, s, coders) == LzmaRun.GetBit(m, s, i)
  {
    AskedInRange(e, ph, coders);
    IndexInvertible(Asked(e, ph), coders);
  }

  class LzmaDec {
    const p: Props
    const probs: array<Prob>
    const dic: array<Byte>
    var range: nat
    var code: nat
    var buf: nat  // the place of the next byte in the input
    var state: nat
    var rep0: nat
    var rep1: nat
    var rep2: nat
    var rep3: nat
    var dicPos: nat
    var processedPos: nat
    var checkDicSize: nat
    var remainLen: nat
    const tempBuf: array<Byte>
    var tempBufSize: nat
    var needFlush: bool

    ghost function M(): Machine
      reads `range, `code, `buf, probs
    {
      Machine(Reader(range, code, buf), probs[..])
    }

    /** All fields, as the functions of LzmaStream and LzmaLoop see them. */
    ghost function St(): DecState
      reads `range, `code, `buf, `state, `rep0, `rep1, `rep2, `rep3, `dicPos, `processedPos, `checkDicSize, `remainLen
      reads probs, dic
    {
      DecState(M(), state, rep0, rep1, rep2, rep3, dic[..], dicPos, processedPos, checkDicSize, remainLen)
    }

    /** tempBuf is as it was allocated, and not the dictionary. */
    ghost predicate TempOk()
      reads `tempBufSize
    {
      tempBuf.Length == LZMA_REQUIRED_INPUT_MAX && tempBufSize <= tempBuf.Length && tempBuf != dic
    }

    /** The decoder between turns. */
    ghost function F(): Feed
      requires TempOk()
      reads `range, `code, `buf, `state, `rep0, `rep1, `rep2, `rep3, `dicPos, `processedPos, `checkDicSize, `remainLen
      reads probs, dic, `tempBufSize, `needFlush, tempBuf
    {
      Feed(St(), tempBuf[..tempBufSize], needFlush)
    }

    /** LzmaDec_Init; range and code get their values from the input. */
    constructor (p: Props, dic: array<Byte>)
      requires PropsOk(p)
      ensures this.p == p && this.dic == dic && fresh(probs) && fresh(tempBuf)
      ensures TempOk() && F() == Fresh(p, dic[..])
    {
      this.p, this.dic := p, dic;
      this.probs := new Prob[NumProbs(Coders(p))](_ => PROB_INIT);
      range, code, buf, state, rep0, rep1, rep2, rep3 := 0xFFFF_FFFF, 0, 0, 0, 1, 1, 1, 1;
      dicPos, processedPos, checkDicSize, remainLen := 0, 0, 0, 0;
      tempBuf := new Byte[LZMA_REQUIRED_INPUT_MAX](_ => 0);
      tempBufSize, needFlush := 0, true;
      new;
      assert probs[..] == seq(NumProbs(Coders(p)), _ => PROB_INIT);
      assert tempBuf[..0] == [];
    }

    /** LzmaDec_InitRc on the first five bytes, of which the first has been checked. */
    method InitRc(s: seq<Byte>)
      requires |s| >= 5 && buf == 0
      modifies `range, `code, `needFlush
      ensures Reader(range, code, buf) == InitReader(s).(pos := 0) && !needFlush
    {
      FirstCode(s);
      code := CodeOf(s[1], s[2], s[3], s[4]);
      range := 0xFFFF_FFFF;
      needFlush := false;
    }

    // -------------------------------------------------------------- bits

    /** NORMALIZE; the byte it takes exists. */
    method NormalizeRc(s: seq<Byte>)
      requires range < TOP ==> buf < |s|
      modifies `range, `code, `buf
      ensures Reader(range, code, buf) == Normalize(Reader(old(range), old(code), old(buf)), s)
    {
      if range < TOP {
        range := range * 256 % B32;
        var next: nat := s[buf];
        code := (code * 256 + next) % B32;
        buf := buf + 1;
      }
    }

    /** IF_BIT_0 with UPDATE_0 and UPDATE_1 */
    method GetBit(prob: nat, s: seq<Byte>) returns (bit: Bit)
      requires Wide(range) && prob < probs.Length && (range < TOP ==> buf < |s|)
      modifies `range, `code, `buf, probs
      ensures (M(), bit) == LzmaRun.GetBit(old(M()), s, prob) && Learned(old(probs[prob]), bit, probs[prob])
    {
      var ttt := probs[prob];
      NormalizeRc(s);
      SplitBounds(range, ttt);
      var bound := range / MODEL_TOTAL * ttt;
      if code < bound {
        range := bound;
        probs[prob] := ttt + (MODEL_TOTAL - ttt) / 32;
        bit := 0;
      } else {
        range := range - bound;
        code := code - bound;
        probs[prob] := ttt - ttt / 32;
        bit := 1;
      }
    }

    /** A bit without a model: the half range is subtracted and, if that was too much, added again. */
    method GetDirectBit(s: seq<Byte>) returns (bit: Bit)
      requires Wide(range) && (range < TOP ==> buf < |s|)
      modifies `range, `code, `buf
      ensures (M(), bit) == GetRawBit(old(M()), s)
    {
      NormalizeRc(s);
      range := range / 2;
      code := (code - range) % B32;
      if code / 0x8000_0000 == 1 {
        code := (code + range) % B32;
        bit := 0;
      } else {
        bit := 1;
      }
    }

    /** A modelled bit at a decision point. */
    method Ask(ghost e: Env, ghost ph: Phase, prob: nat, s: seq<Byte>) returns (bit: Bit)
      requires Covered(e, ph, M(), s, Coders(p)) && !ph.Done? && !AsksRaw(ph) && prob == Index(Asked(e, ph))
      modifies `range, `code, `buf, probs
      ensures Covered(e, Next(e, ph, bit), M(), s, Coders(p))
      ensures Rest(e, Next(e, ph, bit), M(), s, Coders(p)) == old(Rest(e, ph, M(), s, Coders(p)))
    {
      hide Index, Asked, PhaseOk, Next, Rest;
      NextByte(e, ph, M(), s, Coders(p));
      RestNext(e, ph, M(), s, Coders(p));
      AnswerModel(e, ph, M(), s, Coders(p), prob);
      bit := GetBit(prob, s);
    }

    // -------------------------------------------------------------- trees

    /** TREE_DECODE; the node number passes the limit when the last bit has been read. */
    method TreeDecode(ghost e: Env, ghost t: TreeUse, prob: nat, limit: nat, s: seq<Byte>) returns (i: nat)
      requires Covered(e, TreeStart(t), M(), s, Coders(p)) && prob == TreeBase(e, t) && limit == Pow2(TreeDepth(t))
      modifies `range, `code, `buf, probs
      ensures i < limit && Covered(e, TreeRead(t, i), M(), s, Coders(p))
      ensures Rest(e, TreeRead(t, i), M(), s, Coders(p)) == old(Rest(e, TreeStart(t), M(), s, Coders(p)))
    {
      hide Next, TreeRead, TreeBase, TreeNode, Index, Rest;
      i := 1;
      ghost var n, ph := TreeDepth(t), TreeStart(t);
      TreeBegins(t);
      while i < limit
        invariant Covered(e, ph, M(), s, Coders(p))
        invariant Rest(e, ph, M(), s, Coders(p)) == old(Rest(e, TreeStart(t), M(), s, Coders(p)))
        invariant ph == if i < limit then AtTree(t, n, i) else TreeRead(t, i - limit)
        invariant i < 2 * limit
        decreases n
      {
        TreePlace(e, t, n, i);
        var bit := Ask(e, ph, prob + i, s);
        NextInTree(e, t, n, i, bit);
        TreeStep(TreeDepth(t), n, i, bit);
        i := 2 * i + bit;
        ph := if n <= 1 then TreeRead(t, i - limit) else AtTree(t, n - 1, i);
        n := if n <= 1 then 0 else n - 1;
      }
      i := i - limit;
    }

    /** The literal predicted from the byte at the last distance. */
    method LitMatched(ghost e: Env, prob: nat, match0: Byte, s: seq<Byte>) returns (byte: Byte)
      requires Covered(e, AtMatched(8, 1, 0x100, 2 * match0), M(), s, Coders(p)) && prob == TreeBase(e, TLit)
      modifies `range, `code, `buf, probs
      ensures Covered(e, Done(Lit(byte)), M(), s, Coders(p))
      ensures Rest(e, Done(Lit(byte)), M(), s, Coders(p))
              == old(Rest(e, AtMatched(8, 1, 0x100, 2 * match0), M(), s, Coders(p)))
    {
      hide Next, Index, Rest, MatchBit, NextOffs;
      var offs: nat := 0x100;
      var matchByte: nat := match0;
      var symbol: nat := 1;
      ghost var n: nat, ph := 8, AtMatched(8, 1, 0x100, 2 * match0);
      while symbol < 0x100
        invariant Covered(e, ph, M(), s, Coders(p))
        invariant Rest(e, ph, M(), s, Coders(p)) == old(Rest(e, AtMatched(8, 1, 0x100, 2 * match0), M(), s, Coders(p)))
        invariant ph == if symbol < 0x100 then AtMatched(n, symbol, offs, 2 * matchByte) else Done(Lit(symbol % 256))
        decreases n
      {
        matchByte := 2 * matchByte;
        var bit := MatchBit(offs, matchByte);
        MatchedPlace(e, n, symbol, offs, matchByte);
        var b := Ask(e, ph, prob + offs + bit + symbol, s);
        NextInMatched(e, n, symbol, offs, matchByte, b);
        TreeStep(8, n, symbol, b);
        Pow2Small();
        OffsMasked(offs, matchByte, b);
        symbol := 2 * symbol + b;
        offs := if b == 0 then (if bit == 0 then offs else 0) else if bit == 0 then 0 else offs;
        ph := if n <= 1 then Done(Lit(symbol % 256)) else AtMatched(n - 1, symbol, offs, 2 * matchByte);
        n := if n <= 1 then 0 else n - 1;
      }
      byte := symbol % 256;
    }

    /** The length decoder: three trees behind two choices. */
    method LenDecode(ghost e: Env, ghost u: LenUse, prob: nat, posState: nat, s: seq<Byte>) returns (len: nat)
      requires Covered(e, AtChoice(u), M(), s, Coders(p)) && prob == LenBase(u.ForRep?) && posState == e.posState
      modifies `range, `code, `buf, probs
      ensures len < 272 && Covered(e, LenRead(u, len), M(), s, Coders(p))
      ensures Rest(e, LenRead(u, len), M(), s, Coders(p)) == old(Rest(e, AtChoice(u), M(), s, Coders(p)))
    {
      hide Rest, LenRead;
      Pow2Small();
      var b := Ask(e, AtChoice(u), prob, s);
      if b == 0 {
        len := TreeDecode(e, TLow(u), prob + 2 + 8 * posState, 8, s);
      } else {
        b := Ask(e, AtChoice2(u), prob + 1, s);
        if b == 0 {
          len := TreeDecode(e, TMid(u), prob + 130 + 8 * posState, 8, s);
          len := len + 8;
        } else {
          len := TreeDecode(e, THigh(u), prob + 258, 256, s);
          len := len + 16;
        }
      }
    }

    // -------------------------------------------------------------- distances

    /** A bit without a model at a decision point. */
    method AskDirect(ghost e: Env, ghost ph: Phase, s: seq<Byte>) returns (bit: Bit)
      requires Covered(e, ph, M(), s, Coders(p)) && AsksRaw(ph)
      modifies `range, `code, `buf
      ensures Covered(e, Next(e, ph, bit), M(), s, Coders(p))
      ensures Rest(e, Next(e, ph, bit), M(), s, Coders(p)) == old(Rest(e, ph, M(), s, Coders(p)))
    {
      hide PhaseOk, Next, Rest;
      NextByte(e, ph, M(), s, Coders(p));
      RestNext(e, ph, M(), s, Coders(p));
      bit := GetDirectBit(s);
    }

    /** The low bits of a distance by the models of its slot, lowest first. */
    method SpecDecode(ghost e: Env, ghost len: nat, prob: nat, numBits: nat, distance0: nat, s: seq<Byte>)
      returns (distance: nat)
      requires prob >= SPEC_POS - 1
      requires Covered(e, AtSpec(len, prob - SPEC_POS, numBits, 1, 1, distance0), M(), s, Coders(p))
      modifies `range, `code, `buf, probs
      ensures Covered(e, Done(Match(distance, len)), M(), s, Coders(p))
      ensures Rest(e, Done(Match(distance, len)), M(), s, Coders(p))
              == old(Rest(e, AtSpec(len, prob - SPEC_POS, numBits, 1, 1, distance0), M(), s, Coders(p)))
    {
      hide Rest, Shl;
      distance := distance0;
      var mask: nat, i: nat, n: nat := 1, 1, numBits;
      ghost var ph := AtSpec(len, prob - SPEC_POS, numBits, 1, 1, distance0);
      while n != 0
        invariant Covered(e, ph, M(), s, Coders(p))
        invariant Rest(e, ph, M(), s, Coders(p))
                  == old(Rest(e, AtSpec(len, prob - SPEC_POS, numBits, 1, 1, distance0), M(), s, Coders(p)))
        invariant ph == if n > 0 then AtSpec(len, prob - SPEC_POS, n, i, mask, distance) else Done(Match(distance, len))
      {
        var bit := Ask(e, ph, prob + i, s);
        distance := distance + (if bit == 1 then mask else 0);
        ph := Next(e, ph, bit);
        mask := 2 * mask;
        i := 2 * i + bit;
        n := n - 1;
      }
    }

    /** The bits of a far distance: direct bits from the top, then four by the align models. */
    method FarDecode(ghost e: Env, ghost len: nat, numBits: nat, distance0: nat, s: seq<Byte>) returns (distance: nat)
      requires Covered(e, AtDirect(len, distance0, numBits), M(), s, Coders(p))
      modifies `range, `code, `buf, probs
      ensures Covered(e, Done(Match(distance, len)), M(), s, Coders(p))
      ensures Rest(e, Done(Match(distance, len)), M(), s, Coders(p))
              == old(Rest(e, AtDirect(len, distance0, numBits), M(), s, Coders(p)))
    {
      hide Rest, Shl;
      distance := distance0;
      var n: nat := numBits;
      ghost var ph := AtDirect(len, distance0, numBits);
      while n != 0
        invariant Covered(e, ph, M(), s, Coders(p))
        invariant Rest(e, ph, M(), s, Coders(p)) == old(Rest(e, AtDirect(len, distance0, numBits), M(), s, Coders(p)))
        invariant ph == if n > 0 then AtDirect(len, distance, n) else AtAlign(len, 16 * distance, 4, 1, 1)
      {
        var bit := AskDirect(e, ph, s);
        ph := Next(e, ph, bit);
        distance := 2 * distance + bit;
        n := n - 1;
      }
      distance := AlignDecode(e, len, 16 * distance, s);
    }

    method AlignDecode(ghost e: Env, ghost len: nat, distance0: nat, s: seq<Byte>) returns (distance: nat)
      requires Covered(e, AtAlign(len, distance0, 4, 1, 1), M(), s, Coders(p))
      modifies `range, `code, `buf, probs
      ensures Covered(e, Done(Match(distance, len)), M(), s, Coders(p))
      ensures Rest(e, Done(Match(distance, len)), M(), s, Coders(p))
              == old(Rest(e, AtAlign(len, distance0, 4, 1, 1), M(), s, Coders(p)))
    {
      hide Rest, Next, PhaseOk;
      var i;
      distance, i := AlignBit(e, len, distance0, 4, 1, 1, s);
      distance, i := AlignBit(e, len, distance, 3, i, 2, s);
      distance, i := AlignBit(e, len, distance, 2, i, 4, s);
      distance, i := AlignBit(e, len, distance, 1, i, 8, s);
    }

    method AlignBit(ghost e: Env, ghost len: nat, distance0: nat, ghost n: nat, i0: nat, mask: nat, s: seq<Byte>)
      returns (distance: nat, i: nat)
      requires n >= 1 && Covered(e, AtAlign(len, distance0, n, i0, mask), M(), s, Coders(p))
      modifies `range, `code, `buf, probs
      ensures Covered(e, AfterAlign(len, distance, n, i, mask), M(), s, Coders(p))
      ensures Rest(e, AfterAlign(len, distance, n, i, mask), M(), s, Coders(p))
              == old(Rest(e, AtAlign(len, distance0, n, i0, mask), M(), s, Coders(p)))
    {
      hide Rest, Next, PhaseOk;
      var bit := Ask(e, AtAlign(len, distance0, n, i0, mask), ALIGN + i0, s);
      NextInAlign(e, len, distance0, n, i0, mask, bit);
      distance := distance0 + (if bit == 1 then mask else 0);
      i := 2 * i0 + bit;
    }

    /** The slot and the bits it calls for; len is the length less two. */
    method DistDecode(ghost e: Env, len: nat, s: seq<Byte>) returns (distance: nat)
      requires Covered(e, TreeStart(TSlot(len + 2)), M(), s, Coders(p))
      modifies `range, `code, `buf, probs
      ensures Covered(e, Done(Match(distance, len + 2)), M(), s, Coders(p))
      ensures Rest(e, Done(Match(distance, len + 2)), M(), s, Coders(p))
              == old(Rest(e, TreeStart(TSlot(len + 2)), M(), s, Coders(p)))
    {
      hide Rest, PhaseOk, Shl;
      Pow2Small();
      var posSlot := TreeDecode(e, TSlot(len + 2), POS_SLOT + 64 * (if len < 4 then len else 3), 64, s);
      distance := posSlot;
      if posSlot >= 4 {
        var numDirectBits := posSlot / 2 - 1;
        distance := 2 + posSlot % 2;
        if posSlot < 14 {
          ShlTwoThree(numDirectBits);
          distance := Shl(distance, numDirectBits);
          distance := SpecDecode(e, len + 2, SPEC_POS + distance - posSlot - 1, numDirectBits, distance, s);
        } else {
          distance := FarDecode(e, len + 2, numDirectBits - 4, distance, s);
        }
      }
    }

    // -------------------------------------------------------------- packets

    /** Writes a match as far as the limit allows, through the end of the buffer if need be. */
    method CopyMatch(len: nat, limit: nat) returns (res: Res)
      requires dicPos <= limit <= dic.Length && len >= 1 && rep0 >= 1
      requires dicPos < limit ==> 0 <= Source(dicPos, rep0, dic.Length) < dic.Length
      modifies dic, `dicPos, `processedPos, `remainLen
      ensures Leaves(res, St(), CopyPart(old(St()), len, limit))
    {
      hide Word;
      if limit == dicPos { return ErrorData; }
      var rem := limit - dicPos;
      var curLen: nat := if rem < len then rem else len;
      var pos: nat := Source(dicPos, rep0, dic.Length);
      processedPos := Word(processedPos + curLen);
      remainLen := len - curLen;
      if pos + curLen <= dic.Length {
        CopyStraight(pos, curLen);
      } else {
        CopyAround(pos, curLen);
      }
      return Ok;
    }

    method CopyStraight(pos: nat, curLen: nat)
      requires pos == Source(dicPos, rep0, dic.Length) && rep0 >= 1 && pos + curLen <= dic.Length
               && dicPos + curLen <= dic.Length
      modifies dic, `dicPos
      ensures dic[..] == CopyRun(old(dic[..]), old(dicPos), rep0, curLen) && dicPos == old(dicPos) + curLen
    {
      var dest: nat := dicPos;
      var src := pos - dicPos;
      var lim := dest + curLen;
      dicPos := dicPos + curLen;
      while dest != lim
        invariant old(dicPos) <= dest <= lim && dicPos == lim
        invariant CopyRun(dic[..], dest, rep0, lim - dest) == CopyRun(old(dic[..]), old(dicPos), rep0, curLen)
      {
        CopyRunNext(dic[..], dest, rep0, lim - dest);
        dic[dest] := dic[dest + src];
        dest := dest + 1;
      }
    }

    method CopyAround(pos0: nat, curLen0: nat)
      requires pos0 == Source(dicPos, rep0, dic.Length) && rep0 >= 1 && pos0 < dic.Length
               && dicPos + curLen0 <= dic.Length
      modifies dic, `dicPos
      ensures dic[..] == CopyRun(old(dic[..]), old(dicPos), rep0, curLen0) && dicPos == old(dicPos) + curLen0
    {
      var pos: nat, curLen: nat := pos0, curLen0;
      while curLen != 0
        invariant curLen <= curLen0 && dicPos == old(dicPos) + (curLen0 - curLen)
        invariant curLen > 0 ==> pos == Source(dicPos, rep0, dic.Length) < dic.Length
        invariant CopyRun(dic[..], dicPos, rep0, curLen) == CopyRun(old(dic[..]), old(dicPos), rep0, curLen0)
      {
        CopyRunNext(dic[..], dicPos, rep0, curLen);
        dic[dicPos] := dic[pos];
        dicPos := dicPos + 1;
        pos := pos + 1;
        if pos == dic.Length { pos := 0; }
        curLen := curLen - 1;
      }
    }

    /** The byte of a literal, by the coder of its place and predicted after a match. */
    method LiteralByte(ghost e: Env, s: seq<Byte>) returns (byte: Byte)
      requires Covered(e, Next(e, AtIsMatch, 0), M(), s, Coders(p)) && e == DecEnv0(p, St()) && p.lc <= 8
      requires dicPos <= dic.Length && ((checkDicSize != 0 || processedPos != 0) ==> dic.Length > 0)
      requires state >= NUM_LIT_STATES ==> 0 <= Source(dicPos, rep0, dic.Length) < dic.Length
      modifies `range, `code, `buf, probs
      ensures (M(), Lit(byte)) == old(Rest(e, Next(e, AtIsMatch, 0), M(), s, Coders(p)))
    {
      hide Rest, PhaseOk, LitCoder, Next;
      LiteralPhase(e);
      var prob := LITERAL;
      if checkDicSize != 0 || processedPos != 0 {
        prob := prob + LIT_SIZE * LitCoder(p, processedPos, dic[(if dicPos == 0 then dic.Length else dicPos) - 1]);
      }
      if state < NUM_LIT_STATES {
        Pow2Small();
        byte := TreeDecode(e, TLit, prob, 0x100, s);
      } else {
        byte := LitMatched(e, prob, dic[Source(dicPos, rep0, dic.Length)], s);
      }
      SoundDone(e, Lit(byte), M(), s, Coders(p));
    }

    /** The literal branch. */
    method DecodeLiteral(ghost e: Env, ghost limit: nat, s: seq<Byte>)
      requires Covered(e, Next(e, AtIsMatch, 0), M(), s, Coders(p)) && e == DecEnv0(p, St()) && p.lc <= 8
      requires dicPos <= limit <= dic.Length && ((checkDicSize != 0 || processedPos != 0) ==> dic.Length > 0)
      requires state >= NUM_LIT_STATES ==> 0 <= Source(dicPos, rep0, dic.Length) < dic.Length
      requires dicPos == limit ==> Rest(e, Next(e, AtIsMatch, 0), M(), s, Coders(p)).1.Match?
      modifies `range, `code, `buf, `state, `rep0, `rep1, `rep2, `rep3, `dicPos, `processedPos, `remainLen, probs, dic
      ensures var (m', pkt) := old(Rest(e, Next(e, AtIsMatch, 0), M(), s, Coders(p)));
              pkt.Lit? && St() == AfterLit(old(St()).(m := m'), pkt.byte)
    {
      hide Rest, Word, Sound, Next, DecEnv0;
      var byte := LiteralByte(e, s);
      state := state - (if state < 4 then state else if state < 10 then 3 else 6);
      dic[dicPos] := byte;
      dicPos := dicPos + 1;
      processedPos := Word(processedPos + 1);
      remainLen := 0;
    }

    /** Which of the four distances is repeated, or the short form of the first. */
    method WhichRep(ghost e: Env, posState: nat, s: seq<Byte>) returns (short: bool, k: nat)
      requires Covered(e, AtRepG0, M(), s, Coders(p)) && e.state == state && e.posState == posState
      modifies `range, `code, `buf, probs
      ensures k < 4 && Covered(e, if short then Done(ShortRep) else AtChoice(ForRep(k)), M(), s, Coders(p))
      ensures Rest(e, if short then Done(ShortRep) else AtChoice(ForRep(k)), M(), s, Coders(p))
              == old(Rest(e, AtRepG0, M(), s, Coders(p)))
    {
      hide Rest, Next, Asked, Index, Sound;
      short, k := false, 0;
      RepPlaces(e);
      var bit := Ask(e, AtRepG0, IS_REP_G0 + state, s);
      if bit == 0 {
        bit := Ask(e, AtRep0Long, IS_REP0_LONG + state * 16 + posState, s);
        short := bit == 0;
      } else {
        bit := Ask(e, AtRepG1, IS_REP_G1 + state, s);
        if bit == 0 {
          k := 1;
        } else {
          bit := Ask(e, AtRepG2, IS_REP_G2 + state, s);
          k := if bit == 0 then 2 else 3;
        }
      }
    }

    /** The repeated distance becomes the first. */
    method MoveToFront(k: nat)
      requires k < 4
      modifies `rep0, `rep1, `rep2, `rep3
      ensures St() == RepsRotated(old(St()), k)
    {
      if k != 0 {
        var distance;
        if k == 1 {
          distance := rep1;
        } else {
          if k == 2 {
            distance := rep2;
          } else {
            distance := rep3;
            rep3 := rep2;
          }
          rep2 := rep1;
        }
        rep1 := rep0;
        rep0 := distance;
      }
    }

    /** One byte from the last distance. */
    method CopyOne()
      requires dicPos < dic.Length && 0 <= Source(dicPos, rep0, dic.Length) < dic.Length
      modifies dic, `dicPos, `processedPos, `state, `remainLen
      ensures St() == AfterShortRep(old(St()))
    {
      hide Word;
      CopyRunNext(dic[..], dicPos, rep0, 1);
      dic[dicPos] := dic[Source(dicPos, rep0, dic.Length)];
      dicPos := dicPos + 1;
      processedPos := Word(processedPos + 1);
      state := if state < NUM_LIT_STATES then 9 else 11;
      remainLen := 0;
    }

    /** The rest of a packet with a repeated distance: which one, and the length. */
    method ReadRep(ghost e: Env, posState: nat, s: seq<Byte>) returns (short: bool, k: nat, len: nat)
      requires Covered(e, AtRepG0, M(), s, Coders(p)) && e.state == state && e.posState == posState
      modifies `range, `code, `buf, probs
      ensures k < 4 && len < 272
      ensures (M(), if short then ShortRep else Rep(k, len + 2)) == old(Rest(e, AtRepG0, M(), s, Coders(p)))
    {
      hide Rest, Next;
      len := 0;
      short, k := WhichRep(e, posState, s);
      if !short { len := LenDecode(e, ForRep(k), REP_LEN_CODER, posState, s); }
      SoundDone(e, if short then ShortRep else Rep(k, len + 2), M(), s, Coders(p));
    }

    /** The branch of the repeated distances. */
    method DecodeRep(ghost e: Env, ghost total: nat, posState: nat, limit: nat, s: seq<Byte>) returns (res: Res)
      requires Covered(e, AtRepG0, M(), s, Coders(p)) && DecOk(p, St(), total) && total > 0
      requires e.state == state && e.posState == posState && !(checkDicSize == 0 && processedPos == 0)
      requires dicPos <= limit <= dic.Length
      requires dicPos == limit ==> Rest(e, AtRepG0, M(), s, Coders(p)).1.Match?
      modifies `range, `code, `buf, `state, `rep0, `rep1, `rep2, `rep3, `dicPos, `processedPos, `remainLen, probs, dic
      ensures var (m', pkt) := old(Rest(e, AtRepG0, M(), s, Coders(p)));
              Encodable(pkt) && Leaves(res, St(), Apply(old(St()).(m := m'), pkt, limit))
    {
      hide Rest, Sound, CopyPart, AfterShortRep, RepsRotated, DecOk, Source;
      ghost var st := St();
      var short, k, len := ReadRep(e, posState, s);
      RepsInside(p, st, total, if short then 0 else k, M());
      if short {
        Fields(St());
        CopyOne();
        return Ok;
      }
      MoveToFront(k);
      Fields(St());
      state := if state < NUM_LIT_STATES then 8 else 11;
      res := CopyMatch(len + 2, limit);
    }

    /** The rest of a packet with a new distance. */
    method ReadMatch(ghost e: Env, posState: nat, s: seq<Byte>) returns (distance: nat, len: nat)
      requires Covered(e, AtChoice(ForMatch), M(), s, Coders(p)) && e.posState == posState
      modifies `range, `code, `buf, probs
      ensures len < 272 && distance < B32
      ensures (M(), Match(distance, len + 2)) == old(Rest(e, AtChoice(ForMatch), M(), s, Coders(p)))
    {
      hide Rest, Next;
      len := LenDecode(e, ForMatch, LEN_CODER, posState, s);
      distance := DistDecode(e, len, s);
      SoundDone(e, Match(distance, len + 2), M(), s, Coders(p));
    }

    /** The branch of a new distance: the end mark, a distance out of reach, or a copy. */
    method DecodeMatch(ghost e: Env, ghost total: nat, posState: nat, limit: nat, s: seq<Byte>) returns (res: Res)
      requires Covered(e, AtChoice(ForMatch), M(), s, Coders(p)) && DecOk(p, St(), total) && e.posState == posState
      requires dicPos <= limit <= dic.Length
      modifies `range, `code, `buf, `state, `rep0, `rep1, `rep2, `rep3, `dicPos, `processedPos, `remainLen, probs, dic
      ensures var (m', pkt) := old(Rest(e, AtChoice(ForMatch), M(), s, Coders(p)));
              Encodable(pkt) && Leaves(res, St(), Apply(old(St()).(m := m'), pkt, limit))
    {
      hide Rest, Sound, CopyPart, DecOk, Source;
      ghost var st := St();
      var distance, len := ReadMatch(e, posState, s);
      if distance == END_DISTANCE {
        remainLen := len + MATCH_SPEC_LEN_START;
        return End;
      }
      rep3 := rep2;
      rep2 := rep1;
      rep1 := rep0;
      rep0 := distance + 1;
      if checkDicSize == 0 {
        if distance >= processedPos { return ErrorData; }
      } else if distance >= checkDicSize {
        return ErrorData;
      }
      state := if state < NUM_LIT_STATES then 7 else 10;
      NewDistanceInside(p, st, total, distance);
      Fields(St());
      res := CopyMatch(len + 2, limit);
    }

    /** The branches of a match. */
    method DecodeCopy(ghost e: Env, ghost total: nat, posState: nat, limit: nat, s: seq<Byte>) returns (res: Res)
      requires Covered(e, AtIsRep, M(), s, Coders(p)) && DecOk(p, St(), total) && e.state == state && e.posState == posState
      requires dicPos <= limit <= dic.Length
      requires dicPos == limit ==> Rest(e, AtIsRep, M(), s, Coders(p)).1.Match?
      modifies `range, `code, `buf, `state, `rep0, `rep1, `rep2, `rep3, `dicPos, `processedPos, `remainLen, probs, dic
      ensures var (m', pkt) := old(Rest(e, AtIsRep, M(), s, Coders(p)));
              Encodable(pkt) && Leaves(res, St(), Apply(old(St()).(m := m'), pkt, limit))
    {
      hide Rest, Next, Asked, Index, Apply, DecOk, PhaseOk;
      ghost var st := St();
      FirstPlaces(e);
      EnvFields(p, st, total);
      var bit := Ask(e, AtIsRep, IS_REP + state, s);
      DecOkReader(p, st, total, M());
      if bit == 0 {
        res := DecodeMatch(e, total, posState, limit, s);
      } else {
        ghost var (m', pkt) := Rest(e, AtRepG0, M(), s, Coders(p));
        RepsOnly(e, M(), s, Coders(p));
        if checkDicSize == 0 && processedPos == 0 {
          NoReps(st.(m := m'), pkt, limit);
          return ErrorData;
        }
        res := DecodeRep(e, total, posState, limit, s);
      }
    }

    /** One turn of the loop of LzmaDec_DecodeReal. */
    method DecodeOne(ghost total: nat, s: seq<Byte>, limit: nat) returns (res: Res)
      requires LimitOk(p, St(), total, s, limit) && PacketFits(p, St(), total, s)
      modifies `range, `code, `buf, `state, `rep0, `rep1, `rep2, `rep3, `dicPos, `processedPos, `remainLen, probs, dic
      ensures Leaves(res, St(), DecodePacket(p, old(St()), total, s, limit))
    {
      hide Rest, Run, Next, Asked, Index, DecEnv, Apply, Source, PhaseOk;
      ghost var st := St();
      DecEnvOk(p, st, total);
      DecodePacketReads(p, st, total, s, limit);
      ghost var e := DecEnv(p, st);
      EnvFields(p, st, total);
      StartOk(e, M(), s, Coders(p));
      FirstPlaces(e);
      var posState := Trunc(processedPos, p.pb);
      var bit := Ask(e, AtIsMatch, state * 16 + posState, s);
      if bit == 0 {
        ghost var (m', pkt) := Rest(e, Next(e, AtIsMatch, 0), M(), s, Coders(p));
        DecodeLiteral(e, limit, s);
        LiteralApplies(st.(m := m'), pkt, limit);
        return Ok;
      }
      DecOkReader(p, st, total, M());
      res := DecodeCopy(e, total, posState, limit, s);
    }

    // -------------------------------------------------------------- loops

    /** The loop of LzmaDec_DecodeReal: the first packet is always decoded, later ones while output and input allow. */
    method DecodePackets(ghost total: nat, s: seq<Byte>, limit: nat, bufLimit: int) returns (res: Res)
      requires LimitOk(p, St(), total, s, limit) && LoopFits(p, St(), total, s, limit, bufLimit)
      modifies `range, `code, `buf, `state, `rep0, `rep1, `rep2, `rep3, `dicPos, `processedPos, `remainLen, probs, dic
      ensures Leaves(res, St(), DecodeLoop(p, old(St()), total, s, limit, bufLimit))
      ensures res != ErrorData && range < TOP ==> buf < |s|
    {
      hide DecodePacket, DecodeLoop, LoopFits, DecOk, NextPacket, LimitOk, PacketFits;
      ghost var now: nat := total;
      while true
        invariant LimitOk(p, St(), now, s, limit) && LoopFits(p, St(), now, s, limit, bufLimit)
        invariant DecodeLoop(p, St(), now, s, limit, bufLimit) == DecodeLoop(p, old(St()), total, s, limit, bufLimit)
        decreases limit - dicPos
      {
        ghost var st := St();
        LoopTurn(p, st, now, s, limit, bufLimit);
        res := DecodeOne(now, s, limit);
        if res != Ok { return; }
        Fields(St());
        if !(dicPos < limit && buf < bufLimit) { return; }
        now := now + (dicPos - st.dicPos);
      }
    }

    /** The fields as they were before the loop worked on copies of them. */
    method LeaveFields(was: Locals, ghost st: DecState)
      requires was == LocalsOf(st) && st.checkDicSize == checkDicSize
      modifies `range, `code, `buf, `state, `rep0, `rep1, `rep2, `rep3, `dicPos, `processedPos, `remainLen
      ensures SameButProbs(St(), st.(dic := dic[..]))
    {
      range, code, buf, state := was.range, was.code, was.buf, was.state;
      rep0, rep1, rep2, rep3 := was.rep0, was.rep1, was.rep2, was.rep3;
      dicPos, processedPos, remainLen := was.dicPos, was.processedPos, was.remainLen;
    }

    /** LzmaDec_DecodeReal: the fields are written back only behind the loop, so that an error leaves them alone. */
    method DecodeReal(ghost total: nat, s: seq<Byte>, limit: nat, bufLimit: int) returns (res: Res)
      requires LimitOk(p, St(), total, s, limit) && LoopFits(p, St(), total, s, limit, bufLimit)
      modifies `range, `code, `buf, `state, `rep0, `rep1, `rep2, `rep3, `dicPos, `processedPos, `remainLen, probs, dic
      ensures Yields(res, St(), NormalizedOutcome(old(St()), DecodeLoop(p, old(St()), total, s, limit, bufLimit), s))
    {
      hide DecodeLoop, LoopFits, LimitOk, DecOk, NextPacket, Normal, MachineOk;
      var was := Locals(range, code, buf, state, rep0, rep1, rep2, rep3, dicPos, processedPos, remainLen);
      res := DecodePackets(total, s, limit, bufLimit);
      if res == ErrorData {
        LeaveFields(was, old(St()));
      } else {
        NormalizeRc(s);
      }
    }

    /** LzmaDec_WriteRem */
    method WriteRemainder(limit: nat)
      requires dicPos <= limit <= dic.Length && rep0 >= 1
      requires 0 < remainLen < MATCH_SPEC_LEN_START ==> 0 <= Source(dicPos, rep0, dic.Length) < dic.Length
      modifies dic, `dicPos, `processedPos, `remainLen, `checkDicSize
      ensures St() == WriteRem(p, old(St()), limit)
    {
      hide Word;
      if remainLen != 0 && remainLen < MATCH_SPEC_LEN_START {
        var len: nat := remainLen;
        if limit - dicPos < len { len := limit - dicPos; }
        if checkDicSize == 0 && p.dicSize - processedPos <= len { checkDicSize := p.dicSize; }
        processedPos := Word(processedPos + len);
        remainLen := remainLen - len;
        CopyForward(len);
      }
    }

    method CopyForward(len0: nat)
      requires dicPos + len0 <= dic.Length && rep0 >= 1
      requires 0 <= Source(dicPos, rep0, dic.Length) < dic.Length
      modifies dic, `dicPos
      ensures dic[..] == CopyRun(old(dic[..]), old(dicPos), rep0, len0) && dicPos == old(dicPos) + len0
    {
      var len: nat := len0;
      while len != 0
        invariant len <= len0 && dicPos == old(dicPos) + (len0 - len)
        invariant len > 0 ==> 0 <= Source(dicPos, rep0, dic.Length) < dic.Length
        invariant CopyRun(dic[..], dicPos, rep0, len) == CopyRun(old(dic[..]), old(dicPos), rep0, len0)
      {
        CopyRunNext(dic[..], dicPos, rep0, len);
        len := len - 1;
        dic[dicPos] := dic[Source(dicPos, rep0, dic.Length)];
        dicPos := dicPos + 1;
      }
    }

    /** One round of LzmaDec_DecodeReal2: never past the point where the dictionary becomes full. */
    method DecodeRound(ghost base: nat, s: seq<Byte>, limit: nat, bufLimit: int) returns (res: Res)
      requires MayDecode(p, St(), base, s, limit) && RoundFits(p, St(), base, s, limit, bufLimit)
      modifies `range, `code, `buf, `state, `rep0, `rep1, `rep2, `rep3, `dicPos, `processedPos, `remainLen, `checkDicSize
      modifies probs, dic
      ensures Yields(res, St(), Round(p, old(St()), base, s, limit, bufLimit))
    {
      hide DecodeLoop, LoopFits, DecOk, NextPacket, LimitOk, WriteRem, Word, Source;
      ghost var st := St();
      CappedLimitOk(p, st, base, s, limit);
      RoundSettles(p, st, base, s, limit, bufLimit);
      var limit2 := limit;
      if checkDicSize == 0 {
        var rem := p.dicSize - processedPos;
        if 0 <= rem < limit - dicPos { limit2 := dicPos + rem; }
      }
      Fields(St());
      res := DecodeReal(base + dicPos, s, limit2, bufLimit);
      if res == ErrorData { return; }
      if processedPos >= p.dicSize { checkDicSize := p.dicSize; }
      Fields(St());
      WriteRemainder(limit);
    }

    /** LzmaDec_DecodeReal2 */
    method DecodeReal2(ghost base: nat, s: seq<Byte>, limit: nat, bufLimit: int) returns (res: Res)
      requires MayDecode(p, St(), base, s, limit) && Decode2Fits(p, St(), base, s, limit, bufLimit)
      modifies `range, `code, `buf, `state, `rep0, `rep1, `rep2, `rep3, `dicPos, `processedPos, `remainLen, `checkDicSize
      modifies probs, dic
      ensures Yields(res, St(), Decode2(p, old(St()), base, s, limit, bufLimit))
    {
      hide Round, RoundFits, Decode2, Decode2Fits, NextPacket, Settled;
      while true
        invariant MayDecode(p, St(), base, s, limit) && Decode2Fits(p, St(), base, s, limit, bufLimit)
        invariant Decode2(p, St(), base, s, limit, bufLimit) == Decode2(p, old(St()), base, s, limit, bufLimit)
        decreases limit - dicPos
      {
        RoundTurn(p, St(), base, s, limit, bufLimit);
        res := DecodeRound(base, s, limit, bufLimit);
        if res == ErrorData { return; }
        if !(dicPos < limit && buf < bufLimit && remainLen < MATCH_SPEC_LEN_START) { break; }
      }
      if remainLen > MATCH_SPEC_LEN_START { remainLen := MATCH_SPEC_LEN_START; }
    }

    // -------------------------------------------------------------- a call

    /** LzmaDec_TryDummy on what is left of the input. */
    method TryDummySymbol(ghost total: nat, s: seq<Byte>) returns (res: Dry.Dummy)
      requires DecOk(p, St(), total)
      ensures res == Dry.Kind(TryDummy(p, St(), total, s))
    {
      hide DecOk, DryRun, DecEnv, Source;
      DecEnvOk(p, St(), total);
      EnvFields(p, St(), total);
      PropsBound(p, St(), total);
      var posState := Trunc(processedPos, p.pb);
      var coder := 0;
      if checkDicSize != 0 || processedPos != 0 {
        coder := LitCoder(p, processedPos, dic[(if dicPos == 0 then dic.Length else dicPos) - 1]);
      }
      var matchByte: Byte := 0;
      if state >= NUM_LIT_STATES { matchByte := dic[Source(dicPos, rep0, dic.Length)]; }
      var e := Env(state, posState, coder, matchByte);
      EnvIs(p, St(), e);
      var dry := new Dry.DryReader(Dry.Fixed(probs[..], s, |s|, Coders(p)), range, code, buf);
      res := dry.SymbolCheck(e);
    }

    /** Bytes of the input are appended to tempBuf until it holds as many as wanted. */
    method FillTemp(src: seq<Byte>, size: nat) returns (used: nat)
      requires TempOk() && tempBufSize <= size <= LZMA_REQUIRED_INPUT_MAX
      modifies tempBuf, `tempBufSize
      ensures TempOk() && used == (if |src| < size - old(tempBufSize) then |src| else size - old(tempBufSize))
      ensures tempBufSize == old(tempBufSize) + used && tempBuf[..tempBufSize] == old(tempBuf[..tempBufSize]) + src[..used]
    {
      used := 0;
      while used < |src| && tempBufSize < size
        invariant TempOk() && used <= |src| && tempBufSize == old(tempBufSize) + used <= size
        invariant tempBuf[..tempBufSize] == old(tempBuf[..tempBufSize]) + src[..used]
      {
        tempBuf[tempBufSize] := src[used];
        tempBufSize := tempBufSize + 1;
        used := used + 1;
        assert src[..used] == src[..used - 1] + [src[used - 1]];
      }
    }

    /** The input pointer is taken up anew by the next turn. */
    method LeaveBuf() returns (place: nat)
      modifies `buf
      ensures place == old(buf) && St() == Rebased(old(St()))
      ensures forall was :: SameButProbs(old(St()), was) ==> SameButProbs(St(), Rebased(was))
    {
      place := buf;
      buf := 0;
    }

    /** The block for needFlush: the first five bytes may come in pieces. */
    method StartRc(src: seq<Byte>) returns (done: bool, ok: bool, status: Status, used: nat)
      requires TempOk() && needFlush && tempBufSize < INIT_SIZE && buf == 0
      modifies tempBuf, `tempBufSize, `range, `code, `needFlush
      ensures TempOk() && TurnIs(StartTurn(old(F()), src), done, ok, status, used, F())
    {
      ghost var f := F();
      used := FillTemp(src, INIT_SIZE);
      assert tempBuf[..tempBufSize] == InitPart(f, src);
      if tempBufSize < INIT_SIZE { return true, true, NeedsMoreInput, used; }
      if tempBuf[0] != 0 { return true, false, NotSpecified, used; }
      InitRc(tempBuf[..tempBufSize]);
      tempBufSize := 0;
      return false, true, NotSpecified, used;
    }

    /** The block for input that stands in the caller's memory. */
    method DecodeDirect(ghost base: nat, src: seq<Byte>, dicLimit: nat, ghost finishEnd: bool)
      returns (done: bool, ok: bool, status: Status, used: nat)
      requires TempOk() && FeedReady(p, F(), base, dicLimit) && !needFlush && tempBufSize == 0
      requires MayGoOn(St(), dicLimit, finishEnd)
      modifies `range, `code, `buf, `state, `rep0, `rep1, `rep2, `rep3, `dicPos, `processedPos, `remainLen, `checkDicSize
      modifies probs, dic, tempBuf, `tempBufSize
      ensures TempOk() && TurnIs(OneFeed(p, old(F()), base, src, dicLimit, finishEnd), done, ok, status, used, F())
    {
      hide FeedReady, OneFeed, TryDummy, Decode2, Decode2Fits, MayDecode, SameButProbs, MayGoOn;
      ghost var f := F();
      FeedPlace(p, f, base, dicLimit);
      FeedCases(p, f, base, src, dicLimit, finishEnd);
      SameSelf(f);
      var checkEndMarkNow := dicPos >= dicLimit;
      var bufLimit: int;
      if |src| < LZMA_REQUIRED_INPUT_MAX || checkEndMarkNow {
        var dummyRes := TryDummySymbol(base + dicPos, src);
        if dummyRes == Dry.DummyError {
          used := FillTemp(src, LZMA_REQUIRED_INPUT_MAX);
          assert tempBuf[..tempBufSize] == src;
          return true, true, NeedsMoreInput, used;
        }
        if checkEndMarkNow && dummyRes != Dry.DummyMatch { return true, false, NotFinished, 0; }
        bufLimit := 0;
      } else {
        bufLimit := |src| - LZMA_REQUIRED_INPUT_MAX;
      }
      var res := DecodeReal2(base, src, dicLimit, bufLimit);
      used := LeaveBuf();
      if res == ErrorData { return true, false, NotSpecified, 0; }
      return false, true, NotSpecified, used;
    }

    /** The block for input of which the beginning is kept in tempBuf: one packet is decoded from there. */
    method DecodeKept(ghost base: nat, src: seq<Byte>, dicLimit: nat, ghost finishEnd: bool)
      returns (done: bool, ok: bool, status: Status, used: nat)
      requires TempOk() && FeedReady(p, F(), base, dicLimit) && !needFlush && tempBufSize > 0
      requires MayGoOn(St(), dicLimit, finishEnd)
      modifies `range, `code, `buf, `state, `rep0, `rep1, `rep2, `rep3, `dicPos, `processedPos, `remainLen, `checkDicSize
      modifies probs, dic, tempBuf, `tempBufSize
      ensures TempOk() && TurnIs(OneFeed(p, old(F()), base, src, dicLimit, finishEnd), done, ok, status, used, F())
    {
      hide FeedReady, OneFeed, TryDummy, Decode2, Decode2Fits, MayDecode, SameButProbs, MayGoOn;
      ghost var f := F();
      FeedPlace(p, f, base, dicLimit);
      FeedCases(p, f, base, src, dicLimit, finishEnd);
      SameSelf(f);
      var lookAhead := FillTemp(src, LZMA_REQUIRED_INPUT_MAX);
      var rem := tempBufSize;
      assert tempBuf[..rem] == View(f, src);
      var checkEndMarkNow := dicPos >= dicLimit;
      if rem < LZMA_REQUIRED_INPUT_MAX || checkEndMarkNow {
        var dummyRes := TryDummySymbol(base + dicPos, tempBuf[..rem]);
        if dummyRes == Dry.DummyError { return true, true, NeedsMoreInput, lookAhead; }
        if checkEndMarkNow && dummyRes != Dry.DummyMatch { return true, false, NotFinished, 0; }
      }
      var res := DecodeReal2(base, tempBuf[..rem], dicLimit, buf);
      var place := LeaveBuf();
      if res == ErrorData { return true, false, NotSpecified, 0; }
      lookAhead := lookAhead - (rem - place);
      tempBufSize := 0;
      return false, true, NotSpecified, lookAhead;
    }

    /** The body of the while loop of LzmaDec_DecodeToDic. */
    method NextTurn(ghost base: nat, src: seq<Byte>, dicLimit: nat, finishEnd: bool)
      returns (done: bool, ok: bool, status: Status, used: nat)
      requires TempOk() && FeedReady(p, F(), base, dicLimit) && remainLen != MATCH_SPEC_LEN_START
      modifies `range, `code, `buf, `state, `rep0, `rep1, `rep2, `rep3, `dicPos, `processedPos, `remainLen, `checkDicSize
      modifies probs, dic, tempBuf, `tempBufSize, `needFlush
      ensures TempOk() && TurnIs(OneFeed(p, old(F()), base, src, dicLimit, finishEnd), done, ok, status, used, F())
    {
      hide FeedOk, FeedReady, OneFeed;
      ghost var f := F();
      FeedPlace(p, f, base, dicLimit);
      if needFlush {
        FlushTurn(p, f, base, src, dicLimit, finishEnd);
        done, ok, status, used := StartRc(src);
        return;
      }
      LimitTurn(p, f, base, src, dicLimit, finishEnd);
      if dicPos >= dicLimit {
        if remainLen == 0 && code == 0 { return true, true, MaybeFinishedWithoutMark, 0; }
        if !finishEnd { return true, true, NotFinished, 0; }
        if remainLen != 0 { return true, false, NotFinished, 0; }
      }
      if tempBufSize == 0 {
        done, ok, status, used := DecodeDirect(base, src, dicLimit, finishEnd);
      } else {
        done, ok, status, used := DecodeKept(base, src, dicLimit, finishEnd);
      }
    }

    /** LzmaDec_DecodeToDic; finishEnd is LZMA_FINISH_END. */
    method DecodeToDic(ghost base: nat, src: seq<Byte>, dicLimit: nat, finishEnd: bool)
      returns (ok: bool, status: Status, srcLen: nat)
      requires TempOk() && MayCall(p, F(), base, dicLimit)
      modifies `range, `code, `buf, `state, `rep0, `rep1, `rep2, `rep3, `dicPos, `processedPos, `remainLen, `checkDicSize
      modifies probs, dic, tempBuf, `tempBufSize, `needFlush
      ensures TempOk() && CallIs(Call(p, old(F()), base, src, dicLimit, finishEnd), ok, status, srcLen, F())
    {
      hide FeedOk, FeedReady, Settled, OneFeed, Feeding, WriteRem, TurnIs, CallIs, Progress;
      ghost var f0 := F();
      ResumedReady(p, f0, base, dicLimit);
      SettledInside(p, St(), base);
      WriteRemainder(dicLimit);
      assert F() == Resumed(p, f0, dicLimit);
      srcLen := 0;
      ghost var whole := Feeding(p, F(), base, src, dicLimit, finishEnd);
      NothingTaken(whole);
      while remainLen != MATCH_SPEC_LEN_START
        invariant TempOk() && FeedReady(p, F(), base, dicLimit) && srcLen <= |src|
        invariant whole == Taken(srcLen, Feeding(p, F(), base, src[srcLen..], dicLimit, finishEnd))
        decreases dicLimit - dicPos, remainLen != MATCH_SPEC_LEN_START, needFlush
      {
        ghost var f := F();
        FeedingTurn(p, f, base, src[srcLen..], dicLimit, finishEnd);
        ghost var turn := OneFeed(p, f, base, src[srcLen..], dicLimit, finishEnd);
        var done, used;
        done, ok, status, used := NextTurn(base, src[srcLen..], dicLimit, finishEnd);
        TurnTaken(whole, srcLen, turn, done, ok, status, used, F());
        srcLen := srcLen + used;
        if done { return; }
        FeedStep(p, f, F(), base, dicLimit);
        TakenBoth(p, F(), base, src, srcLen - used, used, dicLimit, finishEnd);
      }
      MarkTurn(p, F(), base, src[srcLen..], dicLimit, finishEnd);
      ok := code == 0;
      status := if code == 0 then FinishedWithMark else NotSpecified;
      TakenAtOnce(whole, srcLen, ok, status, F());
    }

    /** LzmaDec_DecodeToBuf: piece by piece through the dictionary buffer into dest. */
    method DecodeToBuf(ghost base0: nat, dest: array<Byte>, src: seq<Byte>, finishEnd: bool)
      returns (ok: bool, status: Status, destLen: nat, srcLen: nat, ghost base: nat)
      requires TempOk() && MayFill(p, F(), base0) && dest != dic && dest != tempBuf && (dest as object) != probs
      modifies `range, `code, `buf, `state, `rep0, `rep1, `rep2, `rep3, `dicPos, `processedPos, `remainLen, `checkDicSize
      modifies probs, dic, tempBuf, `tempBufSize, `needFlush, dest
      ensures TempOk() && destLen <= dest.Length
      ensures forall i :: destLen <= i < dest.Length ==> dest[i] == old(dest[i])
      ensures Came(ToBuf(p, old(F()), base0, src, dest.Length, finishEnd), ok, status, srcLen, F(), base, dest[..destLen])
    {
      hide MayFill, ToBuf, Onto, Came;
      var outSize: nat := dest.Length;
      destLen, srcLen, base := 0, 0, base0;
      ghost var whole := ToBuf(p, F(), base0, src, dest.Length, finishEnd);
      OntoNothing(whole);
      while true
        invariant TempOk() && MayFill(p, F(), base) && destLen + outSize == dest.Length && srcLen <= |src|
        invariant forall i :: destLen <= i < dest.Length ==> dest[i] == old(dest[i])
        invariant whole == Onto(srcLen, dest[..destLen], ToBuf(p, F(), base, src[srcLen..], outSize, finishEnd))
        decreases outSize
      {
        ghost var g, was := ToBuf(p, F(), base, src[srcLen..], outSize, finishEnd), dest[..destLen];
        var pos, piece, used;
        ok, status, used, pos, piece, base := NextPiece(base, src[srcLen..], outSize, finishEnd);
        ghost var bytes := dic[pos..pos + piece];
        CopyOutput(dest, destLen, pos, piece);
        destLen := destLen + piece;
        outSize := outSize - piece;
        assert dest[..destLen] == was + bytes;
        if !ok || piece == 0 || outSize == 0 {
          CameBehind(srcLen, was, g, ok, status, used, F(), base, bytes);
          srcLen := srcLen + used;
          return;
        }
        assert src[srcLen..][used..] == src[srcLen + used..];
        OntoBoth(srcLen, was, used, bytes, ToBuf(p, F(), base, src[srcLen + used..], outSize, finishEnd));
        srcLen := srcLen + used;
      }
    }

    method WrapPos(ghost base0: nat) returns (ghost base: nat)
      requires TempOk()
      modifies `dicPos
      ensures F() == Wrapped(old(F())) && base == WrappedBase(old(F()), base0)
    {
      base := base0;
      if dicPos == dic.Length {
        base := base + dic.Length;
        dicPos := 0;
      }
    }

    /** The inner call, from the start of the buffer again if its end has been reached. */
    method NextPiece(ghost base0: nat, src: seq<Byte>, outSize: nat, finishEnd: bool)
      returns (ok: bool, status: Status, used: nat, pos: nat, piece: nat, ghost base: nat)
      requires TempOk() && MayFill(p, F(), base0)
      modifies `range, `code, `buf, `state, `rep0, `rep1, `rep2, `rep3, `dicPos, `processedPos, `remainLen, `checkDicSize
      modifies probs, dic, tempBuf, `tempBufSize, `needFlush
      ensures TempOk() && pos + piece <= dic.Length && piece <= outSize && used <= |src|
      ensures var g, bytes := ToBuf(p, old(F()), base0, src, outSize, finishEnd), dic[pos..pos + piece];
              if !ok || piece == 0 || piece == outSize then Came(g, ok, status, used, F(), base, bytes)
              else MayFill(p, F(), base)
                   && g == Onto(used, bytes, ToBuf(p, F(), base, src[used..], outSize - piece, finishEnd))
    {
      hide MayFill, Call, SameButProbs, ToBuf, Onto;
      ghost var f := F();
      ToBufTurn(p, f, base0, src, outSize, finishEnd);
      base := WrapPos(base0);
      pos := dicPos;
      var limit, fin := dic.Length, false;
      if outSize <= dic.Length - pos { limit, fin := pos + outSize, finishEnd; }
      ok, status, used := DecodeToDic(base, src, limit, fin);
      ghost var r := Inner(p, Wrapped(f), base, src, outSize, finishEnd);
      SameFields(St(), r.f.st);
      piece := dicPos - pos;
      assert dic[pos..pos + piece] == r.f.st.dic[pos..r.f.st.dicPos];
    }

    /** memcpy from the dictionary buffer */
    method CopyOutput(dest: array<Byte>, at: nat, pos: nat, n: nat)
      requires at + n <= dest.Length && pos + n <= dic.Length && dest != dic
      modifies dest
      ensures dest[..at + n] == old(dest[..at]) + dic[pos..pos + n]
      ensures forall i :: at + n <= i < dest.Length ==> dest[i] == old(dest[i])
    {
      forall i | 0 <= i < n {
        dest[at + i] := dic[pos + i];
      }
    }

    lemma {:induction false} Fields(st: DecState)
      requires st == St()
      ensures st.dicPos == dicPos && |st.dic| == dic.Length && st.rep0 == rep0 && st.state == state
      ensures st.checkDicSize == checkDicSize && st.processedPos == processedPos
    {
    }
  }

  lemma {:induction false} SameFields(st: DecState, was: DecState)
    requires st == was || SameButProbs(st, was)
    ensures st.dicPos == was.dicPos && st.dic == was.dic
  {
  }

  lemma {:induction false} OntoNothing(g: Filled)
    ensures Onto(0, [], g) == g
  {
    assert [] + g.out == g.out;
  }

  lemma {:induction false} OntoBoth(used: nat, out: seq<Byte>, more: nat, piece: seq<Byte>, g: Filled)
    ensures Onto(used, out, Onto(more, piece, g)) == Onto(used + more, out + piece, g)
  {
    assert out + (piece + g.out) == out + piece + g.out;
  }

  /** The decoder is left as told; after an error all fields but the probabilities are known. */
  ghost predicate LeftAs(ok: bool, f: Feed, was: Feed)
  {
    if ok then f == was else SameButProbs(f.st, was.st)
  }

  /** A call into a buffer has ended as told. */
  ghost predicate Came(g: Filled, ok: bool, status: Status, used: nat, f: Feed, base: nat, out: seq<Byte>)
  {
    ok == g.ok && status == g.status && used == g.used && base == g.base && out == g.out && LeftAs(ok, f, g.f)
  }

  lemma {:induction false} CameBehind(before: nat, was: seq<Byte>, g: Filled, ok: bool, status: Status, used: nat, f: Feed,
                                      base: nat, out: seq<Byte>)
    requires Came(g, ok, status, used, f, base, out)
    ensures Came(Onto(before, was, g), ok, status, before + used, f, base, was + out)
  {
    hide LeftAs;
  }

  /** A turn has ended as told. */
  ghost predicate TurnIs(turn: FeedTurn, done: bool, ok: bool, status: Status, used: nat, f: Feed)
  {
    match turn
    case FStop(r) => done && ok == r.ok && status == r.status && used == r.used && LeftAs(ok, f, r.f)
    case FGo(f', n) => !done && used == n && f == f'
  }

  /** A call has ended as told. */
  ghost predicate CallIs(r: Fed, ok: bool, status: Status, used: nat, f: Feed)
  {
    ok == r.ok && status == r.status && used == r.used && LeftAs(ok, f, r.f)
  }

  /** Input consumed before. */
  function Taken(used: nat, r: Fed): Fed
  {
    r.(used := used + r.used)
  }

  lemma {:induction false} NothingTaken(r: Fed)
    ensures Taken(0, r) == r
  {
  }

  lemma {:induction false} TakenBoth(p: Props, f: Feed, base: nat, src: seq<Byte>, at: nat, used: nat, dicLimit: nat,
                                     finishEnd: bool)
    requires FeedReady(p, f, base, dicLimit) && at + used <= |src|
    ensures var r := Feeding(p, f, base, src[at + used..], dicLimit, finishEnd);
            && src[at..][used..] == src[at + used..] && Taken(at, Taken(used, r)) == Taken(at + used, r)
  {
    hide Feeding, FeedReady;
  }

  lemma {:induction false} TakenAtOnce(whole: Fed, srcLen: nat, ok: bool, status: Status, f: Feed)
    requires whole == Taken(srcLen, Fed(ok, status, f, 0))
    ensures CallIs(whole, ok, status, srcLen, f)
  {
  }

  lemma {:induction false} TurnTaken(whole: Fed, srcLen: nat, turn: FeedTurn, done: bool, ok: bool, status: Status,
                                     used: nat, f: Feed)
    requires TurnIs(turn, done, ok, status, used, f) && (turn.FStop? ==> whole == Taken(srcLen, turn.result))
    ensures done <==> turn.FStop?
    ensures done ==> CallIs(whole, ok, status, srcLen + used, f) && used == turn.result.used
    ensures !done ==> turn.f == f && turn.used == used
  {
    hide LeftAs;
  }

  /** Turns do not go on for ever. */
  lemma {:induction false} FeedStep(p: Props, f: Feed, f': Feed, base: nat, dicLimit: nat)
    requires FeedReady(p, f, base, dicLimit) && FeedReady(p, f', base, dicLimit) && Progress(f, f')
    ensures f.st.dicPos <= f'.st.dicPos <= dicLimit
    ensures || f.st.dicPos < f'.st.dicPos
            || (f.st.remainLen != MATCH_SPEC_LEN_START && f'.st.remainLen == MATCH_SPEC_LEN_START)
            || (f.st.remainLen == f'.st.remainLen && f.flush && !f'.flush)
  {
    hide FeedOk;
  }

  /** Where the decoder stands at the beginning of a turn. */
  lemma {:induction false} FeedPlace(p: Props, f: Feed, base: nat, dicLimit: nat)
    requires FeedReady(p, f, base, dicLimit)
    ensures f.st.m.rc.pos == 0 && f.st.dicPos <= dicLimit <= |f.st.dic| && |f.temp| < LZMA_REQUIRED_INPUT_MAX
    ensures f.flush ==> |f.temp| < INIT_SIZE && f.st.remainLen == 0
    ensures DecOk(p, f.st, base + f.st.dicPos)
  {
    hide DecOk, TurnPacketFits;
  }

  /** A call is its first turn and the rest. */
  lemma {:induction false} FeedingTurn(p: Props, f: Feed, base: nat, src: seq<Byte>, dicLimit: nat, finishEnd: bool)
    requires FeedReady(p, f, base, dicLimit)
    ensures var turn := OneFeed(p, f, base, src, dicLimit, finishEnd);
            var whole := Feeding(p, f, base, src, dicLimit, finishEnd);
            && FeedTurnOk(p, f, base, src, dicLimit, turn)
            && if turn.FStop? then whole == turn.result
               else whole == Taken(turn.used, Feeding(p, turn.f, base, src[turn.used..], dicLimit, finishEnd))
  {
    hide OneFeed, FeedOk;
    OneFeedOk(p, f, base, src, dicLimit, finishEnd);
  }

  lemma {:induction false} FlushTurn(p: Props, f: Feed, base: nat, src: seq<Byte>, dicLimit: nat, finishEnd: bool)
    requires FeedReady(p, f, base, dicLimit) && f.flush
    ensures OneFeed(p, f, base, src, dicLimit, finishEnd) == StartTurn(f, src)
  {
    hide OneTurn, FeedOk;
  }

  /** What is left to be done if the limit does not end the call. */
  predicate MayGoOn(st: DecState, dicLimit: nat, finishEnd: bool)
  {
    && st.remainLen != MATCH_SPEC_LEN_START
    && (st.dicPos < dicLimit || (finishEnd && st.remainLen == 0 && st.m.rc.code != 0))
  }

  /** At the limit. */
  lemma {:induction false} LimitTurn(p: Props, f: Feed, base: nat, src: seq<Byte>, dicLimit: nat, finishEnd: bool)
    requires FeedReady(p, f, base, dicLimit) && !f.flush && f.st.remainLen != MATCH_SPEC_LEN_START
    ensures var turn := OneFeed(p, f, base, src, dicLimit, finishEnd);
            if f.st.dicPos < dicLimit then MayGoOn(f.st, dicLimit, finishEnd)
            else if f.st.remainLen == 0 && f.st.m.rc.code == 0
            then turn == FStop(Fed(true, MaybeFinishedWithoutMark, f, 0))
            else if !finishEnd then turn == FStop(Fed(true, NotFinished, f, 0))
            else if f.st.remainLen != 0 then turn == FStop(Fed(false, NotFinished, f, 0))
            else MayGoOn(f.st, dicLimit, finishEnd)
  {
    hide TryDummy, Decode2, NextPacket, DecOk, PacketFits, Normalize, Settled, TurnPacketFits;
    FeedPlace(p, f, base, dicLimit);
    assert Rebased(f.st) == f.st;
  }

  /** Behind the end mark. */
  lemma {:induction false} MarkTurn(p: Props, f: Feed, base: nat, src: seq<Byte>, dicLimit: nat, finishEnd: bool)
    requires FeedReady(p, f, base, dicLimit) && f.st.remainLen == MATCH_SPEC_LEN_START
    ensures Feeding(p, f, base, src, dicLimit, finishEnd)
            == Fed(f.st.m.rc.code == 0, if f.st.m.rc.code == 0 then FinishedWithMark else NotSpecified, f, 0)
  {
    hide TryDummy, Decode2, NextPacket, DecOk, PacketFits, Normalize, Settled, TurnPacketFits;
    FeedPlace(p, f, base, dicLimit);
    assert Rebased(f.st) == f.st;
  }

  lemma {:induction false} SameSelf(f: Feed)
    ensures SameButProbs(f.st, f.st)
  {
  }

  /** The same for a turn with what is kept in front of the input. */
  lemma {:induction false} FeedCases(p: Props, f: Feed, base: nat, src: seq<Byte>, dicLimit: nat, finishEnd: bool)
    requires FeedReady(p, f, base, dicLimit) && !f.flush && MayGoOn(f.st, dicLimit, finishEnd)
    ensures DecOk(p, f.st, base + f.st.dicPos)
    ensures var turn := OneFeed(p, f, base, src, dicLimit, finishEnd);
            var v := View(f, src);
            var atLimit := f.st.dicPos >= dicLimit;
            var dummy := Dry.Kind(TryDummy(p, f.st, base + f.st.dicPos, v));
            var careful := |v| < LZMA_REQUIRED_INPUT_MAX || atLimit;
            if careful && dummy == Dry.DummyError
            then |v| < LZMA_REQUIRED_INPUT_MAX && v == f.temp + src
                 && turn == FStop(Fed(true, NeedsMoreInput, f.(temp := v), |src|))
            else if atLimit && dummy != Dry.DummyMatch then turn == FStop(Fed(false, NotFinished, f, 0))
            else MayDecode(p, f.st, base, v, dicLimit)
                 && var bufLimit := if f.temp != [] || careful then 0 else |v| - LZMA_REQUIRED_INPUT_MAX;
                    Decode2Fits(p, f.st, base, v, dicLimit, bufLimit) &&
                    var o := Decode2(p, f.st, base, v, dicLimit, bufLimit);
                    if o.Failed? then turn == FStop(Fed(false, NotSpecified, f.(st := Rebased(o.st)), 0))
                    else |f.temp| <= o.st.m.rc.pos
                         && turn == FGo(Feed(Rebased(o.st), [], false), o.st.m.rc.pos - |f.temp|)
  {
    hide FeedOk, Ready, OneTurn, TryDummy, Decode2, Decode2Fits, MayDecode, DecOk, View, MayGoOn;
    FeedPlace(p, f, base, dicLimit);
    ViewIs(f, src);
    ViewReady(p, f, base, src, dicLimit);
    ReadsMore(p, f, base, src, dicLimit, finishEnd);
    TurnCases(p, f.st, base, View(f, src), dicLimit, finishEnd, f.temp != []);
    assert Rebased(f.st) == f.st;
  }

  /** What the loop around the inner call does with its result. */
  ghost predicate TurnOfToBuf(p: Props, f0: Feed, base0: nat, src: seq<Byte>, outSize: nat, finishEnd: bool, r: Fed,
                              whole: Filled)
  {
    && f0.st.dicPos <= r.f.st.dicPos <= |r.f.st.dic| == |f0.st.dic| && r.f.st.dicPos - f0.st.dicPos <= outSize
    && (r.ok ==> MayFill(p, r.f, base0)) && r.used <= |src|
    && var piece := r.f.st.dic[f0.st.dicPos..r.f.st.dicPos];
       whole == if !r.ok || piece == [] || |piece| == outSize then Filled(r.ok, r.status, r.f, base0, r.used, piece)
                else Onto(r.used, piece, ToBuf(p, r.f, base0, src[r.used..], outSize - |piece|, finishEnd))
  }

  /** One turn of that loop. */
  lemma {:induction false} ToBufTurn(p: Props, f: Feed, base: nat, src: seq<Byte>, outSize: nat, finishEnd: bool)
    requires MayFill(p, f, base)
    ensures var f0, base0 := Wrapped(f), WrappedBase(f, base);
            && MayFill(p, f0, base0) && f0.st.dicPos < |f0.st.dic| && MayCall(p, f0, base0, InnerLimit(f0.st, outSize))
            && TurnOfToBuf(p, f0, base0, src, outSize, finishEnd, Inner(p, f0, base0, src, outSize, finishEnd),
                           ToBuf(p, f, base, src, outSize, finishEnd))
  {
    hide Inner, MayFill, Wrapped, WrappedBase;
    WrappedMayFill(p, f, base);
    InnerOk(p, Wrapped(f), WrappedBase(f, base), src, outSize, finishEnd);
    FillCall(p, Wrapped(f), WrappedBase(f, base), outSize);
  }

  /** Whichever distance comes first, it lies inside the dictionary. */
  lemma {:induction false} RepsInside(p: Props, st: DecState, total: nat, k: nat, m: Machine)
    requires DecOk(p, st, total) && total > 0 && k < 4
    ensures var r := RepsRotated(st.(m := m), k);
            r.rep0 >= 1 && r.dicPos == st.dicPos && |r.dic| == |st.dic|
            && 0 <= Source(r.dicPos, r.rep0, |r.dic|) < |r.dic|
    ensures RepsRotated(st.(m := m), 0) == st.(m := m)
  {
    SourceInside(p, st, total, RepsRotated(st, k).rep0);
  }

  lemma {:induction false} PropsBound(p: Props, st: DecState, total: nat)
    requires DecOk(p, st, total)
    ensures p.lc <= 8 && st.dicPos <= |st.dic| && MachineOk(st.m, Coders(p))
  {
  }

  lemma {:induction false} EnvIs(p: Props, st: DecState, e: Env)
    requires p.lc <= 8 && e.state == st.state && e.posState == Trunc(st.processedPos, p.pb)
    requires e.coder == if st.checkDicSize != 0 || st.processedPos != 0
                        then LitCoder(p, st.processedPos, At(st.dic, (if st.dicPos == 0 then |st.dic| else st.dicPos) - 1))
                        else 0
    requires e.matchByte == if st.state >= NUM_LIT_STATES then At(st.dic, Source(st.dicPos, st.rep0, |st.dic|)) else 0
    ensures e == DecEnv(p, st)
  {
  }

  /** What a turn does that is not ended by the limit, case by case, and that it may do it. */
  lemma {:induction false} TurnCases(p: Props, st: DecState, base: nat, s: seq<Byte>, dicLimit: nat, finishEnd: bool,
                                     single: bool)
    requires Ready(p, st, base, s, dicLimit) && MayGoOn(st, dicLimit, finishEnd)
    ensures DecOk(p, st, base + st.dicPos)
    ensures var turn := OneTurn(p, st, base, s, dicLimit, finishEnd, single);
            var atLimit := st.dicPos >= dicLimit;
            var dummy := Dry.Kind(TryDummy(p, st, base + st.dicPos, s));
            var careful := |s| - st.m.rc.pos < LZMA_REQUIRED_INPUT_MAX || atLimit;
            if careful && dummy == Dry.DummyError
            then turn == Stop(Result(true, NeedsMoreInput, st)) && |s| - st.m.rc.pos < LZMA_REQUIRED_INPUT_MAX
            else if atLimit && dummy != Dry.DummyMatch then turn == Stop(Result(false, NotFinished, st))
            else MayDecode(p, st, base, s, dicLimit)
                 && var bufLimit := if single || careful then st.m.rc.pos else |s| - LZMA_REQUIRED_INPUT_MAX;
                    Decode2Fits(p, st, base, s, dicLimit, bufLimit) &&
                    var o := Decode2(p, st, base, s, dicLimit, bufLimit);
                    turn == if o.Failed? then Stop(Result(false, NotSpecified, o.st)) else Go(o.st)
  {
    hide TryDummy, Decode2, Decode2Fits, NextPacket, DecOk, PacketFits, Normalize;
    TurnSettled(p, st, base, s, dicLimit);
    TryDummyTells(p, st, base + st.dicPos, s);
    OneTurnOk(p, st, base, s, dicLimit, finishEnd, single);
  }

  /** One turn of the packet loop. */
  lemma {:induction false} LoopTurn(p: Props, st: DecState, total: nat, s: seq<Byte>, limit: nat, bufLimit: int)
    requires LimitOk(p, st, total, s, limit)
    ensures var o := DecodePacket(p, st, total, s, limit);
            var whole := DecodeLoop(p, st, total, s, limit, bufLimit);
            if o.More? && o.st.dicPos < limit && o.st.m.rc.pos < bufLimit
            then st.dicPos < o.st.dicPos && LimitOk(p, o.st, total + (o.st.dicPos - st.dicPos), s, limit)
                 && whole == DecodeLoop(p, o.st, total + (o.st.dicPos - st.dicPos), s, limit, bufLimit)
            else whole == o
    ensures st.dicPos <= limit
    ensures LoopFits(p, st, total, s, limit, bufLimit) ==>
              var o := DecodePacket(p, st, total, s, limit);
              && PacketFits(p, st, total, s)
              && (!o.Failed? ==> EndPos(o.st, s) <= |s|)
              && (o.More? && o.st.dicPos < limit && o.st.m.rc.pos < bufLimit ==>
                    LoopFits(p, o.st, total + (o.st.dicPos - st.dicPos), s, limit, bufLimit))
  {
    hide DecodePacket, DecOk, NextPacket, PacketFits, Normalize;
    DecodePacketOk(p, st, total, s, limit);
    if LoopFits(p, st, total, s, limit, bufLimit) { DecodePacketReads(p, st, total, s, limit); }
  }

  /** One round of the outer loop. */
  lemma {:induction false} RoundTurn(p: Props, st: DecState, base: nat, s: seq<Byte>, limit: nat, bufLimit: int)
    requires MayDecode(p, st, base, s, limit)
    ensures var o := Round(p, st, base, s, limit, bufLimit);
            var whole := Decode2(p, st, base, s, limit, bufLimit);
            if o.Failed? then whole == o
            else if o.EndMark?
            then o.st.remainLen >= MATCH_SPEC_LEN_START && whole == EndMark(o.st.(remainLen := MATCH_SPEC_LEN_START))
            else o.st.remainLen < MATCH_SPEC_LEN_START
                 && if o.st.dicPos < limit && o.st.m.rc.pos < bufLimit
                    then st.dicPos < o.st.dicPos && MayDecode(p, o.st, base, s, limit)
                         && whole == Decode2(p, o.st, base, s, limit, bufLimit)
                    else whole == o
    ensures Decode2Fits(p, st, base, s, limit, bufLimit) ==>
              var o := Round(p, st, base, s, limit, bufLimit);
              && RoundFits(p, st, base, s, limit, bufLimit)
              && (o.More? && o.st.dicPos < limit && o.st.m.rc.pos < bufLimit ==>
                    MayDecode(p, o.st, base, s, limit) && Decode2Fits(p, o.st, base, s, limit, bufLimit))
  {
    hide Round, RoundFits, NextPacket, Settled;
    RoundOk(p, st, base, s, limit, bufLimit);
    RoundRem(p, st, base, s, limit, bufLimit);
  }

  lemma {:induction false} RoundRem(p: Props, st: DecState, base: nat, s: seq<Byte>, limit: nat, bufLimit: int)
    requires MayDecode(p, st, base, s, limit)
    ensures var o := Round(p, st, base, s, limit, bufLimit); o.More? ==> o.st.remainLen < MATCH_SPEC_LEN_START
  {
    hide DecodeLoop, DecOk, WriteRem, MarkFull, NextPacket, Normalize;
    var cap := CappedLimit(p, st, limit);
    CappedLimitOk(p, st, base, s, limit);
    DecodeLoopOk(p, st, base + st.dicPos, s, cap, bufLimit);
    LoopRem(p, st, base + st.dicPos, s, cap, bufLimit);
    var o := DecodeLoop(p, st, base + st.dicPos, s, cap, bufLimit);
    if o.More? {
      SettleSame(p, Normalized(o.st, s));
      WriteRemEnd(p, MarkFull(p, Normalized(o.st, s)), limit);
    }
  }

  /** What is left of a match is shorter than any match. */
  lemma {:induction false} LoopRem(p: Props, st: DecState, total: nat, s: seq<Byte>, limit: nat, bufLimit: int)
    requires LimitOk(p, st, total, s, limit)
    ensures var o := DecodeLoop(p, st, total, s, limit, bufLimit); o.More? ==> o.st.remainLen < MATCH_SPEC_LEN_START
    decreases limit - st.dicPos
  {
    hide DecodeLoop, DecodePacket, LimitOk;
    LoopTurn(p, st, total, s, limit, bufLimit);
    PacketRem(p, st, total, s, limit);
    var o := DecodePacket(p, st, total, s, limit);
    if o.More? && o.st.dicPos < limit && o.st.m.rc.pos < bufLimit {
      LoopRem(p, o.st, total + (o.st.dicPos - st.dicPos), s, limit, bufLimit);
    }
  }

  lemma {:induction false} PacketRem(p: Props, st: DecState, total: nat, s: seq<Byte>, limit: nat)
    requires LimitOk(p, st, total, s, limit)
    ensures var o := DecodePacket(p, st, total, s, limit); o.More? ==> o.st.remainLen < MATCH_SPEC_LEN_START
  {
    hide NextRun, DecOk, CopyRun, NextPacket, Word;
    NextRunOk(p, st, total, s);
  }

  /** Before the rest of a match is written, its distance is inside the dictionary. */
  lemma {:induction false} RoundSettles(p: Props, st: DecState, base: nat, s: seq<Byte>, limit: nat, bufLimit: int)
    requires MayDecode(p, st, base, s, limit)
    requires LimitOk(p, st, base + st.dicPos, s, CappedLimit(p, st, limit))
    ensures var o := NormalizedOutcome(st, DecodeLoop(p, st, base + st.dicPos, s, CappedLimit(p, st, limit), bufLimit), s);
            !o.Failed? ==> Inside(MarkFull(p, o.st), limit)
  {
    hide DecodeLoop, DecOk, MarkFull, NextPacket, Normalize, Source;
    var cap := CappedLimit(p, st, limit);
    CappedLimitOk(p, st, base, s, limit);
    DecodeLoopOk(p, st, base + st.dicPos, s, cap, bufLimit);
    var o := DecodeLoop(p, st, base + st.dicPos, s, cap, bufLimit);
    if !o.Failed? {
      NormalizedOk(p, o.st, base + o.st.dicPos, s);
      MarkFullOk(p, Normalized(o.st, s), base);
      SettleSame(p, Normalized(o.st, s));
      SettledInside(p, MarkFull(p, Normalized(o.st, s)), base);
    }
  }

  lemma {:induction false} SettledInside(p: Props, st: DecState, base: nat)
    requires Settled(p, st, base)
    ensures st.rep0 >= 1
    ensures 0 < st.remainLen < MATCH_SPEC_LEN_START ==> 0 <= Source(st.dicPos, st.rep0, |st.dic|) < |st.dic|
  {
    if 0 < st.remainLen < MATCH_SPEC_LEN_START { SourceInside(p, st, base + st.dicPos, st.rep0); }
  }

  predicate Inside(st: DecState, limit: nat)
  {
    st.dicPos <= limit <= |st.dic| && st.rep0 >= 1
    && (0 < st.remainLen < MATCH_SPEC_LEN_START ==> 0 <= Source(st.dicPos, st.rep0, |st.dic|) < |st.dic|)
  }

  lemma {:induction false} NewDistanceInside(p: Props, st: DecState, total: nat, distance: nat)
    requires DecOk(p, st, total)
    requires if st.checkDicSize == 0 then distance < st.processedPos else distance < st.checkDicSize
    ensures 0 <= Source(st.dicPos, distance + 1, |st.dic|) < |st.dic|
  {
    AddMod(total, 0);
    SourceInside(p, st, total, distance + 1);
  }

  lemma {:induction false} StartOk(e: Env, m: Machine, s: seq<Byte>, coders: nat)
    requires EnvOk(e, coders) && MachineOk(m, coders)
    ensures Sound(e, AtIsMatch, m, coders) && Rest(e, AtIsMatch, m, s, coders) == Run(e, AtIsMatch, m, s, coders)
  {
  }

  lemma {:induction false} LiteralApplies(st: DecState, pkt: Packet, limit: nat)
    requires pkt.Lit? && st.dicPos <= limit
    ensures Apply(st, pkt, limit) == More(AfterLit(st, pkt.byte))
  {
  }

  lemma {:induction false} NoReps(st: DecState, pkt: Packet, limit: nat)
    requires (pkt.ShortRep? || pkt.Rep?) && Encodable(pkt) && st.dicPos <= limit && st.checkDicSize == 0
             && st.processedPos == 0
    ensures Apply(st, pkt, limit) == Failed(st)
  {
  }

  lemma {:induction false} EnvFields(p: Props, st: DecState, total: nat)
    requires DecOk(p, st, total)
    ensures DecEnv(p, st) == DecEnv0(p, st) && DecEnv(p, st).state == st.state
            && DecEnv(p, st).posState == Trunc(st.processedPos, p.pb)
    ensures forall m :: DecEnv0(p, st.(m := m)) == DecEnv0(p, st)
    ensures st.state >= NUM_LIT_STATES ==> 0 <= Source(st.dicPos, st.rep0, |st.dic|) < |st.dic|
    ensures !(st.checkDicSize == 0 && st.processedPos == 0) ==> total > 0 && |st.dic| > 0
  {
    AddMod(total, 0);
    if total > 0 { SourceInside(p, st, total, st.rep0); }
  }

  lemma {:induction false} DecOkReader(p: Props, st: DecState, total: nat, m: Machine)
    requires DecOk(p, st, total) && MachineOk(m, Coders(p))
    ensures DecOk(p, st.(m := m), total)
  {
  }

  /** Past the second bit only packets with repeated distances are left. */
  predicate AmongReps(ph: Phase)
  {
    match ph
    case AtRepG0 => true
    case AtRep0Long => true
    case AtRepG1 => true
    case AtRepG2 => true
    case AtChoice(u) => u.ForRep?
    case AtChoice2(u) => u.ForRep?
    case AtTree(t, _, _) => (t.TLow? || t.TMid? || t.THigh?) && t.u.ForRep?
    case Done(pkt) => pkt.ShortRep? || pkt.Rep?
    case _ => false
  }

  lemma {:induction false} RepsOnlyFrom(e: Env, ph: Phase, m: Machine, s: seq<Byte>, coders: nat)
    requires Sound(e, ph, m, coders) && AmongReps(ph)
    ensures Run(e, ph, m, s, coders).1.ShortRep? || Run(e, ph, m, s, coders).1.Rep?
    decreases BitsLeft(ph)
  {
    hide Answer, PhaseOk, MachineOk;
    if !ph.Done? {
      var (m', b) := Answer(e, ph, m, s, coders);
      NextOk(e, ph, b);
      BitsLeftDrops(e, ph, b);
      RestNext(e, ph, m, s, coders);
      RepsOnlyFrom(e, Next(e, ph, b), m', s, coders);
    }
  }

  lemma {:induction false} RepsOnly(e: Env, m: Machine, s: seq<Byte>, coders: nat)
    requires Sound(e, AtRepG0, m, coders)
    ensures Rest(e, AtRepG0, m, s, coders).1.ShortRep? || Rest(e, AtRepG0, m, s, coders).1.Rep?
    ensures Encodable(Rest(e, AtRepG0, m, s, coders).1)
  {
    RepsOnlyFrom(e, AtRepG0, m, s, coders);
  }

  lemma {:induction false} SoundDone(e: Env, pkt: Packet, m: Machine, s: seq<Byte>, coders: nat)
    requires EnvOk(e, coders) && MachineOk(m, coders) && Encodable(pkt)
    ensures Rest(e, Done(pkt), m, s, coders) == (m, pkt)
  {
  }

  lemma {:induction false} CopyRunNext(dic: seq<Byte>, pos: nat, rep0: nat, n: nat)
    requires n > 0
    ensures CopyRun(dic, pos, rep0, n) == CopyRun(Put(dic, pos, At(dic, Source(pos, rep0, |dic|))), pos + 1, rep0, n - 1)
  {
  }

  /** Where an align bit leads. */
  function AfterAlign(len: nat, distance: nat, n: nat, i: nat, mask: nat): Phase
  {
    if n <= 1 then Done(Match(distance, len)) else AtAlign(len, distance, n - 1, i, 2 * mask)
  }

  /** Four bytes, the first most significant. */
  function CodeOf(a: nat, b: nat, c: nat, d: nat): nat
  {
    a * TOP + b * 0x1_0000 + c * 0x100 + d
  }

  lemma {:induction false} FirstCode(s: seq<Byte>)
    requires |s| >= 5
    ensures BigEndian(s[1..5]) == CodeOf(s[1], s[2], s[3], s[4])
  {
    assert s[1..5] == [s[1]] + [s[2]] + [s[3]] + [s[4]];
    Single(s[1]);
    AppendByte([s[1]], s[2]);
    AppendByte([s[1]] + [s[2]], s[3]);
    AppendByte([s[1]] + [s[2]] + [s[3]], s[4]);
  }
}
