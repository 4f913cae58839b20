/**
 * The packet encoder of LzmaEnc.c on top of the range encoder: LitEnc_Encode, LitEnc_EncodeMatched, RcTree_Encode,
 * RcTree_ReverseEncode, LenEnc_Encode, the distance slot table, the packets of LzmaEnc_CodeOneBlock and the end
 * mark. The probability arrays are one map from contexts; the choice of packets is given.
 */
module LzmaEncoder {
  import opened Bits
  import opened Bytes
  import opened RangeSpec
  import opened LzmaContexts
  import opened LzmaPackets
  import opened LzmaRun
  import opened LzmaStream
  import Rc = RangeEncoder

  // ---------------------------------------------------------------- the slot table

  const NUM_LOG_BITS := 13
  const FAST_POS_SIZE := 8192

  /** The first distance of a slot. */
  function SlotStart(s: nat): nat
  {
    if s < 4 then s else SlotBase(s)
  }

  lemma {:induction false} NextSlotStart(s: nat)
    requires s >= 2
    ensures SlotStart(s + 1) == SlotStart(s) + Pow2(s / 2 - 1)
  {
    if s % 2 == 1 { assert Pow2(s / 2) == 2 * Pow2(s / 2 - 1); }
  }

  lemma {:induction false} SlotStartGrows(s: nat, t: nat)
    requires 2 <= s <= t
    ensures SlotStart(s) <= SlotStart(t)
    decreases t
  {
    if s < t {
      SlotStartGrows(s, t - 1);
      NextSlotStart(t - 1);
    }
  }

  /** Every distance between the starts of two neighbouring slots has the lower of them. */
  lemma {:induction false} SlotInBlock(s: nat, d: nat)
    requires s >= 2 && SlotStart(s) <= d < SlotStart(s) + Pow2(s / 2 - 1)
    ensures Slot(d) == s
    decreases s
  {
    assert Pow2(0) == 1 && Pow2(1) == 2;
    if s >= 4 {
      assert Pow2(s / 2 - 1) == 2 * Pow2(s / 2 - 2);
      if s >= 6 { SlotDoubles(s - 2); }
      SlotInBlock(s - 2, d / 2);
    }
  }

  lemma {:induction false} SlotShifted(d: nat, i: nat)
    requires Shr(d, i) >= 2
    ensures Slot(d) == Slot(Shr(d, i)) + 2 * i
    decreases i
  {
    if i > 0 {
      SlotShifted(d / 2, i - 1);
      ShrAtMost(d / 2, i - 1);
    }
  }

  lemma {:induction false} ShrAtMost(d: nat, i: nat)
    ensures Shr(d, i) <= d
    decreases i
  {
    if i > 0 { ShrAtMost(d / 2, i - 1); }
  }

  lemma {:induction false} ShrAtLeast(d: nat, c: nat, i: nat)
    requires d >= Shl(c, i)
    ensures Shr(d, i) >= c
    decreases i
  {
    if i > 0 { ShrAtLeast(d / 2, c, i - 1); }
  }

  lemma {:induction false} ShrBelow(d: nat, c: nat, i: nat)
    requires d < Shl(c, i)
    ensures Shr(d, i) < c
    decreases i
  {
    if i > 0 { ShrBelow(d / 2, c, i - 1); }
  }

  ghost predicate FastPosOk(table: array<nat>)
    reads table
  {
    table.Length == FAST_POS_SIZE && forall d :: 0 <= d < table.Length ==> table[d] == Slot(d)
  }

  lemma {:induction false} SlotTableEnd()
    ensures SlotStart(2 * NUM_LOG_BITS) == FAST_POS_SIZE
  {
    assert Pow2(6) == 64 && Pow2(12) == 4096;
  }

  /** LzmaEnc_FastPosInit: each slot, in turn, fills its run of entries. */
  method FastPosInit() returns (fastPos: array<nat>)
    ensures fresh(fastPos) && FastPosOk(fastPos)
  {
    hide Slot, SlotStart, Shl, Pow2;
    fastPos := new nat[FAST_POS_SIZE];
    SmallSlots();
    SlotTableEnd();
    fastPos[0] := 0;
    fastPos[1] := 1;
    var c := 2;
    for slotFast := 2 to 2 * NUM_LOG_BITS
      invariant c == SlotStart(slotFast) <= FAST_POS_SIZE && c >= 2
      invariant forall d :: 0 <= d < c ==> fastPos[d] == Slot(d)
    {
      var k := Shl(1, slotFast / 2 - 1);
      ShlOne(slotFast / 2 - 1);
      NextSlotStart(slotFast);
      SlotStartGrows(slotFast + 1, 2 * NUM_LOG_BITS);
      for j := 0 to k
        invariant c == SlotStart(slotFast) + j
        invariant forall d :: 0 <= d < c ==> fastPos[d] == Slot(d)
      {
        SlotInBlock(slotFast, c);
        fastPos[c] := slotFast;
        c := c + 1;
      }
    }
  }

  lemma {:induction false} SmallSlots()
    ensures Slot(0) == 0 && Slot(1) == 1 && SlotStart(2) == 2
  {
  }

  // ---------------------------------------------------------------- the literal register

  lemma {:induction false} ShrShl(x: nat, k: nat, j: nat)
    ensures Shr(Shl(x, k), k + j) == Shr(x, j)
    decreases k
  {
    if k > 0 { ShrShl(x, k - 1, j); }
  }

  lemma {:induction false} HighBitOff(b: nat, c: nat, j: nat)
    ensures BitAt(b + Pow2(j + 1 + c), j) == BitAt(b, j)
    decreases j
  {
    if j > 0 { HighBitOff(b / 2, c, j - 1); }
  }

  lemma {:induction false} EightDown(v: nat)
    ensures Shr(v, 8) == v / 256 && BitAt(v, 8) == v / 0x100 % 2
  {
    ShrSplit(v, 4, 4);
    FourDown(v);
    FourDown(v / 16);
  }

  lemma {:induction false} FourDown(v: nat)
    ensures Shr(v, 4) == v / 16
  {
    assert Shr(v / 2 / 2, 2) == v / 2 / 2 / 2 / 2 by { assert Shr(v / 2 / 2 / 2, 1) == v / 2 / 2 / 2 / 2; }
  }

  lemma {:induction false} ShrSplit(v: nat, m: nat, n: nat)
    ensures Shr(v, m + n) == Shr(Shr(v, m), n)
    decreases m
  {
    if m > 0 { ShrSplit(v / 2, m - 1, n); }
  }

  /** The byte with a one in front, shifted up while n of its bits are left. */
  function Register(b: Byte, n: nat): nat
    requires n <= 8
  {
    Shl(256 + b, 8 - n)
  }

  /** symbol >> 8 is the node of the bit tree, bit 7 the next bit; the register is full when no bit is left. */
  lemma {:induction false} RegisterBits(b: Byte, n: nat)
    requires n <= 8
    ensures Shr(Register(b, n), 8) == Shr(256 + b, n)
    ensures n > 0 ==> BitAt(Register(b, n), 7) == BitAt(b, n - 1) && BitAt(Register(b, n - 1), 8) == BitAt(b, n - 1)
    ensures n > 0 ==> Shr(256 + b, n - 1) == 2 * Shr(256 + b, n) + BitAt(b, n - 1)
    ensures n > 0 ==> Register(b, n - 1) == 2 * Register(b, n)
    ensures Register(b, n) < 0x1_0000 <==> n > 0
    ensures Shr(256 + b, 8) == 1
  {
    hide Shr, Pow2;
    ShrShl(256 + b, 8 - n, n);
    EightDown(256 + b);
    if n > 0 {
      ShrShl(256 + b, 8 - n, n - 1);
      ShrShl(256 + b, 8 - (n - 1), n - 1);
      HighBitOff(b, 8 - n, n - 1);
      Pow2Small();
      ShrHalves(256 + b, n - 1);
    }
    RegisterSize(256 + b, 8 - n);
    Pow2Word();
    Pow2Monotone(17 - n, if n > 0 then 16 else 17);
  }

  lemma {:induction false} RegisterSize(x: nat, k: nat)
    requires 256 <= x < 512
    ensures Pow2(8 + k) <= Shl(x, k) < Pow2(9 + k)
  {
    if k > 0 { RegisterSize(x, k - 1); } else { Pow2Small(); assert Pow2(9) == 512; }
  }

  // ---------------------------------------------------------------- the encoder

  lemma {:induction false} DirectStepsOf(m: ProbMap, value: nat, n: nat)
    ensures Steps(m, RawSyms(value, n)) == Rc.DirectSteps(value, n) && LearnAll(m, RawSyms(value, n)) == m
  {
    if n > 0 { DirectStepsOf(m, value, n - 1); }
  }

  /** What the encoder has coded so far, as the range coder sees it. */
  ghost predicate Coded(steps: seq<Step>, probs: ProbMap, syms: seq<Symbol>)
  {
    steps == Steps(map[], syms) && probs == LearnAll(map[], syms)
  }

  lemma {:induction false} CodedNext(steps: seq<Step>, probs: ProbMap, syms: seq<Symbol>, c: Context, b: Bit)
    requires Coded(steps, probs, syms)
    ensures Coded(steps + [Modelled(Get(probs, c), b)], probs[c := Rc.Adapt(Get(probs, c), b)], syms + [Model(c, b)])
  {
    StepsConcat(map[], syms, [Model(c, b)]);
    assert Learn(probs, Model(c, b)) == LearnAll(probs, [Model(c, b)]);
  }

  lemma {:induction false} CodedDirect(steps: seq<Step>, probs: ProbMap, syms: seq<Symbol>, value: nat, n: nat)
    requires Coded(steps, probs, syms)
    ensures Coded(steps + Rc.DirectSteps(value, n), probs, syms + RawSyms(value, n))
  {
    StepsConcat(map[], syms, RawSyms(value, n));
    DirectStepsOf(probs, value, n);
  }

  /** One more symbol in front of the rest moves it behind the coded part. */
  lemma {:induction false} Shift(syms: seq<Symbol>, y: Symbol, rest: seq<Symbol>)
    ensures syms + ([y] + rest) == (syms + [y]) + rest
  {
  }

  lemma {:induction false} TreeSymsNext(e: Env, t: TreeUse, n: nat, m: nat, v: nat)
    requires n > 0
    ensures var b := BitAt(v, n - 1);
            TreeSyms(e, t, n, m, v) == [Model(TreeNode(e, t, m), b)] + TreeSyms(e, t, n - 1, 2 * m + b, v)
  {
  }

  class LzmaEnc {
    const p: Props
    const writeEndMark: bool
    const rc: Rc.RangeEncoder
    const fastPos: array<nat>
    const reps: array<nat>
    var probs: ProbMap
    var state: nat
    var nowPos: nat
    ghost var syms: seq<Symbol>  // every symbol coded since the start

    /** Range coder and probabilities are where the symbols coded so far have brought them. */
    ghost predicate Coding()
      reads `probs, `syms, rc
    {
      rc.Valid() && Coded(rc.steps, probs, syms)
    }

    ghost predicate Valid()
      reads this, rc, fastPos, reps
    {
      && Coding() && PropsOk(p) && state < NUM_STATES && reps.Length == 4 && fastPos != reps && FastPosOk(fastPos)
    }

    constructor (p: Props, writeEndMark: bool)
      requires PropsOk(p)
      ensures Valid() && syms == [] && nowPos == 0 && Ctl() == CONTROL_INIT && fresh(rc) && fresh(reps)
      ensures this.p == p && this.writeEndMark == writeEndMark
    {
      this.p, this.writeEndMark := p, writeEndMark;
      var table := FastPosInit();
      fastPos := table;
      var coder := new Rc.RangeEncoder();
      rc := coder;
      var dists := new nat[4](_ => 0);
      reps := dists;
      probs, syms := map[], [];
      state, nowPos := 0, 0;
      new;
      assert Coded(rc.steps, probs, syms);
    }

    /** The state and the repeat distances. */
    ghost function Ctl(): Control
      requires reps.Length == 4
      reads this, reps
    {
      Control(state, reps[0], reps[1], reps[2], reps[3])
    }

    method EncodeBit(c: Context, bit: Bit)
      requires Coding()
      modifies `probs, `syms, rc
      ensures Coding() && syms == old(syms) + [Model(c, bit)]
    {
      hide Coded;
      CodedNext(rc.steps, probs, syms, c, bit);
      var prob := rc.EncodeBit(Get(probs, c), bit);
      probs := probs[c := prob];
      syms := syms + [Model(c, bit)];
    }

    method EncodeDirectBits(value: nat, numBits: nat)
      requires Coding() && numBits >= 1
      modifies `probs, `syms, rc
      ensures Coding() && syms == old(syms) + RawSyms(value, numBits)
    {
      hide Coded;
      CodedDirect(rc.steps, probs, syms, value, numBits);
      rc.EncodeDirectBits(value, numBits);
      syms := syms + RawSyms(value, numBits);
    }

    /** RcTree_Encode: the bits of the symbol from the top, each in the node its predecessors lead to. */
    method TreeEncode(e: Env, t: TreeUse, numBitLevels: nat, symbol: nat)
      requires Coding()
      modifies `probs, `syms, rc
      ensures Coding() && syms == old(syms) + TreeSyms(e, t, numBitLevels, 1, symbol)
    {
      hide TreeSyms, TreeNode;
      var m: nat := 1;
      var i: nat := numBitLevels;
      while i != 0
        invariant i <= numBitLevels && Coding()
        invariant syms + TreeSyms(e, t, i, m, symbol) == old(syms) + TreeSyms(e, t, numBitLevels, 1, symbol)
      {
        TreeSymsNext(e, t, i, m, symbol);
        i := i - 1;
        var bit := BitAt(symbol, i);
        Shift(syms, Model(TreeNode(e, t, m), bit), TreeSyms(e, t, i, 2 * m + bit, symbol));
        EncodeBit(TreeNode(e, t, m), bit);
        m := 2 * m + bit;
      }
      NoTree(e, t, m, symbol);
    }

    /** LitEnc_Encode: the register symbol carries node and bits at once. */
    method LitEncode(e: Env, byte: Byte)
      requires Coding()
      modifies `probs, `syms, rc
      ensures Coding() && syms == old(syms) + WholeTree(e, TLit, byte)
    {
      hide TreeSyms, TreeNode, Register;
      var symbol: nat := 0x100 + byte;
      ghost var n: nat := 8;
      RegisterFull(byte);
      RegisterBits(byte, 8);
      while symbol < 0x1_0000
        invariant n <= 8 && symbol == Register(byte, n) && Coding()
        invariant symbol < 0x1_0000 <==> n > 0
        invariant syms + TreeSyms(e, TLit, n, Shr(0x100 + byte, n), byte) == old(syms) + TreeSyms(e, TLit, 8, 1, byte)
        decreases n
      {
        RegisterBits(byte, n);
        RegisterBits(byte, n - 1);
        ghost var m := Shr(0x100 + byte, n);
        TreeSymsNext(e, TLit, n, m, byte);
        Shift(syms, Model(TreeNode(e, TLit, m), BitAt(byte, n - 1)),
              TreeSyms(e, TLit, n - 1, 2 * m + BitAt(byte, n - 1), byte));
        EncodeBit(TreeNode(e, TLit, Shr(symbol, 8)), BitAt(symbol, 7));
        symbol := 2 * symbol;
        n := n - 1;
      }
      NoTree(e, TLit, Shr(0x100 + byte, 0), byte);
    }

    /** LitEnc_EncodeMatched: predicted from the match byte until the first bit that differs. */
    method LitEncodeMatched(e: Env, byte: Byte, match0: Byte)
      requires Coding()
      modifies `probs, `syms, rc
      ensures Coding() && syms == old(syms) + MatchedSyms(e, 8, 1, 0x100, 2 * match0, byte)
    {
      hide MatchedSyms, Register, MatchBit, NextOffs;
      var offs: nat := 0x100;
      var symbol: nat := 0x100 + byte;
      var matchByte: nat := match0;
      ghost var n: nat := 8;
      RegisterFull(byte);
      RegisterBits(byte, 8);
      while symbol < 0x1_0000
        invariant n <= 8 && symbol == Register(byte, n) && Coding() && (offs == 0 || offs == 0x100)
        invariant symbol < 0x1_0000 <==> n > 0
        invariant syms + MatchedSyms(e, n, Shr(0x100 + byte, n), offs, 2 * matchByte, byte)
                  == old(syms) + MatchedSyms(e, 8, 1, 0x100, 2 * match0, byte)
        decreases n
      {
        matchByte := 2 * matchByte;
        RegisterBits(byte, n);
        RegisterBits(byte, n - 1);
        ghost var m, b := Shr(0x100 + byte, n), BitAt(byte, n - 1);
        MatchedSymsNext(e, n, m, offs, matchByte, byte);
        Shift(syms, Model(Literal(e.coder, offs + MatchBit(offs, matchByte) + m), b),
              MatchedSyms(e, n - 1, 2 * m + b, NextOffs(offs, matchByte, b), 2 * matchByte, byte));
        EncodeBit(Literal(e.coder, offs + MatchBit(offs, matchByte) + Shr(symbol, 8)), BitAt(symbol, 7));
        symbol := 2 * symbol;
        OffsAfter(offs, matchByte, b);
        offs := if offs == 0x100 && BitAt(matchByte, 8) == BitAt(symbol, 8) then 0x100 else 0;
        n := n - 1;
      }
      NoMatched(e, Shr(0x100 + byte, 0), offs, 2 * matchByte, byte);
    }

    /** RcTree_ReverseEncode: the low bits first. */
    method ReverseEncode(a: Footer, numBitLevels: nat, symbol0: nat)
      requires Coding()
      modifies `probs, `syms, rc
      ensures Coding() && syms == old(syms) + FooterBits(a, numBitLevels, 1, symbol0)
    {
      hide FooterBits, FooterNode;
      var m: nat := 1;
      var symbol: nat := symbol0;
      for i := 0 to numBitLevels
        invariant Coding()
        invariant syms + FooterBits(a, numBitLevels - i, m, symbol) == old(syms) + FooterBits(a, numBitLevels, 1, symbol0)
      {
        FooterBitsNext(a, numBitLevels - i, m, symbol);
        var bit: Bit := symbol % 2;
        Shift(syms, Model(FooterNode(a, m), bit), FooterBits(a, numBitLevels - i - 1, 2 * m + bit, symbol / 2));
        EncodeBit(FooterNode(a, m), bit);
        m := 2 * m + bit;
        symbol := symbol / 2;
      }
      NoFooter(a, m, symbol);
    }

    /** LenEnc_Encode */
    method LenEncode(e: Env, u: LenUse, symbol: nat)
      requires Coding()
      modifies `probs, `syms, rc
      ensures Coding() && syms == old(syms) + LenSyms(e, u, symbol)
    {
      hide TreeSyms, LenSyms, Coded;
      LenParts(syms, e, u, symbol);
      if symbol < 8 {
        EncodeBit(Choice(u.ForRep?), 0);
        TreeEncode(e, TLow(u), 3, symbol);
      } else {
        EncodeBit(Choice(u.ForRep?), 1);
        if symbol < 16 {
          EncodeBit(Choice2(u.ForRep?), 0);
          TreeEncode(e, TMid(u), 3, symbol - 8);
        } else {
          EncodeBit(Choice2(u.ForRep?), 1);
          TreeEncode(e, THigh(u), 8, symbol - 16);
        }
      }
    }

    /** GetPosSlot: small distances come from the table directly, others from their leading bits. */
    method GetPosSlot(pos: nat) returns (slot: nat)
      requires FastPosOk(fastPos) && pos < 0x4000_0000
      ensures slot == Slot(pos)
    {
      hide Slot, Shr;
      if pos < 128 {
        slot := fastPos[pos];
      } else {
        var i := 6 + (if (0x7_FFFF - pos) % B32 / 0x8000_0000 == 1 then 12 else 0);
        SlotLookup(pos, i);
        slot := fastPos[Shr(pos, i)] + 2 * i;
      }
    }

    /** The slot of a distance, and its low bits by the slot's models or directly. */
    method DistEncode(e: Env, len: nat, pos: nat)
      requires Coding() && FastPosOk(fastPos) && pos < 0x4000_0000
      modifies `probs, `syms, rc
      ensures Coding() && syms == old(syms) + DistSyms(e, len, pos)
    {
      hide TreeSyms, FooterBits, RawSyms, Coded, Slot, Shl, DistSyms, FastPosOk;
      DistParts(syms, e, len, pos);
      var posSlot := GetPosSlot(pos);
      TreeEncode(e, TSlot(len), 6, posSlot);
      if posSlot >= 4 {
        var footerBits := posSlot / 2 - 1;
        var base: int := Shl(2 + posSlot % 2, footerBits);
        BaseOfSlot(pos);
        var posReduced := pos - base;
        if posSlot < 14 {
          ReverseEncode(Spec(base - posSlot - 1), footerBits, posReduced);
        } else {
          EncodeDirectBits(posReduced / 16, footerBits - 4);
          ReverseEncode(Aligned, 4, posReduced % 16);
        }
      }
    }

    /** A literal, plain or predicted from the byte at the last distance. */
    method CodeLit(e: Env, byte: Byte)
      requires Coding() && state == e.state < NUM_STATES
      modifies `probs, `syms, `state, rc
      ensures Coding() && syms == old(syms) + PacketSyms(e, Lit(byte)) && state == LITERAL_NEXT_STATES[old(state)]
    {
      hide TreeSyms, MatchedSyms, Coded, PacketSyms;
      LitParts(syms, e, byte);
      EncodeBit(IsMatch(state, e.posState), 0);
      if state < NUM_LIT_STATES {
        LitEncode(e, byte);
      } else {
        LitEncodeMatched(e, byte, e.matchByte);
      }
      state := LITERAL_NEXT_STATES[state];
    }

    /** A match at one of the last four distances, which becomes the last; length 1 is the short form. */
    method CodeRep(e: Env, pos: nat, len: nat)
      requires Coding() && state == e.state < NUM_STATES && reps.Length == 4
      requires (pos == 0 && len == 1) || (pos < 4 && 2 <= len <= 273)
      modifies `probs, `syms, `state, rc, reps
      ensures Coding() && syms == old(syms) + PacketSyms(e, RepPacket(pos, len))
      ensures Ctl() == EncNext(old(Ctl()), RepPacket(pos, len))
    {
      hide TreeSyms, LenSyms, Coded, PacketSyms, RepChoice;
      RepParts(syms, e, pos, len);
      EncodeBit(IsMatch(state, e.posState), 1);
      EncodeBit(IsRep(state), 1);
      WhichEncode(e, pos, len);
      MoveToFront(pos);
      if len == 1 {
        state := SHORT_REP_NEXT_STATES[state];
      } else {
        LenEncode(e, ForRep(pos), len - 2);
        state := REP_NEXT_STATES[state];
      }
    }

    method MoveToFront(pos: nat)
      requires pos < 4 && reps.Length == 4
      modifies reps
      ensures reps[0] == old(reps[pos]) && reps[1] == if pos == 0 then old(reps[1]) else old(reps[0])
      ensures reps[2] == if pos >= 2 then old(reps[1]) else old(reps[2])
      ensures reps[3] == if pos == 3 then old(reps[2]) else old(reps[3])
    {
      if pos != 0 {
        var distance := reps[pos];
        if pos == 3 { reps[3] := reps[2]; }
        if pos >= 2 { reps[2] := reps[1]; }
        reps[1] := reps[0];
        reps[0] := distance;
      }
    }

    method WhichEncode(e: Env, pos: nat, len: nat)
      requires Coding() && pos < 4
      modifies `probs, `syms, rc
      ensures Coding() && syms == old(syms) + RepChoice(e, pos, len)
    {
      hide Coded;
      if pos == 0 {
        EncodeBit(IsRepG0(e.state), 0);
        EncodeBit(IsRep0Long(e.state, e.posState), if len == 1 then 0 else 1);
      } else {
        EncodeBit(IsRepG0(e.state), 1);
        if pos == 1 {
          EncodeBit(IsRepG1(e.state), 0);
        } else {
          EncodeBit(IsRepG1(e.state), 1);
          EncodeBit(IsRepG2(e.state), pos - 2);
        }
      }
    }

    /** A match at a new distance. */
    method CodeMatch(e: Env, pos: nat, len: nat)
      requires Valid() && state == e.state && pos < 0x4000_0000 && 2 <= len <= 273
      modifies `probs, `syms, `state, rc, reps
      ensures Coding() && syms == old(syms) + PacketSyms(e, Match(pos, len))
      ensures Ctl() == EncNext(old(Ctl()), Match(pos, len))
    {
      hide LenSyms, DistSyms, Coded, PacketSyms, FastPosOk;
      MatchParts(syms, e, pos, len);
      EncodeBit(IsMatch(state, e.posState), 1);
      EncodeBit(IsRep(state), 0);
      state := MATCH_NEXT_STATES[state];
      LenEncode(e, ForMatch, len - 2);
      DistEncode(e, len, pos);
      reps[3] := reps[2];
      reps[2] := reps[1];
      reps[1] := reps[0];
      reps[0] := pos;
    }

    /** WriteEndMarker: the length of two and all distance bits set. */
    method WriteEndMarker(e: Env)
      requires Coding() && state == e.state < NUM_STATES
      modifies `probs, `syms, `state, rc
      ensures Coding() && syms == old(syms) + PacketSyms(e, END_MARK)
    {
      hide LenSyms, TreeSyms, FooterBits, RawSyms, Coded, PacketSyms;
      EndMarkParts(syms, e);
      EncodeBit(IsMatch(state, e.posState), 1);
      EncodeBit(IsRep(state), 0);
      state := MATCH_NEXT_STATES[state];
      LenEncode(e, ForMatch, 0);
      TreeEncode(e, TSlot(2), 6, 63);
      EncodeDirectBits(0x3FF_FFFF, 26);
      ReverseEncode(Aligned, 4, 15);
    }

    /** A packet can be coded next: it refers into what has been coded, and so do the distances in use. */
    ghost predicate Follows(data: seq<Byte>, pkt: Packet)
      requires reps.Length == 4
      reads this, reps
    {
      && nowPos <= |data| && Applicable(p, Ctl(), data[..nowPos], pkt)
      && (pkt.Lit? ==> nowPos < |data| && pkt.byte == data[nowPos])
    }

    ghost predicate InWindow()
      requires reps.Length == 4
      reads this, reps
    {
      state >= NUM_LIT_STATES ==> reps[0] < nowPos
    }

    /** What the contexts at the current position depend on. */
    method Here(data: seq<Byte>) returns (e: Env)
      requires Valid() && InWindow() && nowPos <= |data|
      ensures e == EncEnv(p, Ctl(), data[..nowPos])
    {
      var posState := Trunc(nowPos, p.pb);
      var coder := 0;
      if nowPos > 0 { coder := LitCoder(p, nowPos, data[nowPos - 1]); }
      var matchByte: Byte := 0;
      if state >= NUM_LIT_STATES { matchByte := data[nowPos - reps[0] - 1]; }
      e := Env(state, posState, coder, matchByte);
    }

    /** One turn of the loop of LzmaEnc_CodeOneBlock, for the packet chosen. */
    method CodePacket(data: seq<Byte>, pkt: Packet)
      requires Valid() && InWindow() && Follows(data, pkt) && p.dicSize <= 0x4000_0000
      modifies `probs, `syms, `state, `nowPos, rc, reps
      ensures Valid() && InWindow() && nowPos == old(nowPos) + PacketLen(pkt)
      ensures syms == old(syms) + PacketSyms(EncEnv(p, old(Ctl()), data[..old(nowPos)]), pkt)
      ensures Ctl() == EncNext(old(Ctl()), pkt)
    {
      hide Coded, PacketSyms, FastPosOk, EncEnv;
      var e := Here(data);
      SameState(p, Ctl(), data[..nowPos]);
      match pkt {
        case Lit(_) => CodeLit(e, data[nowPos]);
        case ShortRep => CodeRep(e, 0, 1);
        case Rep(which, len) => CodeRep(e, which, len);
        case Match(dist, len) => CodeMatch(e, dist, len);
      }
      nowPos := nowPos + PacketLen(pkt);
    }

    /** LzmaEnc_CodeOneBlock over the whole input, then Flush. */
    method Encode(data: seq<Byte>, pkts: seq<Packet>)
      requires Valid() && syms == [] && nowPos == 0 && Ctl() == CONTROL_INIT && p.dicSize <= 0x4000_0000
      requires Parses(p, CONTROL_INIT, [], pkts, data)
      modifies this, rc, reps
      ensures syms == StreamSyms(p, CONTROL_INIT, [], pkts, writeEndMark)
      ensures var iv := AfterAll(START, Steps(map[], syms)); |rc.out| == iv.shifts + 5 && BigEndian(rc.out) == iv.low
    {
      hide Coded, PacketSyms, FastPosOk, Parses, StreamSyms, EncNext, Expand, Applicable, AfterAll, EncEnv;
      var i: nat := 0;
      assert data[..0] == [] && pkts[0..] == pkts;
      while i < |pkts|
        invariant i <= |pkts| && nowPos <= |data| && Valid() && InWindow()
        invariant Parses(p, Ctl(), data[..nowPos], pkts[i..], data)
        invariant syms + StreamSyms(p, Ctl(), data[..nowPos], pkts[i..], writeEndMark)
                  == StreamSyms(p, CONTROL_INIT, [], pkts, writeEndMark)
      {
        ParseStep(p, Ctl(), data, nowPos, pkts[i..], writeEndMark);
        StreamSymsShift(syms, p, Ctl(), data, nowPos, pkts[i..], writeEndMark);
        assert pkts[i..][1..] == pkts[i + 1..];
        CodePacket(data, pkts[i]);
        i := i + 1;
      }
      assert pkts[i..] == [];
      ParseEnd(p, Ctl(), data, nowPos, writeEndMark);
      Flush(data);
    }

    /** Flush: the end mark if wanted, and the bytes still held back. */
    method Flush(data: seq<Byte>)
      requires Valid() && InWindow() && nowPos == |data|
      modifies `probs, `syms, `state, rc
      ensures syms == old(syms) + if writeEndMark then PacketSyms(EncEnv(p, old(Ctl()), data), END_MARK) else []
      ensures var iv := AfterAll(START, Steps(map[], syms)); |rc.out| == iv.shifts + 5 && BigEndian(rc.out) == iv.low
    {
      hide PacketSyms, EncEnv, AfterAll, Steps;
      assert data[..nowPos] == data;
      if writeEndMark {
        var e := Here(data);
        SameState(p, Ctl(), data);
        WriteEndMarker(e);
      }
      rc.FlushData();
    }
  }

  /** The next packet of a parse reproduces the data from here on. */
  lemma {:induction false} ParseStep(p: Props, c: Control, data: seq<Byte>, n: nat, rest: seq<Packet>, mark: bool)
    requires PropsOk(p) && n <= |data| && rest != [] && Parses(p, c, data[..n], rest, data)
    ensures c.state < NUM_STATES && Applicable(p, c, data[..n], rest[0]) && n + PacketLen(rest[0]) <= |data|
    ensures rest[0].Lit? ==> rest[0].byte == data[n]
    ensures Expand(p, c, data[..n], rest[0]) == data[..n + PacketLen(rest[0])]
    ensures Parses(p, EncNext(c, rest[0]), data[..n + PacketLen(rest[0])], rest[1..], data)
  {
    hide CopyOut;
    var w := Expand(p, c, data[..n], rest[0]);
    ParsesExtend(p, EncNext(c, rest[0]), w, rest[1..], data);
    ExpandLen(p, c, data[..n], rest[0]);
    assert w == data[..|w|];
    if rest[0].Lit? { assert w[n] == rest[0].byte; }
  }

  lemma {:induction false} ExpandLen(p: Props, c: Control, w: seq<Byte>, pkt: Packet)
    requires Applicable(p, c, w, pkt)
    ensures |Expand(p, c, w, pkt)| == |w| + PacketLen(pkt)
  {
  }

  lemma {:induction false} StreamSymsShift(syms: seq<Symbol>, p: Props, c: Control, data: seq<Byte>, n: nat,
                                           rest: seq<Packet>, mark: bool)
    requires PropsOk(p) && n <= |data| && rest != [] && Parses(p, c, data[..n], rest, data)
    ensures c.state < NUM_STATES && Encodable(rest[0]) && n + PacketLen(rest[0]) <= |data|
    ensures syms + StreamSyms(p, c, data[..n], rest, mark)
            == syms + PacketSyms(EncEnv(p, c, data[..n]), rest[0])
               + StreamSyms(p, EncNext(c, rest[0]), data[..n + PacketLen(rest[0])], rest[1..], mark)
  {
    hide PacketSyms, EncEnv, Expand, Applicable, EncNext;
    ParseStep(p, c, data, n, rest, mark);
    OkToEncode(p, c, data[..n], rest[0]);
  }

  lemma {:induction false} OkToEncode(p: Props, c: Control, w: seq<Byte>, pkt: Packet)
    requires Applicable(p, c, w, pkt)
    ensures Encodable(pkt)
  {
  }

  lemma {:induction false} ParseEnd(p: Props, c: Control, data: seq<Byte>, n: nat, mark: bool)
    requires PropsOk(p) && n <= |data| && Parses(p, c, data[..n], [], data)
    ensures n == |data| && c.state < NUM_STATES
    ensures StreamSyms(p, c, data[..n], [], mark) == if mark then PacketSyms(EncEnv(p, c, data), END_MARK) else []
  {
    hide PacketSyms, EncEnv;
  }

  lemma {:induction false} SameState(p: Props, c: Control, w: seq<Byte>)
    requires p.lc <= 8
    ensures EncEnv(p, c, w).state == c.state
  {
  }

  function RepPacket(pos: nat, len: nat): Packet
  {
    if len == 1 then ShortRep else Rep(pos, len)
  }

  function RepChoice(e: Env, pos: nat, len: nat): seq<Symbol>
    requires pos < 4
  {
    if pos == 0 then [Model(IsRepG0(e.state), 0), Model(IsRep0Long(e.state, e.posState), if len == 1 then 0 else 1)]
    else if pos == 1 then [Model(IsRepG0(e.state), 1), Model(IsRepG1(e.state), 0)]
    else [Model(IsRepG0(e.state), 1), Model(IsRepG1(e.state), 1), Model(IsRepG2(e.state), pos - 2)]
  }

  lemma {:induction false} LitParts(before: seq<Symbol>, e: Env, b: Byte)
    ensures before + PacketSyms(e, Lit(b))
            == before + [Model(IsMatch(e.state, e.posState), 0)]
               + if e.state < NUM_LIT_STATES then WholeTree(e, TLit, b) else MatchedSyms(e, 8, 1, 0x100, 2 * e.matchByte, b)
  {
    hide TreeSyms, MatchedSyms;
  }

  lemma {:induction false} RepParts(before: seq<Symbol>, e: Env, pos: nat, len: nat)
    requires (pos == 0 && len == 1) || (pos < 4 && 2 <= len <= 273)
    ensures before + PacketSyms(e, RepPacket(pos, len))
            == before + [Model(IsMatch(e.state, e.posState), 1)] + [Model(IsRep(e.state), 1)] + RepChoice(e, pos, len)
               + if len == 1 then [] else LenSyms(e, ForRep(pos), len - 2)
  {
    hide LenSyms;
    if len != 1 { assert WhichSyms(e, pos) == RepChoice(e, pos, len); }
  }

  lemma {:induction false} MatchParts(before: seq<Symbol>, e: Env, d: nat, len: nat)
    requires Encodable(Match(d, len))
    ensures before + PacketSyms(e, Match(d, len))
            == before + [Model(IsMatch(e.state, e.posState), 1)] + [Model(IsRep(e.state), 0)]
               + LenSyms(e, ForMatch, len - 2) + DistSyms(e, len, d)
  {
    hide LenSyms, DistSyms;
  }

  lemma {:induction false} BaseOfSlot(d: nat)
    requires Slot(d) >= 4
    ensures Shl(2 + Slot(d) % 2, Slot(d) / 2 - 1) == SlotBase(Slot(d)) <= d
  {
    ShlTwoThree(Slot(d) / 2 - 1);
    SlotCovers(d);
  }

  /** What is left of a distance above the start of its slot. */
  function LowBits(d: nat): nat
  {
    if Slot(d) < 4 then 0 else ToNat(d - SlotBase(Slot(d)))
  }

  lemma {:induction false} DistParts(before: seq<Symbol>, e: Env, len: nat, d: nat)
    requires d < B32
    ensures before + DistSyms(e, len, d)
            == if Slot(d) < 4 then before + TreeSyms(e, TSlot(len), 6, 1, Slot(d))
               else if Slot(d) < 14
               then before + TreeSyms(e, TSlot(len), 6, 1, Slot(d))
                    + FooterBits(Spec(SlotBase(Slot(d)) - Slot(d) - 1), Slot(d) / 2 - 1, 1, LowBits(d))
               else before + TreeSyms(e, TSlot(len), 6, 1, Slot(d)) + RawSyms(LowBits(d) / 16, Slot(d) / 2 - 5)
                    + FooterBits(Aligned, 4, 1, LowBits(d) % 16)
  {
    hide TreeSyms, RawSyms, SpecSyms, AlignSyms, Slot, SlotBase, Pow2;
    SlotCovers(d);
  }

  /** The end mark's distance: slot 63, all 26 direct bits and all align bits set. */
  lemma {:induction false} EndMarkParts(before: seq<Symbol>, e: Env)
    ensures before + PacketSyms(e, END_MARK)
            == before + [Model(IsMatch(e.state, e.posState), 1)] + [Model(IsRep(e.state), 0)] + LenSyms(e, ForMatch, 0)
               + TreeSyms(e, TSlot(2), 6, 1, 63) + RawSyms(0x3FF_FFFF, 26) + FooterBits(Aligned, 4, 1, 15)
  {
    hide LenSyms, TreeSyms, RawSyms, FooterBits, DistSyms, Slot, Pow2, SlotStart, SlotBase;
    MatchParts(before, e, END_DISTANCE, 2);
    LastSlot();
    DistParts(before + [Model(IsMatch(e.state, e.posState), 1)] + [Model(IsRep(e.state), 0)] + LenSyms(e, ForMatch, 0),
              e, 2, END_DISTANCE);
  }

  lemma {:induction false} LastSlot()
    ensures Slot(END_DISTANCE) == 63 && SlotBase(63) == 0xC000_0000
  {
    hide Pow2;
    Pow2Word();
    assert Pow2(30) == 0x4000_0000 by { SixteenTimes(28); Pow2Next(31); Pow2Next(30); }
    SlotInBlock(63, END_DISTANCE);
  }

  lemma {:induction false} LenParts(before: seq<Symbol>, e: Env, u: LenUse, l: nat)
    ensures before + LenSyms(e, u, l)
            == if l < 8 then before + [Model(Choice(u.ForRep?), 0)] + TreeSyms(e, TLow(u), 3, 1, l)
               else if l < 16
               then before + [Model(Choice(u.ForRep?), 1)] + [Model(Choice2(u.ForRep?), 0)]
                    + TreeSyms(e, TMid(u), 3, 1, l - 8)
               else before + [Model(Choice(u.ForRep?), 1)] + [Model(Choice2(u.ForRep?), 1)]
                    + TreeSyms(e, THigh(u), 8, 1, l - 16)
  {
    hide TreeSyms;
  }

  lemma {:induction false} SlotLookup(pos: nat, i: nat)
    requires 128 <= pos < 0x4000_0000 && i == 6 + (if (0x7_FFFF - pos) % B32 / 0x8000_0000 == 1 then 12 else 0)
    ensures 2 <= Shr(pos, i) < FAST_POS_SIZE && Slot(pos) == Slot(Shr(pos, i)) + 2 * i
  {
    hide Shr, Slot, Shl;
    ShlPowers();
    if pos <= 0x7_FFFF {
      assert i == 6;
    } else {
      assert (0x7_FFFF - pos) % B32 == B32 + 0x7_FFFF - pos;
      assert i == 18;
    }
    ShrAtLeast(pos, 2, i);
    ShrBelow(pos, FAST_POS_SIZE, i);
    SlotShifted(pos, i);
  }

  lemma {:induction false} ShlPowers()
    ensures Shl(2, 6) == 128 && Shl(FAST_POS_SIZE, 6) == 0x8_0000 && Shl(2, 18) == 0x8_0000
            && Shl(FAST_POS_SIZE, 18) == 0x8000_0000
  {
    assert Shl(2, 6) == 128;
    assert Shl(FAST_POS_SIZE, 6) == 0x8_0000;
    assert Shl(2, 9) == 0x400 && Shl(FAST_POS_SIZE, 9) == 0x40_0000;
    assert Shl(2, 18) == 0x8_0000;
    assert Shl(FAST_POS_SIZE, 18) == 0x8000_0000;
  }

  /** The models of the low bits of a distance: those of a slot, at an offset, or the align models. */
  datatype Footer = Spec(off: int) | Aligned

  function FooterNode(a: Footer, m: nat): Context
  {
    match a case Spec(off) => SpecPos(off + m) case Aligned => Align(m)
  }

  function FooterBits(a: Footer, n: nat, m: nat, v: nat): seq<Symbol>
  {
    match a case Spec(off) => SpecSyms(off, n, m, v) case Aligned => AlignSyms(n, m, v)
  }

  lemma {:induction false} FooterBitsNext(a: Footer, n: nat, m: nat, v: nat)
    requires n > 0
    ensures FooterBits(a, n, m, v) == [Model(FooterNode(a, m), v % 2)] + FooterBits(a, n - 1, 2 * m + v % 2, v / 2)
  {
  }

  lemma {:induction false} NoFooter(a: Footer, m: nat, v: nat)
    ensures FooterBits(a, 0, m, v) == []
  {
  }

  lemma {:induction false} MatchedSymsNext(e: Env, n: nat, m: nat, offs: nat, shifted: nat, v: nat)
    requires n > 0
    ensures var b := BitAt(v, n - 1);
            MatchedSyms(e, n, m, offs, shifted, v)
            == [Model(Literal(e.coder, offs + MatchBit(offs, shifted) + m), b)]
               + MatchedSyms(e, n - 1, 2 * m + b, NextOffs(offs, shifted, b), 2 * shifted, v)
  {
  }

  lemma {:induction false} NoMatched(e: Env, m: nat, offs: nat, shifted: nat, v: nat)
    ensures MatchedSyms(e, 0, m, offs, shifted, v) == []
  {
  }

  lemma {:induction false} OffsAfter(offs: nat, matchByte: nat, b: Bit)
    requires offs == 0 || offs == 0x100
    ensures NextOffs(offs, matchByte, b) == if offs == 0x100 && BitAt(matchByte, 8) == b then 0x100 else 0
  {
    EightDown(matchByte);
  }

  lemma {:induction false} RegisterFull(b: Byte)
    ensures Register(b, 8) == 0x100 + b
  {
  }

  lemma {:induction false} NoTree(e: Env, t: TreeUse, m: nat, v: nat)
    ensures TreeSyms(e, t, 0, m, v) == []
  {
  }
}
