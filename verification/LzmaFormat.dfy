/**
 * What the choices that coder and decoder of LZMA share mean: which literal coder, which state, which contexts, how a
 * decision divides the range and how a probability learns. A stream made with other choices would still come back, but
 * would not be an LZMA stream.
 */
module LzmaFormat {
  import opened Bits
  import opened Modular
  import opened RangeSpec
  import opened RangeEncoder
  import opened LzmaContexts
  import opened LzmaPackets
  import opened LzmaRun
  import opened LzmaStream

  // ---------------------------------------------------------------- shifts as quotients

  lemma {:induction false} HalfQuotient(v: nat, d: nat)
    requires d > 0
    ensures v / (2 * d) == v / 2 / d && v % (2 * d) == v % 2 + 2 * (v / 2 % d)
  {
    var q, r := v / 2 / d, v / 2 % d;
    assert v / 2 == q * d + r;
    assert v == q * (2 * d) + (2 * r + v % 2);
    QuotientOf(v, 2 * d, q, 2 * r + v % 2);
  }

  lemma {:induction false} TruncIsMod(v: nat, n: nat)
    ensures Trunc(v, n) == v % Pow2(n)
    decreases n
  {
    if n > 0 {
      TruncIsMod(v / 2, n - 1);
      HalfQuotient(v, Pow2(n - 1));
    }
  }

  lemma {:induction false} ShrIsDiv(v: nat, n: nat)
    ensures Shr(v, n) == v / Pow2(n)
    decreases n
  {
    if n > 0 {
      ShrIsDiv(v / 2, n - 1);
      HalfQuotient(v, Pow2(n - 1));
    }
  }

  lemma {:induction false} ShlIsTimes(v: nat, n: nat)
    ensures Shl(v, n) == v * Pow2(n)
  {
    if n > 0 { ShlIsTimes(v, n - 1); }
  }

  // ---------------------------------------------------------------- literal coders

  /** The class that a literal behind n bytes, the last of them prev, belongs to. */
  function LitClass(p: Props, n: nat, prev: Byte): (int, int)
    requires p.lc <= 8
  {
    (n % Pow2(p.lp), prev / Pow2(8 - p.lc))
  }

  lemma {:induction false} CoderClass(p: Props, n: nat, prev: Byte, n': nat, prev': Byte)
    requires PropsOk(p)
    ensures LitCoder(p, n, prev) == LitCoder(p, n', prev') <==> LitClass(p, n, prev) == LitClass(p, n', prev')
  {
    hide Shl, Shr, Trunc;
    var d := Pow2(p.lc);
    CoderParts(p, n, prev);
    CoderParts(p, n', prev');
    var x, y := n % Pow2(p.lp), prev / Pow2(8 - p.lc);
    var x', y' := n' % Pow2(p.lp), prev' / Pow2(8 - p.lc);
    if x * d + y == x' * d + y' {
      QuotientOf(x * d + y, d, x, y);
      QuotientOf(x * d + y, d, x', y');
    }
  }

  lemma {:induction false} CoderParts(p: Props, n: nat, prev: Byte)
    requires PropsOk(p)
    ensures LitCoder(p, n, prev) == n % Pow2(p.lp) * Pow2(p.lc) + prev / Pow2(8 - p.lc)
    ensures 0 <= prev / Pow2(8 - p.lc) < Pow2(p.lc)
  {
    hide Shl, Shr, Trunc;
    var v: nat := prev;
    TruncIsMod(n, p.lp);
    ShrIsDiv(v, 8 - p.lc);
    ShlIsTimes(n % Pow2(p.lp), p.lc);
    Pow2Small();
    ShrBound(v, 8 - p.lc, p.lc);
  }

  /**
   * Two literals share their probabilities if and only if they stand at positions that agree in their low lp bits, behind
   * bytes that agree in their high lc bits; the first of all has the coder 0.
   */
  lemma {:induction false} EncoderLiterals(p: Props, c: Control, w: seq<Byte>, c': Control, w': seq<Byte>)
    requires PropsOk(p)
    ensures w != [] && w' != [] ==>
              (EncEnv(p, c, w).coder == EncEnv(p, c', w').coder
               <==> |w| % Pow2(p.lp) == |w'| % Pow2(p.lp)
                    && w[|w| - 1] / Pow2(8 - p.lc) == w'[|w'| - 1] / Pow2(8 - p.lc))
    ensures w == [] ==> EncEnv(p, c, w).coder == 0
    ensures EncEnv(p, c, w).posState == |w| % Pow2(p.pb)
  {
    hide LitCoder, Trunc;
    TruncIsMod(|w|, p.pb);
    if w != [] && w' != [] {
      CoderClass(p, |w|, w[|w| - 1], |w'|, w'[|w'| - 1]);
    }
  }

  /** The place of the byte written last. */
  function LastPlace(st: DecState): int
  {
    if st.dicPos == 0 then |st.dic| - 1 else st.dicPos - 1
  }

  /** The decoder chooses by its position counter and the byte in front of its buffer position. */
  lemma {:induction false} DecoderLiterals(p: Props, st: DecState, st': DecState)
    requires PropsOk(p) && 0 < |st.dic| && st.dicPos <= |st.dic| && 0 < |st'.dic| && st'.dicPos <= |st'.dic|
    ensures (st.checkDicSize != 0 || st.processedPos != 0) && (st'.checkDicSize != 0 || st'.processedPos != 0) ==>
              (DecEnv(p, st).coder == DecEnv(p, st').coder
               <==> st.processedPos % Pow2(p.lp) == st'.processedPos % Pow2(p.lp)
                    && st.dic[LastPlace(st)] / Pow2(8 - p.lc) == st'.dic[LastPlace(st')] / Pow2(8 - p.lc))
    ensures st.checkDicSize == 0 && st.processedPos == 0 ==> DecEnv(p, st).coder == 0
    ensures DecEnv(p, st).posState == st.processedPos % Pow2(p.pb)
  {
    hide LitCoder, Trunc;
    TruncIsMod(st.processedPos, p.pb);
    CoderClass(p, st.processedPos, st.dic[LastPlace(st)], st'.processedPos, st'.dic[LastPlace(st')]);
  }

  // ---------------------------------------------------------------- states

  datatype Kind = Literal | NewMatch | RepMatch | ShortMatch

  function KindOf(pkt: Packet): Kind
  {
    match pkt case Lit(_) => Kind.Literal case ShortRep => ShortMatch case Rep(_, _) => RepMatch case Match(_, _) => NewMatch
  }

  /** How many literals came last. */
  function Tail(pkts: seq<Packet>): (n: nat)
    ensures n <= |pkts| && (n < |pkts| ==> !pkts[|pkts| - 1 - n].Lit?)
  {
    if pkts == [] || !pkts[|pkts| - 1].Lit? then 0 else 1 + Tail(pkts[..|pkts| - 1])
  }

  predicate AllEncodable(pkts: seq<Packet>)
  {
    forall i :: 0 <= i < |pkts| ==> Encodable(pkts[i])
  }

  function ControlAfter(c: Control, pkts: seq<Packet>): (r: Control)
    requires c.state < NUM_STATES && AllEncodable(pkts)
    ensures r.state < NUM_STATES
  {
    if pkts == [] then c else EncNext(ControlAfter(c, pkts[..|pkts| - 1]), pkts[|pkts| - 1])
  }

  /**
   * The state that a history leads to. Three literals are forgotten; up to two are counted, with the kind of match in
   * front of them; right behind a match it also matters whether a literal stood in front of it. Behind another match,
   * repeats are all alike.
   */
  function Told(pkts: seq<Packet>): nat
  {
    var n := Tail(pkts);
    if n == |pkts| || n >= 3 then 0
    else
      var i := |pkts| - 1 - n;
      var kind := KindOf(pkts[i]);
      var afterLit := i == 0 || pkts[i - 1].Lit?;
      if n == 0 then
        if kind.NewMatch? then if afterLit then 7 else 10
        else if !afterLit then 11
        else if kind.RepMatch? then 8 else 9
      else (if n == 1 then 4 else 1) + if kind.NewMatch? then 0 else if kind.RepMatch? || !afterLit then 1 else 2
  }

  lemma {:induction false} ToldBound(pkts: seq<Packet>)
    ensures Told(pkts) < NUM_STATES
    ensures pkts != [] ==> (Told(pkts) < NUM_LIT_STATES <==> pkts[|pkts| - 1].Lit?)
  {
  }

  lemma {:induction false} ToldLiteral(before: seq<Packet>, pkt: Packet)
    requires pkt.Lit?
    ensures Told(before) < NUM_STATES && Told(before + [pkt]) == LITERAL_NEXT_STATES[Told(before)]
  {
    var pkts := before + [pkt];
    assert pkts[..|before|] == before;
    var n := Tail(before);
    assert Tail(pkts) == n + 1;
    if n < |before| {
      var i := |before| - 1 - n;
      assert pkts[i] == before[i];
      if i > 0 { assert pkts[i - 1] == before[i - 1]; }
    }
  }

  lemma {:induction false} ToldMatch(before: seq<Packet>, pkt: Packet)
    requires !pkt.Lit?
    ensures Told(before + [pkt])
            == if before == [] || before[|before| - 1].Lit?
               then (match pkt case Lit(_) => 0 case ShortRep => 9 case Rep(_, _) => 8 case Match(_, _) => 7)
               else (match pkt case Lit(_) => 0 case ShortRep => 11 case Rep(_, _) => 11 case Match(_, _) => 10)
  {
    var pkts := before + [pkt];
    assert Tail(pkts) == 0;
    if before != [] { assert pkts[|before| - 1] == before[|before| - 1]; }
  }

  /** The state tells what the last packets were. */
  lemma {:induction false} StateTells(pkts: seq<Packet>)
    requires AllEncodable(pkts)
    ensures ControlAfter(CONTROL_INIT, pkts).state == Told(pkts)
    ensures pkts != [] ==> (ControlAfter(CONTROL_INIT, pkts).state < NUM_LIT_STATES <==> pkts[|pkts| - 1].Lit?)
    decreases |pkts|
  {
    hide Told, Tail;
    ToldBound(pkts);
    if pkts == [] {
      assert Told([]) == 0 by { ToldNothing(); }
    } else {
      var before, pkt := pkts[..|pkts| - 1], pkts[|pkts| - 1];
      assert pkts == before + [pkt];
      StateTells(before);
      ToldBound(before);
      if pkt.Lit? {
        ToldLiteral(before, pkt);
      } else {
        ToldMatch(before, pkt);
        if before == [] { ToldNothing(); }
      }
    }
  }

  lemma {:induction false} ToldNothing()
    ensures Told([]) == 0
  {
  }

  /** The repeat distances as a list. */
  function Reps(c: Control): seq<nat>
  {
    [c.rep0, c.rep1, c.rep2, c.rep3]
  }

  /** The last four different uses of a distance, the latest first. */
  lemma {:induction false} RepsMoveToFront(c: Control, pkt: Packet)
    requires c.state < NUM_STATES && Encodable(pkt)
    ensures Reps(EncNext(c, pkt))
            == match pkt
               case Lit(_) => Reps(c)
               case ShortRep => Reps(c)
               case Rep(k, _) => [Reps(c)[k]] + Reps(c)[..k] + Reps(c)[k + 1..]
               case Match(d, _) => [d] + Reps(c)[..3]
  {
  }

  // ---------------------------------------------------------------- contexts of a packet

  /** Lengths 2, 3 and 4 have slot trees of their own, all longer matches share one. */
  lemma {:induction false} SlotTrees(e: Env, len: nat, len': nat, m: nat)
    requires 2 <= len && 2 <= len'
    ensures TreeNode(e, TSlot(len), m) == TreeNode(e, TSlot(len'), m) <==> len == len' || (len >= 5 && len' >= 5)
  {
  }

  /** The first j of the eight bits of a byte. */
  function Front(b: Byte, j: nat): nat
    requires j <= 8
  {
    hide Pow2;
    var v: nat := b;
    QuotientNatural(v, Pow2(8 - j));
    v / Pow2(8 - j)
  }

  lemma {:induction false} QuotientNatural(v: nat, d: nat)
    requires d > 0
    ensures v / d >= 0
  {
  }

  /** Bit j of a byte, counted from the top. */
  function FromTop(b: Byte, j: nat): Bit
    requires j < 8
  {
    Front(b, j + 1) % 2
  }

  lemma {:induction false} FrontNext(b: Byte, j: nat)
    requires j < 8
    ensures BitAt(b, 7 - j) == FromTop(b, j) && Front(b, j + 1) == 2 * Front(b, j) + FromTop(b, j)
  {
    var v: nat := b;
    ShrIsDiv(v, 7 - j);
    ShrIsDiv(v, 8 - j);
    ShrHalves(v, 7 - j);
  }

  lemma {:induction false} PlainSymbols(e: Env, b: Byte, i: nat, j: nat)
    requires i <= j < 8
    ensures var q := TreeSyms(e, TLit, 8 - i, Node(b, i), b);
            |q| == 8 - i && q[j - i] == Model(Context.Literal(e.coder, Node(b, j)), FromTop(b, j))
    decreases 8 - i
  {
    hide Front, FromTop, Pow2, Node, BitAt;
    FrontNext(b, i);
    NodeNext(b, i);
    if i < 7 {
      PlainSymbols(e, b, i + 1, if j > i then j else i + 1);
    } else {
      assert TreeSyms(e, TLit, 0, Node(b, 8), b) == [];
    }
  }

  lemma {:induction false} ScaledQuotient(v: nat, l: nat, h: nat)
    requires h > 0 && l > 0 && h * l == 0x100
    ensures v * l / 0x100 == v / h
  {
    var q, r := v / h, v % h;
    assert v == q * h + r;
    assert v * l == q * (h * l) + r * l;
    ScaleLe(l, r + 1, h);
    ScaleLe(l, 0, r);
    QuotientOf(v * l, 0x100, q, r * l);
  }

  /** The bit of the match byte that predicts bit i. */
  lemma {:induction false} ShiftedBit(mb: Byte, i: nat)
    requires i < 8
    ensures mb * Pow2(i + 1) / 0x100 % 2 == FromTop(mb, i) && 2 * (mb * Pow2(i + 1)) == mb * Pow2(i + 2)
  {
    hide Pow2;
    var v: nat := mb;
    SameWeight(i);
    ScaledQuotient(v, Pow2(i + 1), Pow2(7 - i));
    assert 2 * (v * Pow2(i + 1)) == v * (2 * Pow2(i + 1));
  }

  lemma {:induction false} SameWeight(i: nat)
    requires i < 8
    ensures Pow2(7 - i) * Pow2(i + 1) == 0x100 && Pow2(i + 2) == 2 * Pow2(i + 1)
  {
    if i > 0 { SameWeight(i - 1); } else { assert Pow2(7) == 128 && Pow2(1) == 2; }
  }

  /** The context offset of bit j: predicted while the bits before agree with the match byte. */
  function Predicted(b: Byte, mb: Byte, j: nat): nat
    requires j < 8
  {
    if Front(b, j) == Front(mb, j) then 0x100 + 0x100 * FromTop(mb, j) else 0
  }

  /** The node that the first i bits lead to. */
  function Node(b: Byte, i: nat): nat
    requires i <= 8
  {
    Pow2(i) + Front(b, i)
  }

  lemma {:induction false} NodeNext(b: Byte, i: nat)
    requires i < 8
    ensures Node(b, i + 1) == 2 * Node(b, i) + FromTop(b, i)
  {
    hide Front, FromTop;
    FrontNext(b, i);
  }

  function Offs(b: Byte, mb: Byte, i: nat): nat
    requires i <= 8
  {
    if Front(b, i) == Front(mb, i) then 0x100 else 0
  }

  lemma {:induction false} OffsNext(b: Byte, mb: Byte, i: nat)
    requires i < 8
    ensures Offs(b, mb, i) + MatchBit(Offs(b, mb, i), mb * Pow2(i + 1)) == Predicted(b, mb, i)
    ensures NextOffs(Offs(b, mb, i), mb * Pow2(i + 1), FromTop(b, i)) == Offs(b, mb, i + 1)
  {
    hide Front, FromTop, Pow2;
    FrontNext(b, i);
    FrontNext(mb, i);
    ShiftedBit(mb, i);
  }

  lemma {:induction false} MatchedSymbols(e: Env, b: Byte, mb: Byte, i: nat, j: nat)
    requires i <= j < 8
    ensures var q := MatchedSyms(e, 8 - i, Node(b, i), Offs(b, mb, i), mb * Pow2(i + 1), b);
            |q| == 8 - i && q[j - i] == Model(Context.Literal(e.coder, Predicted(b, mb, j) + Node(b, j)), FromTop(b, j))
    decreases 8 - i
  {
    hide Front, FromTop, Pow2, Node, Offs, MatchBit, NextOffs, Predicted, BitAt;
    FrontNext(b, i);
    ShiftedBit(mb, i);
    NodeNext(b, i);
    OffsNext(b, mb, i);
    if i < 7 {
      MatchedSymbols(e, b, mb, i + 1, if j > i then j else i + 1);
    } else {
      assert MatchedSyms(e, 0, Node(b, 8), Offs(b, mb, 8), 2 * (mb * Pow2(8)), b) == [];
    }
  }

  /**
   * The symbols of a literal. Bit j, from the top, is coded in the literal coder's context that the bits before it lead
   * to; behind a match, as long as those bits agree with the match byte, in one that also knows bit j of that byte.
   */
  lemma {:induction false} LiteralSymbols(e: Env, b: Byte, j: nat)
    requires j < 8
    ensures var q := PacketSyms(e, Lit(b));
            && |q| == 9 && q[0] == Model(IsMatch(e.state, e.posState), 0)
            && q[1 + j] == Model(Context.Literal(e.coder, (if e.state >= 7 then Predicted(b, e.matchByte, j) else 0)
                                                          + Node(b, j)), FromTop(b, j))
  {
    hide Predicted, FromTop, TreeSyms, MatchedSyms, Front;
    FrontNone(b);
    FrontNone(e.matchByte);
    var mb: nat := e.matchByte;
    assert mb * Pow2(1) == 2 * mb by { assert Pow2(1) == 2; }
    PlainSymbols(e, b, 0, j);
    MatchedSymbols(e, b, e.matchByte, 0, j);
  }

  lemma {:induction false} FrontNone(b: Byte)
    ensures Front(b, 0) == 0 && Node(b, 0) == 1
  {
    Pow2Small();
  }

  /**
   * The symbols of a length: the choice bits, then three bits for lengths 2 to 9 and 10 to 17, which know the position
   * state, and eight for the others, which do not.
   */
  lemma {:induction false} LengthSymbols(e: Env, u: LenUse, len: nat)
    requires 2 <= len <= 273
    ensures var q := LenSyms(e, u, len - 2);
            var rep := u.ForRep?;
            && q != [] && q[0] == Model(Choice(rep), if len < 10 then 0 else 1)
            && if len < 10 then |q| == 4 && q[1] == Model(Low(rep, e.posState, 1), if len < 6 then 0 else 1)
               else if len < 18 then |q| == 5 && q[1] == Model(Choice2(rep), 0)
                                     && q[2] == Model(Mid(rep, e.posState, 1), if len < 14 then 0 else 1)
               else |q| == 10 && q[1] == Model(Choice2(rep), 1) && q[2] == Model(High(rep, 1), if len < 146 then 0 else 1)
  {
    hide TreeSyms;
    TreeHead(e, TLow(u), if len < 10 then len - 2 else 0);
    TreeHead(e, TMid(u), if 10 <= len < 18 then len - 10 else 0);
    TreeHead(e, THigh(u), if len >= 18 then len - 18 else 0);
    assert Pow2(2) == 4 && Pow2(7) == 128;
  }

  lemma {:induction false} TreeHead(e: Env, tree: TreeUse, v: nat)
    requires v < Pow2(TreeDepth(tree))
    ensures var q := WholeTree(e, tree, v);
            |q| == TreeDepth(tree)
            && q[0] == Model(TreeNode(e, tree, 1), if v < Pow2(TreeDepth(tree) - 1) then 0 else 1)
  {
    var n := TreeDepth(tree);
    TreeCount(e, tree, n, 1, v);
    ShrIsDiv(v, n - 1);
    var d := Pow2(n - 1);
    if v < d { QuotientOf(v, d, 0, v); } else { QuotientOf(v, d, 1, v - d); }
  }

  lemma {:induction false} TreeCount(e: Env, tree: TreeUse, n: nat, m: nat, v: nat)
    ensures |TreeSyms(e, tree, n, m, v)| == n
  {
    if n > 0 { TreeCount(e, tree, n - 1, 2 * m + BitAt(v, n - 1), v); }
  }

  /** The slot is twice the place of the leading bit plus the bit below it. */
  lemma {:induction false} SlotIs(d: nat, p: nat)
    requires p >= 1 && Pow2(p) <= d < Pow2(p + 1)
    ensures Slot(d) == 2 * p + BitAt(d, p - 1)
    decreases p
  {
    if p >= 2 {
      SlotIs(d / 2, p - 1);
      assert Pow2(p) == 2 * Pow2(p - 1) && Pow2(p - 1) >= 2;
    } else {
      assert Pow2(1) == 2 && Pow2(2) == 4;
      assert d == 2 || d == 3;
    }
  }

  /** Bits below n do not see what is added from bit n on. */
  lemma {:induction false} LowBits(low: nat, c: nat, n: nat, k: nat)
    requires k < n
    ensures BitAt(Shl(c, n) + low, k) == BitAt(low, k)
  {
    if k > 0 {
      LowBits(low / 2, c, n - 1, k - 1);
      assert (Shl(c, n) + low) / 2 == Shl(c, n - 1) + low / 2;
    }
  }

  lemma {:induction false} SpecBits(off: int, n: nat, m: nat, v: nat, k: nat)
    requires k < n
    ensures var q := SpecSyms(off, n, m, v); |q| == n && q[k].Model? && q[k].ctx.SpecPos? && q[k].bit == BitAt(v, k)
    decreases n
  {
    if k > 0 {
      SpecBits(off, n - 1, 2 * m + v % 2, v / 2, k - 1);
    } else if n > 1 {
      SpecBits(off, n - 1, 2 * m + v % 2, v / 2, 0);
    }
  }

  lemma {:induction false} AlignBits(n: nat, m: nat, v: nat, k: nat)
    requires k < n
    ensures var q := AlignSyms(n, m, v); |q| == n && q[k].Model? && q[k].ctx.Align? && q[k].bit == BitAt(v, k)
    decreases n
  {
    if k > 0 {
      AlignBits(n - 1, 2 * m + v % 2, v / 2, k - 1);
    } else if n > 1 {
      AlignBits(n - 1, 2 * m + v % 2, v / 2, 0);
    }
  }

  lemma {:induction false} RawBits(v: nat, n: nat)
    ensures |RawSyms(v, n)| == n
    ensures forall k :: 0 <= k < n ==> RawSyms(v, n)[k] == Raw(BitAt(v, n - 1 - k))
  {
    if n > 0 { RawBits(v, n - 1); }
  }

  lemma {:induction false} BitsBySixteen(v: nat, k: nat)
    ensures BitAt(v / 16, k) == BitAt(v, k + 4)
    ensures k < 4 ==> BitAt(v % 16, k) == BitAt(v, k)
  {
    assert v / 16 == v / 2 / 2 / 2 / 2;
    assert Shr(v, k + 4) == Shr(v / 2, k + 3);
    assert Shr(v / 2, k + 3) == Shr(v / 2 / 2, k + 2);
    assert Shr(v / 2 / 2, k + 2) == Shr(v / 2 / 2 / 2, k + 1);
    if k < 4 {
      LowBits(v % 16, v / 16, 4, k);
      assert Shl(v / 16, 4) == 16 * (v / 16) by { FourDoublings(v / 16); }
    }
  }

  lemma {:induction false} FourDoublings(x: nat)
    ensures Shl(x, 4) == 16 * x
  {
    assert Shl(x, 1) == 2 * x && Shl(x, 2) == 4 * x && Shl(x, 3) == 8 * x;
  }

  /**
   * The symbols of a distance whose leading bit is bit p: six for its slot, which say p and the bit below, and the
   * other p - 1 bits. Below 128 these are modelled, the lowest first; from there on they come as they are, the highest
   * first, but for the last four, which are modelled, the lowest first.
   */
  lemma {:induction false} DistanceSymbols(e: Env, len: nat, d: nat, p: nat, k: nat)
    requires 4 <= d < B32 && Pow2(p) <= d < Pow2(p + 1) && k < p - 1
    ensures var q := DistSyms(e, len, d);
            && |q| == 6 + (p - 1) && q[..6] == WholeTree(e, TSlot(len), 2 * p + BitAt(d, p - 1))
            && if d < 128 then q[6 + k].Model? && q[6 + k].ctx.SpecPos? && q[6 + k].bit == BitAt(d, k)
               else if k < p - 5 then q[6 + k] == Raw(BitAt(d, p - 2 - k))
               else q[6 + k].Model? && q[6 + k].ctx.Align? && q[6 + k].bit == BitAt(d, k - (p - 5))
  {
    hide Pow2, TreeSyms, SpecSyms, AlignSyms, RawSyms, BitAt, Slot;
    SlotIs(d, p);
    SlotCovers(d);
    var slot, n := Slot(d), p - 1;
    assert SlotBits(slot) == n;
    var c := 2 + slot % 2;
    ShlIsTimes(c, n);
    assert SlotBase(slot) == Shl(c, n);
    var low := d - SlotBase(slot);
    TreeCount(e, TSlot(len), 6, 1, slot);
    SevenBits(d, p);
    FooterBits(slot, n, low, c, k);
  }

  /** From 128 on the leading bit is bit 7 or higher. */
  lemma {:induction false} SevenBits(d: nat, p: nat)
    requires Pow2(p) <= d < Pow2(p + 1)
    ensures d < 128 <==> p <= 6
  {
    hide Pow2;
    assert Pow2(7) == 128 by { Pow2Seven(); }
    if p <= 6 { Pow2Monotone(p + 1, 7); } else { Pow2Monotone(7, p); }
  }

  lemma {:induction false} Pow2Seven()
    ensures Pow2(7) == 128
  {
  }

  lemma {:induction false} Pow2Monotone(a: nat, b: nat)
    requires a <= b
    ensures Pow2(a) <= Pow2(b)
  {
    if a < b { Pow2Monotone(a, b - 1); }
  }

  lemma {:induction false} FooterBits(slot: nat, n: nat, low: nat, c: nat, k: nat)
    requires slot >= 4 && n == SlotBits(slot) && k < n
    ensures var q, d := FooterSyms(slot, low), Shl(c, n) + low;
            && |q| == n
            && if slot < 14 then q[k].Model? && q[k].ctx.SpecPos? && q[k].bit == BitAt(d, k)
               else if k < n - 4 then q[k] == Raw(BitAt(d, n - 1 - k))
               else q[k].Model? && q[k].ctx.Align? && q[k].bit == BitAt(d, k - (n - 4))
  {
    hide Pow2, SpecSyms, AlignSyms, RawSyms, BitAt;
    if slot < 14 {
      SpecBits(SlotBase(slot) - slot - 1, n, 1, low, k);
      LowBits(low, c, n, k);
    } else {
      RawBits(low / 16, n - 4);
      var j := if k < n - 4 then 0 else k - (n - 4);
      AlignBits(4, 1, low % 16, j);
      if k < n - 4 {
        BitsBySixteen(low, n - 5 - k);
        LowBits(low, c, n, n - 1 - k);
      } else {
        BitsBySixteen(low, j);
        LowBits(low, c, n, j);
      }
    }
  }

  // ---------------------------------------------------------------- dividing the range, and learning

  /**
   * A decision divides the interval: zero takes the lower part and one the rest; zero's part is the share its
   * probability says, up to rounding, or a half.
   */
  lemma {:induction false} Division(iv: Interval, p: Prob)
    requires Normal(iv.range)
    ensures var zero, one := Narrow(iv, Modelled(p, 0)), Narrow(iv, Modelled(p, 1));
            && zero.low == iv.low && zero.low + zero.range == one.low && one.low + one.range == iv.low + iv.range
            && MODEL_TOTAL * zero.range <= iv.range * p < MODEL_TOTAL * (zero.range + p)
    ensures var zero, one := Narrow(iv, Direct(0)), Narrow(iv, Direct(1));
            && zero.low == iv.low && zero.low + zero.range == one.low && one.range == zero.range == iv.range / 2
  {
    var q, r := iv.range / MODEL_TOTAL, iv.range % MODEL_TOTAL;
    assert iv.range == q * MODEL_TOTAL + r;
    assert iv.range * p == MODEL_TOTAL * (q * p) + r * p;
    SplitBounds(iv.range, p);
    ScaleLe(p, r + 1, MODEL_TOTAL);
    ScaleLe(p, 0, r);
  }

  /** A probability never used divides evenly. */
  lemma {:induction false} FreshEven(iv: Interval)
    requires Normal(iv.range)
    ensures var zero := Narrow(iv, Modelled(PROB_INIT, 0)); 2 * zero.range <= iv.range < 2 * zero.range + MODEL_TOTAL
  {
    SplitBounds(iv.range, PROB_INIT);
  }

  /** The bit just coded is never dearer the next time. */
  lemma {:induction false} NeverNarrower(iv: Interval, p: Prob, b: Bit, p': Prob)
    requires Normal(iv.range) && Learned(p, b, p')
    ensures Narrow(iv, Modelled(p', b)).range >= Narrow(iv, Modelled(p, b)).range
  {
    SplitBounds(iv.range, p);
    SplitBounds(iv.range, p');
    if b == 0 { MulLe(iv.range / MODEL_TOTAL, p, p'); } else { MulLe(iv.range / MODEL_TOTAL, p', p); }
  }

  /** What is learned is determined, and stays a probability. */
  lemma {:induction false} LearnedOnce(p: Prob, b: Bit)
    ensures Learned(p, b, Adapt(p, b)) && forall p': Prob :: Learned(p, b, p') ==> p' == Adapt(p, b)
  {
  }
}
