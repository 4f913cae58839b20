/**
 * The packet layer of LZMA without the arithmetic: the symbols the encoder emits for a
 * packet, the decisions the decoder takes on the bits it reads, and that the second undoes the first.
 */
module LzmaPackets {
  import opened Bits
  import opened Bytes
  import opened RangeSpec
  import opened RangeEncoder
  import opened LzmaContexts

  /** One element of a parse. Distances are 0-based, as in the encoder; END_DISTANCE is the end mark. */
  datatype Packet =
    | Lit(byte: Byte)
    | ShortRep
    | Rep(which: nat, len: nat)
    | Match(dist: nat, len: nat)

  const END_DISTANCE := 0xFFFF_FFFF

  predicate Encodable(p: Packet)
  {
    match p
    case Lit(_) => true
    case ShortRep => true
    case Rep(k, len) => k < 4 && 2 <= len <= 273
    case Match(d, len) => d < B32 && 2 <= len <= 273
  }

  /** What both sides know before a packet and let its contexts depend on. */
  datatype Env = Env(state: nat, posState: nat, coder: nat, matchByte: Byte)

  predicate EnvOk(e: Env, coders: nat)
  {
    e.state < NUM_STATES && e.posState < 16 && e.coder < coders
  }

  // ---------------------------------------------------------------- the decoder's decisions

  datatype LenUse = ForMatch | ForRep(which: nat)

  datatype TreeUse = TLit | TLow(u: LenUse) | TMid(u: LenUse) | THigh(u: LenUse) | TSlot(len: nat)

  /** The points of the decoding loop at which a bit is read; n counts the bits still missing. */
  datatype Phase =
    | AtIsMatch
    | AtTree(t: TreeUse, n: nat, m: nat)
    | AtMatched(n: nat, m: nat, offs: nat, shifted: nat)
    | AtIsRep | AtRepG0 | AtRep0Long | AtRepG1 | AtRepG2
    | AtChoice(u: LenUse) | AtChoice2(u: LenUse)
    | AtSpec(len: nat, off: int, n: nat, m: nat, mask: nat, dist: nat)
    | AtDirect(len: nat, dist: nat, n: nat)
    | AtAlign(len: nat, dist: nat, n: nat, m: nat, mask: nat)
    | Done(packet: Packet)

  function TreeDepth(t: TreeUse): nat
  {
    match t
    case TLit => 8
    case TLow(_) => 3
    case TMid(_) => 3
    case THigh(_) => 8
    case TSlot(_) => 6
  }

  function TreeNode(e: Env, t: TreeUse, m: nat): Context
  {
    match t
    case TLit => Literal(e.coder, m)
    case TLow(u) => Low(u.ForRep?, e.posState, m)
    case TMid(u) => Mid(u.ForRep?, e.posState, m)
    case THigh(u) => High(u.ForRep?, m)
    case TSlot(len) => PosSlot(if len < 5 && len >= 2 then len - 2 else 3, m)
  }

  function TreeStart(t: TreeUse): Phase
  {
    AtTree(t, TreeDepth(t), 1)
  }

  function LenRead(u: LenUse, l: nat): Phase
  {
    match u
    case ForMatch => TreeStart(TSlot(l + 2))
    case ForRep(k) => Done(Rep(k, l + 2))
  }

  function SlotBits(slot: nat): int
  {
    slot / 2 - 1
  }

  function SlotBase(slot: nat): nat
    requires slot >= 4
  {
    if slot % 2 == 0 then 2 * Pow2(SlotBits(slot)) else 3 * Pow2(SlotBits(slot))
  }

  function SlotRead(len: nat, slot: nat): Phase
  {
    if slot < 4 then Done(Match(slot, len))
    else if slot < 14 then AtSpec(len, SlotBase(slot) - slot - 1, SlotBits(slot), 1, 1, SlotBase(slot))
    else AtDirect(len, 2 + slot % 2, SlotBits(slot) - 4)
  }

  /** Where a completed bit tree leads. */
  function TreeRead(t: TreeUse, v: nat): Phase
  {
    match t
    case TLit => Done(Lit(v % 256))
    case TLow(u) => LenRead(u, v)
    case TMid(u) => LenRead(u, v + 8)
    case THigh(u) => LenRead(u, v + 16)
    case TSlot(len) => SlotRead(len, v)
  }

  /** The bit of the match byte that the current literal bit is predicted from, as 0x100 or 0. */
  function MatchBit(offs: nat, shifted: nat): nat
  {
    if offs == 0x100 then shifted / 0x100 % 2 * 0x100 else 0
  }

  /** The prediction goes on while the literal agrees with the match byte. */
  function NextOffs(offs: nat, shifted: nat, b: Bit): nat
  {
    if MatchBit(offs, shifted) == 0x100 * b then offs else 0
  }

  predicate AsksRaw(ph: Phase)
  {
    ph.AtDirect?
  }

  function Asked(e: Env, ph: Phase): Context
    requires !ph.Done? && !AsksRaw(ph)
  {
    match ph
    case AtIsMatch => IsMatch(e.state, e.posState)
    case AtTree(t, _, m) => TreeNode(e, t, m)
    case AtMatched(_, m, offs, shifted) => Literal(e.coder, offs + MatchBit(offs, shifted) + m)
    case AtIsRep => IsRep(e.state)
    case AtRepG0 => IsRepG0(e.state)
    case AtRep0Long => IsRep0Long(e.state, e.posState)
    case AtRepG1 => IsRepG1(e.state)
    case AtRepG2 => IsRepG2(e.state)
    case AtChoice(u) => Choice(u.ForRep?)
    case AtChoice2(u) => Choice2(u.ForRep?)
    case AtSpec(_, off, _, m, _, _) => SpecPos(off + m)
    case AtAlign(_, _, _, m, _) => Align(m)
  }

  /** The decision taken on one bit. */
  function Next(e: Env, ph: Phase, b: Bit): Phase
    requires !ph.Done?
  {
    match ph
    case AtIsMatch =>
      if b == 1 then AtIsRep
      else if e.state < NUM_LIT_STATES then TreeStart(TLit)
      else AtMatched(8, 1, 0x100, 2 * e.matchByte)
    case AtTree(t, n, m) =>
      if n <= 1 then TreeRead(t, ToNat(2 * m + b - Pow2(TreeDepth(t)))) else AtTree(t, n - 1, 2 * m + b)
    case AtMatched(n, m, offs, shifted) =>
      if n <= 1 then Done(Lit((2 * m + b) % 256))
      else AtMatched(n - 1, 2 * m + b,
                     NextOffs(offs, shifted, b), 2 * shifted)
    case AtIsRep => if b == 0 then AtChoice(ForMatch) else AtRepG0
    case AtRepG0 => if b == 0 then AtRep0Long else AtRepG1
    case AtRep0Long => if b == 0 then Done(ShortRep) else AtChoice(ForRep(0))
    case AtRepG1 => if b == 0 then AtChoice(ForRep(1)) else AtRepG2
    case AtRepG2 => AtChoice(ForRep(2 + b))
    case AtChoice(u) => if b == 0 then TreeStart(TLow(u)) else AtChoice2(u)
    case AtChoice2(u) => if b == 0 then TreeStart(TMid(u)) else TreeStart(THigh(u))
    case AtSpec(len, off, n, m, mask, dist) =>
      if n <= 1 then Done(Match(dist + b * mask, len))
      else AtSpec(len, off, n - 1, 2 * m + b, 2 * mask, dist + b * mask)
    case AtDirect(len, dist, n) =>
      if n <= 1 then AtAlign(len, 16 * (2 * dist + b), 4, 1, 1) else AtDirect(len, 2 * dist + b, n - 1)
    case AtAlign(len, dist, n, m, mask) =>
      if n <= 1 then Done(Match(dist + b * mask, len))
      else AtAlign(len, dist + b * mask, n - 1, 2 * m + b, 2 * mask)
  }

  function ToNat(x: int): nat
  {
    if x < 0 then 0 else x
  }

  // ---------------------------------------------------------------- walking

  predicate Answers(e: Env, ph: Phase, y: Symbol)
  {
    && !ph.Done?
    && match y
       case Model(c, _) => !AsksRaw(ph) && Asked(e, ph) == c
       case Raw(_) => AsksRaw(ph)
  }

  /** The decoder, fed with symbols, asks for exactly their contexts and reaches the given phase. */
  predicate Walks(e: Env, ph: Phase, q: seq<Symbol>, ph': Phase)
    decreases |q|
  {
    if q == [] then ph == ph'
    else Answers(e, ph, q[0]) && Walks(e, Next(e, ph, q[0].bit), q[1..], ph')
  }

  lemma {:induction false} WalksConcat(e: Env, ph: Phase, q: seq<Symbol>, mid: Phase, r: seq<Symbol>, ph': Phase)
    requires Walks(e, ph, q, mid) && Walks(e, mid, r, ph')
    ensures Walks(e, ph, q + r, ph')
    decreases |q|
  {
    if q == [] {
      assert q + r == r;
    } else {
      assert (q + r)[1..] == q[1..] + r;
      WalksConcat(e, Next(e, ph, q[0].bit), q[1..], mid, r, ph');
    }
  }

  // ---------------------------------------------------------------- the encoder's symbols

  /** RcTree_Encode: the low n bits of v, most significant first. */
  function TreeSyms(e: Env, t: TreeUse, n: nat, m: nat, v: nat): seq<Symbol>
  {
    if n == 0 then []
    else
      var b := BitAt(v, n - 1);
      [Model(TreeNode(e, t, m), b)] + TreeSyms(e, t, n - 1, 2 * m + b, v)
  }

  function WholeTree(e: Env, t: TreeUse, v: nat): seq<Symbol>
  {
    TreeSyms(e, t, TreeDepth(t), 1, v)
  }

  /** LitEnc_EncodeMatched: predicted bit by bit from the match byte until the first mismatch. */
  function MatchedSyms(e: Env, n: nat, m: nat, offs: nat, shifted: nat, v: nat): seq<Symbol>
  {
    if n == 0 then []
    else
      var b := BitAt(v, n - 1);
      [Model(Literal(e.coder, offs + MatchBit(offs, shifted) + m), b)]
      + MatchedSyms(e, n - 1, 2 * m + b, NextOffs(offs, shifted, b), 2 * shifted, v)
  }

  /** RcTree_ReverseEncode over the special distance models. */
  function SpecSyms(off: int, n: nat, m: nat, v: nat): seq<Symbol>
  {
    if n == 0 then [] else [Model(SpecPos(off + m), v % 2)] + SpecSyms(off, n - 1, 2 * m + v % 2, v / 2)
  }

  /** RcTree_ReverseEncode over the align models. */
  function AlignSyms(n: nat, m: nat, v: nat): seq<Symbol>
  {
    if n == 0 then [] else [Model(Align(m), v % 2)] + AlignSyms(n - 1, 2 * m + v % 2, v / 2)
  }

  function RawSyms(v: nat, n: nat): seq<Symbol>
  {
    if n == 0 then [] else [Raw(BitAt(v, n - 1))] + RawSyms(v, n - 1)
  }

  /** LenEnc_Encode. */
  function LenSyms(e: Env, u: LenUse, l: nat): seq<Symbol>
  {
    if l < 8 then [Model(Choice(u.ForRep?), 0)] + WholeTree(e, TLow(u), l)
    else [Model(Choice(u.ForRep?), 1)] +
         if l < 16 then [Model(Choice2(u.ForRep?), 0)] + WholeTree(e, TMid(u), l - 8)
         else [Model(Choice2(u.ForRep?), 1)] + WholeTree(e, THigh(u), l - 16)
  }

  /** Twice the position of the leading bit plus the bit below it. */
  function Slot(d: nat): nat
  {
    if d < 4 then d else 2 + Slot(d / 2)
  }

  /** The bits after the slot: none, the special models, or direct bits and the align models. */
  function FooterSyms(slot: nat, low: nat): seq<Symbol>
  {
    if slot < 4 then []
    else if slot < 14 then SpecSyms(SlotBase(slot) - slot - 1, SlotBits(slot), 1, low)
    else RawSyms(low / 16, SlotBits(slot) - 4) + AlignSyms(4, 1, low % 16)
  }

  function DistSyms(e: Env, len: nat, d: nat): seq<Symbol>
    requires d < B32
  {
    var slot := Slot(d);
    SlotCovers(d);
    WholeTree(e, TSlot(len), slot) + if slot < 4 then [] else FooterSyms(slot, d - SlotBase(slot))
  }

  /** The packet as LzmaEnc_CodeOneBlock emits it. */
  function PacketSyms(e: Env, p: Packet): seq<Symbol>
    requires Encodable(p)
  {
    match p
    case Lit(b) =>
      [Model(IsMatch(e.state, e.posState), 0)] +
      if e.state < NUM_LIT_STATES then WholeTree(e, TLit, b) else MatchedSyms(e, 8, 1, 0x100, 2 * e.matchByte, b)
    case ShortRep =>
      [Model(IsMatch(e.state, e.posState), 1)] + ([Model(IsRep(e.state), 1)] +
      ([Model(IsRepG0(e.state), 0)] + [Model(IsRep0Long(e.state, e.posState), 0)]))
    case Rep(k, len) =>
      [Model(IsMatch(e.state, e.posState), 1)] +
      ([Model(IsRep(e.state), 1)] + (WhichSyms(e, k) + LenSyms(e, ForRep(k), len - 2)))
    case Match(d, len) =>
      [Model(IsMatch(e.state, e.posState), 1)] +
      ([Model(IsRep(e.state), 0)] + (LenSyms(e, ForMatch, len - 2) + DistSyms(e, len, d)))
  }

  function WhichSyms(e: Env, k: nat): seq<Symbol>
    requires k < 4
  {
    if k == 0 then [Model(IsRepG0(e.state), 0)] + [Model(IsRep0Long(e.state, e.posState), 1)]
    else [Model(IsRepG0(e.state), 1)] +
         if k == 1 then [Model(IsRepG1(e.state), 0)]
         else [Model(IsRepG1(e.state), 1)] + [Model(IsRepG2(e.state), k - 2)]
  }

  // ---------------------------------------------------------------- the decoder undoes the encoder

  /** Two slots further on, the block is twice as far and twice as long. */
  lemma {:induction false} SlotDoubles(s: nat)
    requires s >= 4
    ensures SlotBase(s + 2) == 2 * SlotBase(s) && Pow2(SlotBits(s + 2)) == 2 * Pow2(SlotBits(s))
  {
  }

  /** A distance lies in the block its slot names. */
  lemma {:induction false} SlotCovers(d: nat)
    ensures d < 4 ==> Slot(d) == d
    ensures d >= 4 ==> Slot(d) >= 4 && SlotBase(Slot(d)) <= d < SlotBase(Slot(d)) + Pow2(SlotBits(Slot(d)))
  {
    if d >= 8 {
      SlotCovers(d / 2);
      SlotDoubles(Slot(d / 2));
    } else if d >= 4 {
      assert Slot(d) == 2 + d / 2;
    }
  }

  lemma {:induction false} SlotSize(d: nat, n: nat)
    requires n >= 2
    ensures d < Pow2(n) ==> Slot(d) < 2 * n
  {
    if n > 2 {
      SlotSize(d / 2, n - 1);
    }
  }

  lemma {:induction false} SlotFits(d: nat)
    requires d < B32
    ensures Slot(d) < 64
  {
    Pow2Word();
    SlotSize(d, 32);
  }

  /** One symbol at the front of a walk. */
  lemma {:induction false} WalkFirst(e: Env, ph: Phase, y: Symbol, q: seq<Symbol>, ph': Phase)
    requires Answers(e, ph, y) && Walks(e, Next(e, ph, y.bit), q, ph')
    ensures Walks(e, ph, [y] + q, ph')
  {
    assert ([y] + q)[1..] == q;
  }

  lemma {:induction false} WalkLast(e: Env, ph: Phase, y: Symbol)
    requires Answers(e, ph, y)
    ensures Walks(e, ph, [y], Next(e, ph, y.bit))
  {
    assert [y][1..] == [];
  }

  lemma {:induction false} WalkNone(e: Env, ph: Phase)
    ensures Walks(e, ph, [], ph)
  {
  }

  lemma {:induction false} NextInTree(e: Env, t: TreeUse, n: nat, m: nat, b: Bit)
    ensures Answers(e, AtTree(t, n, m), Model(TreeNode(e, t, m), b))
    ensures Next(e, AtTree(t, n, m), b)
            == if n <= 1 then TreeRead(t, ToNat(2 * m + b - Pow2(TreeDepth(t)))) else AtTree(t, n - 1, 2 * m + b)
  {
    hide TreeRead, TreeNode, Pow2;
  }

  lemma {:induction false} TreeWalk(e: Env, t: TreeUse, n: nat, m: nat, v: nat, ph: Phase)
    requires 1 <= n && ph == TreeRead(t, ToNat(Descend(n, m, v) - Pow2(TreeDepth(t))))
    ensures Walks(e, AtTree(t, n, m), TreeSyms(e, t, n, m, v), ph)
    decreases n
  {
    hide Next, Answers, Walks, TreeRead, TreeNode, Pow2, BitAt;
    var b := BitAt(v, n - 1);
    var y := Model(TreeNode(e, t, m), b);
    NextInTree(e, t, n, m, b);
    WalkNone(e, ph);
    if n > 1 {
      TreeWalk(e, t, n - 1, 2 * m + b, v, ph);
    }
    WalkFirst(e, AtTree(t, n, m), y, TreeSyms(e, t, n - 1, 2 * m + b, v), ph);
  }

  lemma {:induction false} WholeTreeWalk(e: Env, t: TreeUse, v: nat)
    requires v < Pow2(TreeDepth(t))
    ensures Walks(e, TreeStart(t), WholeTree(e, t, v), TreeRead(t, v))
  {
    var n := TreeDepth(t);
    DescendValue(n, 1, v);
    ShlOne(n);
    TruncBound(v, n);
    TreeWalk(e, t, n, 1, v, TreeRead(t, v));
  }

  lemma {:induction false} NextInMatched(e: Env, n: nat, m: nat, offs: nat, shifted: nat, b: Bit)
    ensures Answers(e, AtMatched(n, m, offs, shifted), Model(Literal(e.coder, offs + MatchBit(offs, shifted) + m), b))
    ensures Next(e, AtMatched(n, m, offs, shifted), b)
            == if n <= 1 then Done(Lit((2 * m + b) % 256))
               else AtMatched(n - 1, 2 * m + b, NextOffs(offs, shifted, b), 2 * shifted)
  {
    hide MatchBit, NextOffs;
  }

  lemma {:induction false} MatchedWalk(e: Env, n: nat, m: nat, offs: nat, shifted: nat, v: nat, lit: Byte)
    requires 1 <= n && lit == Descend(n, m, v) % 256
    ensures Walks(e, AtMatched(n, m, offs, shifted), MatchedSyms(e, n, m, offs, shifted, v), Done(Lit(lit)))
    decreases n
  {
    hide Next, Answers, Walks, BitAt, NextOffs, MatchBit;
    var b := BitAt(v, n - 1);
    var y := Model(Literal(e.coder, offs + MatchBit(offs, shifted) + m), b);
    NextInMatched(e, n, m, offs, shifted, b);
    WalkNone(e, Done(Lit(lit)));
    var offs' := NextOffs(offs, shifted, b);
    if n > 1 {
      MatchedWalk(e, n - 1, 2 * m + b, offs', 2 * shifted, v, lit);
    }
    WalkFirst(e, AtMatched(n, m, offs, shifted), y, MatchedSyms(e, n - 1, 2 * m + b, offs', 2 * shifted, v),
              Done(Lit(lit)));
  }

  /** The value the reversed bits add to a distance. */
  function Ascend(n: nat, mask: nat, v: nat): nat
  {
    if n == 0 then 0 else v % 2 * mask + Ascend(n - 1, 2 * mask, v / 2)
  }

  lemma {:induction false} AscendValue(n: nat, v: nat)
    ensures Ascend(n, 1, v) == Trunc(v, n)
  {
    AscendScaled(n, 0, v);
  }

  lemma {:induction false} AscendScaled(n: nat, k: nat, v: nat)
    ensures Ascend(n, Pow2(k), v) == Shl(Trunc(v, n), k)
    decreases n
  {
    if n == 0 {
      ShlZero(k);
    } else {
      AscendScaled(n - 1, k + 1, v / 2);
      ShlSplit(v % 2, Trunc(v / 2, n - 1), k);
    }
  }

  lemma {:induction false} ShlSplit(b: Bit, r: nat, k: nat)
    ensures Shl(b + 2 * r, k) == b * Pow2(k) + Shl(r, k + 1)
  {
    if k > 0 { ShlSplit(b, r, k - 1); }
  }

  lemma {:induction false} NextInSpec(e: Env, len: nat, off: int, n: nat, m: nat, mask: nat, dist: nat, b: Bit)
    ensures Answers(e, AtSpec(len, off, n, m, mask, dist), Model(SpecPos(off + m), b))
    ensures Next(e, AtSpec(len, off, n, m, mask, dist), b)
            == if n <= 1 then Done(Match(dist + b * mask, len))
               else AtSpec(len, off, n - 1, 2 * m + b, 2 * mask, dist + b * mask)
  {
  }

  lemma {:induction false} SpecWalk(e: Env, len: nat, off: int, n: nat, m: nat, mask: nat, dist: nat, v: nat,
                                    dist': nat)
    requires 1 <= n && dist' == dist + Ascend(n, mask, v)
    ensures Walks(e, AtSpec(len, off, n, m, mask, dist), SpecSyms(off, n, m, v),
                  Done(Match(dist', len)))
    decreases n
  {
    hide Next, Answers, Walks;
    var y := Model(SpecPos(off + m), v % 2);
    NextInSpec(e, len, off, n, m, mask, dist, v % 2);
    WalkNone(e, Done(Match(dist', len)));
    if n > 1 {
      SpecWalk(e, len, off, n - 1, 2 * m + v % 2, 2 * mask, dist + v % 2 * mask, v / 2, dist');
    }
    WalkFirst(e, AtSpec(len, off, n, m, mask, dist), y, SpecSyms(off, n - 1, 2 * m + v % 2, v / 2),
              Done(Match(dist', len)));
  }

  lemma {:induction false} NextInAlign(e: Env, len: nat, dist: nat, n: nat, m: nat, mask: nat, b: Bit)
    ensures Answers(e, AtAlign(len, dist, n, m, mask), Model(Align(m), b))
    ensures Next(e, AtAlign(len, dist, n, m, mask), b)
            == if n <= 1 then Done(Match(dist + b * mask, len))
               else AtAlign(len, dist + b * mask, n - 1, 2 * m + b, 2 * mask)
  {
  }

  lemma {:induction false} AlignWalk(e: Env, len: nat, dist: nat, n: nat, m: nat, mask: nat, v: nat, dist': nat)
    requires 1 <= n && dist' == dist + Ascend(n, mask, v)
    ensures Walks(e, AtAlign(len, dist, n, m, mask), AlignSyms(n, m, v), Done(Match(dist', len)))
    decreases n
  {
    hide Next, Answers, Walks;
    var y := Model(Align(m), v % 2);
    NextInAlign(e, len, dist, n, m, mask, v % 2);
    WalkNone(e, Done(Match(dist', len)));
    if n > 1 {
      AlignWalk(e, len, dist + v % 2 * mask, n - 1, 2 * m + v % 2, 2 * mask, v / 2, dist');
    }
    WalkFirst(e, AtAlign(len, dist, n, m, mask), y, AlignSyms(n - 1, 2 * m + v % 2, v / 2), Done(Match(dist', len)));
  }

  lemma {:induction false} RawWalk(e: Env, len: nat, dist: nat, n: nat, v: nat, dist': nat)
    requires 1 <= n && dist' == Descend(n, dist, v)
    ensures Walks(e, AtDirect(len, dist, n), RawSyms(v, n), AtAlign(len, 16 * dist', 4, 1, 1))
    decreases n
  {
    var y := Raw(BitAt(v, n - 1));
    if n > 1 {
      RawWalk(e, len, 2 * dist + y.bit, n - 1, v, dist');
    }
    WalkFirst(e, AtDirect(len, dist, n), y, RawSyms(v, n - 1), AtAlign(len, 16 * dist', 4, 1, 1));
  }

  lemma {:induction false} LenWalk(e: Env, u: LenUse, l: nat)
    requires l < 272
    ensures Walks(e, AtChoice(u), LenSyms(e, u, l), LenRead(u, l))
  {
    hide Walks, WholeTree, TreeNode;
    Pow2Small();
    if l < 8 {
      WholeTreeWalk(e, TLow(u), l);
      WalkFirst(e, AtChoice(u), Model(Choice(u.ForRep?), 0), WholeTree(e, TLow(u), l), LenRead(u, l));
    } else {
      var second := if l < 16 then 0 else 1;
      var t := if l < 16 then TMid(u) else THigh(u);
      var v := if l < 16 then l - 8 else l - 16;
      WholeTreeWalk(e, t, v);
      WalkFirst(e, AtChoice2(u), Model(Choice2(u.ForRep?), second), WholeTree(e, t, v), LenRead(u, l));
      WalkFirst(e, AtChoice(u), Model(Choice(u.ForRep?), 1), [Model(Choice2(u.ForRep?), second)] + WholeTree(e, t, v),
                LenRead(u, l));
    }
  }

  lemma {:induction false} FooterWalk(e: Env, len: nat, slot: nat, low: nat)
    requires slot >= 4 && low < Pow2(SlotBits(slot))
    ensures Walks(e, SlotRead(len, slot), FooterSyms(slot, low), Done(Match(SlotBase(slot) + low, len)))
  {
    hide Walks, RawSyms, AlignSyms, SpecSyms, SlotBase, Ascend, Trunc, Pow2;
    if slot < 14 {
      var bits := SlotBits(slot);
      TruncBound(low, bits);
      AscendValue(bits, low);
      SpecWalk(e, len, SlotBase(slot) - slot - 1, bits, 1, 1, SlotBase(slot), low, SlotBase(slot) + low);
    } else {
      DirectWalk(e, len, slot, SlotBits(slot) - 4, low);
    }
  }

  lemma {:induction false} DistWalk(e: Env, len: nat, d: nat)
    requires d < B32
    ensures Walks(e, TreeStart(TSlot(len)), DistSyms(e, len, d), Done(Match(d, len)))
  {
    SlotCovers(d);
    SlotFits(d);
    var slot := Slot(d);
    var tree := WholeTree(e, TSlot(len), slot);
    Pow2Small();
    WholeTreeWalk(e, TSlot(len), slot);
    if slot < 4 {
      assert tree + [] == tree;
    } else {
      FooterWalk(e, len, slot, d - SlotBase(slot));
      WalksConcat(e, TreeStart(TSlot(len)), tree, SlotRead(len, slot), FooterSyms(slot, d - SlotBase(slot)),
                  Done(Match(d, len)));
    }
  }

  lemma {:induction false} ShlTwoThree(n: nat)
    ensures Shl(2, n) == 2 * Pow2(n) && Shl(3, n) == 3 * Pow2(n)
  {
    if n > 0 { ShlTwoThree(n - 1); }
  }

  lemma {:induction false} DirectValue(slot: nat, n: nat, low: nat)
    requires 14 <= slot && n == SlotBits(slot) - 4 && low < Pow2(n + 4)
    ensures 16 * Descend(n, 2 + slot % 2, low / 16) + low % 16 == SlotBase(slot) + low
  {
    SixteenTimes(n);
    DescendValue(n, 2 + slot % 2, low / 16);
    ShlTwoThree(n);
    TruncBound(low / 16, n);
  }

  lemma {:induction false} DirectWalk(e: Env, len: nat, slot: nat, n: nat, low: nat)
    requires 14 <= slot && n == SlotBits(slot) - 4 && low < Pow2(n + 4)
    ensures Walks(e, AtDirect(len, 2 + slot % 2, n), RawSyms(low / 16, n) + AlignSyms(4, 1, low % 16),
                  Done(Match(SlotBase(slot) + low, len)))
  {
    hide Walks, RawSyms, AlignSyms, Descend, SlotBase, Pow2;
    SixteenTimes(n);
    var top := 2 + slot % 2;
    var d := Descend(n, top, low / 16);
    RawWalk(e, len, top, n, low / 16, d);
    var dist := 16 * d;
    DirectValue(slot, n, low);
    Pow2Small();
    AlignFour(e, len, dist, 4, low % 16);
    WalksConcat(e, AtDirect(len, top, n), RawSyms(low / 16, n), AtAlign(len, dist, 4, 1, 1),
                AlignSyms(4, 1, low % 16), Done(Match(SlotBase(slot) + low, len)));
  }

  lemma {:induction false} AlignFour(e: Env, len: nat, dist: nat, n: nat, v: nat)
    requires n >= 1 && v < Pow2(n)
    ensures Walks(e, AtAlign(len, dist, n, 1, 1), AlignSyms(n, 1, v), Done(Match(dist + v, len)))
  {
    AscendValue(n, v);
    TruncBound(v, n);
    AlignWalk(e, len, dist, n, 1, 1, v, dist + v);
  }

  lemma {:induction false} LitWalk(e: Env, b: Byte)
    ensures Walks(e, AtIsMatch, PacketSyms(e, Lit(b)), Done(Lit(b)))
  {
    hide Walks, WholeTree, MatchedSyms, Pow2;
    var y := Model(IsMatch(e.state, e.posState), 0);
    Pow2Small();
    if e.state < NUM_LIT_STATES {
      WholeTreeWalk(e, TLit, b);
      WalkFirst(e, AtIsMatch, y, WholeTree(e, TLit, b), Done(Lit(b)));
    } else {
      MatchedLitWalk(e, 8, 2 * e.matchByte, b);
      WalkFirst(e, AtIsMatch, y, MatchedSyms(e, 8, 1, 0x100, 2 * e.matchByte, b), Done(Lit(b)));
    }
  }

  lemma {:induction false} MatchedLitWalk(e: Env, n: nat, shifted: nat, b: Byte)
    requires n >= 1 && Pow2(n) == 256
    ensures Walks(e, AtMatched(n, 1, 0x100, shifted), MatchedSyms(e, n, 1, 0x100, shifted, b), Done(Lit(b)))
  {
    DescendValue(n, 1, b);
    ShlOne(n);
    TruncBound(b, n);
    MatchedWalk(e, n, 1, 0x100, shifted, b, b);
  }

  lemma {:induction false} WhichWalk(e: Env, k: nat)
    requires k < 4
    ensures Walks(e, AtRepG0, WhichSyms(e, k), AtChoice(ForRep(k)))
  {
    if k == 0 {
      WalkLast(e, AtRep0Long, Model(IsRep0Long(e.state, e.posState), 1));
      WalkFirst(e, AtRepG0, Model(IsRepG0(e.state), 0), [Model(IsRep0Long(e.state, e.posState), 1)], AtChoice(ForRep(k)));
    } else if k == 1 {
      WalkLast(e, AtRepG1, Model(IsRepG1(e.state), 0));
      WalkFirst(e, AtRepG0, Model(IsRepG0(e.state), 1), [Model(IsRepG1(e.state), 0)], AtChoice(ForRep(k)));
    } else {
      var last := Model(IsRepG2(e.state), k - 2);
      WalkLast(e, AtRepG2, last);
      WalkFirst(e, AtRepG1, Model(IsRepG1(e.state), 1), [last], AtChoice(ForRep(k)));
      WalkFirst(e, AtRepG0, Model(IsRepG0(e.state), 1), [Model(IsRepG1(e.state), 1)] + [last], AtChoice(ForRep(k)));
    }
  }

  lemma {:induction false} ShortRepWalk(e: Env)
    ensures Walks(e, AtIsMatch, PacketSyms(e, ShortRep), Done(ShortRep))
  {
    hide Walks;
    var last := Model(IsRep0Long(e.state, e.posState), 0);
    var g0 := Model(IsRepG0(e.state), 0);
    var rep := Model(IsRep(e.state), 1);
    WalkLast(e, AtRep0Long, last);
    WalkFirst(e, AtRepG0, g0, [last], Done(ShortRep));
    WalkFirst(e, AtIsRep, rep, [g0] + [last], Done(ShortRep));
    WalkFirst(e, AtIsMatch, Model(IsMatch(e.state, e.posState), 1), [rep] + ([g0] + [last]), Done(ShortRep));
  }

  lemma {:induction false} RepWalk(e: Env, k: nat, len: nat)
    requires Encodable(Rep(k, len))
    ensures Walks(e, AtIsMatch, PacketSyms(e, Rep(k, len)), Done(Rep(k, len)))
  {
    hide Walks, LenSyms, WhichSyms, DistSyms;
    var tail := LenSyms(e, ForRep(k), len - 2);
    LenWalk(e, ForRep(k), len - 2);
    WhichWalk(e, k);
    WalksConcat(e, AtRepG0, WhichSyms(e, k), AtChoice(ForRep(k)), tail, Done(Rep(k, len)));
    WalkFirst(e, AtIsRep, Model(IsRep(e.state), 1), WhichSyms(e, k) + tail, Done(Rep(k, len)));
    WalkFirst(e, AtIsMatch, Model(IsMatch(e.state, e.posState), 1),
              [Model(IsRep(e.state), 1)] + (WhichSyms(e, k) + tail), Done(Rep(k, len)));
  }

  lemma {:induction false} MatchWalk(e: Env, d: nat, len: nat)
    requires Encodable(Match(d, len))
    ensures Walks(e, AtIsMatch, PacketSyms(e, Match(d, len)), Done(Match(d, len)))
  {
    hide Walks, LenSyms, DistSyms;
    var lens, dists := LenSyms(e, ForMatch, len - 2), DistSyms(e, len, d);
    LenWalk(e, ForMatch, len - 2);
    DistWalk(e, len, d);
    WalksConcat(e, AtChoice(ForMatch), lens, TreeStart(TSlot(len)), dists, Done(Match(d, len)));
    WalkFirst(e, AtIsRep, Model(IsRep(e.state), 0), lens + dists, Done(Match(d, len)));
    WalkFirst(e, AtIsMatch, Model(IsMatch(e.state, e.posState), 1),
              [Model(IsRep(e.state), 0)] + (lens + dists), Done(Match(d, len)));
  }

  /** Fed with the symbols of a packet, the decoder asks for the same contexts and recovers the packet. */
  lemma {:induction false} PacketWalk(e: Env, p: Packet)
    requires Encodable(p)
    ensures Walks(e, AtIsMatch, PacketSyms(e, p), Done(p))
  {
    match p
    case Lit(b) => LitWalk(e, b);
    case ShortRep => ShortRepWalk(e);
    case Rep(k, len) => RepWalk(e, k, len);
    case Match(d, len) => MatchWalk(e, d, len);
  }
}
