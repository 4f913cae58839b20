/** Where the decoder's contexts lie in its array of probabilities, and how a node number grows along a tree. */
module LzmaPlaces {
  import opened Bits
  import opened LzmaContexts
  import opened LzmaPackets
  import opened LzmaRun

  const IS_REP := 192
  const IS_REP_G0 := 204
  const IS_REP_G1 := 216
  const IS_REP_G2 := 228
  const IS_REP0_LONG := 240
  const POS_SLOT := 432
  const SPEC_POS := 688
  const ALIGN := 802

  /** The place of the nodes of a bit tree. */
  function TreeBase(e: Env, t: TreeUse): int
  {
    match t
    case TLit => LITERAL + LIT_SIZE * e.coder
    case TLow(u) => LenBase(u.ForRep?) + 2 + 8 * e.posState
    case TMid(u) => LenBase(u.ForRep?) + 130 + 8 * e.posState
    case THigh(u) => LenBase(u.ForRep?) + 258
    case TSlot(len) => POS_SLOT + 64 * (if 2 <= len < 6 then len - 2 else 3)
  }

  lemma {:induction false} NodePlace(e: Env, t: TreeUse, m: nat)
    requires TreeOk(t)
    ensures Index(TreeNode(e, t, m)) == TreeBase(e, t) + m
  {
  }

  /** At a node of a tree the place asked for is the node's. */
  lemma {:induction false} TreePlace(e: Env, t: TreeUse, n: nat, m: nat)
    requires PhaseOk(AtTree(t, n, m))
    ensures Index(Asked(e, AtTree(t, n, m))) == TreeBase(e, t) + m && NodeAt(TreeDepth(t), n, m)
  {
    hide Index, TreeNode;
    NodePlace(e, t, m);
  }

  lemma {:induction false} TreeBegins(t: TreeUse)
    ensures Pow2(TreeDepth(t)) > 1
  {
  }

  lemma {:induction false} TreeStep(w: nat, n: nat, m: nat, b: Bit)
    requires NodeAt(w, n, m)
    ensures n <= 1 ==> Pow2(w) <= 2 * m + b < 2 * Pow2(w)
    ensures n > 1 ==> 2 * m + b < Pow2(w)
  {
    hide Pow2;
    Pow2Next(w - n);
    if n > 1 {
      Pow2Next(w - n + 1);
      Pow2Monotone(w - n + 2, w);
    }
  }

  lemma {:induction false} MatchedPlace(e: Env, n: nat, m: nat, offs: nat, shifted: nat)
    requires PhaseOk(AtMatched(n, m, offs, shifted))
    ensures Index(Asked(e, AtMatched(n, m, offs, shifted))) == TreeBase(e, TLit) + offs + MatchBit(offs, shifted) + m
    ensures NodeAt(8, n, m)
  {
    hide MatchBit;
  }

  /** offs &= ~bit after a zero and offs &= bit after a one keep the prediction exactly while it was right. */
  lemma {:induction false} OffsMasked(offs: nat, shifted: nat, b: Bit)
    requires offs == 0 || offs == 0x100
    ensures NextOffs(offs, shifted, b)
            == if b == 0 then (if MatchBit(offs, shifted) == 0 then offs else 0)
               else if MatchBit(offs, shifted) == 0 then 0 else offs
  {
  }

  lemma {:induction false} FirstPlaces(e: Env)
    ensures Next(e, AtIsMatch, 1) == AtIsRep
            && forall b: Bit :: Next(e, AtIsRep, b) == if b == 0 then AtChoice(ForMatch) else AtRepG0
    ensures Index(Asked(e, AtIsMatch)) == e.state * 16 + e.posState && Index(Asked(e, AtIsRep)) == IS_REP + e.state
  {
  }

  lemma {:induction false} RepPlaces(e: Env)
    ensures forall b: Bit :: Next(e, AtRepG0, b) == if b == 0 then AtRep0Long else AtRepG1
    ensures forall b: Bit :: Next(e, AtRep0Long, b) == if b == 0 then Done(ShortRep) else AtChoice(ForRep(0))
    ensures forall b: Bit :: Next(e, AtRepG1, b) == if b == 0 then AtChoice(ForRep(1)) else AtRepG2
    ensures forall b: Bit :: Next(e, AtRepG2, b) == AtChoice(ForRep(2 + b))
    ensures Index(Asked(e, AtRepG0)) == IS_REP_G0 + e.state && Index(Asked(e, AtRepG1)) == IS_REP_G1 + e.state
    ensures Index(Asked(e, AtRepG2)) == IS_REP_G2 + e.state
    ensures Index(Asked(e, AtRep0Long)) == IS_REP0_LONG + e.state * 16 + e.posState
  {
  }

  lemma {:induction false} LiteralPhase(e: Env)
    ensures Next(e, AtIsMatch, 0)
            == if e.state < NUM_LIT_STATES then TreeStart(TLit) else AtMatched(8, 1, 0x100, 2 * e.matchByte)
  {
  }
}
