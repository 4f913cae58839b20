/**
 * LzmaDec_TryDummy as it runs: the reading of one symbol on bounded input, over probabilities that stay as they are.
 * Each method is tied to the dry run of LzmaDummy.
 */
module LzmaTryDummy {
  import opened Bits
  import opened RangeSpec
  import opened RangeDecoder
  import opened LzmaContexts
  import opened LzmaPackets
  import opened LzmaPlaces
  import opened LzmaRun
  import opened LzmaDummy

  datatype Dummy = DummyError | DummyLit | DummyMatch | DummyRep

  /** The verdict for a dry run. */
  function Kind(d: Option<(Reader, Packet)>): Dummy
  {
    match d
    case None => DummyError
    case Some(x) => if x.1.Lit? then DummyLit else if x.1.Match? then DummyMatch else DummyRep
  }

  /** A reader of bounded input over fixed probabilities. */
  datatype Fixed = Fixed(probs: seq<Prob>, s: seq<Byte>, bufLimit: nat, coders: nat)

  ghost predicate Sound(e: Env, ph: Phase, r: Reader, f: Fixed)
  {
    EnvOk(e, f.coders) && PhaseOk(ph) && MachineOk(Machine(r, f.probs), f.coders) && f.bufLimit <= |f.s|
  }

  /** The dry run from a decision point on. */
  ghost function Verdict(e: Env, ph: Phase, r: Reader, f: Fixed): Option<(Reader, Packet)>
  {
    if Sound(e, ph, r, f) then DryRun(e, ph, r, f.probs, f.s, f.bufLimit, f.coders) else None
  }

  lemma {:induction false} VerdictNext(e: Env, ph: Phase, r: Reader, f: Fixed)
    requires Sound(e, ph, r, f) && !ph.Done?
    ensures Starved(r, f.bufLimit) ==> Verdict(e, ph, r, f) == None
    ensures !Starved(r, f.bufLimit) ==>
              var (d, b) := Answer(e, ph, Machine(r, f.probs), f.s, f.coders);
              Sound(e, Next(e, ph, b), d.rc, f) && Verdict(e, Next(e, ph, b), d.rc, f) == Verdict(e, ph, r, f)
  {
    var (d, b) := Answer(e, ph, Machine(r, f.probs), f.s, f.coders);
    NextOk(e, ph, b);
    BitsLeftDrops(e, ph, b);
  }

  lemma {:induction false} ModelAnswer(e: Env, ph: Phase, r: Reader, f: Fixed, i: nat)
    requires Sound(e, ph, r, f) && !ph.Done? && !AsksRaw(ph) && i == Index(Asked(e, ph))
    ensures i < |f.probs|
    ensures var (d, b) := Answer(e, ph, Machine(r, f.probs), f.s, f.coders); (d.rc, b) == DecodeBit(r, f.s, f.probs[i])
  {
    AskedInRange(e, ph, f.coders);
    IndexInvertible(Asked(e, ph), f.coders);
  }

  lemma {:induction false} VerdictDone(e: Env, pkt: Packet, r: Reader, f: Fixed)
    requires Sound(e, Done(pkt), r, f)
    ensures Verdict(e, Done(pkt), r, f) == if Starved(r, f.bufLimit) then None else Some((Normalize(r, f.s), pkt))
  {
  }

  class DryReader {
    const f: Fixed
    var range: nat
    var code: nat
    var buf: nat

    constructor (f: Fixed, range: nat, code: nat, buf: nat)
      ensures this.f == f && R() == Reader(range, code, buf)
    {
      this.f, this.range, this.code, this.buf := f, range, code, buf;
    }

    ghost function R(): Reader
      reads this
    {
      Reader(range, code, buf)
    }

    /** NORMALIZE_CHECK; the byte it takes exists. */
    method NormalizeCheck() returns (ok: bool)
      requires f.bufLimit <= |f.s|
      modifies this
      ensures ok <==> !Starved(old(R()), f.bufLimit)
      ensures ok ==> R() == Normalize(old(R()), f.s)
    {
      ok := true;
      if range < TOP {
        if buf >= f.bufLimit { return false; }
        range := range * 256 % B32;
        var next: nat := f.s[buf];
        code := (code * 256 + next) % B32;
        buf := buf + 1;
      }
    }

    /** GET_BIT_CHECK: the probability is not adapted. */
    method GetBitCheck(ghost e: Env, ghost ph: Phase, prob: nat) returns (ok: bool, bit: Bit)
      requires Sound(e, ph, R(), f) && !ph.Done? && !AsksRaw(ph) && prob == Index(Asked(e, ph))
      modifies this
      ensures !ok ==> old(Verdict(e, ph, R(), f)) == None
      ensures ok ==> Sound(e, Next(e, ph, bit), R(), f)
                     && Verdict(e, Next(e, ph, bit), R(), f) == old(Verdict(e, ph, R(), f))
    {
      hide Index, Asked, PhaseOk, Next, Verdict, NumProbs;
      VerdictNext(e, ph, R(), f);
      ModelAnswer(e, ph, R(), f, prob);
      bit := 0;
      var ttt := f.probs[prob];
      ok := NormalizeCheck();
      if !ok { return; }
      SplitBounds(range, ttt);
      var bound := range / MODEL_TOTAL * ttt;
      if code < bound {
        range := bound;
      } else {
        range := range - bound;
        code := code - bound;
        bit := 1;
      }
    }

    /** A direct bit: subtracting in 32 bits unless that would need the sign. */
    method GetDirectBitCheck(ghost e: Env, ghost ph: Phase) returns (ok: bool, ghost bit: Bit)
      requires Sound(e, ph, R(), f) && AsksRaw(ph)
      modifies this
      ensures !ok ==> old(Verdict(e, ph, R(), f)) == None
      ensures ok ==> Sound(e, Next(e, ph, bit), R(), f)
                     && Verdict(e, Next(e, ph, bit), R(), f) == old(Verdict(e, ph, R(), f))
    {
      hide PhaseOk, Next, Verdict, NumProbs;
      VerdictNext(e, ph, R(), f);
      bit := 0;
      ok := NormalizeCheck();
      if !ok { return; }
      range := range / 2;
      if (code - range) % B32 / 0x8000_0000 == 1 {
        SubtractAdd(code, range);
        code := code % B32;
      } else {
        code := (code - range) % B32;
        bit := 1;
      }
    }

    method TreeCheck(ghost e: Env, ghost t: TreeUse, prob: nat, limit: nat) returns (ok: bool, i: nat)
      requires Sound(e, TreeStart(t), R(), f) && prob == TreeBase(e, t) && limit == Pow2(TreeDepth(t))
      modifies this
      ensures !ok ==> old(Verdict(e, TreeStart(t), R(), f)) == None
      ensures ok ==> i < limit && Sound(e, TreeRead(t, i), R(), f)
                     && Verdict(e, TreeRead(t, i), R(), f) == old(Verdict(e, TreeStart(t), R(), f))
    {
      hide Next, TreeRead, TreeBase, TreeNode, Index, Verdict;
      ok, i := true, 1;
      ghost var n, ph := TreeDepth(t), TreeStart(t);
      TreeBegins(t);
      while i < limit
        invariant Sound(e, ph, R(), f) && Verdict(e, ph, R(), f) == old(Verdict(e, TreeStart(t), R(), f))
        invariant ph == if i < limit then AtTree(t, n, i) else TreeRead(t, i - limit)
        invariant ok && i < 2 * limit
        decreases n
      {
        TreePlace(e, t, n, i);
        var bit;
        ok, bit := GetBitCheck(e, ph, prob + i);
        if !ok { return; }
        NextInTree(e, t, n, i, bit);
        TreeStep(TreeDepth(t), n, i, bit);
        i := 2 * i + bit;
        ph := if n <= 1 then TreeRead(t, i - limit) else AtTree(t, n - 1, i);
        n := if n <= 1 then 0 else n - 1;
      }
      i := i - limit;
    }

    method MatchedCheck(ghost e: Env, prob: nat, match0: Byte) returns (ok: bool, ghost byte: Byte)
      requires Sound(e, AtMatched(8, 1, 0x100, 2 * match0), R(), f) && prob == TreeBase(e, TLit)
      modifies this
      ensures !ok ==> old(Verdict(e, AtMatched(8, 1, 0x100, 2 * match0), R(), f)) == None
      ensures ok ==> Sound(e, Done(Lit(byte)), R(), f)
                     && Verdict(e, Done(Lit(byte)), R(), f) == old(Verdict(e, AtMatched(8, 1, 0x100, 2 * match0), R(), f))
    {
      hide Next, Index, Verdict, MatchBit, NextOffs;
      ok, byte := true, 0;
      var offs: nat := 0x100;
      var matchByte: nat := match0;
      var symbol: nat := 1;
      ghost var n: nat, ph := 8, AtMatched(8, 1, 0x100, 2 * match0);
      while symbol < 0x100
        invariant ok && Sound(e, ph, R(), f)
        invariant Verdict(e, ph, R(), f) == old(Verdict(e, AtMatched(8, 1, 0x100, 2 * match0), R(), f))
        invariant ph == if symbol < 0x100 then AtMatched(n, symbol, offs, 2 * matchByte) else Done(Lit(symbol % 256))
        decreases n
      {
        matchByte := 2 * matchByte;
        var bit := MatchBit(offs, matchByte);
        MatchedPlace(e, n, symbol, offs, matchByte);
        var b;
        ok, b := GetBitCheck(e, ph, prob + offs + bit + symbol);
        if !ok { return; }
        NextInMatched(e, n, symbol, offs, matchByte, b);
        TreeStep(8, n, symbol, b);
        Pow2Small();
        OffsMasked(offs, matchByte, b);
        symbol := 2 * symbol + b;
        offs := if b == 0 then (if bit == 0 then offs else 0) else if bit == 0 then 0 else offs;
        ph := if n <= 1 then Done(Lit(symbol % 256)) else AtMatched(n - 1, symbol, offs, 2 * matchByte);
        n := if n <= 1 then 0 else n - 1;
      }
      byte := symbol % 256;
    }

    method LenCheck(ghost e: Env, ghost u: LenUse, prob: nat, posState: nat) returns (ok: bool, len: nat)
      requires Sound(e, AtChoice(u), R(), f) && prob == LenBase(u.ForRep?) && posState == e.posState
      modifies this
      ensures !ok ==> old(Verdict(e, AtChoice(u), R(), f)) == None
      ensures ok ==> len < 272 && Sound(e, LenRead(u, len), R(), f)
                     && Verdict(e, LenRead(u, len), R(), f) == old(Verdict(e, AtChoice(u), R(), f))
    {
      hide Verdict, LenRead;
      Pow2Small();
      len := 0;
      var b;
      ok, b := GetBitCheck(e, AtChoice(u), prob);
      if !ok { return; }
      if b == 0 {
        ok, len := TreeCheck(e, TLow(u), prob + 2 + 8 * posState, 8);
      } else {
        ok, b := GetBitCheck(e, AtChoice2(u), prob + 1);
        if !ok { return; }
        if b == 0 {
          ok, len := TreeCheck(e, TMid(u), prob + 130 + 8 * posState, 8);
          len := len + 8;
        } else {
          ok, len := TreeCheck(e, THigh(u), prob + 258, 256);
          len := len + 16;
        }
      }
    }

    /** The bits read lowest first, by special or by align models alike. */
    method ReverseCheck(ghost e: Env, ghost ph0: Phase, prob: nat, numBits: nat) returns (ok: bool, ghost pkt: Packet)
      requires Sound(e, ph0, R(), f) && numBits >= 1 && FooterAt(ph0, prob, numBits, 1)
      modifies this
      ensures !ok ==> old(Verdict(e, ph0, R(), f)) == None
      ensures ok ==> pkt.Match? && Sound(e, Done(pkt), R(), f)
                     && Verdict(e, Done(pkt), R(), f) == old(Verdict(e, ph0, R(), f))
    {
      hide Verdict, Shl;
      ok, pkt := true, ShortRep;
      var i: nat, numDirectBits := 1, numBits;
      ghost var ph := ph0;
      while numDirectBits != 0
        invariant ok && 0 <= numDirectBits <= numBits && Sound(e, ph, R(), f)
                  && Verdict(e, ph, R(), f) == old(Verdict(e, ph0, R(), f))
        invariant if numDirectBits > 0 then FooterAt(ph, prob, numDirectBits, i) else ph.Done? && ph.packet.Match?
      {
        var bit;
        ok, bit := GetBitCheck(e, ph, prob + i);
        if !ok { return; }
        ph := Next(e, ph, bit);
        i := 2 * i + bit;
        numDirectBits := numDirectBits - 1;
      }
      pkt := ph.packet;
    }

    /** The direct bits of a far distance. */
    method DirectCheck(ghost e: Env, ghost len: nat, ghost dist: nat, numBits: nat)
      returns (ok: bool, ghost dist': nat)
      requires Sound(e, AtDirect(len, dist, numBits), R(), f)
      modifies this
      ensures !ok ==> old(Verdict(e, AtDirect(len, dist, numBits), R(), f)) == None
      ensures ok ==> Sound(e, AtAlign(len, 16 * dist', 4, 1, 1), R(), f)
                     && Verdict(e, AtAlign(len, 16 * dist', 4, 1, 1), R(), f)
                        == old(Verdict(e, AtDirect(len, dist, numBits), R(), f))
    {
      hide Verdict, Shl;
      ok, dist' := true, dist;
      var numDirectBits: nat := numBits;
      ghost var ph := AtDirect(len, dist, numBits);
      while numDirectBits != 0
        invariant ok && Sound(e, ph, R(), f)
                  && Verdict(e, ph, R(), f) == old(Verdict(e, AtDirect(len, dist, numBits), R(), f))
        invariant ph == if numDirectBits > 0 then AtDirect(len, dist', numDirectBits) else AtAlign(len, 16 * dist', 4, 1, 1)
      {
        ghost var bit;
        ok, bit := GetDirectBitCheck(e, ph);
        if !ok { return; }
        ph := Next(e, ph, bit);
        dist' := 2 * dist' + bit;
        numDirectBits := numDirectBits - 1;
      }
    }

    /** Slot and footer; the distance itself is not needed. */
    method DistCheck(ghost e: Env, len: nat) returns (ok: bool, ghost pkt: Packet)
      requires Sound(e, TreeStart(TSlot(len + 2)), R(), f)
      modifies this
      ensures !ok ==> old(Verdict(e, TreeStart(TSlot(len + 2)), R(), f)) == None
      ensures ok ==> pkt.Match? && Sound(e, Done(pkt), R(), f)
                     && Verdict(e, Done(pkt), R(), f) == old(Verdict(e, TreeStart(TSlot(len + 2)), R(), f))
    {
      hide Verdict, PhaseOk, Shl;
      Pow2Small();
      var posSlot;
      ok, posSlot := TreeCheck(e, TSlot(len + 2), POS_SLOT + 64 * (if len < 4 then len else 3), 64);
      pkt := Match(posSlot, len + 2);
      if !ok || posSlot < 4 { return; }
      var numDirectBits: nat := posSlot / 2 - 1;
      var prob: int;
      ghost var ph := SlotRead(len + 2, posSlot);
      if posSlot < 14 {
        ShlTwoThree(numDirectBits);
        prob := SPEC_POS + Shl(2 + posSlot % 2, numDirectBits) - posSlot - 1;
      } else {
        ghost var dist;
        ok, dist := DirectCheck(e, len + 2, 2 + posSlot % 2, numDirectBits - 4);
        if !ok { return; }
        ph := AtAlign(len + 2, 16 * dist, 4, 1, 1);
        prob := ALIGN;
        numDirectBits := 4;
      }
      FooterPlace(ph, prob);
      ok, pkt := ReverseCheck(e, ph, prob, numDirectBits);
    }

    /** Which of the last distances; the short form ends the symbol. */
    method WhichRepCheck(ghost e: Env, state: nat, posState: nat) returns (ok: bool, short: bool, ghost k: nat)
      requires Sound(e, AtRepG0, R(), f) && e.state == state && e.posState == posState
      modifies this
      ensures !ok ==> old(Verdict(e, AtRepG0, R(), f)) == None
      ensures ok ==> k < 4 && var ph := if short then Done(ShortRep) else AtChoice(ForRep(k));
                     Sound(e, ph, R(), f) && Verdict(e, ph, R(), f) == old(Verdict(e, AtRepG0, R(), f))
    {
      hide Verdict, Next, Asked, Index, Sound;
      short, k := false, 0;
      RepPlaces(e);
      var bit;
      ok, bit := GetBitCheck(e, AtRepG0, IS_REP_G0 + state);
      if !ok { return; }
      if bit == 0 {
        ok, bit := GetBitCheck(e, AtRep0Long, IS_REP0_LONG + state * 16 + posState);
        short := bit == 0;
      } else {
        ok, bit := GetBitCheck(e, AtRepG1, IS_REP_G1 + state);
        if !ok { return; }
        if bit == 0 {
          k := 1;
        } else {
          ok, bit := GetBitCheck(e, AtRepG2, IS_REP_G2 + state);
          k := if bit == 0 then 2 else 3;
        }
      }
    }

    /** The trailing normalisation decides a symbol that has been read. */
    method FinishCheck(ghost e: Env, ghost pkt: Packet, kind: Dummy) returns (res: Dummy)
      requires Sound(e, Done(pkt), R(), f)
               && kind == if pkt.Lit? then DummyLit else if pkt.Match? then DummyMatch else DummyRep
      modifies this
      ensures res == Kind(old(Verdict(e, Done(pkt), R(), f)))
    {
      hide Verdict;
      VerdictDone(e, pkt, R(), f);
      var ok := NormalizeCheck();
      res := if ok then kind else DummyError;
    }

    method MatchCheck(ghost e: Env, state: nat, posState: nat) returns (res: Dummy)
      requires Sound(e, AtIsRep, R(), f) && e.state == state && e.posState == posState
      modifies this
      ensures res == Kind(old(Verdict(e, AtIsRep, R(), f)))
    {
      hide Verdict, Next, Asked, Index, PhaseOk;
      FirstPlaces(e);
      var ok, bit := GetBitCheck(e, AtIsRep, IS_REP + state);
      if !ok { return DummyError; }
      var len;
      if bit == 0 {
        ok, len := LenCheck(e, ForMatch, LEN_CODER, posState);
        if !ok { return DummyError; }
        ghost var pkt;
        ok, pkt := DistCheck(e, len);
        if !ok { return DummyError; }
        res := FinishCheck(e, pkt, DummyMatch);
      } else {
        var short;
        ghost var k;
        ok, short, k := WhichRepCheck(e, state, posState);
        if !ok { return DummyError; }
        if short {
          res := FinishCheck(e, ShortRep, DummyRep);
          return;
        }
        ok, len := LenCheck(e, ForRep(k), REP_LEN_CODER, posState);
        if !ok { return DummyError; }
        res := FinishCheck(e, Rep(k, len + 2), DummyRep);
      }
    }

    /** The whole symbol; coder and match byte are those of the literal it may be. */
    method SymbolCheck(e: Env) returns (res: Dummy)
      requires Sound(e, AtIsMatch, R(), f)
      modifies this
      ensures res == Kind(old(Verdict(e, AtIsMatch, R(), f)))
    {
      hide Verdict, Next, Asked, Index, PhaseOk;
      FirstPlaces(e);
      var ok, bit := GetBitCheck(e, AtIsMatch, e.state * 16 + e.posState);
      if !ok { return DummyError; }
      if bit == 1 {
        res := MatchCheck(e, e.state, e.posState);
        return;
      }
      LiteralPhase(e);
      Pow2Small();
      ghost var byte: Byte := 0;
      if e.state < NUM_LIT_STATES {
        var symbol;
        ok, symbol := TreeCheck(e, TLit, LITERAL + LIT_SIZE * e.coder, 0x100);
        if ok { byte := symbol; }
      } else {
        ok, byte := MatchedCheck(e, LITERAL + LIT_SIZE * e.coder, e.matchByte);
      }
      if !ok { return DummyError; }
      res := FinishCheck(e, Lit(byte), DummyLit);
    }
  }

  /** The next bit is one of a footer whose models begin at prob, with n bits missing at node i. */
  predicate FooterAt(ph: Phase, prob: nat, n: nat, i: nat)
  {
    || (ph.AtSpec? && prob == SPEC_POS + ph.off && ph.n == n && ph.m == i)
    || (ph.AtAlign? && prob == ALIGN && ph.n == n && ph.m == i)
  }

  lemma {:induction false} FooterPlace(ph: Phase, prob: int)
    requires PhaseOk(ph)
    requires (ph.AtSpec? && prob == SPEC_POS + ph.off) || (ph.AtAlign? && prob == ALIGN)
    ensures prob >= 0
  {
  }

  lemma {:induction false} SubtractAdd(code: nat, range: nat)
    ensures ((code - range) % B32 + range) % B32 == code % B32
  {
    assert (code - range) % B32 == code - range - (code - range) / B32 * B32;
  }
}
