/**
 * The adaptive contexts of LZMA. The encoder keeps them in separate arrays, here named by
 * a Context; the decoder keeps them in one array, at the offsets Index gives.
 */
module LzmaContexts {
  import opened Bits
  import opened Bytes
  import opened RangeSpec
  import opened RangeEncoder

  const NUM_STATES := 12
  const NUM_LIT_STATES := 7
  const PROB_INIT: Prob := 1024

  datatype Context =
    | IsMatch(state: nat, posState: nat)
    | IsRep(state: nat)
    | IsRepG0(state: nat)
    | IsRepG1(state: nat)
    | IsRepG2(state: nat)
    | IsRep0Long(state: nat, posState: nat)
    | PosSlot(lenState: nat, node: nat)
    | SpecPos(i: int)
    | Align(node: nat)
    | Choice(rep: bool)
    | Choice2(rep: bool)
    | Low(rep: bool, posState: nat, node: nat)
    | Mid(rep: bool, posState: nat, node: nat)
    | High(rep: bool, node: nat)
    | Literal(coder: nat, node: nat)

  /** The subscripts a context may have, when there are the given number of literal coders. */
  predicate InRange(c: Context, coders: nat)
  {
    match c
    case IsMatch(st, ps) => st < 12 && ps < 16
    case IsRep(st) => st < 12
    case IsRepG0(st) => st < 12
    case IsRepG1(st) => st < 12
    case IsRepG2(st) => st < 12
    case IsRep0Long(st, ps) => st < 12 && ps < 16
    case PosSlot(ls, m) => ls < 4 && m < 64
    case SpecPos(i) => 0 <= i < 114
    case Align(m) => m < 16
    case Choice(_) => true
    case Choice2(_) => true
    case Low(_, ps, m) => ps < 16 && m < 8
    case Mid(_, ps, m) => ps < 16 && m < 8
    case High(_, m) => m < 256
    case Literal(k, m) => k < coders && m < 768
  }

  const LEN_CODER := 818
  const REP_LEN_CODER := 1332
  const LITERAL := 1846
  const LIT_SIZE := 768

  function LenBase(rep: bool): nat
  {
    if rep then REP_LEN_CODER else LEN_CODER
  }

  /** The place of a context in the decoder's single array. */
  function Index(c: Context): int
  {
    match c
    case IsMatch(st, ps) => st * 16 + ps
    case IsRep(st) => 192 + st
    case IsRepG0(st) => 204 + st
    case IsRepG1(st) => 216 + st
    case IsRepG2(st) => 228 + st
    case IsRep0Long(st, ps) => 240 + st * 16 + ps
    case PosSlot(ls, m) => 432 + ls * 64 + m
    case SpecPos(i) => 688 + i
    case Align(m) => 802 + m
    case Choice(rep) => LenBase(rep)
    case Choice2(rep) => LenBase(rep) + 1
    case Low(rep, ps, m) => LenBase(rep) + 2 + ps * 8 + m
    case Mid(rep, ps, m) => LenBase(rep) + 130 + ps * 8 + m
    case High(rep, m) => LenBase(rep) + 258 + m
    case Literal(k, m) => LITERAL + k * LIT_SIZE + m
  }

  function NumProbs(coders: nat): nat
  {
    LITERAL + LIT_SIZE * coders
  }

  /** Reads a context back off its place. */
  function LenContextAt(rep: bool, i: nat): Context
  {
    if i == 0 then Choice(rep)
    else if i == 1 then Choice2(rep)
    else if i < 130 then Low(rep, (i - 2) / 8, (i - 2) % 8)
    else if i < 258 then Mid(rep, (i - 130) / 8, (i - 130) % 8)
    else High(rep, i - 258)
  }

  function ContextAt(i: nat): Context
  {
    if i < 192 then IsMatch(i / 16, i % 16)
    else if i < 204 then IsRep(i - 192)
    else if i < 216 then IsRepG0(i - 204)
    else if i < 228 then IsRepG1(i - 216)
    else if i < 240 then IsRepG2(i - 228)
    else if i < 432 then IsRep0Long((i - 240) / 16, (i - 240) % 16)
    else if i < 688 then PosSlot((i - 432) / 64, (i - 432) % 64)
    else if i < 802 then SpecPos(i - 688)
    else if i < LEN_CODER then Align(i - 802)
    else if i < REP_LEN_CODER then LenContextAt(false, i - LEN_CODER)
    else if i < LITERAL then LenContextAt(true, i - REP_LEN_CODER)
    else Literal((i - LITERAL) / LIT_SIZE, (i - LITERAL) % LIT_SIZE)
  }

  lemma {:induction false} LenIndexInvertible(c: Context)
    requires c.Choice? || c.Choice2? || c.Low? || c.Mid? || c.High?
    requires InRange(c, 0)
    ensures 0 <= Index(c) - LenBase(c.rep) < 514
    ensures LenContextAt(c.rep, Index(c) - LenBase(c.rep)) == c
  {
  }

  lemma {:induction false} LiteralIndexInvertible(k: nat, m: nat, coders: nat)
    requires k < coders && m < LIT_SIZE
    ensures k * LIT_SIZE + m < coders * LIT_SIZE
    ensures (k * LIT_SIZE + m) / LIT_SIZE == k && (k * LIT_SIZE + m) % LIT_SIZE == m
  {
  }

  lemma {:induction false} RowColumn(row: nat, column: nat, width: nat)
    requires column < width && (width == 16 || width == 64 || width == 8)
    ensures (row * width + column) / width == row && (row * width + column) % width == column
  {
  }

  /** The decoder's layout: every context has a place of its own inside the array. */
  lemma {:induction false} IndexInvertible(c: Context, coders: nat)
    requires InRange(c, coders)
    ensures 0 <= Index(c) < NumProbs(coders)
    ensures ContextAt(Index(c)) == c
  {
    match c
    case Literal(k, m) => LiteralIndexInvertible(k, m, coders);
    case IsMatch(st, ps) => RowColumn(st, ps, 16);
    case IsRep0Long(st, ps) => RowColumn(st, ps, 16);
    case PosSlot(ls, m) => RowColumn(ls, m, 64);
    case Choice(_) => LenIndexInvertible(c);
    case Choice2(_) => LenIndexInvertible(c);
    case Low(_, _, _) => LenIndexInvertible(c);
    case Mid(_, _, _) => LenIndexInvertible(c);
    case High(_, _) => LenIndexInvertible(c);
    case _ =>
  }

  /** Adaptive state by name; a context that was never coded still has the initial probability. */
  type ProbMap = map<Context, Prob>

  function Get(m: ProbMap, c: Context): Prob
  {
    if c in m then m[c] else PROB_INIT
  }

  /** What the encoder emits for a bit: a context and a bit, or a bit without a model. */
  datatype Symbol = Model(ctx: Context, bit: Bit) | Raw(bit: Bit)

  function StepOf(m: ProbMap, y: Symbol): Step
  {
    match y
    case Model(c, b) => Modelled(Get(m, c), b)
    case Raw(b) => Step.Direct(b)
  }

  function Learn(m: ProbMap, y: Symbol): ProbMap
  {
    match y
    case Model(c, b) => m[c := Adapt(Get(m, c), b)]
    case Raw(_) => m
  }

  /** The range-coder steps of a symbol string, with the probabilities adapting along it. */
  function Steps(m: ProbMap, q: seq<Symbol>): (r: seq<Step>)
    ensures |r| == |q|
    decreases |q|
  {
    if q == [] then [] else [StepOf(m, q[0])] + Steps(Learn(m, q[0]), q[1..])
  }

  function LearnAll(m: ProbMap, q: seq<Symbol>): ProbMap
    decreases |q|
  {
    if q == [] then m else LearnAll(Learn(m, q[0]), q[1..])
  }

  lemma {:induction false} StepsConcat(m: ProbMap, q: seq<Symbol>, r: seq<Symbol>)
    ensures Steps(m, q + r) == Steps(m, q) + Steps(LearnAll(m, q), r)
    ensures LearnAll(m, q + r) == LearnAll(LearnAll(m, q), r)
    decreases |q|
  {
    if q == [] {
      assert q + r == r;
    } else {
      assert (q + r)[1..] == q[1..] + r;
      StepsConcat(Learn(m, q[0]), q[1..], r);
    }
  }

  /** The decoder's array holds the encoder's probabilities. */
  ghost predicate Agree(m: ProbMap, probs: seq<Prob>, coders: nat)
  {
    && |probs| == NumProbs(coders)
    && forall c :: InRange(c, coders) ==> 0 <= Index(c) < |probs| && probs[Index(c)] == Get(m, c)
  }

  /** Adapting one context on both sides keeps the two sides equal: no two contexts share a place. */
  lemma {:induction false} AgreeUpdate(m: ProbMap, probs: seq<Prob>, coders: nat, c: Context, p: Prob)
    requires Agree(m, probs, coders) && InRange(c, coders)
    ensures 0 <= Index(c) < |probs| && Agree(m[c := p], probs[Index(c) := p], coders)
  {
    IndexInvertible(c, coders);
    forall d | InRange(d, coders)
      ensures 0 <= Index(d) < |probs| && probs[Index(c) := p][Index(d)] == Get(m[c := p], d)
    {
      IndexInvertible(d, coders);
    }
  }

  lemma {:induction false} AgreeInitially(probs: seq<Prob>, coders: nat)
    requires |probs| == NumProbs(coders) && forall i :: 0 <= i < |probs| ==> probs[i] == PROB_INIT
    ensures Agree(map[], probs, coders)
  {
    forall c | InRange(c, coders)
      ensures 0 <= Index(c) < |probs| && probs[Index(c)] == Get(map[], c)
    {
      IndexInvertible(c, coders);
    }
  }
}
