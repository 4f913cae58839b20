/**
 * The binary-tree match finder of LzFind.c. son[] holds two cells for every position of the window: the
 * roots of the subtrees of smaller and of larger strings. Inserting the current position splits the old
 * tree around it, in place and from the top down, and reports matches on the way.
 */
module LzFind {
  import opened Bits

  // ---------------------------------------------------------------- strings

  /** The length of the common prefix. */
  function Lcp(a: seq<Byte>, b: seq<Byte>): (n: nat)
    ensures n <= |a| && n <= |b|
  {
    if a == [] || b == [] || a[0] != b[0] then 0 else 1 + Lcp(a[1..], b[1..])
  }

  lemma {:induction false} LcpEqual(a: seq<Byte>, b: seq<Byte>)
    ensures forall i :: 0 <= i < Lcp(a, b) ==> a[i] == b[i]
    ensures Lcp(a, b) < |a| && Lcp(a, b) < |b| ==> a[Lcp(a, b)] != b[Lcp(a, b)]
  {
    if a != [] && b != [] && a[0] == b[0] {
      LcpEqual(a[1..], b[1..]);
      forall i | 0 <= i < Lcp(a, b)
        ensures a[i] == b[i]
      {
        if i > 0 { assert a[1..][i - 1] == b[1..][i - 1]; }
      }
    }
  }

  lemma {:induction false} CommonPrefix(a: seq<Byte>, b: seq<Byte>)
    ensures a[..Lcp(a, b)] == b[..Lcp(a, b)]
  {
    hide Lcp;
    LcpEqual(a, b);
    LcpShort(a, b);
    LcpShort(b, a);
    LcpSymmetric(a, b);
  }

  lemma {:induction false} LcpShort(a: seq<Byte>, b: seq<Byte>)
    ensures Lcp(a, b) <= |a|
  {
  }

  /** The first difference is the length of the common prefix. */
  lemma {:induction false} LcpIs(a: seq<Byte>, b: seq<Byte>, n: nat)
    requires n <= |a| && n <= |b| && (forall i :: 0 <= i < n ==> a[i] == b[i])
    requires n == |a| || n == |b| || a[n] != b[n]
    ensures Lcp(a, b) == n
  {
    LcpEqual(a, b);
  }

  /** Lexicographic order of strings of one length. */
  predicate Less(a: seq<Byte>, b: seq<Byte>)
  {
    Lcp(a, b) < |a| && Lcp(a, b) < |b| && a[Lcp(a, b)] < b[Lcp(a, b)]
  }

  predicate Leq(a: seq<Byte>, b: seq<Byte>)
  {
    a == b || Less(a, b)
  }

  lemma {:induction false} LcpSymmetric(a: seq<Byte>, b: seq<Byte>)
    ensures Lcp(a, b) == Lcp(b, a)
  {
    LcpEqual(a, b);
    LcpIs(b, a, Lcp(a, b));
  }

  /** A string between two others is at least as close to either of them as they are to each other. */
  lemma {:induction false} Between(a: seq<Byte>, b: seq<Byte>, c: seq<Byte>)
    requires |a| == |b| == |c| && Leq(a, b) && Leq(b, c)
    ensures Lcp(a, c) <= Lcp(a, b) && Lcp(a, c) <= Lcp(b, c)
    ensures Leq(a, c) && (Less(a, b) || Less(b, c) ==> Less(a, c))
  {
    LcpEqual(a, b);
    LcpEqual(b, c);
    LcpEqual(a, c);
    var m, n := Lcp(a, b), Lcp(b, c);
    if a == b || b == c {
      if a == b { LcpIs(a, b, |a|); }
      if b == c { LcpIs(b, c, |b|); }
    } else {
      LcpIs(a, c, if m < n then m else n);
    }
  }

  lemma {:induction false} Trichotomy(a: seq<Byte>, b: seq<Byte>)
    requires |a| == |b|
    ensures a == b <==> Lcp(a, b) == |a|
    ensures a == b || Less(a, b) || Less(b, a)
    ensures !(Less(a, b) && Less(b, a)) && (Less(a, b) ==> a != b)
  {
    LcpEqual(a, b);
    LcpSymmetric(a, b);
    if Lcp(a, b) == |a| { assert a == b; }
  }

  // ---------------------------------------------------------------- trees

  datatype Tree = Leaf | Node(q: nat, left: Tree, right: Tree)

  /** The text, the current position in it and in son[], the size of the window, and the longest match wanted. */
  datatype Window = Window(text: seq<Byte>, pos: nat, cyclicPos: nat, size: nat, limit: nat)

  predicate WindowOk(w: Window)
  {
    1 <= w.limit && w.pos + w.limit <= |w.text| && w.cyclicPos < w.size <= w.pos
  }

  function Key(w: Window, q: nat): seq<Byte>
  {
    if q + w.limit <= |w.text| then w.text[q..q + w.limit] else []
  }

  /** A position that can still be referred to. */
  predicate Live(w: Window, q: nat)
  {
    q < w.pos && w.pos - q < w.size
  }

  /** One that has left the window; 0 is always one of them. */
  predicate Stale(w: Window, q: nat)
  {
    q < w.pos && w.pos - q >= w.size
  }

  /** Where the two cells of a position are. */
  function Slot(w: Window, q: nat): int
  {
    var delta := w.pos - q;
    w.cyclicPos - delta + if delta > w.cyclicPos then w.size else 0
  }

  lemma {:induction false} SlotsDiffer(w: Window, p: nat, q: nat)
    requires WindowOk(w) && (Live(w, p) || p == w.pos) && Live(w, q)
    ensures 0 <= Slot(w, p) < w.size && 0 <= Slot(w, q) < w.size && (p != q ==> Slot(w, p) != Slot(w, q))
  {
  }

  function Nodes(t: Tree): set<nat>
  {
    match t
    case Leaf => {}
    case Node(q, l, r) => {q} + Nodes(l) + Nodes(r)
  }

  predicate Distinct(t: Tree)
  {
    match t
    case Leaf => true
    case Node(q, l, r) => q !in Nodes(l) && q !in Nodes(r) && Nodes(l) !! Nodes(r) && Distinct(l) && Distinct(r)
  }

  predicate AllLive(w: Window, t: Tree)
  {
    forall x :: x in Nodes(t) ==> Live(w, x)
  }

  /** No string in the tree is above k. */
  predicate Under(w: Window, t: Tree, k: seq<Byte>)
  {
    forall x :: x in Nodes(t) ==> Leq(Key(w, x), k)
  }

  predicate Over(w: Window, t: Tree, k: seq<Byte>)
  {
    forall x :: x in Nodes(t) ==> Leq(k, Key(w, x))
  }

  predicate Ordered(w: Window, t: Tree)
  {
    match t
    case Leaf => true
    case Node(q, l, r) => Under(w, l, Key(w, q)) && Over(w, r, Key(w, q)) && Ordered(w, l) && Ordered(w, r)
  }

  predicate Sound(w: Window, t: Tree)
  {
    Distinct(t) && AllLive(w, t) && Ordered(w, t)
  }

  /** ref is the root of t in son[]; references out of the window end a branch. */
  predicate Represents(w: Window, son: seq<nat>, ref: nat, t: Tree)
    decreases t
  {
    match t
    case Leaf => Stale(w, ref)
    case Node(q, l, r) =>
      && ref == q && Live(w, q) && 0 <= 2 * Slot(w, q) && 2 * Slot(w, q) + 1 < |son|
      && Represents(w, son, son[2 * Slot(w, q)], l) && Represents(w, son, son[2 * Slot(w, q) + 1], r)
  }

  /** Writing to no cell of a tree leaves it as it is. */
  predicate SameCells(w: Window, son: seq<nat>, son': seq<nat>, t: Tree)
    requires |son| == |son'|
  {
    forall x :: x in Nodes(t) && 0 <= 2 * Slot(w, x) && 2 * Slot(w, x) + 1 < |son| ==>
      son[2 * Slot(w, x)] == son'[2 * Slot(w, x)] && son[2 * Slot(w, x) + 1] == son'[2 * Slot(w, x) + 1]
  }

  lemma {:induction false} RepresentsSame(w: Window, son: seq<nat>, son': seq<nat>, ref: nat, t: Tree)
    requires |son| == |son'| && Represents(w, son, ref, t) && SameCells(w, son, son', t)
    ensures Represents(w, son', ref, t)
    decreases t
  {
    match t
    case Leaf =>
    case Node(q, l, r) =>
      assert q in Nodes(t);
      RepresentsSame(w, son, son', son[2 * Slot(w, q)], l);
      RepresentsSame(w, son, son', son[2 * Slot(w, q) + 1], r);
  }

  // ---------------------------------------------------------------- splitting a tree

  /** The strings of t up to k and those from k on; a node equal to k and everything below a cut are dropped. */
  function Split(w: Window, t: Tree, k: seq<Byte>, cut: nat): (Tree, Tree)
  {
    if t.Leaf? || cut == 0 then (Leaf, Leaf)
    else if Key(w, t.q) == k then (t.left, t.right)
    else if Less(Key(w, t.q), k) then
      var (a, b) := Split(w, t.right, k, cut - 1);
      (Node(t.q, t.left, a), b)
    else
      var (a, b) := Split(w, t.left, k, cut - 1);
      (a, Node(t.q, b, t.right))
  }

  lemma {:induction false} SplitNodes(w: Window, t: Tree, k: seq<Byte>, cut: nat)
    requires Distinct(t)
    ensures var (a, b) := Split(w, t, k, cut);
            Nodes(a) <= Nodes(t) && Nodes(b) <= Nodes(t) && Nodes(a) !! Nodes(b) && Distinct(a) && Distinct(b)
    decreases t
  {
    hide Key, Less;
    if t.Node? && cut > 0 && Key(w, t.q) != k {
      if Less(Key(w, t.q), k) { SplitNodes(w, t.right, k, cut - 1); } else { SplitNodes(w, t.left, k, cut - 1); }
    }
  }

  lemma {:induction false} UnderSubset(w: Window, t: Tree, u: Tree, k: seq<Byte>)
    requires Nodes(u) <= Nodes(t)
    ensures Under(w, t, k) ==> Under(w, u, k)
    ensures Over(w, t, k) ==> Over(w, u, k)
  {
  }

  lemma {:induction false} UnderNode(w: Window, q: nat, l: Tree, r: Tree, k: seq<Byte>)
    ensures Under(w, l, k) && Under(w, r, k) && Leq(Key(w, q), k) ==> Under(w, Node(q, l, r), k)
    ensures Over(w, l, k) && Over(w, r, k) && Leq(k, Key(w, q)) ==> Over(w, Node(q, l, r), k)
  {
    hide Leq, Key;
  }

  lemma {:induction false} SoundChildren(w: Window, t: Tree)
    requires Sound(w, t) && t.Node?
    ensures Sound(w, t.left) && Sound(w, t.right) && Live(w, t.q)
    ensures Under(w, t.left, Key(w, t.q)) && Over(w, t.right, Key(w, t.q))
  {
    hide Key, Leq;
    assert t.q in Nodes(t);
  }

  /** The two parts are search trees on their sides of k. */
  lemma {:induction false} SplitOrdered(w: Window, t: Tree, k: seq<Byte>, cut: nat)
    requires Sound(w, t) && WindowOk(w) && |k| == w.limit
    ensures var (a, b) := Split(w, t, k, cut);
            Ordered(w, a) && Ordered(w, b) && Under(w, a, k) && Over(w, b, k)
    decreases t
  {
    hide Lcp, Less, Leq, Key, Under, Over, Distinct, AllLive;
    if t.Leaf? || cut == 0 {
      NothingOutside(w, k);
    } else {
      SoundChildren(w, t);
      KeyLength(w, t.q);
      Trichotomy(Key(w, t.q), k);
      LessLeq(Key(w, t.q), k);
      if Key(w, t.q) == k {
      } else if Less(Key(w, t.q), k) {
        var (a, b) := Split(w, t.right, k, cut - 1);
        SplitOrdered(w, t.right, k, cut - 1);
        SplitNodes(w, t.right, k, cut - 1);
        UnderSubset(w, t.right, a, Key(w, t.q));
        UnderLess(w, t.left, t.q, k);
        UnderNode(w, t.q, t.left, a, k);
      } else {
        var (a, b) := Split(w, t.left, k, cut - 1);
        SplitOrdered(w, t.left, k, cut - 1);
        SplitNodes(w, t.left, k, cut - 1);
        UnderSubset(w, t.left, b, Key(w, t.q));
        OverLess(w, t.right, t.q, k);
        UnderNode(w, t.q, b, t.right, k);
      }
    }
  }

  lemma {:induction false} NothingOutside(w: Window, k: seq<Byte>)
    ensures Under(w, Leaf, k) && Over(w, Leaf, k) && Ordered(w, Leaf)
  {
  }

  lemma {:induction false} LessLeq(a: seq<Byte>, b: seq<Byte>)
    ensures Less(a, b) ==> Leq(a, b)
    ensures Less(b, a) ==> Leq(b, a)
    ensures a == b ==> Leq(a, b)
  {
  }

  lemma {:induction false} KeyLength(w: Window, q: nat)
    requires WindowOk(w) && q <= w.pos
    ensures |Key(w, q)| == w.limit && Key(w, q) == w.text[q..q + w.limit]
  {
  }

  lemma {:induction false} UnderLess(w: Window, t: Tree, q: nat, k: seq<Byte>)
    requires WindowOk(w) && AllLive(w, t) && Under(w, t, Key(w, q)) && Live(w, q) && |k| == w.limit && Leq(Key(w, q), k)
    ensures Under(w, t, k)
  {
    hide Leq, Key, Lcp, Less;
    forall x | x in Nodes(t)
      ensures Leq(Key(w, x), k)
    {
      KeyLength(w, x);
      KeyLength(w, q);
      Between(Key(w, x), Key(w, q), k);
    }
  }

  lemma {:induction false} OverLess(w: Window, t: Tree, q: nat, k: seq<Byte>)
    requires WindowOk(w) && AllLive(w, t) && Over(w, t, Key(w, q)) && Live(w, q) && |k| == w.limit && Leq(k, Key(w, q))
    ensures Over(w, t, k)
  {
    hide Leq, Key, Lcp, Less;
    forall x | x in Nodes(t)
      ensures Leq(k, Key(w, x))
    {
      KeyLength(w, x);
      KeyLength(w, q);
      Between(k, Key(w, q), Key(w, x));
    }
  }

  // ---------------------------------------------------------------- splitting in place

  /** What the loop does to son[]: ptr0 and ptr1 are the cells waiting for the larger and the smaller strings. */
  function Rewire(w: Window, son: seq<nat>, ptr0: nat, ptr1: nat, ref: nat, cut: nat): (r: seq<nat>)
    requires WindowOk(w) && |son| == 2 * w.size && ptr0 < |son| && ptr1 < |son|
    ensures |r| == |son|
    decreases cut
  {
    if cut == 0 || !Live(w, ref) then son[ptr0 := 0][ptr1 := 0]
    else
      var pair := 2 * Slot(w, ref);
      SlotsDiffer(w, ref, ref);
      if Key(w, ref) == Key(w, w.pos) then
        var son1 := son[ptr1 := son[pair]];
        son1[ptr0 := son1[pair + 1]]
      else if Less(Key(w, ref), Key(w, w.pos)) then
        var son1 := son[ptr1 := ref];
        Rewire(w, son1, ptr0, pair + 1, son1[pair + 1], cut - 1)
      else
        var son1 := son[ptr0 := ref];
        Rewire(w, son1, pair, ptr1, son1[pair], cut - 1)
  }

  /** Cells that belong to no node of the tree. */
  predicate Outside(w: Window, t: Tree, cell: nat)
  {
    forall x :: x in Nodes(t) ==> cell != 2 * Slot(w, x) && cell != 2 * Slot(w, x) + 1
  }

  /** Only the two waiting cells and cells of the tree are written. */
  lemma {:induction false} RewireFrame(w: Window, son: seq<nat>, ptr0: nat, ptr1: nat, ref: nat, cut: nat, t: Tree,
                                       cell: nat)
    requires WindowOk(w) && |son| == 2 * w.size && ptr0 < |son| && ptr1 < |son| && cell < |son|
    requires Represents(w, son, ref, t) && Sound(w, t) && Outside(w, t, ptr0) && Outside(w, t, ptr1)
    requires cell != ptr0 && cell != ptr1 && Outside(w, t, cell)
    ensures Rewire(w, son, ptr0, ptr1, ref, cut)[cell] == son[cell]
    decreases cut
  {
    hide Key, Less, Ordered, Slot, Sound;
    if t.Node? && cut > 0 {
      var pair := 2 * Slot(w, t.q);
      SlotsDiffer(w, t.q, t.q);
      assert t.q in Nodes(t);
      ChildCells(w, t);
      if Key(w, t.q) == Key(w, w.pos) {
      } else if Less(Key(w, t.q), Key(w, w.pos)) {
        var son1 := son[ptr1 := t.q];
        RepresentsSame(w, son, son1, son[pair + 1], t.right);
        RewireFrame(w, son1, ptr0, pair + 1, son1[pair + 1], cut - 1, t.right, cell);
      } else {
        var son1 := son[ptr0 := t.q];
        RepresentsSame(w, son, son1, son[pair], t.left);
        RewireFrame(w, son1, pair, ptr1, son1[pair], cut - 1, t.left, cell);
      }
    }
  }

  /** The subtrees are sound, and the node's own cells lie outside of them. */
  lemma {:induction false} ChildCells(w: Window, t: Tree)
    requires WindowOk(w) && Sound(w, t) && t.Node?
    ensures Sound(w, t.left) && Sound(w, t.right)
    ensures var pair := 2 * Slot(w, t.q);
            && 0 <= pair && pair + 1 < 2 * w.size
            && Outside(w, t.left, pair) && Outside(w, t.left, pair + 1) && Outside(w, t.right, pair)
               && Outside(w, t.right, pair + 1)
  {
    assert t.q in Nodes(t);
    forall x | x in Nodes(t.left) || x in Nodes(t.right)
      ensures Live(w, x) && Slot(w, x) != Slot(w, t.q)
    {
      assert x in Nodes(t);
      SlotsDiffer(w, x, t.q);
    }
    SlotsDiffer(w, t.q, t.q);
  }

  /** A tree that shares no cell with t or the waiting cells is still there afterwards. */
  lemma {:induction false} RewireKeeps(w: Window, son: seq<nat>, ptr0: nat, ptr1: nat, ref: nat, cut: nat, t: Tree,
                                       other: nat, u: Tree)
    requires WindowOk(w) && |son| == 2 * w.size && ptr0 < |son| && ptr1 < |son|
    requires Represents(w, son, ref, t) && Sound(w, t) && Outside(w, t, ptr0) && Outside(w, t, ptr1)
    requires Represents(w, son, other, u) && AllLive(w, u) && Nodes(u) !! Nodes(t) && Outside(w, u, ptr0)
             && Outside(w, u, ptr1)
    ensures Represents(w, Rewire(w, son, ptr0, ptr1, ref, cut), other, u)
  {
    hide Rewire, Slot, Sound;
    var r := Rewire(w, son, ptr0, ptr1, ref, cut);
    RewireLength(w, son, ptr0, ptr1, ref, cut);
    forall x | x in Nodes(u)
      ensures 0 <= 2 * Slot(w, x) && 2 * Slot(w, x) + 1 < |son|
      ensures son[2 * Slot(w, x)] == r[2 * Slot(w, x)] && son[2 * Slot(w, x) + 1] == r[2 * Slot(w, x) + 1]
    {
      SlotsDiffer(w, x, x);
      OutsideOther(w, t, x);
      RewireFrame(w, son, ptr0, ptr1, ref, cut, t, 2 * Slot(w, x));
      RewireFrame(w, son, ptr0, ptr1, ref, cut, t, 2 * Slot(w, x) + 1);
    }
    RepresentsSame(w, son, r, other, u);
  }

  lemma {:induction false} RewireLength(w: Window, son: seq<nat>, ptr0: nat, ptr1: nat, ref: nat, cut: nat)
    requires WindowOk(w) && |son| == 2 * w.size && ptr0 < |son| && ptr1 < |son|
    ensures |Rewire(w, son, ptr0, ptr1, ref, cut)| == |son|
  {
  }

  lemma {:induction false} OutsideOther(w: Window, t: Tree, x: nat)
    requires WindowOk(w) && Sound(w, t) && x !in Nodes(t) && (Live(w, x) || x == w.pos)
    ensures Outside(w, t, 2 * Slot(w, x)) && Outside(w, t, 2 * Slot(w, x) + 1)
  {
    forall y | y in Nodes(t)
      ensures Slot(w, y) != Slot(w, x)
    {
      SlotsDiffer(w, x, y);
    }
  }

  /** The loop splits the tree: the waiting cells end up as the roots of the two parts. */
  lemma {:induction false} RewireSplits(w: Window, son: seq<nat>, ptr0: nat, ptr1: nat, ref: nat, cut: nat, t: Tree)
    requires WindowOk(w) && |son| == 2 * w.size && ptr0 < |son| && ptr1 < |son| && ptr0 != ptr1
    requires Represents(w, son, ref, t) && Sound(w, t) && Outside(w, t, ptr0) && Outside(w, t, ptr1)
    ensures var r := Rewire(w, son, ptr0, ptr1, ref, cut);
            var (a, b) := Split(w, t, Key(w, w.pos), cut);
            Represents(w, r, r[ptr1], a) && Represents(w, r, r[ptr0], b)
    decreases cut
  {
    hide Key, Less, Slot, Ordered;
    if t.Leaf? || cut == 0 {
    } else {
      var pair := 2 * Slot(w, t.q);
      assert t.q in Nodes(t);
      SlotsDiffer(w, t.q, t.q);
      ChildCells(w, t);
      if Key(w, t.q) == Key(w, w.pos) {
        var r := son[ptr1 := son[pair]][ptr0 := son[pair + 1]];
        RepresentsSame(w, son, r, son[pair], t.left);
        RepresentsSame(w, son, r, son[pair + 1], t.right);
      } else if Less(Key(w, t.q), Key(w, w.pos)) {
        GoRight(w, son, ptr0, ptr1, cut, t);
      } else {
        GoLeft(w, son, ptr0, ptr1, cut, t);
      }
    }
  }

  /** One turn of the loop towards the larger strings, and towards the smaller ones. */
  lemma {:induction false} RewireTurn(w: Window, son: seq<nat>, ptr0: nat, ptr1: nat, ref: nat, cut: nat)
    requires WindowOk(w) && |son| == 2 * w.size && ptr0 < |son| && ptr1 < |son| && cut > 0 && Live(w, ref)
    requires Key(w, ref) != Key(w, w.pos)
    ensures var pair := 2 * Slot(w, ref);
            && 0 <= pair && pair + 1 < |son|
            && Rewire(w, son, ptr0, ptr1, ref, cut)
               == if Less(Key(w, ref), Key(w, w.pos))
                  then Rewire(w, son[ptr1 := ref], ptr0, pair + 1, son[ptr1 := ref][pair + 1], cut - 1)
                  else Rewire(w, son[ptr0 := ref], pair, ptr1, son[ptr0 := ref][pair], cut - 1)
  {
    hide Less, Key;
    SlotsDiffer(w, ref, ref);
  }

  lemma {:induction false} GoRight(w: Window, son: seq<nat>, ptr0: nat, ptr1: nat, cut: nat, t: Tree)
    requires WindowOk(w) && |son| == 2 * w.size && ptr0 < |son| && ptr1 < |son| && ptr0 != ptr1 && cut > 0
    requires t.Node? && Represents(w, son, t.q, t) && Sound(w, t) && Outside(w, t, ptr0) && Outside(w, t, ptr1)
    requires Key(w, t.q) != Key(w, w.pos) && Less(Key(w, t.q), Key(w, w.pos))
    ensures var r := Rewire(w, son, ptr0, ptr1, t.q, cut);
            var (a, b) := Split(w, t, Key(w, w.pos), cut);
            Represents(w, r, r[ptr1], a) && Represents(w, r, r[ptr0], b)
    decreases cut, 0
  {
    hide Key, Less, Slot, Sound, Rewire, WindowOk, Live, Outside;
    var pair := 2 * Slot(w, t.q);
    RewireTurn(w, son, ptr0, ptr1, t.q, cut);
    Apart(w, t, ptr0, ptr1);
    var son1 := son[ptr1 := t.q];
    WrittenOutside(w, son, t, ptr1, t.q);
    var r := Rewire(w, son1, ptr0, pair + 1, son1[pair + 1], cut - 1);
    RewireLength(w, son1, ptr0, pair + 1, son1[pair + 1], cut - 1);
    RewireSplits(w, son1, ptr0, pair + 1, son1[pair + 1], cut - 1, t.right);
    RewireFrame(w, son1, ptr0, pair + 1, son1[pair + 1], cut - 1, t.right, ptr1);
    RewireFrame(w, son1, ptr0, pair + 1, son1[pair + 1], cut - 1, t.right, pair);
    RewireKeeps(w, son1, ptr0, pair + 1, son1[pair + 1], cut - 1, t.right, son1[pair], t.left);
  }

  lemma {:induction false} GoLeft(w: Window, son: seq<nat>, ptr0: nat, ptr1: nat, cut: nat, t: Tree)
    requires WindowOk(w) && |son| == 2 * w.size && ptr0 < |son| && ptr1 < |son| && ptr0 != ptr1 && cut > 0
    requires t.Node? && Represents(w, son, t.q, t) && Sound(w, t) && Outside(w, t, ptr0) && Outside(w, t, ptr1)
    requires Key(w, t.q) != Key(w, w.pos) && !Less(Key(w, t.q), Key(w, w.pos))
    ensures var r := Rewire(w, son, ptr0, ptr1, t.q, cut);
            var (a, b) := Split(w, t, Key(w, w.pos), cut);
            Represents(w, r, r[ptr1], a) && Represents(w, r, r[ptr0], b)
    decreases cut, 0
  {
    hide Key, Less, Slot, Sound, Rewire, WindowOk, Live, Outside;
    var pair := 2 * Slot(w, t.q);
    RewireTurn(w, son, ptr0, ptr1, t.q, cut);
    Apart(w, t, ptr0, ptr1);
    var son1 := son[ptr0 := t.q];
    WrittenOutside(w, son, t, ptr0, t.q);
    var r := Rewire(w, son1, pair, ptr1, son1[pair], cut - 1);
    RewireLength(w, son1, pair, ptr1, son1[pair], cut - 1);
    RewireSplits(w, son1, pair, ptr1, son1[pair], cut - 1, t.left);
    RewireFrame(w, son1, pair, ptr1, son1[pair], cut - 1, t.left, ptr0);
    RewireFrame(w, son1, pair, ptr1, son1[pair], cut - 1, t.left, pair + 1);
    RewireKeeps(w, son1, pair, ptr1, son1[pair], cut - 1, t.left, son1[pair + 1], t.right);
  }

  /** The waiting cells, the cells of the root and those of the two subtrees are all different. */
  lemma {:induction false} Apart(w: Window, t: Tree, ptr0: nat, ptr1: nat)
    requires WindowOk(w) && Sound(w, t) && t.Node? && Outside(w, t, ptr0) && Outside(w, t, ptr1)
    ensures var pair := 2 * Slot(w, t.q);
            && 0 <= pair && pair + 1 < 2 * w.size && ptr0 != pair && ptr0 != pair + 1 && ptr1 != pair
               && ptr1 != pair + 1
            && Outside(w, t.left, pair) && Outside(w, t.left, pair + 1) && Outside(w, t.right, pair)
               && Outside(w, t.right, pair + 1)
    ensures Outside(w, t.left, ptr0) && Outside(w, t.right, ptr0) && Outside(w, t.left, ptr1)
            && Outside(w, t.right, ptr1)
    ensures Sound(w, t.left) && Sound(w, t.right) && AllLive(w, t.left) && AllLive(w, t.right) && Live(w, t.q)
    ensures Nodes(t.left) !! Nodes(t.right)
  {
    hide Slot, Live, Key, Leq;
    ChildCells(w, t);
    assert t.q in Nodes(t);
  }

  /** Writing a waiting cell leaves both subtrees in place. */
  lemma {:induction false} WrittenOutside(w: Window, son: seq<nat>, t: Tree, cell: nat, v: nat)
    requires t.Node? && Represents(w, son, t.q, t) && Outside(w, t, cell) && cell < |son|
    ensures var pair := 2 * Slot(w, t.q); var son1 := son[cell := v];
            && 0 <= pair && pair + 1 < |son| && son1[pair] == son[pair] && son1[pair + 1] == son[pair + 1]
            && Represents(w, son1, son1[pair], t.left) && Represents(w, son1, son1[pair + 1], t.right)
  {
    hide Slot, Live;
    assert t.q in Nodes(t);
    var pair := 2 * Slot(w, t.q);
    RepresentsSame(w, son, son[cell := v], son[pair], t.left);
    RepresentsSame(w, son, son[cell := v], son[pair + 1], t.right);
  }

  // ---------------------------------------------------------------- matches

  /** The matches met on the way down: length and distance - 1 of each one longer than all before. */
  function Found(w: Window, t: Tree, maxLen: nat, cut: nat): seq<(nat, nat)>
  {
    if t.Leaf? || cut == 0 || t.q >= w.pos then []
    else
      var k := Key(w, w.pos);
      var len := Lcp(Key(w, t.q), k);
      var here := if maxLen < len then [(len, w.pos - t.q - 1)] else [];
      var best := if maxLen < len then len else maxLen;
      if len == w.limit then here
      else here + Found(w, if Less(Key(w, t.q), k) then t.right else t.left, best, cut - 1)
  }

  /** A stretch of text that occurred dist + 1 bytes earlier, inside the window. */
  predicate IsMatch(w: Window, len: nat, dist: nat)
  {
    && dist + 1 < w.size && dist + 1 <= w.pos && len <= w.limit && w.pos + len <= |w.text|
    && w.text[w.pos - dist - 1..w.pos - dist - 1 + len] == w.text[w.pos..w.pos + len]
  }

  predicate Increasing(f: seq<(nat, nat)>, above: nat)
  {
    (forall i :: 0 <= i < |f| ==> above < f[i].0) && forall i, j :: 0 <= i < j < |f| ==> f[i].0 < f[j].0
  }

  /** Every reported pair is a match, and every match is longer than the one before. */
  lemma {:induction false} FoundMatches(w: Window, t: Tree, maxLen: nat, cut: nat)
    requires WindowOk(w) && Sound(w, t)
    ensures var f := Found(w, t, maxLen, cut);
            Increasing(f, maxLen) && forall i :: 0 <= i < |f| ==> IsMatch(w, f[i].0, f[i].1)
    decreases t
  {
    hide Lcp, Less, Sound, Key, Found, IsMatch, Increasing;
    FoundStep(w, t, maxLen, cut);
    if t.Node? && cut > 0 {
      SoundChildren(w, t);
      var len := Lcp(Key(w, t.q), Key(w, w.pos));
      MatchHere(w, t);
      var here := if maxLen < len then [(len, w.pos - t.q - 1)] else [];
      var best := if maxLen < len then len else maxLen;
      var next := if Less(Key(w, t.q), Key(w, w.pos)) then t.right else t.left;
      FoundMatches(w, next, best, cut - 1);
      JoinMatches(w, len, w.pos - t.q - 1, Found(w, next, best, cut - 1), maxLen);
      assert here + [] == here;
    } else {
      NoMatches(w, maxLen);
    }
  }

  lemma {:induction false} NoMatches(w: Window, maxLen: nat)
    ensures Increasing([], maxLen)
  {
  }

  lemma {:induction false} FrontOfPart(s: seq<Byte>, q: nat, n: nat, len: nat)
    requires len <= n && q + n <= |s|
    ensures s[q..q + n][..len] == s[q..q + len]
  {
  }

  lemma {:induction false} MatchHere(w: Window, t: Tree)
    requires WindowOk(w) && Sound(w, t) && t.Node?
    ensures t.q < w.pos && IsMatch(w, Lcp(Key(w, t.q), Key(w, w.pos)), w.pos - t.q - 1)
  {
    hide Lcp, Sound, Key, Less;
    SoundChildren(w, t);
    KeyLength(w, t.q);
    KeyLength(w, w.pos);
    var len := Lcp(Key(w, t.q), Key(w, w.pos));
    CommonPrefix(Key(w, t.q), Key(w, w.pos));
    LcpShort(Key(w, t.q), Key(w, w.pos));
    FrontOfPart(w.text, t.q, w.limit, len);
    FrontOfPart(w.text, w.pos, w.limit, len);
  }

  /** A match in front of longer ones. */
  lemma {:induction false} JoinMatches(w: Window, len: nat, dist: nat, rest: seq<(nat, nat)>, maxLen: nat)
    requires IsMatch(w, len, dist) && forall i :: 0 <= i < |rest| ==> IsMatch(w, rest[i].0, rest[i].1)
    requires Increasing(rest, if maxLen < len then len else maxLen)
    ensures var f := (if maxLen < len then [(len, dist)] else []) + rest;
            Increasing(f, maxLen) && forall i :: 0 <= i < |f| ==> IsMatch(w, f[i].0, f[i].1)
    ensures var here := if maxLen < len then [(len, dist)] else [];
            Increasing(here, maxLen) && forall i :: 0 <= i < |here| ==> IsMatch(w, here[i].0, here[i].1)
  {
    hide IsMatch;
  }

  function Depth(t: Tree): nat
  {
    match t
    case Leaf => 0
    case Node(_, l, r) => 1 + if Depth(l) < Depth(r) then Depth(r) else Depth(l)
  }

  /** The longest match reported, or maxLen. */
  function Longest(f: seq<(nat, nat)>, maxLen: nat): nat
  {
    if f == [] then maxLen else f[|f| - 1].0
  }

  /** Unless the search is cut short, no string of the tree matches further than the longest reported one. */
  lemma {:induction false} FoundLongest(w: Window, t: Tree, maxLen: nat, cut: nat)
    requires WindowOk(w) && Sound(w, t) && Depth(t) <= cut
    ensures var best := Longest(Found(w, t, maxLen, cut), maxLen);
            maxLen <= best && forall x :: x in Nodes(t) ==> Lcp(Key(w, x), Key(w, w.pos)) <= best
    decreases t
  {
    hide Lcp, Less, Leq, Ordered, Under, Over, Distinct, AllLive, Key;
    if t.Node? {
      SoundChildren(w, t);
      var k := Key(w, w.pos);
      var len := Lcp(Key(w, t.q), k);
      var best := if maxLen < len then len else maxLen;
      FoundLongest(w, t.right, best, cut - 1);
      FoundLongest(w, t.left, best, cut - 1);
      KeyLength(w, w.pos);
      KeyLength(w, t.q);
      Trichotomy(Key(w, t.q), k);
      FurtherOff(w, t);
      AllWithin(w, t);
      LongestAppend(if maxLen < len then [(len, w.pos - t.q - 1)] else [],
                    Found(w, if Less(Key(w, t.q), k) then t.right else t.left, best, cut - 1), maxLen);
    }
  }

  lemma {:induction false} LongestAppend(here: seq<(nat, nat)>, rest: seq<(nat, nat)>, maxLen: nat)
    ensures Longest(here + rest, maxLen) == Longest(rest, Longest(here, maxLen))
  {
    if rest == [] { assert here + rest == here; }
  }

  lemma {:induction false} AllWithin(w: Window, t: Tree)
    requires WindowOk(w) && AllLive(w, t)
    ensures forall x :: x in Nodes(t) ==> Lcp(Key(w, x), Key(w, w.pos)) <= w.limit
  {
    hide Lcp;
    forall x | x in Nodes(t)
      ensures Lcp(Key(w, x), Key(w, w.pos)) <= w.limit
    {
      KeyLength(w, x);
      LcpEqual(Key(w, x), Key(w, w.pos));
      LcpShort(Key(w, x), Key(w, w.pos));
    }
  }

  /** The strings on the side that is not searched match no further than the root. */
  lemma {:induction false} FurtherOff(w: Window, t: Tree)
    requires WindowOk(w) && Sound(w, t) && t.Node?
    ensures var k := Key(w, w.pos);
            && (Less(Key(w, t.q), k) ==> forall x :: x in Nodes(t.left) ==> Lcp(Key(w, x), k) <= Lcp(Key(w, t.q), k))
            && (Less(k, Key(w, t.q)) ==> forall x :: x in Nodes(t.right) ==> Lcp(Key(w, x), k) <= Lcp(Key(w, t.q), k))
  {
    hide Lcp, Less, Leq, Key, Ordered, Distinct;
    var k := Key(w, w.pos);
    SoundChildren(w, t);
    KeyLength(w, w.pos);
    KeyLength(w, t.q);
    LessLeq(Key(w, t.q), k);
    forall x | x in Nodes(t.left) && Less(Key(w, t.q), k)
      ensures Lcp(Key(w, x), k) <= Lcp(Key(w, t.q), k)
    {
      KeyLength(w, x);
      Between(Key(w, x), Key(w, t.q), k);
    }
    forall x | x in Nodes(t.right) && Less(k, Key(w, t.q))
      ensures Lcp(Key(w, x), k) <= Lcp(Key(w, t.q), k)
    {
      KeyLength(w, x);
      Between(k, Key(w, t.q), Key(w, x));
      LcpSymmetric(Key(w, x), k);
      LcpSymmetric(Key(w, t.q), k);
    }
  }

  // ---------------------------------------------------------------- the loops

  /** len1 bytes are known to be common with everything smaller left in the tree, len0 with everything larger. */
  predicate Known(w: Window, t: Tree, len0: nat, len1: nat)
  {
    forall x :: x in Nodes(t) ==>
      && (Less(Key(w, x), Key(w, w.pos)) ==> len1 <= Lcp(Key(w, x), Key(w, w.pos)))
      && (Less(Key(w, w.pos), Key(w, x)) ==> len0 <= Lcp(Key(w, x), Key(w, w.pos)))
  }

  /** The loop need not compare what both neighbours have in common with the current string. */
  lemma {:induction false} SkipKnown(w: Window, t: Tree, len0: nat, len1: nat)
    requires WindowOk(w) && Sound(w, t) && t.Node? && Known(w, t, len0, len1) && len0 < w.limit && len1 < w.limit
    ensures (if len0 < len1 then len0 else len1) <= Lcp(Key(w, t.q), Key(w, w.pos)) <= w.limit
    ensures Lcp(Key(w, t.q), Key(w, w.pos)) == w.limit <==> Key(w, t.q) == Key(w, w.pos)
  {
    hide Lcp, Less, Key, Ordered, Distinct;
    assert t.q in Nodes(t);
    KeyLength(w, t.q);
    KeyLength(w, w.pos);
    Trichotomy(Key(w, t.q), Key(w, w.pos));
    LcpShort(Key(w, t.q), Key(w, w.pos));
  }

  lemma {:induction false} KnownBelow(w: Window, t: Tree, len0: nat, len1: nat)
    requires WindowOk(w) && Sound(w, t) && t.Node? && Known(w, t, len0, len1)
    ensures var k := Key(w, w.pos); var len := Lcp(Key(w, t.q), k);
            && (Less(Key(w, t.q), k) ==> Known(w, t.right, len0, len))
            && (Less(k, Key(w, t.q)) ==> Known(w, t.left, len, len1))
  {
    hide Lcp, Less, Leq, Key, Ordered, Distinct;
    var k := Key(w, w.pos);
    SoundChildren(w, t);
    KeyLength(w, w.pos);
    KeyLength(w, t.q);
    forall x | x in Nodes(t.right) && Less(Key(w, x), k)
      ensures Lcp(Key(w, t.q), k) <= Lcp(Key(w, x), k)
    {
      KeyLength(w, x);
      LessLeq(Key(w, x), k);
      Between(Key(w, t.q), Key(w, x), k);
    }
    forall x | x in Nodes(t.left) && Less(k, Key(w, x))
      ensures Lcp(Key(w, t.q), k) <= Lcp(Key(w, x), k)
    {
      KeyLength(w, x);
      LessLeq(k, Key(w, x));
      Between(k, Key(w, x), Key(w, t.q));
      LcpSymmetric(Key(w, x), k);
      LcpSymmetric(Key(w, t.q), k);
    }
  }

  /** How far the text at pb agrees with the text at cur, from len on: the comparison loops of both functions. */
  method Extend(text: seq<Byte>, pb: nat, cur: nat, start: nat, lenLimit: nat) returns (len: nat)
    requires pb < cur && cur + lenLimit <= |text| && start < lenLimit
    requires start <= Lcp(text[pb..pb + lenLimit], text[cur..cur + lenLimit])
    ensures len == Lcp(text[pb..pb + lenLimit], text[cur..cur + lenLimit]) <= lenLimit
  {
    hide Lcp;
    ghost var a, b := text[pb..pb + lenLimit], text[cur..cur + lenLimit];
    LcpEqual(a, b);
    len := start;
    while len != lenLimit && text[pb + len] == text[cur + len]
      invariant start <= len <= lenLimit && forall i :: 0 <= i < len ==> a[i] == b[i]
    {
      assert a[len] == b[len];
      len := len + 1;
    }
    if len < lenLimit { assert a[len] != b[len]; }
    LcpIs(a, b, len);
  }

  /** What the loops know of the tree that is left. */
  predicate Searching(w: Window, son: seq<nat>, ptr0: nat, ptr1: nat, ref: nat, t: Tree, len0: nat, len1: nat)
  {
    && WindowOk(w) && |son| == 2 * w.size && ptr0 < |son| && ptr1 < |son| && ptr0 != ptr1
    && Represents(w, son, ref, t) && Sound(w, t) && Outside(w, t, ptr0) && Outside(w, t, ptr1)
    && Known(w, t, len0, len1) && len0 < w.limit && len1 < w.limit
  }

  /** Everything one turn needs. */
  lemma {:induction false} SearchingNode(w: Window, son: seq<nat>, ptr0: nat, ptr1: nat, ref: nat, t: Tree, len0: nat,
                                         len1: nat)
    requires Searching(w, son, ptr0, ptr1, ref, t, len0, len1)
    ensures t.Leaf? <==> !Live(w, ref)
    ensures len0 < w.limit && len1 < w.limit
    ensures t.Leaf? ==> ref < w.pos && w.pos - ref >= w.size
    ensures t.Node? ==>
              && ref == t.q < w.pos && 0 <= Slot(w, ref) < w.size
              && (if len0 < len1 then len0 else len1) <= Lcp(Key(w, ref), Key(w, w.pos)) <= w.limit
              && (Lcp(Key(w, ref), Key(w, w.pos)) == w.limit <==> Key(w, ref) == Key(w, w.pos))
              && Key(w, ref) == w.text[ref..ref + w.limit]
  {
    hide Lcp, Less, Key, Ordered, Distinct, Outside;
    if t.Node? {
      assert t.q in Nodes(t);
      SkipKnown(w, t, len0, len1);
      KeyLength(w, ref);
      SlotsDiffer(w, ref, ref);
    }
  }

  lemma {:induction false} SearchingTurn(w: Window, son: seq<nat>, ptr0: nat, ptr1: nat, ref: nat, t: Tree, len0: nat,
                                         len1: nat)
    requires Searching(w, son, ptr0, ptr1, ref, t, len0, len1) && t.Node?
    ensures var k := Key(w, w.pos); var pair := 2 * Slot(w, ref); var len := Lcp(Key(w, ref), k);
            len < w.limit ==>
              && 0 <= pair && pair + 1 < |son| && Key(w, ref) != k
              && (if Less(Key(w, ref), k)
                  then Searching(w, son[ptr1 := ref], ptr0, pair + 1, son[ptr1 := ref][pair + 1], t.right, len0, len)
                  else Searching(w, son[ptr0 := ref], pair, ptr1, son[ptr0 := ref][pair], t.left, len, len1))
  {
    hide Lcp, Less, Key, Ordered, Distinct, Outside, Slot, Live;
    var k := Key(w, w.pos);
    SearchingNode(w, son, ptr0, ptr1, ref, t, len0, len1);
    Apart(w, t, ptr0, ptr1);
    WrittenOutside(w, son, t, ptr0, ref);
    WrittenOutside(w, son, t, ptr1, ref);
    KnownBelow(w, t, len0, len1);
    KeyLength(w, t.q);
    KeyLength(w, w.pos);
    Trichotomy(Key(w, ref), k);
  }

  /** The turn that links the node and goes on below it. */
  lemma {:induction false} SearchGoesOn(w: Window, son: seq<nat>, ptr0: nat, ptr1: nat, ref: nat, t: Tree, len0: nat,
                                        len1: nat, cut: nat, pair: nat, len: nat)
    requires Searching(w, son, ptr0, ptr1, ref, t, len0, len1) && t.Node? && cut > 0 && pair == 2 * Slot(w, ref)
    requires len == Lcp(Key(w, ref), Key(w, w.pos)) < w.limit
    ensures WindowOk(w) && |son| == 2 * w.size && ptr0 < |son| && ptr1 < |son| && pair + 1 < |son|
    ensures if Less(Key(w, ref), Key(w, w.pos))
            then var son1 := son[ptr1 := ref];
                 && Searching(w, son1, ptr0, pair + 1, son1[pair + 1], t.right, len0, len)
                 && Rewire(w, son1, ptr0, pair + 1, son1[pair + 1], cut - 1) == Rewire(w, son, ptr0, ptr1, ref, cut)
            else var son1 := son[ptr0 := ref];
                 && Searching(w, son1, pair, ptr1, son1[pair], t.left, len, len1)
                 && Rewire(w, son1, pair, ptr1, son1[pair], cut - 1) == Rewire(w, son, ptr0, ptr1, ref, cut)
  {
    hide Searching, Rewire, Lcp, Less, Key, Live, Slot;
    SearchingSizes(w, son, ptr0, ptr1, ref, t, len0, len1);
    SearchingNode(w, son, ptr0, ptr1, ref, t, len0, len1);
    SearchingTurn(w, son, ptr0, ptr1, ref, t, len0, len1);
    RewireEnds(w, son, ptr0, ptr1, ref, cut);
  }

  lemma {:induction false} SearchingSizes(w: Window, son: seq<nat>, ptr0: nat, ptr1: nat, ref: nat, t: Tree, len0: nat,
                                          len1: nat)
    requires Searching(w, son, ptr0, ptr1, ref, t, len0, len1)
    ensures WindowOk(w) && |son| == 2 * w.size && ptr0 < |son| && ptr1 < |son|
  {
  }

  /** GetMatchesSpec1: son[] is rewired, and the matches of the search are appended. */
  method GetMatchesSpec1(lenLimit: nat, curMatch0: nat, text: seq<Byte>, pos: nat, son: array<nat>,
                         cyclicBufferPos: nat, cyclicBufferSize: nat, cutValue0: nat, distances: seq<(nat, nat)>,
                         maxLen0: nat, ghost t0: Tree)
    returns (r: seq<(nat, nat)>)
    requires var w := Window(text, pos, cyclicBufferPos, cyclicBufferSize, lenLimit);
             && WindowOk(w) && son.Length == 2 * cyclicBufferSize && maxLen0 < lenLimit
             && Represents(w, son[..], curMatch0, t0) && Sound(w, t0)
    modifies son
    ensures var w := Window(text, pos, cyclicBufferPos, cyclicBufferSize, lenLimit);
            && son[..] == Rewire(w, old(son[..]), 2 * cyclicBufferPos + 1, 2 * cyclicBufferPos, curMatch0, cutValue0)
            && r == distances + Found(w, t0, maxLen0, cutValue0)
  {
    hide Searching, Rewire, Lcp, Less, Key, Sound, Live, Slot, Found, Represents;
    ghost var w := Window(text, pos, cyclicBufferPos, cyclicBufferSize, lenLimit);
    var ptr0: nat, ptr1: nat := 2 * cyclicBufferPos + 1, 2 * cyclicBufferPos;
    var len0: nat, len1: nat := 0, 0;
    var curMatch: nat, cutValue: nat, maxLen: nat := curMatch0, cutValue0, maxLen0;
    ghost var t := t0;
    r := distances;
    ghost var cells := Rewire(w, son[..], ptr0, ptr1, curMatch, cutValue);
    ghost var all := distances + Found(w, t, maxLen, cutValue);
    SearchStart(w, son[..], curMatch, t);
    while true
      invariant Searching(w, son[..], ptr0, ptr1, curMatch, t, len0, len1) && maxLen < lenLimit
      invariant ptr0 < son.Length && ptr1 < son.Length
      invariant Rewire(w, son[..], ptr0, ptr1, curMatch, cutValue) == cells
      invariant r + Found(w, t, maxLen, cutValue) == all
      decreases cutValue
    {
      ghost var now, ref := son[..], curMatch;
      SearchingNode(w, now, ptr0, ptr1, ref, t, len0, len1);
      var delta := pos - curMatch;
      LiveDelta(w, ref);
      if cutValue == 0 || delta >= cyclicBufferSize {
        RewireEnds(w, now, ptr0, ptr1, ref, cutValue);
        FoundEnd(w, t, maxLen, cutValue, r);
        CloseCells(son, ptr0, ptr1);
        return;
      }
      cutValue := cutValue - 1;
      var pair := 2 * (cyclicBufferPos - delta + if delta > cyclicBufferPos then cyclicBufferSize else 0);
      SlotIs(w, ref);
      var len := if len0 < len1 then len0 else len1;
      KeyText(w, ref);
      len := Extend(text, curMatch, pos, len, lenLimit);
      FoundTurn(w, t, maxLen, cutValue + 1, r, all, len);
      if maxLen < len {
        maxLen := len;
        r := r + [(len, delta - 1)];
        if len == lenLimit {
          RewireEnds(w, now, ptr0, ptr1, ref, cutValue + 1);
          Inherit(son, ptr0, ptr1, pair);
          return;
        }
      }
      LessText(w, ref, len);
      SearchGoesOn(w, now, ptr0, ptr1, ref, t, len0, len1, cutValue + 1, pair, len);
      if text[curMatch + len] < text[pos + len] {
        curMatch := Descend(son, ptr1, curMatch, pair + 1);
        ptr1, len1, t := pair + 1, len, t.right;
      } else {
        curMatch := Descend(son, ptr0, curMatch, pair);
        ptr0, len0, t := pair, len, t.left;
      }
    }
  }

  /** *ptr1 = curMatch; ptr1 = pair + 1; curMatch = *ptr1, or the same with ptr0 and pair. */
  method Descend(son: array<nat>, cell: nat, ref: nat, next: nat) returns (child: nat)
    requires cell < son.Length && next < son.Length
    modifies son
    ensures son[..] == old(son[..])[cell := ref] && child == old(son[..])[cell := ref][next]
  {
    son[cell] := ref;
    child := son[next];
  }

  /** *ptr0 = *ptr1 = kEmptyHashValue */
  method CloseCells(son: array<nat>, ptr0: nat, ptr1: nat)
    requires ptr0 < son.Length && ptr1 < son.Length
    modifies son
    ensures son[..] == old(son[..])[ptr0 := 0][ptr1 := 0]
  {
    son[ptr0] := 0;
    son[ptr1] := 0;
  }

  /** An equal string is replaced: the waiting cells get its subtrees. */
  method Inherit(son: array<nat>, ptr0: nat, ptr1: nat, pair: nat)
    requires ptr0 < son.Length && ptr1 < son.Length && pair + 1 < son.Length
    modifies son
    ensures var son1 := old(son[..])[ptr1 := old(son[pair])]; son[..] == son1[ptr0 := son1[pair + 1]]
  {
    son[ptr1] := son[pair];
    son[ptr0] := son[pair + 1];
  }

  /** Appending what is found now and what is found later. */
  lemma {:induction false} FoundEnd(w: Window, t: Tree, maxLen: nat, cut: nat, r: seq<(nat, nat)>)
    requires t.Leaf? || cut == 0
    ensures r + Found(w, t, maxLen, cut) == r
  {
    hide Key, Less, Lcp, Found;
    FoundStep(w, t, maxLen, cut);
    assert r + [] == r;
  }

  /** What has been found with what will be is still everything. */
  lemma {:induction false} FoundTurn(w: Window, t: Tree, maxLen: nat, cut: nat, r: seq<(nat, nat)>,
                                     all: seq<(nat, nat)>, len: nat)
    requires t.Node? && cut > 0 && t.q < w.pos && len == Lcp(Key(w, t.q), Key(w, w.pos))
    requires r + Found(w, t, maxLen, cut) == all
    ensures var r' := if maxLen < len then r + [(len, w.pos - t.q - 1)] else r;
            if len == w.limit then maxLen < len ==> r' == all
            else r' + Found(w, if Less(Key(w, t.q), Key(w, w.pos)) then t.right else t.left,
                            if maxLen < len then len else maxLen, cut - 1) == all
  {
    hide Key, Less, Lcp, Found;
    FoundStep(w, t, maxLen, cut);
    var here: seq<(nat, nat)> := if maxLen < len then [(len, w.pos - t.q - 1)] else [];
    var rest := if len == w.limit then []
                else Found(w, if Less(Key(w, t.q), Key(w, w.pos)) then t.right else t.left,
                           if maxLen < len then len else maxLen, cut - 1);
    assert (r + here) + rest == r + (here + rest) && here + [] == here;
  }

  lemma {:induction false} SearchStart(w: Window, son: seq<nat>, ref: nat, t: Tree)
    requires WindowOk(w) && |son| == 2 * w.size && Represents(w, son, ref, t) && Sound(w, t)
    ensures Searching(w, son, 2 * w.cyclicPos + 1, 2 * w.cyclicPos, ref, t, 0, 0)
  {
    hide Lcp, Less, Key, Ordered, Distinct;
    forall x | x in Nodes(t)
      ensures Slot(w, x) != w.cyclicPos
    {
      SlotsDiffer(w, w.pos, x);
      SlotIs(w, w.pos);
    }
  }

  lemma {:induction false} SlotIs(w: Window, q: nat)
    ensures Slot(w, q) == w.cyclicPos - (w.pos - q) + if w.pos - q > w.cyclicPos then w.size else 0
    ensures q == w.pos ==> Slot(w, q) == w.cyclicPos
  {
  }

  lemma {:induction false} LiveDelta(w: Window, q: nat)
    ensures Live(w, q) <==> q < w.pos && w.pos - q < w.size
  {
  }

  lemma {:induction false} KeyText(w: Window, q: nat)
    requires WindowOk(w) && q <= w.pos
    ensures Key(w, q) == w.text[q..q + w.limit] && Key(w, w.pos) == w.text[w.pos..w.pos + w.limit]
  {
  }

  /** The byte behind the common prefix decides the order. */
  lemma {:induction false} LessText(w: Window, q: nat, len: nat)
    requires WindowOk(w) && q < w.pos && len == Lcp(Key(w, q), Key(w, w.pos)) < w.limit
    ensures Less(Key(w, q), Key(w, w.pos)) <==> w.text[q + len] < w.text[w.pos + len]
  {
    hide Lcp;
    KeyText(w, q);
    assert Key(w, q)[len] == w.text[q + len] && Key(w, w.pos)[len] == w.text[w.pos + len];
  }

  /** One turn of Rewire, in all its cases. */
  lemma {:induction false} RewireEnds(w: Window, son: seq<nat>, ptr0: nat, ptr1: nat, ref: nat, cut: nat)
    requires WindowOk(w) && |son| == 2 * w.size && ptr0 < |son| && ptr1 < |son|
    ensures cut == 0 || !Live(w, ref) ==> Rewire(w, son, ptr0, ptr1, ref, cut) == son[ptr0 := 0][ptr1 := 0]
    ensures cut > 0 && Live(w, ref) ==>
              var pair := 2 * Slot(w, ref);
              && 0 <= pair && pair + 1 < |son|
              && Rewire(w, son, ptr0, ptr1, ref, cut)
                 == if Key(w, ref) == Key(w, w.pos) then son[ptr1 := son[pair]][ptr0 := son[ptr1 := son[pair]][pair + 1]]
                    else if Less(Key(w, ref), Key(w, w.pos))
                    then Rewire(w, son[ptr1 := ref], ptr0, pair + 1, son[ptr1 := ref][pair + 1], cut - 1)
                    else Rewire(w, son[ptr0 := ref], pair, ptr1, son[ptr0 := ref][pair], cut - 1)
  {
    hide Key, Less;
    if Live(w, ref) { SlotsDiffer(w, ref, ref); }
  }

  lemma {:induction false} FoundStep(w: Window, t: Tree, maxLen: nat, cut: nat)
    ensures t.Leaf? || cut == 0 ==> Found(w, t, maxLen, cut) == []
    ensures t.Node? && cut > 0 && t.q < w.pos ==>
              var k := Key(w, w.pos); var len := Lcp(Key(w, t.q), k);
              Found(w, t, maxLen, cut)
              == (if maxLen < len then [(len, w.pos - t.q - 1)] else [])
                 + (if len == w.limit then []
                    else Found(w, if Less(Key(w, t.q), k) then t.right else t.left, if maxLen < len then len else maxLen,
                               cut - 1))
  {
    hide Key, Less, Lcp;
  }

  /** SkipMatchesSpec: the same rewiring without the matches. */
  method SkipMatchesSpec(lenLimit: nat, curMatch0: nat, text: seq<Byte>, pos: nat, son: array<nat>,
                         cyclicBufferPos: nat, cyclicBufferSize: nat, cutValue0: nat, ghost t0: Tree)
    requires var w := Window(text, pos, cyclicBufferPos, cyclicBufferSize, lenLimit);
             && WindowOk(w) && son.Length == 2 * cyclicBufferSize
             && Represents(w, son[..], curMatch0, t0) && Sound(w, t0)
    modifies son
    ensures var w := Window(text, pos, cyclicBufferPos, cyclicBufferSize, lenLimit);
            son[..] == Rewire(w, old(son[..]), 2 * cyclicBufferPos + 1, 2 * cyclicBufferPos, curMatch0, cutValue0)
  {
    hide Searching, Rewire, Lcp, Less, Key, Sound, Live, Slot, Found, Represents;
    ghost var w := Window(text, pos, cyclicBufferPos, cyclicBufferSize, lenLimit);
    var ptr0: nat, ptr1: nat := 2 * cyclicBufferPos + 1, 2 * cyclicBufferPos;
    var len0: nat, len1: nat := 0, 0;
    var curMatch: nat, cutValue: nat := curMatch0, cutValue0;
    ghost var t := t0;
    SearchStart(w, son[..], curMatch, t);
    while true
      invariant Searching(w, son[..], ptr0, ptr1, curMatch, t, len0, len1)
      invariant ptr0 < son.Length && ptr1 < son.Length
      invariant Rewire(w, son[..], ptr0, ptr1, curMatch, cutValue)
             == Rewire(w, old(son[..]), 2 * cyclicBufferPos + 1, 2 * cyclicBufferPos, curMatch0, cutValue0)
      decreases cutValue
    {
      SearchingNode(w, son[..], ptr0, ptr1, curMatch, t, len0, len1);
      var delta := pos - curMatch;
      RewireEnds(w, son[..], ptr0, ptr1, curMatch, cutValue);
      LiveDelta(w, curMatch);
      if cutValue == 0 || delta >= cyclicBufferSize {
        CloseCells(son, ptr0, ptr1);
        return;
      }
      SearchingTurn(w, son[..], ptr0, ptr1, curMatch, t, len0, len1);
      cutValue := cutValue - 1;
      var pair := 2 * (cyclicBufferPos - delta + if delta > cyclicBufferPos then cyclicBufferSize else 0);
      SlotIs(w, curMatch);
      var len := if len0 < len1 then len0 else len1;
      KeyText(w, curMatch);
      len := Extend(text, curMatch, pos, len, lenLimit);
      if len == lenLimit {
        Inherit(son, ptr0, ptr1, pair);
        return;
      }
      LessText(w, curMatch, len);
      if text[curMatch + len] < text[pos + len] {
        curMatch := Descend(son, ptr1, curMatch, pair + 1);
        ptr1, len1, t := pair + 1, len, t.right;
      } else {
        curMatch := Descend(son, ptr0, curMatch, pair);
        ptr0, len0, t := pair, len, t.left;
      }
    }
  }

  // ---------------------------------------------------------------- from one position to the next

  /** MOVE_POS, with the cyclic position wrapping at the end of the window. */
  function Next(w: Window): Window
  {
    w.(pos := w.pos + 1, cyclicPos := if w.cyclicPos + 1 == w.size then 0 else w.cyclicPos + 1)
  }

  /** The part of a tree that is still in the window. */
  function Prune(w: Window, t: Tree): Tree
  {
    match t
    case Leaf => Leaf
    case Node(q, l, r) => if Live(w, q) then Node(q, Prune(w, l), Prune(w, r)) else Leaf
  }

  lemma {:induction false} SlotStable(w: Window, q: nat)
    requires WindowOk(w) && q <= w.pos && Live(Next(w), q)
    ensures Slot(Next(w), q) == Slot(w, q)
  {
  }

  lemma {:induction false} PruneNodes(w: Window, t: Tree)
    ensures Nodes(Prune(w, t)) <= Nodes(t) && forall x :: x in Nodes(Prune(w, t)) ==> Live(w, x)
  {
    hide Live;
    match t
    case Leaf =>
    case Node(q, l, r) =>
      PruneNodes(w, l);
      PruneNodes(w, r);
  }

  lemma {:induction false} PruneOrdered(w: Window, w': Window, t: Tree)
    requires Distinct(t) && Ordered(w, t) && w'.text == w.text && w'.limit == w.limit
    ensures Sound(w', Prune(w', t))
  {
    hide Live, Leq;
    PruneNodes(w', t);
    match t
    case Leaf =>
    case Node(q, l, r) =>
      PruneOrdered(w, w', l);
      PruneOrdered(w, w', r);
      PruneNodes(w', l);
      PruneNodes(w', r);
      SameKeys(w, w', l, Prune(w', l), Key(w, q));
      SameKeys(w, w', r, Prune(w', r), Key(w, q));
  }

  lemma {:induction false} SameKeys(w: Window, w': Window, t: Tree, u: Tree, k: seq<Byte>)
    requires w'.text == w.text && w'.limit == w.limit && Nodes(u) <= Nodes(t)
    ensures Under(w, t, k) ==> Under(w', u, k)
    ensures Over(w, t, k) ==> Over(w', u, k)
  {
    hide Leq;
  }

  lemma {:induction false} PruneRepresents(w: Window, son: seq<nat>, ref: nat, t: Tree)
    requires WindowOk(w) && Represents(w, son, ref, t)
    ensures Represents(Next(w), son, ref, Prune(Next(w), t))
    decreases t
  {
    hide Slot;
    match t
    case Leaf =>
    case Node(q, l, r) =>
      if Live(Next(w), q) {
        SlotStable(w, q);
        PruneRepresents(w, son, son[2 * Slot(w, q)], l);
        PruneRepresents(w, son, son[2 * Slot(w, q) + 1], r);
      }
  }

  /** The tree after the current position has been inserted. */
  function Inserted(w: Window, t: Tree, cut: nat): Tree
  {
    var (a, b) := Split(w, t, Key(w, w.pos), cut);
    Node(w.pos, a, b)
  }

  /** After the loop and the move, the tree is a search tree again, with the inserted position as its root. */
  lemma {:induction false} InsertKeepsTree(w: Window, son: seq<nat>, ref: nat, t: Tree, cut: nat)
    requires WindowOk(w) && |son| == 2 * w.size && Represents(w, son, ref, t) && Sound(w, t)
    ensures var r := Rewire(w, son, 2 * w.cyclicPos + 1, 2 * w.cyclicPos, ref, cut);
            var u := Prune(Next(w), Inserted(w, t, cut));
            Represents(Next(w), r, w.pos, u) && Sound(Next(w), u) && Nodes(u) <= Nodes(t) + {w.pos}
  {
    hide Rewire, Split, Leq, Slot, Key;
    var k := Key(w, w.pos);
    var (a, b) := Split(w, t, k, cut);
    var r := Rewire(w, son, 2 * w.cyclicPos + 1, 2 * w.cyclicPos, ref, cut);
    RewireLength(w, son, 2 * w.cyclicPos + 1, 2 * w.cyclicPos, ref, cut);
    OwnCells(w, t);
    RewireSplits(w, son, 2 * w.cyclicPos + 1, 2 * w.cyclicPos, ref, cut, t);
    SplitNodes(w, t, k, cut);
    KeyLength(w, w.pos);
    SplitOrdered(w, t, k, cut);
    PruneRepresents(w, r, r[2 * w.cyclicPos], a);
    PruneRepresents(w, r, r[2 * w.cyclicPos + 1], b);
    SlotIs(w, w.pos);
    if Live(Next(w), w.pos) { SlotStable(w, w.pos); }
    PruneOrdered(w, Next(w), Inserted(w, t, cut));
    PruneNodes(Next(w), Inserted(w, t, cut));
  }

  /** The cells of the current position belong to no live position. */
  lemma {:induction false} OwnCells(w: Window, t: Tree)
    requires WindowOk(w) && AllLive(w, t)
    ensures Outside(w, t, 2 * w.cyclicPos) && Outside(w, t, 2 * w.cyclicPos + 1) && w.pos !in Nodes(t)
  {
    SlotIs(w, w.pos);
    forall x | x in Nodes(t)
      ensures Slot(w, x) != w.cyclicPos
    {
      SlotsDiffer(w, w.pos, x);
    }
  }

  // ---------------------------------------------------------------- all trees, over any run

  /** One search tree for every hash value, side by side in son[]. */
  ghost predicate Forest(w: Window, son: seq<nat>, heads: seq<nat>, trees: seq<Tree>)
  {
    && |heads| == |trees| && |son| == 2 * w.size
    && (forall h :: 0 <= h < |trees| ==> Represents(w, son, heads[h], trees[h]) && Sound(w, trees[h]))
    && (forall g, h :: 0 <= g < h < |trees| ==> Nodes(trees[g]) !! Nodes(trees[h]))
  }

  function Grown(w: Window, trees: seq<Tree>, h: nat, cut: nat): (r: seq<Tree>)
    requires h < |trees|
    ensures |r| == |trees|
  {
    seq(|trees|, g requires 0 <= g < |trees| => Prune(Next(w), if g == h then Inserted(w, trees[h], cut) else trees[g]))
  }

  /** Inserting into one tree keeps all of them. */
  lemma {:induction false} ForestStep(w: Window, son: seq<nat>, heads: seq<nat>, trees: seq<Tree>, h: nat, cut: nat)
    requires WindowOk(w) && Forest(w, son, heads, trees) && h < |trees|
    ensures Forest(Next(w), Rewire(w, son, 2 * w.cyclicPos + 1, 2 * w.cyclicPos, heads[h], cut), heads[h := w.pos],
                   Grown(w, trees, h, cut))
  {
    hide Rewire, Represents, Sound, Prune, Inserted, Nodes;
    var r := Rewire(w, son, 2 * w.cyclicPos + 1, 2 * w.cyclicPos, heads[h], cut);
    RewireLength(w, son, 2 * w.cyclicPos + 1, 2 * w.cyclicPos, heads[h], cut);
    InsertKeepsTree(w, son, heads[h], trees[h], cut);
    forall g | 0 <= g < |trees| && g != h
      ensures Represents(Next(w), r, heads[g], Prune(Next(w), trees[g])) && Sound(Next(w), Prune(Next(w), trees[g]))
      ensures Nodes(Prune(Next(w), trees[g])) <= Nodes(trees[g]) && w.pos !in Nodes(trees[g])
    {
      OtherTree(w, son, heads[h], trees[h], cut, heads[g], trees[g]);
    }
  }

  lemma {:induction false} OtherTree(w: Window, son: seq<nat>, ref: nat, t: Tree, cut: nat, other: nat, u: Tree)
    requires WindowOk(w) && |son| == 2 * w.size && Represents(w, son, ref, t) && Sound(w, t)
    requires Represents(w, son, other, u) && Sound(w, u) && Nodes(t) !! Nodes(u)
    ensures Represents(Next(w), Rewire(w, son, 2 * w.cyclicPos + 1, 2 * w.cyclicPos, ref, cut), other, Prune(Next(w), u))
    ensures Sound(Next(w), Prune(Next(w), u)) && Nodes(Prune(Next(w), u)) <= Nodes(u) && w.pos !in Nodes(u)
  {
    hide Rewire, Represents, Prune, Ordered;
    OwnCells(w, t);
    OwnCells(w, u);
    RewireKeeps(w, son, 2 * w.cyclicPos + 1, 2 * w.cyclicPos, ref, cut, t, other, u);
    PruneRepresents(w, Rewire(w, son, 2 * w.cyclicPos + 1, 2 * w.cyclicPos, ref, cut), other, u);
    PruneOrdered(w, Next(w), u);
    PruneNodes(Next(w), u);
  }

  /** Shorter strings keep their order, so the trees survive when fewer bytes of lookahead are left. */
  lemma {:induction false} ShorterLeq(a: seq<Byte>, b: seq<Byte>, n: nat)
    requires |a| == |b| && n <= |a| && Leq(a, b)
    ensures Leq(a[..n], b[..n])
  {
    hide Lcp;
    if a != b {
      LcpEqual(a, b);
      if Lcp(a, b) < n {
        LcpIs(a[..n], b[..n], Lcp(a, b));
      } else {
        assert a[..n] == b[..n];
      }
    }
  }

  lemma {:induction false} ShorterOrdered(w: Window, t: Tree, limit: nat)
    requires WindowOk(w) && limit <= w.limit && AllLive(w, t) && Ordered(w, t)
    ensures Ordered(w.(limit := limit), t)
  {
    hide Leq, Live;
    match t
    case Leaf =>
    case Node(q, l, r) =>
      var w' := w.(limit := limit);
      assert q in Nodes(t);
      ShorterOrdered(w, l, limit);
      ShorterOrdered(w, r, limit);
      ShorterKey(w, q, limit);
      forall x | x in Nodes(l)
        ensures Leq(Key(w', x), Key(w', q))
      {
        ShorterKey(w, x, limit);
        ShorterLeq(Key(w, x), Key(w, q), limit);
      }
      forall x | x in Nodes(r)
        ensures Leq(Key(w', q), Key(w', x))
      {
        ShorterKey(w, x, limit);
        ShorterLeq(Key(w, q), Key(w, x), limit);
      }
  }

  lemma {:induction false} ShorterKey(w: Window, q: nat, limit: nat)
    requires WindowOk(w) && limit <= w.limit && Live(w, q)
    ensures |Key(w, q)| == w.limit && Key(w.(limit := limit), q) == Key(w, q)[..limit]
  {
    assert w.text[q..q + limit] == w.text[q..q + w.limit][..limit];
  }

  lemma {:induction false} SamePlace(w: Window, son: seq<nat>, ref: nat, t: Tree, limit: nat)
    requires Represents(w, son, ref, t)
    ensures Represents(w.(limit := limit), son, ref, t)
    decreases t
  {
    match t
    case Leaf =>
    case Node(q, l, r) =>
      assert Slot(w.(limit := limit), q) == Slot(w, q);
      SamePlace(w, son, son[2 * Slot(w, q)], l, limit);
      SamePlace(w, son, son[2 * Slot(w, q) + 1], r, limit);
  }

  lemma {:induction false} ForestShorter(w: Window, son: seq<nat>, heads: seq<nat>, trees: seq<Tree>, limit: nat)
    requires WindowOk(w) && Forest(w, son, heads, trees) && limit <= w.limit
    ensures Forest(w.(limit := limit), son, heads, trees)
  {
    hide Represents, Nodes, Ordered, Distinct;
    forall h | 0 <= h < |trees|
      ensures Represents(w.(limit := limit), son, heads[h], trees[h]) && Sound(w.(limit := limit), trees[h])
    {
      SamePlace(w, son, heads[h], trees[h], limit);
      ShorterOrdered(w, trees[h], limit);
    }
  }

  /** A run: at every position a hash value, the lookahead left, and a bound on the search. */
  datatype Step = Step(hash: nat, limit: nat, cut: nat)

  ghost predicate Runnable(w: Window, steps: seq<Step>, hashes: nat)
    decreases |steps|
  {
    steps != [] ==>
      && steps[0].hash < hashes && steps[0].limit <= w.limit && WindowOk(w) && WindowOk(w.(limit := steps[0].limit))
      && Runnable(Next(w.(limit := steps[0].limit)), steps[1..], hashes)
  }

  function Run(w: Window, son: seq<nat>, heads: seq<nat>, steps: seq<Step>): (Window, seq<nat>, seq<nat>)
    decreases |steps|
  {
    if steps == [] then (w, son, heads)
    else
      var v := w.(limit := steps[0].limit);
      if !WindowOk(v) || |son| != 2 * v.size || steps[0].hash >= |heads| then (w, son, heads)
      else Run(Next(v), Rewire(v, son, 2 * v.cyclicPos + 1, 2 * v.cyclicPos, heads[steps[0].hash], steps[0].cut),
               heads[steps[0].hash := v.pos], steps[1..])
  }

  ghost predicate SomeForest(w: Window, son: seq<nat>, heads: seq<nat>)
  {
    exists trees :: Forest(w, son, heads, trees)
  }

  /** Any run of insertions keeps a forest of search trees in son[]. */
  lemma {:induction false} RunKeepsForest(w: Window, son: seq<nat>, heads: seq<nat>, trees: seq<Tree>,
                                          steps: seq<Step>)
    requires Forest(w, son, heads, trees) && Runnable(w, steps, |heads|)
    ensures var (w', son', heads') := Run(w, son, heads, steps);
            SomeForest(w', son', heads')
    decreases |steps|
  {
    hide Rewire, Forest;
    if steps == [] {
      assert Forest(w, son, heads, trees);
      assert SomeForest(w, son, heads);
    } else {
      var v := w.(limit := steps[0].limit);
      ForestSizes(w, son, heads, trees);
      ForestShorter(w, son, heads, trees, steps[0].limit);
      ForestStep(v, son, heads, trees, steps[0].hash, steps[0].cut);
      RunKeepsForest(Next(v), Rewire(v, son, 2 * v.cyclicPos + 1, 2 * v.cyclicPos, heads[steps[0].hash], steps[0].cut),
                     heads[steps[0].hash := v.pos], Grown(v, trees, steps[0].hash, steps[0].cut), steps[1..]);
    }
  }

  lemma {:induction false} ForestSizes(w: Window, son: seq<nat>, heads: seq<nat>, trees: seq<Tree>)
    requires Forest(w, son, heads, trees)
    ensures |heads| == |trees| && |son| == 2 * w.size
  {
  }

  /** The table after MatchFinder_Init: every head is empty, whatever son[] holds. */
  lemma {:induction false} EmptyForest(w: Window, son: seq<nat>, heads: seq<nat>)
    requires 1 <= w.size <= w.pos && |son| == 2 * w.size && forall h :: 0 <= h < |heads| ==> heads[h] == 0
    ensures Forest(w, son, heads, seq(|heads|, _ => Leaf))
  {
  }

  /** From the empty table on, any run of insertions leaves a search tree for every hash value in son[]. */
  lemma {:induction false} RunFromEmpty(w: Window, son: seq<nat>, heads: seq<nat>, steps: seq<Step>)
    requires 1 <= w.size <= w.pos && |son| == 2 * w.size && forall h :: 0 <= h < |heads| ==> heads[h] == 0
    requires Runnable(w, steps, |heads|)
    ensures var (w', son', heads') := Run(w, son, heads, steps);
            SomeForest(w', son', heads')
  {
    EmptyForest(w, son, heads);
    RunKeepsForest(w, son, heads, seq(|heads|, _ => Leaf), steps);
  }

  // ---------------------------------------------------------------- normalisation

  function Lowered(v: nat, sub: nat): nat
  {
    if v <= sub then 0 else v - sub
  }

  /** MatchFinder_Normalize3. */
  method Normalize3(subValue: nat, items: array<nat>)
    modifies items
    ensures forall i :: 0 <= i < items.Length ==> items[i] == Lowered(old(items[i]), subValue)
  {
    for i := 0 to items.Length
      invariant forall j :: 0 <= j < items.Length ==>
                items[j] == if j < i then Lowered(old(items[j]), subValue) else old(items[j])
    {
      var value := items[i];
      if value <= subValue {
        value := 0;
      } else {
        value := value - subValue;
      }
      items[i] := value;
    }
  }

  /** Positions counted from sub on. */
  function Shift(w: Window, sub: nat): Window
    requires sub <= w.pos && sub <= |w.text|
  {
    w.(text := w.text[sub..], pos := w.pos - sub)
  }

  function ShiftTree(t: Tree, sub: nat): Tree
  {
    match t
    case Leaf => Leaf
    case Node(q, l, r) => Node(Lowered(q, sub), ShiftTree(l, sub), ShiftTree(r, sub))
  }

  lemma {:induction false} ShiftNodes(w: Window, t: Tree, sub: nat)
    requires WindowOk(w) && sub + w.size <= w.pos && AllLive(w, t)
    ensures forall x :: x in Nodes(t) ==> x > sub
    ensures forall y :: y in Nodes(ShiftTree(t, sub)) ==> y + sub in Nodes(t)
  {
    match t
    case Leaf =>
    case Node(q, l, r) =>
      assert q in Nodes(t);
      ShiftNodes(w, l, sub);
      ShiftNodes(w, r, sub);
  }

  /** Normalising son[] and the heads moves every tree as it is, because what becomes empty had left the window. */
  lemma {:induction false} NormalizeKeepsTree(w: Window, son: seq<nat>, son': seq<nat>, ref: nat, t: Tree, sub: nat)
    requires WindowOk(w) && sub + w.size <= w.pos && |son'| == |son|
    requires forall i :: 0 <= i < |son| ==> son'[i] == Lowered(son[i], sub)
    requires Represents(w, son, ref, t) && Sound(w, t)
    ensures Represents(Shift(w, sub), son', Lowered(ref, sub), ShiftTree(t, sub))
            && Sound(Shift(w, sub), ShiftTree(t, sub))
    decreases t
  {
    hide Leq, Key, Under, Over;
    match t
    case Leaf =>
    case Node(q, l, r) =>
      RootShift(w, t, sub);
      SoundChildren(w, t);
      assert Slot(Shift(w, sub), q - sub) == Slot(w, q);
      NormalizeKeepsTree(w, son, son', son[2 * Slot(w, q)], l, sub);
      NormalizeKeepsTree(w, son, son', son[2 * Slot(w, q) + 1], r, sub);
      ShiftSound(w, t, sub);
  }

  lemma {:induction false} ShiftKey(w: Window, q: nat, sub: nat)
    requires WindowOk(w) && sub + w.size <= w.pos && sub <= q <= w.pos
    ensures Key(Shift(w, sub), q - sub) == Key(w, q)
  {
    assert w.text[sub..][q - sub..q - sub + w.limit] == w.text[q..q + w.limit];
  }

  lemma {:induction false} ShiftUnder(w: Window, t: Tree, q: nat, sub: nat)
    requires WindowOk(w) && sub + w.size <= w.pos && AllLive(w, t) && sub < q <= w.pos
    ensures Under(w, t, Key(w, q)) ==> Under(Shift(w, sub), ShiftTree(t, sub), Key(Shift(w, sub), q - sub))
    ensures Over(w, t, Key(w, q)) ==> Over(Shift(w, sub), ShiftTree(t, sub), Key(Shift(w, sub), q - sub))
  {
    hide Leq, Key;
    ShiftNodes(w, t, sub);
    ShiftKey(w, q, sub);
    forall y | y in Nodes(ShiftTree(t, sub))
      ensures y + sub in Nodes(t) && Key(Shift(w, sub), y) == Key(w, y + sub)
    {
      ShiftKey(w, y + sub, sub);
    }
  }

  lemma {:induction false} ShiftLive(w: Window, t: Tree, sub: nat)
    requires WindowOk(w) && sub + w.size <= w.pos && AllLive(w, t)
    ensures AllLive(Shift(w, sub), ShiftTree(t, sub))
  {
    hide Nodes, ShiftTree;
    ShiftNodes(w, t, sub);
    forall y | y in Nodes(ShiftTree(t, sub))
      ensures Live(Shift(w, sub), y)
    {
      assert Live(w, y + sub);
    }
  }

  lemma {:induction false} ShiftDistinct(w: Window, t: Tree, sub: nat)
    requires WindowOk(w) && sub + w.size <= w.pos && AllLive(w, t) && Distinct(t) && t.Node?
    requires Distinct(ShiftTree(t.left, sub)) && Distinct(ShiftTree(t.right, sub))
    ensures Distinct(ShiftTree(t, sub))
  {
    hide Live;
    assert t.q in Nodes(t);
    ShiftNodes(w, t, sub);
    ShiftNodes(w, t.left, sub);
    ShiftNodes(w, t.right, sub);
    forall y | y in Nodes(ShiftTree(t.left, sub))
      ensures y != t.q - sub && y !in Nodes(ShiftTree(t.right, sub))
    {
      assert y + sub in Nodes(t.left);
    }
    forall y | y in Nodes(ShiftTree(t.right, sub))
      ensures y != t.q - sub
    {
      assert y + sub in Nodes(t.right);
    }
  }

  lemma {:induction false} ShiftSound(w: Window, t: Tree, sub: nat)
    requires WindowOk(w) && sub + w.size <= w.pos && Sound(w, t) && t.Node?
    requires Sound(Shift(w, sub), ShiftTree(t.left, sub)) && Sound(Shift(w, sub), ShiftTree(t.right, sub))
    ensures Sound(Shift(w, sub), ShiftTree(t, sub))
  {
    hide Leq, Key, Under, Over, Slot, Distinct, AllLive, Nodes;
    SoundChildren(w, t);
    RootShift(w, t, sub);
    ShiftLive(w, t, sub);
    ShiftDistinct(w, t, sub);
    ShiftUnder(w, t.left, t.q, sub);
    ShiftUnder(w, t.right, t.q, sub);
  }

  lemma {:induction false} RootShift(w: Window, t: Tree, sub: nat)
    requires WindowOk(w) && sub + w.size <= w.pos && AllLive(w, t) && t.Node?
    ensures sub < t.q < w.pos && Lowered(t.q, sub) == t.q - sub
  {
    assert t.q in Nodes(t);
  }
}
