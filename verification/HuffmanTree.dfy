/**
 * Code lengths by merging chains, as createEncodeTable does in its first half. Every tree of the forest
 * is a linked list of its leaves through others[]; its root's slot of freq[] carries its weight.
 */
module HuffmanTree {
  import opened Bits
  import opened HuffmanOptimal

  /** Seventeen residual categories and one spare leaf. */
  const LEAVES := 18

  const LONGEST := 16

  /** The share of the code space that a code word of length c takes, in units of 2^-16. */
  function Weight(c: nat): nat
  {
    Space(LONGEST, c)
  }

  /** The code space taken by all leaves that have a code word. */
  function Kraft(cs: seq<nat>, n: nat): nat
    requires n <= |cs|
  {
    if n == 0 then 0 else Kraft(cs, n - 1) + if cs[n - 1] > 0 then Weight(cs[n - 1]) else 0
  }

  /**
   * The operations on float that the weights go through. Nothing is assumed of how they round but that they stay
   * within a hundredth of the exact result; float is far closer.
   */
  datatype Floats = Floats(add: (real, real) -> real, div: (nat, nat) -> real)

  predicate Near(x: real, exact: real)
  {
    0.99 * exact <= x <= 1.01 * exact
  }

  ghost predicate Rounds(f: Floats)
  {
    && (forall a: real, b: real {:trigger f.add(a, b)} :: a >= 0.0 && b >= 0.0 ==> Near(f.add(a, b), a + b))
    && (forall a: nat, b: nat {:trigger f.div(a, b)} :: b > 0 ==> Near(f.div(a, b), a as real / b as real))
  }

  function Total(freq: seq<real>, n: nat): real
    requires n <= |freq|
  {
    if n == 0 then 0.0 else Total(freq, n - 1) + freq[n - 1]
  }

  function Positive(freq: seq<real>, n: nat): nat
    requires n <= |freq|
  {
    if n == 0 then 0 else Positive(freq, n - 1) + if freq[n - 1] > 0.0 then 1 else 0
  }

  // ---------------------------------------------------------------- the forest

  /** The leaves i < n of the tree with root h. */
  function Size(owner: seq<int>, h: int, n: nat): nat
    requires n <= |owner|
  {
    if n == 0 then 0 else Size(owner, h, n - 1) + if owner[n - 1] == h then 1 else 0
  }

  function Living(owner: seq<int>, n: nat): nat
    requires n <= |owner|
  {
    if n == 0 then 0 else Living(owner, n - 1) + if owner[n - 1] != -1 then 1 else 0
  }

  /** Their code space. */
  function Share(cs: seq<nat>, owner: seq<int>, h: int, n: nat): nat
    requires n <= |cs| == |owner|
  {
    if n == 0 then 0 else Share(cs, owner, h, n - 1) + if owner[n - 1] == h then Weight(cs[n - 1]) else 0
  }

  /** A place of the tables that belongs to some tree. */
  predicate Alive(owner: seq<int>, i: int)
  {
    0 <= i < |owner| && owner[i] != -1
  }

  /** owner names the root of each leaf's tree, -1 for an unused leaf; rank is the place in the tree's list. */
  ghost predicate Rooted(owner: seq<int>, rank: seq<nat>)
    requires |owner| == |rank|
  {
    && (forall i :: Alive(owner, i) ==> Alive(owner, owner[i]) && owner[owner[i]] == owner[i] && rank[owner[i]] == 0)
    && (forall i :: Alive(owner, i) ==> rank[i] < Size(owner, owner[i], |owner|))
  }

  ghost predicate Distinct(owner: seq<int>, rank: seq<nat>)
    requires |owner| == |rank|
  {
    forall i, j :: Alive(owner, i) && Alive(owner, j) && owner[i] == owner[j] && rank[i] == rank[j] ==> i == j
  }

  /** The list goes on with the next rank, and ends at the highest. */
  ghost predicate Chained(others: seq<int>, owner: seq<int>, rank: seq<nat>)
    requires |others| == |owner| == |rank|
  {
    && (forall i :: Alive(owner, i) && others[i] != -1 ==>
          Alive(owner, others[i]) && owner[others[i]] == owner[i] && rank[others[i]] == rank[i] + 1)
    && (forall i, j :: Alive(owner, i) && Alive(owner, j) && owner[i] == owner[j] && others[i] == -1 ==> rank[j] <= rank[i])
  }

  ghost predicate Linked(others: seq<int>, owner: seq<int>, rank: seq<nat>)
  {
    && |others| == |owner| == |rank| == LEAVES
    && Rooted(owner, rank) && Distinct(owner, rank) && Chained(others, owner, rank)
  }

  /** Every tree fills the whole code space, and none is deeper than a list of its leaves. */
  ghost predicate Balanced(cs: seq<nat>, owner: seq<int>)
  {
    && |cs| == |owner| == LEAVES && Living(owner, LEAVES) <= LONGEST + 1
    && (forall h :: 0 <= h < LEAVES && owner[h] == h ==> Share(cs, owner, h, LEAVES) == Pow2(LONGEST))
    && (forall i :: 0 <= i < LEAVES && owner[i] != -1 ==> cs[i] + 1 <= Size(owner, owner[i], LEAVES))
    && (forall i :: 0 <= i < LEAVES && owner[i] != -1 && cs[i] == 0 ==> Size(owner, owner[i], LEAVES) == 1)
    && (forall i :: 0 <= i < LEAVES && owner[i] == -1 ==> cs[i] == 0)
  }

  /** The weights stay below 3 however often they are still merged, even if every merge adds a rounding error. */
  ghost predicate Weighted(freq: seq<real>, owner: seq<int>)
  {
    && |freq| == |owner| == LEAVES && Total(freq, LEAVES) + 0.03 * Positive(freq, LEAVES) as real < 3.0
    && (forall i :: 0 <= i < LEAVES ==> freq[i] >= 0.0 && (freq[i] > 0.0 <==> owner[i] == i))
  }

  /** Joining the tree of b below the tree of a. */
  function Joined(owner: seq<int>, a: int, b: int): (r: seq<int>)
    ensures |r| == |owner|
  {
    seq(|owner|, i requires 0 <= i < |owner| => if owner[i] == b then a else owner[i])
  }

  /** The lists are appended. */
  function Appended(rank: seq<nat>, owner: seq<int>, b: int, shift: nat): (r: seq<nat>)
    requires |rank| == |owner|
    ensures |r| == |rank|
  {
    seq<nat>(|rank|, i requires 0 <= i < |rank| => if owner[i] == b then rank[i] + shift else rank[i])
  }

  lemma {:induction false} SizeJoined(owner: seq<int>, a: int, b: int, n: nat)
    requires n <= |owner| && a != b
    ensures Size(Joined(owner, a, b), a, n) == Size(owner, a, n) + Size(owner, b, n)
    ensures forall h :: h != a && h != b ==> Size(Joined(owner, a, b), h, n) == Size(owner, h, n)
  {
    if n > 0 { SizeJoined(owner, a, b, n - 1); }
  }

  lemma {:induction false} LivingJoined(owner: seq<int>, a: int, b: int, n: nat)
    requires n <= |owner| && a != -1 && b != -1 && a != b
    ensures Living(Joined(owner, a, b), n) == Living(owner, n)
    ensures Size(owner, a, n) + Size(owner, b, n) <= Living(owner, n)
  {
    if n > 0 { LivingJoined(owner, a, b, n - 1); }
  }

  /** One bit longer, every leaf takes half the space. */
  ghost predicate OneLonger(cs: seq<nat>, cs': seq<nat>, owner: seq<int>, a: int, b: int)
  {
    && |cs| == |cs'| == |owner|
    && forall i :: 0 <= i < |cs| ==> cs'[i] == cs[i] + if owner[i] == a || owner[i] == b then 1 else 0
  }

  lemma {:induction false} ShareJoined(cs: seq<nat>, cs': seq<nat>, owner: seq<int>, a: int, b: int, n: nat)
    requires OneLonger(cs, cs', owner, a, b) && n <= |cs| && a != b
    requires forall i :: 0 <= i < |cs| && (owner[i] == a || owner[i] == b) ==> cs[i] < LONGEST
    ensures 2 * Share(cs', Joined(owner, a, b), a, n) == Share(cs, owner, a, n) + Share(cs, owner, b, n)
    ensures forall h :: h != a && h != b ==> Share(cs', Joined(owner, a, b), h, n) == Share(cs, owner, h, n)
  {
    if n > 0 {
      ShareJoined(cs, cs', owner, a, b, n - 1);
      var i := n - 1;
      if owner[i] == a || owner[i] == b {
        assert Pow2(LONGEST - cs[i]) == 2 * Pow2(LONGEST - cs[i] - 1);
      }
    }
  }

  lemma {:induction false} BalancedJoin(cs: seq<nat>, cs': seq<nat>, owner: seq<int>, a: nat, b: nat)
    requires Balanced(cs, owner) && a < LEAVES && b < LEAVES && a != b && owner[a] == a && owner[b] == b
    requires OneLonger(cs, cs', owner, a, b)
    ensures Balanced(cs', Joined(owner, a, b))
  {
    hide Share, Size, Living;
    SizeJoined(owner, a, b, LEAVES);
    LivingJoined(owner, a, b, LEAVES);
    forall i | 0 <= i < LEAVES && (owner[i] == a || owner[i] == b)
      ensures cs[i] < LONGEST
    {
      assert cs[a] + 1 <= Size(owner, a, LEAVES) && cs[b] + 1 <= Size(owner, b, LEAVES);
    }
    ShareJoined(cs, cs', owner, a, b, LEAVES);
  }

  lemma {:induction false} RootedJoin(owner: seq<int>, rank: seq<nat>, a: nat, b: nat, tail: nat)
    requires |owner| == |rank| && Rooted(owner, rank)
    requires a < |owner| && b < |owner| && tail < |owner| && a != b && owner[a] == a && owner[b] == b
             && owner[tail] == a
    ensures Rooted(Joined(owner, a, b), Appended(rank, owner, b, rank[tail] + 1))
  {
    hide Size;
    SizeJoined(owner, a, b, |owner|);
    assert Alive(owner, tail) && Alive(owner, a) && Alive(owner, b);
  }

  lemma {:induction false} DistinctJoin(others: seq<int>, owner: seq<int>, rank: seq<nat>, a: nat, b: nat, tail: nat)
    requires |others| == |owner| == |rank| && Distinct(owner, rank) && Chained(others, owner, rank)
    requires a < |owner| && b < |owner| && tail < |owner| && a != b && owner[tail] == a && others[tail] == -1
    ensures Distinct(Joined(owner, a, b), Appended(rank, owner, b, rank[tail] + 1))
  {
    var owner', rank' := Joined(owner, a, b), Appended(rank, owner, b, rank[tail] + 1);
    forall i, j | Alive(owner', i) && Alive(owner', j) && owner'[i] == owner'[j] && rank'[i] == rank'[j]
      ensures i == j
    {
      assert Alive(owner, i) && Alive(owner, j) && Alive(owner, tail);
    }
  }

  lemma {:induction false} ChainedJoin(others: seq<int>, owner: seq<int>, rank: seq<nat>, a: nat, b: nat, tail: nat)
    requires |others| == |owner| == |rank| && Chained(others, owner, rank)
    requires a < |owner| && b < |owner| && tail < |owner| && a != b && owner[b] == b && rank[b] == 0
    requires owner[tail] == a && others[tail] == -1 && Distinct(owner, rank)
    ensures Chained(others[tail := b], Joined(owner, a, b), Appended(rank, owner, b, rank[tail] + 1))
  {
    var others', owner', rank' := others[tail := b], Joined(owner, a, b), Appended(rank, owner, b, rank[tail] + 1);
    assert Alive(owner, tail) && Alive(owner, b);
    forall i | Alive(owner', i) && others'[i] != -1
      ensures Alive(owner', others'[i]) && owner'[others'[i]] == owner'[i] && rank'[others'[i]] == rank'[i] + 1
    {
      assert Alive(owner, i);
    }
    forall i, j | Alive(owner', i) && Alive(owner', j) && owner'[i] == owner'[j] && others'[i] == -1
      ensures rank'[j] <= rank'[i]
    {
      assert Alive(owner, i) && Alive(owner, j);
    }
  }

  lemma {:induction false} LinkedJoin(others: seq<int>, owner: seq<int>, rank: seq<nat>, a: nat, b: nat, tail: nat)
    requires Linked(others, owner, rank) && a < LEAVES && b < LEAVES && tail < LEAVES && a != b
    requires owner[a] == a && owner[b] == b && owner[tail] == a && others[tail] == -1
    ensures Linked(others[tail := b], Joined(owner, a, b), Appended(rank, owner, b, rank[tail] + 1))
  {
    hide Size, Distinct, Chained, Joined, Appended;
    RootZero(owner, rank, b);
    RootedJoin(owner, rank, a, b, tail);
    DistinctJoin(others, owner, rank, a, b, tail);
    ChainedJoin(others, owner, rank, a, b, tail);
    assert |Joined(owner, a, b)| == LEAVES && |Appended(rank, owner, b, rank[tail] + 1)| == LEAVES by {
      JoinedLength(owner, rank, a, b, rank[tail] + 1);
    }
  }

  lemma {:induction false} JoinedLength(owner: seq<int>, rank: seq<nat>, a: int, b: int, shift: nat)
    requires |owner| == |rank|
    ensures |Joined(owner, a, b)| == |owner| && |Appended(rank, owner, b, shift)| == |rank|
  {
  }

  lemma {:induction false} RootZero(owner: seq<int>, rank: seq<nat>, b: nat)
    requires |owner| == |rank| && Rooted(owner, rank) && b < |owner| && owner[b] == b
    ensures rank[b] == 0
  {
    assert Alive(owner, b);
  }

  lemma {:induction false} TotalMerged(freq: seq<real>, a: nat, b: nat, x: real, n: nat)
    requires n <= |freq| && a < |freq| && b < |freq| && a != b
    ensures Total(freq[a := x][b := 0.0], n)
            == Total(freq, n) + (if a < n then x - freq[a] else 0.0) - (if b < n then freq[b] else 0.0)
  {
    if n > 0 { TotalMerged(freq, a, b, x, n - 1); }
  }

  lemma {:induction false} PositiveDrops(freq: seq<real>, a: nat, b: nat, x: real, n: nat)
    requires n <= |freq| && a < |freq| && b < |freq| && a != b && freq[a] > 0.0 && freq[b] > 0.0 && x > 0.0
    ensures Positive(freq[a := x][b := 0.0], n) == Positive(freq, n) - if b < n then 1 else 0
  {
    if n > 0 { PositiveDrops(freq, a, b, x, n - 1); }
  }

  /** Two different places weigh no more than all together. */
  lemma {:induction false} PairOfTotal(freq: seq<real>, a: nat, b: nat, n: nat)
    requires n <= |freq| && a < n && b < n && a != b && forall j :: 0 <= j < |freq| ==> freq[j] >= 0.0
    ensures freq[a] + freq[b] <= Total(freq, n)
  {
    if a == n - 1 {
      PartOfTotal(freq, b, n - 1);
    } else if b == n - 1 {
      PartOfTotal(freq, a, n - 1);
    } else {
      PairOfTotal(freq, a, b, n - 1);
    }
  }

  lemma {:induction false} PartOfTotal(freq: seq<real>, i: nat, n: nat)
    requires i < n <= |freq| && forall j :: 0 <= j < |freq| ==> freq[j] >= 0.0
    ensures 0.0 <= freq[i] <= Total(freq, n)
  {
    if i < n - 1 { PartOfTotal(freq, i, n - 1); } else { TotalNonnegative(freq, n - 1); }
  }

  lemma {:induction false} TotalNonnegative(freq: seq<real>, n: nat)
    requires n <= |freq| && forall j :: 0 <= j < |freq| ==> freq[j] >= 0.0
    ensures Total(freq, n) >= 0.0
  {
    if n > 0 { TotalNonnegative(freq, n - 1); }
  }

  // ---------------------------------------------------------------- the start

  function Singles(freq: seq<real>): (r: seq<int>)
    ensures |r| == |freq|
  {
    seq(|freq|, i requires 0 <= i < |freq| => if freq[i] > 0.0 then i else -1)
  }

  lemma {:induction false} SinglesCounts(freq: seq<real>, cs: seq<nat>, h: nat, n: nat)
    requires n <= |freq| == |cs| && h < |freq| && freq[h] > 0.0 && cs[h] == 0
    ensures Size(Singles(freq), h, n) == if h < n then 1 else 0
    ensures Share(cs, Singles(freq), h, n) == if h < n then Pow2(LONGEST) else 0
  {
    hide Pow2;
    if n > 0 { SinglesCounts(freq, cs, h, n - 1); }
  }

  lemma {:induction false} SinglesLiving(freq: seq<real>, n: nat)
    requires n <= |freq|
    ensures Living(Singles(freq), n) == Positive(freq, n)
  {
    if n > 0 { SinglesLiving(freq, n - 1); }
  }

  lemma {:induction false} StartingForest(freq: seq<real>, cs: seq<nat>, others: seq<int>, rank: seq<nat>)
    requires |freq| == |cs| == |others| == |rank| == LEAVES && Positive(freq, LEAVES) <= LONGEST + 1
    requires forall i :: 0 <= i < LEAVES ==> cs[i] == 0 && others[i] == -1 && rank[i] == 0
    ensures Balanced(cs, Singles(freq)) && Linked(others, Singles(freq), rank)
  {
    hide Size, Share, Living;
    SinglesLiving(freq, LEAVES);
    forall h | 0 <= h < LEAVES && freq[h] > 0.0
      ensures Size(Singles(freq), h, LEAVES) == 1 && Share(cs, Singles(freq), h, LEAVES) == Pow2(LONGEST)
    {
      SinglesCounts(freq, cs, h, LEAVES);
    }
  }

  // ---------------------------------------------------------------- the end

  /** With one tree left its share is the whole code. */
  lemma {:induction false} OneTree(cs: seq<nat>, owner: seq<int>, h: nat, n: nat)
    requires n <= |cs| == |owner|
    requires forall i :: 0 <= i < |cs| ==> if cs[i] > 0 then owner[i] == h else owner[i] != h
    ensures Kraft(cs, n) == Share(cs, owner, h, n)
  {
    if n > 0 { OneTree(cs, owner, h, n - 1); }
  }

  /** Two different leaves of one tree. */
  lemma {:induction false} TwoLeaves(owner: seq<int>, h: int, i: nat, j: nat, n: nat)
    requires n <= |owner| && i < |owner| && j < |owner| && i != j && owner[i] == owner[j] == h
    ensures Size(owner, h, n) >= (if i < n then 1 else 0) + if j < n then 1 else 0
  {
    if n > 0 { TwoLeaves(owner, h, i, j, n - 1); }
  }

  // ---------------------------------------------------------------- the algorithm

  /** Lengthens every code word of the tree with root v, and returns the end of its list. */
  method Deepen(codesize: array<nat>, others: array<int>, v: nat, ghost owner: seq<int>, ghost rank: seq<nat>)
    returns (last: nat)
    requires codesize.Length == LEAVES && others.Length == LEAVES && v < LEAVES
    requires |owner| == |rank| == LEAVES && owner[v] == v && rank[v] == 0
    requires Distinct(owner, rank) && ListOf(others[..], owner, rank, v)
    modifies codesize
    ensures last < LEAVES && owner[last] == v && others[last] == -1
    ensures forall i :: 0 <= i < LEAVES ==> codesize[i] == old(codesize[i]) + if owner[i] == v then 1 else 0
  {
    last := v;
    codesize[last] := codesize[last] + 1;
    while others[last] != -1
      invariant last < LEAVES && owner[last] == v && Alive(owner, last)
      invariant forall i :: 0 <= i < LEAVES ==>
                  codesize[i] == old(codesize[i]) + if owner[i] == v && rank[i] <= rank[last] then 1 else 0
      decreases LEAVES - rank[last]
    {
      last := others[last];
      codesize[last] := codesize[last] + 1;
    }
  }

  /** What Deepen needs to know of the list of one tree. */
  ghost predicate ListOf(others: seq<int>, owner: seq<int>, rank: seq<nat>, v: nat)
    requires |others| == |owner| == |rank|
  {
    && (forall i :: Alive(owner, i) && owner[i] == v ==> rank[i] <= |owner|)
    && (forall i :: Alive(owner, i) && owner[i] == v && others[i] != -1 ==>
          Alive(owner, others[i]) && owner[others[i]] == v && rank[others[i]] == rank[i] + 1)
    && (forall i, j :: Alive(owner, i) && Alive(owner, j) && owner[i] == owner[j] == v && others[i] == -1 ==>
          rank[j] <= rank[i])
  }

  lemma {:induction false} ListOfTree(others: seq<int>, owner: seq<int>, rank: seq<nat>, v: nat)
    requires Linked(others, owner, rank)
    ensures ListOf(others, owner, rank, v)
  {
    hide Size;
    RankBound(owner, rank);
  }

  /** Extending the list of one tree leaves the others as they are. */
  lemma {:induction false} OtherList(others: seq<int>, owner: seq<int>, rank: seq<nat>, v: nat, i: nat, x: int)
    requires |others| == |owner| == |rank| && ListOf(others, owner, rank, v) && i < |owner| && owner[i] != v
    ensures ListOf(others[i := x], owner, rank, v)
  {
  }

  /** The last of the smallest positive weights not above 3. */
  method Least(freq: array<real>) returns (v1: int)
    requires freq.Length == LEAVES
    ensures v1 == -1 ==> forall j :: 0 <= j < LEAVES && freq[j] > 0.0 ==> freq[j] > 3.0
    ensures v1 != -1 ==> 0 <= v1 < LEAVES && freq[v1] > 0.0
                         && forall j :: 0 <= j < LEAVES && freq[j] > 0.0 ==>
                              freq[v1] <= freq[j] && (freq[v1] == freq[j] ==> j <= v1)
  {
    var v1f := 3.0;
    v1 := -1;
    for i := 0 to LEAVES
      invariant v1 == -1 ==> v1f == 3.0 && forall j :: 0 <= j < i && freq[j] > 0.0 ==> freq[j] > 3.0
      invariant v1 != -1 ==> 0 <= v1 < i && v1f == freq[v1] <= 3.0 && freq[v1] > 0.0
                             && forall j :: 0 <= j < i && freq[j] > 0.0 ==>
                                  freq[v1] <= freq[j] && (freq[v1] == freq[j] ==> j <= v1)
    {
      if freq[i] <= v1f && freq[i] > 0.0 {
        v1f := freq[i];
        v1 := i;
      }
    }
  }

  /** The first of the smallest positive weights below 3 other than v1's. */
  method NextLeast(freq: array<real>, v1: int) returns (v2: int)
    requires freq.Length == LEAVES
    ensures v2 == -1 ==> forall j :: 0 <= j < LEAVES && j != v1 && freq[j] > 0.0 ==> freq[j] >= 3.0
    ensures v2 != -1 ==> 0 <= v2 < LEAVES && v2 != v1 && freq[v2] > 0.0
                         && forall j :: 0 <= j < LEAVES && j != v1 && freq[j] > 0.0 ==>
                              freq[v2] <= freq[j] && (freq[v2] == freq[j] ==> v2 <= j)
  {
    var v2f := 3.0;
    v2 := -1;
    for i := 0 to LEAVES
      invariant v2 == -1 ==> v2f == 3.0 && forall j :: 0 <= j < i && j != v1 && freq[j] > 0.0 ==> freq[j] >= 3.0
      invariant v2 != -1 ==> 0 <= v2 < i && v2 != v1 && v2f == freq[v2] < 3.0 && freq[v2] > 0.0
                             && forall j :: 0 <= j < i && j != v1 && freq[j] > 0.0 ==>
                                  freq[v2] <= freq[j] && (freq[v2] == freq[j] ==> v2 <= j)
    {
      if i != v1 && freq[i] < v2f && freq[i] > 0.0 {
        v2f := freq[i];
        v2 := i;
      }
    }
  }

  /** Merges the two lightest trees into one: the leaves of both move one level down. */
  method Merge(freq: array<real>, codesize: array<nat>, others: array<int>, v1: nat, v2: nat, f: Floats,
               ghost owner: seq<int>, ghost rank: seq<nat>)
    returns (ghost owner': seq<int>, ghost rank': seq<nat>)
    requires freq.Length == LEAVES && codesize.Length == LEAVES && others.Length == LEAVES
    requires v1 < LEAVES && v2 < LEAVES && v1 != v2 && freq[v1] > 0.0 && freq[v2] > 0.0 && Rounds(f)
    requires Linked(others[..], owner, rank) && Balanced(codesize[..], owner) && Weighted(freq[..], owner)
    modifies freq, codesize, others
    ensures Linked(others[..], owner', rank') && Balanced(codesize[..], owner') && Weighted(freq[..], owner')
    ensures Positive(freq[..], LEAVES) == old(Positive(freq[..], LEAVES)) - 1
    ensures forall i :: 0 <= i < LEAVES ==> (owner'[i] == -1 <==> owner[i] == -1)
    ensures owner' == Joined(owner, v1, v2) && OneLonger(old(codesize[..]), codesize[..], owner, v1, v2)
    ensures freq[..] == Merged(old(freq[..]), v1, v2, f.add(old(freq[v1]), old(freq[v2])))
  {
    hide Share, Size, Living, Total, Positive, Balanced, Linked, Distinct, ListOf, Rooted, Chained, Joined, Appended;
    ghost var f0, c0, o0 := freq[..], codesize[..], others[..];
    WeightedJoin(f0, owner, v1, v2, f);
    LinkedParts(o0, owner, rank, v1, v2);
    freq[v1] := f.add(freq[v1], freq[v2]);
    freq[v2] := 0.0;
    assert freq[..] == f0[v1 := f.add(f0[v1], f0[v2])][v2 := 0.0];
    var last := Deepen(codesize, others, v1, owner, rank);
    OtherList(o0, owner, rank, v2, last, v2);
    others[last] := v2;
    assert others[..] == o0[last := v2];
    var last2 := Deepen(codesize, others, v2, owner, rank);
    owner' := Joined(owner, v1, v2);
    rank' := Appended(rank, owner, v2, rank[last] + 1);
    LinkedJoin(o0, owner, rank, v1, v2, last);
    BalancedJoin(c0, codesize[..], owner, v1, v2);
    SameLiving(owner, v1, v2);
  }

  lemma {:induction false} LinkedParts(others: seq<int>, owner: seq<int>, rank: seq<nat>, v1: nat, v2: nat)
    requires Linked(others, owner, rank) && v1 < LEAVES && v2 < LEAVES && owner[v1] == v1 && owner[v2] == v2
    ensures |owner| == |rank| == |others| == LEAVES && Distinct(owner, rank) && rank[v1] == 0 && rank[v2] == 0
    ensures ListOf(others, owner, rank, v1) && ListOf(others, owner, rank, v2)
  {
    hide Size;
    ListOfTree(others, owner, rank, v1);
    ListOfTree(others, owner, rank, v2);
    RootZero(owner, rank, v1);
    RootZero(owner, rank, v2);
  }

  lemma {:induction false} SameLiving(owner: seq<int>, a: nat, b: nat)
    ensures |Joined(owner, a, b)| == |owner|
    ensures forall i :: 0 <= i < |owner| ==> (Joined(owner, a, b)[i] == -1 <==> owner[i] == -1)
  {
  }

  lemma {:induction false} WeightedJoin(freq: seq<real>, owner: seq<int>, a: nat, b: nat, f: Floats)
    requires Weighted(freq, owner) && a < LEAVES && b < LEAVES && a != b && freq[a] > 0.0 && freq[b] > 0.0 && Rounds(f)
    ensures var merged := freq[a := f.add(freq[a], freq[b])][b := 0.0];
            Weighted(merged, Joined(owner, a, b)) && Positive(merged, LEAVES) == Positive(freq, LEAVES) - 1
    ensures owner[a] == a && owner[b] == b
  {
    hide Total, Positive;
    var x := f.add(freq[a], freq[b]);
    assert Near(x, freq[a] + freq[b]);
    TotalMerged(freq, a, b, x, LEAVES);
    PairOfTotal(freq, a, b, LEAVES);
    PositiveDrops(freq, a, b, x, LEAVES);
  }

  lemma {:induction false} RankBound(owner: seq<int>, rank: seq<nat>)
    requires |owner| == |rank| && Rooted(owner, rank)
    ensures forall i :: Alive(owner, i) ==> rank[i] <= |owner|
  {
    hide Size;
    forall i | Alive(owner, i)
      ensures rank[i] <= |owner|
    {
      SizeBound(owner, owner[i], |owner|);
    }
  }

  lemma {:induction false} SizeBound(owner: seq<int>, h: int, n: nat)
    requires n <= |owner|
    ensures Size(owner, h, n) <= n
  {
    if n > 0 { SizeBound(owner, h, n - 1); }
  }

  /**
   * The code lengths of createEncodeTable: for any positive weights of at most 16 categories and the spare leaf, and
   * however the sums of weights are rounded, exactly the used leaves get a code word, none longer than 16 bits, the
   * code is complete, and none makes the whole shorter but for the rounding.
   */
  method CodeLengths(freq: array<real>, f: Floats) returns (codesize: array<nat>)
    requires freq.Length == LEAVES && Total(freq[..], LEAVES) <= 2.02 && Rounds(f)
    requires forall i :: 0 <= i < LEAVES ==> freq[i] >= 0.0
    requires 2 <= Positive(freq[..], LEAVES) <= LONGEST + 1
    modifies freq
    ensures fresh(codesize) && codesize.Length == LEAVES
    ensures forall i :: 0 <= i < LEAVES ==> codesize[i] <= LONGEST && (codesize[i] > 0 <==> old(freq[i]) > 0.0)
    ensures Kraft(codesize[..], LEAVES) == Pow2(LONGEST)
    ensures Cheapest(f, old(freq[..]), codesize[..])
  {
    hide Share, Size, Living, Total, Positive, Balanced, Linked, Kraft, Settled, Lightest, Cheapest, Merged;
    hide OneLonger, Joined, Rounds, Weighted;
    codesize := new nat[LEAVES](_ => 0);
    var others := new int[LEAVES](_ => -1);
    ghost var owner := Singles(freq[..]);
    ghost var rank: seq<nat> := seq<nat>(LEAVES, _ => 0);
    StartingForest(freq[..], codesize[..], others[..], rank);
    StartWeighted(freq[..]);
    ghost var f0, k, acc := freq[..], 0, 0.0;
    StartSettled(f, f0, codesize[..]);
    while true
      invariant f0 == old(freq[..])
      invariant Linked(others[..], owner, rank) && Balanced(codesize[..], owner) && Weighted(freq[..], owner)
      invariant |owner| == LEAVES && forall i :: 0 <= i < LEAVES ==> (owner[i] == -1 <==> f0[i] <= 0.0)
      invariant 1 <= Positive(freq[..], LEAVES) == Positive(f0, LEAVES) - k
      invariant Settled(f, f0, codesize[..], owner, freq[..], acc, k)
      decreases Positive(freq[..], LEAVES)
    {
      var v1 := Least(freq);
      var v2 := NextLeast(freq, v1);
      BelowThree(freq[..], owner);
      WeightsKnown(freq[..], owner);
      if v2 == -1 {
        OnlyTree(freq[..], codesize[..], others[..], owner, rank, v1, f0);
        OnlyPositive(freq[..], v1, LEAVES);
        EndSettled(f, f0, codesize[..], owner, freq[..], acc, k);
        break;
      }
      ghost var w, cs := freq[..], codesize[..];
      LightestFound(w, v1, v2);
      StepSettled(f, f0, cs, owner, w, acc, k, v1, v2);
      owner, rank := Merge(freq, codesize, others, v1, v2, f, owner, rank);
      assert Settled(f, f0, codesize[..], owner, freq[..], acc + (w[v1] + w[v2]), k + 1);
      acc, k := acc + (w[v1] + w[v2]), k + 1;
    }
  }

  // ---------------------------------------------------------------- the least total

  function Power(x: real, k: nat): real
  {
    if k == 0 then 1.0 else x * Power(x, k - 1)
  }

  /** Sums come out between low and up times the exact one. */
  ghost predicate Within(f: Floats, low: real, up: real)
  {
    && 0.0 < low <= 1.0 <= up
    && forall a: real, b: real {:trigger f.add(a, b)} ::
         a >= 0.0 && b >= 0.0 ==> low * (a + b) <= f.add(a, b) <= up * (a + b)
  }

  function Merges(f0: seq<real>): nat
    requires |f0| == LEAVES
  {
    if Positive(f0, LEAVES) > 0 then Positive(f0, LEAVES) - 1 else 0
  }

  /**
   * No code for the used leaves, of whatever lengths, makes the whole shorter than these lengths do, but for the
   * rounding of each merge.
   */
  ghost predicate Cheapest(f: Floats, f0: seq<real>, cs: seq<nat>)
  {
    && |f0| == |cs| == LEAVES
    && forall low, up, m, size {:trigger Within(f, low, up), Feasible(f0, m, size)} ::
         Within(f, low, up) && Feasible(f0, m, size) ==>
           Power(low, Merges(f0)) * Cost(f0, cs, LEAVES) <= Power(up, Merges(f0)) * Cost(f0, m, LEAVES)
  }

  /** The weight of the leaves of one tree. */
  function TreeWeight(f0: seq<real>, owner: seq<int>, h: int, n: nat): real
    requires n <= |f0| && n <= |owner|
  {
    if n == 0 then 0.0 else TreeWeight(f0, owner, h, n - 1) + if owner[n - 1] == h then f0[n - 1] else 0.0
  }

  /** What the merges have added to the whole, k of them, is no less than the leaves have come to cost. */
  ghost predicate Paid(f0: seq<real>, cs: seq<nat>, owner: seq<int>, freq: seq<real>, acc: real, share: real)
  {
    && |f0| == |cs| == |owner| == |freq| == LEAVES && share > 0.0
    && share * Cost(f0, cs, LEAVES) <= acc
    && forall h :: 0 <= h < LEAVES && freq[h] > 0.0 ==> share * TreeWeight(f0, owner, h, LEAVES) <= freq[h]
  }

  /** Every code for the leaves costs at least that and a code for the trees. */
  ghost predicate Owed(f0: seq<real>, freq: seq<real>, acc: real, share: real)
  {
    && |f0| == |freq| == LEAVES
    && forall m, size :: |m| == LEAVES && Feasible(f0, m, size) ==> Covered(freq, acc, f0, m, size, share)
  }

  /** Some code for the trees, with what has been added, costs no more than the given share of a code for the leaves. */
  ghost predicate Covered(freq: seq<real>, acc: real, f0: seq<real>, m: seq<nat>, size: nat, share: real)
    requires |f0| == |m|
  {
    exists t :: |t| == |freq| && Feasible(freq, t, size) && Cost(freq, t, |freq|) + acc <= share * Cost(f0, m, |f0|)
  }

  ghost predicate Settled(f: Floats, f0: seq<real>, cs: seq<nat>, owner: seq<int>, freq: seq<real>, acc: real, k: nat)
  {
    && acc >= 0.0
    && forall low, up {:trigger Within(f, low, up)} :: Within(f, low, up) ==>
         Paid(f0, cs, owner, freq, acc, Power(low, k)) && Owed(f0, freq, acc, Power(up, k))
  }

  lemma {:induction false} StartSettled(f: Floats, f0: seq<real>, cs: seq<nat>)
    requires |f0| == |cs| == LEAVES && forall i :: 0 <= i < LEAVES ==> cs[i] == 0 && f0[i] >= 0.0
    ensures Settled(f, f0, cs, Singles(f0), f0, 0.0, 0)
  {
    hide Cost, TreeWeight, Feasible;
    CostNothing(f0, cs, LEAVES);
    forall h | 0 <= h < LEAVES && f0[h] > 0.0
      ensures TreeWeight(f0, Singles(f0), h, LEAVES) == f0[h]
    {
      SingleWeight(f0, h, LEAVES);
    }
    assert Paid(f0, cs, Singles(f0), f0, 0.0, 1.0);
    assert Owed(f0, f0, 0.0, 1.0);
  }

  lemma {:induction false} CostNothing(f0: seq<real>, cs: seq<nat>, n: nat)
    requires n <= |f0| == |cs| && forall i :: 0 <= i < |cs| ==> cs[i] == 0
    ensures Cost(f0, cs, n) == 0.0
  {
    if n > 0 { CostNothing(f0, cs, n - 1); }
  }

  lemma {:induction false} SingleWeight(f0: seq<real>, h: nat, n: nat)
    requires n <= |f0| && h < |f0| && f0[h] > 0.0
    ensures TreeWeight(f0, Singles(f0), h, n) == if h < n then f0[h] else 0.0
  {
    if n > 0 { SingleWeight(f0, h, n - 1); }
  }

  lemma {:induction false} WeightJoined(f0: seq<real>, owner: seq<int>, a: int, b: int, n: nat)
    requires n <= |f0| == |owner| && a != b
    ensures TreeWeight(f0, Joined(owner, a, b), a, n) == TreeWeight(f0, owner, a, n) + TreeWeight(f0, owner, b, n)
    ensures forall h :: h != a && h != b ==> TreeWeight(f0, Joined(owner, a, b), h, n) == TreeWeight(f0, owner, h, n)
  {
    if n > 0 { WeightJoined(f0, owner, a, b, n - 1); }
  }

  lemma {:induction false} CostDeeper(f0: seq<real>, cs: seq<nat>, cs': seq<nat>, owner: seq<int>, a: int, b: int, n: nat)
    requires n <= |f0| == |cs| && OneLonger(cs, cs', owner, a, b) && a != b
    ensures Cost(f0, cs', n) == Cost(f0, cs, n) + TreeWeight(f0, owner, a, n) + TreeWeight(f0, owner, b, n)
  {
    if n > 0 {
      CostDeeper(f0, cs, cs', owner, a, b, n - 1);
      assert cs'[n - 1] as real == cs[n - 1] as real + if owner[n - 1] == a || owner[n - 1] == b then 1.0 else 0.0;
    }
  }

  lemma {:induction false} WeightNonnegative(f0: seq<real>, owner: seq<int>, h: int, n: nat)
    requires n <= |f0| == |owner| && Weights(f0)
    ensures TreeWeight(f0, owner, h, n) >= 0.0
  {
    if n > 0 { WeightNonnegative(f0, owner, h, n - 1); }
  }

  /** A smaller share of something nonnegative. */
  lemma {:induction false} LessShare(low: real, share: real, less: real, x: real, bound: real)
    requires 0.0 < low <= 1.0 && share > 0.0 && less == low * share && x >= 0.0 && share * x <= bound
    ensures less > 0.0 && less * x <= low * bound && less * x <= bound
  {
    ProductNonnegative(low, bound - share * x);
    ProductNonnegative(share, x);
    ProductNonnegative(1.0 - low, share * x);
    assert low * (bound - share * x) == low * bound - less * x;
    assert (1.0 - low) * (share * x) == share * x - less * x;
  }

  lemma {:induction false} ShareOfSum(share: real, x: real, y: real)
    ensures share * (x + y) == share * x + share * y
  {
  }

  lemma {:induction false} StepPaid(f0: seq<real>, cs: seq<nat>, cs': seq<nat>, owner: seq<int>, freq: seq<real>,
                                    acc: real, share: real, a: nat, b: nat, x: real, low: real,
                                    less: real)
    requires Paid(f0, cs, owner, freq, acc, share) && OneLonger(cs, cs', owner, a, b) && Weights(f0)
    requires a < LEAVES && b < LEAVES && a != b && freq[a] > 0.0 && freq[b] > 0.0
    requires 0.0 < low <= 1.0 && low * (freq[a] + freq[b]) <= x && less == low * share
    ensures Paid(f0, cs', Joined(owner, a, b), Merged(freq, a, b, x), acc + (freq[a] + freq[b]), less)
  {
    hide Cost, TreeWeight, Joined, OneLonger, Weights;
    JoinedLength(owner, cs, a, b, 0);
    LongerLength(cs, cs', owner, a, b);
    PaidTotal(f0, cs, cs', owner, freq, acc, share, a, b, less, low);
    forall h | 0 <= h < LEAVES && Merged(freq, a, b, x)[h] > 0.0
      ensures less * TreeWeight(f0, Joined(owner, a, b), h, LEAVES) <= Merged(freq, a, b, x)[h]
    {
      WeightJoined(f0, owner, a, b, LEAVES);
      if h != a {
        WeightNonnegative(f0, owner, h, LEAVES);
        LessShare(low, share, less, TreeWeight(f0, owner, h, LEAVES), freq[h]);
      } else {
        PaidTree(f0, owner, freq, share, a, b, less, low);
      }
    }
  }

  lemma {:induction false} LongerLength(cs: seq<nat>, cs': seq<nat>, owner: seq<int>, a: int, b: int)
    requires OneLonger(cs, cs', owner, a, b)
    ensures |cs'| == |cs|
  {
  }

  lemma {:induction false} PaidTree(f0: seq<real>, owner: seq<int>, freq: seq<real>, share: real, a: nat, b: nat,
                                    less: real, low: real)
    requires |f0| == |owner| == |freq| == LEAVES && a < LEAVES && b < LEAVES && a != b && Weights(f0)
    requires 0.0 < low <= 1.0 && share > 0.0 && less == low * share
    requires share * TreeWeight(f0, owner, a, LEAVES) <= freq[a] && share * TreeWeight(f0, owner, b, LEAVES) <= freq[b]
    ensures less > 0.0 && less * TreeWeight(f0, Joined(owner, a, b), a, LEAVES) <= low * (freq[a] + freq[b])
  {
    hide TreeWeight, Joined, Weights;
    var ta, tb := TreeWeight(f0, owner, a, LEAVES), TreeWeight(f0, owner, b, LEAVES);
    WeightJoined(f0, owner, a, b, LEAVES);
    WeightNonnegative(f0, owner, a, LEAVES);
    WeightNonnegative(f0, owner, b, LEAVES);
    ShareOfSum(share, ta, tb);
    LessShare(low, share, less, ta + tb, freq[a] + freq[b]);
  }

  lemma {:induction false} PaidTotal(f0: seq<real>, cs: seq<nat>, cs': seq<nat>, owner: seq<int>, freq: seq<real>,
                                     acc: real, share: real, a: nat, b: nat, less: real, low: real)
    requires Paid(f0, cs, owner, freq, acc, share) && OneLonger(cs, cs', owner, a, b) && Weights(f0)
    requires a < LEAVES && b < LEAVES && a != b && freq[a] > 0.0 && freq[b] > 0.0
    requires 0.0 < low <= 1.0 && less == low * share
    ensures |cs'| == LEAVES && less > 0.0 && less * Cost(f0, cs', LEAVES) <= acc + (freq[a] + freq[b])
  {
    hide Cost, TreeWeight, Weights;
    var ta, tb, c := TreeWeight(f0, owner, a, LEAVES), TreeWeight(f0, owner, b, LEAVES), Cost(f0, cs, LEAVES);
    CostDeeper(f0, cs, cs', owner, a, b, LEAVES);
    WeightNonnegative(f0, owner, a, LEAVES);
    WeightNonnegative(f0, owner, b, LEAVES);
    CostNonnegative(f0, cs, LEAVES);
    ShareOfSum(share, c, ta);
    ShareOfSum(share, c + ta, tb);
    LessShare(low, share, less, c + ta + tb, acc + (freq[a] + freq[b]));
  }

  lemma {:induction false} StepOwed(f0: seq<real>, freq: seq<real>, acc: real, share: real, a: nat, b: nat, x: real,
                                    up: real, more: real)
    requires Owed(f0, freq, acc, share) && Weights(freq) && Lightest(freq, a, b) && acc >= 0.0
    requires up >= 1.0 && 0.0 < x <= up * (freq[a] + freq[b]) && more == up * share
    ensures Owed(f0, Merged(freq, a, b, x), acc + (freq[a] + freq[b]), more)
  {
    hide Cost, Feasible, Weights, Lightest, Merged, Covered;
    LightestPositive(freq, a, b);
    var merged := Merged(freq, a, b, x);
    forall m, size | |m| == LEAVES && Feasible(f0, m, size)
      ensures Covered(merged, acc + (freq[a] + freq[b]), f0, m, size, more)
    {
      assert Covered(freq, acc, f0, m, size, share);
      CoveredMerged(f0, freq, acc, share, a, b, x, up, more, m, size);
    }
  }

  lemma {:induction false} CoveredMerged(f0: seq<real>, freq: seq<real>, acc: real, share: real, a: nat, b: nat, x: real,
                                         up: real, more: real, m: seq<nat>, size: nat)
    requires |f0| == |m| && Weights(freq) && Lightest(freq, a, b) && acc >= 0.0
    requires up >= 1.0 && 0.0 < x <= up * (freq[a] + freq[b]) && more == up * share
    requires Covered(freq, acc, f0, m, size, share)
    ensures Covered(Merged(freq, a, b, x), acc + (freq[a] + freq[b]), f0, m, size, more)
  {
    hide Cost, Feasible, Weights, Lightest, Merged;
    LightestPositive(freq, a, b);
    var merged := Merged(freq, a, b, x);
    var t :| |t| == |freq| && Feasible(freq, t, size) && Cost(freq, t, |freq|) + acc <= share * Cost(f0, m, |f0|);
    var t' := MergeIsRight(freq, t, size, a, b, x, up);
    FeasibleLength(merged, t', size);
    Dearer(up, Cost(freq, t, |freq|), acc, share * Cost(f0, m, |f0|));
    assert more * Cost(f0, m, |f0|) == up * (share * Cost(f0, m, |f0|));
  }

  lemma {:induction false} Dearer(up: real, c: real, acc: real, most: real)
    requires up >= 1.0 && acc >= 0.0 && c + acc <= most
    ensures up * c + acc <= up * most
  {
    ProductNonnegative(up - 1.0, acc);
    ProductNonnegative(up, most - acc - c);
    assert (up - 1.0) * acc == up * acc - acc;
    assert up * (most - acc - c) == up * most - up * acc - up * c;
  }

  lemma {:induction false} StepSettled(f: Floats, f0: seq<real>, cs: seq<nat>, owner: seq<int>, freq: seq<real>,
                                       acc: real, k: nat, a: nat, b: nat)
    requires Settled(f, f0, cs, owner, freq, acc, k) && Weights(f0) && Weights(freq) && Rounds(f)
    requires |f0| == |cs| == |owner| == |freq| == LEAVES && Lightest(freq, a, b)
    ensures a < LEAVES && b < LEAVES
    ensures forall cs' {:trigger OneLonger(cs, cs', owner, a, b)} :: OneLonger(cs, cs', owner, a, b) ==>
              Settled(f, f0, cs', Joined(owner, a, b), Merged(freq, a, b, f.add(freq[a], freq[b])),
                      acc + (freq[a] + freq[b]), k + 1)
  {
    hide Paid, Owed, OneLonger, Joined, Merged, Power, Lightest, Weights, Rounds;
    LightestPositive(freq, a, b);
    var x := f.add(freq[a], freq[b]);
    forall cs' | OneLonger(cs, cs', owner, a, b)
      ensures Settled(f, f0, cs', Joined(owner, a, b), Merged(freq, a, b, x), acc + (freq[a] + freq[b]), k + 1)
    {
      forall low, up | Within(f, low, up)
        ensures Paid(f0, cs', Joined(owner, a, b), Merged(freq, a, b, x), acc + (freq[a] + freq[b]), Power(low, k + 1))
        ensures Owed(f0, Merged(freq, a, b, x), acc + (freq[a] + freq[b]), Power(up, k + 1))
      {
        StepShares(f, f0, cs, cs', owner, freq, acc, k, a, b, low, up);
      }
    }
  }

  lemma {:induction false} LightestPositive(freq: seq<real>, a: nat, b: nat)
    requires Lightest(freq, a, b)
    ensures a < |freq| && b < |freq| && a != b && freq[a] > 0.0 && freq[b] > 0.0
  {
  }

  lemma {:induction false} PowerNext(x: real, k: nat)
    ensures Power(x, k + 1) == x * Power(x, k)
  {
  }

  lemma {:induction false} SumBetween(f: Floats, x: real, y: real, low: real, up: real)
    requires Within(f, low, up) && Rounds(f) && x > 0.0 && y > 0.0
    ensures 0.0 < low <= 1.0 <= up && low * (x + y) <= f.add(x, y) <= up * (x + y) && f.add(x, y) > 0.0
  {
    assert Near(f.add(x, y), x + y);
  }

  lemma {:induction false} StepShares(f: Floats, f0: seq<real>, cs: seq<nat>, cs': seq<nat>, owner: seq<int>,
                                      freq: seq<real>, acc: real, k: nat, a: nat, b: nat, low: real, up: real)
    requires acc >= 0.0 && Within(f, low, up) && Weights(f0) && Weights(freq) && Rounds(f)
    requires Paid(f0, cs, owner, freq, acc, Power(low, k)) && Owed(f0, freq, acc, Power(up, k))
    requires |freq| == LEAVES && Lightest(freq, a, b) && OneLonger(cs, cs', owner, a, b)
    ensures a < LEAVES && b < LEAVES
    ensures var x := f.add(freq[a], freq[b]);
            && Paid(f0, cs', Joined(owner, a, b), Merged(freq, a, b, x), acc + (freq[a] + freq[b]), Power(low, k + 1))
            && Owed(f0, Merged(freq, a, b, x), acc + (freq[a] + freq[b]), Power(up, k + 1))
  {
    hide Paid, Owed, OneLonger, Joined, Merged, Lightest, Weights, Power, Within, Rounds;
    LightestPositive(freq, a, b);
    var x := f.add(freq[a], freq[b]);
    SumBetween(f, freq[a], freq[b], low, up);
    PowerNext(low, k);
    PowerNext(up, k);
    StepPaid(f0, cs, cs', owner, freq, acc, Power(low, k), a, b, x, low, Power(low, k + 1));
    StepOwed(f0, freq, acc, Power(up, k), a, b, x, up, Power(up, k + 1));
  }

  lemma {:induction false} EndSettled(f: Floats, f0: seq<real>, cs: seq<nat>, owner: seq<int>, freq: seq<real>, acc: real,
                                      k: nat)
    requires Settled(f, f0, cs, owner, freq, acc, k) && |f0| == |cs| == |freq| == LEAVES && Weights(freq)
    requires Positive(f0, LEAVES) == k + 1
    ensures Cheapest(f, f0, cs)
  {
    hide Cost, Feasible, Within, Paid, Owed, Power, Positive;
    forall low, up, m, size | Within(f, low, up) && Feasible(f0, m, size)
      ensures |m| == LEAVES
              && Power(low, Merges(f0)) * Cost(f0, cs, LEAVES) <= Power(up, Merges(f0)) * Cost(f0, m, LEAVES)
    {
      FeasibleLength(f0, m, size);
      EndShares(f0, cs, owner, freq, acc, Power(low, k), Power(up, k), m, size);
    }
  }

  lemma {:induction false} EndShares(f0: seq<real>, cs: seq<nat>, owner: seq<int>, freq: seq<real>, acc: real, low: real,
                                     up: real, m: seq<nat>, size: nat)
    requires Paid(f0, cs, owner, freq, acc, low) && Owed(f0, freq, acc, up) && Weights(freq)
    requires |m| == LEAVES && Feasible(f0, m, size)
    ensures low * Cost(f0, cs, LEAVES) <= up * Cost(f0, m, LEAVES)
  {
    hide Cost, Feasible, TreeWeight;
    assert Covered(freq, acc, f0, m, size, up);
    var t :| |t| == |freq| && Feasible(freq, t, size) && Cost(freq, t, |freq|) + acc <= up * Cost(f0, m, |f0|);
    CostNonnegative(freq, t, LEAVES);
  }

  lemma {:induction false} FeasibleLength(w: seq<real>, m: seq<nat>, size: nat)
    requires Feasible(w, m, size)
    ensures |m| == |w|
  {
  }

  lemma {:induction false} PositivePair(freq: seq<real>, a: nat, b: nat, n: nat)
    requires n <= |freq| && a < n && b < n && a != b && freq[a] > 0.0 && freq[b] > 0.0
    ensures Positive(freq, n) >= 2
  {
    if a == n - 1 {
      PositiveSome(freq, b, n - 1);
    } else if b == n - 1 {
      PositiveSome(freq, a, n - 1);
    } else {
      PositivePair(freq, a, b, n - 1);
    }
  }

  lemma {:induction false} PositiveSome(freq: seq<real>, a: nat, n: nat)
    requires n <= |freq| && a < n && freq[a] > 0.0
    ensures Positive(freq, n) >= 1
  {
    if a < n - 1 { PositiveSome(freq, a, n - 1); }
  }

  lemma {:induction false} OnlyPositive(freq: seq<real>, v: int, n: nat)
    requires n <= |freq| && forall i :: 0 <= i < |freq| && freq[i] > 0.0 ==> i == v
    ensures Positive(freq, n) <= if v < n then 1 else 0
  {
    if n > 0 { OnlyPositive(freq, v, n - 1); }
  }

  lemma {:induction false} LightestFound(freq: seq<real>, a: nat, b: nat)
    requires |freq| == LEAVES && a < LEAVES && b < LEAVES && a != b && freq[a] > 0.0 && freq[b] > 0.0
    requires forall j :: 0 <= j < LEAVES && freq[j] > 0.0 ==> freq[a] <= freq[j]
    requires forall j :: 0 <= j < LEAVES && j != a && freq[j] > 0.0 ==> freq[b] <= freq[j]
    ensures Lightest(freq, a, b) && Positive(freq, LEAVES) >= 2
  {
    PositivePair(freq, a, b, LEAVES);
  }

  lemma {:induction false} WeightsKnown(freq: seq<real>, owner: seq<int>)
    requires Weighted(freq, owner)
    ensures |freq| == |owner| == LEAVES && Weights(freq)
  {
  }

  /** If sums are exact, no prefix code for the used leaves makes the whole shorter, and these lengths are one. */
  lemma {:induction false} LeastTotal(f: Floats, f0: seq<real>, cs: seq<nat>, m: seq<nat>, size: nat)
    requires Cheapest(f, f0, cs) && Kraft(cs, LEAVES) == Pow2(LONGEST)
    requires forall i :: 0 <= i < LEAVES ==> cs[i] <= LONGEST && (cs[i] > 0 <==> f0[i] > 0.0)
    requires forall a: real, b: real {:trigger f.add(a, b)} :: a >= 0.0 && b >= 0.0 ==> f.add(a, b) == a + b
    ensures Feasible(f0, cs, LONGEST)
    ensures Feasible(f0, m, size) ==> Cost(f0, cs, LEAVES) <= Cost(f0, m, LEAVES)
  {
    hide Cost, Taken, Kraft;
    KraftIsTaken(f0, cs, LEAVES);
    if Feasible(f0, m, size) {
      assert Within(f, 1.0, 1.0);
      PowerOne(Merges(f0));
    }
  }

  lemma {:induction false} PowerOne(k: nat)
    ensures Power(1.0, k) == 1.0
  {
    if k > 0 { PowerOne(k - 1); }
  }

  lemma {:induction false} KraftIsTaken(f0: seq<real>, cs: seq<nat>, n: nat)
    requires n <= |f0| == |cs| && forall i :: 0 <= i < |cs| ==> (cs[i] > 0 <==> f0[i] > 0.0)
    ensures Taken(f0, cs, LONGEST, n) == Kraft(cs, n)
  {
    if n > 0 { KraftIsTaken(f0, cs, n - 1); }
  }

  lemma {:induction false} StartWeighted(freq: seq<real>)
    requires |freq| == LEAVES && Total(freq, LEAVES) <= 2.02 && Positive(freq, LEAVES) <= LONGEST + 1
    requires forall i :: 0 <= i < LEAVES ==> freq[i] >= 0.0
    ensures Weighted(freq, Singles(freq))
  {
    hide Total, Positive;
  }

  lemma {:induction false} BelowThree(freq: seq<real>, owner: seq<int>)
    requires Weighted(freq, owner)
    ensures forall i :: 0 <= i < LEAVES ==> freq[i] < 3.0
  {
    hide Total;
    forall i | 0 <= i < LEAVES
      ensures freq[i] < 3.0
    {
      PartOfTotal(freq, i, LEAVES);
    }
  }

  lemma {:induction false} TwoPositive(freq: seq<real>, n: nat) returns (i: nat, j: nat)
    requires n <= |freq| && Positive(freq, n) >= 2
    ensures i < j < n && freq[i] > 0.0 && freq[j] > 0.0
  {
    if Positive(freq, n - 1) >= 2 {
      i, j := TwoPositive(freq, n - 1);
    } else {
      j := n - 1;
      i := OnePositive(freq, n - 1);
    }
  }

  lemma {:induction false} OnePositive(freq: seq<real>, n: nat) returns (i: nat)
    requires n <= |freq| && Positive(freq, n) >= 1
    ensures i < n && freq[i] > 0.0
  {
    if freq[n - 1] > 0.0 { i := n - 1; } else { i := OnePositive(freq, n - 1); }
  }

  lemma {:induction false} OneRoot(freq: seq<real>, owner: seq<int>, rank: seq<nat>, v1: int)
    requires |owner| == |rank| && Rooted(owner, rank) && Weighted(freq, owner)
    requires forall i :: 0 <= i < LEAVES && freq[i] > 0.0 ==> i == v1
    ensures forall i :: Alive(owner, i) ==> owner[i] == v1 && Alive(owner, v1) && owner[v1] == v1
  {
    hide Total, Size;
    forall i | Alive(owner, i)
      ensures owner[i] == v1 && Alive(owner, v1) && owner[v1] == v1
    {
      assert freq[owner[i]] > 0.0;
    }
  }

  lemma {:induction false} OnlyTree(freq: seq<real>, cs: seq<nat>, others: seq<int>, owner: seq<int>, rank: seq<nat>,
                                    v1: int, f0: seq<real>)
    requires Linked(others, owner, rank) && Balanced(cs, owner) && Weighted(freq, owner)
    requires |f0| == LEAVES && Positive(f0, LEAVES) >= 2
    requires forall i :: 0 <= i < LEAVES ==> (owner[i] == -1 <==> f0[i] <= 0.0)
    requires forall i :: 0 <= i < LEAVES && freq[i] > 0.0 ==> i == v1
    ensures forall i :: 0 <= i < LEAVES ==> cs[i] <= LONGEST && (cs[i] > 0 <==> f0[i] > 0.0)
    ensures Kraft(cs, LEAVES) == Pow2(LONGEST)
  {
    hide Share, Size, Living, Total, Kraft, Rooted, Distinct, Chained, Weighted, Positive;
    OneRoot(freq, owner, rank, v1);
    var i, j := TwoPositive(f0, LEAVES);
    assert Alive(owner, i) && Alive(owner, j);
    TwoLeaves(owner, v1, i, j, LEAVES);
    LivingOne(owner, v1, LEAVES);
    forall k | 0 <= k < LEAVES
      ensures cs[k] <= LONGEST && (cs[k] > 0 <==> f0[k] > 0.0) && (cs[k] > 0 <==> owner[k] == v1)
    {
      if owner[k] != -1 { assert Alive(owner, k); }
    }
    OneTree(cs, owner, v1, LEAVES);
  }

  lemma {:induction false} LivingOne(owner: seq<int>, a: int, n: nat)
    requires n <= |owner| && a != -1
    ensures Size(owner, a, n) <= Living(owner, n)
  {
    if n > 0 { LivingOne(owner, a, n - 1); }
  }
}
