/**
 * Why merging the two lightest trees is right: in any code that fits, the two lightest leaves can be made brothers
 * without making the whole longer. Sums of weights may be rounded.
 */
module HuffmanOptimal {
  import opened Bits
  import opened Modular

  /** The total length of a text, when w says how often every leaf occurs and m how long its code word is. */
  function Cost(w: seq<real>, m: seq<nat>, n: nat): real
    requires n <= |w| && n <= |m|
  {
    if n == 0 then 0.0 else Cost(w, m, n - 1) + w[n - 1] * m[n - 1] as real
  }

  /** The share of 2^size that a code word of length c takes. */
  function Space(size: nat, c: nat): nat
  {
    if c <= size then Pow2(size - c) else 0
  }

  /** What the leaves that occur take together. */
  function Taken(w: seq<real>, m: seq<nat>, size: nat, n: nat): nat
    requires n <= |w| && n <= |m|
  {
    if n == 0 then 0 else Taken(w, m, size, n - 1) + if w[n - 1] > 0.0 then Space(size, m[n - 1]) else 0
  }

  /** There is a prefix code of these lengths: Kraft's inequality. */
  ghost predicate Feasible(w: seq<real>, m: seq<nat>, size: nat)
  {
    && |w| == |m| && (forall i :: 0 <= i < |w| && w[i] > 0.0 ==> m[i] <= size)
    && Taken(w, m, size, |w|) <= Pow2(size)
  }

  ghost predicate Weights(w: seq<real>)
  {
    forall i :: 0 <= i < |w| ==> w[i] >= 0.0
  }

  // ---------------------------------------------------------------- changing one leaf

  lemma {:induction false} CostLonger(w: seq<real>, m: seq<nat>, i: nat, x: nat, n: nat)
    requires n <= |w| == |m| && i < |w|
    ensures Cost(w, m[i := x], n) == Cost(w, m, n) + if i < n then w[i] * (x - m[i]) as real else 0.0
  {
    if n > 0 {
      CostLonger(w, m, i, x, n - 1);
      if i == n - 1 { Difference(w[i], x, m[i]); }
    }
  }

  lemma {:induction false} Difference(w: real, x: nat, y: nat)
    ensures w * x as real - w * y as real == w * (x - y) as real
  {
  }

  lemma {:induction false} CostHeavier(w: seq<real>, m: seq<nat>, i: nat, x: real, n: nat)
    requires n <= |w| == |m| && i < |w|
    ensures Cost(w[i := x], m, n) == Cost(w, m, n) + if i < n then (x - w[i]) * m[i] as real else 0.0
  {
    if n > 0 { CostHeavier(w, m, i, x, n - 1); }
  }

  lemma {:induction false} TakenLonger(w: seq<real>, m: seq<nat>, size: nat, i: nat, x: nat, n: nat)
    requires n <= |w| == |m| && i < |w| && w[i] > 0.0
    ensures Taken(w, m[i := x], size, n)
            == Taken(w, m, size, n) + if i < n then Space(size, x) - Space(size, m[i]) else 0
  {
    hide Space;
    if n > 0 { TakenLonger(w, m, size, i, x, n - 1); }
  }

  lemma {:induction false} TakenWithout(w: seq<real>, m: seq<nat>, size: nat, i: nat, n: nat)
    requires n <= |w| == |m| && i < |w| && w[i] > 0.0
    ensures Taken(w[i := 0.0], m, size, n) == Taken(w, m, size, n) - if i < n then Space(size, m[i]) else 0
  {
    hide Space;
    if n > 0 { TakenWithout(w, m, size, i, n - 1); }
  }

  lemma {:induction false} TakenSame(w: seq<real>, m: seq<nat>, size: nat, i: nat, x: real, n: nat)
    requires n <= |w| == |m| && i < |w| && w[i] > 0.0 && x > 0.0
    ensures Taken(w[i := x], m, size, n) == Taken(w, m, size, n)
  {
    hide Space;
    if n > 0 { TakenSame(w, m, size, i, x, n - 1); }
  }

  lemma {:induction false} CostPart(w: seq<real>, m: seq<nat>, i: nat, n: nat)
    requires i < n <= |w| == |m| && Weights(w)
    ensures 0.0 <= w[i] * m[i] as real <= Cost(w, m, n)
  {
    CostNonnegative(w, m, n - 1);
    ProductNonnegative(w[i], m[i] as real);
    ProductNonnegative(w[n - 1], m[n - 1] as real);
    if i < n - 1 { CostPart(w, m, i, n - 1); }
  }

  lemma {:induction false} ProductNonnegative(a: real, b: real)
    requires a >= 0.0 && b >= 0.0
    ensures a * b >= 0.0
  {
  }

  lemma {:induction false} CostNonnegative(w: seq<real>, m: seq<nat>, n: nat)
    requires n <= |w| == |m| && Weights(w)
    ensures Cost(w, m, n) >= 0.0
  {
    if n > 0 {
      CostNonnegative(w, m, n - 1);
      ProductNonnegative(w[n - 1], m[n - 1] as real);
    }
  }

  // ---------------------------------------------------------------- the exchange

  /** A leaf that is lighter than a deeper one may change places with it. */
  lemma {:induction false} Exchanged(w: seq<real>, m: seq<nat>, size: nat, a: nat, p: nat)
    requires Weights(w) && Feasible(w, m, size) && a < |w| && p < |w| && 0.0 < w[a] <= w[p] && m[a] <= m[p]
    ensures var m' := m[a := m[p]][p := m[a]];
            Feasible(w, m', size) && Cost(w, m', |w|) <= Cost(w, m, |w|)
  {
    hide Cost, Taken;
    if a == p {
      assert m[a := m[p]][p := m[a]] == m;
    } else {
      var n := |w|;
      var m1 := m[a := m[p]];
      TakenLonger(w, m, size, a, m[p], n);
      TakenLonger(w, m1, size, p, m[a], n);
      CostLonger(w, m, a, m[p], n);
      CostLonger(w, m1, p, m[a], n);
      ExchangePays(w[a], w[p], m[p] - m[a]);
    }
  }

  lemma {:induction false} ExchangePays(light: real, heavy: real, d: nat)
    requires light <= heavy
    ensures light * d as real + heavy * (0 - d) as real <= 0.0
  {
    var x := d as real;
    assert (0 - d) as real == 0.0 - x;
    ProductNonnegative(heavy - light, x);
    assert light * x + heavy * (0.0 - x) == 0.0 - (heavy - light) * x;
  }

  /** The deepest leaf but one that is left out. */
  lemma {:induction false} Deepest(w: seq<real>, m: seq<nat>, but: int, n: nat) returns (p: nat)
    requires n <= |w| == |m| && exists i :: 0 <= i < n && w[i] > 0.0 && i != but
    ensures p < n && w[p] > 0.0 && p != but
    ensures forall i :: 0 <= i < n && w[i] > 0.0 && i != but ==> m[i] <= m[p]
  {
    if w[n - 1] <= 0.0 || n - 1 == but {
      p := Deepest(w, m, but, n - 1);
    } else if exists i :: 0 <= i < n - 1 && w[i] > 0.0 && i != but {
      p := Deepest(w, m, but, n - 1);
      if m[p] < m[n - 1] { p := n - 1; }
    } else {
      p := n - 1;
    }
  }

  /** Code words of at most y bits take whole blocks. */
  lemma {:induction false} TakenBlocks(w: seq<real>, m: seq<nat>, size: nat, y: nat, n: nat) returns (q: nat)
    requires n <= |w| == |m| && y <= size && forall i :: 0 <= i < n && w[i] > 0.0 ==> m[i] <= y
    ensures Taken(w, m, size, n) == q * Pow2(size - y)
  {
    if n == 0 {
      q := 0;
    } else {
      q := TakenBlocks(w, m, size, y, n - 1);
      if w[n - 1] > 0.0 {
        Pow2Product(y - m[n - 1], size - y);
        Distribute(q, Pow2(y - m[n - 1]), Pow2(size - y));
        q := q + Pow2(y - m[n - 1]);
      }
    }
  }

  lemma {:induction false} Pow2Product(a: nat, b: nat)
    ensures Pow2(a + b) == Pow2(a) * Pow2(b)
  {
    if a > 0 {
      Pow2Product(a - 1, b);
      var x: nat, y: nat := Pow2(a - 1), Pow2(b);
      assert 2 * x * y == 2 * (x * y);
    }
  }

  lemma {:induction false} Distribute(a: nat, b: nat, c: nat)
    ensures a * c + b * c == (a + b) * c
  {
  }

  lemma {:induction false} OneMoreBlock(q: nat, blocks: nat, size: nat, x: nat)
    requires x > 0 && q * size + x <= blocks * size
    ensures q * size + size <= blocks * size
  {
    if q >= blocks && size > 0 {
      ScaleLe(size, blocks, q);
    } else if size > 0 {
      ScaleLe(size, q + 1, blocks);
    }
  }

  /** If all others are at most y deep, so may be the last. */
  lemma {:induction false} Levelled(w: seq<real>, m: seq<nat>, size: nat, a: nat, y: nat)
    requires Weights(w) && Feasible(w, m, size) && a < |w| && w[a] > 0.0 && y <= m[a]
    requires forall i :: 0 <= i < |w| && w[i] > 0.0 && i != a ==> m[i] <= y
    ensures Feasible(w, m[a := y], size) && Cost(w, m[a := y], |w|) <= Cost(w, m, |w|)
  {
    hide Cost, Taken;
    var n := |w|;
    TakenWithout(w, m, size, a, n);
    var q := TakenBlocks(w[a := 0.0], m, size, y, n);
    Pow2Product(y, size - y);
    OneMoreBlock(q, Pow2(y), Pow2(size - y), Space(size, m[a]));
    TakenLonger(w, m, size, a, y, n);
    CostLonger(w, m, a, y, n);
    ExchangePays(0.0, w[a], m[a] - y);
  }

  /** Any code that fits can be changed so that the two lightest leaves are equally deep and none is deeper. */
  lemma {:induction false} Brothers(w: seq<real>, m: seq<nat>, size: nat, a: nat, b: nat) returns (m': seq<nat>)
    requires Weights(w) && Feasible(w, m, size) && Lightest(w, a, b)
    ensures Feasible(w, m', size) && Cost(w, m', |w|) <= Cost(w, m, |w|) && m'[a] == m'[b]
  {
    hide Cost, Taken;
    assert w[a] > 0.0 && w[b] > 0.0;
    var p := Deepest(w, m, -1, |w|);
    Exchanged(w, m, size, a, p);
    var m1 := m[a := m[p]][p := m[a]];
    assert forall i :: 0 <= i < |w| && w[i] > 0.0 ==> m1[i] <= m1[a];
    var q := Deepest(w, m1, a, |w|);
    Exchanged(w, m1, size, b, q);
    var m2 := m1[b := m1[q]][q := m1[b]];
    assert forall i :: 0 <= i < |w| && w[i] > 0.0 && i != a ==> m2[i] <= m2[b];
    assert m2[b] <= m2[a];
    Levelled(w, m2, size, a, m2[b]);
    m' := m2[a := m2[b]];
  }

  /** The leaves a and b occur, and no other occurs less often. */
  ghost predicate Lightest(w: seq<real>, a: nat, b: nat)
  {
    && a < |w| && b < |w| && a != b && w[a] > 0.0 && w[b] > 0.0
    && (forall i :: 0 <= i < |w| && w[i] > 0.0 ==> w[a] <= w[i] && (i != a ==> w[b] <= w[i]))
  }

  /** The two leaves as one, of weight x. */
  function Merged(w: seq<real>, a: nat, b: nat, x: real): (r: seq<real>)
    requires a < |w| && b < |w|
    ensures |r| == |w|
  {
    w[a := x][b := 0.0]
  }

  /** Brothers may be replaced by their parent, one bit higher up. */
  lemma {:induction false} ParentFits(w: seq<real>, m: seq<nat>, size: nat, a: nat, b: nat, x: real)
    requires Feasible(w, m, size) && a < |w| && b < |w| && a != b && w[a] > 0.0 && w[b] > 0.0 && m[a] == m[b] && x > 0.0
    ensures m[a] > 0 && Feasible(Merged(w, a, b, x), m[a := m[a] - 1], size)
  {
    hide Taken;
    var n := |w|;
    TakenWithout(w, m, size, b, n);
    TakenWithout(w[b := 0.0], m, size, a, n);
    var y := m[a];
    assert Space(size, y) == Pow2(size - y);
    assert y > 0;
    assert Space(size, y - 1) == 2 * Pow2(size - y);
    TakenSame(w[b := 0.0], m, size, a, x, n);
    assert w[b := 0.0][a := x] == Merged(w, a, b, x);
    TakenLonger(Merged(w, a, b, x), m, size, a, y - 1, n);
  }

  lemma {:induction false} ParentCosts(w: seq<real>, m: seq<nat>, a: nat, b: nat)
    requires |w| == |m| && a < |w| && b < |w| && a != b && m[a] == m[b] > 0
    ensures Cost(Merged(w, a, b, w[a] + w[b]), m[a := m[a] - 1], |w|) + (w[a] + w[b]) == Cost(w, m, |w|)
  {
    hide Cost;
    var n, s := |w|, w[a] + w[b];
    var w1 := w[a := s];
    CostHeavier(w, m, a, s, n);
    CostHeavier(w1, m, b, 0.0, n);
    CostLonger(Merged(w, a, b, s), m, a, m[a] - 1, n);
    ParentSum(w[a], w[b], m[a]);
  }

  lemma {:induction false} ParentSum(x: real, y: real, d: nat)
    requires d > 0
    ensures ((x + y) - x) * d as real + (0.0 - y) * d as real + (x + y) * ((d - 1) - d) as real == 0.0 - (x + y)
  {
    assert ((d - 1) - d) as real == -1.0;
    assert ((x + y) - x) * d as real == y * d as real;
  }

  /** A rounded sum makes the rest dearer by no more than the rounding. */
  lemma {:induction false} RoundedCosts(w: seq<real>, m: seq<nat>, a: nat, x: real, up: real)
    requires |w| == |m| && a < |w| && Weights(w) && up >= 1.0 && x <= up * w[a]
    ensures Cost(w[a := x], m, |w|) <= up * Cost(w, m, |w|)
  {
    hide Cost;
    var d, c := m[a] as real, Cost(w, m, |w|);
    CostHeavier(w, m, a, x, |w|);
    CostPart(w, m, a, |w|);
    ProductNonnegative(up * w[a] - x, d);
    ProductNonnegative(up - 1.0, c - w[a] * d);
    assert (up * w[a] - x) * d == up * (w[a] * d) - x * d;
    assert (up - 1.0) * (c - w[a] * d) == up * c - c - up * (w[a] * d) + w[a] * d;
    assert (x - w[a]) * d == x * d - w[a] * d;
  }

  /**
   * Every code for the leaves has a code for what they are after merging the two lightest, which is shorter by what
   * the merge adds, but for the rounding.
   */
  lemma {:induction false} MergeIsRight(w: seq<real>, m: seq<nat>, size: nat, a: nat, b: nat, x: real, up: real)
    returns (m': seq<nat>)
    requires Weights(w) && Feasible(w, m, size) && Lightest(w, a, b) && up >= 1.0 && 0.0 < x <= up * (w[a] + w[b])
    ensures Feasible(Merged(w, a, b, x), m', size)
    ensures Cost(Merged(w, a, b, x), m', |w|) + (w[a] + w[b]) <= up * Cost(w, m, |w|)
  {
    hide Cost, Taken, Feasible, Lightest;
    var n := |w|;
    InRange(w, m, size, a, b);
    var s := w[a] + w[b];
    var m1 := Brothers(w, m, size, a, b);
    InRange(w, m1, size, a, b);
    ParentFits(w, m1, size, a, b, x);
    ParentCosts(w, m1, a, b);
    m' := m1[a := m1[a] - 1];
    var parent := Merged(w, a, b, s);
    RoundedCosts(parent, m', a, x, up);
    assert parent[a := x] == Merged(w, a, b, x);
    Scaled(up, Cost(parent, m', n), s, Cost(w, m, n));
  }

  lemma {:induction false} InRange(w: seq<real>, m: seq<nat>, size: nat, a: nat, b: nat)
    requires Lightest(w, a, b) && Feasible(w, m, size)
    ensures a < |w| == |m| && b < |w| && a != b && w[a] > 0.0 && w[b] > 0.0
  {
  }

  lemma {:induction false} Scaled(up: real, rest: real, s: real, total: real)
    requires up >= 1.0 && s >= 0.0 && rest + s <= total
    ensures up * rest + s <= up * total
  {
    ProductNonnegative(up - 1.0, s);
    ProductNonnegative(up, total - rest - s);
    assert (up - 1.0) * s == up * s - s;
    assert up * (total - rest - s) == up * total - up * rest - up * s;
  }
}
