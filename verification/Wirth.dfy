/** Hoare's FIND as wirth.h has it: the k-th smallest element by repeated partitioning in place. */
module Wirth {

  /** The elements below v. */
  function Below(s: seq<int>, v: int): nat
  {
    if s == [] then 0 else Below(s[1..], v) + if s[0] < v then 1 else 0
  }

  /** The elements not above v. */
  function UpTo(s: seq<int>, v: int): nat
  {
    if s == [] then 0 else UpTo(s[1..], v) + if s[0] <= v then 1 else 0
  }

  /** v is what position k of the sorted sequence holds. */
  predicate OrderStatistic(s: seq<int>, k: nat, v: int)
  {
    v in s && Below(s, v) <= k < UpTo(s, v)
  }

  lemma {:induction false} CountsConcat(a: seq<int>, b: seq<int>, v: int)
    ensures Below(a + b, v) == Below(a, v) + Below(b, v) && UpTo(a + b, v) == UpTo(a, v) + UpTo(b, v)
  {
    if a == [] {
      assert a + b == b;
    } else {
      assert (a + b)[1..] == a[1..] + b;
      CountsConcat(a[1..], b, v);
    }
  }

  lemma {:induction false} CountsWithout(t: seq<int>, i: nat, v: int)
    requires i < |t|
    ensures var rest := t[..i] + t[i + 1..];
            && Below(t, v) == Below(rest, v) + (if t[i] < v then 1 else 0)
            && UpTo(t, v) == UpTo(rest, v) + if t[i] <= v then 1 else 0
  {
    assert t == t[..i] + ([t[i]] + t[i + 1..]);
    CountsConcat(t[..i], t[i + 1..], v);
    CountsConcat(t[..i], [t[i]] + t[i + 1..], v);
  }

  /** Rearranging a sequence does not change how many of its elements are below or up to v. */
  lemma {:induction false} CountsPermuted(s: seq<int>, t: seq<int>, v: int)
    requires multiset(s) == multiset(t)
    ensures Below(s, v) == Below(t, v) && UpTo(s, v) == UpTo(t, v)
    decreases |s|
  {
    if s == [] {
      assert |multiset(t)| == 0;
    } else {
      assert s == [s[0]] + s[1..];
      assert s[0] in multiset(t);
      var i :| 0 <= i < |t| && t[i] == s[0];
      var rest := t[..i] + t[i + 1..];
      Without(s, 0);
      Without(t, i);
      assert s[..0] + s[1..] == s[1..];
      CountsPermuted(s[1..], rest, v);
      CountsWithout(t, i, v);
    }
  }

  lemma {:induction false} Without(t: seq<int>, i: nat)
    requires i < |t|
    ensures multiset(t[..i] + t[i + 1..]) == multiset(t) - multiset{t[i]}
  {
    assert t == t[..i] + [t[i]] + t[i + 1..];
  }

  lemma {:induction false} FewBelow(s: seq<int>, v: int)
    ensures Below(s, v) <= |s| && UpTo(s, v) <= |s|
    ensures (forall i :: 0 <= i < |s| ==> v <= s[i]) ==> Below(s, v) == 0
    ensures (forall i :: 0 <= i < |s| ==> s[i] <= v) ==> UpTo(s, v) == |s|
  {
    if s != [] { FewBelow(s[1..], v); }
  }

  /** A sequence divided at k has its k-th smallest element there. */
  lemma {:induction false} DividedAt(s: seq<int>, k: nat)
    requires k < |s| && forall i :: 0 <= i < |s| ==> (i <= k ==> s[i] <= s[k]) && (k <= i ==> s[k] <= s[i])
    ensures OrderStatistic(s, k, s[k])
  {
    assert s == s[..k] + s[k..] == s[..k + 1] + s[k + 1..];
    CountsConcat(s[..k], s[k..], s[k]);
    CountsConcat(s[..k + 1], s[k + 1..], s[k]);
    FewBelow(s[..k], s[k]);
    FewBelow(s[k..], s[k]);
    FewBelow(s[..k + 1], s[k]);
  }

  /** The k-th smallest element is unique. */
  lemma {:induction false} OneStatistic(s: seq<int>, k: nat, v: int, u: int)
    requires OrderStatistic(s, k, v) && OrderStatistic(s, k, u)
    ensures v == u
  {
    Apart(s, v, u);
    Apart(s, u, v);
  }

  lemma {:induction false} Apart(s: seq<int>, v: int, u: int)
    ensures v < u ==> UpTo(s, v) <= Below(s, u)
  {
    if s != [] { Apart(s[1..], v, u); }
  }

  /** Nothing in a[p] for p in the first range is above anything in the second. */
  ghost predicate Divided(s: seq<int>, at: int)
  {
    forall p, q :: 0 <= p < at <= q < |s| ==> s[p] <= s[q]
  }

  /** s and t agree outside l..m, and hold the same elements. */
  ghost predicate Shuffled(s: seq<int>, t: seq<int>, l: int, m: int)
  {
    && |s| == |t| && multiset(s) == multiset(t)
    && forall p :: 0 <= p < |s| && (p < l || m < p) ==> s[p] == t[p]
  }

  /** One partitioning: up to i nothing is above the pivot, beyond j nothing below it. */
  ghost predicate Scanned(s: seq<int>, l: int, m: int, i: int, j: int, x: int)
  {
    && (forall p :: l <= p < i && 0 <= p < |s| ==> s[p] <= x)
    && (forall p :: j < p <= m && 0 <= p < |s| ==> x <= s[p])
  }

  method Swap(a: array<int>, i: nat, j: nat)
    requires i < a.Length && j < a.Length
    modifies a
    ensures a[..] == old(a[..])[i := old(a[j])][j := old(a[i])]
    ensures multiset(a[..]) == multiset(old(a[..]))
  {
    a[i], a[j] := a[j], a[i];
  }

  /** while (a[i] < x) i++, with something not below x ahead. */
  method ScanUp(a: array<int>, from: int, ghost stop: int, x: int) returns (i: int)
    requires 0 <= from <= stop < a.Length && x <= a[stop]
    ensures from <= i <= stop && x <= a[i] && forall p :: from <= p < i ==> a[p] < x
  {
    i := from;
    while a[i] < x
      invariant from <= i <= stop && forall p :: from <= p < i ==> a[p] < x
      decreases stop - i
    {
      i := i + 1;
    }
  }

  /** while (x < a[j]) j--, with something not above x ahead. */
  method ScanDown(a: array<int>, from: int, ghost stop: int, x: int) returns (j: int)
    requires 0 <= stop <= from < a.Length && a[stop] <= x
    ensures stop <= j <= from && a[j] <= x && forall p :: j < p <= from ==> x < a[p]
  {
    j := from;
    while x < a[j]
      invariant stop <= j <= from && forall p :: j < p <= from ==> x < a[p]
      decreases j
    {
      j := j - 1;
    }
  }

  /** Where a turn of the do-while loop may start: at the ends of l..m with the pivot inside, or further in. */
  ghost predicate InTurn(s: seq<int>, n: int, l: int, m: int, k: int, i: int, j: int, x: int)
  {
    && 0 <= l <= k <= m < n <= |s| && l <= i <= m + 1 && l - 1 <= j <= m && Scanned(s, l, m, i, j, x)
    && (if i == l || j == m then i == l && j == m && s[k] == x else true)
  }

  /** Two scans and a swap. The scans stop inside l..m, first at the pivot, later at elements already moved. */
  method Turn(a: array<int>, n: int, l: int, m: int, k: int, i0: int, j0: int, x: int) returns (i: int, j: int)
    requires InTurn(a[..], n, l, m, k, i0, j0, x) && i0 <= j0 && l < m
    modifies a
    ensures InTurn(a[..], n, l, m, k, i, j, x) && i0 <= i && j <= j0 && l < i && j < m && j - i < j0 - i0
    ensures Shuffled(old(a[..]), a[..], l, m)
    ensures Divided(old(a[..n]), l) ==> Divided(a[..n], l)
    ensures Divided(old(a[..n]), m + 1) ==> Divided(a[..n], m + 1)
  {
    hide Divided, Scanned, Shuffled;
    ghost var upTo, downTo := if i0 == l then k else j0 + 1, if i0 == l then k else i0 - 1;
    ScannedEnds(a[..], l, m, i0, j0, x);
    StartScan(a[..], l, m, x);
    i := ScanUp(a, i0, upTo, x);
    j := ScanDown(a, j0, downTo, x);
    ScannedMore(a[..], l, m, i0, j0, i, j, x);
    if i <= j {
      SwapKeeps(a[..], i, j, l, m, n, x);
      ghost var t := a[..];
      Swap(a, i, j);
      ShuffledSwap(t, t, a[..], l, m, i, j);
      i := i + 1;
      j := j - 1;
    }
  }

  /** The do-while loop. */
  method Partition(a: array<int>, n: int, l: int, m: int, k: int) returns (i: int, j: int)
    requires 0 <= l <= k <= m < n <= a.Length && l < m
    modifies a
    ensures l < i <= m + 1 && l - 1 <= j < m && j < i
    ensures Shuffled(old(a[..]), a[..], l, m) && Scanned(a[..], l, m, i, j, old(a[k]))
    ensures Divided(old(a[..n]), l) ==> Divided(a[..n], l)
    ensures Divided(old(a[..n]), m + 1) ==> Divided(a[..n], m + 1)
  {
    hide Divided, Scanned, Shuffled;
    StartScan(a[..], l, m, a[k]);
    var x := a[k];
    ghost var s := a[..];
    i, j := Turn(a, n, l, m, k, l, m, x);
    while i <= j
      invariant InTurn(a[..], n, l, m, k, i, j, x) && Shuffled(s, a[..], l, m) && l < i && j < m
      invariant Divided(s[..n], l) ==> Divided(a[..n], l)
      invariant Divided(s[..n], m + 1) ==> Divided(a[..n], m + 1)
      decreases j - i
    {
      ghost var t := a[..];
      i, j := Turn(a, n, l, m, k, i, j, x);
      ShuffledTwice(s, t, a[..], l, m);
    }
  }

  lemma {:induction false} ShuffledTwice(r: seq<int>, s: seq<int>, t: seq<int>, l: int, m: int)
    requires Shuffled(r, s, l, m) && Shuffled(s, t, l, m)
    ensures Shuffled(r, t, l, m)
  {
  }

  lemma {:induction false} StartScan(s: seq<int>, l: int, m: int, x: int)
    ensures Scanned(s, l, m, l, m, x) && Shuffled(s, s, l, m)
  {
  }

  /** What has been moved stops the scans. */
  lemma {:induction false} ScannedEnds(s: seq<int>, l: int, m: int, i: int, j: int, x: int)
    requires 0 <= l <= m < |s| && Scanned(s, l, m, i, j, x)
    ensures l < i <= m + 1 ==> s[i - 1] <= x
    ensures l - 1 <= j < m ==> x <= s[j + 1]
  {
  }

  lemma {:induction false} ScannedMore(s: seq<int>, l: int, m: int, i0: int, j0: int, i: int, j: int, x: int)
    requires Scanned(s, l, m, i0, j0, x) && 0 <= l <= i0 <= i <= m < |s| && l <= j <= j0 <= m
    requires (forall p :: i0 <= p < i ==> s[p] < x) && (forall p :: j < p <= j0 ==> x < s[p])
    ensures Scanned(s, l, m, i, j, x)
  {
  }

  lemma {:induction false} ShuffledSwap(r: seq<int>, s: seq<int>, t: seq<int>, l: int, m: int, i: int, j: int)
    requires Shuffled(r, s, l, m) && 0 <= l <= i <= m < |s| && l <= j <= m
    requires t == s[i := s[j]][j := s[i]] && multiset(t) == multiset(s)
    ensures Shuffled(r, t, l, m)
  {
  }

  lemma {:induction false} SwapKeeps(s: seq<int>, i: int, j: int, l: int, m: int, n: int, x: int)
    requires 0 <= l <= i <= j <= m < n <= |s| && s[i] >= x >= s[j] && Scanned(s, l, m, i, j, x)
    ensures var t := s[i := s[j]][j := s[i]];
            && Scanned(t, l, m, i + 1, j - 1, x)
            && (Divided(s[..n], l) ==> Divided(t[..n], l))
            && (Divided(s[..n], m + 1) ==> Divided(t[..n], m + 1))
  {
  }

  /** What the outer loop has established: l..m contains the k-th element, or it is already in place. */
  ghost predicate Narrowed(s: seq<int>, l: int, m: int, k: int)
  {
    && 0 <= l <= |s| && -1 <= m < |s| && 0 <= k < |s| && Divided(s, l) && Divided(s, m + 1)
    && (l <= k <= m || (m < k < l && forall p :: m < p < l ==> s[p] == s[k]))
  }

  /** Narrowing the range to the side of k. */
  lemma {:induction false} Narrow(s: seq<int>, l: int, m: int, i: int, j: int, k: int, x: int)
    requires 0 <= l <= k <= m < |s| && l < i <= m + 1 && l - 1 <= j < m && j < i
    requires Divided(s, l) && Divided(s, m + 1) && Scanned(s, l, m, i, j, x)
    ensures Narrowed(s, if j < k then i else l, if k < i then j else m, k)
  {
  }

  lemma {:induction false} InPlace(s: seq<int>, l: int, m: int, k: int)
    requires Narrowed(s, l, m, k) && l >= m
    ensures forall p :: 0 <= p < |s| ==> (p <= k ==> s[p] <= s[k]) && (k <= p ==> s[k] <= s[p])
  {
  }

  /**
   * kth_smallest_int: invalid ranks give 0 and touch nothing. Otherwise the first n elements are rearranged so
   * that nothing before position k is above the element there and nothing behind it below, and that element,
   * the k-th smallest, is returned.
   */
  method KthSmallestInt(a: array<int>, n: int, k: int) returns (r: int)
    requires n <= a.Length && (n > 0 && k >= 0 ==> k < n)
    modifies a
    ensures n <= 0 || k < 0 ==> r == 0 && a[..] == old(a[..])
    ensures n > 0 && k >= 0 ==>
              && Shuffled(old(a[..]), a[..], 0, n - 1) && r == a[k] && OrderStatistic(old(a[..n]), k, r)
              && forall p :: 0 <= p < n ==> (p <= k ==> a[p] <= a[k]) && (k <= p ==> a[k] <= a[p])
  {
    if n <= 0 || k < 0 { return 0; }
    var l, m := 0, n - 1;
    while l < m
      invariant Narrowed(a[..n], l, m, k) && Shuffled(old(a[..]), a[..], 0, n - 1)
      decreases m - l
    {
      var x := a[k];
      var i, j := Partition(a, n, l, m, k);
      ScannedFront(a[..], n, l, m, i, j, x);
      Narrow(a[..n], l, m, i, j, k, x);
      if j < k { l := i; }
      if k < i { m := j; }
    }
    InPlace(a[..n], l, m, k);
    DividedAt(a[..n], k);
    FrontShuffled(old(a[..]), a[..], n);
    CountsPermuted(old(a[..n]), a[..n], a[k]);
    assert a[k] in multiset(a[..n]);
    return a[k];
  }

  lemma {:induction false} ScannedFront(s: seq<int>, n: int, l: int, m: int, i: int, j: int, x: int)
    requires 0 <= n <= |s| && Scanned(s, l, m, i, j, x)
    ensures Scanned(s[..n], l, m, i, j, x)
  {
  }

  lemma {:induction false} FrontShuffled(s: seq<int>, t: seq<int>, n: int)
    requires 0 <= n <= |s| && Shuffled(s, t, 0, n - 1)
    ensures multiset(s[..n]) == multiset(t[..n])
  {
    assert s == s[..n] + s[n..] && t == t[..n] + t[n..] && s[n..] == t[n..];
    assert multiset(s[..n]) == multiset(s) - multiset(s[n..]);
    assert multiset(t[..n]) == multiset(t) - multiset(t[n..]);
  }

  /** median_int_wirth: the lower median. */
  method MedianInt(a: array<int>) returns (r: int)
    requires a.Length >= 1
    modifies a
    ensures OrderStatistic(old(a[..]), (a.Length - 1) / 2, r) && multiset(a[..]) == multiset(old(a[..]))
  {
    var n := a.Length;
    r := KthSmallestInt(a, n, if n % 2 == 1 then n / 2 else n / 2 - 1);
    assert old(a[..n]) == old(a[..]);
  }
}
