/**
 * The frame index of an MLV recording (index.c) and the search for the headers of a frame in it (main.c).
 */
module Index {

  // ---------------------------------------------------------------- recordings

  datatype Kind = MLVI | RTCI | IDNT | RAWI | EXPO | LENS | WBAL | VIDF | AUDF | NULL | OTHER

  /** A block of a chunk file, as far as the index looks at it; fileNum and guid are those of an MLVI block. */
  datatype Block = Block(kind: Kind, size: nat, timestamp: nat, fileNum: nat, guid: nat)

  datatype FrameType = Unspecified | Video | Audio

  datatype Xref = Xref(frameTime: nat, frameOffset: nat, fileNumber: nat, frameType: FrameType)

  const HEADER_SIZE := 16
  const MAX_BLOCK := 0x4000_0000

  predicate SizeOk(b: Block)
  {
    HEADER_SIZE <= b.size <= MAX_BLOCK
  }

  function TypeOf(k: Kind): FrameType
  {
    if k == VIDF then Video else if k == AUDF then Audio else Unspecified
  }

  /** The block that begins at an offset. */
  function BlockAt(chunk: seq<Block>, offset: nat): (r: seq<Block>)
    ensures |r| <= 1
  {
    if chunk == [] then []
    else if offset == 0 then [chunk[0]]
    else if chunk[0].size == 0 || offset < chunk[0].size then []
    else BlockAt(chunk[1..], offset - chunk[0].size)
  }

  function OffsetOf(chunk: seq<Block>, n: nat): nat
    requires n <= |chunk|
  {
    if n == 0 then 0 else OffsetOf(chunk, n - 1) + chunk[n - 1].size
  }

  lemma {:induction false} OffsetTail(chunk: seq<Block>, n: nat)
    requires 1 <= n <= |chunk|
    ensures OffsetOf(chunk, n) == chunk[0].size + OffsetOf(chunk[1..], n - 1)
  {
    if n > 1 { OffsetTail(chunk, n - 1); }
  }

  /** Reading at the offset of a block finds that block. */
  lemma {:induction false} BlockFound(chunk: seq<Block>, n: nat)
    requires n < |chunk| && forall i :: 0 <= i < n ==> chunk[i].size > 0
    ensures BlockAt(chunk, OffsetOf(chunk, n)) == [chunk[n]]
    decreases n
  {
    if n > 0 {
      OffsetTail(chunk, n);
      BlockFound(chunk[1..], n - 1);
    }
  }

  // ---------------------------------------------------------------- building the table

  /** The blocks of a chunk that are indexed: up to the first bad size or a file header of another recording. */
  function Indexed(chunk: seq<Block>, guid: nat, n: nat): nat
    requires n <= |chunk|
    decreases |chunk| - n
  {
    if n == |chunk| || !SizeOk(chunk[n]) then n
    else if chunk[n].kind == MLVI && chunk[n].fileNum != 0 && chunk[n].guid != guid then n
    else Indexed(chunk, if chunk[n].kind == MLVI && chunk[n].fileNum == 0 then chunk[n].guid else guid, n + 1)
  }

  /** The entry of a block; the file header counts as time zero. */
  function EntryOf(b: Block, offset: nat, file: nat): Xref
  {
    Xref(if b.kind == MLVI then 0 else b.timestamp, offset, file, TypeOf(b.kind))
  }

  /** The entries of the first n blocks of a chunk; NULL blocks have none. */
  function Entries(chunk: seq<Block>, file: nat, n: nat): seq<Xref>
    requires n <= |chunk|
  {
    if n == 0 then []
    else Entries(chunk, file, n - 1)
         + if chunk[n - 1].kind == NULL then [] else [EntryOf(chunk[n - 1], OffsetOf(chunk, n - 1), file)]
  }

  /** The recording's guid after the first n blocks. */
  function GuidAfter(chunk: seq<Block>, guid: nat, n: nat): nat
    requires n <= |chunk|
  {
    if n == 0 then guid
    else if chunk[n - 1].kind == MLVI && chunk[n - 1].fileNum == 0 then chunk[n - 1].guid
    else GuidAfter(chunk, guid, n - 1)
  }

  function AllEntries(chunks: seq<seq<Block>>, n: nat): (r: (seq<Xref>, nat))
    requires n <= |chunks|
  {
    if n == 0 then ([], 0)
    else
      var (xs, guid) := AllEntries(chunks, n - 1);
      var chunk := chunks[n - 1];
      IndexedBound(chunk, guid, 0);
      var k := Indexed(chunk, guid, 0);
      (xs + Entries(chunk, n - 1, k), GuidAfter(chunk, guid, k))
  }

  lemma {:induction false} IndexedBound(chunk: seq<Block>, guid: nat, n: nat)
    requires n <= |chunk|
    ensures n <= Indexed(chunk, guid, n) <= |chunk|
    ensures forall i :: n <= i < Indexed(chunk, guid, n) ==> SizeOk(chunk[i])
    decreases |chunk| - n
  {
    if n < |chunk| && SizeOk(chunk[n]) && !(chunk[n].kind == MLVI && chunk[n].fileNum != 0 && chunk[n].guid != guid) {
      IndexedBound(chunk, if chunk[n].kind == MLVI && chunk[n].fileNum == 0 then chunk[n].guid else guid, n + 1);
    }
  }

  // ---------------------------------------------------------------- stable sorting

  /** The entries with time t, in their order. */
  function AtTime(s: seq<Xref>, t: nat): seq<Xref>
  {
    if s == [] then [] else AtTime(s[..|s| - 1], t) + if s[|s| - 1].frameTime == t then [s[|s| - 1]] else []
  }

  /** s rearranged without changing the order of entries with equal times. */
  ghost predicate SameOrder(s: seq<Xref>, r: seq<Xref>)
  {
    multiset(s) == multiset(r) && forall t :: AtTime(s, t) == AtTime(r, t)
  }

  predicate Sorted(s: seq<Xref>)
  {
    forall i, j :: 0 <= i < j < |s| ==> s[i].frameTime <= s[j].frameTime
  }

  lemma {:induction false} AtTimeConcat(a: seq<Xref>, b: seq<Xref>, t: nat)
    ensures AtTime(a + b, t) == AtTime(a, t) + AtTime(b, t)
    decreases |b|
  {
    if b == [] {
      assert a + b == a;
    } else {
      assert (a + b)[..|a + b| - 1] == a + b[..|b| - 1];
      AtTimeConcat(a, b[..|b| - 1], t);
    }
  }

  lemma {:induction false} OneAtTime(x: Xref, t: nat)
    ensures AtTime([x], t) == if x.frameTime == t then [x] else []
  {
    assert [x][..0] == [];
  }

  /** Exchanging two neighbours with different times changes no order among equals. */
  lemma {:induction false} SwapAtTime(a: seq<Xref>, x: Xref, y: Xref, b: seq<Xref>, t: nat)
    requires x.frameTime != y.frameTime
    ensures AtTime(a + [x] + [y] + b, t) == AtTime(a + [y] + [x] + b, t)
  {
    hide AtTime;
    AtTimeConcat(a + [x] + [y], b, t);
    AtTimeConcat(a + [y] + [x], b, t);
    AtTimeConcat(a + [x], [y], t);
    AtTimeConcat(a + [y], [x], t);
    AtTimeConcat(a, [x], t);
    AtTimeConcat(a, [y], t);
    OneAtTime(x, t);
    OneAtTime(y, t);
  }

  lemma {:induction false} SwapKeepsOrder(s: seq<Xref>, i: nat)
    requires i + 1 < |s| && s[i].frameTime != s[i + 1].frameTime
    ensures SameOrder(s, s[i := s[i + 1]][i + 1 := s[i]])
  {
    hide AtTime;
    var r := s[i := s[i + 1]][i + 1 := s[i]];
    var a, x, y, b := s[..i], s[i], s[i + 1], s[i + 2..];
    assert s == a + [x] + [y] + b && r == a + [y] + [x] + b;
    forall t
      ensures AtTime(s, t) == AtTime(r, t)
    {
      SwapAtTime(a, x, y, b, t);
    }
  }

  /** Stably sorted, a sequence is determined: position by position, the sorted orders agree. */
  lemma {:induction false} StableUnique(s: seq<Xref>, r: seq<Xref>)
    requires Sorted(s) && Sorted(r) && |s| == |r| && forall t :: AtTime(s, t) == AtTime(r, t)
    ensures s == r
    decreases |s|
  {
    if s != [] {
      var n := |s| - 1;
      var x, y := s[n], r[n];
      LastAtTime(s, r);
      LastAtTime(r, s);
      assert AtTime(s, x.frameTime) == AtTime(s[..n], x.frameTime) + [x];
      assert x.frameTime == y.frameTime;
      assert AtTime(r, x.frameTime) == AtTime(r[..n], x.frameTime) + [y];
      assert AtTime(s, x.frameTime)[|AtTime(s, x.frameTime)| - 1] == x;
      assert AtTime(r, x.frameTime)[|AtTime(r, x.frameTime)| - 1] == y;
      forall t
        ensures AtTime(s[..n], t) == AtTime(r[..n], t)
      {
        assert AtTime(s, t) == AtTime(r, t);
        FrontAtTime(s[..n], r[..n], x, t);
        assert s == s[..n] + [x] && r == r[..n] + [x];
      }
      StableUnique(s[..n], r[..n]);
      assert s == s[..n] + [x] && r == r[..n] + [y];
    }
  }

  lemma {:induction false} FrontAtTime(a: seq<Xref>, b: seq<Xref>, x: Xref, t: nat)
    requires AtTime(a + [x], t) == AtTime(b + [x], t)
    ensures AtTime(a, t) == AtTime(b, t)
  {
    hide AtTime;
    AtTimeConcat(a, [x], t);
    AtTimeConcat(b, [x], t);
    SameFront(AtTime(a, t), AtTime(b, t), AtTime([x], t));
  }

  lemma {:induction false} SameFront(a: seq<Xref>, b: seq<Xref>, c: seq<Xref>)
    requires a + c == b + c
    ensures a == b
  {
    assert |a| == |b| && a == (a + c)[..|a|] && b == (b + c)[..|a|];
  }

  /** The latest time of one is not later than that of the other. */
  lemma {:induction false} LastAtTime(s: seq<Xref>, r: seq<Xref>)
    requires Sorted(r) && |s| == |r| > 0 && forall t :: AtTime(s, t) == AtTime(r, t)
    ensures s[|s| - 1].frameTime <= r[|r| - 1].frameTime
  {
    var x := s[|s| - 1];
    assert AtTime(s, x.frameTime) != [];
    if r[|r| - 1].frameTime < x.frameTime {
      NoneAtTime(r, x.frameTime);
    }
  }

  lemma {:induction false} NoneAtTime(r: seq<Xref>, t: nat)
    requires forall i :: 0 <= i < |r| ==> r[i].frameTime != t
    ensures AtTime(r, t) == []
  {
    if r != [] { NoneAtTime(r[..|r| - 1], t); }
  }

  /** From bound on everything is in its place. */
  predicate Placed(s: seq<Xref>, bound: int)
  {
    forall p, q :: 0 <= p < q < |s| && bound <= q ==> s[p].frameTime <= s[q].frameTime
  }

  /**
   * A pass has seen the first i + 1 entries: the last is their latest, and since the last exchange they were in
   * order.
   */
  ghost predicate Passing(s: seq<Xref>, n: int, newn: int, i: int)
  {
    && 1 <= newn <= i + 1 && Placed(s, n)
    && (forall p :: 0 <= p < i < |s| ==> s[p].frameTime <= s[i].frameTime)
    && forall p, q :: 0 <= p < q <= i < |s| && newn <= q ==> s[p].frameTime <= s[q].frameTime
  }

  /** xref_sort: a pass ends where its last exchange was, and the bound falls strictly. */
  method XrefSort(table: array<Xref>)
    modifies table
    ensures Sorted(table[..]) && SameOrder(old(table[..]), table[..])
  {
    if table.Length == 0 { return; }
    var n := table.Length;
    var more := true;
    while more
      invariant 1 <= n <= table.Length && Placed(table[..], n) && SameOrder(old(table[..]), table[..])
      invariant !more ==> n == 1
      decreases n, more
    {
      n := Pass(table, n);
      more := n > 1;
    }
  }

  method Pass(table: array<Xref>, n: nat) returns (newn: nat)
    requires 1 <= n <= table.Length && Placed(table[..], n)
    modifies table
    ensures 1 <= newn <= n && (n > 1 ==> newn < n) && Placed(table[..], newn)
    ensures SameOrder(old(table[..]), table[..])
  {
    hide SameOrder, Passing, Placed;
    newn := 1;
    SameOrderRefl(table[..]);
    PassBegins(table[..], n);
    for i := 0 to n - 1
      invariant 1 <= newn <= i + 1 && (i > 0 ==> newn <= i)
      invariant Passing(table[..], n, newn, i) && SameOrder(old(table[..]), table[..])
    {
      ghost var s := table[..];
      if table[i].frameTime > table[i + 1].frameTime {
        SwapKeepsOrder(s, i);
        SwapPasses(s, n, newn, i);
        var tmp := table[i + 1];
        table[i + 1] := table[i];
        table[i] := tmp;
        assert table[..] == s[i := s[i + 1]][i + 1 := s[i]];
        SameOrderTrans(old(table[..]), s, table[..]);
        newn := i + 1;
      } else {
        NextPasses(s, n, newn, i);
      }
    }
    PassEnds(table[..], n, newn);
  }

  lemma {:induction false} PassBegins(s: seq<Xref>, n: nat)
    requires n <= |s| && Placed(s, n)
    ensures Passing(s, n, 1, 0)
  {
  }

  lemma {:induction false} NextPasses(s: seq<Xref>, n: int, newn: int, i: nat)
    requires Passing(s, n, newn, i) && i + 1 < n <= |s| && s[i].frameTime <= s[i + 1].frameTime
    ensures Passing(s, n, newn, i + 1)
  {
  }

  lemma {:induction false} PassEnds(s: seq<Xref>, n: int, newn: int)
    requires 1 <= n <= |s| && Passing(s, n, newn, n - 1)
    ensures Placed(s, newn)
  {
  }

  lemma {:induction false} SameOrderRefl(s: seq<Xref>)
    ensures SameOrder(s, s)
  {
  }

  lemma {:induction false} SameOrderTrans(a: seq<Xref>, b: seq<Xref>, c: seq<Xref>)
    requires SameOrder(a, b) && SameOrder(b, c)
    ensures SameOrder(a, c)
  {
  }

  lemma {:induction false} SwapPasses(s: seq<Xref>, n: int, newn: int, i: nat)
    requires Passing(s, n, newn, i) && i + 1 < n <= |s| && s[i].frameTime > s[i + 1].frameTime
    ensures Passing(s[i := s[i + 1]][i + 1 := s[i]], n, i + 1, i + 1)
  {
  }

  /** The block an entry refers to. */
  function Read(chunks: seq<seq<Block>>, x: Xref): (r: seq<Block>)
    ensures |r| <= 1
  {
    if x.fileNumber < |chunks| then BlockAt(chunks[x.fileNumber], x.frameOffset) else []
  }

  /** The block that an entry refers to is one it describes. */
  predicate Refers(chunks: seq<seq<Block>>, x: Xref)
  {
    var b := Read(chunks, x);
    b != [] && b[0].kind != NULL && x == EntryOf(b[0], x.frameOffset, x.fileNumber)
  }

  lemma {:induction false} EntriesRefer(chunks: seq<seq<Block>>, file: nat, n: nat, x: Xref)
    requires file < |chunks| && n <= |chunks[file]| && (forall i :: 0 <= i < n ==> SizeOk(chunks[file][i]))
    requires x in Entries(chunks[file], file, n)
    ensures Refers(chunks, x)
    decreases n
  {
    hide BlockAt;
    var chunk := chunks[file];
    if x in Entries(chunk, file, n - 1) {
      EntriesRefer(chunks, file, n - 1, x);
    } else {
      BlockFound(chunk, n - 1);
    }
  }

  /** Reading back through any entry of the index finds the block it was made for. */
  lemma {:induction false} AllEntriesRefer(chunks: seq<seq<Block>>, n: nat, x: Xref)
    requires n <= |chunks| && x in AllEntries(chunks, n).0
    ensures Refers(chunks, x)
    decreases n
  {
    hide Refers, Entries;
    if x in AllEntries(chunks, n - 1).0 {
      AllEntriesRefer(chunks, n - 1, x);
    } else {
      var guid := AllEntries(chunks, n - 1).1;
      IndexedBound(chunks[n - 1], guid, 0);
      EntriesRefer(chunks, n - 1, Indexed(chunks[n - 1], guid, 0), x);
    }
  }

  /** An entry says of its block what the search needs: frames are VIDF blocks, sound is AUDF blocks, and the time. */
  predicate Describes(chunks: seq<seq<Block>>, x: Xref)
  {
    var b := Read(chunks, x);
    && b != [] && b[0].kind != NULL
    && (x.frameType == Video <==> b[0].kind == VIDF) && (x.frameType == Audio <==> b[0].kind == AUDF)
    && x.frameTime == if b[0].kind == MLVI then 0 else b[0].timestamp
  }

  lemma {:induction false} Described(chunks: seq<seq<Block>>, x: Xref)
    requires Refers(chunks, x)
    ensures Describes(chunks, x)
  {
    hide BlockAt;
  }

  lemma {:induction false} TableRefers(chunks: seq<seq<Block>>, s: seq<Xref>)
    requires SameOrder(AllEntries(chunks, |chunks|).0, s)
    ensures forall x :: x in s ==> Refers(chunks, x) && Describes(chunks, x)
  {
    hide Refers, Describes;
    forall x | x in s
      ensures Refers(chunks, x) && Describes(chunks, x)
    {
      assert x in multiset(s);
      AllEntriesRefer(chunks, |chunks|, x);
      Described(chunks, x);
    }
  }

  // ---------------------------------------------------------------- what is in the table

  /** A file header of another recording: one that does not begin a recording and does not continue this one. */
  predicate Foreign(chunk: seq<Block>, guid: nat, i: nat)
    requires i < |chunk|
  {
    chunk[i].kind == MLVI && chunk[i].fileNum != 0 && chunk[i].guid != GuidAfter(chunk, guid, i)
  }

  /** The blocks of a chunk are indexed up to the first whose size is out of bounds or that belongs elsewhere. */
  lemma {:induction false} IndexedUpTo(chunk: seq<Block>, guid: nat, n: nat)
    requires n <= |chunk|
    ensures var k := Indexed(chunk, GuidAfter(chunk, guid, n), n);
            && n <= k <= |chunk|
            && (forall i :: n <= i < k ==> 16 <= chunk[i].size <= 1024 * 1024 * 1024 && !Foreign(chunk, guid, i))
            && (k < |chunk| ==> !(16 <= chunk[k].size <= 1024 * 1024 * 1024) || Foreign(chunk, guid, k))
    decreases |chunk| - n
  {
    if n < |chunk| && SizeOk(chunk[n]) && !Foreign(chunk, guid, n) {
      IndexedUpTo(chunk, guid, n + 1);
    }
  }

  /** The VIDF blocks among the first n. */
  function Frames(chunk: seq<Block>, n: nat): nat
    requires n <= |chunk|
  {
    if n == 0 then 0 else Frames(chunk, n - 1) + if chunk[n - 1].kind == VIDF then 1 else 0
  }

  /** The VIDF blocks that are indexed in the first n chunks. */
  function AllFrames(chunks: seq<seq<Block>>, n: nat): nat
    requires n <= |chunks|
  {
    if n == 0 then 0
    else
      var guid := AllEntries(chunks, n - 1).1;
      IndexedBound(chunks[n - 1], guid, 0);
      AllFrames(chunks, n - 1) + Frames(chunks[n - 1], Indexed(chunks[n - 1], guid, 0))
  }

  lemma {:induction false} VideoConcat(a: seq<Xref>, b: seq<Xref>, n: nat)
    requires n <= |b|
    ensures VideoCount(a + b, |a| + n) == VideoCount(a, |a|) + VideoCount(b, n)
  {
    if n > 0 { VideoConcat(a, b, n - 1); } else { VideoFront(a, b, |a|); }
  }

  lemma {:induction false} VideoFront(a: seq<Xref>, b: seq<Xref>, n: nat)
    requires n <= |a|
    ensures VideoCount(a + b, n) == VideoCount(a, n)
  {
    if n > 0 { VideoFront(a, b, n - 1); }
  }

  lemma {:induction false} EntriesFrames(chunk: seq<Block>, file: nat, n: nat)
    requires n <= |chunk|
    ensures var xs := Entries(chunk, file, n); VideoCount(xs, |xs|) == Frames(chunk, n)
  {
    if n > 0 {
      EntriesFrames(chunk, file, n - 1);
      var one := if chunk[n - 1].kind == NULL then [] else [EntryOf(chunk[n - 1], OffsetOf(chunk, n - 1), file)];
      VideoConcat(Entries(chunk, file, n - 1), one, |one|);
      if one != [] { assert VideoCount(one, 0) == 0; }
    }
  }

  lemma {:induction false} AllEntriesFrames(chunks: seq<seq<Block>>, n: nat)
    requires n <= |chunks|
    ensures var xs := AllEntries(chunks, n).0; VideoCount(xs, |xs|) == AllFrames(chunks, n)
  {
    hide Entries, Frames, Indexed;
    if n > 0 {
      AllEntriesFrames(chunks, n - 1);
      var guid := AllEntries(chunks, n - 1).1;
      IndexedBound(chunks[n - 1], guid, 0);
      var k := Indexed(chunks[n - 1], guid, 0);
      EntriesFrames(chunks[n - 1], n - 1, k);
      var ys := Entries(chunks[n - 1], n - 1, k);
      VideoConcat(AllEntries(chunks, n - 1).0, ys, |ys|);
    }
  }

  lemma {:induction false} VideoSplit(r: seq<Xref>, j: nat)
    requires j < |r|
    ensures var rest := r[..j] + r[j + 1..];
            VideoCount(r, |r|) == VideoCount(rest, |rest|) + if r[j].frameType == Video then 1 else 0
  {
    hide VideoCount;
    var a, x, b := r[..j], r[j], r[j + 1..];
    assert r == a + ([x] + b);
    VideoConcat(a, [x] + b, |[x] + b|);
    VideoConcat([x], b, |b|);
    VideoConcat(a, b, |b|);
    OneVideo(x);
  }

  lemma {:induction false} OneVideo(x: Xref)
    ensures VideoCount([x], 1) == if x.frameType == Video then 1 else 0
  {
    assert VideoCount([x], 0) == 0;
  }

  lemma {:induction false} TakeOut(s: seq<Xref>, r: seq<Xref>) returns (j: nat)
    requires multiset(s) == multiset(r) && s != []
    ensures j < |r| && r[j] == s[|s| - 1] && multiset(s[..|s| - 1]) == multiset(r[..j] + r[j + 1..])
  {
    var n := |s| - 1;
    assert s == s[..n] + [s[n]];
    assert s[n] in multiset(r);
    j :| 0 <= j < |r| && r[j] == s[n];
    SameRest(s[..n], s[n], r[..j], r[j + 1..]);
    assert r == r[..j] + [r[j]] + r[j + 1..];
  }

  lemma {:induction false} SameRest(s: seq<Xref>, x: Xref, a: seq<Xref>, b: seq<Xref>)
    ensures multiset(s + [x]) == multiset(a + [x] + b) ==> multiset(s) == multiset(a + b)
  {
    assert multiset(s + [x]) == multiset(s) + multiset{x};
    assert multiset(a + [x] + b) == multiset(a + b) + multiset{x};
    if multiset(s + [x]) == multiset(a + [x] + b) {
      assert multiset(s) == multiset(s + [x]) - multiset{x};
      assert multiset(a + b) == multiset(a + [x] + b) - multiset{x};
    }
  }

  /** Counting does not depend on the order. */
  lemma {:induction false} VideoPermuted(s: seq<Xref>, r: seq<Xref>)
    requires multiset(s) == multiset(r)
    ensures VideoCount(s, |s|) == VideoCount(r, |r|)
    decreases |s|
  {
    hide VideoCount;
    if s == [] {
      assert |multiset(r)| == 0;
      assert r == [];
    } else {
      var j := TakeOut(s, r);
      var n := |s| - 1;
      var front, rest := s[..n], r[..j] + r[j + 1..];
      VideoPermuted(front, rest);
      VideoSplit(s, n);
      VideoSplit(r, j);
      assert s[..n] + s[n + 1..] == front;
      assert VideoCount(s, |s|) == VideoCount(front, |front|) + if s[n].frameType == Video then 1 else 0;
      assert VideoCount(r, |r|) == VideoCount(rest, |rest|) + if r[j].frameType == Video then 1 else 0;
    }
  }

  /** The frames of the table are the VIDF blocks indexed. */
  lemma {:induction false} FramesCounted(chunks: seq<seq<Block>>, s: seq<Xref>)
    requires SameOrder(AllEntries(chunks, |chunks|).0, s)
    ensures VideoCount(s, |s|) == AllFrames(chunks, |chunks|)
  {
    AllEntriesFrames(chunks, |chunks|);
    VideoPermuted(AllEntries(chunks, |chunks|).0, s);
  }

  /** Entries of frames before place n are the VIDF blocks read there. */
  function FramesRead(chunks: seq<seq<Block>>, xs: seq<Xref>, n: nat): nat
    requires n <= |xs|
  {
    if n == 0 then 0
    else
      var b := Read(chunks, xs[n - 1]);
      FramesRead(chunks, xs, n - 1) + if b != [] && b[0].kind == VIDF then 1 else 0
  }

  lemma {:induction false} FramesAreRead(chunks: seq<seq<Block>>, xs: seq<Xref>, n: nat)
    requires n <= |xs| && forall x :: x in xs ==> Describes(chunks, x)
    ensures VideoCount(xs, n) == FramesRead(chunks, xs, n)
  {
    hide Describes, Read;
    if n > 0 {
      FramesAreRead(chunks, xs, n - 1);
      DescribedFrame(chunks, xs[n - 1]);
    }
  }

  lemma {:induction false} DescribedFrame(chunks: seq<seq<Block>>, x: Xref)
    requires Describes(chunks, x)
    ensures var b := Read(chunks, x); b != [] && (x.frameType == Video <==> b[0].kind == VIDF)
  {
  }

  /** make_index: the table of all indexed blocks, stably sorted by time; every entry leads back to its block. */
  method MakeIndex(chunks: seq<seq<Block>>) returns (table: array<Xref>)
    ensures fresh(table) && Sorted(table[..]) && SameOrder(AllEntries(chunks, |chunks|).0, table[..])
    ensures forall x :: x in table[..] ==> Refers(chunks, x) && Describes(chunks, x)
    ensures VideoCount(table[..], table.Length) == AllFrames(chunks, |chunks|)
  {
    hide Entries, GuidAfter, SameOrder, Refers, Sorted, Describes, AllFrames, VideoCount;
    var xs: seq<Xref> := [];
    var guid := 0;
    for c := 0 to |chunks|
      invariant (xs, guid) == AllEntries(chunks, c)
    {
      var chunk := chunks[c];
      ghost var xs0, guid0 := xs, guid;
      IndexedBound(chunk, guid0, 0);
      NoEntries(chunk, c, guid0);
      assert xs0 + [] == xs0;
      var position, k := 0, 0;
      while k < |chunk|
        invariant k <= Indexed(chunk, guid0, 0) && Indexed(chunk, guid, k) == Indexed(chunk, guid0, 0)
        invariant position == OffsetOf(chunk, k) && guid == GuidAfter(chunk, guid0, k)
                  && xs == xs0 + Entries(chunk, c, k)
        decreases |chunk| - k
      {
        var b := chunk[k];
        if !SizeOk(b) { break; }
        var timestamp;
        if b.kind == MLVI {
          if b.fileNum != 0 && b.guid != guid { break; }
          OneMore(chunk, c, guid0, k);
          if b.fileNum == 0 { guid := b.guid; }
          timestamp := 0;
        } else {
          OneMore(chunk, c, guid0, k);
          timestamp := b.timestamp;
        }
        StillIndexed(chunk, guid, k, guid0);
        if b.kind != NULL {
          xs := xs + [Xref(timestamp, position, c, TypeOf(b.kind))];
        }
        position := position + b.size;
        k := k + 1;
      }
    }
    table := new Xref[|xs|](i requires 0 <= i < |xs| => xs[i]);
    assert table[..] == xs;
    XrefSort(table);
    TableRefers(chunks, table[..]);
    FramesCounted(chunks, table[..]);
  }

  lemma {:induction false} NoEntries(chunk: seq<Block>, file: nat, guid: nat)
    ensures Entries(chunk, file, 0) == [] && GuidAfter(chunk, guid, 0) == guid && OffsetOf(chunk, 0) == 0
  {
  }

  lemma {:induction false} OneMore(chunk: seq<Block>, file: nat, guid: nat, k: nat)
    requires k < |chunk|
    ensures Entries(chunk, file, k + 1)
            == Entries(chunk, file, k) + if chunk[k].kind == NULL then [] else [EntryOf(chunk[k], OffsetOf(chunk, k), file)]
    ensures GuidAfter(chunk, guid, k + 1)
            == if chunk[k].kind == MLVI && chunk[k].fileNum == 0 then chunk[k].guid else GuidAfter(chunk, guid, k)
  {
  }

  lemma {:induction false} StillIndexed(chunk: seq<Block>, guid: nat, k: nat, guid0: nat)
    requires k < |chunk|
    ensures Indexed(chunk, guid, k + 1) >= k + 1
  {
    IndexedBound(chunk, guid, k + 1);
  }

  // ---------------------------------------------------------------- looking up a frame

  function VideoCount(xs: seq<Xref>, n: nat): nat
    requires n <= |xs|
  {
    if n == 0 then 0 else VideoCount(xs, n - 1) + if xs[n - 1].frameType == Video then 1 else 0
  }

  /** The counting loop of mlv_get_frame_count; an index without frames is built anew and counted again. */
  method FrameCount(xs: seq<Xref>, rebuilt: seq<Xref>) returns (count: nat)
    ensures count == if VideoCount(xs, |xs|) > 0 then VideoCount(xs, |xs|) else VideoCount(rebuilt, |rebuilt|)
  {
    count := 0;
    for i := 0 to |xs|
      invariant count == VideoCount(xs, i)
    {
      if xs[i].frameType == Video { count := count + 1; }
    }
    if count == 0 {
      for i := 0 to |rebuilt|
        invariant count == VideoCount(rebuilt, i)
      {
        if rebuilt[i].frameType == Video { count := count + 1; }
      }
    }
  }

  predicate Collected(k: Kind)
  {
    k == MLVI || k == RTCI || k == IDNT || k == RAWI || k == EXPO || k == LENS || k == WBAL
  }

  /** The last block of a kind among the first n entries. */
  function LastOf(chunks: seq<seq<Block>>, xs: seq<Xref>, n: nat, k: Kind): (r: seq<Block>)
    requires n <= |xs|
    ensures |r| <= 1
  {
    if n == 0 then []
    else
      var b := Read(chunks, xs[n - 1]);
      if xs[n - 1].frameType == Unspecified && b != [] && b[0].kind == k then b else LastOf(chunks, xs, n - 1, k)
  }

  /** The headers collected from the first n entries. */
  ghost predicate Headers(chunks: seq<seq<Block>>, xs: seq<Xref>, n: nat, h: map<Kind, Block>)
    requires n <= |xs|
  {
    forall k ::
      var last := LastOf(chunks, xs, n, k);
      if Collected(k) && last != [] then k in h && h[k] == last[0] else k !in h
  }

  lemma {:induction false} HeadersNext(chunks: seq<seq<Block>>, xs: seq<Xref>, n: nat, h: map<Kind, Block>)
    requires n < |xs| && Headers(chunks, xs, n, h)
    ensures var b := Read(chunks, xs[n]);
            Headers(chunks, xs, n + 1,
                    if xs[n].frameType == Unspecified && b != [] && Collected(b[0].kind) then h[b[0].kind := b[0]] else h)
  {
  }

  /**
   * The scan of mlv_get_frame_headers. A frame is found exactly if its number is below the frame count; it is then
   * that VIDF entry, and every header is the last of its kind in front of it.
   */
  method GetFrameHeaders(chunks: seq<seq<Block>>, xs: seq<Xref>, index: nat)
    returns (ok: bool, found: bool, at: nat, headers: map<Kind, Block>)
    ensures found <==> index < VideoCount(xs, |xs|)
    ensures found ==> at < |xs| && xs[at].frameType == Video && VideoCount(xs, at) == index
                      && Headers(chunks, xs, at, headers)
    ensures ok <==> found && RAWI in headers
    ensures (forall x :: x in xs ==> Describes(chunks, x)) ==>
              && (found <==> index < FramesRead(chunks, xs, |xs|))
              && (found ==> FramesRead(chunks, xs, at) == index
                            && Read(chunks, xs[at]) != [] && Read(chunks, xs[at])[0].kind == VIDF)
  {
    hide Headers, LastOf, Describes, FramesRead, Read;
    found := false;
    var rawiFound := false;
    var vidfCounter := 0;
    headers := map[];
    at := 0;
    NoHeaders(chunks, xs);
    var pos := 0;
    while pos < |xs| && !found
      invariant pos <= |xs| && (rawiFound <==> RAWI in headers)
      invariant !found ==> vidfCounter == VideoCount(xs, pos) <= index && Headers(chunks, xs, pos, headers)
      invariant found ==> at < |xs| && xs[at].frameType == Video && VideoCount(xs, at) == index
                          && Headers(chunks, xs, at, headers) && VideoCount(xs, at + 1) == index + 1
      decreases |xs| - pos
    {
      if xs[pos].frameType == Video {
        HeadersNext(chunks, xs, pos, headers);
        if index == vidfCounter {
          found := true;
          at := pos;
        } else {
          vidfCounter := vidfCounter + 1;
        }
      } else if xs[pos].frameType == Audio {
        HeadersNext(chunks, xs, pos, headers);
      } else {
        HeadersNext(chunks, xs, pos, headers);
        var mlvHdr := Read(chunks, xs[pos]);
        if mlvHdr != [] {
          var kind := mlvHdr[0].kind;
          if kind in {MLVI, RTCI, IDNT, RAWI, EXPO, LENS, WBAL} {
            headers := headers[kind := mlvHdr[0]];
            if kind == RAWI { rawiFound := true; }
          }
        }
      }
      pos := pos + 1;
    }
    if found { VideoCountGrows(xs, at + 1, |xs|); }
    ok := found && rawiFound;
    if forall x :: x in xs ==> Describes(chunks, x) {
      FramesAreRead(chunks, xs, |xs|);
      if found {
        FramesAreRead(chunks, xs, at);
        DescribedFrame(chunks, xs[at]);
      }
    }
  }

  lemma {:induction false} NoHeaders(chunks: seq<seq<Block>>, xs: seq<Xref>)
    ensures Headers(chunks, xs, 0, map[])
  {
  }

  lemma {:induction false} VideoCountGrows(xs: seq<Xref>, m: nat, n: nat)
    requires m <= n <= |xs|
    ensures VideoCount(xs, m) <= VideoCount(xs, n)
    decreases n
  {
    if m < n { VideoCountGrows(xs, m, n - 1); }
  }
}
