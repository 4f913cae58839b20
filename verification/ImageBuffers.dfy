/**
 * The cache of rendered image buffers (resource_manager.c): a list in the order of creation, a counter beside it,
 * and a cleanup that runs before every creation. Calls come one after another and every allocation succeeds.
 */
module ImageBuffers {

  datatype Buffer = Buffer(name: string, inUse: bool)

  const MAX_UNUSED := 4
  const MAX_TOTAL := 16

  // ---------------------------------------------------------------- the list as a value

  /** The place of the first buffer of a name, or the length of the list. */
  function Find(l: seq<Buffer>, name: string): (r: nat)
    ensures r <= |l| && (r < |l| ==> l[r].name == name)
    ensures forall i :: 0 <= i < r ==> l[i].name != name
  {
    if l == [] then 0 else if l[0].name == name then 0 else Find(l[1..], name) + 1
  }

  /** The place of the first idle buffer, or the length of the list. */
  function FirstIdle(l: seq<Buffer>): (r: nat)
    ensures r <= |l| && (r < |l| ==> !l[r].inUse)
    ensures forall i :: 0 <= i < r ==> l[i].inUse
  {
    if l == [] then 0 else if !l[0].inUse then 0 else FirstIdle(l[1..]) + 1
  }

  function Without(l: seq<Buffer>, i: nat): (r: seq<Buffer>)
    requires i < |l|
    ensures |r| == |l| - 1
  {
    l[..i] + l[i + 1..]
  }

  /** The first loop of the cleanup: it starts over from the head after every buffer it frees. */
  function DropIdle(l: seq<Buffer>): (r: seq<Buffer>)
    ensures |r| <= |l|
    decreases |l|
  {
    if |l| > MAX_UNUSED && FirstIdle(l) < |l| then DropIdle(Without(l, FirstIdle(l))) else l
  }

  function Cleaned(l: seq<Buffer>): (r: seq<Buffer>)
  {
    var m := DropIdle(l);
    if |m| > MAX_TOTAL then m[|m| - MAX_TOTAL..] else m
  }

  datatype Call = Get(name: string) | Release(name: string)

  /** What one call makes of the list; a get that finds its buffer leaves the list as it is. */
  function Step(l: seq<Buffer>, call: Call): seq<Buffer>
  {
    match call
    case Get(name) => if Find(l, name) < |l| then l else Cleaned(l) + [Buffer(name, true)]
    case Release(name) => var i := Find(l, name); if i < |l| then l[i := l[i].(inUse := false)] else l
  }

  function Run(calls: seq<Call>): seq<Buffer>
  {
    if calls == [] then [] else Step(Run(calls[..|calls| - 1]), calls[|calls| - 1])
  }

  ghost predicate Distinct(l: seq<Buffer>)
  {
    forall i, j :: 0 <= i < j < |l| ==> l[i].name != l[j].name
  }

  // ---------------------------------------------------------------- the cleanup in one pass

  /** Leaving out the first k idle buffers, in one pass. */
  function SkipIdle(l: seq<Buffer>, k: nat): seq<Buffer>
  {
    if l == [] || k == 0 then l
    else if !l[0].inUse then SkipIdle(l[1..], k - 1)
    else [l[0]] + SkipIdle(l[1..], k)
  }

  lemma {:induction false} SkipFirst(l: seq<Buffer>, k: nat)
    requires k > 0
    ensures SkipIdle(l, k) == if FirstIdle(l) < |l| then SkipIdle(Without(l, FirstIdle(l)), k - 1) else l
  {
    if l != [] && l[0].inUse {
      SkipFirst(l[1..], k);
      if FirstIdle(l) < |l| {
        assert Without(l, FirstIdle(l)) == [l[0]] + Without(l[1..], FirstIdle(l[1..]));
      }
    } else if l != [] {
      assert Without(l, 0) == l[1..];
    }
  }

  /** Starting over after every buffer freed is the same as one pass that frees what is above the limit. */
  lemma {:induction false} OnePass(l: seq<Buffer>)
    ensures DropIdle(l) == SkipIdle(l, if |l| > MAX_UNUSED then |l| - MAX_UNUSED else 0)
    decreases |l|
  {
    if |l| > MAX_UNUSED {
      SkipFirst(l, |l| - MAX_UNUSED);
      if FirstIdle(l) < |l| { OnePass(Without(l, FirstIdle(l))); }
    }
  }

  /** The first loop ends with few buffers or none idle, and no buffer in use is lost. */
  lemma {:induction false} DropIdleEnds(l: seq<Buffer>)
    ensures |DropIdle(l)| <= MAX_UNUSED || FirstIdle(DropIdle(l)) == |DropIdle(l)|
    ensures forall b: Buffer :: b.inUse && b in l ==> b in DropIdle(l)
    decreases |l|
  {
    if |l| > MAX_UNUSED && FirstIdle(l) < |l| {
      DropIdleEnds(Without(l, FirstIdle(l)));
      forall b: Buffer | b.inUse && b in l
        ensures b in Without(l, FirstIdle(l))
      {
        var j :| 0 <= j < |l| && l[j] == b;
        assert Without(l, FirstIdle(l))[if j < FirstIdle(l) then j else j - 1] == b;
      }
    }
  }

  // ---------------------------------------------------------------- order of the survivors

  /** r is l with some buffers left out: survivors keep their order. */
  predicate Survivors(r: seq<Buffer>, l: seq<Buffer>)
  {
    if r == [] then true
    else if l == [] then false
    else if r[0] == l[0] then Survivors(r[1..], l[1..])
    else Survivors(r, l[1..])
  }

  lemma {:induction false} Same(l: seq<Buffer>)
    ensures Survivors(l, l)
  {
    if l != [] { Same(l[1..]); }
  }

  /** One buffer fewer on the way: a list that has r among it has r still if it grows by its head. */
  lemma {:induction false} Grow(r: seq<Buffer>, b: Buffer, l: seq<Buffer>)
    requires Survivors(r, l)
    ensures Survivors(r, [b] + l)
    decreases |l|, 1
  {
    assert ([b] + l)[1..] == l;
    if r != [] && r[0] == b { FewerSurvive(r, l); }
  }

  lemma {:induction false} FewerSurvive(r: seq<Buffer>, l: seq<Buffer>)
    requires r != [] && Survivors(r, l)
    ensures Survivors(r[1..], l)
    decreases |l|, 0
  {
    if r[0] == l[0] {
      Grow(r[1..], l[0], l[1..]);
      assert [l[0]] + l[1..] == l;
    } else {
      FewerSurvive(r, l[1..]);
      Grow(r[1..], l[0], l[1..]);
      assert [l[0]] + l[1..] == l;
    }
  }

  lemma {:induction false} SkipSurvives(l: seq<Buffer>, k: nat)
    ensures Survivors(SkipIdle(l, k), l)
  {
    if l == [] || k == 0 {
      Same(l);
    } else if !l[0].inUse {
      SkipSurvives(l[1..], k - 1);
      Grow(SkipIdle(l[1..], k - 1), l[0], l[1..]);
      assert [l[0]] + l[1..] == l;
    } else {
      SkipSurvives(l[1..], k);
      assert SkipIdle(l, k)[1..] == SkipIdle(l[1..], k);
    }
  }

  lemma {:induction false} TailSurvives(r: seq<Buffer>, l: seq<Buffer>, k: nat)
    requires k <= |r| && Survivors(r, l)
    ensures Survivors(r[k..], l)
  {
    if k > 0 {
      FewerSurvive(r, l);
      TailSurvives(r[1..], l, k - 1);
      assert r[1..][k - 1..] == r[k..];
    } else {
      assert r[0..] == r;
    }
  }

  lemma {:induction false} SurvivorsFrom(r: seq<Buffer>, l: seq<Buffer>)
    requires Survivors(r, l)
    ensures forall b: Buffer :: b in r ==> b in l
    decreases |l|
  {
    if r != [] {
      assert r == [r[0]] + r[1..] && l == [l[0]] + l[1..];
      if r[0] == l[0] { SurvivorsFrom(r[1..], l[1..]); } else { SurvivorsFrom(r, l[1..]); }
    }
  }

  lemma {:induction false} SurvivorsDistinct(r: seq<Buffer>, l: seq<Buffer>)
    requires Survivors(r, l) && Distinct(l)
    ensures Distinct(r)
    decreases |l|
  {
    if r != [] {
      assert Distinct(l[1..]);
      if r[0] == l[0] {
        SurvivorsDistinct(r[1..], l[1..]);
        SurvivorsFrom(r[1..], l[1..]);
        forall i, j | 0 <= i < j < |r|
          ensures r[i].name != r[j].name
        {
          assert r[1..][j - 1] in l[1..];
          if i > 0 { assert r[i] == r[1..][i - 1]; }
        }
      } else {
        SurvivorsDistinct(r, l[1..]);
      }
    }
  }

  /** The cleanup keeps the order, ends within both limits, and frees buffers in use only beyond the total. */
  lemma {:induction false} CleanedKeeps(l: seq<Buffer>)
    ensures Survivors(Cleaned(l), l) && |Cleaned(l)| <= MAX_TOTAL
    ensures |Cleaned(l)| <= MAX_UNUSED || forall b: Buffer :: b in Cleaned(l) ==> b.inUse
    ensures |l| <= MAX_TOTAL ==> forall b: Buffer :: b.inUse && b in l ==> b in Cleaned(l)
  {
    var m := DropIdle(l);
    OnePass(l);
    DropIdleEnds(l);
    SkipSurvives(l, if |l| > MAX_UNUSED then |l| - MAX_UNUSED else 0);
    if |m| > MAX_TOTAL { TailSurvives(m, l, |m| - MAX_TOTAL); }
  }

  // ---------------------------------------------------------------- all runs

  /** After any calls: names are distinct and at most one buffer more than the total exists. */
  lemma {:induction false} RunKeeps(calls: seq<Call>)
    ensures Distinct(Run(calls)) && |Run(calls)| <= MAX_TOTAL + 1
  {
    if calls != [] {
      RunKeeps(calls[..|calls| - 1]);
      StepKeeps(Run(calls[..|calls| - 1]), calls[|calls| - 1]);
    }
  }

  lemma {:induction false} StepKeeps(l: seq<Buffer>, call: Call)
    requires Distinct(l) && |l| <= MAX_TOTAL + 1
    ensures Distinct(Step(l, call)) && |Step(l, call)| <= MAX_TOTAL + 1
  {
    hide Cleaned, Survivors;
    CleanedKeeps(l);
    SurvivorsDistinct(Cleaned(l), l);
    SurvivorsFrom(Cleaned(l), l);
    if call.Get? && Find(l, call.name) == |l| {
      forall i | 0 <= i < |Cleaned(l)|
        ensures Cleaned(l)[i].name != call.name
      {
        assert Cleaned(l)[i] in l;
      }
    }
  }

  ghost predicate Full(l: seq<Buffer>)
  {
    |l| == MAX_TOTAL + 1 && forall b: Buffer :: b in l ==> b.inUse
  }

  /** A get takes a buffer that is in use from its holder exactly if 17 exist, all in use, and it is the oldest. */
  lemma {:induction false} InUseFreed(l: seq<Buffer>, name: string, b: Buffer)
    requires Distinct(l) && |l| <= MAX_TOTAL + 1 && b in l && b.inUse
    ensures b !in Step(l, Get(name)) <==> Full(l) && Find(l, name) == |l| && b == l[0]
  {
    if Find(l, name) == |l| {
      var m := DropIdle(l);
      DropIdleEnds(l);
      var c := Cleaned(l);
      if |m| > MAX_TOTAL {
        assert m == l;
        forall x | x in l
          ensures x.inUse
        {
        }
        assert c == l[1..];
        assert l == [l[0]] + l[1..];
        assert l[0] !in l[1..];
        assert b != Buffer(name, true);
      } else {
        assert b in m && c == m;
        assert b in c + [Buffer(name, true)];
        if Full(l) { NothingIdle(l); }
      }
    }
  }

  lemma {:induction false} NothingIdle(l: seq<Buffer>)
    requires forall b: Buffer :: b in l ==> b.inUse
    ensures DropIdle(l) == l
  {
  }

  function IdleCount(l: seq<Buffer>): nat
  {
    if l == [] then 0 else (if l[0].inUse then 0 else 1) + IdleCount(l[1..])
  }

  lemma {:induction false} SkipIdleKeeps(l: seq<Buffer>, k: nat, i: nat)
    requires i < |l| && Distinct(l) && !l[i].inUse
    ensures l[i] in SkipIdle(l, k) <==> IdleCount(l[..i]) >= k
  {
    if k == 0 {
    } else if i == 0 {
      SkipSurvives(l[1..], k - 1);
      SurvivorsFrom(SkipIdle(l[1..], k - 1), l[1..]);
    } else {
      assert l[..i][1..] == l[1..][..i - 1];
      SkipIdleKeeps(l[1..], if l[0].inUse then k else k - 1, i - 1);
    }
  }

  /**
   * A get that creates a buffer frees an idle one exactly if fewer idle ones precede it than there are buffers over
   * four.
   */
  lemma {:induction false} IdleFreed(l: seq<Buffer>, name: string, i: nat)
    requires i < |l| <= MAX_TOTAL + 1 && Distinct(l) && !l[i].inUse
    ensures l[i] !in Step(l, Get(name)) <==> Find(l, name) == |l| && IdleCount(l[..i]) + MAX_UNUSED < |l|
  {
    if Find(l, name) == |l| {
      var k := if |l| > MAX_UNUSED then |l| - MAX_UNUSED else 0;
      OnePass(l);
      DropIdleEnds(l);
      SkipIdleKeeps(l, k, i);
      assert |DropIdle(l)| <= MAX_TOTAL;
      assert l[i] != Buffer(name, true);
    }
  }

  /** A get leaves a buffer of that name, and it is in use exactly if the get created it or it was in use before. */
  lemma {:induction false} GetMarks(l: seq<Buffer>, name: string)
    requires Distinct(l) && |l| <= MAX_TOTAL + 1
    ensures var r, i := Step(l, Get(name)), Find(l, name);
            Find(r, name) < |r| && (r[Find(r, name)].inUse <==> i == |l| || l[i].inUse)
  {
    hide Cleaned;
    var r := Step(l, Get(name));
    if Find(l, name) == |l| {
      assert r[|r| - 1] == Buffer(name, true);
      StepKeeps(l, Get(name));
    }
  }

  lemma {:induction false} RunNext(calls: seq<Call>, call: Call)
    ensures Run(calls + [call]) == Step(Run(calls), call)
  {
    assert (calls + [call])[..|calls|] == calls;
  }

  // ---------------------------------------------------------------- buffers and their holders

  /** Whether the buffer of that name is handed out: the last call about it was a get. */
  predicate HandedOut(calls: seq<Call>, name: string)
  {
    calls != []
    && var last := calls[|calls| - 1];
       if last.name == name then last.Get? else HandedOut(calls[..|calls| - 1], name)
  }

  /** Whether the buffer of that name has been released, by whomever, since it was created. */
  predicate Released(calls: seq<Call>, name: string)
  {
    calls != []
    && var before, last := calls[..|calls| - 1], calls[|calls| - 1];
       if last.name != name then Released(before, name)
       else last.Release? || (Find(Run(before), name) < |Run(before)| && Released(before, name))
  }

  lemma {:induction false} FindAt(l: seq<Buffer>, i: nat)
    requires Distinct(l) && i < |l|
    ensures Find(l, l[i].name) == i
  {
  }

  /** The flag tells whether a buffer has ever been released, not whether it is handed out. */
  lemma {:induction false} FlagTells(calls: seq<Call>, i: nat)
    requires i < |Run(calls)|
    ensures Run(calls)[i].inUse <==> !Released(calls, Run(calls)[i].name)
    decreases |calls|
  {
    hide Distinct, Cleaned;
    var before, last := calls[..|calls| - 1], calls[|calls| - 1];
    var l, r := Run(before), Run(calls);
    RunKeeps(before);
    RunKeeps(calls);
    FindAt(r, i);
    var f := Find(l, last.name);
    if last.Get? && f == |l| && i == |r| - 1 {
    } else if last.Get? && f == |l| {
      CleanedKeeps(l);
      SurvivorsFrom(Cleaned(l), l);
      assert r[i] in l;
      var j :| 0 <= j < |l| && l[j] == r[i];
      FlagTells(before, j);
    } else if last.Release? && i == f {
    } else {
      FindAt(l, i);
      FlagTells(before, i);
    }
  }

  /**
   * When a buffer is freed under its holder. Of the buffers handed out, one that nobody has released since its creation
   * is freed only as the oldest of 17 such buffers; but one that was released and then got again counts as idle, and is
   * freed as soon as a buffer is created while fewer idle ones precede it than there are buffers over four.
   */
  lemma {:induction false} HeldFreed(calls: seq<Call>, name: string, i: nat)
    requires i < |Run(calls)| && HandedOut(calls, Run(calls)[i].name)
    ensures var l := Run(calls);
            l[i] !in Run(calls + [Get(name)]) <==>
              && Find(l, name) == |l|
              && if Released(calls, l[i].name) then IdleCount(l[..i]) + MAX_UNUSED < |l| else Full(l) && i == 0
  {
    hide Run, Step, Released, Full, IdleCount;
    var l := Run(calls);
    RunKeeps(calls);
    RunNext(calls, Get(name));
    FlagTells(calls, i);
    if l[i].inUse {
      InUseFreed(l, name, l[i]);
    } else {
      IdleFreed(l, name, i);
    }
  }

  /** Callers that never get a released buffer again and hold at most 16 at a time never lose one. */
  lemma {:induction false} HeldSafe(calls: seq<Call>, name: string, i: nat)
    requires i < |Run(calls)| && HandedOut(calls, Run(calls)[i].name)
    requires !Released(calls, Run(calls)[i].name) && !Full(Run(calls))
    ensures Run(calls)[i] in Run(calls + [Get(name)])
  {
    HeldFreed(calls, name, i);
  }

  /** With at most four buffers a get of another name only appends. */
  lemma {:induction false} AddOne(calls: seq<Call>, name: string)
    requires |Run(calls)| <= MAX_UNUSED && Find(Run(calls), name) == |Run(calls)|
    ensures Run(calls + [Get(name)]) == Run(calls) + [Buffer(name, true)]
  {
    RunNext(calls, Get(name));
  }

  const GOT_AGAIN := [Get("a"), Release("a"), Get("a")]
  const FOUR_MORE := [Get("b"), Get("c"), Get("d"), Get("e")]

  lemma {:induction false} IdleUnderHolder()
    ensures Run(GOT_AGAIN) == [Buffer("a", false)]
  {
    assert Run([]) == [];
    RunNext([], Get("a"));
    assert Run([Get("a")]) == [Buffer("a", true)];
    RunNext([Get("a")], Release("a"));
    RunNext([Get("a"), Release("a")], Get("a"));
  }

  lemma {:induction false} FiveHeld()
    ensures Run(GOT_AGAIN + FOUR_MORE)
            == [Buffer("a", false), Buffer("b", true), Buffer("c", true), Buffer("d", true), Buffer("e", true)]
  {
    hide Run, Step;
    IdleUnderHolder();
    AddOne(GOT_AGAIN, "b");
    var calls := GOT_AGAIN + [Get("b")];
    AddOne(calls, "c");
    calls := calls + [Get("c")];
    AddOne(calls, "d");
    calls := calls + [Get("d")];
    AddOne(calls, "e");
    calls := calls + [Get("e")];
    assert calls == GOT_AGAIN + FOUR_MORE;
  }

  /** So a buffer got anew after its release is idle under its holder, and can be freed with only five in the cache. */
  lemma {:induction false} HeldBufferFreed()
    ensures |Run(GOT_AGAIN + FOUR_MORE)| == 5 && Run(GOT_AGAIN + FOUR_MORE)[0] == Buffer("a", false)
    ensures HandedOut(GOT_AGAIN + FOUR_MORE, "a")
    ensures Buffer("a", false) !in Run(GOT_AGAIN + FOUR_MORE + [Get("f")])
  {
    hide Run, Step, Cleaned;
    FiveHeld();
    var l := Run(GOT_AGAIN + FOUR_MORE);
    RunNext(GOT_AGAIN + FOUR_MORE, Get("f"));
    assert IdleCount(l[..0]) == 0;
    IdleFreed(l, "f", 0);
    StillOut(GOT_AGAIN, FOUR_MORE, "a");
  }

  /** Calls about other buffers leave a buffer handed out. */
  lemma {:induction false} StillOut(calls: seq<Call>, others: seq<Call>, name: string)
    requires HandedOut(calls, name) && forall c :: c in others ==> c.name != name
    ensures HandedOut(calls + others, name)
    decreases |others|
  {
    if others == [] {
      assert calls + others == calls;
    } else {
      StillOut(calls, others[..|others| - 1], name);
      assert (calls + others)[..|calls + others| - 1] == calls + others[..|others| - 1];
    }
  }

  // ---------------------------------------------------------------- the cache

  class Cache {
    var buffers: seq<Buffer>
    var count: int

    /** The counter is the number of buffers, names are distinct, and no more than 17 exist. */
    ghost predicate Valid()
      reads this
    {
      count == |buffers| <= MAX_TOTAL + 1 && Distinct(buffers)
    }

    constructor ()
      ensures Valid() && buffers == []
    {
      buffers := [];
      count := 0;
    }

    /** get_image_buffer: the walk along the list; the length of the list stands for a null pointer. */
    method GetImageBuffer(name: string) returns (at: nat)
      ensures at == Find(buffers, name)
    {
      at := 0;
      while at < |buffers|
        invariant at <= |buffers| && Find(buffers, name) == at + Find(buffers[at..], name)
      {
        if buffers[at].name == name { return; }
        assert buffers[at..][1..] == buffers[at + 1..];
        at := at + 1;
      }
    }

    /** free_image_buffer: the head or the successor of some buffer is unlinked. */
    method FreeImageBuffer(at: nat)
      requires at < |buffers|
      modifies this
      ensures buffers == Without(old(buffers), at) && count == old(count) - 1
    {
      if at == 0 {
        buffers := buffers[1..];
      } else {
        var current := 0;
        while current + 1 < |buffers|
          invariant current < at
        {
          if current + 1 == at { break; }
          current := current + 1;
        }
        buffers := buffers[..current + 1] + buffers[current + 2..];
      }
      count := count - 1;
    }

    /** The inner loop of the cleanup: the first idle buffer goes, and the walk stops there. */
    method FreeOneIdle() returns (anyIdle: bool)
      modifies this
      ensures anyIdle <==> FirstIdle(old(buffers)) < |old(buffers)|
      ensures buffers == if anyIdle then Without(old(buffers), FirstIdle(old(buffers))) else old(buffers)
      ensures count == if anyIdle then old(count) - 1 else old(count)
    {
      anyIdle := false;
      var current := 0;
      while current < |buffers|
        invariant buffers == old(buffers) && count == old(count)
        invariant current <= |buffers| && FirstIdle(buffers) == current + FirstIdle(buffers[current..])
      {
        if !buffers[current].inUse {
          FreeImageBuffer(current);
          return true;
        }
        assert buffers[current..][1..] == buffers[current + 1..];
        current := current + 1;
      }
    }

    /** image_buffer_cleanup: idle buffers go while more than four exist, then the oldest while more than 16 do. */
    method Cleanup()
      requires count == |buffers|
      modifies this
      ensures buffers == Cleaned(old(buffers)) && count == |buffers|
    {
      var more := true;
      while count > MAX_UNUSED && more
        invariant count == |buffers| && DropIdle(buffers) == DropIdle(old(buffers))
        invariant !more ==> FirstIdle(buffers) == |buffers|
        decreases count, more
      {
        more := FreeOneIdle();
      }
      ghost var m := buffers;
      assert DropIdle(m) == m;
      while count > MAX_TOTAL
        invariant count == |buffers| <= |m| && buffers == m[|m| - count..]
                  && count >= if |m| > MAX_TOTAL then MAX_TOTAL else |m|
        decreases count
      {
        FreeImageBuffer(0);
      }
    }

    /** new_image_buffer: clean up, then append; the new buffer is zeroed, so not in use yet. */
    method NewImageBuffer(name: string)
      requires count == |buffers|
      modifies this
      ensures buffers == Cleaned(old(buffers)) + [Buffer(name, false)] && count == |buffers|
    {
      Cleanup();
      count := count + 1;
      buffers := buffers + [Buffer(name, false)];
    }

    method GetOrCreate(name: string) returns (at: nat, wasCreated: bool)
      requires Valid()
      modifies this
      ensures Valid() && buffers == Step(old(buffers), Get(name))
      ensures at < |buffers| && buffers[at].name == name && (wasCreated <==> Find(old(buffers), name) == |old(buffers)|)
    {
      hide Cleaned, Distinct;
      StepKeeps(buffers, Get(name));
      wasCreated := false;
      at := GetImageBuffer(name);
      if at == |buffers| {
        NewImageBuffer(name);
        at := |buffers| - 1;
        buffers := buffers[at := buffers[at].(inUse := true)];
        assert buffers == Cleaned(old(buffers)) + [Buffer(name, true)];
        wasCreated := true;
      }
    }

    method ReleaseByPath(name: string)
      requires Valid()
      modifies this
      ensures Valid() && buffers == Step(old(buffers), Release(name))
    {
      StepKeeps(buffers, Release(name));
      var at := GetImageBuffer(name);
      if at < |buffers| {
        buffers := buffers[at := buffers[at].(inUse := false)];
      }
    }
  }
}
