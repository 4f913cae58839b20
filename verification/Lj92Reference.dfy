/**
 * The SLOW_HUFF build of lj92.c: the procedures of ITU-T T.81, sections C.2 and F.2.2, bit by bit. They define
 * the same residuals as the lookup table and the prefetching reader.
 */
module Lj92Reference {
  import opened Bits
  import opened BitStrings
  import opened HuffmanTree
  import opened HuffmanCodes
  import opened Lj92Model
  import opened Lj92Encoder

  // ---------------------------------------------------------------- tables

  /** HUFFSIZE: the length of every code word, and a zero. */
  method Sizes(bits: seq<nat>) returns (huffsize: seq<nat>)
    requires |bits| == LONGEST + 1
    ensures huffsize == Lens(bits, LONGEST) + [0]
  {
    huffsize := [];
    var i := 1;
    while i <= 16
      invariant 1 <= i <= 17 && huffsize == Lens(bits, i - 1)
    {
      var j := 1;
      while j <= bits[i]
        invariant 1 <= j <= bits[i] + 1 && huffsize == Lens(bits, i - 1) + Same(i, j - 1)
      {
        assert Same(i, j) == Same(i, j - 1) + [i];
        huffsize := huffsize + [i];
        j := j + 1;
      }
      i := i + 1;
    }
    huffsize := huffsize + [0];
  }

  /** code, as long as si, is where the k-th interval begins. */
  ghost predicate AtCode(lens: seq<nat>, m: nat, k: nat, code: nat, si: nat)
  {
    k <= |lens| && 1 <= si <= m && Shl(code, m - si) == Start(lens, m, k) && (k < |lens| ==> si <= lens[k])
  }

  lemma {:induction false} CodeStep(bits: seq<nat>, m: nat, k: nat, code: nat, si: nat)
    requires Complete(bits, m) && AtCode(Lens(bits, LONGEST), m, k, code, si)
    requires k < |Lens(bits, LONGEST)| && Lens(bits, LONGEST)[k] == si
    ensures code == Code(Lens(bits, LONGEST), m, k) && AtCode(Lens(bits, LONGEST), m, k + 1, code + 1, si)
  {
    hide Start, Shl, Shr, Pow2, Lens, Code;
    var lens := Lens(bits, LONGEST);
    CodeStarts(bits, m, k);
    ShlInjective(code, Code(lens, m, k), m - si);
    ShlAdd(code, 1, m - si);
    ShlOne(m - si);
    LensBounds(bits, LONGEST, m);
  }

  lemma {:induction false} CodeLonger(lens: seq<nat>, m: nat, k: nat, code: nat, si: nat)
    requires AtCode(lens, m, k, code, si) && k < |lens| && si < lens[k] <= m
    ensures AtCode(lens, m, k, 2 * code, si + 1)
  {
    ShlTwice(code, m - si - 1);
  }

  /** HUFFCODE: the code words in order. */
  method CodesInOrder(huffsize: seq<nat>, ghost bits: seq<nat>, ghost m: nat) returns (huffcode: seq<nat>)
    requires Complete(bits, m) && huffsize == Lens(bits, LONGEST) + [0]
    ensures |huffcode| == |Lens(bits, LONGEST)|
    ensures forall k :: 0 <= k < |huffcode| ==> huffcode[k] == Code(Lens(bits, LONGEST), m, k)
  {
    hide Lens, Code, AtCode, Complete;
    CompleteLength(bits, m);
    ghost var lens := Lens(bits, LONGEST);
    FirstCode(bits, m);
    huffcode := [];
    var k, code := 0, 0;
    var si := huffsize[0];
    while true
      invariant k == |huffcode| <= |lens| && 1 <= si <= m && AtCode(lens, m, k, code, si)
      invariant forall j :: 0 <= j < k ==> huffcode[j] == Code(lens, m, j)
      invariant k < |lens| ==> huffsize[k] == si
      decreases |lens| - k
    {
      while huffsize[k] == si
        invariant k == |huffcode| <= |lens| && 1 <= si <= m && AtCode(lens, m, k, code, si)
        invariant forall j :: 0 <= j < k ==> huffcode[j] == Code(lens, m, j)
        decreases |lens| - k
      {
        CodeStep(bits, m, k, code, si);
        huffcode := huffcode + [code];
        code := code + 1;
        k := k + 1;
      }
      if huffsize[k] == 0 {
        SizePositive(bits, m, k);
        break;
      }
      CodeBelow(lens, m, k, code, si);
      while huffsize[k] != si
        invariant 1 <= si <= m && AtCode(lens, m, k, code, si) && k < |lens| && si <= lens[k]
        decreases lens[k] - si
      {
        SizePositive(bits, m, k);
        CodeLonger(lens, m, k, code, si);
        code := 2 * code;
        si := si + 1;
        CodeBelow(lens, m, k, code, si);
      }
    }
  }

  lemma {:induction false} FirstCode(bits: seq<nat>, m: nat)
    requires Complete(bits, m)
    ensures |Lens(bits, LONGEST)| > 0 && 1 <= Lens(bits, LONGEST)[0] <= m
    ensures AtCode(Lens(bits, LONGEST), m, 0, 0, Lens(bits, LONGEST)[0])
  {
    hide Lens;
    LensBounds(bits, LONGEST, m);
    if |Lens(bits, LONGEST)| == 0 {
      PowPositive(m);
    }
    ShlZero(m - Lens(bits, LONGEST)[0]);
  }

  lemma {:induction false} SizePositive(bits: seq<nat>, m: nat, k: nat)
    requires Complete(bits, m) && k <= |Lens(bits, LONGEST)|
    ensures k < |Lens(bits, LONGEST)| ==> 1 <= Lens(bits, LONGEST)[k] <= m
  {
    LensBounds(bits, LONGEST, m);
  }

  lemma {:induction false} CodeBelow(lens: seq<nat>, m: nat, k: nat, code: nat, si: nat)
    requires AtCode(lens, m, k, code, si)
    ensures 1 <= si <= m && (k < |lens| ==> si <= lens[k])
  {
  }

  /** MINCODE, MAXCODE and VALPTR for every length. */
  ghost predicate Decodable(bits: seq<nat>, m: nat, mincode: seq<int>, maxcode: seq<int>, valptr: seq<int>)
    requires |bits| == LONGEST + 1
  {
    && |mincode| == |maxcode| == |valptr| == LONGEST + 1
    && forall l :: 1 <= l <= LONGEST ==> DecodableAt(bits, m, mincode, maxcode, valptr, l)
  }

  ghost predicate DecodableAt(bits: seq<nat>, m: nat, mincode: seq<int>, maxcode: seq<int>, valptr: seq<int>, l: nat)
    requires |bits| == LONGEST + 1 == |mincode| == |maxcode| == |valptr| && 1 <= l <= LONGEST
  {
    var lens := Lens(bits, LONGEST);
    if bits[l] == 0 then maxcode[l] == -1
    else
      var first := |Lens(bits, l - 1)|;
      && first + bits[l] <= |lens| && valptr[l] == first
      && mincode[l] == Code(lens, m, first) && maxcode[l] == Code(lens, m, first + bits[l] - 1)
  }

  /** Writing the entries of length i leaves the shorter ones alone. */
  lemma {:induction false} EntriesKept(bits: seq<nat>, m: nat, lo: seq<int>, hi: seq<int>, ptr: seq<int>,
                                       lo': seq<int>, hi': seq<int>, ptr': seq<int>, i: nat)
    requires |bits| == LONGEST + 1 == |lo| == |hi| == |ptr| == |lo'| == |hi'| == |ptr'| && i <= LONGEST
    requires forall l :: 1 <= l < i ==> DecodableAt(bits, m, lo, hi, ptr, l)
    requires forall l :: 1 <= l < i ==> lo[l] == lo'[l] && hi[l] == hi'[l] && ptr[l] == ptr'[l]
    ensures forall l :: 1 <= l < i ==> DecodableAt(bits, m, lo', hi', ptr', l)
  {
    hide Lens, Code;
    forall l | 1 <= l < i
      ensures DecodableAt(bits, m, lo', hi', ptr', l)
    {
      assert DecodableAt(bits, m, lo, hi, ptr, l);
    }
  }

  method DecodingTables(bits: seq<nat>, huffcode: seq<nat>, ghost m: nat)
    returns (mincode: seq<int>, maxcode: seq<int>, valptr: seq<int>)
    requires Complete(bits, m) && |huffcode| == |Lens(bits, LONGEST)|
    requires forall k :: 0 <= k < |huffcode| ==> huffcode[k] == Code(Lens(bits, LONGEST), m, k)
    ensures Decodable(bits, m, mincode, maxcode, valptr)
  {
    hide Code;
    mincode := seq<int>(LONGEST + 1, _ => 0);
    maxcode := seq<int>(LONGEST + 1, _ => 0);
    valptr := seq<int>(LONGEST + 1, _ => 0);
    var i, j := 0, 0;
    while true
      invariant i <= 16 && j == |Lens(bits, i)| && |mincode| == |maxcode| == |valptr| == LONGEST + 1
      invariant forall l :: 1 <= l <= i ==> DecodableAt(bits, m, mincode, maxcode, valptr, l)
      decreases 17 - i
    {
      i := i + 1;
      while i <= 16 && bits[i] == 0
        invariant 1 <= i <= 17 && j == |Lens(bits, i - 1)| && |mincode| == |maxcode| == |valptr| == LONGEST + 1
        invariant forall l :: 1 <= l < i ==> DecodableAt(bits, m, mincode, maxcode, valptr, l)
        decreases 17 - i
      {
        EntriesKept(bits, m, mincode, maxcode, valptr, mincode, maxcode[i := -1], valptr, i);
        maxcode := maxcode[i := -1];
        i := i + 1;
      }
      if i > 16 { break; }
      LensPrefix(bits, i, LONGEST);
      ghost var lo, hi, ptr := mincode, maxcode, valptr;
      valptr := valptr[i := j];
      mincode := mincode[i := huffcode[j]];
      j := j + bits[i] - 1;
      maxcode := maxcode[i := huffcode[j]];
      j := j + 1;
      EntriesKept(bits, m, lo, hi, ptr, mincode, maxcode, valptr, i);
    }
  }

  // ---------------------------------------------------------------- DECODE finds the code word

  /** Code words of one length are consecutive numbers. */
  lemma {:induction false} Consecutive(bits: seq<nat>, m: nat, l: nat, v: nat)
    requires Complete(bits, m) && 1 <= l <= LONGEST && v < bits[l]
    ensures |Lens(bits, l - 1)| + v < |Lens(bits, LONGEST)|
    ensures Code(Lens(bits, LONGEST), m, |Lens(bits, l - 1)| + v) == Code(Lens(bits, LONGEST), m, |Lens(bits, l - 1)|) + v
    decreases v
  {
    hide Code, Start, Shl, Pow2, Complete;
    CompleteLength(bits, m);
    LensAt(bits, l, v, LONGEST);
    if v > 0 {
      var lens, k := Lens(bits, LONGEST), |Lens(bits, l - 1)| + v;
      Consecutive(bits, m, l, v - 1);
      LensAt(bits, l, v - 1, LONGEST);
      CodeStarts(bits, m, k - 1);
      CodeStarts(bits, m, k);
      ShlAdd(Code(lens, m, k - 1), 1, m - l);
      ShlOne(m - l);
      ShlInjective(Code(lens, m, k - 1) + 1, Code(lens, m, k), m - l);
    }
  }

  /** A number shifted up and filled from below stays below the next one. */
  lemma {:induction false} BelowNext(code: nat, r: nat, n: nat)
    requires r < Pow2(n)
    ensures Shl(code, n) + r < Shl(code + 1, n)
  {
    ShlAdd(code, 1, n);
    ShlOne(n);
  }

  /** The first l bits of a number that begins with the k-th code word, compared with MAXCODE. */
  lemma {:induction false} DecodeTest(bits: seq<nat>, m: nat, mincode: seq<int>, maxcode: seq<int>, valptr: seq<int>,
                                      x: nat, k: nat, l: nat, code: nat, r: nat)
    requires Complete(bits, m) && Decodable(bits, m, mincode, maxcode, valptr)
    requires var lens := Lens(bits, LONGEST);
             k < |lens| && Start(lens, m, k) <= x < Start(lens, m, k + 1) && 1 <= l <= lens[k] <= m
    requires x == Shl(code, m - l) + r && r < Pow2(m - l)
    ensures code > maxcode[l] <==> l < Lens(bits, LONGEST)[k]
    ensures l == Lens(bits, LONGEST)[k] ==> valptr[l] + code - mincode[l] == k
  {
    hide Code, Start, Shl, Pow2, Complete;
    CompleteLength(bits, m);
    var lens := Lens(bits, LONGEST);
    assert DecodableAt(bits, m, mincode, maxcode, valptr, l);
    BelowNext(code, r, m - l);
    if l < lens[k] {
      if bits[l] > 0 { EarlierWord(bits, m, x, k, l, code); }
    } else {
      ThisWord(bits, m, x, k, code);
      var l', v := LensOf(bits, LONGEST, k);
      Consecutive(bits, m, l, v);
      Consecutive(bits, m, l, bits[l] - 1);
    }
  }

  lemma {:induction false} CompleteLength(bits: seq<nat>, m: nat)
    requires Complete(bits, m)
    ensures |bits| == LONGEST + 1 && m <= LONGEST
  {
  }

  lemma {:induction false} EarlierWord(bits: seq<nat>, m: nat, x: nat, k: nat, l: nat, code: nat)
    requires Complete(bits, m) && 1 <= l <= LONGEST && bits[l] > 0
    requires var lens := Lens(bits, LONGEST); k < |lens| && Start(lens, m, k) <= x && l < lens[k] <= m
    requires x < Shl(code + 1, m - l)
    ensures var j := |Lens(bits, l - 1)| + bits[l] - 1;
            j < |Lens(bits, LONGEST)| && code > Code(Lens(bits, LONGEST), m, j)
  {
    hide Code, Start, Shl, Pow2;
    var lens, j := Lens(bits, LONGEST), |Lens(bits, l - 1)| + bits[l] - 1;
    LensAt(bits, l, bits[l] - 1, LONGEST);
    LensBounds(bits, LONGEST, m);
    assert j < k;
    StartMonotone(lens, m, j + 1, k);
    CodeStarts(bits, m, j);
    ShlAdd(Code(lens, m, j), 1, m - l);
    ShlOne(m - l);
    ShlLess(Code(lens, m, j) + 1, code + 1, m - l);
  }

  lemma {:induction false} ThisWord(bits: seq<nat>, m: nat, x: nat, k: nat, code: nat)
    requires Complete(bits, m)
    requires var lens := Lens(bits, LONGEST);
             k < |lens| && Start(lens, m, k) <= x < Start(lens, m, k + 1) && 1 <= lens[k] <= m
             && Shl(code, m - lens[k]) <= x < Shl(code + 1, m - lens[k])
    ensures code == Code(Lens(bits, LONGEST), m, k)
  {
    hide Code, Start, Shl, Pow2, Lens, Complete;
    CompleteLength(bits, m);
    var lens := Lens(bits, LONGEST);
    var n := m - lens[k];
    CodeStarts(bits, m, k);
    ShlAdd(Code(lens, m, k), 1, n);
    ShlOne(n);
    ShlLess(Code(lens, m, k), code + 1, n);
    ShlLess(code, Code(lens, m, k) + 1, n);
  }

  // ---------------------------------------------------------------- the bit reader

  class SlowLjp {
    const data: Memory
    const table: Table
    const mincode: seq<int>
    const maxcode: seq<int>
    const valptr: seq<int>
    var ix: nat
    var cnt: nat
    var b: nat
    ghost const start: nat
    ghost var pos: nat
    ghost var fetched: nat

    /** b holds the cnt bits from pos on in its upper end. */
    ghost predicate Valid()
      reads this
    {
      && TableOk(table) && Decodable(table.bits, table.m, mincode, maxcode, valptr)
      && cnt <= 8 && pos + cnt == 8 * fetched && ix == RawPos(data, start, fetched)
      && b == Shl(ValueOf(Window(data, start, pos, cnt)), 8 - cnt)
    }

    constructor (mem: Memory, at: nat, t: Table)
      requires TableOk(t)
      ensures Valid() && data == mem && start == at && table == t && pos == 0
    {
      var huffsize := Sizes(t.bits);
      var huffcode := CodesInOrder(huffsize, t.bits, t.m);
      var lo, hi, ptr := DecodingTables(t.bits, huffcode, t.m);
      data, table, start := mem, t, at;
      mincode, maxcode, valptr := lo, hi, ptr;
      ix, cnt, b, pos, fetched := at, 0, 0, 0, 0;
      new;
      assert Window(data, start, 0, 0) == [];
      ShlZero(8);
    }

    /** nextbit: the next bit of the scan, skipping the byte behind 0xFF. */
    method NextBit() returns (bit: nat)
      requires Valid()
      modifies this
      ensures Valid() && pos == old(pos) + 1 && bit == StreamBit(data, start, old(pos))
    {
      hide TableOk, Decodable, Window, Shl, ValueOf;
      if cnt == 0 {
        WholeByte8(data, start, pos, fetched);
        var next := data(ix);
        b := next;
        if next == 0xFF { ix := ix + 1; }
        ix := ix + 1;
        cnt := 8;
        fetched := fetched + 1;
      }
      TopOfBuffer(data, start, pos, cnt);
      bit := b / 128;
      cnt := cnt - 1;
      b := 2 * b % 256;
      pos := pos + 1;
    }

    /** DECODE. */
    method Decode() returns (value: nat)
      requires Valid()
      modifies this
      ensures Valid()
      ensures var k := CodeAt(data, start, table, old(pos));
              k < |table.vals| && value == table.vals[k] && pos == old(pos) + Lengths(table)[k]
    {
      hide TableOk, Decodable, Window, ValueOf, StreamBit, Valid, Lengths;
      ValidTables();
      ghost var p := pos;
      ghost var k := CodeAt(data, start, table, p);
      CodeLength(table, k);
      var i := 1;
      var code := NextBit();
      OneBit(data, start, p);
      TestBits(data, start, table, mincode, maxcode, valptr, p, 1);
      while code > maxcode[i]
        invariant Valid() && 1 <= i <= Lengths(table)[k] && pos == p + i && code == ValueOf(Window(data, start, p, i))
        invariant code > maxcode[i] <==> i < Lengths(table)[k]
        invariant i == Lengths(table)[k] ==> valptr[i] + code - mincode[i] == k
        decreases Lengths(table)[k] - i
      {
        i := i + 1;
        var bit := NextBit();
        code := 2 * code + bit;
        OneMoreBit(data, start, p, i - 1);
        TestBits(data, start, table, mincode, maxcode, valptr, p, i);
      }
      var j := valptr[i];
      j := j + code - mincode[i];
      value := table.vals[j];
    }

    lemma {:induction false} ValidTables()
      requires Valid()
      ensures TableOk(table) && |mincode| == |maxcode| == |valptr| == LONGEST + 1 && table.m <= LONGEST
      ensures |table.bits| == LONGEST + 1 && Decodable(table.bits, table.m, mincode, maxcode, valptr)
    {
    }

    /** RECEIVE. */
    method Receive(ssss: nat) returns (v: nat)
      requires Valid()
      modifies this
      ensures Valid() && pos == old(pos) + ssss && v == ValueOf(Window(data, start, old(pos), ssss))
    {
      hide Valid, Window, ValueOf, StreamBit;
      ghost var p := pos;
      NoBit(data, start, p);
      var i := 0;
      v := 0;
      while i != ssss
        invariant Valid() && i <= ssss && pos == p + i && v == ValueOf(Window(data, start, p, i))
      {
        i := i + 1;
        var bit := NextBit();
        v := 2 * v + bit;
        OneMoreBit(data, start, p, i - 1);
      }
    }

    /** nextdiff in this build: the same residual as the fast one, and the same number of bits. */
    method NextDiff() returns (diff: int)
      requires Valid()
      modifies this
      ensures Valid() && TableOk(table)
      ensures forall f :: diff == DiffAt(data, start, table, Cursor(old(pos), f)).0
                          && pos == DiffAt(data, start, table, Cursor(old(pos), f)).1.pos
    {
      hide Valid, Window, ValueOf, CodeAt, TableOk, Lengths;
      ValidTables();
      var t := Decode();
      var v := Receive(t);
      diff := v;
      // 1 << (t - 1) is undefined for t == 0, but v is 0 then and stays 0 on either branch.
      if diff < Middle(t) {
        diff := diff + (1 - Pow2(t));
      }
    }
  }

  lemma {:induction false} NoBit(mem: Memory, start: nat, p: nat)
    ensures ValueOf(Window(mem, start, p, 0)) == 0
  {
  }

  lemma {:induction false} OneMoreBit(mem: Memory, start: nat, p: nat, n: nat)
    ensures ValueOf(Window(mem, start, p, n + 1)) == 2 * ValueOf(Window(mem, start, p, n)) + StreamBit(mem, start, p + n)
  {
    var w := Window(mem, start, p, n + 1);
    assert w[..n] == Window(mem, start, p, n);
  }

  lemma {:induction false} OneBit(mem: Memory, start: nat, p: nat)
    ensures ValueOf(Window(mem, start, p, 1)) == StreamBit(mem, start, p)
  {
    hide StreamBit;
    NoBit(mem, start, p);
    OneMoreBit(mem, start, p, 0);
  }

  /** A freshly fetched data byte. */
  lemma {:induction false} WholeByte8(mem: Memory, start: nat, pos: nat, fetched: nat)
    requires pos == 8 * fetched
    ensures Shl(ValueOf(Window(mem, start, pos, 8)), 0) == DataByte(mem, start, fetched)
    ensures RawPos(mem, start, fetched + 1) 
            == RawPos(mem, start, fetched) + if DataByte(mem, start, fetched) == 0xFF then 2 else 1
  {
    hide Window, BitsOf;
    WindowByte(mem, start, fetched);
    Pow2Small();
    ValueOfBits(DataByte(mem, start, fetched), 8);
  }

  /** The top bit of the buffer is the next bit, and shifting it out leaves the others. */
  lemma {:induction false} TopOfBuffer(mem: Memory, start: nat, pos: nat, cnt: nat)
    requires 1 <= cnt <= 8
    ensures var b := Shl(ValueOf(Window(mem, start, pos, cnt)), 8 - cnt);
            b / 128 == StreamBit(mem, start, pos)
            && 2 * b % 256 == Shl(ValueOf(Window(mem, start, pos + 1, cnt - 1)), 8 - (cnt - 1))
  {
    hide Window, StreamBit, Shl, ValueOf;
    var bit, rest := StreamBit(mem, start, pos), Window(mem, start, pos + 1, cnt - 1);
    WindowSplit(mem, start, pos, 1, cnt - 1);
    WindowLength(mem, start, pos + 1, cnt - 1);
    ValueConcat(Window(mem, start, pos, 1), rest);
    OneBit(mem, start, pos);
    ValueBound(rest);
    TopBitOut(bit, ValueOf(rest), cnt);
  }

  lemma {:induction false} TopBitOut(bit: Bit, rest: nat, cnt: nat)
    requires 1 <= cnt <= 8 && rest < Pow2(cnt - 1)
    ensures var b := Shl(Shl(bit, cnt - 1) + rest, 8 - cnt);
            b / 128 == bit && 2 * b % 256 == Shl(rest, 8 - (cnt - 1))
  {
    hide Shl, Pow2;
    ShlAdd(Shl(bit, cnt - 1), rest, 8 - cnt);
    ShlTwoSteps(bit, cnt - 1, 8 - cnt);
    ShlUnder(rest, cnt - 1, 8 - cnt);
    SevenShifts(bit);
    DoubleShift(rest, 8 - cnt);
  }

  lemma {:induction false} SevenShifts(bit: Bit)
    ensures Shl(bit, 7) == 128 * bit && Pow2(7) == 128
  {
    if bit == 0 { ShlZero(7); } else { ShlOne(7); }
  }

  lemma {:induction false} DoubleShift(a: nat, n: nat)
    ensures Shl(a, n + 1) == 2 * Shl(a, n)
  {
  }

  /** DecodeTest on the bits of the scan. */
  lemma {:induction false} TestBits(mem: Memory, start: nat, t: Table, mincode: seq<int>, maxcode: seq<int>,
                                    valptr: seq<int>, p: nat, l: nat)
    requires TableOk(t) && |t.bits| == LONGEST + 1 && Decodable(t.bits, t.m, mincode, maxcode, valptr)
    requires 1 <= l <= Lengths(t)[CodeAt(mem, start, t, p)] <= t.m <= LONGEST
    ensures |mincode| == |maxcode| == |valptr| == LONGEST + 1
    ensures var k := CodeAt(mem, start, t, p); var code := ValueOf(Window(mem, start, p, l));
            && (code > maxcode[l] <==> l < Lengths(t)[k])
            && (l == Lengths(t)[k] ==> valptr[l] + code - mincode[l] == k)
  {
    hide Window, ValueOf, DecodableAt, Start, Shl;
    var k, code, rest := CodeAt(mem, start, t, p), ValueOf(Window(mem, start, p, l)), Window(mem, start, p + l, t.m - l);
    WindowSplit(mem, start, p, l, t.m - l);
    WindowLength(mem, start, p + l, t.m - l);
    WindowLength(mem, start, p, t.m);
    ValueConcat(Window(mem, start, p, l), rest);
    ValueBound(rest);
    ValueBound(Window(mem, start, p, t.m));
    DecodeTest(t.bits, t.m, mincode, maxcode, valptr, ValueOf(Window(mem, start, p, t.m)), k, l, code, ValueOf(rest));
  }
}
