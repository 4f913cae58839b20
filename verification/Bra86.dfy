/**
 * The x86 branch filter of Bra86.c: operands of CALL and JMP become absolute addresses and back. Decoding
 * undoes encoding because both passes take the same decision at every opcode.
 */
module Bra86 {
  import opened Bits
  import opened Modular

  /** Test86MSByte: the top byte of a small signed displacement. */
  predicate IsSign(b: nat)
  {
    b == 0 || b == 0xFF
  }

  const MASK_TO_ALLOWED_STATUS: seq<bool> := [true, true, true, false, true, false, false, false]
  const MASK_TO_BIT_NUMBER: seq<nat> := [0, 1, 2, 2, 3, 3, 3, 3]

  /** Which of the three bytes before an opcode were opcodes that have been left alone; bit 0 is the nearest. */
  type Mask = x: nat | x < 8

  /** (mask << n) & 7 for n < 3. */
  function Shifted(mask: Mask, n: nat): Mask
  {
    if n == 0 then mask else if n == 1 then 2 * mask % 8 else if n == 2 then 4 * mask % 8 else 0
  }

  /** The mask at an opcode gap bytes after the last one. */
  function MaskAt(mask: Mask, gap: nat): Mask
    requires gap >= 1
  {
    if gap > 3 then 0 else Shifted(mask, gap - 1)
  }

  /** ((mask << 1) & 7) | 1: the opcode itself has been left alone. */
  function MaskAfter(m: Mask): Mask
  {
    Shifted(m, 1) + 1
  }

  predicate IsOpcode(b: Byte)
  {
    b == 0xE8 || b == 0xE9
  }

  // ---------------------------------------------------------------- operands

  /** A number with one more byte behind it. */
  function Joined(high: nat, low: nat): nat
  {
    high * 0x100 + low
  }

  /** The four bytes behind the opcode as a little-endian number. */
  function Little(s: seq<Byte>): nat
    requires |s| >= 5
  {
    Joined(Joined(Joined(s[4], s[3]), s[2]), s[1])
  }

  function LowByte(v: nat): Byte
  {
    v % 0x100
  }

  /** The operand as it is written back: 24 bits, and bit 24 as the sign. */
  function Operand(dest: nat): (r: seq<Byte>)
    ensures |r| == 4
  {
    [LowByte(dest), LowByte(dest / 0x100), LowByte(dest / 0x1_0000), if dest / 0x100_0000 % 2 == 1 then 0xFF else 0]
  }

  /** Adds or subtracts the address in 32 bits. */
  function Moved(src: nat, address: nat, encoding: bool): nat
  {
    if encoding then (address + src) % B32 else (src - address) % B32
  }

  /** The weight of the byte the mask points at. */
  function Below(index: nat): nat
  {
    if index == 1 then 0x1_0000 else if index == 2 then 0x100 else 1
  }

  /** (Byte)(dest >> (24 - 8 index)) */
  function PointedByte(v: nat, index: nat): nat
  {
    v / Below(index) % 0x100
  }

  /** dest ^ ((1 << (32 - 8 index)) - 1): everything from the pointed byte down is complemented. */
  function Flipped(v: nat, index: nat): nat
  {
    var w := 0x100 * Below(index);
    v / w * w + (w - 1 - v % w)
  }

  /** What the inner loop computes: one pass, and a second one if the pointed byte came out as a sign. */
  function Target(src: nat, address: nat, m: Mask, encoding: bool): nat
  {
    var dest := Moved(src, address, encoding);
    var index := MASK_TO_BIT_NUMBER[m];
    if m == 0 || !IsSign(PointedByte(dest, index)) then dest
    else Moved(Flipped(dest, index), address, encoding)
  }

  /** The opcode at the front of s is converted. */
  predicate Converts(s: seq<Byte>, m: Mask)
    requires |s| >= 5
  {
    && (m != 0 ==> MASK_TO_ALLOWED_STATUS[m] && !IsSign(s[4 - MASK_TO_BIT_NUMBER[m]]))
    && IsSign(s[4])
  }

  // ---------------------------------------------------------------- parts of operands

  /** The pointed byte is the upper byte of the low part. */
  lemma {:induction false} PointedIs(v: nat, index: nat)
    requires 1 <= index <= 3
    ensures PointedByte(v, index) == v % (0x100 * Below(index)) / Below(index)
  {
    DigitOf(v, 0x100, Below(index));
  }

  lemma {:induction false} LastByte(high: nat, low: Byte)
    ensures Joined(high, low) / 0x100 == high && Joined(high, low) % 0x100 == low
  {
    QuotientOf(Joined(high, low), 0x100, high, low);
  }

  lemma {:induction false} TwoLastBytes(high: nat, b: Byte, low: Byte)
    ensures Joined(Joined(high, b), low) / 0x1_0000 == high
  {
    QuotientOf(Joined(Joined(high, b), low), 0x1_0000, high, Joined(b, low));
  }

  lemma {:induction false} LittlePointed(s: seq<Byte>, index: nat)
    requires |s| >= 5 && 1 <= index <= 3
    ensures PointedByte(Little(s), index) == s[4 - index] && Little(s) < B32
  {
    var v1 := Joined(s[4], s[3]);
    var v2 := Joined(v1, s[2]);
    assert Little(s) < B32;
    hide Joined;
    if index == 1 {
      TwoLastBytes(v1, s[2], s[1]);
      LastByte(s[4], s[3]);
    } else if index == 2 {
      LastByte(v2, s[1]);
      LastByte(v1, s[2]);
    } else {
      LastByte(v2, s[1]);
    }
  }

  /** Complementing the low part complements the pointed byte. */
  lemma {:induction false} FlipByte(v: nat, index: nat)
    requires 1 <= index <= 3
    ensures var w := 0x100 * Below(index); Flipped(v, index) % w == w - 1 - v % w
    ensures PointedByte(Flipped(v, index), index) == 0xFF - PointedByte(v, index)
    ensures Flipped(Flipped(v, index), index) == v
  {
    var l := Below(index);
    var w := 0x100 * l;
    QuotientOf(Flipped(v, index), w, v / w, w - 1 - v % w);
    PointedIs(v, index);
    PointedIs(Flipped(v, index), index);
    ComplementDigit(v % w, l);
  }

  lemma {:induction false} ComplementDigit(x: nat, l: nat)
    requires l > 0 && x < 0x100 * l
    ensures (0x100 * l - 1 - x) / l == 0xFF - x / l
  {
    assert x == x / l * l + x % l;
    if x / l > 0xFF { ScaleLe(l, 0x100, x / l); }
    assert 0x100 * l - 1 - x == (0xFF - x / l) * l + (l - 1 - x % l);
    QuotientOf(0x100 * l - 1 - x, l, 0xFF - x / l, l - 1 - x % l);
  }

  /** A modulus that divides 2^32. */
  predicate Divides(c: nat, w: nat)
  {
    c > 0 && w > 0 && c * w == B32
  }

  lemma {:induction false} WidthDivides(index: nat)
    requires 1 <= index <= 3
    ensures Divides(B32 / (0x100 * Below(index)), 0x100 * Below(index))
    ensures Divides(0x80, 0x200_0000) && 0x200_0000 == (0x200_0000 / (0x100 * Below(index))) * (0x100 * Below(index))
  {
  }

  /** Moving looks only at the low part to determine the low part. */
  lemma {:induction false} MovedLow(src: nat, address: nat, encoding: bool, c: nat, w: nat)
    requires Divides(c, w)
    ensures Moved(src, address, encoding) % w
            == if encoding then (address % w + src % w) % w else (src % w - address % w) % w
  {
    if encoding {
      ModMod(address + src, c, w);
      ModAdd(address, src, w);
    } else {
      ModMod(src - address, c, w);
      ModSub(src, address, w);
    }
  }

  /** Moving back. */
  lemma {:induction false} MovedBack(src: nat, y: nat, address: nat, encoding: bool, c: nat, w: nat)
    requires Divides(c, w) && y % w == Moved(src, address, encoding) % w
    ensures Moved(y, address, !encoding) % w == src % w
  {
    MovedLow(src, address, encoding, c, w);
    MovedLow(y, address, !encoding, c, w);
    var a, l := address % w, src % w;
    if encoding { ModOnce(a + l, w); ModOnce(y % w - a, w); } else { ModOnce(l - a, w); ModOnce(a + y % w, w); }
  }

  /** Moving the complement of what has been moved gives the complement. */
  lemma {:induction false} MovedComplement(src: nat, f: nat, address: nat, encoding: bool, c: nat, w: nat)
    requires Divides(c, w) && f % w == w - 1 - Moved(src, address, encoding) % w
    ensures Moved(f, address, encoding) % w == w - 1 - src % w
  {
    MovedLow(src, address, encoding, c, w);
    MovedLow(f, address, encoding, c, w);
    var a, l := address % w, src % w;
    if encoding { ModOnce(a + l, w); ModOnce(a + f % w, w); } else { ModOnce(l - a, w); ModOnce(f % w - a, w); }
  }

  /** After two passes the pointed byte is the complement of the source's: there is no third pass. */
  lemma {:induction false} SecondPass(src: nat, address: nat, index: nat, encoding: bool)
    requires 1 <= index <= 3
    ensures PointedByte(Moved(Flipped(Moved(src, address, encoding), index), address, encoding), index)
            == 0xFF - PointedByte(src, index)
  {
    hide Moved, Flipped, PointedByte;
    var l := Below(index);
    var w := 0x100 * l;
    var d := Moved(src, address, encoding);
    var f := Flipped(d, index);
    FlipByte(d, index);
    WidthDivides(index);
    MovedComplement(src, f, address, encoding, B32 / w, w);
    PointedIs(Moved(f, address, encoding), index);
    PointedIs(src, index);
    ComplementDigit(src % w, l);
  }

  // ---------------------------------------------------------------- the inverse of one conversion

  const SIGN_BITS := 0x200_0000

  /** A 25-bit number with its sign extended to 32 bits. */
  function Extended(v: nat): nat
  {
    if v % SIGN_BITS < 0x100_0000 then v % SIGN_BITS else v % SIGN_BITS + (B32 - SIGN_BITS)
  }

  lemma {:induction false} ExtendedMod(v: nat)
    ensures Extended(v) % SIGN_BITS == v % SIGN_BITS
  {
  }

  /** Three bytes under a sign. */
  lemma {:induction false} BytesOfLow(low: nat, sign: nat)
    requires low < 0x100_0000
    ensures Joined(Joined(Joined(sign, low / 0x1_0000), low % 0x1_0000 / 0x100), low % 0x1_0000 % 0x100)
            == sign * 0x100_0000 + low
  {
    assert low == low / 0x1_0000 * 0x1_0000 + low % 0x1_0000;
    var mid := low % 0x1_0000;
    assert mid == mid / 0x100 * 0x100 + mid % 0x100;
  }

  lemma {:induction false} DestBytes(dest: nat)
    ensures var low := dest % 0x100_0000;
            && LowByte(dest) == low % 0x1_0000 % 0x100 && LowByte(dest / 0x100) == low % 0x1_0000 / 0x100
            && LowByte(dest / 0x1_0000) == low / 0x1_0000
  {
    ModMod(dest, 0x100, 0x1_0000);
    ModMod(dest, 0x100, 0x100);
    DigitOf(dest, 0x100, 0x100);
    DigitOf(dest, 0x100, 0x1_0000);
  }

  function Sign(dest: nat): nat
  {
    if dest / 0x100_0000 % 2 == 1 then 0xFF else 0
  }

  lemma {:induction false} ExtendedParts(dest: nat)
    ensures Extended(dest) == Sign(dest) * 0x100_0000 + dest % 0x100_0000
  {
    var r := dest % SIGN_BITS;
    ModMod(dest, 2, 0x100_0000);
    DigitOf(dest, 2, 0x100_0000);
    assert r == r / 0x100_0000 * 0x100_0000 + r % 0x100_0000;
  }

  /** The bytes written back are the sign-extended number. */
  lemma {:induction false} OperandValue(op: Byte, dest: nat, tail: seq<Byte>)
    ensures Little([op] + Operand(dest) + tail) == Extended(dest)
  {
    hide LowByte, Joined, Extended;
    DestBytes(dest);
    ExtendedParts(dest);
    BytesOfLow(dest % 0x100_0000, Sign(dest));
  }

  /** The bytes of a number are determined by it. */
  lemma {:induction false} OperandBytes(s: seq<Byte>)
    requires |s| >= 5 && IsSign(s[4])
    ensures Operand(Little(s)) == s[1..5]
  {
    hide Little, Joined;
    LittlePointed(s, 1);
    LittlePointed(s, 2);
    LittlePointed(s, 3);
    TopByte(s);
  }

  lemma {:induction false} TopByte(s: seq<Byte>)
    requires |s| >= 5
    ensures Little(s) / 0x100_0000 == s[4]
  {
    var v3 := Joined(Joined(s[3], s[2]), s[1]);
    QuotientOf(Little(s), 0x100_0000, s[4], v3);
  }

  lemma {:induction false} OperandSame(a: nat, b: nat)
    requires a % SIGN_BITS == b % SIGN_BITS
    ensures Operand(a) == Operand(b)
  {
    DigitOf(a, 2, 0x100_0000);
    DigitOf(b, 2, 0x100_0000);
    OperandDigits(a);
    OperandDigits(b);
  }

  lemma {:induction false} OperandDigits(a: nat)
    ensures LowByte(a) == a % SIGN_BITS % 0x100
    ensures LowByte(a / 0x100) == a % SIGN_BITS % 0x1_0000 / 0x100
    ensures LowByte(a / 0x1_0000) == a % SIGN_BITS % 0x100_0000 / 0x1_0000
  {
    ModMod(a, 0x2_0000, 0x100);
    ModMod(a, 0x200, 0x1_0000);
    ModMod(a, 2, 0x100_0000);
    DigitOf(a, 0x100, 0x100);
    DigitOf(a, 0x100, 0x1_0000);
  }

  lemma {:induction false} FlippedBy(v: nat, index: nat)
    ensures var w := 0x100 * Below(index); Flipped(v, index) == v - (2 * (v % w) - (w - 1))
  {
    var w := 0x100 * Below(index);
    assert v == v / w * w + v % w;
  }

  lemma {:induction false} LowPartOfSame(a: nat, b: nat, index: nat)
    requires 1 <= index <= 3 && a % SIGN_BITS == b % SIGN_BITS
    ensures PointedByte(a, index) == PointedByte(b, index)
    ensures Flipped(a, index) % SIGN_BITS == Flipped(b, index) % SIGN_BITS
  {
    hide Flipped, PointedByte;
    var w := 0x100 * Below(index);
    WidthDivides(index);
    ModMod(a, SIGN_BITS / w, w);
    ModMod(b, SIGN_BITS / w, w);
    PointedIs(a, index);
    PointedIs(b, index);
    var t := 2 * (a % w) - (w - 1);
    FlippedBy(a, index);
    FlippedBy(b, index);
    ModSub(a, t, SIGN_BITS);
    ModSub(b, t, SIGN_BITS);
  }

  /**
   * The inner loop is undone by the inner loop in the other direction on what was written back, with the same
   * mask: it takes as many passes.
   */
  lemma {:induction false} TargetBack(src: nat, address: nat, m: Mask, encoding: bool, y: nat)
    requires m == 0 || (1 <= MASK_TO_BIT_NUMBER[m] <= 3 && !IsSign(PointedByte(src, MASK_TO_BIT_NUMBER[m])))
    requires y % SIGN_BITS == Target(src, address, m, encoding) % SIGN_BITS
    ensures Target(y, address, m, !encoding) % SIGN_BITS == src % SIGN_BITS
    ensures m != 0 ==> !IsSign(PointedByte(y, MASK_TO_BIT_NUMBER[m]))
  {
    hide Moved, Flipped, PointedByte;
    var index := MASK_TO_BIT_NUMBER[m];
    var x1 := Moved(src, address, encoding);
    if m == 0 {
      MovedBack(src, y, address, encoding, 0x80, SIGN_BITS);
    } else if !IsSign(PointedByte(x1, index)) {
      MovedBack(src, y, address, encoding, 0x80, SIGN_BITS);
      LowPartOfSame(Moved(y, address, !encoding), src, index);
      LowPartOfSame(y, x1, index);
    } else {
      var f1 := Flipped(x1, index);
      MovedBack(f1, y, address, encoding, 0x80, SIGN_BITS);
      SecondPass(src, address, index, encoding);
      LowPartOfSame(y, Moved(f1, address, encoding), index);
      var y1 := Moved(y, address, !encoding);
      FlipByte(x1, index);
      LowPartOfSame(y1, f1, index);
      MovedBack(src, Flipped(y1, index), address, encoding, 0x80, SIGN_BITS);
    }
  }

  // ---------------------------------------------------------------- a whole pass

  /** What a pass leaves behind: the bytes, how many were processed, and the mask for the next call. */
  datatype Pass = Pass(out: seq<Byte>, processed: nat, state: Mask)

  function Prepend(head: seq<Byte>, r: Pass): Pass
  {
    Pass(head + r.out, |head| + r.processed, r.state)
  }

  /** The bytes with the operand of the opcode at the front replaced. */
  function NewOperand(s: seq<Byte>, address: nat, m: Mask, encoding: bool): (r: seq<Byte>)
    requires |s| >= 5
    ensures |r| == 5 && r[0] == s[0]
  {
    [s[0]] + Operand(Target(Little(s), address, m, encoding))
  }

  /**
   * The rest of the pass over s: address is what is added to the next operand, gap the distance to the last
   * opcode, mask the mask it left.
   */
  function Convert(s: seq<Byte>, address: nat, gap: nat, mask: Mask, encoding: bool): (r: Pass)
    requires gap >= 1
    ensures |r.out| == |s|
  {
    if |s| < 5 then Pass(s, 0, MaskAt(mask, gap))
    else if !IsOpcode(s[0]) then Prepend([s[0]], Convert(s[1..], address + 1, gap + 1, mask, encoding))
    else
      var m := MaskAt(mask, gap);
      if Converts(s, m) then Prepend(NewOperand(s, address, m, encoding), Convert(s[5..], address + 5, 5, m, encoding))
      else Prepend([s[0]], Convert(s[1..], address + 1, 1, MaskAfter(m), encoding))
  }

  /** x86_Convert on a buffer: nothing is done to fewer than five bytes. */
  function ConvertBuffer(data: seq<Byte>, ip: nat, state: Mask, encoding: bool): Pass
  {
    if |data| < 5 then Pass(data, 0, state) else Convert(data, ip + 5, 1, state, encoding)
  }

  /** An opcode e bytes back, gap or more, has been left alone. */
  predicate LeftAlone(mask: Mask, gap: nat, e: nat)
  {
    && gap <= e
    && if e - gap == 0 then mask % 2 == 1
       else if e - gap == 1 then mask / 2 % 2 == 1
       else e - gap == 2 && mask / 4 == 1
  }

  lemma {:induction false} LeftAloneMask(mask: Mask, gap: nat, e: nat)
    requires gap >= 1 && e <= 3 && LeftAlone(mask, gap, e)
    ensures LeftAlone(MaskAt(mask, gap), 1, e)
    ensures e < 3 ==> LeftAlone(MaskAfter(MaskAt(mask, gap)), 1, e + 1)
  {
  }

  /** An allowed mask with an opcode e back points at that opcode's top byte. */
  lemma {:induction false} AllowedMask(m: Mask, e: nat)
    requires 1 <= e <= 3 && LeftAlone(m, 1, e) && MASK_TO_ALLOWED_STATUS[m]
    ensures MASK_TO_BIT_NUMBER[m] == e && m != 0
    ensures forall d :: 1 <= d <= 3 && d != e ==> !LeftAlone(m, 1, d)
  {
  }

  lemma {:induction false} AllowedIndex(m: Mask)
    requires m != 0 && MASK_TO_ALLOWED_STATUS[m]
    ensures 1 <= MASK_TO_BIT_NUMBER[m] <= 3 && LeftAlone(m, 1, MASK_TO_BIT_NUMBER[m])
    ensures MASK_TO_BIT_NUMBER[m] < 3 ==> LeftAlone(MaskAfter(m), 1, MASK_TO_BIT_NUMBER[m] + 1)
    ensures LeftAlone(MaskAfter(m), 1, 1)
  {
  }

  lemma {:induction false} AfterLeavesItself(m: Mask)
    ensures LeftAlone(MaskAfter(m), 1, 1)
  {
  }

  /** A conversion leaves the byte its mask points at different from a sign, and writes a sign on top. */
  lemma {:induction false} NewOperandBytes(s: seq<Byte>, address: nat, m: Mask, encoding: bool)
    requires |s| >= 5 && Converts(s, m)
    ensures var r := NewOperand(s, address, m, encoding);
            && IsSign(r[4]) && (m != 0 ==> !IsSign(r[4 - MASK_TO_BIT_NUMBER[m]]))
            && Converts(r, m) && NewOperand(r, address, m, !encoding) == s[..5]
  {
    hide Target, PointedByte;
    var x := Target(Little(s), address, m, encoding);
    var r := NewOperand(s, address, m, encoding);
    assert r == [s[0]] + Operand(x) + [];
    OperandValue(s[0], x, []);
    ExtendedMod(x);
    if m != 0 {
      AllowedIndex(m);
      LittlePointed(s, MASK_TO_BIT_NUMBER[m]);
      LittlePointed(r, MASK_TO_BIT_NUMBER[m]);
    }
    TargetBack(Little(s), address, m, encoding, Little(r));
    OperandSame(Target(Little(r), address, m, !encoding), Little(s));
    OperandBytes(s);
  }

  /** The top byte of an opcode that was left alone because of it never becomes a sign. */
  lemma {:induction false} TopByteKept(t: seq<Byte>, address: nat, gap: nat, mask: Mask, encoding: bool, e: nat)
    requires 1 <= gap && 1 <= e <= 4 && 4 - e < |t| && !IsSign(t[4 - e])
    requires e <= 3 ==> LeftAlone(mask, gap, e)
    ensures !IsSign(Convert(t, address, gap, mask, encoding).out[4 - e])
    decreases |t|
  {
    hide NewOperand, MaskAt, MaskAfter, Converts;
    if |t| < 5 || e == 4 {
      FirstKept(t, address, gap, mask, encoding);
    } else if !IsOpcode(t[0]) {
      TopByteKept(t[1..], address + 1, gap + 1, mask, encoding, e + 1);
    } else {
      var m := MaskAt(mask, gap);
      LeftAloneMask(mask, gap, e);
      if Converts(t, m) {
        AllowedOf(t, m);
        AllowedMask(m, e);
        NewOperandBytes(t, address, m, encoding);
      } else {
        TopByteKept(t[1..], address + 1, 1, MaskAfter(m), encoding, e + 1);
      }
    }
  }

  lemma {:induction false} AllowedOf(s: seq<Byte>, m: Mask)
    requires |s| >= 5 && Converts(s, m)
    ensures MASK_TO_ALLOWED_STATUS[m]
  {
    if m == 0 { assert MASK_TO_ALLOWED_STATUS[0]; }
  }

  /** The byte at the current position is never written, nor any of the last four. */
  lemma {:induction false} FirstKept(t: seq<Byte>, address: nat, gap: nat, mask: Mask, encoding: bool)
    requires 1 <= gap && |t| >= 1
    ensures Convert(t, address, gap, mask, encoding).out[0] == t[0]
    ensures |t| < 5 ==> Convert(t, address, gap, mask, encoding).out == t
  {
  }

  /** With two opcodes left alone close by, nothing is converted until the second is out of reach. */
  lemma {:induction false} PointedKept(t: seq<Byte>, address: nat, gap: nat, mask: Mask, encoding: bool, e: nat,
                                       d: nat)
    requires 1 <= gap && 1 <= e && 1 <= d && e + d <= 4 && 4 - d - e < |t|
    requires e + d <= 3 ==> LeftAlone(mask, gap, e) && LeftAlone(mask, gap, e + d)
    ensures Convert(t, address, gap, mask, encoding).out[4 - d - e] == t[4 - d - e]
    decreases |t|
  {
    hide NewOperand, MaskAt, MaskAfter, Converts;
    if |t| < 5 || e + d == 4 {
      FirstKept(t, address, gap, mask, encoding);
    } else if !IsOpcode(t[0]) {
      PointedKept(t[1..], address + 1, gap + 1, mask, encoding, e + 1, d);
    } else {
      var m := MaskAt(mask, gap);
      LeftAloneMask(mask, gap, e);
      LeftAloneMask(mask, gap, e + d);
      if Converts(t, m) {
        AllowedOf(t, m);
        AllowedMask(m, e);
      } else {
        PointedKept(t[1..], address + 1, 1, MaskAfter(m), encoding, e + 1, d);
      }
    }
  }

  /** An opcode that was left alone is left alone again in what the pass has made of the bytes behind it. */
  lemma {:induction false} StillLeftAlone(s: seq<Byte>, address: nat, m: Mask, encoding: bool)
    requires |s| >= 5 && !Converts(s, m)
    ensures var r := Convert(s[1..], address, 1, MaskAfter(m), encoding);
            !Converts([s[0]] + r.out, m)
  {
    hide Convert, MaskAfter, LeftAlone;
    var r := Convert(s[1..], address, 1, MaskAfter(m), encoding);
    OutLength(s[1..], address, 1, MaskAfter(m), encoding);
    if m == 0 || (MASK_TO_ALLOWED_STATUS[m] && !IsSign(s[4 - MASK_TO_BIT_NUMBER[m]])) {
      AfterLeavesItself(m);
      TopByteKept(s[1..], address, 1, MaskAfter(m), encoding, 1);
    } else if MASK_TO_ALLOWED_STATUS[m] {
      AllowedIndex(m);
      PointedKept(s[1..], address, 1, MaskAfter(m), encoding, 1, MASK_TO_BIT_NUMBER[m]);
    }
  }

  lemma {:induction false} OutLength(s: seq<Byte>, address: nat, gap: nat, mask: Mask, encoding: bool)
    requires gap >= 1
    ensures |Convert(s, address, gap, mask, encoding).out| == |s|
  {
  }

  /**
   * From any state, the pass in the other direction restores the bytes, stops at the same place, and leaves the same
   * mask.
   */
  lemma {:induction false} ConvertBack(s: seq<Byte>, address: nat, gap: nat, mask: Mask, encoding: bool)
    requires gap >= 1
    ensures var r := Convert(s, address, gap, mask, encoding);
            Convert(r.out, address, gap, mask, !encoding) == Pass(s, r.processed, r.state)
    decreases |s|
  {
    hide NewOperand, MaskAt, MaskAfter, Converts;
    var r := Convert(s, address, gap, mask, encoding);
    if |s| < 5 {
    } else if !IsOpcode(s[0]) {
      ConvertBack(s[1..], address + 1, gap + 1, mask, encoding);
      assert r.out[1..] == Convert(s[1..], address + 1, gap + 1, mask, encoding).out;
      assert s == [s[0]] + s[1..];
    } else {
      var m := MaskAt(mask, gap);
      if Converts(s, m) {
        ConvertBack(s[5..], address + 5, 5, m, encoding);
        var head := NewOperand(s, address, m, encoding);
        NewOperandBytes(s, address, m, encoding);
        HeadDecides(head, r.out, m);
        HeadOperand(head, r.out, address, m, !encoding);
        assert r.out[5..] == Convert(s[5..], address + 5, 5, m, encoding).out;
        assert s == s[..5] + s[5..];
      } else {
        ConvertBack(s[1..], address + 1, 1, MaskAfter(m), encoding);
        StillLeftAlone(s, address + 1, m, encoding);
        assert r.out[1..] == Convert(s[1..], address + 1, 1, MaskAfter(m), encoding).out;
        assert s == [s[0]] + s[1..];
      }
    }
  }

  lemma {:induction false} HeadDecides(head: seq<Byte>, s: seq<Byte>, m: Mask)
    requires |head| == 5 && head <= s
    ensures Converts(s, m) <==> Converts(head, m)
  {
  }

  lemma {:induction false} HeadOperand(head: seq<Byte>, s: seq<Byte>, address: nat, m: Mask, encoding: bool)
    requires |head| == 5 && head <= s
    ensures NewOperand(s, address, m, encoding) == NewOperand(head, address, m, encoding)
  {
  }

  /** x86_Convert with encoding off undoes it with encoding on, and the other way round, from any common state. */
  lemma {:induction false} ConvertInverse(data: seq<Byte>, ip: nat, state: Mask, encoding: bool)
    ensures var r := ConvertBuffer(data, ip, state, encoding);
            ConvertBuffer(r.out, ip, state, !encoding) == Pass(data, r.processed, r.state)
  {
    if |data| >= 5 { ConvertBack(data, ip + 5, 1, state, encoding); }
  }

  // ---------------------------------------------------------------- the pass without masks

  /** Which of the three bytes before were opcodes that have been left alone, the nearest first. */
  type Near = n: seq<bool> | |n| == 3 witness [false, false, false]

  const NONE: Near := [false, false, false]

  function Further(near: Near, leftAlone: bool): Near
  {
    [leftAlone, near[0], near[1]]
  }

  function NearOf(mask: Mask): Near
  {
    [mask % 2 == 1, mask / 2 % 2 == 1, mask / 4 == 1]
  }

  predicate Calls(b: Byte)
  {
    b / 2 == 0x74
  }

  predicate Small(top: Byte)
  {
    top == 0 || top == 0xFF
  }

  /**
   * The opcode at the front of s is taken for a call: its operand is small, and at most one opcode close before it was
   * left alone, whose operand is not small.
   */
  predicate Sure(s: seq<Byte>, near: Near)
    requires |s| >= 5
  {
    && Small(s[4])
    && (near[0] ==> !Small(s[3])) && (near[1] ==> !Small(s[2])) && (near[2] ==> !Small(s[1]))
    && !(near[0] && near[1]) && !(near[0] && near[2]) && !(near[1] && near[2])
  }

  function FromBytes(b0: nat, b1: nat, b2: nat, b3: nat): nat
  {
    b0 + 0x100 * b1 + 0x1_0000 * b2 + 0x100_0000 * b3
  }

  function Displacement(s: seq<Byte>): nat
    requires |s| >= 5
  {
    FromBytes(s[1], s[2], s[3], s[4])
  }

  /** The number of the opcode left alone, or 0. */
  function Which(near: Near): nat
  {
    if near[0] then 1 else if near[1] then 2 else if near[2] then 3 else 0
  }

  /** The bytes of the operand, of which the top one is a copy of bit 24. */
  function Stored(dest: nat): (r: seq<Byte>)
    ensures |r| == 4
  {
    [dest % 0x100, dest / 0x100 % 0x100, dest / 0x1_0000 % 0x100, if dest / 0x100_0000 % 2 == 0 then 0 else 0xFF]
  }

  function MaskOf(e: nat): Mask
  {
    if e == 1 then 1 else if e == 2 then 2 else if e == 3 then 4 else 0
  }

  /** What the pass writes, decided byte by byte from the three bytes before. */
  function Plain(s: seq<Byte>, address: nat, near: Near, encoding: bool): (r: seq<Byte>)
    ensures |r| == |s|
  {
    if |s| < 5 then s
    else if Calls(s[0]) && Sure(s, near) then
      [s[0]] + Stored(Target(Displacement(s), address, MaskOf(Which(near)), encoding))
      + Plain(s[5..], address + 5, NONE, encoding)
    else [s[0]] + Plain(s[1..], address + 1, Further(near, Calls(s[0])), encoding)
  }

  /** The tables spell out what is sure. */
  lemma {:induction false} ConvertsWhen(s: seq<Byte>, m: Mask)
    requires |s| >= 5
    ensures Converts(s, m) <==> Sure(s, NearOf(m))
    ensures Converts(s, m) ==> m == MaskOf(Which(NearOf(m)))
  {
    if m == 0 || m == 1 || m == 2 || m == 4 {
    } else {
      assert !MASK_TO_ALLOWED_STATUS[m];
    }
  }

  lemma {:induction false} SameOperand(s: seq<Byte>, dest: nat)
    requires |s| >= 5
    ensures Little(s) == Displacement(s) && Operand(dest) == Stored(dest)
  {
  }

  lemma {:induction false} CallsAre(b: Byte)
    ensures IsOpcode(b) <==> Calls(b)
  {
  }

  /** The masks keep track of the three bytes before. */
  lemma {:induction false} NearNext(mask: Mask, gap: nat)
    requires gap >= 1
    ensures NearOf(MaskAt(mask, gap + 1)) == Further(NearOf(MaskAt(mask, gap)), false)
    ensures MaskAt(mask, 5) == 0 && NearOf(0) == NONE
  {
    assert MaskAt(mask, gap + 1) == Shifted(MaskAt(mask, gap), 1);
    ShiftedNear(MaskAt(mask, gap));
  }

  lemma {:induction false} ShiftedNear(m: Mask)
    ensures NearOf(Shifted(m, 1)) == Further(NearOf(m), false)
    ensures NearOf(MaskAt(MaskAfter(m), 1)) == Further(NearOf(m), true)
  {
    assert m == 0 || m == 1 || m == 2 || m == 3 || m == 4 || m == 5 || m == 6 || m == 7;
  }

  /** From every mask the pass writes what it is to write. */
  lemma {:induction false} PassIsPlain(s: seq<Byte>, address: nat, gap: nat, mask: Mask, encoding: bool)
    requires gap >= 1
    ensures Convert(s, address, gap, mask, encoding).out == Plain(s, address, NearOf(MaskAt(mask, gap)), encoding)
    decreases |s|
  {
    hide Target, MaskAt, MaskAfter, Converts, Sure, NearOf, Calls, IsOpcode;
    hide Operand, Stored, Further, Little, Displacement;
    if |s| >= 5 {
      var m := MaskAt(mask, gap);
      CallsAre(s[0]);
      NearNext(mask, gap);
      if !IsOpcode(s[0]) {
        PassIsPlain(s[1..], address + 1, gap + 1, mask, encoding);
      } else {
        ConvertsWhen(s, m);
        SameOperand(s, Target(Little(s), address, m, encoding));
        ShiftedNear(m);
        if Converts(s, m) {
          NearNext(m, 1);
          PassIsPlain(s[5..], address + 5, 5, m, encoding);
        } else {
          PassIsPlain(s[1..], address + 1, 1, MaskAfter(m), encoding);
        }
      }
    }
  }

  lemma {:induction false} BufferIsPlain(data: seq<Byte>, ip: nat, state: Mask, encoding: bool)
    ensures ConvertBuffer(data, ip, state, encoding).out == Plain(data, ip + 5, NearOf(state), encoding)
  {
    hide Convert;
    if |data| >= 5 { PassIsPlain(data, ip + 5, 1, state, encoding); }
  }

  /** A buffer without a small operand behind an opcode stays as it is. */
  lemma {:induction false} NothingToConvert(s: seq<Byte>, address: nat, near: Near, encoding: bool)
    requires forall k :: 0 <= k < |s| - 4 && (s[k] == 0xE8 || s[k] == 0xE9) ==> s[k + 4] != 0 && s[k + 4] != 0xFF
    ensures Plain(s, address, near, encoding) == s
    decreases |s|
  {
    if |s| >= 5 {
      assert s[0] == 0xE8 || s[0] == 0xE9 ==> s[0 + 4] != 0 && s[0 + 4] != 0xFF;
      NothingToConvert(s[1..], address + 1, Further(near, Calls(s[0])), encoding);
      assert s == [s[0]] + s[1..];
    }
  }

  /** The operand of an opcode, 25 bits of it. */
  function Signed25(s: seq<Byte>): nat
    requires |s| >= 5
  {
    FromBytes(s[1], s[2], s[3], s[4]) % 0x200_0000
  }

  /**
   * The first opcode with a small operand is converted, and nothing before it: encoded, its operand becomes the address
   * of the byte behind it plus the displacement, in 25 bits under a sign.
   */
  lemma {:induction false} FirstCall(s: seq<Byte>, address: nat, k: nat, encoding: bool)
    requires k + 5 <= |s| && (s[k] == 0xE8 || s[k] == 0xE9) && (s[k + 4] == 0 || s[k + 4] == 0xFF)
    requires forall j :: 0 <= j < k ==> s[j] != 0xE8 && s[j] != 0xE9
    ensures var r := Plain(s, address, NONE, encoding);
            && r[..k + 1] == s[..k + 1] && (r[k + 4] == 0 || r[k + 4] == 0xFF)
            && Signed25(r[k..]) == (Signed25(s[k..]) + if encoding then address + k else 0 - (address + k)) % 0x200_0000
    decreases k
  {
    hide Plain, Signed25;
    var r := Plain(s, address, NONE, encoding);
    if k == 0 {
      assert s[0..] == s && r[0..] == r;
      CallAtFront(s, address, encoding);
    } else {
      NoCallAtFront(s, address, encoding);
      FirstCall(s[1..], address + 1, k - 1, encoding);
      assert r[1..] == Plain(s[1..], address + 1, NONE, encoding);
      assert s[1..][k - 1..] == s[k..] && r[1..][k - 1..] == r[k..];
      assert r[..k + 1] == [r[0]] + r[1..][..k] && s[..k + 1] == [s[0]] + s[1..][..k];
      assert r[k + 4] == r[1..][k - 1 + 4];
    }
  }

  lemma {:induction false} CallAtFront(s: seq<Byte>, address: nat, encoding: bool)
    requires |s| >= 5 && (s[0] == 0xE8 || s[0] == 0xE9) && Small(s[4])
    ensures var r := Plain(s, address, NONE, encoding);
            && r[..1] == s[..1] && Small(r[4])
            && Signed25(r) == (Signed25(s) + if encoding then address else 0 - address) % 0x200_0000
  {
    hide Target, Displacement, Stored, Signed25;
    OnlyMoved(s, address, encoding);
    var d := Target(Displacement(s), address, 0, encoding);
    assert Which(NONE) == 0;
    StoredValue(s[0], d, Plain(s, address, NONE, encoding));
  }

  lemma {:induction false} NoCallAtFront(s: seq<Byte>, address: nat, encoding: bool)
    requires |s| >= 5 && s[0] != 0xE8 && s[0] != 0xE9
    ensures Plain(s, address, NONE, encoding) == [s[0]] + Plain(s[1..], address + 1, NONE, encoding)
  {
  }

  lemma {:induction false} OnlyMoved(s: seq<Byte>, address: nat, encoding: bool)
    requires |s| >= 5
    ensures Target(Displacement(s), address, 0, encoding) % 0x200_0000
            == (Signed25(s) + if encoding then address else 0 - address) % 0x200_0000
  {
    hide Moved, FromBytes;
    MovedIn25(Displacement(s), address, encoding);
  }

  lemma {:induction false} MovedIn25(src: nat, address: nat, encoding: bool)
    ensures Moved(src, address, encoding) % 0x200_0000
            == (src % 0x200_0000 + if encoding then address else 0 - address) % 0x200_0000
  {
    var w := 0x200_0000;
    assert Divides(0x80, w);
    MovedLow(src, address, encoding, 0x80, w);
    QuotientOf(src % w, w, 0, src % w);
    if encoding { ModAdd(src % w, address, w); } else { ModSub(src % w, address, w); }
  }

  lemma {:induction false} StoredValue(op: Byte, dest: nat, r: seq<Byte>)
    requires [op] + Stored(dest) <= r
    ensures |r| >= 5 && Signed25(r) == dest % 0x200_0000 && Small(r[4])
  {
    hide Little, Operand, Stored, Displacement;
    SameOperand(r, dest);
    assert r == [op] + Operand(dest) + r[5..];
    OperandValue(op, dest, r[5..]);
    ExtendedMod(dest);
    OperandTop(dest);
    DisplacementIs(r);
  }

  lemma {:induction false} OperandTop(dest: nat)
    ensures Small(Operand(dest)[3])
  {
  }

  lemma {:induction false} DisplacementIs(r: seq<Byte>)
    requires |r| >= 5
    ensures Signed25(r) == Displacement(r) % 0x200_0000
  {
  }

  /** What the filter is for: calls of the same routine from different places become the same four bytes. */
  lemma {:induction false} SameTarget(s: seq<Byte>, ip: nat, k: nat, s': seq<Byte>, ip': nat, k': nat)
    requires k + 5 <= |s| && (s[k] == 0xE8 || s[k] == 0xE9) && (s[k + 4] == 0 || s[k + 4] == 0xFF)
    requires forall j :: 0 <= j < k ==> s[j] != 0xE8 && s[j] != 0xE9
    requires k' + 5 <= |s'| && (s'[k'] == 0xE8 || s'[k'] == 0xE9) && (s'[k' + 4] == 0 || s'[k' + 4] == 0xFF)
    requires forall j :: 0 <= j < k' ==> s'[j] != 0xE8 && s'[j] != 0xE9
    requires (Signed25(s[k..]) + (ip + k + 5)) % 0x200_0000 == (Signed25(s'[k'..]) + (ip' + k' + 5)) % 0x200_0000
    ensures ConvertBuffer(s, ip, 0, true).out[k + 1..k + 5] == ConvertBuffer(s', ip', 0, true).out[k' + 1..k' + 5]
  {
    hide ConvertBuffer, Plain, Signed25;
    var r, r' := Plain(s, ip + 5, NONE, true), Plain(s', ip' + 5, NONE, true);
    BufferIsPlain(s, ip, 0, true);
    BufferIsPlain(s', ip', 0, true);
    assert NearOf(0) == NONE;
    FirstCall(s, ip + 5, k, true);
    FirstCall(s', ip' + 5, k', true);
    SameFour(r[k..], r'[k'..]);
    assert r[k + 1..k + 5] == r[k..][1..5] && r'[k' + 1..k' + 5] == r'[k'..][1..5];
  }

  lemma {:induction false} SameFour(a: seq<Byte>, b: seq<Byte>)
    requires |a| >= 5 && |b| >= 5 && Small(a[4]) && Small(b[4]) && Signed25(a) == Signed25(b)
    ensures a[1..5] == b[1..5]
  {
    hide Operand, Little, Displacement;
    SameOperand(a, 0);
    SameOperand(b, 0);
    DisplacementIs(a);
    DisplacementIs(b);
    OperandBytes(a);
    OperandBytes(b);
    OperandSame(Little(a), Little(b));
  }

  // ---------------------------------------------------------------- the code

  /** The inner loop; it ends within two passes. */
  method ConvertOperand(operand: nat, address: nat, prevMask: Mask, encoding: bool) returns (dest: nat)
    requires prevMask == 0
             || (MASK_TO_ALLOWED_STATUS[prevMask] && !IsSign(PointedByte(operand, MASK_TO_BIT_NUMBER[prevMask])))
    ensures dest == Target(operand, address, prevMask, encoding)
  {
    hide PointedByte, Flipped, Moved;
    var src := operand;
    ghost var passes := 0;
    while true
      invariant passes == 0 ==> src == operand
      invariant passes > 0 ==>
                  var first := Moved(operand, address, encoding);
                  && passes == 1 && prevMask != 0 && IsSign(PointedByte(first, MASK_TO_BIT_NUMBER[prevMask]))
                  && src == Flipped(first, MASK_TO_BIT_NUMBER[prevMask])
      decreases 2 - passes
    {
      dest := Moved(src, address, encoding);
      if prevMask == 0 { break; }
      AllowedIndex(prevMask);
      SecondPass(operand, address, MASK_TO_BIT_NUMBER[prevMask], encoding);
      var index := MASK_TO_BIT_NUMBER[prevMask];
      if !IsSign(PointedByte(dest, index)) { break; }
      src := Flipped(dest, index);
      passes := passes + 1;
    }
  }

  /** Progress of the pass: what is done, followed by what the rest will become, is the whole result. */
  ghost predicate Underway(was: seq<Byte>, now: seq<Byte>, ip: nat, state: Mask, encoding: bool, pos: nat,
                           prevPos: int, prevMask: Mask)
  {
    && pos <= |now| && |now| == |was| >= 5 && -1 <= prevPos < pos
    && ConvertBuffer(was, ip, state, encoding)
       == Prepend(now[..pos], Convert(now[pos..], ip + 5 + pos, pos - prevPos, prevMask, encoding))
  }

  lemma {:induction false} PassByte(was: seq<Byte>, now: seq<Byte>, ip: nat, state: Mask, encoding: bool, pos: nat,
                                    prevPos: int, prevMask: Mask)
    requires Underway(was, now, ip, state, encoding, pos, prevPos, prevMask) && pos + 4 < |now| && !IsOpcode(now[pos])
    ensures Underway(was, now, ip, state, encoding, pos + 1, prevPos, prevMask)
  {
    hide ConvertBuffer;
    assert now[pos..][1..] == now[pos + 1..] && now[..pos] + [now[pos]] == now[..pos + 1];
    Prepended(now[..pos], [now[pos]], Convert(now[pos + 1..], ip + 5 + pos + 1, pos + 1 - prevPos, prevMask, encoding));
  }

  lemma {:induction false} Prepended(a: seq<Byte>, b: seq<Byte>, r: Pass)
    ensures Prepend(a, Prepend(b, r)) == Prepend(a + b, r)
  {
    assert a + (b + r.out) == (a + b) + r.out;
  }

  lemma {:induction false} LeaveOpcode(was: seq<Byte>, now: seq<Byte>, ip: nat, state: Mask, encoding: bool, pos: nat,
                                       prevPos: int, prevMask: Mask)
    requires Underway(was, now, ip, state, encoding, pos, prevPos, prevMask) && pos + 4 < |now| && IsOpcode(now[pos])
    requires !Converts(now[pos..], MaskAt(prevMask, pos - prevPos))
    ensures Underway(was, now, ip, state, encoding, pos + 1, pos, MaskAfter(MaskAt(prevMask, pos - prevPos)))
  {
    hide ConvertBuffer, MaskAt, MaskAfter, Converts;
    var m := MaskAt(prevMask, pos - prevPos);
    assert now[pos..][1..] == now[pos + 1..] && now[..pos] + [now[pos]] == now[..pos + 1];
    Prepended(now[..pos], [now[pos]], Convert(now[pos + 1..], ip + 5 + pos + 1, 1, MaskAfter(m), encoding));
  }

  lemma {:induction false} ConvertOpcode(was: seq<Byte>, now: seq<Byte>, ip: nat, state: Mask, encoding: bool,
                                         pos: nat, prevPos: int, prevMask: Mask, next: seq<Byte>)
    requires Underway(was, now, ip, state, encoding, pos, prevPos, prevMask) && pos + 4 < |now| && IsOpcode(now[pos])
    requires Converts(now[pos..], MaskAt(prevMask, pos - prevPos))
    requires next == now[..pos] + NewOperand(now[pos..], ip + 5 + pos, MaskAt(prevMask, pos - prevPos), encoding)
                     + now[pos + 5..]
    ensures Underway(was, next, ip, state, encoding, pos + 5, pos, MaskAt(prevMask, pos - prevPos))
  {
    hide ConvertBuffer, MaskAt, Converts, NewOperand;
    var m := MaskAt(prevMask, pos - prevPos);
    var head := NewOperand(now[pos..], ip + 5 + pos, m, encoding);
    assert |head| == 5 by { NewOperandLength(now[pos..], ip + 5 + pos, m, encoding); }
    assert now[pos..][5..] == now[pos + 5..] && next[..pos + 5] == now[..pos] + head
           && next[pos + 5..] == now[pos + 5..];
    Prepended(now[..pos], head, Convert(now[pos + 5..], ip + 5 + pos + 5, 5, m, encoding));
  }

  lemma {:induction false} NewOperandLength(s: seq<Byte>, address: nat, m: Mask, encoding: bool)
    requires |s| >= 5
    ensures |NewOperand(s, address, m, encoding)| == 5
  {
  }

  lemma {:induction false} PassDone(was: seq<Byte>, now: seq<Byte>, ip: nat, state: Mask, encoding: bool, pos: nat,
                                    prevPos: int, prevMask: Mask)
    requires Underway(was, now, ip, state, encoding, pos, prevPos, prevMask) && pos + 4 >= |now|
    ensures ConvertBuffer(was, ip, state, encoding) == Pass(now, pos, MaskAt(prevMask, pos - prevPos))
  {
    hide ConvertBuffer;
    assert now[..pos] + now[pos..] == now;
  }

  lemma {:induction false} Begin(was: seq<Byte>, ip: nat, state: Mask, encoding: bool)
    requires |was| >= 5
    ensures Underway(was, was, ip, state, encoding, 0, -1, state)
  {
    assert was[0..] == was && was[..0] == [];
    assert Prepend([], Convert(was, ip + 5, 1, state, encoding)) == Convert(was, ip + 5, 1, state, encoding);
  }

  lemma {:induction false} PlaceInside(was: seq<Byte>, now: seq<Byte>, ip: nat, state: Mask, encoding: bool, pos: nat,
                                       prevPos: int, prevMask: Mask)
    requires Underway(was, now, ip, state, encoding, pos, prevPos, prevMask)
    ensures pos <= |now| && -1 <= prevPos < pos && |now| >= 5
  {
  }

  /** The next opcode with a whole operand behind it. */
  method FindOpcode(data: array<Byte>, ghost was: seq<Byte>, ghost ip: nat, ghost state: Mask, ghost encoding: bool,
                    from: nat, ghost prevPos: int, ghost prevMask: Mask)
    returns (bufferPos: nat)
    requires Underway(was, data[..], ip, state, encoding, from, prevPos, prevMask)
    ensures from <= bufferPos && Underway(was, data[..], ip, state, encoding, bufferPos, prevPos, prevMask)
    ensures bufferPos + 4 < data.Length ==> IsOpcode(data[bufferPos])
  {
    hide Underway;
    bufferPos := from;
    PlaceInside(was, data[..], ip, state, encoding, bufferPos, prevPos, prevMask);
    var limit := data.Length - 4;
    while bufferPos < limit && !IsOpcode(data[bufferPos])
      invariant from <= bufferPos && Underway(was, data[..], ip, state, encoding, bufferPos, prevPos, prevMask)
    {
      PassByte(was, data[..], ip, state, encoding, bufferPos, prevPos, prevMask);
      bufferPos := bufferPos + 1;
    }
  }

  /** The operand at p is replaced. */
  method Store(data: array<Byte>, p: nat, address: nat, prevMask: Mask, encoding: bool)
    requires p + 4 < data.Length && Converts(data[p..], prevMask)
    modifies data
    ensures data[..] == old(data[..p]) + NewOperand(old(data[p..]), address, prevMask, encoding) + old(data[p + 5..])
  {
    hide Target, PointedByte, Joined, LowByte;
    ghost var was, s := data[..], data[p..];
    if prevMask != 0 {
      AllowedIndex(prevMask);
      LittlePointed(s, MASK_TO_BIT_NUMBER[prevMask]);
    }
    var src := Joined(Joined(Joined(data[p + 4], data[p + 3]), data[p + 2]), data[p + 1]);
    assert src == Little(s);
    var dest := ConvertOperand(src, address, prevMask, encoding);
    WriteBytes(data, p + 1, LowByte(dest), LowByte(dest / 0x100), LowByte(dest / 0x1_0000),
               if dest / 0x100_0000 % 2 == 1 then 0xFF else 0);
    assert data[..] == was[..p] + ([was[p]] + Operand(dest)) + was[p + 5..];
  }

  method WriteBytes(data: array<Byte>, p: nat, b1: Byte, b2: Byte, b3: Byte, b4: Byte)
    requires p + 4 <= data.Length
    modifies data
    ensures data[..] == old(data[..p]) + [b1, b2, b3, b4] + old(data[p + 4..])
  {
    data[p + 3] := b4;
    data[p + 2] := b3;
    data[p + 1] := b2;
    data[p] := b1;
  }

  /** x86_Convert. */
  method X86Convert(data: array<Byte>, ip: nat, state: Mask, encoding: bool) returns (bufferPos: nat, newState: Mask)
    modifies data
    ensures Pass(data[..], bufferPos, newState) == ConvertBuffer(old(data[..]), ip, state, encoding)
    ensures data[..] == Plain(old(data[..]), ip + 5, NearOf(state), encoding)
  {
    hide Underway, NewOperand, Convert, Plain, NearOf;
    ghost var was := data[..];
    BufferIsPlain(was, ip, state, encoding);
    if data.Length < 5 { return 0, state; }
    bufferPos := 0;
    var prevPos: int := -1;
    var prevMask: Mask := state;
    Begin(was, ip, state, encoding);
    while true
      invariant Underway(was, data[..], ip, state, encoding, bufferPos, prevPos, prevMask)
      decreases data.Length - bufferPos
    {
      bufferPos := FindOpcode(data, was, ip, state, encoding, bufferPos, prevPos, prevMask);
      PlaceInside(was, data[..], ip, state, encoding, bufferPos, prevPos, prevMask);
      if bufferPos + 4 >= data.Length { break; }
      ghost var now, was0, mask0 := data[..], prevPos, prevMask;
      var gap := bufferPos - prevPos;
      if gap > 3 {
        prevMask := 0;
      } else {
        prevMask := Shifted(prevMask, gap - 1);
        if prevMask != 0 {
          BitNumbers(prevMask);
          var b := data[bufferPos + 4 - MASK_TO_BIT_NUMBER[prevMask]];
          if !MASK_TO_ALLOWED_STATUS[prevMask] || IsSign(b) {
            LeaveOpcode(was, now, ip, state, encoding, bufferPos, prevPos, mask0);
            prevPos := bufferPos;
            prevMask := MaskAfter(prevMask);
            bufferPos := bufferPos + 1;
            continue;
          }
        }
      }
      prevPos := bufferPos;
      if IsSign(data[bufferPos + 4]) {
        Store(data, bufferPos, ip + 5 + bufferPos, prevMask, encoding);
        ConvertOpcode(was, now, ip, state, encoding, bufferPos, was0, mask0, data[..]);
        bufferPos := bufferPos + 5;
      } else {
        LeaveOpcode(was, now, ip, state, encoding, bufferPos, was0, mask0);
        prevMask := MaskAfter(prevMask);
        bufferPos := bufferPos + 1;
      }
    }
    PassDone(was, data[..], ip, state, encoding, bufferPos, prevPos, prevMask);
    newState := if bufferPos - prevPos > 3 then 0 else Shifted(prevMask, bufferPos - prevPos - 1);
  }

  lemma {:induction false} BitNumbers(m: Mask)
    ensures MASK_TO_BIT_NUMBER[m] <= 3
  {
  }
}
