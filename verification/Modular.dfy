/** Quotients and remainders by a variable divisor. */
module Modular {
  lemma {:induction false} ScaleLe(d: int, a: int, b: int)
    requires d > 0 && a <= b
    ensures a * d <= b * d
  {
  }

  /** Quotient and remainder are determined by their defining equation. */
  lemma {:induction false} QuotientOf(v: int, d: int, q: int, r: int)
    requires d > 0 && v == q * d + r && 0 <= r < d
    ensures v / d == q && v % d == r
  {
    var q', r' := v / d, v % d;
    assert v == q' * d + r';
    if q' < q {
      ScaleLe(d, q' + 1, q);
    } else if q < q' {
      ScaleLe(d, q + 1, q');
    }
  }

  /** A number that is out of range by less than one divisor. */
  lemma {:induction false} ModOnce(v: int, d: int)
    requires d > 0 && 0 - d <= v < 2 * d
    ensures v % d == if v < 0 then v + d else if v < d then v else v - d
  {
    QuotientOf(v, d, if v < 0 then -1 else if v < d then 0 else 1, if v < 0 then v + d else if v < d then v else v - d);
  }

  lemma {:induction false} ModAdd(a: int, b: int, d: int)
    requires d > 0
    ensures (a + b) % d == (a % d + b % d) % d
  {
    var s := a % d + b % d;
    assert a == a / d * d + a % d && b == b / d * d + b % d && s == s / d * d + s % d;
    assert a + b == (a / d + b / d + s / d) * d + s % d;
    QuotientOf(a + b, d, a / d + b / d + s / d, s % d);
  }

  lemma {:induction false} ModSub(a: int, b: int, d: int)
    requires d > 0
    ensures (a - b) % d == (a % d - b % d) % d
  {
    var s := a % d - b % d;
    assert a == a / d * d + a % d && b == b / d * d + b % d && s == s / d * d + s % d;
    assert a - b == (a / d - b / d + s / d) * d + s % d;
    QuotientOf(a - b, d, a / d - b / d + s / d, s % d);
  }

  /** Reducing by a multiple first makes no difference. */
  lemma {:induction false} ModMod(v: int, c: int, d: int)
    requires c > 0 && d > 0
    ensures c * d > 0 && v % (c * d) % d == v % d
  {
    ScaleLe(d, 1, c);
    var q, r := v / (c * d), v % (c * d);
    assert v == q * (c * d) + r && r == r / d * d + r % d;
    assert q * (c * d) == (q * c) * d;
    assert v == (q * c + r / d) * d + r % d;
    QuotientOf(v, d, q * c + r / d, r % d);
  }

  /** The low c of the digits above d. */
  lemma {:induction false} DigitOf(v: nat, c: int, d: int)
    requires c > 0 && d > 0
    ensures c * d > 0 && v / d % c == v % (c * d) / d
  {
    ScaleLe(d, 1, c);
    var q, r := v / (c * d), v % (c * d);
    assert v == q * (c * d) + r && r == r / d * d + r % d;
    assert q * (c * d) == (q * c) * d;
    QuotientOf(v, d, q * c + r / d, r % d);
    if r / d >= c { ScaleLe(d, c, r / d); }
    QuotientOf(v / d, c, q, r / d);
  }

  lemma {:induction false} NextQuotient(k: nat, len: nat)
    requires len > 0
    ensures if k % len + 1 == len then (k + 1) / len == k / len + 1 && (k + 1) % len == 0
            else (k + 1) / len == k / len && (k + 1) % len == k % len + 1
  {
    var q, r := k / len, k % len;
    assert k == q * len + r;
    if r + 1 == len {
      assert k + 1 == (q + 1) * len + 0;
      QuotientOf(k + 1, len, q + 1, 0);
    } else {
      QuotientOf(k + 1, len, q, r + 1);
    }
  }
}
