/** Exclusive or of unsigned integers, the arithmetic behind the source's `^`. */
module Bits {

  function Pow2(n: nat): (r: nat)
    ensures 0 < r
  {
    if n == 0 then 1 else 2 * Pow2(n - 1)
  }

  lemma Pow2Values()
    ensures Pow2(8) == 256 && Pow2(15) == 0x8000 && Pow2(16) == 0x10000
  {
    assert Pow2(4) == 16;
    assert Pow2(8) == 256;
    assert Pow2(12) == 4096;
    assert Pow2(15) == 0x8000;
  }

  function LowBit(a: nat, b: nat): nat {
    if a % 2 == b % 2 then 0 else 1
  }

  function Xor(a: nat, b: nat): nat
    decreases a, b
  {
    if a == 0 then b
    else if b == 0 then a
    else 2 * Xor(a / 2, b / 2) + LowBit(a, b)
  }

  // The recursion equation, also where one operand is zero.
  lemma XorStep(a: nat, b: nat)
    ensures Xor(a, b) == 2 * Xor(a / 2, b / 2) + LowBit(a, b)
  {
    if a == 0 {
      assert b == 2 * (b / 2) + b % 2;
    } else if b == 0 {
      assert a == 2 * (a / 2) + a % 2;
    }
  }

  lemma {:induction false} XorComm(a: nat, b: nat)
    ensures Xor(a, b) == Xor(b, a)
    decreases a
  {
    if a != 0 {
      XorComm(a / 2, b / 2);
    }
  }

  lemma {:induction false} XorSelf(a: nat)
    ensures Xor(a, a) == 0
  {
    if a != 0 {
      XorSelf(a / 2);
    }
  }

  lemma {:induction false} XorAssoc(a: nat, b: nat, c: nat)
    ensures Xor(Xor(a, b), c) == Xor(a, Xor(b, c))
    decreases a + b + c
  {
    if a != 0 && b != 0 && c != 0 {
      XorAssoc(a / 2, b / 2, c / 2);
      XorHalf(a, b);
      XorHalf(b, c);
      XorStep(Xor(a, b), c);
      XorStep(a, Xor(b, c));
    }
  }

  lemma XorHalf(a: nat, b: nat)
    ensures Xor(a, b) / 2 == Xor(a / 2, b / 2)
    ensures Xor(a, b) % 2 == LowBit(a, b)
  {
    XorStep(a, b);
  }

  // The middle two of four operands change places.
  lemma XorSwap(a: nat, b: nat, c: nat, d: nat)
    ensures Xor(Xor(a, b), Xor(c, d)) == Xor(Xor(a, c), Xor(b, d))
  {
    XorAssoc(a, b, Xor(c, d));
    XorAssoc(b, c, d);
    XorComm(b, c);
    XorAssoc(c, b, d);
    XorAssoc(a, c, Xor(b, d));
  }

  lemma {:induction false} XorBound(a: nat, b: nat, n: nat)
    requires a < Pow2(n) && b < Pow2(n)
    ensures Xor(a, b) < Pow2(n)
    decreases n
  {
    if n != 0 {
      XorBound(a / 2, b / 2, n - 1);
      XorStep(a, b);
    }
  }

  lemma XorShift(u: nat, v: nat, s: nat, t: nat)
    requires s < 2 && t < 2
    ensures Xor(2 * u + s, 2 * v + t) == 2 * Xor(u, v) + LowBit(s, t)
  {
    hide Xor;
    Halve(u, s);
    Halve(v, t);
    XorStep(2 * u + s, 2 * v + t);
  }

  lemma Halve(u: nat, s: nat)
    requires s < 2
    ensures (2 * u + s) / 2 == u && (2 * u + s) % 2 == s
  {
  }

  // Bit fields that do not overlap are combined independently.
  lemma {:induction false} XorFields(lo: nat, lo': nat, hi: nat, hi': nat, n: nat)
    requires lo < Pow2(n) && lo' < Pow2(n)
    ensures Xor(lo + Pow2(n) * hi, lo' + Pow2(n) * hi') == Xor(lo, lo') + Pow2(n) * Xor(hi, hi')
    decreases n, 1
  {
    if n == 0 {
      assert Xor(0, 0) == 0;
    } else {
      XorFieldsLarger(lo, lo', hi, hi', n);
    }
  }

  lemma {:induction false} XorFieldsLarger(lo: nat, lo': nat, hi: nat, hi': nat, n: nat)
    requires 0 < n && lo < Pow2(n) && lo' < Pow2(n)
    ensures Xor(lo + Pow2(n) * hi, lo' + Pow2(n) * hi') == Xor(lo, lo') + Pow2(n) * Xor(hi, hi')
    decreases n, 0
  {
    hide Xor;
    var m := Pow2(n - 1);
    XorFields(lo / 2, lo' / 2, hi, hi', n - 1);
    XorFieldsStep(lo, lo', m * hi, m * hi', m * Xor(hi, hi'));
    TwiceMul(m, hi);
    TwiceMul(m, hi');
    TwiceMul(m, Xor(hi, hi'));
  }

  lemma XorFieldsStep(lo: nat, lo': nat, p: nat, q: nat, r: nat)
    requires Xor(lo / 2 + p, lo' / 2 + q) == Xor(lo / 2, lo' / 2) + r
    ensures Xor(lo + 2 * p, lo' + 2 * q) == Xor(lo, lo') + 2 * r
  {
    hide Xor;
    var (u, v, s, t) := (lo / 2, lo' / 2, lo % 2, lo' % 2);
    assert lo == 2 * u + s && lo' == 2 * v + t;
    XorShift(u, v, s, t);
    XorShift(u + p, v + q, s, t);
    assert 2 * (u + p) + s == lo + 2 * p && 2 * (v + q) + t == lo' + 2 * q;
  }

  lemma TwiceMul(m: nat, x: nat)
    ensures (2 * m) * x == 2 * (m * x)
    ensures 0 <= m * x
  {
  }
}
