/** The field of 65536 elements: shift-and-reduce multiplication over `Xor`,
    with the reduction polynomial x^16 + x^12 + x^3 + x + 1. */
module Gf16 {
  import opened Bits

  const REDUCTION_POLY_LOW: Elem := 0x100b
  const GENERATOR: Elem := 2

  type Elem = x: nat | x < 65536

  function Add(a: Elem, b: Elem): Elem {
    XorBound16(a, b);
    Xor(a, b)
  }

  // Multiplication by x: shift left in sixteen bits, reducing the carry.
  function Double(a: Elem): Elem {
    if a < 0x8000 then 2 * a else Add(2 * a - 0x10000, REDUCTION_POLY_LOW)
  }

  // Product of two polynomials by Horner's rule on the bits of `b`.
  function Mul(a: Elem, b: Elem): Elem
    decreases b
  {
    if b == 0 then 0
    else Add(Double(Mul(a, b / 2)), if b % 2 == 1 then a else 0)
  }

  function Pow(a: Elem, n: nat): Elem {
    if n == 0 then 1 else Mul(a, Pow(a, n - 1))
  }

  lemma XorBound16(a: nat, b: nat)
    requires a < 65536 && b < 65536
    ensures Xor(a, b) < 65536
  {
    Pow2Values();
    XorBound(a, b, 16);
  }

  // ---------- the additive group ----------

  lemma AddComm(a: Elem, b: Elem)
    ensures Add(a, b) == Add(b, a)
  {
    XorComm(a, b);
  }

  lemma AddAssoc(a: Elem, b: Elem, c: Elem)
    ensures Add(Add(a, b), c) == Add(a, Add(b, c))
  {
    XorAssoc(a, b, c);
  }

  lemma AddSelf(a: Elem)
    ensures Add(a, a) == 0
  {
    XorSelf(a);
  }

  lemma AddZero(a: Elem)
    ensures Add(a, 0) == a && Add(0, a) == a
  {
  }

  lemma OddNext(k: nat)
    requires 2 * k + 1 < 65536
    ensures Add(2 * k, 1) == 2 * k + 1
  {
    if k > 0 {
      assert 2 * k / 2 == k && 1 / 2 == 0 && Xor(k, 0) == k;
      assert Xor(2 * k, 1) == 2 * Xor(k, 0) + LowBit(2 * k, 1);
    }
  }

  lemma AddSwap(a: Elem, b: Elem, c: Elem, d: Elem)
    ensures Add(Add(a, b), Add(c, d)) == Add(Add(a, c), Add(b, d))
  {
    XorSwap(a, b, c, d);
  }

  lemma AddCancel(a: Elem, b: Elem)
    ensures Add(Add(a, b), b) == a
    ensures Add(a, b) == 0 <==> a == b
  {
    AddAssoc(a, b, b);
    AddSelf(b);
    AddZero(a);
    if Add(a, b) == 0 {
      AddZero(b);
    }
  }

  // ---------- doubling is linear ----------

  // The sixteen bits of an element as its low fifteen and its top bit.
  lemma AddParts(a: Elem, b: Elem)
    ensures Add(a, b) % 0x8000 == Add(a % 0x8000, b % 0x8000)
    ensures Add(a, b) / 0x8000 == LowBit(a / 0x8000, b / 0x8000)
    ensures Add(2 * (a % 0x8000), 2 * (b % 0x8000)) == 2 * Add(a % 0x8000, b % 0x8000)
  {
    hide Xor;
    var (lo, lo', s, t) := (a % 0x8000, b % 0x8000, a / 0x8000, b / 0x8000);
    Pow2Values();
    XorFields(lo, lo', s, t, 15);
    XorBound(lo, lo', 15);
    XorShift(lo, lo', 0, 0);
    XorShift(0, 0, s, t);
    XorSelf(0);
  }

  lemma DoubleParts(a: Elem)
    ensures Double(a) == Add(2 * (a % 0x8000), if a / 0x8000 == 1 then REDUCTION_POLY_LOW else 0)
  {
    AddZero(2 * (a % 0x8000));
  }

  lemma DoubleAdd(a: Elem, b: Elem)
    ensures Double(Add(a, b)) == Add(Double(a), Double(b))
  {
    hide *;
    var (c, d) := (if a / 0x8000 == 1 then REDUCTION_POLY_LOW else 0,
                   if b / 0x8000 == 1 then REDUCTION_POLY_LOW else 0);
    var (l, r) := (2 * (a % 0x8000), 2 * (b % 0x8000));
    DoubleParts(a);
    DoubleParts(b);
    DoubleParts(Add(a, b));
    AddParts(a, b);
    AddSwap(l, c, r, d);
    AddSelf(REDUCTION_POLY_LOW);
    AddZero(REDUCTION_POLY_LOW);
    AddZero(0);
    LowBitCases(a / 0x8000, b / 0x8000);
  }

  lemma LowBitCases(s: nat, t: nat)
    requires s < 2 && t < 2
    ensures LowBit(s, t) == (if s == t then 0 else 1)
  {
  }

  // ---------- the ring laws ----------

  // The recursion equation, also at zero.
  lemma MulStep(a: Elem, b: Elem)
    ensures Mul(a, b) == Add(Double(Mul(a, b / 2)), if b % 2 == 1 then a else 0)
  {
    if b == 0 {
      AddZero(0);
    }
  }

  lemma {:induction false} MulAddLeft(a: Elem, b: Elem, c: Elem)
    ensures Mul(Add(a, b), c) == Add(Mul(a, c), Mul(b, c))
    decreases c
  {
    if c == 0 {
      AddZero(0);
    } else {
      MulAddLeft(a, b, c / 2);
      MulAddLeftStep(a, b, c);
    }
  }

  lemma MulAddLeftStep(a: Elem, b: Elem, c: Elem)
    requires Mul(Add(a, b), c / 2) == Add(Mul(a, c / 2), Mul(b, c / 2))
    ensures Mul(Add(a, b), c) == Add(Mul(a, c), Mul(b, c))
  {
    hide *;
    MulStep(Add(a, b), c);
    MulStep(a, c);
    MulStep(b, c);
    DoubleAdd(Mul(a, c / 2), Mul(b, c / 2));
    AddSwap(Double(Mul(a, c / 2)), Double(Mul(b, c / 2)),
            if c % 2 == 1 then a else 0, if c % 2 == 1 then b else 0);
    AddZero(0);
  }

  lemma {:induction false} MulDoubleLeft(a: Elem, b: Elem)
    ensures Mul(Double(a), b) == Double(Mul(a, b))
    decreases b
  {
    if b == 0 {
    } else {
      MulDoubleLeft(a, b / 2);
      MulDoubleLeftStep(a, b);
    }
  }

  lemma MulDoubleLeftStep(a: Elem, b: Elem)
    requires Mul(Double(a), b / 2) == Double(Mul(a, b / 2))
    ensures Mul(Double(a), b) == Double(Mul(a, b))
  {
    hide *;
    MulStep(Double(a), b);
    MulStep(a, b);
    DoubleAdd(Double(Mul(a, b / 2)), if b % 2 == 1 then a else 0);
    DoubleZero();
  }

  lemma DoubleZero()
    ensures Double(0) == 0
  {
  }

  // An element is twice its half plus its lowest bit.
  lemma Halves(b: Elem)
    ensures b == Add(Double(b / 2), b % 2)
  {
    XorShift(b / 2, 0, 0, b % 2);
  }

  lemma {:induction false} MulOneLeft(b: Elem)
    ensures Mul(1, b) == b
  {
    if b != 0 {
      MulOneLeft(b / 2);
      Halves(b);
    }
  }

  lemma {:induction false} MulZeroLeft(b: Elem)
    ensures Mul(0, b) == 0
  {
    if b != 0 {
      MulZeroLeft(b / 2);
    }
  }

  lemma {:induction false} MulComm(a: Elem, b: Elem)
    ensures Mul(a, b) == Mul(b, a)
    decreases b
  {
    if b == 0 {
      MulZeroLeft(a);
    } else {
      MulComm(a, b / 2);
      MulCommStep(a, b);
    }
  }

  lemma MulCommStep(a: Elem, b: Elem)
    requires Mul(a, b / 2) == Mul(b / 2, a)
    ensures Mul(a, b) == Mul(b, a)
  {
    hide *;
    MulStep(a, b);
    Halves(b);
    MulAddLeft(Double(b / 2), b % 2, a);
    MulDoubleLeft(b / 2, a);
    MulOneLeft(a);
    MulZeroLeft(a);
  }

  lemma MulAddRight(a: Elem, b: Elem, c: Elem)
    ensures Mul(a, Add(b, c)) == Add(Mul(a, b), Mul(a, c))
  {
    hide *;
    MulComm(a, Add(b, c));
    MulAddLeft(b, c, a);
    MulComm(a, b);
    MulComm(a, c);
  }

  lemma MulDoubleRight(a: Elem, b: Elem)
    ensures Mul(a, Double(b)) == Double(Mul(a, b))
  {
    hide *;
    MulComm(a, Double(b));
    MulDoubleLeft(b, a);
    MulComm(a, b);
  }

  lemma {:induction false} MulAssoc(a: Elem, b: Elem, c: Elem)
    ensures Mul(Mul(a, b), c) == Mul(a, Mul(b, c))
    decreases c
  {
    if c == 0 {
    } else {
      MulAssoc(a, b, c / 2);
      MulAssocStep(a, b, c);
    }
  }

  lemma MulAssocStep(a: Elem, b: Elem, c: Elem)
    requires Mul(Mul(a, b), c / 2) == Mul(a, Mul(b, c / 2))
    ensures Mul(Mul(a, b), c) == Mul(a, Mul(b, c))
  {
    hide *;
    var bit := if c % 2 == 1 then b else 0;
    MulStep(Mul(a, b), c);
    MulStep(b, c);
    MulAddRight(a, Double(Mul(b, c / 2)), bit);
    MulDoubleRight(a, Mul(b, c / 2));
    MulZeroRight(a);
  }

  lemma MulZeroRight(a: Elem)
    ensures Mul(a, 0) == 0
  {
  }

  lemma MulOneRight(a: Elem)
    ensures Mul(a, 1) == a
  {
    MulComm(a, 1);
    MulOneLeft(a);
  }
}
