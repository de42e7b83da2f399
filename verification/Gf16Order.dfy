/** The element 2 generates the whole multiplicative group, so every non-zero
    element is one of its powers and has an inverse. */
module Gf16Order {
  import opened Bits
  import opened Gf16
  import opened Arithmetic

  // ---------- laws of exponents ----------

  lemma {:induction false} PowAdd(a: Elem, m: nat, n: nat)
    ensures Pow(a, m + n) == Mul(Pow(a, m), Pow(a, n))
    decreases m
  {
    hide Mul;
    if m == 0 {
      MulOneLeft(Pow(a, n));
    } else {
      PowAdd(a, m - 1, n);
      MulAssoc(a, Pow(a, m - 1), Pow(a, n));
    }
  }

  lemma {:induction false} PowMul(a: Elem, m: nat, n: nat)
    ensures Pow(a, m * n) == Pow(Pow(a, m), n)
    decreases n
  {
    hide Mul;
    if n != 0 {
      PowMul(a, m, n - 1);
      PowAdd(a, m, m * (n - 1));
      assert m * n == m + m * (n - 1);
    }
  }

  lemma {:induction false} PowOne(n: nat)
    ensures Pow(1, n) == 1
  {
    if n != 0 {
      PowOne(n - 1);
      MulOneLeft(1);
    }
  }

  lemma MulTwo(a: Elem)
    ensures Mul(2, a) == Double(a)
  {
    MulOneLeft(a);
    MulDoubleLeft(1, a);
  }

  // Doubling loses nothing, so no power of two is zero.
  lemma DoubleNonZero(a: Elem)
    requires a != 0
    ensures Double(a) != 0
  {
    if a >= 0x8000 {
      AddCancel(2 * a - 0x10000, REDUCTION_POLY_LOW);
    }
  }

  lemma {:induction false} PowTwoNonZero(n: nat)
    ensures Pow(2, n) != 0
  {
    if n != 0 {
      PowTwoNonZero(n - 1);
      MulTwo(Pow(2, n - 1));
      DoubleNonZero(Pow(2, n - 1));
    }
  }

  // ---------- powers of two on machine words ----------

  // The unsigned value of a sixteen-bit word.
  function Value(x: bv16): nat
    decreases x
  {
    if x == 0 then 0 else 2 * Value(x >> 1) + LowValue(x)
  }

  function LowValue(x: bv16): nat {
    if x & 1 == 0 then 0 else 1
  }

  // At most `n` low bits of the word are set.
  predicate Fits(x: bv16, n: nat) {
    if n == 0 then x == 0 else Fits(Half(x), n - 1)
  }

  lemma FitsHalf(x: bv16, n: nat)
    requires Fits(Half(x), n)
    ensures Fits(x, n + 1)
  {
    hide Half;
  }

  lemma FitsNibble(x: bv16, n: nat)
    requires Fits(DropNibble(x), n)
    ensures Fits(x, n + 4)
  {
    hide Half, Fits;
    FitsHalf(Half(Half(Half(x))), n);
    FitsHalf(Half(Half(x)), n + 1);
    FitsHalf(Half(x), n + 2);
    FitsHalf(x, n + 3);
  }

  // Sixteen shifts leave nothing.
  lemma DropAll(x: bv16)
    ensures DropNibble(DropNibble(DropNibble(DropNibble(x)))) == 0
  {
  }

  lemma FitsNone()
    ensures Fits(0, 0)
  {
  }

  lemma FitsAll(x: bv16)
    ensures Fits(x, 16)
  {
    hide Fits, DropNibble;
    DropAll(x);
    FitsNone();
    FitsNibble(DropNibble(DropNibble(DropNibble(x))), 0);
    FitsNibble(DropNibble(DropNibble(x)), 4);
    FitsNibble(DropNibble(x), 8);
    FitsNibble(x, 12);
  }

  lemma FitsLow(x: bv16)
    requires x & 0x8000 == 0
    ensures Fits(x, 15)
  {
    ShiftBack(x);
    FitsAll(x << 1);
  }

  lemma ShiftBack(x: bv16)
    requires x & 0x8000 == 0
    ensures (x << 1) >> 1 == x && (x << 1) & 1 == 0
  {
  }

  lemma {:induction false} ValueBound(x: bv16, n: nat)
    requires Fits(x, n)
    ensures Value(x) < Pow2(n)
    decreases n
  {
    if n != 0 {
      ValueBound(x >> 1, n - 1);
    }
  }

  lemma {:induction false} ValueXorFits(x: bv16, y: bv16, z: bv16, n: nat)
    requires Fits(x, n) && Fits(y, n) && z == x ^ y
    ensures Value(z) == Xor(Value(x), Value(y))
    decreases n
  {
    if n == 0 {
    } else {
      ShiftXor(x, y, z);
      ValueXorFits(x >> 1, y >> 1, z >> 1, n - 1);
      ValueXorStep(x, y, z);
    }
  }

  lemma ValueXor(x: bv16, y: bv16)
    ensures Value(x ^ y) == Xor(Value(x), Value(y))
  {
    FitsAll(x);
    FitsAll(y);
    ValueXorFits(x, y, x ^ y, 16);
  }

  lemma ValueXorStep(x: bv16, y: bv16, z: bv16)
    requires Value(z >> 1) == Xor(Value(x >> 1), Value(y >> 1))
    requires LowValue(z) == LowBit(LowValue(x), LowValue(y))
    ensures Value(z) == Xor(Value(x), Value(y))
  {
    hide *;
    ValueStep(x);
    ValueStep(y);
    ValueStep(z);
    LowValueBit(x);
    LowValueBit(y);
    XorShift(Value(x >> 1), Value(y >> 1), LowValue(x), LowValue(y));
  }

  lemma XorZero(a: nat)
    ensures Xor(a, 0) == a && Xor(0, a) == a
  {
  }

  lemma LowValueBit(x: bv16)
    ensures LowValue(x) < 2
  {
  }

  lemma ValueStep(x: bv16)
    ensures Value(x) == 2 * Value(x >> 1) + LowValue(x)
  {
  }

  lemma ShiftXor(x: bv16, y: bv16, z: bv16)
    requires z == x ^ y
    ensures z >> 1 == (x >> 1) ^ (y >> 1)
    ensures LowValue(z) == LowBit(LowValue(x), LowValue(y))
  {
  }

  // `Double` on words.
  function DoubleWord(x: bv16): bv16 {
    if x & 0x8000 == 0 then x << 1 else (x << 1) ^ 0x100b
  }

  // The square of 2a + b from the square s of a, where b is the low bit of `w`.
  function SquareStepWord(s: bv16, w: bv16): bv16 {
    DoubleWord(DoubleWord(s)) ^ (w & 1)
  }

  function Half(w: bv16): bv16 {
    w >> 1
  }

  function DropNibble(w: bv16): bv16 {
    Half(Half(Half(Half(w))))
  }

  function SquareNibble(s: bv16, w: bv16): bv16 {
    SquareStepWord(SquareStepWord(SquareStepWord(SquareStepWord(s, Half(Half(Half(w)))), Half(Half(w))), Half(w)), w)
  }

  function SquareWord(x: bv16): bv16 {
    SquareNibble(SquareNibble(SquareNibble(SquareNibble(0, x >> 12), x >> 8), x >> 4), x)
  }

  function Word(x: bv16): (r: Elem)
    ensures r == Value(x)
  {
    FitsAll(x);
    ValueBound(x, 16);
    Pow2Values();
    Value(x)
  }

  lemma ValueShiftLeft(x: bv16)
    requires x & 0x8000 == 0
    ensures Value(x) < 0x8000 && Value(x << 1) == 2 * Value(x)
  {
    FitsLow(x);
    ValueBound(x, 15);
    Pow2Values();
    ShiftBack(x);
    ValueStep(x << 1);
  }

  lemma ValueConstants()
    ensures Value(0x100b) == 0x100b && Value(0x8000) == 0x8000 && Value(1) == 1 && Value(0) == 0
  {
    assert Value(2) == 2 && Value(8) == 8 && Value(0x20) == 0x20 && Value(0x80) == 0x80;
    assert Value(0x200) == 0x200 && Value(0x800) == 0x800 && Value(0x2000) == 0x2000;
    assert Value(0x201) == 0x201 && Value(0x805) == 0x805;
  }

  lemma DoubleWordValue(x: bv16)
    ensures Value(DoubleWord(x)) == Double(Word(x))
  {
    if x & 0x8000 == 0 {
      ValueShiftLeft(x);
    } else {
      DoubleWordCarry(x, x & 0x7fff);
    }
  }

  lemma TopBit(x: bv16, y: bv16)
    requires x & 0x8000 != 0 && y == x & 0x7fff
    ensures x == y ^ 0x8000 && x << 1 == y << 1 && y & 0x8000 == 0
  {
  }

  lemma DoubleWordCarry(x: bv16, y: bv16)
    requires x & 0x8000 != 0 && y == x & 0x7fff
    ensures Value(DoubleWord(x)) == Double(Word(x))
  {
    hide Double, Word, Value;
    TopBit(x, y);
    ValueShiftLeft(y);
    CarryValue(x, y, y << 1);
  }

  lemma CarryValue(x: bv16, y: bv16, z: bv16)
    requires x == y ^ 0x8000 && Value(y) < 0x8000 && Value(z) == 2 * Value(y)
    ensures Value(z ^ 0x100b) == Double(Word(x))
  {
    hide Xor, Value;
    ValueXor(y, 0x8000);
    ValueXor(z, 0x100b);
    ValueConstants();
    AddTop(Value(y));
  }

  lemma AddTop(v: nat)
    requires v < 0x8000
    ensures Xor(v, 0x8000) == v + 0x8000
  {
    hide Xor;
    Pow2Values();
    XorFields(v, 0, 0, 1, 15);
    XorZero(v);
    XorZero(1);
  }

  // Squaring by Horner's rule: the cross terms cancel in characteristic two.
  lemma SquareStep(a: Elem)
    ensures Mul(a, a) == Add(Double(Double(Mul(a / 2, a / 2))), a % 2)
  {
    hide *;
    var (h, b) := (a / 2, a % 2);
    var d := Double(h);
    Halves(a);
    MulAddLeft(d, b, a);
    MulAddRight(d, d, b);
    MulAddRight(b, d, b);
    MulComm(b, d);
    AddAssoc(Mul(d, d), Mul(d, b), Add(Mul(d, b), Mul(b, b)));
    AddAssoc(Mul(d, b), Mul(d, b), Mul(b, b));
    AddSelf(Mul(d, b));
    AddZero(Mul(b, b));
    MulOneLeft(b);
    MulZeroLeft(b);
    MulDoubleLeft(h, d);
    MulDoubleRight(h, h);
  }

  ghost predicate IsSquare(s: bv16, w: bv16) {
    Value(s) == Mul(Word(w), Word(w))
  }

  lemma StepWordValue(s: bv16)
    ensures Value(DoubleWord(DoubleWord(s))) == Double(Double(Word(s)))
  {
    hide Double, DoubleWord, Value;
    DoubleWordValue(s);
    DoubleWordValue(DoubleWord(s));
  }

  lemma XorLow(d: bv16, w: bv16, b: bv16)
    requires b == w & 1
    ensures LowValue(w) < 2 && Value(d ^ b) == Add(Word(d), LowValue(w))
  {
    hide Add, Value, LowValue;
    ValueXor(d, b);
    LowWord(w);
    LowValueBit(w);
    AddIsXor(Word(d), LowValue(w));
  }

  lemma HalfWord(w: bv16)
    ensures Word(w) / 2 == Word(Half(w)) && Word(w) % 2 == LowValue(w)
  {
    hide Value, LowValue;
    ValueStep(w);
    LowValueBit(w);
    Halve(Value(Half(w)), LowValue(w));
  }

  lemma StepValue(s: bv16, w: bv16)
    ensures LowValue(w) < 2 && Value(SquareStepWord(s, w)) == Add(Double(Double(Word(s))), LowValue(w))
  {
    hide Double, Add, Value, LowValue, DoubleWord, Word;
    StepWordValue(s);
    XorLow(DoubleWord(DoubleWord(s)), w, w & 1);
  }

  lemma SquareStepValue(s: bv16, w: bv16)
    requires IsSquare(s, Half(w))
    ensures IsSquare(SquareStepWord(s, w), w)
  {
    hide Double, Add, Mul, Value, LowValue, Half, Word, SquareStepWord;
    StepValue(s, w);
    HalfWord(w);
    SquareStep(Word(w));
  }

  lemma LowWord(w: bv16)
    ensures Value(w & 1) == LowValue(w)
  {
    assert (w & 1) >> 1 == 0;
  }

  lemma AddIsXor(a: Elem, b: nat)
    requires b < 2
    ensures Add(a, b) == Xor(a, b)
  {
  }

  lemma SquareNibbleValue(s: bv16, w: bv16)
    requires IsSquare(s, DropNibble(w))
    ensures IsSquare(SquareNibble(s, w), w)
  {
    hide IsSquare, SquareStepWord, Half;
    var s3 := SquareStepWord(s, Half(Half(Half(w))));
    var s2 := SquareStepWord(s3, Half(Half(w)));
    SquareStepValue(s, Half(Half(Half(w))));
    SquareStepValue(s3, Half(Half(w)));
    SquareStepValue(s2, Half(w));
    SquareStepValue(SquareStepWord(s2, Half(w)), w);
  }

  lemma SquareWordValue(x: bv16)
    ensures Value(SquareWord(x)) == Mul(Word(x), Word(x))
  {
    hide SquareNibble, Mul, DropNibble;
    assert IsSquare(0, 0) by { ValueConstants(); MulZeroLeft(0); }
    var s3 := SquareNibble(0, x >> 12);
    var s2 := SquareNibble(s3, x >> 8);
    ShiftShift(x);
    DropIsShift(x);
    DropIsShift(x >> 4);
    DropIsShift(x >> 8);
    DropIsShift(x >> 12);
    SquareNibbleValue(0, x >> 12);
    SquareNibbleValue(s3, x >> 8);
    SquareNibbleValue(s2, x >> 4);
    SquareNibbleValue(SquareNibble(s2, x >> 4), x);
  }

  lemma DropIsShift(x: bv16)
    ensures DropNibble(x) == x >> 4
  {
  }

  lemma ShiftShift(x: bv16)
    ensures (x >> 12) >> 4 == 0 && (x >> 8) >> 4 == x >> 12 && (x >> 4) >> 4 == x >> 8
  {
  }

  // ---------- the order of 2 ----------

  ghost predicate IsPow(c: bv16, n: nat) {
    Value(c) == Pow(2, n)
  }

  lemma Even(c: bv16, n: nat, d: bv16)
    requires IsPow(c, n) && d == SquareWord(c)
    ensures IsPow(d, 2 * n)
  {
    hide Mul, Value, SquareWord;
    SquareWordValue(c);
    PowAdd(2, n, n);
  }

  lemma Odd(c: bv16, n: nat, d: bv16)
    requires IsPow(c, n) && d == DoubleWord(SquareWord(c))
    ensures IsPow(d, 2 * n + 1)
  {
    hide Mul, Value, SquareWord, DoubleWord, Double;
    Even(c, n, SquareWord(c));
    DoubleWordValue(SquareWord(c));
    MulTwo(Pow(2, 2 * n));
  }

  lemma PowTwo255()
    requires IsPow(0x8000, 15)
    ensures IsPow(0x8d92, 255)
  {
    hide IsPow;
    Odd(0x8000, 15, 0x0dff);
    Odd(0x0dff, 31, 0x2e12);
    Odd(0x2e12, 63, 0xfb26);
    Odd(0xfb26, 127, 0x8d92);
  }

  lemma PowTwo3855()
    requires IsPow(0x8000, 15)
    ensures IsPow(0x4d78, 3855)
  {
    hide IsPow;
    Even(0x8000, 15, 0x8efa);
    Even(0x8efa, 30, 0xc9c5);
    Even(0xc9c5, 60, 0x27b7);
    Even(0x27b7, 120, 0x6b65);
    Odd(0x6b65, 240, 0x9711);
    Odd(0x9711, 481, 0xb9b3);
    Odd(0xb9b3, 963, 0xc895);
    Odd(0xc895, 1927, 0x4d78);
  }

  lemma PowTwo13107()
    requires IsPow(0x1000, 12)
    ensures IsPow(0x1ce8, 13107)
  {
    hide IsPow;
    Odd(0x1000, 12, 0x3776);
    Odd(0x3776, 25, 0x41be);
    Even(0x41be, 51, 0xfee4);
    Even(0xfee4, 102, 0x167d);
    Odd(0x167d, 204, 0xbcfa);
    Odd(0xbcfa, 409, 0xe977);
    Even(0xe977, 819, 0x0c5f);
    Even(0x0c5f, 1638, 0x4302);
    Odd(0x4302, 3276, 0xe73b);
    Odd(0xe73b, 6553, 0x1ce8);
  }

  lemma PowTwo21845()
    requires IsPow(0x0400, 10)
    ensures IsPow(0x015e, 21845)
  {
    hide IsPow;
    Odd(0x0400, 10, 0x2176);
    Even(0x2176, 21, 0x6bf3);
    Odd(0x6bf3, 42, 0x1539);
    Even(0x1539, 85, 0x1e4a);
    Odd(0x1e4a, 170, 0x3308);
    Even(0x3308, 341, 0x2530);
    Odd(0x2530, 682, 0xd6b8);
    Even(0xd6b8, 1365, 0x2b2d);
    Odd(0x2b2d, 2730, 0xf0ec);
    Even(0xf0ec, 5461, 0x0446);
    Odd(0x0446, 10922, 0x015e);
  }

  lemma PowTwo65535()
    requires IsPow(0x8d92, 255)
    ensures IsPow(0x0001, 65535)
  {
    hide IsPow;
    Odd(0x8d92, 255, 0x0b4f);
    Odd(0x0b4f, 511, 0x053c);
    Odd(0x053c, 1023, 0x0bc0);
    Odd(0x0bc0, 2047, 0x8596);
    Odd(0x8596, 4095, 0x8eb7);
    Odd(0x8eb7, 8191, 0xa323);
    Odd(0xa323, 16383, 0x7863);
    Odd(0x7863, 32767, 0x0001);
  }

  ghost predicate Prime(p: nat) {
    1 < p && forall d :: 1 < d < p ==> p % d != 0
  }

  lemma SmallPrimes()
    ensures Prime(3) && Prime(5) && Prime(17)
  {
  }

  lemma Prime257()
    ensures Prime(257)
  {
  }

  // Euclid's lemma, by descent on the second factor.
  lemma {:induction false} EuclidSmall(p: nat, g: nat, m: nat, q: int)
    requires Prime(p) && 0 < m < p && g * m == p * q
    ensures g % p == 0
    decreases m
  {
    if m == 1 {
      Divides(g, p, q);
    } else {
      var (k, r) := (p / m, p % m);
      assert p == k * m + r;
      calc {
        g * r;
        g * (p - k * m);
        g * p - k * (g * m);
        { assert k * (p * q) == p * (k * q); }
        p * (g - k * q);
      }
      EuclidSmall(p, g, r, g - k * q);
    }
  }

  lemma Euclid(p: nat, g: nat, m: nat, q: nat)
    requires Prime(p) && g * m == p * q
    ensures g % p == 0 || m % p == 0
  {
    var (k, r) := (m / p, m % p);
    if r != 0 {
      calc {
        g * r;
        g * (m - k * p);
        { assert g * (k * p) == p * (k * g); }
        p * (q - k * g);
      }
      EuclidSmall(p, g, r, q - k * g);
    }
  }

  // Two exponents of the identity have a common divisor that is one too.
  lemma {:induction false} CommonExponent(a: nat, b: nat) returns (g: nat, u: nat, v: nat)
    requires 0 < a && 0 < b && Pow(2, a) == 1 && Pow(2, b) == 1
    ensures 0 < g && a == g * u && b == g * v && Pow(2, g) == 1
    decreases a + b
  {
    hide Pow, Mul;
    if a == b {
      g, u, v := a, 1, 1;
    } else if a > b {
      PowAdd(2, a - b, b);
      MulOneRight(Pow(2, a - b));
      g, u, v := CommonExponent(a - b, b);
      assert g * (u + v) == g * u + g * v;
      u := u + v;
    } else {
      PowAdd(2, b - a, a);
      MulOneRight(Pow(2, b - a));
      g, u, v := CommonExponent(a, b - a);
      assert g * (u + v) == g * u + g * v;
      v := u + v;
    }
  }

  ghost predicate Trivial(n: nat) {
    Pow(2, n) == 1
  }

  lemma TrivialMultiple(g: nat, k: nat)
    requires Trivial(g)
    ensures Trivial(g * k)
  {
    hide Pow;
    PowMul(2, g, k);
    PowOne(k);
  }

  // What the word computations say about the four maximal divisors of 65535.
  lemma MaximalDivisors()
    ensures !Trivial(21845) && !Trivial(13107) && !Trivial(3855) && !Trivial(255)
    ensures Trivial(65535)
  {
    SmallPowers();
    PowTwo255();
    PowTwo3855();
    PowTwo13107();
    PowTwo21845();
    PowTwo65535();
    ValueConstants();
    NotOne(0x8d92);
    NotOne(0x4d78);
    NotOne(0x1ce8);
    NotOne(0x015e);
  }

  lemma NotOne(c: bv16)
    requires c != 1
    ensures Value(c) != 1
  {
    if Value(c) == 1 && c >> 1 != 0 {
      NonZeroValue(c >> 1);
    }
  }

  lemma {:induction false} NonZeroValue(w: bv16)
    requires w != 0
    ensures Value(w) != 0
    decreases w
  {
    if w >> 1 != 0 {
      NonZeroValue(w >> 1);
    }
  }

  lemma SmallPowers()
    ensures IsPow(0x400, 10) && IsPow(0x1000, 12) && IsPow(0x8000, 15)
  {
    ValueConstants();
    assert IsPow(1, 0);
    Odd(1, 0, 2);
    Even(2, 1, 4);
    Odd(2, 1, 8);
    Odd(4, 2, 0x20);
    Even(8, 3, 0x40);
    Odd(8, 3, 0x80);
    Even(0x20, 5, 0x400);
    Even(0x40, 6, 0x1000);
    Odd(0x80, 7, 0x8000);
  }

  // A trivial power c * a, with a * m = p * n, whose co-factor m cannot hold the prime p.
  lemma SplitFactor(c: nat, p: nat, a: nat, m: nat, n: nat)
    requires Prime(p) && a * m == p * n && Trivial(c * a) && !Trivial(c * n)
    ensures a % p == 0 && (a / p) * m == n
  {
    hide Trivial;
    Euclid(p, a, m, n);
    if m % p == 0 {
      var k := m / p;
      CancelFactor(p, k, a, n);
      assert (c * a) * k == c * (k * a);
      TrivialMultiple(c * a, k);
    } else {
      CancelFactor(p, a / p, m, n);
    }
  }

  lemma CancelFactor(p: nat, a: nat, m: nat, n: nat)
    requires 0 < p && (p * a) * m == p * n
    ensures a * m == n
  {
    assert p * (a * m) == p * n;
  }

  lemma NoProperDivisor(g: nat, m: nat)
    requires g * m == 65535 && Trivial(g)
    ensures m == 1
  {
    hide Trivial, Prime;
    SmallPrimes();
    Prime257();
    MaximalDivisors();
    SplitFactor(1, 3, g, m, 21845);
    SplitFactor(3, 5, g / 3, m, 4369);
    SplitFactor(15, 17, g / 3 / 5, m, 257);
    SplitFactor(255, 257, g / 3 / 5 / 17, m, 1);
    UnitFactor(g / 3 / 5 / 17 / 257, m);
  }

  lemma UnitFactor(a: nat, m: nat)
    requires a * m == 1
    ensures m == 1
  {
  }

  // 2 has order exactly 65535.
  lemma TwoIsPrimitive(n: nat)
    requires 0 < n < 65535
    ensures Pow(2, n) != 1
  {
    hide Pow;
    if Pow(2, n) == 1 {
      assert Pow(2, 65535) == 1 by { MaximalDivisors(); assert Trivial(65535); }
      var g, u, v := CommonExponent(n, 65535);
      UnitAtLeast(g, u, n);
      assert Trivial(g);
      NoProperDivisor(g, v);
    }
  }

  lemma UnitAtLeast(g: nat, u: nat, n: nat)
    requires 0 < n && n == g * u
    ensures n >= g
  {
    if u == 0 {
    } else {
      MulGrows(g, u);
    }
  }

  lemma PowersDistinct(i: nat, j: nat)
    requires i < j < 65535
    ensures Pow(2, i) != Pow(2, j)
  {
    hide Pow, Mul;
    TwoIsPrimitive(j - i);
    PowAdd(2, j - i, i);
    if Pow(2, i) == Pow(2, j) {
      PowTwoCancel(Pow(2, j - i), i);
    }
  }

  // A power of two can be cancelled.
  lemma PowTwoCancel(a: Elem, i: nat)
    requires i <= 65535 && Mul(a, Pow(2, i)) == Pow(2, i)
    ensures a == 1
  {
    hide Pow, Mul;
    var q := Pow(2, 65535 - i);
    PowAdd(2, i, 65535 - i);
    assert Mul(Pow(2, i), q) == 1 by { MaximalDivisors(); assert Trivial(65535); }
    MulAssoc(a, Pow(2, i), q);
    MulOneRight(a);
  }

  // ---------- every non-zero element is a power of two ----------

  ghost function FirstPowers(k: nat): set<nat> {
    set j | 0 <= j < k :: Pow(2, j) as nat
  }

  lemma {:induction false} FirstPowersSize(k: nat)
    requires k <= 65535
    ensures |FirstPowers(k)| == k
  {
    if k != 0 {
      FirstPowersSize(k - 1);
      forall j | 0 <= j < k - 1 ensures Pow(2, j) != Pow(2, k - 1) {
        PowersDistinct(j, k - 1);
      }
      assert FirstPowers(k) == FirstPowers(k - 1) + {Pow(2, k - 1) as nat};
    }
  }

  ghost function UpTo(n: nat): (s: set<nat>)
    ensures |s| == n
    ensures forall v :: v in s <==> 1 <= v <= n
  {
    if n == 0 then {} else UpTo(n - 1) + {n}
  }

  lemma SubsetOfSameSize(a: set<nat>, b: set<nat>)
    requires a <= b && |a| == |b|
    ensures a == b
  {
    assert b == a + (b - a);
    assert |b| == |a| + |b - a|;
  }

  lemma EveryElementIsAPower(v: Elem)
    requires v != 0
    ensures exists j: nat :: j < 65535 && Pow(2, j) == v
  {
    hide Pow;
    FirstPowersSize(65535);
    forall x | x in FirstPowers(65535) ensures x in UpTo(65535) {
      var j: nat :| j < 65535 && x == Pow(2, j);
      PowTwoNonZero(j);
    }
    SubsetOfSameSize(FirstPowers(65535), UpTo(65535));
    assert v in UpTo(65535);
  }

  // ---------- inverses ----------

  lemma InverseExists(v: Elem)
    requires v != 0
    ensures Mul(v, Pow(v, 65534)) == 1
  {
    hide Pow, Mul;
    EveryElementIsAPower(v);
    var j: nat :| j < 65535 && Pow(2, j) == v;
    PowStep(v, 65535);
    PowMul(2, j, 65535);
    PowMul(2, 65535, j);
    assert Pow(2, 65535) == 1 by { MaximalDivisors(); assert Trivial(65535); }
    PowOne(j);
  }

  // The multiplicative inverse; zero for zero.
  ghost function Inv(v: Elem): Elem {
    if v == 0 then 0
    else
      InverseExists(v);
      var i: Elem :| Mul(v, i) == 1;
      i
  }

  lemma InverseLaw(v: Elem)
    requires v != 0
    ensures Mul(v, Inv(v)) == 1 && Inv(v) != 0
  {
    hide Mul;
    MulZeroRight(v);
  }

  // The last power before the order is the inverse.
  lemma InverseIsPower(v: Elem)
    requires v != 0
    ensures Inv(v) == Pow(v, 65534)
  {
    hide Mul, Pow, Inv;
    InverseExists(v);
    InverseUnique(v, Pow(v, 65534));
  }

  lemma PowStep(a: Elem, n: nat)
    requires 0 < n
    ensures Pow(a, n) == Mul(a, Pow(a, n - 1))
  {
  }

  lemma NoZeroDivisors(a: Elem, b: Elem)
    requires Mul(a, b) == 0
    ensures a == 0 || b == 0
  {
    hide *;
    if a != 0 {
      InverseLaw(a);
      MulComm(a, Inv(a));
      MulAssoc(Inv(a), a, b);
      MulOneLeft(b);
      MulZeroRight(Inv(a));
    }
  }

  lemma InverseUnique(a: Elem, b: Elem)
    requires Mul(a, b) == 1
    ensures b == Inv(a)
  {
    hide *;
    if a == 0 {
      MulZeroLeft(b);
    } else {
      InverseLaw(a);
      MulComm(a, b);
      MulAssoc(b, a, Inv(a));
      MulOneLeft(Inv(a));
      MulOneRight(b);
    }
  }
}
