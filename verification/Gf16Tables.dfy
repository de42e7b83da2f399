/** Logarithm and exponential tables of the field, and the operations that use them. */
module Gf16Tables {
  import opened Bits
  import opened Gf16
  import opened Gf16Order
  import opened Format

  const LOG_ZERO: Elem := 65535

  datatype Tables = Tables(log: seq<Elem>, exp: seq<Elem>)

  // `exp` lists the powers of two, twice around; `log` is its inverse on the non-zero elements.
  ghost predicate TablesOk(t: Tables) {
    && |t.log| == 65536 && |t.exp| == 131070
    && t.log[0] == LOG_ZERO
    && (forall v :: 1 <= v < 65536 ==> t.log[v] < 65535 && Pow(2, t.log[v]) == v)
    && (forall k :: 0 <= k < 131070 ==> t.exp[k] == Pow(2, k))
  }

  // What remains of the operand after `n` shifts is below two to the 16 - n.
  method MulSlow(a0: Elem, b0: Elem) returns (product: Elem)
    ensures product == Mul(a0, b0)
  {
    hide Mul, Add, Double;
    product := 0;
    var a: Elem, b: Elem := a0, b0;
    Pow2Values();
    AddZero(Mul(a, b));
    for i := 0 to 16
      invariant b < Pow2(16 - i)
      invariant Add(product, Mul(a, b)) == Mul(a0, b0)
    {
      MulSlowStep(product, a, b);
      ShiftReduce(a);
      if b % 2 != 0 {
        product := Add(product, a);
      }
      b := b / 2;
      var carry := a >= 0x8000;
      a := (a as nat * 2) % 65536;
      if carry {
        a := Add(a, REDUCTION_POLY_LOW);
      }
    }
    MulZeroRight(a);
    AddZero(product);
  }

  lemma MulSlowStep(product: Elem, a: Elem, b: Elem)
    ensures Add(product, Mul(a, b))
         == Add(if b % 2 != 0 then Add(product, a) else product, Mul(Double(a), b / 2))
  {
    hide Mul, Add, Double;
    MulStep(a, b);
    MulDoubleLeft(a, b / 2);
    var low := if b % 2 == 1 then a else 0;
    var high := Mul(Double(a), b / 2);
    AddComm(high, low);
    AddAssoc(product, low, high);
    AddZero(product);
    AddZero(high);
  }

  lemma ShiftReduce(a: Elem)
    ensures Double(a) == if a >= 0x8000 then Add((a as nat * 2) % 65536, REDUCTION_POLY_LOW) else (a as nat * 2) % 65536
  {
    hide Add;
  }

  method BuildTables() returns (t: Tables)
    ensures TablesOk(t)
  {
    hide Pow, Mul;
    var log := new Elem[65536](_ => LOG_ZERO);
    var exp := new Elem[131070](_ => 0);
    var value: Elem := 1;
    PowZero(2);
    for power := 0 to 65535
      invariant value == Pow(2, power)
      invariant log[0] == LOG_ZERO
      invariant forall j :: 0 <= j < power ==> exp[j] == Pow(2, j) && log[exp[j]] == j
    {
      PowTwoNonZero(power);
      forall j | 0 <= j < power ensures exp[j] != value {
        PowersDistinct(j, power);
      }
      exp[power] := value;
      log[value] := power;
      PowStep(2, power + 1);
      MulComm(value, 2);
      value := MulSlow(value, GENERATOR);
    }
    OrderOfTwo();
    assert value == 1;
    for power := 65535 to 131070
      invariant forall k :: 0 <= k < power ==> exp[k] == Pow(2, k)
      invariant forall j :: 0 <= j < 65535 ==> log[exp[j]] == j
      invariant log[0] == LOG_ZERO
    {
      PowWraps(power - 65535);
      exp[power] := exp[power - 65535];
    }
    forall v: Elem | 1 <= v ensures log[v] < 65535 && Pow(2, log[v]) == v {
      EveryElementIsAPower(v);
      var j: nat :| j < 65535 && Pow(2, j) == v;
      assert exp[j] == v;
    }
    t := Tables(log[..], exp[..]);
  }

  lemma PowZero(a: Elem)
    ensures Pow(a, 0) == 1
  {
  }

  lemma OrderOfTwo()
    ensures Pow(2, 65535) == 1
  {
    MaximalDivisors();
    assert Trivial(65535);
  }

  lemma PowWraps(k: nat)
    ensures Pow(2, k + 65535) == Pow(2, k)
  {
    hide Pow, Mul;
    OrderOfTwo();
    PowAdd(2, k, 65535);
    MulOneRight(Pow(2, k));
  }

  // The tables are determined: each non-zero element is listed exactly once per turn.
  lemma TablesInverse(t: Tables, v: Elem, k: nat)
    requires TablesOk(t) && k < 65535
    ensures v != 0 ==> t.exp[t.log[v]] == v
    ensures t.exp[k] != 0 && t.log[t.exp[k]] == k && t.exp[k + 65535] == t.exp[k]
  {
    hide Pow;
    PowTwoNonZero(k);
    PowWraps(k);
    var j := t.log[t.exp[k]];
    if j < k {
      PowersDistinct(j, k);
    } else if k < j {
      PowersDistinct(k, j);
    }
  }

  lemma TablesUnique(t: Tables, t': Tables)
    requires TablesOk(t) && TablesOk(t')
    ensures t == t'
  {
    hide Pow;
    forall v: Elem ensures t.log[v] == t'.log[v] {
      if v != 0 {
        TablesInverse(t, v, t'.log[v]);
      }
    }
  }

  function MulWith(t: Tables, a: Elem, b: Elem): (r: Elem)
    requires TablesOk(t)
    ensures r == Mul(a, b)
  {
    MulByLogs(t, a, b);
    if a == 0 || b == 0 then 0 else t.exp[t.log[a] as nat + t.log[b] as nat]
  }

  lemma MulByLogs(t: Tables, a: Elem, b: Elem)
    requires TablesOk(t)
    ensures a == 0 || b == 0 ==> Mul(a, b) == 0
    ensures a != 0 && b != 0 ==>
              t.log[a] as nat + t.log[b] as nat < 131070 && t.exp[t.log[a] as nat + t.log[b] as nat] == Mul(a, b)
  {
    hide Pow, Mul;
    MulZeroLeft(b);
    MulZeroRight(a);
    if a != 0 && b != 0 {
      PowAdd(2, t.log[a], t.log[b]);
    }
  }

  function InverseWith(t: Tables, v: Elem): (r: Result<Elem>)
    requires TablesOk(t)
    ensures r == if v == 0 then Err(FecSingularMatrix) else Ok(Inv(v))
  {
    InverseByLog(t, v);
    if v == 0 then Err(FecSingularMatrix) else Ok(t.exp[65535 - t.log[v]])
  }

  lemma InverseByLog(t: Tables, v: Elem)
    requires TablesOk(t)
    ensures v != 0 ==> 1 <= 65535 - t.log[v] <= 65535 && t.exp[65535 - t.log[v]] == Inv(v)
  {
    hide Pow, Mul;
    if v != 0 {
      var k := t.log[v];
      PowAdd(2, k, 65535 - k);
      OrderOfTwo();
      InverseUnique(v, t.exp[65535 - k]);
    }
  }

  // Square-and-multiply with table products.
  method PowWith(t: Tables, base0: Elem, exponent0: nat) returns (result: Elem)
    requires TablesOk(t) && exponent0 <= U32_MAX
    ensures result == Pow(base0, exponent0)
    ensures exponent0 == 65534 && base0 != 0 ==> Ok(result) == InverseWith(t, base0)
  {
    hide Pow, Mul;
    result := 1;
    var base, exponent := base0, exponent0;
    MulOneLeft(Pow(base, exponent));
    while exponent != 0
      invariant Mul(result, Pow(base, exponent)) == Pow(base0, exponent0)
    {
      SquareAndMultiply(result, base, exponent);
      if exponent % 2 != 0 {
        result := MulWith(t, result, base);
      }
      exponent := exponent / 2;
      base := MulWith(t, base, base);
    }
    PowZero(base);
    MulOneRight(result);
    if base0 != 0 {
      InverseIsPower(base0);
    }
  }

  lemma SquareAndMultiply(result: Elem, base: Elem, n: nat)
    requires 0 < n
    ensures Mul(result, Pow(base, n))
         == Mul(if n % 2 != 0 then Mul(result, base) else result, Pow(Mul(base, base), n / 2))
  {
    hide Pow, Mul;
    var h := n / 2;
    PowMul(base, 2, h);
    PowStep(base, 2);
    PowStep(base, 1);
    PowZero(base);
    MulOneRight(base);
    if n % 2 != 0 {
      PowStep(base, n);
      MulAssoc(result, base, Pow(base, 2 * h));
    }
  }
}
