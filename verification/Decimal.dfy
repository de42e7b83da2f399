/** Unsigned decimal text in its canonical, minimal form. */
module Decimal {
  import opened Format

  type Text = seq<byte>

  // Position of the first `b` at or after `c`.
  function Find(p: Text, c: nat, b: byte): (r: Option<nat>)
    ensures r.Some? ==> c <= r.value < |p| && p[r.value] == b && forall i :: c <= i < r.value ==> p[i] != b
    ensures r.None? ==> forall i :: c <= i < |p| ==> p[i] != b
    decreases |p| - c
  {
    if c >= |p| then None else if p[c] == b then Some(c) else Find(p, c + 1, b)
  }

  // `Find` stops at the first occurrence.
  lemma {:induction false} FirstAtFrom(s: Text, b: byte, c: nat, k: nat)
    requires c <= k < |s| && s[k] == b && forall i :: c <= i < k ==> s[i] != b
    ensures Find(s, c, b) == Some(k)
    decreases k - c
  {
    if c < k {
      FirstAtFrom(s, b, c + 1, k);
    }
  }

  lemma FirstAt(s: Text, b: byte, k: nat)
    requires k < |s| && s[k] == b && forall i :: 0 <= i < k ==> s[i] != b
    ensures Find(s, 0, b) == Some(k)
  {
    FirstAtFrom(s, b, 0, k);
  }

  predicate IsDigit(b: byte) {
    48 <= b <= 57
  }

  predicate AllDigits(s: Text) {
    forall i :: 0 <= i < |s| ==> IsDigit(s[i])
  }

  predicate Minimal(s: Text) {
    s != [] && AllDigits(s) && (|s| == 1 || s[0] != 48)
  }

  // `to_string` of an unsigned integer.
  function Print(n: nat): (s: Text)
    ensures Minimal(s)
    ensures n != 0 ==> s[0] != 48
  {
    if n < 10 then [48 + n] else Print(n / 10) + [48 + n % 10]
  }

  function Value(s: Text): nat
    requires AllDigits(s)
  {
    if |s| == 0 then 0 else 10 * Value(s[..|s| - 1]) + (s[|s| - 1] - 48)
  }

  function Pow10(k: nat): (r: nat)
    ensures 0 < r
  {
    if k == 0 then 1 else 10 * Pow10(k - 1)
  }

  lemma {:induction false} ValuePrint(n: nat)
    ensures Value(Print(n)) == n
  {
    if n >= 10 {
      ValuePrint(n / 10);
      assert Print(n)[..|Print(n)| - 1] == Print(n / 10);
    } else {
      assert Print(n)[..0] == [];
    }
  }

  lemma {:induction false} PrintValue(s: Text)
    requires Minimal(s)
    ensures Print(Value(s)) == s
  {
    var h := s[..|s| - 1];
    assert s == h + [s[|s| - 1]];
    if |s| == 1 {
      assert h == [];
    } else {
      PrintValue(h);
      LeadingDigit(h);
    }
  }

  lemma {:induction false} LeadingDigit(s: Text)
    requires AllDigits(s) && s != [] && s[0] != 48
    ensures Value(s) >= 1
  {
    if |s| > 1 {
      LeadingDigit(s[..|s| - 1]);
    }
  }

  lemma {:induction false} ValueBound(s: Text)
    requires AllDigits(s)
    ensures Value(s) < Pow10(|s|)
  {
    if |s| != 0 {
      ValueBound(s[..|s| - 1]);
    }
  }

  lemma {:induction false} ValueLow(s: Text)
    requires Minimal(s) && s[0] != 48
    ensures Pow10(|s| - 1) <= Value(s)
  {
    var h := s[..|s| - 1];
    if |s| == 1 {
      assert h == [];
    } else {
      ValueLow(h);
    }
  }

  // A printed number has k digits exactly from 10^(k-1) to 10^k - 1.
  lemma PrintLength(n: nat)
    ensures n < Pow10(|Print(n)|)
    ensures n != 0 ==> Pow10(|Print(n)| - 1) <= n
  {
    ValuePrint(n);
    ValueBound(Print(n));
    if n != 0 {
      ValueLow(Print(n));
    }
  }

  lemma {:induction false} PrintMonotone(m: nat, n: nat)
    requires m <= n
    ensures |Print(m)| <= |Print(n)|
    decreases n
  {
    if m >= 10 {
      PrintMonotone(m / 10, n / 10);
    }
  }

  function ParseU64(s: Text, field: string): (r: Result<nat>)
    ensures r.Ok? <==> Minimal(s) && Value(s) <= U64_MAX
    ensures r.Ok? ==> r.value == Value(s)
  {
    if !Minimal(s) then Invalid(field, "value is not minimal unsigned decimal")
    else if Value(s) > U64_MAX then Invalid(field, "decimal value exceeds u64")
    else Ok(Value(s))
  }

  // Twenty-one digits cannot fit in sixty-four bits.
  lemma LongIsLarge(s: Text)
    requires Minimal(s) && |s| > 20
    ensures Value(s) > U64_MAX
  {
    ValueLow(s);
    Pow10Monotone(20, |s| - 1);
    assert Pow10(5) == 100000;
    assert Pow10(10) == 10000000000;
    assert Pow10(15) == 1000000000000000;
    assert Pow10(20) == 100000000000000000000;
  }

  lemma {:induction false} Pow10Monotone(i: nat, j: nat)
    requires i <= j
    ensures Pow10(i) <= Pow10(j)
    decreases j
  {
    if i < j {
      Pow10Monotone(i, j - 1);
    }
  }
}
