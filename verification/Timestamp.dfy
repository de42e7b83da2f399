/** Timestamps as timespecs and as canonical signed decimals. */
module Timestamp {
  import opened Format
  import opened Decimal

  const I64_MAX := 0x7fff_ffff_ffff_ffff
  const I64_MIN := -0x8000_0000_0000_0000
  const BILLION := 1000000000
  const MINUS: byte := 45
  const DOT: byte := 46
  const PLUS: byte := 43

  // Seconds, and a forward offset in nanoseconds.
  datatype Timespec = Timespec(seconds: int, nanos: nat)

  predicate InRange(t: Timespec) {
    I64_MIN <= t.seconds <= I64_MAX
  }

  function Nanoseconds(t: Timespec): int {
    t.seconds * BILLION + t.nanos
  }

  // ---------- printing ----------

  function Signed(n: int): Text {
    if n < 0 then [MINUS] + Print(-n) else Print(n)
  }

  // Exactly `k` digits, zero-padded.
  function Fixed(n: nat, k: nat): (s: Text)
    ensures |s| == k && AllDigits(s)
  {
    if k == 0 then [] else Fixed(n / 10, k - 1) + [48 + n % 10]
  }

  function Trim(s: Text): (t: Text)
    ensures t <= s && (t == [] || t[|t| - 1] != 48)
  {
    if s != [] && s[|s| - 1] == 48 then Trim(s[..|s| - 1]) else s
  }

  method TrimZeros(s: Text) returns (t: Text)
    ensures t == Trim(s)
  {
    t := s;
    while t != [] && t[|t| - 1] == 48
      invariant Trim(t) == Trim(s)
      decreases |t|
    {
      t := t[..|t| - 1];
    }
  }

  // Sign, whole seconds and fraction of the decimal.
  function DecimalText(negative: bool, whole: nat, fraction: nat): Text {
    (if negative then [MINUS] else []) + Print(whole) + [DOT] + Fixed(fraction, 9)
  }

  const TOO_MANY_NANOS: Result<Text> :=
    Err(WriterUnsupported("timestamp nanoseconds must be less than one billion"))
  const LAST_SECOND: Result<Text> :=
    Err(WriterUnsupported("times in the last second before the Unix epoch have no revision-45 encoding"))

  function Canonical(t: Timespec): Result<Text> {
    if t.nanos >= BILLION then TOO_MANY_NANOS
    else if t.nanos == 0 then Ok(Signed(t.seconds))
    else if t.seconds == -1 then LAST_SECOND
    else if t.seconds < 0 then Ok(Trim(DecimalText(true, -t.seconds - 1, BILLION - t.nanos)))
    else Ok(Trim(DecimalText(false, t.seconds, t.nanos)))
  }

  method CanonicalPaxValue(t: Timespec) returns (r: Result<Text>)
    ensures r == Canonical(t)
  {
    hide Print, Fixed, Trim;
    if t.nanos >= BILLION {
      return TOO_MANY_NANOS;
    }
    if t.nanos == 0 {
      return Ok(Signed(t.seconds));
    }
    var buffer: Text;
    if t.seconds < 0 {
      var whole, fraction := -t.seconds - 1, BILLION - t.nanos;
      if whole == 0 {
        return LAST_SECOND;
      }
      buffer := [MINUS] + Print(whole) + [DOT] + Fixed(fraction, 9);
    } else {
      buffer := Print(t.seconds) + [DOT] + Fixed(t.nanos, 9);
      assert [] + Print(t.seconds) == Print(t.seconds);
    }
    buffer := TrimZeros(buffer);
    return Ok(buffer);
  }

  // What listings show; `None` where the timespec form is shown instead.
  function Display(t: Timespec): Option<Text> {
    if t.nanos == 0 then Some(Signed(t.seconds))
    else if t.seconds == -1 || t.nanos >= BILLION then None
    else if t.seconds < 0 then Some([MINUS] + Print(-t.seconds - 1) + [DOT] + Trim(Fixed(BILLION - t.nanos, 9)))
    else Some(Print(t.seconds) + [DOT] + Trim(Fixed(t.nanos, 9)))
  }

  // ---------- parsing ----------

  function Unsigned(integer: Text): Text {
    if integer != [] && integer[0] == MINUS then integer[1..] else integer
  }

  function ParseSeconds(integer: Text): Result<int> {
    if integer == [MINUS, 48] then Invalid("Timestamp", "timestamp is not canonical")
    else if !Minimal(Unsigned(integer)) then Invalid("Timestamp", "timestamp integer is not canonical")
    else
      var seconds := if integer[0] == MINUS then -(Value(Unsigned(integer)) as int) else Value(integer);
      if I64_MIN <= seconds <= I64_MAX then Ok(seconds) else Err(InvalidArchive("timestamp seconds exceed i64"))
  }

  predicate ValidFraction(f: Text) {
    1 <= |f| <= 9 && AllDigits(f) && f[|f| - 1] != 48
  }

  function ZeroDigits(n: nat): (z: Text)
    ensures |z| == n && AllDigits(z) && forall i :: 0 <= i < n ==> z[i] == 48
  {
    seq<byte>(n, _ => 48)
  }

  function FractionNanos(f: Text): (n: nat)
    requires ValidFraction(f)
    ensures n < BILLION
  {
    BillionIs();
    ValueBound(f + ZeroDigits(9 - |f|));
    Value(f + ZeroDigits(9 - |f|))
  }

  // From sign and magnitude to seconds and a forward offset.
  function FromDecimal(seconds: int, nanos: nat): Result<Timespec>
    requires nanos < BILLION
  {
    if seconds < 0 && nanos != 0 then
      if seconds == I64_MIN then Err(InvalidArchive("timestamp seconds exceed i64"))
      else Ok(Timespec(seconds - 1, BILLION - nanos))
    else Ok(Timespec(seconds, nanos))
  }

  function Parse(s: Text): Result<Timespec> {
    if s == [] || s[0] == PLUS then Invalid("Timestamp", "timestamp is not canonical")
    else
      var dot := Find(s, 0, DOT);
      var seconds := ParseSeconds(if dot.Some? then s[..dot.value] else s);
      if seconds.Err? then Err(seconds.error)
      else if dot.None? then Ok(Timespec(seconds.value, 0))
      else if !ValidFraction(s[dot.value + 1..]) then Invalid("Timestamp", "timestamp fraction is not canonical")
      else FromDecimal(seconds.value, FractionNanos(s[dot.value + 1..]))
  }

  // ---------- fractions ----------

  lemma {:induction false} ValueFixed(n: nat, k: nat)
    requires n < Pow10(k)
    ensures Value(Fixed(n, k)) == n
    decreases k
  {
    if k != 0 {
      ValueFixed(n / 10, k - 1);
      assert Fixed(n, k)[..k - 1] == Fixed(n / 10, k - 1);
    }
  }

  lemma {:induction false} FixedValue(s: Text)
    requires AllDigits(s)
    ensures Fixed(Value(s), |s|) == s
  {
    if s != [] {
      FixedValue(s[..|s| - 1]);
      assert s == s[..|s| - 1] + [s[|s| - 1]];
    }
  }

  lemma {:induction false} TrimRestores(s: Text)
    ensures s == Trim(s) + ZeroDigits(|s| - |Trim(s)|)
  {
    if s != [] && s[|s| - 1] == 48 {
      TrimRestores(s[..|s| - 1]);
      assert s == s[..|s| - 1] + [48];
    }
  }

  lemma {:induction false} TrimPadded(t: Text, n: nat)
    requires t == [] || t[|t| - 1] != 48
    ensures Trim(t + ZeroDigits(n)) == t
    decreases n
  {
    var s := t + ZeroDigits(n);
    if n == 0 {
      assert s == t;
    } else {
      assert s[..|s| - 1] == t + ZeroDigits(n - 1);
      TrimPadded(t, n - 1);
    }
  }

  lemma {:induction false} TrimConcat(a: Text, b: Text)
    requires Trim(b) != []
    ensures Trim(a + b) == a + Trim(b)
    decreases |b|
  {
    if b[|b| - 1] == 48 {
      assert (a + b)[..|a + b| - 1] == a + b[..|b| - 1];
      TrimConcat(a, b[..|b| - 1]);
    }
  }

  lemma {:induction false} ValueZeros(n: nat)
    ensures Value(ZeroDigits(n)) == 0
  {
    if n != 0 {
      ValueZeros(n - 1);
      assert ZeroDigits(n)[..n - 1] == ZeroDigits(n - 1);
    }
  }

  lemma BillionIs()
    ensures Pow10(9) == BILLION
  {
    assert Pow10(3) == 1000;
    assert Pow10(6) == 1000000;
  }

  // The trimmed fraction of n nanoseconds is valid and means n.
  lemma FractionOf(n: nat)
    requires 0 < n < BILLION
    ensures ValidFraction(Trim(Fixed(n, 9))) && FractionNanos(Trim(Fixed(n, 9))) == n
  {
    var f := Fixed(n, 9);
    BillionIs();
    ValueFixed(n, 9);
    TrimRestores(f);
    if Trim(f) == [] {
      assert f == ZeroDigits(9);
      ValueZeros(9);
    }
  }

  lemma FractionBack(f: Text)
    requires ValidFraction(f)
    ensures 0 < FractionNanos(f) < BILLION && Trim(Fixed(FractionNanos(f), 9)) == f
  {
    var s := f + ZeroDigits(9 - |f|);
    BillionIs();
    ValueBound(s);
    FixedValue(s);
    TrimPadded(f, 9 - |f|);
    if Value(s) == 0 {
      ValueZeros(9);
      FixedValue(ZeroDigits(9));
    }
  }

  // ---------- both directions ----------

  lemma SignedParses(n: int)
    requires I64_MIN <= n <= I64_MAX
    ensures ParseSeconds(Signed(n)) == Ok(n)
    ensures Signed(n) != [] && Signed(n)[0] != PLUS && forall i :: 0 <= i < |Signed(n)| ==> Signed(n)[i] != DOT
  {
    hide Value;
    if n < 0 {
      ValuePrint(-n);
      assert ([MINUS] + Print(-n))[1..] == Print(-n);
    } else {
      ValuePrint(n);
    }
  }

  lemma ParsedSigned(integer: Text)
    requires ParseSeconds(integer).Ok?
    ensures integer == Signed(ParseSeconds(integer).value) && I64_MIN <= ParseSeconds(integer).value <= I64_MAX
  {
    hide Value;
    var u := Unsigned(integer);
    PrintValue(u);
    if integer[0] == MINUS {
      assert integer == [MINUS] + u;
      if Value(u) == 0 {
        PrintZero();
      }
    }
  }

  lemma PrintZero()
    ensures Print(0) == [48]
  {
  }

  // A decimal with a fraction splits at its point.
  lemma SplitDecimal(n: int, f: Text)
    requires I64_MIN <= n <= I64_MAX && ValidFraction(f)
    ensures Parse(Signed(n) + [DOT] + f) == FromDecimal(n, FractionNanos(f))
  {
    hide FractionNanos, ParseSeconds, Signed;
    var s := Signed(n) + [DOT] + f;
    var d := |Signed(n)|;
    SignedParses(n);
    assert forall i :: 0 <= i < d ==> s[i] == Signed(n)[i];
    FirstAt(s, DOT, d);
    assert s[..d] == Signed(n) && s[d + 1..] == f;
  }

  lemma WholeParses(n: int)
    requires I64_MIN <= n <= I64_MAX
    ensures Parse(Signed(n)) == Ok(Timespec(n, 0))
  {
    hide ParseSeconds, Signed;
    SignedParses(n);
  }

  // The printed form of a time with a fraction.
  lemma CanonicalFraction(t: Timespec)
    requires 0 < t.nanos < BILLION && t.seconds != -1
    ensures var (whole, nanos) := if t.seconds < 0 then (t.seconds + 1, BILLION - t.nanos) else (t.seconds, t.nanos);
            Canonical(t) == Ok(Signed(whole) + [DOT] + Trim(Fixed(nanos, 9)))
  {
    hide Print, Fixed;
    var (whole, nanos) := if t.seconds < 0 then (t.seconds + 1, BILLION - t.nanos) else (t.seconds, t.nanos);
    FractionOf(nanos);
    TrimConcat(Signed(whole) + [DOT], Fixed(nanos, 9));
    if t.seconds < 0 {
      assert DecimalText(true, -t.seconds - 1, nanos) == Signed(whole) + [DOT] + Fixed(nanos, 9);
    } else {
      assert DecimalText(false, t.seconds, nanos) == Signed(whole) + [DOT] + Fixed(nanos, 9);
    }
  }

  // Every valid time except a fraction of the last second before the epoch has a printed form.
  lemma CanonicalDefined(t: Timespec)
    ensures Canonical(t).Ok? <==> t.nanos < BILLION && !(t.seconds == -1 && t.nanos != 0)
  {
  }

  // parse(print(t)) = t
  lemma PrintParse(t: Timespec)
    requires InRange(t) && Canonical(t).Ok?
    ensures Parse(Canonical(t).value) == Ok(t)
  {
    hide Signed, Parse, Fixed, Trim, FractionNanos, DecimalText;
    if t.nanos == 0 {
      WholeParses(t.seconds);
    } else {
      CanonicalFraction(t);
      if t.seconds < 0 {
        FractionOf(BILLION - t.nanos);
        SplitDecimal(t.seconds + 1, Trim(Fixed(BILLION - t.nanos, 9)));
      } else {
        FractionOf(t.nanos);
        SplitDecimal(t.seconds, Trim(Fixed(t.nanos, 9)));
      }
    }
  }

  // print(parse(s)) = s, so each time has one accepted spelling.
  lemma ParsePrint(s: Text)
    requires Parse(s).Ok?
    ensures InRange(Parse(s).value) && Canonical(Parse(s).value) == Ok(s)
  {
    hide Signed, Fixed, Trim, FractionNanos, DecimalText, ParseSeconds;
    var dot := Find(s, 0, DOT);
    if dot.None? {
      ParsedSigned(s);
    } else {
      ParsePrintFraction(s, dot.value);
    }
  }

  lemma ParsePrintFraction(s: Text, d: nat)
    requires Find(s, 0, DOT) == Some(d) && Parse(s).Ok?
    ensures InRange(Parse(s).value) && Canonical(Parse(s).value) == Ok(s)
  {
    hide Canonical, Signed, Fixed, Trim, FractionNanos, ParseSeconds, ValidFraction;
    var f := s[d + 1..];
    ParsedSigned(s[..d]);
    FractionBack(f);
    DecimalTimespec(ParseSeconds(s[..d]).value, FractionNanos(f));
    assert s == s[..d] + [DOT] + f;
  }

  lemma DecimalTimespec(seconds: int, nanos: nat)
    requires I64_MIN <= seconds <= I64_MAX && 0 < nanos < BILLION && FromDecimal(seconds, nanos).Ok?
    ensures var t := FromDecimal(seconds, nanos).value;
            InRange(t) && Canonical(t) == Ok(Signed(seconds) + [DOT] + Trim(Fixed(nanos, 9)))
  {
    hide Canonical, Signed, Fixed, Trim;
    CanonicalFraction(FromDecimal(seconds, nanos).value);
  }

  lemma DisplayAgrees(t: Timespec)
    ensures Canonical(t).Ok? ==> Display(t) == Some(Canonical(t).value)
    ensures t.nanos < BILLION && Canonical(t).Err? ==> Display(t) == None
  {
    hide Fixed, Trim, Print, DecimalText;
    if t.nanos != 0 && Canonical(t).Ok? {
      CanonicalFraction(t);
    }
  }

  // ---------- the instant a decimal denotes ----------

  function IntegerPart(s: Text): Text {
    var dot := Find(s, 0, DOT);
    if dot.Some? then s[..dot.value] else s
  }

  // An optional sign, digits, and perhaps a point and one to nine digits.
  predicate IsDecimal(s: Text) {
    var dot := Find(s, 0, DOT);
    IntegerPart(s) != [] && AllDigits(Unsigned(IntegerPart(s))) && (dot.Some? ==> ValidFraction(s[dot.value + 1..]))
  }

  // A signed decimal in units of a nanosecond.
  function DecimalInstant(s: Text): int
    requires IsDecimal(s)
  {
    var dot := Find(s, 0, DOT);
    var integer := IntegerPart(s);
    var fraction := if dot.Some? then FractionNanos(s[dot.value + 1..]) else 0;
    var magnitude := Value(Unsigned(integer)) * BILLION + fraction;
    if integer[0] == MINUS then -(magnitude as int) else magnitude
  }

  lemma SameInstant(s: Text)
    requires Parse(s).Ok?
    ensures IsDecimal(s) && DecimalInstant(s) == Nanoseconds(Parse(s).value)
  {
    hide Value, FractionNanos;
    ParsedSigned(IntegerPart(s));
    PrintZero();
  }

  // ---------- host times ----------

  // A host time as nanoseconds from the epoch; the host holds every i64 second.
  function FromSystemTime(nanoseconds: int): Option<Timespec> {
    if nanoseconds >= 0 then
      if nanoseconds / BILLION > I64_MAX then None
      else Some(Timespec(nanoseconds / BILLION, nanoseconds % BILLION))
    else
      var seconds := -nanoseconds / BILLION;
      var subsec := -nanoseconds % BILLION;
      if seconds > I64_MAX then None
      else if subsec == 0 then Some(Timespec(-seconds, 0))
      else Some(Timespec(-seconds - 1, BILLION - subsec))
  }

  function ToSystemTime(t: Timespec): int {
    var whole := if t.seconds < 0 then -t.seconds else t.seconds;
    (if t.seconds < 0 then -(whole * BILLION) else whole * BILLION) + t.nanos
  }

  // A timespec becomes the host time of the same instant.
  lemma SystemTimeIs(t: Timespec)
    ensures ToSystemTime(t) == Nanoseconds(t) == t.seconds * 1000000000 + t.nanos
  {
  }

  // There and back is the identity, except for the very first second of the range: its magnitude
  // does not fit and the conversion gives up.
  lemma SystemTimeRoundTrip(t: Timespec)
    requires InRange(t) && t.nanos < BILLION
    ensures FromSystemTime(ToSystemTime(t)) == Some(t) <==> !(t.seconds == I64_MIN && t.nanos == 0)
    ensures t.seconds == I64_MIN && t.nanos == 0 ==> FromSystemTime(ToSystemTime(t)) == None
  {
    var x := ToSystemTime(t);
    if t.seconds < 0 && t.nanos != 0 {
      assert -x == (-t.seconds - 1) * BILLION + (BILLION - t.nanos);
    }
  }

  lemma FirstSecondIsLost()
    ensures FromSystemTime(ToSystemTime(Timespec(-9223372036854775808, 0))) == None
    ensures FromSystemTime(ToSystemTime(Timespec(-9223372036854775808, 1))).Some?
  {
  }

  lemma SystemTimeBack(nanoseconds: int)
    requires FromSystemTime(nanoseconds).Some?
    ensures ToSystemTime(FromSystemTime(nanoseconds).value) == nanoseconds
    ensures InRange(FromSystemTime(nanoseconds).value) && FromSystemTime(nanoseconds).value.nanos < BILLION
  {
  }

  lemma NoText(t: Timespec)
    ensures t.nanos >= 1000000000 ==>
              Canonical(t) == Err(WriterUnsupported("timestamp nanoseconds must be less than one billion"))
    ensures 0 < t.nanos < 1000000000 && t.seconds == -1 ==>
              Canonical(t) == Err(WriterUnsupported(
                "times in the last second before the Unix epoch have no revision-45 encoding"))
  {
  }

  // A second and a quarter before the epoch is "-1.25".
  lemma QuarterBefore()
    ensures Parse([45, 49, 46, 50, 53]) == Ok(Timespec(-2, 750000000))
    ensures Canonical(Timespec(-2, 750000000)) == Ok([45, 49, 46, 50, 53])
  {
    hide Canonical, Value, FractionNanos;
    var s: Text := [45, 49, 46, 50, 53];
    FirstAt(s, 46, 2);
    QuarterNanos();
    assert s[..2] == [45, 49] && s[3..] == [50, 53] && s[..2][1..] == [49];
    ParsePrint(s);
  }

  lemma QuarterNanos()
    ensures ValidFraction([50, 53]) && FractionNanos([50, 53]) == 250000000 && Value([49]) == 1
  {
    hide Value;
    Shifted([50, 53], 7);
    assert Pow10(7) == 10000000 by { assert Pow10(3) == 1000 && Pow10(5) == 100000; }
    assert Value([50, 53]) == 25 && Value([49]) == 1 by { SmallValues(); }
  }

  lemma SmallValues()
    ensures Value([50, 53]) == 25 && Value([49]) == 1
  {
    assert [50, 53][..1] == [50] && [50][..0] == [] && [49][..0] == [];
  }

  lemma {:induction false} Shifted(f: Text, n: nat)
    requires AllDigits(f)
    ensures Value(f + ZeroDigits(n)) == Value(f) * Pow10(n)
  {
    if n == 0 {
      assert f + ZeroDigits(0) == f;
    } else {
      Shifted(f, n - 1);
      var s := f + ZeroDigits(n);
      assert s[..|s| - 1] == f + ZeroDigits(n - 1);
      TimesTen(Value(f), Pow10(n - 1));
    }
  }

  lemma TimesTen(a: nat, b: nat)
    ensures a * (10 * b) == 10 * (a * b)
  {
  }
}
