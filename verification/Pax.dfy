/** PAX records with self-describing lengths: the canonical printer and parser. */
module Pax {
  import opened Format
  import opened Decimal

  const MAX_LOCAL_PAX_PAYLOAD := 67108864
  const SPACE: byte := 32
  const EQUALS: byte := 61
  const NEWLINE: byte := 10

  datatype Record = Record(key: Text, value: Text)

  // A key-ordered map, as the sequence of its entries.
  type PaxRecords = seq<Record>

  predicate ValidKey(key: Text) {
    key != [] && forall i :: 0 <= i < |key| ==> 0x21 <= key[i] <= 0x7e && key[i] != EQUALS
  }

  predicate ValidRecord(rec: Record) {
    ValidKey(rec.key) && 0 !in rec.value
  }

  // Byte order of keys.
  predicate Less(a: Text, b: Text)
    decreases |b|
  {
    b != [] && (a == [] || a[0] < b[0] || (a[0] == b[0] && Less(a[1..], b[1..])))
  }

  predicate KeyFollows(previous: Option<Text>, key: Text) {
    previous.Some? ==> Less(previous.value, key)
  }

  predicate Sorted(records: PaxRecords, previous: Option<Text>) {
    records != [] ==> KeyFollows(previous, records[0].key) && Sorted(records[1..], Some(records[0].key))
  }

  // Equal up to the first difference, where the first text ends or has the smaller byte.
  ghost predicate Before(a: Text, b: Text) {
    exists k: nat :: DiffersAt(a, b, k)
  }

  ghost predicate DiffersAt(a: Text, b: Text, k: nat) {
    k <= |a| && k < |b| && a[..k] == b[..k] && (k == |a| || a[k] < b[k])
  }

  ghost predicate InOrder(records: PaxRecords) {
    forall i, j :: 0 <= i < j < |records| ==> Before(records[i].key, records[j].key)
  }

  lemma {:induction false} LessTransitive(a: Text, b: Text, c: Text)
    requires Less(a, b) && Less(b, c)
    ensures Less(a, c)
    decreases |c|
  {
    if a != [] && a[0] == b[0] && b[0] == c[0] {
      LessTransitive(a[1..], b[1..], c[1..]);
    }
  }

  lemma {:induction false} LessIrreflexive(a: Text)
    ensures !Less(a, a)
  {
    if a != [] {
      LessIrreflexive(a[1..]);
    }
  }

  lemma {:induction false} LessIff(a: Text, b: Text)
    ensures Less(a, b) <==> Before(a, b)
    decreases |b|
  {
    if b != [] && (a == [] || a[0] < b[0]) {
      assert DiffersAt(a, b, 0);
    } else if a != [] && b != [] && a[0] == b[0] {
      LessIff(a[1..], b[1..]);
      if k: nat :| DiffersAt(a[1..], b[1..], k) {
        assert a[..k + 1] == [a[0]] + a[1..][..k] && b[..k + 1] == [b[0]] + b[1..][..k];
        assert DiffersAt(a, b, k + 1);
      }
      if k: nat :| DiffersAt(a, b, k) {
        FirstEqual(a, b, k);
      }
    } else {
      assert forall k: nat :: DiffersAt(a, b, k) ==> k == 0 || a[..k][0] == b[..k][0];
    }
  }

  lemma FirstEqual(a: Text, b: Text, k: nat)
    requires a != [] && b != [] && a[0] == b[0] && DiffersAt(a, b, k)
    ensures Before(a[1..], b[1..])
  {
    assert k > 0;
    assert a[1..][..k - 1] == a[..k][1..] && b[1..][..k - 1] == b[..k][1..];
    assert DiffersAt(a[1..], b[1..], k - 1);
  }

  // Each key before the next is each key before all that follow.
  lemma {:induction false} SortedFrom(records: PaxRecords, previous: Option<Text>)
    ensures Sorted(records, previous) <==>
            && InOrder(records)
            && (previous.Some? ==> forall i :: 0 <= i < |records| ==> Before(previous.value, records[i].key))
  {
    hide Less, Before;
    if records != [] {
      var (first, rest) := (records[0], records[1..]);
      SortedFrom(rest, Some(first.key));
      assert forall i :: 1 <= i < |records| ==> records[i] == rest[i - 1];
      if previous.Some? {
        LessIff(previous.value, first.key);
        forall i | 0 <= i < |rest| && Before(previous.value, first.key) && Before(first.key, rest[i].key)
          ensures Before(previous.value, rest[i].key)
        {
          BeforeTransitive(previous.value, first.key, rest[i].key);
        }
      }
    }
  }

  lemma BeforeTransitive(a: Text, b: Text, c: Text)
    requires Before(a, b) && Before(b, c)
    ensures Before(a, c)
  {
    hide Less, Before;
    LessIff(a, b);
    LessIff(b, c);
    LessTransitive(a, b, c);
    LessIff(a, c);
  }

  predicate AllValid(records: PaxRecords) {
    forall i :: 0 <= i < |records| ==> ValidRecord(records[i])
  }

  // ---------- self-describing lengths ----------

  // Everything but the digits: the key, the value, a space, an equals sign and a newline.
  function BodyLength(rec: Record): nat {
    |rec.key| + |rec.value| + 3
  }

  predicate SelfDescribing(length: nat, body: nat) {
    length == body + |Print(length)|
  }

  lemma {:induction false} PrintShort(n: nat)
    ensures |Print(n)| <= n / 2 + 1
  {
    if n >= 10 {
      PrintShort(n / 10);
    }
  }

  // The fixed point the printer's loop climbs to from `digits`.
  function FixLength(body: nat, digits: nat): (length: nat)
    requires 1 <= digits <= body + 2 && digits <= |Print(digits + body)|
    ensures SelfDescribing(length, body)
    decreases body + 2 - digits
  {
    var next := |Print(digits + body)|;
    if next == digits then digits + body
    else
      NextDigits(body, digits);
      FixLength(body, next)
  }

  lemma NextDigits(body: nat, digits: nat)
    requires 1 <= digits <= body + 2 && digits < |Print(digits + body)|
    ensures |Print(digits + body)| <= body + 2
    ensures |Print(digits + body)| <= |Print(|Print(digits + body)| + body)|
  {
    PrintShort(digits + body);
    PrintMonotone(digits + body, |Print(digits + body)| + body);
  }

  function LeastLength(body: nat): (length: nat)
    ensures SelfDescribing(length, body)
  {
    FixLength(body, 1)
  }

  lemma {:induction false} FixIsLeast(body: nat, digits: nat, length: nat)
    requires 1 <= digits <= body + 2 && digits <= |Print(digits + body)|
    requires SelfDescribing(length, body) && digits <= |Print(length)|
    ensures FixLength(body, digits) <= length
    decreases body + 2 - digits
  {
    var next := |Print(digits + body)|;
    if next != digits {
      NextDigits(body, digits);
      PrintMonotone(digits + body, length);
      FixIsLeast(body, next, length);
    }
  }

  // The least self-describing length; the only other candidate is one longer and a power of ten.
  lemma LeastIsLeast(body: nat, length: nat)
    requires SelfDescribing(length, body)
    ensures LeastLength(body) <= length
    ensures length != LeastLength(body) ==>
              exists k: nat :: 1 <= k && length == Pow10(k) && LeastLength(body) == length - 1 && body == length - 1 - k
  {
    FixIsLeast(body, 1, length);
    var least := LeastLength(body);
    if least < length {
      var (d, e) := (|Print(least)|, |Print(length)|);
      PrintLength(least);
      PrintLength(length);
      DigitsApart(least, d, e);
      assert e == d + 1 && length == Pow10(d);
    }
  }

  // Two lengths of the same body differ by their numbers of digits, which is too little for two more digits.
  lemma DigitsApart(least: nat, d: nat, e: nat)
    requires least < Pow10(d) && d < e && Pow10(e - 1) <= least + (e - d)
    ensures e == d + 1
  {
    if e > d + 1 {
      Growth(d, e - 1 - d);
    }
  }

  lemma {:induction false} Growth(d: nat, m: nat)
    requires 1 <= m
    ensures Pow10(d + m) >= Pow10(d) + m + 1
    decreases m
  {
    if m > 1 {
      Growth(d, m - 1);
    }
  }

  // A declared length is redundant exactly when it is a power of ten above one.
  lemma RedundantLength(body: nat, k: nat)
    requires 1 <= k && SelfDescribing(Pow10(k), body)
    ensures LeastLength(body) == Pow10(k) - 1
  {
    var n := Pow10(k);
    PrintLength(n);
    PrintLength(n - 1);
    Pow10Digits(k);
    assert SelfDescribing(n - 1, body);
    LeastIsLeast(body, n - 1);
    if LeastLength(body) != n - 1 {
      PrintLength(LeastLength(body));
    }
  }

  lemma {:induction false} Pow10Digits(k: nat)
    requires 1 <= k
    ensures |Print(Pow10(k))| == k + 1 && |Print(Pow10(k) - 1)| == k
    decreases k
  {
    if k > 1 {
      Pow10Digits(k - 1);
      assert Pow10(k) / 10 == Pow10(k - 1) && (Pow10(k) - 1) / 10 == Pow10(k - 1) - 1;
    } else {
      assert Pow10(1) == 10;
    }
  }

  // ---------- the printer ----------

  // The text of one record with the given length field.
  function RecordText(rec: Record, length: nat): (t: Text)
    ensures |t| == |Print(length)| + BodyLength(rec)
  {
    Print(length) + [SPACE] + rec.key + [EQUALS] + rec.value + [NEWLINE]
  }

  function Encoded(records: PaxRecords): Text {
    if records == [] then []
    else RecordText(records[0], LeastLength(BodyLength(records[0]))) + Encoded(records[1..])
  }

  // The loop that guesses the number of digits until the length describes itself.
  method RecordLength(rec: Record) returns (r: Result<nat>)
    ensures LeastLength(BodyLength(rec)) <= USIZE_MAX ==> r == Ok(LeastLength(BodyLength(rec)))
    ensures LeastLength(BodyLength(rec)) > USIZE_MAX ==> r == Err(WriterInvariant("PAX record length overflow"))
  {
    hide Print, FixLength, SelfDescribing;
    var body := BodyLength(rec);
    FixStart(body);
    if body > USIZE_MAX {
      return Err(WriterInvariant("PAX record length overflow"));
    }
    var digits: nat := 1;
    while true
      invariant 1 <= digits <= body + 2 && digits <= |Print(digits + body)|
      invariant FixLength(body, digits) == LeastLength(body)
      decreases body + 2 - digits
    {
      var length := digits + body;
      FixAtLeast(body, digits);
      FixStep(body, digits);
      if length > USIZE_MAX {
        return Err(WriterInvariant("PAX record length overflow"));
      }
      var nextDigits := |Print(length)|;
      if nextDigits == digits {
        return Ok(length);
      }
      digits := nextDigits;
    }
  }

  lemma FixStart(body: nat)
    ensures 1 <= |Print(1 + body)| && LeastLength(body) == FixLength(body, 1) && body < LeastLength(body)
  {
    FixAtLeast(body, 1);
  }

  lemma FixStep(body: nat, digits: nat)
    requires 1 <= digits <= body + 2 && digits <= |Print(digits + body)|
    ensures var next := |Print(digits + body)|;
            if next == digits then FixLength(body, digits) == digits + body
            else
              && digits < next <= body + 2 && next <= |Print(next + body)|
              && FixLength(body, digits) == FixLength(body, next)
  {
    if |Print(digits + body)| != digits {
      NextDigits(body, digits);
    }
  }

  lemma {:induction false} FixAtLeast(body: nat, digits: nat)
    requires 1 <= digits <= body + 2 && digits <= |Print(digits + body)|
    ensures digits + body <= FixLength(body, digits)
    decreases body + 2 - digits
  {
    var next := |Print(digits + body)|;
    if next != digits {
      NextDigits(body, digits);
      FixAtLeast(body, next);
    }
  }

  method EncodeCanonicalPax(records: PaxRecords) returns (r: Result<Text>)
    requires InOrder(records)
    ensures r.Ok? <==> records != [] && AllValid(records) && |Encoded(records)| <= 67108864
                       && forall i :: 0 <= i < |records| ==> LeastLength(BodyLength(records[i])) <= USIZE_MAX
    ensures r.Ok? ==> r.value == Encoded(records)
    ensures records == [] ==> r == Err(WriterInvariant("PAX payload cannot be empty"))
    ensures records != [] && r.Err?
            && (forall i :: 0 <= i < |records| ==> LeastLength(BodyLength(records[i])) <= USIZE_MAX) ==>
              r.error == if AllValid(records) then WriterUnsupported("local PAX payload exceeds revision-45 limit")
                         else WriterInvariant("invalid canonical PAX record")
  {
    hide Encoded, RecordText, LeastLength, Before;
    if records == [] {
      return Err(WriterInvariant("PAX payload cannot be empty"));
    }
    var out: Text := [];
    assert records[..0] == [];
    EncodedNone();
    for i := 0 to |records|
      invariant out == Encoded(records[..i])
      invariant forall k :: 0 <= k < i ==> ValidRecord(records[k]) && LeastLength(BodyLength(records[k])) <= USIZE_MAX
    {
      var rec := records[i];
      if !ValidRecord(rec) {
        return Err(WriterInvariant("invalid canonical PAX record"));
      }
      var length := RecordLength(rec);
      if length.Err? {
        return Err(length.error);
      }
      EncodedAppend(records[..i], rec);
      assert records[..i + 1] == records[..i] + [rec];
      out := out + RecordText(rec, length.value);
    }
    assert records[..|records|] == records;
    if |out| > MAX_LOCAL_PAX_PAYLOAD {
      return Err(WriterUnsupported("local PAX payload exceeds revision-45 limit"));
    }
    return Ok(out);
  }

  lemma EncodedNone()
    ensures Encoded([]) == []
  {
  }

  lemma {:induction false} EncodedAppend(records: PaxRecords, rec: Record)
    ensures Encoded(records + [rec]) == Encoded(records) + RecordText(rec, LeastLength(BodyLength(rec)))
  {
    hide RecordText, LeastLength;
    if records == [] {
      assert ([] + [rec])[1..] == [];
    } else {
      EncodedAppend(records[1..], rec);
      assert (records + [rec])[1..] == records[1..] + [rec];
    }
  }

  // ---------- the parser ----------

  // The first record of `s` and its length.
  function ParseRecord(s: Text): Result<(Record, nat)> {
    var space := Find(s, 0, SPACE);
    if space.None? then Err(InvalidArchive("PAX record length is missing"))
    else if !Minimal(s[..space.value]) then Invalid("PAX", "record length is not minimal decimal")
    else if Value(s[..space.value]) > U64_MAX then
      Invalid("PAX record length", "decimal value exceeds u64")
    else
      var declared := Value(s[..space.value]);
      if Print(declared) != s[..space.value] then Invalid("PAX", "record length is not canonical")
      else if declared > |s| || declared <= space.value + 2 || s[declared - 1] != NEWLINE then
        Invalid("PAX", "record length does not frame one record")
      else ParseBody(s[space.value + 1..declared - 1], declared)
  }

  function ParseBody(body: Text, declared: nat): Result<(Record, nat)> {
    var equals := Find(body, 0, EQUALS);
    if equals.None? then Err(InvalidArchive("PAX record equals sign is missing"))
    else if !ValidKey(body[..equals.value]) then Invalid("PAX", "key is not canonical ASCII")
    else if 0 in body[equals.value + 1..] then Invalid("PAX", "value contains NUL")
    else Ok((Record(body[..equals.value], body[equals.value + 1..]), declared))
  }

  // All records of `s`, which follow the key `previous`.
  function ParseFrom(s: Text, previous: Option<Text>): Result<PaxRecords>
    decreases |s|
  {
    if s == [] then Ok([])
    else
      var first := ParseRecord(s);
      if first.Err? then Err(first.error)
      else
        ParsedText(s);
        var (rec, declared) := first.value;
        if !KeyFollows(previous, rec.key) then Invalid("PAX", "keys are not strictly sorted and unique")
        else
          Prepend([rec], ParseFrom(s[declared..], Some(rec.key)))
  }

  function Parse(p: Text): Result<PaxRecords> {
    if p == [] then Invalid("PAX", "payload is empty")
    else if |p| > MAX_LOCAL_PAX_PAYLOAD then
      Err(ReaderResourceLimitExceeded("local PAX payload bytes", MAX_LOCAL_PAX_PAYLOAD, |p|))
    else ParseFrom(p, None)
  }

  method ParseCanonicalPax(p: Text) returns (r: Result<PaxRecords>)
    ensures r == Parse(p)
    ensures r.Ok? ==> InOrder(r.value)
  {
    hide ParseRecord, Before, InOrder;
    ParsedInOrder(p);
    if p == [] {
      return Invalid("PAX", "payload is empty");
    }
    if |p| > MAX_LOCAL_PAX_PAYLOAD {
      return Err(ReaderResourceLimitExceeded("local PAX payload bytes", MAX_LOCAL_PAX_PAYLOAD, |p|));
    }
    var records: PaxRecords := [];
    var previousKey: Option<Text> := None;
    var cursor: nat := 0;
    assert p[0..] == p;
    PrependNone(ParseFrom(p, None));
    while cursor < |p|
      invariant cursor <= |p|
      invariant Parse(p) == Prepend(records, ParseFrom(p[cursor..], previousKey))
      decreases |p| - cursor
    {
      var rest := p[cursor..];
      var first := ParseRecord(rest);
      if first.Err? {
        return Err(first.error);
      }
      ParsedText(rest);
      var (rec, declared) := first.value;
      if !KeyFollows(previousKey, rec.key) {
        return Invalid("PAX", "keys are not strictly sorted and unique");
      }
      assert rest[declared..] == p[cursor + declared..];
      PrependTwice(records, [rec], ParseFrom(rest[declared..], Some(rec.key)));
      previousKey := Some(rec.key);
      records := records + [rec];
      cursor := cursor + declared;
    }
    assert records + [] == records;
    return Ok(records);
  }

  // A record that parses is the text of itself.
  lemma ParsedText(s: Text)
    requires ParseRecord(s).Ok?
    ensures var (rec, declared) := ParseRecord(s).value;
            && 0 < declared <= |s| && ValidRecord(rec) && SelfDescribing(declared, BodyLength(rec))
            && s[..declared] == RecordText(rec, declared) && declared <= U64_MAX
  {
    hide Print, Value, ValidKey;
    var sp := Find(s, 0, SPACE).value;
    var declared := Value(s[..sp]);
    ParsedBody(s[sp + 1..declared - 1], declared);
    var rec := ParseRecord(s).value.0;
    JoinText(s, sp, declared, rec);
  }

  lemma ParsedBody(body: Text, declared: nat)
    requires ParseBody(body, declared).Ok?
    ensures var (rec, d) := ParseBody(body, declared).value;
            d == declared && ValidRecord(rec) && body == rec.key + [EQUALS] + rec.value
  {
    hide ValidKey;
  }

  lemma JoinText(s: Text, sp: nat, declared: nat, rec: Record)
    requires sp + 2 < declared <= |s| && s[sp] == SPACE && s[declared - 1] == NEWLINE
    requires s[..sp] == Print(declared) && s[sp + 1..declared - 1] == rec.key + [EQUALS] + rec.value
    ensures s[..declared] == RecordText(rec, declared) && SelfDescribing(declared, BodyLength(rec))
  {
    hide Print;
    assert s[..declared] == s[..sp] + [SPACE] + s[sp + 1..declared - 1] + [NEWLINE];
    assert s[..sp] + [SPACE] + (rec.key + [EQUALS] + rec.value) + [NEWLINE]
        == s[..sp] + [SPACE] + rec.key + [EQUALS] + rec.value + [NEWLINE];
  }

  // ---------- round trips ----------

  lemma RecordTextParses(rec: Record, length: nat, rest: Text)
    requires ValidRecord(rec) && SelfDescribing(length, BodyLength(rec)) && length <= U64_MAX
    ensures ParseRecord(RecordText(rec, length) + rest) == Ok((rec, length))
  {
    hide Value, ValidRecord, Print, RecordText, ParseBody, SelfDescribing;
    var digits := Print(length);
    var s := RecordText(rec, length) + rest;
    var d := |digits|;
    ValuePrint(length);
    TextParts(rec, length, rest);
    assert Find(s, 0, SPACE) == Some(d) by { FirstAt(s, SPACE, d); }
    ParseBodyOf(rec, length);
  }

  lemma FramedParts(digits: Text, body: Text, rest: Text)
    requires AllDigits(digits)
    ensures var (s, d, n) := (digits + [SPACE] + body + [NEWLINE] + rest, |digits|, |digits| + |body| + 2);
            && d < n <= |s| && s[..d] == digits && s[d] == SPACE
            && s[n - 1] == NEWLINE && s[d + 1..n - 1] == body
            && forall i :: 0 <= i < d ==> s[i] != SPACE
  {
    var s := digits + [SPACE] + body + [NEWLINE] + rest;
    assert forall i :: 0 <= i < |digits| ==> s[i] == digits[i] && IsDigit(digits[i]);
  }

  lemma TextParts(rec: Record, length: nat, rest: Text)
    requires SelfDescribing(length, BodyLength(rec))
    ensures var (s, d) := (RecordText(rec, length) + rest, |Print(length)|);
            && d < |s| && s[..d] == Print(length) && s[d] == SPACE && length <= |s| && d + 2 < length
            && s[length - 1] == NEWLINE && s[d + 1..length - 1] == rec.key + [EQUALS] + rec.value
            && forall i :: 0 <= i < d ==> s[i] != SPACE
  {
    hide Print, AllDigits;
    var (digits, body) := (Print(length), rec.key + [EQUALS] + rec.value);
    assert RecordText(rec, length) + rest == digits + [SPACE] + body + [NEWLINE] + rest;
    FramedParts(digits, body, rest);
  }

  lemma ParseBodyOf(rec: Record, length: nat)
    requires ValidRecord(rec)
    ensures ParseBody(rec.key + [EQUALS] + rec.value, length) == Ok((rec, length))
  {
    var body := rec.key + [EQUALS] + rec.value;
    FirstAt(body, EQUALS, |rec.key|);
    assert body[..|rec.key|] == rec.key && body[|rec.key| + 1..] == rec.value;
  }

  // The text of several records with given length fields.
  function TextOf(records: PaxRecords, lengths: seq<nat>): Text
    requires |records| == |lengths|
  {
    if records == [] then [] else RecordText(records[0], lengths[0]) + TextOf(records[1..], lengths[1..])
  }

  ghost predicate Described(records: PaxRecords, lengths: seq<nat>) {
    && |records| == |lengths|
    && forall i :: 0 <= i < |records| ==> SelfDescribing(lengths[i], BodyLength(records[i])) && lengths[i] <= U64_MAX
  }

  lemma {:induction false} TextParses(records: PaxRecords, lengths: seq<nat>, previous: Option<Text>)
    requires AllValid(records) && Sorted(records, previous) && Described(records, lengths)
    ensures ParseFrom(TextOf(records, lengths), previous) == Ok(records)
    decreases |records|
  {
    hide RecordText, ParseRecord, SelfDescribing, ValidRecord;
    if records != [] {
      var (rec, length) := (records[0], lengths[0]);
      var rest := TextOf(records[1..], lengths[1..]);
      var s := RecordText(rec, length) + rest;
      RecordTextParses(rec, length, rest);
      TextLength(rec, length);
      ParsedText(s);
      assert s[length..] == rest;
      TextParses(records[1..], lengths[1..], Some(rec.key));
      assert [rec] + records[1..] == records;
    }
  }

  lemma TextLength(rec: Record, length: nat)
    requires SelfDescribing(length, BodyLength(rec))
    ensures |RecordText(rec, length)| == length
  {
  }

  // The length fields of the records of `s`.
  function Declared(s: Text): seq<nat>
    decreases |s|
  {
    if s == [] || ParseRecord(s).Err? then []
    else
      ParsedText(s);
      var declared := ParseRecord(s).value.1;
      [declared] + Declared(s[declared..])
  }

  // What parses is exactly sorted valid records with self-describing lengths.
  lemma {:induction false} ParsedIsText(s: Text, previous: Option<Text>)
    requires ParseFrom(s, previous).Ok?
    ensures var records := ParseFrom(s, previous).value;
            && AllValid(records) && Sorted(records, previous) && Described(records, Declared(s))
            && s == TextOf(records, Declared(s)) && (s != [] ==> records != [])
    decreases |s|
  {
    hide ParseRecord, RecordText, SelfDescribing, ValidRecord;
    if s != [] {
      ParsedText(s);
      var (rec, declared) := ParseRecord(s).value;
      var tail := s[declared..];
      ParsedIsText(tail, Some(rec.key));
      var rest := ParseFrom(tail, Some(rec.key)).value;
      var records := [rec] + rest;
      assert records[1..] == rest && Declared(s)[1..] == Declared(tail);
      assert s == s[..declared] + tail;
    }
  }

  lemma ParsedInOrder(p: Text)
    ensures Parse(p).Ok? ==> InOrder(Parse(p).value)
  {
    hide ParseFrom, TextOf, InOrder, Sorted, Described, Declared, AllValid;
    if Parse(p).Ok? {
      ParsedIsText(p, None);
      SortedFrom(Parse(p).value, None);
    }
  }

  // A key of printable ASCII without an equals sign, and a value without NUL.
  ghost predicate Acceptable(rec: Record) {
    && rec.key != [] && (forall i :: 0 <= i < |rec.key| ==> 0x21 <= rec.key[i] <= 0x7e && rec.key[i] != 0x3d)
    && forall i :: 0 <= i < |rec.value| ==> rec.value[i] != 0
  }

  // A payload is accepted with these records exactly if it is their text, the keys ascend and it fits.
  lemma AcceptedExactly(p: Text, records: PaxRecords)
    ensures Parse(p) == Ok(records) <==>
            && p != [] && |p| <= 67108864 && InOrder(records)
            && (forall i :: 0 <= i < |records| ==> Acceptable(records[i]))
            && exists lengths :: Described(records, lengths) && p == TextOf(records, lengths)
  {
    hide ParseFrom, TextOf, InOrder, Sorted, SelfDescribing;
    SortedFrom(records, None);
    assert AllValid(records) <==> forall i :: 0 <= i < |records| ==> Acceptable(records[i]);
    if Parse(p) == Ok(records) {
      ParsedIsText(p, None);
    }
    if lengths :| Described(records, lengths) && p == TextOf(records, lengths) {
      if AllValid(records) && InOrder(records) {
        TextParses(records, lengths, None);
      }
    }
  }

  function LeastLengths(records: PaxRecords): (lengths: seq<nat>)
    ensures |lengths| == |records|
  {
    seq(|records|, i requires 0 <= i < |records| => LeastLength(BodyLength(records[i])))
  }

  lemma {:induction false} EncodedIsText(records: PaxRecords)
    ensures Encoded(records) == TextOf(records, LeastLengths(records))
    ensures forall i :: 0 <= i < |records| ==> LeastLength(BodyLength(records[i])) <= |Encoded(records)|
  {
    hide RecordText, LeastLength;
    if records != [] {
      EncodedIsText(records[1..]);
      assert LeastLengths(records)[1..] == LeastLengths(records[1..]);
      TextLength(records[0], LeastLength(BodyLength(records[0])));
      assert forall i :: 1 <= i < |records| ==> records[i] == records[1..][i - 1];
    }
  }

  // parse(encode(r)) = r
  lemma EncodeParseRoundTrip(records: PaxRecords)
    requires records != [] && AllValid(records) && InOrder(records)
    requires |Encoded(records)| <= 67108864
    ensures Parse(Encoded(records)) == Ok(records)
  {
    hide RecordText, LeastLength, ParseFrom, ValidRecord, TextOf, InOrder, Sorted;
    SortedFrom(records, None);
    EncodedIsText(records);
    TextParses(records, LeastLengths(records), None);
    EncodedNonEmpty(records);
  }

  lemma EncodedNonEmpty(records: PaxRecords)
    requires records != []
    ensures Encoded(records) != []
  {
  }

  ghost predicate IsPowerOfTen(n: nat) {
    exists k: nat :: 1 <= k && n == Pow10(k)
  }

  // encode(parse(p)) keeps the records always, and the bytes exactly when no record of `p`
  // declares a power of ten as its length.
  lemma ParseEncodeRoundTrip(p: Text)
    requires Parse(p).Ok?
    ensures var records := Parse(p).value;
            && |Encoded(records)| <= |p| && Parse(Encoded(records)) == Ok(records)
            && (Encoded(records) == p <==> forall i :: 0 <= i < |Declared(p)| ==> !IsPowerOfTen(Declared(p)[i]))
  {
    hide RecordText, LeastLength, ParseFrom, Encoded, TextOf, ValidRecord, SelfDescribing, InOrder, Sorted;
    var records := Parse(p).value;
    ParsedIsText(p, None);
    SortedFrom(records, None);
    EncodedIsText(records);
    CompareLengths(records, Declared(p));
    EncodeParseRoundTrip(records);
  }

  // Replacing each length by the least one shortens the text unless all are least already.
  lemma {:induction false} CompareLengths(records: PaxRecords, lengths: seq<nat>)
    requires Described(records, lengths)
    ensures |TextOf(records, LeastLengths(records))| <= |TextOf(records, lengths)|
    ensures TextOf(records, LeastLengths(records)) == TextOf(records, lengths)
       <==> forall i :: 0 <= i < |lengths| ==> !IsPowerOfTen(lengths[i])
    decreases |records|
  {
    hide RecordText, LeastLength, SelfDescribing, IsPowerOfTen;
    if records != [] {
      var (rec, length) := (records[0], lengths[0]);
      var least := LeastLength(BodyLength(rec));
      CompareLengths(records[1..], lengths[1..]);
      assert LeastLengths(records)[1..] == LeastLengths(records[1..]);
      assert forall i :: 1 <= i < |records| ==> records[i] == records[1..][i - 1];
      OneLength(rec, length);
      TextLength(rec, length);
      TextLength(rec, least);
      var (a, b) := (TextOf(records[1..], LeastLengths(records[1..])), TextOf(records[1..], lengths[1..]));
      if length == least {
        SamePrefix(RecordText(rec, length), a, b);
      }
      assert (forall i :: 0 <= i < |lengths| ==> !IsPowerOfTen(lengths[i]))
        <==> !IsPowerOfTen(length) && forall i :: 0 <= i < |lengths[1..]| ==> !IsPowerOfTen(lengths[1..][i]) by {
        assert forall i :: 1 <= i < |lengths| ==> lengths[i] == lengths[1..][i - 1];
      }
    }
  }

  lemma SamePrefix(x: Text, a: Text, b: Text)
    ensures x + a == x + b <==> a == b
  {
    assert (x + a)[|x|..] == a && (x + b)[|x|..] == b;
  }

  lemma OneLength(rec: Record, length: nat)
    requires SelfDescribing(length, BodyLength(rec))
    ensures LeastLength(BodyLength(rec)) <= length
    ensures IsPowerOfTen(length) <==> LeastLength(BodyLength(rec)) != length
  {
    hide LeastLength;
    LeastIsLeast(BodyLength(rec), length);
    if k: nat :| 1 <= k && length == Pow10(k) {
      RedundantLength(BodyLength(rec), k);
    }
  }

  // "10 a=bcde\n" parses, but prints as "9 a=bcde\n".
  lemma RedundantExample()
    ensures var rec := Record([97], [98, 99, 100, 101]);
            && Parse(RecordText(rec, 10)) == Ok([rec])
            && Encoded([rec]) == RecordText(rec, 9) && Encoded([rec]) != RecordText(rec, 10)
  {
    hide LeastLength, ParseFrom, RecordText, SelfDescribing;
    var rec := Record([97], [98, 99, 100, 101]);
    ExampleLengths();
    TextLength(rec, 9);
    TextLength(rec, 10);
    TextParses([rec], [10], None);
    assert TextOf([rec], [10]) == RecordText(rec, 10) + [] == RecordText(rec, 10);
    assert Encoded([rec]) == RecordText(rec, 9) + [];
  }

  lemma ExampleLengths()
    ensures SelfDescribing(9, 8) && SelfDescribing(10, 8) && LeastLength(8) == 9
  {
    hide LeastLength;
    assert Print(9) == [57] && Print(10) == [49, 48];
    assert Pow10(1) == 10;
    RedundantLength(8, 1);
  }

  // "6 a=1\n6 b=2\n" is accepted and is what the printer writes; the other order is refused.
  lemma TwoRecords()
    ensures var (a, b) := (Record([97], [49]), Record([98], [50]));
            var (first, second) := ([54, 32, 97, 61, 49, 10], [54, 32, 98, 61, 50, 10]);
            && InOrder([a, b]) && Encoded([a, b]) == first + second && Parse(first + second) == Ok([a, b])
            && Parse(second + first) == Invalid("PAX", "keys are not strictly sorted and unique")
  {
    hide LeastLength, ParseFrom, RecordText, SelfDescribing, Parse;
    var (a, b) := (Record([97], [49]), Record([98], [50]));
    SixBytes(a);
    SixBytes(b);
    assert DiffersAt(a.key, b.key, 0);
    TwoEncoded(a, b);
    assert RecordText(a, 6) == [54, 32, 97, 61, 49, 10] && RecordText(b, 6) == [54, 32, 98, 61, 50, 10];
    EncodeParseRoundTrip([a, b]);
    WrongOrder(a, b);
  }

  lemma TwoEncoded(a: Record, b: Record)
    requires |a.key| == |a.value| == |b.key| == |b.value| == 1
    ensures Encoded([a, b]) == RecordText(a, 6) + RecordText(b, 6)
  {
    hide LeastLength, RecordText, SelfDescribing;
    SixBytes(a);
    SixBytes(b);
    assert [a, b][1..] == [b] && [b][1..] == [];
    assert Encoded([b]) == RecordText(b, 6) + [];
  }

  lemma WrongOrder(a: Record, b: Record)
    requires |a.key| == |a.value| == |b.key| == |b.value| == 1 && ValidRecord(a) && ValidRecord(b)
    requires a.key[0] < b.key[0]
    ensures Parse(RecordText(b, 6) + RecordText(a, 6)) == Invalid("PAX", "keys are not strictly sorted and unique")
  {
    hide RecordText, ParseRecord, SelfDescribing, LeastLength;
    SixBytes(a);
    SixBytes(b);
    var (first, second) := (RecordText(a, 6), RecordText(b, 6));
    RecordTextParses(b, 6, first);
    RecordTextParses(a, 6, []);
    assert first + [] == first && (second + first)[6..] == first;
    assert ParseFrom(first, Some(b.key)) == Invalid("PAX", "keys are not strictly sorted and unique");
    assert ParseFrom(second + first, None) == Prepend([b], ParseFrom(first, Some(b.key)));
  }

  lemma SixBytes(rec: Record)
    requires |rec.key| == |rec.value| == 1
    ensures BodyLength(rec) == 5 && LeastLength(5) == 6 && SelfDescribing(6, 5)
    ensures RecordText(rec, 6) == [54, 32] + rec.key + [61] + rec.value + [10]
  {
    hide LeastLength;
    assert Print(6) == [54];
    assert !SelfDescribing(5, 5);
    LeastIsLeast(5, 6);
  }
}
