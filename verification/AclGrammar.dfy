/** The grammar of canonical access control list text, stated by printing its entries, and what each converts to. */
module AclGrammar {
  import opened Acl
  import opened AclText
  import opened Decimal
  import opened Format
  import Pax

  datatype Kind = OwnerUser | OwnerGroup | Others | NamedUser | NamedGroup | MaskEntry

  datatype Entry = Entry(kind: Kind, name: Text, r: bool, w: bool, x: bool, id: Option<nat>)

  // ---------- the reference ----------

  // "user", "group", "other" and "mask"
  function TagOf(kind: Kind): Text {
    match kind
    case OwnerUser => [117, 115, 101, 114]
    case NamedUser => [117, 115, 101, 114]
    case OwnerGroup => [103, 114, 111, 117, 112]
    case NamedGroup => [103, 114, 111, 117, 112]
    case Others => [111, 116, 104, 101, 114]
    case MaskEntry => [109, 97, 115, 107]
  }

  // 'r', 'w' and 'x', or '-'
  function PermsOf(e: Entry): Text {
    [if e.r then 114 else 45, if e.w then 119 else 45, if e.x then 120 else 45]
  }

  // Tag, name and permissions between colons, and perhaps a number.
  function EntryText(e: Entry): Text {
    TagOf(e.kind) + [58] + e.name + [58] + PermsOf(e) + if e.id.Some? then [58] + Print(e.id.value) else []
  }

  predicate IsNamed(kind: Kind) {
    kind.NamedUser? || kind.NamedGroup?
  }

  ghost predicate AllowedIn(name: Text) {
    forall i :: 0 <= i < |name| ==>
      && name[i] as char != ',' && name[i] as char != ':' && name[i] as char != '\r' && name[i] as char != '\n'
      && name[i] != 0
  }

  // A principal is a 64-bit number in its shortest form, or a normalised name with perhaps a number beside it.
  ghost predicate ProperName(u: Unicode, e: Entry) {
    && e.name != [] && u.nfc(e.name)
    && AllowedIn(e.name) && (e.id.Some? ==> e.id.value < 0x1_0000_0000_0000_0000)
    && (AllDigits(e.name) ==>
          e.id.None? && e.name == Print(Value(e.name)) && Value(e.name) < 0x1_0000_0000_0000_0000)
  }

  ghost predicate Proper(u: Unicode, e: Entry) {
    if IsNamed(e.kind) then ProperName(u, e) else e.name == [] && e.id.None?
  }

  function Class(kind: Kind): nat {
    match kind
    case OwnerUser => 0
    case OwnerGroup => 1
    case Others => 2
    case NamedUser => 3
    case NamedGroup => 4
    case MaskEntry => 5
  }

  // The principal's number; a name without one comes last.
  ghost function Number(e: Entry): nat {
    if e.name == [] then 0
    else if AllDigits(e.name) then Value(e.name)
    else if e.id.Some? then e.id.value
    else 0xffff_ffff_ffff_ffff
  }

  // By kind, then by number, then by name.
  ghost predicate Precedes(e: Entry, f: Entry) {
    || Class(e.kind) < Class(f.kind)
    || (Class(e.kind) == Class(f.kind) &&
        (Number(e) < Number(f) || (Number(e) == Number(f) && Pax.Before(e.name, f.name))))
  }

  ghost predicate Has(entries: seq<Entry>, kind: Kind) {
    exists i :: 0 <= i < |entries| && entries[i].kind == kind
  }

  // UTF-8 without blanks, '#', NUL, "default:", or a comma at an end.
  ghost predicate Clean(u: Unicode, s: Text) {
    && u.utf8(s) && s != [] && s[0] as char != ',' && s[|s| - 1] as char != ','
    && (forall i :: 0 <= i < |s| ==>
          s[i] as char != ' ' && s[i] as char != '\t' && s[i] as char != '\n' && s[i] != 12 && s[i] as char != '\r'
          && s[i] as char != '#' && s[i] != 0)
    && forall i :: 0 <= i < |s| ==> !DefaultAt(s, i)
  }

  // "default:"
  ghost predicate DefaultAt(s: Text, i: nat) {
    i + 8 <= |s| && s[i..i + 8] == [100, 101, 102, 97, 117, 108, 116, 58]
  }

  ghost function EntryTexts(entries: seq<Entry>): (r: seq<Text>)
    ensures |r| == |entries|
  {
    seq(|entries|, i requires 0 <= i < |entries| => EntryText(entries[i]))
  }

  // Proper entries in ascending order, the three base ones among them, and a mask if anyone is named.
  ghost predicate ProperList(u: Unicode, entries: seq<Entry>) {
    && (forall i :: 0 <= i < |entries| ==> Proper(u, entries[i]))
    && (forall i, j :: 0 <= i < j < |entries| ==> Precedes(entries[i], entries[j]))
    && Has(entries, OwnerUser) && Has(entries, OwnerGroup) && Has(entries, Others)
    && (Has(entries, NamedUser) || Has(entries, NamedGroup) ==> Has(entries, MaskEntry))
  }

  ghost predicate Grammatical(u: Unicode, s: Text) {
    Clean(u, s) && exists entries :: entries != [] && ProperList(u, entries) && s == Join(EntryTexts(entries), 44)
  }

  // ---------- one entry ----------

  lemma CleanIsPlain(u: Unicode, s: Text)
    ensures Clean(u, s) <==> PlainText(u, s)
  {
    assert forall i: nat :: DefaultAt(s, i) <==> ContainsAt(s, DEFAULT, i);
  }

  function KeyOf(e: Entry, number: nat): Key {
    Key(Class(e.kind), number, e.name)
  }

  function TupleOf(e: Entry): Tuple {
    Tuple(TagOf(e.kind), e.name, PermsOf(e), e.id)
  }

  lemma MinimalPrint(s: Text)
    requires AllDigits(s)
    ensures s == Print(Value(s)) <==> Minimal(s)
  {
    hide Print, Value, Minimal;
    PrintMinimal(Value(s));
    if Minimal(s) {
      PrintValue(s);
    }
  }

  lemma PrintMinimal(n: nat)
    ensures Minimal(Print(n))
  {
  }

  lemma NumberOf(u: Unicode, e: Entry)
    requires IsNamed(e.kind)
    ensures ProperName(u, e) <==>
            NameQualifier(u, e.name, e.id).Ok? && (e.id.Some? ==> e.id.value <= U64_MAX)
    ensures ProperName(u, e) ==> NameQualifier(u, e.name, e.id) == Ok(Number(e))
  {
    hide Print, Value, Minimal, AllDigits;
    assert (exists i :: 0 <= i < |e.name| && ForbiddenInName(e.name[i])) <==> !AllowedIn(e.name);
    if AllDigits(e.name) && e.name != [] {
      MinimalPrint(e.name);
    }
  }

  // The key of an entry's tuple, exactly if the entry is proper.
  lemma TupleKeyIs(u: Unicode, e: Entry)
    requires e.id.Some? ==> e.id.value <= U64_MAX
    requires e.name == [] <==> !IsNamed(e.kind)
    ensures TupleKey(u, TupleOf(e)).Ok? <==> Proper(u, e)
    ensures Proper(u, e) ==> TupleKey(u, TupleOf(e)) == Ok(KeyOf(e, Number(e)))
  {
    hide NameQualifier, ProperName, Value, AllDigits;
    if IsNamed(e.kind) {
      NumberOf(u, e);
    }
  }

  lemma FieldsOf(u: Unicode, e: Entry)
    requires Proper(u, e)
    ensures Split(EntryText(e), 58)
         == [TagOf(e.kind), e.name, PermsOf(e)] + if e.id.Some? then [Print(e.id.value)] else []
    ensures 44 !in EntryText(e)
  {
    hide Split, Print;
    assert 58 !in TagOf(e.kind) && 58 !in e.name && 58 !in PermsOf(e) && 44 !in TagOf(e.kind) && 44 !in PermsOf(e);
    assert 44 !in e.name;
    var tail := PermsOf(e) + if e.id.Some? then [58] + Print(e.id.value) else [];
    assert EntryText(e) == TagOf(e.kind) + [58] + (e.name + [58] + tail);
    SplitHead(TagOf(e.kind), e.name + [58] + tail, 58);
    SplitHead(e.name, tail, 58);
    if e.id.Some? {
      DigitsOnly(e.id.value);
      assert tail == PermsOf(e) + [58] + Print(e.id.value);
      SplitHead(PermsOf(e), Print(e.id.value), 58);
      SplitWhole(Print(e.id.value), 58);
    } else {
      assert tail == PermsOf(e);
      SplitWhole(tail, 58);
    }
  }

  lemma DigitsOnly(n: nat)
    ensures 58 !in Print(n) && 44 !in Print(n)
  {
    hide Print;
    assert forall i :: 0 <= i < |Print(n)| ==> IsDigit(Print(n)[i]);
  }

  lemma ParsesBack(u: Unicode, e: Entry)
    requires Proper(u, e)
    ensures ParseTuple(EntryText(e)) == Ok(TupleOf(e))
  {
    hide Split, Print, Value, EntryText, Minimal;
    FieldsOf(u, e);
    if e.id.Some? {
      PrintMinimal(e.id.value);
      ValuePrint(e.id.value);
    }
  }

  lemma Analyzed(u: Unicode, e: Entry)
    requires Proper(u, e)
    ensures Analyze(u, EntryText(e)) == Ok(KeyOf(e, Number(e))) && 44 !in EntryText(e)
  {
    hide ParseTuple, EntryText, Number, NameQualifier, ProperName;
    ParsesBack(u, e);
    FieldsOf(u, e);
    ProperFacts(u, e);
    TupleKeyIs(u, e);
  }

  lemma ProperFacts(u: Unicode, e: Entry)
    requires Proper(u, e)
    ensures (e.id.Some? ==> e.id.value <= U64_MAX) && (e.name == [] <==> !IsNamed(e.kind))
  {
  }

  // ---------- and back ----------

  function KindOf(t: Tuple): Kind {
    if t.name == [] then
      if t.tag == USER then OwnerUser else if t.tag == GROUP then OwnerGroup else if t.tag == OTHER then Others
      else MaskEntry
    else if t.tag == USER then NamedUser else NamedGroup
  }

  function EntryOf(t: Tuple): Entry
    requires |t.perms| == 3
  {
    Entry(KindOf(t), t.name, t.perms[0] != 45, t.perms[1] != 45, t.perms[2] != 45, t.id)
  }

  lemma EntryOfTuple(u: Unicode, t: Tuple)
    requires ValidPermissions(t.perms) && TupleKey(u, t).Ok? && (t.id.Some? ==> t.id.value <= U64_MAX)
    ensures TupleOf(EntryOf(t)) == t && Proper(u, EntryOf(t))
    ensures TupleKey(u, t) == Ok(KeyOf(EntryOf(t), Number(EntryOf(t))))
  {
    hide NameQualifier, ProperName, Number;
    TupleKeyIs(u, EntryOf(t));
  }

  lemma TextOfTuple(s: Text)
    requires ParseTuple(s).Ok?
    ensures var t := ParseTuple(s).value;
            && ValidPermissions(t.perms) && (t.id.Some? ==> t.id.value <= U64_MAX)
            && s == t.tag + [58] + t.name + [58] + t.perms + if t.id.Some? then [58] + Print(t.id.value) else []
  {
    hide Split, Join, Value, Print, Minimal;
    var (t, fields) := (ParseTuple(s).value, Split(s, 58));
    JoinSplit(s, 58);
    if |fields| == 3 {
      JoinsThree(fields[0], fields[1], fields[2]);
      assert fields == [fields[0], fields[1], fields[2]];
    } else {
      JoinsFour(fields[0], fields[1], fields[2], fields[3]);
      assert fields == [fields[0], fields[1], fields[2], fields[3]];
      PrintValue(fields[3]);
    }
  }

  lemma JoinsThree(a: Text, b: Text, c: Text)
    ensures Join([a, b, c], 58) == a + [58] + b + [58] + c
  {
    assert [a, b, c][1..] == [b, c] && [b, c][1..] == [c] && Join([c], 58) == c;
    assert Join([b, c], 58) == b + [58] + c;
    assert a + [58] + (b + [58] + c) == a + [58] + b + [58] + c;
  }

  lemma JoinsFour(a: Text, b: Text, c: Text, d: Text)
    ensures Join([a, b, c, d], 58) == a + [58] + b + [58] + c + ([58] + d)
  {
    assert [a, b, c, d][1..] == [b, c, d];
    JoinsThree(b, c, d);
    assert a + [58] + (b + [58] + c + [58] + d) == a + [58] + b + [58] + c + ([58] + d);
  }

  lemma Recovered(u: Unicode, s: Text)
    requires Analyze(u, s).Ok?
    ensures var e := EntryOf(ParseTuple(s).value);
            Proper(u, e) && EntryText(e) == s && Analyze(u, s) == Ok(KeyOf(e, Number(e)))
  {
    hide ParseTuple, TupleKey, ProperName, Number, Print, KindOf;
    TextOfTuple(s);
    EntryOfTuple(u, ParseTuple(s).value);
  }

  // ---------- the order ----------

  lemma KeyLessIff(e: Entry, f: Entry)
    ensures KeyLess(KeyOf(e, Number(e)), KeyOf(f, Number(f))) <==> Precedes(e, f)
  {
    hide Number, Pax.Less, Pax.Before;
    Pax.LessIff(e.name, f.name);
  }

  ghost predicate Keyed(u: Unicode, entries: seq<Entry>, tuples: seq<Text>) {
    && |entries| == |tuples| && AllAnalyze(u, tuples)
    && forall i :: 0 <= i < |entries| ==> KeysOf(u, tuples)[i] == KeyOf(entries[i], Number(entries[i]))
  }

  lemma OrderIff(u: Unicode, entries: seq<Entry>, tuples: seq<Text>)
    requires Keyed(u, entries, tuples)
    ensures Ascending(KeysOf(u, tuples)) <==>
            forall i, j :: 0 <= i < j < |entries| ==> Precedes(entries[i], entries[j])
  {
    hide KeyLess, Precedes, Number, Analyze;
    var keys := KeysOf(u, tuples);
    forall i, j | 0 <= i < |entries| && 0 <= j < |entries|
      ensures KeyLess(keys[i], keys[j]) <==> Precedes(entries[i], entries[j])
    {
      KeyLessIff(entries[i], entries[j]);
    }
    if Ascending(keys) {
      forall i, j | 0 <= i < j < |entries| ensures KeyLess(keys[i], keys[j]) {
        var front := keys[..j + 1];
        assert Ascending(front);
        LastIsLargest(front, i);
      }
    }
  }

  lemma KindsIff(u: Unicode, entries: seq<Entry>, tuples: seq<Text>, kind: Kind)
    requires Keyed(u, entries, tuples)
    ensures HasCategory(KeysOf(u, tuples), Class(kind)) <==> Has(entries, kind)
  {
    hide Number, Analyze;
    var keys := KeysOf(u, tuples);
    if Has(entries, kind) {
      var i :| 0 <= i < |entries| && entries[i].kind == kind;
      assert keys[i].category == Class(kind);
    }
    if HasCategory(keys, Class(kind)) {
      var i :| 0 <= i < |keys| && keys[i].category == Class(kind);
      assert keys[i] == KeyOf(entries[i], Number(entries[i]));
    }
  }

  lemma ListIff(u: Unicode, entries: seq<Entry>, tuples: seq<Text>)
    requires Keyed(u, entries, tuples) && forall i :: 0 <= i < |entries| ==> Proper(u, entries[i])
    ensures ProperList(u, entries) <==> Ascending(KeysOf(u, tuples)) && Complete(KeysOf(u, tuples))
  {
    hide Ascending, HasCategory, Has, Precedes, Proper, Keyed, KeysOf, AllAnalyze;
    KeyedAnalyze(u, entries, tuples);
    OrderIff(u, entries, tuples);
    KindsIff(u, entries, tuples, OwnerUser);
    KindsIff(u, entries, tuples, OwnerGroup);
    KindsIff(u, entries, tuples, Others);
    KindsIff(u, entries, tuples, NamedUser);
    KindsIff(u, entries, tuples, NamedGroup);
    KindsIff(u, entries, tuples, MaskEntry);
  }

  lemma KeyedAnalyze(u: Unicode, entries: seq<Entry>, tuples: seq<Text>)
    requires Keyed(u, entries, tuples)
    ensures AllAnalyze(u, tuples)
  {
  }

  // ---------- the whole text ----------

  lemma FromEntries(u: Unicode, entries: seq<Entry>)
    requires entries != [] && forall i :: 0 <= i < |entries| ==> Proper(u, entries[i])
    ensures Split(Join(EntryTexts(entries), 44), 44) == EntryTexts(entries) && Keyed(u, entries, EntryTexts(entries))
  {
    hide EntryText, Split, Join, Proper, Analyze, Number;
    forall i | 0 <= i < |entries|
      ensures 44 !in EntryTexts(entries)[i]
      ensures Analyze(u, EntryTexts(entries)[i]) == Ok(KeyOf(entries[i], Number(entries[i])))
    {
      Analyzed(u, entries[i]);
    }
    SplitJoin(EntryTexts(entries), 44);
  }

  lemma ToEntries(u: Unicode, tuples: seq<Text>) returns (entries: seq<Entry>)
    requires AllAnalyze(u, tuples)
    ensures EntryTexts(entries) == tuples && Keyed(u, entries, tuples)
    ensures forall i :: 0 <= i < |entries| ==> Proper(u, entries[i])
  {
    hide EntryText, Proper, Number, ParseTuple, TupleKey, EntryOf;
    entries := seq(|tuples|, i requires 0 <= i < |tuples| => EntryOf(ParseTuple(tuples[i]).value));
    forall i | 0 <= i < |tuples|
      ensures Proper(u, entries[i]) && EntryText(entries[i]) == tuples[i]
      ensures Analyze(u, tuples[i]) == Ok(KeyOf(entries[i], Number(entries[i])))
    {
      Recovered(u, tuples[i]);
    }
  }

  // A text is valid exactly if the grammar gives it.
  lemma ValidIffGrammatical(u: Unicode, s: Text)
    ensures ValidText(u, s) <==> Grammatical(u, s)
  {
    hide PlainText, Clean, AllAnalyze, Ascending, Complete, ProperList, Split, Join, Keyed, KeysOf;
    CleanIsPlain(u, s);
    if ValidText(u, s) {
      var entries := ToEntries(u, Split(s, 44));
      JoinSplit(s, 44);
      ListIff(u, entries, Split(s, 44));
    }
    if Grammatical(u, s) {
      var entries :| entries != [] && ProperList(u, entries) && s == Join(EntryTexts(entries), 44);
      AllProper(u, entries);
      FromEntries(u, entries);
      KeyedAnalyze(u, entries, EntryTexts(entries));
      ListIff(u, entries, EntryTexts(entries));
    }
  }

  lemma AllProper(u: Unicode, entries: seq<Entry>)
    requires ProperList(u, entries)
    ensures forall i :: 0 <= i < |entries| ==> Proper(u, entries[i])
  {
  }

  // ---------- what an entry converts to ----------

  // The id a named entry stands for: a number that fits 32 bits, also behind a plus sign, or else the number beside it.
  ghost function Id32(e: Entry): Option<nat> {
    var digits := if e.name != [] && e.name[0] as char == '+' then e.name[1..] else e.name;
    if digits != [] && AllDigits(digits) && Value(digits) < 0x1_0000_0000 then Some(Value(digits))
    else if e.id.Some? && e.id.value < 0x1_0000_0000 then e.id
    else None
  }

  function Bits(e: Entry): nat {
    (if e.r then 4 else 0) + (if e.w then 2 else 0) + (if e.x then 1 else 0)
  }

  ghost function AceFor(e: Entry): Option<Ace> {
    match e.kind
    case OwnerUser => Some(Ace(0x01, Bits(e), 0xffff_ffff))
    case NamedUser => if Id32(e).Some? then Some(Ace(0x02, Bits(e), Id32(e).value)) else None
    case OwnerGroup => Some(Ace(0x04, Bits(e), 0xffff_ffff))
    case NamedGroup => if Id32(e).Some? then Some(Ace(0x08, Bits(e), Id32(e).value)) else None
    case MaskEntry => Some(Ace(0x10, Bits(e), 0xffff_ffff))
    case Others => Some(Ace(0x20, Bits(e), 0xffff_ffff))
  }

  lemma AceForTuple(e: Entry)
    requires e.name == [] <==> !IsNamed(e.kind)
    ensures ToAce(TupleOf(e)) == AceFor(e)
  {
    hide Value, AllDigits;
  }

  lemma AceForText(u: Unicode, e: Entry)
    requires Proper(u, e)
    ensures HasAce(EntryText(e)) <==> AceFor(e).Some?
    ensures AceFor(e).Some? ==> AceOf(EntryText(e)) == AceFor(e).value
  {
    hide ParseTuple, EntryText, ToAce, AceFor, ProperName;
    ParsesBack(u, e);
    ProperFacts(u, e);
    AceForTuple(e);
  }

  ghost predicate AllConvert(entries: seq<Entry>) {
    forall i :: 0 <= i < |entries| ==> AceFor(entries[i]).Some?
  }

  ghost function AcesFor(entries: seq<Entry>): (r: seq<Ace>)
    requires AllConvert(entries)
    ensures |r| == |entries|
  {
    seq(|entries|, i requires 0 <= i < |entries| => AceFor(entries[i]).value)
  }

  // A valid text converts exactly if every name has a 32-bit id; the attribute holds just these entries, in order.
  lemma ConvertsExactly(u: Unicode, entries: seq<Entry>)
    requires entries != [] && ProperList(u, entries) && Clean(u, Join(EntryTexts(entries), 44))
    ensures XattrOf(u, Join(EntryTexts(entries), 44)).Some? <==> AllConvert(entries)
    ensures AllConvert(entries) ==>
              var b := XattrOf(u, Join(EntryTexts(entries), 44)).value;
              KernelOrdered(b) && multiset(Entries(b[4..])) == multiset(AcesFor(entries))
  {
    hide Clean, Join, Split, ValidText, ProperList, EntryText, AceFor, HasAce, AceOf, KernelOrdered, Entries, Proper,
      Keyed;
    var s := Join(EntryTexts(entries), 44);
    assert Grammatical(u, s);
    ValidIffGrammatical(u, s);
    AllProper(u, entries);
    FromEntries(u, entries);
    forall i | 0 <= i < |entries|
      ensures HasAce(EntryTexts(entries)[i]) <==> AceFor(entries[i]).Some?
      ensures AceFor(entries[i]).Some? ==> AceOf(EntryTexts(entries)[i]) == AceFor(entries[i]).value
    {
      AceForText(u, entries[i]);
    }
    if AllConvert(entries) {
      assert AcesOf(EntryTexts(entries)) == AcesFor(entries);
      XattrInKernelOrder(u, s);
    }
  }
}
