/** Linux POSIX ACL attributes and their canonical text: the two converters. */
module Acl {
  import opened AclText
  import opened Bytes
  import opened Decimal
  import opened Format
  import Pax

  // ---------- entries ----------

  datatype Ace = Ace(tag: nat, perms: nat, id: nat)

  predicate Named(a: Ace) {
    a.tag == 0x02 || a.tag == 0x08
  }

  predicate ValidAce(a: Ace) {
    && a.perms < 8
    && if Named(a) then a.id < U32_MAX
       else (a.tag == 0x01 || a.tag == 0x04 || a.tag == 0x10 || a.tag == 0x20) && a.id == U32_MAX
  }

  ghost predicate AllValid(aces: seq<Ace>) {
    forall i :: 0 <= i < |aces| ==> ValidAce(aces[i])
  }

  // The place of an entry in the text, and in the kernel's attribute.
  function Category(tag: nat): nat {
    if tag == 0x01 then 0 else if tag == 0x04 then 1 else if tag == 0x20 then 2
    else if tag == 0x02 then 3 else if tag == 0x08 then 4 else 5
  }

  function Rank(tag: nat): nat {
    if tag == 0x01 then 0 else if tag == 0x02 then 1 else if tag == 0x04 then 2
    else if tag == 0x08 then 3 else if tag == 0x10 then 4 else 5
  }

  function TextKey(a: Ace): int {
    Category(a.tag) * 0x1_0000_0000 + if Named(a) then a.id else 0
  }

  function KernelKey(a: Ace): int {
    Rank(a.tag) * 0x1_0000_0000 + a.id
  }

  // ---------- sorting ----------

  ghost predicate SortedBy(key: Ace -> int, s: seq<Ace>) {
    forall i, j :: 0 <= i < j < |s| ==> key(s[i]) <= key(s[j])
  }

  ghost predicate StrictBy(key: Ace -> int, s: seq<Ace>) {
    forall i, j :: 0 <= i < j < |s| ==> key(s[i]) < key(s[j])
  }

  function Insert(key: Ace -> int, a: Ace, s: seq<Ace>): seq<Ace> {
    if s == [] || key(a) <= key(s[0]) then [a] + s else [s[0]] + Insert(key, a, s[1..])
  }

  // A stable sort.
  function Sort(key: Ace -> int, s: seq<Ace>): seq<Ace> {
    if s == [] then [] else Insert(key, s[0], Sort(key, s[1..]))
  }

  lemma {:induction false} InsertMultiset(key: Ace -> int, a: Ace, s: seq<Ace>)
    ensures multiset(Insert(key, a, s)) == multiset{a} + multiset(s)
  {
    if s != [] && key(a) > key(s[0]) {
      InsertMultiset(key, a, s[1..]);
      assert s == [s[0]] + s[1..];
    }
  }

  ghost predicate AtLeast(key: Ace -> int, s: seq<Ace>, low: int) {
    forall i :: 0 <= i < |s| ==> low <= key(s[i])
  }

  lemma {:induction false} InsertAtLeast(key: Ace -> int, a: Ace, s: seq<Ace>, low: int)
    requires AtLeast(key, s, low) && low <= key(a)
    ensures AtLeast(key, Insert(key, a, s), low)
  {
    if s != [] && key(a) > key(s[0]) {
      InsertAtLeast(key, a, s[1..], low);
    }
  }

  lemma SortedHead(key: Ace -> int, a: Ace, s: seq<Ace>)
    ensures SortedBy(key, [a] + s) <==> AtLeast(key, s, key(a)) && SortedBy(key, s)
  {
    var all := [a] + s;
    assert all[1..] == s;
    if SortedBy(key, all) {
      forall i | 0 <= i < |s| ensures key(a) <= key(s[i]) {
        assert all[0] == a && all[i + 1] == s[i];
      }
      SortedTail(key, all);
    }
  }

  lemma {:induction false} InsertKeeps(key: Ace -> int, a: Ace, s: seq<Ace>)
    requires SortedBy(key, s)
    ensures SortedBy(key, Insert(key, a, s))
  {
    hide SortedBy;
    SortedHead(key, a, s);
    if s != [] {
      var rest := s[1..];
      assert s == [s[0]] + rest;
      SortedHead(key, s[0], rest);
      if key(a) > key(s[0]) {
        InsertKeeps(key, a, rest);
        InsertAtLeast(key, a, rest, key(s[0]));
        SortedHead(key, s[0], Insert(key, a, rest));
      }
    }
  }

  lemma NothingSorted(key: Ace -> int)
    ensures SortedBy(key, [])
  {
  }

  lemma {:induction false} SortKeeps(key: Ace -> int, s: seq<Ace>)
    ensures multiset(Sort(key, s)) == multiset(s) && SortedBy(key, Sort(key, s))
  {
    hide Insert, SortedBy;
    NothingSorted(key);
    if s != [] {
      SortKeeps(key, s[1..]);
      InsertKeeps(key, s[0], Sort(key, s[1..]));
      InsertMultiset(key, s[0], Sort(key, s[1..]));
      assert s == [s[0]] + s[1..];
    }
  }

  // Distinct keys leave only one sorted arrangement.
  lemma {:induction false} OneArrangement(key: Ace -> int, s: seq<Ace>, t: seq<Ace>)
    requires StrictBy(key, s) && SortedBy(key, t) && multiset(s) == multiset(t)
    ensures s == t
    decreases |s|
  {
    hide SortedBy, StrictBy;
    SameLength(s, t);
    if s != [] {
      SameHead(key, s, t);
      TailMultiset(s);
      TailMultiset(t);
      StrictTail(key, s);
      SortedTail(key, t);
      OneArrangement(key, s[1..], t[1..]);
    }
  }

  lemma TailMultiset(s: seq<Ace>)
    requires s != []
    ensures multiset(s[1..]) == multiset(s) - multiset{s[0]}
  {
    assert s == [s[0]] + s[1..];
  }

  lemma SameLength(s: seq<Ace>, t: seq<Ace>)
    requires multiset(s) == multiset(t)
    ensures |s| == |t|
  {
    assert |multiset(s)| == |s| && |multiset(t)| == |t|;
  }

  lemma StrictTail(key: Ace -> int, s: seq<Ace>)
    requires s != [] && StrictBy(key, s)
    ensures StrictBy(key, s[1..])
  {
  }

  lemma SortedTail(key: Ace -> int, s: seq<Ace>)
    requires s != [] && SortedBy(key, s)
    ensures SortedBy(key, s[1..])
  {
  }

  lemma SameHead(key: Ace -> int, s: seq<Ace>, t: seq<Ace>)
    requires s != [] && t != [] && StrictBy(key, s) && SortedBy(key, t) && multiset(s) == multiset(t)
    ensures s[0] == t[0]
  {
    assert s[0] in multiset(t) && t[0] in multiset(s);
    var i :| 0 <= i < |t| && t[i] == s[0];
    var j :| 0 <= j < |s| && s[j] == t[0];
    assert i > 0 ==> key(t[0]) <= key(t[i]);
  }

  ghost predicate StepsBy(key: Ace -> int, s: seq<Ace>) {
    forall i :: 0 <= i < |s| - 1 ==> key(s[i]) < key(s[i + 1])
  }

  lemma {:induction false} StrictFromSteps(key: Ace -> int, s: seq<Ace>)
    requires StepsBy(key, s)
    ensures StrictBy(key, s)
  {
    if s != [] {
      var n := |s| - 1;
      var front := s[..n];
      StrictFromSteps(key, front);
      forall i, j | 0 <= i < j < |s|
        ensures key(s[i]) < key(s[j])
      {
        assert s[i] == front[i];
        if j < n {
          assert s[j] == front[j];
        } else {
          assert key(s[n - 1]) < key(s[n - 1 + 1]);
          assert i < n - 1 ==> key(front[i]) < key(front[n - 1]);
        }
      }
    }
  }

  // ---------- an entry as text ----------

  function TagText(tag: nat): Text {
    if tag == 0x01 || tag == 0x02 then USER else if tag == 0x04 || tag == 0x08 then GROUP
    else if tag == 0x20 then OTHER else MASK
  }

  function PermText(p: nat): Text {
    [if p / 4 % 2 == 1 then 114 else DASH, if p / 2 % 2 == 1 then 119 else DASH, if p % 2 == 1 then 120 else DASH]
  }

  function PermBits(s: Text): nat
    requires |s| == 3
  {
    (if s[0] != DASH then 4 else 0) + (if s[1] != DASH then 2 else 0) + (if s[2] != DASH then 1 else 0)
  }

  lemma PermTextBits(p: nat)
    requires p < 8
    ensures ValidPermissions(PermText(p)) && PermBits(PermText(p)) == p
  {
  }

  lemma PermBitsText(s: Text)
    requires ValidPermissions(s)
    ensures PermBits(s) < 8 && PermText(PermBits(s)) == s
  {
  }

  function NameText(a: Ace): Text {
    if Named(a) then Print(a.id) else []
  }

  function AceText(a: Ace): Text {
    Join([TagText(a.tag), NameText(a), PermText(a.perms)], COLON)
  }

  function ParseU32(s: Text): Option<nat> {
    var digits := if s != [] && s[0] == 43 then s[1..] else s;
    if digits != [] && AllDigits(digits) && Value(digits) <= U32_MAX then Some(Value(digits)) else None
  }

  // A numeric name, or else a numeric extra field.
  function NumericId(t: Tuple): Option<nat> {
    var n := ParseU32(t.name);
    if n.Some? then n else if t.id.Some? && t.id.value <= U32_MAX then t.id else None
  }

  function ToAce(t: Tuple): Option<Ace>
    requires |t.perms| == 3
  {
    var perms := PermBits(t.perms);
    if t.name == [] then
      if t.tag == USER then Some(Ace(0x01, perms, U32_MAX))
      else if t.tag == GROUP then Some(Ace(0x04, perms, U32_MAX))
      else if t.tag == MASK then Some(Ace(0x10, perms, U32_MAX))
      else if t.tag == OTHER then Some(Ace(0x20, perms, U32_MAX))
      else None
    else if NumericId(t).None? then None
    else if t.tag == USER then Some(Ace(0x02, perms, NumericId(t).value))
    else if t.tag == GROUP then Some(Ace(0x08, perms, NumericId(t).value))
    else None
  }

  lemma TupleOfText(a: Ace)
    requires ValidAce(a)
    ensures ParseTuple(AceText(a)) == Ok(Tuple(TagText(a.tag), NameText(a), PermText(a.perms), None))
  {
    hide Print, Join, Split;
    PermTextBits(a.perms);
    var fields := [TagText(a.tag), NameText(a), PermText(a.perms)];
    assert COLON !in TagText(a.tag);
    assert COLON !in NameText(a);
    assert COLON !in PermText(a.perms);
    SplitJoin(fields, COLON);
  }

  lemma PrintedId(id: nat)
    requires id < U32_MAX
    ensures ParseU32(Print(id)) == Some(id)
  {
    hide Print, Value;
    ValuePrint(id);
  }

  lemma AceOfText(a: Ace)
    requires ValidAce(a)
    ensures ToAce(Tuple(TagText(a.tag), NameText(a), PermText(a.perms), None)) == Some(a)
  {
    hide Print, PermText, PermBits, ParseU32;
    PermTextBits(a.perms);
    if Named(a) {
      PrintedId(a.id);
    }
  }

  function AceKey(a: Ace): Key {
    Key(Category(a.tag), if Named(a) then a.id else 0, NameText(a))
  }

  lemma QualifierOfId(u: Unicode, id: nat)
    requires Sane(u) && id < U32_MAX
    ensures NameQualifier(u, Print(id), None) == Ok(id)
  {
    hide Print, Value, Sane;
    ValuePrint(id);
    DigitsPass(u, Print(id));
  }

  lemma DigitsPass(u: Unicode, name: Text)
    requires Sane(u) && AllDigits(name)
    ensures u.nfc(name) && forall i :: 0 <= i < |name| ==> !ForbiddenInName(name[i])
  {
    assert forall i :: 0 <= i < |name| ==> IsDigit(name[i]);
  }

  lemma AnalyzeText(u: Unicode, a: Ace)
    requires Sane(u) && ValidAce(a)
    ensures Analyze(u, AceText(a)) == Ok(AceKey(a))
  {
    hide Sane, AceText, ParseTuple, NameQualifier, Print, PermText;
    TupleOfText(a);
    if Named(a) {
      QualifierOfId(u, a.id);
    }
  }

  lemma KeyOrder(a: Ace, b: Ace)
    requires ValidAce(a) && ValidAce(b)
    ensures KeyLess(AceKey(a), AceKey(b)) <==> TextKey(a) < TextKey(b)
  {
    hide Print;
    if AceKey(a).category == AceKey(b).category && AceKey(a).qualifier == AceKey(b).qualifier {
      Pax.LessIrreflexive(NameText(a));
    }
  }

  // A tuple whose principal, if any, is a decimal number the kernel can hold.
  predicate NumericTuple(s: Text) {
    var t := ParseTuple(s);
    t.Ok? && (t.value.name == [] || (AllDigits(t.value.name) && Value(t.value.name) < U32_MAX))
  }

  // Such a tuple is the text of one entry.
  lemma NumericIsAce(u: Unicode, s: Text)
    requires Analyze(u, s).Ok? && NumericTuple(s)
    ensures ToAce(ParseTuple(s).value).Some?
    ensures ValidAce(ToAce(ParseTuple(s).value).value) && AceText(ToAce(ParseTuple(s).value).value) == s
  {
    hide Split, Join, PermBits, PermText, Value, Print, ValidPermissions, ParseAclId;
    var t := ParseTuple(s).value;
    NumericFields(u, s);
    PermBitsText(t.perms);
    JoinSplit(s, COLON);
    if t.name != [] {
      NumericName(t);
      PrintValue(t.name);
    }
  }

  lemma NumericFields(u: Unicode, s: Text)
    requires Analyze(u, s).Ok? && NumericTuple(s)
    ensures var t := ParseTuple(s).value;
            && ValidPermissions(t.perms) && t.id == None && Split(s, COLON) == [t.tag, t.name, t.perms]
            && (t.name != [] ==> Minimal(t.name) && (t.tag == USER || t.tag == GROUP))
            && (t.name == [] ==> t.tag in [USER, GROUP, OTHER, MASK])
  {
    hide Split, Value, ValidPermissions, BaseError;
    ParsedFields(s);
    if ParseTuple(s).value.name != [] {
      NumericQualifier(u, ParseTuple(s).value);
    }
  }

  lemma ParsedFields(s: Text)
    requires ParseTuple(s).Ok?
    ensures var t := ParseTuple(s).value;
            ValidPermissions(t.perms) && (t.id == None ==> Split(s, COLON) == [t.tag, t.name, t.perms])
  {
    hide Split, Value, ValidPermissions;
  }

  lemma NumericQualifier(u: Unicode, t: Tuple)
    requires TupleKey(u, t).Ok? && t.name != [] && AllDigits(t.name)
    ensures Minimal(t.name) && t.id == None && (t.tag == USER || t.tag == GROUP)
  {
    hide Value;
  }

  lemma NumericName(t: Tuple)
    requires Minimal(t.name) && Value(t.name) < U32_MAX
    ensures NumericId(t) == Some(Value(t.name))
  {
    hide Value;
  }

  // ---------- a whole text ----------

  function Texts(aces: seq<Ace>): (r: seq<Text>)
    ensures |r| == |aces|
  {
    seq(|aces|, i requires 0 <= i < |aces| => AceText(aces[i]))
  }

  function Render(aces: seq<Ace>): Text {
    if aces == [] then [] else Join(Texts(aces), COMMA)
  }

  // Neither blank, nor 'd', nor one of the bytes the text may not hold.
  predicate Safe(b: byte) {
    b < 128 && !IsWhitespace(b) && b != 35 && b != 0 && b != 100
  }

  ghost predicate AllSafe(s: Text) {
    forall i :: 0 <= i < |s| ==> Safe(s[i])
  }

  lemma {:induction false} JoinSafe(parts: seq<Text>, sep: byte)
    requires parts != [] && Safe(sep)
    requires forall i :: 0 <= i < |parts| ==> AllSafe(parts[i])
    ensures AllSafe(Join(parts, sep))
  {
    if |parts| > 1 {
      JoinSafe(parts[1..], sep);
    }
  }

  lemma {:induction false} JoinEnds(parts: seq<Text>, sep: byte)
    requires parts != [] && parts[0] != [] && parts[|parts| - 1] != []
    ensures var s := Join(parts, sep); var last := parts[|parts| - 1];
            s != [] && s[0] == parts[0][0] && s[|s| - 1] == last[|last| - 1]
  {
    if |parts| > 1 {
      JoinTail(parts, sep);
    }
  }

  lemma {:induction false} JoinTail(parts: seq<Text>, sep: byte)
    requires parts != [] && parts[|parts| - 1] != []
    ensures var s := Join(parts, sep); var last := parts[|parts| - 1];
            s != [] && s[|s| - 1] == last[|last| - 1]
  {
    if |parts| > 1 {
      JoinTail(parts[1..], sep);
    }
  }

  lemma AceTextShape(a: Ace)
    requires ValidAce(a)
    ensures AllSafe(AceText(a)) && COMMA !in AceText(a)
    ensures AceText(a) != [] && AceText(a)[0] != COMMA && AceText(a)[|AceText(a)| - 1] != COMMA
  {
    hide Print;
    var name := NameText(a);
    assert forall i :: 0 <= i < |name| ==> IsDigit(name[i]);
    var text := AceText(a);
    assert text == TagText(a.tag) + [COLON] + (name + [COLON] + PermText(a.perms)) by {
      JoinThree(TagText(a.tag), name, PermText(a.perms));
    }
    assert AllSafe(TagText(a.tag)) && COMMA !in TagText(a.tag);
    assert AllSafe(name) && COMMA !in name;
    assert AllSafe(PermText(a.perms)) && COMMA !in PermText(a.perms);
  }

  lemma JoinThree(a: Text, b: Text, c: Text)
    ensures Join([a, b, c], COLON) == a + [COLON] + (b + [COLON] + c)
  {
    assert [a, b, c][1..] == [b, c] && [b, c][1..] == [c];
    assert Join([c], COLON) == c;
    assert Join([b, c], COLON) == b + [COLON] + c;
  }

  lemma RenderTuples(aces: seq<Ace>)
    requires aces != [] && AllValid(aces)
    ensures Split(Render(aces), COMMA) == Texts(aces)
  {
    hide Split, Join, AceText, ValidAce;
    forall i | 0 <= i < |aces|
      ensures COMMA !in Texts(aces)[i]
    {
      AceTextShape(aces[i]);
    }
    SplitJoin(Texts(aces), COMMA);
  }

  lemma RenderPlain(u: Unicode, aces: seq<Ace>)
    requires Sane(u) && aces != [] && AllValid(aces)
    ensures PlainText(u, Render(aces))
  {
    hide Join, AceText, ValidAce, Sane;
    var parts := Texts(aces);
    forall i | 0 <= i < |parts|
      ensures AllSafe(parts[i]) && parts[i] != [] && parts[i][0] != COMMA && parts[i][|parts[i]| - 1] != COMMA
    {
      AceTextShape(aces[i]);
    }
    JoinSafe(parts, COMMA);
    JoinEnds(parts, COMMA);
    SafeIsPlain(u, Render(aces));
  }

  lemma SafeIsPlain(u: Unicode, s: Text)
    requires Sane(u) && AllSafe(s) && s != [] && s[0] != COMMA && s[|s| - 1] != COMMA
    ensures PlainText(u, s)
  {
    assert u.utf8(s);
    forall i | 0 <= i < |s|
      ensures !ContainsAt(s, DEFAULT, i)
    {
      assert i + 8 <= |s| ==> s[i..i + 8][0] == s[i];
    }
  }

  ghost predicate HasTag(aces: seq<Ace>, tag: nat) {
    exists i :: 0 <= i < |aces| && aces[i].tag == tag
  }

  // The owner, group and other entries, and a mask when anyone is named.
  ghost predicate Required(aces: seq<Ace>) {
    && HasTag(aces, 0x01) && HasTag(aces, 0x04) && HasTag(aces, 0x20)
    && (HasTag(aces, 0x02) || HasTag(aces, 0x08) ==> HasTag(aces, 0x10))
  }

  lemma CategoryIsTag(aces: seq<Ace>, keys: seq<Key>, tag: nat)
    requires AllValid(aces) && |keys| == |aces| && forall i :: 0 <= i < |aces| ==> keys[i] == AceKey(aces[i])
    requires tag in [0x01, 0x02, 0x04, 0x08, 0x10, 0x20]
    ensures HasCategory(keys, Category(tag)) <==> HasTag(aces, tag)
  {
    hide NameText;
    if HasCategory(keys, Category(tag)) {
      var i :| 0 <= i < |keys| && keys[i].category == Category(tag);
      assert aces[i].tag == tag;
    }
    if HasTag(aces, tag) {
      var i :| 0 <= i < |aces| && aces[i].tag == tag;
      assert keys[i].category == Category(tag);
    }
  }

  lemma CompleteIsRequired(aces: seq<Ace>, keys: seq<Key>)
    requires AllValid(aces) && |keys| == |aces| && forall i :: 0 <= i < |aces| ==> keys[i] == AceKey(aces[i])
    ensures Complete(keys) <==> Required(aces)
  {
    hide HasCategory, HasTag, AceKey, ValidAce;
    CategoryIsTag(aces, keys, 0x01);
    CategoryIsTag(aces, keys, 0x02);
    CategoryIsTag(aces, keys, 0x04);
    CategoryIsTag(aces, keys, 0x08);
    CategoryIsTag(aces, keys, 0x10);
    CategoryIsTag(aces, keys, 0x20);
  }

  lemma AscendingIsStrict(aces: seq<Ace>, keys: seq<Key>)
    requires AllValid(aces) && |keys| == |aces| && forall i :: 0 <= i < |aces| ==> keys[i] == AceKey(aces[i])
    ensures Ascending(keys) <==> StrictBy(TextKey, aces)
  {
    hide AceKey, KeyLess, TextKey, ValidAce;
    forall i | 0 <= i < |aces| - 1
      ensures KeyLess(keys[i], keys[i + 1]) <==> TextKey(aces[i]) < TextKey(aces[i + 1])
    {
      KeyOrder(aces[i], aces[i + 1]);
    }
    if Ascending(keys) {
      assert StepsBy(TextKey, aces);
      StrictFromSteps(TextKey, aces);
    }
  }

  // Which lists of entries make a valid text.
  lemma RenderValid(u: Unicode, aces: seq<Ace>)
    requires Sane(u) && AllValid(aces)
    ensures ValidText(u, Render(aces)) <==> StrictBy(TextKey, aces) && Required(aces)
  {
    hide Sane, AceText, ValidAce, Analyze, Ascending, StrictBy, Split, AceKey, PlainText, Render, HasCategory, Complete;
    if aces == [] {
      EmptyInvalid(u);
    } else {
      RenderTuples(aces);
      RenderPlain(u, aces);
      forall i | 0 <= i < |aces|
        ensures Analyze(u, Texts(aces)[i]) == Ok(AceKey(aces[i]))
      {
        AnalyzeText(u, aces[i]);
      }
      CompleteIsRequired(aces, KeysOf(u, Texts(aces)));
      AscendingIsStrict(aces, KeysOf(u, Texts(aces)));
    }
  }

  lemma EmptyInvalid(u: Unicode)
    ensures !ValidText(u, Render([]))
  {
  }

  // ---------- the attribute ----------

  const VERSION: seq<byte> := [2, 0, 0, 0]

  predicate FieldsFit(a: Ace) {
    a.tag < 0x1_0000 && a.perms < 0x1_0000 && a.id <= U32_MAX
  }

  function AceBytes(a: Ace): (r: seq<byte>)
    ensures |r| == 8
  {
    ToLe(a.tag, 2) + ToLe(a.perms, 2) + ToLe(a.id, 4)
  }

  function Body(aces: seq<Ace>): (r: seq<byte>)
    ensures |r| == 8 * |aces|
  {
    if aces == [] then [] else AceBytes(aces[0]) + Body(aces[1..])
  }

  function AceAt(b: seq<byte>): (a: Ace)
    requires |b| >= 8
  {
    Ace(FromLe(b[..2]), FromLe(b[2..4]), FromLe(b[4..8]))
  }

  function Entries(b: seq<byte>): (r: seq<Ace>)
    requires |b| % 8 == 0
    ensures |r| == |b| / 8
  {
    if b == [] then [] else [AceAt(b)] + Entries(b[8..])
  }

  lemma AceRoundTrip(a: Ace, rest: seq<byte>)
    requires FieldsFit(a)
    ensures AceAt(AceBytes(a) + rest) == a
  {
    hide ToLe, FromLe, Pow256;
    Pow256Values();
    FromLeToLe(a.tag, 2);
    FromLeToLe(a.perms, 2);
    FromLeToLe(a.id, 4);
    var b := AceBytes(a) + rest;
    assert b[..2] == ToLe(a.tag, 2) && b[2..4] == ToLe(a.perms, 2) && b[4..8] == ToLe(a.id, 4);
  }

  lemma BytesRoundTrip(b: seq<byte>)
    requires |b| >= 8
    ensures AceBytes(AceAt(b)) == b[..8] && FieldsFit(AceAt(b))
  {
    hide ToLe, FromLe, Pow256;
    Pow256Values();
    ToLeFromLe(b[..2]);
    ToLeFromLe(b[2..4]);
    ToLeFromLe(b[4..8]);
    FromLeBound(b[..2]);
    FromLeBound(b[2..4]);
    FromLeBound(b[4..8]);
  }

  ghost predicate AllFit(aces: seq<Ace>) {
    forall i :: 0 <= i < |aces| ==> FieldsFit(aces[i])
  }

  lemma {:induction false} EntriesOfBody(aces: seq<Ace>)
    requires AllFit(aces)
    ensures Entries(Body(aces)) == aces
  {
    hide AceBytes, AceAt, FieldsFit;
    if aces != [] {
      var rest := Body(aces[1..]);
      EntriesOfBody(aces[1..]);
      AceRoundTrip(aces[0], rest);
      assert (AceBytes(aces[0]) + rest)[8..] == rest;
    }
  }

  lemma {:induction false} BodyOfEntries(b: seq<byte>)
    requires |b| % 8 == 0
    ensures Body(Entries(b)) == b && AllFit(Entries(b))
  {
    hide AceBytes, AceAt, FieldsFit;
    if b != [] {
      BodyOfEntries(b[8..]);
      BytesRoundTrip(b);
      assert Entries(b)[1..] == Entries(b[8..]);
      assert b == b[..8] + b[8..];
    }
  }

  // ---------- permutations ----------

  // No principal twice.
  ghost predicate NoRepeats(key: Ace -> int, m: multiset<Ace>) {
    && (forall a :: a in m ==> m[a] == 1)
    && (forall a, b :: a in m && b in m && key(a) == key(b) ==> a == b)
  }

  lemma TwiceInMultiset(s: seq<Ace>, i: nat, j: nat)
    requires i < j < |s| && s[i] == s[j]
    ensures multiset(s)[s[i]] >= 2
  {
    assert s == s[..j] + s[j..];
    assert s[..j][i] == s[i] && s[j..][0] == s[j];
    assert s[i] in multiset(s[..j]) && s[i] in multiset(s[j..]);
  }

  lemma StrictFromNoRepeats(key: Ace -> int, s: seq<Ace>)
    requires SortedBy(key, s) && NoRepeats(key, multiset(s))
    ensures StrictBy(key, s)
  {
    forall i, j | 0 <= i < j < |s|
      ensures key(s[i]) < key(s[j])
    {
      assert s[i] in multiset(s) && s[j] in multiset(s);
      if key(s[i]) == key(s[j]) {
        TwiceInMultiset(s, i, j);
      }
    }
  }

  lemma OneMore(key: Ace -> int, a: Ace, m: multiset<Ace>)
    requires NoRepeats(key, m) && forall b :: b in m ==> key(a) < key(b)
    ensures NoRepeats(key, multiset{a} + m)
  {
  }

  lemma HeadIsLeast(key: Ace -> int, s: seq<Ace>, b: Ace)
    requires s != [] && StrictBy(key, s) && b in s[1..]
    ensures key(s[0]) < key(b)
  {
    var j :| 0 <= j < |s[1..]| && s[1..][j] == b;
    assert s[j + 1] == b;
  }

  lemma {:induction false} NoRepeatsFromStrict(key: Ace -> int, s: seq<Ace>)
    requires StrictBy(key, s)
    ensures NoRepeats(key, multiset(s))
    decreases |s|
  {
    hide StrictBy;
    if s != [] {
      var rest := s[1..];
      StrictTail(key, s);
      NoRepeatsFromStrict(key, rest);
      forall b | b in multiset(rest)
        ensures key(s[0]) < key(b)
      {
        HeadIsLeast(key, s, b);
      }
      OneMore(key, s[0], multiset(rest));
      assert s == [s[0]] + rest;
    }
  }

  lemma SameKeys(a: Ace, b: Ace)
    requires ValidAce(a) && ValidAce(b)
    ensures TextKey(a) == TextKey(b) <==> KernelKey(a) == KernelKey(b)
  {
  }

  ghost predicate ValidIn(m: multiset<Ace>) {
    forall a :: a in m ==> ValidAce(a)
  }

  lemma ValidMultiset(s: seq<Ace>)
    ensures AllValid(s) <==> ValidIn(multiset(s))
  {
    hide ValidAce;
    forall i | 0 <= i < |s|
      ensures s[i] in multiset(s)
    {
    }
  }

  lemma SortValid(key: Ace -> int, s: seq<Ace>)
    requires AllValid(s)
    ensures AllValid(Sort(key, s))
  {
    hide Sort, AllValid, ValidIn;
    SortKeeps(key, s);
    ValidMultiset(s);
    ValidMultiset(Sort(key, s));
  }

  lemma NoRepeatsAgree(m: multiset<Ace>)
    requires ValidIn(m)
    ensures NoRepeats(TextKey, m) <==> NoRepeats(KernelKey, m)
  {
    hide TextKey, KernelKey, ValidAce;
    forall a, b | a in m && b in m
      ensures TextKey(a) == TextKey(b) <==> KernelKey(a) == KernelKey(b)
    {
      SameKeys(a, b);
    }
  }

  // Strict in one order before sorting means strict in the other after.
  lemma Resorted(s: seq<Ace>)
    requires AllValid(s)
    ensures NoRepeats(TextKey, multiset(s)) ==> StrictBy(KernelKey, Sort(KernelKey, s))
    ensures NoRepeats(TextKey, multiset(s)) ==> StrictBy(TextKey, Sort(TextKey, s))
  {
    hide TextKey, KernelKey, ValidAce, StrictBy, SortedBy, NoRepeats, Sort, AllValid, ValidIn;
    ValidMultiset(s);
    NoRepeatsAgree(multiset(s));
    SortKeeps(KernelKey, s);
    SortKeeps(TextKey, s);
    if NoRepeats(TextKey, multiset(s)) {
      StrictFromNoRepeats(KernelKey, Sort(KernelKey, s));
      StrictFromNoRepeats(TextKey, Sort(TextKey, s));
    }
  }

  lemma SameTags(s: seq<Ace>, t: seq<Ace>, tag: nat)
    requires multiset(s) == multiset(t) && HasTag(s, tag)
    ensures HasTag(t, tag)
  {
    var i :| 0 <= i < |s| && s[i].tag == tag;
    assert s[i] in multiset(t);
    var j :| 0 <= j < |t| && t[j] == s[i];
  }

  lemma SameRequired(s: seq<Ace>, t: seq<Ace>)
    requires multiset(s) == multiset(t)
    ensures Required(s) ==> Required(t)
  {
    hide HasTag;
    forall tag: nat
      ensures HasTag(s, tag) <==> HasTag(t, tag)
    {
      if HasTag(s, tag) {
        SameTags(s, t, tag);
      }
      if HasTag(t, tag) {
        SameTags(t, s, tag);
      }
    }
  }

  // ---------- the two conversions ----------

  predicate Framed(b: seq<byte>) {
    |b| >= 4 && (|b| - 4) % 8 == 0 && b[..4] == VERSION
  }

  ghost function TextOf(u: Unicode, b: seq<byte>): Option<Text> {
    if !Framed(b) || !AllValid(Entries(b[4..])) then None
    else
      var t := Render(Sort(TextKey, Entries(b[4..])));
      if ValidText(u, t) then Some(t) else None
  }

  predicate HasAce(s: Text) {
    var t := ParseTuple(s);
    t.Ok? && ToAce(t.value).Some?
  }

  function AceOf(s: Text): Ace
    requires HasAce(s)
  {
    ToAce(ParseTuple(s).value).value
  }

  ghost predicate AllAces(tuples: seq<Text>) {
    forall i :: 0 <= i < |tuples| ==> HasAce(tuples[i])
  }

  ghost function AcesOf(tuples: seq<Text>): (r: seq<Ace>)
    requires AllAces(tuples)
    ensures |r| == |tuples|
  {
    seq(|tuples|, i requires 0 <= i < |tuples| => AceOf(tuples[i]))
  }

  ghost function XattrOf(u: Unicode, t: Text): Option<seq<byte>> {
    if ValidText(u, t) && AllAces(Split(t, COMMA)) then
      Some(VERSION + Body(Sort(KernelKey, AcesOf(Split(t, COMMA)))))
    else None
  }

  lemma AcesOfTexts(aces: seq<Ace>)
    requires AllValid(aces)
    ensures AllAces(Texts(aces)) && AcesOf(Texts(aces)) == aces
  {
    hide AceText, ToAce, ParseTuple, TagText, NameText, PermText, ValidAce;
    forall i | 0 <= i < |aces|
      ensures HasAce(Texts(aces)[i]) && AceOf(Texts(aces)[i]) == aces[i]
    {
      TupleOfText(aces[i]);
      AceOfText(aces[i]);
    }
  }

  lemma XattrOfRender(u: Unicode, s: seq<Ace>)
    requires AllValid(s) && s != [] && ValidText(u, Render(s))
    ensures XattrOf(u, Render(s)) == Some(VERSION + Body(Sort(KernelKey, s)))
  {
    hide ValidText, Render, Body, Sort, ValidAce, Split, AcesOf;
    RenderTuples(s);
    AcesOfTexts(s);
  }

  // Sorting a list of valid entries and reading the attribute back.
  lemma BodySorted(s: seq<Ace>)
    requires AllValid(s)
    ensures var b := VERSION + Body(Sort(KernelKey, s)); Framed(b) && Entries(b[4..]) == Sort(KernelKey, s)
  {
    hide Body, Sort, Entries;
    SortValid(KernelKey, s);
    EntriesOfBody(Sort(KernelKey, s));
    assert (VERSION + Body(Sort(KernelKey, s)))[4..] == Body(Sort(KernelKey, s));
  }

  lemma FramedBody(b: seq<byte>)
    requires Framed(b)
    ensures b == VERSION + Body(Entries(b[4..]))
  {
    hide Body, Entries;
    BodyOfEntries(b[4..]);
  }

  // The kernel's order: by tag, and named entries by id.
  ghost predicate InKernelOrder(s: seq<Ace>) {
    forall i, j :: 0 <= i < j < |s| ==> s[i].tag < s[j].tag || (s[i].tag == s[j].tag && s[i].id <= s[j].id)
  }

  ghost predicate KernelOrdered(b: seq<byte>) {
    Framed(b) && InKernelOrder(Entries(b[4..]))
  }

  predicate KnownTag(tag: nat) {
    tag == 0x01 || tag == 0x02 || tag == 0x04 || tag == 0x08 || tag == 0x10 || tag == 0x20
  }

  lemma KernelOrder(a: Ace, b: Ace)
    requires KnownTag(a.tag) && KnownTag(b.tag) && a.id <= U32_MAX && b.id <= U32_MAX
    ensures KernelKey(a) <= KernelKey(b) <==> a.tag < b.tag || (a.tag == b.tag && a.id <= b.id)
  {
  }

  lemma SortedIsKernelOrder(s: seq<Ace>)
    requires forall i :: 0 <= i < |s| ==> KnownTag(s[i].tag) && s[i].id <= U32_MAX
    ensures SortedBy(KernelKey, s) <==> InKernelOrder(s)
  {
    hide KernelKey, KnownTag;
    forall i, j | 0 <= i < j < |s|
      ensures KernelKey(s[i]) <= KernelKey(s[j]) <==>
              s[i].tag < s[j].tag || (s[i].tag == s[j].tag && s[i].id <= s[j].id)
    {
      KernelOrder(s[i], s[j]);
    }
  }

  lemma ValidIsKnown(s: seq<Ace>)
    requires AllValid(s)
    ensures forall i :: 0 <= i < |s| ==> KnownTag(s[i].tag) && s[i].id <= U32_MAX
  {
  }

  lemma SmallNumber(s: Text)
    ensures ParseU32(s).Some? ==> ParseU32(s).value <= U32_MAX
  {
    hide Value;
  }

  lemma AceFits(s: Text)
    requires HasAce(s)
    ensures KnownTag(AceOf(s).tag) && AceOf(s).id <= U32_MAX && FieldsFit(AceOf(s))
  {
    hide Split, Value, ParseTuple, ParseU32;
    var t := ParseTuple(s).value;
    SmallNumber(t.name);
  }

  // What a text converts to: its entries in the kernel's order.
  lemma XattrInKernelOrder(u: Unicode, t: Text)
    requires XattrOf(u, t).Some?
    ensures var b := XattrOf(u, t).value;
            KernelOrdered(b) && multiset(Entries(b[4..])) == multiset(AcesOf(Split(t, COMMA)))
  {
    hide ValidText, Split, HasAce, AceOf, Sort, Body, Entries, SortedBy, InKernelOrder, FieldsFit, KnownTag;
    var s := AcesOf(Split(t, COMMA));
    var k := Sort(KernelKey, s);
    SortKeeps(KernelKey, s);
    forall i | 0 <= i < |k|
      ensures KnownTag(k[i].tag) && k[i].id <= U32_MAX && FieldsFit(k[i])
    {
      assert k[i] in multiset(k);
      var j :| 0 <= j < |s| && s[j] == k[i];
      AceFits(Split(t, COMMA)[j]);
    }
    SortedIsKernelOrder(k);
    EntriesOfBody(k);
    assert (VERSION + Body(k))[4..] == Body(k);
  }

  // Exactly the attributes with known entries, one per principal, and the required ones present.
  lemma TextDefined(u: Unicode, b: seq<byte>)
    requires Sane(u)
    ensures TextOf(u, b).Some? <==>
            && Framed(b) && AllValid(Entries(b[4..]))
            && NoRepeats(TextKey, multiset(Entries(b[4..]))) && Required(Entries(b[4..]))
  {
    hide Sane, AllValid, NoRepeats, Required, ValidText, Render, Sort, Entries, StrictBy, SortedBy;
    if Framed(b) && AllValid(Entries(b[4..])) {
      var s := Entries(b[4..]);
      var t := Sort(TextKey, s);
      SortKeeps(TextKey, s);
      SortValid(TextKey, s);
      RenderValid(u, t);
      SameRequired(s, t);
      SameRequired(t, s);
      Resorted(s);
      if StrictBy(TextKey, t) {
        NoRepeatsFromStrict(TextKey, t);
      }
    }
  }

  // The same entries, in the kernel's order.
  ghost predicate KernelForm(b: seq<byte>, back: seq<byte>) {
    && Framed(b) && Framed(back)
    && multiset(Entries(back[4..])) == multiset(Entries(b[4..]))
    && InKernelOrder(Entries(back[4..]))
    && (back == b <==> InKernelOrder(Entries(b[4..])))
  }

  // Attribute to text and back.
  lemma BinaryRoundTrip(u: Unicode, b: seq<byte>)
    requires Sane(u) && TextOf(u, b).Some?
    ensures XattrOf(u, TextOf(u, b).value).Some? && KernelForm(b, XattrOf(u, TextOf(u, b).value).value)
  {
    hide Sane, AllValid, NoRepeats, Required, ValidText, Render, Sort, Entries, StrictBy, SortedBy, XattrOf, Body,
      InKernelOrder, KnownTag;
    TextDefined(u, b);
    var s := Entries(b[4..]);
    var t := Sort(TextKey, s);
    var r := Sort(KernelKey, t);
    SortKeeps(TextKey, s);
    SortValid(TextKey, s);
    SortKeeps(KernelKey, t);
    RenderNonEmpty(u, t);
    XattrOfRender(u, t);
    BodySorted(t);
    FramedBody(b);
    Resorted(t);
    SortValid(KernelKey, t);
    ValidIsKnown(s);
    ValidIsKnown(r);
    SortedIsKernelOrder(s);
    SortedIsKernelOrder(r);
    if SortedBy(KernelKey, s) {
      OneArrangement(KernelKey, r, s);
    }
  }

  lemma RenderNonEmpty(u: Unicode, s: seq<Ace>)
    requires ValidText(u, Render(s))
    ensures s != []
  {
  }

  // Every principal is a number the kernel can hold.
  ghost predicate NumericText(t: Text) {
    forall i :: 0 <= i < |Split(t, COMMA)| ==> NumericTuple(Split(t, COMMA)[i])
  }

  lemma NumericIsRender(u: Unicode, t: Text)
    requires ValidText(u, t) && NumericText(t)
    ensures AllAces(Split(t, COMMA)) && AllValid(AcesOf(Split(t, COMMA))) && Render(AcesOf(Split(t, COMMA))) == t
  {
    hide Split, Join, ParseTuple, ToAce, AceText, ValidAce, NumericTuple, Analyze, PlainText, Ascending, Complete;
    var tuples := Split(t, COMMA);
    forall i | 0 <= i < |tuples|
      ensures HasAce(tuples[i]) && ValidAce(AceOf(tuples[i])) && AceText(AceOf(tuples[i])) == tuples[i]
    {
      AceOfTuple(u, tuples[i]);
    }
    assert Texts(AcesOf(tuples)) == tuples;
    JoinSplit(t, COMMA);
  }

  lemma AceOfTuple(u: Unicode, s: Text)
    requires Analyze(u, s).Ok? && NumericTuple(s)
    ensures HasAce(s) && ValidAce(AceOf(s)) && AceText(AceOf(s)) == s
  {
    hide ToAce, AceText, ValidAce;
    NumericIsAce(u, s);
  }

  lemma RenderIsNumeric(aces: seq<Ace>)
    requires aces != [] && AllValid(aces)
    ensures NumericText(Render(aces))
  {
    hide Split, Render, AceText, ParseTuple, Print, Value, TagText, PermText;
    RenderTuples(aces);
    forall i | 0 <= i < |aces|
      ensures NumericTuple(Texts(aces)[i])
    {
      TupleOfText(aces[i]);
      if Named(aces[i]) {
        ValuePrint(aces[i].id);
      }
    }
  }

  // Text to attribute and back is the identity exactly on numeric texts.
  lemma TextRoundTrip(u: Unicode, t: Text)
    requires Sane(u) && ValidText(u, t)
    ensures NumericText(t) <==> XattrOf(u, t).Some? && TextOf(u, XattrOf(u, t).value) == Some(t)
  {
    hide Sane, AllValid, NumericText, ValidText, Render, Sort, Entries, XattrOf, Body, AcesOf, AllAces, Split;
    if NumericText(t) {
      NumericBack(u, t);
    }
    if XattrOf(u, t).Some? && TextOf(u, XattrOf(u, t).value) == Some(t) {
      var s := Entries(XattrOf(u, t).value[4..]);
      SortValid(TextKey, s);
      RenderNonEmpty(u, Sort(TextKey, s));
      RenderIsNumeric(Sort(TextKey, s));
    }
  }

  lemma NumericBack(u: Unicode, t: Text)
    requires Sane(u) && ValidText(u, t) && NumericText(t)
    ensures XattrOf(u, t).Some? && TextOf(u, XattrOf(u, t).value) == Some(t)
  {
    hide Sane, AllValid, NumericText, ValidText, Render, Sort, Entries, XattrOf, Body, AcesOf, AllAces, Split, StrictBy,
      Required, SortedBy;
    NumericIsRender(u, t);
    var s := AcesOf(Split(t, COMMA));
    RenderNonEmpty(u, s);
    XattrOfRender(u, s);
    RenderValid(u, s);
    BodySorted(s);
    SortKeeps(KernelKey, s);
    SortValid(KernelKey, s);
    var k := Sort(KernelKey, s);
    SortKeeps(TextKey, k);
    OneArrangement(TextKey, s, Sort(TextKey, k));
  }

  // Why an entry of an attribute is refused.
  function EntryError(a: Ace): (error: Option<FormatError>)
    ensures error.None? <==> ValidAce(a)
  {
    if a.perms >= 8 then Some(InvalidMetadata("LinuxAcl", "invalid POSIX ACL permissions"))
    else if !ValidAce(a) then Some(InvalidMetadata("LinuxAcl", "invalid POSIX ACL tag or qualifier"))
    else None
  }

  function FirstEntryError(aces: seq<Ace>): (error: Option<FormatError>)
    ensures error.None? <==> AllValid(aces)
  {
    if aces == [] then None
    else if EntryError(aces[0]).Some? then EntryError(aces[0])
    else FirstEntryError(aces[1..])
  }

  // The framing first, then the entries in order, then the text they make.
  ghost function TextError(u: Unicode, b: seq<byte>): Option<FormatError> {
    if !Framed(b) then Some(InvalidMetadata("LinuxAcl", "invalid POSIX ACL xattr framing"))
    else if FirstEntryError(Entries(b[4..])).Some? then FirstEntryError(Entries(b[4..]))
    else AclError(u, Render(Sort(TextKey, Entries(b[4..]))))
  }

  lemma {:induction false} ErrorAfter(aces: seq<Ace>, rest: seq<Ace>)
    requires AllValid(aces)
    ensures FirstEntryError(aces + rest) == FirstEntryError(rest)
  {
    if aces == [] {
      assert aces + rest == rest;
    } else {
      ErrorAfter(aces[1..], rest);
      assert (aces + rest)[1..] == aces[1..] + rest;
    }
  }

  method LinuxPosixAclXattrToSchily(u: Unicode, value: seq<byte>) returns (r: Result<Text>)
    ensures r.Ok? <==> TextOf(u, value).Some?
    ensures r.Ok? ==> r.value == TextOf(u, value).value
    ensures r.Err? ==> TextError(u, value) == Some(r.error)
  {
    hide AclError, ValidText, Render, Sort, AceAt, ValidAce;
    if |value| < 4 || (|value| - 4) % 8 != 0 || value[..4] != VERSION {
      return Invalid("LinuxAcl", "invalid POSIX ACL xattr framing");
    }
    var entries: seq<Ace> := [];
    var at: nat := 4;
    while at < |value|
      invariant 4 <= at <= |value| && (|value| - at) % 8 == 0
      invariant entries + Entries(value[at..]) == Entries(value[4..]) && AllValid(entries)
    {
      var entry := AceAt(value[at..]);
      EntriesStep(value, at, entries);
      var error := EntryError(entry);
      if error.Some? {
        assert Entries(value[4..])[|entries|] == entry;
        ErrorAfter(entries, Entries(value[at..]));
        return Err(error.value);
      }
      entries := entries + [entry];
      at := at + 8;
    }
    assert entries == Entries(value[4..]);
    var text := Render(Sort(TextKey, entries));
    var valid := ValidatePosixAclText(u, text);
    if valid.Err? {
      return Err(valid.error);
    }
    return Ok(text);
  }

  lemma EntriesStep(value: seq<byte>, at: nat, entries: seq<Ace>)
    requires at < |value| && (|value| - at) % 8 == 0
    ensures at + 8 <= |value| && Entries(value[at..]) == [AceAt(value[at..])] + Entries(value[at + 8..])
    ensures entries + Entries(value[at..]) == entries + [AceAt(value[at..])] + Entries(value[at + 8..])
  {
    hide AceAt;
    assert value[at..][8..] == value[at + 8..];
  }

  // An invalid text, or else a principal without a number.
  ghost function XattrError(u: Unicode, t: Text): FormatError {
    if AclError(u, t).Some? then AclError(u, t).value
    else ReaderUnsupported("named ACL principals require numeric qualifiers")
  }

  method SchilyPosixAclToLinuxXattr(u: Unicode, value: Text) returns (r: Result<seq<byte>>)
    ensures r.Ok? <==> XattrOf(u, value).Some?
    ensures r.Ok? ==> r.value == XattrOf(u, value).value && KernelOrdered(r.value)
    ensures r.Err? ==> r.error == XattrError(u, value)
  {
    hide AclError, PlainText, Ascending, Complete, Split, ParseTuple, ToAce, TupleKey, Sort, AceBytes, KernelOrdered;
    var valid := ValidatePosixAclText(u, value);
    if valid.Err? {
      return Err(valid.error);
    }
    var tuples := Split(value, COMMA);
    var entries: seq<Ace> := [];
    for i := 0 to |tuples|
      invariant |entries| == i
      invariant forall j :: 0 <= j < i ==> HasAce(tuples[j]) && entries[j] == AceOf(tuples[j])
    {
      assert Analyze(u, tuples[i]).Ok?;
      var entry := ToAce(ParseTuple(tuples[i]).value);
      if entry.None? {
        assert !HasAce(tuples[i]);
        return Err(ReaderUnsupported("named ACL principals require numeric qualifiers"));
      }
      entries := entries + [entry.value];
    }
    assert entries == AcesOf(tuples);
    var sorted := Sort(KernelKey, entries);
    var out := VERSION;
    for i := 0 to |sorted|
      invariant out + Body(sorted[i..]) == VERSION + Body(sorted)
    {
      assert sorted[i..][1..] == sorted[i + 1..];
      out := out + AceBytes(sorted[i]);
    }
    XattrInKernelOrder(u, value);
    return Ok(out);
  }

  // ---------- texts that do not come back ----------

  const OWNER := Ace(0x01, 7, U32_MAX)
  const OWNING_GROUP := Ace(0x04, 7, U32_MAX)
  const EVERYONE := Ace(0x20, 7, U32_MAX)
  const FULL_MASK := Ace(0x10, 7, U32_MAX)

  // Full rights for everyone, and one named user.
  function WithUser(tuple: Text): seq<Text> {
    [AceText(OWNER), AceText(OWNING_GROUP), AceText(EVERYONE), tuple, AceText(FULL_MASK)]
  }

  function WithId(id: nat): seq<Ace> {
    [OWNER, OWNING_GROUP, EVERYONE, Ace(0x02, 7, id), FULL_MASK]
  }

  lemma WithIdValid(id: nat)
    requires id < U32_MAX
    ensures AllValid(WithId(id)) && StrictBy(TextKey, WithId(id)) && Required(WithId(id))
  {
    var s := WithId(id);
    assert s[0].tag == 0x01 && s[1].tag == 0x04 && s[2].tag == 0x20 && s[4].tag == 0x10;
  }

  // A tuple that stands for the given id, though not in its decimal form.
  ghost predicate StandsFor(u: Unicode, tuple: Text, id: nat) {
    && id < U32_MAX && tuple != [] && AllSafe(tuple) && COMMA !in tuple && HasAce(tuple)
    && AceOf(tuple) == Ace(0x02, 7, id) && Analyze(u, tuple).Ok? && Analyze(u, tuple).value.category == 3
  }

  lemma WithUserPlain(u: Unicode, tuple: Text, id: nat)
    requires Sane(u) && StandsFor(u, tuple, id)
    ensures PlainText(u, Join(WithUser(tuple), COMMA)) && Split(Join(WithUser(tuple), COMMA), COMMA) == WithUser(tuple)
  {
    hide Join, AceText, Split, Analyze, HasAce, AceOf, Sane;
    var parts := WithUser(tuple);
    AceTextShape(OWNER);
    AceTextShape(OWNING_GROUP);
    AceTextShape(EVERYONE);
    AceTextShape(FULL_MASK);
    SplitJoin(parts, COMMA);
    JoinSafe(parts, COMMA);
    JoinEnds(parts, COMMA);
    SafeIsPlain(u, Join(parts, COMMA));
  }

  lemma WithUserKeys(u: Unicode, tuple: Text, id: nat)
    requires Sane(u) && StandsFor(u, tuple, id)
    ensures AllAnalyze(u, WithUser(tuple))
    ensures Ascending(KeysOf(u, WithUser(tuple))) && Complete(KeysOf(u, WithUser(tuple)))
  {
    hide AceText, Analyze, HasAce, AceOf, Sane;
    AnalyzeText(u, OWNER);
    AnalyzeText(u, OWNING_GROUP);
    AnalyzeText(u, EVERYONE);
    AnalyzeText(u, FULL_MASK);
    var keys := KeysOf(u, WithUser(tuple));
    assert keys[0].category == 0 && keys[1].category == 1 && keys[2].category == 2 && keys[4].category == 5;
  }

  lemma WithUserAces(u: Unicode, tuple: Text, id: nat)
    requires StandsFor(u, tuple, id)
    ensures AllAces(WithUser(tuple)) && AcesOf(WithUser(tuple)) == WithId(id)
  {
    hide AceText, Analyze, HasAce, AceOf;
    AceOfOwn(OWNER);
    AceOfOwn(OWNING_GROUP);
    AceOfOwn(EVERYONE);
    AceOfOwn(FULL_MASK);
  }

  lemma AceOfOwn(a: Ace)
    requires ValidAce(a)
    ensures HasAce(AceText(a)) && AceOf(AceText(a)) == a
  {
    hide AceText, ParseTuple, ToAce;
    TupleOfText(a);
    AceOfText(a);
  }

  // Such a text is valid and converts, and comes back with the decimal id in its place.
  lemma ComesBackNumeric(u: Unicode, tuple: Text, id: nat)
    requires Sane(u) && StandsFor(u, tuple, id)
    ensures var t := Join(WithUser(tuple), COMMA);
            && ValidText(u, t) && XattrOf(u, t).Some?
            && TextOf(u, XattrOf(u, t).value) == Some(Render(WithId(id)))
  {
    hide Sane, StandsFor, Join, Split, PlainText, AllAnalyze, Ascending, Complete, Render, Sort, Body, Entries,
      AllValid, StrictBy, SortedBy, Required, AllAces, AcesOf;
    var (t, s) := (Join(WithUser(tuple), COMMA), WithId(id));
    WithUserPlain(u, tuple, id);
    WithUserKeys(u, tuple, id);
    WithUserAces(u, tuple, id);
    StandsForSmall(u, tuple, id);
    WithIdValid(id);
    RenderValid(u, s);
    BodySorted(s);
    var k := Sort(KernelKey, s);
    SortKeeps(KernelKey, s);
    SortValid(KernelKey, s);
    SortKeeps(TextKey, k);
    OneArrangement(TextKey, s, Sort(TextKey, k));
  }

  lemma StandsForSmall(u: Unicode, tuple: Text, id: nat)
    requires StandsFor(u, tuple, id)
    ensures id < U32_MAX
  {
    hide HasAce, AceOf, Analyze;
  }

  // "user:bob:rwx:7" and "user:+5:rwx"
  const BOB: Text := [117, 115, 101, 114, 58, 98, 111, 98, 58, 114, 119, 120, 58, 55]
  const PLUS_FIVE: Text := [117, 115, 101, 114, 58, 43, 53, 58, 114, 119, 120]

  lemma ThreeFields(tag: Text, name: Text, perms: Text)
    requires COLON !in tag && COLON !in name && COLON !in perms
    ensures Split(tag + [COLON] + name + [COLON] + perms, COLON) == [tag, name, perms]
  {
    hide Split, Join;
    JoinThree(tag, name, perms);
    assert tag + [COLON] + name + [COLON] + perms == tag + [COLON] + (name + [COLON] + perms);
    SplitJoin([tag, name, perms], COLON);
  }

  lemma BobTuple()
    ensures ParseTuple(BOB) == Ok(Tuple(USER, [98, 111, 98], RWX, Some(7)))
  {
    hide Split;
    SplitHead(USER, [98, 111, 98, 58, 114, 119, 120, 58, 55], COLON);
    ThreeFields([98, 111, 98], RWX, [55]);
    assert BOB == USER + [COLON] + [98, 111, 98, 58, 114, 119, 120, 58, 55];
    var name: Text := [98, 111, 98];
    assert name + [COLON] + RWX + [COLON] + [55] == [98, 111, 98, 58, 114, 119, 120, 58, 55];
    assert Split(BOB, COLON) == [USER, [98, 111, 98], RWX, [55]];
    assert Value([55]) == 7;
  }

  lemma PlusTuple()
    ensures ParseTuple(PLUS_FIVE) == Ok(Tuple(USER, [43, 53], RWX, None))
  {
    hide Split;
    ThreeFields(USER, [43, 53], RWX);
    assert PLUS_FIVE == USER + [COLON] + [43, 53] + [COLON] + RWX;
  }

  lemma NamedUser(u: Unicode, t: Tuple)
    requires Sane(u) && t.tag == USER && t.name != [] && !AllDigits(t.name)
    requires forall i :: 0 <= i < |t.name| ==> t.name[i] < 128 && !ForbiddenInName(t.name[i])
    ensures TupleKey(u, t).Ok? && TupleKey(u, t).value.category == 3
  {
    AsciiPasses(u, t.name);
  }

  lemma NumberedUser(t: Tuple, id: nat)
    requires t.tag == USER && t.name != [] && t.perms == RWX && NumericId(t) == Some(id)
    ensures ToAce(t) == Some(Ace(0x02, 7, id))
  {
    hide NumericId;
  }

  lemma TupleStandsFor(u: Unicode, tuple: Text, t: Tuple, id: nat)
    requires Sane(u) && ParseTuple(tuple) == Ok(t) && id < U32_MAX && tuple != [] && AllSafe(tuple) && COMMA !in tuple
    requires t.tag == USER && t.name != [] && t.perms == RWX && !AllDigits(t.name) && NumericId(t) == Some(id)
    requires forall i :: 0 <= i < |t.name| ==> t.name[i] < 128 && !ForbiddenInName(t.name[i])
    ensures StandsFor(u, tuple, id)
  {
    hide ParseTuple, Sane, TupleKey, ToAce, NumericId, AllSafe, AllDigits, ForbiddenInName;
    NamedUser(u, t);
    NumberedUser(t, id);
  }

  lemma BobId()
    ensures NumericId(Tuple(USER, [98, 111, 98], RWX, Some(7))) == Some(7)
  {
    hide Value;
    var name: Text := [98, 111, 98];
    assert !IsDigit(name[0]);
  }

  lemma PlusId()
    ensures NumericId(Tuple(USER, [43, 53], RWX, None)) == Some(5)
  {
    var name: Text := [43, 53];
    assert name[1..] == [53] && Value([53]) == 5;
  }

  lemma SafeTuples()
    ensures AllSafe(BOB) && COMMA !in BOB && AllSafe(PLUS_FIVE) && COMMA !in PLUS_FIVE
  {
  }

  lemma BobStandsForSeven(u: Unicode)
    requires Sane(u)
    ensures StandsFor(u, BOB, 7)
  {
    hide ParseTuple, Sane, StandsFor, NumericId, AllSafe;
    var t := Tuple(USER, [98, 111, 98], RWX, Some(7));
    BobTuple();
    BobId();
    SafeTuples();
    assert !IsDigit(t.name[0]);
    TupleStandsFor(u, BOB, t, 7);
  }

  lemma PlusStandsForFive(u: Unicode)
    requires Sane(u)
    ensures StandsFor(u, PLUS_FIVE, 5)
  {
    hide ParseTuple, Sane, StandsFor, NumericId, AllSafe;
    var t := Tuple(USER, [43, 53], RWX, None);
    PlusTuple();
    PlusId();
    SafeTuples();
    assert !IsDigit(t.name[0]);
    TupleStandsFor(u, PLUS_FIVE, t, 5);
  }

  lemma AsciiPasses(u: Unicode, s: Text)
    requires Sane(u) && forall i :: 0 <= i < |s| ==> s[i] < 128
    ensures u.nfc(s)
  {
  }

  // "user::rwx,group::rwx,other::rwx," and ",mask::rwx"
  const BASE: Text :=
    [117, 115, 101, 114, 58, 58, 114, 119, 120, 44]
    + [103, 114, 111, 117, 112, 58, 58, 114, 119, 120, 44]
    + [111, 116, 104, 101, 114, 58, 58, 114, 119, 120, 44]
  const MASK_END: Text := [44, 109, 97, 115, 107, 58, 58, 114, 119, 120]

  lemma Literals(id: nat)
    requires id < 10
    ensures AceText(OWNER) == [117, 115, 101, 114, 58, 58, 114, 119, 120]
    ensures AceText(OWNING_GROUP) == [103, 114, 111, 117, 112, 58, 58, 114, 119, 120]
    ensures AceText(EVERYONE) == [111, 116, 104, 101, 114, 58, 58, 114, 119, 120]
    ensures AceText(FULL_MASK) == [109, 97, 115, 107, 58, 58, 114, 119, 120]
    ensures AceText(Ace(0x02, 7, id)) == [117, 115, 101, 114, 58, 48 + id, 58, 114, 119, 120]
  {
    hide Join;
    JoinThree(USER, [], RWX);
    JoinThree(GROUP, [], RWX);
    JoinThree(OTHER, [], RWX);
    JoinThree(MASK, [], RWX);
    JoinThree(USER, Print(id), RWX);
    assert PermText(7) == RWX && Print(id) == [48 + id];
  }

  lemma JoinFive(a: Text, b: Text, c: Text, d: Text, e: Text)
    ensures Join([a, b, c, d, e], COMMA) == a + [COMMA] + (b + [COMMA] + (c + [COMMA] + (d + [COMMA] + e)))
  {
    assert [a, b, c, d, e][1..] == [b, c, d, e] && [b, c, d, e][1..] == [c, d, e] && [c, d, e][1..] == [d, e];
    assert [d, e][1..] == [e] && Join([e], COMMA) == e;
    assert Join([d, e], COMMA) == d + [COMMA] + e;
    assert Join([c, d, e], COMMA) == c + [COMMA] + (d + [COMMA] + e);
    assert Join([b, c, d, e], COMMA) == b + [COMMA] + (c + [COMMA] + (d + [COMMA] + e));
  }

  lemma Regroup(a: Text, b: Text, c: Text, d: Text, e: Text)
    ensures a + [COMMA] + (b + [COMMA] + (c + [COMMA] + (d + [COMMA] + e)))
         == (a + [COMMA] + b + [COMMA] + c + [COMMA]) + d + ([COMMA] + e)
  {
  }

  lemma Ends()
    ensures AceText(OWNER) + [COMMA] + AceText(OWNING_GROUP) + [COMMA] + AceText(EVERYONE) + [COMMA] == BASE
    ensures [COMMA] + AceText(FULL_MASK) == MASK_END
  {
    hide AceText;
    Literals(0);
    var (a, b, c) := (AceText(OWNER) + [COMMA], AceText(OWNING_GROUP) + [COMMA], AceText(EVERYONE) + [COMMA]);
    assert a + b + c == BASE;
    assert AceText(OWNER) + [COMMA] + AceText(OWNING_GROUP) + [COMMA] == a + b;
    assert a + b + AceText(EVERYONE) + [COMMA] == a + b + c;
  }

  lemma TextWith(tuple: Text)
    ensures Join(WithUser(tuple), COMMA) == BASE + tuple + MASK_END
  {
    hide Join, AceText;
    var (a, b, c, e) := (AceText(OWNER), AceText(OWNING_GROUP), AceText(EVERYONE), AceText(FULL_MASK));
    JoinFive(a, b, c, tuple, e);
    Regroup(a, b, c, tuple, e);
    Ends();
  }

  lemma RenderWith(id: nat)
    requires id < 10
    ensures Render(WithId(id)) == BASE + [117, 115, 101, 114, 58, 48 + id, 58, 114, 119, 120]
                                  + MASK_END
  {
    hide Join, AceText;
    Literals(id);
    TextWith(AceText(Ace(0x02, 7, id)));
    assert Texts(WithId(id)) == WithUser(AceText(Ace(0x02, 7, id)));
  }

  // "user:7:rwx" and "user:5:rwx"
  const SEVEN: Text := [117, 115, 101, 114, 58, 55, 58, 114, 119, 120]
  const FIVE: Text := [117, 115, 101, 114, 58, 53, 58, 114, 119, 120]

  lemma NotTheSame(a: Text, b: Text)
    requires |a| != |b|
    ensures BASE + a + MASK_END != BASE + b + MASK_END
  {
    assert |BASE + a + MASK_END| != |BASE + b + MASK_END|;
  }

  // A name with a numeric field comes back as the number.
  lemma BobComesBackAsSeven(u: Unicode)
    requires Sane(u)
    ensures var t := BASE + BOB + MASK_END;
            && ValidText(u, t) && XattrOf(u, t).Some?
            && TextOf(u, XattrOf(u, t).value) == Some(BASE + SEVEN + MASK_END) && BASE + SEVEN + MASK_END != t
  {
    hide Sane, ValidText, XattrOf, TextOf, StandsFor, Join, Render;
    TextWith(BOB);
    RenderWith(7);
    BobStandsForSeven(u);
    ComesBackNumeric(u, BOB, 7);
    NotTheSame(BOB, SEVEN);
  }

  // A plus sign is read as part of the number, and lost.
  lemma PlusComesBackBare(u: Unicode)
    requires Sane(u)
    ensures var t := BASE + PLUS_FIVE + MASK_END;
            && ValidText(u, t) && XattrOf(u, t).Some?
            && TextOf(u, XattrOf(u, t).value) == Some(BASE + FIVE + MASK_END) && BASE + FIVE + MASK_END != t
  {
    hide Sane, ValidText, XattrOf, TextOf, StandsFor, Join, Render;
    TextWith(PLUS_FIVE);
    RenderWith(5);
    PlusStandsForFive(u);
    ComesBackNumeric(u, PLUS_FIVE, 5);
    NotTheSame(PLUS_FIVE, FIVE);
  }
}
