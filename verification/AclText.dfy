/** POSIX.1e access control lists in SCHILY text: splitting, tuples and canonical form. */
module AclText {
  import opened Format
  import opened Decimal
  import Pax

  const COMMA: byte := 44
  const COLON: byte := 58
  const DASH: byte := 45

  const USER: Text := [117, 115, 101, 114]
  const GROUP: Text := [103, 114, 111, 117, 112]
  const OTHER: Text := [111, 116, 104, 101, 114]
  const MASK: Text := [109, 97, 115, 107]
  const RWX: Text := [114, 119, 120]
  const DEFAULT: Text := [100, 101, 102, 97, 117, 108, 116, 58]

  // What the text library decides about byte strings; plain ASCII passes both.
  datatype Unicode = Unicode(utf8: Text -> bool, nfc: Text -> bool)

  ghost predicate Sane(u: Unicode) {
    forall s: Text :: (forall i :: 0 <= i < |s| ==> s[i] < 128) ==> u.utf8(s) && u.nfc(s)
  }

  // ---------- splitting and joining ----------

  function Split(s: Text, sep: byte): (parts: seq<Text>)
    ensures parts != []
    decreases |s|
  {
    var k := Find(s, 0, sep);
    if k.None? then [s] else [s[..k.value]] + Split(s[k.value + 1..], sep)
  }

  function Join(parts: seq<Text>, sep: byte): Text
    requires parts != []
  {
    if |parts| == 1 then parts[0] else parts[0] + [sep] + Join(parts[1..], sep)
  }

  ghost predicate Free(parts: seq<Text>, sep: byte) {
    forall i :: 0 <= i < |parts| ==> sep !in parts[i]
  }

  lemma SplitWhole(s: Text, sep: byte)
    requires sep !in s
    ensures Split(s, sep) == [s]
  {
    assert forall i :: 0 <= i < |s| ==> s[i] in s;
  }

  lemma SplitHead(head: Text, rest: Text, sep: byte)
    requires sep !in head
    ensures Split(head + [sep] + rest, sep) == [head] + Split(rest, sep)
  {
    var (s, k) := (head + [sep] + rest, |head|);
    assert forall i :: 0 <= i < k ==> s[i] == head[i] && head[i] in head;
    FirstAt(s, sep, k);
    assert s[..k] == head && s[k + 1..] == rest;
  }

  lemma {:induction false} SplitJoin(parts: seq<Text>, sep: byte)
    requires parts != [] && Free(parts, sep)
    ensures Split(Join(parts, sep), sep) == parts
  {
    hide Split;
    if |parts| == 1 {
      SplitWhole(parts[0], sep);
    } else {
      SplitJoin(parts[1..], sep);
      SplitHead(parts[0], Join(parts[1..], sep), sep);
    }
  }

  lemma {:induction false} JoinSplit(s: Text, sep: byte)
    ensures Join(Split(s, sep), sep) == s && Free(Split(s, sep), sep)
    ensures forall i :: 0 <= i < |Split(s, sep)| ==> forall b :: b in Split(s, sep)[i] ==> b in s
    decreases |s|
  {
    var k := Find(s, 0, sep);
    if k.Some? {
      var rest := s[k.value + 1..];
      JoinSplit(rest, sep);
      assert s == s[..k.value] + [sep] + rest;
      var parts := Split(s, sep);
      assert parts[1..] == Split(rest, sep);
      assert forall i :: 1 <= i < |parts| ==> parts[i] == Split(rest, sep)[i - 1];
    }
  }

  // ---------- one tuple ----------

  datatype Key = Key(category: nat, qualifier: nat, name: Text)

  datatype Tuple = Tuple(tag: Text, name: Text, perms: Text, id: Option<nat>)

  predicate ValidPermissions(s: Text) {
    |s| == 3 && forall i :: 0 <= i < 3 ==> s[i] == RWX[i] || s[i] == DASH
  }

  function ParseAclId(s: Text): (r: Result<nat>)
    ensures r.Ok? <==> Minimal(s) && Value(s) <= U64_MAX
    ensures r.Ok? ==> r.value == Value(s)
  {
    if !Minimal(s) then Invalid("PrimaryMetadata", "ACL numeric ID is not minimal decimal")
    else if Value(s) > U64_MAX then Err(InvalidArchive("ACL numeric ID exceeds u64"))
    else Ok(Value(s))
  }

  function ParseTuple(s: Text): (r: Result<Tuple>)
    ensures r.Ok? ==> ValidPermissions(r.value.perms)
  {
    var fields := Split(s, COLON);
    if |fields| != 3 && |fields| != 4 then Invalid("PrimaryMetadata", "POSIX ACL tuple has invalid field count")
    else if !ValidPermissions(fields[2]) then Invalid("PrimaryMetadata", "POSIX ACL permissions are not canonical")
    else if |fields| == 3 then Ok(Tuple(fields[0], fields[1], fields[2], None))
    else
      var id := ParseAclId(fields[3]);
      if id.Err? then Err(id.error) else Ok(Tuple(fields[0], fields[1], fields[2], Some(id.value)))
  }

  predicate ForbiddenInName(b: byte) {
    b == COMMA || b == COLON || b == 13 || b == 10 || b == 0
  }

  // The numeric qualifier of a named principal.
  function NameQualifier(u: Unicode, name: Text, id: Option<nat>): Result<nat> {
    if name == [] || !u.nfc(name) || exists i :: 0 <= i < |name| && ForbiddenInName(name[i]) then
      Invalid("PrimaryMetadata", "ACL name is not canonical NFC UTF-8")
    else if AllDigits(name) then
      var n := ParseAclId(name);
      if n.Err? then Err(n.error)
      else if id.Some? then Invalid("PrimaryMetadata", "numeric ACL name has a redundant extra ID")
      else Ok(n.value)
    else Ok(if id.Some? then id.value else U64_MAX)
  }

  // Why an owner, group, other or mask entry is refused.
  function BaseError(category: nat): FormatError {
    InvalidMetadata("PrimaryMetadata",
      if category == 0 then "duplicate or invalid POSIX owner-user ACL entry"
      else if category == 1 then "duplicate or invalid POSIX owner-group ACL entry"
      else if category == 2 then "duplicate or invalid POSIX other ACL entry"
      else "duplicate or invalid POSIX ACL mask")
  }

  function BaseKeyOf(t: Tuple, category: nat): Result<Key> {
    if t.id.Some? then Err(BaseError(category)) else Ok(Key(category, 0, []))
  }

  function TupleKey(u: Unicode, t: Tuple): (r: Result<Key>)
    ensures r.Ok? ==> r.value.name == t.name && r.value.category <= 5
    ensures r.Ok? && t.name == [] ==> r.value == Key(r.value.category, 0, [])
    ensures r.Ok? ==> (t.name == [] <==> r.value.category < 3 || r.value.category == 5)
  {
    if t.name == [] then
      if t.tag == USER then BaseKeyOf(t, 0)
      else if t.tag == GROUP then BaseKeyOf(t, 1)
      else if t.tag == OTHER then BaseKeyOf(t, 2)
      else if t.tag == MASK then BaseKeyOf(t, 5)
      else Invalid("PrimaryMetadata", "invalid POSIX ACL tag or qualifier")
    else if t.tag == USER || t.tag == GROUP then
      var q := NameQualifier(u, t.name, t.id);
      if q.Err? then Err(q.error) else Ok(Key(if t.tag == USER then 3 else 4, q.value, t.name))
    else Invalid("PrimaryMetadata", "invalid POSIX ACL tag or qualifier")
  }

  function Analyze(u: Unicode, s: Text): Result<Key> {
    var t := ParseTuple(s);
    if t.Err? then Err(t.error) else TupleKey(u, t.value)
  }

  // ---------- the order of entries ----------

  predicate KeyLess(a: Key, b: Key) {
    a.category < b.category ||
    (a.category == b.category &&
      (a.qualifier < b.qualifier || (a.qualifier == b.qualifier && Pax.Less(a.name, b.name))))
  }

  lemma KeyLessTransitive(a: Key, b: Key, c: Key)
    requires KeyLess(a, b) && KeyLess(b, c)
    ensures KeyLess(a, c)
  {
    if Pax.Less(a.name, b.name) && Pax.Less(b.name, c.name) {
      Pax.LessTransitive(a.name, b.name, c.name);
    }
  }

  lemma KeyLessIrreflexive(a: Key)
    ensures !KeyLess(a, a)
  {
    Pax.LessIrreflexive(a.name);
  }

  // ---------- the canonical text ----------

  predicate ContainsAt(s: Text, part: Text, i: nat) {
    i + |part| <= |s| && s[i..i + |part|] == part
  }

  predicate IsWhitespace(b: byte) {
    b == 32 || b == 9 || b == 10 || b == 12 || b == 13
  }

  predicate PlainText(u: Unicode, s: Text) {
    && u.utf8(s) && s != [] && s[0] != COMMA && s[|s| - 1] != COMMA
    && (forall i :: 0 <= i < |s| ==> !ContainsAt(s, DEFAULT, i))
    && (forall i :: 0 <= i < |s| ==> !IsWhitespace(s[i]) && s[i] != 35 && s[i] != 0)
  }

  ghost predicate HasCategory(keys: seq<Key>, category: nat) {
    exists i :: 0 <= i < |keys| && keys[i].category == category
  }

  ghost predicate Ascending(keys: seq<Key>) {
    forall i :: 0 <= i < |keys| - 1 ==> KeyLess(keys[i], keys[i + 1])
  }

  ghost predicate Complete(keys: seq<Key>) {
    && HasCategory(keys, 0) && HasCategory(keys, 1) && HasCategory(keys, 2)
    && (HasCategory(keys, 3) || HasCategory(keys, 4) ==> HasCategory(keys, 5))
  }

  ghost predicate AllAnalyze(u: Unicode, tuples: seq<Text>) {
    forall i :: 0 <= i < |tuples| ==> Analyze(u, tuples[i]).Ok?
  }

  ghost function KeysOf(u: Unicode, tuples: seq<Text>): (keys: seq<Key>)
    requires AllAnalyze(u, tuples)
    ensures |keys| == |tuples|
  {
    seq(|tuples|, i requires 0 <= i < |tuples| => Analyze(u, tuples[i]).value)
  }

  // Well-formed tuples in strict order, with the three base entries, and a mask if anyone is named.
  ghost predicate ValidText(u: Unicode, s: Text) {
    && PlainText(u, s) && AllAnalyze(u, Split(s, COMMA))
    && Ascending(KeysOf(u, Split(s, COMMA))) && Complete(KeysOf(u, Split(s, COMMA)))
  }

  lemma {:induction false} LastIsLargest(keys: seq<Key>, i: nat)
    requires Ascending(keys) && i < |keys|
    ensures i == |keys| - 1 || KeyLess(keys[i], keys[|keys| - 1])
    decreases |keys|
  {
    if i < |keys| - 1 {
      var front := keys[..|keys| - 1];
      assert Ascending(front);
      LastIsLargest(front, i);
      assert KeyLess(keys[|keys| - 2], keys[|keys| - 2 + 1]);
      if i < |keys| - 2 {
        KeyLessTransitive(keys[i], keys[|keys| - 2], keys[|keys| - 1]);
      }
    }
  }

  // A key that repeats an earlier one cannot follow the last.
  lemma NoRepeat(keys: seq<Key>, i: nat, key: Key)
    requires Ascending(keys) && i < |keys| && keys[i] == key
    ensures !KeyLess(keys[|keys| - 1], key)
  {
    LastIsLargest(keys, i);
    KeyLessIrreflexive(key);
    if i != |keys| - 1 && KeyLess(keys[|keys| - 1], key) {
      KeyLessTransitive(key, keys[|keys| - 1], key);
    }
  }

  // ---------- the error of an invalid text ----------

  function PlainError(u: Unicode, s: Text): Option<FormatError> {
    if !u.utf8(s) then Some(InvalidArchive("ACL text is not UTF-8"))
    else if !PlainText(u, s) then Some(InvalidMetadata("PrimaryMetadata", "ACL text is not canonical"))
    else None
  }

  // Some earlier tuple has this category.
  predicate Seen(u: Unicode, tuples: seq<Text>, n: nat, category: nat)
    requires n <= |tuples|
  {
    exists i :: 0 <= i < n && Analyze(u, tuples[i]).Ok? && Analyze(u, tuples[i]).value.category == category
  }

  // What is wrong with the tuple at `n`, after the ones before it.
  function TupleError(u: Unicode, tuples: seq<Text>, n: nat): Option<FormatError>
    requires n < |tuples|
  {
    var k := Analyze(u, tuples[n]);
    if k.Err? then Some(k.error)
    else if (k.value.category < 3 || k.value.category == 5) && Seen(u, tuples, n, k.value.category) then
      Some(BaseError(k.value.category))
    else if n > 0 && Analyze(u, tuples[n - 1]).Ok? && !KeyLess(Analyze(u, tuples[n - 1]).value, k.value) then
      Some(InvalidMetadata("PrimaryMetadata", "POSIX ACL entries are not canonically ordered"))
    else None
  }

  function FirstError(u: Unicode, tuples: seq<Text>, n: nat): Option<FormatError>
    requires n <= |tuples|
    decreases |tuples| - n
  {
    if n == |tuples| then None
    else
      var error := TupleError(u, tuples, n);
      if error.Some? then error else FirstError(u, tuples, n + 1)
  }

  // The framing first, then the tuples in order, then the entries that must be there.
  ghost function AclError(u: Unicode, s: Text): Option<FormatError> {
    var tuples := Split(s, COMMA);
    if PlainError(u, s).Some? then PlainError(u, s)
    else if FirstError(u, tuples, 0).Some? then FirstError(u, tuples, 0)
    else if ValidText(u, s) then None
    else Some(InvalidMetadata("PrimaryMetadata", "POSIX ACL required entries are missing"))
  }

  // ---------- the validating loop ----------

  ghost predicate Counted(keys: seq<Key>, base: seq<bool>, masks: nat, named: nat) {
    && |base| == 3
    && (forall c: nat :: c < 3 ==> (base[c] <==> HasCategory(keys, c)))
    && (masks != 0 <==> HasCategory(keys, 5)) && masks <= 1
    && (named != 0 <==> HasCategory(keys, 3) || HasCategory(keys, 4))
  }

  lemma CountedStep(keys: seq<Key>, key: Key, base: seq<bool>, masks: nat, named: nat)
    requires Counted(keys, base, masks, named) && key.category <= 5
    requires key.category == 5 ==> masks == 0
    ensures Counted(keys + [key], if key.category < 3 then base[key.category := true] else base,
                    if key.category == 5 then masks + 1 else masks,
                    if key.category == 3 || key.category == 4 then named + 1 else named)
  {
    var more := keys + [key];
    assert more[|keys|] == key;
    forall c: nat
      ensures HasCategory(more, c) <==> HasCategory(keys, c) || key.category == c
    {
      if HasCategory(keys, c) {
        var i :| 0 <= i < |keys| && keys[i].category == c;
        assert more[i].category == c;
      }
    }
  }

  // What the loop knows after its first tuples.
  ghost predicate Progress(u: Unicode, tuples: seq<Text>, n: nat, keys: seq<Key>) {
    && n == |keys| <= |tuples| && Ascending(keys)
    && forall i :: 0 <= i < n ==> Analyze(u, tuples[i]) == Ok(keys[i])
  }

  ghost predicate Met(tuples: seq<Text>, n: nat, principals: set<(Text, Text, Option<nat>)>) {
    && n <= |tuples|
    && forall p :: p in principals ==> exists i :: 0 <= i < n && Principal(ParseTuple(tuples[i])) == Some(p)
  }

  function Principal(t: Result<Tuple>): Option<(Text, Text, Option<nat>)> {
    if t.Ok? then Some((t.value.tag, t.value.name, t.value.id)) else None
  }

  // A tuple out of order, wherever it stands, makes the whole text invalid.
  lemma OutOfOrder(u: Unicode, tuples: seq<Text>, n: nat, keys: seq<Key>, key: Key)
    requires Progress(u, tuples, n, keys) && 0 < n < |tuples| && Analyze(u, tuples[n]) == Ok(key)
    requires !KeyLess(keys[n - 1], key)
    ensures AllAnalyze(u, tuples) ==> !Ascending(KeysOf(u, tuples))
  {
    hide Analyze, KeyLess;
    if AllAnalyze(u, tuples) {
      var all := KeysOf(u, tuples);
      assert all[n - 1] == keys[n - 1] && all[n - 1 + 1] == key;
    }
  }

  lemma BaseKey(u: Unicode, s: Text, key: Key)
    requires Analyze(u, s) == Ok(key) && (key.category < 3 || key.category == 5)
    ensures key == Key(key.category, 0, [])
  {
    hide ParseTuple, NameQualifier;
  }

  lemma DuplicateEntry(u: Unicode, tuples: seq<Text>, n: nat, keys: seq<Key>, key: Key)
    requires Progress(u, tuples, n, keys) && n < |tuples| && Analyze(u, tuples[n]) == Ok(key)
    requires HasCategory(keys, key.category) && (key.category < 3 || key.category == 5)
    ensures AllAnalyze(u, tuples) ==> !Ascending(KeysOf(u, tuples))
  {
    hide Analyze, KeyLess, Ascending;
    var i :| 0 <= i < |keys| && keys[i].category == key.category;
    assert Analyze(u, tuples[i]) == Ok(keys[i]);
    BaseKey(u, tuples[i], keys[i]);
    BaseKey(u, tuples[n], key);
    NoRepeat(keys, i, key);
    OutOfOrder(u, tuples, n, keys, key);
  }

  // The set of principals never rejects what the order lets through.
  lemma NewPrincipal(u: Unicode, tuples: seq<Text>, n: nat, keys: seq<Key>, key: Key,
                     principals: set<(Text, Text, Option<nat>)>, p: (Text, Text, Option<nat>))
    requires Progress(u, tuples, n, keys) && n < |tuples| && Analyze(u, tuples[n]) == Ok(key)
    requires n > 0 ==> KeyLess(keys[n - 1], key)
    requires Met(tuples, n, principals) && Principal(ParseTuple(tuples[n])) == Some(p)
    ensures p !in principals
  {
    hide Analyze, KeyLess, Ascending, ParseTuple, Principal;
    if p in principals {
      var i :| 0 <= i < n && Principal(ParseTuple(tuples[i])) == Some(p);
      SamePrincipal(u, tuples[i], tuples[n]);
      assert Analyze(u, tuples[i]) == Ok(keys[i]);
      NoRepeat(keys, i, key);
    }
  }

  lemma SamePrincipal(u: Unicode, s: Text, t: Text)
    requires Analyze(u, s).Ok? && Analyze(u, t).Ok? && Principal(ParseTuple(s)) == Principal(ParseTuple(t))
    ensures Analyze(u, s) == Analyze(u, t)
  {
    hide ParseTuple, NameQualifier;
  }

  lemma ProgressStep(u: Unicode, tuples: seq<Text>, n: nat, keys: seq<Key>, key: Key)
    requires Progress(u, tuples, n, keys) && n < |tuples| && Analyze(u, tuples[n]) == Ok(key)
    requires n > 0 ==> KeyLess(keys[n - 1], key)
    ensures Progress(u, tuples, n + 1, keys + [key])
  {
    hide Analyze, KeyLess;
  }

  method ValidatePosixAclText(u: Unicode, value: Text) returns (r: Result<()>)
    ensures r.Ok? <==> ValidText(u, value)
    ensures r == if AclError(u, value).Some? then Err(AclError(u, value).value) else Ok(())
  {
    hide Seen, BaseError, PlainText, Ascending, Counted, Met, Progress, HasCategory, KeyLess, ParseTuple,
      TupleKey, Split;
    if !u.utf8(value) {
      NotUtf8(u, value);
      return Err(InvalidArchive("ACL text is not UTF-8"));
    }
    if !PlainText(u, value) {
      return Invalid("PrimaryMetadata", "ACL text is not canonical");
    }
    var tuples := Split(value, COMMA);
    ghost var keys: seq<Key> := [];
    var previous: Option<Key> := None;
    var principals: set<(Text, Text, Option<nat>)> := {};
    var base := [false, false, false];
    var masks: nat := 0;
    var named: nat := 0;
    Starts(u, tuples);
    for i := 0 to |tuples|
      invariant Progress(u, tuples, i, keys) && |keys| == i && |base| == 3
      invariant FirstError(u, tuples, i) == FirstError(u, tuples, 0)
      invariant previous == if i == 0 then None else Some(keys[i - 1])
      invariant Met(tuples, i, principals) && Counted(keys, base, masks, named)
    {
      var t := ParseTuple(tuples[i]);
      if t.Err? {
        return Err(t.error);
      }
      var k := TupleKey(u, t.value);
      if k.Err? {
        return Err(k.error);
      }
      var key := k.value;
      assert Analyze(u, tuples[i]) == Ok(key);
      Flags(keys, base, masks, named);
      SeenIsCategory(u, tuples, i, keys, key.category);
      if (key.category < 3 && base[key.category]) || (key.category == 5 && masks != 0) {
        DuplicateEntry(u, tuples, i, keys, key);
        return Err(BaseError(key.category));
      }
      CountedStep(keys, key, base, masks, named);
      base := if key.category < 3 then base[key.category := true] else base;
      masks := if key.category == 5 then masks + 1 else masks;
      named := if key.category == 3 || key.category == 4 then named + 1 else named;
      if previous.Some? && !KeyLess(previous.value, key) {
        OutOfOrder(u, tuples, i, keys, key);
        return Invalid("PrimaryMetadata", "POSIX ACL entries are not canonically ordered");
      }
      previous := Some(key);
      var principal := (t.value.tag, t.value.name, t.value.id);
      NewPrincipal(u, tuples, i, keys, key, principals, principal);
      MetStep(tuples, i, principals, principal);
      if principal in principals {
        assert false;
      }
      principals := principals + {principal};
      ProgressStep(u, tuples, i, keys, key);
      keys := keys + [key];
    }
    Finished(u, tuples, keys, base, masks, named);
    if !(base[0] && base[1] && base[2]) || (named != 0 && masks != 1) {
      return Invalid("PrimaryMetadata", "POSIX ACL required entries are missing");
    }
    return Ok(());
  }

  lemma NotUtf8(u: Unicode, s: Text)
    requires !u.utf8(s)
    ensures !PlainText(u, s)
  {
  }

  lemma Starts(u: Unicode, tuples: seq<Text>)
    ensures Progress(u, tuples, 0, []) && Met(tuples, 0, {}) && Counted([], [false, false, false], 0, 0)
  {
  }

  lemma SeenIsCategory(u: Unicode, tuples: seq<Text>, n: nat, keys: seq<Key>, category: nat)
    requires Progress(u, tuples, n, keys)
    ensures Seen(u, tuples, n, category) <==> HasCategory(keys, category)
    ensures n > 0 ==> Analyze(u, tuples[n - 1]) == Ok(keys[n - 1])
  {
    hide Analyze, Ascending;
    if HasCategory(keys, category) {
      var i :| 0 <= i < |keys| && keys[i].category == category;
      assert Analyze(u, tuples[i]) == Ok(keys[i]);
    }
  }

  lemma Flags(keys: seq<Key>, base: seq<bool>, masks: nat, named: nat)
    requires Counted(keys, base, masks, named)
    ensures |base| == 3 && forall c: nat :: c < 3 ==> (base[c] <==> HasCategory(keys, c))
    ensures masks != 0 <==> HasCategory(keys, 5)
  {
  }

  lemma MetStep(tuples: seq<Text>, n: nat, principals: set<(Text, Text, Option<nat>)>, p: (Text, Text, Option<nat>))
    requires Met(tuples, n, principals) && n < |tuples| && Principal(ParseTuple(tuples[n])) == Some(p)
    ensures Met(tuples, n + 1, principals + {p})
  {
    hide ParseTuple;
    forall q | q in principals + {p}
      ensures exists i :: 0 <= i < n + 1 && Principal(ParseTuple(tuples[i])) == Some(q)
    {
      if q in principals {
        var i :| 0 <= i < n && Principal(ParseTuple(tuples[i])) == Some(q);
      }
    }
  }

  lemma Finished(u: Unicode, tuples: seq<Text>, keys: seq<Key>, base: seq<bool>, masks: nat, named: nat)
    requires Progress(u, tuples, |tuples|, keys) && Counted(keys, base, masks, named)
    ensures |base| == 3 && AllAnalyze(u, tuples) && keys == KeysOf(u, tuples) && Ascending(keys)
    ensures Complete(keys) <==> base[0] && base[1] && base[2] && (named != 0 ==> masks == 1)
  {
    hide Analyze, Ascending;
    assert KeysOf(u, tuples)[..|tuples|] == KeysOf(u, tuples);
  }
}
