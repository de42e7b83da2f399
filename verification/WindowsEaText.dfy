/** The bytes of a stream of Windows extended attributes, and that exactly these are accepted. */
module WindowsEaText {
  import opened Bytes
  import opened Format
  import opened WindowsEa

  datatype Ea = Ea(next: nat, flags: byte, name: seq<byte>, value: seq<byte>)

  // Offset of the next record, flags, name length, value length, name, NUL, value.
  function Front(r: Ea): (t: seq<byte>)
    requires |r.name| < 256
    ensures |t| == 9 + |r.name| + |r.value|
  {
    ToLe(r.next, 4) + [r.flags, |r.name|] + ToLe(|r.value|, 2) + r.name + [0] + r.value
  }

  // And zeros up to the next record, if one is announced.
  function RecordText(r: Ea): (t: seq<byte>)
    requires Proper(r)
    ensures |t| == if r.next == 0 then 9 + |r.name| + |r.value| else r.next
  {
    Front(r) + if r.next == 0 then [] else seq<byte>(r.next - |Front(r)|, _ => 0)
  }

  predicate Proper(r: Ea) {
    && 1 <= |r.name| < 256 && 0 !in r.name && |r.value| < 0x1_0000
    && (r.next == 0 || (9 + |r.name| + |r.value| <= r.next < 0x1_0000_0000 && r.next % 4 == 0))
  }

  // Proper records, of which only the last may announce nothing.
  ghost predicate AllProper(records: seq<Ea>) {
    && (forall i :: 0 <= i < |records| ==> Proper(records[i]))
    && forall i :: 0 <= i < |records| - 1 ==> records[i].next != 0
  }

  ghost function StreamText(records: seq<Ea>): seq<byte>
    requires AllProper(records)
  {
    if records == [] then [] else RecordText(records[0]) + StreamText(records[1..])
  }

  // ---------- one record ----------

  // The fields sit at their offsets.
  lemma FrontFields(p: seq<byte>, c: nat, r: Ea)
    requires Proper(r) && c + |Front(r)| <= |p| && p[c..c + |Front(r)|] == Front(r)
    ensures WellFormed(p, c) && Next(p, c) == r.next && RecordLen(p, c) == |Front(r)|
  {
    hide ToLe, FromLe;
    var q := p[c..c + |Front(r)|];
    Pow256Values();
    FromLeToLe(r.next, 4);
    FromLeToLe(|r.value|, 2);
    assert q[6] == ToLe(|r.value|, 2)[0] && q[7] == ToLe(|r.value|, 2)[1];
    assert q[..4] == ToLe(r.next, 4) && q[6..8] == ToLe(|r.value|, 2);
    assert p[c..c + 4] == q[..4] && p[c + 6..c + 8] == q[6..8] && p[c + 5] == q[5] == |r.name|;
    assert p[c + 8 + |r.name|] == q[8 + |r.name|] == 0;
    forall i | c + 8 <= i < c + 8 + |r.name| ensures p[i] != 0 {
      assert p[i] == q[i - c] == r.name[i - c - 8];
    }
  }

  function RecordAt(p: seq<byte>, c: nat): (r: Ea)
    requires WellFormed(p, c)
    ensures |r.name| < 256
  {
    var n := NameLen(p, c);
    Ea(Next(p, c), p[c + 4], p[c + 8..c + 8 + n], p[c + 9 + n..c + RecordLen(p, c)])
  }

  lemma FrontAt(p: seq<byte>, c: nat)
    requires WellFormed(p, c)
    ensures var r := RecordAt(p, c);
            && 1 <= |r.name| && 0 !in r.name && |r.value| < 0x1_0000 && r.next < 0x1_0000_0000
            && |Front(r)| == RecordLen(p, c) && p[c..c + RecordLen(p, c)] == Front(r)
  {
    hide ToLe, FromLe;
    var (r, n) := (RecordAt(p, c), NameLen(p, c));
    Pow256Values();
    ToLeFromLe(p[c..c + 4]);
    ToLeFromLe(p[c + 6..c + 8]);
    FromLeBound(p[c..c + 4]);
    FromLeBound(p[c + 6..c + 8]);
    forall i | 0 <= i < n ensures r.name[i] != 0 {
      assert r.name[i] == p[c + 8 + i];
    }
    assert p[c..c + RecordLen(p, c)]
        == p[c..c + 4] + [p[c + 4], p[c + 5]] + p[c + 6..c + 8] + r.name + [p[c + 8 + n]] + r.value;
  }

  // ---------- the stream ----------

  // The text of proper records is walked to its end.
  lemma {:induction false} TextWalks(p: seq<byte>, c: nat, records: seq<Ea>)
    requires AllProper(records) && c <= |p| && p[c..] == StreamText(records)
    ensures Walk(p, c).Ok?
    decreases |records|
  {
    hide Front, WellFormed, Next, RecordLen, Proper;
    if records != [] {
      var (r, rest) := (records[0], records[1..]);
      var n := |RecordText(r)|;
      RecordWalks(p, c, r, StreamText(rest));
      if r.next != 0 {
        assert p[c + n..] == p[c..][n..] == StreamText(rest);
        TextWalks(p, c + n, rest);
      } else {
        assert rest == [];
      }
    }
  }

  lemma RecordWalks(p: seq<byte>, c: nat, r: Ea, rest: seq<byte>)
    requires Proper(r) && c <= |p| && p[c..] == RecordText(r) + rest
    ensures WellFormed(p, c) && Next(p, c) == r.next && RecordLen(p, c) == 9 + |r.name| + |r.value|
    ensures r.next != 0 ==> Steps(p, c, c + r.next)
  {
    hide Front, WellFormed, Next, RecordLen;
    var (q, n) := (p[c..], |Front(r)|);
    assert p[c..c + n] == q[..n] == RecordText(r)[..n] == Front(r);
    FrontFields(p, c, r);
    if r.next != 0 {
      forall i | c + n <= i < c + r.next ensures p[i] == 0 {
        assert p[i] == q[i - c] == RecordText(r)[i - c];
      }
    }
  }

  // What is walked to its end is the text of proper records.
  lemma {:induction false} WalkedIsText(p: seq<byte>, c: nat) returns (records: seq<Ea>)
    requires c <= |p| && Walk(p, c).Ok?
    ensures AllProper(records) && p[c..] == StreamText(records) && (c < |p| ==> records != [])
    decreases |p| - c
  {
    hide Front, WellFormed, Next, RecordLen, Proper, RecordAt;
    if c == |p| {
      return [];
    }
    var r := RecordAt(p, c);
    WalkedRecord(p, c);
    if r.next == 0 {
      assert p[c..] == RecordText(r) + [];
      return [r];
    }
    var rest := WalkedIsText(p, c + r.next);
    records := [r] + rest;
    assert records[1..] == rest;
    assert p[c..] == p[c..c + r.next] + p[c + r.next..];
  }

  lemma WalkedRecord(p: seq<byte>, c: nat)
    requires c < |p| && Walk(p, c).Ok?
    ensures WellFormed(p, c) && RecordAt(p, c).next == Next(p, c) && Proper(RecordAt(p, c))
    ensures Next(p, c) == 0 ==> p[c..] == RecordText(RecordAt(p, c))
    ensures Next(p, c) != 0 ==>
              c + Next(p, c) <= |p| && Walk(p, c + Next(p, c)).Ok? && p[c..c + Next(p, c)] == RecordText(RecordAt(p, c))
  {
    hide Front, WellFormed, Next, RecordLen;
    FrontAt(p, c);
    var (r, n) := (RecordAt(p, c), RecordLen(p, c));
    if r.next == 0 {
      assert p[c..] == p[c..c + n] && RecordText(r) == Front(r);
    } else {
      var d := c + r.next;
      assert p[c..d] == p[c..c + n] + p[c + n..d];
      assert p[c + n..d] == seq<byte>(r.next - n, _ => 0);
    }
  }

  // Accepted payloads are exactly the texts of non-empty lists of proper records.
  lemma AcceptedExactly(p: seq<byte>)
    ensures p != [] ==> (Walk(p, 0).Ok? <==> exists records :: AllProper(records) && p == StreamText(records))
  {
    hide Walk, StreamText, AllProper;
    assert p[0..] == p;
    if p != [] && Walk(p, 0).Ok? {
      var records := WalkedIsText(p, 0);
    }
    if records :| AllProper(records) && p == StreamText(records) {
      TextWalks(p, 0, records);
    }
  }

  // One attribute "A" with value 9, flags 0x80: ten bytes and a value.
  lemma OneAttribute()
    ensures Walk([0, 0, 0, 0, 0x80, 1, 1, 0, 65, 0, 9], 0).Ok?
  {
    var p: seq<byte> := [0, 0, 0, 0, 0x80, 1, 1, 0, 65, 0, 9];
    assert p[0..4] == [0, 0, 0, 0] && p[6..8] == [1, 0];
    assert FromLe([0, 0, 0, 0]) == 0 && FromLe([1, 0]) == 1;
  }
}
