/** The text of a sparse map: every layout has exactly one that is accepted. */
module SparseMap {
  import opened Decimal
  import opened Format
  import opened Sparse

  function Line(v: nat): Text {
    Print(v) + [NEWLINE]
  }

  function Lines(extents: seq<Extent>): Text {
    if extents == [] then [] else Line(extents[0].offset) + Line(extents[0].length) + Lines(extents[1..])
  }

  function Zeros(n: nat): (z: Text)
    ensures |z| == n
  {
    seq<byte>(n, _ => 0)
  }

  function Lead(extents: seq<Extent>): Text {
    Line(|extents|) + Lines(extents)
  }

  // A multiple of 512 that holds n bytes with less than 512 to spare.
  ghost predicate Whole(n: nat, m: nat) {
    n <= m < n + 512 && m % 512 == 0
  }

  // The count, the extents, and zeros up to m bytes.
  function MapText(extents: seq<Extent>, m: nat): (t: Text)
    requires |Lead(extents)| <= m
    ensures |t| == m
  {
    Lead(extents) + Zeros(m - |Lead(extents)|)
  }

  ghost predicate StartsAt(p: Text, c: nat, t: Text) {
    c + |t| <= |p| && p[c..c + |t|] == t
  }

  lemma StartsJoin(p: Text, c: nat, s: Text, t: Text)
    ensures StartsAt(p, c, s + t) <==> StartsAt(p, c, s) && StartsAt(p, c + |s|, t)
  {
    if c + |s| + |t| <= |p| {
      var q := p[c..c + |s| + |t|];
      assert q[..|s|] == p[c..c + |s|] && q[|s|..] == p[c + |s|..c + |s| + |t|];
      assert q == q[..|s|] + q[|s|..] && (s + t)[..|s|] == s && (s + t)[|s|..] == t;
    }
  }

  // A line is read as a value exactly when it is the value's text.
  lemma LineIs(p: Text, c: nat)
    requires c <= |p| && ParseLine(p, c).Ok?
    ensures var (v, next) := ParseLine(p, c).value;
            v <= U64_MAX && StartsAt(p, c, Line(v)) && next == c + |Line(v)|
  {
    hide Value, Print;
    var e := Find(p, c, NEWLINE).value;
    PrintValue(p[c..e]);
    assert p[c..e + 1] == p[c..e] + [p[e]];
  }

  lemma LineParses(p: Text, c: nat, v: nat)
    requires StartsAt(p, c, Line(v)) && v <= U64_MAX
    ensures ParseLine(p, c) == Ok((v, c + |Line(v)|))
  {
    hide Value, Print;
    var (digits, n) := (Print(v), |Print(v)|);
    var q := p[c..c + n + 1];
    assert forall i :: 0 <= i < n ==> p[c + i] == q[i] == digits[i] && IsDigit(digits[i]);
    assert p[c + n] == q[n] == NEWLINE;
    forall i | c <= i < c + n ensures p[i] != NEWLINE {
      assert p[c + (i - c)] == digits[i - c];
    }
    FirstAtFrom(p, NEWLINE, c, c + n);
    assert p[c..c + n] == digits;
    ValuePrint(v);
  }

  // What the parser has behind it when it succeeds.
  ghost predicate Read(p: Text, c: nat, k: nat, extents: seq<Extent>, l: Layout) {
    && |l.extents| == |extents| + k && l.extents[..|extents|] == extents
    && var lines := Lines(l.extents[|extents|..]);
       && StartsAt(p, c, lines) && l.mapAndPaddingSize == RoundUp512(c + |lines|) <= |p|
       && ZeroFilled(p, c + |lines|, l.mapAndPaddingSize)
  }

  lemma TwoLines(p: Text, c: nat)
    requires c <= |p| && ParseLine(p, c).Ok? && ParseLine(p, ParseLine(p, c).value.1).Ok?
    ensures var (offset, c1) := ParseLine(p, c).value;
            var (length, c2) := ParseLine(p, c1).value;
            StartsAt(p, c, Line(offset) + Line(length)) && c2 == c + |Line(offset) + Line(length)|
  {
    hide ParseLine, Line;
    LineIs(p, c);
    LineIs(p, ParseLine(p, c).value.1);
    StartsJoin(p, c, Line(ParseLine(p, c).value.0), Line(ParseLine(p, ParseLine(p, c).value.1).value.0));
  }

  lemma ReadTail(p: Text, c: nat, stored: nat, extents: seq<Extent>, logicalSize: nat)
    requires c <= |p| && ParseTail(p, c, stored, extents, logicalSize).Ok?
    ensures Read(p, c, 0, extents, ParseTail(p, c, stored, extents, logicalSize).value)
  {
    assert extents[|extents|..] == [] && extents[..|extents|] == extents;
  }

  lemma ReadMore(p: Text, c: nat, k: nat, extents: seq<Extent>, e: Extent, l: Layout)
    requires StartsAt(p, c, Line(e.offset) + Line(e.length))
    requires Read(p, c + |Line(e.offset) + Line(e.length)|, k, extents + [e], l)
    ensures Read(p, c, k + 1, extents, l)
  {
    hide Line, ZeroFilled;
    var tail := l.extents[|extents|..];
    assert l.extents[..|extents| + 1][|extents|] == e && l.extents[..|extents| + 1][..|extents|] == extents;
    assert l.extents[..|extents|] == extents;
    assert tail[0] == e && tail[1..] == l.extents[|extents| + 1..];
    StartsJoin(p, c, Line(e.offset) + Line(e.length), Lines(tail[1..]));
  }

  lemma {:induction false} RestIsText(p: Text, c: nat, k: nat, previousEnd: nat, stored: nat, extents: seq<Extent>,
                                      logicalSize: nat)
    requires c <= |p| && ParseRest(p, c, k, previousEnd, stored, extents, logicalSize).Ok?
    ensures Read(p, c, k, extents, ParseRest(p, c, k, previousEnd, stored, extents, logicalSize).value)
    decreases k
  {
    hide ParseLine, ParseTail, CheckExtent, Line, Read;
    if k == 0 {
      ReadTail(p, c, stored, extents, logicalSize);
    } else {
      var (offset, c1) := ParseLine(p, c).value;
      var (length, c2) := ParseLine(p, c1).value;
      var end := CheckExtent(offset, length, previousEnd, stored, extents == [], logicalSize).value;
      var next := extents + [Extent(offset, length)];
      TwoLines(p, c);
      RestIsText(p, c2, k - 1, end, stored + length, next, logicalSize);
      ReadMore(p, c, k - 1, extents, Extent(offset, length),
               ParseRest(p, c2, k - 1, end, stored + length, next, logicalSize).value);
    }
  }

  // Whatever parses begins with the text of its layout, padded to the next multiple of 512.
  lemma ParsedMap(p: Text, logicalSize: nat)
    requires Parse(p, logicalSize).Ok?
    ensures var l := Parse(p, logicalSize).value;
            && Whole(|Lead(l.extents)|, l.mapAndPaddingSize)
            && StartsAt(p, 0, MapText(l.extents, l.mapAndPaddingSize))
  {
    hide ParseRest, ParseU64, Print, Lines, RoundUp512, Value, Whole;
    var l := Parse(p, logicalSize).value;
    var e := Find(p, 0, NEWLINE).value;
    var count := ParseU64(p[..e], "sparse extent count").value;
    CountLine(p, e);
    RestIsText(p, e + 1, count, 0, 0, [], logicalSize);
    assert l.extents[0..] == l.extents;
    StartsJoin(p, 0, Line(count), Lines(l.extents));
    RoundsUp(|Lead(l.extents)|);
    PaddingIs(p, |Lead(l.extents)|, l.mapAndPaddingSize);
    StartsJoin(p, 0, Lead(l.extents), Zeros(l.mapAndPaddingSize - |Lead(l.extents)|));
  }

  lemma CountLine(p: Text, e: nat)
    requires Find(p, 0, NEWLINE) == Some(e) && ParseU64(p[..e], "sparse extent count").Ok?
    ensures var count := ParseU64(p[..e], "sparse extent count").value;
            StartsAt(p, 0, Line(count)) && |Line(count)| == e + 1
  {
    hide Value, Print;
    PrintValue(p[..e]);
    assert p[..e + 1] == p[..e] + [p[e]];
  }

  lemma PaddingIs(p: Text, c: nat, end: nat)
    requires c <= end <= |p| && ZeroFilled(p, c, end)
    ensures StartsAt(p, c, Zeros(end - c))
  {
  }

  lemma RoundsUp(n: nat)
    ensures n <= RoundUp512(n) && Whole(n, RoundUp512(n))
  {
  }

  lemma OneWhole(n: nat, a: nat, b: nat)
    requires Whole(n, a) && Whole(n, b)
    ensures a == b
  {
  }

  // ---------- and every such text parses ----------

  lemma NextChecks(extents: seq<Extent>, e: Extent, tail: seq<Extent>, logicalSize: nat)
    requires Separated(extents + [e] + tail, logicalSize) && logicalSize <= U64_MAX
    requires TotalLength(extents) + e.length <= U64_MAX
    ensures CheckExtent(e.offset, e.length, EndOf(extents), TotalLength(extents), extents == [], logicalSize)
         == Ok(e.offset + e.length)
  {
    hide TotalLength;
    var (all, n) := (extents + [e] + tail, |extents|);
    assert all[n] == e;
    if n > 0 {
      assert all[n - 1] == extents[n - 1] && all[n - 1 + 1] == e;
    }
  }

  lemma Append(extents: seq<Extent>, e: Extent)
    ensures TotalLength(extents + [e]) == TotalLength(extents) + e.length && EndOf(extents + [e]) == e.offset + e.length
  {
    var all := extents + [e];
    assert all[..|all| - 1] == extents;
  }

  lemma {:induction false} TotalSplit(a: seq<Extent>, b: seq<Extent>)
    ensures TotalLength(a + b) == TotalLength(a) + TotalLength(b)
  {
    if b == [] {
      assert a + b == a;
    } else {
      TotalSplit(a, b[..|b| - 1]);
      assert (a + b)[..|a + b| - 1] == a + b[..|b| - 1];
    }
  }

  lemma {:induction false} RestParses(p: Text, c: nat, extents: seq<Extent>, tail: seq<Extent>, logicalSize: nat)
    requires Separated(extents + tail, logicalSize) && logicalSize <= U64_MAX && TotalLength(extents + tail) <= U64_MAX
    requires StartsAt(p, c, Lines(tail))
    ensures ParseRest(p, c, |tail|, EndOf(extents), TotalLength(extents), extents, logicalSize)
         == ParseTail(p, c + |Lines(tail)|, TotalLength(extents + tail), extents + tail, logicalSize)
    decreases |tail|
  {
    hide ParseTail, ParseLine, CheckExtent, Line, Separated, TotalLength, EndOf, StartsAt;
    if tail == [] {
      assert extents + tail == extents;
    } else {
      var (e, rest) := (tail[0], tail[1..]);
      var next := extents + [e];
      assert extents + tail == extents + [e] + rest;
      TotalSplit(next, rest);
      Append(extents, e);
      NextChecks(extents, e, rest, logicalSize);
      BothLines(p, c, extents + [e] + rest, |extents|, e, Lines(rest), logicalSize);
      RestParses(p, c + |Line(e.offset)| + |Line(e.length)|, next, rest, logicalSize);
    }
  }

  lemma BothLines(p: Text, c: nat, all: seq<Extent>, i: nat, e: Extent, rest: Text, logicalSize: nat)
    requires Separated(all, logicalSize) && logicalSize <= U64_MAX && i < |all| && all[i] == e
    requires StartsAt(p, c, Line(e.offset) + Line(e.length) + rest)
    ensures c + |Line(e.offset)| + |Line(e.length)| <= |p| && StartsAt(p, c + |Line(e.offset)| + |Line(e.length)|, rest)
    ensures ParseLine(p, c) == Ok((e.offset, c + |Line(e.offset)|))
    ensures ParseLine(p, c + |Line(e.offset)|) == Ok((e.length, c + |Line(e.offset)| + |Line(e.length)|))
  {
    hide ParseLine, Line;
    StartsJoin(p, c, Line(e.offset) + Line(e.length), rest);
    StartsJoin(p, c, Line(e.offset), Line(e.length));
    LineParses(p, c, e.offset);
    LineParses(p, c + |Line(e.offset)|, e.length);
  }

  // The text of a well-formed layout followed by that many bytes is accepted with that layout.
  lemma MapParses(p: Text, extents: seq<Extent>, m: nat, logicalSize: nat)
    requires Separated(extents, logicalSize) && logicalSize <= U64_MAX && |extents| <= 1048576
    requires Whole(|Lead(extents)|, m) && StartsAt(p, 0, MapText(extents, m)) && |p| == m + TotalLength(extents)
    requires |p| + 511 <= USIZE_MAX
    ensures Parse(p, logicalSize) == Ok(Layout(logicalSize, m, extents))
  {
    hide ParseRest, ParseLine, Print, Lines, RoundUp512, Value, Separated, TotalLength, ParseU64, Whole;
    var (lead, n) := (Lead(extents), |Lead(extents)|);
    RoundsUp(n);
    OneWhole(n, m, RoundUp512(n));
    StartsJoin(p, 0, lead, Zeros(m - n));
    StartsJoin(p, 0, Line(|extents|), Lines(extents));
    CountParses(p, |extents|);
    assert [] + extents == extents;
    NoExtents();
    RestParses(p, |Line(|extents|)|, [], extents, logicalSize);
    ZeroTail(p, n, m);
  }

  lemma CountParses(p: Text, count: nat)
    requires StartsAt(p, 0, Line(count)) && count <= U64_MAX
    ensures Find(p, 0, NEWLINE) == Some(|Print(count)|)
    ensures ParseU64(p[..|Print(count)|], "sparse extent count") == Ok(count)
  {
    hide Value, Print;
    var n := |Print(count)|;
    LineParses(p, 0, count);
    var e := Find(p, 0, NEWLINE).value;
    assert p[..n] == p[..n + 1][..n] == Print(count);
    ValuePrint(count);
  }

  lemma NoExtents()
    ensures EndOf([]) == 0 && TotalLength([]) == 0
  {
  }

  lemma ZeroTail(p: Text, c: nat, end: nat)
    requires c <= end && StartsAt(p, c, Zeros(end - c))
    ensures ZeroFilled(p, c, end)
  {
    forall i | c <= i < end ensures p[i] == 0 {
      assert p[c..end][i - c] == p[i];
    }
  }

  // So each layout has one accepted map.
  lemma OneMap(p: Text, q: Text, logicalSize: nat)
    requires Parse(p, logicalSize).Ok? && Parse(q, logicalSize) == Parse(p, logicalSize)
    ensures var n := Parse(p, logicalSize).value.mapAndPaddingSize;
            n <= |p| == |q| && p[..n] == q[..n]
  {
    hide MapText, Parse;
    ParsedMap(p, logicalSize);
    ParsedMap(q, logicalSize);
    ParsedLayout(p, logicalSize);
    ParsedLayout(q, logicalSize);
  }

  // "1\n0\n4\n", 506 zeros and four bytes: one extent of four bytes behind a map of 512.
  lemma SmallestMap(data: Text)
    requires |data| == 4
    ensures Parse([49, 10, 48, 10, 52, 10] + Zeros(506) + data, 4) == Ok(Layout(4, 512, [Extent(0, 4)]))
  {
    hide Parse, Lead;
    var p := [49, 10, 48, 10, 52, 10] + Zeros(506) + data;
    SmallestLead();
    assert p[0..512] == MapText([Extent(0, 4)], 512);
    MapParses(p, [Extent(0, 4)], 512, 4);
  }

  lemma SmallestLead()
    ensures Lead([Extent(0, 4)]) == [49, 10, 48, 10, 52, 10] && TotalLength([Extent(0, 4)]) == 4
  {
    assert [Extent(0, 4)][1..] == [] && [Extent(0, 4)][..0] == [];
    assert Print(1) == [49] && Print(0) == [48] && Print(4) == [52];
  }
}
