/** Sparse payloads: the one-shot parser and the byte-at-a-time validator. */
module Sparse {
  import opened Format
  import opened Decimal

  const MAX_SPARSE_EXTENTS := 1048576
  const NEWLINE: byte := 10

  datatype Extent = Extent(offset: nat, length: nat)

  datatype Layout = Layout(logicalSize: nat, mapAndPaddingSize: nat, extents: seq<Extent>)

  // ---------- the one-shot parser ----------

  // The value of the line at `c` and the position after its newline.
  function ParseLine(p: Text, c: nat): (r: Result<(nat, nat)>)
    requires c <= |p|
    ensures r.Ok? ==> c < r.value.1 <= |p|
  {
    match Find(p, c, NEWLINE)
    case None => Err(InvalidArchive("sparse map line is truncated"))
    case Some(e) =>
      match ParseU64(p[c..e], "sparse map value")
      case Err(error) => Err(error)
      case Ok(v) => Ok((v, e + 1))
  }

  function RoundUp512(n: nat): nat {
    (n + 511) / 512 * 512
  }

  // Why an extent is refused, or its end.
  function CheckExtent(offset: nat, length: nat, previousEnd: nat, stored: nat, first: bool, logicalSize: nat)
    : (r: Result<nat>)
    ensures r.Ok? <==> && length != 0 && offset >= previousEnd && (first || offset > previousEnd)
                       && offset + length <= U64_MAX && offset + length <= logicalSize && stored + length <= U64_MAX
    ensures r.Ok? ==> r.value == offset + length
  {
    if length == 0 || offset < previousEnd then Invalid("SparsePayload", "extents overlap or have zero length")
    else if !first && offset == previousEnd then Invalid("SparsePayload", "adjacent extents are not merged")
    else if offset + length > U64_MAX then Err(InvalidArchive("sparse extent overflow"))
    else if offset + length > logicalSize then Invalid("SparsePayload", "extent exceeds logical size")
    else if stored + length > U64_MAX then Err(InvalidArchive("sparse stored size overflow"))
    else Ok(offset + length)
  }

  predicate ZeroFilled(p: Text, from: nat, to: nat) {
    forall i :: from <= i < to && i < |p| ==> p[i] == 0
  }

  // After the last line: zero padding to a 512-byte boundary, then the stored bytes.
  function ParseTail(p: Text, c: nat, stored: nat, extents: seq<Extent>, logicalSize: nat): Result<Layout> {
    if c + 511 > USIZE_MAX then Err(InvalidArchive("sparse map padding overflow"))
    else if RoundUp512(c) > |p| || !ZeroFilled(p, c, RoundUp512(c)) then
      Invalid("SparsePayload", "sparse map padding is invalid")
    else if |p| - RoundUp512(c) != stored then Invalid("SparsePayload", "sparse extent bytes do not match map")
    else Ok(Layout(logicalSize, RoundUp512(c), extents))
  }

  // `k` extents, then the tail.
  function ParseRest(p: Text, c: nat, k: nat, previousEnd: nat, stored: nat, extents: seq<Extent>, logicalSize: nat)
    : Result<Layout>
    requires c <= |p|
    decreases k
  {
    if k == 0 then ParseTail(p, c, stored, extents, logicalSize)
    else
      match ParseLine(p, c)
      case Err(error) => Err(error)
      case Ok((offset, c1)) =>
        match ParseLine(p, c1)
        case Err(error) => Err(error)
        case Ok((length, c2)) =>
          match CheckExtent(offset, length, previousEnd, stored, extents == [], logicalSize)
          case Err(error) => Err(error)
          case Ok(end) =>
            ParseRest(p, c2, k - 1, end, stored + length, extents + [Extent(offset, length)], logicalSize)
  }

  function Parse(p: Text, logicalSize: nat): Result<Layout> {
    match Find(p, 0, NEWLINE)
    case None => Err(InvalidArchive("sparse extent count is missing"))
    case Some(e) =>
      match ParseU64(p[..e], "sparse extent count")
      case Err(error) => Err(error)
      case Ok(count) =>
        if count > MAX_SPARSE_EXTENTS then
          Err(ReaderResourceLimitExceeded("sparse extent count", MAX_SPARSE_EXTENTS, count))
        else ParseRest(p, e + 1, count, 0, 0, [], logicalSize)
  }

  method ParseSparsePayload(p: Text, logicalSize: nat) returns (r: Result<Layout>)
    ensures r == Parse(p, logicalSize)
  {
    hide ParseLine, ParseTail, ParseU64;
    var newline := Find(p, 0, NEWLINE);
    if newline.None? {
      return Err(InvalidArchive("sparse extent count is missing"));
    }
    var parsed := ParseU64(p[..newline.value], "sparse extent count");
    if parsed.Err? {
      return Err(parsed.error);
    }
    var count := parsed.value;
    if count > MAX_SPARSE_EXTENTS {
      return Err(ReaderResourceLimitExceeded("sparse extent count", MAX_SPARSE_EXTENTS, count));
    }
    var cursor: nat := newline.value + 1;
    var extents: seq<Extent> := [];
    var previousEnd: nat, stored: nat := 0, 0;
    for i := 0 to count
      invariant cursor <= |p|
      invariant Parse(p, logicalSize) == ParseRest(p, cursor, count - i, previousEnd, stored, extents, logicalSize)
    {
      var offset := ParseLine(p, cursor);
      if offset.Err? {
        return Err(offset.error);
      }
      var length := ParseLine(p, offset.value.1);
      if length.Err? {
        return Err(length.error);
      }
      var end := CheckExtent(offset.value.0, length.value.0, previousEnd, stored, extents == [], logicalSize);
      if end.Err? {
        return Err(end.error);
      }
      cursor := length.value.1;
      stored := stored + length.value.0;
      extents := extents + [Extent(offset.value.0, length.value.0)];
      previousEnd := end.value;
    }
    return ParseTail(p, cursor, stored, extents, logicalSize);
  }

  // ---------- what a layout that parses looks like ----------

  ghost predicate Separated(extents: seq<Extent>, logicalSize: nat) {
    && (forall i :: 0 <= i < |extents| ==>
          0 < extents[i].length && extents[i].offset + extents[i].length <= logicalSize)
    && (forall i :: 0 <= i < |extents| - 1 ==> extents[i].offset + extents[i].length < extents[i + 1].offset)
  }

  function TotalLength(extents: seq<Extent>): nat {
    if |extents| == 0 then 0 else extents[|extents| - 1].length + TotalLength(extents[..|extents| - 1])
  }

  function EndOf(extents: seq<Extent>): nat {
    if |extents| == 0 then 0 else extents[|extents| - 1].offset + extents[|extents| - 1].length
  }

  // An extent that passes the checks extends a well-formed list.
  lemma Appended(extents: seq<Extent>, offset: nat, length: nat, stored: nat, logicalSize: nat)
    requires Separated(extents, logicalSize) && stored == TotalLength(extents)
    requires CheckExtent(offset, length, EndOf(extents), stored, extents == [], logicalSize).Ok?
    ensures var next := extents + [Extent(offset, length)];
            && Separated(next, logicalSize) && TotalLength(next) == stored + length
            && EndOf(next) == CheckExtent(offset, length, EndOf(extents), stored, extents == [], logicalSize).value
  {
    var next := extents + [Extent(offset, length)];
    assert next[..|next| - 1] == extents;
  }

  lemma {:induction false} ParseRestLayout(p: Text, c: nat, k: nat, stored: nat, extents: seq<Extent>, logicalSize: nat)
    requires c <= |p| && Separated(extents, logicalSize) && stored == TotalLength(extents)
    ensures var r := ParseRest(p, c, k, EndOf(extents), stored, extents, logicalSize);
            r.Ok? ==> && r.value.logicalSize == logicalSize && Separated(r.value.extents, logicalSize)
                      && |r.value.extents| == |extents| + k
                      && |p| == r.value.mapAndPaddingSize + TotalLength(r.value.extents)
                      && r.value.mapAndPaddingSize % 512 == 0
    decreases k
  {
    hide ParseLine, CheckExtent, Separated, TotalLength, EndOf;
    if k != 0 {
      var offset := ParseLine(p, c);
      if offset.Ok? {
        var length := ParseLine(p, offset.value.1);
        if length.Ok? {
          var end := CheckExtent(offset.value.0, length.value.0, EndOf(extents), stored, extents == [], logicalSize);
          if end.Ok? {
            var next := extents + [Extent(offset.value.0, length.value.0)];
            Appended(extents, offset.value.0, length.value.0, stored, logicalSize);
            ParseRestLayout(p, length.value.1, k - 1, stored + length.value.0, next, logicalSize);
          }
        }
      }
    }
  }

  // Sorted, non-empty, non-adjacent extents inside the logical size, and a payload of exactly map plus stored bytes.
  lemma ParsedLayout(p: Text, logicalSize: nat)
    requires Parse(p, logicalSize).Ok?
    ensures var l := Parse(p, logicalSize).value;
            && l.logicalSize == logicalSize && Separated(l.extents, logicalSize) && |l.extents| <= 1048576
            && |p| == l.mapAndPaddingSize + TotalLength(l.extents) && l.mapAndPaddingSize % 512 == 0
  {
    hide ParseU64;
    var e := Find(p, 0, NEWLINE).value;
    ParseRestLayout(p, e + 1, ParseU64(p[..e], "sparse extent count").value, 0, [], logicalSize);
  }

  // ---------- the validator, one byte at a time ----------

  datatype State = State(
    position: nat, line: Text, count: Option<nat>, remaining: nat, pending: Option<nat>,
    previousEnd: nat, stored: nat, extents: seq<Extent>, padded: Option<nat>)

  const START := State(0, [], None, 0, None, 0, 0, [], None)

  // The effect of the value on a complete line.
  function AcceptValue(logicalSize: nat, st: State, value: nat): Result<State> {
    if st.count.None? then
      if value > MAX_SPARSE_EXTENTS then
        Err(ReaderResourceLimitExceeded("sparse extent count", MAX_SPARSE_EXTENTS, value))
      else Ok(st.(count := Some(value), remaining := 2 * value))
    else if st.remaining != 0 then
      if st.pending.None? then Ok(st.(pending := Some(value), remaining := st.remaining - 1))
      else
        match CheckExtent(st.pending.value, value, st.previousEnd, st.stored, st.extents == [], logicalSize)
        case Err(error) => Err(error)
        case Ok(end) =>
          Ok(st.(pending := None, stored := st.stored + value, previousEnd := end,
                 extents := st.extents + [Extent(st.pending.value, value)], remaining := st.remaining - 1))
    else TRAILING_LINES
  }

  const TRAILING_LINES: Result<State> := Invalid("SparsePayload", "sparse map has trailing lines")

  // The map is complete once its last value has been read.
  function CloseMap(st: State): Result<State> {
    if st.count.Some? && st.remaining == 0 then
      if st.position + 511 > U64_MAX then Err(InvalidArchive("sparse map padding overflow"))
      else Ok(st.(padded := Some(RoundUp512(st.position))))
    else Ok(st)
  }

  function AcceptLine(logicalSize: nat, st: State, value: nat): Result<State> {
    match AcceptValue(logicalSize, st, value)
    case Err(error) => Err(error)
    case Ok(next) => CloseMap(next)
  }

  function Step(logicalSize: nat, st: State, b: byte): Result<State> {
    if st.padded.Some? && st.position < st.padded.value && b != 0 then
      Invalid("SparsePayload", "sparse map padding is invalid")
    else if st.position + 1 > U64_MAX then Err(InvalidArchive("sparse payload size overflow"))
    else
      var next := st.(position := st.position + 1);
      if st.padded.Some? then Ok(next)
      else if b != NEWLINE then
        if |st.line| == 20 || !IsDigit(b) then Invalid("SparsePayload", "sparse map value is not canonical decimal")
        else Ok(next.(line := st.line + [b]))
      else
        match ParseU64(st.line, "sparse map value")
        case Err(error) => Err(error)
        case Ok(value) => AcceptLine(logicalSize, next.(line := []), value)
  }

  function Run(logicalSize: nat, st: State, bytes: Text): Result<State>
    decreases |bytes|
  {
    if |bytes| == 0 then Ok(st)
    else
      match Step(logicalSize, st, bytes[0])
      case Err(error) => Err(error)
      case Ok(next) => Run(logicalSize, next, bytes[1..])
  }

  function Finish(logicalSize: nat, st: State): Result<Layout> {
    if st.line != [] || st.count.None? || st.remaining != 0 then Invalid("SparsePayload", "sparse map is truncated")
    else if st.padded.None? then Err(InvalidArchive("sparse map is missing"))
    else if st.position < st.padded.value || st.position - st.padded.value != st.stored then
      Invalid("SparsePayload", "sparse extent bytes do not match map")
    else Ok(Layout(logicalSize, st.padded.value, st.extents))
  }

  // Feeding all of `p` from `st` and finishing.
  function Validate(logicalSize: nat, st: State, p: Text): Result<Layout> {
    match Run(logicalSize, st, p)
    case Err(error) => Err(error)
    case Ok(end) => Finish(logicalSize, end)
  }

  // How the bytes are cut into chunks does not matter.
  lemma {:induction false} RunConcat(logicalSize: nat, st: State, a: Text, b: Text)
    ensures Run(logicalSize, st, a + b)
         == match Run(logicalSize, st, a)
            case Err(error) => Err(error)
            case Ok(mid) => Run(logicalSize, mid, b)
    decreases |a|
  {
    hide Step;
    if |a| == 0 {
      assert a + b == b;
    } else {
      assert (a + b)[1..] == a[1..] + b;
      match Step(logicalSize, st, a[0])
      case Err(_) =>
      case Ok(next) => RunConcat(logicalSize, next, a[1..], b);
    }
  }

  class SparseStreamValidator {
    const logicalSize: nat
    var position: nat
    var line: Text
    var extentCount: Option<nat>
    var valuesRemaining: nat
    var pendingOffset: Option<nat>
    var previousEnd: nat
    var storedExtentBytes: nat
    var extents: seq<Extent>
    var mapAndPaddingSize: Option<nat>

    ghost function View(): State
      reads this
    {
      State(position, line, extentCount, valuesRemaining, pendingOffset, previousEnd, storedExtentBytes, extents,
            mapAndPaddingSize)
    }

    constructor (logicalSize: nat)
      ensures this.logicalSize == logicalSize && View() == START
    {
      this.logicalSize := logicalSize;
      position, line, extentCount, valuesRemaining := 0, [], None, 0;
      pendingOffset, previousEnd, storedExtentBytes, extents := None, 0, 0, [];
      mapAndPaddingSize := None;
    }

    method ObserveByte(b: byte) returns (r: Result<()>)
      requires Consistent(View())
      modifies this
      ensures match Step(logicalSize, old(View()), b)
              case Err(error) => r == Err(error)
              case Ok(next) => r == Ok(()) && View() == next
    {
      hide AcceptLine, ParseU64;
      if mapAndPaddingSize.Some? {
        if position < mapAndPaddingSize.value && b != 0 {
          return Invalid("SparsePayload", "sparse map padding is invalid");
        }
        if position + 1 > U64_MAX {
          return Err(InvalidArchive("sparse payload size overflow"));
        }
        position := position + 1;
        return Ok(());
      }
      if position + 1 > U64_MAX {
        return Err(InvalidArchive("sparse payload size overflow"));
      }
      position := position + 1;
      if b != NEWLINE {
        if |line| == 20 || !IsDigit(b) {
          return Invalid("SparsePayload", "sparse map value is not canonical decimal");
        }
        line := line + [b];
        return Ok(());
      }
      var value := ParseU64(line, "sparse map value");
      if value.Err? {
        return Err(value.error);
      }
      line := [];
      r := ObserveValue(value.value);
    }

    method ObserveExtent(offset: nat, length: nat) returns (r: Result<()>)
      modifies this`storedExtentBytes, this`previousEnd, this`extents
      ensures match CheckExtent(offset, length, old(previousEnd), old(storedExtentBytes), old(extents) == [],
                                logicalSize)
              case Err(error) => r == Err(error)
              case Ok(end) =>
                && r == Ok(()) && previousEnd == end && storedExtentBytes == old(storedExtentBytes) + length
                && extents == old(extents) + [Extent(offset, length)]
    {
      if length == 0 || offset < previousEnd {
        return Invalid("SparsePayload", "extents overlap or have zero length");
      }
      if extents != [] && offset == previousEnd {
        return Invalid("SparsePayload", "adjacent extents are not merged");
      }
      var end := offset + length;
      if end > U64_MAX {
        return Err(InvalidArchive("sparse extent overflow"));
      }
      if end > logicalSize {
        return Invalid("SparsePayload", "extent exceeds logical size");
      }
      if storedExtentBytes + length > U64_MAX {
        return Err(InvalidArchive("sparse stored size overflow"));
      }
      storedExtentBytes := storedExtentBytes + length;
      previousEnd := end;
      extents := extents + [Extent(offset, length)];
      return Ok(());
    }

    method ObserveValue(value: nat) returns (r: Result<()>)
      requires extentCount.Some? ==> valuesRemaining != 0
      modifies this
      ensures match AcceptLine(logicalSize, old(View()), value)
              case Err(error) => r == Err(error)
              case Ok(next) => r == Ok(()) && View() == next
    {
      hide CheckExtent;
      if extentCount.None? {
        if value > MAX_SPARSE_EXTENTS {
          return Err(ReaderResourceLimitExceeded("sparse extent count", MAX_SPARSE_EXTENTS, value));
        }
        extentCount := Some(value);
        valuesRemaining := value * 2;
      } else if valuesRemaining != 0 {
        if pendingOffset.None? {
          pendingOffset := Some(value);
        } else {
          var offset := pendingOffset.value;
          pendingOffset := None;
          r := ObserveExtent(offset, value);
          if r.Err? {
            return;
          }
        }
        valuesRemaining := valuesRemaining - 1;
      } else {
        assert false;
      }
      if extentCount.Some? && valuesRemaining == 0 {
        if position + 511 > U64_MAX {
          return Err(InvalidArchive("sparse map padding overflow"));
        }
        mapAndPaddingSize := Some(RoundUp512(position));
      }
      return Ok(());
    }

    // Every chunking of the same bytes reaches the same state.
    method Observe(bytes: Text) returns (r: Result<()>)
      requires Consistent(View())
      modifies this
      ensures match Run(logicalSize, old(View()), bytes)
              case Err(error) => r == Err(error)
              case Ok(next) => r == Ok(()) && View() == next && Consistent(View())
    {
      hide Step;
      for i := 0 to |bytes|
        invariant Consistent(View())
        invariant Run(logicalSize, old(View()), bytes) == Run(logicalSize, View(), bytes[i..])
      {
        ghost var before := View();
        assert bytes[i..][1..] == bytes[i + 1..];
        r := ObserveByte(bytes[i]);
        if r.Err? {
          return;
        }
        StepConsistent(logicalSize, before, bytes[i]);
      }
      return Ok(());
    }

    method Finalize() returns (r: Result<Layout>)
      ensures r == Finish(logicalSize, View())
    {
      if line != [] || extentCount.None? || valuesRemaining != 0 {
        return Invalid("SparsePayload", "sparse map is truncated");
      }
      if mapAndPaddingSize.None? {
        return Err(InvalidArchive("sparse map is missing"));
      }
      var padded := mapAndPaddingSize.value;
      if position < padded || position - padded != storedExtentBytes {
        return Invalid("SparsePayload", "sparse extent bytes do not match map");
      }
      return Ok(Layout(logicalSize, padded, extents));
    }
  }

  // The map is complete exactly when its values have run out; offsets and lengths alternate.
  ghost predicate Consistent(st: State) {
    && (st.padded.Some? <==> st.count.Some? && st.remaining == 0)
    && (st.pending.Some? <==> st.remaining % 2 == 1)
    && (st.count.None? ==> st.remaining == 0)
  }

  lemma StepConsistent(logicalSize: nat, st: State, b: byte)
    requires Consistent(st)
    ensures Step(logicalSize, st, b).Ok? ==> Consistent(Step(logicalSize, st, b).value)
  {
    hide ParseU64, CheckExtent;
  }

  // A line can only arrive while values are still expected.
  lemma {:induction false} NoTrailingLines(logicalSize: nat, st: State, p: Text)
    requires Consistent(st)
    ensures Run(logicalSize, st, p).Ok? ==>
              var end := Run(logicalSize, st, p).value;
              Consistent(end) && !(end.padded.None? && end.count.Some? && end.remaining == 0)
    decreases |p|
  {
    hide Step;
    if |p| != 0 {
      StepConsistent(logicalSize, st, p[0]);
      match Step(logicalSize, st, p[0])
      case Err(_) =>
      case Ok(next) => NoTrailingLines(logicalSize, next, p[1..]);
    }
  }

  // ---------- parser and validator agree ----------

  ghost predicate Agree<T>(a: Result<T>, b: Result<T>) {
    (a.Ok? <==> b.Ok?) && (a.Ok? ==> a.value == b.value)
  }

  // One line, read byte by byte, has the effect of its value.
  lemma {:induction false} RunLine(logicalSize: nat, st: State, p: Text, c0: nat, c: nat, e: nat)
    requires |p| <= U64_MAX && c0 <= c <= e && Find(p, c0, NEWLINE) == Some(e)
    requires st.padded.None? && st.position == c && st.line == p[c0..c]
    ensures Agree(Validate(logicalSize, st, p[c..]),
                  match ParseU64(p[c0..e], "sparse map value")
                  case Err(error) => Err(error)
                  case Ok(value) =>
                    match AcceptLine(logicalSize, st.(position := e + 1, line := []), value)
                    case Err(error) => Err(error)
                    case Ok(next) => Validate(logicalSize, next, p[e + 1..]))
    decreases e - c
  {
    hide AcceptLine, Validate, ParseU64, Step;
    ValidateStep(logicalSize, st, p, c);
    if c == e {
      NewlineStep(logicalSize, st);
    } else {
      DigitStep(logicalSize, st, p[c]);
      if |st.line| == 20 || !IsDigit(p[c]) {
        LongLine(p, c0, c, e);
      } else {
        var next := st.(position := c + 1, line := st.line + [p[c]]);
        assert next.line == p[c0..c + 1];
        RunLine(logicalSize, next, p, c0, c + 1, e);
        assert next.(position := e + 1, line := []) == st.(position := e + 1, line := []);
      }
    }
  }

  lemma ValidateStep(logicalSize: nat, st: State, p: Text, c: nat)
    requires c < |p|
    ensures var step := Step(logicalSize, st, p[c]);
            if step.Err? then Validate(logicalSize, st, p[c..]) == Err(step.error)
            else Validate(logicalSize, st, p[c..]) == Validate(logicalSize, step.value, p[c + 1..])
  {
    hide Step, Finish;
    assert p[c..][0] == p[c] && p[c..][1..] == p[c + 1..];
  }

  lemma NewlineStep(logicalSize: nat, st: State)
    requires st.padded.None? && st.position < U64_MAX
    ensures var v := ParseU64(st.line, "sparse map value");
            var step := Step(logicalSize, st, NEWLINE);
            if v.Err? then step == Err(v.error)
            else step == AcceptLine(logicalSize, st.(position := st.position + 1, line := []), v.value)
  {
    hide AcceptLine, ParseU64;
  }

  lemma DigitStep(logicalSize: nat, st: State, b: byte)
    requires st.padded.None? && st.position < U64_MAX && b != NEWLINE
    ensures if |st.line| == 20 || !IsDigit(b) then Step(logicalSize, st, b).Err?
            else Step(logicalSize, st, b) == Ok(st.(position := st.position + 1, line := st.line + [b]))
  {
    hide AcceptLine, ParseU64;
  }

  // A line with a twenty-first byte, or a byte that is no digit, has no value.
  lemma LongLine(p: Text, c0: nat, c: nat, e: nat)
    requires c0 <= c < e < |p| && (c - c0 == 20 || !IsDigit(p[c]))
    ensures ParseU64(p[c0..e], "sparse map value").Err?
  {
    var s := p[c0..e];
    if Minimal(s) {
      assert s[c - c0] == p[c];
      LongIsLarge(s);
    }
  }

  // Without a newline the map stays incomplete.
  lemma {:induction false} RunNoNewline(logicalSize: nat, st: State, p: Text, c: nat)
    requires c <= |p| && Find(p, c, NEWLINE) == None && st.padded.None?
    ensures Validate(logicalSize, st, p[c..]).Err?
    decreases |p| - c
  {
    hide ParseU64, AcceptLine;
    if c < |p| {
      assert p[c..][0] == p[c] && p[c..][1..] == p[c + 1..];
      match Step(logicalSize, st, p[c])
      case Err(_) =>
      case Ok(next) => RunNoNewline(logicalSize, next, p, c + 1);
    }
  }

  // After the map only the padding is inspected.
  lemma {:induction false} RunTail(logicalSize: nat, st: State, p: Text, c: nat)
    requires c <= |p| <= U64_MAX && st.padded.Some? && st.position == c
    ensures Run(logicalSize, st, p[c..]).Ok? <==> ZeroFilled(p, c, st.padded.value)
    ensures Run(logicalSize, st, p[c..]).Ok? ==> Run(logicalSize, st, p[c..]).value == st.(position := |p|)
    decreases |p| - c
  {
    hide ParseU64, AcceptLine;
    if c < |p| {
      assert p[c..][0] == p[c] && p[c..][1..] == p[c + 1..];
      if Step(logicalSize, st, p[c]).Ok? {
        RunTail(logicalSize, st.(position := c + 1), p, c + 1);
      }
    }
  }

  // The validator between two lines of the map, with `k` extents to come.
  ghost predicate BetweenExtents(st: State, c: nat, k: nat) {
    && st.position == c && st.line == [] && st.padded.None? && st.pending.None? && st.count.Some?
    && st.remaining == 2 * k
  }

  lemma AgreeTail(logicalSize: nat, st: State, p: Text, c: nat)
    requires c <= |p| <= U64_MAX && BetweenExtents(st, c, 0)
    ensures Agree(match CloseMap(st) case Err(error) => Err(error) case Ok(next) => Validate(logicalSize, next, p[c..]),
                  ParseTail(p, c, st.stored, st.extents, logicalSize))
  {
    hide Run;
    if c + 511 <= U64_MAX {
      RunTail(logicalSize, CloseMap(st).value, p, c);
    }
  }

  // The parser after the offset of an extent.
  ghost function ParseLength(p: Text, c: nat, offset: nat, k: nat, st: State, logicalSize: nat): Result<Layout>
    requires c <= |p| && 0 < k
  {
    match ParseLine(p, c)
    case Err(error) => Err(error)
    case Ok((length, c2)) =>
      match CheckExtent(offset, length, st.previousEnd, st.stored, st.extents == [], logicalSize)
      case Err(error) => Err(error)
      case Ok(end) =>
        ParseRest(p, c2, k - 1, end, st.stored + length, st.extents + [Extent(offset, length)], logicalSize)
  }

  lemma ParseRestOpens(p: Text, c: nat, k: nat, st: State, logicalSize: nat)
    requires c <= |p| && 0 < k
    ensures var line := ParseLine(p, c);
            var rest := ParseRest(p, c, k, st.previousEnd, st.stored, st.extents, logicalSize);
            if line.Err? then rest == Err(line.error)
            else rest == ParseLength(p, line.value.1, line.value.0, k, st, logicalSize)
  {
    hide ParseLine, CheckExtent, ParseTail;
  }

  lemma OffsetAccepted(logicalSize: nat, st: State, e: nat, k: nat, value: nat)
    requires BetweenExtents(st, st.position, k) && 0 < k
    ensures CloseMap(st) == Ok(st)
    ensures AcceptLine(logicalSize, st.(position := e + 1, line := []), value)
         == Ok(st.(position := e + 1, pending := Some(value), remaining := st.remaining - 1))
  {
  }

  lemma {:induction false} AgreeRest(logicalSize: nat, st: State, p: Text, c: nat, k: nat)
    requires c <= |p| <= U64_MAX && BetweenExtents(st, c, k)
    ensures Agree(match CloseMap(st) case Err(error) => Err(error) case Ok(next) => Validate(logicalSize, next, p[c..]),
                  ParseRest(p, c, k, st.previousEnd, st.stored, st.extents, logicalSize))
    decreases k
  {
    hide ParseU64, Validate, ParseRest, ParseTail, ParseLength, CloseMap, AcceptLine;
    if k == 0 {
      AgreeTail(logicalSize, st, p, c);
      ParseRestEnds(p, c, st, logicalSize);
    } else {
      ParseRestOpens(p, c, k, st, logicalSize);
      OffsetAccepted(logicalSize, st, c, k, 0);
      match Find(p, c, NEWLINE) {
        case None => RunNoNewline(logicalSize, st, p, c);
        case Some(e) =>
          RunLine(logicalSize, st, p, c, c, e);
          var offset := ParseU64(p[c..e], "sparse map value");
          if offset.Ok? {
            OffsetAccepted(logicalSize, st, e, k, offset.value);
            var st1 := st.(position := e + 1, pending := Some(offset.value), remaining := st.remaining - 1);
            AgreeLength(logicalSize, st, st1, p, e + 1, k);
          }
      }
    }
  }

  lemma ParseRestEnds(p: Text, c: nat, st: State, logicalSize: nat)
    requires c <= |p|
    ensures ParseRest(p, c, 0, st.previousEnd, st.stored, st.extents, logicalSize)
         == ParseTail(p, c, st.stored, st.extents, logicalSize)
  {
    hide ParseTail;
  }

  lemma {:induction false} AgreeLength(logicalSize: nat, st: State, st1: State, p: Text, c: nat, k: nat)
    requires c <= |p| <= U64_MAX && 0 < k && st1.pending.Some?
    requires BetweenExtents(st, st.position, k)
    requires st1 == st.(position := c, pending := st1.pending, remaining := 2 * k - 1)
    ensures Agree(Validate(logicalSize, st1, p[c..]), ParseLength(p, c, st1.pending.value, k, st, logicalSize))
    decreases k, 0
  {
    hide ParseU64, Validate, CheckExtent, ParseRest;
    match Find(p, c, NEWLINE) {
      case None => RunNoNewline(logicalSize, st1, p, c);
      case Some(e) =>
        RunLine(logicalSize, st1, p, c, c, e);
        var length := ParseU64(p[c..e], "sparse map value");
        if length.Ok? {
          var end := CheckExtent(st1.pending.value, length.value, st.previousEnd, st.stored, st.extents == [],
                                 logicalSize);
          if end.Ok? {
            var st2 := st1.(position := e + 1, line := [], pending := None, stored := st.stored + length.value,
                            previousEnd := end.value, remaining := 2 * (k - 1),
                            extents := st.extents + [Extent(st1.pending.value, length.value)]);
            AgreeRest(logicalSize, st2, p, e + 1, k - 1);
          }
        }
    }
  }

  // Accepting, and with which layout, is the same for both.
  lemma ValidatorAgreesWithParser(logicalSize: nat, p: Text)
    requires |p| <= U64_MAX
    ensures Agree(Validate(logicalSize, START, p), Parse(p, logicalSize))
  {
    hide ParseU64, Validate, ParseRest;
    assert p[0..] == p;
    match Find(p, 0, NEWLINE) {
      case None => RunNoNewline(logicalSize, START, p, 0);
      case Some(e) =>
        RunLine(logicalSize, START, p, 0, 0, e);
        assert p[0..e] == p[..e];
        CountField(p[..e]);
        var count := ParseU64(p[..e], "sparse extent count");
        if count.Ok? && count.value <= MAX_SPARSE_EXTENTS {
          AgreeRest(logicalSize, START.(position := e + 1, count := Some(count.value), remaining := 2 * count.value),
                    p, e + 1, count.value);
        }
    }
  }

  lemma CountField(s: Text)
    ensures Agree(ParseU64(s, "sparse map value"), ParseU64(s, "sparse extent count"))
  {
  }

  function Flatten(chunks: seq<Text>): Text {
    if |chunks| == 0 then [] else chunks[0] + Flatten(chunks[1..])
  }

  // Streaming a payload in any chunks accepts what the parser accepts, with the same layout.
  method ValidateChunks(logicalSize: nat, chunks: seq<Text>) returns (r: Result<Layout>)
    requires |Flatten(chunks)| <= U64_MAX
    ensures Agree(r, Parse(Flatten(chunks), logicalSize))
  {
    hide Run, Step, Finish, Parse;
    ValidatorAgreesWithParser(logicalSize, Flatten(chunks));
    var validator := new SparseStreamValidator(logicalSize);
    StartConsistent();
    for i := 0 to |chunks|
      invariant Consistent(validator.View())
      invariant Run(logicalSize, START, Flatten(chunks)) == Run(logicalSize, validator.View(), Flatten(chunks[i..]))
    {
      assert chunks[i..][1..] == chunks[i + 1..];
      RunConcat(logicalSize, validator.View(), chunks[i], Flatten(chunks[i + 1..]));
      var observed := validator.Observe(chunks[i]);
      if observed.Err? {
        return Err(observed.error);
      }
    }
    RunNothing(logicalSize, validator.View());
    r := validator.Finalize();
  }

  lemma RunNothing(logicalSize: nat, st: State)
    ensures Run(logicalSize, st, []) == Ok(st)
  {
  }

  lemma StartConsistent()
    ensures Consistent(START)
  {
  }
}
