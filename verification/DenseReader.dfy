/** The reader of an ordinary file: its declared length, however the file behaves. */
module DenseReader {
  import opened Extents
  import opened Format
  import opened Input
  import opened Sparse

  // The part of a declared length that a file of this size does not have.
  ghost function Beyond(declared: nat, size: nat): nat {
    if size < declared then declared - size else 0
  }

  ghost function Rest(declared: nat, remaining: nat): seq<Extent>
    requires remaining <= declared
  {
    if remaining > 0 then [Extent(declared - remaining, remaining)] else []
  }

  lemma RestSum(declared: nat, remaining: nat)
    requires remaining <= declared
    ensures Sum(Rest(declared, remaining)) == remaining
  {
    if remaining > 0 {
      assert Rest(declared, remaining)[1..] == [];
    }
  }

  lemma RestAdvance(declared: nat, remaining: nat, n: nat)
    requires n <= remaining <= declared
    ensures Sum(Rest(declared, remaining)) == remaining
    ensures Advance(Rest(declared, remaining), n) == Rest(declared, remaining - n)
  {
    RestSum(declared, remaining);
    if 0 < n {
      SingleAdvance(Extent(declared - remaining, remaining), n);
    }
  }

  lemma RestLost(declared: nat, remaining: nat, end: nat)
    requires remaining <= declared
    ensures Lost(Rest(declared, remaining), end) == Min(remaining, Beyond(declared, end))
  {
    if remaining > 0 {
      assert Rest(declared, remaining)[1..] == [];
    }
  }

  class IdentityCheckedReader {
    const file: SourceFile
    const report: RunReport
    const declared: nat
    const path: string
    var remaining: nat
    var validated: bool
    ghost var ledger: Ledger

    ghost predicate Valid()
      reads this
    {
      remaining <= declared && Balanced(remaining, validated, ledger, file.sameIdentity)
    }

    ghost function Todo(): seq<Extent>
      requires remaining <= declared
      reads this`remaining
    {
      Rest(declared, remaining)
    }

    // The bytes are right so far and the file is where the next one is.
    ghost predicate Placed(c: seq<byte>)
      requires remaining <= declared
      reads this, file
    {
      InPlace(Todo(), remaining > 0, file.pos, ledger.substituted, c, Beyond(declared, |c|))
    }

    // And the report is right so far.
    ghost predicate Tracks(c: seq<byte>)
      requires remaining <= declared
      reads this, file
    {
      InStep(Todo(), remaining > 0, file.pos, ledger, c, Beyond(declared, |c|))
    }

    constructor (file: SourceFile, report: RunReport, declared: nat, path: string)
      requires file.pos == 0
      ensures this.file == file && this.report == report && this.declared == declared && this.path == path
      ensures Valid() && remaining == declared && ledger == BLANK && !validated
      ensures forall c :: Tracks(c)
    {
      this.file, this.report, this.declared, this.path := file, report, declared, path;
      remaining, validated, ledger := declared, false, BLANK;
      new;
      forall c: seq<byte> ensures Lost(Todo(), |c|) == Beyond(declared, |c|) {
        RestLost(declared, declared, |c|);
      }
    }

    // The run's notes with one about this reader.
    ghost function WithNote(notes: seq<string>, padded: nat): seq<string> {
      Noted(notes, report.render(path, declared, padded))
    }

    // The run's notes since the reader began: at most one more.
    ghost function NotesSince(notes: seq<string>): seq<string>
      reads this
    {
      if ledger.reported == [] then notes else WithNote(notes, Shortfall(ledger))
    }

    // A byte is owed and the file has one at its position.
    ghost predicate WouldTake()
      reads this, file
    {
      remaining > 0 && file.pos < |file.content(file.calls)|
    }

    method NoteChanged(padded: nat)
      modifies this`validated, this`ledger, report
      ensures validated
      ensures ledger == if old(validated) then old(ledger) else old(ledger).(reported := [padded])
      ensures report.incomplete == (old(report.incomplete) || (!old(validated) && padded > 0))
      ensures report.notes == if old(validated) then old(report.notes) else WithNote(old(report.notes), padded)
    {
      if validated {
        return;
      }
      validated := true;
      ledger := ledger.(reported := [padded]);
      report.RecordChanged(path, declared, padded);
    }

    // Checks the identity; only the first report of a reader counts.
    method CheckIdentity()
      requires Valid() && remaining == 0
      modifies this`validated, this`ledger, report, file`calls
      ensures Valid() && validated
      ensures ledger == Checked(old(validated), old(ledger), old(file.calls), file.sameIdentity)
      ensures report.incomplete == old(report.incomplete)
      ensures report.notes == if ledger.reported == old(ledger).reported then old(report.notes)
                              else WithNote(old(report.notes), Shortfall(ledger))
    {
      BalancedCheck(validated, ledger, file.sameIdentity, file.calls);
      ghost var v, call := validated, file.calls;
      var same := file.IdentityUnchanged();
      if !same {
        NoteChanged(0);
      }
      validated := true;
      if !v {
        ledger := ledger.(checked := Some(call));
      }
    }

    // An empty buffer while the next byte is still in the file.
    ghost predicate FalseAlarm(room: nat, c: seq<byte>)
      requires remaining <= declared
      reads this`remaining
    {
      room == 0 && remaining > 0 && declared - remaining < |c|
    }

    // Never zero bytes while any are owed, provided the buffer is not empty. An empty buffer looks like the end of the
    // file: the whole remainder is reported as lost, which is wrong exactly if the next byte is still there.
    method Read(out: array<byte>, ghost c: seq<byte>) returns (r: Option<nat>)
      requires Valid()
      modifies this, file, report, out
      ensures Valid() && (file.ReadsWork() ==> r.Some?)
      ensures r.Some? ==> r.value <= Min(out.Length, old(remaining)) && remaining == old(remaining) - r.value
      ensures r.Some? && out.Length > 0 ==> (r.value == 0 <==> old(remaining) == 0)
      ensures r.Some? ==> forall k :: r.value <= k < out.Length ==> out[k] == old(out[k])
      ensures r.Some? && old(validated) ==> validated && ledger.reported == old(ledger).reported
      ensures r.Some? ==>
                report.incomplete == (old(report.incomplete) || (Shortfall(ledger) > 0 && Shortfall(old(ledger)) == 0))
      ensures r.Some? ==> report.notes == if ledger.reported == old(ledger).reported then old(report.notes)
                                          else WithNote(old(report.notes), Shortfall(ledger))
      ensures r.Some? ==> ledger.late >= old(ledger).late
      ensures r.Some? ==>
                (ledger.late > old(ledger).late <==>
                 out.Length > 0 && Shortfall(old(ledger)) > 0 && old(WouldTake()))
      ensures r.Some? && remaining == 0 ==> validated
      ensures r.Some? && file.Fixed(c) && old(Placed(c)) ==>
                Placed(c) && out[..r.value] == Slice(c, declared - old(remaining), r.value)
      ensures r.Some? && file.Fixed(c) && old(Tracks(c)) && !old(FalseAlarm(out.Length, c)) ==> Tracks(c)
      ensures r.Some? && out.Length == 0 && old(remaining) > 0 && !old(validated) ==>
                validated && ledger.reported == [old(remaining)] && ledger.substituted == old(ledger).substituted
    {
      hide InStep, InPlace, Advance, Sum, PastEnd, Slice, Balanced, Lost, Rest, SourceFile.Fixed, SourceFile.ReadsWork,
        Shortfall, Checked, Filled, Copied, WithNote;
      ghost var fixed := file.Fixed(c) && Placed(c);
      ghost var tracked := file.Fixed(c) && Tracks(c);
      ghost var pos := file.pos;
      ReportFacts();
      TracksPlaced(c);
      file.FixedContent(c, file.calls);
      file.WorksAt(file.calls);
      if remaining == 0 {
        if !validated {
          Finish(c, fixed, tracked);
        }
        assert out[..0] == Slice(c, declared, 0);
        return Some(0);
      }
      var maxRead := Min(out.Length, remaining);
      var chunk := file.Read(maxRead);
      if chunk.None? {
        return None;
      }
      if |chunk.value| == 0 {
        FilledFacts(validated, ledger, remaining, maxRead);
        Pad(out, maxRead, c, fixed, tracked);
        return Some(maxRead);
      }
      Deliver(out, chunk.value, pos, c, fixed, tracked);
      return Some(|chunk.value|);
    }

    lemma ReportFacts()
      requires Valid()
      ensures !validated ==> ledger.reported == [] && Shortfall(ledger) == 0
      ensures validated && remaining > 0 ==> Shortfall(ledger) > 0
    {
    }

    lemma NotesStep(start: seq<string>, was: seq<string>, l: Ledger, now: seq<string>)
      requires l.reported != [] ==> ledger.reported == l.reported
      requires was == if l.reported == [] then start else WithNote(start, Shortfall(l))
      requires now == if ledger.reported == l.reported then was else WithNote(was, Shortfall(ledger))
      ensures now == NotesSince(start)
    {
    }

    lemma NotesUnfold(start: seq<string>)
      ensures NotesSince(start) == if ledger.reported == [] then start else WithNote(start, Shortfall(ledger))
    {
    }

    lemma Finished()
      requires Valid() && validated && remaining == 0
      ensures Settled(ledger, file.sameIdentity) && Balanced(0, validated, ledger, file.sameIdentity)
    {
    }

    // A false alarm is always the first report, and too much.
    lemma AlarmFacts(c: seq<byte>, room: nat)
      requires Valid() && Tracks(c) && FalseAlarm(room, c)
      ensures !validated && remaining > Beyond(declared, |c|)
    {
      hide Lost;
      PastEndFirst(Todo(), c);
    }

    // All delivered: what was substituted, and what the report says of it.
    lemma SettledAt(c: seq<byte>)
      requires Valid() && Placed(c) && remaining == 0
      ensures ledger.substituted == Beyond(declared, |c|)
      ensures Tracks(c) ==> Shortfall(ledger) == ledger.substituted
    {
      RestSum(declared, 0);
    }

    lemma TracksPlaced(c: seq<byte>)
      requires remaining <= declared
      ensures Tracks(c) ==> Placed(c)
    {
    }

    // Nothing is owed any more: the identity decides.
    method Finish(ghost c: seq<byte>, ghost fixed: bool, ghost tracked: bool)
      requires Valid() && remaining == 0 && (fixed ==> Placed(c)) && (tracked ==> Tracks(c))
      modifies this`validated, this`ledger, report, file`calls
      ensures Valid() && validated && report.incomplete == old(report.incomplete)
      ensures old(validated) ==> ledger == old(ledger)
      ensures ledger.substituted == old(ledger).substituted && Shortfall(ledger) == Shortfall(old(ledger))
      ensures ledger.late == old(ledger).late
      ensures report.notes == if ledger.reported == old(ledger).reported then old(report.notes)
                              else WithNote(old(report.notes), Shortfall(ledger))
      ensures (fixed ==> Placed(c)) && (tracked ==> Tracks(c))
    {
      hide InPlace, Balanced;
      ghost var v, l, call := validated, ledger, file.calls;
      ReportFacts();
      CheckIdentity();
    }

    // The file has ended, or so it seems: zeros for this buffer, and the whole remainder reported.
    method Pad(out: array<byte>, n: nat, ghost c: seq<byte>, ghost fixed: bool, ghost tracked: bool)
      requires Valid() && remaining > 0 && n == Min(out.Length, remaining)
      requires fixed ==> Placed(c) && (n > 0 ==> |c| <= file.pos)
      requires tracked ==> fixed && Tracks(c)
      modifies this, report, out
      ensures Valid() && validated && remaining == old(remaining) - n
      ensures forall k :: n <= k < out.Length ==> out[k] == old(out[k])
      ensures ledger == Filled(old(validated), old(ledger), old(remaining), n) && Shortfall(ledger) > 0
      ensures report.incomplete == (old(report.incomplete) || !old(validated))
      ensures report.notes == if ledger.reported == old(ledger).reported then old(report.notes)
                              else WithNote(old(report.notes), Shortfall(ledger))
      ensures fixed ==> Placed(c) && out[..n] == Slice(c, declared - old(remaining), n)
      ensures tracked && !(n == 0 && declared - old(remaining) < |c|) ==> Tracks(c)
    {
      hide InStep, InPlace, Advance, Sum, PastEnd, Slice, Balanced, Lost;
      ghost var v, l, owed := validated, ledger, remaining;
      ReportFacts();
      var shortfall := remaining;
      forall k | 0 <= k < n {
        out[k] := 0;
      }
      BalancedFill(owed, v, l, file.sameIdentity, n);
      if fixed {
        PadPlaced(file.pos, l.substituted, c, n);
        if n > 0 {
          ZeroSlice(c, declared - owed, n);
        }
        assert out[..n] == Slice(c, declared - owed, n);
      }
      if tracked && !(n == 0 && declared - owed < |c|) {
        PadTracked(file.pos, v, l, c, n);
      }
      remaining := remaining - n;
      ledger := ledger.(substituted := ledger.substituted + n);
      NoteChanged(shortfall);
    }

    lemma PadPlaced(pos: nat, sub: nat, c: seq<byte>, n: nat)
      requires 0 < remaining <= declared && n <= remaining && (n > 0 ==> |c| <= pos)
      requires InPlace(Todo(), true, pos, sub, c, Beyond(declared, |c|))
      ensures InPlace(Rest(declared, remaining - n), remaining > n, pos, sub + n, c, Beyond(declared, |c|))
      ensures n > 0 ==> |c| <= declared - remaining
    {
      hide Lost, Advance, Sum;
      RestAdvance(declared, remaining, n);
      if n > 0 {
        OrderedSingle(Todo());
        PlaceEof(Todo(), pos, sub, c, Beyond(declared, |c|));
        PlacePad(Todo(), pos, sub, c, Beyond(declared, |c|), n, remaining > n);
      }
    }

    lemma PadTracked(pos: nat, v: bool, l: Ledger, c: seq<byte>, n: nat)
      requires 0 < remaining <= declared && n <= remaining && (n > 0 ==> |c| <= pos)
      requires n == 0 ==> |c| <= declared - remaining
      requires InStep(Todo(), true, pos, l, c, Beyond(declared, |c|))
      ensures InStep(Rest(declared, remaining - n), remaining > n, pos, Filled(v, l, remaining, n), c,
                     Beyond(declared, |c|))
    {
      hide Lost, Advance, Sum;
      PadPlaced(pos, l.substituted, c, n);
    }

    // Bytes from the file.
    method Deliver(out: array<byte>, chunk: seq<byte>, ghost pos: nat, ghost c: seq<byte>, ghost fixed: bool,
                   ghost tracked: bool)
      requires Valid() && 0 < |chunk| <= Min(out.Length, remaining) && file.pos == pos + |chunk|
      requires fixed ==> InPlace(Todo(), true, pos, ledger.substituted, c, Beyond(declared, |c|))
      requires fixed ==> pos < |c| && file.pos <= |c| && chunk == Slice(c, pos, |chunk|)
      requires tracked ==> fixed && InStep(Todo(), true, pos, ledger, c, Beyond(declared, |c|))
      modifies this, file`calls, report, out
      ensures Valid() && remaining == old(remaining) - |chunk| && (remaining == 0 ==> validated)
      ensures forall k :: |chunk| <= k < out.Length ==> out[k] == old(out[k])
      ensures old(validated) ==> validated && ledger.reported == old(ledger).reported
      ensures Shortfall(ledger) == Shortfall(old(ledger)) && report.incomplete == old(report.incomplete)
      ensures ledger.late >= old(ledger).late && (ledger.late > old(ledger).late <==> Shortfall(old(ledger)) > 0)
      ensures report.notes == if ledger.reported == old(ledger).reported then old(report.notes)
                              else WithNote(old(report.notes), Shortfall(ledger))
      ensures fixed ==> Placed(c) && out[..|chunk|] == Slice(c, declared - old(remaining), |chunk|)
      ensures tracked ==> Tracks(c)
    {
      hide InStep, InPlace, Advance, Sum, PastEnd, Slice, Balanced, Lost;
      ghost var owed := remaining;
      var n := |chunk|;
      forall k | 0 <= k < n {
        out[k] := chunk[k];
      }
      assert out[..n] == chunk;
      BalancedCopy(remaining, validated, ledger, file.sameIdentity, n);
      CopiedFacts(ledger, n);
      RestAdvance(declared, remaining, n);
      if fixed {
        PlaceRead(Todo(), pos, ledger.substituted, c, Beyond(declared, |c|), n);
      }
      if tracked {
        StepRead(Todo(), pos, ledger, c, Beyond(declared, |c|), n);
      }
      remaining := remaining - n;
      ledger := Copied(ledger, n);
      if remaining == 0 {
        Finish(c, fixed, tracked);
      }
    }
  }

  // ---------- whole runs ----------

  // Reads until nothing more comes, with non-empty buffers of any sizes: exactly the declared length arrives, and the
  // account is settled. Against a fixed file the report is the part the file did not have.
  method DrainDense(reader: IdentityCheckedReader, sizes: nat -> nat, ghost c: seq<byte>) returns (r: Option<seq<byte>>)
    requires reader.Valid() && reader.remaining == reader.declared && reader.ledger == BLANK
    requires forall t: nat :: sizes(t) > 0
    modifies reader, reader.file, reader.report
    ensures reader.Valid() && (reader.file.ReadsWork() ==> r.Some?)
    ensures r.Some? ==> |r.value| == reader.declared && reader.remaining == 0 && reader.validated
    ensures r.Some? ==> Settled(reader.ledger, reader.file.sameIdentity)
    ensures r.Some? ==> reader.report.incomplete == (old(reader.report.incomplete) || Shortfall(reader.ledger) > 0)
    ensures r.Some? ==> reader.report.notes == reader.NotesSince(old(reader.report.notes))
    ensures r.Some? && reader.file.Fixed(c) && old(reader.Tracks(c)) ==>
              && r.value == Slice(c, 0, reader.declared)
              && reader.ledger.substituted == Beyond(reader.declared, |c|) == Shortfall(reader.ledger)
  {
    hide InStep, InPlace, Sum, Balanced, Settled, Rest, Slice, SourceFile.Fixed, SourceFile.ReadsWork, Shortfall,
      IdentityCheckedReader.NotesSince, IdentityCheckedReader.WithNote, IdentityCheckedReader.WouldTake,
      IdentityCheckedReader.Placed, IdentityCheckedReader.Tracks, Beyond;
    ghost var fixed := reader.file.Fixed(c) && reader.Tracks(c);
    var bytes: seq<byte> := [];
    var turn: nat := 0;
    BlankShortfall();
    SliceNone(c);
    reader.NotesUnfold(reader.report.notes);
    while true
      invariant reader.Valid() && |bytes| + reader.remaining == reader.declared
      invariant reader.report.incomplete == (old(reader.report.incomplete) || Shortfall(reader.ledger) > 0)
      invariant reader.report.notes == reader.NotesSince(old(reader.report.notes))
      invariant fixed ==> reader.Tracks(c) && bytes == Slice(c, 0, |bytes|)
      decreases reader.remaining
    {
      ghost var v, l, notes := reader.validated, reader.ledger, reader.report.notes;
      reader.ReportFacts();
      reader.NotesUnfold(old(reader.report.notes));
      reader.TracksPlaced(c);
      var buffer := new byte[sizes(turn)];
      var n := reader.Read(buffer, c);
      if n.None? {
        return None;
      }
      SameReport(v, l, reader.ledger);
      reader.NotesStep(old(reader.report.notes), notes, l, reader.report.notes);
      SliceGrow(c, |bytes|, n.value);
      bytes := bytes + buffer[..n.value];
      if n.value == 0 {
        reader.Finished();
        if fixed {
          reader.TracksPlaced(c);
          reader.SettledAt(c);
        }
        return Some(bytes);
      }
      turn := turn + 1;
    }
  }

  lemma SliceNone(c: seq<byte>)
    ensures Slice(c, 0, 0) == []
  {
  }

  lemma SliceGrow(c: seq<byte>, m: nat, n: nat)
    ensures Slice(c, 0, m + n) == Slice(c, 0, m) + Slice(c, m, n)
  {
  }

  // Some buffer was empty while fewer than `end` bytes had been delivered.
  ghost predicate Alarmed(sizes: seq<nat>, chunks: seq<seq<byte>>, end: nat)
    requires |chunks| == |sizes|
  {
    exists i :: 0 <= i < |sizes| && sizes[i] == 0 && |Flatten(chunks[..i])| < end
  }

  lemma AlarmedStep(sizes: seq<nat>, chunks: seq<seq<byte>>, size: nat, chunk: seq<byte>, end: nat)
    requires |chunks| == |sizes|
    ensures Alarmed(sizes + [size], chunks + [chunk], end) <==>
            Alarmed(sizes, chunks, end) || (size == 0 && |Flatten(chunks)| < end)
  {
    hide Flatten;
    var (ss, cs) := (sizes + [size], chunks + [chunk]);
    assert cs[..|sizes|] == chunks && ss[|sizes|] == size;
    forall i | 0 <= i < |sizes|
      ensures cs[..i] == chunks[..i] && ss[i] == sizes[i]
    {
    }
    if Alarmed(sizes, chunks, end) {
      var i :| 0 <= i < |sizes| && sizes[i] == 0 && |Flatten(chunks[..i])| < end;
      assert ss[i] == 0 && cs[..i] == chunks[..i];
    }
    if Alarmed(ss, cs, end) {
      var i :| 0 <= i < |ss| && ss[i] == 0 && |Flatten(cs[..i])| < end;
      assert i < |sizes| ==> sizes[i] == 0 && cs[..i] == chunks[..i];
    }
  }

  // Any buffers at all, against a fixed file. When all is delivered the report states the zeros substituted if and
  // only if no empty buffer was offered while the next byte was owed and still in the file.
  method RunDense(reader: IdentityCheckedReader, sizes: seq<nat>, ghost c: seq<byte>)
    returns (r: Option<seq<seq<byte>>>)
    requires reader.Valid() && reader.remaining == reader.declared && reader.ledger == BLANK && !reader.validated
    requires reader.file.Fixed(c) && reader.Tracks(c)
    modifies reader, reader.file, reader.report
    ensures reader.Valid() && (reader.file.ReadsWork() ==> r.Some?)
    ensures r.Some? ==> |r.value| == |sizes| && forall i :: 0 <= i < |sizes| ==> |r.value[i]| <= sizes[i]
    ensures r.Some? ==> |Flatten(r.value)| + reader.remaining == reader.declared
    ensures r.Some? ==> Flatten(r.value) == Slice(c, 0, |Flatten(r.value)|)
    ensures r.Some? && reader.remaining == 0 ==> reader.ledger.substituted == Beyond(reader.declared, |c|)
    ensures r.Some? && reader.remaining == 0 ==>
              (Shortfall(reader.ledger) == reader.ledger.substituted <==>
               !Alarmed(sizes, r.value, Min(reader.declared, |c|)))
  {
    hide InStep, InPlace, Sum, Balanced, Rest, Slice, SourceFile.Fixed, SourceFile.ReadsWork, Shortfall, Flatten,
      Alarmed, IdentityCheckedReader.Placed, IdentityCheckedReader.Tracks, IdentityCheckedReader.Todo, Beyond,
      IdentityCheckedReader.WithNote, IdentityCheckedReader.WouldTake;
    var chunks: seq<seq<byte>> := [];
    ghost var end := Min(reader.declared, |c|);
    NoAlarm(end, c);
    reader.TracksPlaced(c);
    for i := 0 to |sizes|
      invariant reader.Valid() && |chunks| == i && forall j :: 0 <= j < i ==> |chunks[j]| <= sizes[j]
      invariant |Flatten(chunks)| + reader.remaining == reader.declared
      invariant Flatten(chunks) == Slice(c, 0, |Flatten(chunks)|) && reader.Placed(c)
      invariant if Alarmed(sizes[..i], chunks, end)
                then reader.validated && Shortfall(reader.ledger) > Beyond(reader.declared, |c|)
                else reader.Tracks(c)
    {
      ghost var v, l, before := reader.validated, reader.ledger, chunks;
      if !Alarmed(sizes[..i], chunks, end) && reader.FalseAlarm(sizes[i], c) {
        reader.AlarmFacts(c, sizes[i]);
      }
      reader.TracksPlaced(c);
      var buffer := new byte[sizes[i]];
      var n := reader.Read(buffer, c);
      if n.None? {
        return None;
      }
      SliceGrow(c, |Flatten(chunks)|, n.value);
      FlattenAppend(chunks, buffer[..n.value]);
      AlarmedStep(sizes[..i], chunks, sizes[i], buffer[..n.value], end);
      assert sizes[..i + 1] == sizes[..i] + [sizes[i]];
      chunks := chunks + [buffer[..n.value]];
      SameShortfall(v, l, reader.ledger);
      OneReport(reader.ledger);
    }
    assert sizes[..|sizes|] == sizes;
    if reader.remaining == 0 {
      reader.SettledAt(c);
    }
    return Some(chunks);
  }

  lemma NoAlarm(end: nat, c: seq<byte>)
    ensures !Alarmed([], [], end) && Flatten([]) == [] && Slice(c, 0, 0) == []
  {
  }

  lemma SameShortfall(v: bool, l: Ledger, l': Ledger)
    ensures v && l'.reported == l.reported ==> Shortfall(l') == Shortfall(l)
  {
  }

  lemma OneReport(l: Ledger)
    ensures |l.reported| == 1 ==> Shortfall(l) == l.reported[0]
  {
  }

  // A file of one byte, an empty buffer and then one of one byte: the byte is delivered and reported as lost.
  method AlarmExample() returns (first: seq<byte>, second: seq<byte>, reader: IdentityCheckedReader)
    ensures reader.Valid() && reader.declared == 1 && reader.remaining == 0
    ensures first == [] && second == [7]
    ensures Shortfall(reader.ledger) == 1 && reader.ledger.substituted == 0
  {
    hide InStep, InPlace, Sum, Balanced, Rest, Slice, Beyond, IdentityCheckedReader.Placed,
      IdentityCheckedReader.Tracks, IdentityCheckedReader.Todo, IdentityCheckedReader.WithNote,
      IdentityCheckedReader.WouldTake;
    var file := new SourceFile(_ => [7], _ => 0, _ => true, _ => true, _ => true);
    var report := new RunReport((path, declared, padded) => path);
    reader := new IdentityCheckedReader(file, report, 1, "dense");
    reader.TracksPlaced([7]);
    OneByte();
    var empty := new byte[0];
    var one := new byte[1];
    var m := reader.Read(empty, [7]);
    var n := reader.Read(one, [7]);
    first, second := empty[..], one[..];
    assert one[..1] == one[..];
    reader.SettledAt([7]);
  }

  lemma OneByte()
    ensures Slice([7], 0, 1) == [7] && Beyond(1, |[7 as byte]|) == 0
  {
  }
}
