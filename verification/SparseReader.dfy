/** The reader of a sparse file: the bytes of its extents, however the file behaves. */
module SparseReader {
  import opened Extents
  import opened Format
  import opened Input
  import opened Sparse

  // One turn of the read loop.
  datatype Progress = Took(n: nat) | Padded(n: nat) | Exhausted | Broken

  // A reader between two reads.
  datatype View = View(index: nat, remaining: nat, calls: nat, pos: nat, ledger: Ledger)

  // Within an extent the file has a byte at its position; between extents the seek to the next one succeeds and the
  // file has a byte there.
  ghost predicate TakesAt(v: View, extents: seq<Extent>, file: SourceFile) {
    if v.remaining > 0 then file.readOk(v.calls) && v.pos < |file.content(v.calls)|
    else
      && v.index < |extents| && file.seekOk(v.calls)
      && file.readOk(v.calls + 1) && extents[v.index].offset < |file.content(v.calls + 1)|
  }

  // The extents from a cursor on, the first one partly.
  ghost function From(extents: seq<Extent>, index: nat, remaining: nat): seq<Extent>
    requires index <= |extents| && (remaining > 0 ==> index < |extents| && remaining <= extents[index].length)
  {
    if remaining > 0 then
      [Extent(extents[index].offset + extents[index].length - remaining, remaining)] + extents[index + 1..]
    else extents[index..]
  }

  class SparseExtentReader {
    const file: SourceFile
    const report: RunReport
    const extents: seq<Extent>
    const path: string
    var index: nat
    var remaining: nat
    var validated: bool
    ghost var ledger: Ledger

    ghost predicate Shape()
      reads this`index, this`remaining
    {
      && Positive(extents) && Ordered(extents) && index <= |extents|
      && (remaining > 0 ==> index < |extents| && remaining <= extents[index].length)
    }

    // The extents still to be delivered.
    ghost function Todo(): seq<Extent>
      requires Shape()
      reads this`index, this`remaining
    {
      From(extents, index, remaining)
    }

    ghost predicate Valid()
      reads this
    {
      Shape() && Balanced(Sum(Todo()), validated, ledger, file.sameIdentity)
    }

    ghost predicate Tracks(c: seq<byte>)
      requires Shape()
      reads this, file
    {
      InStep(Todo(), remaining > 0, file.pos, ledger, c, Lost(extents, |c|))
    }

    constructor (file: SourceFile, report: RunReport, extents: seq<Extent>, path: string)
      requires Positive(extents) && Ordered(extents)
      ensures this.file == file && this.report == report && this.extents == extents && this.path == path
      ensures Valid() && Todo() == extents && ledger == BLANK && !validated && index == 0 && remaining == 0
      ensures forall c :: Tracks(c)
    {
      this.file, this.report, this.extents, this.path := file, report, extents, path;
      index, remaining, validated, ledger := 0, 0, false, BLANK;
      new;
      assert extents[0..] == extents;
    }

    method Promised() returns (n: nat)
      ensures n == Sum(extents)
    {
      n := SumFrom(extents, 0);
      assert extents[0..] == extents;
    }

    method StillOwed() returns (n: nat)
      requires Shape() && remaining > 0
      ensures n == Sum(Todo())
    {
      assert Todo()[1..] == extents[index + 1..];
      var later := SumFrom(extents, index + 1);
      n := remaining + later;
    }

    // The run's notes with one about this reader.
    ghost function WithNote(notes: seq<string>, padded: nat): seq<string> {
      Noted(notes, report.render(path, Sum(extents), padded))
    }

    method NoteChanged(padded: nat)
      modifies this`validated, this`ledger, report
      ensures validated
      ensures ledger == if old(validated) then old(ledger) else old(ledger).(reported := [padded])
      ensures report.incomplete == (old(report.incomplete) || (!old(validated) && padded > 0))
      ensures report.notes == if old(validated) then old(report.notes) else WithNote(old(report.notes), padded)
    {
      if validated {
        return;
      }
      validated := true;
      ledger := ledger.(reported := [padded]);
      var declared := Promised();
      report.RecordChanged(path, declared, padded);
    }

    // Checks the file's identity, once; a change is reported without a shortfall.
    method ValidateFinished()
      requires Valid() && Sum(Todo()) == 0
      modifies this`validated, this`ledger, report, file`calls
      ensures Valid() && validated && Todo() == old(Todo())
      ensures ledger == Checked(old(validated), old(ledger), old(file.calls), file.sameIdentity)
      ensures old(validated) ==> file.calls == old(file.calls)
      ensures report.incomplete == old(report.incomplete)
      ensures report.notes == if ledger.reported == old(ledger).reported then old(report.notes)
                              else WithNote(old(report.notes), 0)
    {
      hide Sum, From, WithNote;
      BalancedCheck(validated, ledger, file.sameIdentity, file.calls);
      if validated {
        return;
      }
      ghost var call := file.calls;
      var same := file.IdentityUnchanged();
      if !same {
        NoteChanged(0);
      }
      validated := true;
      ledger := ledger.(checked := Some(call));
    }

    // A current extent is partly consumed.
    ghost predicate Begun()
      reads this`index, this`remaining
    {
      remaining > 0 ==> index < |extents| && remaining < extents[index].length
    }

    // Account for `n` bytes of the current extent.
    method Consume(n: nat)
      requires Shape() && 0 < n <= remaining
      modifies this`index, this`remaining
      ensures Begun()
      ensures Shape() && n <= Sum(old(Todo())) && Todo() == Advance(old(Todo()), n)
      ensures remaining == old(remaining) - n
    {
      hide Advance, Sum;
      ghost var before := Todo();
      AdvanceHead(before, n);
      assert before[1..] == extents[index + 1..];
      remaining := remaining - n;
      if remaining == 0 {
        index := index + 1;
      }
    }

    // Start the next extent; its bytes count as owed even if the seek fails.
    method EnterExtent() returns (ok: bool)
      requires Shape() && remaining == 0 && index < |extents|
      modifies this`remaining, file
      ensures Shape() && remaining == extents[index].length > 0 && Todo() == old(Todo())
      ensures ok == file.seekOk(old(file.calls)) && file.calls == old(file.calls) + 1
      ensures Todo()[0].offset == extents[index].offset && file.pos == if ok then Todo()[0].offset else old(file.pos)
    {
      assert extents[index..] == [extents[index]] + extents[index + 1..];
      remaining := extents[index].length;
      ok := file.Seek(extents[index].offset);
    }

    // Start the next extent without touching the file.
    method LoadExtent()
      requires Shape() && remaining == 0 && Sum(Todo()) > 0
      modifies this`remaining
      ensures Shape() && remaining > 0 && Todo() == old(Todo())
    {
      assert index < |extents|;
      assert extents[index..] == [extents[index]] + extents[index + 1..];
      remaining := extents[index].length;
    }

    method WalkForward(n: nat)
      requires Shape() && n <= Sum(Todo())
      modifies this`index, this`remaining
      ensures Shape() && Todo() == Advance(old(Todo()), n)
      ensures n < old(remaining) ==> remaining == old(remaining) - n
      ensures n > 0 ==> Begun()
    {
      hide Advance, Sum, Shape, Todo, Begun;
      ghost var before := Todo();
      TodoShape();
      var left: nat := n;
      AdvanceNone(before);
      while left > 0
        invariant Shape() && left <= n <= Sum(before)
        invariant Todo() == Advance(before, n - left) && left <= Sum(Todo())
        invariant n < old(remaining) ==> left in {0, n} && remaining == old(remaining) - (n - left)
        invariant left < n ==> Begun()
      {
        if remaining == 0 {
          LoadExtent();
        }
        var step := Min(left, remaining);
        FirstLength();
        AdvanceTwice(before, n - left, step);
        AdvanceStream(Todo(), step, []);
        Consume(step);
        left := left - step;
      }
    }

    // Fill the rest of the buffer with zeros and report the whole shortfall once.
    method PadRemaining(out: array<byte>, written: nat, shortfall: nat) returns (n: nat)
      requires Valid() && written <= out.Length && shortfall == Sum(Todo()) > 0
      modifies this, report, out
      ensures Valid() && validated && n == written + Min(out.Length - written, shortfall)
      ensures Todo() == Advance(old(Todo()), n - written) && (n - written < old(remaining) ==> remaining > 0)
      ensures forall k :: written <= k < n ==> out[k] == 0
      ensures forall k :: 0 <= k < written || n <= k < out.Length ==> out[k] == old(out[k])
      ensures ledger == Filled(old(validated), old(ledger), shortfall, n - written) && Shortfall(ledger) > 0
      ensures report.incomplete == (old(report.incomplete) || !old(validated)) && (n > written ==> Begun())
      ensures report.notes == if old(validated) then old(report.notes) else WithNote(old(report.notes), shortfall)
    {
      hide Advance, Sum, Shape, Todo, Balanced, WithNote, Begun;
      ghost var todo := Todo();
      var fill := Min(out.Length - written, shortfall);
      forall k | written <= k < written + fill {
        out[k] := 0;
      }
      BalancedFill(shortfall, validated, ledger, file.sameIdentity, fill);
      AdvanceStream(todo, fill, []);
      WalkForward(fill);
      CountSubstituted(fill);
      NoteChanged(shortfall);
      n := written + fill;
    }

    ghost method CountSubstituted(n: nat)
      modifies this`ledger
      ensures ledger == old(ledger).(substituted := old(ledger).substituted + n)
    {
      ledger := ledger.(substituted := ledger.substituted + n);
    }

    // Zeros from here to the end of the buffer, against a stream that began as `before`.
    method PadOut(out: array<byte>, written: nat, ghost before: seq<Extent>, ghost c: seq<byte>, ghost fixed: bool)
      returns (n: nat)
      requires Valid() && remaining > 0 && written < out.Length && Positive(before)
      requires written <= Sum(before) && Todo() == Advance(before, written)
      requires fixed ==> Tracks(c) && |c| <= file.pos && PastEnd(Todo(), c)
                         && out[..written] == Stream(before, c)[..written]
      modifies this, report, out
      ensures Valid() && validated && n == Min(out.Length, Sum(before)) && n > written && Todo() == Advance(before, n)
      ensures forall k :: 0 <= k < written || n <= k < out.Length ==> out[k] == old(out[k])
      ensures (forall k :: written <= k < n ==> out[k] == 0) && (n - written < old(remaining) ==> remaining > 0)
      ensures ledger == Filled(old(validated), old(ledger), Sum(old(Todo())), n - written) && Shortfall(ledger) > 0
      ensures report.incomplete == (old(report.incomplete) || !old(validated)) && Begun()
      ensures report.notes == if old(validated) then old(report.notes)
                              else WithNote(old(report.notes), Shortfall(ledger))
      ensures fixed ==> Tracks(c) && out[..n] == Stream(before, c)[..n]
    {
      hide Advance, Sum, Stream, PastEnd, From, InStep, Balanced, WithNote, Begun;
      ghost var todo := Todo();
      FirstLength();
      AdvanceStream(before, written, c);
      var owed := StillOwed();
      n := PadRemaining(out, written, owed);
      AdvanceTwice(before, written, n - written);
      if fixed {
        PastEndZeros(todo, c);
        StreamGrow(before, c, written, n - written);
        assert out[..n] == out[..written] + out[written..n];
        assert out[..written] == old(out[..written]);
        assert out[written..n] == Stream(todo, c)[..n - written];
        TodoStarted();
        StepPad(todo, file.pos, old(validated), old(ledger), c, Lost(extents, |c|), n - written, remaining > 0);
      }
    }

    // One read from the file into the buffer.
    method ReadChunk(out: array<byte>, written: nat, ghost c: seq<byte>, ghost fixed: bool) returns (r: Option<nat>)
      requires Valid() && remaining > 0 && written < out.Length
      requires fixed ==> file.Fixed(c) && Tracks(c)
      modifies this`index, this`remaining, this`ledger, file, out
      ensures Valid() && (r.Some? <==> file.readOk(old(file.calls)))
      ensures r.Some? ==> written + r.value <= out.Length && r.value <= Sum(old(Todo()))
      ensures r.Some? ==> Todo() == Advance(old(Todo()), r.value) && ledger == Copied(old(ledger), r.value)
      ensures r == Some(0) ==> remaining == old(remaining)
      ensures r == Some(0) <==> r.Some? && |file.content(old(file.calls))| <= old(file.pos)
      ensures r.Some? ==> forall k :: 0 <= k < written || written + r.value <= k < out.Length ==> out[k] == old(out[k])
      ensures r.Some? ==>
                out[written..written + r.value] == Slice(file.content(old(file.calls)), old(file.pos), r.value)
      ensures r.Some? && fixed ==> Tracks(c) && out[written..written + r.value] == Stream(old(Todo()), c)[..r.value]
      ensures r == Some(0) && fixed ==> |c| <= file.pos && PastEnd(Todo(), c)
    {
      hide Advance, Sum, Stream, PastEnd, InStep, Balanced, Slice, Shape, Todo, Lost, Positive, Ordered,
        SourceFile.Fixed;
      ghost var todo, pos := Todo(), file.pos;
      FirstLength();
      TodoShape();
      AdvanceNone(todo);
      var chunk := file.Read(Min(out.Length - written, remaining));
      if chunk.None? {
        return None;
      }
      var m := |chunk.value|;
      if m == 0 {
        if fixed {
          file.FixedContent(c, old(file.calls));
          EofTracked(c);
        }
        assert out[written..written] == Slice(file.content(old(file.calls)), pos, 0);
        return Some(0);
      }
      CopyAt(out, written, chunk.value);
      if fixed {
        file.FixedContent(c, old(file.calls));
        StepRead(todo, pos, ledger, c, Lost(extents, |c|), m);
        StreamPrefix(todo, c, m);
      }
      BalancedCopy(Sum(todo), validated, ledger, file.sameIdentity, m);
      AdvanceStream(todo, m, []);
      Consume(m);
      CountLate(m);
      return Some(m);
    }

    lemma EofTracked(c: seq<byte>)
      requires Shape() && remaining > 0 && Tracks(c) && |c| <= file.pos
      ensures PastEnd(Todo(), c)
    {
      TodoShape();
      PlaceEof(Todo(), file.pos, ledger.substituted, c, Lost(extents, |c|));
    }

    ghost method CountLate(m: nat)
      modifies this`ledger
      ensures ledger == Copied(old(ledger), m)
    {
      ledger := Copied(ledger, m);
    }

    // The next extent's seek fails.
    ghost predicate SeekFails()
      reads this, file
    {
      remaining == 0 && index < |extents| && !file.seekOk(file.calls)
    }

    // An extent is under way and the file has a byte at its position.
    ghost predicate ByteReady()
      reads this, file
    {
      remaining > 0 && file.readOk(file.calls) && file.pos < |file.content(file.calls)|
    }

    ghost function NextByte(): byte
      requires ByteReady()
      reads this, file
    {
      file.content(file.calls)[file.pos]
    }

    ghost function Now(): View
      reads this, file
    {
      View(index, remaining, file.calls, file.pos, ledger)
    }

    // The next non-empty read will take a byte from the file.
    ghost predicate WouldTake()
      reads this, file
    {
      TakesAt(Now(), extents, file)
    }

    // Within an extent: bytes from the file, or zeros to the end of the buffer.
    method Take(out: array<byte>, written: nat, ghost before: seq<Extent>, ghost c: seq<byte>, ghost fixed: bool)
      returns (p: Progress)
      requires Valid() && remaining > 0 && written < out.Length && Positive(before)
      requires written <= Sum(before) && Todo() == Advance(before, written)
      requires fixed ==> file.Fixed(c) && Tracks(c) && out[..written] == Stream(before, c)[..written]
      modifies this, file, report, out
      ensures Valid() && (file.ReadsWork() ==> !p.Broken?) && !p.Exhausted?
      ensures p.Took? ==> written < p.n <= out.Length && p.n <= Sum(before) && Todo() == Advance(before, p.n)
      ensures p.Took? ==> ledger == Copied(old(ledger), p.n - written) && validated == old(validated)
      ensures p.Took? ==> report.incomplete == old(report.incomplete) && report.notes == old(report.notes)
      ensures p.Padded? ==> written < p.n == Min(out.Length, Sum(before)) && Todo() == Advance(before, p.n) && validated
      ensures p.Padded? ==> ledger == Filled(old(validated), old(ledger), Sum(old(Todo())), p.n - written)
      ensures p.Padded? ==> Shortfall(ledger) > 0 && report.incomplete == (old(report.incomplete) || !old(validated))
      ensures p.Padded? ==> report.notes == if old(validated) then old(report.notes)
                                            else WithNote(old(report.notes), Shortfall(ledger))
      ensures !p.Broken? ==> forall k :: 0 <= k < written || p.n <= k < out.Length ==> out[k] == old(out[k])
      ensures fixed && !p.Broken? ==> Tracks(c) && out[..p.n] == Stream(before, c)[..p.n]
      ensures !p.Broken? ==> (p.Took? <==> old(ByteReady()))
      ensures old(ByteReady()) ==> p.Took? && out[written] == old(NextByte())
    {
      hide Advance, Sum, Stream, PastEnd, InStep, Balanced, SourceFile.Fixed, SourceFile.ReadsWork, Positive, Ordered,
        Shape, Todo, Lost, Filled, Copied, Slice, WithNote, Begun;
      ghost var todo, l, call, pos := Todo(), ledger, file.calls, file.pos;
      file.WorksAt(file.calls);
      var read := ReadChunk(out, written, c, fixed);
      if read.None? {
        return Broken;
      }
      if read.value == 0 {
        AdvanceNone(todo);
        NoneCopied(l);
        var n := PadOut(out, written, before, c, fixed);
        return Padded(n);
      }
      AdvanceStream(before, written, c);
      AdvanceTwice(before, written, read.value);
      FirstOf(file.content(call), pos, out[written..written + read.value]);
      assert out[written..written + read.value][0] == out[written];
      if fixed {
        StreamGrow(before, c, written, read.value);
        assert out[..written + read.value] == out[..written] + out[written..written + read.value];
        assert out[..written] == old(out[..written]);
      }
      return Took(written + read.value);
    }

    // One turn of the loop: the next extent if the last is done, or nothing left to deliver.
    method Turn(out: array<byte>, written: nat, ghost before: seq<Extent>, ghost c: seq<byte>, ghost fixed: bool)
      returns (p: Progress)
      requires Valid() && written < out.Length && Positive(before)
      requires written <= Sum(before) && Todo() == Advance(before, written)
      requires fixed ==> file.Fixed(c) && Tracks(c) && out[..written] == Stream(before, c)[..written]
      modifies this, file, report, out
      ensures Valid() && (file.ReadsWork() ==> !p.Broken?)
      ensures p.Took? ==> written < p.n <= out.Length && p.n <= Sum(before) && Todo() == Advance(before, p.n)
      ensures p.Took? ==> ledger == Copied(old(ledger), p.n - written) && validated == old(validated)
      ensures p.Took? ==> report.incomplete == old(report.incomplete) && report.notes == old(report.notes)
      ensures p.Padded? ==> written < p.n == Min(out.Length, Sum(before)) && Todo() == Advance(before, p.n) && validated
      ensures p.Padded? ==> ledger == Filled(old(validated), old(ledger), Sum(old(Todo())), p.n - written)
      ensures p.Padded? ==> Shortfall(ledger) > 0 && report.incomplete == (old(report.incomplete) || !old(validated))
      ensures p.Padded? ==> report.notes == if old(validated) then old(report.notes)
                                            else WithNote(old(report.notes), Shortfall(ledger))
      ensures p.Exhausted? ==> remaining == 0 && index == |extents| && Todo() == old(Todo()) && out[..] == old(out[..])
      ensures p.Exhausted? ==> ledger == old(ledger) && validated == old(validated)
      ensures p.Exhausted? ==> report.incomplete == old(report.incomplete) && report.notes == old(report.notes)
      ensures p.Took? || p.Padded? ==> forall k :: 0 <= k < written || p.n <= k < out.Length ==> out[k] == old(out[k])
      ensures fixed && !p.Broken? ==> Tracks(c)
      ensures fixed && (p.Took? || p.Padded?) ==> out[..p.n] == Stream(before, c)[..p.n]
      ensures !p.Broken? ==> (p.Took? <==> old(WouldTake()))
      ensures old(SeekFails()) ==>
                && p.Padded? && file.pos == old(file.pos) && file.calls == old(file.calls) + 1 && Begun()
                && forall k :: written <= k < p.n ==> out[k] == 0
      ensures old(SeekFails()) && p.n - written < extents[old(index)].length ==> remaining > 0
      ensures old(ByteReady()) ==> p.Took? && out[written] == old(NextByte())
    {
      hide Advance, Sum, Stream, PastEnd, InStep, Balanced, SourceFile.Fixed, SourceFile.ReadsWork, Positive, Ordered,
        Shape, Todo, Lost, Filled, Copied, WithNote, Begun;
      Within();
      if remaining == 0 {
        if index == |extents| {
          return Exhausted;
        }
        ghost var pos := file.pos;
        file.FixedSeek(c, file.calls);
        var ok := EnterExtent();
        if !ok {
          var n := PadOut(out, written, before, c, false);
          return Padded(n);
        }
        if fixed {
          FirstLength();
          PlaceEnter(Todo(), pos, ledger, c, Lost(extents, |c|));
        }
      }
      p := Take(out, written, before, c, fixed);
    }

    // Turns until the buffer is full, padded or nothing is left; `n` bytes are then in place.
    method Fill(out: array<byte>, ghost c: seq<byte>, ghost fixed: bool) returns (n: Option<nat>)
      requires Valid() && out.Length > 0 && (fixed ==> file.Fixed(c) && Tracks(c))
      modifies this, file, report, out
      ensures Valid() && (file.ReadsWork() ==> n.Some?)
      ensures n.Some? ==> n.value == Min(out.Length, Sum(old(Todo()))) && Todo() == Advance(old(Todo()), n.value)
      ensures n.Some? ==> forall k :: n.value <= k < out.Length ==> out[k] == old(out[k])
      ensures n.Some? && old(validated) ==> validated && ledger.reported == old(ledger).reported
      ensures n.Some? && !old(validated) ==> (validated <==> Shortfall(ledger) > 0)
      ensures n.Some? ==> report.incomplete == (old(report.incomplete) || (validated && !old(validated)))
      ensures n.Some? ==> report.notes == if validated && !old(validated)
                                          then WithNote(old(report.notes), Shortfall(ledger)) else old(report.notes)
      ensures n.Some? && fixed ==> Tracks(c) && out[..n.value] == Stream(old(Todo()), c)[..n.value]
      ensures old(SeekFails()) ==>
                && n.Some? && validated && file.pos == old(file.pos) && (forall k :: 0 <= k < n.value ==> out[k] == 0)
                && (n.value < extents[old(index)].length ==> remaining > 0) && Begun()
                && file.calls == old(file.calls) + 1
                && ledger == Filled(old(validated), old(ledger), Sum(old(Todo())), n.value)
      ensures n.Some? && old(ByteReady()) ==>
                n.value > 0 && out[0] == old(NextByte())
      ensures n.Some? ==> ledger.late >= old(ledger).late
      ensures n.Some? ==> (ledger.late > old(ledger).late <==> Shortfall(old(ledger)) > 0 && old(WouldTake()))
    {
      hide Advance, Sum, Stream, PastEnd, From, InStep, Balanced, Positive, Ordered, Shape, Todo, SourceFile.Fixed,
        SourceFile.ReadsWork, SeekFails, ByteReady, NextByte, Copied, Filled, Lost, Shortfall, WouldTake, WithNote,
        Begun;
      ghost var before, fails, ready, takes := Todo(), SeekFails(), ByteReady(), WouldTake();
      var written: nat := 0;
      AdvanceNone(before);
      TodoShape();
      Unreported();
      NoneCopied(ledger);
      while written < out.Length
        invariant Valid() && written <= out.Length && written <= Sum(before) && Todo() == Advance(before, written)
        invariant forall k :: written <= k < out.Length ==> out[k] == old(out[k])
        invariant validated == old(validated) && ledger == Copied(old(ledger), written)
        invariant report.incomplete == old(report.incomplete) && report.notes == old(report.notes)
        invariant fixed ==> Tracks(c) && out[..written] == Stream(before, c)[..written]
        invariant written == 0 ==> Unstarted(fails, ready, takes) && index == old(index)
        invariant written == 0 && ready ==> NextByte() == old(NextByte())
        invariant written == 0 ==> file.pos == old(file.pos) && file.calls == old(file.calls)
        invariant written > 0 ==> takes && !fails && (ready ==> out[0] == old(NextByte()))
        decreases out.Length - written
      {
        AdvanceStream(before, written, c);
        var turn := Turn(out, written, before, c, fixed);
        match turn {
          case Broken => return None;
          case Exhausted =>
            NothingOwed();
            CopiedFacts(old(ledger), written);
            return Some(written);
          case Padded(m) =>
            NoneCopied(old(ledger));
            CopiedFacts(old(ledger), written);
            FilledFacts(old(validated), Copied(old(ledger), written), Sum(Advance(before, written)), m - written);
            return Some(m);
          case Took(m) =>
            CopiedTwice(old(ledger), written, m - written);
            written := m;
        }
      }
      CopiedFacts(old(ledger), written);
      return Some(written);
    }

    // Nothing has happened yet.
    ghost predicate Unstarted(fails: bool, ready: bool, takes: bool)
      reads this, file
    {
      SeekFails() == fails && ByteReady() == ready && WouldTake() == takes
    }

    // A full buffer, or all that is owed if less: None only when the file reports an error. A failed seek pads the
    // buffer and leaves the file where it was; with an extent begun, the next byte is the one at the file's position.
    method Read(out: array<byte>, ghost c: seq<byte>) returns (r: Option<nat>)
      requires Valid()
      modifies this, file, report, out
      ensures Valid() && (file.ReadsWork() ==> r.Some?)
      ensures r.Some? ==> r.value == Min(out.Length, Sum(old(Todo()))) && Todo() == Advance(old(Todo()), r.value)
      ensures r.Some? ==> forall k :: r.value <= k < out.Length ==> out[k] == old(out[k])
      ensures r.Some? && old(validated) ==> validated && ledger.reported == old(ledger).reported
      ensures r.Some? ==>
                report.incomplete == (old(report.incomplete) || (Shortfall(ledger) > 0 && Shortfall(old(ledger)) == 0))
      ensures r.Some? ==> report.notes == if ledger.reported == old(ledger).reported then old(report.notes)
                                          else WithNote(old(report.notes), Shortfall(ledger))
      ensures r == Some(0) && out.Length > 0 ==> validated
      ensures r.Some? && file.Fixed(c) && old(Tracks(c)) ==>
                Tracks(c) && out[..r.value] == Stream(old(Todo()), c)[..r.value]
      ensures out.Length > 0 && old(SeekFails()) ==>
                && r.Some? && validated && file.pos == old(file.pos) && (forall k :: 0 <= k < r.value ==> out[k] == 0)
                && (r.value < extents[old(index)].length ==> remaining > 0) && Begun()
                && file.calls == old(file.calls) + 1
                && ledger == Filled(old(validated), old(ledger), Sum(old(Todo())), r.value)
      ensures r.Some? && out.Length > 0 && old(ByteReady()) ==>
                r.value > 0 && out[0] == old(NextByte())
      ensures r.Some? ==> ledger.late >= old(ledger).late
      ensures r.Some? ==>
                (ledger.late > old(ledger).late <==>
                 out.Length > 0 && Shortfall(old(ledger)) > 0 && old(WouldTake()))
    {
      hide Advance, Sum, Stream, PastEnd, From, InStep, Positive, Ordered, Shape, Todo, SourceFile.Fixed,
        SourceFile.ReadsWork, SeekFails, ByteReady, NextByte, Filled, Balanced, WouldTake, WithNote, Begun;
      ghost var before := Todo();
      ghost var fixed := file.Fixed(c) && Tracks(c);
      AdvanceNone(before);
      Unreported();
      if out.Length == 0 {
        return Some(0);
      }
      r := Fill(out, c, fixed);
      if r.None? {
        return;
      }
      Unreported();
      AdvanceStream(before, r.value, c);
      if index == |extents| && remaining == 0 {
        NothingOwed();
        ghost var v, l, call := validated, ledger, file.calls;
        ValidateFinished();
        if fixed {
          StepCheck(Todo(), file.pos, v, l, c, Lost(extents, |c|), call, file.sameIdentity);
        }
      } else {
        StillSome();
      }
    }

    // The run's notes since the reader began: at most one more.
    ghost function NotesSince(notes: seq<string>): seq<string>
      reads this
    {
      if ledger.reported == [] then notes else WithNote(notes, Shortfall(ledger))
    }

    lemma NoNotes(notes: seq<string>)
      ensures ledger == BLANK ==> NotesSince(notes) == notes
    {
    }

    lemma Within()
      requires Shape()
      ensures index <= |extents|
    {
    }

    lemma Unreported()
      requires Valid()
      ensures !validated ==> ledger.reported == [] && Shortfall(ledger) == 0 && ledger.late == 0
      ensures Shortfall(ledger) > 0 ==> ledger.reported != []
    {
    }

    lemma ExtentOwed()
      requires Shape() && remaining == 0 && index < |extents|
      ensures 0 < extents[index].length <= Sum(Todo())
    {
      assert extents[index..][1..] == extents[index + 1..];
    }

    lemma Told()
      requires Valid() && Shortfall(ledger) > 0
      ensures Shortfall(ledger) == ledger.substituted + ledger.late + Sum(Todo())
    {
    }

    lemma Located()
      requires Shape()
      ensures Sensible(Now(), extents) && From(extents, index, remaining) == Todo()
    {
    }

    lemma Positions(before: seq<Extent>, delivered: nat, n: nat)
      requires Shape() && Positive(before) && delivered <= Sum(before)
      requires n <= Sum(Advance(before, delivered)) && Todo() == Advance(Advance(before, delivered), n)
      ensures delivered + n <= Sum(before) && Todo() == Advance(before, delivered + n)
      ensures Sensible(Now(), extents) && From(extents, index, remaining) == Todo()
    {
      AdvanceStream(before, delivered, []);
      AdvanceTwice(before, delivered, n);
    }

    lemma Account()
      requires Valid() && Sum(Todo()) == 0
      ensures Shortfall(ledger) == ledger.substituted + ledger.late
    {
    }

    lemma Finished()
      requires Valid() && validated && Sum(Todo()) == 0
      ensures Settled(ledger, file.sameIdentity) && Balanced(0, validated, ledger, file.sameIdentity)
    {
      hide Sum, Shape, Todo;
    }

    lemma StillSome()
      requires Shape() && !(index == |extents| && remaining == 0)
      ensures Sum(Todo()) > 0
    {
    }

    lemma TodoStarted()
      requires Shape()
      ensures remaining > 0 ==> Todo() != []
    {
    }

    lemma NothingOwed()
      requires Shape() && remaining == 0 && index == |extents|
      ensures Todo() == [] && Sum(Todo()) == 0
    {
    }

    lemma TodoShape()
      requires Shape()
      ensures Positive(Todo()) && Ordered(Todo())
    {
    }

    lemma FirstLength()
      requires Shape() && remaining > 0
      ensures remaining <= Sum(Todo()) && Todo() != [] && Todo()[0].length == remaining
    {
    }
  }

  lemma FirstOf(content: seq<byte>, pos: nat, bytes: seq<byte>)
    requires bytes != [] && bytes == Slice(content, pos, |bytes|) && pos < |content|
    ensures bytes[0] == content[pos]
  {
    assert Slice(content, pos, |bytes|)[0] == ByteAt(content, pos + 0);
  }

  method CopyAt(out: array<byte>, at: nat, bytes: seq<byte>)
    requires at + |bytes| <= out.Length
    modifies out
    ensures out[at..at + |bytes|] == bytes
    ensures forall k :: 0 <= k < at || at + |bytes| <= k < out.Length ==> out[k] == old(out[k])
  {
    forall k | 0 <= k < |bytes| {
      out[at + k] := bytes[k];
    }
  }

  // ---------- when a report is exact ----------

  ghost predicate Sensible(v: View, extents: seq<Extent>) {
    v.index <= |extents| && (v.remaining > 0 ==> v.index < |extents| && v.remaining <= extents[v.index].length)
  }

  // Some non-empty read after the report began where it would take a byte from the file.
  ghost predicate TookLate(views: seq<View>, sizes: seq<nat>, extents: seq<Extent>, file: SourceFile)
    requires |views| == |sizes| + 1
  {
    exists i :: 0 <= i < |sizes| && sizes[i] > 0 && LateAt(views[i], extents, file)
  }

  ghost predicate LateAt(v: View, extents: seq<Extent>, file: SourceFile) {
    Shortfall(v.ledger) > 0 && TakesAt(v, extents, file)
  }

  // What one read does to the account.
  ghost predicate ReadStep(v: View, w: View, size: nat, extents: seq<Extent>, file: SourceFile) {
    && w.ledger.late >= v.ledger.late
    && (w.ledger.late > v.ledger.late <==> size > 0 && LateAt(v, extents, file))
    && (Shortfall(v.ledger) > 0 ==> w.ledger.reported == v.ledger.reported)
  }

  ghost predicate ReadSteps(views: seq<View>, sizes: seq<nat>, extents: seq<Extent>, file: SourceFile)
    requires |views| == |sizes| + 1
  {
    forall i :: 0 <= i < |sizes| ==> ReadStep(views[i], views[i + 1], sizes[i], extents, file)
  }

  lemma {:induction false} LateIff(views: seq<View>, sizes: seq<nat>, extents: seq<Extent>, file: SourceFile)
    requires |views| == |sizes| + 1 && ReadSteps(views, sizes, extents, file)
    ensures views[|sizes|].ledger.late >= views[0].ledger.late
    ensures views[|sizes|].ledger.late > views[0].ledger.late <==> TookLate(views, sizes, extents, file)
    decreases |sizes|
  {
    hide LateAt;
    if |sizes| > 0 {
      var k := |sizes| - 1;
      var (vs, ss) := (views[..|sizes|], sizes[..k]);
      forall i | 0 <= i < |ss|
        ensures ReadStep(vs[i], vs[i + 1], ss[i], extents, file)
      {
        assert ReadStep(views[i], views[i + 1], sizes[i], extents, file);
      }
      LateIff(vs, ss, extents, file);
      assert ReadStep(views[k], views[k + 1], sizes[k], extents, file);
      if TookLate(vs, ss, extents, file) {
        var i :| 0 <= i < k && ss[i] > 0 && LateAt(vs[i], extents, file);
        assert sizes[i] > 0 && LateAt(views[i], extents, file);
      }
      if TookLate(views, sizes, extents, file) && !(sizes[k] > 0 && LateAt(views[k], extents, file)) {
        var i :| 0 <= i < |sizes| && sizes[i] > 0 && LateAt(views[i], extents, file);
        assert ss[i] > 0 && LateAt(vs[i], extents, file);
      }
    }
  }

  lemma ReadStepsMore(views: seq<View>, sizes: seq<nat>, extents: seq<Extent>, file: SourceFile, v: View, size: nat)
    requires |views| == |sizes| + 1 && ReadSteps(views, sizes, extents, file)
    requires ReadStep(views[|sizes|], v, size, extents, file)
    ensures ReadSteps(views + [v], sizes + [size], extents, file)
  {
    hide ReadStep;
    var (vs, ss) := (views + [v], sizes + [size]);
    forall i | 0 <= i < |ss|
      ensures ReadStep(vs[i], vs[i + 1], ss[i], extents, file)
    {
      if i < |sizes| {
        assert vs[i] == views[i] && vs[i + 1] == views[i + 1] && ss[i] == sizes[i];
      }
    }
  }

  ghost function First(sizes: nat -> nat, n: nat): (r: seq<nat>)
    ensures |r| == n
  {
    seq(n, i requires 0 <= i < n => sizes(i))
  }

  lemma FirstMore(sizes: nat -> nat, n: nat)
    ensures First(sizes, n + 1) == First(sizes, n) + [sizes(n)]
  {
  }

  lemma NoSteps(v: View, sizes: nat -> nat, extents: seq<Extent>, file: SourceFile)
    ensures First(sizes, 0) == [] && ReadSteps([v], [], extents, file)
  {
  }

  lemma StepReport(v: View, w: View, size: nat, extents: seq<Extent>, file: SourceFile)
    requires ReadStep(v, w, size, extents, file)
    ensures Shortfall(v.ledger) > 0 ==> Shortfall(w.ledger) > 0
  {
  }

  // A read into a buffer of its own.
  method ReadSome(reader: SparseExtentReader, size: nat, ghost c: seq<byte>) returns (r: Option<seq<byte>>)
    requires reader.Valid()
    modifies reader, reader.file, reader.report
    ensures reader.Valid() && (reader.file.ReadsWork() ==> r.Some?)
    ensures r.Some? ==> |r.value| == Min(size, Sum(old(reader.Todo())))
    ensures r.Some? ==> reader.Todo() == Advance(old(reader.Todo()), |r.value|)
    ensures r.Some? ==> ReadStep(old(reader.Now()), reader.Now(), size, reader.extents, reader.file)
    ensures r.Some? ==>
              (reader.report.incomplete <==>
               old(reader.report.incomplete) || (Shortfall(reader.ledger) > 0 && Shortfall(old(reader.ledger)) == 0))
    ensures r.Some? ==> forall notes :: old(reader.report.notes) == old(reader.NotesSince(notes)) ==>
                                          reader.report.notes == reader.NotesSince(notes)
    ensures r == Some([]) && size > 0 ==> reader.validated
    ensures r.Some? && reader.file.Fixed(c) && old(reader.Tracks(c)) ==>
              reader.Tracks(c) && r.value == Stream(old(reader.Todo()), c)[..|r.value|]
  {
    hide Sum, Stream, Advance, InStep, Balanced, SparseExtentReader.Shape, SparseExtentReader.Todo,
      SourceFile.ReadsWork, SourceFile.Fixed, Lost, Shortfall, SparseExtentReader.WithNote,
      SparseExtentReader.SeekFails, SparseExtentReader.ByteReady, Filled, TakesAt;
    ghost var l := reader.ledger;
    reader.Unreported();
    var buffer := new byte[size];
    var n := reader.Read(buffer, c);
    SameReported(l, reader.ledger);
    r := if n.None? then None else Some(buffer[..n.value]);
  }

  // Reads until nothing more comes, with non-empty buffers of any sizes: exactly the promised bytes arrive. A shortfall
  // reported is the zeros substituted plus the bytes the file still gave after the report, and a change without one is
  // reported exactly if the identity check failed. Against a fixed file whose seeks succeed, nothing is late.
  method DrainSparse(reader: SparseExtentReader, sizes: nat -> nat, ghost c: seq<byte>)
    returns (r: Option<seq<byte>>, ghost views: seq<View>)
    requires reader.Valid() && reader.ledger == BLANK && forall t: nat :: sizes(t) > 0
    modifies reader, reader.file, reader.report
    ensures reader.Valid() && (reader.file.ReadsWork() ==> r.Some?)
    ensures r.Some? ==> |r.value| == Sum(old(reader.Todo())) && Sum(reader.Todo()) == 0 && reader.validated
    ensures r.Some? ==> Settled(reader.ledger, reader.file.sameIdentity)
    ensures r.Some? ==> |views| > 0 && views[0] == old(reader.Now()) && views[|views| - 1] == reader.Now()
    ensures r.Some? ==> ReadSteps(views, First(sizes, |views| - 1), reader.extents, reader.file)
    ensures r.Some? ==> (Shortfall(reader.ledger) == reader.ledger.substituted <==>
                         !TookLate(views, First(sizes, |views| - 1), reader.extents, reader.file))
    ensures r.Some? ==> reader.report.incomplete == (old(reader.report.incomplete) || Shortfall(reader.ledger) > 0)
    ensures r.Some? ==> reader.report.notes == reader.NotesSince(old(reader.report.notes))
    ensures r.Some? && reader.file.Fixed(c) && old(reader.Tracks(c)) ==>
              && r.value == Stream(old(reader.Todo()), c)
              && reader.ledger.substituted == Lost(reader.extents, |c|) == Shortfall(reader.ledger)
  {
    hide Sum, Stream, Advance, PastEnd, InStep, Balanced, Settled, SparseExtentReader.Shape, SparseExtentReader.Todo,
      SourceFile.Fixed, SourceFile.ReadsWork, Lost, Shortfall, SparseExtentReader.NotesSince, ReadStep, ReadSteps,
      TookLate, First;
    ghost var before := reader.Todo();
    ghost var fixed := reader.file.Fixed(c) && reader.Tracks(c);
    var bytes: seq<byte> := [];
    var turn: nat := 0;
    views := [reader.Now()];
    AdvanceNone(before);
    reader.TodoShape();
    BlankShortfall();
    reader.NoNotes(reader.report.notes);
    NoSteps(reader.Now(), sizes, reader.extents, reader.file);
    while true
      invariant reader.Valid() && |bytes| <= Sum(before) && reader.Todo() == Advance(before, |bytes|)
      invariant |views| == turn + 1 && views[0] == old(reader.Now()) && views[turn] == reader.Now()
      invariant ReadSteps(views, First(sizes, turn), reader.extents, reader.file)
      invariant reader.report.incomplete == (old(reader.report.incomplete) || Shortfall(reader.ledger) > 0)
      invariant reader.report.notes == reader.NotesSince(old(reader.report.notes))
      invariant fixed ==> reader.Tracks(c) && bytes == Stream(before, c)[..|bytes|]
      decreases Sum(before) - |bytes|
    {
      AdvanceStream(before, |bytes|, c);
      var chunk := ReadSome(reader, sizes(turn), c);
      if chunk.None? {
        return None, views;
      }
      StepReport(views[turn], reader.Now(), sizes(turn), reader.extents, reader.file);
      ReadStepsMore(views, First(sizes, turn), reader.extents, reader.file, reader.Now(), sizes(turn));
      FirstMore(sizes, turn);
      AdvanceTwice(before, |bytes|, |chunk.value|);
      StreamGrow(before, c, |bytes|, |chunk.value|);
      bytes, views, turn := bytes + chunk.value, views + [reader.Now()], turn + 1;
      if chunk.value == [] {
        AdvanceStream(before, |bytes|, c);
        assert |bytes| == Sum(before);
        reader.Finished();
        reader.Account();
        LateIff(views, First(sizes, turn), reader.extents, reader.file);
        if fixed {
          StepEnd(reader.Todo(), reader.remaining > 0, reader.file.pos, reader.validated, reader.ledger,
                  reader.file.sameIdentity, c, Lost(reader.extents, |c|));
        }
        return Some(bytes), views;
      }
    }
  }

  // Each view stands where the bytes delivered before it put the cursor.
  ghost predicate InOrder(views: seq<View>, extents: seq<Extent>, before: seq<Extent>, chunks: seq<seq<byte>>)
    requires |views| == |chunks| + 1
  {
    forall i :: 0 <= i < |views| ==>
      && Sensible(views[i], extents) && |Flatten(chunks[..i])| <= Sum(before)
      && From(extents, views[i].index, views[i].remaining) == Advance(before, |Flatten(chunks[..i])|)
  }

  lemma InOrderStep(views: seq<View>, extents: seq<Extent>, before: seq<Extent>, chunks: seq<seq<byte>>, v: View,
                    chunk: seq<byte>)
    requires |views| == |chunks| + 1 && InOrder(views, extents, before, chunks)
    requires Sensible(v, extents) && |Flatten(chunks + [chunk])| <= Sum(before)
    requires From(extents, v.index, v.remaining) == Advance(before, |Flatten(chunks + [chunk])|)
    ensures InOrder(views + [v], extents, before, chunks + [chunk])
  {
    hide Flatten, From, Advance, Sum;
    var (vs, cs) := (views + [v], chunks + [chunk]);
    forall i | 0 <= i < |vs|
      ensures Sensible(vs[i], extents) && |Flatten(cs[..i])| <= Sum(before)
      ensures From(extents, vs[i].index, vs[i].remaining) == Advance(before, |Flatten(cs[..i])|)
    {
      if i < |views| {
        assert cs[..i] == chunks[..i] && vs[i] == views[i];
      } else {
        assert cs[..i] == cs;
      }
    }
  }

  // Any buffers at all, any file and any failures of its seeks. When all is delivered the report states the zeros
  // substituted if and only if no non-empty read after the report began where it would take a byte from the file.
  method RunSparse(reader: SparseExtentReader, sizes: seq<nat>)
    returns (r: Option<seq<seq<byte>>>, ghost views: seq<View>)
    requires reader.Valid() && reader.ledger == BLANK
    modifies reader, reader.file, reader.report
    ensures reader.Valid() && (reader.file.ReadsWork() ==> r.Some?)
    ensures r.Some? ==> |r.value| == |sizes| && |views| == |sizes| + 1
    ensures r.Some? ==> views[0] == old(reader.Now()) && views[|sizes|] == reader.Now()
    ensures r.Some? ==> ReadSteps(views, sizes, reader.extents, reader.file)
    ensures r.Some? ==> InOrder(views, reader.extents, old(reader.Todo()), r.value)
    ensures r.Some? && Sum(reader.Todo()) == 0 ==>
              (Shortfall(reader.ledger) == reader.ledger.substituted <==>
               !TookLate(views, sizes, reader.extents, reader.file))
  {
    hide Sum, Advance, Balanced, SparseExtentReader.Shape, SparseExtentReader.Todo, SourceFile.ReadsWork, Shortfall,
      InOrder, ReadSteps, ReadStep, TookLate, Flatten, Sensible, Positive;
    var chunks: seq<seq<byte>> := [];
    ghost var before := reader.Todo();
    views := [reader.Now()];
    RunStarts(reader);
    for i := 0 to |sizes|
      invariant reader.Valid() && |chunks| == i && |views| == i + 1
      invariant views[0] == old(reader.Now()) && views[i] == reader.Now()
      invariant |Flatten(chunks)| <= Sum(before) && reader.Todo() == Advance(before, |Flatten(chunks)|)
      invariant InOrder(views, reader.extents, before, chunks)
      invariant ReadSteps(views, sizes[..i], reader.extents, reader.file)
    {
      var chunk := ReadSome(reader, sizes[i], []);
      if chunk.None? {
        return None, views;
      }
      reader.Positions(before, |Flatten(chunks)|, |chunk.value|);
      FlattenAppend(chunks, chunk.value);
      InOrderStep(views, reader.extents, before, chunks, reader.Now(), chunk.value);
      ReadStepsMore(views, sizes[..i], reader.extents, reader.file, reader.Now(), sizes[i]);
      assert sizes[..i + 1] == sizes[..i] + [sizes[i]];
      chunks, views := chunks + [chunk.value], views + [reader.Now()];
    }
    assert sizes[..|sizes|] == sizes;
    LateIff(views, sizes, reader.extents, reader.file);
    if Sum(reader.Todo()) == 0 {
      reader.Account();
    }
    return Some(chunks), views;
  }

  lemma RunStarts(reader: SparseExtentReader)
    requires reader.Valid() && reader.ledger == BLANK
    ensures Flatten([]) == [] && Positive(reader.Todo()) && Advance(reader.Todo(), 0) == reader.Todo()
    ensures InOrder([reader.Now()], reader.extents, reader.Todo(), [])
    ensures ReadSteps([reader.Now()], [], reader.extents, reader.file)
  {
    reader.TodoShape();
    AdvanceNone(reader.Todo());
  }

  // A seek fails and a second read follows. The first pads and reports all that is owed; the second delivers bytes of
  // the file instead of zeros if and only if it begins where it would take one, and then fewer are substituted than
  // were reported. Within the extent those are the bytes where the file was left.
  method FailedSeekThenRead(reader: SparseExtentReader, pad: array<byte>, next: array<byte>)
    returns (r: Option<nat>, ghost between: View)
    requires reader.Valid() && !reader.validated && reader.SeekFails()
    requires pad != next && 0 < pad.Length && 0 < next.Length
    modifies reader, reader.file, reader.report, pad, next
    ensures reader.Valid() && (reader.file.ReadsWork() ==> r.Some?)
    ensures forall k :: 0 <= k < Min(pad.Length, old(Sum(reader.Todo()))) ==> pad[k] == 0
    ensures between.calls == old(reader.file.calls) + 1 && between.pos == old(reader.file.pos)
    ensures Sensible(between, reader.extents)
    ensures between.remaining > 0 ==> between.remaining < reader.extents[between.index].length
    ensures From(reader.extents, between.index, between.remaining)
         == Advance(old(reader.Todo()), Min(pad.Length, old(Sum(reader.Todo()))))
    ensures r.Some? ==> Shortfall(reader.ledger) == old(Sum(reader.Todo()))
    ensures r.Some? ==> (reader.ledger.late > 0 <==> TakesAt(between, reader.extents, reader.file))
    ensures r.Some? ==>
              (reader.ledger.substituted + Sum(reader.Todo()) < Shortfall(reader.ledger) <==>
               TakesAt(between, reader.extents, reader.file))
    ensures pad.Length < reader.extents[old(reader.index)].length ==> between.remaining > 0
    ensures r.Some? && between.remaining > 0 && TakesAt(between, reader.extents, reader.file) ==>
              next[0] == reader.file.content(between.calls)[between.pos]
  {
    hide Balanced, InStep, Stream, Advance, Sum, From, SparseExtentReader.Todo, SparseExtentReader.Shape, Settled,
      SparseExtentReader.WithNote;
    reader.Unreported();
    reader.ExtentOwed();
    var n := reader.Read(pad, []);
    reader.Located();
    reader.Told();
    between := reader.Now();
    r := reader.Read(next, []);
    if r.Some? {
      reader.Told();
    }
  }

  // One extent of four bytes in a file of eight, the seek to it fails, and the first buffer holds one byte: a zero,
  // then the file's first byte, four bytes reported lost and fewer substituted.
  method StaleExample() returns (first: byte, second: byte, reader: SparseExtentReader)
    ensures first == 0 && second == 1
    ensures reader.Valid() && Sum(reader.extents) == 4
    ensures Shortfall(reader.ledger) == 4 && reader.ledger.substituted < 4
  {
    hide Balanced, InStep, Stream, Advance, Sum, SparseExtentReader.Todo, SparseExtentReader.Shape;
    var file := new SourceFile(_ => [1, 2, 3, 4, 5, 6, 7, 8], _ => 0, t => t != 0, _ => true, _ => true);
    var report := new RunReport((path, declared, padded) => path);
    reader := new SparseExtentReader(file, report, [Extent(0, 4)], "sparse");
    FourBytes();
    var one := new byte[1];
    var three := new byte[3];
    var r, between := FailedSeekThenRead(reader, one, three);
    first, second := one[0], three[0];
  }

  // Two extents, the seek to the first fails, and the buffer ends exactly with it: six bytes are reported lost, and the
  // next read seeks to the second extent and delivers it.
  method BoundaryExample() returns (reader: SparseExtentReader)
    ensures reader.Valid() && reader.extents == [Extent(0, 2), Extent(4, 4)]
    ensures Shortfall(reader.ledger) == 6 && reader.ledger.late > 0 && reader.ledger.substituted < 6
  {
    hide Balanced, InStep, Stream, SparseExtentReader.Todo, SparseExtentReader.Shape, Sensible;
    var file := new SourceFile(_ => [1, 2, 3, 4, 5, 6, 7, 8], _ => 0, t => t != 0, _ => true, _ => true);
    var report := new RunReport((path, declared, padded) => path);
    reader := new SparseExtentReader(file, report, [Extent(0, 2), Extent(4, 4)], "sparse");
    SixBytes();
    var two := new byte[2];
    var four := new byte[4];
    var r, between := FailedSeekThenRead(reader, two, four);
    AtSecond(between);
    reader.Told();
  }

  lemma SixBytes()
    ensures Sum([Extent(0, 2), Extent(4, 4)]) == 6 && Advance([Extent(0, 2), Extent(4, 4)], 2) == [Extent(4, 4)]
  {
    assert [Extent(0, 2), Extent(4, 4)][1..] == [Extent(4, 4)] && [Extent(4, 4)][1..] == [];
  }

  lemma AtSecond(v: View)
    requires Sensible(v, [Extent(0, 2), Extent(4, 4)])
    requires v.remaining > 0 ==> v.remaining < [Extent(0, 2), Extent(4, 4)][v.index].length
    requires From([Extent(0, 2), Extent(4, 4)], v.index, v.remaining) == [Extent(4, 4)]
    ensures v.index == 1 && v.remaining == 0
  {
    var all := From([Extent(0, 2), Extent(4, 4)], v.index, v.remaining);
    assert |all| == 2 - v.index && all[0] == Extent(4, 4);
  }

  lemma FourBytes()
    ensures Sum([Extent(0, 4)]) == 4
  {
    assert [Extent(0, 4)][1..] == [];
  }
}
