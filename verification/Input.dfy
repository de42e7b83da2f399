/** What both input readers work with: the open file, the run's report, and the account of what was delivered. */
module Input {
  import opened Extents
  import opened Format
  import opened Sparse

  function Min(a: nat, b: nat): nat {
    if a < b then a else b
  }

  // The open file: its content, how short each read falls, and which calls fail, by call number.
  class SourceFile {
    const content: nat -> seq<byte>
    const shortness: nat -> nat
    const seekOk: nat -> bool
    const readOk: nat -> bool
    const sameIdentity: nat -> bool
    var calls: nat
    var pos: nat

    constructor (content: nat -> seq<byte>, shortness: nat -> nat, seekOk: nat -> bool, readOk: nat -> bool,
                 sameIdentity: nat -> bool)
      ensures this.content == content && this.shortness == shortness && this.seekOk == seekOk
      ensures this.readOk == readOk && this.sameIdentity == sameIdentity && calls == 0 && pos == 0
    {
      this.content, this.shortness, this.seekOk := content, shortness, seekOk;
      this.readOk, this.sameIdentity, calls, pos := readOk, sameIdentity, 0, 0;
    }

    // The content never changes and seeks succeed.
    ghost predicate Fixed(c: seq<byte>) {
      forall t: nat :: content(t) == c && seekOk(t)
    }

    ghost predicate ReadsWork() {
      forall t: nat :: readOk(t)
    }

    lemma WorksAt(t: nat)
      ensures ReadsWork() ==> readOk(t)
    {
    }

    lemma FixedContent(c: seq<byte>, t: nat)
      ensures Fixed(c) ==> content(t) == c
    {
    }

    lemma FixedSeek(c: seq<byte>, t: nat)
      ensures Fixed(c) ==> seekOk(t)
    {
    }

    method Seek(offset: nat) returns (ok: bool)
      modifies this
      ensures ok == seekOk(old(calls)) && calls == old(calls) + 1 && pos == if ok then offset else old(pos)
    {
      ok := seekOk(calls);
      calls := calls + 1;
      if ok {
        pos := offset;
      }
    }

    // At least one byte unless none is asked for or the file ends; None is an error.
    method Read(count: nat) returns (r: Option<seq<byte>>)
      modifies this
      ensures calls == old(calls) + 1 && (r.Some? <==> readOk(old(calls)))
      ensures ReadsWork() ==> r.Some?
      ensures r.Some? ==> |r.value| <= count && pos == old(pos) + |r.value|
      ensures r.Some? ==> r.value == Slice(content(old(calls)), old(pos), |r.value|)
      ensures r.Some? ==> (r.value == [] <==> count == 0 || old(pos) >= |content(old(calls))|)
      ensures r.Some? && r.value != [] ==> pos <= |content(old(calls))|
    {
      var now := content(calls);
      var ok := readOk(calls);
      var limit := if pos < |now| then Min(count, |now| - pos) else 0;
      var n := if limit == 0 then 0 else 1 + shortness(calls) % limit;
      calls := calls + 1;
      if !ok {
        return None;
      }
      r := Some(Slice(now, pos, n));
      pos := pos + n;
    }

    method IdentityUnchanged() returns (ok: bool)
      modifies this`calls
      ensures ok == sameIdentity(old(calls)) && calls == old(calls) + 1
    {
      ok := sameIdentity(calls);
      calls := calls + 1;
    }
  }

  // Each note is listed once.
  function Noted(notes: seq<string>, note: string): seq<string> {
    if note in notes then notes else notes + [note]
  }

  // What the run reports at its end.
  class RunReport {
    const render: (string, nat, nat) -> string
    var incomplete: bool
    var notes: seq<string>

    constructor (render: (string, nat, nat) -> string)
      ensures this.render == render && !incomplete && notes == []
    {
      this.render, incomplete, notes := render, false, [];
    }

    method RecordChanged(path: string, declared: nat, padded: nat)
      modifies this
      ensures incomplete == (old(incomplete) || padded > 0)
      ensures notes == Noted(old(notes), render(path, declared, padded))
    {
      if padded > 0 {
        incomplete := true;
      }
      var note := render(path, declared, padded);
      if note !in notes {
        notes := notes + [note];
      }
    }
  }

  method SumFrom(extents: seq<Extent>, from: nat) returns (n: nat)
    requires from <= |extents|
    ensures n == Sum(extents[from..])
  {
    n := 0;
    for i := from to |extents|
      invariant n + Sum(extents[i..]) == Sum(extents[from..])
    {
      assert extents[i..][1..] == extents[i + 1..];
      n := n + extents[i].length;
    }
  }

  lemma {:induction false} FlattenAppend(chunks: seq<seq<byte>>, chunk: seq<byte>)
    ensures Flatten(chunks + [chunk]) == Flatten(chunks) + chunk
  {
    if chunks == [] {
      assert (chunks + [chunk])[1..] == [];
    } else {
      FlattenAppend(chunks[1..], chunk);
      assert (chunks + [chunk])[1..] == chunks[1..] + [chunk];
    }
  }

  // ---------- the account of one reader ----------

  // The shortfall reported, if any; the zeros supplied; the bytes taken from the file after the report;
  // and the number of the call that checked the file's identity.
  datatype Ledger = Ledger(reported: seq<nat>, substituted: nat, late: nat, checked: Option<nat>)

  const BLANK := Ledger([], 0, 0, None)

  function Shortfall(l: Ledger): nat {
    if |l.reported| == 1 then l.reported[0] else 0
  }

  // A reported shortfall is made up of the zeros, the late bytes and what is still owed. Without one the identity
  // was checked when nothing was owed any more, and a change reported exactly if that check failed.
  ghost predicate Balanced(owed: nat, v: bool, l: Ledger, same: nat -> bool) {
    && |l.reported| <= 1 && (!v ==> l.reported == [] && l.checked == None)
    && (Shortfall(l) == 0 ==> l.substituted == 0 && l.late == 0)
    && (v && Shortfall(l) == 0 ==> owed == 0 && l.checked.Some? && (l.reported == [] <==> same(l.checked.value)))
    && (Shortfall(l) > 0 ==> l.checked == None && Shortfall(l) == l.substituted + l.late + owed)
  }

  // The account of a finished run. The report states the zeros substituted exactly if no byte came late.
  ghost predicate Settled(l: Ledger, same: nat -> bool) {
    && Shortfall(l) == l.substituted + l.late
    && (Shortfall(l) == l.substituted <==> l.late == 0)
    && (l.checked.Some? <==> Shortfall(l) == 0)
    && (l.checked.Some? ==> l.reported == if same(l.checked.value) then [] else [0])
  }

  function Copied(l: Ledger, m: nat): Ledger {
    if Shortfall(l) > 0 then l.(late := l.late + m) else l
  }

  function Filled(v: bool, l: Ledger, shortfall: nat, n: nat): Ledger {
    l.(reported := if v then l.reported else [shortfall], substituted := l.substituted + n)
  }

  function Checked(v: bool, l: Ledger, call: nat, same: nat -> bool): Ledger {
    if v then l else l.(reported := if same(call) then [] else [0], checked := Some(call))
  }

  lemma NoneCopied(l: Ledger)
    ensures Copied(l, 0) == l
  {
  }

  lemma CopiedFacts(l: Ledger, n: nat)
    ensures Copied(l, n).reported == l.reported && Shortfall(Copied(l, n)) == Shortfall(l)
    ensures Copied(l, n).late >= l.late && (Copied(l, n).late > l.late <==> n > 0 && Shortfall(l) > 0)
  {
  }

  lemma FilledFacts(v: bool, l: Ledger, owed: nat, n: nat)
    ensures Filled(v, l, owed, n).reported == if v then l.reported else [owed]
    ensures Filled(v, l, owed, n).substituted == l.substituted + n
    ensures Filled(v, l, owed, n).late == l.late
  {
  }

  lemma CopiedTwice(l: Ledger, m: nat, n: nat)
    ensures Copied(Copied(l, m), n) == Copied(l, m + n)
  {
  }

  lemma BlankShortfall()
    ensures Shortfall(BLANK) == 0
  {
  }

  lemma SameReported(l: Ledger, l': Ledger)
    ensures l.reported == l'.reported ==> Shortfall(l) == Shortfall(l')
  {
  }

  lemma SameReport(v: bool, l: Ledger, l': Ledger)
    requires v ==> l'.reported == l.reported
    requires !v ==> Shortfall(l) == 0
    ensures Shortfall(l) > 0 ==> Shortfall(l') > 0
  {
  }

  lemma BalancedCopy(owed: nat, v: bool, l: Ledger, same: nat -> bool, m: nat)
    requires Balanced(owed, v, l, same) && 0 < m <= owed
    ensures Balanced(owed - m, v, Copied(l, m), same)
  {
  }

  lemma BalancedFill(owed: nat, v: bool, l: Ledger, same: nat -> bool, n: nat)
    requires Balanced(owed, v, l, same) && 0 < owed && n <= owed
    ensures Balanced(owed - n, true, Filled(v, l, owed, n), same) && Shortfall(Filled(v, l, owed, n)) > 0
  {
  }

  lemma BalancedCheck(v: bool, l: Ledger, same: nat -> bool, call: nat)
    requires Balanced(0, v, l, same)
    ensures Balanced(0, true, Checked(v, l, call, same), same)
  {
  }

  // ---------- against a file that does not change ----------

  // The file position is where the next byte is, or the rest lies past the end of the file.
  ghost predicate InPlace(todo: seq<Extent>, started: bool, pos: nat, substituted: nat, c: seq<byte>, lost: nat) {
    && substituted + Lost(todo, |c|) == lost
    && (started ==> todo != [] && (pos == todo[0].offset || (|c| <= pos && PastEnd(todo, c))))
  }

  // In addition nothing is reported before the end of the file, so nothing is late.
  ghost predicate InStep(todo: seq<Extent>, started: bool, pos: nat, l: Ledger, c: seq<byte>, lost: nat) {
    InPlace(todo, started, pos, l.substituted, c, lost) && l.late == 0 && (Shortfall(l) > 0 ==> PastEnd(todo, c))
  }

  lemma PlaceEnter(todo: seq<Extent>, pos: nat, l: Ledger, c: seq<byte>, lost: nat)
    requires InStep(todo, false, pos, l, c, lost) && todo != []
    ensures InStep(todo, true, todo[0].offset, l, c, lost)
  {
  }

  lemma PlaceRead(todo: seq<Extent>, pos: nat, sub: nat, c: seq<byte>, lost: nat, m: nat)
    requires InPlace(todo, true, pos, sub, c, lost) && pos < |c| && 0 < m <= todo[0].length && pos + m <= |c|
    ensures pos == todo[0].offset && m <= Sum(todo)
    ensures InPlace(Advance(todo, m), m < todo[0].length, pos + m, sub, c, lost)
  {
    AdvanceFirst(todo, m);
    LostRead(todo, m, |c|);
  }

  lemma StepRead(todo: seq<Extent>, pos: nat, l: Ledger, c: seq<byte>, lost: nat, m: nat)
    requires InStep(todo, true, pos, l, c, lost) && pos < |c| && 0 < m <= todo[0].length && pos + m <= |c|
    ensures pos == todo[0].offset && m <= Sum(todo) && Copied(l, m) == l
    ensures InStep(Advance(todo, m), m < todo[0].length, pos + m, l, c, lost)
  {
    hide Advance, Lost, Sum;
    PlaceRead(todo, pos, l.substituted, c, lost, m);
    PastEndFirst(todo, c);
  }

  lemma PlaceEof(todo: seq<Extent>, pos: nat, sub: nat, c: seq<byte>, lost: nat)
    requires InPlace(todo, true, pos, sub, c, lost) && |c| <= pos && Ordered(todo)
    ensures PastEnd(todo, c)
  {
    if pos == todo[0].offset {
      PastEndOrdered(todo, c);
    }
  }

  lemma PlacePad(todo: seq<Extent>, pos: nat, sub: nat, c: seq<byte>, lost: nat, n: nat, started: bool)
    requires InPlace(todo, true, pos, sub, c, lost) && |c| <= pos && PastEnd(todo, c) && n <= Sum(todo)
    requires started ==> Advance(todo, n) != []
    ensures InPlace(Advance(todo, n), started, pos, sub + n, c, lost) && PastEnd(Advance(todo, n), c)
  {
    AdvanceStream(todo, n, c);
    PastEndAdvance(todo, n, c);
    LostAll(todo, c);
    LostAll(Advance(todo, n), c);
  }

  lemma StepPad(todo: seq<Extent>, pos: nat, v: bool, l: Ledger, c: seq<byte>, lost: nat, n: nat, started: bool)
    requires InStep(todo, true, pos, l, c, lost) && |c| <= pos && PastEnd(todo, c) && n <= Sum(todo)
    requires started ==> Advance(todo, n) != []
    ensures InStep(Advance(todo, n), started, pos, Filled(v, l, Sum(todo), n), c, lost)
  {
    hide Advance, Lost, Sum;
    PlacePad(todo, pos, l.substituted, c, lost, n, started);
  }

  lemma StepCheck(todo: seq<Extent>, pos: nat, v: bool, l: Ledger, c: seq<byte>, lost: nat, call: nat,
                  same: nat -> bool)
    requires InStep(todo, false, pos, l, c, lost)
    ensures InStep(todo, false, pos, Checked(v, l, call, same), c, lost)
  {
  }

  lemma {:induction false} LostBound(todo: seq<Extent>, end: nat)
    ensures Lost(todo, end) <= Sum(todo)
  {
    if |todo| != 0 {
      LostBound(todo[1..], end);
    }
  }

  // At the end of a run: what was substituted, and that the report states it.
  lemma StepEnd(todo: seq<Extent>, started: bool, pos: nat, v: bool, l: Ledger, same: nat -> bool,
                c: seq<byte>, lost: nat)
    requires InStep(todo, started, pos, l, c, lost) && Sum(todo) == 0 && Balanced(0, v, l, same)
    ensures l.substituted == lost && Shortfall(l) == lost
    ensures if lost > 0 then l.reported == [lost] else l.reported == [] || l.reported == [0]
  {
    LostBound(todo, |c|);
  }

  lemma ZeroSlice(c: seq<byte>, offset: nat, n: nat)
    requires |c| <= offset
    ensures forall k :: 0 <= k < n ==> Slice(c, offset, n)[k] == 0
  {
    forall k | 0 <= k < n ensures Slice(c, offset, n)[k] == 0 {
      assert Slice(c, offset, n)[k] == ByteAt(c, offset + k);
    }
  }

  lemma OrderedSingle(todo: seq<Extent>)
    requires |todo| == 1
    ensures Ordered(todo)
  {
  }

  lemma SingleAdvance(e: Extent, n: nat)
    requires 0 < n <= e.length
    ensures Sum([e]) == e.length
    ensures Advance([e], n) == if n == e.length then [] else [Extent(e.offset + n, e.length - n)]
  {
    assert [e][1..] == [];
  }

  lemma AdvanceHead(todo: seq<Extent>, m: nat)
    requires todo != [] && 0 < m <= todo[0].length
    ensures m <= Sum(todo)
    ensures Advance(todo, m) ==
            if m < todo[0].length then [Extent(todo[0].offset + m, todo[0].length - m)] + todo[1..] else todo[1..]
  {
  }

  lemma AdvanceFirst(todo: seq<Extent>, m: nat)
    requires todo != [] && 0 < m <= todo[0].length
    ensures m <= Sum(todo)
    ensures m < todo[0].length ==> Advance(todo, m) != [] && Advance(todo, m)[0].offset == todo[0].offset + m
  {
  }

  lemma PastEndFirst(todo: seq<Extent>, c: seq<byte>)
    requires todo != []
    ensures PastEnd(todo, c) ==> |c| <= todo[0].offset
  {
  }

  lemma AdvanceNone(todo: seq<Extent>)
    ensures 0 <= Sum(todo) && Advance(todo, 0) == todo
  {
  }
}
