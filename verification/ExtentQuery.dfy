/** Asking Linux which byte ranges of a sparse file hold data. */
module ExtentQuery {
  import opened Extents
  import opened Input
  import opened Sparse

  const OFF_T_MAX := 0x7fff_ffff_ffff_ffff

  // The answer of one `lseek`.
  datatype Seek = At(offset: nat) | NoMoreData | Unsupported | Failed

  datatype Query = Extents(extents: seq<Extent>) | Dense | QueryError

  // The two seeks describe which bytes of a file of this size lie in data regions.
  ghost predicate Faithful(isData: nat -> bool, size: nat, seekData: nat -> Seek, seekHole: nat -> Seek) {
    && (forall i: nat :: isData(i) ==> i < size)
    && (forall c: nat :: DataFrom(isData, c, seekData(c)))
    && (forall c: nat :: HoleFrom(isData, c, seekHole(c)))
  }

  ghost predicate DataFrom(isData: nat -> bool, c: nat, s: Seek) {
    match s
    case At(offset) => c <= offset && isData(offset) && forall i: nat :: c <= i < offset ==> !isData(i)
    case NoMoreData => forall i: nat :: c <= i ==> !isData(i)
    case _ => false
  }

  ghost predicate HoleFrom(isData: nat -> bool, c: nat, s: Seek) {
    s.At? && c <= s.offset && !isData(s.offset) && forall i: nat :: c <= i < s.offset ==> isData(i)
  }

  ghost predicate Covered(extents: seq<Extent>, i: nat) {
    exists k :: 0 <= k < |extents| && extents[k].offset <= i < extents[k].offset + extents[k].length
  }

  // The extents found so far hold exactly the data bytes below the cursor.
  ghost predicate Mapped(extents: seq<Extent>, isData: nat -> bool, cursor: nat, holes: nat) {
    && (forall i: nat :: i < cursor ==> (Covered(extents, i) <==> isData(i)))
    && (forall i: nat :: cursor <= i ==> !Covered(extents, i))
    && Sum(extents) + holes == cursor
    && (holes > 0 <==> exists i: nat :: i < cursor && !isData(i))
  }

  lemma {:induction false} SumAppend(extents: seq<Extent>, e: Extent)
    ensures Sum(extents + [e]) == Sum(extents) + e.length
  {
    if extents != [] {
      SumAppend(extents[1..], e);
      assert (extents + [e])[1..] == extents[1..] + [e];
    }
  }

  lemma CoveredAppend(extents: seq<Extent>, e: Extent, i: nat)
    ensures Covered(extents + [e], i) <==> Covered(extents, i) || e.offset <= i < e.offset + e.length
  {
    var more := extents + [e];
    assert more[|extents|] == e;
    if Covered(extents, i) {
      var k :| 0 <= k < |extents| && extents[k].offset <= i < extents[k].offset + extents[k].length;
      assert more[k] == extents[k];
    }
  }

  lemma MappedStep(extents: seq<Extent>, isData: nat -> bool, cursor: nat, holes: nat, data: nat, end: nat)
    requires Mapped(extents, isData, cursor, holes) && cursor <= data < end
    requires forall i: nat :: cursor <= i < data ==> !isData(i)
    requires forall i: nat :: data <= i < end ==> isData(i)
    ensures Mapped(extents + [Extent(data, end - data)], isData, end, holes + (data - cursor))
  {
    hide Sum, Covered;
    var e := Extent(data, end - data);
    SumAppend(extents, e);
    forall i: nat
      ensures Covered(extents + [e], i) <==> Covered(extents, i) || data <= i < end
    {
      CoveredAppend(extents, e, i);
    }
    if data > cursor {
      assert !isData(cursor);
    }
  }

  // ---------- the answers a run meets ----------

  function After(extents: seq<Extent>): nat {
    if extents == [] then 0 else extents[|extents| - 1].offset + extents[|extents| - 1].length
  }

  // At this position SEEK_DATA finds the extent's start and SEEK_HOLE its end, which the file's size may cut off.
  ghost predicate Link(cursor: nat, e: Extent, size: nat, seekData: nat -> Seek, seekHole: nat -> Seek) {
    && cursor < size && seekData(cursor) == At(e.offset) && seekHole(e.offset).At?
    && e.length > 0 && e.offset + e.length == Min(seekHole(e.offset).offset, size)
  }

  ghost predicate Chain(extents: seq<Extent>, size: nat, seekData: nat -> Seek, seekHole: nat -> Seek) {
    forall k :: 0 <= k < |extents| ==> Link(After(extents[..k]), extents[k], size, seekData, seekHole)
  }

  // Three ways to go no further.
  ghost predicate Finished(cursor: nat, size: nat, seekData: nat -> Seek) {
    cursor >= size || seekData(cursor).NoMoreData?
  }

  ghost predicate NotSupported(cursor: nat, size: nat, seekData: nat -> Seek) {
    cursor == 0 < size && seekData(0).Unsupported?
  }

  ghost predicate Trouble(cursor: nat, size: nat, seekData: nat -> Seek, seekHole: nat -> Seek) {
    cursor < size &&
    match seekData(cursor)
    case At(offset) => !seekHole(offset).At? || seekHole(offset).offset <= offset || size <= offset
    case NoMoreData => false
    case Unsupported => cursor > 0
    case Failed => true
  }

  ghost predicate Stopped(cursor: nat, size: nat, seekData: nat -> Seek, seekHole: nat -> Seek) {
    || Finished(cursor, size, seekData) || NotSupported(cursor, size, seekData)
    || Trouble(cursor, size, seekData, seekHole)
  }

  // A run goes on exactly if it has not stopped, and in one way only.
  lemma StoppedIff(cursor: nat, size: nat, seekData: nat -> Seek, seekHole: nat -> Seek)
    ensures Stopped(cursor, size, seekData, seekHole) <==> forall e :: !Link(cursor, e, size, seekData, seekHole)
    ensures forall e, f ::
              Link(cursor, e, size, seekData, seekHole) && Link(cursor, f, size, seekData, seekHole) ==> e == f
  {
    if !Stopped(cursor, size, seekData, seekHole) {
      var offset := seekData(cursor).offset;
      assert Link(cursor, Extent(offset, Min(seekHole(offset).offset, size) - offset), size, seekData, seekHole);
    }
  }

  // So there is one run.
  lemma OneRun(a: seq<Extent>, b: seq<Extent>, size: nat, seekData: nat -> Seek, seekHole: nat -> Seek)
    requires Chain(a, size, seekData, seekHole) && Stopped(After(a), size, seekData, seekHole)
    requires Chain(b, size, seekData, seekHole) && Stopped(After(b), size, seekData, seekHole)
    ensures a == b
  {
    hide Link, Stopped, After;
    var n := Min(|a|, |b|);
    SameStart(a, b, n, size, seekData, seekHole);
    if n < |a| {
      assert Link(After(a[..n]), a[n], size, seekData, seekHole) && b[..n] == b;
      StoppedIff(After(b), size, seekData, seekHole);
    }
    if n < |b| {
      assert Link(After(b[..n]), b[n], size, seekData, seekHole) && a[..n] == a;
      StoppedIff(After(a), size, seekData, seekHole);
    }
    assert a[..n] == a && b[..n] == b;
  }

  lemma {:induction false} SameStart(a: seq<Extent>, b: seq<Extent>, n: nat, size: nat, seekData: nat -> Seek,
                                     seekHole: nat -> Seek)
    requires Chain(a, size, seekData, seekHole) && Chain(b, size, seekData, seekHole) && n <= |a| && n <= |b|
    ensures a[..n] == b[..n]
  {
    hide Link, After;
    if n > 0 {
      SameStart(a, b, n - 1, size, seekData, seekHole);
      assert Link(After(a[..n - 1]), a[n - 1], size, seekData, seekHole);
      assert Link(After(b[..n - 1]), b[n - 1], size, seekData, seekHole);
      StoppedIff(After(a[..n - 1]), size, seekData, seekHole);
      assert a[..n] == a[..n - 1] + [a[n - 1]] && b[..n] == b[..n - 1] + [b[n - 1]];
    }
  }

  lemma ChainMore(extents: seq<Extent>, e: Extent, size: nat, seekData: nat -> Seek, seekHole: nat -> Seek)
    requires Chain(extents, size, seekData, seekHole) && Link(After(extents), e, size, seekData, seekHole)
    ensures Chain(extents + [e], size, seekData, seekHole) && After(extents + [e]) == e.offset + e.length
  {
    hide Link;
    var all := extents + [e];
    forall k | 0 <= k < |all|
      ensures Link(After(all[..k]), all[k], size, seekData, seekHole)
    {
      if k < |extents| {
        assert all[..k] == extents[..k];
      } else {
        assert all[..k] == extents;
      }
    }
  }

  // Dense if every byte is data; otherwise the extents hold exactly the data bytes. Whatever the seeks answer, the run
  // is the one they determine, and how it stops decides.
  method QueryLinuxSparseExtents(logicalSize: nat, seekData: nat -> Seek, seekHole: nat -> Seek,
                                 ghost isData: nat -> bool)
    returns (r: Query, ghost found: seq<Extent>)
    // SEEK_DATA never goes back
    requires forall c: nat :: seekData(c).At? ==> c <= seekData(c).offset
    ensures r.Extents? ==> Positive(r.extents) && Ordered(r.extents) && Sum(r.extents) < logicalSize
    ensures r.Extents? ==> forall i :: 0 <= i < |r.extents| ==> r.extents[i].offset + r.extents[i].length <= logicalSize
    ensures logicalSize == 0 ==> r.Dense?
    ensures logicalSize > 9223372036854775807 ==> r.QueryError?
    ensures 0 < logicalSize <= 9223372036854775807 ==>
              && Chain(found, logicalSize, seekData, seekHole) && Stopped(After(found), logicalSize, seekData, seekHole)
              && (r.QueryError? <==> Trouble(After(found), logicalSize, seekData, seekHole))
              && (r.Extents? <==> Finished(After(found), logicalSize, seekData) && Sum(found) < logicalSize)
              && (r.Extents? ==> r.extents == found)
              && (NotSupported(After(found), logicalSize, seekData) ==> r.Dense?)
    ensures 0 < logicalSize <= 9223372036854775807 && seekData(0).Unsupported? ==> r.Dense?
    ensures 0 < logicalSize && seekData(0).Failed? ==> r.QueryError?
    ensures 0 < logicalSize && seekData(0).At? && !seekHole(seekData(0).offset).At? ==> r.QueryError?
    ensures logicalSize <= 9223372036854775807 && Faithful(isData, logicalSize, seekData, seekHole) ==>
              if forall i: nat :: i < logicalSize ==> isData(i) then r.Dense?
              else r.Extents? && forall i: nat :: i < logicalSize ==> (Covered(r.extents, i) <==> isData(i))
  {
    hide Sum, Covered, Mapped, Chain;
    ghost var faithful := Faithful(isData, logicalSize, seekData, seekHole);
    if logicalSize == 0 {
      return Dense, [];
    }
    if logicalSize > OFF_T_MAX {
      return QueryError, [];
    }
    var cursor: nat := 0;
    var extents: seq<Extent> := [];
    ghost var holes: nat := 0;
    MappedNone(isData);
    NoChain(logicalSize, seekData, seekHole);
    while cursor < logicalSize
      invariant faithful ==> Mapped(extents, isData, cursor, holes)
      invariant cursor <= logicalSize && Positive(extents) && Ordered(extents)
      invariant cursor == After(extents) && Chain(extents, logicalSize, seekData, seekHole)
      invariant cursor > 0 ==> seekData(0).At? && seekHole(seekData(0).offset).At?
      invariant forall i :: 0 <= i < |extents| ==> extents[i].offset + extents[i].length <= cursor
    {
      var data := seekData(cursor);
      if data.NoMoreData? {
        assert faithful ==> DataFrom(isData, cursor, data) && !isData(cursor);
        break;
      }
      if data.Unsupported? && cursor == 0 {
        return Dense, extents;
      }
      if !data.At? {
        return QueryError, extents;
      }
      var hole := seekHole(data.offset);
      if !hole.At? {
        return QueryError, extents;
      }
      var end := Min(hole.offset, logicalSize);
      if end <= data.offset {
        return QueryError, extents;
      }
      if faithful {
        MappedStep(extents, isData, cursor, holes, data.offset, end);
      }
      ChainMore(extents, Extent(data.offset, end - data.offset), logicalSize, seekData, seekHole);
      holes := if faithful then holes + (data.offset - cursor) else 0;
      extents := extents + [Extent(data.offset, end - data.offset)];
      cursor := end;
    }
    if faithful {
      MappedEnd(extents, isData, cursor, holes);
    }
    var stored := SumFrom(extents, 0);
    assert extents[0..] == extents;
    if stored < logicalSize {
      return Extents(extents), extents;
    }
    return Dense, extents;
  }

  lemma NoChain(size: nat, seekData: nat -> Seek, seekHole: nat -> Seek)
    ensures Chain([], size, seekData, seekHole) && After([]) == 0
  {
  }

  lemma MappedNone(isData: nat -> bool)
    ensures Mapped([], isData, 0, 0)
  {
  }

  lemma MappedEnd(extents: seq<Extent>, isData: nat -> bool, cursor: nat, holes: nat)
    requires Mapped(extents, isData, cursor, holes)
    ensures forall i: nat :: i < cursor ==> (Covered(extents, i) <==> isData(i))
    ensures forall i: nat :: cursor <= i ==> !Covered(extents, i)
    ensures Sum(extents) + holes == cursor && (holes > 0 <==> exists i: nat :: i < cursor && !isData(i))
  {
    hide Sum, Covered;
  }
}
