/** The walker over a stream of Windows extended attributes. */
module WindowsEa {
  import opened Format
  import opened Bytes

  // Fields of the record at `c`.
  function Next(p: seq<byte>, c: nat): nat
    requires c + 8 <= |p|
  {
    FromLe(p[c..c + 4])
  }

  function NameLen(p: seq<byte>, c: nat): nat
    requires c + 8 <= |p|
  {
    p[c + 5]
  }

  function RecordLen(p: seq<byte>, c: nat): (n: nat)
    requires c + 8 <= |p|
    ensures n >= 9 + NameLen(p, c)
  {
    8 + NameLen(p, c) + 1 + FromLe(p[c + 6..c + 8])
  }

  // A name without NUL, its terminator, and a value, all inside the payload.
  predicate WellFormed(p: seq<byte>, c: nat) {
    && c + 8 <= |p| && NameLen(p, c) != 0 && c + RecordLen(p, c) <= |p|
    && p[c + 8 + NameLen(p, c)] == 0
    && forall i :: c + 8 <= i < c + 8 + NameLen(p, c) ==> p[i] != 0
  }

  // The record at `c` steps over a zero-filled gap to `d`.
  predicate Steps(p: seq<byte>, c: nat, d: nat) {
    && WellFormed(p, c) && Next(p, c) != 0 && d == c + Next(p, c) && d <= |p|
    && Next(p, c) >= RecordLen(p, c) && Next(p, c) % 4 == 0
    && forall i :: c + RecordLen(p, c) <= i < d ==> p[i] == 0
  }

  // The record at `c` is the last one and fills the payload.
  predicate Ends(p: seq<byte>, c: nat) {
    WellFormed(p, c) && ((Next(p, c) == 0 && c + RecordLen(p, c) == |p|) || Steps(p, c, |p|))
  }

  // The payload from `c` on is a chain of records starting at the given offsets.
  ghost predicate Tiling(p: seq<byte>, c: nat, starts: seq<nat>) {
    && starts != [] && starts[0] == c && Ends(p, starts[|starts| - 1])
    && forall i :: 0 <= i < |starts| - 1 ==> Steps(p, starts[i], starts[i + 1])
  }

  function Walk(p: seq<byte>, c: nat): Result<()>
    decreases |p| - c
  {
    if c >= |p| then Ok(())
    else if c + 8 > |p| then Err(InvalidArchive("EA record header is truncated"))
    else if !WellFormed(p, c) then Invalid("WindowsEaStream", "EA record is malformed")
    else if Next(p, c) == 0 then
      if c + RecordLen(p, c) != |p| then Invalid("WindowsEaStream", "EA stream has trailing bytes") else Ok(())
    else if Next(p, c) < RecordLen(p, c) || Next(p, c) % 4 != 0 || c + Next(p, c) > |p| then
      Invalid("WindowsEaStream", "EA next-entry offset is invalid")
    else if exists i :: c + RecordLen(p, c) <= i < c + Next(p, c) && p[i] != 0 then
      Invalid("WindowsEaStream", "EA alignment padding is non-zero")
    else Walk(p, c + Next(p, c))
  }

  method ValidateWindowsEaStream(p: seq<byte>) returns (r: Result<()>)
    ensures p == [] ==> r == Invalid("WindowsEaStream", "EA stream is empty")
    ensures r == Ok(()) <==> exists starts :: Tiling(p, 0, starts)
    ensures p != [] ==> r == Walk(p, 0)
  {
    hide WellFormed, RecordLen, Next;
    TiledIffWalks(p);
    NoEmptyTiling(p);
    var cursor: nat := 0;
    while cursor < |p|
      invariant p != [] ==> Walk(p, 0) == Walk(p, cursor)
      invariant p == [] ==> cursor == 0
      decreases |p| - cursor
    {
      if cursor + 8 > |p| {
        return Err(InvalidArchive("EA record header is truncated"));
      }
      if !WellFormed(p, cursor) {
        return Invalid("WindowsEaStream", "EA record is malformed");
      }
      var next, recordLen := Next(p, cursor), RecordLen(p, cursor);
      if next == 0 {
        if cursor + recordLen != |p| {
          return Invalid("WindowsEaStream", "EA stream has trailing bytes");
        }
        return Ok(());
      }
      if next < recordLen || next % 4 != 0 || cursor + next > |p| {
        return Invalid("WindowsEaStream", "EA next-entry offset is invalid");
      }
      if exists i :: cursor + recordLen <= i < cursor + next && p[i] != 0 {
        return Invalid("WindowsEaStream", "EA alignment padding is non-zero");
      }
      cursor := cursor + next;
    }
    if p == [] {
      return Invalid("WindowsEaStream", "EA stream is empty");
    }
    return Ok(());
  }

  lemma NoEmptyTiling(p: seq<byte>)
    ensures p == [] ==> !exists starts :: Tiling(p, 0, starts)
  {
    if p == [] {
      forall starts ensures !Tiling(p, 0, starts) {
      }
    }
  }

  lemma {:induction false} WalkTiles(p: seq<byte>, c: nat) returns (starts: seq<nat>)
    requires c < |p| && Walk(p, c).Ok?
    ensures Tiling(p, c, starts)
    decreases |p| - c
  {
    hide WellFormed, RecordLen, Next;
    var next := Next(p, c);
    if next == 0 || c + next == |p| {
      starts := [c];
    } else {
      var rest := WalkTiles(p, c + next);
      starts := [c] + rest;
      assert forall i :: 1 <= i < |starts| ==> starts[i] == rest[i - 1];
      assert Steps(p, starts[0], starts[1]);
    }
  }

  lemma {:induction false} TilesWalk(p: seq<byte>, c: nat, starts: seq<nat>)
    requires Tiling(p, c, starts)
    ensures c < |p| && Walk(p, c).Ok?
    decreases |starts|
  {
    hide RecordLen, Next;
    if |starts| == 1 {
      assert Ends(p, c);
      assert Walk(p, |p|).Ok?;
    } else {
      assert Steps(p, starts[0], starts[0 + 1]);
      var rest := starts[1..];
      forall i | 0 <= i < |rest| - 1 ensures Steps(p, rest[i], rest[i + 1]) {
        assert Steps(p, starts[i + 1], starts[i + 1 + 1]);
      }
      TilesWalk(p, starts[1], rest);
    }
  }

  // Accepted payloads are exactly the tiled ones.
  lemma TiledIffWalks(p: seq<byte>)
    ensures p != [] ==> (Walk(p, 0).Ok? <==> exists starts :: Tiling(p, 0, starts))
  {
    hide Walk, Tiling;
    if p != [] && Walk(p, 0).Ok? {
      var starts := WalkTiles(p, 0);
    }
    if starts :| Tiling(p, 0, starts) {
      TilesWalk(p, 0, starts);
    }
  }
}
