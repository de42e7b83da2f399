/** Re-sharing the storage of restored clone partners, over an abstract file system. */
module CloneGroups {
  import opened Decimal
  import opened Format

  // ---------- the file system ----------

  // An open directory and a leaf in it.
  datatype Name = Name(dir: nat, leaf: Text)

  // A file: which extents it refers to, and its mode, owner, times, flags, ACL and attributes.
  datatype Node = Node(storage: nat, meta: Text)

  datatype Fs = Fs(names: map<Name, nat>, nodes: map<nat, Node>, blocks: map<nat, seq<byte>>, next: nat)

  datatype IoError = AlreadyExists | NotFound | Refused(code: nat) | Other(reason: string)

  datatype Io<+T> = Done(value: T) | Failed(error: IoError)

  ghost predicate Sound(fs: Fs) {
    && (forall n :: n in fs.names ==> fs.names[n] in fs.nodes)
    && (forall i :: i in fs.nodes ==> i < fs.next && fs.nodes[i].storage in fs.blocks)
  }

  ghost function NodeOf(fs: Fs, n: Name): Node
    requires Sound(fs) && n in fs.names
  {
    fs.nodes[fs.names[n]]
  }

  ghost function BytesOf(fs: Fs, n: Name): seq<byte>
    requires Sound(fs) && n in fs.names
  {
    fs.blocks[NodeOf(fs, n).storage]
  }

  ghost predicate Shares(fs: Fs, a: Name, b: Name)
    requires Sound(fs)
  {
    a in fs.names && b in fs.names && NodeOf(fs, a).storage == NodeOf(fs, b).storage
  }

  // Every name of the first system still has its bytes and its own metadata.
  ghost predicate Keeps(fs0: Fs, fs: Fs)
    requires Sound(fs0) && Sound(fs)
  {
    forall n :: n in fs0.names ==>
      n in fs.names && BytesOf(fs, n) == BytesOf(fs0, n) && NodeOf(fs, n).meta == NodeOf(fs0, n).meta
  }

  // No file written to, no name moved apart from the given ones, and every name that is new or moved on a new file.
  ghost predicate Extends(fs0: Fs, fs: Fs, moved: set<Name>) {
    && fs.blocks == fs0.blocks
    && (forall i :: i in fs0.nodes ==> i in fs.nodes && fs.nodes[i] == fs0.nodes[i])
    && (forall n :: n in fs0.names ==> n in fs.names)
    && (forall n :: n in fs0.names && n !in moved ==> fs.names[n] == fs0.names[n])
    && (forall n :: n in fs.names && !(n in fs0.names && fs.names[n] == fs0.names[n]) ==> fs.names[n] !in fs0.nodes)
  }

  function Cloned(fs: Fs, source: Name, target: Name): Fs
    requires source in fs.names && fs.names[source] in fs.nodes
  {
    Fs(fs.names[target := fs.next], fs.nodes[fs.next := fs.nodes[fs.names[source]]], fs.blocks, fs.next + 1)
  }

  function WithMeta(fs: Fs, i: nat, meta: Text): Fs
    requires i in fs.nodes
  {
    fs.(nodes := fs.nodes[i := fs.nodes[i].(meta := meta)])
  }

  function Renamed(fs: Fs, from: Name, to: Name): Fs
    requires from in fs.names
  {
    fs.(names := (fs.names - {from})[to := fs.names[from]])
  }

  function Unlinked(fs: Fs, n: Name): Fs {
    fs.(names := fs.names - {n})
  }

  // ---------- system calls, any of which may fail ----------

  // Why a clone call fails, given the error it meets, if any.
  function Refusal(met: Option<IoError>, fs: Fs, source: Name, target: Name): Option<IoError> {
    if met.Some? then met
    else if source !in fs.names then Some(NotFound)
    else if target in fs.names then Some(AlreadyExists)
    else None
  }

  class Handle {
    const inode: nat
    var pos: nat

    constructor (inode: nat)
      ensures this.inode == inode && pos == 0
    {
      this.inode, pos := inode, 0;
    }
  }

  class Kernel {
    const pid: nat
    const failure: nat -> Option<IoError>
    const shortness: nat -> nat
    const halfCopied: nat -> Text
    var clock: nat
    var fs: Fs
    // Calls to unlink that failed.
    var stuck: nat

    constructor (pid: nat, failure: nat -> Option<IoError>, shortness: nat -> nat, halfCopied: nat -> Text, fs: Fs)
      ensures this.pid == pid && this.failure == failure && this.shortness == shortness
      ensures this.halfCopied == halfCopied && this.fs == fs && clock == 0 && stuck == 0
    {
      this.pid, this.failure, this.shortness, this.halfCopied := pid, failure, shortness, halfCopied;
      this.fs, clock, stuck := fs, 0, 0;
    }

    // No call fails.
    ghost predicate Quiet() {
      forall t: nat :: failure(t) == None
    }

    // A call made since then met this error.
    ghost predicate Met(since: nat, error: IoError)
      reads this`clock
    {
      exists t: nat :: since <= t < clock && failure(t) == Some(error)
    }

    // One tick of the schedule: the error this call meets, if any.
    method Tick() returns (error: Option<IoError>)
      modifies this`clock
      ensures error == failure(old(clock)) && clock == old(clock) + 1
      ensures Quiet() ==> error == None
    {
      error := failure(clock);
      clock := clock + 1;
    }

    method OpenAt(n: Name) returns (r: Io<nat>)
      modifies this`clock
      ensures r.Done? ==> n in fs.names && r.value == fs.names[n]
      ensures r.Failed? ==> Met(old(clock), r.error) || (r.error == NotFound && n !in fs.names)
      ensures clock == old(clock) + 1 && (Quiet() && n in fs.names ==> r.Done?)
    {
      var error := Tick();
      if error.Some? {
        return Failed(error.value);
      }
      return if n in fs.names then Done(fs.names[n]) else Failed(NotFound);
    }

    method Length(h: Handle) returns (r: Io<nat>)
      requires Sound(fs) && h.inode in fs.nodes
      modifies this`clock
      ensures r.Done? ==> r.value == |fs.blocks[fs.nodes[h.inode].storage]|
      ensures clock == old(clock) + 1 && (r.Failed? ==> Met(old(clock), r.error)) && (Quiet() ==> r.Done?)
    {
      var error := Tick();
      if error.Some? {
        return Failed(error.value);
      }
      return Done(|fs.blocks[fs.nodes[h.inode].storage]|);
    }

    // At least one byte unless the file or the buffer is at its end.
    method Read(h: Handle, room: nat) returns (r: Io<seq<byte>>)
      requires Sound(fs) && h.inode in fs.nodes
      requires h.pos <= |fs.blocks[fs.nodes[h.inode].storage]|
      modifies this`clock, h`pos
      ensures var content := fs.blocks[fs.nodes[h.inode].storage];
              && r.Done? ==>
                && |r.value| <= room && h.pos == old(h.pos) + |r.value| <= |content|
                && r.value == content[old(h.pos)..h.pos]
                && (r.value == [] <==> room == 0 || old(h.pos) == |content|)
      ensures r.Failed? ==> h.pos == old(h.pos) && Met(old(clock), r.error)
      ensures clock == old(clock) + 1 && (Quiet() ==> r.Done?)
    {
      var content := fs.blocks[fs.nodes[h.inode].storage];
      var short := shortness(clock);
      var error := Tick();
      if error.Some? {
        return Failed(error.value);
      }
      var left := |content| - h.pos;
      var most := if room < left then room else left;
      var n := if most == 0 then 0 else 1 + short % most;
      r := Done(content[h.pos..h.pos + n]);
      h.pos := h.pos + n;
    }

    // Creates the target atomically, with the source's extents and metadata.
    method CloneFileAt(source: Name, target: Name) returns (r: Io<()>)
      requires Sound(fs)
      modifies this`clock, this`fs
      ensures clock == old(clock) + 1
      ensures r.Failed? <==> Refusal(failure(old(clock)), old(fs), source, target).Some?
      ensures r.Done? ==> source in old(fs).names && target !in old(fs).names && fs == Cloned(old(fs), source, target)
      ensures r.Failed? ==> fs == old(fs) && Some(r.error) == Refusal(failure(old(clock)), old(fs), source, target)
    {
      var error := Tick();
      if error.Some? {
        return Failed(error.value);
      }
      if source !in fs.names {
        return Failed(NotFound);
      }
      if target in fs.names {
        return Failed(AlreadyExists);
      }
      fs := Cloned(fs, source, target);
      return Done(());
    }

    // A failing copy may stop half way.
    method CopyMetadata(from: nat, to: nat) returns (r: Io<()>)
      requires from in fs.nodes && to in fs.nodes
      modifies this`clock, this`fs
      ensures r.Done? ==> fs == WithMeta(old(fs), to, old(fs).nodes[from].meta)
      ensures r.Failed? ==> exists meta :: fs == WithMeta(old(fs), to, meta)
      ensures clock == old(clock) + 1 && (r.Failed? ==> Met(old(clock), r.error)) && (Quiet() ==> r.Done?)
    {
      var half := halfCopied(clock);
      var error := Tick();
      if error.Some? {
        fs := WithMeta(fs, to, half);
        return Failed(error.value);
      }
      fs := WithMeta(fs, to, fs.nodes[from].meta);
      return Done(());
    }

    method RenameAt(from: Name, to: Name) returns (r: Io<()>)
      requires from in fs.names
      modifies this`clock, this`fs
      ensures r.Done? ==> fs == Renamed(old(fs), from, to)
      ensures r.Failed? ==> fs == old(fs) && Met(old(clock), r.error)
      ensures clock == old(clock) + 1 && (Quiet() ==> r.Done?)
    {
      var error := Tick();
      if error.Some? {
        return Failed(error.value);
      }
      fs := Renamed(fs, from, to);
      return Done(());
    }

    method UnlinkAt(n: Name)
      modifies this
      ensures stuck == old(stuck) ==> fs == Unlinked(old(fs), n)
      ensures stuck != old(stuck) ==> stuck == old(stuck) + 1 && fs == old(fs)
      ensures clock == old(clock) + 1 && (Quiet() ==> stuck == old(stuck))
      ensures forall t: nat, e :: old(Met(t, e)) ==> Met(t, e)
    {
      var error := Tick();
      if error.Some? {
        stuck := stuck + 1;
      } else {
        fs := Unlinked(fs, n);
      }
    }
  }

  // ---------- comparing two files ----------

  const CHUNK := 262144

  // Fills the front of the buffer, however short the reads, or up to the end of the file.
  method ReadUpTo(k: Kernel, h: Handle, buffer: array<byte>, limit: nat) returns (r: Io<nat>)
    requires Sound(k.fs) && h.inode in k.fs.nodes && limit <= buffer.Length
    requires h.pos <= |k.fs.blocks[k.fs.nodes[h.inode].storage]|
    modifies k`clock, h`pos, buffer
    ensures h.pos <= |k.fs.blocks[k.fs.nodes[h.inode].storage]| && (k.Quiet() ==> r.Done?)
    ensures k.clock >= old(k.clock) && (r.Failed? ==> k.Met(old(k.clock), r.error))
    ensures var content := k.fs.blocks[k.fs.nodes[h.inode].storage];
            r.Done? ==>
              && r.value <= limit && h.pos == old(h.pos) + r.value
              && buffer[..r.value] == content[old(h.pos)..h.pos]
              && (r.value == limit || h.pos == |content|)
  {
    ghost var content := k.fs.blocks[k.fs.nodes[h.inode].storage];
    var filled: nat := 0;
    while filled < limit
      invariant filled <= limit && h.pos == old(h.pos) + filled <= |content| && k.clock >= old(k.clock)
      invariant buffer[..filled] == content[old(h.pos)..h.pos]
    {
      ghost var before := buffer[..filled];
      ghost var at := h.pos;
      var got := k.Read(h, limit - filled);
      if got.Failed? {
        return Failed(got.error);
      }
      if got.value == [] {
        return Done(filled);
      }
      CopyInto(buffer, filled, got.value);
      assert content[old(h.pos)..h.pos] == content[old(h.pos)..at] + content[at..h.pos];
      filled := filled + |got.value|;
    }
    return Done(filled);
  }

  method CopyInto(buffer: array<byte>, at: nat, bytes: seq<byte>)
    requires at + |bytes| <= buffer.Length
    modifies buffer
    ensures buffer[..at + |bytes|] == old(buffer[..at]) + bytes
  {
    for i := 0 to |bytes|
      invariant buffer[..at + i] == old(buffer[..at]) + bytes[..i]
    {
      buffer[at + i] := bytes[i];
      assert buffer[..at + (i + 1)] == buffer[..at + i] + [bytes[i]];
    }
  }

  // Decides whether the two files hold the same bytes.
  method RestoredPartnersMatch(k: Kernel, left: Handle, right: Handle) returns (r: Io<bool>)
    requires Sound(k.fs) && left.inode in k.fs.nodes && right.inode in k.fs.nodes
    requires left != right && left.pos == 0 && right.pos == 0
    modifies k`clock, left`pos, right`pos
    ensures r.Done? ==>
              (r.value <==> k.fs.blocks[k.fs.nodes[left.inode].storage] == k.fs.blocks[k.fs.nodes[right.inode].storage])
    ensures k.clock >= old(k.clock) && (r.Failed? ==> k.Met(old(k.clock), r.error)) && (k.Quiet() ==> r.Done?)
  {
    ghost var a := k.fs.blocks[k.fs.nodes[left.inode].storage];
    ghost var b := k.fs.blocks[k.fs.nodes[right.inode].storage];
    var leftLength := k.Length(left);
    if leftLength.Failed? {
      return Failed(leftLength.error);
    }
    var rightLength := k.Length(right);
    if rightLength.Failed? {
      return Failed(rightLength.error);
    }
    if leftLength.value != rightLength.value {
      return Done(false);
    }
    var leftChunk := new byte[CHUNK];
    var rightChunk := new byte[CHUNK];
    while true
      invariant left.pos == right.pos <= |a| && |a| == |b| && a[..left.pos] == b[..left.pos]
      invariant k.clock >= old(k.clock)
      decreases |a| - left.pos
    {
      ghost var at := left.pos;
      var readLeft := ReadUpTo(k, left, leftChunk, CHUNK);
      if readLeft.Failed? {
        return Failed(readLeft.error);
      }
      var read := readLeft.value;
      var readRight := ReadUpTo(k, right, rightChunk, read);
      if readRight.Failed? {
        return Failed(readRight.error);
      }
      if readRight.value != read {
        assert false;
      }
      if read == 0 {
        assert a[..at] == a && b[..at] == b;
        return Done(true);
      }
      if leftChunk[..read] != rightChunk[..read] {
        assert a[at..at + read] != b[at..at + read];
        return Done(false);
      }
      assert a[..at + read] == a[..at] + a[at..at + read];
      assert b[..at + read] == b[..at] + b[at..at + read];
    }
  }

  // ---------- one destination ----------

  predicate LeafOk(n: Name) {
    0 !in n.leaf
  }

  // ".tzap-clone-"
  const SUFFIX: Text := [46, 116, 122, 97, 112, 45, 99, 108, 111, 110, 101, 45]

  function StagingName(pid: nat, destination: Name, attempt: nat): (n: Name)
    ensures LeafOk(destination) ==> LeafOk(n)
    ensures n != destination
  {
    Name(destination.dir, destination.leaf + SUFFIX + Print(pid) + [45] + Print(attempt))
  }

  lemma OneDigit()
    ensures Print(7) == [55] && Print(3) == [51]
  {
  }

  // "a.tzap-clone-7-3"
  lemma StagingExample(dir: nat)
    ensures StagingName(7, Name(dir, [97]), 3)
         == Name(dir, [97, 46, 116, 122, 97, 112, 45, 99, 108, 111, 110, 101, 45, 55, 45, 51])
  {
    hide Print;
    OneDigit();
    assert [97] + SUFFIX + [55] == [97, 46, 116, 122, 97, 112, 45, 99, 108, 111, 110, 101, 45, 55];
  }

  // No two members and attempts of one process share a staging name.
  lemma StagingDistinct(pid: nat, m: Name, a: nat, n: Name, b: nat)
    requires StagingName(pid, m, a) == StagingName(pid, n, b)
    ensures m == n && a == b
  {
    hide Print, Value;
    if |Print(a)| <= |Print(b)| {
      StagingSplit(m.leaf + SUFFIX + Print(pid), Print(a), n.leaf + SUFFIX + Print(pid), Print(b));
    } else {
      StagingSplit(n.leaf + SUFFIX + Print(pid), Print(b), m.leaf + SUFFIX + Print(pid), Print(a));
    }
    ValuePrint(a);
    ValuePrint(b);
    var tail := SUFFIX + Print(pid);
    assert m.leaf + SUFFIX + Print(pid) == m.leaf + tail && n.leaf + SUFFIX + Print(pid) == n.leaf + tail;
    assert (m.leaf + tail)[..|m.leaf|] == (n.leaf + tail)[..|n.leaf|];
  }

  lemma StagingSplit(p: Text, a: Text, q: Text, b: Text)
    requires AllDigits(a) && AllDigits(b) && |a| <= |b| && p + [45] + a == q + [45] + b
    ensures p == q && a == b
  {
    var s := p + [45] + a;
    assert s[|p|] == 45;
    assert forall i :: |q| < i < |s| ==> s[i] == b[i - |q| - 1];
    assert s[..|p|] == p && s[|p| + 1..] == a;
    assert s[..|q|] == q && s[|q| + 1..] == b;
  }

  method OpenNofollow(k: Kernel, n: Name) returns (r: Io<Handle>)
    modifies k`clock
    ensures r.Done? ==> LeafOk(n) && n in k.fs.names && r.value.inode == k.fs.names[n]
    ensures r.Done? ==> r.value.pos == 0 && fresh(r.value)
    ensures k.clock >= old(k.clock) && (k.Quiet() && LeafOk(n) && n in k.fs.names ==> r.Done?)
    ensures r.Failed? ==>
              || k.Met(old(k.clock), r.error) || (r.error == NotFound && n !in k.fs.names)
              || (r.error == Other("file name contained an unexpected NUL byte") && !LeafOk(n))
  {
    if !LeafOk(n) {
      return Failed(Other("file name contained an unexpected NUL byte"));
    }
    var inode := k.OpenAt(n);
    if inode.Failed? {
      return Failed(inode.error);
    }
    var handle := new Handle(inode.value);
    return Done(handle);
  }

  ghost predicate HasFreeName(fs: Fs, pid: nat, destination: Name) {
    exists a: nat :: a < 1000 && StagingName(pid, destination, a) !in fs.names
  }

  // The answer to the clone call number `a` of those that begin at this time.
  ghost function Answer(failure: nat -> Option<IoError>, fs: Fs, pid: nat, source: Name, destination: Name, at: nat,
                        a: nat): Option<IoError>
  {
    Refusal(failure(at + a), fs, source, StagingName(pid, destination, a))
  }

  // Names are tried in turn while they are taken. The first other answer decides, and is the last.
  ghost predicate Tried(failure: nat -> Option<IoError>, fs: Fs, pid: nat, source: Name, destination: Name, at: nat,
                        n: nat, r: Io<Name>)
  {
    && 1 <= n <= 1000
    && (forall a: nat :: a < n - 1 ==> Answer(failure, fs, pid, source, destination, at, a) == Some(AlreadyExists))
    && var last := Answer(failure, fs, pid, source, destination, at, n - 1);
       match r
       case Done(name) => last == None && name == StagingName(pid, destination, n - 1)
       case Failed(error) =>
         || (last == Some(error) && error != AlreadyExists)
         || (n == 1000 && last == Some(AlreadyExists) && error == Other("could not find a free clone staging name"))
  }

  // Clones the source to a name that was free.
  method CloneToStaging(k: Kernel, source: Name, destination: Name) returns (r: Io<Name>)
    requires Sound(k.fs) && LeafOk(destination)
    modifies k`clock, k`fs
    ensures k.clock > old(k.clock)
    ensures Tried(k.failure, old(k.fs), k.pid, source, destination, old(k.clock), k.clock - old(k.clock), r)
    ensures r.Done? ==> source in old(k.fs).names && r.value !in old(k.fs).names
    ensures r.Done? ==> k.fs == Cloned(old(k.fs), source, r.value)
    ensures r.Failed? ==> k.fs == old(k.fs)
    ensures k.Quiet() && source in old(k.fs).names && HasFreeName(old(k.fs), k.pid, destination) ==> r.Done?
  {
    hide StagingName, Cloned, Sound, HasFreeName;
    for attempt := 0 to 1000
      invariant k.fs == old(k.fs) && k.clock == old(k.clock) + attempt
      invariant forall a: nat :: a < attempt ==>
                  Answer(k.failure, k.fs, k.pid, source, destination, old(k.clock), a) == Some(AlreadyExists)
    {
      var staging := StagingName(k.pid, destination, attempt);
      var cloned := k.CloneFileAt(source, staging);
      assert Answer(k.failure, old(k.fs), k.pid, source, destination, old(k.clock), attempt)
          == Refusal(k.failure(old(k.clock) + attempt), old(k.fs), source, staging);
      if cloned.Done? {
        return Done(staging);
      }
      if cloned.error != AlreadyExists {
        return Failed(cloned.error);
      }
    }
    NoFreeName(k, source, destination, old(k.clock));
    return Failed(Other("could not find a free clone staging name"));
  }

  // Every staging name was refused as taken.
  ghost predicate AllTaken(failure: nat -> Option<IoError>, fs: Fs, pid: nat, source: Name, destination: Name,
                           at: nat)
  {
    forall a: nat :: a < 1000 ==> Answer(failure, fs, pid, source, destination, at, a) == Some(AlreadyExists)
  }

  lemma NoFreeName(k: Kernel, source: Name, destination: Name, at: nat)
    requires AllTaken(k.failure, k.fs, k.pid, source, destination, at)
    ensures k.Quiet() && source in k.fs.names ==> !HasFreeName(k.fs, k.pid, destination)
  {
    hide StagingName;
    if k.Quiet() && source in k.fs.names {
      forall a: nat | a < 1000
        ensures StagingName(k.pid, destination, a) in k.fs.names
      {
        assert Answer(k.failure, k.fs, k.pid, source, destination, at, a) == Some(AlreadyExists);
      }
    }
  }

  // Where the error of a partner comes from: a call that met it, or the state before.
  ghost predicate Explained(failure: nat -> Option<IoError>, fs: Fs, pid: nat, source: Name, destination: Name,
                            since: nat, until: nat, error: IoError)
    requires Sound(fs)
  {
    || (exists t: nat :: since <= t < until && failure(t) == Some(error))
    || (error == NotFound && (source !in fs.names || destination !in fs.names))
    || (error == Other("file name contained an unexpected NUL byte") && (!LeafOk(source) || !LeafOk(destination)))
    || (&& error == Other("restored clone partners differ; refusing to overwrite")
        && source in fs.names && destination in fs.names && BytesOf(fs, source) != BytesOf(fs, destination))
    || (&& error == Other("could not find a free clone staging name")
        && exists at: nat ::
             since <= at && at + 1000 <= until && AllTaken(failure, fs, pid, source, destination, at))
  }

  lemma TriedExplained(failure: nat -> Option<IoError>, fs: Fs, pid: nat, source: Name, destination: Name, since: nat,
                       at: nat, n: nat, r: Io<Name>)
    requires Sound(fs) && since <= at && r.Failed? && Tried(failure, fs, pid, source, destination, at, n, r)
    ensures Explained(failure, fs, pid, source, destination, since, at + n, r.error)
  {
    hide StagingName, Sound;
    var last := Answer(failure, fs, pid, source, destination, at, n - 1);
    if last == Some(AlreadyExists) {
      assert AllTaken(failure, fs, pid, source, destination, at);
    } else if failure(at + (n - 1)).Some? {
      assert failure(at + (n - 1)) == Some(r.error);
    }
  }

  lemma MetExplained(k: Kernel, fs: Fs, source: Name, destination: Name, since: nat, from: nat, until: nat,
                     error: IoError)
    requires Sound(fs) && since <= from && k.clock <= until && k.Met(from, error)
    ensures Explained(k.failure, fs, k.pid, source, destination, since, until, error)
  {
    hide StagingName, Sound;
  }

  lemma OpenExplained(k: Kernel, fs: Fs, source: Name, destination: Name, n: Name, since: nat, from: nat,
                      error: IoError)
    requires Sound(fs) && since <= from && (n == source || n == destination)
    requires || k.Met(from, error) || (error == NotFound && n !in fs.names)
             || (error == Other("file name contained an unexpected NUL byte") && !LeafOk(n))
    ensures Explained(k.failure, fs, k.pid, source, destination, since, k.clock, error)
  {
    hide StagingName, Sound;
  }

  lemma DifferExplained(k: Kernel, fs: Fs, source: Name, destination: Name, since: nat)
    requires Sound(fs) && source in fs.names && destination in fs.names
    requires BytesOf(fs, source) != BytesOf(fs, destination)
    ensures Explained(k.failure, fs, k.pid, source, destination, since, k.clock,
                      Other("restored clone partners differ; refusing to overwrite"))
  {
    hide StagingName, Sound;
  }

  method CopyMetadataOntoClone(k: Kernel, staging: Name, destinationFile: Handle) returns (r: Io<()>)
    requires Sound(k.fs) && staging in k.fs.names && destinationFile.inode in k.fs.nodes
    modifies k`clock, k`fs
    ensures exists meta :: k.fs == WithMeta(old(k.fs), old(k.fs).names[staging], meta)
    ensures r.Done? ==>
              k.fs == WithMeta(old(k.fs), old(k.fs).names[staging], old(k.fs).nodes[destinationFile.inode].meta)
    ensures k.clock >= old(k.clock) && (r.Failed? ==> k.Met(old(k.clock), r.error)) && (k.Quiet() ==> r.Done?)
  {
    var staged := k.OpenAt(staging);
    if staged.Failed? {
      SameMeta(k.fs, k.fs.names[staging]);
      return Failed(staged.error);
    }
    r := k.CopyMetadata(destinationFile.inode, staged.value);
  }

  lemma SoundName(fs: Fs)
    requires Sound(fs)
    ensures forall n :: n in fs.names ==> fs.names[n] in fs.nodes
  {
  }

  lemma SameMeta(fs: Fs, i: nat)
    requires i in fs.nodes
    ensures fs == WithMeta(fs, i, fs.nodes[i].meta)
  {
    assert fs.nodes == fs.nodes[i := fs.nodes[i].(meta := fs.nodes[i].meta)];
  }

  // The destination's name on a new file: the source's extents, its own metadata.
  ghost function Reshared(fs: Fs, source: Name, destination: Name): Fs
    requires Sound(fs) && source in fs.names && destination in fs.names
  {
    Fs(fs.names[destination := fs.next],
       fs.nodes[fs.next := Node(NodeOf(fs, source).storage, NodeOf(fs, destination).meta)], fs.blocks, fs.next + 1)
  }

  // A clone of the source left under a name that was free, or already removed again.
  ghost predicate Abandoned(fs0: Fs, fs: Fs, staging: Name) {
    && staging !in fs0.names && Extends(fs0, fs, {}) && Sound(fs)
    && fs.names.Keys <= fs0.names.Keys + {staging}
    && (staging in fs.names ==> fs.names[staging] !in fs0.nodes)
  }

  ghost predicate Leftover(fs0: Fs, fs: Fs, pid: nat, destination: Name) {
    exists attempt: nat :: attempt < 1000 && Abandoned(fs0, fs, StagingName(pid, destination, attempt))
  }

  lemma Published(fs: Fs, source: Name, destination: Name, staging: Name)
    requires Sound(fs) && source in fs.names && destination in fs.names && staging !in fs.names
    ensures var staged := WithMeta(Cloned(fs, source, staging), fs.next, NodeOf(fs, destination).meta);
            Renamed(staged, staging, destination) == Reshared(fs, source, destination)
  {
    var staged := WithMeta(Cloned(fs, source, staging), fs.next, NodeOf(fs, destination).meta);
    assert staged.names - {staging} == fs.names;
  }

  lemma StagedSound(fs: Fs, source: Name, staging: Name, meta: Text)
    requires Sound(fs) && source in fs.names && staging !in fs.names
    ensures Sound(WithMeta(Cloned(fs, source, staging), fs.next, meta))
    ensures Extends(fs, WithMeta(Cloned(fs, source, staging), fs.next, meta), {})
  {
  }

  lemma Staged(fs: Fs, source: Name, staging: Name, meta: Text)
    requires Sound(fs) && source in fs.names && staging !in fs.names
    ensures Sound(WithMeta(Cloned(fs, source, staging), fs.next, meta))
    ensures Abandoned(fs, WithMeta(Cloned(fs, source, staging), fs.next, meta), staging)
  {
    hide Extends, Sound;
    CloneReady(fs, source, source, staging);
    StagedSound(fs, source, staging, meta);
    NextIsNew(fs);
  }

  lemma NextIsNew(fs: Fs)
    requires Sound(fs)
    ensures fs.next !in fs.nodes
  {
  }

  lemma Withdrawn(fs0: Fs, fs: Fs, staging: Name)
    requires Abandoned(fs0, fs, staging)
    ensures Sound(Unlinked(fs, staging)) && Abandoned(fs0, Unlinked(fs, staging), staging)
    ensures Unlinked(fs, staging).names.Keys == fs0.names.Keys
  {
  }

  lemma CloneReady(fs: Fs, source: Name, destination: Name, staging: Name)
    requires Sound(fs) && source in fs.names && destination in fs.names && staging !in fs.names
    ensures var cloned := Cloned(fs, source, staging);
            && Sound(cloned) && staging in cloned.names && cloned.names[staging] == fs.next && fs.next in cloned.nodes
            && fs.names[destination] in cloned.nodes && cloned.nodes[fs.names[destination]] == NodeOf(fs, destination)
  {
  }

  lemma StagedName(fs: Fs, i: nat, meta: Text)
    requires i in fs.nodes
    ensures WithMeta(fs, i, meta).names == fs.names
  {
  }

  lemma ResharedSound(fs: Fs, source: Name, destination: Name)
    requires Sound(fs) && source in fs.names && destination in fs.names
    ensures Sound(Reshared(fs, source, destination))
    ensures Reshared(fs, source, destination).names.Keys == fs.names.Keys
  {
  }

  // Both files exist with the same bytes, and a staging name is free.
  ghost predicate Shareable(fs: Fs, pid: nat, source: Name, destination: Name)
    requires Sound(fs)
  {
    && LeafOk(source) && LeafOk(destination) && source in fs.names && destination in fs.names
    && BytesOf(fs, source) == BytesOf(fs, destination) && HasFreeName(fs, pid, destination)
  }

  method CloneOver(k: Kernel, source: Name, destination: Name) returns (r: Io<()>)
    requires Sound(k.fs)
    modifies k
    ensures Sound(k.fs) && k.stuck >= old(k.stuck) && (k.Quiet() ==> k.stuck == old(k.stuck))
    ensures r.Done? ==> source in old(k.fs).names && destination in old(k.fs).names
    ensures r.Done? ==> BytesOf(old(k.fs), source) == BytesOf(old(k.fs), destination)
    ensures r.Done? ==> k.fs == Reshared(old(k.fs), source, destination)
    ensures r.Failed? ==> k.fs == old(k.fs) || Leftover(old(k.fs), k.fs, k.pid, destination)
    ensures k.stuck == old(k.stuck) ==> k.fs.names.Keys == old(k.fs).names.Keys
    ensures k.Quiet() && Shareable(old(k.fs), k.pid, source, destination) ==> r.Done?
    ensures k.clock >= old(k.clock)
    ensures r.Failed? ==>
              Explained(k.failure, old(k.fs), k.pid, source, destination, old(k.clock), k.clock, r.error)
  {
    hide Tried, Explained, Kernel.Quiet, Kernel.Met, HasFreeName, Cloned, WithMeta, Renamed, Unlinked, Reshared,
      Abandoned, Sound, StagingName;
    ghost var fs0, since := k.fs, k.clock;
    SoundName(fs0);
    var sourceFile := OpenNofollow(k, source);
    if sourceFile.Failed? {
      OpenExplained(k, fs0, source, destination, source, since, since, sourceFile.error);
      return Failed(sourceFile.error);
    }
    ghost var second := k.clock;
    var destinationFile := OpenNofollow(k, destination);
    if destinationFile.Failed? {
      OpenExplained(k, fs0, source, destination, destination, since, second, destinationFile.error);
      return Failed(destinationFile.error);
    }
    ghost var compared := k.clock;
    var same := RestoredPartnersMatch(k, sourceFile.value, destinationFile.value);
    if same.Failed? {
      MetExplained(k, fs0, source, destination, since, compared, k.clock, same.error);
      return Failed(same.error);
    }
    if !same.value {
      DifferExplained(k, fs0, source, destination, since);
      return Failed(Other("restored clone partners differ; refusing to overwrite"));
    }
    ghost var at := k.clock;
    var staging := CloneToStaging(k, source, destination);
    if staging.Failed? {
      TriedExplained(k.failure, fs0, k.pid, source, destination, since, at, k.clock - at, staging);
      return Failed(staging.error);
    }
    TriedName(k.failure, fs0, k.pid, source, destination, at, k.clock - at, staging);
    CloneReady(fs0, source, destination, staging.value);
    r := Publish(k, fs0, since, source, destination, staging.value, destinationFile.value);
  }

  lemma TriedName(failure: nat -> Option<IoError>, fs: Fs, pid: nat, source: Name, destination: Name, at: nat, n: nat,
                  r: Io<Name>)
    requires r.Done? && Tried(failure, fs, pid, source, destination, at, n, r)
    ensures exists attempt: nat :: attempt < 1000 && r.value == StagingName(pid, destination, attempt)
  {
    hide StagingName;
  }

  // The second half: the destination's metadata onto the staged clone, and the clone into its place.
  method Publish(k: Kernel, ghost fs0: Fs, ghost since: nat, source: Name, destination: Name, staging: Name,
                 destinationFile: Handle)
    returns (r: Io<()>)
    requires Sound(fs0) && source in fs0.names && destination in fs0.names && staging !in fs0.names
    requires k.fs == Cloned(fs0, source, staging) && Sound(k.fs) && destinationFile.inode == fs0.names[destination]
    requires since <= k.clock
    modifies k
    ensures Sound(k.fs) && k.stuck >= old(k.stuck) && (k.Quiet() ==> k.stuck == old(k.stuck))
    ensures r.Done? ==> k.fs == Reshared(fs0, source, destination)
    ensures r.Failed? ==> Abandoned(fs0, k.fs, staging)
    ensures k.stuck == old(k.stuck) ==> k.fs.names.Keys == fs0.names.Keys
    ensures k.clock >= old(k.clock) && (k.Quiet() ==> r.Done?)
    ensures r.Failed? ==> Explained(k.failure, fs0, k.pid, source, destination, since, k.clock, r.error)
  {
    hide Explained, Kernel.Quiet, Kernel.Met, Cloned, WithMeta, Renamed, Unlinked, Reshared, Abandoned, Sound, NodeOf;
    ghost var at := k.clock;
    SoundName(fs0);
    CloneReady(fs0, source, destination, staging);
    var copied := CopyMetadataOntoClone(k, staging, destinationFile);
    ghost var meta :| k.fs == WithMeta(Cloned(fs0, source, staging), fs0.next, meta);
    Staged(fs0, source, staging, meta);
    Withdrawn(fs0, k.fs, staging);
    StagedName(Cloned(fs0, source, staging), fs0.next, meta);
    if copied.Failed? {
      k.UnlinkAt(staging);
      MetExplained(k, fs0, source, destination, since, at, k.clock, copied.error);
      return Failed(copied.error);
    }
    at := k.clock;
    var renamed := k.RenameAt(staging, destination);
    if renamed.Failed? {
      k.UnlinkAt(staging);
      MetExplained(k, fs0, source, destination, since, at, k.clock, renamed.error);
      return Failed(renamed.error);
    }
    Published(fs0, source, destination, staging);
    ResharedSound(fs0, source, destination);
    return Done(());
  }

  // ---------- groups ----------

  lemma LeftoverKeeps(fs0: Fs, fs: Fs, pid: nat, destination: Name)
    requires Sound(fs0) && Sound(fs) && (fs == fs0 || Leftover(fs0, fs, pid, destination))
    ensures Keeps(fs0, fs) && Extends(fs0, fs, {})
  {
    hide StagingName;
  }

  lemma ResharedKeeps(fs0: Fs, source: Name, destination: Name)
    requires Sound(fs0) && source in fs0.names && destination in fs0.names
    requires BytesOf(fs0, source) == BytesOf(fs0, destination)
    ensures Sound(Reshared(fs0, source, destination))
    ensures Keeps(fs0, Reshared(fs0, source, destination))
    ensures Extends(fs0, Reshared(fs0, source, destination), {destination})
    ensures Shares(Reshared(fs0, source, destination), destination, source)
    ensures NodeOf(Reshared(fs0, source, destination), source).storage == NodeOf(fs0, source).storage
  {
  }

  lemma KeepsTransitive(a: Fs, b: Fs, c: Fs)
    requires Sound(a) && Sound(b) && Sound(c) && Keeps(a, b) && Keeps(b, c)
    ensures Keeps(a, c)
  {
  }

  lemma ExtendsTransitive(a: Fs, b: Fs, c: Fs, x: set<Name>, y: set<Name>)
    requires Extends(a, b, x) && Extends(b, c, y)
    ensures Extends(a, c, x + y)
  {
  }

  ghost function Moved(members: seq<Name>, i: nat): set<Name> {
    set j | 1 <= j <= i && j < |members| :: members[j]
  }

  // No other name has this name's file.
  ghost predicate Solo(fs: Fs, n: Name) {
    n in fs.names && forall m :: m in fs.names && m != n ==> fs.names[m] != fs.names[n]
  }

  // After the first i partners: they share with the first member, each in a file of its own, and nothing else moved.
  ghost predicate GroupProgress(fs0: Fs, fs: Fs, members: seq<Name>, i: nat) {
    && i < |members| && Sound(fs0) && Sound(fs)
    && Keeps(fs0, fs) && Extends(fs0, fs, Moved(members, i))
    && (members[0] in fs0.names ==> NodeOf(fs, members[0]).storage == NodeOf(fs0, members[0]).storage)
    && (forall j :: 1 <= j <= i ==> Shares(fs, members[j], members[0]))
    && (forall n :: n in Moved(members, i) ==> Solo(fs, n))
  }

  lemma ProgressInit(fs: Fs, members: seq<Name>)
    requires Sound(fs) && members != []
    ensures GroupProgress(fs, fs, members, 0)
  {
  }

  lemma MovedStep(members: seq<Name>, i: nat)
    requires i + 1 < |members|
    ensures Moved(members, i + 1) == Moved(members, i) + {members[i + 1]}
  {
  }

  // Sharing survives when every name it speaks of keeps its file.
  lemma SharesKept(fs0: Fs, fs: Fs, moved: set<Name>, a: Name, b: Name)
    requires Sound(fs0) && Sound(fs) && Extends(fs0, fs, moved)
    requires a in fs0.names && b in fs0.names && a !in moved && b !in moved
    ensures Shares(fs, a, b) <==> Shares(fs0, a, b)
  {
  }

  lemma ResharedShares(fs: Fs, source: Name, destination: Name, other: Name)
    requires Sound(fs) && source in fs.names && destination in fs.names
    requires Sound(Reshared(fs, source, destination)) && Shares(fs, other, source)
    ensures Shares(Reshared(fs, source, destination), other, source)
  {
  }

  lemma ResharedSolo(fs: Fs, source: Name, destination: Name, other: Name)
    requires Sound(fs) && source in fs.names && destination in fs.names
    ensures Solo(Reshared(fs, source, destination), destination)
    ensures Solo(fs, other) ==> Solo(Reshared(fs, source, destination), other)
  {
  }

  lemma LeftoverSolo(fs0: Fs, fs: Fs, pid: nat, destination: Name, other: Name)
    requires Sound(fs0) && Solo(fs0, other) && (fs == fs0 || Leftover(fs0, fs, pid, destination))
    ensures Solo(fs, other)
  {
    hide StagingName;
  }

  lemma ProgressDone(fs0: Fs, fs: Fs, members: seq<Name>, i: nat)
    requires GroupProgress(fs0, fs, members, i) && i + 1 < |members|
    requires members[0] in fs.names && members[i + 1] in fs.names
    requires BytesOf(fs, members[0]) == BytesOf(fs, members[i + 1])
    ensures GroupProgress(fs0, Reshared(fs, members[0], members[i + 1]), members, i + 1)
  {
    hide Sound, Keeps, Extends, Shares, Reshared, BytesOf, Moved, NodeOf, Solo;
    var source, destination := members[0], members[i + 1];
    var after := Reshared(fs, source, destination);
    ResharedKeeps(fs, source, destination);
    KeepsTransitive(fs0, fs, after);
    ExtendsTransitive(fs0, fs, after, Moved(members, i), {destination});
    MovedStep(members, i);
    forall j | 1 <= j <= i + 1
      ensures Shares(after, members[j], source)
    {
      if j <= i {
        ResharedShares(fs, source, destination, members[j]);
      }
    }
    forall n | n in Moved(members, i + 1)
      ensures Solo(after, n)
    {
      ResharedSolo(fs, source, destination, n);
    }
  }

  lemma ProgressFailed(fs0: Fs, fs: Fs, after: Fs, pid: nat, members: seq<Name>, i: nat)
    requires GroupProgress(fs0, fs, members, i) && i + 1 < |members| && Sound(after)
    requires after == fs || Leftover(fs, after, pid, members[i + 1])
    ensures GroupProgress(fs0, after, members, i)
  {
    hide Sound, Keeps, Shares, Leftover, Moved, NodeOf, Extends, Solo;
    LeftoverKeeps(fs, after, pid, members[i + 1]);
    KeepsTransitive(fs0, fs, after);
    ExtendsTransitive(fs0, fs, after, Moved(members, i), {});
    assert Moved(members, i) + {} == Moved(members, i);
    NamesKept(fs0, fs, Moved(members, i));
    forall n | n in fs.names
      ensures n in after.names && NodeOf(after, n) == NodeOf(fs, n)
    {
      SameNode(fs, after, n);
    }
    forall j | 1 <= j <= i
      ensures Shares(after, members[j], members[0])
    {
      SharesNames(fs, members[j], members[0]);
      SharesKept(fs, after, {}, members[j], members[0]);
    }
    forall n | n in Moved(members, i)
      ensures Solo(after, n)
    {
      LeftoverSolo(fs, after, pid, members[i + 1], n);
    }
  }

  lemma NamesKept(fs0: Fs, fs: Fs, moved: set<Name>)
    requires Extends(fs0, fs, moved)
    ensures forall n :: n in fs0.names ==> n in fs.names
  {
  }

  lemma SharesNames(fs: Fs, a: Name, b: Name)
    requires Sound(fs) && Shares(fs, a, b)
    ensures a in fs.names && b in fs.names
  {
  }

  lemma SameNode(fs0: Fs, fs: Fs, n: Name)
    requires Sound(fs0) && Sound(fs) && Extends(fs0, fs, {}) && n in fs0.names
    ensures n in fs.names && NodeOf(fs, n) == NodeOf(fs0, n)
  {
  }

  // Of the partners that existed, exactly the counted ones share with the first member,
  // and any that shared with it already.
  ghost predicate Counted(fs0: Fs, fs: Fs, members: seq<Name>, shared: nat)
    requires Sound(fs0) && Sound(fs)
  {
    && shared < |members|
    && forall j :: 1 <= j < |members| && members[j] in fs0.names && members[0] in fs0.names ==>
      (Shares(fs, members[j], members[0]) <==>
       members[j] in Moved(members, shared) || Shares(fs0, members[j], members[0]))
  }

  lemma ProgressCounted(fs0: Fs, fs: Fs, members: seq<Name>, shared: nat)
    requires GroupProgress(fs0, fs, members, shared)
    ensures Counted(fs0, fs, members, shared)
  {
    hide Keeps, Solo;
    forall j | 1 <= j < |members| && members[j] in fs0.names && members[0] in fs0.names
      ensures Shares(fs, members[j], members[0]) <==>
              members[j] in Moved(members, shared) || Shares(fs0, members[j], members[0])
    {
    }
  }

  ghost predicate AllShareable(fs: Fs, pid: nat, members: seq<Name>)
    requires Sound(fs)
  {
    forall j :: 1 <= j < |members| ==> Shareable(fs, pid, members[0], members[j])
  }

  lemma ShareableKept(fs: Fs, after: Fs, pid: nat, a: Name, b: Name)
    requires Sound(fs) && Sound(after) && Keeps(fs, after) && after.names.Keys == fs.names.Keys
    requires Shareable(fs, pid, a, b)
    ensures Shareable(after, pid, a, b)
  {
    hide StagingName, Sound, BytesOf;
    assert forall n :: n in after.names ==> n in after.names.Keys;
    assert forall n :: n in fs.names ==> n in fs.names.Keys;
  }

  lemma AllShareableKept(fs: Fs, after: Fs, pid: nat, members: seq<Name>)
    requires Sound(fs) && Sound(after) && Keeps(fs, after) && after.names.Keys == fs.names.Keys
    requires AllShareable(fs, pid, members)
    ensures AllShareable(after, pid, members)
  {
    hide Sound, Keeps, Shareable;
    forall j | 1 <= j < |members|
      ensures Shareable(after, pid, members[0], members[j])
    {
      ShareableKept(fs, after, pid, members[0], members[j]);
    }
  }

  lemma GroupShareable(fs0: Fs, fs: Fs, pid: nat, members: seq<Name>, shared: nat)
    requires GroupProgress(fs0, fs, members, shared) && shared + 1 < |members| && fs.names.Keys == fs0.names.Keys
    requires AllShareable(fs0, pid, members)
    ensures Shareable(fs, pid, members[0], members[shared + 1])
  {
    hide Sound, Keeps, Shareable, Extends, Moved, Shares, NodeOf, Solo;
    ShareableKept(fs0, fs, pid, members[0], members[shared + 1]);
  }

  // With this many partners shared, the next one failed with this error.
  ghost predicate PartnerExplained(failure: nat -> Option<IoError>, fs0: Fs, fs: Fs, pid: nat, members: seq<Name>,
                                   shared: nat, since: nat, until: nat, error: IoError)
  {
    && shared + 1 < |members| && Sound(fs) && GroupProgress(fs0, fs, members, shared)
    && Explained(failure, fs, pid, members[0], members[shared + 1], since, until, error)
  }

  ghost predicate GroupExplained(failure: nat -> Option<IoError>, fs0: Fs, pid: nat, members: seq<Name>, shared: nat,
                                 since: nat, until: nat, error: IoError)
  {
    exists fs, at: nat :: since <= at && PartnerExplained(failure, fs0, fs, pid, members, shared, at, until, error)
  }

  // Clones the partners in order and stops at the first failure.
  method RestoreGroup(k: Kernel, members: seq<Name>) returns (shared: nat, failure: Option<IoError>)
    requires Sound(k.fs) && |members| >= 2
    modifies k
    ensures k.stuck >= old(k.stuck) && (k.Quiet() ==> k.stuck == old(k.stuck))
    ensures GroupProgress(old(k.fs), k.fs, members, shared)
    ensures shared < |members| && (failure.None? <==> shared == |members| - 1)
    ensures k.stuck == old(k.stuck) ==> k.fs.names.Keys == old(k.fs).names.Keys
    ensures k.Quiet() && AllShareable(old(k.fs), k.pid, members) ==> failure.None?
    ensures k.clock >= old(k.clock)
    ensures failure.Some? ==>
              GroupExplained(k.failure, old(k.fs), k.pid, members, shared, old(k.clock), k.clock, failure.value)
  {
    hide GroupProgress, Reshared, Leftover, BytesOf, Sound, Shareable, Kernel.Quiet, Explained;
    ghost var fs0 := k.fs;
    shared, failure := 0, None;
    ProgressInit(fs0, members);
    while shared + 1 < |members|
      invariant shared < |members| && failure.None? && k.stuck >= old(k.stuck) && k.clock >= old(k.clock)
      invariant k.Quiet() ==> k.stuck == old(k.stuck)
      invariant Sound(k.fs) && GroupProgress(fs0, k.fs, members, shared)
      invariant k.stuck == old(k.stuck) ==> k.fs.names.Keys == fs0.names.Keys
    {
      ghost var fs, at := k.fs, k.clock;
      if k.Quiet() && AllShareable(fs0, k.pid, members) {
        GroupShareable(fs0, fs, k.pid, members, shared);
      }
      var cloned := CloneOver(k, members[0], members[shared + 1]);
      if cloned.Failed? {
        ProgressFailed(fs0, fs, k.fs, k.pid, members, shared);
        assert PartnerExplained(k.failure, fs0, fs, k.pid, members, shared, at, k.clock, cloned.error);
        failure := Some(cloned.error);
        return;
      }
      ProgressDone(fs0, fs, members, shared);
      shared := shared + 1;
    }
  }
}
