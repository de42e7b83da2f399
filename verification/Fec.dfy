/** Cauchy erasure coding: parity, repair and recovery of data shards. */
module Fec {
  import opened Format
  import opened Gf16
  import opened Gf16Order
  import opened Gf16Tables
  import opened Matrix
  import opened Cauchy
  import opened Shards

  const MAX_TOTAL_SHARDS := 65535
  const MAX_REPAIR_SHARDS := 1024

  // ---------- the code ----------

  // Point of data shard i is i, point of parity shard j is the data count plus j.
  ghost function CauchyRow(dataCount: nat, j: nat): (r: Vec)
    requires dataCount + j < MAX_TOTAL_SHARDS
    ensures |r| == dataCount
  {
    seq(dataCount, i requires 0 <= i < dataCount => Inv(Add(i, dataCount + j)))
  }

  function CauchyCoefficient(t: Tables, dataCount: nat, j: nat, i: nat): (c: Elem)
    requires TablesOk(t) && i < dataCount && dataCount + j < MAX_TOTAL_SHARDS
    ensures c == CauchyRow(dataCount, j)[i]
  {
    CoefficientPoints(t, dataCount, j, i);
    InverseWith(t, Add(i % 65536, (dataCount + j) % 65536)).value
  }

  // The casts to sixteen bits lose nothing and the two points differ.
  lemma CoefficientPoints(t: Tables, dataCount: nat, j: nat, i: nat)
    requires TablesOk(t) && i < dataCount && dataCount + j < MAX_TOTAL_SHARDS
    ensures i % 65536 == i && (dataCount + j) % 65536 == dataCount + j
    ensures InverseWith(t, Add(i % 65536, (dataCount + j) % 65536)) == Ok(CauchyRow(dataCount, j)[i])
  {
    hide Add, Inv, TablesOk;
    AddCancel(i, dataCount + j);
  }

  predicate Uniform(shards: seq<Shard>, size: nat) {
    forall i :: 0 <= i < |shards| ==> |shards[i]| == size
  }

  ghost function ParityShard(data: seq<Shard>, size: nat, j: nat): (s: Shard)
    requires Uniform(data, size) && size % 2 == 0 && |data| + j < MAX_TOTAL_SHARDS
    ensures |s| == size
  {
    FromSyms(Combined(CauchyRow(|data|, j), data, size))
  }

  function ValidateCounts(dataCount: nat, parityCount: nat): (r: Option<FormatError>)
    ensures r.None? <==> 1 <= dataCount && dataCount + parityCount <= 65535
    ensures r.Some? ==> if dataCount == 0 then r.value == FecZeroDataShards
                        else r.value == FecTooManyShards(if dataCount + parityCount > USIZE_MAX then USIZE_MAX
                                                         else dataCount + parityCount)
  {
    if dataCount == 0 then Some(FecZeroDataShards)
    else if dataCount + parityCount > USIZE_MAX then Some(FecTooManyShards(USIZE_MAX))
    else if dataCount + parityCount > MAX_TOTAL_SHARDS then Some(FecTooManyShards(dataCount + parityCount))
    else None
  }

  function ValidateShape(data: seq<Shard>, parityCount: nat): (r: Option<FormatError>)
    ensures r.None? <==> 1 <= |data| && |data| + parityCount <= 65535
                         && |data[0]| % 2 == 0 && Uniform(data, |data[0]|)
    ensures 1 <= |data| && |data| + parityCount <= 65535 && r.Some? ==>
              r.value == if |data[0]| % 2 != 0 then FecOddShardSize else FecInconsistentShardSize
    ensures data == [] || |data| + parityCount > 65535 ==> r == ValidateCounts(|data|, parityCount)
  {
    var counts := ValidateCounts(|data|, parityCount);
    if counts.Some? then counts
    else if |data[0]| % 2 != 0 then Some(FecOddShardSize)
    else if !Uniform(data, |data[0]|) then Some(FecInconsistentShardSize)
    else None
  }

  method CauchyRowOf(t: Tables, dataCount: nat, j: nat) returns (row: Vec)
    requires TablesOk(t) && dataCount + j < MAX_TOTAL_SHARDS
    ensures row == CauchyRow(dataCount, j)
  {
    hide Inv, Add;
    row := [];
    for i := 0 to dataCount
      invariant |row| == i && forall k :: 0 <= k < i ==> row[k] == CauchyRow(dataCount, j)[k]
    {
      row := row + [CauchyCoefficient(t, dataCount, j, i)];
    }
  }

  method EncodeParity(e: Endian, data: seq<Shard>, parityCount: nat) returns (r: Result<seq<Shard>>)
    ensures ValidateShape(data, parityCount).Some? ==> r == Err(ValidateShape(data, parityCount).value)
    ensures ValidateShape(data, parityCount).None? ==> r.Ok? && |r.value| == parityCount
    ensures r.Ok? ==> forall j :: 0 <= j < parityCount ==> r.value[j] == ParityShard(data, |data[0]|, j)
  {
    hide ParityShard;
    var shape := ValidateShape(data, parityCount);
    if shape.Some? {
      return Err(shape.value);
    }
    if parityCount == 0 {
      return Ok([]);
    }
    var size := |data[0]|;
    var t := BuildTables();
    var parity: seq<Shard> := [];
    for j := 0 to parityCount
      invariant |parity| == j
      invariant forall k :: 0 <= k < j ==> parity[k] == ParityShard(data, size, k)
    {
      var row := CauchyRowOf(t, |data|, j);
      var shard := CombineShards(t, e, row, data, size);
      ParityShardIs(data, size, j);
      parity := parity + [shard];
    }
    return Ok(parity);
  }

  lemma ParityShardIs(data: seq<Shard>, size: nat, j: nat)
    requires Uniform(data, size) && size % 2 == 0 && |data| + j < MAX_TOTAL_SHARDS
    ensures ParityShard(data, size, j) == FromSyms(Combined(CauchyRow(|data|, j), data, size))
  {
  }

  // ---------- which shards repair uses ----------

  type Slots = seq<Option<Shard>>

  // Indices of the slots from `i` on that hold a shard, in order.
  function Present(slots: Slots, i: nat): (p: seq<nat>)
    requires i <= |slots|
    ensures forall k :: 0 <= k < |p| ==> i <= p[k] < |slots| && slots[p[k]].Some?
    ensures forall k, l :: 0 <= k < l < |p| ==> p[k] < p[l]
    decreases |slots| - i
  {
    if i == |slots| then []
    else if slots[i].Some? then [i] + Present(slots, i + 1)
    else Present(slots, i + 1)
  }

  function Missing(slots: Slots, i: nat): (p: seq<nat>)
    requires i <= |slots|
    ensures forall k :: 0 <= k < |p| ==> i <= p[k] < |slots| && slots[p[k]].None?
    ensures forall k, l :: 0 <= k < l < |p| ==> p[k] < p[l]
    ensures |p| + |Present(slots, i)| == |slots| - i
    decreases |slots| - i
  {
    if i == |slots| then []
    else if slots[i].None? then [i] + Missing(slots, i + 1)
    else Missing(slots, i + 1)
  }

  lemma {:induction false} PresentHas(slots: Slots, i: nat, k: nat)
    requires i <= k < |slots| && slots[k].Some?
    ensures k in Present(slots, i)
    decreases |slots| - i
  {
    if i != k {
      PresentHas(slots, i + 1, k);
    }
  }

  // The parity shards repair takes: the first ones present, as many as data shards are missing.
  function Chosen(data: Slots, parity: Slots): (p: seq<nat>)
    ensures |p| <= |Missing(data, 0)|
    ensures forall k :: 0 <= k < |p| ==> 0 <= p[k] < |parity| && parity[p[k]].Some?
    ensures forall k, l :: 0 <= k < l < |p| ==> p[k] < p[l]
  {
    var all := Present(parity, 0);
    if |all| < |Missing(data, 0)| then all else all[..|Missing(data, 0)|]
  }

  // The error repair reports, if any.
  function RepairError(data: Slots, parity: Slots, size: nat): Option<FormatError> {
    var counts := ValidateCounts(|data|, |parity|);
    if counts.Some? then counts
    else if size % 2 != 0 then Some(FecOddShardSize)
    else if Missing(data, 0) != [] && |data| > MAX_REPAIR_SHARDS then
      Some(ReaderResourceLimitExceeded("fec repair data shards", MAX_REPAIR_SHARDS, |data|))
    else if !AllSized(data, Present(data, 0), size) || !AllSized(parity, Chosen(data, parity), size) then
      Some(FecInconsistentShardSize)
    else if |Chosen(data, parity)| < |Missing(data, 0)| then Some(FecTooFewAvailableShards)
    else None
  }

  // `d` agrees with every data shard present and with every parity shard chosen.
  ghost predicate Restores(d: seq<Shard>, data: Slots, parity: Slots, size: nat)
    requires |data| + |parity| <= MAX_TOTAL_SHARDS && size % 2 == 0
  {
    && |d| == |data| && Uniform(d, size)
    && (forall i :: 0 <= i < |data| && data[i].Some? ==> d[i] == data[i].value)
    && (forall k :: 0 <= k < |Chosen(data, parity)| ==>
          parity[Chosen(data, parity)[k]].value == ParityShard(d, size, Chosen(data, parity)[k]))
  }

  // What is left of the code word of `d` after erasures.
  ghost predicate Erased(d: seq<Shard>, data: Slots, parity: Slots, size: nat)
    requires |data| + |parity| <= MAX_TOTAL_SHARDS && size % 2 == 0
  {
    && |d| == |data| && Uniform(d, size)
    && (forall i :: 0 <= i < |data| && data[i].Some? ==> data[i].value == d[i])
    && (forall j :: 0 <= j < |parity| && parity[j].Some? ==> parity[j].value == ParityShard(d, size, j))
  }

  // ---------- the rows repair selects are independent ----------

  ghost function Rows(dataCount: nat, present: seq<nat>, chosen: seq<nat>): (m: Mat)
    requires forall k :: 0 <= k < |chosen| ==> dataCount + chosen[k] < MAX_TOTAL_SHARDS
    ensures |m| == |present| + |chosen| && forall r :: 0 <= r < |m| ==> |m[r]| == dataCount
  {
    seq(|present|, k requires 0 <= k < |present| => IdentityRow(dataCount, present[k]))
    + seq(|chosen|, k requires 0 <= k < |chosen| => CauchyRow(dataCount, chosen[k]))
  }

  function Pick(x: Vec, at: seq<nat>): (v: Vec)
    requires forall k :: 0 <= k < |at| ==> at[k] < |x|
    ensures |v| == |at|
  {
    seq(|at|, k requires 0 <= k < |at| => x[at[k]])
  }

  function Points(at: seq<nat>): (v: Vec)
    requires forall k :: 0 <= k < |at| ==> at[k] < 65536
    ensures |v| == |at|
  {
    seq(|at|, k requires 0 <= k < |at| => at[k])
  }

  lemma MissingStep(slots: Slots, i: nat)
    requires i <= |slots|
    ensures Missing(slots, i) == if i == |slots| then []
                                 else if slots[i].Some? then Missing(slots, i + 1)
                                 else [i] + Missing(slots, i + 1)
  {
  }

  // Where the present data vanish, a parity row is a Cauchy sum over the missing points.
  lemma {:induction false} RowIsCauchySum(slots: Slots, x: Vec, j: nat, i: nat)
    requires i <= |slots| == |x| && |slots| + j < MAX_TOTAL_SHARDS
    requires forall k :: 0 <= k < |slots| && slots[k].Some? ==> x[k] == 0
    ensures Dot(CauchyRow(|slots|, j)[i..], x[i..])
         == CauchySum(Pick(x, Missing(slots, i)), Points(Missing(slots, i)), |slots| + j)
    decreases |slots| - i
  {
    hide Mul, Add, Inv, CauchyRow, Dot, CauchySum, Pick, Points, Missing, Present;
    var row := CauchyRow(|slots|, j);
    MissingStep(slots, i);
    if i == |slots| {
      NothingLeft(row[i..], x[i..], Pick(x, []), Points([]), |slots| + j);
    } else {
      RowIsCauchySum(slots, x, j, i + 1);
      if slots[i].Some? {
        SkipPresent(row, x, i);
      } else {
        TakeMissing(|slots|, x, j, i, Missing(slots, i + 1));
      }
    }
  }

  lemma NothingLeft(row: Vec, x: Vec, v: Vec, p: Vec, y: Elem)
    requires |row| == |x| == |v| == |p| == 0
    ensures Dot(row, x) == CauchySum(v, p, y)
  {
  }

  lemma SkipPresent(row: Vec, x: Vec, i: nat)
    requires i < |row| == |x| && x[i] == 0
    ensures Dot(row[i..], x[i..]) == Dot(row[i + 1..], x[i + 1..])
  {
    hide Mul, Add;
    assert row[i..][1..] == row[i + 1..] && x[i..][1..] == x[i + 1..];
    MulZeroRight(row[i]);
    AddZero(Dot(row[i + 1..], x[i + 1..]));
  }

  lemma TakeMissing(n: nat, x: Vec, j: nat, i: nat, rest: seq<nat>)
    requires i < n == |x| && n + j < MAX_TOTAL_SHARDS && forall k :: 0 <= k < |rest| ==> i < rest[k] < n
    requires Dot(CauchyRow(n, j)[i + 1..], x[i + 1..]) == CauchySum(Pick(x, rest), Points(rest), n + j)
    ensures Dot(CauchyRow(n, j)[i..], x[i..]) == CauchySum(Pick(x, [i] + rest), Points([i] + rest), n + j)
  {
    hide Mul, Add, Inv;
    var row := CauchyRow(n, j);
    assert row[i..][1..] == row[i + 1..] && x[i..][1..] == x[i + 1..];
    MulComm(row[i], x[i]);
    assert Pick(x, [i] + rest)[1..] == Pick(x, rest);
    assert Points([i] + rest)[1..] == Points(rest);
  }

  lemma RowsIndependent(data: Slots, parity: Slots)
    requires |data| + |parity| <= MAX_TOTAL_SHARDS
    requires |Chosen(data, parity)| == |Missing(data, 0)|
    ensures !Singular(Rows(|data|, Present(data, 0), Chosen(data, parity)))
  {
    hide Dot;
    var n := |data|;
    var m := Rows(n, Present(data, 0), Chosen(data, parity));
    if Singular(m) {
      var x: Vec :| |x| == |m| && x != Zeros(|m|) && Apply(m, x) == Zeros(|m|);
      KernelIsZero(data, parity, x);
    }
  }

  lemma PresentVanish(data: Slots, parity: Slots, x: Vec)
    requires |data| + |parity| <= MAX_TOTAL_SHARDS && |x| == |data|
    requires |Chosen(data, parity)| == |Missing(data, 0)|
    requires Apply(Rows(|data|, Present(data, 0), Chosen(data, parity)), x) == Zeros(|data|)
    ensures forall i :: 0 <= i < |data| && data[i].Some? ==> x[i] == 0
  {
    hide Dot, CauchyRow, Missing, Chosen;
    var present := Present(data, 0);
    var m := Rows(|data|, present, Chosen(data, parity));
    forall i | 0 <= i < |data| && data[i].Some? ensures x[i] == 0 {
      PresentHas(data, 0, i);
      var k :| 0 <= k < |present| && present[k] == i;
      assert Apply(m, x)[k] == 0;
      DotUnit(m[k], x, i);
    }
  }

  lemma ChosenVanish(data: Slots, parity: Slots, x: Vec, k: nat)
    requires |data| + |parity| <= MAX_TOTAL_SHARDS && |x| == |data|
    requires |Chosen(data, parity)| == |Missing(data, 0)| && k < |Chosen(data, parity)|
    requires Apply(Rows(|data|, Present(data, 0), Chosen(data, parity)), x) == Zeros(|data|)
    requires forall i :: 0 <= i < |data| && data[i].Some? ==> x[i] == 0
    ensures CauchySum(Pick(x, Missing(data, 0)), Points(Missing(data, 0)), |data| + Chosen(data, parity)[k]) == 0
  {
    hide Dot, CauchyRow, CauchySum, Missing, Chosen, Present, Pick, Points;
    var (present, chosen) := (Present(data, 0), Chosen(data, parity));
    var m := Rows(|data|, present, chosen);
    assert Apply(m, x)[|present| + k] == 0;
    RowIsCauchySum(data, x, chosen[k], 0);
    var row := CauchyRow(|data|, chosen[k]);
    assert row[0..] == row && row == m[|present| + k] && x[0..] == x;
  }

  lemma KernelIsZero(data: Slots, parity: Slots, x: Vec)
    requires |data| + |parity| <= MAX_TOTAL_SHARDS && |x| == |data|
    requires |Chosen(data, parity)| == |Missing(data, 0)|
    requires Apply(Rows(|data|, Present(data, 0), Chosen(data, parity)), x) == Zeros(|data|)
    ensures x == Zeros(|data|)
  {
    hide Dot, CauchySum, CauchyRow, Apply, Rows, Chosen, Missing, Present;
    var (chosen, missing) := (Chosen(data, parity), Missing(data, 0));
    PresentVanish(data, parity, x);
    var ys := seq(|chosen|, k requires 0 <= k < |chosen| => |data| + chosen[k]);
    forall k | 0 <= k < |ys| ensures CauchySum(Pick(x, missing), Points(missing), ys[k]) == 0 {
      ChosenVanish(data, parity, x, k);
    }
    CauchyKernel(Pick(x, missing), Points(missing), ys);
    forall i | 0 <= i < |data| ensures x[i] == 0 {
      if data[i].None? {
        MissingHas(data, 0, i);
        var k :| 0 <= k < |missing| && missing[k] == i;
        assert Pick(x, missing)[k] == 0;
      }
    }
  }

  lemma {:induction false} MissingHas(slots: Slots, i: nat, k: nat)
    requires i <= k < |slots| && slots[k].None?
    ensures k in Missing(slots, i)
    decreases |slots| - i
  {
    if i != k {
      MissingHas(slots, i + 1, k);
    }
  }

  // ---------- repair ----------

  function ShardsAt(slots: Slots, at: seq<nat>): (s: seq<Shard>)
    requires forall k :: 0 <= k < |at| ==> at[k] < |slots| && slots[at[k]].Some?
    ensures |s| == |at|
  {
    seq(|at|, k requires 0 <= k < |at| => slots[at[k]].value)
  }

  function Available(data: Slots, parity: Slots): seq<Shard> {
    ShardsAt(data, Present(data, 0)) + ShardsAt(parity, Chosen(data, parity))
  }

  predicate AllSized(slots: Slots, at: seq<nat>, size: nat)
    requires forall k :: 0 <= k < |at| ==> at[k] < |slots| && slots[at[k]].Some?
  {
    forall k :: 0 <= k < |at| ==> |slots[at[k]].value| == size
  }

  // Extending the selection by the next present slot.
  lemma NextPresent(slots: Slots, i: nat, c: nat)
    requires i < |slots| && c <= |Present(slots, 0)| && Present(slots, 0)[c..] == Present(slots, i)
    ensures slots[i].Some? ==> c < |Present(slots, 0)| && Present(slots, 0)[c] == i
                               && Present(slots, 0)[c + 1..] == Present(slots, i + 1)
    ensures slots[i].None? ==> Present(slots, 0)[c..] == Present(slots, i + 1)
  {
    var all := Present(slots, 0);
    if slots[i].Some? {
      assert all[c..] == [i] + Present(slots, i + 1);
      assert all[c] == all[c..][0];
      assert all[c + 1..] == all[c..][1..];
    }
  }

  lemma ExtendData(data: Slots, all: seq<nat>, c: nat)
    requires c < |all| && forall k :: 0 <= k < |all| ==> all[k] < |data| && data[all[k]].Some?
    ensures Rows(|data|, all[..c + 1], []) == Rows(|data|, all[..c], []) + [IdentityRow(|data|, all[c])]
    ensures ShardsAt(data, all[..c + 1]) == ShardsAt(data, all[..c]) + [data[all[c]].value]
  {
  }

  lemma ExtendParity(n: nat, present: seq<nat>, parity: Slots, all: seq<nat>, c: nat)
    requires c < |all| && n + |parity| <= MAX_TOTAL_SHARDS
    requires forall k :: 0 <= k < |all| ==> all[k] < |parity| && parity[all[k]].Some?
    ensures Rows(n, present, all[..c + 1]) == Rows(n, present, all[..c]) + [CauchyRow(n, all[c])]
    ensures ShardsAt(parity, all[..c + 1]) == ShardsAt(parity, all[..c]) + [parity[all[c]].value]
  {
    hide CauchyRow;
  }

  method CollectData(data: Slots, size: nat) returns (r: Result<(Mat, seq<Shard>)>)
    ensures !AllSized(data, Present(data, 0), size) ==> r == Err(FecInconsistentShardSize)
    ensures AllSized(data, Present(data, 0), size) ==>
              r == Ok((Rows(|data|, Present(data, 0), []), ShardsAt(data, Present(data, 0))))
  {
    hide Present, Rows, ShardsAt, IdentityRow;
    var rows: Mat, available: seq<Shard> := [], [];
    ghost var all := Present(data, 0);
    ghost var c := 0;
    assert rows == Rows(|data|, all[..0], []) && available == ShardsAt(data, all[..0]) by {
      NothingCollected(data, all);
    }
    for i := 0 to |data|
      invariant 0 <= c <= |all| && all[c..] == Present(data, i)
      invariant rows == Rows(|data|, all[..c], []) && available == ShardsAt(data, all[..c])
      invariant AllSized(data, all[..c], size)
    {
      NextPresent(data, i, c);
      if data[i].Some? {
        if |data[i].value| != size {
          return Err(FecInconsistentShardSize);
        }
        ExtendData(data, all, c);
        rows := rows + [IdentityRow(|data|, i)];
        available := available + [data[i].value];
        c := c + 1;
      }
    }
    PresentEnd(data);
    assert all[..c] == all;
    return Ok((rows, available));
  }

  lemma NothingCollected(data: Slots, all: seq<nat>)
    ensures Rows(|data|, all[..0], []) == [] && ShardsAt(data, all[..0]) == []
  {
  }

  lemma NothingSized(slots: Slots, size: nat)
    ensures AllSized(slots, [], size)
  {
  }

  lemma PresentEnd(slots: Slots)
    ensures Present(slots, |slots|) == []
  {
  }

  lemma SizedMore(slots: Slots, all: seq<nat>, c: nat, size: nat)
    requires c < |all| && forall k :: 0 <= k < |all| ==> all[k] < |slots| && slots[all[k]].Some?
    requires AllSized(slots, all[..c], size)
    ensures |slots[all[c]].value| == size ==> AllSized(slots, all[..c + 1], size)
    ensures |slots[all[c]].value| != size ==> forall n :: c < n <= |all| ==> !AllSized(slots, all[..n], size)
  {
    if |slots[all[c]].value| != size {
      forall n | c < n <= |all| ensures !AllSized(slots, all[..n], size) {
        assert all[..n][c] == all[c];
      }
    }
  }

  // Continues the rows of the present data with parity rows until the matrix is square.
  method CollectParity(t: Tables, dataCount: nat, rows0: Mat, available0: seq<Shard>, ghost present: seq<nat>,
                       parity: Slots, size: nat) returns (r: Result<(Mat, seq<Shard>)>)
    requires TablesOk(t) && dataCount + |parity| <= MAX_TOTAL_SHARDS && |present| <= dataCount
    requires rows0 == Rows(dataCount, present, [])
    ensures var all := Present(parity, 0);
            var need := dataCount - |present|;
            var chosen := if |all| < need then all else all[..need];
            if AllSized(parity, chosen, size)
            then r == Ok((Rows(dataCount, present, chosen), available0 + ShardsAt(parity, chosen)))
            else r == Err(FecInconsistentShardSize)
  {
    hide Present, Rows, ShardsAt, CauchyRow, AllSized;
    var rows, available := rows0, available0;
    ghost var all := Present(parity, 0);
    ghost var c := 0;
    assert ShardsAt(parity, all[..0]) == [] by {
      NothingCollected(parity, all);
    }
    assert all[..0] == [];
    assert AllSized(parity, all[..0], size) by {
      NothingSized(parity, size);
    }
    assert all[..|all|] == all;
    if |rows| < dataCount {
      for j := 0 to |parity|
        invariant 0 <= c <= |all| && all[c..] == Present(parity, j) && |present| + c < dataCount
        invariant rows == Rows(dataCount, present, all[..c])
        invariant available == available0 + ShardsAt(parity, all[..c])
        invariant AllSized(parity, all[..c], size)
      {
        NextPresent(parity, j, c);
        if parity[j].Some? {
          SizedMore(parity, all, c, size);
          var row := CauchyRowOf(t, dataCount, j);
          if |parity[j].value| != size {
            return Err(FecInconsistentShardSize);
          }
          ExtendParity(dataCount, present, parity, all, c);
          rows := rows + [row];
          available := available + [parity[j].value];
          c := c + 1;
          assert available == available0 + ShardsAt(parity, all[..c]);
          assert |rows| == |present| + c;
          if |rows| == dataCount {
            return Ok((rows, available));
          }
        }
      }
      PresentEnd(parity);
      assert all[..c] == all;
    } else {
      assert available0 + ShardsAt(parity, all[..0]) == available0;
    }
    return Ok((rows, available));
  }

  // ---------- the linear system repair solves ----------

  // Every shard repair uses is a combination of the data shards `d`, symbol by symbol.
  ghost predicate Solves(d: seq<Shard>, data: Slots, parity: Slots, size: nat)
    requires |data| + |parity| <= MAX_TOTAL_SHARDS && |d| == |data| && Uniform(d, size)
    requires Uniform(Available(data, parity), size)
  {
    forall k :: 0 <= k < size / 2 ==>
      Apply(Rows(|data|, Present(data, 0), Chosen(data, parity)), SymColumn(d, size, k))
      == SymColumn(Available(data, parity), size, k)
  }

  lemma SizedAvailable(data: Slots, parity: Slots, size: nat)
    requires AllSized(data, Present(data, 0), size) && AllSized(parity, Chosen(data, parity), size)
    ensures Uniform(Available(data, parity), size)
    ensures |Available(data, parity)| == |Present(data, 0)| + |Chosen(data, parity)|
    ensures forall i :: 0 <= i < |data| && data[i].Some? ==> |data[i].value| == size
  {
    forall i | 0 <= i < |data| && data[i].Some? ensures |data[i].value| == size {
      PresentHas(data, 0, i);
    }
  }

  lemma PresentRow(d: seq<Shard>, size: nat, i: nat, k: nat)
    requires Uniform(d, size) && i < |d| && 2 * k + 1 < size
    ensures Dot(IdentityRow(|d|, i), SymColumn(d, size, k)) == Sym(d[i], k)
  {
    hide Dot;
    DotUnit(IdentityRow(|d|, i), SymColumn(d, size, k), i);
  }

  lemma ParityRow(d: seq<Shard>, size: nat, j: nat, k: nat)
    requires Uniform(d, size) && size % 2 == 0 && 2 * k + 1 < size && |d| + j < MAX_TOTAL_SHARDS
    ensures Dot(CauchyRow(|d|, j), SymColumn(d, size, k)) == Sym(ParityShard(d, size, j), k)
  {
    hide Dot, CauchyRow, SymColumn, FromSyms;
    SymsFromSyms(Combined(CauchyRow(|d|, j), d, size));
    assert Syms(ParityShard(d, size, j))[k] == Combined(CauchyRow(|d|, j), d, size)[k];
  }

  lemma SystemRow(d: seq<Shard>, data: Slots, parity: Slots, size: nat, k: nat, r: nat)
    requires |data| + |parity| <= MAX_TOTAL_SHARDS && |d| == |data| && Uniform(d, size) && size % 2 == 0
    requires 2 * k + 1 < size && r < |Present(data, 0)| + |Chosen(data, parity)|
    ensures Dot(Rows(|data|, Present(data, 0), Chosen(data, parity))[r], SymColumn(d, size, k))
         == if r < |Present(data, 0)| then Sym(d[Present(data, 0)[r]], k)
            else Sym(ParityShard(d, size, Chosen(data, parity)[r - |Present(data, 0)|]), k)
  {
    hide Dot, CauchyRow, SymColumn, ParityShard, IdentityRow, Present, Chosen, Sym;
    var (present, chosen) := (Present(data, 0), Chosen(data, parity));
    if r < |present| {
      PresentRow(d, size, present[r], k);
    } else {
      ParityRow(d, size, chosen[r - |present|], k);
    }
  }

  lemma RestoresSolves(d: seq<Shard>, data: Slots, parity: Slots, size: nat)
    requires |data| + |parity| <= MAX_TOTAL_SHARDS && size % 2 == 0
    requires AllSized(data, Present(data, 0), size) && AllSized(parity, Chosen(data, parity), size)
    requires Restores(d, data, parity, size)
    ensures Uniform(Available(data, parity), size) && Solves(d, data, parity, size)
  {
    hide Apply, SymColumn, ParityShard, Present, Chosen, Rows, AllSized, Available;
    SizedAvailable(data, parity, size);
    forall k | 0 <= k < size / 2
      ensures Apply(Rows(|data|, Present(data, 0), Chosen(data, parity)), SymColumn(d, size, k))
           == SymColumn(Available(data, parity), size, k)
    {
      RestoresColumn(d, data, parity, size, k);
    }
  }

  lemma RestoresColumn(d: seq<Shard>, data: Slots, parity: Slots, size: nat, k: nat)
    requires |data| + |parity| <= MAX_TOTAL_SHARDS && size % 2 == 0 && k < size / 2
    requires AllSized(data, Present(data, 0), size) && AllSized(parity, Chosen(data, parity), size)
    requires Restores(d, data, parity, size)
    ensures Uniform(Available(data, parity), size)
    ensures Apply(Rows(|data|, Present(data, 0), Chosen(data, parity)), SymColumn(d, size, k))
         == SymColumn(Available(data, parity), size, k)
  {
    hide Dot, CauchyRow, ParityShard, Present, Chosen, Rows, Sym, Restores, Available, AllSized;
    SizedAvailable(data, parity, size);
    var (m, av) := (Rows(|data|, Present(data, 0), Chosen(data, parity)), Available(data, parity));
    assert |d| == |data| && Uniform(d, size) by { RestoresShape(d, data, parity, size); }
    forall r | 0 <= r < |m| ensures Dot(m[r], SymColumn(d, size, k)) == Sym(av[r], k) {
      RestoresRow(d, data, parity, size, k, r);
    }
  }

  lemma RestoresShape(d: seq<Shard>, data: Slots, parity: Slots, size: nat)
    requires |data| + |parity| <= MAX_TOTAL_SHARDS && size % 2 == 0 && Restores(d, data, parity, size)
    ensures |d| == |data| && Uniform(d, size)
  {
    hide Chosen, ParityShard;
  }

  lemma RestoresRow(d: seq<Shard>, data: Slots, parity: Slots, size: nat, k: nat, r: nat)
    requires |data| + |parity| <= MAX_TOTAL_SHARDS && size % 2 == 0 && k < size / 2
    requires AllSized(data, Present(data, 0), size) && AllSized(parity, Chosen(data, parity), size)
    requires Restores(d, data, parity, size) && r < |Present(data, 0)| + |Chosen(data, parity)|
    ensures r < |Available(data, parity)| && |Available(data, parity)[r]| == size
    ensures Dot(Rows(|data|, Present(data, 0), Chosen(data, parity))[r], SymColumn(d, size, k))
         == Sym(Available(data, parity)[r], k)
  {
    hide Dot, CauchyRow, ParityShard, Present, Chosen, Rows, Sym, SymColumn;
    SystemRow(d, data, parity, size, k, r);
  }

  lemma SolvesRestores(d: seq<Shard>, data: Slots, parity: Slots, size: nat)
    requires |data| + |parity| <= MAX_TOTAL_SHARDS && size % 2 == 0
    requires AllSized(data, Present(data, 0), size) && AllSized(parity, Chosen(data, parity), size)
    requires |d| == |data| && Uniform(d, size)
    requires Uniform(Available(data, parity), size) && Solves(d, data, parity, size)
    ensures Restores(d, data, parity, size)
  {
    hide ParityShard, Present, Chosen, Solves, Available, AllSized;
    forall i | 0 <= i < |data| && data[i].Some? ensures d[i] == data[i].value {
      PresentRestored(d, data, parity, size, i);
    }
    forall k | 0 <= k < |Chosen(data, parity)|
      ensures parity[Chosen(data, parity)[k]].value == ParityShard(d, size, Chosen(data, parity)[k])
    {
      AvailableAt(data, parity);
      RowDetermines(d, data, parity, size, |Present(data, 0)| + k);
    }
  }

  lemma PresentRestored(d: seq<Shard>, data: Slots, parity: Slots, size: nat, i: nat)
    requires |data| + |parity| <= MAX_TOTAL_SHARDS && size % 2 == 0
    requires |d| == |data| && Uniform(d, size)
    requires Uniform(Available(data, parity), size) && Solves(d, data, parity, size)
    requires i < |data| && data[i].Some?
    ensures d[i] == data[i].value
  {
    hide ParityShard, Present, Chosen, Solves, Available;
    PresentHas(data, 0, i);
    var r :| 0 <= r < |Present(data, 0)| && Present(data, 0)[r] == i;
    AvailableAt(data, parity);
    RowDetermines(d, data, parity, size, r);
  }

  lemma AvailableAt(data: Slots, parity: Slots)
    ensures |Available(data, parity)| == |Present(data, 0)| + |Chosen(data, parity)|
    ensures forall r :: 0 <= r < |Present(data, 0)| ==>
              Available(data, parity)[r] == data[Present(data, 0)[r]].value
    ensures forall k :: 0 <= k < |Chosen(data, parity)| ==>
              Available(data, parity)[|Present(data, 0)| + k] == parity[Chosen(data, parity)[k]].value
  {
    hide Present, Chosen;
  }

  lemma RowDetermines(d: seq<Shard>, data: Slots, parity: Slots, size: nat, r: nat)
    requires |data| + |parity| <= MAX_TOTAL_SHARDS && size % 2 == 0
    requires |d| == |data| && Uniform(d, size)
    requires Uniform(Available(data, parity), size) && Solves(d, data, parity, size)
    requires r < |Present(data, 0)| + |Chosen(data, parity)|
    ensures Available(data, parity)[r]
         == if r < |Present(data, 0)| then d[Present(data, 0)[r]]
            else ParityShard(d, size, Chosen(data, parity)[r - |Present(data, 0)|])
  {
    hide Dot, CauchyRow, ParityShard, Present, Chosen, Rows, Sym;
    var (present, chosen) := (Present(data, 0), Chosen(data, parity));
    var (m, av) := (Rows(|data|, present, chosen), Available(data, parity));
    var s := if r < |present| then d[present[r]] else ParityShard(d, size, chosen[r - |present|]);
    assert |av[r]| == size;
    forall k | 0 <= k < size / 2 ensures Sym(av[r], k) == Sym(s, k) {
      SystemRow(d, data, parity, size, k, r);
      assert Apply(m, SymColumn(d, size, k))[r] == SymColumn(av, size, k)[r];
    }
    SymsDetermine(av[r], s);
  }

  // ---------- the inverse matrix gives the only solution ----------

  ghost predicate Repaired(d: seq<Shard>, data: Slots, parity: Slots, size: nat, inverse: Mat)
    requires size % 2 == 0 && Uniform(Available(data, parity), size)
    requires |d| == |Available(data, parity)| && Shaped(inverse, |d|, |d|)
  {
    forall i :: 0 <= i < |d| ==> d[i] == FromSyms(Combined(inverse[i], Available(data, parity), size))
  }

  lemma ColumnOfRepaired(d: seq<Shard>, av: seq<Shard>, size: nat, inverse: Mat, k: nat)
    requires size % 2 == 0 && Uniform(av, size) && |d| == |av| && Shaped(inverse, |d|, |d|) && Uniform(d, size)
    requires 2 * k + 1 < size && forall i :: 0 <= i < |d| ==> d[i] == FromSyms(Combined(inverse[i], av, size))
    ensures Apply(inverse, SymColumn(av, size, k)) == SymColumn(d, size, k)
  {
    hide Dot, FromSyms;
    forall i | 0 <= i < |d| ensures Dot(inverse[i], SymColumn(av, size, k)) == Sym(d[i], k) {
      SymsFromSyms(Combined(inverse[i], av, size));
      assert Syms(d[i])[k] == Combined(inverse[i], av, size)[k];
    }
  }

  lemma RepairedFromColumns(d: seq<Shard>, av: seq<Shard>, size: nat, inverse: Mat, i: nat)
    requires size % 2 == 0 && Uniform(av, size) && |d| == |av| && Shaped(inverse, |d|, |d|) && Uniform(d, size)
    requires forall k :: 0 <= k < size / 2 ==> Apply(inverse, SymColumn(av, size, k)) == SymColumn(d, size, k)
    requires i < |d|
    ensures d[i] == FromSyms(Combined(inverse[i], av, size))
  {
    hide Dot, FromSyms;
    forall k | 0 <= k < size / 2 ensures Combined(inverse[i], av, size)[k] == Sym(d[i], k) {
      assert Apply(inverse, SymColumn(av, size, k))[i] == SymColumn(d, size, k)[i];
    }
    SymsFromSyms(Combined(inverse[i], av, size));
    SymsDetermine(d[i], FromSyms(Combined(inverse[i], av, size)));
  }

  lemma InverseSolves(d: seq<Shard>, data: Slots, parity: Slots, size: nat, inverse: Mat)
    requires |data| + |parity| <= MAX_TOTAL_SHARDS && size % 2 == 0
    requires |d| == |data| == |Present(data, 0)| + |Chosen(data, parity)| && Uniform(d, size)
    requires Uniform(Available(data, parity), size) && |Available(data, parity)| == |data|
    requires Shaped(inverse, |data|, |data|)
    requires Inverses(Rows(|data|, Present(data, 0), Chosen(data, parity)), inverse)
    ensures Solves(d, data, parity, size) <==> Repaired(d, data, parity, size, inverse)
  {
    hide Dot, Present, Chosen, Rows, Available, Inverses, FromSyms, Apply, SymColumn, Combined;
    var m := Rows(|data|, Present(data, 0), Chosen(data, parity));
    var av := Available(data, parity);
    forall k | 0 <= k < size / 2
      ensures Apply(m, SymColumn(d, size, k)) == SymColumn(av, size, k)
         <==> Apply(inverse, SymColumn(av, size, k)) == SymColumn(d, size, k)
    {
      InversesAt(m, inverse, SymColumn(d, size, k), SymColumn(av, size, k));
    }
    if Solves(d, data, parity, size) {
      forall i | 0 <= i < |data| ensures d[i] == FromSyms(Combined(inverse[i], av, size)) {
        RepairedFromColumns(d, av, size, inverse, i);
      }
    }
    if Repaired(d, data, parity, size, inverse) {
      forall k | 0 <= k < size / 2 ensures Apply(inverse, SymColumn(av, size, k)) == SymColumn(d, size, k) {
        ColumnOfRepaired(d, av, size, inverse, k);
      }
    }
  }

  method SolveMissing(t: Tables, e: Endian, data: Slots, parity: Slots, size: nat,
                      rows: Mat, available: seq<Shard>) returns (r: Result<seq<Shard>>)
    requires TablesOk(t) && |data| + |parity| <= MAX_TOTAL_SHARDS && size % 2 == 0
    requires AllSized(data, Present(data, 0), size) && AllSized(parity, Chosen(data, parity), size)
    requires |Chosen(data, parity)| == |Missing(data, 0)|
    requires rows == Rows(|data|, Present(data, 0), Chosen(data, parity))
    requires available == Available(data, parity)
    ensures r.Ok? && Restores(r.value, data, parity, size)
    ensures forall d :: Restores(d, data, parity, size) ==> d == r.value
  {
    hide Present, Missing, Chosen, Rows, Available, Restores, Solves, Singular, Inverses, FromSyms, Combined;
    RowsIndependent(data, parity);
    SizedAvailable(data, parity, size);
    var inverse := InvertMatrix(rows);
    var repaired: seq<Shard> := [];
    for i := 0 to |data|
      invariant |repaired| == i && Uniform(repaired, size)
      invariant forall k :: 0 <= k < i ==> repaired[k] == FromSyms(Combined(inverse.value[k], available, size))
    {
      var shard := CombineShards(t, e, inverse.value[i], available, size);
      repaired := repaired + [shard];
    }
    InverseSolves(repaired, data, parity, size, inverse.value);
    SolvesRestores(repaired, data, parity, size);
    forall d | Restores(d, data, parity, size) ensures d == repaired {
      RestoresShape(d, data, parity, size);
      RestoresSolves(d, data, parity, size);
      InverseSolves(d, data, parity, size, inverse.value);
    }
    return Ok(repaired);
  }

  predicate Complete(data: Slots, size: nat) {
    forall i :: 0 <= i < |data| ==> data[i].Some? && |data[i].value| == size
  }

  function Values(data: Slots): (s: seq<Shard>)
    requires forall i :: 0 <= i < |data| ==> data[i].Some?
    ensures |s| == |data|
  {
    seq(|data|, i requires 0 <= i < |data| => data[i].value)
  }

  lemma NoShards(parity: Slots, size: nat)
    ensures RepairError([], parity, size) == Some(FecZeroDataShards)
  {
  }

  // Nothing missing: the shards themselves are the answer.
  method CompleteShards(data: Slots, size: nat) returns (r: Result<seq<Shard>>)
    requires forall i :: 0 <= i < |data| ==> data[i].Some?
    ensures (exists i :: 0 <= i < |data| && |data[i].value| != size) ==> r == Err(FecInconsistentShardSize)
    ensures (forall i :: 0 <= i < |data| ==> |data[i].value| == size) ==>
              r == Ok(Values(data))
  {
    var out: seq<Shard> := [];
    for i := 0 to |data|
      invariant |out| == i && forall k :: 0 <= k < i ==> out[k] == data[k].value && |data[k].value| == size
    {
      if |data[i].value| != size {
        return Err(FecInconsistentShardSize);
      }
      out := out + [data[i].value];
    }
    assert out == seq(|data|, i requires 0 <= i < |data| => data[i].value);
    return Ok(out);
  }

  lemma NoneMissing(data: Slots, parity: Slots, size: nat)
    ensures Missing(data, 0) == [] <==> forall i :: 0 <= i < |data| ==> data[i].Some?
    ensures Missing(data, 0) == [] ==> Chosen(data, parity) == []
    ensures AllSized(data, Present(data, 0), size)
       <==> forall i :: 0 <= i < |data| && data[i].Some? ==> |data[i].value| == size
  {
    if Missing(data, 0) != [] {
      assert data[Missing(data, 0)[0]].None?;
    } else {
      forall i | 0 <= i < |data| ensures data[i].Some? {
        if data[i].None? {
          MissingHas(data, 0, i);
        }
      }
    }
    if AllSized(data, Present(data, 0), size) {
      forall i | 0 <= i < |data| && data[i].Some? ensures |data[i].value| == size {
        PresentHas(data, 0, i);
      }
    }
  }

  // Any shards that fail to reach the data count are reported; otherwise the
  // result is the one data set that agrees with the shards used.
  method RepairData(e: Endian, data: Slots, parity: Slots, size: nat) returns (r: Result<seq<Shard>>)
    ensures RepairError(data, parity, size).Some? ==> r == Err(RepairError(data, parity, size).value)
    ensures RepairError(data, parity, size).None? ==> r.Ok? && Restores(r.value, data, parity, size)
    ensures RepairError(data, parity, size).None? ==>
              forall d :: Restores(d, data, parity, size) ==> d == r.value
  {
    hide Present, Missing, Rows, Restores, Singular, ShardsAt, ValidateCounts;
    var counts := ValidateCounts(|data|, |parity|);
    if counts.Some? {
      return Err(counts.value);
    }
    if size % 2 != 0 {
      return Err(FecOddShardSize);
    }
    NoneMissing(data, parity, size);
    if forall i :: 0 <= i < |data| ==> data[i].Some? {
      r := CompleteShards(data, size);
      if r.Ok? {
        CompleteRestores(data, parity, size, r.value);
      }
      return;
    }
    if |data| > MAX_REPAIR_SHARDS {
      return Err(ReaderResourceLimitExceeded("fec repair data shards", MAX_REPAIR_SHARDS, |data|));
    }
    var fromData := CollectData(data, size);
    if fromData.Err? {
      return Err(fromData.error);
    }
    var t := BuildTables();
    var all := CollectParity(t, |data|, fromData.value.0, fromData.value.1, Present(data, 0), parity, size);
    if all.Err? {
      return Err(all.error);
    }
    var (rows, available) := all.value;
    if |rows| < |data| {
      return Err(FecTooFewAvailableShards);
    }
    r := SolveMissing(t, e, data, parity, size, rows, available);
  }

  lemma CompleteRestores(data: Slots, parity: Slots, size: nat, d: seq<Shard>)
    requires |data| + |parity| <= MAX_TOTAL_SHARDS && size % 2 == 0
    requires forall i :: 0 <= i < |data| ==> data[i].Some? && |data[i].value| == size
    requires d == Values(data)
    ensures Restores(d, data, parity, size)
    ensures forall d' :: Restores(d', data, parity, size) ==> d' == d
  {
    hide ParityShard;
    NoneMissing(data, parity, size);
  }

  // ---------- recovery of the bytes ----------

  function Concat(shards: seq<Shard>): seq<byte> {
    if |shards| == 0 then [] else shards[0] + Concat(shards[1..])
  }

  lemma {:induction false} ConcatAppend(shards: seq<Shard>, s: Shard)
    ensures Concat(shards + [s]) == Concat(shards) + s
  {
    if |shards| == 0 {
      assert Concat([s]) == s;
    } else {
      ConcatAppend(shards[1..], s);
      assert (shards + [s])[1..] == shards[1..] + [s];
    }
  }

  method ConcatenateShards(shards: seq<Shard>) returns (out: seq<byte>)
    ensures out == Concat(shards)
  {
    out := [];
    for i := 0 to |shards|
      invariant out == Concat(shards[..i])
    {
      ConcatAppend(shards[..i], shards[i]);
      assert shards[..i + 1] == shards[..i] + [shards[i]];
      out := out + shards[i];
    }
    assert shards[..|shards|] == shards;
  }

  // The bytes of the repaired shards, with a shortcut when no data shard is missing.
  method RecoverDataBytes(e: Endian, data: Slots, parity: Slots, size: nat) returns (r: Result<seq<byte>>)
    ensures RepairError(data, parity, size).None? && |data| * size <= USIZE_MAX ==>
              r.Ok? && exists d :: Restores(d, data, parity, size) && r.value == Concat(d)
    ensures RepairError(data, parity, size).None? && |data| * size <= USIZE_MAX ==>
              forall d :: Restores(d, data, parity, size) ==> r == Ok(Concat(d))
    ensures Missing(data, 0) != [] && RepairError(data, parity, size).Some? ==>
              r == Err(RepairError(data, parity, size).value)
    ensures (&& Missing(data, 0) == [] && data != []
             && (|data| * size > USIZE_MAX || !AllSized(data, Present(data, 0), size))) ==>
              r == Err(FecInconsistentShardSize)
    ensures data != [] && Complete(data, size) && |data| * size <= USIZE_MAX ==> r == Ok(Concat(Values(data)))
    ensures data == [] ==> r == Err(FecZeroDataShards)
  {
    hide Present, Missing, Restores, Concat, ValidateCounts, Values, AllSized;
    NoShards(parity, size);
    NoneMissing(data, parity, size);
    if data != [] && forall i :: 0 <= i < |data| ==> data[i].Some? {
      if |data| * size > USIZE_MAX {
        return Err(FecInconsistentShardSize);
      }
      var complete := CompleteShards(data, size);
      if complete.Err? {
        return Err(FecInconsistentShardSize);
      }
      var bytes := ConcatenateShards(complete.value);
      if RepairError(data, parity, size).None? {
        CountsBounded(|data|, |parity|);
        CompleteRestores(data, parity, size, complete.value);
      }
      return Ok(bytes);
    }
    var repaired := RepairData(e, data, parity, size);
    if repaired.Err? {
      return Err(repaired.error);
    }
    var bytes := ConcatenateShards(repaired.value);
    return Ok(bytes);
  }

  lemma CountsBounded(dataCount: nat, parityCount: nat)
    ensures ValidateCounts(dataCount, parityCount).None? ==> dataCount + parityCount <= MAX_TOTAL_SHARDS
  {
  }

  // The errors of repair in their order: the counts, an odd size, the limit on repair work, a wrong size among the
  // shards used, and too few survivors.
  lemma RepairErrors(data: Slots, parity: Slots, size: nat)
    requires 1 <= |data| && |data| + |parity| <= 65535
    ensures var missing := exists i :: 0 <= i < |data| && data[i].None?;
            RepairError(data, parity, size)
            == if size % 2 == 1 then Some(FecOddShardSize)
               else if missing && |data| > 1024 then
                 Some(ReaderResourceLimitExceeded("fec repair data shards", 1024, |data|))
               else if exists i :: 0 <= i < |data| && data[i].Some? && |data[i].value| != size then
                 Some(FecInconsistentShardSize)
               else if !AllSized(parity, Chosen(data, parity), size) then Some(FecInconsistentShardSize)
               else if |Present(data, 0)| + |Present(parity, 0)| < |data| then Some(FecTooFewAvailableShards)
               else None
  {
    hide Present, Missing, AllSized;
    NoneMissing(data, parity, size);
  }

  // ---------- any D surviving shards restore the data ----------

  lemma ErasedRestores(d: seq<Shard>, data: Slots, parity: Slots, size: nat)
    requires 1 <= |data| && |data| + |parity| <= MAX_TOTAL_SHARDS && size % 2 == 0
    requires Erased(d, data, parity, size)
    ensures Restores(d, data, parity, size)
    ensures RepairError(data, parity, size)
         == if Missing(data, 0) != [] && |data| > 1024 then
              Some(ReaderResourceLimitExceeded("fec repair data shards", 1024, |data|))
            else if |Present(data, 0)| + |Present(parity, 0)| >= |data| then None
            else Some(FecTooFewAvailableShards)
  {
    hide ParityShard;
    ParitySized(d, data, parity, size);
    NoneMissing(data, parity, size);
  }

  lemma ParitySized(d: seq<Shard>, data: Slots, parity: Slots, size: nat)
    requires |data| + |parity| <= MAX_TOTAL_SHARDS && size % 2 == 0 && Erased(d, data, parity, size)
    ensures AllSized(parity, Chosen(data, parity), size)
  {
    hide Chosen;
  }

  function Keep(shards: seq<Shard>, mask: seq<bool>): (slots: Slots)
    requires |shards| == |mask|
    ensures |slots| == |mask|
  {
    seq(|mask|, i requires 0 <= i < |mask| => if mask[i] then Some(shards[i]) else None)
  }

  function Kept(mask: seq<bool>, i: nat): nat
    requires i <= |mask|
    decreases |mask| - i
  {
    if i == |mask| then 0 else (if mask[i] then 1 else 0) + Kept(mask, i + 1)
  }

  lemma {:induction false} KeptPresent(shards: seq<Shard>, mask: seq<bool>, i: nat)
    requires |shards| == |mask| && i <= |mask|
    ensures |Present(Keep(shards, mask), i)| == Kept(mask, i)
    decreases |mask| - i
  {
    if i < |mask| {
      KeptPresent(shards, mask, i + 1);
    }
  }

  // Encode, lose every shard outside the masks, repair.
  method EncodeEraseRepair(e: Endian, data: seq<Shard>, parityCount: nat, keepData: seq<bool>, keepParity: seq<bool>)
    returns (r: Result<seq<Shard>>)
    requires |keepData| == |data| && |keepParity| == parityCount
    ensures ValidateShape(data, parityCount).Some? ==> r == Err(ValidateShape(data, parityCount).value)
    ensures ValidateShape(data, parityCount).None? ==>
              r == if forall i :: 0 <= i < |data| ==> keepData[i] then Ok(data)
                   else if |data| > 1024 then
                     Err(ReaderResourceLimitExceeded("fec repair data shards", 1024, |data|))
                   else if Kept(keepData, 0) + Kept(keepParity, 0) >= |data| then Ok(data)
                   else Err(FecTooFewAvailableShards)
  {
    hide ParityShard, RepairError, Restores, Kept, Present, Missing;
    var parity := EncodeParity(e, data, parityCount);
    if parity.Err? {
      return Err(parity.error);
    }
    var size := |data[0]|;
    var (dataSlots, paritySlots) := (Keep(data, keepData), Keep(parity.value, keepParity));
    assert Erased(data, dataSlots, paritySlots, size);
    ErasedRestores(data, dataSlots, paritySlots, size);
    NoneMissing(dataSlots, paritySlots, size);
    KeptPresent(data, keepData, 0);
    KeptPresent(parity.value, keepParity, 0);
    r := RepairData(e, dataSlots, paritySlots, size);
    KeepAll(data, keepData);
    AllKept(keepData, 0);
  }

  lemma KeepAll(shards: seq<Shard>, mask: seq<bool>)
    requires |shards| == |mask|
    ensures (forall i :: 0 <= i < |mask| ==> mask[i]) <==> forall i :: 0 <= i < |mask| ==> Keep(shards, mask)[i].Some?
  {
    forall i | 0 <= i < |mask|
      ensures mask[i] <==> Keep(shards, mask)[i].Some?
    {
    }
  }

  lemma {:induction false} AllKept(mask: seq<bool>, i: nat)
    requires i <= |mask|
    ensures (forall k :: i <= k < |mask| ==> mask[k]) ==> Kept(mask, i) == |mask| - i
    decreases |mask| - i
  {
    if i < |mask| {
      AllKept(mask, i + 1);
    }
  }

  // One data shard 01 00: the parity shards are itself and the inverse of 2, 0x8805, low byte first.
  method ParityExample(e: Endian) returns (r: Result<seq<Shard>>)
    ensures r == Ok([[1, 0], [0x05, 0x88]])
  {
    hide ParityShard, ValidateShape, Mul, Uniform;
    ExampleShape();
    r := EncodeParity(e, [[1, 0]], 2);
    InverseOfTwo();
    ExampleShard(0, 1, 1);
    ExampleShard(1, 2, 0x8805);
    assert r.value == [r.value[0], r.value[1]];
  }

  lemma ExampleShape()
    ensures ValidateShape([[1, 0]], 2).None? && Uniform([[1, 0]], 2)
  {
  }

  lemma InverseOfTwo()
    ensures Mul(2, 0x8805) == 1 && Mul(1, 1) == 1
  {
    hide Add;
    MulComm(2, 0x8805);
    MulOneRight(1);
    MulOneRight(0x8805);
    AddZero(Double(0x8805));
    assert Mul(0x8805, 2) == Double(0x8805) == Add(0x100a, 0x100b);
    OddNext(0x805);
    AddAssoc(0x100a, 0x100a, 1);
    AddSelf(0x100a);
    AddZero(1);
  }

  lemma ExampleShard(j: nat, point: Elem, c: Elem)
    requires j < 2 && point == 1 + j && Mul(point, c) == 1
    ensures ParityShard([[1, 0]], 2, j) == [c % 256, c / 256]
  {
    hide Mul, Inv;
    var data: seq<Shard> := [[1, 0]];
    assert Add(0, point) == point by { AddZero(point); }
    InverseUnique(point, c);
    assert CauchyRow(1, j) == [c];
    var column := SymColumn(data, 2, 0);
    assert column == [1];
    OneTerm(c);
    assert Combined([c], data, 2) == [c];
    HalvesAt([c], 0);
  }

  lemma OneTerm(c: Elem)
    ensures Dot([c], [1]) == c
  {
    hide Mul;
    MulOneRight(c);
    AddZero(c);
    assert [c][1..] == [] && [1][1..] == [];
  }
}
