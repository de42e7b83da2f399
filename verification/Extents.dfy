/** Byte streams that a list of file extents promises. */
module Extents {
  import opened Format
  import opened Sparse

  function Sum(todo: seq<Extent>): nat {
    if |todo| == 0 then 0 else todo[0].length + Sum(todo[1..])
  }

  ghost predicate Positive(todo: seq<Extent>) {
    forall i :: 0 <= i < |todo| ==> 0 < todo[i].length
  }

  ghost predicate Ordered(todo: seq<Extent>) {
    forall i :: 0 <= i < |todo| - 1 ==> todo[i].offset + todo[i].length <= todo[i + 1].offset
  }

  // A file read past its end supplies zeros.
  function ByteAt(content: seq<byte>, k: nat): byte {
    if k < |content| then content[k] else 0
  }

  function Slice(content: seq<byte>, offset: nat, n: nat): (s: seq<byte>)
    ensures |s| == n
  {
    seq<byte>(n, i requires 0 <= i < n => ByteAt(content, offset + i))
  }

  // The zero-extended file restricted to the extents.
  function Stream(todo: seq<Extent>, content: seq<byte>): (s: seq<byte>)
    ensures |s| == Sum(todo)
  {
    if |todo| == 0 then [] else Slice(content, todo[0].offset, todo[0].length) + Stream(todo[1..], content)
  }

  // What is left after `n` more bytes.
  function Advance(todo: seq<Extent>, n: nat): seq<Extent>
    requires n <= Sum(todo)
  {
    if n == 0 then todo
    else if n < todo[0].length then [Extent(todo[0].offset + n, todo[0].length - n)] + todo[1..]
    else Advance(todo[1..], n - todo[0].length)
  }

  lemma {:induction false} AdvanceStream(todo: seq<Extent>, n: nat, content: seq<byte>)
    requires n <= Sum(todo)
    ensures Sum(Advance(todo, n)) == Sum(todo) - n
    ensures Stream(Advance(todo, n), content) == Stream(todo, content)[n..]
  {
    if n == 0 {
      assert Stream(todo, content)[0..] == Stream(todo, content);
    } else {
      var first := Slice(content, todo[0].offset, todo[0].length);
      var rest := Stream(todo[1..], content);
      if n < todo[0].length {
        CutFirst(todo, n, content);
      } else {
        AdvanceStream(todo[1..], n - todo[0].length, content);
        assert (first + rest)[n..] == rest[n - todo[0].length..];
      }
    }
  }

  lemma CutFirst(todo: seq<Extent>, n: nat, content: seq<byte>)
    requires todo != [] && n < todo[0].length
    ensures var cut := [Extent(todo[0].offset + n, todo[0].length - n)] + todo[1..];
            Sum(cut) == Sum(todo) - n && Stream(cut, content) == Stream(todo, content)[n..]
  {
    var cut := [Extent(todo[0].offset + n, todo[0].length - n)] + todo[1..];
    var first := Slice(content, todo[0].offset, todo[0].length);
    assert cut[1..] == todo[1..];
    assert Slice(content, todo[0].offset + n, todo[0].length - n) == first[n..];
    assert (first + Stream(todo[1..], content))[n..] == first[n..] + Stream(todo[1..], content);
  }

  lemma {:induction false} AdvanceTwice(todo: seq<Extent>, m: nat, n: nat)
    requires m + n <= Sum(todo) && Positive(todo)
    ensures Sum(Advance(todo, m)) == Sum(todo) - m
    ensures Advance(Advance(todo, m), n) == Advance(todo, m + n)
    decreases |todo|
  {
    AdvanceStream(todo, m, []);
    if m != 0 && n != 0 {
      if m < todo[0].length {
        var cut := [Extent(todo[0].offset + m, todo[0].length - m)] + todo[1..];
        assert cut[1..] == todo[1..];
      } else {
        AdvanceTwice(todo[1..], m - todo[0].length, n);
      }
    }
  }

  // Every byte still promised lies past the end of the file.
  ghost predicate PastEnd(todo: seq<Extent>, content: seq<byte>) {
    forall i :: 0 <= i < |todo| ==> |content| <= todo[i].offset
  }

  lemma {:induction false} PastEndOrdered(todo: seq<Extent>, content: seq<byte>)
    requires Ordered(todo) && todo != [] && |content| <= todo[0].offset
    ensures PastEnd(todo, content)
  {
    if |todo| > 1 {
      assert todo[0].offset + todo[0].length <= todo[0 + 1].offset;
      PastEndOrdered(todo[1..], content);
      assert forall i :: 1 <= i < |todo| ==> todo[i] == todo[1..][i - 1];
    }
  }

  lemma {:induction false} PastEndZeros(todo: seq<Extent>, content: seq<byte>)
    requires PastEnd(todo, content)
    ensures forall k :: 0 <= k < Sum(todo) ==> Stream(todo, content)[k] == 0
  {
    if |todo| != 0 {
      PastEndZeros(todo[1..], content);
      var first := Slice(content, todo[0].offset, todo[0].length);
      assert |content| <= todo[0].offset;
      forall k | 0 <= k < |first| ensures first[k] == 0 {
        assert first[k] == ByteAt(content, todo[0].offset + k);
      }
      assert Stream(todo, content) == first + Stream(todo[1..], content);
    }
  }

  lemma {:induction false} PastEndAdvance(todo: seq<Extent>, n: nat, content: seq<byte>)
    requires n <= Sum(todo) && PastEnd(todo, content)
    ensures PastEnd(Advance(todo, n), content)
  {
    if n != 0 && n >= todo[0].length {
      PastEndAdvance(todo[1..], n - todo[0].length, content);
    }
  }

  lemma StreamPrefix(todo: seq<Extent>, content: seq<byte>, m: nat)
    requires todo != [] && m <= todo[0].length
    ensures Stream(todo, content)[..m] == Slice(content, todo[0].offset, m)
  {
  }

  // The stream so far, continued with the head of what is left.
  lemma StreamGrow(todo: seq<Extent>, content: seq<byte>, w: nat, m: nat)
    requires w + m <= Sum(todo)
    ensures Sum(Advance(todo, w)) == Sum(todo) - w
    ensures Stream(todo, content)[..w + m] == Stream(todo, content)[..w] + Stream(Advance(todo, w), content)[..m]
  {
    AdvanceStream(todo, w, content);
  }

  // How many of the promised bytes lie past the end of a file of this length.
  ghost function Lost(todo: seq<Extent>, end: nat): nat {
    if |todo| == 0 then 0
    else
      var e := todo[0];
      (if end <= e.offset then e.length else if end < e.offset + e.length then e.offset + e.length - end else 0)
      + Lost(todo[1..], end)
  }

  lemma {:induction false} LostAll(todo: seq<Extent>, content: seq<byte>)
    requires PastEnd(todo, content)
    ensures Lost(todo, |content|) == Sum(todo)
  {
    if |todo| != 0 {
      LostAll(todo[1..], content);
    }
  }

  // Bytes that were there do not count as lost.
  lemma LostRead(todo: seq<Extent>, m: nat, end: nat)
    requires todo != [] && 0 < m <= todo[0].length && todo[0].offset + m <= end && m <= Sum(todo)
    ensures Lost(Advance(todo, m), end) == Lost(todo, end)
  {
    if m < todo[0].length {
      var cut := [Extent(todo[0].offset + m, todo[0].length - m)] + todo[1..];
      assert cut[1..] == todo[1..];
    } else {
      assert Advance(todo[1..], 0) == todo[1..];
    }
  }
}
