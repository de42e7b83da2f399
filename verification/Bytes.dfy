/** Little-endian integers and bytewise exclusive or. */
module Bytes {
  import opened Bits
  import opened Format

  function FromLe(bs: seq<byte>): nat {
    if |bs| == 0 then 0 else bs[0] + 256 * FromLe(bs[1..])
  }

  function ToLe(w: nat, n: nat): (bs: seq<byte>)
    ensures |bs| == n
  {
    if n == 0 then [] else [w % 256] + ToLe(w / 256, n - 1)
  }

  lemma SplitByte(b: byte, q: nat)
    ensures (b + 256 * q) % 256 == b && (b + 256 * q) / 256 == q
  {
  }

  lemma {:induction false} ToLeFromLe(bs: seq<byte>)
    ensures ToLe(FromLe(bs), |bs|) == bs
  {
    if |bs| != 0 {
      ToLeFromLe(bs[1..]);
      SplitByte(bs[0], FromLe(bs[1..]));
      assert bs == [bs[0]] + bs[1..];
    }
  }

  function Pow256(n: nat): (r: nat)
    ensures 0 < r
  {
    if n == 0 then 1 else 256 * Pow256(n - 1)
  }

  lemma {:induction false} FromLeToLe(w: nat, n: nat)
    requires w < Pow256(n)
    ensures FromLe(ToLe(w, n)) == w
    decreases n
  {
    if n != 0 {
      FromLeToLe(w / 256, n - 1);
      assert ToLe(w, n)[1..] == ToLe(w / 256, n - 1);
    }
  }

  lemma {:induction false} FromLeBound(bs: seq<byte>)
    ensures FromLe(bs) < Pow256(|bs|)
  {
    if |bs| != 0 {
      FromLeBound(bs[1..]);
    }
  }

  lemma Pow256Values()
    ensures Pow256(2) == 0x1_0000 && Pow256(4) == 0x1_0000_0000
  {
    assert Pow256(2) == 256 * Pow256(1);
    assert Pow256(4) == 256 * Pow256(3) && Pow256(3) == 256 * Pow256(2);
  }

  function XorByte(a: byte, b: byte): byte {
    Pow2Values();
    XorBound(a, b, 8);
    Xor(a, b)
  }

  function XorBytes(d: seq<byte>, s: seq<byte>): (r: seq<byte>)
    requires |d| == |s|
    ensures |r| == |d|
  {
    seq(|d|, i requires 0 <= i < |d| => XorByte(d[i], s[i]))
  }

  lemma {:induction false} XorOfWords(d: seq<byte>, s: seq<byte>)
    requires |d| == |s|
    ensures Xor(FromLe(d), FromLe(s)) == FromLe(XorBytes(d, s))
  {
    hide Xor, Pow2;
    if |d| == 0 {
      XorSelf(0);
    } else {
      XorOfWords(d[1..], s[1..]);
      Pow2Values();
      XorFields(d[0], s[0], FromLe(d[1..]), FromLe(s[1..]), 8);
      assert XorBytes(d, s)[1..] == XorBytes(d[1..], s[1..]);
    }
  }
}
