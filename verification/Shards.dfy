/** Shards as vectors of little-endian field symbols, and the kernels that accumulate them. */
module Shards {
  import opened Bits
  import opened Bytes
  import opened Format
  import opened Gf16
  import opened Gf16Order
  import opened Gf16Tables
  import opened Matrix

  type Shard = seq<byte>

  function Pair(low: byte, high: byte): Elem {
    low as int + 256 * (high as int)
  }

  function Sym(s: Shard, k: nat): Elem
    requires 2 * k + 1 < |s|
  {
    Pair(s[2 * k], s[2 * k + 1])
  }

  function Syms(s: Shard): (v: Vec)
    ensures |v| == |s| / 2
  {
    seq(|s| / 2, k requires 0 <= k < |s| / 2 => Sym(s, k))
  }

  function FromSyms(v: Vec): (s: Shard)
    ensures |s| == 2 * |v|
  {
    seq(2 * |v|, i requires 0 <= i < 2 * |v| => if i % 2 == 0 then v[i / 2] % 256 else v[i / 2] / 256)
  }

  lemma SymsFromSyms(v: Vec)
    ensures Syms(FromSyms(v)) == v
  {
    forall k | 0 <= k < |v| ensures Syms(FromSyms(v))[k] == v[k] {
      HalvesAt(v, k);
      Recombined(v[k]);
    }
  }

  lemma HalvesAt(v: Vec, k: nat)
    requires k < |v|
    ensures FromSyms(v)[2 * k] == v[k] % 256 && FromSyms(v)[2 * k + 1] == v[k] / 256
  {
    assert (2 * k) % 2 == 0 && (2 * k) / 2 == k && (2 * k + 1) % 2 == 1 && (2 * k + 1) / 2 == k;
  }

  lemma Recombined(e: Elem)
    ensures Pair(e % 256, e / 256) == e
  {
  }

  lemma SymsDetermine(s: Shard, s': Shard)
    requires |s| == |s'| && |s| % 2 == 0 && Syms(s) == Syms(s')
    ensures s == s'
  {
    forall i | 0 <= i < |s| ensures s[i] == s'[i] {
      var k := i / 2;
      assert Syms(s)[k] == Syms(s')[k];
      assert Sym(s, k) == Sym(s', k);
      assert i == 2 * k || i == 2 * k + 1;
    }
  }

  datatype Endian = Little | Big

  function Reversed(bs: seq<byte>): (r: seq<byte>)
    ensures |r| == |bs|
  {
    seq(|bs|, i requires 0 <= i < |bs| => bs[|bs| - 1 - i])
  }

  function FromNe(e: Endian, bs: seq<byte>): nat {
    if e.Little? then FromLe(bs) else FromLe(Reversed(bs))
  }

  function ToNe(e: Endian, w: nat, n: nat): (bs: seq<byte>)
    ensures |bs| == n
  {
    if e.Little? then ToLe(w, n) else Reversed(ToLe(w, n))
  }

  // One machine word at a time is the same as one byte at a time, in either byte order.
  lemma XorNative(e: Endian, d: seq<byte>, s: seq<byte>)
    requires |d| == |s|
    ensures ToNe(e, Xor(FromNe(e, d), FromNe(e, s)), |d|) == XorBytes(d, s)
  {
    hide Xor;
    if e.Little? {
      XorOfWords(d, s);
      ToLeFromLe(XorBytes(d, s));
    } else {
      XorOfWords(Reversed(d), Reversed(s));
      ToLeFromLe(XorBytes(Reversed(d), Reversed(s)));
      assert Reversed(XorBytes(Reversed(d), Reversed(s))) == XorBytes(d, s);
    }
  }

  method AccumulateXorShard(e: Endian, dest: array<byte>, src: Shard)
    requires dest.Length == |src|
    modifies dest
    ensures dest[..] == XorBytes(old(dest[..]), src)
  {
    hide Xor, XorByte;
    var n := dest.Length;
    var i := 0;
    while i + 8 <= n
      invariant 0 <= i <= n
      invariant forall k :: 0 <= k < i ==> dest[k] == XorByte(old(dest[k]), src[k])
      invariant forall k :: i <= k < n ==> dest[k] == old(dest[k])
      invariant i % 8 == 0
    {
      var word := Xor(FromNe(e, dest[i..i + 8]), FromNe(e, src[i..i + 8]));
      var out := ToNe(e, word, 8);
      XorNative(e, dest[i..i + 8], src[i..i + 8]);
      forall k | 0 <= k < 8 {
        dest[i + k] := out[k];
      }
      i := i + 8;
    }
    while i < n
      invariant 0 <= i <= n
      invariant forall k :: 0 <= k < i ==> dest[k] == XorByte(old(dest[k]), src[k])
      invariant forall k :: i <= k < n ==> dest[k] == old(dest[k])
    {
      dest[i] := XorByte(dest[i], src[i]);
      i := i + 1;
    }
  }

  method AccumulateGf16MulShard(t: Tables, dest: array<byte>, src: Shard, logC: nat)
    requires TablesOk(t) && dest.Length == |src| && logC < 65535
    modifies dest
    ensures Syms(dest[..]) == AddScaled(Syms(old(dest[..])), t.exp[logC], Syms(src))
    ensures dest.Length % 2 == 1 ==> dest[dest.Length - 1] == old(dest[dest.Length - 1])
  {
    hide Xor, Mul, Pow, Add;
    var symbolCount := dest.Length / 2;
    for k := 0 to symbolCount
      invariant forall j :: 0 <= j < k ==>
        Sym(dest[..], j) == Add(Sym(old(dest[..]), j), Mul(t.exp[logC], Sym(src, j)))
      invariant forall i :: 2 * k <= i < dest.Length ==> dest[i] == old(dest[i])
    {
      var symbol := Pair(src[2 * k], src[2 * k + 1]);
      ProductTerm(t, logC, symbol);
      AddZero(Sym(old(dest[..]), k));
      if symbol != 0 {
        var val := t.exp[t.log[symbol] as nat + logC];
        var current := Pair(dest[2 * k], dest[2 * k + 1]);
        var sum := Add(current, val);
        dest[2 * k], dest[2 * k + 1] := sum % 256, sum / 256;
      }
    }
  }

  lemma ProductTerm(t: Tables, logC: nat, symbol: Elem)
    requires TablesOk(t) && logC < 65535
    ensures symbol == 0 ==> Mul(t.exp[logC], symbol) == 0
    ensures symbol != 0 ==> t.exp[t.log[symbol] as nat + logC] == Mul(t.exp[logC], symbol)
  {
    hide Mul, Pow;
    MulZeroRight(t.exp[logC]);
    if symbol != 0 {
      PowAdd(2, t.log[symbol], logC);
      MulComm(symbol, t.exp[logC]);
    }
  }

  // The bytewise exclusive or of two shards adds their symbols.
  lemma XorSyms(d: Shard, s: Shard)
    requires |d| == |s|
    ensures Syms(XorBytes(d, s)) == AddScaled(Syms(d), 1, Syms(s))
  {
    hide Xor, Mul;
    forall k | 0 <= k < |d| / 2
      ensures Sym(XorBytes(d, s), k) == Add(Sym(d, k), Mul(1, Sym(s, k)))
    {
      Pow2Values();
      XorFields(d[2 * k], s[2 * k], d[2 * k + 1], s[2 * k + 1], 8);
      MulOneLeft(Sym(s, k));
    }
  }

  // dest ^= coefficient * src, by the kernel the coefficient calls for.
  method Accumulate(t: Tables, e: Endian, dest: array<byte>, src: Shard, coefficient: Elem)
    requires TablesOk(t) && dest.Length == |src|
    modifies dest
    ensures Syms(dest[..]) == AddScaled(Syms(old(dest[..])), coefficient, Syms(src))
  {
    hide Xor, Mul, Pow, Add, Syms, AddScaled;
    if coefficient == 0 {
      AddScaledZero(Syms(dest[..]), Syms(src));
    } else if coefficient == 1 {
      XorSyms(dest[..], src);
      AccumulateXorShard(e, dest, src);
    } else {
      TablesInverse(t, coefficient, 0);
      AccumulateGf16MulShard(t, dest, src, t.log[coefficient]);
    }
  }

  lemma AddScaledZero(v: Vec, p: Vec)
    requires |v| == |p|
    ensures AddScaled(v, 0, p) == v
  {
    hide Mul, Add;
    forall i | 0 <= i < |v| ensures AddScaled(v, 0, p)[i] == v[i] {
      MulZeroLeft(p[i]);
      AddZero(v[i]);
    }
  }

  // The k-th symbol of every shard.
  function SymColumn(shards: seq<Shard>, size: nat, k: nat): (c: Vec)
    requires 2 * k + 1 < size && forall i :: 0 <= i < |shards| ==> |shards[i]| == size
    ensures |c| == |shards|
  {
    seq(|shards|, i requires 0 <= i < |shards| => Sym(shards[i], k))
  }

  // A linear combination of shards, symbol by symbol.
  function Combined(coefficients: Vec, shards: seq<Shard>, size: nat): (v: Vec)
    requires |coefficients| == |shards| && size % 2 == 0
    requires forall i :: 0 <= i < |shards| ==> |shards[i]| == size
    ensures |v| == size / 2
  {
    seq(size / 2, k requires 0 <= k < size / 2 => Dot(coefficients, SymColumn(shards, size, k)))
  }

  lemma CombinedStep(coefficients: Vec, shards: seq<Shard>, size: nat, i: nat)
    requires |coefficients| == |shards| && size % 2 == 0 && i < |shards|
    requires forall i :: 0 <= i < |shards| ==> |shards[i]| == size
    ensures Combined(coefficients[..i + 1], shards[..i + 1], size)
         == AddScaled(Combined(coefficients[..i], shards[..i], size), coefficients[i], Syms(shards[i]))
  {
    hide Mul, Add, Dot;
    forall k | 0 <= k < size / 2
      ensures Dot(coefficients[..i + 1], SymColumn(shards[..i + 1], size, k))
           == Add(Dot(coefficients[..i], SymColumn(shards[..i], size, k)), Mul(coefficients[i], Sym(shards[i], k)))
    {
      assert coefficients[..i + 1] == coefficients[..i] + [coefficients[i]];
      assert SymColumn(shards[..i + 1], size, k) == SymColumn(shards[..i], size, k) + [Sym(shards[i], k)];
      DotConcat(coefficients[..i], [coefficients[i]], SymColumn(shards[..i], size, k), [Sym(shards[i], k)]);
      DotSingle(coefficients[i], Sym(shards[i], k));
    }
  }

  method CombineShards(t: Tables, e: Endian, coefficients: Vec, shards: seq<Shard>, size: nat) returns (out: Shard)
    requires TablesOk(t) && |coefficients| == |shards| && size % 2 == 0
    requires forall i :: 0 <= i < |shards| ==> |shards[i]| == size
    ensures out == FromSyms(Combined(coefficients, shards, size))
  {
    hide Mul, Add, Dot, Combined, AddScaled, Syms, FromSyms;
    var dest := new byte[size](_ => 0);
    CombinedNone(dest[..], size);
    for i := 0 to |shards|
      invariant Syms(dest[..]) == Combined(coefficients[..i], shards[..i], size)
    {
      CombinedStep(coefficients, shards, size, i);
      Accumulate(t, e, dest, shards[i], coefficients[i]);
    }
    assert coefficients[..|shards|] == coefficients && shards[..|shards|] == shards;
    SymsFromSyms(Combined(coefficients, shards, size));
    SymsDetermine(dest[..], FromSyms(Combined(coefficients, shards, size)));
    out := dest[..];
  }

  lemma CombinedNone(zeros: Shard, size: nat)
    requires |zeros| == size && size % 2 == 0 && forall i :: 0 <= i < size ==> zeros[i] == 0
    ensures Syms(zeros) == Combined([], [], size)
  {
    assert forall k :: 0 <= k < size / 2 ==> Dot([], SymColumn([], size, k)) == 0;
    assert forall k :: 0 <= k < size / 2 ==> Sym(zeros, k) == 0;
  }
}
