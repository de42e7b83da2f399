/** Canonical unpadded base64 (sections 3.2, 3.5 and 4 of RFC 4648) and percent-encoded names. */
module Names {
  import opened Format
  import opened Decimal

  // ---------- base64 ----------

  type sextet = x: int | 0 <= x < 64

  function Symbol(v: sextet): byte {
    if v < 26 then 65 + v else if v < 52 then 71 + v else if v < 62 then v - 4 else if v == 62 then 43 else 47
  }

  function SymbolValue(b: byte): (r: Option<sextet>)
    ensures r.Some? ==> Symbol(r.value) == b
  {
    if 65 <= b <= 90 then Some(b - 65)
    else if 97 <= b <= 122 then Some(b - 71)
    else if 48 <= b <= 57 then Some(b + 4)
    else if b == 43 then Some(62)
    else if b == 47 then Some(63)
    else None
  }

  lemma SymbolValueOf(v: sextet)
    ensures SymbolValue(Symbol(v)) == Some(v)
  {
  }

  predicate AllSymbols(s: Text) {
    forall i :: 0 <= i < |s| ==> SymbolValue(s[i]).Some?
  }

  function Symbols(q: seq<sextet>): (s: Text)
    ensures |s| == |q|
  {
    seq(|q|, i requires 0 <= i < |q| => Symbol(q[i]))
  }

  function Values(s: Text): (q: seq<sextet>)
    requires AllSymbols(s)
    ensures |q| == |s|
  {
    seq(|s|, i requires 0 <= i < |s| => SymbolValue(s[i]).value)
  }

  lemma ValuesOfSymbols(q: seq<sextet>)
    ensures AllSymbols(Symbols(q)) && Values(Symbols(q)) == q
  {
    forall i | 0 <= i < |q| ensures SymbolValue(Symbols(q)[i]) == Some(q[i]) {
      SymbolValueOf(q[i]);
    }
  }

  lemma SymbolsOfValues(s: Text)
    requires AllSymbols(s)
    ensures Symbols(Values(s)) == s
  {
  }

  // Three bytes as four sextets, and the two shorter last groups.
  function Split3(x: int, y: int, z: int): (q: seq<sextet>)
    requires 0 <= x < 256 && 0 <= y < 256 && 0 <= z < 256
    ensures |q| == 4
  {
    [x / 4, x % 4 * 16 + y / 16, y % 16 * 4 + z / 64, z % 64]
  }

  function Split2(x: int, y: int): (q: seq<sextet>)
    requires 0 <= x < 256 && 0 <= y < 256
    ensures |q| == 3
  {
    [x / 4, x % 4 * 16 + y / 16, y % 16 * 4]
  }

  function Split1(x: int): (q: seq<sextet>)
    requires 0 <= x < 256
    ensures |q| == 2
  {
    [x / 4, x % 4 * 16]
  }

  function Join4(a: int, b: int, c: int, d: int): (v: seq<byte>)
    requires 0 <= a < 64 && 0 <= b < 64 && 0 <= c < 64 && 0 <= d < 64
    ensures |v| == 3
  {
    [a * 4 + b / 16, b % 16 * 16 + c / 4, c % 4 * 64 + d]
  }

  function Join3(a: int, b: int, c: int): (v: seq<byte>)
    requires 0 <= a < 64 && 0 <= b < 64 && 0 <= c < 64
    ensures |v| == 2
  {
    [a * 4 + b / 16, b % 16 * 16 + c / 4]
  }

  function Join2(a: int, b: int): (v: seq<byte>)
    requires 0 <= a < 64 && 0 <= b < 64
    ensures |v| == 1
  {
    [a * 4 + b / 16]
  }

  function EncodeValues(v: seq<byte>): seq<sextet> {
    if |v| == 0 then []
    else if |v| == 1 then Split1(v[0])
    else if |v| == 2 then Split2(v[0], v[1])
    else Split3(v[0], v[1], v[2]) + EncodeValues(v[3..])
  }

  function Base64Encode(v: seq<byte>): Text {
    Symbols(EncodeValues(v))
  }

  method CanonicalBase64Encode(v: seq<byte>) returns (out: Text)
    ensures out == Base64Encode(v)
  {
    hide Symbols, Split1, Split2, Split3;
    out := [];
    ghost var done: seq<sextet> := [];
    var i: nat := 0;
    assert v[0..] == v;
    SymbolsConcat([], []);
    while i + 3 <= |v|
      invariant i <= |v| && EncodeValues(v) == done + EncodeValues(v[i..]) && out == Symbols(done)
    {
      assert v[i..][3..] == v[i + 3..];
      var group := Split3(v[i], v[i + 1], v[i + 2]);
      SymbolsConcat(done, group);
      done := done + group;
      out := out + Symbols(group);
      i := i + 3;
    }
    if i + 1 == |v| {
      SymbolsConcat(done, Split1(v[i]));
      out := out + Symbols(Split1(v[i]));
    } else if i + 2 == |v| {
      SymbolsConcat(done, Split2(v[i], v[i + 1]));
      out := out + Symbols(Split2(v[i], v[i + 1]));
    } else {
      assert done + [] == done;
    }
  }

  lemma SymbolsConcat(a: seq<sextet>, b: seq<sextet>)
    ensures Symbols(a + b) == Symbols(a) + Symbols(b)
    ensures Symbols([]) == []
  {
  }

  const UNUSED_BITS: Result<seq<byte>> := Invalid("Base64", "non-zero unused bits")

  // Groups of four sextets, then a group of two or three whose unused bits are zero.
  function DecodeValues(q: seq<sextet>): Result<seq<byte>>
    requires |q| % 4 != 1
  {
    if |q| == 0 then Ok([])
    else if |q| == 2 then
      if q[1] % 16 != 0 then UNUSED_BITS else Ok(Join2(q[0], q[1]))
    else if |q| == 3 then
      if q[2] % 4 != 0 then UNUSED_BITS else Ok(Join3(q[0], q[1], q[2]))
    else Prepend(Join4(q[0], q[1], q[2], q[3]), DecodeValues(q[4..]))
  }

  function Base64Decode(s: Text): Result<seq<byte>> {
    if !AllSymbols(s) then Invalid("Base64", "encoding is not unpadded RFC 4648 base64")
    else if |s| % 4 == 1 then Invalid("Base64", "invalid encoded length")
    else DecodeValues(Values(s))
  }

  method CanonicalBase64Decode(s: Text) returns (r: Result<seq<byte>>)
    ensures r == Base64Decode(s)
  {
    hide SymbolValue, Values, Join2, Join3, Join4, DecodeValues, Prepend;
    if !AllSymbols(s) {
      return Invalid("Base64", "encoding is not unpadded RFC 4648 base64");
    }
    if |s| % 4 == 1 {
      return Invalid("Base64", "invalid encoded length");
    }
    var q := Values(s);
    var out: seq<byte> := [];
    var cursor: nat := 0;
    assert q[0..] == q;
    PrependNone(DecodeValues(q));
    while cursor + 4 <= |q|
      invariant cursor <= |q| && (|q| - cursor) % 4 != 1
      invariant DecodeValues(q) == Prepend(out, DecodeValues(q[cursor..]))
    {
      var group := Join4(q[cursor], q[cursor + 1], q[cursor + 2], q[cursor + 3]);
      DecodeGroup(q, cursor);
      PrependTwice(out, group, DecodeValues(q[cursor + 4..]));
      out := out + group;
      cursor := cursor + 4;
    }
    DecodeEnd(q, cursor, out);
    if cursor == |q| {
      return Ok(out);
    }
    var (a, b) := (q[cursor], q[cursor + 1]);
    if |q| - cursor == 2 {
      if b % 16 != 0 {
        return UNUSED_BITS;
      }
      return Ok(out + Join2(a, b));
    }
    var c := q[cursor + 2];
    if c % 4 != 0 {
      return UNUSED_BITS;
    }
    return Ok(out + Join3(a, b, c));
  }

  lemma DecodeGroup(q: seq<sextet>, cursor: nat)
    requires cursor + 4 <= |q| && (|q| - cursor) % 4 != 1
    ensures DecodeValues(q[cursor..])
         == Prepend(Join4(q[cursor], q[cursor + 1], q[cursor + 2], q[cursor + 3]), DecodeValues(q[cursor + 4..]))
  {
    hide Join4, Prepend;
    assert q[cursor..][4..] == q[cursor + 4..];
  }

  // The last, incomplete group.
  lemma DecodeEnd(q: seq<sextet>, cursor: nat, out: seq<byte>)
    requires cursor <= |q| < cursor + 4 && |q| - cursor != 1
    ensures var r := Prepend(out, DecodeValues(q[cursor..]));
            if |q| == cursor then r == Ok(out)
            else if |q| == cursor + 2 then
              r == if q[cursor + 1] % 16 != 0 then UNUSED_BITS else Ok(out + Join2(q[cursor], q[cursor + 1]))
            else r == if q[cursor + 2] % 4 != 0 then UNUSED_BITS
                      else Ok(out + Join3(q[cursor], q[cursor + 1], q[cursor + 2]))
  {
    hide Join2, Join3;
    assert out + [] == out;
  }

  lemma JoinSplit(x: byte, y: byte, z: byte)
    ensures var q := Split3(x, y, z); Join4(q[0], q[1], q[2], q[3]) == [x, y, z]
    ensures var q := Split2(x, y); q[2] % 4 == 0 && Join3(q[0], q[1], q[2]) == [x, y]
    ensures var q := Split1(x); q[1] % 16 == 0 && Join2(q[0], q[1]) == [x]
  {
    Fields(16, x % 4, y / 16);
    Fields(4, y % 16, z / 64);
    Fields(4, y % 16, 0);
    Fields(16, x % 4, 0);
  }

  lemma {:induction false} DecodeEncodedValues(v: seq<byte>)
    ensures |EncodeValues(v)| % 4 != 1 && DecodeValues(EncodeValues(v)) == Ok(v)
  {
    hide Split1, Split2, Split3, Join2, Join3, Join4;
    if |v| >= 3 {
      DecodeEncodedValues(v[3..]);
      JoinSplit(v[0], v[1], v[2]);
      assert EncodeValues(v)[4..] == EncodeValues(v[3..]);
      assert v == [v[0], v[1], v[2]] + v[3..];
    } else if |v| == 2 {
      JoinSplit(v[0], v[1], 0);
      assert v == [v[0], v[1]];
    } else if |v| == 1 {
      JoinSplit(v[0], 0, 0);
      assert v == [v[0]];
    }
  }

  lemma SplitJoin4(a: sextet, b: sextet, c: sextet, d: sextet)
    ensures var v := Join4(a, b, c, d); Split3(v[0], v[1], v[2]) == [a, b, c, d]
  {
    hide Split3;
    SplitPacked(a, b / 16, b % 16, c / 4, c % 4, d);
  }

  lemma SplitPacked(a: nat, b1: nat, b0: nat, c1: nat, c0: nat, d: nat)
    requires a < 64 && b1 < 4 && b0 < 16 && c1 < 16 && c0 < 4 && d < 64
    ensures Split3(a * 4 + b1, b0 * 16 + c1, c0 * 64 + d) == [a, b1 * 16 + b0, c1 * 4 + c0, d]
  {
    Fields(4, a, b1);
    Fields(16, b0, c1);
    Fields(64, c0, d);
  }

  // Quotient and remainder of a packed pair.
  lemma Fields(k: nat, high: nat, low: nat)
    requires (k == 4 || k == 16 || k == 64) && low < k
    ensures (high * k + low) / k == high && (high * k + low) % k == low
  {
  }

  lemma SplitJoin3(a: sextet, b: sextet, c: sextet)
    requires c % 4 == 0
    ensures var v := Join3(a, b, c); Split2(v[0], v[1]) == [a, b, c]
  {
  }

  lemma SplitJoin2(a: sextet, b: sextet)
    requires b % 16 == 0
    ensures var v := Join2(a, b); Split1(v[0]) == [a, b]
  {
  }

  lemma {:induction false} EncodeDecodedValues(q: seq<sextet>)
    requires |q| % 4 != 1 && DecodeValues(q).Ok?
    ensures EncodeValues(DecodeValues(q).value) == q
    decreases |q|
  {
    hide Split1, Split2, Split3, Join2, Join3, Join4;
    if |q| >= 4 {
      EncodeDecodedValues(q[4..]);
      SplitJoin4(q[0], q[1], q[2], q[3]);
      var v := DecodeValues(q).value;
      assert v[3..] == DecodeValues(q[4..]).value;
      assert q == [q[0], q[1], q[2], q[3]] + q[4..];
    } else if |q| == 3 {
      SplitJoin3(q[0], q[1], q[2]);
    } else if |q| == 2 {
      SplitJoin2(q[0], q[1]);
    }
  }

  // decode(encode(v)) = v
  lemma Base64RoundTrip(v: seq<byte>)
    ensures Base64Decode(Base64Encode(v)) == Ok(v)
  {
    hide Symbols, Values, AllSymbols, EncodeValues, DecodeValues;
    ValuesOfSymbols(EncodeValues(v));
    DecodeEncodedValues(v);
  }

  // encode(decode(s)) = s
  lemma Base64Canonical(s: Text)
    requires Base64Decode(s).Ok?
    ensures Base64Encode(Base64Decode(s).value) == s
  {
    hide Symbols, Values, AllSymbols, EncodeValues, DecodeValues;
    SymbolsOfValues(s);
    EncodeDecodedValues(Values(s));
  }

  // ---------- percent-encoded names ----------

  const PERCENT: byte := 37

  predicate Plain(b: byte) {
    0x21 <= b <= 0x7e && b != PERCENT && b != 61
  }

  predicate IsUpperHex(b: byte) {
    IsDigit(b) || 65 <= b <= 70
  }

  function HexDigit(n: nat): byte
    requires n < 16
  {
    if n < 10 then 48 + n else 55 + n
  }

  function HexNibble(b: byte): nat
    requires IsUpperHex(b)
  {
    if b <= 57 then b - 48 else b - 55
  }

  function EncodeByte(b: byte): Text {
    if Plain(b) then [b] else [PERCENT, HexDigit(b / 16), HexDigit(b % 16)]
  }

  function PercentText(v: seq<byte>): Text {
    if v == [] then [] else EncodeByte(v[0]) + PercentText(v[1..])
  }

  function PercentEncode(v: seq<byte>): Result<Text> {
    if v == [] || 0 in v then Invalid("XattrName", "xattr name is empty or contains NUL") else Ok(PercentText(v))
  }

  method EncodePercentName(v: seq<byte>) returns (r: Result<Text>)
    ensures r == PercentEncode(v)
  {
    if v == [] || 0 in v {
      return Invalid("XattrName", "xattr name is empty or contains NUL");
    }
    var out: Text := [];
    assert v[0..] == v;
    for i := 0 to |v|
      invariant PercentText(v) == out + PercentText(v[i..])
    {
      assert v[i..][1..] == v[i + 1..];
      assert out + (EncodeByte(v[i]) + PercentText(v[i + 1..])) == out + EncodeByte(v[i]) + PercentText(v[i + 1..]);
      out := out + EncodeByte(v[i]);
    }
    assert out + [] == out;
    return Ok(out);
  }

  // The first encoded byte and how many text bytes it takes.
  function DecodeByte(s: Text): (r: Result<(byte, nat)>)
    requires s != []
    ensures r.Ok? ==> 1 <= r.value.1 <= |s|
  {
    if s[0] == PERCENT then
      if |s| < 3 || !IsUpperHex(s[1]) || !IsUpperHex(s[2]) then Invalid("XattrName", "invalid percent encoding")
      else
        var decoded := HexNibble(s[1]) * 16 + HexNibble(s[2]);
        if decoded == 0 || Plain(decoded) then Invalid("XattrName", "percent encoding is non-canonical")
        else Ok((decoded, 3))
    else if !Plain(s[0]) then Invalid("XattrName", "xattr name byte must be percent encoded")
    else Ok((s[0], 1))
  }

  function PercentDecode(s: Text): Result<seq<byte>>
    decreases |s|
  {
    if s == [] then Ok([])
    else
      var first := DecodeByte(s);
      if first.Err? then Err(first.error) else Prepend([first.value.0], PercentDecode(s[first.value.1..]))
  }

  method DecodePercentName(s: Text) returns (r: Result<seq<byte>>)
    ensures r == PercentDecode(s)
  {
    hide DecodeByte;
    var out: seq<byte> := [];
    var cursor: nat := 0;
    assert s[0..] == s;
    PrependNone(PercentDecode(s));
    while cursor < |s|
      invariant cursor <= |s| && PercentDecode(s) == Prepend(out, PercentDecode(s[cursor..]))
      decreases |s| - cursor
    {
      var rest := s[cursor..];
      var first := DecodeByte(rest);
      if first.Err? {
        return Err(first.error);
      }
      var (b, n) := first.value;
      assert rest[n..] == s[cursor + n..];
      PrependTwice(out, [b], PercentDecode(rest[n..]));
      out := out + [b];
      cursor := cursor + n;
    }
    assert out + [] == out;
    return Ok(out);
  }

  lemma DecodeEncodedByte(b: byte, rest: Text)
    requires b != 0
    ensures DecodeByte(EncodeByte(b) + rest) == Ok((b, |EncodeByte(b)|))
  {
    if !Plain(b) {
      HexBack(b / 16);
      HexBack(b % 16);
    }
  }

  lemma HexBack(n: nat)
    requires n < 16
    ensures IsUpperHex(HexDigit(n)) && HexNibble(HexDigit(n)) == n
  {
  }

  lemma EncodeDecodedByte(s: Text)
    requires s != [] && DecodeByte(s).Ok?
    ensures var (b, n) := DecodeByte(s).value;
            b != 0 && EncodeByte(b) == s[..n]
  {
  }

  // decode(encode(v)) = v for every legal name
  lemma {:induction false} PercentRoundTrip(v: seq<byte>)
    requires 0 !in v
    ensures PercentDecode(PercentText(v)) == Ok(v)
  {
    hide DecodeByte, EncodeByte;
    if v != [] {
      var rest := PercentText(v[1..]);
      var s := EncodeByte(v[0]) + rest;
      DecodeEncodedByte(v[0], rest);
      EncodedByteNonEmpty(v[0]);
      assert s[|EncodeByte(v[0])|..] == rest;
      assert 0 !in v[1..];
      PercentRoundTrip(v[1..]);
      assert [v[0]] + v[1..] == v;
    }
  }

  lemma EncodedByteNonEmpty(b: byte)
    ensures EncodeByte(b) != []
  {
  }

  // encode(decode(s)) = s for every accepted non-empty spelling
  lemma {:induction false} PercentCanonical(s: Text)
    requires PercentDecode(s).Ok?
    ensures 0 !in PercentDecode(s).value && PercentText(PercentDecode(s).value) == s
    ensures s != [] ==> PercentEncode(PercentDecode(s).value) == Ok(s)
    decreases |s|
  {
    hide DecodeByte, EncodeByte;
    if s != [] {
      var (b, n) := DecodeByte(s).value;
      EncodeDecodedByte(s);
      PercentCanonical(s[n..]);
      var v := PercentDecode(s).value;
      assert v[1..] == PercentDecode(s[n..]).value;
      assert s == s[..n] + s[n..];
    }
  }

  // ---------- the alphabets ----------

  // Capitals, small letters, digits, plus and slash, as in table 1 of RFC 4648.
  lemma SymbolIs(v: sextet)
    ensures Symbol(v) as char ==
            if v < 26 then 'A' + v as char
            else if v < 52 then 'a' + (v - 26) as char
            else if v < 62 then '0' + (v - 52) as char
            else if v == 62 then '+' else '/'
  {
  }

  // Visible ASCII stands for itself except the percent and equals signs; all else is a percent sign and two digits.
  lemma EncodeByteIs(b: byte)
    ensures EncodeByte(b) == [b] <==> '!' <= b as char <= '~' && b as char != '%' && b as char != '='
    ensures EncodeByte(b) != [b] ==>
              && |EncodeByte(b)| == 3 && EncodeByte(b)[0] as char == '%'
              && EncodeByte(b)[1] as char == HexChar(b / 16) && EncodeByte(b)[2] as char == HexChar(b % 16)
  {
  }

  function HexChar(n: nat): char
    requires n < 16
  {
    "0123456789ABCDEF"[n]
  }

  // "foo", "fo" and "f" are "Zm9v", "Zm8" and "Zg", and three full bytes are four slashes.
  lemma Base64Vectors()
    ensures Base64Encode([102, 111, 111]) == [90, 109, 57, 118]
    ensures Base64Encode([102, 111]) == [90, 109, 56] && Base64Encode([102]) == [90, 103]
    ensures Base64Encode([255, 255, 255]) == [47, 47, 47, 47]
  {
    var rest: seq<byte> := [];
    assert [102, 111, 111][3..] == rest && [255, 255, 255][3..] == rest;
  }

  // "x. y" is "x.%20y".
  lemma PercentExample()
    ensures PercentEncode([120, 46, 32, 121]) == Ok([120, 46, 37, 50, 48, 121])
  {
    hide PercentText;
    var name: seq<byte> := [120, 46, 32, 121];
    PercentStep(121, []);
    assert PercentText(name[3..]) == [121] by { assert name[3..] == [121] + []; }
    PercentStep(32, name[3..]);
    assert PercentText(name[2..]) == [37, 50, 48, 121] by { assert name[2..] == [32] + name[3..]; }
    PercentStep(46, name[2..]);
    assert PercentText(name[1..]) == [46, 37, 50, 48, 121] by { assert name[1..] == [46] + name[2..]; }
    PercentStep(120, name[1..]);
    assert PercentText(name) == [120, 46, 37, 50, 48, 121] by { assert name == [120] + name[1..]; }
    assert forall i :: 0 <= i < |name| ==> name[i] != 0;
  }

  lemma PercentStep(b: byte, v: seq<byte>)
    ensures PercentText([b] + v) == EncodeByte(b) + PercentText(v) && PercentText([]) == []
  {
    assert ([b] + v)[1..] == v;
  }
}
