/** Suffix padding for encrypted objects, in byte form and in wide form. */
module Padding {
  import opened Format
  import opened Bytes
  import opened Arithmetic

  // The suffix that stands for `padLen` bytes of padding.
  function Suffix(padLen: nat): (s: seq<byte>)
    requires 1 <= padLen <= U32_MAX
    ensures |s| == padLen
  {
    if padLen <= 254 then Zeros(padLen - 1) + [padLen]
    else Zeros(padLen - 5) + ToLe(padLen, 4) + [255]
  }

  function Zeros(n: nat): (z: seq<byte>)
    ensures |z| == n
  {
    seq<byte>(n, _ => 0)
  }

  // Byte by byte: up to 254 the last byte is the length; beyond, it is 255 behind the little-endian length.
  lemma SuffixBytes(padLen: nat)
    requires 1 <= padLen <= 0xffff_ffff
    ensures padLen <= 254 ==>
              Suffix(padLen)[padLen - 1] == padLen && forall i :: 0 <= i < padLen - 1 ==> Suffix(padLen)[i] == 0
    ensures padLen >= 255 ==>
              Suffix(padLen)[padLen - 1] == 255 && forall i :: 0 <= i < padLen - 5 ==> Suffix(padLen)[i] == 0
    ensures padLen >= 255 ==>
              Suffix(padLen)[padLen - 5..padLen - 1]
              == [padLen % 256, padLen / 256 % 256, padLen / 0x1_0000 % 256, padLen / 0x100_0000]
  {
    hide ToLe;
    if padLen >= 255 {
      FourBytes(padLen);
      var s := Suffix(padLen);
      assert s[padLen - 5..padLen - 1] == ToLe(padLen, 4);
    }
  }

  lemma FourBytes(n: nat)
    requires n <= 0xffff_ffff
    ensures ToLe(n, 4) == [n % 256, n / 256 % 256, n / 0x1_0000 % 256, n / 0x100_0000]
  {
    var (a, b, c) := (n / 256, n / 0x1_0000, n / 0x100_0000);
    assert a / 256 == b && b / 256 == c && c < 256;
    assert ToLe(c, 1) == [c] && ToLe(b, 2) == [b % 256] + ToLe(c, 1) && ToLe(a, 3) == [a % 256] + ToLe(b, 2);
  }

  // Why padding of this length cannot be written.
  function AppendError(padLen: nat): Option<FormatError> {
    if padLen == 0 then Some(InvalidSuffixPadding)
    else if padLen > U32_MAX then Some(PaddingOverflow)
    else None
  }

  // An owned byte buffer, as both sides of the padding change it in place.
  class Buffer {
    var bytes: seq<byte>

    constructor (bytes: seq<byte>)
      ensures this.bytes == bytes
    {
      this.bytes := bytes;
    }

    method AppendSuffixPadding(padLen: nat) returns (r: Result<()>)
      modifies this
      ensures AppendError(padLen).Some? ==> r == Err(AppendError(padLen).value) && bytes == old(bytes)
      ensures AppendError(padLen).None? ==> r == Ok(()) && bytes == old(bytes) + Suffix(padLen)
    {
      hide ToLe, Zeros;
      if padLen == 0 {
        return Err(InvalidSuffixPadding);
      }
      if padLen <= 254 {
        bytes := bytes + Zeros(padLen - 1);
        bytes := bytes + [padLen];
        return Ok(());
      }
      if padLen > U32_MAX {
        return Err(PaddingOverflow);
      }
      bytes := bytes + Zeros(padLen - 5);
      bytes := bytes + ToLe(padLen, 4);
      bytes := bytes + [255];
      return Ok(());
    }

    method TruncateSuffixPadding() returns (r: Result<()>)
      modifies this
      ensures match PayloadLen(old(bytes))
              case Err(error) => r == Err(error) && bytes == old(bytes)
              case Ok(n) => r == Ok(()) && bytes == old(bytes)[..n]
    {
      var n := PayloadLen(bytes);
      if n.Err? {
        return Err(n.error);
      }
      bytes := bytes[..n.value];
      return Ok(());
    }
  }

  // Length of the payload in front of the padding.
  function PayloadLen(p: seq<byte>): (r: Result<nat>)
    ensures r.Ok? ==> r.value < |p|
  {
    var n := |p|;
    if n == 0 then Err(EmptyPaddedPlaintext)
    else if p[n - 1] < 255 then CheckPadding(p, 1, p[n - 1])
    else if n < 5 then Err(InvalidSuffixPadding)
    else if FromLe(p[n - 5..n - 1]) < 255 then Err(InvalidSuffixPadding)
    else CheckPadding(p, 5, FromLe(p[n - 5..n - 1]))
  }

  function CheckPadding(p: seq<byte>, markerSize: nat, padLen: nat): (r: Result<nat>)
    requires 1 <= markerSize <= |p|
    ensures r.Ok? <==> markerSize <= padLen <= |p| && forall i :: |p| - padLen <= i < |p| - markerSize ==> p[i] == 0
    ensures r.Ok? ==> r.value == |p| - padLen
  {
    if padLen < markerSize || padLen > |p| then Err(InvalidSuffixPadding)
    else if exists i :: |p| - padLen <= i < |p| - markerSize && p[i] != 0 then Err(NonZeroPaddingBytes)
    else Ok(|p| - padLen)
  }

  function Depad(p: seq<byte>): Result<seq<byte>> {
    match PayloadLen(p)
    case Err(error) => Err(error)
    case Ok(n) => Ok(p[..n])
  }

  lemma ByteSuffix(payload: seq<byte>, padLen: nat)
    requires 1 <= padLen <= 254
    ensures PayloadLen(payload + Suffix(padLen)) == Ok(|payload|)
  {
    var s := Suffix(padLen);
    var p := payload + s;
    assert forall i :: 0 <= i < padLen ==> p[|payload| + i] == s[i];
  }

  lemma WideSuffix(payload: seq<byte>, padLen: nat)
    requires 255 <= padLen <= U32_MAX
    ensures PayloadLen(payload + Suffix(padLen)) == Ok(|payload|)
  {
    hide ToLe, FromLe;
    var s := Suffix(padLen);
    var p := payload + s;
    assert forall i :: 0 <= i < padLen - 5 ==> p[|payload| + i] == s[i] == 0;
    assert p[|p| - 5..|p| - 1] == ToLe(padLen, 4);
    assert p[|p| - 1] == 255;
    Pow256Values();
    FromLeToLe(padLen, 4);
  }

  // Depadding undoes padding, whatever the payload.
  lemma DepadSuffix(payload: seq<byte>, padLen: nat)
    requires 1 <= padLen <= U32_MAX
    ensures PayloadLen(payload + Suffix(padLen)) == Ok(|payload|)
    ensures Depad(payload + Suffix(padLen)) == Ok(payload)
  {
    hide PayloadLen, Suffix;
    if padLen <= 254 {
      ByteSuffix(payload, padLen);
    } else {
      WideSuffix(payload, padLen);
    }
    assert (payload + Suffix(padLen))[..|payload|] == payload;
  }

  // Everything that depads is a payload with its suffix.
  lemma DepadImage(p: seq<byte>)
    requires PayloadLen(p).Ok?
    ensures var n := PayloadLen(p).value;
            1 <= |p| - n <= U32_MAX && p == p[..n] + Suffix(|p| - n)
  {
    hide FromLe, Suffix;
    if p[|p| - 1] < 255 {
      ByteForm(p, PayloadLen(p).value);
    } else {
      WideForm(p, PayloadLen(p).value);
    }
  }

  lemma ByteForm(p: seq<byte>, n: nat)
    requires n < |p| && p[|p| - 1] == |p| - n <= 254 && forall i :: n <= i < |p| - 1 ==> p[i] == 0
    ensures p == p[..n] + Suffix(|p| - n)
  {
    assert p[n..] == Zeros(|p| - n - 1) + [p[|p| - 1]];
  }

  lemma WideForm(p: seq<byte>, n: nat)
    requires n + 5 <= |p| && p[|p| - 1] == 255 && FromLe(p[|p| - 5..|p| - 1]) == |p| - n
    requires 255 <= |p| - n && forall i :: n <= i < |p| - 5 ==> p[i] == 0
    ensures |p| - n <= U32_MAX && p == p[..n] + Suffix(|p| - n)
  {
    hide FromLe, ToLe;
    var field := p[|p| - 5..|p| - 1];
    FromLeBound(field);
    Pow256Values();
    ToLeFromLe(field);
    assert p[n..] == Zeros(|p| - n - 5) + field + [255];
  }

  // The accepted buffers are exactly the padded ones, and a buffer has one reading.
  lemma DepadExact(p: seq<byte>, payload: seq<byte>)
    ensures Depad(p) == Ok(payload)
       <==> exists padLen: nat :: 1 <= padLen <= U32_MAX && p == payload + Suffix(padLen)
  {
    hide PayloadLen, Suffix;
    if Depad(p) == Ok(payload) {
      DepadImage(p);
      var n := PayloadLen(p).value;
      assert p == payload + Suffix(|p| - n);
    }
    if padLen: nat :| 1 <= padLen <= U32_MAX && p == payload + Suffix(padLen) {
      DepadSuffix(payload, padLen);
    }
  }

  // What is refused, and why: nothing at all, a length that cannot be, or a byte that should be zero.
  lemma DepadErrors(p: seq<byte>, i: nat)
    ensures p == [] ==> Depad(p) == Err(EmptyPaddedPlaintext)
    ensures p != [] && (p[|p| - 1] == 0 || |p| < p[|p| - 1] < 255) ==> Depad(p) == Err(InvalidSuffixPadding)
    ensures p != [] && p[|p| - 1] <= 254 && 0 <= |p| - p[|p| - 1] <= i < |p| - 1 && p[i] != 0 ==>
              Depad(p) == Err(NonZeroPaddingBytes)
    ensures p != [] && p[|p| - 1] == 255 && (|p| < 5 || !(255 <= FromLe(p[|p| - 5..|p| - 1]) <= |p|)) ==>
              Depad(p) == Err(InvalidSuffixPadding)
    ensures |p| >= 5 && p[|p| - 1] == 255 && 255 <= FromLe(p[|p| - 5..|p| - 1]) <= |p|
            && |p| - FromLe(p[|p| - 5..|p| - 1]) <= i < |p| - 5 && p[i] != 0 ==>
              Depad(p) == Err(NonZeroPaddingBytes)
  {
    hide FromLe;
  }

  // ---------- padding to a block boundary ----------

  // How far the next multiple of the block size is, never zero.
  function Gap(n: nat, blockSize: nat): nat
    requires blockSize > 0
  {
    blockSize - n % blockSize
  }

  // The least positive multiple that is not smaller.
  function RoundUpToBlock(value: nat, blockSize: nat): (r: Result<nat>)
    ensures r.Ok? <==> blockSize > 0 && (value % blockSize == 0 || value + Gap(value, blockSize) <= USIZE_MAX)
    ensures r.Ok? ==> r.value % blockSize == 0 && r.value >= value && r.value >= blockSize
    ensures r.Ok? ==> r.value == blockSize || r.value < value + blockSize
    ensures r.Err? ==> r.error == PaddingOverflow
  {
    if blockSize == 0 then Err(PaddingOverflow)
    else
      var remainder := value % blockSize;
      if remainder == 0 then
        RoundedMax(value, blockSize);
        Ok(if value < blockSize then blockSize else value)
      else if value + (blockSize - remainder) > USIZE_MAX then Err(PaddingOverflow)
      else
        RoundedUp(value, blockSize);
        Ok(value + (blockSize - remainder))
  }

  lemma RoundedMax(value: nat, blockSize: nat)
    requires blockSize > 0 && value % blockSize == 0
    ensures blockSize % blockSize == 0
    ensures value < blockSize ==> value == 0
  {
  }

  lemma RoundedUp(value: nat, blockSize: nat)
    requires blockSize > 0
    ensures (value + (blockSize - value % blockSize)) % blockSize == 0
    ensures value + (blockSize - value % blockSize) >= blockSize
  {
    var q := value / blockSize;
    assert value + (blockSize - value % blockSize) == blockSize * (q + 1);
    Divides(value + (blockSize - value % blockSize), blockSize, q + 1);
  }
}
