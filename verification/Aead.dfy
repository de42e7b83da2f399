/** Padded encrypted objects over ideal primitives. */
module Aead {
  import opened Arithmetic
  import opened Format
  import opened Bytes
  import opened Padding

  datatype Algo = NoEncryption | AesGcmSiv256 | XChaCha20Poly1305 | AesGcm256 {
    function NonceLen(): nat {
      match this
      case NoEncryption => 0
      case XChaCha20Poly1305 => 24
      case _ => 12
    }

    function TagLen(): nat {
      if NoEncryption? then 0 else 16
    }
  }

  // HKDF expansion and an authenticated cipher, as functions.
  datatype Primitives = Primitives(
    expand: (seq<byte>, seq<byte>, nat) -> seq<byte>,
    seal: (Algo, seq<byte>, seq<byte>, seq<byte>, seq<byte>) -> seq<byte>,
    open: (Algo, seq<byte>, seq<byte>, seq<byte>, seq<byte>) -> Option<seq<byte>>)

  // Expansion has the length asked for; opening undoes sealing and accepts nothing else; a tag is 16 bytes.
  ghost predicate Ideal(p: Primitives) {
    && (forall seed, info, n: nat :: |p.expand(seed, info, n)| == n)
    && (forall a, k, n, d, m :: p.open(a, k, n, d, p.seal(a, k, n, d, m)) == Some(m))
    && (forall a: Algo, k, n, d, m :: |p.seal(a, k, n, d, m)| == |m| + 16)
    && (forall a, k, n, d, c :: p.open(a, k, n, d, c).Some? ==> c == p.seal(a, k, n, d, p.open(a, k, n, d, c).value))
  }

  // Sixteen zeros for a tag, whatever the key.
  function ZeroTag(m: seq<byte>): seq<byte> {
    m + Zeros(16)
  }

  function OpenZeroTag(c: seq<byte>): Option<seq<byte>> {
    if |c| >= 16 && c[|c| - 16..] == Zeros(16) then Some(c[..|c| - 16]) else None
  }

  lemma ZeroTagOpens(m: seq<byte>)
    ensures |ZeroTag(m)| == |m| + 16 && OpenZeroTag(ZeroTag(m)) == Some(m)
  {
    assert ZeroTag(m)[|m|..] == Zeros(16) && ZeroTag(m)[..|m|] == m;
  }

  lemma ZeroTagOnly(c: seq<byte>)
    ensures OpenZeroTag(c).Some? ==> c == ZeroTag(OpenZeroTag(c).value)
  {
    if |c| >= 16 {
      assert c == c[..|c| - 16] + c[|c| - 16..];
    }
  }

  // Such primitives exist.
  lemma IdealExists()
    ensures exists p :: Ideal(p)
  {
    hide ZeroTag, OpenZeroTag;
    var p := Primitives((seed, info, n) => Zeros(n), (a, k, n, d, m) => ZeroTag(m),
                        (a, k, n, d, c) => OpenZeroTag(c));
    forall m ensures |ZeroTag(m)| == |m| + 16 && OpenZeroTag(ZeroTag(m)) == Some(m) {
      ZeroTagOpens(m);
    }
    forall c ensures OpenZeroTag(c).Some? ==> c == ZeroTag(OpenZeroTag(c).value) {
      ZeroTagOnly(c);
    }
    assert Ideal(p);
  }

  datatype Context = Context(algo: Algo, key: seq<byte>, nonceSeed: seq<byte>, domain: seq<byte>,
                             archiveUuid: seq<byte>, sessionId: seq<byte>, counter: nat)

  // "tzap-v1-nonce" and "tzap-v1-aad"
  const NONCE_PREFIX: seq<byte> := [116, 122, 97, 112, 45, 118, 49, 45, 110, 111, 110, 99, 101]
  const AAD_PREFIX: seq<byte> := [116, 122, 97, 112, 45, 118, 49, 45, 97, 97, 100]

  function Info(prefix: seq<byte>, domain: seq<byte>, uuid: seq<byte>, session: seq<byte>, counter: nat)
    : Result<seq<byte>>
  {
    if |domain| > 65535 then Err(DomainTooLong)
    else Ok(prefix + ToLe(|domain|, 2) + domain + uuid + session + ToLe(counter, 8))
  }

  // Different inputs never share an info string, across both uses.
  lemma InfoInjective(p: seq<byte>, d: seq<byte>, u: seq<byte>, s: seq<byte>, n: nat,
                      p': seq<byte>, d': seq<byte>, u': seq<byte>, s': seq<byte>, n': nat)
    requires p in {NONCE_PREFIX, AAD_PREFIX} && p' in {NONCE_PREFIX, AAD_PREFIX}
    requires |u| == |u'| == |s| == |s'| == 16 && n <= U64_MAX && n' <= U64_MAX
    requires Info(p, d, u, s, n).Ok? && Info(p, d, u, s, n) == Info(p', d', u', s', n')
    ensures p == p' && d == d' && u == u' && s == s' && n == n'
  {
    hide ToLe, Info;
    SamePrefix(p, d, u, s, n, p', d', u', s', n');
    InfoParts(p, d, u, s, n);
    InfoParts(p', d', u', s', n');
    Peel(p, ToLe(|d|, 2) + (d + (u + (s + ToLe(n, 8)))), p', ToLe(|d'|, 2) + (d' + (u' + (s' + ToLe(n', 8)))));
    Peel(ToLe(|d|, 2), d + (u + (s + ToLe(n, 8))), ToLe(|d'|, 2), d' + (u' + (s' + ToLe(n', 8))));
    LengthField(|d|, |d'|);
    Peel(d, u + (s + ToLe(n, 8)), d', u' + (s' + ToLe(n', 8)));
    Peel(u, s + ToLe(n, 8), u', s' + ToLe(n', 8));
    Peel(s, ToLe(n, 8), s', ToLe(n', 8));
    CounterField(n, n');
  }

  lemma InfoParts(p: seq<byte>, d: seq<byte>, u: seq<byte>, s: seq<byte>, n: nat)
    requires Info(p, d, u, s, n).Ok?
    ensures |d| <= 65535 && Info(p, d, u, s, n).value == p + (ToLe(|d|, 2) + (d + (u + (s + ToLe(n, 8)))))
  {
    hide ToLe;
  }

  lemma Peel(a: seq<byte>, b: seq<byte>, c: seq<byte>, d: seq<byte>)
    requires a + b == c + d && |a| == |c|
    ensures a == c && b == d
  {
    assert (a + b)[..|a|] == a && (c + d)[..|a|] == c;
    assert (a + b)[|a|..] == b && (c + d)[|a|..] == d;
  }

  // The two prefixes differ in their ninth byte.
  lemma SamePrefix(p: seq<byte>, d: seq<byte>, u: seq<byte>, s: seq<byte>, n: nat,
                   p': seq<byte>, d': seq<byte>, u': seq<byte>, s': seq<byte>, n': nat)
    requires p in {NONCE_PREFIX, AAD_PREFIX} && p' in {NONCE_PREFIX, AAD_PREFIX}
    requires Info(p, d, u, s, n).Ok? && Info(p, d, u, s, n) == Info(p', d', u', s', n')
    ensures p == p'
  {
    hide ToLe;
    var (x, y) := (Info(p, d, u, s, n).value, Info(p', d', u', s', n').value);
    assert x[8] == p[8] && y[8] == p'[8];
  }

  lemma LengthField(m: nat, n: nat)
    requires m <= 65535 && n <= 65535 && ToLe(m, 2) == ToLe(n, 2)
    ensures m == n
  {
    assert Pow256(2) == 65536;
    FromLeToLe(m, 2);
    FromLeToLe(n, 2);
  }

  lemma CounterField(m: nat, n: nat)
    requires m <= U64_MAX && n <= U64_MAX && ToLe(m, 8) == ToLe(n, 8)
    ensures m == n
  {
    assert Pow256(4) == 4294967296 by { Pow256Values(); }
    assert Pow256(6) == 281474976710656;
    assert Pow256(8) == U64_MAX + 1;
    FromLeToLe(m, 8);
    FromLeToLe(n, 8);
  }

  // The padding length that brings payload and tag to the next block boundary, never zero.
  function PadLenForAead(payloadLen: nat, tagLen: nat, blockSize: nat): (r: Result<nat>)
    ensures blockSize <= USIZE_MAX ==>
              (r.Ok? <==> blockSize > 0 && payloadLen + tagLen + Gap(payloadLen + tagLen, blockSize) <= USIZE_MAX)
    ensures r.Ok? ==> 1 <= r.value <= blockSize && (payloadLen + r.value + tagLen) % blockSize == 0
    ensures r.Ok? ==> r.value == Gap(payloadLen + tagLen, blockSize)
    ensures r.Err? ==> r.error == PaddingOverflow
  {
    var total := payloadLen + tagLen;
    if total > USIZE_MAX then Err(PaddingOverflow)
    else
      var envelope := RoundUpToBlock(total, blockSize);
      if envelope.Err? then Err(envelope.error)
      else if envelope.value == total then
        if total + blockSize > USIZE_MAX then Err(PaddingOverflow)
        else
          RoundedUp(total, blockSize);
          Ok(blockSize)
      else
        NextBoundary(total, envelope.value, blockSize);
        Ok(envelope.value - total)
  }

  // The only multiple past `n` and within one block of it.
  lemma NextBoundary(n: nat, e: nat, b: nat)
    requires b > 0 && e % b == 0 && n < e && (e == b || e < n + b) && e >= b
    ensures e - n <= b && e - n == Gap(n, b)
  {
    var (q, k) := (n / b, e / b);
    assert n == b * q + n % b && e == b * k;
    RoundedUp(n, b);
    OneMultiple(n + Gap(n, b), e, b, q + 1, k);
  }

  lemma OneMultiple(d: nat, e: nat, b: nat, i: nat, j: nat)
    requires d == b * i && e == b * j && d < e + b && e < d + b
    ensures d == e
  {
    assert b * (i - j) == d - e && b * (j - i) == e - d;
    if d >= e {
      NoRemainder(b, i - j, d - e);
    } else {
      NoRemainder(b, j - i, e - d);
    }
  }

  method SuffixPadForAead(payload: seq<byte>, tagLen: nat, blockSize: nat) returns (r: Result<seq<byte>>)
    ensures r == PaddedFor(payload, tagLen, blockSize)
  {
    var padLen := PadLenForAead(|payload|, tagLen, blockSize);
    if padLen.Err? {
      return Err(padLen.error);
    }
    var buffer := new Buffer(payload);
    var appended := buffer.AppendSuffixPadding(padLen.value);
    if appended.Err? {
      return Err(appended.error);
    }
    return Ok(buffer.bytes);
  }

  function PaddedFor(payload: seq<byte>, tagLen: nat, blockSize: nat): Result<seq<byte>> {
    var padLen := PadLenForAead(|payload|, tagLen, blockSize);
    if padLen.Err? then Err(padLen.error)
    else if AppendError(padLen.value).Some? then Err(AppendError(padLen.value).value)
    else Ok(payload + Suffix(padLen.value))
  }

  function AeadEncrypt(p: Primitives, algo: Algo, key: seq<byte>, nonce: seq<byte>, aad: seq<byte>,
                       plaintext: seq<byte>): Result<seq<byte>>
  {
    if |nonce| != algo.NonceLen() then Err(InvalidNonceLength(algo.NonceLen(), |nonce|))
    else if algo.NoEncryption? then Ok(plaintext)
    else Ok(p.seal(algo, key, nonce, aad, plaintext))
  }

  function AeadDecrypt(p: Primitives, algo: Algo, key: seq<byte>, nonce: seq<byte>, aad: seq<byte>,
                       ciphertext: seq<byte>): Result<seq<byte>>
  {
    if |nonce| != algo.NonceLen() then Err(InvalidNonceLength(algo.NonceLen(), |nonce|))
    else if algo.NoEncryption? then Ok(ciphertext)
    else
      match p.open(algo, key, nonce, aad, ciphertext)
      case None => Err(AeadFailure)
      case Some(plaintext) => Ok(plaintext)
  }

  // Nonce and associated data of an object.
  function Derive(p: Primitives, c: Context): Result<(seq<byte>, seq<byte>)> {
    var nonceInfo := Info(NONCE_PREFIX, c.domain, c.archiveUuid, c.sessionId, c.counter);
    var aad := Info(AAD_PREFIX, c.domain, c.archiveUuid, c.sessionId, c.counter);
    if nonceInfo.Err? then Err(nonceInfo.error)
    else if aad.Err? then Err(aad.error)
    else Ok((p.expand(c.nonceSeed, nonceInfo.value, c.algo.NonceLen()), aad.value))
  }

  // ---------- what a nonce and associated data stand for ----------

  // An object's place: which archive, session and kind, and its number there.
  ghost predicate SamePlace(c: Context, c': Context) {
    c.domain == c'.domain && c.archiveUuid == c'.archiveUuid && c.sessionId == c'.sessionId && c.counter == c'.counter
  }

  // Ids of sixteen bytes and a 64-bit counter.
  ghost predicate Proper(c: Context) {
    |c.archiveUuid| == |c.sessionId| == 16 && c.counter < 0x1_0000_0000_0000_0000
  }

  // The prefix, the domain behind its 16-bit length, both ids and the 64-bit counter, numbers little-endian.
  ghost predicate Spells(info: seq<byte>, prefix: seq<byte>, c: Context) {
    var (n, d) := (|prefix|, |c.domain|);
    && |info| == n + d + 42 && d < 0x1_0000
    && info[..n] == prefix && info[n] as int + 256 * info[n + 1] as int == d && info[n + 2..n + 2 + d] == c.domain
    && info[n + 2 + d..n + 18 + d] == c.archiveUuid && info[n + 18 + d..n + 34 + d] == c.sessionId
    && FromLe(info[n + 34 + d..]) == c.counter
  }

  lemma InfoSpells(prefix: seq<byte>, c: Context)
    requires Proper(c) && |c.domain| < 0x1_0000
    ensures Info(prefix, c.domain, c.archiveUuid, c.sessionId, c.counter).Ok?
    ensures Spells(Info(prefix, c.domain, c.archiveUuid, c.sessionId, c.counter).value, prefix, c)
  {
    hide ToLe, FromLe;
    var (n, d) := (|prefix|, |c.domain|);
    var info := Info(prefix, c.domain, c.archiveUuid, c.sessionId, c.counter).value;
    TwoBytes(d);
    EightBytes(c.counter);
    assert info[n] == ToLe(d, 2)[0] && info[n + 1] == ToLe(d, 2)[1];
    assert info[n + 34 + d..] == ToLe(c.counter, 8);
  }

  lemma TwoBytes(n: nat)
    requires n < 0x1_0000
    ensures |ToLe(n, 2)| == 2 && ToLe(n, 2)[0] as int + 256 * ToLe(n, 2)[1] as int == n
  {
  }

  lemma EightBytes(n: nat)
    requires n < 0x1_0000_0000_0000_0000
    ensures |ToLe(n, 8)| == 8 && FromLe(ToLe(n, 8)) == n
  {
    assert Pow256(4) == 4294967296 by { Pow256Values(); }
    assert Pow256(6) == 281474976710656;
    assert Pow256(8) == 0x1_0000_0000_0000_0000;
    FromLeToLe(n, 8);
  }

  // The nonce is expanded from the seed under "tzap-v1-nonce", the associated data is spelled under "tzap-v1-aad",
  // each with the whole place of the object; the nonce has the algorithm's length.
  lemma DeriveSpells(p: Primitives, c: Context)
    requires Proper(c)
    ensures Derive(p, c).Ok? <==> |c.domain| < 0x1_0000
    ensures Derive(p, c).Err? ==> Derive(p, c).error == DomainTooLong
    ensures Derive(p, c).Ok? ==>
              exists info :: Spells(info, [116, 122, 97, 112, 45, 118, 49, 45, 110, 111, 110, 99, 101], c)
                && Derive(p, c).value.0
                == p.expand(c.nonceSeed, info, match c.algo
                                               case NoEncryption => 0
                                               case AesGcmSiv256 => 12
                                               case XChaCha20Poly1305 => 24
                                               case AesGcm256 => 12)
    ensures Derive(p, c).Ok? ==> Spells(Derive(p, c).value.1, [116, 122, 97, 112, 45, 118, 49, 45, 97, 97, 100], c)
  {
    hide Spells, Info;
    if |c.domain| < 0x1_0000 {
      InfoSpells(NONCE_PREFIX, c);
      InfoSpells(AAD_PREFIX, c);
    } else {
      LongDomain(NONCE_PREFIX, c);
    }
  }

  lemma LongDomain(prefix: seq<byte>, c: Context)
    requires |c.domain| >= 0x1_0000
    ensures Info(prefix, c.domain, c.archiveUuid, c.sessionId, c.counter) == Err(DomainTooLong)
  {
  }

  // A spelled string has one reading.
  lemma SpellsOnce(info: seq<byte>, prefix: seq<byte>, c: Context, c': Context)
    requires Spells(info, prefix, c) && Spells(info, prefix, c')
    ensures SamePlace(c, c')
  {
  }

  // Equal associated data is the same place.
  lemma SameAad(p: Primitives, c: Context, p': Primitives, c': Context)
    requires Proper(c) && Proper(c') && Derive(p, c).Ok? && Derive(p', c').Ok?
    requires Derive(p, c).value.1 == Derive(p', c').value.1
    ensures SamePlace(c, c')
  {
    hide Spells, Derive;
    DeriveSpells(p, c);
    DeriveSpells(p', c');
    SpellsOnce(Derive(p, c).value.1, [116, 122, 97, 112, 45, 118, 49, 45, 97, 97, 100], c, c');
  }

  // Equal nonces under one seed are the same place, unless the expansion itself gives two info strings one output.
  lemma SameNonce(p: Primitives, c: Context, c': Context)
    requires Proper(c) && Proper(c') && Derive(p, c).Ok? && Derive(p, c').Ok?
    requires c.nonceSeed == c'.nonceSeed && c.algo == c'.algo && Derive(p, c).value.0 == Derive(p, c').value.0
    ensures SamePlace(c, c') || exists info, info' ::
              && Spells(info, [116, 122, 97, 112, 45, 118, 49, 45, 110, 111, 110, 99, 101], c)
              && Spells(info', [116, 122, 97, 112, 45, 118, 49, 45, 110, 111, 110, 99, 101], c') && info != info'
              && p.expand(c.nonceSeed, info, c.algo.NonceLen()) == p.expand(c.nonceSeed, info', c.algo.NonceLen())
    ensures (forall info, info', n: nat ::
               p.expand(c.nonceSeed, info, n) == p.expand(c.nonceSeed, info', n) ==> info == info') ==> SamePlace(c, c')
  {
    hide Spells, Derive;
    var prefix := [116, 122, 97, 112, 45, 118, 49, 45, 110, 111, 110, 99, 101];
    DeriveSpells(p, c);
    DeriveSpells(p, c');
    var n := c.algo.NonceLen();
    var info :| Spells(info, prefix, c) && Derive(p, c).value.0 == p.expand(c.nonceSeed, info, n);
    var info' :| Spells(info', prefix, c') && Derive(p, c').value.0 == p.expand(c.nonceSeed, info', n);
    if info == info' {
      SpellsOnce(info, prefix, c, c');
    }
  }

  // The two strings of one object differ.
  lemma LabelsDiffer(info: seq<byte>, aad: seq<byte>, c: Context)
    requires Spells(info, [116, 122, 97, 112, 45, 118, 49, 45, 110, 111, 110, 99, 101], c)
    requires Spells(aad, [116, 122, 97, 112, 45, 118, 49, 45, 97, 97, 100], c)
    ensures info != aad
  {
  }

  method EncryptPaddedObject(p: Primitives, c: Context, blockSize: nat, payload: seq<byte>)
    returns (r: Result<seq<byte>>)
    ensures r == Encrypt(p, c, blockSize, payload)
  {
    var derived := Derive(p, c);
    if derived.Err? {
      return Err(derived.error);
    }
    var padded := SuffixPadForAead(payload, c.algo.TagLen(), blockSize);
    if padded.Err? {
      return padded;
    }
    return AeadEncrypt(p, c.algo, c.key, derived.value.0, derived.value.1, padded.value);
  }

  function Encrypt(p: Primitives, c: Context, blockSize: nat, payload: seq<byte>): Result<seq<byte>> {
    var derived := Derive(p, c);
    if derived.Err? then Err(derived.error)
    else
      var padded := PaddedFor(payload, c.algo.TagLen(), blockSize);
      if padded.Err? then padded
      else AeadEncrypt(p, c.algo, c.key, derived.value.0, derived.value.1, padded.value)
  }

  method DecryptPaddedObject(p: Primitives, c: Context, ciphertext: seq<byte>) returns (r: Result<seq<byte>>)
    ensures r == Decrypt(p, c, ciphertext)
  {
    var derived := Derive(p, c);
    if derived.Err? {
      return Err(derived.error);
    }
    var plain := AeadDecrypt(p, c.algo, c.key, derived.value.0, derived.value.1, ciphertext);
    if plain.Err? {
      return plain;
    }
    var buffer := new Buffer(plain.value);
    var truncated := buffer.TruncateSuffixPadding();
    if truncated.Err? {
      return Err(truncated.error);
    }
    return Ok(buffer.bytes);
  }

  function Decrypt(p: Primitives, c: Context, ciphertext: seq<byte>): Result<seq<byte>> {
    var derived := Derive(p, c);
    if derived.Err? then Err(derived.error)
    else
      var plain := AeadDecrypt(p, c.algo, c.key, derived.value.0, derived.value.1, ciphertext);
      if plain.Err? then plain else Depad(plain.value)
  }

  // Padded objects round-trip and fill whole blocks.
  lemma ObjectRoundTrip(p: Primitives, c: Context, blockSize: nat, payload: seq<byte>)
    requires Ideal(p) && Encrypt(p, c, blockSize, payload).Ok?
    ensures Decrypt(p, c, Encrypt(p, c, blockSize, payload).value) == Ok(payload)
    ensures var n := |Encrypt(p, c, blockSize, payload).value|;
            blockSize > 0 && n >= blockSize && n % blockSize == 0 && n > |payload| + c.algo.TagLen()
  {
    hide Suffix, Info, Depad, PadLenForAead;
    var padLen := PadLenForAead(|payload|, c.algo.TagLen(), blockSize).value;
    DepadSuffix(payload, padLen);
    MultipleAtLeast(|payload| + padLen + c.algo.TagLen(), blockSize);
  }

  lemma MultipleAtLeast(n: nat, b: nat)
    requires 0 < n && 0 < b && n % b == 0
    ensures n >= b
  {
  }

  // Encryption succeeds exactly when the domain fits its length field, the block size is positive, the padded object
  // fits a `usize`, and the padding fits its length field.
  lemma EncryptSucceeds(p: Primitives, c: Context, blockSize: nat, payload: seq<byte>)
    requires Ideal(p) && blockSize <= USIZE_MAX
    ensures var n := |payload| + c.algo.TagLen();
            Encrypt(p, c, blockSize, payload).Ok?
            <==> && |c.domain| <= 65535 && blockSize > 0
                 && n + Gap(n, blockSize) <= USIZE_MAX && Gap(n, blockSize) <= U32_MAX
  {
    hide Suffix, PadLenForAead, RoundUpToBlock, Gap;
  }

  // What decrypts was sealed under the same context around a padded payload.
  lemma DecryptAuthentic(p: Primitives, c: Context, ciphertext: seq<byte>)
    requires Ideal(p) && Decrypt(p, c, ciphertext).Ok?
    ensures Derive(p, c).Ok?
    ensures exists padLen: nat :: 1 <= padLen <= U32_MAX &&
              var plaintext := Decrypt(p, c, ciphertext).value + Suffix(padLen);
              ciphertext == if c.algo.NoEncryption? then plaintext
                            else p.seal(c.algo, c.key, Derive(p, c).value.0, Derive(p, c).value.1, plaintext)
  {
    hide Suffix, Info, PayloadLen;
    var (nonce, aad) := Derive(p, c).value;
    var plain := AeadDecrypt(p, c.algo, c.key, nonce, aad, ciphertext).value;
    DepadExact(plain, Depad(plain).value);
  }

  // What was not sealed under this context does not open, and says no more than that.
  lemma DecryptRefuses(p: Primitives, c: Context, ciphertext: seq<byte>)
    requires Ideal(p) && !c.algo.NoEncryption? && Derive(p, c).Ok?
    requires forall m :: ciphertext != p.seal(c.algo, c.key, Derive(p, c).value.0, Derive(p, c).value.1, m)
    ensures Decrypt(p, c, ciphertext) == Err(AeadFailure)
  {
    hide Depad, Info;
  }
}
