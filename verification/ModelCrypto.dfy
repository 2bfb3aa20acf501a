/**
 Encrypted model data under the fallback cipher: a keystream and a tag built from SHA-256 and
 HMAC-SHA-256, which are unknown functions with 32-byte results here, behind a fixed header.
 */
module ModelCrypto {
  import opened Common

  type Bytes = seq<bv8>

  type Digest = d: Bytes | |d| == 32 witness seq(32, _ => 0)

  datatype Primitives = Primitives(sha256: Bytes -> Digest, hmac: (Bytes, Bytes) -> Digest)

  datatype Error = NotEncrypted | AuthenticationFailed

  // ----- Python slices, which stop at the end of the data

  function Take(s: Bytes, n: nat): Bytes {
    s[..Min(n, |s|)]
  }

  function Drop(s: Bytes, n: nat): Bytes {
    s[Min(n, |s|)..]
  }

  /** s[:-n] */
  function AllButLast(s: Bytes, n: nat): Bytes {
    if n <= |s| then s[..|s| - n] else []
  }

  /** s[-n:] */
  function Last(s: Bytes, n: nat): Bytes {
    if n <= |s| then s[|s| - n..] else s
  }

  // ----- the keystream

  /** A stream grows by the hash of itself and the nonce until it has n bytes. */
  function Grow(p: Primitives, nonce: Bytes, stream: Bytes, n: nat): (r: Bytes)
    ensures |r| >= n && stream <= r
    decreases n - |stream|
  {
    if |stream| >= n then stream else Grow(p, nonce, stream + p.sha256(stream + nonce), n)
  }

  function Keystream(p: Primitives, key: Bytes, nonce: Bytes, n: nat): (r: Bytes)
    ensures |r| >= n
  {
    Grow(p, nonce, p.sha256(key + nonce), n)
  }

  /** A longer keystream extends a shorter one. */
  lemma {:induction false} KeystreamExtends(p: Primitives, nonce: Bytes, stream: Bytes, m: nat, n: nat)
    requires m <= n
    ensures Grow(p, nonce, stream, m) <= Grow(p, nonce, stream, n)
    decreases n - |stream|
  {
    if |stream| < m {
      KeystreamExtends(p, nonce, stream + p.sha256(stream + nonce), m, n);
    }
  }

  function Xor(data: Bytes, stream: Bytes): (r: Bytes)
    requires |data| <= |stream|
    ensures |r| == |data|
  {
    seq(|data|, i requires 0 <= i < |data| => data[i] ^ stream[i])
  }

  lemma XorBit(a: bv8, b: bv8)
    ensures (a ^ b) ^ b == a
  {
  }

  lemma XorTwice(data: Bytes, stream: Bytes)
    requires |data| <= |stream|
    ensures Xor(Xor(data, stream), stream) == data
  {
    forall i | 0 <= i < |data|
      ensures Xor(Xor(data, stream), stream)[i] == data[i]
    {
      XorBit(data[i], stream[i]);
    }
  }

  // ----- the cipher, for the key of the fallback object

  function Tag(p: Primitives, key: Bytes, nonce: Bytes, encrypted: Bytes, aad: Bytes): (t: Bytes)
    ensures |t| == 16
  {
    p.hmac(key, nonce + encrypted + aad)[..16]
  }

  function Encrypt(p: Primitives, key: Bytes, nonce: Bytes, data: Bytes, aad: Bytes): (r: Bytes)
    ensures |r| == |data| + 16
  {
    var encrypted := Xor(data, Keystream(p, key, nonce, |data|));
    encrypted + Tag(p, key, nonce, encrypted, aad)
  }

  function Decrypt(p: Primitives, key: Bytes, nonce: Bytes, data: Bytes, aad: Bytes): Result<Bytes, Error> {
    var encrypted := AllButLast(data, 16);
    if Last(data, 16) != Tag(p, key, nonce, encrypted, aad) then Failure(AuthenticationFailed)
    else Success(Xor(encrypted, Keystream(p, key, nonce, |encrypted|)))
  }

  /** Decryption succeeds exactly on what encryption produces, and returns what was encrypted. */
  lemma DecryptExactly(p: Primitives, key: Bytes, nonce: Bytes, data: Bytes, aad: Bytes, plain: Bytes)
    ensures Decrypt(p, key, nonce, data, aad) == Success(plain) <==> data == Encrypt(p, key, nonce, plain, aad)
  {
    if data == Encrypt(p, key, nonce, plain, aad) {
      var stream := Keystream(p, key, nonce, |plain|);
      assert AllButLast(data, 16) == Xor(plain, stream);
      XorTwice(plain, stream);
    }
    if Decrypt(p, key, nonce, data, aad) == Success(plain) {
      var encrypted := AllButLast(data, 16);
      XorTwice(encrypted, Keystream(p, key, nonce, |encrypted|));
      assert |Last(data, 16)| == 16;
      assert data == encrypted + Last(data, 16);
    }
  }

  // ----- the file format

  const MAGIC: Bytes := [0x4B, 0x41, 0x49, 0x4D, 0x44, 0x31]
  const AAD_PREFIX: Bytes := [0x6B, 0x61, 0x69, 0x2D, 0x6D, 0x6F, 0x64, 0x65, 0x6C, 0x00]

  function Payload(p: Primitives, key: Bytes, version: Bytes, nonce: Bytes, data: Bytes): Bytes {
    MAGIC + version + nonce + Encrypt(p, p.sha256(key), nonce, data, AAD_PREFIX + version)
  }

  /** The nonce is random in the program; it is a parameter here. */
  function EncryptBytes(p: Primitives, key: Bytes, nonce: Bytes, data: Bytes): Bytes {
    Payload(p, key, [1, 0], nonce, data)
  }

  function DecryptBytes(p: Primitives, key: Bytes, payload: Bytes): Result<Bytes, Error> {
    if Take(payload, 6) != MAGIC then Failure(NotEncrypted)
    else
      var version := Drop(Take(payload, 8), 6);
      var nonce := Drop(Take(payload, 20), 8);
      Decrypt(p, p.sha256(key), nonce, Drop(payload, 20), AAD_PREFIX + version)
  }

  lemma HeaderSlices(version: Bytes, nonce: Bytes, rest: Bytes)
    requires |version| == 2 && |nonce| == 12
    ensures var payload := MAGIC + version + nonce + rest;
            && Take(payload, 6) == MAGIC && Drop(Take(payload, 8), 6) == version
            && Drop(Take(payload, 20), 8) == nonce && Drop(payload, 20) == rest
  {
  }

  lemma HeaderJoins(payload: Bytes)
    requires |payload| >= 20 && Take(payload, 6) == MAGIC
    ensures payload == MAGIC + Drop(Take(payload, 8), 6) + Drop(Take(payload, 20), 8) + Drop(payload, 20)
  {
  }

  // ----- main results

  /** What encrypt_bytes produces is read back by decrypt_bytes, for all data, keys and nonces of 12 bytes. */
  lemma RoundTrip(p: Primitives, key: Bytes, nonce: Bytes, data: Bytes)
    requires |nonce| == 12
    ensures DecryptBytes(p, key, EncryptBytes(p, key, nonce, data)) == Success(data)
    ensures |EncryptBytes(p, key, nonce, data)| == |data| + 36
  {
    var ct := Encrypt(p, p.sha256(key), nonce, data, AAD_PREFIX + [1, 0]);
    HeaderSlices([1, 0], nonce, ct);
    DecryptExactly(p, p.sha256(key), nonce, ct, AAD_PREFIX + [1, 0], data);
  }

  ghost predicate IsPayload(p: Primitives, key: Bytes, payload: Bytes, data: Bytes, version: Bytes, nonce: Bytes) {
    |version| == 2 && |nonce| == 12 && payload == Payload(p, key, version, nonce, data)
  }

  /** decrypt_bytes returns data exactly for the payloads that encrypt it under some version and nonce. */
  lemma DecryptBytesExactly(p: Primitives, key: Bytes, payload: Bytes, data: Bytes)
    ensures DecryptBytes(p, key, payload) == Success(data)
            <==> exists version, nonce :: IsPayload(p, key, payload, data, version, nonce)
  {
    var k := p.sha256(key);
    if version, nonce :| IsPayload(p, key, payload, data, version, nonce) {
      var ct := Encrypt(p, k, nonce, data, AAD_PREFIX + version);
      HeaderSlices(version, nonce, ct);
      DecryptExactly(p, k, nonce, ct, AAD_PREFIX + version, data);
    }
    if DecryptBytes(p, key, payload) == Success(data) {
      var version, nonce, ct := Drop(Take(payload, 8), 6), Drop(Take(payload, 20), 8), Drop(payload, 20);
      DecryptExactly(p, k, nonce, ct, AAD_PREFIX + version, data);
      HeaderJoins(payload);
      assert IsPayload(p, key, payload, data, version, nonce);
    }
  }

  // ----- what the bytes are

  /** Blocks of 32 bytes: the hash of key and nonce, then each the hash of all before it and the nonce. */
  ghost predicate IsStream(p: Primitives, key: Bytes, nonce: Bytes, s: Bytes) {
    && |s| >= 32 && |s| % 32 == 0 && s[..32] == p.sha256(key + nonce)
    && forall j: nat :: 0 < j < |s| / 32 ==> s[32 * j..32 * j + 32] == p.sha256(s[..32 * j] + nonce)
  }

  lemma NextBlock(p: Primitives, key: Bytes, nonce: Bytes, s: Bytes, j: nat)
    requires IsStream(p, key, nonce, s) && 0 < j && 32 * j < |s|
    ensures 32 * j + 32 <= |s| && s[..32 * j] + p.sha256(s[..32 * j] + nonce) == s[..32 * j + 32]
  {
    assert j < |s| / 32;
    assert s[..32 * j] + s[32 * j..32 * j + 32] == s[..32 * j + 32];
  }

  lemma {:induction false} GrowsAlong(p: Primitives, key: Bytes, nonce: Bytes, s: Bytes, j: nat, n: nat)
    requires IsStream(p, key, nonce, s) && 0 < j && 32 * j <= |s| && n <= |s|
    ensures Grow(p, nonce, s[..32 * j], n) <= s
    decreases |s| - 32 * j
  {
    if 32 * j < n {
      NextBlock(p, key, nonce, s, j);
      GrowsAlong(p, key, nonce, s, j + 1, n);
    }
  }

  lemma AppendedBlock(p: Primitives, key: Bytes, nonce: Bytes, s: Bytes, block: Digest)
    requires IsStream(p, key, nonce, s) && block == p.sha256(s + nonce)
    ensures IsStream(p, key, nonce, s + block)
  {
    var t := s + block;
    assert t[..32] == s[..32];
    forall j: nat | 0 < j < |t| / 32
      ensures t[32 * j..32 * j + 32] == p.sha256(t[..32 * j] + nonce)
    {
      if j < |s| / 32 {
        assert t[32 * j..32 * j + 32] == s[32 * j..32 * j + 32] && t[..32 * j] == s[..32 * j];
      } else {
        assert t[..32 * j] == s && t[32 * j..32 * j + 32] == block;
      }
    }
  }

  lemma {:induction false} GrowIsStream(p: Primitives, key: Bytes, nonce: Bytes, s: Bytes, n: nat)
    requires IsStream(p, key, nonce, s)
    ensures IsStream(p, key, nonce, Grow(p, nonce, s, n))
    decreases n - |s|
  {
    if |s| < n {
      AppendedBlock(p, key, nonce, s, p.sha256(s + nonce));
      GrowIsStream(p, key, nonce, s + p.sha256(s + nonce), n);
    }
  }

  /** There is such a stream of every length needed. */
  lemma StreamExists(p: Primitives, key: Bytes, nonce: Bytes, n: nat) returns (s: Bytes)
    ensures IsStream(p, key, nonce, s) && |s| >= n
  {
    s := Keystream(p, key, nonce, n);
    GrowIsStream(p, key, nonce, p.sha256(key + nonce), n);
  }

  /**
   Byte for byte: the magic, version 1.0 and the nonce; the data, each byte combined with that of the stream; and the
   front of the HMAC of nonce, ciphertext and "kai-model", a zero byte and the version, all under the hash of the key.
   */
  lemma EncryptBytesIs(p: Primitives, key: Bytes, nonce: Bytes, data: Bytes, s: Bytes)
    requires |nonce| == 12 && IsStream(p, p.sha256(key), nonce, s) && |s| >= |data|
    ensures var r := EncryptBytes(p, key, nonce, data);
            && |r| == 20 + |data| + 16
            && r[..20] == [0x4B, 0x41, 0x49, 0x4D, 0x44, 0x31, 1, 0] + nonce
            && (forall i: nat :: i < |data| ==> r[20 + i] == data[i] ^ s[i])
            && r[20 + |data|..] == p.hmac(p.sha256(key), nonce + r[20..20 + |data|]
                                          + [0x6B, 0x61, 0x69, 0x2D, 0x6D, 0x6F, 0x64, 0x65, 0x6C, 0, 1, 0])[..16]
  {
    var k, n := p.sha256(key), |data|;
    var stream := Keystream(p, k, nonce, n);
    GrowsAlong(p, k, nonce, s, 1, n);
    var encrypted, aad := Xor(data, stream), AAD_PREFIX + [1, 0];
    assert aad == [0x6B, 0x61, 0x69, 0x2D, 0x6D, 0x6F, 0x64, 0x65, 0x6C, 0, 1, 0];
    var head := MAGIC + [1, 0] + nonce;
    var r := EncryptBytes(p, key, nonce, data);
    assert r == head + (encrypted + Tag(p, k, nonce, encrypted, aad));
    assert |head| == 20 && r[20..20 + n] == encrypted;
    assert nonce + encrypted + aad == nonce + r[20..20 + n] + aad;
  }

  /** Why decrypt_bytes fails: the magic is missing, or else it is no payload of anything. */
  lemma DecryptBytesFails(p: Primitives, key: Bytes, payload: Bytes)
    ensures DecryptBytes(p, key, payload) == Failure(NotEncrypted)
            <==> |payload| < 6 || payload[..6] != [0x4B, 0x41, 0x49, 0x4D, 0x44, 0x31]
    ensures DecryptBytes(p, key, payload) == Failure(AuthenticationFailed)
            <==> && |payload| >= 6 && payload[..6] == [0x4B, 0x41, 0x49, 0x4D, 0x44, 0x31]
                 && !exists data, version, nonce :: IsPayload(p, key, payload, data, version, nonce)
  {
    if data, version, nonce :| IsPayload(p, key, payload, data, version, nonce) {
      DecryptBytesExactly(p, key, payload, data);
    }
    if DecryptBytes(p, key, payload).Success? {
      DecryptBytesExactly(p, key, payload, DecryptBytes(p, key, payload).value);
    }
  }

  // ----- the program's fallback object

  class AesGcmFallback {
    const p: Primitives
    const key: Bytes

    constructor (p: Primitives, key: Bytes)
      ensures this.p == p && this.key == p.sha256(key)
    {
      this.p, this.key := p, p.sha256(key);
    }

    method GrowStream(nonce: Bytes, n: nat) returns (stream: Bytes)
      ensures stream == Keystream(p, key, nonce, n)
    {
      stream := p.sha256(key + nonce);
      while |stream| < n
        invariant Grow(p, nonce, stream, n) == Keystream(p, key, nonce, n)
        decreases n - |stream|
      {
        stream := stream + p.sha256(stream + nonce);
      }
    }

    method EncryptData(nonce: Bytes, data: Bytes, aad: Bytes) returns (r: Bytes)
      ensures r == Encrypt(p, key, nonce, data, aad)
    {
      var stream := GrowStream(nonce, |data|);
      var encrypted := Xor(data, stream);
      r := encrypted + Tag(p, key, nonce, encrypted, aad);
    }

    method DecryptData(nonce: Bytes, data: Bytes, aad: Bytes) returns (r: Result<Bytes, Error>)
      ensures r == Decrypt(p, key, nonce, data, aad)
    {
      var encrypted, tag := AllButLast(data, 16), Last(data, 16);
      if tag != Tag(p, key, nonce, encrypted, aad) {
        return Failure(AuthenticationFailed);
      }
      var stream := GrowStream(nonce, |encrypted|);
      return Success(Xor(encrypted, stream));
    }
  }
}
