/**
 * The end-to-end encryption helpers of the chat client: base64 conversion of
 * byte arrays, the HKDF root key, the HMAC hash ratchet
 * `key_{n+1} = HMAC-SHA256(key_n, iv_n)`, the pseudonymous sender token, and
 * AES-GCM payload assembly.
 *
 * The WebCrypto primitives are opaque: they are the function-valued fields of
 * a `Primitives` record, and every property here holds for every record that
 * meets `Valid` (output lengths, and decryption undoing encryption).
 */
module Encryption {
  import opened Wrappers
  import opened Base64
  import Utf8

  /** The DOMException names the helpers can throw. */
  datatype CryptoError =
    | DataError              // `importKey` rejected the raw key bytes
    | OperationError         // AES-GCM authentication failed
    | InvalidCharacterError  // `atob` rejected its input

  datatype Primitives = Primitives(
    /** HKDF-SHA256 `deriveBits(ikm, salt, info, length in bits)` */
    hkdfSha256: (seq<uint8>, seq<uint8>, seq<uint8>, nat) -> seq<uint8>,
    /** HMAC-SHA256 `sign(key, data)` */
    hmacSha256: (seq<uint8>, seq<uint8>) -> seq<uint8>,
    /** AES-GCM `encrypt(key, iv, plaintext)`, ciphertext with its 16-byte tag */
    aesGcmEncrypt: (seq<uint8>, seq<uint8>, seq<uint8>) -> seq<uint8>,
    /** AES-GCM `decrypt(key, iv, ciphertext)`, `None` when the tag does not verify */
    aesGcmDecrypt: (seq<uint8>, seq<uint8>, seq<uint8>) -> Option<seq<uint8>>,
    /** `TextDecoder.decode` of a default `new TextDecoder()` */
    textDecode: seq<uint8> -> string)

  /** What the model assumes of the primitives. Decoding UTF-8 gives the
      text back, less one leading byte order mark. */
  ghost predicate Valid(p: Primitives) {
    && (forall ikm, salt, info, bits: nat :: |p.hkdfSha256(ikm, salt, info, bits)| == bits / 8)
    && (forall key, data :: |p.hmacSha256(key, data)| == 32)
    && (forall key, iv, pt :: |p.aesGcmEncrypt(key, iv, pt)| == |pt| + 16)
    && (forall key, iv, pt :: p.aesGcmDecrypt(key, iv, p.aesGcmEncrypt(key, iv, pt)) == Some(pt))
    && (forall s :: p.textDecode(Utf8.Encode(s)) == Utf8.StripBom(s))
  }

  // ---------------------------------------------------------------- base64 helpers

  /** `encodeBase64`: bytes to a binary string, one char per byte, then `btoa`. */
  method EncodeBase64(bytes: array<uint8>) returns (s: string)
    ensures s == Encode(bytes[..])
  {
    var binary := "";
    for i := 0 to bytes.Length
      invariant binary == BinaryString(bytes[..i])
    {
      binary := binary + [bytes[i] as int as char];
    }
    assert bytes[..bytes.Length] == bytes[..];
    BinaryStringRoundTrip(bytes[..], binary);
    var encoded := Btoa(binary);
    s := encoded.value;
  }

  /** `decodeBase64`: `atob`, then each char code into a fresh `Uint8Array`. */
  method DecodeBase64(str: string) returns (r: Result<array<uint8>, CryptoError>)
    ensures r.Success? <==> DecodeBytes(str).Some?
    ensures r.Success? ==> fresh(r.value) && DecodeBytes(str) == Some(r.value[..])
    ensures r.Failure? ==> r.error == InvalidCharacterError
  {
    var decoded := Atob(str);
    if decoded.None? {
      return Failure(InvalidCharacterError);
    }
    var binary := decoded.value;
    var bytes := new uint8[|binary|];
    for i := 0 to |binary|
      invariant forall j | 0 <= j < i :: bytes[j] == (binary[j] as int % 256) as uint8
    {
      bytes[i] := (binary[i] as int % 256) as uint8;
    }
    assert bytes[..] == Uint8ArrayFrom(binary);
    return Success(bytes);
  }

  /** `generateSecret`: 32 random bytes (supplied by the caller), base64-encoded. */
  method GenerateSecret(random: array<uint8>) returns (secret: string)
    requires random.Length == 32
    ensures |secret| == 44 && secret[42] != '=' && secret[43] == '='
    ensures DecodeBytes(secret) == Some(random[..])
  {
    secret := EncodeBase64(random);
    SecretShape(random[..]);
    DecodeEncode(random[..]);
  }

  /** The encoding of 32 bytes is 44 chars ending in exactly one '='. */
  lemma SecretShape(b: seq<uint8>)
    requires |b| == 32
    ensures |Encode(b)| == 44 && Encode(b)[42] != '=' && Encode(b)[43] == '='
  {
    EncodePadding(b);
    PaddingOf32(Encode(b));
  }

  lemma PaddingOf32(s: string)
    requires |s| == 4 * ((32 + 2) / 3) && PaddedFor(s, 32)
    ensures |s| == 44 && s[42] != '=' && s[43] == '='
  {
  }

  // ---------------------------------------------------------------- key derivation

  /** The all-zero 32-byte HKDF salt. */
  const HkdfSalt: seq<uint8> := seq(32, _ => 0)

  /** The HKDF info label of the root key. */
  function RootInfo(): string { "raz-e2e-root" }

  /** `hkdf`: 256 bits of HKDF-SHA256 under the fixed salt and the UTF-8 label. */
  function Hkdf(p: Primitives, secretBytes: seq<uint8>, info: string): (bits: seq<uint8>)
    requires Valid(p)
    ensures |bits| == 32
  {
    p.hkdfSha256(secretBytes, HkdfSalt, Utf8.Encode(info), 256)
  }

  /** `deriveInitialKey`: the 32-byte root key of a secret string. */
  function DeriveInitialKey(p: Primitives, secretMaterial: string): (key: seq<uint8>)
    requires Valid(p)
    ensures |key| == 32
  {
    Hkdf(p, Utf8.Encode(secretMaterial), RootInfo())
  }

  /** The 12 info bytes of every root-key derivation. */
  lemma RootInfoBytes()
    ensures Utf8.Encode(RootInfo()) == [114, 97, 122, 45, 101, 50, 101, 45, 114, 111, 111, 116]
  {
    Utf8.AsciiBytes(RootInfo(), [114, 97, 122, 45, 101, 50, 101, 45, 114, 111, 111, 116]);
  }

  /** `hmacSha256`: importing an empty raw HMAC key throws DataError. */
  function HmacSha256(p: Primitives, key: seq<uint8>, data: seq<uint8>): (r: Result<seq<uint8>, CryptoError>)
    requires Valid(p)
    ensures r.Success? <==> |key| > 0
    ensures r.Success? ==> |r.value| == 32 && r.value == p.hmacSha256(key, data)
    ensures r.Failure? ==> r.error == DataError
  {
    if |key| == 0 then Failure(DataError) else Success(p.hmacSha256(key, data))
  }

  /** `ratchetForward`: one ratchet step, the HMAC of the message's IV under the current key. */
  function RatchetForward(p: Primitives, key: seq<uint8>, iv: seq<uint8>): (r: Result<seq<uint8>, CryptoError>)
    requires Valid(p)
    ensures r.Success? <==> |key| > 0
    ensures r.Success? ==> |r.value| == 32
  {
    HmacSha256(p, key, iv)
  }

  /** `deriveSenderToken`: base64 of the HMAC of the UTF-8 sender name under the
      secret's root key. The root key has 32 bytes, so the HMAC key import
      cannot throw here. */
  function DeriveSenderToken(p: Primitives, secret: string, sender: string): (token: string)
    requires Valid(p)
    ensures |token| == 44
    ensures DecodeBytes(token) == Some(p.hmacSha256(DeriveInitialKey(p, secret), Utf8.Encode(sender)))
  {
    var tag := HmacSha256(p, DeriveInitialKey(p, secret), Utf8.Encode(sender)).value;
    EncodeTag(tag);
    Encode(tag)
  }

  /** A 32-byte tag encodes to 44 characters and decodes back. */
  lemma EncodeTag(tag: seq<uint8>)
    requires |tag| == 32
    ensures |Encode(tag)| == 44 && DecodeBytes(Encode(tag)) == Some(tag)
  {
    DecodeEncode(tag);
  }

  /** Two sender tokens are equal exactly when their HMAC tags are: base64 neither merges nor splits them. */
  lemma SenderTokenEquality(p: Primitives, secret1: string, sender1: string, secret2: string, sender2: string)
    requires Valid(p)
    ensures (DeriveSenderToken(p, secret1, sender1) == DeriveSenderToken(p, secret2, sender2))
        <==> (p.hmacSha256(DeriveInitialKey(p, secret1), Utf8.Encode(sender1))
              == p.hmacSha256(DeriveInitialKey(p, secret2), Utf8.Encode(sender2)))
  {
    var t1 := p.hmacSha256(DeriveInitialKey(p, secret1), Utf8.Encode(sender1));
    var t2 := p.hmacSha256(DeriveInitialKey(p, secret2), Utf8.Encode(sender2));
    EncodeInjective(t1, t2);
  }

  // ---------------------------------------------------------------- payloads

  datatype EncryptedPayload = EncryptedPayload(ciphertext: string, iv: string, step: int)

  datatype Encrypted = Encrypted(payload: EncryptedPayload, nextKey: seq<uint8>)

  /** AES-GCM raw keys are 128, 192 or 256 bits; `importKey` throws DataError otherwise. */
  predicate AesKeyLength(key: seq<uint8>) {
    |key| == 16 || |key| == 24 || |key| == 32
  }

  /** `encryptWithRatchet`: encrypt the UTF-8 plaintext under the current key
      with a fresh 12-byte IV (supplied by the caller), and ratchet the key
      forward with that same IV. Only the AES key import can throw: a key it
      accepts is non-empty, so the HMAC import that follows accepts it too. */
  function EncryptWithRatchet(p: Primitives, plaintext: string, currentKey: seq<uint8>, step: int, iv: seq<uint8>)
    : (r: Result<Encrypted, CryptoError>)
    requires Valid(p)
    requires |iv| == 12
    ensures r.Success? <==> AesKeyLength(currentKey)
    ensures r.Failure? ==> r.error == DataError
    ensures r.Success? ==>
      && r.value.payload.step == step
      && RatchetForward(p, currentKey, iv) == Success(r.value.nextKey)
      && |r.value.nextKey| == 32
  {
    if !AesKeyLength(currentKey) then Failure(DataError)
    else
      var encrypted := p.aesGcmEncrypt(currentKey, iv, Utf8.Encode(plaintext));
      var nextKey := RatchetForward(p, currentKey, iv).value;
      Success(Encrypted(EncryptedPayload(Encode(encrypted), Encode(iv), step), nextKey))
  }

  /** The payload carries, in base64, the 16-character IV that keyed the ratchet
      step and the AES-GCM ciphertext made with that same IV. */
  lemma EncryptedPayloadDecodes(p: Primitives, plaintext: string, currentKey: seq<uint8>, step: int, iv: seq<uint8>)
    requires Valid(p)
    requires |iv| == 12
    requires AesKeyLength(currentKey)
    ensures
      var e := EncryptWithRatchet(p, plaintext, currentKey, step, iv).value;
      && |e.payload.iv| == 16
      && DecodeBytes(e.payload.iv) == Some(iv)
      && DecodeBytes(e.payload.ciphertext) == Some(p.aesGcmEncrypt(currentKey, iv, Utf8.Encode(plaintext)))
  {
    var ct := p.aesGcmEncrypt(currentKey, iv, Utf8.Encode(plaintext));
    var e := EncryptWithRatchet(p, plaintext, currentKey, step, iv).value;
    PayloadDecodes(e.payload, ct, iv);
  }

  /** A payload whose fields are the encodings of a ciphertext and a 12-byte IV decodes back to them. */
  lemma PayloadDecodes(payload: EncryptedPayload, ct: seq<uint8>, iv: seq<uint8>)
    requires |iv| == 12
    requires payload.ciphertext == Encode(ct) && payload.iv == Encode(iv)
    ensures |payload.iv| == 16 && DecodeBytes(payload.iv) == Some(iv) && DecodeBytes(payload.ciphertext) == Some(ct)
  {
    DecodeEncode(ct);
    DecodeEncode(iv);
  }

  /** `decryptWithRatchet`: decode IV and ciphertext, AES-GCM decrypt under the
      given key, decode the UTF-8 plaintext; each stage can throw. */
  function DecryptWithRatchet(p: Primitives, ciphertext: string, iv: string, keyBytes: seq<uint8>)
    : (r: Result<string, CryptoError>)
    requires Valid(p)
    ensures r.Success? <==>
      && DecodeBytes(iv).Some?
      && AesKeyLength(keyBytes)
      && DecodeBytes(ciphertext).Some?
      && p.aesGcmDecrypt(keyBytes, DecodeBytes(iv).value, DecodeBytes(ciphertext).value).Some?
    ensures r.Success? ==>
      r.value == p.textDecode(p.aesGcmDecrypt(keyBytes, DecodeBytes(iv).value, DecodeBytes(ciphertext).value).value)
  {
    match DecodeBytes(iv)
    case None => Failure(InvalidCharacterError)
    case Some(ivBytes) =>
      if !AesKeyLength(keyBytes) then Failure(DataError)
      else
        match DecodeBytes(ciphertext)
        case None => Failure(InvalidCharacterError)
        case Some(ct) =>
          match p.aesGcmDecrypt(keyBytes, ivBytes, ct)
          case None => Failure(OperationError)
          case Some(pt) => Success(p.textDecode(pt))
  }

  /** A payload decrypts, under the key it was encrypted with, to its
      plaintext, less a leading byte order mark. */
  lemma DecryptEncrypt(p: Primitives, plaintext: string, key: seq<uint8>, step: int, iv: seq<uint8>)
    requires Valid(p)
    requires |iv| == 12
    requires AesKeyLength(key)
    ensures
      var e := EncryptWithRatchet(p, plaintext, key, step, iv).value.payload;
      DecryptWithRatchet(p, e.ciphertext, e.iv, key) == Success(Utf8.StripBom(plaintext))
  {
    EncryptedPayloadDecodes(p, plaintext, key, step, iv);
  }

  // ---------------------------------------------------------------- the ratchet

  /** The key after ratcheting `root` over `ivs`, in send order: a left fold of `RatchetForward`. */
  function KeyAfter(p: Primitives, root: seq<uint8>, ivs: seq<seq<uint8>>): Result<seq<uint8>, CryptoError>
    requires Valid(p)
    decreases |ivs|
  {
    if ivs == [] then Success(root)
    else
      var key :- RatchetForward(p, root, ivs[0]);
      KeyAfter(p, key, ivs[1..])
  }

  /** One more message advances the folded key by exactly one step. */
  lemma {:induction false} KeyAfterSnoc(p: Primitives, root: seq<uint8>, ivs: seq<seq<uint8>>, iv: seq<uint8>)
    requires Valid(p)
    ensures KeyAfter(p, root, ivs + [iv]) ==
      match KeyAfter(p, root, ivs)
      case Success(key) => RatchetForward(p, key, iv)
      case Failure(e) => Failure(e)
    decreases |ivs|
  {
    if ivs == [] {
      assert ivs + [iv] == [iv];
    } else {
      assert (ivs + [iv])[1..] == ivs[1..] + [iv];
      match RatchetForward(p, root, ivs[0])
      case Success(key) => KeyAfterSnoc(p, key, ivs[1..], iv);
      case Failure(_) =>
    }
  }

  /** From a non-empty root the ratchet never fails, and every ratcheted key is 32 bytes. */
  lemma {:induction false} KeyAfterSucceeds(p: Primitives, root: seq<uint8>, ivs: seq<seq<uint8>>)
    requires Valid(p)
    requires |root| > 0
    ensures KeyAfter(p, root, ivs).Success?
    ensures ivs != [] ==> |KeyAfter(p, root, ivs).value| == 32
    decreases |ivs|
  {
    if ivs != [] {
      var key := RatchetForward(p, root, ivs[0]).value;
      KeyAfterSucceeds(p, key, ivs[1..]);
    }
  }

}
