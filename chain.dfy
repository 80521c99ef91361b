/**
 * One sender's message chain as the room page drives it: sending encrypts
 * each message under the current ratchet key and step, and replaying walks
 * the same chain from the root key to recover the plaintexts.
 */
module SenderChain {
  import opened Wrappers
  import opened Base64
  import opened Encryption
  import Utf8


  /** The room page's send path for one sender: each message is encrypted
      under the current key and step, then the key becomes `nextKey` and the
      step grows by one. Returns the payloads and the final key. */
  function SendAll(p: Primitives, key: seq<uint8>, step: int, plaintexts: seq<string>, ivs: seq<seq<uint8>>)
    : (r: Result<(seq<EncryptedPayload>, seq<uint8>), CryptoError>)
    requires Valid(p)
    requires |plaintexts| == |ivs|
    requires forall i | 0 <= i < |ivs| :: |ivs[i]| == 12
    ensures r.Success? <==> plaintexts == [] || AesKeyLength(key)
    ensures r.Success? ==>
      && |r.value.0| == |plaintexts|
      && (forall i | 0 <= i < |plaintexts| :: r.value.0[i].step == step + i)
      && KeyAfter(p, key, ivs) == Success(r.value.1)
    decreases |plaintexts|
  {
    if plaintexts == [] then Success(([], key))
    else
      match EncryptWithRatchet(p, plaintexts[0], key, step, ivs[0])
      case Failure(err) => Failure(err)
      case Success(e) =>
        // `nextKey` has 32 bytes, so the rest of the chain cannot fail
        var rest := SendAll(p, e.nextKey, step + 1, plaintexts[1..], ivs[1..]).value;
        Success(([e.payload] + rest.0, rest.1))
  }

  /** The placeholder the room page shows for a message that does not decrypt. */
  function DecryptionFailed(): string { "[Decryption failed]" }

  datatype Replayed = Replayed(plaintexts: seq<string>, key: seq<uint8>, expectedStep: int)

  /** The text the room page shows for one message: its plaintext, or the
      placeholder when it does not decrypt under `key`. */
  function Shown(p: Primitives, key: seq<uint8>, msg: EncryptedPayload): string
    requires Valid(p)
  {
    match DecryptWithRatchet(p, msg.ciphertext, msg.iv, key)
    case Success(t) => t
    case Failure(_) => DecryptionFailed()
  }

  /** The key after one message: the ratchet always advances with the
      message's own IV, whether or not it decrypted; an IV that is not base64
      throws. */
  function Advance(p: Primitives, key: seq<uint8>, msg: EncryptedPayload): Result<seq<uint8>, CryptoError>
    requires Valid(p)
  {
    match DecodeBytes(msg.iv)
    case None => Failure(InvalidCharacterError)
    case Some(ivBytes) => RatchetForward(p, key, ivBytes)
  }

  /** The room page's replay of one sender's messages, sorted by step, from the
      root key; the expected step follows the last message replayed. */
  function Replay(p: Primitives, key: seq<uint8>, expectedStep: int, msgs: seq<EncryptedPayload>)
    : Result<Replayed, CryptoError>
    requires Valid(p)
    decreases |msgs|
  {
    if msgs == [] then Success(Replayed([], key, expectedStep))
    else
      match Advance(p, key, msgs[0])
      case Failure(e) => Failure(e)
      case Success(next) =>
        match Replay(p, next, msgs[0].step + 1, msgs[1..])
        case Failure(e) => Failure(e)
        case Success(rest) =>
          Success(Replayed([Shown(p, key, msgs[0])] + rest.plaintexts, rest.key, rest.expectedStep))
  }

  /** Replaying a freshly encrypted payload under the sender's key shows its
      plaintext, less a leading byte order mark, and moves to the sender's next key. */
  lemma ShownEncrypted(p: Primitives, plaintext: string, key: seq<uint8>, step: int, iv: seq<uint8>)
    requires Valid(p)
    requires |iv| == 12
    requires AesKeyLength(key)
    ensures
      var e := EncryptWithRatchet(p, plaintext, key, step, iv).value;
      Shown(p, key, e.payload) == Utf8.StripBom(plaintext) && Advance(p, key, e.payload) == Success(e.nextKey)
  {
    DecryptEncrypt(p, plaintext, key, step, iv);
    EncryptedPayloadDecodes(p, plaintext, key, step, iv);
  }

  /** Replay takes one message at a time: the text it shows, then the rest
      replayed from the key it advanced to and the step after the message's. */
  lemma ReplayCons(
    p: Primitives, key: seq<uint8>, step: int, plaintexts: seq<string>, payloads: seq<EncryptedPayload>,
    nextKey: seq<uint8>, finalKey: seq<uint8>)
    requires Valid(p)
    requires plaintexts != [] && payloads != [] && payloads[0].step == step
    requires Shown(p, key, payloads[0]) == plaintexts[0]
    requires Advance(p, key, payloads[0]).Success? && Advance(p, key, payloads[0]).value == nextKey
    requires Replay(p, nextKey, step + 1, payloads[1..])
          == Success(Replayed(plaintexts[1..], finalKey, step + 1 + |plaintexts[1..]|))
    ensures Replay(p, key, step, payloads) == Success(Replayed(plaintexts, finalKey, step + |plaintexts|))
  {
    HeadTail(plaintexts);
  }

  /** The head of a successful chain: its payload shows the first plaintext
      as decoded and advances to the key the rest of the chain was sent under. */
  lemma SendAllCons(
    p: Primitives, key: seq<uint8>, step: int, plaintexts: seq<string>, ivs: seq<seq<uint8>>,
    payloads: seq<EncryptedPayload>, finalKey: seq<uint8>)
    returns (nextKey: seq<uint8>, rest: seq<EncryptedPayload>)
    requires Valid(p)
    requires |plaintexts| == |ivs| && plaintexts != []
    requires forall i | 0 <= i < |ivs| :: |ivs[i]| == 12
    requires SendAll(p, key, step, plaintexts, ivs) == Success((payloads, finalKey))
    ensures payloads != [] && payloads[1..] == rest && payloads[0].step == step
    ensures Shown(p, key, payloads[0]) == Utf8.StripBom(plaintexts[0]) && Advance(p, key, payloads[0]) == Success(nextKey)
    ensures SendAll(p, nextKey, step + 1, plaintexts[1..], ivs[1..]) == Success((rest, finalKey))
  {
    var e := EncryptWithRatchet(p, plaintexts[0], key, step, ivs[0]).value;
    nextKey := e.nextKey;
    ShownEncrypted(p, plaintexts[0], key, step, ivs[0]);
    rest := SendAll(p, nextKey, step + 1, plaintexts[1..], ivs[1..]).value.0;
    assert payloads == [e.payload] + rest;
  }

  lemma HeadTail<T>(s: seq<T>)
    requires s != []
    ensures s == [s[0]] + s[1..]
  {
  }

  /** `payloads`, replayed from `key` and `step`, show the texts `plaintexts` and end on
      `finalKey`: each message decrypts under the current key, carries the
      current step, and advances the key with its IV. */
  ghost predicate Chained(
    p: Primitives, key: seq<uint8>, step: int, plaintexts: seq<string>, payloads: seq<EncryptedPayload>,
    finalKey: seq<uint8>)
    requires Valid(p)
    decreases |payloads|
  {
    if payloads == [] then plaintexts == [] && finalKey == key
    else
      && plaintexts != []
      && payloads[0].step == step
      && Shown(p, key, payloads[0]) == plaintexts[0]
      && Advance(p, key, payloads[0]).Success?
      && Chained(p, Advance(p, key, payloads[0]).value, step + 1, plaintexts[1..], payloads[1..], finalKey)
  }

  /** The texts a replayer shows for the plaintexts sent, in order: each as
      `TextDecoder` gives it back, without a leading byte order mark. */
  function Displayed(plaintexts: seq<string>): (shown: seq<string>)
    ensures |shown| == |plaintexts|
    decreases |plaintexts|
  {
    if plaintexts == [] then [] else [Utf8.StripBom(plaintexts[0])] + Displayed(plaintexts[1..])
  }

  lemma DisplayedCons(plaintexts: seq<string>)
    requires plaintexts != []
    ensures Displayed(plaintexts)[0] == Utf8.StripBom(plaintexts[0])
    ensures Displayed(plaintexts)[1..] == Displayed(plaintexts[1..])
  {
  }

  /** Plaintexts that do not start with a byte order mark are shown unchanged. */
  lemma {:induction false} DisplayedNoBom(plaintexts: seq<string>)
    requires forall i | 0 <= i < |plaintexts| :: plaintexts[i] == [] || plaintexts[i][0] != Utf8.Bom
    ensures Displayed(plaintexts) == plaintexts
    decreases |plaintexts|
  {
    if plaintexts != [] {
      DisplayedNoBom(plaintexts[1..]);
      HeadTail(plaintexts);
    }
  }

  /** What a sender's chain sends is chained, showing the plaintexts as decoded. */
  lemma {:induction false} SendAllChained(
    p: Primitives, key: seq<uint8>, step: int, plaintexts: seq<string>, ivs: seq<seq<uint8>>,
    payloads: seq<EncryptedPayload>, finalKey: seq<uint8>)
    requires Valid(p)
    requires |plaintexts| == |ivs|
    requires forall i | 0 <= i < |ivs| :: |ivs[i]| == 12
    requires SendAll(p, key, step, plaintexts, ivs) == Success((payloads, finalKey))
    ensures Chained(p, key, step, Displayed(plaintexts), payloads, finalKey)
    decreases |plaintexts|
  {
    if plaintexts != [] {
      var nextKey, rest := SendAllCons(p, key, step, plaintexts, ivs, payloads, finalKey);
      SendAllChained(p, nextKey, step + 1, plaintexts[1..], ivs[1..], rest, finalKey);
      DisplayedCons(plaintexts);
    }
  }

  /** Replaying a chain recovers its plaintexts, its final key and the step after its last. */
  lemma {:induction false} ReplayChained(
    p: Primitives, key: seq<uint8>, step: int, plaintexts: seq<string>, payloads: seq<EncryptedPayload>,
    finalKey: seq<uint8>)
    requires Valid(p)
    requires Chained(p, key, step, plaintexts, payloads, finalKey)
    ensures Replay(p, key, step, payloads) == Success(Replayed(plaintexts, finalKey, step + |plaintexts|))
    decreases |payloads|
  {
    if payloads != [] {
      var nextKey := Advance(p, key, payloads[0]).value;
      ReplayChained(p, nextKey, step + 1, plaintexts[1..], payloads[1..], finalKey);
      ReplayCons(p, key, step, plaintexts, payloads, nextKey, finalKey);
    }
  }

  /** An observer replaying a sender's payloads from the same key recovers every
      plaintext in order, as decoded, ends on the sender's key and expects the
      next step. */
  lemma ReplaySendAll(
    p: Primitives, key: seq<uint8>, step: int, plaintexts: seq<string>, ivs: seq<seq<uint8>>,
    payloads: seq<EncryptedPayload>, finalKey: seq<uint8>)
    requires Valid(p)
    requires |plaintexts| == |ivs|
    requires forall i | 0 <= i < |ivs| :: |ivs[i]| == 12
    requires SendAll(p, key, step, plaintexts, ivs) == Success((payloads, finalKey))
    ensures Replay(p, key, step, payloads) == Success(Replayed(Displayed(plaintexts), finalKey, step + |plaintexts|))
  {
    assert Chained(p, key, step, Displayed(plaintexts), payloads, finalKey) by {
      SendAllChained(p, key, step, plaintexts, ivs, payloads, finalKey);
    }
    ReplayDisplayed(p, key, step, plaintexts, payloads, finalKey);
  }

  /** A chain showing the displayed texts of `plaintexts` replays to exactly
      those texts, one per plaintext. */
  lemma ReplayDisplayed(
    p: Primitives, key: seq<uint8>, step: int, plaintexts: seq<string>, payloads: seq<EncryptedPayload>,
    finalKey: seq<uint8>)
    requires Valid(p)
    requires Chained(p, key, step, Displayed(plaintexts), payloads, finalKey)
    ensures Replay(p, key, step, payloads) == Success(Replayed(Displayed(plaintexts), finalKey, step + |plaintexts|))
  {
    var shown := Displayed(plaintexts);
    assert step + |shown| == step + |plaintexts|;
    ReplayChained(p, key, step, shown, payloads, finalKey);
  }

  /** The room page sends JSON objects, which start with '{': replaying them
      recovers every plaintext exactly. */
  lemma ReplaySendAllJson(
    p: Primitives, key: seq<uint8>, step: int, plaintexts: seq<string>, ivs: seq<seq<uint8>>,
    payloads: seq<EncryptedPayload>, finalKey: seq<uint8>)
    requires Valid(p)
    requires |plaintexts| == |ivs|
    requires forall i | 0 <= i < |ivs| :: |ivs[i]| == 12
    requires forall i | 0 <= i < |plaintexts| :: plaintexts[i] != [] && plaintexts[i][0] == '{'
    requires SendAll(p, key, step, plaintexts, ivs) == Success((payloads, finalKey))
    ensures Replay(p, key, step, payloads) == Success(Replayed(plaintexts, finalKey, step + |plaintexts|))
  {
    ReplaySendAll(p, key, step, plaintexts, ivs, payloads, finalKey);
    DisplayedNoBom(plaintexts);
  }
}
