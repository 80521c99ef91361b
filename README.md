# raz — a verified model of the room gate, the hash-ratchet layer, the onboarding steps and the timer text

raz is an ephemeral, end-to-end encrypted chat. Rooms live at `/room/<id>`.
This project models four parts of it in Dafny and proves properties about them.

- **The room admission gate** (`src/proxy.ts`), in `proxy.dfy`. It runs before every room page. It:
  - matches the path;
  - looks up the room's `meta:<id>` hash;
  - lets a returning member through;
  - turns away a full room and a wrong group passcode;
  - otherwise mints a token for the newcomer, appends it to `connected`, makes the newcomer the owner of an ownerless room, and announces the new participant count.

  The hash store and the event log are the fields of a `RoomStore` class. The gate is its `Proxy` method, and the minted token is a parameter.
- **The hash-ratchet message layer** (`src/lib/encryption.ts`), in `base64.dfy`, `utf8.dfy` and `encryption.dfy`.
  - Base64 is as the browser provides it. `btoa` uses the alphabet and padding of section 4 of RFC 4648. `atob` is the WHATWG "forgiving-base64 decode" algorithm.
  - UTF-8 follows RFC 3629.
  - The two base64 helpers are methods with the source's loops over arrays.
  - The HKDF root key, the HMAC ratchet `key_{n+1} = HMAC-SHA256(key_n, iv_n)`, the sender token and the AES-GCM payload assembly are functions.
  - The WebCrypto primitives are the function-valued fields of a `Primitives` record. Every property holds for every record that meets `Valid`. `Valid` states only output lengths, that decryption undoes encryption, and that text decoding undoes UTF-8 encoding except for one leading byte order mark (U+FEFF), which a default `TextDecoder` drops.
- **One sender's chain as the room page drives it**, in `chain.dfy`. The page is `src/app/room/[roomId]/page.tsx`: its send mutation is at lines 255-289 and its replay loop at lines 199-229. The "## Model" rows of this module cite the `encryption.ts` functions the chain composes.
  - Sending encrypts each message under the current key and step, then ratchets.
  - Replaying walks the sorted messages from the root key.
  - The main theorem, `ReplaySendAll`: an observer who replays what a sender sent recovers every plaintext in order, as the decoder gives it back (without a leading U+FEFF). The observer also ends on the sender's key and expects the sender's next step. `ReplaySendAllJson` states that the JSON objects the page actually sends come back exactly.
- **The onboarding tutorial** (`src/components/onboarding/onboarding-flow.tsx`), in `onboarding.dfy`. This is a class holding the step 0..5 and a count of completion callbacks.
- **The countdown text** (`src/components/circular-timer.tsx`), in `timer.dfy`. It covers `formatTime` with JavaScript's truncating `%`, `padStart` and number-to-string, and the guard of `percentage`.

`wrappers.dfy` holds the `Option` and `Result` types used for every error path. The thrown DOMExceptions are `DataError`, `OperationError` and `InvalidCharacterError`.

## Model

| member | source | states |
|---|---|---|
| Base64.CharOf | src/lib/encryption.ts:16 | the RFC 4648 alphabet character of a 6-bit value; never '=' |
| Base64.IndexOf | src/lib/encryption.ts:23 | the 6-bit value of an alphabet character, none for any other character |
| Base64.BinaryString | src/lib/encryption.ts:13-15 | `String.fromCharCode` of each byte, one char per byte |
| Base64.IndexOfCharOf | src/lib/encryption.ts:11-29 | decoding a character of the alphabet gives back the 6-bit value it encodes |
| Base64.Codes | src/lib/encryption.ts:16 | the char codes `btoa` reads from a string, one per char, in order |
| Base64.BinaryStringRoundTrip | src/lib/encryption.ts:13-15 | bytes become one char each, with code below 256; the codes give the bytes back; a binary string is rebuilt from its codes |
| Base64.GroupRoundTrip | src/lib/encryption.ts:11-29 | splitting three bytes into four sextets and joining them gives the bytes back |
| Base64.Quad | src/lib/encryption.ts:16 | three bytes encode to four alphabet characters |
| Base64.Encode | src/lib/encryption.ts:16 | the encoding of n bytes has 4*ceil(n/3) characters, each from the alphabet or '=' |
| Base64.EncodePadding | src/lib/encryption.ts:16 | the encoding of a non-empty byte string ends in "==", "=" or no padding when n mod 3 is 1, 2 or 0 |
| Base64.Btoa | src/lib/encryption.ts:16 | `btoa` succeeds exactly on binary strings (all codes below 256) |
| Base64.StripPadding | src/lib/encryption.ts:23 | dropping trailing '=' leaves a prefix of 2 to 4 characters |
| Base64.FirstQuantum | src/lib/encryption.ts:23 | each decoded quantum has 2 to 4 characters |
| Base64.DecodeQuantaLength | src/lib/encryption.ts:23 | a whitespace-free input of length 1 mod 4 never decodes |
| Base64.SextetsLookup | src/lib/encryption.ts:23 | the alphabet lookup succeeds exactly when every character is in the alphabet, and gives one value per character |
| Base64.DecodeQuantumFails | src/lib/encryption.ts:23 | a quantum decodes exactly when all its characters are in the alphabet |
| Base64.DecodeQuantumValues | src/lib/encryption.ts:23 | a quantum of k characters decodes to k-1 bytes, joined from their values |
| Base64.DecodeQuantaFinal | src/lib/encryption.ts:16-23 | the padded encoding of 1, 2 or 3 bytes decodes to them |
| Base64.DecodeQuantaEncode | src/lib/encryption.ts:16-23 | the forgiving decoder inverts the RFC 4648 encoder on every byte string |
| Base64.RemoveWhitespace | src/lib/encryption.ts:23 | the input with its ASCII whitespace removed, never longer than the input |
| Base64.Sextets | src/lib/encryption.ts:23 | the 6-bit values of the characters in order, none if any is outside the alphabet |
| Base64.Join | src/lib/encryption.ts:23 | concatenate 6-bit values, most significant first, into whole bytes, dropping the leftover bits |
| Base64.DecodeQuanta | src/lib/encryption.ts:23 | decode four characters at a time into three bytes; the last group of 2 to 4 characters, its padding stripped when exactly four remain, gives 1 to 3 bytes; none when one character is left over or a group holds a character outside the alphabet |
| Base64.RemoveWhitespaceId | src/lib/encryption.ts:23 | removing whitespace from an encoding changes nothing |
| Base64.Atob | src/lib/encryption.ts:23 | what `atob` returns is a binary string |
| Base64.AtobEncode | src/lib/encryption.ts:16-23 | `atob(btoa(binary(b)))` is `binary(b)` |
| Base64.Uint8ArrayFrom | src/lib/encryption.ts:24-25 | the array has one byte per char of the binary string |
| Base64.Uint8ArrayFromBinary | src/lib/encryption.ts:24-25 | reading the bytes of a binary string gives back the bytes it was made of |
| Base64.DecodeBytes | src/lib/encryption.ts:21-29 | `atob` followed by the char codes as bytes; none where `atob` throws |
| Base64.DecodeEncode | src/lib/encryption.ts:11-29 | `decodeBase64(encodeBase64(b)) == b` for every byte string |
| Base64.EncodeInjective | src/lib/encryption.ts:11-19 | two byte strings have the same encoding exactly when they are equal |
| Utf8.Encode | src/lib/encryption.ts:62 | `TextEncoder.encode`: the UTF-8 bytes of each character in turn |
| Utf8.StripBom | src/lib/encryption.ts:9 | what the default `TextDecoder` does to the decoded text: one leading U+FEFF is dropped |
| Utf8.StripBomSuffix | src/lib/encryption.ts:151 | the decoded text is a suffix of the encoded one, one char shorter exactly when it started with U+FEFF |
| Utf8.EncodeChar | src/lib/encryption.ts:62 | one character encodes to 1 to 4 bytes, and to 1 exactly when it is ASCII |
| Utf8.EncodeLength | src/lib/encryption.ts:62 | a string of n characters encodes to n..4n bytes, exactly n when it is all ASCII |
| Utf8.EncodeAscii | src/lib/encryption.ts:52 | an ASCII string encodes to its own character codes |
| Utf8.AsciiBytes | src/lib/encryption.ts:52 | an ASCII string encodes to exactly the bytes of its codes |
| Encryption.Valid | src/lib/encryption.ts:8-9 | the primitives give HKDF outputs of the requested bits, 32-byte HMACs, ciphertexts 16 bytes longer than the plaintext, decryption that undoes encryption, and text decoding that undoes UTF-8 encoding less one leading U+FEFF |
| Encryption.EncodeBase64 | src/lib/encryption.ts:11-19 | the loop builds the binary string, and the result is the RFC 4648 encoding of the array's bytes |
| Encryption.DecodeBase64 | src/lib/encryption.ts:21-29 | it throws InvalidCharacterError exactly when `atob` rejects; otherwise it returns a fresh array holding the decoded bytes |
| Encryption.GenerateSecret | src/lib/encryption.ts:31-34 | the secret is 44 characters ending in exactly one '=', and it decodes to the 32 random bytes |
| Encryption.SecretShape | src/lib/encryption.ts:31-34 | 32 bytes encode to 44 characters with one padding '=' |
| Encryption.Hkdf | src/lib/encryption.ts:36-57 | 256 bits of HKDF under the all-zero 32-byte salt and the UTF-8 label are 32 bytes |
| Encryption.DeriveInitialKey | src/lib/encryption.ts:59-65 | the root key is 32 bytes, a function of the secret string alone |
| Encryption.RootInfoBytes | src/lib/encryption.ts:63 | the HKDF info is the 12 ASCII bytes of "raz-e2e-root" |
| Encryption.HmacSha256 | src/lib/encryption.ts:77-90 | it throws DataError exactly for an empty key; otherwise it returns the 32-byte HMAC of the data |
| Encryption.RatchetForward | src/lib/encryption.ts:92-97 | one ratchet step succeeds exactly for a non-empty key and yields a 32-byte key |
| Encryption.DeriveSenderToken | src/lib/encryption.ts:99-106 | the token is 44 characters and decodes to the HMAC of the UTF-8 sender name under the secret's root key |
| Encryption.EncodeTag | src/lib/encryption.ts:105 | a 32-byte tag encodes to 44 characters and decodes back |
| Encryption.SenderTokenEquality | src/lib/encryption.ts:99-106 | two tokens are equal exactly when their HMAC tags are equal |
| Encryption.EncryptWithRatchet | src/lib/encryption.ts:114-137 | it succeeds exactly for a 16-, 24- or 32-byte key, and throws DataError otherwise; the payload keeps the input step; the next key is `ratchetForward(currentKey, iv)` and has 32 bytes |
| Encryption.EncryptedPayloadDecodes | src/lib/encryption.ts:129-134 | the payload's `iv` is 16 characters and decodes to the same 12-byte nonce; its ciphertext decodes to the AES-GCM output under that nonce |
| Encryption.DecryptWithRatchet | src/lib/encryption.ts:139-152 | it succeeds exactly when the IV decodes, the key length is valid, the ciphertext decodes and AES-GCM accepts; the result is the decoded plaintext |
| Encryption.AesKeyLength | src/lib/encryption.ts:67-75 | the raw key lengths the AES-GCM import accepts: 16, 24 or 32 bytes |
| Encryption.DecryptEncrypt | src/lib/encryption.ts:114-152 | a payload decrypts, under the key it was made with, to its plaintext less a leading U+FEFF |
| Encryption.KeyAfter | src/lib/encryption.ts:92-97 | the key after ratcheting over a sequence of IVs in send order, the first failure if any |
| Encryption.KeyAfterSnoc | src/lib/encryption.ts:92-97 | the key after n+1 messages is `ratchetForward` of the key after n, with the last IV |
| Encryption.KeyAfterSucceeds | src/lib/encryption.ts:92-97 | from a non-empty root the ratchet never fails, and every ratcheted key is 32 bytes |
| SenderChain.SendAll | src/lib/encryption.ts:114-137 | sending succeeds exactly when there is nothing to send or the key is a valid AES key; it gives one payload per message with steps step, step+1, …; the final key is the left fold of the ratchet over the IVs |
| SenderChain.Shown | src/lib/encryption.ts:139-152 | the text shown for one message: its decryption under the current key, or `[Decryption failed]` |
| SenderChain.Advance | src/lib/encryption.ts:92-97 | the next key: the current key ratcheted with the message's decoded IV, whether or not it decrypted; InvalidCharacterError for an IV that is not base64 |
| SenderChain.Replay | src/lib/encryption.ts:92-152 | replay each message in turn: show it, ratchet, and expect the step after its own; the first error stops the replay |
| SenderChain.ShownEncrypted | src/lib/encryption.ts:114-152 | the replayer shows a fresh payload's plaintext, less a leading U+FEFF, and advances to the sender's next key |
| SenderChain.ReplayCons | src/lib/encryption.ts:139-152 | replay handles one message and then replays the rest from the advanced key and the next step |
| SenderChain.SendAllCons | src/lib/encryption.ts:114-137 | the first payload sent carries the current step, shows the first plaintext less a leading U+FEFF and advances to the key the rest was sent under |
| SenderChain.Displayed | src/lib/encryption.ts:151 | the texts the decoder gives back for the plaintexts sent, one each, in order |
| SenderChain.DisplayedNoBom | src/lib/encryption.ts:151 | plaintexts that do not start with U+FEFF are displayed unchanged |
| SenderChain.SendAllChained | src/lib/encryption.ts:114-137 | every payload a sender sends decrypts, under the key the replayer holds at that point, to the displayed text of its plaintext |
| SenderChain.ReplayChained | src/lib/encryption.ts:139-152 | replaying a chained history recovers its plaintexts and its final key, and expects the step after the last |
| SenderChain.ReplayDisplayed | src/lib/encryption.ts:139-152 | a chain of displayed texts replays to exactly those texts, one per plaintext |
| SenderChain.ReplaySendAll | src/lib/encryption.ts:92-152 | replaying what a sender sent from the same key shows every plaintext in order, less a leading U+FEFF, ends on the sender's key and expects the sender's next step |
| SenderChain.ReplaySendAllJson | src/lib/encryption.ts:92-152 | for plaintexts that start with '{', as the JSON messages do, replay shows every plaintext exactly |
| Proxy.MatchRoom | src/proxy.ts:9-12 | the room id captured by `^/room/([^/]+)$`, none for any other path |
| Proxy.MatchRoomIff | src/proxy.ts:9-12 | the path pattern matches exactly `/room/` followed by a non-empty id with no '/' |
| Proxy.Capacity | src/proxy.ts:37 | the capacity is 12 for a group room and 2 otherwise, including when the mode is absent |
| Proxy.Admission | src/proxy.ts:27-50 | the gate's decision, checked in order: member, room full, passcode required, admit |
| Proxy.AdmitIff | src/proxy.ts:27-50 | a newcomer is admitted exactly when: they are not a member; the room is a master room or has space; and any non-empty passcode of a group room was supplied |
| Proxy.MemberAlwaysPasses | src/proxy.ts:27-33 | a cookie token already in `connected` passes, whatever the fill or the passcode |
| Proxy.MasterNeverFull | src/proxy.ts:36-40 | a master room never answers `room-full` |
| Proxy.PasscodeOnlyForGroups | src/proxy.ts:42-50 | a pair room, or a group room with an empty passcode, never asks for one |
| Proxy.Joined | src/proxy.ts:63-66 | the token is appended to `connected`; an existing owner is kept, and otherwise the token becomes owner; no other field changes |
| Proxy.JoinedWithinCapacity | src/proxy.ts:36-66 | admitting a newcomer to a non-master room within capacity keeps it within capacity |
| Proxy.JoinAll | src/proxy.ts:63-66 | the hash after newcomers join one after another |
| Proxy.OwnerIsFirstJoiner | src/proxy.ts:63-66 | over a run of joins, the owner is the old owner or else the first joiner; `connected` grows by the joiners in order |
| Proxy.PairRoomHoldsTwo | src/proxy.ts:36-40 | an empty pair room admits two newcomers and turns a third away as full |
| Proxy.EmittedCount | src/proxy.ts:68-70 | the announced count is the length of the new `connected` list |
| Proxy.RoomStore.Proxy | src/proxy.ts:6-73 | covers every outcome and its exact new state. A non-room path redirects to `/`, and an unknown room gives `room-not-found`. A member passes, a full room gives `room-full`, and a wrong passcode gives `passcode-required` carrying the room. In those cases no hash or event changes. On admission: the cookie is set to the new token, only that room's hash becomes `Joined`, and one participant event is appended. The capacity invariant is preserved |
| Onboarding.OnboardingFlow.constructor | src/components/onboarding/onboarding-flow.tsx:21 | the tutorial starts at step 0 |
| Onboarding.OnboardingFlow.NextStep | src/components/onboarding/onboarding-flow.tsx:23-29 | below the last step it moves forward one; on the last step it completes without moving; the step stays in 0..5 |
| Onboarding.OnboardingFlow.PrevStep | src/components/onboarding/onboarding-flow.tsx:31-35 | it moves back one, except at step 0 where it does nothing; it never completes |
| Onboarding.OnboardingFlow.Complete | src/components/onboarding/onboarding-flow.tsx:91-96 | Skip, and the final "Create Your First Room" button, complete the tutorial without moving |
| Onboarding.OnboardingFlow.RenderStep | src/components/onboarding/onboarding-flow.tsx:37-47 | a screen is rendered exactly for steps 0..5, Welcome first and Anonymous last |
| Onboarding.OnboardingFlow.RenderStepInjective | src/components/onboarding/onboarding-flow.tsx:37-47 | two valid steps render the same screen exactly when they are equal |
| Onboarding.OnboardingFlow.ShowBack | src/components/onboarding/onboarding-flow.tsx:61 | the Back button is shown on every step after the first |
| Onboarding.OnboardingFlow.ShowCreateButton | src/components/onboarding/onboarding-flow.tsx:66 | the "Create Your First Room" button is shown on the last step only |
| Onboarding.OnboardingFlow.Dots | src/components/onboarding/onboarding-flow.tsx:81-86 | there are six progress dots |
| Onboarding.OnboardingFlow.OneDotHighlighted | src/components/onboarding/onboarding-flow.tsx:81-86 | exactly one dot is highlighted, the current step's |
| Timer.JsRem | src/components/circular-timer.tsx:22 | `%` keeps the dividend's sign and stays below the divisor in magnitude |
| Timer.FloorDiv | src/components/circular-timer.tsx:21 | `Math.floor(s / 60)` is the largest m with m*60 <= s |
| Timer.IntString | src/components/circular-timer.tsx:23 | `toString()` of an integer: '-' before the digits of a negative one |
| Timer.NatString | src/components/circular-timer.tsx:23 | a number prints as one or more decimal digits |
| Timer.PadStart | src/components/circular-timer.tsx:23 | padding gives at least the width, keeps the string as a suffix and fills the front with '0' |
| Timer.FormatTime | src/components/circular-timer.tsx:19-24 | `--:--` for null; otherwise the floored minutes, ':', and the truncated remainder padded to two with '0' |
| Timer.FormatTimeNull | src/components/circular-timer.tsx:19-24 | `--:--` is shown exactly when the remaining time is null |
| Timer.MinutesSeconds | src/components/circular-timer.tsx:21-22 | for s >= 0 the minutes and seconds satisfy m*60 + r == s with 0 <= r < 60 |
| Timer.TwoDigitSeconds | src/components/circular-timer.tsx:22-23 | the seconds after the colon are exactly two digits, zero-padded |
| Timer.FormatTimeParts | src/components/circular-timer.tsx:21-23 | for s >= 0 the text is the minutes' digits, ':' and two digits of the seconds |
| Timer.ParseNatString | src/components/circular-timer.tsx:23 | reading back a number's digits gives the number |
| Timer.ParseFormatTime | src/components/circular-timer.tsx:19-24 | for s >= 0, reading the `m:ss` text back gives s |
| Timer.Percentage | src/components/circular-timer.tsx:14-17 | the percentage is 0 while the remaining time is null or the total is 0 |
| Timer.PercentageBounds | src/components/circular-timer.tsx:14-17 | with 0 <= remaining <= total and total > 0, the percentage lies in 0..100 |

## Left out

- WebCrypto internals: HKDF, HMAC-SHA256 and AES-GCM are not modelled. They are the fields of `Primitives`, constrained only by output lengths and decrypt-undoes-encrypt. Security properties (forward secrecy, authenticity) are not stated.
- `importAesKey`: it is modelled as its only observable effect, the DataError for a raw key that is not 16, 24 or 32 bytes. This is the `AesKeyLength` guard inside `EncryptWithRatchet` and `DecryptWithRatchet`.
- `hmacSha256`'s key import: it is modelled as its DataError for an empty raw key. No longer keys are refused.
- Randomness (`crypto.getRandomValues` for the secret and the IVs, `nanoid` for the auth token) comes in as parameters.
- The `Buffer` fallbacks of `encodeBase64`, `decodeBase64` and the page's `base64ToBytes`: only the `btoa`/`atob` branch is modelled, which is the one the browser takes.
- Promises and `await`: every asynchronous helper is a plain function. A rejected promise is a `Failure`.
- Text decoding: a default `TextDecoder` drops one leading U+FEFF, so `DecryptEncrypt`, `ShownEncrypted`, `SendAllCons`, `SendAllChained` and `ReplaySendAll` give back the plaintext less that mark, not the plaintext itself. `ReplaySendAllJson` gives the exact round trip for the JSON the page sends. The decoder's replacement of invalid byte sequences by U+FFFD is not modelled: `Valid` says nothing of bytes that are not the encoding of some text.
- Utf8.Encode: characters are Unicode scalar values. A JavaScript string's lone surrogate, which `TextEncoder` replaces by U+FFFD, cannot be written.
- Redis I/O and the Upstash client's deserialisation of hash fields: the hash is a `Meta` record in the `rooms` map of `RoomStore`, with fields as stored.
- The cookie options (path, httpOnly, secure, sameSite) and the URL serialisation of redirects: a redirect is a datatype carrying its `error` and `room` parameters.
- The realtime transport: an emitted event is appended to `events`.
- The read-then-write race between the meta read and the write in the gate: one request is modelled at a time.
- Timer.JsRem: states the sign and range of JavaScript's `%`, but not that the dividend minus the remainder is a multiple of the divisor. `MinutesSeconds` states the split for non-negative counts, which is all `formatTime` is given.
- Timer.FormatTime: it takes whole seconds. The fractional seconds a JavaScript number may carry are not modelled.
- Timer.Percentage: it computes in exact reals, not IEEE-754 doubles. Its ensures covers only the null/zero guard; `PercentageBounds` gives the range.
- Onboarding.OnboardingFlow.NextStep: each click sees the step of the latest render. React's batching of two clicks before a re-render is not modelled.
- The SVG arc of the countdown ring and the rendering of the onboarding screens and room page.
- Of the room page, only one sender's send and replay are modelled. Grouping messages by sender, sorting by step, sender names parsed from JSON, and the TTL timer are not modelled.
