# BitSeal: record layer and request signing, modelled in Dafny

BitSeal authenticates two kinds of traffic between peers that hold secp256k1 key pairs:

- **RTC sessions** (`gocode/rtc/rtc.go`). After a handshake, each side derives an AES-256-GCM session key as SHA-256 of the ECDH shared secret followed by two 4-byte salts. Messages travel as records: `uint32 length ‖ flags ‖ uint64 seq ‖ ciphertext ‖ 16-byte tag`. The nonce is `salt ‖ seq` and the additional data is `flags ‖ seq`. A 64-slot sliding window refuses replayed and too-old sequence numbers.
- **HTTP request signing** (`tscode/bitseal/BitSeal.ts`). The client builds a canonical string from six lines: upper-cased method, path, sorted and URI-encoded query, SHA-256 hex of the body, timestamp and nonce. It signs the string with BRC-77 and sends the signature in `X-BKSA-*` headers. The server rebuilds the string and verifies.

The project has six modules. `Wrappers` (`wrappers.dfy`) holds the shared `Option` type; the other five are these.

- **`Bytes`** (`bytes.dfy`): Go's `byte`, `uint32` and `uint64` as integer subset types, and the big-endian codec of `encoding/binary`, with round-trip lemmas.
- **`ReplayWindow`** (`replay_window.dfy`): `window.accept`.
  - `AcceptStep` is the specification function. It takes a window value (`maxSeq`, and the 64 bits of `bitmap`) and gives the next window and the verdict.
  - Class `Window` holds the Go fields. Its `Accept` method updates them in place and is proved against `AcceptStep`.
  - The ghost set `accepted` and the invariant `Tracks` make the verdict exact. A sequence number is refused iff it is not above `maxSeq` and either lies 64 or more behind it or was accepted before.
  - Replay safety is also proved over whole runs of calls.
- **`Rtc`** (`rtc.dfy`): `deriveKey`, the frame layout, and class `Session`.
  - `Session` has the constructor `NewSession`, plus `EncodeRecord`, which writes the frame into an array, and `DecodeRecord`.
  - The AEAD is a value obeying the two AES-GCM laws the layer relies on: Seal appends a 16-byte tag, and Open inverts Seal.
  - Proved: frames parse back exactly, the header checks come before the replay check, and the replay check comes before authentication.
  - Proved: two peers that build their sessions the way the cross-implementation tests do exchange records successfully.
- **`JsText`** (`js_text.dfy`): JavaScript strings as UTF-16 code units, with the string `<` order, `join`, `split` and the SDK's `toHex`.
- **`BitSeal`** (`bitseal.dfy`): `canonicalQueryString`, `bodyHashHex`, `buildCanonicalString`, `signRequest` and `verifyRequest`.
  - The sort is modelled as the stable sort `Array.prototype.sort` performs, and its result is proved sorted, a permutation, and stable.
  - The canonical query and the canonical string are proved to split back into their parts.
  - Proved: the verifier is reached exactly when the headers are well-formed, a throwing verifier yields false, and signing then verifying the same request hands the verifier the signed message.

The code uses one key for both directions: `key = SHA-256(shared ‖ selfSalt ‖ peerSalt)`. The nonce prefix is the session's `selfSalt`. The peers interoperate only when both call `NewSession` with the salts in the same order, as every caller in the repository does. Then both peers hold the same key and the same nonce prefix. `SaltOrderMatters` shows that swapping the salts changes the string fed to SHA-256 unless the salts are equal. The key then differs as far as SHA-256 is collision-free, which the model, taking SHA-256 as a parameter, does not assume. The protocol's specification describes two directional keys, with a role flag deciding which key sends. Where the two disagree, this model follows the code.

## Model

| member | source | states |
|---|---|---|
| Bytes.ToBE | gocode/rtc/rtc.go:146 | the big-endian encoding has exactly the requested width |
| Bytes.FromBE | gocode/rtc/rtc.go:169 | the value read from n big-endian bytes is below 256^n |
| Bytes.PutUint32 | gocode/rtc/rtc.go:156 | `PutUint32` writes four bytes |
| Bytes.PutUint64 | gocode/rtc/rtc.go:146 | `PutUint64` writes eight bytes |
| Bytes.FromToBE | gocode/rtc/rtc.go:146 | reading back an n-byte encoding of a value below 256^n gives the value |
| Bytes.ToFromBE | gocode/rtc/rtc.go:174 | re-encoding the value of a byte string at its width gives the string |
| Bytes.Uint32 | gocode/rtc/rtc.go:169 | `binary.BigEndian.Uint32`: the value of four big-endian bytes; `Uint32RoundTrip` pins it as the inverse of `PutUint32` |
| Bytes.Uint64 | gocode/rtc/rtc.go:174 | `binary.BigEndian.Uint64`: the value of eight big-endian bytes; `Uint64RoundTrip` and `PutUint64RoundTrip` pin it as the inverse of `PutUint64` |
| Bytes.Uint32RoundTrip | gocode/rtc/rtc.go:169 | `Uint32` inverts `PutUint32`, so the length field reads back as written |
| Bytes.Uint64RoundTrip | gocode/rtc/rtc.go:174 | `Uint64` inverts `PutUint64`, so the sequence number reads back as written |
| Bytes.PutUint64RoundTrip | gocode/rtc/rtc.go:181-182 | re-encoding the parsed sequence number gives the frame's eight bytes, so the decoder's nonce and additional data match the encoder's |
| ReplayWindow.Initial | gocode/rtc/rtc.go:137 | the window `NewSession` installs, maxSeq 0 and bitmap 0; `InitialTracks` and `InitialAcceptsAll` state what it admits |
| ReplayWindow.AcceptStep | gocode/rtc/rtc.go:193-214 | one call of `accept`: the next window and the verdict, branch by branch; `AcceptNewer`, `AcceptTooOld`, `AcceptInWindow` and `AcceptTracks` state its meaning |
| ReplayWindow.ShiftLeft | gocode/rtc/rtc.go:199 | `bitmap <<= shift`: bit k takes old bit k-shift, and bits shifted past 63 are lost |
| ReplayWindow.SetBit | gocode/rtc/rtc.go:212 | or-ing `1 << k` into the bitmap sets bit k and keeps the others |
| ReplayWindow.AcceptNewer | gocode/rtc/rtc.go:194-203 | a newer number is accepted and becomes maxSeq; bit 0 is set and the rest are shifted by the gap, none surviving a gap of 64 or more |
| ReplayWindow.AcceptTooOld | gocode/rtc/rtc.go:205-208 | a number 64 or more behind maxSeq is refused and the window is unchanged |
| ReplayWindow.AcceptInWindow | gocode/rtc/rtc.go:209-213 | inside the window a marked number is refused with nothing changed; an unmarked one is accepted and only its bit is set |
| ReplayWindow.AcceptVerdict | gocode/rtc/rtc.go:193-214 | `accept` returns false iff the window rejects the number, and never lowers maxSeq |
| ReplayWindow.AcceptedNowRejected | gocode/rtc/rtc.go:193-214 | a number just accepted is rejected by the resulting window |
| ReplayWindow.RejectsStable | gocode/rtc/rtc.go:193-214 | a rejected number stays rejected whatever is offered next |
| ReplayWindow.InitialTracks | gocode/rtc/rtc.go:137 | the initial window (maxSeq 0, bitmap 0) tracks the empty set of accepted numbers |
| ReplayWindow.AcceptTracks | gocode/rtc/rtc.go:193-214 | from a tracking window, `accept(s)` is true iff s is above maxSeq, or is less than 64 behind and not accepted before; tracking is kept with s added |
| ReplayWindow.RunKeepsRejecting | gocode/rtc/rtc.go:176-178 | over any later run of offers a rejected number is refused at every offer and is still rejected at the end |
| ReplayWindow.ReplaySafe | gocode/rtc/rtc.go:193-214 | once a number has been accepted, every later offer of it is refused |
| ReplayWindow.RunMaxSeq | gocode/rtc/rtc.go:194-202 | after a run, maxSeq is the largest of its old value and every number offered |
| ReplayWindow.SaturatedRunRefuses | gocode/rtc/rtc.go:205-207 | once maxSeq is 2^64-1, every number 64 or more below it is refused wherever it occurs in a run, whatever other numbers, in-window ones included, arrive in between |
| ReplayWindow.InOrderAccepted | gocode/rtc/rtc.go:194-203 | strictly increasing numbers above maxSeq are all accepted |
| ReplayWindow.Window.constructor | gocode/rtc/rtc.go:137 | a new window is size 64, maxSeq 0, bitmap 0, with nothing accepted |
| ReplayWindow.Window.Accept | gocode/rtc/rtc.go:193-214 | the in-place update and verdict equal `AcceptStep`; the verdict is true iff the number is not refused as too old or as a replay of an accepted one |
| Rtc.KeyMaterial | gocode/rtc/rtc.go:103-104 | the string `deriveKey` hashes: shared secret, then saltA, then saltB; `KeyMaterialSplits` and `SaltOrderMatters` state what it binds |
| Rtc.DeriveKey | gocode/rtc/rtc.go:102-106 | `deriveKey`: SHA-256 (a parameter) of `KeyMaterial` |
| Rtc.KeyMaterialSplits | gocode/rtc/rtc.go:102-106 | with the part lengths fixed, the hashed string determines the shared secret and both salts |
| Rtc.SaltOrderMatters | gocode/rtc/rtc.go:115 | for equal-length salts, swapping them leaves the hashed string unchanged iff the salts are equal |
| Rtc.Nonce | gocode/rtc/rtc.go:145-147 | the GCM nonce, salt followed by the big-endian sequence number, built alike on both sides (lines 181-183) |
| Rtc.AdditionalData | gocode/rtc/rtc.go:148 | the additional data, flags followed by the big-endian sequence number, built alike on both sides (line 184) |
| Rtc.LengthField | gocode/rtc/rtc.go:153 | `uint32(1 + 8 + len(ciphertext) + 16)`, wrapping at 2^32; `LengthFits` names the body lengths for which it does not wrap, and `OversizedNeverParses` states what happens to the others |
| Rtc.Layout | gocode/rtc/rtc.go:155-160 | the bytes `EncodeRecord` writes, field by field; `LayoutParses`, `ParseIsExact` and `FrameLayout` state its meaning |
| Rtc.ParseFrame | gocode/rtc/rtc.go:166-180 | the header checks of `DecodeRecord` and the fields it reads; `LayoutParses` and `ParseIsExact` make it the inverse of `Layout` |
| Rtc.Decode | gocode/rtc/rtc.go:165-191 | `DecodeRecord` on a window value: parse, replay check, then Open; `HeaderChecksFirst`, `ReplayCheckBeforeOpen`, `RecordRoundTrip` and `ForgeryBurnsSequenceNumber` state its meaning |
| Rtc.SealRecord | gocode/rtc/rtc.go:149-152 | the sealed record keeps flags and sequence number, has a body as long as the plaintext and a 16-byte tag, and body ‖ tag is the Seal output under nonce salt ‖ seq and additional data flags ‖ seq |
| Rtc.LayoutParses | gocode/rtc/rtc.go:166-174 | a record with a 16-byte tag whose length fits 32 bits parses back to itself from its layout |
| Rtc.ParseIsExact | gocode/rtc/rtc.go:166-180 | every frame that passes the header checks is the layout of the record parsed from it |
| Rtc.OversizedNeverParses | gocode/rtc/rtc.go:153 | when the length overflows 32 bits the length field wraps and the decoder reports a length mismatch |
| Rtc.FrameLayout | gocode/rtc/rtc.go:153-160 | the frame is 29 + len(plaintext) bytes: length field, flags, sequence number, then the Seal output |
| Rtc.HeaderChecksFirst | gocode/rtc/rtc.go:166-172 | short frames and length mismatches are refused with the window untouched |
| Rtc.ReplayCheckBeforeOpen | gocode/rtc/rtc.go:176-178 | a well-formed frame with a rejected sequence number is refused as a replay, whatever the AEAD says, with the window unchanged |
| Rtc.RecordRoundTrip | gocode/rtc/rtc.go:142-191 | decoding an encoded record under the same key and salt returns the plaintext whenever the window admits its sequence number |
| Rtc.ForgeryBurnsSequenceNumber | gocode/rtc/rtc.go:176-189 | a forged frame that fails authentication still advances the window, so the genuine record with that number is then refused |
| Rtc.CounterWrapRefused | gocode/rtc/rtc.go:144 | after record 2^64-1 has been decoded, maxSeq is 2^64-1 and the records numbered after the wrap-around (0 onwards, up to 2^64-65) are refused as replays |
| Rtc.InitialAcceptsAll | gocode/rtc/rtc.go:137 | a fresh window accepts any first sequence number, 0 included |
| Rtc.Copy | gocode/rtc/rtc.go:158-160 | `copy(dst[at:], src)` writes src at offset `at` and leaves the other cells unchanged |
| Rtc.Session.constructor | gocode/rtc/rtc.go:109-140 | the key is SHA-256(shared ‖ selfSalt ‖ peerSalt), the AEAD is built on that key, the salt is selfSalt, the counter is the initial value, and the window is fresh |
| Rtc.Session.EncodeRecord | gocode/rtc/rtc.go:143-162 | the counter is incremented first, wrapping at 2^64; the new frame is the layout of the record sealed under the new counter; nothing else changes |
| Rtc.Session.DecodeRecord | gocode/rtc/rtc.go:165-191 | the result and the new window equal `Decode` on the old window: too short, length mismatch, replay (window unchanged), then Open failure (window advanced) or the plaintext; the sequence number joins the accepted history exactly when the window admitted it |
| Rtc.ExchangeOneRecord | gocode/rtc/rtc.go:109-191 | two sessions created with the same shared secret and salt order: what one encodes, the other decodes to the same plaintext |
| JsText.Less | tscode/bitseal/BitSeal.ts:27 | JavaScript string `<` by UTF-16 code units; the lemmas below make it a strict total order |
| JsText.Join | tscode/bitseal/BitSeal.ts:44-51 | `Array.prototype.join` with a one-unit separator; `SplitJoin` and `JoinUnits` state its meaning |
| JsText.ToHex | tscode/bitseal/BitSeal.ts:33 | the SDK's `toHex`, two lower-case digits per byte; `HexRoundTrip` states its meaning |
| JsText.LessIrreflexive | tscode/bitseal/BitSeal.ts:27 | string `<` is irreflexive |
| JsText.LessTransitive | tscode/bitseal/BitSeal.ts:27 | string `<` is transitive |
| JsText.LessAsymmetric | tscode/bitseal/BitSeal.ts:27 | string `<` is asymmetric |
| JsText.LessTotal | tscode/bitseal/BitSeal.ts:27 | two different strings are ordered one way or the other, so the comparator is consistent |
| JsText.NotLessTransitive | tscode/bitseal/BitSeal.ts:27 | "not greater" is transitive |
| JsText.SplitNoSeparator | tscode/bitseal/BitSeal.ts:51 | a string without the separator splits into itself |
| JsText.SplitAfter | tscode/bitseal/BitSeal.ts:51 | a separator-free prefix followed by the separator is the first piece |
| JsText.SplitJoin | tscode/bitseal/BitSeal.ts:51 | splitting a join gives back the parts when no part holds the separator |
| JsText.JoinUnits | tscode/bitseal/BitSeal.ts:28 | a joined string holds a non-separator code unit only if some part does |
| JsText.HexRoundTrip | tscode/bitseal/BitSeal.ts:33 | `toHex` output is twice the byte count, all lower-case hex digits, and decodes back to the bytes |
| BitSeal.InsertByName | tscode/bitseal/BitSeal.ts:27 | one insertion step of the stable sort; `InsertMultiset`, `InsertNamed` and `InsertSorted` state its meaning |
| BitSeal.InsertMultiset | tscode/bitseal/BitSeal.ts:27 | insertion adds exactly the inserted parameter |
| BitSeal.InsertNamed | tscode/bitseal/BitSeal.ts:27 | insertion puts a parameter ahead of all parameters of the same name, so the earlier input element stays first |
| BitSeal.InsertAbove | tscode/bitseal/BitSeal.ts:27 | insertion keeps a lower bound on names |
| BitSeal.InsertSorted | tscode/bitseal/BitSeal.ts:27 | insertion into a sorted list keeps it sorted |
| BitSeal.SortByName | tscode/bitseal/BitSeal.ts:27 | the sort result is sorted by name, is a permutation of the input, and keeps the input order of parameters with equal names |
| BitSeal.QueryItems | tscode/bitseal/BitSeal.ts:28 | one `name=value` item per parameter, in order |
| BitSeal.StripMark | tscode/bitseal/BitSeal.ts:23 | `if (query.startsWith('?')) query = query.slice(1)` |
| BitSeal.SearchParams | tscode/bitseal/BitSeal.ts:24-26 | the parameters `new URLSearchParams(q)` visits: one more leading `?` dropped, the rest form-parsed |
| BitSeal.CanonicalQueryString | tscode/bitseal/BitSeal.ts:21-29 | `canonicalQueryString`; `CanonicalQueryEmpty`, `CanonicalQueryIgnoresLeadingMark`, `CanonicalQueryDropsTwoMarks`, `CanonicalQueryItems` and `CanonicalQueryOneLine` state its meaning |
| BitSeal.CanonicalQueryEmpty | tscode/bitseal/BitSeal.ts:21-24 | an absent or empty query, a lone `?` and `??` canonicalise to the empty string |
| BitSeal.CanonicalQueryIgnoresLeadingMark | tscode/bitseal/BitSeal.ts:23-24 | prefixing one `?` makes no difference unless the query already starts with `??` |
| BitSeal.CanonicalQueryDropsTwoMarks | tscode/bitseal/BitSeal.ts:23-24 | exactly two leading `?` are dropped, one by the code and one by the `URLSearchParams` constructor; a third reaches the form parser as part of the first name |
| BitSeal.CanonicalQueryItems | tscode/bitseal/BitSeal.ts:21-29 | the canonical query splits at `&` into one item per parsed parameter, sorted by name, and each item splits at `=` into the encoded name and value |
| BitSeal.EncodedHasNo | tscode/bitseal/BitSeal.ts:28 | `encodeURIComponent` output holds no `&`, `=`, or line break |
| BitSeal.CanonicalQueryOneLine | tscode/bitseal/BitSeal.ts:21-29 | the canonical query never holds a line break |
| BitSeal.BodyHashHex | tscode/bitseal/BitSeal.ts:31-34 | empty for an absent or empty body, otherwise 64 lower-case hex digits that decode to the body's SHA-256 |
| BitSeal.BuildCanonicalString | tscode/bitseal/BitSeal.ts:36-52 | `buildCanonicalString`, the six fields joined by line breaks; `CanonicalFields` and `CanonicalAmbiguousWithLineBreaks` state its meaning |
| BitSeal.CanonicalFields | tscode/bitseal/BitSeal.ts:36-52 | the canonical string splits at line breaks into exactly the six fields, when method, path, timestamp and nonce hold none |
| BitSeal.CanonicalAmbiguousWithLineBreaks | tscode/bitseal/BitSeal.ts:44-51 | with a line break in the timestamp or nonce, two different header pairs give the same canonical string |
| BitSeal.SignRequest | tscode/bitseal/BitSeal.ts:54-75 | exactly the four headers; protocol `BitSeal`; timestamp and nonce as supplied (even empty) or generated; the signature covers the canonical string built from the header values |
| BitSeal.VerifierCall | tscode/bitseal/BitSeal.ts:85-92 | the message and signature bytes `verifyRequest` hands to BRC-77, or none when it returns false first; `VerifyRejectsEarly` and `SignThenVerify` state its meaning |
| BitSeal.VerifyRequest | tscode/bitseal/BitSeal.ts:77-98 | `verifyRequest`, with a throwing verifier giving false; `VerifyAcceptsOnlyValid`, `SignThenVerify` and `EmptyOptionNeverVerifies` state its meaning |
| BitSeal.VerifyRejectsEarly | tscode/bitseal/BitSeal.ts:85-89 | the verifier is skipped iff the protocol header is not `BitSeal` or the timestamp, nonce or signature is missing or empty; the request is then refused |
| BitSeal.VerifyAcceptsOnlyValid | tscode/bitseal/BitSeal.ts:90-97 | a request is accepted iff the verifier is called and returns true; a throwing verifier gives false |
| BitSeal.SignThenVerify | tscode/bitseal/BitSeal.ts:54-98 | verifying signed headers hands the verifier the very message that was signed, and succeeds when base64 round-trips and the verifier accepts the signature |
| BitSeal.EmptyOptionNeverVerifies | tscode/bitseal/BitSeal.ts:63-89 | an explicitly empty timestamp or nonce is signed but never verifies |

## Left out

- `BuildHandshake`, `VerifyHandshake` and `protoString` (rtc.go lines 21 and 32-84): JSON and hex encoding, the clock and BRC-77 signatures of the handshake are outside the record layer modelled here.
- ECDH (`DeriveSharedSecret`, `Compressed`), SHA-256, AES-GCM, `aes.NewCipher` and `cipher.NewGCM` are parameters. AES-GCM is modelled only through its two laws: a 16-byte tag, and Open inverting Seal. Their error returns, such as a key of the wrong length, are not modelled.
- The random initial sequence number of `NewSession` (lines 126-131) is the constructor parameter `initSeq`.
- Salt length: the code never checks that salts are 4 bytes. A salt of another length makes GCM panic on the nonce length. The model does not check the length and does not model the panic.
- Go slice aliasing in `append(s.salt, …)` and `append(cipherTextOnly, tag…)` is not modelled. For 4-byte salts made with `make`, and for the tag already lying at the end of the frame, it writes no new bytes.
- Fragmenter and Reassembler (message fragmentation, described in the protocol's specification) are not part of this model. The code modelled here contains neither.
- `randomNonce` and `Date.now()` are the parameters `freshNonce` and `now` of `SignRequest`.
- `URLSearchParams`, `encodeURIComponent`, `toUpperCase`, `sha256(…, 'utf8')` and `toArray` (UTF-8 and base64) are functions of a `Runtime` value. Their only modelled properties are these: the form-urlencoded parser gives nothing for the empty string (the `URLSearchParams` constructor's removal of one leading `?` is modelled, as `SearchParams`), URI encoding emits only unreserved characters, `%` and hex digits, and SHA-256 gives 32 bytes. `toArray(…, 'base64')` is assumed not to throw.
- BRC-77 signing and verification are parameters. Key binding (client key to server public key) lives inside them. An exception from signing is not modelled.
- `toHex` is modelled as lower-case hex with two digits per byte, as the SDK documents it.
- JavaScript strings are UTF-16 code units. There is no Unicode normalisation, and `toUpperCase` is a parameter.
- HTTP header names are exact map keys. Case-insensitive header lookup by a web framework is outside `verifyRequest`.
