# SimpleCrypto, modelled in Dafny

`SimpleCrypto` wraps a symmetric cipher of Node's `crypto` module behind a
passphrase and an algorithm name. Construction checks both values and checks
the algorithm against the real module's cipher list. The first `encrypt` pads
short key material with random bytes up to 32 bytes and keeps the padded key
on the instance. Every `encrypt` draws a fresh 16-byte IV and returns
`<lowercase hex IV>:<hex body>`. `decrypt` cuts its input at the first `:`,
reads both halves as hex and deciphers with the key the instance holds now.
The class exists twice, in TypeScript (`src/index.ts`) and in older
JavaScript (`src/simple-crypto.js`). Both are modelled.

Modules:

- `Primitives` (`primitives.dfy`): bytes, `Option`, JavaScript `Error` values, settled promises (`Result`), the random source's answer (`RandomAnswer`), and the injected crypto capability `Crypto`. The ciphers are opaque function values in it. The one property assumed of them is the predicate `Inverts`: deciphering with the same algorithm, key and IV undoes a successful encipherment. It is a hypothesis wherever it is used.
- `Hex` (`hex.dfy`): base16 as in section 8 of RFC 4648, with lowercase digits, as `Buffer.toString('hex')` writes it. Decoding follows the rules Node documents for `Buffer.from(s, 'hex')`: digits of either case, read pair by pair, stopping at the first bad pair.
- `JsString` (`js_string.dfy`): `indexOf`, `substring` and `substr` with ECMAScript's clamping of out-of-range positions.
- `Protocol` (`protocol.dfy`): what both versions share. That is the constructor's checks, the `randomBytes` promise, the padding step, and the wire format's split lemmas.
- `SimpleCryptoTs` and `SimpleCryptoJs`: the class of each file. Each has the mutable field `passphrase: seq<byte>` (the key material), `GetKeyAndIV` and `Encrypt` as methods that modify it, `Decrypt` as a function that only reads the instance, and `New` for the throwing constructor.
- `Scenarios` (`scenarios.dfy`): the repository's tests, stated for every capability and every random answer that fits them, and proved from the class contracts.

Randomness is a parameter. Each `encrypt` takes two random sources, functions
from a requested byte count to the answer given to that request: one for the
IV request of 16 bytes and one for the padding request of `32 - length`
bytes. `Honest(source)` says that a source returns as many bytes as it is
asked for whenever it does not fail. The real module is the `nodeCrypto`
parameter of `New`, and the injected one is `localCrypto`.

`decrypt` does not reject input without a `:`. There `indexOf` gives -1, so
the IV part is empty and the whole input is the body. Any failure then comes
from the cipher. `Decrypt` models exactly that.

## Model

| member | source | states |
|---|---|---|
| `Protocol.CheckConfig` | src/index.ts:14-19 | construction succeeds iff algorithm and passphrase are present and non-empty and the algorithm is in the real module's list; otherwise the error is "Failed to specify algorithm/passphrase" (missing value) or "Algorithm not supported" |
| `SimpleCryptoTs.New` | src/index.ts:13-24 | rejects exactly when `CheckConfig` against the real module does, with its error; otherwise a fresh instance holding the injected capability, the algorithm unchanged and the passphrase bytes as key material |
| `SimpleCryptoTs.SimpleCrypto.constructor` | src/index.ts:21-23 | the three fields are the injected capability, the algorithm and the passphrase bytes |
| `Protocol.RandomBytes` | src/index.ts:26-35 | asks the source for the given count; the promise rejects iff the callback got an error, and then with that very error; otherwise it resolves with the callback's bytes, exactly the count requested from an honest source |
| `Protocol.PadLength` | src/index.ts:40-41 | the padding request asks for exactly the bytes that bring a short key up to 32, and none for a long one |
| `Protocol.Pad` | src/index.ts:39-44 | padded key material keeps the old key as prefix and is never shorter; a key of 32 bytes or more is untouched; with as many random bytes as requested its length is max(old length, 32) |
| `Protocol.PadIdempotent` | src/index.ts:40-43 | once padded with the requested bytes, padding again changes nothing |
| `Protocol.Padded` | src/index.ts:39-44 | with an honest source, the stored key is exactly max(old length, 32) bytes long |
| `Protocol.DrawError` | src/index.ts:38-41 | a failed draw reports the IV request's error when that failed, else the padding request's, which happens only for a key shorter than 32 bytes |
| `SimpleCryptoTs.SimpleCrypto.GetKeyAndIV` | src/index.ts:37-49 | requests 16 IV bytes and, for a short key, `32 - length` padding bytes; succeeds iff those draws succeed; a failure returns the draw's own error and leaves the key unchanged; a success stores the padded key and returns it with the IV; with honest sources the IV has 16 bytes and the key max(old length, 32) |
| `SimpleCryptoTs.SimpleCrypto.Encrypt` | src/index.ts:51-58 | a failed draw rejects with that error and leaves the key; otherwise the key is padded and kept even if the cipher then fails; the result is the cipher's error or `hex(iv) + ":" + hex(body)`; with an honest IV source the first `:` is at index 32 after 32 hex digits; under `Inverts`, `Decrypt` of the output on the same instance gives the text back |
| `SimpleCryptoTs.SimpleCrypto.Decrypt` | src/index.ts:60-68 | with no `:`, deciphers the whole input as hex body under an empty IV; otherwise splits at the first `:`, reads the IV part and the body as hex, and deciphers under the current key material |
| `Hex.Encode` | src/index.ts:57 | two lowercase hex digits per byte, nothing else |
| `Hex.EncodeAt` | src/index.ts:57 | byte i's high and low halves are the digits at positions 2i and 2i+1 |
| `Hex.DigitValue` | src/index.ts:63 | a digit value below 16 exactly for 0-9, a-f and A-F |
| `Hex.Digit` | src/index.ts:57 | the digit for a value below 16 is a lowercase hex digit that reads back as that value |
| `Hex.Decode` | src/index.ts:63 | decoding yields at most half as many bytes as characters |
| `Hex.DecodePair` | src/index.ts:63 | two digits in front of a string read as their byte in front of what the rest reads as |
| `Hex.DecodeEncode` | src/index.ts:65 | reading hex back undoes writing it |
| `Hex.EncodeInjective` | src/index.ts:57 | distinct byte strings have distinct hex forms |
| `JsString.IndexOf` | src/index.ts:61 | -1 iff the character is absent; otherwise the position of its first occurrence |
| `JsString.IndexOfFirst` | src/index.ts:61 | `indexOf` returns the position of an occurrence with none before it |
| `JsString.Substring` | src/index.ts:61 | `substring(start, end)` clamps both ends into the string and swaps them when `end` is before `start`; in range it is the plain slice |
| `JsString.SubstringFrom` | src/index.ts:62 | `substring(start)` is the suffix from `start`, the whole string for a negative start and empty past the end |
| `JsString.Substr` | src/simple-crypto.js:62 | `substr(start)` is the suffix from `start`, counting a negative start back from the end, the whole string before the start and empty past the end |
| `JsString.SlicesAround` | src/index.ts:61-62 | around a position inside the string, `substring(0, i)` is the part before it and `substring(i + 1)` and `substr(i + 1)` the part after it |
| `JsString.SplitWithoutSeparator` | src/index.ts:61-62 | with no separator the IV part is empty and the body is the whole input |
| `Protocol.SplitAtFirstColon` | src/index.ts:61-62 | the `indexOf`/`substring` split cuts at the first `:` (and `substr` at the same place); with none, empty IV part and the whole input as body |
| `Protocol.FrameSplitsAfterIv` | src/index.ts:57 | a frame whose IV part has no `:` has its first `:` right after the IV part, and cutting there returns both parts |
| `Protocol.FrameShape` | src/index.ts:57 | a frame built from a 16-byte IV starts with 32 lowercase hex digits and has its first `:` at index 32 |
| `Protocol.FrameDecodes` | src/index.ts:57-65 | cutting an `encrypt` frame at its first `:` and reading both parts as hex returns the IV and the enciphered body |
| `SimpleCryptoJs.New` | src/simple-crypto.js:4-17 | same as the TypeScript constructor: rejects exactly when `CheckConfig` against the real module does; otherwise a fresh instance with the injected capability, the algorithm and the passphrase bytes |
| `SimpleCryptoJs.SimpleCrypto.constructor` | src/simple-crypto.js:12-16 | the `Object.assign` sets the injected capability, the algorithm and the passphrase bytes |
| `SimpleCryptoJs.SimpleCrypto.GetKeyAndIV` | src/simple-crypto.js:31-44 | requests 16 IV bytes and, for a short key, `32 - length` padding bytes, appends them after the original ones and stores the result; a long key is returned as is; a failed draw returns its error and leaves the key; with honest sources the IV has 16 bytes and the key max(old length, 32) |
| `SimpleCryptoJs.SimpleCrypto.Encrypt` | src/simple-crypto.js:46-55 | as the TypeScript `Encrypt`: draw errors propagate unchanged with the key kept, the output is the lowercase hex IV, `:`, the hex body, and it decrypts on the same instance under `Inverts` |
| `SimpleCryptoJs.SimpleCrypto.Decrypt` | src/simple-crypto.js:57-69 | IV from before the first `:`, body (via `substr`) from after it, both read as hex, deciphered under the current key material that is not re-derived |
| `JsString.SubstrAgreesWithSubstring` | src/simple-crypto.js:62 | `substr` and one-argument `substring` agree on a non-negative start |
| `SimpleCryptoJs.DecryptAgreesWithTs` | src/simple-crypto.js:57-69 | instances of the two versions in the same state decrypt every input alike |
| `Scenarios.ConstructionRejects` | tests/simple-crypto.test.ts:33-58 | missing or empty algorithm or passphrase and the unlisted "aes-250-cbc" are refused with the matching messages |
| `Scenarios.EncryptThenDecrypt` | tests/simple-crypto.test.ts:16-31 | encrypt then decrypt on one instance returns the text |
| `Scenarios.RandomFailurePropagates` | tests/simple-crypto.test.ts:60-69 | a failing random source makes `encrypt` reject with the same error and keeps the key |
| `Scenarios.OtherInstanceDecrypts` | tests/simple-crypto.test.ts:71-77 | with a 32-byte passphrase a second instance decrypts the first one's output |
| `Scenarios.ShortPassphrasePaddedOnce` | tests/simple-crypto.test.ts:79-84 | with random sources that never fail and an honest padding source, a 4-byte passphrase becomes a 32-byte key that starts with it, the second `encrypt` reuses it, and the first output still decrypts |
| `Scenarios.LongPassphraseRejected` | tests/simple-crypto.test.ts:99-103 | a 64-byte passphrase reaches the cipher untruncated, so a cipher that takes only 32-byte keys rejects |

## Left out

- The ciphers (`createCipheriv`, `createDecipheriv`, `update`, `final`, AES-CBC and its padding) are foreign Node calls. They are the function values `cipheriv` and `decipheriv`, with `Inverts` as their only assumed property, and `update`/`final` are not split.
- The contents of `crypto.getCiphers()` are not modelled. Each capability carries its list as a value.
- The random source is not modelled. Each request's answer is a function of the requested count, passed as a parameter; `Honest` is a hypothesis, not a property of `crypto.randomBytes`. The model does not say that IVs are fresh or distinct.
- Promises and async scheduling are not modelled. Every call runs to completion in order, so the race between two concurrent first `encrypt` calls on the padding step is out of scope.
- UTF-8 conversion of the passphrase, the text and the decrypted result is not modelled. These are byte sequences, so the passphrase is already its UTF-8 bytes.
- The per-call `encoding` argument of `encrypt` and `decrypt` is not modelled. The model fixes the defaults: a hex body, and bytes out of `decrypt`. Base64 and other output encodings are library encodings.
- Node's rejection of an odd-length hex body in `decipher.update` is not modelled. The body is read with the same pair-by-pair decoding as the IV.
- The exact kinds of primitive errors are not modelled. They are whatever `Error` the capability returns, passed on unchanged.
- The test that two instances with the same short passphrase cannot read each other's output is not modelled. It depends on random padding and on the cipher's padding checks.
- The tests replace the `crypto` field of a live instance with a fake. This is modelled by passing a failing random answer, because randomness is a parameter.
- tests/*.test.ts, tests/*.test.js and jest.config.js are test harness and configuration. Only the scenarios above are taken from them.
