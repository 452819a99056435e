# ethjs-signer: a verified model of the legacy-transaction signer

This project models, in Dafny, the core of `ethjs-signer`: the module that
turns a loosely typed Ethereum legacy transaction into its six canonical byte
fields, signs the Keccak-256 digest of their RLP encoding with secp256k1, and
appends `v = 27 + recoveryParam`, `r` and `s` to form the nine-element signed
list; and its inverse, `recover`, which re-hashes the first six elements of an
encoded transaction and asks the curve library for the public key.

Modules, following the source's structure:

- `Wrappers`: `Option`, `Result` (the model's stand-in for `throw`) and `Collect`, the in-order run of fallible steps that stops at the first failure (the `forEach` loop with its throws).
- `Bytes`: bytes, big-endian reading, `stripZeros`, and the facts about canonical (no leading zero) encodings.
- `Hex`: hex digits, `stripHexPrefix`, `padToEven`, Node's hex decoding and rendering, `BN.toString(16)` and `bnToBuffer`.
- `Schema`: the six-field `transactionFields` table.
- `External`: RLP items and a `Primitives` record of functions standing for `rlp.encode`, `rlp.decode`, Keccak-256, ECDSA signing and key recovery. Every result holds for any such functions. Where one is needed, the RLP codec is assumed to decode what it encodes.
- `Errors`: one constructor per distinct `throw` in `sign`, the failures of the external libraries, and `NotHexString`, the model's outcome for a number given to a hex field.
- `Encoder`: field lookup with the `gas` alias, per-field conversion and length rules, and the field loop.
- `Signer`: argument validation, the signed list and its hex form.
- `Recoverer`: input normalisation, six-slot slicing, the digest and the recovery call.

Three facts about `sign` and `recover` shape the model:

- `sign` raises different errors for a transaction that is not an object (`NotAnObject`) and for a key that is not a string (`KeyNotString`).
- `sign` does not check the length of `r` or `s`; they are encoded like any other number.
- `recover` does not check the recovery id itself. A recovery id outside {0, 1} is rejected only inside the curve library, so it appears as a `None` from the recovery primitive.

## Model

| member | source | states |
|---|---|---|
| Bytes.StripZeros | src/index.js:8-14 | the result is a suffix of the input, every byte removed is zero, and the result is empty or starts with a nonzero byte |
| Bytes.StripZerosScan | src/index.js:8-14 | the source's index scan with `break` computes exactly `StripZeros` and keeps the big-endian value |
| Bytes.StripZerosIdempotent | src/index.js:8-14 | stripping twice is stripping once |
| Bytes.StripZerosFixesCanonical | src/index.js:8-14 | stripping leaves a byte string unchanged exactly when it has no leading zero |
| Bytes.StripZerosKeepsValue | src/index.js:8-14 | removing leading zero bytes does not change the number denoted |
| Bytes.CanonicalUnique | src/index.js:20-22 | two byte strings without leading zeros that denote the same number are equal |
| Bytes.CanonicalLengthBound | src/index.js:94-99 | a canonical string fits in `max` bytes exactly when its value is below 256^max |
| Hex.PadToEven | src/index.js:16-18 | the result has even length; an odd-length input gets exactly one '0' in front, an even-length one is returned unchanged |
| Hex.PadToEvenKeepsValue | src/index.js:16-18 | padding keeps hex text hex and keeps the number it denotes |
| Hex.StripHexPrefix | src/index.js:84 | a leading lower-case "0x" is removed and the rest returned; text without it is returned unchanged |
| Hex.ToHex | src/index.js:21 | `BN.toString(16)`: lower-case hex digits only, no leading zero, "0" for zero, denoting the number |
| Hex.HexToBytes | src/index.js:84 | Node's hex decoding yields one byte per pair of digits, half as many bytes as digits |
| Hex.HexToBytesPairs | src/index.js:84 | byte i of the decoding is digits 2i and 2i+1 read as one base-16 pair |
| Hex.HexToBytesDropsLastDigit | src/index.js:45 | decoding odd-length text ignores its unpaired last digit |
| Hex.HexToBytesValue | src/index.js:84 | decoding an even number of digits keeps the number, with leading zero digits kept as zero bytes |
| Hex.BytesToHex | src/index.js:112 | `toString('hex')` gives two lower-case hex digits per byte |
| Hex.HexRoundTrip | src/index.js:112 | decoding the hex rendering of bytes gives the same bytes back |
| Hex.BnToBuffer | src/index.js:20-22 | the result has no leading zero byte, is empty exactly for 0, and reads back big-endian as the input |
| Hex.BnToBufferOfCanonical | src/index.js:20-22 | every canonical byte string is `bnToBuffer` of its value, so `bnToBuffer` is the unique minimal encoding |
| Hex.StripZerosIsMinimalEncoding | src/index.js:95 | zero-stripping any buffer gives the minimal encoding of its value |
| Schema.SchemaShape | src/index.js:24-31 | six distinct fields; `to` is exactly the fixed-width field (20 bytes); `data` is exactly the field with neither a width nor a limit; the numeric fields have a 32-byte limit |
| Wrappers.Collect | src/index.js:74-102 | all values in order when every step succeeds, otherwise the error of the first failing step (each earlier step succeeded) |
| Wrappers.CollectFirstFailure | src/index.js:74-102 | the error reported is that of the first failing step |
| Encoder.TxKey | src/index.js:77-78 | the key read is the field's own name, except that `gasLimit` is read from `gas` exactly when `gas` is present and truthy |
| Encoder.RawBytes | src/index.js:75-86 | an absent value gives empty bytes; numeric fields give canonical bytes; only a number in a hex field fails |
| Encoder.TextForNumericField | src/index.js:81-82 | a string in a numeric field encodes as the number `numberToBN` reads: base 16 behind "0x" or when it has a hex letter, base 10 when it is decimal digits alone |
| Encoder.DecimalNonceText | src/index.js:82 | nonce `"10"` encodes as the single byte 10 |
| Encoder.PrefixedNonceText | src/index.js:82 | nonce `"0x10"` encodes as the single byte 16 |
| Encoder.OneByteNonce | src/index.js:20-22 | a nonzero nonce below 256 encodes as its one byte |
| Encoder.EncodeField | src/index.js:75-101 | absent gives empty; a bounded field's bytes are canonical and within the limit; a fixed-width field's bytes are empty or of that width; unbounded fields keep the converted bytes; errors are field errors |
| Encoder.NumericFieldRule | src/index.js:88-99 | a numeric field with a limit accepts exactly numbers below 256^limit (2^256 for 32 bytes), encodes them as `bnToBuffer`, and otherwise fails with `TooLong` |
| Encoder.FixedWidthRule | src/index.js:88-91 | `to` keeps leading zero bytes and is rejected exactly when its decoded length is neither 0 nor 20, with that length in the error |
| Encoder.UnboundedHexRule | src/index.js:84-101 | `data` is always accepted and keeps every decoded byte, leading zeros included |
| Encoder.ZeroNonceIsEmpty | src/index.js:20-22 | a nonce of 0 encodes as the empty string |
| Encoder.DataKeepsZeroByte | src/index.js:84 | `data: "0"` encodes as one zero byte, not as the empty string |
| Encoder.EncodeFields | src/index.js:74-102 | succeeds exactly when every field succeeds, then holds each field's encoding in order; fails only with a field error |
| Encoder.EncodeFieldsStopsAtFirstFailure | src/index.js:89-98 | the loop fails with the error of the first failing field |
| Encoder.EncodeFieldsCongruent | src/index.js:74-102 | the loop depends on the transaction only through the outcome of each field |
| Encoder.UnsignedInSchemaOrder | src/index.js:72-102 | the unsigned list has the six fields' encodings in schema order, and exists whenever all six encode |
| Encoder.EncodeUnsigned | src/index.js:72-102 | the unsigned list has six elements when every field encodes, and otherwise fails with a field error |
| Encoder.GasAlias | src/index.js:77-78 | a truthy `gas` encodes exactly as the same value given as `gasLimit` |
| Encoder.FalsyGasIgnored | src/index.js:77-78 | a falsy `gas` is ignored and `gasLimit` is read |
| Encoder.OneByteRecipientRejected | src/tests/test.index.js:86 | `{to: "0x00"}` fails with `InvalidLength("to", 20, 1)` whatever `value` and `data` hold |
| Signer.IsPrivateKeyText | src/index.js:70 | the key pattern accepts exactly the hex texts with the lower-case "0x" prefix and 64 digits |
| Signer.PrivateKeyBytes | src/index.js:105 | a key matching the pattern gives 32 bytes denoting the number its 64 digits spell |
| Signer.RecoveryByte | src/index.js:108 | v is 27 + recoveryParam when that fits a byte, and 27 or 28 for recovery ids 0 and 1 |
| Signer.SignatureFields | src/index.js:108-110 | three elements: the v byte, then r and s as canonical bytes reading back as r and s |
| Signer.SignedFields | src/index.js:72-110 | succeeds exactly when the unsigned list encodes; then 9 elements, the first six the unsigned list, the last three the signature over their digest |
| Signer.Sign | src/index.js:67-113 | rejects a non-object or null transaction, then a non-string key, then a key not matching `^(0x)[0-9a-fA-F]{64}$`; with valid arguments succeeds exactly when the fields encode; returns the list or its serialised hex form |
| Signer.SignFailsOnlyOnFields | src/index.js:88-99 | with an object and a valid key, `sign` fails only with the error of a field |
| Signer.Serialize | src/index.js:112 | the string form is "0x" then hex that decodes to exactly the RLP encoding of the signed list |
| Signer.Digest | src/index.js:106 | Keccak-256 of the RLP bytes that the same list's "0x" string form carries; `sign` applies it to the six unsigned fields, not to its nine-element output |
| Signer.SignedRecoveryByte | src/index.js:108 | with recovery id 0 or 1 the seventh element of the signed list is 27 or 28 |
| Signer.SignGasAlias | src/tests/test.index.js:72-75 | `sign({..., gas: g})` equals `sign({..., gasLimit: g})` for a truthy `g` |
| Recoverer.RawTxBytes | src/index.js:45 | bytes are used as given; hex text is decoded after its prefix, to half as many bytes as digits, denoting its value when the digit count is even and ignoring an unpaired last digit otherwise |
| Recoverer.UnsignedItems | src/index.js:47-51 | exactly six slots: decoded element i when present, the empty string otherwise; later elements are dropped |
| Recoverer.SixSlots | src/index.js:49-51 | the six fields taken from a decoded list: its first six, with the empty string for each one missing |
| Recoverer.RecoverDigest | src/index.js:46-53 | fails with `MalformedEncoding` exactly when the input does not decode to a list; for a list of byte strings, it is the digest `sign` computes for its six slots |
| Recoverer.RecoverPoint | src/index.js:53-54 | succeeds exactly when the curve library returns a point, and returns it without its first (format) byte |
| Recoverer.Recover | src/index.js:44-55 | fails with `MalformedEncoding` exactly when the input does not decode to a list; for a decoded list of byte strings, asks the curve library about the digest `sign` computes for its first six fields (missing ones empty), with r and s read big-endian and recovery id `v - 27` |
| Recoverer.RenderedHex | src/index.js:45 | hex rendered from bytes, with or without "0x", loses nothing to `stripHexPrefix` |
| Recoverer.SameBytesSameRecovery | src/index.js:45 | `recover` depends on its raw input only through the bytes it normalises to |
| Recoverer.RecoverHexOrBytes | src/index.js:45 | a hex string input, with or without "0x", recovers exactly as the bytes it renders |
| Recoverer.RecoverIgnoresTrailing | src/index.js:49-51 | inputs whose decoded lists agree on the first six elements recover identically |
| Recoverer.RecoverDigestOfEncoded | src/index.js:46-53 | for a codec that round-trips, the digest rebuilt from an encoded list is the digest of its first six elements |
| Recoverer.SignatureFieldsReadBack | src/index.js:108-110 | the v, r, s elements read back as recovery id + 27, r and s |
| Recoverer.RecoverSignedList | src/tests/test.index.js:30-35 | recovering from the serialised list with v, r, s read from it calls the curve with the digest of the first six elements and those values |
| Recoverer.SignThenRecover | src/tests/test.index.js:20-38 | recovering from `sign`'s hex output, with v, r, s from its list output, asks the curve library about exactly the signed digest, r, s and recovery id |

## Left out

- secp256k1 signing and key recovery (`elliptic`), Keccak-256 (`js-sha3`) and RLP (`rlp`): foreign libraries whose code is not part of this model. They are fields of a `Primitives` parameter, and nothing is assumed of them except, where stated, that RLP decoding undoes RLP encoding.
- `numberToBN` coercion: `number-to-bn` is not part of this model. Numbers arrive as natural numbers, and a string follows the library's rule for digit strings: base 16 behind "0x" or with a hex letter, base 10 otherwise. Signs, surrounding spaces, an upper-case "0X" prefix and `BN` objects are not representable in the input.
- JavaScript truthiness of `gas`: a number is truthy when nonzero, a string when nonempty. A `BN` object holding zero, which JavaScript treats as truthy, is not distinguished.
- A number given for `to` or `data`: the source then builds `new Buffer(number)`, whose contents depend on the Node version. The model returns `NotHexString` instead.
- Hex.HexToBytes: models the truncating decoding of current Node releases, where an unpaired last digit is dropped. Older Node releases throw on odd-length hex, and that error is not modelled. It matters only for `recover` given odd-length text, since `sign` pads first.
- Invalid hex characters: hex input is restricted by its type to hex digits after an optional "0x", so Node's lenient parsing of other characters is not modelled.
- A `recover` input that decodes to a single byte string rather than a list is treated as `MalformedEncoding`. The source would instead index the bytes of that string.
- `null` field values and other JavaScript types for fields are not representable in the tagged input.
- Not retaining the private key in memory, and determinism: the model is pure, so the same inputs always give the same output by construction.
- The TestRPC network test, the thousand-iteration comparison with `ethereumjs-tx`, and random account generation: I/O and integration tests against external tools.
- Recoverer.SignThenRecover: weaker than the full sign-then-recover round trip. It proves that `recover` hands the curve library exactly the digest, r, s and recovery id that `sign` produced, but not that the library then returns the signer's key, because that is a property of secp256k1 arithmetic.
- Signer.RecoveryByte: states v = 27 + recoveryParam only for recovery ids below 229. Above that, the byte wraps modulo 256, as `Buffer` truncation does.
