# witnet-toolkit wallet crypto layer, in Dafny

A model of the exact-arithmetic and byte-layout logic of the witnet-toolkit
wallet crypto layer (`src/lib/crypto/types.ts`, `utils.ts`, `address.ts`).

Every cryptographic primitive is an oracle: a function-typed field or parameter
about which nothing is assumed. This covers secp256k1 recovery, DER import and
the private-key check; SHA-256; PBKDF2; AES-256-CBC; and the bech32 checksum
encoder and decoder.

Each of the following is a pure function over immutable values. Every error the
code throws is an `Err` of a `Result`.

- **Coins.** The `Coins` wrapper of an unbounded pedro count. Its constructors,
  getters and `fromBalance`, and the overflow guard of the `wits` getter with
  BigInt's truncating division. `totalCoins` and `BigMath.max` from the
  utilities.
- **Keys.** `PublicKey`: byte packing, `equals`, `recoverFrom`, with its
  `Uint8Array` and `Buffer` inputs (also those of `RecoverableSignature.from`).
  `RecoverableSignature`: `from`, `fromKeyedSignature`, the constructor's
  brute-force recovery-id search, and the bytes `toHexString` renders.
- **Key hashes.** `PublicKeyHash` of the types module, which stores bech32 5-bit
  words. It covers `fromHash`, `fromPublicKey`, `fromBech32`, `toBech32`,
  `toBytes20` and `toBytes32`. Underneath is the 8-to-5 and 5-to-8 bit
  regrouping of `bech32.toWords`/`fromWords`. This is the `convertbits` of
  BIP 173, written here as a bit stream cut into groups.
- **Address holder.** The `PublicKeyHash` byte holder of the address module:
  clone, set, clear, presence check, buffer access, and the "wit" address in
  both directions.
- **Extended keys.** `parseXprv` and `getExpectedDataLength`, and the header
  check and iv/salt/ciphertext split of `decipherXprv`.
- **UTXO selection.** `selectUtxos`. It orders by strategy (descending sort,
  ascending sort, or a Fisher–Yates shuffle), drops time-locked outputs, then
  applies the slim-fit rule or the running-total covering rule.

The clock (`Date.now`) and the shuffle's random draws (`Math.random`) are
parameters (`now`, `draws`).

The bech32 checksum codec is a `Codec` value. The lemmas that need it to behave
require `Lawful(codec)`, a predicate with three parts:

- encoding succeeds for a valid prefix within the length limit;
- the encoded string is lower-case and starts with the lower-cased prefix;
- decoding gives back the lower-cased prefix and the words.

Files: `results.dfy` (Option/Result), `bytes.dfy` (JS slicing, ASCII helpers,
`matchingUint8Arrays`, big-endian u32), `bech32.dfy`, `coins.dfy`, `keys.dfy`,
`keyhash.dfy`, `address.dfy`, `xprv.dfy`, `utxo.dfy`.

## Model

| member | source | states |
|---|---|---|
| Bytes.MatchingIsEquality | src/lib/crypto/types.ts:413-415 | `matchingUint8Arrays(a, b)` holds exactly when the two arrays are equal: same length and the same byte at every index |
| Bytes.U32RoundTrip | src/lib/crypto/utils.ts:97-102 | writing a value below 2^32 as four big-endian bytes and reading it with `getUint32(_, false)` gives the value back |
| Bytes.U32BytesRoundTrip | src/lib/crypto/utils.ts:97-102 | any four bytes read as a big-endian u32 and written back are the same four bytes |
| Bech32.ToWords | src/lib/crypto/types.ts:226-228 | `toWords` of n bytes yields ceil(8n/5) words |
| Bech32.ToWordsZeroPadded | src/lib/crypto/types.ts:226-228 | when 8n is not a multiple of 5, the low 5 - (8n mod 5) bits of the last word are zero: the padding |
| Bech32.ExpandToWords | src/lib/crypto/types.ts:226-228 | the bits of the words of `toWords(b)` are the bits of `b` followed by the zero padding up to whole words |
| Bech32.FromWords | src/lib/crypto/types.ts:267-269 | a successful `fromWords` of m words yields floor(5m/8) bytes; it succeeds exactly when the 5m mod 8 left-over bits are fewer than 5 and all zero, i.e. the last word is a multiple of 2 to that number |
| Bech32.WordsRoundTrip | src/lib/crypto/types.ts:226-228 | `fromWords(toWords(b))` is `b` for every byte string |
| Bech32.WordsDecodeCanonical | src/lib/crypto/types.ts:267-269 | whenever `fromWords(w)` succeeds with `b`, `w` is exactly `toWords(b)`: no two word strings decode to the same bytes |
| Bech32.WordsBijection | src/lib/crypto/types.ts:226-228 | `fromWords(w) == b` if and only if `toWords(b) == w` |
| Coins.Zero | src/lib/crypto/types.ts:34-36 | zero coins read 0 through both getters |
| Coins.FromPedros | src/lib/crypto/types.ts:20-22 | the stored amount is the argument; both `pedros` and `nanowits` read it back |
| Coins.FromNanowits | src/lib/crypto/types.ts:17-19 | the stored amount is the argument; both getters read it back |
| Coins.FromBalance | src/lib/crypto/types.ts:10-16 | the amount is locked + staked + unlocked |
| Coins.CoinsRoundTrip | src/lib/crypto/types.ts:37-45 | constructors and getters are mutually inverse, and `pedros` and `nanowits` always agree |
| Coins.TruncQuotient | src/lib/crypto/types.ts:47 | BigInt division by 10^9 rounds toward zero: the quotient times 10^9 lies between 0 and the amount, less than 10^9 away from it, for either sign |
| Coins.Wits | src/lib/crypto/types.ts:46-55 | the getter throws exactly when the amount is at least (2^53 - 1 + 1) * 10^9; otherwise whole * 10^9 + rest is the amount, with a rest under 10^9 in size and of the amount's sign |
| Coins.TotalCoins | src/lib/crypto/utils.ts:188-194 | `totalCoins` gives the same coins as `Coins.fromBalance` |
| BigMath.Max | src/lib/crypto/utils.ts:13-19 | the result is one of the arguments and at least every argument; it differs from `value` only if it occurs in `values` |
| Keys.FromProtobuf | src/lib/crypto/types.ts:171-173 | the key holds exactly the flag and the bytes given, and packs back to the flag byte followed by the key bytes |
| Keys.FromUint8Array | src/lib/crypto/types.ts:175-180 | a non-empty array gives flag `b[0]` and bytes `b[1..]`; an empty one gives no flag and no bytes |
| Keys.ToUint8Array | src/lib/crypto/types.ts:217-219 | the packed form is one byte longer than the key bytes, starts with the flag (0 for a missing one) and continues with the key bytes |
| Keys.Uint8ArrayRoundTrip | src/lib/crypto/types.ts:175-180 | packing what `fromUint8Array(b)` built gives `b` for non-empty `b`, and `[0]` for the empty array |
| Keys.PublicKeyRoundTrip | src/lib/crypto/types.ts:217-219 | a key with a flag survives `fromUint8Array(toUint8Array(k))` |
| Keys.EqualsComparesFlagsOnly | src/lib/crypto/types.ts:205-207 | `equals` as written holds exactly when the compression flags agree, whatever the bytes |
| Keys.EqualsIgnoresBytes | src/lib/crypto/types.ts:205-207 | two keys with flag 2 and bytes `[1]` and `[7]` differ, yet `equals` as written reports them equal |
| Keys.EqualsIntendedIsEquality | src/lib/crypto/types.ts:205-207 | comparing the argument's bytes with the receiver's makes `equals` coincide with equality of keys |
| Keys.RecoverFrom | src/lib/crypto/types.ts:182-198 | input that is not 65 bytes is rejected with its length; otherwise recovery is called with id = byte 0 and signature = bytes 1..64, a failed recovery is an error, and a success is the key packed from the recovered bytes: its flag is the first recovered byte and its bytes the rest |
| Keys.SearchRecoveryId | src/lib/crypto/types.ts:339-345 | the loop from id k stops at the least id in k..3 whose recovery yields the packed key, or at 4 |
| Keys.RecoversToIsRecovery | src/lib/crypto/types.ts:342-343 | a recovery that does not throw and whose result matches byte for byte is the same as a recovery returning exactly the packed key |
| Keys.NewRecoverableSignature | src/lib/crypto/types.ts:335-349 | the constructor never fails; its recovery id is the least id in 0..3 that recovers `pubKey.toUint8Array()`, and it is 4 exactly when none does |
| Keys.RecoverFromInput | src/lib/crypto/types.ts:182-198 | a `Uint8Array` is read as its bytes; a `Buffer` is read through its `ArrayBuffer` as no bytes, and is rejected as 0 bytes long |
| Keys.FromInput | src/lib/crypto/types.ts:306-321 | a `Uint8Array` is read as its bytes; a `Buffer` is rejected as 0 bytes long |
| Keys.BufferAlwaysRejected | src/lib/crypto/types.ts:306-321 | a serialised signature that `from` reads back from a `Uint8Array` is rejected when passed in a `Buffer`, by both readers |
| Keys.FromInputIntended | src/lib/crypto/types.ts:306-321 | reading a `Buffer` for its bytes makes `from` agree with its `Uint8Array` reading |
| Keys.RecoverFromInputIntended | src/lib/crypto/types.ts:182-198 | reading a `Buffer` for its bytes makes `recoverFrom` agree with its `Uint8Array` reading |
| Keys.BufferRoundTripIntended | src/lib/crypto/types.ts:306-353 | read as intended, a `Buffer` carrying a serialised signature gives that signature back |
| Keys.From | src/lib/crypto/types.ts:306-321 | an input that is not 65 bytes is rejected by the 64-byte check; on 65 bytes it succeeds exactly when `recoverFrom` does and passes its error on; a result is the constructor applied to the key `recoverFrom` returns, bytes 1..64 and the message |
| Keys.FromKeyedSignature | src/lib/crypto/types.ts:323-329 | fails exactly when DER import fails; otherwise the key comes from its protobuf fields and the recovery id is searched |
| Keys.ToRecoverableBytes | src/lib/crypto/types.ts:351-353 | the rendered bytes are the recovery id followed by the signature bytes |
| Keys.RecoverableRoundTrip | src/lib/crypto/types.ts:306-353 | a signature whose recovery id was found, serialised and read back with `from`, is the same signature |
| Keys.UnrecoverableSerialisesFour | src/lib/crypto/types.ts:339-353 | when no id recovers the key, the serialised signature leads with 4 |
| Keys.NewRecoverableSignatureChecked | src/lib/crypto/types.ts:335-349 | construction fails exactly when no id in 0..3 recovers the key; otherwise the id is below 4 and recovers it |
| KeyHash.FromHash | src/lib/crypto/types.ts:226-228 | the stored words regroup back into exactly the hash |
| KeyHash.FromPublicKey | src/lib/crypto/types.ts:234-240 | the stored words regroup into the first 20 bytes of SHA-256 over the flag byte and the key bytes |
| KeyHash.NetworkPrefix | src/lib/crypto/types.ts:263-265 | the prefix is "wit" exactly on "mainnet", and "twit" on every other network name |
| KeyHash.ToBech32 | src/lib/crypto/types.ts:263-265 | the string is the codec's encoding of the words with the network's prefix and limit (66 or 67); failure only where the encoder fails |
| KeyHash.FromBech32 | src/lib/crypto/types.ts:242-255 | after lower-casing, a "wit" string is decoded with limit 66 and a "twit" string with limit 67; anything else and every decoding failure is rejected |
| KeyHash.ToBytes20 | src/lib/crypto/types.ts:267-269 | fails exactly when `fromWords` fails; otherwise the first (at most) 20 regrouped bytes |
| KeyHash.ToBytes32 | src/lib/crypto/types.ts:271-276 | fails exactly when `toBytes20` does; otherwise `toBytes20` followed by 12 zero bytes |
| KeyHash.HashBytesRoundTrip | src/lib/crypto/types.ts:267-276 | a 20-byte hash comes back from `toBytes20`, and `toBytes32` is that hash padded to 32 bytes |
| KeyHash.Bech32RoundTrip | src/lib/crypto/types.ts:242-265 | under any lawful codec, a hash of at most 56 words is encoded on either network and parsed back unchanged |
| KeyHash.PublicKeyAddressRoundTrip | src/lib/crypto/types.ts:234-265 | the bech32 string of any public key's hash parses back to that hash |
| Address.Empty | src/lib/crypto/address.ts:8-10 | a holder built without a hash has none |
| Address.FromBuffer | src/lib/crypto/address.ts:26-28 | the hash getter returns the buffer given |
| Address.Clone | src/lib/crypto/address.ts:31-33 | the copy has the same hash bytes and the same presence |
| Address.SetHash | src/lib/crypto/address.ts:55-58 | after setting, the getter returns the value, and `hasHash` holds iff the value is non-empty |
| Address.ClearHash | src/lib/crypto/address.ts:66-68 | after clearing, the hash is empty and `hasHash` is false |
| Address.ToBuffer | src/lib/crypto/address.ts:71-73 | the buffer rebuilds the same holder through `fromBuffer` |
| Address.PbBytes | src/lib/crypto/address.ts:46-48 | the protobuf bytes are the stored hash and rebuild the same holder through `fromBuffer` |
| Address.HasHashIffNonEmpty | src/lib/crypto/address.ts:61-63 | `hasHash` is non-emptiness of the bytes, false after clearing, and after a set it depends only on the value set |
| Address.AddressOf | src/lib/crypto/address.ts:41-43 | the address is the codec's "wit" encoding of the hash's words, with no version word |
| Address.FromAddress | src/lib/crypto/address.ts:13-23 | strings not starting with "wit" are rejected, and so are strings the codec cannot decode; otherwise the decoded words minus the first are regrouped, a failed regrouping is rejected and a successful one is the hash |
| Address.AddressRoundTripFails | src/lib/crypto/address.ts:13-43 | under any lawful codec, no 20-byte hash h comes back out of `fromAddress` of its own address: when h[19] is a multiple of 8 a 19-byte hash comes back, otherwise the words are rejected |
| Address.FromAddressIntended | src/lib/crypto/address.ts:13-23 | with no word dropped, a decoded string gives a hash exactly when its words carry valid padding, and then the hash's words are exactly the decoded words |
| Address.AddressRoundTrip | src/lib/crypto/address.ts:13-43 | with no word dropped, every hash of at most 50 bytes comes back out of its address |
| Xprv.ExpectedDataLength | src/lib/crypto/utils.ts:33-38 | 66 bytes at depth 0 plus 4 per level |
| Xprv.LimitFitsDepths | src/lib/crypto/utils.ts:26-31 | the limit is the payload byte length at depth 255 but bounds the string's characters: the bech32 string of a depth-d payload fits it exactly when d is at most 151; a master key's string has 117 characters |
| Xprv.ReadLayout | src/lib/crypto/utils.ts:97-117 | the path indices are big-endian u32s at offsets 1 + 4i, the chain code the 32 bytes after the path, the key slot the last 33 bytes |
| Xprv.LayoutRoundTrip | src/lib/crypto/utils.ts:97-117 | reading the fields of a written payload gives the fields back |
| Xprv.PayloadRoundTrip | src/lib/crypto/utils.ts:97-117 | writing the fields read from a payload of the expected length gives the payload back |
| Xprv.ParsePayload | src/lib/crypto/utils.ts:78-128 | rejects a prefix other than "xprv", then a depth other than 0, then a length other than 66, each with its own error, then a non-zero marker or a scalar the curve check refuses as not a private key; a result is the chain code bytes 1..33 and the scalar bytes 34..66 with an empty key path |
| Xprv.ParseXprv | src/lib/crypto/utils.ts:69-129 | a string the codec cannot decode is rejected, and so are words that do not regroup; regrouped bytes get exactly the payload checks and errors of `ParsePayload`, so an "xprv" payload of depth other than 0 is always rejected as an unsupported depth; for regrouped bytes, a result exists exactly when the prefix is "xprv", the payload has 66 bytes, depth 0 and a zero marker, and the curve check accepts bytes 34..66; a result has an empty path, a 32-byte chain code and an accepted 32-byte key, and its payload is their master payload |
| Xprv.MasterPayloadRoundTrip | src/lib/crypto/utils.ts:84-128 | every 32-byte chain code and accepted 32-byte scalar parse back from their master payload |
| Xprv.MasterKeyRoundTrip | src/lib/crypto/utils.ts:69-129 | under any lawful codec, the "xprv" string of a master key parses back to it |
| Xprv.SplitSealed | src/lib/crypto/utils.ts:45-48 | iv, salt and data concatenate to the payload; on 48 bytes or more they are bytes 0..16, 16..48 and the rest, and shorter payloads give clamped parts |
| Xprv.DecipherXprv | src/lib/crypto/utils.ts:40-54 | a string that does not decode, whose prefix is not "xprv", or whose words do not regroup is rejected; otherwise the data is decrypted with the iv under the PBKDF2 key (10000 iterations, 32 bytes) from the password and the salt, and the result is that plaintext or, when decryption fails, an error |
| Xprv.SplitSealedRoundTrip | src/lib/crypto/utils.ts:45-48 | a 16-byte iv, a 32-byte salt and any ciphertext are cut back out of their concatenation |
| Xprv.SealedRoundTrip | src/lib/crypto/utils.ts:40-54 | under any lawful codec, the "xprv" string of iv, salt and ciphertext deciphers to what the cipher makes of exactly those parts |
| UtxoSelection.StrategyOrDefault | src/lib/crypto/utils.ts:136 | no strategy means slim-fit |
| UtxoSelection.SortSorted | src/lib/crypto/utils.ts:138-155 | the sort orders by value, descending or ascending, and is a permutation |
| UtxoSelection.Shuffle | src/lib/crypto/utils.ts:143-151 | the shuffle is a permutation for every valid sequence of draws |
| UtxoSelection.Order | src/lib/crypto/utils.ts:137-156 | every strategy permutes the outputs; big-first and slim-fit leave them in non-increasing, small-first in non-decreasing value order |
| UtxoSelection.Unlocked | src/lib/crypto/utils.ts:158-160 | every kept output has timelock at most `now`, and nothing new appears |
| UtxoSelection.UnlockedCounts | src/lib/crypto/utils.ts:158-160 | every unlocked output is kept as often as it occurs, every locked one dropped |
| UtxoSelection.UnlockedSorted | src/lib/crypto/utils.ts:158-160 | filtering keeps the order |
| UtxoSelection.FirstAtMost | src/lib/crypto/utils.ts:166 | the index of the first output not above the target, or -1 when all are above it |
| UtxoSelection.CoverDrawn | src/lib/crypto/utils.ts:171-176 | the covering filter keeps only outputs it was given |
| UtxoSelection.CoverSorted | src/lib/crypto/utils.ts:171-176 | the covering filter keeps the order |
| UtxoSelection.CoverPastTarget | src/lib/crypto/utils.ts:171-176 | with non-negative values, once the running total exceeds the target nothing more is kept |
| UtxoSelection.CoverIsPrefix | src/lib/crypto/utils.ts:171-176 | with non-negative values the covering filter keeps a prefix |
| UtxoSelection.CoverKeptWithinTarget | src/lib/crypto/utils.ts:171-176 | every kept output saw a running total of its predecessors at most the target |
| UtxoSelection.CoverStopsPastTarget | src/lib/crypto/utils.ts:171-176 | a result that leaves an output out already totals more than the target |
| UtxoSelection.SelectUtxos | src/lib/crypto/utils.ts:131-180 | every selected output is unlocked and drawn from the input, no more often than it occurs there |
| UtxoSelection.Spendable | src/lib/crypto/utils.ts:136-160 | the candidates are unlocked, drawn from the input and ordered by the strategy |
| UtxoSelection.SpendableCounts | src/lib/crypto/utils.ts:136-160 | every unlocked input is a candidate as often as it occurs; no locked one is |
| UtxoSelection.PickDrawn | src/lib/crypto/utils.ts:164-176 | both the slim-fit and the covering rule keep only candidates they were given |
| UtxoSelection.SelectWithoutTarget | src/lib/crypto/utils.ts:162-179 | with no target, or a 0-pedro target, the result is all unlocked outputs in the strategy's order |
| UtxoSelection.SelectOrdering | src/lib/crypto/utils.ts:136-180 | big-first, slim-fit and no strategy return non-increasing values; small-first returns non-decreasing values |
| UtxoSelection.SlimFitChoice | src/lib/crypto/utils.ts:165-169 | among value-descending candidates, the one before the first not above the target is the smallest above it |
| UtxoSelection.PickSlimFit | src/lib/crypto/utils.ts:165-169 | slim-fit on descending candidates returns exactly that one output |
| UtxoSelection.SelectSlimFit | src/lib/crypto/utils.ts:165-169 | under slim-fit, when the first output not above the target has index at least 1, the result is the single output before it, the smallest one above the target |
| UtxoSelection.PickCoverage | src/lib/crypto/utils.ts:171-176 | the covering rule on non-negative candidates keeps a prefix within the target that, when short, exceeds it |
| UtxoSelection.SelectCoverage | src/lib/crypto/utils.ts:171-176 | whenever slim-fit does not apply, the result is a prefix of the ordered unlocked outputs; each kept output's predecessors total at most the target, and a strict prefix totals more than it |
| UtxoSelection.SelectAllLocked | src/lib/crypto/utils.ts:158-160 | when every output is locked nothing is selected, under any strategy and target |
| UtxoSelection.SmallFirstOvershoot | src/lib/crypto/utils.ts:153-176 | small-first over 70, 10, 30 with target 25 returns 10 and 30: the output that crosses the target is still included |

## Left out

- `Coins.fromWits`, the floating-point division and sum at the end of the `wits` getter, and `toString` (delegates to `whole_wits`, which is not part of this model): floating point. `Wits` returns the exact whole and rest parts instead.
- Coins.Wits: the guard compares `Number(quotient)`, a rounded double, against `MAX_SAFE_INTEGER`; since every integer above 2^53 - 1 rounds to at least 2^53, this is the exact comparison the model uses.
- Hex inputs and outputs (`isHexString`/`fromHexString` branches of `recoverFrom` and `from`, `toHexString` renderings, `PublicKeyHash.fromHexString`, the `hex` getter of the address holder): text encoding of the same bytes. `ToRecoverableBytes` gives the bytes `toHexString` renders.
- `ecdsaVerify`, `signatureExport`, `toKeyedSignature`, `toProtobuf`, `sha256`: thin wrappers around library calls.
- A property that recovery of a freshly signed message yields the signing key: it needs a relation between signing and recovery that an oracle cannot supply.
- The bech32 checksum: the codec is abstract, with only the laws in `Lawful`.
- `Date.now` and `Math.random`: `now` and the shuffle's `draws` are parameters. `ValidDraws` states the range `Math.floor(Math.random() * (len - i))` produces.
- UtxoSelection.SelectUtxos: the in-place sort and the assignments to `specs.utxos` also mutate the caller's object; the model returns a new sequence. Stability of `Array.prototype.sort` is modelled by the insertion sort but not stated as a property.
- UtxoSelection.SelectCoverage: stated for non-negative values only, as outputs always carry; the covering rule itself is modelled for any values.
- `toLowerCase` is modelled on ASCII letters only: the case mapping of non-ASCII characters (for instance U+212A KELVIN SIGN, which JavaScript lower-cases to ASCII `k`) is not modelled, so such a string reaches the codec un-lowered and the model does not say whether it is accepted; the code accepts it once `toLowerCase` has mapped it (types.ts:244-246).
- Keys.FromProtobuf: the flag is a byte. The code stores the protobuf's number unchanged (types.ts:172) and truncates it only when packing (lines 218 and 237), so a flag outside 0..255 would reach `equals` untruncated; such flags are not represented. The key bytes are likewise taken as bytes: the code builds them with `Uint8Array.from` from an array of numbers (types.ts:64-66, 172), which reduces each number modulo 256, and that conversion is not modelled.
- Keys.FromKeyedSignature: the key bytes and the DER signature are taken as bytes; the code converts both from arrays of numbers with `Uint8Array.from` (types.ts:172, 326), which reduces each number modulo 256, and that conversion is not modelled.
- Address.Clone: the holder stores, returns and replaces the caller's `Uint8Array` by reference (address.ts lines 27, 52, 57 and 72), so later writes to that array show through the holder; `clone` copies with `slice()` (line 32) so that the copy is independent. Values have no identity here, so neither the sharing nor the independence of the copy is stated; the contract says only that the copy holds the same bytes.
- KeyHash.ToBech32: the network is always passed; the default `network = "mainnet"` (types.ts:263) is the call with "mainnet".
- Error classes (`TransactionError`, `MempoolError`, `TimeoutError`, `TransmissionError`) and the receipt and transaction type aliases: data carriers without behaviour.
- The RPC provider, CLI and test files: network and terminal I/O.

## Findings

| source | as written | input that shows it | evidently intended | confidence | as-written member | corrected member |
|---|---|---|---|---|---|---|
| src/lib/crypto/types.ts:205-207 | `equals` compares `pubKey.bytes` with itself, so only the flags matter | keys with flag 2 and bytes `[1]` and `[7]` compare equal | compare `pubKey.bytes` with `this.bytes` | high; not executed | Keys.EqualsIgnoresBytes | Keys.EqualsIntendedIsEquality |
| src/lib/crypto/address.ts:13-23 | `fromAddress` drops the first decoded word as a witness version, but the `address` getter (line 42) never writes one | any 20-byte hash: its address decodes to 32 words, of which 31 regroup into at most 19 bytes | regroup all decoded words, so an address round-trips | medium; not executed | Address.AddressRoundTripFails | Address.AddressRoundTrip |
| src/lib/crypto/types.ts:310-311 | a `Buffer` is read as `Uint8Array.from(recoverable.buffer)`, here and in `recoverFrom` (lines 186-187); an `ArrayBuffer` is neither iterable nor array-like, so the copy is empty and the length checks (lines 193 and 317) reject it | any `Buffer` holding a valid 65-byte recoverable signature | read the `Buffer`'s own bytes (`Uint8Array.from(recoverable)`), so it is accepted like the `Uint8Array` | high; not executed | Keys.BufferAlwaysRejected | Keys.BufferRoundTripIntended |
| src/lib/crypto/types.ts:335-349 | when no recovery id in 0..3 matches, the loop exits with id 4 and the constructor succeeds | any key and signature for which all four recoveries throw or differ; `toHexString` then leads with 4 | reject the signature instead of recording an id that is not a recovery id | low; not executed | Keys.UnrecoverableSerialisesFour | Keys.NewRecoverableSignatureChecked |
