# A verified model of the Qubic C# client core

This project models, in Dafny, the deterministic core of a C# client
library for Qubic, a tick-based ledger whose peers exchange fixed-layout
binary packages over TCP. The model covers five parts:

- **The wire codec.** It encodes and parses the 8-byte request/response header and the fixed-size records:
  - entity, 64 bytes;
  - entity response, 840 bytes;
  - tick info, 16 bytes;
  - tick data, 41 328 bytes;
  - the transaction payloads: send-many (1000 bytes), asset transfer (80 bytes) and QX order (56 bytes).

  This part also covers the value wrappers (`Long`, `Signature`, `PublicKey`, `DynamicPayload`), the append-only `QubicPackageBuilder` and the `DataView` helper. Its contracts give offsets, little-endian values, exact-size rejection and round trips in both directions.
- **Key and identity derivation.**
  - Seed letters become alphabet indices.
  - A base-26 odometer advances the private-key preimage. Its `> 26` threshold and reset to 1 are kept literally.
  - A 32-byte key becomes a 60-letter identity: four 64-bit groups of 14 base-26 letters each, then 4 checksum letters.
  - Decoding and `VerifyIdentity` are covered too. The identity round trip and the exact meaning of `VerifyIdentity` are proved.
- **Signed packages.** These are:
  - `QubicTransaction.Build`;
  - the builder's `Sign` and `SignAndDigest`;
  - the hand-assembled transfer, IPO, proposal and ballot packages;
  - the vote bit-packing and the nonce.

  The contracts say which bytes are signed and where the 64-byte signature lands. The transfer and IPO packages are proved equal to what `Build` makes from the same fields.
- **The ring-buffer framer and dispatcher of the node connection.**
  - `WriteBuffer`, `ReadFromBuffer`, `SetReadPosition`, the `ProcessBuffer` loop, `ProcessPackage` and the cursor reset in `Initialize`.
  - The loop is modelled as written: the available count is `|write − read|`, a cursor may rest at exactly the capacity, a header declaring fewer than 8 bytes still consumes 8, and the tick only rises.
  - A corrected loop, which counts the unread bytes around the ring, is modelled next to it.

Hashing (KangarooTwelve) and signing (SchnorrQ) are opaque. A `Crypto` value carries three functions:
- `hash(bytes, length)`;
- `derivePublicKey(privateKey)`;
- `sign(privateKey, publicKey, digest)`.

Their output lengths are fixed by their types, and nothing else is assumed about them.

Randomness and the wall clock are parameters:
- the random dejaVu bytes and the clock reading of the special commands (`SignedPackages.Draws`);
- the value `RandomizeDejaVu` draws.

The package-type codes the dispatcher compares against are also a parameter (`ConnectorNode.Environment`), and so are the peer address and whether `OnBalance` has a subscriber.

Bytes are integers in 0..255 (`Bytes.uint8`), and C# integer widths are subset types of `int`. Where the code wraps a value, the wrap-around is written out:
- the 64-bit balance and totals;
- the 32-bit header size and `InternalSize`;
- the byte casts of `SeedToBytes` and of the header fields.

A thrown exception, a `null` return or a builder overflow becomes a `Failure` of `Wrappers.Result`. An index that the code itself always keeps in range is a precondition.

Each class of the source is a module:

| source | module |
|---|---|
| `Long`, `Signature`, `PublicKey`, `DynamicPayload` | `LongValue`, `SignatureValue`, `PublicKeyValue`, `DynamicPayloadValue` |
| `QubicPackageBuilder` | `PackageBuilder` |
| `RequestResponseHeader` | `RequestResponseHeader` |
| `QubicEntity`, `QubicEntityResponse` | `Entity`, `EntityResponse` |
| `QubicTickInfo`, `QubicTickData` | `TickInfo`, `TickData` |
| `QubicTransaction` | `Transaction` |
| the three payloads | `SendMany`, `TransferAsset`, `QxOrder` |
| `KeyHelper` and `DataView` | `KeyHelper`, `DataView` |
| the identity half of `QubicHelper` | `Identity` |
| the package-assembly half of `QubicHelper` | `SignedPackages` |
| the framer of `QubicConnectorNode` | `ConnectorNode` |

Five modules support the rest:
- `Bytes`: little-endian conversion and integer wrapping;
- `Base26`: base-26 digits;
- `Bits`: shifts and `|`;
- `Crypto`: the opaque primitives;
- `Definitions`: the protocol constants.

## Model

| member | source | states |
|---|---|---|
| LongValue.New | qubic-types/Long.cs:7-10 | with no argument the number is 0, otherwise the given number |
| LongValue.SetNumber | qubic-types/Long.cs:21-24 | the number becomes the argument |
| LongValue.Data | qubic-types/Long.cs:36-39 | 8 bytes whose signed little-endian reading is the number |
| LongValue.Size | qubic-types/Long.cs:31-34 | the size is the length of the data |
| LongValue.FromBytes | qubic-types/Long.cs:12-19 | fails exactly when the array is not 8 bytes long; otherwise the value encodes back to the same 8 bytes |
| LongValue.FromBytesData | qubic-types/Long.cs:12-39 | decoding the encoding of a value gives the value back |
| LongValue.DataInjective | qubic-types/Long.cs:36-39 | two values with the same encoding are equal |
| SignatureValue.Default | qubic-types/Signature.cs:5 | a new signature holds 64 zero bytes |
| SignatureValue.New | qubic-types/Signature.cs:7-13 | a null argument leaves the default; any array becomes the package data as given |
| SignatureValue.SetSignature | qubic-types/Signature.cs:15-18 | the bytes are stored verbatim, whatever their length, and the size is their length |
| SignatureValue.Data | qubic-types/Signature.cs:20-23 | the package data is all the signature holds: the signature is exactly its data |
| SignatureValue.DataRebuilds | qubic-types/Signature.cs:7-23 | constructing a signature from another's package data gives that signature back |
| SignatureValue.Size | qubic-types/Signature.cs:25-28 | the size is the length of the data |
| DynamicPayloadValue.New | qubic-types/DynamicPayload.cs:8-12 | fails exactly for a negative bound; otherwise nothing is filled, the data is empty and the bound is kept |
| DynamicPayloadValue.Default | qubic-types/DynamicPayload.cs:14-16 | bound 0, size 0, empty data |
| DynamicPayloadValue.SetPayload | qubic-types/DynamicPayload.cs:19-28 | fails exactly when the data exceeds the bound; otherwise the data and size are the new data and its length, bound unchanged |
| DynamicPayloadValue.Data | qubic-types/DynamicPayload.cs:31-38 | the filled prefix of the array: empty while nothing is filled |
| DynamicPayloadValue.Size | qubic-types/DynamicPayload.cs:41-44 | the size is the length of the data |
| DynamicPayloadValue.SetPayloadLastWins | qubic-types/DynamicPayload.cs:19-28 | a second `SetPayload` on an accepted one behaves as if the first had not happened |
| DynamicPayloadValue.DefaultAcceptsOnlyEmpty | qubic-types/DynamicPayload.cs:14-28 | the parameterless payload accepts data if and only if it is empty |
| PublicKeyValue.Default | qubic-types/PublicKey.cs:7 | a new key is 32 zero bytes |
| PublicKeyValue.FromBytes | qubic-types/PublicKey.cs:18-21 | the given bytes become the package data and the size is their length |
| PublicKeyValue.FromIdentity | qubic-types/PublicKey.cs:10-27 | a null identity leaves the default key; one shorter than 56 letters fails; otherwise the key is the decoded identity |
| PublicKeyValue.FromKeyBytes | qubic-types/transacion-payloads/QubicTransferSendManyPayload.cs:117 | `new PublicKey(await helper.GetIdentity(bytes))`, as the parsers rebuild keys here and at QubicTransferAssetPayload.cs:124 and 128: the 60-letter identity of the bytes goes through the string constructor (PublicKey.cs:10-16 and 23-27); fails exactly below 32 bytes, otherwise the key is the first 32 bytes, through the identity round trip |
| PublicKeyValue.Data | qubic-types/PublicKey.cs:50-53 | the package data is all the key holds: the key is exactly its data |
| PublicKeyValue.DataRebuilds | qubic-types/PublicKey.cs:18-53 | `new PublicKey(bytes)` of a key's package data gives that key back |
| PublicKeyValue.Size | qubic-types/PublicKey.cs:45-48 | the size is the length of the data |
| PublicKeyValue.EqualsIsEquality | qubic-types/PublicKey.cs:55-58 | `Equals` holds if and only if the other key is present and equal |
| PublicKeyValue.EqualsReflexiveSymmetric | qubic-types/PublicKey.cs:55-58 | `Equals` is reflexive and symmetric |
| PublicKeyValue.EmptyAddressKey | QubicDefinitions.cs:10 | the key of the sixty-'A' address is 32 zero bytes |
| PublicKeyValue.EmptyAddressIsZero | QubicDefinitions.cs:10 | decoding sixty 'A's gives the default all-zero key |
| Definitions.Repeat | QubicDefinitions.cs:10 | `n` copies of the character, as the empty address spells out |
| KeyHelper.IndexOf | KeyHelper.cs:24 | the first position of the character, or -1 exactly when it does not occur |
| KeyHelper.SeedToBytes | KeyHelper.cs:19-27 | one byte per seed character |
| KeyHelper.SeedToBytesLetters | KeyHelper.cs:19-27 | 'a'..'z' become 0..25 and every other character becomes 255, the byte cast of -1 |
| KeyHelper.OdometerStep | KeyHelper.cs:37-47 | a turn keeps the length; its effect is stated by `OdometerStepCounts` and `OdometerStepBounded` |
| KeyHelper.Preimage | KeyHelper.cs:31-48 | the preimage has the seed's length; a non-positive index makes no turn |
| KeyHelper.PrivateKey | KeyHelper.cs:29-53 | 32 bytes; at index 0 or below, the hash of the seed bytes themselves |
| KeyHelper.CreatePublicKey | KeyHelper.cs:11-17 | 35 bytes: the derived key, then the 3-byte hash of it |
| KeyHelper.OdometerStepBounded | KeyHelper.cs:37-47 | bytes at most 26 stay at most 26 |
| KeyHelper.OdometerStepChangesFirstByte | KeyHelper.cs:37-47 | every turn changes byte 0, so consecutive indices differ |
| KeyHelper.OdometerStepCounts | KeyHelper.cs:37-47 | below the all-26 string a turn adds exactly 1 to the base-26 value |
| KeyHelper.PreimageCounts | KeyHelper.cs:35-48 | without reaching the all-26 string, `n` turns add `n` and keep the bytes at most 26 |
| KeyHelper.SeedDigitsHeadroom | KeyHelper.cs:35-48 | seed digits leave at least 26^(n-1) turns before the all-26 string |
| KeyHelper.PreimagesDistinct | KeyHelper.cs:29-48 | for a lower-case seed of 8 letters or more, distinct non-negative 32-bit indices give distinct preimages |
| KeyHelper.OneLetterPreimage | KeyHelper.cs:35-48 | a one-byte odometer cycles through 1..26 from turn 1 on |
| KeyHelper.ShortSeedCollision | KeyHelper.cs:29-53 | for a one-letter seed, indices k and k + 26 give the same preimage and private key |
| KeyHelper.OneLetterCycle | KeyHelper.cs:35-48 | a one-byte preimage repeats every 26 turns |
| KeyHelper.LetterOffsets | KeyHelper.cs:65 | one signed offset `letter - 'A'` per letter |
| KeyHelper.FoldRangeValue | KeyHelper.cs:63-66 | a group's accumulator is the base-26 value of its letter offsets modulo 2^64 |
| KeyHelper.GroupValues | KeyHelper.cs:60-67 | four group values, each stated by `GroupValue` |
| KeyHelper.GroupValue | KeyHelper.cs:60-67 | group `i` is the fold of letters 14i .. 14i+13 |
| KeyHelper.IdentityBytes | KeyHelper.cs:55-70 | 32 bytes, whose slots `IdentityBytesSlot` states |
| KeyHelper.IdentityBytesGroup | KeyHelper.cs:60-67 | bytes 8i .. 8i+8 are the little-endian encoding of group value `i` |
| KeyHelper.IdentityBytesSlot | KeyHelper.cs:55-70 | slot `i` holds the base-26 value of letters 14i .. 14i+13, modulo 2^64 |
| KeyHelper.IdentityBytesValue | KeyHelper.cs:55-70 | slot `i` read as an unsigned number is that base-26 value modulo 2^64 |
| KeyHelper.DecodeGroup | KeyHelper.cs:63-66 | the inner loop yields the wrapped base-26 value of the group's 14 letters |
| KeyHelper.GetIdentityBytes | KeyHelper.cs:55-70 | the loops through the data view produce exactly the four decoded slots |
| KeyHelper.StoreGroup | KeyHelper.cs:60-67 | one round of the outer loop leaves bytes 0 .. 8i+8 equal to the first i+1 decoded slots |
| DataView.SetBigUint64 | KeyHelper.cs:82-90 | reading the slot back gives the value, and every byte outside it is unchanged |
| DataView.GetBigUint64 | KeyHelper.cs:92-101 | the value whose 8 little-endian bytes are the slot |
| DataView.SetBigInt64 | QubicHelper.cs:449-457 | reading the slot back as a signed value gives the value, and every byte outside it is unchanged |
| DataView.SetInt32 | QubicHelper.cs:459-467 | reading the 4-byte slot back as a signed value gives the value, and every byte outside it is unchanged |
| DataView.SetInt16 | QubicHelper.cs:469-477 | the 2-byte slot holds the value's little-endian bytes, and every byte outside it is unchanged |
| DataView.GetUint16 | qubic-types/QubicTickData.cs:236 | the unsigned value whose 2 little-endian bytes are the slot |
| DataView.GetUint32 | qubic-types/QubicTickData.cs:242 | the unsigned value whose 4 little-endian bytes are the slot |
| DataView.GetInt32 | qubic-types/QubicEntity.cs:114 | the signed value whose 4 little-endian bytes are the slot |
| DataView.GetInt64 | qubic-types/QubicEntity.cs:110 | the signed value whose 8 little-endian bytes are the slot |
| Identity.Letter | QubicHelper.cs:56 | a digit becomes a letter, lower case exactly when asked |
| Identity.Letters | QubicHelper.cs:54-58 | one letter per digit, read back by `LettersOffsets` |
| Identity.Checksum | QubicHelper.cs:36-63 | the checksum fits in 18 bits; its letters are stated by `IdentityChecksum` |
| Identity.GroupLetters | QubicHelper.cs:47-59 | 14 letters per 8-byte group, decoded back by `GroupRoundTrip` |
| Identity.GetIdentity | QubicHelper.cs:44-72 | 60 letters, whose groups `IdentityGroup` and whose case `IdentityLetters` state |
| Identity.HumanReadable | QubicHelper.cs:74-77 | 60 lower-case letters, each the upper-case identity's letter shifted by 32 |
| Identity.IdentityLetters | QubicHelper.cs:44-72 | every letter has the requested case, and the two cases differ by 32 letter by letter |
| Identity.LettersOffsets | QubicHelper.cs:54-58 | reading the letters of a digit string back gives the digits |
| Identity.GroupRoundTrip | QubicHelper.cs:47-59 | the 14 letters of a group decode back to its 8 bytes |
| Identity.IdentityChecksum | QubicHelper.cs:61-69 | letters 56..59 are the four base-26 digits of the 18-bit checksum of the first three hash bytes, least significant first, and read back to it |
| Identity.IdentityRoundTrip | QubicHelper.cs:115-130 | decoding the upper-case identity of a key gives back its first 32 bytes |
| Identity.DecodeGroups | QubicHelper.cs:115-130 | an identity whose groups spell the key's slots decodes to the key |
| Identity.IdentityGroup | QubicHelper.cs:47-59 | letters 14i .. 14i+13 are the letters of key bytes 8i .. 8i+8 |
| Identity.VerifyIdentityComplete | QubicHelper.cs:132-141 | the upper-case identity of every 32-byte key verifies |
| Identity.VerifyIdentitySound | QubicHelper.cs:132-141 | a verified identity is all upper case and is the identity of the key it decodes to |
| Identity.VerifyIdentityExactly | QubicHelper.cs:132-141 | an identity verifies if and only if it is the upper-case identity of some 32-byte key |
| Identity.ChecksumDetermined | QubicHelper.cs:132-141 | two verified identities that share their first 56 letters are equal |
| Identity.IdentityBytesDependsOnGroups | QubicHelper.cs:115-130 | decoding reads only the first 56 letters |
| Identity.FoldRangeAgree | QubicHelper.cs:123-126 | the fold over a range of letters reads only those letters |
| Identity.IdentityOfKey | QubicHelper.cs:44-141 | a 32-byte key's identity verifies and decodes back to the key |
| Identity.CreateIdPackage | QubicHelper.cs:27-34 | the public key is derived from the index-0 private key, and the identity verifies and decodes back to the public key |
| PackageBuilder.New | QubicPackageBuilder.cs:10-14 | fails exactly for a negative size; otherwise `size` zero bytes with the offset at 0 |
| PackageBuilder.AddRaw | QubicPackageBuilder.cs:73-91 | fails exactly when the bytes do not fit; otherwise they stand at the old offset, the offset advances by their length and every other byte is kept |
| PackageBuilder.AddShort | QubicPackageBuilder.cs:93-98 | fails exactly when 2 bytes do not fit; otherwise the value's 2 little-endian bytes at the offset, which advances by 2 |
| PackageBuilder.AddInt | QubicPackageBuilder.cs:100-105 | fails exactly when 4 bytes do not fit; otherwise the value's 4 little-endian bytes at the offset, which advances by 4 |
| PackageBuilder.AddAllConcat | QubicPackageBuilder.cs:73-91 | a chain of appends succeeds exactly when the pieces fit, leaving them concatenated at the old offset and nothing else changed |
| PackageBuilder.Pack | QubicPackageBuilder.cs:10-23 | a fresh builder filled with the pieces succeeds exactly when they fit, giving the pieces then zero padding |
| PackageBuilder.SigningKeys | QubicPackageBuilder.cs:30-31 | the index-0 private key and its 35-byte checksummed public key |
| PackageBuilder.SignMessage | QubicPackageBuilder.cs:33-38 | the signature of a message's digest is 64 bytes |
| PackageBuilder.Sign | QubicPackageBuilder.cs:25-46 | fails exactly when fewer than 64 bytes remain; otherwise the filled prefix then the signature of that prefix |
| PackageBuilder.SignAndDigest | QubicPackageBuilder.cs:48-71 | the same signed data as `Sign`, the signature of the prefix, and a digest that is the hash of the signed data |
| PackageBuilder.SignSplits | QubicPackageBuilder.cs:25-46 | the last 64 bytes of signed data are the signature of everything before them |
| SignedPackages.SourceKey | QubicHelper.cs:203-204 | the 32 bytes copied in are the derived public key of the seed's index-0 private key |
| SignedPackages.CreateTransaction | QubicHelper.cs:200-240 | succeeds exactly when the destination has 32 bytes or more; 144 bytes: source key, destination, amount, tick, two zero 16-bit fields at their offsets, then the signature of the first 80 bytes |
| SignedPackages.TransferTransaction | QubicHelper.cs:207-227 | the fields of a plain transfer form a standard transaction with zero input type and size and an empty payload |
| SignedPackages.CreateTransactionIsBuild | QubicHelper.cs:200-240 | the hand-assembled transfer equals what `QubicTransaction.Build` produces for the same fields |
| SignedPackages.CreateIpo | QubicHelper.cs:151-198 | 160 bytes: source key, contract-index destination, zero amount, tick, input type 1, input size 16, the 16-byte bid, then the signature of the first 96 bytes |
| SignedPackages.IpoTransaction | QubicHelper.cs:157-185 | the fields of an IPO bid form a standard transaction with a 16-byte input |
| SignedPackages.CreateIpoIsBuild | QubicHelper.cs:151-198 | the hand-assembled IPO bid equals what `QubicTransaction.Build` produces for the same fields |
| SignedPackages.IpoDestination | QubicHelper.cs:164-165 | the contract index's low byte, then 31 zeros |
| SignedPackages.IpoInput | QubicHelper.cs:179-185 | price as 8 bytes, quantity as 2, then six zero padding bytes |
| SignedPackages.CommandBits | QubicHelper.cs:245 | shifting the 64-bit type left by 56 keeps only its low byte, in the top byte |
| SignedPackages.OrAbove | QubicHelper.cs:246 | or-ing the shifted type above a clock below 2^56 adds the two |
| SignedPackages.TopByte | QubicHelper.cs:248-250 | the 8 little-endian bytes of such a value are the clock's 7 bytes then the type byte |
| SignedPackages.Nonce | QubicHelper.cs:242-252 | 8 bytes; for a clock below 2^56, its 7 low bytes then the type's low byte |
| SignedPackages.NonceBytes | QubicHelper.cs:242-252 | the bytes of `(type << 56) \| seconds` are the clock's 7 bytes then the type byte |
| SignedPackages.SpecialHeader | QubicHelper.cs:269-281 | size 600 in 3 bytes, type 255, three random bytes, then 255 |
| SignedPackages.SpecialHeaderParses | QubicHelper.cs:269-281 | the header parses as a 600-byte package of type 255 |
| SignedPackages.CreateProposal | QubicHelper.cs:254-309 | fails exactly for a URL of more than 255 bytes; 600 bytes: header, proposal fields, URL field, then the signature of bytes 8..536 |
| SignedPackages.UriField | QubicHelper.cs:260-296 | 512 bytes: the URL length, the URL bytes, zeros to the end |
| SignedPackages.ProposalFields | QubicHelper.cs:283-290 | the nonce for command 3, the computor index as 2 bytes, six zeros |
| SignedPackages.VoteBits | QubicHelper.cs:311-324 | three bits per vote, each 0 or 1 |
| SignedPackages.ByteValue | QubicHelper.cs:331-336 | below 2^j, and bit `i` of the byte is bit `k + i` of the list, zero past its end |
| SignedPackages.VotesToByteArray | QubicHelper.cs:311-340 | one byte per eight bits, rounded up; the bits are stated by `VotesPacked` |
| SignedPackages.VotesPacked | QubicHelper.cs:311-340 | bit `k` of the output is bit `k mod 3` of vote `k / 3`, and zero past the votes |
| SignedPackages.CreateBallotRequests | QubicHelper.cs:342-402 | fails exactly when there are requests to build and the packed votes exceed 254 bytes; otherwise one ballot per computor index, in order |
| SignedPackages.Ballot | QubicHelper.cs:352-399 | 600 bytes: header, proposal fields, vote field, the signature of bytes 8 up to it, zeros to the end |
| SignedPackages.VoteField | QubicHelper.cs:379-387 | 257 zeros, the vote bytes, one zero |
| RequestResponseHeader.Data | qubic-communication/RequestResponseHeader.cs:143-169 | fails with the size error above 2^24 - 1, else with the type error outside 0..255; otherwise 8 bytes: the size's 3 little-endian bytes, the type byte and the deja vu's 4 bytes |
| RequestResponseHeader.PackageSize | qubic-communication/RequestResponseHeader.cs:123-126 | 8 exactly when the header can be encoded, otherwise the encoder's error |
| RequestResponseHeader.Parse | qubic-communication/RequestResponseHeader.cs:129-140 | fails exactly on fewer than 8 bytes; otherwise a header in range whose size, type and deja vu re-encode to bytes 0..2, 3 and 4..7 |
| RequestResponseHeader.ParseIgnoresTail | qubic-communication/RequestResponseHeader.cs:129-140 | only the first 8 bytes decide the parsed header |
| RequestResponseHeader.ParseData | qubic-communication/RequestResponseHeader.cs:129-169 | parsing an encoded header with a non-negative size restores it |
| RequestResponseHeader.DataParse | qubic-communication/RequestResponseHeader.cs:129-169 | encoding a parsed header gives back the first 8 bytes |
| RequestResponseHeader.NegativeSizeNotRestored | qubic-communication/RequestResponseHeader.cs:145-159 | a negative size passes the encoder's check and parses back as itself plus 2^24 |
| RequestResponseHeader.New | qubic-communication/RequestResponseHeader.cs:60-74 | fails exactly for a type outside 0..255; otherwise the type is kept (0 when absent), the deja vu is 0 and the size is the payload size plus 8, wrapped to 32 bits, or 8 |
| RequestResponseHeader.NewSizeFits | qubic-communication/RequestResponseHeader.cs:60-74 | a payload below 2^24 - 8 bytes gives size payload + 8, which encodes |
| RequestResponseHeader.RandomizeDejaVu | qubic-communication/RequestResponseHeader.cs:116-120 | the deja vu becomes the drawn value in [0, 2^31 - 1); size and type are kept |
| Entity.Default | qubic-types/QubicEntity.cs:5-13 | the zero key of 32 bytes, zero amounts |
| Entity.Balance | qubic-types/QubicEntity.cs:89-92 | incoming minus outgoing modulo 2^64, and exactly that difference when it fits in 64 signed bits |
| Entity.Data | qubic-types/QubicEntity.cs:125-137 | succeeds exactly when the key has at most 32 bytes; the key, the two amounts and the four counters in order, then zero padding |
| Entity.Parse | qubic-types/QubicEntity.cs:99-123 | fails exactly on a length other than 64; otherwise the key is bytes 0..31, the amounts read back at 32 and 40 and the counters at 48, 52, 56 and 60 |
| Entity.ParseData | qubic-types/QubicEntity.cs:99-137 | parsing the encoding of an entity with a 32-byte key restores it |
| Entity.DataParse | qubic-types/QubicEntity.cs:99-137 | encoding a parsed 64-byte input gives it back |
| EntityResponse.Default | qubic-communication/QubicEntityResponse.cs:57-62 | a default entity, zero tick and index, no siblings |
| EntityResponse.SiblingsSize | qubic-communication/QubicEntityResponse.cs:57 | the 840 bytes are the entity's 64, two 4-byte counters and 768 sibling bytes (24 digests of 32) |
| EntityResponse.Data | qubic-communication/QubicEntityResponse.cs:149-157 | succeeds exactly when the entity encodes and the siblings fit in 768 bytes; 840 bytes: the entity's encoding, the tick, the index, the siblings and zero padding |
| EntityResponse.PackageSize | qubic-communication/QubicEntityResponse.cs:118-121 | 840 exactly when the response can be encoded |
| EntityResponse.Parse | qubic-communication/QubicEntityResponse.cs:124-146 | fails exactly on a length other than 840; otherwise the entity parsed from bytes 0..63, the tick and index read back at 64 and 68, and the 768 bytes from 72 on as siblings |
| EntityResponse.ParseData | qubic-communication/QubicEntityResponse.cs:124-157 | parsing the encoding restores a response with a 32-byte key and 768 sibling bytes |
| EntityResponse.ParseDataPads | qubic-communication/QubicEntityResponse.cs:124-157 | with fewer siblings the round trip gives them back zero-padded to 768 bytes |
| EntityResponse.DataParse | qubic-communication/QubicEntityResponse.cs:124-157 | encoding a parsed 840-byte input gives it back |
| TickInfo.Data | qubic-types/QubicTickInfo.cs:104-114 | 16 bytes: duration and epoch as 2 bytes, the tick as 4, the two vote counts as 2 each and the initial tick as 4, at offsets 0, 2, 4, 8, 10 and 12 |
| TickInfo.Parse | qubic-types/QubicTickInfo.cs:81-102 | fails exactly on a length other than 16; otherwise the six unsigned fields read back at those offsets |
| TickInfo.ParseData | qubic-types/QubicTickInfo.cs:81-114 | parsing the encoding restores every tick info |
| TickInfo.DataParse | qubic-types/QubicTickInfo.cs:81-114 | encoding a parsed 16-byte input gives it back |
| TickData.RegionsAddUp | qubic-types/QubicTickData.cs:5-40 | the header bytes, the 256-byte union, the 32-byte time lock, 1024 digests of 32 bytes, 1024 fees of 8 bytes and the 64-byte signature fill the 41 328 bytes exactly |
| TickData.Default | qubic-types/QubicTickData.cs:22-42 | zeroed regions of their sizes, 1024 fees and no signature |
| TickData.ReadFees | qubic-types/QubicTickData.cs:264-270 | `count` fees, each re-encoding to its own 8 bytes from the offset on |
| TickData.Parse | qubic-types/QubicTickData.cs:226-276 | fails exactly on a length other than 41 328; otherwise every field read back from its own region, fees one by one and the signature from the last 64 bytes |
| TickData.ParseInjective | qubic-types/QubicTickData.cs:226-276 | no byte is ignored: inputs that parse alike are equal |
| TickData.PackageSize | qubic-types/QubicTickData.cs:221-224 | the constant record size |
| TickData.Data | qubic-types/QubicTickData.cs:278-283 | the encoder returns no bytes, which disagrees with the package size |
| TickData.ProposalUriSize | qubic-types/QubicTickData.cs:189-192 | union byte 0 |
| TickData.SetProposalUriSize | qubic-types/QubicTickData.cs:194-197 | union byte 0 becomes the size's low byte and nothing else changes |
| TickData.ProposalUriBytes | qubic-types/QubicTickData.cs:199-202 | the bytes after union byte 0, as many as it says |
| TickData.SetProposalUri | qubic-types/QubicTickData.cs:204-215 | more than 255 characters is rejected; an encoding that does not fit after byte 0 fails the copy; otherwise the encoding lands at union 1.., byte 0 holds the character count, the rest is kept |
| TickData.ProposalUriTruncated | qubic-types/QubicTickData.cs:199-215 | a one-character URI with a two-byte encoding reads back as its first byte only |
| TickData.ProposalUriRoundTrip | qubic-types/QubicTickData.cs:199-215 | a URI of one byte per character reads back exactly |
| TickData.SetProposalUriBytes | qubic-types/QubicTickData.cs:199-215 | with the byte count recorded, every encoding of at most 255 bytes reads back exactly and nothing else changes |
| Transaction.Default | qubic-types/QubicTransaction.cs:7-19 | nothing built, no digest or id; a standard transaction of the fixed 144 bytes |
| Transaction.SetPayload | qubic-types/QubicTransaction.cs:75-80 | the payload is stored and the input size becomes its reported size; nothing else changes |
| Transaction.SetPayloadStandard | qubic-types/QubicTransaction.cs:75-80 | a payload whose data is as long as its reported size keeps a transaction standard |
| Transaction.InternalSize | qubic-types/QubicTransaction.cs:87-102 | a standard transaction is 144 bytes plus its input size when that does not overflow 32 bits |
| Transaction.Body | qubic-types/QubicTransaction.cs:117-124 | the builder chain's pieces concatenated: two keys, 8 amount bytes, 4 tick bytes, 2 and 2 input bytes, the payload |
| Transaction.Filled | qubic-types/QubicTransaction.cs:117-124 | fails on a negative size, else when the body does not fit; otherwise a builder of `InternalSize` bytes holding the body with the offset after it |
| Transaction.Signed | qubic-types/QubicTransaction.cs:117-125 | succeeds exactly when the body and 64 signature bytes fit; the body, then the signature of the body, and the digest of both |
| Transaction.Build | qubic-types/QubicTransaction.cs:114-131 | the same success condition and errors; a failure leaves the transaction unbuilt; a success returns body + signature and records it with its digest, signature and the digest's readable form as the id |
| Transaction.PackageData | qubic-types/QubicTransaction.cs:138-145 | the built data, or no bytes before a successful build |
| Transaction.GetId | qubic-types/QubicTransaction.cs:104-112 | the id, or the empty string before a successful build |
| Transaction.BuildLayout | qubic-types/QubicTransaction.cs:87-131 | a standard transaction with an input of at most 1024 bytes always builds into `InternalSize` bytes with every field at its offset and the signature of everything before it last |
| Transaction.BuildAgain | qubic-types/QubicTransaction.cs:114-131 | building a built transaction again gives the same transaction and bytes |
| SendMany.Default | qubic-types/transacion-payloads/QubicTransferSendManyPayload.cs:11-13 | no transfers |
| SendMany.AddTransfer | qubic-types/transacion-payloads/QubicTransferSendManyPayload.cs:15-26 | appended exactly while fewer than 25 are held, rejected otherwise |
| SendMany.AddEachAppends | qubic-types/transacion-payloads/QubicTransferSendManyPayload.cs:34-37 | the loop of single adds succeeds exactly when all fit, and then appends them in order |
| SendMany.AddTransfers | qubic-types/transacion-payloads/QubicTransferSendManyPayload.cs:28-39 | the whole list is refused exactly when the total would pass 25; otherwise all are appended in order and at most 25 are held |
| SendMany.TotalAmount | qubic-types/transacion-payloads/QubicTransferSendManyPayload.cs:46-54 | the sum of the amounts modulo 2^64, and exactly the sum when it fits a `long` |
| SendMany.RunningTotalCongruent | qubic-types/transacion-payloads/QubicTransferSendManyPayload.cs:48-52 | the wrapping running total agrees with the true sum modulo 2^64 |
| SendMany.Data | qubic-types/transacion-payloads/QubicTransferSendManyPayload.cs:61-87 | when every sent transfer (a positive amount in one of the 25 slots) has a 32-byte destination, whatever the others hold, 1000 bytes: slot `i` holds the destination at 32·i and the amount at 800 + 8·i when it has a transfer with a positive amount, zeros otherwise |
| SendMany.Layout | qubic-types/transacion-payloads/QubicTransferSendManyPayload.cs:63-86 | the 50 appended pieces place slot `i`'s key at 32·i and its amount at 800 + 8·i |
| SendMany.UnsentDestinationIgnored | qubic-types/transacion-payloads/QubicTransferSendManyPayload.cs:63-73 | the destination of a transfer whose amount is not positive is never read: payloads that differ only there encode alike |
| SendMany.PackageSize | qubic-types/transacion-payloads/QubicTransferSendManyPayload.cs:56-59 | always 1000 |
| SendMany.TransactionPayload | qubic-types/transacion-payloads/QubicTransferSendManyPayload.cs:89-94 | a payload of 1000 bytes holding the package data, whenever that encodes |
| SendMany.SlotAmount | qubic-types/transacion-payloads/QubicTransferSendManyPayload.cs:110 | the amount whose encoding is slot `i`'s 8 bytes at 800 + 8·i |
| SendMany.SlotDestination | qubic-types/transacion-payloads/QubicTransferSendManyPayload.cs:113-117 | a key holding slot `i`'s 32 bytes |
| SendMany.CollectStep | qubic-types/transacion-payloads/QubicTransferSendManyPayload.cs:110-119 | a transfer exactly when slot `i`'s amount is positive, made of that slot's destination and amount |
| SendMany.Collect | qubic-types/transacion-payloads/QubicTransferSendManyPayload.cs:106-120 | at most one transfer per slot, each with a positive amount and a 32-byte destination |
| SendMany.Parse | qubic-types/transacion-payloads/QubicTransferSendManyPayload.cs:96-125 | fails on a length other than 1000; otherwise the collected transfers added to the existing ones with `AddTransfers`, keeping the old ones first and adding only positive amounts |
| SendMany.ParseData | qubic-types/transacion-payloads/QubicTransferSendManyPayload.cs:61-125 | parsing the encoding into an empty payload gives back every transfer that has a 32-byte destination and a positive amount |
| SendMany.DataSlots | qubic-types/transacion-payloads/QubicTransferSendManyPayload.cs:61-87 | every slot of the encoding holds its transfer's destination and amount, or zeros past the last |
| SendMany.CollectSlots | qubic-types/transacion-payloads/QubicTransferSendManyPayload.cs:106-120 | over such slots the loop collects exactly the first transfers, in order |
| TransferAsset.SetAssetName | qubic-types/transacion-payloads/QubicTransferAssetPayload.cs:48-55 | an 8-byte name holding the first (at most) 8 encoded bytes, zero-padded; the other fields are kept |
| TransferAsset.PackageSize | qubic-types/transacion-payloads/QubicTransferAssetPayload.cs:7 | always 32 + 32 + 8 + 8 |
| TransferAsset.Data | qubic-types/transacion-payloads/QubicTransferAssetPayload.cs:94-102 | succeeds exactly when the two keys and the name fit in 72 bytes; 80 bytes, with standard widths issuer at 0, new owner at 32, name at 64 and units at 72 |
| TransferAsset.TransactionPayload | qubic-types/transacion-payloads/QubicTransferAssetPayload.cs:104-109 | an 80-byte payload holding the package data, whenever that encodes |
| TransferAsset.Span | qubic-types/transacion-payloads/QubicTransferAssetPayload.cs:124 | the `length` bytes from `start`, failing exactly when they lie outside the input |
| TransferAsset.ReadKey | qubic-types/transacion-payloads/QubicTransferAssetPayload.cs:124 | succeeds exactly when the span fits and has 32 bytes or more; a key of the span's first 32 bytes |
| TransferAsset.ReadLong | qubic-types/transacion-payloads/QubicTransferAssetPayload.cs:136 | succeeds exactly when the span fits and has 8 bytes; a value whose encoding is those bytes |
| TransferAsset.ReadSpans | qubic-types/transacion-payloads/QubicTransferAssetPayload.cs:121-138 | succeeds exactly when all four reads do, and the fields are what they read |
| TransferAsset.ReadKeys | qubic-types/transacion-payloads/QubicTransferAssetPayload.cs:121-128 | both key reads succeed exactly when both spans fit with 32 bytes or more |
| TransferAsset.ReadRest | qubic-types/transacion-payloads/QubicTransferAssetPayload.cs:130-136 | the name read as is and the units from exactly 8 bytes, failing exactly when a span does not fit or the units span is not 8 bytes |
| TransferAsset.Parse | qubic-types/transacion-payloads/QubicTransferAssetPayload.cs:111-139 | a length other than 80 is an invalid package, and every 80-byte input fails with an out-of-range span |
| TransferAsset.ParseCorrected | qubic-types/transacion-payloads/QubicTransferAssetPayload.cs:111-139 | with (start, length) spans: fails exactly on a length other than 80; otherwise issuer bytes 0..31, owner 32..63, name 64..71, units 72..79 |
| TransferAsset.ParseCorrectedData | qubic-types/transacion-payloads/QubicTransferAssetPayload.cs:94-139 | the corrected parse of an encoding gives back every standard payload |
| QxOrder.PackageSize | qubic-types/transacion-payloads/QubicTransferQXOrderPayload.cs:7-19 | always 32 + 8 + 8 + 8 |
| QxOrder.Data | qubic-types/transacion-payloads/QubicTransferQXOrderPayload.cs:21-31 | succeeds exactly when the issuer key has at most 32 bytes; 56 bytes starting with the key, and with a 32-byte key the name at 32, the price at 40 and the shares at 48 |
| QxOrder.DataInjective | qubic-types/transacion-payloads/QubicTransferQXOrderPayload.cs:21-31 | orders with 32-byte issuers that encode alike are the same order |
| QxOrder.TransactionPayload | qubic-types/transacion-payloads/QubicTransferQXOrderPayload.cs:33-38 | a 56-byte payload holding the package data, whenever that encodes |
| QxOrder.TotalAmount | qubic-types/transacion-payloads/QubicTransferQXOrderPayload.cs:40-43 | price times shares modulo 2^64, and exactly the product when it fits a `long` |
| ConnectorNode.Ahead | QubicConnectorNode.cs:120-132 | `n` bytes, byte `k` being the ring byte `k` places after the read cursor |
| ConnectorNode.WriteBuffer | QubicConnectorNode.cs:101-115 | fails exactly when the remainder after the end of the array is longer than the array; otherwise each chunk byte lands `i` places after the write cursor around the ring (unless a later one overwrites it), every other byte is kept, the read cursor is kept and the write cursor moves on by the length, resting at the capacity when it ends there |
| ConnectorNode.StraightWrite | QubicConnectorNode.cs:103-108 | a chunk that fits before the end of the array is written in one contiguous piece at the write cursor |
| ConnectorNode.WrappedWrite | QubicConnectorNode.cs:104-114 | a chunk that passes the end of the array has its overflow written at offset 0 |
| ConnectorNode.ReadFromBuffer | QubicConnectorNode.cs:120-137 | fails exactly when more is asked than the array holds in two pieces; otherwise the `n` bytes ahead of the read cursor, moving the cursor only when asked |
| ConnectorNode.AheadPieces | QubicConnectorNode.cs:123-132 | the one or two copied pieces are exactly the bytes ahead of the read cursor |
| ConnectorNode.SetReadPosition | QubicConnectorNode.cs:139-145 | the read cursor moves on by `n` modulo the capacity and stays in [0, capacity] for `n` up to the capacity; the rest of the ring is kept |
| ConnectorNode.Consumed | QubicConnectorNode.cs:160-173 | a package takes its declared size, but never fewer than 8 bytes |
| ConnectorNode.PeekHeader | QubicConnectorNode.cs:155-156 | the in-range header that the 8 bytes ahead of the read cursor parse to |
| ConnectorNode.StepWith | QubicConnectorNode.cs:151-173 | stops exactly when the available count is below 8 or below the declared size; otherwise emits that header with the bytes after it as payload, moving only the read cursor, by max(size, 8) |
| ConnectorNode.PayloadAhead | QubicConnectorNode.cs:160-168 | skipping the header then reading the payload is reading `size` bytes and dropping the first 8 |
| ConnectorNode.AvailableAsWritten | QubicConnectorNode.cs:151 | the distance between the two cursors, whichever is ahead |
| ConnectorNode.Unread | QubicConnectorNode.cs:14-16 | the bytes from the read cursor round to the write cursor: the cursor distance when the reader is not past the writer, the capacity minus it otherwise |
| ConnectorNode.AvailableAgrees | QubicConnectorNode.cs:151 | the count as written equals the unread count exactly when the reader is not past the writer or the gap is half the ring |
| ConnectorNode.UnreadAfter | QubicConnectorNode.cs:139-145 | moving the reader past `k` unread bytes leaves `k` fewer unread |
| ConnectorNode.ReadBack | QubicConnectorNode.cs:101-137 | a chunk shorter than the ring, written when nothing is unread, is exactly what lies ahead of the reader afterwards, all of it unread |
| ConnectorNode.FrameWritten | QubicConnectorNode.cs:101-173 | a package written as header bytes then payload into an empty ring comes out of one step of the corrected loop as the same header and payload, leaving nothing unread |
| ConnectorNode.AnnouncedTick | QubicConnectorNode.cs:181-184 | a tick exactly for a tick-info package with a 16-byte payload: the unsigned value of payload bytes 4..7 |
| ConnectorNode.ProcessPackage | QubicConnectorNode.cs:179-195 | the current tick never falls and changes exactly when a tick info announces a strictly greater tick, which is then announced; an entity response with a subscriber is forwarded, parsed or not, and no other events arise |
| ConnectorNode.PackageTicks | QubicConnectorNode.cs:174-175 | handling a package and then reporting it announces at most its one rising tick |
| ConnectorNode.NewNode | QubicConnectorNode.cs:14-17 | a 4 MiB ring with nothing unread and tick 0 |
| ConnectorNode.Initialize | QubicConnectorNode.cs:232-235 | both cursors reset, so nothing is waiting by either count; the bytes and the tick are kept |
| ConnectorNode.ProcessBuffer | QubicConnectorNode.cs:147-177 | the bytes and the write cursor never change, the tick never falls, the announced ticks rise strictly, and a finished loop stops on the count as written |
| ConnectorNode.ProcessBufferCorrected | QubicConnectorNode.cs:147-177 | the same, with the unread count: it never grows, and the loop always ends at a ring where one more step would stop |
| ConnectorNode.Receive | QubicConnectorNode.cs:101-118 | fails exactly when the chunk's overflow exceeds the array; otherwise the write as `WriteBuffer` states it, the loop moving only the read cursor, and rising ticks |
| ConnectorNode.ReceiveCorrected | QubicConnectorNode.cs:101-118 | the same with the corrected loop, which ends with nothing more to cut |
| ConnectorNode.ReceiveOne | QubicConnectorNode.cs:101-118 | a whole package received into an empty ring is dispatched once and reported once with its header and payload, and nothing is left unread |
| ConnectorNode.DeclaredSize | QubicConnectorNode.cs:155-157 | the size a header declares is the little-endian value of its first three bytes |
| ConnectorNode.StaleEmission | QubicConnectorNode.cs:151-158 | with the reader 2 bytes before the end and the writer at 3, 5 bytes are unread and the corrected step waits, but the count as written is the capacity minus 5 and a package is emitted from stale bytes |
| ConnectorNode.ShortSize | QubicConnectorNode.cs:155-157 | a header whose top size byte is 0 declares fewer than 2^16 bytes |
| ConnectorNode.SpinToEnd | QubicConnectorNode.cs:151-173 | on the spinning ring the first step emits the 1000-byte package and leaves the reader at the end of the array |
| ConnectorNode.SpinBack | QubicConnectorNode.cs:139-173 | from the end of the array the next step emits a package of the capacity minus 1000 bytes and puts the reader back where it started |
| ConnectorNode.CycleStep | QubicConnectorNode.cs:149-176 | on either ring of the cycle the loop as written emits a package and lands on the other |
| ConnectorNode.NeverFinishes | QubicConnectorNode.cs:149-176 | on the spinning ring the loop as written never leaves, however many turns it gets |
| ConnectorNode.SpinningCorrected | QubicConnectorNode.cs:147-177 | on the same ring the corrected loop takes the 1000-byte package and stops with 5 bytes unread |

## Left out

- Socket and TCP I/O, the timer, connect/disconnect/reconnect and sending are not modelled (QubicConnectorNode.cs:28-99 and 197-283, and all of QubicConnector.cs). Each received chunk is an independent byte sequence.
  - In the source the socket reads into the ring array itself (QubicConnectorNode.cs:31 and 41-42). That aliasing is not modelled.
  - `RequestTickInfo` and `RequestBalance` are not modelled. They only build a header and send it.
  - `QubicEntityRequest` is not part of this model.
- The events are not modelled as callbacks. They appear as a sequence of `ConnectorNode.Event` values.
  - `OnTick` and `OnPackageReceived` are always listed, whether or not they have subscribers.
  - `OnBalance` is listed only when it has one, as the code checks (line 190).
- KangarooTwelve and SchnorrQ are opaque. `Crypto.GetInstance` and its async loading are not modelled.
- Async/await and concurrency are not modelled. Every operation is sequential.
  - `PublicKey.SetIdentity`'s fire-and-forget caching of the identity string is not modelled. A key is only its bytes.
  - `GetIdentityAsString` and `PublicKey.VerifyIdentity` read that cached string, so they are not modelled either.
- UTF-8 and base64 are not modelled.
  - URIs, URLs and asset names are taken already encoded, as bytes. Where the code needs a character count, it is passed alongside the bytes.
  - `EncodeTransactionToBase64` and `GetProposalUri`'s decoding are not modelled.
- `DownloadBlob` (QubicHelper.cs:404-416) is not modelled; it is browser I/O.
- `PublicKeyStringToBytes` (QubicHelper.cs:205) is not part of this model. `SignedPackages.CreateTransaction` takes the destination's key bytes instead of its identity string.
- `QubicPackageType` is not part of this model. Its codes are parameters.
- The property setters of the records are not modelled. The records are Dafny datatypes, so an update is a record update, and `GetTransfers` is field access.
- Tick-data encoding is not modelled. `GetPackageData` there is a stub that returns no bytes, and `TickData.Data` states only that.
- QubicHelper.cs repeats `KeyHelper`'s `PrivateKey`, `SeedToBytes`, `GetIdentityBytes` and `CreatePublicKey` (QubicHelper.cs:79-149), and both files define `DataView`. Each is modelled once, in `KeyHelper` and `DataView`.
- The unused `protocol` parameter of `CreateProposal` (QubicHelper.cs:254) and `CreateBallotRequests` (QubicHelper.cs:342) is not modelled: `SignedPackages.CreateProposal` and `SignedPackages.CreateBallotRequests` drop it, because neither body reads it.
- The diagnostics written to standard error on the error paths are not modelled; the model returns the `Failure`, `""` or empty sequence alone. These are the writes at QubicEntity.cs:103, QubicTickInfo.cs:85, QubicEntityResponse.cs:128, RequestResponseHeader.cs:133, QubicTickData.cs:208 and 230, QubicTransaction.cs:108 and 142, QubicTransferAssetPayload.cs:115 and QubicTransferSendManyPayload.cs:100.
- Partial effects before a throw are not modelled: a failed call returns a `Failure`. This covers:
  - the first copy of `WriteBuffer` before the second copy throws;
  - the fields that `TransferAsset.Parse` or `SendMany.Parse` set before throwing;
  - the bytes a builder wrote before an overflow.
- `Identity.Checksum` states the checksum as the sum `b0 + 256·b1 + 65536·b2` modulo 2^18. The code computes `(b2 << 16) | (b1 << 8) | b0` masked with `0x3FFFF`; the shifted bytes do not overlap, so the two are equal.
- SendMany.Data: when a sent transfer's destination is not 32 bytes long, it promises only that a failure is `OutOfRange`. The source then shifts the later slots or overflows the builder, and that layout is not stated.
- `ConnectorNode.ProcessBuffer` runs at most `fuel` packages, because the loop as written need not terminate (see Findings). `finished` says whether it stopped on its own.
- `ConnectorNode.Receive` runs the loop as written with the same fuel bound, so it does not promise a finished loop.
- `ConnectorNode.ReadBack`, `ConnectorNode.FrameWritten` and `ConnectorNode.ReceiveOne` require a chunk shorter than the ring. With the cursors equal, a full ring and an empty ring cannot be told apart.
- `ConnectorNode.ProcessPackage` keeps the current tick as the unsigned value it is compared as. The source assigns the `uint` tick to an `int` field.
- `ConnectorNode.Initialize` resets only the two cursors, as the code does (QubicConnectorNode.cs:232-235). It resets neither the current tick nor the buffer contents, and starting the timer and raising `OnReady` are left out.

## Findings

| source | as written | input that shows it | evidently intended | confidence | as-written member | corrected member |
|---|---|---|---|---|---|---|
| QubicConnectorNode.cs:151 | the bytes waiting are counted as `Math.Abs(bufferWritePosition - bufferReadPosition)`; once the writer has wrapped and the reader has not, that is the capacity minus the true count | a 4 MiB ring with the reader at capacity − 2, the writer at 3 and byte 0 zero: 5 bytes are unread, but the loop sees capacity − 5 and emits a package whose header is partly stale bytes from an earlier pass | count the bytes from the reader round to the writer, `(write − read) mod capacity`, and wait for a whole header | not executed | ConnectorNode.StaleEmission | ConnectorNode.ProcessBufferCorrected |
| QubicConnectorNode.cs:147-177 | with the same count, two stale headers can send the loop round the ring for ever, emitting the same two packages again and again | reader at capacity − 1000 and writer at 5; the header at the reader declares 1000 bytes and the one at offset 0 declares capacity − 1000 | the loop stops once the unread bytes run out; on this ring it takes the 1000-byte package and stops | not executed | ConnectorNode.NeverFinishes | ConnectorNode.SpinningCorrected |
| qubic-types/transacion-payloads/QubicTransferAssetPayload.cs:128 | `data.AsSpan(start, end)` passes the end offset as a length, so the second read asks for 64 bytes from offset 32 | any 80-byte input: it passes the size check, then the second span overruns and `Parse` throws | `AsSpan(start, end - start)`: 32, 32, 8 and 8 bytes, which undoes `GetPackageData` | not executed | TransferAsset.Parse | TransferAsset.ParseCorrectedData |
| qubic-types/QubicTickData.cs:214 | union byte 0 is set to `uri.Length`, the number of UTF-16 characters, while `GetProposalUri` reads that many bytes back | the URI "é": one character encoded as the two bytes C3 A9; byte 0 becomes 1 and the URI reads back as the single byte C3 | record the number of encoded bytes | not executed | TickData.ProposalUriTruncated | TickData.SetProposalUriBytes |
