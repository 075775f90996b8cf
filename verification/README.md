# ProofEngine: a verified model of its codec, bindings and small state machines

ProofEngine turns attestations into canonical CBOR, hashes and signs those bytes, and composes
the results. Every identifier and signature rests on one claim: a value has exactly one accepted
encoding. This project models the code that carries the claim and what is built on it.

**The codec** (`Bytes`, `Utf8`, `Utf8Chars`, `LimitSets`, `StableSort`, `Cbor*`). Values are the source's eight kinds, maps
are lists of entries as in the source. `Encode` writes shortest heads and sorts entries by encoded
key with a stable sort; `DecodeValue` is the strict decoder as a function on the remaining bytes,
with the same checks in the same order and the same error codes. The imperative forms in
`CborCodec` (an appending buffer, a cursor with `pos` and `depth`) are proved equal to those functions.
The theorems go through `Flat`, the encoding of a value in the entry order it has: encoding is
sorting and then `Flat`, `Flat` is prefix-free, the decoder is sound and complete for `Flat`. So the
set of accepted bytes is known exactly, and the round trips, canonicity and monotonicity follow.
`CborData` reads values as mathematical data with finite maps and shows that the encoding is a
canonical form for it.

**The Python codec** (`PyCbor`, `PyCodec`, `PyAgrees`). It checks shortest form only for integers,
then re-encodes and compares. It is proved to accept exactly what the strict decoder accepts among
values whose map keys are scalars, with the same value.

**What is built on the codec** (`ProofId`, `BindingContent`, `Base64Url`, `Spelling`, `Cose*`, `Claims`,
`Attestations`, `SignedContent`, `SigningLimits`, `StatusClaims`, `FieldText`). The pre-image of a proof
id determines every part it binds and nothing else, and decodes to those parts under their names; identifiers and key references have one spelling;
COSE_Sign1 assembly and parsing (sections 4.2 and 4.4 of RFC 9052) are exact inverses; the signed
bytes determine algorithm, key, domain and payload. Before signing, an attestation is encoded, decoded,
read through the schema and compared; it is proved which claims and contents pass, which of them the
status builders and the command line's field parser produce, and that under the default limits this
is decided by lengths, counts and names alone.

**Graphs, composition and state** (`Provenance`, `Supersedes`, `Compose`, `Divergence`, `Seen`, `Stores`).
The two cycle searches, the supersession check, the union of proofs with its divergence detector, the
replay gate and the two write-once stores. Each is a loop or an object with fields, proved against a
property that does not mention the loop.

Hashes, signature primitives and the base64 library are parameters: functions about which only the
stated facts are assumed, such as a digest of 32 bytes or a decoder that undoes the encoder. Binding
results are about the hashed or signed bytes, so no assumption about collisions is needed.

## Where code and comments disagree

The model follows the code. These lemmas record what the comments do not say.

- `Base64Url.SecondSpelling`: the hand-written base64url loop is described as canonical, yet one more `A` after
  whole blocks is accepted. `Base64Url.DecodeIff` is the exact set.
- `CborTheorems.NonNegativeNintDoesNotRoundTrip`: a `Nint` holding a number that is not negative, which only
  a debug assertion forbids, is written as an unsigned integer.
- `PyAgrees.ArrayKeyTellsThemApart`: an array as a map key is accepted by the strict decoder and rejected in Python.
- `ProofId.VocabularyOrderIff`: the pre-image depends on the order of vocabulary declarations exactly when one
  namespace is declared with two versions.
- `Compose.OrderDecidesAcceptance`: which inputs come first can decide whether a bad envelope is looked at;
  `Compose.EveryOrderAcceptedIff` says exactly when it does not.
- `FieldText.TypePairDoesNotSurvive`: the field parser's comment presents sorting as what makes a claim sign, yet a
  field named `type` never does. `FieldText.ParsedClaimSurvivesIff` is the exact condition.
- `Seen.UnambiguousIff`: the replay key is ambiguous exactly for ids with an inner `::` or a leading `:`.

## Model

| member | source | states |
|---|---|---|
| `LimitSets.Checked` | crates/proof-core/src/limits.rs:30-112 | A custom limit set passes exactly when each of the fifteen bounds is at least 1 and at most its compiled value; it comes back unchanged, otherwise the code is LIMIT_EXCEEDED |
| `Utf8Chars.ValidUtf8Iff` | crates/proof-format/src/cbor.rs:239-248 | Text is accepted exactly when its bytes are the encoding, by the arithmetic of section 3 of RFC 3629, of a sequence of Unicode scalar values |
| `Utf8Chars.OneText` | crates/proof-format/src/cbor.rs:239-248 | No bytes are the encoding of two texts |
| `CborHead.ReadArgOfHead` | crates/proof-format/src/cbor.rs:161-202 | Reading undoes writing: a head followed by anything gives back its major type, its argument and the rest |
| `CborHead.HeadOfReadArg` | crates/proof-format/src/cbor.rs:161-202 | Only the shortest head is accepted: what was read re-encodes to the bytes it was read from |
| `CborHead.HeadPrefixFree` | crates/proof-format/src/cbor.rs:44-62 | No head continues another |
| `CborHead.HeadIncreasing` | crates/proof-format/src/cbor.rs:44-62 | Within a major type a larger argument sorts later, whatever follows |
| `StableSort.SortIsStable` | crates/proof-format/src/cbor.rs:101-111 | The sort orders by key and keeps entries with equal keys in their order |
| `StableSort.SortEqualIff` | crates/proof-format/src/cbor.rs:101-111 | Two lists sort alike exactly when each key has the same items in the same order in both |
| `CborOrder.EncodeSortMaps` | crates/proof-format/src/cbor.rs:23-39 | Sorting all maps first leaves the encoding unchanged |
| `CborOrder.EncodeIsFlatOfSorted` | crates/proof-format/src/cbor.rs:65-129 | Encoding is sorting every map at every level and then writing entries as they stand |
| `CborOrder.SortMapsIdempotent` | crates/proof-format/src/cbor.rs:23-39 | Sorting twice is sorting once |
| `CborOrder.SortMapsOrdered` | crates/proof-format/src/cbor.rs:23-39 | A sorted value has strictly increasing keys at every level exactly when no map repeats an encoded key |
| `CborOrder.SortMapsFits` | crates/proof-format/src/cbor.rs:23-39 | Sorting changes nothing about limits |
| `CborPrefix.FlatPrefixFree` | crates/proof-format/src/cbor.rs:65-122 | Equal concatenations split alike: the values and what follows them are equal |
| `CborPrefix.EncodePrefixFree` | crates/proof-format/src/cbor.rs:65-129 | The encoding is prefix-free up to map order |
| `CborPrefix.EncodeEqualIff` | crates/proof-format/src/cbor.rs:23-129 | Two well-formed values encode alike exactly when their sorted forms are equal |
| `CborPrefix.MapsEncodeAlikeIff` | crates/proof-format/src/cbor.rs:101-117 | Two maps encode alike exactly when they hold the same entries, in any order |
| `CborPrefix.NodesWithinBytes` | crates/proof-format/src/cbor.rs:65-122 | A value has no more nodes than its encoding has bytes |
| `CborPrefix.InitialByte` | crates/proof-format/src/cbor.rs:65-122 | The first byte names the kind of item by the major types of RFC 8949; booleans and null are the bytes f4, f5 and f6 |
| `CborStrict.DecodeValueSound` | crates/proof-format/src/cbor.rs:205-309 | A decoded value re-encodes to exactly the bytes consumed, is well formed, has strictly increasing keys and obeys every limit at every level |
| `CborStrict.DecodeValueComplete` | crates/proof-format/src/cbor.rs:205-309 | Every such value decodes from its encoding, leaving what follows |
| `CborStrict.AscendingFromIff` | crates/proof-format/src/cbor.rs:270-287 | Comparing each key with the previous one is the same as all keys being in strictly increasing order |
| `CborTheorems.DecodeStrictIff` | crates/proof-format/src/cbor.rs:313-328 | Bytes decode to a value exactly when they are its encoding, within size, and the value is well formed, ordered and within limits |
| `CborTheorems.AcceptedBytesAreCanonical` | crates/proof-format/src/cbor.rs:331-344 | Accepted bytes re-encode to themselves, the canonicity test never answers no, and the re-encode branch is never taken: the property the fuzz target samples |
| `CborTheorems.RoundTripIff` | crates/proof-format/src/cbor.rs:125-328 | Decoding an encoding gives the sorted value exactly when `Nint`s are negative, no map repeats a key, and sizes, counts and nesting are within limits |
| `CborTheorems.RoundTripOrReject` | fuzz/fuzz_targets/cbor_decoder.rs:13-24 | An encoded well-formed value is either given back sorted or rejected, never altered |
| `CborTheorems.NonNegativeNintDoesNotRoundTrip` | crates/proof-format/src/cbor.rs:73-81 | A `Nint` that is not negative comes back as an unsigned integer |
| `CborTheorems.DecodeMonotoneInLimits` | crates/proof-format/src/cbor.rs:205-328 | What a limit set accepts, every looser set accepts with the same value |
| `CborTheorems.DecodeValueConsumes` | crates/proof-format/src/cbor.rs:205-309 | Decoding consumes at least one byte per node and depends on nothing after the item |
| `CborAmple.DecodesSomewhereIff` | crates/proof-format/src/cbor.rs:125-328 | Some limit set lets an encoded well-formed value decode exactly when no map repeats a key, and then to its sorted form |
| `CborCodec.Buffer.Extend` | crates/proof-format/src/cbor.rs:65-122 | The output buffer only grows at its end |
| `CborCodec.EncodeHead` | crates/proof-format/src/cbor.rs:44-62 | Appends the shortest head |
| `CborCodec.EncodeValue` | crates/proof-format/src/cbor.rs:65-122 | Appends the canonical encoding and touches nothing before it |
| `CborCodec.EncodeArray` | crates/proof-format/src/cbor.rs:95-100 | Appends a head with the item count and then the items' encodings in order |
| `CborCodec.EncodeMap` | crates/proof-format/src/cbor.rs:101-117 | Appends the entries by encoded key, stably |
| `CborCodec.EncodeCanonical` | crates/proof-format/src/cbor.rs:125-129 | Returns the encoding the theorems are about |
| `CborCodec.Decoder.Read` | crates/proof-format/src/cbor.rs:152-159 | Takes exactly `n` bytes or fails without moving; the cursor stays in the buffer |
| `CborCodec.Decoder.ReadArgument` | crates/proof-format/src/cbor.rs:161-202 | Reads an argument in shortest form, with the code of the first check that fails |
| `CborCodec.Decoder.DecodeNext` | crates/proof-format/src/cbor.rs:205-309 | The cursor decoder yields what the decoding function yields, moves forward, restores `depth`; remaining bytes bound the recursion |
| `CborCodec.Decoder.DecodeArrayItems` | crates/proof-format/src/cbor.rs:250-261 | The item loop decodes the announced number of items one level deeper |
| `CborCodec.Decoder.DecodeMapEntries` | crates/proof-format/src/cbor.rs:262-290 | The entry loop enforces strictly increasing keys against the previous key only |
| `CborCodec.DecodeBytes` | crates/proof-format/src/cbor.rs:313-328 | Decodes one item within the size bound and refuses trailing bytes |
| `CborData.SameDataSameValue` | crates/proof-format/src/cbor.rs:205-309 | Two decoder-shaped values that mean the same data are the same value |
| `CborData.SortMapsKeepsData` | crates/proof-format/src/cbor.rs:23-39 | Sorting does not change what a value means |
| `CborData.EncodingIsCanonicalForm` | crates/proof-format/src/cbor.rs:125-129 | Two values without repeated keys have equal encodings exactly when they mean the same data, maps being finite functions |
| `CborTextKeys.TextKeysByLength` | crates/proof-format/src/cbor.rs:101-111 | Text keys sort by length first and then bytewise |
| `CborTextKeys.TextKeysInjective` | crates/proof-format/src/cbor.rs:101-111 | Different names have different encoded keys |
| `PyCodec.RunDec` | interop/minicbor.py:24-88 | The position-passing decoder yields the decoding function's value and position, or raises with it |
| `PyCodec.RunDecList` | interop/minicbor.py:62-68 | The list loop returns the announced number of items in order and the position after the last, or raises |
| `PyCodec.RunDecPairs` | interop/minicbor.py:69-85 | The map loop returns the pairs in the order read, raising as soon as a key is not above the previous one |
| `PyCodec.RunEncAny` | interop/minicbor.py:144-152 | The recursive encoder agrees with the encoding function, raising on map keys and integers that have no encoding |
| `PyCodec.RunEncMap` | interop/minicbor.py:131-141 | Map entries come out by encoded key, and a repeated key raises |
| `PyCodec.RunCheckCanonical` | interop/pengine.py:209-217 | Returns a value only when its re-encoding is the input, byte for byte |
| `PyAgrees.EncAnyAgrees` | interop/minicbor.py:101-152 | On values with scalar keys, none repeated, the two encoders write the same bytes |
| `PyAgrees.DecComplete` | interop/minicbor.py:24-88 | Whatever the strict decoder accepts with scalar keys, the lenient one reads as the same value |
| `PyAgrees.DecSound` | interop/minicbor.py:24-88 | A value read leniently is within depth, has ordered keys and no more items than bytes |
| `PyAgrees.ValueOfEncAny` | interop/minicbor.py:101-152 | A decoded value that re-encodes at all is the image of a well-formed value |
| `PyAgrees.AcceptedByPython` | interop/pengine.py:209-217 | Bytes Python accepts are the canonical encoding of the value it returns |
| `PyAgrees.AcceptedByRust` | interop/pengine.py:209-217 | Bytes the strict decoder accepts with scalar keys, Python accepts with the same value |
| `PyAgrees.PythonAgreesWithRust` | interop/pengine.py:209-217 | Both accept the same bytes with the same value, for scalar keys and within the size limits |
| `PyAgrees.PythonIsRustWithScalarKeys` | interop/minicbor.py:155-165 | Python's verdict on any bytes is the strict verdict at depth 16 with array and map keys refused |
| `PyAgrees.ArrayKeyTellsThemApart` | interop/minicbor.py:101-128 | The restriction to scalar keys is needed |
| `ProofId.BuildEntries` | crates/proof-crypto/src/id.rs:115-181 | The pushes build the nine fields, the two optional ones only when not empty |
| `ProofId.BuildBinding` | crates/proof-crypto/src/id.rs:115-181 | The loop-built record has the pre-image the theorem is about |
| `ProofId.BindingEqualIff` | crates/proof-crypto/src/id.rs:115-181 | Pre-images are equal exactly when proposition up to map order, `created_at`, the four member multisets, the referenced multiset and the vocabularies agree; input order never matters |
| `BindingContent.BindingSays` | crates/proof-crypto/src/id.rs:115-181 | The hashed bytes, strictly decoded, hold under "attestations", "events", "evidence", "relationships" and "referenced_proofs" the ascending texts of exactly the matching list, with "created_at", the sorted "proposition", version 1 and each vocabulary's "ns" and "version"; an empty optional list has no key, and there is nothing else |
| `ProofId.SortedIdsEqualIff` | crates/proof-crypto/src/id.rs:125-129 | Sorted id lists are equal exactly when the multisets are |
| `ProofId.VocabulariesAreASet` | crates/proof-crypto/src/id.rs:155-174 | With distinct namespaces, vocabulary lists are bound as sets |
| `ProofId.VocabularyOrderIff` | crates/proof-crypto/src/id.rs:155-174 | No reordering of the vocabulary declarations changes the pre-image exactly when equal namespaces carry equal versions |
| `ProofId.RepeatedNamespaceBindsOrder` | crates/proof-crypto/src/id.rs:155-174 | An input for which order is bound: one namespace declared with two versions |
| `Base64Url.StepHolds` | crates/proof-adapter-scitt/src/statement.rs:146-162 | Between characters at most six bits are held and none above them, so the 32-bit accumulator never overflows and the cast to a byte loses nothing |
| `Base64Url.Push` | crates/proof-adapter-scitt/src/statement.rs:147-161 | A round adds six bits and emits a byte as soon as eight are held, so the loop below computes the digit-by-digit function |
| `Base64Url.RunDecode` | crates/proof-adapter-scitt/src/statement.rs:136-168 | The loop computes the decoding function |
| `Base64Url.DecodeIff` | crates/proof-adapter-scitt/src/statement.rs:136-168 | The loop returns `b` exactly for the unpadded encoding of `b`, or that and one `A` when the length is 1 modulo 4 |
| `Base64Url.DecodeEncode` | crates/proof-api/src/api.rs:65-95 | Decoding undoes encoding |
| `Base64Url.EncodeInjective` | crates/proof-api/src/api.rs:65-95 | Different bytes have different encodings |
| `Base64Url.SecondSpelling` | crates/proof-adapter-scitt/src/statement.rs:163-167 | Every whole number of blocks has a second accepted spelling |
| `Spelling.CanonicalIff` | crates/proof-crypto/src/id.rs:189-228 | Whatever else a base64 decoder accepts, the re-encode comparison leaves one spelling |
| `Spelling.VerifyIdIff` | crates/proof-crypto/src/id.rs:206-228 | An id verifies exactly when it is the string `id_with` produces |
| `Spelling.IdNamesOneDigest` | crates/proof-crypto/src/id.rs:206-228 | One id verifies two contents exactly when their digests are equal |
| `Spelling.ProofRefShapeIff` | crates/proof-crypto/src/id.rs:189-204 | Well-shaped proof references are the prefix and the encoding of 32 bytes |
| `Spelling.KeyRefsIff` | crates/proof-crypto/src/keys.rs:74-155 | Each 32-byte and each 64-byte key has exactly one accepted reference |
| `Spelling.LoopUndoesEncoder` | crates/proof-adapter-scitt/src/statement.rs:136-168 | The lenient loop meets what the spelling results ask of a decoder |
| `Cose.RunParseProtected` | crates/proof-crypto/src/cose.rs:170-213 | The header loop computes the parsing function |
| `Cose.RunParseSign1` | crates/proof-crypto/src/cose.rs:126-225 | The parser computes the parsing function, error code included |
| `CoseTheorems.HeaderLabelsPresent` | crates/proof-crypto/src/cose.rs:170-207 | After the header loop both labels are present: the two missing-header errors cannot occur |
| `CoseTheorems.ParseProtectedIff` | crates/proof-crypto/src/cose.rs:22-33 | A header parses to an algorithm and key id exactly when it is the header built from them, within limits, with a fitting key id |
| `CoseTheorems.ParseSign1Iff` | crates/proof-crypto/src/cose.rs:126-225 | Assembly and parsing are exact inverses |
| `CoseTheorems.ProtectedBytesInjective` | crates/proof-crypto/src/cose.rs:22-33 | The header determines algorithm and key id |
| `CoseTheorems.SigStructureInjective` | crates/proof-crypto/src/cose.rs:35-43 | The signed structure determines header, external data and payload |
| `CoseTheorems.ToBeSignedInjective` | crates/proof-crypto/src/cose.rs:22-43 | Through both encodings, the signed bytes are equal exactly for equal algorithm, key id, external data and payload |
| `CoseBytes.SigStructureBytes` | crates/proof-crypto/src/cose.rs:35-43 | The signed bytes are an array of four: the text `Signature1`, the protected header, the external data, the payload, in this order |
| `CoseBytes.HeaderBytes` | crates/proof-crypto/src/cose.rs:22-33 | The protected header is a map of two: label 1 with the algorithm, label 4 with the key id |
| `CoseBytes.Sign1Bytes` | crates/proof-crypto/src/cose.rs:73-79 | The envelope is an array of four: the protected header, an empty map, the payload, the signature, in this order |
| `CoseVerify.VerifySign1Iff` | crates/proof-crypto/src/cose.rs:245-338 | Acceptance means: assembled bytes within limits, one of four listed combinations of algorithm, policy and key length, the issuer being the one reference of the key id, and a yes from the primitive about exactly that tuple |
| `CoseVerify.DomainSeparation` | crates/proof-crypto/src/cose.rs:245-338 | A signature good for one message only is accepted for no other algorithm, key, domain or payload |
| `CoseVerify.SignedVerifies` | crates/proof-crypto/src/cose.rs:64-80 | What the signer makes is accepted under its key reference and domain |
| `Claims.RunReadClaim` | crates/proof-format/src/schema.rs:388-426 | The reader's loop, with its type, field list and set of names, computes the reading function |
| `Claims.ReadClaimIff` | crates/proof-format/src/schema.rs:394-426 | A claim map is read exactly when it has one to sixteen entries under different text names, one of them a type of 1 to 128 bytes, and every other value is a text of at most 1024 bytes, a number or a boolean; the fields are those entries in order |
| `Claims.SortedClaimFields` | crates/proof-format/src/schema.rs:322-426 | Reading the map in encoder order loses and invents no field, whatever order the list had |
| `Claims.ReadsBackIff` | crates/proof-format/src/schema.rs:322-426 | A claim has unrepeated names in its map and is read back unchanged exactly when its fields are in encoder order, at most fifteen, none named `type`, texts and type within their lengths |
| `Claims.SurvivesIff` | crates/proof-format/src/schema.rs:322-426 | A claim map survives encoding and strict decoding exactly under those conditions and the limits |
| `Claims.TypeFieldIsRefused` | crates/proof-format/src/schema.rs:322-329 | A field named `type` repeats the key of the claim type, and the decoder refuses the map under every limit set |
| `Attestations.AttestedReadsBackIff` | crates/proof-crypto/src/build.rs:96-103 | The encode, decode, read and compare inside `attest` gives the content back exactly when it is signable and within limits |
| `Attestations.AttestIff` | crates/proof-crypto/src/build.rs:85-112 | A content is signed exactly when its issuer is the signing key, version is 1, issuer and subject are 1 to 1024 bytes, it does not expire before it is issued, an evidence reference has its prefix, and the claim survives |
| `Attestations.SignedBytesNameOneContent` | crates/proof-crypto/src/build.rs:85-112 | Two signed contents have the same canonical bytes exactly when they are the same content |
| `SignedContent.SignedSays` | crates/proof-format/src/schema.rs:322-363 | The signed bytes, strictly decoded, hold version, issuer, subject, times, evidence reference and claim under their names, the claim its type and every field, and nothing else |
| `SigningLimits.ClaimSize` | crates/proof-core/src/limits.rs:30-51 | No claim that can survive is larger than 998829 bytes when names are within the field limit |
| `SigningLimits.WithinDefaultIff` | crates/proof-core/src/limits.rs:30-51 | A signable content is within the default limits exactly when its field names are |
| `SigningLimits.AttestDefaultIff` | crates/proof-crypto/src/build.rs:85-112 | Under the default limits what is signed is decided without encoding anything |
| `StatusClaims.TargetFields` | crates/proof-crypto/src/build.rs:151-163 | Revocation and withdrawal fields: empty target or reason refused, otherwise already in encoder order |
| `StatusClaims.SupersedeFields` | crates/proof-crypto/src/build.rs:191-208 | Supersession fields: two different non-empty ids, in encoder order |
| `StatusClaims.CompromiseFields` | crates/proof-crypto/src/build.rs:272-286 | Compromise fields, in encoder order: length first puts `at_time` last |
| `StatusClaims.StatusSignedIff` | crates/proof-crypto/src/build.rs:164-180 | A status object is signed exactly when subject and texts have proper lengths and the limits hold it; the default limits always do |
| `StatusClaims.TargetAttestation` | crates/proof-crypto/src/build.rs:144-180 | Revoking or withdrawing succeeds exactly for a target, and a reason if given, of 1 to 1024 bytes; the signed bytes decode to the kind, the signer, the target as subject and field, the reason and the issue time |
| `StatusClaims.SupersedeAttestation` | crates/proof-crypto/src/build.rs:184-218 | Superseding succeeds exactly for two different ids of 1 to 1024 bytes; the signed bytes decode to the old id as subject, both ids under their names and the issue time |
| `StatusClaims.CompromiseAttestation` | crates/proof-crypto/src/build.rs:264-302 | Marking a compromise succeeds exactly for a target, and a reason if given, of 1 to 1024 bytes; the signed bytes decode to target, reason, compromise time and issue time under their names |
| `FieldText.ParseFields` | crates/proof-cli/src/lib.rs:554-588 | The written pairs, stably sorted by encoded name, or a refusal when one does not parse |
| `FieldText.ParsedInOrderIff` | crates/proof-cli/src/lib.rs:579-586 | The sorted list is in encoder order exactly when no name is written twice |
| `FieldText.WrittenAreStrings` | crates/proof-cli/src/lib.rs:561-577 | Splitting UTF-8 text at the separators leaves names and values that are UTF-8 |
| `FieldText.ParsedClaimSurvivesIff` | crates/proof-cli/src/lib.rs:554-588 | What is written on the command line survives exactly when no name repeats, none is `type`, texts are at most 1024 bytes, there are at most fifteen pairs, the type is proper and the limits hold it |
| `FieldText.ParsedIsSignedIff` | crates/proof-cli/src/artifact.rs:283-295 | An attestation with parsed fields is signed under the default limits exactly when those conditions and the other parts allow it |
| `FieldText.TypePairDoesNotSurvive` | crates/proof-cli/src/lib.rs:547-553 | One pair naming `type` parses, is in order, and survives in no claim: sorting alone does not give a list that survives |
| `FieldText.SplitIff` | crates/proof-cli/src/lib.rs:561-561 | Splitting at commas gives exactly the comma-free parts whose joining is the text |
| `FieldText.ParseFieldIff` | crates/proof-cli/src/lib.rs:562-577 | A pair is accepted exactly when it is a non-empty name, the first `=` and a non-empty value |
| `FieldText.ParseU64Iff` | crates/proof-cli/src/lib.rs:572-573 | A value is read as a number exactly when it is a `u64` numeral with any leading zeros and an optional plus sign |
| `FieldText.FieldsReadBack` | crates/proof-cli/src/lib.rs:554-588 | Every list of writable fields, written and parsed, is read as the same list |
| `Provenance.BuildGraph` | crates/proof-graph/src/lib.rs:98-120 | The adjacency lists hold exactly the counted edges between members |
| `Provenance.PushChildren` | crates/proof-graph/src/lib.rs:141-153 | The inner loop pushes the unfinished successors or meets an open one |
| `Provenance.OpenTop` | crates/proof-graph/src/lib.rs:137-153 | Opening a node keeps the search invariant or exhibits a cycle |
| `Provenance.Explore` | crates/proof-graph/src/lib.rs:126-156 | One start node: everything it reaches is finished, or there is a cycle |
| `Provenance.AllFinishedIsAcyclic` | crates/proof-graph/src/lib.rs:126-158 | When all nodes are finished, the finishing order rules out every cycle |
| `Provenance.Search` | crates/proof-graph/src/lib.rs:121-158 | The three-colour search reports a cycle exactly when one exists, whatever the start order |
| `Provenance.CheckAcyclicProvenance` | crates/proof-graph/src/lib.rs:98-159 | Accepts exactly the graphs with no closed walk over member edges other than equivalences |
| `Provenance.CheckDerivationAcyclic` | crates/proof-graph/src/lib.rs:169-227 | The same with references ignored too |
| `Provenance.StricterWithFewerIgnored` | crates/proof-graph/src/lib.rs:86-97 | The opt-in profile is at least as strict as the default one |
| `Supersedes.Tally` | crates/proof-graph/src/lib.rs:384-394 | The tables count and list every link |
| `Supersedes.LinearIff` | crates/proof-graph/src/lib.rs:395-400 | Degrees of at most one mean exactly that no two links share a start or an end |
| `Supersedes.Roots` | crates/proof-graph/src/lib.rs:404-408 | The first stack holds the nodes nothing points to, each once |
| `Supersedes.Visit` | crates/proof-graph/src/lib.rs:409-436 | The loop visits all nodes exactly when there is no cycle, and then its maximum is the longest chain |
| `Supersedes.VisitedAll` | crates/proof-graph/src/lib.rs:409-436 | Distances rank the nodes: no cycle, and no longer chain than reported |
| `Supersedes.StuckLoops` | crates/proof-graph/src/lib.rs:434-436 | Nodes never visited contain a cycle |
| `Supersedes.CheckSupersedes` | crates/proof-graph/src/lib.rs:375-446 | Over the edges of type SUPERSEDES: no such edge gives 0; a schema violation exactly when two share a start or an end; a cycle error exactly when some closed chain exists otherwise; else the node count of the longest chain, or a limit error above the depth |
| `Compose.Merge` | crates/proof-cli/src/port.rs:206-262 | The first pass collects the members of the first input of each proof id, or stops at an envelope that does not verify |
| `Compose.AcceptedIff` | crates/proof-cli/src/port.rs:206-262 | A composition is accepted exactly when the first envelope under each content id verifies, and it keeps those envelopes |
| `Compose.MergedKeys` | crates/proof-cli/src/port.rs:206-262 | The merged attestation ids are the union of the inputs' |
| `Compose.FirstsHaveAllMembers` | crates/proof-cli/src/port.rs:206-262 | Skipping repeated proof ids loses no member when equal ids have equal members |
| `Compose.CompositionIgnoresOrder` | crates/proof-cli/src/port.rs:206-309 | Reordering or repeating inputs leaves the composite's id pre-image unchanged |
| `Compose.UnionGraph` | crates/proof-cli/src/port.rs:358-386 | The second pass collects every node id and each edge once |
| `Compose.SecondPassAgrees` | crates/proof-cli/src/port.rs:358-386 | Its node and edge ids are those merged in the first pass |
| `Compose.OrderDecidesAcceptance` | crates/proof-cli/src/port.rs:206-262 | Acceptance itself can depend on input order |
| `Compose.EveryOrderAcceptedIff` | crates/proof-cli/src/port.rs:206-262 | Every order and repetition of the inputs is accepted exactly when, in each input, the first envelope under each content id verifies |
| `Divergence.GroupByTopic` | crates/proof-cli/src/port.rs:268-298 | Every attestation is in the one group of its claim type and subject, once |
| `Divergence.GroupBase` | crates/proof-cli/src/port.rs:268-298 | The sorted group starts with the least id of its topic |
| `Divergence.ScanGroup` | crates/proof-cli/src/port.rs:268-298 | One group reports exactly its members that differ from the least-id one |
| `Divergence.DetectDivergence` | crates/proof-cli/src/port.rs:268-298 | The linear detector reports exactly the members that disagree with the least-id member, each once, and nothing exactly when no two members disagree, whatever the map order |
| `Divergence.NothingReportedIff` | crates/proof-cli/src/port.rs:268-298 | Comparing with one member sees every pairwise disagreement |
| `Seen.SeenStore.Gate` | crates/proof-cli/src/seen.rs:93-122 | An unreadable store is an error and stays as it is; only a new pair to be recorded is added |
| `Seen.KeyInjective` | crates/proof-cli/src/seen.rs:66-68 | For ids without `::` inside or `:` in front, the key tells pairs apart |
| `Seen.UnambiguousIff` | crates/proof-cli/src/seen.rs:66-68 | Exactly the other ids share a key with a pair of a longer context |
| `Seen.ProofIdsAreUnambiguous` | crates/proof-cli/src/seen.rs:66-68 | Well-shaped proof ids are of the first kind |
| `Seen.ReplayIff` | crates/proof-cli/src/seen.rs:93-122 | Over any sequence of calls, a replay is reported exactly when the pair was there at the start or recorded by an earlier call |
| `Seen.RecordedOnce` | crates/proof-cli/src/seen.rs:93-122 | After a pair was to be recorded, every later call for it reports a replay |
| `Seen.BrokenStaysBroken` | crates/proof-cli/src/seen.rs:70-89 | A store that does not parse never answers and is never overwritten |
| `Stores.MemoryStore.DoPut` | crates/proof-format/src/store.rs:70-95 | Refuses empty ids, empty or oversized bytes and different bytes under a known id; otherwise binds the id |
| `Stores.MemoryStore.DoGet` | crates/proof-format/src/store.rs:97-99 | Returns what the id is bound to, for any id |
| `Stores.FileStore.DoPut` | crates/proof-cli/src/store.rs:23-52 | Refuses empty bytes, unsafe ids and different bytes under a known id; otherwise the file exists with the bytes |
| `Stores.FileStore.DoGet` | crates/proof-cli/src/store.rs:54-61 | Returns the file's bytes; an unsafe id is an error |
| `Stores.SafeIdIff` | crates/proof-cli/src/store.rs:23-28 | The path check accepts exactly the non-empty ids without two dots in a row whose file name is a single path component, so the file lies directly in the directory |
| `Stores.FirstPutWins` | crates/proof-format/src/store.rs:69-100 | After any history an id holds the bytes of the first put the store considered, and never others |
| `Stores.AnswersByHistory` | crates/proof-format/src/store.rs:69-100 | Every answer follows from that first put: the same bytes are accepted again, others refused, a get returns them |
| `Stores.FirstFileWins` | crates/proof-cli/src/store.rs:36-52 | After any history a safe id's file holds what it held at the start, or the bytes of the first put the directory considered |
| `Stores.FileAnswersByHistory` | crates/proof-cli/src/store.rs:23-62 | Every answer of the directory follows from that first put; an unsafe id is always refused |
| `Stores.FilesKeepTheirBytes` | crates/proof-cli/src/store.rs:36-52 | Files present at the start keep their bytes, also under names no safe id has |
| `Stores.StoresAgree` | crates/proof-cli/src/store.rs:23-62 | From matching states, on safe ids and bytes within the cap, the two stores answer alike at every step of every history |
| `Stores.StoresAgreeIff` | crates/proof-cli/src/store.rs:23-62 | That is the exact set of operations on which they always answer alike |

## Left out

- `sort_maps` and the key sort in the encoder work in place; here sorting is a function on lists (the stable sort of the standard library), so update in place is not captured.
- UTF-8 validity is a byte automaton shared by both codecs and proved to be UTF-8; that the two languages' libraries implement it is not shown.
- Lengths are `u64` heads in the model; that a `usize` conversion failing on a narrow platform gives the same limit error is not modelled separately.
- `PyCodec.RunEncMap`: does not model that Python encodes values after sorting the keys, or that sorting tuples with equal keys compares the values; both only decide between two ways of raising.
- Python exceptions other than the codec's own (a missing table entry, an attribute error on a list key) are one outcome, raised.
- `Compose.Merge`: events, evidence and relationships are represented by their content ids, and verifying an envelope is a parameter.
- `Seen.SeenStore.Gate`: does not model a failing write or two processes on one store; the JSON text of the store is a set, or unreadable.
- `Stores.FileStore.DoPut`: does not model I/O errors, or file systems that identify different names.
- `Supersedes.CheckSupersedes`: does not model the three internal-invariant errors, which the tables rule out.
- SHA-256, Ed25519, P-256 and the base64 library: parameters.
- `Attestations.AttestIff`: `attest` is modelled up to the canonical bytes; the id and the signature made from them are not part of it.
- The command line's extra checks on an `evidence_digest` claim field are not modelled.
- The lower-case hex decoder of the SCITT statement (an even number of digits `0-9a-f`, two to a byte) is not modelled.
- The TypeScript codec: same design on a smaller integer range.
- Schema conversions other than attestations, the rest of graph validation (endpoint resolution, grounding, id shapes), the verification pipeline, policy evaluation, lifecycle stages.
- HTTP server, command line, file formats around artifacts, SCITT mapping, tools and vector generators.
- Limits other than those the codec enforces are only checked for their bounds.
