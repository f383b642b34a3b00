# A verified model of a COSE message layer

This project models the COSE_Sign1 and COSE_Encrypt0 layer of the crate `aws-nitro-enclaves-cose` and
proves properties of it with Dafny 4.11. Verify everything with `dafny verify dfyconfig.toml`.

## What is modelled

* **Wire format** (`CborSyntax`, `CborValues`, `CborOrder`, `CborCodec`, `EncodingOrder`,
  `ReferenceEncoder`, `Utf8Scalars`, `HeadWidths`). The crate
  leaves CBOR to `serde_cbor`, whose source is not part of this model; the codec is written from
  sections 2.1 to 2.4 of RFC 7049. Decoding goes through a concrete syntax tree (`Item`) that keeps
  head widths and entry order, so bytes and trees correspond one to one; encoding takes a value to the
  tree with narrowest heads and sorted entries. A `BTreeMap` is a list of entries in strict key order.
  The order itself belongs to `serde_cbor`: the model compares major type, then argument, then contents,
  and `EncodingOrder.LessIsBytewise` shows that this is the bytewise order of RFC 8949 section 4.2.1. The
  encoder refines a direct one (`ReferenceEncoder`), the text check the UTF-8 forms of Unicode scalar
  values (`Utf8Scalars`), and `HeadWidths` says what becomes of items that the encoder does not write.
* **Header maps** (`HeaderMaps`): the mutable map, the decoder that refuses duplicate keys, and the
  empty-or-serialized form.
* **Signing** (`Sign`, `SignVerify`) and **encryption** (`Encrypt`): Sig_structure, Enc_structure, both
  documents, creation, reading, verification and decryption. `Reading` states from the syntax of the bytes
  alone which strings are read and as which documents. `Serde` holds the streaming serializer and
  the sequence access that the hand-written implementations use.
* **Keys** (`Crypto`, `OpensslPkey`, `Kms`) with the fixed-width packing of ECDSA signatures.
* **Whole runs** (`SigningRuns`, `EncryptionRuns`): any interleaving of creating, serializing, replacing
  by arbitrary bytes, reading and opening, under any number of keys.
* **Whole paths** (`EndToEnd`) with OpenSSL and KMS keys, the inputs on which reading succeeds and the next
  step panics (`ShortInputs`), and the bytes and parameters that the crate's own tests pin (`Vectors`).

Conventions. Hash, signature, cipher and random generator are function values; what is assumed of them is
a named predicate in the `requires` of the lemma that needs it (`KeyPair`, `EcdsaCorrect`,
`ServiceCorrect`, `AeadCorrect`, `InjectiveHash`). The ideal-log assumption of the runs is the `Enabled`
predicate: a key accepts a digest, and a cipher opens a combination of key, IV, additional data, ciphertext
and tag, only if it produced it earlier in the run. It speaks of the answers of the key and of the cipher,
not of the crate's operations around them: that these release nothing else is derived, as are payloads,
protected bytes and headers. The two `WhatCanHappen` lemmas show that nothing else is excluded, and
the two `HonestRun` lemmas that honest runs are among those considered and do release.
`SigningRuns.IdealWorldExists`, `EncryptionRuns.IdealCipherExists`, `OpensslPkey.EcdsaExists` and
`Kms.CorrectKeyExists` show that the assumptions on the primitives can be met. Lemmas named `...Outcome` give
the exact result of an operation on all inputs, every error included, with the labels and sizes of RFC 8152
written out. A failing
`split_at`, length subtraction or `assert!` of the crate is the outcome `Panic`, not a precondition. All
decoding and encoding errors are the one `SerializationError`. Where the source changes things in place
(header map insertion, signature buffer, IV and tag buffers, serializer and visitor) the model has classes,
arrays and methods, each proved equal to a function about which the lemmas speak.

## What the code does that one might not expect

* The documentation of `new_with_protected` says that it sets the algorithm in the protected header; the
  code does not. `SignVerify.VerifyAfterSign` gives the exact consequence: what is made with a header
  without the key's algorithm never verifies.
* An empty protected map is written as a zero-length byte string, as RFC 8152 section 3 asks, but the
  readers demand a CBOR map: `SignVerify.EmptyProtectedUnreadable` shows that such documents, and only
  such documents, cannot be read back.
* `decrypt` casts the algorithm value to `i8`, so 257 selects AES-128-GCM: `Encrypt.AlgorithmSelection`.
  The value still enters the additional data in full, so nothing opens under another value than the one
  written: `EncryptionRuns.RunSafety`.
* `decrypt` panics on a ciphertext shorter than a tag, and `verify_signature` and both getters on a
  signature shorter than the key length. The exact conditions are `Encrypt.DecryptPanics`,
  `ShortInputs.OpensslVerifyPanics` and `ShortInputs.KmsVerifyPanics`; that reading accepts such documents is
  `ShortInputs.EmptySignatureAccepted` and `ShortInputs.EmptyCiphertextAccepted`.
* `decrypt` authenticates the re-encoding of the protected header, `verify_signature` the received bytes:
  `Encrypt.DecryptNormalises`, `SignVerify.StructDigestInjective`.

## Model

| member | source | states |
|---|---|---|
| CborSyntax.ParseEmit | src/header_map.rs:38-40 | Reading what was written gives the same item and exactly the bytes that followed, for every valid item and every suffix. |
| CborSyntax.EmitParse | src/sign.rs:325-327 | On every byte string, reading fails or yields a valid item whose bytes, with the rest, are the input; the rest is shorter, so nested reading terminates. |
| CborSyntax.PrefixFree | src/sign.rs:314-321 | No encoding is a proper prefix of another. |
| CborSyntax.ReadEmitHead | src/sign.rs:706-709 | A head of any width is read back as its major type, width and argument. |
| CborSyntax.EmitReadHead | src/sign.rs:706-709 | Every head that is read is one that the item determines, byte for byte. |
| ReferenceEncoder.HeadForms | src/sign.rs:706-709 | The bytes of a head of each width: initial byte, then the argument, most significant byte first. |
| ReferenceEncoder.ShortestHead | src/sign.rs:314-322 | The heads written are the shortest that hold their arguments, with the byte ranges of RFC 7049 section 2.1. |
| ReferenceEncoder.ToVecIsReference | src/sign.rs:314-322 | On every value, `to_vec` is the direct encoder of RFC 7049, or an error on what has no encoding. |
| Utf8Scalars.ValidUtf8Exactly | src/header_map.rs:38-40 | Text is accepted exactly when it is the UTF-8 form of a sequence of Unicode scalar values. |
| HeadWidths.WidthsIrrelevant | src/header_map.rs:38-40 | Wider heads, at any level, change neither acceptance nor the decoded value. |
| HeadWidths.HeaderWidthsIrrelevant | src/header_map.rs:38-40 | Header maps that differ in head widths only are read alike. |
| HeadWidths.DecodedMap | src/header_map.rs:10-13 | A nested map decodes to the sorted entries of the finite map that its pairs give in turn; the last pair with a key decides. |
| CborValues.ItemOfShape | src/header_map.rs:10-13 | Decoding the item of any value gives the value back, including sorted maps at every level. |
| CborOrder.LessIsStrictTotalOrder | src/header_map.rs:10-13 | The key order is irreflexive, asymmetric, total and transitive on all values a map can hold, encodable or not. |
| EncodingOrder.LessIsBytewise | src/header_map.rs:10-13 | On encodable keys that order is the bytewise order of their encodings. |
| CborOrder.InsertIsUpdate | src/header_map.rs:23-25 | Insertion keeps the entries strictly sorted and updates the finite map at one key only. |
| CborOrder.OrderedExtensional | src/header_map.rs:10-13 | Sorted entries are determined by the finite map they stand for. |
| CborOrder.CollectIsFinalMap | src/header_map.rs:23-25 | Inserting any sequence of pairs refines the same sequence of finite-map updates. |
| CborCodec.EncodableRange | src/sign.rs:314-322 | Serialization succeeds exactly for integers from -2^64 to 2^64 - 1 and lengths and tags below 2^64, at every level. |
| CborCodec.DecodeEncode | src/header_map.rs:38-49 | Decode after encode is the identity on encodable values, whatever follows. |
| CborCodec.EncodeInjective | src/sign.rs:96-98 | Different values have different encodings. |
| CborCodec.ValueOfProper | src/header_map.rs:38-40 | Whatever is decoded has sorted maps and UTF-8 text at every level. |
| CborCodec.DecodedEncodable | src/encrypt.rs:301-302 | Whatever was decoded can be encoded again. |
| CborCodec.NormalNotLonger | src/encrypt.rs:301-302 | Re-encoding a decoded item is never longer than the item. |
| CborCodec.NormalIffCanonical | src/encrypt.rs:301-302 | Re-encoding gives the item back exactly when its heads are narrowest and its map keys strictly increase. |
| CborCodec.Reencoding | src/encrypt.rs:279-305 | On bytes: re-encoding succeeds, is no longer, is stable, decodes alike, and is the identity exactly on canonical input. |
| HeaderMaps.HeaderMap.Insert | src/header_map.rs:23-25 | Returns the previous value of the key and updates the map at that key, keeping it sorted. |
| HeaderMaps.HeaderMap.Get | src/header_map.rs:28-30 | The value of a key in the finite map the object stands for, if any. |
| HeaderMaps.HeaderMap.IsEmpty | src/header_map.rs:33-35 | True exactly when the finite map is empty. |
| HeaderMaps.InsertionsLookup | src/header_map.rs:17-35 | After any insertions a key has the value inserted for it last; the map is empty only if nothing was inserted. |
| HeaderMaps.InsertionOrderIrrelevant | src/header_map.rs:43-49 | Insertion sequences with the same final mapping serialize to the same bytes. |
| HeaderMaps.HeaderDecoding | src/header_map.rs:10-13 | An item is accepted exactly when it is a map whose decoded keys all differ, whatever the head widths; the result has exactly the decoded pairs. |
| HeaderMaps.EntryOrderIrrelevant | src/header_map.rs:38-49 | Permuting the entries changes neither acceptance nor the decoded map, hence not its re-encoding. |
| HeaderMaps.HeaderRoundTrip | src/header_map.rs:38-49 | A non-empty header survives serialization exactly; the empty one becomes the empty string, which is refused. |
| HeaderMaps.HeaderNormalForm | src/encrypt.rs:279-302 | The re-encoded protected header: never longer, stable, and the received bytes exactly when these are canonical and non-empty. |
| Serde.SeqSerializer.SerializeElement | src/sign.rs:189-194 | Appends one element to the stream, or fails exactly on values without encoding. |
| Serde.SeqSerializer.End | src/sign.rs:189-194 | The streamed bytes are the encoding of the array of the elements written. |
| Sign.Serialize | src/sign.rs:184-196 | The element-wise serializer produces the encoding of the four fields in order. |
| Sign.VisitSeq | src/sign.rs:215-244 | The visitor reads exactly four elements of the right kinds; fewer, more or others are refused. Byte strings are the only form of a byte field. |
| Reading.Sign1Reading | src/sign.rs:215-354 | Both readers on every byte string: which are accepted, with which four fields, and which error otherwise, from the kinds of the elements and the outermost tag. |
| Reading.Encrypt0Reading | src/encrypt.rs:348-360 | The same for COSE_Encrypt0: three elements, tag 16 or none. |
| Reading.WideSign1 | src/sign.rs:215-244 | A document under heads of any width is read with the same four fields. |
| Reading.WideTag | src/sign.rs:325-354 | Tag 18 is recognised under a head of any width. |
| Reading.ForeignTag | src/sign.rs:325-354 | Every document under any other tag is refused with that tag, by both readers. |
| Reading.NestedTags | src/sign.rs:246-253 | Tags between the outermost one and the array are stepped over in COSE_Sign1 and refused in COSE_Encrypt0. |
| Sign.StructureLayout | src/sign.rs:55-98 | The bytes of every Sig_structure, in the four- and in the five-element form. |
| Sign.CborPayload | src/sign.rs:87-92 | A CBOR payload is signed as its encoding; exactly those without encoding fail. |
| Sign.SigStructureLayout | src/sign.rs:75-98 | The bytes to be signed: array of 4, context "Signature1", protected bytes, empty external data, payload. |
| Sign.SigStructureInjective | src/sign.rs:55-98 | The canonical stream determines every field, also between the four- and the five-element form. |
| Sign.Sign1StreamEncodes | src/sign.rs:75-98 | The canonical stream exists exactly for protected bytes and payloads shorter than 2^64. |
| Sign.Sign1StreamInjective | src/sign.rs:75-98 | Equal streams have equal protected bytes and equal payloads. |
| Sign.Sign1CborValueInjective | src/sign.rs:87-92 | Equal streams over CBOR payloads have equal payload values. |
| Sign.Sign1Layout | src/sign.rs:314-322 | The bytes of a document: tag 18 if asked for, array of 4, the fields in order. |
| Sign.SerializesWhen | src/sign.rs:314-322 | A document serializes exactly when its unprotected map is encodable and its byte strings are shorter than 2^64. |
| Sign.WireRoundTrip | src/sign.rs:314-354 | Every serialized document reads back as itself, tagged or not, if its protected bytes are a header map and otherwise is refused; the tagged reader refuses the untagged form. |
| Sign.AcceptedIsStable | src/sign.rs:325-337 | Every accepted byte string yields a document that can be written again and reads back as itself. |
| Sign.TagDiscipline | src/sign.rs:325-354 | On every byte string: tagged reading is reading plus tag 18 in front, with the same document; tag errors name the outer tag. |
| SignVerify.New | src/sign.rs:263-274 | Creation with a fresh protected map holding the key's algorithm. |
| SignVerify.CreationSucceedsWhen | src/sign.rs:279-310 | Creation succeeds exactly when the key has parameters, the header is empty or encodable, the lengths fit, the hash works and the key signs. |
| SignVerify.CreationOutcome | src/sign.rs:279-310 | The exact outcome of creation for all inputs: the first error, passed on, or all four fields. |
| SignVerify.DigestOutcome | src/sign.rs:395-409 | What is hashed, byte for byte, over the protected bytes as they are, and every error. |
| SignVerify.VerifyOutcome | src/sign.rs:358-412 | The exact outcome of verification on every document: the key's verdict or error passed on unchanged, and every earlier error. |
| SignVerify.GetterOutcome | src/sign.rs:418-441 | The exact outcome of both getters on every document, with and without a key. |
| SignVerify.KeylessGetters | src/sign.rs:325-441 | Without a key, what was serialized and read gives back its payload and protected map; otherwise the exact errors. |
| SignVerify.UnprotectedIrrelevant | src/sign.rs:358-441 | Verification and both getters depend only on protected bytes, payload and signature. |
| SignVerify.ReleasedOnlyIfVerified | src/sign.rs:418-441 | With a key, data is released exactly when verification says true. |
| SignVerify.VerifiedMeans | src/sign.rs:358-412 | A true verdict is the key's, over the digest of this document's own bytes, under the key's algorithm. |
| SignVerify.StructDigestInjective | src/sign.rs:401-409 | With an injective hash the digest determines payload and raw protected bytes. |
| SignVerify.VerifyAfterSign | src/sign.rs:279-310 | The exact verdict on any freshly made document, as a function of its protected map. |
| SignVerify.EmptyProtectedUnreadable | src/sign.rs:288-337 | A made document reads back as itself exactly when its protected map is not empty. |
| SignVerify.EndToEndSigning | src/sign.rs:279-428 | Sign, serialize, read, verify: the receiver gets the original payload, protected map and unprotected map. |
| Crypto.HeaderFromAlgorithm | src/crypto/mod.rs:222-231 | The header map holding just the algorithm identifier. |
| Crypto.AlgorithmIdPath | src/sign.rs:379-393 | Any encodable integer in the algorithm parameter, so every `i8`, is written, read and compared exactly. |
| Crypto.MergeEcSignature | src/crypto/mod.rs:137-154 | The in-place fill yields I2OSP of both integers, for all parts within the key length. |
| Crypto.MergedRoundTrip | src/crypto/openssl_pkey.rs:83-89 | Splitting at the key length and reading big-endian recovers both integers. |
| Crypto.PackingOutcome | src/crypto/mod.rs:137-154 | Packing two integers gives I2OSP of both, or fails an assertion exactly when one does not fit. |
| Crypto.SplitIsUnpacking | src/crypto/openssl_pkey.rs:83-89 | Every signature of at least n bytes packs exactly one pair of integers, the one that is read. |
| Crypto.MergeIgnoresLeadingZeros | src/crypto/mod.rs:142-151 | Leading zeros within the width change nothing. |
| Crypto.PackingNeverAsserts | src/crypto/mod.rs:174-184 | For each curve of b bits and all integers below 2^b the assertions hold; the key length is b/8 rounded up. |
| Crypto.KeyLengthIsLeast | src/crypto/mod.rs:174-184 | The largest integer below 2^b needs the whole key length; one byte less would fail the assertion. |
| OpensslPkey.VerifyReadsIntegers | src/crypto/openssl_pkey.rs:83-95 | Verification panics exactly on short signatures and does not see extra zeros before S. |
| OpensslPkey.KeyOutcome | src/crypto/openssl_pkey.rs:17-72 | Which keys are supported, with what algorithm, digest and length; all others are unsupported. |
| OpensslPkey.VerifyOutcome | src/crypto/openssl_pkey.rs:74-95 | On every signature: the verdict of ECDSA on the two integers it packs, or the exact error or panic. |
| OpensslPkey.VerifyAsksEcdsa | src/crypto/openssl_pkey.rs:83-95 | For all integers, verifying their packing is asking ECDSA about just these. |
| OpensslPkey.SignOutcome | src/crypto/openssl_pkey.rs:111-134 | Signing gives I2OSP of the integers of ECDSA, or the exact error or panic. |
| OpensslPkey.SignThenVerify | src/crypto/openssl_pkey.rs:111-134 | Signing never asserts, yields twice the key length, and the public key accepts the result. |
| OpensslPkey.PkeysAreKeyPair | src/crypto/openssl_pkey.rs:74-134 | OpenSSL keys meet the assumption the COSE layer makes of a key pair. |
| Kms.Sign | src/crypto/kms.rs:204-252 | The inlined padding gives what the merge gives, failing assertions included. |
| Kms.PublicKeyParameters | src/crypto/kms.rs:65-107 | A key made with a public key has exactly that public key's algorithm, digest and split length. |
| Kms.ConstructorOutcome | src/crypto/kms.rs:40-126 | What the two constructors make, and which public keys they refuse. |
| Kms.VerifyOutcome | src/crypto/kms.rs:143-189 | The local key, or the service on the two integers that the signature packs: verdict or error passed on, or the panic. |
| Kms.VerifyAsksService | src/crypto/kms.rs:152-188 | For all integers, remote verification of their packing is the service's answer about just these. |
| Kms.SignOutcome | src/crypto/kms.rs:204-252 | The integers of the service in fixed width, its error, or the panic. |
| Kms.SignThenVerify | src/crypto/kms.rs:143-252 | A KMS signature never asserts, has twice the key length and is accepted, remotely or locally. |
| Kms.KmsIsKeyPair | src/crypto/kms.rs:143-252 | KMS keys meet the assumption the COSE layer makes of a key pair. |
| EndToEnd.OpensslEndToEnd | src/sign.rs:263-310 | `new` with an OpenSSL key: no panic, signature length, and the receiver gets the payload. |
| EndToEnd.KmsEndToEnd | src/crypto/kms.rs:123-252 | The same with a KMS key: no panic, signature length, and the receiver gets the payload. |
| EndToEnd.OpensslVerified | src/sign.rs:358-412 | A true verdict under an OpenSSL key is exactly the algorithm in the header and ECDSA accepting the packed integers on this document's digest. |
| EndToEnd.KmsVerified | src/crypto/kms.rs:118-189 | The same for a KMS key: the local key or the service accepts the packed integers. |
| EndToEnd.OpensslCreated | src/crypto/openssl_pkey.rs:111-134 | A document created with an OpenSSL key carries I2OSP of the integers of ECDSA for its own digest; every error and the panic exactly. |
| EndToEnd.KmsCreated | src/crypto/kms.rs:204-252 | The same with a KMS key. |
| ShortInputs.VerifyPanicsWithKey | src/sign.rs:358-441 | For any key: verification and both getters panic exactly when verification reaches the key and the key panics. |
| ShortInputs.OpensslVerifyPanics | src/sign.rs:358-441 | With an OpenSSL key: exactly when the key is reached and the signature is shorter than the key length. |
| ShortInputs.KmsVerifyPanics | src/crypto/kms.rs:143-160 | The same exact condition with a KMS key, verifying remotely or locally. |
| ShortInputs.EmptySignatureAccepted | src/sign.rs:325-337 | For every payload and key, a document with an empty signature is written and read, and verifying it panics. |
| ShortInputs.EmptyCiphertextAccepted | src/encrypt.rs:316-360 | For every algorithm and IV, a document with an empty ciphertext is written and read, and decrypting it panics. |
| Encrypt.AlgorithmSelection | src/encrypt.rs:282-299 | The selected algorithm depends only on the header value modulo 256, and inverts the value written. |
| Encrypt.EncStructureLayout | src/encrypt.rs:132-158 | The additional data: array of 3, context "Encrypt0", protected bytes, empty external data. |
| Encrypt.EncStructureInjective | src/encrypt.rs:132-158 | The additional data determines the protected bytes. |
| Encrypt.SigIsNotEnc | src/encrypt.rs:132-158 | No stream is both a Sig_structure and an Enc_structure. |
| Encrypt.SerializeThree | src/encrypt.rs:206-217 | The element-wise serializer of three fields produces the encoding of their array. |
| Encrypt.Encrypt0Layout | src/encrypt.rs:337-345 | The bytes of a document: tag 16 if asked for, array of 3, the fields in order. |
| Encrypt.SerializesWhen | src/encrypt.rs:337-345 | A document serializes exactly when its unprotected map is encodable and its byte strings are shorter than 2^64. |
| Encrypt.WireRoundTrip | src/encrypt.rs:337-360 | Every serialized document reads back as itself if its protected bytes are a header map, and otherwise is refused. |
| Encrypt.AcceptedIsStable | src/encrypt.rs:348-360 | Every accepted byte string yields a document that can be written again and reads back as itself. |
| Encrypt.TagDiscipline | src/encrypt.rs:348-360 | On every byte string: accepted untagged or under tag 16 only, and tag errors name the outer tag. |
| Encrypt.ForeignTag | src/encrypt.rs:348-360 | Every document under any other tag is refused with that tag. |
| Encrypt.NotBothSign1AndEncrypt0 | src/encrypt.rs:348-360 | No byte string is accepted both as COSE_Sign1 and as COSE_Encrypt0. |
| Encrypt.New | src/encrypt.rs:222-270 | The in-place creation (IV buffer, two maps, tag buffer, append) equals its specification. |
| Encrypt.NewOutcome | src/encrypt.rs:227-264 | The exact outcome: unsupported key length, else what the generator reports, else a failing cipher on these inputs, else success. |
| Encrypt.CreatedDocument | src/encrypt.rs:222-270 | The exact document made: {1: algorithm}, {5: IV} with the 12 generated bytes, and the cipher's output on exactly this additional data with the 16-byte tag. |
| Encrypt.CreatedBytes | src/encrypt.rs:222-345 | The exact bytes of a created document, tagged or not. |
| Encrypt.DecryptOutcome | src/encrypt.rs:275-332 | The exact outcome of decryption on every document: every error in its place, the panic, and otherwise just what the cipher answers for these inputs. |
| Encrypt.DecryptPanics | src/encrypt.rs:275-320 | The exact condition under which decryption panics. |
| Encrypt.DecryptSeesDecodedHeader | src/encrypt.rs:279-305 | Protected bytes that decode alike decrypt alike. |
| Encrypt.DecryptNormalises | src/encrypt.rs:279-305 | The additional data is built from the normal form; it is the received bytes exactly when these are canonical. |
| Encrypt.EndToEndEncryption | src/encrypt.rs:222-360 | Encrypt, serialize, read, decrypt: the payload, the algorithm of the key's length and a 12-byte IV. |
| SigningRuns.StepKeepsInvariant | src/sign.rs:263-441 | Every step keeps: logged digests come from signed messages and released messages were signed. |
| SigningRuns.RunSafety | src/sign.rs:358-441 | In every run, whatever is opened under a key is the payload of a document created under it earlier, with the very same protected bytes. |
| SigningRuns.HonestRun | src/sign.rs:263-441 | Signing, sending, receiving and opening is a valid run that releases the payload. |
| SigningRuns.StateIsHistory | src/sign.rs:263-441 | Wire, documents, signed digests and messages and released messages of a run are exactly what its events did. |
| SigningRuns.WhatCanHappen | src/sign.rs:263-441 | The exact ways a run can continue: anything can be signed, injected, received, serialized and opened, unless a key accepts a digest never signed under it. |
| EncryptionRuns.SameCallSamePayload | src/encrypt.rs:315-328 | By the inverse law, equal cipher calls yield the payload that was encrypted. |
| EncryptionRuns.SameCallSameContent | src/encrypt.rs:279-330 | Equal cipher calls come from equal headers, IVs and ciphertexts, in spite of the truncated algorithm value. |
| EncryptionRuns.RunSafety | src/encrypt.rs:222-330 | In every run, whatever is opened under a key was encrypted under it earlier, with the same header, IV and ciphertext. |
| EncryptionRuns.HonestRun | src/encrypt.rs:222-360 | Encrypting, sending, receiving and opening is a valid run that releases the payload. |
| EncryptionRuns.ReleasedIsAnswer | src/encrypt.rs:315-332 | Whatever decryption releases is the cipher's own answer. |
| EncryptionRuns.StateIsHistory | src/encrypt.rs:222-360 | Wire, documents and cipher log of a run are exactly what its events did. |
| EncryptionRuns.WhatCanHappen | src/encrypt.rs:222-360 | The exact ways a run can continue: anything can be encrypted, injected, received, serialized and opened, unless the cipher opens what it never produced. |
| Vectors.AlgorithmHeaderBytes | src/sign.rs:462-485 | The pinned bytes of the three algorithm headers and of the empty map. |
| Vectors.DuplicateKeys | src/sign.rs:488-511 | The pinned two-entry map is accepted; the two pinned three-entry maps with a repeated key are refused. |
| Vectors.WiderDuplicateKey | src/header_map.rs:10-13 | A repeated key is refused also when its head has another width. |
| Vectors.TagBytes | src/sign.rs:706-709 | The one-byte and the three-byte form of tag 18, and tag 19. |
| Vectors.TestDocument | src/sign.rs:706-733 | The pinned ES256 document, with three-byte tag head, is read with its fields, for every payload and signature of these lengths. |
| Vectors.CurveTable | src/crypto/openssl_pkey.rs:17-40 | Algorithm, digest, size and key length of each curve; other curves are unsupported. |

## Left out

- `serde_cbor` itself: floats, `undefined`, indefinite lengths, the recursion limit and the details of its errors are not modelled; in a nested map a later entry replaces an earlier one with the same key.
- Sign.VisitSeq: reads a byte field from a CBOR byte string only; the library's byte buffer type, whose source is not part of this model, also takes text and arrays of small integers, so statements over every byte string speak of this narrower reader.
- Nested tags: the outermost one is the document's tag; further tags before a COSE_Sign1 array are stepped over, as the visitor does.
- The map-shaped form of the derived `Deserialize` of COSE_Encrypt0.
- OpenSSL, elliptic curves, AES-GCM, SHA-2 and random numbers: function values with stated laws.
- KMS network calls, the Tokio runtime, DER conversion and GetPublicKey: the service is a function value on integers.
- `src/crypto/tpm.rs`: device calls; its only step of interest is the shared merge.
- Error texts and sources, and the names of the signature algorithms.
- SigningRuns.RunSafety: assumes an injective hash and no forgery in the run; nothing is claimed about real hash or signature functions.
- EncryptionRuns.RunSafety: assumes the inverse law and that the cipher opens only what it produced in the run; nothing is claimed about AES-GCM.
- Encrypt.SerializeThree: one method stands for the two serializers of three fields.
