# Verification of the canonical wire profile

The repository fixes one byte-exact encoding for a replicated system's structures. This project
models its two independent implementations and proves what they promise of each other:

- **The strict DER codec** of `ci/verify_vectors.py` (definite minimal lengths, section 10.1 of X.690;
  minimal INTEGERs, section 8.3.2; BOOLEAN 00 or ff, section 11.1), its schema table with nested
  SEQUENCE OF, its structure checks, its path-indexed forgeries and the `CHECKED` count kept over a run.
  Modules `Bytes`, `Der`, `DerReader`, `Schema`, `Structures`, `WireShapes`, `Forgeries`,
  `Checker`.
- **The Go acceptance rule**: `unmarshal` in `asn1.go`, a decoder that is not in the repository made
  canonical by the test for leftover octets and by re-encoding, and the checks of genesis, commit
  certificate, envelope, blob and commit payload. Modules `Asn1`, `GoValues`, `Ordered`, `Genesis`,
  `CommitCert`, `Signed`, `GoChecks`; `Agreement` compares Go and Python octet string by octet string, and
  `Reconstruction` the envelopes the two rebuild around a blob.
- **The Go TLV walker** of `vectors_test.go`, with its counter threaded through a pointer (`TlvWalker`),
  and **Merkle node hashing** through one reused buffer (`Merkle`).
- **Ed25519** of `ci/verify_vectors.py`: extended-coordinate addition and double-and-add (section 5.1.4 of
  RFC 8032), recovery of x and decoding of points (section 5.1.3), verification (section 5.1.7). Modules
  `Congruence`, `Ladder`, `Edwards`, `Fermat`, `Completeness`, `Projective`, `Recovery`, `Verify`.

## How the model reads

- An octet is an integer from 0 to 255. An OCTET STRING field is its octets where Python keeps hexadecimal
  text. Integers are unbounded as in Python; Go's `int64` and `uint64` are subset types.
- `SpecError` is one constructor of `Result`: which check failed is not distinguished on the Python side.
  Go's errors are distinguished, and the order in which they win is part of the contracts.
- Code that changes state is a method with a loop, over a class where the source has an object: `Checker.Run`
  holds `CHECKED`, `TlvWalker.Counter` the walker's `*seq`, `Merkle.Sha256` the hash state, `Asn1.Ref` the
  pointer that `unmarshal` fills. Code made of calls and conditionals is functions.
- SHA-256, SHA-512 and, in `Checker`, Ed25519 verification are arbitrary functions; so is Go's decoder, of
  which only this is asked: it reads back every encoding shorter than a ceiling and leaves what follows
  alone. A hash is never taken to be injective; equal Merkle roots yield a collision instead.
- The modulus, d and the group order are parameters. Curve preservation needs nothing of them. Where
  primality matters it is a hypothesis in the textbook form (no divisor between 1 and p), with p = 5 modulo 8
  and d not a square, as RFC 8032 states of its constants. Fermat's little theorem is proved from it, and that
  `SQRT_M1`, computed as the code computes it, is a root of -1.
- Go's marshalled octets are written from the structs' own fields in order of declaration, not from the schema
  table, so agreement on the order of fields is proved and not built in.
- Four fields are renamed because a Dafny datatype has one name space for them: `SigValue` is `Value`, `SeqNo`
  is `Seq`, `HeaderBytes` is ProposalV0's `Header`, `CertDER` is `DER`.

## Where the code differs from what is said of it

- `check_vector` prints how many messages of a certificate are "bound to the proposal digest"
  (`ci/verify_vectors.py:646-648`). It counts messages that decode as a commit payload, while only valid ones
  are compared with the certificate's digest. `Checker.NoteOvercounts` gives an accepted certificate for which
  the two differ, `Checker.NoteIsExact` says exactly when they agree. The number printed at the end of the run
  is the right one.
- The wire documentation gives 2^23 octets as Go's ceiling. Nothing in the Go sources sets
  it, so the ceiling is a parameter of the agreement results.
- Go accepts a certificate whose message is a valid commit payload for another proposal, and Python refuses it.
  `Agreement.CertificateAgreement` shows that this is the whole difference.
- `02 01 63` spliced into a value just below Python's cap can make an encoding past the cap. It is refused
  either way; the results on forgeries cover both.

## Model

| member | source | states |
|---|---|---|
| `Bytes.FromToBE` | ci/verify_vectors.py:126 | `int.from_bytes` undoes `to_bytes` for every number that fits the width |
| `Bytes.ToFromBE` | ci/verify_vectors.py:60-64 | every octet string is the big-endian spelling of its own number, and that number fits its length |
| `Bytes.ByteLengthIsLeast` | ci/verify_vectors.py:125 | `(bit_length + 7) // 8` is the least number of octets that holds the number |
| `Bytes.MinimalOctets` | ci/verify_vectors.py:62-64 | octets whose first is not zero are exactly as many as their number needs |
| `Der.LengthPrefixFree` | ci/verify_vectors.py:122-126 | two length spellings that open the same octets are spellings of one length |
| `Der.ToFromSigned` | ci/verify_vectors.py:79 | reading octets as a two's-complement number and writing it at that width gives the octets back |
| `Der.FromToSigned` | ci/verify_vectors.py:129-135 | writing a number in range as two's complement and reading it gives the number back |
| `Der.SignedWidth` | ci/verify_vectors.py:129-135 | the result is the least width that does not overflow, for numbers of any size and sign |
| `Der.MinimalContentIsCanonical` | ci/verify_vectors.py:70-79 | the reader's two redundancy tests pass exactly the contents the encoder would write |
| `Der.PrefixFree` | ci/verify_vectors.py:138-150 | the encoding is a prefix-free code: at most one value opens any octet string, at any nesting |
| `Der.ContentsDetermineItems` | ci/verify_vectors.py:94-98 | concatenated encodings determine the list of items, its length included |
| `Der.EncodeInjective` | ci/verify_vectors.py:138-150 | different values have different encodings |
| `DerReader.ReadLength` | ci/verify_vectors.py:42-67 | an accepted length is the encoder's spelling of it and lies inside the limit; a refusal means no length below the cap is spelled there |
| `DerReader.ReadInteger` | ci/verify_vectors.py:70-79 | accepted content is the canonical spelling of the number returned; refused content is no number's |
| `DerReader.ReadValue` | ci/verify_vectors.py:82-109 | an accepted value's encoding is exactly the octets consumed, strictly inside the limit; a refusal means no value within the cap is encoded there |
| `DerReader.ReadContent` | ci/verify_vectors.py:92-109 | the content is that of a value with this tag, or no value has this tag and content |
| `DerReader.ReadItems` | ci/verify_vectors.py:93-98 | the items read are the only list whose encodings concatenate to the content, or there is no such list |
| `DerReader.ParseDer` | ci/verify_vectors.py:112-117 | accepts exactly the encodings of values within the cap, with the value each encodes; every error path is a string that encodes nothing |
| `DerReader.ParseEncode` | ci/verify_vectors.py:112-150 | parsing an encoding gives the value back if and only if its lengths are within four octets |
| `DerReader.ParseTrailing` | ci/verify_vectors.py:115-116 | an encoding followed by anything at all is refused |
| `DerReader.OctetStringOctets` | ci/verify_vectors.py:101-102 | 04, a length octet and that many octets read as the OCTET STRING of these octets |
| `DerReader.LongOctetString` | ci/verify_vectors.py:54-67 | the same for the long form of the length, one to four big-endian octets without a leading zero |
| `DerReader.BooleanOctets` | ci/verify_vectors.py:103-108 | 01 01 ff is true, 01 01 00 is false, any other third octet is refused |
| `DerReader.IntegerOctets` | ci/verify_vectors.py:70-79 | 02, a length octet and a content without a redundant first octet read as the number the content denotes, the first octet signed and each weighted by its power of 256 |
| `DerReader.SequenceOctets` | ci/verify_vectors.py:92-98 | 30, a length octet and the concatenated encodings read as the SEQUENCE of these items in order |
| `Der.SignedWeight` | ci/verify_vectors.py:79 | two's complement: the first octet is a signed digit to the base 256, the others unsigned digits |
| `Der.SplitLeading` | ci/verify_vectors.py:64 | big-endian: the first octet weighs 256 to the number of octets after it |
| `DerReader.MinimalSigned` | ci/verify_vectors.py:129-135 | the width loop ends, at the canonical content |
| `Schema.StructValueInjective` | ci/verify_vectors.py:231-241 | two objects of a schema with one tree are one object, nested lists included |
| `Schema.DecodeStructValue` | ci/verify_vectors.py:206-241 | `decode_struct` undoes `struct_value` for every object of every schema |
| `Schema.DecodeStruct` | ci/verify_vectors.py:206-228 | an accepted tree is `struct_value` of the result, which has exactly the schema's fields; a refused tree is the tree of no object |
| `Schema.DecodeField` | ci/verify_vectors.py:215-227 | the three kinds of field: the value read has its kind and rebuilds its item, or no value of that kind does |
| `Schema.BuildStructValue` | ci/verify_vectors.py:231-241 | the loop builds the tree of the object, element by element of nested lists |
| `Structures.TableIsSound` | ci/verify_vectors.py:163-188 | field names are distinct in every structure and in every element structure, and each structure not exempt starts with Version |
| `WireShapes.HeaderShape` | ci/verify_vectors.py:164-165 | the tree of a Header is the SEQUENCE of its fields in wire order, written out without the schema row |
| `WireShapes.ProposalV0Shape` | ci/verify_vectors.py:166-167 | the tree of a ProposalV0 is the SEQUENCE of its fields in wire order, written out without the schema row |
| `WireShapes.GenesisV1Shape` | ci/verify_vectors.py:168-169 | the tree of a GenesisV1 is the SEQUENCE of its fields in wire order, written out without the schema row |
| `WireShapes.GenesisMemberV1Shape` | ci/verify_vectors.py:170 | the tree of a GenesisMemberV1 is the SEQUENCE of its fields in wire order, written out without the schema row |
| `WireShapes.SignatureSetV0Shape` | ci/verify_vectors.py:171 | the tree of a SignatureSetV0 is the SEQUENCE of its fields in wire order, written out without the schema row |
| `WireShapes.SignerSigV0Shape` | ci/verify_vectors.py:172 | the tree of a SignerSigV0 is the SEQUENCE of its fields in wire order, written out without the schema row |
| `WireShapes.SignedV1Shape` | ci/verify_vectors.py:173 | the tree of a SignedV1 is the SEQUENCE of its fields in wire order, written out without the schema row |
| `WireShapes.SignedBlobV1Shape` | ci/verify_vectors.py:174 | the tree of a SignedBlobV1 is the SEQUENCE of its fields in wire order, written out without the schema row |
| `WireShapes.CommitPayloadV1Shape` | ci/verify_vectors.py:175 | the tree of a CommitPayloadV1 is the SEQUENCE of its fields in wire order, written out without the schema row |
| `WireShapes.ClientRequestV1Shape` | ci/verify_vectors.py:176-178 | the tree of a ClientRequestV1 is the SEQUENCE of its fields in wire order, written out without the schema row |
| `WireShapes.CertificateV1Shape` | ci/verify_vectors.py:179 | the tree of a CertificateV1 is the SEQUENCE of its fields in wire order, written out without the schema row |
| `WireShapes.ReadIndexV1Shape` | ci/verify_vectors.py:180-181 | the tree of a ReadIndexV1 is the SEQUENCE of its fields in wire order, written out without the schema row |
| `WireShapes.CommitCertificateV1Shape` | ci/verify_vectors.py:182-183 | the tree of a CommitCertificateV1 is the SEQUENCE of its fields in wire order, written out without the schema row |
| `Structures.ExemptHaveNoVersion` | ci/verify_vectors.py:187-188 | exempt are exactly the structures without a Version field |
| `Structures.DecimalIsTheSpelling` | ci/verify_vectors.py:291 | the decimal spelling denotes the number, has no needless zero and a minus sign for negatives alone, and is the only such spelling |
| `Structures.IdentitySpelled` | ci/verify_vectors.py:291 | the derived identity is "spiffe://", the domain, "/node/" and the spelling of the number, in this order and nothing else |
| `Structures.AcceptsIffEncoded` | ci/verify_vectors.py:379-389 | parsing, decoding and validating together accept exactly the encodings of the valid objects below the cap |
| `Forgeries.PathCount` | ci/verify_vectors.py:530-535 | as many paths as SEQUENCEs |
| `Forgeries.PathsAreSequences` | ci/verify_vectors.py:530-535 | a path is listed if and only if it leads to a SEQUENCE |
| `Forgeries.PathsDistinct` | ci/verify_vectors.py:530-535 | no path is listed twice |
| `Forgeries.SpliceChanges` | ci/verify_vectors.py:538-543 | a spliced tree differs from the original |
| `Forgeries.SpliceInjective` | ci/verify_vectors.py:538-543 | different paths give different trees |
| `Forgeries.SpliceUndecodable` | ci/verify_vectors.py:538-543 | a tree spliced at any depth is the tree of no object of its schema |
| `Forgeries.ForgeryRejected` | ci/verify_vectors.py:549-555 | the spliced encoding, if it parses at all, fails `decode_struct` |
| `Forgeries.SpliceGrowth` | ci/verify_vectors.py:549-550 | an upper bound on how much longer a splice makes the encoding, recomputed lengths included |
| `Forgeries.SpliceGrows` | ci/verify_vectors.py:538-543 | a splice makes the encoding longer by three octets at least |
| `Forgeries.ForgeriesDistinct` | ci/verify_vectors.py:546-557 | different paths give different forged octets, and none gives the original's |
| `Ordered.NeighboursOrderAll` | ci/verify_vectors.py:268-273 | comparing neighbours decides whether every pair is in order, over any key |
| `Checker.IsStrictlyAscending` | ci/verify_vectors.py:268-273 | true exactly when every earlier key is below every later one |
| `Checker.CheckGenesis` | ci/verify_vectors.py:280-294 | accepts exactly the valid memberships: bounded, in order, each with its derived identity and a key of the right width |
| `Checker.CheckClientRequest` | ci/verify_vectors.py:316-324 | accepts exactly the valid requests, every intermediate non-empty |
| `Checker.CheckBlobSignature` | ci/verify_vectors.py:591-617 | accepts exactly when the signature verifies over the rebuilt envelope and not over the same envelope under another digest, or when the vector supplies no digest or key |
| `Checker.CheckMerkle` | ci/verify_vectors.py:687-697 | accepts exactly when every entry hashes to what the annex says |
| `Checker.Run.Validate` | ci/verify_vectors.py:379-389 | accepts exactly the valid objects; the count grows by the payload-carrying entries that reached `_check_cert_msg` before the object was refused or accepted, and by nothing else |
| `Checker.Run.CheckCommitCert` | ci/verify_vectors.py:336-346 | accepts exactly the well-shaped certificates whose messages name no other proposal; the count grows by exactly the entries with a valid commit payload up to the one that stops the loop, that one included if its message was looked at |
| `Checker.CountedWhenValid` | ci/verify_vectors.py:336-364 | on a valid object that growth is the number of entries carrying a valid commit payload |
| `Checker.Run.CheckCertMsg` | ci/verify_vectors.py:354-364 | an entry is refused exactly when it carries a valid commit payload for another proposal, and counted exactly when it carries a valid one |
| `Checker.Run.Refuses` | ci/verify_vectors.py:551-553 | true exactly when the octets are refused; the count grows by what validating the decoded object adds, which is nothing when they are refused early or are no certificate |
| `Checker.Run.DerivedForgeries` | ci/verify_vectors.py:546-572 | raises exactly when some forgery would be accepted; on an accepted encoding it never does, returns the number of SEQUENCEs plus one, plus one more if versioned, and leaves the count alone |
| `Checker.Run.SplicedForgeries` | ci/verify_vectors.py:549-557 | one forgery per SEQUENCE, all refused, or an error exactly when one is not |
| `Checker.Run.CheckPayload` | ci/verify_vectors.py:575-588 | accepts exactly the payloads that are the structure their purpose names, and never counts |
| `Checker.Run.CheckVector` | ci/verify_vectors.py:628-657 | accepts exactly the conformant vectors, so the re-encoding test never decides; accepting or refusing, the count grows by what validating the decoded object adds and by nothing from payloads or forgeries; on acceptance that is its bound entries |
| `Checker.Run.CheckAnnex` | ci/verify_vectors.py:674-715 | the whole run succeeds exactly when every vector and Merkle entry is conformant, every top-level structure is present and some certificate entry is bound; CHECKED then ends at the sum over the vectors, and on a failure at the sum up to the vector that failed, that one included |
| `Checker.NoForgerySurvives` | ci/verify_vectors.py:546-572 | from an accepted encoding every derived forgery is refused |
| `Checker.ForgeriesStopEarly` | ci/verify_vectors.py:546-572 | those forgeries are all refused before any structure's own check runs, which is why they leave no count |
| `Checker.ForgeriesAllDiffer` | ci/verify_vectors.py:546-572 | the number returned is that of the different octet strings tried, none of them the vector itself: one for each SEQUENCE path, one more, and one more where the structure has a Version |
| `Checker.PayloadsByPurpose` | ci/verify_vectors.py:196 | under purposes 1, 3 and 4 exactly the encodings of valid commit payloads, client requests and read indices fit; under any other every payload does |
| `Checker.TopLevelAreNoElements` | ci/verify_vectors.py:699-700 | a vector is demanded for exactly the structures that are no element of another one |
| `Checker.BumpIsRefused` | ci/verify_vectors.py:564-571 | an object of Version 2 is refused for every versioned structure |
| `Checker.BoundNote` | ci/verify_vectors.py:646-647 | the loop computes the printed number, from messages that decode |
| `Checker.NoteIsExact` | ci/verify_vectors.py:620-625 | the printed "bound to the proposal digest" number equals the real count exactly when no message decodes as a commit payload without being a valid one |
| `Checker.NoteOvercounts` | ci/verify_vectors.py:646-648 | octets that are accepted as a certificate and for which the printed number is 1 and the real count 0 |
| `TlvWalker.DerLength` | vectors_test.go:651-660 | the shifting loop writes the length octets of the Python encoder |
| `TlvWalker.ReadHeader` | vectors_test.go:600-616 | the header read, for every long form of one to four octets and every truncation |
| `TlvWalker.ParseTLVs` | vectors_test.go:596-627 | the forest read, or a failure exactly where the recursive reading has one |
| `TlvWalker.SpliceTLVs` | vectors_test.go:632-649 | the octets written for the counter's starting value, and the counter moved on by the SEQUENCEs met |
| `TlvWalker.ParsedEncoding` | vectors_test.go:596-627 | the walker parses every concatenation of encodings within the cap back into its values |
| `TlvWalker.NodeRefines` | vectors_test.go:632-649 | for a counter starting anywhere, one node is written as its tree spliced at the path with that number, or untouched |
| `TlvWalker.WalkerRefinesSplice` | vectors_test.go:596-660 | on every encoding within the cap the walker equals the Python splice: the i-th SEQUENCE in pre-order is the i-th path, any other target reproduces the octets whatever was to be added, and the counter ends at the number of SEQUENCEs |
| `Asn1.Unmarshal` | asn1.go:19-37 | the pointer is filled first; success means the value re-encodes to the whole input |
| `Asn1.AcceptsExactlyTheRange` | asn1.go:19-37 | for any decoder that reads back what marshal writes, accepted means marshalled and conversely |
| `Asn1.OneSpelling` | asn1.go:29-35 | one value has at most one accepted spelling |
| `Asn1.TrailingIsErrTrailing` | asn1.go:24-26 | an encoding followed by any octets gives ErrTrailing and no other error |
| `Asn1.DecoderIndependent` | asn1.go:19-37 | two such decoders accept the same inputs with the same values, however lenient each is elsewhere |
| `Asn1.PrefixFreeHasDecoder` | asn1.go:13-20 | a prefix-free code has such a decoder |
| `Asn1.UnmarshalInvertsMarshal` | genesis.go:31-50 | an exported Unmarshal accepts exactly the range of the Marshal beside it and gives back the value marshalled |
| `Asn1.VerdictErrors` | asn1.go:19-37 | each error's exact condition over decoder and marshaller; octets decoded whole that are nobody's encoding are ErrNonCanonical |
| `Asn1.FirstErrorIsFirst` | genesis.go:62-80 | a loop of early returns reports the error of the first round that has one |
| `Ordered.OneAscendingList` | genesis.go:66-70 | two strictly ascending lists with the same elements are the same list |
| `Ordered.DistinctKeys` | genesis.go:66-70 | a strictly ascending list has as many elements as distinct keys |
| `GoValues.FitsBelowLimit` | ci/verify_vectors.py:55-57 | the reader's cap on length octets is a bound on the length of the whole encoding |
| `Genesis.SpiffeIDV1` | genesis.go:86-92 | the appended buffer is the derived identity and never outgrows the capacity it was made with |
| `Genesis.DecimalFits` | genesis.go:87 | twenty octets suffice for every int64 |
| `Genesis.DecimalInjective` | genesis.go:91 | different numbers have different decimal spellings, signs included |
| `Genesis.SpiffeIDInjective` | genesis.go:86-92 | identities are jointly injective in domain and node, even for domains that contain the separator or digits |
| `Genesis.CheckGenesisV1` | genesis.go:52-82 | the error returned is that of the first failing field, then of the first failing member, in the source's order of tests |
| `Genesis.HeadErrors` | genesis.go:53-61 | which error a value gets whose fields do not pass |
| `Genesis.MemberErrorsAt` | genesis.go:62-80 | which error a value gets from its first member that is not good or not in order, case by case |
| `Genesis.WireIsStructValue` | genesis.go:15-29 | the Go structs' fields in order of declaration are the schema's rows |
| `Genesis.CheckIsValid` | genesis.go:52-82 | the Go check and the Python check accept the same values |
| `Genesis.MarshalGenesisV1` | genesis.go:32-37 | the encoding of an accepted value, nothing and the error otherwise; what it returns without an error, Python accepts as the same object |
| `Genesis.UnmarshalGenesisV1` | genesis.go:41-50 | the verdict of unmarshal, then of the check; the zero value on any error; accepted octets are exactly the range of MarshalGenesisV1 |
| `Genesis.OneSpellingPerMembership` | genesis.go:52-92 | two accepted values over one domain, root, bound and set of (node, key) pairs are one value with one encoding, and there are as many members as nodes |
| `CommitCert.CheckCommitCertificateV1` | commitcert.go:35-66 | the error returned is that of the first failing field, then of the first failing entry |
| `CommitCert.HeadErrors` | commitcert.go:36-49 | which error a certificate gets whose fields do not pass |
| `CommitCert.SigErrorsAt` | commitcert.go:50-64 | which error a certificate gets from its first entry that is not good or not in order, case by case |
| `CommitCert.WireIsStructValue` | commitcert.go:6-12 | the Go structs' fields in order of declaration are the schema's rows |
| `CommitCert.CheckIsShape` | commitcert.go:35-66 | the Go check is the Python check without its look inside the messages |
| `CommitCert.MarshalCommitCertificateV1` | commitcert.go:15-20 | the encoding of an accepted certificate, nothing and the error otherwise; Python accepts it as the same object when its messages name no other proposal |
| `CommitCert.UnmarshalCommitCertificateV1` | commitcert.go:24-33 | the verdict of unmarshal, then of the check; the zero value on any error; accepted octets are exactly the range of the Marshal |
| `CommitCert.OneSpellingPerEntrySet` | commitcert.go:35-66 | two accepted certificates over one decision and one set of entries are one value with one encoding, and there are as many entries as signers |
| `Signed.CheckErrors` | signed.go:51-159 | each check's error, by the values of the fields |
| `Signed.EnvelopeWireIsStructValue` | signed.go:23-28 | SignedV1's fields in order of declaration are the schema's row |
| `Signed.BlobWireIsStructValue` | signed.go:76-81 | SignedBlobV1's fields in order of declaration are the schema's row |
| `Signed.PayloadWireIsStructValue` | signed.go:85-89 | CommitPayloadV1's fields in order of declaration are the schema's row |
| `GoChecks.CheckHeader` | header.go:15-23 | accepts exactly the headers Python accepts, each error's condition given |
| `GoChecks.CheckClientRequestV1` | request.go:52-74 | the loop accepts exactly the requests Python accepts, each error's condition given |
| `GoChecks.CheckReadIndexV1` | attest.go:38-56 | accepts exactly the read indices Python accepts, each error's condition given |
| `Signed.CheckSignedIsValid` | signed.go:51-64 | the Go and Python checks of an envelope accept the same values |
| `Signed.CheckBlobIsValid` | signed.go:112-128 | the Go and Python checks of a blob accept the same values |
| `Signed.CheckPayloadIsValid` | signed.go:151-159 | the Go and Python checks of a commit payload accept the same values |
| `Signed.UnmarshalSignedV1` | signed.go:40-49 | the verdict of unmarshal, then of the check; the zero value on any error; accepted octets are exactly the range of the Marshal |
| `Signed.UnmarshalSignedBlobV1` | signed.go:101-110 | the same for a blob |
| `Signed.UnmarshalCommitPayloadV1` | signed.go:140-149 | the same for a commit payload |
| `Signed.SignedBytesBindEverything` | signed.go:21-89 | the signed octets, one encoding inside another, are equal if and only if purpose, genesis digest, proposal digest and aux are all equal |
| `Signed.ReconstructedEnvelope` | signed.go:72-81 | the envelope rebuilt around an accepted blob passes the signer's own check, and another digest rebuilds other octets |
| `Signed.RoundTripRebuilds` | signed.go:72-81 | an accepted blob, marshalled and read back by any decoder that meets the contract, is accepted and rebuilds the envelope it rebuilt before |
| `Signed.ReconstructIsSized` | signed.go:72-81 | the envelope around an accepted blob meets the size hypothesis of the binding results |
| `Reconstruction.SameEnvelope` | ci/verify_vectors.py:601-604 | Python and Go rebuild the same octets from a blob and the verifier's digest |
| `Reconstruction.SignaturesAgree` | ci/verify_vectors.py:591-617 | with a digest of 32 octets and a key supplied, `check_blob_signature` accepts exactly when a Go verifier under this digest does and one under the flipped digest does not; for payloads within Python's cap the two look at different octets; no Go verifier takes a digest of another width |
| `Agreement.SameVerdict` | asn1.go:19-37 | Go and Python give one verdict on every octet string below both ceilings, given that the two checks agree on values |
| `Agreement.DecoderExists` | asn1.go:19-20 | a structure whose Go values are its int64 objects, one each, has a decoder that meets the contract |
| `Agreement.GenesisDecoder` | asn1.go:19-20 | GenesisV1 has such a decoder |
| `Agreement.SignedDecoder` | asn1.go:19-20 | SignedV1 has such a decoder |
| `Agreement.BlobDecoder` | asn1.go:19-20 | SignedBlobV1 has such a decoder |
| `Agreement.PayloadDecoder` | asn1.go:19-20 | CommitPayloadV1 has such a decoder |
| `Agreement.CertificateDecoder` | asn1.go:19-20 | CommitCertificateV1 has such a decoder |
| `Agreement.GenesisAgreement` | genesis.go:41-82 | one verdict for GenesisV1 |
| `Agreement.SignedAgreement` | signed.go:40-64 | one verdict for SignedV1 |
| `Agreement.BlobAgreement` | signed.go:101-128 | one verdict for SignedBlobV1 |
| `Agreement.PayloadAgreement` | signed.go:140-159 | one verdict for CommitPayloadV1 |
| `Agreement.CertificateAgreement` | ci/verify_vectors.py:336-364 | for CommitCertificateV1 Python refuses, beyond what Go refuses, exactly the certificates with a valid commit payload for another proposal |
| `Agreement.GoRefusesEverySplice` | vectors_test.go:559-583 | whatever SEQUENCE the Go walker splices into and whatever the decoder makes of it, unmarshal refuses the result |
| `Merkle.PreimageInjective` | merkle.go:16-59 | no two nodes, of one form or of two, share a preimage, for keys and values below 2^64 octets |
| `Merkle.U64IsBigEndian` | merkle.go:25 | read big-endian, the eight octets written for a number are the number |
| `Merkle.PreimageOctets` | merkle.go:21-59 | what is where in each preimage: form octet, big-endian treeID, depth, then lengths and contents or digests |
| `Merkle.TreeRoot` | merkle.go:19-59 | the root composed bottom up from the three functions is the tree's root |
| `Merkle.FindCollision` | merkle.go:19-59 | equal roots of two trees: the trees are identical, or two distinct preimages with one hash are returned |
| `Merkle.NoCollisionWithItself` | merkle.go:19-59 | comparing a tree with itself returns no collision |
| `Merkle.PutUint64` | merkle.go:25 | the eight octets of the buffer become the big-endian spelling, and read back as the number |
| `Merkle.LeafHash` | merkle.go:21-35 | the writes through the one reused buffer feed exactly the leaf's preimage |
| `Merkle.InternalHash` | merkle.go:38-48 | the same for an internal node |
| `Merkle.EmptyHash` | merkle.go:51-59 | the same for an empty subtree |
| `Merkle.MerkleHashAgrees` | ci/verify_vectors.py:394-417 | `merkle_hash` accepts exactly the entries that are nodes and hashes what Go hashes |
| `Edwards.SumOfPoints` | ci/verify_vectors.py:451-458 | the four coordinates of a sum are four times EF, GH, FG, EH |
| `Edwards.AddKeepsCurve` | ci/verify_vectors.py:451-458 | a sum of two points on the curve satisfies both curve equations, for every modulus and every d |
| `Edwards.AddIsEdwardsSum` | ci/verify_vectors.py:451-458 | the sum is the twisted Edwards sum of the affine coordinates, cleared of denominators |
| `Edwards.AddIdentity` | ci/verify_vectors.py:448 | adding IDENTITY scales all four coordinates by one factor |
| `Edwards.PointMul` | ci/verify_vectors.py:461-468 | the loop's result as a recursion on the scalar's bits, for scalars of any size and sign; a point on the curve stays on it |
| `Ladder.ClimbIsMultiple` | ci/verify_vectors.py:461-468 | acc + scalar times point is constant: double-and-add equals repeated addition for every associative operation with identity, and for every reading of the points in one |
| `Ladder.ClimbFromIdentity` | ci/verify_vectors.py:461-468 | started from the identity the loop returns the plain multiple |
| `Completeness.AddIsComplete` | ci/verify_vectors.py:451-458 | over a prime that is 5 modulo 8 and a d that is not a square, Z of a sum is never 0: addition has no exceptional cases |
| `Completeness.MulIsComplete` | ci/verify_vectors.py:461-468 | the same for every scalar multiple |
| `Completeness.MulIsMultiple` | ci/verify_vectors.py:461-468 | read in any monoid in which addition of proper points is the operation, the result for a proper point is the scalar multiple; nothing is asked of tuples that stand for no point |
| `Fermat.RootOfMinusOne` | ci/verify_vectors.py:425 | 2^((p-1)/4) is a square root of -1 modulo every prime p that is 5 modulo 8 |
| `Completeness.Inverse` | ci/verify_vectors.py:432 | raising to p - 2 inverts everything that is not 0, by Fermat's little theorem |
| `Fermat.LittleTheorem` | ci/verify_vectors.py:432 | a^(p-1) is 1 modulo a prime p that does not divide a |
| `Projective.EqualIsEquivalence` | ci/verify_vectors.py:471-472 | `_point_equal` is an equivalence among points with Z not 0 |
| `Projective.EqualIsProportional` | ci/verify_vectors.py:471-472 | two points are equal exactly when all four coordinates are proportional |
| `Projective.AddRespectsEqual` | ci/verify_vectors.py:451-472 | equal points have equal sums, T included although `_point_equal` does not look at it |
| `Projective.MulRespectsEqual` | ci/verify_vectors.py:461-472 | equal points have equal scalar multiples, for every scalar and every pair of equal accumulators |
| `Projective.IdentityIsNeutral` | ci/verify_vectors.py:448-472 | a point plus IDENTITY equals the point |
| `Projective.NegationIsInverse` | ci/verify_vectors.py:451-472 | a point plus its negation equals IDENTITY |
| `Recovery.RecoverX` | ci/verify_vectors.py:428-442 | a returned x is the residue with the wanted square and low bit, for every odd modulus; over an Ed25519 field x is returned exactly when (x, y) is on the curve with that low bit, and nothing exactly when no such x is |
| `Recovery.Flip` | ci/verify_vectors.py:440-441 | P - x has the square of x, the other parity, and is in range |
| `Recovery.CandidateSuffices` | ci/verify_vectors.py:435-439 | if x2 has any square root, one of the two candidates is one |
| `Recovery.RootIsOnCurve` | ci/verify_vectors.py:432 | the roots of x2 are exactly the x of the curve's points at that height |
| `Recovery.RecoveredOnce` | ci/verify_vectors.py:440-442 | square and low bit settle x |
| `Recovery.FromLEReversed` | ci/verify_vectors.py:478 | little-endian: the octets reversed are the big-endian spelling of the same number |
| `Recovery.Decompress` | ci/verify_vectors.py:475-484 | accepts exactly the encodings of points on the curve, and returns the point encoded |
| `Recovery.EncodesOnce` | ci/verify_vectors.py:475-484 | one point has one encoding |
| `Recovery.DecodedIsProper` | ci/verify_vectors.py:475-484 | a decoded point satisfies the curve equations, with Z not 0 |
| `Verify.Ed25519Verify` | ci/verify_vectors.py:487-502 | accepts exactly when both strings encode points of the curve, s is below the order and [s]B = R + [k]A |
| `Verify.EquationHolds` | ci/verify_vectors.py:502 | over a key [a]B and R = [r]B the equation holds exactly for s = r + k a modulo the order |
| `Verify.AcceptedExactlyWhenSigned` | ci/verify_vectors.py:487-502 | an honest signature is accepted and no other over the same R: its second half must be r + k a modulo the order, k being the hash of R, the key and the message in this order |
| `Verify.NamedOnce` | ci/verify_vectors.py:490-497 | a key or R names one point only |
| `Verify.EquationIsProper` | ci/verify_vectors.py:502 | both sides of that equation have Z not 0, so the comparison is one of points |

## Left out

- `encoding/asn1`: its source is not part of this model; the decoder is any function that meets the contract above.
- SHA-256 and SHA-512: arbitrary functions.
- The associativity of curve addition, the primality of 2^255 - 19 and the order of the base point: `Completeness.MulIsMultiple` takes any reading in which addition is associative, and the field is a hypothesis.
- Python's recursion limit, memory and limit on integer text: taken to be absent. Current CPython refuses to write an integer of more than 4300 digits with a ValueError, which `str(m["NodeID"])` and the messages' `%d` would raise where `Checker.CheckGenesis` says accepted or refused.
- Hexadecimal text, JSON, vector files, printed lines and error texts: a vector is a record of octets and fields. `compare_fields` becomes equality with the vector's fields.
- Marshal and Unmarshal of header.go, attest.go, request.go, proposal.go and signatures.go: their structures have schema rows, wire shapes and Python checks here and the first three their Go checks; `Agreement.SameVerdict` is the result the rest would instantiate.
- The Marshal functions of signed.go as methods: they are the ones of genesis.go with another check; `Asn1.UnmarshalInvertsMarshal` covers them.
- The determinism linter, the consensus-time policy, quorum thresholds and certificate chains: not wire behaviour, or specified and not implemented in this repository.
- `merkle_hash` on a treeID outside 64 bits: Python raises OverflowError there, which is not a SpecError; treeID is a uint64 here.
- Der.PrefixFree: assumes lengths written with at most 127 octets, beyond which the first length octet no longer holds the count; every value Python reads is far below that.
- Recovery.RecoverX: `pow` is the mathematical power reduced once, not the modular exponentiation Python runs.
- Verify.Ed25519Verify: the two directions hold over an Ed25519 field; over other parameters acceptance only implies the equation between the points encoded.
