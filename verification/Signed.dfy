/** signed.go: the envelope every signature is over, the blob that carries a signature beside
    its payload, and the commit payload that goes inside. */
module Signed {
  import opened Bytes
  import opened Der
  import opened Schema
  import opened Structures
  import opened Asn1
  import opened GoValues
  import opened WireShapes

  const PURPOSE_COMMIT_SIG: int64 := 1
  const PURPOSE_OPAQUE_SIGN: int64 := 2
  const PURPOSE_CLIENT_REQUEST: int64 := 3
  const PURPOSE_READ_INDEX: int64 := 4

  /** ValidPurpose. */
  predicate IsPurpose(p: int64) {
    PURPOSE_COMMIT_SIG <= p <= PURPOSE_READ_INDEX
  }

  /** type SignedV1. */
  datatype Envelope = Envelope(version: int64, purpose: int64, genesisDigest: bytes, payload: bytes)

  /** type SignedBlobV1. */
  datatype Blob = Blob(version: int64, purpose: int64, payload: bytes, value: bytes)

  /** type CommitPayloadV1. */
  datatype CommitPayload = CommitPayload(version: int64, proposalDigest: bytes, aux: bytes)

  // ------------------------------------------------------------ the wire objects

  function EnvelopeObject(s: Envelope): (o: Object)
    ensures Conforms(LayoutOf(SignedV1), o)
  {
    var o: Object := map[Version := IntField(s.version), Purpose := IntField(s.purpose),
                         GenesisDigest := OctField(s.genesisDigest), Payload := OctField(s.payload)];
    ConformsFour(Field(Version, INT), Field(Purpose, INT), Field(GenesisDigest, OCT), Field(Payload, OCT), o);
    o
  }

  function BlobObject(b: Blob): (o: Object)
    ensures Conforms(LayoutOf(SignedBlobV1), o)
  {
    var o: Object := map[Version := IntField(b.version), Purpose := IntField(b.purpose),
                         Payload := OctField(b.payload), SigValue := OctField(b.value)];
    ConformsFour(Field(Version, INT), Field(Purpose, INT), Field(Payload, OCT), Field(SigValue, OCT), o);
    o
  }

  function PayloadObject(p: CommitPayload): (o: Object)
    ensures Conforms(LayoutOf(CommitPayloadV1), o)
  {
    var o: Object := map[Version := IntField(p.version), ProposalDigest := OctField(p.proposalDigest),
                         Aux := OctField(p.aux)];
    ConformsThree(Field(Version, INT), Field(ProposalDigest, OCT), Field(Aux, OCT), o);
    o
  }

  lemma EnvelopeFrom(o: Object) returns (s: Envelope)
    requires Conforms(LayoutOf(SignedV1), o) && IntsFit(StructValue(LayoutOf(SignedV1), o))
    ensures EnvelopeObject(s) == o
  {
    FieldsFour(Field(Version, INT), Field(Purpose, INT), Field(GenesisDigest, OCT), Field(Payload, OCT), o);
    IntFits(LayoutOf(SignedV1), o, 0);
    IntFits(LayoutOf(SignedV1), o, 1);
    s := Envelope(o[Version].i, o[Purpose].i, o[GenesisDigest].octets, o[Payload].octets);
  }

  lemma BlobFrom(o: Object) returns (b: Blob)
    requires Conforms(LayoutOf(SignedBlobV1), o) && IntsFit(StructValue(LayoutOf(SignedBlobV1), o))
    ensures BlobObject(b) == o
  {
    FieldsFour(Field(Version, INT), Field(Purpose, INT), Field(Payload, OCT), Field(SigValue, OCT), o);
    IntFits(LayoutOf(SignedBlobV1), o, 0);
    IntFits(LayoutOf(SignedBlobV1), o, 1);
    b := Blob(o[Version].i, o[Purpose].i, o[Payload].octets, o[SigValue].octets);
  }

  lemma PayloadFrom(o: Object) returns (p: CommitPayload)
    requires Conforms(LayoutOf(CommitPayloadV1), o) && IntsFit(StructValue(LayoutOf(CommitPayloadV1), o))
    ensures PayloadObject(p) == o
  {
    FieldsThree(Field(Version, INT), Field(ProposalDigest, OCT), Field(Aux, OCT), o);
    IntFits(LayoutOf(CommitPayloadV1), o, 0);
    p := CommitPayload(o[Version].i, o[ProposalDigest].octets, o[Aux].octets);
  }

  // ------------------------------------------------------------ the checks

  /** checkSignedV1. */
  function CheckSigned(s: Envelope): Option<Error> {
    if s.version != VERSION_V1 then Some(ErrVersion)
    else if !IsPurpose(s.purpose) then Some(ErrFormat)
    else if |s.genesisDigest| != GENESIS_DIGEST_LEN then Some(ErrLength)
    else None
  }

  /** checkSignedBlobV1. */
  function CheckBlob(b: Blob): Option<Error> {
    if b.version != VERSION_V1 then Some(ErrVersion)
    else if !IsPurpose(b.purpose) then Some(ErrFormat)
    else if |b.payload| == 0 then Some(ErrEmpty)
    else if |b.value| != SIGNATURE_LEN then Some(ErrLength)
    else None
  }

  /** checkCommitPayloadV1. */
  function CheckPayload(p: CommitPayload): Option<Error> {
    if p.version != VERSION_V1 then Some(ErrVersion)
    else if |p.proposalDigest| != DIGEST_LEN then Some(ErrLength)
    else None
  }

  /** Which error each refused value gets. */
  lemma CheckErrors(s: Envelope, b: Blob, p: CommitPayload)
    ensures CheckSigned(s) == if s.version != 1 then Some(ErrVersion)
                              else if !(1 <= s.purpose <= 4) then Some(ErrFormat)
                              else if |s.genesisDigest| != 32 then Some(ErrLength) else None
    ensures CheckBlob(b) == if b.version != 1 then Some(ErrVersion)
                            else if !(1 <= b.purpose <= 4) then Some(ErrFormat)
                            else if b.payload == [] then Some(ErrEmpty)
                            else if |b.value| != 64 then Some(ErrLength) else None
    ensures CheckPayload(p) == if p.version != 1 then Some(ErrVersion)
                               else if |p.proposalDigest| != 32 then Some(ErrLength) else None
  {
  }

  lemma CheckSignedIsValid(s: Envelope)
    ensures CheckSigned(s) == None <==> Valid(SignedV1, EnvelopeObject(s))
  {
  }

  lemma CheckBlobIsValid(b: Blob)
    ensures CheckBlob(b) == None <==> Valid(SignedBlobV1, BlobObject(b))
  {
  }

  lemma CheckPayloadIsValid(p: CommitPayload)
    ensures CheckPayload(p) == None <==> Valid(CommitPayloadV1, PayloadObject(p))
  {
  }

  lemma BlobReads(b: Blob)
    ensures IntOf(BlobObject(b), Purpose) == b.purpose
    ensures OctOf(BlobObject(b), Payload) == b.payload && OctOf(BlobObject(b), SigValue) == b.value
  {
  }

  // ------------------------------------------------------------ marshal, unmarshal

  /** What asn1.Marshal writes of the three structs: their fields in the order of declaration. */
  function EnvelopeWire(s: Envelope): Value {
    Seq([Int(s.version), Int(s.purpose), Octets(s.genesisDigest), Octets(s.payload)])
  }

  function BlobWire(b: Blob): Value {
    Seq([Int(b.version), Int(b.purpose), Octets(b.payload), Octets(b.value)])
  }

  function PayloadWire(p: CommitPayload): Value {
    Seq([Int(p.version), Octets(p.proposalDigest), Octets(p.aux)])
  }

  /** Go's declaration orders are the orders of the schema's rows. */
  lemma EnvelopeWireIsStructValue(s: Envelope)
    ensures StructValue(LayoutOf(SignedV1), EnvelopeObject(s)) == EnvelopeWire(s)
  {
    SignedV1Shape(EnvelopeObject(s));
  }

  lemma BlobWireIsStructValue(b: Blob)
    ensures StructValue(LayoutOf(SignedBlobV1), BlobObject(b)) == BlobWire(b)
  {
    SignedBlobV1Shape(BlobObject(b));
  }

  lemma PayloadWireIsStructValue(p: CommitPayload)
    ensures StructValue(LayoutOf(CommitPayloadV1), PayloadObject(p)) == PayloadWire(p)
  {
    CommitPayloadV1Shape(PayloadObject(p));
  }

  function EnvelopeBytes(s: Envelope): bytes {
    Encode(EnvelopeWire(s))
  }

  function PayloadBytes(p: CommitPayload): bytes {
    Encode(PayloadWire(p))
  }

  function MarshalSigned(s: Envelope): Option<bytes> {
    Some(EnvelopeBytes(s))
  }

  function MarshalBlob(b: Blob): Option<bytes> {
    Some(Encode(BlobWire(b)))
  }

  function MarshalPayload(p: CommitPayload): Option<bytes> {
    Some(PayloadBytes(p))
  }

  /** UnmarshalSignedV1, over any decoder. */
  method UnmarshalSignedV1(b: bytes, decode: Decoder<Envelope>) returns (s: Envelope, err: Option<Error>)
    ensures err == CheckedVerdict(decode, MarshalSigned, CheckSigned, b)
    ensures s == if err == None then decode(b).value else Envelope(0, 0, [], [])
    ensures forall ceiling: nat | Decodes(decode, MarshalSigned, ceiling) && |b| < ceiling ::
              err == None <==> CheckedMarshalled(MarshalSigned, CheckSigned, b)
  {
    UnmarshalsRange(decode, MarshalSigned, CheckSigned, b);
    var v := new Ref(Envelope(0, 0, [], []));
    err := Unmarshal(b, v, decode, MarshalSigned);
    if err.None? {
      err := CheckSigned(v.value);
    }
    return if err.Some? then Envelope(0, 0, [], []) else v.value, err;
  }

  /** UnmarshalSignedBlobV1, over any decoder. */
  method UnmarshalSignedBlobV1(der: bytes, decode: Decoder<Blob>) returns (b: Blob, err: Option<Error>)
    ensures err == CheckedVerdict(decode, MarshalBlob, CheckBlob, der)
    ensures b == if err == None then decode(der).value else Blob(0, 0, [], [])
    ensures forall ceiling: nat | Decodes(decode, MarshalBlob, ceiling) && |der| < ceiling ::
              err == None <==> CheckedMarshalled(MarshalBlob, CheckBlob, der)
  {
    UnmarshalsRange(decode, MarshalBlob, CheckBlob, der);
    var v := new Ref(Blob(0, 0, [], []));
    err := Unmarshal(der, v, decode, MarshalBlob);
    if err.None? {
      err := CheckBlob(v.value);
    }
    return if err.Some? then Blob(0, 0, [], []) else v.value, err;
  }

  /** UnmarshalCommitPayloadV1, over any decoder. */
  method UnmarshalCommitPayloadV1(b: bytes, decode: Decoder<CommitPayload>)
    returns (p: CommitPayload, err: Option<Error>)
    ensures err == CheckedVerdict(decode, MarshalPayload, CheckPayload, b)
    ensures p == if err == None then decode(b).value else CommitPayload(0, [], [])
    ensures forall ceiling: nat | Decodes(decode, MarshalPayload, ceiling) && |b| < ceiling ::
              err == None <==> CheckedMarshalled(MarshalPayload, CheckPayload, b)
  {
    UnmarshalsRange(decode, MarshalPayload, CheckPayload, b);
    var v := new Ref(CommitPayload(0, [], []));
    err := Unmarshal(b, v, decode, MarshalPayload);
    if err.None? {
      err := CheckPayload(v.value);
    }
    return if err.Some? then CommitPayload(0, [], []) else v.value, err;
  }

  // ------------------------------------------------------------ what a signature binds

  /** The envelope a verifier rebuilds around a blob from its own genesis digest. */
  function Reconstruct(b: Blob, genesisDigest: bytes): Envelope {
    Envelope(VERSION_V1, b.purpose, genesisDigest, b.payload)
  }

  lemma EnvelopeObjectInjective(s: Envelope, t: Envelope)
    requires EnvelopeObject(s) == EnvelopeObject(t)
    ensures s == t
  {
    var o, p := EnvelopeObject(s), EnvelopeObject(t);
    assert o[Version] == p[Version] && o[Purpose] == p[Purpose];
    assert o[GenesisDigest] == p[GenesisDigest] && o[Payload] == p[Payload];
  }

  lemma BlobObjectInjective(s: Blob, t: Blob)
    requires BlobObject(s) == BlobObject(t)
    ensures s == t
  {
    var o, p := BlobObject(s), BlobObject(t);
    assert o[Version] == p[Version] && o[Purpose] == p[Purpose];
    assert o[Payload] == p[Payload] && o[SigValue] == p[SigValue];
  }

  lemma PayloadObjectInjective(s: CommitPayload, t: CommitPayload)
    requires PayloadObject(s) == PayloadObject(t)
    ensures s == t
  {
    var o, p := PayloadObject(s), PayloadObject(t);
    assert o[Version] == p[Version] && o[ProposalDigest] == p[ProposalDigest] && o[Aux] == p[Aux];
  }

  predicate EnvelopeSized(s: Envelope) {
    Sized(EnvelopeWire(s))
  }

  predicate PayloadSized(p: CommitPayload) {
    Sized(PayloadWire(p))
  }

  lemma SameFour(a: seq<Value>, b: seq<Value>)
    requires a == b && |a| == 4
    ensures a[0] == b[0] && a[1] == b[1] && a[2] == b[2] && a[3] == b[3]
  {
  }

  lemma EnvelopeBytesInjective(s: Envelope, t: Envelope)
    requires EnvelopeSized(s) && EnvelopeSized(t)
    requires EnvelopeBytes(s) == EnvelopeBytes(t)
    ensures s == t
  {
    EncodeInjective(EnvelopeWire(s), EnvelopeWire(t));
    SameFour(EnvelopeWire(s).items, EnvelopeWire(t).items);
  }

  lemma PayloadBytesInjective(p: CommitPayload, q: CommitPayload)
    requires PayloadSized(p) && PayloadSized(q)
    requires PayloadBytes(p) == PayloadBytes(q)
    ensures p == q
  {
    EncodeInjective(PayloadWire(p), PayloadWire(q));
    var a, b := PayloadWire(p).items, PayloadWire(q).items;
    assert a[0] == b[0] && a[1] == b[1] && a[2] == b[2];
  }

  /** The octets a consenter signs: one encoding inside another. */
  function SignedCommit(purpose: int64, genesisDigest: bytes, proposalDigest: bytes, aux: bytes): Envelope {
    Envelope(VERSION_V1, purpose, genesisDigest, PayloadBytes(CommitPayload(VERSION_V1, proposalDigest, aux)))
  }

  lemma EnvelopeHoldsPayload(purpose: int64, genesisDigest: bytes, proposalDigest: bytes, aux: bytes)
    requires EnvelopeSized(SignedCommit(purpose, genesisDigest, proposalDigest, aux))
    ensures PayloadSized(CommitPayload(VERSION_V1, proposalDigest, aux))
  {
    var p := CommitPayload(VERSION_V1, proposalDigest, aux);
    var v := EnvelopeWire(SignedCommit(purpose, genesisDigest, proposalDigest, aux));
    ItemLength(v.items, 3);
    ByteLengthMonotone(|Body(PayloadWire(p))|, |Body(v)|);
  }

  /** Equal signed octets mean equal purpose, cluster, proposal and aux: nothing signed can be
      moved to another purpose, another cluster, another proposal or another aux. */
  lemma SignedBytesBindEverything(purpose: int64, genesis: bytes, proposal: bytes, aux: bytes,
                                  purpose': int64, genesis': bytes, proposal': bytes, aux': bytes)
    requires EnvelopeSized(SignedCommit(purpose, genesis, proposal, aux))
    requires EnvelopeSized(SignedCommit(purpose', genesis', proposal', aux'))
    ensures EnvelopeBytes(SignedCommit(purpose, genesis, proposal, aux))
            == EnvelopeBytes(SignedCommit(purpose', genesis', proposal', aux'))
            <==>
            purpose == purpose' && genesis == genesis' && proposal == proposal' && aux == aux'
  {
    var s, t := SignedCommit(purpose, genesis, proposal, aux), SignedCommit(purpose', genesis', proposal', aux');
    if EnvelopeBytes(s) == EnvelopeBytes(t) {
      EnvelopeBytesInjective(s, t);
      EnvelopeHoldsPayload(purpose, genesis, proposal, aux);
      EnvelopeHoldsPayload(purpose', genesis', proposal', aux');
      PayloadBytesInjective(CommitPayload(VERSION_V1, proposal, aux), CommitPayload(VERSION_V1, proposal', aux'));
    }
  }

  /** A blob that is accepted rebuilds, under a digest of the right width, an envelope the
      signer's own check admits; and different digests rebuild different octets. */
  lemma ReconstructedEnvelope(b: Blob, digest: bytes, foreign: bytes)
    requires CheckBlob(b) == None
    requires |digest| == GENESIS_DIGEST_LEN && digest != foreign
    requires EnvelopeSized(Reconstruct(b, digest)) && EnvelopeSized(Reconstruct(b, foreign))
    ensures CheckSigned(Reconstruct(b, digest)) == None
    ensures EnvelopeBytes(Reconstruct(b, digest)) != EnvelopeBytes(Reconstruct(b, foreign))
  {
    if EnvelopeBytes(Reconstruct(b, digest)) == EnvelopeBytes(Reconstruct(b, foreign)) {
      EnvelopeBytesInjective(Reconstruct(b, digest), Reconstruct(b, foreign));
    }
  }

  /** A blob that round-trips rebuilds the same envelope, whatever the decoder. */
  lemma RoundTripRebuilds(decode: Decoder<Blob>, ceiling: nat, b: Blob, digest: bytes)
    requires Decodes(decode, MarshalBlob, ceiling)
    requires CheckBlob(b) == None && |MarshalBlob(b).value| < ceiling
    ensures CheckedVerdict(decode, MarshalBlob, CheckBlob, MarshalBlob(b).value) == None
    ensures Reconstruct(decode(MarshalBlob(b).value).value, digest) == Reconstruct(b, digest)
  {
    UnmarshalInvertsMarshal(decode, MarshalBlob, CheckBlob, ceiling, MarshalBlob(b).value);
  }

  /** The envelope around an accepted blob is sized: no hypothesis of the binding results fails. */
  lemma ReconstructIsSized(b: Blob, digest: bytes)
    requires CheckBlob(b) == None && |b.payload| < 0x1_0000_0000 && |digest| < 0x80
    ensures EnvelopeSized(Reconstruct(b, digest))
  {
    hide Encode;
    var items := [Int(1), Int(b.purpose), Octets(digest), Octets(b.payload)];
    ShortInteger(1);
    ShortInteger(b.purpose);
    ShortOctets(digest);
    LongOctets(b.payload);
    FourItems(items[0], items[1], items[2], items[3]);
    ShortHeader(|EncodeAll(items)|);
  }

  lemma LongOctets(b: bytes)
    requires |b| < 0x1_0000_0000
    ensures |Encode(Octets(b))| <= |b| + 7
  {
    ShortHeader(|b|);
  }
}
