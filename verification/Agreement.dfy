/** The Go package and the Python checker, over any decoder the Go side is given: they accept
    the same inputs up to int64 and the certificate's messages, and neither can be made to
    accept a spliced forgery. */
module Agreement {
  import opened Bytes
  import opened Der
  import opened DerReader
  import opened Schema
  import opened Structures
  import opened Forgeries
  import opened TlvWalker
  import opened Asn1
  import opened GoValues
  import Genesis
  import CommitCert
  import Signed

  /** The Python verdict on b as structure n. */
  ghost predicate PythonAccepts(n: Structure, b: bytes) {
    exists o :: Accepts(n, b, o)
  }

  /** The INTEGERs of b all fit an int64. */
  ghost predicate IntsOfFit(b: bytes) {
    Parse(b).Accept? && IntsFit(Parse(b).value)
  }

  /** o is the object b encodes, with INTEGERs Go can hold. */
  ghost predicate WireObject(n: Structure, b: bytes, o: Object) {
    && Conforms(LayoutOf(n), o)
    && EncodeStruct(LayoutOf(n), o) == b
    && IntsFit(StructValue(LayoutOf(n), o))
  }

  lemma AcceptedObject(n: Structure, b: bytes, o: Object)
    requires |b| < PYTHON_LIMIT
    ensures Accepts(n, b, o) && IntsOfFit(b) <==> WireObject(n, b, o) && Valid(n, o)
  {
    hide Valid, LayoutOf;
    AcceptsIffEncoded(n, b, o);
    if Conforms(LayoutOf(n), o) {
      FitsBelowLimit(StructValue(LayoutOf(n), o));
      ParseEncode(StructValue(LayoutOf(n), o));
    }
  }

  /** Python accepts b with int64 INTEGERs exactly when a valid wire object encodes to it. */
  lemma PythonIsWire(n: Structure, b: bytes)
    requires |b| < PYTHON_LIMIT
    ensures PythonAccepts(n, b) && IntsOfFit(b) <==> exists o :: WireObject(n, b, o) && Valid(n, o)
  {
    forall o
      ensures Accepts(n, b, o) && IntsOfFit(b) <==> WireObject(n, b, o) && Valid(n, o)
    {
      AcceptedObject(n, b, o);
    }
  }

  /** The converse of IntFits and ElementsFit. */
  lemma FieldsFit(l: Layout, o: Object)
    requires Conforms(l, o)
    requires forall i | 0 <= i < |l.fields| :: FieldFits(l.fields[i].kind, Lookup(o, l.fields[i].name))
    ensures IntsFit(StructValue(l, o))
  {
    var v := StructValue(l, o);
    forall x | x in v.items
      ensures IntsFit(x)
    {
      var i :| 0 <= i < |v.items| && v.items[i] == x;
      FieldOf(l, o, i);
      assert FieldFits(l.fields[i].kind, Lookup(o, l.fields[i].name));
    }
  }

  ghost predicate FieldFits(k: Kind, x: FieldValue) {
    KindMatches(k, x) && IntsFit(ToValue(k, x))
  }

  lemma ListFits(e: Layout, os: seq<Object>)
    requires forall i | 0 <= i < |os| :: Conforms(e, os[i]) && IntsFit(StructValue(e, os[i]))
    ensures FieldFits(SEQOF(e), ListField(os))
  {
    var k, x := SEQOF(e), ListField(os);
    assert KindMatches(k, x);
    forall y | y in ToValue(k, x).items
      ensures IntsFit(y)
    {
      var i :| 0 <= i < |os| && ToValue(k, x).items[i] == y;
      ElementOf(k, x, i);
    }
  }

  lemma FiveFit(a: Field, b: Field, c: Field, d: Field, e: Field, o: Object)
    requires Conforms(Layout([a, b, c, d, e]), o)
    requires FieldFits(a.kind, Lookup(o, a.name)) && FieldFits(b.kind, Lookup(o, b.name))
    requires FieldFits(c.kind, Lookup(o, c.name)) && FieldFits(d.kind, Lookup(o, d.name))
    requires FieldFits(e.kind, Lookup(o, e.name))
    ensures IntsFit(StructValue(Layout([a, b, c, d, e]), o))
  {
    hide FieldFits;
    FieldsFit(Layout([a, b, c, d, e]), o);
  }

  lemma FourFit(a: Field, b: Field, c: Field, d: Field, o: Object)
    requires Conforms(Layout([a, b, c, d]), o)
    requires FieldFits(a.kind, Lookup(o, a.name)) && FieldFits(b.kind, Lookup(o, b.name))
    requires FieldFits(c.kind, Lookup(o, c.name)) && FieldFits(d.kind, Lookup(o, d.name))
    ensures IntsFit(StructValue(Layout([a, b, c, d]), o))
  {
    hide FieldFits;
    FieldsFit(Layout([a, b, c, d]), o);
  }

  lemma ThreeFit(a: Field, b: Field, c: Field, o: Object)
    requires Conforms(Layout([a, b, c]), o)
    requires FieldFits(a.kind, Lookup(o, a.name)) && FieldFits(b.kind, Lookup(o, b.name))
    requires FieldFits(c.kind, Lookup(o, c.name))
    ensures IntsFit(StructValue(Layout([a, b, c]), o))
  {
    hide FieldFits;
    FieldsFit(Layout([a, b, c]), o);
  }

  // ------------------------------------------------------------ any Go structure

  /** T is the Go struct of structure n: toObject covers the objects with int64 INTEGERs, and
      marshal encodes them. */
  ghost predicate GoStruct<T(!new)>(n: Structure, marshal: Marshaller<T>, toObject: T -> Object) {
    && (forall v :: IsWireShape(n, toObject(v)) && marshal(v) == Some(EncodeStruct(LayoutOf(n), toObject(v))))
    && (forall o | IsWireShape(n, o) :: exists v :: toObject(v) == o)
  }

  ghost predicate IsWireShape(n: Structure, o: Object) {
    Conforms(LayoutOf(n), o) && IntsFit(StructValue(LayoutOf(n), o))
  }

  ghost predicate Admits<T(!new)>(marshal: Marshaller<T>, admit: T -> bool, b: bytes) {
    exists v :: admit(v) && marshal(v) == Some(b)
  }

  /** Whatever condition Go puts on the values, Python accepts their octets when the condition
      is validity. */
  lemma AdmittedIsAccepted<T(!new)>(n: Structure, marshal: Marshaller<T>, toObject: T -> Object, admit: T -> bool,
                                    b: bytes)
    requires GoStruct(n, marshal, toObject)
    requires forall v :: admit(v) <==> Valid(n, toObject(v))
    requires |b| < PYTHON_LIMIT
    ensures Admits(marshal, admit, b) <==> PythonAccepts(n, b) && IntsOfFit(b)
  {
    hide Valid, LayoutOf, Conforms, StructValue, IntsFit, PythonAccepts, IntsOfFit, Encode;
    PythonIsWire(n, b);
    if Admits(marshal, admit, b) {
      var v :| admit(v) && marshal(v) == Some(b);
      assert IsWireShape(n, toObject(v));
      assert WireObject(n, b, toObject(v));
    }
    if o :| WireObject(n, b, o) && Valid(n, o) {
      assert IsWireShape(n, o);
      var v :| toObject(v) == o;
      assert admit(v) && marshal(v) == Some(b);
    }
  }

  /** An exported Unmarshal and the Python checker give one verdict. */
  lemma SameVerdict<T(!new)>(n: Structure, decode: Decoder<T>, marshal: Marshaller<T>, check: T -> Option<Error>,
                             toObject: T -> Object, ceiling: nat, b: bytes)
    requires GoStruct(n, marshal, toObject)
    requires forall v :: check(v) == None <==> Valid(n, toObject(v))
    requires Decodes(decode, marshal, ceiling)
    requires |b| < ceiling && |b| < PYTHON_LIMIT
    ensures CheckedVerdict(decode, marshal, check, b) == None <==> PythonAccepts(n, b) && IntsOfFit(b)
  {
    hide Valid, PythonAccepts, IntsOfFit, GoStruct;
    UnmarshalInvertsMarshal(decode, marshal, check, ceiling, b);
    var admit := v => check(v) == None;
    AdmittedIsAccepted(n, marshal, toObject, admit, b);
    assert CheckedMarshalled(marshal, check, b) <==> Admits(marshal, admit, b);
  }

  /** Such a decoder exists for every structure: its encodings are a prefix-free code. */
  lemma DecoderExists<T(!new)>(n: Structure, marshal: Marshaller<T>, toObject: T -> Object, ceiling: nat, zero: T)
    returns (decode: Decoder<T>)
    requires GoStruct(n, marshal, toObject)
    requires forall v, w | toObject(v) == toObject(w) :: v == w
    requires ceiling <= PYTHON_LIMIT
    ensures Decodes(decode, marshal, ceiling)
  {
    hide LayoutOf, Conforms, StructValue, IntsFit, Encode;
    forall v, w |
      UnderCeiling(marshal, ceiling, v) && UnderCeiling(marshal, ceiling, w) && marshal(v).value <= marshal(w).value
      ensures v == w
    {
      assert IsWireShape(n, toObject(v)) && IsWireShape(n, toObject(w));
      ObjectsPrefixFree(n, toObject(v), toObject(w));
    }
    decode := PrefixFreeHasDecoder(marshal, ceiling, zero);
  }

  lemma ObjectsPrefixFree(n: Structure, o: Object, p: Object)
    requires Conforms(LayoutOf(n), o) && Conforms(LayoutOf(n), p)
    requires EncodeStruct(LayoutOf(n), o) <= EncodeStruct(LayoutOf(n), p)
    requires |EncodeStruct(LayoutOf(n), p)| < PYTHON_LIMIT
    ensures o == p
  {
    hide LayoutOf, Conforms, StructValue;
    var v, w := StructValue(LayoutOf(n), o), StructValue(LayoutOf(n), p);
    FitsBelowLimit(v);
    FitsBelowLimit(w);
    FitsIsSized(v);
    FitsIsSized(w);
    PrefixFree(v, w, Encode(w));
    StructValueInjective(LayoutOf(n), o, p);
  }

  /** Go's values hold int64 INTEGERs, and so do the inputs accepted for them. */
  lemma AcceptedIntsFit<T(!new)>(n: Structure, marshal: Marshaller<T>, toObject: T -> Object, v: T, b: bytes)
    requires GoStruct(n, marshal, toObject)
    requires marshal(v) == Some(b) && |b| < PYTHON_LIMIT
    ensures IntsOfFit(b)
  {
    hide LayoutOf, Conforms, StructValue, IntsFit, Encode;
    assert IsWireShape(n, toObject(v));
    FitsBelowLimit(StructValue(LayoutOf(n), toObject(v)));
    ParseEncode(StructValue(LayoutOf(n), toObject(v)));
  }

  // ------------------------------------------------------------ GenesisV1

  lemma MemberFits(m: Genesis.Member)
    ensures IntsFit(StructValue(LayoutOf(GenesisMemberV1), Genesis.MemberObject(m)))
  {
    ThreeFit(Field(NodeID, INT), Field(SpiffeID, OCT), Field(LeafPubKey, OCT), Genesis.MemberObject(m));
  }

  lemma MembersFit(ms: seq<Genesis.Member>)
    ensures FieldFits(SEQOF(LayoutOf(GenesisMemberV1)), ListField(Genesis.MemberObjects(ms)))
  {
    hide LayoutOf, Conforms, StructValue, FieldFits, IntsFit;
    var os := Genesis.MemberObjects(ms);
    forall i | 0 <= i < |os|
      ensures Conforms(LayoutOf(GenesisMemberV1), os[i]) && IntsFit(StructValue(LayoutOf(GenesisMemberV1), os[i]))
    {
      MemberFits(ms[i]);
    }
    ListFits(LayoutOf(GenesisMemberV1), os);
  }

  lemma GenesisFits(g: Genesis.Genesis)
    ensures IntsFit(StructValue(LayoutOf(GenesisV1), Genesis.ToObject(g)))
  {
    hide LayoutOf, Conforms, StructValue;
    MembersFit(g.members);
    Genesis.GenesisLayout();
    FiveFit(Field(Version, INT), Field(TrustDomain, OCT), Field(CARoot, OCT), Field(MaxNodes, INT),
            Field(Members, SEQOF(LayoutOf(GenesisMemberV1))), Genesis.ToObject(g));
  }

  lemma GenesisIsGoStruct()
    ensures GoStruct(GenesisV1, Genesis.Marshal, Genesis.ToObject)
  {
    hide LayoutOf, Conforms, StructValue, IntsFit, Genesis.ToObject, Encode;
    forall g: Genesis.Genesis
      ensures IsWireShape(GenesisV1, Genesis.ToObject(g))
           && Genesis.Marshal(g) == Some(EncodeStruct(LayoutOf(GenesisV1), Genesis.ToObject(g)))
    {
      GenesisFits(g);
      Genesis.WireIsStructValue(g);
    }
    forall o | IsWireShape(GenesisV1, o)
      ensures exists g :: Genesis.ToObject(g) == o
    {
      var g := Genesis.FromObject(o);
    }
  }

  /** GenesisV1 has a decoder that meets the contract. */
  lemma GenesisDecoder(ceiling: nat) returns (decode: Decoder<Genesis.Genesis>)
    requires ceiling <= PYTHON_LIMIT
    ensures Decodes(decode, Genesis.Marshal, ceiling)
  {
    hide GoStruct, Genesis.ToObject;
    GenesisIsGoStruct();
    forall g, h | Genesis.ToObject(g) == Genesis.ToObject(h)
      ensures g == h
    {
      Genesis.ToObjectInjective(g, h);
    }
    decode := DecoderExists(GenesisV1, Genesis.Marshal, Genesis.ToObject, ceiling, Genesis.ZERO);
  }

  /** UnmarshalGenesisV1 and the Python checker give one verdict. */
  lemma GenesisAgreement(decode: Decoder<Genesis.Genesis>, ceiling: nat, b: bytes)
    requires Decodes(decode, Genesis.Marshal, ceiling)
    requires |b| < ceiling && |b| < PYTHON_LIMIT
    ensures CheckedVerdict(decode, Genesis.Marshal, Genesis.Check, b) == None
            <==> PythonAccepts(GenesisV1, b) && IntsOfFit(b)
  {
    hide Valid, GoStruct, PythonAccepts, IntsOfFit, CheckedVerdict, Decodes, Genesis.ToObject, Genesis.Check,
         Genesis.Marshal;
    GenesisIsGoStruct();
    forall g
      ensures Genesis.Check(g) == None <==> Valid(GenesisV1, Genesis.ToObject(g))
    {
      Genesis.CheckIsValid(g);
    }
    SameVerdict(GenesisV1, decode, Genesis.Marshal, Genesis.Check, Genesis.ToObject, ceiling, b);
  }

  // ------------------------------------------------------------ SignedV1, SignedBlobV1, CommitPayloadV1

  lemma SignedIsGoStruct()
    ensures GoStruct(SignedV1, Signed.MarshalSigned, Signed.EnvelopeObject)
  {
    hide LayoutOf, Conforms, StructValue, IntsFit, Signed.EnvelopeObject, Encode;
    forall x: Signed.Envelope
      ensures IsWireShape(SignedV1, Signed.EnvelopeObject(x))
           && Signed.MarshalSigned(x) == Some(EncodeStruct(LayoutOf(SignedV1), Signed.EnvelopeObject(x)))
    {
      SignedFits(x);
      Signed.EnvelopeWireIsStructValue(x);
    }
    forall o | IsWireShape(SignedV1, o)
      ensures exists x :: Signed.EnvelopeObject(x) == o
    {
      var x := Signed.EnvelopeFrom(o);
    }
  }

  lemma SignedFits(x: Signed.Envelope)
    ensures IntsFit(StructValue(LayoutOf(SignedV1), Signed.EnvelopeObject(x)))
  {
    FourFit(Field(Version, INT), Field(Purpose, INT), Field(GenesisDigest, OCT), Field(Payload, OCT),
            Signed.EnvelopeObject(x));
  }

  /** SignedV1 has a decoder that meets the contract. */
  lemma SignedDecoder(ceiling: nat) returns (decode: Decoder<Signed.Envelope>)
    requires ceiling <= PYTHON_LIMIT
    ensures Decodes(decode, Signed.MarshalSigned, ceiling)
  {
    hide GoStruct, Signed.EnvelopeObject;
    SignedIsGoStruct();
    forall x, y | Signed.EnvelopeObject(x) == Signed.EnvelopeObject(y)
      ensures x == y
    {
      Signed.EnvelopeObjectInjective(x, y);
    }
    var zero := Signed.Envelope(0, 0, [], []);
    decode := DecoderExists(SignedV1, Signed.MarshalSigned, Signed.EnvelopeObject, ceiling, zero);
  }

  /** UnmarshalSignedV1 and the Python checker give one verdict. */
  lemma SignedAgreement(decode: Decoder<Signed.Envelope>, ceiling: nat, b: bytes)
    requires Decodes(decode, Signed.MarshalSigned, ceiling)
    requires |b| < ceiling && |b| < PYTHON_LIMIT
    ensures CheckedVerdict(decode, Signed.MarshalSigned, Signed.CheckSigned, b) == None
            <==> PythonAccepts(SignedV1, b) && IntsOfFit(b)
  {
    hide Valid, GoStruct, PythonAccepts, IntsOfFit, CheckedVerdict, Decodes, Signed.EnvelopeObject,
         Signed.CheckSigned, Signed.MarshalSigned;
    SignedIsGoStruct();
    forall x
      ensures Signed.CheckSigned(x) == None <==> Valid(SignedV1, Signed.EnvelopeObject(x))
    {
      Signed.CheckSignedIsValid(x);
    }
    SameVerdict(SignedV1, decode, Signed.MarshalSigned, Signed.CheckSigned, Signed.EnvelopeObject, ceiling, b);
  }

  lemma BlobIsGoStruct()
    ensures GoStruct(SignedBlobV1, Signed.MarshalBlob, Signed.BlobObject)
  {
    hide LayoutOf, Conforms, StructValue, IntsFit, Signed.BlobObject, Encode;
    forall x: Signed.Blob
      ensures IsWireShape(SignedBlobV1, Signed.BlobObject(x))
           && Signed.MarshalBlob(x) == Some(EncodeStruct(LayoutOf(SignedBlobV1), Signed.BlobObject(x)))
    {
      BlobFits(x);
      Signed.BlobWireIsStructValue(x);
    }
    forall o | IsWireShape(SignedBlobV1, o)
      ensures exists x :: Signed.BlobObject(x) == o
    {
      var x := Signed.BlobFrom(o);
    }
  }

  lemma BlobFits(x: Signed.Blob)
    ensures IntsFit(StructValue(LayoutOf(SignedBlobV1), Signed.BlobObject(x)))
  {
    FourFit(Field(Version, INT), Field(Purpose, INT), Field(Payload, OCT), Field(SigValue, OCT), Signed.BlobObject(x));
  }

  /** SignedBlobV1 has a decoder that meets the contract. */
  lemma BlobDecoder(ceiling: nat) returns (decode: Decoder<Signed.Blob>)
    requires ceiling <= PYTHON_LIMIT
    ensures Decodes(decode, Signed.MarshalBlob, ceiling)
  {
    hide GoStruct, Signed.BlobObject;
    BlobIsGoStruct();
    forall x, y | Signed.BlobObject(x) == Signed.BlobObject(y)
      ensures x == y
    {
      Signed.BlobObjectInjective(x, y);
    }
    decode := DecoderExists(SignedBlobV1, Signed.MarshalBlob, Signed.BlobObject, ceiling, Signed.Blob(0, 0, [], []));
  }

  /** UnmarshalSignedBlobV1 and the Python checker give one verdict. */
  lemma BlobAgreement(decode: Decoder<Signed.Blob>, ceiling: nat, b: bytes)
    requires Decodes(decode, Signed.MarshalBlob, ceiling)
    requires |b| < ceiling && |b| < PYTHON_LIMIT
    ensures CheckedVerdict(decode, Signed.MarshalBlob, Signed.CheckBlob, b) == None
            <==> PythonAccepts(SignedBlobV1, b) && IntsOfFit(b)
  {
    hide Valid, GoStruct, PythonAccepts, IntsOfFit, CheckedVerdict, Decodes, Signed.BlobObject, Signed.CheckBlob,
         Signed.MarshalBlob;
    BlobIsGoStruct();
    forall x
      ensures Signed.CheckBlob(x) == None <==> Valid(SignedBlobV1, Signed.BlobObject(x))
    {
      Signed.CheckBlobIsValid(x);
    }
    SameVerdict(SignedBlobV1, decode, Signed.MarshalBlob, Signed.CheckBlob, Signed.BlobObject, ceiling, b);
  }

  lemma PayloadIsGoStruct()
    ensures GoStruct(CommitPayloadV1, Signed.MarshalPayload, Signed.PayloadObject)
  {
    hide LayoutOf, Conforms, StructValue, IntsFit, Signed.PayloadObject, Encode;
    forall x: Signed.CommitPayload
      ensures IsWireShape(CommitPayloadV1, Signed.PayloadObject(x))
           && Signed.MarshalPayload(x) == Some(EncodeStruct(LayoutOf(CommitPayloadV1), Signed.PayloadObject(x)))
    {
      PayloadFits(x);
      Signed.PayloadWireIsStructValue(x);
    }
    forall o | IsWireShape(CommitPayloadV1, o)
      ensures exists x :: Signed.PayloadObject(x) == o
    {
      var x := Signed.PayloadFrom(o);
    }
  }

  lemma PayloadFits(x: Signed.CommitPayload)
    ensures IntsFit(StructValue(LayoutOf(CommitPayloadV1), Signed.PayloadObject(x)))
  {
    ThreeFit(Field(Version, INT), Field(ProposalDigest, OCT), Field(Aux, OCT), Signed.PayloadObject(x));
  }

  /** CommitPayloadV1 has a decoder that meets the contract. */
  lemma PayloadDecoder(ceiling: nat) returns (decode: Decoder<Signed.CommitPayload>)
    requires ceiling <= PYTHON_LIMIT
    ensures Decodes(decode, Signed.MarshalPayload, ceiling)
  {
    hide GoStruct, Signed.PayloadObject;
    PayloadIsGoStruct();
    forall x, y | Signed.PayloadObject(x) == Signed.PayloadObject(y)
      ensures x == y
    {
      Signed.PayloadObjectInjective(x, y);
    }
    var zero := Signed.CommitPayload(0, [], []);
    decode := DecoderExists(CommitPayloadV1, Signed.MarshalPayload, Signed.PayloadObject, ceiling, zero);
  }

  /** UnmarshalCommitPayloadV1 and the Python checker give one verdict. */
  lemma PayloadAgreement(decode: Decoder<Signed.CommitPayload>, ceiling: nat, b: bytes)
    requires Decodes(decode, Signed.MarshalPayload, ceiling)
    requires |b| < ceiling && |b| < PYTHON_LIMIT
    ensures CheckedVerdict(decode, Signed.MarshalPayload, Signed.CheckPayload, b) == None
            <==> PythonAccepts(CommitPayloadV1, b) && IntsOfFit(b)
  {
    hide Valid, GoStruct, PythonAccepts, IntsOfFit, CheckedVerdict, Decodes, Signed.PayloadObject,
         Signed.CheckPayload, Signed.MarshalPayload;
    PayloadIsGoStruct();
    forall x
      ensures Signed.CheckPayload(x) == None <==> Valid(CommitPayloadV1, Signed.PayloadObject(x))
    {
      Signed.CheckPayloadIsValid(x);
    }
    SameVerdict(CommitPayloadV1, decode, Signed.MarshalPayload, Signed.CheckPayload, Signed.PayloadObject, ceiling, b);
  }

  // ------------------------------------------------------------ CommitCertificateV1

  lemma SigFits(s: CommitCert.SignerSig)
    ensures IntsFit(StructValue(LayoutOf(SignerSigV0), CommitCert.SigObject(s)))
  {
    ThreeFit(Field(Signer, INT), Field(SigValue, OCT), Field(Msg, OCT), CommitCert.SigObject(s));
  }

  lemma SigsFit(ss: seq<CommitCert.SignerSig>)
    ensures FieldFits(SEQOF(LayoutOf(SignerSigV0)), ListField(CommitCert.SigObjects(ss)))
  {
    hide LayoutOf, Conforms, StructValue, FieldFits, IntsFit;
    var os := CommitCert.SigObjects(ss);
    forall i | 0 <= i < |os|
      ensures Conforms(LayoutOf(SignerSigV0), os[i]) && IntsFit(StructValue(LayoutOf(SignerSigV0), os[i]))
    {
      SigFits(ss[i]);
    }
    ListFits(LayoutOf(SignerSigV0), os);
  }

  lemma CertificateFits(c: CommitCert.CommitCert)
    ensures IntsFit(StructValue(LayoutOf(CommitCertificateV1), CommitCert.ToObject(c)))
  {
    hide LayoutOf, Conforms, StructValue;
    SigsFit(c.sigs);
    CertificateLayout();
    FiveFit(Field(Version, INT), Field(ProposalDigest, OCT), Field(View, INT), Field(SeqNo, INT),
            Field(Sigs, SEQOF(LayoutOf(SignerSigV0))), CommitCert.ToObject(c));
  }

  lemma CertificateIsGoStruct()
    ensures GoStruct(CommitCertificateV1, CommitCert.Marshal, CommitCert.ToObject)
  {
    hide LayoutOf, Conforms, StructValue, IntsFit, CommitCert.ToObject, Encode;
    forall c: CommitCert.CommitCert
      ensures IsWireShape(CommitCertificateV1, CommitCert.ToObject(c))
           && CommitCert.Marshal(c) == Some(EncodeStruct(LayoutOf(CommitCertificateV1), CommitCert.ToObject(c)))
    {
      CertificateFits(c);
      CommitCert.WireIsStructValue(c);
    }
    forall o | IsWireShape(CommitCertificateV1, o)
      ensures exists c :: CommitCert.ToObject(c) == o
    {
      var c := CommitCert.FromObject(o);
    }
  }

  /** CommitCertificateV1 has a decoder that meets the contract. */
  lemma CertificateDecoder(ceiling: nat) returns (decode: Decoder<CommitCert.CommitCert>)
    requires ceiling <= PYTHON_LIMIT
    ensures Decodes(decode, CommitCert.Marshal, ceiling)
  {
    hide GoStruct, CommitCert.ToObject;
    CertificateIsGoStruct();
    forall x, y | CommitCert.ToObject(x) == CommitCert.ToObject(y)
      ensures x == y
    {
      CommitCert.ToObjectInjective(x, y);
    }
    decode := DecoderExists(CommitCertificateV1, CommitCert.Marshal, CommitCert.ToObject, ceiling, CommitCert.ZERO);
  }

  /** No entry's message is a valid commit payload for another proposal. */
  ghost predicate MessagesNameProposal(c: CommitCert.CommitCert) {
    forall s | s in c.sigs ::
      PayloadOf(s.msg).Accept? ==> OctOf(PayloadOf(s.msg).value, ProposalDigest) == c.proposalDigest
  }

  lemma EntryMessage(c: CommitCert.CommitCert, i: nat)
    requires i < |c.sigs|
    ensures OctOf(CommitCert.SigObjects(c.sigs)[i], Msg) == c.sigs[i].msg
  {
    assert CommitCert.SigObjects(c.sigs)[i] == CommitCert.SigObject(c.sigs[i]);
  }

  lemma MessagesAgreeForGo(c: CommitCert.CommitCert)
    ensures MessagesAgree(CommitCert.ToObject(c)) <==> MessagesNameProposal(c)
  {
    hide PayloadOf, LayoutOf, CommitCert.ToObject, CommitCert.SigObjects, OctOf, ListOf;
    var o, os := CommitCert.ToObject(c), CommitCert.SigObjects(c.sigs);
    CommitCert.ObjectReads(c);
    forall i | 0 <= i < |c.sigs|
      ensures os[i] in os && c.sigs[i] in c.sigs && OctOf(os[i], Msg) == c.sigs[i].msg
    {
      EntryMessage(c, i);
    }
    if MessagesAgree(o) {
      forall s | s in c.sigs
        ensures PayloadOf(s.msg).Accept? ==> OctOf(PayloadOf(s.msg).value, ProposalDigest) == c.proposalDigest
      {
        var i :| 0 <= i < |c.sigs| && c.sigs[i] == s;
        assert MessageAgrees(o, os[i]);
      }
    }
  }

  lemma AdmittedCertificate(c: CommitCert.CommitCert)
    ensures CommitCert.Check(c) == None && MessagesNameProposal(c)
            <==> Valid(CommitCertificateV1, CommitCert.ToObject(c))
  {
    hide CommitCert.Check, CommitCert.ToObject, MessagesNameProposal, MessagesAgree, ValidCertShape;
    CommitCert.CheckIsShape(c);
    MessagesAgreeForGo(c);
  }

  /** The one exception: Python also looks inside the messages, and refuses beyond Go exactly
      the certificates with a valid commit payload for another proposal. */
  lemma CertificateAgreement(decode: Decoder<CommitCert.CommitCert>, ceiling: nat, b: bytes)
    requires Decodes(decode, CommitCert.Marshal, ceiling)
    requires |b| < ceiling && |b| < PYTHON_LIMIT
    ensures PythonAccepts(CommitCertificateV1, b) && IntsOfFit(b)
            <==>
            && CheckedVerdict(decode, CommitCert.Marshal, CommitCert.Check, b) == None
            && MessagesNameProposal(decode(b).value)
    ensures CheckedVerdict(decode, CommitCert.Marshal, CommitCert.Check, b) == None ==> IntsOfFit(b)
  {
    hide Valid, GoStruct, PythonAccepts, IntsOfFit, MessagesNameProposal, CommitCert.ToObject, CommitCert.Check;
    CertificateIsGoStruct();
    UnmarshalInvertsMarshal(decode, CommitCert.Marshal, CommitCert.Check, ceiling, b);
    var admit := (c: CommitCert.CommitCert) => CommitCert.Check(c) == None && MessagesNameProposal(c);
    forall c
      ensures admit(c) <==> Valid(CommitCertificateV1, CommitCert.ToObject(c))
    {
      AdmittedCertificate(c);
    }
    AdmittedIsAccepted(CommitCertificateV1, CommitCert.Marshal, CommitCert.ToObject, admit, b);
    if CheckedVerdict(decode, CommitCert.Marshal, CommitCert.Check, b) == None {
      var c := decode(b).value;
      assert CommitCert.Marshal(c) == Some(b) && CommitCert.Check(c) == None;
      AcceptedIntsFit(CommitCertificateV1, CommitCert.Marshal, CommitCert.ToObject, c, b);
    }
  }

  // ------------------------------------------------------------ no spliced forgery in Go

  /** A forgery spliced from a structure's encoding is no structure's encoding. */
  lemma ForgeryNeverMarshalled(l: Layout, o: Object, p: Path, o': Object)
    requires Conforms(l, o) && Conforms(l, o')
    requires Fits(StructValue(l, o)) && SeqAt(StructValue(l, o), p)
    ensures EncodeStruct(l, o') != Encode(Splice(StructValue(l, o), p))
  {
    var v, w := Splice(StructValue(l, o), p), StructValue(l, o');
    SpliceSized(StructValue(l, o), p);
    SpliceUndecodable(l, o, p, o');
    if Encode(v) == Encode(w) {
      EncodingLength(v, w);
      EncodingLength(w, v);
      EncodeInjective(v, w);
    }
  }

  /** Whatever SEQUENCE the Go walker splices into, and whatever the decoder does with the
      result, unmarshal refuses it; and it did change the octets. */
  lemma GoRefusesEverySplice<T(!new)>(decode: Decoder<T>, marshal: Marshaller<T>, l: Layout, toObject: T -> Object,
                                      v: T, target: nat)
    requires forall w :: Conforms(l, toObject(w)) && marshal(w) == Some(EncodeStruct(l, toObject(w)))
    requires Fits(StructValue(l, toObject(v)))
    requires target < SeqCount(StructValue(l, toObject(v)))
    ensures var forged := Spliced([NodeOf(StructValue(l, toObject(v)))], target, EXTRA, 0);
            Verdict(decode, marshal, forged) != None && Some(forged) != marshal(v)
  {
    hide Splice, Spliced, NodeOf, SeqAt;
    var tree := StructValue(l, toObject(v));
    WalkerRefinesSplice(tree, target, EXTRA);
    PathCount(tree, []);
    var p := SeqPaths(tree, [])[target];
    forall w: T
      ensures marshal(w) != Some(Encode(Splice(tree, p)))
    {
      ForgeryNeverMarshalled(l, toObject(v), p, toObject(w));
    }
  }
}
