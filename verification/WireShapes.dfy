/** The wire order of every structure, field by field, without its layout: SCHEMAS of
    ci/verify_vectors.py read as the octets it stands for. */
module WireShapes {
  import opened Der
  import opened Schema
  import opened Structures

  /** A SEQUENCE OF has one item for each element, in order. */
  function Each(xs: seq<Object>, item: Object -> Value): (vs: seq<Value>)
    ensures |vs| == |xs|
  {
    seq(|xs|, i requires 0 <= i < |xs| => item(xs[i]))
  }

  function MemberItem(o: Object): Value {
    Seq([Int(IntOf(o, NodeID)), Octets(OctOf(o, SpiffeID)), Octets(OctOf(o, LeafPubKey))])
  }

  function EntryItem(o: Object): Value {
    Seq([Int(IntOf(o, Signer)), Octets(OctOf(o, SigValue)), Octets(OctOf(o, Msg))])
  }

  function CertItem(o: Object): Value {
    Seq([Octets(OctOf(o, CertDER))])
  }

  lemma IntItem(l: Layout, o: Object, n: nat, f: FieldName)
    requires Conforms(l, o) && n < |l.fields| && l.fields[n] == Field(f, INT)
    ensures StructValue(l, o).items[n] == Int(IntOf(o, f))
  {
    FieldOf(l, o, n);
  }

  lemma OctItem(l: Layout, o: Object, n: nat, f: FieldName)
    requires Conforms(l, o) && n < |l.fields| && l.fields[n] == Field(f, OCT)
    ensures StructValue(l, o).items[n] == Octets(OctOf(o, f))
  {
    FieldOf(l, o, n);
  }

  /** The items of a SEQUENCE OF field are those its elements are written as. */
  lemma ListItems(l: Layout, o: Object, n: nat, item: Object -> Value)
    requires Conforms(l, o) && n < |l.fields| && l.fields[n].kind.SEQOF?
    requires forall e | Conforms(l.fields[n].kind.element, e) :: StructValue(l.fields[n].kind.element, e) == item(e)
    ensures StructValue(l, o).items[n] == Seq(Each(ListOf(o, l.fields[n].name), item))
  {
    hide Conforms, StructValue;
    FieldOf(l, o, n);
    var k, x := l.fields[n].kind, Lookup(o, l.fields[n].name);
    forall i | 0 <= i < |x.elements|
      ensures ToValue(k, x).items[i] == item(x.elements[i])
    {
      ElementOf(k, x, i);
    }
    assert ToValue(k, x).items == Each(x.elements, item);
  }

  lemma HeaderShape(o: Object)
    requires Conforms(LayoutOf(Header), o)
    ensures StructValue(LayoutOf(Header), o)
            == Seq([Int(IntOf(o, Version)), Octets(OctOf(o, PrevStateRoot)), Int(IntOf(o, PrevSeq)),
                    Int(IntOf(o, ConsensusTime))])
  {
    hide Conforms, StructValue, IntOf, OctOf, ListOf;
    var l := LayoutOf(Header);
    IntItem(l, o, 0, Version);
    OctItem(l, o, 1, PrevStateRoot);
    IntItem(l, o, 2, PrevSeq);
    IntItem(l, o, 3, ConsensusTime);
    var v := StructValue(l, o);
    assert v.items == [v.items[0], v.items[1], v.items[2], v.items[3]];
  }

  lemma ProposalV0Shape(o: Object)
    requires Conforms(LayoutOf(ProposalV0), o)
    ensures StructValue(LayoutOf(ProposalV0), o)
            == Seq([Octets(OctOf(o, Payload)), Octets(OctOf(o, HeaderBytes)), Octets(OctOf(o, Metadata)),
                    Int(IntOf(o, VerificationSequence))])
  {
    hide Conforms, StructValue, IntOf, OctOf, ListOf;
    var l := LayoutOf(ProposalV0);
    OctItem(l, o, 0, Payload);
    OctItem(l, o, 1, HeaderBytes);
    OctItem(l, o, 2, Metadata);
    IntItem(l, o, 3, VerificationSequence);
    var v := StructValue(l, o);
    assert v.items == [v.items[0], v.items[1], v.items[2], v.items[3]];
  }

  lemma GenesisMemberV1Shape(o: Object)
    requires Conforms(LayoutOf(GenesisMemberV1), o)
    ensures StructValue(LayoutOf(GenesisMemberV1), o)
            == Seq([Int(IntOf(o, NodeID)), Octets(OctOf(o, SpiffeID)), Octets(OctOf(o, LeafPubKey))])
  {
    hide Conforms, StructValue, IntOf, OctOf, ListOf;
    var l := LayoutOf(GenesisMemberV1);
    IntItem(l, o, 0, NodeID);
    OctItem(l, o, 1, SpiffeID);
    OctItem(l, o, 2, LeafPubKey);
    var v := StructValue(l, o);
    assert v.items == [v.items[0], v.items[1], v.items[2]];
  }

  lemma SignerSigV0Shape(o: Object)
    requires Conforms(LayoutOf(SignerSigV0), o)
    ensures StructValue(LayoutOf(SignerSigV0), o)
            == Seq([Int(IntOf(o, Signer)), Octets(OctOf(o, SigValue)), Octets(OctOf(o, Msg))])
  {
    hide Conforms, StructValue, IntOf, OctOf, ListOf;
    var l := LayoutOf(SignerSigV0);
    IntItem(l, o, 0, Signer);
    OctItem(l, o, 1, SigValue);
    OctItem(l, o, 2, Msg);
    var v := StructValue(l, o);
    assert v.items == [v.items[0], v.items[1], v.items[2]];
  }

  lemma CertificateV1Shape(o: Object)
    requires Conforms(LayoutOf(CertificateV1), o)
    ensures StructValue(LayoutOf(CertificateV1), o)
            == Seq([Octets(OctOf(o, CertDER))])
  {
    hide Conforms, StructValue, IntOf, OctOf, ListOf;
    var l := LayoutOf(CertificateV1);
    OctItem(l, o, 0, CertDER);
    var v := StructValue(l, o);
    assert v.items == [v.items[0]];
  }

  lemma SignedV1Shape(o: Object)
    requires Conforms(LayoutOf(SignedV1), o)
    ensures StructValue(LayoutOf(SignedV1), o)
            == Seq([Int(IntOf(o, Version)), Int(IntOf(o, Purpose)), Octets(OctOf(o, GenesisDigest)),
                    Octets(OctOf(o, Payload))])
  {
    hide Conforms, StructValue, IntOf, OctOf, ListOf;
    var l := LayoutOf(SignedV1);
    IntItem(l, o, 0, Version);
    IntItem(l, o, 1, Purpose);
    OctItem(l, o, 2, GenesisDigest);
    OctItem(l, o, 3, Payload);
    var v := StructValue(l, o);
    assert v.items == [v.items[0], v.items[1], v.items[2], v.items[3]];
  }

  lemma SignedBlobV1Shape(o: Object)
    requires Conforms(LayoutOf(SignedBlobV1), o)
    ensures StructValue(LayoutOf(SignedBlobV1), o)
            == Seq([Int(IntOf(o, Version)), Int(IntOf(o, Purpose)), Octets(OctOf(o, Payload)),
                    Octets(OctOf(o, SigValue))])
  {
    hide Conforms, StructValue, IntOf, OctOf, ListOf;
    var l := LayoutOf(SignedBlobV1);
    IntItem(l, o, 0, Version);
    IntItem(l, o, 1, Purpose);
    OctItem(l, o, 2, Payload);
    OctItem(l, o, 3, SigValue);
    var v := StructValue(l, o);
    assert v.items == [v.items[0], v.items[1], v.items[2], v.items[3]];
  }

  lemma CommitPayloadV1Shape(o: Object)
    requires Conforms(LayoutOf(CommitPayloadV1), o)
    ensures StructValue(LayoutOf(CommitPayloadV1), o)
            == Seq([Int(IntOf(o, Version)), Octets(OctOf(o, ProposalDigest)), Octets(OctOf(o, Aux))])
  {
    hide Conforms, StructValue, IntOf, OctOf, ListOf;
    var l := LayoutOf(CommitPayloadV1);
    IntItem(l, o, 0, Version);
    OctItem(l, o, 1, ProposalDigest);
    OctItem(l, o, 2, Aux);
    var v := StructValue(l, o);
    assert v.items == [v.items[0], v.items[1], v.items[2]];
  }

  lemma ReadIndexV1Shape(o: Object)
    requires Conforms(LayoutOf(ReadIndexV1), o)
    ensures StructValue(LayoutOf(ReadIndexV1), o)
            == Seq([Int(IntOf(o, Version)), Int(IntOf(o, SignerID)), Int(IntOf(o, View)), Int(IntOf(o, SeqNo)),
                    Octets(OctOf(o, Nonce))])
  {
    hide Conforms, StructValue, IntOf, OctOf, ListOf;
    var l := LayoutOf(ReadIndexV1);
    IntItem(l, o, 0, Version);
    IntItem(l, o, 1, SignerID);
    IntItem(l, o, 2, View);
    IntItem(l, o, 3, SeqNo);
    OctItem(l, o, 4, Nonce);
    var v := StructValue(l, o);
    assert v.items == [v.items[0], v.items[1], v.items[2], v.items[3], v.items[4]];
  }

  lemma GenesisV1Shape(o: Object)
    requires Conforms(LayoutOf(GenesisV1), o)
    ensures StructValue(LayoutOf(GenesisV1), o)
            == Seq([Int(IntOf(o, Version)), Octets(OctOf(o, TrustDomain)), Octets(OctOf(o, CARoot)),
                    Int(IntOf(o, MaxNodes)), Seq(Each(ListOf(o, Members), MemberItem))])
  {
    hide Conforms, StructValue, IntOf, OctOf, ListOf;
    var l := LayoutOf(GenesisV1);
    IntItem(l, o, 0, Version);
    OctItem(l, o, 1, TrustDomain);
    OctItem(l, o, 2, CARoot);
    IntItem(l, o, 3, MaxNodes);
    forall e | Conforms(LayoutOf(GenesisMemberV1), e)
      ensures StructValue(LayoutOf(GenesisMemberV1), e) == MemberItem(e)
    {
      GenesisMemberV1Shape(e);
    }
    ListItems(l, o, 4, MemberItem);
    var v := StructValue(l, o);
    assert v.items == [v.items[0], v.items[1], v.items[2], v.items[3], v.items[4]];
  }

  lemma SignatureSetV0Shape(o: Object)
    requires Conforms(LayoutOf(SignatureSetV0), o)
    ensures StructValue(LayoutOf(SignatureSetV0), o)
            == Seq([Seq(Each(ListOf(o, Sigs), EntryItem))])
  {
    hide Conforms, StructValue, IntOf, OctOf, ListOf;
    var l := LayoutOf(SignatureSetV0);
    forall e | Conforms(LayoutOf(SignerSigV0), e)
      ensures StructValue(LayoutOf(SignerSigV0), e) == EntryItem(e)
    {
      SignerSigV0Shape(e);
    }
    ListItems(l, o, 0, EntryItem);
    var v := StructValue(l, o);
    assert v.items == [v.items[0]];
  }

  lemma ClientRequestV1Shape(o: Object)
    requires Conforms(LayoutOf(ClientRequestV1), o)
    ensures StructValue(LayoutOf(ClientRequestV1), o)
            == Seq([Int(IntOf(o, Version)), Octets(OctOf(o, ClientCert)),
                    Seq(Each(ListOf(o, Intermediates), CertItem)), Octets(OctOf(o, RequestID)),
                    Int(IntOf(o, Expiry)), Octets(OctOf(o, Payload))])
  {
    hide Conforms, StructValue, IntOf, OctOf, ListOf;
    var l := LayoutOf(ClientRequestV1);
    IntItem(l, o, 0, Version);
    OctItem(l, o, 1, ClientCert);
    forall e | Conforms(LayoutOf(CertificateV1), e)
      ensures StructValue(LayoutOf(CertificateV1), e) == CertItem(e)
    {
      CertificateV1Shape(e);
    }
    ListItems(l, o, 2, CertItem);
    OctItem(l, o, 3, RequestID);
    IntItem(l, o, 4, Expiry);
    OctItem(l, o, 5, Payload);
    var v := StructValue(l, o);
    assert v.items == [v.items[0], v.items[1], v.items[2], v.items[3], v.items[4], v.items[5]];
  }

  lemma CommitCertificateV1Shape(o: Object)
    requires Conforms(LayoutOf(CommitCertificateV1), o)
    ensures StructValue(LayoutOf(CommitCertificateV1), o)
            == Seq([Int(IntOf(o, Version)), Octets(OctOf(o, ProposalDigest)), Int(IntOf(o, View)),
                    Int(IntOf(o, SeqNo)), Seq(Each(ListOf(o, Sigs), EntryItem))])
  {
    hide Conforms, StructValue, IntOf, OctOf, ListOf;
    var l := LayoutOf(CommitCertificateV1);
    IntItem(l, o, 0, Version);
    OctItem(l, o, 1, ProposalDigest);
    IntItem(l, o, 2, View);
    IntItem(l, o, 3, SeqNo);
    forall e | Conforms(LayoutOf(SignerSigV0), e)
      ensures StructValue(LayoutOf(SignerSigV0), e) == EntryItem(e)
    {
      SignerSigV0Shape(e);
    }
    ListItems(l, o, 4, EntryItem);
    var v := StructValue(l, o);
    assert v.items == [v.items[0], v.items[1], v.items[2], v.items[3], v.items[4]];
  }
}
