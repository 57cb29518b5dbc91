/** commitcert.go: a certificate's entries come in one order, so one set of entries has one
    spelling. */
module CommitCert {
  import opened Bytes
  import opened Der
  import opened Schema
  import opened Structures
  import opened Asn1
  import opened GoValues
  import opened Ordered
  import opened WireShapes

  /** type SignerSigV0. */
  datatype SignerSig = SignerSig(signer: int64, value: bytes, msg: bytes)

  /** type CommitCertificateV1. */
  datatype CommitCert = CommitCert(version: int64, proposalDigest: bytes, view: int64, seqNo: int64,
                                   sigs: seq<SignerSig>)

  const ZERO := CommitCert(0, [], 0, 0, [])

  // ------------------------------------------------------------ the wire object

  function SigObject(s: SignerSig): (o: Object)
    ensures Conforms(LayoutOf(SignerSigV0), o)
  {
    var o: Object := map[Signer := IntField(s.signer), SigValue := OctField(s.value), Msg := OctField(s.msg)];
    ConformsThree(Field(Signer, INT), Field(SigValue, OCT), Field(Msg, OCT), o);
    o
  }

  function SigObjects(ss: seq<SignerSig>): (os: seq<Object>)
    ensures |os| == |ss|
    ensures KindMatches(SEQOF(LayoutOf(SignerSigV0)), ListField(os))
  {
    hide LayoutOf, Conforms;
    seq(|ss|, i requires 0 <= i < |ss| => SigObject(ss[i]))
  }

  function ToObject(c: CommitCert): (o: Object)
    ensures Conforms(LayoutOf(CommitCertificateV1), o)
  {
    CertificateLayout();
    hide LayoutOf, Conforms;
    MakeFive(Field(Version, INT), IntField(c.version), Field(ProposalDigest, OCT), OctField(c.proposalDigest),
             Field(View, INT), IntField(c.view), Field(SeqNo, INT), IntField(c.seqNo),
             Field(Sigs, SEQOF(LayoutOf(SignerSigV0))), ListField(SigObjects(c.sigs)))
  }

  lemma SigObjectInjective(s: SignerSig, t: SignerSig)
    requires SigObject(s) == SigObject(t)
    ensures s == t
  {
    var o, p := SigObject(s), SigObject(t);
    assert o[Signer] == p[Signer] && o[SigValue] == p[SigValue] && o[Msg] == p[Msg];
  }

  lemma ToObjectInjective(c: CommitCert, d: CommitCert)
    requires ToObject(c) == ToObject(d)
    ensures c == d
  {
    hide LayoutOf, Conforms;
    var o, p := ToObject(c), ToObject(d);
    assert o[Version] == p[Version] && o[ProposalDigest] == p[ProposalDigest];
    assert o[View] == p[View] && o[SeqNo] == p[SeqNo] && o[Sigs] == p[Sigs];
    var os, ps := SigObjects(c.sigs), SigObjects(d.sigs);
    assert os == ps;
    forall i | 0 <= i < |c.sigs|
      ensures c.sigs[i] == d.sigs[i]
    {
      assert os[i] == SigObject(c.sigs[i]) && ps[i] == SigObject(d.sigs[i]);
      SigObjectInjective(c.sigs[i], d.sigs[i]);
    }
  }

  lemma SigFrom(o: Object) returns (s: SignerSig)
    requires Conforms(LayoutOf(SignerSigV0), o) && IntsFit(StructValue(LayoutOf(SignerSigV0), o))
    ensures SigObject(s) == o
  {
    FieldsThree(Field(Signer, INT), Field(SigValue, OCT), Field(Msg, OCT), o);
    IntFits(LayoutOf(SignerSigV0), o, 0);
    s := SignerSig(o[Signer].i, o[SigValue].octets, o[Msg].octets);
  }

  lemma SigsFrom(os: seq<Object>) returns (ss: seq<SignerSig>)
    requires forall i | 0 <= i < |os| ::
               Conforms(LayoutOf(SignerSigV0), os[i]) && IntsFit(StructValue(LayoutOf(SignerSigV0), os[i]))
    ensures SigObjects(ss) == os
  {
    ss := [];
    for n := 0 to |os|
      invariant |ss| == n
      invariant forall i | 0 <= i < n :: SigObject(ss[i]) == os[i]
    {
      var s := SigFrom(os[n]);
      ss := ss + [s];
    }
  }

  lemma CertParts(o: Object)
    requires Conforms(LayoutOf(CommitCertificateV1), o) && IntsFit(StructValue(LayoutOf(CommitCertificateV1), o))
    ensures o.Keys == {Version, ProposalDigest, View, SeqNo, Sigs}
    ensures o[Version].IntField? && o[ProposalDigest].OctField? && o[View].IntField? && o[SeqNo].IntField?
    ensures InInt64(o[Version].i) && InInt64(o[View].i) && InInt64(o[SeqNo].i)
  {
    CertificateLayout();
    hide LayoutOf, Conforms, StructValue, IntsFit;
    FieldsFive(Field(Version, INT), Field(ProposalDigest, OCT), Field(View, INT), Field(SeqNo, INT),
               Field(Sigs, SEQOF(LayoutOf(SignerSigV0))), o);
    IntFits(LayoutOf(CommitCertificateV1), o, 0);
    IntFits(LayoutOf(CommitCertificateV1), o, 2);
    IntFits(LayoutOf(CommitCertificateV1), o, 3);
  }

  /** Every conforming object whose INTEGERs fit int64 is a Go value. */
  lemma FromObject(o: Object) returns (c: CommitCert)
    requires Conforms(LayoutOf(CommitCertificateV1), o) && IntsFit(StructValue(LayoutOf(CommitCertificateV1), o))
    ensures ToObject(c) == o
  {
    CertParts(o);
    ElementsFit(LayoutOf(CommitCertificateV1), o, 4);
    var ss := SigsFrom(o[Sigs].elements);
    hide LayoutOf, KindMatches, Conforms, IntsFit;
    c := CommitCert(o[Version].i, o[ProposalDigest].octets, o[View].i, o[SeqNo].i, ss);
    SameFive(Version, ProposalDigest, View, SeqNo, Sigs, ToObject(c), o);
  }

  // ------------------------------------------------------------ checkCommitCertificateV1

  function HeadError(c: CommitCert): Option<Error> {
    if c.version != VERSION_V1 then Some(ErrVersion)
    else if |c.proposalDigest| != DIGEST_LEN then Some(ErrLength)
    else if c.view < 0 || c.seqNo < 0 then Some(ErrRange)
    else if c.sigs == [] then Some(ErrEmpty)
    else None
  }

  /** The first error an entry meets, looking back at its neighbour only. */
  function SigError(c: CommitCert, i: nat): Option<Error>
    requires i < |c.sigs|
  {
    var s := c.sigs[i];
    if i > 0 && s.signer <= c.sigs[i - 1].signer then Some(ErrOrder)
    else if |s.value| != SIGNATURE_LEN then Some(ErrLength)
    else if s.msg == [] then Some(ErrEmpty)
    else None
  }

  function SigErrors(c: CommitCert): (errs: seq<Option<Error>>)
    ensures |errs| == |c.sigs|
  {
    seq(|c.sigs|, i requires 0 <= i < |c.sigs| => SigError(c, i))
  }

  /** checkCommitCertificateV1 as a function: the fields in order, then the entries in order. */
  function Check(c: CommitCert): Option<Error> {
    if HeadError(c).Some? then HeadError(c) else FirstError(SigErrors(c))
  }

  lemma CheckPasses(c: CommitCert)
    ensures Check(c) == None
            <==> HeadError(c) == None && forall i | 0 <= i < |c.sigs| :: SigError(c, i) == None
  {
    FirstErrorIsFirst(SigErrors(c));
    assert forall i | 0 <= i < |c.sigs| :: SigErrors(c)[i] == SigError(c, i);
  }

  /** checkCommitCertificateV1. */
  method CheckCommitCertificateV1(c: CommitCert) returns (err: Option<Error>)
    ensures err == Check(c)
  {
    ghost var errs := SigErrors(c);
    if c.version != VERSION_V1 {
      return Some(ErrVersion);
    }
    if |c.proposalDigest| != DIGEST_LEN {
      return Some(ErrLength);
    }
    if c.view < 0 || c.seqNo < 0 {
      return Some(ErrRange);
    }
    if |c.sigs| == 0 {
      return Some(ErrEmpty);
    }
    for i := 0 to |c.sigs|
      invariant FirstError(errs) == FirstError(errs[i..])
    {
      FirstErrorStep(errs, i);
      assert errs[i] == SigError(c, i);
      var s := c.sigs[i];
      if i > 0 && s.signer <= c.sigs[i - 1].signer {
        return Some(ErrOrder);
      }
      if |s.value| != SIGNATURE_LEN {
        return Some(ErrLength);
      }
      if |s.msg| == 0 {
        return Some(ErrEmpty);
      }
    }
    return None;
  }

  /** The fields before the entries pass. */
  predicate HeadPasses(c: CommitCert) {
    c.version == 1 && |c.proposalDigest| == 32 && c.view >= 0 && c.seqNo >= 0 && c.sigs != []
  }

  /** Which error a certificate gets whose fields do not pass. */
  lemma HeadErrors(c: CommitCert)
    ensures Check(c) == Some(ErrVersion) <==> c.version != 1
    ensures c.version == 1 && |c.proposalDigest| != 32 ==> Check(c) == Some(ErrLength)
    ensures c.version == 1 && |c.proposalDigest| == 32 && (c.view < 0 || c.seqNo < 0) ==> Check(c) == Some(ErrRange)
    ensures c.version == 1 && |c.proposalDigest| == 32 && c.view >= 0 && c.seqNo >= 0 && c.sigs == []
            ==> Check(c) == Some(ErrEmpty)
  {
    FirstErrorIsFirst(SigErrors(c));
  }

  /** Which error a certificate gets whose fields pass: that of the first entry that is not good or
      not in order. */
  lemma SigErrorsAt(c: CommitCert, i: nat)
    requires HeadPasses(c) && i < |c.sigs|
    requires forall j | 0 <= j < i :: GoodSig(c, j) && InOrder(c.sigs, SignerKey, j)
    ensures
      var s := c.sigs[i];
      && (!InOrder(c.sigs, SignerKey, i) ==> Check(c) == Some(ErrOrder))
      && (InOrder(c.sigs, SignerKey, i) && |s.value| != 64 ==> Check(c) == Some(ErrLength))
      && (InOrder(c.sigs, SignerKey, i) && |s.value| == 64 && s.msg == [] ==> Check(c) == Some(ErrEmpty))
  {
    forall j | 0 <= j < i
      ensures SigErrors(c)[j] == None
    {
      assert GoodSig(c, j) && InOrder(c.sigs, SignerKey, j);
    }
    if SigError(c, i).Some? {
      FirstErrorAt(SigErrors(c), i);
    }
  }

  predicate GoodSig(c: CommitCert, i: nat)
    requires i < |c.sigs|
  {
    |c.sigs[i].value| == SIGNATURE_LEN && c.sigs[i].msg != []
  }

  lemma SigsGood(c: CommitCert)
    ensures (forall s | s in SigObjects(c.sigs) :: Sealed(s))
            <==> forall i | 0 <= i < |c.sigs| :: GoodSig(c, i)
  {
    var os := SigObjects(c.sigs);
    forall i | 0 <= i < |c.sigs|
      ensures os[i] in os && (Sealed(os[i]) <==> GoodSig(c, i))
    {
      assert os[i] == SigObject(c.sigs[i]);
    }
  }

  /** The key the entries are ordered by. */
  function SignerKey(s: SignerSig): int {
    s.signer
  }

  lemma SigsStrictlyAscend(c: CommitCert)
    ensures StrictlyAscending(SigObjects(c.sigs), Signer)
            <==> forall i | 0 <= i < |c.sigs| :: InOrder(c.sigs, SignerKey, i)
  {
    hide LayoutOf, Conforms;
    forall i | 0 <= i < |c.sigs|
      ensures SignerKey(c.sigs[i]) == IntKey(Signer)(SigObjects(c.sigs)[i])
    {
      assert SigObjects(c.sigs)[i] == SigObject(c.sigs[i]);
    }
    SameKeys(c.sigs, SignerKey, SigObjects(c.sigs), IntKey(Signer));
    NeighboursOrderAll(c.sigs, SignerKey);
  }

  lemma NoSigError(c: CommitCert)
    ensures (forall i | 0 <= i < |c.sigs| :: SigError(c, i) == None)
            <==>
            && (forall i | 0 <= i < |c.sigs| :: GoodSig(c, i))
            && (forall i | 0 <= i < |c.sigs| :: InOrder(c.sigs, SignerKey, i))
  {
    forall i | 0 <= i < |c.sigs|
      ensures SigError(c, i) == None <==> GoodSig(c, i) && InOrder(c.sigs, SignerKey, i)
    {
    }
  }

  lemma ObjectReads(c: CommitCert)
    ensures var o := ToObject(c);
            && IntOf(o, Version) == c.version
            && OctOf(o, ProposalDigest) == c.proposalDigest
            && IntOf(o, View) == c.view
            && IntOf(o, SeqNo) == c.seqNo
            && ListOf(o, Sigs) == SigObjects(c.sigs)
  {
  }

  /** Go's check is Python's validate without its look inside the messages. */
  lemma CheckIsShape(c: CommitCert)
    ensures Check(c) == None
            <==> ValidVersion(CommitCertificateV1, ToObject(c)) && ValidCertShape(ToObject(c))
  {
    hide StrictlyAscending, ToObject, SigError, GoodSig, InOrder;
    CheckPasses(c);
    NoSigError(c);
    SigsGood(c);
    SigsStrictlyAscend(c);
    ObjectReads(c);
  }

  // ------------------------------------------------------------ marshal, unmarshal

  function WireSig(s: SignerSig): Value {
    Seq([Int(s.signer), Octets(s.value), Octets(s.msg)])
  }

  /** What asn1.Marshal writes: a SEQUENCE of the struct's fields in the order of their
      declaration. */
  function Wire(c: CommitCert): Value {
    Seq([Int(c.version), Octets(c.proposalDigest), Int(c.view), Int(c.seqNo),
         Seq(seq(|c.sigs|, i requires 0 <= i < |c.sigs| => WireSig(c.sigs[i])))])
  }

  /** Go's declaration order is the order of the schema's row. */
  lemma WireIsStructValue(c: CommitCert)
    ensures StructValue(LayoutOf(CommitCertificateV1), ToObject(c)) == Wire(c)
  {
    hide LayoutOf, Conforms, StructValue, ToObject, IntOf, OctOf, ListOf;
    CommitCertificateV1Shape(ToObject(c));
    ObjectReads(c);
    var os := SigObjects(c.sigs);
    forall i | 0 <= i < |os|
      ensures EntryItem(os[i]) == WireSig(c.sigs[i])
    {
      SigReads(c.sigs[i]);
    }
    assert Each(os, EntryItem) == seq(|c.sigs|, i requires 0 <= i < |c.sigs| => WireSig(c.sigs[i]));
  }

  lemma SigReads(s: SignerSig)
    ensures EntryItem(SigObject(s)) == WireSig(s)
  {
  }

  /** marshal of a CommitCertificateV1. */
  function Marshal(c: CommitCert): Option<bytes> {
    Some(Encode(Wire(c)))
  }

  /** MarshalCommitCertificateV1. */
  method MarshalCommitCertificateV1(c: CommitCert) returns (b: bytes, err: Option<Error>)
    ensures err == Check(c)
    ensures b == if err == None then Encode(Wire(c)) else []
    ensures err == None && MessagesAgree(ToObject(c)) && |b| < PYTHON_LIMIT
            ==> Accepts(CommitCertificateV1, b, ToObject(c))
  {
    hide LayoutOf, Conforms, StructValue, ToObject, Wire, Check, Accepts, MessagesAgree, ValidCertShape;
    CheckIsShape(c);
    WireIsStructValue(c);
    FitsBelowLimit(Wire(c));
    AcceptsIffEncoded(CommitCertificateV1, Encode(Wire(c)), ToObject(c));
    err := CheckCommitCertificateV1(c);
    if err.Some? {
      return [], err;
    }
    b := Encode(Wire(c));
  }

  /** UnmarshalCommitCertificateV1, over any decoder. */
  method UnmarshalCommitCertificateV1(b: bytes, decode: Decoder<CommitCert>)
    returns (c: CommitCert, err: Option<Error>)
    ensures err == CheckedVerdict(decode, Marshal, Check, b)
    ensures c == if err == None then decode(b).value else CommitCert(0, [], 0, 0, [])
    ensures forall ceiling: nat | Decodes(decode, Marshal, ceiling) && |b| < ceiling ::
              err == None <==> CheckedMarshalled(Marshal, Check, b)
  {
    UnmarshalsRange(decode, Marshal, Check, b);
    var v := new Ref(ZERO);
    err := Unmarshal(b, v, decode, Marshal);
    if err.Some? {
      return ZERO, err;
    }
    err := CheckCommitCertificateV1(v.value);
    if err.Some? {
      return ZERO, err;
    }
    return v.value, None;
  }

  // ------------------------------------------------------------ one set of entries, one spelling

  lemma CheckedAscends(c: CommitCert)
    requires Check(c) == None
    ensures Ascends(c.sigs, SignerKey)
  {
    CheckPasses(c);
    NoSigError(c);
    NeighboursOrderAll(c.sigs, SignerKey);
  }

  /** Two accepted certificates over the same decision and set of entries are one value and
      marshal to the same octets; and there are as many entries as signers. */
  lemma OneSpellingPerEntrySet(c: CommitCert, d: CommitCert)
    requires Check(c) == None && Check(d) == None
    requires c.proposalDigest == d.proposalDigest && c.view == d.view && c.seqNo == d.seqNo
    requires Elements(c.sigs) == Elements(d.sigs)
    ensures c == d && Marshal(c) == Marshal(d)
    ensures |c.sigs| == |KeysOf(c.sigs, SignerKey)|
  {
    CheckedAscends(c);
    CheckedAscends(d);
    OneAscendingList(c.sigs, d.sigs, SignerKey);
    DistinctKeys(c.sigs, SignerKey);
  }
}
