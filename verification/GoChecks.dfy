/** The checks of header.go, request.go and attest.go, loop and early returns as they stand there,
    and that they accept what the Python checker accepts. */
module GoChecks {
  import opened Bytes
  import opened Schema
  import opened Structures
  import opened Asn1

  const PREV_STATE_ROOT_LEN := 32
  const REQUEST_ID_LEN := 16
  const NONCE_LEN := 16

  /** type Header. */
  datatype ProposalHeader = ProposalHeader(version: int64, prevStateRoot: bytes, prevSeq: int64, consensusTime: int64)

  /** type ClientRequestV1, a certificate being its octets. */
  datatype ClientRequest = ClientRequest(version: int64, clientCert: bytes, intermediates: seq<bytes>,
                                         requestID: bytes, expiry: int64, payload: bytes)

  /** type ReadIndexV1. */
  datatype ReadIndex = ReadIndex(version: int64, signerID: int64, view: int64, seqNo: int64, nonce: bytes)

  function HeaderObject(h: ProposalHeader): Object {
    map[Version := IntField(h.version), PrevStateRoot := OctField(h.prevStateRoot),
        PrevSeq := IntField(h.prevSeq), ConsensusTime := IntField(h.consensusTime)]
  }

  function CertificateObject(der: bytes): Object {
    map[CertDER := OctField(der)]
  }

  function RequestObject(r: ClientRequest): Object {
    map[Version := IntField(r.version), ClientCert := OctField(r.clientCert),
        Intermediates := ListField(seq(|r.intermediates|, i requires 0 <= i < |r.intermediates| =>
                                       CertificateObject(r.intermediates[i]))),
        RequestID := OctField(r.requestID), Expiry := IntField(r.expiry), Payload := OctField(r.payload)]
  }

  function ReadIndexObject(r: ReadIndex): Object {
    map[Version := IntField(r.version), SignerID := IntField(r.signerID), View := IntField(r.view),
        SeqNo := IntField(r.seqNo), Nonce := OctField(r.nonce)]
  }

  /** The tests MarshalHeader and UnmarshalHeader share. */
  method CheckHeader(h: ProposalHeader) returns (err: Option<Error>)
    ensures err == None <==> Valid(Header, HeaderObject(h))
    ensures err == Some(ErrVersion) <==> h.version != 1
    ensures err == Some(ErrLength) <==> h.version == 1 && |h.prevStateRoot| != 32
  {
    if h.version != VERSION_V1 {
      return Some(ErrVersion);
    }
    if |h.prevStateRoot| != PREV_STATE_ROOT_LEN {
      return Some(ErrLength);
    }
    return None;
  }

  /** checkClientRequestV1. */
  method CheckClientRequestV1(r: ClientRequest) returns (err: Option<Error>)
    ensures err == None <==> Valid(ClientRequestV1, RequestObject(r))
    ensures err == Some(ErrVersion) <==> r.version != 1
    ensures err == Some(ErrEmpty) <==> r.version == 1 && (r.clientCert == [] || [] in r.intermediates)
    ensures err == Some(ErrLength)
            <==> r.version == 1 && r.clientCert != [] && [] !in r.intermediates && |r.requestID| != 16
    ensures err == Some(ErrRange)
            <==> r.version == 1 && r.clientCert != [] && [] !in r.intermediates && |r.requestID| == 16 && r.expiry <= 0
  {
    RequestReads(r);
    if r.version != VERSION_V1 {
      return Some(ErrVersion);
    }
    if |r.clientCert| == 0 {
      return Some(ErrEmpty);
    }
    for i := 0 to |r.intermediates|
      invariant [] !in r.intermediates[..i]
    {
      if |r.intermediates[i]| == 0 {
        return Some(ErrEmpty);
      }
    }
    assert r.intermediates[..|r.intermediates|] == r.intermediates;
    if |r.requestID| != REQUEST_ID_LEN {
      return Some(ErrLength);
    }
    if r.expiry <= 0 {
      return Some(ErrRange);
    }
    return None;
  }

  lemma RequestReads(r: ClientRequest)
    ensures Valid(ClientRequestV1, RequestObject(r))
            <==>
            && r.version == 1 && r.clientCert != [] && [] !in r.intermediates
            && |r.requestID| == 16 && r.expiry > 0
  {
    var o := RequestObject(r);
    var cs := ListOf(o, Intermediates);
    forall i | 0 <= i < |cs|
      ensures cs[i] in cs && OctOf(cs[i], CertDER) == r.intermediates[i]
    {
      assert cs[i] == CertificateObject(r.intermediates[i]);
    }
  }

  /** checkReadIndexV1. */
  method CheckReadIndexV1(r: ReadIndex) returns (err: Option<Error>)
    ensures err == None <==> Valid(ReadIndexV1, ReadIndexObject(r))
    ensures err == Some(ErrVersion) <==> r.version != 1
    ensures err == Some(ErrRange) <==> r.version == 1 && (r.signerID <= 0 || r.view < 0 || r.seqNo < 0)
    ensures err == Some(ErrLength)
            <==> r.version == 1 && r.signerID > 0 && r.view >= 0 && r.seqNo >= 0 && |r.nonce| != 16
  {
    if r.version != VERSION_V1 {
      return Some(ErrVersion);
    }
    if r.signerID <= 0 {
      return Some(ErrRange);
    }
    if r.view < 0 || r.seqNo < 0 {
      return Some(ErrRange);
    }
    if |r.nonce| != NONCE_LEN {
      return Some(ErrLength);
    }
    return None;
  }
}
