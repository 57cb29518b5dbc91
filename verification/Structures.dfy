/** The structures on the wire: SCHEMAS, VERSION_EXEMPT and the constraints of
    ci/verify_vectors.py, stated as predicates over the decoded object. */
module Structures {
  import opened Bytes
  import opened Der
  import opened DerReader
  import opened Ordered
  import opened Schema

  datatype Structure =
    | Header | ProposalV0 | GenesisV1 | GenesisMemberV1 | SignatureSetV0 | SignerSigV0
    | SignedV1 | SignedBlobV1 | CommitPayloadV1 | ClientRequestV1 | CertificateV1
    | ReadIndexV1 | CommitCertificateV1

  const GENESIS_DIGEST_LEN := 32
  const SIGNATURE_LEN := 64
  const DIGEST_LEN := 32
  const REQUEST_ID_LEN := 16
  const NONCE_LEN := 16
  const PUBKEY_LEN := 32

  /** SCHEMAS. */
  function LayoutOf(n: Structure): Layout
    decreases match n case GenesisV1 | SignatureSetV0 | ClientRequestV1 | CommitCertificateV1 => 1 case _ => 0
  {
    match n
    case Header =>
      Layout([Field(Version, INT), Field(PrevStateRoot, OCT), Field(PrevSeq, INT),
              Field(ConsensusTime, INT)])
    case ProposalV0 =>
      Layout([Field(Payload, OCT), Field(HeaderBytes, OCT), Field(Metadata, OCT),
              Field(VerificationSequence, INT)])
    case GenesisV1 =>
      Layout([Field(Version, INT), Field(TrustDomain, OCT), Field(CARoot, OCT),
              Field(MaxNodes, INT), Field(Members, SEQOF(LayoutOf(GenesisMemberV1)))])
    case GenesisMemberV1 =>
      Layout([Field(NodeID, INT), Field(SpiffeID, OCT), Field(LeafPubKey, OCT)])
    case SignatureSetV0 =>
      Layout([Field(Sigs, SEQOF(LayoutOf(SignerSigV0)))])
    case SignerSigV0 =>
      Layout([Field(Signer, INT), Field(SigValue, OCT), Field(Msg, OCT)])
    case SignedV1 =>
      Layout([Field(Version, INT), Field(Purpose, INT), Field(GenesisDigest, OCT),
              Field(Payload, OCT)])
    case SignedBlobV1 =>
      Layout([Field(Version, INT), Field(Purpose, INT), Field(Payload, OCT),
              Field(SigValue, OCT)])
    case CommitPayloadV1 =>
      Layout([Field(Version, INT), Field(ProposalDigest, OCT), Field(Aux, OCT)])
    case ClientRequestV1 =>
      Layout([Field(Version, INT), Field(ClientCert, OCT),
              Field(Intermediates, SEQOF(LayoutOf(CertificateV1))), Field(RequestID, OCT),
              Field(Expiry, INT), Field(Payload, OCT)])
    case CertificateV1 =>
      Layout([Field(CertDER, OCT)])
    case ReadIndexV1 =>
      Layout([Field(Version, INT), Field(SignerID, INT), Field(View, INT), Field(SeqNo, INT),
              Field(Nonce, OCT)])
    case CommitCertificateV1 =>
      Layout([Field(Version, INT), Field(ProposalDigest, OCT), Field(View, INT),
              Field(SeqNo, INT), Field(Sigs, SEQOF(LayoutOf(SignerSigV0)))])
  }

  lemma CertificateLayout()
    ensures LayoutOf(CommitCertificateV1)
            == Layout([Field(Version, INT), Field(ProposalDigest, OCT), Field(View, INT), Field(SeqNo, INT),
                       Field(Sigs, SEQOF(LayoutOf(SignerSigV0)))])
  {
  }

  /** VERSION_EXEMPT. */
  predicate VersionExempt(n: Structure) {
    n in {ProposalV0, SignatureSetV0, SignerSigV0, GenesisMemberV1, CertificateV1}
  }

  /** The table is well-formed, and every structure that is not exempt starts with Version. */
  lemma TableIsSound(n: Structure)
    ensures DistinctNames(LayoutOf(n))
    ensures |LayoutOf(n).fields| > 0
    ensures !VersionExempt(n) ==> LayoutOf(n).fields[0] == Field(Version, INT)
  {
    ElementsAreSound();
    match n
    case Header =>
      Four(Field(Version, INT), Field(PrevStateRoot, OCT), Field(PrevSeq, INT), Field(ConsensusTime, INT));
    case ProposalV0 =>
      Four(Field(Payload, OCT), Field(HeaderBytes, OCT), Field(Metadata, OCT), Field(VerificationSequence, INT));
    case GenesisV1 =>
      Five(Field(Version, INT), Field(TrustDomain, OCT), Field(CARoot, OCT), Field(MaxNodes, INT),
           Field(Members, SEQOF(LayoutOf(GenesisMemberV1))));
    case SignedV1 =>
      Four(Field(Version, INT), Field(Purpose, INT), Field(GenesisDigest, OCT), Field(Payload, OCT));
    case SignedBlobV1 =>
      Four(Field(Version, INT), Field(Purpose, INT), Field(Payload, OCT), Field(SigValue, OCT));
    case CommitPayloadV1 =>
      Three(Field(Version, INT), Field(ProposalDigest, OCT), Field(Aux, OCT));
    case ClientRequestV1 =>
      Six(Field(Version, INT), Field(ClientCert, OCT), Field(Intermediates, SEQOF(LayoutOf(CertificateV1))),
          Field(RequestID, OCT), Field(Expiry, INT), Field(Payload, OCT));
    case ReadIndexV1 =>
      Five(Field(Version, INT), Field(SignerID, INT), Field(View, INT), Field(SeqNo, INT), Field(Nonce, OCT));
    case CommitCertificateV1 =>
      Five(Field(Version, INT), Field(ProposalDigest, OCT), Field(View, INT), Field(SeqNo, INT),
           Field(Sigs, SEQOF(LayoutOf(SignerSigV0))));
    case _ =>
  }

  /** Exempt are exactly the structures without a Version. */
  lemma ExemptHaveNoVersion(n: Structure)
    ensures VersionExempt(n) <==> Version !in Names(LayoutOf(n).fields)
  {
    if !VersionExempt(n) {
      TableIsSound(n);
      assert LayoutOf(n).fields[0] in LayoutOf(n).fields;
    }
  }

  lemma ElementsAreSound()
    ensures DistinctNames(LayoutOf(GenesisMemberV1))
    ensures DistinctNames(LayoutOf(SignerSigV0))
    ensures DistinctNames(LayoutOf(CertificateV1))
  {
    Three(Field(NodeID, INT), Field(SpiffeID, OCT), Field(LeafPubKey, OCT));
    Three(Field(Signer, INT), Field(SigValue, OCT), Field(Msg, OCT));
  }

  predicate SoundKind(f: Field) {
    f.kind.SEQOF? ==> DistinctNames(f.kind.element)
  }

  lemma Three(a: Field, b: Field, c: Field)
    requires a.name !in {b.name, c.name} && b.name != c.name
    requires SoundKind(a) && SoundKind(b) && SoundKind(c)
    ensures DistinctNames(Layout([a, b, c]))
  {
  }

  lemma Four(a: Field, b: Field, c: Field, d: Field)
    requires a.name !in {b.name, c.name, d.name} && b.name !in {c.name, d.name} && c.name != d.name
    requires SoundKind(a) && SoundKind(b) && SoundKind(c) && SoundKind(d)
    ensures DistinctNames(Layout([a, b, c, d]))
  {
  }

  lemma Five(a: Field, b: Field, c: Field, d: Field, e: Field)
    requires a.name !in {b.name, c.name, d.name, e.name} && b.name !in {c.name, d.name, e.name}
    requires c.name !in {d.name, e.name} && d.name != e.name
    requires SoundKind(a) && SoundKind(b) && SoundKind(c) && SoundKind(d) && SoundKind(e)
    ensures DistinctNames(Layout([a, b, c, d, e]))
  {
  }

  lemma Six(a: Field, b: Field, c: Field, d: Field, e: Field, f: Field)
    requires a.name !in {b.name, c.name, d.name, e.name, f.name} && b.name !in {c.name, d.name, e.name, f.name}
    requires c.name !in {d.name, e.name, f.name} && d.name !in {e.name, f.name} && e.name != f.name
    requires SoundKind(a) && SoundKind(b) && SoundKind(c) && SoundKind(d) && SoundKind(e) && SoundKind(f)
    ensures DistinctNames(Layout([a, b, c, d, e, f]))
  {
  }

  predicate Has(o: Object, f: Field) {
    f.name in o && KindMatches(f.kind, o[f.name])
  }

  lemma ConformsThree(a: Field, b: Field, c: Field, o: Object)
    requires o.Keys == {a.name, b.name, c.name}
    requires Has(o, a) && Has(o, b) && Has(o, c)
    ensures Conforms(Layout([a, b, c]), o)
  {
    hide KindMatches;
  }

  lemma ConformsFour(a: Field, b: Field, c: Field, d: Field, o: Object)
    requires o.Keys == {a.name, b.name, c.name, d.name}
    requires Has(o, a) && Has(o, b) && Has(o, c) && Has(o, d)
    ensures Conforms(Layout([a, b, c, d]), o)
  {
    hide KindMatches;
  }

  lemma ConformsFive(a: Field, b: Field, c: Field, d: Field, e: Field, o: Object)
    requires o.Keys == {a.name, b.name, c.name, d.name, e.name}
    requires Has(o, a) && Has(o, b) && Has(o, c) && Has(o, d) && Has(o, e)
    ensures Conforms(Layout([a, b, c, d, e]), o)
  {
    hide KindMatches;
  }

  lemma FieldsThree(a: Field, b: Field, c: Field, o: Object)
    requires Conforms(Layout([a, b, c]), o)
    ensures o.Keys == {a.name, b.name, c.name}
    ensures Has(o, a) && Has(o, b) && Has(o, c)
  {
    hide KindMatches;
    var l := Layout([a, b, c]);
    assert l.fields[0] == a && l.fields[1] == b && l.fields[2] == c;
  }

  lemma FieldsFour(a: Field, b: Field, c: Field, d: Field, o: Object)
    requires Conforms(Layout([a, b, c, d]), o)
    ensures o.Keys == {a.name, b.name, c.name, d.name}
    ensures Has(o, a) && Has(o, b) && Has(o, c) && Has(o, d)
  {
    hide KindMatches;
    var l := Layout([a, b, c, d]);
    assert l.fields[0] == a && l.fields[1] == b && l.fields[2] == c && l.fields[3] == d;
  }

  lemma FieldsFive(a: Field, b: Field, c: Field, d: Field, e: Field, o: Object)
    requires Conforms(Layout([a, b, c, d, e]), o)
    ensures o.Keys == {a.name, b.name, c.name, d.name, e.name}
    ensures Has(o, a) && Has(o, b) && Has(o, c) && Has(o, d) && Has(o, e)
  {
    hide KindMatches;
    var l := Layout([a, b, c, d, e]);
    assert l.fields[0] == a && l.fields[1] == b && l.fields[2] == c && l.fields[3] == d && l.fields[4] == e;
  }

  /** The object with five given fields. */
  function MakeFive(a: Field, u: FieldValue, b: Field, v: FieldValue, c: Field, w: FieldValue,
                    d: Field, x: FieldValue, e: Field, y: FieldValue): (o: Object)
    requires a.name !in {b.name, c.name, d.name, e.name} && b.name !in {c.name, d.name, e.name}
    requires c.name !in {d.name, e.name} && d.name != e.name
    requires KindMatches(a.kind, u) && KindMatches(b.kind, v) && KindMatches(c.kind, w)
    requires KindMatches(d.kind, x) && KindMatches(e.kind, y)
    ensures Conforms(Layout([a, b, c, d, e]), o)
    ensures o.Keys == {a.name, b.name, c.name, d.name, e.name}
    ensures o[a.name] == u && o[b.name] == v && o[c.name] == w && o[d.name] == x && o[e.name] == y
  {
    var o: Object := map[a.name := u, b.name := v, c.name := w, d.name := x, e.name := y];
    ConformsFive(a, b, c, d, e, o);
    o
  }

  lemma SameFive(a: FieldName, b: FieldName, c: FieldName, d: FieldName, e: FieldName, o: Object, p: Object)
    requires o.Keys == p.Keys == {a, b, c, d, e}
    requires o[a] == p[a] && o[b] == p[b] && o[c] == p[c] && o[d] == p[d] && o[e] == p[e]
    ensures o == p
  {
  }

  // ------------------------------------------------------------ reading a decoded object

  function IntOf(o: Object, f: FieldName): int {
    var x := Lookup(o, f);
    if x.IntField? then x.i else 0
  }

  function OctOf(o: Object, f: FieldName): bytes {
    var x := Lookup(o, f);
    if x.OctField? then x.octets else []
  }

  function ListOf(o: Object, f: FieldName): seq<Object> {
    var x := Lookup(o, f);
    if x.ListField? then x.elements else []
  }

  // ------------------------------------------------------------ the constraints

  /** An INTEGER field as the key a list is ordered by. */
  function IntKey(f: FieldName): Object -> int {
    (o: Object) => IntOf(o, f)
  }

  predicate StrictlyAscending(items: seq<Object>, key: FieldName) {
    Ascends(items, IntKey(key))
  }

  /** The decimal spelling of n, as str and strconv.AppendInt write it. */
  function Decimal(n: int): (s: bytes)
    ensures s != []
  {
    if n < 0 then [0x2d] + Digits(-n) else Digits(n)
  }

  function Digits(n: nat): (s: bytes)
    ensures s != []
    ensures forall d :: d in s ==> 0x30 <= d <= 0x39
  {
    if n < 10 then [0x30 + n] else Digits(n / 10) + [0x30 + n % 10]
  }

  /** "spiffe://" */
  const SPIFFE: bytes := [0x73, 0x70, 0x69, 0x66, 0x66, 0x65, 0x3a, 0x2f, 0x2f]

  /** "/node/" */
  const NODE: bytes := [0x2f, 0x6e, 0x6f, 0x64, 0x65, 0x2f]

  function DerivedSpiffeID(domain: bytes, nodeID: int): bytes {
    SPIFFE + domain + NODE + Decimal(nodeID)
  }

  /** The number that decimal digits denote, the last one counting units. */
  function DecimalValue(s: bytes): int {
    if s == [] then 0 else 10 * DecimalValue(s[..|s| - 1]) + (s[|s| - 1] as int - 0x30)
  }

  /** s is a decimal spelling of n: digits only, no needless zero in front. */
  predicate SpellsNat(s: bytes, n: nat) {
    && s != []
    && (forall i | 0 <= i < |s| :: 0x30 <= s[i] <= 0x39)
    && (|s| > 1 ==> s[0] != 0x30)
    && DecimalValue(s) == n
  }

  /** The same for negative numbers, with a minus sign in front of these alone. */
  predicate Spells(s: bytes, n: int) {
    if n >= 0 then SpellsNat(s, n)
    else s != [] && s[0] == 0x2d && SpellsNat(s[1..], -n)
  }

  lemma {:induction false} DigitsSpell(n: nat)
    ensures SpellsNat(Digits(n), n)
    ensures n > 0 ==> Digits(n)[0] != 0x30
  {
    var s := Digits(n);
    if n < 10 {
      assert s[..0] == [] && DecimalValue([]) == 0;
    } else {
      DigitsSpell(n / 10);
      assert s[..|s| - 1] == Digits(n / 10);
      assert s[0] == Digits(n / 10)[0];
    }
  }

  lemma {:induction false} OnlyDigits(s: bytes, n: nat)
    requires SpellsNat(s, n)
    ensures s == Digits(n)
    decreases |s|
  {
    var init, last := s[..|s| - 1], s[|s| - 1];
    assert s == init + [last];
    if init == [] {
      assert DecimalValue(init) == 0;
    } else {
      var m := DecimalValue(init);
      AtLeastOne(init);
      assert n / 10 == m && n % 10 == last as int - 0x30;
      assert |init| > 1 ==> init[0] == s[0];
      OnlyDigits(init, m);
    }
  }

  lemma {:induction false} AtLeastOne(s: bytes)
    requires s != [] && s[0] != 0x30 && forall i | 0 <= i < |s| :: 0x30 <= s[i] <= 0x39
    ensures DecimalValue(s) >= 1
    decreases |s|
  {
    var init := s[..|s| - 1];
    if init != [] {
      AtLeastOne(init);
    } else {
      assert DecimalValue(init) == 0;
    }
  }

  /** Decimal(n) is the spelling of n, and the only one. */
  lemma DecimalIsTheSpelling(s: bytes, n: int)
    ensures Spells(s, n) <==> s == Decimal(n)
  {
    DigitsSpell(if n < 0 then -n else n);
    if n < 0 {
      assert Decimal(n)[1..] == Digits(-n);
    }
    if Spells(s, n) {
      if n >= 0 {
        OnlyDigits(s, n);
      } else {
        OnlyDigits(s[1..], -n);
        assert s == [s[0]] + s[1..];
      }
    }
  }

  /** The octets of a string of ASCII characters. */
  function Ascii(s: string): bytes
    requires forall i | 0 <= i < |s| :: s[i] as int < 128
  {
    seq(|s|, i requires 0 <= i < |s| => s[i] as byte)
  }

  /** The derived identity, spelled out. */
  lemma IdentitySpelled(domain: bytes, nodeID: int, id: bytes)
    ensures id == DerivedSpiffeID(domain, nodeID)
            <==> exists x :: Spells(x, nodeID) && id == Ascii("spiffe://") + domain + Ascii("/node/") + x
  {
    assert Ascii("spiffe://") == SPIFFE && Ascii("/node/") == NODE;
    DecimalIsTheSpelling(Decimal(nodeID), nodeID);
    forall x | Spells(x, nodeID)
      ensures x == Decimal(nodeID)
    {
      DecimalIsTheSpelling(x, nodeID);
    }
  }

  predicate ValidMember(m: Object, domain: bytes) {
    && IntOf(m, NodeID) >= 0
    && |OctOf(m, LeafPubKey)| == 32
    && OctOf(m, SpiffeID) == DerivedSpiffeID(domain, IntOf(m, NodeID))
  }

  predicate ValidGenesis(o: Object) {
    var members := ListOf(o, Members);
    && OctOf(o, TrustDomain) != []
    && 0 <= IntOf(o, MaxNodes)
    && |members| <= IntOf(o, MaxNodes)
    && StrictlyAscending(members, NodeID)
    && forall m | m in members :: ValidMember(m, OctOf(o, TrustDomain))
  }

  predicate ValidPurpose(p: int) {
    p in {1, 2, 3, 4}
  }

  predicate ValidSigned(o: Object) {
    && ValidPurpose(IntOf(o, Purpose))
    && |OctOf(o, GenesisDigest)| == GENESIS_DIGEST_LEN
  }

  predicate ValidBlob(o: Object) {
    && ValidPurpose(IntOf(o, Purpose))
    && OctOf(o, Payload) != []
    && |OctOf(o, SigValue)| == SIGNATURE_LEN
  }

  predicate ValidClientRequest(o: Object) {
    && OctOf(o, ClientCert) != []
    && (forall c | c in ListOf(o, Intermediates) :: OctOf(c, CertDER) != [])
    && |OctOf(o, RequestID)| == REQUEST_ID_LEN
    && IntOf(o, Expiry) > 0
  }

  predicate ValidReadIndex(o: Object) {
    && IntOf(o, SignerID) > 0
    && IntOf(o, View) >= 0
    && IntOf(o, SeqNo) >= 0
    && |OctOf(o, Nonce)| == NONCE_LEN
  }

  /** _check_commit_cert gets as far as its loop. */
  predicate CertHead(o: Object) {
    && |OctOf(o, ProposalDigest)| == DIGEST_LEN
    && IntOf(o, View) >= 0
    && IntOf(o, SeqNo) >= 0
    && ListOf(o, Sigs) != []
    && StrictlyAscending(ListOf(o, Sigs), Signer)
  }

  /** The entry gets as far as _check_cert_msg. */
  predicate Sealed(s: Object) {
    |OctOf(s, SigValue)| == SIGNATURE_LEN && OctOf(s, Msg) != []
  }

  /** What a certificate must be, the messages of its entries aside. */
  predicate ValidCertShape(o: Object) {
    CertHead(o) && forall s | s in ListOf(o, Sigs) :: Sealed(s)
  }

  /** The commit payload an entry's Msg carries, if it carries a valid one. */
  ghost function PayloadOf(msg: bytes): (r: Result<Object>)
    ensures r.Accept? ==> ValidVersion(CommitPayloadV1, r.value) && |OctOf(r.value, ProposalDigest)| == DIGEST_LEN
  {
    var tree :- Parse(msg);
    var o :- Decoded(LayoutOf(CommitPayloadV1), tree);
    if IntOf(o, Version) == 1 && |OctOf(o, ProposalDigest)| == DIGEST_LEN then Accept(o) else SpecError
  }

  /** No entry's Msg is a commit payload for another proposal. */
  ghost predicate MessagesAgree(o: Object) {
    forall s | s in ListOf(o, Sigs) :: MessageAgrees(o, s)
  }

  ghost predicate MessageAgrees(cert: Object, entry: Object) {
    var p := PayloadOf(OctOf(entry, Msg));
    p.Accept? ==> OctOf(p.value, ProposalDigest) == OctOf(cert, ProposalDigest)
  }

  predicate ValidVersion(n: Structure, o: Object) {
    !VersionExempt(n) ==> IntOf(o, Version) == 1
  }

  /** validate, on an object of the structure. */
  ghost predicate Valid(n: Structure, o: Object) {
    && ValidVersion(n, o)
    && match n
       case Header => |OctOf(o, PrevStateRoot)| == 32
       case GenesisV1 => ValidGenesis(o)
       case SignedV1 => ValidSigned(o)
       case SignedBlobV1 => ValidBlob(o)
       case CommitPayloadV1 => |OctOf(o, ProposalDigest)| == DIGEST_LEN
       case ClientRequestV1 => ValidClientRequest(o)
       case ReadIndexV1 => ValidReadIndex(o)
       case CommitCertificateV1 => ValidCertShape(o) && MessagesAgree(o)
       case _ => true
  }

  // ------------------------------------------------------------ acceptance

  /** data decodes to o as structure n and passes every check: what parse_der, decode_struct
      and validate accept together. */
  ghost predicate Accepts(n: Structure, data: bytes, o: Object) {
    && Parse(data).Accept?
    && Decoded(LayoutOf(n), Parse(data).value) == Accept(o)
    && Valid(n, o)
  }

  /** The accepted byte strings are the encodings of the valid objects below the cap. */
  lemma AcceptsIffEncoded(n: Structure, data: bytes, o: Object)
    ensures Accepts(n, data, o)
            <==>
            && Conforms(LayoutOf(n), o)
            && Valid(n, o)
            && EncodeStruct(LayoutOf(n), o) == data
            && Fits(StructValue(LayoutOf(n), o))
  {
    if Conforms(LayoutOf(n), o) {
      ParseEncode(StructValue(LayoutOf(n), o));
      DecodeStructValue(LayoutOf(n), o);
    }
  }
}
