/** The conformance run of ci/verify_vectors.py: validate and its checks, derived_forgeries,
    check_vector and main, with the global CHECKED as the state of one object. */
module Checker {
  import opened Bytes
  import opened Der
  import opened DerReader
  import opened Schema
  import opened Structures
  import opened Forgeries
  import opened Ordered
  import opened WireShapes
  import Merkle

  // ------------------------------------------------------------ what a run counts

  ghost predicate CarriesPayload(entry: Object) {
    PayloadOf(OctOf(entry, Msg)).Accept?
  }

  /** How many of the entries carry a valid commit payload. */
  ghost function PayloadCount(entries: seq<Object>): nat {
    if entries == [] then 0
    else PayloadCount(entries[..|entries| - 1]) + if CarriesPayload(entries[|entries| - 1]) then 1 else 0
  }

  lemma PayloadCountNext(entries: seq<Object>, i: nat)
    requires i < |entries|
    ensures PayloadCount(entries[..i + 1])
            == PayloadCount(entries[..i]) + if CarriesPayload(entries[i]) then 1 else 0
  {
    assert entries[..i + 1][..i] == entries[..i];
  }

  /** What one accepted object adds to CHECKED["3.13.1"]. */
  ghost function Bound(n: Structure, o: Object): nat {
    if n == CommitCertificateV1 then PayloadCount(ListOf(o, Sigs)) else 0
  }

  /** What the loop of _check_commit_cert counts, to its end or to the entry that stops it: the
      entries that carry a payload, up to and including the one whose payload is for another
      proposal, or up to and excluding the one that does not reach _check_cert_msg. */
  ghost function Reached(cert: Object, entries: seq<Object>): nat {
    if entries == [] || !Sealed(entries[0]) then 0
    else
      (if CarriesPayload(entries[0]) then 1 else 0)
      + if MessageAgrees(cert, entries[0]) then Reached(cert, entries[1..]) else 0
  }

  lemma ReachedStep(cert: Object, entries: seq<Object>, i: nat)
    requires i < |entries|
    ensures Reached(cert, entries[i..])
            == if !Sealed(entries[i]) then 0
               else
                 (if CarriesPayload(entries[i]) then 1 else 0)
                 + if MessageAgrees(cert, entries[i]) then Reached(cert, entries[i + 1..]) else 0
  {
    hide CarriesPayload, MessageAgrees, Sealed;
    assert entries[i..][1..] == entries[i + 1..];
  }

  /** What validate adds to CHECKED["3.13.1"], whether it accepts or refuses. */
  ghost function Counted(n: Structure, o: Object): nat {
    if n == CommitCertificateV1 && ValidVersion(n, o) && CertHead(o) then Reached(o, ListOf(o, Sigs)) else 0
  }

  /** Where every entry is good the loop runs to its end and counts every payload. */
  lemma {:induction false} ReachedAll(cert: Object, entries: seq<Object>, i: nat)
    requires i <= |entries|
    requires forall s | s in entries :: Sealed(s) && MessageAgrees(cert, s)
    ensures PayloadCount(entries[..i]) + Reached(cert, entries[i..]) == PayloadCount(entries)
    decreases |entries| - i
  {
    hide CarriesPayload, MessageAgrees, Sealed;
    if i == |entries| {
      assert entries[..i] == entries;
    } else {
      ReachedStep(cert, entries, i);
      PayloadCountNext(entries, i);
      assert entries[i] in entries;
      ReachedAll(cert, entries, i + 1);
    }
  }

  /** On a valid object that is the number of entries bound to its proposal. */
  lemma CountedWhenValid(n: Structure, o: Object)
    requires Valid(n, o)
    ensures Counted(n, o) == Bound(n, o)
  {
    hide MessageAgrees, CarriesPayload, StrictlyAscending;
    if n == CommitCertificateV1 {
      var sigs := ListOf(o, Sigs);
      assert forall s | s in sigs :: Sealed(s) && MessageAgrees(o, s);
      ReachedAll(o, sigs, 0);
      assert sigs[..0] == [] && sigs[0..] == sigs;
    }
  }

  /** What decoding data as structure n and validating it adds to the count. */
  ghost function Seen(n: Structure, data: bytes): nat {
    var tree := Parse(data);
    if tree.SpecError? then 0
    else
      var o := Decoded(LayoutOf(n), tree.value);
      if o.SpecError? then 0 else Counted(n, o.value)
  }

  /** _msg_is_commit_payload: the count main prints as "bound to the proposal digest" asks
      only whether a Msg decodes, not whether it is valid. */
  ghost predicate DecodesAsPayload(entry: Object) {
    var tree := Parse(OctOf(entry, Msg));
    tree.Accept? && Decoded(LayoutOf(CommitPayloadV1), tree.value).Accept?
  }

  ghost function NoteCount(entries: seq<Object>): nat {
    if entries == [] then 0
    else NoteCount(entries[..|entries| - 1]) + if DecodesAsPayload(entries[|entries| - 1]) then 1 else 0
  }

  /** _msg_is_commit_payload. */
  method MsgIsCommitPayload(msg: bytes) returns (ok: bool)
    ensures ok <==> Parse(msg).Accept? && Decoded(LayoutOf(CommitPayloadV1), Parse(msg).value).Accept?
  {
    TableIsSound(CommitPayloadV1);
    var tree := ParseDer(msg);
    if tree.SpecError? {
      return false;
    }
    var o := DecodeStruct(LayoutOf(CommitPayloadV1), tree.value);
    return o.Accept?;
  }

  /** The count check_vector prints beside a certificate. */
  method BoundNote(entries: seq<Object>) returns (bound: nat)
    ensures bound == NoteCount(entries)
  {
    bound := 0;
    for i := 0 to |entries|
      invariant bound == NoteCount(entries[..i])
    {
      var hit := MsgIsCommitPayload(OctOf(entries[i], Msg));
      assert entries[..i + 1][..i] == entries[..i];
      if hit {
        bound := bound + 1;
      }
    }
    assert entries[..|entries|] == entries;
  }

  /** The printed count is CHECKED's increment exactly when no Msg decodes without being valid. */
  lemma {:induction false} NoteIsExact(entries: seq<Object>)
    ensures NoteCount(entries) >= PayloadCount(entries)
    ensures NoteCount(entries) == PayloadCount(entries)
            <==> forall e :: e in entries && DecodesAsPayload(e) ==> CarriesPayload(e)
  {
    if entries != [] {
      var init, last := entries[..|entries| - 1], entries[|entries| - 1];
      NoteIsExact(init);
      assert entries == init + [last];
      assert CarriesPayload(last) ==> DecodesAsPayload(last);
    }
  }

  /** A commit payload of version 2, which no check of this version admits. */
  function LaterPayload(): (o: Object)
    ensures Conforms(LayoutOf(CommitPayloadV1), o)
    ensures IntOf(o, Version) == 2 && OctOf(o, ProposalDigest) == [] && OctOf(o, Aux) == []
  {
    map[Version := IntField(2), ProposalDigest := OctField([]), Aux := OctField([])]
  }

  function EntryWith(msg: bytes): (o: Object)
    ensures Conforms(LayoutOf(SignerSigV0), o)
    ensures IntOf(o, Signer) == 1 && OctOf(o, Msg) == msg && |OctOf(o, SigValue)| == SIGNATURE_LEN
  {
    map[Signer := IntField(1), SigValue := OctField(seq(64, i => 0)), Msg := OctField(msg)]
  }

  function CertificateOf(entry: Object): (o: Object)
    requires Conforms(LayoutOf(SignerSigV0), entry)
    ensures Conforms(LayoutOf(CommitCertificateV1), o)
    ensures ListOf(o, Sigs) == [entry]
    ensures IntOf(o, Version) == 1 && |OctOf(o, ProposalDigest)| == DIGEST_LEN
    ensures IntOf(o, View) == IntOf(o, SeqNo) == 0
  {
    assert KindMatches(SEQOF(LayoutOf(SignerSigV0)), ListField([entry]));
    CertificateLayout();
    hide LayoutOf, Conforms;
    MakeFive(Field(Version, INT), IntField(1), Field(ProposalDigest, OCT), OctField(seq(32, i => 0)),
             Field(View, INT), IntField(0), Field(SeqNo, INT), IntField(0),
             Field(Sigs, SEQOF(LayoutOf(SignerSigV0))), ListField([entry]))
  }

  /** An accepted certificate whose printed count is too high: its one Msg is a commit payload
      of version 2, so nothing was compared with the certificate's digest. */
  lemma NoteOvercounts() returns (o: Object)
    ensures Conforms(LayoutOf(CommitCertificateV1), o)
    ensures Accepts(CommitCertificateV1, EncodeStruct(LayoutOf(CommitCertificateV1), o), o)
    ensures NoteCount(ListOf(o, Sigs)) == 1 && PayloadCount(ListOf(o, Sigs)) == 0
  {
    hide LayoutOf, Conforms, StructValue, PayloadOf, LaterPayload, EntryWith, CertificateOf, NoteCount, PayloadCount,
         Encode, Fits, MessageAgrees;
    var msg := EncodeStruct(LayoutOf(CommitPayloadV1), LaterPayload());
    UnboundMessage(LaterPayload(), msg);
    var entry := EntryWith(msg);
    o := CertificateOf(entry);
    OneEntry(entry);
    UnboundEntry(o, entry);
    assert StrictlyAscending([entry], Signer);
    SmallCertificate(o, entry);
    AcceptsIffEncoded(CommitCertificateV1, EncodeStruct(LayoutOf(CommitCertificateV1), o), o);
  }

  lemma UnboundEntry(cert: Object, entry: Object)
    requires PayloadOf(OctOf(entry, Msg)) == SpecError
    ensures MessageAgrees(cert, entry)
  {
  }

  /** The certificate above is far below the reader's cap. */
  lemma SmallCertificate(o: Object, entry: Object)
    requires Conforms(LayoutOf(CommitCertificateV1), o) && Conforms(LayoutOf(SignerSigV0), entry)
    requires ListOf(o, Sigs) == [entry] && |OctOf(o, ProposalDigest)| == 32
    requires IntOf(o, Version) == 1 && IntOf(o, View) == IntOf(o, SeqNo) == 0
    requires IntOf(entry, Signer) == 1 && |OctOf(entry, SigValue)| == 64 && |OctOf(entry, Msg)| < 0x80
    ensures Fits(StructValue(LayoutOf(CommitCertificateV1), o))
  {
    hide LayoutOf, Conforms, StructValue, Encode, Lookup, IntOf, OctOf, ListOf;
    CommitCertificateV1Shape(o);
    var e := EntryItem(entry);
    assert Each([entry], EntryItem) == [e];
    ShortInteger(1);
    ShortInteger(0);
    ShortOctets(OctOf(entry, SigValue));
    ShortOctets(OctOf(entry, Msg));
    ShortOctets(OctOf(o, ProposalDigest));
    ThreeItems(Int(1), Octets(OctOf(entry, SigValue)), Octets(OctOf(entry, Msg)));
    ShortSequence(e);
    EncodeAllSingleton(e);
    ShortSequence(Seq([e]));
    FiveItems(Int(1), Octets(OctOf(o, ProposalDigest)), Int(0), Int(0), Seq([e]));
  }

  lemma OneEntry(entry: Object)
    ensures NoteCount([entry]) == if DecodesAsPayload(entry) then 1 else 0
    ensures PayloadCount([entry]) == if CarriesPayload(entry) then 1 else 0
  {
    assert [entry][..0] == [];
  }

  lemma UnboundMessage(payload: Object, msg: bytes)
    requires Conforms(LayoutOf(CommitPayloadV1), payload)
    requires IntOf(payload, Version) != 1 && OctOf(payload, ProposalDigest) == [] && OctOf(payload, Aux) == []
    requires -128 <= IntOf(payload, Version) < 128
    requires msg == EncodeStruct(LayoutOf(CommitPayloadV1), payload)
    ensures Parse(msg).Accept? && Decoded(LayoutOf(CommitPayloadV1), Parse(msg).value) == Accept(payload)
    ensures PayloadOf(msg) == SpecError && 0 < |msg| < 0x80
  {
    var v := StructValue(LayoutOf(CommitPayloadV1), payload);
    FieldOf(LayoutOf(CommitPayloadV1), payload, 0);
    FieldOf(LayoutOf(CommitPayloadV1), payload, 1);
    FieldOf(LayoutOf(CommitPayloadV1), payload, 2);
    assert v.items == [Int(IntOf(payload, Version))] + ([Octets([])] + ([Octets([])] + []));
    EncodeAllCons(Int(IntOf(payload, Version)), [Octets([])] + ([Octets([])] + []));
    EncodeAllCons(Octets([]), [Octets([])] + []);
    EncodeAllCons(Octets([]), []);
    assert |IntegerContent(IntOf(payload, Version))| == 1;
    assert Fits(v);
    ParseEncode(v);
    DecodeStructValue(LayoutOf(CommitPayloadV1), payload);
  }

  // ------------------------------------------------------------ checks without state

  /** _strictly_ascending compares neighbours; every pair is then in order. */
  method IsStrictlyAscending(items: seq<Object>, key: FieldName) returns (ok: bool)
    ensures ok <==> StrictlyAscending(items, key)
  {
    NeighboursOrderAll(items, IntKey(key));
    var ids := seq(|items|, i requires 0 <= i < |items| => IntOf(items[i], key));
    for i := 0 to |ids|
      invariant forall j | 0 <= j < i :: InOrder(items, IntKey(key), j)
    {
      if i > 0 && ids[i - 1] >= ids[i] {
        assert !InOrder(items, IntKey(key), i);
        return false;
      }
    }
    return true;
  }

  /** _check_genesis. */
  method CheckGenesis(o: Object) returns (ok: bool)
    ensures ok <==> ValidGenesis(o)
  {
    var members := ListOf(o, Members);
    if OctOf(o, TrustDomain) == [] || IntOf(o, MaxNodes) < 0 {
      return false;
    }
    if IntOf(o, MaxNodes) < |members| {
      return false;
    }
    var ascending := IsStrictlyAscending(members, NodeID);
    if !ascending {
      return false;
    }
    var domain := OctOf(o, TrustDomain);
    for i := 0 to |members|
      invariant forall j | 0 <= j < i :: ValidMember(members[j], domain)
    {
      var m := members[i];
      assert m in members;
      if IntOf(m, NodeID) < 0 || |OctOf(m, LeafPubKey)| != 32 {
        return false;
      }
      if OctOf(m, SpiffeID) != DerivedSpiffeID(domain, IntOf(m, NodeID)) {
        return false;
      }
    }
    return true;
  }

  /** _check_client_request. */
  method CheckClientRequest(o: Object) returns (ok: bool)
    ensures ok <==> ValidClientRequest(o)
  {
    if OctOf(o, ClientCert) == [] {
      return false;
    }
    var certs := ListOf(o, Intermediates);
    for i := 0 to |certs|
      invariant forall j | 0 <= j < i :: OctOf(certs[j], CertDER) != []
    {
      if OctOf(certs[i], CertDER) == [] {
        return false;
      }
    }
    return |OctOf(o, RequestID)| == REQUEST_ID_LEN && IntOf(o, Expiry) > 0;
  }

  // ------------------------------------------------------------ one vector

  /** One entry of the annex. fields is the object der must decode to; genesisDigest and
      pubKey are the verifier's own inputs beside a blob, empty when absent. */
  datatype Vector = Vector(structure: Structure, der: bytes, fields: Object, sha256: bytes,
                           genesisDigest: bytes, pubKey: bytes)

  type Verify = (bytes, bytes, bytes) -> bool

  /** PURPOSE_PAYLOAD. */
  function PurposePayload(purpose: int): Option<Structure> {
    match purpose
    case 1 => Some(CommitPayloadV1)
    case 3 => Some(ClientRequestV1)
    case 4 => Some(ReadIndexV1)
    case _ => None
  }

  /** The payload is the structure its purpose names, where it names one. */
  ghost predicate PayloadFits(purpose: int, payload: bytes) {
    var want := PurposePayload(purpose);
    want.Some? ==> !Rejected(want.value, payload)
  }

  /** Under purposes 1, 3 and 4 the payloads that fit are the encodings of valid commit payloads,
      client requests and read indices; under any other purpose every payload does. */
  lemma PayloadsByPurpose(purpose: int, payload: bytes)
    ensures PayloadFits(1, payload) <==> exists o :: Accepts(CommitPayloadV1, payload, o)
    ensures PayloadFits(3, payload) <==> exists o :: Accepts(ClientRequestV1, payload, o)
    ensures PayloadFits(4, payload) <==> exists o :: Accepts(ReadIndexV1, payload, o)
    ensures purpose !in {1, 3, 4} ==> PayloadFits(purpose, payload)
  {
    hide Accepts;
  }

  /** The SignedV1 a verifier rebuilds around a payload. */
  function EnvelopeObject(purpose: int, digest: bytes, payload: bytes): (o: Object)
    ensures Conforms(LayoutOf(SignedV1), o)
  {
    map[Version := IntField(1), Purpose := IntField(purpose),
        GenesisDigest := OctField(digest), Payload := OctField(payload)]
  }

  function Envelope(purpose: int, digest: bytes, payload: bytes): bytes {
    EncodeStruct(LayoutOf(SignedV1), EnvelopeObject(purpose, digest, payload))
  }

  /** foreign[0] ^= 0x01. */
  function FlipFirst(digest: bytes): (d: bytes)
    requires digest != []
    ensures d != digest && |d| == |digest| && d[1..] == digest[1..]
    ensures d[0] / 2 == digest[0] / 2 && d[0] % 2 != digest[0] % 2
  {
    digest[0 := if digest[0] % 2 == 0 then digest[0] + 1 else digest[0] - 1]
  }

  /** The signature verifies over the verifier's own envelope and not over a foreign one. */
  ghost predicate SignatureHolds(vec: Vector, o: Object, verify: Verify) {
    vec.genesisDigest != [] && vec.pubKey != [] ==>
      && |vec.pubKey| == PUBKEY_LEN
      && verify(vec.pubKey, Envelope(IntOf(o, Purpose), vec.genesisDigest, OctOf(o, Payload)), OctOf(o, SigValue))
      && !verify(vec.pubKey, Envelope(IntOf(o, Purpose), FlipFirst(vec.genesisDigest), OctOf(o, Payload)),
                 OctOf(o, SigValue))
  }

  /** What a conformant annex entry is. */
  ghost predicate VectorOk(vec: Vector, hash: Merkle.Hash, verify: Verify) {
    && Accepts(vec.structure, vec.der, vec.fields)
    && hash(vec.der) == vec.sha256
    && (vec.structure == SignedBlobV1 ==>
          && PayloadFits(IntOf(vec.fields, Purpose), OctOf(vec.fields, Payload))
          && SignatureHolds(vec, vec.fields, verify))
  }

  /** Forgeries derived from an accepted tree: one per SEQUENCE, one trailing octet, and one
      bumped Version where there is a Version. */
  function ForgeryCount(n: Structure, tree: Value): nat {
    SeqCount(tree) + 1 + if VersionExempt(n) then 0 else 1
  }

  /** The object with its Version field set to 2. */
  function BumpVersion(o: Object): (r: Object)
    ensures r.Keys == o.Keys + {Version} && IntOf(r, Version) == 2
    ensures forall f | f in o.Keys && f != Version :: r[f] == o[f]
  {
    o[Version := IntField(2)]
  }

  lemma BumpConforms(n: Structure, o: Object)
    requires !VersionExempt(n) && Conforms(LayoutOf(n), o)
    ensures Conforms(LayoutOf(n), BumpVersion(o))
  {
    TableIsSound(n);
    var l := LayoutOf(n);
    assert l.fields[0] in l.fields;
    forall i | 0 <= i < |l.fields|
      ensures KindMatches(l.fields[i].kind, Lookup(BumpVersion(o), l.fields[i].name))
    {
      assert i > 0 ==> l.fields[i].name != l.fields[0].name;
      FieldOf(l, o, i);
    }
  }

  /** The encoding of the object with its Version bumped. */
  ghost function Bumped(n: Structure, o: Object): bytes
    requires Conforms(LayoutOf(n), o) && Version in Names(LayoutOf(n).fields)
  {
    ExemptHaveNoVersion(n);
    BumpConforms(n, o);
    EncodeStruct(LayoutOf(n), BumpVersion(o))
  }

  ghost function SplicesOf(tree: Value, paths: seq<Path>): set<bytes> {
    set p | p in paths && SeqAt(tree, p) :: Encode(Splice(tree, p))
  }

  /** The octet strings derived_forgeries tries on a vector that decodes to o. */
  ghost function Tried(n: Structure, tree: Value, der: bytes, o: Object): set<bytes>
    requires Conforms(LayoutOf(n), o)
  {
    SplicesOf(tree, SeqPaths(tree, []))
    + {der + [0xff]}
    + if Version in Names(LayoutOf(n).fields) then {Bumped(n, o)} else {}
  }

  /** What derived_forgeries counts: different octet strings, none of them the vector's own. */
  lemma ForgeriesAllDiffer(n: Structure, der: bytes, o: Object)
    requires Accepts(n, der, o)
    ensures
      var tree := Parse(der).value;
      && |Tried(n, tree, der, o)| == ForgeryCount(n, tree)
      && der !in Tried(n, tree, der, o)
      && ForgeryCount(n, tree) == |SeqPaths(tree, [])| + if Version in Names(LayoutOf(n).fields) then 2 else 1
  {
    hide LayoutOf, Conforms, StructValue, Valid, Splice, SeqAt, SeqPaths, SeqCount, SplicesOf, Names, Bumped,
         VersionExempt, Encode;
    var tree := Parse(der).value;
    PathCount(tree, []);
    ExemptHaveNoVersion(n);
    SplicesCounted(tree);
    var splices, trailing := SplicesOf(tree, SeqPaths(tree, [])), der + [0xff];
    OneMoreElement(splices, trailing);
    if Version in Names(LayoutOf(n).fields) {
      VersionIsOne(n, o);
      BumpSameLength(n, o);
      OneMoreElement(splices + {trailing}, Bumped(n, o));
    }
  }

  lemma OneMoreElement(s: set<bytes>, x: bytes)
    requires x !in s
    ensures |s + {x}| == |s| + 1
  {
  }

  /** One string for each SEQUENCE, all of them longer than the tree's own by three at least. */
  lemma SplicesCounted(tree: Value)
    requires Fits(tree)
    ensures |SplicesOf(tree, SeqPaths(tree, []))| == |SeqPaths(tree, [])|
    ensures forall b | b in SplicesOf(tree, SeqPaths(tree, [])) :: |b| >= |Encode(tree)| + 3
  {
    hide Encode, Splice, SeqAt, SeqPaths, Fits;
    EveryPath(tree);
    PathsDistinct(tree, []);
    DistinctSplices(tree, SeqPaths(tree, []));
    forall p | SeqAt(tree, p)
      ensures |Encode(Splice(tree, p))| >= |Encode(tree)| + 3
    {
      SpliceGrows(tree, p);
    }
  }

  lemma VersionIsOne(n: Structure, o: Object)
    requires Valid(n, o) && !VersionExempt(n)
    ensures IntOf(o, Version) == 1
  {
  }

  lemma {:induction false} DistinctSplices(tree: Value, paths: seq<Path>)
    requires Fits(tree) && AllDistinct(paths) && forall p | p in paths :: SeqAt(tree, p)
    ensures |SplicesOf(tree, paths)| == |paths|
    decreases |paths|
  {
    hide Encode, Splice, SeqAt, Fits, SplicesOf, AllDistinct;
    if paths == [] {
      NoSplices(tree);
    } else {
      var init, last := paths[..|paths| - 1], paths[|paths| - 1];
      DistinctPrefix(paths);
      DistinctSplices(tree, init);
      forall p | p in init
        ensures Encode(Splice(tree, p)) != Encode(Splice(tree, last))
      {
        ForgeriesDistinct(tree, p, last);
      }
      NotAmongSplices(tree, init, Encode(Splice(tree, last)));
      LastSplice(tree, init, last);
      assert paths == init + [last];
      OneMoreElement(SplicesOf(tree, init), Encode(Splice(tree, last)));
    }
  }

  lemma NoSplices(tree: Value)
    ensures SplicesOf(tree, []) == {}
  {
  }

  lemma NotAmongSplices(tree: Value, paths: seq<Path>, b: bytes)
    requires forall p | p in paths && SeqAt(tree, p) :: Encode(Splice(tree, p)) != b
    ensures b !in SplicesOf(tree, paths)
  {
    hide Encode, Splice, SeqAt;
  }

  lemma DistinctPrefix(paths: seq<Path>)
    requires AllDistinct(paths) && paths != []
    ensures AllDistinct(paths[..|paths| - 1])
    ensures forall p | p in paths[..|paths| - 1] :: p in paths && p != paths[|paths| - 1]
  {
    var init := paths[..|paths| - 1];
    forall p | p in init
      ensures p in paths && p != paths[|paths| - 1]
    {
      var i :| 0 <= i < |init| && init[i] == p;
      assert paths[i] == p;
    }
  }

  lemma LastSplice(tree: Value, init: seq<Path>, last: Path)
    requires SeqAt(tree, last)
    ensures SplicesOf(tree, init + [last]) == SplicesOf(tree, init) + {Encode(Splice(tree, last))}
  {
    hide Encode, Splice, SeqAt;
    assert forall p :: p in init + [last] <==> p in init || p == last;
  }

  /** Version 1 and version 2 take one octet each: the bumped encoding is as long as the original
      and another one. */
  lemma BumpSameLength(n: Structure, o: Object)
    requires Conforms(LayoutOf(n), o) && Version in Names(LayoutOf(n).fields) && IntOf(o, Version) == 1
    requires Fits(StructValue(LayoutOf(n), o))
    ensures |Bumped(n, o)| == |EncodeStruct(LayoutOf(n), o)| && Bumped(n, o) != EncodeStruct(LayoutOf(n), o)
  {
    hide Conforms, StructValue, Encode, LayoutOf;
    ExemptHaveNoVersion(n);
    BumpConforms(n, o);
    var l := LayoutOf(n);
    var v, w := StructValue(l, o), StructValue(l, BumpVersion(o));
    BumpedItems(n, o);
    ShortInteger(1);
    ShortInteger(2);
    ReplaceItem(v.items, 0, Int(2));
    SameBodySameLength(v, w);
    FitsIsSized(v);
    FitsIsSized(w);
    assert v.items[0] != w.items[0];
    if Encode(v) == Encode(w) {
      EncodeInjective(v, w);
    }
  }

  lemma SameBodySameLength(v: Value, w: Value)
    requires v.Seq? && w.Seq? && |EncodeAll(v.items)| == |EncodeAll(w.items)|
    ensures |Encode(v)| == |Encode(w)|
    ensures Fits(v) ==> Fits(w)
  {
  }

  lemma BumpedItems(n: Structure, o: Object)
    requires !VersionExempt(n) && Conforms(LayoutOf(n), o) && Conforms(LayoutOf(n), BumpVersion(o))
    ensures
      var v, w := StructValue(LayoutOf(n), o), StructValue(LayoutOf(n), BumpVersion(o));
      && |v.items| > 0
      && v.items[0] == Int(IntOf(o, Version))
      && w.items == v.items[0 := Int(2)]
  {
    hide LayoutOf, Conforms, StructValue;
    TableIsSound(n);
    var l := LayoutOf(n);
    var v, w := StructValue(l, o), StructValue(l, BumpVersion(o));
    IntItem(l, o, 0, Version);
    IntItem(l, BumpVersion(o), 0, Version);
    forall i | 0 < i < |l.fields|
      ensures w.items[i] == v.items[i]
    {
      FieldOf(l, o, i);
      FieldOf(l, BumpVersion(o), i);
      assert l.fields[i].name != Version;
    }
  }

  /** However deep the SEQUENCE, the element spliced into it is noticed. */
  ghost predicate SplicesRefused(n: Structure, tree: Value) {
    forall p | SeqAt(tree, p) :: Rejected(n, Encode(Splice(tree, p)))
  }

  /** Every forgery derived_forgeries makes is refused. */
  ghost predicate AllRefused(n: Structure, tree: Value, der: bytes) {
    && SplicesRefused(n, tree)
    && Parse(der + [0xff]).SpecError?
    && (!VersionExempt(n) ==> Decoded(LayoutOf(n), tree).Accept? && BumpRefused(n, Decoded(LayoutOf(n), tree).value))
  }

  ghost predicate BumpRefused(n: Structure, o: Object)
    requires !VersionExempt(n) && Conforms(LayoutOf(n), o)
  {
    BumpConforms(n, o);
    Rejected(n, EncodeStruct(LayoutOf(n), BumpVersion(o)))
  }

  lemma BumpIsRefused(n: Structure, o: Object)
    requires !VersionExempt(n) && Conforms(LayoutOf(n), o)
    ensures BumpRefused(n, o)
  {
    BumpConforms(n, o);
    forall p
      ensures !Accepts(n, EncodeStruct(LayoutOf(n), BumpVersion(o)), p)
    {
      ParseEncode(StructValue(LayoutOf(n), BumpVersion(o)));
      DecodeStructValue(LayoutOf(n), BumpVersion(o));
    }
  }

  /** From an accepted encoding no forgery survives, so derived_forgeries never raises. */
  lemma NoForgerySurvives(n: Structure, der: bytes, o: Object)
    requires Accepts(n, der, o)
    ensures AllRefused(n, Parse(der).value, der)
  {
    var tree := Parse(der).value;
    forall p | SeqAt(tree, p)
      ensures Rejected(n, Encode(Splice(tree, p)))
    {
      ForgeryRejected(LayoutOf(n), o, p);
    }
    ParseTrailing(tree, [0xff]);
    if !VersionExempt(n) {
      BumpIsRefused(n, o);
    }
  }

  /** data is refused before any structure's own check is reached. */
  ghost predicate StopsEarly(n: Structure, data: bytes) {
    Parse(data).Accept? && Decoded(LayoutOf(n), Parse(data).value).Accept? ==>
      !ValidVersion(n, Decoded(LayoutOf(n), Parse(data).value).value)
  }

  ghost predicate SplicesStopEarly(n: Structure, tree: Value) {
    forall p | SeqAt(tree, p) :: StopsEarly(n, Encode(Splice(tree, p)))
  }

  /** The forgeries of an accepted encoding all stop early, so they leave no count behind. */
  lemma ForgeriesStopEarly(n: Structure, der: bytes, o: Object)
    requires Accepts(n, der, o)
    ensures SplicesStopEarly(n, Parse(der).value)
    ensures !VersionExempt(n) ==>
              && Conforms(LayoutOf(n), BumpVersion(o))
              && StopsEarly(n, EncodeStruct(LayoutOf(n), BumpVersion(o)))
  {
    var tree := Parse(der).value;
    forall p | SeqAt(tree, p)
      ensures StopsEarly(n, Encode(Splice(tree, p)))
    {
      ForgeryRejected(LayoutOf(n), o, p);
    }
    if !VersionExempt(n) {
      BumpConforms(n, o);
      ParseEncode(StructValue(LayoutOf(n), BumpVersion(o)));
      DecodeStructValue(LayoutOf(n), BumpVersion(o));
    }
  }

  /** The vector is accepted with o: der decodes to it and it is valid. */
  ghost predicate Honest(n: Structure, tree: Value, der: bytes) {
    (exists o :: Accepts(n, der, o)) && tree == Parse(der).value
  }

  // ------------------------------------------------------------ the annex

  /** check_blob_signature, with the signature scheme a parameter. */
  method CheckBlobSignature(vec: Vector, o: Object, verify: Verify) returns (ok: bool)
    ensures ok <==> SignatureHolds(vec, o, verify)
  {
    if vec.genesisDigest == [] || vec.pubKey == [] {
      return true;
    }
    if |vec.pubKey| != PUBKEY_LEN {
      return false;
    }
    var envelope := Envelope(IntOf(o, Purpose), vec.genesisDigest, OctOf(o, Payload));
    if !verify(vec.pubKey, envelope, OctOf(o, SigValue)) {
      return false;
    }
    var other := Envelope(IntOf(o, Purpose), FlipFirst(vec.genesisDigest), OctOf(o, Payload));
    return !verify(vec.pubKey, other, OctOf(o, SigValue));
  }

  /** A Merkle entry of the annex with the digest it must hash to. */
  datatype MerkleVector = MerkleVector(entry: Merkle.Entry, hash: bytes)

  predicate MerkleOk(m: MerkleVector, hash: Merkle.Hash) {
    var got := Merkle.MerkleHash(hash, m.entry);
    got.Accept? && got.value == m.hash
  }

  /** The loop of main over the Merkle entries. */
  method CheckMerkle(merkle: seq<MerkleVector>, hash: Merkle.Hash) returns (ok: bool)
    ensures ok <==> forall i | 0 <= i < |merkle| :: MerkleOk(merkle[i], hash)
  {
    for i := 0 to |merkle|
      invariant forall j | 0 <= j < i :: MerkleOk(merkle[j], hash)
    {
      var got := Merkle.MerkleHash(hash, merkle[i].entry);
      if got.SpecError? || got.value != merkle[i].hash {
        return false;
      }
    }
    return true;
  }

  /** The structures that travel alone, each of which needs a vector. */
  const TOP_LEVEL: set<Structure> :=
    {Header, ProposalV0, GenesisV1, SignatureSetV0, SignedV1, SignedBlobV1, CommitPayloadV1,
     ClientRequestV1, ReadIndexV1, CommitCertificateV1}

  /** They are the structures that are no element of another one. */
  lemma TopLevelAreNoElements(n: Structure)
    ensures n in TOP_LEVEL
            <==> forall m, f | f in LayoutOf(m).fields && f.kind.SEQOF? :: f.kind.element != LayoutOf(n)
  {
    hide LayoutOf;
    ElementKinds();
    if n in {GenesisMemberV1, SignerSigV0, CertificateV1} {
      var m, f := HolderOf(n);
    } else {
      NotAnElement(n);
    }
  }

  lemma HolderOf(n: Structure) returns (m: Structure, f: Field)
    requires n in {GenesisMemberV1, SignerSigV0, CertificateV1}
    ensures f in LayoutOf(m).fields && f.kind == SEQOF(LayoutOf(n))
  {
    match n
    case GenesisMemberV1 =>
      m, f := GenesisV1, LayoutOf(GenesisV1).fields[4];
    case SignerSigV0 =>
      m, f := SignatureSetV0, LayoutOf(SignatureSetV0).fields[0];
    case CertificateV1 =>
      m, f := ClientRequestV1, LayoutOf(ClientRequestV1).fields[2];
  }

  lemma ElementKinds()
    ensures forall m, f | f in LayoutOf(m).fields && f.kind.SEQOF? ::
              f.kind.element in {LayoutOf(GenesisMemberV1), LayoutOf(SignerSigV0), LayoutOf(CertificateV1)}
  {
    forall m, f | f in LayoutOf(m).fields && f.kind.SEQOF?
      ensures f.kind.element in {LayoutOf(GenesisMemberV1), LayoutOf(SignerSigV0), LayoutOf(CertificateV1)}
    {
      ElementKind(m, f);
    }
  }

  lemma ElementKind(m: Structure, f: Field)
    requires f in LayoutOf(m).fields && f.kind.SEQOF?
    ensures f.kind.element in {LayoutOf(GenesisMemberV1), LayoutOf(SignerSigV0), LayoutOf(CertificateV1)}
  {
    match m
    case GenesisV1 =>
    case SignatureSetV0 =>
    case ClientRequestV1 =>
    case CommitCertificateV1 =>
    case _ =>
  }

  lemma NotAnElement(n: Structure)
    requires n !in {GenesisMemberV1, SignerSigV0, CertificateV1}
    ensures LayoutOf(n) !in {LayoutOf(GenesisMemberV1), LayoutOf(SignerSigV0), LayoutOf(CertificateV1)}
  {
    assert LayoutOf(n).fields[0].name !in {NodeID, Signer, CertDER};
  }

  function StructuresIn(vectors: seq<Vector>): set<Structure> {
    set v | v in vectors :: v.structure
  }

  ghost function TotalBound(vectors: seq<Vector>): nat {
    if vectors == [] then 0
    else
      var last := vectors[|vectors| - 1];
      TotalBound(vectors[..|vectors| - 1]) + Bound(last.structure, last.fields)
  }

  /** What the loop of main leaves in the count, to its end or to the vector that stops it, that
      vector included. */
  ghost function TotalSeen(vectors: seq<Vector>, hash: Merkle.Hash, verify: Verify): nat {
    if vectors == [] then 0
    else
      Seen(vectors[0].structure, vectors[0].der)
      + if VectorOk(vectors[0], hash, verify) then TotalSeen(vectors[1..], hash, verify) else 0
  }

  ghost function TotalForgeries(vectors: seq<Vector>): nat {
    if vectors == [] then 0
    else
      var last := vectors[|vectors| - 1];
      TotalForgeries(vectors[..|vectors| - 1]) +
      if Parse(last.der).Accept? then ForgeryCount(last.structure, Parse(last.der).value) else 0
  }

  ghost predicate AnnexOk(vectors: seq<Vector>, merkle: seq<MerkleVector>, hash: Merkle.Hash, verify: Verify) {
    && vectors != []
    && (forall i | 0 <= i < |vectors| :: VectorOk(vectors[i], hash, verify))
    && (forall i | 0 <= i < |merkle| :: MerkleOk(merkle[i], hash))
    && TOP_LEVEL <= StructuresIn(vectors)
  }

  // ------------------------------------------------------------ the run

  class Run {
    /** CHECKED["3.13.1"]. */
    var checked: nat

    constructor ()
      ensures checked == 0
    {
      checked := 0;
    }

    /** validate. */
    method Validate(n: Structure, o: Object) returns (ok: bool)
      modifies this
      ensures ok <==> Valid(n, o)
      ensures checked == old(checked) + Counted(n, o)
      decreases if n == CommitCertificateV1 then 3 else 0
    {
      if !VersionExempt(n) {
        assert LayoutOf(n).fields[0].name == Version by {
          TableIsSound(n);
        }
        if IntOf(o, Version) != 1 {
          return false;
        }
      }
      match n
      case Header => return |OctOf(o, PrevStateRoot)| == 32;
      case GenesisV1 => ok := CheckGenesis(o);
      case SignedV1 =>
        if IntOf(o, Purpose) !in {1, 2, 3, 4} {
          return false;
        }
        return |OctOf(o, GenesisDigest)| == GENESIS_DIGEST_LEN;
      case SignedBlobV1 =>
        if IntOf(o, Purpose) !in {1, 2, 3, 4} || OctOf(o, Payload) == [] {
          return false;
        }
        return |OctOf(o, SigValue)| == SIGNATURE_LEN;
      case CommitPayloadV1 => return |OctOf(o, ProposalDigest)| == DIGEST_LEN;
      case ClientRequestV1 => ok := CheckClientRequest(o);
      case ReadIndexV1 =>
        if IntOf(o, SignerID) <= 0 || IntOf(o, View) < 0 || IntOf(o, SeqNo) < 0 {
          return false;
        }
        return |OctOf(o, Nonce)| == NONCE_LEN;
      case CommitCertificateV1 => ok := CheckCommitCert(o);
      case _ => return true;
    }

    /** _check_commit_cert. */
    method CheckCommitCert(o: Object) returns (ok: bool)
      modifies this
      ensures ok <==> ValidCertShape(o) && MessagesAgree(o)
      ensures checked == old(checked) + if CertHead(o) then Reached(o, ListOf(o, Sigs)) else 0
      decreases 2
    {
      hide MessageAgrees, CarriesPayload, StrictlyAscending, Reached;
      var sigs := ListOf(o, Sigs);
      assert sigs[0..] == sigs;
      if |OctOf(o, ProposalDigest)| != DIGEST_LEN || IntOf(o, View) < 0 || IntOf(o, SeqNo) < 0 {
        return false;
      }
      if sigs == [] {
        return false;
      }
      var ascending := IsStrictlyAscending(sigs, Signer);
      if !ascending {
        return false;
      }
      for i := 0 to |sigs|
        invariant checked + Reached(o, sigs[i..]) == old(checked) + Reached(o, sigs)
        invariant forall j | 0 <= j < i :: GoodEntry(o, sigs[j])
      {
        var s := sigs[i];
        ReachedStep(o, sigs, i);
        if |OctOf(s, SigValue)| != SIGNATURE_LEN || OctOf(s, Msg) == [] {
          EntryMatters(o, i);
          return false;
        }
        var agrees := CheckCertMsg(o, s);
        if !agrees {
          EntryMatters(o, i);
          return false;
        }
      }
      NoEntries(o, sigs[|sigs|..]);
      EntriesSuffice(o);
      return true;
    }

    /** _check_cert_msg. */
    method CheckCertMsg(cert: Object, entry: Object) returns (ok: bool)
      modifies this
      ensures ok <==> MessageAgrees(cert, entry)
      ensures checked == old(checked) + if CarriesPayload(entry) then 1 else 0
      decreases 1
    {
      hide LayoutOf, Valid, PayloadOf, Encode, Conforms, StructValue;
      TableIsSound(CommitPayloadV1);
      PayloadSteps(OctOf(entry, Msg));
      var tree := ParseDer(OctOf(entry, Msg));
      if tree.SpecError? {
        return true;
      }
      var payload := DecodeStruct(LayoutOf(CommitPayloadV1), tree.value);
      if payload.SpecError? {
        return true;
      }
      var valid := Validate(CommitPayloadV1, payload.value);
      if !valid {
        return true;
      }
      checked := checked + 1;
      return OctOf(payload.value, ProposalDigest) == OctOf(cert, ProposalDigest);
    }

    /** validate(name, decode_struct(name, parse_der(data))) raises. */
    method Refuses(n: Structure, data: bytes) returns (refused: bool)
      modifies this
      ensures refused <==> Rejected(n, data)
      ensures checked == old(checked) + Seen(n, data)
      ensures StopsEarly(n, data) || n != CommitCertificateV1 ==> checked == old(checked)
    {
      TableIsSound(n);
      var tree := ParseDer(data);
      if tree.SpecError? {
        return true;
      }
      var o := DecodeStruct(LayoutOf(n), tree.value);
      if o.SpecError? {
        return true;
      }
      var ok := Validate(n, o.value);
      assert ok ==> Accepts(n, data, o.value);
      return !ok;
    }

    /** derived_forgeries: the number of forgeries refused, or an error if one was accepted. */
    method DerivedForgeries(n: Structure, tree: Value, der: bytes) returns (r: Result<nat>)
      modifies this
      ensures r.Accept? <==> AllRefused(n, tree, der)
      ensures r.Accept? ==> r.value == ForgeryCount(n, tree)
      ensures Honest(n, tree, der) ==> r.Accept? && checked == old(checked)
    {
      hide SplicesRefused, SplicesStopEarly, Rejected, Accepts, StopsEarly, Conforms, StructValue, LayoutOf,
           VersionExempt, Encode, SeqCount, Seen;
      Honesty(n, tree, der);
      var count: nat;
      var splices := SplicedForgeries(n, tree);
      if splices.SpecError? {
        return SpecError;
      }
      count := splices.value;
      var trailing := ParseDer(der + [0xff]);
      if trailing.Accept? {
        return SpecError;
      }
      count := count + 1;
      if !VersionExempt(n) {
        TableIsSound(n);
        var fields := DecodeStruct(LayoutOf(n), tree);
        if fields.SpecError? {
          return SpecError;
        }
        BumpConforms(n, fields.value);
        BumpIsRefused(n, fields.value);
        var refused := Refuses(n, EncodeStruct(LayoutOf(n), BumpVersion(fields.value)));
        if !refused {
          return SpecError;
        }
        count := count + 1;
      }
      return Accept(count);
    }

    /** The loop of derived_forgeries over the SEQUENCEs of the tree. */
    method SplicedForgeries(n: Structure, tree: Value) returns (r: Result<nat>)
      modifies this
      ensures r.Accept? <==> SplicesRefused(n, tree)
      ensures r.Accept? ==> r.value == SeqCount(tree)
      ensures SplicesStopEarly(n, tree) ==> checked == old(checked)
    {
      hide Rejected, StopsEarly, SplicesRefused, SplicesStopEarly, Encode, Splice, SeqAt, Seen, SeqPaths;
      var count: nat := 0;
      var paths := SeqPaths(tree, []);
      PathCount(tree, []);
      EveryPath(tree);
      for i := 0 to |paths|
        invariant count == i
        invariant forall j | 0 <= j < i :: Rejected(n, Encode(Splice(tree, paths[j])))
        invariant SplicesStopEarly(n, tree) ==> checked == old(checked)
      {
        OneSplice(n, tree, paths[i]);
        var forged := Encode(Splice(tree, paths[i]));
        var refused := Refuses(n, forged);
        if !refused {
          return SpecError;
        }
        count := count + 1;
      }
      EverySplice(n, tree);
      return Accept(count);
    }

    /** purpose_payload with required set: the payload must be what its purpose names. */
    method CheckPayload(purpose: int, payload: bytes) returns (ok: bool)
      modifies this
      ensures ok <==> PayloadFits(purpose, payload)
      ensures checked == old(checked)
    {
      hide Rejected, StopsEarly, Seen;
      var want := PurposePayload(purpose);
      if want.None? {
        return true;
      }
      var refused := Refuses(want.value, payload);
      return !refused;
    }

    /** check_vector: the length of der and the number of forgeries refused. */
    method CheckVector(vec: Vector, hash: Merkle.Hash, verify: Verify) returns (r: Result<(nat, nat)>)
      modifies this
      ensures r.Accept? <==> VectorOk(vec, hash, verify)
      ensures r.Accept? ==> r.value == (|vec.der|, ForgeryCount(vec.structure, Parse(vec.der).value))
      ensures checked == old(checked) + Seen(vec.structure, vec.der)
      ensures r.Accept? ==> Seen(vec.structure, vec.der) == Bound(vec.structure, vec.fields)
    {
      hide Counted, Valid, LayoutOf, PayloadFits, SignatureHolds, Conforms, StructValue, Rejected;
      var n := vec.structure;
      TableIsSound(n);
      var tree := ParseDer(vec.der);
      if tree.SpecError? {
        return SpecError;
      }
      var obj := DecodeStruct(LayoutOf(n), tree.value);
      if obj.SpecError? {
        return SpecError;
      }
      var valid := Validate(n, obj.value);
      if !valid || obj.value != vec.fields {
        return SpecError;
      }
      var again := EncodeStruct(LayoutOf(n), obj.value);
      if again != vec.der {
        assert false;
      }
      if hash(vec.der) != vec.sha256 {
        return SpecError;
      }
      if n == SignedV1 {
        var _ := CheckPayload(IntOf(obj.value, Purpose), OctOf(obj.value, Payload));
      } else if n == SignedBlobV1 {
        var fits := CheckPayload(IntOf(obj.value, Purpose), OctOf(obj.value, Payload));
        if !fits {
          return SpecError;
        }
        var signed := CheckBlobSignature(vec, obj.value, verify);
        if !signed {
          return SpecError;
        }
      }
      assert Accepts(n, vec.der, obj.value);
      CountedWhenValid(n, obj.value);
      var forgeries := DerivedForgeries(n, tree.value, vec.der);
      return Accept((|vec.der|, forgeries.value));
    }

    /** main, from the annex already read: the number of forgeries refused. */
    method CheckAnnex(vectors: seq<Vector>, merkle: seq<MerkleVector>, hash: Merkle.Hash, verify: Verify)
      returns (r: Result<nat>)
      modifies this
      ensures r.Accept? <==> AnnexOk(vectors, merkle, hash, verify) && old(checked) + TotalBound(vectors) > 0
      ensures r.Accept? ==>
                && r.value == TotalForgeries(vectors)
                && checked == old(checked) + TotalBound(vectors)
      ensures checked == old(checked) + TotalSeen(vectors, hash, verify)
    {
      hide TotalSeen, Seen, VectorOk, Bound, ForgeryCount, Parse, MerkleOk, StructuresIn, TotalBound, TotalForgeries;
      NoVectors();
      if vectors == [] {
        NothingSeen(vectors, hash, verify);
        return SpecError;
      }
      assert vectors[0..] == vectors;
      var total: nat := 0;
      var structures: set<Structure> := {};
      for i := 0 to |vectors|
        invariant forall j | 0 <= j < i :: VectorOk(vectors[j], hash, verify)
        invariant structures == StructuresIn(vectors[..i])
        invariant total == TotalForgeries(vectors[..i])
        invariant checked == old(checked) + TotalBound(vectors[..i])
        invariant checked + TotalSeen(vectors[i..], hash, verify) == old(checked) + TotalSeen(vectors, hash, verify)
      {
        SeenStep(vectors, i, hash, verify);
        var one := CheckVector(vectors[i], hash, verify);
        if one.SpecError? {
          return SpecError;
        }
        OneMoreVector(vectors, i, hash, verify);
        total := total + one.value.1;
        structures := structures + {vectors[i].structure};
      }
      assert vectors[..|vectors|] == vectors;
      NothingSeen(vectors[|vectors|..], hash, verify);
      var merkleOk := CheckMerkle(merkle, hash);
      if !merkleOk {
        return SpecError;
      }
      var missing := TOP_LEVEL - structures;
      if missing != {} {
        ghost var n :| n in missing;
        assert n in TOP_LEVEL && n !in structures;
        return SpecError;
      }
      assert forall n :: n in TOP_LEVEL ==> n in structures by {
        assert forall n :: n in TOP_LEVEL && n !in structures ==> n in missing;
      }
      if checked == 0 {
        return SpecError;
      }
      return Accept(total);
    }
  }

  // ------------------------------------------------------------ steps of the proofs

  ghost predicate GoodEntry(o: Object, s: Object) {
    Sealed(s) && MessageAgrees(o, s)
  }

  lemma NoEntries(cert: Object, entries: seq<Object>)
    requires entries == []
    ensures Reached(cert, entries) == 0
  {
  }

  lemma NoVectors()
    ensures StructuresIn([]) == {} && TotalBound([]) == 0 && TotalForgeries([]) == 0
  {
  }

  lemma NothingSeen(vectors: seq<Vector>, hash: Merkle.Hash, verify: Verify)
    requires vectors == []
    ensures TotalSeen(vectors, hash, verify) == 0
  {
  }

  lemma SeenStep(vectors: seq<Vector>, i: nat, hash: Merkle.Hash, verify: Verify)
    requires i < |vectors|
    ensures TotalSeen(vectors[i..], hash, verify)
            == Seen(vectors[i].structure, vectors[i].der)
               + if VectorOk(vectors[i], hash, verify) then TotalSeen(vectors[i + 1..], hash, verify) else 0
  {
    hide Seen, VectorOk;
    assert vectors[i..][1..] == vectors[i + 1..];
  }

  lemma OneMoreVector(vectors: seq<Vector>, i: nat, hash: Merkle.Hash, verify: Verify)
    requires i < |vectors| && VectorOk(vectors[i], hash, verify)
    ensures StructuresIn(vectors[..i + 1]) == StructuresIn(vectors[..i]) + {vectors[i].structure}
    ensures TotalBound(vectors[..i + 1]) == TotalBound(vectors[..i]) + Bound(vectors[i].structure, vectors[i].fields)
    ensures TotalForgeries(vectors[..i + 1])
            == TotalForgeries(vectors[..i]) + ForgeryCount(vectors[i].structure, Parse(vectors[i].der).value)
  {
    hide Bound, ForgeryCount, Valid, LayoutOf, SignatureHolds, PayloadFits;
    assert vectors[..i + 1] == vectors[..i] + [vectors[i]];
    assert vectors[..i + 1][..i] == vectors[..i];
  }

  lemma PayloadSteps(msg: bytes)
    ensures PayloadOf(msg).Accept? <==>
            && Parse(msg).Accept?
            && Decoded(LayoutOf(CommitPayloadV1), Parse(msg).value).Accept?
            && Valid(CommitPayloadV1, Decoded(LayoutOf(CommitPayloadV1), Parse(msg).value).value)
    ensures PayloadOf(msg).Accept? ==> PayloadOf(msg) == Decoded(LayoutOf(CommitPayloadV1), Parse(msg).value)
  {
  }

  lemma EntryMatters(o: Object, i: nat)
    requires i < |ListOf(o, Sigs)|
    ensures ValidCertShape(o) && MessagesAgree(o) ==> GoodEntry(o, ListOf(o, Sigs)[i])
  {
    assert ListOf(o, Sigs)[i] in ListOf(o, Sigs);
  }

  lemma EntriesSuffice(o: Object)
    requires forall j | 0 <= j < |ListOf(o, Sigs)| :: GoodEntry(o, ListOf(o, Sigs)[j])
    ensures MessagesAgree(o)
    ensures forall s | s in ListOf(o, Sigs) :: Sealed(s)
  {
  }

  lemma EveryPath(tree: Value)
    ensures forall j | 0 <= j < |SeqPaths(tree, [])| :: SeqAt(tree, SeqPaths(tree, [])[j])
    ensures forall p | SeqAt(tree, p) :: p in SeqPaths(tree, [])
  {
    forall p: Path
      ensures p in SeqPaths(tree, []) <==> SeqAt(tree, p)
    {
      PathsAreSequences(tree, [], p);
      assert p[0..] == p;
    }
  }

  lemma OneSplice(n: Structure, tree: Value, p: Path)
    requires SeqAt(tree, p)
    ensures SplicesRefused(n, tree) ==> Rejected(n, Encode(Splice(tree, p)))
    ensures SplicesStopEarly(n, tree) ==> StopsEarly(n, Encode(Splice(tree, p)))
  {
  }

  lemma EverySplice(n: Structure, tree: Value)
    requires forall j | 0 <= j < |SeqPaths(tree, [])| ::
               SeqAt(tree, SeqPaths(tree, [])[j]) && Rejected(n, Encode(Splice(tree, SeqPaths(tree, [])[j])))
    ensures SplicesRefused(n, tree)
  {
    EveryPath(tree);
  }

  /** What an accepted encoding guarantees of its forgeries. */
  lemma Honesty(n: Structure, tree: Value, der: bytes)
    ensures Honest(n, tree, der) ==>
              && AllRefused(n, tree, der)
              && SplicesStopEarly(n, tree)
              && (!VersionExempt(n) ==>
                    var o := Decoded(LayoutOf(n), tree).value;
                    && Conforms(LayoutOf(n), BumpVersion(o))
                    && StopsEarly(n, EncodeStruct(LayoutOf(n), BumpVersion(o))))
  {
    if Honest(n, tree, der) {
      var o :| Accepts(n, der, o);
      NoForgerySurvives(n, der, o);
      ForgeriesStopEarly(n, der, o);
    }
  }
}
