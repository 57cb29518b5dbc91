/** genesis.go: the pinned membership. Members come in one order with one derived identity
    each, so one membership has one spelling. */
module Genesis {
  import opened Bytes
  import opened Der
  import opened Schema
  import opened Structures
  import opened Asn1
  import opened GoValues
  import opened Ordered
  import opened WireShapes

  const LEAF_PUB_KEY_LEN := 32

  /** type GenesisMemberV1. */
  datatype Member = Member(nodeID: int64, spiffeID: bytes, leafPubKey: bytes)

  /** type GenesisV1. */
  datatype Genesis = Genesis(version: int64, trustDomain: bytes, caRoot: bytes, maxNodes: int64,
                             members: seq<Member>)

  const ZERO := Genesis(0, [], [], 0, [])

  // ------------------------------------------------------------ the wire object

  function MemberObject(m: Member): (o: Object)
    ensures Conforms(LayoutOf(GenesisMemberV1), o)
  {
    var o: Object := map[NodeID := IntField(m.nodeID), SpiffeID := OctField(m.spiffeID),
                         LeafPubKey := OctField(m.leafPubKey)];
    ConformsThree(Field(NodeID, INT), Field(SpiffeID, OCT), Field(LeafPubKey, OCT), o);
    o
  }

  function MemberObjects(ms: seq<Member>): (os: seq<Object>)
    ensures |os| == |ms|
    ensures KindMatches(SEQOF(LayoutOf(GenesisMemberV1)), ListField(os))
  {
    hide LayoutOf, Conforms;
    seq(|ms|, i requires 0 <= i < |ms| => MemberObject(ms[i]))
  }

  lemma GenesisLayout()
    ensures LayoutOf(GenesisV1)
            == Layout([Field(Version, INT), Field(TrustDomain, OCT), Field(CARoot, OCT), Field(MaxNodes, INT),
                       Field(Members, SEQOF(LayoutOf(GenesisMemberV1)))])
  {
  }

  function ToObject(g: Genesis): (o: Object)
    ensures Conforms(LayoutOf(GenesisV1), o)
  {
    GenesisLayout();
    hide LayoutOf, Conforms;
    MakeFive(Field(Version, INT), IntField(g.version), Field(TrustDomain, OCT), OctField(g.trustDomain),
             Field(CARoot, OCT), OctField(g.caRoot), Field(MaxNodes, INT), IntField(g.maxNodes),
             Field(Members, SEQOF(LayoutOf(GenesisMemberV1))), ListField(MemberObjects(g.members)))
  }

  lemma MemberObjectInjective(m: Member, n: Member)
    requires MemberObject(m) == MemberObject(n)
    ensures m == n
  {
    var o, p := MemberObject(m), MemberObject(n);
    assert o[NodeID] == p[NodeID] && o[SpiffeID] == p[SpiffeID] && o[LeafPubKey] == p[LeafPubKey];
  }

  lemma ToObjectInjective(g: Genesis, h: Genesis)
    requires ToObject(g) == ToObject(h)
    ensures g == h
  {
    var o, p := ToObject(g), ToObject(h);
    assert o[Version] == p[Version] && o[TrustDomain] == p[TrustDomain] && o[CARoot] == p[CARoot];
    assert o[MaxNodes] == p[MaxNodes] && o[Members] == p[Members];
    forall i | 0 <= i < |g.members|
      ensures g.members[i] == h.members[i]
    {
      assert MemberObjects(g.members)[i] == MemberObjects(h.members)[i];
      MemberObjectInjective(g.members[i], h.members[i]);
    }
  }

  lemma MemberFrom(o: Object) returns (m: Member)
    requires Conforms(LayoutOf(GenesisMemberV1), o) && IntsFit(StructValue(LayoutOf(GenesisMemberV1), o))
    ensures MemberObject(m) == o
  {
    FieldsThree(Field(NodeID, INT), Field(SpiffeID, OCT), Field(LeafPubKey, OCT), o);
    IntFits(LayoutOf(GenesisMemberV1), o, 0);
    m := Member(o[NodeID].i, o[SpiffeID].octets, o[LeafPubKey].octets);
  }

  lemma MembersFrom(os: seq<Object>) returns (ms: seq<Member>)
    requires forall i | 0 <= i < |os| ::
               Conforms(LayoutOf(GenesisMemberV1), os[i]) && IntsFit(StructValue(LayoutOf(GenesisMemberV1), os[i]))
    ensures MemberObjects(ms) == os
  {
    ms := [];
    for n := 0 to |os|
      invariant |ms| == n
      invariant forall i | 0 <= i < n :: MemberObject(ms[i]) == os[i]
    {
      var m := MemberFrom(os[n]);
      ms := ms + [m];
    }
  }

  /** Every conforming object whose INTEGERs fit int64 is a Go value. */
  lemma FromObject(o: Object) returns (g: Genesis)
    requires Conforms(LayoutOf(GenesisV1), o) && IntsFit(StructValue(LayoutOf(GenesisV1), o))
    ensures ToObject(g) == o
  {
    var l := LayoutOf(GenesisV1);
    FieldsFive(Field(Version, INT), Field(TrustDomain, OCT), Field(CARoot, OCT), Field(MaxNodes, INT),
               Field(Members, SEQOF(LayoutOf(GenesisMemberV1))), o);
    IntFits(l, o, 0);
    IntFits(l, o, 3);
    ElementsFit(l, o, 4);
    var ms := MembersFrom(o[Members].elements);
    g := Genesis(o[Version].i, o[TrustDomain].octets, o[CARoot].octets, o[MaxNodes].i, ms);
    hide LayoutOf, KindMatches, Conforms, IntsFit;
    SameFive(Version, TrustDomain, CARoot, MaxNodes, Members, ToObject(g), o);
  }

  // ------------------------------------------------------------ spiffeIDV1

  /** append(buf[:n], p...) within the capacity of buf: no reallocation, so buf stays the slice. */
  method Append(buf: array<byte>, n: nat, p: bytes) returns (n': nat)
    requires n + |p| <= buf.Length
    modifies buf
    ensures n' == n + |p|
    ensures buf[..n'] == old(buf[..n]) + p
  {
    for i := 0 to |p|
      invariant buf[..n + i] == old(buf[..n]) + p[..i]
    {
      buf[n + i] := p[i];
      assert buf[..n + i + 1] == buf[..n + i] + [p[i]];
    }
    n' := n + |p|;
  }

  lemma FourAppends(trustDomain: bytes, nodeID: int)
    ensures [] + SPIFFE + trustDomain + NODE + Decimal(nodeID) == DerivedSpiffeID(trustDomain, nodeID)
  {
    hide Decimal;
    assert [] + SPIFFE == SPIFFE;
  }

  /** spiffeIDV1: the buffer made once, with 20 octets for the number, is never outgrown. */
  method SpiffeIDV1(trustDomain: bytes, nodeID: int64) returns (buf: array<byte>, n: nat)
    ensures fresh(buf)
    ensures n <= buf.Length == |SPIFFE| + |trustDomain| + |NODE| + 20
    ensures buf[..n] == DerivedSpiffeID(trustDomain, nodeID)
  {
    hide DerivedSpiffeID, Decimal;
    DecimalFits(nodeID);
    FourAppends(trustDomain, nodeID);
    buf := new byte[|SPIFFE| + |trustDomain| + |NODE| + 20];
    assert buf[..0] == [];
    n := Append(buf, 0, SPIFFE);
    n := Append(buf, n, trustDomain);
    n := Append(buf, n, NODE);
    n := Append(buf, n, Decimal(nodeID));
  }

  function Pow10(k: nat): nat {
    if k == 0 then 1 else 10 * Pow10(k - 1)
  }

  lemma {:induction false} DigitsLength(n: nat, k: nat)
    requires k >= 1 && n < Pow10(k)
    ensures |Digits(n)| <= k
  {
    if n >= 10 {
      assert k > 1 by {
        assert Pow10(1) == 10;
      }
      DigitsLength(n / 10, k - 1);
    }
  }

  lemma NineteenDigits()
    ensures 0x8000_0000_0000_0000 < Pow10(19)
  {
    assert Pow10(5) == 100000;
    assert Pow10(10) == 10000000000;
    assert Pow10(15) == 1000000000000000;
  }

  lemma DecimalFits(n: int64)
    ensures |Decimal(n)| <= 20
  {
    var m: int := n;
    NineteenDigits();
    DigitsLength(if m < 0 then -m else m, 19);
  }

  lemma {:induction false} DigitsInjective(m: nat, n: nat)
    requires Digits(m) == Digits(n)
    ensures m == n
  {
    var s := Digits(m);
    assert m < 10 <==> |s| == 1;
    assert n < 10 <==> |s| == 1;
    if m >= 10 {
      assert Digits(m / 10) == s[..|s| - 1] == Digits(n / 10);
      assert 0x30 + m % 10 == s[|s| - 1] == 0x30 + n % 10;
      DigitsInjective(m / 10, n / 10);
    }
  }

  lemma DecimalInjective(m: int, n: int)
    requires Decimal(m) == Decimal(n)
    ensures m == n
  {
    var s := Decimal(m);
    assert (m < 0) == (s[0] == 0x2d) by {
      assert m >= 0 ==> Digits(m)[0] in Digits(m);
    }
    assert (n < 0) == (s[0] == 0x2d) by {
      assert n >= 0 ==> Digits(n)[0] in Digits(n);
    }
    if m < 0 {
      assert Digits(-m) == s[1..] == Digits(-n);
      DigitsInjective(-m, -n);
    } else {
      DigitsInjective(m, n);
    }
  }

  lemma NoSlashInDecimal(n: int)
    ensures forall i | 0 <= i < |Decimal(n)| :: Decimal(n)[i] != 0x2f
  {
    var d := Digits(if n < 0 then -n else n);
    assert forall i | 0 <= i < |d| :: d[i] in d;
  }

  /** Identities differ wherever the trust domain or the node differs, whatever the domain
      contains: the last slash ends the domain's part. */
  lemma SpiffeIDInjective(d: bytes, m: int, e: bytes, n: int)
    requires DerivedSpiffeID(d, m) == DerivedSpiffeID(e, n)
    ensures d == e && m == n
  {
    var s := DerivedSpiffeID(d, m);
    LastSlash(d, m);
    LastSlash(e, n);
    var x, y := Decimal(m), Decimal(n);
    NoLongerThan(s, |x|, |y|);
    NoLongerThan(s, |y|, |x|);
    assert s[|s| - |x|..] == x && s[|s| - |y|..] == y;
    DecimalInjective(m, n);
    assert s[9..|s| - |x| - 6] == d && s[9..|s| - |y| - 6] == e;
  }

  lemma NoLongerThan(s: bytes, a: nat, b: nat)
    requires a < |s| && b <= |s|
    requires s[|s| - a - 1] == 0x2f
    requires forall i | |s| - b <= i < |s| :: s[i] != 0x2f
    ensures b <= a
  {
  }

  lemma LastSlash(d: bytes, m: int)
    ensures var s, x := DerivedSpiffeID(d, m), Decimal(m);
            && |s| == 9 + |d| + 6 + |x|
            && s[|s| - |x| - 1] == 0x2f
            && forall i | |s| - |x| <= i < |s| :: s[i] != 0x2f
  {
    NoSlashInDecimal(m);
    var s, x := DerivedSpiffeID(d, m), Decimal(m);
    assert forall i | |s| - |x| <= i < |s| :: s[i] == x[i - (|s| - |x|)];
  }

  // ------------------------------------------------------------ checkGenesisV1

  /** The first error a member meets, looking back at its neighbour only. */
  function MemberError(g: Genesis, i: nat): Option<Error>
    requires i < |g.members|
  {
    var m := g.members[i];
    if m.nodeID < 0 then Some(ErrRange)
    else if i > 0 && m.nodeID <= g.members[i - 1].nodeID then Some(ErrOrder)
    else if m.spiffeID == [] then Some(ErrEmpty)
    else if m.spiffeID != DerivedSpiffeID(g.trustDomain, m.nodeID) then Some(ErrFormat)
    else if |m.leafPubKey| != LEAF_PUB_KEY_LEN then Some(ErrLength)
    else None
  }

  function HeadError(g: Genesis): Option<Error> {
    if g.version != VERSION_V1 then Some(ErrVersion)
    else if g.trustDomain == [] then Some(ErrEmpty)
    else if g.maxNodes < 0 || |g.members| > g.maxNodes then Some(ErrRange)
    else None
  }

  function MemberErrors(g: Genesis): (errs: seq<Option<Error>>)
    ensures |errs| == |g.members|
  {
    seq(|g.members|, i requires 0 <= i < |g.members| => MemberError(g, i))
  }

  /** checkGenesisV1 as a function: the fields in order, then the members in order. */
  function Check(g: Genesis): Option<Error> {
    if HeadError(g).Some? then HeadError(g) else FirstError(MemberErrors(g))
  }

  lemma CheckPasses(g: Genesis)
    ensures Check(g) == None
            <==> HeadError(g) == None && forall i | 0 <= i < |g.members| :: MemberError(g, i) == None
  {
    FirstErrorIsFirst(MemberErrors(g));
    assert forall i | 0 <= i < |g.members| :: MemberErrors(g)[i] == MemberError(g, i);
  }

  /** checkGenesisV1. */
  method CheckGenesisV1(g: Genesis) returns (err: Option<Error>)
    ensures err == Check(g)
  {
    hide DerivedSpiffeID;
    ghost var errs := MemberErrors(g);
    if g.version != VERSION_V1 {
      return Some(ErrVersion);
    }
    if |g.trustDomain| == 0 {
      return Some(ErrEmpty);
    }
    if g.maxNodes < 0 || |g.members| > g.maxNodes {
      return Some(ErrRange);
    }
    for i := 0 to |g.members|
      invariant FirstError(errs) == FirstError(errs[i..])
    {
      FirstErrorStep(errs, i);
      assert errs[i] == MemberError(g, i);
      var m := g.members[i];
      if m.nodeID < 0 {
        return Some(ErrRange);
      }
      if i > 0 && m.nodeID <= g.members[i - 1].nodeID {
        return Some(ErrOrder);
      }
      if |m.spiffeID| == 0 {
        return Some(ErrEmpty);
      }
      var want, n := SpiffeIDV1(g.trustDomain, m.nodeID);
      if m.spiffeID != want[..n] {
        return Some(ErrFormat);
      }
      if |m.leafPubKey| != LEAF_PUB_KEY_LEN {
        return Some(ErrLength);
      }
    }
    return None;
  }

  /** The fields before the members pass. */
  predicate HeadPasses(g: Genesis) {
    g.version == 1 && g.trustDomain != [] && |g.members| <= g.maxNodes
  }

  /** Which error a value gets whose fields do not pass. */
  lemma HeadErrors(g: Genesis)
    ensures Check(g) == Some(ErrVersion) <==> g.version != 1
    ensures g.version == 1 && g.trustDomain == [] ==> Check(g) == Some(ErrEmpty)
    ensures g.version == 1 && g.trustDomain != [] && !HeadPasses(g) ==> Check(g) == Some(ErrRange)
  {
    hide DerivedSpiffeID;
    FirstErrorIsFirst(MemberErrors(g));
  }

  /** Which error a value gets whose fields pass: that of the first member that is not good or not
      in order. */
  lemma MemberErrorsAt(g: Genesis, i: nat)
    requires HeadPasses(g) && i < |g.members|
    requires forall j | 0 <= j < i :: GoodMember(g, j) && InOrder(g.members, NodeKey, j)
    ensures
      var m := g.members[i];
      && (m.nodeID < 0 ==> Check(g) == Some(ErrRange))
      && (m.nodeID >= 0 && !InOrder(g.members, NodeKey, i) ==> Check(g) == Some(ErrOrder))
      && (m.nodeID >= 0 && InOrder(g.members, NodeKey, i) ==>
            && (m.spiffeID == [] ==> Check(g) == Some(ErrEmpty))
            && (m.spiffeID != [] && m.spiffeID != DerivedSpiffeID(g.trustDomain, m.nodeID)
                ==> Check(g) == Some(ErrFormat))
            && (m.spiffeID == DerivedSpiffeID(g.trustDomain, m.nodeID) && |m.leafPubKey| != 32
                ==> Check(g) == Some(ErrLength)))
  {
    hide DerivedSpiffeID;
    forall j | 0 <= j < i
      ensures MemberErrors(g)[j] == None
    {
      IdentityNotEmpty(g.trustDomain, g.members[j].nodeID);
      assert GoodMember(g, j) && InOrder(g.members, NodeKey, j);
    }
    IdentityNotEmpty(g.trustDomain, g.members[i].nodeID);
    if MemberError(g, i).Some? {
      FirstErrorAt(MemberErrors(g), i);
    }
  }

  lemma IdentityNotEmpty(domain: bytes, nodeID: int)
    ensures DerivedSpiffeID(domain, nodeID) != []
  {
  }

  predicate GoodMember(g: Genesis, i: nat)
    requires i < |g.members|
  {
    var m := g.members[i];
    && m.nodeID >= 0
    && m.spiffeID == DerivedSpiffeID(g.trustDomain, m.nodeID)
    && |m.leafPubKey| == LEAF_PUB_KEY_LEN
  }

  lemma MembersValid(g: Genesis)
    ensures (forall m | m in MemberObjects(g.members) :: ValidMember(m, g.trustDomain))
            <==> forall i | 0 <= i < |g.members| :: GoodMember(g, i)
  {
    var os := MemberObjects(g.members);
    forall i | 0 <= i < |g.members|
      ensures os[i] in os && (ValidMember(os[i], g.trustDomain) <==> GoodMember(g, i))
    {
      assert os[i] == MemberObject(g.members[i]);
    }
  }

  /** The key the members are ordered by. */
  function NodeKey(m: Member): int {
    m.nodeID
  }

  lemma MembersStrictlyAscend(g: Genesis)
    ensures StrictlyAscending(MemberObjects(g.members), NodeID)
            <==> forall i | 0 <= i < |g.members| :: InOrder(g.members, NodeKey, i)
  {
    hide LayoutOf, Conforms;
    forall i | 0 <= i < |g.members|
      ensures NodeKey(g.members[i]) == IntKey(NodeID)(MemberObjects(g.members)[i])
    {
      assert MemberObjects(g.members)[i] == MemberObject(g.members[i]);
    }
    SameKeys(g.members, NodeKey, MemberObjects(g.members), IntKey(NodeID));
    NeighboursOrderAll(g.members, NodeKey);
  }

  lemma NoMemberError(g: Genesis)
    ensures (forall i | 0 <= i < |g.members| :: MemberError(g, i) == None)
            <==>
            && (forall i | 0 <= i < |g.members| :: GoodMember(g, i))
            && (forall i | 0 <= i < |g.members| :: InOrder(g.members, NodeKey, i))
  {
    forall i | 0 <= i < |g.members|
      ensures MemberError(g, i) == None <==> GoodMember(g, i) && InOrder(g.members, NodeKey, i)
    {
      assert DerivedSpiffeID(g.trustDomain, g.members[i].nodeID) != [];
    }
  }

  /** Go's check and Python's validate are one condition. */
  lemma CheckIsValid(g: Genesis)
    ensures Check(g) == None <==> Valid(GenesisV1, ToObject(g))
  {
    hide StrictlyAscending, ValidMember, ToObject, MemberError, GoodMember, InOrder;
    CheckPasses(g);
    NoMemberError(g);
    MembersValid(g);
    MembersStrictlyAscend(g);
    ObjectReads(g);
  }

  lemma ObjectReads(g: Genesis)
    ensures var o := ToObject(g);
            && IntOf(o, Version) == g.version
            && OctOf(o, TrustDomain) == g.trustDomain
            && OctOf(o, CARoot) == g.caRoot
            && IntOf(o, MaxNodes) == g.maxNodes
            && ListOf(o, Members) == MemberObjects(g.members)
  {
  }

  // ------------------------------------------------------------ one membership, one spelling

  function WireMember(m: Member): Value {
    Seq([Int(m.nodeID), Octets(m.spiffeID), Octets(m.leafPubKey)])
  }

  /** What asn1.Marshal writes: a SEQUENCE of the struct's fields in the order of their
      declaration, which is the wire order. */
  function Wire(g: Genesis): Value {
    Seq([Int(g.version), Octets(g.trustDomain), Octets(g.caRoot), Int(g.maxNodes),
         Seq(seq(|g.members|, i requires 0 <= i < |g.members| => WireMember(g.members[i])))])
  }

  /** Go's declaration order is the order of the schema's row. */
  lemma WireIsStructValue(g: Genesis)
    ensures StructValue(LayoutOf(GenesisV1), ToObject(g)) == Wire(g)
  {
    hide LayoutOf, Conforms, StructValue, ToObject, IntOf, OctOf, ListOf;
    GenesisV1Shape(ToObject(g));
    ObjectReads(g);
    var os := MemberObjects(g.members);
    forall i | 0 <= i < |os|
      ensures MemberItem(os[i]) == WireMember(g.members[i])
    {
      MemberReads(g.members[i]);
    }
    assert Each(os, MemberItem) == seq(|g.members|, i requires 0 <= i < |g.members| => WireMember(g.members[i]));
  }

  lemma MemberReads(m: Member)
    ensures MemberItem(MemberObject(m)) == WireMember(m)
  {
  }

  /** marshal of a GenesisV1. */
  function Marshal(g: Genesis): Option<bytes> {
    Some(Encode(Wire(g)))
  }

  /** MarshalGenesisV1. */
  method MarshalGenesisV1(g: Genesis) returns (b: bytes, err: Option<Error>)
    ensures err == Check(g)
    ensures b == if err == None then Encode(Wire(g)) else []
    ensures err == None && |b| < PYTHON_LIMIT ==> Accepts(GenesisV1, b, ToObject(g))
  {
    hide LayoutOf, Conforms, StructValue, ToObject, Wire, Check, Accepts;
    CheckIsValid(g);
    WireIsStructValue(g);
    FitsBelowLimit(Wire(g));
    AcceptsIffEncoded(GenesisV1, Encode(Wire(g)), ToObject(g));
    err := CheckGenesisV1(g);
    if err.Some? {
      return [], err;
    }
    b := Encode(Wire(g));
  }

  /** UnmarshalGenesisV1, over any decoder. */
  method UnmarshalGenesisV1(b: bytes, decode: Decoder<Genesis>) returns (g: Genesis, err: Option<Error>)
    ensures err == CheckedVerdict(decode, Marshal, Check, b)
    ensures g == if err == None then decode(b).value else Genesis(0, [], [], 0, [])
    ensures forall ceiling: nat | Decodes(decode, Marshal, ceiling) && |b| < ceiling ::
              err == None <==> CheckedMarshalled(Marshal, Check, b)
  {
    UnmarshalsRange(decode, Marshal, Check, b);
    var v := new Ref(ZERO);
    err := Unmarshal(b, v, decode, Marshal);
    if err.Some? {
      return ZERO, err;
    }
    err := CheckGenesisV1(v.value);
    if err.Some? {
      return ZERO, err;
    }
    return v.value, None;
  }

  /** Who is in the cluster, and under which key. */
  function Membership(g: Genesis): set<(int64, bytes)> {
    set m | m in g.members :: (m.nodeID, m.leafPubKey)
  }

  function NodeIDs(g: Genesis): set<int> {
    set m | m in g.members :: m.nodeID
  }

  lemma CheckedAscends(g: Genesis)
    requires Check(g) == None
    ensures Ascends(g.members, NodeKey)
    ensures forall i | 0 <= i < |g.members| :: GoodMember(g, i)
  {
    CheckPasses(g);
    NoMemberError(g);
    NeighboursOrderAll(g.members, NodeKey);
  }

  /** A member is settled by its node and key, the trust domain being given. */
  lemma MemberSettled(g: Genesis, h: Genesis)
    requires Check(g) == None && Check(h) == None
    requires g.trustDomain == h.trustDomain && Membership(g) == Membership(h)
    ensures Elements(g.members) <= Elements(h.members)
  {
    hide DerivedSpiffeID, Check;
    CheckedAscends(g);
    CheckedAscends(h);
    forall m | m in g.members
      ensures m in h.members
    {
      assert (m.nodeID, m.leafPubKey) in Membership(g);
      var n :| n in h.members && (n.nodeID, n.leafPubKey) == (m.nodeID, m.leafPubKey);
      var i :| 0 <= i < |g.members| && g.members[i] == m;
      var j :| 0 <= j < |h.members| && h.members[j] == n;
      assert GoodMember(g, i) && GoodMember(h, j);
    }
  }

  /** Two accepted values over the same domain, root, ceiling and membership are one value and
      marshal to the same octets; and there are as many members as nodes. */
  lemma OneSpellingPerMembership(g: Genesis, h: Genesis)
    requires Check(g) == None && Check(h) == None
    requires g.trustDomain == h.trustDomain && g.caRoot == h.caRoot && g.maxNodes == h.maxNodes
    requires Membership(g) == Membership(h)
    ensures g == h && Marshal(g) == Marshal(h)
    ensures |g.members| == |NodeIDs(g)|
  {
    MemberSettled(g, h);
    MemberSettled(h, g);
    CheckedAscends(g);
    CheckedAscends(h);
    OneAscendingList(g.members, h.members, NodeKey);
    DistinctKeys(g.members, NodeKey);
    assert NodeIDs(g) == KeysOf(g.members, NodeKey);
  }
}
