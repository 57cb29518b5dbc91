/** The schema layer of ci/verify_vectors.py: a structure is a list of named fields over a
    SEQUENCE, and SEQUENCE OF nests another structure. Nothing here depends on the table of
    structures, so every result holds for every layout, nested to any depth. */
module Schema {
  import opened Bytes
  import opened Der

  datatype FieldName =
    | Version | PrevStateRoot | PrevSeq | ConsensusTime
    | Payload | HeaderBytes | Metadata | VerificationSequence
    | TrustDomain | CARoot | MaxNodes | Members
    | NodeID | SpiffeID | LeafPubKey
    | Sigs | Signer | SigValue | Msg
    | Purpose | GenesisDigest | ProposalDigest | Aux
    | ClientCert | Intermediates | RequestID | Expiry | CertDER
    | SignerID | View | SeqNo | Nonce

  datatype Kind = INT | OCT | SEQOF(element: Layout)

  datatype Field = Field(name: FieldName, kind: Kind)

  /** One entry of SCHEMAS. An element structure is held in place of its name. */
  datatype Layout = Layout(fields: seq<Field>)

  datatype FieldValue =
    | IntField(i: int)
    | OctField(octets: bytes)
    | ListField(elements: seq<Object>)

  /** The dictionary decode_struct builds, with OCTET STRINGs as octets rather than hex. */
  type Object = map<FieldName, FieldValue>

  function Names(fields: seq<Field>): set<FieldName> {
    set f | f in fields :: f.name
  }

  predicate DistinctNames(l: Layout) {
    && (forall i, j :: 0 <= i < j < |l.fields| ==> l.fields[i].name != l.fields[j].name)
    && (forall f | f in l.fields :: f.kind.SEQOF? ==> DistinctNames(f.kind.element))
  }

  /** o has the keys of l and each value is of its field's kind. */
  predicate Conforms(l: Layout, o: Object) {
    && o.Keys == Names(l.fields)
    && forall i | 0 <= i < |l.fields| :: KindMatches(l.fields[i].kind, Lookup(o, l.fields[i].name))
  }

  predicate KindMatches(k: Kind, x: FieldValue) {
    match k
    case INT => x.IntField?
    case OCT => x.OctField?
    case SEQOF(e) => x.ListField? && forall i | 0 <= i < |x.elements| :: Conforms(e, x.elements[i])
  }

  /** o[f]; an absent key is a Python KeyError that no conforming object meets. */
  function Lookup(o: Object, f: FieldName): FieldValue {
    if f in o then o[f] else IntField(0)
  }

  /** struct_value. */
  function StructValue(l: Layout, o: Object): (v: Value)
    requires Conforms(l, o)
    ensures v.Seq? && |v.items| == |l.fields|
  {
    Seq(seq(|l.fields|, i requires 0 <= i < |l.fields| =>
        ToValue(l.fields[i].kind, Lookup(o, l.fields[i].name))))
  }

  function ToValue(k: Kind, x: FieldValue): (v: Value)
    requires KindMatches(k, x)
    ensures k.SEQOF? ==> v.Seq? && |v.items| == |x.elements|
  {
    match k
    case INT => Int(x.i)
    case OCT => Octets(x.octets)
    case SEQOF(e) =>
      Seq(seq(|x.elements|, i requires 0 <= i < |x.elements| => StructValue(e, x.elements[i])))
  }

  /** encode_struct. */
  function EncodeStruct(l: Layout, o: Object): bytes
    requires Conforms(l, o)
  {
    Encode(StructValue(l, o))
  }

  // ------------------------------------------------------------ decode_struct

  /** The one object of this layout whose tree is v, if there is one. */
  ghost function Decoded(l: Layout, v: Value): (r: Result<Object>)
    ensures r.Accept? ==> Conforms(l, r.value) && StructValue(l, r.value) == v
    ensures r.SpecError? ==> forall o | Conforms(l, o) :: StructValue(l, o) != v
  {
    if exists o :: Conforms(l, o) && StructValue(l, o) == v then
      var o :| Conforms(l, o) && StructValue(l, o) == v;
      Accept(o)
    else
      SpecError
  }

  lemma {:induction false} StructValueInjective(l: Layout, o: Object, p: Object)
    requires Conforms(l, o) && Conforms(l, p)
    requires StructValue(l, o) == StructValue(l, p)
    ensures o == p
    decreases l
  {
    forall f | f in o
      ensures o[f] == p[f]
    {
      var i :| 0 <= i < |l.fields| && l.fields[i].name == f;
      assert StructValue(l, o).items[i] == StructValue(l, p).items[i];
      ToValueInjective(l.fields[i].kind, o[f], p[f]);
    }
  }

  lemma {:induction false} ToValueInjective(k: Kind, x: FieldValue, y: FieldValue)
    requires KindMatches(k, x) && KindMatches(k, y)
    requires ToValue(k, x) == ToValue(k, y)
    ensures x == y
    decreases k
  {
    if k.SEQOF? {
      forall i | 0 <= i < |x.elements|
        ensures x.elements[i] == y.elements[i]
      {
        assert ToValue(k, x).items[i] == ToValue(k, y).items[i];
        StructValueInjective(k.element, x.elements[i], y.elements[i]);
      }
    }
  }

  /** Decoding undoes struct_value, at every nesting. */
  lemma DecodeStructValue(l: Layout, o: Object)
    requires Conforms(l, o)
    ensures Decoded(l, StructValue(l, o)) == Accept(o)
  {
    var r := Decoded(l, StructValue(l, o));
    StructValueInjective(l, o, r.value);
  }

  /** decode_struct: the tree must be struct_value of what it returns. */
  method DecodeStruct(l: Layout, v: Value) returns (r: Result<Object>)
    requires DistinctNames(l)
    ensures r.Accept? ==> Conforms(l, r.value) && StructValue(l, r.value) == v
    ensures r.SpecError? ==> forall o | Conforms(l, o) :: StructValue(l, o) != v
    ensures r == Decoded(l, v)
    decreases l, 0
  {
    hide Conforms, KindMatches, StructValue, ToValue, Decoded, DecodedUpTo;
    if !v.Seq? || |v.items| != |l.fields| {
      return SpecError;
    }
    var out: Object := map[];
    NothingDecoded(l, v);
    for n := 0 to |l.fields|
      invariant DecodedUpTo(l, v, n, out)
    {
      var field, item := l.fields[n], v.items[n];
      var x := DecodeField(field.kind, item);
      if x.SpecError? {
        FieldRefused(l, v, n);
        return SpecError;
      }
      OneMoreDecoded(l, v, n, out, x.value);
      out := out[field.name := x.value];
    }
    Assembled(l, v, out);
    return Accept(out);
  }

  /** out holds the first n fields and nothing else. */
  ghost predicate DecodedUpTo(l: Layout, v: Value, n: nat, out: Object) {
    && v.Seq?
    && n <= |v.items| == |l.fields|
    && out.Keys == Names(l.fields[..n])
    && forall i | 0 <= i < n :: FieldDecoded(l.fields[i], v.items[i], out)
  }

  lemma NothingDecoded(l: Layout, v: Value)
    requires v.Seq? && |v.items| == |l.fields|
    ensures DecodedUpTo(l, v, 0, map[])
  {
  }

  lemma OneMoreDecoded(l: Layout, v: Value, n: nat, out: Object, x: FieldValue)
    requires DistinctNames(l) && DecodedUpTo(l, v, n, out) && n < |l.fields|
    requires FieldDecoded(l.fields[n], v.items[n], map[l.fields[n].name := x])
    ensures DecodedUpTo(l, v, n + 1, out[l.fields[n].name := x])
  {
    hide Conforms, KindMatches, StructValue, ToValue, DistinctNames, Names;
    NamesGrow(l, n);
  }

  lemma FieldRefused(l: Layout, v: Value, n: nat)
    requires v.Seq? && n < |v.items| == |l.fields|
    requires forall x | KindMatches(l.fields[n].kind, x) :: ToValue(l.fields[n].kind, x) != v.items[n]
    ensures forall o | Conforms(l, o) :: StructValue(l, o) != v
  {
    forall o | Conforms(l, o)
      ensures StructValue(l, o) != v
    {
      FieldOf(l, o, n);
    }
  }

  lemma Assembled(l: Layout, v: Value, out: Object)
    requires DecodedUpTo(l, v, |l.fields|, out)
    ensures Conforms(l, out) && StructValue(l, out) == v
    ensures Decoded(l, v) == Accept(out)
  {
    assert l.fields[..|l.fields|] == l.fields;
    assert forall i | 0 <= i < |l.fields| :: FieldDecoded(l.fields[i], v.items[i], out);
    assert Conforms(l, out);
    assert StructValue(l, out).items == v.items;
    DecodeStructValue(l, out);
  }

  ghost predicate FieldDecoded(f: Field, item: Value, out: Object) {
    f.name in out && KindMatches(f.kind, out[f.name]) && ToValue(f.kind, out[f.name]) == item
  }

  lemma FieldOf(l: Layout, o: Object, n: nat)
    requires Conforms(l, o) && n < |l.fields|
    ensures KindMatches(l.fields[n].kind, Lookup(o, l.fields[n].name))
    ensures StructValue(l, o).items[n] == ToValue(l.fields[n].kind, Lookup(o, l.fields[n].name))
  {
  }

  lemma NamesGrow(l: Layout, n: nat)
    requires DistinctNames(l) && n < |l.fields|
    ensures Names(l.fields[..n + 1]) == Names(l.fields[..n]) + {l.fields[n].name}
    ensures forall i | 0 <= i < n :: l.fields[i].name != l.fields[n].name
  {
    assert l.fields[..n + 1] == l.fields[..n] + [l.fields[n]];
  }

  /** The three branches of decode_struct's loop. */
  method DecodeField(k: Kind, item: Value) returns (r: Result<FieldValue>)
    requires k.SEQOF? ==> DistinctNames(k.element)
    ensures r.Accept? ==> KindMatches(k, r.value) && ToValue(k, r.value) == item
    ensures r.SpecError? ==> forall x | KindMatches(k, x) :: ToValue(k, x) != item
    decreases k, 1
  {
    match k
    case INT =>
      if !item.Int? {
        return SpecError;
      }
      return Accept(IntField(item.i));
    case OCT =>
      if !item.Octets? {
        return SpecError;
      }
      return Accept(OctField(item.octets));
    case SEQOF(e) =>
      if !item.Seq? {
        return SpecError;
      }
      var list: seq<Object> := [];
      for n := 0 to |item.items|
        invariant |list| == n
        invariant forall i | 0 <= i < n :: Conforms(e, list[i]) && StructValue(e, list[i]) == item.items[i]
      {
        var o := DecodeStruct(e, item.items[n]);
        if o.SpecError? {
          forall x | KindMatches(k, x)
            ensures ToValue(k, x) != item
          {
            ElementOf(k, x, n);
          }
          return SpecError;
        }
        list := list + [o.value];
      }
      assert ToValue(k, ListField(list)).items == item.items;
      return Accept(ListField(list));
  }

  lemma ElementOf(k: Kind, x: FieldValue, n: nat)
    requires k.SEQOF? && KindMatches(k, x)
    ensures n < |x.elements| ==>
              Conforms(k.element, x.elements[n]) &&
              ToValue(k, x).items[n] == StructValue(k.element, x.elements[n])
  {
  }

  /** struct_value's loop; the caller's object has the fields the layout names. */
  method BuildStructValue(l: Layout, o: Object) returns (v: Value)
    requires Conforms(l, o)
    ensures v == StructValue(l, o)
    decreases l
  {
    var items: seq<Value> := [];
    for n := 0 to |l.fields|
      invariant |items| == n
      invariant items == StructValue(l, o).items[..n]
    {
      var x := Lookup(o, l.fields[n].name);
      FieldOf(l, o, n);
      match l.fields[n].kind
      case INT =>
        items := items + [Int(x.i)];
      case OCT =>
        items := items + [Octets(x.octets)];
      case SEQOF(e) =>
        var list: seq<Value> := [];
        for m := 0 to |x.elements|
          invariant |list| == m
          invariant list == ToValue(SEQOF(e), x).items[..m]
        {
          ElementOf(SEQOF(e), x, m);
          var element := BuildStructValue(e, x.elements[m]);
          list := list + [element];
        }
        assert Seq(list) == ToValue(SEQOF(e), x);
        items := items + [Seq(list)];
    }
    return Seq(items);
  }
}
