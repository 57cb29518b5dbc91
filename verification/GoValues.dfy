/** What Go's int64 fields can hold, as a condition on the tree, and the shape shared by the
    Go structures: a struct is an object of its layout, and marshal is encode_struct. */
module GoValues {
  import opened Bytes
  import opened Der
  import opened Schema

  predicate InInt64(i: int) {
    -0x8000_0000_0000_0000 <= i < 0x8000_0000_0000_0000
  }

  /** Every INTEGER of the tree fits an int64. */
  predicate IntsFit(v: Value) {
    match v
    case Int(i) => InInt64(i)
    case Seq(items) => forall x | x in items :: IntsFit(x)
    case _ => true
  }

  lemma IntFits(l: Layout, o: Object, n: nat)
    requires Conforms(l, o) && n < |l.fields| && l.fields[n].kind == INT
    requires IntsFit(StructValue(l, o))
    ensures Lookup(o, l.fields[n].name).IntField? && InInt64(Lookup(o, l.fields[n].name).i)
  {
    FieldOf(l, o, n);
    assert IntsFit(StructValue(l, o).items[n]);
  }

  lemma ElementsFit(l: Layout, o: Object, n: nat)
    requires Conforms(l, o) && n < |l.fields| && l.fields[n].kind.SEQOF?
    requires IntsFit(StructValue(l, o))
    ensures Lookup(o, l.fields[n].name).ListField?
    ensures forall i | 0 <= i < |Lookup(o, l.fields[n].name).elements| ::
              var e := Lookup(o, l.fields[n].name).elements[i];
              Conforms(l.fields[n].kind.element, e) && IntsFit(StructValue(l.fields[n].kind.element, e))
  {
    FieldOf(l, o, n);
    var k, x := l.fields[n].kind, Lookup(o, l.fields[n].name);
    assert IntsFit(StructValue(l, o).items[n]);
    forall i | 0 <= i < |x.elements|
      ensures Conforms(k.element, x.elements[i]) && IntsFit(StructValue(k.element, x.elements[i]))
    {
      ElementOf(k, x, i);
      assert ToValue(k, x).items[i] in ToValue(k, x).items;
    }
  }

  /** The longest encoding the Python reader takes: six octets of header and 2^32 - 1 more. */
  const PYTHON_LIMIT := 0x1_0000_0000 + 6

  lemma FitsBelowLimit(v: Value)
    ensures Fits(v) <==> |Encode(v)| < PYTHON_LIMIT
  {
    var n := |Body(v)|;
    FourOctets();
    ByteLengthAtMost(n, 3);
    ByteLengthAtMost(n, 4);
    assert Pow256(3) == 0x100_0000;
    assert n >= 0x80 ==> |EncodeLength(n)| == 1 + ByteLength(n);
  }
}
