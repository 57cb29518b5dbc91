/** The DER reader of ci/verify_vectors.py. It advances an offset through the data, and is
    proved to accept exactly what the encoder writes, one value for one byte string. */
module DerReader {
  import opened Bytes
  import opened Der

  // ------------------------------------------------------------ the reader

  /** No length below the cap is spelled at the front of s. */
  ghost predicate NoLength(s: bytes) {
    forall n: nat | n < 0x1_0000_0000 :: !(EncodeLength(n) <= s)
  }

  /** No value below the cap is spelled at the front of s. */
  ghost predicate NoValue(s: bytes) {
    forall v | Fits(v) :: !(Encode(v) <= s)
  }

  lemma CappedLength(n: nat)
    requires n < 0x1_0000_0000
    ensures DefiniteLength(n)
    ensures ByteLength(n) <= MAX_LENGTH_OCTETS
  {
    FourOctets();
    ByteLengthAtMost(n, 4);
  }

  /** The octets in front of s when it opens with a capped length. */
  lemma OpensWithLength(n: nat, s: bytes)
    requires n < 0x1_0000_0000 && EncodeLength(n) <= s
    ensures n < 0x80 ==> s[0] == n
    ensures n >= 0x80 ==>
              var count := ByteLength(n);
              && 1 <= count <= MAX_LENGTH_OCTETS
              && s[0] == 0x80 + count
              && 1 + count <= |s|
              && s[1] != 0
              && FromBE(s[1..1 + count]) == n
  {
    CappedLength(n);
    if n >= 0x80 {
      LongLength(n);
      var count := ByteLength(n);
      assert ToBE(n, count) == EncodeLength(n)[1..] == s[1..1 + count];
    }
  }

  ghost predicate LengthInFront(n: nat, s: bytes)
    requires s != []
  {
    && (n < 0x80 ==> s[0] == n)
    && (n >= 0x80 ==>
          var count := s[0] as int - 0x80;
          && 1 <= count <= MAX_LENGTH_OCTETS
          && 1 + count <= |s|
          && s[1] != 0
          && FromBE(s[1..1 + count]) == n)
  }

  lemma LengthsInFront(s: bytes)
    requires s != []
    ensures forall n: nat | n < 0x1_0000_0000 && EncodeLength(n) <= s :: LengthInFront(n, s)
  {
    forall n: nat | n < 0x1_0000_0000 && EncodeLength(n) <= s
      ensures LengthInFront(n, s)
    {
      OpensWithLength(n, s);
    }
  }

  /** No capped length opens with the indefinite or reserved octet, or with a larger count;
      and a long form must be complete, without a leading zero octet, and needed. */
  lemma Refused(s: bytes)
    requires s != [] && s[0] >= 0x80
    requires
      var count := s[0] as int - 0x80;
      || count == 0
      || count > MAX_LENGTH_OCTETS
      || |s| < 1 + count
      || s[1] == 0
      || FromBE(s[1..1 + count]) < 0x80
    ensures NoLength(s)
  {
    LengthsInFront(s);
  }

  /** The long form the reader accepts is the one the encoder writes. */
  lemma LongForm(raw: bytes)
    requires 1 <= |raw| <= MAX_LENGTH_OCTETS && raw[0] != 0 && FromBE(raw) >= 0x80
    ensures FromBE(raw) < 0x1_0000_0000
    ensures EncodeLength(FromBE(raw)) == [0x80 + |raw|] + raw
  {
    AtMostFourOctets(raw);
    MinimalOctets(raw);
    ToFromBE(raw);
    LongFormOf(FromBE(raw), raw);
  }

  lemma LongFormOf(n: nat, raw: bytes)
    requires n >= 0x80 && ByteLength(n) == |raw| < 0x80 && ToBE(n, |raw|) == raw
    ensures EncodeLength(n) == [0x80 + |raw|] + raw
  {
    hide ToBE, FromBE, ByteLength;
    assert |raw| % 0x80 == |raw|;
  }

  lemma LongFormAt(data: bytes, off: nat, next: nat)
    requires off + 1 < next <= |data| && next - off - 1 <= MAX_LENGTH_OCTETS
    requires data[off] == 0x80 + (next - off - 1)
    requires data[off + 1] != 0 && FromBE(data[off + 1..next]) >= 0x80
    ensures FromBE(data[off + 1..next]) < 0x1_0000_0000
    ensures data[off..next] == EncodeLength(FromBE(data[off + 1..next]))
  {
    LongForm(data[off + 1..next]);
    assert data[off..next] == [data[off]] + data[off + 1..next];
  }

  lemma SliceOfSlice(data: bytes, off: nat, limit: nat, count: nat)
    requires off + 1 + count <= limit <= |data|
    ensures data[off..limit][1..1 + count] == data[off + 1..off + 1 + count]
  {
    var s, t := data[off..limit][1..1 + count], data[off + 1..off + 1 + count];
    assert forall i :: 0 <= i < count ==> s[i] == data[off..limit][1 + i] == data[off + 1 + i] == t[i];
  }

  lemma AtMostFourOctets(raw: bytes)
    requires |raw| <= 4
    ensures FromBE(raw) < 0x1_0000_0000
  {
    ToFromBE(raw);
    FourOctets();
    Pow256Monotone(|raw|, 4);
  }

  lemma ShortForm(n: byte)
    requires n < 0x80
    ensures EncodeLength(n) == [n]
  {
  }

  lemma NothingToRead(s: bytes)
    requires s == []
    ensures NoLength(s)
  {
  }

  /** _read_length: definite and minimal, at most MAX_LENGTH_OCTETS octets. */
  method ReadLength(data: bytes, off: nat, limit: nat) returns (r: Result<(nat, nat)>)
    requires off <= limit <= |data|
    ensures r.Accept? ==>
              var (n, next) := r.value;
              && n < 0x1_0000_0000
              && off < next <= limit
              && data[off..next] == EncodeLength(n)
    ensures r.SpecError? ==> NoLength(data[off..limit])
  {
    hide EncodeLength, NoLength, FromBE;
    ghost var s := data[off..limit];
    if off >= limit {
      NothingToRead(s);
      return SpecError;
    }
    var first, next: nat := data[off], off + 1;
    if first == 0x80 || first == 0xff {
      Refused(s);
      return SpecError;
    }
    if first < 0x80 {
      ShortForm(first);
      assert data[off..next] == [first];
      return Accept((first, next));
    }
    var count := first % 0x80;
    if count > MAX_LENGTH_OCTETS || next + count > limit {
      Refused(s);
      return SpecError;
    }
    var raw := data[next..next + count];
    SliceOfSlice(data, off, limit, count);
    next := next + count;
    if raw[0] == 0x00 {
      Refused(s);
      return SpecError;
    }
    var length: nat := FromBE(raw);
    if length < 0x80 {
      Refused(s);
      return SpecError;
    }
    LongFormAt(data, off, next);
    return Accept((length, next));
  }

  /** _read_integer. */
  function ReadInteger(content: bytes): (r: Result<int>)
    ensures r.Accept? ==> IntegerContent(r.value) == content
    ensures r.SpecError? ==> forall v :: IntegerContent(v) != content
  {
    if content == [] then
      SpecError
    else
      assert MinimalContent(content) <==> content == IntegerContent(FromSigned(content)) by {
        MinimalContentIsCanonical(content);
      }
      assert forall v :: IntegerContent(v) == content ==> v == FromSigned(content) by {
        forall v | IntegerContent(v) == content
          ensures v == FromSigned(content)
        {
          FromToSigned(v, SignedWidth(v));
        }
      }
      if |content| > 1 && content[0] == 0x00 && content[1] < 0x80 then
        SpecError
      else if |content| > 1 && content[0] == 0xff && content[1] >= 0x80 then
        SpecError
      else
        Accept(FromSigned(content))
  }

  /** No value below the cap has this tag and this content. */
  ghost predicate NoContent(tag: byte, content: bytes) {
    forall v | Fits(v) :: !(Tag(v) == tag && Body(v) == content)
  }

  lemma ContentsInFront(tag: byte, n: nat, rest: bytes)
    requires n < 0x1_0000_0000
    ensures forall v | Fits(v) && Encode(v) <= [tag] + EncodeLength(n) + rest ::
              Tag(v) == tag && |Body(v)| == n <= |rest| && Body(v) == rest[..n]
  {
    CappedLength(n);
    forall v | Fits(v) && Encode(v) <= [tag] + EncodeLength(n) + rest
      ensures Tag(v) == tag && |Body(v)| == n <= |rest| && Body(v) == rest[..n]
    {
      FitsIsSized(v);
      SplitTlv(tag, n, rest, v);
    }
  }

  /** A header that was read can be refused only for what follows it. */
  lemma HeaderRefused(data: bytes, off: nat, next: nat, n: nat, limit: nat)
    requires off < next <= limit <= |data|
    requires n < 0x1_0000_0000
    requires data[off + 1..next] == EncodeLength(n)
    requires next + n <= limit ==> NoContent(data[off], data[next..next + n])
    ensures NoValue(data[off..limit])
  {
    var rest := data[next..limit];
    assert data[off..limit] == [data[off]] + EncodeLength(n) + rest;
    assert next + n <= limit ==> rest[..n] == data[next..next + n];
    ContentsInFront(data[off], n, rest);
  }

  lemma HeadersInFront(tag: byte, rest: bytes)
    ensures forall v | Encode(v) <= [tag] + rest :: EncodeLength(|Body(v)|) <= rest
  {
    forall v | Encode(v) <= [tag] + rest
      ensures EncodeLength(|Body(v)|) <= rest
    {
      var len := EncodeLength(|Body(v)|);
      assert Encode(v) == [Tag(v)] + (len + Body(v));
      PrefixTail([Tag(v)], len + Body(v), [tag], rest);
      assert len <= len + Body(v);
    }
  }

  lemma NothingThere(s: bytes)
    requires s == []
    ensures NoValue(s)
  {
  }

  /** Without a length after the tag there is no value. */
  lemma NoLengthNoValue(data: bytes, off: nat, limit: nat)
    requires off < limit <= |data|
    requires NoLength(data[off + 1..limit])
    ensures NoValue(data[off..limit])
  {
    assert data[off..limit] == [data[off]] + data[off + 1..limit];
    HeadersInFront(data[off], data[off + 1..limit]);
  }

  lemma FirstOctet(v: Value)
    ensures Encode(v) != [] && Encode(v)[0] == Tag(v)
  {
  }

  /** A list whose contents open with those of another list goes on from it. */
  lemma {:induction false} ContentsGoOn(done: seq<Value>, rest: bytes, items: seq<Value>)
    requires forall x :: x in done ==> Fits(x)
    requires forall x :: x in items ==> Fits(x)
    requires EncodeAll(items) == EncodeAll(done) + rest
    ensures done <= items && EncodeAll(items[|done|..]) == rest
  {
    hide Encode, Fits;
    if done != [] {
      var head, tail := done[0], done[1..];
      FirstOctet(head);
      assert done == [head] + tail;
      EncodeAllCons(head, tail);
      var x, items' := items[0], items[1..];
      assert items == [x] + items';
      EncodeAllCons(x, items');
      Rebracket(Encode(head), EncodeAll(tail), rest);
      FitsIsSized(head);
      FitsIsSized(x);
      PrefixFree(head, x, EncodeAll(items));
      PrefixTail(Encode(head), EncodeAll(items'), Encode(head), EncodeAll(tail) + rest);
      PrefixTail(Encode(head), EncodeAll(tail) + rest, Encode(head), EncodeAll(items'));
      ContentsGoOn(tail, rest, items');
      assert items'[|tail|..] == items[|done|..];
    }
  }

  lemma Rebracket(a: bytes, b: bytes, c: bytes)
    ensures a + b + c == a + (b + c)
  {
  }

  /** Every list with the content done + rest begins with done, and rest begins with a value. */
  lemma ContentsInFrontOf(done: seq<Value>, rest: bytes)
    requires forall x :: x in done ==> Fits(x)
    requires rest != []
    ensures forall items | (forall x :: x in items ==> Fits(x)) && EncodeAll(items) == EncodeAll(done) + rest ::
              exists x :: Fits(x) && Encode(x) <= rest
  {
    forall items | (forall x :: x in items ==> Fits(x)) && EncodeAll(items) == EncodeAll(done) + rest
      ensures exists x :: Fits(x) && Encode(x) <= rest
    {
      ContentsGoOn(done, rest, items);
      var x := items[|done|];
      assert items[|done|..][0] == x;
      assert Fits(x) && Encode(x) <= rest;
    }
  }

  /** Items read up to an octet string that opens with no value: no list has that content. */
  lemma StuckContent(done: seq<Value>, rest: bytes)
    requires forall x :: x in done ==> Fits(x)
    requires rest != [] && NoValue(rest)
    requires |EncodeAll(done) + rest| < 0x1_0000_0000
    ensures forall items :: EncodeAll(items) != EncodeAll(done) + rest
  {
    ContentsInFrontOf(done, rest);
    ListsFit(EncodeAll(done) + rest);
  }

  lemma ListsFit(content: bytes)
    requires |content| < 0x1_0000_0000
    ensures forall items | EncodeAll(items) == content :: forall x :: x in items ==> Fits(x)
  {
    forall items | EncodeAll(items) == content
      ensures forall x :: x in items ==> Fits(x)
    {
      ItemsFit(items);
    }
  }

  /** _read_value: one value at off, and the offset after it. */
  method ReadValue(data: bytes, off: nat, limit: nat) returns (r: Result<(Value, nat)>)
    requires off <= limit <= |data|
    ensures r.Accept? ==>
              var (v, end) := r.value;
              && off < end <= limit
              && data[off..end] == Encode(v)
              && Fits(v)
    ensures r.SpecError? ==> NoValue(data[off..limit])
    decreases limit - off, 0
  {
    hide EncodeLength, Tlv, Body, Tag, Encode;
    if off >= limit {
      NothingThere(data[off..limit]);
      return SpecError;
    }
    var tag := data[off];
    var len := ReadLength(data, off + 1, limit);
    if len.SpecError? {
      NoLengthNoValue(data, off, limit);
      return SpecError;
    }
    var (length, next) := len.value;
    var end := next + length;
    if end > limit {
      HeaderRefused(data, off, next, length, limit);
      return SpecError;
    }
    var value := ReadContent(data, tag, next, end);
    if value.SpecError? {
      HeaderRefused(data, off, next, length, limit);
      return SpecError;
    }
    ValueAt(data, off, next, end, value.value);
    return Accept((value.value, end));
  }

  lemma ValueAt(data: bytes, off: nat, next: nat, end: nat, v: Value)
    requires off < next <= end <= |data|
    requires data[off + 1..next] == EncodeLength(end - next)
    requires data[off] == Tag(v) && data[next..end] == Body(v)
    ensures data[off..end] == Encode(v)
  {
    hide EncodeLength, Tag, Body;
    assert data[off..end] == [data[off]] + data[off + 1..next] + data[next..end];
  }

  /** The branches of _read_value, one per tag, over the content data[next..end]. */
  method ReadContent(data: bytes, tag: byte, next: nat, end: nat) returns (r: Result<Value>)
    requires next <= end <= |data|
    requires end - next < 0x1_0000_0000
    ensures r.Accept? ==> Tag(r.value) == tag && Body(r.value) == data[next..end]
    ensures r.SpecError? ==> NoContent(tag, data[next..end])
    decreases end - next, 2
  {
    var content := data[next..end];
    if tag == TAG_SEQUENCE {
      var items := ReadItems(data, next, end);
      if items.SpecError? {
        return SpecError;
      }
      return Accept(Seq(items.value));
    }
    if tag == TAG_INTEGER {
      var i := ReadInteger(content);
      if i.SpecError? {
        return SpecError;
      }
      return Accept(Int(i.value));
    }
    if tag == TAG_OCTET_STRING {
      return Accept(Octets(content));
    }
    if tag == TAG_BOOLEAN {
      if content == [0x00] {
        return Accept(Bool(false));
      }
      if content == [0xff] {
        return Accept(Bool(true));
      }
    }
    return SpecError;
  }

  lemma Adjacent(data: bytes, a: nat, b: nat, c: nat)
    requires a <= b <= c <= |data|
    ensures data[a..c] == data[a..b] + data[b..c]
  {
  }

  /** The loop of _read_value over a SEQUENCE's content, data[start..end]. */
  method ReadItems(data: bytes, start: nat, end: nat) returns (r: Result<seq<Value>>)
    requires start <= end <= |data|
    requires end - start < 0x1_0000_0000
    ensures r.Accept? ==> EncodeAll(r.value) == data[start..end]
    ensures r.SpecError? ==> forall items :: EncodeAll(items) != data[start..end]
    decreases end - start, 1
  {
    var items, inner := [], start;
    while inner < end
      invariant start <= inner <= end
      invariant EncodeAll(items) == data[start..inner]
      invariant forall x :: x in items ==> Fits(x)
    {
      var item := ReadValue(data, inner, end);
      if item.SpecError? {
        Adjacent(data, start, inner, end);
        StuckContent(items, data[inner..end]);
        return SpecError;
      }
      var (x, after) := item.value;
      EncodeAllAppend(items, [x]);
      EncodeAllSingleton(x);
      Adjacent(data, start, inner, after);
      items, inner := items + [x], after;
    }
    return Accept(items);
  }

  /** parse_der: one value and not an octet after it. */
  method ParseDer(data: bytes) returns (r: Result<Value>)
    ensures r.Accept? ==> Encode(r.value) == data && Fits(r.value)
    ensures r.SpecError? ==> forall v | Fits(v) :: Encode(v) != data
    ensures r == Parse(data)
  {
    var one := ReadValue(data, 0, |data|);
    assert data[0..|data|] == data;
    if one.SpecError? {
      return SpecError;
    }
    var (value, off) := one.value;
    if off != |data| {
      assert data == Encode(value) + data[off..];
      ParseTrailing(value, data[off..]);
      return SpecError;
    }
    ParseEncode(value);
    return Accept(value);
  }

  // ------------------------------------------------------------ what is accepted

  /** The one value within the cap that data encodes, if there is one. */
  ghost function Parse(data: bytes): (r: Result<Value>)
    ensures r.Accept? ==> Encode(r.value) == data && Fits(r.value)
    ensures r.SpecError? ==> forall v | Fits(v) :: Encode(v) != data
  {
    if exists v :: Fits(v) && Encode(v) == data then
      var v :| Fits(v) && Encode(v) == data;
      Accept(v)
    else
      SpecError
  }

  /** Reading what was written gives the value back, exactly when its content is below
      the four-length-octet cap. */
  lemma ParseEncode(v: Value)
    ensures Fits(v) ==> Parse(Encode(v)) == Accept(v)
    ensures !Fits(v) ==> Parse(Encode(v)) == SpecError
  {
    var r := Parse(Encode(v));
    if r.Accept? {
      EncodingLength(v, r.value);
      EncodingLength(r.value, v);
      FitsIsSized(v);
      FitsIsSized(r.value);
      EncodeInjective(v, r.value);
    }
  }

  // ------------------------------------------------------------ the octets themselves

  /** A value read from a tag, the one-octet length of its content, and the content. */
  lemma ShortForms(v: Value)
    requires |Body(v)| < 0x80
    ensures Parse([Tag(v), |Body(v)|] + Body(v)) == Accept(v)
  {
    hide Body, Tag;
    ShortForm(|Body(v)|);
    assert Encode(v) == [Tag(v), |Body(v)|] + Body(v);
    ParseEncode(v);
  }

  /** 04, the length, the octets. */
  lemma OctetStringOctets(b: bytes)
    requires |b| < 0x80
    ensures Parse([0x04, |b|] + b) == Accept(Octets(b))
  {
    ShortForms(Octets(b));
  }

  /** 04 and the long form of the length: 80 plus the number of length octets, and these
      big-endian without a leading zero. */
  lemma LongOctetString(b: bytes, length: bytes)
    requires 0x80 <= |b| && 1 <= |length| <= 4 && length[0] != 0 && FromBE(length) == |b|
    ensures Parse([0x04, 0x80 + |length|] + length + b) == Accept(Octets(b))
  {
    LongForm(length);
    assert Encode(Octets(b)) == [0x04] + ([0x80 + |length|] + length) + b;
    assert [0x04] + ([0x80 + |length|] + length) == [0x04, 0x80 + |length|] + length;
    ParseEncode(Octets(b));
  }

  /** 01 01 ff is true, 01 01 00 is false, and nothing else opens with 01 01. */
  lemma BooleanOctets(t: byte)
    ensures Parse([0x01, 0x01, 0xff]) == Accept(Bool(true))
    ensures Parse([0x01, 0x01, 0x00]) == Accept(Bool(false))
    ensures t != 0x00 && t != 0xff ==> Parse([0x01, 0x01, t]) == SpecError
  {
    hide Parse;
    BooleanEncoding(true);
    BooleanEncoding(false);
    ParseEncode(Bool(true));
    ParseEncode(Bool(false));
    if t != 0x00 && t != 0xff {
      NoThirdBoolean(t);
    }
  }

  lemma BooleanEncoding(b: bool)
    ensures Fits(Bool(b)) && Encode(Bool(b)) == [0x01, 0x01, if b then 0xff else 0x00]
  {
  }

  lemma NoThirdBoolean(t: byte)
    requires t != 0x00 && t != 0xff
    ensures Parse([0x01, 0x01, t]) == SpecError
  {
    hide Parse;
    forall v
      ensures Encode(v) != [0x01, 0x01, t]
    {
      if v.Bool? {
        BooleanEncoding(v.truth);
        assert Encode(v)[2] != t;
      } else {
        FirstOctet(v);
        assert Tag(v) != 0x01;
      }
    }
    NothingParses([0x01, 0x01, t]);
  }

  lemma NothingParses(data: bytes)
    requires forall v :: Encode(v) != data
    ensures Parse(data) == SpecError
  {
  }

  /** 02, the length, and a content without a redundant first octet: the first octet counts
      signed, the others unsigned, each by its power of 256. */
  lemma IntegerOctets(s: bytes)
    requires 1 <= |s| < 0x80
    requires |s| > 1 ==> !(s[0] == 0x00 && s[1] < 0x80) && !(s[0] == 0xff && s[1] >= 0x80)
    ensures
      var lead: int := s[0];
      Parse([0x02, |s|] + s)
      == Accept(Int((if lead < 0x80 then lead else lead - 0x100) * Pow256(|s| - 1) + FromBE(s[1..])))
  {
    hide FromSigned, Pow256, FromBE, Parse;
    CanonicalInteger(s);
    SignedWeight(s);
  }

  lemma CanonicalInteger(s: bytes)
    requires 1 <= |s| < 0x80 && MinimalContent(s)
    ensures Parse([0x02, |s|] + s) == Accept(Int(FromSigned(s)))
  {
    hide FromSigned, IntegerContent, Parse, MinimalContent;
    MinimalContentIsCanonical(s);
    ShortForms(Int(FromSigned(s)));
  }

  /** 30, the length, and the items' encodings in order. */
  lemma SequenceOctets(items: seq<Value>)
    requires |EncodeAll(items)| < 0x80
    ensures Parse([0x30, |EncodeAll(items)|] + EncodeAll(items)) == Accept(Seq(items))
  {
    ShortForms(Seq(items));
  }

  /** A trailing octet is never accepted. */
  lemma ParseTrailing(v: Value, extra: bytes)
    requires Fits(v) && extra != []
    ensures Parse(Encode(v) + extra) == SpecError
  {
    var r := Parse(Encode(v) + extra);
    if r.Accept? {
      FitsIsSized(v);
      FitsIsSized(r.value);
      PrefixFree(v, r.value, Encode(v) + extra);
    }
  }

  // ------------------------------------------------------------ the encoder's loop

  /** _minimal_signed: the first width that does not overflow. */
  method MinimalSigned(v: int) returns (s: bytes)
    ensures s == IntegerContent(v)
  {
    var width := 1;
    while !SignedRange(v, width)
      invariant 1 <= width <= SignedWidth(v)
      decreases SignedWidth(v) - width
    {
      width := width + 1;
    }
    s := ToSigned(v, width);
  }
}
