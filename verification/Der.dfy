/** The DER encoder of ci/verify_vectors.py over its type profile: minimal lengths (section
    10.1 of X.690), minimal two's-complement INTEGERs (section 8.3.2), BOOLEAN 00 or ff
    (section 11.1), OCTET STRING and SEQUENCE. The encoder is the reference every reader in
    this project is proved against. */
module Der {
  import opened Bytes

  const TAG_BOOLEAN: byte := 0x01
  const TAG_INTEGER: byte := 0x02
  const TAG_OCTET_STRING: byte := 0x04
  const TAG_SEQUENCE: byte := 0x30

  const MAX_LENGTH_OCTETS := 4

  /** One value of the type profile. */
  datatype Value =
    | Int(i: int)
    | Octets(octets: bytes)
    | Bool(truth: bool)
    | Seq(items: seq<Value>)

  // ------------------------------------------------------------ lengths

  /** _encode_length. The % 0x80 is what `0x80 | k` and Go's `k & 0x7f | 0x80` leave of a
      count of 128 octets or more. */
  function EncodeLength(n: nat): (s: bytes)
    ensures |s| >= 1
  {
    if n < 0x80 then [n]
    else
      var raw := ToBE(n, ByteLength(n));
      [0x80 + |raw| % 0x80] + raw
  }

  /** The count of length octets fits the seven bits X.690 8.1.3.5 gives it. */
  predicate DefiniteLength(n: nat) {
    ByteLength(n) < 0x80
  }

  lemma LongLength(n: nat)
    requires n >= 0x80 && DefiniteLength(n)
    ensures var k := ByteLength(n);
            && 1 <= k
            && |EncodeLength(n)| == 1 + k
            && EncodeLength(n)[0] == 0x80 + k
            && EncodeLength(n)[1..] == ToBE(n, k)
            && FromBE(ToBE(n, k)) == n
            && ToBE(n, k)[0] != 0
  {
    hide ToBE, FromBE, ByteLength, Pow256;
    var k := ByteLength(n);
    var raw := ToBE(n, k);
    ByteLengthIsLeast(n);
    FromToBE(n, k);
    LeadingOctet(raw);
  }

  /** Length octets are a prefix-free code. */
  lemma LengthPrefixFree(m: nat, n: nat, s: bytes)
    requires DefiniteLength(m) && DefiniteLength(n)
    requires EncodeLength(m) <= s && EncodeLength(n) <= s
    ensures m == n
  {
    hide ToBE, FromBE, ByteLength;
    assert EncodeLength(m)[0] == s[0] == EncodeLength(n)[0];
    if m >= 0x80 {
      LongLength(m);
    }
    if n >= 0x80 {
      LongLength(n);
    }
    if m >= 0x80 && n >= 0x80 {
      var k := ByteLength(m);
      assert ToBE(m, k) == EncodeLength(m)[1..] == s[1..1 + k];
      assert ToBE(n, k) == EncodeLength(n)[1..] == s[1..1 + k];
    }
  }

  lemma LengthMonotone(m: nat, n: nat)
    requires m <= n
    ensures |EncodeLength(m)| <= |EncodeLength(n)|
  {
    ByteLengthMonotone(m, n);
  }

  // ------------------------------------------------------------ INTEGER content

  /** v.to_bytes(w, "big", signed=True) does not overflow. */
  predicate SignedRange(v: int, w: nat)
    requires w >= 1
  {
    -128 * Pow256(w - 1) <= v < 128 * Pow256(w - 1)
  }

  /** v.to_bytes(w, "big", signed=True). */
  function ToSigned(v: int, w: nat): (s: bytes)
    requires w >= 1 && SignedRange(v, w)
    ensures |s| == w
  {
    ToBE(if v >= 0 then v else v + Pow256(w), w)
  }

  /** int.from_bytes(s, "big", signed=True). */
  function FromSigned(s: bytes): int
    requires s != []
  {
    if s[0] < 0x80 then FromBE(s) else FromBE(s) - Pow256(|s|)
  }

  lemma SignBit(s: bytes)
    requires s != []
    ensures s[0] < 0x80 <==> FromBE(s) < 128 * Pow256(|s| - 1)
    ensures SignedRange(FromSigned(s), |s|)
  {
    LeadingOctet(s);
    ToFromBE(s);
    var p := Pow256(|s| - 1);
    if s[0] < 0x80 {
      Scale(s[0] + 1, 0x80, p);
    } else {
      Scale(0x80, s[0], p);
    }
  }

  lemma Scale(a: nat, b: nat, p: nat)
    requires a <= b
    ensures a * p <= b * p
  {
  }

  lemma FromToSigned(v: int, w: nat)
    requires w >= 1 && SignedRange(v, w)
    ensures FromSigned(ToSigned(v, w)) == v
  {
    var n := if v >= 0 then v else v + Pow256(w);
    FromToBE(n, w);
    SignBit(ToBE(n, w));
  }

  lemma ToFromSigned(s: bytes)
    requires s != []
    ensures SignedRange(FromSigned(s), |s|)
    ensures ToSigned(FromSigned(s), |s|) == s
  {
    hide ToBE, FromBE, Pow256;
    SignBit(s);
    ToFromBE(s);
    var v := FromSigned(s);
    assert (if v >= 0 then v else v + Pow256(|s|)) == FromBE(s);
  }

  /** The least width that holds v. */
  function SignedWidth(v: int): (w: nat)
    ensures w >= 1 && SignedRange(v, w)
    ensures forall u :: 1 <= u < w ==> !SignedRange(v, u)
    decreases if v >= 0 then v else -v
  {
    if -128 <= v < 128 then 1
    else
      var w := 1 + SignedWidth(v / 256);
      assert SignedRange(v, w);
      assert forall u :: 1 <= u < w ==> !SignedRange(v, u) by {
        forall u | 1 <= u < w
          ensures !SignedRange(v, u)
        {
          if u > 1 {
            assert !SignedRange(v / 256, u - 1);
          }
        }
      }
      w
  }

  /** The one INTEGER content the profile allows for v. */
  function IntegerContent(v: int): (s: bytes)
    ensures s != []
  {
    ToSigned(v, SignedWidth(v))
  }

  /** The check of _read_integer: an octet at least, and no redundant first one. */
  predicate MinimalContent(s: bytes) {
    && s != []
    && (|s| > 1 ==> !(s[0] == 0x00 && s[1] < 0x80) && !(s[0] == 0xff && s[1] >= 0x80))
  }

  /** The first two octets decide whether one octet fewer would do. */
  lemma RedundantOctet(s: bytes)
    requires |s| > 1
    ensures SignedRange(FromSigned(s), |s| - 1)
            <==> (s[0] == 0x00 && s[1] < 0x80) || (s[0] == 0xff && s[1] >= 0x80)
  {
    var tail := s[1..];
    SplitLeading(s);
    SignBit(s);
    SignBit(tail);
    ToFromBE(tail);
    var p := Pow256(|s| - 2);
    assert Pow256(|s| - 1) == 256 * p && Pow256(|s|) == 256 * (256 * p);
    var n := FromBE(tail);
    assert FromBE(s) == s[0] * (256 * p) + n;
    LeadingMultiple(s[0], p);
  }

  lemma LeadingMultiple(a: byte, p: nat)
    requires p >= 1
    ensures a == 0 ==> a * (256 * p) == 0
    ensures 1 <= a < 128 ==> a * (256 * p) >= 256 * p
    ensures 128 <= a < 255 ==> a * (256 * p) <= 254 * (256 * p)
    ensures a == 255 ==> a * (256 * p) == 255 * (256 * p)
  {
    if 1 <= a < 128 {
      Scale(1, a, 256 * p);
    }
    if 128 <= a < 255 {
      Scale(a, 254, 256 * p);
    }
  }

  lemma {:induction false} SplitLeading(s: bytes)
    requires s != []
    ensures FromBE(s) == s[0] * Pow256(|s| - 1) + FromBE(s[1..])
  {
    if |s| == 1 {
      assert s[..0] == [] && s[1..] == [];
    } else {
      var init := s[..|s| - 1];
      SplitLeading(init);
      assert s[1..][..|s| - 2] == init[1..];
      var p := Pow256(|s| - 2);
      assert s[0] * (256 * p) == 256 * (s[0] * p);
    }
  }

  /** The number octets denote in two's complement: the first octet is a signed digit, the others
      are digits to the base 256. */
  lemma SignedWeight(s: bytes)
    requires s != []
    ensures
      var lead: int := s[0];
      FromSigned(s) == (if lead < 0x80 then lead else lead - 0x100) * Pow256(|s| - 1) + FromBE(s[1..])
  {
    hide ToBE, FromBE, Pow256;
    SplitLeading(s);
    PowStep(|s| - 1);
    SignedDigit(s[0], Pow256(|s| - 1), FromBE(s[1..]));
  }

  lemma PowStep(n: nat)
    ensures Pow256(n + 1) == 0x100 * Pow256(n)
  {
  }

  lemma SignedDigit(lead: int, p: int, rest: int)
    ensures lead * p + rest - 0x100 * p == (lead - 0x100) * p + rest
  {
  }

  /** The minimality check accepts exactly the contents the encoder writes. */
  lemma MinimalContentIsCanonical(s: bytes)
    requires s != []
    ensures MinimalContent(s) <==> s == IntegerContent(FromSigned(s))
  {
    var v := FromSigned(s);
    ToFromSigned(s);
    var w := SignedWidth(v);
    if |s| > 1 {
      RedundantOctet(s);
      if SignedRange(v, |s| - 1) {
        assert w <= |s| - 1;
      } else {
        WiderRange(v, w, |s| - 1);
      }
    }
  }

  lemma WiderRange(v: int, w: nat, u: nat)
    requires 1 <= w && 1 <= u && SignedRange(v, w) && !SignedRange(v, u)
    ensures u < w
  {
    if w <= u {
      Pow256Monotone(w - 1, u - 1);
    }
  }

  lemma IntegerContentInjective(v: int, w: int)
    requires IntegerContent(v) == IntegerContent(w)
    ensures v == w
  {
    FromToSigned(v, SignedWidth(v));
    FromToSigned(w, SignedWidth(w));
  }

  // ------------------------------------------------------------ values

  function Tag(v: Value): byte {
    match v
    case Int(_) => TAG_INTEGER
    case Octets(_) => TAG_OCTET_STRING
    case Bool(_) => TAG_BOOLEAN
    case Seq(_) => TAG_SEQUENCE
  }

  /** Tag, length and content: the last line of encode_value. */
  function Tlv(tag: byte, body: bytes): bytes {
    [tag] + EncodeLength(|body|) + body
  }

  function Body(v: Value): bytes
    decreases v
  {
    match v
    case Int(i) => IntegerContent(i)
    case Octets(s) => s
    case Bool(t) => if t then [0xff] else [0x00]
    case Seq(items) => EncodeAll(items)
  }

  function EncodeAll(items: seq<Value>): bytes
    decreases items
  {
    if items == [] then []
    else Tlv(Tag(items[0]), Body(items[0])) + EncodeAll(items[1..])
  }

  /** encode_value. */
  function Encode(v: Value): bytes {
    Tlv(Tag(v), Body(v))
  }

  /** Every length in v is written with at most 127 octets. */
  predicate Sized(v: Value) {
    DefiniteLength(|Body(v)|)
  }

  /** Every length in v is within the reader's cap of four octets. */
  predicate Fits(v: Value) {
    |Body(v)| < 0x1_0000_0000
  }

  lemma FitsIsSized(v: Value)
    requires Fits(v)
    ensures Sized(v)
  {
    FourOctets();
    ByteLengthAtMost(|Body(v)|, 4);
  }

  lemma EncodeAllCons(x: Value, items: seq<Value>)
    ensures EncodeAll([x] + items) == Encode(x) + EncodeAll(items)
  {
    assert ([x] + items)[1..] == items;
  }

  lemma {:induction false} EncodeAllAppend(xs: seq<Value>, ys: seq<Value>)
    ensures EncodeAll(xs + ys) == EncodeAll(xs) + EncodeAll(ys)
  {
    if xs == [] {
      assert xs + ys == ys;
    } else {
      var x, rest := xs[0], xs[1..];
      assert xs + ys == [x] + (rest + ys) && xs == [x] + rest;
      EncodeAllCons(x, rest + ys);
      EncodeAllCons(x, rest);
      EncodeAllAppend(rest, ys);
    }
  }

  lemma EncodeAllSingleton(v: Value)
    ensures EncodeAll([v]) == Encode(v)
  {
    assert EncodeAll([v][1..]) == [];
  }

  /** An item is no longer than the contents it is part of. */
  lemma {:induction false} ItemLength(items: seq<Value>, i: nat)
    requires i < |items|
    ensures |Body(items[i])| < |Encode(items[i])| <= |EncodeAll(items)|
  {
    hide EncodeLength, Body;
    if i > 0 {
      ItemLength(items[1..], i - 1);
    }
  }

  lemma ItemsSized(items: seq<Value>)
    requires DefiniteLength(|EncodeAll(items)|)
    ensures forall x :: x in items ==> Sized(x)
  {
    forall x | x in items
      ensures Sized(x)
    {
      var i :| 0 <= i < |items| && items[i] == x;
      ItemLength(items, i);
      ByteLengthMonotone(|Body(x)|, |EncodeAll(items)|);
    }
  }

  lemma ItemsFit(items: seq<Value>)
    requires |EncodeAll(items)| < 0x1_0000_0000
    ensures forall x :: x in items ==> Fits(x)
  {
    forall x | x in items
      ensures Fits(x)
    {
      var i :| 0 <= i < |items| && items[i] == x;
      ItemLength(items, i);
    }
  }

  // ------------------------------------------------------------ the prefix-free code

  /** What a value whose encoding opens s must look like, once tag and length are read. */
  lemma SplitTlv(tag: byte, n: nat, rest: bytes, v: Value)
    requires DefiniteLength(n) && Sized(v)
    requires Encode(v) <= [tag] + EncodeLength(n) + rest
    ensures Tag(v) == tag && |Body(v)| == n <= |rest| && Body(v) == rest[..n]
  {
    SplitOctets(tag, n, rest, Tag(v), Body(v));
  }

  lemma SplitOctets(tag: byte, n: nat, rest: bytes, tag': byte, body: bytes)
    requires DefiniteLength(n) && DefiniteLength(|body|)
    requires Tlv(tag', body) <= [tag] + EncodeLength(n) + rest
    ensures tag' == tag && |body| == n <= |rest| && body == rest[..n]
  {
    var len, len' := EncodeLength(n), EncodeLength(|body|);
    assert [tag'] + len' + body == [tag'] + (len' + body);
    assert [tag] + len + rest == [tag] + (len + rest);
    PrefixTail([tag'], len' + body, [tag], len + rest);
    LengthPrefixFree(|body|, n, len + rest);
    PrefixTail(len', body, len, rest);
  }

  /** Equal-length heads of a prefix pair are equal, and so are the tails up to length. */
  lemma PrefixTail(a: bytes, x: bytes, b: bytes, y: bytes)
    requires |a| == |b|
    requires a + x <= b + y
    ensures a == b && x <= y
  {
    var s, t := a + x, b + y;
    assert s <= t;
    assert forall i :: 0 <= i < |a| ==> a[i] == s[i] == t[i] == b[i];
    assert forall i :: 0 <= i < |x| ==> x[i] == s[|a| + i] == t[|a| + i] == y[i];
  }

  lemma SizedLengths(a: Value, b: Value)
    requires Sized(a) && Sized(b)
    ensures DefiniteLength(|Body(a)|) && DefiniteLength(|Body(b)|)
  {
  }

  /** No encoding is a proper prefix of another: a byte string opens with one value at most. */
  lemma {:induction false} PrefixFree(a: Value, b: Value, s: bytes)
    requires Sized(a) && Sized(b)
    requires Encode(a) <= s && Encode(b) <= s
    ensures a == b
    decreases a, 2
  {
    hide EncodeLength, Body, Sized;
    SizedLengths(a, b);
    var k := 1 + |EncodeLength(|Body(b)|)|;
    assert s == [Tag(b)] + EncodeLength(|Body(b)|) + s[k..] by {
      assert s == Encode(b) + s[|Encode(b)|..];
      assert s[k..] == Body(b) + s[|Encode(b)|..];
    }
    SplitTlv(Tag(b), |Body(b)|, s[k..], a);
    assert Body(b) == s[k..][..|Body(b)|];
    BodyInjective(a, b);
  }

  lemma {:induction false} BodyInjective(a: Value, b: Value)
    requires Sized(a) && Sized(b)
    requires Tag(a) == Tag(b) && Body(a) == Body(b)
    ensures a == b
    decreases a, 1
  {
    match a
    case Int(i) => IntegerContentInjective(i, b.i);
    case Octets(_) =>
    case Bool(_) =>
    case Seq(items) =>
      ItemsSized(items);
      ItemsSized(b.items);
      ContentsDetermineItems(items, b.items);
  }

  /** Concatenated encodings determine their list of items. */
  lemma {:induction false} ContentsDetermineItems(as_: seq<Value>, bs: seq<Value>)
    requires forall x :: x in as_ ==> Sized(x)
    requires forall x :: x in bs ==> Sized(x)
    requires EncodeAll(as_) == EncodeAll(bs)
    ensures as_ == bs
    decreases as_, 0
  {
    if as_ == [] || bs == [] {
      assert as_ == bs;
    } else {
      var s := EncodeAll(as_);
      assert s == Encode(as_[0]) + EncodeAll(as_[1..]);
      assert s == Encode(bs[0]) + EncodeAll(bs[1..]);
      PrefixFree(as_[0], bs[0], s);
      assert EncodeAll(as_[1..]) == s[|Encode(as_[0])|..] == EncodeAll(bs[1..]);
      ContentsDetermineItems(as_[1..], bs[1..]);
      assert as_ == [as_[0]] + as_[1..] && bs == [bs[0]] + bs[1..];
    }
  }

  lemma EncodeInjective(a: Value, b: Value)
    requires Sized(a) && Sized(b)
    requires Encode(a) == Encode(b)
    ensures a == b
  {
    PrefixFree(a, b, Encode(a));
  }

  /** The length of a whole encoding decides the length of its content. */
  lemma EncodingLength(a: Value, b: Value)
    ensures |Encode(a)| <= |Encode(b)| <==> |Body(a)| <= |Body(b)|
  {
    if |Body(a)| <= |Body(b)| {
      LengthMonotone(|Body(a)|, |Body(b)|);
    } else {
      LengthMonotone(|Body(b)|, |Body(a)|);
    }
  }

  // ------------------------------------------------------------ sizes of small encodings

  const BIG := 0x100_0000_0000

  lemma ShortHeader(n: nat)
    requires n < BIG
    ensures 1 <= |EncodeLength(n)| <= 6 && DefiniteLength(n)
  {
    FourOctets();
    assert Pow256(5) == 256 * Pow256(4);
    ByteLengthAtMost(n, 5);
  }

  lemma ShortInteger(i: int)
    requires -128 <= i < 128
    ensures |Encode(Int(i))| == 3
  {
    assert |IntegerContent(i)| == 1;
  }

  lemma ShortOctets(b: bytes)
    requires |b| < 0x80
    ensures |Encode(Octets(b))| == 2 + |b|
  {
  }

  /** Three fields make an encoding as long as theirs together, header aside. */
  lemma ThreeItems(a: Value, b: Value, c: Value)
    ensures |EncodeAll([a, b, c])| == |Encode(a)| + |Encode(b)| + |Encode(c)|
  {
    hide Encode;
    assert [a, b, c] == [a] + ([b] + [c]);
    EncodeAllAppend([a], [b] + [c]);
    EncodeAllAppend([b], [c]);
    EncodeAllSingleton(a);
    EncodeAllSingleton(b);
    EncodeAllSingleton(c);
  }

  lemma FourItems(a: Value, b: Value, c: Value, d: Value)
    ensures |EncodeAll([a, b, c, d])| == |Encode(a)| + |Encode(b)| + |Encode(c)| + |Encode(d)|
  {
    hide Encode;
    assert [a, b, c, d] == [a] + [b, c, d];
    EncodeAllAppend([a], [b, c, d]);
    EncodeAllSingleton(a);
    ThreeItems(b, c, d);
  }

  lemma FiveItems(a: Value, b: Value, c: Value, d: Value, e: Value)
    ensures |EncodeAll([a, b, c, d, e])| == |Encode(a)| + |Encode(b)| + |Encode(c)| + |Encode(d)| + |Encode(e)|
  {
    hide Encode;
    assert [a, b, c, d, e] == [a, b] + [c, d, e];
    assert [a, b] == [a] + [b];
    EncodeAllAppend([a, b], [c, d, e]);
    EncodeAllAppend([a], [b]);
    EncodeAllSingleton(a);
    EncodeAllSingleton(b);
    ThreeItems(c, d, e);
  }

  /** A SEQUENCE of short contents is a few octets longer than they. */
  lemma ShortSequence(v: Value)
    requires v.Seq? && |EncodeAll(v.items)| < 0x1_0000
    ensures |Encode(v)| <= |EncodeAll(v.items)| + 7
  {
    ShortHeader(|EncodeAll(v.items)|);
  }
}
