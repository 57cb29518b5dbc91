/** asn1.go: the only decoder entry point, around encoding/asn1. The library is any function
    that decodes what marshal wrote, whatever follows it; on every other input it may do
    anything. The rest check and the re-encoding then leave it no say in what is accepted. */
module Asn1 {
  import opened Bytes

  /** errors.go, and one value for whatever encoding/asn1 reports itself. */
  datatype Error =
    | ErrVersion | ErrTrailing | ErrNonCanonical | ErrRange | ErrLength | ErrEmpty
    | ErrFormat | ErrOrder | ErrAsn1

  const VERSION_V1 := 1

  type int64 = x: int | -0x8000_0000_0000_0000 <= x < 0x8000_0000_0000_0000

  /** What asn1.Unmarshal leaves in *v, the octets it did not read, and whether it failed. */
  datatype Decoding<+T> = Decoding(value: T, rest: bytes, failed: bool)

  type Decoder<T> = bytes -> Decoding<T>

  /** asn1.Marshal, None being an error. */
  type Marshaller<-T> = T -> Option<bytes>

  /** decode reads back every encoding shorter than ceiling and leaves the rest alone. */
  ghost predicate Decodes<T(!new)>(decode: Decoder<T>, marshal: Marshaller<T>, ceiling: nat) {
    forall v, s {:trigger decode(marshal(v).value + s)} |
      marshal(v).Some? && |marshal(v).value| < ceiling ::
      decode(marshal(v).value + s) == Decoding(v, s, false)
  }

  ghost predicate Marshalled<T(!new)>(marshal: Marshaller<T>, b: bytes) {
    exists v :: marshal(v) == Some(b)
  }

  /** The verdict of unmarshal on b. */
  function Verdict<T(==)>(decode: Decoder<T>, marshal: Marshaller<T>, b: bytes): Option<Error> {
    var d := decode(b);
    if d.failed then Some(ErrAsn1)
    else if d.rest != [] then Some(ErrTrailing)
    else
      match marshal(d.value)
      case None => Some(ErrAsn1)
      case Some(round) => if round != b then Some(ErrNonCanonical) else None
  }

  /** Which test refused b: the decoder's own, the one for octets left over, the marshaller's, or
      the comparison; and against a decoder that reads back what marshal writes, octets that are
      nobody's encoding but are decoded whole are always ErrNonCanonical. */
  lemma VerdictErrors<T(!new)>(decode: Decoder<T>, marshal: Marshaller<T>, b: bytes)
    ensures
      var d, e := decode(b), Verdict(decode, marshal, b);
      && (e == Some(ErrTrailing) <==> !d.failed && d.rest != [])
      && (e == Some(ErrNonCanonical) <==> !d.failed && d.rest == [] && marshal(d.value) !in {None, Some(b)})
      && (e == Some(ErrAsn1) <==> d.failed || (d.rest == [] && marshal(d.value) == None))
      && e in {None, Some(ErrTrailing), Some(ErrNonCanonical), Some(ErrAsn1)}
    ensures !Marshalled(marshal, b) && !decode(b).failed && decode(b).rest == [] && marshal(decode(b).value).Some?
            ==> Verdict(decode, marshal, b) == Some(ErrNonCanonical)
  {
    var d := decode(b);
    if marshal(d.value) == Some(b) {
      assert Marshalled(marshal, b);
    }
  }

  /** A Go pointer to a value. */
  class Ref<T> {
    var value: T

    constructor (v: T)
      ensures value == v
    {
      value := v;
    }
  }

  /** unmarshal: *v is filled before any of the tests that may still refuse b. */
  method Unmarshal<T(==)>(b: bytes, v: Ref<T>, decode: Decoder<T>, marshal: Marshaller<T>)
    returns (err: Option<Error>)
    modifies v
    ensures v.value == decode(b).value
    ensures err == Verdict(decode, marshal, b)
    ensures err == None ==> marshal(v.value) == Some(b)
  {
    var d := decode(b);
    v.value := d.value;
    if d.failed {
      return Some(ErrAsn1);
    }
    if |d.rest| != 0 {
      return Some(ErrTrailing);
    }
    var round := marshal(v.value);
    if round.None? {
      return Some(ErrAsn1);
    }
    if round.value != b {
      return Some(ErrNonCanonical);
    }
    return None;
  }

  // ------------------------------------------------------------ what unmarshal accepts

  lemma AcceptsMarshalled<T(!new)>(decode: Decoder<T>, marshal: Marshaller<T>, ceiling: nat, v: T)
    requires Decodes(decode, marshal, ceiling)
    requires marshal(v).Some? && |marshal(v).value| < ceiling
    ensures Verdict(decode, marshal, marshal(v).value) == None
    ensures decode(marshal(v).value) == Decoding(v, [], false)
  {
    var b := marshal(v).value;
    assert b + [] == b;
    assert decode(marshal(v).value + []) == Decoding(v, [], false);
  }

  /** unmarshal accepts exactly the range of marshal, however lenient the decoder. */
  lemma AcceptsExactlyTheRange<T(!new)>(decode: Decoder<T>, marshal: Marshaller<T>, ceiling: nat, b: bytes)
    requires Decodes(decode, marshal, ceiling)
    requires |b| < ceiling
    ensures Verdict(decode, marshal, b) == None <==> Marshalled(marshal, b)
    ensures Verdict(decode, marshal, b) == None ==> marshal(decode(b).value) == Some(b)
  {
    if Marshalled(marshal, b) {
      var v :| marshal(v) == Some(b);
      AcceptsMarshalled(decode, marshal, ceiling, v);
    }
  }

  /** One value has one accepted spelling. */
  lemma OneSpelling<T(!new)>(decode: Decoder<T>, marshal: Marshaller<T>, a: bytes, b: bytes)
    requires Verdict(decode, marshal, a) == None && Verdict(decode, marshal, b) == None
    requires decode(a).value == decode(b).value
    ensures a == b
  {
  }

  /** Octets after an encoding are ErrTrailing, never another error. */
  lemma TrailingIsErrTrailing<T(!new)>(decode: Decoder<T>, marshal: Marshaller<T>, ceiling: nat, v: T, s: bytes)
    requires Decodes(decode, marshal, ceiling)
    requires marshal(v).Some? && |marshal(v).value| < ceiling
    requires s != []
    ensures Verdict(decode, marshal, marshal(v).value + s) == Some(ErrTrailing)
  {
    assert decode(marshal(v).value + s) == Decoding(v, s, false);
  }

  /** Two decoders that both read back what marshal writes accept the same inputs and leave the
      same values. */
  lemma DecoderIndependent<T(!new)>(d: Decoder<T>, e: Decoder<T>, marshal: Marshaller<T>, ceiling: nat, b: bytes)
    requires Decodes(d, marshal, ceiling) && Decodes(e, marshal, ceiling)
    requires |b| < ceiling
    ensures Verdict(d, marshal, b) == None <==> Verdict(e, marshal, b) == None
    ensures Verdict(d, marshal, b) == None ==> d(b).value == e(b).value
  {
    AcceptsExactlyTheRange(d, marshal, ceiling, b);
    AcceptsExactlyTheRange(e, marshal, ceiling, b);
    if Marshalled(marshal, b) {
      var v :| marshal(v) == Some(b);
      AcceptsMarshalled(d, marshal, ceiling, v);
      AcceptsMarshalled(e, marshal, ceiling, v);
    }
  }

  /** No encoding below the ceiling is a prefix of another value's. */
  ghost predicate PrefixFreeCode<T(!new)>(marshal: Marshaller<T>, ceiling: nat) {
    forall v, w |
      UnderCeiling(marshal, ceiling, v) && UnderCeiling(marshal, ceiling, w) && marshal(v).value <= marshal(w).value ::
      v == w
  }

  ghost predicate UnderCeiling<T>(marshal: Marshaller<T>, ceiling: nat, v: T) {
    marshal(v).Some? && |marshal(v).value| < ceiling
  }

  /** A marshaller that is a prefix-free code has such a decoder: the hypothesis is not empty. */
  lemma PrefixFreeHasDecoder<T(!new)>(marshal: Marshaller<T>, ceiling: nat, zero: T) returns (decode: Decoder<T>)
    requires PrefixFreeCode(marshal, ceiling)
    ensures Decodes(decode, marshal, ceiling)
  {
    decode := b => ReferenceDecoding(marshal, ceiling, zero, b);
    forall v, s | UnderCeiling(marshal, ceiling, v)
      ensures decode(marshal(v).value + s) == Decoding(v, s, false)
    {
      ReferenceReads(marshal, ceiling, zero, v, s);
    }
  }

  ghost function ReferenceDecoding<T(!new)>(marshal: Marshaller<T>, ceiling: nat, zero: T, b: bytes): Decoding<T> {
    if exists v :: UnderCeiling(marshal, ceiling, v) && marshal(v).value <= b then
      var v :| UnderCeiling(marshal, ceiling, v) && marshal(v).value <= b;
      Decoding(v, b[|marshal(v).value|..], false)
    else
      Decoding(zero, b, true)
  }

  lemma ReferenceReads<T(!new)>(marshal: Marshaller<T>, ceiling: nat, zero: T, v: T, s: bytes)
    requires PrefixFreeCode(marshal, ceiling)
    requires UnderCeiling(marshal, ceiling, v)
    ensures ReferenceDecoding(marshal, ceiling, zero, marshal(v).value + s) == Decoding(v, s, false)
  {
    var b := marshal(v).value + s;
    assert marshal(v).value <= b;
    forall w | UnderCeiling(marshal, ceiling, w) && marshal(w).value <= b
      ensures w == v
    {
      PrefixesCompare(marshal(v).value, marshal(w).value, b);
    }
    assert b[|marshal(v).value|..] == s;
  }

  lemma PrefixesCompare(x: bytes, y: bytes, b: bytes)
    requires x <= b && y <= b
    ensures x <= y || y <= x
  {
    assert |x| <= |y| ==> x == b[..|x|] == y[..|x|];
    assert |y| <= |x| ==> y == b[..|y|] == x[..|y|];
  }

  // ------------------------------------------------------------ the exported pairs

  /** The verdict of an exported Unmarshal: unmarshal, then the structure's own check. */
  function CheckedVerdict<T(==)>(decode: Decoder<T>, marshal: Marshaller<T>, check: T -> Option<Error>, b: bytes)
    : Option<Error>
  {
    var err := Verdict(decode, marshal, b);
    if err.Some? then err else check(decode(b).value)
  }

  /** The range of an exported Marshal. */
  ghost predicate CheckedMarshalled<T(!new)>(marshal: Marshaller<T>, check: T -> Option<Error>, b: bytes) {
    exists v :: check(v) == None && marshal(v) == Some(b)
  }

  /** An exported Unmarshal accepts exactly the range of the exported Marshal beside it. */
  lemma UnmarshalInvertsMarshal<T(!new)>(decode: Decoder<T>, marshal: Marshaller<T>, check: T -> Option<Error>,
                                         ceiling: nat, b: bytes)
    requires Decodes(decode, marshal, ceiling)
    requires |b| < ceiling
    ensures CheckedVerdict(decode, marshal, check, b) == None <==> CheckedMarshalled(marshal, check, b)
    ensures forall v | marshal(v) == Some(b) ::
              CheckedVerdict(decode, marshal, check, b) == check(v) && decode(b).value == v
  {
    AcceptsExactlyTheRange(decode, marshal, ceiling, b);
    forall v | marshal(v) == Some(b)
      ensures CheckedVerdict(decode, marshal, check, b) == check(v) && decode(b).value == v
    {
      AcceptsMarshalled(decode, marshal, ceiling, v);
    }
  }

  /** The same for every ceiling at once. */
  lemma UnmarshalsRange<T(!new)>(decode: Decoder<T>, marshal: Marshaller<T>, check: T -> Option<Error>, b: bytes)
    ensures forall ceiling: nat | Decodes(decode, marshal, ceiling) && |b| < ceiling ::
              CheckedVerdict(decode, marshal, check, b) == None <==> CheckedMarshalled(marshal, check, b)
  {
    hide Decodes, CheckedVerdict, CheckedMarshalled;
    forall ceiling: nat | Decodes(decode, marshal, ceiling) && |b| < ceiling
      ensures CheckedVerdict(decode, marshal, check, b) == None <==> CheckedMarshalled(marshal, check, b)
    {
      UnmarshalInvertsMarshal(decode, marshal, check, ceiling, b);
    }
  }

  // ------------------------------------------------------------ checks over a list

  /** The error a loop with early returns reports, from the errors of its rounds. */
  function FirstError(errs: seq<Option<Error>>): Option<Error> {
    if errs == [] then None
    else if errs[0].Some? then errs[0]
    else FirstError(errs[1..])
  }

  /** e is the error of the first round that has one. */
  ghost predicate IsFirstError(errs: seq<Option<Error>>, e: Option<Error>) {
    if e.None? then forall i | 0 <= i < |errs| :: errs[i] == None
    else exists k | 0 <= k < |errs| :: errs[k] == e && forall i | 0 <= i < k :: errs[i] == None
  }

  lemma {:induction false} FirstErrorIsFirst(errs: seq<Option<Error>>)
    ensures IsFirstError(errs, FirstError(errs))
  {
    if errs != [] {
      if errs[0].Some? {
        assert errs[0] == FirstError(errs);
      } else {
        FirstErrorIsFirst(errs[1..]);
        var e := FirstError(errs[1..]);
        if e.Some? {
          var k :| 0 <= k < |errs[1..]| && errs[1..][k] == e && forall i | 0 <= i < k :: errs[1..][i] == None;
          assert errs[k + 1] == e;
          assert forall i | 0 <= i < k + 1 :: i > 0 ==> errs[i] == errs[1..][i - 1];
        } else {
          assert forall i | 0 <= i < |errs| :: i > 0 ==> errs[i] == errs[1..][i - 1];
        }
      }
    }
  }

  lemma FirstErrorStep(errs: seq<Option<Error>>, i: nat)
    requires i < |errs|
    ensures FirstError(errs[i..]) == if errs[i].Some? then errs[i] else FirstError(errs[i + 1..])
  {
    assert errs[i..][1..] == errs[i + 1..];
  }

  /** The same from the other end: the first round with an error settles it. */
  lemma {:induction false} FirstErrorAt(errs: seq<Option<Error>>, i: nat)
    requires i < |errs| && errs[i].Some?
    requires forall j | 0 <= j < i :: errs[j] == None
    ensures FirstError(errs) == errs[i]
    decreases i
  {
    if i > 0 {
      assert errs[0] == None;
      FirstErrorAt(errs[1..], i - 1);
    }
  }
}
