/** Octets, and the big-endian numbers built from them. */
module Bytes {

  type byte = x: int | 0 <= x < 256

  type bytes = seq<byte>

  datatype Option<+T> = None | Some(value: T)

  /** The outcome of a Python operation that may raise SpecError. Every rejection is the
      same exception there, so one constructor stands for all of them. */
  datatype Result<+T> = Accept(value: T) | SpecError {
    predicate IsFailure() {
      SpecError?
    }

    function PropagateFailure<U>(): Result<U>
      requires SpecError?
    {
      SpecError
    }

    function Extract(): T
      requires Accept?
    {
      value
    }
  }

  /** 256 to the power w: the first number that w octets cannot hold. */
  function Pow256(w: nat): (p: nat)
    ensures p >= 1
  {
    if w == 0 then 1 else 256 * Pow256(w - 1)
  }

  lemma {:induction false} Pow256Monotone(v: nat, w: nat)
    requires v <= w
    ensures Pow256(v) <= Pow256(w)
  {
    if v < w {
      Pow256Monotone(v, w - 1);
    }
  }

  lemma FourOctets()
    ensures Pow256(4) == 0x1_0000_0000
  {
    assert Pow256(2) == 0x1_0000;
  }

  lemma EightOctets()
    ensures Pow256(8) == 0x1_0000_0000_0000_0000
  {
    FourOctets();
    assert Pow256(6) == 0x1_0000_0000_0000;
  }

  /** Python's int.from_bytes(s, "big"). */
  function FromBE(s: bytes): (n: nat)
  {
    if s == [] then 0 else 256 * FromBE(s[..|s| - 1]) + s[|s| - 1]
  }

  /** Python's n.to_bytes(w, "big"), and Go's binary.BigEndian: the low w octets of n. */
  function ToBE(n: nat, w: nat): (s: bytes)
    ensures |s| == w
  {
    if w == 0 then [] else ToBE(n / 256, w - 1) + [n % 256]
  }

  lemma {:induction false} FromToBE(n: nat, w: nat)
    requires n < Pow256(w)
    ensures FromBE(ToBE(n, w)) == n
  {
    if w > 0 {
      FromToBE(n / 256, w - 1);
      assert ToBE(n, w)[..w - 1] == ToBE(n / 256, w - 1);
    }
  }

  lemma {:induction false} ToFromBE(s: bytes)
    ensures FromBE(s) < Pow256(|s|)
    ensures ToBE(FromBE(s), |s|) == s
  {
    if s != [] {
      var init, last := s[..|s| - 1], s[|s| - 1];
      ToFromBE(init);
      assert FromBE(s) / 256 == FromBE(init) && FromBE(s) % 256 == last;
      assert s == init + [last];
    }
  }

  /** A leading octet weighs 256^(|s|-1), so only a zero one could be dropped. */
  lemma {:induction false} LeadingOctet(s: bytes)
    requires s != []
    ensures s[0] * Pow256(|s| - 1) <= FromBE(s) < (s[0] + 1) * Pow256(|s| - 1)
  {
    if |s| == 1 {
      assert s[..0] == [];
    } else {
      LeadingOctet(s[..|s| - 1]);
      ScaleBounds(s[0], Pow256(|s| - 2), FromBE(s[..|s| - 1]), s[|s| - 1]);
    }
  }

  lemma ScaleBounds(a: nat, p: nat, n: nat, last: byte)
    requires a * p <= n < (a + 1) * p
    ensures a * (256 * p) <= 256 * n + last < (a + 1) * (256 * p)
  {
    assert a * (256 * p) == 256 * (a * p);
    assert (a + 1) * (256 * p) == 256 * ((a + 1) * p);
  }

  /** Python's n.bit_length(). */
  function BitLength(n: nat): nat {
    if n == 0 then 0 else 1 + BitLength(n / 2)
  }

  /** The width _encode_length asks to_bytes for. */
  function ByteLength(n: nat): nat {
    (BitLength(n) + 7) / 8
  }

  lemma BitLengthOctet(n: nat)
    requires n >= 256
    ensures BitLength(n) == 8 + BitLength(n / 256)
  {
    BitLengthNibble(n);
    BitLengthNibble(n / 16);
    assert n / 16 / 16 == n / 256;
  }

  lemma BitLengthNibble(n: nat)
    requires n >= 16
    ensures BitLength(n) == 4 + BitLength(n / 16)
  {
    var a, b, c := n / 2, n / 4, n / 8;
    assert a / 2 == b && b / 2 == c && c / 2 == n / 16;
    assert BitLength(a) == 1 + BitLength(b);
    assert BitLength(c) == 1 + BitLength(n / 16);
  }

  /** ByteLength(n) is the least width that holds n. */
  lemma {:induction false} ByteLengthIsLeast(n: nat)
    requires n > 0
    ensures ByteLength(n) >= 1
    ensures Pow256(ByteLength(n) - 1) <= n < Pow256(ByteLength(n))
  {
    if n < 256 {
      assert 1 <= BitLength(n) <= 8 by {
        SmallBitLength(n, 8);
      }
      assert Pow256(1) == 256;
    } else {
      BitLengthOctet(n);
      ByteLengthIsLeast(n / 256);
    }
  }

  lemma {:induction false} SmallBitLength(n: nat, k: nat)
    requires k <= 8 && n < [1, 2, 4, 8, 16, 32, 64, 128, 256][k]
    ensures BitLength(n) <= k
  {
    if k > 0 {
      SmallBitLength(n / 2, k - 1);
    }
  }

  lemma ByteLengthAtMost(n: nat, w: nat)
    ensures ByteLength(n) <= w <==> n < Pow256(w)
  {
    if n > 0 {
      ByteLengthIsLeast(n);
      if ByteLength(n) <= w {
        Pow256Monotone(ByteLength(n), w);
      } else {
        Pow256Monotone(w, ByteLength(n) - 1);
      }
    }
  }

  lemma ByteLengthMonotone(m: nat, n: nat)
    requires m <= n
    ensures ByteLength(m) <= ByteLength(n)
  {
    ByteLengthAtMost(n, ByteLength(n));
    ByteLengthAtMost(m, ByteLength(n));
  }

  /** Octets with a non-zero first one are the minimal spelling of their number. */
  lemma MinimalOctets(s: bytes)
    requires s != [] && s[0] != 0
    ensures ByteLength(FromBE(s)) == |s|
  {
    ToFromBE(s);
    assert FromBE(s) >= Pow256(|s| - 1) by {
      LeadingOctet(s);
      AtLeastOnce(s[0], Pow256(|s| - 1));
    }
    ByteLengthAtMost(FromBE(s), |s|);
    ByteLengthAtMost(FromBE(s), |s| - 1);
  }

  lemma AtLeastOnce(a: nat, p: nat)
    requires a >= 1
    ensures p <= a * p
  {
  }
}
