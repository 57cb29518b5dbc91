/** Merkle node hashing: merkle.go's procedures over one reused 8-byte buffer, the
    concatenation merkle_hash of ci/verify_vectors.py builds, and what equal roots mean.
    SHA-256 is an arbitrary function to 32 octets throughout. */
module Merkle {
  import opened Bytes

  type uint64 = x: int | 0 <= x < 0x1_0000_0000_0000_0000

  type Digest = s: bytes | |s| == 32 witness seq(32, i => 0)

  type Hash = bytes -> Digest

  const PREFIX_LEAF: byte := 0x00
  const PREFIX_INTERNAL: byte := 0x01
  const PREFIX_EMPTY: byte := 0x02

  /** A byte string whose length a 64-bit length prefix can hold. */
  predicate Short(s: bytes) {
    |s| < 0x1_0000_0000_0000_0000
  }

  /** One node with what is hashed into it. */
  datatype Node =
    | Leaf(treeID: uint64, depth: byte, key: bytes, val: bytes)
    | Internal(treeID: uint64, depth: byte, left: Digest, right: Digest)
    | Empty(treeID: uint64, depth: byte)
  {
    predicate Representable() {
      Leaf? ==> Short(key) && Short(val)
    }
  }

  /** Eight octets, big-endian. */
  function U64(n: nat): (s: bytes)
    ensures |s| == 8
  {
    ToBE(n, 8)
  }

  /** The concatenation that is hashed, one form per constructor. */
  function Preimage(n: Node): bytes {
    match n
    case Leaf(treeID, depth, key, val) =>
      [PREFIX_LEAF] + U64(treeID) + [depth] + U64(|key|) + key + U64(|val|) + val
    case Internal(treeID, depth, left, right) =>
      [PREFIX_INTERNAL] + U64(treeID) + [depth] + left + right
    case Empty(treeID, depth) =>
      [PREFIX_EMPTY] + U64(treeID) + [depth]
  }

  // ------------------------------------------------------------ injectivity

  /** Read big-endian, the eight octets are the number. */
  lemma U64IsBigEndian(n: uint64)
    ensures FromBE(U64(n)) == n
  {
    EightOctets();
    FromToBE(n, 8);
  }

  lemma U64Injective(m: nat, n: nat)
    requires m < 0x1_0000_0000_0000_0000 && n < 0x1_0000_0000_0000_0000
    requires U64(m) == U64(n)
    ensures m == n
  {
    EightOctets();
    FromToBE(m, 8);
    FromToBE(n, 8);
  }

  lemma SplitAt(a: bytes, x: bytes, b: bytes, y: bytes)
    requires a + x == b + y && |a| == |b|
    ensures a == b && x == y
  {
    assert a == (a + x)[..|a|] == (b + y)[..|b|] == b;
    assert x == (a + x)[|a|..] == (b + y)[|b|..] == y;
  }

  /** The ten octets every form opens with. */
  function Prefix(n: Node): bytes {
    [if n.Leaf? then PREFIX_LEAF else if n.Internal? then PREFIX_INTERNAL else PREFIX_EMPTY]
    + U64(n.treeID) + [n.depth]
  }

  function Rest(n: Node): bytes {
    match n
    case Leaf(_, _, key, val) => U64(|key|) + (key + (U64(|val|) + val))
    case Internal(_, _, left, right) => left + right
    case Empty(_, _) => []
  }

  lemma PreimageParts(n: Node)
    ensures Preimage(n) == Prefix(n) + Rest(n)
  {
    hide U64;
  }

  lemma PrefixInjective(a: Node, b: Node)
    requires Prefix(a) == Prefix(b)
    ensures a.Leaf? == b.Leaf? && a.Internal? == b.Internal?
    ensures a.treeID == b.treeID && a.depth == b.depth
  {
    hide U64;
    assert Prefix(a)[0] == Prefix(b)[0];
    assert Prefix(a)[1..9] == U64(a.treeID) && Prefix(b)[1..9] == U64(b.treeID);
    assert Prefix(a)[9] == a.depth && Prefix(b)[9] == b.depth;
    U64Injective(a.treeID, b.treeID);
  }

  /** No two nodes share a preimage, within a form or across forms. */
  lemma PreimageInjective(a: Node, b: Node)
    requires a.Representable() && b.Representable()
    requires Preimage(a) == Preimage(b)
    ensures a == b
  {
    PreimageParts(a);
    PreimageParts(b);
    SplitAt(Prefix(a), Rest(a), Prefix(b), Rest(b));
    PrefixInjective(a, b);
    if a.Leaf? {
      LengthPrefixed(a.key, U64(|a.val|) + a.val, b.key, U64(|b.val|) + b.val);
      assert a.val + [] == a.val && b.val + [] == b.val;
      LengthPrefixed(a.val, [], b.val, []);
    } else if a.Internal? {
      SplitAt(a.left, a.right, b.left, b.right);
    }
  }

  /** What is where in a preimage, octet by octet. */
  lemma PreimageOctets(n: Node)
    requires n.Representable()
    ensures
      var p := Preimage(n);
      && |p| >= 10
      && p[0] == (match n case Leaf(_, _, _, _) => 0x00 case Internal(_, _, _, _) => 0x01 case Empty(_, _) => 0x02)
      && FromBE(p[1..9]) == n.treeID
      && p[9] == n.depth
      && match n
         case Leaf(_, _, key, val) =>
           var k := 18 + |key|;
           && |p| == k + 8 + |val|
           && FromBE(p[10..18]) == |key| && p[18..k] == key
           && FromBE(p[k..k + 8]) == |val| && p[k + 8..] == val
         case Internal(_, _, left, right) => |p| == 74 && p[10..42] == left && p[42..] == right
         case Empty(_, _) => |p| == 10
  {
    hide FromBE, U64;
    U64IsBigEndian(n.treeID);
    var p := Preimage(n);
    assert p[1..9] == U64(n.treeID);
    if n.Leaf? {
      var k := 18 + |n.key|;
      U64IsBigEndian(|n.key|);
      U64IsBigEndian(|n.val|);
      assert p[10..18] == U64(|n.key|);
      assert p[18..k] == n.key;
      assert p[k..k + 8] == U64(|n.val|);
      assert p[k + 8..] == n.val;
    }
  }

  /** A length prefix leaves no other place to cut the octets after it. */
  lemma LengthPrefixed(k: bytes, x: bytes, k': bytes, x': bytes)
    requires Short(k) && Short(k')
    requires U64(|k|) + (k + x) == U64(|k'|) + (k' + x')
    ensures k == k' && x == x'
  {
    hide U64;
    SplitAt(U64(|k|), k + x, U64(|k'|), k' + x');
    U64Injective(|k|, |k'|);
    SplitAt(k, x, k', x');
  }

  // ------------------------------------------------------------ trees and roots

  datatype Tree =
    | LeafNode(treeID: uint64, depth: byte, key: bytes, val: bytes)
    | Branch(treeID: uint64, depth: byte, left: Tree, right: Tree)
    | EmptySubtree(treeID: uint64, depth: byte)

  predicate Representable(t: Tree) {
    match t
    case LeafNode(_, _, key, val) => Short(key) && Short(val)
    case Branch(_, _, left, right) => Representable(left) && Representable(right)
    case EmptySubtree(_, _) => true
  }

  function NodeOf(h: Hash, t: Tree): Node
    decreases t, 0
  {
    match t
    case LeafNode(treeID, depth, key, val) => Leaf(treeID, depth, key, val)
    case Branch(treeID, depth, left, right) => Internal(treeID, depth, Root(h, left), Root(h, right))
    case EmptySubtree(treeID, depth) => Empty(treeID, depth)
  }

  function Root(h: Hash, t: Tree): Digest
    decreases t, 1
  {
    h(Preimage(NodeOf(h, t)))
  }

  ghost predicate IsCollision(h: Hash, c: (bytes, bytes)) {
    c.0 != c.1 && h(c.0) == h(c.1)
  }

  /** Equal roots: either the trees are the same one, or two colliding preimages are found on
      the way down. */
  function FindCollision(h: Hash, s: Tree, t: Tree): (c: Option<(bytes, bytes)>)
    requires Representable(s) && Representable(t)
    requires Root(h, s) == Root(h, t)
    ensures c.None? ==> s == t
    ensures c.Some? ==> IsCollision(h, c.value)
    decreases s
  {
    var p, q := Preimage(NodeOf(h, s)), Preimage(NodeOf(h, t));
    if p != q then Some((p, q))
    else
      assert NodeOf(h, s) == NodeOf(h, t) by {
        PreimageInjective(NodeOf(h, s), NodeOf(h, t));
      }
      if s.Branch? && t.Branch? then
        var left := FindCollision(h, s.left, t.left);
        if left.Some? then left else FindCollision(h, s.right, t.right)
      else None
  }

  /** A collision is reported only when there is something to report. */
  lemma {:induction false} NoCollisionWithItself(h: Hash, t: Tree)
    requires Representable(t)
    ensures FindCollision(h, t, t) == None
  {
    if t.Branch? {
      NoCollisionWithItself(h, t.left);
      NoCollisionWithItself(h, t.right);
    }
  }

  // ------------------------------------------------------------ merkle.go

  /** The running SHA-256 state: what has been written to it so far. */
  class Sha256 {
    var written: bytes

    constructor ()
      ensures written == []
    {
      written := [];
    }

    method Write(p: bytes)
      modifies this
      ensures written == old(written) + p
    {
      written := written + p;
    }

    /** Write(w[:]): the octets w holds now, whatever is stored in it later. */
    method WriteArray(w: array<byte>)
      modifies this
      ensures written == old(written) + w[..]
    {
      written := written + w[..];
    }

    function Sum(h: Hash): Digest
      reads this
    {
      h(written)
    }
  }

  /** binary.BigEndian.PutUint64. */
  method PutUint64(w: array<byte>, v: uint64)
    requires w.Length == 8
    modifies w
    ensures w[..] == U64(v)
    ensures FromBE(w[..]) == v
  {
    U64IsBigEndian(v);
    var x: nat := v;
    for i := 8 downto 0
      invariant ToBE(v, 8) == ToBE(x, i) + w[i..]
    {
      w[i] := x % 256;
      assert ToBE(x, i + 1) == ToBE(x / 256, i) + [w[i]];
      assert w[i..] == [w[i]] + w[i + 1..];
      x := x / 256;
    }
  }

  /** The writes of LeafHash, in order, from an empty hash state. */
  lemma LeafWrites(treeID: uint64, depth: byte, key: bytes, val: bytes)
    ensures [] + [PREFIX_LEAF] + U64(treeID) + [depth] + U64(|key|) + key + U64(|val|) + val
            == Preimage(Leaf(treeID, depth, key, val))
  {
    hide U64;
    assert [] + [PREFIX_LEAF] == [PREFIX_LEAF];
  }

  method LeafHash(h: Hash, treeID: uint64, depth: byte, key: bytes, val: bytes) returns (d: Digest)
    requires Short(key) && Short(val)
    ensures d == h(Preimage(Leaf(treeID, depth, key, val)))
  {
    hide U64, Preimage;
    LeafWrites(treeID, depth, key, val);
    var s := new Sha256();
    var w := new byte[8];
    s.Write([PREFIX_LEAF]);
    PutUint64(w, treeID);
    s.WriteArray(w);
    s.Write([depth]);
    PutUint64(w, |key|);
    s.WriteArray(w);
    s.Write(key);
    PutUint64(w, |val|);
    s.WriteArray(w);
    s.Write(val);
    return s.Sum(h);
  }

  lemma InternalWrites(treeID: uint64, depth: byte, left: Digest, right: Digest)
    ensures [] + [PREFIX_INTERNAL] + U64(treeID) + [depth] + left + right
            == Preimage(Internal(treeID, depth, left, right))
  {
    hide U64;
    assert [] + [PREFIX_INTERNAL] == [PREFIX_INTERNAL];
  }

  method InternalHash(h: Hash, treeID: uint64, depth: byte, left: Digest, right: Digest) returns (d: Digest)
    ensures d == h(Preimage(Internal(treeID, depth, left, right)))
  {
    hide U64, Preimage;
    InternalWrites(treeID, depth, left, right);
    var s := new Sha256();
    var w := new byte[8];
    s.Write([PREFIX_INTERNAL]);
    PutUint64(w, treeID);
    s.WriteArray(w);
    s.Write([depth]);
    s.Write(left);
    s.Write(right);
    return s.Sum(h);
  }

  lemma EmptyWrites(treeID: uint64, depth: byte)
    ensures [] + [PREFIX_EMPTY] + U64(treeID) + [depth] == Preimage(Empty(treeID, depth))
  {
    hide U64;
    assert [] + [PREFIX_EMPTY] == [PREFIX_EMPTY];
  }

  method EmptyHash(h: Hash, treeID: uint64, depth: byte) returns (d: Digest)
    ensures d == h(Preimage(Empty(treeID, depth)))
  {
    hide U64, Preimage;
    EmptyWrites(treeID, depth);
    var s := new Sha256();
    var w := new byte[8];
    s.Write([PREFIX_EMPTY]);
    PutUint64(w, treeID);
    s.WriteArray(w);
    s.Write([depth]);
    return s.Sum(h);
  }

  /** A tree's root, composed from the three functions bottom up. */
  method TreeRoot(h: Hash, t: Tree) returns (d: Digest)
    requires Representable(t)
    ensures d == Root(h, t)
    decreases t
  {
    match t
    case LeafNode(treeID, depth, key, val) =>
      d := LeafHash(h, treeID, depth, key, val);
    case Branch(treeID, depth, left, right) =>
      var l := TreeRoot(h, left);
      var r := TreeRoot(h, right);
      d := InternalHash(h, treeID, depth, l, r);
    case EmptySubtree(treeID, depth) =>
      d := EmptyHash(h, treeID, depth);
  }

  // ------------------------------------------------------------ merkle_hash

  /** An entry of the annex as JSON gives it: any depth, children of any length. */
  datatype Entry =
    | LeafEntry(treeID: uint64, depth: int, key: bytes, val: bytes)
    | InternalEntry(treeID: uint64, depth: int, leftChild: bytes, rightChild: bytes)
    | EmptyEntry(treeID: uint64, depth: int)
    | UnknownEntry(treeID: uint64, depth: int)

  /** merkle_hash. */
  function MerkleHash(h: Hash, e: Entry): Result<Digest> {
    if !(0 <= e.depth <= 255) then SpecError
    else
      match e
      case LeafEntry(treeID, depth, key, val) =>
        Accept(h([0x00] + U64(treeID) + [depth] + U64(|key|) + key + U64(|val|) + val))
      case InternalEntry(treeID, depth, left, right) =>
        if |left| != 32 || |right| != 32 then SpecError
        else Accept(h([0x01] + U64(treeID) + [depth] + left + right))
      case EmptyEntry(treeID, depth) =>
        Accept(h([0x02] + U64(treeID) + [depth]))
      case UnknownEntry(_, _) => SpecError
  }

  /** The node an entry describes, if it describes one. */
  ghost predicate Describes(e: Entry, n: Node) {
    match e
    case LeafEntry(treeID, depth, key, val) =>
      n.Leaf? && n.treeID == treeID && n.depth == depth && n.key == key && n.val == val
    case InternalEntry(treeID, depth, left, right) =>
      n.Internal? && n.treeID == treeID && n.depth == depth && n.left == left && n.right == right
    case EmptyEntry(treeID, depth) =>
      n.Empty? && n.treeID == treeID && n.depth == depth
    case UnknownEntry(_, _) => false
  }

  /** Python hashes exactly the entries that are nodes, and hashes what Go hashes. */
  lemma MerkleHashAgrees(h: Hash, e: Entry)
    ensures MerkleHash(h, e).Accept? <==> exists n :: Describes(e, n)
    ensures forall n | Describes(e, n) :: MerkleHash(h, e) == Accept(h(Preimage(n)))
  {
    if MerkleHash(h, e).Accept? {
      match e
      case LeafEntry(treeID, depth, key, val) =>
        assert Describes(e, Leaf(treeID, depth, key, val));
      case InternalEntry(treeID, depth, left, right) =>
        assert Describes(e, Internal(treeID, depth, left, right));
      case EmptyEntry(treeID, depth) =>
        assert Describes(e, Empty(treeID, depth));
    }
  }
}
