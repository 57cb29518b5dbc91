/** The TLV walker of vectors_test.go: it parses any bytes into TLVs, and re-encodes them with
    something appended inside one SEQUENCE, counting SEQUENCEs through a pointer. It does by
    number what _splice does by path. */
module TlvWalker {
  import opened Bytes
  import opened Der
  import opened Forgeries

  /** type tlv. */
  datatype TlvNode = TlvNode(tag: byte, constructed: bool, content: bytes, children: seq<TlvNode>)

  // ------------------------------------------------------------ derLength

  lemma ByteLengthStep(v: nat)
    requires v > 0
    ensures ByteLength(v) == 1 + ByteLength(v / 256)
  {
    if v < 256 {
      ByteLengthAtMost(v, 1);
      ByteLengthIsLeast(v);
    } else {
      BitLengthOctet(v);
    }
  }

  lemma OctetStep(v: nat, octets: bytes)
    requires v > 0
    ensures ToBE(v, ByteLength(v)) + octets == ToBE(v / 256, ByteLength(v / 256)) + ([v % 256] + octets)
  {
    hide ToBE, ByteLength;
    ByteLengthStep(v);
    LastOctet(v, ByteLength(v), octets);
  }

  lemma LastOctet(v: nat, k: nat, octets: bytes)
    requires k >= 1
    ensures ToBE(v, k) + octets == ToBE(v / 256, k - 1) + ([v % 256] + octets)
  {
    assert ToBE(v, k) == ToBE(v / 256, k - 1) + [v % 256];
  }

  lemma NoOctets()
    ensures ToBE(0, ByteLength(0)) == []
  {
  }

  /** derLength. */
  method DerLength(n: nat) returns (s: bytes)
    ensures s == EncodeLength(n)
  {
    hide ToBE, ByteLength;
    if n < 0x80 {
      return [n];
    }
    var octets: bytes := [];
    var v := n;
    while v > 0
      invariant ToBE(n, ByteLength(n)) == ToBE(v, ByteLength(v)) + octets
    {
      OctetStep(v, octets);
      octets := [v % 256] + octets;
      v := v / 256;
    }
    NoOctets();
    return [0x80 + |octets| % 0x80] + octets;
  }

  // ------------------------------------------------------------ parseTLVs

  /** The header size and content length the walker reads at the front of b. It takes any
      long form of one to four octets, minimal or not. */
  function Header(b: bytes): (r: Option<(nat, nat)>)
    ensures r.Some? ==> 2 <= r.value.0 <= |b|
  {
    if |b| < 2 then None
    else if b[1] < 0x80 then Some((2, b[1]))
    else
      var w := b[1] % 0x80;
      if w == 0 || w > 4 || |b| < 2 + w then None
      else Some((2 + w, FromBE(b[2..2 + w])))
  }

  /** What parseTLVs makes of b, None being a t.Fatalf. */
  function Parsed(b: bytes): Option<seq<TlvNode>>
    decreases |b|
  {
    if b == [] then Some([])
    else
      var header := Header(b);
      if header.None? || |b| < header.value.0 + header.value.1 then None
      else
        var (hdr, n) := header.value;
        var node := ParsedNode(b[0], b[hdr..hdr + n], |b|);
        var rest := Parsed(b[hdr + n..]);
        if node.None? || rest.None? then None else Some([node.value] + rest.value)
  }

  function ParsedNode(tag: byte, content: bytes, bound: nat): Option<TlvNode>
    requires |content| < bound
    decreases bound, 0
  {
    if tag == 0x30 then
      var children := Parsed(content);
      if children.None? then None else Some(TlvNode(tag, true, [], children.value))
    else
      Some(TlvNode(tag, false, content, []))
  }

  /** The length octets of a long form, shifted in one by one. */
  method ReadHeader(b: bytes) returns (r: Option<(nat, nat)>)
    ensures r == Header(b)
  {
    if |b| < 2 {
      return None;
    }
    var hdr: nat, n: nat := 2, b[1];
    if b[1] >= 0x80 {
      var w := b[1] % 0x80;
      if w == 0 || w > 4 || |b| < 2 + w {
        return None;
      }
      hdr, n := 2 + w, 0;
      for i := 2 to 2 + w
        invariant n == FromBE(b[2..i])
      {
        assert b[2..i + 1][..i - 2] == b[2..i];
        n := n * 256 + b[i];
      }
    }
    return Some((hdr, n));
  }

  function After(out: seq<TlvNode>, rest: Option<seq<TlvNode>>): Option<seq<TlvNode>> {
    if rest.None? then None else Some(out + rest.value)
  }

  lemma AfterNothing(r: Option<seq<TlvNode>>)
    ensures After([], r) == r
  {
    if r.Some? {
      assert [] + r.value == r.value;
    }
  }

  lemma AllParsed(out: seq<TlvNode>)
    ensures After(out, Parsed([])) == Some(out)
  {
    assert out + [] == out;
  }

  lemma NodeParsed(tag: byte, content: bytes, bound: nat)
    requires |content| < bound
    ensures tag == 0x30 ==>
              ParsedNode(tag, content, bound)
              == if Parsed(content).None? then None else Some(TlvNode(tag, true, [], Parsed(content).value))
    ensures tag != 0x30 ==> ParsedNode(tag, content, bound) == Some(TlvNode(tag, false, content, []))
  {
  }

  lemma ParsedSteps(b: bytes)
    requires b != []
    ensures Header(b).None? || |b| < Header(b).value.0 + Header(b).value.1 ==> Parsed(b).None?
    ensures Header(b).Some? && |b| >= Header(b).value.0 + Header(b).value.1 ==>
              var (hdr, n) := Header(b).value;
              var node := ParsedNode(b[0], b[hdr..hdr + n], |b|);
              Parsed(b) == if node.None? then None else After([node.value], Parsed(b[hdr + n..]))
  {
  }

  lemma OneMoreParsed(out: seq<TlvNode>, node: TlvNode, b: bytes, hdr: nat, n: nat)
    requires b != [] && Header(b) == Some((hdr, n)) && hdr + n <= |b|
    requires ParsedNode(b[0], b[hdr..hdr + n], |b|) == Some(node)
    ensures After(out, Parsed(b)) == After(out + [node], Parsed(b[hdr + n..]))
  {
    hide Parsed, ParsedNode, Header, After;
    ParsedSteps(b);
    AfterOne(out, node, Parsed(b[hdr + n..]));
  }

  lemma AfterOne(out: seq<TlvNode>, node: TlvNode, rest: Option<seq<TlvNode>>)
    ensures After(out, After([node], rest)) == After(out + [node], rest)
  {
    if rest.Some? {
      assert out + ([node] + rest.value) == out + [node] + rest.value;
    }
  }

  /** parseTLVs. */
  method ParseTLVs(data: bytes) returns (r: Option<seq<TlvNode>>)
    ensures r == Parsed(data)
    decreases |data|
  {
    hide Parsed, ParsedNode, Header;
    var out: seq<TlvNode> := [];
    var b := data;
    AfterNothing(Parsed(data));
    while |b| > 0
      invariant |b| <= |data|
      invariant Parsed(data) == After(out, Parsed(b))
      decreases |b|
    {
      var header := ReadHeader(b);
      if header.None? || |b| < header.value.0 + header.value.1 {
        ParsedSteps(b);
        return None;
      }
      var (hdr, n) := header.value;
      var node := TlvNode(b[0], b[0] == 0x30, [], []);
      if node.constructed {
        var children := ParseTLVs(b[hdr..hdr + n]);
        if children.None? {
          NodeParsed(b[0], b[hdr..hdr + n], |b|);
          ParsedSteps(b);
          return None;
        }
        node := node.(children := children.value);
      } else {
        node := node.(content := b[hdr..hdr + n]);
      }
      NodeParsed(b[0], b[hdr..hdr + n], |b|);
      OneMoreParsed(out, node, b, hdr, n);
      out := out + [node];
      b := b[hdr + n..];
    }
    AllParsed(out);
    return Some(out);
  }

  // ------------------------------------------------------------ spliceTLVs

  /** The pointer seq of spliceTLVs. */
  class Counter {
    var n: nat

    constructor ()
      ensures n == 0
    {
      n := 0;
    }
  }

  function NodeSeqs(t: TlvNode): nat
    decreases t
  {
    if t.constructed then 1 + ForestSeqs(t.children) else 0
  }

  function ForestSeqs(ts: seq<TlvNode>): nat
    decreases ts
  {
    if ts == [] then 0 else NodeSeqs(ts[0]) + ForestSeqs(ts[1..])
  }

  /** What spliceTLVs writes for one node when the counter stands at k. */
  function SplicedNode(t: TlvNode, target: int, extra: bytes, k: nat): bytes
    decreases t
  {
    var body :=
      if t.constructed then
        Spliced(t.children, target, extra, k + 1) + if k == target then extra else []
      else t.content;
    Tlv(t.tag, body)
  }

  function Spliced(ts: seq<TlvNode>, target: int, extra: bytes, k: nat): bytes
    decreases ts
  {
    if ts == [] then []
    else SplicedNode(ts[0], target, extra, k) + Spliced(ts[1..], target, extra, k + NodeSeqs(ts[0]))
  }

  /** spliceTLVs. */
  method SpliceTLVs(nodes: seq<TlvNode>, target: int, extra: bytes, counter: Counter) returns (out: bytes)
    modifies counter
    ensures out == Spliced(nodes, target, extra, old(counter.n))
    ensures counter.n == old(counter.n) + ForestSeqs(nodes)
    decreases nodes
  {
    hide Spliced, SplicedNode, ForestSeqs, EncodeLength, Tlv;
    out := [];
    NoBytes(nodes, target, extra, counter.n);
    for i := 0 to |nodes|
      invariant counter.n + ForestSeqs(nodes[i..]) == old(counter.n) + ForestSeqs(nodes)
      invariant out + Spliced(nodes[i..], target, extra, counter.n)
             == Spliced(nodes, target, extra, old(counter.n))
    {
      var n := nodes[i];
      ghost var k := counter.n;
      var body := n.content;
      if n.constructed {
        var mine := counter.n;
        counter.n := counter.n + 1;
        body := SpliceTLVs(n.children, target, extra, counter);
        if mine == target {
          body := body + extra;
        } else {
          assert body + [] == body;
        }
      }
      var length := DerLength(|body|);
      NodeBytes(n, target, extra, k, body);
      NextNode(nodes, i, target, extra, k);
      ThreeAppends(out, n.tag, length, body);
      out := out + [n.tag];
      out := out + length;
      out := out + body;
    }
    NoMoreNodes(nodes, target, extra, counter.n, out);
  }

  lemma NoBytes(nodes: seq<TlvNode>, target: int, extra: bytes, k: nat)
    ensures nodes[0..] == nodes
    ensures [] + Spliced(nodes, target, extra, k) == Spliced(nodes, target, extra, k)
  {
  }

  lemma NoMoreNodes(nodes: seq<TlvNode>, target: int, extra: bytes, k: nat, out: bytes)
    ensures ForestSeqs(nodes[|nodes|..]) == 0
    ensures out + Spliced(nodes[|nodes|..], target, extra, k) == out
  {
    assert nodes[|nodes|..] == [];
  }

  lemma ThreeAppends(out: bytes, tag: byte, length: bytes, body: bytes)
    ensures out + [tag] + length + body == out + ([tag] + length + body)
  {
  }

  lemma NodeBytes(t: TlvNode, target: int, extra: bytes, k: nat, body: bytes)
    requires t.constructed ==> body == Spliced(t.children, target, extra, k + 1) + if k == target then extra else []
    requires !t.constructed ==> body == t.content
    ensures SplicedNode(t, target, extra, k) == [t.tag] + EncodeLength(|body|) + body
    ensures NodeSeqs(t) == if t.constructed then 1 + ForestSeqs(t.children) else 0
  {
    hide EncodeLength;
  }

  lemma NextNode(nodes: seq<TlvNode>, i: nat, target: int, extra: bytes, k: nat)
    requires i < |nodes|
    ensures Spliced(nodes[i..], target, extra, k)
            == SplicedNode(nodes[i], target, extra, k) + Spliced(nodes[i + 1..], target, extra, k + NodeSeqs(nodes[i]))
    ensures ForestSeqs(nodes[i..]) == NodeSeqs(nodes[i]) + ForestSeqs(nodes[i + 1..])
  {
    assert nodes[i..][1..] == nodes[i + 1..];
  }

  // ------------------------------------------------------------ the walker and the tree

  /** The node a value is walked as. */
  function NodeOf(v: Value): TlvNode
    decreases v
  {
    match v
    case Seq(items) => TlvNode(Tag(v), true, [], NodesOf(items))
    case _ => TlvNode(Tag(v), false, Body(v), [])
  }

  function NodesOf(items: seq<Value>): (ts: seq<TlvNode>)
    ensures |ts| == |items|
    decreases items
  {
    if items == [] then [] else [NodeOf(items[0])] + NodesOf(items[1..])
  }

  lemma NodesCons(x: Value, items: seq<Value>)
    ensures NodesOf([x] + items) == [NodeOf(x)] + NodesOf(items)
  {
    assert ([x] + items)[1..] == items;
  }

  /** The walker's count of SEQUENCEs is the tree's. */
  lemma {:induction false} NodeSeqsOf(v: Value)
    ensures NodeSeqs(NodeOf(v)) == SeqCount(v)
    decreases v, 0
  {
    if v.Seq? {
      ForestSeqsOf(v, 0);
      assert v.items[0..] == v.items;
    }
  }

  lemma {:induction false} ForestSeqsOf(v: Value, i: nat)
    requires v.Seq? && i <= |v.items|
    ensures ForestSeqs(NodesOf(v.items[i..])) == ChildCount(v, i)
    decreases v, 0, |v.items| - i
  {
    if i < |v.items| {
      assert v.items[i..] == [v.items[i]] + v.items[i + 1..];
      NodesCons(v.items[i], v.items[i + 1..]);
      NodeSeqsOf(v.items[i]);
      ForestSeqsOf(v, i + 1);
    }
  }

  // ------------------------------------------------------------ parsing what was encoded

  /** On a minimal encoding within the cap the walker reads the header the encoder wrote. */
  lemma HeaderOf(tag: byte, n: nat, rest: bytes)
    requires n < 0x1_0000_0000 && n <= |rest|
    ensures Header([tag] + EncodeLength(n) + rest) == Some((1 + |EncodeLength(n)|, n))
  {
    if n >= 0x80 {
      LongHeaderOf(tag, n, rest);
    } else {
      assert ([tag] + EncodeLength(n) + rest)[1] == n;
    }
  }

  lemma LongHeaderOf(tag: byte, n: nat, rest: bytes)
    requires 0x80 <= n < 0x1_0000_0000
    ensures Header([tag] + EncodeLength(n) + rest) == Some((1 + |EncodeLength(n)|, n))
  {
    hide Header, EncodeLength, ByteLength, FromBE, ToBE;
    FourOctets();
    ByteLengthAtMost(n, 4);
    LongLength(n);
    var k, len := ByteLength(n), EncodeLength(n);
    assert len == [0x80 + k] + len[1..];
    assert [tag] + len + rest == [tag, 0x80 + k] + (len[1..] + rest);
    LongHeader(tag, k, len[1..], rest);
  }

  lemma LongHeader(tag: byte, k: nat, raw: bytes, rest: bytes)
    requires 1 <= k <= 4 && |raw| == k
    ensures Header([tag, 0x80 + k] + (raw + rest)) == Some((2 + k, FromBE(raw)))
  {
    hide FromBE;
    var b := [tag, 0x80 + k] + (raw + rest);
    assert b[1] == 0x80 + k && b[1] % 0x80 == k;
    assert b[2..2 + k] == raw;
  }

  /** parseTLVs inverts the encoder. */
  lemma {:induction false} ParsedEncoding(items: seq<Value>)
    requires forall x :: x in items ==> Fits(x)
    ensures Parsed(EncodeAll(items)) == Some(NodesOf(items))
    decreases items
  {
    if items != [] {
      var x, rest := items[0], items[1..];
      assert items == [x] + rest;
      ParsedValue(x);
      ParsedEncoding(rest);
      EncodeAllCons(x, rest);
      NodesCons(x, rest);
      ParsedCons(x, EncodeAll(rest));
    }
  }

  lemma {:induction false} ParsedValue(x: Value)
    requires Fits(x)
    ensures forall bound: nat | bound > |Body(x)| :: ParsedNode(Tag(x), Body(x), bound) == Some(NodeOf(x))
    decreases x
  {
    if x.Seq? {
      ItemsFit(x.items);
      ParsedEncoding(x.items);
    }
  }

  lemma ParsedCons(x: Value, rest: bytes)
    requires Fits(x)
    requires forall bound: nat | bound > |Body(x)| :: ParsedNode(Tag(x), Body(x), bound) == Some(NodeOf(x))
    ensures Parsed(Encode(x) + rest) == After([NodeOf(x)], Parsed(rest))
  {
    var b, n := Encode(x) + rest, |Body(x)|;
    var len := EncodeLength(n);
    assert b == [Tag(x)] + len + (Body(x) + rest);
    HeaderOf(Tag(x), n, Body(x) + rest);
    var hdr := 1 + |len|;
    assert b[hdr..hdr + n] == Body(x);
    assert b[hdr + n..] == rest;
    ParsedSteps(b);
  }

  // ------------------------------------------------------------ the walker refines _splice

  /** 02 01 63. */
  const EXTRA: bytes := [0x02, 0x01, 0x63]

  lemma ExtraIsInteger()
    ensures Encode(Int(0x63)) == EXTRA
  {
    assert SignedWidth(0x63) == 1;
    assert ToBE(0x63, 1) == ToBE(0, 0) + [0x63];
  }

  /** A path below base is base followed by the path below the root. */
  lemma {:induction false} RelativePaths(v: Value, base: Path)
    ensures |SeqPaths(v, base)| == |SeqPaths(v, [])|
    ensures forall m | 0 <= m < |SeqPaths(v, base)| :: SeqPaths(v, base)[m] == base + SeqPaths(v, [])[m]
    decreases v, 1, 0
  {
    if v.Seq? {
      RelativeChildPaths(v, base, 0);
      assert base == base + [];
    }
  }

  lemma {:induction false} RelativeChildPaths(v: Value, base: Path, i: nat)
    requires v.Seq? && i <= |v.items|
    ensures |ChildPaths(v, base, i)| == |ChildPaths(v, [], i)|
    ensures forall m | 0 <= m < |ChildPaths(v, base, i)| :: ChildPaths(v, base, i)[m] == base + ChildPaths(v, [], i)[m]
    decreases v, 0, |v.items| - i
  {
    if i < |v.items| {
      var x := v.items[i];
      RelativePaths(x, base + [i]);
      RelativePaths(x, [] + [i]);
      RelativeChildPaths(v, base, i + 1);
      forall m | 0 <= m < |SeqPaths(x, [])|
        ensures base + [i] + SeqPaths(x, [])[m] == base + ([] + [i] + SeqPaths(x, [])[m])
      {
      }
    }
  }

  /** Writing one node with the counter at k: the tree with the element spliced in at the path
      whose number the target is, or the tree itself when the target is elsewhere. */
  lemma {:induction false} NodeRefines(v: Value, target: int, k: nat)
    ensures
      var bytes := SplicedNode(NodeOf(v), target, EXTRA, k);
      if k <= target < k + SeqCount(v) then
        && target - k < |SeqPaths(v, [])|
        && SeqAt(v, SeqPaths(v, [])[target - k])
        && bytes == Encode(Splice(v, SeqPaths(v, [])[target - k]))
      else
        bytes == Encode(v)
    decreases v, 1, 0
  {
    PathCount(v, []);
    if v.Seq? {
      ForestRefines(v, 0, target, k + 1);
      assert v.items[0..] == v.items;
      if target == k {
        ExtraIsInteger();
        EncodeAllAppend(v.items, [Int(0x63)]);
        EncodeAllSingleton(Int(0x63));
      }
    }
  }

  /** The same for the children from the i-th on. */
  lemma {:induction false} ForestRefines(v: Value, i: nat, target: int, k: nat)
    requires v.Seq? && i <= |v.items|
    ensures
      var bytes := Spliced(NodesOf(v.items[i..]), target, EXTRA, k);
      if k <= target < k + ChildCount(v, i) then
        && target - k < |ChildPaths(v, [], i)|
        && var q := ChildPaths(v, [], i)[target - k];
        && q != [] && i <= q[0] < |v.items| && SeqAt(v.items[q[0]], q[1..])
        && bytes == EncodeAll(v.items[q[0] := Splice(v.items[q[0]], q[1..])][i..])
      else
        bytes == EncodeAll(v.items[i..])
    decreases v, 0, |v.items| - i
  {
    hide Encode, Splice, SeqAt, SplicedNode, NodeOf, NodesOf, NodeSeqs, SeqPaths, SeqCount, Spliced, EncodeAll;
    ChildPathCount(v, [], i);
    if i == |v.items| {
      EmptyForest(v, target, k);
    } else {
      var x, rest := v.items[i], v.items[i + 1..];
      assert v.items[i..] == [x] + rest;
      NodesCons(x, rest);
      EncodeAllCons(x, rest);
      SplicedCons(NodeOf(x), NodesOf(rest), target, k);
      NodeSeqsOf(x);
      NodeRefines(x, target, k);
      ForestRefines(v, i + 1, target, k + SeqCount(x));
      PathCount(x, []);
      if k <= target < k + SeqCount(x) {
        PathHere(v, i, target - k);
        var p := SeqPaths(x, [])[target - k];
        assert ([i] + p)[1..] == p;
        ReplaceHere(v.items, i, Splice(x, p));
        EncodeAllCons(Splice(x, p), rest);
      } else if k + SeqCount(x) <= target < k + ChildCount(v, i) {
        PathLater(v, i, target - k);
        var q := ChildPaths(v, [], i + 1)[target - k - SeqCount(x)];
        var w := Splice(v.items[q[0]], q[1..]);
        ReplaceLater(v.items, i, q[0], w);
        EncodeAllCons(x, v.items[q[0] := w][i + 1..]);
      }
    }
  }

  lemma EmptyForest(v: Value, target: int, k: nat)
    requires v.Seq?
    ensures Spliced(NodesOf(v.items[|v.items|..]), target, EXTRA, k) == EncodeAll(v.items[|v.items|..]) == []
  {
    assert v.items[|v.items|..] == [];
  }

  lemma PathHere(v: Value, i: nat, m: nat)
    requires v.Seq? && i < |v.items| && m < |SeqPaths(v.items[i], [])|
    ensures m < |ChildPaths(v, [], i)|
    ensures ChildPaths(v, [], i)[m] == [i] + SeqPaths(v.items[i], [])[m]
  {
    RelativePaths(v.items[i], [] + [i]);
    assert [] + [i] == [i];
  }

  lemma PathLater(v: Value, i: nat, m: nat)
    requires v.Seq? && i < |v.items|
    requires SeqCount(v.items[i]) <= m < |ChildPaths(v, [], i)|
    ensures m - SeqCount(v.items[i]) < |ChildPaths(v, [], i + 1)|
    ensures ChildPaths(v, [], i)[m] == ChildPaths(v, [], i + 1)[m - SeqCount(v.items[i])]
  {
    PathCount(v.items[i], [] + [i]);
  }

  lemma SplicedCons(t: TlvNode, ts: seq<TlvNode>, target: int, k: nat)
    ensures Spliced([t] + ts, target, EXTRA, k)
            == SplicedNode(t, target, EXTRA, k) + Spliced(ts, target, EXTRA, k + NodeSeqs(t))
  {
    assert ([t] + ts)[1..] == ts;
  }

  lemma ReplaceHere(items: seq<Value>, i: nat, w: Value)
    requires i < |items|
    ensures items[i := w][i..] == [w] + items[i + 1..]
  {
  }

  lemma ReplaceLater(items: seq<Value>, i: nat, j: nat, w: Value)
    requires i < j < |items|
    ensures items[j := w][i..] == [items[i]] + items[j := w][i + 1..]
  {
  }

  /** Where the target is no SEQUENCE of the node, extra is not written. */
  lemma {:induction false} NodeIgnoresExtra(t: TlvNode, target: int, extra: bytes, other: bytes, k: nat)
    requires !(k <= target < k + NodeSeqs(t))
    ensures SplicedNode(t, target, extra, k) == SplicedNode(t, target, other, k)
    decreases t
  {
    hide Tlv;
    if t.constructed {
      ForestIgnoresExtra(t.children, target, extra, other, k + 1);
    }
  }

  lemma {:induction false} ForestIgnoresExtra(ts: seq<TlvNode>, target: int, extra: bytes, other: bytes, k: nat)
    requires !(k <= target < k + ForestSeqs(ts))
    ensures Spliced(ts, target, extra, k) == Spliced(ts, target, other, k)
    decreases ts
  {
    if ts != [] {
      NodeIgnoresExtra(ts[0], target, extra, other, k);
      ForestIgnoresExtra(ts[1..], target, extra, other, k + NodeSeqs(ts[0]));
    }
  }

  lemma OneNode(v: Value, target: int, extra: bytes)
    ensures ForestSeqs([NodeOf(v)]) == SeqCount(v)
    ensures Spliced([NodeOf(v)], target, extra, 0) == SplicedNode(NodeOf(v), target, extra, 0)
  {
    hide SplicedNode;
    NodeSeqsOf(v);
    assert SplicedNode(NodeOf(v), target, extra, 0) + [] == SplicedNode(NodeOf(v), target, extra, 0);
  }

  /** The Go walker refines the Python splice: it parses every encoding within the cap; for
      target i it splices at the i-th SEQUENCE in pre-order; for target -1, as for any other that
      is no SEQUENCE, it reproduces the encoding whatever extra is. */
  lemma WalkerRefinesSplice(v: Value, target: int, extra: bytes)
    requires Fits(v)
    ensures Parsed(Encode(v)) == Some([NodeOf(v)])
    ensures ForestSeqs([NodeOf(v)]) == |SeqPaths(v, [])|
    ensures
      var bytes := Spliced([NodeOf(v)], target, extra, 0);
      if 0 <= target < |SeqPaths(v, [])| then
        && SeqAt(v, SeqPaths(v, [])[target])
        && (extra == EXTRA ==> bytes == Encode(Splice(v, SeqPaths(v, [])[target])))
      else
        bytes == Encode(v)
  {
    hide Encode, Splice, SeqAt, Spliced, SplicedNode;
    EncodeAllSingleton(v);
    NodesCons(v, []);
    assert [v] + [] == [v] && [NodeOf(v)] + [] == [NodeOf(v)];
    ParsedEncoding([v]);
    PathCount(v, []);
    NodeRefines(v, target, 0);
    OneNode(v, target, EXTRA);
    OneNode(v, target, extra);
    NodeSeqsOf(v);
    if !(0 <= target < SeqCount(v)) {
      NodeIgnoresExtra(NodeOf(v), target, extra, EXTRA, 0);
    }
  }
}
