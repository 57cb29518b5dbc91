/** Path-indexed surgery on a parsed tree: _seq_paths and _splice of
    ci/verify_vectors.py, and why no forgery made with them is ever accepted. */
module Forgeries {
  import opened Bytes
  import opened Der
  import opened DerReader
  import opened Schema
  import opened Structures

  /** The child to take at each level, from the root down. */
  type Path = seq<nat>

  /** _seq_paths: the SEQUENCEs of v in pre-order, each by its path. */
  function SeqPaths(v: Value, path: Path): seq<Path>
    decreases v, 1, 0
  {
    if v.Seq? then [path] + ChildPaths(v, path, 0) else []
  }

  function ChildPaths(v: Value, path: Path, i: nat): seq<Path>
    requires v.Seq? && i <= |v.items|
    decreases v, 0, |v.items| - i
  {
    if i == |v.items| then []
    else SeqPaths(v.items[i], path + [i]) + ChildPaths(v, path, i + 1)
  }

  /** path leads to a SEQUENCE of v. */
  predicate SeqAt(v: Value, path: Path)
    decreases |path|
  {
    && v.Seq?
    && (path != [] ==> path[0] < |v.items| && SeqAt(v.items[path[0]], path[1..]))
  }

  /** _splice: the INTEGER 0x63 added at the end of the SEQUENCE that path leads to. */
  function Splice(v: Value, path: Path): (w: Value)
    requires SeqAt(v, path)
    ensures w.Seq?
    decreases |path|
  {
    if path == [] then Seq(v.items + [Int(0x63)])
    else Seq(v.items[path[0] := Splice(v.items[path[0]], path[1..])])
  }

  // ------------------------------------------------------------ the paths

  /** Number of SEQUENCEs in a value, itself included. */
  function SeqCount(v: Value): nat
    decreases v, 1, 0
  {
    if v.Seq? then 1 + ChildCount(v, 0) else 0
  }

  function ChildCount(v: Value, i: nat): nat
    requires v.Seq? && i <= |v.items|
    decreases v, 0, |v.items| - i
  {
    if i == |v.items| then 0 else SeqCount(v.items[i]) + ChildCount(v, i + 1)
  }

  lemma {:induction false} PathCount(v: Value, path: Path)
    ensures |SeqPaths(v, path)| == SeqCount(v)
    decreases v, 1, 0
  {
    if v.Seq? {
      ChildPathCount(v, path, 0);
    }
  }

  lemma {:induction false} ChildPathCount(v: Value, path: Path, i: nat)
    requires v.Seq? && i <= |v.items|
    ensures |ChildPaths(v, path, i)| == ChildCount(v, i)
    decreases v, 0, |v.items| - i
  {
    if i < |v.items| {
      PathCount(v.items[i], path + [i]);
      ChildPathCount(v, path, i + 1);
    }
  }

  /** The k-th path is base followed by a path to a SEQUENCE of v. */
  ghost predicate Below(v: Value, base: Path, q: Path) {
    base <= q && SeqAt(v, q[|base|..])
  }

  /** Exactly the SEQUENCEs are listed. */
  lemma {:induction false} PathsAreSequences(v: Value, base: Path, q: Path)
    ensures q in SeqPaths(v, base) <==> Below(v, base, q)
    decreases v, 1, 0
  {
    if v.Seq? {
      ChildPathsAreSequences(v, base, 0, q);
      if base <= q && |q| == |base| {
        assert q == base;
      }
    }
  }

  lemma {:induction false} ChildPathsAreSequences(v: Value, base: Path, i: nat, q: Path)
    requires v.Seq? && i <= |v.items|
    ensures q in ChildPaths(v, base, i)
            <==> Below(v, base, q) && |q| > |base| && i <= q[|base|]
    decreases v, 0, |v.items| - i
  {
    if i < |v.items| {
      PathsAreSequences(v.items[i], base + [i], q);
      ChildPathsAreSequences(v, base, i + 1, q);
      BelowChild(v, base, i, q);
    }
  }

  lemma BelowChild(v: Value, base: Path, i: nat, q: Path)
    requires v.Seq? && i < |v.items|
    ensures Below(v.items[i], base + [i], q)
            <==> Below(v, base, q) && |q| > |base| && q[|base|] == i
  {
    if base <= q && |q| > |base| {
      var rest := q[|base|..];
      assert rest[1..] == q[|base| + 1..];
      assert base + [q[|base|]] <= q;
    }
  }

  ghost predicate AllDistinct(ps: seq<Path>) {
    forall i, j :: 0 <= i < j < |ps| ==> ps[i] != ps[j]
  }

  lemma DistinctConcat(ps: seq<Path>, qs: seq<Path>)
    requires AllDistinct(ps) && AllDistinct(qs)
    requires forall p :: p in ps ==> p !in qs
    ensures AllDistinct(ps + qs)
  {
    var all := ps + qs;
    forall i, j | 0 <= i < j < |all|
      ensures all[i] != all[j]
    {
      if i < |ps| <= j {
        assert all[i] in ps && all[j] in qs;
      }
    }
  }

  /** And none twice. */
  lemma {:induction false} PathsDistinct(v: Value, base: Path)
    ensures AllDistinct(SeqPaths(v, base))
    decreases v, 1, 0
  {
    if v.Seq? {
      ChildPathsDistinct(v, base, 0);
      ChildPathsAreSequences(v, base, 0, base);
      DistinctConcat([base], ChildPaths(v, base, 0));
    }
  }

  lemma {:induction false} ChildPathsDistinct(v: Value, base: Path, i: nat)
    requires v.Seq? && i <= |v.items|
    ensures AllDistinct(ChildPaths(v, base, i))
    decreases v, 0, |v.items| - i
  {
    if i < |v.items| {
      PathsDistinct(v.items[i], base + [i]);
      ChildPathsDistinct(v, base, i + 1);
      var here, later := SeqPaths(v.items[i], base + [i]), ChildPaths(v, base, i + 1);
      forall p | p in here
        ensures p !in later
      {
        PathsAreSequences(v.items[i], base + [i], p);
        BelowChild(v, base, i, p);
        ChildPathsAreSequences(v, base, i + 1, p);
      }
      DistinctConcat(here, later);
    }
  }

  // ------------------------------------------------------------ the forgeries

  lemma {:induction false} SpliceChanges(v: Value, p: Path)
    requires SeqAt(v, p)
    ensures Splice(v, p) != v
    decreases |p|
  {
    if p == [] {
      assert |Splice(v, p).items| != |v.items|;
    } else {
      SpliceChanges(v.items[p[0]], p[1..]);
      assert Splice(v, p).items[p[0]] != v.items[p[0]];
    }
  }

  lemma SpliceElsewhere(v: Value, p: Path, q: Path)
    requires SeqAt(v, p) && SeqAt(v, q)
    requires p != [] && q != [] && p[0] != q[0]
    ensures Splice(v, p) != Splice(v, q)
  {
    SpliceChanges(v.items[p[0]], p[1..]);
    assert Splice(v, p).items[p[0]] != v.items[p[0]] == Splice(v, q).items[p[0]];
  }

  /** Different paths, different trees. */
  lemma {:induction false} SpliceInjective(v: Value, p: Path, q: Path)
    requires SeqAt(v, p) && SeqAt(v, q)
    requires p != q
    ensures Splice(v, p) != Splice(v, q)
    decreases |p|
  {
    if p == [] || q == [] {
      assert |Splice(v, p).items| != |Splice(v, q).items|;
    } else if p[0] != q[0] {
      SpliceElsewhere(v, p, q);
    } else {
      assert p == [p[0]] + p[1..] && q == [q[0]] + q[1..];
      SpliceInjective(v.items[p[0]], p[1..], q[1..]);
      assert Splice(v, p).items[p[0]] != Splice(v, q).items[p[0]];
    }
  }

  /** A tree with an element spliced in has no layout that the tree had. */
  lemma {:induction false} SpliceUndecodable(l: Layout, o: Object, p: Path, o': Object)
    requires Conforms(l, o) && Conforms(l, o')
    requires SeqAt(StructValue(l, o), p)
    ensures StructValue(l, o') != Splice(StructValue(l, o), p)
    decreases l
  {
    var v, w := StructValue(l, o), StructValue(l, o');
    if p != [] {
      var i := p[0];
      var x, y := Lookup(o, l.fields[i].name), Lookup(o', l.fields[i].name);
      FieldOf(l, o, i);
      FieldOf(l, o', i);
      ListUndecodable(l.fields[i].kind, x, p[1..], y);
      assert Splice(v, p).items[i] == Splice(v.items[i], p[1..]);
    }
  }

  lemma {:induction false} ListUndecodable(k: Kind, x: FieldValue, p: Path, y: FieldValue)
    requires KindMatches(k, x) && KindMatches(k, y)
    requires SeqAt(ToValue(k, x), p)
    ensures ToValue(k, y) != Splice(ToValue(k, x), p)
    decreases k
  {
    var v, w := ToValue(k, x), ToValue(k, y);
    var spliced := Splice(v, p);
    if p == [] {
      var n := |x.elements|;
      assert spliced.items[n] == Int(0x63);
      ElementOf(k, y, n);
    } else {
      var j := p[0];
      assert spliced.items[j] == Splice(v.items[j], p[1..]);
      ElementOf(k, x, j);
      ElementOf(k, y, j);
      if |y.elements| == |x.elements| {
        SpliceUndecodable(k.element, x.elements[j], p[1..], y.elements[j]);
      }
    }
  }

  ghost predicate Rejected(n: Structure, data: bytes) {
    forall o :: !Accepts(n, data, o)
  }

  /** No forgery spliced from a decodable tree decodes. */
  lemma ForgeryRejected(l: Layout, o: Object, p: Path)
    requires Conforms(l, o) && SeqAt(StructValue(l, o), p)
    ensures var forged := Parse(Encode(Splice(StructValue(l, o), p)));
            forged.Accept? ==> Decoded(l, forged.value) == SpecError
  {
    var w := Splice(StructValue(l, o), p);
    ParseEncode(w);
    var d := Decoded(l, w);
    if d.Accept? {
      SpliceUndecodable(l, o, p, d.value);
    }
  }

  // ------------------------------------------------------------ forgeries as bytes

  lemma {:induction false} PathLength(v: Value, p: Path)
    requires SeqAt(v, p)
    ensures |p| <= |Encode(v)|
    decreases |p|
  {
    if p != [] {
      PathLength(v.items[p[0]], p[1..]);
      ItemLength(v.items, p[0]);
    }
  }

  lemma {:induction false} ReplaceItem(items: seq<Value>, i: nat, x: Value)
    requires i < |items|
    ensures |EncodeAll(items[i := x])| == |EncodeAll(items)| - |Encode(items[i])| + |Encode(x)|
  {
    var before, after := items[..i], items[i + 1..];
    assert items == before + ([items[i]] + after);
    assert items[i := x] == before + ([x] + after);
    EncodeAllAppend(before, [items[i]] + after);
    EncodeAllAppend(before, [x] + after);
    EncodeAllCons(items[i], after);
    EncodeAllCons(x, after);
  }

  /** A splice adds three octets and at most five more for each enclosing length. */
  lemma {:induction false} SpliceGrowth(v: Value, p: Path)
    requires SeqAt(v, p)
    requires |Encode(v)| + 8 + 5 * |p| < BIG
    ensures |Encode(Splice(v, p))| <= |Encode(v)| + 8 + 5 * |p|
    decreases |p|
  {
    var w := Splice(v, p);
    if p == [] {
      EncodeAllAppend(v.items, [Int(0x63)]);
      EncodeAllSingleton(Int(0x63));
      assert |Encode(Int(0x63))| == 3;
    } else {
      ItemLength(v.items, p[0]);
      SpliceGrowth(v.items[p[0]], p[1..]);
      ReplaceItem(v.items, p[0], w.items[p[0]]);
    }
    ShortHeader(|Body(v)|);
    ShortHeader(|Body(w)|);
  }

  /** And it adds at least three. */
  lemma {:induction false} SpliceGrows(v: Value, p: Path)
    requires SeqAt(v, p)
    ensures |Encode(Splice(v, p))| >= |Encode(v)| + 3
    decreases |p|
  {
    var w := Splice(v, p);
    if p == [] {
      EncodeAllAppend(v.items, [Int(0x63)]);
      EncodeAllSingleton(Int(0x63));
      assert |Encode(Int(0x63))| == 3;
    } else {
      SpliceGrows(v.items[p[0]], p[1..]);
      ReplaceItem(v.items, p[0], w.items[p[0]]);
    }
    LengthMonotone(|Body(v)|, |Body(w)|);
  }

  lemma SpliceSized(v: Value, p: Path)
    requires Fits(v) && SeqAt(v, p)
    ensures Sized(Splice(v, p))
  {
    ShortHeader(|Body(v)|);
    PathLength(v, p);
    SpliceGrowth(v, p);
    ShortHeader(|Body(Splice(v, p))|);
  }

  /** Different paths give different forged bytes, and none gives the original's. */
  lemma ForgeriesDistinct(v: Value, p: Path, q: Path)
    requires Fits(v) && SeqAt(v, p) && SeqAt(v, q)
    ensures Encode(Splice(v, p)) != Encode(v)
    ensures p != q ==> Encode(Splice(v, p)) != Encode(Splice(v, q))
  {
    SpliceSized(v, p);
    SpliceSized(v, q);
    FitsIsSized(v);
    SpliceChanges(v, p);
    if Encode(Splice(v, p)) == Encode(v) {
      EncodeInjective(Splice(v, p), v);
    }
    if p != q {
      SpliceInjective(v, p, q);
      if Encode(Splice(v, p)) == Encode(Splice(v, q)) {
        EncodeInjective(Splice(v, p), Splice(v, q));
      }
    }
  }
}
