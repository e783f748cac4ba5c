/** The two directions of the codec: decoding is exact, and encodings decode to themselves. */
module Codec {
  import opened Wire
  import opened Values
  import opened Schemas
  import opened Shapes
  import opened Meaning
  import opened Parser

  // ---- anything that decodes re-encodes to the bytes it was decoded from ----

  /** What decoding promises about a value read from the front of `bs`. */
  predicate Faithful(s: Schema, n: Node, bs: bytes, L: Limits, d: nat, lazy: bool, v: Value, rest: bytes) {
    && Valid(s, n, v)
    && bs == Bytes(s, n, v) + rest
    && (d <= L.maxNestingDepth ==> d + Nest(s, n, v) <= L.maxNestingDepth)
    && (!lazy ==> Plain(s, n, v) && Fits(s, n, v, L, d))
  }

  predicate FaithfulSeq(s: Schema, ns: seq<Node>, bs: bytes, L: Limits, d: nat, lazy: bool, vs: seq<Value>, rest: bytes) {
    && ValidSeq(s, ns, vs)
    && bs == BytesSeq(s, ns, vs) + rest
    && (d <= L.maxNestingDepth ==> d + NestSeq(s, ns, vs) <= L.maxNestingDepth)
    && (!lazy ==> PlainSeq(s, ns, vs) && FitsSeq(s, ns, vs, L, d))
  }

  lemma {:induction false} DecodeExact(s: MarkedSchema, n: Node, bs: bytes, L: Limits, d: nat, lazy: bool)
    requires Parse(s, n, bs, L, d, lazy).Ok?
    ensures var Ok(v, rest) := Parse(s, n, bs, L, d, lazy); Faithful(s, n, bs, L, d, lazy, v, rest)
    decreases Room(L, d), NodeRank(s, n), Size(n), 0
  {
    hide ParseHead, ShapeOk, ShapeFits, ShapeBytes, Children, Faithful, FaithfulSeq, Finish, Atom, NodeRank, SeqRank, Size, SeqSize, Level;
    var Ok(sh, r) := ParseHead(s, n, bs, L, d);
    HeadIff(s, n, bs, sh, r, L, d);
    if Atom(s, n) {
      AtomExact(s, n, bs, L, d, sh, r, lazy);
    } else {
      var ns, d' := Children(s, n, sh), d + Level(s, n);
      ChildrenMeasure(s, n, sh, L, d);
      FinishOk(s, n, sh, r, ParseSeq(s, ns, r, L, d', lazy), lazy);
      SeqExact(s, ns, r, L, d', lazy);
      var Ok(vs, rest) := ParseSeq(s, ns, r, L, d', lazy);
      OpenExact(s, n, bs, L, d, lazy, sh, r, vs, rest);
    }
  }

  lemma FinishOk(s: Schema, n: Node, sh: Shape, start: bytes, p: Parsed<seq<Value>>, lazy: bool)
    requires Finish(s, n, sh, start, p, lazy).Ok?
    ensures p.Ok? && Finish(s, n, sh, start, p, lazy).rest == p.rest
  {
  }

  lemma AtomExact(s: MarkedSchema, n: Node, bs: bytes, L: Limits, d: nat, sh: Shape, r: bytes, lazy: bool)
    requires Atom(s, n) && ShapeOk(s, n, sh) && ShapeFits(s, n, sh, L, d) && bs == ShapeBytes(s, n, sh) + r
    ensures Faithful(s, n, bs, L, d, lazy, Build(sh, []), r)
  {
    hide AtomOk, AtomBytes;
  }

  lemma OpenExact(
      s: MarkedSchema, n: Node, bs: bytes, L: Limits, d: nat, lazy: bool,
      sh: Shape, r: bytes, vs: seq<Value>, rest: bytes)
    requires !Atom(s, n) && ShapeOk(s, n, sh) && ShapeFits(s, n, sh, L, d) && bs == ShapeBytes(s, n, sh) + r
    requires FaithfulSeq(s, Children(s, n, sh), r, L, d + Level(s, n), lazy, vs, rest)
    requires Finish(s, n, sh, r, Ok(vs, rest), lazy).Ok?
    ensures Faithful(s, n, bs, L, d, lazy, Finish(s, n, sh, r, Ok(vs, rest), lazy).value, rest)
  {
    SameLength(s, Children(s, n, sh), vs);
    if lazy && sh.ListShape? {
      KeptExact(s, n, bs, L, d, sh, r, vs, rest);
    } else {
      ShapeOfBuild(s, n, sh, vs);
      BuiltExact(s, n, bs, L, d, lazy, sh, r, vs, rest);
    }
  }

  lemma KeptExact(
      s: MarkedSchema, n: Node, bs: bytes, L: Limits, d: nat, sh: Shape, r: bytes, vs: seq<Value>, rest: bytes)
    requires !Atom(s, n) && ShapeOk(s, n, sh) && sh.ListShape? && bs == ShapeBytes(s, n, sh) + r
    requires FaithfulSeq(s, Children(s, n, sh), r, L, d, true, vs, rest)
    ensures Faithful(s, n, bs, L, d, true, VWire(sh.count, Consumed(r, rest)), rest)
  {
    hide ValidSeq, NestSeq, BytesSeq, ShapeBytes, Children;
    var wire := Consumed(r, rest);
    assert wire == BytesSeq(s, Children(s, n, sh), vs);
    assert bs == (ShapeBytes(s, n, sh) + wire) + rest;
  }

  lemma BuiltExact(
      s: MarkedSchema, n: Node, bs: bytes, L: Limits, d: nat, lazy: bool,
      sh: Shape, r: bytes, vs: seq<Value>, rest: bytes)
    requires !Atom(s, n) && ShapeOk(s, n, sh) && ShapeFits(s, n, sh, L, d) && bs == ShapeBytes(s, n, sh) + r
    requires FaithfulSeq(s, Children(s, n, sh), r, L, d + Level(s, n), lazy, vs, rest)
    requires ChecksOk(ChecksOf(s, n), vs)
    requires var v := Build(sh, vs); v.Open() && v.Parts() == vs && ShapeOf(v) == sh && !v.VWire?
    ensures Faithful(s, n, bs, L, d, lazy, Build(sh, vs), rest)
  {
    hide ChecksOk, ChecksOf, ValidSeq, NestSeq, BytesSeq, PlainSeq, FitsSeq, ShapeOk, ShapeBytes, Children, Build, Atom,
      AtomOk, AtomBytes, ShapeOf;
    assert bs == (ShapeBytes(s, n, sh) + BytesSeq(s, Children(s, n, sh), vs)) + rest;
  }

  lemma ShapeOfBuild(s: Schema, n: Node, sh: Shape, vs: seq<Value>)
    requires ShapeOk(s, n, sh) && !Atom(s, n) && |vs| == |Children(s, n, sh)|
    ensures var v := Build(sh, vs);
      v.Open() && v.Parts() == vs && ShapeOf(v) == sh && !v.VWire?
  {
    hide ShapeBytes;
  }

  lemma {:induction false} SeqExact(s: MarkedSchema, ns: seq<Node>, bs: bytes, L: Limits, d: nat, lazy: bool)
    requires ParseSeq(s, ns, bs, L, d, lazy).Ok?
    ensures var Ok(vs, rest) := ParseSeq(s, ns, bs, L, d, lazy);
      FaithfulSeq(s, ns, bs, L, d, lazy, vs, rest)
    decreases Room(L, d), SeqRank(s, ns), SeqSize(ns), |ns|
  {
    hide Parse, Faithful, FaithfulSeq;
    if |ns| == 0 {
      NoneFaithful(s, bs, L, d, lazy);
    } else {
      var Ok(v, r) := Parse(s, ns[0], bs, L, d, lazy);
      DecodeExact(s, ns[0], bs, L, d, lazy);
      SeqExact(s, ns[1..], r, L, d, lazy);
      var Ok(vs, rest) := ParseSeq(s, ns[1..], r, L, d, lazy);
      FaithfulCons(s, ns, bs, L, d, lazy, v, r, vs, rest);
    }
  }

  lemma NoneFaithful(s: MarkedSchema, bs: bytes, L: Limits, d: nat, lazy: bool)
    ensures FaithfulSeq(s, [], bs, L, d, lazy, [], bs)
  {
  }

  lemma FaithfulCons(
      s: MarkedSchema, ns: seq<Node>, bs: bytes, L: Limits, d: nat, lazy: bool, v: Value, r: bytes, vs: seq<Value>, rest: bytes)
    requires |ns| > 0 && Faithful(s, ns[0], bs, L, d, lazy, v, r) && FaithfulSeq(s, ns[1..], r, L, d, lazy, vs, rest)
    ensures FaithfulSeq(s, ns, bs, L, d, lazy, [v] + vs, rest)
  {
    hide Valid, Bytes, Nest, Fits, Plain;
    var all := [v] + vs;
    assert all[1..] == vs;
    assert bs == Bytes(s, ns[0], v) + (BytesSeq(s, ns[1..], vs) + rest);
    assert BytesSeq(s, ns, all) == Bytes(s, ns[0], v) + BytesSeq(s, ns[1..], vs);
  }

  // ---- what is encoded decodes to itself, exactly when the limits admit it ----

  function Limited<T>(ok: bool, v: T, rest: bytes): Parsed<T> {
    if ok then Ok(v, rest) else Fail(LimitExceeded)
  }

  /**
   The bytes of a valid plain value, followed by anything, decode to that value
   and stop there if the limits admit it, and break a limit if they do not.
   */
  lemma {:induction false} DecodeBack(s: MarkedSchema, n: Node, v: Value, t: bytes, L: Limits, d: nat)
    requires Valid(s, n, v) && Plain(s, n, v)
    ensures Parse(s, n, Bytes(s, n, v) + t, L, d, false) == Limited(Fits(s, n, v, L, d), v, t)
    decreases v, 1
  {
    hide ParseHead, ShapeOk, ShapeFits, ShapeBytes, Children, AtomOk, AtomBytes, ChecksOk, ChecksOf, ParseSeq;
    var bs := Bytes(s, n, v) + t;
    if Atom(s, n) {
      AtomBack(s, n, v, t, L, d);
    } else {
      var sh, vs := ShapeOf(v), v.Parts();
      var ns := Children(s, n, sh);
      var r := BytesSeq(s, ns, vs) + t;
      assert bs == ShapeBytes(s, n, sh) + r;
      HeadIff(s, n, bs, sh, r, L, d);
      SeqBack(s, ns, vs, t, L, d + Level(s, n));
      BuildOf(v);
    }
  }

  lemma AtomBack(s: MarkedSchema, n: Node, v: Value, t: bytes, L: Limits, d: nat)
    requires Valid(s, n, v) && Atom(s, n)
    ensures Parse(s, n, Bytes(s, n, v) + t, L, d, false) == Limited(Fits(s, n, v, L, d), v, t)
  {
    hide ParseHead, AtomOk, AtomBytes;
    HeadIff(s, n, Bytes(s, n, v) + t, AtomShape(v), t, L, d);
  }

  lemma {:induction false} SeqBack(s: MarkedSchema, ns: seq<Node>, vs: seq<Value>, t: bytes, L: Limits, d: nat)
    requires ValidSeq(s, ns, vs) && PlainSeq(s, ns, vs)
    ensures ParseSeq(s, ns, BytesSeq(s, ns, vs) + t, L, d, false) == Limited(FitsSeq(s, ns, vs, L, d), vs, t)
    decreases vs, 0
  {
    hide Parse, Valid, Bytes, Fits, Plain;
    if |vs| > 0 {
      var r := BytesSeq(s, ns[1..], vs[1..]) + t;
      assert BytesSeq(s, ns, vs) + t == Bytes(s, ns[0], vs[0]) + r;
      DecodeBack(s, ns[0], vs[0], r, L, d);
      SeqBack(s, ns[1..], vs[1..], t, L, d);
      assert vs == [vs[0]] + vs[1..];
    } else {
      assert BytesSeq(s, ns, vs) + t == t;
    }
  }

  /** Looser limits and fewer open levels admit at least as much. */
  lemma {:induction false} FitsRelax(s: Schema, n: Node, v: Value, L: Limits, d: nat, L': Limits, d': nat)
    requires Valid(s, n, v) && Fits(s, n, v, L, d) && L'.Relaxes(L) && d' <= d
    ensures Fits(s, n, v, L', d')
    decreases v
  {
    hide ShapeOk, ShapeFits, Children, Atom, AtomOk, AtomBytes, ChecksOk, ChecksOf, Level;
    if Closed(s, n, v) {
      ClosedRelax(s, n, v, L, d, L', d');
    } else {
      var k := Level(s, n);
      ShapeFitsRelax(s, n, ShapeOf(v), L, d, L', d');
      FitsSeqRelax(s, Children(s, n, ShapeOf(v)), v.Parts(), L, d + k, L', d' + k);
    }
  }

  lemma ClosedRelax(s: Schema, n: Node, v: Value, L: Limits, d: nat, L': Limits, d': nat)
    requires Valid(s, n, v) && Closed(s, n, v) && Fits(s, n, v, L, d) && L'.Relaxes(L) && d' <= d
    ensures Fits(s, n, v, L', d')
  {
    hide ShapeFits, Children;
    ShapeFitsRelax(s, n, AtomShape(v), L, d, L', d');
  }

  lemma ShapeFitsRelax(s: Schema, n: Node, sh: Shape, L: Limits, d: nat, L': Limits, d': nat)
    requires ShapeOk(s, n, sh) && ShapeFits(s, n, sh, L, d) && L'.Relaxes(L) && d' <= d
    ensures ShapeFits(s, n, sh, L', d')
  {
    hide ShapeOk;
  }

  lemma {:induction false} FitsSeqRelax(s: Schema, ns: seq<Node>, vs: seq<Value>, L: Limits, d: nat, L': Limits, d': nat)
    requires ValidSeq(s, ns, vs) && FitsSeq(s, ns, vs, L, d) && L'.Relaxes(L) && d' <= d
    ensures FitsSeq(s, ns, vs, L', d')
    decreases vs
  {
    hide Valid, Fits;
    if |vs| > 0 {
      FitsRelax(s, ns[0], vs[0], L, d, L', d');
      FitsSeqRelax(s, ns[1..], vs[1..], L, d, L', d');
    }
  }

  // ---- relaxing limits ----

  /** Relaxing the limits cannot change a parse, only let through what broke a limit. */
  lemma {:induction false} ParseRelax(s: MarkedSchema, n: Node, bs: bytes, L: Limits, L': Limits, d: nat, lazy: bool)
    requires L'.Relaxes(L)
    ensures Parse(s, n, bs, L, d, lazy) == Fail(LimitExceeded) || Parse(s, n, bs, L', d, lazy) == Parse(s, n, bs, L, d, lazy)
    decreases Room(L, d), NodeRank(s, n), Size(n), 0
  {
    hide ParseHead, ShapeOk, ShapeFits, ShapeBytes, Children, Finish, Build, Atom, NodeRank, SeqRank, Size, SeqSize, Level;
    HeadRelax(s, n, bs, L, L', d);
    var p := ParseHead(s, n, bs, L, d);
    if p.Ok? && !Atom(s, n) {
      HeadIff(s, n, bs, p.value, p.rest, L, d);
      HeadIff(s, n, bs, p.value, p.rest, L', d);
      ChildrenMeasure(s, n, p.value, L, d);
      SeqRelax(s, Children(s, n, p.value), p.rest, L, L', d + Level(s, n), lazy);
      FinishFail(s, n, p.value, p.rest, lazy);
    }
  }

  lemma FinishFail(s: Schema, n: Node, sh: Shape, start: bytes, lazy: bool)
    ensures Finish(s, n, sh, start, Fail(LimitExceeded), lazy) == Fail(LimitExceeded)
  {
  }

  lemma {:induction false} SeqRelax(s: MarkedSchema, ns: seq<Node>, bs: bytes, L: Limits, L': Limits, d: nat, lazy: bool)
    requires L'.Relaxes(L)
    ensures ParseSeq(s, ns, bs, L, d, lazy) == Fail(LimitExceeded) || ParseSeq(s, ns, bs, L', d, lazy) == ParseSeq(s, ns, bs, L, d, lazy)
    decreases Room(L, d), SeqRank(s, ns), SeqSize(ns), |ns|
  {
    hide Parse;
    if |ns| > 0 {
      ParseRelax(s, ns[0], bs, L, L', d, lazy);
      var p := Parse(s, ns[0], bs, L, d, lazy);
      if p.Ok? { SeqRelax(s, ns[1..], p.rest, L, L', d, lazy); }
    }
  }
}
