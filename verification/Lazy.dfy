/** Lists that keep their bytes: what they stand for, and why reading them again cannot fail. */
module Lazy {
  import opened Wire
  import opened Values
  import opened Schemas
  import opened Shapes
  import opened Meaning
  import opened Parser
  import opened Codec

  /** Reads the elements of a list again, under the relaxed limits and from depth 0. */
  function Reread(s: MarkedSchema, e: Node, len: nat, wire: bytes): Parsed<seq<Value>> {
    ParseSeq(s, Copies(e, len), wire, REVALIDATED, 0, false)
  }

  /** Kept bytes hold exactly `len` readable elements. */
  predicate Rereads(s: MarkedSchema, e: Node, len: nat, wire: bytes) {
    Reread(s, e, len, wire).Ok? && Reread(s, e, len, wire).rest == []
  }

  /** Every list in wire form is as decoding leaves it. */
  predicate Genuine(s: MarkedSchema, n: Node, v: Value)
    requires Valid(s, n, v)
    decreases v
  {
    if Closed(s, n, v) then Atom(s, n) || Rereads(s, n.element, v.len, v.wire)
    else GenuineSeq(s, Children(s, n, ShapeOf(v)), v.Parts())
  }

  predicate GenuineSeq(s: MarkedSchema, ns: seq<Node>, vs: seq<Value>)
    requires ValidSeq(s, ns, vs)
    decreases vs
  {
    |vs| == 0 || (Genuine(s, ns[0], vs[0]) && GenuineSeq(s, ns[1..], vs[1..]))
  }

  /** The logical value: every list as its items. */
  function Logical(s: MarkedSchema, n: Node, v: Value): Value
    requires Valid(s, n, v) && Genuine(s, n, v)
    decreases v
  {
    if Closed(s, n, v) then (if Atom(s, n) then v else VItems(v.len, Reread(s, n.element, v.len, v.wire).value))
    else Build(ShapeOf(v), LogicalSeq(s, Children(s, n, ShapeOf(v)), v.Parts()))
  }

  function LogicalSeq(s: MarkedSchema, ns: seq<Node>, vs: seq<Value>): (ws: seq<Value>)
    requires ValidSeq(s, ns, vs) && GenuineSeq(s, ns, vs)
    ensures |ws| == |vs|
    decreases vs
  {
    if |vs| == 0 then [] else [Logical(s, ns[0], vs[0])] + LogicalSeq(s, ns[1..], vs[1..])
  }

  // ---- generated checks see the same fields either way ----

  /** Two values a generated check cannot tell apart. */
  predicate SameToChecks(v: Value, w: Value) {
    LengthOf(v) == LengthOf(w) && (v.VInt? <==> w.VInt?) && (v.VInt? ==> v == w)
  }

  predicate SameToChecksSeq(vs: seq<Value>, ws: seq<Value>) {
    |vs| == |ws| && forall i :: 0 <= i < |vs| ==> SameToChecks(vs[i], ws[i])
  }

  lemma {:induction false} FactorsAgree(positions: seq<nat>, vs: seq<Value>, ws: seq<Value>)
    requires SameToChecksSeq(vs, ws)
    ensures FactorsOf(positions, vs) == FactorsOf(positions, ws)
  {
    if |positions| > 0 { FactorsAgree(positions[1..], vs, ws); }
  }

  lemma ChecksAgree(checks: seq<Check>, vs: seq<Value>, ws: seq<Value>)
    requires SameToChecksSeq(vs, ws)
    ensures ChecksOk(checks, vs) == ChecksOk(checks, ws)
  {
    forall i | 0 <= i < |checks| ensures CheckOk(checks[i], vs) == CheckOk(checks[i], ws) {
      FactorsAgree(checks[i].factors, vs, ws);
    }
  }

  lemma SameToChecksCons(v: Value, vs: seq<Value>, w: Value, ws: seq<Value>)
    requires SameToChecks(v, w) && SameToChecksSeq(vs, ws)
    ensures SameToChecksSeq([v] + vs, [w] + ws)
  {
  }

  // ---- trusted bytes are the bytes of the logical value ----

  /** `w` is an all-items value with the same bytes as `v`. */
  predicate Unfolds(s: Schema, n: Node, v: Value, w: Value)
    requires Valid(s, n, v)
  {
    Valid(s, n, w) && Plain(s, n, w) && Bytes(s, n, w) == Bytes(s, n, v) && SameToChecks(v, w)
  }

  predicate UnfoldsSeq(s: Schema, ns: seq<Node>, vs: seq<Value>, ws: seq<Value>)
    requires ValidSeq(s, ns, vs)
  {
    ValidSeq(s, ns, ws) && PlainSeq(s, ns, ws) && BytesSeq(s, ns, ws) == BytesSeq(s, ns, vs) && SameToChecksSeq(vs, ws)
  }

  /**
   A genuine value and its logical value are both valid and have the same bytes,
   so trusting kept bytes when encoding loses nothing.
   */
  lemma {:induction false} LogicalSame(s: MarkedSchema, n: Node, v: Value)
    requires Valid(s, n, v) && Genuine(s, n, v)
    ensures Unfolds(s, n, v, Logical(s, n, v))
    decreases v
  {
    hide UnfoldsSeq, ShapeOk, Children, ChecksOk, ChecksOf, AtomOk;
    if !Closed(s, n, v) {
      LogicalSameSeq(s, Children(s, n, ShapeOf(v)), v.Parts());
      OpenUnfolds(s, n, v, LogicalSeq(s, Children(s, n, ShapeOf(v)), v.Parts()));
    } else if !Atom(s, n) {
      KeptUnfolds(s, n, v);
    }
  }

  lemma OpenUnfolds(s: Schema, n: Node, v: Value, ws: seq<Value>)
    requires Valid(s, n, v) && !Closed(s, n, v)
    requires UnfoldsSeq(s, Children(s, n, ShapeOf(v)), v.Parts(), ws)
    ensures Unfolds(s, n, v, Build(ShapeOf(v), ws))
  {
    hide ChecksOk, ChecksOf, ValidSeq, BytesSeq, PlainSeq, ShapeBytes, Children, Atom;
    var sh := ShapeOf(v);
    SameLength(s, Children(s, n, sh), ws);
    ChecksAgree(ChecksOf(s, n), v.Parts(), ws);
    ShapeOfBuild(s, n, sh, ws);
  }

  lemma KeptUnfolds(s: MarkedSchema, n: Node, v: Value)
    requires Valid(s, n, v) && v.VWire? && !Atom(s, n) && Rereads(s, n.element, v.len, v.wire)
    ensures Unfolds(s, n, v, VItems(v.len, Reread(s, n.element, v.len, v.wire).value))
  {
    hide ParseSeq, BytesSeq, ValidSeq, PlainSeq, FitsSeq;
    RereadBytes(s, n.element, v.len, v.wire);
    NoChecks(Reread(s, n.element, v.len, v.wire).value);
  }

  lemma NoChecks(vs: seq<Value>)
    ensures ChecksOk([], vs)
  {
  }

  lemma RereadBytes(s: MarkedSchema, e: Node, len: nat, wire: bytes)
    requires Rereads(s, e, len, wire)
    ensures var ns, ws := Copies(e, len), Reread(s, e, len, wire).value;
      |ws| == len && ValidSeq(s, ns, ws) && PlainSeq(s, ns, ws) && BytesSeq(s, ns, ws) == wire
  {
    SeqExact(s, Copies(e, len), wire, REVALIDATED, 0, false);
    SameLength(s, Copies(e, len), Reread(s, e, len, wire).value);
  }

  lemma {:induction false} LogicalSameSeq(s: MarkedSchema, ns: seq<Node>, vs: seq<Value>)
    requires ValidSeq(s, ns, vs) && GenuineSeq(s, ns, vs)
    ensures UnfoldsSeq(s, ns, vs, LogicalSeq(s, ns, vs))
    decreases vs
  {
    hide Valid, Bytes, Plain, Genuine, Logical, SameToChecks, SameToChecksSeq;
    if |vs| > 0 {
      LogicalSame(s, ns[0], vs[0]);
      LogicalSameSeq(s, ns[1..], vs[1..]);
      var w, ws := Logical(s, ns[0], vs[0]), LogicalSeq(s, ns[1..], vs[1..]);
      assert ([w] + ws)[1..] == ws;
      assert vs == [vs[0]] + vs[1..];
      SameToChecksCons(vs[0], vs[1..], w, ws);
    } else {
      NothingToCheck(vs, LogicalSeq(s, ns, vs));
    }
  }

  lemma NothingToCheck(vs: seq<Value>, ws: seq<Value>)
    requires |vs| == |ws| == 0
    ensures SameToChecksSeq(vs, ws)
  {
  }

  // ---- a lazy decode is an eager decode that keeps bytes ----

  /** How the two decoders relate on one input. */
  predicate Agree(s: MarkedSchema, n: Node, lazy: Parsed<Value>, eager: Parsed<Value>) {
    match lazy
    case Fail(e) => eager == Fail(e)
    case Ok(v, rest) => Valid(s, n, v) && Genuine(s, n, v) && eager == Ok(Logical(s, n, v), rest)
  }

  predicate AgreeSeq(s: MarkedSchema, ns: seq<Node>, lazy: Parsed<seq<Value>>, eager: Parsed<seq<Value>>) {
    match lazy
    case Fail(e) => eager == Fail(e)
    case Ok(vs, rest) => ValidSeq(s, ns, vs) && GenuineSeq(s, ns, vs) && eager == Ok(LogicalSeq(s, ns, vs), rest)
  }

  /**
   Keeping bytes changes no outcome: under any valid limits the lazy decoder
   accepts the same inputs, stops at the same byte, fails with the same error,
   and its value stands for the eager decoder's value. In particular the bytes
   every list keeps can be read again.
   */
  lemma {:induction false} LazyEager(s: MarkedSchema, n: Node, bs: bytes, L: Limits, d: nat)
    requires L.Valid()
    ensures Agree(s, n, Parse(s, n, bs, L, d, true), Parse(s, n, bs, L, d, false))
    decreases Room(L, d), NodeRank(s, n), Size(n), 0
  {
    hide ParseHead, ShapeOk, ShapeFits, ShapeBytes, Children, Finish, Atom, Agree, AgreeSeq,
      NodeRank, SeqRank, Size, SeqSize, Level;
    var p := ParseHead(s, n, bs, L, d);
    if p.Ok? {
      var sh, r := p.value, p.rest;
      HeadIff(s, n, bs, sh, r, L, d);
      if Atom(s, n) {
        AtomAgree(s, n, bs, L, d, sh, r);
      } else {
        ChildrenMeasure(s, n, sh, L, d);
        LazyEagerSeq(s, Children(s, n, sh), r, L, d + Level(s, n));
        FinishAgree(s, n, sh, r, L, d + Level(s, n));
      }
    } else {
      FailAgree(s, n, p.error);
    }
  }

  lemma FailAgree(s: MarkedSchema, n: Node, e: DecodeError)
    ensures Agree(s, n, Fail(e), Fail(e))
  {
  }

  lemma AtomAgree(s: MarkedSchema, n: Node, bs: bytes, L: Limits, d: nat, sh: Shape, r: bytes)
    requires Atom(s, n) && ShapeOk(s, n, sh)
    ensures Agree(s, n, Ok(Build(sh, []), r), Ok(Build(sh, []), r))
  {
    hide AtomOk;
  }

  lemma FinishAgree(s: MarkedSchema, n: Node, sh: Shape, r: bytes, L: Limits, d: nat)
    requires L.Valid() && !Atom(s, n) && ShapeOk(s, n, sh)
    requires var ns := Children(s, n, sh); AgreeSeq(s, ns, ParseSeq(s, ns, r, L, d, true), ParseSeq(s, ns, r, L, d, false))
    ensures var ns := Children(s, n, sh);
      Agree(s, n, Finish(s, n, sh, r, ParseSeq(s, ns, r, L, d, true), true), Finish(s, n, sh, r, ParseSeq(s, ns, r, L, d, false), false))
  {
    hide Agree, Children, ParseSeq, ChecksOk, ChecksOf, ShapeOk, Atom, ValidSeq, GenuineSeq, LogicalSeq, Build;
    var ns := Children(s, n, sh);
    var p := ParseSeq(s, ns, r, L, d, true);
    if p.Fail? {
      FailAgree(s, n, p.error);
    } else {
      var vs := p.value;
      var ws := LogicalSeq(s, ns, vs);
      LogicalSameSeq(s, ns, vs);
      ChecksAgree(ChecksOf(s, n), vs, ws);
      if !ChecksOk(ChecksOf(s, n), vs) {
        FailAgree(s, n, InvalidValue);
      } else if sh.ListShape? {
        KeptAgree(s, n, sh, r, ws, p.rest, L, d);
      } else {
        BuiltAgree(s, n, sh, vs, p.rest);
      }
    }
  }

  lemma BuiltAgree(s: MarkedSchema, n: Node, sh: Shape, vs: seq<Value>, rest: bytes)
    requires !Atom(s, n) && ShapeOk(s, n, sh) && ValidSeq(s, Children(s, n, sh), vs) && GenuineSeq(s, Children(s, n, sh), vs)
    requires ChecksOk(ChecksOf(s, n), vs) && !sh.ListShape?
    ensures Agree(s, n, Ok(Build(sh, vs), rest), Ok(Build(sh, LogicalSeq(s, Children(s, n, sh), vs)), rest))
  {
    hide ChecksOk, ChecksOf, ValidSeq, GenuineSeq, LogicalSeq, Children, ShapeOk, Build;
    SameLength(s, Children(s, n, sh), vs);
    ShapeOfBuild(s, n, sh, vs);
  }

  /** The bytes a list keeps read back, from depth 0 and under the relaxed limits, to its elements. */
  lemma KeptAgree(s: MarkedSchema, n: Node, sh: Shape, r: bytes, ws: seq<Value>, rest: bytes, L: Limits, d: nat)
    requires L.Valid() && !Atom(s, n) && ShapeOk(s, n, sh) && sh.ListShape?
    requires ParseSeq(s, Children(s, n, sh), r, L, d, false) == Ok(ws, rest)
    ensures Agree(s, n, Ok(VWire(sh.count, Consumed(r, rest)), rest), Ok(Build(sh, ws), rest))
  {
    hide ParseSeq, ValidSeq, PlainSeq, BytesSeq, NestSeq, FitsSeq;
    var ns := Children(s, n, sh);
    SeqExact(s, ns, r, L, d, false);
    var wire := Consumed(r, rest);
    assert wire == BytesSeq(s, ns, ws);
    FitsSeqRelax(s, ns, ws, L, d, REVALIDATED, 0);
    SeqBack(s, ns, ws, [], REVALIDATED, 0);
    assert wire + [] == wire;
    assert Rereads(s, n.element, sh.count, wire);
  }

  lemma {:induction false} LazyEagerSeq(s: MarkedSchema, ns: seq<Node>, bs: bytes, L: Limits, d: nat)
    requires L.Valid()
    ensures AgreeSeq(s, ns, ParseSeq(s, ns, bs, L, d, true), ParseSeq(s, ns, bs, L, d, false))
    decreases Room(L, d), SeqRank(s, ns), SeqSize(ns), |ns|
  {
    hide Parse, Valid, Genuine, Logical;
    if |ns| > 0 {
      LazyEager(s, ns[0], bs, L, d);
      var p := Parse(s, ns[0], bs, L, d, true);
      if p.Ok? {
        LazyEagerSeq(s, ns[1..], p.rest, L, d);
        var q := ParseSeq(s, ns[1..], p.rest, L, d, true);
        if q.Ok? {
          assert ([p.value] + q.value)[1..] == q.value;
        }
      }
    }
  }
}
