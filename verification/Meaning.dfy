/**
 What a schema means, without limits, depth or input: which values a shape has,
 the bytes that stand for each, and what limits admit it. Lists may be items or
 trusted wire bytes; `Plain` values have items only.
 */
module Meaning {
  import opened Wire
  import opened Values
  import opened Schemas
  import opened Shapes
  import Support

  /** The `len` a generated check reads from a field. */
  function LengthOf(v: Value): Option<nat> {
    match v
    case VBytes(raw) => Some(|raw|)
    case VItems(len, _) => Some(len)
    case VWire(len, _) => Some(len)
    case _ => None
  }

  function FactorsOf(positions: seq<nat>, fields: seq<Value>): Option<seq<int>> {
    if |positions| == 0 then Some([])
    else if positions[0] >= |fields| || !fields[positions[0]].VInt? then None
    else match FactorsOf(positions[1..], fields)
      case None => None
      case Some(rest) => Some([fields[positions[0]].n] + rest)
  }

  predicate CheckOk(c: Check, fields: seq<Value>) {
    && c.field < |fields|
    && LengthOf(fields[c.field]).Some?
    && FactorsOf(c.factors, fields).Some?
    && Support.LengthIsProduct(LengthOf(fields[c.field]).value, FactorsOf(c.factors, fields).value, if c.scale == 0 then 1 else c.scale)
  }

  predicate ChecksOk(checks: seq<Check>, fields: seq<Value>) {
    forall i :: 0 <= i < |checks| ==> CheckOk(checks[i], fields)
  }

  /** The checks emitted for a shape; the codec of an empty struct has no body. */
  function ChecksOf(s: Schema, n: Node): seq<Check> {
    if n.RefNode? && n.ref in s.types && s.types[n.ref].Struct? && |s.types[n.ref].fields| > 0 then s.types[n.ref].checks else []
  }

  /** Values whose bytes are written without visiting other values. */
  predicate Closed(s: Schema, n: Node, v: Value) { Atom(s, n) || v.VWire? }

  predicate ClosedOk(s: Schema, n: Node, v: Value)
    requires Closed(s, n, v)
  {
    if Atom(s, n) then AtomOk(s, n, v) else n.ListNode? && ShapeOk(s, n, ListShape(v.len))
  }

  function ClosedBytes(s: Schema, n: Node, v: Value): bytes
    requires Closed(s, n, v) && ClosedOk(s, n, v)
  {
    if Atom(s, n) then AtomBytes(s, n, v) else ShapeBytes(s, n, ListShape(v.len)) + v.wire
  }

  predicate Valid(s: Schema, n: Node, v: Value)
    decreases v
  {
    if Closed(s, n, v) then ClosedOk(s, n, v)
    else
      && v.Open()
      && ShapeOk(s, n, ShapeOf(v))
      && ValidSeq(s, Children(s, n, ShapeOf(v)), v.Parts())
      && ChecksOk(ChecksOf(s, n), v.Parts())
  }

  predicate ValidSeq(s: Schema, ns: seq<Node>, vs: seq<Value>)
    decreases vs
  {
    if |vs| == 0 || |ns| == 0 then |vs| == |ns|
    else Valid(s, ns[0], vs[0]) && ValidSeq(s, ns[1..], vs[1..])
  }

  function Bytes(s: Schema, n: Node, v: Value): bytes
    requires Valid(s, n, v)
    decreases v
  {
    if Closed(s, n, v) then ClosedBytes(s, n, v)
    else ShapeBytes(s, n, ShapeOf(v)) + BytesSeq(s, Children(s, n, ShapeOf(v)), v.Parts())
  }

  function BytesSeq(s: Schema, ns: seq<Node>, vs: seq<Value>): bytes
    requires ValidSeq(s, ns, vs)
    decreases vs
  {
    if |vs| == 0 then [] else Bytes(s, ns[0], vs[0]) + BytesSeq(s, ns[1..], vs[1..])
  }

  /** How many levels of counted nesting encoding a value opens; wire bytes open none. */
  function Nest(s: Schema, n: Node, v: Value): nat
    requires Valid(s, n, v)
    decreases v
  {
    if Closed(s, n, v) then 0
    else Level(s, n) + NestSeq(s, Children(s, n, ShapeOf(v)), v.Parts())
  }

  function NestSeq(s: Schema, ns: seq<Node>, vs: seq<Value>): nat
    requires ValidSeq(s, ns, vs)
    decreases vs
  {
    if |vs| == 0 then 0 else Max(Nest(s, ns[0], vs[0]), NestSeq(s, ns[1..], vs[1..]))
  }

  /** No list of the value is in wire form. */
  predicate Plain(s: Schema, n: Node, v: Value)
    requires Valid(s, n, v)
    decreases v
  {
    if Closed(s, n, v) then Atom(s, n) else PlainSeq(s, Children(s, n, ShapeOf(v)), v.Parts())
  }

  predicate PlainSeq(s: Schema, ns: seq<Node>, vs: seq<Value>)
    requires ValidSeq(s, ns, vs)
    decreases vs
  {
    |vs| == 0 || (Plain(s, ns[0], vs[0]) && PlainSeq(s, ns[1..], vs[1..]))
  }

  /** The limits that let a plain value be decoded when `d` levels are already open. */
  predicate Fits(s: Schema, n: Node, v: Value, L: Limits, d: nat)
    requires Valid(s, n, v)
    decreases v
  {
    if Closed(s, n, v) then Atom(s, n) && ShapeFits(s, n, AtomShape(v), L, d)
    else
      && ShapeFits(s, n, ShapeOf(v), L, d)
      && FitsSeq(s, Children(s, n, ShapeOf(v)), v.Parts(), L, d + Level(s, n))
  }

  predicate FitsSeq(s: Schema, ns: seq<Node>, vs: seq<Value>, L: Limits, d: nat)
    requires ValidSeq(s, ns, vs)
    decreases vs
  {
    |vs| == 0 || (Fits(s, ns[0], vs[0], L, d) && FitsSeq(s, ns[1..], vs[1..], L, d))
  }

  /** Only values without wire bytes fit. */
  lemma {:induction false} FitsPlain(s: Schema, n: Node, v: Value, L: Limits, d: nat)
    requires Valid(s, n, v) && Fits(s, n, v, L, d)
    ensures Plain(s, n, v)
    decreases v
  {
    hide ShapeOk, Children, ShapeFits, Atom, AtomOk, ChecksOk;
    if !Closed(s, n, v) { FitsSeqPlain(s, Children(s, n, ShapeOf(v)), v.Parts(), L, d + Level(s, n)); }
  }

  lemma {:induction false} FitsSeqPlain(s: Schema, ns: seq<Node>, vs: seq<Value>, L: Limits, d: nat)
    requires ValidSeq(s, ns, vs) && FitsSeq(s, ns, vs, L, d)
    ensures PlainSeq(s, ns, vs)
    decreases vs
  {
    if |vs| > 0 {
      FitsPlain(s, ns[0], vs[0], L, d);
      FitsSeqPlain(s, ns[1..], vs[1..], L, d);
    }
  }

  /** The emitted encoder: a value it cannot represent, or nested too deep, is rejected. */
  function Encode(s: Schema, n: Node, v: Value, depth: nat): Option<bytes> {
    if Valid(s, n, v) && depth + Nest(s, n, v) <= MAX_SUPPORTED_DEPTH then Some(Bytes(s, n, v)) else None
  }

  function EncodeSeq(s: Schema, ns: seq<Node>, vs: seq<Value>, d: nat): Option<bytes> {
    if ValidSeq(s, ns, vs) && d + NestSeq(s, ns, vs) <= MAX_SUPPORTED_DEPTH then Some(BytesSeq(s, ns, vs)) else None
  }

  lemma {:induction false} SameLength(s: Schema, ns: seq<Node>, vs: seq<Value>)
    requires ValidSeq(s, ns, vs)
    ensures |ns| == |vs|
    decreases |vs|
  {
    if |vs| > 0 && |ns| > 0 { SameLength(s, ns[1..], vs[1..]); }
  }
}
