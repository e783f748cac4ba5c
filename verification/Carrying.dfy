/** What a looser schema decodes from bytes another schema decodes: nesting is the only limit that can differ. */
module Carrying {
  import opened Wire
  import opened Values
  import opened Leaves
  import opened Schemas
  import opened Shapes
  import opened Meaning
  import opened Parser
  import opened Codec
  import opened Lazy
  import opened Guarantees
  import opened Simulation

  /** The length limits of `L'` are at least those of `L`. */
  predicate LongerThan(L': Limits, L: Limits) {
    && L.maxStringBytes <= L'.maxStringBytes && L.maxByteArrayBytes <= L'.maxByteArrayBytes
    && L.maxArrayElements <= L'.maxArrayElements
  }

  lemma AtomFitsCarried(rel: Rel, s: Schema, a: Node, t: Schema, b: Node, v: Value, L: Limits, d: nat, L': Limits, d': nat)
    requires Simulates(rel, s, t) && SameShape(rel, a, b) && LongerThan(L', L)
    requires Atom(s, a) && Atom(t, b) && AtomOk(s, a, v) && AtomOk(t, b, v) && ShapeFits(s, a, AtomShape(v), L, d)
    ensures ShapeFits(t, b, AtomShape(v), L', d')
  {
    hide LeafValid, Simulates;
  }

  lemma ShapeFitsCarried(s: Schema, a: Node, t: Schema, b: Node, sh: Shape, L: Limits, d: nat, L': Limits, d': nat)
    requires !Atom(s, a) && !Atom(t, b) && LongerThan(L', L)
    requires ShapeOk(s, a, sh) && ShapeOk(t, b, sh) && ShapeFits(s, a, sh, L, d) && d' + Level(t, b) <= L'.maxNestingDepth
    ensures ShapeFits(t, b, sh, L', d')
  {
  }

  /** Lengths that fitted still fit, and enough levels for the looser schema are enough. */
  lemma {:induction false} FitsCarried(rel: Rel, s: Schema, a: Node, t: Schema, b: Node, v: Value, L: Limits, d: nat, L': Limits, d': nat)
    requires Simulates(rel, s, t) && SameShape(rel, a, b) && NoTighter(a, b) && LongerThan(L', L)
    requires Valid(s, a, v) && Fits(s, a, v, L, d) && Valid(t, b, v) && d' + Nest(t, b, v) <= L'.maxNestingDepth
    ensures Fits(t, b, v, L', d')
    decreases v
  {
    hide SameShape, NoTighter, Simulates, ShapeOk, ShapeBytes, Children, ChecksOk, ChecksOf, AtomOk, AtomBytes, ShapeFits, Level,
      LongerThan;
    if a.RefNode? { ValidResolves(s, a, v); }
    AtomsCarried(rel, s, a, t, b);
    if Atom(s, a) {
      AtomFitsCarried(rel, s, a, t, b, v, L, d, L', d');
    } else {
      var sh := ShapeOf(v);
      ShapeCarried(rel, s, a, t, b, sh);
      ShapeFitsCarried(s, a, t, b, sh, L, d, L', d');
      SeqFitsCarried(rel, s, Children(s, a, sh), t, Children(t, b, sh), v.Parts(), L, d + Level(s, a), L', d' + Level(t, b));
    }
  }

  lemma {:induction false} SeqFitsCarried(
    rel: Rel, s: Schema, ns: seq<Node>, t: Schema, ms: seq<Node>, vs: seq<Value>, L: Limits, d: nat, L': Limits, d': nat)
    requires Simulates(rel, s, t) && Pointwise(rel, ns, ms) && LongerThan(L', L)
    requires ValidSeq(s, ns, vs) && FitsSeq(s, ns, vs, L, d) && ValidSeq(t, ms, vs) && d' + NestSeq(t, ms, vs) <= L'.maxNestingDepth
    ensures FitsSeq(t, ms, vs, L', d')
    decreases vs
  {
    hide Simulates, SameShape, NoTighter, Valid, Fits, Nest, LongerThan;
    if |vs| > 0 {
      FitsCarried(rel, s, ns[0], t, ms[0], vs[0], L, d, L', d');
      SeqFitsCarried(rel, s, ns[1..], t, ms[1..], vs[1..], L, d, L', d');
    }
  }

  /**
   Whatever bytes one schema decodes, the other decodes to the same value and the
   same rest, eagerly and keeping list bytes, except that it fails with
   LimitExceeded exactly when its own count of the value's nesting exceeds the limit.
   */
  predicate DecodesAlike(
    s: MarkedSchema, a: Node, L: Limits, d: nat, t: MarkedSchema, b: Node, L': Limits, d': nat, bs: bytes)
  {
    match Parse(s, a, bs, L, d, false)
    case Fail(_) => true
    case Ok(v, rest) =>
      && Valid(s, a, v) && Valid(t, b, v) && Bytes(t, b, v) == Bytes(s, a, v)
      && var fits := d' + Nest(t, b, v) <= L'.maxNestingDepth;
      && Parse(t, b, bs, L', d', false) == Limited(fits, v, rest)
      && var kept := Parse(t, b, bs, L', d', true);
      if fits then kept.Ok? && kept.rest == rest else kept == Fail(LimitExceeded)
  }

  lemma CarriedDecodes(
    rel: Rel, s: MarkedSchema, a: Node, L: Limits, d: nat, t: MarkedSchema, b: Node, L': Limits, d': nat, bs: bytes)
    requires Simulates(rel, s, t) && SameShape(rel, a, b) && NoTighter(a, b)
    requires L'.Valid() && LongerThan(L', L) && d' <= L'.maxNestingDepth
    ensures DecodesAlike(s, a, L, d, t, b, L', d', bs)
  {
    hide Parse, Valid, Bytes, Plain, Fits, Nest, SameShape, NoTighter, Simulates, Genuine, Logical, LongerThan;
    if Parse(s, a, bs, L, d, false).Ok? {
      DecodeExact(s, a, bs, L, d, false);
      var Ok(v, rest) := Parse(s, a, bs, L, d, false);
      Carried(rel, s, a, t, b, v);
      if d' + Nest(t, b, v) <= L'.maxNestingDepth {
        FitsCarried(rel, s, a, t, b, v, L, d, L', d');
      } else if Fits(t, b, v, L', d') {
        FitsBoundsNest(t, b, v, L', d');
      }
      PlainCarried(rel, s, a, t, b, v);
      DecodeBack(t, b, v, rest, L', d');
      LazyEager(t, b, bs, L', d');
    }
  }

  lemma {:induction false} PlainCarried(rel: Rel, s: Schema, a: Node, t: Schema, b: Node, v: Value)
    requires Simulates(rel, s, t) && SameShape(rel, a, b) && NoTighter(a, b)
    requires Valid(s, a, v) && Plain(s, a, v) && Valid(t, b, v)
    ensures Plain(t, b, v)
    decreases v
  {
    hide SameShape, NoTighter, Simulates, ShapeOk, ShapeBytes, Children, ChecksOk, ChecksOf, AtomOk, AtomBytes;
    if a.RefNode? { ValidResolves(s, a, v); }
    AtomsCarried(rel, s, a, t, b);
    if !Atom(s, a) {
      var sh := ShapeOf(v);
      ShapeCarried(rel, s, a, t, b, sh);
      SeqPlainCarried(rel, s, Children(s, a, sh), t, Children(t, b, sh), v.Parts());
    }
  }

  lemma {:induction false} SeqPlainCarried(rel: Rel, s: Schema, ns: seq<Node>, t: Schema, ms: seq<Node>, vs: seq<Value>)
    requires Simulates(rel, s, t) && Pointwise(rel, ns, ms)
    requires ValidSeq(s, ns, vs) && PlainSeq(s, ns, vs) && ValidSeq(t, ms, vs)
    ensures PlainSeq(t, ms, vs)
    decreases vs
  {
    hide Simulates, SameShape, NoTighter, Valid, Plain;
    if |vs| > 0 {
      PlainCarried(rel, s, ns[0], t, ms[0], vs[0]);
      SeqPlainCarried(rel, s, ns[1..], t, ms[1..], vs[1..]);
    }
  }
}
