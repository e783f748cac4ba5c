/**
 When one schema accepts everything another does: shapes that agree up to a
 relation between type names, with bounds that are no tighter.
 */
module Simulation {
  import opened Wire
  import opened Integers
  import opened Values
  import opened Leaves
  import opened Schemas
  import opened Shapes
  import opened Meaning

  type Rel = iset<(string, string)>

  // ---- the same shape, bounds aside ----

  predicate SameLeaf(l: Leaf, m: Leaf) {
    match l
    case BoolLeaf => m.BoolLeaf?
    case IntLeaf(k, _, _) => m.IntLeaf? && m.kind == k
    case FloatLeaf(size) => m == l
    case UuidLeaf => m.UuidLeaf?
    case StringLeaf(_, _, _) => m.StringLeaf?
    case BytesLeaf(_, _) => m.BytesLeaf?
    case BitsetLeaf(_) => m == l
    case IngredientLeaf => m.IngredientLeaf?
  }

  ghost predicate SameShape(rel: Rel, a: Node, b: Node) {
    match a
    case LeafNode(l) => b.LeafNode? && SameLeaf(l, b.leaf)
    case ListNode(p, e, _, _) => b.ListNode? && b.prefix == p && SameShape(rel, e, b.element)
    case EntryNode(k, x) => b.EntryNode? && SameShape(rel, k, b.key) && SameShape(rel, x, b.value)
    case FixedNode(len, e) => b.FixedNode? && b.len == len && SameShape(rel, e, b.element)
    case OptionalNode(x) => b.OptionalNode? && SameShape(rel, x, b.inner)
    case RefNode(r, _) => b.RefNode? && (r, b.ref) in rel
  }

  ghost predicate SameFields(rel: Rel, a: seq<Field>, b: seq<Field>) {
    |a| == |b| && forall i :: 0 <= i < |a| ==> SameField(rel, a[i], b[i])
  }

  ghost predicate SameField(rel: Rel, a: Field, b: Field) {
    a.name == b.name && SameShape(rel, a.node, b.node)
  }

  ghost predicate SameVariants(rel: Rel, a: seq<Variant>, b: seq<Variant>) {
    |a| == |b| && forall i :: 0 <= i < |a| ==> SameVariant(rel, a[i], b[i])
  }

  ghost predicate SameVariant(rel: Rel, a: Variant, b: Variant) {
    a.value == b.value && a.payload.Some? == b.payload.Some?
    && (a.payload.Some? ==> SameShape(rel, a.payload.value, b.payload.value))
  }

  ghost predicate SameType(rel: Rel, a: TypeDef, b: TypeDef) {
    match a
    case Struct(fields, _) => b.Struct? && SameFields(rel, fields, b.fields)
    case Enum(repr, _) => b.Enum? && b.repr == repr
    case Union(repr, variants) => b.Union? && b.repr == repr && SameVariants(rel, variants, b.variants)
  }

  // ---- bounds that are no tighter ----

  predicate LowerOk(a: Option<int>, b: Option<int>) { b.None? || (a.Some? && b.value <= a.value) }

  predicate UpperOk(a: Option<int>, b: Option<int>) { b.None? || (a.Some? && a.value <= b.value) }

  predicate MinOk(a: Option<nat>, b: Option<nat>) { b.None? || (a.Some? && b.value <= a.value) }

  predicate MaxOk(a: Option<nat>, b: Option<nat>) { b.None? || (a.Some? && a.value <= b.value) }

  predicate AllowedOk(a: seq<int>, b: seq<int>) {
    |b| == 0 || (|a| > 0 && forall x :: x in a ==> x in b)
  }

  predicate LeafNoTighter(l: Leaf, m: Leaf) {
    match l
    case IntLeaf(_, min, max) => m.IntLeaf? && LowerOk(min, m.min) && UpperOk(max, m.max)
    case StringLeaf(minLen, maxLen, pattern) =>
      m.StringLeaf? && MinOk(minLen, m.minLen) && MaxOk(maxLen, m.maxLen) && (m.pattern.None? || m.pattern == pattern)
    case BytesLeaf(minLen, maxLen) => m.BytesLeaf? && MinOk(minLen, m.minLen) && MaxOk(maxLen, m.maxLen)
    case _ => true
  }

  /** `b` accepts whatever `a` accepts as far as bounds go. */
  predicate NoTighter(a: Node, b: Node) {
    match a
    case LeafNode(l) => b.LeafNode? && LeafNoTighter(l, b.leaf)
    case ListNode(_, e, minItems, maxItems) =>
      b.ListNode? && MinOk(minItems, b.minItems) && MaxOk(maxItems, b.maxItems) && NoTighter(e, b.element)
    case EntryNode(k, x) => b.EntryNode? && NoTighter(k, b.key) && NoTighter(x, b.value)
    case FixedNode(_, e) => b.FixedNode? && NoTighter(e, b.element)
    case OptionalNode(x) => b.OptionalNode? && NoTighter(x, b.inner)
    case RefNode(_, allowed) => b.RefNode? && AllowedOk(allowed, b.allowed)
  }

  predicate TypeNoTighter(a: TypeDef, b: TypeDef) {
    match a
    case Struct(fields, _) =>
      && b.Struct? && |fields| == |b.fields| && |b.checks| == 0
      && forall i :: 0 <= i < |fields| ==> NoTighter(fields[i].node, b.fields[i].node)
    case Enum(_, _) => b.Enum?
    case Union(_, variants) =>
      && b.Union? && |variants| == |b.variants|
      && forall i :: 0 <= i < |variants| ==> PayloadNoTighter(variants[i], b.variants[i])
  }

  predicate PayloadNoTighter(a: Variant, b: Variant) {
    a.payload.Some? ==> b.payload.Some? && NoTighter(a.payload.value, b.payload.value)
  }

  /** Every type of `s` is stood for by the types of `t` it is related to. */
  ghost predicate Simulates(rel: Rel, s: Schema, t: Schema) {
    forall x, y :: (x, y) in rel && x in s.types ==>
      y in t.types && SameType(rel, s.types[x], t.types[y]) && TypeNoTighter(s.types[x], t.types[y])
  }

  // ---- what a schema accepts, a looser one accepts in the same bytes ----

  /** `b` in `t` accepts a value of `a` in `s`, with the same bytes. */
  predicate Carries(s: Schema, a: Node, t: Schema, b: Node, v: Value)
    requires Valid(s, a, v)
  {
    Valid(t, b, v) && Bytes(t, b, v) == Bytes(s, a, v)
  }

  lemma {:induction false} Carried(rel: Rel, s: Schema, a: Node, t: Schema, b: Node, v: Value)
    requires Simulates(rel, s, t) && SameShape(rel, a, b) && NoTighter(a, b) && Valid(s, a, v)
    ensures Carries(s, a, t, b, v)
    decreases v
  {
    hide SameShape, NoTighter, Simulates, ShapeOk, ShapeBytes, Children, ChecksOk, ChecksOf, AtomOk, AtomBytes;
    if a.RefNode? { ValidResolves(s, a, v); }
    AtomsCarried(rel, s, a, t, b);
    if Atom(s, a) {
      AtomCarried(rel, s, a, t, b, v);
    } else {
      var sh := ShapeOf(v);
      ShapeCarried(rel, s, a, t, b, sh);
      if v.VWire? {
        KeptCarried(rel, s, a, t, b, v);
      } else {
        SeqCarried(rel, s, Children(s, a, sh), t, Children(t, b, sh), v.Parts());
        ChecksCarried(rel, s, a, t, b, v.Parts());
      }
    }
  }

  lemma ValidResolves(s: Schema, a: Node, v: Value)
    requires Valid(s, a, v) && a.RefNode?
    ensures a.ref in s.types
  {
  }

  lemma AtomsCarried(rel: Rel, s: Schema, a: Node, t: Schema, b: Node)
    requires Simulates(rel, s, t) && SameShape(rel, a, b) && (a.RefNode? ==> a.ref in s.types)
    ensures Atom(s, a) == Atom(t, b)
  {
    hide SameFields, SameVariants, TypeNoTighter;
  }

  lemma AtomCarried(rel: Rel, s: Schema, a: Node, t: Schema, b: Node, v: Value)
    requires Simulates(rel, s, t) && SameShape(rel, a, b) && NoTighter(a, b)
    requires Atom(s, a) && Atom(t, b) && AtomOk(s, a, v)
    ensures AtomOk(t, b, v) && AtomBytes(t, b, v) == AtomBytes(s, a, v)
  {
    hide InRange, IntBytes, IngredientValid, IngredientBytes, StringOk;
  }

  ghost predicate Pointwise(rel: Rel, ns: seq<Node>, ms: seq<Node>) {
    |ns| == |ms| && forall i :: 0 <= i < |ns| ==> SameShape(rel, ns[i], ms[i]) && NoTighter(ns[i], ms[i])
  }

  lemma ShapeCarried(rel: Rel, s: Schema, a: Node, t: Schema, b: Node, sh: Shape)
    requires Simulates(rel, s, t) && SameShape(rel, a, b) && NoTighter(a, b)
    requires !Atom(s, a) && !Atom(t, b) && ShapeOk(s, a, sh)
    ensures ShapeOk(t, b, sh) && ShapeBytes(t, b, sh) == ShapeBytes(s, a, sh)
    ensures Pointwise(rel, Children(s, a, sh), Children(t, b, sh))
  {
    hide InRange, IntBytes;
    match a
    case LeafNode(_) =>
    case ListNode(_, _, _, _) =>
    case EntryNode(_, _) =>
    case FixedNode(_, _) =>
    case OptionalNode(_) =>
    case RefNode(r, _) =>
      if s.types[r].Struct? { FieldsCarried(rel, s.types[r].fields, t.types[b.ref].fields); }
      if s.types[r].Union? { VariantCarried(rel, s.types[r].variants, t.types[b.ref].variants, sh.tag); }
  }

  lemma FieldsCarried(rel: Rel, a: seq<Field>, b: seq<Field>)
    requires SameFields(rel, a, b) && forall i :: 0 <= i < |a| ==> NoTighter(a[i].node, b[i].node)
    ensures Pointwise(rel, FieldNodes(a), FieldNodes(b))
  {
    forall i | 0 <= i < |a| ensures SameShape(rel, FieldNodes(a)[i], FieldNodes(b)[i]) {
      assert SameField(rel, a[i], b[i]);
    }
  }

  lemma {:induction false} VariantCarried(rel: Rel, a: seq<Variant>, b: seq<Variant>, tag: int)
    requires SameVariants(rel, a, b) && forall i :: 0 <= i < |a| ==> PayloadNoTighter(a[i], b[i])
    requires FindVariant(a, tag).Some?
    ensures FindVariant(b, tag).Some?
    ensures Pointwise(rel, PayloadNodes(FindVariant(a, tag).value), PayloadNodes(FindVariant(b, tag).value))
  {
    assert SameVariant(rel, a[0], b[0]) && PayloadNoTighter(a[0], b[0]);
    if a[0].value != tag {
      forall i | 0 <= i < |a[1..]| ensures SameVariant(rel, a[1..][i], b[1..][i]) && PayloadNoTighter(a[1..][i], b[1..][i]) {
        var j := i + 1;
        assert SameVariant(rel, a[j], b[j]) && PayloadNoTighter(a[j], b[j]);
      }
      VariantCarried(rel, a[1..], b[1..], tag);
    }
  }

  lemma KeptCarried(rel: Rel, s: Schema, a: Node, t: Schema, b: Node, v: Value)
    requires Simulates(rel, s, t) && SameShape(rel, a, b) && NoTighter(a, b)
    requires v.VWire? && !Atom(s, a) && !Atom(t, b) && Valid(s, a, v)
    ensures Carries(s, a, t, b, v)
  {
    hide Simulates, Children;
  }

  lemma ChecksCarried(rel: Rel, s: Schema, a: Node, t: Schema, b: Node, vs: seq<Value>)
    requires Simulates(rel, s, t) && SameShape(rel, a, b) && (a.RefNode? ==> a.ref in s.types)
    ensures ChecksOk(ChecksOf(t, b), vs)
  {
    hide SameFields, SameVariants;
  }

  lemma {:induction false} SeqCarried(rel: Rel, s: Schema, ns: seq<Node>, t: Schema, ms: seq<Node>, vs: seq<Value>)
    requires Simulates(rel, s, t) && Pointwise(rel, ns, ms) && ValidSeq(s, ns, vs)
    ensures ValidSeq(t, ms, vs) && BytesSeq(t, ms, vs) == BytesSeq(s, ns, vs)
    decreases vs
  {
    hide Simulates, SameShape, NoTighter, Valid, Bytes;
    if |vs| > 0 && |ns| > 0 {
      Carried(rel, s, ns[0], t, ms[0], vs[0]);
      SeqCarried(rel, s, ns[1..], t, ms[1..], vs[1..]);
    }
  }
}
