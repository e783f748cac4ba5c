/** Absorbing a whole type definition into another of the same wire shape. */
module Absorbing {
  import opened Wire
  import opened Schemas
  import opened Simulation
  import opened Merging
  import EnumNames
  import opened Integers

  /** What absorbing assumes of its operands: no field or payload of the first is missing from the second. */
  predicate Absorbable(a: TypeDef, b: TypeDef) {
    match b
    case Struct(fields, _) => a.Struct? && |a.fields| <= |fields|
    case Enum(_, _) => a.Enum?
    case Union(_, variants) =>
      && a.Union? && |a.variants| <= |variants|
      && forall i :: 0 <= i < |a.variants| ==> (variants[i].payload.Some? ==> a.variants[i].payload.Some?)
  }

  function AbsorbFields(a: seq<Field>, b: seq<Field>): seq<Field>
    requires |a| <= |b|
  {
    seq(|a|, i requires 0 <= i < |a| => Field(a[i].name, Intersect(a[i].node, b[i].node)))
  }

  function AbsorbVariant(a: Variant, b: Variant): Variant
    requires b.payload.Some? ==> a.payload.Some?
  {
    if b.payload.Some? then Variant(a.name, a.value, Some(Intersect(a.payload.value, b.payload.value))) else a
  }

  function AbsorbVariants(a: seq<Variant>, b: seq<Variant>): seq<Variant>
    requires |a| <= |b| && forall i :: 0 <= i < |a| ==> (b[i].payload.Some? ==> a[i].payload.Some?)
  {
    seq(|a|, i requires 0 <= i < |a| => AbsorbVariant(a[i], b[i]))
  }

  function Absorb(existing: TypeDef, t: TypeDef): TypeDef
    requires Absorbable(existing, t)
  {
    match t
    case Struct(fields, _) => Struct(AbsorbFields(existing.fields, fields), existing.checks)
    case Enum(_, values) => Enum(existing.repr, EnumNames.Sorted(EnumNames.Dedupe([], existing.values + values)))
    case Union(_, variants) => Union(existing.repr, AbsorbVariants(existing.variants, variants))
  }

  /** No cross-field checks yet, and numeric bounds float64 holds exactly. */
  predicate Exact(t: TypeDef) {
    match t
    case Struct(fields, checks) => |checks| == 0 && forall i :: 0 <= i < |fields| ==> ExactBounds(fields[i].node)
    case Enum(_, _) => true
    case Union(_, variants) =>
      forall i :: 0 <= i < |variants| ==> (variants[i].payload.Some? ==> ExactBounds(variants[i].payload.value))
  }

  /** So a definition without checks and with bounds up to 2^53 can be merged. */
  lemma SmallExact(t: TypeDef)
    requires match t
      case Struct(fields, checks) => |checks| == 0 && forall i :: 0 <= i < |fields| ==> SmallBounds(fields[i].node)
      case Enum(_, _) => true
      case Union(_, variants) => forall i :: 0 <= i < |variants| && variants[i].payload.Some? ==> SmallBounds(variants[i].payload.value)
    ensures Exact(t)
  {
    hide SmallBounds, ExactBounds;
    match t
    case Struct(fields, _) => forall i | 0 <= i < |fields| ensures ExactBounds(fields[i].node) { SmallBoundsExact(fields[i].node); }
    case Enum(_, _) =>
    case Union(_, variants) =>
      forall i | 0 <= i < |variants| && variants[i].payload.Some? ensures ExactBounds(variants[i].payload.value) {
        SmallBoundsExact(variants[i].payload.value);
      }
  }

  function StripField(f: Field): Field { Field(f.name, Strip(f.node)) }

  function StripVariant(v: Variant): Variant {
    Variant(v.name, v.value, if v.payload.Some? then Some(Strip(v.payload.value)) else None)
  }

  function StripFields(fields: seq<Field>): seq<Field> { seq(|fields|, i requires 0 <= i < |fields| => StripField(fields[i])) }

  function StripVariants(variants: seq<Variant>): seq<Variant> {
    seq(|variants|, i requires 0 <= i < |variants| => StripVariant(variants[i]))
  }

  /** A definition with its bounds, allowed values, enum values and checks removed. */
  function StripType(t: TypeDef): TypeDef {
    match t
    case Struct(fields, _) => Struct(StripFields(fields), [])
    case Enum(repr, _) => Enum(repr, [])
    case Union(repr, variants) => Union(repr, StripVariants(variants))
  }

  /** Comparing two definitions ignores exactly what stripping removes. */
  lemma StripSameType(rel: Rel, a: TypeDef, b: TypeDef)
    ensures SameType(rel, a, b) <==> SameType(rel, StripType(a), StripType(b))
  {
    hide SameShape, Strip;
    if a.Struct? && b.Struct? && |a.fields| == |b.fields| {
      forall i | 0 <= i < |a.fields|
        ensures SameField(rel, a.fields[i], b.fields[i]) <==> SameField(rel, StripFields(a.fields)[i], StripFields(b.fields)[i])
      {
        StripShape(rel, a.fields[i].node, b.fields[i].node);
      }
      StripSameFields(rel, a.fields, b.fields);
    }
    if a.Union? && b.Union? && |a.variants| == |b.variants| {
      forall i | 0 <= i < |a.variants|
        ensures SameVariant(rel, a.variants[i], b.variants[i])
          <==> SameVariant(rel, StripVariants(a.variants)[i], StripVariants(b.variants)[i])
      {
        var x, y := a.variants[i].payload, b.variants[i].payload;
        if x.Some? && y.Some? { StripShape(rel, x.value, y.value); }
      }
      StripSameVariants(rel, a.variants, b.variants);
    }
  }

  lemma StripSameFields(rel: Rel, a: seq<Field>, b: seq<Field>)
    requires |a| == |b|
    requires forall i :: 0 <= i < |a| ==> (SameField(rel, a[i], b[i]) <==> SameField(rel, StripFields(a)[i], StripFields(b)[i]))
    ensures SameFields(rel, a, b) <==> SameFields(rel, StripFields(a), StripFields(b))
  {
    hide SameField, StripField;
    if SameFields(rel, StripFields(a), StripFields(b)) {
      forall i | 0 <= i < |a| ensures SameField(rel, a[i], b[i]) {
        assert SameField(rel, StripFields(a)[i], StripFields(b)[i]);
      }
    }
  }

  lemma StripSameVariants(rel: Rel, a: seq<Variant>, b: seq<Variant>)
    requires |a| == |b|
    requires forall i :: 0 <= i < |a| ==> (SameVariant(rel, a[i], b[i]) <==> SameVariant(rel, StripVariants(a)[i], StripVariants(b)[i]))
    ensures SameVariants(rel, a, b) <==> SameVariants(rel, StripVariants(a), StripVariants(b))
  {
    hide SameVariant, StripVariant;
    if SameVariants(rel, StripVariants(a), StripVariants(b)) {
      forall i | 0 <= i < |a| ensures SameVariant(rel, a[i], b[i]) {
        assert SameVariant(rel, StripVariants(a)[i], StripVariants(b)[i]);
      }
    }
  }

  lemma SameTypeAbsorbable(rel: Rel, a: TypeDef, b: TypeDef)
    requires SameType(rel, a, b)
    ensures Absorbable(a, b)
  {
    hide SameShape;
    if a.Union? {
      forall i | 0 <= i < |a.variants| ensures b.variants[i].payload.Some? ==> a.variants[i].payload.Some? {
        assert SameVariant(rel, a.variants[i], b.variants[i]);
      }
    }
  }

  /**
   Absorbing a definition of the same wire shape keeps the shape and drops every
   bound that would reject what either occurrence accepts.
   */
  lemma AbsorbLoosens(rel: Rel, a: TypeDef, b: TypeDef)
    requires SameType(rel, a, b) && Exact(a) && Exact(b)
    ensures Absorbable(a, b)
    ensures var r := Absorb(a, b);
      TypeNoTighter(a, r) && TypeNoTighter(b, r) && Exact(r) && StripType(r) == StripType(a)
  {
    SameTypeAbsorbable(rel, a, b);
    if a.Struct? {
      AbsorbFieldsLoosen(rel, a.fields, b.fields);
    } else if a.Union? {
      AbsorbVariantsLoosen(rel, a.variants, b.variants);
    }
  }

  lemma AbsorbFieldsLoosen(rel: Rel, a: seq<Field>, b: seq<Field>)
    requires SameFields(rel, a, b)
    requires forall i :: 0 <= i < |a| ==> ExactBounds(a[i].node) && ExactBounds(b[i].node)
    ensures var r := AbsorbFields(a, b);
      && StripFields(r) == StripFields(a)
      && forall i :: 0 <= i < |a| ==> NoTighter(a[i].node, r[i].node) && NoTighter(b[i].node, r[i].node) && ExactBounds(r[i].node)
  {
    hide SameShape, Intersect, NoTighter, ExactBounds, Strip;
    var r := AbsorbFields(a, b);
    forall i | 0 <= i < |a|
      ensures NoTighter(a[i].node, r[i].node) && NoTighter(b[i].node, r[i].node) && ExactBounds(r[i].node)
        && StripField(r[i]) == StripField(a[i])
    {
      assert SameField(rel, a[i], b[i]);
      IntersectNoTighter(rel, a[i].node, b[i].node);
      IntersectStrip(a[i].node, b[i].node);
    }
  }

  lemma AbsorbVariantsLoosen(rel: Rel, a: seq<Variant>, b: seq<Variant>)
    requires SameVariants(rel, a, b)
    requires Exact(Union(U8, a)) && Exact(Union(U8, b))
    ensures |a| == |b| && forall i :: 0 <= i < |a| ==> (b[i].payload.Some? ==> a[i].payload.Some?)
    ensures var r := AbsorbVariants(a, b);
      && StripVariants(r) == StripVariants(a)
      && forall i :: 0 <= i < |a| ==>
        PayloadNoTighter(a[i], r[i]) && PayloadNoTighter(b[i], r[i]) && (r[i].payload.Some? ==> ExactBounds(r[i].payload.value))
  {
    hide SameShape, Intersect, NoTighter, ExactBounds, Strip;
    forall i | 0 <= i < |a| ensures SameVariant(rel, a[i], b[i]) { }
    var r := AbsorbVariants(a, b);
    forall i | 0 <= i < |a|
      ensures PayloadNoTighter(a[i], r[i]) && PayloadNoTighter(b[i], r[i]) && (r[i].payload.Some? ==> ExactBounds(r[i].payload.value))
        && StripVariant(r[i]) == StripVariant(a[i])
    {
      AbsorbVariantLoosens(rel, a[i], b[i]);
    }
  }

  lemma AbsorbVariantLoosens(rel: Rel, a: Variant, b: Variant)
    requires SameVariant(rel, a, b)
    requires a.payload.Some? ==> ExactBounds(a.payload.value) && ExactBounds(b.payload.value)
    ensures var r := AbsorbVariant(a, b);
      && PayloadNoTighter(a, r) && PayloadNoTighter(b, r) && (r.payload.Some? ==> ExactBounds(r.payload.value))
      && StripVariant(r) == StripVariant(a)
  {
    if a.payload.Some? {
      IntersectNoTighter(rel, a.payload.value, b.payload.value);
      IntersectStrip(a.payload.value, b.payload.value);
    }
  }

  /** A struct or union published again as it was stays as it was. */
  lemma AbsorbSelf(t: TypeDef)
    requires !t.Enum?
    ensures Absorbable(t, t) && Absorb(t, t) == t
  {
    hide Intersect;
    match t
    case Struct(fields, _) =>
      forall i | 0 <= i < |fields| ensures AbsorbFields(fields, fields)[i] == fields[i] { IntersectSelf(fields[i].node); }
    case Union(_, variants) =>
      forall i | 0 <= i < |variants| ensures AbsorbVariants(variants, variants)[i] == variants[i] {
        if variants[i].payload.Some? { IntersectSelf(variants[i].payload.value); }
      }
  }

  /** Absorbing gives up no bound that both definitions publish. */
  lemma AbsorbLeast(a: TypeDef, b: TypeDef, c: TypeDef)
    requires Absorbable(a, b) && Exact(a) && TypeNoTighter(a, c) && TypeNoTighter(b, c)
    ensures TypeNoTighter(Absorb(a, b), c)
  {
    hide NoTighter, Intersect, ExactBounds;
    if a.Struct? {
      forall i | 0 <= i < |a.fields| ensures NoTighter(AbsorbFields(a.fields, b.fields)[i].node, c.fields[i].node) {
        IntersectLeast(a.fields[i].node, b.fields[i].node, c.fields[i].node);
      }
    } else if a.Union? {
      forall i | 0 <= i < |a.variants| ensures PayloadNoTighter(AbsorbVariants(a.variants, b.variants)[i], c.variants[i]) {
        assert PayloadNoTighter(a.variants[i], c.variants[i]) && PayloadNoTighter(b.variants[i], c.variants[i]);
        if b.variants[i].payload.Some? {
          IntersectLeast(a.variants[i].payload.value, b.variants[i].payload.value, c.variants[i].payload.value);
        }
      }
    }
  }

  lemma TypeNoTighterTrans(a: TypeDef, b: TypeDef, c: TypeDef)
    requires TypeNoTighter(a, b) && TypeNoTighter(b, c)
    ensures TypeNoTighter(a, c)
  {
    hide NoTighter;
    if a.Struct? {
      forall i | 0 <= i < |a.fields| ensures NoTighter(a.fields[i].node, c.fields[i].node) {
        NoTighterTrans(a.fields[i].node, b.fields[i].node, c.fields[i].node);
      }
    } else if a.Union? {
      forall i | 0 <= i < |a.variants| ensures PayloadNoTighter(a.variants[i], c.variants[i]) {
        assert PayloadNoTighter(a.variants[i], b.variants[i]) && PayloadNoTighter(b.variants[i], c.variants[i]);
        if a.variants[i].payload.Some? {
          NoTighterTrans(a.variants[i].payload.value, b.variants[i].payload.value, c.variants[i].payload.value);
        }
      }
    }
  }

  lemma TypeNoTighterRefl(a: TypeDef)
    requires Exact(a)
    ensures TypeNoTighter(a, a)
  {
    hide NoTighter, ExactBounds;
    if a.Struct? {
      forall i | 0 <= i < |a.fields| ensures NoTighter(a.fields[i].node, a.fields[i].node) { NoTighterRefl(a.fields[i].node); }
    } else if a.Union? {
      forall i | 0 <= i < |a.variants| ensures PayloadNoTighter(a.variants[i], a.variants[i]) {
        if a.variants[i].payload.Some? { NoTighterRefl(a.variants[i].payload.value); }
      }
    }
  }
}
