/** Comparing definitions that may refer to themselves, under the assumption that pairs met before are equal. */
module Comparing {
  import opened Schemas
  import opened Simulation
  import opened Renames
  import opened Congruence

  type Pairs = set<(string, string)>

  function AllPairs(types: map<string, TypeDef>): Pairs { set x, y | x in types && y in types :: (x, y) }

  /** There are as many pairs to assume as the square of the number of types, so no comparison assumes more. */
  lemma PairsBounded(types: map<string, TypeDef>, pairs: Pairs)
    requires pairs <= AllPairs(types)
    ensures |pairs| <= |types| * |types|
  {
    Product(types.Keys, types.Keys);
    SubsetSizeOfPairs(pairs, AllPairs(types));
    assert AllPairs(types) == Rectangle(types.Keys, types.Keys);
  }

  function Rectangle(xs: set<string>, ys: set<string>): Pairs { set x, y | x in xs && y in ys :: (x, y) }

  lemma {:induction false} Product(xs: set<string>, ys: set<string>)
    ensures |Rectangle(xs, ys)| == |xs| * |ys|
  {
    if xs == {} {
      assert Rectangle(xs, ys) == {};
    } else {
      var x :| x in xs;
      Product(xs - {x}, ys);
      Row(x, ys);
      assert Rectangle(xs, ys) == Rectangle(xs - {x}, ys) + Rectangle({x}, ys);
      assert Rectangle(xs - {x}, ys) !! Rectangle({x}, ys);
      assert (|xs| - 1) * |ys| + |ys| == |xs| * |ys|;
    }
  }

  lemma {:induction false} Row(x: string, ys: set<string>)
    ensures |Rectangle({x}, ys)| == |ys|
  {
    if ys == {} {
      assert Rectangle({x}, ys) == {};
    } else {
      var y :| y in ys;
      Row(x, ys - {y});
      assert Rectangle({x}, ys) == Rectangle({x}, ys - {y}) + {(x, y)};
    }
  }

  lemma {:induction false} SubsetSizeOfPairs(a: Pairs, b: Pairs)
    requires a <= b
    ensures |a| <= |b|
  {
    if a != {} {
      var p :| p in a;
      SubsetSizeOfPairs(a - {p}, b - {p});
    }
  }

  /** Names that resolve alike, or whose resolved names are assumed equal. */
  ghost function Linked(log: Log, pairs: Pairs): Rel {
    iset x: string, y: string | Apply(log, x) == Apply(log, y) || (Apply(log, x), Apply(log, y)) in pairs :: (x, y)
  }

  /** Every pair added since `before` has been compared, references under the assumptions now held. */
  ghost predicate Compared(types: map<string, TypeDef>, log: Log, before: Pairs, after: Pairs) {
    && before <= after
    && forall x, y :: (x, y) in after && (x, y) !in before ==>
      x in types && y in types && SameType(Linked(log, after), types[x], types[y])
  }

  ghost predicate Within(c: Rel, before: Pairs, after: Pairs) {
    forall p :: p in after ==> p in before || p in c
  }

  /** Whatever identifies the two nodes identifies the added pairs too, and makes the comparison succeed. */
  ghost predicate ForcedNode(types: map<string, TypeDef>, log: Log, a: Node, b: Node, before: Pairs, ok: bool, after: Pairs) {
    forall c: Rel :: Unifier(types, log, c) && SameShape(c, a, b) ==> ok && Within(c, before, after)
  }

  ghost predicate ForcedType(types: map<string, TypeDef>, log: Log, a: TypeDef, b: TypeDef, before: Pairs, ok: bool, after: Pairs) {
    forall c: Rel :: Unifier(types, log, c) && SameType(c, a, b) ==> ok && Within(c, before, after)
  }

  // ---- nodes as heads and children ----

  /** The children a node has, in the order element, key, value. */
  function Kids(n: Node): (r: seq<Node>)
    ensures forall i :: 0 <= i < |r| ==> r[i] < n
  {
    match n
    case LeafNode(_) => []
    case ListNode(_, e, _, _) => [e]
    case EntryNode(k, x) => [k, x]
    case FixedNode(_, e) => [e]
    case OptionalNode(x) => [x]
    case RefNode(_, _) => []
  }

  /** Everything about two nodes but bounds, patterns, allowed values and children is equal. */
  predicate SameHead(a: Node, b: Node) {
    match a
    case LeafNode(l) => b.LeafNode? && SameLeaf(l, b.leaf)
    case ListNode(p, _, _, _) => b.ListNode? && b.prefix == p
    case EntryNode(_, _) => b.EntryNode?
    case FixedNode(len, _) => b.FixedNode? && b.len == len
    case OptionalNode(_) => b.OptionalNode?
    case RefNode(r, _) => b.RefNode? && b.ref == r
  }

  lemma HeadAndKids(rel: Rel, a: Node, b: Node)
    requires !(a.RefNode? && b.RefNode?)
    ensures SameHead(a, b) ==> |Kids(a)| == |Kids(b)|
    ensures SameShape(rel, a, b) <==> SameHead(a, b) && forall i :: 0 <= i < |Kids(a)| ==> SameShape(rel, Kids(a)[i], Kids(b)[i])
  {
    if SameHead(a, b) && forall i :: 0 <= i < |Kids(a)| ==> SameShape(rel, Kids(a)[i], Kids(b)[i]) {
      if |Kids(a)| > 0 { assert SameShape(rel, Kids(a)[0], Kids(b)[0]); }
      if |Kids(a)| > 1 { assert SameShape(rel, Kids(a)[1], Kids(b)[1]); }
    }
  }

  lemma HeadAndKidsAll(a: Node, b: Node)
    requires !(a.RefNode? && b.RefNode?)
    ensures SameHead(a, b) ==> |Kids(a)| == |Kids(b)|
    ensures forall rel: Rel ::
      SameShape(rel, a, b) <==> SameHead(a, b) && forall i :: 0 <= i < |Kids(a)| ==> SameShape(rel, Kids(a)[i], Kids(b)[i])
  {
    hide SameShape, SameHead;
    HeadAndKids(iset{}, a, b);
    forall rel: Rel
      ensures SameShape(rel, a, b) <==> SameHead(a, b) && forall i :: 0 <= i < |Kids(a)| ==> SameShape(rel, Kids(a)[i], Kids(b)[i])
    {
      HeadAndKids(rel, a, b);
    }
  }

  // ---- chaining ----

  lemma LinkedMono(log: Log, p: Pairs, q: Pairs)
    requires p <= q
    ensures Linked(log, p) <= Linked(log, q)
  {
  }

  lemma ComparedTrans(types: map<string, TypeDef>, log: Log, p: Pairs, q: Pairs, r: Pairs)
    requires Compared(types, log, p, q) && Compared(types, log, q, r)
    ensures Compared(types, log, p, r)
  {
    hide SameType, Linked;
    LinkedMono(log, q, r);
    forall x, y | (x, y) in r && (x, y) !in p
      ensures x in types && y in types && SameType(Linked(log, r), types[x], types[y])
    {
      if (x, y) in q { TypeMono(Linked(log, q), Linked(log, r), types[x], types[y]); }
    }
  }

  /** A comparison that began by assuming the pair it was about to compare. */
  lemma ComparedAssumed(types: map<string, TypeDef>, log: Log, p: Pairs, x: string, y: string, after: Pairs)
    requires x in types && y in types
    requires Compared(types, log, p + {(x, y)}, after) && SameType(Linked(log, after), types[x], types[y])
    ensures Compared(types, log, p, after)
  {
    hide SameType, Linked;
  }

  lemma ForcedChild(types: map<string, TypeDef>, log: Log, a: Node, b: Node, k: Node, m: Node, p: Pairs, q: Pairs, ok: bool, r: Pairs)
    requires ForcedNode(types, log, a, b, p, true, q) && ForcedNode(types, log, k, m, q, ok, r)
    requires forall c: Rel :: SameShape(c, a, b) ==> SameShape(c, k, m)
    ensures ForcedNode(types, log, a, b, p, ok, r)
  {
    hide SameShape, Unifier;
  }

  lemma ForcedPart(types: map<string, TypeDef>, log: Log, a: TypeDef, b: TypeDef, k: Node, m: Node, p: Pairs, q: Pairs, ok: bool, r: Pairs)
    requires ForcedType(types, log, a, b, p, true, q) && ForcedNode(types, log, k, m, q, ok, r)
    requires forall c: Rel :: SameType(c, a, b) ==> SameShape(c, k, m)
    ensures ForcedType(types, log, a, b, p, ok, r)
  {
    hide SameShape, SameType, Unifier;
  }

  lemma ForcedRef(types: map<string, TypeDef>, log: Log, a: Node, b: Node, p: Pairs, ok: bool, r: Pairs)
    requires Forest(log) && a.RefNode? && b.RefNode?
    requires var x, y := Apply(log, a.ref), Apply(log, b.ref);
      && x != y && x in types && y in types
      && ForcedType(types, log, types[x], types[y], p + {(x, y)}, ok, r)
    ensures ForcedNode(types, log, a, b, p, ok, r)
  {
    hide SameType;
    forall c: Rel | Unifier(types, log, c) && SameShape(c, a, b) ensures ok && Within(c, p, r) {
      ResolvedRelated(types, log, c, a.ref, b.ref);
    }
  }

  lemma RefusedHead(types: map<string, TypeDef>, log: Log, a: Node, b: Node, p: Pairs)
    requires forall c: Rel :: !SameShape(c, a, b)
    ensures ForcedNode(types, log, a, b, p, false, p)
  {
  }

  lemma NothingForced(types: map<string, TypeDef>, log: Log, a: Node, b: Node, p: Pairs)
    ensures ForcedNode(types, log, a, b, p, true, p)
  {
  }

  lemma NothingForcedType(types: map<string, TypeDef>, log: Log, a: TypeDef, b: TypeDef, p: Pairs)
    ensures ForcedType(types, log, a, b, p, true, p)
  {
  }

  lemma RefusedType(types: map<string, TypeDef>, log: Log, a: TypeDef, b: TypeDef, p: Pairs, q: Pairs)
    requires forall c: Rel :: !SameType(c, a, b)
    ensures ForcedType(types, log, a, b, p, false, q)
  {
  }

  lemma NothingCompared(types: map<string, TypeDef>, log: Log, p: Pairs)
    ensures Compared(types, log, p, p)
  {
  }

  lemma InAllPairs(types: map<string, TypeDef>, x: string, y: string)
    requires x in types && y in types
    ensures (x, y) in AllPairs(types)
  {
  }

  lemma LinkedRefs(log: Log, pairs: Pairs, a: Node, b: Node)
    requires a.RefNode? && b.RefNode?
    requires Apply(log, a.ref) == Apply(log, b.ref) || (Apply(log, a.ref), Apply(log, b.ref)) in pairs
    ensures SameShape(Linked(log, pairs), a, b)
  {
  }

  lemma FieldOf(a: TypeDef, b: TypeDef, i: nat)
    requires a.Struct? && b.Struct? && |a.fields| == |b.fields| && i < |a.fields|
    ensures forall c: Rel :: SameType(c, a, b) ==> a.fields[i].name == b.fields[i].name && SameShape(c, a.fields[i].node, b.fields[i].node)
  {
    hide SameShape;
    forall c: Rel | SameType(c, a, b)
      ensures a.fields[i].name == b.fields[i].name && SameShape(c, a.fields[i].node, b.fields[i].node)
    {
      assert SameField(c, a.fields[i], b.fields[i]);
    }
  }

  predicate SameTag(a: Variant, b: Variant) { a.value == b.value && a.payload.Some? == b.payload.Some? }

  lemma VariantOf(a: TypeDef, b: TypeDef, i: nat)
    requires a.Union? && b.Union? && |a.variants| == |b.variants| && i < |a.variants|
    ensures forall c: Rel :: SameType(c, a, b) ==>
      var v, w := a.variants[i], b.variants[i];
      SameTag(v, w) && (v.payload.Some? ==> SameShape(c, v.payload.value, w.payload.value))
  {
    hide SameShape;
    forall c: Rel | SameType(c, a, b)
      ensures var v, w := a.variants[i], b.variants[i];
        SameTag(v, w) && (v.payload.Some? ==> SameShape(c, v.payload.value, w.payload.value))
    {
      assert SameVariant(c, a.variants[i], b.variants[i]);
    }
  }

  lemma MadeField(rel: Rel, a: Field, b: Field)
    requires a.name == b.name && SameShape(rel, a.node, b.node)
    ensures SameField(rel, a, b)
  {
  }

  lemma MadeVariant(rel: Rel, a: Variant, b: Variant)
    requires SameTag(a, b) && (a.payload.Some? ==> SameShape(rel, a.payload.value, b.payload.value))
    ensures SameVariant(rel, a, b)
  {
  }

  lemma FieldMono(q: Rel, r: Rel, a: Field, b: Field)
    requires SameField(q, a, b) && q <= r
    ensures SameField(r, a, b)
  {
    ShapeMono(q, r, a.node, b.node);
  }

  lemma VariantMono(q: Rel, r: Rel, a: Variant, b: Variant)
    requires SameVariant(q, a, b) && q <= r
    ensures SameVariant(r, a, b)
  {
    if a.payload.Some? { ShapeMono(q, r, a.payload.value, b.payload.value); }
  }

  /** A unifier relates what two related names resolve to. */
  lemma ResolvedRelated(types: map<string, TypeDef>, log: Log, c: Rel, x: string, y: string)
    requires Forest(log) && Unifier(types, log, c) && (x, y) in c
    ensures (Apply(log, x), Apply(log, y)) in c
  {
    hide SameType, Apply;
    ApplyTwice(log, x);
    ApplyTwice(log, y);
    var k := Kernel(log);
    assert (Apply(log, x), x) in k && (y, Apply(log, y)) in k;
    assert (Apply(log, x), x) in c && (y, Apply(log, y)) in c;
    assert (Apply(log, x), y) in c;
  }

  lemma RefusedRef(types: map<string, TypeDef>, log: Log, a: Node, b: Node, p: Pairs)
    requires a.RefNode? && b.RefNode? && Apply(log, a.ref) != Apply(log, b.ref)
    requires Apply(log, a.ref) !in types || Apply(log, b.ref) !in types
    ensures ForcedNode(types, log, a, b, p, false, p)
  {
    hide SameType;
  }

  // ---- what a successful comparison means ----

  /** Compared from nothing, the assumed pairs form a bisimulation. */
  lemma ComparedBisimulation(types: map<string, TypeDef>, log: Log, pairs: Pairs)
    requires Compared(types, log, {}, pairs)
    ensures Bisimulation(types, log, Linked(log, pairs))
  {
    hide SameType;
    var l := Linked(log, pairs);
    forall x, y | (x, y) in l ensures Together(types, l, Apply(log, x), Apply(log, y)) {
      var u, v := Apply(log, x), Apply(log, y);
      if u != v { assert (u, v) in pairs; }
    }
  }
}
