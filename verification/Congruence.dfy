/** Which type names may stand for one another: equivalences that respect the definitions. */
module Congruence {
  import opened Schemas
  import opened Simulation
  import opened Renames

  ghost predicate Equivalence(r: Rel) {
    && (forall x :: (x, x) in r)
    && (forall x, y :: (x, y) in r ==> (y, x) in r)
    && forall x, y, z :: (x, y) in r && (y, z) in r ==> (x, z) in r
  }

  ghost function Kernel(log: Log): Rel { iset x: string, y: string | Apply(log, x) == Apply(log, y) :: (x, y) }

  /** The least equivalence containing `g`. */
  ghost function Closure(g: Rel): Rel {
    iset x: string, y: string | forall r: Rel :: Equivalence(r) && g <= r ==> (x, y) in r :: (x, y)
  }

  ghost predicate Together(types: map<string, TypeDef>, r: Rel, x: string, y: string) {
    x == y || (x in types && y in types && SameType(r, types[x], types[y]))
  }

  /** Related names resolve to one type, or to two of the same shape whose references are related again. */
  ghost predicate Bisimulation(types: map<string, TypeDef>, log: Log, r: Rel) {
    forall x, y :: (x, y) in r ==> Together(types, r, Apply(log, x), Apply(log, y))
  }

  /** A way to identify names that undoes no fold and never identifies different shapes. */
  ghost predicate Unifier(types: map<string, TypeDef>, log: Log, r: Rel) {
    Equivalence(r) && Kernel(log) <= r && Bisimulation(types, log, r)
  }

  // ---- comparing shapes under different relations ----

  ghost function Converse(r: Rel): Rel { iset x: string, y: string | (y, x) in r :: (x, y) }

  ghost function Composed(q: Rel, r: Rel): Rel {
    iset x: string, z: string | exists y: string :: (x, y) in q && (y, z) in r :: (x, z)
  }

  lemma {:induction false} ShapeMono(q: Rel, r: Rel, a: Node, b: Node)
    requires SameShape(q, a, b) && q <= r
    ensures SameShape(r, a, b)
  {
    match a
    case LeafNode(_) =>
    case ListNode(_, e, _, _) => ShapeMono(q, r, e, b.element);
    case EntryNode(k, x) => ShapeMono(q, r, k, b.key); ShapeMono(q, r, x, b.value);
    case FixedNode(_, e) => ShapeMono(q, r, e, b.element);
    case OptionalNode(x) => ShapeMono(q, r, x, b.inner);
    case RefNode(_, _) =>
  }

  lemma {:induction false} ShapeConverse(r: Rel, a: Node, b: Node)
    requires SameShape(r, a, b)
    ensures SameShape(Converse(r), b, a)
  {
    match a
    case LeafNode(_) =>
    case ListNode(_, e, _, _) => ShapeConverse(r, e, b.element);
    case EntryNode(k, x) => ShapeConverse(r, k, b.key); ShapeConverse(r, x, b.value);
    case FixedNode(_, e) => ShapeConverse(r, e, b.element);
    case OptionalNode(x) => ShapeConverse(r, x, b.inner);
    case RefNode(_, _) =>
  }

  lemma {:induction false} ShapeTrans(q: Rel, r: Rel, a: Node, b: Node, c: Node)
    requires SameShape(q, a, b) && SameShape(r, b, c)
    ensures SameShape(Composed(q, r), a, c)
  {
    match a
    case LeafNode(_) =>
    case ListNode(_, e, _, _) => ShapeTrans(q, r, e, b.element, c.element);
    case EntryNode(k, x) => ShapeTrans(q, r, k, b.key, c.key); ShapeTrans(q, r, x, b.value, c.value);
    case FixedNode(_, e) => ShapeTrans(q, r, e, b.element, c.element);
    case OptionalNode(x) => ShapeTrans(q, r, x, b.inner, c.inner);
    case RefNode(_, _) =>
  }

  lemma TypeMono(q: Rel, r: Rel, a: TypeDef, b: TypeDef)
    requires SameType(q, a, b) && q <= r
    ensures SameType(r, a, b)
  {
    hide SameShape;
    if a.Struct? {
      forall i | 0 <= i < |a.fields| ensures SameField(r, a.fields[i], b.fields[i]) {
        assert SameField(q, a.fields[i], b.fields[i]);
        ShapeMono(q, r, a.fields[i].node, b.fields[i].node);
      }
    } else if a.Union? {
      forall i | 0 <= i < |a.variants| ensures SameVariant(r, a.variants[i], b.variants[i]) {
        assert SameVariant(q, a.variants[i], b.variants[i]);
        if a.variants[i].payload.Some? { ShapeMono(q, r, a.variants[i].payload.value, b.variants[i].payload.value); }
      }
    }
  }

  lemma TypeConverse(r: Rel, a: TypeDef, b: TypeDef)
    requires SameType(r, a, b)
    ensures SameType(Converse(r), b, a)
  {
    hide SameShape, Converse;
    if a.Struct? {
      forall i | 0 <= i < |a.fields| ensures SameField(Converse(r), b.fields[i], a.fields[i]) {
        assert SameField(r, a.fields[i], b.fields[i]);
        ShapeConverse(r, a.fields[i].node, b.fields[i].node);
      }
    } else if a.Union? {
      forall i | 0 <= i < |a.variants| ensures SameVariant(Converse(r), b.variants[i], a.variants[i]) {
        assert SameVariant(r, a.variants[i], b.variants[i]);
        if a.variants[i].payload.Some? { ShapeConverse(r, a.variants[i].payload.value, b.variants[i].payload.value); }
      }
    }
  }

  lemma TypeTrans(q: Rel, r: Rel, a: TypeDef, b: TypeDef, c: TypeDef)
    requires SameType(q, a, b) && SameType(r, b, c)
    ensures SameType(Composed(q, r), a, c)
  {
    hide SameShape, Composed;
    if a.Struct? {
      forall i | 0 <= i < |a.fields| ensures SameField(Composed(q, r), a.fields[i], c.fields[i]) {
        assert SameField(q, a.fields[i], b.fields[i]) && SameField(r, b.fields[i], c.fields[i]);
        ShapeTrans(q, r, a.fields[i].node, b.fields[i].node, c.fields[i].node);
      }
    } else if a.Union? {
      forall i | 0 <= i < |a.variants| ensures SameVariant(Composed(q, r), a.variants[i], c.variants[i]) {
        assert SameVariant(q, a.variants[i], b.variants[i]) && SameVariant(r, b.variants[i], c.variants[i]);
        if a.variants[i].payload.Some? {
          ShapeTrans(q, r, a.variants[i].payload.value, b.variants[i].payload.value, c.variants[i].payload.value);
        }
      }
    }
  }

  lemma SymTrans(c: Rel, x: TypeDef, y: TypeDef, z: TypeDef)
    requires Equivalence(c)
    ensures SameType(c, x, y) ==> SameType(c, y, x)
    ensures SameType(c, x, y) && SameType(c, y, z) ==> SameType(c, x, z)
  {
    hide SameType;
    if SameType(c, x, y) {
      TypeConverse(c, x, y);
      TypeMono(Converse(c), c, y, x);
      if SameType(c, y, z) {
        TypeTrans(c, c, x, y, z);
        TypeMono(Composed(c, c), c, x, z);
      }
    }
  }

  // ---- the least unifier ----

  lemma KernelEquivalence(log: Log)
    ensures Equivalence(Kernel(log))
  {
  }

  lemma ClosureLeast(g: Rel)
    ensures g <= Closure(g) && Equivalence(Closure(g))
    ensures forall r :: Equivalence(r) && g <= r ==> Closure(g) <= r
  {
    forall p | p in g ensures p in Closure(g) { assert p == (p.0, p.1); }
  }

  /**
   Bisimulation up to equivalence: when related names agree up to the closure,
   the closure identifies no two different shapes.
   */
  lemma ClosureUnifies(types: map<string, TypeDef>, log: Log, g: Rel)
    requires Kernel(log) <= g
    requires forall x, y :: (x, y) in g ==> Together(types, Closure(g), Apply(log, x), Apply(log, y))
    ensures Unifier(types, log, Closure(g))
  {
    hide SameType, Closure;
    ClosureLeast(g);
    var c := Closure(g);
    var r: Rel := iset x: string, y: string | (x, y) in c && Together(types, c, Apply(log, x), Apply(log, y)) :: (x, y);
    assert Equivalence(r) by { TogetherEquivalence(types, log, c, r); }
    forall p | p in g ensures p in r { assert p == (p.0, p.1); }
    assert c <= r;
  }

  lemma TogetherEquivalence(types: map<string, TypeDef>, log: Log, c: Rel, r: Rel)
    requires Equivalence(c)
    requires r == iset x: string, y: string | (x, y) in c && Together(types, c, Apply(log, x), Apply(log, y)) :: (x, y)
    ensures Equivalence(r)
  {
    hide SameType;
    forall x, y | (x, y) in r ensures (y, x) in r {
      var u, v := Apply(log, x), Apply(log, y);
      if u in types && v in types { SymTrans(c, types[u], types[v], types[u]); }
    }
    forall x, y, z | (x, y) in r && (y, z) in r ensures (x, z) in r {
      var u, v, w := Apply(log, x), Apply(log, y), Apply(log, z);
      if u in types && v in types && w in types { SymTrans(c, types[u], types[v], types[w]); }
    }
  }

  /** Two definitions related by any bisimulation are related by a unifier. */
  lemma BisimulationUnifies(types: map<string, TypeDef>, log: Log, b: Rel)
    requires Bisimulation(types, log, b)
    ensures var c := Closure(b + Kernel(log)); Unifier(types, log, c) && b <= c
  {
    hide SameType, Closure;
    var g := b + Kernel(log);
    ClosureLeast(g);
    forall x, y | (x, y) in g ensures Together(types, Closure(g), Apply(log, x), Apply(log, y)) {
      var u, v := Apply(log, x), Apply(log, y);
      if u != v { TypeMono(b, Closure(g), types[u], types[v]); }
    }
    ClosureUnifies(types, log, g);
  }
}
