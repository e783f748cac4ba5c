/** Why folding wire-identical types loses no wire data, whatever the order of the folds. */
module Folding {
  import opened Schemas
  import opened Simulation
  import opened Renames
  import opened Congruence
  import opened Absorbing

  type Table = map<string, TypeDef>

  ghost predicate AllExact(types: Table) { forall x :: x in types ==> Exact(types[x]) }

  /**
   From one table to a later one: each name keeps a definition of the same shape
   that is no tighter, and names are only ever identified along `c`.
   */
  ghost predicate Moves(c: Rel, types: Table, log: Log, types2: Table, log2: Log) {
    && Kernel(log) <= Kernel(log2) <= c
    && forall x :: Moved(c, types, log, types2, log2, x)
  }

  ghost predicate Moved(c: Rel, types: Table, log: Log, types2: Table, log2: Log, x: string) {
    var u, v := Apply(log, x), Apply(log2, x);
    u in types ==> v in types2 && SameType(c, types[u], types2[v]) && TypeNoTighter(types[u], types2[v])
  }

  lemma {:induction false} ShapeRefl(c: Rel, a: Node)
    requires forall x :: (x, x) in c
    ensures SameShape(c, a, a)
  {
    match a
    case LeafNode(_) =>
    case ListNode(_, e, _, _) => ShapeRefl(c, e);
    case EntryNode(k, x) => ShapeRefl(c, k); ShapeRefl(c, x);
    case FixedNode(_, e) => ShapeRefl(c, e);
    case OptionalNode(x) => ShapeRefl(c, x);
    case RefNode(_, _) =>
  }

  lemma TypeRefl(c: Rel, a: TypeDef)
    requires forall x :: (x, x) in c
    ensures SameType(c, a, a)
  {
    hide SameShape;
    if a.Struct? {
      forall i | 0 <= i < |a.fields| ensures SameField(c, a.fields[i], a.fields[i]) { ShapeRefl(c, a.fields[i].node); }
    } else if a.Union? {
      forall i | 0 <= i < |a.variants| ensures SameVariant(c, a.variants[i], a.variants[i]) {
        if a.variants[i].payload.Some? { ShapeRefl(c, a.variants[i].payload.value); }
      }
    }
  }

  lemma MovesRefl(c: Rel, types: Table, log: Log)
    requires Equivalence(c) && Kernel(log) <= c && AllExact(types)
    ensures Moves(c, types, log, types, log)
  {
    hide SameType, TypeNoTighter, Exact;
    forall x ensures Moved(c, types, log, types, log, x) {
      var u := Apply(log, x);
      if u in types {
        TypeRefl(c, types[u]);
        TypeNoTighterRefl(types[u]);
      }
    }
  }

  lemma MovesTrans(c: Rel, types: Table, log: Log, types2: Table, log2: Log, types3: Table, log3: Log)
    requires Equivalence(c) && Moves(c, types, log, types2, log2) && Moves(c, types2, log2, types3, log3)
    ensures Moves(c, types, log, types3, log3)
  {
    hide SameType, TypeNoTighter;
    forall x ensures Moved(c, types, log, types3, log3, x) {
      var u, v, w := Apply(log, x), Apply(log2, x), Apply(log3, x);
      assert Moved(c, types, log, types2, log2, x) && Moved(c, types2, log2, types3, log3, x);
      if u in types {
        SymTrans(c, types[u], types2[v], types3[w]);
        TypeNoTighterTrans(types[u], types2[v], types3[w]);
      }
    }
  }

  lemma MovesUnifies(c: Rel, types: Table, log: Log, types2: Table, log2: Log)
    requires Unifier(types, log, c) && Moves(c, types, log, types2, log2)
    ensures Unifier(types2, log2, c)
  {
    hide SameType, TypeNoTighter;
    forall x, y | (x, y) in c ensures Together(types2, c, Apply(log2, x), Apply(log2, y)) {
      assert Moved(c, types, log, types2, log2, x) && Moved(c, types, log, types2, log2, y);
      var u, v := Apply(log, x), Apply(log, y);
      if u == v {
        assert (x, y) in Kernel(log);
        assert (x, y) in Kernel(log2);
      } else {
        var p, q := types2[Apply(log2, x)], types2[Apply(log2, y)];
        SymTrans(c, types[u], p, p);
        SymTrans(c, p, types[u], types[v]);
        SymTrans(c, p, types[v], q);
      }
    }
  }

  /** Absorbing a definition of the same shape, in place. */
  lemma AbsorbMoves(c: Rel, types: Table, log: Log, name: string, t: TypeDef)
    requires Equivalence(c) && Kernel(log) <= c && AllExact(types) && Exact(t)
    requires name in types && SameType(c, types[name], t)
    ensures Absorbable(types[name], t)
    ensures var r := Absorb(types[name], t);
      && Moves(c, types, log, types[name := r], log) && AllExact(types[name := r])
      && SameType(c, types[name], r) && SameType(c, t, r) && TypeNoTighter(types[name], r) && TypeNoTighter(t, r)
  {
    hide SameType, TypeNoTighter, Absorb, Exact, Absorbable;
    AbsorbedShape(c, types[name], t);
    var types2 := types[name := Absorb(types[name], t)];
    forall x ensures Moved(c, types, log, types2, log, x) {
      var u := Apply(log, x);
      if u in types && u != name {
        TypeRefl(c, types[u]);
        TypeNoTighterRefl(types[u]);
      }
    }
  }

  lemma AbsorbedShape(c: Rel, a: TypeDef, b: TypeDef)
    requires Equivalence(c) && Exact(a) && Exact(b) && SameType(c, a, b)
    ensures Absorbable(a, b)
    ensures var r := Absorb(a, b);
      SameType(c, a, r) && SameType(c, b, r) && TypeNoTighter(a, r) && TypeNoTighter(b, r) && Exact(r)
  {
    hide SameType, TypeNoTighter, Absorb, Exact, Absorbable, StripType;
    AbsorbLoosens(c, a, b);
    var r := Absorb(a, b);
    TypeRefl(c, a);
    StripSameType(c, a, a);
    StripSameType(c, a, r);
    SymTrans(c, a, b, a);
    SymTrans(c, b, a, r);
  }

  /** Folding `b` into `a`: the table loses `b`, and every name that led to `b` leads to `a`. */
  lemma FoldMoves(c: Rel, types: Table, log: Log, a: string, b: string)
    requires Unifier(types, log, c) && AllExact(types)
    requires Forest(log) && !Folded(log, a) && !Folded(log, b)
    requires a != b && a in types && b in types && (a, b) in c
    ensures Absorbable(types[a], types[b])
    ensures var types2, log2 := types[a := Absorb(types[a], types[b])] - {b}, log + [(b, a)];
      Moves(c, types, log, types2, log2) && AllExact(types2)
  {
    hide SameType, TypeNoTighter, Absorb, Exact, Absorbable;
    Untouched(log, a);
    Untouched(log, b);
    AbsorbMoves(c, types, log, a, types[b]);
    Extend(log, b, a);
    var types2, log2 := types[a := Absorb(types[a], types[b])] - {b}, log + [(b, a)];
    forall x ensures Moved(c, types, log, types2, log2, x) {
      var u := Apply(log, x);
      assert Moved(c, types, log, types[a := Absorb(types[a], types[b])], log, x);
      assert Apply(log2, x) == if u == b then a else u;
    }
    forall p | p in Kernel(log2) ensures p in c { FoldKernel(c, log, a, b, p.0, p.1); }
    forall p | p in Kernel(log) ensures p in Kernel(log2) { assert p == (p.0, p.1); }
  }

  lemma FoldKernel(c: Rel, log: Log, a: string, b: string, x: string, y: string)
    requires Equivalence(c) && Kernel(log) <= c && (a, b) in c
    requires Forest(log) && !Folded(log, a) && !Folded(log, b) && a != b
    requires Apply(log + [(b, a)], x) == Apply(log + [(b, a)], y)
    ensures (x, y) in c
  {
    hide Equivalence;
    Extend(log, b, a);
    Untouched(log, a);
    Untouched(log, b);
    Chain(c, log, a, b, x, y);
  }

  lemma Chain(c: Rel, log: Log, a: string, b: string, x: string, y: string)
    requires Equivalence(c) && Kernel(log) <= c && (a, b) in c
    requires Apply(log, a) == a && Apply(log, b) == b
    requires var u, v := Apply(log, x), Apply(log, y);
      u == v || (u == a && v == b) || (u == b && v == a)
    ensures (x, y) in c
  {
    hide Apply;
    var k := Kernel(log);
    var u, v := Apply(log, x), Apply(log, y);
    if u == v {
      assert (x, y) in k;
    } else {
      assert (x, u) in k by { assert Apply(log, u) == u; }
      assert (v, y) in k by { assert Apply(log, v) == v; }
      assert (u, v) in c;
      assert (x, v) in c;
    }
  }
}
