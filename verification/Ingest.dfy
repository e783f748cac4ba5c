/** The ingester's type table: comparing a repeat occurrence and folding it in. */
module Ingest {
  import opened Schemas
  import opened Simulation
  import opened Renames
  import opened Congruence
  import opened Comparing
  import opened Absorbing
  import opened Folding
  import opened WireNames
  import opened EnumClasses

  /** Folded names are gone from the table, and every name leads to one that is not. */
  ghost predicate Sound(types: map<string, TypeDef>, renames: map<string, string>, log: Log) {
    && Forest(log) && Holds(renames, log)
    && (forall x :: x in types ==> x !in renames)
    && forall x :: x in renames ==> renames[x] in types || renames[x] in renames
  }

  lemma Resolved(types: map<string, TypeDef>, renames: map<string, string>, log: Log, x: string)
    requires Sound(types, renames, log)
    ensures var y := Apply(log, x);
      && y !in renames && Apply(log, y) == y
      && (x !in renames ==> y == x)
      && (x in types || x in renames ==> y in types)
  {
    ApplyLive(log, x);
    ApplyTwice(log, x);
    if x !in renames {
      assert !Folded(log, x);
      Untouched(log, x);
    }
    var y := Apply(log, x);
    assert y in renames ==> Folded(log, y);
    if y != x {
      var i :| 0 <= i < |log| && log[i].1 == y;
      assert renames[log[i].0] == y;
    }
  }

  lemma SoundFold(types: Table, renames: map<string, string>, log: Log, a: string, b: string, r: TypeDef)
    requires Sound(types, renames, log) && a != b && a in types && b in types
    ensures Sound(types[a := r] - {b}, renames[b := a], log + [(b, a)])
    ensures !Folded(log, a) && !Folded(log, b)
  {
    var log2 := log + [(b, a)];
    Extend(log, b, a);
    forall x | x in renames[b := a] ensures Folded(log2, x) {
      if x == b {
        assert log2[|log|].0 == b;
      } else {
        var i :| 0 <= i < |log| && log[i].0 == x;
        assert log2[i].0 == x;
      }
    }
  }

  /** One fold: the resolved names become one, unless they already are or either is unknown. */
  ghost predicate FoldsTo(
    types: Table, renames: map<string, string>, log: Log, a: string, b: string,
    types2: Table, renames2: map<string, string>, log2: Log)
  {
    var x, y := Apply(log, a), Apply(log, b);
    if x == y || x !in types || y !in types then types2 == types && renames2 == renames && log2 == log
    else
      && Absorbable(types[x], types[y])
      && types2 == types[x := Absorb(types[x], types[y])] - {y}
      && renames2 == renames[y := x] && log2 == log + [(y, x)]
  }

  /** What one fold does to the wire names and to the table of types by wire name. */
  ghost predicate IndexFoldsTo(
    types: Table, log: Log, a: string, b: string, wires: Wires, keys: Keys, wires2: Wires, keys2: Keys)
  {
    var x, y := Apply(log, a), Apply(log, b);
    if x == y || x !in types || y !in types then wires2 == wires && keys2 == keys
    else x in wires && y in wires && wires2 == FoldWires(wires, x, y) && keys2 == Rekey(keys, x, wires[y])
  }

  lemma FoldKeepsIndex(types: Table, r: TypeDef, wires: Wires, keys: Keys, a: string, b: string)
    requires Indexed(types.Keys, wires, keys) && a in types && b in types && a != b
    ensures a in wires && b in wires
    ensures Indexed((types[a := r] - {b}).Keys, FoldWires(wires, a, b), Rekey(keys, a, wires[b]))
  {
    hide Distinct;
    FoldIndexed(types.Keys, wires, keys, a, b);
    assert (types[a := r] - {b}).Keys == types.Keys - {b};
  }

  lemma IndexFollows(
    types: Table, renames: map<string, string>, log: Log, a: string, b: string,
    types2: Table, renames2: map<string, string>, log2: Log,
    wires0: Wires, wires: Wires, keys: Keys, wires2: Wires, keys2: Keys)
    requires Sound(types, renames, log) && Indexed(types.Keys, wires, keys) && Follows(wires0, log, wires, keys)
    requires FoldsTo(types, renames, log, a, b, types2, renames2, log2)
    requires IndexFoldsTo(types, log, a, b, wires, keys, wires2, keys2)
    ensures Follows(wires0, log2, wires2, keys2)
  {
    hide Absorb, Absorbable, Indexed, Follows, Holds;
    ApplyLive(log, a);
    ApplyLive(log, b);
    var x, y := Apply(log, a), Apply(log, b);
    if x != y && x in types && y in types { FollowsFold(types.Keys, wires0, log, wires, keys, x, y); }
  }

  lemma FollowsRefl(types: Table, renames: map<string, string>, log: Log, wires: Wires, keys: Keys)
    requires Sound(types, renames, log) && Indexed(types.Keys, wires, keys)
    ensures Follows(wires, log, wires, keys)
  {
    hide Apply, Forest, Holds, Distinct;
    forall t | t in types ensures Apply(log, t) == t { Resolved(types, renames, log, t); }
  }

  lemma CanFold(c: Rel, types: Table, renames: map<string, string>, log: Log, a: string, b: string)
    requires Sound(types, renames, log) && Unifier(types, log, c) && AllExact(types)
    requires (a, b) in c && a in types.Keys + renames.Keys && b in types.Keys + renames.Keys
    ensures var x, y := Apply(log, a), Apply(log, b);
      && x in types && y in types && (x, y) in c && !Folded(log, x) && !Folded(log, y)
      && (x != y ==> Absorbable(types[x], types[y]))
  {
    hide SameType, Absorbable, Exact;
    Resolved(types, renames, log, a);
    Resolved(types, renames, log, b);
    ResolvedRelated(types, log, c, a, b);
    ApplyLive(log, a);
    ApplyLive(log, b);
    var x, y := Apply(log, a), Apply(log, b);
    if x != y { SameTypeAbsorbable(c, types[x], types[y]); }
  }

  /** A fold of two names that `c` identifies keeps everything promised about `c`, and identifies them. */
  lemma FoldKeeps(
    c: Rel, types: Table, renames: map<string, string>, log: Log, a: string, b: string,
    types2: Table, renames2: map<string, string>, log2: Log)
    requires Sound(types, renames, log) && Unifier(types, log, c) && AllExact(types)
    requires (a, b) in c && a in types.Keys + renames.Keys && b in types.Keys + renames.Keys
    requires FoldsTo(types, renames, log, a, b, types2, renames2, log2)
    ensures Unifier(types2, log2, c) && AllExact(types2) && Moves(c, types, log, types2, log2)
    ensures (a, b) in Kernel(log2) && types2.Keys + renames2.Keys == types.Keys + renames.Keys
  {
    hide SameType, Absorbable, Exact, Absorb, Forest, Holds, Bisimulation, Moves, Equivalence;
    CanFold(c, types, renames, log, a, b);
    var x, y := Apply(log, a), Apply(log, b);
    if x == y {
      MovesRefl(c, types, log);
    } else {
      assert Forest(log);
      FoldMoves(c, types, log, x, y);
      MovesUnifies(c, types, log, types2, log2);
      Extend(log, y, x);
    }
  }

  /** The two definitions can be identified without identifying different shapes. */
  ghost predicate Mergeable(types: Table, log: Log, a: TypeDef, b: TypeDef) {
    exists c: Rel :: Unifier(types, log, c) && SameType(c, a, b)
  }

  /** `k` identifies the two definitions, and no more than that takes. */
  ghost predicate Least(types: Table, log: Log, a: TypeDef, b: TypeDef, k: Rel) {
    && Unifier(types, log, k) && SameType(k, a, b)
    && forall c: Rel :: Unifier(types, log, c) && SameType(c, a, b) ==> k <= c
  }

  /** What comparing from no assumptions settles: the closure of the assumed pairs is the least unifier. */
  lemma ComparedLeast(types: Table, log: Log, a: TypeDef, b: TypeDef, pairs: Pairs)
    requires Compared(types, log, {}, pairs) && SameType(Linked(log, pairs), a, b)
    requires ForcedType(types, log, a, b, {}, true, pairs)
    requires Forest(log)
    ensures Least(types, log, a, b, Closure(Linked(log, pairs)))
  {
    hide SameType, Closure, Compared, Bisimulation;
    var l := Linked(log, pairs);
    ComparedBisimulation(types, log, pairs);
    BisimulationUnifies(types, log, l);
    forall p | p in Kernel(log) ensures p in l { assert p == (p.0, p.1); }
    assert l + Kernel(log) == l;
    TypeMono(l, Closure(l), a, b);
    ClosureLeast(l);
    forall c: Rel | Unifier(types, log, c) && SameType(c, a, b) ensures Closure(l) <= c {
      forall p | p in l ensures p in c { LinkedWithin(types, log, pairs, c, p.0, p.1); }
    }
  }

  lemma LinkedWithin(types: Table, log: Log, pairs: Pairs, c: Rel, x: string, y: string)
    requires Unifier(types, log, c) && Within(c, {}, pairs) && Forest(log) && (x, y) in Linked(log, pairs)
    ensures (x, y) in c
  {
    hide Bisimulation, Apply;
    var u, v := Apply(log, x), Apply(log, y);
    ApplyTwice(log, x);
    ApplyTwice(log, y);
    var k := Kernel(log);
    assert (x, u) in k && (v, y) in k;
    if u == v {
      assert (x, y) in k;
    } else {
      assert (x, u) in c && (u, v) in c && (v, y) in c;
      assert (x, v) in c;
    }
  }

  lemma Refused(types: Table, log: Log, a: TypeDef, b: TypeDef, after: Pairs)
    requires ForcedType(types, log, a, b, {}, false, after)
    ensures !Mergeable(types, log, a, b)
  {
  }

  /** Part way through folding `pairs`: those outside `rest` are identified. */
  ghost predicate Underway(
    c: Rel, before: Table, log0: Log, types: Table, renames: map<string, string>, log: Log, pairs: Pairs, rest: Pairs)
  {
    && Sound(types, renames, log) && AllExact(types) && Unifier(types, log, c) && Moves(c, before, log0, types, log)
    && (forall p :: p in pairs ==> p in c && p.0 in types.Keys + renames.Keys && p.1 in types.Keys + renames.Keys)
    && forall p :: p in pairs ==> p in rest || p in Kernel(log)
  }

  /** After a successful comparison the occurrence can be absorbed, and folding begins. */
  lemma Begin(types: Table, renames: map<string, string>, log: Log, name: string, t: TypeDef, pairs: Pairs)
    requires Sound(types, renames, log) && name in types && AllExact(types) && Exact(t)
    requires pairs <= AllPairs(types)
    requires Compared(types, log, {}, pairs) && SameType(Linked(log, pairs), types[name], t)
    requires ForcedType(types, log, types[name], t, {}, true, pairs)
    ensures Absorbable(types[name], t)
    ensures var c, types2 := Closure(Linked(log, pairs)), types[name := Absorb(types[name], t)];
      && Least(types, log, types[name], t, c)
      && Moves(c, types, log, types2, log)
      && Underway(c, types2, log, types2, renames, log, pairs, pairs)
      && SameType(c, t, types2[name]) && TypeNoTighter(t, types2[name])
  {
    hide SameType, TypeNoTighter, Absorbable, Absorb, Exact, Compared, Closure, ForcedType, Bisimulation, Moves, Forest, Holds;
    ComparedLeast(types, log, types[name], t, pairs);
    var c := Closure(Linked(log, pairs));
    AbsorbMoves(c, types, log, name, t);
    var types2 := types[name := Absorb(types[name], t)];
    MovesUnifies(c, types, log, types2, log);
    MovesRefl(c, types2, log);
    PairsLinked(types, renames, log, pairs);
    ClosureLeast(Linked(log, pairs));
  }

  lemma PairsLinked(types: Table, renames: map<string, string>, log: Log, pairs: Pairs)
    requires Sound(types, renames, log) && pairs <= AllPairs(types)
    ensures forall p :: p in pairs ==> p in Linked(log, pairs) && p.0 in types && p.1 in types
  {
    forall p | p in pairs ensures p in Linked(log, pairs) && p.0 in types && p.1 in types {
      Resolved(types, renames, log, p.0);
      Resolved(types, renames, log, p.1);
      assert p == (p.0, p.1);
    }
  }

  lemma UnderwayFolds(
    c: Rel, before: Table, log0: Log, types: Table, renames: map<string, string>, log: Log, pairs: Pairs, rest: Pairs,
    pair: (string, string))
    requires Underway(c, before, log0, types, renames, log, pairs, rest) && pair in pairs
    ensures Sound(types, renames, log)
    ensures var x, y := Apply(log, pair.0), Apply(log, pair.1);
      x != y && x in types && y in types ==> Absorbable(types[x], types[y])
  {
    hide Absorbable, Sound, Moves, AllExact, Unifier, Apply;
    assert pair == (pair.0, pair.1);
    CanFold(c, types, renames, log, pair.0, pair.1);
  }

  lemma UnderwayExact(
    c: Rel, before: Table, log0: Log, types: Table, renames: map<string, string>, log: Log, pairs: Pairs, rest: Pairs)
    requires Underway(c, before, log0, types, renames, log, pairs, rest)
    ensures AllExact(types) && Sound(types, renames, log)
  {
    hide AllExact, Sound, Unifier, Moves;
  }

  lemma Step(
    c: Rel, before: Table, log0: Log, types: Table, renames: map<string, string>, log: Log, pairs: Pairs, rest: Pairs,
    pair: (string, string), types2: Table, renames2: map<string, string>, log2: Log)
    requires Underway(c, before, log0, types, renames, log, pairs, rest) && pair in pairs
    requires Sound(types2, renames2, log2) && FoldsTo(types, renames, log, pair.0, pair.1, types2, renames2, log2)
    ensures Underway(c, before, log0, types2, renames2, log2, pairs, rest - {pair})
    ensures types2.Keys + renames2.Keys == types.Keys + renames.Keys
  {
    hide Sound, FoldsTo, Moved, AllExact, Bisimulation, Apply;
    assert pair == (pair.0, pair.1);
    FoldKeeps(c, types, renames, log, pair.0, pair.1, types2, renames2, log2);
    MovesTrans(c, before, log0, types, log, types2, log2);
    assert Kernel(log) <= Kernel(log2);
  }

  /** Once every pair is folded, names resolve alike exactly when the least unifier identifies them. */
  lemma Finish(c: Rel, before: Table, log0: Log, types: Table, renames: map<string, string>, log: Log, pairs: Pairs)
    requires Underway(c, before, log0, types, renames, log, pairs, {}) && c == Closure(Linked(log0, pairs)) && Forest(log0)
    ensures Kernel(log) == c
  {
    hide Sound, AllExact, Bisimulation, Moved, Apply;
    var l, k := Linked(log0, pairs), Kernel(log);
    KernelEquivalence(log);
    ClosureLeast(l);
    forall p | p in l ensures p in k {
      FinishPair(log0, log, pairs, p.0, p.1);
    }
    assert c <= k;
  }

  // ---- no bound is given up that every member of a class publishes ----

  /** The definition accepts whatever the originals that became `e`, and the occurrence if it did, accept. */
  ghost predicate AcceptsClass(types0: Table, name: string, t: TypeDef, log: Log, e: string, c: TypeDef) {
    && (forall x :: x in types0 && Apply(log, x) == e ==> TypeNoTighter(types0[x], c))
    && (Apply(log, name) == e ==> TypeNoTighter(t, c))
  }

  /** Each definition is no tighter than any definition that accepts its whole class. */
  ghost predicate Tightest(types0: Table, name: string, t: TypeDef, types: Table, log: Log) {
    forall e, c: TypeDef :: e in types && AcceptsClass(types0, name, t, log, e, c) ==> TypeNoTighter(types[e], c)
  }

  lemma TightestBegins(types: Table, renames: map<string, string>, log: Log, name: string, t: TypeDef)
    requires Sound(types, renames, log) && name in types && Absorbable(types[name], t) && AllExact(types)
    ensures Tightest(types, name, t, types[name := Absorb(types[name], t)], log)
  {
    hide TypeNoTighter, Absorb, Absorbable, Exact, Apply, Forest, Holds;
    var types2 := types[name := Absorb(types[name], t)];
    forall e, c: TypeDef | e in types2 && AcceptsClass(types, name, t, log, e, c) ensures TypeNoTighter(types2[e], c) {
      Resolved(types, renames, log, e);
      if e == name { AbsorbLeast(types[name], t, c); }
    }
  }

  lemma TightestFolds(
    types0: Table, name: string, t: TypeDef,
    types: Table, renames: map<string, string>, log: Log, a: string, b: string,
    types2: Table, renames2: map<string, string>, log2: Log)
    requires Sound(types, renames, log) && AllExact(types) && Tightest(types0, name, t, types, log)
    requires FoldsTo(types, renames, log, a, b, types2, renames2, log2)
    ensures Tightest(types0, name, t, types2, log2)
  {
    hide TypeNoTighter, Absorb, Absorbable, Exact, Apply, Holds, Forest;
    ApplyLive(log, a);
    ApplyLive(log, b);
    var x, y := Apply(log, a), Apply(log, b);
    if x != y && x in types && y in types {
      assert Forest(log);
      Extend(log, y, x);
      forall e, c: TypeDef | e in types2 && AcceptsClass(types0, name, t, log2, e, c) ensures TypeNoTighter(types2[e], c) {
        ClassBefore(types0, name, t, log, x, y, e, e, c);
        if e == x {
          ClassBefore(types0, name, t, log, x, y, e, y, c);
          AbsorbLeast(types[x], types[y], c);
        }
      }
    }
  }

  lemma ValuesFolds(
    types0: Table, name: string, t: TypeDef,
    types: Table, renames: map<string, string>, log: Log, a: string, b: string,
    types2: Table, renames2: map<string, string>, log2: Log)
    requires Sound(types, renames, log) && ValuesMerged(types0, name, t, types, log)
    requires FoldsTo(types, renames, log, a, b, types2, renames2, log2)
    ensures ValuesMerged(types0, name, t, types2, log2)
  {
    hide Absorb, Absorbable, Apply, Holds, Forest, Gathers, InOrder, Keeps, AllDifferent, OwnStays, Joined;
    ApplyLive(log, a);
    ApplyLive(log, b);
    var x, y := Apply(log, a), Apply(log, b);
    if x != y && x in types && y in types {
      assert Forest(log);
      Extend(log, y, x);
      ApplyTwice(log, a);
      ApplyTwice(log, b);
      ValuesFold(types0, name, t, types, log, x, y);
    }
  }

  /** Whoever was in the class of `from` before folding `y` into `x` is in the class of `e` after. */
  lemma ClassBefore(types0: Table, name: string, t: TypeDef, log: Log, x: string, y: string, e: string, from: string, c: TypeDef)
    requires AcceptsClass(types0, name, t, log + [(y, x)], e, c) && ((from == e && e != y) || (e == x && from == y))
    requires forall z {:trigger Apply(log, z)} :: Apply(log + [(y, x)], z) == if Apply(log, z) == y then x else Apply(log, z)
    ensures AcceptsClass(types0, name, t, log, from, c)
  {
    hide TypeNoTighter, Apply;
    forall z | z in types0 && Apply(log, z) == from ensures TypeNoTighter(types0[z], c) {
      assert Apply(log + [(y, x)], z) == e;
    }
    assert Apply(log, name) == from ==> Apply(log + [(y, x)], name) == e;
  }

  /** What the whole merge did to the table and to the occurrence. */
  lemma EndsMerged(
    c: Rel, types0: Table, before: Table, log0: Log, renames0: map<string, string>,
    types: Table, renames: map<string, string>, log: Log, pairs: Pairs, name: string, t: TypeDef)
    requires Sound(types0, renames0, log0) && name in types0 && name in before
    requires Least(types0, log0, types0[name], t, c)
    requires Moves(c, types0, log0, before, log0) && Underway(c, before, log0, types, renames, log, pairs, {})
    requires SameType(c, t, before[name]) && TypeNoTighter(t, before[name])
    ensures Sound(types, renames, log) && AllExact(types) && Mergeable(types0, log0, types0[name], t)
    ensures Moves(c, types0, log0, types, log)
    ensures var e := Apply(log, name); e in types && SameType(c, t, types[e]) && TypeNoTighter(t, types[e])
  {
    hide AllExact, SameType, TypeNoTighter, Apply, Bisimulation;
    Resolved(types0, renames0, log0, name);
    MovesTrans(c, types0, log0, before, log0, types, log);
    assert Moved(c, before, log0, types, log, name);
    var e := Apply(log, name);
    SymTrans(c, t, before[name], types[e]);
    TypeNoTighterTrans(t, before[name], types[e]);
  }

  lemma FinishPair(log0: Log, log: Log, pairs: Pairs, x: string, y: string)
    requires Forest(log0) && (x, y) in Linked(log0, pairs) && Kernel(log0) <= Kernel(log)
    requires forall p :: p in pairs ==> p in Kernel(log)
    ensures (x, y) in Kernel(log)
  {
    hide Apply;
    var u, v := Apply(log0, x), Apply(log0, y);
    ApplyTwice(log0, x);
    ApplyTwice(log0, y);
    var k := Kernel(log0);
    assert (x, u) in k && (v, y) in k;
    assert (x, u) in Kernel(log) && (v, y) in Kernel(log);
    assert u == v || (u, v) in Kernel(log);
  }

  class Ingester {
    var types: map<string, TypeDef>
    var renames: map<string, string>
    var wires: Wires
    var keys: Keys
    ghost var log: Log

    ghost predicate Valid() reads this { Sound(types, renames, log) && Indexed(types.Keys, wires, keys) }

    constructor ()
      ensures Valid() && types == map[] && renames == map[] && wires == map[] && keys == map[] && log == []
    {
      types, renames, wires, keys, log := map[], map[], map[], map[], [];
    }

    method Resolve(name: string) returns (r: string)
      requires Valid()
      ensures r == Apply(log, name) && r !in renames
      ensures name in types || name in renames ==> r in types
    {
      r := name;
      ghost var at := 0;
      while r in renames
        invariant Apply(log, r) == Apply(log, name)
        invariant at <= |log| && forall j :: 0 <= j < at ==> log[j].0 != r
        decreases |log| - at
      {
        assert Folded(log, r);
        ghost var i :| 0 <= i < |log| && log[i].0 == r;
        FollowSame(log, i);
        r := renames[r];
        at := i + 1;
      }
      Resolved(types, renames, log, r);
      Resolved(types, renames, log, name);
    }

    /**
     Terminates on cyclic definitions: each assumed pair is new and drawn from the
     table. Succeeds with every pair compared, and fails or adds a pair only when
     any way of identifying the two nodes would have to.
     */
    method SameNode(a: Node, b: Node, pairs: Pairs) returns (ok: bool, after: Pairs)
      requires Valid() && pairs <= AllPairs(types)
      ensures pairs <= after <= AllPairs(types)
      ensures ok ==> SameShape(Linked(log, after), a, b) && Compared(types, log, pairs, after)
      ensures ForcedNode(types, log, a, b, pairs, ok, after)
      decreases AllPairs(types) - pairs, 0, a
    {
      hide SameShape, SameType, Unifier, Linked, ForcedNode, ForcedType, Compared, AllPairs;
      NothingForced(types, log, a, b, pairs);
      NothingCompared(types, log, pairs);
      if a.RefNode? && b.RefNode? {
        var x := Resolve(a.ref);
        var y := Resolve(b.ref);
        if x == y || (x, y) in pairs {
          LinkedRefs(log, pairs, a, b);
          return true, pairs;
        }
        if x !in types || y !in types {
          RefusedRef(types, log, a, b, pairs);
          return false, pairs;
        }
        InAllPairs(types, x, y);
        ok, after := SameTypes(types[x], types[y], pairs + {(x, y)});
        ForcedRef(types, log, a, b, pairs, ok, after);
        if ok {
          ComparedAssumed(types, log, pairs, x, y, after);
          assert (x, y) in after;
          LinkedRefs(log, after, a, b);
        }
        return;
      }
      HeadAndKidsAll(a, b);
      if !SameHead(a, b) {
        RefusedHead(types, log, a, b, pairs);
        return false, pairs;
      }
      after := pairs;
      for i := 0 to |Kids(a)|
        invariant pairs <= after <= AllPairs(types)
        invariant Compared(types, log, pairs, after)
        invariant forall j :: 0 <= j < i ==> SameShape(Linked(log, after), Kids(a)[j], Kids(b)[j])
        invariant ForcedNode(types, log, a, b, pairs, true, after)
      {
        ghost var before := after;
        ok, after := SameNode(Kids(a)[i], Kids(b)[i], after);
        ForcedChild(types, log, a, b, Kids(a)[i], Kids(b)[i], pairs, before, ok, after);
        if !ok { return; }
        ComparedTrans(types, log, pairs, before, after);
        LinkedMono(log, before, after);
        forall j | 0 <= j < i ensures SameShape(Linked(log, after), Kids(a)[j], Kids(b)[j]) {
          ShapeMono(Linked(log, before), Linked(log, after), Kids(a)[j], Kids(b)[j]);
        }
      }
      ok := true;
    }

    method SameTypes(a: TypeDef, b: TypeDef, pairs: Pairs) returns (ok: bool, after: Pairs)
      requires Valid() && pairs <= AllPairs(types)
      ensures pairs <= after <= AllPairs(types)
      ensures ok ==> SameType(Linked(log, after), a, b) && Compared(types, log, pairs, after)
      ensures ForcedType(types, log, a, b, pairs, ok, after)
      decreases AllPairs(types) - pairs, 1
    {
      hide SameShape, Unifier, Linked, ForcedNode, ForcedType, Compared, AllPairs, SameField, SameVariant;
      NothingForcedType(types, log, a, b, pairs);
      NothingCompared(types, log, pairs);
      after := pairs;
      if a.Struct? && b.Struct? {
        if |a.fields| != |b.fields| {
          RefusedType(types, log, a, b, pairs, pairs);
          return false, pairs;
        }
        for i := 0 to |a.fields|
          invariant pairs <= after <= AllPairs(types)
          invariant Compared(types, log, pairs, after)
          invariant forall j :: 0 <= j < i ==> SameField(Linked(log, after), a.fields[j], b.fields[j])
          invariant ForcedType(types, log, a, b, pairs, true, after)
        {
          FieldOf(a, b, i);
          if a.fields[i].name != b.fields[i].name {
            RefusedType(types, log, a, b, pairs, after);
            return false, after;
          }
          ghost var before := after;
          ok, after := SameNode(a.fields[i].node, b.fields[i].node, after);
          ForcedPart(types, log, a, b, a.fields[i].node, b.fields[i].node, pairs, before, ok, after);
          if !ok { return; }
          ComparedTrans(types, log, pairs, before, after);
          LinkedMono(log, before, after);
          forall j | 0 <= j < i ensures SameField(Linked(log, after), a.fields[j], b.fields[j]) {
            FieldMono(Linked(log, before), Linked(log, after), a.fields[j], b.fields[j]);
          }
          MadeField(Linked(log, after), a.fields[i], b.fields[i]);
        }
        ok := true;
      } else if a.Enum? && b.Enum? && a.repr == b.repr {
        ok := true;
      } else if a.Union? && b.Union? && a.repr == b.repr {
        if |a.variants| != |b.variants| {
          RefusedType(types, log, a, b, pairs, pairs);
          return false, pairs;
        }
        for i := 0 to |a.variants|
          invariant pairs <= after <= AllPairs(types)
          invariant Compared(types, log, pairs, after)
          invariant forall j :: 0 <= j < i ==> SameVariant(Linked(log, after), a.variants[j], b.variants[j])
          invariant ForcedType(types, log, a, b, pairs, true, after)
        {
          VariantOf(a, b, i);
          if !SameTag(a.variants[i], b.variants[i]) {
            RefusedType(types, log, a, b, pairs, after);
            return false, after;
          }
          ghost var before := after;
          if a.variants[i].payload.Some? {
            ok, after := SameNode(a.variants[i].payload.value, b.variants[i].payload.value, after);
            ForcedPart(types, log, a, b, a.variants[i].payload.value, b.variants[i].payload.value, pairs, before, ok, after);
            if !ok { return; }
            ComparedTrans(types, log, pairs, before, after);
          }
          LinkedMono(log, before, after);
          forall j | 0 <= j < i ensures SameVariant(Linked(log, after), a.variants[j], b.variants[j]) {
            VariantMono(Linked(log, before), Linked(log, after), a.variants[j], b.variants[j]);
          }
          MadeVariant(Linked(log, after), a.variants[i], b.variants[i]);
        }
        ok := true;
      } else {
        ok := false;
        RefusedType(types, log, a, b, pairs, pairs);
      }
    }

    /** Replaces what `b` resolves to by the wire-identical type `a` resolves to. */
    method Fold(a: string, b: string)
      requires Valid()
      requires var x, y := Apply(log, a), Apply(log, b);
        x != y && x in types && y in types ==> Absorbable(types[x], types[y])
      modifies this
      ensures Valid()
      ensures FoldsTo(old(types), old(renames), old(log), a, b, types, renames, log)
      ensures IndexFoldsTo(old(types), old(log), a, b, old(wires), old(keys), wires, keys)
      ensures var x, y := Apply(old(log), a), Apply(old(log), b);
        x != y && x in old(types) && y in old(types) ==>
          && x in types && OwnStays(old(types)[x], types[x])
          && (old(types)[x].Enum? ==> Combines(old(types)[x], old(types)[y], types[x]))
    {
      hide Absorb, Absorbable, Sound, Indexed, AppendAll, Rekey, Combines, OwnStays;
      var x := Resolve(a);
      var y := Resolve(b);
      if x == y || x !in types || y !in types { return; }
      AbsorbCombines(types[x], types[y]);
      SoundFold(types, renames, log, x, y, Absorb(types[x], types[y]));
      FoldKeepsIndex(types, Absorb(types[x], types[y]), wires, keys, x, y);
      types := types[x := Absorb(types[x], types[y])];
      var list, index := PassWires(wires[x], wires[y], keys, x);
      wires, keys := wires[x := list] - {y}, index;
      renames := renames[y := x];
      types := types - {y};
      log := log + [(y, x)];
    }

    /**
     Folds a repeat occurrence of a type into the table. It succeeds exactly when the
     occurrences can be identified. Then two names resolve alike exactly when that
     identification requires it, whatever order the pairs are folded in; and every
     name, and the occurrence itself, ends at a definition of its own wire shape that
     is no tighter.
     */
    method Merge(name: string, t: TypeDef) returns (ok: bool)
      requires Valid() && name in types && AllExact(types) && Exact(t)
      modifies this
      ensures Valid() && AllExact(types)
      ensures ok <==> Mergeable(old(types), old(log), old(types)[name], t)
      ensures !ok ==> types == old(types) && renames == old(renames) && log == old(log) && wires == old(wires) && keys == old(keys)
      ensures ok ==> Least(old(types), old(log), old(types)[name], t, Kernel(log))
      ensures ok ==> Moves(Kernel(log), old(types), old(log), types, log)
      ensures ok ==> var e := Apply(log, name); e in types && SameType(Kernel(log), t, types[e]) && TypeNoTighter(t, types[e])
      ensures ok ==> Tightest(old(types), name, t, types, log)
      ensures ok ==> ValuesMerged(old(types), name, t, types, log)
      ensures types.Keys + renames.Keys == old(types.Keys + renames.Keys)
      ensures Follows(old(wires), log, wires, keys)
    {
      hide SameType, TypeNoTighter, Exact, Absorb, Absorbable, Closure, Moves, Unifier, Least, Underway, FoldsTo, ForcedType, Mergeable,
        Indexed, IndexFoldsTo, Follows, Tightest, AllExact, ValuesMerged, Combines, Apply;
      FollowsRefl(types, renames, log, wires, keys);
      var pairs: Pairs;
      ok, pairs := SameTypes(types[name], t, {});
      if !ok {
        Refused(types, log, types[name], t, pairs);
        return;
      }
      ghost var c := Closure(Linked(log, pairs));
      Begin(types, renames, log, name, t, pairs);
      TightestBegins(types, renames, log, name, t);
      forall x | x in types ensures Apply(log, x) == x { Resolved(types, renames, log, x); }
      ValuesBegin(types, log, name, t);
      types := types[name := Absorb(types[name], t)];
      ghost var absorbed := types;
      assert types.Keys == old(types).Keys;
      var rest := pairs;
      while rest != {}
        invariant rest <= pairs
        invariant Underway(c, absorbed, old(log), types, renames, log, pairs, rest)
        invariant types.Keys + renames.Keys == old(types.Keys + renames.Keys)
        invariant Indexed(types.Keys, wires, keys) && Follows(old(wires), log, wires, keys)
        invariant Tightest(old(types), name, t, types, log) && ValuesMerged(old(types), name, t, types, log)
      {
        var pair :| pair in rest;
        UnderwayFolds(c, absorbed, old(log), types, renames, log, pairs, rest, pair);
        ghost var types1, renames1, log1, wires1, keys1 := types, renames, log, wires, keys;
        Fold(pair.0, pair.1);
        UnderwayExact(c, absorbed, old(log), types1, renames1, log1, pairs, rest);
        TightestFolds(old(types), name, t, types1, renames1, log1, pair.0, pair.1, types, renames, log);
        ValuesFolds(old(types), name, t, types1, renames1, log1, pair.0, pair.1, types, renames, log);
        IndexFollows(types1, renames1, log1, pair.0, pair.1, types, renames, log, old(wires), wires1, keys1, wires, keys);
        Step(c, absorbed, old(log), types1, renames1, log1, pairs, rest, pair, types, renames, log);
        rest := rest - {pair};
      }
      Finish(c, absorbed, old(log), types, renames, log, pairs);
      EndsMerged(c, old(types), absorbed, old(log), old(renames), types, renames, log, pairs, name, t);
    }
  }
}
