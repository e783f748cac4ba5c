/** What merging occurrences means on the wire. */
module Unification {
  import opened Wire
  import opened Values
  import opened Schemas
  import opened Shapes
  import opened Meaning
  import opened Simulation
  import opened Carrying
  import opened Renames
  import opened Congruence
  import opened Merging
  import opened Absorbing
  import opened Folding
  import opened Ingest

  /** Every known name with the definition it resolves to: the schema as its references are read. */
  function Effective(types: Table, renames: map<string, string>, log: Log): Table {
    map x | x in types.Keys + renames.Keys && Apply(log, x) in types :: types[Apply(log, x)]
  }

  // ---- nothing accepted before a merge is rejected after it ----

  lemma MovesSimulate(
    types0: Table, renames0: map<string, string>, log0: Log, types: Table, renames: map<string, string>, log: Log,
    s: Schema, t: Schema)
    requires Sound(types0, renames0, log0) && Sound(types, renames, log)
    requires types.Keys + renames.Keys == types0.Keys + renames0.Keys
    requires Moves(Kernel(log), types0, log0, types, log)
    requires s.types == Effective(types0, renames0, log0) && t.types == Effective(types, renames, log)
    ensures Simulates(Kernel(log), s, t)
  {
    hide SameType, TypeNoTighter, Apply, Forest, Holds;
    var k := Kernel(log);
    forall x, y | (x, y) in k && x in s.types
      ensures y in t.types && SameType(k, s.types[x], t.types[y]) && TypeNoTighter(s.types[x], t.types[y])
    {
      assert Moved(k, types0, log0, types, log, x);
      Resolved(types, renames, log, y);
    }
  }

  lemma SelfCarried(c: Rel, s: Schema, t: Schema, n: Node, v: Value)
    requires (forall x :: (x, x) in c) && Simulates(c, s, t) && Valid(s, n, v)
    ensures Carries(s, n, t, n, v)
  {
    ShapeRefl(c, n);
    NoTighterRefl(n);
    Carried(c, s, n, t, n, v);
  }

  /** Every value of every shape stays valid through a merge, with the same bytes. */
  lemma MergeLosesNothing(
    types0: Table, renames0: map<string, string>, log0: Log, types: Table, renames: map<string, string>, log: Log,
    s: Schema, t: Schema, n: Node, v: Value)
    requires Sound(types0, renames0, log0) && Sound(types, renames, log)
    requires types.Keys + renames.Keys == types0.Keys + renames0.Keys
    requires Moves(Kernel(log), types0, log0, types, log)
    requires s.types == Effective(types0, renames0, log0) && t.types == Effective(types, renames, log)
    requires Valid(s, n, v)
    ensures Carries(s, n, t, n, v)
  {
    hide Sound, Moves, Effective, Simulates, Carries;
    MovesSimulate(types0, renames0, log0, types, renames, log, s, t);
    SelfCarried(Kernel(log), s, t, n, v);
  }

  lemma OccurrenceSimulates(
    types0: Table, renames0: map<string, string>, log0: Log, types: Table, renames: map<string, string>, log: Log,
    name: string, occurrence: TypeDef, s: Schema, t: Schema)
    requires Sound(types0, renames0, log0) && Sound(types, renames, log)
    requires types.Keys + renames.Keys == types0.Keys + renames0.Keys
    requires Moves(Kernel(log), types0, log0, types, log)
    requires name in types0
    requires var e := Apply(log, name); e in types && SameType(Kernel(log), occurrence, types[e]) && TypeNoTighter(occurrence, types[e])
    requires s.types == Effective(types0, renames0, log0)[name := occurrence] && t.types == Effective(types, renames, log)
    ensures Simulates(Kernel(log), s, t)
  {
    hide Moves, SameType, TypeNoTighter, Apply, Forest, Holds;
    var k := Kernel(log);
    var s0 := Schema(Effective(types0, renames0, log0), {});
    MovesSimulate(types0, renames0, log0, types, renames, log, s0, t);
    forall x, y | (x, y) in k && x in s.types
      ensures y in t.types && SameType(k, s.types[x], t.types[y]) && TypeNoTighter(s.types[x], t.types[y])
    {
      if x == name {
        Resolved(types, renames, log, y);
      } else {
        assert x in s0.types && s.types[x] == s0.types[x];
      }
    }
  }

  /** The same for the merged occurrence: what its own definition accepted, its name accepts after the merge. */
  lemma OccurrenceLosesNothing(
    types0: Table, renames0: map<string, string>, log0: Log, types: Table, renames: map<string, string>, log: Log,
    name: string, occurrence: TypeDef, s: Schema, t: Schema, n: Node, v: Value)
    requires Sound(types0, renames0, log0) && Sound(types, renames, log)
    requires types.Keys + renames.Keys == types0.Keys + renames0.Keys
    requires Moves(Kernel(log), types0, log0, types, log)
    requires name in types0
    requires var e := Apply(log, name); e in types && SameType(Kernel(log), occurrence, types[e]) && TypeNoTighter(occurrence, types[e])
    requires s.types == Effective(types0, renames0, log0)[name := occurrence] && t.types == Effective(types, renames, log)
    requires Valid(s, n, v)
    ensures Carries(s, n, t, n, v)
  {
    hide Moves, SameType, TypeNoTighter, Valid, Carries, Apply, Effective, Simulates, Sound;
    OccurrenceSimulates(types0, renames0, log0, types, renames, log, name, occurrence, s, t);
    SelfCarried(Kernel(log), s, t, n, v);
  }

  /** Folding the pairs in another order leads to the same partition of names. */
  lemma OrderIndependent(types: Table, log: Log, a: TypeDef, b: TypeDef, log1: Log, log2: Log)
    requires Least(types, log, a, b, Kernel(log1)) && Least(types, log, a, b, Kernel(log2))
    ensures forall x, y :: Apply(log1, x) == Apply(log1, y) <==> Apply(log2, x) == Apply(log2, y)
  {
    hide Apply, SameType, Bisimulation;
    forall x, y ensures Apply(log1, x) == Apply(log1, y) <==> Apply(log2, x) == Apply(log2, y) {
      assert (x, y) in Kernel(log1) <==> (x, y) in Kernel(log2);
    }
  }

  /**
   Nor do the bounds: the definitions a name ends at in two orders are no tighter
   than each other.
   */
  lemma OrderKeepsBounds(
    types0: Table, log0: Log, name: string, t: TypeDef, types1: Table, log1: Log, types2: Table, log2: Log, x: string)
    requires name in types0
    requires Least(types0, log0, types0[name], t, Kernel(log1)) && Least(types0, log0, types0[name], t, Kernel(log2))
    requires Moves(Kernel(log1), types0, log0, types1, log1) && Moves(Kernel(log2), types0, log0, types2, log2)
    requires Tightest(types0, name, t, types1, log1) && Tightest(types0, name, t, types2, log2)
    requires forall y :: y in types0 ==> Apply(log0, y) == y
    requires Apply(log1, name) in types1 && TypeNoTighter(t, types1[Apply(log1, name)])
    requires Apply(log2, name) in types2 && TypeNoTighter(t, types2[Apply(log2, name)])
    requires Apply(log1, x) in types1 && Apply(log2, x) in types2
    ensures TypeNoTighter(types1[Apply(log1, x)], types2[Apply(log2, x)])
    ensures TypeNoTighter(types2[Apply(log2, x)], types1[Apply(log1, x)])
  {
    hide Least, Moves, Tightest, TypeNoTighter, Apply, AcceptsClass;
    OrderIndependent(types0, log0, types0[name], t, log1, log2);
    AcceptsOther(types0, log0, name, t, types2, log1, log2, x);
    AcceptsOther(types0, log0, name, t, types1, log2, log1, x);
    TightestAt(types0, name, t, types1, log1, Apply(log1, x), types2[Apply(log2, x)]);
    TightestAt(types0, name, t, types2, log2, Apply(log2, x), types1[Apply(log1, x)]);
  }

  lemma TightestAt(types0: Table, name: string, t: TypeDef, types: Table, log: Log, e: string, c: TypeDef)
    requires Tightest(types0, name, t, types, log) && e in types && AcceptsClass(types0, name, t, log, e, c)
    ensures TypeNoTighter(types[e], c)
  {
    hide TypeNoTighter, AcceptsClass;
  }

  /** The definition in one order accepts the class in the other. */
  lemma AcceptsOther(types0: Table, log0: Log, name: string, t: TypeDef, types2: Table, log1: Log, log2: Log, x: string)
    requires Moves(Kernel(log2), types0, log0, types2, log2) && forall y :: y in types0 ==> Apply(log0, y) == y
    requires forall y, z :: Apply(log1, y) == Apply(log1, z) <==> Apply(log2, y) == Apply(log2, z)
    requires Apply(log2, name) in types2 && TypeNoTighter(t, types2[Apply(log2, name)]) && Apply(log2, x) in types2
    ensures AcceptsClass(types0, name, t, log1, Apply(log1, x), types2[Apply(log2, x)])
  {
    hide TypeNoTighter, Apply, SameType;
    forall y | y in types0 && Apply(log1, y) == Apply(log1, x) ensures TypeNoTighter(types0[y], types2[Apply(log2, x)]) {
      assert Moved(Kernel(log2), types0, log0, types2, log2, y);
    }
  }

  // ---- rewriting references ----

  /** Replaces every reference by the name it resolves to. */
  function Rename(log: Log, n: Node): Node {
    match n
    case LeafNode(_) => n
    case ListNode(p, e, lo, hi) => ListNode(p, Rename(log, e), lo, hi)
    case EntryNode(k, v) => EntryNode(Rename(log, k), Rename(log, v))
    case FixedNode(len, e) => FixedNode(len, Rename(log, e))
    case OptionalNode(v) => OptionalNode(Rename(log, v))
    case RefNode(r, allowed) => RefNode(Apply(log, r), allowed)
  }

  function RenameField(log: Log, f: Field): Field { Field(f.name, Rename(log, f.node)) }

  function RenameVariant(log: Log, v: Variant): Variant {
    Variant(v.name, v.value, if v.payload.Some? then Some(Rename(log, v.payload.value)) else None)
  }

  function RenameType(log: Log, t: TypeDef): TypeDef {
    match t
    case Struct(fields, checks) => Struct(seq(|fields|, i requires 0 <= i < |fields| => RenameField(log, fields[i])), checks)
    case Enum(_, _) => t
    case Union(repr, variants) => Union(repr, seq(|variants|, i requires 0 <= i < |variants| => RenameVariant(log, variants[i])))
  }

  function RenameAll(types: Table, log: Log): Table { map x | x in types :: RenameType(log, types[x]) }

  /** Where every reference is live already, nothing changes: not a name, a number or a check. */
  lemma RenamesOnlyRefs(log: Log, t: TypeDef)
    requires forall r :: r in TypeRefs(t) ==> Apply(log, r) == r
    ensures RenameType(log, t) == t
  {
    match t
    case Struct(fields, _) =>
      forall i | 0 <= i < |fields| ensures RenameField(log, fields[i]) == fields[i] {
        SeqRefsHas(FieldNodes(fields), i);
        RenamesLive(log, fields[i].node);
      }
    case Enum(_, _) =>
    case Union(_, variants) =>
      forall i | 0 <= i < |variants| ensures RenameVariant(log, variants[i]) == variants[i] {
        if variants[i].payload.Some? {
          PayloadRefsAt(variants, i);
          RenamesLive(log, variants[i].payload.value);
        }
      }
  }

  lemma {:induction false} PayloadRefsAt(variants: seq<Variant>, i: nat)
    requires i < |variants| && variants[i].payload.Some?
    ensures NodeRefs(variants[i].payload.value) <= SeqRefs(VariantNodes(variants))
  {
    var first, rest := PayloadNodes(variants[0]), VariantNodes(variants[1..]);
    if i > 0 {
      PayloadRefsAt(variants[1..], i - 1);
      if |first| > 0 { assert (first + rest)[1..] == rest; } else { assert first + rest == rest; }
    }
  }

  lemma {:induction false} RenamesLive(log: Log, n: Node)
    requires forall r :: r in NodeRefs(n) ==> Apply(log, r) == r
    ensures Rename(log, n) == n
  {
    match n
    case LeafNode(_) =>
    case ListNode(_, e, _, _) => RenamesLive(log, e);
    case EntryNode(k, v) => RenamesLive(log, k); RenamesLive(log, v);
    case FixedNode(_, e) => RenamesLive(log, e);
    case OptionalNode(v) => RenamesLive(log, v);
    case RefNode(_, _) =>
  }

  /** Each name with what it resolves to. */
  ghost function Resolving(log: Log): Rel { iset x: string :: (x, Apply(log, x)) }

  lemma {:induction false} RenamedShape(log: Log, n: Node)
    ensures SameShape(Resolving(log), n, Rename(log, n)) && SameShape(Converse(Resolving(log)), Rename(log, n), n)
    ensures NoTighter(n, Rename(log, n)) && NoTighter(Rename(log, n), n)
  {
    match n
    case LeafNode(_) =>
    case ListNode(_, e, _, _) => RenamedShape(log, e);
    case EntryNode(k, v) => RenamedShape(log, k); RenamedShape(log, v);
    case FixedNode(_, e) => RenamedShape(log, e);
    case OptionalNode(v) => RenamedShape(log, v);
    case RefNode(_, _) =>
  }

  lemma RenamedType(log: Log, t: TypeDef)
    requires Exact(t)
    ensures SameType(Resolving(log), t, RenameType(log, t)) && SameType(Converse(Resolving(log)), RenameType(log, t), t)
    ensures TypeNoTighter(t, RenameType(log, t)) && TypeNoTighter(RenameType(log, t), t)
  {
    hide SameShape, NoTighter, Rename, Resolving, Converse, ExactBounds;
    var r := RenameType(log, t);
    if t.Struct? {
      forall i | 0 <= i < |t.fields|
        ensures SameField(Resolving(log), t.fields[i], r.fields[i]) && SameField(Converse(Resolving(log)), r.fields[i], t.fields[i])
          && NoTighter(t.fields[i].node, r.fields[i].node) && NoTighter(r.fields[i].node, t.fields[i].node)
      {
        RenamedShape(log, t.fields[i].node);
      }
    } else if t.Union? {
      forall i | 0 <= i < |t.variants|
        ensures SameVariant(Resolving(log), t.variants[i], r.variants[i])
          && SameVariant(Converse(Resolving(log)), r.variants[i], t.variants[i])
          && PayloadNoTighter(t.variants[i], r.variants[i]) && PayloadNoTighter(r.variants[i], t.variants[i])
      {
        if t.variants[i].payload.Some? { RenamedShape(log, t.variants[i].payload.value); }
      }
    }
  }

  lemma RenamedSimulates(types: Table, renames: map<string, string>, log: Log, s: Schema, t: Schema)
    requires Sound(types, renames, log) && AllExact(types)
    requires s.types == Effective(types, renames, log) && t.types == RenameAll(types, log)
    ensures Simulates(Resolving(log), s, t)
  {
    hide SameType, TypeNoTighter, Exact, Forest, Holds, Apply, RenameType;
    var rel := Resolving(log);
    forall x, y | (x, y) in rel && x in s.types
      ensures y in t.types && SameType(rel, s.types[x], t.types[y]) && TypeNoTighter(s.types[x], t.types[y])
    {
      RenamedType(log, types[y]);
    }
  }

  lemma RenamedSimulatesBack(types: Table, renames: map<string, string>, log: Log, s: Schema, t: Schema)
    requires Sound(types, renames, log) && AllExact(types)
    requires s.types == Effective(types, renames, log) && t.types == RenameAll(types, log)
    ensures Simulates(Converse(Resolving(log)), t, s)
  {
    hide SameType, TypeNoTighter, Exact, Forest, Holds, Apply, RenameType;
    var back := Converse(Resolving(log));
    forall y, x | (y, x) in back && y in t.types
      ensures x in s.types && SameType(back, t.types[y], s.types[x]) && TypeNoTighter(t.types[y], s.types[x])
    {
      Resolved(types, renames, log, x);
      RenamedType(log, types[y]);
    }
  }

  /** Rewriting every reference to the name it resolves to changes neither what is accepted nor its bytes. */
  lemma RenameMeansTheSame(
    types: Table, renames: map<string, string>, log: Log, s: Schema, t: Schema, n: Node, v: Value)
    requires Sound(types, renames, log) && AllExact(types)
    requires s.types == Effective(types, renames, log) && t.types == RenameAll(types, log)
    ensures Valid(s, n, v) <==> Valid(t, Rename(log, n), v)
    ensures Valid(s, n, v) ==> Bytes(t, Rename(log, n), v) == Bytes(s, n, v)
  {
    hide Valid, Bytes, Sound, AllExact, Simulates, Effective, RenameAll, Rename, SameShape, NoTighter, Resolving, Converse;
    RenamedSimulates(types, renames, log, s, t);
    RenamedSimulatesBack(types, renames, log, s, t);
    RenamedShape(log, n);
    if Valid(s, n, v) { Carried(Resolving(log), s, n, t, Rename(log, n), v); }
    if Valid(t, Rename(log, n), v) { Carried(Converse(Resolving(log)), t, Rename(log, n), s, n, v); }
  }

  /** No reference to a folded name is left. */
  lemma {:induction false} RenamedRefsLive(types: Table, renames: map<string, string>, log: Log, n: Node)
    requires Sound(types, renames, log)
    ensures NodeRefs(Rename(log, n)) !! renames.Keys
    ensures NodeRefs(n) <= types.Keys + renames.Keys ==> NodeRefs(Rename(log, n)) <= types.Keys
  {
    match n
    case LeafNode(_) =>
    case ListNode(_, e, _, _) => RenamedRefsLive(types, renames, log, e);
    case EntryNode(k, v) => RenamedRefsLive(types, renames, log, k); RenamedRefsLive(types, renames, log, v);
    case FixedNode(_, e) => RenamedRefsLive(types, renames, log, e);
    case OptionalNode(v) => RenamedRefsLive(types, renames, log, v);
    case RefNode(r, _) => Resolved(types, renames, log, r);
  }

  // ---- the whole way in bytes: merged, and with references rewritten ----

  /** Seen from before the merge, the rewritten table stands for every name's definition. */
  lemma RewrittenSimulates(types: Table, renames: map<string, string>, log: Log, s: Schema, e: Schema, t: Schema)
    requires Sound(types, renames, log) && AllExact(types) && Simulates(Kernel(log), s, e)
    requires s.types.Keys <= types.Keys + renames.Keys
    requires e.types == Effective(types, renames, log) && t.types == RenameAll(types, log)
    ensures Simulates(Resolving(log), s, t)
  {
    hide SameType, TypeNoTighter, Exact, Forest, Holds, Apply, RenameType, Effective;
    var k, rel := Kernel(log), Resolving(log);
    EffectiveAt(types, renames, log);
    forall p | p in Composed(k, rel) ensures p in rel { }
    forall x, y | (x, y) in rel && x in s.types
      ensures y in t.types && SameType(rel, s.types[x], t.types[y]) && TypeNoTighter(s.types[x], t.types[y])
    {
      assert (x, x) in k;
      RenamedType(log, types[y]);
      TypeTrans(k, rel, s.types[x], types[y], t.types[y]);
      TypeMono(Composed(k, rel), rel, s.types[x], t.types[y]);
      TypeNoTighterTrans(s.types[x], types[y], t.types[y]);
    }
  }

  lemma EffectiveAt(types: Table, renames: map<string, string>, log: Log)
    requires Sound(types, renames, log)
    ensures var e := Effective(types, renames, log);
      forall x :: x in types.Keys + renames.Keys ==> x in e && Apply(log, x) in types && e[x] == types[Apply(log, x)]
  {
    hide Apply, Forest, Holds;
    forall x | x in types.Keys + renames.Keys ensures Apply(log, x) in types { Resolved(types, renames, log, x); }
  }

  /**
   Bytes that decode before a merge decode after it and after the references are
   rewritten, to the same value and the same rest, unless the value nests deeper
   than the limit as the new schema counts it: then, and only then, they fail.
   */
  lemma MergeDecodes(
    types0: Table, renames0: map<string, string>, log0: Log, types: Table, renames: map<string, string>, log: Log,
    s: MarkedSchema, t: MarkedSchema, n: Node, L: Limits, d: nat, L': Limits, d': nat, bs: bytes)
    requires Sound(types0, renames0, log0) && Sound(types, renames, log) && AllExact(types)
    requires types.Keys + renames.Keys == types0.Keys + renames0.Keys
    requires Moves(Kernel(log), types0, log0, types, log)
    requires s.types == Effective(types0, renames0, log0) && t.types == RenameAll(types, log)
    requires L'.Valid() && LongerThan(L', L) && d' <= L'.maxNestingDepth
    ensures DecodesAlike(s, n, L, d, t, Rename(log, n), L', d', bs)
  {
    hide Sound, Moves, AllExact, Simulates, SameShape, NoTighter, Rename, RenameAll, DecodesAlike, Effective;
    var e := Schema(Effective(types, renames, log), {});
    MovesSimulate(types0, renames0, log0, types, renames, log, s, e);
    EffectiveKeys(types0, renames0, log0);
    RewrittenSimulates(types, renames, log, s, e, t);
    RenamedShape(log, n);
    CarriedDecodes(Resolving(log), s, n, L, d, t, Rename(log, n), L', d', bs);
  }

  lemma EffectiveKeys(types: Table, renames: map<string, string>, log: Log)
    ensures Effective(types, renames, log).Keys <= types.Keys + renames.Keys
  {
  }

  /** The same for bytes the merged occurrence's own definition accepted. */
  lemma OccurrenceDecodes(
    types0: Table, renames0: map<string, string>, log0: Log, types: Table, renames: map<string, string>, log: Log,
    name: string, occurrence: TypeDef,
    s: MarkedSchema, t: MarkedSchema, n: Node, L: Limits, d: nat, L': Limits, d': nat, bs: bytes)
    requires Sound(types0, renames0, log0) && Sound(types, renames, log) && AllExact(types)
    requires types.Keys + renames.Keys == types0.Keys + renames0.Keys
    requires Moves(Kernel(log), types0, log0, types, log)
    requires name in types0
    requires var e := Apply(log, name); e in types && SameType(Kernel(log), occurrence, types[e]) && TypeNoTighter(occurrence, types[e])
    requires s.types == Effective(types0, renames0, log0)[name := occurrence] && t.types == RenameAll(types, log)
    requires L'.Valid() && LongerThan(L', L) && d' <= L'.maxNestingDepth
    ensures DecodesAlike(s, n, L, d, t, Rename(log, n), L', d', bs)
  {
    hide Sound, Moves, AllExact, Simulates, SameShape, NoTighter, SameType, TypeNoTighter, Rename, RenameAll, DecodesAlike,
      Effective, Apply;
    var e := Schema(Effective(types, renames, log), {});
    OccurrenceSimulates(types0, renames0, log0, types, renames, log, name, occurrence, s, e);
    EffectiveKeys(types0, renames0, log0);
    RewrittenSimulates(types, renames, log, s, e, t);
    RenamedShape(log, n);
    CarriedDecodes(Resolving(log), s, n, L, d, t, Rename(log, n), L', d', bs);
  }

  // ---- comparing equal means the same wire language, bounds aside ----

  lemma {:induction false} StrippedNoTighter(rel: Rel, a: Node, b: Node)
    requires SameShape(rel, a, b)
    ensures NoTighter(Strip(a), Strip(b))
  {
    match a
    case LeafNode(_) =>
    case ListNode(_, e, _, _) => StrippedNoTighter(rel, e, b.element);
    case EntryNode(k, x) => StrippedNoTighter(rel, k, b.key); StrippedNoTighter(rel, x, b.value);
    case FixedNode(_, e) => StrippedNoTighter(rel, e, b.element);
    case OptionalNode(x) => StrippedNoTighter(rel, x, b.inner);
    case RefNode(_, _) =>
  }

  lemma StrippedTypeNoTighter(rel: Rel, a: TypeDef, b: TypeDef)
    requires SameType(rel, a, b)
    ensures TypeNoTighter(StripType(a), StripType(b))
  {
    hide SameShape, NoTighter, Strip;
    var p, q := StripType(a), StripType(b);
    if a.Struct? {
      forall i | 0 <= i < |p.fields| ensures NoTighter(p.fields[i].node, q.fields[i].node) {
        assert SameField(rel, a.fields[i], b.fields[i]);
        StrippedNoTighter(rel, a.fields[i].node, b.fields[i].node);
      }
    } else if a.Union? {
      forall i | 0 <= i < |p.variants| ensures PayloadNoTighter(p.variants[i], q.variants[i]) {
        assert SameVariant(rel, a.variants[i], b.variants[i]);
        if a.variants[i].payload.Some? { StrippedNoTighter(rel, a.variants[i].payload.value, b.variants[i].payload.value); }
      }
    }
  }

  function StripAll(types: Table): Table { map x | x in types :: StripType(types[x]) }

  /** A unifier relates only names with the same values and bytes once bounds are removed. */
  lemma UnifiedSameWire(types: Table, renames: map<string, string>, log: Log, c: Rel, a: Node, b: Node, s: Schema, v: Value)
    requires Sound(types, renames, log) && Unifier(types, log, c) && SameShape(c, a, b)
    requires s.types == StripAll(Effective(types, renames, log))
    ensures Valid(s, Strip(a), v) <==> Valid(s, Strip(b), v)
    ensures Valid(s, Strip(a), v) ==> Bytes(s, Strip(a), v) == Bytes(s, Strip(b), v)
  {
    hide Valid, Bytes, Strip, SameShape, NoTighter, Simulates, Sound, Effective, StripAll, Unifier;
    UnifierSimulates(types, renames, log, c, s);
    NodeSymmetric(c, a, b);
    StripShape(c, a, b);
    StripShape(c, b, a);
    StrippedNoTighter(c, a, b);
    StrippedNoTighter(c, b, a);
    if Valid(s, Strip(a), v) { Carried(c, s, Strip(a), s, Strip(b), v); }
    if Valid(s, Strip(b), v) { Carried(c, s, Strip(b), s, Strip(a), v); }
  }

  lemma NodeSymmetric(c: Rel, a: Node, b: Node)
    requires forall x, y :: (x, y) in c ==> (y, x) in c
    requires SameShape(c, a, b)
    ensures SameShape(c, b, a)
  {
    hide SameShape;
    ShapeConverse(c, a, b);
    ShapeMono(Converse(c), c, b, a);
  }

  lemma UnifierSimulates(types: Table, renames: map<string, string>, log: Log, c: Rel, s: Schema)
    requires Sound(types, renames, log) && Unifier(types, log, c)
    requires s.types == StripAll(Effective(types, renames, log))
    ensures Simulates(c, s, s)
    ensures forall x, y :: (x, y) in c ==> (y, x) in c
  {
    hide SameType, TypeNoTighter, StripType, Apply, Forest, Holds;
    forall x, y | (x, y) in c && x in s.types
      ensures y in s.types && SameType(c, s.types[x], s.types[y]) && TypeNoTighter(s.types[x], s.types[y])
    {
      var u, v := Apply(log, x), Apply(log, y);
      assert Together(types, c, u, v);
      Resolved(types, renames, log, y);
      TypeRefl(c, types[u]);
      StripSameType(c, types[u], types[v]);
      StrippedTypeNoTighter(c, types[u], types[v]);
    }
  }

  // ---- merging can turn a type that ends into one that counts depth ----

  function Link(next: string): TypeDef { Struct([Field("next", OptionalNode(RefNode(next, [])))], []) }

  /** `A` holds an optional `B`, and `B` an optional `B`: only `B` contains itself. */
  function Chain(): Table { map["A" := Link("B"), "B" := Link("B")] }

  lemma ChainFolds()
    ensures FoldsTo(Chain(), map[], [], "A", "B", map["A" := Link("B")], map["B" := "A"], [("B", "A")])
  {
    var l := Link("B");
    assert Intersect(l.fields[0].node, l.fields[0].node) == l.fields[0].node;
    assert AbsorbFields(l.fields, l.fields) == l.fields;
    assert Chain()["A" := l] - {"B"} == map["A" := l];
    assert Apply([], "A") == "A" && Apply([], "B") == "B";
  }

  lemma ChainRenames()
    ensures RenameAll(map["A" := Link("B")], [("B", "A")]) == map["A" := Link("A")]
  {
    var log := [("B", "A")];
    assert Apply(log[..0], "B") == "B";
    assert Rename(log, Link("B").fields[0].node) == Link("A").fields[0].node;
    assert RenameType(log, Link("B")).fields == Link("A").fields;
  }

  lemma ChainReaches()
    ensures Reaches(map["A" := Link("A")], "A", "A") && !Reaches(Chain(), "A", "A")
  {
    LinkRefs("A");
    LinkRefs("B");
    EdgeReaches(map["A" := Link("A")], "A", "A");
    forall p: seq<string> | IsPath(Chain(), p) && |p| >= 2 ensures p[|p| - 1] != "A" {
      assert Edge(Chain(), p[|p| - 2], p[|p| - 2 + 1]);
    }
  }

  lemma LinkRefs(next: string)
    ensures TypeRefs(Link(next)) == {next}
  {
    var n := OptionalNode(RefNode(next, []));
    assert FieldNodes(Link(next).fields) == [n];
    assert NodeRefs(n) == {next};
    assert [n][1..] == [];
    assert SeqRefs([n]) == {next};
  }

  function Inner(next: string, inner: seq<Value>): seq<Node> { if |inner| > 0 then [RefNode(next, [])] else [] }

  lemma LinkOptional(s: Schema, next: string, inner: seq<Value>)
    requires |inner| <= 1 && ValidSeq(s, Inner(next, inner), inner)
    ensures var o, w, ms := OptionalNode(RefNode(next, [])), VOptional(inner), Inner(next, inner);
      && Valid(s, o, w) && Bytes(s, o, w) == [if |inner| > 0 then 1 else 0] + BytesSeq(s, ms, inner)
      && (forall L: Limits, d: nat :: Fits(s, o, w, L, d) <==> FitsSeq(s, ms, inner, L, d))
  {
    hide ValidSeq, BytesSeq, FitsSeq;
    var o := OptionalNode(RefNode(next, []));
    assert ShapeOf(VOptional(inner)) == OptionalShape(|inner| > 0);
    assert Children(s, o, OptionalShape(|inner| > 0)) == Inner(next, inner);
  }

  /** One value of either form of the chain. */
  lemma LinkValue(s: Schema, name: string, next: string, inner: seq<Value>)
    requires name in s.types && s.types[name] == Link(next) && |inner| <= 1
    requires ValidSeq(s, Inner(next, inner), inner)
    ensures var n, v, ms := RefNode(name, []), VStruct([VOptional(inner)]), Inner(next, inner);
      && Valid(s, n, v)
      && Bytes(s, n, v) == [if |inner| > 0 then 1 else 0] + BytesSeq(s, ms, inner)
      && (forall L: Limits, d: nat :: Fits(s, n, v, L, d) <==>
        (name in s.recursive ==> d < L.maxNestingDepth) && FitsSeq(s, ms, inner, L, d + Level(s, n)))
  {
    hide ValidSeq, BytesSeq, FitsSeq;
    var o := OptionalNode(RefNode(next, []));
    LinkOptional(s, next, inner);
    assert FieldNodes(Link(next).fields) == [o];
    assert Children(s, RefNode(name, []), StructShape) == [o];
    OneChild(s, o, VOptional(inner));
  }

  lemma LinkLeaf(s: Schema, name: string, next: string, leaf: Value)
    requires name in s.types && s.types[name] == Link(next) && leaf == VStruct([VOptional([])]) && name in s.recursive
    ensures Level(s, RefNode(name, [])) == 1
    ensures ValidSeq(s, [RefNode(name, [])], [leaf]) && BytesSeq(s, [RefNode(name, [])], [leaf]) == [0]
    ensures forall L: Limits, d: nat :: FitsSeq(s, [RefNode(name, [])], [leaf], L, d) <==> d < L.maxNestingDepth
  {
    hide Valid, Bytes, Fits;
    LinkValue(s, name, next, []);
    OneChild(s, RefNode(name, []), leaf);
  }

  lemma OneChild(s: Schema, o: Node, w: Value)
    requires Valid(s, o, w)
    ensures ValidSeq(s, [o], [w]) && BytesSeq(s, [o], [w]) == Bytes(s, o, w)
    ensures forall L: Limits, d: nat :: FitsSeq(s, [o], [w], L, d) <==> Fits(s, o, w, L, d)
  {
    hide Valid, Bytes, Fits;
    assert [o][1..] == [] && [w][1..] == [];
    assert ValidSeq(s, [o], [w]) == ValidSeq(s, [], []);
  }

  /**
   Folding `B` into `A` leaves one type that contains itself, so a value that fitted
   one level of nesting needs two: bounds are never tightened, but depth can be.
   */
  lemma MergingCanDeepen(v: Value, L: Limits)
    requires v == VStruct([VOptional([VStruct([VOptional([])])])]) && L.maxNestingDepth == 1
    ensures FoldsTo(Chain(), map[], [], "A", "B", map["A" := Link("B")], map["B" := "A"], [("B", "A")])
    ensures RenameAll(map["A" := Link("B")], [("B", "A")]) == map["A" := Link("A")]
    ensures Reaches(map["A" := Link("A")], "A", "A") && !Reaches(Chain(), "A", "A")
    ensures var s, t, n := Schema(Chain(), {"B"}), Schema(map["A" := Link("A")], {"A"}), RefNode("A", []);
      && Valid(s, n, v) && Valid(t, n, v) && Bytes(s, n, v) == Bytes(t, n, v) == [1, 0]
      && Fits(s, n, v, L, 0) && !Fits(t, n, v, L, 0)
  {
    ChainFolds();
    ChainRenames();
    ChainReaches();
    var leaf := VStruct([VOptional([])]);
    var s, t := Schema(Chain(), {"B"}), Schema(map["A" := Link("A")], {"A"});
    hide Valid, Bytes, Fits, FoldsTo, RenameAll, Reaches, ValidSeq, BytesSeq, FitsSeq;
    LinkLeaf(s, "B", "B", leaf);
    LinkLeaf(t, "A", "A", leaf);
    LinkValue(s, "A", "B", [leaf]);
    LinkValue(t, "A", "A", [leaf]);
  }
}
