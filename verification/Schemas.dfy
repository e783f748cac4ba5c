/** The canonical schema: wire shapes, named types, and which names reach which. */
module Schemas {
  import opened Wire
  import opened Integers
  import opened Leaves

  datatype CountPrefix = CountVarU32 | CountU32Le

  /** A map is a list of entries, the two-field helper struct the emitter generates for it. */
  datatype Node =
    | LeafNode(leaf: Leaf)
    | ListNode(prefix: CountPrefix, element: Node, minItems: Option<nat>, maxItems: Option<nat>)
    | EntryNode(key: Node, value: Node)
    | FixedNode(len: nat, element: Node)
    | OptionalNode(inner: Node)
    | RefNode(ref: string, allowed: seq<int>)

  datatype Field = Field(name: string, node: Node)

  datatype EnumValue = EnumValue(name: string, value: int)

  datatype Variant = Variant(name: string, value: int, payload: Option<Node>)

  /** The length of one field is the product of integer fields times a scale; fields are given by position. */
  datatype Check = LengthProduct(field: nat, factors: seq<nat>, scale: nat)

  datatype TypeDef =
    | Struct(fields: seq<Field>, checks: seq<Check>)
    | Enum(repr: IntKind, values: seq<EnumValue>)
    | Union(repr: IntKind, variants: seq<Variant>)

  /** `recursive` holds the types whose codecs count nesting depth. */
  datatype Schema = Schema(types: map<string, TypeDef>, recursive: set<string>)

  /** Whether the codec of a shape opens a level of nesting; empty structs never do. */
  predicate Enters(s: Schema, n: Node) {
    && n.RefNode? && n.ref in s.types && n.ref in s.recursive
    && match s.types[n.ref]
       case Struct(fields, _) => |fields| > 0
       case Enum(_, _) => false
       case Union(_, _) => true
  }

  function Level(s: Schema, n: Node): nat { if Enters(s, n) then 1 else 0 }

  function FieldNodes(fields: seq<Field>): (r: seq<Node>)
    ensures |r| == |fields|
    ensures forall i :: 0 <= i < |fields| ==> r[i] == fields[i].node
  {
    if |fields| == 0 then [] else [fields[0].node] + FieldNodes(fields[1..])
  }

  function PayloadNodes(v: Variant): seq<Node> {
    match v.payload
    case None => []
    case Some(n) => [n]
  }

  function VariantNodes(variants: seq<Variant>): seq<Node> {
    if |variants| == 0 then [] else PayloadNodes(variants[0]) + VariantNodes(variants[1..])
  }

  function TypeNodes(t: TypeDef): seq<Node> {
    match t
    case Struct(fields, _) => FieldNodes(fields)
    case Enum(_, _) => []
    case Union(_, variants) => VariantNodes(variants)
  }

  /** The variant a tag selects. */
  function FindVariant(variants: seq<Variant>, tag: int): Option<Variant> {
    if |variants| == 0 then None
    else if variants[0].value == tag then Some(variants[0])
    else FindVariant(variants[1..], tag)
  }

  /** Variant `j` is the one its tag selects. */
  predicate Selects(variants: seq<Variant>, tag: int, j: nat) {
    j < |variants| && variants[j].value == tag && forall i :: 0 <= i < j ==> variants[i].value != tag
  }

  lemma {:induction false} FoundIsSelected(variants: seq<Variant>, tag: int) returns (j: nat)
    requires FindVariant(variants, tag).Some?
    ensures Selects(variants, tag, j) && FindVariant(variants, tag) == Some(variants[j])
  {
    if variants[0].value == tag {
      j := 0;
    } else {
      var i := FoundIsSelected(variants[1..], tag);
      j := i + 1;
      forall k | 0 <= k < j ensures variants[k].value != tag { if k > 0 { assert variants[k] == variants[1..][k - 1]; } }
    }
  }

  lemma {:induction false} SelectedFound(variants: seq<Variant>, tag: int, j: nat)
    requires Selects(variants, tag, j)
    ensures FindVariant(variants, tag).Some?
  {
    if j > 0 { SelectedFound(variants[1..], tag, j - 1); }
  }

  lemma OneSelected(variants: seq<Variant>, tag: int, j: nat, k: nat)
    requires Selects(variants, tag, j) && Selects(variants, tag, k)
    ensures j == k
  {
  }

  // ---- reachability ----

  function NodeRefs(n: Node): set<string> {
    match n
    case LeafNode(_) => {}
    case ListNode(_, e, _, _) => NodeRefs(e)
    case EntryNode(k, v) => NodeRefs(k) + NodeRefs(v)
    case FixedNode(_, e) => NodeRefs(e)
    case OptionalNode(v) => NodeRefs(v)
    case RefNode(r, _) => {r}
  }

  function SeqRefs(ns: seq<Node>): set<string> {
    if |ns| == 0 then {} else NodeRefs(ns[0]) + SeqRefs(ns[1..])
  }

  function TypeRefs(t: TypeDef): set<string> { SeqRefs(TypeNodes(t)) }

  predicate Edge(types: map<string, TypeDef>, a: string, b: string) {
    a in types && b in TypeRefs(types[a])
  }

  predicate IsPath(types: map<string, TypeDef>, p: seq<string>) {
    |p| > 0 && forall i :: 0 <= i < |p| - 1 ==> Edge(types, p[i], p[i + 1])
  }

  /** A path of at least one reference leads from `a` to `b`. */
  ghost predicate Reaches(types: map<string, TypeDef>, a: string, b: string) {
    exists p :: IsPath(types, p) && |p| >= 2 && p[0] == a && p[|p| - 1] == b
  }

  /** Every type that can contain itself counts depth. */
  ghost predicate Marked(s: Schema) {
    forall r :: r in s.types && Reaches(s.types, r, r) ==> r in s.recursive
  }

  type MarkedSchema = s: Schema | Marked(s) witness Schema(map[], {})

  lemma EdgeReaches(types: map<string, TypeDef>, a: string, b: string)
    requires Edge(types, a, b)
    ensures Reaches(types, a, b)
  {
    assert IsPath(types, [a, b]);
  }

  lemma ReachesStep(types: map<string, TypeDef>, a: string, b: string, c: string)
    requires Edge(types, a, b) && Reaches(types, b, c)
    ensures Reaches(types, a, c)
  {
    var p :| IsPath(types, p) && |p| >= 2 && p[0] == b && p[|p| - 1] == c;
    var q := [a] + p;
    hide Edge;
    forall i | 0 <= i < |q| - 1 ensures Edge(types, q[i], q[i + 1]) {
      if i > 0 { assert Edge(types, p[i - 1], p[i - 1 + 1]); }
    }
    assert IsPath(types, q) && |q| >= 2 && q[0] == a && q[|q| - 1] == c;
  }

  // ---- ranks: why decoding terminates ----

  ghost function ReachSet(types: map<string, TypeDef>, r: string): set<string> {
    set t | t in types && Reaches(types, r, t)
  }

  ghost function Rank(s: Schema, r: string): nat { |ReachSet(s.types, r)| }

  /** Following a reference to a type that does not count depth strictly lowers the rank. */
  lemma RankDrops(s: MarkedSchema, r: string, u: string)
    requires Edge(s.types, r, u) && u in s.types && u !in s.recursive
    ensures Rank(s, u) < Rank(s, r)
  {
    var below, above := ReachSet(s.types, u), ReachSet(s.types, r);
    forall t | t in below ensures t in above { ReachesStep(s.types, r, u, t); }
    EdgeReaches(s.types, r, u);
    assert u in above && u !in below;
    SubsetSize(below, above);
  }

  lemma SubsetSize(a: set<string>, b: set<string>)
    requires a < b
    ensures |a| < |b|
  {
    var x :| x in b && x !in a;
    assert a <= b - {x};
    SubsetSizeLe(a, b - {x});
  }

  lemma {:induction false} SubsetSizeLe(a: set<string>, b: set<string>)
    requires a <= b
    ensures |a| <= |b|
    decreases a
  {
    if a != {} {
      var x :| x in a;
      SubsetSizeLe(a - {x}, b - {x});
    }
  }

  function Max(a: nat, b: nat): nat { if a < b then b else a }

  ghost function NodeRank(s: Schema, n: Node): nat {
    match n
    case LeafNode(_) => 0
    case ListNode(_, e, _, _) => NodeRank(s, e)
    case EntryNode(k, v) => Max(NodeRank(s, k), NodeRank(s, v))
    case FixedNode(_, e) => NodeRank(s, e)
    case OptionalNode(v) => NodeRank(s, v)
    case RefNode(r, _) => if r in s.types && r !in s.recursive then 1 + Rank(s, r) else 0
  }

  ghost function SeqRank(s: Schema, ns: seq<Node>): nat {
    if |ns| == 0 then 0 else Max(NodeRank(s, ns[0]), SeqRank(s, ns[1..]))
  }

  lemma {:induction false} NodeRankBound(s: Schema, n: Node, b: nat)
    requires forall u :: u in NodeRefs(n) && u in s.types && u !in s.recursive ==> Rank(s, u) < b
    ensures NodeRank(s, n) <= b
  {
    match n
    case LeafNode(_) =>
    case ListNode(_, e, _, _) => NodeRankBound(s, e, b);
    case EntryNode(k, v) => NodeRankBound(s, k, b); NodeRankBound(s, v, b);
    case FixedNode(_, e) => NodeRankBound(s, e, b);
    case OptionalNode(v) => NodeRankBound(s, v, b);
    case RefNode(r, _) => assert r in NodeRefs(n);
  }

  lemma {:induction false} SeqRankBound(s: Schema, ns: seq<Node>, b: nat)
    requires forall u :: u in SeqRefs(ns) && u in s.types && u !in s.recursive ==> Rank(s, u) < b
    ensures SeqRank(s, ns) <= b
  {
    if |ns| > 0 {
      NodeRankBound(s, ns[0], b);
      SeqRankBound(s, ns[1..], b);
    }
  }

  /** The body of a type ranks no higher than the type. */
  lemma BodyRank(s: MarkedSchema, r: string, ns: seq<Node>)
    requires r in s.types && SeqRefs(ns) <= TypeRefs(s.types[r])
    ensures SeqRank(s, ns) <= Rank(s, r)
  {
    forall u | u in SeqRefs(ns) && u in s.types && u !in s.recursive
      ensures Rank(s, u) < Rank(s, r)
    {
      assert Edge(s.types, r, u);
      RankDrops(s, r, u);
    }
    SeqRankBound(s, ns, Rank(s, r));
  }

  lemma {:induction false} SeqRefsHas(ns: seq<Node>, i: nat)
    requires i < |ns|
    ensures NodeRefs(ns[i]) <= SeqRefs(ns)
  {
    if i > 0 {
      assert ns[i] == ns[1..][i - 1];
      SeqRefsHas(ns[1..], i - 1);
    }
  }

  lemma {:induction false} SeqRefsOf(ns: seq<Node>, ms: seq<Node>)
    ensures SeqRefs(ns + ms) == SeqRefs(ns) + SeqRefs(ms)
  {
    if |ns| > 0 {
      assert (ns + ms)[1..] == ns[1..] + ms;
      SeqRefsOf(ns[1..], ms);
    } else {
      assert ns + ms == ms;
    }
  }

  /** The payload a tag selects refers only to what its union refers to. */
  lemma {:induction false} PayloadRefs(variants: seq<Variant>, tag: int)
    requires FindVariant(variants, tag).Some?
    ensures SeqRefs(PayloadNodes(FindVariant(variants, tag).value)) <= SeqRefs(VariantNodes(variants))
  {
    SeqRefsOf(PayloadNodes(variants[0]), VariantNodes(variants[1..]));
    if variants[0].value != tag { PayloadRefs(variants[1..], tag); }
  }

  function Size(n: Node): nat {
    match n
    case LeafNode(_) => 1
    case ListNode(_, e, _, _) => 1 + Size(e)
    case EntryNode(k, v) => 1 + Max(Size(k), Size(v))
    case FixedNode(_, e) => 1 + Size(e)
    case OptionalNode(v) => 1 + Size(v)
    case RefNode(_, _) => 1
  }

  function SeqSize(ns: seq<Node>): nat {
    if |ns| == 0 then 0 else Max(Size(ns[0]), SeqSize(ns[1..]))
  }

  /** `count` copies of one shape: what a counted or fixed sequence of elements looks like. */
  function Copies(n: Node, count: nat): (r: seq<Node>)
    ensures |r| == count
    ensures forall i :: 0 <= i < count ==> r[i] == n
  {
    if count == 0 then [] else [n] + Copies(n, count - 1)
  }

  lemma {:induction false} CopiesMeasure(s: Schema, n: Node, count: nat)
    ensures SeqRank(s, Copies(n, count)) <= NodeRank(s, n)
    ensures SeqSize(Copies(n, count)) <= Size(n)
  {
    if count > 0 {
      CopiesMeasure(s, n, count - 1);
      assert Copies(n, count)[1..] == Copies(n, count - 1);
    }
  }
}
