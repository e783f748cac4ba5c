/** What rewriting actor IDs does to a packet's logical value. */
module ActorRefs {
  import opened Wire
  import opened Integers
  import opened Values
  import opened Schemas
  import opened Shapes
  import opened Meaning
  import opened Lazy
  import Leb128
  import opened ActorReach

  const TWO63: int := 0x8000_0000_0000_0000
  const TWO64: int := 0x1_0000_0000_0000_0000

  type U64 = x: int | 0 <= x < TWO64
  type I64 = x: int | -TWO63 <= x < TWO63

  /** The caller's mapping of runtime IDs and unique IDs. */
  datatype IdMap = IdMap(runtime: U64 -> U64, unique: I64 -> I64)

  function ToBits(v: I64): U64 { if v < 0 then v + TWO64 else v }

  function FromBits(v: U64): I64 { if v < TWO63 then v else v - TWO64 }

  /** The 64-bit integers a reference may be stored in. */
  predicate Wide(n: Node) {
    n.LeafNode? && n.leaf.IntLeaf? && (n.leaf.kind.VarU64? || n.leaf.kind.ZigzagI64? || (n.leaf.kind.Fixed? && n.leaf.kind.size == 8))
  }

  predicate SignedKind(k: IntKind) { k.ZigzagI64? || (k.Fixed? && k.signed) }

  predicate Holds64(k: IntKind, v: int) { if SignedKind(k) then -TWO63 <= v < TWO63 else 0 <= v < TWO64 }

  /** The mapping applied through the bits of the stored integer. */
  function Convert(m: IdMap, ref: ActorRef, k: IntKind, v: int): (r: int)
    requires Holds64(k, v)
    ensures Holds64(k, r)
  {
    if SignedKind(k) then (if ref.Runtime? then FromBits(m.runtime(ToBits(v))) else m.unique(v))
    else (if ref.Runtime? then m.runtime(v) else ToBits(m.unique(FromBits(v))))
  }

  // ---- which child holds a reference of which kind ----

  /** A node, and the kind of reference its owner declares it to hold. */
  datatype Spot = Spot(ref: Option<ActorRef>, node: Node)

  function Tag(tags: Tags, owner: string, name: string): Option<ActorRef> {
    if owner in tags && name in tags[owner] then Some(tags[owner][name]) else None
  }

  function FieldSpots(tags: Tags, owner: string, fields: seq<Field>): seq<Spot> {
    seq(|fields|, i requires 0 <= i < |fields| => Spot(Tag(tags, owner, fields[i].name), fields[i].node))
  }

  function PayloadSpots(tags: Tags, owner: string, v: Variant): seq<Spot> {
    match v.payload
    case None => []
    case Some(n) => [Spot(Tag(tags, owner, v.name), n)]
  }

  function SpotCopies(p: Spot, count: nat): seq<Spot> { seq(count, i => p) }

  function Spots(s: Schema, tags: Tags, p: Spot, sh: Shape): seq<Spot> {
    match p.node
    case LeafNode(_) => []
    case ListNode(_, e, _, _) => if sh.ListShape? then SpotCopies(Spot(p.ref, e), sh.count) else []
    case EntryNode(k, v) => [Spot(None, k), Spot(None, v)]
    case FixedNode(len, e) => SpotCopies(Spot(p.ref, e), len)
    case OptionalNode(v) => if sh.OptionalShape? && sh.present then [Spot(p.ref, v)] else []
    case RefNode(r, _) =>
      if r !in s.types then [] else
      match s.types[r]
      case Struct(fields, _) => FieldSpots(tags, r, fields)
      case Enum(_, _) => []
      case Union(_, variants) =>
        if sh.UnionShape? && FindVariant(variants, sh.tag).Some? then PayloadSpots(tags, r, FindVariant(variants, sh.tag).value) else []
  }

  /** The form a value of a shape takes in memory, whatever its bounds. */
  predicate Formed(s: Schema, n: Node, sh: Shape) {
    match n
    case LeafNode(_) => false
    case ListNode(_, _, _, _) => sh.ListShape?
    case EntryNode(_, _) => sh.StructShape?
    case FixedNode(_, _) => sh.ArrayShape?
    case OptionalNode(_) => sh.OptionalShape?
    case RefNode(r, _) => r in s.types && (if s.types[r].Struct? then sh.StructShape? else sh.UnionShape?)
  }

  /** A value of the type generated for a shape; lists in wire form are as decoding leaves them. */
  predicate Whole(s: MarkedSchema, tags: Tags, p: Spot, v: Value)
    decreases v
  {
    if Atom(s, p.node) then Wide(p.node) ==> v.VInt? && Holds64(p.node.leaf.kind, v.n)
    else if v.VWire? then p.node.ListNode? && Rereads(s, p.node.element, v.len, v.wire)
    else
      && v.Open() && Formed(s, p.node, ShapeOf(v))
      && var ps, xs := Spots(s, tags, p, ShapeOf(v)), v.Parts();
      |ps| == |xs| && forall i :: 0 <= i < |xs| ==> Whole(s, tags, ps[i], xs[i])
  }

  /** The value with every list as its items. */
  function Unfold(s: MarkedSchema, tags: Tags, p: Spot, v: Value): Value
    requires Whole(s, tags, p, v)
    decreases v
  {
    if Atom(s, p.node) then v
    else if v.VWire? then VItems(v.len, Reread(s, p.node.element, v.len, v.wire).value)
    else
      var ps, xs := Spots(s, tags, p, ShapeOf(v)), v.Parts();
      Build(ShapeOf(v), seq(|xs|, i requires 0 <= i < |xs| => Unfold(s, tags, ps[i], xs[i])))
  }

  function MappedAtom(m: IdMap, p: Spot, v: Value): Value {
    if p.ref.Some? && Wide(p.node) && v.VInt? && Holds64(p.node.leaf.kind, v.n)
    then VInt(Convert(m, p.ref.value, p.node.leaf.kind, v.n))
    else v
  }

  /** The mapping applied at exactly the tagged integers, through lists, optionals, arrays and unions. */
  function Mapped(s: Schema, tags: Tags, m: IdMap, p: Spot, v: Value): Value
    decreases v
  {
    if Atom(s, p.node) then MappedAtom(m, p, v)
    else if !v.Open() then v
    else
      var ps, xs := Spots(s, tags, p, ShapeOf(v)), v.Parts();
      if |ps| != |xs| then v
      else Build(ShapeOf(v), seq(|xs|, i requires 0 <= i < |xs| => Mapped(s, tags, m, ps[i], xs[i])))
  }

  /** Rebuilding around as many parts keeps the shape. */
  lemma BuildShape(v: Value, ws: seq<Value>)
    requires v.Open() && |ws| == |v.Parts()|
    ensures var w := Build(ShapeOf(v), ws); w.Open() && ShapeOf(w) == ShapeOf(v) && w.Parts() == ws
  {
  }

  // ---- the same logical value as the codec's ----

  lemma {:induction false} SeqAt(s: MarkedSchema, ns: seq<Node>, vs: seq<Value>, i: nat)
    requires ValidSeq(s, ns, vs) && GenuineSeq(s, ns, vs) && i < |vs|
    ensures |ns| == |vs| && Valid(s, ns[i], vs[i]) && Genuine(s, ns[i], vs[i])
    ensures LogicalSeq(s, ns, vs)[i] == Logical(s, ns[i], vs[i])
    decreases |vs|
  {
    hide Valid, Genuine, Logical;
    SameLength(s, ns, vs);
    if i > 0 { SeqAt(s, ns[1..], vs[1..], i - 1); }
  }

  lemma SpotsAreChildren(s: Schema, tags: Tags, p: Spot, sh: Shape)
    requires ShapeOk(s, p.node, sh) && !Atom(s, p.node)
    ensures Formed(s, p.node, sh)
    ensures var ps, ns := Spots(s, tags, p, sh), Children(s, p.node, sh);
      |ps| == |ns| && forall i :: 0 <= i < |ns| ==> ps[i].node == ns[i]
  {
    hide InRange;
  }

  lemma WideHolds(k: IntKind, v: int)
    requires InRange(k, v) && (k.VarU64? || k.ZigzagI64? || (k.Fixed? && k.size == 8))
    ensures Holds64(k, v)
  {
    assert Leb128.Pow2(64) == TWO64 by { Pow2Of32And64(); }
  }

  lemma {:induction false} LogicalIsUnfold(s: MarkedSchema, tags: Tags, p: Spot, v: Value)
    requires Valid(s, p.node, v) && Genuine(s, p.node, v)
    ensures Whole(s, tags, p, v) && Unfold(s, tags, p, v) == Logical(s, p.node, v)
    decreases v
  {
    hide Spots, Children, ShapeOk, ChecksOk, ChecksOf, AtomOk, Formed;
    if Atom(s, p.node) {
      AtomWhole(s, p.node, v);
    } else if !v.VWire? {
      var sh, xs := ShapeOf(v), v.Parts();
      var ps, ns := Spots(s, tags, p, sh), Children(s, p.node, sh);
      SpotsAreChildren(s, tags, p, sh);
      SameLength(s, ns, xs);
      forall i | 0 <= i < |xs|
        ensures Whole(s, tags, ps[i], xs[i]) && Unfold(s, tags, ps[i], xs[i]) == LogicalSeq(s, ns, xs)[i]
      {
        SeqAt(s, ns, xs, i);
        LogicalIsUnfold(s, tags, ps[i], xs[i]);
      }
      assert seq(|xs|, i requires 0 <= i < |xs| => Unfold(s, tags, ps[i], xs[i])) == LogicalSeq(s, ns, xs);
    }
  }

  lemma AtomWhole(s: Schema, n: Node, v: Value)
    requires Atom(s, n) && AtomOk(s, n, v)
    ensures Wide(n) ==> v.VInt? && Holds64(n.leaf.kind, v.n)
  {
    hide InRange;
    if Wide(n) { WideHolds(n.leaf.kind, v.n); }
  }

  // ---- values below which nothing is tagged are left alone ----

  ghost predicate Untagged(s: Schema, tags: Tags, p: Spot) { p.ref.None? && !LeadsToTag(s.types, tags, p.node) }

  lemma UntaggedChildren(s: Schema, tags: Tags, p: Spot, sh: Shape)
    requires Untagged(s, tags, p)
    ensures forall i :: 0 <= i < |Spots(s, tags, p, sh)| ==> Untagged(s, tags, Spots(s, tags, p, sh)[i])
  {
    hide LeadsToTag;
    match p.node
    case LeafNode(_) =>
    case ListNode(_, e, _, _) => SameRefs(s, tags, p.node, e);
    case EntryNode(k, v) => SameRefs(s, tags, p.node, k); SameRefs(s, tags, p.node, v);
    case FixedNode(_, e) => SameRefs(s, tags, p.node, e);
    case OptionalNode(v) => SameRefs(s, tags, p.node, v);
    case RefNode(r, allowed) => if r in s.types { UntaggedType(s, tags, r, allowed, sh); }
  }

  lemma SameRefs(s: Schema, tags: Tags, n: Node, m: Node)
    requires NodeRefs(m) <= NodeRefs(n) && !LeadsToTag(s.types, tags, n)
    ensures !LeadsToTag(s.types, tags, m)
  {
  }

  lemma UntaggedType(s: Schema, tags: Tags, r: string, allowed: seq<int>, sh: Shape)
    requires r in s.types && !LeadsToTag(s.types, tags, RefNode(r, allowed))
    ensures var ps := Spots(s, tags, Spot(None, RefNode(r, allowed)), sh);
      forall i :: 0 <= i < |ps| ==> Untagged(s, tags, ps[i])
  {
    hide LeadsToTag;
    var ps := Spots(s, tags, Spot(None, RefNode(r, allowed)), sh);
    match s.types[r]
    case Struct(fields, _) =>
      forall i | 0 <= i < |fields| ensures Untagged(s, tags, ps[i]) {
        SeqRefsHas(FieldNodes(fields), i);
        NoTagBelow(s.types, tags, r, allowed, fields[i].node);
      }
    case Enum(_, _) =>
    case Union(_, variants) =>
      if sh.UnionShape? && FindVariant(variants, sh.tag).Some? && FindVariant(variants, sh.tag).value.payload.Some? {
        var n := FindVariant(variants, sh.tag).value.payload.value;
        PayloadRefs(variants, sh.tag);
        SeqRefsHas(PayloadNodes(FindVariant(variants, sh.tag).value), 0);
        NoTagBelow(s.types, tags, r, allowed, n);
      }
  }

  lemma {:induction false} UntaggedKept(s: Schema, tags: Tags, m: IdMap, p: Spot, v: Value)
    requires Untagged(s, tags, p)
    ensures Mapped(s, tags, m, p, v) == v
    decreases v
  {
    hide Spots, Untagged, Atom;
    if Atom(s, p.node) {
      UntaggedAtom(s, tags, m, p, v);
    } else if v.Open() {
      var ps, xs := Spots(s, tags, p, ShapeOf(v)), v.Parts();
      if |ps| == |xs| {
        UntaggedChildren(s, tags, p, ShapeOf(v));
        forall i | 0 <= i < |xs| ensures Mapped(s, tags, m, ps[i], xs[i]) == xs[i] { UntaggedKept(s, tags, m, ps[i], xs[i]); }
        assert seq(|xs|, i requires 0 <= i < |xs| => Mapped(s, tags, m, ps[i], xs[i])) == xs;
        BuildOf(v);
      }
    }
  }

  lemma UntaggedAtom(s: Schema, tags: Tags, m: IdMap, p: Spot, v: Value)
    requires Untagged(s, tags, p)
    ensures MappedAtom(m, p, v) == v
  {
  }

  // ---- undoing a mapping ----

  ghost predicate Undoes(m': IdMap, m: IdMap) {
    && (forall x: U64 :: m'.runtime(m.runtime(x)) == x)
    && forall x: I64 :: m'.unique(m.unique(x)) == x
  }

  lemma ConvertBack(m: IdMap, m': IdMap, ref: ActorRef, k: IntKind, v: int)
    requires Undoes(m', m) && Holds64(k, v)
    ensures Convert(m', ref, k, Convert(m, ref, k, v)) == v
  {
  }

  /** A mapping followed by its inverse gives back the logical value. */
  lemma {:induction false} MappedBack(s: Schema, tags: Tags, m: IdMap, m': IdMap, p: Spot, v: Value)
    requires Undoes(m', m)
    ensures Mapped(s, tags, m', p, Mapped(s, tags, m, p, v)) == v
    decreases v
  {
    hide Spots, Undoes, Atom, Build, ShapeOf, MappedAtom;
    if Atom(s, p.node) {
      AtomBack(m, m', p, v);
    } else if v.Open() {
      var sh, xs := ShapeOf(v), v.Parts();
      var ps := Spots(s, tags, p, sh);
      if |ps| == |xs| {
        var ws := seq(|xs|, i requires 0 <= i < |xs| => Mapped(s, tags, m, ps[i], xs[i]));
        BuildShape(v, ws);
        forall i | 0 <= i < |xs| ensures Mapped(s, tags, m', ps[i], ws[i]) == xs[i] { MappedBack(s, tags, m, m', ps[i], xs[i]); }
        assert seq(|ws|, i requires 0 <= i < |ws| => Mapped(s, tags, m', ps[i], ws[i])) == xs;
        BuildOf(v);
      }
    }
  }

  lemma AtomBack(m: IdMap, m': IdMap, p: Spot, v: Value)
    requires Undoes(m', m)
    ensures MappedAtom(m', p, MappedAtom(m, p, v)) == v
  {
    hide Convert, Undoes;
    if p.ref.Some? && Wide(p.node) && v.VInt? && Holds64(p.node.leaf.kind, v.n) {
      ConvertBack(m, m', p.ref.value, p.node.leaf.kind, v.n);
    }
  }

  // ---- a whole value whose logical value is valid is valid and genuine ----

  lemma UnfoldSameToChecks(s: MarkedSchema, tags: Tags, p: Spot, v: Value)
    requires Whole(s, tags, p, v)
    ensures SameToChecks(v, Unfold(s, tags, p, v))
  {
    hide Spots, Whole;
  }

  lemma {:induction false} WholeValid(s: MarkedSchema, tags: Tags, p: Spot, v: Value)
    requires Whole(s, tags, p, v) && Valid(s, p.node, Unfold(s, tags, p, v))
    ensures Valid(s, p.node, v) && Genuine(s, p.node, v)
    decreases v
  {
    hide Spots, Children, ShapeOk, ChecksOk, ChecksOf, Formed, Atom, AtomOk, Rereads, Reread;
    if !Atom(s, p.node) && !v.VWire? {
      var sh, xs := ShapeOf(v), v.Parts();
      var ps, ns := Spots(s, tags, p, sh), Children(s, p.node, sh);
      var us := seq(|xs|, i requires 0 <= i < |xs| => Unfold(s, tags, ps[i], xs[i]));
      BuildShape(v, us);
      SpotsAreChildren(s, tags, p, sh);
      forall i | 0 <= i < |xs| ensures Valid(s, ns[i], xs[i]) && Genuine(s, ns[i], xs[i]) && SameToChecks(xs[i], us[i]) {
        ValidAt(s, ns, us, i);
        WholeValid(s, tags, ps[i], xs[i]);
        UnfoldSameToChecks(s, tags, ps[i], xs[i]);
      }
      ValidParts(s, ns, xs);
      ChecksAgree(ChecksOf(s, p.node), xs, us);
    }
  }

  lemma {:induction false} WholeGenuine(s: MarkedSchema, tags: Tags, p: Spot, v: Value)
    requires Whole(s, tags, p, v) && Valid(s, p.node, v)
    ensures Genuine(s, p.node, v)
    decreases v
  {
    hide Spots, Children, ShapeOk, ChecksOk, ChecksOf, Formed, Atom, AtomOk, Rereads, Reread;
    if !Atom(s, p.node) && !v.VWire? {
      var sh, xs := ShapeOf(v), v.Parts();
      var ps, ns := Spots(s, tags, p, sh), Children(s, p.node, sh);
      SpotsAreChildren(s, tags, p, sh);
      forall i | 0 <= i < |xs| ensures Valid(s, ns[i], xs[i]) && Genuine(s, ns[i], xs[i]) {
        ValidAt(s, ns, xs, i);
        WholeGenuine(s, tags, ps[i], xs[i]);
      }
      ValidParts(s, ns, xs);
    }
  }

  lemma {:induction false} ValidAt(s: Schema, ns: seq<Node>, vs: seq<Value>, i: nat)
    requires ValidSeq(s, ns, vs) && i < |vs|
    ensures |ns| == |vs| && Valid(s, ns[i], vs[i])
    decreases |vs|
  {
    hide Valid;
    SameLength(s, ns, vs);
    if i > 0 { ValidAt(s, ns[1..], vs[1..], i - 1); }
  }

  lemma {:induction false} ValidParts(s: MarkedSchema, ns: seq<Node>, vs: seq<Value>)
    requires |ns| == |vs| && forall i :: 0 <= i < |vs| ==> Valid(s, ns[i], vs[i]) && Genuine(s, ns[i], vs[i])
    ensures ValidSeq(s, ns, vs) && GenuineSeq(s, ns, vs)
    decreases |vs|
  {
    hide Valid, Genuine;
    if |vs| > 0 { ValidParts(s, ns[1..], vs[1..]); }
  }

  // ---- mapped values of unconstrained references stay valid ----

  /** A 64-bit integer without bounds, or optionals, arrays and lists of one. */
  predicate FreeRef(n: Node) {
    match n
    case LeafNode(l) => Wide(n) && l.min.None? && l.max.None?
    case ListNode(_, e, _, _) => FreeRef(e)
    case FixedNode(_, e) => FreeRef(e)
    case OptionalNode(v) => FreeRef(v)
    case _ => false
  }

  predicate FreeFields(tags: Tags, r: string, fields: seq<Field>) {
    forall i :: 0 <= i < |fields| && Tag(tags, r, fields[i].name).Some? ==> FreeRef(fields[i].node)
  }

  predicate FreeFactors(tags: Tags, r: string, fields: seq<Field>, c: Check) {
    forall j :: 0 <= j < |c.factors| && c.factors[j] < |fields| ==> Tag(tags, r, fields[c.factors[j]].name).None?
  }

  predicate FreePayload(tags: Tags, r: string, v: Variant) {
    v.payload.Some? && Tag(tags, r, v.name).Some? ==> FreeRef(v.payload.value)
  }

  predicate FreeType(tags: Tags, r: string, t: TypeDef) {
    match t
    case Struct(fields, checks) => FreeFields(tags, r, fields) && forall c :: c in checks ==> FreeFactors(tags, r, fields, c)
    case Enum(_, _) => true
    case Union(_, variants) => forall v :: v in variants ==> FreePayload(tags, r, v)
  }

  /** No tagged integer has bounds or is a factor of a length check. */
  predicate FreeRefs(s: Schema, tags: Tags) { forall r :: r in s.types ==> FreeType(tags, r, s.types[r]) }

  predicate FreeSpot(p: Spot) { p.ref.Some? ==> FreeRef(p.node) }

  lemma FreeChildren(s: Schema, tags: Tags, p: Spot, sh: Shape)
    requires FreeRefs(s, tags) && FreeSpot(p)
    ensures forall i :: 0 <= i < |Spots(s, tags, p, sh)| ==> FreeSpot(Spots(s, tags, p, sh)[i])
  {
    if p.node.RefNode? && p.node.ref in s.types {
      assert FreeType(tags, p.node.ref, s.types[p.node.ref]);
      if s.types[p.node.ref].Union? && sh.UnionShape? { FoundPayload(tags, p.node.ref, s.types[p.node.ref].variants, sh.tag); }
    }
  }

  lemma {:induction false} FoundPayload(tags: Tags, r: string, variants: seq<Variant>, tag: int)
    requires forall v :: v in variants ==> FreePayload(tags, r, v)
    ensures FindVariant(variants, tag).Some? ==> FreePayload(tags, r, FindVariant(variants, tag).value)
  {
    if |variants| > 0 && variants[0].value != tag { FoundPayload(tags, r, variants[1..], tag); }
  }

  lemma MappedAtomValid(s: Schema, tags: Tags, m: IdMap, p: Spot, v: Value)
    requires Atom(s, p.node) && AtomOk(s, p.node, v) && FreeSpot(p)
    ensures AtomOk(s, p.node, MappedAtom(m, p, v))
  {
    hide Convert;
    if p.ref.Some? && Wide(p.node) {
      assert Leb128.Pow2(64) == TWO64 by { Pow2Of32And64(); }
    }
  }

  /** A mapped value has the same length, and is the same integer where nothing is tagged. */
  lemma MappedToChecks(s: Schema, tags: Tags, m: IdMap, p: Spot, v: Value)
    ensures var w := Mapped(s, tags, m, p, v);
      && LengthOf(w) == LengthOf(v) && (w.VInt? <==> v.VInt?)
      && (p.ref.None? && v.VInt? ==> w == v)
  {
    hide Spots;
  }

  lemma {:induction false} FactorsSame(positions: seq<nat>, vs: seq<Value>, ws: seq<Value>)
    requires |vs| == |ws|
    requires forall j :: j in positions && j < |vs| ==> (vs[j].VInt? <==> ws[j].VInt?) && (vs[j].VInt? ==> ws[j] == vs[j])
    ensures FactorsOf(positions, ws) == FactorsOf(positions, vs)
  {
    if |positions| > 0 {
      assert positions[0] in positions;
      FactorsSame(positions[1..], vs, ws);
    }
  }

  lemma MappedChecks(s: Schema, tags: Tags, m: IdMap, p: Spot, xs: seq<Value>, ws: seq<Value>)
    requires FreeRefs(s, tags) && ChecksOk(ChecksOf(s, p.node), xs)
    requires var ps := Spots(s, tags, p, StructShape);
      |ps| == |xs| == |ws| && forall i :: 0 <= i < |xs| ==> ws[i] == Mapped(s, tags, m, ps[i], xs[i])
    ensures ChecksOk(ChecksOf(s, p.node), ws)
  {
    hide Mapped, FactorsOf, LengthOf, FreeFields, Atom;
    var ps, checks := Spots(s, tags, p, StructShape), ChecksOf(s, p.node);
    forall c | 0 <= c < |checks| ensures CheckOk(checks[c], ws) {
      var r, fields, factors := p.node.ref, s.types[p.node.ref].fields, checks[c].factors;
      assert CheckOk(checks[c], xs) && FreeType(tags, r, s.types[r]) && FreeFactors(tags, r, fields, checks[c]);
      MappedToChecks(s, tags, m, ps[checks[c].field], xs[checks[c].field]);
      forall j | j in factors && j < |xs| ensures (xs[j].VInt? <==> ws[j].VInt?) && (xs[j].VInt? ==> ws[j] == xs[j]) {
        var k :| 0 <= k < |factors| && factors[k] == j;
        assert ps[j].ref == Tag(tags, r, fields[j].name);
        MappedToChecks(s, tags, m, ps[j], xs[j]);
      }
      FactorsSame(factors, xs, ws);
    }
  }

  lemma {:induction false} AllValid(s: Schema, ns: seq<Node>, vs: seq<Value>)
    requires |ns| == |vs| && forall i :: 0 <= i < |vs| ==> Valid(s, ns[i], vs[i])
    ensures ValidSeq(s, ns, vs)
    decreases |vs|
  {
    hide Valid;
    if |vs| > 0 { AllValid(s, ns[1..], vs[1..]); }
  }

  /** With references free of bounds and checks, whatever the mapping returns can be encoded. */
  lemma {:induction false} MappedValid(s: Schema, tags: Tags, m: IdMap, p: Spot, v: Value)
    requires FreeRefs(s, tags) && FreeSpot(p) && Valid(s, p.node, v)
    ensures Valid(s, p.node, Mapped(s, tags, m, p, v))
    decreases v
  {
    hide Spots, FreeRefs, Atom, AtomOk, MappedAtom, Children, ShapeOk, ChecksOk, ChecksOf, FreeSpot;
    if Atom(s, p.node) {
      MappedAtomValid(s, tags, m, p, v);
    } else if !v.VWire? {
      var sh, xs := ShapeOf(v), v.Parts();
      var ps, ns := Spots(s, tags, p, sh), Children(s, p.node, sh);
      SpotsAreChildren(s, tags, p, sh);
      SameLength(s, ns, xs);
      FreeChildren(s, tags, p, sh);
      var ws := seq(|xs|, i requires 0 <= i < |xs| => Mapped(s, tags, m, ps[i], xs[i]));
      BuildShape(v, ws);
      forall i | 0 <= i < |xs| ensures Valid(s, ns[i], ws[i]) {
        ValidAt(s, ns, xs, i);
        MappedValid(s, tags, m, ps[i], xs[i]);
      }
      AllValid(s, ns, ws);
      if sh.StructShape? { MappedChecks(s, tags, m, p, xs, ws); } else { OnlyStructsCheck(s, p.node, sh, ws); }
    }
  }

  lemma OnlyStructsCheck(s: Schema, n: Node, sh: Shape, ws: seq<Value>)
    requires ShapeOk(s, n, sh) && !sh.StructShape?
    ensures ChecksOk(ChecksOf(s, n), ws)
  {
    hide InRange;
  }
}
