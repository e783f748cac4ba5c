/**
 Rewriting actor IDs by its effect on each integer of a value, found by a path of
 positions: what happens at a tagged one, and that nothing else is touched.
 */
module ActorEffects {
  import opened Wire
  import opened Integers
  import opened Values
  import opened Schemas
  import opened Shapes
  import opened ActorReach
  import opened ActorRefs
  import opened Meaning
  import opened Lazy

  // ---- one integer ----

  /** The 64-bit kinds, and those of them with a sign. */
  predicate SixtyFour(k: IntKind) { k == VarU64 || k == ZigzagI64 || (k.Fixed? && k.size == 8) }

  predicate WithSign(k: IntKind) { k == ZigzagI64 || (k.Fixed? && k.signed) }

  predicate Stored(k: IntKind, v: int) {
    if WithSign(k) then -0x8000_0000_0000_0000 <= v < 0x8000_0000_0000_0000 else 0 <= v < 0x1_0000_0000_0000_0000
  }

  predicate Congruent(a: int, b: int) { (a - b) % 0x1_0000_0000_0000_0000 == 0 }

  /**
   The stored integer has the 64 bits of what the mapping makes of the ID with the
   bits of `v`: runtime IDs are read without a sign, unique ones with it.
   */
  ghost predicate Image(m: IdMap, ref: ActorRef, k: IntKind, v: int, w: int) {
    && Stored(k, w)
    && match ref
       case Runtime => forall x: U64 :: Congruent(x, v) ==> Congruent(w, m.runtime(x))
       case Unique => forall x: I64 :: Congruent(x, v) ==> Congruent(w, m.unique(x))
  }

  lemma SameWord(a: int, b: int)
    requires Congruent(a, b) && -0x1_0000_0000_0000_0000 < a - b < 0x1_0000_0000_0000_0000
    ensures a == b
  {
  }

  lemma Wrapped(a: int, b: int)
    ensures a - b == 0 || a - b == 0x1_0000_0000_0000_0000 || b - a == 0x1_0000_0000_0000_0000 ==> Congruent(a, b)
  {
  }

  lemma CongruentTrans(a: int, b: int, c: int)
    requires Congruent(a, b) && Congruent(b, c)
    ensures Congruent(a, c)
  {
  }

  lemma CongruentSym(a: int, b: int)
    requires Congruent(a, b)
    ensures Congruent(b, a)
  {
  }

  /** Exactly one stored integer is the image of another. */
  lemma ConvertIs(m: IdMap, ref: ActorRef, k: IntKind, v: int, w: int)
    requires SixtyFour(k) && Holds64(k, v)
    ensures Image(m, ref, k, v, w) <==> w == Convert(m, ref, k, v)
  {
    hide Congruent;
    match ref
    case Runtime =>
      var x: U64 := if SignedKind(k) then ActorRefs.ToBits(v) else v;
      Wrapped(x, v);
      forall y: U64 | Congruent(y, v) ensures y == x {
        CongruentSym(x, v);
        CongruentTrans(y, v, x);
        SameWord(y, x);
      }
      OneImage(k, m.runtime(x), w, Convert(m, ref, k, v));
    case Unique =>
      var x: I64 := if SignedKind(k) then v else ActorRefs.FromBits(v);
      Wrapped(x, v);
      forall y: I64 | Congruent(y, v) ensures y == x {
        CongruentSym(x, v);
        CongruentTrans(y, v, x);
        SameWord(y, x);
      }
      OneImage(k, m.unique(x), w, Convert(m, ref, k, v));
  }

  lemma OneImage(k: IntKind, id: int, w: int, c: int)
    requires Stored(k, c) && (c == id || c == id + 0x1_0000_0000_0000_0000 || c == id - 0x1_0000_0000_0000_0000)
    ensures Stored(k, w) && Congruent(w, id) <==> w == c
  {
    hide Congruent;
    Wrapped(c, id);
    if Stored(k, w) && Congruent(w, id) {
      CongruentSym(c, id);
      CongruentTrans(w, id, c);
      SameWord(w, c);
    }
  }

  // ---- paths ----

  /** The part of a value that a path of positions leads to. */
  function At(v: Value, path: seq<nat>): Option<Value> {
    if |path| == 0 then Some(v)
    else if v.Open() && path[0] < |v.Parts()| then At(v.Parts()[path[0]], path[1..])
    else None
  }

  /** What a type declares of one of its fields or variants. */
  function Declared(tags: Tags, owner: string, name: string): Option<ActorRef> {
    if owner in tags && name in tags[owner] then Some(tags[owner][name]) else None
  }

  /**
   Where part `i` of a value is held: elements of lists, arrays and optionals under
   the declaration of the whole, fields and payloads under that of their own name,
   keys and values of maps under none.
   */
  ghost function Below(s: Schema, tags: Tags, p: Spot, v: Value, i: nat): Option<Spot> {
    match p.node
    case LeafNode(_) => None
    case ListNode(_, e, _, _) => Some(Spot(p.ref, e))
    case FixedNode(_, e) => Some(Spot(p.ref, e))
    case OptionalNode(e) => Some(Spot(p.ref, e))
    case EntryNode(k, x) => Some(Spot(None, if i == 0 then k else x))
    case RefNode(r, _) =>
      if r !in s.types then None
      else match s.types[r]
        case Struct(fields, _) => if i < |fields| then Some(Spot(Declared(tags, r, fields[i].name), fields[i].node)) else None
        case Enum(_, _) => None
        case Union(_, variants) =>
          if v.VUnion? && exists j: nat :: Selects(variants, v.tag, j) && variants[j].payload.Some? then
            var j: nat :| Selects(variants, v.tag, j) && variants[j].payload.Some?;
            Some(Spot(Declared(tags, r, variants[j].name), variants[j].payload.value))
          else None
  }

  /** Where the part that a path leads to is held; no path leads into a value without parts of its own. */
  ghost function Holder(s: Schema, tags: Tags, p: Spot, v: Value, path: seq<nat>): Option<Spot>
    decreases |path|
  {
    if |path| == 0 then Some(p)
    else if v.Open() && path[0] < |v.Parts()| && Below(s, tags, p, v, path[0]).Some? then
      Holder(s, tags, Below(s, tags, p, v, path[0]).value, v.Parts()[path[0]], path[1..])
    else None
  }

  /** The same optional, array, struct, union or list around as many parts. */
  predicate SameForm(x: Value, y: Value) {
    match x
    case VOptional(xs) => y.VOptional? && |y.content| == |xs|
    case VArray(xs) => y.VArray? && |y.elements| == |xs|
    case VStruct(xs) => y.VStruct? && |y.fields| == |xs|
    case VUnion(tag, xs) => y.VUnion? && y.tag == tag && |y.payload| == |xs|
    case VItems(len, xs) => y.VItems? && y.len == len && |y.items| == |xs|
    case _ => false
  }

  /** A declared 64-bit integer becomes its image; any other value without parts stays; the rest keeps its form. */
  ghost predicate Effect(s: Schema, m: IdMap, q: Spot, x: Value, y: Value) {
    if !Atom(s, q.node) then SameForm(x, y)
    else if q.ref.Some? && q.node.LeafNode? && q.node.leaf.IntLeaf? && SixtyFour(q.node.leaf.kind) then
      x.VInt? && y.VInt? && Image(m, q.ref.value, q.node.leaf.kind, x.n, y.n)
    else y == x
  }

  ghost predicate EffectAt(s: Schema, tags: Tags, m: IdMap, p: Spot, u: Value, w: Value, path: seq<nat>) {
    Holder(s, tags, p, u, path).Some? ==>
      && At(u, path).Some? && At(w, path).Some?
      && Effect(s, m, Holder(s, tags, p, u, path).value, At(u, path).value, At(w, path).value)
  }

  /** Along every path the value has become what the declarations and the mapping say. */
  ghost predicate Rewritten(s: Schema, tags: Tags, m: IdMap, p: Spot, u: Value, w: Value) {
    forall path :: EffectAt(s, tags, m, p, u, w, path)
  }

  /** A value of a shape's form with every list as items. */
  predicate Settled(s: Schema, tags: Tags, p: Spot, u: Value)
    decreases u
  {
    if Atom(s, p.node) then Wide(p.node) ==> u.VInt? && Holds64(p.node.leaf.kind, u.n)
    else
      && u.Open() && Formed(s, p.node, ShapeOf(u))
      && var ps, xs := Spots(s, tags, p, ShapeOf(u)), u.Parts();
      |ps| == |xs| && forall i :: 0 <= i < |xs| ==> Settled(s, tags, ps[i], xs[i])
  }

  /** The visitor's spots are where the parts are held. */
  lemma SpotsAreBelow(s: Schema, tags: Tags, p: Spot, u: Value, i: nat)
    requires !Atom(s, p.node) && u.Open() && Formed(s, p.node, ShapeOf(u))
    requires i < |u.Parts()| == |Spots(s, tags, p, ShapeOf(u))|
    ensures Below(s, tags, p, u, i) == Some(Spots(s, tags, p, ShapeOf(u))[i])
  {
    match p.node
    case RefNode(r, _) =>
      if s.types[r].Union? {
        var variants := s.types[r].variants;
        var j := FoundIsSelected(variants, u.tag);
        forall k: nat | Selects(variants, u.tag, k) ensures k == j { OneSelected(variants, u.tag, j, k); }
      }
    case _ =>
  }

  lemma AtomBelow(s: Schema, tags: Tags, p: Spot, u: Value, i: nat)
    requires Atom(s, p.node)
    ensures Below(s, tags, p, u, i).None?
  {
  }

  lemma AtomIs(s: Schema, m: IdMap, p: Spot, u: Value, w: Value)
    requires Atom(s, p.node) && (Wide(p.node) ==> u.VInt? && Holds64(p.node.leaf.kind, u.n))
    ensures Effect(s, m, p, u, w) <==> w == MappedAtom(m, p, u)
  {
    hide Convert, Image;
    if p.ref.Some? && Wide(p.node) && w.VInt? { ConvertIs(m, p.ref.value, p.node.leaf.kind, u.n, w.n); }
    if p.ref.Some? && Wide(p.node) {
      var c := Convert(m, p.ref.value, p.node.leaf.kind, u.n);
      ConvertIs(m, p.ref.value, p.node.leaf.kind, u.n, c);
    }
  }

  /** What the mapping makes of a value has the effect at every path. */
  lemma {:induction false} MappedAt(s: Schema, tags: Tags, m: IdMap, p: Spot, u: Value, path: seq<nat>)
    requires Settled(s, tags, p, u)
    ensures EffectAt(s, tags, m, p, u, Mapped(s, tags, m, p, u), path)
    decreases |path|
  {
    hide Spots, Below, Image, Atom, Formed, Wide, MappedAtom;
    var w := Mapped(s, tags, m, p, u);
    if Atom(s, p.node) {
      AtomIs(s, m, p, u, w);
      if |path| > 0 { AtomBelow(s, tags, p, u, path[0]); }
    } else {
      var ps, xs := Spots(s, tags, p, ShapeOf(u)), u.Parts();
      var ws := seq(|xs|, i requires 0 <= i < |xs| => Mapped(s, tags, m, ps[i], xs[i]));
      BuildShape(u, ws);
      if |path| > 0 && path[0] < |xs| {
        SpotsAreBelow(s, tags, p, u, path[0]);
        MappedAt(s, tags, m, ps[path[0]], xs[path[0]], path[1..]);
      }
    }
  }

  lemma PartEffect(s: Schema, tags: Tags, m: IdMap, p: Spot, u: Value, w: Value, i: nat, path: seq<nat>)
    requires EffectAt(s, tags, m, p, u, w, [i] + path)
    requires u.Open() && w.Open() && i < |u.Parts()| == |w.Parts()| && Below(s, tags, p, u, i).Some?
    ensures EffectAt(s, tags, m, Below(s, tags, p, u, i).value, u.Parts()[i], w.Parts()[i], path)
  {
    hide Below, Effect;
    assert ([i] + path)[1..] == path;
  }

  lemma FormIs(u: Value, w: Value)
    requires u.Open() && SameForm(u, w)
    ensures w.Open() && |w.Parts()| == |u.Parts()| && w == Build(ShapeOf(u), w.Parts())
  {
  }

  /** And nothing else has it: the effects along all paths leave one value. */
  lemma {:induction false} OnlyMapped(s: Schema, tags: Tags, m: IdMap, p: Spot, u: Value, w: Value)
    requires Settled(s, tags, p, u) && Rewritten(s, tags, m, p, u, w)
    ensures w == Mapped(s, tags, m, p, u)
    decreases u
  {
    hide Spots, Below, Image, Atom, Formed, Wide, MappedAtom;
    assert EffectAt(s, tags, m, p, u, w, []);
    if Atom(s, p.node) {
      AtomIs(s, m, p, u, w);
    } else {
      FormIs(u, w);
      var ps, xs, ys := Spots(s, tags, p, ShapeOf(u)), u.Parts(), w.Parts();
      forall i | 0 <= i < |xs| ensures ys[i] == Mapped(s, tags, m, ps[i], xs[i]) {
        SpotsAreBelow(s, tags, p, u, i);
        forall path ensures EffectAt(s, tags, m, ps[i], xs[i], ys[i], path) {
          PartEffect(s, tags, m, p, u, w, i, path);
        }
        OnlyMapped(s, tags, m, ps[i], xs[i], ys[i]);
      }
      assert ys == seq(|xs|, i requires 0 <= i < |xs| => Mapped(s, tags, m, ps[i], xs[i]));
    }
  }

  /** The mapping of a value is exactly what has the effect of the mapping at every path. */
  lemma MappedIs(s: Schema, tags: Tags, m: IdMap, p: Spot, u: Value, w: Value)
    requires Settled(s, tags, p, u)
    ensures w == Mapped(s, tags, m, p, u) <==> Rewritten(s, tags, m, p, u, w)
  {
    hide Mapped, Settled, EffectAt;
    forall path ensures EffectAt(s, tags, m, p, u, Mapped(s, tags, m, p, u), path) { MappedAt(s, tags, m, p, u, path); }
    if Rewritten(s, tags, m, p, u, w) { OnlyMapped(s, tags, m, p, u, w); }
  }

  // ---- the values the visitor sees ----

  /** A valid value without kept bytes has its shape's form. */
  lemma {:induction false} PlainSettled(s: MarkedSchema, tags: Tags, p: Spot, u: Value)
    requires Valid(s, p.node, u) && Plain(s, p.node, u)
    ensures Settled(s, tags, p, u)
    decreases u
  {
    hide Spots, Children, ShapeOk, ChecksOk, ChecksOf, AtomOk, Formed;
    if Atom(s, p.node) {
      AtomWhole(s, p.node, u);
    } else {
      var sh, xs := ShapeOf(u), u.Parts();
      var ps, ns := Spots(s, tags, p, sh), Children(s, p.node, sh);
      SpotsAreChildren(s, tags, p, sh);
      SameLength(s, ns, xs);
      forall i | 0 <= i < |xs| ensures Settled(s, tags, ps[i], xs[i]) {
        PlainAt(s, ns, xs, i);
        PlainSettled(s, tags, ps[i], xs[i]);
      }
    }
  }

  lemma {:induction false} PlainAt(s: Schema, ns: seq<Node>, vs: seq<Value>, i: nat)
    requires ValidSeq(s, ns, vs) && PlainSeq(s, ns, vs) && i < |vs|
    ensures |ns| == |vs| && Valid(s, ns[i], vs[i]) && Plain(s, ns[i], vs[i])
    decreases |vs|
  {
    hide Valid, Plain;
    SameLength(s, ns, vs);
    if i > 0 { PlainAt(s, ns[1..], vs[1..], i - 1); }
  }

  /** So has a whole value once its lists are read. */
  lemma {:induction false} UnfoldSettled(s: MarkedSchema, tags: Tags, p: Spot, v: Value)
    requires Whole(s, tags, p, v)
    ensures Settled(s, tags, p, Unfold(s, tags, p, v))
    decreases v
  {
    hide Spots, Formed, Atom, Rereads, Reread;
    if !Atom(s, p.node) {
      if v.VWire? {
        KeptSettled(s, tags, p, v);
      } else {
        var ps, xs := Spots(s, tags, p, ShapeOf(v)), v.Parts();
        var us := seq(|xs|, i requires 0 <= i < |xs| => Unfold(s, tags, ps[i], xs[i]));
        BuildShape(v, us);
        forall i | 0 <= i < |xs| ensures Settled(s, tags, ps[i], us[i]) { UnfoldSettled(s, tags, ps[i], xs[i]); }
      }
    }
  }

  lemma KeptSettled(s: MarkedSchema, tags: Tags, p: Spot, v: Value)
    requires p.node.ListNode? && v.VWire? && Rereads(s, p.node.element, v.len, v.wire)
    ensures Settled(s, tags, p, VItems(v.len, Reread(s, p.node.element, v.len, v.wire).value))
  {
    hide ValidSeq, PlainSeq, BytesSeq, Valid, Plain, Reread;
    var e := p.node.element;
    RereadBytes(s, e, v.len, v.wire);
    var ns, xs := Copies(e, v.len), Reread(s, e, v.len, v.wire).value;
    forall i | 0 <= i < |xs| ensures Settled(s, tags, Spot(p.ref, e), xs[i]) {
      PlainAt(s, ns, xs, i);
      PlainSettled(s, tags, Spot(p.ref, e), xs[i]);
    }
  }

  // ---- the answer ----

  /** Somewhere an integer that is declared a reference has become another. */
  ghost predicate SomeChanged(s: Schema, tags: Tags, p: Spot, u: Value, w: Value) {
    exists path :: ChangedAt(s, tags, p, u, w, path)
  }

  ghost predicate ChangedAt(s: Schema, tags: Tags, p: Spot, u: Value, w: Value, path: seq<nat>) {
    && Holder(s, tags, p, u, path).Some? && Holder(s, tags, p, u, path).value.ref.Some?
    && At(u, path).Some? && At(u, path).value.VInt? && At(w, path) != At(u, path)
  }

  lemma PartChanged(s: Schema, tags: Tags, p: Spot, u: Value, w: Value, i: nat, path: seq<nat>)
    requires u.Open() && w.Open() && i < |u.Parts()| == |w.Parts()| && Below(s, tags, p, u, i).Some?
    requires ChangedAt(s, tags, Below(s, tags, p, u, i).value, u.Parts()[i], w.Parts()[i], path)
    ensures ChangedAt(s, tags, p, u, w, [i] + path)
  {
    hide Below;
    assert ([i] + path)[1..] == path;
  }

  /** A rewritten value differs exactly when a reference in it does. */
  lemma {:induction false} ChangedIs(s: Schema, tags: Tags, m: IdMap, p: Spot, u: Value, w: Value)
    requires Settled(s, tags, p, u) && w == Mapped(s, tags, m, p, u)
    ensures w != u <==> SomeChanged(s, tags, p, u, w)
    decreases u
  {
    hide Spots, Below, Atom, Formed, Wide, Convert;
    if Atom(s, p.node) {
      if w != u { assert ChangedAt(s, tags, p, u, w, []); }
    } else {
      var ps, xs := Spots(s, tags, p, ShapeOf(u)), u.Parts();
      var ws := seq(|xs|, i requires 0 <= i < |xs| => Mapped(s, tags, m, ps[i], xs[i]));
      BuildShape(u, ws);
      if w != u {
        BuildOf(u);
        var i :| 0 <= i < |xs| && ws[i] != xs[i];
        SpotsAreBelow(s, tags, p, u, i);
        ChangedIs(s, tags, m, ps[i], xs[i], ws[i]);
        var path :| ChangedAt(s, tags, ps[i], xs[i], ws[i], path);
        PartChanged(s, tags, p, u, w, i, path);
      }
    }
  }
}
