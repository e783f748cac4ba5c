/** The visitor that rewrites actor IDs in a decoded packet. */
module Rewriting {
  import opened Wire
  import opened Values
  import opened Schemas
  import opened Shapes
  import opened Meaning
  import opened Parser
  import opened Codec
  import opened Lazy
  import opened ActorReach
  import opened ActorRefs
  import opened ActorEffects

  /** What a visit promises: the mapped logical value, and whether that is a different one. */
  ghost predicate Visited(s: MarkedSchema, tags: Tags, m: IdMap, p: Spot, v: Value, w: Value, changed: bool)
    requires Whole(s, tags, p, v)
  {
    && Whole(s, tags, p, w)
    && Unfold(s, tags, p, w) == Mapped(s, tags, m, p, Unfold(s, tags, p, v))
    && (changed <==> Unfold(s, tags, p, w) != Unfold(s, tags, p, v))
    && (!changed ==> w == v)
  }

  ghost predicate WholeAll(s: MarkedSchema, tags: Tags, ps: seq<Spot>, vs: seq<Value>) {
    |ps| == |vs| && forall i :: 0 <= i < |vs| ==> Whole(s, tags, ps[i], vs[i])
  }

  ghost function UnfoldAll(s: MarkedSchema, tags: Tags, ps: seq<Spot>, vs: seq<Value>): (us: seq<Value>)
    requires WholeAll(s, tags, ps, vs)
    ensures |us| == |vs|
  {
    seq(|vs|, i requires 0 <= i < |vs| => Unfold(s, tags, ps[i], vs[i]))
  }

  ghost function MappedAll(s: MarkedSchema, tags: Tags, m: IdMap, ps: seq<Spot>, us: seq<Value>): (ws: seq<Value>)
    requires |ps| == |us|
    ensures |ws| == |us|
  {
    seq(|us|, i requires 0 <= i < |us| => Mapped(s, tags, m, ps[i], us[i]))
  }

  ghost predicate VisitedAll(s: MarkedSchema, tags: Tags, m: IdMap, ps: seq<Spot>, vs: seq<Value>, ws: seq<Value>, changed: bool)
    requires WholeAll(s, tags, ps, vs)
  {
    && WholeAll(s, tags, ps, ws)
    && UnfoldAll(s, tags, ps, ws) == MappedAll(s, tags, m, ps, UnfoldAll(s, tags, ps, vs))
    && (changed <==> UnfoldAll(s, tags, ps, ws) != UnfoldAll(s, tags, ps, vs))
    && (!changed ==> ws == vs)
  }

  lemma VisitedSnoc(
    s: MarkedSchema, tags: Tags, m: IdMap, ps: seq<Spot>, vs: seq<Value>, ws: seq<Value>, changed: bool,
    p: Spot, v: Value, w: Value, one: bool)
    requires WholeAll(s, tags, ps, vs) && VisitedAll(s, tags, m, ps, vs, ws, changed)
    requires Whole(s, tags, p, v) && Visited(s, tags, m, p, v, w, one)
    ensures WholeAll(s, tags, ps + [p], vs + [v])
    ensures VisitedAll(s, tags, m, ps + [p], vs + [v], ws + [w], changed || one)
  {
    hide Whole, Unfold, Mapped;
    UnfoldSnoc(s, tags, ps, vs, p, v);
    UnfoldSnoc(s, tags, ps, ws, p, w);
    var us, u := UnfoldAll(s, tags, ps, vs), Unfold(s, tags, p, v);
    assert MappedAll(s, tags, m, ps + [p], us + [u]) == MappedAll(s, tags, m, ps, us) + [Mapped(s, tags, m, p, u)];
    var ts, t := UnfoldAll(s, tags, ps, ws), Unfold(s, tags, p, w);
    if ts + [t] == us + [u] {
      assert (ts + [t])[..|ts|] == ts && (us + [u])[..|us|] == us;
      assert (ts + [t])[|ts|] == t && (us + [u])[|us|] == u;
    }
  }

  lemma UnfoldSnoc(s: MarkedSchema, tags: Tags, ps: seq<Spot>, vs: seq<Value>, p: Spot, v: Value)
    requires WholeAll(s, tags, ps, vs) && Whole(s, tags, p, v)
    ensures WholeAll(s, tags, ps + [p], vs + [v])
    ensures UnfoldAll(s, tags, ps + [p], vs + [v]) == UnfoldAll(s, tags, ps, vs) + [Unfold(s, tags, p, v)]
  {
    hide Whole, Unfold;
  }

  /** A whole value made of parts, unfolded part by part. */
  lemma WholeParts(s: MarkedSchema, tags: Tags, p: Spot, v: Value)
    requires Whole(s, tags, p, v) && !Atom(s, p.node) && v.Open()
    ensures var ps := Spots(s, tags, p, ShapeOf(v));
      && WholeAll(s, tags, ps, v.Parts())
      && Unfold(s, tags, p, v) == Build(ShapeOf(v), UnfoldAll(s, tags, ps, v.Parts()))
      && UnfoldAll(s, tags, ps, v.Parts()) == Unfold(s, tags, p, v).Parts()
  {
    hide Spots, Formed, Atom;
    var ps := Spots(s, tags, p, ShapeOf(v));
    BuildShape(v, UnfoldAll(s, tags, ps, v.Parts()));
  }

  /** A visit of the parts is a visit of the value they make up. */
  lemma PartsVisited(s: MarkedSchema, tags: Tags, m: IdMap, p: Spot, v: Value, ws: seq<Value>, changed: bool)
    requires Whole(s, tags, p, v) && !Atom(s, p.node) && v.Open()
    requires WholeAll(s, tags, Spots(s, tags, p, ShapeOf(v)), v.Parts())
    requires VisitedAll(s, tags, m, Spots(s, tags, p, ShapeOf(v)), v.Parts(), ws, changed)
    ensures Visited(s, tags, m, p, v, Build(ShapeOf(v), ws), changed)
  {
    hide Spots, Formed, Atom, Build, ShapeOf;
    var ps, xs := Spots(s, tags, p, ShapeOf(v)), v.Parts();
    var w := Build(ShapeOf(v), ws);
    BuildShape(v, ws);
    BuildOf(v);
    WholeFromParts(s, tags, p, v, ws);
    WholeParts(s, tags, p, v);
    WholeParts(s, tags, p, w);
    var us := UnfoldAll(s, tags, ps, xs);
    BuildShape(v, us);
    BuildShape(v, UnfoldAll(s, tags, ps, ws));
    MappedParts(s, tags, m, p, v, us);
  }

  lemma WholeFromParts(s: MarkedSchema, tags: Tags, p: Spot, v: Value, ws: seq<Value>)
    requires Whole(s, tags, p, v) && !Atom(s, p.node) && v.Open() && |ws| == |v.Parts()|
    requires WholeAll(s, tags, Spots(s, tags, p, ShapeOf(v)), ws)
    ensures Whole(s, tags, p, Build(ShapeOf(v), ws))
  {
    hide Spots, Formed, Atom, Build, ShapeOf;
    BuildShape(v, ws);
  }

  lemma MappedParts(s: MarkedSchema, tags: Tags, m: IdMap, p: Spot, v: Value, us: seq<Value>)
    requires !Atom(s, p.node) && v.Open() && |us| == |v.Parts()| == |Spots(s, tags, p, ShapeOf(v))|
    ensures Mapped(s, tags, m, p, Build(ShapeOf(v), us)) == Build(ShapeOf(v), MappedAll(s, tags, m, Spots(s, tags, p, ShapeOf(v)), us))
  {
    hide Spots, Atom, Build, ShapeOf;
    BuildShape(v, us);
  }

  // ---- the visitor ----

  /**
   Walks a value, or with a kind of reference applies the mapping to it. A kind
   given for a type other than a 64-bit integer, or optionals, arrays and lists of
   one, does not compile; here it has no effect.
   */
  method Visit(s: MarkedSchema, tags: Tags, m: IdMap, p: Spot, v: Value) returns (w: Value, changed: bool)
    requires Whole(s, tags, p, v)
    ensures Visited(s, tags, m, p, v, w, changed)
    decreases Unfold(s, tags, p, v), 1
  {
    hide Whole, Unfold, Mapped, Spots, LeadsToTag;
    if p.ref.None? && !Reach(s.types, tags, p.node, {}) {
      Skipped(s, tags, m, p, v);
      return v, false;
    }
    if Atom(s, p.node) {
      w := MappedAtom(m, p, v);
      AtomVisited(s, tags, m, p, v);
      return w, w != v;
    }
    if p.node.ListNode? {
      w, changed := VisitList(s, tags, m, p, v);
      return;
    }
    PartsOf(s, tags, p, v);
    WholeParts(s, tags, p, v);
    var parts;
    parts, changed := VisitAll(s, tags, m, Spots(s, tags, p, ShapeOf(v)), v.Parts());
    PartsVisited(s, tags, m, p, v, parts, changed);
    w := Build(ShapeOf(v), parts);
  }

  lemma Skipped(s: MarkedSchema, tags: Tags, m: IdMap, p: Spot, v: Value)
    requires Whole(s, tags, p, v) && p.ref.None? && !Reach(s.types, tags, p.node, {})
    ensures Visited(s, tags, m, p, v, v, false)
  {
    hide Whole, Unfold, Mapped, LeadsToTag;
    ReachExact(s.types, tags, p.node);
    UntaggedKept(s, tags, m, p, Unfold(s, tags, p, v));
  }

  lemma AtomVisited(s: MarkedSchema, tags: Tags, m: IdMap, p: Spot, v: Value)
    requires Whole(s, tags, p, v) && Atom(s, p.node)
    ensures Visited(s, tags, m, p, v, MappedAtom(m, p, v), MappedAtom(m, p, v) != v)
  {
    hide Convert;
  }

  lemma PartsOf(s: MarkedSchema, tags: Tags, p: Spot, v: Value)
    requires Whole(s, tags, p, v) && !Atom(s, p.node) && !p.node.ListNode?
    ensures v.Open()
  {
  }

  /** The fields, elements or payload of one value, in order. */
  method VisitAll(s: MarkedSchema, tags: Tags, m: IdMap, ps: seq<Spot>, vs: seq<Value>) returns (ws: seq<Value>, changed: bool)
    requires WholeAll(s, tags, ps, vs)
    ensures VisitedAll(s, tags, m, ps, vs, ws, changed)
    decreases UnfoldAll(s, tags, ps, vs), 0
  {
    hide Whole, Unfold, Mapped;
    ws, changed := [], false;
    for i := 0 to |vs|
      invariant WholeAll(s, tags, ps[..i], vs[..i])
      invariant VisitedAll(s, tags, m, ps[..i], vs[..i], ws, changed)
    {
      assert UnfoldAll(s, tags, ps, vs)[i] == Unfold(s, tags, ps[i], vs[i]);
      var w, one := Visit(s, tags, m, ps[i], vs[i]);
      VisitedSnoc(s, tags, m, ps[..i], vs[..i], ws, changed, ps[i], vs[i], w, one);
      assert ps[..i] + [ps[i]] == ps[..i + 1] && vs[..i] + [vs[i]] == vs[..i + 1];
      ws, changed := ws + [w], changed || one;
    }
    assert ps[..|vs|] == ps && vs[..|vs|] == vs;
  }

  /** A list is read into items, and replaced by them only if some item changed. */
  method VisitList(s: MarkedSchema, tags: Tags, m: IdMap, p: Spot, v: Value) returns (w: Value, changed: bool)
    requires Whole(s, tags, p, v) && p.node.ListNode?
    ensures Visited(s, tags, m, p, v, w, changed)
    decreases Unfold(s, tags, p, v), 0
  {
    hide Whole, Unfold, Mapped, Visited, VisitedAll;
    ListForm(s, tags, p, v);
    if v.len == 0 {
      EmptyVisited(s, tags, m, p, v);
      return v, false;
    }
    var items := ToOwnedSlice(s, p.node.element, v);
    ItemsRead(s, tags, p, v);
    var ps := SpotCopies(Spot(p.ref, p.node.element), v.len);
    var out;
    out, changed := VisitAll(s, tags, m, ps, items.value);
    ListVisited(s, tags, m, p, v, items.value, out, changed);
    w := if changed then VItems(|out|, out) else v;
  }

  lemma ListForm(s: MarkedSchema, tags: Tags, p: Spot, v: Value)
    requires Whole(s, tags, p, v) && p.node.ListNode?
    ensures v.VItems? || v.VWire?
  {
  }

  lemma EmptyVisited(s: MarkedSchema, tags: Tags, m: IdMap, p: Spot, v: Value)
    requires Whole(s, tags, p, v) && p.node.ListNode? && (v.VItems? || v.VWire?) && v.len == 0
    ensures Visited(s, tags, m, p, v, v, false)
  {
    ItemsRead(s, tags, p, v);
  }

  /** The items of a list; kept bytes are decoded again from depth 0 under the relaxed limits. */
  function ToOwnedSlice(s: MarkedSchema, e: Node, v: Value): Parsed<seq<Value>>
    requires v.VItems? || v.VWire?
  {
    match v
    case VItems(len, items) => if len <= |items| then Ok(items[..len], []) else Fail(EndOfStream)
    case VWire(len, wire) => ParseSeq(s, Copies(e, len), wire, REVALIDATED, 0, true)
  }

  ghost predicate ItemsOf(s: MarkedSchema, tags: Tags, p: Spot, v: Value, items: seq<Value>)
    requires Whole(s, tags, p, v) && p.node.ListNode?
  {
    var ps := SpotCopies(Spot(p.ref, p.node.element), |items|);
    WholeAll(s, tags, ps, items) && Unfold(s, tags, p, v) == VItems(|items|, UnfoldAll(s, tags, ps, items))
  }

  /** Reading the items of a whole list succeeds, and they stand for its elements. */
  lemma ItemsRead(s: MarkedSchema, tags: Tags, p: Spot, v: Value)
    requires Whole(s, tags, p, v) && p.node.ListNode? && (v.VItems? || v.VWire?)
    ensures var q := ToOwnedSlice(s, p.node.element, v);
      q.Ok? && |q.value| == v.len && ItemsOf(s, tags, p, v, q.value)
  {
    hide Whole, Unfold;
    if v.VItems? {
      ItemsWhole(s, tags, p, v);
      WholeParts(s, tags, p, v);
    } else {
      KeptItems(s, tags, p, v);
    }
  }

  lemma ItemsWhole(s: MarkedSchema, tags: Tags, p: Spot, v: Value)
    requires Whole(s, tags, p, v) && p.node.ListNode? && v.VItems?
    ensures v.len == |v.items| && v.items[..v.len] == v.items
    ensures Spots(s, tags, p, ShapeOf(v)) == SpotCopies(Spot(p.ref, p.node.element), v.len)
  {
  }

  lemma KeptItems(s: MarkedSchema, tags: Tags, p: Spot, v: Value)
    requires Whole(s, tags, p, v) && p.node.ListNode? && v.VWire?
    ensures var q := ToOwnedSlice(s, p.node.element, v);
      q.Ok? && |q.value| == v.len && ItemsOf(s, tags, p, v, q.value)
  {
    hide ParseSeq, ValidSeq, GenuineSeq, LogicalSeq;
    var e, ns := p.node.element, Copies(p.node.element, v.len);
    LazyEagerSeq(s, ns, v.wire, REVALIDATED, 0);
    var vs := ParseSeq(s, ns, v.wire, REVALIDATED, 0, true).value;
    SameLength(s, ns, vs);
    var ps := SpotCopies(Spot(p.ref, e), |vs|);
    AllUnfold(s, tags, ps, ns, vs);
  }

  lemma AllUnfold(s: MarkedSchema, tags: Tags, ps: seq<Spot>, ns: seq<Node>, vs: seq<Value>)
    requires ValidSeq(s, ns, vs) && GenuineSeq(s, ns, vs)
    requires |ps| == |ns| == |vs| && forall i :: 0 <= i < |ns| ==> ps[i].node == ns[i]
    ensures WholeAll(s, tags, ps, vs) && UnfoldAll(s, tags, ps, vs) == LogicalSeq(s, ns, vs)
  {
    hide Valid, Genuine, Logical, Whole, Unfold, ValidSeq, GenuineSeq, LogicalSeq;
    forall i | 0 <= i < |vs|
      ensures Whole(s, tags, ps[i], vs[i]) && Unfold(s, tags, ps[i], vs[i]) == LogicalSeq(s, ns, vs)[i]
    {
      SeqAt(s, ns, vs, i);
      LogicalIsUnfold(s, tags, ps[i], vs[i]);
    }
  }

  lemma ListVisited(s: MarkedSchema, tags: Tags, m: IdMap, p: Spot, v: Value, items: seq<Value>, out: seq<Value>, changed: bool)
    requires Whole(s, tags, p, v) && p.node.ListNode? && ItemsOf(s, tags, p, v, items)
    requires VisitedAll(s, tags, m, SpotCopies(Spot(p.ref, p.node.element), |items|), items, out, changed)
    ensures Visited(s, tags, m, p, v, if changed then VItems(|out|, out) else v, changed)
  {
    hide Whole, Unfold, Mapped, VisitedAll;
    var vi := VItems(|items|, items);
    ItemsMakeWhole(s, tags, p, items);
    WholeParts(s, tags, p, vi);
    PartsVisited(s, tags, m, p, vi, out, changed);
    VisitedLength(s, tags, m, SpotCopies(Spot(p.ref, p.node.element), |items|), items, out, changed);
  }

  lemma VisitedLength(s: MarkedSchema, tags: Tags, m: IdMap, ps: seq<Spot>, vs: seq<Value>, ws: seq<Value>, changed: bool)
    requires WholeAll(s, tags, ps, vs) && VisitedAll(s, tags, m, ps, vs, ws, changed)
    ensures |ws| == |vs|
  {
  }

  lemma ItemsMakeWhole(s: MarkedSchema, tags: Tags, p: Spot, items: seq<Value>)
    requires p.node.ListNode? && WholeAll(s, tags, SpotCopies(Spot(p.ref, p.node.element), |items|), items)
    ensures var vi := VItems(|items|, items);
      Whole(s, tags, p, vi) && Spots(s, tags, p, ShapeOf(vi)) == SpotCopies(Spot(p.ref, p.node.element), |items|)
  {
  }

  // ---- what rewriting a decoded packet means ----

  /** `w` and `changed` are what visiting `v` gives. */
  ghost predicate Rewrites(s: MarkedSchema, tags: Tags, m: IdMap, n: Node, v: Value, w: Value, changed: bool) {
    Whole(s, tags, Spot(None, n), v) && Visited(s, tags, m, Spot(None, n), v, w, changed)
  }

  /** What a visit does, integer by integer: each declared reference becomes its image, and nothing else changes. */
  lemma VisitEffect(s: MarkedSchema, tags: Tags, m: IdMap, p: Spot, v: Value, w: Value, changed: bool)
    requires Whole(s, tags, p, v) && Visited(s, tags, m, p, v, w, changed)
    ensures Rewritten(s, tags, m, p, Unfold(s, tags, p, v), Unfold(s, tags, p, w))
    ensures changed <==> SomeChanged(s, tags, p, Unfold(s, tags, p, v), Unfold(s, tags, p, w))
  {
    hide Whole, Unfold, Mapped, Rewritten, SomeChanged, Settled;
    UnfoldSettled(s, tags, p, v);
    MappedIs(s, tags, m, p, Unfold(s, tags, p, v), Unfold(s, tags, p, w));
    ChangedIs(s, tags, m, p, Unfold(s, tags, p, v), Unfold(s, tags, p, w));
  }

  /** Rewrites the declared references of a decoded value. */
  method Rewrite(s: MarkedSchema, tags: Tags, m: IdMap, n: Node, v: Value) returns (w: Value, changed: bool)
    requires Whole(s, tags, Spot(None, n), v)
    ensures Rewrites(s, tags, m, n, v, w, changed)
    ensures Rewritten(s, tags, m, Spot(None, n), Unfold(s, tags, Spot(None, n), v), Unfold(s, tags, Spot(None, n), w))
    ensures changed <==> SomeChanged(s, tags, Spot(None, n), Unfold(s, tags, Spot(None, n), v), Unfold(s, tags, Spot(None, n), w))
    ensures !changed ==> w == v
  {
    hide Whole, Unfold, Mapped, Rewritten, SomeChanged;
    w, changed := Visit(s, tags, m, Spot(None, n), v);
    VisitEffect(s, tags, m, Spot(None, n), v, w, changed);
  }

  /** Stands for the same elements as `v`, and encodes to the same bytes. */
  predicate SameAs(s: MarkedSchema, n: Node, v: Value, x: Value)
    requires Valid(s, n, v) && Genuine(s, n, v)
  {
    Valid(s, n, x) && Genuine(s, n, x) && Logical(s, n, x) == Logical(s, n, v) && Bytes(s, n, x) == Bytes(s, n, v)
  }

  /**
   The rewritten packet stands for the original with the mapping applied at the
   tagged integers, and encodes to exactly that value's bytes whenever it can be
   encoded. The answer tells whether the value changed; if not, nothing did.
   */
  lemma RewriteExact(s: MarkedSchema, tags: Tags, m: IdMap, n: Node, v: Value, w: Value, changed: bool)
    requires Valid(s, n, v) && Genuine(s, n, v)
    requires Rewrites(s, tags, m, n, v, w, changed)
    ensures var u := Mapped(s, tags, m, Spot(None, n), Logical(s, n, v));
      && Rewritten(s, tags, m, Spot(None, n), Logical(s, n, v), u)
      && (changed <==> u != Logical(s, n, v))
      && (!changed ==> w == v)
      && (FreeRefs(s, tags) ==> Valid(s, n, u))
      && (Valid(s, n, u) ==> Valid(s, n, w) && Genuine(s, n, w) && Logical(s, n, w) == u && Bytes(s, n, w) == Bytes(s, n, u))
  {
    hide Valid, Genuine, Whole, Unfold, Mapped, Logical, FreeRefs, Bytes, Rewritten, SomeChanged;
    var p := Spot(None, n);
    LogicalIsUnfold(s, tags, p, v);
    LogicalSame(s, n, v);
    VisitEffect(s, tags, m, p, v, w, changed);
    var u := Mapped(s, tags, m, p, Logical(s, n, v));
    if FreeRefs(s, tags) { MappedValid(s, tags, m, p, Logical(s, n, v)); }
    if Valid(s, n, u) {
      WholeValid(s, tags, p, w);
      LogicalIsUnfold(s, tags, p, w);
      LogicalSame(s, n, w);
    }
  }

  /** Rewriting with the inverse mapping afterwards gives back the original bytes. */
  lemma RewriteUndone(s: MarkedSchema, tags: Tags, m: IdMap, m': IdMap, n: Node, v: Value, w: Value, c: bool, x: Value, c': bool)
    requires Valid(s, n, v) && Genuine(s, n, v) && Undoes(m', m)
    requires Rewrites(s, tags, m, n, v, w, c) && Rewrites(s, tags, m', n, w, x, c')
    ensures SameAs(s, n, v, x)
  {
    hide Valid, Genuine, Whole, Unfold, Mapped, Logical, Bytes, Undoes;
    var p := Spot(None, n);
    LogicalIsUnfold(s, tags, p, v);
    LogicalSame(s, n, v);
    MappedBack(s, tags, m, m', p, Logical(s, n, v));
    WholeValid(s, tags, p, x);
    LogicalIsUnfold(s, tags, p, x);
    LogicalSame(s, n, x);
  }

  /** A packet outside the set never changes, whatever the mapping. */
  lemma OutsideUnchanged(s: MarkedSchema, tags: Tags, m: IdMap, n: Node, v: Value, w: Value, changed: bool)
    requires !Reach(s.types, tags, n, {}) && Rewrites(s, tags, m, n, v, w, changed)
    ensures !changed && w == v
  {
    hide Whole, Unfold, Mapped;
    ReachExact(s.types, tags, n);
    UntaggedKept(s, tags, m, Spot(None, n), Unfold(s, tags, Spot(None, n), v));
  }

  // ---- a rewritten packet can be sent on ----

  /** Writing out kept bytes can only add levels to what is counted. */
  lemma {:induction false} NestLogical(s: MarkedSchema, n: Node, v: Value)
    requires Valid(s, n, v) && Genuine(s, n, v) && Valid(s, n, Logical(s, n, v))
    ensures Nest(s, n, v) <= Nest(s, n, Logical(s, n, v))
    decreases v
  {
    hide ShapeOk, Children, ChecksOk, ChecksOf, AtomOk, Level, Bytes, Plain;
    if !Closed(s, n, v) {
      var sh := ShapeOf(v);
      var ns := Children(s, n, sh);
      var ws := LogicalSeq(s, ns, v.Parts());
      BuildShape(v, ws);
      NestLogicalSeq(s, ns, v.Parts());
    }
  }

  lemma {:induction false} NestLogicalSeq(s: MarkedSchema, ns: seq<Node>, vs: seq<Value>)
    requires ValidSeq(s, ns, vs) && GenuineSeq(s, ns, vs) && ValidSeq(s, ns, LogicalSeq(s, ns, vs))
    ensures NestSeq(s, ns, vs) <= NestSeq(s, ns, LogicalSeq(s, ns, vs))
    decreases vs
  {
    hide Valid, Genuine, Logical, Nest;
    if |vs| > 0 {
      var ws := LogicalSeq(s, ns, vs);
      assert ws[0] == Logical(s, ns[0], vs[0]) && ws[1..] == LogicalSeq(s, ns[1..], vs[1..]);
      NestLogical(s, ns[0], vs[0]);
      NestLogicalSeq(s, ns[1..], vs[1..]);
    }
  }

  /** Changing integers changes no levels. */
  lemma {:induction false} NestMapped(s: MarkedSchema, tags: Tags, m: IdMap, p: Spot, v: Value)
    requires Valid(s, p.node, v) && Valid(s, p.node, Mapped(s, tags, m, p, v))
    ensures Nest(s, p.node, Mapped(s, tags, m, p, v)) == Nest(s, p.node, v)
    decreases v
  {
    hide Spots, Atom, AtomOk, MappedAtom, Children, ShapeOk, ChecksOk, ChecksOf, Level;
    if !Atom(s, p.node) && !v.VWire? {
      var sh, xs := ShapeOf(v), v.Parts();
      var ps, ns := Spots(s, tags, p, sh), Children(s, p.node, sh);
      SpotsAreChildren(s, tags, p, sh);
      SameLength(s, ns, xs);
      var ws := seq(|xs|, i requires 0 <= i < |xs| => Mapped(s, tags, m, ps[i], xs[i]));
      BuildShape(v, ws);
      forall i | 0 <= i < |xs| ensures Valid(s, ns[i], xs[i]) && Valid(s, ns[i], ws[i]) && Nest(s, ns[i], ws[i]) == Nest(s, ns[i], xs[i]) {
        ValidAt(s, ns, xs, i);
        ValidAt(s, ns, ws, i);
        NestMapped(s, tags, m, ps[i], xs[i]);
      }
      SameNests(s, ns, xs, ws);
    }
  }

  lemma {:induction false} SameNests(s: Schema, ns: seq<Node>, vs: seq<Value>, ws: seq<Value>)
    requires ValidSeq(s, ns, vs) && ValidSeq(s, ns, ws) && |ns| == |vs| == |ws|
    requires forall i :: 0 <= i < |ns| ==> Valid(s, ns[i], vs[i]) && Valid(s, ns[i], ws[i]) && Nest(s, ns[i], ws[i]) == Nest(s, ns[i], vs[i])
    ensures NestSeq(s, ns, ws) == NestSeq(s, ns, vs)
    decreases |ns|
  {
    hide Valid, Nest;
    if |ns| > 0 { SameNests(s, ns[1..], vs[1..], ws[1..]); }
  }

  /**
   What a proxy relies on: a packet that decoded, rewritten, encodes to exactly the
   bytes of its mapped logical value, whenever those are bytes of the schema at all;
   with references free of bounds and checks they always are.
   */
  lemma RewriteEncodes(
    s: MarkedSchema, tags: Tags, m: IdMap, n: Node, bs: bytes, L: Limits, d: nat, w: Value, changed: bool, depth: nat)
    requires L.Valid() && depth <= d <= L.maxNestingDepth && Parse(s, n, bs, L, d, true).Ok?
    requires Rewrites(s, tags, m, n, Parse(s, n, bs, L, d, true).value, w, changed)
    ensures var v := Parse(s, n, bs, L, d, true).value;
      && Valid(s, n, v) && Genuine(s, n, v)
      && var u := Mapped(s, tags, m, Spot(None, n), Logical(s, n, v));
      && Rewritten(s, tags, m, Spot(None, n), Logical(s, n, v), u)
      && (FreeRefs(s, tags) ==> Valid(s, n, u))
      && Encode(s, n, w, depth) == if Valid(s, n, u) then Some(Bytes(s, n, u)) else None
  {
    hide Parse, Valid, Genuine, Whole, Unfold, Mapped, Logical, FreeRefs, Bytes, Nest, Plain, Fits, Rewritten;
    LazyEager(s, n, bs, L, d);
    DecodeExact(s, n, bs, L, d, false);
    var v := Parse(s, n, bs, L, d, true).value;
    RewriteExact(s, tags, m, n, v, w, changed);
    var u := Mapped(s, tags, m, Spot(None, n), Logical(s, n, v));
    if Valid(s, n, u) {
      NestMapped(s, tags, m, Spot(None, n), Logical(s, n, v));
      NestLogical(s, n, w);
    }
    if Valid(s, n, w) { RewrittenValid(s, tags, m, n, v, w, changed); }
  }

  /** If the rewritten value can be encoded, so can the mapped one it stands for. */
  lemma RewrittenValid(s: MarkedSchema, tags: Tags, m: IdMap, n: Node, v: Value, w: Value, changed: bool)
    requires Valid(s, n, v) && Genuine(s, n, v) && Rewrites(s, tags, m, n, v, w, changed) && Valid(s, n, w)
    ensures Valid(s, n, Mapped(s, tags, m, Spot(None, n), Logical(s, n, v)))
  {
    hide Valid, Genuine, Whole, Unfold, Mapped, Logical, Bytes, Plain;
    var p := Spot(None, n);
    LogicalIsUnfold(s, tags, p, v);
    WholeGenuine(s, tags, p, w);
    LogicalIsUnfold(s, tags, p, w);
    LogicalSame(s, n, w);
  }
}
