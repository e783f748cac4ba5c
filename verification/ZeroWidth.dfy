/** Shapes whose values can take no bytes, and what a list of them costs. */
module ZeroWidth {
  import opened Wire
  import opened Integers
  import opened Values
  import opened Leaves
  import opened Schemas
  import opened Shapes
  import opened Meaning
  import opened Parser
  import opened Codec
  import opened Lazy
  import opened Guarantees
  import Leb128

  // ---- which shapes ----

  /** Given the types already known to be so: fixed arrays, entries and references made only of nothing. */
  predicate ZeroNode(n: Node, zero: set<string>) {
    match n
    case LeafNode(_) => false
    case ListNode(_, _, _, _) => false
    case EntryNode(k, v) => ZeroNode(k, zero) && ZeroNode(v, zero)
    case FixedNode(len, e) => len == 0 || ZeroNode(e, zero)
    case OptionalNode(_) => false
    case RefNode(r, _) => r in zero
  }

  /** A struct without fields, or with fields that take no bytes and no check on them. */
  predicate ZeroBody(t: TypeDef, zero: set<string>) {
    t.Struct? && (|t.fields| == 0 || (|t.checks| == 0 && forall i :: 0 <= i < |t.fields| ==> ZeroNode(t.fields[i].node, zero)))
  }

  /** The types known after `k` rounds, starting from none. */
  function ZeroTypes(types: map<string, TypeDef>, k: nat): set<string> {
    if k == 0 then {} else set r | r in types && ZeroBody(types[r], ZeroTypes(types, k - 1)) :: r
  }

  /** Some value of the shape may take no bytes: as many rounds as there are types settle it. */
  predicate ZeroWidth(s: Schema, n: Node) { ZeroNode(n, ZeroTypes(s.types, |s.types|)) }

  lemma {:induction false} ZeroNodeMono(n: Node, a: set<string>, b: set<string>)
    requires a <= b && ZeroNode(n, a)
    ensures ZeroNode(n, b)
  {
    match n
    case EntryNode(k, v) => ZeroNodeMono(k, a, b); ZeroNodeMono(v, a, b);
    case FixedNode(len, e) => if len > 0 { ZeroNodeMono(e, a, b); }
    case _ =>
  }

  lemma ZeroBodyMono(t: TypeDef, a: set<string>, b: set<string>)
    requires a <= b && ZeroBody(t, a)
    ensures ZeroBody(t, b)
  {
    hide ZeroNode;
    if |t.fields| > 0 {
      forall i | 0 <= i < |t.fields| ensures ZeroNode(t.fields[i].node, b) { ZeroNodeMono(t.fields[i].node, a, b); }
    }
  }

  lemma {:induction false} RoundsGrow(types: map<string, TypeDef>, k: nat)
    ensures ZeroTypes(types, k) <= ZeroTypes(types, k + 1) <= types.Keys
  {
    hide ZeroBody;
    if k > 0 {
      RoundsGrow(types, k - 1);
      forall r | r in ZeroTypes(types, k) ensures r in ZeroTypes(types, k + 1) {
        ZeroBodyMono(types[r], ZeroTypes(types, k - 1), ZeroTypes(types, k));
      }
    }
  }

  /** Each round adds a type until none can be added. */
  lemma {:induction false} RoundsSettle(types: map<string, TypeDef>, k: nat)
    ensures ZeroTypes(types, k + 1) == ZeroTypes(types, k) || |ZeroTypes(types, k + 1)| > k
  {
    hide ZeroBody;
    RoundsGrow(types, k);
    if k > 0 { RoundsSettle(types, k - 1); }
    if ZeroTypes(types, k + 1) != ZeroTypes(types, k) { SubsetSize(ZeroTypes(types, k), ZeroTypes(types, k + 1)); }
  }

  lemma Settled(types: map<string, TypeDef>)
    ensures var z := ZeroTypes(types, |types|);
      forall r :: r in types && ZeroBody(types[r], z) ==> r in z
  {
    hide ZeroBody;
    var k := |types|;
    RoundsSettle(types, k);
    RoundsGrow(types, k);
    if ZeroTypes(types, k + 1) != ZeroTypes(types, k) { SubsetSizeLe(ZeroTypes(types, k + 1), types.Keys); }
  }

  // ---- a value without bytes needs such a shape ----

  lemma IntTakes(k: IntKind, v: int)
    requires InRange(k, v)
    ensures |IntBytes(k, v)| > 0
  {
  }

  lemma LeafTakes(l: Leaf, v: Value)
    requires LeafValid(l, v)
    ensures |LeafBytes(l, v)| > 0
  {
    hide InRange, IntBytes;
    if l.IntLeaf? { IntTakes(l.kind, v.n); }
    if l.FloatLeaf? { IntTakes(Fixed(l.size, false, false), v.n); }
  }

  lemma AtomTakes(s: Schema, n: Node, v: Value)
    requires Atom(s, n) && AtomOk(s, n, v)
    ensures |AtomBytes(s, n, v)| > 0
  {
    hide LeafValid, LeafBytes, InRange, IntBytes;
    match n
    case LeafNode(l) => LeafTakes(l, v);
    case RefNode(r, _) => IntTakes(s.types[r].repr, v.n);
  }

  /** A list writes its count, an optional its flag and a union its tag. */
  lemma HeadTakes(s: Schema, n: Node, sh: Shape)
    requires ShapeOk(s, n, sh) && !Atom(s, n) && |ShapeBytes(s, n, sh)| == 0
    ensures sh.StructShape? || sh.ArrayShape?
  {
    hide InRange, IntBytes;
    if sh.ListShape? { IntTakes(PrefixKind(n.prefix), sh.count); }
    if sh.UnionShape? { IntTakes(s.types[n.ref].repr, sh.tag); }
  }

  lemma {:induction false} ZeroNeeds(s: Schema, n: Node, v: Value)
    requires Valid(s, n, v) && Bytes(s, n, v) == []
    ensures ZeroWidth(s, n) && LengthOf(v) == None
    decreases v
  {
    hide ShapeOk, ShapeBytes, Children, ChecksOk, ChecksOf, AtomOk, AtomBytes, ZeroWidth;
    if Atom(s, n) {
      AtomTakes(s, n, v);
    } else {
      var sh := ShapeOf(v);
      HeadTakes(s, n, sh);
      ZeroNeedsSeq(s, Children(s, n, sh), v.Parts());
      ZeroShape(s, n, v);
    }
  }

  lemma ZeroShape(s: Schema, n: Node, v: Value)
    requires !Atom(s, n) && v.Open() && ShapeOk(s, n, ShapeOf(v)) && (ShapeOf(v).StructShape? || ShapeOf(v).ArrayShape?)
    requires ChecksOk(ChecksOf(s, n), v.Parts())
    requires var ns := Children(s, n, ShapeOf(v));
      |ns| == |v.Parts()| && forall i :: 0 <= i < |ns| ==> ZeroWidth(s, ns[i]) && LengthOf(v.Parts()[i]) == None
    ensures ZeroWidth(s, n)
  {
    hide ZeroTypes;
    Settled(s.types);
    var ns := Children(s, n, ShapeOf(v));
    match n
    case EntryNode(k, x) => assert ns[0] == k && ns[1] == x;
    case FixedNode(len, e) => if len > 0 { assert ns[0] == e; }
    case RefNode(r, _) =>
      var t := s.types[r];
      if |t.fields| > 0 {
        forall i | 0 <= i < |t.fields| ensures ZeroNode(t.fields[i].node, ZeroTypes(s.types, |s.types|)) {
          assert ns[i] == t.fields[i].node;
        }
        assert |t.checks| > 0 ==> CheckOk(t.checks[0], v.Parts());
      }
      assert ZeroBody(t, ZeroTypes(s.types, |s.types|));
    case _ =>
  }

  lemma {:induction false} ZeroNeedsSeq(s: Schema, ns: seq<Node>, vs: seq<Value>)
    requires ValidSeq(s, ns, vs) && BytesSeq(s, ns, vs) == []
    ensures |ns| == |vs| && forall i :: 0 <= i < |ns| ==> ZeroWidth(s, ns[i]) && LengthOf(vs[i]) == None
    decreases vs
  {
    hide Valid, Bytes, ZeroWidth, LengthOf;
    if |vs| > 0 {
      ZeroNeeds(s, ns[0], vs[0]);
      ZeroNeedsSeq(s, ns[1..], vs[1..]);
      forall i | 0 < i < |ns| ensures ZeroWidth(s, ns[i]) && LengthOf(vs[i]) == None {
        assert ns[i] == ns[1..][i - 1] && vs[i] == vs[1..][i - 1];
      }
    }
  }

  // ---- and such a shape has one ----

  lemma {:induction false} ZeroExists(s: Schema, n: Node, k: nat) returns (v: Value)
    requires ZeroNode(n, ZeroTypes(s.types, k))
    ensures Valid(s, n, v) && Bytes(s, n, v) == [] && Plain(s, n, v)
    decreases k, Size(n), 0
  {
    hide ZeroTypes, ZeroNode, ValidSeq, BytesSeq, PlainSeq, SeqSize;
    ZeroParts(s, n, k);
    match n
    case EntryNode(x, y) =>
      PairMeasure(s, x, y);
      var vs := ZeroExistsSeq(s, [x, y], k);
      v := VStruct(vs);
      EntryMade(s, n, vs);
    case FixedNode(len, e) =>
      CopiesMeasure(s, e, len);
      var vs := ZeroExistsSeq(s, Copies(e, len), k);
      v := VArray(vs);
      ArrayMade(s, n, vs);
    case RefNode(r, _) =>
      var vs := ZeroExistsSeq(s, FieldNodes(s.types[r].fields), k - 1);
      v := VStruct(vs);
      StructMade(s, n, vs);
  }

  /** What such a shape is made of is such shapes, of an earlier round for a type. */
  lemma ZeroParts(s: Schema, n: Node, k: nat)
    requires ZeroNode(n, ZeroTypes(s.types, k))
    ensures n.EntryNode? || n.FixedNode? || n.RefNode?
    ensures n.EntryNode? ==> ZeroNode(n.key, ZeroTypes(s.types, k)) && ZeroNode(n.value, ZeroTypes(s.types, k))
    ensures n.FixedNode? ==> n.len == 0 || ZeroNode(n.element, ZeroTypes(s.types, k))
    ensures n.RefNode? ==>
      && k > 0 && n.ref in s.types && s.types[n.ref].Struct? && ChecksOf(s, n) == []
      && forall i :: 0 <= i < |s.types[n.ref].fields| ==> ZeroNode(s.types[n.ref].fields[i].node, ZeroTypes(s.types, k - 1))
  {
    hide ZeroTypes;
    if n.RefNode? { Round(s.types, k, n.ref); }
  }

  lemma EntryMade(s: Schema, n: Node, vs: seq<Value>)
    requires n.EntryNode?
    requires var ns := [n.key, n.value]; ValidSeq(s, ns, vs) && PlainSeq(s, ns, vs) && BytesSeq(s, ns, vs) == []
    ensures Valid(s, n, VStruct(vs)) && Bytes(s, n, VStruct(vs)) == [] && Plain(s, n, VStruct(vs))
  {
    MadeOf(s, n, VStruct(vs));
  }

  lemma ArrayMade(s: Schema, n: Node, vs: seq<Value>)
    requires n.FixedNode?
    requires var ns := Copies(n.element, n.len); ValidSeq(s, ns, vs) && PlainSeq(s, ns, vs) && BytesSeq(s, ns, vs) == []
    ensures Valid(s, n, VArray(vs)) && Bytes(s, n, VArray(vs)) == [] && Plain(s, n, VArray(vs))
  {
    MadeOf(s, n, VArray(vs));
  }

  lemma StructMade(s: Schema, n: Node, vs: seq<Value>)
    requires n.RefNode? && n.ref in s.types && s.types[n.ref].Struct? && ChecksOf(s, n) == []
    requires var ns := FieldNodes(s.types[n.ref].fields); ValidSeq(s, ns, vs) && PlainSeq(s, ns, vs) && BytesSeq(s, ns, vs) == []
    ensures Valid(s, n, VStruct(vs)) && Bytes(s, n, VStruct(vs)) == [] && Plain(s, n, VStruct(vs))
  {
    MadeOf(s, n, VStruct(vs));
  }

  lemma Round(types: map<string, TypeDef>, k: nat, r: string)
    requires r in ZeroTypes(types, k)
    ensures k > 0 && r in types && ZeroBody(types[r], ZeroTypes(types, k - 1))
  {
  }

  lemma MadeOf(s: Schema, n: Node, v: Value)
    requires v.VStruct? || v.VArray?
    requires !Atom(s, n) && ShapeOk(s, n, ShapeOf(v)) && ChecksOf(s, n) == []
    requires var ns := Children(s, n, ShapeOf(v));
      ValidSeq(s, ns, v.Parts()) && PlainSeq(s, ns, v.Parts()) && BytesSeq(s, ns, v.Parts()) == []
    ensures Valid(s, n, v) && Bytes(s, n, v) == [] && Plain(s, n, v)
  {
  }

  lemma {:induction false} ZeroExistsSeq(s: Schema, ns: seq<Node>, k: nat) returns (vs: seq<Value>)
    requires forall i :: 0 <= i < |ns| ==> ZeroNode(ns[i], ZeroTypes(s.types, k))
    ensures ValidSeq(s, ns, vs) && BytesSeq(s, ns, vs) == [] && PlainSeq(s, ns, vs)
    decreases k, SeqSize(ns), |ns|
  {
    hide ZeroTypes, ZeroNode, Valid, Bytes, Plain, Size;
    vs := [];
    if |ns| > 0 {
      var v := ZeroExists(s, ns[0], k);
      var rest := ZeroExistsSeq(s, ns[1..], k);
      vs := [v] + rest;
      assert vs[1..] == rest;
    }
  }

  /** Some value of a shape takes no bytes exactly when the shape is made of nothing but empty structs. */
  lemma ZeroWidthIff(s: Schema, n: Node)
    ensures ZeroWidth(s, n) <==> exists v :: Valid(s, n, v) && Bytes(s, n, v) == []
  {
    hide Valid, Bytes, Plain, ZeroNode, ZeroTypes;
    if ZeroWidth(s, n) { var v := ZeroExists(s, n, |s.types|); }
    if v :| Valid(s, n, v) && Bytes(s, n, v) == [] { ZeroNeeds(s, n, v); }
  }

  // ---- what that means for lists ----

  lemma {:induction false} SeqTakes(s: Schema, ns: seq<Node>, vs: seq<Value>)
    requires ValidSeq(s, ns, vs) && forall i :: 0 <= i < |ns| ==> !ZeroWidth(s, ns[i])
    ensures |BytesSeq(s, ns, vs)| >= |vs|
    decreases vs
  {
    hide Valid, Bytes, ZeroWidth;
    if |vs| > 0 {
      if |Bytes(s, ns[0], vs[0])| == 0 { ZeroNeeds(s, ns[0], vs[0]); }
      SeqTakes(s, ns[1..], vs[1..]);
    }
  }

  /** Unless its elements can take no bytes, a decoded list has fewer elements than the bytes it was decoded from. */
  lemma ListLinear(s: MarkedSchema, n: Node, bs: bytes, L: Limits, d: nat)
    requires L.Valid() && n.ListNode? && Parse(s, n, bs, L, d, true).Ok? && !ZeroWidth(s, n.element)
    ensures var Ok(v, rest) := Parse(s, n, bs, L, d, true); v.VWire? && v.len < |bs| - |rest|
  {
    hide Parse, ParseSeq, ValidSeq, BytesSeq, InRange, IntBytes, ZeroWidth;
    ListIteration(s, n, bs, L, d);
    DecodeExact(s, n, bs, L, d, true);
    var v := Parse(s, n, bs, L, d, true).value;
    var ns, ws := Copies(n.element, v.len), Reread(s, n.element, v.len, v.wire).value;
    SeqTakes(s, ns, ws);
    IntTakes(PrefixKind(n.prefix), v.len);
  }

  lemma {:induction false} Repeated(s: Schema, e: Node, w: Value, count: nat, L: Limits, d: nat) returns (ws: seq<Value>)
    requires Valid(s, e, w) && Bytes(s, e, w) == [] && Plain(s, e, w) && Fits(s, e, w, L, d)
    ensures var ns := Copies(e, count);
      |ws| == count && ValidSeq(s, ns, ws) && BytesSeq(s, ns, ws) == [] && PlainSeq(s, ns, ws) && FitsSeq(s, ns, ws, L, d)
  {
    hide Valid, Bytes, Plain, Fits;
    ws := [];
    if count > 0 {
      var rest := Repeated(s, e, w, count - 1, L, d);
      ws := [w] + rest;
      assert ws[1..] == rest && Copies(e, count)[1..] == Copies(e, count - 1);
    }
  }

  /** The list of so many elements, as items. */
  lemma CountedItems(s: Schema, e: Node, ws: seq<Value>, L: Limits, d: nat)
    requires var ns := Copies(e, |ws|); ValidSeq(s, ns, ws) && BytesSeq(s, ns, ws) == [] && PlainSeq(s, ns, ws) && FitsSeq(s, ns, ws, L, d)
    requires |ws| <= L.maxArrayElements && |ws| <= U32_MAX
    ensures var n, v := ListNode(CountVarU32, e, None, None), VItems(|ws|, ws);
      && Valid(s, n, v) && Plain(s, n, v) && Fits(s, n, v, L, d)
      && Bytes(s, n, v) == Leb128.Encode(|ws|)
  {
    hide ValidSeq, BytesSeq, PlainSeq, FitsSeq;
    assert Leb128.Encode(|ws|) + [] == Leb128.Encode(|ws|);
  }

  /** Elements that take no bytes: a list of as many as the limits and the count prefix allow is decoded from its count alone. */
  lemma ZeroList(s: MarkedSchema, e: Node, w: Value, count: nat, L: Limits, d: nat)
    requires Valid(s, e, w) && Bytes(s, e, w) == [] && Plain(s, e, w) && Fits(s, e, w, L, d)
    requires count <= L.maxArrayElements && count <= U32_MAX && L.Valid()
    ensures Parse(s, ListNode(CountVarU32, e, None, None), Leb128.Encode(count), L, d, true) == Ok(VWire(count, []), [])
  {
    hide Parse, Valid, Bytes, Plain, Fits, ParseSeq, ValidSeq, BytesSeq, PlainSeq, FitsSeq, Nest;
    var n, bs := ListNode(CountVarU32, e, None, None), Leb128.Encode(count);
    var ws := Repeated(s, e, w, count, L, d);
    CountedItems(s, e, ws, L, d);
    DecodeBack(s, n, VItems(count, ws), [], L, d);
    assert bs + [] == bs;
    LazyEager(s, n, bs, L, d);
    ListIteration(s, n, bs, L, d);
    DecodeExact(s, n, bs, L, d, true);
    KeptBytes(s, n, Parse(s, n, bs, L, d, true).value, bs);
  }

  lemma KeptBytes(s: Schema, n: Node, v: Value, bs: bytes)
    requires n.ListNode? && n.prefix.CountVarU32? && v.VWire? && Valid(s, n, v)
    requires bs == Bytes(s, n, v) + [] && bs == Leb128.Encode(v.len)
    ensures v.wire == []
  {
    assert Bytes(s, n, v) == Leb128.Encode(v.len) + v.wire;
  }

  // ---- one such schema ----

  /** A struct without fields, which validation accepts. */
  const EMPTY: Schema := Schema(map["Empty" := Struct([], [])], {})

  /** A million elements, the default limit, from three bytes. */
  lemma MillionFromThreeBytes(L: Limits)
    requires L.Valid() && L.maxArrayElements == 1_000_000
    ensures Marked(EMPTY) && ZeroWidth(EMPTY, RefNode("Empty", []))
    ensures var bs := Leb128.Encode(1_000_000);
      |bs| == 3 && Parse(EMPTY, ListNode(CountVarU32, RefNode("Empty", []), None, None), bs, L, 0, true) == Ok(VWire(1_000_000, []), [])
  {
    var e, w := RefNode("Empty", []), VStruct([]);
    EmptyMarked();
    EmptyValue(L);
    ZeroNeeds(EMPTY, e, w);
    ZeroList(EMPTY, e, w, 1_000_000, L, 0);
  }

  lemma EmptyMarked()
    ensures Marked(EMPTY)
  {
    assert FieldNodes([]) == [] && TypeRefs(EMPTY.types["Empty"]) == {};
    forall p: seq<string> | IsPath(EMPTY.types, p) ensures |p| < 2 {
      assert |p| >= 2 ==> Edge(EMPTY.types, p[0], p[0 + 1]);
    }
  }

  lemma EmptyValue(L: Limits)
    ensures var e, w := RefNode("Empty", []), VStruct([]);
      Valid(EMPTY, e, w) && Bytes(EMPTY, e, w) == [] && Plain(EMPTY, e, w) && Fits(EMPTY, e, w, L, 0)
  {
  }
}
