/** What emitted code does on bytes: the decoder and encoder it amounts to once its helpers are followed. */
module HelperCodecs {
  import opened Wire
  import opened Integers
  import opened Values
  import opened Leaves
  import opened Schemas
  import opened Shapes
  import opened Meaning
  import opened Parser
  import opened Codec
  import opened Helpers
  import Leb128
  import Text

  // ---- following the helpers ----

  /** The shape that statements handle when every call of a helper is replaced by the helper's own statements. */
  function Inline(helpers: map<string, Helper>, c: Code, fuel: nat): Option<Node>
    decreases fuel, 1, c
  {
    match c
    case LeafCode(n) => Some(n)
    case ListCode(p, element, lo, hi) =>
      (match if element.Own? then Some(element.node) else InlineHelper(helpers, element.helper, fuel)
       case None => None
       case Some(e) => Some(ListNode(p, e, lo, hi)))
    case MapCode(p, entry, lo, hi) =>
      (match InlineHelper(helpers, entry, fuel)
       case None => None
       case Some(e) => Some(ListNode(p, e, lo, hi)))
    case FixedCode(len, item) =>
      (match Inline(helpers, item, fuel)
       case None => None
       case Some(e) => Some(FixedNode(len, e)))
    case OptionalCode(inner) =>
      (match Inline(helpers, inner, fuel)
       case None => None
       case Some(v) => Some(OptionalNode(v)))
  }

  /** One level of calls deeper; `fuel` levels at most. */
  function InlineHelper(helpers: map<string, Helper>, name: string, fuel: nat): Option<Node>
    decreases fuel, 0
  {
    if fuel == 0 || name !in helpers then None
    else
      match helpers[name]
      case CodecHelper(code) => Inline(helpers, code, fuel - 1)
      case EntryHelper(key, value) =>
        match Inline(helpers, key, fuel - 1)
        case None => None
        case Some(k) =>
          match Inline(helpers, value, fuel - 1)
          case None => None
          case Some(v) => Some(EntryNode(k, v))
  }

  /** What the statements read from the front of the input. */
  function RunDecode(
    s: MarkedSchema, helpers: map<string, Helper>, c: Code, fuel: nat, bs: bytes, L: Limits, d: nat, lazy: bool): Option<Parsed<Value>>
  {
    match Inline(helpers, c, fuel)
    case None => None
    case Some(n) => Some(Parse(s, n, bs, L, d, lazy))
  }

  /** What the statements write for a value, if they accept it. */
  function RunEncode(s: Schema, helpers: map<string, Helper>, c: Code, fuel: nat, v: Value, depth: nat): Option<Option<bytes>> {
    match Inline(helpers, c, fuel)
    case None => None
    case Some(n) => Some(Encode(s, n, v, depth))
  }

  /** The node with only the bounds that are checked. */
  function Shown(n: Node): Node {
    match n
    case LeafNode(l) => LeafNode(ShownLeaf(l))
    case RefNode(_, _) => n
    case EntryNode(k, v) => EntryNode(Shown(k), Shown(v))
    case FixedNode(len, e) => FixedNode(len, Shown(e))
    case OptionalNode(v) => OptionalNode(Shown(v))
    case ListNode(p, e, lo, hi) => ListNode(p, Shown(e), ShownMin(lo), ShownItems(hi))
  }

  lemma DirectShown(e: Node)
    requires Direct(e)
    ensures Shown(e) == e
  {
  }

  /** Code that means a node is, its helpers followed, the code of that node's checked bounds. */
  lemma {:induction false} InlineMeans(helpers: map<string, Helper>, c: Code, n: Node, fuel: nat)
    requires Means(helpers, c, n) && fuel >= Size(n)
    ensures Inline(helpers, c, fuel) == Some(Shown(n))
    decreases n, 0
  {
    hide ShownLeaf, ShownItems, ShownMin;
    match n
    case FixedNode(_, e) => InlineMeans(helpers, c.item, e, fuel);
    case OptionalNode(v) => InlineMeans(helpers, c.inner, v, fuel);
    case ListNode(_, e, _, _) =>
      if e.EntryNode? {
        InlineHelperMeans(helpers, c.entry, e, fuel);
      } else if Direct(e) {
        DirectShown(e);
      } else {
        InlineHelperMeans(helpers, c.element.helper, e, fuel);
      }
    case _ =>
  }

  lemma {:induction false} InlineHelperMeans(helpers: map<string, Helper>, name: string, e: Node, fuel: nat)
    requires HelperMeans(helpers, name, e) && fuel >= 1 + Size(e)
    ensures InlineHelper(helpers, name, fuel) == Some(Shown(e))
    decreases e, 1
  {
    hide ShownLeaf, ShownItems, ShownMin;
    match helpers[name]
    case CodecHelper(code) => InlineMeans(helpers, code, e, fuel - 1);
    case EntryHelper(key, value) =>
      InlineMeans(helpers, key, e.key, fuel - 1);
      InlineMeans(helpers, value, e.value, fuel - 1);
  }

  // ---- bounds that are not checked change nothing ----

  lemma InKindRange(k: IntKind, v: int)
    ensures InRange(k, v) <==> Least(k) <= v <= Greatest(k)
  {
    hide Leb128.Pow2;
    match k
    case Fixed(size, _, _) => EvenRange(8 * size);
    case ZigzagI32 => EvenRange(8 * 4);
    case ZigzagI64 => EvenRange(8 * 8);
    case _ =>
  }

  lemma EvenRange(bits: nat)
    requires bits > 0
    ensures Leb128.Pow2(bits) == 2 * (Leb128.Pow2(bits) / 2)
  {
    Halved(Leb128.Pow2(bits), Leb128.Pow2(bits - 1));
  }

  lemma Halved(x: int, half: int)
    requires x == 2 * half
    ensures x == 2 * (x / 2)
  {
  }

  lemma ShownLeafSame(l: Leaf, bs: bytes, L: Limits, v: Value)
    ensures ParseLeaf(ShownLeaf(l), bs, L) == ParseLeaf(l, bs, L)
    ensures LeafValid(ShownLeaf(l), v) <==> LeafValid(l, v)
    ensures LeafValid(l, v) ==> LeafBytes(ShownLeaf(l), v) == LeafBytes(l, v)
  {
    hide ReadIngredient, IngredientValid, IngredientBytes, InRange, IntBytes, ReadString, ReadByteArray, StringOk, SizedBytes;
    if l.IntLeaf? {
      IntsInRange(l.kind, bs);
      if v.VInt? { InKindRange(l.kind, v.n); }
    }
  }

  lemma IntsInRange(k: IntKind, bs: bytes)
    ensures ReadInt(k, bs).Ok? ==> Least(k) <= ReadInt(k, bs).value <= Greatest(k)
  {
    hide InRange, ReadInt;
    if ReadInt(k, bs).Ok? {
      var Ok(v, rest) := ReadInt(k, bs);
      IntBijection(k, bs, v, rest);
      InKindRange(k, v);
    }
  }

  lemma CountsBounded(p: CountPrefix, bs: bytes, L: Limits)
    ensures ReadCount(p, bs, L).Ok? ==> ReadCount(p, bs, L).value <= U32_MAX
  {
    hide ReadBits;
    if ReadCount(p, bs, L).Ok? { CountIff(p, bs, ReadCount(p, bs, L).value, ReadCount(p, bs, L).rest, L); }
  }

  lemma ShownHeads(s: Schema, n: Node, bs: bytes, L: Limits, d: nat)
    ensures Atom(s, Shown(n)) == Atom(s, n) && Level(s, Shown(n)) == Level(s, n) && ChecksOf(s, Shown(n)) == ChecksOf(s, n)
    ensures ParseHead(s, Shown(n), bs, L, d) == ParseHead(s, n, bs, L, d)
  {
    hide ParseLeaf, ShownLeaf, ReadCount, ReadBool;
    match n
    case LeafNode(l) => ShownLeafSame(l, bs, L, VBool(false));
    case ListNode(p, _, _, _) => CountsBounded(p, bs, L);
    case _ =>
  }

  /** The children of a level, and their counterparts. */
  ghost predicate Counterparts(top: Node, ns: seq<Node>, ms: seq<Node>) {
    |ns| == |ms| && forall i :: 0 <= i < |ns| ==> ns[i] < top && ms[i] == Shown(ns[i])
  }

  lemma ShownChildren(s: Schema, n: Node, sh: Shape)
    requires !n.RefNode? && !Atom(s, n) && (ShapeOk(s, n, sh) || ShapeOk(s, Shown(n), sh))
    ensures ShapeOk(s, n, sh) && ShapeOk(s, Shown(n), sh) && Counterparts(n, Children(s, n, sh), Children(s, Shown(n), sh))
    ensures ShapeBytes(s, Shown(n), sh) == ShapeBytes(s, n, sh)
  {
    hide IntBytes, InRange, ShownLeaf;
  }

  /** Every input is read alike: the same value, rest or error. */
  lemma {:induction false} ShownParses(s: MarkedSchema, n: Node, bs: bytes, L: Limits, d: nat, lazy: bool)
    ensures Parse(s, Shown(n), bs, L, d, lazy) == Parse(s, n, bs, L, d, lazy)
    decreases n, 1, 0
  {
    hide ParseHead, ShapeOk, ShapeFits, ShapeBytes, Children, Atom, ShownLeaf, Level, ChecksOf, ChecksOk, Counterparts;
    if !n.RefNode? {
      ShownHeads(s, n, bs, L, d);
      var p := ParseHead(s, n, bs, L, d);
      if p.Ok? && !Atom(s, n) {
        HeadIff(s, n, bs, p.value, p.rest, L, d);
        ShownChildren(s, n, p.value);
        ShownParsesSeq(s, n, Children(s, n, p.value), Children(s, Shown(n), p.value), p.rest, L, d + Level(s, n), lazy);
      }
    }
  }

  lemma {:induction false} ShownParsesSeq(
    s: MarkedSchema, top: Node, ns: seq<Node>, ms: seq<Node>, bs: bytes, L: Limits, d: nat, lazy: bool)
    requires Counterparts(top, ns, ms)
    ensures ParseSeq(s, ms, bs, L, d, lazy) == ParseSeq(s, ns, bs, L, d, lazy)
    decreases top, 0, |ns|
  {
    hide Parse, Shown;
    if |ns| > 0 {
      ShownParses(s, ns[0], bs, L, d, lazy);
      var p := Parse(s, ns[0], bs, L, d, lazy);
      if p.Ok? { ShownParsesSeq(s, top, ns[1..], ms[1..], p.rest, L, d, lazy); }
    }
  }

  predicate SameValue(s: Schema, n: Node, m: Node, v: Value) {
    && (Valid(s, m, v) <==> Valid(s, n, v))
    && (Valid(s, n, v) ==> Bytes(s, m, v) == Bytes(s, n, v) && Nest(s, m, v) == Nest(s, n, v))
  }

  predicate SameValueSeq(s: Schema, ns: seq<Node>, ms: seq<Node>, vs: seq<Value>) {
    && (ValidSeq(s, ms, vs) <==> ValidSeq(s, ns, vs))
    && (ValidSeq(s, ns, vs) ==> BytesSeq(s, ms, vs) == BytesSeq(s, ns, vs) && NestSeq(s, ms, vs) == NestSeq(s, ns, vs))
  }

  /** Every value is accepted alike, in the same bytes. */
  lemma {:induction false} ShownEncodes(s: Schema, n: Node, v: Value)
    ensures SameValue(s, n, Shown(n), v)
    decreases n, 1, 0
  {
    hide ShapeOk, ShapeBytes, Children, Atom, AtomOk, AtomBytes, ShownLeaf, Level, ChecksOf, ChecksOk, Counterparts, SameValueSeq;
    if !n.RefNode? {
      ShownHeads(s, n, [], REVALIDATED, 0);
      if Atom(s, n) {
        ShownAtom(s, n, v);
      } else {
        var sh := ShapeOf(v);
        if v.VWire? {
          ShownKept(s, n, v);
        } else if v.Open() && (ShapeOk(s, n, sh) || ShapeOk(s, Shown(n), sh)) {
          ShownChildren(s, n, sh);
          ShownEncodesSeq(s, n, Children(s, n, sh), Children(s, Shown(n), sh), v.Parts());
          ShownOpen(s, n, v);
        }
      }
    }
  }

  lemma ShownAtom(s: Schema, n: Node, v: Value)
    requires Atom(s, n) && !n.RefNode?
    ensures SameValue(s, n, Shown(n), v)
  {
    hide ShownLeaf, LeafValid, LeafBytes;
    ShownLeafSame(n.leaf, [], REVALIDATED, v);
  }

  lemma ShownKept(s: Schema, n: Node, v: Value)
    requires !Atom(s, n) && !n.RefNode? && v.VWire?
    ensures SameValue(s, n, Shown(n), v)
  {
    hide InRange, IntBytes, ShownLeaf;
  }

  lemma ShownOpen(s: Schema, n: Node, v: Value)
    requires !Atom(s, n) && !Atom(s, Shown(n)) && v.Open()
    requires Level(s, Shown(n)) == Level(s, n) && ChecksOf(s, Shown(n)) == ChecksOf(s, n)
    requires var sh := ShapeOf(v);
      && ShapeOk(s, n, sh) && ShapeOk(s, Shown(n), sh) && ShapeBytes(s, Shown(n), sh) == ShapeBytes(s, n, sh)
      && SameValueSeq(s, Children(s, n, sh), Children(s, Shown(n), sh), v.Parts())
    ensures SameValue(s, n, Shown(n), v)
  {
    hide ShapeOk, ShapeBytes, Children, Atom, Shown, ValidSeq, BytesSeq, NestSeq, Level, ChecksOf, ChecksOk;
  }

  lemma {:induction false} ShownEncodesSeq(s: Schema, top: Node, ns: seq<Node>, ms: seq<Node>, vs: seq<Value>)
    requires Counterparts(top, ns, ms)
    ensures SameValueSeq(s, ns, ms, vs)
    decreases top, 0, |ns|
  {
    hide Valid, Bytes, Nest, Shown;
    if |ns| > 0 && |vs| > 0 {
      ShownEncodes(s, ns[0], vs[0]);
      ShownEncodesSeq(s, top, ns[1..], ms[1..], vs[1..]);
    }
  }

  // ---- code that means a node decodes and encodes as the node does ----

  /**
   Emitted statements that mean a node, with every helper they call, read every
   input and write every value exactly as that node's own codec does.
   */
  lemma MeansRuns(
    s: MarkedSchema, helpers: map<string, Helper>, c: Code, n: Node, fuel: nat,
    bs: bytes, L: Limits, d: nat, lazy: bool, v: Value, depth: nat)
    requires Means(helpers, c, n) && fuel >= Size(n)
    ensures RunDecode(s, helpers, c, fuel, bs, L, d, lazy) == Some(Parse(s, n, bs, L, d, lazy))
    ensures RunEncode(s, helpers, c, fuel, v, depth) == Some(Encode(s, n, v, depth))
  {
    hide Parse, Valid, Bytes, Nest, Means, Inline, Shown;
    InlineMeans(helpers, c, n, fuel);
    ShownParses(s, n, bs, L, d, lazy);
    ShownEncodes(s, n, v);
  }

  // ---- a clash, in bytes ----

  /** One entry from byte 7 to a value. */
  function OneEntry(v: Value): Value { VItems(1, [VStruct([VInt(7), v])]) }

  lemma OneEntryBytes(s: Schema, value: Node, v: Value, L: Limits, d: nat)
    requires value.LeafNode? && LeafValid(value.leaf, v) && LeafFits(value.leaf, v, L) && L.Valid()
    ensures var n, w := MapOf(BYTE, value), OneEntry(v);
      && Valid(s, n, w) && Plain(s, n, w) && Fits(s, n, w, L, d)
      && Bytes(s, n, w) == [1, 7] + LeafBytes(value.leaf, v)
  {
    hide LeafValid, LeafBytes, LeafFits;
    ByteSeven(L);
    EntryBytes(s, value, v, L, d);
    OneOfMany(s, EntryNode(BYTE, value), VStruct([VInt(7), v]), L, d);
  }

  lemma ByteSeven(L: Limits)
    ensures LeafValid(BYTE.leaf, VInt(7)) && LeafBytes(BYTE.leaf, VInt(7)) == [7] && LeafFits(BYTE.leaf, VInt(7), L)
  {
    Pow2Plus8(0);
  }

  lemma EntryBytes(s: Schema, value: Node, v: Value, L: Limits, d: nat)
    requires value.LeafNode? && LeafValid(value.leaf, v) && LeafFits(value.leaf, v, L)
    requires LeafValid(BYTE.leaf, VInt(7)) && LeafBytes(BYTE.leaf, VInt(7)) == [7] && LeafFits(BYTE.leaf, VInt(7), L)
    ensures var e, w := EntryNode(BYTE, value), VStruct([VInt(7), v]);
      Valid(s, e, w) && Plain(s, e, w) && Fits(s, e, w, L, d) && Bytes(s, e, w) == [7] + LeafBytes(value.leaf, v)
  {
    hide LeafValid, LeafBytes, LeafFits;
    LeafSeq(s, value, v, [], [], L, d);
    LeafSeq(s, BYTE, VInt(7), [value], [v], L, d);
    assert [BYTE] + [value] == [BYTE, value] && [VInt(7)] + [v] == [VInt(7), v] && [value] + [] == [value] && [v] + [] == [v];
    assert LeafBytes(value.leaf, v) + [] == LeafBytes(value.leaf, v);
    EntryOf(s, value, v, L, d);
  }

  lemma LeafSeq(s: Schema, n: Node, v: Value, ns: seq<Node>, vs: seq<Value>, L: Limits, d: nat)
    requires n.LeafNode? && LeafValid(n.leaf, v) && LeafFits(n.leaf, v, L)
    requires ValidSeq(s, ns, vs) && PlainSeq(s, ns, vs) && FitsSeq(s, ns, vs, L, d)
    ensures ValidSeq(s, [n] + ns, [v] + vs) && PlainSeq(s, [n] + ns, [v] + vs) && FitsSeq(s, [n] + ns, [v] + vs, L, d)
    ensures BytesSeq(s, [n] + ns, [v] + vs) == LeafBytes(n.leaf, v) + BytesSeq(s, ns, vs)
  {
    hide LeafValid, LeafBytes, LeafFits;
    assert ([n] + ns)[1..] == ns && ([v] + vs)[1..] == vs;
    assert Valid(s, n, v) && Plain(s, n, v) && Fits(s, n, v, L, d) && Bytes(s, n, v) == LeafBytes(n.leaf, v);
  }

  lemma EntryOf(s: Schema, value: Node, v: Value, L: Limits, d: nat)
    requires var ns, vs := [BYTE, value], [VInt(7), v];
      ValidSeq(s, ns, vs) && PlainSeq(s, ns, vs) && FitsSeq(s, ns, vs, L, d)
    ensures var e, w := EntryNode(BYTE, value), VStruct([VInt(7), v]);
      && Valid(s, e, w) && Plain(s, e, w) && Fits(s, e, w, L, d)
      && Bytes(s, e, w) == BytesSeq(s, [BYTE, value], [VInt(7), v])
  {
    hide ValidSeq, PlainSeq, FitsSeq, BytesSeq;
    assert Children(s, EntryNode(BYTE, value), StructShape) == [BYTE, value];
  }

  lemma OneOfMany(s: Schema, e: Node, w: Value, L: Limits, d: nat)
    requires Valid(s, e, w) && Plain(s, e, w) && Fits(s, e, w, L, d) && L.maxArrayElements >= 1
    ensures var n, v := ListOf(e), VItems(1, [w]);
      Valid(s, n, v) && Plain(s, n, v) && Fits(s, n, v, L, d) && Bytes(s, n, v) == [1] + Bytes(s, e, w)
  {
    hide Valid, Bytes, Plain, Fits;
    OneParts(s, e, w, L, d);
    OneItems(s, e, w, L, d);
  }

  lemma OneParts(s: Schema, e: Node, w: Value, L: Limits, d: nat)
    requires Valid(s, e, w) && Plain(s, e, w) && Fits(s, e, w, L, d)
    ensures var ns := Copies(e, 1);
      ValidSeq(s, ns, [w]) && PlainSeq(s, ns, [w]) && FitsSeq(s, ns, [w], L, d) && BytesSeq(s, ns, [w]) == Bytes(s, e, w)
  {
    hide Valid, Bytes, Plain, Fits;
    assert Copies(e, 1) == [e] && [e][1..] == [] && [w][1..] == [];
  }

  lemma OneItems(s: Schema, e: Node, w: Value, L: Limits, d: nat)
    requires Valid(s, e, w) && L.maxArrayElements >= 1
    requires var ns := Copies(e, 1);
      ValidSeq(s, ns, [w]) && PlainSeq(s, ns, [w]) && FitsSeq(s, ns, [w], L, d) && BytesSeq(s, ns, [w]) == Bytes(s, e, w)
    ensures var n, v := ListOf(e), VItems(1, [w]);
      Valid(s, n, v) && Plain(s, n, v) && Fits(s, n, v, L, d) && Bytes(s, n, v) == [1] + Bytes(s, e, w)
  {
    hide ValidSeq, PlainSeq, FitsSeq, BytesSeq, Copies;
    assert Leb128.Encode(1) == [1];
  }

  lemma LetterA(L: Limits)
    requires L.Valid()
    ensures LeafValid(TEXT.leaf, VBytes([65])) && LeafBytes(TEXT.leaf, VBytes([65])) == [1, 65] && LeafFits(TEXT.leaf, VBytes([65]), L)
  {
    Text.AsciiIsUtf8([65]);
    assert Leb128.Encode(1) == [1];
  }

  lemma ByteOne(L: Limits)
    ensures LeafValid(BYTE.leaf, VInt(1)) && LeafBytes(BYTE.leaf, VInt(1)) == [1] && LeafFits(BYTE.leaf, VInt(1), L)
  {
    Pow2Plus8(0);
  }

  /**
   Emitted for a map from bytes to strings beside the list of maps it clashes with,
   the statements read one entry as a byte and leave the string's last byte behind.
   */
  method ClashOnBytes(s: MarkedSchema, types: set<string>, L: Limits) returns (helpers: map<string, Helper>, codes: seq<Code>)
    requires L.Valid()
    ensures |codes| == 2
    ensures Parse(s, MAPS[1].node, [1, 7, 1, 65], L, 0, false) == Ok(OneEntry(VBytes([65])), [])
    ensures forall fuel: nat :: fuel >= 3 ==>
      RunDecode(s, helpers, codes[1], fuel, [1, 7, 1, 65], L, 0, false) == Some(Ok(OneEntry(VInt(1)), [65]))
  {
    hide Parse, Valid, Plain, Fits, Bytes, Means, LeafValid, LeafBytes, LeafFits, Inline;
    helpers, codes := EmitClashingMaps(types);
    LetterA(L);
    ByteOne(L);
    OneEntryBytes(s, TEXT, VBytes([65]), L, 0);
    OneEntryBytes(s, BYTE, VInt(1), L, 0);
    assert [1, 7] + [1, 65] + [] == [1, 7, 1, 65] == [1, 7] + [1] + [65];
    DecodeBack(s, MapOf(BYTE, TEXT), OneEntry(VBytes([65])), [], L, 0);
    DecodeBack(s, MapOf(BYTE, BYTE), OneEntry(VInt(1)), [65], L, 0);
    forall fuel: nat | fuel >= 3
      ensures RunDecode(s, helpers, codes[1], fuel, [1, 7, 1, 65], L, 0, false) == Some(Ok(OneEntry(VInt(1)), [65]))
    {
      MeansRuns(s, helpers, codes[1], MapOf(BYTE, BYTE), fuel, [1, 7, 1, 65], L, 0, false, VBool(false), 0);
    }
  }
}
