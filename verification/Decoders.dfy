/** The emitted decoders, driving a reader. */
module Decoders {
  import opened Wire
  import opened Integers
  import opened Values
  import opened Leaves
  import opened Schemas
  import opened Shapes
  import opened Meaning
  import opened Parser
  import opened Readers
  import opened FixedWidth
  import Leb128

  method DecodeDescriptor(r: Reader) returns (res: Read<Value>)
    requires r.Valid()
    modifies r`cursor
    ensures r.Valid() && r.cursor >= old(r.cursor)
    ensures Reads(ReadDescriptor(old(r.Rest()), r.limits), res, r.Rest())
  {
    hide Integers.ReadInt, Leaves.ReadString;
    var present := r.ReadBits(VarU32);
    if present.Bad? { return Bad(present.error); }
    if present.value == 0 {
      var aux := r.ReadInt(ZigzagI32);
      if aux.Bad? { return Bad(aux.error); }
      return Got(VUnion(0, [VInt(aux.value)]));
    }
    if present.value != 1 { return Bad(InvalidEnum); }
    var name := r.ReadString();
    if name.Bad? { return Bad(name.error); }
    var kind := KindOf(name.value);
    if kind == 0 { return Bad(InvalidEnum); }
    var text := r.ReadString();
    if text.Bad? { return Bad(text.error); }
    var tail := r.ReadInt(TailKind(kind));
    if tail.Bad? { return Bad(tail.error); }
    return Got(VUnion(kind, [VBytes(text.value), VInt(tail.value)]));
  }

  method DecodeIngredient(r: Reader) returns (res: Read<Value>)
    requires r.Valid()
    modifies r`cursor
    ensures r.Valid() && r.cursor >= old(r.cursor)
    ensures Reads(ReadIngredient(old(r.Rest()), r.limits), res, r.Rest())
  {
    hide ReadDescriptor, Integers.ReadInt;
    var d := DecodeDescriptor(r);
    if d.Bad? { return Bad(d.error); }
    var count := r.ReadInt(ZigzagI32);
    if count.Bad? { return Bad(count.error); }
    if count.value < 0 || count.value > 64 { return Bad(InvalidValue); }
    return Got(VStruct([d.value, VInt(count.value)]));
  }

  method DecodeLeaf(r: Reader, l: Leaf) returns (res: Read<Value>)
    requires r.Valid()
    modifies r`cursor
    ensures r.Valid() && r.cursor >= old(r.cursor)
    ensures Reads(ParseLeaf(l, old(r.Rest()), r.limits), res, r.Rest())
  {
    hide ReadIngredient, Integers.ReadInt, Leaves.ReadString, Leaves.ReadByteArray, Leb128.DecodeBitset, Leaves.ReadBool, SwapHalves;
    match l
    case BoolLeaf =>
      var b := r.ReadBool();
      return if b.Got? then Got(VBool(b.value)) else Bad(b.error);
    case IntLeaf(k, min, max) =>
      var n := r.ReadInt(k);
      if n.Bad? { return Bad(n.error); }
      if !AtLeast(n.value, min) { return Bad(InvalidValue); }
      if !AtMost(n.value, max) { return Bad(InvalidValue); }
      return Got(VInt(n.value));
    case FloatLeaf(size) =>
      var n := r.ReadInt(Fixed(size, false, false));
      return if n.Got? then Got(VInt(n.value)) else Bad(n.error);
    case UuidLeaf =>
      var raw := r.ReadUuid();
      return if raw.Got? then Got(VBytes(raw.value)) else Bad(raw.error);
    case StringLeaf(minLen, maxLen, pattern) =>
      var raw := r.ReadString();
      if raw.Bad? { return Bad(raw.error); }
      if !LengthOk(|raw.value|, minLen, maxLen) { return Bad(InvalidValue); }
      if pattern.Some? && !Text.Matches(pattern.value, raw.value) { return Bad(InvalidValue); }
      return Got(VBytes(raw.value));
    case BytesLeaf(minLen, maxLen) =>
      var raw := r.ReadByteArray(maxLen);
      if raw.Bad? { return Bad(raw.error); }
      if !LengthOk(|raw.value|, minLen, None) { return Bad(InvalidValue); }
      BoundedLength(old(r.Rest()), r.limits, minLen, maxLen);
      return Got(VBytes(raw.value));
    case BitsetLeaf(bits) =>
      var n := r.ReadBitset(bits);
      return if n.Got? then Got(VInt(n.value)) else Bad(n.error);
    case IngredientLeaf => res := DecodeIngredient(r);
  }

  /** The bounded reader has already enforced a schema maximum. */
  lemma BoundedLength(bs: bytes, L: Limits, minLen: Option<nat>, maxLen: Option<nat>)
    requires Leaves.ReadByteArray(bs, L, maxLen).Ok?
    ensures var raw := Leaves.ReadByteArray(bs, L, maxLen).value;
      LengthOk(|raw|, minLen, maxLen) <==> LengthOk(|raw|, minLen, None)
  {
  }

  /** Values already decoded, put before what is still to be decoded. */
  function PrependAll(vs: seq<Value>, p: Parsed<seq<Value>>): Parsed<seq<Value>> {
    match p
    case Fail(e) => Fail(e)
    case Ok(ws, rest) => Ok(vs + ws, rest)
  }

  lemma {:induction false} SeqMeasure(s: Schema, ns: seq<Node>, i: nat)
    requires i < |ns|
    ensures NodeRank(s, ns[i]) <= SeqRank(s, ns) && Size(ns[i]) <= SeqSize(ns)
  {
    if i > 0 {
      SeqMeasure(s, ns[1..], i - 1);
      assert ns[1..][i - 1] == ns[i];
    }
  }

  /** The outcome of decoding elements whose values are dropped. */
  function Outcome<T>(p: Parsed<T>): Parsed<()> {
    match p
    case Fail(e) => Fail(e)
    case Ok(_, rest) => Ok((), rest)
  }

  /** Decodes one value; nesting depth is back where it was on every path. */
  method Decode(r: Reader, s: MarkedSchema, n: Node) returns (res: Read<Value>)
    requires r.Valid()
    modifies r`cursor, r`depth
    ensures r.Valid() && r.depth == old(r.depth) && r.cursor >= old(r.cursor)
    ensures Reads(Parse(s, n, old(r.Rest()), r.limits, old(r.depth), true), res, r.Rest())
    decreases Room(r.limits, r.depth), NodeRank(s, n), Size(n), 2
  {
    hide ParseLeaf, ParseSeq, Integers.ReadInt, NodeRank, SeqRank, SeqSize;
    ghost var d := r.depth;
    match n
    case LeafNode(l) => res := DecodeLeaf(r, l);
    case ListNode(_, _, _, _) => res := DecodeList(r, s, n);
    case EntryNode(_, _) => res := DecodeStruct(r, s, n, d);
    case FixedNode(_, _) => res := DecodeArray(r, s, n);
    case OptionalNode(_) => res := DecodeOptional(r, s, n);
    case RefNode(name, allowed) =>
      if name !in s.types { return Bad(InvalidEnum); }
      if Enters(s, n) {
        var entered := r.Enter();
        if entered.Bad? { return Bad(entered.error); }
      }
      match s.types[name] {
        case Enum(repr, _) => res := DecodeEnum(r, repr, allowed);
        case Struct(_, _) => res := DecodeStruct(r, s, n, d);
        case Union(_, _) => res := DecodeUnion(r, s, n, d);
      }
      if Enters(s, n) { r.Leave(); }
  }

  method DecodeEnum(r: Reader, repr: IntKind, allowed: seq<int>) returns (res: Read<Value>)
    requires r.Valid()
    modifies r`cursor
    ensures r.Valid() && r.cursor >= old(r.cursor)
    ensures match ParseEnum(repr, allowed, old(r.Rest()))
      case Fail(e) => res == Bad(e)
      case Ok(sh, rest) => res == Got(sh.value) && r.Rest() == rest
  {
    hide Integers.ReadInt;
    var v := r.ReadInt(repr);
    if v.Bad? { return Bad(v.error); }
    if |allowed| > 0 && v.value !in allowed { return Bad(InvalidValue); }
    return Got(VInt(v.value));
  }

  /** The body of a struct, with `d` levels open before its own. */
  method DecodeStruct(r: Reader, s: MarkedSchema, n: Node, ghost d: nat) returns (res: Read<Value>)
    requires r.Valid() && !Atom(s, n) && ShapeOk(s, n, StructShape)
    requires r.depth == d + Level(s, n) && (Enters(s, n) ==> d < r.limits.maxNestingDepth)
    modifies r`cursor, r`depth
    ensures r.Valid() && r.depth == old(r.depth) && r.cursor >= old(r.cursor)
    ensures Reads(Whole(s, n, StructShape, old(r.Rest()), r.limits, d), res, r.Rest())
    decreases Room(r.limits, d), NodeRank(s, n), Size(n), 1
  {
    hide ParseSeq, ChecksOk, ChecksOf, NodeRank, SeqRank, SeqSize, Size, Children, ShapeOk, ShapeFits, Atom, Enters;
    StructFits(s, n, r.limits, d);
    ChildrenMeasure(s, n, StructShape, r.limits, d);
    var parts := DecodeFields(r, s, Children(s, n, StructShape));
    if parts.Bad? { return Bad(parts.error); }
    if !ChecksOk(ChecksOf(s, n), parts.value) { return Bad(InvalidValue); }
    return Got(VStruct(parts.value));
  }

  lemma StructFits(s: Schema, n: Node, L: Limits, d: nat)
    requires !Atom(s, n) && ShapeOk(s, n, StructShape) && (Enters(s, n) ==> d < L.maxNestingDepth)
    ensures ShapeFits(s, n, StructShape, L, d)
  {
  }

  /** What one level and its children decode to once the level has been read. */
  function Whole(s: MarkedSchema, n: Node, sh: Shape, start: bytes, L: Limits, d: nat): Parsed<Value>
    requires ShapeOk(s, n, sh)
  {
    Finish(s, n, sh, start, ParseSeq(s, Children(s, n, sh), start, L, d + Level(s, n), true), true)
  }

  method DecodeUnion(r: Reader, s: MarkedSchema, n: Node, ghost d: nat) returns (res: Read<Value>)
    requires r.Valid() && IsUnion(s, n)
    requires r.depth == d + Level(s, n) && (Enters(s, n) ==> d < r.limits.maxNestingDepth)
    modifies r`cursor, r`depth
    ensures r.Valid() && r.depth == old(r.depth) && r.cursor >= old(r.cursor)
    ensures Reads(Parse(s, n, old(r.Rest()), r.limits, d, true), res, r.Rest())
    decreases Room(r.limits, d), NodeRank(s, n), Size(n), 1
  {
    hide ParseHead, ParseSeq, NodeRank, SeqRank, SeqSize, Size, Integers.ReadInt, Level, Enters, Children, ShapeOk, ShapeFits,
      Finish, FindVariant, Atom, Parse, InRange, IntBytes, PayloadNodes;
    ghost var start := r.Rest();
    UnionLevel(s, n, start, r.limits, d);
    HeadFails(s, n, start, r.limits, d);
    var tag := r.ReadInt(s.types[n.ref].repr);
    if tag.Bad? { return Bad(tag.error); }
    var variant := FindVariant(s.types[n.ref].variants, tag.value);
    if variant.None? { return Bad(InvalidEnum); }
    UnionChildren(s, n, start, r.limits, d, tag.value, r.Rest());
    UnionParses(s, n, start, r.limits, d, tag.value, r.Rest());
    ChildrenMeasure(s, n, UnionShape(tag.value), r.limits, d);
    var parts := DecodeFields(r, s, PayloadNodes(variant.value));
    return if parts.Got? then Got(VUnion(tag.value, parts.value)) else Bad(parts.error);
  }

  function UnionOf(tag: int, p: Parsed<seq<Value>>): Parsed<Value> {
    match p
    case Fail(e) => Fail(e)
    case Ok(vs, rest) => Ok(VUnion(tag, vs), rest)
  }

  predicate IsUnion(s: Schema, n: Node) { n.RefNode? && n.ref in s.types && s.types[n.ref].Union? }

  lemma HeadFails(s: MarkedSchema, n: Node, bs: bytes, L: Limits, d: nat)
    ensures ParseHead(s, n, bs, L, d).Fail? ==> Parse(s, n, bs, L, d, true) == Fail(ParseHead(s, n, bs, L, d).error)
  {
    hide ParseHead;
  }

  lemma UnionLevel(s: MarkedSchema, n: Node, bs: bytes, L: Limits, d: nat)
    requires IsUnion(s, n) && (Enters(s, n) ==> d < L.maxNestingDepth)
    ensures ParseHead(s, n, bs, L, d) == ParseTag(s.types[n.ref].repr, s.types[n.ref].variants, bs)
    ensures !Atom(s, n) && !n.LeafNode?
  {
    hide ParseTag, Enters;
  }

  lemma UnionChildren(s: MarkedSchema, n: Node, bs: bytes, L: Limits, d: nat, tag: int, rest: bytes)
    requires IsUnion(s, n) && (Enters(s, n) ==> d < L.maxNestingDepth)
    requires Integers.ReadInt(s.types[n.ref].repr, bs) == Ok(tag, rest) && FindVariant(s.types[n.ref].variants, tag).Some?
    ensures var sh := UnionShape(tag);
      && ShapeOk(s, n, sh) && ShapeFits(s, n, sh, L, d)
      && Children(s, n, sh) == PayloadNodes(FindVariant(s.types[n.ref].variants, tag).value)
  {
    hide Enters, InRange, IntBytes, Integers.ReadInt, FindVariant, PayloadNodes;
    IntBijection(s.types[n.ref].repr, bs, tag, rest);
  }

  lemma UnionParses(s: MarkedSchema, n: Node, bs: bytes, L: Limits, d: nat, tag: int, rest: bytes)
    requires IsUnion(s, n) && ParseHead(s, n, bs, L, d) == Ok(UnionShape(tag), rest)
    requires ShapeOk(s, n, UnionShape(tag)) && ShapeFits(s, n, UnionShape(tag), L, d)
    ensures Parse(s, n, bs, L, d, true)
         == UnionOf(tag, ParseSeq(s, Children(s, n, UnionShape(tag)), rest, L, d + Level(s, n), true))
  {
    hide ParseHead, ParseSeq, ShapeOk, ShapeFits, Children, ChecksOk, ChecksOf, Level;
    NoUnionChecks(s, n);
  }

  lemma NoUnionChecks(s: Schema, n: Node)
    requires !n.RefNode? || IsUnion(s, n)
    ensures forall vs :: ChecksOk(ChecksOf(s, n), vs)
  {
  }

  method DecodeArray(r: Reader, s: MarkedSchema, n: Node) returns (res: Read<Value>)
    requires r.Valid() && n.FixedNode?
    modifies r`cursor, r`depth
    ensures r.Valid() && r.depth == old(r.depth) && r.cursor >= old(r.cursor)
    ensures Reads(Parse(s, n, old(r.Rest()), r.limits, old(r.depth), true), res, r.Rest())
    decreases Room(r.limits, r.depth), NodeRank(s, n), Size(n), 1
  {
    hide ParseSeq, ChecksOk, NodeRank, SeqRank, SeqSize, Size;
    ChildrenMeasure(s, n, ArrayShape, r.limits, r.depth);
    NoUnionChecks(s, n);
    var parts := DecodeFields(r, s, Copies(n.element, n.len));
    return if parts.Got? then Got(VArray(parts.value)) else Bad(parts.error);
  }

  method DecodeOptional(r: Reader, s: MarkedSchema, n: Node) returns (res: Read<Value>)
    requires r.Valid() && n.OptionalNode?
    modifies r`cursor, r`depth
    ensures r.Valid() && r.depth == old(r.depth) && r.cursor >= old(r.cursor)
    ensures Reads(Parse(s, n, old(r.Rest()), r.limits, old(r.depth), true), res, r.Rest())
    decreases Room(r.limits, r.depth), NodeRank(s, n), Size(n), 1
  {
    hide ChecksOk, NodeRank, SeqRank, SeqSize, Size, Leaves.ReadBool;
    var present := r.ReadBool();
    if present.Bad? { return Bad(present.error); }
    ghost var rest := r.Rest();
    NoUnionChecks(s, n);
    if !present.value {
      return Got(VOptional([]));
    }
    ChildrenMeasure(s, n, OptionalShape(true), r.limits, r.depth);
    SingleMeasure(s, n.inner);
    OneOf(s, n.inner, rest, r.limits, r.depth);
    var inner := Decode(r, s, n.inner);
    return if inner.Got? then Got(VOptional([inner.value])) else Bad(inner.error);
  }

  lemma OneOf(s: MarkedSchema, x: Node, bs: bytes, L: Limits, d: nat)
    ensures ParseSeq(s, [x], bs, L, d, true) == match Parse(s, x, bs, L, d, true)
      case Fail(e) => Fail(e)
      case Ok(v, rest) => Ok([v], rest)
  {
    hide Parse;
    assert [x][1..] == [];
    var p := Parse(s, x, bs, L, d, true);
    if p.Ok? { assert [p.value] + [] == [p.value]; }
  }

  /** The fields, array elements or payload of one level, in order. */
  method DecodeFields(r: Reader, s: MarkedSchema, ns: seq<Node>) returns (res: Read<seq<Value>>)
    requires r.Valid()
    modifies r`cursor, r`depth
    ensures r.Valid() && r.depth == old(r.depth) && r.cursor >= old(r.cursor)
    ensures Reads(ParseSeq(s, ns, old(r.Rest()), r.limits, old(r.depth), true), res, r.Rest())
    decreases Room(r.limits, r.depth), SeqRank(s, ns), SeqSize(ns), 3
  {
    hide Parse, NodeRank, SeqRank, SeqSize, Size;
    var vs := [];
    ghost var start := r.Rest();
    assert ns[0..] == ns;
    PrependNone(ParseSeq(s, ns, start, r.limits, r.depth, true));
    for i := 0 to |ns|
      invariant r.Valid() && r.depth == old(r.depth) && r.cursor >= old(r.cursor)
      invariant ParseSeq(s, ns, start, r.limits, r.depth, true)
             == PrependAll(vs, ParseSeq(s, ns[i..], r.Rest(), r.limits, r.depth, true))
    {
      SeqMeasure(s, ns, i);
      assert ns[i..][1..] == ns[i + 1..];
      var v := Decode(r, s, ns[i]);
      if v.Bad? { return Bad(v.error); }
      PrependOne(vs, v.value, ParseSeq(s, ns[i + 1..], r.Rest(), r.limits, r.depth, true));
      vs := vs + [v.value];
    }
    assert ns[|ns|..] == [] && vs + [] == vs;
    return Got(vs);
  }

  lemma PrependNone(p: Parsed<seq<Value>>)
    ensures PrependAll([], p) == p
  {
    if p.Ok? { assert [] + p.value == p.value; }
  }

  lemma PrependOne(vs: seq<Value>, v: Value, p: Parsed<seq<Value>>)
    ensures PrependAll(vs, Prepend(v, p)) == PrependAll(vs + [v], p)
  {
    if p.Ok? { assert vs + ([v] + p.value) == (vs + [v]) + p.value; }
  }

  /** A list: its count, the schema's bounds, then its elements, of which only the bytes are kept. */
  method DecodeList(r: Reader, s: MarkedSchema, n: Node) returns (res: Read<Value>)
    requires r.Valid() && n.ListNode?
    modifies r`cursor, r`depth
    ensures r.Valid() && r.depth == old(r.depth) && r.cursor >= old(r.cursor)
    ensures Reads(Parse(s, n, old(r.Rest()), r.limits, old(r.depth), true), res, r.Rest())
    decreases Room(r.limits, r.depth), NodeRank(s, n), Size(n), 1
  {
    hide ParseSeq, ChecksOk, NodeRank, SeqRank, SeqSize, Size, Shapes.ReadCount;
    ghost var whole := r.Rest();
    var count := r.ReadCount(n.prefix);
    if count.Bad? { return Bad(count.error); }
    if !LengthOk(count.value, n.minItems, n.maxItems) { return Bad(InvalidValue); }
    ghost var start := r.Rest();
    HeadIff(s, n, whole, ListShape(count.value), start, r.limits, r.depth);
    ChildrenMeasure(s, n, ListShape(count.value), r.limits, r.depth);
    NoUnionChecks(s, n);
    ElementMeasure(s, n);
    var from := r.cursor;
    var skipped := SkipElements(r, s, n.element, count.value);
    if skipped.Bad? { return Bad(skipped.error); }
    assert r.input[from..r.cursor] == Consumed(start, r.Rest());
    return Got(VWire(count.value, r.input[from..r.cursor]));
  }

  lemma ElementMeasure(s: Schema, n: Node)
    requires n.ListNode?
    ensures NodeRank(s, n.element) == NodeRank(s, n) && Size(n.element) < Size(n)
  {
  }

  method SkipElements(r: Reader, s: MarkedSchema, e: Node, count: nat) returns (res: Read<()>)
    requires r.Valid() && count <= r.limits.maxArrayElements
    modifies r`cursor, r`depth
    ensures r.Valid() && r.depth == old(r.depth) && r.cursor >= old(r.cursor)
    ensures Reads(Outcome(ParseSeq(s, Copies(e, count), old(r.Rest()), r.limits, old(r.depth), true)), res, r.Rest())
    decreases Room(r.limits, r.depth), NodeRank(s, e), Size(e), 3
  {
    hide Parse, NodeRank, SeqRank, SeqSize, Size, FixedSize;
    ghost var start := r.Rest();
    var size := FixedSize(s, e);
    if size.Some? {
      ListSkips(s, e, count, start, r.limits, r.depth, true);
      if count * size.value > USIZE_MAX { return Bad(EndOfStream); }
      var skipped := r.Take(count * size.value);
      return if skipped.Got? then Got(()) else Bad(skipped.error);
    }
    for i := 0 to count
      invariant r.Valid() && r.depth == old(r.depth) && r.cursor >= old(r.cursor)
      invariant Outcome(ParseSeq(s, Copies(e, count), start, r.limits, r.depth, true))
             == Outcome(ParseSeq(s, Copies(e, count - i), r.Rest(), r.limits, r.depth, true))
    {
      assert Copies(e, count - i)[1..] == Copies(e, count - i - 1);
      var v := Decode(r, s, e);
      if v.Bad? { return Bad(v.error); }
    }
    return Got(());
  }
}
