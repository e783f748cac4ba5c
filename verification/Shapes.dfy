/**
 One level of a wire shape: what is read before its children (a count, a
 presence flag, a union tag, or a whole value without children), which children
 follow, and how a value is put together from them.
 */
module Shapes {
  import opened Wire
  import opened Integers
  import opened Values
  import opened Leaves
  import opened Schemas

  datatype Shape =
    | AtomShape(value: Value)
    | ListShape(count: nat)
    | OptionalShape(present: bool)
    | ArrayShape
    | StructShape
    | UnionShape(tag: int)

  /** Shapes without children: leaves and enums. */
  predicate Atom(s: Schema, n: Node) {
    n.LeafNode? || (n.RefNode? && n.ref in s.types && s.types[n.ref].Enum?)
  }

  function PrefixKind(p: CountPrefix): IntKind {
    match p
    case CountVarU32 => VarU32
    case CountU32Le => U32LE
  }

  predicate Counted(p: CountPrefix, n: nat)
    ensures Counted(p, n) <==> n <= U32_MAX
  {
    Pow2Of32And64();
    InRange(PrefixKind(p), n)
  }

  predicate AtomOk(s: Schema, n: Node, v: Value)
    requires Atom(s, n)
  {
    match n
    case LeafNode(l) => LeafValid(l, v)
    case RefNode(r, allowed) => v.VInt? && InRange(s.types[r].repr, v.n) && (|allowed| == 0 || v.n in allowed)
  }

  function AtomBytes(s: Schema, n: Node, v: Value): bytes
    requires Atom(s, n) && AtomOk(s, n, v)
  {
    match n
    case LeafNode(l) => LeafBytes(l, v)
    case RefNode(r, _) => IntBytes(s.types[r].repr, v.n)
  }

  predicate ShapeOk(s: Schema, n: Node, sh: Shape) {
    if Atom(s, n) then sh.AtomShape? && AtomOk(s, n, sh.value)
    else match n
      case ListNode(p, _, minItems, maxItems) => sh.ListShape? && Counted(p, sh.count) && LengthOk(sh.count, minItems, maxItems)
      case EntryNode(_, _) => sh.StructShape?
      case FixedNode(_, _) => sh.ArrayShape?
      case OptionalNode(_) => sh.OptionalShape?
      case RefNode(r, _) =>
        r in s.types &&
        if s.types[r].Struct? then sh.StructShape?
        else sh.UnionShape? && InRange(s.types[r].repr, sh.tag) && FindVariant(s.types[r].variants, sh.tag).Some?
  }

  function ShapeBytes(s: Schema, n: Node, sh: Shape): bytes
    requires ShapeOk(s, n, sh)
  {
    match sh
    case AtomShape(v) => AtomBytes(s, n, v)
    case ListShape(count) => IntBytes(PrefixKind(n.prefix), count)
    case OptionalShape(present) => [if present then 1 else 0]
    case UnionShape(tag) => IntBytes(s.types[n.ref].repr, tag)
    case _ => []
  }

  /** The limits under which this level can be read with `d` levels open. */
  predicate ShapeFits(s: Schema, n: Node, sh: Shape, L: Limits, d: nat)
    requires ShapeOk(s, n, sh)
  {
    && (Enters(s, n) ==> d < L.maxNestingDepth)
    && (sh.ListShape? ==> sh.count <= L.maxArrayElements)
    && (n.LeafNode? ==> LeafFits(n.leaf, sh.value, L))
  }

  /** The shapes of the children, in wire order. */
  function Children(s: Schema, n: Node, sh: Shape): seq<Node>
    requires ShapeOk(s, n, sh)
  {
    match sh
    case AtomShape(_) => []
    case ListShape(count) => Copies(n.element, count)
    case OptionalShape(present) => if present then [n.inner] else []
    case ArrayShape => Copies(n.element, n.len)
    case StructShape => if n.EntryNode? then [n.key, n.value] else FieldNodes(s.types[n.ref].fields)
    case UnionShape(tag) => PayloadNodes(FindVariant(s.types[n.ref].variants, tag).value)
  }

  function ShapeOf(v: Value): Shape {
    match v
    case VOptional(xs) => OptionalShape(|xs| > 0)
    case VArray(_) => ArrayShape
    case VStruct(_) => StructShape
    case VUnion(tag, _) => UnionShape(tag)
    case VItems(len, _) => ListShape(len)
    case VWire(len, _) => ListShape(len)
    case _ => AtomShape(v)
  }

  function Build(sh: Shape, parts: seq<Value>): Value {
    match sh
    case AtomShape(v) => v
    case ListShape(count) => VItems(count, parts)
    case OptionalShape(_) => VOptional(parts)
    case ArrayShape => VArray(parts)
    case StructShape => VStruct(parts)
    case UnionShape(tag) => VUnion(tag, parts)
  }

  lemma BuildOf(v: Value)
    requires v.Open()
    ensures Build(ShapeOf(v), v.Parts()) == v
  {
  }

  // ---- reading one level ----

  function ReadCount(p: CountPrefix, bs: bytes, L: Limits): Parsed<nat> {
    match ReadBits(PrefixKind(p), bs)
    case Fail(e) => Fail(e)
    case Ok(n, rest) => if n > L.maxArrayElements then Fail(LimitExceeded) else Ok(n, rest)
  }

  function ParseList(n: Node, bs: bytes, L: Limits): Parsed<Shape>
    requires n.ListNode?
  {
    match ReadCount(n.prefix, bs, L)
    case Fail(e) => Fail(e)
    case Ok(count, rest) => if LengthOk(count, n.minItems, n.maxItems) then Ok(ListShape(count), rest) else Fail(InvalidValue)
  }

  function ParseOptional(bs: bytes): Parsed<Shape> {
    match ReadBool(bs)
    case Fail(e) => Fail(e)
    case Ok(present, rest) => Ok(OptionalShape(present), rest)
  }

  function ParseEnum(repr: IntKind, allowed: seq<int>, bs: bytes): Parsed<Shape> {
    match ReadInt(repr, bs)
    case Fail(e) => Fail(e)
    case Ok(v, rest) => if |allowed| == 0 || v in allowed then Ok(AtomShape(VInt(v)), rest) else Fail(InvalidValue)
  }

  function ParseTag(repr: IntKind, variants: seq<Variant>, bs: bytes): Parsed<Shape> {
    match ReadInt(repr, bs)
    case Fail(e) => Fail(e)
    case Ok(tag, rest) => if FindVariant(variants, tag).Some? then Ok(UnionShape(tag), rest) else Fail(InvalidEnum)
  }

  function ParseAtom(l: Leaf, bs: bytes, L: Limits): Parsed<Shape> {
    match ParseLeaf(l, bs, L)
    case Fail(e) => Fail(e)
    case Ok(v, rest) => Ok(AtomShape(v), rest)
  }

  function ParseHead(s: Schema, n: Node, bs: bytes, L: Limits, d: nat): Parsed<Shape> {
    match n
    case LeafNode(l) => ParseAtom(l, bs, L)
    case ListNode(_, _, _, _) => ParseList(n, bs, L)
    case EntryNode(_, _) => Ok(StructShape, bs)
    case FixedNode(_, _) => Ok(ArrayShape, bs)
    case OptionalNode(_) => ParseOptional(bs)
    case RefNode(r, allowed) =>
      if r !in s.types then Fail(InvalidEnum) // validate rejects dangling references
      else if Enters(s, n) && d >= L.maxNestingDepth then Fail(LimitExceeded)
      else match s.types[r]
        case Struct(_, _) => Ok(StructShape, bs)
        case Enum(repr, _) => ParseEnum(repr, allowed, bs)
        case Union(repr, variants) => ParseTag(repr, variants, bs)
  }

  // ---- one level is read exactly as it is written ----

  lemma CountIff(p: CountPrefix, bs: bytes, count: nat, rest: bytes, L: Limits)
    ensures ReadCount(p, bs, L) == Ok(count, rest)
       <==> Counted(p, count) && count <= L.maxArrayElements && bs == IntBytes(PrefixKind(p), count) + rest
    ensures Counted(p, count) && count > L.maxArrayElements && bs == IntBytes(PrefixKind(p), count) + rest
       ==> ReadCount(p, bs, L) == Fail(LimitExceeded)
  {
    Pow2Of32And64();
    BitsBijection(PrefixKind(p), bs, count, rest);
  }

  lemma BoolIff(bs: bytes, b: bool, rest: bytes)
    ensures ReadBool(bs) == Ok(b, rest) <==> bs == [if b then 1 else 0] + rest
  {
    if |bs| > 0 { assert bs == [bs[0]] + bs[1..]; }
  }

  lemma AtomIff(l: Leaf, bs: bytes, sh: Shape, rest: bytes, L: Limits)
    ensures ParseAtom(l, bs, L) == Ok(sh, rest)
       <==> sh.AtomShape? && LeafValid(l, sh.value) && LeafFits(l, sh.value, L) && bs == LeafBytes(l, sh.value) + rest
    ensures sh.AtomShape? && LeafValid(l, sh.value) && !LeafFits(l, sh.value, L) && bs == LeafBytes(l, sh.value) + rest
       ==> ParseAtom(l, bs, L) == Fail(LimitExceeded)
  {
    hide ParseLeaf, LeafValid, LeafBytes, LeafFits;
    if ParseLeaf(l, bs, L).Ok? { LeafExact(l, bs, L); }
    if sh.AtomShape? && LeafValid(l, sh.value) { LeafBack(l, sh.value, rest, L); }
  }

  /**
   A level is accepted exactly when it is well formed, the limits admit it, and
   the input starts with its bytes; if only the limits stand in the way, the
   failure is LimitExceeded.
   */
  lemma HeadIff(s: Schema, n: Node, bs: bytes, sh: Shape, rest: bytes, L: Limits, d: nat)
    ensures ParseHead(s, n, bs, L, d) == Ok(sh, rest)
       <==> ShapeOk(s, n, sh) && ShapeFits(s, n, sh, L, d) && bs == ShapeBytes(s, n, sh) + rest
    ensures ShapeOk(s, n, sh) && !ShapeFits(s, n, sh, L, d) && bs == ShapeBytes(s, n, sh) + rest
       ==> ParseHead(s, n, bs, L, d) == Fail(LimitExceeded)
  {
    hide ParseAtom, LeafValid, LeafBytes, LeafFits, ReadInt, InRange, IntBytes, ReadCount, ReadBool;
    assert [] + rest == rest;
    match n
    case LeafNode(l) => AtomIff(l, bs, sh, rest, L);
    case ListNode(p, _, _, _) => if sh.ListShape? { CountIff(p, bs, sh.count, rest, L); }
    case EntryNode(_, _) =>
    case FixedNode(_, _) =>
    case OptionalNode(_) => if sh.OptionalShape? { BoolIff(bs, sh.present, rest); }
    case RefNode(r, _) =>
      if r in s.types {
        match s.types[r]
        case Struct(_, _) =>
        case Enum(repr, _) => if sh.AtomShape? && sh.value.VInt? { IntBijection(repr, bs, sh.value.n, rest); }
        case Union(repr, _) => if sh.UnionShape? { IntBijection(repr, bs, sh.tag, rest); }
      }
  }

  /** Relaxing the limits changes nothing at this level but the breaking of a limit. */
  lemma HeadRelax(s: Schema, n: Node, bs: bytes, L: Limits, L': Limits, d: nat)
    requires L'.Relaxes(L)
    ensures ParseHead(s, n, bs, L, d) == Fail(LimitExceeded) || ParseHead(s, n, bs, L', d) == ParseHead(s, n, bs, L, d)
  {
    hide ParseLeaf;
    if n.LeafNode? { LeafRelax(n.leaf, bs, L, L'); }
  }
}
