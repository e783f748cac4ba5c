/** The emitted decoders as a function of the input still to read. */
module Parser {
  import opened Wire
  import opened Values
  import opened Schemas
  import opened Shapes
  import opened Meaning

  /** The part of `bs` before `rest`. */
  function Consumed(bs: bytes, rest: bytes): bytes {
    if |rest| <= |bs| then bs[..|bs| - |rest|] else []
  }

  function Room(L: Limits, d: nat): nat {
    if d < L.maxNestingDepth then L.maxNestingDepth - d else 0
  }

  /**
   Decodes one value with `d` levels of nesting open. A lazy decode reads every
   list element but keeps only the bytes; an eager one keeps the elements.
   */
  function Parse(s: MarkedSchema, n: Node, bs: bytes, L: Limits, d: nat, lazy: bool): Parsed<Value>
    decreases Room(L, d), NodeRank(s, n), Size(n), 0
  {
    match ParseHead(s, n, bs, L, d)
    case Fail(e) => Fail(e)
    case Ok(sh, rest) =>
      if Atom(s, n) then Ok(Build(sh, []), rest)
      else
        HeadIff(s, n, bs, sh, rest, L, d);
        ChildrenMeasure(s, n, sh, L, d);
        Finish(s, n, sh, rest, ParseSeq(s, Children(s, n, sh), rest, L, d + Level(s, n), lazy), lazy)
  }

  function ParseSeq(s: MarkedSchema, ns: seq<Node>, bs: bytes, L: Limits, d: nat, lazy: bool): Parsed<seq<Value>>
    decreases Room(L, d), SeqRank(s, ns), SeqSize(ns), |ns|
  {
    if |ns| == 0 then Ok([], bs)
    else
      match Parse(s, ns[0], bs, L, d, lazy)
      case Fail(e) => Fail(e)
      case Ok(v, rest) => Prepend(v, ParseSeq(s, ns[1..], rest, L, d, lazy))
  }

  function Prepend(v: Value, p: Parsed<seq<Value>>): Parsed<seq<Value>> {
    match p
    case Fail(e) => Fail(e)
    case Ok(vs, rest) => Ok([v] + vs, rest)
  }

  /** Cross-field checks come last; a lazy list keeps its bytes instead of its elements. */
  function Finish(s: Schema, n: Node, sh: Shape, start: bytes, p: Parsed<seq<Value>>, lazy: bool): Parsed<Value> {
    match p
    case Fail(e) => Fail(e)
    case Ok(vs, rest) =>
      if !ChecksOk(ChecksOf(s, n), vs) then Fail(InvalidValue)
      else if lazy && sh.ListShape? then Ok(VWire(sh.count, Consumed(start, rest)), rest)
      else Ok(Build(sh, vs), rest)
  }

  lemma PairMeasure(s: Schema, k: Node, x: Node)
    ensures SeqRank(s, [k, x]) == Max(NodeRank(s, k), NodeRank(s, x))
    ensures SeqSize([k, x]) == Max(Size(k), Size(x))
  {
    assert [k, x][1..] == [x];
    SingleMeasure(s, x);
  }

  lemma SingleMeasure(s: Schema, x: Node)
    ensures SeqRank(s, [x]) == NodeRank(s, x)
    ensures SeqSize([x]) == Size(x)
  {
    assert [x][1..] == [];
  }

  /**
   Why decoding terminates even when a type contains itself before any byte is
   read: going down to the children opens a level of bounded nesting, or lowers
   the rank of the types still ahead, or leaves a smaller shape.
   */
  lemma ChildrenMeasure(s: MarkedSchema, n: Node, sh: Shape, L: Limits, d: nat)
    requires ShapeOk(s, n, sh) && ShapeFits(s, n, sh, L, d) && !Atom(s, n)
    ensures var ns := Children(s, n, sh);
      var d' := d + Level(s, n);
      && Room(L, d') <= Room(L, d)
      && (Room(L, d') < Room(L, d)
          || SeqRank(s, ns) < NodeRank(s, n)
          || (SeqRank(s, ns) <= NodeRank(s, n) && SeqSize(ns) < Size(n)))
  {
    match n
    case LeafNode(_) =>
    case ListNode(_, e, _, _) => CopiesMeasure(s, e, sh.count);
    case EntryNode(k, x) => PairMeasure(s, k, x);
    case FixedNode(len, e) => CopiesMeasure(s, e, len);
    case OptionalNode(x) => SingleMeasure(s, x);
    case RefNode(r, _) => BodyMeasure(s, n, sh);
  }

  lemma BodyMeasure(s: MarkedSchema, n: Node, sh: Shape)
    requires ShapeOk(s, n, sh) && n.RefNode? && !Atom(s, n)
    ensures var ns := Children(s, n, sh);
      Enters(s, n) || SeqRank(s, ns) < NodeRank(s, n) || (SeqRank(s, ns) == 0 && SeqSize(ns) == 0)
  {
    var t := s.types[n.ref];
    if t.Union? { PayloadRefs(t.variants, sh.tag); }
    BodyRank(s, n.ref, Children(s, n, sh));
  }
}
