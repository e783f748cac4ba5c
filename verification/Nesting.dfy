/** How deep the calls of a decoder can nest, whatever the input. */
module Nesting {
  import opened Wire
  import opened Schemas
  import opened Shapes
  import opened Values
  import opened Meaning
  import opened Parser
  import opened Codec
  import opened Lazy

  /** The height of the call tree when decoding one value. */
  function Calls(s: MarkedSchema, n: Node, bs: bytes, L: Limits, d: nat): nat
    decreases Room(L, d), NodeRank(s, n), Size(n), 0
  {
    match ParseHead(s, n, bs, L, d)
    case Fail(_) => 1
    case Ok(sh, rest) =>
      if Atom(s, n) then 1
      else
        HeadIff(s, n, bs, sh, rest, L, d);
        ChildrenMeasure(s, n, sh, L, d);
        1 + CallsSeq(s, Children(s, n, sh), rest, L, d + Level(s, n))
  }

  function CallsSeq(s: MarkedSchema, ns: seq<Node>, bs: bytes, L: Limits, d: nat): nat
    decreases Room(L, d), SeqRank(s, ns), SeqSize(ns), |ns|
  {
    if |ns| == 0 then 0
    else
      match Parse(s, ns[0], bs, L, d, true)
      case Fail(_) => Calls(s, ns[0], bs, L, d)
      case Ok(_, rest) => Max(Calls(s, ns[0], bs, L, d), CallsSeq(s, ns[1..], rest, L, d))
  }

  /** No type's body is taller than `h`. */
  predicate Within(s: Schema, h: nat) { forall r :: r in s.types ==> SeqSize(TypeNodes(s.types[r])) <= h }

  lemma RankBound(s: Schema, r: string)
    ensures Rank(s, r) <= |s.types|
  {
    SubsetSizeLe(ReachSet(s.types, r), s.types.Keys);
  }

  lemma {:induction false} VariantSize(variants: seq<Variant>, tag: int)
    requires FindVariant(variants, tag).Some?
    ensures SeqSize(PayloadNodes(FindVariant(variants, tag).value)) <= SeqSize(VariantNodes(variants))
  {
    SeqSizeOf(PayloadNodes(variants[0]), VariantNodes(variants[1..]));
    if variants[0].value != tag { VariantSize(variants[1..], tag); }
  }

  lemma {:induction false} SeqSizeOf(ns: seq<Node>, ms: seq<Node>)
    ensures SeqSize(ns + ms) == Max(SeqSize(ns), SeqSize(ms))
  {
    if |ns| > 0 {
      assert (ns + ms)[1..] == ns[1..] + ms;
      SeqSizeOf(ns[1..], ms);
    } else {
      assert ns + ms == ms;
    }
  }

  /** What going down one level costs: size, or one type and at most `h` of size, or one level of nesting and all types. */
  lemma LevelCost(s: MarkedSchema, n: Node, sh: Shape, h: nat)
    requires ShapeOk(s, n, sh) && !Atom(s, n) && Within(s, h)
    ensures var ns := Children(s, n, sh);
      if !n.RefNode? then SeqRank(s, ns) <= NodeRank(s, n) && SeqSize(ns) < Size(n) && Level(s, n) == 0
      else if Level(s, n) == 1 then SeqRank(s, ns) <= |s.types| && SeqSize(ns) <= h
      else |ns| == 0 || (SeqRank(s, ns) < NodeRank(s, n) && SeqSize(ns) <= h)
  {
    match n
    case LeafNode(_) =>
    case ListNode(_, e, _, _) => CopiesMeasure(s, e, sh.count);
    case EntryNode(k, x) => PairMeasure(s, k, x);
    case FixedNode(len, e) => CopiesMeasure(s, e, len);
    case OptionalNode(x) => SingleMeasure(s, x);
    case RefNode(r, _) =>
      RankBound(s, r);
      var t := s.types[r];
      if t.Union? {
        PayloadRefs(t.variants, sh.tag);
        VariantSize(t.variants, sh.tag);
      }
      BodyRank(s, r, Children(s, n, sh));
  }

  function Budget(types: nat, h: nat, room: nat, rank: nat, size: nat): nat { room * ((types + 1) * h) + rank * h + size }

  /** The budget of the children and one call fit in the budget of the value. */
  lemma BudgetStep(types: nat, h: nat, room: nat, rank: nat, size: nat, room': nat, rank': nat, size': nat)
    requires
      || (room' <= room && rank' <= rank && size' < size)
      || (room' <= room && rank' < rank && size' <= h && size > 0)
      || (room' < room && rank' <= types && size' <= h && size > 0)
    ensures Budget(types, h, room', rank', size') < Budget(types, h, room, rank, size)
  {
    var u := (types + 1) * h;
    if room' < room && rank' <= types && size' <= h {
      Times(room', room - 1, u);
      Times(rank', types, h);
      assert (room - 1) * u + u == room * u;
      assert types * h + h == u;
    } else {
      Times(room', room, u);
      if rank' < rank && size' <= h {
        Times(rank', rank - 1, h);
        assert (rank - 1) * h + h == rank * h;
      } else {
        Times(rank', rank, h);
      }
    }
  }

  lemma Times(a: nat, b: nat, c: nat)
    requires a <= b
    ensures a * c <= b * c
  {
  }

  lemma BudgetMono(types: nat, h: nat, room: nat, rank: nat, size: nat, rank': nat, size': nat)
    requires rank' <= rank && size' <= size
    ensures Budget(types, h, room, rank', size') <= Budget(types, h, room, rank, size)
  {
    Times(rank', rank, h);
  }

  /**
   Calls nest at most as deep as the nesting limit times the number of types times
   the height of a type, even for types that contain themselves before any byte.
   */
  lemma {:induction false} CallsBounded(s: MarkedSchema, n: Node, bs: bytes, L: Limits, d: nat, h: nat)
    requires Within(s, h)
    ensures Calls(s, n, bs, L, d) <= Budget(|s.types|, h, Room(L, d), NodeRank(s, n), Size(n))
    decreases Room(L, d), NodeRank(s, n), Size(n), 0
  {
    hide ParseHead, ShapeOk, Children, Atom, NodeRank, SeqRank, SeqSize, Level, Budget, Within;
    SizePositive(n);
    var p := ParseHead(s, n, bs, L, d);
    OneCall(|s.types|, h, Room(L, d), NodeRank(s, n), Size(n));
    if p.Ok? && !Atom(s, n) {
      var sh, rest := p.value, p.rest;
      HeadIff(s, n, bs, sh, rest, L, d);
      ChildrenMeasure(s, n, sh, L, d);
      LevelCost(s, n, sh, h);
      var ns, d' := Children(s, n, sh), d + Level(s, n);
      CallsSeqBounded(s, ns, rest, L, d', h);
      if |ns| > 0 {
        RoomStep(s, n, sh, L, d);
        BudgetStep(|s.types|, h, Room(L, d), NodeRank(s, n), Size(n), Room(L, d'), SeqRank(s, ns), SeqSize(ns));
      }
    }
  }

  lemma RoomStep(s: MarkedSchema, n: Node, sh: Shape, L: Limits, d: nat)
    requires ShapeOk(s, n, sh) && ShapeFits(s, n, sh, L, d)
    ensures Level(s, n) == 0 || (Level(s, n) == 1 && Room(L, d + 1) < Room(L, d))
  {
  }

  lemma SizePositive(n: Node)
    ensures Size(n) > 0
  {
  }

  lemma OneCall(types: nat, h: nat, room: nat, rank: nat, size: nat)
    requires size > 0
    ensures Budget(types, h, room, rank, size) >= 1
  {
    Product(room, (types + 1) * h);
    Product(rank, h);
  }

  lemma Product(a: nat, b: nat)
    ensures a * b >= 0
  {
  }

  lemma {:induction false} CallsSeqBounded(s: MarkedSchema, ns: seq<Node>, bs: bytes, L: Limits, d: nat, h: nat)
    requires Within(s, h)
    ensures |ns| == 0 ==> CallsSeq(s, ns, bs, L, d) == 0
    ensures CallsSeq(s, ns, bs, L, d) <= Budget(|s.types|, h, Room(L, d), SeqRank(s, ns), SeqSize(ns))
    decreases Room(L, d), SeqRank(s, ns), SeqSize(ns), |ns|
  {
    hide Parse, NodeRank, Size, Calls, Budget, Within;
    if |ns| > 0 {
      CallsBounded(s, ns[0], bs, L, d, h);
      BudgetMono(|s.types|, h, Room(L, d), SeqRank(s, ns), SeqSize(ns), NodeRank(s, ns[0]), Size(ns[0]));
      var p := Parse(s, ns[0], bs, L, d, true);
      if p.Ok? {
        CallsSeqBounded(s, ns[1..], p.rest, L, d, h);
        BudgetMono(|s.types|, h, Room(L, d), SeqRank(s, ns), SeqSize(ns), SeqRank(s, ns[1..]), SeqSize(ns[1..]));
      }
    }
  }

  lemma {:induction false} RanksBounded(s: Schema, ns: seq<Node>)
    ensures SeqRank(s, ns) <= |s.types| + 1
  {
    forall u | u in SeqRefs(ns) && u in s.types && u !in s.recursive ensures Rank(s, u) < |s.types| + 1 { RankBound(s, u); }
    SeqRankBound(s, ns, |s.types| + 1);
  }

  /**
   For the fields of a packet, decoded at depth 0: the levels of nesting, times the
   types, times the height of a type, and once more the height of the fields.
   */
  lemma PacketCallsBounded(s: MarkedSchema, fields: seq<Field>, bs: bytes, L: Limits, h: nat)
    requires Within(s, h)
    ensures var ns := FieldNodes(fields);
      CallsSeq(s, ns, bs, L, 0) <= (L.maxNestingDepth + 1) * ((|s.types| + 1) * h) + SeqSize(ns)
  {
    hide CallsSeq, SeqRank, SeqSize, Within, Budget;
    var ns := FieldNodes(fields);
    CallsSeqBounded(s, ns, bs, L, 0, h);
    RanksBounded(s, ns);
    BudgetAtTop(|s.types|, h, L.maxNestingDepth, SeqRank(s, ns), SeqSize(ns));
  }

  lemma BudgetAtTop(types: nat, h: nat, room: nat, rank: nat, size: nat)
    requires rank <= types + 1
    ensures Budget(types, h, room, rank, size) <= (room + 1) * ((types + 1) * h) + size
  {
    var u := (types + 1) * h;
    Times(rank, types + 1, h);
    assert room * u + u == (room + 1) * u;
  }

  // ---- the calls that are made ----

  /** How many values are inside one another. */
  function Height(s: Schema, n: Node, v: Value): nat
    requires Valid(s, n, v)
    decreases v
  {
    if Closed(s, n, v) then 1 else 1 + HeightSeq(s, Children(s, n, ShapeOf(v)), v.Parts())
  }

  function HeightSeq(s: Schema, ns: seq<Node>, vs: seq<Value>): nat
    requires ValidSeq(s, ns, vs)
    decreases vs
  {
    if |vs| == 0 then 0 else Max(Height(s, ns[0], vs[0]), HeightSeq(s, ns[1..], vs[1..]))
  }

  /** A decoder that succeeds calls itself exactly as deep as the values it decodes are inside one another. */
  lemma {:induction false} CallsAre(s: MarkedSchema, n: Node, bs: bytes, L: Limits, d: nat)
    requires L.Valid() && Parse(s, n, bs, L, d, false).Ok?
    ensures var v := Parse(s, n, bs, L, d, false).value; Valid(s, n, v) && Calls(s, n, bs, L, d) == Height(s, n, v)
    decreases Room(L, d), NodeRank(s, n), Size(n), 0
  {
    hide ParseHead, ShapeOk, ShapeFits, ShapeBytes, Children, NodeRank, SeqRank, Size, SeqSize, Level, ChecksOk, ChecksOf, AtomOk;
    DecodeExact(s, n, bs, L, d, false);
    var Ok(sh, rest) := ParseHead(s, n, bs, L, d);
    HeadIff(s, n, bs, sh, rest, L, d);
    if !Atom(s, n) {
      ChildrenMeasure(s, n, sh, L, d);
      var ns := Children(s, n, sh);
      CallsSeqAre(s, ns, rest, L, d + Level(s, n));
      var vs := ParseSeq(s, ns, rest, L, d + Level(s, n), false).value;
      SameLength(s, ns, vs);
      ShapeOfBuild(s, n, sh, vs);
    }
  }

  lemma {:induction false} CallsSeqAre(s: MarkedSchema, ns: seq<Node>, bs: bytes, L: Limits, d: nat)
    requires L.Valid() && ParseSeq(s, ns, bs, L, d, false).Ok?
    ensures var vs := ParseSeq(s, ns, bs, L, d, false).value; ValidSeq(s, ns, vs) && CallsSeq(s, ns, bs, L, d) == HeightSeq(s, ns, vs)
    decreases Room(L, d), SeqRank(s, ns), SeqSize(ns), |ns|
  {
    hide Parse, Calls, Height, Valid;
    if |ns| > 0 {
      CallsAre(s, ns[0], bs, L, d);
      LazyEager(s, ns[0], bs, L, d);
      var Ok(v, rest) := Parse(s, ns[0], bs, L, d, false);
      CallsSeqAre(s, ns[1..], rest, L, d);
      var vs := ParseSeq(s, ns[1..], rest, L, d, false).value;
      assert ([v] + vs)[1..] == vs;
    }
  }
}
