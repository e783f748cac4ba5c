/** What the codec promises its users, for every schema, value and input. */
module Guarantees {
  import opened Wire
  import opened Integers
  import opened Values
  import opened Schemas
  import opened Shapes
  import opened Meaning
  import opened Parser
  import opened Codec
  import opened Lazy

  /** Anything that decodes re-encodes to identical bytes, at any depth no deeper than it was read at. */
  lemma DecodeThenEncode(s: MarkedSchema, n: Node, bs: bytes, L: Limits, d: nat, depth: nat)
    requires L.Valid() && depth <= d <= L.maxNestingDepth && Parse(s, n, bs, L, d, true).Ok?
    ensures var Ok(v, rest) := Parse(s, n, bs, L, d, true);
      && Valid(s, n, v) && Genuine(s, n, v)
      && |rest| <= |bs| && bs == Consumed(bs, rest) + rest
      && Encode(s, n, v, depth) == Some(Consumed(bs, rest))
  {
    DecodeExact(s, n, bs, L, d, true);
    LazyEager(s, n, bs, L, d);
    var Ok(v, rest) := Parse(s, n, bs, L, d, true);
    assert Consumed(bs, rest) == Bytes(s, n, v);
  }

  /**
   The bytes of an encoded value, followed by anything, decode to the same logical
   value and stop where the encoding ends, if and only if the limits admit that
   value; otherwise decoding fails with LimitExceeded.
   */
  lemma EncodeThenDecode(s: MarkedSchema, n: Node, v: Value, depth: nat, t: bytes, L: Limits, d: nat)
    requires Encode(s, n, v, depth).Some? && Genuine(s, n, v)
    ensures var w := Logical(s, n, v);
      && Valid(s, n, w) && Plain(s, n, w)
      && Parse(s, n, Encode(s, n, v, depth).value + t, L, d, false) == Limited(Fits(s, n, w, L, d), w, t)
  {
    LogicalSame(s, n, v);
    DecodeBack(s, n, Logical(s, n, v), t, L, d);
  }

  /** Nesting within the supported depth and the relaxed limits admit any all-items value. */
  lemma {:induction false} FitsWithin(s: Schema, n: Node, v: Value, L: Limits, d: nat)
    requires Valid(s, n, v) && Plain(s, n, v)
    requires L.maxStringBytes >= U32_MAX && L.maxByteArrayBytes >= U32_MAX && L.maxArrayElements >= U32_MAX
    requires d + Nest(s, n, v) <= L.maxNestingDepth
    ensures Fits(s, n, v, L, d)
    decreases v
  {
    hide Children, ChecksOk, ChecksOf;
    if Closed(s, n, v) {
      AtomFitsWithin(s, n, v, L, d);
    } else {
      FitsSeqWithin(s, Children(s, n, ShapeOf(v)), v.Parts(), L, d + Level(s, n));
    }
  }

  lemma AtomFitsWithin(s: Schema, n: Node, v: Value, L: Limits, d: nat)
    requires Atom(s, n) && AtomOk(s, n, v)
    requires L.maxStringBytes >= U32_MAX && L.maxByteArrayBytes >= U32_MAX
    ensures ShapeFits(s, n, AtomShape(v), L, d)
  {
    hide InRange, IntBytes;
  }

  lemma {:induction false} FitsSeqWithin(s: Schema, ns: seq<Node>, vs: seq<Value>, L: Limits, d: nat)
    requires ValidSeq(s, ns, vs) && PlainSeq(s, ns, vs)
    requires L.maxStringBytes >= U32_MAX && L.maxByteArrayBytes >= U32_MAX && L.maxArrayElements >= U32_MAX
    requires d + NestSeq(s, ns, vs) <= L.maxNestingDepth
    ensures FitsSeq(s, ns, vs, L, d)
    decreases vs
  {
    hide Valid, Plain, Fits, Nest;
    if |vs| > 0 {
      FitsWithin(s, ns[0], vs[0], L, d);
      FitsSeqWithin(s, ns[1..], vs[1..], L, d);
    }
  }

  /** An all-items value that encodes always decodes under the relaxed limits. */
  lemma EncodedItemsDecode(s: MarkedSchema, n: Node, v: Value, depth: nat, t: bytes)
    requires Encode(s, n, v, depth).Some? && Plain(s, n, v)
    ensures Parse(s, n, Encode(s, n, v, depth).value + t, REVALIDATED, depth, false) == Ok(v, t)
  {
    FitsWithin(s, n, v, REVALIDATED, depth);
    DecodeBack(s, n, v, t, REVALIDATED, depth);
  }

  /**
   Encodings can be read in only one way: none is a proper prefix of another, and
   equal encodings stand for the same logical value.
   */
  lemma UniquelyReadable(s: MarkedSchema, n: Node, v: Value, t: bytes, w: Value, u: bytes)
    requires Valid(s, n, v) && Genuine(s, n, v) && Valid(s, n, w) && Genuine(s, n, w)
    requires Bytes(s, n, v) + t == Bytes(s, n, w) + u
    ensures t == u && Logical(s, n, v) == Logical(s, n, w) && Bytes(s, n, v) == Bytes(s, n, w)
  {
    hide Parse, Valid, Genuine, Bytes, Plain, Fits, Nest, Logical;
    LogicalSame(s, n, v);
    LogicalSame(s, n, w);
    var x, y := Logical(s, n, v), Logical(s, n, w);
    var L := Limits(USIZE_MAX, USIZE_MAX, USIZE_MAX, USIZE_MAX, Max(Nest(s, n, x), Nest(s, n, y)));
    FitsWithin(s, n, x, L, 0);
    FitsWithin(s, n, y, L, 0);
    DecodeBack(s, n, x, t, L, 0);
    DecodeBack(s, n, y, u, L, 0);
  }

  /**
   Iterating a decoded list yields exactly `len` elements and uses all its bytes,
   which are the bytes of those elements.
   */
  lemma ListIteration(s: MarkedSchema, n: Node, bs: bytes, L: Limits, d: nat)
    requires L.Valid() && n.ListNode? && Parse(s, n, bs, L, d, true).Ok?
    ensures var v := Parse(s, n, bs, L, d, true).value;
      && v.VWire?
      && var p := Reread(s, n.element, v.len, v.wire);
      && p.Ok? && p.rest == [] && |p.value| == v.len
      && Parse(s, n, bs, L, d, false) == Ok(VItems(v.len, p.value), Parse(s, n, bs, L, d, true).rest)
      && ValidSeq(s, Copies(n.element, v.len), p.value)
      && BytesSeq(s, Copies(n.element, v.len), p.value) == v.wire
  {
    LazyEager(s, n, bs, L, d);
    var v := Parse(s, n, bs, L, d, true).value;
    RereadBytes(s, n.element, v.len, v.wire);
  }

  /**
   Encoding the elements of a decoded list as items gives the kept bytes back, and
   the list as it was read, exactly when the writer has levels left for what is
   nested inside: always at a depth no deeper than it was read at.
   */
  lemma ListReencodes(s: MarkedSchema, n: Node, bs: bytes, L: Limits, d: nat, depth: nat)
    requires L.Valid() && n.ListNode? && d <= L.maxNestingDepth && Parse(s, n, bs, L, d, true).Ok?
    ensures var Ok(v, rest) := Parse(s, n, bs, L, d, true);
      && v.VWire? && Reread(s, n.element, v.len, v.wire).Ok?
      && var ns, items := Copies(n.element, v.len), Reread(s, n.element, v.len, v.wire).value;
      && ValidSeq(s, ns, items)
      && var room := depth + NestSeq(s, ns, items) <= MAX_SUPPORTED_DEPTH;
      && EncodeSeq(s, ns, items, depth) == (if room then Some(v.wire) else None)
      && Encode(s, n, VItems(v.len, items), depth) == (if room then Some(Consumed(bs, rest)) else None)
      && (depth <= d ==> room)
  {
    hide Parse, ParseSeq, ValidSeq, BytesSeq, NestSeq, Plain, Fits;
    ListIteration(s, n, bs, L, d);
    DecodeExact(s, n, bs, L, d, false);
    var Ok(v, rest) := Parse(s, n, bs, L, d, true);
    var items := Reread(s, n.element, v.len, v.wire).value;
    assert Bytes(s, n, VItems(v.len, items)) == Consumed(bs, rest);
    ItemsNest(s, n, VItems(v.len, items));
  }

  lemma ItemsNest(s: Schema, n: Node, v: Value)
    requires n.ListNode? && v.VItems? && Valid(s, n, v)
    ensures ValidSeq(s, Copies(n.element, v.len), v.items) && Nest(s, n, v) == NestSeq(s, Copies(n.element, v.len), v.items)
  {
    hide ValidSeq, NestSeq;
  }

  // ---- depth is not counted inside trusted bytes ----

  lemma {:induction false} FitsBoundsNest(s: Schema, n: Node, v: Value, L: Limits, d: nat)
    requires Valid(s, n, v) && Fits(s, n, v, L, d) && d <= L.maxNestingDepth
    ensures d + Nest(s, n, v) <= L.maxNestingDepth
    decreases v
  {
    hide Children, ChecksOk, ChecksOf, ShapeOk, AtomOk, ClosedOk, ValidSeq, FitsSeq, NestSeq;
    if !Closed(s, n, v) {
      FitsSeqBoundsNest(s, Children(s, n, ShapeOf(v)), v.Parts(), L, d + Level(s, n));
    }
  }

  lemma {:induction false} FitsSeqBoundsNest(s: Schema, ns: seq<Node>, vs: seq<Value>, L: Limits, d: nat)
    requires ValidSeq(s, ns, vs) && FitsSeq(s, ns, vs, L, d) && d <= L.maxNestingDepth
    ensures d + NestSeq(s, ns, vs) <= L.maxNestingDepth
    decreases vs
  {
    hide Valid, Fits, Nest;
    if |vs| > 0 {
      FitsBoundsNest(s, ns[0], vs[0], L, d);
      FitsSeqBoundsNest(s, ns[1..], vs[1..], L, d);
    }
  }

  const TOWER_LIST := ListNode(CountVarU32, RefNode("Tower", []), None, None)

  const TOWER_TYPE := Union(U8, [Variant("top", 0, None), Variant("floor", 1, Some(TOWER_LIST))])

  const TOWER := RefNode("Tower", [])

  /** A type that contains lists of itself. */
  const TOWERS: MarkedSchema := Schema(map["Tower" := TOWER_TYPE], {"Tower"})

  function Floor(below: Value): Value { VUnion(1, [below]) }

  function Tower(height: nat): Value {
    if height == 0 then VUnion(0, []) else Floor(VItems(1, [Tower(height - 1)]))
  }

  lemma FloorParts(list: Value)
    requires list.VItems? || list.VWire?
    ensures !Closed(TOWERS, TOWER, Floor(list)) && ShapeOk(TOWERS, TOWER, ShapeOf(Floor(list)))
    ensures Children(TOWERS, TOWER, ShapeOf(Floor(list))) == [TOWER_LIST]
    ensures ChecksOk(ChecksOf(TOWERS, TOWER), [list])
    ensures Enters(TOWERS, TOWER)
  {
    Pow2Is256();
    assert TOWERS.types["Tower"] == TOWER_TYPE;
    assert FindVariant(TOWER_TYPE.variants, 1) == Some(TOWER_TYPE.variants[1]) by {
      assert TOWER_TYPE.variants[1..][0] == TOWER_TYPE.variants[1];
    }
  }

  lemma Pow2Is256()
    ensures InRange(U8, 0) && InRange(U8, 1)
  {
    Pow2Plus8(0);
  }

  lemma OneElement(v: Value)
    requires Valid(TOWERS, TOWER, v)
    ensures ValidSeq(TOWERS, Copies(TOWER, 1), [v]) && NestSeq(TOWERS, Copies(TOWER, 1), [v]) == Nest(TOWERS, TOWER, v)
    ensures Plain(TOWERS, TOWER, v) ==> PlainSeq(TOWERS, Copies(TOWER, 1), [v])
  {
    hide Valid, Nest, Plain;
    assert Copies(TOWER, 1) == [TOWER] && [TOWER][1..] == [] && [v][1..] == [];
  }

  lemma OnePayload(list: Value)
    requires Valid(TOWERS, TOWER_LIST, list)
    ensures ValidSeq(TOWERS, [TOWER_LIST], [list]) && NestSeq(TOWERS, [TOWER_LIST], [list]) == Nest(TOWERS, TOWER_LIST, list)
    ensures Plain(TOWERS, TOWER_LIST, list) ==> PlainSeq(TOWERS, [TOWER_LIST], [list])
  {
    hide Valid, Nest, Plain;
    assert [TOWER_LIST][1..] == [] && [list][1..] == [];
  }

  /** One more floor is one more level of nesting. */
  lemma FloorNest(list: Value)
    requires (list.VItems? || list.VWire?) && Valid(TOWERS, TOWER_LIST, list)
    ensures var v := Floor(list);
      && Valid(TOWERS, TOWER, v) && Nest(TOWERS, TOWER, v) == 1 + Nest(TOWERS, TOWER_LIST, list)
      && (Plain(TOWERS, TOWER_LIST, list) ==> Plain(TOWERS, TOWER, v))
  {
    hide Children, ShapeOk, ChecksOk, Atom;
    FloorParts(list);
    OnePayload(list);
  }

  lemma ListNest(v: Value)
    requires Valid(TOWERS, TOWER, v)
    ensures var list := VItems(1, [v]);
      && Valid(TOWERS, TOWER_LIST, list) && Nest(TOWERS, TOWER_LIST, list) == Nest(TOWERS, TOWER, v)
      && (Plain(TOWERS, TOWER, v) ==> Plain(TOWERS, TOWER_LIST, list))
  {
    hide Valid, Nest, Plain, ValidSeq, NestSeq, PlainSeq, Children;
    OneElement(v);
    ListParts(v);
  }

  lemma ListParts(v: Value)
    requires var ns := Copies(TOWER, 1); ValidSeq(TOWERS, ns, [v])
    ensures var ns, list := Copies(TOWER, 1), VItems(1, [v]);
      && Valid(TOWERS, TOWER_LIST, list) && Nest(TOWERS, TOWER_LIST, list) == NestSeq(TOWERS, ns, [v])
      && (PlainSeq(TOWERS, ns, [v]) ==> Plain(TOWERS, TOWER_LIST, list))
  {
    hide ValidSeq, NestSeq, PlainSeq, InRange, Copies;
    NoChecks([v]);
  }

  lemma {:induction false} TowerNest(height: nat)
    ensures Valid(TOWERS, TOWER, Tower(height)) && Plain(TOWERS, TOWER, Tower(height))
    ensures Nest(TOWERS, TOWER, Tower(height)) == height + 1
  {
    if height == 0 {
      Pow2Is256();
    } else {
      TowerNest(height - 1);
      hide Valid, Nest, Plain;
      ListNest(Tower(height - 1));
      FloorNest(VItems(1, [Tower(height - 1)]));
    }
  }

  /** One level down, a writer still takes the kept bytes of a list of the tallest towers, and refuses the towers. */
  lemma DeeperWriterRefusesItems(wire: bytes)
    ensures Encode(TOWERS, TOWER_LIST, VItems(1, [Tower(127)]), 0).Some?
    ensures Encode(TOWERS, TOWER_LIST, VItems(1, [Tower(127)]), 1) == None
    ensures Encode(TOWERS, TOWER_LIST, VWire(1, wire), 1).Some?
  {
    TowerNest(127);
    ListNest(Tower(127));
    OneKept(wire);
  }

  lemma OneKept(wire: bytes)
    ensures Valid(TOWERS, TOWER_LIST, VWire(1, wire)) && Nest(TOWERS, TOWER_LIST, VWire(1, wire)) == 0
  {
  }

  /** A tower whose lower floors are kept as wire bytes. */
  function TallTower(): Value
  {
    TowerNest(127);
    Floor(VWire(1, BytesSeq(TOWERS, Copies(TOWER, 1), OneTower())))
  }

  function OneTower(): (vs: seq<Value>)
    ensures vs == [Tower(127)] && ValidSeq(TOWERS, Copies(TOWER, 1), vs) && PlainSeq(TOWERS, Copies(TOWER, 1), vs)
  {
    TowerNest(127);
    OneElement(Tower(127));
    [Tower(127)]
  }

  lemma LowerFloorsReread()
    ensures var wire := BytesSeq(TOWERS, Copies(TOWER, 1), OneTower());
      Reread(TOWERS, TOWER, 1, wire) == Ok([Tower(127)], [])
  {
    hide Valid, ParseSeq;
    var ns, vs := Copies(TOWER, 1), OneTower();
    TowerNest(127);
    OneElement(Tower(127));
    FitsSeqWithin(TOWERS, ns, vs, REVALIDATED, 0);
    SeqBack(TOWERS, ns, vs, [], REVALIDATED, 0);
    assert BytesSeq(TOWERS, ns, vs) + [] == BytesSeq(TOWERS, ns, vs);
  }

  lemma TallTowerStandsFor()
    ensures var v := TallTower();
      && Valid(TOWERS, TOWER, v) && Nest(TOWERS, TOWER, v) == 1 && Genuine(TOWERS, TOWER, v)
      && Logical(TOWERS, TOWER, v) == Tower(128)
  {
    hide Tower, Reread, BytesSeq;
    LowerFloorsReread();
    var list := VWire(1, BytesSeq(TOWERS, Copies(TOWER, 1), OneTower()));
    assert Rereads(TOWERS, TOWER, 1, list.wire);
    FloorNest(list);
    FloorParts(list);
    assert [list][1..] == [];
    TallestTower();
  }

  lemma TallestTower()
    ensures Tower(128) == Floor(VItems(1, [Tower(127)]))
  {
  }

  /**
   Encoding does not look inside kept bytes, so a genuine value can encode at
   depth 0 to bytes that no valid limits decode.
   */
  lemma DeepWireEncodesButNeverDecodes(t: bytes, L: Limits)
    requires L.Valid()
    ensures Encode(TOWERS, TOWER, TallTower(), 0).Some? && Genuine(TOWERS, TOWER, TallTower())
    ensures Parse(TOWERS, TOWER, Encode(TOWERS, TOWER, TallTower(), 0).value + t, L, 0, false) == Fail(LimitExceeded)
  {
    hide Valid, Nest, Genuine, Logical, Parse, TallTower, Tower, Fits, Bytes;
    TallTowerStandsFor();
    EncodeThenDecode(TOWERS, TOWER, TallTower(), 0, t, L, 0);
    TowerNest(128);
    if Fits(TOWERS, TOWER, Tower(128), L, 0) {
      FitsBoundsNest(TOWERS, TOWER, Tower(128), L, 0);
    }
  }

  /**
   Exactly when an encoded value can be decoded at all: some valid limits admit its
   bytes if and only if the elements its lists stand for nest no deeper than the
   supported depth.
   */
  lemma DecodesUnderSome(s: MarkedSchema, n: Node, v: Value, t: bytes)
    requires Valid(s, n, v) && Genuine(s, n, v)
    ensures Valid(s, n, Logical(s, n, v))
    ensures (exists L: Limits :: L.Valid() && Parse(s, n, Bytes(s, n, v) + t, L, 0, false).Ok?)
      <==> Nest(s, n, Logical(s, n, v)) <= MAX_SUPPORTED_DEPTH
  {
    hide Parse, Valid, Genuine, Bytes, Plain, Fits, Nest, Logical;
    LogicalSame(s, n, v);
    var w, bs := Logical(s, n, v), Bytes(s, n, v) + t;
    if Nest(s, n, w) <= MAX_SUPPORTED_DEPTH {
      FitsWithin(s, n, w, REVALIDATED, 0);
      DecodeBack(s, n, w, t, REVALIDATED, 0);
      assert REVALIDATED.Valid() && Parse(s, n, bs, REVALIDATED, 0, false).Ok?;
    }
    forall L: Limits | L.Valid() && Parse(s, n, bs, L, 0, false).Ok? ensures Nest(s, n, w) <= MAX_SUPPORTED_DEPTH {
      DecodeBack(s, n, w, t, L, 0);
      FitsBoundsNest(s, n, w, L, 0);
    }
  }
}
