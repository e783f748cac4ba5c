/**
 The decoder shape by shape: what each kind of shape reads, in order, and when it
 fails with what, in the words of the emitted code.
 */
module Grammar {
  import opened Wire
  import opened Integers
  import opened Values
  import opened Leaves
  import opened Schemas
  import opened Shapes
  import opened Meaning
  import opened Parser
  import opened Codec
  import opened LengthChecks
  import Text

  /** What a result becomes once it is wrapped. */
  function Wrap<T>(p: Parsed<T>, f: T -> Value): Parsed<Value> {
    match p
    case Fail(e) => Fail(e)
    case Ok(v, rest) => Ok(f(v), rest)
  }

  // ---- bounds ----

  predicate Within(n: int, min: Option<int>, max: Option<int>) {
    (min.Some? ==> n >= min.value) && (max.Some? ==> n <= max.value)
  }

  /** A result that is read but not allowed is an invalid value. */
  function Checked<T>(p: Parsed<T>, allowed: T -> bool): Parsed<T> {
    if p.Ok? && !allowed(p.value) then Fail(InvalidValue) else p
  }

  /** A bounded integer is read as an integer, and then must lie in its bounds. */
  lemma IntegerReads(s: MarkedSchema, k: IntKind, min: Option<int>, max: Option<int>, bs: bytes, L: Limits, d: nat, lazy: bool)
    ensures Parse(s, LeafNode(IntLeaf(k, min, max)), bs, L, d, lazy) ==
      Wrap(Checked(ReadInt(k, bs), n => Within(n, min, max)), n => VInt(n))
  {
    hide ReadInt;
  }

  /** A boolean is a byte 0 or 1. */
  lemma BoolReads(s: MarkedSchema, bs: bytes, L: Limits, d: nat, lazy: bool)
    ensures Parse(s, LeafNode(BoolLeaf), bs, L, d, lazy) ==
      if |bs| == 0 then Fail(EndOfStream)
      else if bs[0] == 0 then Ok(VBool(false), bs[1..])
      else if bs[0] == 1 then Ok(VBool(true), bs[1..])
      else Fail(InvalidBoolean)
  {
    if |bs| > 0 { assert bs[..1][0] == bs[0]; }
  }

  /** A float is a little-endian bit pattern of its size. */
  lemma FloatReads(s: MarkedSchema, size: Width, bs: bytes, L: Limits, d: nat, lazy: bool)
    ensures Parse(s, LeafNode(FloatLeaf(size)), bs, L, d, lazy) == Wrap(ReadInt(Fixed(size, false, false), bs), n => VInt(n))
  {
    hide ReadInt;
  }

  /** A UUID is sixteen bytes, each half of them the other way round. */
  lemma UuidReads(s: MarkedSchema, bs: bytes, L: Limits, d: nat, lazy: bool)
    ensures var read := Parse(s, LeafNode(UuidLeaf), bs, L, d, lazy);
      if |bs| < 16 then read == Fail(EndOfStream)
      else
        && read.Ok? && read.rest == bs[16..] && read.value.VBytes? && |read.value.raw| == 16
        && (forall i :: 0 <= i < 8 ==> read.value.raw[i] == bs[7 - i])
        && forall i :: 8 <= i < 16 ==> read.value.raw[i] == bs[23 - i]
  {
    hide SwapHalves;
    if |bs| >= 16 { SwapHalvesAt(bs[..16]); }
  }

  function CountOf(n: Option<nat>): Option<int> { if n.Some? then Some(n.value as int) else None }

  /** A bounded string is read as a string, and then its length and its pattern are checked. */
  lemma StringReads(
    s: MarkedSchema, minLen: Option<nat>, maxLen: Option<nat>, pattern: Option<Text.Pattern>, bs: bytes, L: Limits, d: nat, lazy: bool)
    ensures Parse(s, LeafNode(StringLeaf(minLen, maxLen, pattern)), bs, L, d, lazy) ==
      Wrap(
        Checked(ReadString(bs, L),
          raw => Within(|raw|, CountOf(minLen), CountOf(maxLen)) && (pattern.Some? ==> Text.Matches(pattern.value, raw))),
        raw => VBytes(raw))
  {
    hide ReadString, Text.Matches;
  }

  /** A byte string longer than its maximum is refused before its bytes are taken. */
  lemma BytesReads(s: MarkedSchema, minLen: Option<nat>, maxLen: Option<nat>, bs: bytes, L: Limits, d: nat, lazy: bool)
    ensures Parse(s, LeafNode(BytesLeaf(minLen, maxLen)), bs, L, d, lazy) ==
      match ReadLength(bs, L.maxByteArrayBytes)
      case Fail(e) => Fail(e)
      case Ok(n, rest) =>
        if !Within(n, None, CountOf(maxLen)) then Fail(InvalidValue)
        else if n > |rest| then Fail(EndOfStream)
        else if !Within(n, CountOf(minLen), None) then Fail(InvalidValue)
        else Ok(VBytes(rest[..n]), rest[n..])
  {
    hide ReadLength;
  }

  // ---- shapes with children ----

  /** The count, its bounds, then as many elements; kept as the bytes they took, or as items. */
  lemma ListReads(
    s: MarkedSchema, p: CountPrefix, e: Node, minItems: Option<nat>, maxItems: Option<nat>, bs: bytes, L: Limits, d: nat, lazy: bool)
    ensures var read, counted :=
        Parse(s, ListNode(p, e, minItems, maxItems), bs, L, d, lazy),
        Checked(ReadCount(p, bs, L), n => Within(n, CountOf(minItems), CountOf(maxItems)));
      if counted.Fail? then read == Fail(counted.error)
      else
        var items := ParseSeq(s, Copies(e, counted.value), counted.rest, L, d, lazy);
        if items.Fail? then read == Fail(items.error)
        else
          && read.Ok? && read.rest == items.rest
          && if lazy then read.value.VWire? && read.value.len == counted.value && counted.rest == read.value.wire + items.rest
             else read.value == VItems(counted.value, items.value)
  {
    hide ReadCount, ParseSeq, BytesSeq, ValidSeq, NestSeq, PlainSeq, FitsSeq;
    var n := ListNode(p, e, minItems, maxItems);
    var head := ParseHead(s, n, bs, L, d);
    if head.Ok? {
      NoChecks(s, n);
      if ParseSeq(s, Copies(e, head.value.count), head.rest, L, d, lazy).Ok? {
        SeqExact(s, Copies(e, head.value.count), head.rest, L, d, lazy);
      }
    }
  }

  lemma NoChecks(s: Schema, n: Node)
    requires !n.RefNode?
    ensures forall vs :: ChecksOk(ChecksOf(s, n), vs)
  {
  }

  /** A byte 1 and the value, or a byte 0 and nothing. */
  lemma OptionalReads(s: MarkedSchema, e: Node, bs: bytes, L: Limits, d: nat, lazy: bool)
    ensures Parse(s, OptionalNode(e), bs, L, d, lazy) ==
      if |bs| == 0 then Fail(EndOfStream)
      else if bs[0] == 0 then Ok(VOptional([]), bs[1..])
      else if bs[0] == 1 then Wrap(Parse(s, e, bs[1..], L, d, lazy), v => VOptional([v]))
      else Fail(InvalidBoolean)
  {
    hide Parse;
    OptionalLevel(s, e, bs, L, d, lazy);
    if |bs| > 0 && bs[0] == 1 { OnePart(s, e, bs[1..], L, d, lazy); }
  }

  lemma OptionalLevel(s: MarkedSchema, e: Node, bs: bytes, L: Limits, d: nat, lazy: bool)
    ensures Parse(s, OptionalNode(e), bs, L, d, lazy) ==
      if |bs| == 0 then Fail(EndOfStream)
      else if bs[0] > 1 then Fail(InvalidBoolean)
      else Wrap(ParseSeq(s, if bs[0] == 1 then [e] else [], bs[1..], L, d, lazy), vs => VOptional(vs))
  {
    hide ParseSeq;
    NoChecks(s, OptionalNode(e));
    if |bs| > 0 { assert bs[..1][0] == bs[0]; }
  }

  lemma OnePart(s: MarkedSchema, e: Node, bs: bytes, L: Limits, d: nat, lazy: bool)
    ensures ParseSeq(s, [e], bs, L, d, lazy) ==
      match Parse(s, e, bs, L, d, lazy) case Fail(x) => Fail(x) case Ok(v, rest) => Ok([v], rest)
  {
    hide Parse;
    assert [e][1..] == [];
    var p := Parse(s, e, bs, L, d, lazy);
    if p.Ok? {
      NoFields(s, p.rest, L, d, lazy);
      assert [p.value] + [] == [p.value];
    }
  }

  /** A fixed array is its elements and nothing else. */
  lemma ArrayReads(s: MarkedSchema, len: nat, e: Node, bs: bytes, L: Limits, d: nat, lazy: bool)
    ensures Parse(s, FixedNode(len, e), bs, L, d, lazy) == Wrap(ParseSeq(s, Copies(e, len), bs, L, d, lazy), vs => VArray(vs))
  {
    hide ParseSeq;
    NoChecks(s, FixedNode(len, e));
  }

  /** A map entry is its key and then its value. */
  lemma EntryReads(s: MarkedSchema, k: Node, e: Node, bs: bytes, L: Limits, d: nat, lazy: bool)
    ensures Parse(s, EntryNode(k, e), bs, L, d, lazy) == Wrap(ParseSeq(s, [k, e], bs, L, d, lazy), vs => VStruct(vs))
  {
    hide ParseSeq;
    NoChecks(s, EntryNode(k, e));
  }

  /** An enum is any number of its representation, unless the site allows only some. */
  lemma EnumReads(s: MarkedSchema, r: string, allowed: seq<int>, bs: bytes, L: Limits, d: nat, lazy: bool)
    requires r in s.types && s.types[r].Enum?
    ensures Parse(s, RefNode(r, allowed), bs, L, d, lazy) ==
      Wrap(Checked(ReadInt(s.types[r].repr, bs), n => |allowed| > 0 ==> n in allowed), n => VInt(n))
  {
    hide ReadInt;
  }

  /** Whether the codec of a struct or union counts a level: if it is recursive, and writes anything at all. */
  predicate Counts(s: Schema, r: string)
    requires r in s.types
  {
    r in s.recursive && match s.types[r] case Struct(fields, _) => |fields| > 0 case Enum(_, _) => false case Union(_, _) => true
  }

  /** The fields in order, one level down if the struct counts, and then its checks. */
  lemma StructReads(s: MarkedSchema, r: string, allowed: seq<int>, bs: bytes, L: Limits, d: nat, lazy: bool)
    requires r in s.types && s.types[r].Struct?
    ensures var fields, checks := s.types[r].fields, s.types[r].checks;
      Parse(s, RefNode(r, allowed), bs, L, d, lazy) ==
      if |fields| == 0 then Ok(VStruct([]), bs)
      else if Counts(s, r) && d >= L.maxNestingDepth then Fail(LimitExceeded)
      else
        Wrap(
          Checked(ParseSeq(s, FieldNodes(fields), bs, L, if Counts(s, r) then d + 1 else d, lazy), vs => Passes(checks, vs)),
          vs => VStruct(vs))
  {
    hide ParseSeq, ParseHead, ShapeOk, ChecksOk, ChecksOf, Passes, Children, Level, Atom, Counts, FieldNodes;
    var n, fields, checks := RefNode(r, allowed), s.types[r].fields, s.types[r].checks;
    StructHead(s, r, allowed, bs, L, d);
    forall vs ensures ChecksOk(checks, vs) <==> Passes(checks, vs) { PassesIs(checks, vs); }
    if |fields| == 0 { NoFields(s, bs, L, d, lazy); }
  }

  lemma StructHead(s: MarkedSchema, r: string, allowed: seq<int>, bs: bytes, L: Limits, d: nat)
    requires r in s.types && s.types[r].Struct?
    ensures var n := RefNode(r, allowed);
      && Level(s, n) == (if Counts(s, r) then 1 else 0) && !Atom(s, n)
      && ParseHead(s, n, bs, L, d) == (if Counts(s, r) && d >= L.maxNestingDepth then Fail(LimitExceeded) else Ok(StructShape, bs))
      && ShapeOk(s, n, StructShape) && Children(s, n, StructShape) == FieldNodes(s.types[r].fields)
      && (|s.types[r].fields| == 0 ==> !Counts(s, r) && FieldNodes(s.types[r].fields) == [] && forall vs :: ChecksOk(ChecksOf(s, n), vs))
      && (|s.types[r].fields| > 0 ==> ChecksOf(s, n) == s.types[r].checks)
  {
  }

  predicate Passes(checks: seq<Check>, vs: seq<Value>) {
    forall i :: 0 <= i < |checks| ==> Equation(checks[i], vs) && InRegister(checks[i], vs)
  }

  lemma PassesIs(checks: seq<Check>, vs: seq<Value>)
    ensures ChecksOk(checks, vs) <==> Passes(checks, vs)
  {
    hide CheckOk, Equation, InRegister;
    forall i | 0 <= i < |checks| ensures CheckOk(checks[i], vs) <==> Equation(checks[i], vs) && InRegister(checks[i], vs) {
      CheckIs(checks[i], vs);
    }
  }

  lemma NoFields(s: MarkedSchema, bs: bytes, L: Limits, d: nat, lazy: bool)
    ensures ParseSeq(s, [], bs, L, d, lazy) == Ok([], bs)
  {
  }

  /** The tag, then the payload of the first variant that has it, one level down if the union counts. */
  lemma UnionReads(s: MarkedSchema, r: string, allowed: seq<int>, bs: bytes, L: Limits, d: nat, lazy: bool, j: nat)
    requires r in s.types && s.types[r].Union?
    ensures Counts(s, r) && d >= L.maxNestingDepth ==> Parse(s, RefNode(r, allowed), bs, L, d, lazy) == Fail(LimitExceeded)
    ensures !(Counts(s, r) && d >= L.maxNestingDepth) ==>
      var read, tag, variants := Parse(s, RefNode(r, allowed), bs, L, d, lazy), ReadInt(s.types[r].repr, bs), s.types[r].variants;
      && (tag.Fail? ==> read == Fail(tag.error))
      && (tag.Ok? && (forall v :: v in variants ==> v.value != tag.value) ==> read == Fail(InvalidEnum))
      && (tag.Ok? && Selects(variants, tag.value, j) ==>
        match variants[j].payload
        case None => read == Ok(VUnion(tag.value, []), tag.rest)
        case Some(n) => read == Wrap(Parse(s, n, tag.rest, L, if Counts(s, r) then d + 1 else d, lazy), v => VUnion(tag.value, [v])))
  {
    hide ParseSeq, ReadInt, FindVariant, Parse;
    var tag, variants := ReadInt(s.types[r].repr, bs), s.types[r].variants;
    UnionLevel(s, r, allowed, bs, L, d, lazy);
    if tag.Ok? && FindVariant(variants, tag.value).Some? {
      var i := FoundIsSelected(variants, tag.value);
      assert variants[i] in variants;
      if Selects(variants, tag.value, j) { OneSelected(variants, tag.value, i, j); }
      if variants[i].payload.Some? {
        OnePart(s, variants[i].payload.value, tag.rest, L, if Counts(s, r) then d + 1 else d, lazy);
      } else {
        NoFields(s, tag.rest, L, if Counts(s, r) then d + 1 else d, lazy);
      }
    }
    if tag.Ok? && Selects(variants, tag.value, j) { SelectedFound(variants, tag.value, j); }
  }

  lemma UnionLevel(s: MarkedSchema, r: string, allowed: seq<int>, bs: bytes, L: Limits, d: nat, lazy: bool)
    requires r in s.types && s.types[r].Union?
    ensures Parse(s, RefNode(r, allowed), bs, L, d, lazy) ==
      if Counts(s, r) && d >= L.maxNestingDepth then Fail(LimitExceeded)
      else match ReadInt(s.types[r].repr, bs)
        case Fail(e) => Fail(e)
        case Ok(tag, rest) =>
          var v := FindVariant(s.types[r].variants, tag);
          if v.None? then Fail(InvalidEnum)
          else
            Wrap(
              ParseSeq(s, if v.value.payload.Some? then [v.value.payload.value] else [], rest, L, if Counts(s, r) then d + 1 else d, lazy),
              vs => VUnion(tag, vs))
  {
    hide ParseSeq, ReadInt, FindVariant, ParseHead, ShapeOk, InRange, IntBytes, ShapeBytes, ShapeFits;
    UnionHead(s, r, allowed, bs, L, d);
    var head := ParseHead(s, RefNode(r, allowed), bs, L, d);
    if head.Ok? {
      HeadIff(s, RefNode(r, allowed), bs, head.value, head.rest, L, d);
      UnionParts(s, r, allowed, head.value.tag);
    }
  }

  lemma UnionHead(s: MarkedSchema, r: string, allowed: seq<int>, bs: bytes, L: Limits, d: nat)
    requires r in s.types && s.types[r].Union?
    ensures Level(s, RefNode(r, allowed)) == if Counts(s, r) then 1 else 0
    ensures ParseHead(s, RefNode(r, allowed), bs, L, d) ==
      if Counts(s, r) && d >= L.maxNestingDepth then Fail(LimitExceeded)
      else match ReadInt(s.types[r].repr, bs)
        case Fail(e) => Fail(e)
        case Ok(tag, rest) => if FindVariant(s.types[r].variants, tag).None? then Fail(InvalidEnum) else Ok(UnionShape(tag), rest)
  {
    hide ReadInt, FindVariant;
  }

  lemma UnionParts(s: MarkedSchema, r: string, allowed: seq<int>, tag: int)
    requires r in s.types && s.types[r].Union? && ShapeOk(s, RefNode(r, allowed), UnionShape(tag))
    ensures var v := FindVariant(s.types[r].variants, tag);
      v.Some? && Children(s, RefNode(r, allowed), UnionShape(tag)) == if v.value.payload.Some? then [v.value.payload.value] else []
    ensures forall vs :: ChecksOk(ChecksOf(s, RefNode(r, allowed)), vs)
  {
    hide InRange, FindVariant;
  }
}
