/** The emitted encoders, driving a writer or a counting writer. */
module Encoders {
  import opened Wire
  import opened Integers
  import opened Values
  import opened Leaves
  import opened Schemas
  import opened Shapes
  import opened Meaning
  import opened Writers
  import Leb128
  import Text

  const REFUSED := Failed(EncodeError.InvalidValue)

  // ---- encodings in sequence ----

  function Cat(a: bytes, b: Option<bytes>): Option<bytes> {
    match b
    case None => None
    case Some(bs) => Some(a + bs)
  }

  /** A refused or cut short first part, or a first part written in full. */
  lemma EmitsFirst(st: Status, a: bytes, b: Option<bytes>, room: int, before: bytes, after: bytes)
    requires Puts(st, a, room, before, after)
    ensures st.Failed? ==> Emits(st, Cat(a, b), room, before, after)
    ensures st.Done? ==> after == before + a && |a| <= room
  {
  }

  lemma EmitsSecond(st: Status, a: bytes, b: Option<bytes>, room: int, before: bytes, after: bytes)
    requires |a| <= room && Emits(st, b, room - |a|, before + a, after)
    ensures Emits(st, Cat(a, b), room, before, after)
  {
    if b.Some? { assert before + a + b.value == before + (a + b.value); }
  }

  function Join(a: Option<bytes>, b: Option<bytes>): Option<bytes> {
    match a
    case None => None
    case Some(bs) => Cat(bs, b)
  }

  lemma SeqEncode(s: Schema, ns: seq<Node>, vs: seq<Value>, d: nat)
    requires |ns| > 0 && |vs| > 0 && d <= MAX_SUPPORTED_DEPTH
    ensures EncodeSeq(s, ns, vs, d) == Join(Encode(s, ns[0], vs[0], d), EncodeSeq(s, ns[1..], vs[1..], d))
  {
    hide Valid, Bytes, Nest;
  }

  /** A value with children is encoded as its own level followed by them. */
  lemma OpenEncode(s: Schema, n: Node, v: Value, d: nat)
    requires !Closed(s, n, v) && v.Open()
    ensures Encode(s, n, v, d) ==
      if ShapeOk(s, n, ShapeOf(v)) && ChecksOk(ChecksOf(s, n), v.Parts())
      then Cat(ShapeBytes(s, n, ShapeOf(v)), EncodeSeq(s, Children(s, n, ShapeOf(v)), v.Parts(), d + Level(s, n)))
      else None
    ensures Enters(s, n) && d >= MAX_SUPPORTED_DEPTH ==> Encode(s, n, v, d) == None
  {
    hide ShapeOk, ShapeBytes, Children, ChecksOk, ChecksOf, ValidSeq, BytesSeq, NestSeq, Enters;
  }

  // ---- leaves ----

  function LeafEncoding(l: Leaf, v: Value): Option<bytes> {
    if LeafValid(l, v) then Some(LeafBytes(l, v)) else None
  }

  function DescribedEncoding(d: Value): Option<bytes> {
    if DescriptorValid(d) then Some(DescriptorBytes(d)) else None
  }

  method EncodeDescriptor(w: Writer, d: Value) returns (st: Status)
    requires w.Valid()
    modifies w`cursor, w`out, w.buffer
    ensures w.Valid() && w.TailKept()
    ensures Emits(st, DescribedEncoding(d), w.Capacity() - old(w.cursor), old(w.out), w.out)
  {
    hide InRange, IntBytes, StringOk, SizedBytes;
    if !d.VUnion? { return REFUSED; }
    if d.tag == 0 {
      if |d.payload| != 1 || !d.payload[0].VInt? || !InRange(ZigzagI32, d.payload[0].n) { return REFUSED; }
      st := EncodeNumbered(w, d.payload[0].n);
    } else {
      if d.tag < 1 || d.tag > 3 || |d.payload| != 2 || !d.payload[0].VBytes? || !d.payload[1].VInt?
         || !InRange(TailKind(d.tag), d.payload[1].n) {
        return REFUSED;
      }
      st := w.WriteVar(1);
      if st.Failed? { return; }
      st := EncodeNamed(w, d);
    }
  }

  method EncodeNumbered(w: Writer, n: int) returns (st: Status)
    requires w.Valid() && InRange(ZigzagI32, n)
    modifies w`cursor, w`out, w.buffer
    ensures w.Valid() && w.TailKept()
    ensures Emits(st, Some(Leb128.Encode(0) + IntBytes(ZigzagI32, n)), w.Capacity() - old(w.cursor), old(w.out), w.out)
  {
    hide InRange, IntBytes;
    st := w.WriteVar(0);
    if st.Failed? { return; }
    st := w.WriteInt(ZigzagI32, n);
  }

  predicate Described(d: Value) {
    && d.VUnion? && 1 <= d.tag <= 3 && |d.payload| == 2 && d.payload[0].VBytes?
    && d.payload[1].VInt? && InRange(TailKind(d.tag), d.payload[1].n)
  }

  method EncodeNamed(w: Writer, d: Value) returns (st: Status)
    requires w.Valid() && Described(d)
    modifies w`cursor, w`out, w.buffer
    ensures w.Valid() && w.TailKept()
    ensures Emits(st,
        if StringOk(d.payload[0].raw) then Some(SizedBytes(KindName(d.tag)) + DescribedBytes(d)) else None,
        w.Capacity() - old(w.cursor), old(w.out), w.out)
  {
    hide InRange, IntBytes, StringOk, SizedBytes;
    st := w.WriteString(KindName(d.tag));
    if st.Failed? { return; }
    st := w.WriteString(d.payload[0].raw);
    if st.Failed? { return; }
    st := w.WriteInt(TailKind(d.tag), d.payload[1].n);
  }

  method EncodeIngredient(w: Writer, v: Value) returns (st: Status)
    requires w.Valid()
    modifies w`cursor, w`out, w.buffer
    ensures w.Valid() && w.TailKept()
    ensures Emits(st, LeafEncoding(IngredientLeaf, v), w.Capacity() - old(w.cursor), old(w.out), w.out)
  {
    hide InRange, IntBytes, DescriptorValid, DescriptorBytes;
    if !v.VStruct? || |v.fields| != 2 || !v.fields[1].VInt? { return REFUSED; }
    if v.fields[1].n < 0 || v.fields[1].n > 64 { return REFUSED; }
    assert CountInRange(v.fields[1].n);
    st := EncodeDescriptor(w, v.fields[0]);
    if st.Failed? { return; }
    st := w.WriteInt(ZigzagI32, v.fields[1].n);
  }

  method EncodeLeaf(w: Writer, l: Leaf, v: Value) returns (st: Status)
    requires w.Valid()
    modifies w`cursor, w`out, w.buffer
    ensures w.Valid() && w.TailKept()
    ensures Emits(st, LeafEncoding(l, v), w.Capacity() - old(w.cursor), old(w.out), w.out)
  {
    hide InRange, IntBytes, StringOk, SizedBytes, SwapHalves, IngredientValid, IngredientBytes;
    match l
    case BoolLeaf =>
      if !v.VBool? { return REFUSED; }
      st := w.WriteU8(if v.b then 1 else 0);
    case IntLeaf(k, min, max) =>
      if !v.VInt? || !InRange(k, v.n) { return REFUSED; }
      if !AtLeast(v.n, min) { return REFUSED; }
      if !AtMost(v.n, max) { return REFUSED; }
      st := w.WriteInt(k, v.n);
    case FloatLeaf(size) =>
      if !v.VInt? || !InRange(Fixed(size, false, false), v.n) { return REFUSED; }
      st := w.WriteInt(Fixed(size, false, false), v.n);
    case UuidLeaf =>
      if !v.VBytes? || |v.raw| != 16 { return REFUSED; }
      st := w.WriteUuid(v.raw);
    case StringLeaf(minLen, maxLen, pattern) =>
      if !v.VBytes? || !LengthOk(|v.raw|, minLen, maxLen) { return REFUSED; }
      if pattern.Some? && !Text.Matches(pattern.value, v.raw) { return REFUSED; }
      st := w.WriteString(v.raw);
    case BytesLeaf(minLen, maxLen) =>
      if !v.VBytes? || !LengthOk(|v.raw|, minLen, maxLen) { return REFUSED; }
      st := w.WriteByteArray(v.raw);
    case BitsetLeaf(bits) =>
      if !v.VInt? || bits == 0 || v.n < 0 || v.n >= Leb128.Pow2(bits) { return REFUSED; }
      st := w.WriteVar(v.n);
    case IngredientLeaf => st := EncodeIngredient(w, v);
  }

  // ---- shapes with children ----

  /** Encodes one value; nesting depth is back where it was on every path. */
  method EncodeNode(w: Writer, s: Schema, n: Node, v: Value) returns (st: Status)
    requires w.Valid() && w.depth <= MAX_SUPPORTED_DEPTH
    modifies w`cursor, w`depth, w`out, w.buffer
    ensures w.Valid() && w.TailKept() && w.depth == old(w.depth)
    ensures Emits(st, Encode(s, n, v, old(w.depth)), w.Capacity() - old(w.cursor), old(w.out), w.out)
    decreases v, 1
  {
    hide LeafValid, LeafBytes, InRange, IntBytes;
    match n
    case LeafNode(l) => st := EncodeLeaf(w, l, v);
    case ListNode(_, _, _, _) => st := EncodeList(w, s, n, v);
    case RefNode(name, allowed) =>
      if name !in s.types { return REFUSED; }
      if s.types[name].Enum? {
        if !v.VInt? || !InRange(s.types[name].repr, v.n) { return REFUSED; }
        if |allowed| > 0 && v.n !in allowed { return REFUSED; }
        st := w.WriteInt(s.types[name].repr, v.n);
        return;
      }
      if Enters(s, n) {
        st := w.Enter();
        if st.Failed? { EnterRefused(s, n, v, w.depth); return; }
        st := EncodeOpen(w, s, n, v);
        w.Leave();
      } else {
        st := EncodeOpen(w, s, n, v);
      }
    case _ => st := EncodeOpen(w, s, n, v);
  }

  lemma EnterRefused(s: Schema, n: Node, v: Value, d: nat)
    requires Enters(s, n) && d >= MAX_SUPPORTED_DEPTH
    ensures Encode(s, n, v, d) == None
  {
    hide ShapeOk, Children, ChecksOk, ChecksOf, ValidSeq, NestSeq;
  }

  /**
   A struct, union, array, optional or map entry whose level has been entered:
   its cross-field checks, the bytes of its own level, then its children.
   */
  method EncodeOpen(w: Writer, s: Schema, n: Node, v: Value) returns (st: Status)
    requires w.Valid() && !Atom(s, n) && !n.ListNode? && Level(s, n) <= w.depth <= MAX_SUPPORTED_DEPTH
    modifies w`cursor, w`depth, w`out, w.buffer
    ensures w.Valid() && w.TailKept() && w.depth == old(w.depth)
    ensures Emits(st, Encode(s, n, v, old(w.depth) - Level(s, n)), w.Capacity() - old(w.cursor), old(w.out), w.out)
    decreases v, 0
  {
    hide Encode, ShapeBytes, Children, ChecksOk, ChecksOf, Level, ShapeOk, EncodeSeq, Atom;
    ghost var d := w.depth - Level(s, n);
    if !v.Open() || !ShapeOk(s, n, ShapeOf(v)) { NotOpen(s, n, v, d); return REFUSED; }
    OpenEncode(s, n, v, d);
    if !ChecksOk(ChecksOf(s, n), v.Parts()) { return REFUSED; }
    ghost var head := ShapeBytes(s, n, ShapeOf(v));
    ghost var body := EncodeSeq(s, Children(s, n, ShapeOf(v)), v.Parts(), w.depth);
    ghost var before, room := w.out, w.Capacity() - w.cursor;
    st := EncodeHead(w, s, n, v);
    EmitsFirst(st, head, body, room, before, w.out);
    if st.Failed? { return; }
    st := EncodeFields(w, s, Children(s, n, ShapeOf(v)), v.Parts());
    EmitsSecond(st, head, body, room, before, w.out);
  }

  /** A presence flag or a union's tag; the other shapes write nothing of their own. */
  method EncodeHead(w: Writer, s: Schema, n: Node, v: Value) returns (st: Status)
    requires w.Valid() && !Atom(s, n) && !n.ListNode? && v.Open() && ShapeOk(s, n, ShapeOf(v))
    modifies w`cursor, w`out, w.buffer
    ensures w.Valid() && w.TailKept()
    ensures Puts(st, ShapeBytes(s, n, ShapeOf(v)), w.Capacity() - old(w.cursor), old(w.out), w.out)
  {
    hide InRange, IntBytes, FindVariant;
    match v {
      case VOptional(content) => st := w.WriteU8(if |content| > 0 then 1 else 0);
      case VUnion(tag, _) => st := w.WriteInt(s.types[n.ref].repr, tag);
      case _ => st := Done;
    }
  }

  lemma NotOpen(s: Schema, n: Node, v: Value, d: nat)
    requires !Atom(s, n) && !n.ListNode? && (!v.Open() || !ShapeOk(s, n, ShapeOf(v)))
    ensures Encode(s, n, v, d) == None
  {
    hide Children, ChecksOk, ChecksOf, ValidSeq, ShapeBytes;
  }

  method EncodeFields(w: Writer, s: Schema, ns: seq<Node>, vs: seq<Value>) returns (st: Status)
    requires w.Valid() && w.depth <= MAX_SUPPORTED_DEPTH
    modifies w`cursor, w`depth, w`out, w.buffer
    ensures w.Valid() && w.TailKept() && w.depth == old(w.depth)
    ensures Emits(st, EncodeSeq(s, ns, vs, old(w.depth)), w.Capacity() - old(w.cursor), old(w.out), w.out)
    decreases vs, 0
  {
    hide Encode, Valid, Bytes, Nest;
    if |ns| != |vs| { LengthsDiffer(s, ns, vs); return REFUSED; }
    ghost var before, room, d := w.out, w.Capacity() - w.cursor, w.depth;
    ghost var done: bytes := [];
    assert ns[0..] == ns && vs[0..] == vs;
    CatNothing(EncodeSeq(s, ns, vs, d));
    for i := 0 to |vs|
      invariant w.Valid() && w.TailKept() && w.depth == d && |done| <= room
      invariant w.out == before + done
      invariant EncodeSeq(s, ns, vs, d) == Cat(done, EncodeSeq(s, ns[i..], vs[i..], d))
    {
      assert ns[i..][1..] == ns[i + 1..] && vs[i..][1..] == vs[i + 1..];
      SeqEncode(s, ns[i..], vs[i..], d);
      ghost var rest := EncodeSeq(s, ns[i + 1..], vs[i + 1..], d);
      ghost var one := Encode(s, ns[i], vs[i], d);
      st := EncodeNode(w, s, ns[i], vs[i]);
      if st.Failed? { FailedPart(st, done, one, rest, room, before, w.out); return; }
      assert one.Some?;
      CatMore(done, one.value, rest);
      done := done + one.value;
    }
    assert EncodeSeq(s, ns[|vs|..], vs[|vs|..], d) == Some([]);
    assert done + [] == done;
    return Done;
  }

  lemma CatNothing(b: Option<bytes>)
    ensures Cat([], b) == b
  {
    if b.Some? { assert [] + b.value == b.value; }
  }

  lemma CatMore(done: bytes, one: bytes, rest: Option<bytes>)
    ensures Cat(done, Cat(one, rest)) == Cat(done + one, rest)
  {
    if rest.Some? { assert done + (one + rest.value) == (done + one) + rest.value; }
  }

  lemma FailedPart(st: Status, done: bytes, one: Option<bytes>, rest: Option<bytes>, room: int, before: bytes, after: bytes)
    requires st.Failed? && |done| <= room && Emits(st, one, room - |done|, before + done, after)
    ensures Emits(st, Cat(done, Join(one, rest)), room, before, after)
  {
  }

  lemma LengthsDiffer(s: Schema, ns: seq<Node>, vs: seq<Value>)
    requires |ns| != |vs|
    ensures !ValidSeq(s, ns, vs)
  {
    if ValidSeq(s, ns, vs) { SameLength(s, ns, vs); }
  }

  /** A list: its bounds, its count, then its kept bytes as they are, or its items. */
  method EncodeList(w: Writer, s: Schema, n: Node, v: Value) returns (st: Status)
    requires w.Valid() && n.ListNode? && w.depth <= MAX_SUPPORTED_DEPTH
    modifies w`cursor, w`depth, w`out, w.buffer
    ensures w.Valid() && w.TailKept() && w.depth == old(w.depth)
    ensures Emits(st, Encode(s, n, v, old(w.depth)), w.Capacity() - old(w.cursor), old(w.out), w.out)
    decreases v, 0
  {
    hide EncodeSeq, BytesSeq, NestSeq, InRange, IntBytes;
    if !v.VItems? && !v.VWire? { return REFUSED; }
    var len := v.len;
    if !LengthOk(len, n.minItems, n.maxItems) { return REFUSED; }
    ghost var head := if Counted(n.prefix, len) then IntBytes(PrefixKind(n.prefix), len) else [];
    ghost var before, room := w.out, w.Capacity() - w.cursor;
    ListEncoding(s, n, v, w.depth);
    st := w.WriteCount(n.prefix, len);
    if st.Failed? {
      if Counted(n.prefix, len) {
        EmitsFirst(st, head, if v.VWire? then Some(v.wire) else EncodeSeq(s, Copies(n.element, len), v.items, w.depth),
          room, before, w.out);
      }
      return;
    }
    if v.VWire? {
      st := w.WriteRaw(v.wire);
      EmitsSecond(st, head, Some(v.wire), room, before, w.out);
    } else {
      if len != |v.items| {
        LengthsDiffer(s, Copies(n.element, len), v.items);
        NoSeq(s, Copies(n.element, len), v.items, w.depth);
        return REFUSED;
      }
      st := EncodeFields(w, s, Copies(n.element, len), v.items);
      EmitsSecond(st, head, EncodeSeq(s, Copies(n.element, len), v.items, w.depth), room, before, w.out);
    }
  }

  lemma NoSeq(s: Schema, ns: seq<Node>, vs: seq<Value>, d: nat)
    requires !ValidSeq(s, ns, vs)
    ensures EncodeSeq(s, ns, vs, d) == None
  {
  }

  lemma ListEncoding(s: Schema, n: Node, v: Value, d: nat)
    requires n.ListNode? && (v.VItems? || v.VWire?) && LengthOk(v.len, n.minItems, n.maxItems) && d <= MAX_SUPPORTED_DEPTH
    ensures Encode(s, n, v, d) ==
      if !Counted(n.prefix, v.len) then None
      else Cat(IntBytes(PrefixKind(n.prefix), v.len),
               if v.VWire? then Some(v.wire) else EncodeSeq(s, Copies(n.element, v.len), v.items, d))
  {
    hide EncodeSeq, ValidSeq, BytesSeq, NestSeq, InRange, IntBytes;
    if v.VItems? { OpenEncode(s, n, v, d); NoBounds(v.Parts()); }
  }

  lemma NoBounds(vs: seq<Value>)
    ensures ChecksOk([], vs)
  {
  }
}
