/**
 Codecs of the shapes without children. Each has a reader, a validity test with
 the bytes written for a valid value, and the limits that value needs; the three
 lemmas at the end are all that the rest of the project uses.
 */
module Leaves {
  import opened Wire
  import opened Integers
  import opened Text
  import opened Values
  import Leb128

  datatype Leaf =
    | BoolLeaf
    | IntLeaf(kind: IntKind, min: Option<int>, max: Option<int>)
    | FloatLeaf(size: Width) // a raw bit pattern
    | UuidLeaf
    | StringLeaf(minLen: Option<nat>, maxLen: Option<nat>, pattern: Option<Pattern>)
    | BytesLeaf(minLen: Option<nat>, maxLen: Option<nat>)
    | BitsetLeaf(bits: nat)
    | IngredientLeaf // the hand-written recipe ingredient codec

  predicate AtLeast(v: int, bound: Option<int>) { bound.None? || bound.value <= v }

  predicate AtMost(v: int, bound: Option<int>) { bound.None? || v <= bound.value }

  predicate LengthOk(n: nat, minLen: Option<nat>, maxLen: Option<nat>) {
    (minLen.None? || minLen.value <= n) && (maxLen.None? || n <= maxLen.value)
  }

  // ---- reading ----

  function ReadLength(bs: bytes, limit: nat): Parsed<nat> {
    match Leb128.DecodeU32(bs)
    case Fail(e) => Fail(e)
    case Ok(n, rest) => if n > limit then Fail(LimitExceeded) else Ok(n, rest)
  }

  function ReadSized(bs: bytes, limit: nat): Parsed<bytes> {
    match ReadLength(bs, limit)
    case Fail(e) => Fail(e)
    case Ok(n, rest) => Take(rest, n)
  }

  function ReadString(bs: bytes, L: Limits): Parsed<bytes> {
    match ReadSized(bs, L.maxStringBytes)
    case Fail(e) => Fail(e)
    case Ok(raw, rest) => if Utf8(raw) then Ok(raw, rest) else Fail(InvalidUtf8)
  }

  /** A schema maximum is checked before the bytes are taken. */
  function ReadByteArray(bs: bytes, L: Limits, maxLen: Option<nat>): Parsed<bytes> {
    match ReadLength(bs, L.maxByteArrayBytes)
    case Fail(e) => Fail(e)
    case Ok(n, rest) => if maxLen.Some? && n > maxLen.value then Fail(InvalidValue) else Take(rest, n)
  }

  function ReadBool(bs: bytes): Parsed<bool> {
    match Take(bs, 1)
    case Fail(e) => Fail(e)
    case Ok(raw, rest) => if raw[0] == 0 then Ok(false, rest) else if raw[0] == 1 then Ok(true, rest) else Fail(InvalidBoolean)
  }

  /** A UUID is two little-endian halves: each half is stored reversed. */
  function SwapHalves(raw: bytes): (r: bytes)
    requires |raw| == 16
    ensures |r| == 16
  {
    Reverse(raw[..8]) + Reverse(raw[8..])
  }

  function ParseLeaf(l: Leaf, bs: bytes, L: Limits): Parsed<Value> {
    match l
    case BoolLeaf =>
      (match ReadBool(bs)
       case Fail(e) => Fail(e)
       case Ok(b, rest) => Ok(VBool(b), rest))
    case IntLeaf(k, min, max) =>
      (match ReadInt(k, bs)
       case Fail(e) => Fail(e)
       case Ok(n, rest) => if AtLeast(n, min) && AtMost(n, max) then Ok(VInt(n), rest) else Fail(InvalidValue))
    case FloatLeaf(size) =>
      (match ReadInt(Fixed(size, false, false), bs)
       case Fail(e) => Fail(e)
       case Ok(n, rest) => Ok(VInt(n), rest))
    case UuidLeaf =>
      (match Take(bs, 16)
       case Fail(e) => Fail(e)
       case Ok(raw, rest) => Ok(VBytes(SwapHalves(raw)), rest))
    case StringLeaf(minLen, maxLen, pattern) =>
      (match ReadString(bs, L)
       case Fail(e) => Fail(e)
       case Ok(raw, rest) =>
         if LengthOk(|raw|, minLen, maxLen) && (pattern.None? || Matches(pattern.value, raw)) then Ok(VBytes(raw), rest)
         else Fail(InvalidValue))
    case BytesLeaf(minLen, maxLen) =>
      (match ReadByteArray(bs, L, maxLen)
       case Fail(e) => Fail(e)
       case Ok(raw, rest) => if LengthOk(|raw|, minLen, maxLen) then Ok(VBytes(raw), rest) else Fail(InvalidValue))
    case BitsetLeaf(bits) =>
      (match Leb128.DecodeBitset(bs, bits)
       case Fail(e) => Fail(e)
       case Ok(n, rest) => Ok(VInt(n), rest))
    case IngredientLeaf => ReadIngredient(bs, L)
  }

  // ---- validity and bytes ----

  predicate StringOk(raw: bytes) { |raw| <= U32_MAX && Utf8(raw) }

  function SizedBytes(raw: bytes): bytes { Leb128.Encode(|raw|) + raw }

  predicate LeafValid(l: Leaf, v: Value) {
    match l
    case BoolLeaf => v.VBool?
    case IntLeaf(k, min, max) => v.VInt? && InRange(k, v.n) && AtLeast(v.n, min) && AtMost(v.n, max)
    case FloatLeaf(size) => v.VInt? && InRange(Fixed(size, false, false), v.n)
    case UuidLeaf => v.VBytes? && |v.raw| == 16
    case StringLeaf(minLen, maxLen, pattern) =>
      && v.VBytes? && StringOk(v.raw) && LengthOk(|v.raw|, minLen, maxLen)
      && (pattern.None? || Matches(pattern.value, v.raw))
    case BytesLeaf(minLen, maxLen) => v.VBytes? && |v.raw| <= U32_MAX && LengthOk(|v.raw|, minLen, maxLen)
    case BitsetLeaf(bits) => v.VInt? && bits > 0 && 0 <= v.n < Leb128.Pow2(bits)
    case IngredientLeaf => IngredientValid(v)
  }

  function LeafBytes(l: Leaf, v: Value): bytes
    requires LeafValid(l, v)
  {
    match l
    case BoolLeaf => [if v.b then 1 else 0]
    case IntLeaf(k, _, _) => IntBytes(k, v.n)
    case FloatLeaf(size) => IntBytes(Fixed(size, false, false), v.n)
    case UuidLeaf => SwapHalves(v.raw)
    case StringLeaf(_, _, _) => SizedBytes(v.raw)
    case BytesLeaf(_, _) => SizedBytes(v.raw)
    case BitsetLeaf(_) => Leb128.Encode(v.n)
    case IngredientLeaf => IngredientBytes(v)
  }

  /** The decode limits that admit a valid value. */
  predicate LeafFits(l: Leaf, v: Value, L: Limits)
    requires LeafValid(l, v)
  {
    match l
    case StringLeaf(_, _, _) => |v.raw| <= L.maxStringBytes
    case BytesLeaf(_, _) => |v.raw| <= L.maxByteArrayBytes
    case IngredientLeaf => IngredientFits(v, L)
    case _ => true
  }

  // ---- the recipe ingredient ----

  const NAME: bytes := [110, 97, 109, 101]
  const MOLANG: bytes := [109, 111, 108, 97, 110, 103]
  const ITEM_TAG: bytes := [105, 116, 101, 109, 95, 116, 97, 103]

  /** The name on the wire of each described kind of ingredient; kind 0 has none. */
  function KindName(kind: int): (name: bytes)
    requires 1 <= kind <= 3
    ensures StringOk(name) && 0 < |name| < 128
    ensures Leb128.Encode(|name|) == [|name|]
  {
    var name := if kind == 1 then NAME else if kind == 2 then MOLANG else ITEM_TAG;
    AsciiIsUtf8(name);
    name
  }

  /** What follows the text: an aux value, or the molang version. */
  function TailKind(kind: int): IntKind { if kind == 2 then I16LE else ZigzagI32 }

  function ReadDescriptor(bs: bytes, L: Limits): Parsed<Value> {
    match Leb128.DecodeU32(bs)
    case Fail(e) => Fail(e)
    case Ok(present, rest) =>
      if present == 0 then
        match ReadInt(ZigzagI32, rest)
        case Fail(e) => Fail(e)
        case Ok(aux, rest') => Ok(VUnion(0, [VInt(aux)]), rest')
      else if present == 1 then ReadNamed(rest, L)
      else Fail(InvalidEnum)
  }

  function ReadNamed(bs: bytes, L: Limits): Parsed<Value> {
    match ReadString(bs, L)
    case Fail(e) => Fail(e)
    case Ok(name, rest) =>
      if KindOf(name) == 0 then Fail(InvalidEnum) else ReadDescribed(KindOf(name), rest, L)
  }

  /** The kind a name stands for, 0 when none does. */
  function KindOf(name: bytes): (kind: int)
    ensures 0 <= kind <= 3
    ensures kind != 0 ==> name == KindName(kind)
    ensures forall k :: 1 <= k <= 3 && name == KindName(k) ==> kind == k
  {
    assert |NAME| == 4 && |MOLANG| == 6 && |ITEM_TAG| == 8;
    if name == NAME then 1 else if name == MOLANG then 2 else if name == ITEM_TAG then 3 else 0
  }

  function ReadDescribed(kind: int, bs: bytes, L: Limits): Parsed<Value> {
    match ReadString(bs, L)
    case Fail(e) => Fail(e)
    case Ok(text, rest) =>
      match ReadInt(TailKind(kind), rest)
      case Fail(e) => Fail(e)
      case Ok(n, rest') => Ok(VUnion(kind, [VBytes(text), VInt(n)]), rest')
  }

  function ReadIngredient(bs: bytes, L: Limits): Parsed<Value> {
    match ReadDescriptor(bs, L)
    case Fail(e) => Fail(e)
    case Ok(d, rest) =>
      match ReadInt(ZigzagI32, rest)
      case Fail(e) => Fail(e)
      case Ok(count, rest') => if 0 <= count <= 64 then Ok(VStruct([d, VInt(count)]), rest') else Fail(InvalidValue)
  }

  predicate DescriptorValid(d: Value) {
    && d.VUnion?
    && if d.tag == 0 then |d.payload| == 1 && d.payload[0].VInt? && InRange(ZigzagI32, d.payload[0].n)
       else
         && 1 <= d.tag <= 3 && |d.payload| == 2
         && d.payload[0].VBytes? && StringOk(d.payload[0].raw)
         && d.payload[1].VInt? && InRange(TailKind(d.tag), d.payload[1].n)
  }

  predicate IngredientValid(v: Value) {
    && v.VStruct? && |v.fields| == 2
    && DescriptorValid(v.fields[0])
    && v.fields[1].VInt? && 0 <= v.fields[1].n <= 64
  }

  function DescribedBytes(d: Value): bytes
    requires DescriptorValid(d) && d.tag != 0
  {
    SizedBytes(d.payload[0].raw) + IntBytes(TailKind(d.tag), d.payload[1].n)
  }

  function DescriptorBytes(d: Value): bytes
    requires DescriptorValid(d)
  {
    if d.tag == 0 then Leb128.Encode(0) + IntBytes(ZigzagI32, d.payload[0].n)
    else Leb128.Encode(1) + (SizedBytes(KindName(d.tag)) + DescribedBytes(d))
  }

  predicate CountInRange(n: int)
    ensures 0 <= n <= 64 ==> InRange(ZigzagI32, n)
  {
    Pow2Of32And64();
    0 <= n <= 64
  }

  function IngredientBytes(v: Value): bytes
    requires IngredientValid(v)
  {
    assert CountInRange(v.fields[1].n);
    DescriptorBytes(v.fields[0]) + IntBytes(ZigzagI32, v.fields[1].n)
  }

  predicate IngredientFits(v: Value, L: Limits)
    requires IngredientValid(v)
  {
    var d := v.fields[0];
    d.tag != 0 ==> |KindName(d.tag)| <= L.maxStringBytes && |d.payload[0].raw| <= L.maxStringBytes
  }

  // ---- lemmas ----

  lemma SizedIff(bs: bytes, raw: bytes, rest: bytes, limit: nat)
    ensures ReadSized(bs, limit) == Ok(raw, rest)
       <==> |raw| <= U32_MAX && |raw| <= limit && bs == SizedBytes(raw) + rest
    ensures |raw| <= U32_MAX && |raw| > limit && bs == SizedBytes(raw) + rest ==> ReadLength(bs, limit) == Fail(LimitExceeded)
    ensures |raw| <= U32_MAX && |raw| <= limit && bs == SizedBytes(raw) + rest ==> ReadLength(bs, limit) == Ok(|raw|, raw + rest)
  {
    hide Leb128.Encode, Leb128.DecodeU32;
    if ReadSized(bs, limit) == Ok(raw, rest) {
      var Ok(n, r) := ReadLength(bs, limit);
      Leb128.U32Bijection(bs, n, r);
      assert r == raw + rest;
    }
    if |raw| <= U32_MAX && bs == SizedBytes(raw) + rest {
      var r := raw + rest;
      assert bs == Leb128.Encode(|raw|) + r;
      Leb128.U32Bijection(bs, |raw|, r);
      assert r[..|raw|] == raw && r[|raw|..] == rest;
    }
    assert (SizedBytes(raw) + rest) == Leb128.Encode(|raw|) + (raw + rest);
  }

  lemma StringIff(bs: bytes, raw: bytes, rest: bytes, L: Limits)
    ensures ReadString(bs, L) == Ok(raw, rest)
       <==> StringOk(raw) && |raw| <= L.maxStringBytes && bs == SizedBytes(raw) + rest
    ensures StringOk(raw) && |raw| > L.maxStringBytes && bs == SizedBytes(raw) + rest ==> ReadString(bs, L) == Fail(LimitExceeded)
  {
    SizedIff(bs, raw, rest, L.maxStringBytes);
  }

  lemma DescribedExact(kind: int, bs: bytes, L: Limits)
    requires 1 <= kind <= 3 && ReadDescribed(kind, bs, L).Ok?
    ensures var Ok(d, rest) := ReadDescribed(kind, bs, L);
      && DescriptorValid(d) && d.tag == kind && |d.payload[0].raw| <= L.maxStringBytes
      && bs == DescribedBytes(d) + rest
  {
    var Ok(text, r) := ReadString(bs, L);
    StringIff(bs, text, r, L);
    var Ok(n, rest) := ReadInt(TailKind(kind), r);
    IntBijection(TailKind(kind), r, n, rest);
  }

  lemma DescribedBack(d: Value, rest: bytes, L: Limits)
    requires DescriptorValid(d) && d.tag != 0
    ensures ReadDescribed(d.tag, DescribedBytes(d) + rest, L)
         == if |d.payload[0].raw| <= L.maxStringBytes then Ok(d, rest) else Fail(LimitExceeded)
  {
    var tail := IntBytes(TailKind(d.tag), d.payload[1].n) + rest;
    var bs := DescribedBytes(d) + rest;
    assert bs == SizedBytes(d.payload[0].raw) + tail;
    StringIff(bs, d.payload[0].raw, tail, L);
    IntBijection(TailKind(d.tag), tail, d.payload[1].n, rest);
    assert d.payload == [d.payload[0], d.payload[1]];
  }

  lemma NamedExact(bs: bytes, L: Limits)
    requires ReadNamed(bs, L).Ok?
    ensures var Ok(d, rest) := ReadNamed(bs, L);
      && DescriptorValid(d) && d.tag != 0 && bs == SizedBytes(KindName(d.tag)) + DescribedBytes(d) + rest
      && |KindName(d.tag)| <= L.maxStringBytes && |d.payload[0].raw| <= L.maxStringBytes
  {
    hide ReadDescribed, ReadInt, InRange, IntBytes, TailKind, ReadString;
    var Ok(d, rest) := ReadNamed(bs, L);
    var Ok(name, r) := ReadString(bs, L);
    StringIff(bs, name, r, L);
    DescribedExact(KindOf(name), r, L);
    assert bs == SizedBytes(name) + (DescribedBytes(d) + rest);
  }

  lemma DescriptorExact(bs: bytes, L: Limits)
    requires ReadDescriptor(bs, L).Ok?
    ensures var Ok(d, rest) := ReadDescriptor(bs, L);
      && DescriptorValid(d) && bs == DescriptorBytes(d) + rest
      && (d.tag != 0 ==> |KindName(d.tag)| <= L.maxStringBytes && |d.payload[0].raw| <= L.maxStringBytes)
  {
    hide ReadNamed, DescribedBytes, SizedBytes, KindName, IntBytes, InRange, ReadInt;
    var Ok(present, r) := Leb128.DecodeU32(bs);
    Leb128.U32Bijection(bs, present, r);
    var Ok(d, rest) := ReadDescriptor(bs, L);
    if present == 0 {
      IntBijection(ZigzagI32, r, d.payload[0].n, rest);
      assert bs == DescriptorBytes(d) + rest;
    } else {
      NamedExact(r, L);
      assert bs == Leb128.Encode(1) + ((SizedBytes(KindName(d.tag)) + DescribedBytes(d)) + rest);
    }
  }

  lemma NamedBack(d: Value, rest: bytes, L: Limits)
    requires DescriptorValid(d) && d.tag != 0
    ensures ReadNamed(SizedBytes(KindName(d.tag)) + (DescribedBytes(d) + rest), L)
         == if |KindName(d.tag)| <= L.maxStringBytes && |d.payload[0].raw| <= L.maxStringBytes
            then Ok(d, rest) else Fail(LimitExceeded)
  {
    var name := KindName(d.tag);
    var r := DescribedBytes(d) + rest;
    StringIff(SizedBytes(name) + r, name, r, L);
    DescribedBack(d, rest, L);
  }

  lemma DescriptorBack(d: Value, rest: bytes, L: Limits)
    requires DescriptorValid(d)
    ensures ReadDescriptor(DescriptorBytes(d) + rest, L)
         == if d.tag != 0 && !(|KindName(d.tag)| <= L.maxStringBytes && |d.payload[0].raw| <= L.maxStringBytes)
            then Fail(LimitExceeded) else Ok(d, rest)
  {
    hide ReadNamed, DescribedBytes, SizedBytes, KindName, IntBytes, InRange, ReadInt, StringOk, TailKind, Leb128.Encode, Leb128.DecodeU32;
    var bs := DescriptorBytes(d) + rest;
    if d.tag == 0 {
      var r := IntBytes(ZigzagI32, d.payload[0].n) + rest;
      assert bs == Leb128.Encode(0) + r;
      Leb128.U32Bijection(bs, 0, r);
      IntBijection(ZigzagI32, r, d.payload[0].n, rest);
      assert d.payload == [d.payload[0]];
    } else {
      var r := SizedBytes(KindName(d.tag)) + (DescribedBytes(d) + rest);
      assert bs == Leb128.Encode(1) + r;
      Leb128.U32Bijection(bs, 1, r);
      NamedBack(d, rest, L);
    }
  }

  lemma IngredientExact(bs: bytes, L: Limits)
    requires ReadIngredient(bs, L).Ok?
    ensures var Ok(v, rest) := ReadIngredient(bs, L);
      IngredientValid(v) && IngredientFits(v, L) && bs == IngredientBytes(v) + rest
  {
    hide ReadDescriptor, DescriptorBytes, DescriptorValid, IntBytes, InRange, ReadInt;
    DescriptorExact(bs, L);
    var Ok(d, r) := ReadDescriptor(bs, L);
    var Ok(count, rest) := ReadInt(ZigzagI32, r);
    IntBijection(ZigzagI32, r, count, rest);
  }

  lemma IngredientBack(v: Value, rest: bytes, L: Limits)
    requires IngredientValid(v)
    ensures ReadIngredient(IngredientBytes(v) + rest, L)
         == if IngredientFits(v, L) then Ok(v, rest) else Fail(LimitExceeded)
  {
    assert CountInRange(v.fields[1].n);
    var r := IntBytes(ZigzagI32, v.fields[1].n) + rest;
    assert IngredientBytes(v) + rest == DescriptorBytes(v.fields[0]) + r;
    DescriptorBack(v.fields[0], r, L);
    IntBijection(ZigzagI32, r, v.fields[1].n, rest);
    assert v.fields == [v.fields[0], v.fields[1]];
  }

  lemma BoolExact(bs: bytes)
    requires ReadBool(bs).Ok?
    ensures bs == [if ReadBool(bs).value then 1 else 0] + ReadBool(bs).rest
  {
    assert Take(bs, 1) == Ok(bs[..1], bs[1..]);
    assert bs == [bs[0]] + bs[1..];
  }

  /** What a leaf reader accepts is valid, within limits, and exactly the bytes written for the value. */
  lemma LeafExact(l: Leaf, bs: bytes, L: Limits)
    requires ParseLeaf(l, bs, L).Ok?
    ensures var Ok(v, rest) := ParseLeaf(l, bs, L);
      LeafValid(l, v) && LeafFits(l, v, L) && bs == LeafBytes(l, v) + rest
  {
    var Ok(v, rest) := ParseLeaf(l, bs, L);
    match l
    case BoolLeaf => BoolExact(bs);
    case IntLeaf(k, _, _) => IntBijection(k, bs, v.n, rest);
    case FloatLeaf(size) => IntBijection(Fixed(size, false, false), bs, v.n, rest);
    case UuidLeaf => SwapHalvesTwice(bs[..16]); assert bs == bs[..16] + bs[16..];
    case StringLeaf(_, _, _) => StringIff(bs, v.raw, rest, L);
    case BytesLeaf(_, _) => SizedIff(bs, v.raw, rest, L.maxByteArrayBytes);
    case BitsetLeaf(bits) => if bits > 0 { Leb128.BitsetBijection(bs, bits, v.n, rest); }
    case IngredientLeaf => IngredientExact(bs, L);
  }

  lemma SwapHalvesAt(raw: bytes)
    requires |raw| == 16
    ensures var out := SwapHalves(raw);
      && (forall j :: 0 <= j < 8 ==> out[j] == raw[7 - j])
      && (forall j :: 8 <= j < 16 ==> out[j] == raw[23 - j])
  {
    var out, low, high := SwapHalves(raw), raw[..8], raw[8..];
    forall j | 0 <= j < 8 ensures out[j] == raw[7 - j] {
      assert out[j] == Reverse(low)[j] == low[7 - j];
    }
    forall j | 8 <= j < 16 ensures out[j] == raw[23 - j] {
      assert out[j] == Reverse(high)[j - 8] == high[15 - j];
    }
  }

  lemma SwapHalvesTwice(raw: bytes)
    requires |raw| == 16
    ensures SwapHalves(SwapHalves(raw)) == raw
  {
    var r := SwapHalves(raw);
    assert r[..8] == Reverse(raw[..8]) && r[8..] == Reverse(raw[8..]);
    ReverseTwice(raw[..8]);
    ReverseTwice(raw[8..]);
  }

  /** A valid value's bytes read back to it when the limits admit it, and break a limit otherwise. */
  lemma LeafBack(l: Leaf, v: Value, rest: bytes, L: Limits)
    requires LeafValid(l, v)
    ensures ParseLeaf(l, LeafBytes(l, v) + rest, L) == if LeafFits(l, v, L) then Ok(v, rest) else Fail(LimitExceeded)
  {
    var bs := LeafBytes(l, v) + rest;
    match l
    case BoolLeaf => assert bs[1..] == rest;
    case IntLeaf(k, _, _) => IntBijection(k, bs, v.n, rest);
    case FloatLeaf(size) => IntBijection(Fixed(size, false, false), bs, v.n, rest);
    case UuidLeaf =>
      assert bs[..16] == LeafBytes(l, v) && bs[16..] == rest;
      SwapHalvesTwice(v.raw);
    case StringLeaf(_, _, _) => StringIff(bs, v.raw, rest, L);
    case BytesLeaf(_, _) => SizedIff(bs, v.raw, rest, L.maxByteArrayBytes);
    case BitsetLeaf(bits) => Leb128.BitsetBijection(bs, bits, v.n, rest);
    case IngredientLeaf => IngredientBack(v, rest, L);
  }

  lemma DescribedRelax(kind: int, bs: bytes, L: Limits, L': Limits)
    requires L'.Relaxes(L)
    ensures ReadDescribed(kind, bs, L) == Fail(LimitExceeded) || ReadDescribed(kind, bs, L') == ReadDescribed(kind, bs, L)
  {
  }

  lemma StringRelax(bs: bytes, L: Limits, L': Limits)
    requires L'.Relaxes(L)
    ensures ReadString(bs, L) == Fail(LimitExceeded) || ReadString(bs, L') == ReadString(bs, L)
  {
  }

  lemma NamedRelax(bs: bytes, L: Limits, L': Limits)
    requires L'.Relaxes(L)
    ensures ReadNamed(bs, L) == Fail(LimitExceeded) || ReadNamed(bs, L') == ReadNamed(bs, L)
  {
    hide ReadDescribed, ReadString, KindOf;
    StringRelax(bs, L, L');
    var name := ReadString(bs, L);
    if name.Ok? { DescribedRelax(KindOf(name.value), name.rest, L, L'); }
  }

  lemma IngredientRelax(bs: bytes, L: Limits, L': Limits)
    requires L'.Relaxes(L)
    ensures ReadIngredient(bs, L) == Fail(LimitExceeded) || ReadIngredient(bs, L') == ReadIngredient(bs, L)
  {
    hide ReadNamed, ReadInt, Leb128.DecodeU32;
    var present := Leb128.DecodeU32(bs);
    if present.Ok? { NamedRelax(present.rest, L, L'); }
    assert ReadDescriptor(bs, L) == Fail(LimitExceeded) || ReadDescriptor(bs, L') == ReadDescriptor(bs, L);
  }

  /** Relaxing the limits changes nothing but the breaking of a limit. */
  lemma LeafRelax(l: Leaf, bs: bytes, L: Limits, L': Limits)
    requires L'.Relaxes(L)
    ensures ParseLeaf(l, bs, L) == Fail(LimitExceeded) || ParseLeaf(l, bs, L') == ParseLeaf(l, bs, L)
  {
    if l.IngredientLeaf? { IngredientRelax(bs, L, L'); }
  }
}
