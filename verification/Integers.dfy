/** Fixed-width, varint and zigzag integers, on unbounded values with their ranges written out. */
module Integers {
  import opened Wire
  import opened Leb128

  /** The bytes of a fixed-width number; there is at least one. */
  type Width = w: nat | w > 0 witness 1

  datatype IntKind =
    | Fixed(size: Width, signed: bool, big: bool)
    | VarU32
    | VarU64
    | ZigzagI32
    | ZigzagI64

  const U8 := Fixed(1, false, false)
  const U32LE := Fixed(4, false, false)
  const I16LE := Fixed(2, true, false)
  const I32LE := Fixed(4, true, false)

  predicate InRange(k: IntKind, v: int) {
    match k
    case Fixed(size, signed, _) =>
      if signed then SignedRange(size, v) else 0 <= v < Pow2(8 * size)
    case VarU32 => 0 <= v <= U32_MAX
    case VarU64 => 0 <= v <= U64_MAX
    case ZigzagI32 => SignedRange(4, v)
    case ZigzagI64 => SignedRange(8, v)
  }

  predicate SignedRange(size: nat, v: int) {
    0 <= 2 * v + Pow2(8 * size) && 2 * v < Pow2(8 * size)
  }

  function FromLe(bs: bytes): nat {
    if |bs| == 0 then 0 else bs[0] + 256 * FromLe(bs[1..])
  }

  function ToLe(v: nat, size: nat): (r: bytes)
    ensures |r| == size
  {
    if size == 0 then [] else [v % 256] + ToLe(v / 256, size - 1)
  }

  function Reverse(bs: bytes): (r: bytes)
    ensures |r| == |bs|
    ensures forall i :: 0 <= i < |bs| ==> r[i] == bs[|bs| - 1 - i]
  {
    if |bs| == 0 then [] else Reverse(bs[1..]) + [bs[0]]
  }

  function Take(bs: bytes, count: nat): Parsed<bytes> {
    if count > |bs| then Fail(EndOfStream) else Ok(bs[..count], bs[count..])
  }

  /** The bit pattern on the wire, before its sign is interpreted. */
  function ReadBits(k: IntKind, bs: bytes): Parsed<nat> {
    match k
    case Fixed(size, _, big) =>
      (match Take(bs, size)
       case Fail(e) => Fail(e)
       case Ok(raw, rest) => Ok(FromLe(if big then Reverse(raw) else raw), rest))
    case VarU32 => DecodeU32(bs)
    case VarU64 => DecodeU64(bs)
    case ZigzagI32 => DecodeU32(bs)
    case ZigzagI64 => DecodeU64(bs)
  }

  function BitsBytes(k: IntKind, b: nat): bytes {
    match k
    case Fixed(size, _, big) => if big then Reverse(ToLe(b, size)) else ToLe(b, size)
    case _ => Encode(b)
  }

  /** The number of bit patterns of a kind. */
  function Patterns(k: IntKind): nat {
    match k
    case Fixed(size, _, _) => Pow2(8 * size)
    case VarU32 => U32_MAX + 1
    case VarU64 => U64_MAX + 1
    case ZigzagI32 => U32_MAX + 1
    case ZigzagI64 => U64_MAX + 1
  }

  /** Two's complement for fixed widths, zigzag for signed varints. */
  function FromBits(k: IntKind, b: nat): int {
    match k
    case Fixed(size, signed, _) => if signed && 2 * b >= Pow2(8 * size) then b - Pow2(8 * size) else b
    case VarU32 => b
    case VarU64 => b
    case ZigzagI32 => if b % 2 == 0 then b / 2 else -(b / 2) - 1
    case ZigzagI64 => if b % 2 == 0 then b / 2 else -(b / 2) - 1
  }

  function ToBits(k: IntKind, v: int): (b: nat)
    requires InRange(k, v)
  {
    match k
    case Fixed(size, _, _) => if v < 0 then v + Pow2(8 * size) else v
    case VarU32 => v
    case VarU64 => v
    case ZigzagI32 => if v < 0 then -2 * v - 1 else 2 * v
    case ZigzagI64 => if v < 0 then -2 * v - 1 else 2 * v
  }

  function ReadInt(k: IntKind, bs: bytes): Parsed<int> {
    match ReadBits(k, bs)
    case Fail(e) => Fail(e)
    case Ok(b, rest) => Ok(FromBits(k, b), rest)
  }

  function IntBytes(k: IntKind, v: int): (r: bytes)
    requires InRange(k, v)
  {
    BitsBytes(k, ToBits(k, v))
  }

  lemma {:induction false} LeBijection(bs: bytes, v: nat)
    ensures FromLe(bs) < Pow2(8 * |bs|) && ToLe(FromLe(bs), |bs|) == bs
    ensures v < Pow2(8 * |bs|) ==> FromLe(ToLe(v, |bs|)) == v
  {
    if |bs| > 0 {
      LeBijection(bs[1..], v / 256);
      Pow2Plus8(8 * |bs| - 8);
      var w := FromLe(bs);
      assert w % 256 == bs[0] && w / 256 == FromLe(bs[1..]);
      assert bs == [bs[0]] + bs[1..];
      var e := ToLe(v, |bs|);
      assert e[1..] == ToLe(v / 256, |bs| - 1);
    }
  }

  lemma Pow2Plus8(k: nat)
    ensures Pow2(k + 8) == 256 * Pow2(k)
  {
    Pow2Plus7(k + 1);
  }

  lemma ReverseTwice(bs: bytes)
    ensures Reverse(Reverse(bs)) == bs
  {
  }

  lemma Pow2Of32And64()
    ensures Pow2(8 * 4) == U32_MAX + 1 && Pow2(8 * 8) == U64_MAX + 1
  {
    Pow2Plus8(0); Pow2Plus8(8); Pow2Plus8(16); Pow2Plus8(24);
    Pow2Plus8(32); Pow2Plus8(40); Pow2Plus8(48); Pow2Plus8(56);
  }

  lemma BitsBijection(k: IntKind, bs: bytes, b: nat, rest: bytes)
    ensures ReadBits(k, bs) == Ok(b, rest) <==> b < Patterns(k) && bs == BitsBytes(k, b) + rest
  {
    match k
    case Fixed(size, _, big) => FixedBijection(k, bs, b, rest);
    case VarU32 => U32Bijection(bs, b, rest);
    case VarU64 => U64Bijection(bs, b, rest);
    case ZigzagI32 => U32Bijection(bs, b, rest);
    case ZigzagI64 => U64Bijection(bs, b, rest);
  }

  /** The bytes of a fixed-width integer in its own byte order. */
  function Ordered(big: bool, raw: bytes): (r: bytes)
    ensures |r| == |raw|
  {
    if big then Reverse(raw) else raw
  }

  lemma OrderedTwice(big: bool, raw: bytes)
    ensures Ordered(big, Ordered(big, raw)) == raw
  {
    if big { ReverseTwice(raw); }
  }

  lemma FixedRead(size: nat, big: bool, raw: bytes)
    requires |raw| == size
    ensures FromLe(Ordered(big, raw)) < Pow2(8 * size) && Ordered(big, ToLe(FromLe(Ordered(big, raw)), size)) == raw
  {
    hide Pow2, FromLe, ToLe, Ordered;
    OrderedTwice(big, raw);
    LeBijection(Ordered(big, raw), 0);
  }

  lemma FixedWritten(size: nat, big: bool, b: nat)
    requires b < Pow2(8 * size)
    ensures FromLe(Ordered(big, Ordered(big, ToLe(b, size)))) == b
  {
    hide Pow2, FromLe, ToLe, Ordered;
    OrderedTwice(big, ToLe(b, size));
    LeBijection(ToLe(b, size), b);
  }

  lemma FixedBijection(k: IntKind, bs: bytes, b: nat, rest: bytes)
    requires k.Fixed?
    ensures ReadBits(k, bs) == Ok(b, rest) <==> b < Patterns(k) && bs == BitsBytes(k, b) + rest
  {
    hide Pow2, FromLe, ToLe, Reverse;
    var size := k.size;
    assert BitsBytes(k, b) == Ordered(k.big, ToLe(b, size));
    if size <= |bs| {
      assert ReadBits(k, bs) == Ok(FromLe(Ordered(k.big, bs[..size])), bs[size..]);
      FixedRead(size, k.big, bs[..size]);
      assert bs == bs[..size] + bs[size..];
    }
    if b < Patterns(k) && bs == BitsBytes(k, b) + rest {
      FixedWritten(size, k.big, b);
      assert bs[..size] == BitsBytes(k, b) && bs[size..] == rest;
    }
  }

  /** Bit patterns and in-range values correspond one to one. */
  lemma BitsRoundTrip(k: IntKind, b: nat, v: int)
    ensures b < Patterns(k) ==> InRange(k, FromBits(k, b)) && ToBits(k, FromBits(k, b)) == b
    ensures InRange(k, v) ==> ToBits(k, v) < Patterns(k) && FromBits(k, ToBits(k, v)) == v
  {
    Pow2Of32And64();
  }

  /** Every integer kind: what is read is exactly what is written, and in range. */
  lemma IntBijection(k: IntKind, bs: bytes, v: int, rest: bytes)
    ensures ReadInt(k, bs) == Ok(v, rest) <==> InRange(k, v) && bs == IntBytes(k, v) + rest
  {
    if ReadInt(k, bs) == Ok(v, rest) {
      var b := ReadBits(k, bs).value;
      BitsBijection(k, bs, b, rest);
      BitsRoundTrip(k, b, v);
    }
    if InRange(k, v) && bs == IntBytes(k, v) + rest {
      BitsRoundTrip(k, 0, v);
      BitsBijection(k, bs, ToBits(k, v), rest);
    }
  }
}
