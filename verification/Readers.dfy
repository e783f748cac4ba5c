/**
 The stateful reader: a cursor over immutable input and a depth counter. Every
 method is proved against the function of the remaining input it stands for.
 */
module Readers {
  import opened Wire
  import opened Integers
  import opened Text
  import opened Leaves
  import opened Schemas
  import opened Shapes
  import Leb128

  datatype Read<+T> = Got(value: T) | Bad(error: DecodeError)

  /** The outcome of a method, and the input it left, are those of the function `p` is the value of. */
  predicate Reads<T(==)>(p: Parsed<T>, res: Read<T>, after: bytes) {
    match p
    case Ok(v, rest) => res == Got(v) && after == rest
    case Fail(e) => res == Bad(e)
  }

  class Reader {
    const input: bytes
    const limits: Limits
    var cursor: nat
    var depth: nat

    predicate Valid()
      reads this
    {
      cursor <= |input| <= USIZE_MAX
    }

    function Rest(): bytes
      requires Valid()
      reads this
    {
      input[cursor..]
    }

    /** A reader over bytes that need no check, as list iterators make it. */
    constructor Over(input: bytes, limits: Limits)
      requires |input| <= USIZE_MAX
      ensures this.input == input && this.limits == limits && cursor == 0 && depth == 0 && Valid()
    {
      this.input := input;
      this.limits := limits;
      cursor, depth := 0, 0;
    }

    method Take(count: nat) returns (res: Read<bytes>)
      requires Valid()
      modifies this`cursor
      ensures Valid() && cursor >= old(cursor)
      ensures Reads(Integers.Take(old(Rest()), count), res, Rest())
      ensures res.Bad? ==> cursor == old(cursor)
    {
      if count > |input| - cursor { return Bad(EndOfStream); }
      var start := cursor;
      cursor := cursor + count;
      assert input[start..cursor] == old(Rest())[..count] && Rest() == old(Rest())[count..];
      return Got(input[start..cursor]);
    }

    method ReadU8() returns (res: Read<byte>)
      requires Valid()
      modifies this`cursor
      ensures Valid() && cursor >= old(cursor)
      ensures if |old(Rest())| == 0 then res == Bad(EndOfStream) && cursor == old(cursor)
              else res == Got(old(Rest())[0]) && Rest() == old(Rest())[1..] && cursor == old(cursor) + 1
    {
      var one := Take(1);
      match one
      case Bad(e) => return Bad(e);
      case Got(raw) => return Got(raw[0]);
    }

    method ReadBool() returns (res: Read<bool>)
      requires Valid()
      modifies this`cursor
      ensures Valid() && cursor >= old(cursor)
      ensures Reads(Leaves.ReadBool(old(Rest())), res, Rest())
    {
      var byte := ReadU8();
      match byte
      case Bad(e) => return Bad(e);
      case Got(b) =>
        if b == 0 { return Got(false); }
        if b == 1 { return Got(true); }
        return Bad(InvalidBoolean);
    }

    /**
     The varint loop: seven bits a byte, from byte 0 to at most `n`, the last one
     below `top`; `value` collects what has been read so far.
     */
    method ReadVar(n: nat, top: nat) returns (res: Read<nat>)
      requires Valid()
      modifies this`cursor
      ensures Valid() && cursor >= old(cursor)
      ensures Reads(Leb128.Decode(old(Rest()), 0, n, top), res, Rest())
    {
      var value, weight, index := 0, 1, 0;
      ghost var start := Rest();
      while index < n
        invariant index <= n && Valid() && cursor >= old(cursor) && value >= 0 && weight >= 0
        invariant Leb128.Decode(start, 0, n, top) == Collected(value, weight, Leb128.Decode(Rest(), index, n, top))
      {
        ghost var here := Rest();
        ghost var tail := if |here| > 0 then Leb128.Decode(here[1..], index + 1, n, top) else Fail(EndOfStream);
        var next := ReadU8();
        if next.Bad? { return Bad(next.error); }
        var byte := next.value;
        if index == n - 1 && byte >= top { return Bad(VarIntOverflow); }
        if byte < 128 {
          if index != 0 && byte == 0 { return Bad(NonCanonicalVarInt); }
          return Got(value + weight * byte);
        }
        CollectMore(value, weight, byte, tail);
        value := value + weight * (byte - 128);
        weight := weight * 128;
        index := index + 1;
      }
      return Bad(VarIntOverflow);
    }

    method ReadBitset(bits: nat) returns (res: Read<nat>)
      requires Valid()
      modifies this`cursor
      ensures Valid() && cursor >= old(cursor)
      ensures Reads(Leb128.DecodeBitset(old(Rest()), bits), res, Rest())
    {
      res := ReadVar(Leb128.BitsetBytes(bits), 256);
      if res.Got? && res.value >= Leb128.Pow2(bits) { return Bad(VarIntOverflow); }
    }

    method ReadBits(k: IntKind) returns (res: Read<nat>)
      requires Valid()
      modifies this`cursor
      ensures Valid() && cursor >= old(cursor)
      ensures Reads(Integers.ReadBits(k, old(Rest())), res, Rest())
    {
      match k
      case Fixed(size, _, big) =>
        var raw := Take(size);
        match raw {
          case Bad(e) => return Bad(e);
          case Got(bs) => return Got(FromLe(if big then Reverse(bs) else bs));
        }
      case VarU32 => res := ReadVar(5, 16);
      case VarU64 => res := ReadVar(10, 2);
      case ZigzagI32 => res := ReadVar(5, 16);
      case ZigzagI64 => res := ReadVar(10, 2);
    }

    method ReadInt(k: IntKind) returns (res: Read<int>)
      requires Valid()
      modifies this`cursor
      ensures Valid() && cursor >= old(cursor)
      ensures Reads(Integers.ReadInt(k, old(Rest())), res, Rest())
    {
      var bits := ReadBits(k);
      match bits
      case Bad(e) => return Bad(e);
      case Got(b) => return Got(FromBits(k, b));
    }

    method ReadLength(limit: nat) returns (res: Read<nat>)
      requires Valid()
      modifies this`cursor
      ensures Valid() && cursor >= old(cursor)
      ensures Reads(Leaves.ReadLength(old(Rest()), limit), res, Rest())
    {
      res := ReadVar(5, 16);
      if res.Got? && res.value > limit { return Bad(LimitExceeded); }
    }

    method ReadString() returns (res: Read<bytes>)
      requires Valid()
      modifies this`cursor
      ensures Valid() && cursor >= old(cursor)
      ensures Reads(Leaves.ReadString(old(Rest()), limits), res, Rest())
    {
      var length := ReadLength(limits.maxStringBytes);
      if length.Bad? { return Bad(length.error); }
      res := Take(length.value);
      if res.Got? && !Utf8(res.value) { return Bad(InvalidUtf8); }
    }

    /** With a schema maximum this is the bounded reader, which checks it before taking the bytes. */
    method ReadByteArray(maxLen: Option<nat>) returns (res: Read<bytes>)
      requires Valid()
      modifies this`cursor
      ensures Valid() && cursor >= old(cursor)
      ensures Reads(Leaves.ReadByteArray(old(Rest()), limits, maxLen), res, Rest())
    {
      var length := ReadLength(limits.maxByteArrayBytes);
      if length.Bad? { return Bad(length.error); }
      if maxLen.Some? && length.value > maxLen.value { return Bad(InvalidValue); }
      res := Take(length.value);
    }

    method ReadCount(p: CountPrefix) returns (res: Read<nat>)
      requires Valid()
      modifies this`cursor
      ensures Valid() && cursor >= old(cursor)
      ensures Reads(Shapes.ReadCount(p, old(Rest()), limits), res, Rest())
    {
      res := ReadBits(PrefixKind(p));
      if res.Got? && res.value > limits.maxArrayElements { return Bad(LimitExceeded); }
    }

    method ReadUuid() returns (res: Read<bytes>)
      requires Valid()
      modifies this`cursor
      ensures Valid() && cursor >= old(cursor)
      ensures if |old(Rest())| < 16 then res == Bad(EndOfStream)
              else res == Got(SwapHalves(old(Rest())[..16])) && Rest() == old(Rest())[16..]
    {
      var raw := Take(16);
      if raw.Bad? { return Bad(raw.error); }
      var src := raw.value;
      var out: bytes := seq(16, _ => 0);
      for i := 0 to 8
        invariant |out| == 16
        invariant forall j :: 0 <= j < i ==> out[j] == src[7 - j]
        invariant forall j :: 8 <= j < 8 + i ==> out[j] == src[23 - j]
      {
        out := out[i := src[7 - i]];
        out := out[i + 8 := src[15 - i]];
      }
      SwapHalvesAt(src);
      assert out == SwapHalves(src);
      return Got(out);
    }

    method Enter() returns (res: Read<()>)
      modifies this`depth
      ensures if old(depth) >= limits.maxNestingDepth then res == Bad(LimitExceeded) && depth == old(depth)
              else res == Got(()) && depth == old(depth) + 1
    {
      if depth >= limits.maxNestingDepth { return Bad(LimitExceeded); }
      depth := depth + 1;
      return Got(());
    }

    method Leave()
      requires depth > 0
      modifies this`depth
      ensures depth == old(depth) - 1
    {
      depth := depth - 1;
    }
  }

  /** What a varint loop has collected, followed by what the rest of it reads. */
  function Collected(value: nat, weight: nat, p: Parsed<nat>): Parsed<nat> {
    match p
    case Fail(e) => Fail(e)
    case Ok(v, rest) => WeightedNat(weight, v); Ok(value + weight * v, rest)
  }

  lemma WeightedNat(a: nat, b: nat)
    ensures a * b >= 0
  {
  }

  lemma CollectMore(value: nat, weight: nat, byte: byte, p: Parsed<nat>)
    requires byte >= 128
    ensures weight * (byte - 128) >= 0
    ensures p.Ok? ==> value + weight * (byte - 128 + 128 * p.value) == value + weight * (byte - 128) + weight * 128 * p.value
  {
    WeightedNat(weight, byte - 128);
    if p.Ok? { Distribute(weight, byte - 128, p.value); }
  }

  lemma Distribute(w: int, a: int, b: int)
    ensures w * (a + 128 * b) == w * a + w * 128 * b
  {
  }
}
