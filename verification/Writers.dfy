/**
 The stateful writer, and the counting writer that measures with the same code.
 `out` is what has been written so far, which a real writer also holds in its
 buffer.
 */
module Writers {
  import opened Wire
  import opened Integers
  import opened Text
  import opened Leaves
  import opened Schemas
  import opened Shapes
  import Leb128

  datatype EncodeError = NoSpaceLeft | InvalidValue

  datatype Status = Done | Failed(error: EncodeError)

  /** Writing `bs` with `room` left: all of it, or too little room and at most a part of it. */
  predicate Puts(st: Status, bs: bytes, room: int, before: bytes, after: bytes) {
    && before <= after
    && if |bs| <= room then st == Done && after == before + bs else st == Failed(NoSpaceLeft)
  }

  /** As above for an encoding that may be refused. */
  predicate Emits(st: Status, enc: Option<bytes>, room: int, before: bytes, after: bytes) {
    match enc
    case Some(bs) => Puts(st, bs, room, before, after)
    case None => st.Failed? && before <= after
  }

  class Writer {
    const counting: bool
    const buffer: array<byte>
    var cursor: nat
    var depth: nat
    ghost var out: bytes

    ghost predicate Valid()
      reads this, buffer
    {
      && cursor == |out| <= Capacity()
      && (!counting ==> buffer.Length <= USIZE_MAX && buffer[..cursor] == out)
    }

    function Capacity(): nat { if counting then USIZE_MAX else buffer.Length }

    /** Bytes not yet written are as they were. */
    twostate predicate TailKept()
      reads this, buffer
    {
      && (counting ==> buffer[..] == old(buffer[..]))
      && forall i :: cursor <= i < buffer.Length ==> buffer[i] == old(buffer[i])
    }

    constructor (buffer: array<byte>)
      requires buffer.Length <= USIZE_MAX
      ensures !counting && this.buffer == buffer && cursor == 0 && depth == 0 && out == [] && Valid()
    {
      counting := false;
      this.buffer := buffer;
      cursor, depth, out := 0, 0, [];
    }

    constructor Counting()
      ensures counting && cursor == 0 && depth == 0 && out == [] && Valid() && fresh(buffer)
    {
      counting := true;
      buffer := new byte[0];
      cursor, depth, out := 0, 0, [];
    }

    method WriteRaw(bs: bytes) returns (st: Status)
      requires Valid()
      modifies this`cursor, this`out, buffer
      ensures Valid() && TailKept()
      ensures Puts(st, bs, Capacity() - old(cursor), old(out), out)
      ensures st.Failed? ==> cursor == old(cursor)
    {
      if |bs| > Capacity() - cursor { return Failed(NoSpaceLeft); }
      if !counting {
        forall i | 0 <= i < |bs| { buffer[cursor + i] := bs[i]; }
        assert buffer[..cursor] == out;
        assert buffer[..cursor + |bs|] == out + bs;
      }
      cursor := cursor + |bs|;
      out := out + bs;
      return Done;
    }

    method WriteU8(b: byte) returns (st: Status)
      requires Valid()
      modifies this`cursor, this`out, buffer
      ensures Valid() && TailKept()
      ensures Puts(st, [b], Capacity() - old(cursor), old(out), out)
    {
      if Capacity() - cursor == 0 { return Failed(NoSpaceLeft); }
      if !counting {
        buffer[cursor] := b;
        assert buffer[..cursor] == out;
        assert buffer[..cursor + 1] == out + [b];
      }
      cursor := cursor + 1;
      out := out + [b];
      return Done;
    }

    /** The varint loop: seven bits a byte while more remain. */
    method WriteVar(value: nat) returns (st: Status)
      requires Valid()
      modifies this`cursor, this`out, buffer
      ensures Valid() && TailKept()
      ensures Puts(st, Leb128.Encode(value), Capacity() - old(cursor), old(out), out)
    {
      hide Leb128.Encode;
      var v := value;
      ghost var done: bytes := [];
      while v >= 0x80
        invariant Valid() && TailKept() && cursor >= old(cursor)
        invariant out == old(out) + done
        invariant done + Leb128.Encode(v) == Leb128.Encode(value)
      {
        Leb128.EncodeStep(done, v);
        var low: byte, high: nat := v % 128 + 128, v / 128;
        st := WriteU8(low);
        if st.Failed? { return; }
        done := done + [low];
        v := high;
      }
      Leb128.EncodeLast(v);
      st := WriteU8(v);
    }

    method WriteInt(k: IntKind, v: int) returns (st: Status)
      requires Valid() && InRange(k, v)
      modifies this`cursor, this`out, buffer
      ensures Valid() && TailKept()
      ensures Puts(st, IntBytes(k, v), Capacity() - old(cursor), old(out), out)
    {
      if k.Fixed? { st := WriteRaw(IntBytes(k, v)); } else { st := WriteVar(ToBits(k, v)); }
    }

    method WriteByteArray(raw: bytes) returns (st: Status)
      requires Valid()
      modifies this`cursor, this`out, buffer
      ensures Valid() && TailKept()
      ensures Emits(st, if |raw| <= U32_MAX then Some(SizedBytes(raw)) else None, Capacity() - old(cursor), old(out), out)
    {
      if |raw| > U32_MAX { return Failed(EncodeError.InvalidValue); }
      st := WriteVar(|raw|);
      if st.Failed? { return; }
      st := WriteRaw(raw);
    }

    method WriteString(raw: bytes) returns (st: Status)
      requires Valid()
      modifies this`cursor, this`out, buffer
      ensures Valid() && TailKept()
      ensures Emits(st, if StringOk(raw) then Some(SizedBytes(raw)) else None, Capacity() - old(cursor), old(out), out)
    {
      if !Utf8(raw) { return Failed(EncodeError.InvalidValue); }
      st := WriteByteArray(raw);
    }

    method WriteCount(p: CountPrefix, count: nat) returns (st: Status)
      requires Valid()
      modifies this`cursor, this`out, buffer
      ensures Valid() && TailKept()
      ensures Emits(st, if Counted(p, count) then Some(IntBytes(PrefixKind(p), count)) else None,
                    Capacity() - old(cursor), old(out), out)
    {
      if count > U32_MAX { return Failed(EncodeError.InvalidValue); }
      assert Counted(p, count);
      st := WriteInt(PrefixKind(p), count);
    }

    method WriteUuid(raw: bytes) returns (st: Status)
      requires Valid() && |raw| == 16
      modifies this`cursor, this`out, buffer
      ensures Valid() && TailKept()
      ensures Puts(st, SwapHalves(raw), Capacity() - old(cursor), old(out), out)
    {
      var wire: bytes := seq(16, _ => 0);
      for i := 0 to 8
        invariant |wire| == 16
        invariant forall j :: 0 <= j < i ==> wire[j] == raw[7 - j]
        invariant forall j :: 8 <= j < 8 + i ==> wire[j] == raw[23 - j]
      {
        wire := wire[i := raw[7 - i]];
        wire := wire[i + 8 := raw[15 - i]];
      }
      SwapHalvesAt(raw);
      assert wire == SwapHalves(raw);
      st := WriteRaw(wire);
    }

    method Enter() returns (st: Status)
      modifies this`depth
      ensures if old(depth) >= MAX_SUPPORTED_DEPTH then st == Failed(EncodeError.InvalidValue) && depth == old(depth)
              else st == Done && depth == old(depth) + 1
    {
      if depth >= MAX_SUPPORTED_DEPTH { return Failed(EncodeError.InvalidValue); }
      depth := depth + 1;
      return Done;
    }

    method Leave()
      requires depth > 0
      modifies this`depth
      ensures depth == old(depth) - 1
    {
      depth := depth - 1;
    }
  }
}
