/**
 Canonical unsigned LEB128 (section 7.6 of DWARF 5, shortest form only), as the
 reader accepts it and the writer produces it.
 */
module Leb128 {
  import opened Wire

  /** The writer's form: seven bits a byte, least significant first. */
  function Encode(v: nat): (r: bytes)
    ensures |r| >= 1
    decreases v
  {
    if v < 128 then [v] else [v % 128 + 128] + Encode(v / 128)
  }

  /**
   The reader's loop from byte `i` on: at most `n` bytes, the last one below
   `top`, no trailing zero byte.
   */
  function Decode(bs: bytes, i: nat, n: nat, top: nat): Parsed<nat>
    requires i <= n
    decreases n - i
  {
    if i == n then Fail(VarIntOverflow)
    else if |bs| == 0 then Fail(EndOfStream)
    else if i == n - 1 && bs[0] >= top then Fail(VarIntOverflow)
    else if bs[0] < 128 then
      if i != 0 && bs[0] == 0 then Fail(NonCanonicalVarInt) else Ok(bs[0], bs[1..])
    else
      match Decode(bs[1..], i + 1, n, top)
      case Fail(e) => Fail(e)
      case Ok(v, rest) => Ok(bs[0] - 128 + 128 * v, rest)
  }

  /** The first value that bytes `i` to `n` cannot hold. */
  function Cap(i: nat, n: nat, top: nat): (c: nat)
    requires i < n
    decreases n - i
  {
    if i == n - 1 then (if top < 128 then top else 128) else 128 * Cap(i + 1, n, top)
  }

  /** Whatever the reader accepts is the one form the writer gives that value. */
  lemma {:induction false} DecodeExact(bs: bytes, i: nat, n: nat, top: nat)
    requires i < n && top > 0 && Decode(bs, i, n, top).Ok?
    ensures var Ok(v, rest) := Decode(bs, i, n, top);
      bs == Encode(v) + rest && v < Cap(i, n, top) && (i != 0 ==> v > 0)
    decreases n - i
  {
    assert bs == [bs[0]] + bs[1..];
    if bs[0] < 128 {
      CapPositive(i, n, top);
    } else {
      hide Encode, Cap;
      DecodeExact(bs[1..], i + 1, n, top);
      var Ok(v, rest) := Decode(bs[1..], i + 1, n, top);
      Longer(bs[0], v, i, n, top);
      assert [bs[0]] + (Encode(v) + rest) == ([bs[0]] + Encode(v)) + rest;
    }
  }

  lemma Longer(b: nat, v: nat, i: nat, n: nat, top: nat)
    requires 128 <= b < 256 && v > 0 && i + 1 < n && v < Cap(i + 1, n, top)
    ensures var w := b - 128 + 128 * v; Encode(w) == [b] + Encode(v) && w < Cap(i, n, top)
  {
    var w := b - 128 + 128 * v;
    assert w % 128 == b - 128 && w / 128 == v;
  }

  lemma {:induction false} CapPositive(i: nat, n: nat, top: nat)
    requires i < n
    ensures top > 0 ==> Cap(i, n, top) > 0
    ensures i < n - 1 && top > 0 ==> Cap(i, n, top) >= 128
    decreases n - i
  {
    if i < n - 1 {
      CapPositive(i + 1, n, top);
    }
  }

  /** The reader takes back whatever the writer wrote, and nothing after it. */
  lemma {:induction false} DecodeBack(v: nat, t: bytes, i: nat, n: nat, top: nat)
    requires i < n && v < Cap(i, n, top) && (i != 0 ==> v > 0)
    ensures Decode(Encode(v) + t, i, n, top) == Ok(v, t)
    decreases n - i
  {
    var bs := Encode(v) + t;
    if v < 128 {
      assert bs[1..] == t;
    } else {
      var q, m := v / 128, v % 128;
      assert v == m + 128 * q && Encode(v) == [m + 128] + Encode(q);
      DecodeBack(q, t, i + 1, n, top);
      assert bs[0] == m + 128 && bs[1..] == Encode(q) + t;
    }
  }

  /** One turn of the writer's loop. */
  lemma EncodeStep(done: bytes, v: nat)
    requires v >= 128
    ensures (done + [v % 128 + 128]) + Encode(v / 128) == done + Encode(v)
  {
  }

  lemma EncodeLast(v: nat)
    requires v < 128
    ensures Encode(v) == [v]
  {
  }

  /** A 32-bit varint: five bytes, the last below 16. */
  function DecodeU32(bs: bytes): Parsed<nat> { Decode(bs, 0, 5, 16) }

  /** A 64-bit varint: ten bytes, the last below 2. */
  function DecodeU64(bs: bytes): Parsed<nat> { Decode(bs, 0, 10, 2) }

  /** The 32-bit reader accepts exactly the shortest forms of 0 to 2^32 - 1. */
  lemma U32Bijection(bs: bytes, v: nat, rest: bytes)
    ensures DecodeU32(bs) == Ok(v, rest) <==> v <= U32_MAX && bs == Encode(v) + rest
  {
    CapsAre();
    if DecodeU32(bs) == Ok(v, rest) { DecodeExact(bs, 0, 5, 16); }
    if v <= U32_MAX { DecodeBack(v, rest, 0, 5, 16); }
  }

  /** The 64-bit reader accepts exactly the shortest forms of 0 to 2^64 - 1. */
  lemma U64Bijection(bs: bytes, v: nat, rest: bytes)
    ensures DecodeU64(bs) == Ok(v, rest) <==> v <= U64_MAX && bs == Encode(v) + rest
  {
    CapsAre();
    if DecodeU64(bs) == Ok(v, rest) { DecodeExact(bs, 0, 10, 2); }
    if v <= U64_MAX { DecodeBack(v, rest, 0, 10, 2); }
  }

  lemma CapsAre()
    ensures Cap(0, 5, 16) == U32_MAX + 1
    ensures Cap(0, 10, 2) == U64_MAX + 1
  {
    assert Cap(3, 5, 16) == 2048;
    assert Cap(1, 5, 16) == 128 * Cap(2, 5, 16);
    assert Cap(8, 10, 2) == 256;
    assert Cap(6, 10, 2) == 128 * 128 * 256;
    assert Cap(4, 10, 2) == 128 * 128 * Cap(6, 10, 2);
    assert Cap(2, 10, 2) == 128 * 128 * Cap(4, 10, 2);
    assert Cap(0, 10, 2) == 128 * 128 * Cap(2, 10, 2);
  }

  // ---- bitsets ----

  function Pow2(k: nat): (r: nat)
    ensures r > 0
  {
    if k == 0 then 1 else 2 * Pow2(k - 1)
  }

  function BitsetBytes(bits: nat): nat { (bits + 6) / 7 }

  /** A bitset reader checks the width only once the last byte has been read. */
  function DecodeBitset(bs: bytes, bits: nat): Parsed<nat> {
    match Decode(bs, 0, BitsetBytes(bits), 256)
    case Fail(e) => Fail(e)
    case Ok(v, rest) => if v >= Pow2(bits) then Fail(VarIntOverflow) else Ok(v, rest)
  }

  lemma {:induction false} CapIsPow2(i: nat, n: nat)
    requires i < n
    ensures Cap(i, n, 256) == Pow2(7 * (n - i))
    decreases n - i
  {
    Pow2Plus7(7 * (n - i) - 7);
    if i < n - 1 {
      CapIsPow2(i + 1, n);
    } else {
      assert Pow2(7 * (n - i) - 7) == 1;
    }
  }

  lemma Pow2Plus7(k: nat)
    ensures Pow2(k + 7) == 128 * Pow2(k)
  {
    assert Pow2(k + 7) == 2 * Pow2(k + 6) == 4 * Pow2(k + 5);
    assert Pow2(k + 5) == 2 * Pow2(k + 4) == 4 * Pow2(k + 3);
    assert Pow2(k + 3) == 2 * Pow2(k + 2) == 4 * Pow2(k + 1);
  }

  lemma {:induction false} Pow2Monotone(a: nat, b: nat)
    requires a <= b
    ensures Pow2(a) <= Pow2(b)
    decreases b - a
  {
    if a < b { Pow2Monotone(a, b - 1); }
  }

  /** For every width, a bitset reader accepts exactly the shortest forms of the values that fit. */
  lemma BitsetBijection(bs: bytes, bits: nat, v: nat, rest: bytes)
    requires bits > 0
    ensures DecodeBitset(bs, bits) == Ok(v, rest) <==> v < Pow2(bits) && bs == Encode(v) + rest
  {
    var n := BitsetBytes(bits);
    CapIsPow2(0, n);
    Pow2Monotone(bits, 7 * n);
    if DecodeBitset(bs, bits) == Ok(v, rest) { DecodeExact(bs, 0, n, 256); }
    if v < Pow2(bits) { DecodeBack(v, rest, 0, n, 256); }
  }
}
