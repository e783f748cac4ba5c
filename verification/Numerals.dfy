/**
 Which number the bytes of an integer or a count are, by the weight of each byte,
 and what the bit patterns of signed kinds stand for.
 */
module Numerals {
  import opened Wire
  import opened Integers
  import opened Shapes
  import opened Schemas
  import Leb128

  function Power(base: nat, n: nat): (r: nat)
    ensures base > 0 ==> r > 0
  {
    if n == 0 then 1
    else
      var less := Power(base, n - 1);
      Positive(base, less);
      base * less
  }

  lemma Positive(a: nat, b: nat)
    ensures a * b >= 0 && (a > 0 && b > 0 ==> a * b > 0)
  {
  }

  lemma {:induction false} Pow2IsPower(k: nat)
    ensures Leb128.Pow2(k) == Power(2, k) && Leb128.Pow2(8 * k) == Power(256, k)
    decreases k
  {
    if k > 0 {
      Pow2IsPower(k - 1);
      Pow2Plus8(8 * k - 8);
    }
  }

  // ---- fixed widths ----

  /** The weight of byte `i` of `size`, in either byte order. */
  function Weight(big: bool, size: nat, i: nat): nat
    requires i < size
  {
    Power(256, if big then size - 1 - i else i)
  }

  /** The sum of the first `n` bytes times their weights. */
  function Weighted(big: bool, raw: bytes, n: nat): int
    requires n <= |raw|
  {
    if n == 0 then 0 else Weighted(big, raw, n - 1) + raw[n - 1] * Weight(big, |raw|, n - 1)
  }

  lemma {:induction false} FromLeSnoc(raw: bytes, b: byte)
    ensures FromLe(raw + [b]) == FromLe(raw) + b * Power(256, |raw|)
  {
    if |raw| == 0 {
      assert raw + [b] == [b] && [b][1..] == [];
    } else {
      assert (raw + [b])[1..] == raw[1..] + [b];
      FromLeSnoc(raw[1..], b);
      Shifted(b, Power(256, |raw| - 1));
    }
  }

  lemma Shifted(b: int, p: int)
    ensures 256 * (b * p) == b * (256 * p)
  {
  }

  lemma {:induction false} LittleIs(raw: bytes, n: nat)
    requires n <= |raw|
    ensures FromLe(raw[..n]) == Weighted(false, raw, n)
  {
    if n > 0 {
      LittleIs(raw, n - 1);
      FromLeSnoc(raw[..n - 1], raw[n - 1]);
      assert raw[..n] == raw[..n - 1] + [raw[n - 1]];
    }
  }

  lemma {:induction false} BigTail(raw: bytes, n: nat)
    requires 0 < n <= |raw|
    ensures Weighted(true, raw, n) == raw[0] * Weight(true, |raw|, 0) + Weighted(true, raw[1..], n - 1)
  {
    hide Weight;
    if n == 1 {
      assert Weighted(true, raw, 0) == 0;
    } else {
      BigTail(raw, n - 1);
      SameWeight(|raw|, n - 1);
    }
  }

  lemma SameWeight(size: nat, i: nat)
    requires 0 < i < size
    ensures Weight(true, size, i) == Weight(true, size - 1, i - 1)
  {
  }

  lemma {:induction false} BigIs(raw: bytes)
    ensures FromLe(Reverse(raw)) == Weighted(true, raw, |raw|)
  {
    if |raw| > 0 {
      BigIs(raw[1..]);
      BigTail(raw, |raw|);
      FromLeSnoc(Reverse(raw[1..]), raw[0]);
    }
  }

  /** The number lies in the range of so many bytes, signed or not. */
  predicate Holds(signed: bool, size: nat, v: int) {
    if signed then 0 - Power(256, size) <= 2 * v < Power(256, size) else 0 <= v < Power(256, size)
  }

  /**
   A fixed-width integer is, modulo 256 to its size, the sum of its bytes times
   their weights, and lies in its range; that leaves one number. Fewer bytes than
   its size are the end of the stream.
   */
  lemma FixedIs(k: IntKind, bs: bytes)
    requires k.Fixed?
    ensures |bs| < k.size ==> ReadInt(k, bs) == Fail(EndOfStream)
    ensures |bs| >= k.size ==> var raw := bs[..k.size];
      && ReadInt(k, bs).Ok? && ReadInt(k, bs).rest == bs[k.size..]
      && (ReadInt(k, bs).value - Weighted(k.big, raw, k.size)) % Power(256, k.size) == 0
      && Holds(k.signed, k.size, ReadInt(k, bs).value)
  {
    hide FromLe, Reverse, Weighted, Power, Leb128.Pow2;
    if |bs| >= k.size {
      var raw := bs[..k.size];
      assert raw[..k.size] == raw;
      if k.big { BigIs(raw); } else { LittleIs(raw, k.size); }
      Pow2IsPower(k.size);
      FixedRead(k.size, k.big, raw);
      var b := FromLe(Ordered(k.big, raw));
      assert ReadInt(k, bs) == Ok(FromBits(k, b), bs[k.size..]);
      Congruent(b, Power(256, k.size));
    }
  }

  lemma Congruent(b: int, p: int)
    requires p > 0
    ensures (b - b) % p == 0 && (b - p - b) % p == 0
  {
    Apart(b, b - p, p);
  }

  /** Numbers less than a modulus apart agree modulo it only when they are the same. */
  lemma Apart(a: int, b: int, p: int)
    requires p > 0
    ensures a - b == p ==> (b - a) % p == 0
    ensures (a - b) % p == 0 && -p < a - b < p ==> a == b
  {
    var d := a - b;
    assert d == p * (d / p) + d % p;
    if d == p { assert 0 - d == p * (0 - 1) + 0; }
  }

  /** Two numbers of one range that agree modulo its size are one number. */
  lemma FixedOnly(signed: bool, size: nat, v: int, w: int)
    requires Holds(signed, size, v) && Holds(signed, size, w) && (v - w) % Power(256, size) == 0
    ensures v == w
  {
    hide Power;
    Apart(v, w, Power(256, size));
  }

  /** A count of four bytes is little endian; one above the limit is refused. */
  lemma CountIs(b0: byte, b1: byte, b2: byte, b3: byte, rest: bytes, L: Limits)
    ensures var n := b0 + 256 * b1 + 65536 * b2 + 16777216 * b3;
      ReadCount(CountU32Le, [b0, b1, b2, b3] + rest, L) == if n <= L.maxArrayElements then Ok(n, rest) else Fail(LimitExceeded)
  {
    var raw, bs := [b0, b1, b2, b3], [b0, b1, b2, b3] + rest;
    assert bs[..4] == raw && bs[4..] == rest;
    FixedIs(PrefixKind(CountU32Le), bs);
    assert Power(256, 1) == 256 && Power(256, 2) == 65536 && Power(256, 3) == 16777216 && Power(256, 4) == 0x1_0000_0000;
    var n := b0 + 256 * b1 + 65536 * b2 + 16777216 * b3;
    assert Weighted(false, raw, 1) == b0 && Weighted(false, raw, 2) == b0 + b1 * 256;
    assert Weighted(false, raw, 4) == Weighted(false, raw, 3) + b3 * 16777216;
    FixedOnly(false, 4, ReadInt(PrefixKind(CountU32Le), bs).value, n);
  }

  // ---- varints ----

  /** The shortest form of a number: the high bit set on all bytes but the last, and no idle last byte. */
  predicate Form(f: bytes) {
    && |f| > 0 && f[|f| - 1] < 128 && (forall i :: 0 <= i < |f| - 1 ==> f[i] >= 128)
    && (|f| > 1 ==> f[|f| - 1] > 0)
  }

  /** The sum of the low seven bits of the first `n` bytes, byte `i` times 128 to the power `i`. */
  function Sevens(f: bytes, n: nat): nat
    requires n <= |f|
  {
    if n == 0 then 0
    else
      Positive(f[n - 1] % 128, Power(128, n - 1));
      Sevens(f, n - 1) + f[n - 1] % 128 * Power(128, n - 1)
  }

  lemma {:induction false} SevensCons(b: byte, f: bytes, n: nat)
    requires n <= |f|
    ensures Sevens([b] + f, n + 1) == b % 128 + 128 * Sevens(f, n)
  {
    var g := [b] + f;
    if n == 0 {
      assert Sevens(g, 0) == 0 && Sevens(f, 0) == 0;
    } else {
      SevensCons(b, f, n - 1);
      assert g[n] == f[n - 1];
      Distributed(f[n - 1] % 128, Power(128, n - 1), Sevens(f, n - 1));
    }
  }

  lemma Distributed(d: int, p: int, s: int)
    ensures 128 * (s + d * p) == 128 * s + d * (128 * p)
  {
  }

  /** What the writer's loop writes is the shortest form of its number. */
  lemma {:induction false} EncodeIs(v: nat)
    ensures var f := Leb128.Encode(v); Form(f) && Sevens(f, |f|) == v && (v > 0 ==> f[|f| - 1] > 0)
  {
    hide Sevens;
    var f := Leb128.Encode(v);
    if v < 128 {
      SevensCons(v, [], 0);
      NoSevens([]);
      assert [v] + [] == [v];
    } else {
      var b, g := v % 128 + 128, Leb128.Encode(v / 128);
      EncodeIs(v / 128);
      SevensCons(b, g, |g|);
      assert f == [b] + g;
      FormCons(b, g);
      HighBit(v % 128);
    }
  }

  lemma FormCons(b: byte, g: bytes)
    requires b >= 128 && Form(g) && g[|g| - 1] > 0
    ensures Form([b] + g) && ([b] + g)[|g|] > 0
  {
    var f := [b] + g;
    assert forall i :: 0 < i < |f| ==> f[i] == g[i - 1];
  }

  lemma HighBit(a: nat)
    requires a < 128
    ensures (a + 128) % 128 == a
  {
  }

  /** And the only one. */
  lemma {:induction false} FormIs(f: bytes)
    requires Form(f)
    ensures Leb128.Encode(Sevens(f, |f|)) == f && (|f| > 1 ==> Sevens(f, |f|) >= 128)
    decreases |f|
  {
    hide Sevens, Leb128.Encode;
    var b, g := f[0], f[1..];
    assert f == [b] + g;
    SevensCons(b, g, |g|);
    NoSevens(g);
    if |g| == 0 {
      Leb128.EncodeLast(b);
    } else {
      FormIs(g);
      LastPositive(g);
      EncodeStep(b, Sevens(g, |g|));
    }
  }

  lemma EncodeStep(b: byte, q: nat)
    requires b >= 128 && q > 0
    ensures Leb128.Encode(b % 128 + 128 * q) == [b] + Leb128.Encode(q)
  {
    var v := b % 128 + 128 * q;
    assert v % 128 == b % 128 && v / 128 == q;
  }

  lemma NoSevens(f: bytes)
    ensures Sevens(f, 0) == 0
  {
  }

  lemma LastPositive(f: bytes)
    requires Form(f) && f[|f| - 1] > 0
    ensures Sevens(f, |f|) > 0
  {
    Positive(f[|f| - 1] % 128, Power(128, |f| - 1));
  }

  /** A varint is read exactly from the shortest form of a number of its width. */
  lemma VarIs(wide: bool, bs: bytes, v: nat, rest: bytes)
    ensures ReadInt(if wide then VarU64 else VarU32, bs) == Ok(v, rest) <==>
      v <= (if wide then U64_MAX else U32_MAX) && exists f :: Form(f) && Sevens(f, |f|) == v && bs == f + rest
  {
    hide Leb128.Encode, Form, Sevens;
    var f := Leb128.Encode(v);
    EncodeIs(v);
    IntBijection(if wide then VarU64 else VarU32, bs, v, rest);
    forall g | Form(g) && Sevens(g, |g|) == v ensures g == f { FormIs(g); }
  }

  /** Bytes that announce another one pass on the failure of what follows. */
  lemma {:induction false} Through(g: bytes, tail: bytes, i: nat, n: nat, top: nat)
    requires i + |g| < n && forall j :: 0 <= j < |g| ==> g[j] >= 128
    requires Leb128.Decode(tail, i + |g|, n, top).Fail?
    ensures Leb128.Decode(g + tail, i, n, top) == Leb128.Decode(tail, i + |g|, n, top)
    decreases |g|
  {
    if |g| == 0 {
      assert g + tail == tail;
    } else {
      assert (g + tail)[1..] == g[1..] + tail;
      Through(g[1..], tail, i + 1, n, top);
    }
  }

  /**
   A varint that stops after announcing another byte is the end of the stream; one
   whose last byte adds nothing is not canonical; one too long or too large overflows.
   */
  lemma VarFails(wide: bool, g: bytes, last: byte, rest: bytes)
    requires forall j :: 0 <= j < |g| ==> g[j] >= 128
    requires |g| < if wide then 10 else 5
    ensures var k, n := if wide then VarU64 else VarU32, if wide then 10 else 5;
      && ReadInt(k, g) == Fail(EndOfStream)
      && (0 < |g| ==> ReadInt(k, g + ([0] + rest)) == Fail(NonCanonicalVarInt))
      && (|g| == n - 1 && last >= (if wide then 2 else 16) ==> ReadInt(k, g + ([last] + rest)) == Fail(VarIntOverflow))
  {
    var n, top := if wide then 10 else 5, if wide then 2 else 16;
    assert g + [] == g;
    Through(g, [], 0, n, top);
    if 0 < |g| { Through(g, [0] + rest, 0, n, top); }
    if |g| == n - 1 && last >= top { Through(g, [last] + rest, 0, n, top); }
  }

  /** Zigzag: even patterns are the numbers from 0 up, odd ones those from -1 down. */
  lemma ZigzagIs(wide: bool, f: bytes, rest: bytes, k: nat)
    requires Form(f) && Sevens(f, |f|) <= if wide then U64_MAX else U32_MAX
    ensures var n, read := Sevens(f, |f|), ReadInt(if wide then ZigzagI64 else ZigzagI32, f + rest);
      && (n == 2 * k ==> read == Ok(k, rest))
      && (n == 2 * k + 1 ==> read == Ok(0 - k - 1, rest))
  {
    hide Leb128.Encode, Form, Sevens, ReadBits;
    var n, kind := Sevens(f, |f|), if wide then ZigzagI64 else ZigzagI32;
    FormIs(f);
    BitsBijection(kind, f + rest, n, rest);
    Halves(kind, k);
  }

  lemma Halves(kind: IntKind, k: nat)
    requires kind.ZigzagI32? || kind.ZigzagI64?
    ensures FromBits(kind, 2 * k) == k && FromBits(kind, 2 * k + 1) == 0 - k - 1
  {
  }

  /** A bitset is read exactly from the shortest form of a number of so many bits. */
  lemma BitsetIs(bs: bytes, bits: nat, v: nat, rest: bytes)
    requires bits > 0
    ensures Leb128.DecodeBitset(bs, bits) == Ok(v, rest) <==>
      v < Power(2, bits) && exists f :: Form(f) && Sevens(f, |f|) == v && bs == f + rest
  {
    hide Leb128.Encode, Form, Sevens;
    var f := Leb128.Encode(v);
    EncodeIs(v);
    Pow2IsPower(bits);
    Leb128.BitsetBijection(bs, bits, v, rest);
    forall g | Form(g) && Sevens(g, |g|) == v ensures g == f { FormIs(g); }
  }
}
