/** The recipe ingredient on the wire, kind by kind: which name it goes by and what follows its text. */
module Ingredients {
  import opened Wire
  import opened Integers
  import opened Values
  import opened Leaves
  import opened Scalars
  import Text
  import Leb128

  function Zigzag(n: int): bytes { Leb128.Encode(if n >= 0 then 2 * n else 0 - 2 * n - 1) }

  function Sized(text: bytes): bytes { Leb128.Encode(|text|) + text }

  lemma ZigzagIs(n: int)
    requires InRange(ZigzagI32, n)
    ensures IntBytes(ZigzagI32, n) == Zigzag(n)
  {
    hide Leb128.Encode;
  }

  lemma TwoBytes(n: int)
    requires InRange(I16LE, n)
    ensures IntBytes(I16LE, n) == [n % 256, n / 256 % 256]
  {
    Pow2Plus8(0);
    Pow2Plus8(8);
    LowBytes(n, ToBits(I16LE, n));
  }

  lemma LowBytes(n: int, b: nat)
    requires b == n || b == n + 65536
    ensures ToLe(b, 2) == [n % 256, n / 256 % 256]
  {
    assert ToLe(b / 256, 1) == [b / 256 % 256] + ToLe(b / 256 / 256, 0);
    if b != n {
      Shifted(n, 256);
      Shifted(n / 256, 1);
    }
  }

  lemma Shifted(n: int, k: int)
    ensures (n + 256 * k) / 256 == n / 256 + k && (n + 256 * k) % 256 == n % 256
  {
    Divides(n + 256 * k, n / 256 + k, n % 256);
  }

  lemma Divides(n: int, q: int, r: int)
    requires n == 256 * q + r && 0 <= r < 256
    ensures n / 256 == q && n % 256 == r
  {
  }

  predicate Plain(text: string) { forall i :: 0 <= i < |text| ==> text[i] < 128 as char }

  /** The name each kind goes by. */
  function Name(kind: int): (name: string)
    ensures Plain(name) && 0 < |name| < 128
  {
    if kind == 1 then "name" else if kind == 2 then "molang" else "item_tag"
  }

  lemma NameIs(kind: int)
    requires 1 <= kind <= 3
    ensures KindName(kind) == Ascii(Name(kind)) && SizedBytes(KindName(kind)) == [|Name(kind)|] + Ascii(Name(kind))
  {
    hide Text.Utf8, Leb128.Encode;
    SameNames();
  }

  lemma SameNames()
    ensures NAME == Ascii("name") && MOLANG == Ascii("molang") && ITEM_TAG == Ascii("item_tag")
  {
  }

  /**
   An empty ingredient is a 0 and its aux value; any other a 1, the name of its kind,
   its text, and a zigzag aux value or, for molang, a version in two little-endian
   bytes. The count comes last.
   */
  lemma IngredientWritten(d: Value, count: int)
    requires IngredientValid(VStruct([d, VInt(count)]))
    ensures IngredientBytes(VStruct([d, VInt(count)])) ==
      (if d.tag == 0 then [0] + Zigzag(d.payload[0].n)
       else
         [1] + [|Name(d.tag)|] + Ascii(Name(d.tag)) + Sized(d.payload[0].raw)
         + if d.tag == 2 then [d.payload[1].n % 256, d.payload[1].n / 256 % 256] else Zigzag(d.payload[1].n))
      + Zigzag(count)
  {
    hide Leb128.Encode, InRange, IntBytes, KindName, Zigzag, Name, Text.Utf8, Ascii;
    assert CountInRange(count);
    ZigzagIs(count);
    Leb128.EncodeLast(0);
    Leb128.EncodeLast(1);
    if d.tag == 0 {
      ZigzagIs(d.payload[0].n);
    } else {
      NameIs(d.tag);
      if d.tag == 2 { TwoBytes(d.payload[1].n); } else { ZigzagIs(d.payload[1].n); }
      Regroup([1], [|Name(d.tag)|] + Ascii(Name(d.tag)), Sized(d.payload[0].raw), IntBytes(TailKind(d.tag), d.payload[1].n));
    }
  }

  lemma Regroup(a: bytes, b: bytes, c: bytes, d: bytes)
    ensures a + (b + (c + d)) == a + b + c + d
  {
  }

  /** A first number above 1 is an unknown ingredient. */
  lemma UnknownPresence(n: nat, rest: bytes, L: Limits)
    requires 1 < n <= U32_MAX
    ensures ReadIngredient(Leb128.Encode(n) + rest, L) == Fail(InvalidEnum)
  {
    hide Leb128.Encode, Leb128.DecodeU32, ReadNamed, ReadInt;
    Leb128.U32Bijection(Leb128.Encode(n) + rest, n, rest);
  }

  /** So is a name of no kind. */
  lemma UnknownName(name: bytes, rest: bytes, L: Limits)
    requires StringOk(name) && |name| <= L.maxStringBytes && forall kind :: 1 <= kind <= 3 ==> name != Ascii(Name(kind))
    ensures ReadIngredient([1] + Sized(name) + rest, L) == Fail(InvalidEnum)
  {
    hide Leb128.Encode, Leb128.DecodeU32, ReadNamed, ReadInt, KindName, Name, Ascii, Text.Utf8;
    Leb128.EncodeLast(1);
    var tail := Sized(name) + rest;
    assert [1] + Sized(name) + rest == Leb128.Encode(1) + tail;
    Leb128.U32Bijection(Leb128.Encode(1) + tail, 1, tail);
    NoKind(name, rest, L);
  }

  lemma NoKind(name: bytes, rest: bytes, L: Limits)
    requires StringOk(name) && |name| <= L.maxStringBytes && forall kind :: 1 <= kind <= 3 ==> name != Ascii(Name(kind))
    ensures ReadNamed(Sized(name) + rest, L) == Fail(InvalidEnum)
  {
    hide Leb128.Encode, ReadString, ReadDescribed, KindName, Name, Ascii, Text.Utf8;
    StringIff(Sized(name) + rest, name, rest, L);
    NameIs(1);
    NameIs(2);
    NameIs(3);
  }

  /** A count outside 0 to 64 is invalid. */
  lemma CountRefused(count: int, bs: bytes, rest: bytes, L: Limits)
    requires ReadDescriptor(bs, L).Ok? && ReadInt(ZigzagI32, ReadDescriptor(bs, L).rest) == Ok(count, rest)
    ensures ReadIngredient(bs, L) ==
      if 0 <= count <= 64 then Ok(VStruct([ReadDescriptor(bs, L).value, VInt(count)]), rest) else Fail(InvalidValue)
  {
    hide ReadDescriptor, ReadInt;
  }
}
