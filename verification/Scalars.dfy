/** UTF-8 by its scalar values: what validation accepts is exactly what encoding them gives. */
module Scalars {
  import opened Wire
  import opened Text

  /** A Unicode scalar value: no surrogate (section 3 of RFC 3629). */
  predicate Scalar(v: nat) { v <= 0x10FFFF && !(0xD800 <= v <= 0xDFFF) }

  /** A byte that carries the low six bits. */
  function Trailing(v: nat): byte { 0x80 + v % 64 }

  /** The bytes of one scalar value, from the table of section 3 of RFC 3629. */
  function EncodeScalar(v: nat): (r: bytes)
    requires Scalar(v)
    ensures |r| > 0
  {
    if v < 0x80 then [v]
    else if v < 0x800 then [0xC0 + v / 64, Trailing(v)]
    else if v < 0x1_0000 then [0xE0 + v / 4096, Trailing(v / 64), Trailing(v)]
    else [0xF0 + v / 262144, Trailing(v / 4096), Trailing(v / 64), Trailing(v)]
  }

  predicate AllScalars(vs: seq<nat>) { forall i :: 0 <= i < |vs| ==> Scalar(vs[i]) }

  function EncodeScalars(vs: seq<nat>): bytes
    requires AllScalars(vs)
  {
    if |vs| == 0 then [] else EncodeScalar(vs[0]) + EncodeScalars(vs[1..])
  }

  /** The scalar value that a well-formed sequence at the front stands for. */
  function FirstScalar(bs: bytes): nat
    requires |bs| > 0 && SequenceLength(bs) > 0
  {
    var n, a: int := SequenceLength(bs), bs[0];
    if n == 1 then a
    else
      var b: int := bs[1] - 0x80;
      if n == 2 then (a - 0xC0) * 64 + b
      else
        var c: int := bs[2] - 0x80;
        if n == 3 then (a - 0xE0) * 4096 + b * 64 + c else (a - 0xF0) * 262144 + b * 4096 + c * 64 + (bs[3] - 0x80)
  }

  /** A well-formed sequence is the encoding of its scalar value. */
  lemma SequenceIs(bs: bytes)
    requires |bs| > 0 && SequenceLength(bs) > 0
    ensures Scalar(FirstScalar(bs)) && EncodeScalar(FirstScalar(bs)) == bs[..SequenceLength(bs)]
  {
    var n, v, a: int := SequenceLength(bs), FirstScalar(bs), bs[0];
    if n == 4 {
      FourIs(bs);
    } else if n >= 2 {
      var b: int := bs[1] - 0x80;
      if n == 2 {
        Split(v, a - 0xC0, b);
      } else {
        var c: int := bs[2] - 0x80;
        Split(v, (a - 0xE0) * 64 + b, c);
        Split(v / 64, a - 0xE0, b);
      }
    }
  }

  lemma FourIs(bs: bytes)
    requires |bs| > 0 && SequenceLength(bs) == 4
    ensures Scalar(FirstScalar(bs)) && EncodeScalar(FirstScalar(bs)) == bs[..4]
  {
    var v, a: int, b: int, c: int := FirstScalar(bs), bs[0], bs[1] - 0x80, bs[2] - 0x80;
    Split(v, (a - 0xF0) * 4096 + b * 64 + c, bs[3] - 0x80);
    Split(v / 64, (a - 0xF0) * 64 + b, c);
    Split(v / 4096, a - 0xF0, b);
  }

  lemma Split(v: nat, high: nat, low: nat)
    requires v == high * 64 + low && low < 64
    ensures v / 64 == high && v % 64 == low && v / 4096 == high / 64 && v / 262144 == high / 4096
  {
  }

  /** And every encoding is a well-formed sequence, whatever follows it. */
  lemma EncodingIs(v: nat, rest: bytes)
    requires Scalar(v)
    ensures var e := EncodeScalar(v);
      SequenceLength(e + rest) == |e| && FirstScalar(e + rest) == v && (e + rest)[..|e|] == e && (e + rest)[|e|..] == rest
  {
    assert v == v / 64 * 64 + v % 64;
    if v >= 0x800 { assert v / 64 == v / 4096 * 64 + v / 64 % 64; }
    if v >= 0x1_0000 { assert v / 4096 == v / 262144 * 64 + v / 4096 % 64; }
  }

  /** Validation accepts a string exactly when it is the encoding of some scalar values. */
  lemma {:induction false} Utf8Is(bs: bytes)
    ensures Utf8(bs) <==> exists vs :: AllScalars(vs) && EncodeScalars(vs) == bs
    decreases |bs|
  {
    hide SequenceLength, EncodeScalar, Scalar, FirstScalar;
    if Utf8(bs) {
      var vs := Decoded(bs);
      assert AllScalars(vs) && EncodeScalars(vs) == bs;
    }
    forall vs | AllScalars(vs) && EncodeScalars(vs) == bs ensures Utf8(bs) { EncodedIsUtf8(vs); }
  }

  lemma {:induction false} Decoded(bs: bytes) returns (vs: seq<nat>)
    requires Utf8(bs)
    ensures AllScalars(vs) && EncodeScalars(vs) == bs
    decreases |bs|
  {
    hide SequenceLength, EncodeScalar, Scalar, FirstScalar;
    if |bs| == 0 {
      vs := [];
    } else {
      SequenceIs(bs);
      var rest := Decoded(bs[SequenceLength(bs)..]);
      vs := [FirstScalar(bs)] + rest;
      assert vs[1..] == rest;
      assert bs == bs[..SequenceLength(bs)] + bs[SequenceLength(bs)..];
    }
  }

  lemma {:induction false} EncodedIsUtf8(vs: seq<nat>)
    requires AllScalars(vs)
    ensures Utf8(EncodeScalars(vs))
  {
    hide SequenceLength, EncodeScalar, Scalar, FirstScalar;
    if |vs| > 0 {
      EncodingIs(vs[0], EncodeScalars(vs[1..]));
      EncodedIsUtf8(vs[1..]);
    }
  }

  /** No string is the encoding of two sequences of scalar values. */
  lemma {:induction false} ScalarsUnique(vs: seq<nat>, ws: seq<nat>)
    requires AllScalars(vs) && AllScalars(ws) && EncodeScalars(vs) == EncodeScalars(ws)
    ensures vs == ws
  {
    hide SequenceLength, EncodeScalar, Scalar, FirstScalar;
    if |vs| > 0 && |ws| > 0 {
      EncodingIs(vs[0], EncodeScalars(vs[1..]));
      EncodingIs(ws[0], EncodeScalars(ws[1..]));
      ScalarsUnique(vs[1..], ws[1..]);
      assert vs == [vs[0]] + vs[1..] && ws == [ws[0]] + ws[1..];
    }
  }

  // ---- the reviewed patterns, as their regular expressions read ----

  /** The bytes of ASCII text. */
  function Ascii(text: string): bytes
    requires forall i :: 0 <= i < |text| ==> text[i] < 128 as char
  {
    seq(|text|, i requires 0 <= i < |text| => text[i] as int)
  }

  predicate Hex(bs: bytes) { forall i :: 0 <= i < |bs| ==> 48 <= bs[i] <= 57 || 97 <= bs[i] <= 102 }

  predicate WordBytes(bs: bytes) {
    && |bs| > 0
    && forall i :: 0 <= i < |bs| ==> 48 <= bs[i] <= 57 || 65 <= bs[i] <= 90 || 97 <= bs[i] <= 122 || bs[i] == 95
  }

  lemma HexAt(bs: bytes, lo: nat, hi: nat)
    requires lo <= hi <= |bs| && Hex(bs[lo..hi])
    ensures forall i :: lo <= i < hi ==> 48 <= bs[i] <= 57 || 97 <= bs[i] <= 102
  {
    forall i | lo <= i < hi ensures 48 <= bs[i] <= 57 || 97 <= bs[i] <= 102 { assert bs[i] == bs[lo..hi][i - lo]; }
  }

  lemma WordAt(bs: bytes, lo: nat, hi: nat)
    requires lo < hi <= |bs| && WordBytes(bs[lo..hi])
    ensures forall i :: lo <= i < hi ==> Word(bs[i])
  {
    forall i | lo <= i < hi ensures Word(bs[i]) { assert bs[i] == bs[lo..hi][i - lo]; }
  }

  /** Eight, four, four, four and twelve hexadecimal digits with dashes between, and the extension. */
  predicate UuidFile(bs: bytes, a: bytes, b: bytes, c: bytes, d: bytes, e: bytes) {
    && |a| == 8 && |b| == |c| == |d| == 4 && |e| == 12 && Hex(a) && Hex(b) && Hex(c) && Hex(d) && Hex(e)
    && bs == a + Ascii("-") + b + Ascii("-") + c + Ascii("-") + d + Ascii("-") + e + Ascii(".jpeg")
  }

  /** `[0-9a-f]{8}-[0-9a-f]{4}-[0-9a-f]{4}-[0-9a-f]{4}-[0-9a-f]{12}\.jpeg` */
  lemma UuidJpegIs(bs: bytes)
    ensures Matches(UuidJpeg, bs) <==> exists a, b, c, d, e :: UuidFile(bs, a, b, c, d, e)
  {
    hide UuidFile;
    if Matches(UuidJpeg, bs) { UuidGroups(bs); }
    forall a, b, c, d, e | UuidFile(bs, a, b, c, d, e) ensures Matches(UuidJpeg, bs) { UuidMatches(bs, a, b, c, d, e); }
  }

  lemma UuidGroups(bs: bytes)
    requires Matches(UuidJpeg, bs)
    ensures UuidFile(bs, bs[..8], bs[9..13], bs[14..18], bs[19..23], bs[24..36])
  {
    assert bs[8] == 45 && bs[13] == 45 && bs[18] == 45 && bs[23] == 45;
    assert bs[36..] == Ascii(".jpeg");
  }

  lemma UuidMatches(bs: bytes, a: bytes, b: bytes, c: bytes, d: bytes, e: bytes)
    requires UuidFile(bs, a, b, c, d, e)
    ensures Matches(UuidJpeg, bs)
  {
    assert bs[36..] == Ascii(".jpeg") == JPEG;
    assert bs[0..8] == a && bs[9..13] == b && bs[14..18] == c && bs[19..23] == d && bs[24..36] == e;
    HexAt(bs, 0, 8);
    HexAt(bs, 9, 13);
    HexAt(bs, 14, 18);
    HexAt(bs, 19, 23);
    HexAt(bs, 24, 36);
    assert bs[8] == 45 && bs[13] == 45 && bs[18] == 45 && bs[23] == 45;
  }

  /** `\w+:\w+` with ASCII word characters. */
  lemma NamespacedWordIs(bs: bytes)
    ensures Matches(NamespacedWord, bs) <==> exists a, b :: WordBytes(a) && WordBytes(b) && bs == a + Ascii(":") + b
  {
    hide WordBytes, Ascii;
    if Matches(NamespacedWord, bs) {
      var colon := WordParts(bs);
      assert WordBytes(bs[..colon]) && WordBytes(bs[colon + 1..]) && bs == bs[..colon] + Ascii(":") + bs[colon + 1..];
    }
    forall a, b | WordBytes(a) && WordBytes(b) && bs == a + Ascii(":") + b ensures Matches(NamespacedWord, bs) {
      WordMatches(bs, a, b);
    }
  }

  lemma WordParts(bs: bytes) returns (colon: nat)
    requires Matches(NamespacedWord, bs)
    ensures colon < |bs| && WordBytes(bs[..colon]) && WordBytes(bs[colon + 1..]) && bs == bs[..colon] + Ascii(":") + bs[colon + 1..]
  {
    colon :| 0 < colon < |bs| - 1 && bs[colon] == 58
      && (forall i | 0 <= i < colon :: Word(bs[i])) && forall i | colon < i < |bs| :: Word(bs[i]);
    assert Ascii(":") == [bs[colon]];
  }

  lemma WordMatches(bs: bytes, a: bytes, b: bytes)
    requires WordBytes(a) && WordBytes(b) && bs == a + Ascii(":") + b
    ensures Matches(NamespacedWord, bs)
  {
    hide Word;
    var colon := |a|;
    assert bs[colon] == 58 && bs[0..colon] == a && bs[colon + 1..|bs|] == b;
    WordAt(bs, 0, colon);
    WordAt(bs, colon + 1, |bs|);
  }

  /** `(?:catmullrom|linear)` */
  lemma SplineTypeIs(bs: bytes)
    ensures Matches(SplineType, bs) <==> bs == Ascii("catmullrom") || bs == Ascii("linear")
  {
    assert Ascii("catmullrom") == CATMULLROM && Ascii("linear") == LINEAR;
  }
}
