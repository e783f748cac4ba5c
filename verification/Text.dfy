/** UTF-8 (section 4 of RFC 3629) and the reviewed string patterns. */
module Text {
  import opened Wire

  predicate Continuation(b: byte) { 0x80 <= b <= 0xBF }

  /** Length of the well-formed sequence at the front, or 0 when there is none. */
  function SequenceLength(bs: bytes): (n: nat)
    requires |bs| > 0
    ensures n <= |bs|
  {
    var b := bs[0];
    if b < 0x80 then 1
    else if |bs| >= 2 && 0xC2 <= b <= 0xDF && Continuation(bs[1]) then 2
    else if |bs| >= 3 && 0xE0 <= b <= 0xEF && Continuation(bs[1]) && Continuation(bs[2])
            && (b == 0xE0 ==> bs[1] >= 0xA0) && (b == 0xED ==> bs[1] <= 0x9F) then 3
    else if |bs| >= 4 && 0xF0 <= b <= 0xF4 && Continuation(bs[1]) && Continuation(bs[2]) && Continuation(bs[3])
            && (b == 0xF0 ==> bs[1] >= 0x90) && (b == 0xF4 ==> bs[1] <= 0x8F) then 4
    else 0
  }

  predicate Utf8(bs: bytes)
    decreases |bs|
  {
    |bs| == 0 || (SequenceLength(bs) > 0 && Utf8(bs[SequenceLength(bs)..]))
  }

  lemma {:induction false} AsciiIsUtf8(bs: bytes)
    requires forall i :: 0 <= i < |bs| ==> bs[i] < 0x80
    ensures Utf8(bs)
    decreases |bs|
  {
    if |bs| > 0 { AsciiIsUtf8(bs[1..]); }
  }

  datatype Pattern = UuidJpeg | NamespacedWord | SplineType

  predicate Digit(c: byte) { '0' as int <= c <= '9' as int }

  predicate Lower(c: byte) { 'a' as int <= c <= 'z' as int }

  predicate Word(c: byte) {
    Digit(c) || Lower(c) || 'A' as int <= c <= 'Z' as int || c == '_' as int
  }

  const JPEG: bytes := [46, 106, 112, 101, 103] // ".jpeg"
  const CATMULLROM: bytes := [99, 97, 116, 109, 117, 108, 108, 114, 111, 109]
  const LINEAR: bytes := [108, 105, 110, 101, 97, 114]

  predicate Matches(p: Pattern, bs: bytes) {
    match p
    case UuidJpeg =>
      && |bs| == 41
      && bs[36..] == JPEG
      && forall i | 0 <= i < 36 ::
           if i == 8 || i == 13 || i == 18 || i == 23 then bs[i] == '-' as int
           else Digit(bs[i]) || 'a' as int <= bs[i] <= 'f' as int
    case NamespacedWord =>
      exists colon | 0 < colon < |bs| - 1 ::
        && bs[colon] == ':' as int
        && (forall i | 0 <= i < colon :: Word(bs[i]))
        && (forall i | colon < i < |bs| :: Word(bs[i]))
    case SplineType =>
      bs == CATMULLROM || bs == LINEAR
  }
}
