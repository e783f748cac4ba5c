/** Decoded packet values. */
module Values {
  import opened Wire

  /**
   A list is either a slice of items or the validated bytes they were read from;
   `len` is its own field in both forms. An optional holds zero or one value. A
   union holds its tag and the zero or one payload of its variant.
   */
  datatype Value =
    | VBool(b: bool)
    | VInt(n: int)
    | VBytes(raw: bytes)
    | VOptional(content: seq<Value>)
    | VArray(elements: seq<Value>)
    | VStruct(fields: seq<Value>)
    | VUnion(tag: int, payload: seq<Value>)
    | VItems(len: nat, items: seq<Value>)
    | VWire(len: nat, wire: bytes)
  {
    /** Whether the value is made of other values. */
    predicate Open() {
      VOptional? || VArray? || VStruct? || VUnion? || VItems?
    }

    function Parts(): (r: seq<Value>)
      requires Open()
      ensures this decreases to r
    {
      match this
      case VOptional(xs) => xs
      case VArray(xs) => xs
      case VStruct(xs) => xs
      case VUnion(_, xs) => xs
      case VItems(_, xs) => xs
    }
  }
}
