/** Elements of one width whose every bit pattern is a value: lists of them are skipped in one step. */
module FixedWidth {
  import opened Wire
  import opened Integers
  import opened Leaves
  import opened Schemas
  import opened Parser

  /** The fields of the built-in vector types whose width is fixed. */
  function VectorFields(name: string): seq<Leaf> {
    if name == "Vec2" then [FloatLeaf(4), FloatLeaf(4)]
    else if name == "Vec3" then [FloatLeaf(4), FloatLeaf(4), FloatLeaf(4)]
    else if name == "SubChunkPos" then [IntLeaf(I32LE, None, None), IntLeaf(I32LE, None, None), IntLeaf(I32LE, None, None)]
    else []
  }

  function LeafNodes(ls: seq<Leaf>): (r: seq<Node>)
    ensures |r| == |ls|
  {
    if |ls| == 0 then [] else [LeafNode(ls[0])] + LeafNodes(ls[1..])
  }

  /** A built-in vector: its struct has exactly the fields the built-in reader reads. */
  predicate Vector(s: Schema, n: Node) {
    && n.RefNode? && n.ref in s.types && |VectorFields(n.ref)| > 0 && !Enters(s, n)
    && s.types[n.ref].Struct? && |s.types[n.ref].checks| == 0
    && FieldNodes(s.types[n.ref].fields) == LeafNodes(VectorFields(n.ref))
  }

  function LeafWidth(l: Leaf): Option<nat> {
    match l
    case IntLeaf(Fixed(size, _, _), None, None) => Some(size)
    case FloatLeaf(size) => Some(size)
    case UuidLeaf => Some(16)
    case _ => None
  }

  function FixedSize(s: Schema, n: Node): Option<nat> {
    if n.LeafNode? then LeafWidth(n.leaf)
    else if Vector(s, n) then Some(if n.ref == "Vec2" then 8 else 12)
    else None
  }

  /** Which elements are skipped: whole numbers and floats of fixed width without bounds, UUIDs, and three vectors. */
  lemma SizesAre(s: Schema, w: Width, signed: bool, big: bool, allowed: seq<int>)
    ensures FixedSize(s, LeafNode(IntLeaf(Fixed(w, signed, big), None, None))) == Some(w) == FixedSize(s, LeafNode(FloatLeaf(w)))
    ensures FixedSize(s, LeafNode(UuidLeaf)) == Some(16) && FixedSize(s, LeafNode(BoolLeaf)) == None
    ensures FixedSize(s, LeafNode(IntLeaf(VarU32, None, None))) == None
    ensures Made(s, "Vec2", [FloatLeaf(4), FloatLeaf(4)]) ==> FixedSize(s, RefNode("Vec2", allowed)) == Some(8)
    ensures Made(s, "Vec3", [FloatLeaf(4), FloatLeaf(4), FloatLeaf(4)]) ==> FixedSize(s, RefNode("Vec3", allowed)) == Some(12)
    ensures var i32 := IntLeaf(Fixed(4, true, false), None, None);
      Made(s, "SubChunkPos", [i32, i32, i32]) ==> FixedSize(s, RefNode("SubChunkPos", allowed)) == Some(12)
  {
    hide LeafNodes, FieldNodes;
  }

  /** The type is a struct of just these fields, neither checked nor recursive. */
  predicate Made(s: Schema, r: string, ls: seq<Leaf>) {
    && r in s.types && r !in s.recursive && s.types[r].Struct? && |s.types[r].checks| == 0
    && FieldNodes(s.types[r].fields) == LeafNodes(ls)
  }

  /** What skipping `size` bytes gives. */
  predicate Skips<T>(p: Parsed<T>, bs: bytes, size: nat) {
    if size <= |bs| then p.Ok? && p.rest == bs[size..] else p == Fail(EndOfStream)
  }

  lemma LeafSkips(l: Leaf, bs: bytes, L: Limits)
    requires LeafWidth(l).Some?
    ensures Skips(ParseLeaf(l, bs, L), bs, LeafWidth(l).value)
  {
  }

  function TotalWidth(ls: seq<Leaf>): Option<nat> {
    if |ls| == 0 then Some(0)
    else if LeafWidth(ls[0]).None? || TotalWidth(ls[1..]).None? then None
    else Some(LeafWidth(ls[0]).value + TotalWidth(ls[1..]).value)
  }

  lemma {:induction false} LeavesSkip(s: MarkedSchema, ls: seq<Leaf>, bs: bytes, L: Limits, d: nat, lazy: bool)
    requires TotalWidth(ls).Some?
    ensures Skips(ParseSeq(s, LeafNodes(ls), bs, L, d, lazy), bs, TotalWidth(ls).value)
  {
    hide ParseLeaf, LeafWidth;
    if |ls| > 0 {
      LeafSkips(ls[0], bs, L);
      assert LeafNodes(ls)[1..] == LeafNodes(ls[1..]);
      var size := LeafWidth(ls[0]).value;
      if size <= |bs| {
        LeavesSkip(s, ls[1..], bs[size..], L, d, lazy);
        if TotalWidth(ls).value <= |bs| {
          assert bs[size..][TotalWidth(ls[1..]).value..] == bs[TotalWidth(ls).value..];
        }
      }
    }
  }

  lemma VectorWidth(name: string)
    requires |VectorFields(name)| > 0
    ensures TotalWidth(VectorFields(name)) == Some(if name == "Vec2" then 8 else 12)
  {
    var ls := VectorFields(name);
    var rest := ls[1..];
    assert |ls| == 3 ==> rest[1..][1..] == [] && TotalWidth(rest[1..]) == Some(4);
    assert |ls| == 2 ==> rest[1..] == [];
    assert TotalWidth([]) == Some(0);
  }

  /** Decoding one element of fixed width is skipping its bytes. */
  lemma ElementSkips(s: MarkedSchema, n: Node, bs: bytes, L: Limits, d: nat, lazy: bool)
    requires FixedSize(s, n).Some?
    ensures Skips(Parse(s, n, bs, L, d, lazy), bs, FixedSize(s, n).value)
  {
    hide ParseSeq, ParseLeaf, FieldNodes, LeafNodes, VectorFields;
    if n.LeafNode? {
      LeafSkips(n.leaf, bs, L);
    } else {
      VectorWidth(n.ref);
      LeavesSkip(s, VectorFields(n.ref), bs, L, d, lazy);
    }
  }

  /**
   The fast path of a list: one multiplication and one skip accept the same inputs,
   leave the same bytes and fail with the same error as decoding the elements one
   by one.
   */
  lemma {:induction false} ListSkips(s: MarkedSchema, n: Node, count: nat, bs: bytes, L: Limits, d: nat, lazy: bool)
    requires FixedSize(s, n).Some?
    ensures Skips(ParseSeq(s, Copies(n, count), bs, L, d, lazy), bs, count * FixedSize(s, n).value)
    decreases count
  {
    hide Parse, FixedSize, Skips;
    var size := FixedSize(s, n).value;
    if count == 0 {
      NothingSkips(s, bs, L, d, lazy);
    } else {
      ElementSkips(s, n, bs, L, d, lazy);
      assert Copies(n, count)[1..] == Copies(n, count - 1);
      OneMore(count, size);
      if size <= |bs| { ListSkips(s, n, count - 1, bs[size..], L, d, lazy); }
      BothSkip(s, n, Copies(n, count), bs, L, d, lazy, size, (count - 1) * size);
    }
  }

  lemma NothingSkips(s: MarkedSchema, bs: bytes, L: Limits, d: nat, lazy: bool)
    ensures Skips(ParseSeq(s, [], bs, L, d, lazy), bs, 0)
  {
  }

  /** An element that is skipped, and then the rest of them. */
  lemma BothSkip(s: MarkedSchema, n: Node, ns: seq<Node>, bs: bytes, L: Limits, d: nat, lazy: bool, size: nat, total: nat)
    requires |ns| > 0 && ns[0] == n && Skips(Parse(s, n, bs, L, d, lazy), bs, size)
    requires size <= |bs| ==> Skips(ParseSeq(s, ns[1..], bs[size..], L, d, lazy), bs[size..], total)
    ensures Skips(ParseSeq(s, ns, bs, L, d, lazy), bs, size + total)
  {
    hide Parse;
    if size + total <= |bs| { assert bs[size..][total..] == bs[size + total..]; }
  }

  lemma OneMore(count: nat, size: nat)
    requires count > 0
    ensures count * size == size + (count - 1) * size && (count - 1) * size >= 0
  {
  }
}
