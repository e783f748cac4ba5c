/** Folding one occurrence of a type into another: bounds every occurrence publishes, enum values of both. */
module Merging {
  import opened Wire
  import opened Leaves
  import opened Schemas
  import opened Simulation
  import Float64

  /** Numeric bounds are compared as float64 values. */
  function Looser(a: Option<int>, b: Option<int>, minimum: bool): Option<int> {
    if a.None? || b.None? then None
    else
      var x, y := Float64.Round(a.value), Float64.Round(b.value);
      if (minimum && y < x) || (!minimum && y > x) then b else a
  }

  /**
   The looser of two numeric bounds admits whatever either admits if and only if
   keeping the first is right, or the two differ as float64 values.
   */
  lemma LooserIff(a: int, b: int)
    ensures var r := Looser(Some(a), Some(b), true);
      LowerOk(Some(a), r) && LowerOk(Some(b), r) <==> a <= b || Float64.Round(a) != Float64.Round(b)
    ensures var r := Looser(Some(a), Some(b), false);
      UpperOk(Some(a), r) && UpperOk(Some(b), r) <==> b <= a || Float64.Round(a) != Float64.Round(b)
  {
    if a <= b { Float64.RoundMonotone(a, b); } else { Float64.RoundMonotone(b, a); }
  }

  /** 2^53 + 1 merged with 2^53 keeps the tighter minimum, and rejects 2^53. */
  lemma LooserCanTighten()
    ensures var a, b := Float64.P53 + 1, Float64.P53;
      Looser(Some(a), Some(b), true) == Some(a) && !LowerOk(Some(b), Looser(Some(a), Some(b), true))
  {
    Float64.TwoFiftyThreePlusOne();
  }

  function LooserCount(a: Option<nat>, b: Option<nat>, minimum: bool): Option<nat> {
    if a.None? || b.None? then None
    else if (minimum && b.value < a.value) || (!minimum && b.value > a.value) then b else a
  }

  // ---- allowed enum values ----

  function InsertInt(v: int, vs: seq<int>): (r: seq<int>)
    ensures forall x :: x in r <==> x == v || x in vs
  {
    if |vs| == 0 || v < vs[0] then [v] + vs
    else if v == vs[0] then vs
    else
      assert vs == [vs[0]] + vs[1..];
      [vs[0]] + InsertInt(v, vs[1..])
  }

  function SortedSet(vs: seq<int>): (r: seq<int>)
    ensures forall x :: x in r <==> x in vs
  {
    if |vs| == 0 then []
    else
      assert vs == [vs[0]] + vs[1..];
      InsertInt(vs[0], SortedSet(vs[1..]))
  }

  predicate Ascending(vs: seq<int>) { forall i, j :: 0 <= i < j < |vs| ==> vs[i] < vs[j] }

  lemma {:induction false} InsertAscends(v: int, vs: seq<int>)
    requires Ascending(vs)
    ensures Ascending(InsertInt(v, vs))
  {
    if |vs| > 0 && v > vs[0] {
      var r := InsertInt(v, vs[1..]);
      InsertAscends(v, vs[1..]);
      forall x | x in r ensures vs[0] < x {
        if x != v { var k :| 0 <= k < |vs[1..]| && vs[1..][k] == x; assert vs[k + 1] == x; }
      }
      var w := [vs[0]] + r;
      forall i, j | 0 <= i < j < |w| ensures w[i] < w[j] {
        assert w[j] == r[j - 1];
        if i > 0 { assert w[i] == r[i - 1]; } else { assert r[j - 1] in r; }
      }
    }
  }

  /** Merged allowed values are listed once each, in ascending order. */
  lemma {:induction false} SortedSetAscends(vs: seq<int>)
    ensures Ascending(SortedSet(vs))
  {
    if |vs| > 0 {
      SortedSetAscends(vs[1..]);
      InsertAscends(vs[0], SortedSet(vs[1..]));
    }
  }

  function MergeAllowed(a: seq<int>, b: seq<int>): seq<int> {
    if |a| == 0 || |b| == 0 then [] else SortedSet(a + b)
  }

  function AllowedOfBoth(a: seq<int>, b: seq<int>): seq<int> { if a == b then a else MergeAllowed(a, b) }

  lemma AllowedOfBothOk(a: seq<int>, b: seq<int>)
    ensures AllowedOk(a, AllowedOfBoth(a, b)) && AllowedOk(b, AllowedOfBoth(a, b))
  {
    if a != b && |a| > 0 && |b| > 0 {
      assert a[0] in a + b;
    }
  }

  // ---- shapes ----

  function IntersectLeaf(l: Leaf, m: Leaf): Leaf {
    match l
    case IntLeaf(k, min, max) =>
      if m.IntLeaf? then IntLeaf(k, Looser(min, m.min, true), Looser(max, m.max, false)) else l
    case StringLeaf(minLen, maxLen, pattern) =>
      if m.StringLeaf? then
        StringLeaf(
          LooserCount(minLen, m.minLen, true), LooserCount(maxLen, m.maxLen, false), if pattern == m.pattern then pattern else None)
      else l
    case BytesLeaf(minLen, maxLen) =>
      if m.BytesLeaf? then BytesLeaf(LooserCount(minLen, m.minLen, true), LooserCount(maxLen, m.maxLen, false)) else l
    case _ => l
  }

  /** Keeps only the bounds both occurrences publish; called on two nodes of the same shape. */
  function Intersect(a: Node, b: Node): Node {
    match a
    case LeafNode(l) => if b.LeafNode? then LeafNode(IntersectLeaf(l, b.leaf)) else a
    case ListNode(p, e, minItems, maxItems) =>
      if b.ListNode? then
        ListNode(p, Intersect(e, b.element), LooserCount(minItems, b.minItems, true), LooserCount(maxItems, b.maxItems, false))
      else a
    case EntryNode(k, x) => if b.EntryNode? then EntryNode(Intersect(k, b.key), Intersect(x, b.value)) else a
    case FixedNode(len, e) => if b.FixedNode? then FixedNode(len, Intersect(e, b.element)) else a
    case OptionalNode(x) => if b.OptionalNode? then OptionalNode(Intersect(x, b.inner)) else a
    case RefNode(r, allowed) => if b.RefNode? then RefNode(r, AllowedOfBoth(allowed, b.allowed)) else a
  }

  /** Numeric bounds that float64 holds exactly. */
  predicate ExactBounds(n: Node) {
    match n
    case LeafNode(l) =>
      l.IntLeaf? ==> (l.min.Some? ==> Float64.Exact(l.min.value)) && (l.max.Some? ==> Float64.Exact(l.max.value))
    case ListNode(_, e, _, _) => ExactBounds(e)
    case EntryNode(k, x) => ExactBounds(k) && ExactBounds(x)
    case FixedNode(_, e) => ExactBounds(e)
    case OptionalNode(x) => ExactBounds(x)
    case RefNode(_, _) => true
  }

  /** Bounds of magnitude up to 2^53. */
  predicate SmallBounds(n: Node) {
    match n
    case LeafNode(l) =>
      l.IntLeaf? ==>
        && (l.min.Some? ==> -0x20_0000_0000_0000 <= l.min.value <= 0x20_0000_0000_0000)
        && (l.max.Some? ==> -0x20_0000_0000_0000 <= l.max.value <= 0x20_0000_0000_0000)
    case ListNode(_, e, _, _) => SmallBounds(e)
    case EntryNode(k, x) => SmallBounds(k) && SmallBounds(x)
    case FixedNode(_, e) => SmallBounds(e)
    case OptionalNode(x) => SmallBounds(x)
    case RefNode(_, _) => true
  }

  /** These are among those float64 holds exactly. */
  lemma {:induction false} SmallBoundsExact(n: Node)
    requires SmallBounds(n)
    ensures ExactBounds(n)
  {
    match n
    case LeafNode(l) =>
      if l.IntLeaf? && l.min.Some? { Float64.SmallExact(l.min.value); }
      if l.IntLeaf? && l.max.Some? { Float64.SmallExact(l.max.value); }
    case ListNode(_, e, _, _) => SmallBoundsExact(e);
    case EntryNode(k, x) => SmallBoundsExact(k); SmallBoundsExact(x);
    case FixedNode(_, e) => SmallBoundsExact(e);
    case OptionalNode(x) => SmallBoundsExact(x);
    case RefNode(_, _) =>
  }

  /** The shape with its bounds and allowed values removed. */
  function Strip(n: Node): Node {
    match n
    case LeafNode(l) => LeafNode(StripLeaf(l))
    case ListNode(p, e, _, _) => ListNode(p, Strip(e), None, None)
    case EntryNode(k, x) => EntryNode(Strip(k), Strip(x))
    case FixedNode(len, e) => FixedNode(len, Strip(e))
    case OptionalNode(x) => OptionalNode(Strip(x))
    case RefNode(r, _) => RefNode(r, [])
  }

  function StripLeaf(l: Leaf): Leaf {
    match l
    case IntLeaf(k, _, _) => IntLeaf(k, None, None)
    case StringLeaf(_, _, _) => StringLeaf(None, None, None)
    case BytesLeaf(_, _) => BytesLeaf(None, None)
    case _ => l
  }

  /** Which types two shapes agree on does not depend on their bounds. */
  lemma {:induction false} StripShape(rel: Rel, a: Node, b: Node)
    ensures SameShape(rel, a, b) <==> SameShape(rel, Strip(a), Strip(b))
  {
    match a
    case LeafNode(_) =>
    case ListNode(_, e, _, _) => if b.ListNode? { StripShape(rel, e, b.element); }
    case EntryNode(k, x) => if b.EntryNode? { StripShape(rel, k, b.key); StripShape(rel, x, b.value); }
    case FixedNode(_, e) => if b.FixedNode? { StripShape(rel, e, b.element); }
    case OptionalNode(x) => if b.OptionalNode? { StripShape(rel, x, b.inner); }
    case RefNode(_, _) =>
  }

  lemma {:induction false} IntersectStrip(a: Node, b: Node)
    ensures Strip(Intersect(a, b)) == Strip(a)
  {
    match a
    case LeafNode(_) =>
    case ListNode(_, e, _, _) => if b.ListNode? { IntersectStrip(e, b.element); }
    case EntryNode(k, x) => if b.EntryNode? { IntersectStrip(k, b.key); IntersectStrip(x, b.value); }
    case FixedNode(_, e) => if b.FixedNode? { IntersectStrip(e, b.element); }
    case OptionalNode(x) => if b.OptionalNode? { IntersectStrip(x, b.inner); }
    case RefNode(_, _) =>
  }

  /** An occurrence like the first changes nothing, not even the order of allowed values. */
  lemma {:induction false} IntersectSelf(a: Node)
    ensures Intersect(a, a) == a
  {
    match a
    case LeafNode(_) =>
    case ListNode(_, e, _, _) => IntersectSelf(e);
    case EntryNode(k, x) => IntersectSelf(k); IntersectSelf(x);
    case FixedNode(_, e) => IntersectSelf(e);
    case OptionalNode(x) => IntersectSelf(x);
    case RefNode(_, _) =>
  }

  /** The merged shape accepts whatever either occurrence accepts. */
  lemma {:induction false} IntersectNoTighter(rel: Rel, a: Node, b: Node)
    requires SameShape(rel, a, b) && ExactBounds(a) && ExactBounds(b)
    ensures var r := Intersect(a, b);
      NoTighter(a, r) && NoTighter(b, r) && ExactBounds(r)
  {
    match a
    case LeafNode(_) =>
    case ListNode(_, e, _, _) => IntersectNoTighter(rel, e, b.element);
    case EntryNode(k, x) => IntersectNoTighter(rel, k, b.key); IntersectNoTighter(rel, x, b.value);
    case FixedNode(_, e) => IntersectNoTighter(rel, e, b.element);
    case OptionalNode(x) => IntersectNoTighter(rel, x, b.inner);
    case RefNode(_, allowed) => AllowedOfBothOk(allowed, b.allowed);
  }

  lemma AllowedLeast(a: seq<int>, b: seq<int>, c: seq<int>)
    requires AllowedOk(a, c) && AllowedOk(b, c)
    ensures AllowedOk(AllowedOfBoth(a, b), c)
  {
    if a != b && |a| > 0 && |b| > 0 { assert a[0] in SortedSet(a + b); }
  }

  lemma LeafLeast(l: Leaf, m: Leaf, c: Leaf)
    requires LeafNoTighter(l, c) && LeafNoTighter(m, c)
    ensures LeafNoTighter(IntersectLeaf(l, m), c)
  {
    hide Float64.Round;
  }

  /** No bound both occurrences publish is given up: the merged shape is the tightest that accepts both. */
  lemma {:induction false} IntersectLeast(a: Node, b: Node, c: Node)
    requires NoTighter(a, c) && NoTighter(b, c)
    ensures NoTighter(Intersect(a, b), c)
  {
    match a
    case LeafNode(l) => LeafLeast(l, b.leaf, c.leaf);
    case ListNode(_, e, _, _) => IntersectLeast(e, b.element, c.element);
    case EntryNode(k, x) => IntersectLeast(k, b.key, c.key); IntersectLeast(x, b.value, c.value);
    case FixedNode(_, e) => IntersectLeast(e, b.element, c.element);
    case OptionalNode(x) => IntersectLeast(x, b.inner, c.inner);
    case RefNode(_, allowed) => AllowedLeast(allowed, b.allowed, c.allowed);
  }

  lemma {:induction false} NoTighterTrans(a: Node, b: Node, c: Node)
    requires NoTighter(a, b) && NoTighter(b, c)
    ensures NoTighter(a, c)
  {
    match a
    case LeafNode(l) => if l.IntLeaf? || l.StringLeaf? || l.BytesLeaf? { }
    case ListNode(_, e, _, _) => NoTighterTrans(e, b.element, c.element);
    case EntryNode(k, x) => NoTighterTrans(k, b.key, c.key); NoTighterTrans(x, b.value, c.value);
    case FixedNode(_, e) => NoTighterTrans(e, b.element, c.element);
    case OptionalNode(x) => NoTighterTrans(x, b.inner, c.inner);
    case RefNode(_, _) =>
  }

  lemma {:induction false} NoTighterRefl(a: Node)
    ensures NoTighter(a, a)
  {
    match a
    case LeafNode(_) =>
    case ListNode(_, e, _, _) => NoTighterRefl(e);
    case EntryNode(k, x) => NoTighterRefl(k); NoTighterRefl(x);
    case FixedNode(_, e) => NoTighterRefl(e);
    case OptionalNode(x) => NoTighterRefl(x);
    case RefNode(_, _) =>
  }
}
