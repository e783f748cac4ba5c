/** The helpers generated for list elements and map entries, and when one is shared by mistake. */
module Helpers {
  import opened Wire
  import opened Integers
  import opened Leaves
  import opened Schemas
  import EnumNames
  import Leb128
  import Merging

  /** An element that needs no helper: a type of its own, or a primitive, string or byte array without constraints. */
  predicate Direct(n: Node) {
    match n
    case LeafNode(l) =>
      (match l
       case IntLeaf(_, min, max) => min.None? && max.None?
       case StringLeaf(minLen, maxLen, pattern) => minLen.None? && maxLen.None? && pattern.None?
       case BytesLeaf(minLen, maxLen) => minLen.None? && maxLen.None?
       case BitsetLeaf(_) => false
       case _ => true)
    case RefNode(_, allowed) => |allowed| == 0
    case _ => false
  }

  /** So there is nothing to check in it: removing bounds and allowed values leaves it as it is. */
  lemma DirectIs(n: Node)
    ensures Direct(n) <==> ((n.LeafNode? && !n.leaf.BitsetLeaf?) || n.RefNode?) && Merging.Strip(n) == n
  {
  }

  /** What helpers are remembered by: a hint that names a place in the schema, for elements and for map entries apart. */
  datatype Key = CodecKey(hint: string) | EntryKey(hint: string)

  /** The names of the helpers made so far. */
  type Memo = map<Key, string>

  /** The codec of a list element: the element's own, or a helper's. */
  datatype Element = Own(node: Node) | Named(helper: string)

  /** The statements emitted for a shape. Bounds are checked in place; elements and entries go through their codecs. */
  datatype Code =
    | LeafCode(node: Node)
    | ListCode(prefix: CountPrefix, element: Element, minItems: Option<nat>, maxItems: Option<nat>)
    | MapCode(prefix: CountPrefix, entry: string, minItems: Option<nat>, maxItems: Option<nat>)
    | FixedCode(len: nat, item: Code)
    | OptionalCode(inner: Code)

  datatype Helper = CodecHelper(code: Code) | EntryHelper(key: Code, value: Code)

  // ---- the bounds that statements are emitted for ----

  function Least(k: IntKind): int {
    match k
    case Fixed(size, signed, _) => if signed then -(Leb128.Pow2(8 * size) / 2) else 0
    case ZigzagI32 => -(Leb128.Pow2(8 * 4) / 2)
    case ZigzagI64 => -(Leb128.Pow2(8 * 8) / 2)
    case _ => 0
  }

  function Greatest(k: IntKind): int {
    match k
    case Fixed(size, signed, _) => (if signed then Leb128.Pow2(8 * size) / 2 else Leb128.Pow2(8 * size)) - 1
    case VarU32 => U32_MAX
    case VarU64 => U64_MAX
    case ZigzagI32 => Leb128.Pow2(8 * 4) / 2 - 1
    case ZigzagI64 => Leb128.Pow2(8 * 8) / 2 - 1
  }

  /** A minimum of zero is not checked. */
  function ShownMin(min: Option<nat>): Option<nat> { if min == Some(0) then None else min }

  /** Nor is a maximum no count can exceed. */
  function ShownItems(max: Option<nat>): Option<nat> { if max.Some? && max.value > U32_MAX then None else max }

  /** A leaf with only the bounds that are checked: those inside the range of its integer. */
  function ShownLeaf(l: Leaf): Leaf {
    match l
    case IntLeaf(k, min, max) =>
      IntLeaf(k, if min.Some? && min.value <= Least(k) then None else min, if max.Some? && max.value >= Greatest(k) then None else max)
    case StringLeaf(minLen, maxLen, pattern) => StringLeaf(ShownMin(minLen), maxLen, pattern)
    case BytesLeaf(minLen, maxLen) => BytesLeaf(ShownMin(minLen), maxLen)
    case _ => l
  }

  // ---- what statements mean ----

  /** The codec behind a name does what the element or entry says. */
  predicate HelperMeans(helpers: map<string, Helper>, name: string, e: Node)
    decreases e, 1
  {
    && name in helpers
    && match helpers[name]
       case CodecHelper(code) => Means(helpers, code, e)
       case EntryHelper(key, value) => e.EntryNode? && Means(helpers, key, e.key) && Means(helpers, value, e.value)
  }

  /** The statements, with those of every helper they call, are the ones for the node. */
  predicate Means(helpers: map<string, Helper>, c: Code, n: Node)
    decreases n, 0
  {
    match n
    case LeafNode(l) => c == LeafCode(LeafNode(ShownLeaf(l)))
    case RefNode(_, _) => c == LeafCode(n)
    case EntryNode(_, _) => false
    case FixedNode(len, e) => c.FixedCode? && c.len == len && Means(helpers, c.item, e)
    case OptionalNode(v) => c.OptionalCode? && Means(helpers, c.inner, v)
    case ListNode(p, e, lo, hi) =>
      if e.EntryNode? then
        c.MapCode? && c.prefix == p && c.minItems == ShownMin(lo) && c.maxItems == ShownItems(hi) && HelperMeans(helpers, c.entry, e)
      else
        && c.ListCode? && c.prefix == p && c.minItems == ShownMin(lo) && c.maxItems == ShownItems(hi)
        && if Direct(e) then c.element == Own(e) else c.element.Named? && HelperMeans(helpers, c.element.helper, e)
  }

  /** The same statements are emitted for both, down to their last elements and entries. */
  predicate SameStatements(m: Node, n: Node) {
    match m
    case LeafNode(l) => n.LeafNode? && ShownLeaf(n.leaf) == ShownLeaf(l)
    case RefNode(_, _) => n == m
    case EntryNode(k, v) => n.EntryNode? && SameStatements(k, n.key) && SameStatements(v, n.value)
    case FixedNode(len, e) => n.FixedNode? && n.len == len && SameStatements(e, n.element)
    case OptionalNode(v) => n.OptionalNode? && SameStatements(v, n.inner)
    case ListNode(p, e, lo, hi) =>
      && n.ListNode? && n.prefix == p && ShownMin(n.minItems) == ShownMin(lo) && ShownItems(n.maxItems) == ShownItems(hi)
      && Direct(e) == Direct(n.element) && (if Direct(e) then n.element == e else SameStatements(e, n.element))
  }

  /** Entries are only what maps are lists of. */
  predicate Proper(n: Node) {
    match n
    case LeafNode(_) => true
    case RefNode(_, _) => true
    case EntryNode(_, _) => false
    case FixedNode(_, e) => Proper(e)
    case OptionalNode(v) => Proper(v)
    case ListNode(_, e, _, _) => if e.EntryNode? then Proper(e.key) && Proper(e.value) else Proper(e)
  }

  // ---- the names of helpers, known before any is made ----

  function Base(key: Key): string {
    match key
    case CodecKey(hint) => hint + "Codec"
    case EntryKey(hint) => hint + "Entry"
  }

  /** The base, or the base with the least free number, among the types and the names the file starts with. */
  function NameFor(fixed: set<string>, key: Key): (name: string)
    ensures name !in fixed && Base(key) <= name
  {
    EnumNames.Fresh(Base(key), Base(key), fixed)
  }

  predicate DigitsOnly(w: string) { forall i :: 0 <= i < |w| ==> '0' <= w[i] <= '9' }

  lemma {:induction false} DigitsAreDigits(n: nat)
    ensures DigitsOnly(EnumNames.Digits(n))
  {
    if n >= 10 { DigitsAreDigits(n / 10); }
  }

  /** A base ends in a letter, so the number after it can be told apart. */
  lemma BaseSplit(j: Key, d: string, k: Key, e: string)
    requires Base(j) + d == Base(k) + e && DigitsOnly(d) && DigitsOnly(e)
    ensures j == k
  {
    var a, b := Base(j), Base(k);
    assert a[|a| - 1] in "cy" && b[|b| - 1] in "cy";
    assert (a + d)[|a| - 1] == a[|a| - 1] && (b + e)[|b| - 1] == b[|b| - 1];
    assert (a + d)[..|a|] == a && (b + e)[..|b|] == b;
    assert a[..|a| - 5] == j.hint && b[..|b| - 5] == k.hint;
  }

  /** A helper's name is its base and digits. */
  lemma NameSplit(fixed: set<string>, key: Key) returns (d: string)
    ensures NameFor(fixed, key) == Base(key) + d && DigitsOnly(d)
  {
    var k := EnumNames.FreshIs(Base(key), Base(key), fixed);
    d := if Base(key) in fixed then EnumNames.Digits(k) else "";
    if Base(key) in fixed { DigitsAreDigits(k); } else { assert Base(key) + "" == Base(key); }
  }

  /** No two helpers can get one name, so a name does not depend on the helpers made before. */
  lemma NamesApart(fixed: set<string>, j: Key, k: Key)
    requires NameFor(fixed, j) == NameFor(fixed, k)
    ensures j == k
  {
    var d := NameSplit(fixed, j);
    var e := NameSplit(fixed, k);
    BaseSplit(j, d, k, e);
  }

  lemma NameIgnoresHelpers(fixed: set<string>, keys: set<Key>, key: Key, names: set<string>)
    requires key !in keys && names == set k | k in keys :: NameFor(fixed, k)
    ensures EnumNames.Fresh(Base(key), Base(key), fixed + names) == NameFor(fixed, key)
  {
    hide Base, DigitsOnly;
    forall k | k in keys ensures NameFor(fixed, k) != Base(key) && forall i: nat :: NameFor(fixed, k) != EnumNames.Suffixed(Base(key), i) {
      NotNumbered(fixed, k, key);
    }
    EnumNames.FreshIgnores(Base(key), Base(key), fixed, names);
  }

  lemma NotNumbered(fixed: set<string>, k: Key, key: Key)
    requires k != key
    ensures NameFor(fixed, k) != Base(key) && forall i: nat :: NameFor(fixed, k) != EnumNames.Suffixed(Base(key), i)
  {
    hide Base;
    var d := NameSplit(fixed, k);
    if NameFor(fixed, k) == Base(key) {
      assert Base(key) + "" == Base(key);
      BaseSplit(k, d, key, "");
    }
    forall i: nat ensures NameFor(fixed, k) != EnumNames.Suffixed(Base(key), i) {
      DigitsAreDigits(i);
      if NameFor(fixed, k) == EnumNames.Suffixed(Base(key), i) { BaseSplit(k, d, key, EnumNames.Digits(i)); }
    }
  }

  // ---- what is emitted for a shape, and what it asks for ----

  function CodeOf(fixed: set<string>, hint: string, n: Node): Code
    decreases n
  {
    match n
    case LeafNode(l) => LeafCode(LeafNode(ShownLeaf(l)))
    case RefNode(_, _) => LeafCode(n)
    case EntryNode(_, _) => LeafCode(n)
    case FixedNode(len, e) => FixedCode(len, CodeOf(fixed, hint, e))
    case OptionalNode(v) => OptionalCode(CodeOf(fixed, hint, v))
    case ListNode(p, e, lo, hi) =>
      if e.EntryNode? then MapCode(p, NameFor(fixed, EntryKey(hint)), ShownMin(lo), ShownItems(hi))
      else ListCode(p, if Direct(e) then Own(e) else Named(NameFor(fixed, CodecKey(hint + "Item"))), ShownMin(lo), ShownItems(hi))
  }

  /** The helpers a shape's own statements call are there. */
  predicate Ready(memo: Memo, hint: string, n: Node)
    decreases n
  {
    match n
    case FixedNode(_, e) => Ready(memo, hint, e)
    case OptionalNode(v) => Ready(memo, hint, v)
    case ListNode(_, e, _, _) => if e.EntryNode? then EntryKey(hint) in memo else Direct(e) || CodecKey(hint + "Item") in memo
    case _ => true
  }

  /** A helper asked for under a key. */
  datatype Request = Request(key: Key, node: Node)

  /** Every helper a shape asks for, those of nested elements and entries included. */
  function Requests(fixed: set<string>, hint: string, n: Node): set<Request>
    decreases n
  {
    match n
    case FixedNode(_, e) => Requests(fixed, hint, e)
    case OptionalNode(v) => Requests(fixed, hint, v)
    case ListNode(_, e, _, _) =>
      if e.EntryNode? then
        var name := NameFor(fixed, EntryKey(hint));
        {Request(EntryKey(hint), e)} + Requests(fixed, name + "Key", e.key) + Requests(fixed, name + "Value", e.value)
      else Requests(fixed, hint + "Item", e) + if Direct(e) then {} else {Request(CodecKey(hint + "Item"), e)}
    case _ => {}
  }

  /** What a helper made for a node consists of. */
  function Body(fixed: set<string>, key: Key, e: Node): Helper {
    match key
    case CodecKey(hint) => CodecHelper(CodeOf(fixed, hint, e))
    case EntryKey(_) =>
      if e.EntryNode? then
        EntryHelper(CodeOf(fixed, NameFor(fixed, key) + "Key", e.key), CodeOf(fixed, NameFor(fixed, key) + "Value", e.value))
      else CodecHelper(LeafCode(e))
  }

  predicate BodyReady(fixed: set<string>, memo: Memo, key: Key, e: Node) {
    match key
    case CodecKey(hint) => Ready(memo, hint, e)
    case EntryKey(_) =>
      e.EntryNode? && Ready(memo, NameFor(fixed, key) + "Key", e.key) && Ready(memo, NameFor(fixed, key) + "Value", e.value)
  }

  /** The kind of node a key stands for. */
  predicate Suits(key: Key, e: Node) {
    match key
    case CodecKey(_) => Proper(e) && !Direct(e)
    case EntryKey(_) => e.EntryNode? && Proper(e.key) && Proper(e.value)
  }

  lemma CodecSuits(hint: string, e: Node)
    requires Proper(e) && !Direct(e)
    ensures Suits(CodecKey(hint), e)
  {
  }

  lemma EntrySuits(hint: string, e: Node)
    requires e.EntryNode? && Proper(e.key) && Proper(e.value)
    ensures Suits(EntryKey(hint), e)
  {
  }

  predicate Grows<K, V(==)>(a: map<K, V>, b: map<K, V>) { forall k :: k in a ==> k in b && b[k] == a[k] }

  lemma {:induction false} ReadyGrows(a: Memo, b: Memo, hint: string, n: Node)
    requires Grows(a, b) && Ready(a, hint, n)
    ensures Ready(b, hint, n)
    decreases n
  {
    match n
    case FixedNode(_, e) => ReadyGrows(a, b, hint, e);
    case OptionalNode(v) => ReadyGrows(a, b, hint, v);
    case _ =>
  }

  lemma BodyReadyGrows(fixed: set<string>, a: Memo, b: Memo, key: Key, e: Node)
    requires Grows(a, b) && BodyReady(fixed, a, key, e)
    ensures BodyReady(fixed, b, key, e)
  {
    hide Ready;
    match key
    case CodecKey(hint) => ReadyGrows(a, b, hint, e);
    case EntryKey(_) =>
      ReadyGrows(a, b, NameFor(fixed, key) + "Key", e.key);
      ReadyGrows(a, b, NameFor(fixed, key) + "Value", e.value);
  }

  // ---- the emitter's state ----

  function NamesOf(fixed: set<string>, keys: set<Key>): set<string> { set k | k in keys :: NameFor(fixed, k) }

  /**
   `fixed` holds the names of types and those the file starts with. Every helper
   has its name, and if it is not being made is the body of the node it was made for.
   */
  ghost predicate Sound(fixed: set<string>, memo: Memo, helpers: map<string, Helper>, made: map<Key, Node>, pending: set<Key>) {
    && memo.Keys == made.Keys && pending <= memo.Keys
    && (forall k :: k in memo ==> memo[k] == NameFor(fixed, k) && Suits(k, made[k]))
    && forall k :: k in memo && k !in pending ==> Finished(fixed, memo, helpers, k, made[k])
  }

  predicate Finished(fixed: set<string>, memo: Memo, helpers: map<string, Helper>, key: Key, e: Node) {
    var name := NameFor(fixed, key);
    key in memo && name in helpers && helpers[name] == Body(fixed, key, e) && BodyReady(fixed, memo, key, e)
  }

  /** Every helper made since `before` was asked for. */
  ghost predicate MadeFor(before: map<Key, Node>, made: map<Key, Node>, requests: set<Request>) {
    forall k :: k in made && k !in before ==> Request(k, made[k]) in requests
  }

  lemma SoundKeys(fixed: set<string>, memo: Memo, helpers: map<string, Helper>, made: map<Key, Node>, pending: set<Key>)
    requires Sound(fixed, memo, helpers, made, pending)
    ensures memo.Keys == made.Keys && pending <= memo.Keys
    ensures forall k :: k in memo ==> memo[k] == NameFor(fixed, k)
  {
  }

  lemma SoundNamed(fixed: set<string>, memo: Memo, helpers: map<string, Helper>, made: map<Key, Node>, pending: set<Key>, key: Key, e: Node)
    requires Sound(fixed, memo, helpers, made, pending) && key !in memo && Suits(key, e)
    ensures var memo2 := memo[key := NameFor(fixed, key)];
      Sound(fixed, memo2, helpers, made[key := e], pending + {key}) && Grows(memo, memo2) && Grows(made, made[key := e])
  {
    hide Body, BodyReady, Suits, NameFor;
    var memo2 := memo[key := NameFor(fixed, key)];
    forall k | k in memo && k !in pending ensures Finished(fixed, memo2, helpers, k, made[k]) {
      BodyReadyGrows(fixed, memo, memo2, k, made[k]);
    }
  }

  lemma SoundFinished(fixed: set<string>, memo: Memo, helpers: map<string, Helper>, made: map<Key, Node>, pending: set<Key>, key: Key)
    requires Sound(fixed, memo, helpers, made, pending) && key in memo && BodyReady(fixed, memo, key, made[key])
    ensures Sound(fixed, memo, helpers[NameFor(fixed, key) := Body(fixed, key, made[key])], made, pending - {key})
  {
    hide Body, BodyReady, Suits, NameFor;
    var helpers2 := helpers[NameFor(fixed, key) := Body(fixed, key, made[key])];
    forall k | k in memo && k !in pending - {key} ensures Finished(fixed, memo, helpers2, k, made[k]) {
      if NameFor(fixed, k) == NameFor(fixed, key) { NamesApart(fixed, k, key); }
    }
  }

  /** One generated file. */
  class File {
    const types: set<string>
    ghost const fixed: set<string>
    var names: set<string>
    var memo: Memo
    var helpers: map<string, Helper>
    ghost var made: map<Key, Node>
    ghost var pending: set<Key>

    ghost predicate Valid() reads this {
      Sound(fixed, memo, helpers, made, pending) && names + types == fixed + NamesOf(fixed, memo.Keys)
    }

    constructor (types: set<string>, names: set<string>)
      ensures this.types == types && this.names == names && fixed == types + names
      ensures memo == map[] && helpers == map[] && made == map[] && pending == {}
      ensures Valid()
    {
      this.types, this.names, this.fixed := types, names, types + names;
      memo, helpers, made, pending := map[], map[], map[], {};
    }

    method HelperName(base: string) returns (name: string)
      modifies this`names
      ensures name == EnumNames.Fresh(base, base, old(names) + types)
      ensures name !in old(names) && name !in types && base <= name && names == old(names) + {name}
    {
      name := EnumNames.FindFresh(base, base, names + types);
      names := names + {name};
    }

    /** Remembers the name of a helper about to be made. */
    method Start(key: Key, ghost e: Node)
      requires Valid() && key !in memo && Suits(key, e)
      modifies this
      ensures Valid() && pending == old(pending) + {key} && made == old(made)[key := e]
      ensures memo == old(memo)[key := NameFor(fixed, key)]
    {
      hide Sound, Base, NameFor, Suits;
      NameIgnoresHelpers(fixed, memo.Keys, key, NamesOf(fixed, memo.Keys));
      SoundNamed(fixed, memo, helpers, made, pending, key, e);
      var name := HelperName(Base(key));
      memo, made, pending := memo[key := name], made[key := e], pending + {key};
      NamesGrow(fixed, old(memo.Keys), key);
    }

    /** The statements for a shape, in its Zig type, its decoder or its encoder: all ask for the same helpers. */
    method Emit(hint: string, n: Node) returns (c: Code)
      requires Valid() && Proper(n)
      modifies this
      ensures Valid() && pending == old(pending) && Grows(old(memo), memo) && Grows(old(made), made)
      ensures Ready(memo, hint, n) && c == CodeOf(fixed, hint, n)
      ensures MadeFor(old(made), made, Requests(fixed, hint, n))
      decreases n, 0
    {
      hide Sound, Suits, NameFor, NamesOf, ShownLeaf;
      match n
      case LeafNode(l) => c := LeafCode(LeafNode(ShownLeaf(l)));
      case FixedNode(len, e) => c := Emit(hint, e); c := FixedCode(len, c);
      case OptionalNode(v) => c := Emit(hint, v); c := OptionalCode(c);
      case ListNode(p, e, lo, hi) =>
        if e.EntryNode? {
          var entry := MapEntry(hint, e);
          c := MapCode(p, entry, ShownMin(lo), ShownItems(hi));
        } else {
          var item := Emit(hint + "Item", e);
          var codec := CodecType(hint + "Item", e);
          c := ListCode(p, codec, ShownMin(lo), ShownItems(hi));
        }
      case _ => c := LeafCode(n);
    }

    method CodecType(hint: string, e: Node) returns (c: Element)
      requires Valid() && Proper(e)
      modifies this
      ensures Valid() && pending == old(pending) && Grows(old(memo), memo) && Grows(old(made), made)
      ensures if Direct(e) then c == Own(e) else CodecKey(hint) in memo && c == Named(NameFor(fixed, CodecKey(hint)))
      ensures MadeFor(old(made), made, Requests(fixed, hint, e) + if Direct(e) then {} else {Request(CodecKey(hint), e)})
      decreases e, 1
    {
      hide Sound, CodeOf, Ready, Requests, Suits, NameFor, NamesOf;
      var key := CodecKey(hint);
      if Direct(e) { return Own(e); }
      SoundKeys(fixed, memo, helpers, made, pending);
      if key in memo { return Named(memo[key]); }
      CodecSuits(hint, e);
      Start(key, e);
      c := Named(memo[key]);
      var code := Emit(hint, e);
      Finish(key, CodecHelper(code));
    }

    method MapEntry(hint: string, e: Node) returns (name: string)
      requires Valid() && e.EntryNode? && Proper(e.key) && Proper(e.value)
      modifies this
      ensures Valid() && pending == old(pending) && Grows(old(memo), memo) && Grows(old(made), made)
      ensures EntryKey(hint) in memo && name == NameFor(fixed, EntryKey(hint))
      ensures MadeFor(old(made), made,
        {Request(EntryKey(hint), e)} + Requests(fixed, name + "Key", e.key) + Requests(fixed, name + "Value", e.value))
      decreases e, 1
    {
      hide Sound, CodeOf, Ready, Requests, Suits, NameFor, NamesOf;
      var key := EntryKey(hint);
      SoundKeys(fixed, memo, helpers, made, pending);
      if key in memo { return memo[key]; }
      EntrySuits(hint, e);
      Start(key, e);
      name := memo[key];
      var k := Emit(name + "Key", e.key);
      ghost var memo1 := memo;
      var v := Emit(name + "Value", e.value);
      ReadyGrows(memo1, memo, name + "Key", e.key);
      Finish(key, EntryHelper(k, v));
    }

    method Finish(key: Key, helper: Helper)
      requires Valid() && key in memo && key in made && BodyReady(fixed, memo, key, made[key]) && helper == Body(fixed, key, made[key])
      modifies this`helpers, this`pending
      ensures Valid() && pending == old(pending) - {key}
    {
      hide Sound, NameFor, NamesOf, Body, BodyReady;
      SoundKeys(fixed, memo, helpers, made, pending);
      SoundFinished(fixed, memo, helpers, made, pending, key);
      helpers, pending := helpers[memo[key] := helper], pending - {key};
    }
  }

  lemma NamesGrow(fixed: set<string>, keys: set<Key>, key: Key)
    ensures NamesOf(fixed, keys + {key}) == NamesOf(fixed, keys) + {NameFor(fixed, key)}
  {
    hide NameFor;
    forall name | name in NamesOf(fixed, keys) + {NameFor(fixed, key)} ensures name in NamesOf(fixed, keys + {key}) {
      var k :| k in keys + {key} && NameFor(fixed, k) == name;
    }
  }

  // ---- every place gets helpers of its own shape exactly when no key stands for two ----

  /** A field or payload, under the hint its owner and its name make. */
  datatype Place = Place(hint: string, node: Node)

  function AllRequests(fixed: set<string>, places: seq<Place>): set<Request> {
    if |places| == 0 then {}
    else AllRequests(fixed, places[..|places| - 1]) + Requests(fixed, places[|places| - 1].hint, places[|places| - 1].node)
  }

  /** No key is asked for two nodes that different statements are emitted for. */
  predicate OneShapePerKey(rs: set<Request>) { forall a, b :: a in rs && b in rs && a.key == b.key ==> SameStatements(a.node, b.node) }

  /** The file with all its helpers made, and the places it was made for. */
  ghost predicate Complete(fixed: set<string>, memo: Memo, helpers: map<string, Helper>, made: map<Key, Node>, places: seq<Place>) {
    && Sound(fixed, memo, helpers, made, {}) && MadeFor(map[], made, AllRequests(fixed, places))
    && forall i :: 0 <= i < |places| ==> Proper(places[i].node) && Ready(memo, places[i].hint, places[i].node)
  }

  lemma {:induction false} RequestsOfPlace(fixed: set<string>, places: seq<Place>, i: nat)
    requires i < |places|
    ensures Requests(fixed, places[i].hint, places[i].node) <= AllRequests(fixed, places)
  {
    hide Requests;
    if i < |places| - 1 { RequestsOfPlace(fixed, places[..|places| - 1], i); }
  }

  lemma {:induction false} PlaceOfRequest(fixed: set<string>, places: seq<Place>, r: Request) returns (i: nat)
    requires r in AllRequests(fixed, places)
    ensures i < |places| && r in Requests(fixed, places[i].hint, places[i].node)
  {
    hide Requests;
    i := |places| - 1;
    if r !in Requests(fixed, places[i].hint, places[i].node) { i := PlaceOfRequest(fixed, places[..i], r); }
  }

  /** Nodes of the same statements are emitted alike. */
  lemma {:induction false} SameEmitted(fixed: set<string>, memo: Memo, hint: string, m: Node, n: Node)
    requires SameStatements(m, n) && Proper(n)
    ensures CodeOf(fixed, hint, m) == CodeOf(fixed, hint, n)
    ensures Ready(memo, hint, m) ==> Ready(memo, hint, n)
    decreases m
  {
    hide NameFor, ShownLeaf;
    match m
    case FixedNode(_, e) => SameEmitted(fixed, memo, hint, e, n.element);
    case OptionalNode(v) => SameEmitted(fixed, memo, hint, v, n.inner);
    case _ =>
  }

  /** With one shape per key, what is emitted means what the node says. */
  lemma {:induction false} RightMeans(
    fixed: set<string>, memo: Memo, helpers: map<string, Helper>, made: map<Key, Node>, hint: string, n: Node, rs: set<Request>)
    requires Sound(fixed, memo, helpers, made, {}) && MadeFor(map[], made, rs) && OneShapePerKey(rs)
    requires Proper(n) && Ready(memo, hint, n) && Requests(fixed, hint, n) <= rs
    ensures Means(helpers, CodeOf(fixed, hint, n), n)
    decreases n
  {
    hide Sound, NameFor, ShownLeaf;
    match n
    case FixedNode(_, e) => RightMeans(fixed, memo, helpers, made, hint, e, rs);
    case OptionalNode(v) => RightMeans(fixed, memo, helpers, made, hint, v, rs);
    case ListNode(_, e, _, _) =>
      if e.EntryNode? {
        var name := NameFor(fixed, EntryKey(hint));
        RightHelper(fixed, memo, helpers, made, EntryKey(hint), e, rs);
        RightMeans(fixed, memo, helpers, made, name + "Key", e.key, rs);
        RightMeans(fixed, memo, helpers, made, name + "Value", e.value, rs);
      } else if !Direct(e) {
        RightHelper(fixed, memo, helpers, made, CodecKey(hint + "Item"), e, rs);
        RightMeans(fixed, memo, helpers, made, hint + "Item", e, rs);
      }
    case _ =>
  }

  lemma RightHelper(
    fixed: set<string>, memo: Memo, helpers: map<string, Helper>, made: map<Key, Node>, key: Key, e: Node, rs: set<Request>)
    requires Sound(fixed, memo, helpers, made, {}) && MadeFor(map[], made, rs) && OneShapePerKey(rs)
    requires Request(key, e) in rs && key in memo && Suits(key, e)
    ensures Finished(fixed, memo, helpers, key, e)
  {
    hide NameFor, SameStatements, CodeOf, Ready;
    MadeBody(fixed, memo, helpers, made, key);
    var m := made[key];
    assert SameStatements(Request(key, m).node, Request(key, e).node);
    match key
    case CodecKey(hint) => SameEmitted(fixed, memo, hint, m, e);
    case EntryKey(_) =>
      var name := NameFor(fixed, key);
      SameEntry(m, e);
      SameEmitted(fixed, memo, name + "Key", m.key, e.key);
      SameEmitted(fixed, memo, name + "Value", m.value, e.value);
  }

  lemma SameEntry(m: Node, e: Node)
    requires SameStatements(m, e) && m.EntryNode?
    ensures e.EntryNode? && SameStatements(m.key, e.key) && SameStatements(m.value, e.value)
  {
  }

  /** What one shape's statements mean, another shape's under the same hint can only mean by being the same statements. */
  lemma {:induction false} SameCode(fixed: set<string>, memo: Memo, helpers: map<string, Helper>, hint: string, m: Node, e: Node)
    requires Proper(m) && Ready(memo, hint, m) && Means(helpers, CodeOf(fixed, hint, m), e)
    ensures Ready(memo, hint, e) && CodeOf(fixed, hint, e) == CodeOf(fixed, hint, m)
    decreases m
  {
    hide NameFor, ShownLeaf;
    match m
    case FixedNode(_, x) => SameCode(fixed, memo, helpers, hint, x, e.element);
    case OptionalNode(x) => SameCode(fixed, memo, helpers, hint, x, e.inner);
    case _ =>
  }

  /** Where the statements mean what the node says, so do all the helpers it asks for. */
  lemma {:induction false} MeansRight(
    fixed: set<string>, memo: Memo, helpers: map<string, Helper>, made: map<Key, Node>, hint: string, n: Node)
    requires Sound(fixed, memo, helpers, made, {}) && Proper(n) && Ready(memo, hint, n) && Means(helpers, CodeOf(fixed, hint, n), n)
    ensures forall r :: r in Requests(fixed, hint, n) ==> HelperMeans(helpers, NameFor(fixed, r.key), r.node)
    decreases n
  {
    hide Sound, NameFor, ShownLeaf;
    match n
    case FixedNode(_, e) => MeansRight(fixed, memo, helpers, made, hint, e);
    case OptionalNode(v) => MeansRight(fixed, memo, helpers, made, hint, v);
    case ListNode(_, e, _, _) =>
      if e.EntryNode? {
        var key := EntryKey(hint);
        MadeBody(fixed, memo, helpers, made, key);
        var name, m := NameFor(fixed, key), made[key];
        SameCode(fixed, memo, helpers, name + "Key", m.key, e.key);
        SameCode(fixed, memo, helpers, name + "Value", m.value, e.value);
        MeansRight(fixed, memo, helpers, made, name + "Key", e.key);
        MeansRight(fixed, memo, helpers, made, name + "Value", e.value);
      } else if Direct(e) {
        assert Requests(fixed, hint + "Item", e) == {};
      } else {
        var key := CodecKey(hint + "Item");
        MadeBody(fixed, memo, helpers, made, key);
        SameCode(fixed, memo, helpers, hint + "Item", made[key], e);
        MeansRight(fixed, memo, helpers, made, hint + "Item", e);
      }
    case _ =>
  }

  lemma MadeBody(fixed: set<string>, memo: Memo, helpers: map<string, Helper>, made: map<Key, Node>, key: Key)
    requires Sound(fixed, memo, helpers, made, {}) && key in memo
    ensures key in made && Suits(key, made[key]) && Finished(fixed, memo, helpers, key, made[key])
  {
    hide Suits, Finished, NameFor;
  }

  /** Statements and helpers mean only nodes of the same statements. */
  lemma {:induction false} MeansUnique(helpers: map<string, Helper>, c: Code, m: Node, n: Node)
    requires Means(helpers, c, m) && Means(helpers, c, n)
    ensures SameStatements(m, n)
    decreases m, 0
  {
    hide ShownLeaf, ShownItems, ShownMin;
    match m
    case FixedNode(_, e) => MeansUnique(helpers, c.item, e, n.element);
    case OptionalNode(v) => MeansUnique(helpers, c.inner, v, n.inner);
    case ListNode(_, e, _, _) => if e.EntryNode? || !Direct(e) {
        HelperUnique(helpers, if e.EntryNode? then c.entry else c.element.helper, e, n.element);
      }
    case _ =>
  }

  lemma {:induction false} HelperUnique(helpers: map<string, Helper>, name: string, m: Node, n: Node)
    requires HelperMeans(helpers, name, m) && HelperMeans(helpers, name, n)
    ensures SameStatements(m, n)
    decreases m, 1
  {
    match helpers[name]
    case CodecHelper(code) => MeansUnique(helpers, code, m, n);
    case EntryHelper(key, value) =>
      MeansUnique(helpers, key, m.key, n.key);
      MeansUnique(helpers, value, m.value, n.value);
  }

  /** Every place's statements, with those of all helpers they call, are the ones for its own node. */
  ghost predicate AllMean(fixed: set<string>, helpers: map<string, Helper>, places: seq<Place>) {
    forall i :: 0 <= i < |places| ==> Means(helpers, CodeOf(fixed, places[i].hint, places[i].node), places[i].node)
  }

  /**
   In a finished file every place has the statements of its own shape, down to the
   last nested element and entry, exactly when no hint is asked for two shapes. That
   is known from the places and the names alone, before anything is emitted.
   */
  lemma OwnHelpers(fixed: set<string>, memo: Memo, helpers: map<string, Helper>, made: map<Key, Node>, places: seq<Place>)
    requires Complete(fixed, memo, helpers, made, places)
    ensures AllMean(fixed, helpers, places) <==> OneShapePerKey(AllRequests(fixed, places))
  {
    hide Sound, Means, CodeOf, Ready, Requests, AllRequests, HelperMeans, Proper, NameFor, SameStatements;
    var rs := AllRequests(fixed, places);
    if OneShapePerKey(rs) {
      forall i | 0 <= i < |places| ensures Means(helpers, CodeOf(fixed, places[i].hint, places[i].node), places[i].node) {
        RequestsOfPlace(fixed, places, i);
        RightMeans(fixed, memo, helpers, made, places[i].hint, places[i].node, rs);
      }
    }
    if AllMean(fixed, helpers, places) {
      forall a, b | a in rs && b in rs && a.key == b.key ensures SameStatements(a.node, b.node) {
        var i := PlaceOfRequest(fixed, places, a);
        var j := PlaceOfRequest(fixed, places, b);
        MeansRight(fixed, memo, helpers, made, places[i].hint, places[i].node);
        MeansRight(fixed, memo, helpers, made, places[j].hint, places[j].node);
        HelperUnique(helpers, NameFor(fixed, a.key), a.node, b.node);
      }
    }
  }

  /** Emits every place twice, for its Zig type and for its statements, into an empty file. */
  method EmitPlaces(types: set<string>, names: set<string>, places: seq<Place>)
    returns (helpers: map<string, Helper>, codes: seq<Code>, ghost memo: Memo, ghost made: map<Key, Node>)
    requires forall p :: p in places ==> Proper(p.node)
    ensures |codes| == |places| && forall i :: 0 <= i < |places| ==> codes[i] == CodeOf(types + names, places[i].hint, places[i].node)
    ensures Complete(types + names, memo, helpers, made, places)
    ensures (forall i :: 0 <= i < |places| ==> Means(helpers, codes[i], places[i].node))
      <==> OneShapePerKey(AllRequests(types + names, places))
  {
    hide Sound, CodeOf, Ready, Requests, Proper, NamesOf, NameFor, OneShapePerKey, Means;
    ghost var fixed := types + names;
    var file := new File(types, names);
    for i := 0 to |places|
      invariant file.Valid() && file.pending == {} && file.fixed == fixed && fresh(file)
      invariant MadeFor(map[], file.made, AllRequests(fixed, places[..i]))
    {
      var c := file.Emit(places[i].hint, places[i].node);
      assert places[..i + 1][..i] == places[..i];
    }
    assert places[..|places|] == places;
    codes := [];
    for i := 0 to |places|
      invariant file.Valid() && file.pending == {} && file.fixed == fixed && fresh(file) && |codes| == i
      invariant MadeFor(map[], file.made, AllRequests(fixed, places))
      invariant forall j :: 0 <= j < i ==>
        Ready(file.memo, places[j].hint, places[j].node) && codes[j] == CodeOf(fixed, places[j].hint, places[j].node)
    {
      ghost var before := file.memo;
      var c := file.Emit(places[i].hint, places[i].node);
      RequestsOfPlace(fixed, places, i);
      forall j | 0 <= j < i ensures Ready(file.memo, places[j].hint, places[j].node) {
        ReadyGrows(before, file.memo, places[j].hint, places[j].node);
      }
      codes := codes + [c];
    }
    helpers, memo, made := file.helpers, file.memo, file.made;
    OwnHelpers(fixed, memo, helpers, made, places);
  }

  // ---- inside one place hints never clash ----

  /** Requests from below a hint: codecs strictly below it. */
  predicate Below(hint: string, rs: set<Request>) {
    forall r :: r in rs ==> hint <= r.key.hint && (r.key.CodecKey? ==> |hint| < |r.key.hint|)
  }

  predicate OneNodePerKey(rs: set<Request>) { forall a, b :: a in rs && b in rs && a.key == b.key ==> a.node == b.node }

  /** Whatever names its entry structs get, one place asks for no helper for two nodes. */
  lemma {:induction false} PlaceHintsApart(fixed: set<string>, hint: string, n: Node)
    ensures Below(hint, Requests(fixed, hint, n)) && OneNodePerKey(Requests(fixed, hint, n))
    decreases n
  {
    hide NameFor;
    match n
    case FixedNode(_, e) => PlaceHintsApart(fixed, hint, e);
    case OptionalNode(v) => PlaceHintsApart(fixed, hint, v);
    case ListNode(_, e, _, _) =>
      if !e.EntryNode? {
        PlaceHintsApart(fixed, hint + "Item", e);
      } else {
        var name := NameFor(fixed, EntryKey(hint));
        PlaceHintsApart(fixed, name + "Key", e.key);
        PlaceHintsApart(fixed, name + "Value", e.value);
        BranchesApart(name, Requests(fixed, name + "Key", e.key), Requests(fixed, name + "Value", e.value));
      }
    case _ =>
  }

  lemma BranchesApart(name: string, ks: set<Request>, vs: set<Request>)
    requires Below(name + "Key", ks) && Below(name + "Value", vs) && OneNodePerKey(ks) && OneNodePerKey(vs)
    ensures OneNodePerKey(ks + vs) && forall r :: r in ks + vs ==> name <= r.key.hint && |name| < |r.key.hint|
  {
    var at := |name|;
    forall r | r in ks ensures |r.key.hint| > at && r.key.hint[at] == 'K' && name <= r.key.hint {
      assert (name + "Key")[at] == 'K' && (name + "Key")[..at] == name;
    }
    forall r | r in vs ensures |r.key.hint| > at && r.key.hint[at] == 'V' && name <= r.key.hint {
      assert (name + "Value")[at] == 'V' && (name + "Value")[..at] == name;
    }
  }

  // ---- two fields of one struct can clash ----

  function ByteLeaf(min: Option<int>, max: Option<int>): Node { LeafNode(IntLeaf(U8, min, max)) }

  function ListOf(e: Node): Node { ListNode(CountVarU32, e, None, None) }

  /** A field `bar` that is a list of lists and a field `bar_item` that is a list ask for element codecs under one hint. */
  function Lists(a: Node, b: Node): seq<Place> { [Place("TBar", ListOf(ListOf(a))), Place("TBarItem", ListOf(b))] }

  lemma ListsAskFor(fixed: set<string>, a: Node, b: Node)
    requires a.LeafNode? && b.LeafNode? && !Direct(a) && !Direct(b)
    ensures AllRequests(fixed, Lists(a, b)) ==
      {Request(CodecKey("TBarItem"), ListOf(a)), Request(CodecKey("TBarItemItem"), a), Request(CodecKey("TBarItemItem"), b)}
  {
    assert "TBar" + "Item" == "TBarItem" && "TBarItem" + "Item" == "TBarItemItem";
    var places := Lists(a, b);
    assert Requests(fixed, "TBarItem", ListOf(b)) == {Request(CodecKey("TBarItemItem"), b)};
    assert Requests(fixed, "TBarItem", ListOf(a)) == {Request(CodecKey("TBarItemItem"), a)};
    assert places[..1][..0] == [] && AllRequests(fixed, places[..1]) == Requests(fixed, "TBar", ListOf(ListOf(a)));
  }

  /** With different bounds checked, the second list gets the bounds of the first. */
  lemma FieldsCanClash(fixed: set<string>)
    ensures !OneShapePerKey(AllRequests(fixed, Lists(ByteLeaf(None, Some(1)), ByteLeaf(None, Some(2)))))
  {
    var a, b := ByteLeaf(None, Some(1)), ByteLeaf(None, Some(2));
    ListsAskFor(fixed, a, b);
    ByteRange();
    assert !SameStatements(Request(CodecKey("TBarItemItem"), a).node, Request(CodecKey("TBarItemItem"), b).node);
  }

  /** Bounds that are never checked make no difference. */
  lemma UncheckedBoundsAgree(fixed: set<string>)
    ensures OneShapePerKey(AllRequests(fixed, Lists(ByteLeaf(Some(0), None), ByteLeaf(None, Some(255)))))
  {
    ListsAskFor(fixed, ByteLeaf(Some(0), None), ByteLeaf(None, Some(255)));
    ByteRange();
  }

  lemma {:induction false} SameToItself(n: Node)
    ensures SameStatements(n, n)
  {
    match n
    case LeafNode(_) =>
    case RefNode(_, _) =>
    case EntryNode(k, v) => SameToItself(k); SameToItself(v);
    case FixedNode(_, e) => SameToItself(e);
    case OptionalNode(v) => SameToItself(v);
    case ListNode(_, e, _, _) => SameToItself(e);
  }

  /** So do lengths and counts from zero up, and counts no prefix can exceed. */
  lemma UncheckedCountsAgree(p: CountPrefix, e: Node, most: nat, maxLen: Option<nat>)
    ensures SameStatements(ListNode(p, e, Some(0), if most >= 0x1_0000_0000 then Some(most) else None), ListNode(p, e, None, None))
    ensures SameStatements(LeafNode(StringLeaf(Some(0), maxLen, None)), LeafNode(StringLeaf(None, maxLen, None)))
    ensures SameStatements(LeafNode(BytesLeaf(Some(0), maxLen)), LeafNode(BytesLeaf(None, maxLen)))
  {
    SameToItself(e);
  }

  lemma ByteRange()
    ensures Least(U8) == 0 && Greatest(U8) == 255
  {
    Pow2Plus8(0);
  }

  const BYTE := ByteLeaf(None, None)

  const TEXT := LeafNode(StringLeaf(None, None, None))

  function MapOf(k: Node, v: Node): Node { ListOf(EntryNode(k, v)) }

  const MAPS := [Place("TBar", ListOf(MapOf(BYTE, BYTE))), Place("TBarItem", MapOf(BYTE, TEXT))]

  /** A list of maps `bar` and a map `bar_item` ask for their entry structs under one hint. */
  lemma MapsCanClash(fixed: set<string>)
    ensures !OneShapePerKey(AllRequests(fixed, MAPS))
  {
    hide NameFor;
    assert "TBar" + "Item" == "TBarItem";
    RequestsOfPlace(fixed, MAPS, 0);
    RequestsOfPlace(fixed, MAPS, 1);
    var a, b := Request(EntryKey("TBarItem"), EntryNode(BYTE, BYTE)), Request(EntryKey("TBarItem"), EntryNode(BYTE, TEXT));
    assert a in Requests(fixed, "TBarItem", MapOf(BYTE, BYTE));
    assert a in Requests(fixed, "TBar", ListOf(MapOf(BYTE, BYTE)));
    assert b in Requests(fixed, "TBarItem", MapOf(BYTE, TEXT));
    assert a.key == b.key && !SameStatements(a.node, b.node);
  }

  lemma FirstMap(fixed: set<string>, memo: Memo, helpers: map<string, Helper>, made: map<Key, Node>)
    requires Sound(fixed, memo, helpers, made, {}) && MadeFor(map[], made, Requests(fixed, "TBar", MAPS[0].node))
    requires Ready(memo, "TBar", MAPS[0].node)
    ensures EntryKey("TBarItem") in made && made[EntryKey("TBarItem")] == EntryNode(BYTE, BYTE)
  {
    hide NameFor;
    assert "TBar" + "Item" == "TBarItem";
    var rs := Requests(fixed, "TBar", MAPS[0].node);
    PlaceHintsApart(fixed, "TBar", MAPS[0].node);
    MadeBody(fixed, memo, helpers, made, CodecKey("TBarItem"));
    assert Request(CodecKey("TBarItem"), MapOf(BYTE, BYTE)) in rs && Request(CodecKey("TBarItem"), made[CodecKey("TBarItem")]) in rs;
    assert made[CodecKey("TBarItem")] == Request(CodecKey("TBarItem"), MapOf(BYTE, BYTE)).node;
    var e := EntryNode(BYTE, BYTE);
    assert Request(EntryKey("TBarItem"), e) in Requests(fixed, "TBarItem", MapOf(BYTE, BYTE));
    assert Request(EntryKey("TBarItem"), e) in rs;
    assert Request(EntryKey("TBarItem"), made[EntryKey("TBarItem")]).node == e;
  }

  lemma SecondMap(fixed: set<string>, memo: Memo, helpers: map<string, Helper>, made: map<Key, Node>)
    requires Sound(fixed, memo, helpers, made, {})
    requires EntryKey("TBarItem") in made && made[EntryKey("TBarItem")] == EntryNode(BYTE, BYTE)
    ensures var c := CodeOf(fixed, "TBarItem", MAPS[1].node);
      Means(helpers, c, MapOf(BYTE, BYTE)) && !Means(helpers, c, MapOf(BYTE, TEXT))
  {
    hide NameFor;
    var c := CodeOf(fixed, "TBarItem", MAPS[1].node);
    MadeBody(fixed, memo, helpers, made, EntryKey("TBarItem"));
    assert HelperMeans(helpers, c.entry, EntryNode(BYTE, BYTE));
    assert Means(helpers, c, MapOf(BYTE, BYTE));
    if Means(helpers, c, MapOf(BYTE, TEXT)) { MeansUnique(helpers, c, MapOf(BYTE, BYTE), MapOf(BYTE, TEXT)); }
  }

  /** Emitted for a map from bytes to strings, the statements are those for a map from bytes to bytes. */
  method EmitClashingMaps(types: set<string>) returns (helpers: map<string, Helper>, codes: seq<Code>)
    ensures |codes| == 2 && Means(helpers, codes[1], MapOf(BYTE, BYTE)) && !Means(helpers, codes[1], MapOf(BYTE, TEXT))
  {
    hide Sound, Ready, CodeOf, Requests, Means, NameFor, NamesOf;
    var file := new File(types, {"T"});
    var bar := file.Emit("TBar", MAPS[0].node);
    FirstMap(file.fixed, file.memo, file.helpers, file.made);
    var item := file.Emit("TBarItem", MAPS[1].node);
    SecondMap(file.fixed, file.memo, file.helpers, file.made);
    helpers, codes := file.helpers, [bar, item];
  }
}
