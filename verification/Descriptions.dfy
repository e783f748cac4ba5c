/** The one-line description of a shape that schema diffs compare, and why it tells shapes apart. */
module Descriptions {
  import opened Wire
  import opened Integers
  import opened Text
  import opened Leaves
  import opened Schemas
  import opened EnumNames
  import opened Simulation

  /** A shape as the schema file writes it: bounds of numbers, floats included, in the spelling they have there. */
  datatype Written =
    | LeafNode(leaf: Leaf, min: Option<string>, max: Option<string>)
    | ListNode(prefix: CountPrefix, element: Written, minItems: Option<nat>, maxItems: Option<nat>)
    | EntryNode(key: Written, value: Written)
    | FixedNode(len: nat, element: Written)
    | OptionalNode(inner: Written)
    | RefNode(ref: string, allowed: seq<int>)

  // ---- words and what ends them ----

  predicate Delimiter(c: char) { c == ' ' || c == '(' || c == ')' || c == '{' || c == '}' || c == ',' }

  predicate Wordy(w: string) { forall i :: 0 <= i < |w| ==> !Delimiter(w[i]) }

  /** Nothing, or something that ends a word. */
  predicate Ends(r: string) { |r| == 0 || Delimiter(r[0]) }

  lemma WordSplit(w: string, r: string, w': string, r': string)
    requires Wordy(w) && Wordy(w') && Ends(r) && Ends(r') && w + r == w' + r'
    ensures w == w' && r == r'
  {
    var s := w + r;
    assert s[..|w|] == w && (w' + r')[..|w'|] == w' && s[|w|..] == r && (w' + r')[|w'|..] == r';
  }

  // ---- numbers ----

  function IntText(v: int): string { if v < 0 then "-" + Digits(-v) else Digits(v) }

  predicate IsDigit(c: char) { '0' <= c <= '9' }

  predicate Numeric(w: string) { forall i :: 0 <= i < |w| ==> IsDigit(w[i]) || w[i] == '-' }

  lemma {:induction false} DigitsNumeric(n: nat)
    ensures forall i :: 0 <= i < |Digits(n)| ==> IsDigit(Digits(n)[i])
  {
    if n >= 10 { DigitsNumeric(n / 10); }
  }

  lemma IntTextNumeric(v: int)
    ensures Numeric(IntText(v)) && |IntText(v)| > 0 && Wordy(IntText(v))
    ensures v >= 0 ==> IsDigit(IntText(v)[0])
  {
    DigitsNumeric(if v < 0 then -v else v);
  }

  lemma IntTextInjective(v: int, w: int)
    requires IntText(v) == IntText(w)
    ensures v == w
  {
    hide Digits, Wordy, Numeric;
    IntTextNumeric(v);
    IntTextNumeric(w);
    if v < 0 && w < 0 {
      Strip("-", Digits(-v), Digits(-w));
      DigitsInjective(-v, -w);
    } else if v >= 0 && w >= 0 {
      DigitsInjective(v, w);
    }
  }

  /** A number ends where the first other character is. */
  lemma NumberSplit(v: int, r: string, w: int, r': string)
    requires |r| > 0 && !IsDigit(r[0]) && r[0] != '-' && |r'| > 0 && !IsDigit(r'[0]) && r'[0] != '-'
    requires IntText(v) + r == IntText(w) + r'
    ensures v == w && r == r'
  {
    hide IntText;
    IntTextNumeric(v);
    IntTextNumeric(w);
    var a, b := IntText(v), IntText(w);
    var s, t := a + r, b + r';
    assert s[..|a|] == a && t[..|b|] == b && s[|a|..] == r && t[|b|..] == r';
    IntTextInjective(v, w);
  }

  /** The letters of a number in a schema file: -3, 1.5 or 2e10. */
  predicate NumberText(t: string) {
    forall i :: 0 <= i < |t| ==> IsDigit(t[i]) || t[i] == '-' || t[i] == '+' || t[i] == '.' || t[i] == 'e' || t[i] == 'E'
  }

  predicate Spelled(t: Option<string>) { t.Some? ==> NumberText(t.value) }

  // ---- heads ----

  function KindName(k: IntKind): string {
    match k
    case VarU32 => "var_u32"
    case VarU64 => "var_u64"
    case ZigzagI32 => "zigzag_i32"
    case ZigzagI64 => "zigzag_i64"
    case Fixed(size, signed, big) =>
      (if signed then "i" else "u")
      + (if size == 1 then "8" else if size == 2 then "16" else if size == 4 then "32" else "64")
      + (if size == 1 then "" else if big then "be" else "le")
  }

  predicate NamedKind(k: IntKind) {
    k.Fixed? ==> k.size in {1, 2, 4, 8} && (k.size == 1 ==> !k.big)
  }

  lemma KindChars(k: IntKind)
    requires NamedKind(k)
    ensures var w := KindName(k);
      match k
      case Fixed(size, signed, big) =>
        && |w| == (if size == 1 then 2 else 5) && w[0] == (if signed then 'i' else 'u')
        && w[1] == (if size == 1 then '8' else if size == 2 then '1' else if size == 4 then '3' else '6')
        && (size > 1 ==> w[3] == if big then 'b' else 'l')
      case VarU32 => |w| == 7 && w[0] == 'v' && w[1] == 'a' && w[5] == '3'
      case VarU64 => |w| == 7 && w[0] == 'v' && w[1] == 'a' && w[5] == '6'
      case ZigzagI32 => |w| == 10 && w[0] == 'z' && w[1] == 'i' && w[8] == '3'
      case ZigzagI64 => |w| == 10 && w[0] == 'z' && w[1] == 'i' && w[8] == '6'
  {
  }

  lemma KindNameInjective(j: IntKind, k: IntKind)
    requires NamedKind(j) && NamedKind(k) && KindName(j) == KindName(k)
    ensures j == k
  {
    hide KindName;
    KindChars(j);
    KindChars(k);
  }

  function PrefixName(p: CountPrefix): string { if p.CountVarU32? then "var_u32" else "u32le" }

  function LeafWord(l: Leaf): string {
    match l
    case BoolLeaf => "bool"
    case IntLeaf(k, _, _) => KindName(k)
    case FloatLeaf(size) => if size == 4 then "f32le" else "f64le"
    case UuidLeaf => "uuid"
    case StringLeaf(_, _, _) => "string<var_u32>"
    case BytesLeaf(_, _) => "bytes<var_u32>"
    case BitsetLeaf(bits) => "bitset[" + Digits(bits) + "]"
    case IngredientLeaf => "custom"
  }

  function HeadWord(n: Written): string {
    match n
    case LeafNode(l, _, _) => LeafWord(l)
    case ListNode(p, e, _, _) => (if e.EntryNode? then "map<" else "list<") + PrefixName(p) + ">"
    case EntryNode(_, _) => ""
    case FixedNode(len, _) => "fixed[" + Digits(len) + "]"
    case OptionalNode(_) => "optional"
    case RefNode(_, _) => "ref"
  }

  /** The name after the head of a reference or of a hand-written type. */
  function HeadName(n: Written): string {
    if n.RefNode? then " " + n.ref else if n.LeafNode? && n.leaf.IngredientLeaf? then " RecipeIngredient" else ""
  }

  predicate LetterOrDigit(c: char) { 'a' <= c <= 'z' || 'A' <= c <= 'Z' || '0' <= c <= '9' }

  predicate Alphanumeric(w: string) { forall i :: 0 <= i < |w| ==> LetterOrDigit(w[i]) }

  /** What validation demands of a shape, as far as its description goes. */
  predicate Described(n: Written) {
    match n
    case LeafNode(l, min, max) =>
      && (l.IntLeaf? ==> NamedKind(l.kind) && l.min.None? && l.max.None?) && (l.FloatLeaf? ==> l.size in {4, 8})
      && Spelled(min) && Spelled(max) && (min.Some? || max.Some? ==> l.IntLeaf? || l.FloatLeaf?)
    case ListNode(_, e, _, _) => if e.EntryNode? then Described(e.key) && Described(e.value) else Described(e)
    case EntryNode(_, _) => false
    case FixedNode(_, e) => Described(e)
    case OptionalNode(v) => Described(v)
    case RefNode(r, _) => Alphanumeric(r)
  }

  /** The same head: everything but names, bounds and children. */
  predicate SameKind(a: Written, b: Written) {
    match a
    case LeafNode(l, _, _) => b.LeafNode? && SameLeaf(l, b.leaf)
    case ListNode(p, e, _, _) => b.ListNode? && b.prefix == p && b.element.EntryNode? == e.EntryNode?
    case EntryNode(_, _) => b.EntryNode?
    case FixedNode(len, _) => b.FixedNode? && b.len == len
    case OptionalNode(_) => b.OptionalNode?
    case RefNode(_, _) => b.RefNode?
  }

  /** The first two letters of a head. */
  function Initials(n: Written): (char, char) {
    match n
    case LeafNode(l, _, _) =>
      (match l
       case BoolLeaf => ('b', 'o')
       case IntLeaf(k, _, _) =>
         (match k
          case Fixed(size, signed, _) =>
            (if signed then 'i' else 'u', if size == 1 then '8' else if size == 2 then '1' else if size == 4 then '3' else '6')
          case VarU32 => ('v', 'a')
          case VarU64 => ('v', 'a')
          case ZigzagI32 => ('z', 'i')
          case ZigzagI64 => ('z', 'i'))
       case FloatLeaf(size) => ('f', if size == 4 then '3' else '6')
       case UuidLeaf => ('u', 'u')
       case StringLeaf(_, _, _) => ('s', 't')
       case BytesLeaf(_, _) => ('b', 'y')
       case BitsetLeaf(_) => ('b', 'i')
       case IngredientLeaf => ('c', 'u'))
    case ListNode(_, e, _, _) => if e.EntryNode? then ('m', 'a') else ('l', 'i')
    case EntryNode(_, _) => (' ', ' ')
    case FixedNode(_, _) => ('f', 'i')
    case OptionalNode(_) => ('o', 'p')
    case RefNode(_, _) => ('r', 'e')
  }

  lemma HeadInitials(n: Written)
    requires Described(n)
    ensures |HeadWord(n)| >= 2 && HeadWord(n)[0] == Initials(n).0 && HeadWord(n)[1] == Initials(n).1
  {
    if n.LeafNode? && n.leaf.IntLeaf? { KindChars(n.leaf.kind); }
  }

  lemma WordyConcat(a: string, b: string, c: string)
    requires Wordy(a) && Wordy(b) && Wordy(c)
    ensures Wordy(a + b + c)
  {
  }

  lemma DigitsWordy(n: nat)
    ensures Wordy(Digits(n))
  {
    DigitsNumeric(n);
  }

  lemma HeadWordy(n: Written)
    requires Described(n)
    ensures Wordy(HeadWord(n))
  {
    hide Wordy;
    match n
    case LeafNode(l, _, _) => LeafWordy(l);
    case ListNode(p, e, _, _) => ListWordy(if e.EntryNode? then "map<" else "list<", p);
    case FixedNode(len, _) => DigitsWordy(len); ShortWords(); WordyConcat("fixed[", Digits(len), "]");
    case OptionalNode(_) => ShortWords();
    case RefNode(_, _) => ShortWords();
  }

  lemma ShortWords()
    ensures Wordy("fixed[") && Wordy("bitset[") && Wordy("]") && Wordy("optional") && Wordy("ref")
  {
  }

  lemma ListWordy(open: string, p: CountPrefix)
    requires open == "map<" || open == "list<"
    ensures Wordy(open + PrefixName(p) + ">")
  {
    WordyConcat(open, PrefixName(p), ">");
  }

  lemma LeafWordy(l: Leaf)
    ensures Wordy(LeafWord(l))
  {
    match l
    case IntLeaf(k, _, _) => KindWordy(k);
    case BitsetLeaf(bits) => DigitsWordy(bits); ShortWords(); WordyConcat("bitset[", Digits(bits), "]");
    case _ =>
  }

  lemma KindWordy(k: IntKind)
    ensures Wordy(KindName(k))
  {
    match k
    case Fixed(size, signed, big) =>
      WordyConcat(if signed then "i" else "u",
        if size == 1 then "8" else if size == 2 then "16" else if size == 4 then "32" else "64",
        if size == 1 then "" else if big then "be" else "le");
    case _ =>
  }

  lemma BracketedInjective(open: string, m: nat, n: nat)
    requires open + Digits(m) + "]" == open + Digits(n) + "]"
    ensures m == n
  {
    var s, t := open + Digits(m) + "]", open + Digits(n) + "]";
    assert s[|open|..|s| - 1] == Digits(m) && t[|open|..|t| - 1] == Digits(n);
    DigitsInjective(m, n);
  }

  lemma PrefixInjective(open: string, p: CountPrefix, q: CountPrefix)
    requires open + PrefixName(p) + ">" == open + PrefixName(q) + ">"
    ensures p == q
  {
    assert |PrefixName(p)| == |PrefixName(q)|;
  }

  lemma SameInitials(a: Written, b: Written)
    requires Described(a) && Described(b) && Initials(a) == Initials(b)
    ensures a.LeafNode? == b.LeafNode? && a.ListNode? == b.ListNode? && a.FixedNode? == b.FixedNode?
    ensures a.OptionalNode? == b.OptionalNode? && a.RefNode? == b.RefNode?
    ensures a.ListNode? ==> a.element.EntryNode? == b.element.EntryNode?
    ensures a.LeafNode? ==>
      && a.leaf.BoolLeaf? == b.leaf.BoolLeaf? && a.leaf.IntLeaf? == b.leaf.IntLeaf? && a.leaf.UuidLeaf? == b.leaf.UuidLeaf?
      && a.leaf.FloatLeaf? == b.leaf.FloatLeaf? && (a.leaf.FloatLeaf? ==> a.leaf == b.leaf)
      && a.leaf.StringLeaf? == b.leaf.StringLeaf? && a.leaf.BytesLeaf? == b.leaf.BytesLeaf?
      && a.leaf.BitsetLeaf? == b.leaf.BitsetLeaf? && a.leaf.IngredientLeaf? == b.leaf.IngredientLeaf?
  {
  }

  lemma SameHeadWord(a: Written, b: Written)
    requires Described(a) && Described(b) && HeadWord(a) == HeadWord(b)
    ensures SameKind(a, b)
  {
    assert a.LeafNode? && a.leaf.IntLeaf? ==> NamedKind(a.leaf.kind);
    assert b.LeafNode? && b.leaf.IntLeaf? ==> NamedKind(b.leaf.kind);
    hide Initials, Described, KindName, NamedKind;
    HeadInitials(a);
    HeadInitials(b);
    SameInitials(a, b);
    match a
    case LeafNode(l, _, _) =>
      if l.IntLeaf? { LeafKinds(l, b.leaf); }
      if l.BitsetLeaf? { BracketedInjective("bitset[", l.bits, b.leaf.bits); }
    case ListNode(p, e, _, _) => PrefixInjective(if e.EntryNode? then "map<" else "list<", p, b.prefix);
    case FixedNode(len, _) => BracketedInjective("fixed[", len, b.len);
    case _ =>
  }

  lemma LeafKinds(l: Leaf, m: Leaf)
    requires l.IntLeaf? && m.IntLeaf? && NamedKind(l.kind) && NamedKind(m.kind) && KindName(l.kind) == KindName(m.kind)
    ensures l.kind == m.kind
  {
    KindNameInjective(l.kind, m.kind);
  }

  // ---- bounds ----

  /** The reviewed expressions, as the schema writes them. */
  function PatternText(p: Pattern): string {
    match p
    case UuidJpeg => "^[" + "0-9a-f]{8}-[0-9a-f]{4}-[0-9a-f]{4}-[0-9a-f]{4}-[0-9a-f]{12}\\.jpeg$"
    case NamespacedWord => "^\\w+:\\w+$"
    case SplineType => "^(?:catmullrom|linear)$"
  }

  function Bound(name: string, v: Option<string>): seq<string> { if v.None? then [] else [name + "=" + v.value] }

  function Count(v: Option<nat>): Option<string> { if v.None? then None else Some(IntText(v.value)) }

  function PatternBound(p: Option<Pattern>): seq<string> { if p.None? then [] else ["pattern=" + PatternText(p.value)] }

  function Spaced(vs: seq<int>): string {
    if |vs| == 0 then "]" else if |vs| == 1 then IntText(vs[0]) + "]" else IntText(vs[0]) + " " + Spaced(vs[1..])
  }

  function AllowedBound(vs: seq<int>): seq<string> { if |vs| == 0 then [] else ["allowed=[" + Spaced(vs)] }

  /** The constraints of one shape, sorted by name. */
  function Items(n: Written): seq<string> {
    match n
    case LeafNode(l, min, max) =>
      (match l
       case IntLeaf(_, _, _) => Bound("max", max) + Bound("min", min)
       case FloatLeaf(_) => Bound("max", max) + Bound("min", min)
       case StringLeaf(minLen, maxLen, pattern) => Bound("max_len", Count(maxLen)) + Bound("min_len", Count(minLen)) + PatternBound(pattern)
       case BytesLeaf(minLen, maxLen) => Bound("max_len", Count(maxLen)) + Bound("min_len", Count(minLen))
       case _ => [])
    case ListNode(_, _, minItems, maxItems) => Bound("max_items", Count(maxItems)) + Bound("min_items", Count(minItems))
    case RefNode(_, allowed) => AllowedBound(allowed)
    case _ => []
  }

  /** Items in braces, separated by commas, and what follows. */
  function Braced(started: bool, items: seq<string>, rest: string): string
    decreases |items|
  {
    if |items| == 0 then (if started then "}" + rest else rest)
    else (if started then "," else "{") + items[0] + Braced(true, items[1..], rest)
  }

  function Describe(n: Written): string
    decreases n, 1
  {
    HeadWord(n) + HeadName(n) + Braced(false, Items(n), Children(n))
  }

  function Children(n: Written): string
    decreases n, 0
  {
    match n
    case ListNode(_, e, _, _) =>
      if e.EntryNode? then "(" + Describe(e.key) + " => " + Describe(e.value) + ")" else "(" + Describe(e) + ")"
    case FixedNode(_, e) => "(" + Describe(e) + ")"
    case OptionalNode(v) => "(" + Describe(v) + ")"
    case _ => ""
  }

  // ---- items can be read back ----

  lemma {:induction false} SpacedSplit(vs: seq<int>, r: string, ws: seq<int>, r': string)
    requires |vs| > 0 && |ws| > 0 && Spaced(vs) + r == Spaced(ws) + r'
    ensures vs == ws && r == r'
  {
    hide IntText, Spaced, IsDigit;
    var a, b := SpacedTail(vs) + r, SpacedTail(ws) + r';
    SpacedParts(vs, r);
    SpacedParts(ws, r');
    NumberSplit(vs[0], a, ws[0], b);
    if |vs| > 1 && |ws| > 1 { SpacedSplit(vs[1..], r, ws[1..], r'); }
    assert vs == [vs[0]] + vs[1..] && ws == [ws[0]] + ws[1..];
  }

  lemma SpacedParts(vs: seq<int>, r: string)
    requires |vs| > 0
    ensures var a := SpacedTail(vs) + r;
      && Spaced(vs) + r == IntText(vs[0]) + a
      && !IsDigit(a[0]) && a[0] != '-' && a[0] == (if |vs| > 1 then ' ' else ']')
      && a[1..] == if |vs| > 1 then Spaced(vs[1..]) + r else r
  {
    hide IntText;
    if |vs| == 1 {
      Regroup(IntText(vs[0]), "]", r);
    } else {
      var more := Spaced(vs[1..]);
      assert IntText(vs[0]) + " " + more == IntText(vs[0]) + (" " + more);
      Regroup(IntText(vs[0]), " " + more, r);
      Regroup(" ", more, r);
    }
  }

  lemma Regroup(a: string, b: string, c: string)
    ensures (a + b) + c == a + (b + c)
  {
  }

  function SpacedTail(vs: seq<int>): string
    requires |vs| > 0
  {
    if |vs| == 1 then "]" else " " + Spaced(vs[1..])
  }

  predicate CountItem(w: string) { Wordy(w) && |w| > 1 && w[0] == 'm' }

  ghost predicate PatternItem(w: string) { exists p :: w == "pattern=" + PatternText(p) }

  ghost predicate AllowedItem(w: string) { exists vs :: |vs| > 0 && w == "allowed=[" + Spaced(vs) }

  ghost predicate Item(w: string) { CountItem(w) || PatternItem(w) || AllowedItem(w) }

  predicate Follows(r: string) { |r| > 0 && (r[0] == ',' || r[0] == '}') }

  lemma ItemSplit(w: string, r: string, w': string, r': string)
    requires Item(w) && Item(w') && Follows(r) && Follows(r') && w + r == w' + r'
    ensures w == w' && r == r'
  {
    hide CountItem, PatternItem, AllowedItem;
    ItemStarts(w);
    ItemStarts(w');
    assert (w + r)[0] == w[0] && (w' + r')[0] == w'[0];
    if CountItem(w) {
      CountSplit(w, r, w', r');
    } else if PatternItem(w) {
      PatternSplit(w, r, w', r');
    } else {
      AllowedSplit(w, r, w', r');
    }
  }

  lemma ItemStarts(w: string)
    requires Item(w)
    ensures |w| > 1
    ensures CountItem(w) <==> w[0] == 'm'
    ensures PatternItem(w) <==> w[0] == 'p'
    ensures AllowedItem(w) <==> w[0] == 'a'
  {
    hide PatternText, Spaced;
  }

  lemma CountSplit(w: string, r: string, w': string, r': string)
    requires CountItem(w) && CountItem(w') && Follows(r) && Follows(r') && w + r == w' + r'
    ensures w == w' && r == r'
  {
    WordSplit(w, r, w', r');
  }

  lemma PatternSplit(w: string, r: string, w': string, r': string)
    requires PatternItem(w) && PatternItem(w') && w + r == w' + r'
    ensures w == w' && r == r'
  {
    hide PatternText;
    var p :| w == "pattern=" + PatternText(p);
    var q :| w' == "pattern=" + PatternText(q);
    PatternChar(p);
    PatternChar(q);
    assert (w + r)[9] == PatternText(p)[1] && (w' + r')[9] == PatternText(q)[1];
    assert (w + r)[|w|..] == r && (w' + r')[|w'|..] == r';
  }

  lemma PatternChar(p: Pattern)
    ensures |PatternText(p)| > 1
    ensures PatternText(p)[1] == match p case UuidJpeg => '[' case NamespacedWord => '\\' case SplineType => '('
  {
    match p
    case UuidJpeg => assert PatternText(p)[1] == "^["[1];
    case NamespacedWord => assert PatternText(p)[..2] == "^\\";
    case SplineType => assert PatternText(p)[..2] == "^(";
  }

  lemma AllowedSplit(w: string, r: string, w': string, r': string)
    requires AllowedItem(w) && AllowedItem(w') && w + r == w' + r'
    ensures w == w' && r == r'
  {
    hide Spaced;
    var vs :| |vs| > 0 && w == "allowed=[" + Spaced(vs);
    var ws :| |ws| > 0 && w' == "allowed=[" + Spaced(ws);
    assert (w + r)[9..] == Spaced(vs) + r && (w' + r')[9..] == Spaced(ws) + r';
    SpacedSplit(vs, r, ws, r');
  }

  ghost predicate AllItems(items: seq<string>) { forall i :: 0 <= i < |items| ==> Item(items[i]) }

  /** Braces with items in them open with a brace, and their items end at a comma or at the closing brace. */
  lemma {:induction false} BracedSplit(started: bool, is_: seq<string>, js: seq<string>, x: string, y: string)
    requires AllItems(is_) && AllItems(js) && Braced(started, is_, x) == Braced(started, js, y)
    requires !started ==> (|x| > 0 ==> x[0] != '{') && (|y| > 0 ==> y[0] != '{')
    ensures is_ == js && x == y
    decreases |is_|
  {
    hide Item;
    var s, t := Braced(started, is_, x), Braced(started, js, y);
    BracedStart(started, is_, x);
    BracedStart(started, js, y);
    if |is_| > 0 && |js| > 0 {
      var a, b := Braced(true, is_[1..], x), Braced(true, js[1..], y);
      assert s[1..] == is_[0] + a && t[1..] == js[0] + b;
      ItemSplit(is_[0], a, js[0], b);
      BracedSplit(true, is_[1..], js[1..], x, y);
      assert is_ == [is_[0]] + is_[1..] && js == [js[0]] + js[1..];
    } else if started && |is_| == 0 && |js| == 0 {
      assert s[1..] == x && t[1..] == y;
    }
  }

  lemma BracedStart(started: bool, items: seq<string>, rest: string)
    ensures var s := Braced(started, items, rest);
      if |items| > 0 then |s| > 0 && s[0] == (if started then ',' else '{')
      else if started then |s| > 0 && s[0] == '}' else s == rest
  {
  }

  // ---- items determine the bounds ----

  lemma BoundItem(name: string, v: string)
    requires CountItem(name) && NumberText(v)
    ensures CountItem(name + "=" + v)
  {
    assert Wordy(v) by { NumberWordy(v); }
    WordyConcat(name, "=", v);
  }

  lemma NumberWordy(v: string)
    requires NumberText(v)
    ensures Wordy(v)
  {
  }

  lemma CountSpelled(v: Option<nat>)
    ensures Spelled(Count(v))
  {
    hide IntText;
    if v.Some? { IntTextNumeric(v.value); }
  }

  lemma CountSame(v: Option<nat>, w: Option<nat>)
    requires Count(v) == Count(w)
    ensures v == w
  {
    hide IntText;
    if v.Some? { IntTextInjective(v.value, w.value); }
  }

  lemma BoundValue(name: string, v: string, w: string)
    requires name + "=" + v == name + "=" + w
    ensures v == w
  {
    Strip(name + "=", v, w);
  }

  /** One optional item in front: whether it is there shows in the first two letters. */
  predicate NotFirst(items: seq<string>, c: char) { |items| > 0 ==> |items[0]| > 1 && (items[0][0] != 'm' || items[0][1] != c) }

  lemma BoundFirst(name: string, v: Option<string>, is_: seq<string>, w: Option<string>, js: seq<string>)
    requires |name| > 1 && name[0] == 'm' && NotFirst(is_, name[1]) && NotFirst(js, name[1])
    requires Bound(name, v) + is_ == Bound(name, w) + js
    ensures v == w && is_ == js
  {
    if v.Some? { assert (Bound(name, v) + is_)[1..] == is_; }
    if w.Some? { assert (Bound(name, w) + js)[1..] == js; }
    assert v.Some? ==> (Bound(name, v) + is_)[0] == name + "=" + v.value;
    assert w.Some? ==> (Bound(name, w) + js)[0] == name + "=" + w.value;
    if v.Some? && w.Some? {
      BoundValue(name, v.value, w.value);
    } else {
      assert [] + is_ == is_ && [] + js == js;
    }
  }

  lemma PatternBoundSame(p: Option<Pattern>, q: Option<Pattern>)
    requires PatternBound(p) == PatternBound(q)
    ensures p == q
  {
    hide PatternText;
    if p.Some? && q.Some? {
      PatternChar(p.value);
      PatternChar(q.value);
      assert PatternBound(p)[0][9] == PatternText(p.value)[1] && PatternBound(q)[0][9] == PatternText(q.value)[1];
    }
  }

  /** The lists of items for a maximum, a minimum and a pattern. */
  lemma BoundsSame(
    maxName: string, minName: string, max: Option<string>, min: Option<string>, p: Option<Pattern>,
    max': Option<string>, min': Option<string>, p': Option<Pattern>)
    requires CountItem(maxName) && CountItem(minName) && maxName[1] == 'a' && minName[1] == 'i'
    requires Bound(maxName, max) + Bound(minName, min) + PatternBound(p) == Bound(maxName, max') + Bound(minName, min') + PatternBound(p')
    ensures max == max' && min == min' && p == p'
  {
    assert |maxName| > 1 && maxName[0] == 'm' && |minName| > 1 && minName[0] == 'm';
    hide PatternText, CountItem;
    var a, b := Bound(minName, min) + PatternBound(p), Bound(minName, min') + PatternBound(p');
    assert Bound(maxName, max) + a == Bound(maxName, max) + Bound(minName, min) + PatternBound(p);
    assert Bound(maxName, max') + b == Bound(maxName, max') + Bound(minName, min') + PatternBound(p');
    FirstLetters(minName, min, p);
    FirstLetters(minName, min', p');
    BoundFirst(maxName, max, a, max', b);
    BoundFirst(minName, min, PatternBound(p), min', PatternBound(p'));
    PatternBoundSame(p, p');
  }

  lemma FirstLetters(minName: string, min: Option<string>, p: Option<Pattern>)
    requires |minName| > 1 && minName[0] == 'm' && minName[1] == 'i'
    ensures NotFirst(Bound(minName, min) + PatternBound(p), 'a') && NotFirst(PatternBound(p), 'i')
  {
    hide PatternText;
    assert min.Some? ==> (minName + "=" + min.value)[0] == minName[0] && (minName + "=" + min.value)[1] == minName[1];
  }

  lemma Names()
    ensures CountItem("max") && CountItem("min") && CountItem("max_len") && CountItem("min_len")
    ensures CountItem("max_items") && CountItem("min_items")
  {
  }

  lemma AllowedSame(vs: seq<int>, ws: seq<int>)
    requires AllowedBound(vs) == AllowedBound(ws)
    ensures vs == ws
  {
    hide Spaced;
    if |vs| > 0 {
      var a, b := AllowedBound(vs)[0], AllowedBound(ws)[0];
      assert a[9..] == Spaced(vs) && b[9..] == Spaced(ws);
      assert Spaced(vs) + "" == Spaced(vs) && Spaced(ws) + "" == Spaced(ws);
      SpacedSplit(vs, "", ws, "");
    }
  }

  /** Everything but names and children is the same. */
  predicate SameBounds(a: Written, b: Written)
    requires SameKind(a, b)
  {
    match a
    case LeafNode(_, _, _) => b == a
    case ListNode(_, _, minItems, maxItems) => b.minItems == minItems && b.maxItems == maxItems
    case RefNode(_, allowed) => b.allowed == allowed
    case _ => true
  }

  lemma SameItems(a: Written, b: Written)
    requires Described(a) && Described(b) && SameKind(a, b) && Items(a) == Items(b)
    ensures SameBounds(a, b)
  {
    hide Bound, PatternBound, AllowedBound, CountItem, Count, Spelled, NamedKind;
    Names();
    match a
    case LeafNode(l, min, max) =>
      NoPattern();
      if l.IntLeaf? || l.FloatLeaf? {
        BoundsSame("max", "min", max, min, None, b.max, b.min, None);
      } else if l.StringLeaf? {
        BoundsSame("max_len", "min_len", Count(l.maxLen), Count(l.minLen), l.pattern,
          Count(b.leaf.maxLen), Count(b.leaf.minLen), b.leaf.pattern);
        CountSame(l.maxLen, b.leaf.maxLen);
        CountSame(l.minLen, b.leaf.minLen);
      } else if l.BytesLeaf? {
        BoundsSame("max_len", "min_len", Count(l.maxLen), Count(l.minLen), None, Count(b.leaf.maxLen), Count(b.leaf.minLen), None);
        CountSame(l.maxLen, b.leaf.maxLen);
        CountSame(l.minLen, b.leaf.minLen);
      }
    case ListNode(_, _, minItems, maxItems) =>
      NoPattern();
      BoundsSame("max_items", "min_items", Count(maxItems), Count(minItems), None, Count(b.maxItems), Count(b.minItems), None);
      CountSame(maxItems, b.maxItems);
      CountSame(minItems, b.minItems);
    case RefNode(_, allowed) => AllowedSame(allowed, b.allowed);
    case _ =>
  }

  lemma NoPattern()
    ensures PatternBound(None) == []
  {
  }

  // ---- descriptions can be read back ----

  lemma {:induction false} BracedAppend(started: bool, items: seq<string>, rest: string, x: string)
    ensures Braced(started, items, rest) + x == Braced(started, items, rest + x)
    decreases |items|
  {
    if |items| > 0 {
      BracedAppend(true, items[1..], rest, x);
      var sep := if started then "," else "{";
      Regroup(sep + items[0], Braced(true, items[1..], rest), x);
    } else if started {
      Regroup("}", rest, x);
    }
  }

  /** What may follow a description inside another. */
  predicate Stops(x: string) { |x| > 0 ==> x[0] == ' ' || x[0] == ')' }

  lemma DescribedItems(n: Written)
    requires Described(n)
    ensures AllItems(Items(n))
  {
    hide PatternText, Spaced, CountItem, Count, Spelled, NumberText;
    Names();
    match n
    case LeafNode(l, min, max) =>
      if l.IntLeaf? || l.FloatLeaf? {
        PairItems("max", "min", max, min, None);
      } else if l.StringLeaf? {
        CountSpelled(l.maxLen);
        CountSpelled(l.minLen);
        PairItems("max_len", "min_len", Count(l.maxLen), Count(l.minLen), l.pattern);
      } else if l.BytesLeaf? {
        CountSpelled(l.maxLen);
        CountSpelled(l.minLen);
        PairItems("max_len", "min_len", Count(l.maxLen), Count(l.minLen), None);
      }
    case ListNode(_, _, minItems, maxItems) =>
      CountSpelled(maxItems);
      CountSpelled(minItems);
      PairItems("max_items", "min_items", Count(maxItems), Count(minItems), None);
    case RefNode(_, allowed) => if |allowed| > 0 { assert AllowedItem("allowed=[" + Spaced(allowed)); }
    case _ =>
  }

  lemma PairItems(maxName: string, minName: string, max: Option<string>, min: Option<string>, p: Option<Pattern>)
    requires CountItem(maxName) && CountItem(minName) && Spelled(max) && Spelled(min)
    ensures AllItems(Bound(maxName, max) + Bound(minName, min) + PatternBound(p))
    ensures AllItems(Bound(maxName, max) + Bound(minName, min))
  {
    hide PatternText, CountItem, AllowedItem, NumberText;
    if max.Some? { BoundItem(maxName, max.value); }
    if min.Some? { BoundItem(minName, min.value); }
    if p.Some? { assert PatternItem("pattern=" + PatternText(p.value)); }
  }

  lemma ChildrenStart(n: Written, x: string)
    requires Stops(x)
    ensures var r := Children(n) + x; |r| > 0 ==> r[0] == '(' || r[0] == ' ' || r[0] == ')'
  {
    hide Describe;
  }

  /** After the head word comes a delimiter, or nothing. */
  lemma HeadEnds(n: Written, x: string)
    requires Stops(x)
    ensures Describe(n) + x == HeadWord(n) + (HeadName(n) + Braced(false, Items(n), Children(n) + x))
    ensures Ends(HeadName(n) + Braced(false, Items(n), Children(n) + x))
    ensures Ends(Braced(false, Items(n), Children(n) + x))
  {
    hide HeadWord, Items, Children;
    BracedAppend(false, Items(n), Children(n), x);
    Regroup(HeadWord(n) + HeadName(n), Braced(false, Items(n), Children(n)), x);
    Regroup(HeadWord(n), HeadName(n), Braced(false, Items(n), Children(n) + x));
    BracedStart(false, Items(n), Children(n) + x);
    ChildrenStart(n, x);
  }

  lemma NameSplit(a: Written, b: Written, r: string, r': string)
    requires Described(a) && Described(b) && SameKind(a, b) && Ends(r) && Ends(r')
    requires HeadName(a) + r == HeadName(b) + r'
    ensures (a.RefNode? ==> a.ref == b.ref) && r == r'
  {
    hide Alphanumeric, Wordy, Ends;
    if a.RefNode? {
      RefNames(a, b);
      Regroup(" ", a.ref, r);
      Regroup(" ", b.ref, r');
      Strip(" ", a.ref + r, b.ref + r');
      WordSplit(a.ref, r, b.ref, r');
    } else {
      Strip(HeadName(a), r, r');
    }
  }

  lemma RefNames(a: Written, b: Written)
    requires Described(a) && Described(b) && a.RefNode? && b.RefNode?
    ensures Wordy(a.ref) && Wordy(b.ref)
  {
    AlphanumericWordy(a.ref);
    AlphanumericWordy(b.ref);
  }

  lemma Strip(h: string, r: string, r': string)
    requires h + r == h + r'
    ensures r == r'
  {
    assert (h + r)[|h|..] == r && (h + r')[|h|..] == r';
  }

  lemma AlphanumericWordy(w: string)
    requires Alphanumeric(w)
    ensures Wordy(w)
  {
    forall i | 0 <= i < |w| ensures !Delimiter(w[i]) { assert LetterOrDigit(w[i]); }
  }

  /**
   A description determines the shape it describes and where it ends: two shapes
   described alike agree on their kinds, prefixes, lengths, names, bounds, patterns,
   allowed values and children.
   */
  lemma {:induction false} DescribeUnique(a: Written, x: string, b: Written, y: string)
    requires Described(a) && Described(b) && Stops(x) && Stops(y)
    requires Describe(a) + x == Describe(b) + y
    ensures a == b && x == y
    decreases a, 1
  {
    hide HeadWord, HeadName, Items, Children, Describe, Described, AllItems, Braced, SameKind;
    HeadEnds(a, x);
    HeadEnds(b, y);
    HeadWordy(a);
    HeadWordy(b);
    var r, r' := Braced(false, Items(a), Children(a) + x), Braced(false, Items(b), Children(b) + y);
    WordSplit(HeadWord(a), HeadName(a) + r, HeadWord(b), HeadName(b) + r');
    SameHeadWord(a, b);
    NameSplit(a, b, r, r');
    DescribedItems(a);
    DescribedItems(b);
    ChildrenStart(a, x);
    ChildrenStart(b, y);
    BracedSplit(false, Items(a), Items(b), Children(a) + x, Children(b) + y);
    SameItems(a, b);
    ChildrenUnique(a, x, b, y);
  }

  lemma {:induction false} ChildrenUnique(a: Written, x: string, b: Written, y: string)
    requires Described(a) && Described(b) && SameKind(a, b) && SameBounds(a, b) && (a.RefNode? ==> a.ref == b.ref)
    requires Stops(x) && Stops(y) && Children(a) + x == Children(b) + y
    ensures a == b && x == y
    decreases a, 0
  {
    hide Describe;
    assert "" + x == x && "" + y == y;
    match a
    case ListNode(_, e, _, _) =>
      if e.EntryNode? {
        PairOpens(e.key, e.value, x);
        PairOpens(b.element.key, b.element.value, y);
        DescribeUnique(e.key, " => " + Describe(e.value) + ")" + x, b.element.key, " => " + Describe(b.element.value) + ")" + y);
        PairArrow(e.value, x, b.element.value, y);
        DescribeUnique(e.value, ")" + x, b.element.value, ")" + y);
        assert (")" + x)[1..] == x && (")" + y)[1..] == y;
      } else {
        ChildUnique(e, x, b.element, y);
      }
    case FixedNode(_, e) => ChildUnique(e, x, b.element, y);
    case OptionalNode(v) => ChildUnique(v, x, b.inner, y);
    case _ =>
  }

  lemma {:induction false} ChildUnique(e: Written, x: string, f: Written, y: string)
    requires Described(e) && Described(f)
    requires "(" + Describe(e) + ")" + x == "(" + Describe(f) + ")" + y
    ensures e == f && x == y
    decreases e, 2
  {
    hide Describe, Described;
    var s, t := "(" + Describe(e) + ")" + x, "(" + Describe(f) + ")" + y;
    assert s[1..] == Describe(e) + (")" + x) && t[1..] == Describe(f) + (")" + y);
    DescribeUnique(e, ")" + x, f, ")" + y);
    assert (")" + x)[1..] == x && (")" + y)[1..] == y;
  }

  lemma PairOpens(k: Written, v: Written, x: string)
    ensures ("(" + Describe(k) + " => " + Describe(v) + ")" + x)[1..] == Describe(k) + (" => " + Describe(v) + ")" + x)
  {
    hide Describe;
  }

  lemma PairArrow(v: Written, x: string, w: Written, y: string)
    requires " => " + Describe(v) + ")" + x == " => " + Describe(w) + ")" + y
    ensures Describe(v) + (")" + x) == Describe(w) + (")" + y)
  {
    hide Describe;
    var s, t := " => " + Describe(v) + ")" + x, " => " + Describe(w) + ")" + y;
    assert s[4..] == Describe(v) + (")" + x) && t[4..] == Describe(w) + (")" + y);
  }

  lemma DescribeInjective(a: Written, b: Written)
    requires Described(a) && Described(b)
    ensures Describe(a) == Describe(b) <==> a == b
  {
    hide Describe, Described;
    if Describe(a) == Describe(b) {
      assert Describe(a) + "" == Describe(a) && Describe(b) + "" == Describe(b);
      DescribeUnique(a, "", b, "");
    }
  }

  // ---- what a description reads like ----

  /** The names of kinds. */
  lemma KindsAre()
    ensures KindName(Fixed(1, false, false)) == "u8" && KindName(Fixed(1, true, false)) == "i8"
    ensures KindName(Fixed(2, false, false)) == "u16le" && KindName(Fixed(2, true, true)) == "i16be"
    ensures KindName(Fixed(4, true, false)) == "i32le" && KindName(Fixed(4, false, true)) == "u32be"
    ensures KindName(Fixed(8, false, false)) == "u64le" && KindName(Fixed(8, true, true)) == "i64be"
    ensures KindName(VarU32) == "var_u32" && KindName(VarU64) == "var_u64"
    ensures KindName(ZigzagI32) == "zigzag_i32" && KindName(ZigzagI64) == "zigzag_i64"
  {
  }

  lemma Empty(w: string)
    ensures w + "" == w && "" + w == w
  {
  }

  lemma Braces(x: string, y: string, z: string, r: string)
    ensures Braced(false, [], r) == r
    ensures Braced(false, [x], r) == "{" + x + ("}" + r)
    ensures Braced(false, [x, y], r) == "{" + x + ("," + y + ("}" + r))
    ensures Braced(false, [x, y, z], r) == "{" + x + ("," + y + ("," + z + ("}" + r)))
  {
    assert [x][1..] == [] && [x, y][1..] == [y] && [y][1..] == [] && [x, y, z][1..] == [y, z] && [y, z][1..] == [z] && [z][1..] == [];
    assert Braced(true, [], r) == "}" + r && Braced(true, [z], r) == "," + z + ("}" + r) && Braced(true, [y], r) == "," + y + ("}" + r);
  }

  /** Shapes without children or bounds are described by their names. */
  lemma NamesRead(l: Leaf, r: string)
    requires !l.IngredientLeaf? && Items(Written.LeafNode(l, None, None)) == []
    ensures Describe(Written.LeafNode(l, None, None)) == LeafWord(l)
    ensures Describe(Written.RefNode(r, [])) == "ref" + (" " + r)
    ensures Describe(Written.LeafNode(IngredientLeaf, None, None)) == "custom" + " RecipeIngredient"
  {
    hide LeafWord;
    Empty(LeafWord(l));
    assert LeafWord(IngredientLeaf) == "custom" by { LeavesAre(0); }
  }

  /** What the shapes without children are called. */
  lemma LeavesAre(n: nat)
    ensures LeafWord(BoolLeaf) == "bool" && LeafWord(UuidLeaf) == "uuid" && LeafWord(IngredientLeaf) == "custom"
    ensures LeafWord(FloatLeaf(4)) == "f32le" && LeafWord(FloatLeaf(8)) == "f64le"
    ensures LeafWord(StringLeaf(None, None, None)) == "string<var_u32>" && LeafWord(BytesLeaf(None, None)) == "bytes<var_u32>"
    ensures LeafWord(BitsetLeaf(n)) == "bitset[" + Digits(n) + "]"
    ensures LeafWord(IntLeaf(VarU32, None, None)) == KindName(VarU32)
  {
    hide Digits, KindName;
  }

  /** Bounds are in braces, in the order of their names, the maximum first. */
  lemma NumberRead(l: Leaf, min: string, max: string)
    requires l.IntLeaf? || l.FloatLeaf?
    ensures Describe(Written.LeafNode(l, Some(min), Some(max))) == LeafWord(l) + ("{" + ("max=" + max) + ("," + ("min=" + min) + "}"))
  {
    hide LeafWord;
    var n := Written.LeafNode(l, Some(min), Some(max));
    Braces("max=" + max, "min=" + min, "", "");
    Empty(LeafWord(l));
    Empty("}");
    assert "max" + "=" == "max=" && "min" + "=" == "min=";
    assert Items(n) == ["max=" + max, "min=" + min];
  }

  lemma StringRead(a: nat, b: nat, p: Pattern)
    ensures Describe(Written.LeafNode(StringLeaf(Some(a), Some(b), Some(p)), None, None)) ==
      "string<var_u32>" + ("{" + ("max_len=" + Digits(b)) + ("," + ("min_len=" + Digits(a)) + ("," + ("pattern=" + PatternText(p)) + "}")))
  {
    hide Digits, PatternText, Braced, Items;
    var x, y, z := "max_len=" + Digits(b), "min_len=" + Digits(a), "pattern=" + PatternText(p);
    Braces(x, y, z, "");
    Empty("string<var_u32>");
    Empty("}");
    StringItems(a, b, p);
  }

  lemma StringItems(a: nat, b: nat, p: Pattern)
    ensures Items(Written.LeafNode(StringLeaf(Some(a), Some(b), Some(p)), None, None)) ==
      ["max_len=" + Digits(b), "min_len=" + Digits(a), "pattern=" + PatternText(p)]
  {
    hide Digits, PatternText;
    assert "max_len" + "=" == "max_len=" && "min_len" + "=" == "min_len=";
  }

  /** Allowed numbers are in brackets, with spaces between. */
  lemma RefRead(a: nat, b: nat, r: string)
    ensures Describe(Written.RefNode(r, [a, b])) ==
      "ref" + (" " + r) + ("{" + ("allowed=[" + (Digits(a) + " " + (Digits(b) + "]"))) + "}")
  {
    hide Digits, Braced;
    var n := Written.RefNode(r, [a, b]);
    assert [a, b][1..] == [b];
    var x := "allowed=[" + (Digits(a) + " " + (Digits(b) + "]"));
    assert Spaced([a, b]) == Digits(a) + " " + (Digits(b) + "]");
    Braces(x, "", "", "");
    Empty("}");
    assert Items(n) == [x];
  }

  /** Children are in parentheses, keys before values. */
  lemma ChildrenRead(p: CountPrefix, e: Written, k: Written, len: nat)
    requires !e.EntryNode?
    ensures Describe(Written.ListNode(p, e, None, None)) == "list<" + PrefixName(p) + ">" + ("(" + Describe(e) + ")")
    ensures Describe(Written.ListNode(p, Written.EntryNode(k, e), None, None)) ==
      "map<" + PrefixName(p) + ">" + ("(" + Describe(k) + " => " + Describe(e) + ")")
    ensures Describe(Written.FixedNode(len, e)) == "fixed[" + Digits(len) + "]" + ("(" + Describe(e) + ")")
    ensures Describe(Written.OptionalNode(e)) == "optional" + ("(" + Describe(e) + ")")
    ensures PrefixName(CountVarU32) == "var_u32" && PrefixName(CountU32Le) == "u32le"
  {
    hide Digits, Braced;
    assert Items(Written.ListNode(p, e, None, None)) == [] && Items(Written.ListNode(p, Written.EntryNode(k, e), None, None)) == [];
    Braces("", "", "", "(" + Describe(e) + ")");
    Braces("", "", "", "(" + Describe(k) + " => " + Describe(e) + ")");
    Empty("list<" + PrefixName(p) + ">");
    Empty("map<" + PrefixName(p) + ">");
    Empty("fixed[" + Digits(len) + "]");
    Empty("optional");
  }

  lemma CountsRead(p: CountPrefix, e: Written, a: nat, b: nat)
    requires !e.EntryNode?
    ensures Describe(Written.ListNode(p, e, Some(a), Some(b))) ==
      "list<" + PrefixName(p) + ">"
      + ("{" + ("max_items=" + Digits(b)) + ("," + ("min_items=" + Digits(a)) + ("}" + ("(" + Describe(e) + ")"))))
  {
    hide Digits, Braced, PrefixName;
    var n := Written.ListNode(p, e, Some(a), Some(b));
    var x, y := "max_items=" + Digits(b), "min_items=" + Digits(a);
    Braces(x, y, "", "(" + Describe(e) + ")");
    Empty("list<" + PrefixName(p) + ">");
    assert "max_items" + "=" == "max_items=" && "min_items" + "=" == "min_items=";
    assert Items(n) == [x, y];
  }
}
