/** Enum values of repeat occurrences: one name per number, one number per name. */
module EnumNames {
  import opened Schemas

  function Digits(n: nat): (r: string)
    ensures |r| > 0
  {
    if n < 10 then ["0123456789"[n]] else Digits(n / 10) + ["0123456789"[n % 10]]
  }

  lemma {:induction false} DigitsInjective(m: nat, n: nat)
    requires Digits(m) == Digits(n)
    ensures m == n
    decreases m
  {
    var s := "0123456789";
    assert forall i, j :: 0 <= i < 10 && 0 <= j < 10 && s[i] == s[j] ==> i == j;
    if m >= 10 && n >= 10 {
      var a, b := Digits(m / 10), Digits(n / 10);
      assert Digits(m)[..|a|] == a && Digits(n)[..|b|] == b;
      assert Digits(m)[|a|] == s[m % 10] && Digits(n)[|b|] == s[n % 10];
      DigitsInjective(m / 10, n / 10);
    }
  }

  /** The number a decimal text stands for. */
  function Number(text: string): int {
    if |text| == 0 then 0 else 10 * Number(text[..|text| - 1]) + (text[|text| - 1] as int - '0' as int)
  }

  /** Digits are the decimal form of their number, without an idle zero in front. */
  lemma {:induction false} DigitsAre(n: nat)
    ensures var d := Digits(n);
      && Number(d) == n && (n > 0 ==> d[0] != '0')
      && forall i :: 0 <= i < |d| ==> '0' <= d[i] <= '9'
  {
    var d, s := Digits(n), "0123456789";
    assert forall i :: 0 <= i < 10 ==> s[i] as int == '0' as int + i;
    if n < 10 {
      assert Number(d[..0]) == 0;
    } else {
      DigitsAre(n / 10);
      assert d[..|d| - 1] == Digits(n / 10);
    }
  }

  function Suffixed(stem: string, i: nat): string { stem + Digits(i) }

  lemma SuffixedInjective(stem: string, i: nat, j: nat)
    requires Suffixed(stem, i) == Suffixed(stem, j)
    ensures i == j
  {
    assert Suffixed(stem, i)[|stem|..] == Digits(i) && Suffixed(stem, j)[|stem|..] == Digits(j);
    DigitsInjective(i, j);
  }

  /** The first unused of the stem with 2, 3, and so on; `left` bounds the search. */
  function FreshFrom(stem: string, i: nat, seen: set<string>, ghost left: set<string>): (r: string)
    requires left <= seen && forall j :: j >= i && Suffixed(stem, j) in seen ==> Suffixed(stem, j) in left
    ensures r !in seen && stem <= r
    decreases left
  {
    if Suffixed(stem, i) !in seen then Suffixed(stem, i)
    else
      assert forall j :: j >= i + 1 && Suffixed(stem, j) in seen ==> Suffixed(stem, j) in left - {Suffixed(stem, i)} by {
        forall j | j >= i + 1 && Suffixed(stem, j) in seen ensures Suffixed(stem, j) != Suffixed(stem, i) {
          if Suffixed(stem, j) == Suffixed(stem, i) { SuffixedInjective(stem, j, i); }
        }
      }
      FreshFrom(stem, i + 1, seen, left - {Suffixed(stem, i)})
  }

  /** The name itself, or if it is taken its stem with the first free number. */
  function Fresh(name: string, stem: string, seen: set<string>): (r: string)
    ensures r !in seen && (r == name || stem <= r)
    ensures name !in seen ==> r == name
  {
    if name !in seen then name else FreshFrom(stem, 2, seen, seen)
  }

  /** The numbered name is the stem with the least number that is free. */
  lemma {:induction false} FreshFromIs(stem: string, i: nat, seen: set<string>, left: set<string>) returns (k: nat)
    requires left <= seen && forall j :: j >= i && Suffixed(stem, j) in seen ==> Suffixed(stem, j) in left
    ensures k >= i && FreshFrom(stem, i, seen, left) == Suffixed(stem, k) && forall j :: i <= j < k ==> Suffixed(stem, j) in seen
    decreases left
  {
    if Suffixed(stem, i) !in seen {
      k := i;
    } else {
      forall j | j >= i + 1 && Suffixed(stem, j) in seen ensures Suffixed(stem, j) in left - {Suffixed(stem, i)} {
        if Suffixed(stem, j) == Suffixed(stem, i) { SuffixedInjective(stem, j, i); }
      }
      k := FreshFromIs(stem, i + 1, seen, left - {Suffixed(stem, i)});
    }
  }

  /** A fresh name is the name itself, or its stem with a number. */
  lemma FreshIs(name: string, stem: string, seen: set<string>) returns (k: nat)
    ensures name !in seen ==> Fresh(name, stem, seen) == name
    ensures name in seen ==> Fresh(name, stem, seen) == Suffixed(stem, k) && forall j :: 2 <= j < k ==> Suffixed(stem, j) in seen
    ensures k >= 2
  {
    if name in seen { k := FreshFromIs(stem, 2, seen, seen); } else { k := 2; }
  }

  /** Names that are not the name or its stem with a number make no difference. */
  lemma FreshIgnores(name: string, stem: string, seen: set<string>, others: set<string>)
    requires name !in others && forall j: nat :: Suffixed(stem, j) !in others
    ensures Fresh(name, stem, seen + others) == Fresh(name, stem, seen)
  {
    hide Suffixed;
    var a := FreshIs(name, stem, seen);
    var b := FreshIs(name, stem, seen + others);
    if name in seen {
      assert Suffixed(stem, a) !in seen && Suffixed(stem, b) !in seen + others;
      assert a < b ==> Suffixed(stem, a) in seen + others;
      assert b < a ==> Suffixed(stem, b) in seen;
    }
  }

  function Names(vs: seq<EnumValue>): set<string> { set v | v in vs :: v.name }

  function Numbers(vs: seq<EnumValue>): set<int> { set v | v in vs :: v.value }

  predicate Distinct(vs: seq<EnumValue>) {
    forall i, j :: 0 <= i < j < |vs| ==> vs[i].name != vs[j].name && vs[i].value != vs[j].value
  }

  /** What the loop appends to `done` for the values still to come. */
  function Dedupe(done: seq<EnumValue>, vs: seq<EnumValue>): seq<EnumValue>
    decreases |vs|
  {
    if |vs| == 0 then done
    else if vs[0].value in Numbers(done) then Dedupe(done, vs[1..])
    else Dedupe(done + [EnumValue(Fresh(vs[0].name, vs[0].name + "_", Names(done)), vs[0].value)], vs[1..])
  }

  /** The numbering loop. */
  method FindFresh(base: string, stem: string, seen: set<string>) returns (name: string)
    ensures name == Fresh(base, stem, seen)
  {
    name := base;
    var i := 2;
    ghost var left := seen;
    while name in seen
      invariant i >= 2 && left <= seen
      invariant i == 2 ==> name == base && left == seen
      invariant i > 2 ==> name == Suffixed(stem, i - 1) && name !in left
      invariant i > 2 ==> base in seen
      invariant forall j :: j >= i && Suffixed(stem, j) in seen ==> Suffixed(stem, j) in left
      invariant Fresh(base, stem, seen) == if name in seen then FreshFrom(stem, i, seen, left) else name
      decreases left, name in seen
    {
      ghost var found := Suffixed(stem, i);
      forall j | j >= i + 1 && Suffixed(stem, j) in seen ensures Suffixed(stem, j) in left - {found} {
        if Suffixed(stem, j) == found { SuffixedInjective(stem, j, i); }
      }
      name := Suffixed(stem, i);
      i := i + 1;
      left := left - {found};
    }
  }

  method DedupeValues(values: seq<EnumValue>) returns (out: seq<EnumValue>)
    ensures out == Dedupe([], values)
  {
    out := [];
    var seen: set<string>, numbers: set<int> := {}, {};
    for k := 0 to |values|
      invariant Dedupe(out, values[k..]) == Dedupe([], values)
      invariant seen == Names(out) && numbers == Numbers(out)
    {
      var v := values[k];
      assert values[k..][0] == v && values[k..][1..] == values[k + 1..];
      if v.value !in numbers {
        var name := FindFresh(v.name, v.name + "_", seen);
        seen, numbers := seen + {name}, numbers + {v.value};
        NamesSnoc(out, EnumValue(name, v.value));
        out := out + [EnumValue(name, v.value)];
      }
    }
    assert values[|values|..] == [];
  }

  lemma NamesSnoc(vs: seq<EnumValue>, v: EnumValue)
    ensures Names(vs + [v]) == Names(vs) + {v.name} && Numbers(vs + [v]) == Numbers(vs) + {v.value}
  {
    var ws := vs + [v];
    forall x | x in Names(vs) + {v.name} ensures x in Names(ws) {
      if x != v.name { var u :| u in vs && u.name == x; assert u in ws; } else { assert v in ws; }
    }
    forall x | x in Numbers(vs) + {v.value} ensures x in Numbers(ws) {
      if x != v.value { var u :| u in vs && u.value == x; assert u in ws; } else { assert v in ws; }
    }
  }

  /**
   Afterwards all names and all numbers are distinct, the numbers are exactly those
   of the input, and what was already there keeps its names and order.
   */
  lemma {:induction false} DedupeSpec(done: seq<EnumValue>, vs: seq<EnumValue>)
    requires Distinct(done)
    ensures var out := Dedupe(done, vs);
      && Distinct(out)
      && Numbers(out) == Numbers(done) + Numbers(vs)
      && done <= out
    decreases |vs|
  {
    if |vs| > 0 {
      var v := EnumValue(Fresh(vs[0].name, vs[0].name + "_", Names(done)), vs[0].value);
      NumbersCons(vs);
      if v.value in Numbers(done) {
        DedupeSpec(done, vs[1..]);
      } else {
        forall i | 0 <= i < |done| ensures done[i].name != v.name && done[i].value != v.value {
          assert done[i].name in Names(done) && done[i].value in Numbers(done);
        }
        NamesSnoc(done, v);
        DedupeSpec(done + [v], vs[1..]);
      }
    }
  }

  lemma NumbersCons(vs: seq<EnumValue>)
    requires |vs| > 0
    ensures Numbers(vs) == {vs[0].value} + Numbers(vs[1..])
  {
    forall x | x in {vs[0].value} + Numbers(vs[1..]) ensures x in Numbers(vs) {
      if x != vs[0].value { var u :| u in vs[1..] && u.value == x; assert u in vs; }
    }
    forall x | x in Numbers(vs) ensures x in {vs[0].value} + Numbers(vs[1..]) {
      var u :| u in vs && u.value == x;
      if u != vs[0] { assert u in vs[1..]; }
    }
  }

  /** Every value comes from one of its number, whose name its own begins with. */
  lemma {:induction false} DedupeSource(done: seq<EnumValue>, vs: seq<EnumValue>, v: EnumValue) returns (i: nat)
    requires v in Dedupe(done, vs)
    ensures v in done || (i < |vs| && vs[i].value == v.value && vs[i].name <= v.name)
    decreases |vs|
  {
    i := 0;
    if |vs| > 0 && v !in done {
      var next := done;
      if vs[0].value !in Numbers(done) { next := done + [EnumValue(Fresh(vs[0].name, vs[0].name + "_", Names(done)), vs[0].value)]; }
      var j := DedupeSource(next, vs[1..], v);
      if v !in next { i := j + 1; }
    }
  }

  /** Entry `i` is the first of its number. */
  predicate First(vs: seq<EnumValue>, i: nat) {
    i < |vs| && forall j :: 0 <= j < i ==> vs[j].value != vs[i].value
  }

  /** The name itself unless it is taken, and then the name with the least free number from 2 up. */
  ghost predicate NamedAfter(name: string, taken: set<string>, out: string) {
    if name !in taken then out == name
    else
      exists k: nat ::
        k >= 2 && out == Suffixed(name + "_", k) && out !in taken && forall j :: 2 <= j < k ==> Suffixed(name + "_", j) in taken
  }

  /** The positions of the first value of each number, in order. */
  ghost predicate Firsts(vs: seq<EnumValue>, firsts: seq<nat>) {
    && (forall p, q :: 0 <= p < q < |firsts| ==> firsts[p] < firsts[q])
    && (forall p :: 0 <= p < |firsts| ==> First(vs, firsts[p]))
    && forall i: nat :: First(vs, i) ==> i in firsts
  }

  /** One value for each of them, named after it. */
  ghost predicate NamedAfterFirsts(vs: seq<EnumValue>, firsts: seq<nat>, out: seq<EnumValue>) {
    |out| == |firsts| && forall p :: 0 <= p < |out| ==>
      && firsts[p] < |vs| && out[p].value == vs[firsts[p]].value
      && NamedAfter(vs[firsts[p]].name, Names(out[..p]), out[p].name)
  }

  /** Deduplicating keeps the first value of each number, in order, under its own name or with the least free number. */
  lemma {:induction false} DedupeFirsts(vs: seq<EnumValue>, n: nat) returns (firsts: seq<nat>)
    requires n <= |vs|
    ensures Firsts(vs[..n], firsts) && NamedAfterFirsts(vs[..n], firsts, Dedupe([], vs[..n]))
  {
    hide Firsts, NamedAfterFirsts, Dedupe;
    if n == 0 {
      firsts := NoFirsts(vs[..n]);
    } else {
      var before := DedupeFirsts(vs, n - 1);
      firsts := FirstsSnoc(vs[..n - 1], before, Dedupe([], vs[..n - 1]), vs[n - 1]);
      DedupeSnoc([], vs[..n - 1], vs[n - 1]);
      assert vs[..n] == vs[..n - 1] + [vs[n - 1]];
    }
  }

  lemma {:induction false} DedupeSnoc(done: seq<EnumValue>, vs: seq<EnumValue>, v: EnumValue)
    ensures var d := Dedupe(done, vs);
      Dedupe(done, vs + [v]) == if v.value in Numbers(d) then d else d + [EnumValue(Fresh(v.name, v.name + "_", Names(d)), v.value)]
    decreases |vs|
  {
    if |vs| == 0 {
      assert (vs + [v])[1..] == [];
    } else {
      assert (vs + [v])[0] == vs[0] && (vs + [v])[1..] == vs[1..] + [v];
      var next := done;
      if vs[0].value !in Numbers(done) { next := done + [EnumValue(Fresh(vs[0].name, vs[0].name + "_", Names(done)), vs[0].value)]; }
      DedupeSnoc(next, vs[1..], v);
    }
  }

  lemma NoFirsts(vs: seq<EnumValue>) returns (firsts: seq<nat>)
    requires |vs| == 0
    ensures Firsts(vs, firsts) && NamedAfterFirsts(vs, firsts, Dedupe([], vs))
  {
    firsts := [];
  }

  lemma LastFirst(vs: seq<EnumValue>, v: EnumValue)
    ensures First(vs + [v], |vs|) <==> v.value !in Numbers(vs)
  {
    var all := vs + [v];
    assert all[|vs|] == v && forall j :: 0 <= j < |vs| ==> all[j] == vs[j] && vs[j] in vs;
  }

  lemma FirstsSnoc(vs: seq<EnumValue>, firsts: seq<nat>, out: seq<EnumValue>, v: EnumValue) returns (next: seq<nat>)
    requires Firsts(vs, firsts) && NamedAfterFirsts(vs, firsts, out)
    ensures Firsts(vs + [v], next)
    ensures NamedAfterFirsts(vs + [v], next,
      if v.value in Numbers(out) then out else out + [EnumValue(Fresh(v.name, v.name + "_", Names(out)), v.value)])
  {
    hide Firsts, NamedAfterFirsts, NamedAfter;
    FirstsNumbers(vs, firsts, out);
    PositionsSnoc(vs, firsts, v);
    if v.value in Numbers(out) {
      next := firsts;
      NamedSame(vs, firsts, out, v);
    } else {
      next := firsts + [|vs|];
      var k := FreshIs(v.name, v.name + "_", Names(out));
      FreshNamed(v.name, Names(out), k);
      NamedSnoc(vs, firsts, out, v, EnumValue(Fresh(v.name, v.name + "_", Names(out)), v.value));
    }
  }

  lemma PositionsSnoc(vs: seq<EnumValue>, firsts: seq<nat>, v: EnumValue)
    requires Firsts(vs, firsts)
    ensures Firsts(vs + [v], if v.value in Numbers(vs) then firsts else firsts + [|vs|])
  {
    hide First;
    var all, next := vs + [v], if v.value in Numbers(vs) then firsts else firsts + [|vs|];
    LastFirst(vs, v);
    FirstsBefore(vs, v);
    forall i: nat | First(all, i) ensures i in next {
      if i < |vs| { assert i in firsts; } else { assert next[|firsts|] == i; }
    }
    forall p | 0 <= p < |firsts| ensures firsts[p] < |vs| && First(all, firsts[p]) { }
  }

  lemma FirstsBefore(vs: seq<EnumValue>, v: EnumValue)
    ensures forall i: nat :: i < |vs| ==> (First(vs + [v], i) <==> First(vs, i))
    ensures forall i: nat :: First(vs + [v], i) ==> i <= |vs|
    ensures forall i: nat :: First(vs, i) ==> i < |vs|
  {
    var all := vs + [v];
    forall i: nat | i < |vs| ensures First(all, i) <==> First(vs, i) { assert forall j :: 0 <= j <= i ==> all[j] == vs[j]; }
  }

  lemma NamedSame(vs: seq<EnumValue>, firsts: seq<nat>, out: seq<EnumValue>, v: EnumValue)
    requires NamedAfterFirsts(vs, firsts, out)
    ensures NamedAfterFirsts(vs + [v], firsts, out)
  {
    hide NamedAfter;
  }

  lemma NamedSnoc(vs: seq<EnumValue>, firsts: seq<nat>, out: seq<EnumValue>, v: EnumValue, w: EnumValue)
    requires NamedAfterFirsts(vs, firsts, out) && w.value == v.value && NamedAfter(v.name, Names(out), w.name)
    ensures NamedAfterFirsts(vs + [v], firsts + [|vs|], out + [w])
  {
    hide NamedAfter;
    var all, next, grown := vs + [v], firsts + [|vs|], out + [w];
    forall p | 0 <= p < |grown|
      ensures next[p] < |all| && grown[p].value == all[next[p]].value
        && NamedAfter(all[next[p]].name, Names(grown[..p]), grown[p].name)
    {
      if p < |out| { assert grown[..p] == out[..p]; } else { assert grown[..p] == out; }
    }
  }

  lemma FreshNamed(name: string, taken: set<string>, k: nat)
    requires k >= 2 && (name in taken ==>
      Fresh(name, name + "_", taken) == Suffixed(name + "_", k) && forall j :: 2 <= j < k ==> Suffixed(name + "_", j) in taken)
    ensures NamedAfter(name, taken, Fresh(name, name + "_", taken))
  {
  }

  lemma FirstsNumbers(vs: seq<EnumValue>, firsts: seq<nat>, out: seq<EnumValue>)
    requires Firsts(vs, firsts) && NamedAfterFirsts(vs, firsts, out)
    ensures Numbers(out) == Numbers(vs)
  {
    hide NamedAfter;
    forall n | n in Numbers(out) ensures n in Numbers(vs) {
      var p :| 0 <= p < |out| && out[p].value == n;
      assert vs[firsts[p]] in vs;
    }
    forall n | n in Numbers(vs) ensures n in Numbers(out) {
      var i :| 0 <= i < |vs| && vs[i].value == n;
      var f := LeastOf(vs, i);
      var p :| 0 <= p < |firsts| && firsts[p] == f;
      assert out[p] in out;
    }
  }

  lemma {:induction false} LeastOf(vs: seq<EnumValue>, i: nat) returns (f: nat)
    requires i < |vs|
    ensures First(vs, f) && vs[f].value == vs[i].value
    decreases i
  {
    if j :| 0 <= j < i && vs[j].value == vs[i].value { f := LeastOf(vs, j); } else { f := i; }
  }

  /** Values whose names and numbers are distinct already are kept as they are. */
  lemma {:induction false} DedupeKeeps(done: seq<EnumValue>, vs: seq<EnumValue>, more: seq<EnumValue>)
    requires Distinct(done + vs)
    ensures Dedupe(done, vs + more) == Dedupe(done + vs, more)
    decreases |vs|
  {
    if |vs| == 0 {
      assert vs + more == more && done + vs == done;
    } else {
      var all := done + vs;
      forall i | 0 <= i < |done| ensures done[i].name != vs[0].name && done[i].value != vs[0].value {
        assert all[i] == done[i] && all[|done|] == vs[0];
      }
      assert vs[0].name !in Names(done) && vs[0].value !in Numbers(done);
      assert (vs + more)[0] == vs[0] && (vs + more)[1..] == vs[1..] + more;
      assert (done + [vs[0]]) + vs[1..] == all;
      assert [EnumValue(vs[0].name, vs[0].value)] == [vs[0]];
      DedupeKeeps(done + [vs[0]], vs[1..], more);
    }
  }

  /** Merging a repeat occurrence never renames or drops a value that is already present. */
  lemma MergeKeepsNames(existing: seq<EnumValue>, repeat_: seq<EnumValue>)
    requires Distinct(existing)
    ensures var out := Dedupe([], existing + repeat_);
      && Distinct(out) && existing <= out && Numbers(out) == Numbers(existing) + Numbers(repeat_)
  {
    assert [] + existing == existing;
    DedupeKeeps([], existing, repeat_);
    DedupeSpec(existing, repeat_);
  }

  // ---- sorting by number ----

  function Insert(v: EnumValue, vs: seq<EnumValue>): (r: seq<EnumValue>)
    ensures multiset(r) == multiset(vs) + multiset{v}
  {
    if |vs| == 0 || v.value <= vs[0].value then [v] + vs
    else
      assert vs == [vs[0]] + vs[1..];
      [vs[0]] + Insert(v, vs[1..])
  }

  /** `sort.Slice` on numbers that are all different. */
  function Sorted(vs: seq<EnumValue>): (r: seq<EnumValue>)
    ensures multiset(r) == multiset(vs)
  {
    if |vs| == 0 then []
    else
      assert vs == [vs[0]] + vs[1..];
      Insert(vs[0], Sorted(vs[1..]))
  }

  predicate Ascending(vs: seq<EnumValue>) { forall i, j :: 0 <= i < j < |vs| ==> vs[i].value <= vs[j].value }

  lemma {:induction false} InsertAscends(v: EnumValue, vs: seq<EnumValue>)
    requires Ascending(vs)
    ensures Ascending(Insert(v, vs))
  {
    if |vs| > 0 && v.value > vs[0].value {
      var r := Insert(v, vs[1..]);
      InsertAscends(v, vs[1..]);
      forall x | x in r ensures vs[0].value <= x.value {
        assert x in multiset(r);
        assert x in multiset(vs[1..]) || x == v;
      }
    }
  }

  lemma {:induction false} InsertDistinct(v: EnumValue, vs: seq<EnumValue>)
    requires Distinct(vs) && forall x :: x in vs ==> x.name != v.name && x.value != v.value
    ensures Distinct(Insert(v, vs))
  {
    if |vs| > 0 && v.value > vs[0].value {
      var r := Insert(v, vs[1..]);
      InsertDistinct(v, vs[1..]);
      forall x | x in r ensures x.name != vs[0].name && x.value != vs[0].value {
        assert x in multiset(r);
        assert x in multiset(vs[1..]) || x == v;
      }
      DistinctCons(vs[0], r);
    } else {
      DistinctCons(v, vs);
    }
  }

  lemma DistinctCons(v: EnumValue, vs: seq<EnumValue>)
    requires Distinct(vs) && forall x :: x in vs ==> x.name != v.name && x.value != v.value
    ensures Distinct([v] + vs)
  {
    var all := [v] + vs;
    forall i, j | 0 <= i < j < |all| ensures all[i].name != all[j].name && all[i].value != all[j].value {
      assert all[j] == vs[j - 1] && vs[j - 1] in vs;
    }
  }

  lemma {:induction false} SortedDistinct(vs: seq<EnumValue>)
    requires Distinct(vs)
    ensures Distinct(Sorted(vs))
  {
    if |vs| > 0 {
      SortedDistinct(vs[1..]);
      SortedSame(vs[1..]);
      InsertDistinct(vs[0], Sorted(vs[1..]));
    }
  }

  lemma {:induction false} SortedAscends(vs: seq<EnumValue>)
    ensures Ascending(Sorted(vs))
  {
    if |vs| > 0 {
      SortedAscends(vs[1..]);
      InsertAscends(vs[0], Sorted(vs[1..]));
    }
  }

  /** Merged enum values are ascending and distinct, hold every number of both, and keep every existing value as it is. */
  lemma MergedValues(existing: seq<EnumValue>, repeat_: seq<EnumValue>)
    requires Distinct(existing)
    ensures var out := Sorted(Dedupe([], existing + repeat_));
      && Ascending(out) && (forall v :: v in existing ==> v in out)
      && (forall x :: x in out ==> x.value in Numbers(existing) + Numbers(repeat_))
      && (forall n :: n in Numbers(existing) + Numbers(repeat_) ==> exists v :: v in out && v.value == n)
      && (forall v, w :: v in out && w in out && (v.name == w.name || v.value == w.value) ==> v == w)
  {
    hide Dedupe, Sorted, Distinct, Ascending, Numbers;
    MergeKeepsNames(existing, repeat_);
    var d := Dedupe([], existing + repeat_);
    SortedAscends(d);
    SortedSame(d);
    DistinctEntries(d);
    PrefixEntries(existing, d);
  }

  lemma SortedSame(vs: seq<EnumValue>)
    ensures forall v :: v in Sorted(vs) <==> v in vs
  {
    assert forall v :: v in Sorted(vs) <==> v in multiset(Sorted(vs));
  }

  lemma PrefixEntries(a: seq<EnumValue>, b: seq<EnumValue>)
    requires a <= b
    ensures forall v :: v in a ==> v in b
  {
  }

  lemma DistinctEntries(vs: seq<EnumValue>)
    requires Distinct(vs)
    ensures forall v, w :: v in vs && w in vs && (v.name == w.name || v.value == w.value) ==> v == w
    ensures forall n :: n in Numbers(vs) <==> exists v :: v in vs && v.value == n
  {
  }
}
