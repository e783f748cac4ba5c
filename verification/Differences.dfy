/** The field differences between two versions of a struct or packet. */
module Differences {
  import opened Wire
  import opened Descriptions
  import Joining

  /** A field as the schema file writes it. */
  datatype Field = Field(name: string, node: Written)

  /** One line of the report; positions count from 0. */
  datatype Change =
    | Removed(name: string, description: string)
    | Retyped(name: string, before: string, after: string)
    | Added(name: string, description: string, position: nat)
    | Reordered(before: string, after: string)

  /** The last field of a name. */
  function Lookup(fields: seq<Field>, name: string): (r: Option<nat>)
    ensures r.Some? ==> r.value < |fields| && fields[r.value].name == name
    ensures r.None? ==> forall i :: 0 <= i < |fields| ==> fields[i].name != name
  {
    if |fields| == 0 then None
    else if fields[|fields| - 1].name == name then Some(|fields| - 1)
    else Lookup(fields[..|fields| - 1], name)
  }

  function ChangeOf(f: Field, b: seq<Field>): seq<Change> {
    match Lookup(b, f.name)
    case None => [Removed(f.name, Describe(f.node))]
    case Some(j) =>
      if Describe(f.node) != Describe(b[j].node) then [Retyped(f.name, Describe(f.node), Describe(b[j].node))] else []
  }

  /** The removed and retyped fields among `a`. */
  function Changes(a: seq<Field>, b: seq<Field>): seq<Change> {
    if |a| == 0 then [] else Changes(a[..|a| - 1], b) + ChangeOf(a[|a| - 1], b)
  }

  /** The fields among the first `n` of `b` that `a` does not have. */
  function Additions(a: seq<Field>, b: seq<Field>, n: nat): seq<Change>
    requires n <= |b|
  {
    if n == 0 then []
    else
      var f := b[n - 1];
      Additions(a, b, n - 1)
      + if Lookup(a, f.name).Some? then [] else [Added(f.name, Describe(f.node), Lookup(b, f.name).value)]
  }

  /** The names of `a` that `b` has, in order. */
  function Common(a: seq<Field>, b: seq<Field>): seq<string> {
    if |a| == 0 then []
    else Common(a[..|a| - 1], b) + if Lookup(b, a[|a| - 1].name).Some? then [a[|a| - 1].name] else []
  }

  function Join(names: seq<string>): string { Joining.Join(',', names) }

  function Order(a: seq<Field>, b: seq<Field>): seq<Change> {
    if Join(Common(a, b)) != Join(Common(b, a)) then [Reordered(Join(Common(a, b)), Join(Common(b, a)))] else []
  }

  function Differences(a: seq<Field>, b: seq<Field>): seq<Change> { Changes(a, b) + Additions(a, b, |b|) + Order(a, b) }

  method Index(fields: seq<Field>) returns (m: map<string, nat>)
    ensures Indexes(m, fields)
  {
    m := map[];
    for i := 0 to |fields|
      invariant Indexes(m, fields[..i])
    {
      assert fields[..i + 1][..i] == fields[..i];
      m := m[fields[i].name := i];
    }
    assert fields[..|fields|] == fields;
  }

  ghost predicate Indexes(m: map<string, nat>, fields: seq<Field>) {
    forall n :: Lookup(fields, n) == if n in m then Some(m[n]) else None
  }

  method DiffFields(a: seq<Field>, b: seq<Field>) returns (out: seq<Change>)
    ensures out == Differences(a, b)
  {
    hide Describe, Lookup, Join, Changes, Additions, Common;
    var ai := Index(a);
    var bi := Index(b);
    var common, order;
    out, common := Compare(a, b, bi);
    var added;
    added, order := Remaining(a, b, ai, bi);
    out := out + added;
    if Join(common) != Join(order) { out := out + [Reordered(Join(common), Join(order))]; }
  }

  method Compare(a: seq<Field>, b: seq<Field>, bi: map<string, nat>) returns (out: seq<Change>, common: seq<string>)
    requires Indexes(bi, b)
    ensures out == Changes(a, b) && common == Common(a, b)
  {
    hide Describe, Lookup;
    out, common := [], [];
    for i := 0 to |a|
      invariant out == Changes(a[..i], b) && common == Common(a[..i], b)
    {
      var f := a[i];
      assert a[..i + 1][..i] == a[..i];
      if f.name !in bi {
        out := out + [Removed(f.name, Describe(f.node))];
      } else {
        common := common + [f.name];
        var x, y := Describe(f.node), Describe(b[bi[f.name]].node);
        if x != y { out := out + [Retyped(f.name, x, y)]; }
      }
    }
    assert a[..|a|] == a;
  }

  method Remaining(a: seq<Field>, b: seq<Field>, ai: map<string, nat>, bi: map<string, nat>) returns (out: seq<Change>, order: seq<string>)
    requires Indexes(ai, a) && Indexes(bi, b)
    ensures out == Additions(a, b, |b|) && order == Common(b, a)
  {
    hide Describe, Lookup;
    out, order := [], [];
    for i := 0 to |b|
      invariant out == Additions(a, b, i) && order == Common(b[..i], a)
    {
      assert b[..i + 1][..i] == b[..i];
      LookupSome(b, i);
      if b[i].name in ai { order := order + [b[i].name]; }
      else { out := out + [Added(b[i].name, Describe(b[i].node), bi[b[i].name])]; }
    }
    assert b[..|b|] == b;
  }

  lemma LookupSome(fields: seq<Field>, i: nat)
    requires i < |fields|
    ensures Lookup(fields, fields[i].name).Some?
  {
  }

  // ---- nothing is reported exactly when nothing changed ----

  /** What validation demands of a field list. */
  predicate Valid(fields: seq<Field>) {
    && (forall i, j :: 0 <= i < j < |fields| ==> fields[i].name != fields[j].name)
    && forall i :: 0 <= i < |fields| ==> |fields[i].name| > 0 && Wordy(fields[i].name) && Described(fields[i].node)
  }

  lemma {:induction false} NoChanges(a: seq<Field>, b: seq<Field>)
    ensures Changes(a, b) == [] <==> forall i :: 0 <= i < |a| ==> ChangeOf(a[i], b) == []
  {
    hide ChangeOf;
    if |a| > 0 { NoChanges(a[..|a| - 1], b); }
  }

  lemma {:induction false} NoAdditions(a: seq<Field>, b: seq<Field>, n: nat)
    requires n <= |b|
    ensures Additions(a, b, n) == [] <==> forall i :: 0 <= i < n ==> Lookup(a, b[i].name).Some?
  {
    hide Describe;
    if n > 0 { NoAdditions(a, b, n - 1); }
  }

  function NamesOf(fields: seq<Field>): (r: seq<string>)
    ensures |r| == |fields|
  {
    seq(|fields|, i requires 0 <= i < |fields| => fields[i].name)
  }

  lemma {:induction false} AllCommon(a: seq<Field>, b: seq<Field>)
    requires forall i :: 0 <= i < |a| ==> Lookup(b, a[i].name).Some?
    ensures Common(a, b) == NamesOf(a)
  {
    if |a| > 0 {
      AllCommon(a[..|a| - 1], b);
      assert NamesOf(a) == NamesOf(a[..|a| - 1]) + [a[|a| - 1].name];
    }
  }

  predicate AllWords(names: seq<string>) { forall i :: 0 <= i < |names| ==> |names[i]| > 0 && Wordy(names[i]) }

  lemma {:induction false} JoinInjective(xs: seq<string>, ys: seq<string>)
    requires AllWords(xs) && AllWords(ys) && Join(xs) == Join(ys)
    ensures xs == ys
  {
    hide Wordy;
    if |xs| > 0 && |ys| > 0 {
      JoinSplit(xs);
      JoinSplit(ys);
      var r, s := JoinRest(xs), JoinRest(ys);
      WordSplit(xs[0], r, ys[0], s);
      if |xs| > 1 && |ys| > 1 {
        assert r[1..] == Join(xs[1..]) && s[1..] == Join(ys[1..]);
        JoinInjective(xs[1..], ys[1..]);
      }
      assert xs == [xs[0]] + xs[1..] && ys == [ys[0]] + ys[1..];
    }
  }

  function JoinRest(xs: seq<string>): string
    requires |xs| > 0
  {
    if |xs| == 1 then "" else "," + Join(xs[1..])
  }

  lemma JoinSplit(xs: seq<string>)
    requires |xs| > 0
    ensures Join(xs) == xs[0] + JoinRest(xs) && Ends(JoinRest(xs))
    ensures |xs[0]| > 0 ==> Join(xs) != ""
  {
  }

  lemma LookupOwn(fields: seq<Field>, i: nat)
    requires Valid(fields) && i < |fields|
    ensures Lookup(fields, fields[i].name) == Some(i)
  {
    hide Described, Wordy;
  }

  /** The report is empty exactly when the two field lists are the same, down to every bound. */
  lemma NothingReported(a: seq<Field>, b: seq<Field>)
    requires Valid(a) && Valid(b)
    ensures Differences(a, b) == [] <==> a == b
  {
    hide Describe, Described, Lookup, Wordy, Changes, Additions, Common, Join;
    NoChanges(a, b);
    NoAdditions(a, b, |b|);
    if a == b {
      forall i | 0 <= i < |a| ensures ChangeOf(a[i], b) == [] && Lookup(a, b[i].name).Some? { LookupOwn(a, i); }
    }
    if Differences(a, b) == [] {
      Unchanged(a, b);
    }
  }

  lemma Unchanged(a: seq<Field>, b: seq<Field>)
    requires Valid(a) && Valid(b)
    requires forall i :: 0 <= i < |a| ==> ChangeOf(a[i], b) == []
    requires forall i :: 0 <= i < |b| ==> Lookup(a, b[i].name).Some?
    requires Join(Common(a, b)) == Join(Common(b, a))
    ensures a == b
  {
    hide Describe, Described, Lookup, Wordy, Join, Common;
    AllCommon(a, b);
    AllCommon(b, a);
    JoinInjective(NamesOf(a), NamesOf(b));
    forall i | 0 <= i < |a| ensures a[i] == b[i] {
      assert NamesOf(a)[i] == NamesOf(b)[i];
      LookupOwn(b, i);
      assert ChangeOf(a[i], b) == [];
      DescribeInjective(a[i].node, b[i].node);
    }
  }

  // ---- what each line of a report says ----

  predicate Has(fields: seq<Field>, name: string) { exists i :: 0 <= i < |fields| && fields[i].name == name }

  /** The field lists share the names, in the order of the first. */
  ghost predicate Shared(a: seq<Field>, b: seq<Field>, names: seq<string>, at: seq<nat>) {
    && |at| == |names|
    && (forall p, q :: 0 <= p < q < |at| ==> at[p] < at[q])
    && (forall p :: 0 <= p < |at| ==> at[p] < |a| && names[p] == a[at[p]].name && Has(b, names[p]))
    && forall i: nat :: i < |a| && Has(b, a[i].name) ==> i in at
  }

  lemma LookupHas(fields: seq<Field>, name: string)
    ensures Lookup(fields, name).Some? <==> Has(fields, name)
  {
  }

  lemma {:induction false} CommonShared(a: seq<Field>, b: seq<Field>) returns (at: seq<nat>)
    ensures Shared(a, b, Common(a, b), at)
  {
    hide Lookup, Has, Shared;
    if |a| == 0 {
      at := NothingShared(a, b);
    } else {
      var init, last := a[..|a| - 1], a[|a| - 1];
      at := CommonShared(init, b);
      LookupHas(b, last.name);
      assert a == init + [last];
      SharedSnoc(init, b, Common(init, b), at, last);
      if Has(b, last.name) { at := at + [|init|]; }
    }
  }

  lemma NothingShared(a: seq<Field>, b: seq<Field>) returns (at: seq<nat>)
    requires |a| == 0
    ensures Shared(a, b, [], at)
  {
    at := [];
  }

  lemma SharedSnoc(a: seq<Field>, b: seq<Field>, names: seq<string>, at: seq<nat>, f: Field)
    requires Shared(a, b, names, at)
    ensures if Has(b, f.name) then Shared(a + [f], b, names + [f.name], at + [|a|]) else Shared(a + [f], b, names + [], at)
  {
    hide Has;
    var more := a + [f];
    assert forall i :: 0 <= i < |a| ==> more[i] == a[i];
    assert names + [] == names;
  }

  lemma {:induction false} ChangesAre(a: seq<Field>, b: seq<Field>, c: Change)
    ensures c in Changes(a, b) <==> exists i :: 0 <= i < |a| && c in ChangeOf(a[i], b)
  {
    hide ChangeOf;
    if |a| > 0 {
      var init := a[..|a| - 1];
      ChangesAre(init, b, c);
      assert forall i :: 0 <= i < |init| ==> a[i] == init[i];
      if i :| 0 <= i < |a| && c in ChangeOf(a[i], b) { assert i == |a| - 1 || a[i] == init[i]; }
    }
  }

  lemma {:induction false} AdditionsAre(a: seq<Field>, b: seq<Field>, n: nat, c: Change)
    requires n <= |b|
    ensures c in Additions(a, b, n) <==>
      exists j :: 0 <= j < n && !Has(a, b[j].name) && c == Added(b[j].name, Describe(b[j].node), Lookup(b, b[j].name).value)
  {
    hide Describe, Lookup, Has;
    if n > 0 {
      AdditionsAre(a, b, n - 1, c);
      LookupHas(a, b[n - 1].name);
    }
  }

  /** A field is reported removed exactly when only the first list has it, and added when only the second has. */
  lemma RemovedAndAdded(a: seq<Field>, b: seq<Field>, name: string, text: string, position: nat)
    requires Valid(a) && Valid(b)
    ensures Removed(name, text) in Differences(a, b) <==>
      !Has(b, name) && exists i :: 0 <= i < |a| && a[i].name == name && Describe(a[i].node) == text
    ensures Added(name, text, position) in Differences(a, b) <==>
      !Has(a, name) && position < |b| && b[position].name == name && Describe(b[position].node) == text
  {
    hide Describe, Valid, Changes, Additions, Join, Common, Lookup;
    var gone, come := Removed(name, text), Added(name, text, position);
    ChangesAre(a, b, gone);
    ChangesAre(a, b, come);
    AdditionsAre(a, b, |b|, gone);
    AdditionsAre(a, b, |b|, come);
    LookupHas(b, name);
    forall j | 0 <= j < |b| ensures Lookup(b, b[j].name) == Some(j) { LookupOwn(b, j); }
  }

  /** A field of both is reported retyped, its old description first, exactly when the descriptions differ. */
  lemma RetypedIs(a: seq<Field>, b: seq<Field>, name: string, before: string, after: string)
    requires Valid(a) && Valid(b)
    ensures Retyped(name, before, after) in Differences(a, b) <==>
      before != after && exists i, j ::
        && 0 <= i < |a| && 0 <= j < |b| && a[i].name == name == b[j].name
        && Describe(a[i].node) == before && Describe(b[j].node) == after
  {
    hide Describe, Valid, Changes, Additions, Join, Common, Lookup;
    var c := Retyped(name, before, after);
    ChangesAre(a, b, c);
    AdditionsAre(a, b, |b|, c);
    forall j | 0 <= j < |b| ensures Lookup(b, b[j].name) == Some(j) { LookupOwn(b, j); }
  }

  predicate Rising(at: seq<nat>) { forall p, q :: 0 <= p < q < |at| ==> at[p] < at[q] }

  predicate Within(at: seq<nat>, to: seq<nat>) { forall p :: 0 <= p < |at| ==> at[p] in to }

  lemma {:induction false} SameRising(at: seq<nat>, to: seq<nat>)
    requires Rising(at) && Rising(to) && Within(at, to) && Within(to, at)
    ensures at == to
  {
    hide Rising, Within;
    SameLast(at, to);
    if |at| > 0 {
      ButLast(at, to);
      ButLast(to, at);
      SameRising(at[..|at| - 1], to[..|to| - 1]);
      assert at == at[..|at| - 1] + [at[|at| - 1]] && to == to[..|to| - 1] + [to[|to| - 1]];
    }
  }

  lemma SameLast(at: seq<nat>, to: seq<nat>)
    requires Rising(at) && Rising(to) && Within(at, to) && Within(to, at)
    ensures |at| > 0 <==> |to| > 0
    ensures |at| > 0 ==> at[|at| - 1] == to[|to| - 1]
  {
    if |at| > 0 { assert at[|at| - 1] in to; }
    if |to| > 0 { assert to[|to| - 1] in at; }
  }

  lemma ButLast(at: seq<nat>, to: seq<nat>)
    requires Rising(at) && Within(at, to) && |at| > 0 && |to| > 0 && at[|at| - 1] == to[|to| - 1]
    ensures Rising(at[..|at| - 1]) && Within(at[..|at| - 1], to[..|to| - 1])
  {
    var init, rest := at[..|at| - 1], to[..|to| - 1];
    forall p | 0 <= p < |init| ensures init[p] in rest {
      var q :| 0 <= q < |to| && to[q] == at[p];
      assert rest[q] == at[p];
    }
  }

  lemma SharedWithin(a: seq<Field>, b: seq<Field>, xs: seq<string>, at: seq<nat>, ys: seq<string>, to: seq<nat>)
    requires Shared(a, b, xs, at) && Shared(a, b, ys, to)
    ensures Rising(at) && Within(at, to)
  {
    hide Has;
    forall p | 0 <= p < |at| ensures at[p] in to { assert Has(b, xs[p]); }
  }

  /** No two lists of names are the shared ones in order. */
  lemma SharedOnce(a: seq<Field>, b: seq<Field>, xs: seq<string>, at: seq<nat>, ys: seq<string>, to: seq<nat>)
    requires Shared(a, b, xs, at) && Shared(a, b, ys, to)
    ensures xs == ys
  {
    hide Has;
    SharedWithin(a, b, xs, at, ys, to);
    SharedWithin(a, b, ys, to, xs, at);
    SameRising(at, to);
  }

  /** The order is reported, old one first, exactly when the shared names come in another order. */
  lemma ReorderedIs(
    a: seq<Field>, b: seq<Field>, xs: seq<string>, at: seq<nat>, ys: seq<string>, to: seq<nat>, before: string, after: string)
    requires Valid(a) && Valid(b) && Shared(a, b, xs, at) && Shared(b, a, ys, to)
    ensures Reordered(before, after) in Differences(a, b) <==>
      xs != ys && before == Joining.Join(',', xs) && after == Joining.Join(',', ys)
  {
    hide Describe, Changes, Additions, Common, Lookup, Shared, Valid;
    var c := Reordered(before, after);
    ChangesAre(a, b, c);
    AdditionsAre(a, b, |b|, c);
    var at' := CommonShared(a, b);
    var to' := CommonShared(b, a);
    SharedOnce(a, b, xs, at, Common(a, b), at');
    SharedOnce(b, a, ys, to, Common(b, a), to');
    SharedWords(a, b, xs, at);
    SharedWords(b, a, ys, to);
    if Join(xs) == Join(ys) { JoinInjective(xs, ys); }
  }

  lemma SharedWords(a: seq<Field>, b: seq<Field>, xs: seq<string>, at: seq<nat>)
    requires Valid(a) && Shared(a, b, xs, at)
    ensures AllWords(xs)
  {
    hide Wordy, Described, Has;
  }
}
