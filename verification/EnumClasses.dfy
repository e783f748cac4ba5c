/** What folding does to enum values: every number any occurrence published, and no name that was there lost. */
module EnumClasses {
  import opened Schemas
  import opened Renames
  import opened Absorbing
  import opened Folding
  import EnumNames

  predicate Lists(t: TypeDef, n: int) { t.Enum? && exists i :: 0 <= i < |t.values| && t.values[i].value == n }

  /** Numbers ascend, and no name is used twice. */
  predicate InOrder(values: seq<EnumValue>) {
    forall i, j :: 0 <= i < j < |values| ==> values[i].value < values[j].value && values[i].name != values[j].name
  }

  predicate AllDifferent(values: seq<EnumValue>) {
    forall i, j :: 0 <= i < j < |values| ==> values[i].value != values[j].value && values[i].name != values[j].name
  }

  predicate Keeps(values: seq<EnumValue>, out: seq<EnumValue>) { forall v :: v in values ==> v in out }

  /** The definition has the value, under that name or one that its name begins. */
  predicate Publishes(t: TypeDef, v: EnumValue) {
    t.Enum? && exists i :: 0 <= i < |t.values| && t.values[i].value == v.value && t.values[i].name <= v.name
  }

  /** What a definition keeps through everything merged into it: its representation, its names, its tags and its checks. */
  predicate OwnStays(a: TypeDef, r: TypeDef) {
    match a
    case Struct(fields, checks) =>
      && r.Struct? && r.checks == checks && |r.fields| == |fields|
      && forall i :: 0 <= i < |fields| ==> r.fields[i].name == fields[i].name
    case Enum(repr, _) => r.Enum? && r.repr == repr
    case Union(repr, variants) =>
      && r.Union? && r.repr == repr && |r.variants| == |variants|
      && forall i :: 0 <= i < |variants| ==> r.variants[i].name == variants[i].name && r.variants[i].value == variants[i].value
  }

  /** An enum made of two: ordered, with the numbers of both, and the names the first had. */
  ghost predicate Combines(a: TypeDef, b: TypeDef, r: TypeDef) {
    && r.Enum? && InOrder(r.values)
    && (forall n :: Lists(r, n) <==> Lists(a, n) || Lists(b, n))
    && (a.Enum? && AllDifferent(a.values) ==> Keeps(a.values, r.values))
    && forall v :: v in r.values ==> Publishes(a, v) || Publishes(b, v)
  }

  lemma AbsorbCombines(a: TypeDef, b: TypeDef)
    requires Absorbable(a, b)
    ensures Absorb(a, b).Enum? <==> a.Enum?
    ensures a.Enum? ==> b.Enum? && Combines(a, b, Absorb(a, b))
    ensures OwnStays(a, Absorb(a, b))
  {
    if a.Enum? { ValuesCombine(a, b, Absorb(a, b)); }
  }

  lemma ValuesCombine(a: TypeDef, b: TypeDef, r: TypeDef)
    requires a.Enum? && b.Enum? && r.Enum? && r.values == EnumNames.Sorted(EnumNames.Dedupe([], a.values + b.values))
    ensures Combines(a, b, r)
  {
    hide EnumNames.Dedupe, EnumNames.Sorted;
    var all := a.values + b.values;
    var d := EnumNames.Dedupe([], all);
    EnumNames.DedupeSpec([], all);
    EnumNames.SortedAscends(d);
    EnumNames.SortedDistinct(d);
    EnumNames.SortedSame(d);
    if AllDifferent(a.values) { EnumNames.MergeKeepsNames(a.values, b.values); }
    forall v | v in r.values ensures Publishes(a, v) || Publishes(b, v) {
      var i := EnumNames.DedupeSource([], all, v);
      if i < |a.values| { assert all[i] == a.values[i]; } else { assert all[i] == b.values[i - |a.values|]; }
    }
    forall n ensures Lists(r, n) <==> Lists(a, n) || Lists(b, n) { SameNumbers(a, b, r, d, n); }
  }

  lemma SameNumbers(a: TypeDef, b: TypeDef, r: TypeDef, d: seq<EnumValue>, n: int)
    requires a.Enum? && b.Enum? && r.Enum? && forall v :: v in r.values <==> v in d
    requires EnumNames.Numbers(d) == EnumNames.Numbers([]) + EnumNames.Numbers(a.values + b.values)
    ensures Lists(r, n) <==> Lists(a, n) || Lists(b, n)
  {
    ListsIs(r.values, n);
    ListsIs(d, n);
    ListsIs(a.values, n);
    ListsIs(b.values, n);
    ListsIs(a.values + b.values, n);
  }

  lemma ListsIs(values: seq<EnumValue>, n: int)
    ensures n in EnumNames.Numbers(values) <==> exists i :: 0 <= i < |values| && values[i].value == n
    ensures n in EnumNames.Numbers(values) <==> exists v :: v in values && v.value == n
  {
  }

  // ---- enums made of many ----

  /** The enum has exactly the numbers of all of them, each under a name that one of them gave it. */
  ghost predicate Gathers(sources: iset<TypeDef>, r: TypeDef) {
    && r.Enum?
    && (forall n :: Lists(r, n) <==> exists u :: u in sources && Lists(u, n))
    && forall v :: v in r.values ==> exists u :: u in sources && Publishes(u, v)
  }

  lemma GathersSelf(r: TypeDef)
    requires r.Enum?
    ensures Gathers(iset{r}, r) && Keeps(r.values, r.values)
  {
    assert r in iset{r};
    forall v | v in r.values ensures Publishes(r, v) { }
  }

  lemma PublishesThrough(sources: iset<TypeDef>, a: TypeDef, v: EnumValue)
    requires Gathers(sources, a) && Publishes(a, v)
    ensures exists u :: u in sources && Publishes(u, v)
  {
    var i :| 0 <= i < |a.values| && a.values[i].value == v.value && a.values[i].name <= v.name;
    assert a.values[i] in a.values;
    var u :| u in sources && Publishes(u, a.values[i]);
    var j :| 0 <= j < |u.values| && u.values[j].value == a.values[i].value && u.values[j].name <= a.values[i].name;
    assert u.values[j].name <= v.name;
  }

  lemma GathersBoth(s: iset<TypeDef>, a: TypeDef, z: iset<TypeDef>, b: TypeDef, r: TypeDef)
    requires Gathers(s, a) && Gathers(z, b) && Combines(a, b, r)
    ensures Gathers(s + z, r)
  {
    hide Lists, Publishes, InOrder, Keeps, AllDifferent;
    forall v | v in r.values ensures exists u :: u in s + z && Publishes(u, v) {
      if Publishes(a, v) {
        PublishesThrough(s, a, v);
        var u :| u in s && Publishes(u, v);
        assert u in s + z;
      } else {
        PublishesThrough(z, b, v);
        var u :| u in z && Publishes(u, v);
        assert u in s + z;
      }
    }
    forall n ensures Lists(r, n) <==> exists u :: u in s + z && Lists(u, n) {
      if Lists(a, n) { var u :| u in s && Lists(u, n); assert u in s + z; }
      if Lists(b, n) { var u :| u in z && Lists(u, n); assert u in s + z; }
    }
  }

  // ---- through a whole merge ----

  /** The definitions that became `e`: originals, and the occurrence. */
  ghost function Sources(types0: Table, name: string, t: TypeDef, log: Log, e: string): iset<TypeDef> {
    (iset x | x in types0 && Apply(log, x) == e :: types0[x]) + if Apply(log, name) == e then iset{t} else iset{}
  }

  /** Something was merged or folded into `e`. */
  ghost predicate Joined(types0: Table, name: string, log: Log, e: string) {
    Apply(log, name) == e || exists x :: x in types0 && x != e && Apply(log, x) == e
  }

  ghost predicate Merged(types0: Table, name: string, t: TypeDef, log: Log, e: string, r: TypeDef) {
    && e in types0 && OwnStays(types0[e], r)
    && (!Joined(types0, name, log, e) ==> r == types0[e])
    && (r.Enum? ==>
      && Gathers(Sources(types0, name, t, log, e), r)
      && (Joined(types0, name, log, e) ==> InOrder(r.values))
      && (AllDifferent(types0[e].values) ==> Keeps(types0[e].values, r.values)))
  }

  /**
   Every definition nothing was merged into is as it was. Every enum something was
   merged into is in order, has exactly the numbers of everything that became it,
   and still has the values it had itself. All keep what is their own.
   */
  ghost predicate ValuesMerged(types0: Table, name: string, t: TypeDef, types: Table, log: Log) {
    forall e :: e in types ==> Merged(types0, name, t, log, e, types[e])
  }

  /** After the occurrence is absorbed, only its own definition has been joined. */
  lemma ValuesBegin(types: Table, log: Log, name: string, t: TypeDef)
    requires name in types && Absorbable(types[name], t)
    requires forall x :: x in types ==> Apply(log, x) == x
    ensures ValuesMerged(types, name, t, types[name := Absorb(types[name], t)], log)
  {
    hide Apply, Absorb, Absorbable, Combines, Gathers, InOrder, Keeps, Publishes, AllDifferent;
    var types2 := types[name := Absorb(types[name], t)];
    forall e | e in types2 ensures Merged(types, name, t, log, e, types2[e]) {
      if types[e].Enum? { GathersSelf(types[e]); }
      if e == name {
        AbsorbCombines(types[name], t);
        if t.Enum? { GathersSelf(t); }
        assert Sources(types, name, t, log, e) == iset{types[name]} + iset{t};
        if types[name].Enum? { JoinedValues(iset{types[name]}, types[name], iset{t}, t, types2[name]); }
      } else {
        assert Sources(types, name, t, log, e) == iset{types[e]};
      }
    }
  }

  lemma JoinedValues(s: iset<TypeDef>, a: TypeDef, z: iset<TypeDef>, b: TypeDef, r: TypeDef)
    requires a.Enum? && Gathers(s, a) && Gathers(z, b) && Combines(a, b, r)
    ensures Gathers(s + z, r) && InOrder(r.values) && (AllDifferent(a.values) ==> Keeps(a.values, r.values))
  {
    hide Gathers, InOrder, Keeps, AllDifferent, Publishes, Lists;
    GathersBoth(s, a, z, b, r);
  }

  /** One more fold, of `y` into `x`. */
  lemma ValuesFold(types0: Table, name: string, t: TypeDef, types: Table, log: Log, x: string, y: string)
    requires ValuesMerged(types0, name, t, types, log) && x != y && x in types && y in types && Absorbable(types[x], types[y])
    requires forall z {:trigger Apply(log, z)} :: Apply(log + [(y, x)], z) == if Apply(log, z) == y then x else Apply(log, z)
    requires y in types0 && Apply(log, y) == y && Apply(log, x) == x
    ensures ValuesMerged(types0, name, t, types[x := Absorb(types[x], types[y])] - {y}, log + [(y, x)])
  {
    hide Apply, Absorb, Absorbable, Combines, Gathers, InOrder, Keeps, AllDifferent;
    var types2, log2 := types[x := Absorb(types[x], types[y])] - {y}, log + [(y, x)];
    forall e | e in types2 ensures Merged(types0, name, t, log2, e, types2[e]) {
      assert Merged(types0, name, t, log, e, types[e]);
      if e == x {
        assert Merged(types0, name, t, log, y, types[y]);
        AbsorbCombines(types[x], types[y]);
        FoldedSources(types0, name, t, log, x, y);
        if types[x].Enum? {
          JoinedValues(Sources(types0, name, t, log, x), types[x], Sources(types0, name, t, log, y), types[y], types2[x]);
          KeptThrough(types0[x].values, types[x].values, types2[x].values);
        }
      } else {
        OtherSources(types0, name, t, log, x, y, e);
      }
    }
  }

  lemma FoldedSources(types0: Table, name: string, t: TypeDef, log: Log, x: string, y: string)
    requires forall z {:trigger Apply(log, z)} :: Apply(log + [(y, x)], z) == if Apply(log, z) == y then x else Apply(log, z)
    requires x != y && y in types0 && Apply(log, y) == y
    ensures Sources(types0, name, t, log + [(y, x)], x) == Sources(types0, name, t, log, x) + Sources(types0, name, t, log, y)
    ensures Joined(types0, name, log + [(y, x)], x)
  {
    hide Apply;
    var log2 := log + [(y, x)];
    assert Apply(log2, y) == x;
    forall u | u in Sources(types0, name, t, log, x) + Sources(types0, name, t, log, y) ensures u in Sources(types0, name, t, log2, x) {
      if z :| z in types0 && (Apply(log, z) == x || Apply(log, z) == y) && types0[z] == u { assert Apply(log2, z) == x; }
    }
  }

  lemma OtherSources(types0: Table, name: string, t: TypeDef, log: Log, x: string, y: string, e: string)
    requires forall z {:trigger Apply(log, z)} :: Apply(log + [(y, x)], z) == if Apply(log, z) == y then x else Apply(log, z)
    requires e != x && e != y
    ensures Sources(types0, name, t, log + [(y, x)], e) == Sources(types0, name, t, log, e)
    ensures Joined(types0, name, log + [(y, x)], e) == Joined(types0, name, log, e)
  {
    hide Apply;
    var log2 := log + [(y, x)];
    assert forall z :: Apply(log2, z) == e <==> Apply(log, z) == e by {
      forall z ensures Apply(log2, z) == e <==> Apply(log, z) == e { assert Apply(log, z) == Apply(log, z); }
    }
  }

  /** What was kept before a fold, and was in order or as it had been, is kept after it. */
  lemma KeptThrough(values0: seq<EnumValue>, before: seq<EnumValue>, after: seq<EnumValue>)
    requires AllDifferent(values0) ==> Keeps(values0, before)
    requires AllDifferent(before) ==> Keeps(before, after)
    requires InOrder(before) || before == values0
    ensures AllDifferent(values0) ==> Keeps(values0, after)
  {
  }
}
