/** The wire names each type is known by, and the table that finds a type by its wire name. */
module WireNames {
  import opened Renames

  type Wires = map<string, seq<string>>

  type Keys = map<string, string>

  function AppendMissing(list: seq<string>, value: string): seq<string> { if value in list then list else list + [value] }

  function AppendAll(list: seq<string>, more: seq<string>): seq<string> {
    if |more| == 0 then list else AppendMissing(AppendAll(list, more[..|more| - 1]), more[|more| - 1])
  }

  function Rekey(keys: Keys, name: string, list: seq<string>): Keys {
    if |list| == 0 then keys else Rekey(keys, name, list[..|list| - 1])[list[|list| - 1] := name]
  }

  predicate Distinct(list: seq<string>) { forall i, j :: 0 <= i < j < |list| ==> list[i] != list[j] }

  /** What was there stays in front, what is new follows once, and nothing else. */
  lemma {:induction false} AppendAllHas(list: seq<string>, more: seq<string>)
    ensures var r := AppendAll(list, more);
      list <= r && (forall k :: k in r <==> k in list || k in more) && (Distinct(list) ==> Distinct(r))
  {
    if |more| > 0 {
      AppendAllHas(list, more[..|more| - 1]);
      assert more == more[..|more| - 1] + [more[|more| - 1]];
    }
  }

  lemma {:induction false} RekeyAt(keys: Keys, name: string, list: seq<string>, k: string)
    ensures k in list ==> k in Rekey(keys, name, list) && Rekey(keys, name, list)[k] == name
    ensures k !in list && k in keys ==> k in Rekey(keys, name, list) && Rekey(keys, name, list)[k] == keys[k]
  {
    if |list| > 0 {
      RekeyAt(keys, name, list[..|list| - 1], k);
      assert list == list[..|list| - 1] + [list[|list| - 1]];
    }
  }

  /** Each type's wire names are distinct, and lead to that type and no other. */
  predicate Indexed(names: set<string>, wires: Wires, keys: Keys) {
    && wires.Keys == names
    && forall t :: t in names ==> Distinct(wires[t]) && forall k :: k in wires[t] ==> k in keys && keys[k] == t
  }

  /** A folded type's wire names pass to the type it became. */
  function FoldWires(wires: Wires, a: string, b: string): Wires
    requires a in wires && b in wires
  {
    wires[a := AppendAll(wires[a], wires[b])] - {b}
  }

  lemma FoldIndexed(names: set<string>, wires: Wires, keys: Keys, a: string, b: string)
    requires Indexed(names, wires, keys) && a in names && b in names && a != b
    ensures Indexed(names - {b}, FoldWires(wires, a, b), Rekey(keys, a, wires[b]))
  {
    hide Distinct;
    AppendAllHas(wires[a], wires[b]);
    forall t, k | t in names - {b} && k in FoldWires(wires, a, b)[t]
      ensures k in Rekey(keys, a, wires[b]) && Rekey(keys, a, wires[b])[k] == t
    {
      RekeyAt(keys, a, wires[b], k);
    }
  }

  /** The wire name is found at what the type has become. */
  predicate Found(log: Log, wires: Wires, keys: Keys, t: string, k: string) {
    var u := Apply(log, t);
    u in wires && k in wires[u] && k in keys && keys[k] == u
  }

  /** Every wire name of the earlier table is still found. */
  ghost predicate Follows(wires0: Wires, log: Log, wires: Wires, keys: Keys) {
    forall t, k :: t in wires0 && k in wires0[t] ==> Found(log, wires, keys, t, k)
  }

  lemma FollowsFold(names: set<string>, wires0: Wires, log: Log, wires: Wires, keys: Keys, a: string, b: string)
    requires Follows(wires0, log, wires, keys) && Indexed(names, wires, keys) && a in names && b in names && a != b
    requires Forest(log) && !Folded(log, a) && !Folded(log, b)
    ensures Follows(wires0, log + [(b, a)], FoldWires(wires, a, b), Rekey(keys, a, wires[b]))
  {
    hide Distinct, Forest, Apply, Found, AppendAll, Rekey;
    Extend(log, b, a);
    forall t, k | t in wires0 && k in wires0[t]
      ensures Found(log + [(b, a)], FoldWires(wires, a, b), Rekey(keys, a, wires[b]), t, k)
    {
      assert Found(log, wires, keys, t, k);
      FoundFold(names, log, wires, keys, a, b, t, k);
    }
  }

  lemma FoundFold(names: set<string>, log: Log, wires: Wires, keys: Keys, a: string, b: string, t: string, k: string)
    requires Found(log, wires, keys, t, k) && Indexed(names, wires, keys) && a in names && b in names && a != b
    requires Apply(log + [(b, a)], t) == if Apply(log, t) == b then a else Apply(log, t)
    ensures Found(log + [(b, a)], FoldWires(wires, a, b), Rekey(keys, a, wires[b]), t, k)
  {
    hide Distinct, Apply, AppendAll, Rekey;
    AppendAllHas(wires[a], wires[b]);
    RekeyAt(keys, a, wires[b], k);
  }

  /** The fold's loop over the wire names that pass on. */
  method PassWires(list: seq<string>, more: seq<string>, keys: Keys, name: string) returns (all: seq<string>, index: Keys)
    ensures all == AppendAll(list, more) && index == Rekey(keys, name, more)
  {
    all, index := list, keys;
    for i := 0 to |more|
      invariant all == AppendAll(list, more[..i]) && index == Rekey(keys, name, more[..i])
    {
      assert more[..i + 1][..i] == more[..i];
      all, index := AppendMissing(all, more[i]), index[more[i] := name];
    }
    assert more[..|more|] == more;
  }
}
