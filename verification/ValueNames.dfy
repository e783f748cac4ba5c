/** Keeping the names of the schema being replaced when only their spelling changed. */
module ValueNames {
  import opened Wire
  import opened EnumNames

  /** Earlier names by spelling or by manifest name. */
  type Earlier = map<string, string>

  /** For each entry, the keys its earlier name may be found under. */
  type Keys = seq<seq<string>>

  /** The name an entry had before, looked up by its first key and then by its second. */
  function Previous(previous: Earlier, keys: seq<string>): Option<string> {
    if |keys| > 0 && keys[0] in previous then Some(previous[keys[0]])
    else if |keys| > 1 && keys[1] in previous then Some(previous[keys[1]])
    else None
  }

  /** An entry keeps its old name unless the name is reviewed for another entry or an earlier entry had it too. */
  predicate Keeps(previous: Earlier, keys: Keys, reviewed: set<string>, i: nat)
    requires i < |keys|
  {
    var old_ := Previous(previous, keys[i]);
    old_.Some? && old_.value !in reviewed && forall j :: 0 <= j < i ==> Previous(previous, keys[j]) != old_
  }

  /** The names kept by the first `n` entries. */
  function KeptNames(previous: Earlier, keys: Keys, reviewed: set<string>, n: nat): set<string>
    requires n <= |keys|
  {
    set i | 0 <= i < n && Keeps(previous, keys, reviewed, i) :: Previous(previous, keys[i]).value
  }

  lemma KeptSnoc(previous: Earlier, keys: Keys, reviewed: set<string>, n: nat)
    requires n < |keys|
    ensures KeptNames(previous, keys, reviewed, n + 1) ==
      KeptNames(previous, keys, reviewed, n) + if Keeps(previous, keys, reviewed, n) then {Previous(previous, keys[n]).value} else {}
  {
  }

  /** An old name is free to be kept exactly when it is neither reviewed nor kept already. */
  lemma {:induction false} KeepsIff(previous: Earlier, keys: Keys, reviewed: set<string>, n: nat)
    requires n < |keys| && Previous(previous, keys[n]).Some?
    ensures Keeps(previous, keys, reviewed, n) <==>
      Previous(previous, keys[n]).value !in reviewed + KeptNames(previous, keys, reviewed, n)
  {
    var old_ := Previous(previous, keys[n]);
    if old_.value !in reviewed && exists j :: 0 <= j < n && Previous(previous, keys[j]) == old_ {
      FirstKeeps(previous, keys, reviewed, n, old_);
    }
  }

  lemma {:induction false} FirstKeeps(previous: Earlier, keys: Keys, reviewed: set<string>, n: nat, name: Option<string>)
    requires n <= |keys| && name.Some? && name.value !in reviewed
    requires exists j :: 0 <= j < n && Previous(previous, keys[j]) == name
    ensures name.value in KeptNames(previous, keys, reviewed, n)
  {
    if exists j :: 0 <= j < n - 1 && Previous(previous, keys[j]) == name {
      FirstKeeps(previous, keys, reviewed, n - 1, name);
      KeptSnoc(previous, keys, reviewed, n - 1);
    } else {
      assert Keeps(previous, keys, reviewed, n - 1);
    }
  }

  function NameSet(names: seq<string>): set<string> { set x | x in names }

  /** Every name taken when entry `i` without an old name to keep looks for one. */
  function Taken(previous: Earlier, keys: Keys, reviewed: set<string>, done: seq<string>): set<string> {
    reviewed + KeptNames(previous, keys, reviewed, |keys|) + NameSet(done)
  }

  /** The name entry `i` ends with, given the names of the entries before it. */
  function NameOf(previous: Earlier, keys: Keys, reviewed: set<string>, names: seq<string>, done: seq<string>): string
    requires |done| < |keys| == |names|
  {
    var i := |done|;
    if Keeps(previous, keys, reviewed, i) then Previous(previous, keys[i]).value
    else Fresh(names[i], names[i] + "_", Taken(previous, keys, reviewed, done))
  }

  ghost predicate Named(previous: Earlier, keys: Keys, reviewed: set<string>, names: seq<string>, out: seq<string>)
    requires |keys| == |names|
  {
    |out| <= |names| && forall i :: 0 <= i < |out| ==> out[i] == NameOf(previous, keys, reviewed, names, out[..i])
  }

  /** Names given this way differ from each other and from the reviewed ones. */
  lemma NamedDistinct(previous: Earlier, keys: Keys, reviewed: set<string>, names: seq<string>, out: seq<string>)
    requires |keys| == |names| && Named(previous, keys, reviewed, names, out)
    ensures forall i :: 0 <= i < |out| ==> out[i] !in reviewed
    ensures forall i, j :: 0 <= i < j < |out| ==> out[i] != out[j]
  {
    hide Previous;
    forall i | 0 <= i < |out| ensures out[i] !in reviewed {
      assert out[i] == NameOf(previous, keys, reviewed, names, out[..i]);
    }
    forall i, j | 0 <= i < j < |out| ensures out[i] != out[j] {
      assert out[i] == NameOf(previous, keys, reviewed, names, out[..i]);
      assert out[j] == NameOf(previous, keys, reviewed, names, out[..j]);
      assert out[..j][i] == out[i];
      if Keeps(previous, keys, reviewed, j) {
        assert Previous(previous, keys[j]).value in KeptNames(previous, keys, reviewed, |keys|);
      }
    }
  }

  /**
   All names end up different from each other and from the reviewed ones. An entry
   keeps its old name when it may, and otherwise its own name, numbered if taken.
   */
  method KeepNames(names: seq<string>, previous: Earlier, keys: Keys, reviewed: set<string>)
    returns (out: seq<string>)
    requires |keys| == |names|
    ensures |out| == |names| && Named(previous, keys, reviewed, names, out)
    ensures forall i :: 0 <= i < |out| ==> out[i] !in reviewed
    ensures forall i, j :: 0 <= i < j < |out| ==> out[i] != out[j]
  {
    hide Previous, Keeps, KeptNames, Fresh;
    var pinned := reviewed;
    var kept: seq<Option<string>> := [];
    NoneKept(previous, keys, reviewed);
    for i := 0 to |names|
      invariant |kept| == i && pinned == reviewed + KeptNames(previous, keys, reviewed, i)
      invariant forall j :: 0 <= j < i ==> kept[j] == KeptName(previous, keys, reviewed, j)
    {
      KeptSnoc(previous, keys, reviewed, i);
      KeepsSome(previous, keys, reviewed, i);
      var old_ := Previous(previous, keys[i]);
      if old_.Some? { KeepsIff(previous, keys, reviewed, i); }
      if old_.Some? && old_.value !in pinned {
        kept, pinned := kept + [old_], pinned + {old_.value};
      } else {
        kept := kept + [None];
      }
    }
    out := [];
    for i := 0 to |names|
      invariant |out| == i && pinned == Taken(previous, keys, reviewed, out)
      invariant Named(previous, keys, reviewed, names, out)
    {
      ghost var before := out;
      KeepsSome(previous, keys, reviewed, i);
      var name;
      if kept[i].Some? {
        name := kept[i].value;
        KeptTaken(previous, keys, reviewed, i);
      } else {
        name := FindFresh(names[i], names[i] + "_", pinned);
        pinned := pinned + {name};
      }
      NameSnoc(out, name);
      out := out + [name];
      NamedSnoc(previous, keys, reviewed, names, before, name);
    }
    NamedDistinct(previous, keys, reviewed, names, out);
  }

  function KeptName(previous: Earlier, keys: Keys, reviewed: set<string>, i: nat): Option<string>
    requires i < |keys|
  {
    if Keeps(previous, keys, reviewed, i) then Previous(previous, keys[i]) else None
  }

  lemma KeptTaken(previous: Earlier, keys: Keys, reviewed: set<string>, i: nat)
    requires i < |keys| && Keeps(previous, keys, reviewed, i)
    ensures Previous(previous, keys[i]).Some? && Previous(previous, keys[i]).value in KeptNames(previous, keys, reviewed, |keys|)
  {
  }

  lemma NamedSnoc(previous: Earlier, keys: Keys, reviewed: set<string>, names: seq<string>, out: seq<string>, name: string)
    requires |out| < |keys| == |names| && Named(previous, keys, reviewed, names, out)
    requires name == NameOf(previous, keys, reviewed, names, out)
    ensures Named(previous, keys, reviewed, names, out + [name])
  {
    hide NameOf;
    var next := out + [name];
    forall i | 0 <= i < |next| ensures next[i] == NameOf(previous, keys, reviewed, names, next[..i]) {
      if i < |out| { assert next[..i] == out[..i]; } else { assert next[..i] == out; }
    }
  }

  lemma NameSnoc(names: seq<string>, name: string)
    ensures NameSet(names + [name]) == NameSet(names) + {name}
  {
  }

  lemma NoneKept(previous: Earlier, keys: Keys, reviewed: set<string>)
    ensures KeptNames(previous, keys, reviewed, 0) == {}
  {
  }

  lemma KeepsSome(previous: Earlier, keys: Keys, reviewed: set<string>, i: nat)
    requires i < |keys|
    ensures Keeps(previous, keys, reviewed, i) ==> Previous(previous, keys[i]).Some?
  {
  }

  // ---- which earlier name an entry follows ----

  /** Some key of the entry leads to the name. */
  predicate Leads(previous: Earlier, keys: seq<string>, name: string) {
    exists j :: 0 <= j < |keys| && keys[j] in previous && previous[keys[j]] == name
  }

  /**
   A union variant follows its manifest name, its first key, and only without one
   known under it its spelling; an earlier entry or a review can have the name first.
   */
  lemma FollowsKey(previous: Earlier, keys: Keys, reviewed: set<string>, names: seq<string>, out: seq<string>, i: nat, k: nat)
    requires |keys| == |names| == |out| && Named(previous, keys, reviewed, names, out) && i < |out|
    requires k < |keys[i]| <= 2 && keys[i][k] in previous && forall j :: 0 <= j < k ==> keys[i][j] !in previous
    requires previous[keys[i][k]] !in reviewed
    requires forall j :: 0 <= j < i ==> !Leads(previous, keys[j], previous[keys[i][k]])
    ensures out[i] == previous[keys[i][k]]
  {
    assert out[i] == NameOf(previous, keys, reviewed, names, out[..i]);
    var name := previous[keys[i][k]];
    assert Previous(previous, keys[i]) == Some(name);
    forall j | 0 <= j < i ensures Previous(previous, keys[j]) != Some(name) { assert !Leads(previous, keys[j], name); }
  }

  /** An entry without an earlier name is called what it is, unless that name is taken. */
  lemma FollowsOwnName(previous: Earlier, keys: Keys, reviewed: set<string>, names: seq<string>, out: seq<string>, i: nat)
    requires |keys| == |names| == |out| && Named(previous, keys, reviewed, names, out) && i < |out|
    requires forall k :: 0 <= k < |keys[i]| ==> keys[i][k] !in previous
    requires names[i] !in reviewed && forall j :: 0 <= j < |keys| ==> !Leads(previous, keys[j], names[i])
    requires names[i] !in out[..i]
    ensures out[i] == names[i]
  {
    assert out[i] == NameOf(previous, keys, reviewed, names, out[..i]);
    assert Previous(previous, keys[i]) == None;
    forall j | 0 <= j < |keys| && Previous(previous, keys[j]).Some? ensures Previous(previous, keys[j]).value != names[i] {
      assert !Leads(previous, keys[j], names[i]);
    }
  }
}
