/** Names of union variants, from the words of their manifest names. */
module VariantNames {
  import opened Wire
  import opened EnumNames
  import Joining

  /** A variant without payload is called `empty` whatever is trimmed. */
  predicate Void(words: seq<string>) { words == ["empty"] }

  function Underscored(words: seq<string>): string { Joining.Join('_', words) }

  /** What is left of one name without its first `prefix` and last `suffix` words, if anything is. */
  function TrimOne(words: seq<string>, prefix: nat, suffix: nat): Option<string> {
    if Void(words) then Some("empty")
    else if prefix + suffix >= |words| then None
    else Some(Underscored(words[prefix..|words| - suffix]))
  }

  /** The words left are those between the first `prefix` and the last `suffix`; read back at the underscores, no others. */
  lemma TrimOneIs(front: seq<string>, middle: seq<string>, back: seq<string>)
    requires !Void(front + middle + back) && forall i :: 0 <= i < |middle| ==> '_' !in middle[i]
    ensures var r := TrimOne(front + middle + back, |front|, |back|);
      if |middle| == 0 then r == None else r.Some? && Joining.Pieces('_', r.value) == middle
    ensures TrimOne(["empty"], |front|, |back|) == Some("empty")
  {
    var words := front + middle + back;
    assert words[|front|..|words| - |back|] == middle;
    if |middle| > 0 { Joining.PiecesOfJoin('_', middle); }
  }

  /** All names trimmed alike, provided every name keeps a word and no two end up equal. */
  function Trimmed(split: seq<seq<string>>, prefix: nat, suffix: nat): Option<seq<string>> {
    if |split| == 0 then Some([])
    else
      var out, name := Trimmed(split[..|split| - 1], prefix, suffix), TrimOne(split[|split| - 1], prefix, suffix);
      if out.None? || name.None? || name.value in out.value then None else Some(out.value + [name.value])
  }

  method Trim(split: seq<seq<string>>, prefix: nat, suffix: nat) returns (r: Option<seq<string>>)
    ensures r == Trimmed(split, prefix, suffix)
  {
    hide TrimOne;
    var out: seq<string>, seen: set<string> := [], {};
    for i := 0 to |split|
      invariant Trimmed(split[..i], prefix, suffix) == Some(out)
      invariant forall x :: x in seen <==> x in out
    {
      assert split[..i + 1][..i] == split[..i];
      var name := TrimOne(split[i], prefix, suffix);
      if name.None? || name.value in seen {
        StaysNone(split, i + 1, prefix, suffix);
        return None;
      }
      out, seen := out + [name.value], seen + {name.value};
    }
    assert split[..|split|] == split;
    return Some(out);
  }

  lemma {:induction false} StaysNone(split: seq<seq<string>>, i: nat, prefix: nat, suffix: nat)
    requires i <= |split| && Trimmed(split[..i], prefix, suffix).None?
    ensures Trimmed(split, prefix, suffix).None?
    decreases |split|
  {
    if i == |split| {
      assert split[..i] == split;
    } else {
      var init := split[..|split| - 1];
      assert init[..i] == split[..i];
      StaysNone(init, i, prefix, suffix);
    }
  }

  function Numbered(n: nat): seq<string> { seq(n, i requires 0 <= i < n => "variant" + Digits(i)) }

  /** Numbered names count from zero. */
  lemma NumberedAre(n: nat, i: nat)
    requires i < n
    ensures |Numbered(n)| == n && "variant" <= Numbered(n)[i] && Number(Numbered(n)[i][7..]) == i
  {
    DigitsAre(i);
    assert Numbered(n)[i][7..] == Digits(i);
  }

  /** Words, one name at a time: none is empty, and no name is without words. */
  predicate Words(split: seq<seq<string>>) {
    forall i :: 0 <= i < |split| ==> |split[i]| > 0 && forall j :: 0 <= j < |split[i]| ==> |split[i][j]| > 0
  }

  predicate DistinctNames(names: seq<string>) {
    && (forall i :: 0 <= i < |names| ==> |names[i]| > 0)
    && forall i, j :: 0 <= i < j < |names| ==> names[i] != names[j]
  }

  lemma {:induction false} UnderscoredSome(words: seq<string>)
    requires |words| > 0 && |words[0]| > 0
    ensures |Underscored(words)| > 0
  {
  }

  lemma {:induction false} TrimmedDistinct(split: seq<seq<string>>, prefix: nat, suffix: nat)
    requires Words(split) && Trimmed(split, prefix, suffix).Some?
    ensures var names := Trimmed(split, prefix, suffix).value;
      |names| == |split| && DistinctNames(names)
  {
    if |split| > 0 {
      var w := split[|split| - 1];
      TrimmedDistinct(split[..|split| - 1], prefix, suffix);
      if !Void(w) { UnderscoredSome(w[prefix..|w| - suffix]); }
    }
  }

  lemma NumberedDistinct(n: nat)
    ensures DistinctNames(Numbered(n))
  {
    var names := Numbered(n);
    forall i, j | 0 <= i < j < n ensures names[i] != names[j] {
      if names[i] == names[j] {
        assert names[i][7..] == Digits(i) && names[j][7..] == Digits(j);
        DigitsInjective(i, j);
      }
    }
  }

  /** The order in which trims are tried: most words off the front first, then off the back. */
  predicate Before(p: nat, s: nat, q: nat, t: nat) { p > q || (p == q && s > t) }

  /** The names of the first trim that works, or numbers when none does. */
  ghost predicate FirstTrim(split: seq<seq<string>>, prefix: nat, suffix: nat, out: seq<string>) {
    || (exists p: nat, s: nat :: p <= prefix && s <= suffix && Trimmed(split, p, s) == Some(out)
          && forall q: nat, t: nat :: q <= prefix && t <= suffix && Before(q, t, p, s) ==> Trimmed(split, q, t).None?)
    || (out == Numbered(|split|) && forall q: nat, t: nat :: q <= prefix && t <= suffix ==> Trimmed(split, q, t).None?)
  }

  /** Whatever words the variants share, they end up with distinct names that are not empty. */
  method NameVariants(split: seq<seq<string>>, prefix: nat, suffix: nat) returns (out: seq<string>)
    requires Words(split)
    ensures |out| == |split| && DistinctNames(out) && FirstTrim(split, prefix, suffix, out)
  {
    hide Trimmed, Words, DistinctNames;
    var p: int := prefix;
    while p >= 0
      invariant -1 <= p <= prefix
      invariant forall q: nat, t: nat :: p < q <= prefix && t <= suffix ==> Trimmed(split, q, t).None?
    {
      var s: int := suffix;
      while s >= 0
        invariant -1 <= s <= suffix
        invariant forall q: nat, t: nat :: q <= prefix && t <= suffix && (q > p || (q == p && t > s)) ==> Trimmed(split, q, t).None?
      {
        var r := Trim(split, p, s);
        if r.Some? {
          TrimmedDistinct(split, p, s);
          return r.value;
        }
        s := s - 1;
      }
      p := p - 1;
    }
    NumberedDistinct(|split|);
    out := Numbered(|split|);
  }

  // ---- names that start with a digit ----

  function FixDigit(name: string): string {
    if StartsWithDigit(name) then "v" + name else name
  }

  function FixDigits(names: seq<string>): seq<string> { seq(|names|, i requires 0 <= i < |names| => FixDigit(names[i])) }

  predicate StartsWithDigit(name: string) { |name| > 0 && '0' <= name[0] <= '9' }

  /** Distinct names stay distinct exactly when none is another with a `v` in front of its digit. */
  lemma FixDigitsDistinct(names: seq<string>)
    requires DistinctNames(names)
    ensures DistinctNames(FixDigits(names)) <==>
      !exists x, y :: x in names && y in names && StartsWithDigit(x) && y == "v" + x
  {
    var out := FixDigits(names);
    if x, y :| x in names && y in names && StartsWithDigit(x) && y == "v" + x {
      var i :| 0 <= i < |names| && names[i] == x;
      var j :| 0 <= j < |names| && names[j] == y;
      assert y[0] == 'v';
      assert i != j && out[i] == out[j];
    } else {
      forall i, j | 0 <= i < j < |names| ensures out[i] != out[j] {
        assert names[i] in names && names[j] in names;
        assert ("v" + names[i])[1..] == names[i] && ("v" + names[j])[1..] == names[j];
      }
    }
  }

  lemma TrimmedSnoc(split: seq<seq<string>>, words: seq<string>, prefix: nat, suffix: nat, out: seq<string>, name: string)
    requires Trimmed(split, prefix, suffix) == Some(out) && TrimOne(words, prefix, suffix) == Some(name) && name !in out
    ensures Trimmed(split + [words], prefix, suffix) == Some(out + [name])
  {
    assert (split + [words])[..|split|] == split;
  }

  /** Two variants that share their first word, and what the names found for them turn into. */
  lemma FixDigitsCanClash(out: seq<string>)
    requires FirstTrim([["foo", "1a"], ["foo", "v1a"]], 1, 0, out)
    ensures Words([["foo", "1a"], ["foo", "v1a"]])
    ensures out == ["1a", "v1a"] && DistinctNames(out) && FixDigits(out) == ["v1a", "v1a"]
  {
    var split := [["foo", "1a"], ["foo", "v1a"]];
    assert split[0][1..2] == ["1a"] && split[1][1..2] == ["v1a"];
    assert TrimOne(split[0], 1, 0) == Some("1a") && TrimOne(split[1], 1, 0) == Some("v1a");
    TrimmedSnoc([], split[0], 1, 0, [], "1a");
    assert [] + [split[0]] == [split[0]] && [] + ["1a"] == ["1a"];
    TrimmedSnoc([split[0]], split[1], 1, 0, ["1a"], "v1a");
    assert [split[0]] + [split[1]] == split && ["1a"] + ["v1a"] == ["1a", "v1a"];
    assert "v" + "1a" == "v1a";
  }
}
