/**
 The rename forest of folded types. `log` lists the folds in the order they
 happened, each a folded name and the live name it became.
 */
module Renames {
  type Log = seq<(string, string)>

  /** What a name has become after every fold of the log. */
  function Apply(log: Log, x: string): string {
    if |log| == 0 then x
    else
      var last := log[|log| - 1];
      var y := Apply(log[..|log| - 1], x);
      if y == last.0 then last.1 else y
  }

  ghost predicate Folded(log: Log, x: string) {
    exists i :: 0 <= i < |log| && log[i].0 == x
  }

  /** A name is folded at most once, and never into a name that is gone already or into itself. */
  ghost predicate Forest(log: Log) {
    && (forall i, j :: 0 <= i < j < |log| ==> log[i].0 != log[j].0)
    && forall i, j :: 0 <= i <= j < |log| ==> log[i].0 != log[j].1
  }

  /** The map holds exactly the log's entries. */
  ghost predicate Holds(renames: map<string, string>, log: Log) {
    && (forall i :: 0 <= i < |log| ==> log[i].0 in renames && renames[log[i].0] == log[i].1)
    && forall x :: x in renames ==> Folded(log, x)
  }

  lemma {:induction false} Untouched(log: Log, x: string)
    requires !Folded(log, x)
    ensures Apply(log, x) == x
  {
    if |log| > 0 {
      var init := log[..|log| - 1];
      forall i | 0 <= i < |init| ensures init[i].0 != x { assert log[i].0 != x; }
      Untouched(init, x);
      assert log[|log| - 1].0 != x;
    }
  }

  /** A resolved name is live, and is the name itself or the target of some fold. */
  lemma {:induction false} ApplyLive(log: Log, x: string)
    requires Forest(log)
    ensures !Folded(log, Apply(log, x))
    ensures Apply(log, x) == x || exists i :: 0 <= i < |log| && log[i].1 == Apply(log, x)
  {
    if |log| > 0 {
      var init, last := log[..|log| - 1], log[|log| - 1];
      ApplyLive(init, x);
      var y := Apply(init, x);
      assert forall i :: 0 <= i < |init| ==> init[i] == log[i];
      if y == last.0 {
        assert forall i :: 0 <= i < |log| ==> log[i].0 != last.1;
        assert log[|log| - 1].1 == last.1;
      } else {
        assert forall i :: 0 <= i < |log| - 1 ==> log[i].0 == init[i].0;
      }
    }
  }

  lemma ApplyTwice(log: Log, x: string)
    requires Forest(log)
    ensures Apply(log, Apply(log, x)) == Apply(log, x)
  {
    ApplyLive(log, x);
    Untouched(log, Apply(log, x));
  }

  /** Following one entry of the map does not change what a name resolves to. */
  lemma {:induction false} FollowSame(log: Log, i: nat)
    requires Forest(log) && i < |log|
    ensures Apply(log, log[i].0) == Apply(log, log[i].1)
  {
    var init, last := log[..|log| - 1], log[|log| - 1];
    if i < |init| {
      FollowSame(init, i);
    } else {
      Untouched(init, last.0);
      Untouched(log, last.1);
    }
  }

  lemma Extend(log: Log, b: string, a: string)
    requires Forest(log) && !Folded(log, b) && !Folded(log, a) && a != b
    ensures Forest(log + [(b, a)])
    ensures forall x {:trigger Apply(log, x)} :: Apply(log + [(b, a)], x) == if Apply(log, x) == b then a else Apply(log, x)
  {
    var next := log + [(b, a)];
    assert next[..|next| - 1] == log;
    assert forall i :: 0 <= i < |log| ==> log[i].0 != b && log[i].0 != a;
  }

  /** Following the map never comes back to a name: the folds form no cycle. */
  lemma {:induction false} NoCycle(renames: map<string, string>, log: Log, p: seq<string>)
    requires Forest(log) && Holds(renames, log)
    requires |p| >= 2 && forall i :: 0 <= i < |p| - 1 ==> p[i] in renames && renames[p[i]] == p[i + 1]
    ensures p[0] != p[|p| - 1]
    ensures exists i :: 0 <= i < |log| && log[i].0 == p[0] && forall j :: 0 <= j <= i ==> log[j].0 != p[|p| - 1]
  {
    assert Folded(log, p[0]);
    var i :| 0 <= i < |log| && log[i].0 == p[0];
    assert p[1] == log[i].1;
    if |p| > 2 {
      var q := p[1..];
      assert forall k :: 0 <= k < |q| - 1 ==> q[k] in renames && renames[q[k]] == q[k + 1] by {
        forall k | 0 <= k < |q| - 1 ensures q[k] in renames && renames[q[k]] == q[k + 1] { assert q[k] == p[k + 1]; }
      }
      NoCycle(renames, log, q);
      var m :| 0 <= m < |log| && log[m].0 == q[0] && forall j :: 0 <= j <= m ==> log[j].0 != q[|q| - 1];
      assert log[m].0 == log[i].1;
      assert m > i;
    }
    assert log[i].0 == p[0] && forall j :: 0 <= j <= i ==> log[j].0 != p[|p| - 1];
  }
}
