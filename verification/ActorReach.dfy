/** Which packets can hold actor IDs: a search over types that stops at types already on the path. */
module ActorReach {
  import opened Schemas

  datatype ActorRef = Runtime | Unique

  /** For each type that declares actor references, the fields or variants that hold them. */
  type Tags = map<string, map<string, ActorRef>>

  type Table = map<string, TypeDef>

  predicate Declares(types: Table, tags: Tags, r: string) {
    r in types && !types[r].Enum? && r in tags
  }

  predicate Reach(types: Table, tags: Tags, n: Node, seen: set<string>)
    decreases types.Keys - seen, Size(n), 0
  {
    match n
    case LeafNode(_) => false
    case ListNode(_, e, _, _) => Reach(types, tags, e, seen)
    case EntryNode(k, v) => Reach(types, tags, k, seen) || Reach(types, tags, v, seen)
    case FixedNode(_, e) => Reach(types, tags, e, seen)
    case OptionalNode(v) => Reach(types, tags, v, seen)
    case RefNode(r, _) =>
      && r !in seen && r in types && !types[r].Enum?
      && (r in tags || ReachAny(types, tags, TypeNodes(types[r]), seen + {r}))
  }

  predicate ReachAny(types: Table, tags: Tags, ns: seq<Node>, seen: set<string>)
    decreases types.Keys - seen, SeqSize(ns), |ns|
  {
    |ns| > 0 && (Reach(types, tags, ns[0], seen) || ReachAny(types, tags, ns[1..], seen))
  }

  /** A path of references to a declaring type that avoids `seen`. */
  ghost predicate Route(types: Table, tags: Tags, p: seq<string>, seen: set<string>) {
    && IsPath(types, p) && Declares(types, tags, p[|p| - 1])
    && forall i :: 0 <= i < |p| ==> p[i] !in seen
  }

  ghost predicate RouteFrom(types: Table, tags: Tags, from: set<string>, seen: set<string>) {
    exists p :: Route(types, tags, p, seen) && p[0] in from
  }

  lemma RouteSplit(types: Table, tags: Tags, a: set<string>, b: set<string>, seen: set<string>)
    ensures RouteFrom(types, tags, a + b, seen) <==> RouteFrom(types, tags, a, seen) || RouteFrom(types, tags, b, seen)
  {
    if RouteFrom(types, tags, a + b, seen) {
      var p :| Route(types, tags, p, seen) && p[0] in a + b;
    }
    if RouteFrom(types, tags, a, seen) {
      var p :| Route(types, tags, p, seen) && p[0] in a;
      assert p[0] in a + b;
    }
    if RouteFrom(types, tags, b, seen) {
      var p :| Route(types, tags, p, seen) && p[0] in b;
      assert p[0] in a + b;
    }
  }

  /** A route out of `r` can skip back to its last visit of `r`, so what follows need not visit `r` again. */
  lemma {:induction false} SkipCycle(types: Table, tags: Tags, r: string, p: seq<string>, seen: set<string>)
    requires r in types && Route(types, tags, p, seen) && p[0] == r && !Declares(types, tags, r)
    ensures RouteFrom(types, tags, TypeRefs(types[r]), seen + {r})
    decreases |p|
  {
    hide Declares, TypeRefs;
    assert |p| > 1;
    assert Edge(types, p[0], p[0 + 1]);
    var q := p[1..];
    RouteTail(types, tags, p, 1, seen);
    if r in q {
      var j :| 0 <= j < |q| && q[j] == r;
      RouteTail(types, tags, q, j, seen);
      SkipCycle(types, tags, r, q[j..], seen);
    } else {
      assert Route(types, tags, q, seen + {r});
    }
  }

  lemma RouteTail(types: Table, tags: Tags, p: seq<string>, j: nat, seen: set<string>)
    requires Route(types, tags, p, seen) && j < |p|
    ensures Route(types, tags, p[j..], seen)
  {
    hide Edge, Declares;
    var t := p[j..];
    forall i | 0 <= i < |t| - 1 ensures Edge(types, t[i], t[i + 1]) { assert Edge(types, p[j + i], p[j + i + 1]); }
    assert t[|t| - 1] == p[|p| - 1];
    forall i | 0 <= i < |t| ensures t[i] !in seen { assert t[i] == p[j + i]; }
  }

  /** The search from a type that is not on the path. */
  lemma RouteThrough(types: Table, tags: Tags, r: string, seen: set<string>)
    requires r !in seen && r in types
    ensures RouteFrom(types, tags, {r}, seen) <==>
      Declares(types, tags, r) || RouteFrom(types, tags, TypeRefs(types[r]), seen + {r})
  {
    if Declares(types, tags, r) {
      assert Route(types, tags, [r], seen) && [r][0] in {r};
    } else if RouteFrom(types, tags, {r}, seen) {
      var p :| Route(types, tags, p, seen) && p[0] in {r};
      SkipCycle(types, tags, r, p, seen);
    }
    if RouteFrom(types, tags, TypeRefs(types[r]), seen + {r}) { RouteExtend(types, tags, r, seen); }
  }

  lemma RouteExtend(types: Table, tags: Tags, r: string, seen: set<string>)
    requires r !in seen && r in types && RouteFrom(types, tags, TypeRefs(types[r]), seen + {r})
    ensures RouteFrom(types, tags, {r}, seen)
  {
    var q :| Route(types, tags, q, seen + {r}) && q[0] in TypeRefs(types[r]);
    var p := [r] + q;
    assert IsPath(types, p) by {
      forall i | 0 <= i < |p| - 1 ensures Edge(types, p[i], p[i + 1]) {
        if i > 0 { assert Edge(types, q[i - 1], q[i - 1 + 1]); }
      }
    }
    assert Route(types, tags, p, seen) && p[0] in {r};
  }

  /** Stopping at types already on the path misses nothing and invents nothing. */
  lemma {:induction false} ReachIsRoute(types: Table, tags: Tags, n: Node, seen: set<string>)
    ensures Reach(types, tags, n, seen) <==> RouteFrom(types, tags, NodeRefs(n), seen)
    decreases types.Keys - seen, Size(n), 0
  {
    hide Route, IsPath;
    match n
    case LeafNode(_) =>
    case ListNode(_, e, _, _) => ReachIsRoute(types, tags, e, seen);
    case EntryNode(k, v) =>
      ReachIsRoute(types, tags, k, seen);
      ReachIsRoute(types, tags, v, seen);
      RouteSplit(types, tags, NodeRefs(k), NodeRefs(v), seen);
    case FixedNode(_, e) => ReachIsRoute(types, tags, e, seen);
    case OptionalNode(v) => ReachIsRoute(types, tags, v, seen);
    case RefNode(r, _) =>
      if r in seen || r !in types {
        NoRoute(types, tags, r, seen);
      } else {
        RouteThrough(types, tags, r, seen);
        ReachAnyIsRoute(types, tags, TypeNodes(types[r]), seen + {r});
        if types[r].Enum? { assert TypeRefs(types[r]) == {}; }
      }
  }

  lemma NoRoute(types: Table, tags: Tags, r: string, seen: set<string>)
    requires r in seen || r !in types
    ensures !RouteFrom(types, tags, {r}, seen)
  {
    forall p | Route(types, tags, p, seen) ensures p[0] != r {
      if |p| > 1 { assert Edge(types, p[0], p[0 + 1]); }
    }
  }

  lemma {:induction false} ReachAnyIsRoute(types: Table, tags: Tags, ns: seq<Node>, seen: set<string>)
    ensures ReachAny(types, tags, ns, seen) <==> RouteFrom(types, tags, SeqRefs(ns), seen)
    decreases types.Keys - seen, SeqSize(ns), |ns|
  {
    hide Route;
    if |ns| > 0 {
      ReachIsRoute(types, tags, ns[0], seen);
      ReachAnyIsRoute(types, tags, ns[1..], seen);
      RouteSplit(types, tags, NodeRefs(ns[0]), SeqRefs(ns[1..]), seen);
    }
  }

  /** Some type named by the shape declares actor references, or a path of references leads from it to one that does. */
  ghost predicate LeadsToTag(types: Table, tags: Tags, n: Node) {
    exists r :: r in NodeRefs(n) && (Declares(types, tags, r) || exists t :: Reaches(types, r, t) && Declares(types, tags, t))
  }

  /** The search answers exactly whether a path leads to a declaring type, recursive types included. */
  lemma ReachExact(types: Table, tags: Tags, n: Node)
    ensures Reach(types, tags, n, {}) <==> LeadsToTag(types, tags, n)
  {
    ReachIsRoute(types, tags, n, {});
    if RouteFrom(types, tags, NodeRefs(n), {}) {
      var p :| Route(types, tags, p, {}) && p[0] in NodeRefs(n);
      if |p| >= 2 { assert Reaches(types, p[0], p[|p| - 1]); }
    }
    if LeadsToTag(types, tags, n) {
      var r :| r in NodeRefs(n) && (Declares(types, tags, r) || exists t :: Reaches(types, r, t) && Declares(types, tags, t));
      if Declares(types, tags, r) {
        assert Route(types, tags, [r], {});
      } else {
        var t :| Reaches(types, r, t) && Declares(types, tags, t);
        var p :| IsPath(types, p) && |p| >= 2 && p[0] == r && p[|p| - 1] == t;
        assert Route(types, tags, p, {});
      }
    }
  }

  /** What a type without references below it refers to has none below it either. */
  lemma NoTagBelow(types: Table, tags: Tags, r: string, allowed: seq<int>, m: Node)
    requires !LeadsToTag(types, tags, RefNode(r, allowed)) && r in types && NodeRefs(m) <= TypeRefs(types[r])
    ensures !Declares(types, tags, r) && !LeadsToTag(types, tags, m)
  {
    assert r in NodeRefs(RefNode(r, allowed));
    if LeadsToTag(types, tags, m) {
      var u :| u in NodeRefs(m) && (Declares(types, tags, u) || exists t :: Reaches(types, u, t) && Declares(types, tags, t));
      EdgeReaches(types, r, u);
      if !Declares(types, tags, u) {
        var t :| Reaches(types, u, t) && Declares(types, tags, t);
        ReachesStep(types, r, u, t);
      }
    }
  }
}
