/** Which types can contain themselves: the emitter's depth-first search. */
module FindRecursive {
  import opened Schemas

  /** Every reference names a type, as validate demands. */
  predicate Resolved(types: map<string, TypeDef>) {
    forall r :: r in types ==> TypeRefs(types[r]) <= types.Keys
  }

  /** One search from a type for itself; `seen` is shared by the whole search. */
  class Search {
    const types: map<string, TypeDef>
    const target: string
    var seen: set<string>

    constructor (types: map<string, TypeDef>, target: string)
      ensures this.types == types && this.target == target && seen == {}
    {
      this.types := types;
      this.target := target;
      seen := {};
    }

    /** The types visited since `before` are finished: all they refer to has been visited, and none refers to the target. */
    predicate Finished(before: set<string>)
      reads this
    {
      forall x :: x in seen && x !in before ==>
        x in types && TypeRefs(types[x]) <= seen && target !in TypeRefs(types[x])
    }

    method NodeReaches(n: Node) returns (found: bool)
      requires Resolved(types) && NodeRefs(n) <= types.Keys
      modifies this`seen
      ensures old(seen) <= seen
      ensures found ==> exists r :: r in NodeRefs(n) && (r == target || Reaches(types, r, target))
      ensures !found ==> NodeRefs(n) <= seen && target !in NodeRefs(n) && Finished(old(seen))
      decreases types.Keys - seen, Size(n)
    {
      match n
      case LeafNode(_) => return false;
      case ListNode(_, e, _, _) => found := NodeReaches(e);
      case FixedNode(_, e) => found := NodeReaches(e);
      case OptionalNode(x) => found := NodeReaches(x);
      case EntryNode(k, x) =>
        found := NodeReaches(k);
        if !found { found := NodeReaches(x); }
      case RefNode(r, _) =>
        if r == target { return true; }
        found := TypeReaches(r);
        assert r in NodeRefs(n);
    }

    method TypeReaches(from: string) returns (found: bool)
      requires Resolved(types) && from in types
      modifies this`seen
      ensures old(seen) <= seen
      ensures found ==> Reaches(types, from, target)
      ensures !found ==> from in seen && Finished(old(seen))
      decreases types.Keys - seen, 0
    {
      if from in seen { return false; }
      seen := seen + {from};
      var nodes := TypeNodes(types[from]);
      for i := 0 to |nodes|
        invariant old(seen) + {from} <= seen
        invariant SeqRefs(nodes[..i]) <= seen && target !in SeqRefs(nodes[..i])
        invariant Finished(old(seen) + {from})
      {
        ghost var before := seen;
        SeqRefsHas(nodes, i);
        found := NodeReaches(nodes[i]);
        if found {
          FoundFrom(types, from, nodes[i], target);
          return true;
        }
        SeqRefsSnoc(nodes, i);
        assert Finished(old(seen) + {from}) by {
          forall x | x in seen && x !in old(seen) + {from}
            ensures x in types && TypeRefs(types[x]) <= seen && target !in TypeRefs(types[x])
          {
            if x in before {}
          }
        }
      }
      assert nodes[..|nodes|] == nodes;
      return false;
    }
  }

  lemma {:induction false} SeqRefsSnoc(nodes: seq<Node>, i: nat)
    requires i < |nodes|
    ensures SeqRefs(nodes[..i + 1]) == SeqRefs(nodes[..i]) + NodeRefs(nodes[i])
    decreases i
  {
    if i > 0 {
      SeqRefsSnoc(nodes[1..], i - 1);
      assert nodes[..i + 1][1..] == nodes[1..][..i];
      assert nodes[..i][1..] == nodes[1..][..i - 1];
    } else {
      assert nodes[..1][1..] == [];
    }
  }

  lemma FoundFrom(types: map<string, TypeDef>, from: string, n: Node, target: string)
    requires from in types && NodeRefs(n) <= TypeRefs(types[from])
    requires exists r :: r in NodeRefs(n) && (r == target || Reaches(types, r, target))
    ensures Reaches(types, from, target)
  {
    var r :| r in NodeRefs(n) && (r == target || Reaches(types, r, target));
    if r == target { EdgeReaches(types, from, r); } else { ReachesStep(types, from, r, target); }
  }

  /** A set closed under references, none of which is to the target, shuts the target out. */
  lemma {:induction false} ShutOut(types: map<string, TypeDef>, seen: set<string>, from: string, target: string)
    requires from in seen
    requires forall x :: x in seen ==> x in types && TypeRefs(types[x]) <= seen && target !in TypeRefs(types[x])
    ensures !Reaches(types, from, target)
  {
    forall p | IsPath(types, p) && |p| >= 2 && p[0] == from ensures p[|p| - 1] != target {
      var i := |p| - 2;
      PathStays(types, seen, p, i);
      assert Edge(types, p[i], p[i + 1]);
    }
  }

  lemma {:induction false} PathStays(types: map<string, TypeDef>, seen: set<string>, p: seq<string>, i: nat)
    requires IsPath(types, p) && i < |p| && p[0] in seen
    requires forall x :: x in seen ==> x in types && TypeRefs(types[x]) <= seen
    ensures p[i] in seen
  {
    if i > 0 {
      PathStays(types, seen, p, i - 1);
      var j := i - 1;
      assert Edge(types, p[j], p[j + 1]);
    }
  }

  /** Marks exactly the types that can reach themselves, whatever order they are visited in. */
  method FindRecursive(types: map<string, TypeDef>) returns (recursive: set<string>)
    requires Resolved(types)
    ensures forall r :: r in recursive <==> r in types && Reaches(types, r, r)
    ensures Marked(Schema(types, recursive))
  {
    recursive := {};
    var names := types.Keys;
    while names != {}
      invariant names <= types.Keys
      invariant forall r :: r in recursive <==> r in types.Keys - names && Reaches(types, r, r)
      decreases names
    {
      var name :| name in names;
      var search := new Search(types, name);
      var found := search.TypeReaches(name);
      if found {
        recursive := recursive + {name};
      } else {
        ShutOut(types, search.seen, name, name);
      }
      names := names - {name};
    }
  }
}
