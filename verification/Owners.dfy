/** Which file each type is emitted into, and why the bare names in a file refer to types of that file. */
module Owners {
  import opened Schemas
  import opened FindRecursive

  type Table = map<string, TypeDef>

  /** For each type met, the packets that use it. */
  type Users = map<string, set<string>>

  type Places = map<string, Place>

  datatype Packet = Packet(name: string, fields: seq<Node>)

  /** A type belongs to the one packet that uses it, or to a domain. */
  datatype Place = Owned(packet: string) | Shared(domain: string)

  /** The shapes refer to the type, or to a type a path of references leads from. */
  ghost predicate Uses(types: Table, refs: set<string>, t: string) {
    t in refs || exists r :: r in refs && Reaches(types, r, t)
  }

  ghost function UsersOf(types: Table, packets: seq<Packet>, t: string): set<string> {
    set p | p in packets && Uses(types, SeqRefs(p.fields), t) :: p.name
  }

  lemma UsesStep(types: Table, refs: set<string>, t: string, u: string)
    requires Uses(types, refs, t) && Edge(types, t, u)
    ensures Uses(types, refs, u)
  {
    if t in refs {
      EdgeReaches(types, t, u);
    } else {
      var r :| r in refs && Reaches(types, r, t);
      ReachesSnoc(types, r, t, u);
    }
  }

  lemma ReachesSnoc(types: Table, r: string, t: string, u: string)
    requires Reaches(types, r, t) && Edge(types, t, u)
    ensures Reaches(types, r, u)
  {
    var p :| IsPath(types, p) && |p| >= 2 && p[0] == r && p[|p| - 1] == t;
    var q := p + [u];
    forall i | 0 <= i < |q| - 1 ensures Edge(types, q[i], q[i + 1]) {
      if i < |p| - 1 { assert Edge(types, p[i], p[i + 1]); }
    }
    assert IsPath(types, q) && |q| >= 2 && q[0] == r && q[|q| - 1] == u;
  }

  function Recorded(users: Users, t: string): set<string> { if t in users then users[t] else {} }

  /** Types met since `before` are closed under references. */
  predicate Closed(types: Table, before: set<string>, seen: set<string>) {
    forall x :: x in seen && x !in before ==> x in types && TypeRefs(types[x]) <= seen
  }

  /** Types met since `before` are recorded as used by the packet, and no others. */
  ghost predicate Records(packet: string, before: set<string>, users0: Users, seen: set<string>, users: Users) {
    forall x {:trigger Recorded(users, x)} ::
      Recorded(users, x) == if x in seen && x !in before then Recorded(users0, x) + {packet} else Recorded(users0, x)
  }

  /** The walk over one packet's types. */
  class Walk {
    const types: Table
    const packet: string
    var users: Users
    var seen: set<string>

    constructor (types: Table, packet: string, users: Users)
      ensures this.types == types && this.packet == packet && this.users == users && seen == {}
    {
      this.types, this.packet, this.users := types, packet, users;
      seen := {};
    }

    method Visit(n: Node)
      requires Resolved(types) && NodeRefs(n) <= types.Keys
      modifies this`seen, this`users
      ensures old(seen) <= seen && NodeRefs(n) <= seen
      ensures Closed(types, old(seen), seen)
      ensures forall x :: x in seen && x !in old(seen) ==> Uses(types, NodeRefs(n), x)
      ensures Records(packet, old(seen), old(users), seen, users)
      decreases types.Keys - seen, Size(n)
    {
      hide Uses, Records, Closed;
      NothingMet(types, packet, seen, users);
      match n
      case LeafNode(_) =>
      case ListNode(_, e, _, _) => Visit(e);
      case FixedNode(_, e) => Visit(e);
      case OptionalNode(v) => Visit(v);
      case EntryNode(k, v) =>
        ghost var users0, seen0 := users, seen;
        Visit(k);
        ghost var users1, seen1 := users, seen;
        Visit(v);
        RecordsTrans(packet, seen0, users0, seen1, users1, seen, users);
        ClosedTrans(types, seen0, seen1, seen);
        forall x | x in seen && x !in seen0 ensures Uses(types, NodeRefs(n), x) {
          UsesMore(types, if x in seen1 then NodeRefs(k) else NodeRefs(v), NodeRefs(n), x);
        }
      case RefNode(r, _) => if r !in seen { VisitType(r); }
    }

    method VisitType(r: string)
      requires Resolved(types) && r in types && r !in seen
      modifies this`seen, this`users
      ensures old(seen) <= seen && r in seen
      ensures Closed(types, old(seen), seen)
      ensures forall x :: x in seen && x !in old(seen) ==> Uses(types, {r}, x)
      ensures Records(packet, old(seen), old(users), seen, users)
      decreases types.Keys - seen, 0
    {
      hide Uses, Records, Closed;
      ghost var seen0, users0 := seen, users;
      seen := seen + {r};
      users := users[r := Recorded(users, r) + {packet}];
      MetOne(types, packet, r, seen0, users0);
      NothingMet(types, packet, seen, users);
      var nodes := TypeNodes(types[r]);
      for i := 0 to |nodes|
        invariant seen0 + {r} <= seen && SeqRefs(nodes[..i]) <= seen
        invariant Closed(types, seen0 + {r}, seen)
        invariant forall x :: x in seen && x !in seen0 ==> Uses(types, {r}, x)
        invariant Records(packet, seen0, users0, seen, users)
      {
        SeqRefsHas(nodes, i);
        ghost var before, users1 := seen, users;
        Visit(nodes[i]);
        SeqRefsSnoc(nodes, i);
        RecordsTrans(packet, seen0, users0, before, users1, seen, users);
        ClosedTrans(types, seen0 + {r}, before, seen);
        forall x | x in seen && x !in before ensures Uses(types, {r}, x) {
          UsesThrough(types, r, NodeRefs(nodes[i]), x);
        }
      }
      assert nodes[..|nodes|] == nodes;
      ClosedType(types, r, seen0, seen);
    }
  }

  lemma NothingMet(types: Table, packet: string, seen: set<string>, users: Users)
    ensures Closed(types, seen, seen) && Records(packet, seen, users, seen, users)
  {
  }

  lemma MetOne(types: Table, packet: string, r: string, seen: set<string>, users: Users)
    requires r !in seen
    ensures Records(packet, seen, users, seen + {r}, users[r := Recorded(users, r) + {packet}]) && Uses(types, {r}, r)
  {
  }

  lemma ClosedType(types: Table, r: string, before: set<string>, seen: set<string>)
    requires Closed(types, before + {r}, seen) && r in types && TypeRefs(types[r]) <= seen
    ensures Closed(types, before, seen)
  {
  }

  lemma ClosedTrans(types: Table, a: set<string>, b: set<string>, c: set<string>)
    requires Closed(types, a, b) && Closed(types, b, c) && b <= c
    ensures Closed(types, a, c)
  {
  }

  lemma RecordsTrans(packet: string, a: set<string>, ua: Users, b: set<string>, ub: Users, c: set<string>, uc: Users)
    requires Records(packet, a, ua, b, ub) && Records(packet, b, ub, c, uc) && a <= b <= c
    ensures Records(packet, a, ua, c, uc)
  {
    forall x ensures Recorded(uc, x) == if x in c && x !in a then Recorded(ua, x) + {packet} else Recorded(ua, x) {
      assert Recorded(ub, x) == if x in b && x !in a then Recorded(ua, x) + {packet} else Recorded(ua, x);
    }
  }

  lemma UsesThrough(types: Table, r: string, refs: set<string>, x: string)
    requires r in types && refs <= TypeRefs(types[r]) && Uses(types, refs, x)
    ensures Uses(types, {r}, x)
  {
    if x in refs {
      EdgeReaches(types, r, x);
    } else {
      var u :| u in refs && Reaches(types, u, x);
      ReachesStep(types, r, u, x);
    }
    assert r in {r};
  }

  /** A closed set holding the first references holds exactly what they lead to. */
  lemma ClosedIsUses(types: Table, refs: set<string>, seen: set<string>)
    requires refs <= seen && Closed(types, {}, seen) && forall x :: x in seen ==> Uses(types, refs, x)
    ensures forall x :: x in seen <==> Uses(types, refs, x)
  {
    forall x | Uses(types, refs, x) ensures x in seen {
      if x !in refs {
        var r :| r in refs && Reaches(types, r, x);
        var p :| IsPath(types, p) && |p| >= 2 && p[0] == r && p[|p| - 1] == x;
        PathStays(types, seen, p, |p| - 1);
      }
    }
  }

  lemma UsesMore(types: Table, a: set<string>, b: set<string>, x: string)
    requires Uses(types, a, x) && a <= b
    ensures Uses(types, b, x)
  {
  }

  /** One packet's walk over all its fields. */
  method VisitFields(walk: Walk, fields: seq<Node>)
    requires walk.seen == {} && Resolved(walk.types) && SeqRefs(fields) <= walk.types.Keys
    modifies walk
    ensures forall t ::
      Recorded(walk.users, t) == Recorded(old(walk.users), t) + if Uses(walk.types, SeqRefs(fields), t) then {walk.packet} else {}
  {
    hide Uses;
    for i := 0 to |fields|
      invariant SeqRefs(fields[..i]) <= walk.seen && Closed(walk.types, {}, walk.seen)
      invariant forall x :: x in walk.seen ==> Uses(walk.types, SeqRefs(fields), x)
      invariant Records(walk.packet, {}, old(walk.users), walk.seen, walk.users)
    {
      SeqRefsHas(fields, i);
      SeqRefsSnoc(fields, i);
      ghost var before := walk.seen;
      walk.Visit(fields[i]);
      forall x | x in walk.seen && x !in before ensures Uses(walk.types, SeqRefs(fields), x) {
        UsesMore(walk.types, NodeRefs(fields[i]), SeqRefs(fields), x);
      }
    }
    assert fields[..|fields|] == fields;
    ClosedIsUses(walk.types, SeqRefs(fields), walk.seen);
  }

  /** The last domain reviewed for one of a type's wire names. */
  function LastDomain(domains: map<string, string>, wires: seq<string>): string {
    if |wires| == 0 then ""
    else
      var d := if wires[|wires| - 1] in domains then domains[wires[|wires| - 1]] else "";
      if d != "" then d else LastDomain(domains, wires[..|wires| - 1])
  }

  function DomainOf(domains: map<string, string>, wires: seq<string>): string {
    if LastDomain(domains, wires) == "" then "misc" else LastDomain(domains, wires)
  }

  predicate HasDomain(domains: map<string, string>, wire: string) { wire in domains && domains[wire] != "" }

  /** Wire name `i` is the last that has a domain. */
  predicate DecidesDomain(domains: map<string, string>, wires: seq<string>, i: nat) {
    i < |wires| && HasDomain(domains, wires[i]) && forall j :: i < j < |wires| ==> !HasDomain(domains, wires[j])
  }

  /** That domain is the type's, and `misc` stands in when no wire name has one. */
  lemma {:induction false} DomainIs(domains: map<string, string>, wires: seq<string>)
    ensures forall i: nat :: DecidesDomain(domains, wires, i) ==> DomainOf(domains, wires) == domains[wires[i]]
    ensures (forall i: nat :: !DecidesDomain(domains, wires, i)) ==> DomainOf(domains, wires) == "misc"
  {
    if |wires| > 0 {
      var init := wires[..|wires| - 1];
      if HasDomain(domains, wires[|wires| - 1]) {
        assert DecidesDomain(domains, wires, |wires| - 1);
      } else {
        DomainIs(domains, init);
        assert DomainOf(domains, wires) == DomainOf(domains, init);
        forall i: nat ensures DecidesDomain(domains, wires, i) <==> DecidesDomain(domains, init, i) {
          assert forall j :: 0 <= j < |init| ==> init[j] == wires[j];
        }
      }
    }
  }

  method FindDomain(domains: map<string, string>, wires: seq<string>) returns (domain: string)
    ensures domain == DomainOf(domains, wires)
  {
    domain := "";
    for i := 0 to |wires|
      invariant domain == LastDomain(domains, wires[..i])
    {
      assert wires[..i + 1][..i] == wires[..i];
      if wires[i] in domains && domains[wires[i]] != "" { domain := domains[wires[i]]; }
    }
    assert wires[..|wires|] == wires;
    if domain == "" { domain := "misc"; }
  }

  function Wires(wires: map<string, seq<string>>, t: string): seq<string> { if t in wires then wires[t] else [] }

  ghost predicate PlacedBy(users: set<string>, domain: string, place: Place) {
    && (forall p :: place == Owned(p) <==> users == {p})
    && (place.Shared? ==> place.domain == domain)
  }

  /** A type is owned by a packet exactly when that packet and no other uses it. */
  ghost predicate Placed(
    types: Table, packets: seq<Packet>, domains: map<string, string>, wires: map<string, seq<string>>, places: Places)
  {
    && places.Keys == types.Keys
    && forall t :: t in types ==> PlacedBy(UsersOf(types, packets, t), DomainOf(domains, Wires(wires, t)), places[t])
  }

  method AssignOwners(types: Table, packets: seq<Packet>, domains: map<string, string>, wires: map<string, seq<string>>)
    returns (places: Places)
    requires Resolved(types) && forall p :: p in packets ==> SeqRefs(p.fields) <= types.Keys
    ensures Placed(types, packets, domains, wires, places)
  {
    hide Uses, UsersOf, PlacedBy, DomainOf;
    var users: Users := map[];
    assert forall t :: UsersOf(types, packets[..0], t) == {} by { NoPackets(types, packets); }
    for i := 0 to |packets|
      invariant forall t :: Recorded(users, t) == UsersOf(types, packets[..i], t)
    {
      var walk := new Walk(types, packets[i].name, users);
      VisitFields(walk, packets[i].fields);
      users := walk.users;
      UsersSnoc(types, packets, i);
    }
    assert packets[..|packets|] == packets;
    places := PlaceTypes(types, users, domains, wires);
  }

  lemma NoPackets(types: Table, packets: seq<Packet>)
    ensures forall t :: UsersOf(types, packets[..0], t) == {}
  {
  }

  method PlaceTypes(types: Table, users: Users, domains: map<string, string>, wires: map<string, seq<string>>)
    returns (places: Places)
    ensures places.Keys == types.Keys
    ensures forall t :: t in types ==> PlacedBy(Recorded(users, t), DomainOf(domains, Wires(wires, t)), places[t])
  {
    places := map[];
    var rest := types.Keys;
    while rest != {}
      invariant rest <= types.Keys
      invariant places.Keys == types.Keys - rest
      invariant forall t :: t in places ==> PlacedBy(Recorded(users, t), DomainOf(domains, Wires(wires, t)), places[t])
    {
      var t :| t in rest;
      var u := Recorded(users, t);
      var place;
      if |u| == 1 {
        var p :| p in u;
        OnlyOne(u, p);
        place := Owned(p);
      } else {
        var d := FindDomain(domains, Wires(wires, t));
        place := Shared(d);
      }
      places := places[t := place];
      rest := rest - {t};
    }
  }

  lemma OnlyOne(u: set<string>, p: string)
    requires |u| == 1 && p in u
    ensures u == {p}
  {
    forall q | q in u ensures q == p {
      if q != p { SubsetSizeLe({p, q}, u); }
    }
  }

  lemma UsersSnoc(types: Table, packets: seq<Packet>, i: nat)
    requires i < |packets|
    ensures forall t ::
      UsersOf(types, packets[..i + 1], t)
      == UsersOf(types, packets[..i], t) + if Uses(types, SeqRefs(packets[i].fields), t) then {packets[i].name} else {}
  {
    hide Uses;
    forall t ensures UsersOf(types, packets[..i + 1], t) ==
      UsersOf(types, packets[..i], t) + if Uses(types, SeqRefs(packets[i].fields), t) then {packets[i].name} else {}
    {
      assert packets[..i + 1] == packets[..i] + [packets[i]];
    }
  }

  // ---- bare names ----

  /** The file of a packet, or of a domain of shared types. */
  datatype File = PacketFile(packet: string) | DomainFile(domain: string)

  function FileOf(place: Place): File {
    match place
    case Owned(p) => PacketFile(p)
    case Shared(d) => DomainFile(d)
  }

  /** Whether a reference is emitted as the type's bare name; otherwise it goes through the index of shared types. */
  predicate Bare(places: Places, file: File, t: string)
    requires t in places
  {
    places[t].Owned? || (file.DomainFile? && places[t] == Shared(file.domain))
  }

  /** What is declared in the same file is named bare, and so is what a packet owns, wherever it is. */
  lemma BareIs(places: Places, file: File, t: string)
    requires t in places
    ensures Bare(places, file, t) <==> FileOf(places[t]) == file || exists p :: places[t] == Owned(p)
  {
  }

  /** A bare name is declared in the same file, and any other name is in the index. */
  predicate NameResolves(places: Places, file: File, t: string) {
    t in places && (if Bare(places, file, t) then FileOf(places[t]) == file else places[t].Shared?)
  }

  predicate NamesResolve(places: Places, file: File, refs: set<string>) { forall t :: t in refs ==> NameResolves(places, file, t) }

  lemma UserOf(types: Table, packets: seq<Packet>, p: Packet, t: string)
    requires p in packets && Uses(types, SeqRefs(p.fields), t)
    ensures p.name in UsersOf(types, packets, t)
  {
  }

  /** References of packets resolve in the packet's file. */
  lemma PacketNamesResolve(
    types: Table, packets: seq<Packet>, domains: map<string, string>, wires: map<string, seq<string>>, places: Places, p: Packet)
    requires Placed(types, packets, domains, wires, places) && p in packets && SeqRefs(p.fields) <= types.Keys
    ensures NamesResolve(places, PacketFile(p.name), SeqRefs(p.fields))
  {
    hide UsersOf;
    forall t | t in SeqRefs(p.fields)
      ensures NameResolves(places, PacketFile(p.name), t)
    {
      UserOf(types, packets, p, t);
      assert places[t].Owned? ==> places[t] == Owned(places[t].packet);
    }
  }

  /**
   References of a type resolve in the file the type is placed in, provided some
   packet uses it or none of its references is owned. In particular no shared type
   that is used refers to an owned one.
   */
  lemma TypeNamesResolve(
    types: Table, packets: seq<Packet>, domains: map<string, string>, wires: map<string, seq<string>>, places: Places, t: string)
    requires Placed(types, packets, domains, wires, places) && Resolved(types) && t in types
    ensures NamesResolve(places, FileOf(places[t]), TypeRefs(types[t])) <==>
      UsersOf(types, packets, t) != {} || forall u :: u in TypeRefs(types[t]) ==> places[u].Shared?
    ensures places[t].Shared? && UsersOf(types, packets, t) != {} ==> forall u :: u in TypeRefs(types[t]) ==> places[u].Shared?
  {
    hide UsersOf, PlacedBy, NameResolves;
    var users := UsersOf(types, packets, t);
    forall u | u in TypeRefs(types[t])
      ensures NameResolves(places, FileOf(places[t]), u) <==> users != {} || places[u].Shared?
      ensures places[t].Shared? && users != {} ==> places[u].Shared?
    {
      assert Edge(types, t, u);
      UsersGrow(types, packets, t, u);
      OneName(users, UsersOf(types, packets, u), DomainOf(domains, Wires(wires, t)), DomainOf(domains, Wires(wires, u)), places, t, u);
    }
  }

  /** One reference, from a type to one that all its users use. */
  lemma OneName(users: set<string>, more: set<string>, domain: string, other: string, places: Places, t: string, u: string)
    requires t in places && u in places && users <= more
    requires PlacedBy(users, domain, places[t]) && PlacedBy(more, other, places[u])
    ensures NameResolves(places, FileOf(places[t]), u) <==> users != {} || places[u].Shared?
    ensures places[t].Shared? && users != {} ==> places[u].Shared?
  {
    if places[u].Owned? {
      assert places[u] == Owned(places[u].packet);
      assert more == {places[u].packet};
    }
    if places[t].Owned? {
      assert places[t] == Owned(places[t].packet);
      assert users == {places[t].packet};
    }
    if users != {} && places[u].Owned? { assert users == {places[u].packet}; }
  }

  lemma UsersGrow(types: Table, packets: seq<Packet>, t: string, u: string)
    requires Edge(types, t, u)
    ensures UsersOf(types, packets, t) <= UsersOf(types, packets, u)
  {
    forall name | name in UsersOf(types, packets, t) ensures name in UsersOf(types, packets, u) {
      var p :| p in packets && Uses(types, SeqRefs(p.fields), t) && p.name == name;
      UsesStep(types, SeqRefs(p.fields), t, u);
    }
  }

  // ---- a type that no packet uses ----

  /** A packet `P` uses `U`; nothing uses `T`, which refers to `U` too. */
  const UNUSED: Table := map["T" := Struct([Field("u", RefNode("U", []))], []), "U" := Struct([], [])]

  const ONE_PACKET: seq<Packet> := [Packet("P", [RefNode("U", [])])]

  /** However domains are reviewed, `U` is emitted into the file of `P` while `T`, elsewhere, names it bare. */
  lemma UnusedNamesCanFail(domains: map<string, string>, wires: map<string, seq<string>>, places: Places)
    requires Placed(UNUSED, ONE_PACKET, domains, wires, places)
    ensures Resolved(UNUSED) && places["U"] == Owned("P") && places["T"].Shared?
    ensures Bare(places, FileOf(places["T"]), "U") && !NamesResolve(places, FileOf(places["T"]), TypeRefs(UNUSED["T"]))
  {
    hide UsersOf;
    UnusedRefs();
    UnusedUsers();
    assert PlacedBy(UsersOf(UNUSED, ONE_PACKET, "U"), DomainOf(domains, Wires(wires, "U")), places["U"]);
    assert PlacedBy(UsersOf(UNUSED, ONE_PACKET, "T"), DomainOf(domains, Wires(wires, "T")), places["T"]);
    Unowned(DomainOf(domains, Wires(wires, "T")), places["T"]);
  }

  lemma Unowned(domain: string, place: Place)
    requires PlacedBy({}, domain, place)
    ensures place.Shared?
  {
    forall p: string ensures place != Owned(p) { assert p in {p}; }
  }

  lemma UnusedRefs()
    ensures TypeRefs(UNUSED["T"]) == {"U"} && TypeRefs(UNUSED["U"]) == {} && SeqRefs(ONE_PACKET[0].fields) == {"U"}
  {
    var n := RefNode("U", []);
    assert FieldNodes(UNUSED["T"].fields) == [n] && ONE_PACKET[0].fields == [n];
    assert [n][1..] == [] && SeqRefs([n]) == NodeRefs(n) + SeqRefs([]);
  }

  lemma UnusedUsers()
    ensures UsersOf(UNUSED, ONE_PACKET, "U") == {"P"} && UsersOf(UNUSED, ONE_PACKET, "T") == {}
  {
    UnusedRefs();
    assert ONE_PACKET[0] in ONE_PACKET && Uses(UNUSED, {"U"}, "U");
    forall p: seq<string> | IsPath(UNUSED, p) && |p| >= 2 ensures p[0] != "U" { assert Edge(UNUSED, p[0], p[0 + 1]); }
    assert !Uses(UNUSED, {"U"}, "T");
  }
}
