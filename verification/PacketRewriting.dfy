/** Decoding a packet, rewriting its actor IDs and encoding it again. */
module PacketRewriting {
  import opened Wire
  import opened Values
  import opened Schemas
  import opened Meaning
  import opened Parser
  import opened Codec
  import opened Lazy
  import opened ActorReach
  import opened ActorRefs
  import opened ActorEffects
  import opened Rewriting
  import opened Readers
  import opened Writers
  import opened Profile
  import Leb128

  // ---- sequences of fields ----

  /** The spots of a packet's own fields, which may be tagged like those of a type. */
  lemma SpotNodes(tags: Tags, owner: string, fields: seq<Field>)
    ensures var ps, ns := FieldSpots(tags, owner, fields), FieldNodes(fields);
      |ps| == |ns| && forall i :: 0 <= i < |ns| ==> ps[i].node == ns[i]
  {
  }

  /** What the mapping makes of the logical values of a packet's fields. */
  function MappedFields(s: MarkedSchema, tags: Tags, m: IdMap, owner: string, fields: seq<Field>, vs: seq<Value>): seq<Value>
    requires ValidSeq(s, FieldNodes(fields), vs) && GenuineSeq(s, FieldNodes(fields), vs)
  {
    SameLength(s, FieldNodes(fields), vs);
    var ps, us := FieldSpots(tags, owner, fields), LogicalSeq(s, FieldNodes(fields), vs);
    seq(|us|, i requires 0 <= i < |us| => Mapped(s, tags, m, ps[i], us[i]))
  }

  /** Whole values whose elements are valid are valid and genuine, and stand for those elements. */
  lemma WholeFields(s: MarkedSchema, tags: Tags, ps: seq<Spot>, ns: seq<Node>, ws: seq<Value>)
    requires |ps| == |ns| && (forall i :: 0 <= i < |ns| ==> ps[i].node == ns[i]) && WholeAll(s, tags, ps, ws)
    requires ValidSeq(s, ns, UnfoldAll(s, tags, ps, ws))
    ensures ValidSeq(s, ns, ws) && GenuineSeq(s, ns, ws) && LogicalSeq(s, ns, ws) == UnfoldAll(s, tags, ps, ws)
  {
    hide Whole, Unfold, Valid, Genuine, ValidSeq, GenuineSeq, LogicalSeq;
    forall i | 0 <= i < |ws| ensures Valid(s, ns[i], ws[i]) && Genuine(s, ns[i], ws[i]) {
      ValidAt(s, ns, UnfoldAll(s, tags, ps, ws), i);
      WholeValid(s, tags, ps[i], ws[i]);
    }
    ValidParts(s, ns, ws);
    AllUnfold(s, tags, ps, ns, ws);
  }

  /** And if the values can be encoded, so can their elements. */
  lemma FieldsValid(s: MarkedSchema, tags: Tags, ps: seq<Spot>, ns: seq<Node>, ws: seq<Value>)
    requires |ps| == |ns| && (forall i :: 0 <= i < |ns| ==> ps[i].node == ns[i]) && WholeAll(s, tags, ps, ws) && ValidSeq(s, ns, ws)
    ensures ValidSeq(s, ns, UnfoldAll(s, tags, ps, ws))
  {
    hide Whole, Unfold, Valid, Genuine, ValidSeq, GenuineSeq, LogicalSeq, BytesSeq;
    forall i | 0 <= i < |ws| ensures Valid(s, ns[i], ws[i]) && Genuine(s, ns[i], ws[i]) {
      ValidAt(s, ns, ws, i);
      WholeGenuine(s, tags, ps[i], ws[i]);
    }
    ValidParts(s, ns, ws);
    AllUnfold(s, tags, ps, ns, ws);
    LogicalSameSeq(s, ns, ws);
  }

  /** Mapping IDs changes no levels, field by field. */
  lemma FieldsNest(s: MarkedSchema, tags: Tags, m: IdMap, ps: seq<Spot>, ns: seq<Node>, us: seq<Value>, ws: seq<Value>)
    requires |ps| == |ns| == |us| == |ws| && forall i :: 0 <= i < |ns| ==> ps[i].node == ns[i] && ws[i] == Mapped(s, tags, m, ps[i], us[i])
    requires ValidSeq(s, ns, us) && ValidSeq(s, ns, ws)
    ensures NestSeq(s, ns, ws) == NestSeq(s, ns, us)
  {
    hide Mapped, Valid, Nest, ValidSeq, NestSeq;
    forall i | 0 <= i < |ns| ensures Valid(s, ns[i], us[i]) && Valid(s, ns[i], ws[i]) && Nest(s, ns[i], ws[i]) == Nest(s, ns[i], us[i]) {
      ValidAt(s, ns, us, i);
      ValidAt(s, ns, ws, i);
      NestMapped(s, tags, m, ps[i], us[i]);
    }
    SameNests(s, ns, us, ws);
  }

  predicate FreeSpots(ps: seq<Spot>) { forall p :: p in ps ==> FreeSpot(p) }

  /** With references free of bounds and checks, whatever the mapping returns can be encoded. */
  lemma FreeFieldsValid(s: MarkedSchema, tags: Tags, m: IdMap, ps: seq<Spot>, ns: seq<Node>, us: seq<Value>, ws: seq<Value>)
    requires |ps| == |ns| == |us| == |ws| && forall i :: 0 <= i < |ns| ==> ps[i].node == ns[i] && ws[i] == Mapped(s, tags, m, ps[i], us[i])
    requires ValidSeq(s, ns, us) && FreeRefs(s, tags) && FreeSpots(ps)
    ensures ValidSeq(s, ns, ws)
  {
    hide Mapped, Valid, ValidSeq, FreeSpot, FreeRefs;
    forall i | 0 <= i < |ns| ensures Valid(s, ns[i], ws[i]) {
      ValidAt(s, ns, us, i);
      MappedValid(s, tags, m, ps[i], us[i]);
    }
    AllValid(s, ns, ws);
  }

  // ---- rewriting a packet ----

  /** Walks the fields of a packet, unless no reference can be below them. */
  method RewriteFields(s: MarkedSchema, tags: Tags, m: IdMap, owner: string, fields: seq<Field>, vs: seq<Value>)
    returns (ws: seq<Value>, changed: bool)
    requires WholeAll(s, tags, FieldSpots(tags, owner, fields), vs)
    ensures VisitedAll(s, tags, m, FieldSpots(tags, owner, fields), vs, ws, changed)
    ensures var ps := FieldSpots(tags, owner, fields);
      FieldsRewritten(s, tags, m, owner, fields, UnfoldAll(s, tags, ps, vs), UnfoldAll(s, tags, ps, ws))
    ensures var ps := FieldSpots(tags, owner, fields);
      changed <==> SomeFieldChanged(s, tags, owner, fields, UnfoldAll(s, tags, ps, vs), UnfoldAll(s, tags, ps, ws))
  {
    hide Whole, Unfold, Mapped, FieldsRewritten, SomeFieldChanged, VisitedAll;
    var ps := FieldSpots(tags, owner, fields);
    if owner !in tags && !ReachAny(s.types, tags, FieldNodes(fields), {}) {
      NothingTagged(s, tags, m, owner, fields, vs);
      FieldsEffect(s, tags, m, owner, fields, vs, vs, false);
      return vs, false;
    }
    ws, changed := VisitAll(s, tags, m, ps, vs);
    FieldsEffect(s, tags, m, owner, fields, vs, ws, changed);
  }

  /** Each field of the packet has the effect of the mapping, under what the packet declares of that field. */
  ghost predicate FieldsRewritten(
    s: Schema, tags: Tags, m: IdMap, owner: string, fields: seq<Field>, us: seq<Value>, ws: seq<Value>)
  {
    && |us| == |ws| == |fields|
    && forall i :: 0 <= i < |fields| ==>
      Rewritten(s, tags, m, Spot(Declared(tags, owner, fields[i].name), fields[i].node), us[i], ws[i])
  }

  ghost predicate SomeFieldChanged(s: Schema, tags: Tags, owner: string, fields: seq<Field>, us: seq<Value>, ws: seq<Value>) {
    exists i :: 0 <= i < |fields| == |us| == |ws|
      && SomeChanged(s, tags, Spot(Declared(tags, owner, fields[i].name), fields[i].node), us[i], ws[i])
  }

  lemma FieldsEffect(
    s: MarkedSchema, tags: Tags, m: IdMap, owner: string, fields: seq<Field>, vs: seq<Value>, ws: seq<Value>, changed: bool)
    requires WholeAll(s, tags, FieldSpots(tags, owner, fields), vs)
    requires VisitedAll(s, tags, m, FieldSpots(tags, owner, fields), vs, ws, changed)
    ensures var ps := FieldSpots(tags, owner, fields);
      && FieldsRewritten(s, tags, m, owner, fields, UnfoldAll(s, tags, ps, vs), UnfoldAll(s, tags, ps, ws))
      && (changed <==> SomeFieldChanged(s, tags, owner, fields, UnfoldAll(s, tags, ps, vs), UnfoldAll(s, tags, ps, ws)))
  {
    hide Whole, Unfold, Mapped, Rewritten, SomeChanged, Settled;
    var ps := FieldSpots(tags, owner, fields);
    var us, ts := UnfoldAll(s, tags, ps, vs), UnfoldAll(s, tags, ps, ws);
    forall i | 0 <= i < |fields|
      ensures ps[i] == Spot(Declared(tags, owner, fields[i].name), fields[i].node)
      ensures Rewritten(s, tags, m, ps[i], us[i], ts[i])
      ensures ts[i] != us[i] <==> SomeChanged(s, tags, ps[i], us[i], ts[i])
    {
      UnfoldSettled(s, tags, ps[i], vs[i]);
      assert ts[i] == MappedAll(s, tags, m, ps, us)[i];
      MappedIs(s, tags, m, ps[i], us[i], ts[i]);
      ChangedIs(s, tags, m, ps[i], us[i], ts[i]);
    }
    if us != ts { assert exists i :: 0 <= i < |fields| && ts[i] != us[i]; }
  }

  lemma NothingTagged(s: MarkedSchema, tags: Tags, m: IdMap, owner: string, fields: seq<Field>, vs: seq<Value>)
    requires WholeAll(s, tags, FieldSpots(tags, owner, fields), vs)
    requires owner !in tags && !ReachAny(s.types, tags, FieldNodes(fields), {})
    ensures VisitedAll(s, tags, m, FieldSpots(tags, owner, fields), vs, vs, false)
  {
    hide Whole, Unfold, Mapped, LeadsToTag;
    var ps, ns := FieldSpots(tags, owner, fields), FieldNodes(fields);
    var us := UnfoldAll(s, tags, ps, vs);
    forall i | 0 <= i < |vs| ensures Mapped(s, tags, m, ps[i], us[i]) == us[i] {
      NoneReaches(s.types, tags, ns, i);
      ReachExact(s.types, tags, ns[i]);
      UntaggedKept(s, tags, m, ps[i], us[i]);
    }
    assert MappedAll(s, tags, m, ps, us) == us;
  }

  lemma {:induction false} NoneReaches(types: map<string, TypeDef>, tags: Tags, ns: seq<Node>, i: nat)
    requires !ReachAny(types, tags, ns, {}) && i < |ns|
    ensures !Reach(types, tags, ns[i], {})
    decreases i
  {
    if i > 0 { NoneReaches(types, tags, ns[1..], i - 1); }
  }

  /** The decoded packet, its fields and their definitions. */
  predicate Decoded(p: Protocol, input: bytes, L: Limits, e: Envelope) {
    DecodePacket(p, input, L) == Got(e) && e.value.Typed? && e.header.packetId in p.packets
  }

  /**
   From bytes to bytes: a packet that decodes, its fields rewritten, encodes to its
   header and the bytes of the mapped fields, if and only if those are valid, as they
   are when references are free of bounds and checks. If the answer is false the
   input itself comes back.
   */
  lemma PacketRewritten(
    p: Protocol, tags: Tags, m: IdMap, input: bytes, L: Limits, e: Envelope, ws: seq<Value>, changed: bool)
    requires Decoded(p, input, L, e)
    requires var def := p.packets[e.header.packetId];
      && WholeAll(p.schema, tags, FieldSpots(tags, def.name, def.fields), e.value.fields)
      && VisitedAll(p.schema, tags, m, FieldSpots(tags, def.name, def.fields), e.value.fields, ws, changed)
    ensures var def, ns := p.packets[e.header.packetId], FieldNodes(p.packets[e.header.packetId].fields);
      && ValidSeq(p.schema, ns, e.value.fields) && GenuineSeq(p.schema, ns, e.value.fields)
      && var us := MappedFields(p.schema, tags, m, def.name, def.fields, e.value.fields);
      && EncodePacket(p, e.(value := Typed(e.value.kind, ws)), 0)
        == (if ValidSeq(p.schema, ns, us) then Some(Leb128.Encode(e.header.ToWire()) + BytesSeq(p.schema, ns, us)) else None)
      && FieldsRewritten(p.schema, tags, m, def.name, def.fields, LogicalSeq(p.schema, ns, e.value.fields), us)
      && (changed <==> us != LogicalSeq(p.schema, ns, e.value.fields))
      && (!changed ==> EncodePacket(p, e.(value := Typed(e.value.kind, ws)), 0) == Some(input))
      && (FreeRefs(p.schema, tags) && FreeSpots(FieldSpots(tags, def.name, def.fields)) ==> ValidSeq(p.schema, ns, us))
  {
    hide DecodePacket, ValidSeq, GenuineSeq, LogicalSeq, BytesSeq, NestSeq, Whole, Unfold, Mapped, FreeRefs, FreeSpot, FieldsRewritten;
    var s, def, vs := p.schema, p.packets[e.header.packetId], e.value.fields;
    var ps, ns := FieldSpots(tags, def.name, def.fields), FieldNodes(def.fields);
    PacketGenuine(p, input, L);
    PacketKind(p, input, L, e);
    SpotNodes(tags, def.name, def.fields);
    SameLength(s, ns, vs);
    AllUnfold(s, tags, ps, ns, vs);
    var us := MappedFields(s, tags, m, def.name, def.fields, vs);
    assert us == UnfoldAll(s, tags, ps, ws);
    FieldsEffect(s, tags, m, def.name, def.fields, vs, ws, changed);
    PacketNests(p, input, L, e);
    RewrittenFields(s, tags, m, ps, ns, vs, ws, us);
    if FreeRefs(s, tags) && FreeSpots(ps) { FreeFieldsValid(s, tags, m, ps, ns, LogicalSeq(s, ns, vs), us); }
    PacketReencodes(p, input, L);
  }

  /** A decoded packet carries its own kind. */
  lemma PacketKind(p: Protocol, input: bytes, L: Limits, e: Envelope)
    requires Decoded(p, input, L, e)
    ensures e.kind == p.Kind(e.header.packetId) == Some(e.value.kind)
  {
    hide ParseSeq;
  }

  /** The elements of a decoded packet's lists nest within the supported depth. */
  lemma PacketNests(p: Protocol, input: bytes, L: Limits, e: Envelope)
    requires Decoded(p, input, L, e)
    ensures var ns := FieldNodes(p.packets[e.header.packetId].fields);
      && ValidSeq(p.schema, ns, e.value.fields) && GenuineSeq(p.schema, ns, e.value.fields)
      && ValidSeq(p.schema, ns, LogicalSeq(p.schema, ns, e.value.fields))
      && NestSeq(p.schema, ns, LogicalSeq(p.schema, ns, e.value.fields)) <= MAX_SUPPORTED_DEPTH
  {
    hide ParseSeq, ValidSeq, GenuineSeq, LogicalSeq, NestSeq, BytesSeq, PlainSeq, FitsSeq;
    var ns := FieldNodes(p.packets[e.header.packetId].fields);
    LazyEagerSeq(p.schema, ns, e.payload, L, 0);
    SeqExact(p.schema, ns, e.payload, L, 0, false);
  }

  lemma RewrittenFields(
    s: MarkedSchema, tags: Tags, m: IdMap, ps: seq<Spot>, ns: seq<Node>, vs: seq<Value>, ws: seq<Value>, us: seq<Value>)
    requires |ps| == |ns| == |vs| == |us| && (forall i :: 0 <= i < |ns| ==> ps[i].node == ns[i])
    requires ValidSeq(s, ns, vs) && GenuineSeq(s, ns, vs) && ValidSeq(s, ns, LogicalSeq(s, ns, vs))
    requires WholeAll(s, tags, ps, ws) && us == UnfoldAll(s, tags, ps, ws)
    requires forall i :: 0 <= i < |ns| ==> us[i] == Mapped(s, tags, m, ps[i], LogicalSeq(s, ns, vs)[i])
    ensures ValidSeq(s, ns, ws) <==> ValidSeq(s, ns, us)
    ensures ValidSeq(s, ns, us) ==>
      BytesSeq(s, ns, ws) == BytesSeq(s, ns, us) && NestSeq(s, ns, ws) <= NestSeq(s, ns, LogicalSeq(s, ns, vs))
  {
    hide ValidSeq, GenuineSeq, LogicalSeq, BytesSeq, NestSeq, PlainSeq, Whole, Unfold, Mapped, SameToChecksSeq;
    if ValidSeq(s, ns, ws) { FieldsValid(s, tags, ps, ns, ws); }
    if ValidSeq(s, ns, us) {
      WholeFields(s, tags, ps, ns, ws);
      LogicalSameSeq(s, ns, ws);
      NestLogicalSeq(s, ns, ws);
      FieldsNest(s, tags, m, ps, ns, LogicalSeq(s, ns, vs), us);
    }
  }

  /** The bytes a rewritten packet should have, if its mapped fields have any. */
  function RewrittenBytes(p: Protocol, tags: Tags, m: IdMap, input: bytes, L: Limits): Option<bytes>
    requires DecodePacket(p, input, L).Got?
  {
    var e := DecodePacket(p, input, L).value;
    if e.value.Unknown? then Some(input)
    else
      PacketGenuine(p, input, L);
      var def, ns := p.packets[e.header.packetId], FieldNodes(p.packets[e.header.packetId].fields);
      var us := MappedFields(p.schema, tags, m, def.name, def.fields, e.value.fields);
      if ValidSeq(p.schema, ns, us) then Some(Leb128.Encode(e.header.ToWire()) + BytesSeq(p.schema, ns, us)) else None
  }

  /** Decodes a packet, rewrites its IDs and encodes it into a fresh writer: all of it, or nothing. */
  method RewriteProxy(w: Writer, p: Protocol, tags: Tags, m: IdMap, input: bytes, L: Limits) returns (st: Status)
    requires |input| <= USIZE_MAX && w.Valid() && !w.counting && w.depth == 0 && DecodePacket(p, input, L).Got?
    modifies w`cursor, w`depth, w`out, w.buffer
    ensures var out := RewrittenBytes(p, tags, m, input, L);
      && (st.Done? <==> out.Some? && |out.value| <= w.Capacity() - old(w.cursor))
      && (st.Done? ==> w.out == old(w.out) + out.value)
      && (st.Failed? ==> w.cursor == old(w.cursor) && w.out == old(w.out) && w.buffer[..] == old(w.buffer[..]))
  {
    hide DecodePacket, EncodePacket, ValidSeq, BytesSeq, GenuineSeq, LogicalSeq, Whole, Unfold, Mapped;
    var decoded := DecodeBorrowed(p, input, L);
    var e := decoded.value;
    PacketReencodes(p, input, L);
    if e.value.Typed? {
      PacketGenuine(p, input, L);
      var def := p.packets[e.header.packetId];
      FieldsWhole(p, tags, input, L, e);
      var ws, changed := RewriteFields(p.schema, tags, m, def.name, def.fields, e.value.fields);
      PacketRewritten(p, tags, m, input, L, e, ws, changed);
      e := e.(value := Typed(e.value.kind, ws));
    }
    st := Profile.Encode(w, p, e);
  }

  lemma FieldsWhole(p: Protocol, tags: Tags, input: bytes, L: Limits, e: Envelope)
    requires Decoded(p, input, L, e)
    ensures var def := p.packets[e.header.packetId]; WholeAll(p.schema, tags, FieldSpots(tags, def.name, def.fields), e.value.fields)
  {
    hide DecodePacket, ValidSeq, GenuineSeq, LogicalSeq, Whole, Unfold;
    var def := p.packets[e.header.packetId];
    PacketGenuine(p, input, L);
    SpotNodes(tags, def.name, def.fields);
    SameLength(p.schema, FieldNodes(def.fields), e.value.fields);
    AllUnfold(p.schema, tags, FieldSpots(tags, def.name, def.fields), FieldNodes(def.fields), e.value.fields);
  }
}
