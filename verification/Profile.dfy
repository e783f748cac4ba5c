/** Whole packets: the header, the packet's fields, and encoding that is all or nothing. */
module Profile {
  import opened Wire
  import opened Values
  import opened Schemas
  import opened Meaning
  import opened Parser
  import opened Codec
  import opened Lazy
  import opened Readers
  import opened Writers
  import opened Decoders
  import opened Encoders
  import Leb128

  /** A 10-bit packet ID and two 2-bit split-screen indices. */
  datatype Header = Header(packetId: nat, sender: nat, target: nat)
  {
    predicate Valid() { packetId < 1024 && sender < 4 && target < 4 }

    function ToWire(): nat { packetId + 1024 * sender + 4096 * target }
  }

  function HeaderFromWire(v: nat): Option<Header> {
    if v > 0x3FFF then None else Some(Header(v % 1024, v / 1024 % 4, v / 4096))
  }

  /** Headers and the wire values below 2^14 correspond one to one. */
  lemma HeaderBijection(v: nat, h: Header)
    ensures HeaderFromWire(v) == Some(h) <==> h.Valid() && h.ToWire() == v
    ensures h.Valid() ==> h.ToWire() <= 0x3FFF
  {
    Digits(v);
    if h.Valid() {
      assert h.ToWire() == h.packetId + 1024 * (h.sender + 4 * h.target);
      Unpacked(h.packetId, h.sender + 4 * h.target, 1024);
      Unpacked(h.sender, h.target, 4);
      Digits(h.ToWire());
    }
  }

  /** A wire value is its ID, its sender and its target, from the lowest bit up. */
  lemma Digits(v: nat)
    ensures v / 4096 == v / 1024 / 4 && v == v % 1024 + 1024 * (v / 1024 % 4) + 4096 * (v / 4096)
  {
    var q := v / 1024;
    assert v == v % 1024 + 1024 * q && q == q % 4 + 4 * (q / 4);
  }

  lemma Unpacked(a: nat, b: nat, k: nat)
    requires a < k
    ensures (a + k * b) % k == a && (a + k * b) / k == b
  {
    var x := a + k * b;
    assert x == k * (x / k) + x % k;
    if x / k < b { Larger(x / k + 1, b, k); }
    if x / k > b { Larger(b + 1, x / k, k); }
  }

  lemma Larger(a: nat, b: nat, k: nat)
    requires a <= b
    ensures k * a <= k * b
  {
  }

  /**
   The low ten bits of the wire value are the ID, the next two the sender's, low bit
   first, and the last two the target's; a header with neither is just its ID.
   */
  lemma HeaderBits(h: Header)
    requires h.Valid()
    ensures var w := h.ToWire();
      && w % 1024 == h.packetId && w < 16384
      && w / 1024 % 2 == h.sender % 2 && w / 2048 % 2 == h.sender / 2
      && w / 4096 % 2 == h.target % 2 && w / 8192 == h.target / 2
    ensures h.sender == 0 && h.target == 0 ==> h.ToWire() == h.packetId
  {
    var r := h.sender + 4 * h.target;
    assert h.ToWire() == h.packetId + 1024 * r;
    TopBits(h.packetId, r);
    IndexBits(h.sender, h.target);
  }

  lemma IndexBits(sender: nat, target: nat)
    requires sender < 4
    ensures var r := sender + 4 * target;
      r % 2 == sender % 2 && r / 2 % 2 == sender / 2 && r / 4 == target && r / 8 == target / 2
  {
    var low, high := sender / 2, target / 2;
    Unpacked(sender % 2, low + 2 * target, 2);
    Unpacked(low, target, 2);
    Unpacked(sender, target, 4);
    Unpacked(sender + 4 * (target % 2), high, 8);
    assert sender == sender % 2 + 2 * low && target == target % 2 + 2 * high;
  }

  lemma TopBits(id: nat, r: nat)
    requires id < 1024 && r < 16
    ensures var w := id + 1024 * r;
      w % 1024 == id && w / 1024 == r && w / 2048 == r / 2 && w / 4096 == r / 4 && w / 8192 == r / 8
  {
  }

  datatype PacketDef = PacketDef(name: string, fields: seq<Field>)

  /** The packets of one protocol version, by wire ID, over its named types. */
  datatype Protocol = Protocol(schema: MarkedSchema, packets: map<nat, PacketDef>)
  {
    function Kind(id: nat): Option<string> { if id in packets then Some(packets[id].name) else None }
  }

  datatype Contents = Typed(kind: string, fields: seq<Value>) | Unknown

  datatype Envelope = Envelope(header: Header, kind: Option<string>, payload: bytes, value: Contents)

  // ---- what decoding and encoding a packet mean ----

  function DecodeHeader(input: bytes): Parsed<Header> {
    match Leb128.DecodeU32(input)
    case Fail(e) => Fail(e)
    case Ok(v, rest) =>
      match HeaderFromWire(v)
      case None => Fail(InvalidPacketId)
      case Some(h) => Ok(h, rest)
  }

  /** A packet starts with the varint of its ID when neither index is set. */
  lemma PlainHeader(id: nat, rest: bytes)
    requires id < 1024
    ensures DecodeHeader(Leb128.Encode(id) + rest) == Ok(Header(id, 0, 0), rest)
    ensures Header(id, 0, 0).ToWire() == id
  {
    HeaderBijection(id, Header(id, 0, 0));
    Leb128.U32Bijection(Leb128.Encode(id) + rest, id, rest);
  }

  function DecodePacket(p: Protocol, input: bytes, L: Limits): Read<Envelope> {
    if !L.Valid() || |input| > L.maxPacketBytes then Bad(LimitExceeded)
    else
      match DecodeHeader(input)
      case Fail(e) => Bad(e)
      case Ok(h, payload) =>
        if p.Kind(h.packetId) == None then Got(Envelope(h, None, payload, Unknown))
        else
          match ParseSeq(p.schema, FieldNodes(p.packets[h.packetId].fields), payload, L, 0, true)
          case Fail(e) => Bad(e)
          case Ok(vs, rest) =>
            if |rest| > 0 then Bad(TrailingData)
            else Got(Envelope(h, p.Kind(h.packetId), payload, Typed(p.packets[h.packetId].name, vs)))
  }

  /** The bytes of an envelope encoded by a writer with `depth` levels open; header, kind and value must agree. */
  function EncodePacket(p: Protocol, e: Envelope, depth: nat): Option<bytes> {
    if e.kind != p.Kind(e.header.packetId) then None
    else
      match e.value
      case Unknown => if e.kind.Some? then None else Some(Leb128.Encode(e.header.ToWire()) + e.payload)
      case Typed(kind, fields) =>
        if e.kind != Some(kind) then None
        else Cat(Leb128.Encode(e.header.ToWire()), EncodeSeq(p.schema, FieldNodes(p.packets[e.header.packetId].fields), fields, depth))
  }

  /** A limit of zero, or more nesting than the supported depth of 128, admits no packet. */
  lemma RefusedLimits(p: Protocol, input: bytes, L: Limits)
    requires
      || L.maxPacketBytes == 0 || L.maxStringBytes == 0 || L.maxByteArrayBytes == 0 || L.maxArrayElements == 0
      || L.maxNestingDepth == 0 || L.maxNestingDepth > 128 || |input| > L.maxPacketBytes
    ensures DecodePacket(p, input, L) == Bad(LimitExceeded)
  {
  }

  /** Any packet that decodes, header and unknown packets included, encodes to its original bytes. */
  lemma PacketReencodes(p: Protocol, input: bytes, L: Limits)
    requires DecodePacket(p, input, L).Got?
    ensures EncodePacket(p, DecodePacket(p, input, L).value, 0) == Some(input)
  {
    var e := DecodePacket(p, input, L).value;
    var v := Leb128.DecodeU32(input).value;
    Leb128.U32Bijection(input, v, e.payload);
    HeaderBijection(v, e.header);
    if e.value.Typed? {
      var ns := FieldNodes(p.packets[e.header.packetId].fields);
      SeqExact(p.schema, ns, e.payload, L, 0, true);
      assert BytesSeq(p.schema, ns, e.value.fields) + [] == BytesSeq(p.schema, ns, e.value.fields);
    }
  }

  /** The values of a decoded packet are as decoding leaves them, ready to be changed and encoded. */
  lemma PacketGenuine(p: Protocol, input: bytes, L: Limits)
    requires DecodePacket(p, input, L).Got? && DecodePacket(p, input, L).value.value.Typed?
    ensures var e := DecodePacket(p, input, L).value;
      && e.header.packetId in p.packets
      && var ns := FieldNodes(p.packets[e.header.packetId].fields);
      ValidSeq(p.schema, ns, e.value.fields) && GenuineSeq(p.schema, ns, e.value.fields)
  {
    var e := DecodePacket(p, input, L).value;
    LazyEagerSeq(p.schema, FieldNodes(p.packets[e.header.packetId].fields), e.payload, L, 0);
  }

  // ---- the runtime ----

  method InitReader(input: bytes, L: Limits) returns (res: Read<Reader>)
    requires |input| <= USIZE_MAX
    ensures !L.Valid() || |input| > L.maxPacketBytes ==> res == Bad(LimitExceeded)
    ensures L.Valid() && |input| <= L.maxPacketBytes ==>
      && res.Got? && fresh(res.value) && res.value.Valid() && res.value.depth == 0 && res.value.limits == L
      && res.value.Rest() == input
  {
    if !L.Valid() { return Bad(LimitExceeded); }
    if |input| > L.maxPacketBytes { return Bad(LimitExceeded); }
    var r := new Reader.Over(input, L);
    return Got(r);
  }

  method DecodeBorrowed(p: Protocol, input: bytes, L: Limits) returns (res: Read<Envelope>)
    requires |input| <= USIZE_MAX
    ensures res == DecodePacket(p, input, L)
  {
    hide ParseSeq;
    var opening := InitReader(input, L);
    if opening.Bad? { return Bad(opening.error); }
    var r := opening.value;
    var wire := r.ReadBits(Integers.VarU32);
    if wire.Bad? { return Bad(wire.error); }
    var header := HeaderFromWire(wire.value);
    if header.None? { return Bad(InvalidPacketId); }
    var payload := r.Rest();
    var kind := p.Kind(header.value.packetId);
    if kind == None { return Got(Envelope(header.value, None, payload, Unknown)); }
    opening := InitReader(payload, L); // a shorter input passes the same tests
    r := opening.value;
    var fields := DecodeFields(r, p.schema, FieldNodes(p.packets[header.value.packetId].fields));
    if fields.Bad? { return Bad(fields.error); }
    if r.cursor != |r.input| { return Bad(TrailingData); }
    return Got(Envelope(header.value, kind, payload, Typed(p.packets[header.value.packetId].name, fields.value)));
  }

  method EncodeTo(w: Writer, p: Protocol, e: Envelope) returns (st: Status)
    requires w.Valid() && w.depth <= MAX_SUPPORTED_DEPTH
    modifies w`cursor, w`depth, w`out, w.buffer
    ensures w.Valid() && w.TailKept() && w.depth == old(w.depth)
    ensures Emits(st, EncodePacket(p, e, old(w.depth)), w.Capacity() - old(w.cursor), old(w.out), w.out)
  {
    hide EncodeSeq;
    if e.kind != p.Kind(e.header.packetId) { return REFUSED; }
    match e.value {
      case Typed(kind, _) => if e.kind != Some(kind) { return REFUSED; }
      case Unknown => if e.kind != None { return REFUSED; }
    }
    ghost var before, room := w.out, w.Capacity() - w.cursor;
    var wire := e.header.ToWire();
    ghost var rest := if e.value.Unknown? then Some(e.payload)
      else EncodeSeq(p.schema, FieldNodes(p.packets[e.header.packetId].fields), e.value.fields, w.depth);
    assert EncodePacket(p, e, w.depth) == Cat(Leb128.Encode(wire), rest);
    st := w.WriteVar(wire);
    EmitsFirst(st, Leb128.Encode(wire), rest, room, before, w.out);
    if st.Failed? { return; }
    match e.value {
      case Typed(_, fields) => st := EncodeFields(w, p.schema, FieldNodes(p.packets[e.header.packetId].fields), fields);
      case Unknown => st := w.WriteRaw(e.payload);
    }
    EmitsSecond(st, Leb128.Encode(wire), rest, room, before, w.out);
  }

  /** The counted size is the exact number of bytes the same value is written in. */
  method EncodedSize(p: Protocol, e: Envelope) returns (st: Status, size: nat)
    ensures st.Done? <==> EncodePacket(p, e, 0).Some? && |EncodePacket(p, e, 0).value| <= USIZE_MAX
    ensures st.Done? ==> size == |EncodePacket(p, e, 0).value|
  {
    var counter := new Writer.Counting();
    st := EncodeTo(counter, p, e);
    size := counter.cursor;
  }

  /**
   Validates and measures first. A writer at depth 0 ends up with the whole packet
   or exactly as it was.
   */
  method Encode(w: Writer, p: Protocol, e: Envelope) returns (st: Status)
    requires w.Valid() && !w.counting && w.depth <= MAX_SUPPORTED_DEPTH
    modifies w`cursor, w`depth, w`out, w.buffer
    ensures w.Valid() && w.TailKept() && w.depth == old(w.depth)
    ensures st.Done? ==> EncodePacket(p, e, old(w.depth)).Some? && w.out == old(w.out) + EncodePacket(p, e, old(w.depth)).value
    ensures old(w.depth) == 0 ==>
      (st.Done? <==> EncodePacket(p, e, 0).Some? && |EncodePacket(p, e, 0).value| <= w.Capacity() - old(w.cursor))
    ensures old(w.depth) == 0 && st.Failed? ==> w.cursor == old(w.cursor) && w.out == old(w.out) && w.buffer[..] == old(w.buffer[..])
  {
    var size;
    st, size := EncodedSize(p, e);
    if st.Failed? { return; }
    if size > w.buffer.Length - w.cursor { return Failed(NoSpaceLeft); }
    st := EncodeTo(w, p, e);
  }

  /** A raw packet takes one or two header bytes; too little room leaves the writer as it was. */
  method EncodeRaw(w: Writer, h: Header, payload: bytes) returns (st: Status)
    requires w.Valid() && h.Valid()
    modifies w`cursor, w`out, w.buffer
    ensures w.Valid() && w.TailKept()
    ensures Puts(st, Leb128.Encode(h.ToWire()) + payload, w.Capacity() - old(w.cursor), old(w.out), w.out)
    ensures st.Failed? ==> w.cursor == old(w.cursor) && w.out == old(w.out) && w.buffer[..] == old(w.buffer[..])
  {
    var headerBytes := if h.ToWire() < 128 then 1 else 2;
    HeaderWidth(h.ToWire());
    var capacity := w.Capacity() - w.cursor;
    if headerBytes > capacity || |payload| > capacity - headerBytes { return Failed(NoSpaceLeft); }
    st := w.WriteVar(h.ToWire());
    if st.Failed? { return; }
    st := w.WriteRaw(payload);
  }

  lemma HeaderWidth(v: nat)
    requires v <= 0x3FFF
    ensures |Leb128.Encode(v)| == if v < 128 then 1 else 2
  {
  }

  /** Decoding a packet and encoding it again at depth 0 with enough room writes it back byte for byte. */
  method Proxy(w: Writer, p: Protocol, input: bytes, L: Limits) returns (st: Status)
    requires |input| <= USIZE_MAX && w.Valid() && !w.counting && w.depth == 0
    requires DecodePacket(p, input, L).Got? && |input| <= w.Capacity() - w.cursor
    modifies w`cursor, w`depth, w`out, w.buffer
    ensures st.Done? && w.out == old(w.out) + input
  {
    var decoded := DecodeBorrowed(p, input, L);
    PacketReencodes(p, input, L);
    st := Encode(w, p, decoded.value);
  }
}
