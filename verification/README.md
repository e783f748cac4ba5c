# Verified model of protocol-zig

protocol-zig turns a schema of packets and named types into decoders and
encoders for a game protocol. This project models, in Dafny 4.11, the three
parts the rest stands on, and proves what they promise for every schema, value,
input and limit:

1. **The codec.** The decoders and encoders the generator emits, over the
   reader, the writer, lazy lists, bitsets, varints and packet headers of the
   runtime.
2. **The ingester.** Comparing repeat occurrences of types coinductively,
   folding equal ones through a forest of renames, loosening bounds, merging
   and keeping names, and placing types in files.
3. **The visitor of actor IDs**, which rewrites IDs inside decoded packets,
   through nested and lazily kept lists.

`dafny verify dfyconfig.toml` checks everything.

## How it is built

- `Schemas` holds the schema: shapes (`Node`), named types, and which names
  reach which. A `MarkedSchema` is one whose recursive types count nesting
  depth; `FindRecursive` is proved to mark them. Nothing else is asked of a
  schema: the theorems hold for valid and invalid schemas alike.
- `Meaning` says what a schema means without limits, depth or input: which
  values a shape has (`Valid`), the bytes of each (`Bytes`), how deep it nests
  (`Nest`) and which limits admit it (`Fits`). `Parser.Parse` is the decoder as
  a function of the input still to read. `Codec` proves the two inverse to each
  other, `Lazy` relates values that keep list bytes to the elements they stand
  for (`Logical`), and `Guarantees` states the promises.
- What the decoder and the encoder share could be wrong in both alike, so it is
  pinned to definitions of its own: `Numerals` says which number some bytes are,
  `Scalars` which strings are UTF-8 and match a pattern, `Ingredients` how an
  ingredient is written, `LengthChecks` what a cross-field check demands, and
  `Grammar`, shape by shape, what is read in which order and what fails how.
- `Readers`, `Decoders`, `Writers`, `Encoders` and `Profile` are the stateful
  code: a reader with a cursor and a depth, a writer over a byte array, the
  emitted statements as methods, and whole packets. Every method is proved to
  compute exactly the function it stands for: value, error, cursor after a
  success, depth and buffer.
- `Simulation` proves when one schema accepts everything another does, in the
  same bytes, and `Carrying` what that means for decoding under limits.
  `Merging`, `Absorbing`, `EnumClasses`, `Renames`, `WireNames`, `Congruence`,
  `Comparing`, `Folding` and `Ingest` model the merge; `Unification` says what it
  means on the wire.
- `ActorReach`, `ActorRefs` and `Rewriting` model the visitor, `ActorEffects` says
  what it does to each integer of a value, and `PacketRewriting` takes it from the
  bytes of a packet to the bytes of the rewritten one.
- `Helpers` is the emitter as it makes and shares helpers, and `HelperCodecs` what
  the emitted statements do on bytes. The rest are one component each, named after it.

Decoding terminates although a type may contain itself before any byte is read:
the measure is the nesting levels left, then the number of types still ahead,
then the size of the shape (`Parser.ChildrenMeasure`).

## Results that are not what one would expect

- `Guarantees.DeepWireEncodesButNeverDecodes`: the encoder does not count the
  nesting inside kept list bytes, so a value built from decoded lists can encode
  and then decode under no valid limits. `Guarantees.DecodesUnderSome` says
  exactly when: if and only if the elements its lists stand for nest deeper than
  the supported depth. Values made of items only are not affected
  (`Guarantees.EncodedItemsDecode`), nor are decoded packets, rewritten or not
  (`PacketRewriting.PacketRewritten`). For the same reason a list's elements,
  encoded as items deeper than they were read, can be refused where its kept bytes
  are accepted (`Guarantees.DeeperWriterRefusesItems`); `Guarantees.ListReencodes`
  says exactly when.
- `Merging.LooserCanTighten`: bounds are compared as float64 values, so merging
  the minimum 2^53 + 1 with 2^53 keeps the tighter one. `Merging.LooserIff` says
  exactly when a merged bound admits what both did; the merge theorems assume
  bounds float64 holds exactly.
- `Unification.MergingCanDeepen`: folding never tightens a bound, but it can
  turn a type that ends into one that contains itself, and then a value needs
  one more level of nesting. `Unification.MergeDecodes` says exactly what is lost:
  bytes that decoded before decode to the same value after, unless the value nests
  deeper than the limit as the merged schema counts it. The order in which pairs are
  folded changes neither which names become one nor which bounds they get
  (`Unification.OrderIndependent`, `Unification.OrderKeepsBounds`).
- `Helpers.FieldsCanClash` and `Helpers.MapsCanClash`: generated element codecs
  and entry structs are remembered by a hint made of names, and two fields of one
  struct can produce one hint. The second is then emitted with the bounds checked
  for the first one, or with the first one's entry types (`Helpers.EmitClashingMaps`),
  and reads some bytes as another value than its own codec (`HelperCodecs.ClashOnBytes`).
  `Helpers.EmitPlaces` says exactly when every field, down to its last nested
  element, is emitted with the statements of its own shape, from the fields and the
  names taken before anything is emitted. Bounds that are never checked make no
  difference (`Helpers.UncheckedBoundsAgree`), and one field alone always gets its
  own (`Helpers.PlaceHintsApart`).
- `VariantNames.FixDigitsCanClash`: putting a `v` before a leading digit can
  make two names equal, as it does those found for `foo_1a` and `foo_v1a`;
  `VariantNames.FixDigitsDistinct` says exactly when.
- `Support.ThreeFactorsCanOverflow`: with three factors, an overflow can reject
  a true equality whose product is zero; with two it never does.
- `Owners.UnusedNamesCanFail`: a type that no packet uses can be given a bare
  reference to a type of another file; a type that is used never is, and
  `Owners.TypeNamesResolve` says exactly when references resolve.
- `ZeroWidth.MillionFromThreeBytes`: README.md:118 of the repository says no list
  element can be zero bytes on the wire, so decode time is linear in the input.
  Validation accepts lists of empty structs, and then three bytes are a million
  elements. `ZeroWidth.ZeroWidthIff` says exactly which shapes have values without
  bytes; a list of any others has fewer elements than bytes (`ZeroWidth.ListLinear`).

## Model

| member | source | states |
|---|---|---|
| Leb128.U32Bijection | src/codec/reader.zig:102-115 | The 32-bit varint reader accepts exactly the shortest forms of 0 to 2^32 - 1: overlong and overflowing forms are all rejected, and it stops right after the form |
| Leb128.U64Bijection | src/codec/reader.zig:116-129 | The same for 64 bits and ten bytes |
| Leb128.BitsetBijection | src/codec/bitset.zig:25-43 | For every width, the bitset reader accepts exactly the shortest forms of the values below 2^width that the writer produces |
| Leb128.EncodeStep | src/codec/writer.zig:97-106 | One turn of the writer's loop leaves the encoding of what remains to be written |
| Integers.IntBijection | src/codec/reader.zig:41-137 | Every integer kind (fixed width in either byte order, varint, zigzag; signed or not): reading inverts writing, and an input is accepted if and only if it starts with the bytes of an in-range value |
| Integers.BitsRoundTrip | src/codec/reader.zig:130-137 | Bit patterns and values of a signed or zigzag kind correspond one to one |
| Numerals.FixedIs | src/codec/reader.zig:54-100 | A fixed-width integer is its bytes times the powers of 256 of their place, little or big endian, modulo 256 to its size, in its signed or unsigned range; too few bytes are the end of the stream |
| Numerals.CountIs | src/codec/reader.zig:157-164 | A four-byte count is little endian, and refused above the limit |
| Numerals.EncodeIs | src/codec/writer.zig:97-106 | What the varint writer writes is the shortest form of its number: seven bits a byte from the lowest, the high bit on all but the last |
| Numerals.VarIs | src/codec/reader.zig:102-129 | A varint is read exactly from such a form, as the sum of its sevens, within 32 or 64 bits |
| Numerals.VarFails | src/codec/reader.zig:102-129 | A varint that stops early is EndOfStream, one with an idle last byte NonCanonicalVarInt, one too long or too large VarIntOverflow |
| Numerals.ZigzagIs | src/codec/reader.zig:130-137 | Even patterns 2k are k and odd patterns 2k + 1 are -k - 1 |
| Numerals.BitsetIs | src/codec/bitset.zig:25-37 | A bitset is read exactly from the form of a number of so many bits |
| Scalars.Utf8Is | src/codec/reader.zig:144-148 | A string is valid exactly when it is the encoding, by the table of section 3 of RFC 3629, of some Unicode scalar values |
| Scalars.ScalarsUnique | src/codec/reader.zig:144-148 | Which are then determined |
| Scalars.UuidJpegIs | src/codec/patterns.zig:3-13 | The matcher accepts exactly 8, 4, 4, 4 and 12 hexadecimal digits with dashes between, then .jpeg |
| Scalars.NamespacedWordIs | src/codec/patterns.zig:19-26 | The matcher accepts exactly two words of ASCII word characters with a colon between |
| Scalars.SplineTypeIs | src/codec/patterns.zig:28-31 | The matcher accepts exactly the two names |
| Leaves.LeafExact | src/codec/reader.zig:139-186 | Strings (valid UTF-8 and length bounds and pattern), byte arrays, UUIDs, booleans, floats as bit patterns, bitsets and recipe ingredients: what is read is valid, within the limits, and re-encodes to the bytes it was read from |
| Leaves.LeafBack | src/codec/writer.zig:97-152 | What is written is read back, or refused with LimitExceeded exactly when a limit forbids it |
| Leaves.LeafRelax | src/codec/reader.zig:139-156 | Relaxing the limits changes the outcome of reading a leaf only where it was LimitExceeded |
| Leaves.SwapHalvesAt | src/codec/reader.zig:178-186 | Which byte of a UUID goes where: each half is reversed |
| Leaves.SwapHalvesTwice | src/codec/writer.zig:145-152 | Writing a UUID undoes reading it |
| Leaves.IngredientExact | src/custom/recipe_ingredient.zig:25-44 | A recipe ingredient that decodes has a descriptor kind it can name and a count from 0 to 64, and re-encodes to its bytes |
| Leaves.IngredientBack | src/custom/recipe_ingredient.zig:46-73 | An ingredient that encodes decodes to itself, limits permitting |
| Ingredients.IngredientWritten | src/custom/recipe_ingredient.zig:46-73 | The bytes of each kind: 0 and an aux value; or 1, the name `name`, `molang` or `item_tag`, the text, and a zigzag aux value or, for molang, two little-endian bytes; then the count |
| Ingredients.UnknownPresence | src/custom/recipe_ingredient.zig:25-44 | A first number above 1 is InvalidEnum |
| Ingredients.UnknownName | src/custom/recipe_ingredient.zig:25-44 | A name of no kind is InvalidEnum |
| Ingredients.CountRefused | src/custom/recipe_ingredient.zig:25-44 | A count outside 0 to 64 is InvalidValue, and no other is |
| Readers.Reader.Take | src/codec/reader.zig:34-39 | Takes exactly the next bytes, or fails with EndOfStream and does not move |
| Readers.Reader.ReadVar | src/codec/reader.zig:102-129 | The varint loop computes the canonical decoding and leaves the cursor after it |
| Readers.Reader.ReadBitset | src/codec/bitset.zig:25-37 | The bitset reader computes its specification |
| Readers.Reader.ReadString | src/codec/reader.zig:144-148 | Length, limit, bytes and UTF-8, in that order of errors |
| Readers.Reader.ReadByteArray | src/codec/reader.zig:149-156 | A schema maximum is checked before the bytes are taken |
| Readers.Reader.ReadCount | src/codec/reader.zig:157-164 | Both count prefixes, against the element limit |
| Readers.Reader.ReadUuid | src/codec/reader.zig:178-186 | The loop over the two halves computes the swapped halves |
| Readers.Reader.Enter | src/codec/reader.zig:169-172 | Opens a level unless the nesting limit is reached |
| Writers.Writer.WriteRaw | src/codec/writer.zig:32-36 | Writes all the bytes or, with too little room, none; a counting writer only counts; bytes beyond the cursor are untouched |
| Writers.Writer.WriteVar | src/codec/writer.zig:97-106 | The varint loop writes exactly the canonical form |
| Writers.Writer.WriteString | src/codec/writer.zig:116-124 | Rejects invalid UTF-8 and lengths beyond 32 bits, else writes length and bytes |
| Writers.Writer.WriteCount | src/codec/writer.zig:125-131 | Counts beyond 32 bits are refused |
| Writers.Writer.WriteUuid | src/codec/writer.zig:145-152 | Writes the two halves reversed |
| Writers.Writer.Enter | src/codec/writer.zig:137-140 | Refuses a level beyond the supported depth |
| Decoders.Decode | tools/codegen/emit.go:321-380 | The emitted decoder, for every shape: same value, same final cursor, same error as the specification, and depth back where it was on every path, failing ones included |
| Decoders.DecodeEnum | tools/codegen/emit.go:505-525 | Any number of the representation is accepted unless the site allows only some |
| Decoders.DecodeStruct | tools/codegen/emit.go:550-602 | The fields in order, then the cross-field checks |
| Decoders.DecodeUnion | tools/codegen/emit.go:658-738 | The tag, InvalidEnum for an unknown one, then the payload of its variant |
| Decoders.DecodeFields | tools/codegen/emit.go:571-578 | Decoding in a loop is decoding in sequence, stopping at the first error |
| Decoders.DecodeList | src/codec/list.zig:32-42 | The count, the bounds, then the elements, of which exactly their bytes are kept |
| Decoders.SkipElements | src/codec/list.zig:34-40 | The one-step path for elements of fixed width and the loop have the same outcome, multiplication overflow included |
| Decoders.DecodeIngredient | src/custom/recipe_ingredient.zig:25-44 | The hand-written decoder computes its specification |
| Encoders.EncodeNode | tools/codegen/emit.go:382-426 | The emitted encoder, for every shape and for any value, valid or not: it writes exactly the bytes of the value and nothing else, or refuses; depth is restored on every path |
| Encoders.EncodeOpen | tools/codegen/emit.go:583-602 | Checks first, then what a level itself writes, then its children |
| Encoders.EncodeHead | tools/codegen/emit.go:382-426 | A presence flag or a union's tag, as one byte or one integer of the tag's representation, is what the level has of its own |
| Encoders.EncodeFields | tools/codegen/emit.go:593-600 | Parts are written in order; a refused part refuses the whole |
| Encoders.EncodeList | src/codec/list.zig:44-52 | Kept bytes are written as they are; items must be as many as the list says |
| Encoders.EncodeIngredient | src/custom/recipe_ingredient.zig:46-73 | The hand-written encoder computes its specification |
| Shapes.HeadIff | tools/codegen/emit.go:321-380 | One level is accepted exactly when it is well formed, the limits admit it and the input starts with its bytes; if only limits stand in the way the error is LimitExceeded |
| Grammar.IntegerReads | tools/codegen/emit.go:455-503 | A bounded integer is the integer read, if it lies within both bounds, and else InvalidValue |
| Grammar.StringReads | tools/codegen/emit.go:428-442 | A bounded string is the string read, if its length lies within both bounds and it matches its pattern, and else InvalidValue |
| Grammar.BytesReads | src/codec/reader.zig:149-156 | A byte string above its maximum is refused before its bytes are taken; a short one after |
| Grammar.BoolReads | src/codec/reader.zig:47-53 | 0, 1, or InvalidBoolean |
| Grammar.FloatReads | src/codec/reader.zig:95-100 | A little-endian bit pattern |
| Grammar.UuidReads | src/codec/reader.zig:177-186 | Which input byte each byte of a UUID is |
| Grammar.ListReads | src/codec/list.zig:32-42 | Count, limit, bounds, then as many elements in order; a kept list holds exactly the bytes they took |
| Grammar.OptionalReads | tools/codegen/emit.go:352-367 | 0 and nothing, or 1 and the value, or InvalidBoolean |
| Grammar.ArrayReads | tools/codegen/emit.go:347-351 | The elements and nothing else |
| Grammar.EntryReads | tools/codegen/emit.go:297-308 | The key, then the value |
| Grammar.EnumReads | tools/codegen/emit.go:505-525 | Any number of the representation that the site allows |
| Grammar.StructReads | tools/codegen/emit.go:550-581 | LimitExceeded at the nesting limit if the struct is recursive; else the fields in order, one level down if it is, then its checks; a struct without fields reads nothing, checks nothing and counts no level |
| Grammar.UnionReads | tools/codegen/emit.go:658-738 | The same for a union: the tag, InvalidEnum if no variant has it, then the payload of the first that has |
| Codec.DecodeExact | README.md:16 | Whatever decodes is valid, has as bytes exactly what was consumed, and nests no deeper than the limit |
| Codec.DecodeBack | tools/codegen/emit.go:321-426 | The bytes of a value followed by anything decode to that value and that rest, or fail with LimitExceeded exactly when the limits do not admit it |
| Codec.FitsRelax | src/codec/limits.zig:15-24 | Larger limits at a smaller depth admit whatever smaller ones did |
| Codec.ParseRelax | src/codec/limits.zig:15-24 | Relaxing limits cannot change a parse: same value, rest or error, unless the outcome was LimitExceeded |
| Lazy.LogicalSame | src/codec/list.zig:8-10 | A value with lists as decoding leaves them and its elements written out have the same bytes and pass the same checks |
| Lazy.LazyEager | src/codec/list.zig:32-42 | Keeping bytes changes no outcome: same inputs accepted, same rest, same errors, and the value stands for the eager one; in particular kept bytes can always be read again |
| Guarantees.DecodeThenEncode | README.md:16 | Anything that decodes, under any valid limits and at any depth, re-encodes to exactly the bytes consumed |
| Guarantees.EncodeThenDecode | tools/codegen/emit.go:321-525 | Anything that encodes decodes, before any suffix, to the same logical value and stops at the suffix, if and only if the limits admit it |
| Guarantees.EncodedItemsDecode | src/codec/limits.zig:15-24 | A value made of items that encodes always decodes under the relaxed limits |
| Guarantees.FitsWithin | src/codec/limits.zig:15-24 | Large enough length limits and enough levels admit every value made of items |
| Guarantees.UniquelyReadable | tools/codegen/emit.go:382-426 | Encodings are injective on logical values, and none is a proper prefix of another |
| Guarantees.ListIteration | src/codec/list.zig:54-82 | Re-reading a decoded list from depth 0 under the relaxed limits never fails, yields exactly its elements, uses all the bytes, which are those of the elements, and equals an eager decode |
| Guarantees.ListReencodes | src/codec/list.zig:44-70 | Those elements encode to the kept bytes, and the list made of them to the bytes it was read from, exactly when the writer has levels left for what nests inside: at any depth no deeper than it was read at |
| Guarantees.DeeperWriterRefusesItems | src/codec/list.zig:44-52 | A list whose items a writer one level down refuses, while it takes the same list's kept bytes |
| Guarantees.DeepWireEncodesButNeverDecodes | src/codec/list.zig:44-52 | A value built around kept bytes that encodes at depth 0 and decodes under no valid limits |
| Guarantees.DecodesUnderSome | src/codec/limits.zig:26-30 | Some valid limits admit a value's bytes if and only if the elements its lists stand for nest no deeper than the supported depth |
| ZeroWidth.ZeroWidthIff | tools/codegen/schema.go:313-403 | Some value of a shape has no bytes if and only if the shape is made of nothing but empty structs, through structs without checks, entries and fixed arrays, and not through itself |
| ZeroWidth.ListLinear | src/codec/list.zig:32-42 | A list of any other elements has fewer elements than the bytes it was decoded from |
| ZeroWidth.ZeroList | src/codec/list.zig:32-42 | A list of elements without bytes is decoded from its count alone, for any count the limits allow |
| ZeroWidth.MillionFromThreeBytes | tools/codegen/schema.go:348-352 | A schema whose lists hold a million elements in three bytes |
| Parser.ChildrenMeasure | tools/codegen/emit.go:567-570 | Going down one level opens a level of bounded nesting, or lowers the number of types ahead, or leaves a smaller shape |
| Schemas.RankDrops | tools/codegen/emit.go:140-178 | Following a reference to a type that does not count depth strictly lowers the number of types ahead |
| Nesting.CallsBounded | tools/codegen/emit.go:684-691 | The calls of a decoder nest no deeper than a budget linear in the nesting levels left, whatever the input |
| Nesting.PacketCallsBounded | src/codec/reader.zig:169-175 | Decoding the fields of any packet at depth 0, calls nest at most (limit + 1) times (types + 1) times the height of a type, plus the height of the fields |
| Nesting.CallsAre | tools/codegen/emit.go:321-380 | The calls of a decoder that succeeds nest exactly as deep as the values it decodes |
| FindRecursive.FindRecursive | tools/codegen/emit.go:140-178 | Marks a type if and only if a path of references leads from it back to itself |
| FindRecursive.Search.TypeReaches | tools/codegen/emit.go:151-170 | The depth-first search finds the target or leaves a closed set of visited types without it |
| FindRecursive.ShutOut | tools/codegen/emit.go:151-170 | A closed set of types none of which refers to the target cannot reach it |
| FixedWidth.ElementSkips | src/codec/support.zig:97-115 | For every kind with a fixed size, decoding one element is skipping its bytes |
| FixedWidth.ListSkips | src/codec/list.zig:35-38 | One multiplication and one skip accept the same inputs, leave the same rest and fail with the same error as decoding the elements one by one |
| Support.CheckLengthIsProduct | src/codec/support.zig:86-95 | The emitted loop computes its specification |
| Support.ProductIff | src/codec/support.zig:86-95 | The check holds exactly when no factor is negative, the unbounded product is the length and no partial product leaves 128 bits |
| Support.TwoFactorsNeverOverflow | tools/codegen/emit.go:622-634 | With at most two 64-bit factors the check is the exact equality |
| Support.NonZeroNeverOverflows | src/codec/support.zig:86-95 | A true equality with a length other than zero is never rejected |
| Support.ThreeFactorsCanOverflow | src/codec/support.zig:86-95 | Three factors for which a true equality is rejected |
| LengthChecks.CheckIs | tools/codegen/emit.go:622-634 | A generated check passes exactly when the length of its field, a byte string or a list, is the product of its factor fields times its scale, 0 read as 1, no factor is negative, and no product on the way leaves 128 bits |
| LengthChecks.StructValid | tools/codegen/emit.go:583-602 | A struct is valid exactly when its fields are and all its checks pass so |
| LengthChecks.ChecksHold | tools/codegen/emit.go:571-602 | Whatever struct decodes or encodes, the equations of its checks hold |
| LengthChecks.TwoFactorChecks | tools/codegen/emit.go:622-634 | With at most two 64-bit factors a check, valid fields and the equations are enough |
| Profile.HeaderBijection | src/packet.zig:8-20 | Headers and the wire values below 2^14 correspond one to one |
| Profile.HeaderBits | src/packet.zig:8-20 | The low ten bits are the ID, the next two the sender's index, the last two the target's |
| Profile.PlainHeader | src/packet.zig:8-20 | A packet with neither index starts with the varint of its ID |
| Profile.RefusedLimits | src/codec/reader.zig:16-20 | A limit of zero, a nesting limit above 128 or too long an input admits no packet |
| Profile.PacketReencodes | src/profile.zig:49-78 | Any packet that decodes, unknown ones included, encodes at depth 0 to its original bytes, header and all |
| Profile.PacketGenuine | src/profile.zig:49-57 | The fields of a decoded packet are valid and keep only bytes that can be read again |
| Profile.InitReader | src/codec/reader.zig:16-20 | Invalid limits and oversized input are rejected before anything is read |
| Profile.DecodeBorrowed | src/profile.zig:49-57 | The stateful decoder computes the specification of a packet, trailing bytes and unknown IDs included |
| Profile.EncodeTo | src/profile.zig:67-78 | Header, kind and value must agree; then exactly the packet's bytes are written |
| Profile.EncodedSize | src/profile.zig:58-62 | The counted size is exactly the number of bytes the packet is written in |
| Profile.Encode | src/profile.zig:63-66 | At depth 0 the whole packet is written, exactly when it can be encoded and fits; otherwise cursor and buffer are unchanged |
| Profile.EncodeRaw | src/packet.zig:30-36 | A raw packet is written whole or not at all |
| Profile.Proxy | README.md:16 | Decoding a packet and encoding it into enough room writes it back byte for byte |
| Simulation.Carried | tools/codegen/ingest.go:745-777 | If shapes agree up to a relation of names and bounds are no tighter, every value of one schema is a value of the other with the same bytes |
| Carrying.FitsCarried | tools/codegen/ingest.go:745-777 | Under a schema that is no tighter, lengths that fitted still fit; only nesting is counted anew |
| Carrying.CarriedDecodes | tools/codegen/ingest.go:745-777 | Bytes that decode under one schema decode to the same value and rest under a schema that is no tighter, eagerly or keeping list bytes, and fail with LimitExceeded exactly when that schema counts the value deeper than the limit |
| Float64.RoundMonotone | tools/codegen/ingest.go:891-903 | Rounding an integer to float64 keeps order |
| Float64.RoundIs | tools/codegen/ingest.go:891-903 | Rounding gives the nearest multiple of the spacing of float64 values there, and of two as near the even one |
| Merging.LooserIff | tools/codegen/ingest.go:891-903 | A merged bound admits what both did if and only if the two differ as float64 values or the first is already the looser |
| Merging.LooserCanTighten | tools/codegen/ingest.go:891-903 | Two minimums whose merge is the tighter one |
| Merging.SortedSetAscends | tools/codegen/ingest.go:875-889 | Merged allowed values are strictly ascending |
| Merging.IntersectNoTighter | tools/codegen/ingest.go:855-873 | The intersection of two shapes' bounds accepts whatever either accepts |
| Merging.IntersectLeast | tools/codegen/ingest.go:855-873 | And is the tightest that does: no bound both publish is given up |
| Merging.IntersectStrip | tools/codegen/ingest.go:855-873 | Nothing but bounds changes |
| Merging.StripShape | tools/codegen/ingest.go:726-733 | Comparing two nodes ignores exactly bounds, patterns and allowed values |
| Absorbing.AbsorbLoosens | tools/codegen/ingest.go:745-761 | Absorbing a definition of the same wire shape keeps the shape and accepts whatever either occurrence accepts |
| Absorbing.AbsorbLeast | tools/codegen/ingest.go:745-761 | And gives up no bound both publish |
| Absorbing.SmallExact | tools/codegen/ingest.go:891-903 | Bounds of magnitude up to 2^53 are among those the merge theorems cover |
| Absorbing.AbsorbSelf | tools/codegen/ingest.go:745-761 | A struct or union published again as it was stays exactly as it was |
| Absorbing.SameTypeAbsorbable | tools/codegen/ingest.go:745-761 | Absorbing never indexes a missing field or payload of a definition that compared equal |
| Absorbing.StripSameType | tools/codegen/ingest.go:687-713 | Comparing two definitions ignores exactly what absorbing may change |
| EnumClasses.AbsorbCombines | tools/codegen/ingest.go:745-761 | Absorbing an enum gives ascending numbers, exactly those of both, under distinct names; the first keeps its values, and each name begins with one its number was published under; every definition keeps its representation, field and variant names, tags and checks |
| EnumClasses.GathersBoth | tools/codegen/ingest.go:745-750 | What combines two enums that gathered others has gathered all of those |
| EnumClasses.ValuesBegin | tools/codegen/ingest.go:672-685 | Once the occurrence is absorbed its own definition, and no other, has gathered it |
| EnumClasses.ValuesFold | tools/codegen/ingest.go:764-777 | A fold keeps this for every definition, and leaves those it does not touch as they were |
| EnumNames.DedupeValues | tools/codegen/ingest.go:593-608 | The loops terminate and compute the specification |
| EnumNames.FindFresh | tools/codegen/ingest.go:601-603 | Numbering terminates at the first free name |
| EnumNames.DedupeSpec | tools/codegen/ingest.go:593-608 | Names and numbers end up distinct, and the numbers are exactly those of the input |
| EnumNames.DedupeFirsts | tools/codegen/ingest.go:593-608 | The first value of each number stays, in order, under its own name, or if that is taken under the name with the least free number from 2 up |
| EnumNames.DigitsAre | tools/codegen/ingest.go:602 | Numbers in names are decimal, without an idle zero |
| EnumNames.MergeKeepsNames | tools/codegen/ingest.go:747-749 | Merging a repeat enum never renames, drops or moves a value already present before sorting |
| EnumNames.MergedValues | tools/codegen/ingest.go:747-750 | Merged values are ascending and distinct, hold every number of both and keep every existing value |
| ValueNames.KeepNames | tools/codegen/ingest.go:783-826 | Both passes terminate; names end up distinct from each other and from reviewed ones; an entry keeps its old name when it may, else its own, numbered if taken |
| ValueNames.KeepsIff | tools/codegen/ingest.go:803-814 | The first pass keeps a name exactly when it is not reviewed for another and no earlier entry had it |
| ValueNames.NamedDistinct | tools/codegen/ingest.go:815-825 | Names given this way are distinct and not reviewed |
| ValueNames.FollowsKey | tools/codegen/ingest.go:803-814 | An entry whose manifest name had an earlier name gets that one, whatever its spelling had; without one, the one its spelling had; unless the name is reviewed or an earlier entry leads to it |
| ValueNames.FollowsOwnName | tools/codegen/ingest.go:815-825 | An entry without an earlier name keeps its own, unless it is taken |
| VariantNames.Trim | tools/codegen/ingest.go:1075-1097 | The loop computes the specification of one trim |
| VariantNames.TrimOneIs | tools/codegen/ingest.go:1075-1097 | What is left of a name is exactly the words between the first `prefix` and the last `suffix`, readable at the underscores; nothing if there are none; `empty` stays |
| VariantNames.NumberedAre | tools/codegen/ingest.go:1136-1145 | Numbered names are `variant` and their position from 0 |
| Joining.PiecesOfJoin | tools/codegen/ingest.go:1075-1097 | Words joined by a separator none of them has can be taken apart again |
| VariantNames.NameVariants | tools/codegen/ingest.go:1126-1146 | Before digits are fixed, names are distinct and not empty: those of the first trim that works, or numbers when none does |
| VariantNames.FixDigitsDistinct | tools/codegen/ingest.go:1148-1155 | Fixing leading digits keeps names distinct exactly when no name is another with a `v` in front of its digit |
| VariantNames.FixDigitsCanClash | tools/codegen/ingest.go:1126-1155 | Two variants whose first working trim gives distinct names that become equal |
| Renames.ApplyLive | tools/codegen/ingest.go:828-833 | A resolved name has not been folded |
| Renames.FollowSame | tools/codegen/ingest.go:828-833 | Following one rename does not change what a name resolves to |
| Renames.NoCycle | tools/codegen/ingest.go:764-777 | Following renames never comes back to a name |
| Congruence.ClosureUnifies | tools/codegen/ingest.go:680-684 | Pairs that agree up to their equivalence closure identify no two different shapes |
| Congruence.BisimulationUnifies | tools/codegen/ingest.go:715-725 | Whatever any bisimulation relates, some equivalence that respects all definitions relates |
| Comparing.HeadAndKids | tools/codegen/ingest.go:726-742 | Two nodes have the same shape exactly when their stripped heads and their children do |
| Comparing.PairsBounded | tools/codegen/ingest.go:715-725 | No comparison assumes more pairs than the square of the number of types |
| Comparing.ComparedBisimulation | tools/codegen/ingest.go:687-742 | After a success from no assumptions, the assumed pairs form a bisimulation |
| Ingest.Ingester.Resolve | tools/codegen/ingest.go:828-833 | Terminates, and gives what the name has become after every fold, in the order they happened |
| Ingest.Ingester.SameNode | tools/codegen/ingest.go:715-742 | Terminates on cyclic types; on success the shapes agree and every added pair has been compared; a failure or an added pair is forced on every way of identifying the nodes |
| Ingest.Ingester.SameTypes | tools/codegen/ingest.go:687-713 | The same for definitions |
| Ingest.Ingester.Fold | tools/codegen/ingest.go:764-777 | The whole new state: the resolved second type is absorbed into the first, its wire names pass on without repeats and now lead to the first, and it is removed and renamed, unless the two are one or unknown; the first keeps its own names, tags and checks, and an enum so made has the numbers of both, ascending, and the values the first had |
| WireNames.AppendAllHas | tools/codegen/ingest.go:846-853 | Wire names already there stay in front, new ones follow once, and nothing else |
| WireNames.PassWires | tools/codegen/ingest.go:771-774 | The loop over the folded type's wire names computes its specification |
| WireNames.FoldIndexed | tools/codegen/ingest.go:771-776 | After a fold every wire name of a type still leads to that type and no other |
| WireNames.FollowsFold | tools/codegen/ingest.go:771-776 | Every wire name is found at what its type has become |
| Ingest.Ingester.Merge | tools/codegen/ingest.go:672-685 | Succeeds exactly when the occurrences can be identified; folding in any order, two names then resolve alike exactly when that requires it, every name and the occurrence end at a definition of their shape that is no tighter, each definition is the tightest that accepts all it stands for, and every wire name leads to what its type has become; each enum something was merged into has exactly the numbers of all it stands for, ascending, under distinct names, and keeps the values it had; every definition keeps its own names, tags and checks, and one nothing was merged into is untouched; a failure changes nothing |
| Ingest.TightestFolds | tools/codegen/ingest.go:764-777 | A fold leaves each definition no tighter than any that accepts all the original definitions it stands for |
| Ingest.Resolved | tools/codegen/ingest.go:828-833 | Folded names and the table stay disjoint, and every known name resolves to a name in the table |
| Ingest.SoundFold | tools/codegen/ingest.go:764-777 | A fold keeps the renames a forest, disjoint from the table |
| Ingest.ComparedLeast | tools/codegen/ingest.go:672-685 | The closure of the compared pairs is the least equivalence that identifies the occurrences and respects all definitions |
| Ingest.FoldKeeps | tools/codegen/ingest.go:764-777 | A fold of related names identifies them and keeps everything the merge promises |
| Folding.FoldMoves | tools/codegen/ingest.go:764-777 | A fold leaves every name at a definition of its shape that is no tighter |
| Folding.MovesUnifies | tools/codegen/ingest.go:680-684 | What respected all definitions before a fold still does after it, so later pairs can be folded |
| Unification.MergeLosesNothing | tools/codegen/ingest.go:625-685 | Every value of every shape stays valid through a merge, at every site and through all renamed references, with the same bytes |
| Unification.OccurrenceLosesNothing | tools/codegen/ingest.go:672-685 | What the merged occurrence's own definition accepted is accepted under its name after the merge, in the same bytes |
| Unification.MergeDecodes | tools/codegen/ingest.go:625-685 | In bytes, through the merge and the rewriting of references: what decoded before decodes to the same value and rest after, at every site, except for LimitExceeded exactly when the new schema counts the value deeper than the limit |
| Unification.OccurrenceDecodes | tools/codegen/ingest.go:672-685 | The same for bytes the merged occurrence's own definition accepted |
| Unification.OrderIndependent | tools/codegen/ingest.go:680-684 | Folding the pairs in another order leads to the same partition of names |
| Unification.OrderKeepsBounds | tools/codegen/ingest.go:680-684 | And to definitions that accept the same: of what a name ends at in two orders, neither is tighter |
| Unification.RenameMeansTheSame | tools/codegen/ingest.go:835-844 | Rewriting references to what they resolve to changes neither what is accepted nor its bytes |
| Unification.RenamedRefsLive | tools/codegen/ingest.go:835-844 | No reference to a folded name is left, and references to known names are to types of the table |
| Unification.RenamesOnlyRefs | tools/codegen/ingest.go:835-844 | Where all references are live already, rewriting changes nothing |
| Unification.UnifiedSameWire | tools/codegen/ingest.go:687-742 | Types that compare equal have the same wire language once bounds and allowed values are removed |
| Unification.MergingCanDeepen | tools/codegen/ingest.go:764-777 | A fold after which a value needs one more level of nesting |
| Owners.Walk.Visit | tools/codegen/ingest.go:919-942 | The walk over a packet records exactly the types its references lead to |
| Owners.AssignOwners | tools/codegen/ingest.go:917-968 | A type is owned by a packet exactly when that packet and no other uses it; the others go to their domain |
| Owners.DomainIs | tools/codegen/ingest.go:957-966 | The domain of the last wire name that has a reviewed one decides, and `misc` if none has |
| Owners.BareIs | tools/codegen/emit.go:214-223 | A reference is a bare name exactly when the type is declared in the same file or owned by a packet |
| Owners.TypeNamesResolve | tools/codegen/emit.go:214-223 | In the file of a type every bare name is declared there, exactly when some packet uses the type or none of its references is owned; no shared type that is used refers to an owned one |
| Owners.UnusedNamesCanFail | tools/codegen/emit.go:214-223 | A type no packet uses, whose bare reference is to a type of another file |
| Owners.PacketNamesResolve | tools/codegen/emit.go:77-129 | In the file of a packet every bare name is declared there, and every other name is a shared type |
| Helpers.File.HelperName | tools/codegen/emit.go:288-295 | Terminates with a name no helper and no type of the schema has, the base itself if it is free |
| Helpers.DirectIs | tools/codegen/emit.go:252-286 | An element needs no helper exactly when it is a type or a primitive other than a bitset without anything to check |
| Helpers.NamesApart | tools/codegen/emit.go:288-295 | Two hints never number their way to one name |
| Helpers.NameIgnoresHelpers | tools/codegen/emit.go:288-295 | So the name a helper gets does not depend on the helpers made before it |
| Helpers.File.Emit | tools/codegen/emit.go:225-250 | The statements of a shape check exactly the bounds that are not vacuous and call exactly the helpers remembered under its hints; every helper made on the way was asked for by it |
| Helpers.File.CodecType | tools/codegen/emit.go:252-286 | An element gets its own codec, or the helper remembered under its hint, made from its statements the first time |
| Helpers.File.MapEntry | tools/codegen/emit.go:297-308 | A map gets the entry struct remembered under its hint, made from the statements of its key and value the first time |
| Helpers.EmitPlaces | tools/codegen/emit.go:550-602 | Emits a complete file, in which every place has the statements of its own shape if and only if the places and the names taken beforehand ask for no two shapes of different statements under one hint |
| Helpers.OwnHelpers | tools/codegen/emit.go:252-308 | Why: in any complete file every place has the statements of its own shape, nested elements and entries included, if and only if no hint is asked for two shapes of different statements, element codecs and map entries alike |
| Helpers.PlaceHintsApart | tools/codegen/emit.go:225-308 | Inside one place no hint is asked for two shapes, whatever names the entry structs get |
| Helpers.FieldsCanClash | tools/codegen/emit.go:252-286 | Two fields of one struct that ask for element codecs with different checked bounds under one hint |
| Helpers.UncheckedBoundsAgree | tools/codegen/emit.go:428-503 | The same two fields with bounds a byte cannot break ask for the same statements |
| Helpers.UncheckedCountsAgree | tools/codegen/emit.go:428-453 | Nor do a minimum length or count of zero and a maximum count of 2^32 or more make a difference |
| Helpers.MapsCanClash | tools/codegen/emit.go:297-308 | Two fields of one struct that ask for entry structs of different types under one hint |
| Helpers.EmitClashingMaps | tools/codegen/emit.go:297-308 | Emitting those two, the code of the second reads and writes the map type of the first, and not its own |
| HelperCodecs.InlineMeans | tools/codegen/emit.go:252-308 | Statements that mean a shape are, their helpers followed, those of the shape with only the bounds that are checked |
| HelperCodecs.ShownParses | tools/codegen/emit.go:428-503 | Leaving out the checks of vacuous bounds changes the outcome of no input |
| HelperCodecs.ShownEncodes | tools/codegen/emit.go:428-503 | Nor which values are accepted, their bytes or their nesting |
| HelperCodecs.MeansRuns | tools/codegen/emit.go:252-308 | Statements that mean a shape, with all the helpers they call, decode every input and encode every value exactly as that shape's own codec does |
| HelperCodecs.ClashOnBytes | tools/codegen/emit.go:297-308 | Four bytes that the second of two clashing fields, as emitted, reads to another value and another rest than its own shape does |
| Descriptions.DescribeUnique | tools/codegen/diff.go:11-57 | A description determines the shape and where it ends: kind, prefix, lengths, names, bounds as spelled, pattern, allowed values and children |
| Descriptions.DescribeInjective | tools/codegen/diff.go:11-57 | Two validated shapes have the same description exactly when they are equal, bounds of integers and floats compared by their spelling |
| Descriptions.KindsAre | tools/codegen/schema.go:108-130 | What the integer kinds are called |
| Descriptions.NamesRead | tools/codegen/diff.go:11-25 | A shape without bounds or children is described by its name |
| Descriptions.NumberRead | tools/codegen/diff.go:26-33 | Bounds are in braces, `max` before `min`, as spelled |
| Descriptions.StringRead | tools/codegen/diff.go:34-47 | `max_len`, `min_len`, then the pattern |
| Descriptions.RefRead | tools/codegen/diff.go:42-47 | Allowed numbers in brackets with spaces between |
| Descriptions.CountsRead | tools/codegen/diff.go:34-50 | `max_items` before `min_items`, then the element |
| Descriptions.ChildrenRead | tools/codegen/diff.go:48-56 | Children in parentheses, keys before values |
| Differences.DiffFields | tools/codegen/diff.go:71-107 | The loops report removed and retyped fields, then added ones, then a change of order |
| Differences.NothingReported | tools/codegen/diff.go:71-107 | Nothing is reported exactly when the two field lists are the same, down to every bound |
| Differences.RemovedAndAdded | tools/codegen/diff.go:83-97 | A line says removed exactly for a field only the first list has, and added, with its position, exactly for one only the second has |
| Differences.RetypedIs | tools/codegen/diff.go:83-92 | A line says retyped, old description first, exactly for a field of both whose descriptions differ |
| Differences.ReorderedIs | tools/codegen/diff.go:98-106 | A line gives the old order and then the new, exactly when the shared names come in another |
| ActorReach.ReachExact | src/actor_refs.zig:30-54 | The search is true exactly when some path of references leads to a tagged type, recursive types included |
| ActorReach.ReachIsRoute | src/actor_refs.zig:30-33 | Stopping at types already on the path misses nothing |
| ActorRefs.LogicalIsUnfold | src/actor_refs.zig:118-128 | The elements the visitor reads from a list are those the codec's value stands for |
| ActorRefs.UntaggedKept | src/actor_refs.zig:65-66 | Where no tagged type can be reached the mapping changes nothing, so skipping is right |
| ActorRefs.MappedBack | src/actor_refs.zig:94-103 | A mapping followed by its inverse gives back the logical value |
| ActorEffects.ConvertIs | src/actor_refs.zig:94-103 | The one stored integer, in the range of its kind, whose 64 bits are those of what the mapping for runtime IDs makes of the bits read without a sign, or that for unique IDs of them read with it |
| ActorEffects.MappedIs | src/actor_refs.zig:65-128 | A value is the mapping of another exactly when along every path a tagged 64-bit integer has become its image, any other value without parts is the same, and the rest has kept its form; a tag reaches through lists, arrays and optionals |
| ActorEffects.ChangedIs | src/actor_refs.zig:65-128 | It differs exactly when some tagged integer does |
| ActorRefs.MappedValid | src/actor_refs.zig:94-103 | With references free of bounds and length checks, whatever the mapping returns can be encoded |
| ActorRefs.WholeValid | src/actor_refs.zig:118-128 | A rewritten value whose elements are valid is itself valid and keeps only bytes that can be read again |
| Rewriting.Visit | src/actor_refs.zig:65-116 | Terminates; the result stands for the mapped value, the answer says whether that differs, and on false nothing has changed |
| Rewriting.VisitEffect | src/actor_refs.zig:65-116 | So along every path of the value the visit puts the image of each tagged integer and nothing else, and answers true exactly when one of them changed |
| Rewriting.Rewrite | src/actor_refs.zig:26-28 | The same for a whole value, from its entry point |
| Rewriting.VisitAll | src/actor_refs.zig:69-76 | The same for fields, elements and payloads, in order |
| Rewriting.VisitList | src/actor_refs.zig:118-128 | A list is read into items and replaced by them only if one changed |
| Rewriting.ItemsRead | src/codec/list.zig:62-70 | Reading the elements of a whole list never fails and gives exactly as many as it says |
| Rewriting.RewriteExact | src/actor_refs.zig:26-28 | The answer is true exactly when the mapped logical value, which has the image of each tagged integer, differs from the original; when the mapped value is valid so is the rewritten one, and it has exactly the mapped value's bytes |
| Rewriting.RewriteEncodes | src/actor_refs.zig:26-28 | A decoded value of any shape, rewritten, passes the encoder's nesting test at any depth no deeper than it was read at and encodes to exactly the bytes of the mapped logical value, if and only if that value is valid; with references free of bounds and checks it always is |
| PacketRewriting.RewriteFields | src/actor_refs.zig:65-76 | A packet's own fields, tagged or not, are visited in order, unless nothing below them can be tagged; along every path of every field each tagged integer becomes its image and nothing else changes, and the answer says whether one did |
| PacketRewriting.PacketRewritten | src/actor_refs.zig:26-28 | From bytes to bytes: a packet that decodes, its fields rewritten, encodes to its header and the bytes of the mapped fields, with the image of each tagged integer, if and only if those are valid, as they are when references are free of bounds and checks; the answer is true exactly when a field changed, and on false the input comes back |
| PacketRewriting.RewriteProxy | src/profile.zig:49-78 | Decoding, rewriting and encoding into a writer is all or nothing, with an exact success condition |
| Rewriting.NestLogical | src/codec/list.zig:44-52 | Writing out kept bytes can only add levels to what the encoder counts |
| Rewriting.NestMapped | src/actor_refs.zig:94-103 | Mapping IDs changes no levels |
| Rewriting.RewriteUndone | src/actor_refs.zig:26-28 | Rewriting with the inverse mapping afterwards gives back the original logical value and bytes |
| Rewriting.OutsideUnchanged | src/actor_refs.zig:10-24 | A packet outside the set of those that can carry IDs never changes |

## Left out

- NBT documents (`src/codec/nbt.zig`), which wrap an external library; so the NBT limit and the rest of a packet after an NBT field are not modelled either.
- Floating-point values are bit patterns; checking numeric bounds on floats is not modelled. `Descriptions` and `Differences` do have them, and every spelling of a number, as text.
- Vector and position types are structs like any other; the built-in reader ignores bounds on their fields, which the model would enforce. Their fixed widths are modelled.
- Cross-field checks name fields by position; `validate` makes names and positions interchangeable. Validation itself is not modelled because no theorem needs it; a reference to an unknown type, which validation rejects, fails with InvalidEnum here.
- Each shape has its own helper codec in the codec theorems; sharing helpers by hint is modelled separately in `Helpers`, where Zig types are not, so a clash that would not compile is not told from one that would.
- Where the cursor stands after a failed read, and the failure reports of `src/codec/failure.zig`.
- Values are trees, not memory: lifetimes, borrowing and overlapping buffers, and the visitor writing through pointers (it returns the new value). Running out of memory in the visitor's arena.
- Nodes shared between definitions through pointers in the ingester: an absorbed bound is changed in one definition only.
- Type IDs, claimed names and shared anonymous shapes in `define` are not modelled.
- NameVariants: holds for any number of leading and trailing words tried first; how `variantNames` counts shared words and splits names into words is not modelled.
- KeepNames: spellings are given as lookup keys; lower-casing and dropping underscores are not modelled.
- RewriteProxy: what it does not decode it does not take; a proxy that gets such a packet has an error and nothing to rewrite.
- DiffFields: the lines are values, not text, and carry no owner; differences of enum values, variants and whole schemas are not modelled.
- Visit: lists in wire form are as decoding left them and item lists have the length they say, as src/codec/list.zig:8-10 and its encoder demand of callers, so reading items never fails; a reference kind on a type that is no 64-bit integer, optional, array or list does not compile in the original and has no effect here.
- `typed.decode` and `typed.encode`, the version tables, direction tables, sessions and profiles: finite tables or forwarding calls.
- Classifying fields in `tools/codegen/actors.go`, corpus generation, JSON loading, evidence and coverage bookkeeping.
