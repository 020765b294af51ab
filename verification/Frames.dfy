/** Frames: what codec.rs and decode.js read and what the encoder writes. */
module Frames {
  import opened Bytes
  import opened Leb128
  import opened Values
  import Utf8

  datatype FieldDef = FieldDef(name: bytes, tag: byte)

  datatype Annotation = Annotation(index: u16, key: bytes, value: bytes)

  datatype SchemaEntry = SchemaEntry(
    name: bytes,
    hasTimestamp: bool,
    fields: seq<FieldDef>,
    annotations: seq<Annotation>)

  datatype PoolEntry = PoolEntry(id: u32, data: bytes)

  datatype StackEntry = StackEntry(id: u32, frames: seq<u64>)

  /** A decoded frame. An event carries its schema's name, as RawEvent and decode.js
      report it, and its absolute timestamp. */
  datatype Frame =
    | Schema(id: u16, entry: SchemaEntry)
    | Event(typeId: u16, name: bytes, timestamp: Option<nat>, values: seq<Value>)
    | StringPool(strings: seq<PoolEntry>)
    | StackPool(stacks: seq<StackEntry>)
    | TimestampReset(base: u64)
    | Annotations(schemaId: nat, annotations: seq<Annotation>)

  const MAGIC: bytes := [0x54, 0x52, 0x43, 0x00]
  const HEADER: bytes := MAGIC + [1]

  const SCHEMA_FRAME := 1
  const EVENT_FRAME := 2
  const STRING_POOL_FRAME := 3
  const STACK_POOL_FRAME := 4
  const RESET_FRAME := 5
  const ANNOTATIONS_FRAME := 6

  const MAX_DELTA := 0xFF_FFFF

  function Tags(fields: seq<FieldDef>): (tags: seq<byte>)
    ensures |tags| == |fields|
  {
    seq(|fields|, i requires 0 <= i < |fields| => fields[i].tag)
  }

  // ----- parsing

  function ParseU16(d: bytes): (r: Parsed<u16>)
    ensures r.Ok? ==> |r.rest| == |d| - 2
  {
    PowersOf256();
    var (n, rest) :- ParseLe(2, d);
    Ok(n, rest)
  }

  /** Names must be UTF-8 for the Rust decoders; decode.js replaces what is not. */
  function Text(dia: Dialect, r: Parsed<bytes>): Parsed<bytes> {
    if dia != Js && r.Ok? && !Utf8.Valid(r.value) then Fail else r
  }

  function ParseName(dia: Dialect, d: bytes): Parsed<bytes> {
    var (n, r) :- ParseU16(d);
    Text(dia, Take(n, r))
  }

  function ParseFieldDef(dia: Dialect, d: bytes): Parsed<FieldDef> {
    var (name, r) :- ParseName(dia, d);
    if r == [] || (dia != Js && !IsFieldType(r[0])) then Fail else Ok(FieldDef(name, r[0]), r[1..])
  }

  function FieldDefParser(dia: Dialect): bytes -> Parsed<FieldDef> {
    d => ParseFieldDef(dia, d)
  }

  function ParseFieldDefs(dia: Dialect, d: bytes): Parsed<seq<FieldDef>> {
    var (n, r) :- ParseU16(d);
    Rep(FieldDefParser(dia), n, r)
  }

  /** Name, timestamp flag and fields. */
  function ParseEntry(dia: Dialect, d: bytes): Parsed<SchemaEntry> {
    var (name, r) :- ParseName(dia, d);
    if r == [] then Fail else
      var (fields, r') :- ParseFieldDefs(dia, r[1..]);
      Ok(SchemaEntry(name, r[0] != 0, fields, []), r')
  }

  function ParseSchema(dia: Dialect, d: bytes): Parsed<Frame> {
    var (id, r) :- ParseU16(d);
    var (e, r') :- ParseEntry(dia, r);
    Ok(Schema(id, e), r')
  }

  function ParsePoolEntry(d: bytes): Parsed<PoolEntry> {
    var (id, r) :- ParseU32(d);
    var (x, r') :- ParseBlob(r);
    Ok(PoolEntry(id, x), r')
  }

  function ParseStringPool(d: bytes): Parsed<Frame> {
    var (n, r) :- ParseU32(d);
    var (es, r') :- Rep(ParsePoolEntry, n, r);
    Ok(StringPool(es), r')
  }

  function ParseAddresses(d: bytes): Parsed<seq<u64>> {
    var (n, r) :- ParseU32(d);
    Rep(ParseU64, n, r)
  }

  function ParseStackEntry(d: bytes): Parsed<StackEntry> {
    var (id, r) :- ParseU32(d);
    var (xs, r') :- ParseAddresses(r);
    Ok(StackEntry(id, xs), r')
  }

  function ParseStackPool(d: bytes): Parsed<Frame> {
    var (n, r) :- ParseU32(d);
    var (es, r') :- Rep(ParseStackEntry, n, r);
    Ok(StackPool(es), r')
  }

  function ParseAnnotationTexts(dia: Dialect, d: bytes): Parsed<(bytes, bytes)> {
    var (key, r) :- ParseName(dia, d);
    var (value, r') :- Text(dia, ParseBlob(r));
    Ok((key, value), r')
  }

  function ParseAnnotation(dia: Dialect, d: bytes): Parsed<Annotation> {
    var (index, r) :- ParseU16(d);
    var (kv, r') :- ParseAnnotationTexts(dia, r);
    Ok(Annotation(index, kv.0, kv.1), r')
  }

  function AnnotationParser(dia: Dialect): bytes -> Parsed<Annotation> {
    d => ParseAnnotation(dia, d)
  }

  function ParseAnnotationList(dia: Dialect, d: bytes): Parsed<seq<Annotation>> {
    var (n, r) :- ParseU16(d);
    Rep(AnnotationParser(dia), n, r)
  }

  /** The schema id is a varint here; Rust cuts it to 16 bits, decode.js does not. */
  function ParseAnnotations(dia: Dialect, d: bytes): Parsed<Frame> {
    var (id, r) :- ParseVarint(dia, d);
    var (xs, r') :- ParseAnnotationList(dia, r);
    if dia == Strict && id >= 0x1_0000 then Fail
    else Ok(Annotations(if dia == Js then id else id % 0x1_0000, xs), r')
  }

  function ParseFields(dia: Dialect, tags: seq<byte>, d: bytes): Parsed<seq<Value>> {
    if tags == [] then Ok([], d) else
      var (v, r) :- ParseField(dia, tags[0], d);
      var (vs, r') :- ParseFields(dia, tags[1..], r);
      Ok([v] + vs, r')
  }

  /** The packed delta, when the schema has timestamps. Rust checks the addition to the
      base, decode.js adds without bound. */
  function ParseTimestamp(dia: Dialect, has: bool, base: nat, d: bytes): Parsed<Option<nat>> {
    if !has then Ok(None, d) else
      var (delta, r) :- ParseLe(3, d);
      if dia != Js && base + delta >= TWO_TO_THE_64 then Fail else Ok(Some(base + delta), r)
  }

  function ParseEventBody(dia: Dialect, id: u16, e: SchemaEntry, base: nat, d: bytes): Parsed<Frame> {
    var (ts, r) :- ParseTimestamp(dia, e.hasTimestamp, base, d);
    var (vs, r') :- ParseFields(dia, Tags(e.fields), r);
    Ok(Event(id, e.name, ts, vs), r')
  }

  function ParseEvent(dia: Dialect, schemas: map<nat, SchemaEntry>, base: nat, d: bytes): Parsed<Frame> {
    var (id, r) :- ParseU16(d);
    if id !in schemas then Fail else ParseEventBody(dia, id, schemas[id], base, r)
  }

  function ParseReset(d: bytes): Parsed<Frame> {
    var (ts, r) :- ParseU64(d);
    Ok(TimestampReset(ts), r)
  }

  /** A frame behind its tag. */
  function ParseBody(dia: Dialect, tag: byte, schemas: map<nat, SchemaEntry>, base: nat, d: bytes): Parsed<Frame> {
    if tag == SCHEMA_FRAME then ParseSchema(dia, d)
    else if tag == EVENT_FRAME then ParseEvent(dia, schemas, base, d)
    else if tag == STRING_POOL_FRAME then ParseStringPool(d)
    else if tag == STACK_POOL_FRAME then ParseStackPool(d)
    else if tag == RESET_FRAME then ParseReset(d)
    else if tag == ANNOTATIONS_FRAME then ParseAnnotations(dia, d)
    else Fail
  }

  /** decode_frame, decode_frame_ref and the switch of nextFrame. */
  function ParseFrame(dia: Dialect, schemas: map<nat, SchemaEntry>, base: nat, d: bytes): Parsed<Frame> {
    if d == [] then Fail else ParseBody(dia, d[0], schemas, base, d[1..])
  }

  // ----- locality: a frame is decided by the bytes it consumes

  lemma ParseU16Local(d: bytes, s: bytes)
    ensures LocalAt(ParseU16, d, s)
  {
    ParseLeLocal(2, d, s);
  }

  lemma ParseNameLocal(dia: Dialect, d: bytes, s: bytes)
    ensures var r := ParseName(dia, d);
            r.Ok? ==> Tail(r.rest, d) && ParseName(dia, Used(d, r.rest) + s) == Ok(r.value, s)
  {
    var r := ParseName(dia, d);
    if r.Ok? {
      var r1 := ParseU16(d);
      TakeLocal(r1.value, r1.rest, s);
      ParseU16Local(d, Used(r1.rest, r.rest) + s);
      Chain(d, r1.rest, r.rest, s);
    }
  }

  lemma ParseFieldDefLocal(dia: Dialect, d: bytes, s: bytes)
    ensures var r := ParseFieldDef(dia, d);
            r.Ok? ==> Tail(r.rest, d) && ParseFieldDef(dia, Used(d, r.rest) + s) == Ok(r.value, s)
  {
    hide ParseName;
    var r := ParseFieldDef(dia, d);
    if r.Ok? {
      var r1 := ParseName(dia, d).rest;
      var last := Used(r1, r.rest) + s;
      ParseNameLocal(dia, d, last);
      assert Used(r1[1..], r.rest) + s == s;
      ByteFirst(r1, r.rest, s);
      Chain(d, r1, r.rest, s);
      assert ParseName(dia, Used(d, r.rest) + s) == Ok(r.value.name, last);
    }
  }

  lemma FieldDefLocal(dia: Dialect)
    ensures Local(FieldDefParser(dia))
  {
    hide ParseFieldDef;
    forall d, s ensures LocalAt(FieldDefParser(dia), d, s) { ParseFieldDefLocal(dia, d, s); }
  }

  lemma ParseFieldDefsLocal(dia: Dialect, d: bytes, s: bytes)
    ensures var r := ParseFieldDefs(dia, d);
            r.Ok? ==> Tail(r.rest, d) && ParseFieldDefs(dia, Used(d, r.rest) + s) == Ok(r.value, s)
  {
    var r := ParseFieldDefs(dia, d);
    if r.Ok? {
      hide ParseFieldDef;
      var r1 := ParseU16(d);
      FieldDefLocal(dia);
      RepLocal(FieldDefParser(dia), r1.value, r1.rest, s);
      ParseU16Local(d, Used(r1.rest, r.rest) + s);
      Chain(d, r1.rest, r.rest, s);
    }
  }

  lemma ParseEntryLocal(dia: Dialect, d: bytes, s: bytes)
    ensures var r := ParseEntry(dia, d);
            r.Ok? ==> Tail(r.rest, d) && ParseEntry(dia, Used(d, r.rest) + s) == Ok(r.value, s)
  {
    hide ParseName, ParseFieldDefs;
    var r := ParseEntry(dia, d);
    if r.Ok? {
      var r1 := ParseName(dia, d).rest;
      ParseFieldDefsLocal(dia, r1[1..], s);
      ParseNameLocal(dia, d, Used(r1, r.rest) + s);
      ByteFirst(r1, r.rest, s);
      Chain(d, r1, r.rest, s);
    }
  }

  lemma ParseSchemaLocal(dia: Dialect, d: bytes, s: bytes)
    ensures var r := ParseSchema(dia, d);
            r.Ok? ==> Tail(r.rest, d) && ParseSchema(dia, Used(d, r.rest) + s) == Ok(r.value, s)
  {
    hide ParseEntry;
    var r := ParseSchema(dia, d);
    if r.Ok? {
      var r1 := ParseU16(d).rest;
      ParseEntryLocal(dia, r1, s);
      ParseU16Local(d, Used(r1, r.rest) + s);
      Chain(d, r1, r.rest, s);
    }
  }

  lemma PoolEntryLocal()
    ensures Local(ParsePoolEntry)
  {
    forall d, s ensures LocalAt(ParsePoolEntry, d, s) {
      hide ParseBlob;
      var r := ParsePoolEntry(d);
      if r.Ok? {
        var r1 := ParseU32(d).rest;
        ParseBlobLocal(r1, s);
        ParseU32Local(d, Used(r1, r.rest) + s);
        Chain(d, r1, r.rest, s);
      }
    }
  }

  lemma ParseStringPoolLocal(d: bytes, s: bytes)
    ensures LocalAt(ParseStringPool, d, s)
  {
    hide ParsePoolEntry;
    var r := ParseStringPool(d);
    if r.Ok? {
      var r1 := ParseU32(d);
      PoolEntryLocal();
      RepLocal(ParsePoolEntry, r1.value, r1.rest, s);
      ParseU32Local(d, Used(r1.rest, r.rest) + s);
      Chain(d, r1.rest, r.rest, s);
    }
  }

  lemma ParseAddressesLocal(d: bytes, s: bytes)
    ensures LocalAt(ParseAddresses, d, s)
  {
    var r := ParseAddresses(d);
    if r.Ok? {
      var r1 := ParseU32(d);
      ParseU64Local();
      RepLocal(ParseU64, r1.value, r1.rest, s);
      ParseU32Local(d, Used(r1.rest, r.rest) + s);
      Chain(d, r1.rest, r.rest, s);
    }
  }

  lemma StackEntryLocal()
    ensures Local(ParseStackEntry)
  {
    forall d, s ensures LocalAt(ParseStackEntry, d, s) {
      hide ParseAddresses;
      var r := ParseStackEntry(d);
      if r.Ok? {
        var r1 := ParseU32(d).rest;
        ParseAddressesLocal(r1, s);
        ParseU32Local(d, Used(r1, r.rest) + s);
        Chain(d, r1, r.rest, s);
      }
    }
  }

  lemma ParseStackPoolLocal(d: bytes, s: bytes)
    ensures LocalAt(ParseStackPool, d, s)
  {
    hide ParseStackEntry;
    var r := ParseStackPool(d);
    if r.Ok? {
      var r1 := ParseU32(d);
      StackEntryLocal();
      RepLocal(ParseStackEntry, r1.value, r1.rest, s);
      ParseU32Local(d, Used(r1.rest, r.rest) + s);
      Chain(d, r1.rest, r.rest, s);
    }
  }

  lemma AnnotationTextsLocal(dia: Dialect, d: bytes, s: bytes)
    ensures var r := ParseAnnotationTexts(dia, d);
            r.Ok? ==> Tail(r.rest, d) && ParseAnnotationTexts(dia, Used(d, r.rest) + s) == Ok(r.value, s)
  {
    hide ParseName, ParseBlob;
    var r := ParseAnnotationTexts(dia, d);
    if r.Ok? {
      var r1 := ParseName(dia, d).rest;
      ParseBlobLocal(r1, s);
      ParseNameLocal(dia, d, Used(r1, r.rest) + s);
      Chain(d, r1, r.rest, s);
    }
  }

  lemma ParseAnnotationLocal(dia: Dialect, d: bytes, s: bytes)
    ensures var r := ParseAnnotation(dia, d);
            r.Ok? ==> Tail(r.rest, d) && ParseAnnotation(dia, Used(d, r.rest) + s) == Ok(r.value, s)
  {
    hide ParseAnnotationTexts;
    var r := ParseAnnotation(dia, d);
    if r.Ok? {
      var r1 := ParseU16(d).rest;
      AnnotationTextsLocal(dia, r1, s);
      ParseU16Local(d, Used(r1, r.rest) + s);
      Chain(d, r1, r.rest, s);
    }
  }

  lemma AnnotationLocal(dia: Dialect)
    ensures Local(AnnotationParser(dia))
  {
    hide ParseAnnotation;
    forall d, s ensures LocalAt(AnnotationParser(dia), d, s) { ParseAnnotationLocal(dia, d, s); }
  }

  lemma AnnotationListLocal(dia: Dialect, d: bytes, s: bytes)
    ensures var r := ParseAnnotationList(dia, d);
            r.Ok? ==> Tail(r.rest, d) && ParseAnnotationList(dia, Used(d, r.rest) + s) == Ok(r.value, s)
  {
    hide ParseAnnotation;
    var r := ParseAnnotationList(dia, d);
    if r.Ok? {
      var r1 := ParseU16(d);
      AnnotationLocal(dia);
      RepLocal(AnnotationParser(dia), r1.value, r1.rest, s);
      ParseU16Local(d, Used(r1.rest, r.rest) + s);
      Chain(d, r1.rest, r.rest, s);
    }
  }

  lemma ParseAnnotationsLocal(dia: Dialect, d: bytes, s: bytes)
    ensures var r := ParseAnnotations(dia, d);
            r.Ok? ==> Tail(r.rest, d) && ParseAnnotations(dia, Used(d, r.rest) + s) == Ok(r.value, s)
  {
    hide ParseVarint, ParseAnnotationList;
    var r := ParseAnnotations(dia, d);
    if r.Ok? {
      var r1 := ParseVarint(dia, d).rest;
      AnnotationListLocal(dia, r1, s);
      ParseVarintLocal(dia, d, Used(r1, r.rest) + s);
      Chain(d, r1, r.rest, s);
    }
  }

  lemma {:induction false} ParseFieldsLocal(dia: Dialect, tags: seq<byte>, d: bytes, s: bytes)
    ensures var r := ParseFields(dia, tags, d);
            r.Ok? ==> Tail(r.rest, d) && ParseFields(dia, tags, Used(d, r.rest) + s) == Ok(r.value, s)
  {
    hide ParseField;
    var r := ParseFields(dia, tags, d);
    if tags == [] {
      assert Used(d, d) + s == s;
    } else if r.Ok? {
      var r1 := ParseField(dia, tags[0], d).rest;
      ParseFieldsLocal(dia, tags[1..], r1, s);
      ParseFieldLocal(dia, tags[0], d, Used(r1, r.rest) + s);
      Chain(d, r1, r.rest, s);
    }
  }

  lemma ParseTimestampLocal(dia: Dialect, has: bool, base: nat, d: bytes, s: bytes)
    ensures var r := ParseTimestamp(dia, has, base, d);
            r.Ok? ==> Tail(r.rest, d) && ParseTimestamp(dia, has, base, Used(d, r.rest) + s) == Ok(r.value, s)
  {
    if has { ParseLeLocal(3, d, s); } else { assert Used(d, d) + s == s; }
  }

  lemma ParseEventBodyLocal(dia: Dialect, id: u16, e: SchemaEntry, base: nat, d: bytes, s: bytes)
    ensures var r := ParseEventBody(dia, id, e, base, d);
            r.Ok? ==> Tail(r.rest, d) && ParseEventBody(dia, id, e, base, Used(d, r.rest) + s) == Ok(r.value, s)
  {
    hide ParseTimestamp, ParseFields;
    var r := ParseEventBody(dia, id, e, base, d);
    if r.Ok? {
      var r1 := ParseTimestamp(dia, e.hasTimestamp, base, d).rest;
      ParseFieldsLocal(dia, Tags(e.fields), r1, s);
      ParseTimestampLocal(dia, e.hasTimestamp, base, d, Used(r1, r.rest) + s);
      Chain(d, r1, r.rest, s);
    }
  }

  lemma ParseEventLocal(dia: Dialect, schemas: map<nat, SchemaEntry>, base: nat, d: bytes, s: bytes)
    ensures var r := ParseEvent(dia, schemas, base, d);
            r.Ok? ==> Tail(r.rest, d) && ParseEvent(dia, schemas, base, Used(d, r.rest) + s) == Ok(r.value, s)
  {
    hide ParseEventBody;
    var r := ParseEvent(dia, schemas, base, d);
    if r.Ok? {
      var r1 := ParseU16(d);
      ParseEventBodyLocal(dia, r1.value, schemas[r1.value], base, r1.rest, s);
      ParseU16Local(d, Used(r1.rest, r.rest) + s);
      Chain(d, r1.rest, r.rest, s);
    }
  }

  lemma ParseBodyLocal(dia: Dialect, tag: byte, schemas: map<nat, SchemaEntry>, base: nat, d: bytes, s: bytes)
    ensures var r := ParseBody(dia, tag, schemas, base, d);
            r.Ok? ==> Tail(r.rest, d) && ParseBody(dia, tag, schemas, base, Used(d, r.rest) + s) == Ok(r.value, s)
  {
    hide ParseSchema, ParseEvent, ParseStringPool, ParseStackPool, ParseAnnotations;
    if tag == SCHEMA_FRAME { ParseSchemaLocal(dia, d, s); }
    else if tag == EVENT_FRAME { ParseEventLocal(dia, schemas, base, d, s); }
    else if tag == STRING_POOL_FRAME { ParseStringPoolLocal(d, s); }
    else if tag == STACK_POOL_FRAME { ParseStackPoolLocal(d, s); }
    else if tag == RESET_FRAME { ParseU64Local(); assert LocalAt(ParseU64, d, s); }
    else if tag == ANNOTATIONS_FRAME { ParseAnnotationsLocal(dia, d, s); }
  }

  /** A decoded frame takes at least one byte and at most all of them, and the bytes it
      takes parse to it whatever follows them. */
  lemma ParseFrameLocal(dia: Dialect, schemas: map<nat, SchemaEntry>, base: nat, d: bytes, s: bytes)
    ensures var r := ParseFrame(dia, schemas, base, d);
            r.Ok? ==>
              |r.rest| < |d| && Tail(r.rest, d) && ParseFrame(dia, schemas, base, Used(d, r.rest) + s) == Ok(r.value, s)
  {
    hide ParseBody;
    var r := ParseFrame(dia, schemas, base, d);
    if r.Ok? {
      ParseBodyLocal(dia, d[0], schemas, base, d[1..], s);
      ByteFirst(d, r.rest, s);
    }
  }

  /** The checked addition keeps timestamps within 64 bits. */
  lemma EventTimeFits(dia: Dialect, schemas: map<nat, SchemaEntry>, base: nat, d: bytes)
    requires dia != Js
    ensures var r := ParseFrame(dia, schemas, base, d);
            r.Ok? && r.value.Event? && r.value.timestamp.Some? ==> r.value.timestamp.value < TWO_TO_THE_64
  {
    hide ParseEntry, ParseFields, Rep, ParseAnnotationList, ParseVarint;
  }

  // ----- how the dialects compare

  lemma NameCommon(a: Dialect, b: Dialect, d: bytes)
    requires a != Js
    ensures ParseName(a, d).Ok? ==> ParseName(b, d) == ParseName(a, d)
  {
  }

  lemma FieldDefsCommon(a: Dialect, b: Dialect, d: bytes)
    requires a != Js
    ensures ParseFieldDefs(a, d).Ok? ==> ParseFieldDefs(b, d) == ParseFieldDefs(a, d)
  {
    if ParseU16(d).Ok? {
      forall x ensures AgreeAt(FieldDefParser(a), FieldDefParser(b), x) { hide ParseName; NameCommon(a, b, x); }
      hide ParseFieldDef;
      RepAgree(FieldDefParser(a), FieldDefParser(b), ParseU16(d).value, ParseU16(d).rest);
    }
  }

  lemma EntryCommon(a: Dialect, b: Dialect, d: bytes)
    requires a != Js
    ensures ParseEntry(a, d).Ok? ==> ParseEntry(b, d) == ParseEntry(a, d)
  {
    hide ParseName, ParseFieldDefs;
    if ParseEntry(a, d).Ok? {
      NameCommon(a, b, d);
      FieldDefsCommon(a, b, ParseName(a, d).rest[1..]);
    }
  }

  lemma AnnotationCommon(a: Dialect, b: Dialect, d: bytes)
    requires a != Js
    ensures AgreeAt(AnnotationParser(a), AnnotationParser(b), d)
  {
    hide ParseName, ParseBlob;
    var r := ParseU16(d);
    if r.Ok? { NameCommon(a, b, r.rest); }
  }

  lemma AnnotationListCommon(a: Dialect, b: Dialect, d: bytes)
    requires a != Js
    ensures ParseAnnotationList(a, d).Ok? ==> ParseAnnotationList(b, d) == ParseAnnotationList(a, d)
  {
    if ParseAnnotationList(a, d).Ok? {
      forall x ensures AgreeAt(AnnotationParser(a), AnnotationParser(b), x) { AnnotationCommon(a, b, x); }
      hide ParseAnnotation;
      RepAgree(AnnotationParser(a), AnnotationParser(b), ParseU16(d).value, ParseU16(d).rest);
    }
  }

  lemma {:induction false} StrictFieldsAreCommon(dia: Dialect, tags: seq<byte>, d: bytes)
    ensures ParseFields(Strict, tags, d).Ok? ==> ParseFields(dia, tags, d) == ParseFields(Strict, tags, d)
  {
    hide ParseField;
    if tags != [] && ParseFields(Strict, tags, d).Ok? {
      StrictFieldIsCommon(dia, tags[0], d);
      StrictFieldsAreCommon(dia, tags[1..], ParseField(Strict, tags[0], d).rest);
    }
  }

  lemma StrictEventIsCommon(dia: Dialect, schemas: map<nat, SchemaEntry>, base: nat, d: bytes)
    ensures ParseEvent(Strict, schemas, base, d).Ok? ==>
              ParseEvent(dia, schemas, base, d) == ParseEvent(Strict, schemas, base, d)
  {
    hide ParseFields;
    if ParseEvent(Strict, schemas, base, d).Ok? {
      var r := ParseU16(d);
      var e := schemas[r.value];
      StrictFieldsAreCommon(dia, Tags(e.fields), ParseTimestamp(Strict, e.hasTimestamp, base, r.rest).rest);
    }
  }

  lemma StrictAnnotationsAreCommon(dia: Dialect, d: bytes)
    ensures ParseAnnotations(Strict, d).Ok? ==> ParseAnnotations(dia, d) == ParseAnnotations(Strict, d)
  {
    hide ParseAnnotationList;
    if ParseAnnotations(Strict, d).Ok? {
      StrictValueIsCommon(dia, VARINT_TAG, d);
      if dia == Js { LebEnough(10, |d|, d); }
      AnnotationListCommon(Strict, dia, ParseVarint(Strict, d).rest);
    }
  }

  lemma StrictSchemaIsCommon(dia: Dialect, d: bytes)
    ensures ParseSchema(Strict, d).Ok? ==> ParseSchema(dia, d) == ParseSchema(Strict, d)
  {
    hide ParseEntry;
    if ParseU16(d).Ok? { EntryCommon(Strict, dia, ParseU16(d).rest); }
  }

  /** A frame that `Strict` accepts reads the same to every decoder. */
  lemma StrictFrameIsCommon(dia: Dialect, schemas: map<nat, SchemaEntry>, base: nat, d: bytes)
    ensures ParseFrame(Strict, schemas, base, d).Ok? ==>
              ParseFrame(dia, schemas, base, d) == ParseFrame(Strict, schemas, base, d)
  {
    hide ParseSchema, ParseEvent, ParseAnnotations, ParseStringPool, ParseStackPool, ParseReset;
    if d != [] {
      StrictSchemaIsCommon(dia, d[1..]);
      StrictEventIsCommon(dia, schemas, base, d[1..]);
      StrictAnnotationsAreCommon(dia, d[1..]);
    }
  }

  /** Every text payload of the frame's values is well-formed UTF-8. */
  predicate FrameTextsValid(f: Frame) {
    f.Event? ==> forall i :: 0 <= i < |f.values| ==> TextsValid(f.values[i])
  }

  lemma RefParsesValidField(tag: byte, d: bytes)
    ensures ParseField(Ref, tag, d) == IfTextsValid(ParseField(Owned, tag, d))
  {
    RefParsesValidTexts(tag, d);
    if d != [] && tag >= OPTIONAL_BIT { RefParsesValidTexts(tag - OPTIONAL_BIT, d[1..]); }
  }

  lemma {:induction false} RefParsesValidFields(tags: seq<byte>, d: bytes)
    ensures var o := ParseFields(Owned, tags, d);
            ParseFields(Ref, tags, d) == if o.Ok? && (forall i :: 0 <= i < |o.value| ==> TextsValid(o.value[i])) then o
                                         else Fail
  {
    hide ParseField, TextsValid;
    var o := ParseFields(Owned, tags, d);
    if tags != [] {
      var r := ParseField(Owned, tags[0], d);
      RefParsesValidField(tags[0], d);
      if r.Ok? {
        RefParsesValidFields(tags[1..], r.rest);
        if o.Ok? {
          var tail := ParseFields(Owned, tags[1..], r.rest).value;
          assert o.value[0] == r.value && o.value[1..] == tail;
          assert forall i :: 0 <= i < |tail| ==> o.value[i + 1] == tail[i];
        }
      }
    }
  }

  lemma RefParsesValidEvents(schemas: map<nat, SchemaEntry>, base: nat, d: bytes)
    ensures var o := ParseEvent(Owned, schemas, base, d);
            ParseEvent(Ref, schemas, base, d) == if o.Ok? && FrameTextsValid(o.value) then o else Fail
  {
    hide ParseFields, TextsValid;
    var r := ParseU16(d);
    if r.Ok? && r.value in schemas {
      var e := schemas[r.value];
      var t := ParseTimestamp(Owned, e.hasTimestamp, base, r.rest);
      if t.Ok? { RefParsesValidFields(Tags(e.fields), t.rest); }
    }
  }

  lemma RefReadsTheSameSchemas(d: bytes)
    ensures ParseSchema(Ref, d) == ParseSchema(Owned, d)
    ensures ParseSchema(Ref, d).Ok? ==> ParseSchema(Ref, d).value.Schema?
    ensures ParseAnnotations(Ref, d) == ParseAnnotations(Owned, d)
    ensures ParseAnnotations(Ref, d).Ok? ==> ParseAnnotations(Ref, d).value.Annotations?
  {
    hide ParseEntry, ParseAnnotationList;
    if ParseU16(d).Ok? {
      EntryCommon(Ref, Owned, ParseU16(d).rest);
      EntryCommon(Owned, Ref, ParseU16(d).rest);
    }
    if ParseVarint(Owned, d).Ok? {
      AnnotationListCommon(Ref, Owned, ParseVarint(Owned, d).rest);
      AnnotationListCommon(Owned, Ref, ParseVarint(Owned, d).rest);
    }
  }

  /** The zero-copy frame decoder succeeds exactly when the owned one does and every
      text payload is UTF-8; then both read the same frame and the same bytes. */
  lemma RefFrameIsOwnedFrame(schemas: map<nat, SchemaEntry>, base: nat, d: bytes)
    ensures var o := ParseFrame(Owned, schemas, base, d);
            ParseFrame(Ref, schemas, base, d) == if o.Ok? && FrameTextsValid(o.value) then o else Fail
  {
    hide ParseSchema, ParseEvent, ParseAnnotations, TextsValid;
    if d != [] {
      RefReadsTheSameSchemas(d[1..]);
      RefParsesValidEvents(schemas, base, d[1..]);
    }
  }

  // ----- encoding

  /** What the encoder writes, a frame or a header: an event carries the delta to the base
      and the field types that its values are written with. */
  datatype Wire =
    | WireSchema(id: u16, entry: SchemaEntry)
    | WireHeader
    | WireEvent(typeId: u16, delta: nat, dynamic: bool, tags: seq<byte>, values: seq<Value>)
    | WireStrings(strings: seq<PoolEntry>)
    | WireStacks(stacks: seq<StackEntry>)
    | WireReset(base: u64)
    | WireAnnotations(schemaId: u16, annotations: seq<Annotation>)

  function U16Le(n: nat): bytes { Le(2, n) }
  function Name(x: bytes): bytes { U16Le(|x|) + x }
  function EncodeFieldDef(f: FieldDef): bytes { Name(f.name) + [f.tag] }
  function EncodePoolEntry(e: PoolEntry): bytes { U32Le(e.id) + Blob(e.data) }
  function EncodeAddresses(xs: seq<u64>): bytes { U32Le(|xs|) + Concat(U64Le, xs) }
  function EncodeStackEntry(e: StackEntry): bytes { U32Le(e.id) + EncodeAddresses(e.frames) }
  function EncodeAnnotation(a: Annotation): bytes { U16Le(a.index) + (Name(a.key) + Blob(a.value)) }

  function EncodeEntry(e: SchemaEntry): bytes {
    Name(e.name) + ([if e.hasTimestamp then 1 else 0] + (U16Le(|e.fields|) + Concat(EncodeFieldDef, e.fields)))
  }

  /** The fields of an event, written by a derived type or by the dynamic path. */
  function EncodeFields(dynamic: bool, tags: seq<byte>, vs: seq<Value>): bytes {
    if tags == [] || vs == [] then []
    else (if dynamic then EncodeDynamicField(tags[0], vs[0]) else EncodeField(tags[0], vs[0]))
         + EncodeFields(dynamic, tags[1..], vs[1..])
  }

  /** encode_schema, encode_string_pool, encode_stack_pool, encode_schema_annotations, the
      reset that encode_timestamp_delta writes, and an event as `write` writes it. */
  function EncodeWire(w: Wire): bytes {
    match w
    case WireHeader => HEADER
    case WireSchema(id, e) => [SCHEMA_FRAME] + (U16Le(id) + EncodeEntry(e))
    case WireEvent(id, delta, dynamic, tags, vs) =>
      [EVENT_FRAME] + (U16Le(id) + (Le(3, delta) + EncodeFields(dynamic, tags, vs)))
    case WireStrings(es) => [STRING_POOL_FRAME] + (U32Le(|es|) + Concat(EncodePoolEntry, es))
    case WireStacks(es) => [STACK_POOL_FRAME] + (U32Le(|es|) + Concat(EncodeStackEntry, es))
    case WireReset(ts) => [RESET_FRAME] + U64Le(ts)
    case WireAnnotations(id, xs) => [ANNOTATIONS_FRAME] + (Leb(id) + (U16Le(|xs|) + Concat(EncodeAnnotation, xs)))
  }

  // ----- what can be encoded

  predicate NameFits(x: bytes) { |x| < 0x1_0000 && Utf8.Valid(x) }

  predicate FieldDefFits(f: FieldDef) { NameFits(f.name) && IsFieldType(f.tag) }

  predicate AnnotationFits(a: Annotation) {
    NameFits(a.key) && |a.value| < TWO_TO_THE_32 && Utf8.Valid(a.value)
  }

  predicate EntryFits(e: SchemaEntry) {
    NameFits(e.name) && |e.fields| < 0x1_0000 && |e.annotations| < 0x1_0000
    && (forall i :: 0 <= i < |e.fields| ==> FieldDefFits(e.fields[i]))
    && (forall i :: 0 <= i < |e.annotations| ==> AnnotationFits(e.annotations[i]))
  }

  predicate FieldsFit(dynamic: bool, tags: seq<byte>, vs: seq<Value>) {
    |tags| == |vs| && forall i :: 0 <= i < |tags| ==>
      if dynamic then FitsDynamicField(tags[i], vs[i]) else FitsField(tags[i], vs[i])
  }

  predicate PoolEntryFits(e: PoolEntry) { |e.data| < TWO_TO_THE_32 }
  predicate StackEntryFits(e: StackEntry) { |e.frames| < TWO_TO_THE_32 }

  predicate WireFits(w: Wire) {
    match w
    case WireSchema(_, e) => EntryFits(e)
    case WireHeader => true
    case WireEvent(_, delta, dynamic, tags, vs) => delta <= MAX_DELTA && FieldsFit(dynamic, tags, vs)
    case WireStrings(es) => |es| < TWO_TO_THE_32 && forall i :: 0 <= i < |es| ==> PoolEntryFits(es[i])
    case WireStacks(es) => |es| < TWO_TO_THE_32 && forall i :: 0 <= i < |es| ==> StackEntryFits(es[i])
    case WireReset(_) => true
    case WireAnnotations(_, xs) => |xs| < 0x1_0000 && forall i :: 0 <= i < |xs| ==> AnnotationFits(xs[i])
  }

  // ----- round trips

  lemma ParseU16Of(n: u16, s: bytes)
    ensures ParseU16(U16Le(n) + s) == Ok(n, s)
  {
    PowersOf256();
    ParseLeOf(2, n, s);
  }

  lemma ParseNameOf(x: bytes, s: bytes)
    requires NameFits(x)
    ensures ParseName(Strict, Name(x) + s) == Ok(x, s)
  {
    assert Name(x) + s == U16Le(|x|) + (x + s);
    ParseU16Of(|x|, x + s);
    TakeOf(x, s);
  }

  lemma FieldDefOf(f: FieldDef, s: bytes)
    requires FieldDefFits(f)
    ensures InvertsAt(FieldDefParser(Strict), EncodeFieldDef, f, s)
  {
    hide ParseName, Name;
    assert EncodeFieldDef(f) + s == Name(f.name) + ([f.tag] + s);
    ParseNameOf(f.name, [f.tag] + s);
    assert ([f.tag] + s)[1..] == s;
  }

  lemma EntryOf(e: SchemaEntry, s: bytes)
    requires EntryFits(e)
    ensures ParseEntry(Strict, EncodeEntry(e) + s) == Ok(e.(annotations := []), s)
  {
    hide ParseName, Name, ParseFieldDef, EncodeFieldDef;
    var defs := Concat(EncodeFieldDef, e.fields) + s;
    var flag := [if e.hasTimestamp then 1 else 0];
    var tail := flag + (U16Le(|e.fields|) + defs);
    assert EncodeEntry(e) + s == Name(e.name) + tail;
    ParseNameOf(e.name, tail);
    assert tail[1..] == U16Le(|e.fields|) + defs;
    ParseU16Of(|e.fields|, defs);
    forall f, t | f in e.fields ensures InvertsAt(FieldDefParser(Strict), EncodeFieldDef, f, t) { FieldDefOf(f, t); }
    RepOfConcat(FieldDefParser(Strict), EncodeFieldDef, e.fields, s);
  }

  lemma PoolEntryOf(e: PoolEntry, s: bytes)
    requires PoolEntryFits(e)
    ensures InvertsAt(ParsePoolEntry, EncodePoolEntry, e, s)
  {
    hide Blob, ParseBlob;
    assert EncodePoolEntry(e) + s == U32Le(e.id) + (Blob(e.data) + s);
    ParseU32Of(e.id, Blob(e.data) + s);
    ParseBlobOf(e.data, s);
  }

  lemma StackEntryOf(e: StackEntry, s: bytes)
    requires StackEntryFits(e)
    ensures InvertsAt(ParseStackEntry, EncodeStackEntry, e, s)
  {
    var xs := Concat(U64Le, e.frames) + s;
    assert EncodeStackEntry(e) + s == U32Le(e.id) + (U32Le(|e.frames|) + xs);
    ParseU32Of(e.id, U32Le(|e.frames|) + xs);
    ParseU32Of(|e.frames|, xs);
    ParseU64sOf(e.frames, s);
  }

  lemma AnnotationOf(a: Annotation, s: bytes)
    requires AnnotationFits(a)
    ensures InvertsAt(AnnotationParser(Strict), EncodeAnnotation, a, s)
  {
    hide ParseName, Name, ParseBlob, Blob;
    var value := Blob(a.value) + s;
    assert EncodeAnnotation(a) + s == U16Le(a.index) + (Name(a.key) + value);
    ParseU16Of(a.index, Name(a.key) + value);
    ParseNameOf(a.key, value);
    ParseBlobOf(a.value, s);
  }

  lemma AnnotationListOf(xs: seq<Annotation>, s: bytes)
    requires |xs| < 0x1_0000 && forall i :: 0 <= i < |xs| ==> AnnotationFits(xs[i])
    ensures ParseAnnotationList(Strict, U16Le(|xs|) + (Concat(EncodeAnnotation, xs) + s)) == Ok(xs, s)
  {
    hide ParseAnnotation, EncodeAnnotation, AnnotationFits;
    ParseU16Of(|xs|, Concat(EncodeAnnotation, xs) + s);
    forall x, t | x in xs ensures InvertsAt(AnnotationParser(Strict), EncodeAnnotation, x, t) { AnnotationOf(x, t); }
    RepOfConcat(AnnotationParser(Strict), EncodeAnnotation, xs, s);
  }

  lemma AnnotationsOf(id: u16, xs: seq<Annotation>, s: bytes)
    requires |xs| < 0x1_0000 && forall i :: 0 <= i < |xs| ==> AnnotationFits(xs[i])
    ensures ParseAnnotations(Strict, Leb(id) + (U16Le(|xs|) + Concat(EncodeAnnotation, xs)) + s)
            == Ok(Annotations(id, xs), s)
  {
    hide ParseAnnotationList, AnnotationFits, Concat, U16Le, Leb, ParseVarint;
    var list := U16Le(|xs|) + (Concat(EncodeAnnotation, xs) + s);
    assert Leb(id) + (U16Le(|xs|) + Concat(EncodeAnnotation, xs)) + s == Leb(id) + list;
    ParseVarintOf(id, list);
    AnnotationListOf(xs, s);
  }

  lemma {:induction false} FieldsOf(dynamic: bool, tags: seq<byte>, vs: seq<Value>, s: bytes)
    requires FieldsFit(dynamic, tags, vs)
    ensures ParseFields(Strict, tags, EncodeFields(dynamic, tags, vs) + s) == Ok(vs, s)
  {
    hide ParseField, EncodeField, FitsField, EncodeDynamicField, FitsDynamicField;
    if tags == [] {
      assert EncodeFields(dynamic, tags, vs) + s == s;
    } else {
      var t := EncodeFields(dynamic, tags[1..], vs[1..]) + s;
      if dynamic { DynamicFieldFits(tags[0], vs[0]); }
      assert EncodeFields(dynamic, tags, vs) + s == EncodeField(tags[0], vs[0]) + t;
      FieldRoundTrip(tags[0], vs[0], t);
      FieldsOf(dynamic, tags[1..], vs[1..], s);
      assert vs == [vs[0]] + vs[1..];
    }
  }

  lemma EventOf(schemas: map<nat, SchemaEntry>, base: nat, w: Wire, s: bytes)
    requires w.WireEvent? && WireFits(w)
    requires w.typeId in schemas && schemas[w.typeId].hasTimestamp && Tags(schemas[w.typeId].fields) == w.tags
    requires base + w.delta < TWO_TO_THE_64
    ensures ParseFrame(Strict, schemas, base, EncodeWire(w) + s)
         == Ok(Event(w.typeId, schemas[w.typeId].name, Some(base + w.delta), w.values), s)
  {
    hide ParseFields, EncodeFields;
    var fields := EncodeFields(w.dynamic, w.tags, w.values) + s;
    assert (EncodeWire(w) + s)[1..] == U16Le(w.typeId) + (Le(3, w.delta) + fields);
    ParseU16Of(w.typeId, Le(3, w.delta) + fields);
    PowersOf256();
    ParseLeOf(3, w.delta, fields);
    FieldsOf(w.dynamic, w.tags, w.values, s);
  }

  /** The frame that a wire frame other than an event stands for. */
  function Meaning(w: Wire): Frame
    requires !w.WireEvent? && !w.WireHeader?
  {
    match w
    case WireSchema(id, e) => Schema(id, e.(annotations := []))
    case WireStrings(es) => StringPool(es)
    case WireStacks(es) => StackPool(es)
    case WireReset(ts) => TimestampReset(ts)
    case WireAnnotations(id, xs) => Annotations(id, xs)
  }

  lemma StringPoolOf(es: seq<PoolEntry>, s: bytes)
    requires WireFits(WireStrings(es))
    ensures ParseStringPool(U32Le(|es|) + Concat(EncodePoolEntry, es) + s) == Ok(StringPool(es), s)
  {
    hide ParsePoolEntry, EncodePoolEntry, PoolEntryFits, U32Le, ParseU32, Rep, Concat;
    CountFirst(|es|, Concat(EncodePoolEntry, es), s);
    forall e, t | e in es ensures InvertsAt(ParsePoolEntry, EncodePoolEntry, e, t) { PoolEntryOf(e, t); }
    RepOfConcat(ParsePoolEntry, EncodePoolEntry, es, s);
  }

  lemma StackPoolOf(es: seq<StackEntry>, s: bytes)
    requires WireFits(WireStacks(es))
    ensures ParseStackPool(U32Le(|es|) + Concat(EncodeStackEntry, es) + s) == Ok(StackPool(es), s)
  {
    hide ParseStackEntry, EncodeStackEntry, StackEntryFits, U32Le, ParseU32, Rep, Concat;
    CountFirst(|es|, Concat(EncodeStackEntry, es), s);
    forall e, t | e in es ensures InvertsAt(ParseStackEntry, EncodeStackEntry, e, t) { StackEntryOf(e, t); }
    RepOfConcat(ParseStackEntry, EncodeStackEntry, es, s);
  }

  lemma SchemaOf(id: u16, e: SchemaEntry, s: bytes)
    requires EntryFits(e)
    ensures ParseSchema(Strict, U16Le(id) + EncodeEntry(e) + s) == Ok(Schema(id, e.(annotations := [])), s)
  {
    hide ParseEntry, EncodeEntry, Le, EntryFits;
    assert U16Le(id) + EncodeEntry(e) + s == U16Le(id) + (EncodeEntry(e) + s);
    ParseU16Of(id, EncodeEntry(e) + s);
    EntryOf(e, s);
  }

  lemma ResetOf(ts: u64, s: bytes)
    ensures ParseReset(U64Le(ts) + s) == Ok(TimestampReset(ts), s)
  {
    PowersOf256();
    ParseLeOf(8, ts, s);
  }

  lemma BehindTag(schemas: map<nat, SchemaEntry>, base: nat, tag: byte, body: bytes, s: bytes)
    ensures ParseFrame(Strict, schemas, base, [tag] + body + s) == ParseBody(Strict, tag, schemas, base, body + s)
  {
    hide ParseBody;
    assert ([tag] + body + s)[1..] == body + s;
  }

  /** Every frame without values is read back from its encoding in any decoder state. */
  lemma FrameOf(schemas: map<nat, SchemaEntry>, base: nat, w: Wire, s: bytes)
    requires !w.WireEvent? && !w.WireHeader? && WireFits(w)
    ensures ParseFrame(Strict, schemas, base, EncodeWire(w) + s) == Ok(Meaning(w), s)
  {
    hide ParseSchema, EncodeEntry, EntryFits, ParseStringPool, ParseStackPool, ParseReset, ParseAnnotations, Concat;
    hide Le, Leb;
    hide PoolEntryFits, StackEntryFits, AnnotationFits, ParseFrame;
    BehindTag(schemas, base, EncodeWire(w)[0], EncodeWire(w)[1..], s);
    assert [EncodeWire(w)[0]] + EncodeWire(w)[1..] == EncodeWire(w);
    match w {
      case WireSchema(id, e) => SchemaOf(id, e, s);
      case WireReset(ts) => ResetOf(ts, s);
      case WireAnnotations(id, xs) => AnnotationsOf(id, xs, s);
      case WireStrings(es) => StringPoolOf(es, s);
      case WireStacks(es) => StackPoolOf(es, s);
    }
  }
}
