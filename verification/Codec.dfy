/** The frame decoders of codec.rs, owned and zero-copy, as loops over a position. */
module Codec {
  import opened Bytes
  import opened Leb128
  import opened Values
  import opened Frames
  import opened View
  import opened ValueDecode
  import opened RefDecode
  import opened Failures
  import Utf8

  /** A reader gave the parse's value and the position behind it. */
  predicate ReadsAt<T(==)>(data: bytes, p: Parsed<T>, r: Option<(T, nat)>) {
    if p.Fail? then r.None?
    else r.Some? && r.value.0 == p.value && r.value.1 <= |data| && data[r.value.1..] == p.rest
  }

  // ----- names

  lemma RustNameAt(data: bytes, at: nat)
    requires at <= |data|
    ensures var n := GetLe(data, at, 2);
            ParseName(Owned, data[at..])
            == if n.Some? && at + 2 + n.value <= |data| && Utf8.Valid(data[at + 2..at + 2 + n.value])
              then Ok(data[at + 2..at + 2 + n.value], data[at + 2 + n.value..]) else Fail
  {
    hide Utf8.Valid, LeVal;
    ShortCountAt(data, at);
    if at + 2 <= |data| { TakeAt(data, at + 2, GetLe(data, at, 2).value); }
  }

  method ReadName(data: bytes, pos: nat) returns (r: Option<(bytes, nat)>)
    requires pos <= |data|
    ensures ReadsAt(data, ParseName(Owned, data[pos..]), r) && (r.Some? ==> pos <= r.value.1)
  {
    hide LeVal, Utf8.Valid, ParseName;
    RustNameAt(data, pos);
    var len :- GetLe(data, pos, 2);
    if pos + 2 + len > |data| { return None; }
    var name := data[pos + 2..pos + 2 + len];
    if !Utf8.Valid(name) { return None; }
    return Some((name, pos + 2 + len));
  }

  // ----- schemas

  method ReadFieldDef(data: bytes, start: nat) returns (r: Option<(FieldDef, nat)>)
    requires start <= |data|
    ensures ReadsAt(data, ParseFieldDef(Owned, data[start..]), r) && (r.Some? ==> start <= r.value.1)
  {
    hide ParseName;
    var name :- ReadName(data, start);
    var pos := name.1;
    var rawTag :- GetByte(data, pos);
    ByteAt(data, pos);
    if !IsFieldType(rawTag) { return None; }
    return Some((FieldDef(name.0, rawTag), pos + 1));
  }

  method ReadFieldDefs(data: bytes, start: nat) returns (r: Option<(seq<FieldDef>, nat)>)
    requires start <= |data|
    ensures ReadsAt(data, ParseFieldDefs(Owned, data[start..]), r) && (r.Some? ==> start <= r.value.1)
  {
    hide LeVal, ParseFieldDef, After, Rep;
    ShortCountAt(data, start);
    var count :- GetLe(data, start, 2);
    var pos, fields: seq<FieldDef> := start + 2, [];
    ghost var all := Rep(FieldDefParser(Owned), count, data[pos..]);
    RepStart(all);
    for i := 0 to count
      invariant start <= pos <= |data| && After(fields, Rep(FieldDefParser(Owned), count - i, data[pos..])) == all
    {
      AfterStep(FieldDefParser(Owned), count - i, data[pos..], fields);
      var f :- ReadFieldDef(data, pos);
      fields, pos := fields + [f.0], f.1;
    }
    RepEnd(FieldDefParser(Owned), data[pos..], fields);
    return Some((fields, pos));
  }

  /** decode_schema_frame */
  method DecodeSchemaFrame(data: bytes) returns (r: Option<(Frame, nat)>)
    requires data != []
    ensures ReadsAt(data, ParseSchema(Owned, data[1..]), r)
  {
    hide LeVal, ParseName, ParseFieldDefs;
    ShortCountAt(data, 1);
    var typeId :- GetLe(data, 1, 2);
    var name :- ReadName(data, 3);
    var pos := name.1;
    var flag :- GetByte(data, pos);
    ByteAt(data, pos);
    var fields :- ReadFieldDefs(data, pos + 1);
    return Some((Schema(typeId, SchemaEntry(name.0, flag != 0, fields.0, [])), fields.1));
  }

  // ----- annotations

  method ReadAnnotation(data: bytes, start: nat) returns (r: Option<(Annotation, nat)>)
    requires start <= |data|
    ensures ReadsAt(data, ParseAnnotation(Owned, data[start..]), r) && (r.Some? ==> start <= r.value.1)
  {
    hide LeVal, ParseName, Utf8.Valid, ParseBlob;
    ShortCountAt(data, start);
    var index :- GetLe(data, start, 2);
    var key :- ReadName(data, start + 2);
    var pos := key.1;
    BlobAt(data, pos);
    var len :- GetLe(data, pos, 4);
    if pos + 4 + len > |data| { return None; }
    var value := data[pos + 4..pos + 4 + len];
    if !Utf8.Valid(value) { return None; }
    return Some((Annotation(index, key.0, value), pos + 4 + len));
  }

  /** decode_schema_annotations_frame */
  method DecodeAnnotationsFrame(data: bytes) returns (r: Option<(Frame, nat)>)
    requires data != []
    ensures ReadsAt(data, ParseAnnotations(Owned, data[1..]), r)
  {
    hide LeVal, ParseAnnotation, After, Rep, ParseLeb;
    var id :- DecodeUnsigned(data[1..]);
    VarintRest(data[1..]);
    var pos := 1 + id.1;
    assert data[pos..] == ParseLeb(10, data[1..]).rest;
    ShortCountAt(data, pos);
    var count :- GetLe(data, pos, 2);
    pos := pos + 2;
    var xs: seq<Annotation> := [];
    ghost var all := Rep(AnnotationParser(Owned), count, data[pos..]);
    RepStart(all);
    for i := 0 to count
      invariant 0 <= pos <= |data| && After(xs, Rep(AnnotationParser(Owned), count - i, data[pos..])) == all
    {
      AfterStep(AnnotationParser(Owned), count - i, data[pos..], xs);
      var a :- ReadAnnotation(data, pos);
      xs, pos := xs + [a.0], a.1;
    }
    RepEnd(AnnotationParser(Owned), data[pos..], xs);
    return Some((Annotations(id.0 % 0x1_0000, xs), pos));
  }

  // ----- pools

  method ReadPoolEntry(data: bytes, start: nat) returns (r: Option<(PoolEntry, nat)>)
    requires start <= |data|
    ensures ReadsAt(data, ParsePoolEntry(data[start..]), r) && (r.Some? ==> start <= r.value.1)
  {
    hide LeVal, ParseBlob;
    CountAt(data, start);
    var poolId :- GetLe(data, start, 4);
    BlobAt(data, start + 4);
    var len :- GetLe(data, start + 4, 4);
    if start + 8 + len > |data| { return None; }
    return Some((PoolEntry(poolId, data[start + 8..start + 8 + len]), start + 8 + len));
  }

  /** decode_string_pool_frame and decode_string_pool_frame_ref: they differ in whether the
      entry's bytes are copied. */
  method DecodeStringPoolFrame(data: bytes) returns (r: Option<(seq<PoolEntry>, nat)>)
    requires data != []
    ensures var p := ParseStringPool(data[1..]);
            if p.Fail? then r.None? else r.Some? && ReadsAt(data, p, Some((StringPool(r.value.0), r.value.1)))
  {
    hide LeVal, ParsePoolEntry, After, Rep;
    CountAt(data, 1);
    var count :- GetLe(data, 1, 4);
    var pos, entries: seq<PoolEntry> := 5, [];
    ghost var all := Rep(ParsePoolEntry, count, data[pos..]);
    RepStart(all);
    for i := 0 to count
      invariant 0 <= pos <= |data| && After(entries, Rep(ParsePoolEntry, count - i, data[pos..])) == all
    {
      AfterStep(ParsePoolEntry, count - i, data[pos..], entries);
      var e :- ReadPoolEntry(data, pos);
      entries, pos := entries + [e.0], e.1;
    }
    RepEnd(ParsePoolEntry, data[pos..], entries);
    return Some((entries, pos));
  }

  method ReadAddresses(data: bytes, start: nat, count: nat) returns (r: Option<(seq<u64>, nat)>)
    requires start <= |data|
    ensures ReadsAt(data, Rep(ParseU64, count, data[start..]), r) && (r.Some? ==> start <= r.value.1)
  {
    hide LeVal, After, Rep;
    var frames: seq<u64>, off := [], start;
    ghost var all := Rep(ParseU64, count, data[start..]);
    RepStart(all);
    for i := 0 to count
      invariant start <= off <= |data| && After(frames, Rep(ParseU64, count - i, data[off..])) == all
    {
      AfterStep(ParseU64, count - i, data[off..], frames);
      LeAt(data, off, 8);
      PowersOf256();
      var addr :- GetLe(data, off, 8);
      frames, off := frames + [addr], off + 8;
    }
    RepEnd(ParseU64, data[off..], frames);
    return Some((frames, off));
  }

  method ReadStackEntry(data: bytes, start: nat) returns (r: Option<(StackEntry, nat)>)
    requires start <= |data|
    ensures ReadsAt(data, ParseStackEntry(data[start..]), r) && (r.Some? ==> start <= r.value.1)
  {
    hide LeVal, Rep;
    CountAt(data, start);
    var poolId :- GetLe(data, start, 4);
    CountAt(data, start + 4);
    var frameCount :- GetLe(data, start + 4, 4);
    var frames :- ReadAddresses(data, start + 8, frameCount);
    return Some((StackEntry(poolId, frames.0), frames.1));
  }

  /** decode_stack_pool_frame */
  method DecodeStackPoolFrame(data: bytes) returns (r: Option<(Frame, nat)>)
    requires data != []
    ensures ReadsAt(data, ParseStackPool(data[1..]), r)
  {
    hide LeVal, ParseStackEntry, After, Rep;
    CountAt(data, 1);
    var count :- GetLe(data, 1, 4);
    var pos, entries: seq<StackEntry> := 5, [];
    ghost var all := Rep(ParseStackEntry, count, data[pos..]);
    RepStart(all);
    for i := 0 to count
      invariant 0 <= pos <= |data| && After(entries, Rep(ParseStackEntry, count - i, data[pos..])) == all
    {
      AfterStep(ParseStackEntry, count - i, data[pos..], entries);
      var e :- ReadStackEntry(data, pos);
      entries, pos := entries + [e.0], e.1;
    }
    RepEnd(ParseStackEntry, data[pos..], entries);
    return Some((StackPool(entries), pos));
  }

  // ----- events

  lemma FieldsTurn(dia: Dialect, tags: seq<byte>, d: bytes, done: seq<Value>)
    requires tags != []
    ensures var p := ParseField(dia, tags[0], d);
            After(done, ParseFields(dia, tags, d)) == if p.Fail? then Fail
                                                      else After(done + [p.value], ParseFields(dia, tags[1..], p.rest))
  {
    hide ParseField;
    var p := ParseField(dia, tags[0], d);
    if p.Ok? && ParseFields(dia, tags[1..], p.rest).Ok? {
      var xs := ParseFields(dia, tags[1..], p.rest).value;
      assert done + ([p.value] + xs) == done + [p.value] + xs;
    }
  }

  lemma FieldsEnd(dia: Dialect, d: bytes, done: seq<Value>)
    ensures After(done, ParseFields(dia, [], d)) == Ok(done, d)
  {
    assert done + [] == done;
  }

  /** One field: a presence byte first when its type is optional. */
  method DecodeOwnedField(tag: byte, data: bytes) returns (r: Option<(Value, bytes)>)
    ensures r == OwnedOf(ParseField(Owned, tag, data))
  {
    hide ParseValue;
    if !IsFieldType(tag) { BadTagFails(tag, data); return None; }
    if tag >= OPTIONAL_BIT {
      if data == [] { return None; }
      if data[0] == 0 { return Some((Absent, data[1..])); }
      r := DecodeOwned(tag - OPTIONAL_BIT, data[1..]);
    } else {
      r := DecodeOwned(tag, data);
    }
  }

  lemma BadTagFails(tag: byte, d: bytes)
    requires !IsFieldType(tag)
    ensures ParseField(Owned, tag, d).Fail? && ParseField(Ref, tag, d).Fail? && !LoudField(Ref, tag, d)
  {
    hide LastTextCut;
  }

  method DecodeOwnedFields(tags: seq<byte>, data: bytes) returns (r: Option<(seq<Value>, bytes)>)
    ensures var p := ParseFields(Owned, tags, data); r == if p.Fail? then None else Some((ReplacedAll(p.value), p.rest))
  {
    hide ParseField, ParseFields, Replaced, ReplacedAll, After;
    var remaining, values: seq<Value> := data, [];
    ghost var raw: seq<Value> := [];
    ghost var all := ParseFields(Owned, tags, data);
    LoopsStart(all, Fail);
    NothingReplaced();
    assert tags[0..] == tags;
    for i := 0 to |tags|
      invariant values == ReplacedAll(raw) && After(raw, ParseFields(Owned, tags[i..], remaining)) == all
    {
      FieldsTurn(Owned, tags[i..], remaining, raw);
      assert tags[i..][1..] == tags[i + 1..];
      ghost var p := ParseField(Owned, tags[i], remaining);
      var v :- DecodeOwnedField(tags[i], remaining);
      ReplacedMore(raw, p.value);
      values, remaining, raw := values + [v.0], v.1, raw + [p.value];
    }
    FieldsEnd(Owned, remaining, raw);
    return Some((values, remaining));
  }

  /** Type id, schema and timestamp: None when cut off, unknown or past the 64 bits. */
  method EventHead(data: bytes, schemas: map<nat, SchemaEntry>, base: u64)
    returns (r: Option<(u16, SchemaEntry, Option<nat>, nat)>)
    requires data != []
    ensures r == HeadOf(data, schemas, base)
  {
    hide LeVal;
    ShortCountAt(data, 1);
    var typeId :- GetLe(data, 1, 2);
    if typeId !in schemas { return None; }
    var info := schemas[typeId];
    if !info.hasTimestamp { return Some((typeId, info, None, 3)); }
    LeAt(data, 3, 3);
    var delta :- GetLe(data, 3, 3);
    if base + delta >= TWO_TO_THE_64 { return None; }
    return Some((typeId, info, Some(base + delta), 6));
  }

  function HeadOf(data: bytes, schemas: map<nat, SchemaEntry>, base: u64): Option<(u16, SchemaEntry, Option<nat>, nat)>
    requires data != []
  {
    var id := ParseU16(data[1..]);
    if id.Fail? || id.value !in schemas then None else
      var info := schemas[id.value];
      var ts := ParseTimestamp(Owned, info.hasTimestamp, base, id.rest);
      if ts.Fail? then None else Some((id.value, info, ts.value, if info.hasTimestamp then 6 else 3))
  }

  lemma EventIs(dia: Dialect, data: bytes, schemas: map<nat, SchemaEntry>, base: u64)
    requires data != [] && (dia == Owned || dia == Ref)
    ensures var h := HeadOf(data, schemas, base);
            (h.Some? ==> h.value.3 <= |data|)
            && ParseEvent(dia, schemas, base, data[1..]) == if h.None? then Fail else
                 match ParseFields(dia, Tags(h.value.1.fields), data[h.value.3..])
                 case Fail => Fail
                 case Ok(vs, rest) => Ok(Event(h.value.0, h.value.1.name, h.value.2, vs), rest)
  {
    hide ParseFields, LeVal;
    ShortCountAt(data, 1);
    if |data| >= 3 { LeAt(data, 3, 3); }
  }

  /** What the owned decoder shows of a frame. */
  function Shown(f: Frame): Frame {
    if f.Event? then f.(values := ReplacedAll(f.values)) else f
  }

  function ShownParse(p: Parsed<Frame>): Parsed<Frame> {
    if p.Fail? then Fail else Ok(Shown(p.value), p.rest)
  }

  /** decode_event_frame */
  method DecodeEventFrame(data: bytes, schemas: map<nat, SchemaEntry>, base: u64) returns (r: Option<(Frame, nat)>)
    requires data != []
    ensures ReadsAt(data, ShownParse(ParseEvent(Owned, schemas, base, data[1..])), r)
  {
    hide HeadOf, ParseFields, ReplacedAll, ParseEvent;
    EventIs(Owned, data, schemas, base);
    var head :- EventHead(data, schemas, base);
    var (typeId, info, timestamp, pos) := head;
    var fields :- DecodeOwnedFields(Tags(info.fields), data[pos..]);
    FieldsRest(Owned, Tags(info.fields), data, pos);
    return Some((Event(typeId, info.name, timestamp, fields.0), |data| - |fields.1|));
  }

  lemma FieldsRest(dia: Dialect, tags: seq<byte>, data: bytes, pos: nat)
    requires pos <= |data| && ParseFields(dia, tags, data[pos..]).Ok?
    ensures var rest := ParseFields(dia, tags, data[pos..]).rest;
            |rest| <= |data| - pos && data[|data| - |rest|..] == rest
  {
    hide ParseFields;
    ParseFieldsLocal(dia, tags, data[pos..], []);
  }

  /** decode_frame */
  method DecodeFrame(data: bytes, schemas: map<nat, SchemaEntry>, base: u64) returns (r: Option<(Frame, nat)>)
    ensures ReadsAt(data, ShownParse(ParseFrame(Owned, schemas, base, data)), r)
  {
    hide ParseSchema, ParseEvent, ParseStringPool, ParseStackPool, ParseAnnotations, LeVal;
    if data == [] { return None; }
    var tag := data[0];
    RefReadsTheSameSchemas(data[1..]);
    OtherBodiesAreNoEvents(data[1..]);
    if tag == SCHEMA_FRAME { r := DecodeSchemaFrame(data); }
    else if tag == EVENT_FRAME { r := DecodeEventFrame(data, schemas, base); }
    else if tag == STRING_POOL_FRAME {
      var p :- DecodeStringPoolFrame(data);
      r := Some((StringPool(p.0), p.1));
    } else if tag == STACK_POOL_FRAME { r := DecodeStackPoolFrame(data); }
    else if tag == RESET_FRAME {
      var ts :- ReadReset(data);
      r := Some((TimestampReset(ts), 9));
    } else if tag == ANNOTATIONS_FRAME { r := DecodeAnnotationsFrame(data); }
    else { r := None; }
  }

  lemma OtherBodiesAreNoEvents(d: bytes)
    ensures ParseStringPool(d).Ok? ==> ParseStringPool(d).value.StringPool?
    ensures ParseStackPool(d).Ok? ==> ParseStackPool(d).value.StackPool?
  {
    hide Rep;
  }

  method ReadReset(data: bytes) returns (r: Option<u64>)
    requires data != []
    ensures var p := ParseReset(data[1..]);
            if p.Fail? then r.None? else r.Some? && |data| >= 9 && p == Ok(TimestampReset(r.value), data[9..])
  {
    hide LeVal;
    LeAt(data, 1, 8);
    PowersOf256();
    r := GetLe(data, 1, 8);
  }

  // ----- zero-copy

  /** StackPoolEntryRef: the addresses stay packed. */
  datatype RawStack = RawStack(id: u32, framesLe: bytes)

  datatype RefFrame =
    | RefSchema(id: u16, entry: SchemaEntry)
    | RefEvent(typeId: u16, name: bytes, timestamp: Option<nat>, values: seq<RefValue>)
    | RefStrings(strings: seq<PoolEntry>)
    | RefStacks(stacks: seq<RawStack>)
    | RefReset(base: u64)
    | RefAnnotations(schemaId: nat, annotations: seq<Annotation>)

  /** to_stack_frames */
  function Unpacked(s: RawStack): StackEntry {
    StackEntry(s.id, FramesIn(s.framesLe, |s.framesLe| / 8))
  }

  function UnpackedAll(ss: seq<RawStack>): (r: seq<StackEntry>)
    ensures |r| == |ss|
  {
    seq(|ss|, i requires 0 <= i < |ss| => Unpacked(ss[i]))
  }

  /** Everything borrowed converted to owned. */
  function Collected(f: RefFrame): Frame {
    match f
    case RefSchema(id, e) => Schema(id, e)
    case RefEvent(id, name, ts, vs) => Event(id, name, ts, ToOwnedAll(vs))
    case RefStrings(es) => StringPool(es)
    case RefStacks(ss) => StackPool(UnpackedAll(ss))
    case RefReset(ts) => TimestampReset(ts)
    case RefAnnotations(id, xs) => Annotations(id, xs)
  }

  function CutFrame(f: Frame): Frame {
    if f.Event? then f.(values := CutAll(f.values)) else f
  }

  /** A zero-copy frame stands for the parsed one, and ends where it ends. Where there is
      none, decoding gives nothing, or panics if `loud`. */
  predicate StandsFor(data: bytes, p: Parsed<Frame>, loud: bool, r: Attempt<(RefFrame, nat)>) {
    if p.Fail? then r == if loud then Loud else Short
    else r.Given? && Collected(r.value.0) == CutFrame(p.value) && r.value.1 <= |data| && data[r.value.1..] == p.rest
  }

  method DecodeRefField(tag: byte, data: bytes, pos: nat) returns (r: Attempt<(RefValue, nat)>)
    requires pos <= |data|
    ensures StandsAt(data, pos, ParseField(Ref, tag, data[pos..]), LoudField(Ref, tag, data[pos..]), r)
  {
    hide ParseValue, LoudValue;
    if !IsFieldType(tag) { BadTagFails(tag, data[pos..]); return Short; }
    var at := pos;
    if tag >= OPTIONAL_BIT {
      var prefix :- Try(GetByte(data, pos));
      ByteAt(data, pos);
      at := pos + 1;
      if prefix == 0 { return Given((Whole(Absent), at)); }
    }
    hide ToOwned, Cut;
    var v :- DecodeRef(tag % OPTIONAL_BIT, data, at);
    RefRest(tag % OPTIONAL_BIT, data, at, LoudValue(Ref, tag % OPTIONAL_BIT, data[at..]), Given(v));
    return Given((v.0, at + v.1));
  }

  predicate FieldsStandAt(data: bytes, p: Parsed<seq<Value>>, loud: bool, r: Attempt<(seq<RefValue>, nat)>) {
    if p.Fail? then r == if loud then Loud else Short
    else r.Given? && ToOwnedAll(r.value.0) == CutAll(p.value) && r.value.1 <= |data| && data[r.value.1..] == p.rest
  }

  method DecodeRefFields(tags: seq<byte>, data: bytes, start: nat) returns (r: Attempt<(seq<RefValue>, nat)>)
    requires start <= |data|
    ensures FieldsStandAt(data, ParseFields(Ref, tags, data[start..]), LoudFields(Ref, tags, data[start..]), r)
  {
    hide ParseField, ParseFields, ToOwned, Cut, ToOwnedAll, CutAll, After, LoudField, LoudFields;
    var pos, values: seq<RefValue> := start, [];
    ghost var raw: seq<Value> := [];
    ghost var all, loud := ParseFields(Ref, tags, data[start..]), LoudFields(Ref, tags, data[start..]);
    LoopsStart(all, Fail);
    NothingCut();
    assert tags[0..] == tags;
    for i := 0 to |tags|
      invariant 0 <= pos <= |data| && ToOwnedAll(values) == CutAll(raw)
      invariant After(raw, ParseFields(Ref, tags[i..], data[pos..])) == all
      invariant LoudFields(Ref, tags[i..], data[pos..]) == loud
    {
      FieldsTurn(Ref, tags[i..], data[pos..], raw);
      LoudFieldsTurn(Ref, tags[i..], data[pos..]);
      assert tags[i..][1..] == tags[i + 1..];
      ghost var p := ParseField(Ref, tags[i], data[pos..]);
      var v :- DecodeRefField(tags[i], data, pos);
      OneMoreCut(values, raw, v.0, p.value);
      values, pos, raw := values + [v.0], v.1, raw + [p.value];
    }
    FieldsEnd(Ref, data[pos..], raw);
    return Given((values, pos));
  }

  /** When an event panics: its head can be read, and then one of its fields does. */
  lemma LoudEventIs(data: bytes, schemas: map<nat, SchemaEntry>, base: u64)
    requires data != []
    ensures var h := HeadOf(data, schemas, base);
            LoudEvent(Ref, schemas, base, data[1..])
            == (h.Some? && h.value.3 <= |data| && LoudFields(Ref, Tags(h.value.1.fields), data[h.value.3..]))
  {
    hide LoudFields, LeVal;
    ShortCountAt(data, 1);
    if |data| >= 3 { LeAt(data, 3, 3); }
  }

  /** decode_event_frame_ref */
  method DecodeEventFrameRef(data: bytes, schemas: map<nat, SchemaEntry>, base: u64)
    returns (r: Attempt<(RefFrame, nat)>)
    requires data != []
    ensures StandsFor(data, ParseEvent(Ref, schemas, base, data[1..]), LoudEvent(Ref, schemas, base, data[1..]), r)
  {
    hide HeadOf, ParseFields, ParseEvent, ToOwnedAll, CutAll, LoudFields, LoudEvent;
    EventIs(Ref, data, schemas, base);
    LoudEventIs(data, schemas, base);
    var h := EventHead(data, schemas, base);
    var head :- Try(h);
    var (typeId, info, timestamp, pos) := head;
    var fields :- DecodeRefFields(Tags(info.fields), data, pos);
    return Given((RefEvent(typeId, info.name, timestamp, fields.0), fields.1));
  }

  method ReadRawStack(data: bytes, start: nat) returns (r: Option<(RawStack, nat)>)
    requires start <= |data|
    ensures var p := ParseStackEntry(data[start..]);
            if p.Fail? then r.None?
            else
              r.Some? && Unpacked(r.value.0) == p.value && start <= r.value.1 <= |data|
              && data[r.value.1..] == p.rest
  {
    hide LeVal, Rep, FramesIn;
    CountAt(data, start);
    var poolId :- GetLe(data, start, 4);
    CountAt(data, start + 4);
    var frameCount :- GetLe(data, start + 4, 4);
    var pos := start + 8;
    var size := frameCount * 8;
    AddressesFit(frameCount, data[pos..]);
    if pos + size > |data| { return None; }
    RawFramesAre(data, pos, frameCount, data[pos + size..]);
    return Some((RawStack(poolId, data[pos..pos + size]), pos + size));
  }

  lemma UnpackedMore(ss: seq<RawStack>, s: RawStack)
    ensures UnpackedAll(ss + [s]) == UnpackedAll(ss) + [Unpacked(s)]
  {
    hide Unpacked;
  }

  /** decode_stack_pool_frame_ref */
  method DecodeStackPoolFrameRef(data: bytes) returns (r: Attempt<(RefFrame, nat)>)
    requires data != []
    ensures StandsFor(data, ParseStackPool(data[1..]), false, r)
  {
    hide LeVal, ParseStackEntry, After, Rep, Unpacked;
    CountAt(data, 1);
    var count :- Try(GetLe(data, 1, 4));
    var pos, entries: seq<RawStack> := 5, [];
    ghost var all := Rep(ParseStackEntry, count, data[pos..]);
    RepStart(all);
    assert UnpackedAll(entries) == [];
    for i := 0 to count
      invariant 0 <= pos <= |data| && After(UnpackedAll(entries), Rep(ParseStackEntry, count - i, data[pos..])) == all
    {
      AfterStep(ParseStackEntry, count - i, data[pos..], UnpackedAll(entries));
      var s := ReadRawStack(data, pos);
      var e :- Try(s);
      UnpackedMore(entries, e.0);
      entries, pos := entries + [e.0], e.1;
    }
    RepEnd(ParseStackEntry, data[pos..], UnpackedAll(entries));
    return Given((RefStacks(entries), pos));
  }

  /** decode_frame_ref: it panics exactly on an event whose string map is cut off in its
      last value. */
  method DecodeFrameRef(data: bytes, schemas: map<nat, SchemaEntry>, base: u64) returns (r: Attempt<(RefFrame, nat)>)
    ensures StandsFor(data, ParseFrame(Ref, schemas, base, data), LoudFrame(Ref, schemas, base, data), r)
  {
    hide ParseSchema, ParseEvent, ParseStringPool, ParseStackPool, ParseAnnotations, LeVal, LoudEvent;
    if data == [] { return Short; }
    var tag := data[0];
    RefReadsTheSameSchemas(data[1..]);
    OtherBodiesAreNoEvents(data[1..]);
    if tag == SCHEMA_FRAME {
      var s := DecodeSchemaFrame(data);
      var f :- Try(s);
      r := Given((RefSchema(f.0.id, f.0.entry), f.1));
    } else if tag == EVENT_FRAME { r := DecodeEventFrameRef(data, schemas, base); }
    else if tag == STRING_POOL_FRAME {
      var s := DecodeStringPoolFrame(data);
      var p :- Try(s);
      r := Given((RefStrings(p.0), p.1));
    } else if tag == STACK_POOL_FRAME { r := DecodeStackPoolFrameRef(data); }
    else if tag == RESET_FRAME {
      var t := ReadReset(data);
      var ts :- Try(t);
      r := Given((RefReset(ts), 9));
    } else if tag == ANNOTATIONS_FRAME {
      var a := DecodeAnnotationsFrame(data);
      var f :- Try(a);
      r := Given((RefAnnotations(f.0.schemaId, f.0.annotations), f.1));
    } else { r := Short; }
  }

  predicate FrameMapsValid(f: Frame) {
    f.Event? ==> forall i :: 0 <= i < |f.values| ==> MapsValid(f.values[i])
  }

  /** Owned and zero-copy frame decoding: whenever the owned decoder reads a frame whose
      text payloads are UTF-8, the zero-copy one reads the same bytes, and its frame,
      converted, is the owned one exactly when the string maps are UTF-8 too. */
  lemma FramesAgree(data: bytes, schemas: map<nat, SchemaEntry>, base: u64, owned: Option<(Frame, nat)>,
                    zero: Attempt<(RefFrame, nat)>)
    requires ReadsAt(data, ShownParse(ParseFrame(Owned, schemas, base, data)), owned)
    requires StandsFor(data, ParseFrame(Ref, schemas, base, data), LoudFrame(Ref, schemas, base, data), zero)
    ensures zero.Given? <==> owned.Some? && FrameTextsValid(ParseFrame(Owned, schemas, base, data).value)
    ensures zero.Given? ==> zero.value.1 == owned.value.1
    ensures zero.Given? ==> (Collected(zero.value.0) == owned.value.0 <==> FrameMapsValid(owned.value.0))
  {
    hide ParseFrame, LoudFrame, Collected, Replaced, Cut, TextsValid, MapsValid;
    RefFrameIsOwnedFrame(schemas, base, data);
    var p := ParseFrame(Owned, schemas, base, data);
    if zero.Given? {
      assert |data[zero.value.1..]| == |data[owned.value.1..]|;
      if p.value.Event? {
        forall i | 0 <= i < |p.value.values|
          ensures Replaced(p.value.values[i]) == p.value.values[i]
          ensures Cut(p.value.values[i]) == p.value.values[i] <==> MapsValid(p.value.values[i])
        {
          ReplacedKeepsExactlyValid(p.value.values[i]);
          CutKeepsExactlyValid(p.value.values[i]);
        }
        assert ReplacedAll(p.value.values) == p.value.values;
        assert CutAll(p.value.values) == p.value.values <==> FrameMapsValid(p.value) by { CutAllIff(p.value.values); }
      }
    }
  }

  lemma CutAllIff(vs: seq<Value>)
    requires forall i :: 0 <= i < |vs| ==> (Cut(vs[i]) == vs[i] <==> MapsValid(vs[i]))
    ensures CutAll(vs) == vs <==> forall i :: 0 <= i < |vs| ==> MapsValid(vs[i])
  {
    hide Cut, MapsValid;
    if CutAll(vs) == vs {
      forall i | 0 <= i < |vs| ensures MapsValid(vs[i]) { assert CutAll(vs)[i] == vs[i]; }
    }
  }
}
