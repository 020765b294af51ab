/** The decoder of decode.js: decodeFieldValue and the TraceDecoder object. */
module JsDecoder {
  import opened Bytes
  import opened Values
  import opened Frames
  import opened Machine
  import opened View
  import opened ValueDecode
  import opened ValueSizes
  import opened Failures
  import opened Codec
  import opened Pulls

  // ----- decodeFieldValue

  /** [value, size] for a value that starts at `offset`. Otherwise an exception: a
      RangeError, or another one if `loud`. */
  predicate Reads<T(==)>(view: bytes, offset: nat, p: Parsed<T>, loud: bool, r: Attempt<(T, nat)>) {
    if p.Fail? then r == if loud then Loud else Short
    else r.Given? && r.value.0 == p.value && offset + r.value.1 <= |view| && view[offset + r.value.1..] == p.rest
  }

  /** The same with the position behind the value. */
  predicate ReadsOn<T(==)>(view: bytes, p: Parsed<T>, loud: bool, r: Attempt<(T, nat)>) {
    if p.Fail? then r == if loud then Loud else Short
    else r.Given? && r.value.0 == p.value && r.value.1 <= |view| && view[r.value.1..] == p.rest
  }

  lemma JsElementAt(view: bytes, at: nat)
    requires at <= |view|
    ensures ParseItem(Js, view[at..]) == if at < |view| then ParseField(Js, view[at], view[at + 1..]) else Fail
  {
    hide ParseField;
    if at < |view| { ByteAt(view, at); }
  }

  /** decodeFieldValue */
  method DecodeFieldValue(view: bytes, offset: nat, fieldType: byte) returns (r: Attempt<(Value, nat)>)
    requires offset <= |view|
    ensures Reads(view, offset, ParseField(Js, fieldType, view[offset..]), LoudField(Js, fieldType, view[offset..]), r)
    decreases |view| - offset, 2
  {
    hide ParseValue;
    if fieldType >= OPTIONAL_BIT {
      var prefix :- Try(GetByte(view, offset));
      ByteAt(view, offset);
      if prefix == 0 { return Given((Absent, 1)); }
      var inner :- DecodeFieldValue(view, offset + 1, fieldType - OPTIONAL_BIT);
      return Given((inner.0, 1 + inner.1));
    }
    r := DecodePlain(view, offset, fieldType);
  }

  method DecodePlain(view: bytes, offset: nat, tag: byte) returns (r: Attempt<(Value, nat)>)
    requires offset <= |view| && tag < OPTIONAL_BIT
    ensures Reads(view, offset, ParseValue(Js, tag, view[offset..]), LoudValue(Js, tag, view[offset..]), r)
    decreases |view| - offset, 1
  {
    hide ParseStackFrames, ParseStringMap, ParseBlob, ParseLe, ParseVarint, LeVal;
    if IsFixed(tag) {
      LeAt(view, offset, FixedWidth(tag));
      var n :- Try(GetLe(view, offset, FixedWidth(tag)));
      r := Given((FixedValue(tag, n), FixedWidth(tag)));
    } else if tag == STRING_TAG || tag == BYTES_TAG {
      BlobAt(view, offset);
      var len :- Try(GetLe(view, offset, 4));
      if offset + 4 + len > |view| { return Short; }
      var x := view[offset + 4..offset + 4 + len];
      r := Given((if tag == STRING_TAG then String(x) else Bytes(x), 4 + len));
    } else if tag == VARINT_TAG {
      var leb := DecodeULEB128(view, offset);
      var v :- Try(leb);
      VarintEndsInside(view, offset);
      r := Given((Varint(v.0), v.1));
    } else if tag == STACK_TAG {
      r := DecodeStackFrames(view, offset);
    } else if tag == STRING_MAP_TAG {
      r := DecodeStringMap(view, offset);
    } else if tag == LIST_TAG {
      r := DecodeList(view, offset);
    } else if tag == MAP_TAG {
      r := DecodeMap(view, offset);
    } else {
      r := Loud;
    }
  }

  method DecodeStackFrames(view: bytes, offset: nat) returns (r: Attempt<(Value, nat)>)
    requires offset <= |view|
    ensures Reads(view, offset, ParseStackFrames(view[offset..]), false, r)
  {
    hide LeVal, Rep;
    CountAt(view, offset);
    var count :- Try(GetLe(view, offset, 4));
    var read := ReadAddresses(view, offset + 4, count);
    var addrs :- Try(read);
    return Given((StackFrames(addrs.0), addrs.1 - offset));
  }

  method DecodeStringMap(view: bytes, offset: nat) returns (r: Attempt<(Value, nat)>)
    requires offset <= |view|
    ensures Reads(view, offset, ParseStringMap(view[offset..]), false, r)
  {
    hide LeVal, ParseBlob, After, Rep;
    CountAt(view, offset);
    var count :- Try(GetLe(view, offset, 4));
    var pairs: seq<(bytes, bytes)>, pos := [], offset + 4;
    ghost var all := Rep(ParseTextPair, count, view[pos..]);
    RepStart(all);
    for i := 0 to count
      invariant offset + 4 <= pos <= |view| && After(pairs, Rep(ParseTextPair, count - i, view[pos..])) == all
    {
      AfterStep(ParseTextPair, count - i, view[pos..], pairs);
      BlobAt(view, pos);
      var kLen :- Try(GetLe(view, pos, 4));
      pos := pos + 4;
      if pos + kLen > |view| { return Short; }
      var key := view[pos..pos + kLen];
      pos := pos + kLen;
      BlobAt(view, pos);
      var vLen :- Try(GetLe(view, pos, 4));
      pos := pos + 4;
      if pos + vLen > |view| { return Short; }
      var val := view[pos..pos + vLen];
      pos := pos + vLen;
      pairs := pairs + [(key, val)];
    }
    RepEnd(ParseTextPair, view[pos..], pairs);
    return Given((StringMap(pairs), pos - offset));
  }

  /** A tag byte and the value behind it. Gives the position behind both. */
  method DecodeElement(view: bytes, at: nat) returns (r: Attempt<(Value, nat)>)
    requires at <= |view|
    ensures ReadsOn(view, ParseItem(Js, view[at..]), LoudItem(Js, view[at..]), r) && (r.Given? ==> at < r.value.1)
    decreases |view| - at, 3
  {
    hide ParseItem, ParseField, LoudField;
    JsElementAt(view, at);
    var tag :- Try(GetByte(view, at));
    var v :- DecodeFieldValue(view, at + 1, tag);
    return Given((v.0, at + 1 + v.1));
  }

  method DecodeList(view: bytes, offset: nat) returns (r: Attempt<(Value, nat)>)
    requires offset <= |view|
    ensures Reads(view, offset, ParseValue(Js, LIST_TAG, view[offset..]), LoudValue(Js, LIST_TAG, view[offset..]), r)
    decreases |view| - offset, 0
  {
    hide LeVal, ParseValue, ParseItem, ParseItems, After, LoudValue, LoudItem, LoudItems;
    CountAt(view, offset);
    ContainersAre(Js, view[offset..]);
    LoudContainersAre(Js, view[offset..]);
    var count :- Try(GetLe(view, offset, 4));
    var pos, items: seq<Value> := offset + 4, [];
    ghost var all, loud := ParseItems(Js, count, view[pos..]), LoudItems(Js, count, view[pos..]);
    LoopsStart(all, Fail);
    for i := 0 to count
      invariant offset + 4 <= pos <= |view| && After(items, ParseItems(Js, count - i, view[pos..])) == all
      invariant LoudItems(Js, count - i, view[pos..]) == loud
    {
      ItemsTurn(Js, count - i, view[pos..], items);
      LoudTurn(Js, count - i, view[pos..]);
      ReadIsQuiet(Js, view[pos..]);
      var v :- DecodeElement(view, pos);
      items, pos := items + [v.0], v.1;
    }
    LoudTurn(Js, 0, view[pos..]);
    LoopsDone(Js, view[pos..], items, []);
    return Given((List(items), pos - offset));
  }

  method DecodeMap(view: bytes, offset: nat) returns (r: Attempt<(Value, nat)>)
    requires offset <= |view|
    ensures Reads(view, offset, ParseValue(Js, MAP_TAG, view[offset..]), LoudValue(Js, MAP_TAG, view[offset..]), r)
    decreases |view| - offset, 0
  {
    hide LeVal, ParseValue, ParseItem, ParseEntries, After, LoudValue, LoudItem, LoudEntries;
    CountAt(view, offset);
    ContainersAre(Js, view[offset..]);
    LoudContainersAre(Js, view[offset..]);
    var count :- Try(GetLe(view, offset, 4));
    var pos, entries: seq<Entry> := offset + 4, [];
    ghost var all, loud := ParseEntries(Js, count, view[pos..]), LoudEntries(Js, count, view[pos..]);
    LoopsStart(Fail, all);
    for i := 0 to count
      invariant offset + 4 <= pos <= |view| && After(entries, ParseEntries(Js, count - i, view[pos..])) == all
      invariant LoudEntries(Js, count - i, view[pos..]) == loud
    {
      EntriesTurn(Js, count - i, view[pos..], entries);
      LoudTurn(Js, count - i, view[pos..]);
      ReadIsQuiet(Js, view[pos..]);
      var k :- DecodeElement(view, pos);
      pos := k.1;
      ReadIsQuiet(Js, view[pos..]);
      var v :- DecodeElement(view, pos);
      entries, pos := entries + [Entry(k.0, v.0)], v.1;
    }
    LoudTurn(Js, 0, view[pos..]);
    LoopsDone(Js, view[pos..], [], entries);
    return Given((Map(entries), pos - offset));
  }

  /** slice.js's fieldSize agrees with the byte count that decodeFieldValue reports, for
      every field type, offset and buffer on which decoding succeeds. */
  method SizeOfDecoded(view: bytes, offset: nat, fieldType: byte)
    returns (decoded: Attempt<(Value, nat)>, size: Option<nat>)
    requires offset <= |view|
    ensures decoded.Given? ==> size == Some(decoded.value.1)
  {
    hide ParseField;
    decoded := DecodeFieldValue(view, offset, fieldType);
    size := FieldSize(view, offset, fieldType);
    if decoded.Given? { assert |view[offset + decoded.value.1..]| == |view| - offset - decoded.value.1; }
  }

  // ----- frames

  method JsName(view: bytes, pos: nat, width: nat) returns (r: Option<(bytes, nat)>)
    requires pos <= |view|
    ensures r == match GetLe(view, pos, width) case None => None
                 case Some(n) =>
                   var at := pos + width;
                   if at + n <= |view| then Some((view[at..at + n], at + n)) else None
  {
    hide LeVal;
    var len :- GetLe(view, pos, width);
    if pos + width + len > |view| { return None; }
    return Some((view[pos + width..pos + width + len], pos + width + len));
  }

  method JsFieldDefs(view: bytes, start: nat) returns (r: Option<(seq<FieldDef>, nat)>)
    requires start <= |view|
    ensures ReadsAt(view, ParseFieldDefs(Js, view[start..]), r)
  {
    hide LeVal, ParseName, After, Rep;
    ShortCountAt(view, start);
    var count :- GetLe(view, start, 2);
    var pos, fields: seq<FieldDef> := start + 2, [];
    ghost var all := Rep(FieldDefParser(Js), count, view[pos..]);
    RepStart(all);
    for i := 0 to count
      invariant 0 <= pos <= |view| && After(fields, Rep(FieldDefParser(Js), count - i, view[pos..])) == all
    {
      AfterStep(FieldDefParser(Js), count - i, view[pos..], fields);
      NameAt(view, pos);
      var name :- JsName(view, pos, 2);
      pos := name.1;
      var ft :- GetByte(view, pos);
      ByteAt(view, pos);
      pos := pos + 1;
      fields := fields + [FieldDef(name.0, ft)];
    }
    RepEnd(FieldDefParser(Js), view[pos..], fields);
    return Some((fields, pos));
  }

  /** _decodeSchema, behind the tag */
  method JsSchema(view: bytes, start: nat) returns (r: Option<(Frame, nat)>)
    requires start <= |view|
    ensures ReadsAt(view, ParseSchema(Js, view[start..]), r)
  {
    hide LeVal, ParseName, ParseFieldDefs;
    ShortCountAt(view, start);
    var typeId :- GetLe(view, start, 2);
    NameAt(view, start + 2);
    var name :- JsName(view, start + 2, 2);
    var pos := name.1;
    var flag :- GetByte(view, pos);
    ByteAt(view, pos);
    var fields :- JsFieldDefs(view, pos + 1);
    return Some((Schema(typeId, SchemaEntry(name.0, flag != 0, fields.0, [])), fields.1));
  }

  method JsAnnotation(view: bytes, start: nat) returns (r: Option<(Annotation, nat)>)
    requires start <= |view|
    ensures ReadsAt(view, ParseAnnotation(Js, view[start..]), r)
  {
    hide LeVal, ParseName, ParseBlob;
    ShortCountAt(view, start);
    var index :- GetLe(view, start, 2);
    NameAt(view, start + 2);
    var key :- JsName(view, start + 2, 2);
    BlobAt(view, key.1);
    var value :- JsName(view, key.1, 4);
    return Some((Annotation(index, key.0, value.0), value.1));
  }

  /** _decodeSchemaAnnotations, behind the tag */
  method JsAnnotations(view: bytes, start: nat) returns (r: Option<(Frame, nat)>)
    requires start <= |view|
    ensures ReadsAt(view, ParseAnnotations(Js, view[start..]), r)
  {
    hide LeVal, ParseAnnotation, After, Rep, ParseVarint;
    var id :- DecodeULEB128(view, start);
    VarintEndsInside(view, start);
    var pos := start + id.1;
    ShortCountAt(view, pos);
    var count :- GetLe(view, pos, 2);
    pos := pos + 2;
    var xs: seq<Annotation> := [];
    ghost var all := Rep(AnnotationParser(Js), count, view[pos..]);
    RepStart(all);
    for i := 0 to count
      invariant 0 <= pos <= |view| && After(xs, Rep(AnnotationParser(Js), count - i, view[pos..])) == all
    {
      AfterStep(AnnotationParser(Js), count - i, view[pos..], xs);
      var a :- JsAnnotation(view, pos);
      xs, pos := xs + [a.0], a.1;
    }
    RepEnd(AnnotationParser(Js), view[pos..], xs);
    return Some((Annotations(id.0, xs), pos));
  }

  method JsReset(view: bytes, start: nat) returns (r: Attempt<(Frame, nat)>)
    requires start <= |view|
    ensures ReadsOn(view, ParseReset(view[start..]), false, r)
  {
    hide LeVal;
    LeAt(view, start, 8);
    PowersOf256();
    var ts :- Try(GetLe(view, start, 8));
    return Given((TimestampReset(ts), start + 8));
  }

  method JsFields(view: bytes, start: nat, tags: seq<byte>) returns (r: Attempt<(seq<Value>, nat)>)
    requires start <= |view|
    ensures ReadsOn(view, ParseFields(Js, tags, view[start..]), LoudFields(Js, tags, view[start..]), r)
  {
    hide ParseField, ParseFields, After, LoudField, LoudFields;
    var pos, values: seq<Value> := start, [];
    ghost var all, loud := ParseFields(Js, tags, view[start..]), LoudFields(Js, tags, view[start..]);
    LoopsStart(all, Fail);
    assert tags[0..] == tags;
    for i := 0 to |tags|
      invariant 0 <= pos <= |view| && After(values, ParseFields(Js, tags[i..], view[pos..])) == all
      invariant LoudFields(Js, tags[i..], view[pos..]) == loud
    {
      FieldsTurn(Js, tags[i..], view[pos..], values);
      LoudFieldsTurn(Js, tags[i..], view[pos..]);
      assert tags[i..][1..] == tags[i + 1..];
      var v :- DecodeFieldValue(view, pos, tags[i]);
      values, pos := values + [v.0], pos + v.1;
    }
    FieldsEnd(Js, view[pos..], values);
    return Given((values, pos));
  }

  /** null, at the end or at a frame that is cut off; an exception; or a frame. */
  datatype Answer = Null | Thrown | Next(frame: Frame)

  /** A run that comes to a frame that makes nextFrame throw. */
  predicate StopsThrowing(o: Outcome) {
    o.ending.Stopped? && LoudFrame(Js, o.st.cache, o.st.base, o.rest)
  }

  lemma JsStringsTurn(m: map<nat, bytes>, es: seq<PoolEntry>, i: nat)
    requires i < |es|
    ensures AddStrings(Js, m, es[i..]) == AddStrings(Js, m[es[i].id := es[i].data], es[i + 1..])
  {
    assert es[i..][1..] == es[i + 1..];
  }

  lemma JsStacksTurn(m: map<nat, seq<u64>>, es: seq<StackEntry>, i: nat)
    requires i < |es|
    ensures AddStacks(Js, m, es[i..]) == AddStacks(Js, m[es[i].id := es[i].frames], es[i + 1..])
  {
    assert es[i..][1..] == es[i + 1..];
  }

  /** The schema table is one map; the state's two copies of it agree. */
  class TraceDecoder {
    const view: bytes
    var pos: nat
    var version: nat
    var schemas: map<nat, SchemaEntry>
    var stringPool: map<nat, bytes>
    var stackPool: map<nat, seq<u64>>
    var timestampBaseNs: nat

    function State(): DecState
      reads this
    {
      DecState(schemas, schemas, stringPool, stackPool, timestampBaseNs)
    }

    predicate Valid()
      reads this
    {
      pos <= |view|
    }

    function Rest(): bytes
      reads this
      requires Valid()
    {
      view[pos..]
    }

    constructor (buffer: bytes)
      ensures Valid() && State() == FRESH && view == buffer && pos == 0
    {
      view := buffer;
      pos, version, timestampBaseNs := 0, 0, 0;
      schemas, stringPool, stackPool := map[], map[], map[];
    }

    method DecodeHeader() returns (ok: bool)
      requires Valid()
      modifies this`pos, this`version
      ensures Valid() && ok == HeaderAt(old(Rest()))
      ensures ok ==> pos == old(pos) + 5 && Rest() == old(Rest())[5..] && version == old(Rest())[4]
      ensures !ok ==> pos == old(pos)
    {
      if pos + 5 > |view| || view[pos..][..4] != MAGIC { return false; }
      version := view[pos + 4];
      pos := pos + 5;
      return true;
    }

    method SetStrings(es: seq<PoolEntry>)
      modifies this`stringPool
      ensures AddStrings(Js, old(stringPool), es) == Some(stringPool)
    {
      assert es[0..] == es;
      for i := 0 to |es|
        invariant AddStrings(Js, stringPool, es[i..]) == AddStrings(Js, old(stringPool), es)
      {
        JsStringsTurn(stringPool, es, i);
        stringPool := stringPool[es[i].id := es[i].data];
      }
    }

    method SetStacks(es: seq<StackEntry>)
      modifies this`stackPool
      ensures AddStacks(Js, old(stackPool), es) == Some(stackPool)
    {
      assert es[0..] == es;
      for i := 0 to |es|
        invariant AddStacks(Js, stackPool, es[i..]) == AddStacks(Js, old(stackPool), es)
      {
        JsStacksTurn(stackPool, es, i);
        stackPool := stackPool[es[i].id := es[i].frames];
      }
    }

    /** _decodeEvent: the delta is added without bound; an unknown id throws. */
    method DecodeEvent() returns (r: Attempt<(Frame, nat)>)
      requires Valid() && pos < |view|
      ensures var d := view[pos + 1..];
              ReadsOn(view, ParseEvent(Js, schemas, timestampBaseNs, d), LoudEvent(Js, schemas, timestampBaseNs, d), r)
    {
      hide LeVal, ParseFields, LoudFields;
      var at := pos + 1;
      ShortCountAt(view, at);
      var typeId :- Try(GetLe(view, at, 2));
      if typeId !in schemas { return Loud; }
      var schema := schemas[typeId];
      at := at + 2;
      var timestamp := None;
      if schema.hasTimestamp {
        LeAt(view, at, 3);
        var delta :- Try(GetLe(view, at, 3));
        timestamp := Some(timestampBaseNs + delta);
        at := at + 3;
      }
      var values :- JsFields(view, at, Tags(schema.fields));
      return Given((Event(typeId, schema.name, timestamp, values.0), values.1));
    }

    /** The switch of nextFrame: one frame, read but not yet applied. An unknown tag
        throws. */
    method DecodeOne() returns (r: Attempt<(Frame, nat)>)
      requires Valid() && pos < |view|
      ensures ReadsOn(view, ParseFrame(Js, schemas, timestampBaseNs, Rest()),
                      LoudFrame(Js, schemas, timestampBaseNs, Rest()), r)
    {
      hide ParseSchema, ParseEvent, ParseStringPool, ParseStackPool, ParseReset, ParseAnnotations, LoudEvent;
      var tag := view[pos];
      ByteAt(view, pos);
      if tag == SCHEMA_FRAME {
        var s := JsSchema(view, pos + 1);
        r := Try(s);
      } else if tag == EVENT_FRAME { r := DecodeEvent(); }
      else if tag == STRING_POOL_FRAME {
        var s := DecodeStringPoolFrame(view[pos..]);
        var p :- Try(s);
        r := Given((StringPool(p.0), pos + p.1));
      } else if tag == STACK_POOL_FRAME {
        var s := DecodeStackPoolFrame(view[pos..]);
        var p :- Try(s);
        r := Given((p.0, pos + p.1));
      } else if tag == RESET_FRAME { r := JsReset(view, pos + 1); }
      else if tag == ANNOTATIONS_FRAME {
        var s := JsAnnotations(view, pos + 1);
        r := Try(s);
      } else { r := Loud; }
    }

    /** What nextFrame does with a frame that it decoded. */
    method Take(frame: Frame)
      modifies this`schemas, this`stringPool, this`stackPool, this`timestampBaseNs
      ensures Apply(Js, old(State()), frame).accepted && State() == Apply(Js, old(State()), frame).st
    {
      hide AddStrings, AddStacks;
      JsAccepts(State(), frame);
      match frame {
        case Schema(id, e) => schemas := schemas[id := e];
        case Event(_, _, ts, _) => if ts.Some? { timestampBaseNs := ts.value; }
        case StringPool(es) => SetStrings(es);
        case StackPool(es) => SetStacks(es);
        case TimestampReset(ts) => timestampBaseNs := ts;
        case Annotations(id, xs) =>
          if id in schemas { schemas := schemas[id := schemas[id].(annotations := xs)]; }
      }
    }

    /** nextFrame. At a frame that is cut off it gives null and the position moves to the
        end; an unknown frame tag, type id or field type throws. Part of a frame that was
        not read whole may have been applied. */
    method NextFrame() returns (r: Answer)
      requires Valid()
      modifies this
      ensures Valid()
      ensures match Pull(Js, old(State()), old(Rest()))
              case NoMore(st, rest) =>
                if LoudFrame(Js, st.cache, st.base, rest) then r == Thrown
                else r == Null && Rest() == [] && (rest == [] ==> State() == st)
              case Refused(_, _) => false
              case Got(f, st, rest) => r == Next(f) && State() == st && Rest() == rest
      decreases |view| - pos
    {
      hide ParseFrame, Apply, HeaderAt, LoudFrame;
      if pos >= |view| { NothingIsQuiet(Js, schemas, timestampBaseNs, Rest()); return Null; }
      var header := DecodeHeader();
      if header {
        schemas, stringPool, stackPool := map[], map[], map[];
        timestampBaseNs := 0;
        r := NextFrame();
        return;
      }
      ghost var st, d := State(), Rest();
      var f := DecodeOne();
      if f.Loud? { return Thrown; }
      if f.Short? {
        pos := |view|;
        return Null;
      }
      var (frame, end) := f.value;
      ParseFrameLocal(Js, st.cache, st.base, d, []);
      pos := end;
      Take(frame);
      if frame.TimestampReset? { r := NextFrame(); } else { r := Next(frame); }
    }

    /** decodeAll: the frames of the run, or nothing at all when it comes to a frame that
        makes nextFrame throw. */
    method DecodeAll() returns (r: Option<seq<Frame>>)
      requires Valid()
      modifies this
      ensures Valid()
      ensures var o := Run(Js, old(State()), old(Rest()));
              r == (if StopsThrowing(o) then None else Some(o.frames))
              && (o.Complete() ==> State() == o.st && Rest() == [])
    {
      hide Run, Pull, LoudFrame;
      var frames: seq<Frame> := [];
      ghost var o := Run(Js, State(), Rest());
      while true
        invariant Valid()
        invariant var t := Run(Js, State(), Rest());
                  o.frames == frames + t.frames && o.st == t.st && o.ending == t.ending && o.rest == t.rest
        decreases |view| - pos
      {
        RunIsPulls(Js, State(), Rest());
        PullShrinks(Js, State(), Rest());
        CompleteLeavesNothing(Js, State(), Rest());
        StoppedLeavesSomething(State(), Rest());
        ghost var p := Pull(Js, State(), Rest());
        var f := NextFrame();
        if !f.Next? {
          NothingIsQuiet(Js, p.st.cache, p.st.base, p.rest);
          assert frames + [] == frames;
          return if f.Thrown? then None else Some(frames);
        }
        Assoc(frames, [p.frame], Run(Js, p.st, p.rest).frames);
        frames := frames + [f.frame];
      }
    }
  }

  /** Only a frame that cannot be read stops a run. */
  lemma {:induction false} StoppedLeavesSomething(st: DecState, d: bytes)
    ensures var o := Run(Js, st, d); (o.ending.Stopped? ==> o.rest != []) && !o.ending.Failed?
    decreases |d|
  {
    hide ParseFrame, Apply;
    var s := Step(Js, st, d);
    if s.Go? {
      StepLocal(Js, st, d, []);
      StoppedLeavesSomething(s.st, s.rest);
    } else if d != [] && !HeaderAt(d) && ParseFrame(Js, st.cache, st.base, d).Ok? {
      JsAccepts(st, ParseFrame(Js, st.cache, st.base, d).value);
    }
  }
}
