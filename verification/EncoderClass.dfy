/** The encoder of encoder.rs as it stands: an object that updates its fields and appends
    to a writer. Each method is proved against its specification in EncoderSpec. */
module EncoderClass {
  import opened Bytes
  import opened Values
  import opened Frames
  import opened Machine
  import opened Playback
  import opened EncoderSpec
  import opened Resume
  import opened Registry
  import opened Sink
  import Coupling

  lemma OneWire(w: Wire)
    ensures EncodeWires([w]) == EncodeWire(w)
  {
    hide EncodeWire;
    assert [w][1..] == [];
  }

  lemma TwoWires(w: Wire, v: Wire)
    ensures EncodeWires([w, v]) == EncodeWire(w) + EncodeWire(v)
  {
    hide EncodeWire;
    assert [w, v] == [w] + [v];
    EncodeWiresAppend([w], [v]);
    OneWire(w);
    OneWire(v);
  }

  class Encoder {
    var writer: CountingWriter
    var base: u64
    const registry: SchemaRegistry
    var stringPool: map<bytes, u32>
    var nextPoolId: u32
    var stackPool: map<seq<u64>, u32>
    var nextStackPoolId: u32
    var schemaIds: map<SchemaKey, u16>
    var slotCache: seq<nat>
    var registeredIds: Bits

    ghost predicate Valid()
      reads this, writer
    {
      writer.Counts()
    }

    function State(): EncState
      reads this, registry
    {
      EncState(registry.schemas, registry.nextId, stringPool, nextPoolId, stackPool, nextStackPoolId,
               schemaIds, slotCache, registeredIds, base)
    }

    /** The object did what `e` specifies: new state, and bytes appended. */
    twostate predicate Did<R(!new)>(e: Emit<R>)
      reads this, writer, registry
    {
      Valid() && writer == old(writer) && State() == e.st && writer.inner == old(writer.inner) + EncodeWires(e.wires)
    }

    /** A new encoder has written the header, which its counter leaves out. */
    constructor ()
      ensures Valid() && fresh(writer) && fresh(registry) && State() == Empty()
      ensures writer.inner == HEADER && writer.bytesWritten == 0
    {
      writer := new CountingWriter(HEADER);
      registry := new SchemaRegistry();
      base, stringPool, nextPoolId, stackPool, nextStackPoolId := 0, map[], 0, map[], 0;
      schemaIds, slotCache, registeredIds := map[], [], NO_BITS;
    }

    /** from_decoder: takes over the decoder's registry and inverts its pools. */
    constructor FromDecoder(registry: SchemaRegistry, strings: map<nat, bytes>, stacks: map<nat, seq<u64>>, base: u64,
                            buffer: bytes)
      requires forall id :: id in registry.schemas ==> id < 0xFFFF
      requires forall i :: i in strings ==> i < 0xFFFF_FFFF
      requires forall i :: i in stacks ==> i < 0xFFFF_FFFF
      modifies registry
      ensures Valid() && fresh(writer) && this.registry == registry && registry.schemas == old(registry.schemas)
      ensures Resumed(DecState(old(registry.schemas), old(registry.schemas), strings, stacks, base), State())
      ensures writer.inner == buffer && writer.bytesWritten == 0
    {
      hide PoolFrom, NamesFrom, NextFrom;
      var pool, next := InvertPool(strings);
      var newStackPool, nextStack := InvertPool(stacks);
      var ids := NameIds(registry.schemas);
      registry.SyncNextId();
      this.registry := registry;
      this.base := base;
      writer := new CountingWriter(buffer);
      stringPool, nextPoolId, stackPool, nextStackPoolId := pool, next, newStackPool, nextStack;
      schemaIds, slotCache, registeredIds := ids, [], NO_BITS;
    }

    /** reset_to: the old buffer is handed back and everything starts over. */
    method ResetTo(newBuffer: bytes) returns (finished: bytes)
      requires Valid()
      modifies this, registry
      ensures Valid() && fresh(writer) && finished == old(writer.inner)
      ensures writer.inner == newBuffer + EncodeWire(WireHeader) && writer.bytesWritten == 0
      ensures State() == EncoderSpec.ResetTo(old(State())).st
    {
      stringPool, nextPoolId := map[], 0;
      stackPool, nextStackPoolId := map[], 0;
      registry.Clear();
      schemaIds := map[];
      slotCache := seq(|slotCache|, _ => 0);
      registeredIds := NO_BITS;
      finished := writer.inner;
      writer := new CountingWriter(newBuffer + HEADER);
      base := 0;
    }

    /** The frames of a schema; an annotation count that does not fit is noticed only
        after the schema frame was written. */
    method WriteSchema(id: u16, e: SchemaEntry) returns (ok: bool)
      requires Valid()
      modifies writer
      ensures Valid() && ok == (|e.annotations| <= 0xFFFF)
      ensures writer.inner == old(writer.inner) + EncodeWires(if ok then SchemaWires(id, e) else [WireSchema(id, e)])
    {
      hide EncodeWire;
      OneWire(WireSchema(id, e));
      SchemaInto(id, e, writer);
      if e.annotations == [] { return true; }
      if |e.annotations| > 0xFFFF { return false; }
      Assoc(old(writer.inner), EncodeWire(WireSchema(id, e)), EncodeWire(WireAnnotations(id, e.annotations)));
      TwoWires(WireSchema(id, e), WireAnnotations(id, e.annotations));
      AnnotationsInto(id, e.annotations, writer);
      return true;
    }

    method EnsureRegistered(e: SchemaEntry) returns (r: Result<u16>)
      requires Valid()
      modifies this`schemaIds, writer, registry
      ensures Did(EncoderSpec.EnsureRegistered(old(State()), e))
      ensures r == EncoderSpec.EnsureRegistered(old(State()), e).result
    {
      hide SchemaWires, SchemaLog;
      var key := NameKey(e.name);
      if key in schemaIds {
        var wireId := schemaIds[key];
        if wireId !in registry.schemas { return Err(CorruptState); }
        if registry.schemas[wireId] == e { return Okay(wireId); }
        return Err(SchemaConflict);
      }
      if registry.nextId >= 0xFFFF { return Err(IdsExhausted); }
      var id := registry.NextTypeId();
      var written := WriteSchema(id, e);
      if !written { return Err(TooManyAnnotations); }
      var ok := registry.Register(id, e);
      if !ok { return Err(Collision); }
      schemaIds := schemaIds[key := id];
      return Okay(id);
    }

    /** encode_timestamp_delta */
    method EncodeTimestampDelta(ts: u64) returns (delta: nat)
      requires Valid()
      modifies this`base, writer
      ensures Valid() && base == ts
      ensures delta == if NeedsReset(old(base), ts) then 0 else ts - old(base)
      ensures writer.inner == old(writer.inner) + if NeedsReset(old(base), ts) then EncodeWire(WireReset(ts)) else []
    {
      hide Le;
      if ts < base || ts - base > MAX_DELTA {
        writer.WriteAll([RESET_FRAME]);
        writer.WriteAll(U64Le(ts));
        Assoc(old(writer.inner), [RESET_FRAME], U64Le(ts));
        delta := 0;
      } else {
        delta := ts - base;
      }
      base := ts;
    }

    /** The tail that write_event and write share. */
    method EmitEvent(id: u16, dynamic: bool, e: SchemaEntry, ts: u64, vs: seq<Value>)
      requires Valid() && |vs| == |e.fields|
      modifies this`base, writer
      ensures Did(EncoderSpec.EmitEvent(old(State()), id, dynamic, e, ts, vs))
    {
      hide Le, EncodeFields;
      var delta := EncodeTimestampDelta(ts);
      ghost var before := writer.inner;
      var tags := Tags(e.fields);
      writer.WriteAll([EVENT_FRAME]);
      writer.WriteAll(U16Le(id));
      writer.WriteAll(Le(3, delta));
      FieldsInto(dynamic, tags, vs, writer);
      ghost var event := WireEvent(id, delta, dynamic, tags, vs);
      EventBytes(before, event);
      if NeedsReset(old(base), ts) {
        Assoc(old(writer.inner), EncodeWire(WireReset(ts)), EncodeWire(event));
        TwoWires(WireReset(ts), event);
        assert [WireReset(ts)] + [event] == [WireReset(ts), event];
      } else {
        OneWire(event);
        assert [] + [event] == [event];
      }
    }

    method WriteEvent(e: SchemaEntry, values: seq<Value>) returns (r: Result<u16>)
      requires Valid()
      modifies this`schemaIds, this`base, writer, registry
      ensures Did(EncoderSpec.WriteEvent(old(State()), e, values))
      ensures r == EncoderSpec.WriteEvent(old(State()), e, values).result
      ensures if r.Okay? then values != [] && values[0].Varint? && base == values[0].n else base == old(base)
    {
      hide EncoderSpec.EnsureRegistered, EncoderSpec.EmitEvent, EncodeWires;
      r := EnsureRegistered(e);
      if r.Err? { return; }
      if values == [] || !values[0].Varint? || values[0].n >= TWO_TO_THE_64 { return Err(FirstValueNoTimestamp); }
      if |values[1..]| != |e.fields| { return Err(ValueCount); }
      ghost var first := EncoderSpec.EnsureRegistered(old(State()), e);
      ghost var next := EncoderSpec.EmitEvent(State(), r.value, true, e, values[0].n, values[1..]);
      Appended(old(writer.inner), first.wires, next.wires);
      ResultOfEmit(State(), r.value, true, e, values[0].n, values[1..]);
      EmitEvent(r.value, true, e, values[0].n, values[1..]);
    }

    /** register_fast_id */
    method RegisterFastId(t: EventType) returns (r: Result<u16>)
      requires Valid() && t.slot < STATIC_WIRE_ID_LIMIT
      modifies this`registeredIds, writer, registry
      ensures Did(RegisterFast(old(State()), t)) && r == RegisterFast(old(State()), t).result
    {
      hide SchemaWires, SchemaLog, SetBit;
      var written := WriteSchema(t.slot, t.entry);
      if !written { return Err(TooManyAnnotations); }
      var ok := registry.Register(t.slot, t.entry);
      if !ok { return Err(Collision); }
      registeredIds := SetBit(registeredIds, t.slot);
      return Okay(t.slot);
    }

    /** resolve_dynamic_wire_id */
    method ResolveDynamicWireId(t: EventType) returns (r: Result<u16>)
      requires Valid()
      modifies this`schemaIds, this`slotCache, writer, registry
      ensures Did(ResolveDynamic(old(State()), t)) && r == ResolveDynamic(old(State()), t).result
    {
      hide EncoderSpec.EnsureRegistered, EncodeWires;
      var key := TypeKey(t.typeId);
      if key in schemaIds {
        r := Okay(schemaIds[key]);
        NoWires(writer.inner);
      } else {
        r := EnsureRegistered(t.entry);
        if r.Err? { return; }
        schemaIds := schemaIds[key := r.value];
      }
      if t.slot != 0 {
        if |slotCache| <= t.slot { slotCache := slotCache + seq(t.slot + 1 - |slotCache|, _ => 0); }
        slotCache := slotCache[t.slot := r.value + 1];
      }
    }

    /** `write` of a derived type: the slot decides where its wire id comes from. */
    method Write(t: EventType, ts: u64, values: seq<Value>) returns (r: Result<u16>)
      requires Valid() && |values| == |t.entry.fields|
      modifies this, writer, registry
      ensures Did(WriteDerived(old(State()), t, ts, values)) && r == WriteDerived(old(State()), t, ts, values).result
      ensures base == if r.Okay? then ts else old(base)
    {
      hide RegisterFast, ResolveDynamic, EncoderSpec.EmitEvent, EncodeWires, HasBit;
      if t.slot != 0 && t.slot < STATIC_WIRE_ID_LIMIT {
        if !HasBit(registeredIds, t.slot) {
          r := RegisterFastId(t);
          if r.Err? { return; }
          FastIdIsSlot(old(State()), t);
        } else {
          NoWires(writer.inner);
        }
        r := Okay(t.slot);
      } else {
        var cached := if t.slot < |slotCache| then slotCache[t.slot] else 0;
        if cached != 0 {
          r := Okay((cached - 1) % 0x1_0000);
          NoWires(writer.inner);
        } else {
          r := ResolveDynamicWireId(t);
          if r.Err? { return; }
        }
      }
      ghost var first := ResolveId(old(State()), t);
      assert Did(first) && r == first.result;
      ghost var next := EncoderSpec.EmitEvent(State(), r.value, false, t.entry, ts, values);
      Appended(old(writer.inner), first.wires, next.wires);
      ResultOfEmit(State(), r.value, false, t.entry, ts, values);
      EmitEvent(r.value, false, t.entry, ts, values);
    }

    method InternString(s: bytes) returns (r: Result<u32>)
      requires Valid()
      modifies this`stringPool, this`nextPoolId, writer
      ensures Did(EncoderSpec.InternString(old(State()), s)) && r == EncoderSpec.InternString(old(State()), s).result
    {
      hide EncodeWire;
      if s in stringPool { return Okay(stringPool[s]); }
      if nextPoolId >= 0xFFFF_FFFF { return Err(IdsExhausted); }
      var id := nextPoolId;
      nextPoolId := nextPoolId + 1;
      stringPool := stringPool[s := id];
      OneWire(WireStrings([PoolEntry(id, s)]));
      StringPoolInto([PoolEntry(id, s)], writer);
      return Okay(id);
    }

    method InternStackFrames(frames: seq<u64>) returns (r: Result<u32>)
      requires Valid()
      modifies this`stackPool, this`nextStackPoolId, writer
      ensures Did(InternStack(old(State()), frames)) && r == InternStack(old(State()), frames).result
    {
      hide EncodeWire;
      if frames in stackPool { return Okay(stackPool[frames]); }
      if nextStackPoolId >= 0xFFFF_FFFF { return Err(IdsExhausted); }
      var id := nextStackPoolId;
      nextStackPoolId := nextStackPoolId + 1;
      stackPool := stackPool[frames := id];
      OneWire(WireStacks([StackEntry(id, frames)]));
      StackPoolInto([StackEntry(id, frames)], writer);
      return Okay(id);
    }
  }

  lemma NoWires(before: bytes)
    ensures before + EncodeWires([]) == before
  {
  }

  lemma Appended(before: bytes, a: seq<Wire>, b: seq<Wire>)
    ensures before + EncodeWires(a) + EncodeWires(b) == before + EncodeWires(a + b)
  {
    EncodeWiresAppend(a, b);
    Assoc(before, EncodeWires(a), EncodeWires(b));
  }

  lemma ResultOfEmit(st: EncState, id: u16, dynamic: bool, e: SchemaEntry, ts: u64, vs: seq<Value>)
    ensures EncoderSpec.EmitEvent(st, id, dynamic, e, ts, vs).result == Okay(id)
    ensures EncoderSpec.EmitEvent(st, id, dynamic, e, ts, vs).st.base == ts
  {
  }

  lemma FastIdIsSlot(st: EncState, t: EventType)
    requires t.slot < STATIC_WIRE_ID_LIMIT && RegisterFast(st, t).result.Okay?
    ensures RegisterFast(st, t).result == Okay(t.slot)
  {
  }

  lemma EventBytes(before: bytes, w: Wire)
    requires w.WireEvent?
    ensures before + EncodeWire(w)
         == before + [EVENT_FRAME] + U16Le(w.typeId) + Le(3, w.delta) + EncodeFields(w.dynamic, w.tags, w.values)
  {
    hide Le, EncodeFields;
    var t, i, d, f := [EVENT_FRAME], U16Le(w.typeId), Le(3, w.delta), EncodeFields(w.dynamic, w.tags, w.values);
    assert EncodeWire(w) == t + (i + (d + f));
    Assoc(before, t, i + (d + f));
    Assoc(before + t, i, d + f);
    Assoc(before + t + i, d, f);
  }

  // ----- whole runs on the object

  /** A derived type writes all of its fields. */
  predicate WellTyped(op: Op) {
    op.OpWrite? ==> |op.values| == |op.t.entry.fields|
  }

  /** One operation, other than a reset, on an encoder object. */
  method DoOne(enc: Encoder, op: Op)
    requires enc.Valid() && WellTyped(op) && !op.OpReset?
    modifies enc, enc.writer, enc.registry
    ensures enc.Valid() && enc.writer == old(enc.writer)
    ensures enc.State() == Do(old(enc.State()), op).st
    ensures enc.writer.inner == old(enc.writer.inner) + EncodeWires(Do(old(enc.State()), op).wires)
  {
    hide EncodeWires, EncodeWire, Do;
    match op
    case OpIntern(s) => DoIntern(enc.State(), s); var _ := enc.InternString(s);
    case OpStack(frames) => DoStack(enc.State(), frames); var _ := enc.InternStackFrames(frames);
    case OpRegister(entry) => DoRegister(enc.State(), entry); var _ := enc.EnsureRegistered(entry);
    case OpWriteEvent(entry, vs) => DoWriteEvent(enc.State(), entry, vs); var _ := enc.WriteEvent(entry, vs);
    case OpWrite(t, ts, vs) => DoWrite(enc.State(), t, ts, vs); var _ := enc.Write(t, ts, vs);
  }

  /** Driving an encoder object through any run: the buffers handed out at resets, then the
      one it holds, are what was there and what the run writes. */
  method Drive(enc: Encoder, ops: seq<Op>) returns (handed: bytes)
    requires enc.Valid() && forall i :: 0 <= i < |ops| ==> WellTyped(ops[i])
    modifies enc, enc.writer, enc.registry
    ensures enc.Valid() && (enc.writer == old(enc.writer) || fresh(enc.writer))
    ensures handed + enc.writer.inner == old(enc.writer.inner) + EncodeWires(Perform(old(enc.State()), ops).wires)
  {
    hide EncodeWires, EncodeWire, Perform, Do;
    ghost var whole := enc.writer.inner + EncodeWires(Perform(enc.State(), ops).wires);
    handed := [];
    assert ops[0..] == ops;
    for i := 0 to |ops|
      invariant enc.Valid() && (enc.writer == old(enc.writer) || fresh(enc.writer))
      invariant handed + enc.writer.inner + EncodeWires(Perform(enc.State(), ops[i..]).wires) == whole
    {
      PerformTurn(enc.State(), ops, i, handed + enc.writer.inner);
      Assoc(handed, enc.writer.inner, EncodeWires(Do(enc.State(), ops[i]).wires));
      if ops[i].OpReset? {
        DoReset(enc.State());
        var finished := enc.ResetTo([]);
        handed := handed + finished;
        assert enc.writer.inner == EncodeWire(WireHeader);
      } else {
        DoOne(enc, ops[i]);
      }
    }
    assert ops[|ops|..] == [];
    LastTurn(enc.State(), handed + enc.writer.inner);
  }

  /** A new encoder object driven through any run: its buffers laid end to end are the
      run's output, the bytes the coupling theorem is about. */
  method Record(ops: seq<Op>) returns (total: bytes)
    requires forall i :: 0 <= i < |ops| ==> WellTyped(ops[i])
    ensures total == Coupling.Output(ops)
  {
    hide EncodeWires, EncodeWire, Perform, Do;
    var enc := new Encoder();
    StartOfOutput(ops);
    var handed := Drive(enc, ops);
    total := handed + enc.writer.inner;
  }

  lemma StartOfOutput(ops: seq<Op>)
    ensures HEADER + EncodeWires(Perform(Empty(), ops).wires) == Coupling.Output(ops)
  {
  }

  lemma LastTurn(st: EncState, before: bytes)
    ensures before + EncodeWires(Perform(st, []).wires) == before
  {
  }

  lemma PerformTurn(st: EncState, ops: seq<Op>, i: nat, before: bytes)
    requires i < |ops|
    ensures var e := Do(st, ops[i]);
            before + EncodeWires(Perform(st, ops[i..]).wires)
            == before + EncodeWires(e.wires) + EncodeWires(Perform(e.st, ops[i + 1..]).wires)
  {
    hide Do, EncodeWires;
    assert ops[i..][1..] == ops[i + 1..];
    var e := Do(st, ops[i]);
    Appended(before, e.wires, Perform(e.st, ops[i + 1..]).wires);
  }

  lemma DoIntern(st: EncState, s: bytes)
    ensures Do(st, OpIntern(s)).st == EncoderSpec.InternString(st, s).st
    ensures Do(st, OpIntern(s)).wires == EncoderSpec.InternString(st, s).wires
  {
    hide EncoderSpec.InternString;
  }

  lemma DoStack(st: EncState, frames: seq<u64>)
    ensures Do(st, OpStack(frames)).st == InternStack(st, frames).st
    ensures Do(st, OpStack(frames)).wires == InternStack(st, frames).wires
  {
    hide InternStack;
  }

  lemma DoRegister(st: EncState, e: SchemaEntry)
    ensures Do(st, OpRegister(e)).st == EncoderSpec.EnsureRegistered(st, e).st
    ensures Do(st, OpRegister(e)).wires == EncoderSpec.EnsureRegistered(st, e).wires
  {
    hide EncoderSpec.EnsureRegistered;
  }

  lemma DoWriteEvent(st: EncState, e: SchemaEntry, vs: seq<Value>)
    ensures Do(st, OpWriteEvent(e, vs)).st == EncoderSpec.WriteEvent(st, e, vs).st
    ensures Do(st, OpWriteEvent(e, vs)).wires == EncoderSpec.WriteEvent(st, e, vs).wires
  {
    hide EncoderSpec.WriteEvent;
  }

  lemma DoWrite(st: EncState, t: EventType, ts: u64, vs: seq<Value>)
    ensures Do(st, OpWrite(t, ts, vs)).st == WriteDerived(st, t, ts, vs).st
    ensures Do(st, OpWrite(t, ts, vs)).wires == WriteDerived(st, t, ts, vs).wires
  {
    hide WriteDerived;
  }

  lemma DoReset(st: EncState)
    ensures Do(st, OpReset).st == EncoderSpec.ResetTo(st).st
    ensures EncodeWires(Do(st, OpReset).wires) == EncodeWire(WireHeader)
  {
    OneWire(WireHeader);
  }
}
