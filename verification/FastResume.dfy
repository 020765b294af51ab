/** Resuming a program that has types with fast slots: the resumed encoder declares such a
    type again, which the Rust decoders accept for a type without annotations. */
module FastResume {
  import opened Bytes
  import opened Values
  import opened Frames
  import opened Machine
  import opened Playback
  import opened EncoderSpec
  import opened Coupling
  import opened Resume

  // ----- what still holds of a resumed encoder

  predicate RegistryOpen(st: EncState) {
    STATIC_WIRE_ID_LIMIT <= st.nextId
    && (forall id :: id in st.registry ==> id < st.nextId && EntryFits(st.registry[id]))
    && (forall id: nat :: STATIC_WIRE_ID_LIMIT <= id < st.nextId ==> id in st.registry)
    && (forall id: nat :: id < STATIC_WIRE_ID_LIMIT && HasBit(st.bitset, id) ==> id in st.registry)
  }

  predicate NamesOpen(st: EncState) {
    forall k :: k in st.schemaIds && k.NameKey? ==>
      st.schemaIds[k] in st.registry && st.registry[st.schemaIds[k]].name == k.name
  }

  predicate TypesOpen(types: map<nat, EventType>, st: EncState) {
    forall k :: k in st.schemaIds && k.TypeKey? ==>
      k.typeId in types && st.schemaIds[k] in st.registry && st.registry[st.schemaIds[k]] == types[k.typeId].entry
  }

  /** A fast id that is in the registry is its type's. It is marked, or among the ids that
      came with the decoded stream. */
  predicate FastOpen(types: map<nat, EventType>, st: EncState, carried: set<nat>) {
    forall t :: t in types && 0 < types[t].slot < STATIC_WIRE_ID_LIMIT && types[t].slot in st.registry ==>
      st.registry[types[t].slot] == types[t].entry
      && (HasBit(st.bitset, types[t].slot) || types[t].slot in carried)
  }

  /** The encoder's invariant, but for fast ids that came with the decoded stream. */
  predicate Open(types: map<nat, EventType>, st: EncState, carried: set<nat>) {
    RegistryOpen(st) && NamesOpen(st) && TypesOpen(types, st) && SlotsInv(types, st) && FastOpen(types, st, carried)
  }

  /** A type with annotations whose fast slot the stream declares. */
  predicate Annotated(carried: set<nat>, t: EventType) {
    0 < t.slot < STATIC_WIRE_ID_LIMIT && t.slot in carried && t.entry.annotations != []
  }

  predicate WritesAnnotated(carried: set<nat>, op: Op) {
    op.OpWrite? && Annotated(carried, op.t)
  }

  lemma InvIsOpen(types: map<nat, EventType>, st: EncState)
    requires Inv(types, st)
    ensures Open(types, st, {})
  {
    hide EntryFits, HasBit;
  }

  lemma ResumedIsOpen(types: map<nat, EventType>, st: EncState, d: DecState, st': EncState)
    requires Inv(types, st) && Coupled(st, d) && Resumed(d, st')
    ensures Open(types, st', d.registry.Keys) && Coupled(st', d)
  {
    hide EntryFits, Inverse, PoolFrom, NamesInv, TypesInv, SlotsInv;
    PoolFromIsUnique(st.strings, d.strings, st.nextString, st'.strings, st'.nextString);
    PoolFromIsUnique(st.stacks, d.stacks, st.nextStack, st'.stacks, st'.nextStack);
    SameNextId(st, st'.nextId);
    assert SlotsInv(types, st') by { NoSlots(types, st'); }
    assert forall id: nat :: id < STATIC_WIRE_ID_LIMIT ==> !HasBit(NO_BITS, id);
  }

  lemma SameNextId(st: EncState, next: u16)
    requires RegistryInv(st) && NextFrom(st.registry, next)
    ensures next == st.nextId
  {
    hide EntryFits, HasBit;
    assert STATIC_WIRE_ID_LIMIT <= next < st.nextId ==> next in st.registry;
  }

  lemma NoSlots(types: map<nat, EventType>, st: EncState)
    requires st.slotCache == []
    ensures SlotsInv(types, st)
  {
  }

  // ----- effects at the level of bytes

  /** A decoder reads the effect's bytes as intended and ends coupled. */
  ghost predicate IsRead<R>(dia: Dialect, dec: DecState, e: Emit<R>) {
    var o := Run(dia, dec, EncodeWires(e.wires));
    o.Complete() && o.rest == [] && o.frames == e.log && o.restarts == Headers(e.wires) && Coupled(e.st, o.st)
  }

  lemma PlayedIsRead<R>(dia: Dialect, st: EncState, dec: DecState, e: Emit<R>)
    requires Coupled(st, dec) && Plays(dec, e)
    ensures IsRead(dia, dec, e)
  {
    hide Run, PlayAll, EncodeWires, Coupled;
    PlayedBytesDecode(dec, e.wires);
    CoupledIsSynced(st, dec);
    StrictRunIsCommon(dia, dec, EncodeWires(e.wires));
  }

  lemma ThenIsRead<R, S>(dia: Dialect, dec: DecState, first: Emit<R>, next: Emit<S>)
    requires IsRead(dia, dec, first) && IsRead(dia, Run(dia, dec, EncodeWires(first.wires)).st, next)
    ensures IsRead(dia, dec, Then(first, next))
  {
    hide Run, Coupled;
    RunConcat(dia, dec, EncodeWires(first.wires), EncodeWires(next.wires));
    EncodeWiresAppend(first.wires, next.wires);
  }

  // ----- declaring again

  /** Both Rust decoders and decode.js accept a second declaration of a schema that has no
      annotations, and nothing changes. */
  lemma DeclaredAgain(dia: Dialect, st: EncState, dec: DecState, id: u16, e: SchemaEntry)
    requires dia != Strict && Coupled(st, dec) && id in st.registry && st.registry[id] == e && e.annotations == []
    requires EntryFits(e)
    ensures IsRead(dia, dec, Emit(st, SchemaWires(id, e), SchemaLog(id, e), Okay(id)))
  {
    hide EntryFits, Inverse, Run, Apply, Headers, EncodeWires;
    var w := WireSchema(id, e);
    assert e.(annotations := []) == e;
    SecondSchema(dia, dec, id, e);
    WireRun(dia, dec, w);
    assert SchemaWires(id, e) == [w] && SchemaLog(id, e) == [Schema(id, e)];
  }

  lemma SecondSchema(dia: Dialect, dec: DecState, id: u16, e: SchemaEntry)
    requires dia != Strict && id in dec.registry && dec.registry[id] == e && dec.cache == dec.registry
    ensures Apply(dia, dec, Schema(id, e)) == Applied(true, dec)
  {
    assert dec.registry[id := e] == dec.registry;
  }

  /** decode.js forgets the annotations and is given them again. */
  lemma JsSecondSchema(dec: DecState, id: u16, e: SchemaEntry)
    requires id in dec.registry && dec.registry[id] == e && dec.cache == dec.registry
    ensures var bare := e.(annotations := []);
            var dec1 := Apply(Js, dec, Schema(id, bare)).st;
            dec1 == dec.(registry := dec.registry[id := bare], cache := dec.registry[id := bare])
            && Apply(Js, dec1, Annotations(id, e.annotations)) == Applied(true, dec)
  {
    var bare := e.(annotations := []);
    assert dec.registry[id := bare][id := bare.(annotations := e.annotations)] == dec.registry;
  }

  /** A frame that every decoder parses alike, and what reading it alone comes to. */
  lemma WireRun(dia: Dialect, dec: DecState, w: Wire)
    requires !w.WireEvent? && !w.WireHeader? && WireFits(w)
    requires Apply(dia, dec, Meaning(w)).accepted && Visible(Meaning(w)) == [Meaning(w)]
    ensures Run(dia, dec, EncodeWires([w])) == Outcome([Meaning(w)], Apply(dia, dec, Meaning(w)).st, [], Finished, 0)
    ensures Headers([w]) == 0
  {
    hide ParseFrame, Apply, WireFits, EncodeWire, Meaning, Run;
    var d := EncodeWire(w) + [];
    assert [w][1..] == [] && EncodeWires([w]) == d;
    FrameOf(dec.cache, dec.base, w, []);
    StrictFrameIsCommon(dia, dec.cache, dec.base, d);
    FrameIsNoHeader(dia, dec, d);
    OneFrameRun(dia, dec, d, Meaning(w));
  }

  lemma JsDeclaredAgain(st: EncState, dec: DecState, id: u16, e: SchemaEntry)
    requires Coupled(st, dec) && id in st.registry && st.registry[id] == e && e.annotations != [] && EntryFits(e)
    ensures IsRead(Js, dec, Emit(st, SchemaWires(id, e), SchemaLog(id, e), Okay(id)))
  {
    hide Inverse, Run, Apply, AnnotationFits, FieldDefFits, NameFits, Headers, EncodeWires;
    var w, n := WireSchema(id, e), WireAnnotations(id, e.annotations);
    JsSecondSchema(dec, id, e);
    JsAccepts(dec, Meaning(w));
    WireRun(Js, dec, w);
    var dec1 := Apply(Js, dec, Meaning(w)).st;
    WireRun(Js, dec1, n);
    RunConcat(Js, dec, EncodeWires([w]), EncodeWires([n]));
    EncodeWiresAppend([w], [n]);
  }

  /** The Rust decoders refuse a second declaration of a type with annotations. */
  lemma SecondIsRefused(dia: Dialect, st: EncState, dec: DecState, id: u16, e: SchemaEntry, s: bytes)
    requires dia == Owned || dia == Ref
    requires Coupled(st, dec) && id in st.registry && st.registry[id] == e && e.annotations != [] && EntryFits(e)
    ensures Run(dia, dec, EncodeWire(WireSchema(id, e)) + s).ending.Failed?
  {
    hide EntryFits, Inverse, EncodeWire, ParseFrame;
    var d := EncodeWire(WireSchema(id, e)) + s;
    FrameOf(dec.cache, dec.base, WireSchema(id, e), s);
    StrictFrameIsCommon(dia, dec.cache, dec.base, d);
    FrameIsNoHeader(dia, dec, d);
    assert dec.registry[id] != e.(annotations := []);
  }

  lemma OneFrameRun(dia: Dialect, dec: DecState, d: bytes, f: Frame)
    requires d != [] && !HeaderAt(d) && ParseFrame(dia, dec.cache, dec.base, d) == Ok(f, [])
    requires Apply(dia, dec, f).accepted && Visible(f) == [f]
    ensures Run(dia, dec, d) == Outcome([f], Apply(dia, dec, f).st, [], Finished, 0)
  {
    hide ParseFrame, Apply;
    EmptyRun(dia, Apply(dia, dec, f).st);
    assert [f] + [] == [f];
  }

  // ----- operations

  lemma RegisteredIdsOpen(st: EncState, e: SchemaEntry)
    requires RegistryOpen(st) && EntryFits(e) && st.nextId < 0xFFFF
    ensures st.nextId !in st.registry && RegistryOpen(Registered(st, e))
  {
    hide EntryFits, HasBit;
  }

  lemma RegisteredNamesOpen(types: map<nat, EventType>, carried: set<nat>, st: EncState, e: SchemaEntry)
    requires NamesOpen(st) && TypesOpen(types, st) && FastOpen(types, st, carried)
    requires NameKey(e.name) !in st.schemaIds && STATIC_WIRE_ID_LIMIT <= st.nextId < 0xFFFF && st.nextId !in st.registry
    ensures var st' := Registered(st, e); NamesOpen(st') && TypesOpen(types, st') && FastOpen(types, st', carried)
  {
    hide HasBit;
  }

  lemma RegisteredIsOpen(types: map<nat, EventType>, carried: set<nat>, st: EncState, e: SchemaEntry)
    requires Open(types, st, carried) && EntryFits(e) && NameKey(e.name) !in st.schemaIds && st.nextId < 0xFFFF
    ensures st.nextId !in st.registry && Open(types, Registered(st, e), carried)
  {
    hide EntryFits, HasBit, NamesOpen, TypesOpen, FastOpen;
    RegisteredIdsOpen(st, e);
    RegisteredNamesOpen(types, carried, st, e);
  }

  lemma EnsureIsRead(dia: Dialect, types: map<nat, EventType>, carried: set<nat>, st: EncState, dec: DecState,
                     e: SchemaEntry)
    requires Open(types, st, carried) && Coupled(st, dec) && CanRegister(st, e)
    ensures var r := EnsureRegistered(st, e);
            IsRead(dia, dec, r) && Open(types, r.st, carried)
            && (r.result.Okay? ==> r.result.value in r.st.registry && r.st.registry[r.result.value] == e)
  {
    hide EntryFits, PlayAll, Inverse, IsRead, HasBit, RegistryOpen, TypesOpen, SlotsInv, FastOpen;
    var r := EnsureRegistered(st, e);
    if NameKey(e.name) in st.schemaIds {
      NothingPlays(dec);
    } else {
      TooLongExcluded(e);
      RegisteredIsOpen(types, carried, st, e);
      SchemaPlays(dec, st.nextId, e);
      assert r == Emit(Registered(st, e), SchemaWires(st.nextId, e), SchemaLog(st.nextId, e), Okay(st.nextId));
    }
    PlayedIsRead(dia, st, dec, r);
  }

  lemma RememberedIsOpen(types: map<nat, EventType>, carried: set<nat>, st: EncState, t: EventType, id: u16)
    requires TypesOk(types) && Open(types, st, carried) && t.typeId in types && types[t.typeId] == t
    requires id in st.registry && st.registry[id] == t.entry
    requires TypeKey(t.typeId) in st.schemaIds ==> st.schemaIds[TypeKey(t.typeId)] == id
    ensures Open(types, Remembered(st, t, id), carried)
  {
    hide EntryFits, SlotsInv, HasBit, CacheSlot;
    RememberedSlots(types, st, t, id);
  }

  lemma DynamicIsRead(dia: Dialect, types: map<nat, EventType>, carried: set<nat>, st: EncState, dec: DecState,
                      t: EventType)
    requires TypesOk(types) && Open(types, st, carried) && Coupled(st, dec) && t.typeId in types
    requires types[t.typeId] == t && CanRegister(st, t.entry)
    ensures var r := ResolveDynamic(st, t);
            IsRead(dia, dec, r) && Open(types, r.st, carried)
            && (r.result.Okay? ==> r.result.value in r.st.registry && r.st.registry[r.result.value] == t.entry)
  {
    hide EntryFits, PlayAll, RegistryOpen, NamesOpen, SlotsInv, FastOpen, Inverse, CacheSlot, EnsureRegistered, Run;
    var key := TypeKey(t.typeId);
    if key in st.schemaIds {
      RememberedIsOpen(types, carried, st, t, st.schemaIds[key]);
      assert st.schemaIds[key := st.schemaIds[key]] == st.schemaIds;
      NothingPlays(dec);
      PlayedIsRead(dia, st, dec, ResolveDynamic(st, t));
    } else {
      EnsureIsRead(dia, types, carried, st, dec, t.entry);
      var r := EnsureRegistered(st, t.entry);
      if r.result.Okay? {
        EnsureKeepsTypes(st, t.entry, key);
        RememberedIsOpen(types, carried, r.st, t, r.result.value);
      }
    }
  }

  /** A type's own schema under its slot, which is now marked. */
  lemma MarkedIsOpen(types: map<nat, EventType>, carried: set<nat>, st: EncState, t: EventType)
    requires TypesOk(types) && Open(types, st, carried) && t.typeId in types && types[t.typeId] == t
    requires 0 < t.slot < STATIC_WIRE_ID_LIMIT
    ensures Open(types, st.(registry := st.registry[t.slot := t.entry], bitset := SetBit(st.bitset, t.slot)), carried)
  {
    hide EntryFits, HasBit, SetBit;
    var st' := st.(registry := st.registry[t.slot := t.entry], bitset := SetBit(st.bitset, t.slot));
    assert t.slot in st.registry ==> st.registry[t.slot] == t.entry;
    assert SetBit(st.bitset, t.slot) == st'.bitset;
  }

  lemma FastIsRead(dia: Dialect, types: map<nat, EventType>, carried: set<nat>, st: EncState, dec: DecState,
                   t: EventType)
    requires dia != Strict && TypesOk(types) && Open(types, st, carried) && Coupled(st, dec)
    requires t.typeId in types && types[t.typeId] == t
    requires 0 < t.slot < STATIC_WIRE_ID_LIMIT && !HasBit(st.bitset, t.slot)
    requires dia == Js || t.slot !in carried || t.entry.annotations == []
    ensures var r := RegisterFast(st, t);
            IsRead(dia, dec, r) && Open(types, r.st, carried) && r.result == Okay(t.slot)
            && t.slot in r.st.registry && r.st.registry[t.slot] == t.entry
  {
    hide EntryFits, PlayAll, Inverse, HasBit, IsRead, RegistryOpen, NamesOpen, TypesOpen, SlotsInv, SetBit;
    var r := RegisterFast(st, t);
    TooLongExcluded(t.entry);
    MarkedIsOpen(types, carried, st, t);
    if t.slot in st.registry {
      if t.entry.annotations == [] { DeclaredAgain(dia, st, dec, t.slot, t.entry); }
      else { JsDeclaredAgain(st, dec, t.slot, t.entry); }
      BitsAreNotRead(dia, dec, Emit(st, SchemaWires(t.slot, t.entry), SchemaLog(t.slot, t.entry), Okay(t.slot)), r);
      assert st.registry[t.slot := t.entry] == st.registry;
    } else {
      SchemaPlays(dec, t.slot, t.entry);
      PlayedIsRead(dia, st, dec, r);
    }
  }

  /** The bitset is the encoder's own affair. */
  lemma BitsAreNotRead<R>(dia: Dialect, dec: DecState, e: Emit<R>, e': Emit<R>)
    requires IsRead(dia, dec, e) && e' == e.(st := e.st.(bitset := e'.st.bitset))
    ensures IsRead(dia, dec, e')
  {
    hide Run, Inverse;
  }

  lemma ResolveIsRead(dia: Dialect, types: map<nat, EventType>, carried: set<nat>, st: EncState, dec: DecState,
                      t: EventType)
    requires dia != Strict && TypesOk(types) && Open(types, st, carried) && Coupled(st, dec)
    requires t.typeId in types && types[t.typeId] == t && CanResolve(st, t)
    requires dia == Js || !Annotated(carried, t)
    ensures var r := ResolveId(st, t);
            IsRead(dia, dec, r) && Open(types, r.st, carried)
            && (r.result.Okay? ==> r.result.value in r.st.registry && r.st.registry[r.result.value] == t.entry)
  {
    hide EntryFits, PlayAll, RegisterFast, ResolveDynamic, HasBit, IsRead, NamesOpen, Inverse;
    var r := ResolveId(st, t);
    if t.slot != 0 && t.slot < STATIC_WIRE_ID_LIMIT {
      if HasBit(st.bitset, t.slot) { NothingPlays(dec); PlayedIsRead(dia, st, dec, r); }
      else { FastIsRead(dia, types, carried, st, dec, t); }
    } else if t.slot < |st.slotCache| && st.slotCache[t.slot] != 0 {
      NothingPlays(dec);
      PlayedIsRead(dia, st, dec, r);
    } else {
      DynamicIsRead(dia, types, carried, st, dec, t);
    }
  }

  lemma EventIsRead(dia: Dialect, types: map<nat, EventType>, carried: set<nat>, st: EncState, dec: DecState, id: u16,
                    dynamic: bool, e: SchemaEntry, ts: u64,
                    vs: seq<Value>)
    requires Open(types, st, carried) && Coupled(st, dec)
    requires id in st.registry && st.registry[id] == e && e.hasTimestamp && FieldsFit(dynamic, Tags(e.fields), vs)
    ensures var r := EmitEvent(st, id, dynamic, e, ts, vs); IsRead(dia, dec, r) && Open(types, r.st, carried)
  {
    hide FieldsFit, Plays, IsRead, HasBit, EntryFits;
    EventPlays(st, dec, id, dynamic, e, ts, vs);
    PlayedIsRead(dia, st, dec, EmitEvent(st, id, dynamic, e, ts, vs));
  }

  lemma ResetIsRead(dia: Dialect, types: map<nat, EventType>, st: EncState, dec: DecState)
    requires Coupled(st, dec)
    ensures IsRead(dia, dec, ResetTo(st)) && Open(types, ResetTo(st).st, {})
  {
    hide Inv, Open, IsRead, PlayAll;
    ResetSound(types, st, dec);
    InvIsOpen(types, ResetTo(st).st);
    PlayedIsRead(dia, st, dec, ResetTo(st));
  }

  lemma PoolsAreOpen(types: map<nat, EventType>, carried: set<nat>, st: EncState, st': EncState)
    requires Open(types, st, carried)
    requires st' == st.(strings := st'.strings, nextString := st'.nextString,
                        stacks := st'.stacks, nextStack := st'.nextStack)
    ensures Open(types, st', carried)
  {
  }

  lemma StringIsRead(dia: Dialect, types: map<nat, EventType>, carried: set<nat>, st: EncState, dec: DecState, s: bytes)
    requires Open(types, st, carried) && Coupled(st, dec) && OpFits(types, st, OpIntern(s))
    ensures IsRead(dia, dec, InternString(st, s)) && Open(types, InternString(st, s).st, carried)
  {
    hide Open, Coupled, Plays, IsRead;
    StringPlays(st, dec, s);
    PlayedIsRead(dia, st, dec, InternString(st, s));
    PoolsAreOpen(types, carried, st, InternString(st, s).st);
  }

  lemma StackIsRead(dia: Dialect, types: map<nat, EventType>, carried: set<nat>, st: EncState, dec: DecState,
                    frames: seq<u64>)
    requires Open(types, st, carried) && Coupled(st, dec) && OpFits(types, st, OpStack(frames))
    ensures IsRead(dia, dec, InternStack(st, frames)) && Open(types, InternStack(st, frames).st, carried)
  {
    hide Open, Coupled, Plays, IsRead;
    StackPlays(st, dec, frames);
    PlayedIsRead(dia, st, dec, InternStack(st, frames));
    PoolsAreOpen(types, carried, st, InternStack(st, frames).st);
  }

  /** Every operation on a resumed encoder is read as intended, but for the first write of
      an annotated type that the stream declares under a fast slot. */
  lemma OpIsRead(dia: Dialect, types: map<nat, EventType>, carried: set<nat>, st: EncState, dec: DecState, op: Op)
    requires dia != Strict && TypesOk(types) && Open(types, st, carried) && Coupled(st, dec) && OpFits(types, st, op)
    requires !op.OpReset? && (dia == Js || !WritesAnnotated(carried, op))
    ensures IsRead(dia, dec, Do(st, op)) && Open(types, Do(st, op).st, carried)
  {
    hide Open, Coupled, Run, Headers, EncodeWires, PlayAll, FieldsFit, CanRegister, CanResolve;
    hide EnsureRegistered, ResolveId, EmitEvent, InternString, InternStack, ResetTo;
    match op {
      case OpIntern(s) => StringIsRead(dia, types, carried, st, dec, s);
      case OpStack(frames) => StackIsRead(dia, types, carried, st, dec, frames);
      case OpRegister(e) => EnsureIsRead(dia, types, carried, st, dec, e);
      case OpWriteEvent(e, vs) =>
        EnsureIsRead(dia, types, carried, st, dec, e);
        var r := EnsureRegistered(st, e);
        if r.result.Okay? && vs != [] && vs[0].Varint? && vs[0].n < TWO_TO_THE_64 && |vs| - 1 == |e.fields| {
          ThenEvent(dia, types, carried, dec, r, r.result.value, true, e, vs[0].n, vs[1..]);
        }
      case OpWrite(t, ts, vs) =>
        ResolveIsRead(dia, types, carried, st, dec, t);
        var r := ResolveId(st, t);
        TypeHasTimestamp(types, t);
        if r.result.Okay? { ThenEvent(dia, types, carried, dec, r, r.result.value, false, t.entry, ts, vs); }
    }
  }

  lemma TypeHasTimestamp(types: map<nat, EventType>, t: EventType)
    requires TypesOk(types) && t.typeId in types && types[t.typeId] == t
    ensures t.entry.hasTimestamp
  {
    hide EntryFits;
  }

  /** An event behind the declaration of its schema. */
  lemma ThenEvent(dia: Dialect, types: map<nat, EventType>, carried: set<nat>, dec: DecState, r: Emit<u16>, id: u16,
                  dynamic: bool, e: SchemaEntry, ts: u64,
                  vs: seq<Value>)
    requires IsRead(dia, dec, r) && Open(types, r.st, carried)
    requires id in r.st.registry && r.st.registry[id] == e && e.hasTimestamp && FieldsFit(dynamic, Tags(e.fields), vs)
    ensures var both := Then(r, EmitEvent(r.st, id, dynamic, e, ts, vs));
            IsRead(dia, dec, both) && Open(types, both.st, carried)
  {
    hide Open, Run, Coupled, FieldsFit, EmitEvent;
    var dec' := Run(dia, dec, EncodeWires(r.wires)).st;
    EventIsRead(dia, types, carried, r.st, dec', id, dynamic, e, ts, vs);
    ThenIsRead(dia, dec, r, EmitEvent(r.st, id, dynamic, e, ts, vs));
  }

  /** The continuation writes an annotated type again before the next reset. */
  predicate Trips(carried: set<nat>, ops: seq<Op>) {
    ops != [] && !ops[0].OpReset? && (WritesAnnotated(carried, ops[0]) || Trips(carried, ops[1..]))
  }

  lemma {:induction false} NothingTrips(ops: seq<Op>)
    ensures !Trips({}, ops)
  {
    if ops != [] { NothingTrips(ops[1..]); }
  }

  lemma {:induction false} RunIsRead(dia: Dialect, types: map<nat, EventType>, carried: set<nat>, st: EncState,
                                     dec: DecState, ops: seq<Op>)
    requires dia != Strict && TypesOk(types) && Open(types, st, carried) && Coupled(st, dec) && AllFit(types, st, ops)
    requires dia == Js || !Trips(carried, ops)
    ensures IsRead(dia, dec, Perform(st, ops))
    decreases ops
  {
    hide Open, Coupled, PlayAll, Do, OpFits, Run, WritesAnnotated;
    if ops == [] {
      NothingPlays(dec);
      PlayedIsRead(dia, st, dec, Perform(st, ops));
    } else {
      var e := Do(st, ops[0]);
      var left := if ops[0].OpReset? then {} else carried;
      if ops[0].OpReset? {
        DoIsReset(st);
        ResetIsRead(dia, types, st, dec);
        NothingTrips(ops[1..]);
      } else {
        OpIsRead(dia, types, carried, st, dec, ops[0]);
      }
      var dec' := Run(dia, dec, EncodeWires(e.wires)).st;
      RunIsRead(dia, types, left, e.st, dec', ops[1..]);
      ThenIsRead(dia, dec, e, Perform(e.st, ops[1..]));
    }
  }

  lemma DoIsReset(st: EncState)
    ensures Do(st, OpReset) == ResetTo(st)
  {
    hide ResetTo;
  }

  // ----- where it trips

  /** No annotated type that came with the stream was written since. */
  predicate Pending(types: map<nat, EventType>, carried: set<nat>, st: EncState) {
    carried <= st.registry.Keys
    && forall t :: t in types && Annotated(carried, types[t]) ==> !HasBit(st.bitset, types[t].slot)
  }

  predicate KeepsBits(st: EncState, st': EncState) {
    st.registry.Keys <= st'.registry.Keys && st'.bitset == st.bitset
  }

  lemma EnsureKeepsBits(st: EncState, e: SchemaEntry)
    ensures KeepsBits(st, EnsureRegistered(st, e).st)
  {
    hide SchemaWires, SchemaLog;
  }

  /** Only writing a fast type marks a bit, its own. */
  lemma ResolveKeepsBits(st: EncState, t: EventType)
    ensures var st' := ResolveId(st, t).st;
            KeepsBits(st, st')
            || (0 < t.slot < STATIC_WIRE_ID_LIMIT && st.registry.Keys <= st'.registry.Keys
                && st'.bitset == SetBit(st.bitset, t.slot))
  {
    hide EnsureRegistered, CacheSlot, HasBit, SetBit, SchemaWires, SchemaLog;
    EnsureKeepsBits(st, t.entry);
  }

  lemma MarkKeepsPending(types: map<nat, EventType>, carried: set<nat>, st: EncState, t: EventType, st': EncState)
    requires TypesOk(types) && Pending(types, carried, st) && t.typeId in types && types[t.typeId] == t
    requires !Annotated(carried, t)
    requires 0 < t.slot < STATIC_WIRE_ID_LIMIT && st.registry.Keys <= st'.registry.Keys
    requires st'.bitset == SetBit(st.bitset, t.slot)
    ensures Pending(types, carried, st')
  {
    hide EntryFits, HasBit, SetBit;
  }

  lemma OpKeepsPending(types: map<nat, EventType>, carried: set<nat>, st: EncState, op: Op)
    requires TypesOk(types) && Pending(types, carried, st) && OpFits(types, st, op)
    requires !op.OpReset? && !WritesAnnotated(carried, op)
    ensures Pending(types, carried, Do(st, op).st)
  {
    hide TypesOk, CanRegister, CanResolve, FieldsFit, HasBit, SetBit, EnsureRegistered, ResolveId;
    match op {
      case OpRegister(e) => EnsureKeepsBits(st, e);
      case OpWriteEvent(e, _) => EnsureKeepsBits(st, e);
      case OpWrite(t, _, _) =>
        ResolveKeepsBits(st, t);
        if !KeepsBits(st, ResolveId(st, t).st) { MarkKeepsPending(types, carried, st, t, ResolveId(st, t).st); }
      case _ =>
    }
  }

  lemma FirstWire(types: map<nat, EventType>, carried: set<nat>, st: EncState, op: Op)
    requires Open(types, st, carried) && Pending(types, carried, st) && OpFits(types, st, op)
    requires WritesAnnotated(carried, op)
    ensures var t := op.t;
            t.slot in st.registry && st.registry[t.slot] == t.entry && EntryFits(t.entry)
            && Do(st, op).wires != [] && Do(st, op).wires[0] == WireSchema(t.slot, t.entry)
  {
    hide EntryFits, HasBit, EmitEvent, FieldsFit, RegistryOpen, NamesOpen, TypesOpen, SlotsInv;
    var t := op.t;
    var id: nat := t.slot;
    assert id in carried && types[t.typeId].slot == id;
    TooLongExcluded(t.entry);
  }

  lemma TripsHere(dia: Dialect, types: map<nat, EventType>, carried: set<nat>, st: EncState, dec: DecState, op: Op,
                  tail: seq<Wire>)
    requires (dia == Owned || dia == Ref) && Open(types, st, carried) && Pending(types, carried, st) && Coupled(st, dec)
    requires OpFits(types, st, op) && WritesAnnotated(carried, op)
    ensures Run(dia, dec, EncodeWires(Do(st, op).wires + tail)).ending.Failed?
  {
    hide Open, Pending, Coupled, Do, OpFits, Run, EncodeWire;
    FirstWire(types, carried, st, op);
    var ws := Do(st, op).wires + tail;
    assert ws[0] == Do(st, op).wires[0];
    SecondIsRefused(dia, st, dec, op.t.slot, op.t.entry, EncodeWires(ws[1..]));
  }

  /** Both Rust decoders stop there. */
  lemma {:induction false} RunTrips(dia: Dialect, types: map<nat, EventType>, carried: set<nat>, st: EncState,
                                    dec: DecState, ops: seq<Op>)
    requires (dia == Owned || dia == Ref) && TypesOk(types) && Open(types, st, carried) && Pending(types, carried, st)
    requires Coupled(st, dec) && AllFit(types, st, ops) && Trips(carried, ops)
    ensures !Run(dia, dec, EncodeWires(Perform(st, ops).wires)).Complete()
    decreases ops
  {
    hide Open, Pending, Coupled, Do, OpFits, Run, WritesAnnotated, EncodeWire;
    var op := ops[0];
    var e, tail := Do(st, op), Perform(Do(st, op).st, ops[1..]);
    if WritesAnnotated(carried, op) {
      TripsHere(dia, types, carried, st, dec, op, tail.wires);
    } else {
      OpIsRead(dia, types, carried, st, dec, op);
      OpKeepsPending(types, carried, st, op);
      var dec' := Run(dia, dec, EncodeWires(e.wires)).st;
      RunTrips(dia, types, carried, e.st, dec', ops[1..]);
      RunConcat(dia, dec, EncodeWires(e.wires), EncodeWires(tail.wires));
      EncodeWiresAppend(e.wires, tail.wires);
    }
  }

  // ----- the theorem

  /** Decode, then resume, with fast slots: whatever is recorded next, prefix and
      continuation decode completely in decode.js always, and in the Rust decoders exactly
      if before the next reset no type is written that has annotations and that the stream
      declares under a fast slot. Then they give what both encoders were told, and end in
      the encoder's state. */
  lemma ResumeWithFastTypes(dia: Dialect, types: map<nat, EventType>, before: seq<Op>, resumed: EncState, ops: seq<Op>)
    requires dia != Strict && TypesOk(types) && AllFit(types, Empty(), before)
    requires DecodeStream(dia, Output(before)).Some? && Resumed(DecodeStream(dia, Output(before)).value.st, resumed)
    requires AllFit(types, resumed, ops)
    ensures var e := Perform(resumed, ops);
            var whole := DecodeStream(dia, Output(before) + EncodeWires(e.wires));
            whole.Some?
            && (whole.value.Complete() <==> dia == Js || !Trips(resumed.registry.Keys, ops))
            && (whole.value.Complete() ==>
                  whole.value.frames == Perform(Empty(), before).log + e.log && Coupled(e.st, whole.value.st))
  {
    hide Inv, Open, Pending, PlayAll, Perform, Run, Coupled, AllFit, Headers, EncodeWires, Trips;
    EncoderDecoderCoupling(dia, types, before);
    var original, dec := Perform(Empty(), before), DecodeStream(dia, Output(before)).value.st;
    ResumedIsOpen(types, original.st, dec, resumed);
    var carried := dec.registry.Keys;
    ResumedRegistry(dec, resumed);
    var a, b := Output(before), EncodeWires(Perform(resumed, ops).wires);
    if dia == Js || !Trips(carried, ops) {
      RunIsRead(dia, types, carried, resumed, dec, ops);
    } else {
      ResumedIsPending(types, dec, resumed);
      RunTrips(dia, types, carried, resumed, dec, ops);
    }
    RunConcat(dia, FRESH, a[5..], b);
    assert (a + b)[5..] == a[5..] + b;
    assert (a + b)[..4] == a[..4];
  }

  lemma ResumedRegistry(d: DecState, st: EncState)
    requires Resumed(d, st)
    ensures st.registry == d.registry
  {
    hide PoolFrom, NamesFrom, NextFrom;
  }

  lemma ResumedIsPending(types: map<nat, EventType>, d: DecState, st: EncState)
    requires Resumed(d, st)
    ensures Pending(types, d.registry.Keys, st)
  {
    hide PoolFrom, NamesFrom, NextFrom;
    assert forall id: nat :: id < STATIC_WIRE_ID_LIMIT ==> !HasBit(NO_BITS, id);
  }
}
