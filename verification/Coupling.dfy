/** The whole-run invariant that ties the encoder to the decoder reading its output. */
module Coupling {
  import opened Bytes
  import opened Values
  import opened Frames
  import opened Machine
  import opened Playback
  import opened EncoderSpec
  import Utf8

  /** The derived types of a program, by TypeId. Claimed slots are distinct, which is what
      `type_slot()` guarantees. */
  predicate TypesOk(types: map<nat, EventType>) {
    (forall t :: t in types ==> types[t].typeId == t && EntryFits(types[t].entry) && types[t].entry.hasTimestamp)
    && (forall t, u :: t in types && u in types && t != u && types[t].slot != 0 ==> types[t].slot != types[u].slot)
  }

  // ----- the encoder's invariant

  /** Dynamic ids are exactly 256 .. nextId, fast ids exactly the marked bits. */
  predicate RegistryInv(st: EncState) {
    STATIC_WIRE_ID_LIMIT <= st.nextId
    && (forall id :: id in st.registry ==> id < st.nextId && EntryFits(st.registry[id]))
    && (forall id: nat :: STATIC_WIRE_ID_LIMIT <= id < st.nextId ==> id in st.registry)
    && (forall id: nat :: id < STATIC_WIRE_ID_LIMIT ==> (id in st.registry <==> HasBit(st.bitset, id)))
  }

  /** Schema names and dynamic ids are in one-to-one correspondence. */
  predicate NamesInv(st: EncState) {
    (forall k :: k in st.schemaIds && k.NameKey? ==>
       st.schemaIds[k] >= STATIC_WIRE_ID_LIMIT && st.schemaIds[k] in st.registry
       && st.registry[st.schemaIds[k]].name == k.name)
    && (forall id :: id in st.registry && id >= STATIC_WIRE_ID_LIMIT ==>
       NameKey(st.registry[id].name) in st.schemaIds && st.schemaIds[NameKey(st.registry[id].name)] == id)
  }

  /** A known Rust type has its schema's id. */
  predicate TypesInv(types: map<nat, EventType>, st: EncState) {
    forall k :: k in st.schemaIds && k.TypeKey? ==>
      k.typeId in types && st.schemaIds[k] >= STATIC_WIRE_ID_LIMIT
      && st.schemaIds[k] in st.registry && st.registry[st.schemaIds[k]] == types[k.typeId].entry
  }

  /** A set entry of the slot cache stands for the hash map's answer. */
  predicate SlotsInv(types: map<nat, EventType>, st: EncState) {
    forall t :: t in types && types[t].slot < |st.slotCache| && st.slotCache[types[t].slot] != 0 ==>
      types[t].slot != 0 && TypeKey(t) in st.schemaIds && st.slotCache[types[t].slot] - 1 == st.schemaIds[TypeKey(t)]
  }

  /** A marked fast id has its type's schema. */
  predicate FastInv(types: map<nat, EventType>, st: EncState)
  {
    forall t :: t in types && 0 < types[t].slot < STATIC_WIRE_ID_LIMIT && HasBit(st.bitset, types[t].slot) ==>
      types[t].slot in st.registry && st.registry[types[t].slot] == types[t].entry
  }

  predicate Inv(types: map<nat, EventType>, st: EncState) {
    RegistryInv(st) && NamesInv(st) && TypesInv(types, st) && SlotsInv(types, st) && FastInv(types, st)
  }

  // ----- the coupling

  /** The decoder's pool is the encoder's pool read backwards, its ids are 0 .. next. */
  ghost predicate Inverse<K(!new)>(m: map<K, u32>, n: map<nat, K>, next: nat) {
    (forall k :: k in m ==> m[k] in n && n[m[k]] == k)
    && (forall i :: i in n ==> n[i] in m && m[n[i]] == i)
    && (forall i: nat :: i in n <==> i < next)
  }

  ghost predicate Coupled(st: EncState, dec: DecState) {
    dec.registry == st.registry && dec.cache == st.registry && dec.base == st.base
    && Inverse(st.strings, dec.strings, st.nextString) && Inverse(st.stacks, dec.stacks, st.nextStack)
  }

  lemma CoupledIsSynced(st: EncState, dec: DecState)
    requires Coupled(st, dec)
    ensures Synced(dec)
  {
  }

  /** An effect that a decoder reads as intended, and ends coupled with the encoder. */
  ghost predicate Plays<R>(dec: DecState, e: Emit<R>) {
    var p := PlayAll(dec, e.wires);
    p.Some? && p.value.frames == e.log && Coupled(e.st, p.value.st)
  }

  /** Such an effect that keeps the encoder's invariant too. */
  ghost predicate Sound<R>(types: map<nat, EventType>, dec: DecState, e: Emit<R>) {
    Plays(dec, e) && Inv(types, e.st)
  }

  // ----- what an operation may be given

  predicate CanRegister(st: EncState, e: SchemaEntry) {
    EntryFits(e) && (NameKey(e.name) in st.schemaIds || st.nextId < 0xFFFF)
  }

  /** A type with a fast slot takes no dynamic id. */
  predicate CanResolve(st: EncState, t: EventType) {
    if 0 < t.slot < STATIC_WIRE_ID_LIMIT then EntryFits(t.entry) else CanRegister(st, t.entry)
  }

  /** What Rust's types, the wire's length fields and the schema ask of a caller. */
  predicate OpFits(types: map<nat, EventType>, st: EncState, op: Op) {
    match op
    case OpIntern(s) => Utf8.Valid(s) && |s| < TWO_TO_THE_32 && (s in st.strings || st.nextString < 0xFFFF_FFFF)
    case OpStack(frames) => |frames| < TWO_TO_THE_32 && (frames in st.stacks || st.nextStack < 0xFFFF_FFFF)
    case OpRegister(e) => CanRegister(st, e)
    case OpWriteEvent(e, vs) =>
      CanRegister(st, e) && e.hasTimestamp
      && (|vs| == |e.fields| + 1 ==> FieldsFit(true, Tags(e.fields), vs[1..]))
    case OpWrite(t, _, vs) =>
      t.typeId in types && types[t.typeId] == t && CanResolve(st, t) && FieldsFit(false, Tags(t.entry.fields), vs)
    case OpReset => true
  }

  // ----- frames of a schema

  lemma SchemaPlays(dec: DecState, id: u16, e: SchemaEntry)
    requires EntryFits(e) && Synced(dec) && id !in dec.registry
    ensures PlayAll(dec, SchemaWires(id, e))
         == Some(Played(SchemaLog(id, e), dec.(registry := dec.registry[id := e], cache := dec.cache[id := e])))
  {
    hide EntryFits, AnnotationFits;
    var bare := e.(annotations := []);
    var dec1 := dec.(registry := dec.registry[id := bare], cache := dec.cache[id := bare]);
    assert Play(dec, WireSchema(id, e)) == Some(Played([Schema(id, bare)], dec1));
    if e.annotations == [] {
      assert e == bare;
      PlayOne(dec, WireSchema(id, e));
    } else {
      AnnotationsPlay(dec1, id, e.annotations, e);
      PlayTwo(dec, WireSchema(id, e), WireAnnotations(id, e.annotations));
      assert dec1.registry[id := e] == dec.registry[id := e];
    }
  }

  lemma AnnotationsPlay(dec: DecState, id: u16, xs: seq<Annotation>, e: SchemaEntry)
    requires EntryFits(e) && e.annotations == xs
    requires Synced(dec) && id in dec.registry && dec.registry[id] == e.(annotations := [])
    ensures Play(dec, WireAnnotations(id, xs))
         == Some(Played([Annotations(id, xs)], dec.(registry := dec.registry[id := e], cache := dec.cache[id := e])))
  {
    hide AnnotationFits;
    assert [] + xs == xs;
  }

  lemma PlayOne(dec: DecState, w: Wire)
    requires Play(dec, w).Some?
    ensures PlayAll(dec, [w]) == Play(dec, w)
  {
    hide Play;
    var p := Play(dec, w).value;
    assert [w][1..] == [] && p.frames + [] == p.frames;
  }

  lemma PlayTwo(dec: DecState, w: Wire, w': Wire)
    requires Play(dec, w).Some? && Play(Play(dec, w).value.st, w').Some?
    ensures var p := Play(dec, w).value; PlayAll(dec, [w] + [w']) == Behind(p.frames, Play(p.st, w'))
  {
    hide Play, Behind;
    var p := Play(dec, w).value;
    PlayOne(dec, w);
    PlayOne(p.st, w');
    PlayAllAppend(dec, [w], [w']);
  }

  lemma ThenSound<R, S>(types: map<nat, EventType>, dec: DecState, first: Emit<R>, next: Emit<S>)
    requires Sound(types, dec, first) && Sound(types, PlayAll(dec, first.wires).value.st, next)
    ensures Sound(types, dec, Then(first, next))
  {
    hide PlayAll, Coupled, Inv;
    PlayAllAppend(dec, first.wires, next.wires);
  }

  // ----- registration

  /** The state after a new schema took the next dynamic id. */
  function Registered(st: EncState, e: SchemaEntry): EncState
    requires st.nextId < 0xFFFF
  {
    var id := st.nextId;
    st.(nextId := id + 1, registry := st.registry[id := e], schemaIds := st.schemaIds[NameKey(e.name) := id])
  }

  lemma RegisteredIds(st: EncState, e: SchemaEntry)
    requires RegistryInv(st) && EntryFits(e) && st.nextId < 0xFFFF
    ensures st.nextId !in st.registry && RegistryInv(Registered(st, e))
  {
    hide EntryFits, HasBit;
  }

  lemma RegisteredNames(st: EncState, e: SchemaEntry)
    requires NamesInv(st) && NameKey(e.name) !in st.schemaIds
    requires STATIC_WIRE_ID_LIMIT <= st.nextId < 0xFFFF && st.nextId !in st.registry
    ensures NamesInv(Registered(st, e))
  {
  }

  lemma RegisteredTypes(types: map<nat, EventType>, st: EncState, e: SchemaEntry)
    requires TypesInv(types, st) && SlotsInv(types, st) && st.nextId < 0xFFFF && st.nextId !in st.registry
    ensures TypesInv(types, Registered(st, e)) && SlotsInv(types, Registered(st, e))
  {
  }

  lemma RegisteredInv(types: map<nat, EventType>, st: EncState, e: SchemaEntry)
    requires Inv(types, st) && EntryFits(e) && NameKey(e.name) !in st.schemaIds && st.nextId < 0xFFFF
    ensures st.nextId !in st.registry && Inv(types, Registered(st, e))
  {
    hide EntryFits, NamesInv, TypesInv, SlotsInv, HasBit;
    RegisteredIds(st, e);
    RegisteredNames(st, e);
    RegisteredTypes(types, st, e);
  }

  lemma NothingIsSound<R>(types: map<nat, EventType>, st: EncState, dec: DecState, r: Result<R>)
    requires Inv(types, st) && Coupled(st, dec)
    ensures Sound(types, dec, Emit(st, [], [], r))
  {
  }

  lemma EnsureRegisteredSound(types: map<nat, EventType>, st: EncState, dec: DecState, e: SchemaEntry)
    requires TypesOk(types) && Inv(types, st) && Coupled(st, dec) && CanRegister(st, e)
    ensures var r := EnsureRegistered(st, e);
            Sound(types, dec, r)
            && (r.result.Okay? ==> r.result.value in r.st.registry && r.st.registry[r.result.value] == e
                                   && r.result.value >= STATIC_WIRE_ID_LIMIT)
  {
    hide EntryFits, PlayAll, NamesInv, TypesInv, SlotsInv, FastInv, Inverse;
    var r := EnsureRegistered(st, e);
    if NameKey(e.name) in st.schemaIds {
      NothingIsSound(types, st, dec, r.result);
      NamedIdIsDynamic(st, e.name);
    } else {
      TooLongExcluded(e);
      RegisteredInv(types, st, e);
      SchemaPlays(dec, st.nextId, e);
      assert r == Emit(Registered(st, e), SchemaWires(st.nextId, e), SchemaLog(st.nextId, e), Okay(st.nextId));
    }
  }

  lemma NamedIdIsDynamic(st: EncState, name: bytes)
    requires NamesInv(st) && NameKey(name) in st.schemaIds
    ensures st.schemaIds[NameKey(name)] >= STATIC_WIRE_ID_LIMIT
  {
  }

  lemma TooLongExcluded(e: SchemaEntry)
    requires EntryFits(e)
    ensures |e.annotations| <= 0xFFFF
  {
  }

  // ----- events

  lemma EventPlays(st: EncState, dec: DecState, id: u16, dynamic: bool, e: SchemaEntry, ts: u64, vs: seq<Value>)
    requires Coupled(st, dec)
    requires id in st.registry && st.registry[id] == e && e.hasTimestamp && FieldsFit(dynamic, Tags(e.fields), vs)
    ensures Plays(dec, EmitEvent(st, id, dynamic, e, ts, vs))
  {
    hide FieldsFit, PlayAll;
    var r := EmitEvent(st, id, dynamic, e, ts, vs);
    var reset := NeedsReset(st.base, ts);
    var dec1 := if reset then dec.(base := ts) else dec;
    var w := WireEvent(id, if reset then 0 else ts - st.base, dynamic, Tags(e.fields), vs);
    assert Play(dec1, w) == Some(Played(r.log, dec.(base := ts)));
    if reset {
      assert Play(dec, WireReset(ts)) == Some(Played([], dec1));
      PlayTwo(dec, WireReset(ts), w);
      BehindTwice([], [], Play(dec1, w));
    } else {
      PlayOne(dec, w);
      assert [] + [w] == [w];
    }
  }

  /** Any u64 timestamp is read back, and the bases agree again. */
  lemma EventSound(types: map<nat, EventType>, st: EncState, dec: DecState, id: u16, dynamic: bool, e: SchemaEntry,
                   ts: u64, vs: seq<Value>)
    requires Inv(types, st) && Coupled(st, dec)
    requires id in st.registry && st.registry[id] == e && e.hasTimestamp && FieldsFit(dynamic, Tags(e.fields), vs)
    ensures var r := EmitEvent(st, id, dynamic, e, ts, vs);
            Sound(types, dec, r) && PlayAll(dec, r.wires).value.frames == [Event(id, e.name, Some(ts), vs)]
            && r.st == st.(base := ts)
  {
    hide FieldsFit, Inv, Coupled, PlayAll;
    EventPlays(st, dec, id, dynamic, e, ts, vs);
    InvIgnoresBase(types, st, ts);
  }

  lemma InvIgnoresBase(types: map<nat, EventType>, st: EncState, ts: u64)
    requires Inv(types, st)
    ensures Inv(types, st.(base := ts))
  {
  }

  // ----- derived types

  lemma RegisterFastSound(types: map<nat, EventType>, st: EncState, dec: DecState, t: EventType)
    requires TypesOk(types) && Inv(types, st) && Coupled(st, dec) && t.typeId in types && types[t.typeId] == t
    requires 0 < t.slot < STATIC_WIRE_ID_LIMIT && !HasBit(st.bitset, t.slot)
    ensures var r := RegisterFast(st, t);
            Sound(types, dec, r) && r.result == Okay(t.slot) && t.slot in r.st.registry
            && r.st.registry[t.slot] == t.entry
  {
    hide EntryFits, PlayAll, Inverse, HasBit, NamesInv, TypesInv, SlotsInv;
    var r := RegisterFast(st, t);
    TooLongExcluded(t.entry);
    SchemaPlays(dec, t.slot, t.entry);
    assert r.st == st.(registry := st.registry[t.slot := t.entry], bitset := SetBit(st.bitset, t.slot));
    FastKeepsRest(types, st, t.slot, t.entry);
  }

  lemma FastKeepsRest(types: map<nat, EventType>, st: EncState, id: u16, e: SchemaEntry)
    requires NamesInv(st) && TypesInv(types, st) && SlotsInv(types, st) && id < STATIC_WIRE_ID_LIMIT
    requires id !in st.registry
    ensures var st' := st.(registry := st.registry[id := e], bitset := SetBit(st.bitset, id));
            NamesInv(st') && TypesInv(types, st') && SlotsInv(types, st')
  {
  }

  /** Remembering the id of a type, and its slot if it has one. */
  function Remembered(st: EncState, t: EventType, id: u16): EncState {
    st.(schemaIds := st.schemaIds[TypeKey(t.typeId) := id], slotCache := CacheSlot(st.slotCache, t.slot, id))
  }

  lemma CacheSlotAt(cache: seq<nat>, slot: nat, id: nat)
    ensures var c := CacheSlot(cache, slot, id);
            |c| >= |cache|
            && (slot != 0 ==> slot < |c| && c[slot] == id + 1)
            && (forall s :: 0 <= s < |c| && (s != slot || slot == 0) ==> c[s] == if s < |cache| then cache[s] else 0)
  {
  }

  lemma RememberedInv(types: map<nat, EventType>, st: EncState, t: EventType, id: u16)
    requires TypesOk(types) && Inv(types, st) && t.typeId in types && types[t.typeId] == t
    requires id in st.registry && id >= STATIC_WIRE_ID_LIMIT && st.registry[id] == t.entry
    requires TypeKey(t.typeId) in st.schemaIds ==> st.schemaIds[TypeKey(t.typeId)] == id
    ensures Inv(types, Remembered(st, t, id))
  {
    hide RegistryInv, FastInv, NamesInv, SlotsInv;
    RememberedSlots(types, st, t, id);
    RememberedNames(st, t, id);
    RegistryInvFrame(types, st, Remembered(st, t, id));
  }

  lemma RegistryInvFrame(types: map<nat, EventType>, st: EncState, st': EncState)
    requires RegistryInv(st) && FastInv(types, st)
    requires st'.registry == st.registry && st'.nextId == st.nextId && st'.bitset == st.bitset
    ensures RegistryInv(st') && FastInv(types, st')
  {
  }

  lemma RememberedNames(st: EncState, t: EventType, id: u16)
    requires NamesInv(st)
    ensures NamesInv(Remembered(st, t, id))
  {
    hide CacheSlot;
  }

  lemma RememberedSlots(types: map<nat, EventType>, st: EncState, t: EventType, id: u16)
    requires TypesOk(types) && SlotsInv(types, st) && t.typeId in types && types[t.typeId] == t
    requires TypeKey(t.typeId) in st.schemaIds ==> st.schemaIds[TypeKey(t.typeId)] == id
    ensures SlotsInv(types, Remembered(st, t, id))
  {
    hide EntryFits, CacheSlot;
    CacheSlotAt(st.slotCache, t.slot, id);
  }

  lemma ResolveDynamicSound(types: map<nat, EventType>, st: EncState, dec: DecState, t: EventType)
    requires TypesOk(types) && Inv(types, st) && Coupled(st, dec) && t.typeId in types && types[t.typeId] == t
    requires CanRegister(st, t.entry)
    ensures var r := ResolveDynamic(st, t);
            Sound(types, dec, r)
            && (r.result.Okay? ==> r.result.value in r.st.registry && r.st.registry[r.result.value] == t.entry)
  {
    hide EntryFits, PlayAll, RegistryInv, NamesInv, SlotsInv, FastInv, Inverse, CacheSlot, EnsureRegistered;
    var key := TypeKey(t.typeId);
    if key in st.schemaIds {
      RememberedInv(types, st, t, st.schemaIds[key]);
      assert st.schemaIds[key := st.schemaIds[key]] == st.schemaIds;
      NothingIsSound(types, Remembered(st, t, st.schemaIds[key]), dec, Okay(st.schemaIds[key]));
    } else {
      EnsureRegisteredSound(types, st, dec, t.entry);
      var r := EnsureRegistered(st, t.entry);
      if r.result.Okay? {
        EnsureKeepsTypes(st, t.entry, key);
        RememberedInv(types, r.st, t, r.result.value);
      }
    }
  }

  lemma EnsureKeepsTypes(st: EncState, e: SchemaEntry, key: SchemaKey)
    requires key.TypeKey?
    ensures key in EnsureRegistered(st, e).st.schemaIds <==> key in st.schemaIds
  {
  }

  lemma ResolveIdSound(types: map<nat, EventType>, st: EncState, dec: DecState, t: EventType)
    requires TypesOk(types) && Inv(types, st) && Coupled(st, dec) && t.typeId in types && types[t.typeId] == t
    requires CanResolve(st, t)
    ensures var r := ResolveId(st, t);
            Sound(types, dec, r)
            && (r.result.Okay? ==> r.result.value in r.st.registry && r.st.registry[r.result.value] == t.entry)
  {
    hide EntryFits, PlayAll, RegistryInv, NamesInv, Inverse, RegisterFast, ResolveDynamic, HasBit;
    var r := ResolveId(st, t);
    if t.slot != 0 && t.slot < STATIC_WIRE_ID_LIMIT {
      if HasBit(st.bitset, t.slot) { NothingIsSound(types, st, dec, r.result); }
      else { RegisterFastSound(types, st, dec, t); }
    } else if t.slot < |st.slotCache| && st.slotCache[t.slot] != 0 {
      NothingIsSound(types, st, dec, r.result);
    } else {
      ResolveDynamicSound(types, st, dec, t);
    }
  }

  lemma WriteDerivedSound(types: map<nat, EventType>, st: EncState, dec: DecState, t: EventType, ts: u64,
                          vs: seq<Value>)
    requires TypesOk(types) && Inv(types, st) && Coupled(st, dec) && OpFits(types, st, OpWrite(t, ts, vs))
    ensures Sound(types, dec, WriteDerived(st, t, ts, vs))
  {
    hide PlayAll, Coupled, Inv, ResolveId, EmitEvent, FieldsFit, CanResolve;
    ResolveIdSound(types, st, dec, t);
    var r := ResolveId(st, t);
    if r.result.Okay? {
      var dec' := PlayAll(dec, r.wires).value.st;
      EventSound(types, r.st, dec', r.result.value, false, t.entry, ts, vs);
      ThenSound(types, dec, r, EmitEvent(r.st, r.result.value, false, t.entry, ts, vs));
    }
  }

  lemma WriteEventSound(types: map<nat, EventType>, st: EncState, dec: DecState, e: SchemaEntry, vs: seq<Value>)
    requires TypesOk(types) && Inv(types, st) && Coupled(st, dec) && OpFits(types, st, OpWriteEvent(e, vs))
    ensures Sound(types, dec, WriteEvent(st, e, vs))
  {
    hide PlayAll, Coupled, Inv, EnsureRegistered, EmitEvent, FieldsFit, CanRegister;
    EnsureRegisteredSound(types, st, dec, e);
    var r := EnsureRegistered(st, e);
    if r.result.Okay? && vs != [] && vs[0].Varint? && vs[0].n < TWO_TO_THE_64 && |vs| - 1 == |e.fields| {
      var dec' := PlayAll(dec, r.wires).value.st;
      EventSound(types, r.st, dec', r.result.value, true, e, vs[0].n, vs[1..]);
      ThenSound(types, dec, r, EmitEvent(r.st, r.result.value, true, e, vs[0].n, vs[1..]));
    }
  }

  // ----- interning and reset

  lemma InverseExtends<K(!new)>(m: map<K, u32>, n: map<nat, K>, next: u32, k: K)
    requires Inverse(m, n, next) && k !in m
    ensures next !in n && k !in n.Values && Inverse(m[k := next], n[next := k], next + 1)
  {
  }

  lemma AddOneString(m: map<nat, bytes>, id: u32, s: bytes)
    requires Utf8.Valid(s) && id !in m && s !in m.Values
    ensures AddStrings(Strict, m, [PoolEntry(id, s)]) == Some(m[id := s])
  {
    assert [PoolEntry(id, s)][1..] == [];
  }

  lemma OneStringFits(id: u32, s: bytes)
    requires |s| < TWO_TO_THE_32
    ensures WireFits(WireStrings([PoolEntry(id, s)]))
  {
  }

  lemma OneStringApplies(dec: DecState, id: u32, s: bytes)
    requires Utf8.Valid(s) && id !in dec.strings && s !in dec.strings.Values
    ensures Apply(Strict, dec, StringPool([PoolEntry(id, s)])) == Applied(true, dec.(strings := dec.strings[id := s]))
  {
    hide AddStrings, Utf8.Valid;
    AddOneString(dec.strings, id, s);
  }

  lemma OneStringPlays(dec: DecState, id: u32, s: bytes)
    requires Utf8.Valid(s) && |s| < TWO_TO_THE_32 && id !in dec.strings && s !in dec.strings.Values
    ensures var es := [PoolEntry(id, s)];
            Play(dec, WireStrings(es)) == Some(Played([StringPool(es)], dec.(strings := dec.strings[id := s])))
  {
    hide Apply, WireFits, Utf8.Valid;
    OneStringFits(id, s);
    OneStringApplies(dec, id, s);
  }

  /** A new string takes the next id on both sides. */
  lemma NewStringIsNew(st: EncState, dec: DecState, s: bytes)
    requires Coupled(st, dec) && s !in st.strings && st.nextString < 0xFFFF_FFFF
    ensures st.nextString !in dec.strings && s !in dec.strings.Values
    ensures Coupled(InternString(st, s).st, dec.(strings := dec.strings[st.nextString := s]))
  {
    hide Inverse;
    InverseExtends(st.strings, dec.strings, st.nextString, s);
  }

  lemma NewStringPlays(st: EncState, dec: DecState, s: bytes)
    requires Coupled(st, dec) && Utf8.Valid(s) && |s| < TWO_TO_THE_32 && s !in st.strings && st.nextString < 0xFFFF_FFFF
    ensures var r := InternString(st, s);
            Play(dec, r.wires[0]) == Some(Played(r.log, dec.(strings := dec.strings[st.nextString := s])))
            && Coupled(r.st, dec.(strings := dec.strings[st.nextString := s]))
  {
    hide Coupled, Play, Utf8.Valid;
    NewStringIsNew(st, dec, s);
    OneStringPlays(dec, st.nextString, s);
  }

  lemma StringPlays(st: EncState, dec: DecState, s: bytes)
    requires Coupled(st, dec) && Utf8.Valid(s) && |s| < TWO_TO_THE_32
    ensures Plays(dec, InternString(st, s))
  {
    hide PlayAll, Coupled, Play, Utf8.Valid;
    var r := InternString(st, s);
    if r.wires != [] {
      NewStringPlays(st, dec, s);
      PlayOne(dec, r.wires[0]);
    } else {
      NothingPlays(dec);
    }
  }

  lemma InternStringSound(types: map<nat, EventType>, st: EncState, dec: DecState, s: bytes)
    requires Inv(types, st) && Coupled(st, dec) && OpFits(types, st, OpIntern(s))
    ensures Sound(types, dec, InternString(st, s))
  {
    hide Inv, Plays;
    StringPlays(st, dec, s);
    InvIgnoresPools(types, st, InternString(st, s).st);
  }

  lemma AddOneStack(m: map<nat, seq<u64>>, id: u32, frames: seq<u64>)
    requires id !in m && frames !in m.Values
    ensures AddStacks(Strict, m, [StackEntry(id, frames)]) == Some(m[id := frames])
  {
    assert [StackEntry(id, frames)][1..] == [];
  }

  lemma OneStackPlays(dec: DecState, id: u32, frames: seq<u64>)
    requires |frames| < TWO_TO_THE_32 && id !in dec.stacks && frames !in dec.stacks.Values
    ensures var es := [StackEntry(id, frames)];
            Play(dec, WireStacks(es)) == Some(Played([StackPool(es)], dec.(stacks := dec.stacks[id := frames])))
  {
    hide AddStacks;
    AddOneStack(dec.stacks, id, frames);
  }

  lemma NewStackIsNew(st: EncState, dec: DecState, frames: seq<u64>)
    requires Coupled(st, dec) && frames !in st.stacks && st.nextStack < 0xFFFF_FFFF
    ensures st.nextStack !in dec.stacks && frames !in dec.stacks.Values
    ensures Coupled(InternStack(st, frames).st, dec.(stacks := dec.stacks[st.nextStack := frames]))
  {
    hide Inverse;
    InverseExtends(st.stacks, dec.stacks, st.nextStack, frames);
  }

  lemma NewStackPlays(st: EncState, dec: DecState, frames: seq<u64>)
    requires Coupled(st, dec) && |frames| < TWO_TO_THE_32 && frames !in st.stacks && st.nextStack < 0xFFFF_FFFF
    ensures var r := InternStack(st, frames);
            Play(dec, r.wires[0]) == Some(Played(r.log, dec.(stacks := dec.stacks[st.nextStack := frames])))
            && Coupled(r.st, dec.(stacks := dec.stacks[st.nextStack := frames]))
  {
    hide Coupled, Play;
    NewStackIsNew(st, dec, frames);
    OneStackPlays(dec, st.nextStack, frames);
  }

  lemma StackPlays(st: EncState, dec: DecState, frames: seq<u64>)
    requires Coupled(st, dec) && |frames| < TWO_TO_THE_32
    ensures Plays(dec, InternStack(st, frames))
  {
    hide PlayAll, Coupled, Play;
    var r := InternStack(st, frames);
    if r.wires != [] {
      NewStackPlays(st, dec, frames);
      PlayOne(dec, r.wires[0]);
    } else {
      NothingPlays(dec);
    }
  }

  lemma InternStackSound(types: map<nat, EventType>, st: EncState, dec: DecState, frames: seq<u64>)
    requires Inv(types, st) && Coupled(st, dec) && OpFits(types, st, OpStack(frames))
    ensures Sound(types, dec, InternStack(st, frames))
  {
    hide Inv, Plays;
    StackPlays(st, dec, frames);
    InvIgnoresPools(types, st, InternStack(st, frames).st);
  }

  lemma NothingPlays(dec: DecState)
    ensures PlayAll(dec, []) == Some(Played([], dec))
  {
  }

  lemma InvIgnoresPools(types: map<nat, EventType>, st: EncState, st': EncState)
    requires Inv(types, st)
    requires st' == st.(strings := st'.strings, nextString := st'.nextString,
                        stacks := st'.stacks, nextStack := st'.nextStack)
    ensures Inv(types, st')
  {
  }

  lemma EmptyIsCoupled(types: map<nat, EventType>, n: nat)
    ensures Inv(types, Empty().(slotCache := seq(n, _ => 0))) && Coupled(Empty().(slotCache := seq(n, _ => 0)), FRESH)
    ensures Inv(types, Empty()) && Coupled(Empty(), FRESH)
  {
    assert forall id: nat :: id < STATIC_WIRE_ID_LIMIT ==> !HasBit(NO_BITS, id);
  }

  lemma ResetSound(types: map<nat, EventType>, st: EncState, dec: DecState)
    ensures Sound(types, dec, ResetTo(st))
  {
    EmptyIsCoupled(types, |st.slotCache|);
    assert Play(dec, WireHeader) == Some(Played([], FRESH));
    PlayOne(dec, WireHeader);
  }

  // ----- runs

  /** Every operation of every kind is read as intended and keeps both sides coupled. */
  lemma OpSound(types: map<nat, EventType>, st: EncState, dec: DecState, op: Op)
    requires TypesOk(types) && Inv(types, st) && Coupled(st, dec) && OpFits(types, st, op)
    ensures Sound(types, dec, Do(st, op))
  {
    hide Inv, Coupled, PlayAll;
    match op {
      case OpIntern(s) => InternStringSound(types, st, dec, s);
      case OpStack(frames) => InternStackSound(types, st, dec, frames);
      case OpRegister(e) => EnsureRegisteredSound(types, st, dec, e);
      case OpWriteEvent(e, vs) => WriteEventSound(types, st, dec, e, vs);
      case OpWrite(t, ts, vs) => WriteDerivedSound(types, st, dec, t, ts, vs);
      case OpReset => ResetSound(types, st, dec);
    }
  }

  predicate AllFit(types: map<nat, EventType>, st: EncState, ops: seq<Op>)
    decreases ops
  {
    ops == [] || (OpFits(types, st, ops[0]) && AllFit(types, Do(st, ops[0]).st, ops[1..]))
  }

  lemma {:induction false} RunSound(types: map<nat, EventType>, st: EncState, dec: DecState, ops: seq<Op>)
    requires TypesOk(types) && Inv(types, st) && Coupled(st, dec) && AllFit(types, st, ops)
    ensures Sound(types, dec, Perform(st, ops))
    decreases ops
  {
    hide Inv, Coupled, PlayAll, Do, OpFits;
    if ops == [] {
      NothingIsSound(types, st, dec, Okay(0));
    } else {
      var e := Do(st, ops[0]);
      OpSound(types, st, dec, ops[0]);
      var dec' := PlayAll(dec, e.wires).value.st;
      RunSound(types, e.st, dec', ops[1..]);
      ThenSound(types, dec, e, Perform(e.st, ops[1..]));
    }
  }

  /** The bytes of a run of a new encoder. */
  function Output(ops: seq<Op>): bytes {
    var e := Perform(Empty(), ops);
    HEADER + EncodeWires(e.wires)
  }

  /** A run of the decoder that gives back what the encoder was told. */
  ghost predicate ReadBack(e: Emit<nat>, o: Outcome) {
    o.Complete() && o.rest == [] && o.frames == e.log && o.restarts == Headers(e.wires) && Coupled(e.st, o.st)
  }

  /** The main theorem: after any run of well-formed operations, every decoder reads all
      bytes written so far, gives exactly the logged frames with their absolute timestamps,
      and ends with the encoder's registry, the contents of its pools and its base. */
  lemma EncoderDecoderCoupling(dia: Dialect, types: map<nat, EventType>, ops: seq<Op>)
    requires TypesOk(types) && AllFit(types, Empty(), ops)
    ensures Inv(types, Perform(Empty(), ops).st)
    ensures DecodeStream(dia, Output(ops)).Some?
    ensures ReadBack(Perform(Empty(), ops), DecodeStream(dia, Output(ops)).value)
  {
    hide Inv, PlayAll, Perform, Run;
    var e := Perform(Empty(), ops);
    EmptyIsCoupled(types, 0);
    RunSound(types, Empty(), FRESH, ops);
    PlayedBytesDecode(FRESH, e.wires);
    StrictRunIsCommon(dia, FRESH, EncodeWires(e.wires));
    HeaderReads(EncodeWires(e.wires));
  }

  // ----- between two headers

  predicate NoResets(ops: seq<Op>) {
    forall i :: 0 <= i < |ops| ==> !ops[i].OpReset?
  }

  lemma {:induction false} HeadersOf(ws: seq<Wire>)
    requires NoHeader(ws)
    ensures Headers(ws) == 0
  {
    if ws != [] { HeadersOf(ws[1..]); }
  }

  predicate NoHeader(ws: seq<Wire>) {
    forall i :: 0 <= i < |ws| ==> !ws[i].WireHeader?
  }

  lemma EnsureWritesNoHeader(st: EncState, e: SchemaEntry)
    ensures NoHeader(EnsureRegistered(st, e).wires)
  {
    assert NoHeader(SchemaWires(st.nextId, e));
  }

  lemma ResolveWritesNoHeader(st: EncState, t: EventType)
    ensures NoHeader(ResolveId(st, t).wires)
  {
    hide EnsureRegistered, CacheSlot, Register, HasBit, SetBit;
    EnsureWritesNoHeader(st, t.entry);
    assert NoHeader(SchemaWires(t.slot, t.entry));
  }

  lemma NoHeaderWritten(st: EncState, op: Op)
    requires !op.OpReset?
    ensures Headers(Do(st, op).wires) == 0
  {
    hide Headers, EnsureRegistered, ResolveId;
    match op {
      case OpRegister(e) => EnsureWritesNoHeader(st, e);
      case OpWriteEvent(e, _) => EnsureWritesNoHeader(st, e);
      case OpWrite(t, _, _) => ResolveWritesNoHeader(st, t);
      case _ =>
    }
    HeadersOf(Do(st, op).wires);
  }

  lemma {:induction false} NoHeadersWritten(st: EncState, ops: seq<Op>)
    requires NoResets(ops)
    ensures Headers(Perform(st, ops).wires) == 0
    decreases ops
  {
    hide Do;
    if ops != [] {
      NoHeaderWritten(st, ops[0]);
      var e := Do(st, ops[0]);
      NoHeadersWritten(e.st, ops[1..]);
      EncodeWiresAppend(e.wires, Perform(e.st, ops[1..]).wires);
    }
  }

  /** Wire-id discipline: in every run without reset_to, from every reachable state, each
      event's id was declared by exactly one schema frame since the last header; and after
      it the bitset marks exactly the fast ids, the dynamic ids are 256 up to the next one,
      and every set entry of the slot cache is its type's id. */
  lemma WireIdDiscipline(types: map<nat, EventType>, st: EncState, dec: DecState, ops: seq<Op>)
    requires TypesOk(types) && Inv(types, st) && Coupled(st, dec) && AllFit(types, st, ops) && NoResets(ops)
    ensures DeclaredOnce(Perform(st, ops).log, st.registry.Keys)
    ensures Inv(types, Perform(st, ops).st)
  {
    hide Inv, PlayAll, Perform, Run, DeclaredOnce;
    var e := Perform(st, ops);
    RunSound(types, st, dec, ops);
    PlayedBytesDecode(dec, e.wires);
    NoHeadersWritten(st, ops);
    StrictRunDeclaresOnce(dec, EncodeWires(e.wires));
  }

  /** Interning over whole runs: between two headers every content is written at most once,
      under an id of its own, and resolves to that content in the reader from then on. */
  lemma InterningDiscipline(types: map<nat, EventType>, st: EncState, dec: DecState, ops: seq<Op>)
    requires TypesOk(types) && Inv(types, st) && Coupled(st, dec) && AllFit(types, st, ops) && NoResets(ops)
    ensures var e := Perform(st, ops);
            PlayAll(dec, e.wires).Some?
            && Grows(dec.strings, PooledStrings(e.log), PlayAll(dec, e.wires).value.st.strings)
            && Grows(dec.stacks, PooledStacks(e.log), PlayAll(dec, e.wires).value.st.stacks)
  {
    hide Inv, PlayAll, Perform, Run, Grows;
    var e := Perform(st, ops);
    RunSound(types, st, dec, ops);
    PlayedBytesDecode(dec, e.wires);
    NoHeadersWritten(st, ops);
    StrictRunGrowsPools(dec, EncodeWires(e.wires));
  }

  /** A handle stays good: an id that intern_string returned is returned again for equal
      content, never for other content, and reads back as that content after any later
      run without reset_to. */
  lemma HandleStaysGood(types: map<nat, EventType>, st: EncState, dec: DecState, s: bytes, ops: seq<Op>, s': bytes)
    requires TypesOk(types) && Inv(types, st) && Coupled(st, dec) && OpFits(types, st, OpIntern(s))
    requires AllFit(types, InternString(st, s).st, ops) && NoResets(ops)
    ensures var first := InternString(st, s);
            var later := Perform(first.st, ops);
            first.result.Okay?
            && var p := PlayAll(dec, first.wires + later.wires);
               p.Some? && first.result.value in p.value.st.strings && p.value.st.strings[first.result.value] == s
               && InternString(later.st, s) == Emit(later.st, [], [], first.result)
               && (s' != s ==> InternString(later.st, s').result != first.result)
  {
    hide Inv, PlayAll, Perform, AllFit, Grows;
    var first := InternString(st, s);
    InternStringSound(types, st, dec, s);
    var dec1 := PlayAll(dec, first.wires).value.st;
    var id := first.result.value;
    assert id in dec1.strings && dec1.strings[id] == s;
    var later := Perform(first.st, ops);
    RunSound(types, first.st, dec1, ops);
    InterningDiscipline(types, first.st, dec1, ops);
    var dec2 := PlayAll(dec1, later.wires).value.st;
    GrowsOnce(dec1.strings, PooledStrings(later.log), dec2.strings);
    PlayAllAppend(dec, first.wires, later.wires);
    assert dec2.strings[id] == s && later.st.strings[s] == id;
  }

  /** The same for intern_stack_frames. */
  lemma StackHandleStaysGood(types: map<nat, EventType>, st: EncState, dec: DecState, f: seq<u64>, ops: seq<Op>,
                             f': seq<u64>)
    requires TypesOk(types) && Inv(types, st) && Coupled(st, dec) && OpFits(types, st, OpStack(f))
    requires AllFit(types, InternStack(st, f).st, ops) && NoResets(ops)
    ensures var first := InternStack(st, f);
            var later := Perform(first.st, ops);
            first.result.Okay?
            && var p := PlayAll(dec, first.wires + later.wires);
               p.Some? && first.result.value in p.value.st.stacks && p.value.st.stacks[first.result.value] == f
               && InternStack(later.st, f) == Emit(later.st, [], [], first.result)
               && (f' != f ==> InternStack(later.st, f').result != first.result)
  {
    hide Inv, PlayAll, Perform, AllFit, Grows;
    var first := InternStack(st, f);
    InternStackSound(types, st, dec, f);
    var dec1 := PlayAll(dec, first.wires).value.st;
    var id := first.result.value;
    assert id in dec1.stacks && dec1.stacks[id] == f;
    var later := Perform(first.st, ops);
    RunSound(types, first.st, dec1, ops);
    InterningDiscipline(types, first.st, dec1, ops);
    var dec2 := PlayAll(dec1, later.wires).value.st;
    GrowsOnce(dec1.stacks, PooledStacks(later.log), dec2.stacks);
    PlayAllAppend(dec, first.wires, later.wires);
    assert dec2.stacks[id] == f && later.st.stacks[f] == id;
  }
}
