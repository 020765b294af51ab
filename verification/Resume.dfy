/** Resuming: an encoder made from decoded state goes on as the original would have. */
module Resume {
  import opened Bytes
  import opened Values
  import opened Frames
  import opened Machine
  import opened Playback
  import opened EncoderSpec
  import opened Coupling

  // ----- from_decoder

  /** The pool read backwards, and the first id above all of its ids. */
  ghost predicate PoolFrom<K(!new)>(n: map<nat, K>, m: map<K, u32>, next: u32) {
    (forall i :: i in n ==> n[i] in m && i < next)
    && (forall k :: k in m ==> m[k] in n && n[m[k]] == k)
    && (next == 0 || (next - 1) in n)
  }

  ghost predicate NamesFrom(registry: map<nat, SchemaEntry>, ids: map<SchemaKey, u16>) {
    (forall id :: id in registry ==> NameKey(registry[id].name) in ids)
    && (forall k :: k in ids ==> k.NameKey? && ids[k] in registry && registry[ids[k]].name == k.name)
  }

  ghost predicate NextFrom(registry: map<nat, SchemaEntry>, next: u16) {
    STATIC_WIRE_ID_LIMIT <= next && (forall id :: id in registry ==> id < next)
    && (next == STATIC_WIRE_ID_LIMIT || (next - 1) in registry)
  }

  /** What from_decoder builds, whatever order the hash maps are walked in. */
  ghost predicate Resumed(d: DecState, st: EncState) {
    st.registry == d.registry && st.base == d.base && st.slotCache == [] && st.bitset == NO_BITS
    && PoolFrom(d.strings, st.strings, st.nextString) && PoolFrom(d.stacks, st.stacks, st.nextStack)
    && NamesFrom(d.registry, st.schemaIds) && NextFrom(d.registry, st.nextId)
  }

  /** The loop over a decoded pool. */
  method InvertPool<K(!new,==)>(n: map<nat, K>) returns (m: map<K, u32>, next: u32)
    requires forall i :: i in n ==> i < 0xFFFF_FFFF
    ensures PoolFrom(n, m, next)
  {
    m, next := map[], 0;
    var todo := n.Keys;
    while todo != {}
      invariant todo <= n.Keys
      invariant forall i :: i in n && i !in todo ==> n[i] in m && i < next
      invariant forall k :: k in m ==> m[k] in n && n[m[k]] == k
      invariant next == 0 || (next - 1) in n
      decreases todo
    {
      var i: nat :| i in todo;
      m := m[n[i] := i];
      if i >= next { next := i + 1; }
      todo := todo - {i};
    }
  }

  /** The loop that fills `schema_ids`. */
  method NameIds(registry: map<nat, SchemaEntry>) returns (ids: map<SchemaKey, u16>)
    requires forall id :: id in registry ==> id < 0xFFFF
    ensures NamesFrom(registry, ids)
  {
    ids := map[];
    var todo := registry.Keys;
    while todo != {}
      invariant todo <= registry.Keys
      invariant forall id :: id in registry && id !in todo ==> NameKey(registry[id].name) in ids
      invariant forall k :: k in ids ==> k.NameKey? && ids[k] in registry && registry[ids[k]].name == k.name
      decreases todo
    {
      var id: nat :| id in todo;
      ids := ids[NameKey(registry[id].name) := id];
      todo := todo - {id};
    }
  }

  // ----- bisimulation

  /** No fast-slot type was ever written. */
  predicate NoFast(st: EncState) {
    forall id :: id in st.registry ==> id >= STATIC_WIRE_ID_LIMIT
  }

  predicate SlotFree(op: Op) {
    op.OpWrite? ==> op.t.slot == 0 || op.t.slot >= STATIC_WIRE_ID_LIMIT
  }

  predicate AllSlotFree(ops: seq<Op>) {
    forall i :: 0 <= i < |ops| ==> SlotFree(ops[i])
  }

  /** Two encoders that differ only in how fast they find a known type's id. */
  ghost predicate Alike(a: EncState, b: EncState) {
    a.registry == b.registry && a.nextId == b.nextId && a.strings == b.strings && a.nextString == b.nextString
    && a.stacks == b.stacks && a.nextStack == b.nextStack && a.base == b.base
    && (forall k: SchemaKey :: k.NameKey? ==> (k in a.schemaIds <==> k in b.schemaIds))
    && (forall k: SchemaKey :: k.NameKey? && k in a.schemaIds ==> a.schemaIds[k] == b.schemaIds[k])
  }

  lemma PoolFromIsUnique<K(!new)>(m: map<K, u32>, n: map<nat, K>, next: u32, m': map<K, u32>, next': u32)
    requires Inverse(m, n, next) && PoolFrom(n, m', next')
    ensures m' == m && next' == next
  {
    forall k | k in m ensures k in m' && m'[k] == m[k] {
      assert n[m[k]] == k;
      assert n[m'[k]] == k;
    }
    forall k | k in m' ensures k in m { assert n[m'[k]] in m; }
    assert next' in n <==> next' < next;
    assert next' > 0 ==> next' - 1 < next;
  }

  lemma ResumedIsAlike(types: map<nat, EventType>, st: EncState, d: DecState, st': EncState)
    requires Inv(types, st) && NoFast(st) && Coupled(st, d) && Resumed(d, st')
    ensures Alike(st, st') && Inv(types, st') && Coupled(st', d)
  {
    hide EntryFits, Inverse, PoolFrom, NamesFrom, NextFrom, Inv, HasBit;
    PoolFromIsUnique(st.strings, d.strings, st.nextString, st'.strings, st'.nextString);
    PoolFromIsUnique(st.stacks, d.stacks, st.nextStack, st'.stacks, st'.nextStack);
    assert RegistryInv(st) && NamesInv(st) by { InvParts(types, st); }
    ResumedNames(st, d.registry, st'.schemaIds, st'.nextId);
    ResumedInv(types, st, d, st');
  }

  lemma InvParts(types: map<nat, EventType>, st: EncState)
    requires Inv(types, st)
    ensures RegistryInv(st) && NamesInv(st)
  {
    hide RegistryInv, NamesInv, TypesInv, SlotsInv, FastInv;
  }

  lemma ResumedInv(types: map<nat, EventType>, st: EncState, d: DecState, st': EncState)
    requires RegistryInv(st) && NamesInv(st) && NoFast(st) && d.registry == st.registry && Resumed(d, st')
    requires st'.nextId == st.nextId && forall id :: id in d.registry ==>
               st'.schemaIds[NameKey(d.registry[id].name)] == id
    ensures Inv(types, st')
  {
    hide EntryFits, PoolFrom, NextFrom;
    assert forall id: nat :: id < STATIC_WIRE_ID_LIMIT ==> !HasBit(NO_BITS, id);
    hide HasBit;
    assert RegistryInv(st') && NamesInv(st');
  }

  lemma ResumedNames(st: EncState, registry: map<nat, SchemaEntry>, ids: map<SchemaKey, u16>, next: u16)
    requires RegistryInv(st) && NamesInv(st) && NoFast(st) && registry == st.registry
    requires NamesFrom(registry, ids) && NextFrom(registry, next)
    ensures next == st.nextId
    ensures forall k: SchemaKey :: k.NameKey? ==> (k in st.schemaIds <==> k in ids)
    ensures forall k: SchemaKey :: k.NameKey? && k in st.schemaIds ==> st.schemaIds[k] == ids[k]
    ensures forall id :: id in registry ==> ids[NameKey(registry[id].name)] == id
  {
    hide EntryFits, HasBit;
    assert STATIC_WIRE_ID_LIMIT <= next < st.nextId ==> next in registry;
    forall k: SchemaKey | k.NameKey? && k in st.schemaIds ensures k in ids && ids[k] == st.schemaIds[k] {
      assert registry[st.schemaIds[k]].name == k.name;
      assert registry[ids[k]].name == k.name;
    }
  }

  // ----- one operation on two alike encoders

  /** The same is written, logged and returned, and the encoders stay alike. */
  ghost predicate SameEffect<R(!new)>(a: Emit<R>, b: Emit<R>) {
    a.wires == b.wires && a.log == b.log && a.result == b.result && Alike(a.st, b.st)
  }

  lemma EnsureRegisteredSame(a: EncState, b: EncState, e: SchemaEntry)
    requires Alike(a, b)
    ensures SameEffect(EnsureRegistered(a, e), EnsureRegistered(b, e))
  {
    hide SchemaWires, SchemaLog, Register, Alike;
    var key := NameKey(e.name);
    AlikeParts(a, b, key);
    if key !in a.schemaIds && a.nextId < 0xFFFF {
      NextIdAlike(a, b);
      var a1, b1 := a.(nextId := a.nextId + 1), b.(nextId := b.nextId + 1);
      RegisterSame(a1, b1, a.nextId, e);
      var ra := Register(a1, a.nextId, e);
      if ra.Some? { NamedSame(ra.value, Register(b1, b.nextId, e).value, key, a.nextId); }
    }
  }

  lemma AlikeParts(a: EncState, b: EncState, key: SchemaKey)
    requires Alike(a, b) && key.NameKey?
    ensures a.registry == b.registry && a.nextId == b.nextId && (key in a.schemaIds <==> key in b.schemaIds)
    ensures key in a.schemaIds ==> a.schemaIds[key] == b.schemaIds[key]
  {
  }

  lemma NextIdAlike(a: EncState, b: EncState)
    requires Alike(a, b) && a.nextId < 0xFFFF
    ensures Alike(a.(nextId := a.nextId + 1), b.(nextId := b.nextId + 1))
  {
  }

  lemma NamedSame(a: EncState, b: EncState, key: SchemaKey, id: u16)
    requires Alike(a, b)
    ensures Alike(a.(schemaIds := a.schemaIds[key := id]), b.(schemaIds := b.schemaIds[key := id]))
  {
  }

  lemma RegisterSame(a: EncState, b: EncState, id: nat, e: SchemaEntry)
    requires Alike(a, b)
    ensures var ra, rb := Register(a, id, e), Register(b, id, e);
            ra.Some? == rb.Some?
            && (ra.Some? ==> Alike(ra.value,
                                   rb.value) && ra.value.schemaIds == a.schemaIds && rb.value.schemaIds == b.schemaIds)
  {
  }

  /** A type that one encoder knows by its TypeId is found by the other under its name. */
  lemma KnownTypeIsNamed(types: map<nat, EventType>, a: EncState, t: EventType)
    requires Inv(types, a) && t.typeId in types && types[t.typeId] == t && TypeKey(t.typeId) in a.schemaIds
    ensures EnsureRegistered(a, t.entry) == Emit(a, [], [], Okay(a.schemaIds[TypeKey(t.typeId)]))
  {
    hide EntryFits, HasBit;
    var id := a.schemaIds[TypeKey(t.typeId)];
    assert a.registry[id] == t.entry;
    assert NameKey(t.entry.name) in a.schemaIds && a.schemaIds[NameKey(t.entry.name)] == id;
  }

  /** However a type without a fast slot is resolved, the id, the frames and the state are
      those of registering its schema by name. */
  lemma ResolvesAsByName(types: map<nat, EventType>, a: EncState, t: EventType)
    requires Inv(types, a) && t.typeId in types && types[t.typeId] == t
    requires t.slot == 0 || t.slot >= STATIC_WIRE_ID_LIMIT
    ensures SameEffect(ResolveId(a, t), EnsureRegistered(a, t.entry))
  {
    hide RegistryInv, NamesInv, FastInv, EnsureRegistered, CacheSlot;
    if t.slot < |a.slotCache| && a.slotCache[t.slot] != 0 {
      KnownTypeIsNamed(types, a, t);
    } else if TypeKey(t.typeId) in a.schemaIds {
      KnownTypeIsNamed(types, a, t);
    }
  }

  lemma EmitEventSame(a: EncState, b: EncState, id: u16, dynamic: bool, e: SchemaEntry, ts: u64, vs: seq<Value>)
    requires Alike(a, b)
    ensures SameEffect(EmitEvent(a, id, dynamic, e, ts, vs), EmitEvent(b, id, dynamic, e, ts, vs))
  {
  }

  lemma OpSame(types: map<nat, EventType>, a: EncState, b: EncState, op: Op)
    requires Inv(types, a) && Inv(types, b) && Alike(a, b) && SlotFree(op)
    requires op.OpWrite? ==> op.t.typeId in types && types[op.t.typeId] == op.t
    ensures SameEffect(Do(a, op), Do(b, op))
  {
    hide Inv, EnsureRegistered, ResolveId, EmitEvent;
    match op {
      case OpRegister(e) => EnsureRegisteredSame(a, b, e);
      case OpWriteEvent(e, vs) =>
        EnsureRegisteredSame(a, b, e);
        var ra, rb := EnsureRegistered(a, e), EnsureRegistered(b, e);
        if ra.result.Okay? && vs != [] && vs[0].Varint? && vs[0].n < TWO_TO_THE_64 {
          EmitEventSame(ra.st, rb.st, ra.result.value, true, e, vs[0].n, vs[1..]);
        }
      case OpWrite(t, ts, vs) =>
        ResolvesAsByName(types, a, t);
        ResolvesAsByName(types, b, t);
        EnsureRegisteredSame(a, b, t.entry);
        var ra, rb := ResolveId(a, t), ResolveId(b, t);
        if ra.result.Okay? { EmitEventSame(ra.st, rb.st, ra.result.value, false, t.entry, ts, vs); }
      case _ =>
    }
  }

  lemma FitsAlike(types: map<nat, EventType>, a: EncState, b: EncState, op: Op)
    requires Alike(a, b) && OpFits(types, a, op)
    ensures OpFits(types, b, op)
  {
    hide EntryFits, FieldsFit;
  }

  /** Bisimulation over whole runs. */
  lemma {:induction false} RunSame(types: map<nat, EventType>, a: EncState, b: EncState, dec: DecState, ops: seq<Op>)
    requires TypesOk(types) && Inv(types, a) && Inv(types, b) && Coupled(a, dec) && Coupled(b, dec) && Alike(a, b)
    requires AllFit(types, a, ops) && AllSlotFree(ops)
    ensures AllFit(types, b, ops)
    ensures Perform(a, ops).wires == Perform(b, ops).wires && Perform(a, ops).log == Perform(b, ops).log
    ensures Alike(Perform(a, ops).st, Perform(b, ops).st)
    decreases ops
  {
    hide Inv, Coupled, Do, PlayAll;
    if ops != [] {
      var op := ops[0];
      FitsAlike(types, a, b, op);
      OpSame(types, a, b, op);
      OpSound(types, a, dec, op);
      OpSound(types, b, dec, op);
      var ea, eb := Do(a, op), Do(b, op);
      RunSame(types, ea.st, eb.st, PlayAll(dec, ea.wires).value.st, ops[1..]);
    }
  }

  // ----- the resume theorem

  lemma EnsureKeepsNoFast(st: EncState, e: SchemaEntry)
    requires NoFast(st) && st.nextId >= STATIC_WIRE_ID_LIMIT
    ensures NoFast(EnsureRegistered(st, e).st) && EnsureRegistered(st, e).st.nextId >= STATIC_WIRE_ID_LIMIT
  {
    hide SchemaWires, SchemaLog;
  }

  lemma OpKeepsNoFast(st: EncState, op: Op)
    requires NoFast(st) && st.nextId >= STATIC_WIRE_ID_LIMIT && SlotFree(op)
    ensures NoFast(Do(st, op).st) && Do(st, op).st.nextId >= STATIC_WIRE_ID_LIMIT
  {
    hide EnsureRegistered, CacheSlot;
    match op {
      case OpRegister(e) => EnsureKeepsNoFast(st, e);
      case OpWriteEvent(e, _) => EnsureKeepsNoFast(st, e);
      case OpWrite(t, _, _) => EnsureKeepsNoFast(st, t.entry);
      case _ =>
    }
  }

  lemma {:induction false} RunKeepsNoFast(st: EncState, ops: seq<Op>)
    requires NoFast(st) && st.nextId >= STATIC_WIRE_ID_LIMIT && AllSlotFree(ops)
    ensures NoFast(Perform(st, ops).st)
    decreases ops
  {
    hide Do;
    if ops != [] {
      OpKeepsNoFast(st, ops[0]);
      RunKeepsNoFast(Do(st, ops[0]).st, ops[1..]);
    }
  }

  /** Decode, then resume: for any run without fast-slot types, decoding the prefix and
      going on with into_encoder writes byte for byte what the original encoder would have
      written, and prefix and continuation together decode to the whole run's log. */
  lemma ResumeIsTransparent(dia: Dialect, types: map<nat, EventType>, before: seq<Op>, resumed: EncState, ops: seq<Op>)
    requires TypesOk(types) && AllFit(types, Empty(), before) && AllSlotFree(before)
    requires DecodeStream(dia, Output(before)).Some? && Resumed(DecodeStream(dia, Output(before)).value.st, resumed)
    requires AllFit(types, Perform(Empty(), before).st, ops) && AllSlotFree(ops)
    ensures var original := Perform(Empty(), before);
            var continued := Perform(resumed, ops);
            EncodeWires(continued.wires) == EncodeWires(Perform(original.st, ops).wires)
            && var whole := DecodeStream(dia, Output(before) + EncodeWires(continued.wires));
               whole.Some? && whole.value.Complete()
               && whole.value.frames == original.log + Perform(original.st, ops).log
  {
    hide Inv, PlayAll, Perform, Run, Coupled, Resumed, AllFit, Headers;
    var original := Perform(Empty(), before);
    EncoderDecoderCoupling(dia, types, before);
    EmptyHasNoFast();
    RunKeepsNoFast(Empty(), before);
    var o := DecodeStream(dia, Output(before)).value;
    ResumedIsAlike(types, original.st, o.st, resumed);
    RunSame(types, original.st, resumed, o.st, ops);
    var continued := Perform(resumed, ops);
    Continues(dia, types, before, resumed, o.st, ops);
  }

  lemma EmptyHasNoFast()
    ensures NoFast(Empty()) && Empty().nextId >= STATIC_WIRE_ID_LIMIT
  {
  }

  lemma Continues(dia: Dialect, types: map<nat, EventType>, before: seq<Op>, st: EncState, dec: DecState, ops: seq<Op>)
    requires DecodeStream(dia, Output(before)).Some?
    requires ReadBack(Perform(Empty(), before), DecodeStream(dia, Output(before)).value)
    requires DecodeStream(dia, Output(before)).value.st == dec
    requires TypesOk(types) && Inv(types, st) && Coupled(st, dec) && AllFit(types, st, ops)
    ensures var e := Perform(st, ops);
            var whole := DecodeStream(dia, Output(before) + EncodeWires(e.wires));
            whole.Some? && whole.value.Complete() && whole.value.frames == Perform(Empty(), before).log + e.log
  {
    hide Inv, PlayAll, Perform, Run, AllFit, Headers, Coupled, EncodeWires;
    var e := Perform(st, ops);
    var a, b := Output(before), EncodeWires(e.wires);
    RunSound(types, st, dec, ops);
    PlayedBytesDecode(dec, e.wires);
    CoupledIsSynced(st, dec);
    StrictRunIsCommon(dia, dec, b);
    RunConcat(dia, FRESH, a[5..], b);
    assert (a + b)[5..] == a[5..] + b;
    assert (a + b)[..4] == a[..4];
  }

  /** Why fast-slot types are kept out: a resumed encoder has an empty bitset and declares
      the type again, and the Rust decoder refuses that declaration exactly when the type
      has annotations, which by then are part of the registered schema. */
  lemma FastTypeAfterResume(types: map<nat, EventType>, st: EncState, d: DecState, st': EncState, t: EventType,
                            dia: Dialect)
    requires dia == Owned || dia == Ref
    requires Inv(types, st) && Coupled(st, d) && Resumed(d, st')
    requires t.typeId in types && types[t.typeId] == t && 0 < t.slot < STATIC_WIRE_ID_LIMIT && HasBit(st.bitset, t.slot)
    requires EntryFits(t.entry)
    ensures RegisterFast(st', t).log == SchemaLog(t.slot, t.entry)
    ensures Apply(dia, d, SchemaLog(t.slot, t.entry)[0]).accepted <==> t.entry.annotations == []
  {
    hide NamesInv, TypesInv, SlotsInv, Inverse, PoolFrom, NamesFrom, NextFrom;
    assert d.registry[t.slot] == t.entry;
    assert t.entry.(annotations := []) == t.entry <==> t.entry.annotations == [];
  }
}
