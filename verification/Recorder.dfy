/** What a run of the encoder records, told from its operations alone, by a recorder that
    keeps nothing but four lists in the order of first appearance. The encoder with its hash
    maps, slot cache, bitset and packed deltas refines it: every decoder gives back exactly
    what this recorder notes, timestamps and ids included. */
module Recorder {
  import opened Bytes
  import opened Values
  import opened Frames
  import opened Machine
  import opened Playback
  import opened EncoderSpec
  import opened Coupling

  /** Since the last header: the fast types declared, the schemas by first use (the i-th has
      the id 256 + i), the strings and the stacks (the i-th has the id i). */
  datatype Notes = Notes(fast: set<nat>, schemas: seq<SchemaEntry>, strings: seq<bytes>, stacks: seq<seq<u64>>)

  const BLANK := Notes({}, [], [], [])

  /** What one operation adds: the notes after, the frames recorded, the caller's answer. */
  datatype Line<+R> = Line(notes: Notes, frames: seq<Frame>, reply: Result<R>)

  /** The first place of `x` in a list, its length if there is none. */
  function Find<T(==)>(xs: seq<T>, x: T): (i: nat)
    ensures i <= |xs| && (i < |xs| ==> xs[i] == x) && (x in xs <==> i < |xs|)
  {
    if xs == [] || xs[0] == x then 0 else 1 + Find(xs[1..], x)
  }

  /** The first schema of that name in a list, its length if there is none. */
  function Named(es: seq<SchemaEntry>, name: bytes): (i: nat)
    ensures i <= |es| && (i < |es| ==> es[i].name == name)
    ensures forall k :: 0 <= k < i ==> es[k].name != name
  {
    if es == [] || es[0].name == name then 0 else 1 + Named(es[1..], name)
  }

  /** A schema frame, and its annotations in a frame of their own. */
  function Declaration(id: u16, e: SchemaEntry): seq<Frame> {
    [Schema(id, SchemaEntry(e.name, e.hasTimestamp, e.fields, []))]
    + if |e.annotations| == 0 then [] else [Annotations(id, e.annotations)]
  }

  function Declare(n: Notes, e: SchemaEntry): Line<u16> {
    var i := Named(n.schemas, e.name);
    if i >= 0xFEFF then Line(n, [], Err(IdsExhausted))
    else if i == |n.schemas| then
      Line(n.(schemas := n.schemas + [e]), Declaration(256 + i, e), Okay(256 + i))
    else Line(n, [], if n.schemas[i] == e then Okay(256 + i) else Err(SchemaConflict))
  }

  function DeclareFast(n: Notes, t: EventType): Line<u16> {
    if t.slot in n.fast then Line(n, [], Okay(t.slot))
    else Line(n.(fast := n.fast + {t.slot}), Declaration(t.slot, t.entry), Okay(t.slot))
  }

  /** An event at the time the caller gave, behind the declaration of its schema. */
  function Happens(d: Line<u16>, name: bytes, ts: u64, values: seq<Value>): Line<u16> {
    if d.reply.Err? then d
    else Line(d.notes, d.frames + [Event(d.reply.value, name, Some(ts), values)], d.reply)
  }

  function Note(n: Notes, op: Op): Line<nat> {
    match op
    case OpIntern(s) =>
      var i := Find(n.strings, s);
      if i < |n.strings| then Line(n, [], Okay(i))
      else if i >= 0xFFFF_FFFF then Line(n, [], Err(IdsExhausted))
      else Line(n.(strings := n.strings + [s]), [StringPool([PoolEntry(i, s)])], Okay(i))
    case OpStack(f) =>
      var i := Find(n.stacks, f);
      if i < |n.stacks| then Line(n, [], Okay(i))
      else if i >= 0xFFFF_FFFF then Line(n, [], Err(IdsExhausted))
      else Line(n.(stacks := n.stacks + [f]), [StackPool([StackEntry(i, f)])], Okay(i))
    case OpRegister(e) => Declare(n, e)
    case OpWriteEvent(e, all) =>
      var d := Declare(n, e);
      if d.reply.Err? then d
      else if |all| == 0 || !all[0].Varint? || all[0].n > 0xFFFF_FFFF_FFFF_FFFF then
        d.(reply := Err(FirstValueNoTimestamp))
      else if |all| != |e.fields| + 1 then d.(reply := Err(ValueCount))
      else Happens(d, e.name, all[0].n, all[1..])
    case OpWrite(t, ts, values) =>
      Happens(if 0 < t.slot < 256 then DeclareFast(n, t) else Declare(n, t.entry), t.entry.name, ts, values)
    case OpReset => Line(BLANK, [], Okay(0))
  }

  /** A whole run's notes, in order. */
  function Told(n: Notes, ops: seq<Op>): seq<Frame>
    decreases ops
  {
    if ops == [] then [] else Note(n, ops[0]).frames + Told(Note(n, ops[0]).notes, ops[1..])
  }

  // ----- notes and the encoder's state

  ghost predicate Lists<T(!new)>(xs: seq<T>, m: map<T, u32>, next: nat) {
    next == |xs| && (forall i :: 0 <= i < |xs| ==> xs[i] in m && m[xs[i]] == i) && (forall x :: x in m ==> x in xs)
  }

  predicate ListsSchemas(es: seq<SchemaEntry>, m: map<nat, SchemaEntry>, next: nat) {
    next == 256 + |es| && forall i :: 0 <= i < |es| ==> 256 + i in m && m[256 + i] == es[i]
  }

  predicate ListsFast(fast: set<nat>, b: Bits) {
    forall slot: nat :: 0 < slot < 256 ==> (slot in fast <==> HasBit(b, slot))
  }

  ghost predicate Tally(n: Notes, st: EncState) {
    ListsSchemas(n.schemas, st.registry, st.nextId) && ListsFast(n.fast, st.bitset)
    && Lists(n.strings, st.strings, st.nextString) && Lists(n.stacks, st.stacks, st.nextStack)
  }

  /** An operation's effect is what the recorder notes. */
  ghost predicate Noted<R>(e: Emit<R>, d: Line<R>) {
    e.log == d.frames && e.result == d.reply && Tally(d.notes, e.st)
  }

  // ----- schemas

  /** A schema's name is known to the hash map exactly if it is in the list. */
  lemma NamedIsKnown(n: Notes, st: EncState, name: bytes)
    requires ListsSchemas(n.schemas, st.registry, st.nextId) && RegistryInv(st) && NamesInv(st)
    ensures Named(n.schemas, name) < |n.schemas| <==> NameKey(name) in st.schemaIds
    ensures NameKey(name) in st.schemaIds ==> st.schemaIds[NameKey(name)] == 256 + Named(n.schemas, name)
  {
    hide EntryFits, HasBit;
    var i := Named(n.schemas, name);
    if NameKey(name) in st.schemaIds {
      var id := st.schemaIds[NameKey(name)];
      assert n.schemas[id - 256].name == name;
    }
    if i < |n.schemas| {
      assert st.registry[256 + i].name == name;
    }
  }

  lemma DeclareNoted(types: map<nat, EventType>, n: Notes, st: EncState, e: SchemaEntry)
    requires Tally(n, st) && Inv(types, st) && CanRegister(st, e)
    ensures Noted(EnsureRegistered(st, e), Declare(n, e))
  {
    hide EntryFits, NamesInv, TypesInv, SlotsInv, FastInv, Lists, HasBit;
    NamedIsKnown(n, st, e.name);
    if NameKey(e.name) !in st.schemaIds {
      TooLongExcluded(e);
      RegisteredInv(types, st, e);
    }
  }

  lemma FastNoted(types: map<nat, EventType>, n: Notes, st: EncState, t: EventType)
    requires TypesOk(types) && Tally(n, st) && Inv(types, st) && t.typeId in types && types[t.typeId] == t
    requires 0 < t.slot < 256
    ensures Noted(ResolveId(st, t), DeclareFast(n, t))
  {
    hide EntryFits, NamesInv, TypesInv, SlotsInv, FastInv, Lists;
    if !HasBit(st.bitset, t.slot) {
      hide HasBit;
      TooLongExcluded(t.entry);
      assert ResolveId(st, t) == RegisterFast(st, t);
    }
  }

  /** A type that the cache or the hash map knows has its schema in the list. */
  lemma KnownTypeNoted(types: map<nat, EventType>, n: Notes, st: EncState, t: EventType)
    requires Tally(n, st) && Inv(types, st) && TypeKey(t.typeId) in st.schemaIds
    requires t.typeId in types && types[t.typeId] == t
    ensures Declare(n, t.entry) == Line(n, [], Okay(st.schemaIds[TypeKey(t.typeId)]))
  {
    hide EntryFits, SlotsInv, FastInv, Lists, HasBit;
    NamedIsKnown(n, st, t.entry.name);
  }

  lemma ResolveNoted(types: map<nat, EventType>, n: Notes, st: EncState, t: EventType)
    requires TypesOk(types) && Tally(n, st) && Inv(types, st) && t.typeId in types && types[t.typeId] == t
    requires CanResolve(st, t)
    ensures Noted(ResolveId(st, t), if 0 < t.slot < 256 then DeclareFast(n, t) else Declare(n, t.entry))
  {
    hide EntryFits, RegistryInv, NamesInv, FastInv, Lists, HasBit, EnsureRegistered, CacheSlot, Declare, DeclareFast;
    if 0 < t.slot < 256 {
      FastNoted(types, n, st, t);
    } else if TypeKey(t.typeId) in st.schemaIds {
      KnownTypeNoted(types, n, st, t);
    } else {
      DeclareNoted(types, n, st, t.entry);
    }
  }

  // ----- events

  lemma EventNoted(n: Notes, st: EncState, id: u16, dynamic: bool, e: SchemaEntry, ts: u64, vs: seq<Value>)
    requires Tally(n, st)
    ensures Noted(EmitEvent(st, id, dynamic, e, ts, vs), Line(n, [Event(id, e.name, Some(ts), vs)], Okay(id)))
  {
    hide Lists, ListsFast, ListsSchemas;
  }

  lemma WriteNoted(types: map<nat, EventType>, n: Notes, st: EncState, t: EventType, ts: u64, vs: seq<Value>)
    requires TypesOk(types) && Tally(n, st) && Inv(types, st) && OpFits(types, st, OpWrite(t, ts, vs))
    ensures Noted(WriteDerived(st, t, ts, vs), Note(n, OpWrite(t, ts, vs)))
  {
    hide ResolveId, EmitEvent, Inv, Tally, CanResolve, FieldsFit, Declare, DeclareFast;
    ResolveNoted(types, n, st, t);
    var r := ResolveId(st, t);
    if r.result.Okay? {
      var d := if 0 < t.slot < 256 then DeclareFast(n, t) else Declare(n, t.entry);
      EventNoted(d.notes, r.st, r.result.value, false, t.entry, ts, vs);
    }
  }

  lemma WriteEventNoted(types: map<nat, EventType>, n: Notes, st: EncState, e: SchemaEntry, all: seq<Value>)
    requires Tally(n, st) && Inv(types, st) && OpFits(types, st, OpWriteEvent(e, all))
    ensures Noted(WriteEvent(st, e, all), Note(n, OpWriteEvent(e, all)))
  {
    hide EnsureRegistered, EmitEvent, Inv, Tally, CanRegister, FieldsFit, Declare;
    DeclareNoted(types, n, st, e);
    var r := EnsureRegistered(st, e);
    if r.result.Okay? && |all| == |e.fields| + 1 && all[0].Varint? && all[0].n < TWO_TO_THE_64 {
      EventNoted(Declare(n, e).notes, r.st, r.result.value, true, e, all[0].n, all[1..]);
    }
  }

  // ----- interning

  lemma FindIsKnown<T(!new)>(xs: seq<T>, m: map<T, u32>, next: nat, x: T)
    requires Lists(xs, m, next)
    ensures x in m <==> Find(xs, x) < |xs|
    ensures x in m ==> m[x] == Find(xs, x)
  {
  }

  lemma ListsGrow<T(!new)>(xs: seq<T>, m: map<T, u32>, next: u32, x: T)
    requires Lists(xs, m, next) && x !in m
    ensures Lists(xs + [x], m[x := next], next + 1)
  {
  }

  lemma InternNoted(n: Notes, st: EncState, s: bytes)
    requires Tally(n, st)
    ensures Noted(InternString(st, s), Note(n, OpIntern(s)))
  {
    hide Lists, ListsFast, ListsSchemas;
    FindIsKnown(n.strings, st.strings, st.nextString, s);
    ListsNext(n.strings, st.strings, st.nextString);
    if s !in st.strings && st.nextString < 0xFFFF_FFFF { ListsGrow(n.strings, st.strings, st.nextString, s); }
  }

  lemma ListsNext<T(!new)>(xs: seq<T>, m: map<T, u32>, next: nat)
    requires Lists(xs, m, next)
    ensures next == |xs|
  {
  }

  lemma StackNoted(n: Notes, st: EncState, f: seq<u64>)
    requires Tally(n, st)
    ensures Noted(InternStack(st, f), Note(n, OpStack(f)))
  {
    hide Lists, ListsFast, ListsSchemas;
    FindIsKnown(n.stacks, st.stacks, st.nextStack, f);
    ListsNext(n.stacks, st.stacks, st.nextStack);
    if f !in st.stacks && st.nextStack < 0xFFFF_FFFF { ListsGrow(n.stacks, st.stacks, st.nextStack, f); }
  }

  // ----- runs

  lemma EmptyIsBlank(n: nat)
    ensures Tally(BLANK, Empty()) && Tally(BLANK, Empty().(slotCache := seq(n, _ => 0)))
  {
    assert forall id: nat :: id < STATIC_WIRE_ID_LIMIT ==> !HasBit(NO_BITS, id);
  }

  /** Every operation records what the recorder notes and answers what it answers. */
  lemma OpNoted(types: map<nat, EventType>, n: Notes, st: EncState, op: Op)
    requires TypesOk(types) && Tally(n, st) && Inv(types, st) && OpFits(types, st, op)
    ensures Noted(Do(st, op), Note(n, op))
  {
    hide Inv, Tally, Note, InternString, InternStack, WriteEvent, WriteDerived, CanRegister;
    match op {
      case OpIntern(s) => InternNoted(n, st, s);
      case OpStack(f) => StackNoted(n, st, f);
      case OpRegister(e) => RegisterNoted(types, n, st, e);
      case OpWriteEvent(e, all) => WriteEventNoted(types, n, st, e, all);
      case OpWrite(t, ts, vs) => WriteNoted(types, n, st, t, ts, vs);
      case OpReset => ResetNoted(n, st);
    }
  }

  lemma RegisterNoted(types: map<nat, EventType>, n: Notes, st: EncState, e: SchemaEntry)
    requires Tally(n, st) && Inv(types, st) && CanRegister(st, e)
    ensures Noted(EnsureRegistered(st, e), Note(n, OpRegister(e)))
  {
    hide EnsureRegistered, Declare, Tally, Inv, CanRegister;
    DeclareNoted(types, n, st, e);
  }

  lemma ResetNoted(n: Notes, st: EncState)
    ensures Noted(ResetTo(st), Note(n, OpReset))
  {
    hide Tally;
    EmptyIsBlank(|st.slotCache|);
  }

  lemma {:induction false} RunIsTold(types: map<nat, EventType>, n: Notes, st: EncState, dec: DecState, ops: seq<Op>)
    requires TypesOk(types) && Tally(n, st) && Inv(types, st) && Coupled(st, dec) && AllFit(types, st, ops)
    ensures Perform(st, ops).log == Told(n, ops)
    decreases ops
  {
    hide Tally, Inv, Coupled, Do, Note, OpFits, PlayAll;
    if ops != [] {
      OpNoted(types, n, st, ops[0]);
      OpSound(types, st, dec, ops[0]);
      var e := Do(st, ops[0]);
      RunIsTold(types, Note(n, ops[0]).notes, e.st, PlayAll(dec, e.wires).value.st, ops[1..]);
    }
  }

  /** What a run records is told by its operations alone: after any well-formed run, every
      decoder reads all bytes and gives exactly what the recorder noted. */
  lemma DecodersTell(dia: Dialect, types: map<nat, EventType>, ops: seq<Op>)
    requires TypesOk(types) && AllFit(types, Empty(), ops)
    ensures Perform(Empty(), ops).log == Told(BLANK, ops)
    ensures var o := DecodeStream(dia, Output(ops));
            o.Some? && o.value.Complete() && o.value.rest == [] && o.value.frames == Told(BLANK, ops)
  {
    hide Inv, Coupled, Perform, Told, AllFit, Run, Headers;
    EmptyIsBlank(0);
    EmptyIsCoupled(types, 0);
    RunIsTold(types, BLANK, Empty(), FRESH, ops);
    EncoderDecoderCoupling(dia, types, ops);
  }

  // ----- one write, spelled out

  /** The frames that declare a schema, as they are written. */
  function DeclarationWires(id: u16, e: SchemaEntry): seq<Wire> {
    [WireSchema(id, e)] + if |e.annotations| == 0 then [] else [WireAnnotations(id, e.annotations)]
  }

  /** An event as it is written: with a delta of at most 2^24 - 1 from the base before, or
      else behind a reset to its own time. */
  function Timed(base: u64, id: u16, dynamic: bool, e: SchemaEntry, ts: u64, values: seq<Value>): seq<Wire> {
    if base <= ts <= base + 16777215 then [WireEvent(id, ts - base, dynamic, Tags(e.fields), values)]
    else [WireReset(ts), WireEvent(id, 0, dynamic, Tags(e.fields), values)]
  }

  /** What a successful write of an event of schema `e` under `id` at `ts` leaves behind: the
      schema declared first unless the registry has it already, then the event, with the time
      and the values it was given, and the base is that time. */
  predicate Wrote(st: EncState, r: Emit<nat>, id: u16, dynamic: bool, e: SchemaEntry, ts: u64, values: seq<Value>) {
    var declared := id in st.registry;
    r.log == (if declared then [] else Declaration(id, e)) + [Event(id, e.name, Some(ts), values)]
    && r.wires == (if declared then [] else DeclarationWires(id, e)) + Timed(st.base, id, dynamic, e, ts, values)
    && r.st.base == ts && r.st.registry == st.registry[id := e] && (declared ==> st.registry[id] == e)
  }

  /** A schema resolved under `id`: declared exactly if the registry did not have it. */
  predicate Resolved(st: EncState, r: Emit<u16>, e: SchemaEntry) {
    r.result.Okay? ==>
      var id := r.result.value;
      var declared := id in st.registry;
      r.log == (if declared then [] else Declaration(id, e))
      && r.wires == (if declared then [] else DeclarationWires(id, e))
      && r.st.base == st.base && r.st.registry == st.registry[id := e] && (declared ==> st.registry[id] == e)
  }

  lemma EnsureResolves(types: map<nat, EventType>, st: EncState, e: SchemaEntry)
    requires Inv(types, st)
    ensures Resolved(st, EnsureRegistered(st, e), e)
  {
    hide EntryFits, TypesInv, SlotsInv, FastInv, HasBit;
    var r := EnsureRegistered(st, e);
    if r.result.Okay? && NameKey(e.name) in st.schemaIds {
      assert st.registry[r.result.value := e] == st.registry;
    }
  }

  lemma FastResolves(types: map<nat, EventType>, st: EncState, t: EventType)
    requires RegistryInv(st) && FastInv(types, st) && t.typeId in types && types[t.typeId] == t && 0 < t.slot < 256
    ensures Resolved(st, ResolveId(st, t), t.entry)
  {
    hide EntryFits;
    if HasBit(st.bitset, t.slot) {
      assert st.registry[t.slot := t.entry] == st.registry;
    }
  }

  lemma KnownResolves(types: map<nat, EventType>, st: EncState, t: EventType)
    requires TypesInv(types, st) && SlotsInv(types, st) && t.typeId in types && types[t.typeId] == t
    requires !(0 < t.slot < 256) && TypeKey(t.typeId) in st.schemaIds
    ensures Resolved(st, ResolveId(st, t), t.entry)
  {
    hide EntryFits, CacheSlot;
    assert st.registry[st.schemaIds[TypeKey(t.typeId)] := t.entry] == st.registry;
  }

  lemma DerivedResolves(types: map<nat, EventType>, st: EncState, t: EventType)
    requires TypesOk(types) && Inv(types, st) && t.typeId in types && types[t.typeId] == t
    ensures Resolved(st, ResolveId(st, t), t.entry)
  {
    hide EntryFits, RegistryInv, NamesInv, TypesInv, FastInv, EnsureRegistered, RegisterFast, CacheSlot;
    if 0 < t.slot < 256 {
      FastResolves(types, st, t);
    } else if TypeKey(t.typeId) in st.schemaIds {
      KnownResolves(types, st, t);
    } else {
      EnsureResolves(types, st, t.entry);
    }
  }

  /** Another schema was registered under this name. */
  predicate NameTaken(st: EncState, e: SchemaEntry) {
    exists id :: id in st.registry && 256 <= id && st.registry[id].name == e.name && st.registry[id] != e
  }

  lemma TakenIsKnown(st: EncState, e: SchemaEntry)
    requires NamesInv(st)
    ensures NameTaken(st, e) <==>
              NameKey(e.name) in st.schemaIds && st.registry[st.schemaIds[NameKey(e.name)]] != e
  {
    if NameKey(e.name) in st.schemaIds && st.registry[st.schemaIds[NameKey(e.name)]] != e {
      assert st.registry[st.schemaIds[NameKey(e.name)]].name == e.name;
    }
  }

  lemma EnsureFails(types: map<nat, EventType>, st: EncState, e: SchemaEntry)
    requires Inv(types, st) && CanRegister(st, e)
    ensures EnsureRegistered(st, e).result.Err? <==> NameTaken(st, e)
  {
    hide EntryFits, TypesInv, SlotsInv, FastInv, HasBit, NameTaken;
    TakenIsKnown(st, e);
    TooLongExcluded(e);
  }

  lemma ResolveFails(types: map<nat, EventType>, st: EncState, t: EventType)
    requires TypesOk(types) && Inv(types, st) && CanResolve(st, t) && t.typeId in types && types[t.typeId] == t
    ensures ResolveId(st, t).result.Err? <==> !(0 < t.slot < 256) && NameTaken(st, t.entry)
  {
    hide EntryFits, HasBit, SetBit, EnsureRegistered, CacheSlot, NameTaken, CanRegister, RegisterFast;
    if 0 < t.slot < 256 {
      if !HasBit(st.bitset, t.slot) { FastRegisters(st, t); }
    } else {
      EnsureFails(types, st, t.entry);
      TakenIsKnown(st, t.entry);
    }
  }

  lemma FastRegisters(st: EncState, t: EventType)
    requires RegistryInv(st) && EntryFits(t.entry) && t.slot < 256 && !HasBit(st.bitset, t.slot)
    ensures RegisterFast(st, t).result == Okay(t.slot)
  {
    TooLongExcluded(t.entry);
  }

  lemma EventBehind(st: EncState, r: Emit<u16>, dynamic: bool, e: SchemaEntry, ts: u64, values: seq<Value>)
    requires r.result.Okay? && Resolved(st, r, e)
    ensures Wrote(st, Then(r, EmitEvent(r.st, r.result.value, dynamic, e, ts, values)), r.result.value, dynamic, e, ts,
                  values)
  {
    hide SchemaWires, SchemaLog, Declaration, DeclarationWires;
    var next := EmitEvent(r.st, r.result.value, dynamic, e, ts, values);
    assert next.wires == Timed(st.base, r.result.value, dynamic, e, ts, values);
  }

  /** A successful `write`: the time recorded and written is the time it was given, also
      behind the base, where a reset comes first, and the id is the one it returns. It
      succeeds unless the schema's name is taken by a different schema. */
  lemma WriteRecords(types: map<nat, EventType>, st: EncState, t: EventType, ts: u64, values: seq<Value>)
    requires TypesOk(types) && Inv(types, st) && OpFits(types, st, OpWrite(t, ts, values))
    ensures var r := Do(st, OpWrite(t, ts, values));
            (r.result.Okay? <==> 0 < t.slot < 256 || !NameTaken(st, t.entry))
            && (r.result.Okay? ==>
                  r.result.value < 0x1_0000 && Wrote(st, r, r.result.value, false, t.entry, ts, values))
  {
    hide EntryFits, Inv, ResolveId, Resolved, EmitEvent, Wrote, NameTaken, CanResolve, FieldsFit;
    DerivedResolves(types, st, t);
    ResolveFails(types, st, t);
    var r := ResolveId(st, t);
    if r.result.Okay? {
      ResultOfEmit(r.st, r.result.value, false, t.entry, ts, values);
      EventBehind(st, r, false, t.entry, ts, values);
    }
  }

  lemma ResultOfEmit(st: EncState, id: u16, dynamic: bool, e: SchemaEntry, ts: u64, values: seq<Value>)
    ensures EmitEvent(st, id, dynamic, e, ts, values).result == Okay(id)
  {
  }

  /** The same for `write_event`, whose first value is the time: it succeeds exactly if the
      name is not taken by a different schema, the first value is a u64 and the others are
      as many as the schema has fields. */
  lemma WriteEventRecords(types: map<nat, EventType>, st: EncState, e: SchemaEntry, all: seq<Value>)
    requires Inv(types, st) && OpFits(types, st, OpWriteEvent(e, all))
    ensures var r := Do(st, OpWriteEvent(e, all));
            (r.result.Okay? <==> !NameTaken(st, e) && |all| == |e.fields| + 1 && all[0].Varint?
                                 && all[0].n <= 0xFFFF_FFFF_FFFF_FFFF)
            && (r.result.Okay? ==>
                  r.result.value < 0x1_0000 && Wrote(st, r, r.result.value, true, e, all[0].n, all[1..]))
  {
    hide EntryFits, Inv, EnsureRegistered, Resolved, EmitEvent, Wrote, NameTaken, CanRegister, FieldsFit;
    EnsureResolves(types, st, e);
    EnsureFails(types, st, e);
    var r := EnsureRegistered(st, e);
    if r.result.Okay? && |all| == |e.fields| + 1 && all[0].Varint? && all[0].n < TWO_TO_THE_64 {
      ResultOfEmit(r.st, r.result.value, true, e, all[0].n, all[1..]);
      EventBehind(st, r, true, e, all[0].n, all[1..]);
    }
  }
}
