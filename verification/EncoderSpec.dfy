/** The encoder: what every operation writes and remembers, as functions of its state. */
module EncoderSpec {
  import opened Bytes
  import opened Values
  import opened Frames

  const STATIC_WIRE_ID_LIMIT := 256

  /** A type that derives TraceEvent: its Rust TypeId, its slot (0 when it claims none)
      and its schema. */
  datatype EventType = EventType(typeId: nat, slot: u16, entry: SchemaEntry)

  datatype SchemaKey = NameKey(name: bytes) | TypeKey(typeId: nat)

  /** `slotCache` holds wire id + 1, 0 when unset; `bitset` is four words of 64 bits. */
  datatype EncState = EncState(
    registry: map<nat, SchemaEntry>,
    nextId: u16,
    strings: map<bytes, u32>,
    nextString: u32,
    stacks: map<seq<u64>, u32>,
    nextStack: u32,
    schemaIds: map<SchemaKey, u16>,
    slotCache: seq<nat>,
    bitset: Bits,
    base: u64)

  predicate FourWords(b: seq<seq<bool>>) {
    |b| == 4 && forall i :: 0 <= i < 4 ==> |b[i]| == 64
  }

  function Zeros(n: nat): (w: seq<bool>)
    ensures |w| == n && forall i :: 0 <= i < n ==> !w[i]
  {
    if n == 0 then [] else [false] + Zeros(n - 1)
  }

  /** The 256-bit set of fast ids: bit `slot & 63` of word `slot >> 6`. */
  type Bits = b: seq<seq<bool>> | FourWords(b) witness [Zeros(64), Zeros(64), Zeros(64), Zeros(64)]

  const NO_BITS: Bits := [Zeros(64), Zeros(64), Zeros(64), Zeros(64)]

  function Empty(): EncState { EncState(map[], STATIC_WIRE_ID_LIMIT, map[], 0, map[], 0, map[], [], NO_BITS, 0) }

  datatype Error =
    | SchemaConflict
    | CorruptState
    | FirstValueNoTimestamp
    | ValueCount
    | Collision
    | TooManyAnnotations
    | IdsExhausted

  datatype Result<+R> = Okay(value: R) | Err(e: Error)

  /** The effect of an operation: the state after, what was written, the frames a reader
      should be given, and what the caller gets back. */
  datatype Emit<+R> = Emit(st: EncState, wires: seq<Wire>, log: seq<Frame>, result: Result<R>)

  /** One operation's effect behind another's. */
  function Then<R, S>(first: Emit<R>, next: Emit<S>): Emit<S> {
    Emit(next.st, first.wires + next.wires, first.log + next.log, next.result)
  }

  predicate HasBit(b: Bits, slot: nat)
    requires slot < STATIC_WIRE_ID_LIMIT
  {
    b[slot / 64][slot % 64]
  }

  function SetBit(b: Bits, slot: nat): (r: Bits)
    requires slot < STATIC_WIRE_ID_LIMIT
    ensures forall i: nat :: i < STATIC_WIRE_ID_LIMIT ==> HasBit(r, i) == (i == slot || HasBit(b, i))
  {
    b[slot / 64 := b[slot / 64][slot % 64 := true]]
  }

  // ----- schemas

  /** encode_schema, and encode_schema_annotations when there are any. */
  function SchemaWires(id: u16, e: SchemaEntry): seq<Wire> {
    [WireSchema(id, e)] + if e.annotations == [] then [] else [WireAnnotations(id, e.annotations)]
  }

  function SchemaLog(id: u16, e: SchemaEntry): seq<Frame> {
    [Schema(id, e.(annotations := []))] + if e.annotations == [] then [] else [Annotations(id, e.annotations)]
  }

  /** SchemaRegistry::register */
  function Register(st: EncState, id: nat, e: SchemaEntry): Option<EncState> {
    if id !in st.registry then Some(st.(registry := st.registry[id := e]))
    else if st.registry[id] == e then Some(st)
    else None
  }

  /** ensure_registered: idempotent for the same definition under the same name. */
  function EnsureRegistered(st: EncState, e: SchemaEntry): Emit<u16> {
    var key := NameKey(e.name);
    if key in st.schemaIds then
      var id := st.schemaIds[key];
      if id !in st.registry then Emit(st, [], [], Err(CorruptState))
      else if st.registry[id] == e then Emit(st, [], [], Okay(id))
      else Emit(st, [], [], Err(SchemaConflict))
    else if st.nextId >= 0xFFFF then Emit(st, [], [], Err(IdsExhausted))
    else
      var id := st.nextId;
      var st1 := st.(nextId := id + 1);
      if |e.annotations| > 0xFFFF then
        Emit(st1, [WireSchema(id, e)], [Schema(id, e.(annotations := []))], Err(TooManyAnnotations))
      else
        var st2 := Register(st1, id, e);
        if st2.None? then Emit(st1, SchemaWires(id, e), SchemaLog(id, e), Err(Collision))
        else Emit(st2.value.(schemaIds := st.schemaIds[key := id]), SchemaWires(id, e), SchemaLog(id, e), Okay(id))
  }

  // ----- timestamps and events

  predicate NeedsReset(base: u64, ts: u64) {
    ts < base || ts - base > MAX_DELTA
  }

  /** encode_timestamp_delta and the event behind it. */
  function EmitEvent(st: EncState, id: u16, dynamic: bool, e: SchemaEntry, ts: u64, vs: seq<Value>): Emit<u16> {
    var reset := NeedsReset(st.base, ts);
    var delta := if reset then 0 else ts - st.base;
    Emit(st.(base := ts),
         (if reset then [WireReset(ts)] else []) + [WireEvent(id, delta, dynamic, Tags(e.fields), vs)],
         [Event(id, e.name, Some(ts), vs)], Okay(id))
  }

  /** write_event: the schema is registered before the values are looked at. */
  function WriteEvent(st: EncState, e: SchemaEntry, values: seq<Value>): Emit<u16> {
    var r := EnsureRegistered(st, e);
    if r.result.Err? then r
    else if values == [] || !values[0].Varint? || values[0].n >= TWO_TO_THE_64 then
      r.(result := Err(FirstValueNoTimestamp))
    else if |values| - 1 != |e.fields| then r.(result := Err(ValueCount))
    else Then(r, EmitEvent(r.st, r.result.value, true, e, values[0].n, values[1..]))
  }

  /** register_fast_id: the frames are written before the registry can refuse. */
  function RegisterFast(st: EncState, t: EventType): Emit<u16>
    requires t.slot < STATIC_WIRE_ID_LIMIT
  {
    if |t.entry.annotations| > 0xFFFF then
      Emit(st, [WireSchema(t.slot, t.entry)], [Schema(t.slot, t.entry.(annotations := []))], Err(TooManyAnnotations))
    else
      var st1 := Register(st, t.slot, t.entry);
      if st1.None? then Emit(st, SchemaWires(t.slot, t.entry), SchemaLog(t.slot, t.entry), Err(Collision))
      else Emit(st1.value.(bitset := SetBit(st.bitset, t.slot)), SchemaWires(t.slot, t.entry),
                SchemaLog(t.slot, t.entry), Okay(t.slot))
  }

  /** `resize(slot + 1, 0)` when too short, then store. */
  function CacheSlot(cache: seq<nat>, slot: nat, id: nat): seq<nat> {
    if slot == 0 then cache
    else (if |cache| <= slot then cache + seq(slot + 1 - |cache|, _ => 0) else cache)[slot := id + 1]
  }

  /** resolve_dynamic_wire_id */
  function ResolveDynamic(st: EncState, t: EventType): Emit<u16> {
    var key := TypeKey(t.typeId);
    if key in st.schemaIds then
      Emit(st.(slotCache := CacheSlot(st.slotCache, t.slot, st.schemaIds[key])), [], [], Okay(st.schemaIds[key]))
    else
      var r := EnsureRegistered(st, t.entry);
      if r.result.Err? then r
      else r.(st := r.st.(schemaIds := r.st.schemaIds[key := r.result.value],
                          slotCache := CacheSlot(r.st.slotCache, t.slot, r.result.value)))
  }

  /** The first half of `write`: the wire id of a derived type. */
  function ResolveId(st: EncState, t: EventType): Emit<u16>
  {
    if t.slot != 0 && t.slot < STATIC_WIRE_ID_LIMIT then
      if HasBit(st.bitset, t.slot) then Emit(st, [], [], Okay(t.slot)) else RegisterFast(st, t)
    else if t.slot < |st.slotCache| && st.slotCache[t.slot] != 0 then
      Emit(st, [], [], Okay((st.slotCache[t.slot] - 1) % 0x1_0000))
    else ResolveDynamic(st, t)
  }

  function WriteDerived(st: EncState, t: EventType, ts: u64, values: seq<Value>): Emit<u16>
  {
    var r := ResolveId(st, t);
    if r.result.Err? then r
    else Then(r, EmitEvent(r.st, r.result.value, false, t.entry, ts, values))
  }

  // ----- interning

  function InternString(st: EncState, s: bytes): Emit<u32> {
    if s in st.strings then Emit(st, [], [], Okay(st.strings[s]))
    else if st.nextString >= 0xFFFF_FFFF then Emit(st, [], [], Err(IdsExhausted))
    else
      var id := st.nextString;
      Emit(st.(strings := st.strings[s := id], nextString := id + 1),
           [WireStrings([PoolEntry(id, s)])], [StringPool([PoolEntry(id, s)])], Okay(id))
  }

  function InternStack(st: EncState, frames: seq<u64>): Emit<u32> {
    if frames in st.stacks then Emit(st, [], [], Okay(st.stacks[frames]))
    else if st.nextStack >= 0xFFFF_FFFF then Emit(st, [], [], Err(IdsExhausted))
    else
      var id := st.nextStack;
      Emit(st.(stacks := st.stacks[frames := id], nextStack := id + 1),
           [WireStacks([StackEntry(id, frames)])], [StackPool([StackEntry(id, frames)])], Okay(id))
  }

  /** reset_to: a fresh header, the slot cache keeps its length. */
  function ResetTo(st: EncState): Emit<nat> {
    Emit(Empty().(slotCache := seq(|st.slotCache|, _ => 0)), [WireHeader], [], Okay(0))
  }

  // ----- runs

  datatype Op =
    | OpIntern(text: bytes)
    | OpStack(frames: seq<u64>)
    | OpRegister(entry: SchemaEntry)
    | OpWriteEvent(schema: SchemaEntry, all: seq<Value>)
    | OpWrite(t: EventType, ts: u64, values: seq<Value>)
    | OpReset

  function Do(st: EncState, op: Op): Emit<nat>
  {
    match op
    case OpIntern(s) => InternString(st, s)
    case OpStack(frames) => InternStack(st, frames)
    case OpRegister(e) => EnsureRegistered(st, e)
    case OpWriteEvent(e, vs) => WriteEvent(st, e, vs)
    case OpWrite(t, ts, vs) => WriteDerived(st, t, ts, vs)
    case OpReset => ResetTo(st)
  }

  /** A run of operations: everything written and logged, in order. */
  function Perform(st: EncState, ops: seq<Op>): Emit<nat>
    decreases ops
  {
    if ops == [] then Emit(st, [], [], Okay(0)) else
      var e := Do(st, ops[0]);
      Then(e, Perform(e.st, ops[1..]))
  }
}
