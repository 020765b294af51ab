/** The three objects together: what an encoder object wrote, the two Rust decoding paths
    and decode.js all read back. */
module EndToEnd {
  import opened Bytes
  import opened Values
  import opened Frames
  import opened Machine
  import opened Playback
  import opened EncoderSpec
  import opened Coupling
  import opened Recorder
  import opened Resume
  import opened Pulls
  import opened Callback
  import opened ValueDecode
  import opened Codec
  import opened EncoderClass
  import opened DecoderClass
  import opened JsDecoder
  import opened Failures
  import opened Slice
  import opened Slicer
  import TypeSlot

  lemma {:induction false} FittingIsWellTyped(types: map<nat, EventType>, st: EncState, ops: seq<Op>)
    requires AllFit(types, st, ops)
    ensures forall i :: 0 <= i < |ops| ==> WellTyped(ops[i])
    decreases ops
  {
    hide Do;
    if ops != [] {
      OneIsWellTyped(types, st, ops[0]);
      FittingIsWellTyped(types, Do(st, ops[0]).st, ops[1..]);
      assert forall i :: 0 < i < |ops| ==> ops[i] == ops[1..][i - 1];
    }
  }

  lemma OneIsWellTyped(types: map<nat, EventType>, st: EncState, op: Op)
    requires OpFits(types, st, op)
    ensures WellTyped(op)
  {
    hide CanRegister, CanResolve, FitsField, FitsDynamicField;
  }

  /** Valid text is shown as it is. */
  lemma ShownIsSame(fs: seq<Frame>)
    requires AllTextsValid(fs)
    ensures ShownAll(fs) == fs
  {
    hide Replaced, TextsValid;
    forall i | 0 <= i < |fs| ensures Shown(fs[i]) == fs[i] {
      assert FrameTextsValid(fs[i]);
      if fs[i].Event? {
        forall j | 0 <= j < |fs[i].values| ensures Replaced(fs[i].values[j]) == fs[i].values[j] {
          ReplacedKeepsExactlyValid(fs[i].values[j]);
        }
        assert ReplacedAll(fs[i].values) == fs[i].values;
      }
    }
  }

  lemma OutputIsRead(types: map<nat, EventType>, ops: seq<Op>)
    requires TypesOk(types) && AllFit(types, Empty(), ops)
    ensures var d, log := Output(ops), Perform(Empty(), ops).log;
            HeaderAt(d)
            && Run(Owned, FRESH, d[5..]).frames == log && Run(Js, FRESH, d[5..]).frames == log
            && Run(Ref, FRESH, d[5..]).Complete() && Run(Ref, FRESH, d[5..]).frames == log
            && Run(Js, FRESH, d[5..]).Complete() && AllTextsValid(log)
  {
    hide Run, Perform, PlayAll, Inv, Headers, Coupled, AllTextsValid;
    EncoderDecoderCoupling(Owned, types, ops);
    EncoderDecoderCoupling(Ref, types, ops);
    EncoderDecoderCoupling(Js, types, ops);
    RefRunIsOwnedRun(FRESH, Output(ops)[5..]);
  }

  /** For any run of well-formed operations on an encoder object: the owned decoder and
      decode.js give exactly what the operations tell, and the callback path completes,
      having delivered exactly the events in it. */
  method RecordAndDecode(types: map<nat, EventType>, ops: seq<Op>)
    returns (owned: seq<Frame>, verdict: Verdict, events: seq<RawEvent>, js: Option<seq<Frame>>)
    requires TypesOk(types) && AllFit(types, Empty(), ops)
    ensures Perform(Empty(), ops).log == Told(BLANK, ops)
    ensures owned == Told(BLANK, ops) && js == Some(Told(BLANK, ops))
    ensures verdict == AllDone && Events(DeliveredAll(events)) == CutEvents(Told(BLANK, ops))
  {
    hide Run, Perform, PlayAll, Deliveries, AllTextsValid, ShownAll, DeliveredAll, Events, CutEvents, Overflows;
    hide LoudFrame, Feed, Told;
    FittingIsWellTyped(types, Empty(), ops);
    DecodersTell(Owned, types, ops);
    OutputIsRead(types, ops);
    var data := Record(ops);

    var decoder := new Decoder(data);
    owned := decoder.DecodeAll();
    ShownIsSame(Perform(Empty(), ops).log);

    var streaming := new Decoder(data);
    verdict, events := streaming.TryForEachEvent(_ => true);
    FeedAgreesIff(FRESH, data[5..]);
    DeliveriesAreTheEvents(FRESH, data[5..]);

    var reader := new TraceDecoder(data);
    var ok := reader.DecodeHeader();
    js := reader.DecodeAll();
  }

  /** Decoder ids leave room: they are below the encoder's counters. */
  lemma IdsLeaveRoom(types: map<nat, EventType>, st: EncState, d: DecState)
    requires Inv(types, st) && Coupled(st, d)
    ensures forall id :: id in d.registry ==> id < 0xFFFF
    ensures forall i :: i in d.strings ==> i < 0xFFFF_FFFF
    ensures forall i :: i in d.stacks ==> i < 0xFFFF_FFFF
  {
    hide NamesInv, TypesInv, SlotsInv, FastInv, EntryFits, HasBit;
  }

  /** Resuming with objects: an encoder made from the decoder that read `before`'s output
      writes byte for byte what the original encoder would have gone on to write, and both
      parts together decode to the whole log. */
  method ResumeObjects(types: map<nat, EventType>, before: seq<Op>, ops: seq<Op>) returns (data: bytes, tail: bytes)
    requires TypesOk(types) && AllFit(types, Empty(), before) && AllSlotFree(before)
    requires AllFit(types, Perform(Empty(), before).st, ops) && AllSlotFree(ops)
    ensures data == Output(before) && tail == EncodeWires(Perform(Perform(Empty(), before).st, ops).wires)
    ensures var whole := DecodeStream(Owned, data + tail);
            whole.Some? && whole.value.Complete()
            && whole.value.frames == Perform(Empty(), before).log + Perform(Perform(Empty(), before).st, ops).log
  {
    hide Run, Perform, PlayAll, Inv, Headers, Coupled, Resumed, AllFit, EncodeWires, ShownAll, HeaderAt;
    FittingIsWellTyped(types, Empty(), before);
    FittingIsWellTyped(types, Perform(Empty(), before).st, ops);
    EncoderDecoderCoupling(Owned, types, before);
    data := Record(before);
    OutputStarts(before);
    var decoder := new Decoder(data);
    var _ := decoder.DecodeAll();
    IdsLeaveRoom(types, Perform(Empty(), before).st, decoder.State());
    CoupledIsSynced(Perform(Empty(), before).st, decoder.State());
    var enc := decoder.IntoEncoder([]);
    ghost var resumed := enc.State();
    ResumeIsTransparent(Owned, types, before, resumed, ops);
    var handed := Drive(enc, ops);
    tail := handed + enc.writer.inner;
  }

  lemma OutputStarts(ops: seq<Op>)
    ensures HeaderAt(Output(ops)) && DecodeStream(Owned, Output(ops)) == Some(Run(Owned, FRESH, Output(ops)[5..]))
  {
    hide Run, Perform;
    HeaderReads(EncodeWires(Perform(Empty(), ops).wires));
  }

  // ----- slicing what was recorded

  /** A decoder reads the whole of `out`: the kept part of `log`, and the tables that the
      encoder ended with. */
  predicate ReadsKept(dia: Dialect, out: bytes, log: seq<Frame>, registry: map<nat, SchemaEntry>, startNs: int,
                      endNs: int) {
    var p := DecodeStream(dia, out);
    p.Some? && p.value.Complete() && p.value.frames == Kept(log, startNs, endNs) && p.value.st.registry == registry
  }

  /** Whatever the encoder wrote meets everything that slicing by any range asks for. */
  lemma OutputCanBeSliced(types: map<nat, EventType>, ops: seq<Op>, startNs: int, endNs: int)
    requires TypesOk(types) && AllFit(types, Empty(), ops)
    ensures var d := Output(ops);
            var o := DecodeStream(Strict, d);
            o.Some? && o.value.Complete() && DecodeStream(Js, d) == o && d[4] == 1
            && o.value.frames == Perform(Empty(), ops).log && o.value.st.registry == Perform(Empty(), ops).st.registry
            && Writable(Js, FRESH, d[5..], 0, startNs, endNs)
  {
    hide Run, Perform, PlayAll, Inv, TimestampsFit, Kept, Headers, Inverse, Writable;
    EncoderDecoderCoupling(Js, types, ops);
    EncoderDecoderCoupling(Strict, types, ops);
    var d := Output(ops);
    StrictReadsAsJs(d);
    StrictTimesFit(FRESH, d[5..]);
    KeptTimesFit(Run(Strict, FRESH, d[5..]).frames, startNs, endNs);
    FittingIsWritable(Js, FRESH, d[5..], 0, startNs, endNs);
  }

  /** Recording and slicing: for any run on an encoder object and any range there is a
      slice, and the Rust decoders and decode.js all read it alike, as the kept part of the
      log. */
  method RecordAndSlice(types: map<nat, EventType>, ops: seq<Op>, startNs: int, endNs: int) returns (r: Option<bytes>)
    requires TypesOk(types) && AllFit(types, Empty(), ops)
    ensures r.Some?
    ensures forall dia: Dialect ::
              ReadsKept(dia, r.value, Perform(Empty(), ops).log, Perform(Empty(), ops).st.registry, startNs, endNs)
  {
    hide Run, Perform, PlayAll, Inv, Writable, Kept, Sliced;
    FittingIsWellTyped(types, Empty(), ops);
    OutputCanBeSliced(types, ops, startNs, endNs);
    var data := Record(ops);
    r := SliceTrace(data, startNs, endNs);
    forall dia: Dialect
      ensures ReadsKept(dia, r.value, Perform(Empty(), ops).log, Perform(Empty(), ops).st.registry, startNs, endNs)
    {
      SlicedIsRead(dia, DecodeStream(Strict, data).value, startNs, endNs, r.value);
    }
  }

  lemma SlicedIsRead(dia: Dialect, full: Outcome, startNs: int, endNs: int, out: bytes)
    requires Sliced(Strict, full, startNs, endNs, out)
    ensures ReadsKept(dia, out, full.frames, full.st.registry, startNs, endNs)
  {
    hide Run, Kept;
    StrictSliceIsCommon(dia, full, startNs, endNs, out);
  }

  // ----- slots of derived types

  predicate ReturnedSlot(s: TypeSlot.State, i: nat, ty: nat, slot: nat) {
    i < |s.calls| && s.calls[i].ty == ty && s.calls[i].pc.Returned? && s.calls[i].pc.slot == slot
  }

  /** Every claimed slot was returned by some call of the type's `type_slot()`. */
  ghost predicate SlotsClaimed(types: map<nat, EventType>, s: TypeSlot.State) {
    forall t :: t in types && types[t].slot != 0 ==> exists i :: ReturnedSlot(s, i, t, types[t].slot)
  }

  /** What the coupling theorem asks of slots is what the slot protocol guarantees, however
      the threads of the program interleave. */
  lemma ClaimedSlotsAreOk(types: map<nat, EventType>, calls: seq<nat>, moves: seq<TypeSlot.Move>)
    requires forall t :: t in types ==> types[t].typeId == t && EntryFits(types[t].entry) && types[t].entry.hasTimestamp
    requires |calls| < 0xFFFF && SlotsClaimed(types, TypeSlot.Run(TypeSlot.Initial(calls), moves))
    ensures TypesOk(types)
  {
    hide TypeSlot.Run, EntryFits;
    var s := TypeSlot.Run(TypeSlot.Initial(calls), moves);
    forall t, u | t in types && u in types && t != u && types[t].slot != 0 ensures types[t].slot != types[u].slot {
      if types[t].slot == types[u].slot {
        var i: nat :| ReturnedSlot(s, i, t, types[t].slot);
        var k: nat :| ReturnedSlot(s, k, u, types[u].slot);
        TypeSlot.TypesStay(TypeSlot.Initial(calls), moves);
        TypeSlot.SlotsAreUnique(calls, moves, i, k);
      }
    }
  }
}
