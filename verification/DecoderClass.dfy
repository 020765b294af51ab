/** The decoder of decoder.rs as it stands: an object that advances a position and updates
    its registry, schema cache, pools and timestamp base. */
module DecoderClass {
  import opened Bytes
  import opened Values
  import opened Frames
  import opened Machine
  import opened View
  import opened ValueDecode
  import opened RefDecode
  import opened Failures
  import opened Codec
  import opened Pulls
  import opened Callback
  import opened Registry
  import EncoderClass
  import Resume
  import Utf8

  /** Ok(None), Err, a panic, or Ok(Some(frame)). */
  datatype Answer<F> = End | Malformed | Panicked | Next(frame: F)

  /** A decoded event as the callback sees it, its fields still zero-copy. */
  datatype RawEvent = RawEvent(typeId: u16, name: bytes, timestamp: Option<nat>, fields: seq<RefValue>,
                               schema: SchemaEntry, strings: map<nat, bytes>, stacks: map<nat, seq<u64>>)

  function Delivered(e: RawEvent): Delivery {
    Delivery(Event(e.typeId, e.name, e.timestamp, ToOwnedAll(e.fields)), e.schema, e.strings, e.stacks)
  }

  function DeliveredAll(es: seq<RawEvent>): (r: seq<Delivery>)
    ensures |r| == |es|
  {
    seq(|es|, i requires 0 <= i < |es| => Delivered(es[i]))
  }

  lemma DeliveredMore(es: seq<RawEvent>, e: RawEvent)
    ensures DeliveredAll(es + [e]) == DeliveredAll(es) + [Delivered(e)]
  {
    hide Delivered;
  }

  /** How a loop over pool entries goes on. */
  lemma StringsTurn(m: map<nat, bytes>, es: seq<PoolEntry>, i: nat)
    requires i < |es|
    ensures AddStrings(Owned, m, es[i..])
         == AddStrings(Owned, if Utf8.Valid(es[i].data) then m[es[i].id := es[i].data] else m, es[i + 1..])
  {
    assert es[i..][1..] == es[i + 1..];
  }

  lemma StacksTurn(m: map<nat, seq<u64>>, es: seq<StackEntry>, i: nat)
    requires i < |es|
    ensures AddStacks(Owned, m, es[i..]) == AddStacks(Owned, m[es[i].id := es[i].frames], es[i + 1..])
  {
    assert es[i..][1..] == es[i + 1..];
  }

  lemma SameKind(frame: RefFrame, f: Frame)
    requires Collected(frame) == CutFrame(f)
    ensures (frame.RefReset? <==> f.TimestampReset?) && (frame.RefEvent? <==> f.Event?)
    ensures f.Event? ==> frame.timestamp == f.timestamp
  {
    hide ToOwnedAll, CutAll, UnpackedAll;
  }

  class Decoder {
    const data: bytes
    const version: byte
    var pos: nat
    var registry: SchemaRegistry
    var cache: map<nat, SchemaEntry>
    var strings: map<nat, bytes>
    var stacks: map<nat, seq<u64>>
    var base: u64

    function State(): DecState
      reads this, registry
    {
      DecState(registry.schemas, cache, strings, stacks, base)
    }

    predicate Valid()
      reads this
    {
      pos <= |data|
    }

    function Rest(): bytes
      reads this
      requires Valid()
    {
      data[pos..]
    }

    /** Decoder::new; it reads the version and accepts any. */
    constructor (data: bytes)
      requires HeaderAt(data)
      ensures Valid() && fresh(registry) && State() == FRESH && this.data == data && Rest() == data[5..]
      ensures version == data[4]
    {
      this.data := data;
      version := data[4];
      pos, base := 5, 0;
      registry := new SchemaRegistry();
      cache, strings, stacks := map[], map[], map[];
    }

    method ResetState()
      modifies this
      ensures pos == old(pos) && State() == FRESH && fresh(registry)
    {
      registry := new SchemaRegistry();
      cache := map[];
      strings := map[];
      stacks := map[];
      base := 0;
    }

    method TryConsumeResetHeader() returns (found: bool)
      requires Valid()
      modifies this
      ensures Valid() && found == HeaderAt(old(Rest()))
      ensures found ==> State() == FRESH && fresh(registry) && pos == old(pos) + 5 && Rest() == old(Rest())[5..]
      ensures !found ==> State() == old(State()) && registry == old(registry) && pos == old(pos)
    {
      if pos + 5 <= |data| && HeaderAt(data[pos..]) {
        ResetState();
        pos := pos + 5;
        return true;
      }
      return false;
    }

    /** register_schema: the cache is overwritten even when the registry then refuses. */
    method RegisterSchema(id: u16, e: SchemaEntry) returns (ok: bool)
      modifies this`cache, registry
      ensures ok == AddSchema(Owned, old(State()), id, e).accepted
      ensures State() == AddSchema(Owned, old(State()), id, e).st
    {
      cache := cache[id := e];
      ok := registry.Register(id, e);
    }

    method InsertStrings(es: seq<PoolEntry>)
      modifies this`strings
      ensures AddStrings(Owned, old(strings), es) == Some(strings)
    {
      hide Utf8.Valid;
      assert es[0..] == es;
      for i := 0 to |es|
        invariant AddStrings(Owned, strings, es[i..]) == AddStrings(Owned, old(strings), es)
      {
        StringsTurn(strings, es, i);
        if Utf8.Valid(es[i].data) { strings := strings[es[i].id := es[i].data]; }
      }
    }

    method InsertStacks(es: seq<StackEntry>)
      modifies this`stacks
      ensures AddStacks(Owned, old(stacks), es) == Some(stacks)
    {
      assert es[0..] == es;
      for i := 0 to |es|
        invariant AddStacks(Owned, stacks, es[i..]) == AddStacks(Owned, old(stacks), es)
      {
        StacksTurn(stacks, es, i);
        stacks := stacks[es[i].id := es[i].frames];
      }
    }

    /** The zero-copy path unpacks each entry as it is inserted. */
    method InsertRawStacks(ss: seq<RawStack>)
      modifies this`stacks
      ensures AddStacks(Owned, old(stacks), UnpackedAll(ss)) == Some(stacks)
    {
      hide Unpacked;
      ghost var es := UnpackedAll(ss);
      assert es[0..] == es;
      for i := 0 to |ss|
        invariant AddStacks(Owned, stacks, es[i..]) == AddStacks(Owned, old(stacks), es)
      {
        StacksTurn(stacks, es, i);
        var frames := CollectFrames(ss[i].framesLe, |ss[i].framesLe| / 8);
        UnpackedIs(ss[i]);
        stacks := stacks[ss[i].id := frames];
      }
    }

    method MergeAnnotations(id: nat, xs: seq<Annotation>)
      modifies this`cache, registry`schemas
      ensures State() == Apply(Owned, old(State()), Annotations(id, xs)).st
    {
      if id in cache { cache := cache[id := cache[id].(annotations := cache[id].annotations + xs)]; }
      if id in registry.schemas {
        var entry := registry.schemas[id];
        registry.schemas := registry.schemas[id := entry.(annotations := entry.annotations + xs)];
      }
    }

    /** What next_frame does with a frame that it decoded. */
    method Take(frame: Frame, ghost f: Frame) returns (ok: bool)
      requires frame == Shown(f) && (frame.Event? && frame.timestamp.Some? ==> frame.timestamp.value < TWO_TO_THE_64)
      modifies this`cache, this`strings, this`stacks, this`base, registry
      ensures ok == Apply(Owned, old(State()), f).accepted && State() == Apply(Owned, old(State()), f).st
    {
      hide AddStrings, AddStacks, AddSchema, Annotate, ReplacedAll;
      ok := true;
      match frame {
        case Schema(id, e) => ok := RegisterSchema(id, e);
        case Event(_, _, ts, _) => if ts.Some? { base := ts.value; }
        case StringPool(es) => InsertStrings(es);
        case StackPool(es) => InsertStacks(es);
        case TimestampReset(ts) => base := ts;
        case Annotations(id, xs) => MergeAnnotations(id, xs);
      }
    }

    /** next_frame: headers and resets are passed over silently. */
    method NextFrame() returns (r: Answer<Frame>)
      requires Valid()
      modifies this, registry
      ensures Valid() && (registry == old(registry) || fresh(registry))
      ensures match Pull(Owned, old(State()), old(Rest()))
              case NoMore(st, rest) => r == End && State() == st && Rest() == rest
              case Refused(st, rest) => r == Malformed && State() == st && Rest() == rest
              case Got(f, st, rest) => r == Next(Shown(f)) && State() == st && Rest() == rest
      decreases |data| - pos
    {
      hide ParseFrame, Apply, HeaderAt, ReplacedAll;
      if pos >= |data| { return End; }
      var header := TryConsumeResetHeader();
      if header {
        r := NextFrame();
        return;
      }
      ghost var st, d := State(), Rest();
      var f := DecodeFrame(data[pos..], cache, base);
      if f.None? { return End; }
      var (frame, consumed) := f.value;
      EventTimeFits(Owned, cache, base, d);
      ParseFrameLocal(Owned, cache, base, d, []);
      pos := pos + consumed;
      assert Rest() == ParseFrame(Owned, st.cache, st.base, d).rest;
      var ok := Take(frame, ParseFrame(Owned, st.cache, st.base, d).value);
      if !ok { return Malformed; }
      if frame.TimestampReset? { r := NextFrame(); } else { r := Next(frame); }
    }

    /** What next_frame_ref does with a frame that it decoded. */
    method TakeRef(frame: RefFrame, ghost f: Frame) returns (ok: bool)
      requires Collected(frame) == CutFrame(f)
      requires frame.RefEvent? && frame.timestamp.Some? ==> frame.timestamp.value < TWO_TO_THE_64
      modifies this`cache, this`strings, this`stacks, this`base, registry
      ensures ok == Apply(Ref, old(State()), f).accepted && State() == Apply(Ref, old(State()), f).st
    {
      hide AddStrings, AddStacks, AddSchema, Annotate, UnpackedAll, ToOwnedAll, CutAll;
      ok := true;
      SameAdds(State(), f);
      match frame {
        case RefSchema(id, e) => ok := RegisterSchema(id, e);
        case RefEvent(_, _, ts, _) => if ts.Some? { base := ts.value; }
        case RefStrings(es) => InsertStrings(es);
        case RefStacks(ss) => InsertRawStacks(ss);
        case RefReset(ts) => base := ts;
        case RefAnnotations(id, xs) => MergeAnnotations(id, xs);
      }
    }

    /** next_frame_ref. It panics exactly where it stands before an event with a string map
        that is cut off in its last value. */
    method NextFrameRef() returns (r: Answer<RefFrame>)
      requires Valid()
      modifies this, registry
      ensures Valid() && (registry == old(registry) || fresh(registry))
      ensures match Pull(Ref, old(State()), old(Rest()))
              case NoMore(st, rest) =>
                r == (if LoudFrame(Ref, st.cache, st.base, rest) then Answer.Panicked else End) && State() == st
                && Rest() == rest
              case Refused(st, rest) => r == Malformed && State() == st && Rest() == rest
              case Got(f, st, rest) => r.Next? && Collected(r.frame) == CutFrame(f) && State() == st && Rest() == rest
      decreases |data| - pos
    {
      hide ParseFrame, Apply, HeaderAt, LoudFrame, Collected, CutFrame;
      if pos >= |data| { NothingIsQuiet(Ref, cache, base, Rest()); return End; }
      var header := TryConsumeResetHeader();
      if header {
        r := NextFrameRef();
        return;
      }
      ghost var st, d := State(), Rest();
      var f := DecodeFrameRef(data[pos..], cache, base);
      if f.Loud? { return Answer.Panicked; }
      if f.Short? { return End; }
      var (frame, consumed) := f.value;
      EventTimeFits(Ref, cache, base, d);
      ParseFrameLocal(Ref, cache, base, d, []);
      ghost var parsed := ParseFrame(Ref, cache, base, d).value;
      SameKind(frame, parsed);
      pos := pos + consumed;
      assert Rest() == ParseFrame(Ref, st.cache, st.base, d).rest;
      var ok := TakeRef(frame, parsed);
      if !ok { return Malformed; }
      if frame.RefReset? { r := NextFrameRef(); } else { r := Next(frame); }
    }

    /** decode_all: stops at the end, at a frame it cannot read, or at an error. */
    method DecodeAll() returns (frames: seq<Frame>)
      requires Valid()
      modifies this, registry
      ensures Valid() && (registry == old(registry) || fresh(registry))
      ensures var o := Run(Owned, old(State()), old(Rest()));
              frames == ShownAll(o.frames) && State() == o.st && Rest() == o.rest
    {
      hide Run, Pull, Shown, ShownAll;
      frames := [];
      ghost var o := Run(Owned, State(), Rest());
      ghost var done: seq<Frame> := [];
      NothingShown(o.frames);
      while true
        invariant Valid() && (registry == old(registry) || fresh(registry))
        invariant frames == ShownAll(done) && PulledSoFar(o, done, Run(Owned, State(), Rest()))
        decreases |data| - pos
      {
        RunIsPulls(Owned, State(), Rest());
        PullShrinks(Owned, State(), Rest());
        ghost var p := Pull(Owned, State(), Rest());
        PulledOn(o, done, Run(Owned, State(), Rest()), p, Run(Owned, p.st, p.rest));
        var f := NextFrame();
        if !f.Next? { return; }
        ShownMore(done, p.frame);
        frames, done := frames + [f.frame], done + [p.frame];
      }
    }

    /** into_encoder: an encoder that takes over the decoder's state and appends to
        `buffer`. The ids must leave room for one more. */
    method IntoEncoder(buffer: bytes) returns (enc: EncoderClass.Encoder)
      requires forall id :: id in registry.schemas ==> id < 0xFFFF
      requires forall i :: i in strings ==> i < 0xFFFF_FFFF
      requires forall i :: i in stacks ==> i < 0xFFFF_FFFF
      modifies registry
      ensures fresh(enc) && fresh(enc.writer) && enc.registry == registry && registry == old(registry)
      ensures enc.Valid() && Resume.Resumed(old(State()).(cache := old(registry.schemas)), enc.State())
      ensures enc.writer.inner == buffer
    {
      enc := new EncoderClass.Encoder.FromDecoder(registry, strings, stacks, base, buffer);
    }

    /** try_for_each_event: events are decoded in place, everything else through
        next_frame_ref. The timestamp addition is not checked here. */
    method TryForEachEvent(accepts: RawEvent -> bool) returns (r: Verdict, events: seq<RawEvent>)
      requires Valid()
      modifies this, registry
      ensures Valid() && (registry == old(registry) || fresh(registry))
      ensures !r.UserError? ==> Feed(old(State()), old(Rest())) == Fed(DeliveredAll(events), r, State(), Rest())
      ensures r.UserError? ==> Feed(old(State()), old(Rest())) == Feed(State(), Rest()).Behind(DeliveredAll(events))
      ensures forall i :: 0 <= i < |events| && (i < |events| - 1 || !r.UserError?) ==> accepts(events[i])
      ensures r.UserError? ==> events != [] && !accepts(events[|events| - 1])
    {
      hide Feed, DeliveredAll;
      ghost var full := Feed(State(), Rest());
      events := [];
      FeedStarts(full);
      while pos < |data|
        invariant Valid() && (registry == old(registry) || fresh(registry))
        invariant full == Feed(State(), Rest()).Behind(DeliveredAll(events))
        invariant forall i :: 0 <= i < |events| ==> accepts(events[i])
        decreases |data| - pos
      {
        if data[pos] == EVENT_FRAME {
          var event := EventTurn();
          if !event.Given? {
            r := if event.Loud? then Verdict.Panicked else DecodeError;
            FeedEnds(full, events, r, State(), Rest());
            return;
          }
          FeedGoesOn(full, events, event.value, Feed(State(), Rest()));
          events := events + [event.value];
          if !accepts(event.value) { return UserError, events; }
        } else {
          var ok := OtherTurn();
          if !ok {
            FeedEnds(full, events, DecodeError, State(), Rest());
            return DecodeError, events;
          }
        }
      }
      NothingToFeed(State());
      FeedEnds(full, events, AllDone, State(), Rest());
      return AllDone, events;
    }

    /** The loop's turn on an event frame. */
    method EventTurn() returns (r: Attempt<RawEvent>)
      requires Valid() && pos < |data| && data[pos] == EVENT_FRAME
      modifies this`pos, this`base
      ensures Valid()
      ensures r.Given? ==>
                pos > old(pos) && Feed(old(State()), old(Rest())) == Feed(State(), Rest()).Behind([Delivered(r.value)])
      ensures !r.Given? ==> State() == old(State()) && Rest() == old(Rest())
      ensures !r.Given? ==>
                Feed(State(), Rest()) == Fed([], if r.Loud? then Verdict.Panicked else DecodeError, State(), Rest())
    {
      hide Feed, Delivered, InlineReads;
      ghost var st, d := State(), Rest();
      var e := InlineEvent();
      InlineIsFeed(st, d, e);
      var x :- e;
      var (event, consumed) := x;
      pos := pos + consumed;
      if event.timestamp.Some? { base := event.timestamp.value; }
      return Given(event);
    }

    /** The loop's turn on any other frame: resets in place, mid-stream headers, and the
        rest through next_frame_ref. */
    method OtherTurn() returns (ok: bool)
      requires Valid() && pos < |data| && data[pos] != EVENT_FRAME
      modifies this, registry
      ensures Valid() && (registry == old(registry) || fresh(registry))
      ensures ok ==> pos > old(pos) && Feed(old(State()), old(Rest())) == Feed(State(), Rest())
      ensures !ok ==> Feed(old(State()), old(Rest())) == Fed([], DecodeError, State(), Rest())
    {
      hide Feed, ParseFrame, HeaderAt, CutFrame, Collected, LoudEvent;
      ghost var st, d := State(), Rest();
      var tag := data[pos];
      if tag == RESET_FRAME {
        ResetIsFeed(st, d);
        var ts := ReadReset(data[pos..]);
        if ts.None? { return false; }
        base := ts.value;
        pos := pos + 9;
        return true;
      }
      if tag == MAGIC[0] {
        HeaderIsFeed(st, d);
        var header := TryConsumeResetHeader();
        if header { return true; }
      } else {
        NoHeaderByTag(d);
      }
      OtherIsFeed(st, d);
      var f := NextFrameRef();
      return f.Next?;
    }

    /** The inlined decoding of one event. */
    method InlineEvent() returns (r: Attempt<(RawEvent, nat)>)
      requires Valid() && pos < |data| && data[pos] == EVENT_FRAME
      ensures InlineReads(State(), Rest(), r)
      ensures r.Given? ==>
                0 < r.value.1 <= |Rest()| && (r.value.0.timestamp.Some? ==> r.value.0.timestamp.value < TWO_TO_THE_64)
    {
      hide ParseFields, LeVal, HeadOf, ToOwnedAll, CutAll, ParseEvent, LoudFields, LoudEvent;
      var remaining := data[pos..];
      EventIs(Ref, remaining, cache, base);
      LoudEventIs(remaining, cache, base);
      HeadIs(remaining, cache, base);
      IdAt(remaining);
      r := Short;
      var typeId := GetLe(remaining, 1, 2);
      if typeId.None? || typeId.value !in cache { return; }
      var entry := cache[typeId.value];
      var at, timestamp := 3, None;
      if entry.hasTimestamp {
        var delta := GetLe(remaining, 3, 3);
        if delta.None? { return; }
        timestamp := Some((base + delta.value) % TWO_TO_THE_64);
        at := 6;
      }
      var fields := DecodeRefFields(Tags(entry.fields), remaining, at);
      if !fields.Given? { r := if fields.Loud? then Loud else Short; return; }
      FieldsRest(Ref, Tags(entry.fields), remaining, at);
      var event := RawEvent(typeId.value, entry.name, timestamp, fields.value.0, entry, strings, stacks);
      r := Given((event, fields.value.1));
    }
  }

  // ----- lemmas for the loops

  function ShownAll(fs: seq<Frame>): (r: seq<Frame>)
    ensures |r| == |fs|
  {
    seq(|fs|, i requires 0 <= i < |fs| => Shown(fs[i]))
  }

  lemma ShownMore(fs: seq<Frame>, f: Frame)
    ensures ShownAll(fs + [f]) == ShownAll(fs) + [Shown(f)]
  {
    hide Shown;
  }

  lemma NothingShown(fs: seq<Frame>)
    ensures ShownAll([]) == [] && [] + fs == fs
  {
  }

  /** `done` was pulled from the run `o`, `t` is still to come. */
  predicate PulledSoFar(o: Outcome, done: seq<Frame>, t: Outcome) {
    o.frames == done + t.frames && o.st == t.st && o.rest == t.rest
  }

  lemma PulledOn(o: Outcome, done: seq<Frame>, t: Outcome, p: Pulled, t': Outcome)
    requires PulledSoFar(o, done, t) && Continues(t, p, t')
    ensures if p.Got? then PulledSoFar(o, done + [p.frame], t')
            else o.frames == done && o.st == p.st && o.rest == p.rest
  {
    if p.Got? { Assoc(done, [p.frame], t'.frames); } else { assert done + [] == done; }
  }

  lemma FeedStarts(full: Fed)
    ensures full == full.Behind(DeliveredAll([]))
  {
    BehindBoth(full, [], []);
  }

  lemma FeedGoesOn(full: Fed, es: seq<RawEvent>, e: RawEvent, next: Fed)
    requires full == next.Behind([Delivered(e)]).Behind(DeliveredAll(es))
    ensures full == next.Behind(DeliveredAll(es + [e]))
  {
    hide Delivered, DeliveredAll;
    DeliveredMore(es, e);
    BehindBoth(next, DeliveredAll(es), [Delivered(e)]);
  }

  lemma FeedEnds(full: Fed, es: seq<RawEvent>, r: Verdict, st: DecState, d: bytes)
    ensures Fed([], r, st, d).Behind(DeliveredAll(es)) == Fed(DeliveredAll(es), r, st, d)
  {
    hide DeliveredAll;
    assert DeliveredAll(es) + [] == DeliveredAll(es);
  }

  /** The inlined event is the step's event, or one whose timestamp wrapped. */
  predicate InlineReads(st: DecState, d: bytes, r: Attempt<(RawEvent, nat)>) {
    if Overflows(st, d) then
      var p := FieldsHere(st, d);
      if p.Fail? then r == if LoudHere(st, d) then Loud else Short
      else r.Given? && r.value.1 <= |d| && d[r.value.1..] == p.rest && Delivered(r.value.0) == WrappedDelivery(st, d)
    else
      var p := ParseFrame(Ref, st.cache, st.base, d);
      if p.Fail? then r == if LoudFrame(Ref, st.cache, st.base, d) then Loud else Short
      else
        r.Given? && r.value.1 <= |d| && d[r.value.1..] == p.rest && p.value.Event? && p.value.typeId in st.cache
        && Delivered(r.value.0) == Delivery(CutFrame(p.value), st.cache[p.value.typeId], st.strings, st.stacks)
  }

  lemma DeliveredTime(e: RawEvent)
    ensures Delivered(e).event.Event? && Delivered(e).event.timestamp == e.timestamp
  {
  }

  /** What the inlined event means for the rest of the loop. */
  lemma InlineIsFeed(st: DecState, d: bytes, r: Attempt<(RawEvent, nat)>)
    requires d != [] && d[0] == EVENT_FRAME && InlineReads(st, d, r)
    ensures if r.Given? then
              var e := r.value.0;
              r.value.1 <= |d|
              && var st' := if e.timestamp.Some? then st.(base := e.timestamp.value) else st;
                 Feed(st, d) == Feed(st', d[r.value.1..]).Behind([Delivered(e)])
            else Feed(st, d) == Fed([], if r.Loud? then Verdict.Panicked else DecodeError, st, d)
  {
    hide Feed, Overflows, LoudFrame, FieldsHere, LoudHere, Delivered, ParseFrame;
    if r.Given? { DeliveredTime(r.value.0); }
    if Overflows(st, d) {
      FeedWrapped(st, d);
    } else {
      FeedOnce(st, d);
      NoHeaderByTag(d);
      EventIsEvent(st.cache, st.base, d);
      hide CutAll;
    }
  }

  lemma HeadIs(d: bytes, schemas: map<nat, SchemaEntry>, base: u64)
    requires d != []
    ensures var id, delta := GetLe(d, 1, 2), GetLe(d, 3, 3);
            HeadOf(d, schemas, base)
            == if id.None? || id.value !in schemas then None
               else if !schemas[id.value].hasTimestamp then Some((id.value, schemas[id.value], None, 3))
               else if delta.None? || base + delta.value >= TWO_TO_THE_64 then None
               else Some((id.value, schemas[id.value], Some(base + delta.value), 6))
  {
    hide LeVal;
    ShortCountAt(d, 1);
    if |d| >= 3 { LeAt(d, 3, 3); }
  }

  lemma UnpackedIs(s: RawStack)
    ensures Unpacked(s) == StackEntry(s.id, FramesIn(s.framesLe, |s.framesLe| / 8))
  {
  }

  lemma IdAt(d: bytes)
    ensures |d| >= 6 ==> GetLe(d, 1, 2) == Some(LeVal(d[1..3])) && GetLe(d, 3, 3) == Some(LeVal(d[3..6]))
  {
    hide LeVal;
  }

  lemma EventIsEvent(schemas: map<nat, SchemaEntry>, base: nat, d: bytes)
    requires d != [] && d[0] == EVENT_FRAME
    ensures var p := ParseFrame(Ref, schemas, base, d); p.Ok? ==> p.value.Event?
  {
    hide ParseFields;
  }

  lemma NoHeaderByTag(d: bytes)
    requires d != [] && d[0] != MAGIC[0]
    ensures !HeaderAt(d)
  {
    if |d| >= 4 { assert d[..4][0] == d[0]; }
  }

  lemma ResetIsFeed(st: DecState, d: bytes)
    requires d != [] && d[0] == RESET_FRAME
    ensures var p := ParseReset(d[1..]);
            Feed(st, d) == if p.Fail? then Fed([], DecodeError, st, d) else Feed(st.(base := p.value.base), p.rest)
  {
    hide Feed;
    FeedOnce(st, d);
    NoHeaderByTag(d);
    var p := ParseReset(d[1..]);
    if p.Ok? { BehindBoth(Feed(st.(base := p.value.base), p.rest), [], []); }
  }

  lemma HeaderIsFeed(st: DecState, d: bytes)
    ensures HeaderAt(d) ==> Feed(st, d) == Feed(FRESH, d[5..])
  {
    hide Feed, ParseFrame;
    if HeaderAt(d) {
      assert d[..4][0] == d[0];
      FeedOnce(st, d);
      BehindBoth(Feed(FRESH, d[5..]), [], []);
    }
  }

  lemma OtherIsFeed(st: DecState, d: bytes)
    requires d != [] && !HeaderAt(d) && d[0] != EVENT_FRAME && d[0] != RESET_FRAME
    ensures var p := Pull(Ref, st, d);
            if p.Got? then |p.rest| < |d| && Feed(st, d) == Feed(p.st, p.rest)
            else Feed(st, d) == Fed([], DecodeError, p.st, p.rest)
  {
    hide Feed, Apply, LoudEvent;
    FeedOnce(st, d);
    PullShrinks(Ref, st, d);
    OtherFrames(st.cache, st.base, d);
    hide ParseFrame;
    var s := Step(Ref, st, d);
    if s.Go? { BehindBoth(Feed(s.st, s.rest), [], []); }
  }

  lemma OtherFrames(schemas: map<nat, SchemaEntry>, base: nat, d: bytes)
    requires d != [] && d[0] != EVENT_FRAME && d[0] != RESET_FRAME
    ensures var p := ParseFrame(Ref, schemas, base, d); p.Ok? ==> !p.value.Event? && !p.value.TimestampReset?
  {
    hide ParseEntry, Rep, ParseAnnotationList, ParseVarint;
  }
}
