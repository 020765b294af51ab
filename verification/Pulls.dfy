/** Reading a stream one frame at a time, and event by event: how the pull interface and
    the callback interface of the decoder relate to a whole run. */
module Pulls {
  import opened Bytes
  import opened Values
  import opened Frames
  import opened Machine
  import opened Codec

  /** What one call of next_frame comes to, headers and resets skipped. */
  datatype Pulled =
    | NoMore(st: DecState, rest: bytes)
    | Refused(st: DecState, rest: bytes)
    | Got(frame: Frame, st: DecState, rest: bytes)

  function Pull(dia: Dialect, st: DecState, d: bytes): Pulled
    decreases |d|
  {
    match Step(dia, st, d)
    case Done => NoMore(st, d)
    case Stuck => NoMore(st, d)
    case Broken(at, left) => Refused(at, left)
    case Go(out, st', r) =>
      StepLocal(dia, st, d, []);
      if out == [] then Pull(dia, st', r) else Got(out[0], st', r)
  }

  lemma PullShrinks(dia: Dialect, st: DecState, d: bytes)
    ensures Pull(dia, st, d).Got? ==> |Pull(dia, st, d).rest| < |d|
    decreases |d|
  {
    hide Step;
    var s := Step(dia, st, d);
    if s.Go? {
      StepLocal(dia, st, d, []);
      PullShrinks(dia, s.st, s.rest);
    }
  }

  /** How a run relates to its first pull. */
  predicate Continues(o: Outcome, p: Pulled, t: Outcome) {
    match p
    case NoMore(st', rest) => o.frames == [] && o.st == st' && o.rest == rest && !o.ending.Failed?
    case Refused(st', rest) => o.frames == [] && o.st == st' && o.rest == rest && o.ending.Failed?
    case Got(f, st', rest) => o.frames == [f] + t.frames && o.st == t.st && o.rest == t.rest && o.ending == t.ending
  }

  lemma RunOnce(dia: Dialect, st: DecState, d: bytes)
    ensures var s, o := Step(dia, st, d), Run(dia, st, d);
            if s.Go? then
              var t := Run(dia, s.st, s.rest);
              o.frames == s.out + t.frames && o.st == t.st && o.rest == t.rest && o.ending == t.ending
            else if s.Broken? then o == Outcome([], s.at, s.left, Failed, 0)
            else o == Outcome([], st, d, if s.Done? then Finished else Stopped, 0)
  {
    hide Step, HeaderAt;
  }

  lemma PullOnce(dia: Dialect, st: DecState, d: bytes)
    ensures var s, p := Step(dia, st, d), Pull(dia, st, d);
            if s.Go? then p == if s.out == [] then Pull(dia, s.st, s.rest) else Got(s.out[0], s.st, s.rest)
            else if s.Broken? then p == Refused(s.at, s.left)
            else p == NoMore(st, d)
  {
    hide Step;
  }

  /** Pulling frames until none comes is the run. */
  lemma {:induction false} RunIsPulls(dia: Dialect, st: DecState, d: bytes)
    ensures var p := Pull(dia, st, d); Continues(Run(dia, st, d), p, Run(dia, p.st, p.rest))
    decreases |d|
  {
    hide Step, Run, Pull;
    var s := Step(dia, st, d);
    RunOnce(dia, st, d);
    PullOnce(dia, st, d);
    if s.Go? {
      assert |s.rest| < |d| by { StepLocal(dia, st, d, []); }
      OneFrameAtMost(dia, st, d);
      RunIsPulls(dia, s.st, s.rest);
      assert [] + Run(dia, s.st, s.rest).frames == Run(dia, s.st, s.rest).frames;
    }
  }

  lemma OneFrameAtMost(dia: Dialect, st: DecState, d: bytes)
    ensures Step(dia, st, d).Go? ==> |Step(dia, st, d).out| <= 1
  {
    hide ParseFrame, Apply;
  }

  // ----- events

  /** What the callback is given: the event, its schema and the pools as they stand. */
  datatype Delivery = Delivery(event: Frame, schema: SchemaEntry, strings: map<nat, bytes>, stacks: map<nat, seq<u64>>)

  /** The event that a step of the zero-copy decoder gives out, if it is one. */
  function StepEvents(st: DecState, out: seq<Frame>): seq<Delivery> {
    if out != [] && out[0].Event? && out[0].typeId in st.cache
    then [Delivery(CutFrame(out[0]), st.cache[out[0].typeId], st.strings, st.stacks)] else []
  }

  /** All events of a zero-copy run, in order. */
  function Deliveries(st: DecState, d: bytes): seq<Delivery>
    decreases |d|
  {
    match Step(Ref, st, d)
    case Go(out, st', r) =>
      StepLocal(Ref, st, d, []);
      StepEvents(st, out) + Deliveries(st', r)
    case _ => []
  }

  function CutEvents(fs: seq<Frame>): seq<Frame> {
    if fs == [] then [] else (if fs[0].Event? then [CutFrame(fs[0])] else []) + CutEvents(fs[1..])
  }

  function Events(ds: seq<Delivery>): (r: seq<Frame>)
    ensures |r| == |ds|
  {
    seq(|ds|, i requires 0 <= i < |ds| => ds[i].event)
  }

  lemma EventsAppend(a: seq<Delivery>, b: seq<Delivery>)
    ensures Events(a + b) == Events(a) + Events(b)
  {
  }

  lemma StepGivesEvents(st: DecState, d: bytes)
    requires Step(Ref, st, d).Go?
    ensures var out := Step(Ref, st, d).out; |out| <= 1 && Events(StepEvents(st, out)) == CutEvents(out)
  {
    hide Apply, CutFrame;
    if !HeaderAt(d) { RefEventIsDeclared(st.cache, st.base, d); }
    hide ParseFrame;
    var out := Step(Ref, st, d).out;
    if out != [] { assert out[1..] == []; }
  }

  lemma RefEventIsDeclared(schemas: map<nat, SchemaEntry>, base: nat, d: bytes)
    ensures var r := ParseFrame(Ref, schemas, base, d); r.Ok? && r.value.Event? ==> r.value.typeId in schemas
  {
    hide ParseEntry, ParseFields, ParseTimestamp, Rep, ParseAnnotationList, ParseVarint;
  }

  lemma CutEventsAppend(out: seq<Frame>, fs: seq<Frame>)
    requires |out| <= 1
    ensures CutEvents(out + fs) == CutEvents(out) + CutEvents(fs)
  {
    hide CutFrame;
    if out == [] { assert out + fs == fs; }
    else { assert (out + fs)[1..] == fs && out[1..] == []; }
  }

  /** The delivered events are exactly the event frames of the run, in order. */
  lemma {:induction false} DeliveriesAreTheEvents(st: DecState, d: bytes)
    ensures Events(Deliveries(st, d)) == CutEvents(Run(Ref, st, d).frames)
    decreases |d|
  {
    hide Step, StepEvents, CutFrame;
    var s := Step(Ref, st, d);
    if s.Go? {
      StepLocal(Ref, st, d, []);
      StepGivesEvents(st, d);
      DeliveriesAreTheEvents(s.st, s.rest);
      EventsAppend(StepEvents(st, s.out), Deliveries(s.st, s.rest));
      CutEventsAppend(s.out, Run(Ref, s.st, s.rest).frames);
    }
  }

  /** A delivery made behind `n` bytes and `k` events: with the schema and the pools that the
      decoder has there. */
  predicate InContext(st: DecState, d: bytes, n: nat, k: nat, delivery: Delivery)
    requires n <= |d|
  {
    var o := Run(Ref, st, d[..n]);
    o.Complete() && |CutEvents(o.frames)| == k
    && delivery.strings == o.st.strings && delivery.stacks == o.st.stacks
    && delivery.event.Event? && delivery.event.typeId in o.st.cache
    && delivery.schema == o.st.cache[delivery.event.typeId]
  }

  lemma ContextHere(st: DecState, d: bytes, delivery: Delivery)
    requires delivery.event.Event? && delivery.event.typeId in st.cache
    requires delivery.schema == st.cache[delivery.event.typeId]
    requires delivery.strings == st.strings && delivery.stacks == st.stacks
    ensures InContext(st, d, 0, 0, delivery)
  {
    assert d[..0] == [];
    EmptyRun(Ref, st);
  }

  lemma ContextBehind(st: DecState, d: bytes, n: nat, k: nat, delivery: Delivery)
    requires Step(Ref, st, d).Go? && n <= |Step(Ref, st, d).rest| <= |d|
    requires InContext(Step(Ref, st, d).st, Step(Ref, st, d).rest, n, k, delivery)
    ensures var s := Step(Ref, st, d);
            InContext(st, d, |d| - |s.rest| + n, |CutEvents(s.out)| + k, delivery)
  {
    hide Step, Run, CutEvents;
    var s := Step(Ref, st, d);
    StepLocal(Ref, st, d, []);
    RunGo(Ref, st, d, s.rest[..n]);
    assert d == Used(d, s.rest) + s.rest;
    assert d[..|d| - |s.rest| + n] == Used(d, s.rest) + s.rest[..n];
    OneFrameAtMost(Ref, st, d);
    CutEventsAppend(s.out, Run(Ref, s.st, s.rest[..n]).frames);
  }

  /** Every delivery comes with the schema and the pools as they stand behind some part of
      the stream that holds exactly the events delivered before it. */
  lemma {:induction false} DeliveredInContext(st: DecState, d: bytes, k: nat) returns (n: nat)
    requires k < |Deliveries(st, d)|
    ensures n <= |d| && InContext(st, d, n, k, Deliveries(st, d)[k])
    decreases |d|
  {
    hide Step, InContext, CutFrame;
    var s := Step(Ref, st, d);
    StepLocal(Ref, st, d, []);
    StepGivesEvents(st, d);
    var here := StepEvents(st, s.out);
    if k < |here| {
      n := 0;
      CutKeepsEvent(s.out[0]);
      ContextHere(st, d, here[0]);
    } else {
      var n' := DeliveredInContext(s.st, s.rest, k - |here|);
      ContextBehind(st, d, n', k - |here|, Deliveries(s.st, s.rest)[k - |here|]);
      n := |d| - |s.rest| + n';
    }
  }

  lemma CutKeepsEvent(f: Frame)
    requires f.Event?
    ensures CutFrame(f).Event? && CutFrame(f).typeId == f.typeId
  {
  }
}
