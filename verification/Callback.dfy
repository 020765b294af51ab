/** What the callback path comes to on any stream: try_for_each_event does what a
    frame-by-frame run does, but for timestamps that do not fit 64 bits. */
module Callback {
  import opened Bytes
  import opened Values
  import opened Frames
  import opened Machine
  import opened View
  import opened Failures
  import opened RefDecode
  import opened Pulls

  datatype Verdict = AllDone | DecodeError | Panicked | UserError

  /** What is delivered when the callback accepts everything, how it ends, and where. */
  datatype Fed = Fed(deliveries: seq<Delivery>, verdict: Verdict, st: DecState, rest: bytes) {
    function Behind(first: seq<Delivery>): Fed {
      Fed(first + deliveries, verdict, st, rest)
    }
  }

  // ----- timestamps past 64 bits

  /** An event whose timestamp does not fit 64 bits. */
  predicate Overflows(st: DecState, d: bytes) {
    |d| >= 6 && d[0] == EVENT_FRAME
    && var id := LeVal(d[1..3]);
       id in st.cache && st.cache[id].hasTimestamp && st.base + LeVal(d[3..6]) >= TWO_TO_THE_64
  }

  function EntryHere(st: DecState, d: bytes): SchemaEntry
    requires Overflows(st, d)
  {
    st.cache[LeVal(d[1..3])]
  }

  /** The fields of such an event. */
  function FieldsHere(st: DecState, d: bytes): Parsed<seq<Value>>
    requires Overflows(st, d)
  {
    ParseFields(Ref, Tags(EntryHere(st, d).fields), d[6..])
  }

  predicate LoudHere(st: DecState, d: bytes)
    requires Overflows(st, d)
  {
    LoudFields(Ref, Tags(EntryHere(st, d).fields), d[6..])
  }

  /** The timestamp that such an event gets. */
  function WrappedTime(st: DecState, d: bytes): (ts: nat)
    requires Overflows(st, d)
    ensures ts < TWO_TO_THE_64
  {
    (st.base + LeVal(d[3..6])) % TWO_TO_THE_64
  }

  /** What the callback is given for it. */
  function WrappedDelivery(st: DecState, d: bytes): Delivery
    requires Overflows(st, d) && FieldsHere(st, d).Ok?
  {
    PowersOf256();
    var e := EntryHere(st, d);
    Delivery(Event(LeVal(d[1..3]), e.name, Some(WrappedTime(st, d)), CutAll(FieldsHere(st, d).value)), e, st.strings,
             st.stacks)
  }

  lemma FieldsShrink(st: DecState, d: bytes)
    requires Overflows(st, d)
    ensures FieldsHere(st, d).Ok? ==> |FieldsHere(st, d).rest| < |d|
  {
    hide ParseFields;
    ParseFieldsLocal(Ref, Tags(EntryHere(st, d).fields), d[6..], []);
  }

  // ----- the whole loop

  function Feed(st: DecState, d: bytes): Fed
    decreases |d|
  {
    if Overflows(st, d) then
      FieldsShrink(st, d);
      match FieldsHere(st, d)
      case Fail => Fed([], if LoudHere(st, d) then Panicked else DecodeError, st, d)
      case Ok(_, r) => Feed(st.(base := WrappedTime(st, d)), r).Behind([WrappedDelivery(st, d)])
    else
      match Step(Ref, st, d)
      case Done => Fed([], AllDone, st, d)
      case Stuck => Fed([], if LoudFrame(Ref, st.cache, st.base, d) then Panicked else DecodeError, st, d)
      case Broken(at, left) => Fed([], DecodeError, at, left)
      case Go(out, st', r) =>
        StepLocal(Ref, st, d, []);
        Feed(st', r).Behind(StepEvents(st, out))
  }

  lemma BehindBoth(f: Fed, a: seq<Delivery>, b: seq<Delivery>)
    ensures f.Behind(b).Behind(a) == f.Behind(a + b) && f.Behind([]) == f
  {
    assert a + (b + f.deliveries) == a + b + f.deliveries && [] + f.deliveries == f.deliveries;
  }

  /** One turn where no timestamp overflows. */
  lemma FeedOnce(st: DecState, d: bytes)
    requires !Overflows(st, d)
    ensures Feed(st, d)
         == match Step(Ref, st, d)
            case Done => Fed([], AllDone, st, d)
            case Stuck => Fed([], if LoudFrame(Ref, st.cache, st.base, d) then Panicked else DecodeError, st, d)
            case Broken(at, left) => Fed([], DecodeError, at, left)
            case Go(out, st', r) => Feed(st', r).Behind(StepEvents(st, out))
  {
    hide Step, Overflows, LoudFrame, StepEvents;
  }

  /** One turn where it does. */
  lemma FeedWrapped(st: DecState, d: bytes)
    requires Overflows(st, d)
    ensures Feed(st, d)
         == match FieldsHere(st, d)
            case Fail => Fed([], if LoudHere(st, d) then Panicked else DecodeError, st, d)
            case Ok(_, r) => Feed(st.(base := WrappedTime(st, d)), r).Behind([WrappedDelivery(st, d)])
  {
    hide Overflows, FieldsHere, LoudHere, WrappedDelivery, WrappedTime;
  }

  // ----- where the two paths differ

  /** An overflowing event stops next_frame_ref, and does not make it panic. */
  lemma OverflowFails(st: DecState, d: bytes)
    requires Overflows(st, d)
    ensures ParseFrame(Ref, st.cache, st.base, d).Fail? && !LoudFrame(Ref, st.cache, st.base, d) && !HeaderAt(d)
  {
    hide ParseFields, LoudFields, LeVal;
    ShortCountAt(d, 1);
    LeAt(d, 3, 3);
    assert d[..4][0] == d[0];
  }

  /** A run that comes to an overflowing event stops right there. */
  lemma OverflowStops(st: DecState, d: bytes)
    requires Overflows(st, d)
    ensures Run(Ref, st, d) == Outcome([], st, d, Stopped, 0) && Deliveries(st, d) == []
  {
    OverflowFails(st, d);
    hide ParseFrame, Overflows;
  }

  /** The frame-by-frame run stops at an overflowing event whose fields can be read, or
      whose fields make the decoder panic: there the callback path goes on, or panics. */
  predicate Differs(o: Outcome) {
    o.ending.Stopped? && Overflows(o.st, o.rest) && (FieldsHere(o.st, o.rest).Ok? || LoudHere(o.st, o.rest))
  }

  /** How pulling frames with next_frame_ref ends. */
  function PullVerdict(o: Outcome): Verdict {
    if o.Complete() then AllDone
    else if o.ending.Stopped? && LoudFrame(Ref, o.st.cache, o.st.base, o.rest) then Panicked
    else DecodeError
  }

  function PullFed(st: DecState, d: bytes): Fed {
    var o := Run(Ref, st, d);
    Fed(Deliveries(st, d), PullVerdict(o), o.st, o.rest)
  }

  /** Behind the deliveries of the frame-by-frame run, the callback path stands where that
      run ends. */
  lemma {:induction false} FeedFollowsRun(st: DecState, d: bytes)
    ensures var o := Run(Ref, st, d);
            if o.ending.Stopped? && Overflows(o.st, o.rest)
            then Feed(st, d) == Feed(o.st, o.rest).Behind(Deliveries(st, d))
            else Feed(st, d) == PullFed(st, d)
    decreases |d|
  {
    hide Overflows, Feed, Run, Deliveries, LoudFrame, Step, StepEvents, HeaderAt;
    if Overflows(st, d) {
      OverflowStops(st, d);
      BehindBoth(Feed(st, d), [], []);
    } else {
      FeedOnce(st, d);
      RunOnce(Ref, st, d);
      DeliverOnce(st, d);
      var s := Step(Ref, st, d);
      if s.Go? {
        assert |s.rest| < |d| by { StepLocal(Ref, st, d, []); }
        FeedFollowsRun(s.st, s.rest);
        var o := Run(Ref, s.st, s.rest);
        BehindBoth(Feed(o.st, o.rest), StepEvents(st, s.out), Deliveries(s.st, s.rest));
      }
    }
  }

  lemma DeliverOnce(st: DecState, d: bytes)
    ensures var s := Step(Ref, st, d);
            Deliveries(st, d) == if s.Go? then StepEvents(st, s.out) + Deliveries(s.st, s.rest) else []
  {
    hide Step, StepEvents;
  }

  /** The callback path gives the events of the frame-by-frame run and ends as it does, in
      the same place and state, exactly where they do not differ so. */
  lemma FeedAgreesIff(st: DecState, d: bytes)
    ensures Feed(st, d) == PullFed(st, d) <==> !Differs(Run(Ref, st, d))
  {
    hide Overflows, Feed, Run, Deliveries, FieldsHere, LoudHere, LoudFrame, WrappedDelivery, WrappedTime;
    var o := Run(Ref, st, d);
    FeedFollowsRun(st, d);
    if o.ending.Stopped? && Overflows(o.st, o.rest) {
      FeedWrapped(o.st, o.rest);
      OverflowFails(o.st, o.rest);
      assert Deliveries(st, d) + [] == Deliveries(st, d);
    }
  }

  /** Where they differ: the event is delivered with its time cut to 64 bits, and reading
      goes on behind it; or the callback path panics where next_frame_ref just stops. */
  lemma GoesOnIf(st: DecState, d: bytes)
    requires Differs(Run(Ref, st, d))
    ensures var o := Run(Ref, st, d);
            match FieldsHere(o.st, o.rest)
            case Ok(_, r) =>
              var next := Feed(o.st.(base := WrappedTime(o.st, o.rest)), r);
              Feed(st, d) == next.Behind(Deliveries(st, d) + [WrappedDelivery(o.st, o.rest)])
            case Fail => Feed(st, d) == Fed(Deliveries(st, d), Panicked, o.st, o.rest)
  {
    hide Overflows, Feed, Run, Deliveries, FieldsHere, LoudHere, WrappedDelivery, WrappedTime;
    var o := Run(Ref, st, d);
    FeedFollowsRun(st, d);
    FeedWrapped(o.st, o.rest);
    if FieldsHere(o.st, o.rest).Ok? {
      BehindBoth(Feed(o.st.(base := WrappedTime(o.st, o.rest)), FieldsHere(o.st, o.rest).rest),
                 Deliveries(st, d), [WrappedDelivery(o.st, o.rest)]);
    }
    assert Deliveries(st, d) + [] == Deliveries(st, d);
  }

  /** The smallest such event: id 256, no fields, one nanosecond behind the last instant
      that 64 bits can hold. next_frame_ref stops; the callback path reads to the end and
      gives the event the time 0. */
  lemma OverflowExample(entry: SchemaEntry)
    requires entry.hasTimestamp && entry.fields == []
    ensures var st := FRESH.(cache := map[256 := entry], base := TWO_TO_THE_64 - 1);
            var d: bytes := [EVENT_FRAME, 0, 1, 1, 0, 0];
            Run(Ref, st, d) == Outcome([], st, d, Stopped, 0)
            && Feed(st, d)
               == Fed([Delivery(Event(256, entry.name, Some(0), []), entry, map[], map[])], AllDone, st.(base := 0), [])
  {
    var st := FRESH.(cache := map[256 := entry], base := TWO_TO_THE_64 - 1);
    var d: bytes := [EVENT_FRAME, 0, 1, 1, 0, 0];
    hide Feed, Overflows, FieldsHere, WrappedDelivery, WrappedTime;
    ExampleOverflows(st, d, entry);
    OverflowStops(st, d);
    FeedWrapped(st, d);
    NothingToFeed(st.(base := 0));
  }

  lemma NothingToFeed(st: DecState)
    ensures Feed(st, []) == Fed([], AllDone, st, [])
  {
    FeedOnce(st, []);
  }

  lemma ExampleOverflows(st: DecState, d: bytes, entry: SchemaEntry)
    requires entry.hasTimestamp && entry.fields == [] && d == [EVENT_FRAME, 0, 1, 1, 0, 0]
    requires st == FRESH.(cache := map[256 := entry], base := TWO_TO_THE_64 - 1)
    ensures Overflows(st, d) && FieldsHere(st, d) == Ok([], []) && WrappedTime(st, d) == 0
    ensures WrappedDelivery(st, d) == Delivery(Event(256, entry.name, Some(0), []), entry, map[], map[])
  {
    hide LeVal;
    ExampleBytes();
    assert d[1..3] == [0, 1] && d[3..6] == [1, 0, 0] && d[6..] == [];
    assert Tags(entry.fields) == [] && CutAll([]) == [];
  }

  lemma ExampleBytes()
    ensures LeVal([0, 1]) == 256 && LeVal([1, 0, 0]) == 1
  {
    assert Le(1, 1) == [1] + Le(0, 0) && Le(2, 256) == [0] + Le(1, 1);
    assert Le(1, 0) == [0] + Le(0, 0) && Le(2, 0) == [0] + Le(1, 0) && Le(3, 1) == [1] + Le(2, 0);
    PowersOf256();
    LeValOfLe(2, 256);
    LeValOfLe(3, 1);
  }
}
