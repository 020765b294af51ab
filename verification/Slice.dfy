/** The range slicer of slice.js: it walks the raw bytes of a trace, drops events outside
    a time range and rewrites the packed deltas of the events it keeps. */
module Slice {
  import opened Bytes
  import opened Values
  import opened Frames
  import opened Machine
  import opened View

  // ----- what slicing means

  /** SymbolTableEntry, SegmentMetadataEvent and ClockSyncEvent in ASCII. */
  const SYMBOL_TABLE: bytes :=
    [0x53, 0x79, 0x6D, 0x62, 0x6F, 0x6C, 0x54, 0x61, 0x62, 0x6C, 0x65, 0x45, 0x6E, 0x74, 0x72, 0x79]
  const SEGMENT_METADATA: bytes :=
    [0x53, 0x65, 0x67, 0x6D, 0x65, 0x6E, 0x74, 0x4D, 0x65, 0x74, 0x61, 0x64, 0x61, 0x74, 0x61, 0x45, 0x76, 0x65, 0x6E,
     0x74]
  const CLOCK_SYNC: bytes := [0x43, 0x6C, 0x6F, 0x63, 0x6B, 0x53, 0x79, 0x6E, 0x63, 0x45, 0x76, 0x65, 0x6E, 0x74]

  predicate AlwaysKept(name: bytes) {
    name == SYMBOL_TABLE || name == SEGMENT_METADATA || name == CLOCK_SYNC
  }

  /** Only a timestamped event outside the range, of a schema that is not always kept, goes. */
  predicate Keeps(f: Frame, startNs: int, endNs: int) {
    f.Event? && f.timestamp.Some? ==> startNs <= f.timestamp.value <= endNs || AlwaysKept(f.name)
  }

  function Kept(fs: seq<Frame>, startNs: int, endNs: int): seq<Frame> {
    if fs == [] then []
    else (if Keeps(fs[0], startNs, endNs) then [fs[0]] else []) + Kept(fs[1..], startNs, endNs)
  }

  lemma {:induction false} KeptAppend(a: seq<Frame>, b: seq<Frame>, startNs: int, endNs: int)
    ensures Kept(a + b, startNs, endNs) == Kept(a, startNs, endNs) + Kept(b, startNs, endNs)
  {
    hide Keeps;
    if a == [] {
      assert a + b == b;
    } else {
      KeptAppend(a[1..], b, startNs, endNs);
      assert (a + b)[1..] == a[1..] + b && (a + b)[0] == a[0];
      Assoc(if Keeps(a[0], startNs, endNs) then [a[0]] else [], Kept(a[1..], startNs, endNs), Kept(b, startNs, endNs));
    }
  }

  /** Slicing by one range and then by another keeps what their intersection keeps. */
  lemma {:induction false} KeptTwice(fs: seq<Frame>, s1: int, e1: int, s2: int, e2: int)
    ensures Kept(Kept(fs, s1, e1), s2, e2)
         == Kept(fs, if s1 < s2 then s2 else s1, if e1 < e2 then e1 else e2)
  {
    if fs != [] {
      KeptTwice(fs[1..], s1, e1, s2, e2);
      KeptAppend(if Keeps(fs[0], s1, e1) then [fs[0]] else [], Kept(fs[1..], s1, e1), s2, e2);
      assert [fs[0]][1..] == [];
    }
  }

  /** The bytes of an ASCII text. */
  function Ascii(text: string): bytes
    requires forall i :: 0 <= i < |text| ==> text[i] < 128 as char
  {
    seq(|text|, i requires 0 <= i < |text| => text[i] as int)
  }

  /** What a range cuts out: a timestamped event outside it, both bounds being inside, that
      does not describe the trace itself. */
  predicate CutOut(f: Frame, startNs: int, endNs: int) {
    f.Event? && f.timestamp.Some? && !(startNs <= f.timestamp.value <= endNs)
    && f.name != Ascii("SymbolTableEntry") && f.name != Ascii("SegmentMetadataEvent")
    && f.name != Ascii("ClockSyncEvent")
  }

  /** `gs` is what stands in `fs` at exactly the places that are not cut out, in order. */
  ghost predicate Picks(fs: seq<Frame>, gs: seq<Frame>, places: seq<nat>, startNs: int, endNs: int) {
    |gs| == |places|
    && (forall k :: 0 <= k < |places| ==> places[k] < |fs| && gs[k] == fs[places[k]])
    && (forall j, k :: 0 <= j < k < |places| ==> places[j] < places[k])
    && (forall i :: 0 <= i < |fs| ==> (i in places <==> !CutOut(fs[i], startNs, endNs)))
  }

  lemma NamesAreAscii()
    ensures SYMBOL_TABLE == Ascii("SymbolTableEntry") && SEGMENT_METADATA == Ascii("SegmentMetadataEvent")
    ensures CLOCK_SYNC == Ascii("ClockSyncEvent")
  {
    assert |Ascii("SymbolTableEntry")| == 16 && |Ascii("SegmentMetadataEvent")| == 20;
    assert |Ascii("ClockSyncEvent")| == 14;
  }

  lemma CutOutIsNotKept(f: Frame, startNs: int, endNs: int)
    ensures CutOut(f, startNs, endNs) <==> !Keeps(f, startNs, endNs)
  {
    hide Ascii;
    NamesAreAscii();
  }

  /** One more frame is picked exactly if it is not cut out. */
  lemma PicksNext(fs: seq<Frame>, gs: seq<Frame>, places: seq<nat>, f: Frame, startNs: int, endNs: int)
    requires Picks(fs, gs, places, startNs, endNs)
    ensures if CutOut(f, startNs, endNs) then Picks(fs + [f], gs, places, startNs, endNs)
            else Picks(fs + [f], gs + [f], places + [|fs|], startNs, endNs)
  {
    hide CutOut;
    assert forall i :: 0 <= i < |fs| ==> (fs + [f])[i] == fs[i];
  }

  lemma {:induction false} KeptPicks(fs: seq<Frame>, startNs: int, endNs: int) returns (places: seq<nat>)
    ensures Picks(fs, Kept(fs, startNs, endNs), places, startNs, endNs)
  {
    hide CutOut, Keeps, Picks;
    if fs == [] {
      places := [];
      PicksNothing(startNs, endNs);
    } else {
      var n := |fs| - 1;
      var f := fs[n];
      places := KeptPicks(fs[..n], startNs, endNs);
      assert fs == fs[..n] + [f] && |fs[..n]| == n;
      KeptNext(fs[..n], f, startNs, endNs);
      CutOutIsNotKept(f, startNs, endNs);
      PicksNext(fs[..n], Kept(fs[..n], startNs, endNs), places, f, startNs, endNs);
      if !CutOut(f, startNs, endNs) { places := places + [n]; }
    }
  }

  lemma KeptNext(fs: seq<Frame>, f: Frame, startNs: int, endNs: int)
    ensures Kept(fs + [f], startNs, endNs)
         == if Keeps(f, startNs, endNs) then Kept(fs, startNs, endNs) + [f] else Kept(fs, startNs, endNs)
  {
    hide Keeps;
    KeptAppend(fs, [f], startNs, endNs);
    assert [f][1..] == [] && Kept([], startNs, endNs) == [];
    assert Kept(fs, startNs, endNs) + [] == Kept(fs, startNs, endNs);
  }

  lemma PicksNothing(startNs: int, endNs: int)
    ensures Picks([], [], [], startNs, endNs)
  {
  }

  lemma PickedIff(fs: seq<Frame>, gs: seq<Frame>, places: seq<nat>, startNs: int, endNs: int, i: nat)
    requires Picks(fs, gs, places, startNs, endNs) && i < |fs|
    ensures fs[i] in gs <==> !CutOut(fs[i], startNs, endNs)
  {
    hide CutOut;
    if fs[i] in gs {
      var k :| 0 <= k < |gs| && gs[k] == fs[i];
      assert places[k] in places;
    }
    if i in places {
      var k :| 0 <= k < |places| && places[k] == i;
      assert gs[k] == fs[i];
    }
  }

  predicate TimestampsFit(fs: seq<Frame>) {
    forall i :: 0 <= i < |fs| && fs[i].Event? && fs[i].timestamp.Some? ==> fs[i].timestamp.value < TWO_TO_THE_64
  }

  /** States of the input's decoder and of the output's decoder. */
  predicate SameButBase(a: DecState, b: DecState) {
    a.(base := 0) == b.(base := 0)
  }

  // ----- pieces of output, to decode.js or to the strictest reader

  /** A piece that a decoder in state `o` reads completely, giving `fs` and state `o'`. */
  predicate Reads(dia: Dialect, o: DecState, piece: bytes, fs: seq<Frame>, o': DecState, headers: nat) {
    Run(dia, o, piece) == Outcome(fs, o', [], Finished, headers)
  }

  lemma ReadsOneFrame(dia: Dialect, o: DecState, piece: bytes, f: Frame)
    requires piece != [] && !HeaderAt(piece)
    requires ParseFrame(dia, o.cache, o.base, piece) == Ok(f, []) && Apply(dia, o, f).accepted
    ensures Reads(dia, o, piece, Visible(f), Apply(dia, o, f).st, 0)
  {
    hide ParseFrame, Apply;
    EmptyRun(dia, Apply(dia, o, f).st);
    assert Visible(f) + [] == Visible(f);
  }

  lemma ReadsConcat(dia: Dialect, a: bytes, fs: seq<Frame>, o: DecState, k: nat, b: bytes, gs: seq<Frame>,
                    o': DecState, m: nat)
    requires Reads(dia, FRESH, a, fs, o, k) && Reads(dia, o, b, gs, o', m)
    ensures Reads(dia, FRESH, a + b, fs + gs, o', k + m)
  {
    hide Run;
    RunConcat(dia, FRESH, a, b);
  }

  /** What applying a frame changes does not depend on the base. */
  lemma ApplyIgnoresBase(dia: Dialect, st: DecState, o: DecState, f: Frame)
    requires SameButBase(st, o)
    ensures SameButBase(Apply(dia, st, f).st, Apply(dia, o, f).st)
    ensures Apply(dia, o, f).accepted == Apply(dia, st, f).accepted
    ensures !f.Event? && !f.TimestampReset? ==>
              Apply(dia, o, f).st.base == o.base && Apply(dia, st, f).st.base == st.base
  {
    hide AddStrings, AddStacks, Annotate;
    assert st.cache == o.cache && st.registry == o.registry && st.strings == o.strings && st.stacks == o.stacks;
  }

  lemma OtherFramesIgnoreState(dia: Dialect, schemas: map<nat, SchemaEntry>, base: nat, base': nat, d: bytes)
    requires d != [] && d[0] != EVENT_FRAME
    ensures ParseFrame(dia, schemas, base', d) == ParseFrame(dia, schemas, base, d)
    ensures var r := ParseFrame(dia, schemas, base, d);
            r.Ok? ==> !r.value.Event? && (r.value.TimestampReset? <==> d[0] == RESET_FRAME)
  {
    hide ParseEntry, Rep, ParseAnnotationList, ParseVarint;
  }

  /** A frame that is neither an event nor a reset is copied verbatim. */
  lemma CopyFrame(dia: Dialect, st: DecState, o: DecState, d: bytes, f: Frame, rest: bytes)
    requires SameButBase(st, o) && d != [] && d[0] != EVENT_FRAME && d[0] != RESET_FRAME
    requires ParseFrame(dia, st.cache, st.base, d) == Ok(f, rest) && Apply(dia, st, f).accepted
    ensures Tail(rest, d)
    ensures Reads(dia, o, Used(d, rest), [f], Apply(dia, o, f).st, 0)
    ensures SameButBase(Apply(dia, st, f).st, Apply(dia, o, f).st)
    ensures Apply(dia, o, f).st.base == o.base && Apply(dia, st, f).st.base == st.base
  {
    hide ParseFrame, Apply, Reads;
    ParseFrameLocal(dia, st.cache, st.base, d, []);
    var piece := Used(d, rest);
    assert piece + [] == piece;
    FrameIsNoHeader(dia, st, piece);
    OtherFramesIgnoreState(dia, st.cache, st.base, o.base, d);
    OtherFramesIgnoreState(dia, st.cache, st.base, o.base, piece);
    ApplyIgnoresBase(dia, st, o, f);
    ReadsOneFrame(dia, o, piece, f);
  }

  lemma ReadsHeader(dia: Dialect, o: DecState, d: bytes)
    requires HeaderAt(d)
    ensures Reads(dia, o, d[..5], [], FRESH, 1)
  {
    assert HeaderAt(d[..5]) && d[..5][5..] == [] by { assert d[..5][..4] == d[..4]; }
    EmptyRun(dia, FRESH);
    HeaderRun(dia, o, d[..5]);
  }

  lemma ReadsReset(dia: Dialect, o: DecState, ts: u64)
    ensures Reads(dia, o, [RESET_FRAME] + U64Le(ts), [], o.(base := ts), 0)
  {
    var piece := [RESET_FRAME] + U64Le(ts);
    assert piece[1..] == U64Le(ts) + [];
    ResetOf(ts, []);
    FrameIsNoHeader(dia, o, piece);
    assert ParseFrame(dia, o.cache, o.base, piece) == Ok(TimestampReset(ts), []);
    hide ParseFrame;
    ReadsOneFrame(dia, o, piece, TimestampReset(ts));
  }

  // ----- events

  /** An event frame taken apart: id, delta and field bytes. */
  lemma EventParts(dia: Dialect, schemas: map<nat, SchemaEntry>, base: nat, d: bytes, f: Frame, rest: bytes)
    requires d != [] && d[0] == EVENT_FRAME && ParseFrame(dia, schemas, base, d) == Ok(f, rest)
    ensures |d| >= 3 && f.Event? && f.typeId == LeVal(d[1..3]) && f.typeId in schemas
    ensures var e := schemas[f.typeId];
            var at := if e.hasTimestamp then 6 else 3;
            f.name == e.name && at <= |d| && ParseFields(dia, Tags(e.fields), d[at..]) == Ok(f.values, rest)
            && f.timestamp == if e.hasTimestamp then Some(base + LeVal(d[3..6])) else None
  {
    hide ParseFields;
    LeAt(d, 1, 2);
    assert ParseU16(d[1..]) == Ok(f.typeId, d[3..]);
    if schemas[f.typeId].hasTimestamp { LeAt(d, 3, 3); }
  }

  /** The event's bytes with another delta. */
  function WithDelta(d: bytes, rest: bytes, delta: nat): bytes
    requires |rest| + 6 <= |d|
  {
    d[..3] + Le(3, delta) + Used(d, rest)[6..]
  }

  lemma DeltaPatched(ev: bytes, delta: nat)
    requires |ev| >= 6
    ensures ev[3 := delta % 256][4 := delta / 256 % 256][5 := delta / 65536 % 256] == ev[..3] + Le(3, delta) + ev[6..]
  {
    var hi := delta / 256 / 256;
    assert Le(1, hi) == [hi % 256] + Le(0, hi / 256);
    assert Le(2, delta / 256) == [delta / 256 % 256] + Le(1, hi);
    assert hi == delta / 65536;
  }

  /** A timestamped event with a rewritten delta reads as the same event, at the new base
      plus the new delta. */
  lemma RebasedEvent(dia: Dialect, st: DecState, o: DecState, d: bytes, f: Frame, rest: bytes, delta: nat)
    requires st.cache == o.cache && d != [] && d[0] == EVENT_FRAME
    requires ParseFrame(dia, st.cache, st.base, d) == Ok(f, rest)
    requires f.Event? && f.timestamp.Some? && delta <= MAX_DELTA && (dia == Js || o.base + delta < TWO_TO_THE_64)
    ensures |rest| + 6 <= |d| && Tail(rest, d)
    ensures ParseFrame(dia, o.cache, o.base, WithDelta(d, rest, delta)) == Ok(f.(timestamp := Some(o.base + delta)), [])
    ensures !HeaderAt(WithDelta(d, rest, delta))
  {
    EventParts(dia, st.cache, st.base, d, f, rest);
    var e := st.cache[f.typeId];
    hide ParseFrame;
    ParseFieldsLocal(dia, Tags(e.fields), d[6..], []);
    ParseFrameLocal(dia, st.cache, st.base, d, []);
    var fields := Used(d[6..], rest);
    assert Used(d, rest)[6..] == fields && fields + [] == fields;
    var piece := WithDelta(d, rest, delta);
    PatchedParses(dia, o, piece, d[1..3], e, delta, fields, f);
    FrameIsNoHeader(dia, o, piece);
  }

  lemma PatchedParses(dia: Dialect, o: DecState, piece: bytes, id: bytes, e: SchemaEntry, delta: nat, fields: bytes,
                      f: Frame)
    requires |id| == 2 && piece == [EVENT_FRAME] + id + Le(3, delta) + fields && delta <= MAX_DELTA
    requires dia == Js || o.base + delta < TWO_TO_THE_64
    requires f.Event? && f.typeId == LeVal(id) && f.typeId in o.cache && o.cache[f.typeId] == e && e.hasTimestamp
    requires f.name == e.name
    requires ParseFields(dia, Tags(e.fields), fields) == Ok(f.values, [])
    ensures ParseFrame(dia, o.cache, o.base, piece) == Ok(f.(timestamp := Some(o.base + delta)), [])
  {
    hide ParseFields;
    assert piece[1..] == id + (Le(3, delta) + fields);
    TakeOf(id, Le(3, delta) + fields);
    assert ParseU16(piece[1..]) == Ok(f.typeId, Le(3, delta) + fields);
    PowersOf256();
    ParseLeOf(3, delta, fields);
  }

  /** An event without a timestamp is copied verbatim. */
  lemma UntimedEvent(dia: Dialect, st: DecState, o: DecState, d: bytes, f: Frame, rest: bytes)
    requires SameButBase(st, o) && d != [] && d[0] == EVENT_FRAME
    requires ParseFrame(dia, st.cache, st.base, d) == Ok(f, rest)
    requires f.Event? && f.timestamp.None?
    ensures Tail(rest, d) && Reads(dia, o, Used(d, rest), [f], o, 0) && Apply(dia, st, f).st == st
  {
    ParseFrameLocal(dia, st.cache, st.base, d, []);
    var piece := Used(d, rest);
    assert piece + [] == piece;
    UntimedIgnoresBase(dia, st.cache, st.base, o.base, piece, f);
    hide ParseFrame;
    FrameIsNoHeader(dia, st, piece);
    ReadsOneFrame(dia, o, piece, f);
  }

  lemma UntimedIgnoresBase(dia: Dialect, schemas: map<nat, SchemaEntry>, base: nat, base': nat, d: bytes, f: Frame)
    requires ParseFrame(dia, schemas, base, d) == Ok(f, []) && f.Event? && f.timestamp.None?
    ensures ParseFrame(dia, schemas, base', d) == Ok(f, [])
  {
    hide ParseFields, ParseSchema, ParseAnnotations, ParseStringPool, ParseStackPool, ParseReset;
    assert d[0] == EVENT_FRAME by { OtherTags(dia, schemas, base, d); }
  }

  lemma OtherTags(dia: Dialect, schemas: map<nat, SchemaEntry>, base: nat, d: bytes)
    requires ParseFrame(dia, schemas, base, d).Ok? && ParseFrame(dia, schemas, base, d).value.Event?
    ensures d[0] == EVENT_FRAME
  {
    if d[0] != EVENT_FRAME { OtherFramesIgnoreState(dia, schemas, base, base, d); }
  }
}
