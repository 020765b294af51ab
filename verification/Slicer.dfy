/** sliceTrace and findMinTs, the loops of slice.js, against the decoder. */
module Slicer {
  import opened Bytes
  import opened Values
  import opened Frames
  import opened Machine
  import opened View
  import opened Scan
  import opened Slice
  import opened Pulls

  /** The slicer's schema table mirrors the decoder's. */
  predicate Mirrors(layouts: map<nat, Layout>, cache: map<nat, SchemaEntry>) {
    layouts.Keys == cache.Keys && forall id :: id in cache ==> layouts[id] == LayoutOf(cache[id])
  }

  /** Decoding the whole of `buf` has reached offset `pos`: `done` was given out, `k`
      headers were passed and the decoder is in state `st`. */
  predicate ReadUpTo(dia: Dialect, full: Outcome, buf: bytes, pos: nat, st: DecState, done: seq<Frame>, k: nat) {
    pos <= |buf| && full.Complete() && full == Run(dia, st, buf[pos..]).Behind(done, k)
  }

  /** What a decoder makes of the output so far. */
  predicate Wrote(dia: Dialect, out: bytes, fs: seq<Frame>, o: DecState, k: nat) {
    |out| >= 5 && HeaderAt(out) && Reads(dia, FRESH, out[5..], fs, o, k)
  }

  lemma WroteMore(dia: Dialect, out: bytes, fs: seq<Frame>, o: DecState, k: nat, piece: bytes, gs: seq<Frame>,
                  o': DecState, m: nat)
    requires Wrote(dia, out, fs, o, k) && Reads(dia, o, piece, gs, o', m)
    ensures Wrote(dia, out + piece, fs + gs, o', k + m)
  {
    hide Reads;
    ReadsConcat(dia, out[5..], fs, o, k, piece, gs, o', m);
    assert (out + piece)[5..] == out[5..] + piece;
    assert (out + piece)[..4] == out[..4];
  }

  lemma HeaderStep(dia: Dialect, full: Outcome, buf: bytes, pos: nat, st: DecState, done: seq<Frame>, k: nat)
    requires ReadUpTo(dia, full, buf, pos, st, done, k) && HeaderAt(buf[pos..])
    ensures pos + 5 <= |buf| && ReadUpTo(dia, full, buf, pos + 5, FRESH, done, k + 1)
  {
    hide Run;
    HeaderRun(dia, st, buf[pos..]);
    assert buf[pos..][5..] == buf[pos + 5..];
    BehindBehind(Run(dia, FRESH, buf[pos + 5..]), done, k, [], 1);
    assert done + [] == done;
  }

  /** The frame that starts at `pos`. */
  function FrameAt(dia: Dialect, buf: bytes, pos: nat, st: DecState): Parsed<Frame>
    requires pos <= |buf|
  {
    ParseFrame(dia, st.cache, st.base, buf[pos..])
  }

  lemma FrameStep(dia: Dialect, full: Outcome, buf: bytes, pos: nat, st: DecState, done: seq<Frame>, k: nat)
    requires ReadUpTo(dia, full, buf, pos, st, done, k) && pos < |buf| && !HeaderAt(buf[pos..])
    ensures var r := FrameAt(dia, buf, pos, st);
            r.Ok? && |r.rest| < |buf| - pos && Apply(dia, st, r.value).accepted
            && buf[EndOf(buf, r)..] == r.rest && Used(buf[pos..], r.rest) == buf[pos..EndOf(buf, r)]
            && ReadUpTo(dia, full, buf, EndOf(buf, r), Apply(dia, st, r.value).st, done + Visible(r.value), k)
  {
    hide ParseFrame, Apply;
    var d := buf[pos..];
    var r := FrameAt(dia, buf, pos, st);
    assert r.Ok?;
    StepLocal(dia, st, d, []);
    assert buf[|buf| - |r.rest|..] == d[|d| - |r.rest|..];
    BehindBehind(Run(dia, Apply(dia, st, r.value).st, r.rest), done, k, Visible(r.value), 0);
  }

  lemma KeptOne(done: seq<Frame>, f: Frame, startNs: int, endNs: int)
    ensures Kept(done + [f], startNs, endNs)
            == Kept(done, startNs, endNs) + if Keeps(f, startNs, endNs) then [f] else []
  {
    KeptAppend(done, [f], startNs, endNs);
    assert [f][1..] == [];
  }

  // ----- each kind of frame

  /** A slicing job: who reads, the input, its complete decoding, and the range. */
  datatype Job = Job(dia: Dialect, buf: bytes, full: Outcome, startNs: int, endNs: int)

  /** The loop's variables, and what two decoders know at this point: `st` reads the input,
      `o` reads the output, `done` was read so far and `k` headers were passed. */
  datatype Walk = Walk(pos: nat, layouts: map<nat, Layout>, base: nat, out: bytes, outBase: nat,
                       st: DecState, o: DecState, done: seq<Frame>, k: nat)

  /** The frames of the output so far. */
  function Chosen(j: Job, w: Walk): seq<Frame> {
    Kept(w.done, j.startNs, j.endNs)
  }

  /** Everything the loop knows at the top of a turn. */
  predicate SliceInv(j: Job, w: Walk) {
    (j.dia == Js || j.dia == Strict)
    && ReadUpTo(j.dia, j.full, j.buf, w.pos, w.st, w.done, w.k) && Wrote(j.dia, w.out, Chosen(j, w), w.o, w.k)
    && SameButBase(w.st, w.o) && Mirrors(w.layouts, w.st.cache) && w.base == w.st.base && w.outBase == w.o.base
  }

  /** The walk stands before a frame. */
  predicate AtFrame(j: Job, w: Walk) {
    SliceInv(j, w) && w.pos < |j.buf| && !HeaderAt(j.buf[w.pos..])
  }

  function Here(j: Job, w: Walk): Parsed<Frame>
    requires w.pos <= |j.buf|
  {
    FrameAt(j.dia, j.buf, w.pos, w.st)
  }

  lemma LookAtFrame(j: Job, w: Walk)
    requires AtFrame(j, w)
    ensures Here(j, w).Ok? && w.pos < EndOf(j.buf, Here(j, w)) <= |j.buf|
    ensures Mirrors(w.layouts, w.st.cache) && w.base == w.st.base
    ensures FrameAt(Js, j.buf, w.pos, w.st) == Here(j, w)
  {
    hide ReadUpTo, Wrote, ParseFrame;
    StrictFrameIsCommon(Js, w.st.cache, w.st.base, j.buf[w.pos..]);
    FrameStep(j.dia, j.full, j.buf, w.pos, w.st, w.done, w.k);
  }

  lemma StartInv(j: Job)
    requires (j.dia == Js || j.dia == Strict) && HeaderAt(j.buf) && j.full == Run(j.dia, FRESH, j.buf[5..])
    requires j.full.Complete()
    ensures SliceInv(j, Walk(5, map[], 0, j.buf[..5], 0, FRESH, FRESH, [], 0))
  {
    hide Run;
    assert HeaderAt(j.buf[..5]) by { assert j.buf[..5][..4] == j.buf[..4]; }
    EmptyRun(j.dia, FRESH);
    assert j.buf[..5][5..] == [];
    assert j.full.Behind([], 0) == j.full;
  }

  lemma HeaderTurn(j: Job, w: Walk)
    requires SliceInv(j, w) && HeaderAt(j.buf[w.pos..])
    ensures w.pos + 5 <= |j.buf|
    ensures SliceInv(j, Walk(w.pos + 5, map[], 0, w.out + j.buf[w.pos..w.pos + 5], 0, FRESH, FRESH, w.done, w.k + 1))
  {
    hide ReadUpTo, Wrote, Reads, Kept;
    HeaderStep(j.dia, j.full, j.buf, w.pos, w.st, w.done, w.k);
    assert j.buf[w.pos..][..5] == j.buf[w.pos..w.pos + 5];
    ReadsHeader(j.dia, w.o, j.buf[w.pos..]);
    WroteMore(j.dia, w.out, Chosen(j, w), w.o, w.k, j.buf[w.pos..w.pos + 5], [], FRESH, 1);
    assert Chosen(j, w) + [] == Chosen(j, w);
  }

  /** Behind a frame that was copied whole. */
  function Copied(j: Job, w: Walk): Walk
    requires w.pos <= |j.buf| && Here(j, w).Ok? && w.pos <= EndOf(j.buf, Here(j, w))
  {
    var f, end := Here(j, w).value, EndOf(j.buf, Here(j, w));
    Walk(end, if f.Schema? then w.layouts[f.id := LayoutOf(f.entry)] else w.layouts, w.base,
         w.out + j.buf[w.pos..end], w.outBase, Apply(j.dia, w.st, f).st, Apply(j.dia, w.o, f).st, w.done + [f], w.k)
  }

  /** Schema, pool and annotation frames: copied as they are. */
  lemma CopyTurn(j: Job, w: Walk)
    requires AtFrame(j, w) && j.buf[w.pos] != EVENT_FRAME && j.buf[w.pos] != RESET_FRAME
    ensures Here(j, w).Ok? && w.pos < EndOf(j.buf, Here(j, w)) <= |j.buf| && SliceInv(j, Copied(j, w))
    ensures !Here(j, w).value.Event?
  {
    hide ReadUpTo, Wrote, Reads, Kept, Apply, ParseFrame;
    FrameStep(j.dia, j.full, j.buf, w.pos, w.st, w.done, w.k);
    var r := Here(j, w);
    CopyFrame(j.dia, w.st, w.o, j.buf[w.pos..], r.value, r.rest);
    OtherFramesIgnoreState(j.dia, w.st.cache, w.st.base, w.st.base, j.buf[w.pos..]);
    KeptOne(w.done, r.value, j.startNs, j.endNs);
    WroteMore(j.dia, w.out, Chosen(j, w), w.o, w.k, j.buf[w.pos..EndOf(j.buf, r)], [r.value],
              Apply(j.dia, w.o, r.value).st, 0);
    MirrorsAfter(j.dia, w.layouts, w.st, r.value);
  }

  lemma MirrorsAfter(dia: Dialect, layouts: map<nat, Layout>, st: DecState, f: Frame)
    requires Mirrors(layouts, st.cache)
    ensures Mirrors(if f.Schema? then layouts[f.id := LayoutOf(f.entry)] else layouts, Apply(dia, st, f).st.cache)
  {
    hide AddStrings, AddStacks;
  }

  /** A reset is thrown away: only the input's base moves. */
  lemma ResetTurn(j: Job, w: Walk)
    requires AtFrame(j, w) && j.buf[w.pos] == RESET_FRAME
    ensures w.pos + 9 <= |j.buf|
    ensures var ts := LeVal(j.buf[w.pos + 1..w.pos + 9]);
            Here(j, w) == Ok(TimestampReset(ts), j.buf[w.pos + 9..]) && EndOf(j.buf, Here(j, w)) == w.pos + 9
            && SliceInv(j, w.(pos := w.pos + 9, base := ts, st := w.st.(base := ts)))
  {
    hide Wrote, Reads, Kept, Run;
    FrameStep(j.dia, j.full, j.buf, w.pos, w.st, w.done, w.k);
    LeAt(j.buf, w.pos + 1, 8);
    assert j.buf[w.pos..][1..] == j.buf[w.pos + 1..];
    assert w.done + [] == w.done;
  }

  /** An event that is dropped: only the input's base moves. */
  lemma DropTurn(j: Job, w: Walk)
    requires AtFrame(j, w) && Here(j, w).Ok?
    requires var f := Here(j, w).value; f.Event? && f.timestamp.Some? && !Keeps(f, j.startNs, j.endNs)
    ensures w.pos < EndOf(j.buf, Here(j, w)) <= |j.buf|
    ensures var f := Here(j, w).value;
            var ts := f.timestamp.value;
            SliceInv(j, w.(pos := EndOf(j.buf, Here(j, w)), base := ts, st := w.st.(base := ts), done := w.done + [f]))
  {
    hide ReadUpTo, Wrote, Reads, Kept, ParseFrame;
    FrameStep(j.dia, j.full, j.buf, w.pos, w.st, w.done, w.k);
    KeptOne(w.done, Here(j, w).value, j.startNs, j.endNs);
    assert Chosen(j, w) + [] == Chosen(j, w);
  }

  /** An event without a timestamp: copied as it is. */
  lemma UntimedTurn(j: Job, w: Walk)
    requires AtFrame(j, w) && j.buf[w.pos] == EVENT_FRAME && Here(j, w).Ok?
    requires Here(j, w).value.Event? && Here(j, w).value.timestamp.None?
    ensures w.pos < EndOf(j.buf, Here(j, w)) <= |j.buf|
    ensures var end := EndOf(j.buf, Here(j, w));
            SliceInv(j, w.(pos := end, out := w.out + j.buf[w.pos..end], done := w.done + [Here(j, w).value]))
  {
    hide ReadUpTo, Wrote, Reads, Kept, ParseFrame;
    FrameStep(j.dia, j.full, j.buf, w.pos, w.st, w.done, w.k);
    var r := Here(j, w);
    UntimedEvent(j.dia, w.st, w.o, j.buf[w.pos..], r.value, r.rest);
    KeptOne(w.done, r.value, j.startNs, j.endNs);
    WroteMore(j.dia, w.out, Chosen(j, w), w.o, w.k, j.buf[w.pos..EndOf(j.buf, r)], [r.value], w.o, 0);
  }

  /** A reset written in front of an event: read silently. */
  lemma ResetWritten(j: Job, w: Walk, ts: u64)
    requires SliceInv(j, w)
    ensures SliceInv(j, w.(out := w.out + ([RESET_FRAME] + U64Le(ts)), outBase := ts, o := w.o.(base := ts)))
  {
    hide Reads, Wrote, ReadUpTo, Kept;
    ReadsReset(j.dia, w.o, ts);
    WroteMore(j.dia, w.out, Chosen(j, w), w.o, w.k, [RESET_FRAME] + U64Le(ts), [], w.o.(base := ts), 0);
    assert Chosen(j, w) + [] == Chosen(j, w);
  }

  /** The event's bytes with another delta. */
  function WithNewDelta(buf: bytes, frameStart: nat, end: nat, delta: nat): bytes
    requires frameStart + 6 <= end <= |buf|
  {
    buf[frameStart..frameStart + 3] + Le(3, delta) + buf[frameStart + 6..end]
  }

  /** A kept event, its delta rewritten against the output's base. */
  lemma KeepTurn(j: Job, w: Walk, delta: nat)
    requires AtFrame(j, w) && j.buf[w.pos] == EVENT_FRAME && Here(j, w).Ok?
    requires var f := Here(j, w).value;
             f.Event? && f.timestamp == Some(w.outBase + delta) && delta <= MAX_DELTA && Keeps(f, j.startNs, j.endNs)
    ensures w.pos + 6 <= EndOf(j.buf, Here(j, w)) <= |j.buf|
    ensures var f, end := Here(j, w).value, EndOf(j.buf, Here(j, w));
            SliceInv(j, Emitted(w, end, f, w.out + WithNewDelta(j.buf, w.pos, end, delta)))
  {
    hide ReadUpTo, Wrote, Reads, Kept, ParseFrame;
    FrameStep(j.dia, j.full, j.buf, w.pos, w.st, w.done, w.k);
    var r := Here(j, w);
    var d := j.buf[w.pos..];
    if j.dia != Js { EventTimeFits(j.dia, w.st.cache, w.st.base, d); }
    RebasedEvent(j.dia, w.st, w.o, d, r.value, r.rest, delta);
    var piece := WithDelta(d, r.rest, delta);
    assert piece == WithNewDelta(j.buf, w.pos, EndOf(j.buf, r), delta) by {
      assert d[..3] == j.buf[w.pos..w.pos + 3];
      assert Used(d, r.rest)[6..] == j.buf[w.pos + 6..EndOf(j.buf, r)];
    }
    ReadsOneFrame(j.dia, w.o, piece, r.value);
    KeptOne(w.done, r.value, j.startNs, j.endNs);
    WroteMore(j.dia, w.out, Chosen(j, w), w.o, w.k, piece, [r.value], w.o.(base := r.value.timestamp.value), 0);
  }

  /** Behind an event that was written: both bases are its timestamp. */
  function Emitted(w: Walk, end: nat, f: Frame, out: bytes): Walk
    requires f.Event? && f.timestamp.Some?
  {
    var ts := f.timestamp.value;
    Walk(end, w.layouts, ts, out, ts, w.st.(base := ts), w.o.(base := ts), w.done + [f], w.k)
  }

  /** What an event becomes in the output: a reset in front when the delta does not fit. */
  predicate IsPiece(buf: bytes, frameStart: nat, end: nat, ts: nat, outBase: nat, piece: bytes)
    requires frameStart + 6 <= end <= |buf|
  {
    if outBase <= ts <= outBase + MAX_DELTA then piece == WithNewDelta(buf, frameStart, end, ts - outBase)
    else ts < TWO_TO_THE_64 && piece == [RESET_FRAME] + U64Le(ts) + WithNewDelta(buf, frameStart, end, 0)
  }

  lemma EmitTurn(j: Job, w: Walk, ts: nat, piece: bytes)
    requires AtFrame(j, w) && j.buf[w.pos] == EVENT_FRAME && Here(j, w).Ok?
    requires var f := Here(j, w).value; f.Event? && f.timestamp == Some(ts) && Keeps(f, j.startNs, j.endNs)
    requires var end := EndOf(j.buf, Here(j, w));
             w.pos + 6 <= end <= |j.buf| && IsPiece(j.buf, w.pos, end, ts, w.outBase, piece)
    ensures SliceInv(j, Emitted(w, EndOf(j.buf, Here(j, w)), Here(j, w).value, w.out + piece))
  {
    hide ReadUpTo, Wrote, Reads, Kept, ParseFrame, Keeps, WithNewDelta, Le;
    if w.outBase <= ts <= w.outBase + MAX_DELTA {
      KeepTurn(j, w, ts - w.outBase);
    } else {
      var reset := [RESET_FRAME] + U64Le(ts);
      ResetWritten(j, w, ts);
      KeepTurn(j, w.(out := w.out + reset, outBase := ts, o := w.o.(base := ts)), 0);
      Assoc(w.out, reset, WithNewDelta(j.buf, w.pos, EndOf(j.buf, Here(j, w)), 0));
    }
  }

  // ----- the loops

  lemma EventAt(buf: bytes, pos: nat, layouts: map<nat, Layout>, st: DecState)
    requires pos < |buf| && buf[pos] == EVENT_FRAME && Mirrors(layouts, st.cache) && FrameAt(Js, buf, pos, st).Ok?
    ensures var f := FrameAt(Js, buf, pos, st).value;
            f.Event? && GetLe(buf, pos + 1, 2) == Some(f.typeId) && f.typeId in layouts
            && f.name == layouts[f.typeId].name
            && var at := if layouts[f.typeId].hasTimestamp then pos + 6 else pos + 3;
               at <= |buf|
               && ParseFields(Js, layouts[f.typeId].fields, buf[at..]) == Ok(f.values, FrameAt(Js, buf, pos, st).rest)
               && f.timestamp == if layouts[f.typeId].hasTimestamp then Some(st.base + LeVal(buf[pos + 3..pos + 6]))
                                 else None
  {
    hide ParseFields, LeVal;
    var d := buf[pos..];
    var r := FrameAt(Js, buf, pos, st);
    assert d[1..3] == buf[pos + 1..pos + 3] || |d| < 3;
    EventFrameIsEvent(st.cache, st.base, d);
    EventParts(Js, st.cache, st.base, d, r.value, r.rest);
    if st.cache[r.value.typeId].hasTimestamp {
      assert d[6..] == buf[pos + 6..] && d[3..6] == buf[pos + 3..pos + 6];
    } else {
      assert d[3..] == buf[pos + 3..];
    }
  }

  lemma EventFrameIsEvent(schemas: map<nat, SchemaEntry>, base: nat, d: bytes)
    ensures d != [] && d[0] == EVENT_FRAME && ParseFrame(Js, schemas, base, d).Ok? ==>
              ParseFrame(Js, schemas, base, d).value.Event?
  {
    hide ParseFields;
  }

  /** b0 | b1 << 8 | b2 << 16 of three bytes. */
  function OrBytes(b0: int, b1: int, b2: int): int {
    b0 + 0x100 * b1 + 0x1_0000 * b2
  }

  lemma ThreeBytes(buf: bytes, at: nat)
    requires at + 3 <= |buf|
    ensures OrBytes(buf[at], buf[at + 1], buf[at + 2]) == LeVal(buf[at..at + 3])
  {
    var d := buf[at..at + 3];
    assert LeVal(d) == d[0] + 256 * LeVal(d[1..]);
    assert LeVal(d[1..]) == d[1] + 256 * LeVal(d[2..]);
    assert LeVal(d[2..]) == d[2] + 256 * LeVal(d[3..]);
  }

  /** The head of an event frame: its schema's layout, its absolute timestamp and where
      its fields start. */
  method EventHead(buf: bytes, frameStart: nat, layouts: map<nat, Layout>, base: nat, ghost st: DecState)
    returns (r: Option<(Layout, Option<nat>, nat)>)
    requires frameStart < |buf| && buf[frameStart] == EVENT_FRAME
    ensures Mirrors(layouts, st.cache) && base == st.base && FrameAt(Js, buf, frameStart, st).Ok? ==>
              var p := FrameAt(Js, buf, frameStart, st);
              r.Some? && p.value.Event? && p.value.name == r.value.0.name && p.value.timestamp == r.value.1
              && r.value.2 <= |buf| && ParseFields(Js, r.value.0.fields, buf[r.value.2..]) == Ok(p.value.values, p.rest)
    ensures r.Some? ==> r.value.2 > frameStart && r.value.1.Some? == r.value.0.hasTimestamp
    ensures r.Some? && r.value.1.Some? ==> frameStart + 6 == r.value.2 <= |buf|
  {
    hide ParseFrame, ParseFields, LeVal;
    ghost var good := Mirrors(layouts, st.cache) && base == st.base && FrameAt(Js, buf, frameStart, st).Ok?;
    if good { EventAt(buf, frameStart, layouts, st); }
    var pos := frameStart + 1;
    var typeId :- GetLe(buf, pos, 2);
    pos := pos + 2;
    if typeId !in layouts { return None; }
    var schema := layouts[typeId];
    var timestamp := None;
    if schema.hasTimestamp {
      var b0 :- GetByte(buf, pos);
      var b1 :- GetByte(buf, pos + 1);
      var b2 :- GetByte(buf, pos + 2);
      ThreeBytes(buf, pos);
      timestamp := Some(base + OrBytes(b0, b1, b2));
      pos := pos + 3;
    }
    return Some((schema, timestamp, pos));
  }

  /** An event frame: its schema's layout, its absolute timestamp and its end. */
  method ScanEvent(buf: bytes, frameStart: nat, layouts: map<nat, Layout>, base: nat, ghost st: DecState)
    returns (r: Option<(Layout, Option<nat>, nat)>)
    requires frameStart < |buf| && buf[frameStart] == EVENT_FRAME
    ensures Mirrors(layouts, st.cache) && base == st.base && FrameAt(Js, buf, frameStart, st).Ok? ==>
              var p := FrameAt(Js, buf, frameStart, st);
              r.Some? && p.value.Event? && p.value.name == r.value.0.name
              && p.value.timestamp == r.value.1 && r.value.2 == EndOf(buf, p)
    ensures r.Some? ==> r.value.2 > frameStart && r.value.1.Some? == r.value.0.hasTimestamp
    ensures r.Some? && r.value.1.Some? ==> frameStart + 6 <= |buf| && r.value.2 >= frameStart + 6
  {
    hide ParseFrame, ParseFields, LeVal;
    var head :- EventHead(buf, frameStart, layouts, base, st);
    var end :- ScanFields(buf, head.2, head.0.fields);
    return Some((head.0, head.1, end));
  }

  /** Frames that are copied whole, other than schemas. */
  method ScanOther(buf: bytes, pos: nat, tag: byte, ghost st: DecState) returns (r: Option<nat>)
    requires pos < |buf| && tag == buf[pos] && tag != SCHEMA_FRAME && tag != EVENT_FRAME && tag != RESET_FRAME
    ensures FrameAt(Js, buf, pos, st).Ok? ==> r == Some(EndOf(buf, FrameAt(Js, buf, pos, st)))
    ensures FrameAt(Js, buf, pos, st).Ok? ==> !FrameAt(Js, buf, pos, st).value.Schema?
    ensures r.Some? ==> r.value > pos
  {
    hide ParseVarint, ParseAnnotationList, Rep;
    ByteAt(buf, pos);
    if tag == STRING_POOL_FRAME { r := ScanStringPool(buf, pos + 1); }
    else if tag == STACK_POOL_FRAME { r := ScanStackPool(buf, pos + 1); }
    else if tag == ANNOTATIONS_FRAME { r := ScanAnnotations(buf, pos + 1); }
    else { return None; }
  }

  method ScanSchemaFrame(buf: bytes, pos: nat, ghost st: DecState) returns (r: Option<(nat, Layout, nat)>)
    requires pos < |buf| && buf[pos] == SCHEMA_FRAME
    ensures var p := FrameAt(Js, buf, pos, st);
            p.Ok? ==> p.value.Schema? && r == Some((p.value.id, LayoutOf(p.value.entry), EndOf(buf, p)))
    ensures r.Some? ==> r.value.2 > pos
  {
    hide ParseSchema;
    ByteAt(buf, pos);
    SchemaAt(buf, pos + 1);
    r := ScanSchema(buf, pos + 1);
  }

  // ----- when there is a slice

  predicate TimedAndKept(out: seq<Frame>, startNs: int, endNs: int) {
    out != [] && out[0].Event? && out[0].timestamp.Some? && Keeps(out[0], startNs, endNs)
  }

  /** A kept timestamp needs no reset, or one that can hold it. */
  predicate CanWrite(out: seq<Frame>, outBase: nat, startNs: int, endNs: int) {
    TimedAndKept(out, startNs, endNs) ==>
      outBase <= out[0].timestamp.value <= outBase + MAX_DELTA || out[0].timestamp.value < TWO_TO_THE_64
  }

  function OutBaseAfter(out: seq<Frame>, header: bool, outBase: nat, startNs: int, endNs: int): nat {
    if header then 0 else if TimedAndKept(out, startNs, endNs) then out[0].timestamp.value else outBase
  }

  /** Every step of the input can be written: the output's base follows the kept events. */
  predicate Writable(dia: Dialect, st: DecState, d: bytes, outBase: nat, startNs: int, endNs: int)
    decreases |d|
  {
    match Step(dia, st, d)
    case Go(out, st', r) =>
      StepLocal(dia, st, d, []);
      CanWrite(out, outBase, startNs, endNs)
      && Writable(dia, st', r, OutBaseAfter(out, HeaderAt(d), outBase, startNs, endNs), startNs, endNs)
    case _ => true
  }

  lemma FitInParts(a: seq<Frame>, b: seq<Frame>)
    requires TimestampsFit(a + b)
    ensures TimestampsFit(a) && TimestampsFit(b)
  {
    assert forall i :: 0 <= i < |a| ==> (a + b)[i] == a[i];
    assert forall i :: 0 <= i < |b| ==> (a + b)[|a| + i] == b[i];
  }

  lemma KeptOfOne(out: seq<Frame>, startNs: int, endNs: int)
    requires |out| <= 1
    ensures TimedAndKept(out, startNs, endNs) ==> Kept(out, startNs, endNs) == out
  {
    hide Keeps;
    if out != [] { assert out[1..] == []; }
  }

  lemma WritableOnce(dia: Dialect, st: DecState, d: bytes, outBase: nat, startNs: int, endNs: int)
    ensures var s := Step(dia, st, d);
            Writable(dia, st, d, outBase, startNs, endNs)
            == if !s.Go? then true else
                 CanWrite(s.out, outBase, startNs, endNs)
                 && Writable(dia, s.st, s.rest, OutBaseAfter(s.out, HeaderAt(d), outBase, startNs, endNs), startNs,
                             endNs)
  {
    hide Step, CanWrite, OutBaseAfter, HeaderAt;
  }

  /** Timestamps below 2^64 can always be written. */
  lemma {:induction false} FittingIsWritable(dia: Dialect, st: DecState, d: bytes, outBase: nat, startNs: int,
                                             endNs: int)
    requires TimestampsFit(Kept(Run(dia, st, d).frames, startNs, endNs))
    ensures Writable(dia, st, d, outBase, startNs, endNs)
    decreases |d|
  {
    hide Step, Keeps, Kept, Run, Writable, HeaderAt;
    var s := Step(dia, st, d);
    WritableOnce(dia, st, d, outBase, startNs, endNs);
    if s.Go? {
      assert |s.rest| < |d| by { StepLocal(dia, st, d, []); }
      RunOnce(dia, st, d);
      OneFrameAtMost(dia, st, d);
      var t := Run(dia, s.st, s.rest).frames;
      KeptAppend(s.out, t, startNs, endNs);
      FitInParts(Kept(s.out, startNs, endNs), Kept(t, startNs, endNs));
      KeptOfOne(s.out, startNs, endNs);
      FittingIsWritable(dia, s.st, s.rest, OutBaseAfter(s.out, HeaderAt(d), outBase, startNs, endNs), startNs, endNs);
    }
  }

  lemma {:induction false} StrictTimesFit(st: DecState, d: bytes)
    requires Run(Strict, st, d).Complete()
    ensures TimestampsFit(Run(Strict, st, d).frames)
    decreases |d|
  {
    hide ParseFrame, Apply;
    var s := Step(Strict, st, d);
    if d != [] {
      StepLocal(Strict, st, d, []);
      StrictTimesFit(s.st, s.rest);
      EventTimeFits(Strict, st.cache, st.base, d);
      var t := Run(Strict, s.st, s.rest).frames;
      assert forall i :: |s.out| <= i < |s.out + t| ==> (s.out + t)[i] == t[i - |s.out|];
    }
  }

  lemma {:induction false} KeptTimesFit(fs: seq<Frame>, startNs: int, endNs: int)
    requires TimestampsFit(fs)
    ensures TimestampsFit(Kept(fs, startNs, endNs))
  {
    hide Keeps;
    if fs != [] {
      assert TimestampsFit(fs[1..]) by { assert forall i :: 0 <= i < |fs[1..]| ==> fs[1..][i] == fs[i + 1]; }
      KeptTimesFit(fs[1..], startNs, endNs);
      var head, tail := if Keeps(fs[0], startNs, endNs) then [fs[0]] else [], Kept(fs[1..], startNs, endNs);
      assert forall i :: |head| <= i < |head + tail| ==> (head + tail)[i] == tail[i - |head|];
    }
  }

  /** What is left to write from where the walk stands. */
  predicate LeftWritable(j: Job, w: Walk)
    requires w.pos <= |j.buf|
  {
    Writable(j.dia, w.st, j.buf[w.pos..], w.outBase, j.startNs, j.endNs)
  }

  lemma WritableBehindHeader(j: Job, w: Walk)
    requires w.pos + 5 <= |j.buf| && HeaderAt(j.buf[w.pos..])
    ensures LeftWritable(j, w) == Writable(j.dia, FRESH, j.buf[w.pos + 5..], 0, j.startNs, j.endNs)
  {
    assert j.buf[w.pos..][5..] == j.buf[w.pos + 5..];
  }

  lemma WritableBehindFrame(j: Job, w: Walk)
    requires AtFrame(j, w)
    ensures var r := Here(j, w);
            r.Ok? && 0 <= EndOf(j.buf, r) <= |j.buf|
            && LeftWritable(j, w) == (CanWrite(Visible(r.value), w.outBase, j.startNs, j.endNs)
                 && Writable(j.dia, Apply(j.dia, w.st, r.value).st, j.buf[EndOf(j.buf, r)..],
                             OutBaseAfter(Visible(r.value), false, w.outBase, j.startNs, j.endNs), j.startNs, j.endNs))
    ensures var f := Here(j, w).value;
            (f.Event? ==>
               Apply(j.dia, w.st, f).st == if f.timestamp.Some? then w.st.(base := f.timestamp.value) else w.st)
            && (f.TimestampReset? ==> Apply(j.dia, w.st, f).st == w.st.(base := f.base))
  {
    hide ReadUpTo, Wrote, ParseFrame, Keeps, AddStrings, AddStacks, AddSchema, Annotate, CanWrite;
    FrameStep(j.dia, j.full, j.buf, w.pos, w.st, w.done, w.k);
  }

  lemma SliceDone(j: Job, w: Walk)
    requires SliceInv(j, w) && w.pos >= |j.buf|
    ensures Sliced(j.dia, j.full, j.startNs, j.endNs, w.out) && LeftWritable(j, w)
  {
    hide Run;
    assert j.buf[w.pos..] == [];
    EmptyRun(j.dia, w.st);
    assert w.done + [] == w.done;
  }

  /** What the slice of a completely decoded stream must be: it decodes to the kept frames,
      in order, with the same absolute timestamps and values, passing the same headers and
      leaving the same schemas and pools. */
  predicate Sliced(dia: Dialect, full: Outcome, startNs: int, endNs: int, out: bytes) {
    var p := DecodeStream(dia, out);
    p.Some? && p.value.Complete() && p.value.frames == Kept(full.frames, startNs, endNs)
    && p.value.restarts == full.restarts && SameButBase(full.st, p.value.st)
  }

  /** A slice `read` by a decoder holds the frames at exactly those places of the trace that
      are not cut out, in order: all but the timestamped events outside the range that have
      none of the three names. */
  lemma SlicePicks(dia: Dialect, full: Outcome, startNs: int, endNs: int, out: bytes, read: Outcome, i: nat)
    requires Sliced(dia, full, startNs, endNs, out) && DecodeStream(dia, out) == Some(read) && i < |full.frames|
    ensures exists places :: Picks(full.frames, read.frames, places, startNs, endNs)
    ensures full.frames[i] in read.frames <==> !CutOut(full.frames[i], startNs, endNs)
  {
    hide Run, Kept, CutOut, Picks;
    var places := KeptPicks(full.frames, startNs, endNs);
    PickedIff(full.frames, read.frames, places, startNs, endNs, i);
  }

  /** A decoder reads from `out` what a range leaves of a trace. */
  ghost predicate Holds(dia: Dialect, full: Outcome, startNs: int, endNs: int, out: bytes) {
    var p := DecodeStream(dia, out);
    p.Some? && exists places :: Picks(full.frames, p.value.frames, places, startNs, endNs)
  }

  lemma SlicedHolds(dia: Dialect, full: Outcome, startNs: int, endNs: int, out: bytes)
    ensures Sliced(dia, full, startNs, endNs, out) ==> Holds(dia, full, startNs, endNs, out)
  {
    hide Run, Kept, CutOut, Picks;
    if Sliced(dia, full, startNs, endNs, out) { var places := KeptPicks(full.frames, startNs, endNs); }
  }

  /** A slice that the strictest reader reads, every decoder reads alike. */
  lemma StrictSliceIsCommon(dia: Dialect, full: Outcome, startNs: int, endNs: int, out: bytes)
    requires Sliced(Strict, full, startNs, endNs, out)
    ensures DecodeStream(dia, out) == DecodeStream(Strict, out) && Sliced(dia, full, startNs, endNs, out)
  {
    hide Run, Kept;
    StrictRunIsCommon(dia, FRESH, out[5..]);
  }

  /** An event's piece of output: a reset in front when the delta does not fit, then the
      event with its delta patched. None when the reset cannot hold the timestamp. */
  method KeepEvent(buf: bytes, frameStart: nat, end: nat, ts: nat, outBase: nat) returns (r: Option<bytes>)
    requires frameStart + 6 <= |buf| && frameStart + 6 <= end
    ensures r.None? <==> ts >= TWO_TO_THE_64 && !(outBase <= ts <= outBase + MAX_DELTA)
    ensures r.Some? && end <= |buf| ==> IsPiece(buf, frameStart, end, ts, outBase, r.value)
  {
    hide Le;
    var out: bytes := [];
    var base := outBase;
    var outputDelta := ts - outBase;
    if outputDelta < 0 || outputDelta > MAX_DELTA {
      if ts >= TWO_TO_THE_64 { return None; }
      out := [RESET_FRAME] + U64Le(ts);
      base := ts;
    }
    var newDelta := ts - base;
    var eventBuf := BufSlice(buf, frameStart, end);
    DeltaPatched(eventBuf, newDelta);
    eventBuf := eventBuf[3 := newDelta % 256];
    eventBuf := eventBuf[4 := newDelta / 256 % 256];
    eventBuf := eventBuf[5 := newDelta / 65536 % 256];
    if end <= |buf| {
      assert buf[frameStart..end][..3] == buf[frameStart..frameStart + 3];
      assert buf[frameStart..end][6..] == buf[frameStart + 6..end];
    }
    return Some(out + eventBuf);
  }

  /** What a frame means for what is left to write. */
  lemma WritableTurn(j: Job, w: Walk)
    requires AtFrame(j, w)
    ensures var r := Here(j, w);
            r.Ok? && 0 <= EndOf(j.buf, r) <= |j.buf|
            && var f, next := r.value, Apply(j.dia, w.st, r.value).st;
               if f.Event? && f.timestamp.Some? && Keeps(f, j.startNs, j.endNs) then
                 next == w.st.(base := f.timestamp.value)
                 && LeftWritable(j, w)
                    == ((w.outBase <= f.timestamp.value <= w.outBase + MAX_DELTA || f.timestamp.value < TWO_TO_THE_64)
                      && Writable(j.dia, next, j.buf[EndOf(j.buf, r)..], f.timestamp.value, j.startNs, j.endNs))
               else
                 LeftWritable(j, w) == Writable(j.dia, next, j.buf[EndOf(j.buf, r)..], w.outBase, j.startNs, j.endNs)
                 && (f.Event? ==> next == if f.timestamp.Some? then w.st.(base := f.timestamp.value) else w.st)
                 && (f.TimestampReset? ==> next == w.st.(base := f.base))
  {
    hide Writable, Apply, AtFrame, FrameAt;
    WritableBehindFrame(j, w);
  }

  lemma EightBytes(buf: bytes, at: nat)
    requires at + 8 <= |buf|
    ensures LeVal(buf[at..at + 8]) == LeVal(buf[at + 4..at + 8]) * TWO_TO_THE_32 + LeVal(buf[at..at + 4])
  {
    var d := buf[at..at + 8];
    LeSplit(d, 4);
    PowersOf256();
    assert d[..4] == buf[at..at + 4] && d[4..] == buf[at + 4..at + 8];
  }

  lemma {:induction false} LeSplit(d: bytes, k: nat)
    requires k <= |d|
    ensures LeVal(d) == LeVal(d[..k]) + Pow256(k) * LeVal(d[k..])
  {
    if k == 0 {
      assert d[0..] == d;
    } else {
      LeSplit(d[1..], k - 1);
      LowByte(d[..k]);
      assert d[..k][1..] == d[1..][..k - 1] && d[1..][k - 1..] == d[k..];
      Scaled(Pow256(k - 1), LeVal(d[k..]));
    }
  }

  lemma LowByte(d: bytes)
    requires d != []
    ensures LeVal(d) == d[0] + 256 * LeVal(d[1..])
  {
  }

  lemma Scaled(p: nat, x: nat)
    ensures 256 * (p * x) == (256 * p) * x
  {
  }

  /** The strictest reader that reads the whole input, if it is not decode.js alone. */
  function Reader(buf: bytes): Dialect {
    if HeaderAt(buf) && Run(Strict, FRESH, buf[5..]).Complete() then Strict else Js
  }

  lemma ReaderReads(buf: bytes, startNs: int, endNs: int)
    requires HeaderAt(buf) && Run(Js, FRESH, buf[5..]).Complete()
    ensures Run(Reader(buf), FRESH, buf[5..]) == Run(Js, FRESH, buf[5..])
    ensures Writable(Reader(buf), FRESH, buf[5..], 0, startNs, endNs)
            == Writable(Js, FRESH, buf[5..], 0, startNs, endNs)
  {
    hide Run, Writable, TimestampsFit, Kept;
    var d := buf[5..];
    if Run(Strict, FRESH, d).Complete() {
      StrictRunIsCommon(Js, FRESH, d);
      StrictTimesFit(FRESH, d);
      KeptTimesFit(Run(Strict, FRESH, d).frames, startNs, endNs);
      FittingIsWritable(Strict, FRESH, d, 0, startNs, endNs);
      FittingIsWritable(Js, FRESH, d, 0, startNs, endNs);
    }
  }

  lemma StrictReadsAsJs(buf: bytes)
    ensures HeaderAt(buf) && Run(Strict, FRESH, buf[5..]).Complete() ==>
              Run(Js, FRESH, buf[5..]) == Run(Strict, FRESH, buf[5..])
  {
    hide Run;
    if HeaderAt(buf) && Run(Strict, FRESH, buf[5..]).Complete() { StrictRunIsCommon(Js, FRESH, buf[5..]); }
  }

  /** What the two readers of the input have to do with each other. */
  lemma ReaderIs(buf: bytes, startNs: int, endNs: int)
    requires HeaderAt(buf)
    ensures Reader(buf) == Js || Reader(buf) == Strict
    ensures Run(Js, FRESH, buf[5..]).Complete() <==> Run(Reader(buf), FRESH, buf[5..]).Complete()
    ensures Run(Strict, FRESH, buf[5..]).Complete() ==> Reader(buf) == Strict
    ensures Run(Js, FRESH, buf[5..]).Complete() ==>
              Run(Reader(buf), FRESH, buf[5..]) == Run(Js, FRESH, buf[5..])
              && Writable(Reader(buf), FRESH, buf[5..], 0, startNs, endNs)
                 == Writable(Js, FRESH, buf[5..], 0, startNs, endNs)
  {
    hide Run, Writable;
    StrictReadsAsJs(buf);
    if Run(Js, FRESH, buf[5..]).Complete() { ReaderReads(buf, startNs, endNs); }
  }

  lemma SlicedForJs(full: Outcome, startNs: int, endNs: int, out: bytes, reader: Dialect)
    requires Sliced(reader, full, startNs, endNs, out) && (reader == Js || reader == Strict)
    ensures Sliced(Js, full, startNs, endNs, out) && Holds(Js, full, startNs, endNs, out)
    ensures reader == Strict ==> Holds(Strict, full, startNs, endNs, out)
  {
    hide Sliced, Holds;
    if reader == Strict { StrictSliceIsCommon(Js, full, startNs, endNs, out); }
    SlicedHolds(Js, full, startNs, endNs, out);
    SlicedHolds(Strict, full, startNs, endNs, out);
  }

  /** sliceTrace with absolute bounds; None where it throws. */
  method SliceTrace(buf: bytes, startNs: int, endNs: int) returns (r: Option<bytes>)
    ensures var full := DecodeStream(Js, buf);
            full.Some? && full.value.Complete() ==>
              (r.Some? <==> 1 <= buf[4] <= 127 && Writable(Js, FRESH, buf[5..], 0, startNs, endNs))
              && (r.Some? ==> Sliced(Js, full.value, startNs, endNs, r.value)
                              && Holds(Js, full.value, startNs, endNs, r.value))
    ensures var full := DecodeStream(Strict, buf);
            full.Some? && full.value.Complete() && r.Some? ==>
              Sliced(Strict, full.value, startNs, endNs, r.value) && Holds(Strict, full.value, startNs, endNs, r.value)
    ensures r.Some? ==> HeaderAt(buf) && 1 <= buf[4] <= 127
  {
    hide SliceInv, Run, Sliced, FrameAt, Kept, TimestampsFit, Le, LeVal, Apply, Writable, CanWrite, OutBaseAfter;
    hide Reader, Holds;
    if !HeaderAt(buf) || buf[4] < 1 || buf[4] > 127 { return None; }
    ghost var j := Job(Reader(buf), buf, Run(Reader(buf), FRESH, buf[5..]), startNs, endNs);
    ghost var good := j.full.Complete();
    ghost var writable := Writable(j.dia, FRESH, buf[5..], 0, startNs, endNs);
    ReaderIs(buf, startNs, endNs);
    var schemas: map<nat, Layout>, base: nat, out, outBase: nat, pos := map[], 0, buf[..5], 0, 5;
    ghost var st, o, done, k: nat := FRESH, FRESH, [], 0;
    if good { StartInv(j); }
    while pos < |buf|
      invariant good ==> SliceInv(j, Walk(pos, schemas, base, out, outBase, st, o, done, k))
      invariant good ==>
                  pos <= |buf| && LeftWritable(j, Walk(pos, schemas, base, out, outBase, st, o, done, k)) == writable
      decreases |buf| - pos
    {
      ghost var w := Walk(pos, schemas, base, out, outBase, st, o, done, k);
      var frameStart, tag := pos, buf[pos];
      if HeaderAt(buf[pos..]) {
        if good { HeaderTurn(j, w); WritableBehindHeader(j, w); }
        out := out + buf[pos..pos + 5];
        schemas, base, outBase, pos := map[], 0, 0, pos + 5;
        st, o, k := FRESH, FRESH, k + 1;
      } else {
        if good { LookAtFrame(j, w); WritableTurn(j, w); }
        if tag == SCHEMA_FRAME {
          if good { CopyTurn(j, w); }
          var s :- ScanSchemaFrame(buf, pos, st);
          schemas, pos := schemas[s.0 := s.1], s.2;
          out := out + BufSlice(buf, frameStart, pos);
          if good { st, o, done := Copied(j, w).st, Copied(j, w).o, Copied(j, w).done; }
        } else if tag == EVENT_FRAME {
          var e :- ScanEvent(buf, pos, schemas, base, st);
          var (schema, timestamp, end) := e;
          ghost var f := if good then Here(j, w).value else TimestampReset(0);
          if timestamp.Some? { base := timestamp.value; }
          var keep := true;
          if timestamp.Some? && (timestamp.value < startNs || timestamp.value > endNs) { keep := false; }
          if !keep && AlwaysKept(schema.name) { keep := true; }
          assert good ==> keep == Keeps(f, startNs, endNs);
          if keep && timestamp.Some? {
            var piece := KeepEvent(buf, pos, end, timestamp.value, outBase);
            if piece.None? { return None; }
            if good { EmitTurn(j, w, timestamp.value, piece.value); }
            out, outBase := out + piece.value, timestamp.value;
            st, o := st.(base := timestamp.value), o.(base := timestamp.value);
          } else if keep {
            if good { UntimedTurn(j, w); }
            out := out + BufSlice(buf, pos, end);
          } else {
            if good { DropTurn(j, w); }
            st := st.(base := timestamp.value);
          }
          pos, done := end, done + [f];
        } else if tag == RESET_FRAME {
          if good { ResetTurn(j, w); }
          var lo :- GetLe(buf, pos + 1, 4);
          var hi :- GetLe(buf, pos + 5, 4);
          EightBytes(buf, pos + 1);
          var ts := hi * TWO_TO_THE_32 + lo;
          base, pos := ts, pos + 9;
          st := st.(base := ts);
        } else {
          if good { CopyTurn(j, w); }
          pos :- ScanOther(buf, pos, tag, st);
          out := out + BufSlice(buf, frameStart, pos);
          if good { st, o, done := Copied(j, w).st, Copied(j, w).o, Copied(j, w).done; }
        }
      }
    }
    if good {
      SliceDone(j, Walk(pos, schemas, base, out, outBase, st, o, done, k));
      SlicedForJs(j.full, startNs, endNs, out, j.dia);
    }
    return Some(out);
  }

  // ----- the first timestamp, and relative ranges

  function FirstTimestamp(fs: seq<Frame>): Option<nat> {
    if fs == [] then None
    else if fs[0].Event? && fs[0].timestamp.Some? then fs[0].timestamp
    else FirstTimestamp(fs[1..])
  }

  /** The timestamp of the first timestamped event, wherever it stands. */
  lemma {:induction false} FirstIsFirst(fs: seq<Frame>, i: nat)
    requires i <= |fs| && forall j :: 0 <= j < i ==> !(fs[j].Event? && fs[j].timestamp.Some?)
    requires i < |fs| ==> fs[i].Event? && fs[i].timestamp.Some?
    ensures FirstTimestamp(fs) == if i < |fs| then fs[i].timestamp else None
  {
    if fs != [] && i > 0 { FirstIsFirst(fs[1..], i - 1); }
  }

  lemma {:induction false} FirstTimestampAppend(a: seq<Frame>, b: seq<Frame>)
    ensures FirstTimestamp(a + b) == if FirstTimestamp(a).Some? then FirstTimestamp(a) else FirstTimestamp(b)
  {
    if a == [] {
      assert a + b == b;
    } else {
      FirstTimestampAppend(a[1..], b);
      assert (a + b)[1..] == a[1..] + b;
    }
  }

  /** The scan has passed no timestamped event yet. */
  ghost predicate SearchInv(full: Outcome, buf: bytes, pos: nat, layouts: map<nat, Layout>, base: nat, st: DecState,
                            done: seq<Frame>, k: nat) {
    ReadUpTo(Js, full, buf, pos, st, done, k) && Mirrors(layouts, st.cache) && base == st.base
    && FirstTimestamp(done).None?
  }

  lemma SearchStart(full: Outcome, buf: bytes)
    requires HeaderAt(buf) && full == Run(Js, FRESH, buf[5..]) && full.Complete()
    ensures SearchInv(full, buf, 5, map[], 0, FRESH, [], 0)
  {
    hide Run;
    assert full.Behind([], 0) == full;
  }

  lemma SearchHeader(full: Outcome, buf: bytes, pos: nat, layouts: map<nat, Layout>, base: nat, st: DecState,
                     done: seq<Frame>, k: nat)
    requires SearchInv(full, buf, pos, layouts, base, st, done, k) && HeaderAt(buf[pos..])
    ensures SearchInv(full, buf, pos + 5, map[], 0, FRESH, done, k + 1)
  {
    hide ReadUpTo;
    HeaderStep(Js, full, buf, pos, st, done, k);
  }

  /** The frame at `pos` either is the answer or is passed. */
  lemma SearchFrame(full: Outcome, buf: bytes, pos: nat, layouts: map<nat, Layout>, base: nat, st: DecState,
                    done: seq<Frame>, k: nat)
    requires SearchInv(full, buf, pos, layouts, base, st, done, k) && pos < |buf| && !HeaderAt(buf[pos..])
    ensures var r := FrameAt(Js, buf, pos, st);
            r.Ok? && pos < EndOf(buf, r) <= |buf|
            && (r.value.Event? && r.value.timestamp.Some? ==> FirstTimestamp(full.frames) == r.value.timestamp)
            && (!(r.value.Event? && r.value.timestamp.Some?) ==>
                SearchInv(full, buf, EndOf(buf, r),
                          if r.value.Schema? then layouts[r.value.id := LayoutOf(r.value.entry)] else layouts,
                          Apply(Js, st, r.value).st.base, Apply(Js, st, r.value).st, done + Visible(r.value), k))
  {
    hide ParseFrame, Apply, Run;
    FrameStep(Js, full, buf, pos, st, done, k);
    var r := FrameAt(Js, buf, pos, st);
    MirrorsAfter(Js, layouts, st, r.value);
    FirstTimestampAppend(done, Visible(r.value));
    var tail := Run(Js, Apply(Js, st, r.value).st, buf[EndOf(buf, r)..]).frames;
    FirstTimestampAppend(done + Visible(r.value), tail);
  }

  lemma SearchDone(full: Outcome, buf: bytes, pos: nat, layouts: map<nat, Layout>, base: nat, st: DecState,
                   done: seq<Frame>, k: nat)
    requires SearchInv(full, buf, pos, layouts, base, st, done, k) && pos >= |buf|
    ensures FirstTimestamp(full.frames).None?
  {
    assert buf[pos..] == [];
    EmptyRun(Js, st);
    assert done + [] == done;
  }

  lemma MirrorsHere(full: Outcome, buf: bytes, pos: nat, layouts: map<nat, Layout>, base: nat, st: DecState,
                    done: seq<Frame>, k: nat)
    requires SearchInv(full, buf, pos, layouts, base, st, done, k)
    ensures Mirrors(layouts, st.cache) && base == st.base
  {
  }

  lemma ResetAt(buf: bytes, pos: nat, st: DecState)
    requires pos < |buf| && buf[pos] == RESET_FRAME && FrameAt(Js, buf, pos, st).Ok?
    ensures pos + 9 <= |buf|
    ensures FrameAt(Js, buf, pos, st) == Ok(TimestampReset(LeVal(buf[pos + 1..pos + 9])), buf[pos + 9..])
  {
    LeAt(buf, pos + 1, 8);
    assert buf[pos..][1..] == buf[pos + 1..];
  }

  lemma OtherTagHere(buf: bytes, pos: nat, st: DecState)
    requires pos < |buf| && buf[pos] != EVENT_FRAME && buf[pos] != RESET_FRAME && FrameAt(Js, buf, pos, st).Ok?
    ensures !FrameAt(Js, buf, pos, st).value.Event? && !FrameAt(Js, buf, pos, st).value.TimestampReset?
  {
    hide ParseFrame;
    OtherFramesIgnoreState(Js, st.cache, st.base, st.base, buf[pos..]);
  }

  lemma BaseAfter(st: DecState, f: Frame)
    ensures Apply(Js, st, f).st.base
         == if f.TimestampReset? then f.base else if f.Event? && f.timestamp.Some? then f.timestamp.value else st.base
  {
    hide AddStrings, AddStacks;
  }

  /** findMinTs; None where it throws. It does not look at the first header. */
  method FindMinTs(buf: bytes) returns (r: Option<nat>)
    ensures var full := DecodeStream(Js, buf);
            full.Some? && full.value.Complete() ==> r == FirstTimestamp(full.value.frames)
  {
    hide SearchInv, Run, FrameAt, FirstTimestamp, LeVal, Apply, ParseFields;
    ghost var full := if HeaderAt(buf) then Run(Js, FRESH, buf[5..]) else Outcome([], FRESH, [], Stopped, 0);
    ghost var good := full.Complete();
    var schemas: map<nat, Layout>, base: nat, pos := map[], 0, 5;
    ghost var st, done, k: nat := FRESH, [], 0;
    if good { SearchStart(full, buf); }
    while pos < |buf|
      invariant good ==> SearchInv(full, buf, pos, schemas, base, st, done, k)
      decreases |buf| - pos
    {
      var tag := buf[pos];
      if HeaderAt(buf[pos..]) {
        if good { SearchHeader(full, buf, pos, schemas, base, st, done, k); }
        schemas, base, pos := map[], 0, pos + 5;
        st, k := FRESH, k + 1;
      } else {
        if good {
          SearchFrame(full, buf, pos, schemas, base, st, done, k);
          MirrorsHere(full, buf, pos, schemas, base, st, done, k);
        }
        ghost var frame := if good then FrameAt(Js, buf, pos, st).value else TimestampReset(0);
        if tag == SCHEMA_FRAME {
          var s :- ScanSchemaFrame(buf, pos, st);
          schemas, pos := schemas[s.0 := s.1], s.2;
        } else if tag == EVENT_FRAME {
          var head :- EventHead(buf, pos, schemas, base, st);
          if head.1.Some? { return head.1; }
          pos :- ScanFields(buf, head.2, head.0.fields);
        } else if tag == RESET_FRAME {
          if good { ResetAt(buf, pos, st); }
          var lo :- GetLe(buf, pos + 1, 4);
          var hi :- GetLe(buf, pos + 5, 4);
          EightBytes(buf, pos + 1);
          base, pos := hi * TWO_TO_THE_32 + lo, pos + 9;
        } else {
          if good { OtherTagHere(buf, pos, st); }
          pos :- ScanOther(buf, pos, tag, st);
        }
        BaseAfter(st, frame);
        st, done := Apply(Js, st, frame).st, done + Visible(frame);
      }
    }
    if good { SearchDone(full, buf, pos, schemas, base, st, done, k); }
    return None;
  }

  /** sliceTrace: relative bounds count from the first timestamp. */
  method SliceWith(buf: bytes, startNs: int, endNs: int, relative: bool) returns (r: Option<bytes>)
    ensures var full := DecodeStream(Js, buf);
            full.Some? && full.value.Complete() ==>
              var first := FirstTimestamp(full.value.frames);
              if relative && first.None? then r.None?
              else
                var shift := if relative then first.value else 0;
                (r.Some? <==> 1 <= buf[4] <= 127 && Writable(Js, FRESH, buf[5..], 0, shift + startNs, shift + endNs))
                && (r.Some? ==> Sliced(Js, full.value, shift + startNs, shift + endNs, r.value))
  {
    hide Sliced, Run, FirstTimestamp, Writable;
    var lo, hi := startNs, endNs;
    if relative {
      var minTs :- FindMinTs(buf);
      lo, hi := minTs + startNs, minTs + endNs;
    }
    r := SliceTrace(buf, lo, hi);
  }

  /** Slicing a slice is slicing once by the intersection of the two ranges. */
  lemma SliceTwice(full: Outcome, s1: int, e1: int, once: bytes, s2: int, e2: int, twice: bytes, direct: bytes)
    requires Sliced(Js, full, s1, e1, once) && Sliced(Js, DecodeStream(Js, once).value, s2, e2, twice)
    requires Sliced(Js, full, if s1 < s2 then s2 else s1, if e1 < e2 then e1 else e2, direct)
    ensures DecodeStream(Js, twice).value.frames == DecodeStream(Js, direct).value.frames
    ensures SameButBase(DecodeStream(Js, twice).value.st, DecodeStream(Js, direct).value.st)
  {
    hide Run, Kept;
    KeptTwice(full.frames, s1, e1, s2, e2);
  }
}
