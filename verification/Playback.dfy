/** Decoding what was written, frame by frame: on encoder output the byte-level machine
    does what a machine on whole frames does. */
module Playback {
  import opened Bytes
  import opened Values
  import opened Frames
  import opened Machine

  /** Frames given out and the state after. */
  datatype Played = Played(frames: seq<Frame>, st: DecState)

  /** An event reads back under the schema its id has: same field types, a timestamp. */
  predicate EventReadable(st: DecState, w: Wire)
    requires w.WireEvent?
  {
    w.typeId in st.cache && st.cache[w.typeId].hasTimestamp && Tags(st.cache[w.typeId].fields) == w.tags
    && st.base + w.delta < TWO_TO_THE_64
  }

  function Accept(st: DecState, f: Frame): Option<Played> {
    var a := Apply(Strict, st, f);
    if a.accepted then Some(Played(Visible(f), a.st)) else None
  }

  /** What a decoder in state `st` makes of one wire frame; None if the frame breaks one
      of the encoder's promises. */
  function Play(st: DecState, w: Wire): Option<Played> {
    if w.WireHeader? then Some(Played([], FRESH))
    else if !WireFits(w) then None
    else if !w.WireEvent? then Accept(st, Meaning(w))
    else if !EventReadable(st, w) then None
    else Accept(st, Event(w.typeId, st.cache[w.typeId].name, Some(st.base + w.delta), w.values))
  }

  function PlayAll(st: DecState, ws: seq<Wire>): Option<Played>
    decreases ws
  {
    if ws == [] then Some(Played([], st)) else
      var p := Play(st, ws[0]);
      if p.None? then None else Behind(p.value.frames, PlayAll(p.value.st, ws[1..]))
  }

  function Behind(out: seq<Frame>, q: Option<Played>): Option<Played> {
    if q.None? then None else Some(Played(out + q.value.frames, q.value.st))
  }

  lemma BehindTwice(a: seq<Frame>, b: seq<Frame>, q: Option<Played>)
    ensures Behind(a, Behind(b, q)) == Behind(a + b, q) && Behind([], q) == q
  {
    if q.Some? {
      assert a + (b + q.value.frames) == a + b + q.value.frames && [] + q.value.frames == q.value.frames;
    }
  }

  function EncodeWires(ws: seq<Wire>): bytes {
    if ws == [] then [] else EncodeWire(ws[0]) + EncodeWires(ws[1..])
  }

  function Headers(ws: seq<Wire>): nat {
    if ws == [] then 0 else (if ws[0].WireHeader? then 1 else 0) + Headers(ws[1..])
  }

  lemma {:induction false} EncodeWiresAppend(a: seq<Wire>, b: seq<Wire>)
    ensures EncodeWires(a + b) == EncodeWires(a) + EncodeWires(b) && Headers(a + b) == Headers(a) + Headers(b)
  {
    hide EncodeWire;
    if a == [] {
      assert a + b == b;
    } else {
      EncodeWiresAppend(a[1..], b);
      assert (a + b)[1..] == a[1..] + b && (a + b)[0] == a[0];
      Assoc(EncodeWire(a[0]), EncodeWires(a[1..]), EncodeWires(b));
    }
  }

  lemma {:induction false} PlayAllAppend(st: DecState, a: seq<Wire>, b: seq<Wire>)
    requires PlayAll(st, a).Some?
    ensures var p := PlayAll(st, a).value; PlayAll(st, a + b) == Behind(p.frames, PlayAll(p.st, b))
    decreases a
  {
    hide Play, Behind;
    if a == [] {
      assert a + b == b;
      BehindTwice([], [], PlayAll(st, b));
    } else {
      var first := Play(st, a[0]).value;
      SplitFirst(first.frames, PlayAll(first.st, a[1..]));
      PlayAllAppend(first.st, a[1..], b);
      assert (a + b)[1..] == a[1..] + b;
      var p := PlayAll(first.st, a[1..]).value;
      BehindTwice(first.frames, p.frames, PlayAll(p.st, b));
    }
  }

  lemma SplitFirst(out: seq<Frame>, q: Option<Played>)
    requires Behind(out, q).Some?
    ensures q.Some? && Behind(out, q).value == Played(out + q.value.frames, q.value.st)
  {
  }

  lemma StepReads(st: DecState, w: Wire, f: Frame, s: bytes)
    requires ParseFrame(Strict, st.cache, st.base, EncodeWire(w) + s) == Ok(f, s)
    ensures var p := Accept(st, f);
            p.Some? ==>
              Step(Strict, st, EncodeWire(w) + s) == Go(p.value.frames, p.value.st, s) && !HeaderAt(EncodeWire(w) + s)
  {
    hide ParseFrame, EncodeWire, Apply;
    FrameIsNoHeader(Strict, st, EncodeWire(w) + s);
  }

  lemma PlayIsStep(st: DecState, w: Wire, s: bytes)
    requires Play(st, w).Some?
    ensures var p := Play(st, w).value;
            Step(Strict, st, EncodeWire(w) + s) == Go(p.frames, p.st, s)
            && HeaderAt(EncodeWire(w) + s) == w.WireHeader?
  {
    hide ParseFrame, EncodeWire, Apply, WireFits, Meaning;
    if w.WireHeader? {
      HeaderReads(s);
    } else if w.WireEvent? {
      EventFits(w);
      EventOf(st.cache, st.base, w, s);
      StepReads(st, w, Event(w.typeId, st.cache[w.typeId].name, Some(st.base + w.delta), w.values), s);
    } else {
      FrameOf(st.cache, st.base, w, s);
      StepReads(st, w, Meaning(w), s);
    }
  }

  lemma EventFits(w: Wire)
    requires w.WireEvent? && WireFits(w)
    ensures w.delta <= MAX_DELTA
  {
  }

  lemma HeaderReads(s: bytes)
    ensures HeaderAt(EncodeWire(WireHeader) + s) && (EncodeWire(WireHeader) + s)[5..] == s
    ensures EncodeWire(WireHeader) + s != []
  {
    assert (HEADER + s)[..4] == MAGIC;
  }

  /** The bytes of frames that can be played are decoded completely, to those frames and
      that state, by the strict decoder. */
  lemma {:induction false} PlayedBytesDecode(st: DecState, ws: seq<Wire>)
    requires PlayAll(st, ws).Some?
    ensures var p := PlayAll(st, ws).value;
            Run(Strict, st, EncodeWires(ws)) == Outcome(p.frames, p.st, [], Finished, Headers(ws))
    decreases ws
  {
    hide Play, Step, EncodeWire, HeaderAt;
    if ws == [] {
      EmptyRun(Strict, st);
    } else {
      var p := Play(st, ws[0]).value;
      var s := EncodeWires(ws[1..]);
      PlayIsStep(st, ws[0], s);
      PlayedBytesDecode(p.st, ws[1..]);
      assert EncodeWires(ws) == EncodeWire(ws[0]) + s;
      RunOfGo(st, EncodeWires(ws), p.frames, p.st, s);
    }
  }

  lemma RunOfGo(st: DecState, d: bytes, out: seq<Frame>, st': DecState, r: bytes)
    requires Step(Strict, st, d) == Go(out, st', r)
    ensures Run(Strict, st, d) == Run(Strict, st', r).Behind(out, if HeaderAt(d) then 1 else 0)
  {
    hide Step;
  }
}
