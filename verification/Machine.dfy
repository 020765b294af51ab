/** The decoder as a state machine: one step reads one frame or one mid-stream header. */
module Machine {
  import opened Bytes
  import opened Values
  import opened Frames
  import Utf8

  /** What a decoder remembers. `registry` and `cache` are the Rust decoder's two copies
      of the schemas; decode.js has one, kept in both. */
  datatype DecState = DecState(
    registry: map<nat, SchemaEntry>,
    cache: map<nat, SchemaEntry>,
    strings: map<nat, bytes>,
    stacks: map<nat, seq<u64>>,
    base: nat)

  const FRESH := DecState(map[], map[], map[], map[], 0)

  /** A state after a frame, and whether the decoder accepted the frame. */
  datatype Applied = Applied(accepted: bool, st: DecState)

  // ----- what a frame does to the state

  /** String pools. Rust leaves out what is not UTF-8; the encoder promises valid text
      that was not pooled before, under a fresh id. */
  function AddStrings(dia: Dialect, m: map<nat, bytes>, es: seq<PoolEntry>): Option<map<nat, bytes>>
    decreases es
  {
    if es == [] then Some(m)
    else if dia == Strict && (!Utf8.Valid(es[0].data) || es[0].id in m || es[0].data in m.Values) then None
    else AddStrings(dia, if dia == Js || Utf8.Valid(es[0].data) then m[es[0].id := es[0].data] else m, es[1..])
  }

  function AddStacks(dia: Dialect, m: map<nat, seq<u64>>, es: seq<StackEntry>): Option<map<nat, seq<u64>>>
    decreases es
  {
    if es == [] then Some(m)
    else if dia == Strict && (es[0].id in m || es[0].frames in m.Values) then None
    else AddStacks(dia, m[es[0].id := es[0].frames], es[1..])
  }

  /** register_schema: the cache is overwritten first, then the registry compares. */
  function AddSchema(dia: Dialect, st: DecState, id: nat, e: SchemaEntry): Applied {
    var cached := st.(cache := st.cache[id := e]);
    if dia == Js then Applied(true, cached.(registry := st.registry[id := e]))
    else if id !in st.registry then Applied(true, cached.(registry := st.registry[id := e]))
    else Applied(dia != Strict && st.registry[id] == e, cached)
  }

  function Annotate(dia: Dialect, m: map<nat, SchemaEntry>, id: nat, xs: seq<Annotation>): map<nat, SchemaEntry> {
    if id !in m then m
    else m[id := m[id].(annotations := if dia == Js then xs else m[id].annotations + xs)]
  }

  function Apply(dia: Dialect, st: DecState, f: Frame): Applied {
    match f
    case Schema(id, e) => AddSchema(dia, st, id, e)
    case Event(_, _, ts, _) => Applied(true, if ts.Some? then st.(base := ts.value) else st)
    case StringPool(es) =>
      var m := AddStrings(dia, st.strings, es);
      if m.None? then Applied(false, st) else Applied(true, st.(strings := m.value))
    case StackPool(es) =>
      var m := AddStacks(dia, st.stacks, es);
      if m.None? then Applied(false, st) else Applied(true, st.(stacks := m.value))
    case TimestampReset(ts) => Applied(true, st.(base := ts))
    case Annotations(id, xs) =>
      Applied(dia != Strict || (id in st.registry && st.registry[id].annotations == []),
              st.(cache := Annotate(dia, st.cache, id, xs), registry := Annotate(dia, st.registry, id, xs)))
  }

  // ----- steps and runs

  /** decode_header: the version byte is read but not looked at. */
  predicate HeaderAt(d: bytes) {
    |d| >= 5 && d[..4] == MAGIC
  }

  datatype StepResult =
    | Done
    | Stuck
    | Broken(at: DecState, left: bytes)
    | Go(out: seq<Frame>, st: DecState, rest: bytes)

  /** Resets are consumed silently; every other frame is given to the caller. */
  function Visible(f: Frame): seq<Frame> {
    if f.TimestampReset? then [] else [f]
  }

  function Step(dia: Dialect, st: DecState, d: bytes): StepResult {
    if d == [] then Done
    else if HeaderAt(d) then Go([], FRESH, d[5..])
    else
      var r := ParseFrame(dia, st.cache, st.base, d);
      if r.Fail? then Stuck else
        var a := Apply(dia, st, r.value);
        if a.accepted then Go(Visible(r.value), a.st, r.rest) else Broken(a.st, r.rest)
  }

  datatype Ending = Finished | Stopped | Failed

  /** A whole run: the frames given out, the state and the input left at its end, and the
      number of mid-stream headers it passed. */
  datatype Outcome = Outcome(frames: seq<Frame>, st: DecState, rest: bytes, ending: Ending, restarts: nat) {
    predicate Complete() { ending.Finished? }

    function Behind(out: seq<Frame>, headers: nat): Outcome {
      Outcome(out + frames, st, rest, ending, headers + restarts)
    }
  }

  function Run(dia: Dialect, st: DecState, d: bytes): Outcome
    decreases |d|
  {
    match Step(dia, st, d)
    case Done => Outcome([], st, d, Finished, 0)
    case Stuck => Outcome([], st, d, Stopped, 0)
    case Broken(at, left) => Outcome([], at, left, Failed, 0)
    case Go(out, st', r) =>
      StepLocal(dia, st, d, []);
      Run(dia, st', r).Behind(out, if HeaderAt(d) then 1 else 0)
  }

  /** Decoder::new and decode_all. */
  function DecodeStream(dia: Dialect, d: bytes): Option<Outcome> {
    if HeaderAt(d) then Some(Run(dia, FRESH, d[5..])) else None
  }

  lemma HeaderLocal(d: bytes, s: bytes)
    requires HeaderAt(d)
    ensures Tail(d[5..], d) && Used(d, d[5..]) == d[..5] && HeaderAt(d[..5] + s) && (d[..5] + s)[5..] == s
  {
    assert (d[..5] + s)[..4] == d[..4];
  }

  /** A frame never begins with the header's first byte. */
  lemma FrameIsNoHeader(dia: Dialect, st: DecState, d: bytes)
    ensures ParseFrame(dia, st.cache, st.base, d).Ok? ==> d != [] && d[0] != MAGIC[0] && !HeaderAt(d)
  {
    hide ParseSchema, ParseEvent, ParseStringPool, ParseStackPool, ParseReset, ParseAnnotations;
    if HeaderAt(d) { assert d[0] == d[..4][0]; }
  }

  /** A step is decided by the bytes it reads. */
  lemma StepLocal(dia: Dialect, st: DecState, d: bytes, s: bytes)
    ensures var r := Step(dia, st, d);
            r.Go? ==> |r.rest| < |d| && Tail(r.rest, d)
                      && Step(dia, st, Used(d, r.rest) + s) == Go(r.out, r.st, s)
                      && HeaderAt(Used(d, r.rest) + s) == HeaderAt(d)
  {
    hide ParseFrame, Apply;
    if HeaderAt(d) {
      HeaderLocal(d, s);
    } else if d != [] {
      ParseFrameLocal(dia, st.cache, st.base, d, s);
      var r := ParseFrame(dia, st.cache, st.base, d);
      if r.Ok? { FrameIsNoHeader(dia, st, Used(d, r.rest) + s); }
    }
  }

  /** One step of a run, the bytes of the step given apart. */
  lemma RunGo(dia: Dialect, st: DecState, d: bytes, s: bytes)
    requires Step(dia, st, d).Go? && Tail(Step(dia, st, d).rest, d)
    ensures var r := Step(dia, st, d);
            Run(dia, st, Used(d, r.rest) + s) == Run(dia, r.st, s).Behind(r.out, if HeaderAt(d) then 1 else 0)
  {
    hide Step;
    StepLocal(dia, st, d, s);
  }

  lemma BehindBehind(o: Outcome, out1: seq<Frame>, n1: nat, out2: seq<Frame>, n2: nat)
    ensures o.Behind(out2, n2).Behind(out1, n1) == o.Behind(out1 + out2, n1 + n2)
  {
    assert out1 + (out2 + o.frames) == out1 + out2 + o.frames;
  }

  /** Decoding a completely decodable prefix and then the rest is decoding the whole. */
  lemma {:induction false} RunConcat(dia: Dialect, st: DecState, a: bytes, b: bytes)
    requires Run(dia, st, a).Complete()
    ensures var o := Run(dia, st, a); Run(dia, st, a + b) == Run(dia, o.st, b).Behind(o.frames, o.restarts)
    decreases |a|
  {
    hide Step, HeaderAt;
    var r := Step(dia, st, a);
    if a == [] {
      assert a + b == b;
      EmptyRun(dia, st);
      assert Run(dia, st, b).Behind([], 0) == Run(dia, st, b);
    } else {
      NotDone(dia, st, a);
      StepLocal(dia, st, a, []);
      var n := if HeaderAt(a) then 1 else 0;
      var o := Run(dia, r.st, r.rest);
      RunConcat(dia, r.st, r.rest, b);
      assert a + b == Used(a, r.rest) + (r.rest + b);
      RunGo(dia, st, a, r.rest + b);
      BehindBehind(Run(dia, o.st, b), r.out, n, o.frames, o.restarts);
    }
  }

  lemma EmptyRun(dia: Dialect, st: DecState)
    ensures Run(dia, st, []) == Outcome([], st, [], Finished, 0)
  {
  }

  lemma NotDone(dia: Dialect, st: DecState, d: bytes)
    requires d != []
    ensures !Step(dia, st, d).Done?
  {
  }

  lemma HeaderRun(dia: Dialect, st: DecState, d: bytes)
    requires HeaderAt(d)
    ensures Run(dia, st, d) == Run(dia, FRESH, d[5..]).Behind([], 1)
  {
    assert Step(dia, st, d) == Go([], FRESH, d[5..]);
  }

  /** Concatenation is a homomorphism: after a completely decodable stream, a second
      stream decodes as it does alone, and its state is the final one. */
  lemma Concatenation(dia: Dialect, a: bytes, b: bytes)
    requires DecodeStream(dia, a).Some? && DecodeStream(dia, a).value.Complete() && HeaderAt(b)
    ensures var oa, ob := DecodeStream(dia, a).value, DecodeStream(dia, b).value;
            DecodeStream(dia, a + b) == Some(ob.Behind(oa.frames, oa.restarts + 1))
  {
    hide Run;
    var oa, ob := DecodeStream(dia, a).value, DecodeStream(dia, b).value;
    HeaderLocal(a, a[5..] + b);
    assert a + b == a[..5] + (a[5..] + b);
    RunConcat(dia, FRESH, a[5..], b);
    HeaderRun(dia, oa.st, b);
    BehindBehind(ob, oa.frames, oa.restarts, [], 1);
    assert oa.frames + [] == oa.frames;
  }

  // ----- what every decoder agrees on

  predicate Synced(st: DecState) {
    st.cache == st.registry
  }

  lemma {:induction false} StrictStringsAreCommon(dia: Dialect, m: map<nat, bytes>, es: seq<PoolEntry>)
    ensures AddStrings(Strict, m, es).Some? ==> AddStrings(dia, m, es) == AddStrings(Strict, m, es)
    decreases es
  {
    if es != [] && AddStrings(Strict, m, es).Some? { StrictStringsAreCommon(dia, m[es[0].id := es[0].data], es[1..]); }
  }

  lemma {:induction false} StrictStacksAreCommon(dia: Dialect, m: map<nat, seq<u64>>, es: seq<StackEntry>)
    ensures AddStacks(Strict, m, es).Some? ==> AddStacks(dia, m, es) == AddStacks(Strict, m, es)
    decreases es
  {
    if es != [] && AddStacks(Strict, m, es).Some? { StrictStacksAreCommon(dia, m[es[0].id := es[0].frames], es[1..]); }
  }

  lemma StrictApplyIsCommon(dia: Dialect, st: DecState, f: Frame)
    requires Synced(st) && Apply(Strict, st, f).accepted
    ensures Apply(dia, st, f) == Apply(Strict, st, f) && Synced(Apply(Strict, st, f).st)
  {
    match f {
      case StringPool(es) => StrictStringsAreCommon(dia, st.strings, es);
      case StackPool(es) => StrictStacksAreCommon(dia, st.stacks, es);
      case Annotations(id, xs) => assert st.registry[id].annotations + xs == xs;
      case _ =>
    }
  }

  /** A stream within the encoder's promises decodes to the same frames and the same
      final state in both Rust decoders and in decode.js. */
  lemma {:induction false} StrictRunIsCommon(dia: Dialect, st: DecState, d: bytes)
    requires Synced(st) && Run(Strict, st, d).Complete()
    ensures Run(dia, st, d) == Run(Strict, st, d) && Synced(Run(Strict, st, d).st)
    decreases |d|
  {
    hide ParseFrame, Apply;
    var r := Step(Strict, st, d);
    if d != [] {
      StepLocal(Strict, st, d, []);
      if !HeaderAt(d) {
        StrictFrameIsCommon(dia, st.cache, st.base, d);
        StrictApplyIsCommon(dia, st, ParseFrame(Strict, st.cache, st.base, d).value);
      }
      StrictRunIsCommon(dia, r.st, r.rest);
    }
  }

  predicate AllTextsValid(fs: seq<Frame>) {
    forall i :: 0 <= i < |fs| ==> FrameTextsValid(fs[i])
  }

  /** The zero-copy decoder reads a stream to its end exactly when the owned one does and
      every text payload is UTF-8, and then with the same frames and the same state. */
  lemma {:induction false} RefRunIsOwnedRun(st: DecState, d: bytes)
    ensures Run(Ref, st, d).Complete() <==> Run(Owned, st, d).Complete() && AllTextsValid(Run(Owned, st, d).frames)
    ensures Run(Ref, st, d).Complete() ==> Run(Ref, st, d) == Run(Owned, st, d)
    decreases |d|
  {
    hide ParseFrame, Apply, FrameTextsValid;
    if d != [] {
      SameApply(st, d);
      var r := Step(Owned, st, d);
      if r.Go? {
        StepLocal(Owned, st, d, []);
        RefRunIsOwnedRun(r.st, r.rest);
        var tail := Run(Owned, r.st, r.rest).frames;
        assert forall i :: 0 <= i < |tail| ==> (r.out + tail)[i + |r.out|] == tail[i];
        assert forall i :: 0 <= i < |r.out| ==> (r.out + tail)[i] == r.out[i];
      }
    }
  }

  lemma SameApply(st: DecState, d: bytes)
    requires d != []
    ensures var o := Step(Owned, st, d);
            Step(Ref, st, d) == o || (Step(Ref, st, d).Stuck? && o.Go? && !AllTextsValid(o.out))
    ensures var o := Step(Owned, st, d); Step(Ref, st, d) == o && o.Go? ==> AllTextsValid(o.out)
  {
    hide ParseFrame, AddStrings, AddStacks, AddSchema, Annotate;
    var o := ParseFrame(Owned, st.cache, st.base, d);
    RefFrameIsOwnedFrame(st.cache, st.base, d);
    if !HeaderAt(d) && o.Ok? {
      SameAdds(st, o.value);
      assert Visible(o.value) == [] || Visible(o.value)[0] == o.value;
    }
  }

  lemma {:induction false} SameStrings(m: map<nat, bytes>, es: seq<PoolEntry>)
    ensures AddStrings(Ref, m, es) == AddStrings(Owned, m, es)
    decreases es
  {
    if es != [] { SameStrings(if Utf8.Valid(es[0].data) then m[es[0].id := es[0].data] else m, es[1..]); }
  }

  lemma {:induction false} SameStacks(m: map<nat, seq<u64>>, es: seq<StackEntry>)
    ensures AddStacks(Ref, m, es) == AddStacks(Owned, m, es)
    decreases es
  {
    if es != [] { SameStacks(m[es[0].id := es[0].frames], es[1..]); }
  }

  lemma SameAdds(st: DecState, f: Frame)
    ensures Apply(Ref, st, f) == Apply(Owned, st, f)
    ensures f.Event? ==> Apply(Owned, st, f).accepted
  {
    match f {
      case StringPool(es) => SameStrings(st.strings, es);
      case StackPool(es) => SameStacks(st.stacks, es);
      case _ =>
    }
  }

  lemma {:induction false} JsAddsStrings(m: map<nat, bytes>, es: seq<PoolEntry>)
    ensures AddStrings(Js, m, es).Some?
    decreases es
  {
    if es != [] { JsAddsStrings(m[es[0].id := es[0].data], es[1..]); }
  }

  lemma {:induction false} JsAddsStacks(m: map<nat, seq<u64>>, es: seq<StackEntry>)
    ensures AddStacks(Js, m, es).Some?
    decreases es
  {
    if es != [] { JsAddsStacks(m[es[0].id := es[0].frames], es[1..]); }
  }

  /** decode.js refuses no frame that it can parse. */
  lemma JsAccepts(o: DecState, f: Frame)
    ensures Apply(Js, o, f).accepted
  {
    match f {
      case StringPool(es) => JsAddsStrings(o.strings, es);
      case StackPool(es) => JsAddsStacks(o.stacks, es);
      case _ =>
    }
  }

  /** A run that ends well has read everything. */
  lemma {:induction false} CompleteLeavesNothing(dia: Dialect, st: DecState, d: bytes)
    ensures Run(dia, st, d).Complete() ==> Run(dia, st, d).rest == []
    decreases |d|
  {
    hide ParseFrame, Apply;
    var s := Step(dia, st, d);
    if s.Go? {
      StepLocal(dia, st, d, []);
      CompleteLeavesNothing(dia, s.st, s.rest);
    }
  }

  // ----- discipline of a strict stream

  /** Every event's id was declared before it, and no id is declared twice. */
  predicate DeclaredOnce(fs: seq<Frame>, known: set<nat>) {
    if fs == [] then true
    else match fs[0]
      case Schema(id, _) => id !in known && DeclaredOnce(fs[1..], known + {id})
      case Event(id, _, _, _) => id in known && DeclaredOnce(fs[1..], known)
      case _ => DeclaredOnce(fs[1..], known)
  }

  lemma RegistryAfter(st: DecState, f: Frame)
    requires Synced(st) && Apply(Strict, st, f).accepted
    ensures Apply(Strict, st, f).st.registry.Keys == if f.Schema? then st.registry.Keys + {f.id} else st.registry.Keys
    ensures f.Schema? ==> f.id !in st.registry
  {
    hide AddStrings, AddStacks;
  }

  /** Between two headers every event's id was declared by exactly one schema frame. */
  lemma {:induction false} StrictRunDeclaresOnce(st: DecState, d: bytes)
    requires Synced(st) && Run(Strict, st, d).Complete() && Run(Strict, st, d).restarts == 0
    ensures DeclaredOnce(Run(Strict, st, d).frames, st.registry.Keys)
    decreases |d|
  {
    hide ParseFrame, Apply;
    if d != [] {
      var r := Step(Strict, st, d);
      StepLocal(Strict, st, d, []);
      assert !HeaderAt(d);
      var f := ParseFrame(Strict, st.cache, st.base, d).value;
      StrictApplyIsCommon(Strict, st, f);
      EventIsDeclared(st.cache, st.base, d);
      RegistryAfter(st, f);
      StrictRunDeclaresOnce(r.st, r.rest);
      var tail := Run(Strict, r.st, r.rest).frames;
      if f.TimestampReset? { assert r.out + tail == tail; }
      else { assert (r.out + tail)[0] == f && (r.out + tail)[1..] == tail; }
    }
  }

  lemma EventIsDeclared(schemas: map<nat, SchemaEntry>, base: nat, d: bytes)
    ensures var r := ParseFrame(Strict, schemas, base, d); r.Ok? && r.value.Event? ==> r.value.typeId in schemas
  {
    hide ParseEntry, ParseFields, ParseTimestamp, Rep, ParseAnnotationList;
  }

  // ----- pools

  /** The entries of the string pool frames, in order. */
  function PooledStrings(fs: seq<Frame>): seq<(nat, bytes)> {
    if fs == [] then []
    else if fs[0].StringPool? then StringPairs(fs[0].strings) + PooledStrings(fs[1..])
    else PooledStrings(fs[1..])
  }

  function StringPairs(es: seq<PoolEntry>): seq<(nat, bytes)> {
    seq(|es|, i requires 0 <= i < |es| => (es[i].id, es[i].data))
  }

  function PooledStacks(fs: seq<Frame>): seq<(nat, seq<u64>)> {
    if fs == [] then []
    else if fs[0].StackPool? then StackPairs(fs[0].stacks) + PooledStacks(fs[1..])
    else PooledStacks(fs[1..])
  }

  function StackPairs(es: seq<StackEntry>): seq<(nat, seq<u64>)> {
    seq(|es|, i requires 0 <= i < |es| => (es[i].id, es[i].frames))
  }

  /** `after` is `before` with the entries added one by one, each under an id and with a
      content that were not there. */
  ghost predicate Grows<T>(before: map<nat, T>, es: seq<(nat, T)>, after: map<nat, T>)
    decreases es
  {
    if es == [] then after == before
    else es[0].0 !in before && es[0].1 !in before.Values && Grows(before[es[0].0 := es[0].1], es[1..], after)
  }

  lemma {:induction false} GrowsAppend<T>(m: map<nat, T>, a: seq<(nat, T)>, m1: map<nat, T>, b: seq<(nat, T)>,
                                          m2: map<nat, T>)
    requires Grows(m, a, m1) && Grows(m1, b, m2)
    ensures Grows(m, a + b, m2)
    decreases a
  {
    if a == [] {
      assert a + b == b;
    } else {
      GrowsAppend(m[a[0].0 := a[0].1], a[1..], m1, b, m2);
      assert (a + b)[1..] == a[1..] + b;
    }
  }

  /** In a growing pool nothing is emitted twice, nothing is ever rebound, and every id
      resolves to its content from then on. */
  lemma {:induction false} GrowsOnce<T>(m: map<nat, T>, es: seq<(nat, T)>, m': map<nat, T>)
    requires Grows(m, es, m')
    ensures forall id :: id in m ==> id in m' && m'[id] == m[id]
    ensures forall i :: 0 <= i < |es| ==> es[i].0 !in m && es[i].1 !in m.Values
    ensures forall i :: 0 <= i < |es| ==> es[i].0 in m' && m'[es[i].0] == es[i].1
    ensures forall i, j :: 0 <= i < j < |es| ==> es[i].0 != es[j].0 && es[i].1 != es[j].1
    decreases es
  {
    if es != [] {
      var n := m[es[0].0 := es[0].1];
      GrowsOnce(n, es[1..], m');
      assert es[0].0 in n && n[es[0].0] == es[0].1;
      assert es[0].1 in n.Values;
      assert forall v :: v in m.Values ==> v in n.Values by {
        forall v | v in m.Values ensures v in n.Values {
          var k :| k in m && m[k] == v;
          assert n[k] == v;
        }
      }
      forall i | 0 <= i < |es|
        ensures es[i].0 !in m && es[i].1 !in m.Values && es[i].0 in m' && m'[es[i].0] == es[i].1
      {
        if i > 0 { assert es[i] == es[1..][i - 1]; }
      }
      forall i, j | 0 <= i < j < |es| ensures es[i].0 != es[j].0 && es[i].1 != es[j].1 {
        assert es[j] == es[1..][j - 1];
        if i > 0 { assert es[i] == es[1..][i - 1]; }
      }
    }
  }

  lemma {:induction false} AddStringsGrows(m: map<nat, bytes>, es: seq<PoolEntry>)
    requires AddStrings(Strict, m, es).Some?
    ensures Grows(m, StringPairs(es), AddStrings(Strict, m, es).value)
    decreases es
  {
    if es != [] {
      AddStringsGrows(m[es[0].id := es[0].data], es[1..]);
      assert StringPairs(es)[1..] == StringPairs(es[1..]);
    }
  }

  lemma {:induction false} AddStacksGrows(m: map<nat, seq<u64>>, es: seq<StackEntry>)
    requires AddStacks(Strict, m, es).Some?
    ensures Grows(m, StackPairs(es), AddStacks(Strict, m, es).value)
    decreases es
  {
    if es != [] {
      AddStacksGrows(m[es[0].id := es[0].frames], es[1..]);
      assert StackPairs(es)[1..] == StackPairs(es[1..]);
    }
  }

  lemma FrameGrows(st: DecState, f: Frame)
    requires Apply(Strict, st, f).accepted
    ensures Grows(st.strings, PooledStrings(Visible(f)), Apply(Strict, st, f).st.strings)
    ensures Grows(st.stacks, PooledStacks(Visible(f)), Apply(Strict, st, f).st.stacks)
  {
    hide Annotate;
    match f {
      case StringPool(es) =>
        AddStringsGrows(st.strings, es);
        assert [f][1..] == [] && StringPairs(es) + [] == StringPairs(es);
      case StackPool(es) =>
        AddStacksGrows(st.stacks, es);
        assert [f][1..] == [] && StackPairs(es) + [] == StackPairs(es);
      case _ =>
    }
  }

  lemma PooledOfOne(out: seq<Frame>, tail: seq<Frame>)
    requires |out| <= 1
    ensures PooledStrings(out + tail) == PooledStrings(out) + PooledStrings(tail)
    ensures PooledStacks(out + tail) == PooledStacks(out) + PooledStacks(tail)
  {
    if out == [] {
      assert out + tail == tail;
    } else {
      assert (out + tail)[1..] == tail && out[1..] == [];
    }
  }

  /** Between two headers a strict stream pools every string and every stack at most
      once, each under its own id. */
  lemma {:induction false} StrictRunGrowsPools(st: DecState, d: bytes)
    requires Run(Strict, st, d).Complete() && Run(Strict, st, d).restarts == 0
    ensures var o := Run(Strict, st, d);
            Grows(st.strings, PooledStrings(o.frames), o.st.strings)
            && Grows(st.stacks, PooledStacks(o.frames), o.st.stacks)
    decreases |d|
  {
    hide ParseFrame, Apply, Grows;
    if d == [] {
      EmptyGrowth(st);
    } else {
      var r := Step(Strict, st, d);
      StepLocal(Strict, st, d, []);
      var f := ParseFrame(Strict, st.cache, st.base, d).value;
      FrameGrows(st, f);
      StrictRunGrowsPools(r.st, r.rest);
      var o := Run(Strict, r.st, r.rest);
      PooledOfOne(r.out, o.frames);
      GrowsAppend(st.strings, PooledStrings(r.out), r.st.strings, PooledStrings(o.frames), o.st.strings);
      GrowsAppend(st.stacks, PooledStacks(r.out), r.st.stacks, PooledStacks(o.frames), o.st.stacks);
    }
  }

  lemma EmptyGrowth(st: DecState)
    ensures Grows(st.strings, PooledStrings([]), st.strings) && Grows(st.stacks, PooledStacks([]), st.stacks)
  {
  }
}
