/** What a decoder remembers, told from the frames it gave out. On any stream, whoever wrote
    it and however often an id stands in it: the pools hold what was pooled last, a schema
    what was declared and annotated. */
module History {
  import opened Bytes
  import opened Values
  import opened Frames
  import opened Machine
  import Utf8

  // ----- pools

  /** The last place of an id among pairs, -1 if there is none. */
  function LastAt<T>(ps: seq<(nat, T)>, id: nat): (k: int)
    ensures -1 <= k < |ps| && (k >= 0 ==> ps[k].0 == id)
    ensures forall j :: k < j < |ps| ==> ps[j].0 != id
  {
    if ps == [] then -1 else
      var k := LastAt(ps[1..], id);
      assert forall j :: 0 < j < |ps| ==> ps[j] == ps[1..][j - 1];
      if k >= 0 then k + 1 else if ps[0].0 == id then 0 else -1
  }

  /** `m'` is `m` overwritten by the pairs, the last one of an id winning. */
  ghost predicate LastWins<T(!new)>(m: map<nat, T>, ps: seq<(nat, T)>, m': map<nat, T>) {
    forall id: nat :: AsPooled(m, ps, m', id)
  }

  predicate AsPooled<T(==)>(m: map<nat, T>, ps: seq<(nat, T)>, m': map<nat, T>, id: nat) {
    var k := LastAt(ps, id);
    if k >= 0 then id in m' && m'[id] == ps[k].1
    else (id in m' <==> id in m) && (id in m ==> m'[id] == m[id])
  }

  lemma LastOfBoth<T>(a: seq<(nat, T)>, b: seq<(nat, T)>, id: nat)
    ensures LastAt(a + b, id) == if LastAt(b, id) >= 0 then |a| + LastAt(b, id) else LastAt(a, id)
  {
    var k := LastAt(b, id);
    var both := LastAt(a + b, id);
    if k >= 0 {
      assert (a + b)[|a| + k] == b[k];
    } else {
      assert forall j :: |a| <= j < |a + b| ==> (a + b)[j] == b[j - |a|];
      if LastAt(a, id) >= 0 { assert (a + b)[LastAt(a, id)] == a[LastAt(a, id)]; }
    }
    if both >= |a| { assert (a + b)[both] == b[both - |a|]; }
    else if both >= 0 { assert (a + b)[both] == a[both]; }
  }

  lemma LastWinsAppend<T(!new)>(m: map<nat, T>, a: seq<(nat, T)>, m1: map<nat, T>, b: seq<(nat, T)>, m2: map<nat, T>)
    requires LastWins(m, a, m1) && LastWins(m1, b, m2)
    ensures LastWins(m, a + b, m2)
  {
    forall id: nat ensures AsPooled(m, a + b, m2, id) {
      LastOfBoth(a, b, id);
      assert AsPooled(m, a, m1, id) && AsPooled(m1, b, m2, id);
    }
  }

  lemma OnePair<T(!new)>(m: map<nat, T>, id: nat, x: T)
    ensures LastWins(m, [(id, x)], m[id := x])
  {
  }

  lemma NoPairs<T(!new)>(m: map<nat, T>)
    ensures LastWins(m, [], m)
  {
  }

  /** decode.js takes every text, the Rust decoders those that are UTF-8. */
  function Taken(dia: Dialect, ps: seq<(nat, bytes)>): seq<(nat, bytes)> {
    if ps == [] then []
    else (if dia == Js || Utf8.Valid(ps[0].1) then [ps[0]] else []) + Taken(dia, ps[1..])
  }

  lemma {:induction false} TakenAppend(dia: Dialect, a: seq<(nat, bytes)>, b: seq<(nat, bytes)>)
    ensures Taken(dia, a + b) == Taken(dia, a) + Taken(dia, b)
  {
    if a == [] {
      assert a + b == b;
    } else {
      assert (a + b)[1..] == a[1..] + b;
      TakenAppend(dia, a[1..], b);
    }
  }

  lemma PairsInFront(ss: seq<PoolEntry>, fs: seq<StackEntry>)
    ensures ss != [] ==> StringPairs(ss) == [(ss[0].id, ss[0].data)] + StringPairs(ss[1..])
    ensures fs != [] ==> StackPairs(fs) == [(fs[0].id, fs[0].frames)] + StackPairs(fs[1..])
    ensures StringPairs([]) == [] && StackPairs([]) == []
  {
  }

  lemma TakenInFront(dia: Dialect, p: (nat, bytes), ps: seq<(nat, bytes)>)
    ensures Taken(dia, [p] + ps) == (if dia == Js || Utf8.Valid(p.1) then [p] else []) + Taken(dia, ps)
  {
    assert ([p] + ps)[1..] == ps;
  }

  lemma {:induction false} AddedStrings(dia: Dialect, m: map<nat, bytes>, es: seq<PoolEntry>)
    requires dia != Strict
    ensures AddStrings(dia, m, es).Some? && LastWins(m, Taken(dia, StringPairs(es)), AddStrings(dia, m, es).value)
    decreases es
  {
    hide Utf8.Valid, LastWins, StringPairs;
    PairsInFront(es, []);
    if es == [] {
      NoPairs(m);
    } else {
      var e := es[0];
      var takes := dia == Js || Utf8.Valid(e.data);
      var m1 := if takes then m[e.id := e.data] else m;
      OnePair(m, e.id, e.data);
      NoPairs(m);
      AddedStrings(dia, m1, es[1..]);
      TakenInFront(dia, (e.id, e.data), StringPairs(es[1..]));
      LastWinsAppend(m, if takes then [(e.id, e.data)] else [], m1, Taken(dia, StringPairs(es[1..])),
                     AddStrings(dia, m, es).value);
    }
  }

  lemma {:induction false} AddedStacks(dia: Dialect, m: map<nat, seq<u64>>, es: seq<StackEntry>)
    requires dia != Strict
    ensures AddStacks(dia, m, es).Some? && LastWins(m, StackPairs(es), AddStacks(dia, m, es).value)
    decreases es
  {
    hide LastWins, StackPairs;
    PairsInFront([], es);
    if es == [] {
      NoPairs(m);
    } else {
      var e := es[0];
      OnePair(m, e.id, e.frames);
      AddedStacks(dia, m[e.id := e.frames], es[1..]);
      LastWinsAppend(m, [(e.id, e.frames)], m[e.id := e.frames], StackPairs(es[1..]), AddStacks(dia, m, es).value);
    }
  }

  /** How a state's pools come from another's and the frames between. */
  ghost predicate PoolsFollow(dia: Dialect, st: DecState, fs: seq<Frame>, st': DecState) {
    LastWins(st.strings, Taken(dia, PooledStrings(fs)), st'.strings)
    && LastWins(st.stacks, PooledStacks(fs), st'.stacks)
  }

  lemma NothingFollows(dia: Dialect, st: DecState, st': DecState)
    requires st'.strings == st.strings && st'.stacks == st.stacks
    ensures PoolsFollow(dia, st, [], st')
  {
    NoPairs(st.strings);
    NoPairs(st.stacks);
  }

  lemma PooledByOne(f: Frame)
    ensures PooledStrings([f]) == if f.StringPool? then StringPairs(f.strings) else []
    ensures PooledStacks([f]) == if f.StackPool? then StackPairs(f.stacks) else []
    ensures PooledStrings([]) == [] && PooledStacks([]) == []
  {
    hide StringPairs, StackPairs;
    assert [f][1..] == [];
    if f.StringPool? { assert StringPairs(f.strings) + [] == StringPairs(f.strings); }
    if f.StackPool? { assert StackPairs(f.stacks) + [] == StackPairs(f.stacks); }
  }

  lemma FrameFollows(dia: Dialect, st: DecState, f: Frame)
    requires dia != Strict
    ensures PoolsFollow(dia, st, Visible(f), Apply(dia, st, f).st)
  {
    hide LastWins, Taken, StringPairs, StackPairs, AddStrings, AddStacks, PooledStrings, PooledStacks;
    NoPairs(st.strings);
    NoPairs(st.stacks);
    NothingTaken(dia);
    PooledByOne(f);
    match f
    case StringPool(es) => AddedStrings(dia, st.strings, es);
    case StackPool(es) => AddedStacks(dia, st.stacks, es);
    case _ => OthersKeepPools(dia, st, f);
  }

  lemma OthersKeepPools(dia: Dialect, st: DecState, f: Frame)
    requires !f.StringPool? && !f.StackPool?
    ensures Apply(dia, st, f).st.strings == st.strings && Apply(dia, st, f).st.stacks == st.stacks
  {
  }

  lemma NothingTaken(dia: Dialect)
    ensures Taken(dia, []) == []
  {
  }

  lemma FollowsOn(dia: Dialect, st: DecState, out: seq<Frame>, st1: DecState, fs: seq<Frame>, st2: DecState)
    requires |out| <= 1 && PoolsFollow(dia, st, out, st1) && PoolsFollow(dia, st1, fs, st2)
    ensures PoolsFollow(dia, st, out + fs, st2)
  {
    hide LastWins;
    PooledOfOne(out, fs);
    TakenAppend(dia, PooledStrings(out), PooledStrings(fs));
    LastWinsAppend(st.strings, Taken(dia, PooledStrings(out)), st1.strings, Taken(dia, PooledStrings(fs)), st2.strings);
    LastWinsAppend(st.stacks, PooledStacks(out), st1.stacks, PooledStacks(fs), st2.stacks);
  }

  /** Between two headers, on any stream: an id stands for what the decoder was last given
      under it, and keeps what it stood for otherwise. */
  lemma {:induction false} LastPooledWins(dia: Dialect, st: DecState, d: bytes)
    requires dia != Strict && Run(dia, st, d).restarts == 0
    ensures PoolsFollow(dia, st, Run(dia, st, d).frames, Run(dia, st, d).st)
    decreases |d|
  {
    hide ParseFrame, Apply, PoolsFollow;
    var r := Step(dia, st, d);
    match r
    case Go(out, st1, rest) =>
      StepLocal(dia, st, d, []);
      var f := ParseFrame(dia, st.cache, st.base, d).value;
      FrameFollows(dia, st, f);
      LastPooledWins(dia, st1, rest);
      FollowsOn(dia, st, out, st1, Run(dia, st1, rest).frames, Run(dia, st1, rest).st);
    case Broken(at, left) =>
      var f := ParseFrame(dia, st.cache, st.base, d).value;
      RefusesIff(dia, st, f);
      NothingFollows(dia, st, at);
    case _ => NothingFollows(dia, st, st);
  }

  /** The Rust decoders refuse a frame exactly if it declares a known id differently, by
      then annotated or not; decode.js refuses none. What they remember stays. */
  lemma RefusesIff(dia: Dialect, st: DecState, f: Frame)
    requires dia != Strict
    ensures !Apply(dia, st, f).accepted
            <==> dia != Js && f.Schema? && f.id in st.registry && f.entry != st.registry[f.id]
    ensures !Apply(dia, st, f).accepted ==>
              Apply(dia, st, f).st == st.(cache := st.cache[f.id := f.entry])
  {
    hide AddStrings, AddStacks, LastWins, Taken;
    match f {
      case StringPool(es) => AddedStrings(dia, st.strings, es);
      case StackPool(es) => AddedStacks(dia, st.stacks, es);
      case _ =>
    }
  }

  // ----- schemas

  predicate Declares(f: Frame, id: nat) {
    f.Schema? && f.id == id
  }

  predicate Annotates(f: Frame, id: nat) {
    f.Annotations? && f.schemaId == id
  }

  /** The first declaration of an id among frames, or their number. */
  function FirstDeclared(fs: seq<Frame>, id: nat): (i: nat)
    ensures i <= |fs| && (i < |fs| ==> Declares(fs[i], id)) && forall j :: 0 <= j < i ==> !Declares(fs[j], id)
  {
    if fs == [] || Declares(fs[0], id) then 0 else 1 + FirstDeclared(fs[1..], id)
  }

  /** The last one, or -1. */
  function LastDeclared(fs: seq<Frame>, id: nat): (i: int)
    ensures -1 <= i < |fs| && (i >= 0 ==> Declares(fs[i], id))
    ensures forall j :: i < j < |fs| ==> !Declares(fs[j], id)
  {
    if fs == [] then -1 else
      var i := LastDeclared(fs[1..], id);
      if i >= 0 then i + 1 else if Declares(fs[0], id) then 0 else -1
  }

  /** All annotations for an id among frames, in order. */
  function AllNotes(fs: seq<Frame>, id: nat): seq<Annotation> {
    if fs == [] then []
    else (if Annotates(fs[0], id) then fs[0].annotations else []) + AllNotes(fs[1..], id)
  }

  /** Those of the last frame that has any for it; `first` if there is none. */
  function LastNotes(fs: seq<Frame>, id: nat, first: seq<Annotation>): seq<Annotation> {
    if fs == [] then first
    else LastNotes(fs[1..], id, if Annotates(fs[0], id) then fs[0].annotations else first)
  }

  function Noting(e: SchemaEntry, notes: seq<Annotation>): SchemaEntry {
    e.(annotations := notes)
  }

  /** What the Rust decoders have under an id: the entry they had, or else the first one
      declared, with every annotation from then on added. */
  predicate RustKnows(m: map<nat, SchemaEntry>, fs: seq<Frame>, m': map<nat, SchemaEntry>, id: nat) {
    if id in m then id in m' && m'[id] == Noting(m[id], m[id].annotations + AllNotes(fs, id))
    else
      var i := FirstDeclared(fs, id);
      if i == |fs| then id !in m'
      else id in m' && m'[id] == Noting(fs[i].entry, fs[i].entry.annotations + AllNotes(fs[i + 1..], id))
  }

  /** What decode.js has: the entry declared last, or else the one it had, with the
      annotations of the last frame of them since. */
  predicate JsKnows(m: map<nat, SchemaEntry>, fs: seq<Frame>, m': map<nat, SchemaEntry>, id: nat) {
    var i := LastDeclared(fs, id);
    if i >= 0 then id in m' && m'[id] == Noting(fs[i].entry, LastNotes(fs[i + 1..], id, fs[i].entry.annotations))
    else if id in m then id in m' && m'[id] == Noting(m[id], LastNotes(fs, id, m[id].annotations))
    else id !in m'
  }

  /** One frame in front of others. */
  lemma InFront(f: Frame, fs: seq<Frame>, id: nat, first: seq<Annotation>)
    ensures ([f] + fs)[0] == f && forall i: nat :: i <= |fs| ==> ([f] + fs)[i + 1..] == fs[i..]
    ensures FirstDeclared([f] + fs, id) == if Declares(f, id) then 0 else 1 + FirstDeclared(fs, id)
    ensures var i := LastDeclared(fs, id);
            LastDeclared([f] + fs, id) == if i >= 0 then i + 1 else if Declares(f, id) then 0 else -1
    ensures AllNotes([f] + fs, id) == (if Annotates(f, id) then f.annotations else []) + AllNotes(fs, id)
    ensures LastNotes([f] + fs, id, first) == LastNotes(fs, id, if Annotates(f, id) then f.annotations else first)
  {
    assert ([f] + fs)[1..] == fs;
  }

  /** What one accepted frame does to an id. */
  lemma RegistryAfter(dia: Dialect, st: DecState, f: Frame, id: nat)
    requires dia != Strict && Apply(dia, st, f).accepted
    ensures var m, m' := st.registry, Apply(dia, st, f).st.registry;
            var xs := if Annotates(f, id) then f.annotations else [];
            if Declares(f, id) && (dia == Js || id !in m) then id in m' && m'[id] == f.entry
            else if id !in m then id !in m'
            else id in m'
                 && m'[id] == Noting(m[id], if dia != Js then m[id].annotations + xs
                                            else if Annotates(f, id) then xs else m[id].annotations)
  {
    hide AddStrings, AddStacks;
    if id in st.registry {
      assert Noting(st.registry[id], st.registry[id].annotations) == st.registry[id];
      assert st.registry[id].annotations + [] == st.registry[id].annotations;
    }
  }

  lemma RustKnowsOn(dia: Dialect, st: DecState, f: Frame, fs: seq<Frame>, m': map<nat, SchemaEntry>, id: nat)
    requires (dia == Owned || dia == Ref) && Apply(dia, st, f).accepted
    requires RustKnows(Apply(dia, st, f).st.registry, fs, m', id)
    ensures RustKnows(st.registry, [f] + fs, m', id)
  {
    hide Apply, FirstDeclared, AllNotes;
    InFront(f, fs, id, []);
    RegistryAfter(dia, st, f, id);
    if id in st.registry {
      Assoc(st.registry[id].annotations, if Annotates(f, id) then f.annotations else [], AllNotes(fs, id));
    } else {
      var i := FirstDeclared(fs, id);
      assert i < |fs| ==> ([f] + fs)[i + 1] == fs[i];
    }
  }

  lemma JsKnowsOn(st: DecState, f: Frame, fs: seq<Frame>, m': map<nat, SchemaEntry>, id: nat)
    requires Apply(Js, st, f).accepted && JsKnows(Apply(Js, st, f).st.registry, fs, m', id)
    ensures JsKnows(st.registry, [f] + fs, m', id)
  {
    hide Apply, LastDeclared, LastNotes;
    var i := LastDeclared(fs, id);
    if id in st.registry { InFront(f, fs, id, st.registry[id].annotations); } else { InFront(f, fs, id, []); }
    RegistryAfter(Js, st, f, id);
    assert i >= 0 ==> ([f] + fs)[i + 1] == fs[i];
  }

  ghost predicate Knows(dia: Dialect, st: DecState, fs: seq<Frame>, st': DecState, id: nat) {
    if dia == Js then JsKnows(st.registry, fs, st'.registry, id) else RustKnows(st.registry, fs, st'.registry, id)
  }

  lemma KnowsSame(dia: Dialect, st: DecState, st': DecState, id: nat)
    requires st'.registry == st.registry
    ensures Knows(dia, st, [], st', id)
  {
    var none: seq<Frame> := [];
    assert FirstDeclared(none, id) == 0 && LastDeclared(none, id) == -1;
    if id in st.registry {
      var notes := st.registry[id].annotations;
      assert notes + AllNotes(none, id) == notes && LastNotes(none, id, notes) == notes;
      assert Noting(st.registry[id], notes) == st.registry[id];
    }
  }

  lemma KnowsBehind(dia: Dialect, st: DecState, f: Frame, fs: seq<Frame>, st': DecState, id: nat)
    requires dia != Strict && Apply(dia, st, f).accepted && Knows(dia, Apply(dia, st, f).st, fs, st', id)
    ensures Knows(dia, st, Visible(f) + fs, st', id)
  {
    hide RustKnows, JsKnows;
    if f.TimestampReset? {
      assert Visible(f) + fs == fs;
    } else if dia == Js {
      JsKnowsOn(st, f, fs, st'.registry, id);
    } else {
      RustKnowsOn(dia, st, f, fs, st'.registry, id);
    }
  }

  /** Between two headers, on any stream: what a decoder knows under a schema id. The Rust
      decoders keep the first entry and add up annotations, decode.js keeps the last ones. */
  lemma {:induction false} SchemasKnown(dia: Dialect, st: DecState, d: bytes, id: nat)
    requires dia != Strict && Run(dia, st, d).restarts == 0
    ensures Knows(dia, st, Run(dia, st, d).frames, Run(dia, st, d).st, id)
    decreases |d|
  {
    hide ParseFrame, Apply, Knows;
    var r := Step(dia, st, d);
    match r
    case Go(out, st1, rest) =>
      StepLocal(dia, st, d, []);
      var f := ParseFrame(dia, st.cache, st.base, d).value;
      SchemasKnown(dia, st1, rest, id);
      KnowsBehind(dia, st, f, Run(dia, st1, rest).frames, Run(dia, st1, rest).st, id);
    case Broken(at, left) =>
      var f := ParseFrame(dia, st.cache, st.base, d).value;
      RefusesIff(dia, st, f);
      KnowsSame(dia, st, at, id);
    case _ => KnowsSame(dia, st, st, id);
  }
}
