/** The zero-copy side of types.rs: FieldValueRef::decode, its lazy iterators and
    to_owned. */
module RefDecode {
  import opened Bytes
  import opened Leb128
  import opened Values
  import opened View
  import opened ValueDecode
  import opened Failures
  import Utf8

  /** FieldValueRef. Stack frames and string maps stay raw bytes with a count until they
      are iterated; everything that borrows or copies one value whole is `Whole`. */
  datatype RefValue =
    | Whole(v: Value)
    | RawFrames(data: bytes, count: nat)
    | RawTexts(data: bytes, count: nat)
    | RefList(items: seq<RefValue>)
    | RefMap(entries: seq<RefEntry>)

  datatype RefEntry = RefEntry(key: RefValue, val: RefValue)

  // ----- the lazy iterators

  /** What iterating packed addresses gives: it ends early when the bytes do. */
  function FramesIn(data: bytes, count: nat): seq<u64> {
    if count == 0 then []
    else match ParseU64(data)
      case Fail => []
      case Ok(x, rest) => [x] + FramesIn(rest, count - 1)
  }

  predicate PairValid(p: (bytes, bytes)) {
    Utf8.Valid(p.0) && Utf8.Valid(p.1)
  }

  /** What iterating a string map gives: it ends at the first pair that is cut off or not
      UTF-8. */
  function PairsIn(data: bytes, count: nat): seq<(bytes, bytes)> {
    if count == 0 then []
    else match ParseTextPair(data)
      case Fail => []
      case Ok(p, rest) => if PairValid(p) then [p] + PairsIn(rest, count - 1) else []
  }

  class StackFrameIter {
    const data: bytes
    var pos: nat
    var remaining: nat

    function Left(): seq<u64>
      reads this
    {
      if pos <= |data| then FramesIn(data[pos..], remaining) else []
    }

    constructor (data: bytes, count: nat)
      ensures pos == 0 && this.data == data && Left() == FramesIn(data, count)
    {
      this.data := data;
      pos, remaining := 0, count;
      new;
      assert data[0..] == data;
    }

    method Next() returns (r: Option<u64>)
      requires pos <= |data|
      modifies this
      ensures pos <= |data|
      ensures r == if old(Left()) == [] then None else Some(old(Left())[0])
      ensures r.Some? ==> Left() == old(Left())[1..] && remaining < old(remaining)
    {
      hide LeVal;
      if remaining == 0 { return None; }
      LeAt(data, pos, 8);
      PowersOf256();
      var addr :- GetLe(data, pos, 8);
      pos := pos + 8;
      remaining := remaining - 1;
      return Some(addr);
    }
  }

  lemma {:induction false} RepCount<T>(p: bytes -> Parsed<T>, n: nat, d: bytes)
    ensures Rep(p, n, d).Ok? ==> |Rep(p, n, d).value| == n
  {
    if n > 0 && p(d).Ok? { RepCount(p, n - 1, p(d).rest); }
  }

  /** collect() of a stack frame iterator. */
  method CollectFrames(data: bytes, count: nat) returns (xs: seq<u64>)
    ensures xs == FramesIn(data, count)
  {
    hide FramesIn;
    var it := new StackFrameIter(data, count);
    xs := [];
    while true
      invariant fresh(it) && it.pos <= |it.data| && xs + it.Left() == FramesIn(data, count)
      decreases it.remaining
    {
      ghost var left := it.Left();
      var x := it.Next();
      if x.None? { return; }
      assert left == [x.value] + left[1..];
      xs := xs + [x.value];
    }
  }

  class StringMapIter {
    const data: bytes
    var pos: nat
    var remaining: nat

    function Left(): seq<(bytes, bytes)>
      reads this
    {
      if pos <= |data| then PairsIn(data[pos..], remaining) else []
    }

    constructor (data: bytes, count: nat)
      ensures pos == 0 && this.data == data && Left() == PairsIn(data, count) && SizeHint() == count
    {
      this.data := data;
      pos, remaining := 0, count;
      new;
      assert data[0..] == data;
    }

    function SizeHint(): nat
      reads this
    {
      remaining
    }

    /** After None the position may be inside a pair; nothing is promised from then on. */
    method Next() returns (r: Option<(bytes, bytes)>)
      requires pos <= |data|
      modifies this
      ensures r == if old(Left()) == [] then None else Some(old(Left())[0])
      ensures r.Some? ==> pos <= |data| && Left() == old(Left())[1..] && SizeHint() == old(SizeHint()) - 1
    {
      hide LeVal, ParseBlob, Utf8.Valid;
      if remaining == 0 { return None; }
      BlobAt(data, pos);
      var klen :- GetLe(data, pos, 4);
      pos := pos + 4;
      if pos + klen > |data| { return None; }
      var k := data[pos..pos + klen];
      if !Utf8.Valid(k) { return None; }
      pos := pos + klen;
      BlobAt(data, pos);
      var vlen :- GetLe(data, pos, 4);
      pos := pos + 4;
      if pos + vlen > |data| { return None; }
      var v := data[pos..pos + vlen];
      if !Utf8.Valid(v) { return None; }
      pos := pos + vlen;
      remaining := remaining - 1;
      return Some((k, v));
    }
  }

  /** size_hint announces the remaining count as the exact length, at any point of the
      iteration: it is that exactly when all pairs still to come are UTF-8. */
  lemma SizeHintExactIff(it: StringMapIter, ts: seq<(bytes, bytes)>)
    requires it.pos <= |it.data| && Rep(ParseTextPair, it.remaining, it.data[it.pos..]) == Ok(ts, [])
    ensures |it.Left()| == it.SizeHint() <==> AllPairsValid(ts)
  {
    hide PairsIn, Rep, ParseTextPair;
    PairsInPrefix(it.remaining, it.data[it.pos..], ts);
    PrefixIsAllIff(ts);
    RepCount(ParseTextPair, it.remaining, it.data[it.pos..]);
  }

  /** collect() of a string map iterator. */
  method CollectPairs(data: bytes, count: nat) returns (xs: seq<(bytes, bytes)>)
    ensures xs == PairsIn(data, count)
  {
    hide PairsIn;
    var it := new StringMapIter(data, count);
    xs := [];
    while true
      invariant fresh(it) && it.pos <= |it.data| && xs + it.Left() == PairsIn(data, count)
      decreases it.remaining
    {
      ghost var left := it.Left();
      var x := it.Next();
      if x.None? { return; }
      assert left == [x.value] + left[1..];
      xs := xs + [x.value];
    }
  }

  // ----- to_owned

  /** FieldValueRef::to_owned */
  function ToOwned(r: RefValue): Value {
    match r
    case Whole(v) => v
    case RawFrames(d, n) => StackFrames(FramesIn(d, n))
    case RawTexts(d, n) => StringMap(PairsIn(d, n))
    case RefList(xs) => List(seq(|xs|, i requires 0 <= i < |xs| => ToOwned(xs[i])))
    case RefMap(es) => Map(seq(|es|, i requires 0 <= i < |es| => Entry(ToOwned(es[i].key), ToOwned(es[i].val))))
  }

  function ToOwnedAll(xs: seq<RefValue>): (r: seq<Value>)
    ensures |r| == |xs|
  {
    seq(|xs|, i requires 0 <= i < |xs| => ToOwned(xs[i]))
  }

  function ToOwnedEntries(es: seq<RefEntry>): (r: seq<Entry>)
    ensures |r| == |es|
  {
    seq(|es|, i requires 0 <= i < |es| => Entry(ToOwned(es[i].key), ToOwned(es[i].val)))
  }

  function ValidPrefix(ts: seq<(bytes, bytes)>): seq<(bytes, bytes)> {
    if ts == [] || !PairValid(ts[0]) then [] else [ts[0]] + ValidPrefix(ts[1..])
  }

  /** A value with every string map cut before its first pair that is not UTF-8. */
  function Cut(v: Value): Value {
    match v
    case StringMap(ts) => StringMap(ValidPrefix(ts))
    case List(xs) => List(seq(|xs|, i requires 0 <= i < |xs| => Cut(xs[i])))
    case Map(es) => Map(seq(|es|, i requires 0 <= i < |es| => Entry(Cut(es[i].key), Cut(es[i].val))))
    case _ => v
  }

  function CutAll(xs: seq<Value>): (r: seq<Value>)
    ensures |r| == |xs|
  {
    seq(|xs|, i requires 0 <= i < |xs| => Cut(xs[i]))
  }

  function CutEntries(es: seq<Entry>): (r: seq<Entry>)
    ensures |r| == |es|
  {
    seq(|es|, i requires 0 <= i < |es| => Entry(Cut(es[i].key), Cut(es[i].val)))
  }

  predicate AllPairsValid(ts: seq<(bytes, bytes)>) {
    forall i :: 0 <= i < |ts| ==> PairValid(ts[i])
  }

  /** Every string map in the value is UTF-8. */
  predicate MapsValid(v: Value) {
    match v
    case StringMap(ts) => AllPairsValid(ts)
    case List(xs) => forall i :: 0 <= i < |xs| ==> MapsValid(xs[i])
    case Map(es) => forall i :: 0 <= i < |es| ==> MapsValid(es[i].key) && MapsValid(es[i].val)
    case _ => true
  }

  lemma {:induction false} PrefixIsAllIff(ts: seq<(bytes, bytes)>)
    ensures ValidPrefix(ts) == ts <==> AllPairsValid(ts)
    ensures |ValidPrefix(ts)| == |ts| <==> AllPairsValid(ts)
    ensures |ValidPrefix(ts)| <= |ts|
  {
    hide PairValid;
    if ts != [] {
      PrefixIsAllIff(ts[1..]);
      assert ts == [ts[0]] + ts[1..];
      assert AllPairsValid(ts) <==> PairValid(ts[0]) && AllPairsValid(ts[1..]) by {
        assert forall i :: 0 < i < |ts| ==> ts[i] == ts[1..][i - 1];
      }
    }
  }

  /** to_owned loses nothing exactly when every string map is UTF-8. */
  lemma {:induction false} CutKeepsExactlyValid(v: Value)
    ensures Cut(v) == v <==> MapsValid(v)
    decreases v, 1
  {
    match v {
      case StringMap(ts) => PrefixIsAllIff(ts);
      case List(xs) =>
        forall i | 0 <= i < |xs| ensures Cut(xs[i]) == xs[i] <==> MapsValid(xs[i]) { CutKeepsExactlyValid(xs[i]); }
        if Cut(v) == v { assert forall i :: 0 <= i < |xs| ==> Cut(v).items[i] == xs[i]; }
      case Map(es) => CutEntriesKeepExactlyValid(es);
      case _ =>
    }
  }

  lemma {:induction false} CutEntriesKeepExactlyValid(es: seq<Entry>)
    ensures CutEntries(es) == es <==> MapsValid(Map(es))
    decreases es, 0
  {
    forall i | 0 <= i < |es|
      ensures Cut(es[i].key) == es[i].key <==> MapsValid(es[i].key)
      ensures Cut(es[i].val) == es[i].val <==> MapsValid(es[i].val)
    {
      CutEntryKeepsExactlyValid(es[i]);
    }
    hide Cut, MapsValid;
    if CutEntries(es) == es {
      forall i | 0 <= i < |es| ensures Cut(es[i].key) == es[i].key && Cut(es[i].val) == es[i].val {
        assert CutEntries(es)[i] == es[i];
      }
    }
    MapsValidIff(es);
  }

  lemma MapsValidIff(es: seq<Entry>)
    ensures MapsValid(Map(es)) <==> forall i :: 0 <= i < |es| ==> MapsValid(es[i].key) && MapsValid(es[i].val)
  {
  }

  lemma {:induction false} CutEntryKeepsExactlyValid(e: Entry)
    ensures Cut(e.key) == e.key <==> MapsValid(e.key)
    ensures Cut(e.val) == e.val <==> MapsValid(e.val)
    decreases e, 2
  {
    CutKeepsExactlyValid(e.key);
    CutKeepsExactlyValid(e.val);
  }

  // ----- raw bytes and what they parse to

  lemma {:induction false} FramesInAll(n: nat, d: bytes, xs: seq<u64>)
    requires Rep(ParseU64, n, d) == Ok(xs, [])
    ensures FramesIn(d, n) == xs
  {
    hide ParseU64;
    if n > 0 {
      FramesInAll(n - 1, ParseU64(d).rest, xs[1..]);
      assert xs == [xs[0]] + xs[1..];
    }
  }

  lemma {:induction false} PairsInPrefix(n: nat, d: bytes, ts: seq<(bytes, bytes)>)
    requires Rep(ParseTextPair, n, d) == Ok(ts, [])
    ensures PairsIn(d, n) == ValidPrefix(ts)
  {
    hide ParseTextPair, PairValid;
    if n > 0 {
      PairsInPrefix(n - 1, ParseTextPair(d).rest, ts[1..]);
    }
  }

  /** The raw bytes of a run of addresses or pairs, cut out of a buffer. */
  lemma RawFramesAre(data: bytes, from: nat, n: nat, rest: bytes)
    requires from <= |data| && Rep(ParseU64, n, data[from..]).Ok? && Rep(ParseU64, n, data[from..]).rest == rest
    ensures |rest| <= |data| - from && FramesIn(data[from..|data| - |rest|], n) == Rep(ParseU64, n, data[from..]).value
  {
    var d := data[from..];
    ParseU64Local();
    RepLocal(ParseU64, n, d, []);
    assert Used(d, rest) + [] == data[from..|data| - |rest|];
    FramesInAll(n, data[from..|data| - |rest|], Rep(ParseU64, n, d).value);
  }

  lemma RawTextsAre(data: bytes, from: nat, n: nat, rest: bytes)
    requires from <= |data| && Rep(ParseTextPair, n, data[from..]).Ok?
    requires Rep(ParseTextPair, n, data[from..]).rest == rest
    ensures |rest| <= |data| - from
    ensures PairsIn(data[from..|data| - |rest|], n) == ValidPrefix(Rep(ParseTextPair, n, data[from..]).value)
  {
    var d := data[from..];
    ParseTextPairLocal();
    RepLocal(ParseTextPair, n, d, []);
    assert Used(d, rest) + [] == data[from..|data| - |rest|];
    PairsInPrefix(n, data[from..|data| - |rest|], Rep(ParseTextPair, n, d).value);
  }

  lemma {:induction false} AddressesFit(n: nat, d: bytes)
    ensures Rep(ParseU64, n, d).Ok? <==> 8 * n <= |d|
    ensures Rep(ParseU64, n, d).Ok? ==> Rep(ParseU64, n, d).rest == d[8 * n..]
  {
    hide LeVal;
    if n > 0 {
      if |d| >= 8 {
        AddressesFit(n - 1, d[8..]);
        assert ParseU64(d).rest == d[8..];
      }
    }
  }

  // ----- FieldValueRef::decode

  /** A zero-copy result that stands for the parse `p` of `size` bytes: it consumes what `p`
      does and converts to `p`'s value up to cut string maps. Where `p` fails it gives
      nothing, or panics if `loud`. */
  predicate Stands(r: Attempt<(RefValue, nat)>, p: Parsed<Value>, loud: bool, size: nat) {
    if p.Fail? then r == if loud then Loud else Short
    else r.Given? && ToOwned(r.value.0) == Cut(p.value) && r.value.1 + |p.rest| == size
  }

  method RefFixed(tag: nat, data: bytes, offset: nat) returns (r: Attempt<(RefValue, nat)>)
    requires IsFixed(tag) && offset <= |data|
    ensures Stands(r, ParseScalar(Ref, tag, data[offset..]), false, |data| - offset)
  {
    hide LeVal;
    LeAt(data, offset, FixedWidth(tag));
    var n :- Try(GetLe(data, offset, FixedWidth(tag)));
    return Given((Whole(FixedValue(tag, n)), FixedWidth(tag)));
  }

  method RefStackFrames(data: bytes, offset: nat) returns (r: Attempt<(RefValue, nat)>)
    requires offset <= |data|
    ensures Stands(r, ParseStackFrames(data[offset..]), false, |data| - offset)
  {
    hide LeVal, FramesIn;
    CountAt(data, offset);
    var count :- Try(GetLe(data, offset, 4));
    var dataLen := count * 8;
    AddressesFit(count, data[offset + 4..]);
    if offset + 4 + dataLen > |data| { return Short; }
    RawFramesAre(data, offset + 4, count, data[offset + 4 + dataLen..]);
    return Given((RawFrames(data[offset + 4..offset + 4 + dataLen], count), 4 + dataLen));
  }

  /** One turn of a loop over text pairs: the two lengths decide where it goes on. */
  lemma TextsTurn(data: bytes, at: nat, n: nat, done: seq<(bytes, bytes)>)
    requires n > 0 && at <= |data|
    ensures var klen := GetLe(data, at, 4);
            var left := After(done, Rep(ParseTextPair, n, data[at..]));
            if klen.None? || GetLe(data, at + 4 + klen.value, 4).None? then left.Fail?
            else
              var mid := at + 4 + klen.value;
              var end := mid + 4 + GetLe(data, mid, 4).value;
              if end > |data| then left.Fail?
              else
                mid <= |data|
                && left
                   == After(done + [(data[at + 4..mid], data[mid + 4..end])], Rep(ParseTextPair, n - 1, data[end..]))
  {
    hide LeVal, ParseBlob;
    AfterStep(ParseTextPair, n, data[at..], done);
    BlobAt(data, at);
    var klen := GetLe(data, at, 4);
    if klen.Some? && at + 4 + klen.value <= |data| { BlobAt(data, at + 4 + klen.value); }
  }

  /** The pairs still to come end in one whose value is cut off. */
  predicate CutLeft(n: nat, d: bytes) {
    n > 0 && LastPairCut(n, d)
  }

  lemma CutStep(n: nat, d: bytes)
    requires n > 0
    ensures CutLeft(n, d) == if n == 1 then OnlyPairCut(d)
                             else ParseTextPair(d).Ok? && CutLeft(n - 1, ParseTextPair(d).rest)
  {
    hide ParseTextPair, OnlyPairCut;
  }

  lemma CutTurn(data: bytes, at: nat, n: nat)
    requires n > 0 && at <= |data|
    ensures var klen := GetLe(data, at, 4);
            if klen.None? || GetLe(data, at + 4 + klen.value, 4).None? then !CutLeft(n, data[at..])
            else
              var mid := at + 4 + klen.value;
              var end := mid + 4 + GetLe(data, mid, 4).value;
              CutLeft(n, data[at..]) == if end > |data| then n == 1 else CutLeft(n - 1, data[end..])
  {
    hide LeVal, ParseBlob, LastPairCut;
    CutStep(n, data[at..]);
    BlobAt(data, at);
    var klen := GetLe(data, at, 4);
    if klen.Some? && at + 4 + klen.value <= |data| {
      BlobAt(data, at + 4 + klen.value);
      CountAt(data, at + 4 + klen.value);
    }
  }

  /** The scan over a string map's lengths, and the slice that ends it. The lengths are
      added unchecked: one that points past the end makes the next read fail, or the final
      slice panic. */
  method SkipTexts(data: bytes, start: nat, count: nat) returns (end: Attempt<nat>)
    requires start <= |data|
    ensures var all := Rep(ParseTextPair, count, data[start..]);
            if all.Fail? then end == if CutLeft(count, data[start..]) then Loud else Short
            else end.Given? && start <= end.value <= |data| && data[end.value..] == all.rest
  {
    hide GetLe, LeVal, After, Rep, ParseTextPair, LastPairCut;
    ghost var all := Rep(ParseTextPair, count, data[start..]);
    ghost var cut := CutLeft(count, data[start..]);
    RepStart(all);
    var pos := start;
    ghost var done: seq<(bytes, bytes)> := [];
    for i := 0 to count
      invariant start <= pos
      invariant pos <= |data| ==>
                  After(done, Rep(ParseTextPair, count - i, data[pos..])) == all
                  && CutLeft(count - i, data[pos..]) == cut
      invariant pos > |data| ==> all.Fail? && cut == (i == count)
    {
      ghost var at := pos;
      if pos <= |data| { TextsTurn(data, pos, count - i, done); CutTurn(data, pos, count - i); }
      else { NothingPastEnd(data, pos); }
      var klen :- Try(GetLe(data, pos, 4));
      pos := pos + 4 + klen;
      ghost var mid := pos;
      var vlen :- Try(GetLe(data, pos, 4));
      pos := pos + 4 + vlen;
      if pos <= |data| { done := done + [(data[at + 4..mid], data[mid + 4..pos])]; }
    }
    if pos > |data| { return Loud; }
    RepEnd(ParseTextPair, data[pos..], done);
    return Given(pos);
  }

  lemma NothingPastEnd(data: bytes, at: nat)
    ensures at > |data| ==> GetLe(data, at, 4).None?
  {
  }

  method RefStringMap(data: bytes, offset: nat) returns (r: Attempt<(RefValue, nat)>)
    requires offset <= |data|
    ensures Stands(r, ParseStringMap(data[offset..]), LastTextCut(data[offset..]), |data| - offset)
  {
    hide LeVal, PairsIn, ParseTextPair, Rep, LastPairCut;
    CountAt(data, offset);
    var count :- Try(GetLe(data, offset, 4));
    var end :- SkipTexts(data, offset + 4, count);
    RawTextsAre(data, offset + 4, count, data[end..]);
    return Given((RawTexts(data[offset + 4..end], count), end - offset));
  }

  lemma NothingCut()
    ensures ToOwnedAll([]) == CutAll([]) && ToOwnedEntries([]) == CutEntries([])
  {
  }

  lemma OneMoreCut(items: seq<RefValue>, raw: seq<Value>, x: RefValue, v: Value)
    requires ToOwnedAll(items) == CutAll(raw) && ToOwned(x) == Cut(v)
    ensures ToOwnedAll(items + [x]) == CutAll(raw + [v])
  {
    hide ToOwned, Cut;
    assert ToOwnedAll(items + [x]) == ToOwnedAll(items) + [ToOwned(x)];
    assert CutAll(raw + [v]) == CutAll(raw) + [Cut(v)];
  }

  lemma OneMoreCutEntry(items: seq<RefEntry>, raw: seq<Entry>, k: RefValue, x: RefValue, pk: Value, pv: Value)
    requires ToOwnedEntries(items) == CutEntries(raw) && ToOwned(k) == Cut(pk) && ToOwned(x) == Cut(pv)
    ensures ToOwnedEntries(items + [RefEntry(k, x)]) == CutEntries(raw + [Entry(pk, pv)])
  {
    hide ToOwned, Cut;
    assert ToOwnedEntries(items + [RefEntry(k, x)]) == ToOwnedEntries(items) + [Entry(ToOwned(k), ToOwned(x))];
    assert CutEntries(raw + [Entry(pk, pv)]) == CutEntries(raw) + [Entry(Cut(pk), Cut(pv))];
  }

  lemma ConvertedAre(items: seq<RefValue>, raw: seq<Value>, es: seq<RefEntry>, raws: seq<Entry>)
    ensures ToOwned(RefList(items)) == List(ToOwnedAll(items)) && Cut(List(raw)) == List(CutAll(raw))
    ensures ToOwned(RefMap(es)) == Map(ToOwnedEntries(es)) && Cut(Map(raws)) == Map(CutEntries(raws))
  {
  }

  /** FieldValueRef::decode: where it succeeds, how far it reads and what it holds, and
      exactly when it panics. */
  method DecodeRef(tag: nat, data: bytes, offset: nat) returns (r: Attempt<(RefValue, nat)>)
    requires offset <= |data|
    ensures Stands(r, ParseValue(Ref, tag, data[offset..]), LoudValue(Ref, tag, data[offset..]), |data| - offset)
    decreases |data| - offset, 1
  {
    hide ParseStackFrames, ParseStringMap, ParseBlob, ParseLe, LeVal, LastTextCut, LoudItems, LoudEntries;
    if IsFixed(tag) {
      r := RefFixed(tag, data, offset);
    } else if tag == STRING_TAG || tag == BYTES_TAG {
      BlobAt(data, offset);
      var len :- Try(GetLe(data, offset, 4));
      if offset + 4 + len > |data| { return Short; }
      var x := data[offset + 4..offset + 4 + len];
      if tag == STRING_TAG && !Utf8.Valid(x) { return Short; }
      r := Given((Whole(if tag == STRING_TAG then String(x) else Bytes(x)), 4 + len));
    } else if tag == VARINT_TAG {
      var n := DecodeUnsigned(data[offset..]);
      var v :- Try(n);
      VarintRest(data[offset..]);
      r := Given((Whole(Varint(v.0)), v.1));
    } else if tag == STACK_TAG {
      r := RefStackFrames(data, offset);
    } else if tag == STRING_MAP_TAG {
      r := RefStringMap(data, offset);
    } else if tag == LIST_TAG {
      r := RefListAt(data, offset);
    } else if tag == MAP_TAG {
      r := RefMapAt(data, offset);
    } else {
      r := Short;
    }
  }

  /** A zero-copy value read somewhere in the buffer: where it ends. */
  lemma RefRest(tag: nat, data: bytes, at: nat, loud: bool, r: Attempt<(RefValue, nat)>)
    requires at <= |data| && Stands(r, ParseValue(Ref, tag, data[at..]), loud, |data| - at) && r.Given?
    ensures var p := ParseValue(Ref, tag, data[at..]);
            p.Ok? && ToOwned(r.value.0) == Cut(p.value) && at + r.value.1 <= |data| && p.rest == data[at + r.value.1..]
  {
    hide ParseValue, ToOwned, Cut;
    RestInside(Ref, tag, data, at);
  }

  /** A zero-copy value and the position behind it. */
  predicate StandsAt(data: bytes, from: nat, p: Parsed<Value>, loud: bool, r: Attempt<(RefValue, nat)>) {
    if p.Fail? then r == if loud then Loud else Short
    else r.Given? && ToOwned(r.value.0) == Cut(p.value) && from <= r.value.1 <= |data| && p.rest == data[r.value.1..]
  }

  /** An element of a container: its tag, then its value. */
  method RefElement(data: bytes, at: nat) returns (r: Attempt<(RefValue, nat)>)
    requires at <= |data|
    ensures StandsAt(data, at + 1, ParseItem(Ref, data[at..]), LoudItem(Ref, data[at..]), r)
    decreases |data| - at, 2
  {
    hide ParseValue, ParseItem, ToOwned, Cut, LoudValue;
    if at == |data| { NoElement(Ref, data[at..]); return Short; }
    ElementAt(data, at);
    ByteAt(data, at);
    var tag := data[at];
    if !IsFieldType(tag) { return Short; }
    var v :- DecodeRef(tag % OPTIONAL_BIT, data, at + 1);
    RefRest(tag % OPTIONAL_BIT, data, at + 1, LoudValue(Ref, tag % OPTIONAL_BIT, data[at + 1..]), Given(v));
    return Given((v.0, at + 1 + v.1));
  }

  method RefListAt(data: bytes, offset: nat) returns (r: Attempt<(RefValue, nat)>)
    requires offset <= |data|
    ensures Stands(r, ParseValue(Ref, LIST_TAG, data[offset..]), LoudValue(Ref, LIST_TAG, data[offset..]),
                   |data| - offset)
    decreases |data| - offset, 0
  {
    hide LeVal, ParseValue, ParseItem, ParseItems, ToOwned, Cut, ToOwnedAll, CutAll, After, LoudValue, LoudItem;
    hide LoudItems;
    CountAt(data, offset);
    ContainersAre(Ref, data[offset..]);
    LoudContainersAre(Ref, data[offset..]);
    var count :- Try(GetLe(data, offset, 4));
    var pos, items: seq<RefValue> := offset + 4, [];
    ghost var raw: seq<Value> := [];
    ghost var all := ParseItems(Ref, count, data[pos..]);
    ghost var loud := LoudItems(Ref, count, data[pos..]);
    LoopsStart(all, Fail);
    NothingCut();
    for i := 0 to count
      invariant offset + 4 <= pos <= |data| && ToOwnedAll(items) == CutAll(raw)
      invariant After(raw, ParseItems(Ref, count - i, data[pos..])) == all
      invariant LoudItems(Ref, count - i, data[pos..]) == loud
    {
      ItemsTurn(Ref, count - i, data[pos..], raw);
      LoudTurn(Ref, count - i, data[pos..]);
      ReadIsQuiet(Ref, data[pos..]);
      ghost var p := ParseItem(Ref, data[pos..]);
      var v :- RefElement(data, pos);
      OneMoreCut(items, raw, v.0, p.value);
      pos := v.1;
      items, raw := items + [v.0], raw + [p.value];
    }
    LoopsDone(Ref, data[pos..], raw, []);
    ConvertedAre(items, raw, [], []);
    return Given((RefList(items), pos - offset));
  }

  method RefMapAt(data: bytes, offset: nat) returns (r: Attempt<(RefValue, nat)>)
    requires offset <= |data|
    ensures Stands(r, ParseValue(Ref, MAP_TAG, data[offset..]), LoudValue(Ref, MAP_TAG, data[offset..]),
                   |data| - offset)
    decreases |data| - offset, 0
  {
    hide LeVal, ParseValue, ParseItem, ParseEntries, ToOwned, Cut, ToOwnedEntries, CutEntries, After, LoudValue;
    hide LoudItem, LoudEntries;
    CountAt(data, offset);
    ContainersAre(Ref, data[offset..]);
    LoudContainersAre(Ref, data[offset..]);
    var count :- Try(GetLe(data, offset, 4));
    var pos, pairs: seq<RefEntry> := offset + 4, [];
    ghost var raw: seq<Entry> := [];
    ghost var all := ParseEntries(Ref, count, data[pos..]);
    ghost var loud := LoudEntries(Ref, count, data[pos..]);
    LoopsStart(Fail, all);
    NothingCut();
    for i := 0 to count
      invariant offset + 4 <= pos <= |data| && ToOwnedEntries(pairs) == CutEntries(raw)
      invariant After(raw, ParseEntries(Ref, count - i, data[pos..])) == all
      invariant LoudEntries(Ref, count - i, data[pos..]) == loud
    {
      EntriesTurn(Ref, count - i, data[pos..], raw);
      LoudTurn(Ref, count - i, data[pos..]);
      ReadIsQuiet(Ref, data[pos..]);
      ghost var pk := ParseItem(Ref, data[pos..]);
      var k :- RefElement(data, pos);
      pos := k.1;
      ReadIsQuiet(Ref, data[pos..]);
      ghost var pv := ParseItem(Ref, data[pos..]);
      var v :- RefElement(data, pos);
      pos := v.1;
      OneMoreCutEntry(pairs, raw, k.0, v.0, pk.value, pv.value);
      pairs, raw := pairs + [RefEntry(k.0, v.0)], raw + [Entry(pk.value, pv.value)];
    }
    LoopsDone(Ref, data[pos..], [], raw);
    ConvertedAre([], [], pairs, raw);
    return Given((RefMap(pairs), pos - offset));
  }

  /** Owned and zero-copy decoding of one value: where text payloads are UTF-8 both
      succeed on the same bytes, and `to_owned` gives the owned value exactly when the
      string maps are UTF-8 too. */
  lemma OwnedAndRefAgree(tag: nat, d: bytes, owned: Option<(Value, bytes)>, zero: Attempt<(RefValue, nat)>)
    requires owned == OwnedOf(ParseValue(Owned, tag, d))
    requires Stands(zero, ParseValue(Ref, tag, d), LoudValue(Ref, tag, d), |d|)
    ensures zero.Given? <==> owned.Some? && TextsValid(ParseValue(Owned, tag, d).value)
    ensures zero.Given? ==> zero.value.1 + |owned.value.1| == |d|
    ensures zero.Given? ==> (ToOwned(zero.value.0) == owned.value.0 <==> MapsValid(owned.value.0))
  {
    hide ParseValue, ToOwned, Cut, Replaced, MapsValid, LoudValue;
    RefParsesValidTexts(tag, d);
    var p := ParseValue(Owned, tag, d);
    if p.Ok? {
      ReplacedKeepsExactlyValid(p.value);
      CutKeepsExactlyValid(p.value);
    }
  }
}
