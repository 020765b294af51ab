/** FieldValue::decode and FieldValueRef::decode of types.rs, the loops, against the
    grammar; the lazy zero-copy iterators and to_owned. */
module ValueDecode {
  import opened Bytes
  import opened Leb128
  import opened Values
  import opened View
  import Utf8

  // ----- loops over values

  /** One turn of a loop that reads `n` more elements behind the `done` ones. */
  lemma ItemsTurn(dia: Dialect, n: nat, d: bytes, done: seq<Value>)
    requires n > 0
    ensures var p := ParseItem(dia, d);
            After(done, ParseItems(dia, n, d)) == if p.Fail? then Fail
                                                  else After(done + [p.value], ParseItems(dia, n - 1, p.rest))
  {
    hide ParseItem;
    var p := ParseItem(dia, d);
    if p.Ok? && ParseItems(dia, n - 1, p.rest).Ok? {
      var xs := ParseItems(dia, n - 1, p.rest).value;
      assert done + ([p.value] + xs) == done + [p.value] + xs;
    }
  }

  lemma EntriesTurn(dia: Dialect, n: nat, d: bytes, done: seq<Entry>)
    requires n > 0
    ensures var k := ParseItem(dia, d);
            After(done, ParseEntries(dia, n, d)) == if k.Fail? then Fail else
              var v := ParseItem(dia, k.rest);
              if v.Fail? then Fail else After(done + [Entry(k.value, v.value)], ParseEntries(dia, n - 1, v.rest))
  {
    hide ParseItem;
    var k := ParseItem(dia, d);
    if k.Ok? {
      var v := ParseItem(dia, k.rest);
      if v.Ok? && ParseEntries(dia, n - 1, v.rest).Ok? {
        var xs := ParseEntries(dia, n - 1, v.rest).value;
        assert done + ([Entry(k.value, v.value)] + xs) == done + [Entry(k.value, v.value)] + xs;
      }
    }
  }

  lemma LoopsDone(dia: Dialect, d: bytes, items: seq<Value>, entries: seq<Entry>)
    ensures After(items, ParseItems(dia, 0, d)) == Ok(items, d)
    ensures After(entries, ParseEntries(dia, 0, d)) == Ok(entries, d)
  {
    assert items + [] == items && entries + [] == entries;
  }

  lemma LoopsStart(items: Parsed<seq<Value>>, entries: Parsed<seq<Entry>>)
    ensures After([], items) == items && After([], entries) == entries
  {
    assert items.Ok? ==> [] + items.value == items.value;
    assert entries.Ok? ==> [] + entries.value == entries.value;
  }

  lemma RepStart<T>(r: Parsed<seq<T>>)
    ensures After([], r) == r
  {
    assert r.Ok? ==> [] + r.value == r.value;
  }

  lemma RepEnd<T>(p: bytes -> Parsed<T>, d: bytes, done: seq<T>)
    ensures After(done, Rep(p, 0, d)) == Ok(done, d)
  {
    assert done + [] == done;
  }

  // ----- what the owned decoder gives

  /** Text with its ill-formed pieces replaced, at any depth. */
  function Replaced(v: Value): Value {
    match v
    case String(x) => String(Utf8.Lossy(x))
    case List(xs) => List(seq(|xs|, i requires 0 <= i < |xs| => Replaced(xs[i])))
    case Map(es) => Map(seq(|es|, i requires 0 <= i < |es| => Entry(Replaced(es[i].key), Replaced(es[i].val))))
    case _ => v
  }

  function ReplacedAll(xs: seq<Value>): (r: seq<Value>)
    ensures |r| == |xs|
  {
    seq(|xs|, i requires 0 <= i < |xs| => Replaced(xs[i]))
  }

  function ReplacedEntries(es: seq<Entry>): (r: seq<Entry>)
    ensures |r| == |es|
  {
    seq(|es|, i requires 0 <= i < |es| => Entry(Replaced(es[i].key), Replaced(es[i].val)))
  }

  /** The owned decoder changes nothing exactly when every text is well-formed. */
  lemma {:induction false} ReplacedKeepsExactlyValid(v: Value)
    ensures Replaced(v) == v <==> TextsValid(v)
    decreases v
  {
    match v {
      case String(x) => Utf8.LossyKeepsExactlyValid(x);
      case List(xs) =>
        forall i | 0 <= i < |xs| ensures Replaced(xs[i]) == xs[i] <==> TextsValid(xs[i]) {
          ReplacedKeepsExactlyValid(xs[i]);
        }
        if Replaced(v) == v { assert forall i :: 0 <= i < |xs| ==> Replaced(v).items[i] == xs[i]; }
      case Map(es) => EntriesKeepExactlyValid(es);
      case _ =>
    }
  }

  lemma {:induction false} EntriesKeepExactlyValid(es: seq<Entry>)
    ensures ReplacedEntries(es) == es <==> TextsValid(Map(es))
    decreases es, 0
  {
    forall i | 0 <= i < |es|
      ensures Replaced(es[i].key) == es[i].key <==> TextsValid(es[i].key)
      ensures Replaced(es[i].val) == es[i].val <==> TextsValid(es[i].val)
    {
      EntryKeepsExactlyValid(es[i]);
    }
    hide Replaced, TextsValid;
    if ReplacedEntries(es) == es {
      forall i | 0 <= i < |es| ensures Replaced(es[i].key) == es[i].key && Replaced(es[i].val) == es[i].val {
        assert ReplacedEntries(es)[i] == es[i];
      }
    }
    ValidMapIff(es);
  }

  lemma ValidMapIff(es: seq<Entry>)
    ensures TextsValid(Map(es)) <==> forall i :: 0 <= i < |es| ==> TextsValid(es[i].key) && TextsValid(es[i].val)
  {
  }

  lemma {:induction false} EntryKeepsExactlyValid(e: Entry)
    ensures Replaced(e.key) == e.key <==> TextsValid(e.key)
    ensures Replaced(e.val) == e.val <==> TextsValid(e.val)
    decreases e, 1
  {
    ReplacedKeepsExactlyValid(e.key);
    ReplacedKeepsExactlyValid(e.val);
  }

  /** What FieldValue::decode gives for a parse. */
  function OwnedOf(p: Parsed<Value>): Option<(Value, bytes)> {
    if p.Fail? then None else Some((Replaced(p.value), p.rest))
  }

  // ----- FieldValue::decode

  /** `data[pos..]` with `get`, for a fixed number of bytes. */
  method Fixed(tag: nat, data: bytes) returns (r: Option<(Value, bytes)>)
    requires IsFixed(tag)
    ensures r == OwnedOf(ParseScalar(Owned, tag, data))
  {
    var n := GetLe(data, 0, FixedWidth(tag));
    LeAt(data, 0, FixedWidth(tag));
    assert data[0..] == data;
    if n.None? { return None; }
    return Some((FixedValue(tag, n.value), data[FixedWidth(tag)..]));
  }

  method OwnedBlob(data: bytes) returns (r: Option<(bytes, bytes)>)
    ensures r == match ParseBlob(data) case Fail => None case Ok(x, rest) => Some((x, rest))
  {
    BlobAt(data, 0);
    assert data[0..] == data;
    var len :- GetLe(data, 0, 4);
    if 4 + len > |data| { return None; }
    return Some((data[4..4 + len], data[4 + len..]));
  }

  method OwnedStackFrames(data: bytes) returns (r: Option<(Value, bytes)>)
    ensures r == OwnedOf(ParseStackFrames(data))
  {
    hide LeVal, After, Rep;
    CountAt(data, 0);
    assert data[0..] == data;
    var count :- GetLe(data, 0, 4);
    var addrs: seq<u64>, pos := [], 4;
    ghost var all := Rep(ParseU64, count, data[4..]);
    RepStart(all);
    for i := 0 to count
      invariant 4 <= pos <= |data| && After(addrs, Rep(ParseU64, count - i, data[pos..])) == all
    {
      AfterStep(ParseU64, count - i, data[pos..], addrs);
      LeAt(data, pos, 8);
      var addr :- GetLe(data, pos, 8);
      addrs := addrs + [addr];
      pos := pos + 8;
    }
    RepEnd(ParseU64, data[pos..], addrs);
    return Some((StackFrames(addrs), data[pos..]));
  }

  method OwnedStringMap(data: bytes) returns (r: Option<(Value, bytes)>)
    ensures r == OwnedOf(ParseStringMap(data))
  {
    hide LeVal, ParseBlob, After, Rep;
    CountAt(data, 0);
    assert data[0..] == data;
    var count :- GetLe(data, 0, 4);
    var pairs: seq<(bytes, bytes)>, pos := [], 4;
    ghost var all := Rep(ParseTextPair, count, data[4..]);
    RepStart(all);
    for i := 0 to count
      invariant 4 <= pos <= |data| && After(pairs, Rep(ParseTextPair, count - i, data[pos..])) == all
    {
      AfterStep(ParseTextPair, count - i, data[pos..], pairs);
      BlobAt(data, pos);
      var klen :- GetLe(data, pos, 4);
      pos := pos + 4;
      if pos + klen > |data| { return None; }
      var k := data[pos..pos + klen];
      pos := pos + klen;
      BlobAt(data, pos);
      var vlen :- GetLe(data, pos, 4);
      pos := pos + 4;
      if pos + vlen > |data| { return None; }
      var v := data[pos..pos + vlen];
      pos := pos + vlen;
      pairs := pairs + [(k, v)];
    }
    RepEnd(ParseTextPair, data[pos..], pairs);
    return Some((StringMap(pairs), data[pos..]));
  }

  /** A tag byte and the value behind it: what an element of a container is. */
  lemma ElementAt(data: bytes, pos: nat)
    requires pos < |data|
    ensures ParseItem(Owned, data[pos..])
         == if IsFieldType(data[pos]) then ParseValue(Owned, data[pos] % OPTIONAL_BIT, data[pos + 1..]) else Fail
    ensures ParseItem(Ref, data[pos..])
         == if IsFieldType(data[pos]) then ParseValue(Ref, data[pos] % OPTIONAL_BIT, data[pos + 1..]) else Fail
  {
    hide ParseValue;
    ByteAt(data, pos);
  }

  lemma NoElement(dia: Dialect, d: bytes)
    requires d == []
    ensures ParseItem(dia, d).Fail?
  {
  }

  lemma RestInside(dia: Dialect, tag: nat, data: bytes, pos: nat)
    requires pos <= |data| && ParseValue(dia, tag, data[pos..]).Ok?
    ensures var rest := ParseValue(dia, tag, data[pos..]).rest;
            |rest| <= |data| - pos && data[|data| - |rest|..] == rest
  {
    hide ParseValue;
    ParseValueLocal(dia, tag, data[pos..], []);
  }

  lemma ReplacedMore(raw: seq<Value>, v: Value)
    ensures ReplacedAll(raw + [v]) == ReplacedAll(raw) + [Replaced(v)]
  {
    hide Replaced;
  }

  lemma ReplacedMoreEntries(raw: seq<Entry>, k: Value, v: Value)
    ensures ReplacedEntries(raw + [Entry(k, v)]) == ReplacedEntries(raw) + [Entry(Replaced(k), Replaced(v))]
  {
    hide Replaced;
  }

  /** A container is a count and that many elements. */
  lemma ContainersAre(dia: Dialect, d: bytes)
    ensures ParseValue(dia, LIST_TAG, d)
         == match ParseU32(d) case Fail => Fail
            case Ok(n, r) => (match ParseItems(dia, n, r) case Fail => Fail case Ok(xs, s) => Ok(List(xs), s))
    ensures ParseValue(dia, MAP_TAG, d)
         == match ParseU32(d) case Fail => Fail
            case Ok(n, r) => (match ParseEntries(dia, n, r) case Fail => Fail case Ok(xs, s) => Ok(Map(xs), s))
  {
    hide ParseItems, ParseEntries;
  }

  /** FieldValue::decode of a field type without its optional bit, which it ignores. */
  method DecodeOwned(tag: nat, data: bytes) returns (r: Option<(Value, bytes)>)
    ensures r == OwnedOf(ParseValue(Owned, tag, data))
    decreases |data|, 1
  {
    hide ParseStackFrames, ParseStringMap, ParseBlob, ParseLe;
    if IsFixed(tag) {
      r := Fixed(tag, data);
    } else if tag == STRING_TAG || tag == BYTES_TAG {
      var b :- OwnedBlob(data);
      r := Some((if tag == STRING_TAG then String(Utf8.Lossy(b.0)) else Bytes(b.0), b.1));
    } else if tag == VARINT_TAG {
      var v :- DecodeUnsigned(data);
      VarintRest(data);
      r := Some((Varint(v.0), data[v.1..]));
    } else if tag == STACK_TAG {
      r := OwnedStackFrames(data);
    } else if tag == STRING_MAP_TAG {
      r := OwnedStringMap(data);
    } else if tag == LIST_TAG {
      r := OwnedList(data);
    } else if tag == MAP_TAG {
      r := OwnedMap(data);
    } else {
      r := None;
    }
  }

  lemma VarintRest(data: bytes)
    ensures ParseLeb(10, data).Ok? ==>
              |ParseLeb(10, data).rest| <= |data|
              && data[|data| - |ParseLeb(10, data).rest|..] == ParseLeb(10, data).rest
  {
    ParseLebLocal(10, data, []);
  }

  /** An element of a container: its tag, then its value. Gives the position behind it. */
  method OwnedElement(data: bytes, at: nat) returns (r: Option<(Value, nat)>)
    requires at <= |data|
    ensures var p := ParseItem(Owned, data[at..]);
            if p.Fail? then r.None?
            else r.Some? && r.value.0 == Replaced(p.value) && at < r.value.1 <= |data| && p.rest == data[r.value.1..]
    decreases |data| - at, 2
  {
    hide ParseValue, ParseItem, Replaced;
    if at == |data| { NoElement(Owned, data[at..]); return None; }
    ElementAt(data, at);
    var tag := data[at];
    var pos := at + 1;
    if !IsFieldType(tag) { return None; }
    var v :- DecodeOwned(tag % OPTIONAL_BIT, data[pos..]);
    RestInside(Owned, tag % OPTIONAL_BIT, data, pos);
    pos := pos + (|data| - pos - |v.1|);
    return Some((v.0, pos));
  }

  method OwnedList(data: bytes) returns (r: Option<(Value, bytes)>)
    ensures r == OwnedOf(ParseValue(Owned, LIST_TAG, data))
    decreases |data|, 0
  {
    hide LeVal, ParseValue, ParseItem, ParseItems, Replaced, ReplacedAll, After;
    CountAt(data, 0);
    assert data[0..] == data;
    ContainersAre(Owned, data);
    var count :- GetLe(data, 0, 4);
    var pos, items: seq<Value> := 4, [];
    ghost var raw: seq<Value> := [];
    ghost var all := ParseItems(Owned, count, data[4..]);
    LoopsStart(all, Fail);
    assert items == ReplacedAll(raw) by { NothingReplaced(); }
    for i := 0 to count
      invariant 4 <= pos <= |data| && items == ReplacedAll(raw)
      invariant After(raw, ParseItems(Owned, count - i, data[pos..])) == all
    {
      ItemsTurn(Owned, count - i, data[pos..], raw);
      ghost var p := ParseItem(Owned, data[pos..]);
      var v :- OwnedElement(data, pos);
      ReplacedMore(raw, p.value);
      pos := v.1;
      items, raw := items + [v.0], raw + [p.value];
    }
    LoopsDone(Owned, data[pos..], raw, []);
    ReplacedList(raw, []);
    return Some((List(items), data[pos..]));
  }

  lemma NothingReplaced()
    ensures ReplacedAll([]) == [] && ReplacedEntries([]) == []
  {
  }

  lemma ReplacedList(raw: seq<Value>, es: seq<Entry>)
    ensures Replaced(List(raw)) == List(ReplacedAll(raw)) && Replaced(Map(es)) == Map(ReplacedEntries(es))
  {
  }

  method OwnedMap(data: bytes) returns (r: Option<(Value, bytes)>)
    ensures r == OwnedOf(ParseValue(Owned, MAP_TAG, data))
    decreases |data|, 0
  {
    hide LeVal, ParseValue, ParseItem, ParseEntries, Replaced, ReplacedEntries, After;
    CountAt(data, 0);
    assert data[0..] == data;
    ContainersAre(Owned, data);
    var count :- GetLe(data, 0, 4);
    var pos, pairs: seq<Entry> := 4, [];
    ghost var raw: seq<Entry> := [];
    ghost var all := ParseEntries(Owned, count, data[4..]);
    LoopsStart(Fail, all);
    assert pairs == ReplacedEntries(raw) by { NothingReplaced(); }
    for i := 0 to count
      invariant 4 <= pos <= |data| && pairs == ReplacedEntries(raw)
      invariant After(raw, ParseEntries(Owned, count - i, data[pos..])) == all
    {
      EntriesTurn(Owned, count - i, data[pos..], raw);
      ghost var pk := ParseItem(Owned, data[pos..]);
      var k :- OwnedElement(data, pos);
      pos := k.1;
      ghost var pv := ParseItem(Owned, data[pos..]);
      var v :- OwnedElement(data, pos);
      pos := v.1;
      ReplacedMoreEntries(raw, pk.value, pv.value);
      pairs, raw := pairs + [Entry(k.0, v.0)], raw + [Entry(pk.value, pv.value)];
    }
    LoopsDone(Owned, data[pos..], [], raw);
    ReplacedList([], raw);
    return Some((Map(pairs), data[pos..]));
  }
}
