/** How decoding fails. Mostly a reader just gives nothing; but the zero-copy Rust decoder
    panics on some string maps, and decode.js throws on tags and ids it does not know. */
module Failures {
  import opened Bytes
  import opened Values
  import opened Frames

  /** A string map whose last value, and nothing before it, runs past the end: the count,
      all earlier pairs, the last key and the last length can be read. */
  predicate LastTextCut(d: bytes) {
    var n := ParseU32(d);
    n.Ok? && n.value > 0 && LastPairCut(n.value, n.rest)
  }

  predicate LastPairCut(n: nat, d: bytes)
    requires n > 0
  {
    var ps := Rep(ParseTextPair, n - 1, d);
    ps.Ok? && OnlyPairCut(ps.rest)
  }

  predicate OnlyPairCut(d: bytes) {
    var k := ParseBlob(d);
    k.Ok? && var len := ParseU32(k.rest); len.Ok? && len.value > |len.rest|
  }

  predicate KnownType(tag: nat) {
    1 <= tag <= 15
  }

  /** Decoding blows up instead of just failing, at whatever depth it comes to that. */
  predicate LoudValue(dia: Dialect, tag: nat, d: bytes)
    decreases |d|, 0
  {
    if tag == LIST_TAG then
      var n := ParseU32(d);
      n.Ok? && LoudItems(dia, n.value, n.rest)
    else if tag == MAP_TAG then
      var n := ParseU32(d);
      n.Ok? && LoudEntries(dia, n.value, n.rest)
    else (dia == Ref && tag == STRING_MAP_TAG && LastTextCut(d)) || (dia == Js && !KnownType(tag))
  }

  predicate LoudField(dia: Dialect, tag: byte, d: bytes)
    decreases |d|, 1
  {
    if tag < OPTIONAL_BIT then LoudValue(dia, tag, d)
    else (dia == Js || IsFieldType(tag)) && d != [] && d[0] != 0 && LoudValue(dia, tag - OPTIONAL_BIT, d[1..])
  }

  predicate LoudItem(dia: Dialect, d: bytes)
    decreases |d|, 2
  {
    d != [] && if dia == Js then LoudField(dia, d[0], d[1..])
               else IsFieldType(d[0]) && LoudValue(dia, d[0] % OPTIONAL_BIT, d[1..])
  }

  predicate LoudItems(dia: Dialect, n: nat, d: bytes)
    decreases |d|, 3
  {
    n > 0 && var x := ParseItem(dia, d); (LoudItem(dia, d) || (x.Ok? && LoudItems(dia, n - 1, x.rest)))
  }

  predicate LoudEntries(dia: Dialect, n: nat, d: bytes)
    decreases |d|, 3
  {
    n > 0
    && var k := ParseItem(dia, d);
       (LoudItem(dia, d)
        || (k.Ok? && (LoudItem(dia, k.rest)
                      || var v := ParseItem(dia, k.rest); (v.Ok? && LoudEntries(dia, n - 1, v.rest)))))
  }

  predicate LoudFields(dia: Dialect, tags: seq<byte>, d: bytes) {
    tags != [] && (LoudField(dia, tags[0], d)
                   || var v := ParseField(dia, tags[0], d); (v.Ok? && LoudFields(dia, tags[1..], v.rest)))
  }

  predicate LoudEvent(dia: Dialect, schemas: map<nat, SchemaEntry>, base: nat, d: bytes) {
    var id := ParseU16(d);
    id.Ok? && if id.value !in schemas then dia == Js else
      var e := schemas[id.value];
      var ts := ParseTimestamp(dia, e.hasTimestamp, base, id.rest);
      ts.Ok? && LoudFields(dia, Tags(e.fields), ts.rest)
  }

  predicate LoudFrame(dia: Dialect, schemas: map<nat, SchemaEntry>, base: nat, d: bytes) {
    d != [] && if d[0] == EVENT_FRAME then LoudEvent(dia, schemas, base, d[1..]) else dia == Js && !(1 <= d[0] <= 6)
  }

  // ----- blowing up is failing

  lemma {:induction false} RepSplit<T>(p: bytes -> Parsed<T>, n: nat, d: bytes)
    requires n > 0
    ensures var front := Rep(p, n - 1, d);
            Rep(p, n, d).Ok? ==> front.Ok? && p(front.rest).Ok?
  {
    if n > 1 && p(d).Ok? { RepSplit(p, n - 1, p(d).rest); }
  }

  lemma CutTextFails(d: bytes)
    ensures LastTextCut(d) ==> ParseStringMap(d).Fail?
  {
    var n := ParseU32(d);
    if LastTextCut(d) {
      RepSplit(ParseTextPair, n.value, n.rest);
      var at := Rep(ParseTextPair, n.value - 1, n.rest).rest;
      assert ParseTextPair(at).Fail?;
    }
  }

  lemma {:induction false} LoudValueFails(dia: Dialect, tag: nat, d: bytes)
    ensures LoudValue(dia, tag, d) ==> ParseValue(dia, tag, d).Fail?
    decreases |d|, 0
  {
    hide LastTextCut, ParseStringMap;
    CutTextFails(d);
    if (tag == LIST_TAG || tag == MAP_TAG) && ParseU32(d).Ok? {
      LoudItemsFail(dia, ParseU32(d).value, ParseU32(d).rest);
      LoudEntriesFail(dia, ParseU32(d).value, ParseU32(d).rest);
    }
  }

  lemma {:induction false} LoudFieldFails(dia: Dialect, tag: byte, d: bytes)
    ensures LoudField(dia, tag, d) ==> ParseField(dia, tag, d).Fail?
    decreases |d|, 1
  {
    hide ParseScalar, LastTextCut;
    if tag < OPTIONAL_BIT { LoudValueFails(dia, tag, d); }
    else if d != [] { LoudValueFails(dia, tag - OPTIONAL_BIT, d[1..]); }
  }

  lemma {:induction false} LoudItemFails(dia: Dialect, d: bytes)
    ensures LoudItem(dia, d) ==> ParseItem(dia, d).Fail?
    decreases |d|, 2
  {
    hide ParseScalar, LastTextCut;
    if d != [] {
      LoudFieldFails(dia, d[0], d[1..]);
      LoudValueFails(dia, d[0] % OPTIONAL_BIT, d[1..]);
    }
  }

  lemma {:induction false} LoudItemsFail(dia: Dialect, n: nat, d: bytes)
    ensures LoudItems(dia, n, d) ==> ParseItems(dia, n, d).Fail?
    decreases |d|, 3
  {
    hide ParseItem, LoudItem;
    if n > 0 {
      LoudItemFails(dia, d);
      if ParseItem(dia, d).Ok? { LoudItemsFail(dia, n - 1, ParseItem(dia, d).rest); }
    }
  }

  lemma {:induction false} LoudEntriesFail(dia: Dialect, n: nat, d: bytes)
    ensures LoudEntries(dia, n, d) ==> ParseEntries(dia, n, d).Fail?
    decreases |d|, 3
  {
    hide ParseItem, LoudItem;
    if n > 0 {
      LoudItemFails(dia, d);
      var k := ParseItem(dia, d);
      if k.Ok? {
        LoudItemFails(dia, k.rest);
        if ParseItem(dia, k.rest).Ok? { LoudEntriesFail(dia, n - 1, ParseItem(dia, k.rest).rest); }
      }
    }
  }

  lemma {:induction false} LoudFieldsFail(dia: Dialect, tags: seq<byte>, d: bytes)
    ensures LoudFields(dia, tags, d) ==> ParseFields(dia, tags, d).Fail?
  {
    hide ParseField, LoudField;
    if tags != [] {
      LoudFieldFails(dia, tags[0], d);
      if ParseField(dia, tags[0], d).Ok? { LoudFieldsFail(dia, tags[1..], ParseField(dia, tags[0], d).rest); }
    }
  }

  /** No reader blows up on a frame that the grammar accepts. */
  lemma LoudFrameFails(dia: Dialect, schemas: map<nat, SchemaEntry>, base: nat, d: bytes)
    ensures LoudFrame(dia, schemas, base, d) ==> ParseFrame(dia, schemas, base, d).Fail?
  {
    hide ParseFields, LoudFields, ParseTimestamp, ParseSchema, ParseStringPool, ParseStackPool, ParseAnnotations;
    if d != [] && d[0] == EVENT_FRAME && ParseU16(d[1..]).Ok? && ParseU16(d[1..]).value in schemas {
      var id := ParseU16(d[1..]);
      var e := schemas[id.value];
      var ts := ParseTimestamp(dia, e.hasTimestamp, base, id.rest);
      if ts.Ok? { LoudFieldsFail(dia, Tags(e.fields), ts.rest); }
    }
  }

  // ----- loops

  lemma LoudContainersAre(dia: Dialect, d: bytes)
    ensures var n := ParseU32(d);
            LoudValue(dia, LIST_TAG, d) == (n.Ok? && LoudItems(dia, n.value, n.rest))
            && LoudValue(dia, MAP_TAG, d) == (n.Ok? && LoudEntries(dia, n.value, n.rest))
  {
    hide LoudItems, LoudEntries;
  }

  lemma LoudTurn(dia: Dialect, n: nat, d: bytes)
    ensures n > 0 ==>
              var x := ParseItem(dia, d);
              LoudItems(dia, n, d) == (LoudItem(dia, d) || (x.Ok? && LoudItems(dia, n - 1, x.rest)))
    ensures n > 0 ==> var k := ParseItem(dia, d);
            LoudEntries(dia, n, d)
            == (LoudItem(dia, d) || (k.Ok? && (LoudItem(dia, k.rest)
                || (ParseItem(dia, k.rest).Ok? && LoudEntries(dia, n - 1, ParseItem(dia, k.rest).rest)))))
    ensures n == 0 ==> !LoudItems(dia, n, d) && !LoudEntries(dia, n, d)
  {
    hide ParseItem, LoudItem;
  }

  /** An element that was read is not one that blows up. */
  lemma ReadIsQuiet(dia: Dialect, d: bytes)
    ensures ParseItem(dia, d).Ok? ==> !LoudItem(dia, d)
  {
    hide ParseItem, LoudItem;
    LoudItemFails(dia, d);
  }

  lemma LoudFieldsTurn(dia: Dialect, tags: seq<byte>, d: bytes)
    ensures tags == [] ==> !LoudFields(dia, tags, d)
    ensures tags != [] ==>
              var v := ParseField(dia, tags[0], d);
              LoudFields(dia, tags, d) == if v.Fail? then LoudField(dia, tags[0], d)
                                          else LoudFields(dia, tags[1..], v.rest)
  {
    hide ParseField, LoudField;
    if tags != [] { LoudFieldFails(dia, tags[0], d); }
  }

  lemma NothingIsQuiet(dia: Dialect, schemas: map<nat, SchemaEntry>, base: nat, d: bytes)
    ensures d == [] ==> !LoudFrame(dia, schemas, base, d)
  {
  }

  /** The smallest map that makes the zero-copy decoder panic: one pair, an empty key, and a
      value of five bytes that are not there. The owned decoder just fails on it. */
  lemma CutMapExample()
    ensures LoudValue(Ref, STRING_MAP_TAG, [1, 0, 0, 0, 0, 0, 0, 0, 5, 0, 0, 0])
    ensures !LoudValue(Owned, STRING_MAP_TAG, [1, 0, 0, 0, 0, 0, 0, 0, 5, 0, 0, 0])
    ensures ParseValue(Owned, STRING_MAP_TAG, [1, 0, 0, 0, 0, 0, 0, 0, 5, 0, 0, 0]).Fail?
  {
    var d: bytes := [1, 0, 0, 0, 0, 0, 0, 0, 5, 0, 0, 0];
    assert d == U32Le(1) + (U32Le(0) + (U32Le(5) + [])) by { SmallCounts(); }
    ParseU32Of(1, U32Le(0) + (U32Le(5) + []));
    ParseU32Of(0, U32Le(5) + []);
    ParseU32Of(5, []);
    assert Take(0, U32Le(5) + []) == Ok([], U32Le(5) + []);
    assert OnlyPairCut(U32Le(0) + (U32Le(5) + []));
    assert LastTextCut(d);
    CutTextFails(d);
  }

  /** An event of any schema with that map as its only field makes decode_frame_ref panic. */
  lemma CutMapEvent(schemas: map<nat, SchemaEntry>, base: nat)
    requires 0 in schemas && !schemas[0].hasTimestamp && Tags(schemas[0].fields) == [STRING_MAP_TAG]
    ensures var d: bytes := [EVENT_FRAME, 0, 0] + [1, 0, 0, 0, 0, 0, 0, 0, 5, 0, 0, 0];
            LoudFrame(Ref, schemas, base, d) && ParseFrame(Owned, schemas, base, d).Fail?
  {
    hide LoudValue, LoudField, ParseField, ParseValue;
    var m: bytes := [1, 0, 0, 0, 0, 0, 0, 0, 5, 0, 0, 0];
    var d: bytes := [EVENT_FRAME, 0, 0] + m;
    assert U16Le(0) == [0, 0] by { assert Le(1, 0) == [0] + Le(0, 0); }
    assert d[1..] == U16Le(0) + m;
    ParseU16Of(0, m);
    CutMapExample();
    CutMapField(m);
  }

  lemma CutMapField(m: bytes)
    ensures LoudValue(Ref, STRING_MAP_TAG, m) ==> LoudField(Ref, STRING_MAP_TAG, m)
    ensures ParseValue(Owned, STRING_MAP_TAG, m).Fail? ==> ParseField(Owned, STRING_MAP_TAG, m).Fail?
  {
    hide LoudValue, ParseValue;
  }

  lemma SmallCounts()
    ensures U32Le(0) == [0, 0, 0, 0] && U32Le(1) == [1, 0, 0, 0] && U32Le(5) == [5, 0, 0, 0]
  {
    assert Le(3, 0) == [0, 0, 0] by { assert Le(2, 0) == [0, 0] by { assert Le(1, 0) == [0]; } }
  }

  // ----- who never does, and on what decode.js does

  lemma {:induction false} OwnedValueIsQuiet(tag: nat, d: bytes)
    ensures !LoudValue(Owned, tag, d)
    decreases |d|, 0
  {
    if (tag == LIST_TAG || tag == MAP_TAG) && ParseU32(d).Ok? {
      OwnedItemsAreQuiet(ParseU32(d).value, ParseU32(d).rest);
    }
  }

  lemma OwnedItemIsQuiet(d: bytes)
    ensures !LoudItem(Owned, d)
    decreases |d|, 0
  {
    if d != [] { OwnedValueIsQuiet(d[0] % OPTIONAL_BIT, d[1..]); }
  }

  lemma {:induction false} OwnedItemsAreQuiet(n: nat, d: bytes)
    ensures !LoudItems(Owned, n, d) && !LoudEntries(Owned, n, d)
    decreases |d|, 1
  {
    hide LoudItem, ParseItem;
    if n > 0 {
      OwnedItemIsQuiet(d);
      var x := ParseItem(Owned, d);
      if x.Ok? {
        OwnedItemsAreQuiet(n - 1, x.rest);
        OwnedItemIsQuiet(x.rest);
        var y := ParseItem(Owned, x.rest);
        if y.Ok? { OwnedItemsAreQuiet(n - 1, y.rest); }
      }
    }
  }

  lemma {:induction false} OwnedFieldsAreQuiet(tags: seq<byte>, d: bytes)
    ensures !LoudFields(Owned, tags, d)
  {
    hide LoudValue, ParseField;
    if tags != [] {
      OwnedValueIsQuiet(tags[0], d);
      if tags[0] >= OPTIONAL_BIT && d != [] { OwnedValueIsQuiet(tags[0] - OPTIONAL_BIT, d[1..]); }
      if ParseField(Owned, tags[0], d).Ok? { OwnedFieldsAreQuiet(tags[1..], ParseField(Owned, tags[0], d).rest); }
    }
  }

  /** The owned decoder panics on no bytes at all, whatever schemas it knows. */
  lemma OwnedIsQuiet(schemas: map<nat, SchemaEntry>, base: nat, d: bytes)
    ensures !LoudFrame(Owned, schemas, base, d)
  {
    hide LoudFields;
    if d != [] && d[0] == EVENT_FRAME && ParseU16(d[1..]).Ok? && ParseU16(d[1..]).value in schemas {
      var e := schemas[ParseU16(d[1..]).value];
      var ts := ParseTimestamp(Owned, e.hasTimestamp, base, ParseU16(d[1..]).rest);
      if ts.Ok? { OwnedFieldsAreQuiet(Tags(e.fields), ts.rest); }
    }
  }

  /** What decode.js throws on: a frame tag, a type id or a field type that it does not know. */
  lemma UnknownThrows(schemas: map<nat, SchemaEntry>, base: nat, tag: byte, lo: byte, hi: byte, s: bytes)
    ensures !(1 <= tag <= 6) ==> LoudFrame(Js, schemas, base, [tag] + s)
    ensures lo + 256 * hi !in schemas ==> LoudFrame(Js, schemas, base, [2, lo, hi] + s)
    ensures tag < 128 && !(1 <= tag <= 15) ==> LoudField(Js, tag, s)
    ensures tag >= 128 && !(129 <= tag <= 143) && lo != 0 ==> LoudField(Js, tag, [lo] + s)
  {
    hide ParseFields, ParseTimestamp;
    assert ([2, lo, hi] + s)[1..] == [lo, hi] + s && ([lo, hi] + s)[..2] == [lo, hi];
    assert [lo, hi][1..] == [hi] && LeVal([hi]) == hi;
  }
}
