/** Where the promises end: inputs on which the code does not do what the format says, and
    exactly when it does. */
module Limits {
  import opened Bytes
  import opened Leb128
  import opened Values
  import opened Frames
  import opened View
  import Utf8

  /** write_event always writes a packed delta, so its frame reads back as the event that
      was written, in any decoder, exactly when the schema has timestamps. */
  lemma EventReadsBackIff(dia: Dialect, schemas: map<nat, SchemaEntry>, base: nat, w: Wire, s: bytes)
    requires w.WireEvent? && WireFits(w) && w.typeId in schemas && Tags(schemas[w.typeId].fields) == w.tags
    requires base + w.delta < TWO_TO_THE_64
    ensures ParseFrame(dia, schemas, base, EncodeWire(w) + s)
            == Ok(Event(w.typeId, schemas[w.typeId].name, Some(base + w.delta), w.values), s)
            <==> schemas[w.typeId].hasTimestamp
  {
    hide WireFits, EncodeWire;
    if schemas[w.typeId].hasTimestamp {
      EventOf(schemas, base, w, s);
      StrictFrameIsCommon(dia, schemas, base, EncodeWire(w) + s);
    } else {
      NoTimestampRead(dia, schemas, base, EncodeWire(w) + s, w.typeId);
    }
  }

  lemma NoTimestampRead(dia: Dialect, schemas: map<nat, SchemaEntry>, base: nat, d: bytes, id: u16)
    requires id in schemas && !schemas[id].hasTimestamp
    ensures var r := ParseFrame(dia, schemas, base, d);
            r.Ok? && r.value.Event? && r.value.typeId == id ==> r.value.timestamp == None
  {
    hide ParseFields, ParseEntry, Rep, ParseAnnotationList, ParseVarint;
  }

  /** Without a timestamp the delta is left for the fields, or for the next frame. */
  lemma StrayDelta(dia: Dialect, schemas: map<nat, SchemaEntry>, base: nat, w: Wire, s: bytes)
    requires w.WireEvent? && w.typeId in schemas && !schemas[w.typeId].hasTimestamp && schemas[w.typeId].fields == []
    requires w.tags == []
    ensures ParseFrame(dia, schemas, base, EncodeWire(w) + s)
         == Ok(Event(w.typeId, schemas[w.typeId].name, None, []), Le(3, w.delta) + s)
  {
    hide Le;
    assert EncodeFields(w.dynamic, w.tags, w.values) == [];
    assert (EncodeWire(w) + s)[1..] == U16Le(w.typeId) + (Le(3, w.delta) + s);
    ParseU16Of(w.typeId, Le(3, w.delta) + s);
    assert Tags(schemas[w.typeId].fields) == [];
  }

  // ----- fields whose kind is not the schema's

  /** What the dynamic path gets right: the value's own kind is the declared one, or a
      varint below 128 stands for a U8. A larger one, and every U16 and U32, is written in
      a form that is not read back. */
  predicate ComesBack(tag: byte, v: Value) {
    if v.Absent? then tag >= OPTIONAL_BIT
    else TagOf(v) == tag % OPTIONAL_BIT || (tag % OPTIONAL_BIT == U8_TAG && v.Varint? && v.n < 0x80)
  }

  /** write_event does not look at the declared field types: a value comes back, in any
      decoder, exactly as said above. */
  lemma DynamicFieldIff(dia: Dialect, tag: byte, v: Value, s: bytes)
    requires IsFieldType(tag) && (v.Absent? || Encodable(v))
    ensures ParseField(dia, tag, EncodeDynamicField(tag, v) + s) == Ok(v, s) <==> ComesBack(tag, v)
  {
    hide ParseValue, ParseField, EncodeValue, Encodable, TagOf;
    var d := EncodeDynamicField(tag, v) + s;
    FieldIs(dia, tag, d);
    if v.Absent? {
      NothingEncoded();
      assert ([0] + s)[1..] == s;
      KindIs(dia, tag, d);
    } else {
      if tag >= OPTIONAL_BIT { assert d[1..] == EncodeValue(v) + s && d[0] == 1; }
      DynamicValueIff(dia, tag % OPTIONAL_BIT, v, s);
    }
  }

  lemma NothingEncoded()
    ensures EncodeValue(Absent) == [0]
  {
  }

  lemma FieldIs(dia: Dialect, tag: byte, d: bytes)
    requires IsFieldType(tag)
    ensures ParseField(dia, tag, d)
         == if tag < OPTIONAL_BIT then ParseValue(dia, tag, d)
            else if d == [] then Fail
            else if d[0] == 0 then Ok(Absent, d[1..])
            else ParseValue(dia, tag % OPTIONAL_BIT, d[1..])
  {
    hide ParseValue;
  }

  lemma DynamicValueIff(dia: Dialect, tag: nat, v: Value, s: bytes)
    requires Encodable(v)
    ensures ParseValue(dia, tag, EncodeValue(v) + s) == Ok(v, s)
            <==> TagOf(v) == tag || (tag == U8_TAG && v.Varint? && v.n < 0x80)
  {
    hide ParseValue, EncodeValue;
    var d := EncodeValue(v) + s;
    if TagOf(v) == tag {
      ValueRoundTrip(v, s);
      StrictValueIsCommon(dia, tag, d);
    } else {
      KindIs(dia, tag, d);
      if v.Varint? && tag in {U8_TAG, U16_TAG, U32_TAG} { NarrowVarintIff(dia, tag, v.n, s); }
    }
  }

  /** A value is of the kind that it was read as. */
  lemma KindIs(dia: Dialect, tag: nat, d: bytes)
    ensures var r := ParseValue(dia, tag, d);
            r.Ok? ==>
              !r.value.Absent? && (TagOf(r.value) == tag || (r.value.Varint? && tag in {U8_TAG, U16_TAG, U32_TAG}))
  {
    hide ParseItems, ParseEntries, ParseU32, ParseBlob, Rep, ParseVarint, ParseLe;
  }

  lemma NarrowVarintIff(dia: Dialect, tag: nat, n: u64, s: bytes)
    requires tag in {U8_TAG, U16_TAG, U32_TAG}
    ensures ParseValue(dia, tag, EncodeValue(Varint(n)) + s) == Ok(Varint(n), s) <==> tag == U8_TAG && n < 0x80
  {
    hide Leb, LeVal;
    var d := Leb(n) + s;
    var k := FixedWidth(tag);
    LeAt(d, 0, k);
    assert d[0..] == d;
    LebOutgrowsLe(n);
    if k <= |d| && d[k..] == s {
      assert |Leb(n)| == k && d[..k] == Leb(n);
    } else if n < 0x80 {
      assert d[1..] == s;
    }
  }

  /** Read as fixed width, a varint of more than one byte is too large. */
  lemma {:induction false} LebOutgrowsLe(n: nat)
    ensures if n < 0x80 then Leb(n) == [n] && LeVal(Leb(n)) == n else |Leb(n)| >= 2 && LeVal(Leb(n)) > n
  {
    if n >= 0x80 {
      LebOutgrowsLe(n / 0x80);
      assert Leb(n)[1..] == Leb(n / 0x80);
    } else {
      assert LeVal([n]) == n + 256 * LeVal([n][1..]);
    }
  }

  /** An absent value inside a list is written with tag 0, which no decoder accepts: a list
      of otherwise encodable values comes back exactly when it holds no absent one. */
  lemma ListReadsBackIff(dia: Dialect, xs: seq<Value>, s: bytes)
    requires |xs| < TWO_TO_THE_32 && forall i :: 0 <= i < |xs| ==> xs[i].Absent? || Encodable(xs[i])
    ensures ParseValue(dia, LIST_TAG, EncodeValue(List(xs)) + s) == Ok(List(xs), s)
            <==> forall i :: 0 <= i < |xs| ==> !xs[i].Absent?
  {
    hide ParseItems, EncodeItems, ParseItem;
    CountFirst(|xs|, EncodeItems(xs), s);
    if forall i :: 0 <= i < |xs| ==> !xs[i].Absent? {
      ValueRoundTrip(List(xs), s);
      StrictValueIsCommon(dia, LIST_TAG, EncodeValue(List(xs)) + s);
    } else {
      AbsentElementFails(dia, xs, s);
    }
  }

  lemma {:induction false} AbsentElementFails(dia: Dialect, xs: seq<Value>, s: bytes)
    requires forall i :: 0 <= i < |xs| ==> xs[i].Absent? || Encodable(xs[i])
    requires exists i :: 0 <= i < |xs| && xs[i].Absent?
    ensures ParseItems(dia, |xs|, EncodeItems(xs) + s).Fail?
  {
    hide EncodeValue, TagOf, Encodable, ParseItem;
    var t := EncodeItems(xs[1..]) + s;
    var d := EncodeItems(xs) + s;
    assert d == [TagOf(xs[0])] + EncodeValue(xs[0]) + t;
    if xs[0].Absent? {
      NoTagZero(dia, d);
    } else {
      ItemRoundTrip(xs[0], t);
      StrictItemIsCommon(dia, d);
      assert forall i :: 0 < i < |xs| ==> xs[i] == xs[1..][i - 1];
      AbsentElementFails(dia, xs[1..], s);
    }
  }

  lemma NoTagZero(dia: Dialect, d: bytes)
    requires d != [] && d[0] == TagOf(Absent)
    ensures ParseItem(dia, d).Fail?
  {
    assert !IsFieldType(0);
    assert ParseScalar(Js, 0, d[1..]).Fail?;
    assert ParseValue(Js, 0, d[1..]).Fail?;
    assert ParseField(Js, 0, d[1..]).Fail?;
  }

  /** A name comes back, in any decoder, exactly when its length fits the u16 in front. */
  lemma NameReadsBackIff(dia: Dialect, x: bytes, s: bytes)
    requires Utf8.Valid(x)
    ensures ParseName(dia, Name(x) + s) == Ok(x, s) <==> |x| < 0x1_0000
  {
    hide Utf8.Valid;
    if |x| < 0x1_0000 {
      ParseNameOf(x, s);
      NameCommon(Strict, dia, Name(x) + s);
    }
  }

  /** Text, bytes and pool entries come back exactly when their length fits the u32. */
  lemma BlobReadsBackIff(x: bytes, s: bytes)
    ensures ParseBlob(Blob(x) + s) == Ok(x, s) <==> |x| < TWO_TO_THE_32
  {
    if |x| < TWO_TO_THE_32 { ParseBlobOf(x, s); }
  }
}
