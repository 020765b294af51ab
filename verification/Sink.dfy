/** Writing: the counting writer, FieldValue::encode, EventEncoder and the frame encoders
    of codec.rs, as loops that append to a writer. */
module Sink {
  import opened Bytes
  import opened Leb128
  import opened Values
  import opened Frames

  /** CountingWriter over an infallible buffer. What was in the buffer before it was
      wrapped is not counted. */
  class CountingWriter {
    var inner: bytes
    var bytesWritten: nat
    ghost const uncounted: nat

    ghost predicate Counts()
      reads this
    {
      |inner| == uncounted + bytesWritten
    }

    constructor (buffer: bytes)
      ensures Counts() && inner == buffer && bytesWritten == 0 && uncounted == |buffer|
    {
      inner, bytesWritten, uncounted := buffer, 0, |buffer|;
    }

    method WriteAll(buf: bytes)
      requires Counts()
      modifies this
      ensures Counts() && inner == old(inner) + buf
    {
      inner := inner + buf;
      bytesWritten := bytesWritten + |buf|;
    }
  }

  /** `done` was written and `todo` is still to come. */
  lemma NextOf<T>(e: T -> bytes, xs: seq<T>, i: nat)
    requires i < |xs|
    ensures Concat(e, xs[i..]) == e(xs[i]) + Concat(e, xs[i + 1..])
  {
    assert xs[i..][1..] == xs[i + 1..];
  }

  /** FieldValue::encode */
  method EncodeInto(v: Value, w: CountingWriter)
    requires w.Counts()
    modifies w
    ensures w.Counts() && w.inner == old(w.inner) + EncodeValue(v)
    decreases v, 0
  {
    hide Leb, Le;
    match v
    case I64(i) => w.WriteAll(U64Le(if i < 0 then i + TWO_TO_THE_64 else i));
    case F64(bits) => w.WriteAll(U64Le(bits));
    case Bool(b) => w.WriteAll([if b then 1 else 0]);
    case String(x) => BlobInto(x, w);
    case Bytes(x) => BlobInto(x, w);
    case PooledString(id) => w.WriteAll(U32Le(id));
    case PooledStackFrames(id) => w.WriteAll(U32Le(id));
    case Varint(n) => w.WriteAll(Leb(n));
    case StackFrames(addrs) => AddressesInto(addrs, w);
    case StringMap(texts) => TextsInto(texts, w);
    case List(items) => ItemsInto(items, w);
    case Map(entries) => EntriesInto(entries, w);
    case Absent => w.WriteAll([0]);
  }

  method BlobInto(x: bytes, w: CountingWriter)
    requires w.Counts()
    modifies w
    ensures w.Counts() && w.inner == old(w.inner) + Blob(x)
  {
    hide Le;
    w.WriteAll(U32Le(|x|));
    w.WriteAll(x);
    Assoc(old(w.inner), U32Le(|x|), x);
  }

  method AddressesInto(addrs: seq<u64>, w: CountingWriter)
    requires w.Counts()
    modifies w
    ensures w.Counts() && w.inner == old(w.inner) + EncodeAddresses(addrs)
  {
    hide Le;
    w.WriteAll(U32Le(|addrs|));
    ghost var whole := w.inner + Concat(U64Le, addrs);
    Assoc(old(w.inner), U32Le(|addrs|), Concat(U64Le, addrs));
    for i := 0 to |addrs|
      invariant w.Counts() && w.inner + Concat(U64Le, addrs[i..]) == whole
    {
      NextOf(U64Le, addrs, i);
      Assoc(w.inner, U64Le(addrs[i]), Concat(U64Le, addrs[i + 1..]));
      w.WriteAll(U64Le(addrs[i]));
    }
  }

  method TextsInto(texts: seq<(bytes, bytes)>, w: CountingWriter)
    requires w.Counts()
    modifies w
    ensures w.Counts() && w.inner == old(w.inner) + (U32Le(|texts|) + Concat(TextPair, texts))
  {
    hide Le, Blob;
    w.WriteAll(U32Le(|texts|));
    ghost var whole := w.inner + Concat(TextPair, texts);
    Assoc(old(w.inner), U32Le(|texts|), Concat(TextPair, texts));
    for i := 0 to |texts|
      invariant w.Counts() && w.inner + Concat(TextPair, texts[i..]) == whole
    {
      NextOf(TextPair, texts, i);
      Assoc(w.inner, TextPair(texts[i]), Concat(TextPair, texts[i + 1..]));
      Assoc(w.inner, Blob(texts[i].0), Blob(texts[i].1));
      BlobInto(texts[i].0, w);
      BlobInto(texts[i].1, w);
    }
  }

  method ItemsInto(items: seq<Value>, w: CountingWriter)
    requires w.Counts()
    modifies w
    ensures w.Counts() && w.inner == old(w.inner) + (U32Le(|items|) + EncodeItems(items))
    decreases items, 1
  {
    hide Le, EncodeValue, TagOf;
    w.WriteAll(U32Le(|items|));
    ghost var whole := w.inner + EncodeItems(items);
    Assoc(old(w.inner), U32Le(|items|), EncodeItems(items));
    for i := 0 to |items|
      invariant w.Counts() && w.inner + EncodeItems(items[i..]) == whole
    {
      var item := items[i];
      NextItem(items, i, w.inner);
      w.WriteAll([TagOf(item)]);
      EncodeInto(item, w);
    }
  }

  lemma NextItem(items: seq<Value>, i: nat, before: bytes)
    requires i < |items|
    ensures before + EncodeItems(items[i..])
            == before + [TagOf(items[i])] + EncodeValue(items[i]) + EncodeItems(items[i + 1..])
  {
    hide EncodeValue, TagOf;
    assert items[i..][1..] == items[i + 1..];
  }

  method EntriesInto(entries: seq<Entry>, w: CountingWriter)
    requires w.Counts()
    modifies w
    ensures w.Counts() && w.inner == old(w.inner) + (U32Le(|entries|) + EncodeEntries(entries))
    decreases entries, 1
  {
    hide Le, Values.EncodeEntry;
    w.WriteAll(U32Le(|entries|));
    ghost var whole := w.inner + EncodeEntries(entries);
    Assoc(old(w.inner), U32Le(|entries|), EncodeEntries(entries));
    for i := 0 to |entries|
      invariant w.Counts() && w.inner + EncodeEntries(entries[i..]) == whole
    {
      NextPair(entries, i, w.inner);
      EntryInto(entries[i], w);
    }
  }

  method EntryInto(e: Entry, w: CountingWriter)
    requires w.Counts()
    modifies w
    ensures w.Counts() && w.inner == old(w.inner) + Values.EncodeEntry(e)
    decreases e, 0
  {
    hide EncodeValue, TagOf;
    Assoc(old(w.inner), [TagOf(e.key)] + EncodeValue(e.key), [TagOf(e.val)] + EncodeValue(e.val));
    Assoc(old(w.inner), [TagOf(e.key)], EncodeValue(e.key));
    Assoc(old(w.inner) + ([TagOf(e.key)] + EncodeValue(e.key)), [TagOf(e.val)], EncodeValue(e.val));
    w.WriteAll([TagOf(e.key)]);
    EncodeInto(e.key, w);
    w.WriteAll([TagOf(e.val)]);
    EncodeInto(e.val, w);
  }

  lemma NextPair(es: seq<Entry>, i: nat, before: bytes)
    requires i < |es|
    ensures before + EncodeEntries(es[i..]) == before + Values.EncodeEntry(es[i]) + EncodeEntries(es[i + 1..])
  {
    assert es[i..][1..] == es[i + 1..];
  }

  // ----- fields of an event

  /** write_field_value, and the write of a derived field. */
  method FieldInto(dynamic: bool, tag: byte, v: Value, w: CountingWriter)
    requires w.Counts()
    modifies w
    ensures w.Counts() && w.inner == old(w.inner) + if dynamic then EncodeDynamicField(tag, v) else EncodeField(tag, v)
  {
    hide Le, EncodeValue;
    var kind := tag % OPTIONAL_BIT;
    if tag >= OPTIONAL_BIT {
      if v.Absent? { w.WriteAll([0]); return; }
      w.WriteAll([1]);
      Assoc(old(w.inner), [1], if dynamic then EncodeValue(v) else EncodeTyped(kind, v));
    }
    if !dynamic && v.Varint? && kind in {U8_TAG, U16_TAG, U32_TAG} { w.WriteAll(Le(FixedWidth(kind), v.n)); }
    else { EncodeInto(v, w); }
  }

  method FieldsInto(dynamic: bool, tags: seq<byte>, vs: seq<Value>, w: CountingWriter)
    requires w.Counts() && |tags| == |vs|
    modifies w
    ensures w.Counts() && w.inner == old(w.inner) + EncodeFields(dynamic, tags, vs)
  {
    hide EncodeField, EncodeDynamicField;
    ghost var whole := w.inner + EncodeFields(dynamic, tags, vs);
    for i := 0 to |vs|
      invariant w.Counts() && w.inner + EncodeFields(dynamic, tags[i..], vs[i..]) == whole
    {
      NextFieldBytes(dynamic, tags, vs, i, w.inner);
      FieldInto(dynamic, tags[i], vs[i], w);
    }
  }

  lemma NextFieldBytes(dynamic: bool, tags: seq<byte>, vs: seq<Value>, i: nat, before: bytes)
    requires i < |vs| == |tags|
    ensures before + EncodeFields(dynamic, tags[i..], vs[i..])
         == before + (if dynamic then EncodeDynamicField(tags[i], vs[i]) else EncodeField(tags[i], vs[i]))
            + EncodeFields(dynamic, tags[i + 1..], vs[i + 1..])
  {
    hide EncodeField, EncodeDynamicField;
    assert tags[i..][1..] == tags[i + 1..] && vs[i..][1..] == vs[i + 1..];
  }

  // ----- frames

  method NameInto(x: bytes, w: CountingWriter)
    requires w.Counts()
    modifies w
    ensures w.Counts() && w.inner == old(w.inner) + Name(x)
  {
    hide Le;
    w.WriteAll(U16Le(|x|));
    w.WriteAll(x);
    Assoc(old(w.inner), U16Le(|x|), x);
  }

  /** encode_schema */
  method SchemaInto(id: u16, e: SchemaEntry, w: CountingWriter)
    requires w.Counts()
    modifies w
    ensures w.Counts() && w.inner == old(w.inner) + EncodeWire(WireSchema(id, e))
  {
    hide Le, Name;
    w.WriteAll([SCHEMA_FRAME]);
    w.WriteAll(U16Le(id));
    NameInto(e.name, w);
    w.WriteAll([if e.hasTimestamp then 1 else 0]);
    w.WriteAll(U16Le(|e.fields|));
    ghost var whole := w.inner + Concat(EncodeFieldDef, e.fields);
    SchemaBytes(old(w.inner), id, e);
    for i := 0 to |e.fields|
      invariant w.Counts() && w.inner + Concat(EncodeFieldDef, e.fields[i..]) == whole
    {
      var f := e.fields[i];
      NextOf(EncodeFieldDef, e.fields, i);
      Assoc(w.inner, EncodeFieldDef(f), Concat(EncodeFieldDef, e.fields[i + 1..]));
      Assoc(w.inner, Name(f.name), [f.tag]);
      NameInto(f.name, w);
      w.WriteAll([f.tag]);
    }
  }

  lemma SchemaBytes(before: bytes, id: u16, e: SchemaEntry)
    ensures before + EncodeWire(WireSchema(id, e))
         == before + [SCHEMA_FRAME] + U16Le(id) + Name(e.name) + [if e.hasTimestamp then 1 else 0]
            + U16Le(|e.fields|) + Concat(EncodeFieldDef, e.fields)
  {
    hide Le, Name, Concat;
    var t, i, n := [SCHEMA_FRAME], U16Le(id), Name(e.name);
    var f, c, x := [if e.hasTimestamp then 1 else 0], U16Le(|e.fields|), Concat(EncodeFieldDef, e.fields);
    assert EncodeWire(WireSchema(id, e)) == t + (i + (n + (f + (c + x))));
    SixParts(before, t, i, n, f, c, x);
  }

  lemma SixParts(z: bytes, t: bytes, i: bytes, n: bytes, f: bytes, c: bytes, x: bytes)
    ensures z + (t + (i + (n + (f + (c + x))))) == z + t + i + n + f + c + x
  {
    Assoc(z, t, i + (n + (f + (c + x))));
    Assoc(z + t, i, n + (f + (c + x)));
    Assoc(z + t + i, n, f + (c + x));
    Assoc(z + t + i + n, f, c + x);
    Assoc(z + t + i + n + f, c, x);
  }

  /** encode_schema_annotations; its caller has checked the count. */
  method AnnotationsInto(id: u16, xs: seq<Annotation>, w: CountingWriter)
    requires w.Counts()
    modifies w
    ensures w.Counts() && w.inner == old(w.inner) + EncodeWire(WireAnnotations(id, xs))
  {
    hide Le, Name, Blob, Leb;
    w.WriteAll([ANNOTATIONS_FRAME]);
    w.WriteAll(Leb(id));
    w.WriteAll(U16Le(|xs|));
    ghost var whole := w.inner + Concat(EncodeAnnotation, xs);
    Assoc(old(w.inner), [ANNOTATIONS_FRAME], Leb(id) + (U16Le(|xs|) + Concat(EncodeAnnotation, xs)));
    Assoc(old(w.inner) + [ANNOTATIONS_FRAME], Leb(id), U16Le(|xs|) + Concat(EncodeAnnotation, xs));
    Assoc(old(w.inner) + [ANNOTATIONS_FRAME] + Leb(id), U16Le(|xs|), Concat(EncodeAnnotation, xs));
    for i := 0 to |xs|
      invariant w.Counts() && w.inner + Concat(EncodeAnnotation, xs[i..]) == whole
    {
      var a := xs[i];
      NextOf(EncodeAnnotation, xs, i);
      Assoc(w.inner, EncodeAnnotation(a), Concat(EncodeAnnotation, xs[i + 1..]));
      Assoc(w.inner, U16Le(a.index), Name(a.key) + Blob(a.value));
      Assoc(w.inner + U16Le(a.index), Name(a.key), Blob(a.value));
      w.WriteAll(U16Le(a.index));
      NameInto(a.key, w);
      BlobInto(a.value, w);
    }
  }

  /** encode_string_pool */
  method StringPoolInto(es: seq<PoolEntry>, w: CountingWriter)
    requires w.Counts()
    modifies w
    ensures w.Counts() && w.inner == old(w.inner) + EncodeWire(WireStrings(es))
  {
    hide Le, Blob;
    w.WriteAll([STRING_POOL_FRAME]);
    w.WriteAll(U32Le(|es|));
    ghost var whole := w.inner + Concat(EncodePoolEntry, es);
    Assoc(old(w.inner), [STRING_POOL_FRAME], U32Le(|es|) + Concat(EncodePoolEntry, es));
    Assoc(old(w.inner) + [STRING_POOL_FRAME], U32Le(|es|), Concat(EncodePoolEntry, es));
    for i := 0 to |es|
      invariant w.Counts() && w.inner + Concat(EncodePoolEntry, es[i..]) == whole
    {
      NextOf(EncodePoolEntry, es, i);
      Assoc(w.inner, EncodePoolEntry(es[i]), Concat(EncodePoolEntry, es[i + 1..]));
      Assoc(w.inner, U32Le(es[i].id), Blob(es[i].data));
      w.WriteAll(U32Le(es[i].id));
      BlobInto(es[i].data, w);
    }
  }

  /** encode_stack_pool */
  method StackPoolInto(es: seq<StackEntry>, w: CountingWriter)
    requires w.Counts()
    modifies w
    ensures w.Counts() && w.inner == old(w.inner) + EncodeWire(WireStacks(es))
  {
    hide Le, EncodeAddresses;
    w.WriteAll([STACK_POOL_FRAME]);
    w.WriteAll(U32Le(|es|));
    ghost var whole := w.inner + Concat(EncodeStackEntry, es);
    Assoc(old(w.inner), [STACK_POOL_FRAME], U32Le(|es|) + Concat(EncodeStackEntry, es));
    Assoc(old(w.inner) + [STACK_POOL_FRAME], U32Le(|es|), Concat(EncodeStackEntry, es));
    for i := 0 to |es|
      invariant w.Counts() && w.inner + Concat(EncodeStackEntry, es[i..]) == whole
    {
      NextOf(EncodeStackEntry, es, i);
      Assoc(w.inner, EncodeStackEntry(es[i]), Concat(EncodeStackEntry, es[i + 1..]));
      Assoc(w.inner, U32Le(es[i].id), EncodeAddresses(es[i].frames));
      w.WriteAll(U32Le(es[i].id));
      AddressesInto(es[i].frames, w);
    }
  }
}
