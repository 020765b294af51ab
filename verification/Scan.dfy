/** How slice.js finds the end of each frame without decoding it. */
module Scan {
  import opened Bytes
  import opened Values
  import opened Frames
  import opened View
  import opened ValueSizes

  /** What the slicer keeps of a schema. */
  datatype Layout = Layout(name: bytes, hasTimestamp: bool, fields: seq<byte>)

  function LayoutOf(e: SchemaEntry): Layout {
    Layout(e.name, e.hasTimestamp, Tags(e.fields))
  }

  /** Where a parse that starts somewhere in `buf` ends. */
  function EndOf<T>(buf: bytes, r: Parsed<T>): int
    requires r.Ok?
  {
    |buf| - |r.rest|
  }

  /** `n` more items of `p` start at `at` and end before `rest`. */
  predicate RepLeft<T>(p: bytes -> Parsed<T>, n: nat, buf: bytes, at: nat, rest: bytes) {
    at <= |buf| && Rep(p, n, buf[at..]).Ok? && Rep(p, n, buf[at..]).rest == rest
  }

  lemma RepDone<T>(p: bytes -> Parsed<T>, buf: bytes, at: nat, rest: bytes)
    requires RepLeft(p, 0, buf, at, rest)
    ensures at == |buf| - |rest|
  {
  }

  /** Bytes of a slice; like Buffer.slice it stops at the end. */
  function BufSlice(buf: bytes, lo: nat, hi: nat): bytes
    requires lo <= hi
  {
    if hi <= |buf| then buf[lo..hi] else if lo <= |buf| then buf[lo..] else []
  }

  // ----- string pools

  lemma PoolEntryAt(buf: bytes, at: nat)
    requires at <= |buf|
    ensures var len := GetLe(buf, at + 4, 4);
            var r := ParsePoolEntry(buf[at..]);
            r.Ok? ==> len.Some? && at + 8 + len.value <= |buf| && r.rest == buf[at + 8 + len.value..]
  {
    hide GetLe, ParseBlob;
    LeAt(buf, at, 4);
    if at + 4 <= |buf| { BlobAt(buf, at + 4); }
  }

  method ScanStringPool(buf: bytes, start: nat) returns (r: Option<nat>)
    requires start <= |buf|
    ensures var p := ParseStringPool(buf[start..]); p.Ok? ==> r == Some(EndOf(buf, p))
    ensures r.Some? ==> r.value >= start
  {
    hide GetLe, ParsePoolEntry;
    ghost var p := ParseStringPool(buf[start..]);
    LeAt(buf, start, 4);
    CountAt(buf, start);
    var count :- GetLe(buf, start, 4);
    var pos := start + 4;
    var i := 0;
    while i < count
      invariant 0 <= i <= count && start <= pos
      invariant p.Ok? ==> RepLeft(ParsePoolEntry, count - i, buf, pos, p.rest)
    {
      if p.Ok? { PoolEntryAt(buf, pos); }
      pos := pos + 4;
      var len :- GetLe(buf, pos, 4);
      pos := pos + 4 + len;
      i := i + 1;
    }
    if p.Ok? { RepDone(ParsePoolEntry, buf, pos, p.rest); }
    return Some(pos);
  }

  // ----- stack pools

  lemma StackEntryAt(buf: bytes, at: nat)
    requires at <= |buf|
    ensures var n := GetLe(buf, at + 4, 4);
            var r := ParseStackEntry(buf[at..]);
            r.Ok? ==> n.Some? && at + 8 + 8 * n.value <= |buf| && r.rest == buf[at + 8 + 8 * n.value..]
  {
    hide GetLe;
    CountAt(buf, at);
    if ParseStackEntry(buf[at..]).Ok? {
      CountAt(buf, at + 4);
      AddressesAt(GetLe(buf, at + 4, 4).value, buf, at + 8);
    }
  }

  method ScanStackPool(buf: bytes, start: nat) returns (r: Option<nat>)
    requires start <= |buf|
    ensures var p := ParseStackPool(buf[start..]); p.Ok? ==> r == Some(EndOf(buf, p))
    ensures r.Some? ==> r.value >= start
  {
    hide GetLe, ParseStackEntry;
    ghost var p := ParseStackPool(buf[start..]);
    CountAt(buf, start);
    var count :- GetLe(buf, start, 4);
    var pos := start + 4;
    var i := 0;
    while i < count
      invariant 0 <= i <= count && start <= pos
      invariant p.Ok? ==> RepLeft(ParseStackEntry, count - i, buf, pos, p.rest)
    {
      if p.Ok? { StackEntryAt(buf, pos); }
      pos := pos + 4;
      var frameCount :- GetLe(buf, pos, 4);
      pos := pos + 4 + frameCount * 8;
      i := i + 1;
    }
    if p.Ok? { RepDone(ParseStackEntry, buf, pos, p.rest); }
    return Some(pos);
  }

  // ----- annotations

  lemma AnnotationAt(buf: bytes, at: nat)
    requires at <= |buf|
    ensures var kLen := GetLe(buf, at + 2, 2);
            var r := ParseAnnotation(Js, buf[at..]);
            r.Ok? ==> (kLen.Some?
              && var vLen := GetLe(buf, at + 4 + kLen.value, 4);
                 vLen.Some? && at + 8 + kLen.value + vLen.value <= |buf|
                 && r.rest == buf[at + 8 + kLen.value + vLen.value..])
  {
    hide GetLe, ParseName, ParseBlob;
    ShortCountAt(buf, at);
    if ParseAnnotation(Js, buf[at..]).Ok? {
      NameAt(buf, at + 2);
      BlobAt(buf, at + 4 + GetLe(buf, at + 2, 2).value);
    }
  }

  method ScanAnnotations(buf: bytes, start: nat) returns (r: Option<nat>)
    requires start <= |buf|
    ensures var p := ParseAnnotations(Js, buf[start..]); p.Ok? ==> r == Some(EndOf(buf, p))
    ensures r.Some? ==> r.value >= start
  {
    hide GetLe, ParseAnnotation, ParseVarint;
    ghost var p := ParseAnnotations(Js, buf[start..]);
    var typeId :- DecodeULEB128(buf, start);
    VarintEndsInside(buf, start);
    var pos := start + typeId.1;
    ShortCountAt(buf, pos);
    var annCount :- GetLe(buf, pos, 2);
    pos := pos + 2;
    var i := 0;
    while i < annCount
      invariant 0 <= i <= annCount && start <= pos
      invariant p.Ok? ==> RepLeft(AnnotationParser(Js), annCount - i, buf, pos, p.rest)
    {
      if p.Ok? { AnnotationAt(buf, pos); }
      pos := pos + 2;
      var keyLen :- GetLe(buf, pos, 2);
      pos := pos + 2 + keyLen;
      var valLen :- GetLe(buf, pos, 4);
      pos := pos + 4 + valLen;
      i := i + 1;
    }
    if p.Ok? { RepDone(AnnotationParser(Js), buf, pos, p.rest); }
    return Some(pos);
  }

  // ----- schemas

  lemma FieldDefAt(buf: bytes, at: nat)
    requires at <= |buf|
    ensures var fnLen := GetLe(buf, at, 2);
            var r := ParseFieldDef(Js, buf[at..]);
            r.Ok? ==> (fnLen.Some? && at + 2 + fnLen.value < |buf|
              && r.value.tag == buf[at + 2 + fnLen.value] && r.rest == buf[at + 3 + fnLen.value..])
  {
    hide GetLe, ParseName;
    NameAt(buf, at);
    if ParseFieldDef(Js, buf[at..]).Ok? { ByteAt(buf, at + 2 + GetLe(buf, at, 2).value); }
  }

  /** The tags read so far, and the definitions still to come. */
  predicate TagsLeft(n: nat, buf: bytes, at: nat, tags: seq<byte>, all: seq<byte>, rest: bytes) {
    at <= |buf|
    && var r := Rep(FieldDefParser(Js), n, buf[at..]);
       r.Ok? && r.rest == rest && tags + Tags(r.value) == all
  }

  lemma NextTag(n: nat, buf: bytes, at: nat, tags: seq<byte>, all: seq<byte>, rest: bytes)
    requires n > 0 && TagsLeft(n, buf, at, tags, all, rest)
    ensures var fnLen := GetLe(buf, at, 2);
            fnLen.Some? && at + 2 + fnLen.value < |buf|
            && TagsLeft(n - 1, buf, at + 3 + fnLen.value, tags + [buf[at + 2 + fnLen.value]], all, rest)
  {
    hide GetLe, ParseFieldDef;
    FieldDefAt(buf, at);
    var r := Rep(FieldDefParser(Js), n, buf[at..]);
    assert Tags(r.value) == [r.value[0].tag] + Tags(r.value[1..]);
    assert tags + ([r.value[0].tag] + Tags(r.value[1..])) == tags + [r.value[0].tag] + Tags(r.value[1..]);
  }

  method ScanFieldDefs(buf: bytes, start: nat) returns (r: Option<(seq<byte>, nat)>)
    ensures start <= |buf| ==> var p := ParseFieldDefs(Js, buf[start..]); p.Ok? ==>
              r == Some((Tags(p.value), EndOf(buf, p)))
    ensures r.Some? ==> r.value.1 >= start
  {
    hide GetLe, ParseFieldDef, TagsLeft;
    ghost var good := start <= |buf| && ParseFieldDefs(Js, buf[start..]).Ok?;
    ghost var all := if good then Tags(ParseFieldDefs(Js, buf[start..]).value) else [];
    ghost var rest := if good then ParseFieldDefs(Js, buf[start..]).rest else [];
    if good { TagsStart(buf, start); }
    var fieldCount :- GetLe(buf, start, 2);
    var pos := start + 2;
    var fields: seq<byte> := [];
    var i := 0;
    while i < fieldCount
      invariant 0 <= i <= fieldCount && start <= pos
      invariant good ==> TagsLeft(fieldCount - i, buf, pos, fields, all, rest)
    {
      if good { NextTag(fieldCount - i, buf, pos, fields, all, rest); }
      var fnLen :- GetLe(buf, pos, 2);
      pos := pos + 2 + fnLen;
      var ft :- GetByte(buf, pos);
      pos := pos + 1;
      fields := fields + [ft];
      i := i + 1;
    }
    if good { TagsDone(buf, pos, fields, all, rest); }
    return Some((fields, pos));
  }

  lemma TagsStart(buf: bytes, start: nat)
    requires start <= |buf| && ParseFieldDefs(Js, buf[start..]).Ok?
    ensures var p := ParseFieldDefs(Js, buf[start..]); var n := GetLe(buf, start, 2);
            n.Some? && TagsLeft(n.value, buf, start + 2, [], Tags(p.value), p.rest)
  {
    hide GetLe, ParseFieldDef;
    ShortCountAt(buf, start);
    assert [] + Tags(ParseFieldDefs(Js, buf[start..]).value) == Tags(ParseFieldDefs(Js, buf[start..]).value);
  }

  lemma TagsDone(buf: bytes, at: nat, tags: seq<byte>, all: seq<byte>, rest: bytes)
    requires TagsLeft(0, buf, at, tags, all, rest)
    ensures tags == all && at == |buf| - |rest|
  {
  }

  /** A schema frame: its id, its layout and its end. */
  method ScanSchema(buf: bytes, start: nat) returns (r: Option<(nat, Layout, nat)>)
    requires start <= |buf|
    ensures var p := ParseSchema(Js, buf[start..]);
            p.Ok? ==> r == Some((p.value.id, LayoutOf(p.value.entry), EndOf(buf, p)))
    ensures r.Some? ==> r.value.2 >= start
  {
    hide GetLe, ParseFieldDefs;
    SchemaAt(buf, start);
    var typeId :- GetLe(buf, start, 2);
    var nameLen :- GetLe(buf, start + 2, 2);
    var name := BufSlice(buf, start + 4, start + 4 + nameLen);
    var pos := start + 4 + nameLen;
    var flag :- GetByte(buf, pos);
    pos := pos + 1;
    var fields :- ScanFieldDefs(buf, pos);
    return Some((typeId, Layout(name, flag != 0, fields.0), fields.1));
  }

  lemma SchemaAt(buf: bytes, start: nat)
    requires start <= |buf| 
    ensures var p := ParseSchema(Js, buf[start..]);
            p.Ok? ==> p.value.Schema?
    ensures var p := ParseSchema(Js, buf[start..]);
            p.Ok? ==> (GetLe(buf, start, 2) == Some(p.value.id) && GetLe(buf, start + 2, 2).Some?
              && var at := start + 4 + GetLe(buf, start + 2, 2).value;
                 at < |buf| && p.value.entry.name == buf[start + 4..at] && p.value.entry.hasTimestamp == (buf[at] != 0)
                 && ParseFieldDefs(Js, buf[at + 1..]) == Ok(p.value.entry.fields, p.rest))
  {
    hide GetLe, ParseName, ParseFieldDefs;
    if ParseSchema(Js, buf[start..]).Ok? {
      ShortCountAt(buf, start);
      NameAt(buf, start + 2);
      ByteAt(buf, start + 4 + GetLe(buf, start + 2, 2).value);
    }
  }

  // ----- event bodies

  predicate FieldsLeft(tags: seq<byte>, buf: bytes, at: nat, rest: bytes) {
    at <= |buf| && ParseFields(Js, tags, buf[at..]).Ok? && ParseFields(Js, tags, buf[at..]).rest == rest
  }

  lemma NextField(tags: seq<byte>, buf: bytes, at: nat, rest: bytes)
    requires tags != [] && FieldsLeft(tags, buf, at, rest)
    ensures ParseField(Js, tags[0], buf[at..]).Ok?
    ensures at <= FieldEnd(tags[0], buf, at) && FieldsLeft(tags[1..], buf, FieldEnd(tags[0], buf, at), rest)
  {
    hide ParseField;
    FieldEndsInside(tags[0], buf, at);
  }

  method ScanFields(buf: bytes, start: nat, fields: seq<byte>) returns (r: Option<nat>)
    ensures start <= |buf| ==> var p := ParseFields(Js, fields, buf[start..]); p.Ok? ==> r == Some(EndOf(buf, p))
    ensures r.Some? ==> r.value >= start
  {
    hide ParseField, FieldsLeft;
    ghost var good := start <= |buf| && ParseFields(Js, fields, buf[start..]).Ok?;
    ghost var rest := if good then ParseFields(Js, fields, buf[start..]).rest else [];
    assert good ==> FieldsLeft(fields, buf, start, rest) by { if good { FieldsStart(fields, buf, start); } }
    var pos := start;
    var i := 0;
    while i < |fields|
      invariant 0 <= i <= |fields| && start <= pos
      invariant good ==> FieldsLeft(fields[i..], buf, pos, rest)
    {
      if good {
        FieldsInside(fields[i..], buf, pos, rest);
        NextField(fields[i..], buf, pos, rest);
        assert fields[i..][1..] == fields[i + 1..];
      }
      var size :- FieldSize(buf, pos, fields[i]);
      pos := pos + size;
      i := i + 1;
    }
    if good { FieldsDone(fields[i..], buf, pos, rest); }
    return Some(pos);
  }

  lemma FieldsStart(tags: seq<byte>, buf: bytes, at: nat)
    requires at <= |buf| && ParseFields(Js, tags, buf[at..]).Ok?
    ensures FieldsLeft(tags, buf, at, ParseFields(Js, tags, buf[at..]).rest)
  {
  }

  lemma FieldsInside(tags: seq<byte>, buf: bytes, at: nat, rest: bytes)
    requires FieldsLeft(tags, buf, at, rest)
    ensures at <= |buf|
  {
  }

  lemma FieldsDone(tags: seq<byte>, buf: bytes, at: nat, rest: bytes)
    requires tags == [] && FieldsLeft(tags, buf, at, rest)
    ensures at == |buf| - |rest|
  {
  }
}
