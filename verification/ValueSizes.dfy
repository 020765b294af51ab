/** decode.js's number reading and slice.js's second implementation of the value grammar. */
module ValueSizes {
  import opened Bytes
  import opened Leb128
  import opened Values
  import opened View

  /** decodeULEB128: no limit on the length, no limit on the value. */
  method DecodeULEB128(buf: bytes, offset: nat) returns (r: Option<(nat, nat)>)
    requires offset <= |buf|
    ensures var p := ParseVarint(Js, buf[offset..]);
            r == if p.Fail? then None else Some((p.value, |buf| - offset - |p.rest|))
  {
    hide AddGroup, Resume, ParseLeb;
    var result, pos := 0, offset;
    ghost var d := buf[offset..];
    ResumeAtStart(ParseLeb(|d|, d));
    while true
      invariant offset <= pos <= |buf|
      invariant Resume(result, pos - offset, ParseLeb(|buf| - pos, buf[pos..])) == ParseLeb(|d|, d)
      decreases |buf| - pos
    {
      if pos == |buf| { NothingToRead(result, pos - offset, buf[pos..]); }
      var b :- GetByte(buf, pos);
      ByteAt(buf, pos);
      UnboundedTurn(result, pos - offset, |buf| - pos, buf[pos..]);
      result := AddGroup(result, b % 0x80, pos - offset);
      pos := pos + 1;
      if b < 0x80 { return Some((result, pos - offset)); }
    }
  }

  lemma NothingToRead(low: nat, pos: nat, d: bytes)
    requires d == []
    ensures Resume(low, pos, ParseLeb(0, d)).Fail?
  {
  }

  lemma VarintEndsInside(buf: bytes, at: nat)
    requires at <= |buf|
    ensures var p := ParseVarint(Js, buf[at..]);
            p.Ok? ==> |p.rest| <= |buf| - at && p.rest == buf[|buf| - |p.rest|..]
  {
    hide ParseVarint;
    ParseVarintLocal(Js, buf[at..], []);
  }

  /** One element read: what is left to read after it. */
  lemma ItemAt(buf: bytes, at: nat)
    requires at < |buf|
    ensures ParseItem(Js, buf[at..]) == ParseField(Js, buf[at], buf[at + 1..])
  {
    hide ParseField;
    ByteAt(buf, at);
  }

  /** Where the size loops stand: the elements still to come end where the whole does. */
  predicate ItemsLeft(n: nat, buf: bytes, at: nat, rest: bytes) {
    at <= |buf| && ParseItems(Js, n, buf[at..]).Ok? && ParseItems(Js, n, buf[at..]).rest == rest
  }

  predicate EntriesLeft(n: nat, buf: bytes, at: nat, rest: bytes) {
    at <= |buf| && ParseEntries(Js, n, buf[at..]).Ok? && ParseEntries(Js, n, buf[at..]).rest == rest
  }

  predicate TextsLeft(n: nat, buf: bytes, at: nat, rest: bytes) {
    at <= |buf| && Rep(ParseTextPair, n, buf[at..]).Ok? && Rep(ParseTextPair, n, buf[at..]).rest == rest
  }

  /** Offset behind a field that starts at `at`. */
  function FieldEnd(tag: byte, buf: bytes, at: nat): int
    requires at <= |buf| && ParseField(Js, tag, buf[at..]).Ok?
  {
    |buf| - |ParseField(Js, tag, buf[at..]).rest|
  }

  lemma FieldEndsInside(tag: byte, buf: bytes, at: nat)
    requires at <= |buf| && ParseField(Js, tag, buf[at..]).Ok?
    ensures at <= FieldEnd(tag, buf, at) <= |buf|
    ensures buf[FieldEnd(tag, buf, at)..] == ParseField(Js, tag, buf[at..]).rest
  {
    hide ParseField;
    ParseFieldLocal(Js, tag, buf[at..], []);
  }

  /** An element starts at `at` and ends before `rest`. */
  predicate FieldBehindTag(buf: bytes, at: nat) {
    at < |buf| && ParseField(Js, buf[at], buf[at + 1..]).Ok?
  }

  lemma NextItem(n: nat, buf: bytes, at: nat, rest: bytes)
    requires n > 0 && ItemsLeft(n, buf, at, rest)
    ensures FieldBehindTag(buf, at)
    ensures var e := FieldEnd(buf[at], buf, at + 1); at + 1 <= e && ItemsLeft(n - 1, buf, e, rest)
  {
    hide ParseField;
    ItemAt(buf, at);
    FieldEndsInside(buf[at], buf, at + 1);
  }

  lemma NextEntry(n: nat, buf: bytes, at: nat, rest: bytes)
    requires n > 0 && EntriesLeft(n, buf, at, rest)
    ensures FieldBehindTag(buf, at)
    ensures var mid := FieldEnd(buf[at], buf, at + 1);
            at + 1 <= mid && FieldBehindTag(buf, mid)
            && var e := FieldEnd(buf[mid], buf, mid + 1); mid + 1 <= e && EntriesLeft(n - 1, buf, e, rest)
  {
    hide ParseField;
    ItemAt(buf, at);
    FieldEndsInside(buf[at], buf, at + 1);
    var mid := FieldEnd(buf[at], buf, at + 1);
    ItemAt(buf, mid);
    FieldEndsInside(buf[mid], buf, mid + 1);
  }

  lemma NextTexts(n: nat, buf: bytes, at: nat, rest: bytes)
    requires n > 0 && TextsLeft(n, buf, at, rest)
    ensures GetLe(buf, at, 4).Some?
    ensures var mid := at + 4 + GetLe(buf, at, 4).value;
            GetLe(buf, mid, 4).Some? && TextsLeft(n - 1, buf, mid + 4 + GetLe(buf, mid, 4).value, rest)
  {
    hide GetLe, ParseBlob;
    BlobAt(buf, at);
    var mid := at + 4 + GetLe(buf, at, 4).value;
    BlobAt(buf, mid);
  }

  lemma TextsStart(buf: bytes, offset: nat)
    requires offset <= |buf| && ParseStringMap(buf[offset..]).Ok?
    ensures var n := GetLe(buf, offset, 4);
            n.Some? && TextsLeft(n.value, buf, offset + 4, ParseStringMap(buf[offset..]).rest)
  {
    LeAt(buf, offset, 4);
  }

  lemma ListStart(buf: bytes, offset: nat)
    requires offset <= |buf| && ParseValue(Js, LIST_TAG, buf[offset..]).Ok?
    ensures var n := GetLe(buf, offset, 4);
            n.Some? && ItemsLeft(n.value, buf, offset + 4, ParseValue(Js, LIST_TAG, buf[offset..]).rest)
  {
    LeAt(buf, offset, 4);
  }

  lemma MapStart(buf: bytes, offset: nat)
    requires offset <= |buf| && ParseValue(Js, MAP_TAG, buf[offset..]).Ok?
    ensures var n := GetLe(buf, offset, 4);
            n.Some? && EntriesLeft(n.value, buf, offset + 4, ParseValue(Js, MAP_TAG, buf[offset..]).rest)
  {
    LeAt(buf, offset, 4);
  }

  method SizeOfTexts(buf: bytes, offset: nat) returns (r: Option<nat>)
    ensures offset <= |buf| ==> var p := ParseStringMap(buf[offset..]); p.Ok? ==> r == Some(|buf| - offset - |p.rest|)
  {
    hide GetLe, TextsLeft, ParseStringMap;
    ghost var good := offset <= |buf| && ParseStringMap(buf[offset..]).Ok?;
    if good { TextsStart(buf, offset); }
    ghost var rest := if good then ParseStringMap(buf[offset..]).rest else [];
    var count :- GetLe(buf, offset, 4);
    var size := 4;
    var i := 0;
    while i < count
      invariant 0 <= i <= count
      invariant good ==> TextsLeft(count - i, buf, offset + size, rest)
    {
      if good { NextTexts(count - i, buf, offset + size, rest); }
      var kLen :- GetLe(buf, offset + size, 4);
      size := size + 4 + kLen;
      var vLen :- GetLe(buf, offset + size, 4);
      size := size + 4 + vLen;
      i := i + 1;
    }
    if good { TextsDone(buf, offset + size, rest); }
    return Some(size);
  }

  lemma TextsDone(buf: bytes, at: nat, rest: bytes)
    ensures TextsLeft(0, buf, at, rest) ==> at == |buf| - |rest|
    ensures ItemsLeft(0, buf, at, rest) ==> at == |buf| - |rest|
    ensures EntriesLeft(0, buf, at, rest) ==> at == |buf| - |rest|
  {
  }

  /** fieldSize agrees with the byte count of decodeFieldValue wherever that succeeds, for
      values of any nesting depth. It never looks at the end of the buffer for text, so it
      may also give a size where decoding would fail. */
  method FieldSize(buf: bytes, offset: nat, tag: byte) returns (r: Option<nat>)
    ensures offset <= |buf| ==> var p := ParseField(Js, tag, buf[offset..]); p.Ok? ==>
              r == Some(|buf| - offset - |p.rest|)
    decreases if offset <= |buf| then |buf| - offset else 0, 2
  {
    hide ParseValue;
    if tag >= OPTIONAL_BIT {
      var prefix :- GetByte(buf, offset);
      ByteAt(buf, offset);
      if prefix == 0 { return Some(1); }
      var s :- FieldSize(buf, offset + 1, tag - OPTIONAL_BIT);
      return Some(1 + s);
    }
    r := ValueSize(buf, offset, tag);
  }

  method ValueSize(buf: bytes, offset: nat, tag: byte) returns (r: Option<nat>)
    requires tag < OPTIONAL_BIT
    ensures offset <= |buf| ==> var p := ParseValue(Js, tag, buf[offset..]); p.Ok? ==>
              r == Some(|buf| - offset - |p.rest|)
    decreases if offset <= |buf| then |buf| - offset else 0, 1
  {
    hide ParseItems, ParseEntries, ParseScalar;
    if tag == LIST_TAG { r := ListSize(buf, offset); }
    else if tag == MAP_TAG { r := MapSize(buf, offset); }
    else { r := ScalarSize(buf, offset, tag); }
  }

  method ListSize(buf: bytes, offset: nat) returns (r: Option<nat>)
    ensures offset <= |buf| ==> var p := ParseValue(Js, LIST_TAG, buf[offset..]); p.Ok? ==>
              r == Some(|buf| - offset - |p.rest|)
    decreases if offset <= |buf| then |buf| - offset else 0, 0
  {
    hide GetLe, ItemsLeft, ParseField, ParseValue;
    ghost var good := offset <= |buf| && ParseValue(Js, LIST_TAG, buf[offset..]).Ok?;
    if good { ListStart(buf, offset); }
    ghost var rest := if good then ParseValue(Js, LIST_TAG, buf[offset..]).rest else [];
    var count :- GetLe(buf, offset, 4);
    var size := 4;
    var i := 0;
    while i < count
      invariant 0 <= i <= count
      invariant good ==> ItemsLeft(count - i, buf, offset + size, rest)
    {
      if good { NextItem(count - i, buf, offset + size, rest); }
      var t :- GetByte(buf, offset + size);
      size := size + 1;
      var s :- FieldSize(buf, offset + size, t);
      size := size + s;
      i := i + 1;
    }
    if good { TextsDone(buf, offset + size, rest); }
    return Some(size);
  }

  method MapSize(buf: bytes, offset: nat) returns (r: Option<nat>)
    ensures offset <= |buf| ==> var p := ParseValue(Js, MAP_TAG, buf[offset..]); p.Ok? ==>
              r == Some(|buf| - offset - |p.rest|)
    decreases if offset <= |buf| then |buf| - offset else 0, 0
  {
    hide ParseItem;
    hide GetLe, EntriesLeft, ParseField, ParseValue;
    ghost var good := offset <= |buf| && ParseValue(Js, MAP_TAG, buf[offset..]).Ok?;
    if good { MapStart(buf, offset); }
    ghost var rest := if good then ParseValue(Js, MAP_TAG, buf[offset..]).rest else [];
    var count :- GetLe(buf, offset, 4);
    var size := 4;
    var i := 0;
    while i < count
      invariant 0 <= i <= count
      invariant good ==> EntriesLeft(count - i, buf, offset + size, rest)
    {
      if good { NextEntry(count - i, buf, offset + size, rest); }
      var keyTag :- GetByte(buf, offset + size);
      size := size + 1;
      var ks :- FieldSize(buf, offset + size, keyTag);
      size := size + ks;
      var valTag :- GetByte(buf, offset + size);
      size := size + 1;
      var vs :- FieldSize(buf, offset + size, valTag);
      size := size + vs;
      i := i + 1;
    }
    if good { TextsDone(buf, offset + size, rest); }
    return Some(size);
  }

  lemma {:induction false} AddressesAt(n: nat, buf: bytes, at: nat)
    requires at <= |buf| && Rep(ParseU64, n, buf[at..]).Ok?
    ensures at + 8 * n <= |buf| && Rep(ParseU64, n, buf[at..]).rest == buf[at + 8 * n..]
  {
    if n > 0 {
      LeAt(buf, at, 8);
      AddressesAt(n - 1, buf, at + 8);
    }
  }

  /** The kinds whose size needs no recursion. */
  method ScalarSize(buf: bytes, offset: nat, tag: byte) returns (r: Option<nat>)
    ensures offset <= |buf| ==> var p := ParseScalar(Js, tag, buf[offset..]); p.Ok? ==>
              r == Some(|buf| - offset - |p.rest|)
  {
    if IsFixed(tag) {
      return Some(FixedWidth(tag));
    } else if tag == STRING_TAG || tag == BYTES_TAG {
      var len :- GetLe(buf, offset, 4);
      BlobAt(buf, offset);
      return Some(4 + len);
    } else if tag == VARINT_TAG {
      if offset > |buf| { return None; }
      var v :- DecodeULEB128(buf, offset);
      return Some(v.1);
    } else if tag == STACK_TAG {
      var count :- GetLe(buf, offset, 4);
      LeAt(buf, offset, 4);
      if ParseStackFrames(buf[offset..]).Ok? { AddressesAt(count, buf, offset + 4); }
      return Some(4 + count * 8);
    } else if tag == STRING_MAP_TAG {
      r := SizeOfTexts(buf, offset);
    } else {
      return None;
    }
  }
}
