/** Field values: the wire grammar that every decoder implements, and the encoder's
    side of it. */
module Values {
  import opened Bytes
  import opened Leb128
  import Utf8

  /** Who reads. `Owned` and `Ref` are the two Rust decoders (FieldValue::decode and
      FieldValueRef::decode), `Js` is decode.js. `Strict` accepts only what the encoder
      promises to write; what it accepts, all three others accept alike. */
  datatype Dialect = Owned | Ref | Js | Strict

  type i64 = n: int | -0x8000_0000_0000_0000 <= n < 0x8000_0000_0000_0000

  /** A value as it stands on the wire: text is kept as bytes, a float as its 64 bits.
      U8, U16 and U32 fields decode to `Varint`. */
  datatype Value =
    | I64(i: i64)
    | F64(bits: u64)
    | Bool(b: bool)
    | String(text: bytes)
    | Bytes(data: bytes)
    | PooledString(stringId: u32)
    | StackFrames(addrs: seq<u64>)
    | PooledStackFrames(stackId: u32)
    | Varint(n: nat)
    | StringMap(texts: seq<(bytes, bytes)>)
    | List(items: seq<Value>)
    | Map(entries: seq<Entry>)
    | Absent

  datatype Entry = Entry(key: Value, val: Value)

  const I64_TAG := 1
  const F64_TAG := 2
  const BOOL_TAG := 3
  const STRING_TAG := 4
  const BYTES_TAG := 5
  const POOLED_STACK_TAG := 6
  const POOLED_STRING_TAG := 7
  const STACK_TAG := 8
  const VARINT_TAG := 9
  const STRING_MAP_TAG := 10
  const U8_TAG := 11
  const U16_TAG := 12
  const U32_TAG := 13
  const LIST_TAG := 14
  const MAP_TAG := 15
  const OPTIONAL_BIT := 0x80

  /** FieldType::from_tag succeeds. */
  predicate IsFieldType(tag: byte) {
    1 <= tag % OPTIONAL_BIT <= 15
  }

  /** field_type_tag */
  function TagOf(v: Value): byte {
    match v
    case I64(_) => I64_TAG
    case F64(_) => F64_TAG
    case Bool(_) => BOOL_TAG
    case String(_) => STRING_TAG
    case Bytes(_) => BYTES_TAG
    case PooledString(_) => POOLED_STRING_TAG
    case StackFrames(_) => STACK_TAG
    case PooledStackFrames(_) => POOLED_STACK_TAG
    case Varint(_) => VARINT_TAG
    case StringMap(_) => STRING_MAP_TAG
    case List(_) => LIST_TAG
    case Map(_) => MAP_TAG
    case Absent => 0
  }

  // ----- parsing

  /** The fixed-width kinds and their widths. */
  predicate IsFixed(tag: nat) {
    tag in {I64_TAG, F64_TAG, BOOL_TAG, POOLED_STACK_TAG, POOLED_STRING_TAG, U8_TAG, U16_TAG, U32_TAG}
  }

  function FixedWidth(tag: nat): nat {
    if tag == BOOL_TAG || tag == U8_TAG then 1 else if tag == U16_TAG then 2
    else if tag == I64_TAG || tag == F64_TAG then 8 else 4
  }

  /** Two's complement. */
  function Signed(n: u64): i64 {
    if n < 0x8000_0000_0000_0000 then n else n - TWO_TO_THE_64
  }

  function FixedValue(tag: nat, n: nat): Value
    requires IsFixed(tag) && n < Pow256(FixedWidth(tag))
  {
    PowersOf256();
    if tag == I64_TAG then I64(Signed(n))
    else if tag == F64_TAG then F64(n)
    else if tag == BOOL_TAG then Bool(n != 0)
    else if tag == POOLED_STRING_TAG then PooledString(n)
    else if tag == POOLED_STACK_TAG then PooledStackFrames(n)
    else Varint(n)
  }

  function ParseU32(d: bytes): (r: Parsed<u32>)
    ensures r.Ok? ==> |r.rest| == |d| - 4
  {
    PowersOf256();
    var (n, rest) :- ParseLe(4, d);
    Ok(n, rest)
  }

  function ParseU64(d: bytes): (r: Parsed<u64>)
    ensures r.Ok? ==> |r.rest| == |d| - 8
  {
    PowersOf256();
    var (n, rest) :- ParseLe(8, d);
    Ok(n, rest)
  }

  /** A u32 length and that many bytes. */
  function ParseBlob(d: bytes): Parsed<bytes> {
    var (n, r) :- ParseU32(d);
    Take(n, r)
  }

  function ParseTextPair(d: bytes): Parsed<(bytes, bytes)> {
    var (k, r) :- ParseBlob(d);
    var (v, r') :- ParseBlob(r);
    Ok((k, v), r')
  }

  /** Rust stops after ten bytes and keeps the low 64 bits; JavaScript reads on and
      keeps every bit. */
  function ParseVarint(dia: Dialect, d: bytes): Parsed<nat> {
    var (v, r) :- ParseLeb(if dia == Js then |d| else 10, d);
    if dia == Js then Ok(v, r)
    else if dia == Strict && v >= TWO_TO_THE_64 then Fail
    else Ok(v % TWO_TO_THE_64, r)
  }

  predicate NeedsUtf8(dia: Dialect) {
    dia == Ref || dia == Strict
  }

  function ParseStackFrames(d: bytes): Parsed<Value> {
    var (n, r) :- ParseU32(d);
    var (xs, r') :- Rep(ParseU64, n, r);
    Ok(StackFrames(xs), r')
  }

  function ParseStringMap(d: bytes): Parsed<Value> {
    var (n, r) :- ParseU32(d);
    var (xs, r') :- Rep(ParseTextPair, n, r);
    Ok(StringMap(xs), r')
  }

  /** The kinds that hold no other values. */
  function ParseScalar(dia: Dialect, tag: nat, d: bytes): Parsed<Value> {
    if IsFixed(tag) then
      var (n, r) :- ParseLe(FixedWidth(tag), d);
      Ok(FixedValue(tag, n), r)
    else if tag == STRING_TAG then
      var (x, r) :- ParseBlob(d);
      if NeedsUtf8(dia) && !Utf8.Valid(x) then Fail else Ok(String(x), r)
    else if tag == BYTES_TAG then
      var (x, r) :- ParseBlob(d);
      Ok(Bytes(x), r)
    else if tag == VARINT_TAG then
      var (n, r) :- ParseVarint(dia, d);
      Ok(Varint(n), r)
    else if tag == STACK_TAG then ParseStackFrames(d)
    else if tag == STRING_MAP_TAG then ParseStringMap(d)
    else Fail
  }

  /** A value of a kind without the optional bit. */
  function ParseValue(dia: Dialect, tag: nat, d: bytes): (r: Parsed<Value>)
    ensures r.Ok? ==> |r.rest| <= |d|
    decreases |d|, 0
  {
    if tag == LIST_TAG then
      var (n, r) :- ParseU32(d);
      var (xs, r') :- ParseItems(dia, n, r);
      Ok(List(xs), r')
    else if tag == MAP_TAG then
      var (n, r) :- ParseU32(d);
      var (xs, r') :- ParseEntries(dia, n, r);
      Ok(Map(xs), r')
    else
      ScalarShrinks(dia, tag, d);
      ParseScalar(dia, tag, d)
  }

  /** A field of an event: the optional bit announces a presence byte. */
  function ParseField(dia: Dialect, tag: byte, d: bytes): (r: Parsed<Value>)
    ensures r.Ok? ==> |r.rest| <= |d|
    decreases |d|, 1
  {
    if tag < OPTIONAL_BIT then ParseValue(dia, tag, d)
    else if dia != Js && !IsFieldType(tag) then Fail
    else if d == [] then Fail
    else if d[0] == 0 then Ok(Absent, d[1..])
    else ParseValue(dia, tag - OPTIONAL_BIT, d[1..])
  }

  /** An element of a container, with its tag in front. Here the decoders differ on the
      optional bit: the Rust ones ignore it, decode.js expects a presence byte. */
  function ParseItem(dia: Dialect, d: bytes): (r: Parsed<Value>)
    ensures r.Ok? ==> |r.rest| < |d|
    decreases |d|, 2
  {
    if d == [] then Fail
    else if dia == Js then ParseField(dia, d[0], d[1..])
    else if !IsFieldType(d[0]) || (dia == Strict && d[0] >= OPTIONAL_BIT) then Fail
    else ParseValue(dia, d[0] % OPTIONAL_BIT, d[1..])
  }

  function ParseItems(dia: Dialect, n: nat, d: bytes): (r: Parsed<seq<Value>>)
    ensures r.Ok? ==> |r.rest| <= |d|
    decreases |d|, 3
  {
    if n == 0 then Ok([], d) else
      var (x, r) :- ParseItem(dia, d);
      var (xs, r') :- ParseItems(dia, n - 1, r);
      Ok([x] + xs, r')
  }

  function ParseEntries(dia: Dialect, n: nat, d: bytes): (r: Parsed<seq<Entry>>)
    ensures r.Ok? ==> |r.rest| <= |d|
    decreases |d|, 3
  {
    if n == 0 then Ok([], d) else
      var (k, r) :- ParseItem(dia, d);
      var (v, r') :- ParseItem(dia, r);
      var (xs, r'') :- ParseEntries(dia, n - 1, r');
      Ok([Entry(k, v)] + xs, r'')
  }

  lemma ScalarShrinks(dia: Dialect, tag: nat, d: bytes)
    ensures ParseScalar(dia, tag, d).Ok? ==> |ParseScalar(dia, tag, d).rest| <= |d|
  {
    ParseScalarLocal(dia, tag, d, []);
  }

  // ----- locality

  lemma ParseU32Local(d: bytes, s: bytes)
    ensures LocalAt(ParseU32, d, s)
  {
    ParseLeLocal(4, d, s);
  }

  lemma ParseU64Local()
    ensures Local(ParseU64)
  {
    forall d, s ensures LocalAt(ParseU64, d, s) { ParseLeLocal(8, d, s); }
  }

  lemma ParseBlobLocal(d: bytes, s: bytes)
    ensures LocalAt(ParseBlob, d, s)
  {
    var r := ParseBlob(d);
    if r.Ok? {
      var r1 := ParseU32(d);
      ParseU32Local(d, Used(r1.rest, r.rest) + s);
      TakeLocal(r1.value, r1.rest, s);
      Chain(d, r1.rest, r.rest, s);
    }
  }

  lemma ParseTextPairLocal()
    ensures Local(ParseTextPair)
  {
    forall d, s ensures LocalAt(ParseTextPair, d, s) {
      var r := ParseTextPair(d);
      if r.Ok? {
        var r1 := ParseBlob(d).rest;
        ParseBlobLocal(d, []);
        ParseBlobLocal(r1, s);
        ParseBlobLocal(d, Used(r1, r.rest) + s);
        Chain(d, r1, r.rest, s);
      }
    }
  }

  lemma ParseVarintLocal(dia: Dialect, d: bytes, s: bytes)
    ensures var r := ParseVarint(dia, d);
            r.Ok? ==> Tail(r.rest, d) && ParseVarint(dia, Used(d, r.rest) + s) == Ok(r.value, s)
  {
    var k := if dia == Js then |d| else 10;
    ParseLebLocal(k, d, s);
    var r := ParseLeb(k, d);
    if dia == Js && r.Ok? {
      var x := Used(d, r.rest) + s;
      ParseLebLocal(k, d, []);
      LebEnough(k, |x|, x);
    }
  }

  /** A longer byte limit changes nothing once the number ended within the shorter one,
      nor once the limit covers the input. */
  lemma {:induction false} LebEnough(k: nat, m: nat, d: bytes)
    requires ParseLeb(k, d).Ok?
    requires k <= m || |d| <= m
    ensures ParseLeb(m, d) == ParseLeb(k, d)
  {
    if d[0] >= 0x80 { LebEnough(k - 1, m - 1, d[1..]); }
  }

  lemma ParseStackFramesLocal(d: bytes, s: bytes)
    ensures LocalAt(ParseStackFrames, d, s)
  {
    var r := ParseStackFrames(d);
    if r.Ok? {
      var r1 := ParseU32(d);
      ParseU64Local();
      RepLocal(ParseU64, r1.value, r1.rest, s);
      ParseU32Local(d, Used(r1.rest, r.rest) + s);
      Chain(d, r1.rest, r.rest, s);
    }
  }

  lemma ParseStringMapLocal(d: bytes, s: bytes)
    ensures LocalAt(ParseStringMap, d, s)
  {
    var r := ParseStringMap(d);
    if r.Ok? {
      var r1 := ParseU32(d);
      ParseTextPairLocal();
      RepLocal(ParseTextPair, r1.value, r1.rest, s);
      ParseU32Local(d, Used(r1.rest, r.rest) + s);
      Chain(d, r1.rest, r.rest, s);
    }
  }

  lemma ParseScalarLocal(dia: Dialect, tag: nat, d: bytes, s: bytes)
    ensures var r := ParseScalar(dia, tag, d);
            r.Ok? ==> Tail(r.rest, d) && ParseScalar(dia, tag, Used(d, r.rest) + s) == Ok(r.value, s)
  {
    hide ParseLe, ParseBlob, ParseVarint, ParseStackFrames, ParseStringMap, Utf8.Valid;
    if IsFixed(tag) { ParseLeLocal(FixedWidth(tag), d, s); }
    else if tag == STRING_TAG || tag == BYTES_TAG { ParseBlobLocal(d, s); }
    else if tag == VARINT_TAG { ParseVarintLocal(dia, d, s); }
    else if tag == STACK_TAG { ParseStackFramesLocal(d, s); }
    else if tag == STRING_MAP_TAG { ParseStringMapLocal(d, s); }
  }

  /** Locality for values of any nesting depth, in every dialect. */
  lemma {:induction false} ParseValueLocal(dia: Dialect, tag: nat, d: bytes, s: bytes)
    ensures var r := ParseValue(dia, tag, d);
            r.Ok? ==> Tail(r.rest, d) && ParseValue(dia, tag, Used(d, r.rest) + s) == Ok(r.value, s)
    decreases |d|, 0
  {
    var r := ParseValue(dia, tag, d);
    if r.Ok? && (tag == LIST_TAG || tag == MAP_TAG) {
      var r1 := ParseU32(d);
      if tag == LIST_TAG { ParseItemsLocal(dia, r1.value, r1.rest, s); }
      else { ParseEntriesLocal(dia, r1.value, r1.rest, s); }
      ParseU32Local(d, Used(r1.rest, r.rest) + s);
      Chain(d, r1.rest, r.rest, s);
    } else {
      ParseScalarLocal(dia, tag, d, s);
    }
  }

  /** Parsing behind one byte that was already looked at. */
  lemma ByteFirst(d: bytes, rest: bytes, s: bytes)
    requires d != [] && Tail(rest, d[1..])
    ensures Tail(rest, d) && (Used(d, rest) + s)[0] == d[0] && (Used(d, rest) + s)[1..] == Used(d[1..], rest) + s
    ensures |Used(d, rest) + s| > 0
  {
    var c := Used(d[1..], rest);
    assert Used(d, rest) == [d[0]] + c;
    assert d[|d| - |rest|..] == d[1..][|d| - 1 - |rest|..];
    hide Used, Tail;
    Headed(d[0], c, s);
  }

  lemma Headed(b: byte, c: bytes, s: bytes)
    ensures ([b] + c + s)[0] == b && ([b] + c + s)[1..] == c + s
  {
  }

  lemma {:induction false} ParseFieldLocal(dia: Dialect, tag: byte, d: bytes, s: bytes)
    ensures var r := ParseField(dia, tag, d);
            r.Ok? ==> Tail(r.rest, d) && ParseField(dia, tag, Used(d, r.rest) + s) == Ok(r.value, s)
    decreases |d|, 1
  {
    hide ParseValue;
    var r := ParseField(dia, tag, d);
    if tag < OPTIONAL_BIT {
      ParseValueLocal(dia, tag, d, s);
    } else if r.Ok? {
      if d[0] == 0 {
        assert Used(d[1..], d[1..]) + s == s;
      } else {
        ParseValueLocal(dia, tag - OPTIONAL_BIT, d[1..], s);
      }
      ByteFirst(d, r.rest, s);
    }
  }

  lemma {:induction false} ParseItemLocal(dia: Dialect, d: bytes, s: bytes)
    ensures var r := ParseItem(dia, d);
            r.Ok? ==> Tail(r.rest, d) && ParseItem(dia, Used(d, r.rest) + s) == Ok(r.value, s)
    decreases |d|, 2
  {
    hide ParseScalar;
    var r := ParseItem(dia, d);
    if r.Ok? {
      if dia == Js { ParseFieldLocal(dia, d[0], d[1..], s); }
      else { ParseValueLocal(dia, d[0] % OPTIONAL_BIT, d[1..], s); }
      ByteFirst(d, r.rest, s);
    }
  }

  lemma {:induction false} ParseItemsLocal(dia: Dialect, n: nat, d: bytes, s: bytes)
    ensures var r := ParseItems(dia, n, d);
            r.Ok? ==> Tail(r.rest, d) && ParseItems(dia, n, Used(d, r.rest) + s) == Ok(r.value, s)
    decreases |d|, 3
  {
    hide ParseItem;
    var r := ParseItems(dia, n, d);
    if n == 0 {
      assert Used(d, d) + s == s;
    } else if r.Ok? {
      var r1 := ParseItem(dia, d).rest;
      ParseItemsLocal(dia, n - 1, r1, s);
      ParseItemLocal(dia, d, Used(r1, r.rest) + s);
      Chain(d, r1, r.rest, s);
    }
  }

  lemma OneMoreEntry(dia: Dialect, n: nat, d: bytes, k: Value, t: bytes, v: Value, u: bytes, es: seq<Entry>, s: bytes)
    requires ParseItem(dia, d) == Ok(k, t) && ParseItem(dia, t) == Ok(v, u) && ParseEntries(dia, n, u) == Ok(es, s)
    ensures ParseEntries(dia, n + 1, d) == Ok([Entry(k, v)] + es, s)
  {
    hide ParseItem;
  }

  /** A map taken apart: its first key, its first value, and the rest. */
  lemma FirstEntry(dia: Dialect, n: nat, d: bytes)
    requires n > 0 && ParseEntries(dia, n, d).Ok?
    ensures var k := ParseItem(dia, d);
            k.Ok? && var v := ParseItem(dia, k.rest);
            v.Ok? && var es := ParseEntries(dia, n - 1, v.rest);
            es.Ok? && ParseEntries(dia, n, d) == Ok([Entry(k.value, v.value)] + es.value, es.rest)
  {
    hide ParseItem;
  }

  lemma NoEntriesLocal(dia: Dialect, d: bytes, s: bytes)
    ensures ParseEntries(dia, 0, d) == Ok([], d) && ParseEntries(dia, 0, s) == Ok([], s)
    ensures Tail(d, d) && Used(d, d) + s == s
  {
  }

  lemma {:induction false} ParseEntriesLocal(dia: Dialect, n: nat, d: bytes, s: bytes)
    ensures var r := ParseEntries(dia, n, d);
            r.Ok? ==> Tail(r.rest, d) && ParseEntries(dia, n, Used(d, r.rest) + s) == Ok(r.value, s)
    decreases |d|, 3
  {
    hide ParseItem, ParseEntries, Used, Tail;
    var r := ParseEntries(dia, n, d);
    if n == 0 {
      NoEntriesLocal(dia, d, s);
    } else if r.Ok? {
      FirstEntry(dia, n, d);
      var k := ParseItem(dia, d);
      var v := ParseItem(dia, k.rest);
      ParseEntriesLocal(dia, n - 1, v.rest, s);
      var s2 := Used(v.rest, r.rest) + s;
      var s1 := Used(k.rest, v.rest) + s2;
      ParseItemLocal(dia, k.rest, s2);
      ParseItemLocal(dia, d, s1);
      Chain(k.rest, v.rest, r.rest, s);
      Chain(d, k.rest, r.rest, s);
      var es := ParseEntries(dia, n - 1, v.rest).value;
      OneMoreEntry(dia, n - 1, Used(d, r.rest) + s, k.value, s1, v.value, s2, es, s);
    }
  }

  // ----- how the dialects compare

  /** Every text payload of the value is well-formed UTF-8. */
  predicate TextsValid(v: Value) {
    match v
    case String(x) => Utf8.Valid(x)
    case List(xs) => forall i :: 0 <= i < |xs| ==> TextsValid(xs[i])
    case Map(es) => forall i :: 0 <= i < |es| ==> TextsValid(es[i].key) && TextsValid(es[i].val)
    case _ => true
  }

  /** What the zero-copy decoder makes of an owned parse. */
  function IfTextsValid(r: Parsed<Value>): Parsed<Value> {
    if r.Ok? && TextsValid(r.value) then r else Fail
  }

  lemma {:induction false} RefParsesValidTexts(tag: nat, d: bytes)
    ensures ParseValue(Ref, tag, d) == IfTextsValid(ParseValue(Owned, tag, d))
    decreases |d|, 0
  {
    if tag == LIST_TAG && ParseU32(d).Ok? {
      RefParsesValidItems(ParseU32(d).value, ParseU32(d).rest);
    } else if tag == MAP_TAG && ParseU32(d).Ok? {
      RefParsesValidEntries(ParseU32(d).value, ParseU32(d).rest);
    }
  }

  lemma {:induction false} RefParsesValidItem(d: bytes)
    ensures ParseItem(Ref, d) == IfTextsValid(ParseItem(Owned, d))
    decreases |d|, 2
  {
    hide ParseScalar;
    if d != [] { RefParsesValidTexts(d[0] % OPTIONAL_BIT, d[1..]); }
  }

  lemma {:induction false} RefParsesValidItems(n: nat, d: bytes)
    ensures var o := ParseItems(Owned, n, d);
            ParseItems(Ref, n, d) == if o.Ok? && TextsValid(List(o.value)) then o else Fail
    decreases |d|, 3
  {
    hide ParseItem, TextsValid;
    NoTexts();
    if n > 0 {
      RefParsesValidItem(d);
      var r := ParseItem(Owned, d);
      if r.Ok? {
        RefParsesValidItems(n - 1, r.rest);
        var xs := ParseItems(Owned, n - 1, r.rest);
        if xs.Ok? { OneMoreText(r.value, xs.value); }
      }
    }
  }

  lemma OneMoreTextEntry(e: Entry, es: seq<Entry>)
    ensures TextsValid(Map([e] + es)) <==> TextsValid(e.key) && TextsValid(e.val) && TextsValid(Map(es))
  {
    var all := [e] + es;
    assert all[0] == e && forall i :: 0 <= i < |es| ==> all[i + 1] == es[i];
  }

  lemma OneMoreText(x: Value, xs: seq<Value>)
    ensures TextsValid(List([x] + xs)) <==> TextsValid(x) && TextsValid(List(xs))
  {
    var all := [x] + xs;
    assert all[0] == x && forall i :: 0 <= i < |xs| ==> all[i + 1] == xs[i];
  }

  lemma NoTexts()
    ensures TextsValid(List([])) && TextsValid(Map([]))
  {
  }

  lemma {:induction false} RefParsesValidEntries(n: nat, d: bytes)
    ensures var o := ParseEntries(Owned, n, d);
            ParseEntries(Ref, n, d) == if o.Ok? && TextsValid(Map(o.value)) then o else Fail
    decreases |d|, 3
  {
    hide ParseItem, TextsValid;
    NoTexts();
    if n > 0 {
      RefParsesValidItem(d);
      var k := ParseItem(Owned, d);
      if k.Ok? {
        RefParsesValidItem(k.rest);
        var v := ParseItem(Owned, k.rest);
        if v.Ok? {
          RefParsesValidEntries(n - 1, v.rest);
          var es := ParseEntries(Owned, n - 1, v.rest);
          if es.Ok? { OneMoreTextEntry(Entry(k.value, v.value), es.value); }
        }
      }
    }
  }

  /** What `Strict` accepts, every decoder accepts, with the same value and remainder. */
  lemma {:induction false} StrictValueIsCommon(dia: Dialect, tag: nat, d: bytes)
    ensures ParseValue(Strict, tag, d).Ok? ==> ParseValue(dia, tag, d) == ParseValue(Strict, tag, d)
    decreases |d|, 0
  {
    if ParseValue(Strict, tag, d).Ok? {
      if tag == LIST_TAG { StrictItemsAreCommon(dia, ParseU32(d).value, ParseU32(d).rest); }
      else if tag == MAP_TAG { StrictEntriesAreCommon(dia, ParseU32(d).value, ParseU32(d).rest); }
      else if tag == VARINT_TAG && dia == Js { LebEnough(10, |d|, d); }
    }
  }

  lemma {:induction false} StrictFieldIsCommon(dia: Dialect, tag: byte, d: bytes)
    ensures ParseField(Strict, tag, d).Ok? ==> ParseField(dia, tag, d) == ParseField(Strict, tag, d)
    decreases |d|, 1
  {
    if tag < OPTIONAL_BIT { StrictValueIsCommon(dia, tag, d); }
    else if d != [] { StrictValueIsCommon(dia, tag - OPTIONAL_BIT, d[1..]); }
  }

  lemma {:induction false} StrictItemIsCommon(dia: Dialect, d: bytes)
    ensures ParseItem(Strict, d).Ok? ==> ParseItem(dia, d) == ParseItem(Strict, d)
    decreases |d|, 2
  {
    hide ParseScalar;
    if d != [] {
      StrictFieldIsCommon(dia, d[0], d[1..]);
      StrictValueIsCommon(dia, d[0] % OPTIONAL_BIT, d[1..]);
    }
  }

  lemma {:induction false} StrictItemsAreCommon(dia: Dialect, n: nat, d: bytes)
    ensures ParseItems(Strict, n, d).Ok? ==> ParseItems(dia, n, d) == ParseItems(Strict, n, d)
    decreases |d|, 3
  {
    hide ParseItem;
    if n > 0 && ParseItems(Strict, n, d).Ok? {
      StrictItemIsCommon(dia, d);
      StrictItemsAreCommon(dia, n - 1, ParseItem(Strict, d).rest);
    }
  }

  lemma {:induction false} StrictEntriesAreCommon(dia: Dialect, n: nat, d: bytes)
    ensures ParseEntries(Strict, n, d).Ok? ==> ParseEntries(dia, n, d) == ParseEntries(Strict, n, d)
    decreases |d|, 3
  {
    hide ParseItem;
    if n > 0 && ParseEntries(Strict, n, d).Ok? {
      StrictItemIsCommon(dia, d);
      var r := ParseItem(Strict, d).rest;
      StrictItemIsCommon(dia, r);
      StrictEntriesAreCommon(dia, n - 1, ParseItem(Strict, r).rest);
    }
  }

  // ----- encoding

  function U32Le(n: nat): bytes { Le(4, n) }
  function U64Le(n: u64): bytes { Le(8, n) }
  function Blob(x: bytes): bytes { U32Le(|x|) + x }
  function TextPair(p: (bytes, bytes)): bytes { Blob(p.0) + Blob(p.1) }

  /** FieldValue::encode */
  function EncodeValue(v: Value): bytes
    decreases v, 0
  {
    match v
    case I64(i) => U64Le(if i < 0 then i + TWO_TO_THE_64 else i)
    case F64(bits) => U64Le(bits)
    case Bool(b) => [if b then 1 else 0]
    case String(x) => Blob(x)
    case Bytes(x) => Blob(x)
    case PooledString(id) => U32Le(id)
    case PooledStackFrames(id) => U32Le(id)
    case Varint(n) => Leb(n)
    case StackFrames(addrs) => U32Le(|addrs|) + Concat(U64Le, addrs)
    case StringMap(texts) => U32Le(|texts|) + Concat(TextPair, texts)
    case List(items) => U32Le(|items|) + EncodeItems(items)
    case Map(entries) => U32Le(|entries|) + EncodeEntries(entries)
    case Absent => [0]
  }

  function EncodeItems(xs: seq<Value>): bytes
    decreases xs, 1
  {
    if xs == [] then [] else [TagOf(xs[0])] + EncodeValue(xs[0]) + EncodeItems(xs[1..])
  }

  function EncodeEntries(es: seq<Entry>): bytes
    decreases es, 1
  {
    if es == [] then [] else EncodeEntry(es[0]) + EncodeEntries(es[1..])
  }

  function EncodeEntry(e: Entry): bytes
    decreases e, 0
  {
    [TagOf(e.key)] + EncodeValue(e.key) + ([TagOf(e.val)] + EncodeValue(e.val))
  }

  /** What can be written so that it can be read back: lengths fit their u32, text is
      UTF-8 as every Rust String is, and no container holds an absent value. */
  predicate Encodable(v: Value) {
    match v
    case String(x) => |x| < TWO_TO_THE_32 && Utf8.Valid(x)
    case Bytes(x) => |x| < TWO_TO_THE_32
    case Varint(n) => n < TWO_TO_THE_64
    case StackFrames(addrs) => |addrs| < TWO_TO_THE_32
    case StringMap(ts) => |ts| < TWO_TO_THE_32 && forall i :: 0 <= i < |ts| ==>
      |ts[i].0| < TWO_TO_THE_32 && |ts[i].1| < TWO_TO_THE_32
    case List(xs) => |xs| < TWO_TO_THE_32 && forall i :: 0 <= i < |xs| ==> Encodable(xs[i])
    case Map(es) => |es| < TWO_TO_THE_32 && forall i :: 0 <= i < |es| ==> Encodable(es[i].key) && Encodable(es[i].val)
    case Absent => false
    case _ => true
  }

  lemma ParseU32Of(n: u32, s: bytes)
    ensures ParseU32(U32Le(n) + s) == Ok(n, s)
  {
    PowersOf256();
    ParseLeOf(4, n, s);
  }

  lemma ParseBlobOf(x: bytes, s: bytes)
    requires |x| < TWO_TO_THE_32
    ensures ParseBlob(Blob(x) + s) == Ok(x, s)
  {
    assert Blob(x) + s == U32Le(|x|) + (x + s);
    ParseU32Of(|x|, x + s);
    TakeOf(x, s);
  }

  lemma ParseTextPairOf(p: (bytes, bytes), s: bytes)
    requires |p.0| < TWO_TO_THE_32 && |p.1| < TWO_TO_THE_32
    ensures InvertsAt(ParseTextPair, TextPair, p, s)
  {
    assert TextPair(p) + s == Blob(p.0) + (Blob(p.1) + s);
    ParseBlobOf(p.0, Blob(p.1) + s);
    ParseBlobOf(p.1, s);
  }

  lemma ParseU64sOf(xs: seq<u64>, s: bytes)
    ensures Rep(ParseU64, |xs|, Concat(U64Le, xs) + s) == Ok(xs, s)
  {
    forall x, t | x in xs ensures InvertsAt(ParseU64, U64Le, x, t) {
      PowersOf256();
      ParseLeOf(8, x, t);
    }
    RepOfConcat(ParseU64, U64Le, xs, s);
  }

  lemma ParseTextsOf(xs: seq<(bytes, bytes)>, s: bytes)
    requires forall i :: 0 <= i < |xs| ==> |xs[i].0| < TWO_TO_THE_32 && |xs[i].1| < TWO_TO_THE_32
    ensures Rep(ParseTextPair, |xs|, Concat(TextPair, xs) + s) == Ok(xs, s)
  {
    forall x, t | x in xs ensures InvertsAt(ParseTextPair, TextPair, x, t) { ParseTextPairOf(x, t); }
    RepOfConcat(ParseTextPair, TextPair, xs, s);
  }

  lemma CountFirst(n: u32, body: bytes, s: bytes)
    ensures ParseU32(U32Le(n) + body + s) == Ok(n, body + s)
  {
    assert U32Le(n) + body + s == U32Le(n) + (body + s);
    ParseU32Of(n, body + s);
  }

  lemma ParseVarintOf(n: u64, s: bytes)
    ensures ParseVarint(Strict, Leb(n) + s) == Ok(n, s)
  {
    hide Leb, ParseLeb;
    RoundTripU64(n, s);
  }

  lemma FixedOf(v: Value, s: bytes)
    requires Encodable(v) && IsFixed(TagOf(v))
    ensures ParseScalar(Strict, TagOf(v), EncodeValue(v) + s) == Ok(v, s)
  {
    PowersOf256();
    match v {
      case I64(i) => ParseLeOf(8, if i < 0 then i + TWO_TO_THE_64 else i, s);
      case F64(bits) => ParseLeOf(8, bits, s);
      case Bool(b) =>
        assert Le(1, if b then 1 else 0) == [if b then 1 else 0] + Le(0, 0);
        ParseLeOf(1, if b then 1 else 0, s);
      case PooledString(id) => ParseLeOf(4, id, s);
      case PooledStackFrames(id) => ParseLeOf(4, id, s);
    }
  }

  lemma StackFramesOf(xs: seq<u64>, s: bytes)
    requires |xs| < TWO_TO_THE_32
    ensures ParseStackFrames(EncodeValue(StackFrames(xs)) + s) == Ok(StackFrames(xs), s)
  {
    hide Rep, Concat, ParseU32, U32Le;
    CountFirst(|xs|, Concat(U64Le, xs), s);
    ParseU64sOf(xs, s);
  }

  lemma StringMapOf(xs: seq<(bytes, bytes)>, s: bytes)
    requires Encodable(StringMap(xs))
    ensures ParseStringMap(EncodeValue(StringMap(xs)) + s) == Ok(StringMap(xs), s)
  {
    hide Rep, Concat, ParseU32, U32Le;
    CountFirst(|xs|, Concat(TextPair, xs), s);
    ParseTextsOf(xs, s);
  }

  lemma ScalarOf(v: Value, s: bytes)
    requires Encodable(v) && !v.List? && !v.Map?
    ensures ParseScalar(Strict, TagOf(v), EncodeValue(v) + s) == Ok(v, s)
  {
    hide ParseBlob, Blob, ParseStackFrames, ParseStringMap, ParseVarint, Leb, Concat;
    match v {
      case String(x) => ParseBlobOf(x, s);
      case Bytes(x) => ParseBlobOf(x, s);
      case Varint(n) => ParseVarintOf(n, s);
      case StackFrames(xs) => StackFramesOf(xs, s);
      case StringMap(xs) => StringMapOf(xs, s);
      case _ => FixedOf(v, s);
    }
  }

  /** A value of any nesting depth is read back from its encoding, whatever follows. */
  lemma {:induction false} ValueRoundTrip(v: Value, s: bytes)
    requires Encodable(v)
    ensures ParseValue(Strict, TagOf(v), EncodeValue(v) + s) == Ok(v, s)
    decreases v, 0
  {
    match v {
      case List(xs) =>
        CountFirst(|xs|, EncodeItems(xs), s);
        ItemsRoundTrip(xs, s);
      case Map(es) =>
        CountFirst(|es|, EncodeEntries(es), s);
        EntriesRoundTrip(es, s);
      case _ => ScalarOf(v, s);
    }
  }

  lemma {:induction false} ItemRoundTrip(v: Value, s: bytes)
    requires Encodable(v)
    ensures ParseItem(Strict, [TagOf(v)] + EncodeValue(v) + s) == Ok(v, s)
    decreases v, 1
  {
    hide ParseScalar;
    assert ([TagOf(v)] + EncodeValue(v) + s)[1..] == EncodeValue(v) + s;
    ValueRoundTrip(v, s);
  }

  lemma NoItems(s: bytes)
    ensures ParseItems(Strict, 0, s) == Ok([], s)
  {
  }

  lemma OneMoreItem(dia: Dialect, n: nat, d: bytes, x: Value, t: bytes, xs: seq<Value>, s: bytes)
    requires ParseItem(dia, d) == Ok(x, t) && ParseItems(dia, n, t) == Ok(xs, s)
    ensures ParseItems(dia, n + 1, d) == Ok([x] + xs, s)
  {
    hide ParseItem;
  }

  lemma {:induction false} ItemsRoundTrip(xs: seq<Value>, s: bytes)
    requires forall i :: 0 <= i < |xs| ==> Encodable(xs[i])
    ensures ParseItems(Strict, |xs|, EncodeItems(xs) + s) == Ok(xs, s)
    decreases xs, 2
  {
    hide ParseItem, ParseItems, EncodeValue, Encodable, TagOf;
    if xs == [] {
      NoItems(s);
      assert EncodeItems(xs) + s == s;
    } else {
      var t := EncodeItems(xs[1..]) + s;
      assert EncodeItems(xs) + s == [TagOf(xs[0])] + EncodeValue(xs[0]) + t;
      ItemRoundTrip(xs[0], t);
      ItemsRoundTrip(xs[1..], s);
      OneMoreItem(Strict, |xs| - 1, EncodeItems(xs) + s, xs[0], t, xs[1..], s);
      assert xs == [xs[0]] + xs[1..];
    }
  }

  lemma {:induction false} EntryRoundTrip(e: Entry, s: bytes)
    requires Encodable(e.key) && Encodable(e.val)
    ensures var k := ParseItem(Strict, EncodeEntry(e) + s);
            k.Ok? && k.value == e.key && ParseItem(Strict, k.rest) == Ok(e.val, s)
    decreases e, 0
  {
    hide ParseItem, EncodeValue, Encodable;
    var u := [TagOf(e.val)] + EncodeValue(e.val) + s;
    assert EncodeEntry(e) + s == [TagOf(e.key)] + EncodeValue(e.key) + u;
    ItemRoundTrip(e.key, u);
    ItemRoundTrip(e.val, s);
  }

  lemma {:induction false} EntriesRoundTrip(es: seq<Entry>, s: bytes)
    requires forall i :: 0 <= i < |es| ==> Encodable(es[i].key) && Encodable(es[i].val)
    ensures ParseEntries(Strict, |es|, EncodeEntries(es) + s) == Ok(es, s)
    decreases es, 2
  {
    hide ParseItem, EncodeEntry, Encodable;
    if es == [] {
      assert EncodeEntries(es) + s == s;
    } else {
      var t := EncodeEntries(es[1..]) + s;
      assert EncodeEntries(es) + s == EncodeEntry(es[0]) + t;
      EntryRoundTrip(es[0], t);
      EntriesRoundTrip(es[1..], s);
      assert es == [Entry(es[0].key, es[0].val)] + es[1..];
    }
  }

  // ----- fields of an event

  /** What a derived TraceField writes: U8, U16 and U32 at their fixed width, anything
      else as FieldValue::encode does. */
  function EncodeTyped(tag: nat, v: Value): bytes {
    if v.Varint? && tag in {U8_TAG, U16_TAG, U32_TAG} then Le(FixedWidth(tag), v.n) else EncodeValue(v)
  }

  function EncodeField(tag: byte, v: Value): bytes {
    if tag < OPTIONAL_BIT then EncodeTyped(tag, v)
    else if v.Absent? then [0] else [1] + EncodeTyped(tag - OPTIONAL_BIT, v)
  }

  /** write_field_value: the value's own kind decides how it is written. */
  function EncodeDynamicField(tag: byte, v: Value): bytes {
    if tag < OPTIONAL_BIT then EncodeValue(v)
    else if v.Absent? then [0] else [1] + EncodeValue(v)
  }

  predicate FitsType(tag: nat, v: Value) {
    if tag in {U8_TAG, U16_TAG, U32_TAG} then v.Varint? && v.n < Pow256(FixedWidth(tag))
    else Encodable(v) && TagOf(v) == tag
  }

  predicate FitsField(tag: byte, v: Value) {
    if tag < OPTIONAL_BIT then FitsType(tag, v)
    else IsFieldType(tag) && (v.Absent? || FitsType(tag - OPTIONAL_BIT, v))
  }

  /** For the dynamic path: the kind of the value is the kind the schema declares. */
  predicate FitsDynamicField(tag: byte, v: Value) {
    IsFieldType(tag) && (if v.Absent? then tag >= OPTIONAL_BIT else Encodable(v) && TagOf(v) == tag % OPTIONAL_BIT)
  }

  lemma DynamicFieldFits(tag: byte, v: Value)
    requires FitsDynamicField(tag, v)
    ensures FitsField(tag, v) && EncodeDynamicField(tag, v) == EncodeField(tag, v)
  {
  }

  lemma TypedRoundTrip(tag: nat, v: Value, s: bytes)
    requires FitsType(tag, v)
    ensures ParseValue(Strict, tag, EncodeTyped(tag, v) + s) == Ok(v, s)
  {
    if tag in {U8_TAG, U16_TAG, U32_TAG} { ParseLeOf(FixedWidth(tag), v.n, s); }
    else { ValueRoundTrip(v, s); }
  }

  lemma FieldRoundTrip(tag: byte, v: Value, s: bytes)
    requires FitsField(tag, v)
    ensures ParseField(Strict, tag, EncodeField(tag, v) + s) == Ok(v, s)
  {
    hide ParseValue, EncodeTyped, FitsType, EncodeValue;
    if tag < OPTIONAL_BIT {
      TypedRoundTrip(tag, v, s);
    } else if v.Absent? {
      Headed(0, [], s);
      assert [0] + [] == [0] && [] + s == s;
    } else {
      TypedRoundTrip(tag - OPTIONAL_BIT, v, s);
      Headed(1, EncodeTyped(tag - OPTIONAL_BIT, v), s);
    }
  }
}
