/** Optional bits inside containers. The Rust decoders ignore the bit of an element's tag,
    decode.js expects a presence byte behind it: where the two agree on an element, and
    where they never do. */
module Nested {
  import opened Bytes
  import opened Leb128
  import opened Values
  import opened RefDecode
  import opened Limits

  /** The element is read, and the same value and remainder are read by decode.js. */
  predicate ReadsAlike(d: bytes) {
    ParseItem(Owned, d).Ok? && ParseItem(Js, d) == ParseItem(Owned, d)
  }

  // ----- without optional bits

  /** Every varint that ends, ends within ten bytes and is below 2^64. */
  predicate PlainVarint(d: bytes) {
    ParseLeb(|d|, d).Ok? ==> ParseLeb(10, d).Ok? && ParseLeb(10, d).value < TWO_TO_THE_64
  }

  predicate PlainValue(tag: nat, d: bytes)
    decreases |d|, 0
  {
    if tag == LIST_TAG then
      var n := ParseU32(d);
      n.Ok? ==> PlainItems(n.value, n.rest)
    else if tag == MAP_TAG then
      var n := ParseU32(d);
      n.Ok? ==> PlainItems(2 * n.value, n.rest)
    else tag == VARINT_TAG ==> PlainVarint(d)
  }

  predicate PlainItem(d: bytes)
    decreases |d|, 1
  {
    d != [] ==> d[0] < OPTIONAL_BIT && PlainValue(d[0], d[1..])
  }

  /** As far as the elements can be read: no optional bit, at any depth, and no varint that
      the decoders cut off differently. A map is a list of keys and values in turn. */
  predicate PlainItems(n: nat, d: bytes)
    decreases |d|, 2
  {
    n > 0 ==> PlainItem(d) && (ParseItem(Owned, d).Ok? ==> PlainItems(n - 1, ParseItem(Owned, d).rest))
  }

  lemma PlainVarintsAgree(d: bytes)
    requires PlainVarint(d)
    ensures ParseVarint(Js, d) == ParseVarint(Owned, d)
  {
    if ParseLeb(|d|, d).Ok? { LebEnough(10, |d|, d); }
    else if ParseLeb(10, d).Ok? { LebEnough(10, |d|, d); }
  }

  lemma {:induction false} PlainValuesAgree(tag: nat, d: bytes)
    requires PlainValue(tag, d)
    ensures ParseValue(Js, tag, d) == ParseValue(Owned, tag, d)
    decreases |d|, 0
  {
    if tag == LIST_TAG && ParseU32(d).Ok? { PlainItemsAgree(ParseU32(d).value, ParseU32(d).rest); }
    else if tag == MAP_TAG && ParseU32(d).Ok? { PlainEntriesAgree(ParseU32(d).value, ParseU32(d).rest); }
    else if tag == VARINT_TAG { PlainVarintsAgree(d); }
  }

  /** Elements without optional bits and with varints that fit are read alike, to the same
      value and the same remainder, or not at all. */
  lemma {:induction false} PlainElementAgrees(d: bytes)
    requires PlainItem(d)
    ensures ParseItem(Js, d) == ParseItem(Owned, d)
    decreases |d|, 1
  {
    hide ParseScalar;
    if d != [] {
      PlainValuesAgree(d[0], d[1..]);
      if !IsFieldType(d[0]) { UnknownKindFails(Js, d[0], d[1..]); }
    }
  }

  lemma UnknownKindFails(dia: Dialect, tag: nat, d: bytes)
    requires !(1 <= tag <= 15)
    ensures ParseValue(dia, tag, d).Fail?
  {
  }

  lemma {:induction false} PlainItemsAgree(n: nat, d: bytes)
    requires PlainItems(n, d)
    ensures ParseItems(Js, n, d) == ParseItems(Owned, n, d)
    decreases |d|, 2
  {
    hide ParseItem, PlainItem;
    if n > 0 {
      PlainElementAgrees(d);
      if ParseItem(Owned, d).Ok? { PlainItemsAgree(n - 1, ParseItem(Owned, d).rest); }
    }
  }

  lemma {:induction false} PlainEntriesAgree(n: nat, d: bytes)
    requires PlainItems(2 * n, d)
    ensures ParseEntries(Js, n, d) == ParseEntries(Owned, n, d)
    decreases |d|, 2
  {
    hide ParseItem, PlainItem;
    if n > 0 {
      PlainElementAgrees(d);
      var k := ParseItem(Owned, d);
      if k.Ok? {
        PlainElementAgrees(k.rest);
        var v := ParseItem(Owned, k.rest);
        if v.Ok? { PlainEntriesAgree(n - 1, v.rest); }
      }
    }
  }

  // ----- with the optional bit

  /** The two readings of an element with the optional bit. */
  lemma OptionalSides(d: bytes)
    requires d != [] && d[0] >= OPTIONAL_BIT
    ensures var tag, e := d[0] % OPTIONAL_BIT, d[1..];
            ParseItem(Owned, d) == (if 1 <= tag <= 15 then ParseValue(Owned, tag, e) else Fail)
            && ParseItem(Js, d) == if e == [] then Fail else if e[0] == 0 then Ok(Absent, e[1..])
                                   else ParseValue(Js, tag, e[1..])
  {
    hide ParseValue;
  }

  lemma ScalarsAre(dia: Dialect, tag: nat, d: bytes)
    requires tag != LIST_TAG && tag != MAP_TAG
    ensures ParseValue(dia, tag, d) == ParseScalar(dia, tag, d)
  {
    hide ParseScalar;
  }

  function TextsSize(ts: seq<(bytes, bytes)>): nat {
    if ts == [] then 0 else 8 + |ts[0].0| + |ts[0].1| + TextsSize(ts[1..])
  }

  /** What a value of these kinds takes on the wire depends on the value alone. */
  function SizeOf(tag: nat, v: Value): nat {
    if IsFixed(tag) then FixedWidth(tag)
    else match v
      case String(x) => 4 + |x|
      case Bytes(x) => 4 + |x|
      case StackFrames(xs) => 4 + 8 * |xs|
      case StringMap(ts) => 4 + TextsSize(ts)
      case _ => 0
  }

  lemma BlobTakes(d: bytes)
    ensures ParseBlob(d).Ok? ==> |d| - |ParseBlob(d).rest| == 4 + |ParseBlob(d).value|
  {
  }

  lemma PairTakes(d: bytes)
    ensures var r := ParseTextPair(d); r.Ok? ==> |d| - |r.rest| == 8 + |r.value.0| + |r.value.1|
  {
    hide ParseBlob;
    BlobTakes(d);
    if ParseBlob(d).Ok? { BlobTakes(ParseBlob(d).rest); }
  }

  lemma {:induction false} TextsTake(n: nat, d: bytes)
    ensures var r := Rep(ParseTextPair, n, d); r.Ok? ==> |d| - |r.rest| == TextsSize(r.value)
  {
    hide ParseTextPair;
    PairTakes(d);
    var p := ParseTextPair(d);
    if n > 0 && p.Ok? { TextsTake(n - 1, p.rest); }
  }

  lemma ScalarTakes(dia: Dialect, tag: nat, d: bytes)
    requires tag != VARINT_TAG
    ensures var r := ParseScalar(dia, tag, d); r.Ok? ==> |d| - |r.rest| == SizeOf(tag, r.value)
  {
    hide Rep;
    var n := ParseU32(d);
    if n.Ok? {
      TextsTake(n.value, n.rest);
      AddressesFit(n.value, n.rest);
      RepCount(ParseU64, n.value, n.rest);
    }
  }

  /** An element with the optional bit, other than a varint or a container, is never read
      alike: decode.js takes the value one byte further on, or takes it as absent. */
  lemma OptionalElementDiffers(d: bytes)
    requires d != [] && d[0] >= OPTIONAL_BIT && d[0] % OPTIONAL_BIT !in {VARINT_TAG, LIST_TAG, MAP_TAG}
    ensures !ReadsAlike(d)
  {
    hide ParseItem, ParseValue, ParseScalar, SizeOf;
    var tag, e := d[0] % OPTIONAL_BIT, d[1..];
    OptionalSides(d);
    KindIs(Owned, tag, e);
    ScalarsAre(Owned, tag, e);
    ScalarTakes(Owned, tag, e);
    if e != [] {
      ScalarsAre(Js, tag, e[1..]);
      ScalarTakes(Js, tag, e[1..]);
    }
  }

  const STEP := 145249953336295682

  /** The optional varints that are read alike: Rust takes the presence byte for the low
      seven bits of the number, and in 64 bits that comes to what is left without it. */
  predicate SameWithoutPresence(e: bytes) {
    e != [] && e[0] >= 0x80 && e[0] % 2 == 0
    && var u := ParseLeb(9, e[1..]); u.Ok? && u.value == (e[0] - 0x80) / 2 * STEP
  }

  /** An optional varint is read alike exactly on those inputs. */
  lemma OptionalVarintIff(d: bytes)
    requires d != [] && d[0] == OPTIONAL_BIT + VARINT_TAG
    ensures ReadsAlike(d) <==> SameWithoutPresence(d[1..])
  {
    hide ParseItem, ParseValue, ParseLeb;
    var e := d[1..];
    OptionalSides(d);
    VarintValues(e);
    if e != [] {
      VarintValues(e[1..]);
      LebStep(e);
      VarintSides(e);
    }
  }

  /** `u` behind seven more low bits `a` is `u` again in 64 bits. */
  predicate Wraps(a: nat, u: nat) {
    (a + 0x80 * u) % TWO_TO_THE_64 == u
  }

  lemma VarintSides(e: bytes)
    requires e != []
    ensures var u := ParseLeb(9, e[1..]);
            e[0] >= 0x80 && u.Ok? ==>
              ParseLeb(|e| - 1, e[1..]) == u
              && (Wraps(e[0] - 0x80, u.value) <==> e[0] % 2 == 0 && u.value == (e[0] - 0x80) / 2 * STEP)
  {
    hide ParseLeb, Wraps;
    var u := ParseLeb(9, e[1..]);
    if e[0] >= 0x80 && u.Ok? {
      LebEnough(9, |e| - 1, e[1..]);
      LebBound(9, e[1..]);
      PowersOf128();
      WrapsToItself(e[0] - 0x80, u.value);
      SameParity(e[0]);
    }
  }

  lemma SameParity(b: byte)
    ensures b >= 0x80 ==> (b % 2 == 0 <==> (b - 0x80) % 2 == 0)
  {
  }

  lemma VarintValues(d: bytes)
    ensures ParseValue(Js, VARINT_TAG, d)
         == match ParseLeb(|d|, d) case Fail => Fail case Ok(n, r) => Ok(Varint(n), r)
    ensures ParseValue(Owned, VARINT_TAG, d)
         == match ParseLeb(10, d) case Fail => Fail case Ok(n, r) => Ok(Varint(n % TWO_TO_THE_64), r)
  {
    hide ParseValue, ParseLeb, ParseBlob, ParseLe, ParseStackFrames, ParseStringMap;
    ScalarsAre(Js, VARINT_TAG, d);
    ScalarsAre(Owned, VARINT_TAG, d);
  }

  lemma LebStep(d: bytes)
    requires d != []
    ensures ParseLeb(10, d) == if d[0] < 0x80 then Ok(d[0], d[1..]) else
              match ParseLeb(9, d[1..]) case Fail => Fail case Ok(v, r) => Ok(d[0] - 0x80 + 0x80 * v, r)
    ensures ParseLeb(|d| - 1, d[1..]).Ok? ==> |ParseLeb(|d| - 1, d[1..]).rest| < |d| - 1
  {
  }

  lemma {:induction false} LebBound(k: nat, d: bytes)
    ensures ParseLeb(k, d).Ok? ==> ParseLeb(k, d).value < Pow128(k)
  {
    if k > 0 && d != [] && d[0] >= 0x80 { LebBound(k - 1, d[1..]); }
  }

  lemma WrapsToItself(a: nat, u: nat)
    requires a < 0x80 && u < 0x8000_0000_0000_0000
    ensures Wraps(a, u) <==> a % 2 == 0 && u == a / 2 * STEP
  {
    var x := a + 0x80 * u;
    if x % TWO_TO_THE_64 == u {
      Solve(a, u, x / TWO_TO_THE_64);
    } else if a % 2 == 0 && u == a / 2 * STEP {
      Remainder(x, a / 2, u);
    }
  }

  lemma Solve(a: nat, u: nat, m: nat)
    requires a < 0x80 && u < 0x8000_0000_0000_0000 && a + 0x80 * u == m * TWO_TO_THE_64 + u
    ensures a == 2 * m && u == m * STEP
  {
    assert 127 * (u - m * STEP) == 2 * m - a;
    assert m < 64;
  }

  lemma Remainder(x: nat, k: nat, u: nat)
    requires x == k * TWO_TO_THE_64 + u && u < TWO_TO_THE_64
    ensures x % TWO_TO_THE_64 == u
  {
    assert x / TWO_TO_THE_64 == k;
  }

  /** A varint without the optional bit: Rust keeps 64 bits of at most ten bytes. */
  lemma PlainVarintIff(d: bytes)
    requires d != [] && d[0] == VARINT_TAG
    ensures ReadsAlike(d) <==> ParseLeb(10, d[1..]).Ok? && ParseLeb(10, d[1..]).value < TWO_TO_THE_64
  {
    hide ParseValue, ParseLeb;
    VarintValues(d[1..]);
    assert ParseItem(Js, d) == ParseField(Js, d[0], d[1..]) == ParseValue(Js, VARINT_TAG, d[1..]);
    assert ParseItem(Owned, d) == ParseValue(Owned, VARINT_TAG, d[1..]);
    if ParseLeb(10, d[1..]).Ok? {
      LebEnough(10, |d| - 1, d[1..]);
      var v := ParseLeb(10, d[1..]).value;
      if v < TWO_TO_THE_64 { Remainder(v, 0, v); }
    }
  }

  /** So the exact condition for every element that is no container. */
  predicate ScalarAlike(d: bytes)
    requires d != []
  {
    if d[0] == VARINT_TAG then ParseLeb(10, d[1..]).Ok? && ParseLeb(10, d[1..]).value < TWO_TO_THE_64
    else if d[0] == OPTIONAL_BIT + VARINT_TAG then SameWithoutPresence(d[1..])
    else d[0] < OPTIONAL_BIT && ParseItem(Owned, d).Ok?
  }

  lemma ScalarElementIff(d: bytes)
    requires d != [] && d[0] % OPTIONAL_BIT !in {LIST_TAG, MAP_TAG}
    ensures ReadsAlike(d) <==> ScalarAlike(d)
  {
    hide ParseItem, ParseLeb, SameWithoutPresence;
    if d[0] == VARINT_TAG { PlainVarintIff(d); }
    else if d[0] == OPTIONAL_BIT + VARINT_TAG { OptionalVarintIff(d); }
    else if d[0] >= OPTIONAL_BIT { OptionalElementDiffers(d); }
    else { PlainElementAgrees(d); }
  }

  /** The next solution behind the number 0: Rust reads 2 + 128 * STEP, which is
      2^64 + STEP. */
  lemma SecondSolution(s: bytes)
    ensures var d: bytes := [0x89, 0x82] + Leb(STEP) + s;
            ParseItem(Owned, d) == Ok(Varint(STEP), s) && ParseItem(Js, d) == Ok(Varint(STEP), s)
  {
    var d: bytes := [0x89, 0x82] + Leb(STEP) + s;
    assert d[1..][1..] == Leb(STEP) + s;
    PowersOf128();
    ParseLebOf(STEP, 9, s);
    OptionalVarintIff(d);
    LebEnough(9, |d[1..]| - 1, d[1..][1..]);
  }

  // ----- containers

  lemma {:induction false} ItemCount(dia: Dialect, n: nat, d: bytes)
    ensures ParseItems(dia, n, d).Ok? ==> |ParseItems(dia, n, d).value| == n
    ensures ParseEntries(dia, n, d).Ok? ==> |ParseEntries(dia, n, d).value| == n
    decreases n
  {
    hide ParseItem;
    if n > 0 {
      var k := ParseItem(dia, d);
      if k.Ok? {
        ItemCount(dia, n - 1, k.rest);
        if ParseItem(dia, k.rest).Ok? { ItemCount(dia, n - 1, ParseItem(dia, k.rest).rest); }
      }
    }
  }

  /** The count in front of a container's elements is their number. */
  lemma CountIs(dia: Dialect, tag: nat, d: bytes)
    requires (tag == LIST_TAG || tag == MAP_TAG) && ParseValue(dia, tag, d).Ok?
    ensures |d| >= 4
    ensures var v := ParseValue(dia, tag, d).value;
            (tag == LIST_TAG && v.List? && |v.items| == LeVal(d[..4]))
            || (tag == MAP_TAG && v.Map? && |v.entries| == LeVal(d[..4]))
  {
    hide ParseItems, ParseEntries, LeVal;
    var n := ParseU32(d);
    ItemCount(dia, n.value, n.rest);
  }

  lemma FourEqual(e: bytes)
    requires |e| >= 5 && LeVal(e[..4]) == LeVal(e[1..5])
    ensures e[0] == e[1] == e[2] == e[3] == e[4]
  {
    LeOfLeVal(e[..4]);
    LeOfLeVal(e[1..5]);
    assert e[..4] == e[1..5];
    assert e[..4][0] == e[1..5][0] && e[..4][1] == e[1..5][1] && e[..4][2] == e[1..5][2] && e[..4][3] == e[1..5][3];
  }

  /** A container with the optional bit is read alike only if the five bytes behind its tag
      are one and the same, not zero: it holds 16 843 009 elements or a multiple. */
  lemma OptionalContainerNeeds(d: bytes)
    requires d != [] && d[0] % OPTIONAL_BIT in {LIST_TAG, MAP_TAG} && d[0] >= OPTIONAL_BIT
    ensures ReadsAlike(d) ==> |d| >= 6 && d[1] != 0 && d[1] == d[2] == d[3] == d[4] == d[5]
  {
    hide ParseItem, ParseValue, ParseItems, ParseEntries, LeVal;
    var tag, e := d[0] % OPTIONAL_BIT, d[1..];
    if ReadsAlike(d) {
      OptionalSides(d);
      KindIs(Owned, tag, e);
      CountIs(Owned, tag, e);
      CountIs(Js, tag, e[1..]);
      assert e[1..][..4] == e[1..5];
      FourEqual(e);
    }
  }

  lemma ValueTakes(tag: nat, d: bytes)
    ensures ParseValue(Owned, tag, d).Ok? ==> |ParseValue(Owned, tag, d).rest| < |d|
    decreases |d|, 0
  {
    hide ParseItems, ParseEntries, ParseScalar;
    if tag == LIST_TAG || tag == MAP_TAG {
      var n := ParseU32(d);
      if n.Ok? {
        ItemsTake(n.value, n.rest);
      }
    } else {
      ScalarsAre(Owned, tag, d);
      ScalarShrinksBy(tag, d);
    }
  }

  lemma ScalarShrinksBy(tag: nat, d: bytes)
    ensures ParseScalar(Owned, tag, d).Ok? ==> |ParseScalar(Owned, tag, d).rest| < |d|
  {
    hide Rep, ParseLeb;
    if tag == VARINT_TAG { VarintValues(d); }
    else { ScalarTakes(Owned, tag, d); }
  }

  lemma ItemTakes(d: bytes)
    ensures ParseItem(Owned, d).Ok? ==> |ParseItem(Owned, d).rest| + 2 <= |d|
    decreases |d|, 1
  {
    hide ParseValue;
    if d != [] { ValueTakes(d[0] % OPTIONAL_BIT, d[1..]); }
  }

  /** An element takes at least two bytes. */
  lemma {:induction false} ItemsTake(n: nat, d: bytes)
    ensures ParseItems(Owned, n, d).Ok? ==> |ParseItems(Owned, n, d).rest| + 2 * n <= |d|
    ensures ParseEntries(Owned, n, d).Ok? ==> |ParseEntries(Owned, n, d).rest| + 4 * n <= |d|
    decreases |d|, 2
  {
    hide ParseItem;
    if n > 0 {
      ItemTakes(d);
      var k := ParseItem(Owned, d);
      if k.Ok? {
        ItemsTake(n - 1, k.rest);
        ItemTakes(k.rest);
        if ParseItem(Owned, k.rest).Ok? { ItemsTake(n - 1, ParseItem(Owned, k.rest).rest); }
      }
    }
  }

  lemma FourAlike(e: bytes)
    requires |e| == 4 && e[0] == e[1] == e[2] == e[3] && e[0] != 0
    ensures LeVal(e) >= 16843009
  {
    assert LeVal(e[3..]) == e[3] + 256 * LeVal(e[4..]);
    assert LeVal(e[2..]) == e[2] + 256 * LeVal(e[3..]);
    assert LeVal(e[1..]) == e[1] + 256 * LeVal(e[2..]);
  }

  /** So a container with the optional bit is never read alike in less than 32 megabytes. */
  lemma SmallContainersDiffer(d: bytes)
    requires d != [] && d[0] % OPTIONAL_BIT in {LIST_TAG, MAP_TAG} && d[0] >= OPTIONAL_BIT
    requires |d| < 5 + 2 * 16843009
    ensures !ReadsAlike(d)
  {
    hide ParseItem, ParseValue, ParseItems, ParseEntries, LeVal;
    if ReadsAlike(d) {
      OptionalContainerNeeds(d);
      OptionalSides(d);
      var tag, e := d[0] % OPTIONAL_BIT, d[1..];
      FourAlike(e[..4]);
      ContainerTakes(tag, e);
    }
  }

  lemma ContainerTakes(tag: nat, d: bytes)
    requires tag in {LIST_TAG, MAP_TAG} && ParseValue(Owned, tag, d).Ok?
    ensures |d| >= 4 + 2 * LeVal(d[..4])
  {
    hide ParseItems, ParseEntries, LeVal;
    var n := ParseU32(d);
    ItemsTake(n.value, n.rest);
  }

  /** Small examples: 0x8B is an optional U8. */
  lemma NestedOptionalsDiffer()
    ensures ParseItem(Owned, [0x8B, 5]) == Ok(Varint(5), []) && ParseItem(Ref, [0x8B, 5]) == Ok(Varint(5), [])
    ensures ParseItem(Js, [0x8B, 5]).Fail?
    ensures ParseItem(Owned, [0x8B, 0, 7]) == Ok(Varint(0), [7]) && ParseItem(Js, [0x8B, 0, 7]) == Ok(Absent, [7])
    ensures ParseItem(Strict, [0x8B, 5]).Fail?
  {
    PowersOf256();
    var d, e: bytes := [0x8B, 5], [0x8B, 0, 7];
    assert d[1..] == [5] && [5][1..] == [] && [5][..1] == [5];
    assert e[1..] == [0, 7] && [0, 7][1..] == [7] && [0, 7][..1] == [0];
    assert LeVal([5]) == 5 && LeVal([0]) == 0 by { assert LeVal([]) == 0; }
    assert 0x8B % OPTIONAL_BIT == U8_TAG;
  }
}
