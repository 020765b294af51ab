/** The bytes of the format as numbers: every tag, every length field and every byte order
    spelled out, for all contents. Encoder and decoders share their constants, so no round
    trip would notice two of them swapped; real traces would. */
module ByteLayout {
  import opened Bytes
  import opened Leb128
  import opened Values
  import opened Frames
  import opened Machine
  import Utf8

  // ----- integers

  lemma LeSteps(k: nat, n: nat)
    ensures k > 0 ==> Le(k, n) == [n % 256] + Le(k - 1, n / 256)
    ensures Le(0, n) == []
  {
  }

  lemma TwoBytes(n: u16)
    ensures U16Le(n) == [n % 256, n / 256]
  {
    LeSteps(2, n);
    LeSteps(1, n / 256);
  }

  lemma ThreeBytes(n: nat)
    requires n < 0x100_0000
    ensures Le(3, n) == [n % 256, n / 256 % 256, n / 0x1_0000]
  {
    hide Le;
    LeSteps(3, n);
    LeSteps(2, n / 256);
    LeSteps(1, n / 256 / 256);
    LeSteps(0, n / 256 / 256 / 256);
  }

  lemma FourBytes(n: u32)
    ensures U32Le(n) == [n % 256, n / 256 % 256, n / 0x1_0000 % 256, n / 0x100_0000]
  {
    hide Le;
    LeSteps(4, n);
    LeSteps(3, n / 256);
    LeSteps(2, n / 256 / 256);
    LeSteps(1, n / 256 / 256 / 256);
    LeSteps(0, n / 256 / 256 / 256 / 256);
  }

  lemma LongDivisions(n: nat)
    ensures n / 256 / 256 == n / 0x1_0000 && n / 0x1_0000 / 256 == n / 0x100_0000
    ensures n / 0x100_0000 / 256 == n / 0x1_0000_0000 && n / 0x1_0000_0000 / 256 == n / 0x100_0000_0000
    ensures n / 0x100_0000_0000 / 256 == n / 0x1_0000_0000_0000
    ensures n / 0x1_0000_0000_0000 / 256 == n / 0x100_0000_0000_0000
  {
  }

  lemma LowHalf(n: u64)
    ensures U64Le(n) == [n % 256, n / 256 % 256, n / 0x1_0000 % 256, n / 0x100_0000 % 256] + Le(4, n / 0x1_0000_0000)
  {
    hide Le;
    LongDivisions(n);
    LeSteps(8, n);
    LeSteps(7, n / 256);
    LeSteps(6, n / 0x1_0000);
    LeSteps(5, n / 0x100_0000);
  }

  lemma EightBytes(n: u64)
    ensures U64Le(n) == [n % 256, n / 256 % 256, n / 0x1_0000 % 256, n / 0x100_0000 % 256, n / 0x1_0000_0000 % 256,
                         n / 0x100_0000_0000 % 256, n / 0x1_0000_0000_0000 % 256, n / 0x100_0000_0000_0000]
  {
    hide Le;
    LongDivisions(n);
    LowHalf(n);
    var high: u32 := n / 0x1_0000_0000;
    FourBytes(high);
    LongDivisions(high);
  }

  /** The examples of DWARF version 5, section 7.6: low groups first, the high bit on all
      but the last. */
  lemma LebExamples()
    ensures Leb(2) == [2] && Leb(127) == [0x7F] && Leb(128) == [0x80, 1] && Leb(129) == [0x81, 1]
    ensures Leb(12857) == [0xB9, 0x64]
  {
  }

  // ----- frames

  lemma HeaderBytes()
    ensures EncodeWire(WireHeader) == [0x54, 0x52, 0x43, 0x00, 1]
  {
  }

  function FieldBytes(fields: seq<FieldDef>): bytes
    requires forall i :: 0 <= i < |fields| ==> |fields[i].name| < 0x1_0000
  {
    if fields == [] then []
    else [|fields[0].name| % 256, |fields[0].name| / 256] + fields[0].name + [fields[0].tag] + FieldBytes(fields[1..])
  }

  lemma {:induction false} FieldsAre(fields: seq<FieldDef>)
    requires forall i :: 0 <= i < |fields| ==> |fields[i].name| < 0x1_0000
    ensures Concat(EncodeFieldDef, fields) == FieldBytes(fields)
  {
    hide Le;
    if fields != [] {
      TwoBytes(|fields[0].name|);
      FieldsAre(fields[1..]);
    }
  }

  lemma EntryBytes(e: SchemaEntry)
    requires EntryFits(e)
    ensures Frames.EncodeEntry(e)
         == [|e.name| % 256, |e.name| / 256] + e.name
            + ([if e.hasTimestamp then 1 else 0, |e.fields| % 256, |e.fields| / 256] + FieldBytes(e.fields))
  {
    hide Le, Utf8.Valid, Concat, FieldBytes;
    TwoBytes(|e.name|);
    TwoBytes(|e.fields|);
    assert forall i :: 0 <= i < |e.fields| ==> FieldDefFits(e.fields[i]);
    FieldsAre(e.fields);
    BehindFlag(if e.hasTimestamp then 1 else 0, |e.fields| % 256, |e.fields| / 256, FieldBytes(e.fields));
  }

  lemma BehindFlag(flag: byte, a: byte, b: byte, rest: bytes)
    ensures [flag] + ([a, b] + rest) == [flag, a, b] + rest
  {
  }

  lemma SchemaBytes(id: u16, e: SchemaEntry)
    requires EntryFits(e)
    ensures EncodeWire(WireSchema(id, e))
         == [1, id % 256, id / 256]
            + ([|e.name| % 256, |e.name| / 256] + e.name
               + ([if e.hasTimestamp then 1 else 0, |e.fields| % 256, |e.fields| / 256] + FieldBytes(e.fields)))
  {
    hide EntryFits, Le, Frames.EncodeEntry, FieldBytes;
    TwoBytes(id);
    EntryBytes(e);
    BehindFlag(1, id % 256, id / 256, Frames.EncodeEntry(e));
  }

  lemma EventBytes(id: u16, delta: nat, dynamic: bool, tags: seq<byte>, vs: seq<Value>)
    requires delta < 0x100_0000
    ensures EncodeWire(WireEvent(id, delta, dynamic, tags, vs))
         == [2, id % 256, id / 256, delta % 256, delta / 256 % 256, delta / 0x1_0000] + EncodeFields(dynamic, tags, vs)
  {
    hide Le, EncodeFields;
    TwoBytes(id);
    ThreeBytes(delta);
  }

  /** A pool entry: its id, then how much it holds, then that. */
  lemma StringPoolBytes(id: u32, text: bytes)
    requires |text| < TWO_TO_THE_32
    ensures EncodeWire(WireStrings([PoolEntry(id, text)])) == [3, 1, 0, 0, 0] + U32Le(id) + U32Le(|text|) + text
  {
    hide Le;
    FourBytes(1);
    OneEntry(EncodePoolEntry, PoolEntry(id, text));
  }

  /** The addresses of a stack stand there as in a field of that kind. */
  lemma StackPoolBytes(id: u32, frames: seq<u64>)
    requires |frames| < TWO_TO_THE_32
    ensures EncodeWire(WireStacks([StackEntry(id, frames)]))
         == [4, 1, 0, 0, 0] + U32Le(id) + EncodeValue(StackFrames(frames))
  {
    hide Le, Concat;
    FourBytes(1);
    OneEntry(EncodeStackEntry, StackEntry(id, frames));
    var addresses := EncodeAddresses(frames);
    assert EncodeValue(StackFrames(frames)) == addresses;
    hide EncodeAddresses, EncodeValue;
    assert EncodeStackEntry(StackEntry(id, frames)) == U32Le(id) + addresses;
  }

  lemma OneEntry<T>(encode: T -> bytes, x: T)
    ensures Concat(encode, [x]) == encode(x)
  {
    assert [x][1..] == [];
  }

  lemma ResetBytes(ts: u64)
    ensures EncodeWire(WireReset(ts)) == [5] + U64Le(ts)
  {
  }

  lemma AnnotationBytes(id: u16, a: Annotation)
    requires AnnotationFits(a)
    ensures EncodeWire(WireAnnotations(id, [a]))
         == [6] + Leb(id) + [1, 0] + [a.index % 256, a.index / 256, |a.key| % 256, |a.key| / 256] + a.key
            + U32Le(|a.value|) + a.value
  {
    hide Le, Leb, Utf8.Valid;
    TwoBytes(1);
    TwoBytes(a.index);
    TwoBytes(|a.key|);
    OneEntry(EncodeAnnotation, a);
  }

  // ----- values

  /** The number of each kind, and what stands behind it. */
  lemma ValueBytes(v: Value)
    requires Encodable(v)
    ensures match v
      case I64(i) => TagOf(v) == 1 && EncodeValue(v) == U64Le(if i < 0 then i + 0x1_0000_0000_0000_0000 else i)
      case F64(bits) => TagOf(v) == 2 && EncodeValue(v) == U64Le(bits)
      case Bool(b) => TagOf(v) == 3 && EncodeValue(v) == [if b then 1 else 0]
      case String(text) => TagOf(v) == 4 && EncodeValue(v) == U32Le(|text|) + text
      case Bytes(data) => TagOf(v) == 5 && EncodeValue(v) == U32Le(|data|) + data
      case PooledStackFrames(id) => TagOf(v) == 6 && EncodeValue(v) == U32Le(id)
      case PooledString(id) => TagOf(v) == 7 && EncodeValue(v) == U32Le(id)
      case StackFrames(addrs) => TagOf(v) == 8 && EncodeValue(v) == U32Le(|addrs|) + Concat(U64Le, addrs)
      case Varint(n) => TagOf(v) == 9 && EncodeValue(v) == Leb(n)
      case StringMap(texts) => TagOf(v) == 10 && EncodeValue(v)[..4] == U32Le(|texts|)
      case List(items) => TagOf(v) == 14 && EncodeValue(v)[..4] == U32Le(|items|)
      case Map(entries) => TagOf(v) == 15 && EncodeValue(v)[..4] == U32Le(|entries|)
      case Absent => true
  {
    hide Le, Leb, Utf8.Valid;
  }

  /** What a container holds: each element behind its own number, a key in front of its value. */
  lemma ListBytes(v: Value)
    ensures EncodeValue(List([v])) == [1, 0, 0, 0, TagOf(v)] + EncodeValue(v)
  {
    hide Le, TagOf;
    FourBytes(1);
    var items := [v];
    assert items[1..] == [] && EncodeItems(items[1..]) == [];
    assert EncodeItems(items) == [TagOf(v)] + EncodeValue(v) + [];
    assert EncodeValue(List(items)) == U32Le(1) + EncodeItems(items);
  }

  lemma MapBytes(k: Value, v: Value)
    ensures EncodeValue(Map([Entry(k, v)])) == [1, 0, 0, 0, TagOf(k)] + EncodeValue(k) + [TagOf(v)] + EncodeValue(v)
  {
    hide Le, TagOf;
    FourBytes(1);
    var entries := [Entry(k, v)];
    assert entries[1..] == [] && EncodeEntries(entries[1..]) == [];
    assert EncodeEntries(entries) == Values.EncodeEntry(entries[0]) + [];
    assert EncodeValue(Map(entries)) == U32Le(1) + EncodeEntries(entries);
    Assoc([TagOf(k)] + EncodeValue(k), [TagOf(v)], EncodeValue(v));
  }

  lemma StringMapBytes(key: bytes, text: bytes)
    requires |key| < TWO_TO_THE_32 && |text| < TWO_TO_THE_32
    ensures EncodeValue(StringMap([(key, text)])) == [1, 0, 0, 0] + U32Le(|key|) + key + U32Le(|text|) + text
  {
    hide Le;
    FourBytes(1);
    OneEntry(TextPair, (key, text));
    Assoc(Blob(key), U32Le(|text|), text);
  }

  /** A field of declared type 11, 12 or 13 has its fixed width; with the bit 0x80 a byte in
      front says whether it is there. */
  lemma FieldBytesOf(tag: byte, v: Value)
    requires FitsField(tag, v)
    ensures tag == 11 ==> v.Varint? && v.n < 256 && EncodeField(tag, v) == [v.n]
    ensures tag == 12 ==> v.Varint? && v.n < 0x1_0000 && EncodeField(tag, v) == [v.n % 256, v.n / 256]
    ensures tag == 13 ==> v.Varint? && v.n < TWO_TO_THE_32 && EncodeField(tag, v) == U32Le(v.n)
    ensures tag < 128 && tag !in {11, 12, 13} ==> TagOf(v) == tag && EncodeField(tag, v) == EncodeValue(v)
    ensures tag >= 128 ==> EncodeField(tag, v) == if v == Absent then [0] else [1] + EncodeField(tag - 128, v)
  {
    hide EncodeValue, Le, Encodable;
    PowersOf256();
    if tag == 11 { LeSteps(1, v.n); LeSteps(0, v.n / 256); }
    if tag == 12 { TwoBytes(v.n); }
  }

  // ----- bytes that only other writers use

  lemma LeOne(b: byte, s: bytes)
    ensures ParseLe(1, [b] + s) == Ok(b, s)
  {
    assert ([b] + s)[..1] == [b] && ([b] + s)[1..] == s && LeVal([b]) == b;
  }

  lemma NoneFollow(s: bytes)
    ensures ParseU16([0, 0] + s) == Ok(0, s)
  {
    assert ([0, 0] + s)[..2] == [0, 0] && ([0, 0] + s)[2..] == s;
    assert [0, 0][1..] == [0] && LeVal([0]) == 0;
  }

  /** A header is its four bytes and any fifth one: no decoder looks at the version. */
  lemma AnyVersion(d: bytes)
    ensures HeaderAt(d) <==> |d| >= 5 && d[0] == 0x54 && d[1] == 0x52 && d[2] == 0x43 && d[3] == 0x00
  {
    if |d| >= 5 { assert d[..4] == [d[0], d[1], d[2], d[3]]; }
  }

  /** Every reader takes any non-zero byte for true. */
  lemma AnyNonZeroBool(dia: Dialect, b: byte, s: bytes)
    ensures ParseValue(dia, 3, [b] + s) == Ok(Bool(b != 0), s)
  {
    hide ParseLe;
    LeOne(b, s);
  }

  /** And for a field that is there. */
  lemma AnyNonZeroPresence(dia: Dialect, b: byte, tag: byte, s: bytes)
    requires 1 <= tag <= 15
    ensures ParseField(dia, 128 + tag, [b] + s) == if b == 0 then Ok(Absent, s) else ParseField(dia, tag, s)
  {
    hide ParseValue;
    assert ([b] + s)[1..] == s;
  }

  lemma NoName(dia: Dialect, s: bytes)
    ensures ParseName(dia, [0, 0] + s) == Ok([], s)
  {
    hide ParseU16;
    NoneFollow(s);
    assert s[..0] == [] && s[0..] == s && Utf8.Valid([]);
  }

  lemma NoFields(dia: Dialect, s: bytes)
    ensures ParseFieldDefs(dia, [0, 0] + s) == Ok([], s)
  {
    hide ParseU16;
    NoneFollow(s);
  }

  /** And for the timestamp flag of a schema, here one without a name and without fields. */
  lemma AnyNonZeroFlag(dia: Dialect, flag: byte, s: bytes)
    ensures ParseEntry(dia, [0, 0] + ([flag] + ([0, 0] + s))) == Ok(SchemaEntry([], flag != 0, [], []), s)
  {
    hide ParseName, ParseFieldDefs;
    var behind := [flag] + ([0, 0] + s);
    NoName(dia, behind);
    assert behind[1..] == [0, 0] + s;
    NoFields(dia, s);
  }
}
