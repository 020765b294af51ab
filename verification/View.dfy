/** Reading a buffer by offset, as a DataView or a slice index does, and how that relates
    to parsing the remainder of the buffer. */
module View {
  import opened Bytes
  import opened Values
  import opened Frames

  /** A read past the end throws a RangeError (or makes `get` give None). */
  function GetLe(buf: bytes, at: nat, k: nat): Option<nat> {
    if at + k <= |buf| then Some(LeVal(buf[at..at + k])) else None
  }

  function GetByte(buf: bytes, at: nat): Option<byte> {
    if at < |buf| then Some(buf[at]) else None
  }

  lemma LeAt(buf: bytes, at: nat, k: nat)
    requires at <= |buf|
    ensures ParseLe(k, buf[at..]) == if at + k <= |buf| then Ok(LeVal(buf[at..at + k]), buf[at + k..]) else Fail
  {
    if at + k <= |buf| {
      assert buf[at..][..k] == buf[at..at + k] && buf[at..][k..] == buf[at + k..];
    }
  }

  lemma TakeAt(buf: bytes, at: nat, n: nat)
    requires at <= |buf|
    ensures Take(n, buf[at..]) == if at + n <= |buf| then Ok(buf[at..at + n], buf[at + n..]) else Fail
  {
    if at + n <= |buf| {
      assert buf[at..][..n] == buf[at..at + n] && buf[at..][n..] == buf[at + n..];
    }
  }

  lemma ByteAt(buf: bytes, at: nat)
    requires at < |buf|
    ensures buf[at..] != [] && buf[at..][0] == buf[at] && buf[at..][1..] == buf[at + 1..]
  {
  }

  lemma BlobAt(buf: bytes, at: nat)
    requires at <= |buf|
    ensures var n := GetLe(buf, at, 4);
            ParseBlob(buf[at..]) == if n.Some? && at + 4 + n.value <= |buf|
              then Ok(buf[at + 4..at + 4 + n.value], buf[at + 4 + n.value..]) else Fail
  {
    LeAt(buf, at, 4);
    if at + 4 <= |buf| { TakeAt(buf, at + 4, LeVal(buf[at..at + 4])); }
  }

  lemma CountAt(buf: bytes, at: nat)
    requires at <= |buf|
    ensures var n := GetLe(buf, at, 4);
            ParseU32(buf[at..]) == if n.Some? && n.value < TWO_TO_THE_32 then Ok(n.value, buf[at + 4..]) else Fail
    ensures GetLe(buf, at, 4).Some? ==> GetLe(buf, at, 4).value < TWO_TO_THE_32 && at + 4 <= |buf|
  {
    LeAt(buf, at, 4);
    PowersOf256();
  }

  lemma ShortCountAt(buf: bytes, at: nat)
    requires at <= |buf|
    ensures var n := GetLe(buf, at, 2);
            ParseU16(buf[at..]) == if n.Some? && n.value < 0x1_0000 then Ok(n.value, buf[at + 2..]) else Fail
    ensures GetLe(buf, at, 2).Some? ==> GetLe(buf, at, 2).value < 0x1_0000 && at + 2 <= |buf|
  {
    LeAt(buf, at, 2);
    PowersOf256();
  }

  lemma NameAt(buf: bytes, at: nat)
    requires at <= |buf|
    ensures var n := GetLe(buf, at, 2);
            ParseName(Js, buf[at..]) == if n.Some? && at + 2 + n.value <= |buf|
              then Ok(buf[at + 2..at + 2 + n.value], buf[at + 2 + n.value..]) else Fail
  {
    LeAt(buf, at, 2);
    if at + 2 <= |buf| { TakeAt(buf, at + 2, LeVal(buf[at..at + 2])); }
  }
}
