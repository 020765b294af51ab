/** Unsigned LEB128 (DWARF version 5, section 7.6), as dial9-trace-format/src/leb128.rs
    writes and reads it. */
module Leb128 {
  import opened Bytes

  /** The reference encoding: seven bits a byte, least significant group first. */
  function Leb(v: nat): (r: bytes)
    ensures |r| >= 1
  {
    if v < 0x80 then [v] else [v % 0x80 + 0x80] + Leb(v / 0x80)
  }

  /** The reference decoding, reading at most `k` bytes; the value is unbounded. */
  function ParseLeb(k: nat, d: bytes): (r: Parsed<nat>)
    ensures r.Ok? ==> |d| - k <= |r.rest| < |d|
  {
    if k == 0 || d == [] then Fail
    else if d[0] < 0x80 then Ok(d[0], d[1..])
    else
      var (v, r) :- ParseLeb(k - 1, d[1..]);
      Ok(d[0] - 0x80 + 0x80 * v, r)
  }

  function Pow128(k: nat): (p: nat)
    ensures p > 0
  {
    if k == 0 then 1 else 0x80 * Pow128(k - 1)
  }

  lemma PowersOf128()
    ensures Pow128(0) == 1 && Pow128(1) == 0x80 && Pow128(2) == 0x4000 && Pow128(3) == 0x20_0000
    ensures Pow128(4) == 0x1000_0000 && Pow128(5) == 0x8_0000_0000 && Pow128(6) == 0x400_0000_0000
    ensures Pow128(7) == 0x2_0000_0000_0000 && Pow128(8) == 0x100_0000_0000_0000
    ensures Pow128(9) == 0x8000_0000_0000_0000 && Pow128(10) == 0x80 * Pow128(9)
  {
    assert Pow128(3) == 0x80 * Pow128(2);
    assert Pow128(5) == 0x80 * Pow128(4);
    assert Pow128(7) == 0x80 * Pow128(6);
    assert Pow128(9) == 0x80 * Pow128(8);
  }

  lemma {:induction false} ParseLebOf(v: nat, k: nat, s: bytes)
    requires v < Pow128(k) && k > 0
    ensures ParseLeb(k, Leb(v) + s) == Ok(v, s) && |Leb(v)| <= k
  {
    if v >= 0x80 {
      assert k > 1 by { PowersOf128(); }
      ParseLebOf(v / 0x80, k - 1, s);
      assert (Leb(v) + s)[1..] == Leb(v / 0x80) + s;
    } else {
      assert (Leb(v) + s)[1..] == s;
    }
  }

  lemma {:induction false} ParseLebLocal(k: nat, d: bytes, s: bytes)
    ensures var r := ParseLeb(k, d); r.Ok? ==> Tail(r.rest, d) && ParseLeb(k, Used(d, r.rest) + s) == Ok(r.value, s)
  {
    var r := ParseLeb(k, d);
    if r.Ok? {
      if d[0] < 0x80 {
        assert Used(d, r.rest) + s == [d[0]] + s;
        assert ([d[0]] + s)[1..] == s;
      } else {
        ParseLebLocal(k - 1, d[1..], s);
        assert (Used(d, r.rest) + s)[1..] == Used(d[1..], r.rest) + s;
        assert d[|d| - |r.rest|..] == d[1..][|d[1..]| - |r.rest|..];
      }
    }
  }

  /** No byte string that decodes to `v` is shorter than the encoding of `v`. */
  lemma {:induction false} Minimal(k: nat, d: bytes)
    ensures var r := ParseLeb(k, d); r.Ok? ==> |Leb(r.value)| <= |d| - |r.rest|
  {
    var r := ParseLeb(k, d);
    if r.Ok? && d[0] >= 0x80 {
      Minimal(k - 1, d[1..]);
      var v := ParseLeb(k - 1, d[1..]).value;
      assert r.value / 0x80 == v;
    }
  }

  /** Every u64 takes at most ten bytes and is read back from them, whatever follows. */
  lemma RoundTripU64(v: u64, s: bytes)
    ensures |Leb(v)| <= 10 && ParseLeb(10, Leb(v) + s) == Ok(v, s)
  {
    PowersOf128();
    ParseLebOf(v, 10, s);
  }

  // ----- the source's loops

  /** Seven bits split off a number of at most `k` groups. */
  lemma OneGroup(v: nat, k: nat)
    requires v < Pow128(k) && k > 0
    ensures v >= 0x80 ==> k > 1 && v / 0x80 < Pow128(k - 1) && Leb(v) == [v % 0x80 + 0x80] + Leb(v / 0x80)
    ensures v < 0x80 ==> Leb(v) == [v]
  {
    assert Pow128(k) == 0x80 * Pow128(k - 1);
    if k == 1 { PowersOf128(); }
  }

  /** encode_unsigned: the loop fills a ten-byte buffer and never runs past it. */
  method EncodeUnsigned(v: u64) returns (r: bytes)
    ensures r == Leb(v)
  {
    hide Pow128, Leb;
    var buf := new byte[10];
    var value, i := v, 0;
    PowersOf128();
    while value >= 0x80
      invariant 0 <= i < 10 && 0 <= value < Pow128(10 - i)
      invariant buf[..i] + Leb(value) == Leb(v)
      decreases value
    {
      OneGroup(value, 10 - i);
      ghost var before := buf[..i];
      buf[i] := value % 0x80 + 0x80;
      assert buf[..i + 1] == before + [value % 0x80 + 0x80];
      assert buf[..i + 1] + Leb(value / 0x80) == before + Leb(value);
      value := value / 0x80;
      i := i + 1;
    }
    OneGroup(value, 10 - i);
    ghost var before := buf[..i];
    buf[i] := value;
    assert buf[..i + 1] == before + [value];
    i := i + 1;
    return buf[..i];
  }

  function Pow2(k: nat): (p: nat)
    ensures p > 0
  {
    if k == 0 then 1 else 2 * Pow2(k - 1)
  }

  /** `a | bits << shift` on u64. As `a` has no bit at or above `shift`, there are no
      carries and the disjunction is the sum; bits shifted out at the top are lost. */
  function OrShifted(a: nat, bits: nat, shift: nat): u64
    requires a < Pow2(shift)
  {
    (a + Pow2(shift) * bits) % TWO_TO_THE_64
  }

  lemma {:induction false} Pow2Of7(pos: nat)
    ensures Pow2(7 * pos) == Pow128(pos)
  {
    if pos > 0 {
      Pow2Of7(pos - 1);
      var k := 7 * (pos - 1);
      assert Pow2(k + 2) == 2 * Pow2(k + 1);
      assert Pow2(k + 4) == 2 * Pow2(k + 3);
      assert Pow2(k + 6) == 2 * Pow2(k + 5);
    }
  }

  lemma {:induction false} Pow128Monotonic(i: nat, j: nat)
    requires i <= j
    ensures Pow128(i) <= Pow128(j)
    decreases j
  {
    if i < j { Pow128Monotonic(i, j - 1); }
  }

  /** decode_unsigned: gives up after ten bytes and drops what does not fit a u64. */
  method DecodeUnsigned(data: bytes) returns (r: Option<(u64, nat)>)
    ensures r == match ParseLeb(10, data)
      case Fail => None
      case Ok(v, rest) => Some((v % TWO_TO_THE_64, |data| - |rest|))
  {
    var result, shift, pos := 0, 0, 0;
    PowersOf128();
    assert data[0..] == data;
    assert Resume(0, 0, ParseLeb(10, data)) == ParseLeb(10, data) by { ResumeAtStart(ParseLeb(10, data)); }
    while true
      invariant 0 <= pos < 10 && pos <= |data| && shift == 7 * pos && 0 <= result < Pow128(pos)
      invariant Resume(result, pos, ParseLeb(10 - pos, data[pos..])) == ParseLeb(10, data)
      decreases 10 - pos
    {
      if pos >= |data| { return None; }
      var b: byte := data[pos];
      Pow2Of7(pos);
      DecodeTurn(result, pos, data[pos..]);
      assert data[pos..][1..] == data[pos + 1..];
      result := OrShifted(result, b % 0x80, shift);
      pos := pos + 1;
      shift := shift + 7;
      if b < 0x80 { return Some((result, pos)); }
      if pos >= 10 { return None; }
    }
  }

  /** What the whole input decodes to when `pos` groups worth `low` were already read. */
  ghost function Resume(low: nat, pos: nat, r: Parsed<nat>): Parsed<nat> {
    if r.Fail? then Fail else Ok(low + Pow128(pos) * r.value, r.rest)
  }

  lemma ResumeAtStart(r: Parsed<nat>)
    ensures Resume(0, 0, r) == r
  {
  }

  lemma ProductBound(p: nat, bits: nat)
    requires bits < 0x80
    ensures p * bits <= 0x7f * p
  {
  }

  /** Adding a group is exact up to the ninth byte. */
  lemma OrShiftedExact(low: nat, bits: nat, pos: nat)
    requires pos < 9 && low < Pow128(pos) && bits < 0x80
    ensures low < Pow2(7 * pos)
    ensures OrShifted(low, bits, 7 * pos) == low + Pow128(pos) * bits < Pow128(pos + 1)
  {
    Pow2Of7(pos);
    Pow128Monotonic(pos + 1, 9);
    ProductBound(Pow128(pos), bits);
    PowersOf128();
  }

  /** `low` with a further group of seven bits above its `pos` groups. */
  function AddGroup(low: nat, bits: nat, pos: nat): nat {
    low + Pow128(pos) * bits
  }

  lemma UnboundedTurn(low: nat, pos: nat, k: nat, d: bytes)
    requires |d| > 0 && k > 0
    ensures var r := Resume(low, pos, ParseLeb(k, d));
            var next := AddGroup(low, d[0] % 0x80, pos);
            if d[0] < 0x80 then r == Ok(next, d[1..]) else r == Resume(next, pos + 1, ParseLeb(k - 1, d[1..]))
  {
    if d[0] >= 0x80 {
      var tail := ParseLeb(k - 1, d[1..]);
      if tail.Ok? { Distribute(pos, d[0] % 0x80, tail.value); }
    }
  }

  /** Of the tenth byte's seven bits only one fits into 64. */
  lemma DecodeTurn(low: nat, pos: nat, d: bytes)
    requires pos <= 9 && low < Pow128(pos) && |d| > 0
    ensures low < Pow2(7 * pos)
    ensures var r := Resume(low, pos, ParseLeb(10 - pos, d));
            var next := OrShifted(low, d[0] % 0x80, 7 * pos);
            if d[0] < 0x80 then r.Ok? && r.rest == d[1..] && next == r.value % TWO_TO_THE_64
            else if pos == 9 then r.Fail?
            else next < Pow128(pos + 1) && r == Resume(next, pos + 1, ParseLeb(9 - pos, d[1..]))
  {
    Pow2Of7(pos);
    var p, bits := Pow128(pos), d[0] % 0x80;
    if d[0] < 0x80 {
      assert ParseLeb(10 - pos, d) == Ok(bits, d[1..]);
    } else if pos < 9 {
      OrShiftedExact(low, bits, pos);
      var tail := ParseLeb(9 - pos, d[1..]);
      if tail.Ok? {
        Distribute(pos, bits, tail.value);
      }
    }
  }

  lemma Distribute(pos: nat, bits: nat, v: nat)
    ensures Pow128(pos) * (bits + 0x80 * v) == Pow128(pos) * bits + Pow128(pos + 1) * v
  {
    var p := Pow128(pos);
    assert Pow128(pos + 1) == 0x80 * p;
    assert p * (bits + 0x80 * v) == p * bits + 0x80 * p * v;
  }
}
