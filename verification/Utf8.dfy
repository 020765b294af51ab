/** Well-formed UTF-8 (RFC 3629, section 4) and the replacement that the owned decoder
    falls back to: every maximal ill-formed piece becomes U+FFFD. */
module Utf8 {
  import opened Bytes

  predicate Cont(b: byte) { 0x80 <= b <= 0xBF }

  /** Length announced by a first byte; 0 if no character starts with it. */
  function Width(b: byte): (n: nat)
    ensures n <= 4
  {
    if b < 0x80 then 1 else if b < 0xC2 then 0 else if b < 0xE0 then 2
    else if b < 0xF0 then 3 else if b < 0xF5 then 4 else 0
  }

  predicate Second(b0: byte, b1: byte) {
    Cont(b1) && (b0 == 0xE0 ==> b1 >= 0xA0) && (b0 == 0xED ==> b1 < 0xA0)
    && (b0 == 0xF0 ==> b1 >= 0x90) && (b0 == 0xF4 ==> b1 < 0x90)
  }

  /** How many leading bytes could begin one well-formed character. */
  function Matched(d: bytes): (n: nat)
    requires d != []
    ensures n <= |d| && n <= Width(d[0])
  {
    var w := Width(d[0]);
    if w == 0 then 0
    else if w == 1 || |d| < 2 || !Second(d[0], d[1]) then 1
    else if w == 2 || |d| < 3 || !Cont(d[2]) then 2
    else if w == 3 || |d| < 4 || !Cont(d[3]) then 3
    else 4
  }

  /** `d` starts with a complete well-formed character, of `Width(d[0])` bytes. */
  predicate Starts(d: bytes) {
    d != [] && Width(d[0]) > 0 && Matched(d) == Width(d[0])
  }

  predicate Valid(d: bytes) {
    d == [] || (Starts(d) && Valid(d[Width(d[0])..]))
  }

  const REPLACEMENT: bytes := [0xEF, 0xBF, 0xBD]

  function Lossy(d: bytes): bytes {
    if d == [] then []
    else if Starts(d) then d[..Width(d[0])] + Lossy(d[Width(d[0])..])
    else REPLACEMENT + Lossy(d[if Matched(d) == 0 then 1 else Matched(d)..])
  }

  lemma StartsWithCharacter(c: bytes, rest: bytes)
    requires Starts(c) && |c| == Width(c[0])
    ensures Starts(c + rest) && (c + rest)[..|c|] == c && (c + rest)[|c|..] == rest
  {
  }

  /** Replacement always produces well-formed text. */
  lemma {:induction false} LossyIsValid(d: bytes)
    ensures Valid(Lossy(d))
  {
    if d == [] {
    } else if Starts(d) {
      var w := Width(d[0]);
      LossyIsValid(d[w..]);
      StartsWithCharacter(d[..w], Lossy(d[w..]));
    } else {
      var rest := d[if Matched(d) == 0 then 1 else Matched(d)..];
      LossyIsValid(rest);
      StartsWithCharacter(REPLACEMENT, Lossy(rest));
    }
  }

  /** Replacement changes a byte string exactly when it is not well-formed. */
  lemma {:induction false} LossyKeepsExactlyValid(d: bytes)
    ensures Lossy(d) == d <==> Valid(d)
  {
    if Lossy(d) == d { LossyIsValid(d); }
    if Valid(d) && d != [] {
      LossyKeepsExactlyValid(d[Width(d[0])..]);
    }
  }

  // ----- code points

  /** A Unicode scalar value: a code point that is no surrogate. */
  predicate Scalar(c: int) {
    0 <= c < 0xD800 || 0xE000 <= c < 0x11_0000
  }

  /** The UTF-8 encoding of a scalar value: its bits in groups of six behind a first byte
      that tells how many there are. */
  function Encode(c: int): bytes
    requires Scalar(c)
  {
    if c < 0x80 then [c]
    else if c < 0x800 then [0xC0 + c / 64, 0x80 + c % 64]
    else if c < 0x1_0000 then [0xE0 + c / 4096, 0x80 + c / 64 % 64, 0x80 + c % 64]
    else [0xF0 + c / 262144, 0x80 + c / 4096 % 64, 0x80 + c / 64 % 64, 0x80 + c % 64]
  }

  predicate Scalars(cs: seq<int>) {
    forall i :: 0 <= i < |cs| ==> Scalar(cs[i])
  }

  function EncodeAll(cs: seq<int>): bytes
    requires Scalars(cs)
  {
    if cs == [] then [] else Encode(cs[0]) + EncodeAll(cs[1..])
  }

  /** A text is the encoding of some sequence of scalar values. */
  ghost predicate IsText(d: bytes) {
    exists cs :: Scalars(cs) && EncodeAll(cs) == d
  }

  lemma EncodedStarts(c: int)
    requires Scalar(c)
    ensures Starts(Encode(c)) && |Encode(c)| == Width(Encode(c)[0])
  {
  }

  /** Six more bits behind a number. */
  function Shift(high: int, b: byte): int {
    high * 64 + (b as int - 0x80)
  }

  /** The code point of a complete character. */
  function CodePoint(d: bytes): (c: int)
    requires Starts(d)
  {
    var b0: int := d[0];
    if Width(d[0]) == 1 then b0
    else if Width(d[0]) == 2 then Shift(b0 - 0xC0, d[1])
    else if Width(d[0]) == 3 then Shift(Shift(b0 - 0xE0, d[1]), d[2])
    else Shift(Shift(Shift(b0 - 0xF0, d[1]), d[2]), d[3])
  }

  lemma ShiftBack(high: int, b: byte)
    requires Cont(b)
    ensures Shift(high, b) / 64 == high && 0x80 + Shift(high, b) % 64 == b
  {
  }

  lemma ByGroups(c: int)
    ensures c / 4096 == c / 64 / 64 && c / 262144 == c / 64 / 64 / 64
  {
  }

  lemma ThreeBytes(high: int, b1: byte, b2: byte)
    requires Cont(b1) && Cont(b2)
    ensures var c := Shift(Shift(high, b1), b2);
            c / 4096 == high && 0x80 + c / 64 % 64 == b1 && 0x80 + c % 64 == b2
  {
    hide Shift, Cont;
    var c := Shift(Shift(high, b1), b2);
    ShiftBack(high, b1);
    ShiftBack(Shift(high, b1), b2);
    ByGroups(c);
  }

  lemma FourBytes(high: int, b1: byte, b2: byte, b3: byte)
    requires Cont(b1) && Cont(b2) && Cont(b3)
    ensures var c := Shift(Shift(Shift(high, b1), b2), b3);
            c / 262144 == high && 0x80 + c / 4096 % 64 == b1 && 0x80 + c / 64 % 64 == b2 && 0x80 + c % 64 == b3
  {
    hide Shift, Cont;
    var c := Shift(Shift(Shift(high, b1), b2), b3);
    ShiftBack(high, b1);
    ShiftBack(Shift(high, b1), b2);
    ShiftBack(Shift(Shift(high, b1), b2), b3);
    ByGroups(c);
  }

  lemma TwoAreEncoded(d: bytes)
    requires Starts(d) && Width(d[0]) == 2
    ensures Scalar(CodePoint(d)) && Encode(CodePoint(d)) == d[..2]
  {
    ShiftBack(d[0] as int - 0xC0, d[1]);
  }

  lemma ThreeRange(b0: byte, b1: byte, b2: byte)
    requires 0xE0 <= b0 < 0xF0 && Second(b0, b1) && Cont(b2)
    ensures var c := Shift(Shift(b0 as int - 0xE0, b1), b2); 0x800 <= c < 0x1_0000 && Scalar(c)
  {
  }

  lemma FourRange(b0: byte, b1: byte, b2: byte, b3: byte)
    requires 0xF0 <= b0 < 0xF5 && Second(b0, b1) && Cont(b2) && Cont(b3)
    ensures var c := Shift(Shift(Shift(b0 as int - 0xF0, b1), b2), b3); 0x1_0000 <= c < 0x11_0000
  {
  }

  lemma ThreeAreEncoded(d: bytes)
    requires Starts(d) && Width(d[0]) == 3
    ensures Scalar(CodePoint(d)) && Encode(CodePoint(d)) == d[..3]
  {
    hide Shift;
    assert |d| >= 3 && 0xE0 <= d[0] < 0xF0 && Second(d[0], d[1]) && Cont(d[2]);
    hide Matched;
    ThreeRange(d[0], d[1], d[2]);
    ThreeBytes(d[0] as int - 0xE0, d[1], d[2]);
  }

  lemma FourAreEncoded(d: bytes)
    requires Starts(d) && Width(d[0]) == 4
    ensures Scalar(CodePoint(d)) && Encode(CodePoint(d)) == d[..4]
  {
    hide Shift;
    assert |d| >= 4 && 0xF0 <= d[0] < 0xF5 && Second(d[0], d[1]) && Cont(d[2]) && Cont(d[3]);
    hide Matched, Second, Cont;
    FourRange(d[0], d[1], d[2], d[3]);
    FourBytes(d[0] as int - 0xF0, d[1], d[2], d[3]);
  }

  lemma CharacterIsEncoded(d: bytes)
    requires Starts(d)
    ensures Scalar(CodePoint(d)) && Encode(CodePoint(d)) == d[..Width(d[0])]
  {
    if Width(d[0]) == 2 {
      TwoAreEncoded(d);
    } else if Width(d[0]) == 3 {
      ThreeAreEncoded(d);
    } else if Width(d[0]) == 4 {
      FourAreEncoded(d);
    }
  }

  /** Well-formed texts are exactly the encodings of scalar values. */
  lemma ValidIsText(d: bytes)
    ensures Valid(d) <==> IsText(d)
  {
    if Valid(d) { var cs := Decoded(d); }
    if IsText(d) {
      var cs :| Scalars(cs) && EncodeAll(cs) == d;
      EncodedIsValid(cs);
    }
  }

  lemma {:induction false} Decoded(d: bytes) returns (cs: seq<int>)
    requires Valid(d)
    ensures Scalars(cs) && EncodeAll(cs) == d
  {
    hide CodePoint, Encode, Scalar, Matched;
    cs := [];
    if d != [] {
      var w := Width(d[0]);
      var rest := Decoded(d[w..]);
      CharacterIsEncoded(d);
      cs := [CodePoint(d)] + rest;
      assert cs[1..] == rest && d == d[..w] + d[w..];
    }
  }

  lemma {:induction false} EncodedIsValid(cs: seq<int>)
    requires Scalars(cs)
    ensures Valid(EncodeAll(cs))
  {
    hide Encode, Scalar, Starts;
    if cs != [] {
      EncodedIsValid(cs[1..]);
      EncodedStarts(cs[0]);
      StartsWithCharacter(Encode(cs[0]), EncodeAll(cs[1..]));
    }
  }

  // ----- what is replaced

  /** These bytes begin the encoding of some scalar value. */
  ghost predicate Begins(p: bytes) {
    exists c :: Scalar(c) && p <= Encode(c)
  }

  /** The least second byte behind a first one. */
  function LeastSecond(b: byte): byte {
    if b == 0xE0 then 0xA0 else if b == 0xF0 then 0x90 else 0x80
  }

  lemma MatchedBegins(d: bytes)
    requires d != []
    ensures Begins(d[..Matched(d)])
  {
    var m := Matched(d);
    if m == 0 {
      assert Scalar(0) && [] <= Encode(0);
    } else {
      var whole :=
        d[..m] + [if m == 1 then LeastSecond(d[0]) else 0x80, 0x80, 0x80][..Width(d[0]) - m];
      assert Starts(whole) && whole[..Width(whole[0])] == whole;
      CharacterIsEncoded(whole);
      assert d[..m] <= Encode(CodePoint(whole));
    }
  }

  lemma NothingLongerBegins(d: bytes, m: nat)
    requires d != [] && Matched(d) < m <= |d|
    ensures !Begins(d[..m])
  {
    if Begins(d[..m]) {
      var c :| Scalar(c) && d[..m] <= Encode(c);
      EncodedStarts(c);
    }
  }

  /** A text begins with a complete character exactly if with the encoding of a scalar. */
  lemma StartsWithScalar(d: bytes)
    ensures Starts(d) <==> exists c :: Scalar(c) && Encode(c) <= d
  {
    if Starts(d) {
      CharacterIsEncoded(d);
      assert Encode(CodePoint(d)) <= d;
    }
    if c :| Scalar(c) && Encode(c) <= d {
      EncodedStarts(c);
      StartsWithCharacter(Encode(c), d[|Encode(c)|..]);
      assert d == Encode(c) + d[|Encode(c)|..];
    }
  }

  /** Replacement keeps an encoded scalar value in front as it is. */
  lemma ScalarIsKept(c: int, d: bytes)
    requires Scalar(c)
    ensures Lossy(Encode(c) + d) == Encode(c) + Lossy(d)
  {
    hide Encode, Matched;
    EncodedStarts(c);
    StartsWithCharacter(Encode(c), d);
  }

  /** Where no encoded scalar value stands in front, one U+FFFD takes the place of the
      longest piece that could begin one, and of at least one byte. */
  lemma PieceIsReplaced(d: bytes) returns (k: nat)
    requires d != [] && forall c :: Scalar(c) ==> !(Encode(c) <= d)
    ensures 1 <= k <= |d| && Lossy(d) == Encode(0xFFFD) + Lossy(d[k..])
    ensures k > 1 ==> Begins(d[..k])
    ensures forall m :: k < m <= |d| ==> !Begins(d[..m])
  {
    hide Matched;
    StartsWithScalar(d);
    k := if Matched(d) == 0 then 1 else Matched(d);
    assert Encode(0xFFFD) == REPLACEMENT;
    MatchedBegins(d);
    forall m | k < m <= |d| ensures !Begins(d[..m]) { NothingLongerBegins(d, m); }
  }

  /** U+1F600 is four bytes of well-formed text, which replacement keeps. */
  lemma EmojiExample()
    ensures Encode(0x1F600) == [0xF0, 0x9F, 0x98, 0x80] && Valid([0xF0, 0x9F, 0x98, 0x80])
    ensures Lossy([0xF0, 0x9F, 0x98, 0x80]) == [0xF0, 0x9F, 0x98, 0x80]
  {
    var d: bytes := [0xF0, 0x9F, 0x98, 0x80];
    assert Scalar(0x1F600) && Encode(0x1F600) == d;
    assert EncodeAll([0x1F600]) == d + EncodeAll([0x1F600][1..]) && Scalars([0x1F600]);
    assert EncodeAll([0x1F600]) == d;
    ValidIsText(d);
    LossyKeepsExactlyValid(d);
  }
}
