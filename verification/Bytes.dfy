/** Bytes, little-endian integers and the shape every decoder shares: a parser
    takes the remaining input and gives back a value and what is left of it. */
module Bytes {

  type byte = b: int | 0 <= b < 0x100
  type bytes = seq<byte>
  type u16 = n: int | 0 <= n < 0x1_0000
  type u32 = n: int | 0 <= n < 0x1_0000_0000
  type u64 = n: int | 0 <= n < 0x1_0000_0000_0000_0000

  const TWO_TO_THE_32 := 0x1_0000_0000
  const TWO_TO_THE_64 := 0x1_0000_0000_0000_0000

  datatype Option<+T> = None | Some(value: T) {
    predicate IsFailure() { None? }
    function PropagateFailure<U>(): Option<U> requires None? { None }
    function Extract(): T requires Some? { value }
  }

  /** The outcome of a parser: `rest` is the unread remainder of its input. */
  datatype Parsed<+T> = Fail | Ok(value: T, rest: bytes) {
    predicate IsFailure() { Fail? }
    function PropagateFailure<U>(): Parsed<U> requires Fail? { Fail }
    function Extract(): (T, bytes) requires Ok? { (value, rest) }
  }

  /** How a reader can end: with nothing, by blowing up (a Rust panic, or a JavaScript
      exception that is not a read past the end), or with a value. */
  datatype Attempt<+T> = Short | Loud | Given(value: T) {
    predicate IsFailure() { !Given? }
    function PropagateFailure<U>(): Attempt<U> requires !Given? { if Short? then Short else Loud }
    function Extract(): T requires Given? { value }
  }

  /** A failed read as such a reader passes it on. */
  function Try<T>(o: Option<T>): Attempt<T> {
    match o
    case None => Short
    case Some(v) => Given(v)
  }

  lemma Assoc<T>(a: seq<T>, b: seq<T>, c: seq<T>)
    ensures a + b + c == a + (b + c)
  {
  }

  // ----- little-endian integers

  function Pow256(k: nat): (p: nat)
    ensures p > 0
  {
    if k == 0 then 1 else 256 * Pow256(k - 1)
  }

  /** The low `k` bytes of `n`, least significant first; higher bits are cut off
      as an `as` cast to a narrower integer does. */
  function Le(k: nat, n: nat): (r: bytes)
    ensures |r| == k
  {
    if k == 0 then [] else [n % 256] + Le(k - 1, n / 256)
  }

  function LeVal(d: bytes): (n: nat)
    ensures n < Pow256(|d|)
  {
    if d == [] then 0 else d[0] + 256 * LeVal(d[1..])
  }

  lemma {:induction false} LeValOfLe(k: nat, n: nat)
    requires n < Pow256(k)
    ensures LeVal(Le(k, n)) == n
  {
    if k > 0 {
      LeValOfLe(k - 1, n / 256);
      assert Le(k, n)[1..] == Le(k - 1, n / 256);
    }
  }

  lemma LeStep(k: nat, b: byte, n: nat)
    ensures Le(k + 1, b + 256 * n) == [b] + Le(k, n)
  {
    assert (b + 256 * n) % 256 == b && (b + 256 * n) / 256 == n;
  }

  lemma {:induction false} LeOfLeVal(d: bytes)
    ensures Le(|d|, LeVal(d)) == d
  {
    hide Le;
    if d == [] {
      assert Le(0, 0) == [];
    } else {
      LeOfLeVal(d[1..]);
      LeStep(|d| - 1, d[0], LeVal(d[1..]));
      assert d == [d[0]] + d[1..];
    }
  }

  lemma PowersOf256()
    ensures Pow256(1) == 0x100 && Pow256(2) == 0x1_0000 && Pow256(3) == 0x100_0000
    ensures Pow256(4) == TWO_TO_THE_32 && Pow256(8) == TWO_TO_THE_64
  {
    assert Pow256(5) == 256 * Pow256(4);
    assert Pow256(7) == 256 * (256 * Pow256(5));
  }

  // ----- reading only a prefix

  /** `rest` is what is left of `d` after some prefix was read. */
  predicate Tail(rest: bytes, d: bytes) {
    |rest| <= |d| && d[|d| - |rest|..] == rest
  }

  /** The prefix of `d` that was read when `rest` is left. */
  function Used(d: bytes, rest: bytes): (c: bytes)
    requires |rest| <= |d|
  {
    d[..|d| - |rest|]
  }

  /** A parser is local when it depends on the bytes it consumes and on nothing
      after them: those bytes followed by anything else parse to the same value. */
  ghost predicate LocalAt<T>(p: bytes -> Parsed<T>, d: bytes, s: bytes) {
    p(d).Ok? ==> Tail(p(d).rest, d) && p(Used(d, p(d).rest) + s) == Ok(p(d).value, s)
  }

  ghost predicate Local<T>(p: bytes -> Parsed<T>) {
    forall d, s :: LocalAt(p, d, s)
  }

  lemma Chain(d: bytes, r1: bytes, r2: bytes, s: bytes)
    requires Tail(r1, d) && Tail(r2, r1)
    ensures Tail(r2, d) && Used(d, r2) + s == Used(d, r1) + (Used(r1, r2) + s)
  {
    assert d == Used(d, r1) + r1;
    assert r1 == Used(r1, r2) + r2;
    assert Used(d, r2) == Used(d, r1) + Used(r1, r2);
  }

  // ----- primitive parsers

  function Take(n: nat, d: bytes): Parsed<bytes> {
    if |d| < n then Fail else Ok(d[..n], d[n..])
  }

  lemma TakeLocal(n: nat, d: bytes, s: bytes)
    ensures Take(n, d).Ok? ==> Tail(Take(n, d).rest, d) && Take(n, Used(d, Take(n, d).rest) + s) == Ok(d[..n], s)
  {
    if |d| >= n {
      assert Used(d, d[n..]) == d[..n];
      assert (d[..n] + s)[..n] == d[..n] && (d[..n] + s)[n..] == s;
    }
  }

  lemma TakeOf(x: bytes, s: bytes)
    ensures Take(|x|, x + s) == Ok(x, s)
  {
    assert (x + s)[..|x|] == x && (x + s)[|x|..] == s;
  }

  function ParseLe(k: nat, d: bytes): (r: Parsed<nat>)
    ensures r.Ok? ==> r.value < Pow256(k) && |r.rest| == |d| - k
  {
    var (x, rest) :- Take(k, d);
    Ok(LeVal(x), rest)
  }

  lemma ParseLeLocal(k: nat, d: bytes, s: bytes)
    ensures var r := ParseLe(k, d); r.Ok? ==> Tail(r.rest, d) && ParseLe(k, Used(d, r.rest) + s) == Ok(r.value, s)
  {
    TakeLocal(k, d, s);
  }

  lemma ParseLeOf(k: nat, n: nat, s: bytes)
    requires n < Pow256(k)
    ensures ParseLe(k, Le(k, n) + s) == Ok(n, s)
  {
    TakeOf(Le(k, n), s);
    LeValOfLe(k, n);
  }

  // ----- repetition

  /** Exactly `n` values of parser `p`, one after the other. */
  function Rep<T>(p: bytes -> Parsed<T>, n: nat, d: bytes): Parsed<seq<T>> {
    if n == 0 then Ok([], d) else
      var (x, r) :- p(d);
      var (xs, r') :- Rep(p, n - 1, r);
      Ok([x] + xs, r')
  }

  lemma {:induction false} RepLocal<T>(p: bytes -> Parsed<T>, n: nat, d: bytes, s: bytes)
    requires Local(p)
    ensures var r := Rep(p, n, d);
            r.Ok? ==> Tail(r.rest, d) && |r.value| == n && Rep(p, n, Used(d, r.rest) + s) == Ok(r.value, s)
  {
    if n > 0 && Rep(p, n, d).Ok? {
      var r1 := p(d).rest;
      var r2 := Rep(p, n - 1, r1).rest;
      RepLocal(p, n - 1, r1, s);
      assert LocalAt(p, d, Used(r1, r2) + s);
      Chain(d, r1, r2, s);
    } else if n == 0 {
      assert Used(d, d) + s == s;
    }
  }

  function Concat<T>(e: T -> bytes, xs: seq<T>): bytes {
    if xs == [] then [] else e(xs[0]) + Concat(e, xs[1..])
  }

  /** `p` reads back what `e` wrote for `x`, whatever follows. */
  ghost predicate InvertsAt<T>(p: bytes -> Parsed<T>, e: T -> bytes, x: T, s: bytes) {
    p(e(x) + s) == Ok(x, s)
  }

  lemma {:induction false} RepOfConcat<T>(p: bytes -> Parsed<T>, e: T -> bytes, xs: seq<T>, s: bytes)
    requires forall x, t :: x in xs ==> InvertsAt(p, e, x, t)
    ensures Rep(p, |xs|, Concat(e, xs) + s) == Ok(xs, s)
  {
    if xs == [] {
      assert Concat(e, xs) + s == s;
    } else {
      RepOfConcat(p, e, xs[1..], s);
      var t := Concat(e, xs[1..]) + s;
      assert Concat(e, xs) + s == e(xs[0]) + t;
      assert InvertsAt(p, e, xs[0], t);
      assert xs == [xs[0]] + xs[1..];
    }
  }

  /** Where a loop stands that has already read `done` and has `r` to come. */
  function After<T>(done: seq<T>, r: Parsed<seq<T>>): Parsed<seq<T>> {
    if r.Fail? then Fail else Ok(done + r.value, r.rest)
  }

  /** One turn of such a loop. */
  lemma AfterStep<T>(p: bytes -> Parsed<T>, n: nat, d: bytes, done: seq<T>)
    requires n > 0
    ensures p(d).Fail? ==> After(done, Rep(p, n, d)).Fail?
    ensures p(d).Ok? ==> After(done, Rep(p, n, d)) == After(done + [p(d).value], Rep(p, n - 1, p(d).rest))
  {
    if p(d).Ok? && Rep(p, n - 1, p(d).rest).Ok? {
      var tail := Rep(p, n - 1, p(d).rest).value;
      assert done + ([p(d).value] + tail) == done + [p(d).value] + tail;
    }
  }

  /** Wherever `p` succeeds, `q` gives the same. */
  ghost predicate AgreeAt<T>(p: bytes -> Parsed<T>, q: bytes -> Parsed<T>, d: bytes) {
    p(d).Ok? ==> q(d) == p(d)
  }

  lemma {:induction false} RepAgree<T>(p: bytes -> Parsed<T>, q: bytes -> Parsed<T>, n: nat, d: bytes)
    requires forall x :: AgreeAt(p, q, x)
    ensures Rep(p, n, d).Ok? ==> Rep(q, n, d) == Rep(p, n, d)
  {
    if n > 0 && p(d).Ok? {
      assert AgreeAt(p, q, d);
      RepAgree(p, q, n - 1, p(d).rest);
    }
  }
}
