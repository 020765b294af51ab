/** The density timeline of heatmap.js, over reals: bytes spread over pixel columns, and
    the tiling of segments whose ends overshoot the next start. */
module Density {
  import opened Bytes

  /** A segment of the listing; size and end may be missing. Times are in seconds. */
  datatype Segment = Segment(size: Option<real>, start: real, end: Option<real>)

  const MIN_SEGMENT_SECONDS := 1.0

  function SizeOf(seg: Segment): real {
    if seg.size.Some? then seg.size.value else 0.0
  }

  predicate Positive(seg: Segment) {
    seg.end.Some? && seg.end.value > seg.start
  }

  /** segmentSpan's end: always behind the start. */
  function SpanEnd(seg: Segment): (end: real)
    ensures end > seg.start
  {
    if Positive(seg) then seg.end.value else seg.start + MIN_SEGMENT_SECONDS
  }

  function Rate(seg: Segment): real {
    SizeOf(seg) / (SpanEnd(seg) - seg.start)
  }

  function Min(a: real, b: real): real { if a < b then a else b }
  function Max(a: real, b: real): real { if a > b then a else b }

  /** How much of [s, e] lies within [a, b]. */
  function Overlap(s: real, e: real, a: real, b: real): real {
    Max(0.0, Min(e, b) - Max(s, a))
  }

  /** The bytes that fall within [a, b] when each segment's are spread evenly. */
  function BytesWithin(segs: seq<Segment>, a: real, b: real): real {
    if segs == [] then 0.0
    else Rate(segs[0]) * Overlap(segs[0].start, SpanEnd(segs[0]), a, b) + BytesWithin(segs[1..], a, b)
  }

  function TotalBytes(segs: seq<Segment>): real {
    if segs == [] then 0.0 else SizeOf(segs[0]) + TotalBytes(segs[1..])
  }

  function Sum(xs: seq<real>): real {
    if xs == [] then 0.0 else Sum(xs[..|xs| - 1]) + xs[|xs| - 1]
  }

  function Times(a: real, b: real): real {
    a * b
  }

  /** The left edge of a column of width `w`. */
  function Edge(t0: real, w: real, c: int): real {
    t0 + Times(c as real, w)
  }

  // ----- arithmetic

  lemma TimesRises(a: real, b: real, w: real)
    requires a <= b && w > 0.0
    ensures Times(a, w) <= Times(b, w)
  {
  }

  lemma TimesRisesStrictly(a: real, b: real, w: real)
    requires a < b && w > 0.0
    ensures Times(a, w) < Times(b, w)
  {
  }

  lemma TimesNext(a: real, w: real)
    ensures Times(a + 1.0, w) == Times(a, w) + w
  {
  }

  lemma EdgeNext(t0: real, w: real, c: int)
    ensures Edge(t0, w, c + 1) == Edge(t0, w, c) + w
  {
    hide Times;
    TimesNext(c as real, w);
  }

  lemma {:induction false} EdgesRise(t0: real, w: real, c: int, d: int)
    requires w > 0.0 && c <= d
    ensures Edge(t0, w, c) <= Edge(t0, w, d)
    decreases d - c
  {
    if c < d {
      EdgeNext(t0, w, d - 1);
      EdgesRise(t0, w, c, d - 1);
    }
  }

  lemma LastEdge(t0: real, t1: real, width: int)
    requires width > 0
    ensures Edge(t0, (t1 - t0) / width as real, width) == t1
  {
  }

  /** The column that a floor finds: its left edge is not behind `x`, the next one is. */
  lemma FloorColumn(t0: real, w: real, x: real)
    requires w > 0.0
    ensures var c := ((x - t0) / w).Floor; Edge(t0, w, c) <= x < Edge(t0, w, c + 1)
  {
    var q := (x - t0) / w;
    assert Times(q, w) == x - t0 by { WholeSegment(x - t0, w); }
    Between(t0, w, x, q, q.Floor);
  }

  lemma Between(t0: real, w: real, x: real, q: real, c: int)
    requires w > 0.0 && c as real <= q < c as real + 1.0 && Times(q, w) == x - t0
    ensures Edge(t0, w, c) <= x < Edge(t0, w, c + 1)
  {
    hide Times;
    TimesRises(c as real, q, w);
    TimesRisesStrictly(q, c as real + 1.0, w);
    TimesNext(c as real, w);
    EdgeNext(t0, w, c);
  }

  lemma Distribute(r: real, x: real, y: real)
    ensures r * (x + y) == r * x + r * y
  {
  }

  lemma OverlapAdds(s: real, e: real, a: real, b: real, c: real)
    requires s <= e && a <= b <= c
    ensures Overlap(s, e, a, c) == Overlap(s, e, a, b) + Overlap(s, e, b, c)
  {
  }

  lemma {:induction false} BytesAdd(segs: seq<Segment>, a: real, b: real, c: real)
    requires a <= b <= c
    ensures BytesWithin(segs, a, c) == BytesWithin(segs, a, b) + BytesWithin(segs, b, c)
  {
    hide Rate, Overlap;
    if segs != [] {
      var s, e := segs[0].start, SpanEnd(segs[0]);
      OverlapAdds(s, e, a, b, c);
      Distribute(Rate(segs[0]), Overlap(s, e, a, b), Overlap(s, e, b, c));
      BytesAdd(segs[1..], a, b, c);
    }
  }

  lemma {:induction false} NothingInNothing(segs: seq<Segment>, a: real)
    ensures BytesWithin(segs, a, a) == 0.0
  {
    hide Rate;
    if segs != [] {
      assert Overlap(segs[0].start, SpanEnd(segs[0]), a, a) == 0.0;
      NothingInNothing(segs[1..], a);
    }
  }

  // ----- accumulateDensity

  /** Every column holds the bytes that fall within it. */
  predicate Columns(cols: seq<real>, segs: seq<Segment>, t0: real, w: real) {
    forall c :: 0 <= c < |cols| ==> cols[c] == BytesWithin(segs, Edge(t0, w, c), Edge(t0, w, c) + w)
  }

  /** Conservation: the columns together hold what falls within the window. */
  lemma {:induction false} ColumnsConserve(cols: seq<real>, segs: seq<Segment>, t0: real, w: real)
    requires w > 0.0 && Columns(cols, segs, t0, w)
    ensures Sum(cols) == BytesWithin(segs, t0, Edge(t0, w, |cols|))
    decreases |cols|
  {
    hide BytesWithin, Edge;
    var n := |cols| - 1;
    if cols == [] {
      assert Edge(t0, w, 0) == t0 by { FirstEdge(t0, w); }
      NothingInNothing(segs, t0);
    } else {
      ColumnsConserve(cols[..n], segs, t0, w);
      EdgeNext(t0, w, n);
      FirstEdge(t0, w);
      EdgesRise(t0, w, 0, n);
      BytesAdd(segs, t0, Edge(t0, w, n), Edge(t0, w, n + 1));
    }
  }

  lemma FirstEdge(t0: real, w: real)
    ensures Edge(t0, w, 0) == t0
  {
  }

  /** Bytes of a segment in column c. */
  function Share(seg: Segment, t0: real, w: real, c: int): real {
    Rate(seg) * Overlap(seg.start, SpanEnd(seg), Edge(t0, w, c), Edge(t0, w, c) + w)
  }

  /** A column outside the visited range gets nothing. */
  lemma NoShare(seg: Segment, t0: real, w: real, c: int)
    requires Edge(t0, w, c) + w <= seg.start || SpanEnd(seg) <= Edge(t0, w, c)
    ensures Share(seg, t0, w, c) == 0.0
  {
    hide Rate, Edge;
    assert Overlap(seg.start, SpanEnd(seg), Edge(t0, w, c), Edge(t0, w, c) + w) == 0.0;
  }

  lemma {:induction false} BytesAppend(segs: seq<Segment>, seg: Segment, a: real, b: real)
    ensures BytesWithin(segs + [seg], a, b)
            == BytesWithin(segs, a, b) + Rate(seg) * Overlap(seg.start, SpanEnd(seg), a, b)
  {
    hide Rate, Overlap;
    if segs == [] {
      assert segs + [seg] == [seg] && [seg][1..] == [];
    } else {
      BytesAppend(segs[1..], seg, a, b);
      assert (segs + [seg])[1..] == segs[1..] + [seg];
    }
  }

  /** One segment's turn: every column gains the segment's share of it. */
  method AddSegment(cols: array<real>, seg: Segment, t0: real, t1: real, w: real)
    requires w > 0.0 && cols.Length > 0 && Edge(t0, w, cols.Length) == t1
    modifies cols
    ensures forall c :: 0 <= c < cols.Length ==> cols[c] == old(cols[c]) + Share(seg, t0, w, c)
  {
    hide Edge, Rate, Overlap, Share;
    var cs, ce := Max(seg.start, t0), Min(SpanEnd(seg), t1);
    FirstEdge(t0, w);
    if !(ce > cs) {
      forall c | 0 <= c < cols.Length ensures Share(seg, t0, w, c) == 0.0 {
        ColumnInside(t0, w, c, cols.Length);
        NoShare(seg, t0, w, c);
      }
      return;
    }
    var c0, c1 := ((cs - t0) / w).Floor, ((ce - t0) / w).Floor;
    FloorColumn(t0, w, cs);
    FloorColumn(t0, w, ce);
    if c0 < 0 { c0 := 0; }
    if c1 >= cols.Length { c1 := cols.Length - 1; }
    forall c | 0 <= c < cols.Length && !(c0 <= c <= c1) ensures Share(seg, t0, w, c) == 0.0 {
      OutsideColumns(t0, w, c, c0, c1, cs, ce, cols.Length);
      ColumnInside(t0, w, c, cols.Length);
      NoShare(seg, t0, w, c);
    }
    ghost var before := cols[..];
    var c := c0;
    while c <= c1
      invariant c0 <= c
      invariant forall k :: 0 <= k < cols.Length ==>
                  cols[k] == before[k] + if c0 <= k < c then Share(seg, t0, w, k) else 0.0
    {
      var colStart := Edge(t0, w, c);
      var colEnd := colStart + w;
      var ov := Min(ce, colEnd) - Max(cs, colStart);
      ColumnInside(t0, w, c, cols.Length);
      ShareHere(seg, t0, w, c, t1, ov);
      if ov > 0.0 { cols[c] := cols[c] + Rate(seg) * ov; }
      c := c + 1;
    }
  }

  /** Cutting a span to the window changes no column's share of it. */
  lemma ShareHere(seg: Segment, t0: real, w: real, c: int, t1: real, ov: real)
    requires w > 0.0 && t0 <= Edge(t0, w, c) && Edge(t0, w, c) + w <= t1
    requires ov == Min(Min(SpanEnd(seg), t1), Edge(t0, w, c) + w) - Max(Max(seg.start, t0), Edge(t0, w, c))
    ensures Share(seg, t0, w, c) == if ov > 0.0 then Rate(seg) * ov else 0.0
  {
    hide Edge, Rate;
    assert Overlap(seg.start, SpanEnd(seg), Edge(t0, w, c), Edge(t0, w, c) + w) == Max(0.0, ov);
    NoOverlapNoBytes(Rate(seg), ov);
  }

  lemma NoOverlapNoBytes(rate: real, ov: real)
    ensures !(ov > 0.0) ==> rate * Max(0.0, ov) == 0.0
    ensures ov > 0.0 ==> rate * Max(0.0, ov) == rate * ov
  {
  }

  lemma ColumnInside(t0: real, w: real, c: int, width: int)
    requires w > 0.0 && 0 <= c < width
    ensures t0 <= Edge(t0, w, c) && Edge(t0, w, c) + w <= Edge(t0, w, width)
  {
    hide Edge;
    FirstEdge(t0, w);
    EdgesRise(t0, w, 0, c);
    EdgeNext(t0, w, c);
    EdgesRise(t0, w, c + 1, width);
  }

  lemma OutsideColumns(t0: real, w: real, c: int, c0: int, c1: int, cs: real, ce: real, width: int)
    requires w > 0.0 && 0 <= c < width && !(c0 <= c <= c1)
    requires c0 == 0 || Edge(t0, w, c0) <= cs
    requires c1 == width - 1 || ce < Edge(t0, w, c1 + 1)
    ensures Edge(t0, w, c) + w <= cs || ce <= Edge(t0, w, c)
  {
    hide Edge;
    if c < c0 {
      EdgeNext(t0, w, c);
      EdgesRise(t0, w, c + 1, c0);
    } else {
      EdgesRise(t0, w, c1 + 1, c);
    }
  }

  /** accumulateDensity: each column gets exactly the bytes that fall within it, and all
      columns together get the bytes that fall within the window. */
  method AccumulateDensity(segments: seq<Segment>, t0: real, t1: real, width: int) returns (cols: array<real>)
    ensures fresh(cols) && cols.Length == if width < 0 then 0 else width
    ensures !(t1 > t0) ==> forall c :: 0 <= c < cols.Length ==> cols[c] == 0.0
    ensures t1 > t0 && width > 0 ==> Columns(cols[..], segments, t0, (t1 - t0) / width as real)
    ensures t1 > t0 && width > 0 ==> Sum(cols[..]) == BytesWithin(segments, t0, t1)
  {
    cols := new real[if width < 0 then 0 else width](_ => 0.0);
    if !(t1 > t0) || width <= 0 { return; }
    hide Edge, BytesWithin, Sum;
    var secPerCol := (t1 - t0) / width as real;
    LastEdge(t0, t1, width);
    assert Columns(cols[..], [], t0, secPerCol) by { NoSegments(cols[..], t0, secPerCol); }
    for i := 0 to |segments|
      invariant Columns(cols[..], segments[..i], t0, secPerCol)
    {
      ghost var before := cols[..];
      AddSegment(cols, segments[i], t0, t1, secPerCol);
      OneMore(before, cols[..], segments[..i], segments[i], t0, secPerCol);
      assert segments[..i + 1] == segments[..i] + [segments[i]];
    }
    assert segments[..|segments|] == segments;
    ColumnsConserve(cols[..], segments, t0, secPerCol);
  }

  lemma NoSegments(cols: seq<real>, t0: real, w: real)
    requires forall c :: 0 <= c < |cols| ==> cols[c] == 0.0
    ensures Columns(cols, [], t0, w)
  {
  }

  lemma OneMore(before: seq<real>, cols: seq<real>, segs: seq<Segment>, seg: Segment, t0: real, w: real)
    requires |cols| == |before| && Columns(before, segs, t0, w)
    requires forall c :: 0 <= c < |cols| ==> cols[c] == before[c] + Share(seg, t0, w, c)
    ensures Columns(cols, segs + [seg], t0, w)
  {
    hide Edge, BytesWithin, Rate, Overlap;
    forall c | 0 <= c < |cols| ensures cols[c] == BytesWithin(segs + [seg], Edge(t0, w, c), Edge(t0, w, c) + w) {
      BytesAppend(segs, seg, Edge(t0, w, c), Edge(t0, w, c) + w);
    }
  }

  /** A window that covers every span holds every byte. */
  lemma {:induction false} CoveringWindow(segs: seq<Segment>, t0: real, t1: real)
    requires forall i :: 0 <= i < |segs| ==> t0 <= segs[i].start && SpanEnd(segs[i]) <= t1
    ensures BytesWithin(segs, t0, t1) == TotalBytes(segs)
  {
    hide SpanEnd, SizeOf;
    if segs != [] {
      assert segs[0] == segs[0..][0];
      var s, e := segs[0].start, SpanEnd(segs[0]);
      assert Overlap(s, e, t0, t1) == e - s;
      WholeSegment(SizeOf(segs[0]), e - s);
      CoveringWindow(segs[1..], t0, t1);
    }
  }

  lemma WholeSegment(size: real, span: real)
    requires span > 0.0
    ensures size / span * span == size
  {
  }

  // ----- tileSegments

  /** The stable sort by start. */
  function SortByStart(segs: seq<Segment>): (r: seq<Segment>) {
    if segs == [] then [] else Insert(segs[0], SortByStart(segs[1..]))
  }

  function Insert(seg: Segment, sorted: seq<Segment>): seq<Segment> {
    if sorted == [] || seg.start <= sorted[0].start then [seg] + sorted
    else [sorted[0]] + Insert(seg, sorted[1..])
  }

  predicate Sorted(segs: seq<Segment>) {
    forall i, j :: 0 <= i < j < |segs| ==> segs[i].start <= segs[j].start
  }

  lemma {:induction false} InsertKeeps(seg: Segment, sorted: seq<Segment>)
    ensures multiset(Insert(seg, sorted)) == multiset{seg} + multiset(sorted)
    ensures TotalBytes(Insert(seg, sorted)) == SizeOf(seg) + TotalBytes(sorted)
  {
    hide SizeOf;
    if sorted == [] || seg.start <= sorted[0].start {
      assert ([seg] + sorted)[1..] == sorted;
    } else {
      var rest := Insert(seg, sorted[1..]);
      InsertKeeps(seg, sorted[1..]);
      assert sorted == [sorted[0]] + sorted[1..];
      assert ([sorted[0]] + rest)[1..] == rest;
    }
  }

  lemma InsertedIsFrom(seg: Segment, sorted: seq<Segment>, x: Segment)
    requires x in Insert(seg, sorted)
    ensures x == seg || x in sorted
  {
    hide Insert;
    InsertKeeps(seg, sorted);
    assert x in multiset(Insert(seg, sorted));
  }

  lemma SortedInFront(first: Segment, rest: seq<Segment>)
    requires Sorted(rest) && forall x :: x in rest ==> first.start <= x.start
    ensures Sorted([first] + rest)
  {
  }

  lemma SortedBehind(sorted: seq<Segment>)
    requires Sorted(sorted) && sorted != []
    ensures Sorted(sorted[1..]) && forall x :: x in sorted ==> sorted[0].start <= x.start
  {
  }

  lemma {:induction false} InsertSorts(seg: Segment, sorted: seq<Segment>)
    requires Sorted(sorted)
    ensures Sorted(Insert(seg, sorted))
  {
    hide Sorted;
    if sorted != [] { SortedBehind(sorted); }
    if sorted == [] || seg.start <= sorted[0].start {
      SortedInFront(seg, sorted);
    } else {
      var rest := Insert(seg, sorted[1..]);
      InsertSorts(seg, sorted[1..]);
      forall x | x in rest ensures sorted[0].start <= x.start { InsertedIsFrom(seg, sorted[1..], x); }
      SortedInFront(sorted[0], rest);
    }
  }

  lemma {:induction false} SortSorts(segs: seq<Segment>)
    ensures Sorted(SortByStart(segs)) && multiset(SortByStart(segs)) == multiset(segs)
    ensures TotalBytes(SortByStart(segs)) == TotalBytes(segs)
  {
    hide Insert;
    if segs != [] {
      SortSorts(segs[1..]);
      InsertSorts(segs[0], SortByStart(segs[1..]));
      InsertKeeps(segs[0], SortByStart(segs[1..]));
      assert segs == [segs[0]] + segs[1..];
    }
  }

  /** The segments that start at one time, in order. */
  function StartingAt(segs: seq<Segment>, t: real): seq<Segment> {
    if segs == [] then [] else (if segs[0].start == t then [segs[0]] else []) + StartingAt(segs[1..], t)
  }

  lemma StartingInFront(seg: Segment, segs: seq<Segment>, t: real)
    ensures StartingAt([seg] + segs, t) == (if seg.start == t then [seg] else []) + StartingAt(segs, t)
  {
    assert ([seg] + segs)[1..] == segs;
  }

  lemma {:induction false} InsertIsStable(seg: Segment, sorted: seq<Segment>, t: real)
    ensures StartingAt(Insert(seg, sorted), t) == StartingAt([seg] + sorted, t)
  {
    StartingInFront(seg, sorted, t);
    if sorted != [] && !(seg.start <= sorted[0].start) {
      InsertIsStable(seg, sorted[1..], t);
      StartingInFront(sorted[0], Insert(seg, sorted[1..]), t);
      StartingInFront(seg, sorted[1..], t);
    }
  }

  /** Sorting is stable: segments that start together keep their order. */
  lemma {:induction false} SortIsStable(segs: seq<Segment>, t: real)
    ensures StartingAt(SortByStart(segs), t) == StartingAt(segs, t)
  {
    hide Insert;
    if segs != [] {
      SortIsStable(segs[1..], t);
      InsertIsStable(segs[0], SortByStart(segs[1..]), t);
      StartingInFront(segs[0], SortByStart(segs[1..]), t);
    }
  }

  /** A density copy: its end may be clamped, the true one is kept beside it. */
  datatype Tile = Tile(seg: Segment, realEnd: Option<real>)

  function TileAt(sorted: seq<Segment>, i: nat): Tile
    requires i < |sorted|
  {
    var seg := sorted[i];
    if i + 1 < |sorted| && sorted[i + 1].start > seg.start && seg.end.Some? && sorted[i + 1].start < seg.end.value
    then Tile(seg.(end := Some(sorted[i + 1].start)), seg.end)
    else Tile(seg, seg.end)
  }

  function TileSegments(segs: seq<Segment>): seq<Tile> {
    var sorted := SortByStart(segs);
    seq(|sorted|, i requires 0 <= i < |sorted| => TileAt(sorted, i))
  }

  /** The spans of different tiles share no time. */
  predicate Apart(tiles: seq<Tile>) {
    forall i, j :: 0 <= i < j < |tiles| ==>
      Overlap(tiles[i].seg.start, SpanEnd(tiles[i].seg), tiles[j].seg.start, SpanEnd(tiles[j].seg)) == 0.0
  }

  /** Starts are distinct, and where an end is missing or not behind its start there is
      room for the minimum span before the next start. */
  predicate RoomForAll(sorted: seq<Segment>) {
    forall i :: 0 <= i < |sorted| - 1 ==> HasRoom(sorted[i], sorted[i + 1])
  }

  predicate HasRoom(seg: Segment, next: Segment) {
    seg.start < next.start && (Positive(seg) || seg.start + MIN_SEGMENT_SECONDS <= next.start)
  }

  lemma TileEnds(sorted: seq<Segment>, i: nat)
    requires i + 1 < |sorted| && HasRoom(sorted[i], sorted[i + 1])
    ensures SpanEnd(TileAt(sorted, i).seg) <= sorted[i + 1].start
  {
  }

  lemma BehindNoOverlap(s: real, e: real, s': real, e': real)
    requires e <= s'
    ensures Overlap(s, e, s', e') == 0.0
  {
  }

  lemma TileStarts(sorted: seq<Segment>, i: nat)
    requires i < |sorted|
    ensures TileAt(sorted, i).seg.start == sorted[i].start
  {
  }

  lemma RoomKeepsApart(segs: seq<Segment>)
    requires RoomForAll(SortByStart(segs)) && Sorted(SortByStart(segs))
    ensures Apart(TileSegments(segs))
  {
    hide SortByStart, SpanEnd, Overlap, TileAt, HasRoom;
    var sorted, tiles := SortByStart(segs), TileSegments(segs);
    forall i, j | 0 <= i < j < |tiles|
      ensures Overlap(tiles[i].seg.start, SpanEnd(tiles[i].seg), tiles[j].seg.start, SpanEnd(tiles[j].seg)) == 0.0
    {
      TileEnds(sorted, i);
      TileStarts(sorted, j);
      assert j == i + 1 || sorted[i + 1].start <= sorted[j].start;
      BehindNoOverlap(tiles[i].seg.start, SpanEnd(tiles[i].seg), tiles[j].seg.start, SpanEnd(tiles[j].seg));
    }
  }

  /** Tiles are pairwise disjoint exactly when every segment has room. */
  lemma TilesApartIff(segs: seq<Segment>)
    ensures Apart(TileSegments(segs)) <==> RoomForAll(SortByStart(segs))
  {
    hide SortByStart, SpanEnd, Overlap, TileAt, HasRoom;
    var sorted, tiles := SortByStart(segs), TileSegments(segs);
    SortSorts(segs);
    if RoomForAll(sorted) {
      RoomKeepsApart(segs);
    } else {
      var i :| 0 <= i < |sorted| - 1 && !HasRoom(sorted[i], sorted[i + 1]);
      CrowdedOverlap(sorted, i);
      assert tiles[i] == TileAt(sorted, i) && tiles[i + 1] == TileAt(sorted, i + 1);
    }
  }

  predicate StartsDiffer(segs: seq<Segment>) {
    forall i, j :: 0 <= i < j < |segs| ==> segs[i].start != segs[j].start
  }

  lemma {:induction false} InsertKeepsStarts(seg: Segment, sorted: seq<Segment>)
    requires StartsDiffer(sorted) && forall x :: x in sorted ==> x.start != seg.start
    ensures StartsDiffer(Insert(seg, sorted))
  {
    if sorted != [] && !(seg.start <= sorted[0].start) {
      var rest := Insert(seg, sorted[1..]);
      assert StartsDiffer(sorted[1..]) by {
        assert forall i :: 0 <= i < |sorted[1..]| ==> sorted[1..][i] == sorted[i + 1];
      }
      InsertKeepsStarts(seg, sorted[1..]);
      forall x | x in rest ensures x.start != sorted[0].start {
        InsertedIsFrom(seg, sorted[1..], x);
        assert sorted[0] in sorted;
      }
    }
  }

  lemma {:induction false} SortKeepsStarts(segs: seq<Segment>)
    requires StartsDiffer(segs)
    ensures StartsDiffer(SortByStart(segs))
  {
    hide Insert;
    if segs != [] {
      SortKeepsStarts(segs[1..]);
      SortSorts(segs[1..]);
      forall x | x in SortByStart(segs[1..]) ensures x.start != segs[0].start {
        assert x in multiset(SortByStart(segs[1..]));
        assert x in segs[1..];
      }
      InsertKeepsStarts(segs[0], SortByStart(segs[1..]));
    }
  }

  /** What tiling is for: segments with different starts that end behind them get pairwise
      disjoint spans, however they overshot each other. */
  lemma OvershootsTileApart(segs: seq<Segment>)
    requires StartsDiffer(segs) && forall i :: 0 <= i < |segs| ==> Positive(segs[i])
    ensures Apart(TileSegments(segs))
  {
    hide SortByStart, Positive, Apart, TileSegments;
    var sorted := SortByStart(segs);
    SortSorts(segs);
    SortKeepsStarts(segs);
    forall i | 0 <= i < |sorted| - 1 ensures HasRoom(sorted[i], sorted[i + 1]) {
      assert sorted[i] in multiset(sorted);
      assert sorted[i] in segs;
    }
    TilesApartIff(segs);
  }

  lemma CrowdedOverlap(sorted: seq<Segment>, i: nat)
    requires Sorted(sorted) && i + 1 < |sorted| && !HasRoom(sorted[i], sorted[i + 1])
    ensures var a, b := TileAt(sorted, i).seg, TileAt(sorted, i + 1).seg;
            Overlap(a.start, SpanEnd(a), b.start, SpanEnd(b)) > 0.0
  {
    assert sorted[i].start <= sorted[i + 1].start;
  }

  function Tiled(segs: seq<Segment>): seq<Segment> {
    var tiles := TileSegments(segs);
    seq(|tiles|, i requires 0 <= i < |tiles| => tiles[i].seg)
  }

  lemma {:induction false} SameSizes(a: seq<Segment>, b: seq<Segment>)
    requires |a| == |b| && forall i :: 0 <= i < |a| ==> a[i].size == b[i].size
    ensures TotalBytes(a) == TotalBytes(b)
  {
    if a != [] { SameSizes(a[1..], b[1..]); }
  }

  /** Tiling loses no bytes: a window covering the tiles' spans still sums to the total
      size of the segments, each of which keeps its start, size and true end. */
  lemma TilingConserves(segs: seq<Segment>, t0: real, t1: real)
    requires forall i :: 0 <= i < |Tiled(segs)| ==> t0 <= Tiled(segs)[i].start && SpanEnd(Tiled(segs)[i]) <= t1
    ensures BytesWithin(Tiled(segs), t0, t1) == TotalBytes(segs)
    ensures multiset(SortByStart(segs)) == multiset(segs) && |TileSegments(segs)| == |SortByStart(segs)|
    ensures forall i :: 0 <= i < |TileSegments(segs)| ==>
              TileSegments(segs)[i].seg.(end := TileSegments(segs)[i].realEnd) == SortByStart(segs)[i]
  {
    hide SortByStart, SpanEnd, BytesWithin, TotalBytes;
    CoveringWindow(Tiled(segs), t0, t1);
    SortSorts(segs);
    SameSizes(Tiled(segs), SortByStart(segs));
  }

  /** A segment spans up to its end, or one second where that is missing or not behind the
      start. */
  lemma SpanLength(seg: Segment)
    ensures seg.end.Some? && seg.start < seg.end.value ==> SpanEnd(seg) == seg.end.value
    ensures seg.end.None? || seg.end.value <= seg.start ==> SpanEnd(seg) - seg.start == 1.0
  {
  }

  /** The end of a tile: the next start exactly if that lies strictly within the segment, and
      the segment's own end, present or not, in every other case. */
  lemma TileEnd(segs: seq<Segment>, i: nat)
    requires i < |SortByStart(segs)|
    ensures |TileSegments(segs)| == |SortByStart(segs)|
    ensures var sorted, tile := SortByStart(segs), TileSegments(segs)[i];
            var end := sorted[i].end;
            if end.Some? && i < |sorted| - 1 && sorted[i].start < sorted[i + 1].start < end.value
            then tile.seg.end == Some(sorted[i + 1].start)
            else tile.seg.end == end
  {
    hide SortByStart;
  }

  lemma NarrowerOverlaps(s: real, e: real, e': real, a: real, b: real)
    requires e <= e'
    ensures Overlap(s, e, a, b) <= Overlap(s, e', a, b)
  {
  }

  /** A tile's bytes fall within its segment's own span: it never reaches past the segment's
      end, so wherever the segment is not, its tile is not either; and a tile that has nobody
      to make room for is the segment itself. */
  lemma TileStaysWithin(segs: seq<Segment>, i: nat, a: real, b: real)
    requires i < |SortByStart(segs)|
    ensures |TileSegments(segs)| == |SortByStart(segs)|
    ensures var seg, tile := SortByStart(segs)[i], TileSegments(segs)[i].seg;
            tile.start == seg.start && tile.size == seg.size && SpanEnd(tile) <= SpanEnd(seg)
            && 0.0 <= Overlap(tile.start, SpanEnd(tile), a, b) <= Overlap(seg.start, SpanEnd(seg), a, b)
            && (Overlap(seg.start, SpanEnd(seg), a, b) == 0.0 ==> BytesWithin([tile], a, b) == 0.0)
    ensures (forall j :: 0 <= j < |segs| ==> segs[j].start <= SortByStart(segs)[i].start
                                             || SpanEnd(SortByStart(segs)[i]) <= segs[j].start)
            ==> TileSegments(segs)[i].seg == SortByStart(segs)[i]
  {
    hide SortByStart, BytesWithin, Rate, Overlap;
    var sorted, tile := SortByStart(segs), TileSegments(segs)[i].seg;
    TileEnd(segs, i);
    NarrowerOverlaps(tile.start, SpanEnd(tile), SpanEnd(sorted[i]), a, b);
    NothingWithin(tile, a, b);
    SortSorts(segs);
    if i + 1 < |sorted| {
      assert sorted[i + 1] in multiset(sorted);
      assert sorted[i + 1] in segs;
    }
  }

  lemma NothingWithin(seg: Segment, a: real, b: real)
    ensures 0.0 <= Overlap(seg.start, SpanEnd(seg), a, b)
    ensures Overlap(seg.start, SpanEnd(seg), a, b) == 0.0 ==> BytesWithin([seg], a, b) == 0.0
  {
    hide Rate, SpanEnd, Overlap;
    assert [seg][1..] == [] && BytesWithin([], a, b) == 0.0;
    OverlapIsNat(seg.start, SpanEnd(seg), a, b);
  }

  lemma OverlapIsNat(s: real, e: real, a: real, b: real)
    ensures Overlap(s, e, a, b) >= 0.0
  {
  }
}
