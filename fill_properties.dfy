/**
  * What the spans of `fillPolygon` look like: each is drawn in the
  * polygon's colour from left to right, on a scanline from the lowest
  * vertex up to, but excluding, the highest one, and they come bottom to
  * top, left to right, without overlapping.
  */
module FillProperties {
  import opened Geometry
  import opened NumberSort
  import opened ActiveEdges
  import opened ScanConversion

  /** Spans ordered bottom to top, and left to right without overlap within a scanline. */
  predicate InDrawingOrder(spans: seq<Span>) {
    forall i, j :: 0 <= i < j < |spans| ==>
      spans[i].y < spans[j].y || (spans[i].y == spans[j].y && spans[i].x2 <= spans[j].x1)
  }

  /** Pairing draws one span per two entries; an odd last entry draws nothing. */
  lemma {:induction false} PairSpansLength(s: seq<int>, y: int, color: Color)
    ensures |PairSpans(s, y, color)| == |s| / 2
  {
    if |s| >= 2 {
      PairSpansLength(s[2..], y, color);
    }
  }

  /** Every span of an ascending scanline is on that scanline, in the colour, and runs left to right. */
  lemma {:induction false} PairSpansBounds(s: seq<int>, y: int, color: Color)
    requires Sorted(s)
    ensures forall p :: p in PairSpans(s, y, color) ==> p.y == y && p.color == color && p.x1 <= p.x2
  {
    if |s| >= 2 {
      SortedTail(s);
      SortedTail(s[1..]);
      assert s[1..][1..] == s[2..];
      PairSpansBounds(s[2..], y, color);
      assert PairSpans(s, y, color) == [Span(s[0], s[1], y, color)] + PairSpans(s[2..], y, color);
    }
  }

  /**
    * Span `j` of a scanline joins its entries `2j` and `2j + 1`. The length
    * clause is repeated because indexing the spans at `j` needs it.
    */
  lemma {:induction false} PairSpansAt(s: seq<int>, y: int, color: Color, j: int)
    requires 0 <= j < |s| / 2
    ensures |PairSpans(s, y, color)| == |s| / 2
    ensures PairSpans(s, y, color)[j] == Span(s[2 * j], s[2 * j + 1], y, color)
  {
    PairSpansLength(s, y, color);
    if j > 0 {
      PairSpansAt(s[2..], y, color, j - 1);
      assert s[2..][2 * (j - 1)] == s[2 * j];
      assert s[2..][2 * (j - 1) + 1] == s[2 * j + 1];
    }
  }

  /** Every span drawn from entries no smaller than `lo` starts at or right of `lo`. */
  lemma {:induction false} PairSpansAbove(s: seq<int>, lo: int, y: int, color: Color)
    requires forall i :: 0 <= i < |s| ==> lo <= s[i]
    ensures forall p :: p in PairSpans(s, y, color) ==> lo <= p.x1
  {
    if |s| >= 2 {
      assert forall i :: 0 <= i < |s[2..]| ==> s[2..][i] == s[i + 2];
      PairSpansAbove(s[2..], lo, y, color);
    }
  }

  /** The spans of one ascending scanline do not overlap and come left to right. */
  lemma {:induction false} PairSpansInDrawingOrder(s: seq<int>, y: int, color: Color)
    requires Sorted(s)
    ensures InDrawingOrder(PairSpans(s, y, color))
  {
    if |s| >= 2 {
      var rest := PairSpans(s[2..], y, color);
      SortedTail(s);
      SortedTail(s[1..]);
      assert s[1..][1..] == s[2..];
      PairSpansInDrawingOrder(s[2..], y, color);
      PairSpansBounds(s[2..], y, color);
      assert forall i :: 0 <= i < |s[2..]| ==> s[2..][i] == s[i + 2];
      PairSpansAbove(s[2..], s[1], y, color);
      var all := [Span(s[0], s[1], y, color)] + rest;
      assert PairSpans(s, y, color) == all;
      forall i, j | 0 <= i < j < |all|
        ensures all[i].y < all[j].y || (all[i].y == all[j].y && all[i].x2 <= all[j].x1)
      {
        assert all[j] == rest[j - 1] && rest[j - 1] in rest;
        if i > 0 {
          assert all[i] == rest[i - 1];
        }
      }
    }
  }

  /** Two runs in drawing order, the first wholly below scanline `y` and the second on or above it, make one run in drawing order. */
  lemma ConcatInDrawingOrder(a: seq<Span>, b: seq<Span>, y: int)
    requires InDrawingOrder(a) && InDrawingOrder(b)
    requires forall p :: p in a ==> p.y < y
    requires forall q :: q in b ==> y <= q.y
    ensures InDrawingOrder(a + b)
  {
    var all := a + b;
    forall i, j | 0 <= i < j < |all|
      ensures all[i].y < all[j].y || (all[i].y == all[j].y && all[i].x2 <= all[j].x1)
    {
      if j < |a| {
        assert all[i] == a[i] && all[j] == a[j];
      } else if i < |a| {
        assert all[i] == a[i] && all[j] == b[j - |a|];
        assert a[i] in a && b[j - |a|] in b;
      } else {
        assert all[i] == b[i - |a|] && all[j] == b[j - |a|];
      }
    }
  }

  /**
    * The spans of the first `upto` sorted scanlines: each in the colour,
    * left to right, and on one of those scanlines that holds at least two
    * crossings.
    */
  lemma {:induction false} PairedBounds(lines: seq<seq<int>>, minY: int, color: Color, upto: nat)
    requires upto <= |lines|
    requires forall k :: 0 <= k < upto ==> Sorted(lines[k])
    ensures forall p :: p in Paired(lines, minY, color, upto) ==>
      && p.color == color && p.x1 <= p.x2
      && minY <= p.y < minY + upto && |lines[p.y - minY]| >= 2
  {
    if upto > 0 {
      var earlier := Paired(lines, minY, color, upto - 1);
      var line := PairSpans(lines[upto - 1], upto - 1 + minY, color);
      assert Paired(lines, minY, color, upto) == earlier + line;
      PairedBounds(lines, minY, color, upto - 1);
      PairSpansBounds(lines[upto - 1], upto - 1 + minY, color);
    }
  }

  /** The spans of the first `upto` sorted scanlines come bottom to top and left to right. */
  lemma {:induction false} PairedInDrawingOrder(lines: seq<seq<int>>, minY: int, color: Color, upto: nat)
    requires upto <= |lines|
    requires forall k :: 0 <= k < upto ==> Sorted(lines[k])
    ensures InDrawingOrder(Paired(lines, minY, color, upto))
  {
    if upto > 0 {
      var earlier := Paired(lines, minY, color, upto - 1);
      var line := PairSpans(lines[upto - 1], upto - 1 + minY, color);
      assert Paired(lines, minY, color, upto) == earlier + line;
      PairedInDrawingOrder(lines, minY, color, upto - 1);
      PairSpansInDrawingOrder(lines[upto - 1], upto - 1 + minY, color);
      PairedBounds(lines, minY, color, upto - 1);
      PairSpansBounds(lines[upto - 1], upto - 1 + minY, color);
      ConcatInDrawingOrder(earlier, line, upto - 1 + minY);
    }
  }

  /**
    * A sorted table whose top scanline `top` is empty draws, in drawing
    * order, spans in the colour, left to right, strictly below that scanline.
    */
  lemma PairedShape(lines: seq<seq<int>>, minY: int, color: Color, top: nat)
    requires |lines| == top + 1 && lines[top] == []
    requires forall k :: 0 <= k < |lines| ==> Sorted(lines[k])
    ensures forall p :: p in Paired(lines, minY, color, top + 1) ==>
      p.color == color && p.x1 <= p.x2 && minY <= p.y < minY + top
    ensures InDrawingOrder(Paired(lines, minY, color, top + 1))
  {
    PairedBounds(lines, minY, color, top + 1);
    PairedInDrawingOrder(lines, minY, color, top + 1);
  }

  /** Every scanline of the reference table is sorted. */
  lemma SortedHitsSorted(vs: seq<Point>, minY: int, count: nat)
    ensures forall k :: 0 <= k < count ==> Sorted(SortedHits(vs, minY, count)[k])
  {
    forall k | 0 <= k < count ensures Sorted(SortedHits(vs, minY, count)[k]) {
      SortedHitsAt(vs, minY, count, k);
      SortedOfSorts(EdgeHits(vs, |vs|, minY, k));
    }
  }

  /** A scanline that no edge crosses is empty in the reference table. */
  lemma SortedHitsEmptyLine(vs: seq<Point>, minY: int, count: nat, k: int)
    requires 0 <= k < count && EdgeHits(vs, |vs|, minY, k) == []
    ensures SortedHits(vs, minY, count)[k] == []
  {
    SortedHitsAt(vs, minY, count, k);
  }

  /**
    * The reference fill from scanline `minY` up to the highest vertex, at
    * `maxY`: spans in the colour, left to right, below the top scanline, in
    * drawing order.
    */
  lemma FillBetweenShape(vs: seq<Point>, minY: int, color: Color)
    requires |vs| > 0 && minY <= MaxY(vs)
    ensures forall p :: p in FillBetween(vs, minY, MaxY(vs), color) ==>
      p.color == color && p.x1 <= p.x2 && minY <= p.y < MaxY(vs)
    ensures InDrawingOrder(FillBetween(vs, minY, MaxY(vs), color))
  {
    var top := MaxY(vs) - minY;
    var lines := SortedHits(vs, minY, top + 1);
    assert lines[top] == [] by {
      TopScanlineEmpty(vs, |vs|, minY);
      SortedHitsEmptyLine(vs, minY, top + 1, top);
    }
    assert forall k :: 0 <= k < top + 1 ==> Sorted(lines[k]) by {
      SortedHitsSorted(vs, minY, top + 1);
    }
    PairedShape(lines, minY, color, top);
  }

  /**
    * Every span `fillPolygon` draws is in the colour of the polygon's first
    * vertex, runs left to right, and lies on a scanline from the lowest
    * vertex up to but excluding the highest one (the highest scanline holds
    * no intersections); the spans come in drawing order.
    */
  lemma FillSpecShape(vs: seq<Point>, color: Color)
    requires |vs| > 0
    ensures forall p :: p in FillSpec(vs, color) ==>
      p.color == color && p.x1 <= p.x2 && MinY(vs) <= p.y < MaxY(vs)
    ensures InDrawingOrder(FillSpec(vs, color))
  {
    FillBetweenShape(vs, MinY(vs), color);
  }
}
