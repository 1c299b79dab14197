/**
  * `fillPolygon` of scanConversion.js: the scanline fill of one polygon,
  * producing the spans it hands to `drawLine`, one `Span` per call.
  */
module ScanConversion {
  import opened Geometry
  import opened NumberSort
  import opened EdgeTable
  import opened ActiveEdges

  /** What `fillPolygon` needs of its polygon: a first vertex, and every index naming a vertex. */
  predicate ValidPolygon(vertexCount: int, colorCount: int, polygon: seq<int>) {
    && |polygon| > 0
    && (forall i :: 0 <= i < |polygon| ==> 0 <= polygon[i] < vertexCount)
    && polygon[0] < colorCount
  }

  /** The polygon's vertex positions, in polygon order. */
  function Resolve(vertexPos: seq<Point>, polygon: seq<int>): (vs: seq<Point>)
    requires forall i :: 0 <= i < |polygon| ==> 0 <= polygon[i] < |vertexPos|
  {
    seq(|polygon|, i requires 0 <= i < |polygon| => vertexPos[polygon[i]])
  }

  /** The spans drawn for one sorted scanline: entries `0-1`, `2-3`, ... paired up. */
  function PairSpans(s: seq<int>, y: int, color: Color): seq<Span> {
    if |s| < 2 then [] else [Span(s[0], s[1], y, color)] + PairSpans(s[2..], y, color)
  }

  /** The spans of scanlines `0 .. upto - 1` of a table whose scanlines are already sorted, each paired up. */
  function Paired(lines: seq<seq<int>>, minY: int, color: Color, upto: nat): seq<Span>
    requires upto <= |lines|
  {
    if upto == 0 then []
    else Paired(lines, minY, color, upto - 1) + PairSpans(lines[upto - 1], upto - 1 + minY, color)
  }

  /** Pairing the first `upto` scanlines reads only those scanlines. */
  lemma {:induction false} PairedPrefix(a: seq<seq<int>>, b: seq<seq<int>>, minY: int, color: Color, upto: nat)
    requires upto <= |a| && upto <= |b|
    requires forall k :: 0 <= k < upto ==> a[k] == b[k]
    ensures Paired(a, minY, color, upto) == Paired(b, minY, color, upto)
  {
    if upto > 0 {
      PairedPrefix(a, b, minY, color, upto - 1);
    }
  }

  /** Each scanline's crossings of the vertex loop, in ascending order. */
  function SortedHits(vs: seq<Point>, minY: int, count: nat): (h: seq<seq<int>>)
    ensures |h| == count
  {
    if count == 0 then []
    else SortedHits(vs, minY, count - 1) + [SortedOf(EdgeHits(vs, |vs|, minY, count - 1))]
  }

  /** Scanline `minY + k` of the reference table holds that scanline's crossings, sorted. */
  lemma {:induction false} SortedHitsAt(vs: seq<Point>, minY: int, count: nat, k: int)
    requires 0 <= k < count
    ensures SortedHits(vs, minY, count)[k] == SortedOf(EdgeHits(vs, |vs|, minY, k))
  {
    var prefix := SortedHits(vs, minY, count - 1);
    assert SortedHits(vs, minY, count) == prefix + [SortedOf(EdgeHits(vs, |vs|, minY, count - 1))];
    if k < count - 1 {
      SortedHitsAt(vs, minY, count - 1, k);
    } else {
      assert k == count - 1;
    }
  }

  /**
    * What `fillPolygon` draws for the vertex loop `vs` between scanlines
    * `minY` and `maxY`: on each scanline, the rounded crossings of all
    * edges, sorted and paired into spans.
    */
  function FillBetween(vs: seq<Point>, minY: int, maxY: int, color: Color): seq<Span>
    requires minY <= maxY
  {
    Paired(SortedHits(vs, minY, maxY - minY + 1), minY, color, maxY - minY + 1)
  }

  /** Reference definition of the fill: from the lowest vertex's scanline to the highest's. */
  function FillSpec(vs: seq<Point>, color: Color): seq<Span>
    requires |vs| > 0
  {
    FillBetween(vs, MinY(vs), MaxY(vs), color)
  }

  /**
    * Lines 53-65: the y extent of the vertices. The `continue` after a new
    * minimum skips the maximum test, which is sound because `minY <= maxY`
    * holds throughout.
    */
  method Extent(vertex: seq<Point>) returns (minY: int, maxY: int)
    requires |vertex| > 0
    ensures minY == MinY(vertex) && maxY == MaxY(vertex)
  {
    minY := vertex[0].y;
    maxY := minY;
    assert vertex[..1] == [vertex[0]];
    for i := 1 to |vertex|
      invariant minY == MinY(vertex[..i]) && maxY == MaxY(vertex[..i])
      invariant minY <= maxY
    {
      assert vertex[..i + 1][..i] == vertex[..i];
      if vertex[i].y < minY {
        minY := vertex[i].y;
        continue;
      }
      if vertex[i].y > maxY {
        maxY := vertex[i].y;
      }
    }
    assert vertex[..|vertex|] == vertex;
  }

  /** Lines 68-74: both tables get one empty bucket per scanline. */
  method NewTables(scanLineCount: nat) returns (activeEdgeTable: array<seq<int>>, newEdgeTable: array<seq<Edge>>)
    ensures fresh(activeEdgeTable) && fresh(newEdgeTable)
    ensures activeEdgeTable.Length == scanLineCount && newEdgeTable.Length == scanLineCount
    ensures forall i :: 0 <= i < scanLineCount ==> activeEdgeTable[i] == [] && newEdgeTable[i] == []
  {
    activeEdgeTable := new seq<int>[scanLineCount];
    newEdgeTable := new seq<Edge>[scanLineCount];
    for i := 0 to scanLineCount
      invariant forall t :: 0 <= t < i ==> activeEdgeTable[t] == [] && newEdgeTable[t] == []
    {
      newEdgeTable[i] := [];
      activeEdgeTable[i] := [];
    }
  }

  /** Drawing one more pair after an even prefix draws one more span. */
  lemma {:induction false} PairSpansSnoc(s: seq<int>, a: int, b: int, y: int, color: Color)
    requires |s| % 2 == 0
    ensures PairSpans(s + [a, b], y, color) == PairSpans(s, y, color) + [Span(a, b, y, color)]
  {
    if s != [] {
      assert (s + [a, b])[2..] == s[2..] + [a, b];
      PairSpansSnoc(s[2..], a, b, y, color);
    }
  }

  /**
    * Line 130 for one sorted scanline: draw its entries pairwise. The read
    * of entry `j + 1` stays inside the scanline because it holds an even
    * number of intersections.
    */
  method PairUp(sorted: seq<int>, y: int, color: Color) returns (line: seq<Span>)
    requires |sorted| % 2 == 0
    ensures line == PairSpans(sorted, y, color)
  {
    line := [];
    var j := 0;
    while j < |sorted|
      invariant 0 <= j <= |sorted| && j % 2 == 0
      invariant line == PairSpans(sorted[..j], y, color)
    {
      PairSpansSnoc(sorted[..j], sorted[j], sorted[j + 1], y, color);
      assert sorted[..j + 2] == sorted[..j] + [sorted[j], sorted[j + 1]];
      line := line + [Span(sorted[j], sorted[j + 1], y, color)];
      j := j + 2;
    }
    assert sorted[..j] == sorted;
  }

  /** Lines 127-130 for scanline `i`: sort its intersections in place, then draw them pairwise. */
  method FillScanline(activeEdgeTable: array<seq<int>>, i: int, minY: int, color: Color) returns (line: seq<Span>)
    requires 0 <= i < activeEdgeTable.Length && |activeEdgeTable[i]| % 2 == 0
    modifies activeEdgeTable
    ensures activeEdgeTable[i] == SortedOf(old(activeEdgeTable[i]))
    ensures forall k :: 0 <= k < activeEdgeTable.Length && k != i ==> activeEdgeTable[k] == old(activeEdgeTable[k])
    ensures line == PairSpans(activeEdgeTable[i], i + minY, color)
  {
    var sorted := SortNumbers(activeEdgeTable[i]);
    SortedIsSortedOf(sorted, activeEdgeTable[i]);
    activeEdgeTable[i] := sorted;
    line := PairUp(activeEdgeTable[i], i + minY, color);
  }

  /** Lines 126-131: every scanline, bottom to top, is sorted in place and drawn. */
  method EmitSpans(activeEdgeTable: array<seq<int>>, minY: int, color: Color) returns (spans: seq<Span>)
    requires forall k :: 0 <= k < activeEdgeTable.Length ==> |activeEdgeTable[k]| % 2 == 0
    modifies activeEdgeTable
    ensures forall k :: 0 <= k < activeEdgeTable.Length ==> activeEdgeTable[k] == SortedOf(old(activeEdgeTable[k]))
    ensures spans == Paired(activeEdgeTable[..], minY, color, activeEdgeTable.Length)
  {
    ghost var before := activeEdgeTable[..];
    spans := [];
    for i := 0 to activeEdgeTable.Length
      invariant spans == Paired(activeEdgeTable[..], minY, color, i)
      invariant forall k :: 0 <= k < activeEdgeTable.Length ==>
        activeEdgeTable[k] == if k < i then SortedOf(before[k]) else before[k]
    {
      ghost var current := activeEdgeTable[..];
      var line := FillScanline(activeEdgeTable, i, minY, color);
      PairedPrefix(current, activeEdgeTable[..], minY, color, i);
      assert spans + line == Paired(activeEdgeTable[..], minY, color, i + 1);
      spans := spans + line;
    }
  }

  /** Lines 44-50: the polygon's vertex positions, copied in polygon order. */
  method ResolveVertices(vertexPos: seq<Point>, polygon: seq<int>) returns (vertex: seq<Point>)
    requires forall i :: 0 <= i < |polygon| ==> 0 <= polygon[i] < |vertexPos|
    ensures |vertex| == |polygon|
    ensures forall i :: 0 <= i < |polygon| ==> vertex[i] == vertexPos[polygon[i]]
  {
    vertex := [];
    for i := 0 to |polygon|
      invariant |vertex| == i
      invariant forall t :: 0 <= t < i ==> vertex[t] == vertexPos[polygon[t]]
    {
      vertex := vertex + [vertexPos[polygon[i]]];
    }
  }

  /**
    * Lines 67-123: build both tables for the vertex loop over the scanlines
    * `minY .. minY + count - 1` and sweep every edge. Bucket `k` of the
    * returned active edge table then holds exactly the crossings of
    * scanline `minY + k`, in some order, and so an even number of them.
    */
  method SweepPolygon(vertex: seq<Point>, minY: int, count: nat) returns (activeEdgeTable: array<seq<int>>)
    requires |vertex| > 0 && InBand(vertex, minY, count)
    ensures fresh(activeEdgeTable) && activeEdgeTable.Length == count
    ensures forall k :: 0 <= k < count ==> multiset(activeEdgeTable[k]) == multiset(EdgeHits(vertex, |vertex|, minY, k))
    ensures forall k :: 0 <= k < count ==> |activeEdgeTable[k]| % 2 == 0
  {
    var newEdgeTable;
    activeEdgeTable, newEdgeTable := NewTables(count);
    BuildNewEdgeTable(vertex, minY, newEdgeTable);
    NetTableEntriesBounded(vertex, |vertex|, minY, count);
    BuildActiveEdgeTable(newEdgeTable, minY, activeEdgeTable);
    SweptMatchesHits(vertex, minY, count, activeEdgeTable[..]);
  }

  /**
    * The swept buckets hold, scanline by scanline, the crossings of the
    * reference definition, in some order; so each holds an even number.
    */
  lemma SweptMatchesHits(vs: seq<Point>, minY: int, count: nat, swept: seq<seq<int>>)
    requires |vs| > 0 && InBand(vs, minY, count) && |swept| == count
    requires forall k :: 0 <= k < count ==> swept[k] == AetBucket(NetTable(vs, |vs|, minY, count), count, k, minY)
    ensures forall k :: 0 <= k < count ==> multiset(swept[k]) == multiset(EdgeHits(vs, |vs|, minY, k))
    ensures forall k :: 0 <= k < count ==> |swept[k]| % 2 == 0
  {
    forall k | 0 <= k < count
      ensures multiset(swept[k]) == multiset(EdgeHits(vs, |vs|, minY, k))
      ensures |swept[k]| % 2 == 0
    {
      SweptBucketMatchesHits(vs, minY, count, k, swept[k]);
    }
  }

  /** One swept bucket holds its scanline's crossings, in some order, and so an even number of them. */
  lemma SweptBucketMatchesHits(vs: seq<Point>, minY: int, count: nat, k: int, bucket: seq<int>)
    requires |vs| > 0 && InBand(vs, minY, count)
    requires bucket == AetBucket(NetTable(vs, |vs|, minY, count), count, k, minY)
    ensures multiset(bucket) == multiset(EdgeHits(vs, |vs|, minY, k))
    ensures |bucket| % 2 == 0
  {
    AetMatchesEdgeHits(vs, |vs|, minY, count, k);
    ScanlineHitsEven(vs, minY, k);
    PermutationKeepsEven(bucket, EdgeHits(vs, |vs|, minY, k), UpCount(vs, |vs|, minY + k));
  }

  /** A rearrangement of a list of even length has even length. */
  lemma PermutationKeepsEven(a: seq<int>, b: seq<int>, half: nat)
    requires multiset(a) == multiset(b) && |b| == 2 * half
    ensures |a| % 2 == 0
  {
    assert |a| == |multiset(a)| == |multiset(b)| == |b|;
  }

  /** Sorting each swept bucket gives the reference table of sorted crossings. */
  lemma SortingSweptGivesSortedHits(vs: seq<Point>, minY: int, count: nat, swept: seq<seq<int>>, sorted: seq<seq<int>>)
    requires |swept| == count && |sorted| == count
    requires forall k :: 0 <= k < count ==> multiset(swept[k]) == multiset(EdgeHits(vs, |vs|, minY, k))
    requires forall k :: 0 <= k < count ==> sorted[k] == SortedOf(swept[k])
    ensures sorted == SortedHits(vs, minY, count)
  {
    forall k | 0 <= k < count
      ensures sorted[k] == SortedHits(vs, minY, count)[k]
    {
      SortedOfPermutation(swept[k], EdgeHits(vs, |vs|, minY, k));
      SortedHitsAt(vs, minY, count, k);
    }
  }

  /**
    * Sweeping the polygon over its whole height, sorting every bucket and
    * pairing up the sorted buckets gives the reference fill.
    */
  lemma SweptSortedPairedIsFillSpec(vs: seq<Point>, color: Color, swept: seq<seq<int>>, sorted: seq<seq<int>>)
    requires |vs| > 0
    requires |swept| == MaxY(vs) - MinY(vs) + 1 && |sorted| == |swept|
    requires forall k :: 0 <= k < |swept| ==> multiset(swept[k]) == multiset(EdgeHits(vs, |vs|, MinY(vs), k))
    requires forall k :: 0 <= k < |sorted| ==> sorted[k] == SortedOf(swept[k])
    ensures Paired(sorted, MinY(vs), color, |sorted|) == FillSpec(vs, color)
  {
    var lo, hi := MinY(vs), MaxY(vs);
    assert lo <= vs[0].y <= hi;
    var n := hi - lo + 1;
    assert |sorted| == n;
    SortingSweptGivesSortedHits(vs, lo, n, swept, sorted);
    assert FillSpec(vs, color) == Paired(SortedHits(vs, lo, n), lo, color, n);
  }

  /**
    * Lines 43-133: fill one polygon. The tables are local and the vertex
    * positions are only read, so the spans are a function of the polygon's
    * vertices and colour alone: two calls on the same input draw the same.
    */
  method FillPolygon(vertexPos: seq<Point>, vertexColor: seq<Color>, polygon: seq<int>) returns (spans: seq<Span>)
    requires ValidPolygon(|vertexPos|, |vertexColor|, polygon)
    ensures spans == FillSpec(Resolve(vertexPos, polygon), vertexColor[polygon[0]])
  {
    var vertex := ResolveVertices(vertexPos, polygon);
    assert vertex == Resolve(vertexPos, polygon);
    var color := vertexColor[polygon[0]];
    var minY, maxY := Extent(vertex);
    var scanLineCount := maxY - minY + 1;
    var activeEdgeTable := SweepPolygon(vertex, minY, scanLineCount);
    ghost var swept := activeEdgeTable[..];
    spans := EmitSpans(activeEdgeTable, minY, color);
    SweptSortedPairedIsFillSpec(vertex, color, swept, activeEdgeTable[..]);
  }
}
