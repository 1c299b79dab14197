/**
  * The active-edge table of `fillPolygon`: for every scanline, the rounded x
  * of each edge that crosses it. It is filled by sweeping every new-edge-table
  * entry upward from its start scanline.
  *
  * The running x of line 120 is accumulated exactly here (a `real`), where the
  * source repeats a floating-point `+=`.
  */
module ActiveEdges {
  import opened Geometry
  import opened EdgeTable

  /**
    * What an entry that starts in bucket `b` pushes into bucket `k`: its
    * rounded x on that scanline when `b <= k < e.maxY - minY`, nothing
    * otherwise. Bucket `e.maxY - minY` is never written.
    */
  function Contribution(e: Edge, b: int, k: int, minY: int): seq<int> {
    if b <= k < e.maxY - minY then [Round(SweptX(e, k - b))] else []
  }

  /** The running x of an entry after `n` steps of `x += dx` from its start. */
  function SweptX(e: Edge, n: int): real
    decreases n
  {
    if n <= 0 then e.x as real else SweptX(e, n - 1) + e.dx
  }

  /** After `n` steps the running x has moved by `n` times the inverse slope. */
  lemma {:induction false} SweptXLinear(e: Edge, n: nat)
    ensures SweptX(e, n) == e.x as real + n as real * e.dx
  {
    if n > 0 {
      SweptXLinear(e, n - 1);
      var r := (n - 1) as real;
      assert n as real == r + 1.0;
      assert (r + 1.0) * e.dx == r * e.dx + e.dx;
    }
  }

  /** What the entries `es` of bucket `b` push into bucket `k`, in push order. */
  function BucketHits(es: seq<Edge>, j: nat, b: int, k: int, minY: int): seq<int>
    requires j <= |es|
  {
    if j == 0 then [] else BucketHits(es, j - 1, b, k, minY) + Contribution(es[j - 1], b, k, minY)
  }

  /** Bucket `k` of the active-edge table once buckets `0 .. upto - 1` of `net` have been swept. */
  function AetBucket(net: seq<seq<Edge>>, upto: nat, k: int, minY: int): seq<int>
    requires upto <= |net|
  {
    if upto == 0 then []
    else AetBucket(net, upto - 1, k, minY) + BucketHits(net[upto - 1], |net[upto - 1]|, upto - 1, k, minY)
  }

  /**
    * Reference definition, edge by edge: what edge `t` of the vertex loop
    * contributes to scanline `minY + k`.
    */
  function EdgeContribution(vs: seq<Point>, t: int, minY: int, k: int): seq<int>
    requires 0 <= t < |vs|
  {
    var p1, p2 := EdgeStart(vs, t), EdgeEnd(vs, t);
    match EntryOf(p1, p2)
    case None => []
    case Some(e) => Contribution(e, Lower(p1, p2).y - minY, k, minY)
  }

  /** The intersections of the first `m` edges with scanline `minY + k`, in edge order. */
  function EdgeHits(vs: seq<Point>, m: nat, minY: int, k: int): seq<int>
    requires m <= |vs|
  {
    if m == 0 then [] else EdgeHits(vs, m - 1, minY, k) + EdgeContribution(vs, m - 1, minY, k)
  }

  /**
    * The half-open rule: an edge meets scanline `y` exactly when its lower
    * endpoint is at or below `y` and its upper endpoint is strictly above; it
    * then contributes the rounded x of its line at `y`.
    */
  lemma EdgeContributionRule(vs: seq<Point>, t: int, minY: int, k: int)
    requires 0 <= t < |vs|
    ensures var p1, p2 := EdgeStart(vs, t), EdgeEnd(vs, t);
      var lo, hi := Lower(p1, p2), Upper(p1, p2);
      var y := minY + k;
      && (|EdgeContribution(vs, t, minY, k)| == if lo.y <= y < hi.y then 1 else 0)
      && (lo.y <= y < hi.y ==>
            EdgeContribution(vs, t, minY, k)[0]
            == Round(lo.x as real + (y - lo.y) as real * ((hi.x - lo.x) as real / (hi.y - lo.y) as real)))
  {
    var p1, p2 := EdgeStart(vs, t), EdgeEnd(vs, t);
    if p1.y != p2.y {
      var e := EntryOf(p1, p2).value;
      var lo, hi := Lower(p1, p2), Upper(p1, p2);
      assert EdgeContribution(vs, t, minY, k) == Contribution(e, lo.y - minY, k, minY);
      if lo.y <= minY + k < hi.y {
        EntryInverseSlope(p1, p2);
        var n := minY + k - lo.y;
        assert EdgeContribution(vs, t, minY, k) == [Round(SweptX(e, n))];
        RoundSweptX(e, n);
      }
    }
  }

  /** The rounded running x after `n` steps is the rounded x of the entry's line `n` scanlines up. */
  lemma RoundSweptX(e: Edge, n: nat)
    ensures Round(SweptX(e, n)) == Round(e.x as real + n as real * e.dx)
  {
    SweptXLinear(e, n);
  }

  /** Edge `(p1, p2)` crosses scanline `y` going up / going down, under the half-open rule. */
  predicate CrossesUp(p1: Point, p2: Point, y: int) { p1.y <= y < p2.y }
  predicate CrossesDown(p1: Point, p2: Point, y: int) { p2.y <= y < p1.y }

  function UpCount(vs: seq<Point>, m: nat, y: int): nat
    requires m <= |vs|
  {
    if m == 0 then 0
    else UpCount(vs, m - 1, y) + (if CrossesUp(EdgeStart(vs, m - 1), EdgeEnd(vs, m - 1), y) then 1 else 0)
  }

  function DownCount(vs: seq<Point>, m: nat, y: int): nat
    requires m <= |vs|
  {
    if m == 0 then 0
    else DownCount(vs, m - 1, y) + (if CrossesDown(EdgeStart(vs, m - 1), EdgeEnd(vs, m - 1), y) then 1 else 0)
  }

  /** Each edge crossing scanline `minY + k`, in either direction, adds exactly one intersection. */
  lemma {:induction false} EdgeHitsCount(vs: seq<Point>, m: nat, minY: int, k: int)
    requires m <= |vs|
    ensures |EdgeHits(vs, m, minY, k)| == UpCount(vs, m, minY + k) + DownCount(vs, m, minY + k)
  {
    if m > 0 {
      EdgeHitsCount(vs, m - 1, minY, k);
      EdgeContributionRule(vs, m - 1, minY, k);
    }
  }

  function Below(p: Point, y: int): int {
    if p.y <= y then 1 else 0
  }

  /**
    * Along the open path through vertices `0 .. m`, the upward crossings of
    * scanline `y` outnumber the downward ones by whether the path starts at
    * or below `y` and ends above it.
    */
  lemma {:induction false} CrossingBalance(vs: seq<Point>, m: nat, y: int)
    requires 0 < |vs| && m <= |vs|
    ensures UpCount(vs, m, y) - DownCount(vs, m, y)
            == Below(vs[0], y) - Below(if m < |vs| then vs[m] else vs[0], y)
  {
    if m > 0 {
      CrossingBalance(vs, m - 1, y);
    }
  }

  /** A closed vertex loop crosses every scanline upward as often as downward. */
  lemma ClosedLoopBalanced(vs: seq<Point>, y: int)
    requires 0 < |vs|
    ensures UpCount(vs, |vs|, y) == DownCount(vs, |vs|, y)
  {
    CrossingBalance(vs, |vs|, y);
  }

  /**
    * Every scanline of a closed vertex loop, simple or not, receives an even
    * number of intersections: as many from upward edges as from downward ones.
    */
  lemma ScanlineHitsEven(vs: seq<Point>, minY: int, k: int)
    requires 0 < |vs|
    ensures |EdgeHits(vs, |vs|, minY, k)| == 2 * UpCount(vs, |vs|, minY + k)
  {
    EdgeHitsCount(vs, |vs|, minY, k);
    ClosedLoopBalanced(vs, minY + k);
  }

  /** No edge reaches the scanline of the highest vertex, so its bucket stays empty. */
  lemma {:induction false} TopScanlineEmpty(vs: seq<Point>, m: nat, minY: int)
    requires 0 < |vs| && m <= |vs|
    ensures EdgeHits(vs, m, minY, MaxY(vs) - minY) == []
  {
    if m > 0 {
      TopScanlineEmpty(vs, m - 1, minY);
      assert EdgeStart(vs, m - 1).y <= MaxY(vs) && EdgeEnd(vs, m - 1).y <= MaxY(vs);
      EdgeBelowMisses(vs, m - 1, minY, MaxY(vs) - minY);
    }
  }

  /** An edge lying wholly at or below scanline `minY + k` does not meet it. */
  lemma EdgeBelowMisses(vs: seq<Point>, t: int, minY: int, k: int)
    requires 0 <= t < |vs|
    requires EdgeStart(vs, t).y <= minY + k && EdgeEnd(vs, t).y <= minY + k
    ensures EdgeContribution(vs, t, minY, k) == []
  {
  }

  /** How often `x` occurs among the first `n` elements of `s`. */
  function Occ(s: seq<int>, n: nat, x: int): nat
    requires n <= |s|
  {
    if n == 0 then 0 else Occ(s, n - 1, x) + (if s[n - 1] == x then 1 else 0)
  }

  /** Counting in a prefix of `a + b` that lies within `a` counts in `a`. */
  lemma {:induction false} OccPrefix(a: seq<int>, b: seq<int>, n: nat, x: int)
    requires n <= |a|
    ensures Occ(a + b, n, x) == Occ(a, n, x)
  {
    if n > 0 {
      OccPrefix(a, b, n - 1, x);
      assert (a + b)[n - 1] == a[n - 1];
    }
  }

  lemma {:induction false} OccAppendUpTo(a: seq<int>, b: seq<int>, j: nat, x: int)
    requires j <= |b|
    ensures Occ(a + b, |a| + j, x) == Occ(a, |a|, x) + Occ(b, j, x)
  {
    if j == 0 {
      OccPrefix(a, b, |a|, x);
    } else {
      OccAppendUpTo(a, b, j - 1, x);
      assert (a + b)[|a| + j - 1] == b[j - 1];
    }
  }

  lemma OccAppend(a: seq<int>, b: seq<int>, x: int)
    ensures Occ(a + b, |a + b|, x) == Occ(a, |a|, x) + Occ(b, |b|, x)
  {
    OccAppendUpTo(a, b, |b|, x);
  }

  /** `Occ` over the whole of `s` is the multiplicity of `x` in the multiset of `s`. */
  lemma {:induction false} OccIsMultiplicity(s: seq<int>, n: nat, x: int)
    requires n <= |s|
    ensures Occ(s, n, x) == multiset(s[..n])[x]
  {
    if n > 0 {
      OccIsMultiplicity(s, n - 1, x);
      assert s[..n] == s[..n - 1] + [s[n - 1]];
    }
  }

  /** How often `x` is pushed into bucket `k` by the first `j` entries `es` of bucket `b`. */
  function BucketOcc(es: seq<Edge>, j: nat, b: int, k: int, minY: int, x: int): nat
    requires j <= |es|
  {
    if j == 0 then 0
    else BucketOcc(es, j - 1, b, k, minY, x) + ContributionOcc(es[j - 1], b, k, minY, x)
  }

  /** How often `x` is in what entry `e` of bucket `b` pushes into bucket `k`. */
  function ContributionOcc(e: Edge, b: int, k: int, minY: int, x: int): nat {
    var c := Contribution(e, b, k, minY);
    Occ(c, |c|, x)
  }

  /** How often `x` is in bucket `k` once buckets `0 .. upto - 1` have been swept. */
  function AetOcc(net: seq<seq<Edge>>, upto: nat, k: int, minY: int, x: int): nat
    requires upto <= |net|
  {
    if upto == 0 then 0
    else AetOcc(net, upto - 1, k, minY, x) + BucketOcc(net[upto - 1], |net[upto - 1]|, upto - 1, k, minY, x)
  }

  /** How often `x` is among the intersections of the first `m` edges with scanline `minY + k`. */
  function EdgeOcc(vs: seq<Point>, m: nat, minY: int, k: int, x: int): nat
    requires m <= |vs|
  {
    if m == 0 then 0
    else EdgeOcc(vs, m - 1, minY, k, x) + Occ(EdgeContribution(vs, m - 1, minY, k), |EdgeContribution(vs, m - 1, minY, k)|, x)
  }

  lemma {:induction false} BucketOccOfHits(es: seq<Edge>, j: nat, b: int, k: int, minY: int, x: int)
    requires j <= |es|
    ensures BucketOcc(es, j, b, k, minY, x) == Occ(BucketHits(es, j, b, k, minY), |BucketHits(es, j, b, k, minY)|, x)
  {
    if j > 0 {
      BucketOccOfHits(es, j - 1, b, k, minY, x);
      OccAppend(BucketHits(es, j - 1, b, k, minY), Contribution(es[j - 1], b, k, minY), x);
    }
  }

  lemma {:induction false} AetOccOfBucket(net: seq<seq<Edge>>, upto: nat, k: int, minY: int, x: int)
    requires upto <= |net|
    ensures AetOcc(net, upto, k, minY, x) == Occ(AetBucket(net, upto, k, minY), |AetBucket(net, upto, k, minY)|, x)
  {
    if upto > 0 {
      AetOccOfBucket(net, upto - 1, k, minY, x);
      BucketOccOfHits(net[upto - 1], |net[upto - 1]|, upto - 1, k, minY, x);
      OccAppend(AetBucket(net, upto - 1, k, minY), BucketHits(net[upto - 1], |net[upto - 1]|, upto - 1, k, minY), x);
    }
  }

  lemma {:induction false} EdgeOccOfHits(vs: seq<Point>, m: nat, minY: int, k: int, x: int)
    requires m <= |vs|
    ensures EdgeOcc(vs, m, minY, k, x) == Occ(EdgeHits(vs, m, minY, k), |EdgeHits(vs, m, minY, k)|, x)
  {
    if m > 0 {
      EdgeOccOfHits(vs, m - 1, minY, k, x);
      OccAppend(EdgeHits(vs, m - 1, minY, k), EdgeContribution(vs, m - 1, minY, k), x);
    }
  }

  lemma {:induction false} AetOccEmpty(net: seq<seq<Edge>>, upto: nat, k: int, minY: int, x: int)
    requires upto <= |net|
    requires forall b :: 0 <= b < |net| ==> net[b] == []
    ensures AetOcc(net, upto, k, minY, x) == 0
  {
    if upto > 0 {
      AetOccEmpty(net, upto - 1, k, minY, x);
      assert |net[upto - 1]| == 0;
    }
  }

  /** Counting over the first `j` entries of a bucket ignores what is appended after them. */
  lemma {:induction false} BucketOccPrefix(es: seq<Edge>, e: Edge, j: nat, b: int, k: int, minY: int, x: int)
    requires j <= |es|
    ensures BucketOcc(es + [e], j, b, k, minY, x) == BucketOcc(es, j, b, k, minY, x)
  {
    if j > 0 {
      BucketOccPrefix(es, e, j - 1, b, k, minY, x);
      assert (es + [e])[j - 1] == es[j - 1];
    }
  }

  /** Appending entry `e` to a bucket adds its contribution to that bucket's count. */
  lemma BucketOccPush(es: seq<Edge>, e: Edge, b: int, k: int, minY: int, x: int)
    ensures BucketOcc(es + [e], |es + [e]|, b, k, minY, x)
            == BucketOcc(es, |es|, b, k, minY, x) + ContributionOcc(e, b, k, minY, x)
  {
    BucketOccPrefix(es, e, |es|, b, k, minY, x);
    assert (es + [e])[|es|] == e;
  }

  /** Appending entry `e` to bucket `b` adds `e`'s contribution to every sweep past bucket `b`, whatever the order. */
  lemma {:induction false} AetOccPush(net: seq<seq<Edge>>, b: int, e: Edge, upto: nat, k: int, minY: int, x: int)
    requires 0 <= b < |net| && upto <= |net|
    ensures AetOcc(net[b := net[b] + [e]], upto, k, minY, x)
            == AetOcc(net, upto, k, minY, x) + (if b < upto then ContributionOcc(e, b, k, minY, x) else 0)
  {
    if upto > 0 {
      var net' := net[b := net[b] + [e]];
      AetOccPush(net, b, e, upto - 1, k, minY, x);
      if upto - 1 == b {
        BucketOccPush(net[b], e, b, k, minY, x);
        assert net'[b] == net[b] + [e];
      } else {
        assert net'[upto - 1] == net[upto - 1];
      }
    }
  }

  /** Pushing the entry of edge `m - 1` into the table adds that edge's contribution to the sweep of bucket `k`. */
  lemma AetOccStep(vs: seq<Point>, m: nat, minY: int, count: nat, k: int, x: int)
    requires 0 < m <= |vs| && InBand(vs, minY, count)
    ensures AetOcc(NetTable(vs, m, minY, count), count, k, minY, x)
            == AetOcc(NetTable(vs, m - 1, minY, count), count, k, minY, x)
               + Occ(EdgeContribution(vs, m - 1, minY, k), |EdgeContribution(vs, m - 1, minY, k)|, x)
  {
    var t := NetTable(vs, m - 1, minY, count);
    var p1, p2 := EdgeStart(vs, m - 1), EdgeEnd(vs, m - 1);
    if p1.y != p2.y {
      var b := Lower(p1, p2).y - minY;
      var e := EntryOf(p1, p2).value;
      assert NetTable(vs, m, minY, count) == t[b := t[b] + [e]];
      AetOccPush(t, b, e, count, k, minY, x);
    } else {
      assert NetTable(vs, m, minY, count) == t;
    }
  }

  /**
    * Sweeping the new-edge table bucket by bucket puts every value into
    * bucket `k` as often as taking the edges one by one in loop order does.
    */
  lemma {:induction false} AetOccMatchesEdgeOcc(vs: seq<Point>, m: nat, minY: int, count: nat, k: int, x: int)
    requires m <= |vs| && InBand(vs, minY, count)
    ensures AetOcc(NetTable(vs, m, minY, count), count, k, minY, x) == EdgeOcc(vs, m, minY, k, x)
  {
    if m == 0 {
      AetOccEmpty(NetTable(vs, 0, minY, count), count, k, minY, x);
    } else {
      AetOccMatchesEdgeOcc(vs, m - 1, minY, count, k, x);
      AetOccStep(vs, m, minY, count, k, x);
    }
  }

  /**
    * Sweeping the new-edge table bucket by bucket yields, on every scanline,
    * the same intersections as taking the edges one by one in loop order,
    * possibly in another order.
    */
  lemma AetMatchesEdgeHits(vs: seq<Point>, m: nat, minY: int, count: nat, k: int)
    requires m <= |vs| && InBand(vs, minY, count)
    ensures multiset(AetBucket(NetTable(vs, m, minY, count), count, k, minY)) == multiset(EdgeHits(vs, m, minY, k))
  {
    var swept := AetBucket(NetTable(vs, m, minY, count), count, k, minY);
    var hits := EdgeHits(vs, m, minY, k);
    forall x ensures multiset(swept)[x] == multiset(hits)[x] {
      AetOccMatchesEdgeOcc(vs, m, minY, count, k, x);
      AetOccOfBucket(NetTable(vs, m, minY, count), count, k, minY, x);
      EdgeOccOfHits(vs, m, minY, k, x);
      OccIsMultiplicity(swept, |swept|, x);
      OccIsMultiplicity(hits, |hits|, x);
      assert swept[..|swept|] == swept && hits[..|hits|] == hits;
    }
  }

  /**
    * Lines 114-121: sweep one entry `e` of bucket `i` upward, pushing
    * `round(x)` into buckets `i .. e.maxY - minY - 1` and stepping `x` by `dx`.
    */
  method SweepEdge(e: Edge, i: int, minY: int, activeEdgeTable: array<seq<int>>)
    requires 0 <= i && e.maxY - minY <= activeEdgeTable.Length
    modifies activeEdgeTable
    ensures forall q :: 0 <= q < activeEdgeTable.Length ==>
      activeEdgeTable[q] == old(activeEdgeTable[q]) + Contribution(e, i, q, minY)
  {
    var xPositionOfIntersection := e.x as real;
    var k := i;
    while k < e.maxY - minY
      invariant i <= k
      invariant k <= e.maxY - minY || k == i
      invariant xPositionOfIntersection == SweptX(e, k - i)
      invariant forall q :: 0 <= q < activeEdgeTable.Length ==>
        activeEdgeTable[q] == old(activeEdgeTable[q]) + (if q < k then Contribution(e, i, q, minY) else [])
    {
      assert i <= k < e.maxY - minY;
      assert Contribution(e, i, k, minY) == [Round(xPositionOfIntersection)];
      activeEdgeTable[k] := activeEdgeTable[k] + [Round(xPositionOfIntersection)];
      xPositionOfIntersection := xPositionOfIntersection + e.dx;
      k := k + 1;
    }
  }

  /**
    * Lines 109-123: every entry of every bucket is swept upward from its own
    * bucket, bucket by bucket and entry by entry.
    */
  method BuildActiveEdgeTable(newEdgeTable: array<seq<Edge>>, minY: int, activeEdgeTable: array<seq<int>>)
    requires newEdgeTable.Length == activeEdgeTable.Length
    requires forall b, e :: 0 <= b < newEdgeTable.Length && e in newEdgeTable[b] ==>
      e.maxY - minY <= newEdgeTable.Length
    requires forall k :: 0 <= k < activeEdgeTable.Length ==> activeEdgeTable[k] == []
    modifies activeEdgeTable
    ensures forall k :: 0 <= k < activeEdgeTable.Length ==>
      activeEdgeTable[k] == AetBucket(newEdgeTable[..], newEdgeTable.Length, k, minY)
  {
    var n := newEdgeTable.Length;
    ghost var net := newEdgeTable[..];
    for i := 0 to n
      invariant forall q :: 0 <= q < n ==> activeEdgeTable[q] == AetBucket(net, i, q, minY)
    {
      for j := 0 to |newEdgeTable[i]|
        invariant forall q :: 0 <= q < n ==>
          activeEdgeTable[q] == AetBucket(net, i, q, minY) + BucketHits(net[i], j, i, q, minY)
      {
        assert newEdgeTable[i][j] in net[i];
        SweepEdge(newEdgeTable[i][j], i, minY, activeEdgeTable);
      }
    }
  }
}
