/**
  * The new-edge table of `fillPolygon`: one bucket per scanline from `minY`
  * to `maxY`, holding `{x, dx, maxY}` for every non-horizontal edge whose
  * lower endpoint lies on that scanline.
  */
module EdgeTable {
  import opened Geometry

  /** A new-edge-table entry: start x, inverse slope, and the y at which the edge stops. */
  datatype Edge = Edge(x: int, dx: real, maxY: int)

  /** The endpoint with the smaller y (the second one on a tie). */
  function Lower(p1: Point, p2: Point): (p: Point)
    ensures p == p1 || p == p2
    ensures p.y <= p1.y && p.y <= p2.y
  {
    if p1.y < p2.y then p1 else p2
  }

  /** The endpoint with the larger y (the first one on a tie). */
  function Upper(p1: Point, p2: Point): (p: Point)
    ensures p == p1 || p == p2
    ensures p.y >= p1.y && p.y >= p2.y
  {
    if p1.y < p2.y then p2 else p1
  }

  /** The `i`-th edge of the closed vertex loop: from vertex `i` to vertex `(i + 1) % n`. */
  function EdgeStart(vs: seq<Point>, i: int): Point
    requires 0 <= i < |vs|
  {
    vs[i]
  }

  /** The loop's successor vertex `(i + 1) % n`, written out: the last vertex closes onto the first. */
  function EdgeEnd(vs: seq<Point>, i: int): Point
    requires 0 <= i < |vs|
  {
    if i + 1 < |vs| then vs[i + 1] else vs[0]
  }

  /**
    * The entry the loop body pushes for the edge from `p1` to `p2`, if any:
    * none for a horizontal edge, otherwise the lower endpoint's x, the
    * inverse slope (computed as `(p2x - p1x) / (p2y - p1y)` on both branches)
    * and the upper endpoint's y.
    */
  function EntryOf(p1: Point, p2: Point): (r: Option<Edge>)
    ensures r.None? <==> p1.y == p2.y
    ensures r.Some? ==> r.value.x == Lower(p1, p2).x
    ensures r.Some? ==> r.value.maxY == Upper(p1, p2).y > Lower(p1, p2).y
  {
    if p1.y < p2.y then
      Some(Edge(p1.x, (p2.x - p1.x) as real / (p2.y - p1.y) as real, p2.y))
    else if p1.y > p2.y then
      Some(Edge(p2.x, (p2.x - p1.x) as real / (p2.y - p1.y) as real, p1.y))
    else
      None
  }

  /** Both branches compute the same inverse slope: x change per unit y, from lower to upper endpoint. */
  lemma EntryInverseSlope(p1: Point, p2: Point)
    requires p1.y != p2.y
    ensures EntryOf(p1, p2).value.dx
            == (Upper(p1, p2).x - Lower(p1, p2).x) as real / (Upper(p1, p2).y - Lower(p1, p2).y) as real
  {
    if p1.y > p2.y {
      NegatedQuotient((p1.x - p2.x) as real, (p1.y - p2.y) as real);
    }
  }

  lemma NegatedQuotient(a: real, b: real)
    requires b != 0.0
    ensures (-a) / (-b) == a / b
  {
  }

  /**
    * Sweeping an entry from its start scanline with step `dx` reaches the
    * upper endpoint's x at the upper endpoint's y: `dx` is the inverse slope.
    */
  lemma EntrySweepReachesUpper(p1: Point, p2: Point)
    requires p1.y != p2.y
    ensures EntryOf(p1, p2).value.x as real
            + (EntryOf(p1, p2).value.maxY - Lower(p1, p2).y) as real * EntryOf(p1, p2).value.dx
            == Upper(p1, p2).x as real
  {
    EntryInverseSlope(p1, p2);
    var lo, hi := Lower(p1, p2), Upper(p1, p2);
    var h := (hi.y - lo.y) as real;
    assert h != 0.0;
    assert h * ((hi.x - lo.x) as real / h) == (hi.x - lo.x) as real;
  }

  /** The table `t` after the entry of edge `(p1, p2)`, if any, is pushed onto its lower endpoint's bucket. */
  function PushEntry(t: seq<seq<Edge>>, p1: Point, p2: Point, minY: int): (t': seq<seq<Edge>>)
    requires minY <= p1.y < minY + |t| && minY <= p2.y < minY + |t|
    ensures |t'| == |t|
  {
    match EntryOf(p1, p2)
    case None => t
    case Some(e) => t[Lower(p1, p2).y - minY := t[Lower(p1, p2).y - minY] + [e]]
  }

  /**
    * The new-edge table after the first `m` edges of the loop have been
    * visited, for `count` scanlines starting at `minY`: each non-horizontal
    * edge appends its entry to the bucket of its lower endpoint.
    */
  function NetTable(vs: seq<Point>, m: nat, minY: int, count: nat): (t: seq<seq<Edge>>)
    requires m <= |vs| && InBand(vs, minY, count)
    ensures |t| == count
  {
    if m == 0 then seq(count, _ => [])
    else PushEntry(NetTable(vs, m - 1, minY, count), EdgeStart(vs, m - 1), EdgeEnd(vs, m - 1), minY)
  }

  /**
    * Every entry lies strictly below its stop scanline, which is at most the
    * last scanline: the sweep from an entry's bucket stays inside the table.
    */
  lemma {:induction false} NetTableEntriesBounded(vs: seq<Point>, m: nat, minY: int, count: nat)
    requires m <= |vs| && InBand(vs, minY, count)
    ensures forall b, e :: 0 <= b < count && e in NetTable(vs, m, minY, count)[b] ==>
      b + minY < e.maxY < minY + count
  {
    if m > 0 {
      NetTableEntriesBounded(vs, m - 1, minY, count);
      var t := NetTable(vs, m - 1, minY, count);
      var p1, p2 := EdgeStart(vs, m - 1), EdgeEnd(vs, m - 1);
      if p1.y != p2.y {
        var b := Lower(p1, p2).y - minY;
        var e := EntryOf(p1, p2).value;
        assert NetTable(vs, m, minY, count) == t[b := t[b] + [e]];
        assert Upper(p1, p2).y < minY + count;
        forall b', e' | 0 <= b' < count && e' in NetTable(vs, m, minY, count)[b']
          ensures b' + minY < e'.maxY < minY + count
        {
          if b' == b && e' !in t[b] {
            assert e' == e;
          }
        }
      }
    }
  }

  /** Horizontal edges add nothing; every other edge adds one entry, to the bucket of its lower endpoint. */
  lemma {:induction false} NetTableSize(vs: seq<Point>, m: nat, minY: int, count: nat)
    requires m <= |vs| && InBand(vs, minY, count)
    ensures TotalEntries(NetTable(vs, m, minY, count)) == NonHorizontal(vs, m)
  {
    if m == 0 {
      TotalEntriesEmpty(NetTable(vs, 0, minY, count));
    } else {
      NetTableSize(vs, m - 1, minY, count);
      var t := NetTable(vs, m - 1, minY, count);
      var p1, p2 := EdgeStart(vs, m - 1), EdgeEnd(vs, m - 1);
      if p1.y != p2.y {
        var b := Lower(p1, p2).y - minY;
        var e := EntryOf(p1, p2).value;
        assert NetTable(vs, m, minY, count) == t[b := t[b] + [e]];
        TotalEntriesUpdate(t, b, e);
      } else {
        assert NetTable(vs, m, minY, count) == t;
      }
    }
  }

  /** The number of non-horizontal edges among the first `m`. */
  function NonHorizontal(vs: seq<Point>, m: nat): nat
    requires m <= |vs|
  {
    if m == 0 then 0
    else NonHorizontal(vs, m - 1) + (if EdgeStart(vs, m - 1).y != EdgeEnd(vs, m - 1).y then 1 else 0)
  }

  function TotalEntries(t: seq<seq<Edge>>): nat {
    if t == [] then 0 else TotalEntries(t[..|t| - 1]) + |t[|t| - 1]|
  }

  lemma {:induction false} TotalEntriesEmpty(t: seq<seq<Edge>>)
    requires forall b :: 0 <= b < |t| ==> t[b] == []
    ensures TotalEntries(t) == 0
  {
    if t != [] {
      TotalEntriesEmpty(t[..|t| - 1]);
    }
  }

  lemma {:induction false} TotalEntriesUpdate(t: seq<seq<Edge>>, b: int, e: Edge)
    requires 0 <= b < |t|
    ensures TotalEntries(t[b := t[b] + [e]]) == TotalEntries(t) + 1
  {
    var t' := t[b := t[b] + [e]];
    if b < |t| - 1 {
      assert t'[..|t'| - 1] == t[..|t| - 1][b := t[b] + [e]];
      TotalEntriesUpdate(t[..|t| - 1], b, e);
    } else {
      assert t'[..|t'| - 1] == t[..|t| - 1];
    }
  }

  /** Lines 85-106: the loop body for edge `i`, pushing its entry if it is not horizontal. */
  method PushEdge(vertex: seq<Point>, i: int, minY: int, newEdgeTable: array<seq<Edge>>)
    requires 0 <= i < |vertex| && InBand(vertex, minY, newEdgeTable.Length)
    modifies newEdgeTable
    ensures newEdgeTable[..] == PushEntry(old(newEdgeTable[..]), vertex[i], EdgeEnd(vertex, i), minY)
  {
    var n := |vertex|;
    SuccessorIndex(i, n);
    var p1y := vertex[i].y;
    var p2y := vertex[(i + 1) % n].y;
    if p1y < p2y {
      var p1x := vertex[i].x;
      var p2x := vertex[(i + 1) % n].x;
      newEdgeTable[p1y - minY] := newEdgeTable[p1y - minY] + [Edge(p1x, (p2x - p1x) as real / (p2y - p1y) as real, p2y)];
    } else if p1y > p2y {
      var p1x := vertex[i].x;
      var p2x := vertex[(i + 1) % n].x;
      newEdgeTable[p2y - minY] := newEdgeTable[p2y - minY] + [Edge(p2x, (p2x - p1x) as real / (p2y - p1y) as real, p1y)];
    }
  }

  lemma SuccessorIndex(i: int, n: int)
    requires 0 <= i < n
    ensures (i + 1) % n == if i + 1 < n then i + 1 else 0
  {
  }

  /**
    * Lines 84-107: visit every edge of the closed vertex loop and push the
    * entry of each non-horizontal one into the bucket of its lower endpoint.
    * The bucket index is in range and the divisor `p2y - p1y` is non-zero.
    */
  method BuildNewEdgeTable(vertex: seq<Point>, minY: int, newEdgeTable: array<seq<Edge>>)
    requires |vertex| > 0 && InBand(vertex, minY, newEdgeTable.Length)
    requires forall b :: 0 <= b < newEdgeTable.Length ==> newEdgeTable[b] == []
    modifies newEdgeTable
    ensures newEdgeTable[..] == NetTable(vertex, |vertex|, minY, newEdgeTable.Length)
  {
    assert newEdgeTable[..] == NetTable(vertex, 0, minY, newEdgeTable.Length);
    for i := 0 to |vertex|
      invariant newEdgeTable[..] == NetTable(vertex, i, minY, newEdgeTable.Length)
    {
      PushEdge(vertex, i, minY, newEdgeTable);
    }
  }
}
