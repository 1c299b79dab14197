/**
  * The vertex editor of scanConversion.js: the mouse handlers that pick up a
  * vertex, drag it and drop it, and `redraw`, which refills every polygon
  * after each move.
  */
module VertexDrag {
  import opened Geometry
  import opened ScanConversion

  /**
    * The hit test of lines 158-159: the mouse lies strictly within `r` of
    * vertex `v` on both axes. Before the first mouse move the position is
    * undefined; the source then compares `NaN` against `r`, which is false,
    * so nothing is hit.
    */
  predicate Hits(v: Point, mouse: Option<Point>, r: int) {
    mouse.Some? && Abs(mouse.value.x - v.x) < r && Abs(mouse.value.y - v.y) < r
  }

  /** The first vertex at or after index `from` that the mouse hits, if any. */
  function FirstHit(vs: seq<Point>, mouse: Option<Point>, r: int, from: nat): (h: Option<int>)
    requires from <= |vs|
    ensures h.Some? ==> from <= h.value < |vs| && Hits(vs[h.value], mouse, r)
    ensures h.Some? ==> forall i :: from <= i < h.value ==> !Hits(vs[i], mouse, r)
    ensures h.None? <==> forall i :: from <= i < |vs| ==> !Hits(vs[i], mouse, r)
    decreases |vs| - from
  {
    if from == |vs| then None
    else if Hits(vs[from], mouse, r) then Some(from)
    else FirstHit(vs, mouse, r, from + 1)
  }

  /** Whether some polygon lists vertex `i`. */
  predicate Referenced(polygons: seq<seq<int>>, i: int) {
    exists k, t :: 0 <= k < |polygons| && 0 <= t < |polygons[k]| && polygons[k][t] == i
  }

  /** Every polygon can be filled: it has a first vertex and names only existing vertices. */
  predicate PolygonsValid(vertexCount: int, colorCount: int, polygons: seq<seq<int>>) {
    forall k :: 0 <= k < |polygons| ==> ValidPolygon(vertexCount, colorCount, polygons[k])
  }

  /** What `fillPolygon` draws for each polygon, in polygon order. */
  function Fills(vertexPos: seq<Point>, vertexColor: seq<Color>, polygons: seq<seq<int>>): (fills: seq<seq<Span>>)
    requires PolygonsValid(|vertexPos|, |vertexColor|, polygons)
    ensures |fills| == |polygons|
  {
    seq(|polygons|, k requires 0 <= k < |polygons| =>
      FillSpec(Resolve(vertexPos, polygons[k]), vertexColor[polygons[k][0]]))
  }

  /** Entry `k` of `Fills` is the fill of polygon `k`. */
  lemma FillsAt(vertexPos: seq<Point>, vertexColor: seq<Color>, polygons: seq<seq<int>>, k: int)
    requires PolygonsValid(|vertexPos|, |vertexColor|, polygons) && 0 <= k < |polygons|
    ensures ValidPolygon(|vertexPos|, |vertexColor|, polygons[k])
    ensures Fills(vertexPos, vertexColor, polygons)[k]
            == FillSpec(Resolve(vertexPos, polygons[k]), vertexColor[polygons[k][0]])
  {
  }

  /** The first `upto` lists of spans, one after the other. */
  function Concat(fills: seq<seq<Span>>, upto: nat): seq<Span>
    requires upto <= |fills|
  {
    if upto == 0 then [] else Concat(fills, upto - 1) + fills[upto - 1]
  }

  lemma ConcatSnoc(fills: seq<seq<Span>>, k: nat)
    requires k < |fills|
    ensures Concat(fills, k + 1) == Concat(fills, k) + fills[k]
  {
  }

  /** The spans of one `redraw` pass: every polygon filled, in polygon order. */
  function Frame(vertexPos: seq<Point>, vertexColor: seq<Color>, polygons: seq<seq<int>>): seq<Span>
    requires PolygonsValid(|vertexPos|, |vertexColor|, polygons)
  {
    Concat(Fills(vertexPos, vertexColor, polygons), |polygons|)
  }

  /** Moving a vertex leaves the positions of a polygon that does not list it unchanged. */
  lemma ResolveUnreferenced(vertexPos: seq<Point>, p: seq<int>, i: int, v: Point)
    requires forall t :: 0 <= t < |p| ==> 0 <= p[t] < |vertexPos|
    requires 0 <= i < |vertexPos| && forall t :: 0 <= t < |p| ==> p[t] != i
    ensures Resolve(vertexPos[i := v], p) == Resolve(vertexPos, p)
  {
    var a, b := Resolve(vertexPos[i := v], p), Resolve(vertexPos, p);
    assert |a| == |b|;
    forall t | 0 <= t < |p| ensures a[t] == b[t] {
      assert vertexPos[i := v][p[t]] == vertexPos[p[t]];
    }
  }

  /** Dragging a vertex that no polygon lists redraws the same spans. */
  lemma FrameIgnoresUnreferenced(vertexPos: seq<Point>, vertexColor: seq<Color>, polygons: seq<seq<int>>, i: int, v: Point)
    requires PolygonsValid(|vertexPos|, |vertexColor|, polygons)
    requires 0 <= i < |vertexPos| && !Referenced(polygons, i)
    ensures Frame(vertexPos[i := v], vertexColor, polygons) == Frame(vertexPos, vertexColor, polygons)
  {
    var moved := vertexPos[i := v];
    var a, b := Fills(moved, vertexColor, polygons), Fills(vertexPos, vertexColor, polygons);
    forall k | 0 <= k < |polygons| ensures a[k] == b[k] {
      var p := polygons[k];
      assert forall t :: 0 <= t < |p| ==> p[t] != i;
      ResolveUnreferenced(vertexPos, p, i, v);
    }
    assert a == b;
  }

  /**
    * The editor's state: the vertex positions it drags, the fixed colours
    * and polygons, the circle radius, the vertex being dragged (`-1` when
    * none) and the last mouse position seen.
    */
  class Editor {
    var vertexPos: seq<Point>
    const vertexColor: seq<Color>
    const polygons: seq<seq<int>>
    const circleRadius: int
    var activeVertex: int
    var mouse: Option<Point>

    ghost predicate Valid()
      reads this
    {
      && PolygonsValid(|vertexPos|, |vertexColor|, polygons)
      && (activeVertex == -1 || 0 <= activeVertex < |vertexPos|)
      && (activeVertex != -1 ==> mouse.Some?)
    }

    /** Lines 199-200 of `window.onload`: radius 10, nothing dragged, and no mouse position yet. */
    constructor (vertexPos0: seq<Point>, vertexColor0: seq<Color>, polygons0: seq<seq<int>>)
      requires PolygonsValid(|vertexPos0|, |vertexColor0|, polygons0)
      ensures Valid()
      ensures vertexPos == vertexPos0 && vertexColor == vertexColor0 && polygons == polygons0
      ensures circleRadius == 10 && activeVertex == -1 && mouse == None
    {
      vertexPos := vertexPos0;
      vertexColor := vertexColor0;
      polygons := polygons0;
      circleRadius := 10;
      activeVertex := -1;
      mouse := None;
    }

    /**
      * Lines 156-164: the first vertex under the mouse becomes the dragged
      * one; when none is under it, the dragged vertex stays as it was.
      */
    method OnMouseDown()
      requires Valid()
      modifies this
      ensures Valid()
      ensures activeVertex == match FirstHit(vertexPos, mouse, circleRadius, 0)
                              case Some(i) => i
                              case None => old(activeVertex)
      ensures vertexPos == old(vertexPos) && mouse == old(mouse)
    {
      var i := 0;
      while i < |vertexPos|
        invariant 0 <= i <= |vertexPos|
        invariant forall t :: 0 <= t < i ==> !Hits(vertexPos[t], mouse, circleRadius)
        invariant activeVertex == old(activeVertex) && vertexPos == old(vertexPos) && mouse == old(mouse)
      {
        if Hits(vertexPos[i], mouse, circleRadius) {
          activeVertex := i;
          break;
        }
        i := i + 1;
      }
    }

    /** Lines 168-170: dropping the vertex; nothing is dragged any more. */
    method OnMouseUp()
      requires Valid()
      modifies this
      ensures Valid()
      ensures activeVertex == -1
      ensures vertexPos == old(vertexPos) && mouse == old(mouse)
    {
      activeVertex := -1;
    }

    /**
      * Lines 174-189: record the new mouse position (`None` when the event
      * carries neither offset nor layer coordinates), then move the dragged
      * vertex, and only that one, to it and redraw. With nothing dragged no
      * vertex moves and nothing is redrawn.
      */
    method OnMouseMove(position: Option<Point>) returns (frame: Option<seq<Span>>)
      requires Valid()
      modifies this
      ensures Valid()
      ensures mouse == if position.Some? then position else old(mouse)
      ensures activeVertex == old(activeVertex)
      ensures old(activeVertex) == -1 ==> vertexPos == old(vertexPos) && frame == None
      ensures old(activeVertex) != -1 ==>
        && vertexPos == old(vertexPos)[old(activeVertex) := mouse.value]
        && frame == Some(Frame(vertexPos, vertexColor, polygons))
    {
      if position.Some? {
        mouse := position;
      }
      if activeVertex != -1 {
        vertexPos := vertexPos[activeVertex := mouse.value];
        var spans := Redraw();
        frame := Some(spans);
      } else {
        frame := None;
      }
    }

    /** Lines 141-152 without the canvas: fill every polygon in order. */
    method Redraw() returns (spans: seq<Span>)
      requires Valid()
      ensures spans == Frame(vertexPos, vertexColor, polygons)
    {
      var positions, colors, polys := vertexPos, vertexColor, polygons;
      ghost var fills := Fills(positions, colors, polys);
      spans := [];
      for k := 0 to |polys|
        invariant spans == Concat(fills, k)
      {
        FillsAt(positions, colors, polys, k);
        var fill := FillPolygon(positions, colors, polys[k]);
        ConcatSnoc(fills, k);
        spans := spans + fill;
      }
    }
  }
}
