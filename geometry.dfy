/** Values shared by the scanline fill and the vertex editor of scanConversion.js. */
module Geometry {

  /** A vertex position `[x, y]`: canvas mouse coordinates, whole pixels. */
  datatype Point = Point(x: int, y: int)

  /** A vertex colour `[r, g, b]`; the fill never looks inside it. */
  datatype Color = Rgb(r: int, g: int, b: int)

  /** One call `drawLine(cxt, x1, x2, y, color)`: a horizontal span on scanline `y`. */
  datatype Span = Span(x1: int, x2: int, y: int, color: Color)

  datatype Option<T> = None | Some(value: T)

  /**
    * JavaScript's `Math.round`: the nearest integer, halves rounded towards
    * +infinity (so -2.5 rounds to -2 and 2.5 to 3).
    */
  function Round(r: real): (n: int)
    ensures n as real - 1.0 / 2.0 <= r < n as real + 1.0 / 2.0
  {
    (r + 1.0 / 2.0).Floor
  }

  function Abs(n: int): (a: int)
    ensures a >= 0 && (a == n || a == -n)
  {
    if n < 0 then -n else n
  }

  /** The least y of a non-empty vertex list: a lower bound on every vertex (attained, see `MinYAttained`). */
  function MinY(vs: seq<Point>): (m: int)
    requires |vs| > 0
    ensures forall i :: 0 <= i < |vs| ==> m <= vs[i].y
    ensures m <= vs[0].y
  {
    if |vs| == 1 then vs[0].y
    else
      var m' := MinY(vs[..|vs| - 1]);
      assert forall i :: 0 <= i < |vs| - 1 ==> vs[..|vs| - 1][i] == vs[i];
      if vs[|vs| - 1].y < m' then vs[|vs| - 1].y else m'
  }

  /** The greatest y of a non-empty vertex list: an upper bound on every vertex (attained, see `MaxYAttained`). */
  function MaxY(vs: seq<Point>): (m: int)
    requires |vs| > 0
    ensures forall i :: 0 <= i < |vs| ==> vs[i].y <= m
    ensures vs[0].y <= m
  {
    if |vs| == 1 then vs[0].y
    else
      var m' := MaxY(vs[..|vs| - 1]);
      assert forall i :: 0 <= i < |vs| - 1 ==> vs[..|vs| - 1][i] == vs[i];
      if vs[|vs| - 1].y > m' then vs[|vs| - 1].y else m'
  }

  /** Some vertex lies on the lowest scanline. */
  lemma {:induction false} MinYAttained(vs: seq<Point>)
    requires |vs| > 0
    ensures exists i :: 0 <= i < |vs| && vs[i].y == MinY(vs)
  {
    if |vs| > 1 {
      var init := vs[..|vs| - 1];
      MinYAttained(init);
      if vs[|vs| - 1].y < MinY(init) {
        assert vs[|vs| - 1].y == MinY(vs);
      } else {
        var i :| 0 <= i < |init| && init[i].y == MinY(init);
        assert vs[i] == init[i] && init[i].y == MinY(vs);
      }
    } else {
      assert vs[0].y == MinY(vs);
    }
  }

  /** Some vertex lies on the highest scanline. */
  lemma {:induction false} MaxYAttained(vs: seq<Point>)
    requires |vs| > 0
    ensures exists i :: 0 <= i < |vs| && vs[i].y == MaxY(vs)
  {
    if |vs| > 1 {
      var init := vs[..|vs| - 1];
      MaxYAttained(init);
      if vs[|vs| - 1].y > MaxY(init) {
        assert vs[|vs| - 1].y == MaxY(vs);
      } else {
        var i :| 0 <= i < |init| && init[i].y == MaxY(init);
        assert vs[i] == init[i] && init[i].y == MaxY(vs);
      }
    } else {
      assert vs[0].y == MaxY(vs);
    }
  }

  /** Every vertex lies on one of the `count` scanlines starting at `minY`. */
  ghost predicate InBand(vs: seq<Point>, minY: int, count: int) {
    forall i :: 0 <= i < |vs| ==> minY <= vs[i].y < minY + count
  }
}
