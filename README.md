# Scanline polygon fill and vertex dragging

This project models `Project1/src/scanConversion.js` in Dafny. That file is a canvas
editor that fills polygons with a scanline algorithm and lets the user drag
their vertices with the mouse. The model covers three parts:

- `fillPolygon` and its comparator `sortNumber`.
- The drag handlers `onMouseDown`, `onMouseUp` and `onMouseMove`.
- `redraw`, which refills every polygon after each move.

`fillPolygon` works in five steps:

1. It finds the lowest and highest vertex (`minY`, `maxY`).
2. It allocates one bucket per scanline, in two tables: the new-edge table and the active-edge table.
3. It records every non-horizontal edge as an entry `{x, dx, maxY}` in the bucket of its lower endpoint.
4. It sweeps each entry upward, pushing the rounded crossing `x` onto every scanline from its bucket up to, but excluding, its `maxY`.
5. It sorts every scanline and draws a span between entries `0-1`, `2-3`, and so on.

The model does not call `drawLine`. Each call becomes a `Span(x1, x2, y, color)` appended to the method's result.

The model has seven modules:

- `Geometry`: points, colours, spans, `Math.round`, and the vertical extent of a vertex loop.
- `NumberSort`: the comparator, sortedness, and the sorted arrangement `SortedOf` that the engine's `sort` must produce.
- `EdgeTable`: the new-edge entries of step 3 and the method that builds the table in an array.
- `ActiveEdges`: the upward sweep of step 4, both the per-edge reference `EdgeHits` and the bucket-order `AetBucket`, and the proofs about them:
  - the two agree up to order;
  - every scanline gets an even number of crossings;
  - the top scanline gets none.
- `ScanConversion`: the `fillPolygon` method, proved equal to the reference fill `FillSpec`. `FillSpec` sorts each scanline's crossings and pairs them.
- `FillProperties`: what the reference fill looks like:
  - every span is in the polygon's colour;
  - every span runs left to right;
  - every span lies on a scanline from `minY` up to, but excluding, `maxY`;
  - the spans come bottom to top, left to right, without overlap.
- `VertexDrag`: the editor state as a class `Editor` with the drag handlers and `redraw`.

Coordinates are integers, because the mouse positions are integers and line 93 uses them as array indices. The slope `dx` and the running crossing `x` are exact `real`s. `Math.round` is `Floor(x + 1/2)`, which matches how JavaScript rounds halves, toward positive infinity.

Two properties of the code, both proved, are easy to get wrong when reasoning about the algorithm informally:

- **Every scanline gets an even number of crossings, even for a self-intersecting polygon.** Each edge is half-open: it counts its lower endpoint's scanline and not its upper one. Under that rule a closed vertex loop crosses every scanline upward as often as downward (`ActiveEdges.ClosedLoopBalanced`). This holds for every closed loop, self-intersecting ones included. So the pairing loop at lines 128-129 never reads past a bucket's end.
- **No span is drawn on the scanline of the highest vertex.** No sweep reaches bucket `maxY - minY` (`ActiveEdges.TopScanlineEmpty`).

## Model

| member | source | states |
|---|---|---|
| Geometry.Round | Project1/src/scanConversion.js:119 | `Math.round(r)` is the integer within one half of `r`, with halves going up |
| Geometry.MinY | Project1/src/scanConversion.js:53-65 | the lowest vertex height is at most every vertex's height |
| Geometry.MaxY | Project1/src/scanConversion.js:53-65 | the highest vertex height is at least every vertex's height |
| Geometry.MinYAttained | Project1/src/scanConversion.js:53-65 | some vertex lies at the lowest height |
| Geometry.MaxYAttained | Project1/src/scanConversion.js:53-65 | some vertex lies at the highest height |
| ScanConversion.Extent | Project1/src/scanConversion.js:53-65 | the extent loop, including its `continue` shortcut, yields exactly the lowest and highest vertex heights |
| ScanConversion.NewTables | Project1/src/scanConversion.js:68-74 | both tables are new, have `maxY - minY + 1` buckets, and every bucket starts empty |
| ScanConversion.ResolveVertices | Project1/src/scanConversion.js:45-48 | the polygon's positions are the vertex positions its indices name, in order |
| EdgeTable.EntryOf | Project1/src/scanConversion.js:84-107 | an edge has no entry iff it is horizontal; otherwise the entry starts at the lower endpoint's x and stops at the higher endpoint's y, which is strictly higher |
| EdgeTable.EntryInverseSlope | Project1/src/scanConversion.js:95-103 | both branches give the entry's `dx` as the run over the rise, from the lower endpoint to the higher; the rise is non-zero |
| EdgeTable.EntrySweepReachesUpper | Project1/src/scanConversion.js:114-121 | stepping the entry's `x` by `dx` once per scanline lands exactly on the higher endpoint's x |
| EdgeTable.NetTableEntriesBounded | Project1/src/scanConversion.js:93-101 | every entry sits below its stop scanline, and that stop scanline is inside the table |
| EdgeTable.NetTableSize | Project1/src/scanConversion.js:84-107 | the table holds exactly one entry per non-horizontal edge |
| EdgeTable.PushEdge | Project1/src/scanConversion.js:85-106 | one loop pass appends edge `i`'s entry, if any, to its lower endpoint's bucket and changes nothing else; the bucket index is in range and the divisor is non-zero |
| EdgeTable.BuildNewEdgeTable | Project1/src/scanConversion.js:84-107 | the array ends up holding the new-edge table of the whole vertex loop |
| ActiveEdges.SweptXLinear | Project1/src/scanConversion.js:114-120 | after `n` steps the running `x` is `x + n * dx` |
| ActiveEdges.RoundSweptX | Project1/src/scanConversion.js:119-120 | the value pushed after `n` steps is `round(x + n * dx)` |
| ActiveEdges.EdgeContributionRule | Project1/src/scanConversion.js:109-123 | an edge puts exactly one value, `round(x + (k - i) * dx)`, on scanline `minY + k` if that scanline is from its lower endpoint's (inclusive) to its higher endpoint's (exclusive); otherwise none |
| ActiveEdges.EdgeHitsCount | Project1/src/scanConversion.js:84-123 | each scanline gets one crossing per edge crossing it upward or downward |
| ActiveEdges.CrossingBalance | Project1/src/scanConversion.js:84-107 | along an open vertex path, upward minus downward crossings depends only on where the path starts and ends |
| ActiveEdges.ClosedLoopBalanced | Project1/src/scanConversion.js:84-107 | a closed vertex loop crosses every scanline upward as often as downward |
| ActiveEdges.ScanlineHitsEven | Project1/src/scanConversion.js:118-129 | every scanline gets an even number of crossings |
| ActiveEdges.TopScanlineEmpty | Project1/src/scanConversion.js:118 | the highest vertex's scanline gets no crossings |
| ActiveEdges.AetOccMatchesEdgeOcc | Project1/src/scanConversion.js:109-123 | bucket by bucket and edge by edge put every value on a scanline equally often |
| ActiveEdges.AetMatchesEdgeHits | Project1/src/scanConversion.js:109-123 | sweeping the table bucket by bucket gives every scanline the same crossings, up to order, as taking the edges in loop order |
| ActiveEdges.SweepEdge | Project1/src/scanConversion.js:114-121 | sweeping one entry appends its contribution to each scanline and to no other |
| ActiveEdges.BuildActiveEdgeTable | Project1/src/scanConversion.js:109-123 | every scanline ends up holding the bucket-order sweep of the table |
| NumberSort.SortNumber | Project1/src/scanConversion.js:136-138 | the comparator is negative, zero or positive iff `a < b`, `a == b` or `a > b` |
| NumberSort.InsertMultiset | Project1/src/scanConversion.js:127 | inserting adds exactly the one element |
| NumberSort.InsertSorted | Project1/src/scanConversion.js:127 | inserting into an ascending sequence keeps it ascending |
| NumberSort.SortedOfSorts | Project1/src/scanConversion.js:127 | the reference sort is ascending and a permutation of its input |
| NumberSort.SortedUnique | Project1/src/scanConversion.js:127 | two ascending permutations of one multiset are equal, so any correct sort gives the same result |
| NumberSort.SortedOfPermutation | Project1/src/scanConversion.js:127 | inputs holding the same values sort to the same sequence |
| NumberSort.SortedIsSortedOf | Project1/src/scanConversion.js:127 | any ascending permutation of `s` is the reference sort of `s` |
| NumberSort.InsertNumber | Project1/src/scanConversion.js:127 | one insertion step keeps the sequence ascending and adds exactly `x` |
| NumberSort.SortNumbers | Project1/src/scanConversion.js:127 | the sort under `sortNumber` is ascending and a permutation of its input |
| ScanConversion.PairSpansSnoc | Project1/src/scanConversion.js:128-131 | two more entries draw one more span, between them |
| ScanConversion.PairUp | Project1/src/scanConversion.js:128-131 | the pairing loop draws the pairwise spans of the scanline |
| ScanConversion.FillScanline | Project1/src/scanConversion.js:126-131 | one scanline is sorted in place, other scanlines are untouched, and its pairwise spans are drawn |
| ScanConversion.EmitSpans | Project1/src/scanConversion.js:124-132 | every scanline is sorted, and the spans of all scanlines are drawn bottom up |
| ScanConversion.SweepPolygon | Project1/src/scanConversion.js:66-123 | the tables give every scanline the polygon's crossings up to order, an even number of them |
| ScanConversion.SweptMatchesHits | Project1/src/scanConversion.js:109-129 | the swept table holds each scanline's crossings up to order, an even number of them |
| ScanConversion.SortingSweptGivesSortedHits | Project1/src/scanConversion.js:126-127 | sorting the swept table gives each scanline's crossings in ascending order |
| ScanConversion.SweptSortedPairedIsFillSpec | Project1/src/scanConversion.js:126-131 | pairing the sorted sweep gives the reference fill |
| ScanConversion.SortedHitsAt | Project1/src/scanConversion.js:126-127 | scanline `k` of the reference table is the sorted crossings of scanline `minY + k` |
| ScanConversion.PairedPrefix | Project1/src/scanConversion.js:126-131 | the spans of the first scanlines depend only on those scanlines |
| ScanConversion.FillPolygon | Project1/src/scanConversion.js:43-133 | `fillPolygon` draws exactly the reference fill of the polygon in its first vertex's colour; the result depends only on the inputs, so two calls draw the same spans |
| FillProperties.PairSpansLength | Project1/src/scanConversion.js:128-131 | a scanline draws half as many spans as it has entries |
| FillProperties.PairSpansAt | Project1/src/scanConversion.js:128-131 | span `j` of a scanline joins its entries `2j` and `2j + 1` |
| FillProperties.PairSpansBounds | Project1/src/scanConversion.js:128-131 | every span of an ascending scanline is on that scanline, in the colour, left to right |
| FillProperties.PairSpansInDrawingOrder | Project1/src/scanConversion.js:128-131 | the spans of an ascending scanline come left to right without overlap |
| FillProperties.PairedBounds | Project1/src/scanConversion.js:126-131 | every span of sorted scanlines is in the colour, left to right, on a scanline with at least two crossings |
| FillProperties.PairedInDrawingOrder | Project1/src/scanConversion.js:126-131 | the spans of sorted scanlines come bottom to top, left to right |
| FillProperties.SortedHitsSorted | Project1/src/scanConversion.js:127 | every scanline of the reference table is ascending |
| FillProperties.FillBetweenShape | Project1/src/scanConversion.js:126-131 | the reference fill's spans are in the colour, left to right, below the top scanline, in drawing order |
| FillProperties.FillSpecShape | Project1/src/scanConversion.js:126-131 | every span of `fillPolygon` is in its first vertex's colour, runs left to right, and lies on a scanline from `minY` up to, but excluding, `maxY`; the spans come in drawing order |
| VertexDrag.FirstHit | Project1/src/scanConversion.js:157-163 | the first vertex within the radius of the mouse on both axes; none iff no vertex is |
| VertexDrag.ResolveUnreferenced | Project1/src/scanConversion.js:45-48 | moving a vertex a polygon does not list leaves that polygon's positions unchanged |
| VertexDrag.FrameIgnoresUnreferenced | Project1/src/scanConversion.js:184-188 | dragging a vertex that no polygon lists redraws the same spans |
| VertexDrag.Editor.constructor | Project1/src/scanConversion.js:199-200 | radius 10, no vertex dragged, no mouse position yet |
| VertexDrag.Editor.OnMouseDown | Project1/src/scanConversion.js:156-164 | the lowest-index vertex under the mouse becomes the dragged one; with none, the dragged vertex is unchanged; positions and mouse are unchanged |
| VertexDrag.Editor.OnMouseUp | Project1/src/scanConversion.js:168-170 | nothing is dragged any more; nothing else changes |
| VertexDrag.Editor.OnMouseMove | Project1/src/scanConversion.js:173-189 | the mouse position is recorded; only the dragged vertex moves, to the mouse, followed by a full redraw; with nothing dragged, nothing moves and nothing is redrawn |
| VertexDrag.Editor.Redraw | Project1/src/scanConversion.js:141-150 | every polygon is filled, in polygon order |

## Left out

- `drawLine` and `drawCircle` (lines 10-40) are canvas output. A drawn span is a `Span` value in the result, and the vertex circles are not modelled.
- `redraw`'s `clearRect` is canvas output and is not modelled.
- `window.onload` sets up the canvas and event listeners and is not modelled. Only the initial `circleRadius` and `activeVertex` (lines 199-200) are in `Editor.constructor`.
- Reading the mouse coordinates out of a browser event (lines 176-182) is browser plumbing. `OnMouseMove` takes the coordinates as an `Option<Point>` parameter. `None` stands for an event whose `offsetX` and `layerX` are both 0 or absent (lines 176 and 179 test them for truthiness), which keeps the previous position.
- Before the first mouse move, `mouseX`/`mouseY` have never been assigned: the file first creates them by the implicit global assignment at line 177. A mouse-down then reads an undeclared name at line 158 and throws, or, if the configuration file declares them, compares `NaN`, which is false. Either way `activeVertex` stays as it was. The model writes this state as `mouse == None`, which hits no vertex, so `OnMouseDown` leaves `activeVertex` unchanged; the thrown error itself is not modelled.
- ActiveEdges.SweptXLinear: the repeated `+=` at line 120 accumulates IEEE-754 rounding error. The model uses exact real arithmetic instead, so a crossing that floating point would round the other way at a half is not captured.
- NumberSort.SortNumbers: the engine's `Array.prototype.sort` algorithm is not modelled. An insertion sort under `sortNumber` stands in for it. Any correct sort gives the same sequence (`NumberSort.SortedUnique`), so only the result matters.
- ScanConversion.FillPolygon: on an empty polygon the source throws at line 53. The model requires a non-empty polygon whose indices name existing vertices and colours, and the same holds for `Editor`'s polygons.
- The vertex, colour and polygon data and the canvas size (`vertex_pos`, `vertex_color`, `polygon`, `canvasSize`) come from a configuration file that is not part of this model. `Editor` takes them as constructor parameters.
- `Project2/src/Project2.js` and `Project3/src/js/Project3.js` are WebGL set-up and floating-point camera and fog code. They are not part of this model.
- `vertex_pos[activeVertex]` is an array shared with the configuration and updated field by field at lines 185-186. The model replaces the whole `Point` in the `vertexPos` sequence. Aliasing of vertex arrays is not modelled.
