# Verified models of the board drivers

This project models, in Dafny, the parts of the thethings.iO library for the
STM32F746 Discovery board that compute something: the integer rasteriser and text
output of the LCD driver, the page-by-page writers of the EEPROM and QSPI flash
drivers, the MQTT value batcher, the socket `Select` class and the touch-screen driver
pair. `dafny verify dfyconfig.toml` checks all of it.

Drivers that change state are classes whose methods keep the loops of the C and C++
sources; every method is proved against a definition that does not mention the loop,
and the lemmas are about those definitions. The sources' 8, 16 and 32-bit variables are
converted explicitly (`CInt`) wherever a loop assigns them.

| files | subject |
|---|---|
| `CInt`, `Geometry`, `Options`, `Frame` | C integer conversions, points, optional values, the frame buffer and the fill engine |
| `LineGeometry`, `LineWalk`, `LineDirection` | Bresenham lines |
| `CircleGeometry`, `CircleWalk`, `CircleCurve`, `DiscGeometry` | circle outlines and discs |
| `PolygonGeometry`, `LineSymmetry`, `SweepGeometry`, `TriangleCover`, `PolygonInterior`, `PolygonExtent`, `PolygonDistance`, `SweepHoles`, `SweepSizes` | triangles and polygons: what the fans of FillPolygon paint, that they leave no hole, how far they reach, and which triangles a single sweep fills |
| `EllipseGeometry`, `TextGeometry` | the ellipse error loop, text |
| `Lcd` | the drawing functions themselves, over one frame buffer |
| `Bus`, `Paging`, `PagedJob`, `Eeprom`, `NorFlash`, `FlashJob`, `Qspi`, `MemoryClients` | paged memories and their drivers |
| `Decimal`, `Batcher`, `BatchJson` | the MQTT value batcher and its text |
| `SocketSelect` | the `Select` class |
| `Touch` | the touch controller and `BSP_TS_GetState` |

## What the devices are taken to do

- Frame buffer: one word per pixel, word `y*XSize + x`. The DMA2D engine writes `ySize`
  rows of `xSize` words, `OffLine` words apart.
- EEPROM: a write wraps at the end of its page. Each transfer may succeed, be lost, or be
  stored and still report failure; which of these happens, at every step, is an arbitrary
  parameter of the model.
- Flash: programming only clears bits and wraps inside a page; program and erase are ignored
  unless the write-enable latch is set and no operation is in progress; the latch drops when
  the operation completes. An operation completes while the driver polls for it, not between
  two commands, and a busy device does not answer reads. Every bus phase and every wait may
  fail as above.
- The network stack's answer to `select()` and the touch controller's registers are
  parameters of the call.

## Where the code does not do what its interface suggests

Each of these is proved, with its exact condition or a concrete input.

- A line drawn from the other end can paint different pixels (`LineDirection.LineDirection`).
- One `FillTriangle` call can leave holes (`TriangleCover.OneSweepIsNotEnough`); which triangles
  it fills at every size is decided exactly by how the first edge leans
  (`SweepSizes.FilledAtEverySize`). The three calls `FillPolygon` makes for every edge never
  leave one (`PolygonInterior.FillLeavesNoHoles`).
- `FillPolygon` can paint outside the polygon (`PolygonExtent.FillPaintsOutside`), though never
  a whole pixel from its fans (`FillStaysNear`), and never a whole pixel from the polygon itself
  when every edge has the centre on the same side (`PolygonDistance.FillStaysNearPolygon`).
- An ellipse more than one and a half times as wide as high leaves the box of its radii
  (`EllipseGeometry.EllipseInBox`).
- An exactly full line of text runs over the right edge when the character width divides the
  screen width, as with the 5-pixel font on the 480-pixel screen (`TextGeometry.FitsIff`).
- A key with a quote or NUL character breaks the batch it is in (`Batcher.PayloadRoundTrip`).
- A flash write that follows one whose last wait was lost drops its first page and still
  reports success (`MemoryClients.LoseAPage`); this happens only right after a failed call
  (`Qspi.IgnoredOnlyAfterFailure`).
- A circle of radius 0 makes the unsigned `current_y` wrap, the loop goes on, and the next pass
  draws in the columns beside the centre; radius 1 is the least allowed
  (`CircleWalk.RadiusZeroWraps`).

## Model

| member | source | states |
|---|---|---|
| Frame.StrideIsRect | thethingsiO-DISCO_F746NG-http/BSP_DISCO_F746NG/stm32746g_discovery_lcd.c:1470-1497 | a DMA fill whose row length plus gap is the screen width (or that has one row) touches exactly the pixels of a rectangle and no other word |
| Frame.PaintedRect | thethingsiO-DISCO_F746NG-http/BSP_DISCO_F746NG/stm32746g_discovery_lcd.c:985-1003 | a painted rectangle read back pixel by pixel: the word of a pixel has the colour if and only if the pixel is in the rectangle |
| Lcd.Display.ShownPixel | thethingsiO-DISCO_F746NG-http/BSP_DISCO_F746NG/stm32746g_discovery_lcd.c:904-915 | what the drawing functions promise, read back from the buffer: the word of a pixel on the screen is the text colour if the pixel is in the area painted, and the old one if not |
| Lcd.Display.DrawPixel | thethingsiO-DISCO_F746NG-http/BSP_DISCO_F746NG/stm32746g_discovery_lcd.c:904-915 | sets word y*XSize + x of the frame buffer and no other, checking nothing: for a pixel on the screen that is exactly this pixel, no two pixels sharing a word; one past the right edge is one of the next row |
| Lcd.Display.LLFillBuffer | thethingsiO-DISCO_F746NG-http/BSP_DISCO_F746NG/stm32746g_discovery_lcd.c:1470-1497 | every word of the strided rows gets the colour, every other word of the buffer is unchanged |
| Lcd.Display.DrawHLine | thethingsiO-DISCO_F746NG-http/BSP_DISCO_F746NG/stm32746g_discovery_lcd.c:652-668 | paints exactly the pixels of a one-row rectangle |
| Lcd.Display.DrawVLine | thethingsiO-DISCO_F746NG-http/BSP_DISCO_F746NG/stm32746g_discovery_lcd.c:677-693 | paints exactly the pixels of a one-column rectangle |
| Lcd.Display.FillRect | thethingsiO-DISCO_F746NG-http/BSP_DISCO_F746NG/stm32746g_discovery_lcd.c:985-1003 | paints exactly the rectangle |
| Lcd.Display.DrawLine | thethingsiO-DISCO_F746NG-http/BSP_DISCO_F746NG/stm32746g_discovery_lcd.c:703-768 | the running-numerator loop, in 16-bit variables, paints exactly the closed-form pixels of the line |
| LineWalk.OnCoursePoint | thethingsiO-DISCO_F746NG-http/BSP_DISCO_F746NG/stm32746g_discovery_lcd.c:752-767 | at every loop head the numerator is in [0, den) and the position is the closed form: minor offset floor((den/2 + k*num_add)/den) after k steps |
| LineWalk.StepDoesNotWrap | thethingsiO-DISCO_F746NG-http/BSP_DISCO_F746NG/stm32746g_discovery_lcd.c:755-766 | with coordinates below 16384 no 16-bit variable of the loop ever overflows, on any pass of any line |
| LineGeometry.LineIsRounded | thethingsiO-DISCO_F746NG-http/BSP_DISCO_F746NG/stm32746g_discovery_lcd.c:709-767 | the pixels without the loop: one in each column from end to end (in each row, when the line is steep), the one nearest to the ideal line, ties going forward |
| LineGeometry.LineEnds | thethingsiO-DISCO_F746NG-http/BSP_DISCO_F746NG/stm32746g_discovery_lcd.c:709-767 | the line starts at its first point and ends at its second |
| LineGeometry.LineWithinHalfPixel | thethingsiO-DISCO_F746NG-http/BSP_DISCO_F746NG/stm32746g_discovery_lcd.c:736-767 | every pixel is within half a pixel of the ideal line: twice the cross product with the direction is at most the longer side |
| LineGeometry.LineIsConnected | thethingsiO-DISCO_F746NG-http/BSP_DISCO_F746NG/stm32746g_discovery_lcd.c:752-767 | consecutive pixels are distinct 8-neighbours |
| LineDirection.MinorFromOtherEnd | thethingsiO-DISCO_F746NG-http/BSP_DISCO_F746NG/stm32746g_discovery_lcd.c:736-767 | walking from the other end rounds every step the same way except at an exact tie, where it differs by one pixel |
| LineDirection.LineDirection | thethingsiO-DISCO_F746NG-http/BSP_DISCO_F746NG/stm32746g_discovery_lcd.c:703-768 | a line paints the same pixels from either end if and only if its longer side, with the factors of two shared with the shorter side cancelled, is odd; every odd longer side qualifies |
| LineDirection.DirectionMatters | thethingsiO-DISCO_F746NG-http/BSP_DISCO_F746NG/stm32746g_discovery_lcd.c:703-768 | the property is false in general: every 2-by-1 line depends on its direction |
| LineSymmetry.LineMirrors | thethingsiO-DISCO_F746NG-http/BSP_DISCO_F746NG/stm32746g_discovery_lcd.c:709-767 | a line turned over along either axis is the line of the turned end points, pixel by pixel |
| LineSymmetry.LineSwaps | thethingsiO-DISCO_F746NG-http/BSP_DISCO_F746NG/stm32746g_discovery_lcd.c:736-767 | exchanging x and y exchanges them in every pixel of the line: the two branches of the code are one algorithm |
| SweepGeometry.SegmentIsOnLine | thethingsiO-DISCO_F746NG-http/BSP_DISCO_F746NG/stm32746g_discovery_lcd.c:703-768 | a line passes through every lattice point of the segment between its ends |
| Lcd.Display.DrawCircle | thethingsiO-DISCO_F746NG-http/BSP_DISCO_F746NG/stm32746g_discovery_lcd.c:796-835 | the add-only loop with its unsigned 32-bit variables paints exactly the pixels whose larger offset is the rounded square root for the smaller one |
| CircleWalk.NextTracks | thethingsiO-DISCO_F746NG-http/BSP_DISCO_F746NG/stm32746g_discovery_lcd.c:825-833 | every pass keeps decision = 2(x+1)^2 + y^2 + (y-1)^2 - 2R^2 with no wrap-around although signed and unsigned operands are mixed, x advances by one, and y - x strictly falls, so the loop ends |
| CircleGeometry.DecisionPicks | thethingsiO-DISCO_F746NG-http/BSP_DISCO_F746NG/stm32746g_discovery_lcd.c:825-833 | the sign of the decision variable selects the next rounded square root, and decision stays within 4(x-y)+3 and 4x+3 |
| CircleGeometry.BandIsNearestRoot | thethingsiO-DISCO_F746NG-http/BSP_DISCO_F746NG/stm32746g_discovery_lcd.c:806-834 | the plotted y is the integer nearest to sqrt(R^2 - x^2): y - 1/2 < sqrt(R^2 - x^2) < y + 1/2 |
| CircleGeometry.BandUnique | thethingsiO-DISCO_F746NG-http/BSP_DISCO_F746NG/stm32746g_discovery_lcd.c:806-834 | there is only one such y for each x |
| CircleGeometry.HeadAtExit | thethingsiO-DISCO_F746NG-http/BSP_DISCO_F746NG/stm32746g_discovery_lcd.c:806-834 | when x has passed y no pixel of the outline is left out |
| CircleGeometry.OutlineWithinHalfPixel | thethingsiO-DISCO_F746NG-http/BSP_DISCO_F746NG/stm32746g_discovery_lcd.c:796-835 | every outline pixel is less than half a pixel from the circle of radius R, measured along its radius |
| CircleGeometry.CircleIsRound | thethingsiO-DISCO_F746NG-http/BSP_DISCO_F746NG/stm32746g_discovery_lcd.c:796-835 | the same for every pixel painted, each with its mirror images in both axes and the diagonal |
| CircleCurve.OctantPrev | thethingsiO-DISCO_F746NG-http/BSP_DISCO_F746NG/stm32746g_discovery_lcd.c:825-833 | consecutive octant columns differ by at most one row |
| CircleCurve.OctantToMirror | thethingsiO-DISCO_F746NG-http/BSP_DISCO_F746NG/stm32746g_discovery_lcd.c:806-834 | the octant goes on until it touches its mirror image in the diagonal: the two are joined by touching outline pixels |
| CircleCurve.ArcMembers | thethingsiO-DISCO_F746NG-http/BSP_DISCO_F746NG/stm32746g_discovery_lcd.c:806-834 | from the top of the octant to its mirror image every outline offset between the two is visited, and nothing else |
| CircleGeometry.OutlineSymmetric | thethingsiO-DISCO_F746NG-http/BSP_DISCO_F746NG/stm32746g_discovery_lcd.c:814-823 | the outline is the same after reflection in either axis or the diagonal: its eight-fold symmetry |
| CircleCurve.OutlineIsCycle | thethingsiO-DISCO_F746NG-http/BSP_DISCO_F746NG/stm32746g_discovery_lcd.c:796-835 | for every R >= 1 the outline is one closed curve: a cycle through exactly its pixels, each visited once, consecutive ones touching and the last touching the first |
| CircleCurve.CircleIsCycle | thethingsiO-DISCO_F746NG-http/BSP_DISCO_F746NG/stm32746g_discovery_lcd.c:796-835 | and the pixels painted around any centre form such a cycle |
| CircleCurve.OutlineIsConnected | thethingsiO-DISCO_F746NG-http/BSP_DISCO_F746NG/stm32746g_discovery_lcd.c:796-835 | any two outline pixels are joined by a chain of touching outline pixels, for every R >= 1 |
| CircleCurve.OutlineIsClosed | thethingsiO-DISCO_F746NG-http/BSP_DISCO_F746NG/stm32746g_discovery_lcd.c:796-835 | hence it has no ends: every pixel of it touches two others |
| Lcd.Display.FillCircle | thethingsiO-DISCO_F746NG-http/BSP_DISCO_F746NG/stm32746g_discovery_lcd.c:1012-1052 | paints exactly the row-wise hull of the DrawCircle outline |
| DiscGeometry.SpansGrow | thethingsiO-DISCO_F746NG-http/BSP_DISCO_F746NG/stm32746g_discovery_lcd.c:1025-1048 | each pass adds exactly the half-open row spans of one more octant column, and none of the guards for zero lengths loses a pixel |
| DiscGeometry.SpansAtExit | thethingsiO-DISCO_F746NG-http/BSP_DISCO_F746NG/stm32746g_discovery_lcd.c:1025-1051 | the spans of all passes together with the outline are the disc |
| DiscGeometry.DiscCovers | thethingsiO-DISCO_F746NG-http/BSP_DISCO_F746NG/stm32746g_discovery_lcd.c:1012-1052 | every offset with dx^2 + dy^2 <= R^2 is painted |
| DiscGeometry.DiscWithin | thethingsiO-DISCO_F746NG-http/BSP_DISCO_F746NG/stm32746g_discovery_lcd.c:1012-1052 | every painted offset has 4(dx^2 + dy^2) < (2R+1)^2 |
| DiscGeometry.DiscRow | thethingsiO-DISCO_F746NG-http/BSP_DISCO_F746NG/stm32746g_discovery_lcd.c:1012-1052 | each of the 2R+1 rows is one unbroken span whose ends are outline pixels, and no other row is touched |
| DiscGeometry.DiscIsRound | thethingsiO-DISCO_F746NG-http/BSP_DISCO_F746NG/stm32746g_discovery_lcd.c:1012-1052 | for the pixels painted around any centre: all within R are painted, and none as far out as R + 1/2 |
| DiscGeometry.DiscSpans | thethingsiO-DISCO_F746NG-http/BSP_DISCO_F746NG/stm32746g_discovery_lcd.c:1012-1052 | and each row of them is one centred span between two pixels that DrawCircle paints |
| Lcd.Display.FillTriangle | thethingsiO-DISCO_F746NG-http/BSP_DISCO_F746NG/stm32746g_discovery_lcd.c:1392-1458 | paints exactly the lines from each pixel of the first edge to the third corner |
| PolygonGeometry.TriangleIsSwept | thethingsiO-DISCO_F746NG-http/BSP_DISCO_F746NG/stm32746g_discovery_lcd.c:1392-1458 | p is painted if and only if it is on the line to the third corner from some pixel of the line between the first two |
| SweepGeometry.HitIsOnLine | thethingsiO-DISCO_F746NG-http/BSP_DISCO_F746NG/stm32746g_discovery_lcd.c:1446-1457 | the line from f back to the third corner passes through w whenever w is on the near side of f and the cross product of the two is less than half the longer side of the line |
| SweepGeometry.FacingSweeps | thethingsiO-DISCO_F746NG-http/BSP_DISCO_F746NG/stm32746g_discovery_lcd.c:1392-1458 | when the edge rises like the ray from the corner to w, one of the two edge pixels on either side of the ray has a line through w, from whichever end the edge is walked |
| SweepGeometry.FarSweeps | thethingsiO-DISCO_F746NG-http/BSP_DISCO_F746NG/stm32746g_discovery_lcd.c:1392-1458 | so it has when the edge is as far away along one axis as w is along both together |
| TriangleCover.SomeCornerServes | thethingsiO-DISCO_F746NG-http/BSP_DISCO_F746NG/stm32746g_discovery_lcd.c:1109-1116 | for every point in the box of a triangle one of the two cases holds at one of the three corners |
| TriangleCover.FanCovers | thethingsiO-DISCO_F746NG-http/BSP_DISCO_F746NG/stm32746g_discovery_lcd.c:1109-1111 | the three sweeps of one triangle paint every lattice point of it, corners and edges included |
| TriangleCover.OneSweepSuffices | thethingsiO-DISCO_F746NG-http/BSP_DISCO_F746NG/stm32746g_discovery_lcd.c:1392-1458 | one FillTriangle call paints every lattice point of the triangle when the edge it walks is level or upright, or its ends lie in one quadrant seen from the third corner and it leans like that quadrant's diagonal |
| TriangleCover.OneSweepIsNotEnough | thethingsiO-DISCO_F746NG-http/BSP_DISCO_F746NG/stm32746g_discovery_lcd.c:1392-1458 | otherwise one FillTriangle call can leave holes, in triangles of any size: the point (n, n) of the triangle (n, n+1), (n+1, n), (0, 0) |
| TriangleCover.LeansOutwardIsNotNeeded | thethingsiO-DISCO_F746NG-http/BSP_DISCO_F746NG/stm32746g_discovery_lcd.c:1392-1458 | for a single triangle the condition is not a necessary one: a triangle without it that one call fills |
| SweepHoles.StepMisses | thethingsiO-DISCO_F746NG-http/BSP_DISCO_F746NG/stm32746g_discovery_lcd.c:1446-1457 | on an edge running down to the right, when two consecutive pixels leave a point on either side of their lines by more than half a pixel, no line of the whole sweep passes through it |
| SweepHoles.DiagonalStep | thethingsiO-DISCO_F746NG-http/BSP_DISCO_F746NG/stm32746g_discovery_lcd.c:1446-1457 | the walk along a multiple of an edge takes a diagonal step soon after every lattice point the edge passes through |
| SweepSizes.FilledAtEverySize | thethingsiO-DISCO_F746NG-http/BSP_DISCO_F746NG/stm32746g_discovery_lcd.c:1392-1458 | for every triangle of non-zero area: one FillTriangle call paints every lattice point of the triangle and of each of its multiples if and only if its first edge leans outward |
| Lcd.Display.DrawPolygon | thethingsiO-DISCO_F746NG-http/BSP_DISCO_F746NG/stm32746g_discovery_lcd.c:843-861 | with at least two points, paints the outline and nothing else; with fewer, nothing |
| PolygonGeometry.PolygonMembers | thethingsiO-DISCO_F746NG-http/BSP_DISCO_F746NG/stm32746g_discovery_lcd.c:843-861 | the outline: p is painted if and only if it is on the line of some edge, every edge and the closing one counting |
| PolygonInterior.BoundaryIsDrawn | thethingsiO-DISCO_F746NG-http/BSP_DISCO_F746NG/stm32746g_discovery_lcd.c:843-861 | so every lattice point exactly on an edge is painted by DrawPolygon |
| Lcd.Display.FillPolygon | thethingsiO-DISCO_F746NG-http/BSP_DISCO_F746NG/stm32746g_discovery_lcd.c:1060-1118 | with at least two points, paints exactly the fans of all edges around the centre of the bounding box; with fewer, nothing |
| PolygonGeometry.FilledMembers | thethingsiO-DISCO_F746NG-http/BSP_DISCO_F746NG/stm32746g_discovery_lcd.c:1060-1118 | p is painted if and only if it is in the fan of some edge around the centre of the box, every edge and the closing one counting |
| PolygonGeometry.FanIsSwept | thethingsiO-DISCO_F746NG-http/BSP_DISCO_F746NG/stm32746g_discovery_lcd.c:1109-1116 | and in a fan if and only if one of the three sweeps of its triangle reaches it |
| Lcd.Display.VertexBounds | thethingsiO-DISCO_F746NG-http/BSP_DISCO_F746NG/stm32746g_discovery_lcd.c:1065-1090 | the min/max loop computes the bounding box of the vertices |
| PolygonGeometry.BoundsAreTight | thethingsiO-DISCO_F746NG-http/BSP_DISCO_F746NG/stm32746g_discovery_lcd.c:1065-1090 | the box holds every vertex and each of its sides passes through one |
| PolygonGeometry.FillCoversOutline | thethingsiO-DISCO_F746NG-http/BSP_DISCO_F746NG/stm32746g_discovery_lcd.c:1060-1118 | for every polygon of at least two points FillPolygon paints every pixel DrawPolygon paints, the closing edge included |
| PolygonInterior.TurnsOnlyInside | thethingsiO-DISCO_F746NG-http/BSP_DISCO_F746NG/stm32746g_discovery_lcd.c:1100-1117 | a triangle winds only around points inside it, with the sign of its orientation |
| PolygonInterior.TurnsOnceInside | thethingsiO-DISCO_F746NG-http/BSP_DISCO_F746NG/stm32746g_discovery_lcd.c:1100-1117 | and exactly once around each point of its interior |
| PolygonInterior.WindingFromFans | thethingsiO-DISCO_F746NG-http/BSP_DISCO_F746NG/stm32746g_discovery_lcd.c:1100-1117 | the winding number of a polygon is the sum of the turns of its fans, wherever the centre lies |
| PolygonInterior.FillLeavesNoHoles | thethingsiO-DISCO_F746NG-http/BSP_DISCO_F746NG/stm32746g_discovery_lcd.c:1060-1118 | for every polygon, convex or not, FillPolygon paints every lattice point around which the polygon winds and every lattice point on its edges |
| PolygonGeometry.FillStaysInBounds | thethingsiO-DISCO_F746NG-http/BSP_DISCO_F746NG/stm32746g_discovery_lcd.c:1060-1118 | FillPolygon paints nothing outside the bounding box of the vertices |
| PolygonGeometry.FillPaintsCentre | thethingsiO-DISCO_F746NG-http/BSP_DISCO_F746NG/stm32746g_discovery_lcd.c:1097-1117 | the centre of the bounding box is painted, whether or not the polygon contains it |
| PolygonExtent.FillPaintsOutside | thethingsiO-DISCO_F746NG-http/BSP_DISCO_F746NG/stm32746g_discovery_lcd.c:1097-1117 | so FillPolygon can paint outside the polygon: it paints a point in the gap of a letter U, which the U does not wind around and which is on none of its edges |
| PolygonExtent.FansLieInside | thethingsiO-DISCO_F746NG-http/BSP_DISCO_F746NG/stm32746g_discovery_lcd.c:1097-1117 | when every edge, the closing one included, has the centre on the same side, the polygon winds around every lattice point strictly inside a fan: no fan reaches outside |
| PolygonExtent.FacesIsNotNeeded | thethingsiO-DISCO_F746NG-http/BSP_DISCO_F746NG/stm32746g_discovery_lcd.c:1097-1117 | the converse fails: a triangle whose edges do not all face the centre and whose fans hold no lattice point outside it |
| PolygonExtent.SweepStaysNear | thethingsiO-DISCO_F746NG-http/BSP_DISCO_F746NG/stm32746g_discovery_lcd.c:1392-1458 | every pixel of one FillTriangle call is less than one pixel, measured along the axes, from a point of the triangle |
| PolygonExtent.SweepMargins | thethingsiO-DISCO_F746NG-http/BSP_DISCO_F746NG/stm32746g_discovery_lcd.c:1392-1458 | and not more than one pixel beyond any of its three edges |
| PolygonExtent.FillStaysNear | thethingsiO-DISCO_F746NG-http/BSP_DISCO_F746NG/stm32746g_discovery_lcd.c:1060-1118 | every pixel FillPolygon paints is less than one pixel from one of its fans |
| PolygonDistance.FillStaysNearPolygon | thethingsiO-DISCO_F746NG-http/BSP_DISCO_F746NG/stm32746g_discovery_lcd.c:1060-1118 | when every edge has the centre on the same side, every pixel FillPolygon paints is less than one pixel from a point of the closed polygon itself, one the polygon winds around or that lies on an edge |
| Lcd.Display.DrawEllipse | thethingsiO-DISCO_F746NG-http/BSP_DISCO_F746NG/stm32746g_discovery_lcd.c:871-895 | the loop ends and paints the four symmetric pixels of each of its cursors; for every pair of positive radii these are exactly the offsets of a set described without the loop, stretched along x |
| Lcd.Display.FillEllipse | thethingsiO-DISCO_F746NG-http/BSP_DISCO_F746NG/stm32746g_discovery_lcd.c:1128-1152 | the same with the two rows of each offset, each centred and ending on the outline |
| EllipseGeometry.EllipseRow | thethingsiO-DISCO_F746NG-http/BSP_DISCO_F746NG/stm32746g_discovery_lcd.c:1128-1152 | for any radii and centre, each of the 2 YRadius + 1 rows of the filled ellipse is one unbroken centred span whose two ends are pixels that DrawEllipse paints, and no other row is touched |
| EllipseGeometry.EllipseSymmetric | thethingsiO-DISCO_F746NG-http/BSP_DISCO_F746NG/stm32746g_discovery_lcd.c:871-895 | outline and fill are their own mirror images in both axes, and the outline is part of the fill |
| EllipseGeometry.EllipseOutline | thethingsiO-DISCO_F746NG-http/BSP_DISCO_F746NG/stm32746g_discovery_lcd.c:873-885 | for every pair of positive radii the outline is exactly the four corners of each drawn offset |
| EllipseGeometry.PassProgress | thethingsiO-DISCO_F746NG-http/BSP_DISCO_F746NG/stm32746g_discovery_lcd.c:887-892 | every pass either climbs one row or leaves y alone while the error strictly rises towards it, and x moves by at most one |
| EllipseGeometry.ErrorTermAlong | thethingsiO-DISCO_F746NG-http/BSP_DISCO_F746NG/stm32746g_discovery_lcd.c:873-894 | err always equals (x+1)^2 + (y+1)^2 - (YRadius^2 - 2 YRadius + 2 XRadius) |
| EllipseGeometry.CursorsAreRounded | thethingsiO-DISCO_F746NG-http/BSP_DISCO_F746NG/stm32746g_discovery_lcd.c:873-894 | every cursor is a rounded root on the circle whose squared radius is the constant of the error term, if and only if YRadius < 2 XRadius <= 3 YRadius |
| EllipseGeometry.CursorsAreRim | thethingsiO-DISCO_F746NG-http/BSP_DISCO_F746NG/stm32746g_discovery_lcd.c:873-894 | under that condition the cursors are all the offsets of the rim: none is missed, but for a diagonal one whose left neighbour is there |
| EllipseGeometry.CursorsAreDrawn | thethingsiO-DISCO_F746NG-http/BSP_DISCO_F746NG/stm32746g_discovery_lcd.c:873-894 | for every pair of positive radii the cursors are given without the loop: a tall ellipse is a single top pixel and the rim from column 1 on; a wide one the top row up to the rim and the rim below it; one wider than that the top row up to the diagonal, the next row from there to its end, and the rim below that |
| EllipseGeometry.EllipseIsDrawn | thethingsiO-DISCO_F746NG-http/BSP_DISCO_F746NG/stm32746g_discovery_lcd.c:871-895 | so for every pair of positive radii the pixels of the ellipse, outlined or filled, are given without the loop |
| EllipseGeometry.RowsCovered | thethingsiO-DISCO_F746NG-http/BSP_DISCO_F746NG/stm32746g_discovery_lcd.c:1139-1151 | no row between the top and the middle of the ellipse is skipped |
| EllipseGeometry.EllipseRowsFilled | thethingsiO-DISCO_F746NG-http/BSP_DISCO_F746NG/stm32746g_discovery_lcd.c:1128-1152 | FillEllipse leaves no row of the ellipse empty |
| EllipseGeometry.HalfWidth | thethingsiO-DISCO_F746NG-http/BSP_DISCO_F746NG/stm32746g_discovery_lcd.c:887-894 | the widest x reached is the integer nearest to sqrt(YRadius^2 - 2 YRadius + 2 XRadius) |
| EllipseGeometry.TouchesBox | thethingsiO-DISCO_F746NG-http/BSP_DISCO_F746NG/stm32746g_discovery_lcd.c:871-895 | for YRadius >= 2 the widest x is exactly YRadius if and only if YRadius < 2 XRadius <= 3 YRadius |
| EllipseGeometry.EllipseInBox | thethingsiO-DISCO_F746NG-http/BSP_DISCO_F746NG/stm32746g_discovery_lcd.c:871-895 | the drawn ellipse stays within its two radii if and only if 2 XRadius <= 3 YRadius (or it is the 2 by 1 ellipse), however the quotient x/k is rounded, as long as it is less than half a pixel off for each x the loop reaches |
| EllipseGeometry.CutQuotientIsNear | thethingsiO-DISCO_F746NG-http/BSP_DISCO_F746NG/stm32746g_discovery_lcd.c:871-885 | the exact quotient cut down to 16 bits is such a quotient for every pair of radii whose half width fits 16 bits |
| Lcd.Display.DrawChar | thethingsiO-DISCO_F746NG-http/BSP_DISCO_F746NG/stm32746g_discovery_lcd.c:1333-1380 | paints the bitmap of the character in ink and paper and no other pixel, for every font up to 24 pixels wide |
| TextGeometry.LineBits | thethingsiO-DISCO_F746NG-http/BSP_DISCO_F746NG/stm32746g_discovery_lcd.c:1349-1368 | testing the assembled word from the top bit down reads the bytes of the row in order, most significant bit first, for one, two or three bytes |
| TextGeometry.RowsInOrder | thethingsiO-DISCO_F746NG-http/BSP_DISCO_F746NG/stm32746g_discovery_lcd.c:561-564 | the table starts with the space and holds the characters one after the other, each row by row |
| TextGeometry.InkIsBit | thethingsiO-DISCO_F746NG-http/BSP_DISCO_F746NG/stm32746g_discovery_lcd.c:1344-1368 | pixel j of row i of a character is bit 7 - j % 8 of byte j / 8 of that row of the table |
| Lcd.Display.DisplayStringAt | thethingsiO-DISCO_F746NG-http/BSP_DISCO_F746NG/stm32746g_discovery_lcd.c:579-632 | draws min(length, XSize/Width) characters at ref_column + i*Width and changes nothing else, wherever the line starts: what runs over the right edge lands in the next rows |
| Lcd.Display.PrintedPixel | thethingsiO-DISCO_F746NG-http/BSP_DISCO_F746NG/stm32746g_discovery_lcd.c:579-632 | the printed text read back from the buffer: pixel j of row i of the k-th character, at ref_column + k*Width + j, has the text colour where its bit in the font table is one and the back colour where it is zero |
| TextGeometry.TextTouches | thethingsiO-DISCO_F746NG-http/BSP_DISCO_F746NG/stm32746g_discovery_lcd.c:621-631 | and every word that changed is such a pixel |
| TextGeometry.LoopTestHolds | thethingsiO-DISCO_F746NG-http/BSP_DISCO_F746NG/stm32746g_discovery_lcd.c:621-631 | the masked subtraction in the loop test holds exactly while whole cells are left in a line, for every text and wherever it starts |
| TextGeometry.CellsShowTheirCharacter | thethingsiO-DISCO_F746NG-http/BSP_DISCO_F746NG/stm32746g_discovery_lcd.c:621-631 | each cell ends up as the bitmap of its own character, the cells being disjoint |
| TextGeometry.TextStaysInCells | thethingsiO-DISCO_F746NG-http/BSP_DISCO_F746NG/stm32746g_discovery_lcd.c:621-631 | no pixel outside the cells is touched |
| TextGeometry.PrintOnScreen | thethingsiO-DISCO_F746NG-http/BSP_DISCO_F746NG/stm32746g_discovery_lcd.c:621-631 | a text that ends before the right edge is exactly its ink and paper in screen coordinates |
| Frame.WordFrom | thethingsiO-DISCO_F746NG-http/BSP_DISCO_F746NG/stm32746g_discovery_lcd.c:904-915 | a picture at most as wide as the screen keeps one word for each pixel even when it runs over the right edge, so its cells never overwrite each other |
| TextGeometry.Alignment | thethingsiO-DISCO_F746NG-http/BSP_DISCO_F746NG/stm32746g_discovery_lcd.c:593-619 | a text that fits in a line starts at xpos (left), ends xpos columns before the last whole cell (right), or has margins that differ by at most one column before xpos is added (centre), despite the unsigned subtraction |
| TextGeometry.ColumnIsExact | thethingsiO-DISCO_F746NG-http/BSP_DISCO_F746NG/stm32746g_discovery_lcd.c:590-619 | the unsigned subtraction and halving give the start column of exact arithmetic, modulo 2^16, for every text length and offset |
| TextGeometry.FitsIff | thethingsiO-DISCO_F746NG-http/BSP_DISCO_F746NG/stm32746g_discovery_lcd.c:585-619 | which texts stay on the screen, for every length, offset and alignment: if and only if the exact start column and the drawn text fit; mode by mode, as long as the column the alignment asks for (xpos, the free columns less xpos, or half of them plus xpos) is between -0x8000 and 0xFFFF, if and only if that column, or 1 when it is below 1 or above 0x7FFF, leaves room for the text. So a short text without an offset, or aligned right, always fits; and without an offset a text at least a line long, by at most 0x8000 pixels, fits if and only if the character width does not divide the screen width |
| Paging.PlanSplits | thethingsiO-DISCO_F746NG-http/BSP_DISCO_F746NG/stm32746g_discovery_qspi.c:233-298 | the page writes are contiguous, in order, cover the range exactly once and never cross a page |
| Paging.PlanCount | thethingsiO-DISCO_F746NG-http/BSP_DISCO_F746NG/stm32746g_discovery_qspi.c:233-298 | there is one page write for each page touched |
| Paging.PlanIsTheMinimum | thethingsiO-DISCO_F746NG-http/BSP_DISCO_F746NG/stm32746g_discovery_eeprom.c:288-418 | no split of the range has fewer chunks, and the plan is the only one with so few |
| Paging.BurstInPageIsFlat | thethingsiO-DISCO_F746NG-http/BSP_DISCO_F746NG/stm32746g_discovery_eeprom.c:246-270 | inside one page a wrapping page write is a flat write, for any way cells take up bytes |
| Paging.BurstWraps | thethingsiO-DISCO_F746NG-http/BSP_DISCO_F746NG/stm32746g_discovery_eeprom.c:219-227 | a page write across a page end writes its tail over the start of the page instead of after its end, for any data: the condition the driver has to respect is real |
| PagedJob.ChunkWritten | thethingsiO-DISCO_F746NG-http/BSP_DISCO_F746NG/stm32746g_discovery_eeprom.c:305-418 | one page write takes a buffer write from one page boundary to the next; if it fails, what is in memory is a page-bounded prefix of the data, the failing chunk wholly in or wholly out |
| PagedJob.StoppedInChunks | thethingsiO-DISCO_F746NG-http/BSP_DISCO_F746NG/stm32746g_discovery_eeprom.c:311-418 | what a failed write leaves behind, for both drivers: the k page writes sent are the first k of the plan, and memory holds the data of exactly the first k or the first k - 1 of them |
| Eeprom.Driver.WritePage | thethingsiO-DISCO_F746NG-http/BSP_DISCO_F746NG/stm32746g_discovery_eeprom.c:246-270 | sends one page write and waits; succeeds if and only if both steps go well, and calls the timeout callback for each that does not; on failure the chunk is wholly in or wholly out |
| Eeprom.Driver.WriteBuffer | thethingsiO-DISCO_F746NG-http/BSP_DISCO_F746NG/stm32746g_discovery_eeprom.c:281-423 | succeeds if and only if every step of every page write of the plan goes well, for every alignment and length: then the data is spliced in flat and the page writes sent are exactly the plan; otherwise a page-bounded prefix is in memory and the writes sent are a prefix of the plan |
| Eeprom.Driver.ReadBuffer | thethingsiO-DISCO_F746NG-http/BSP_DISCO_F746NG/stm32746g_discovery_eeprom.c:199-218 | returns the stored bytes if and only if its transfer goes well |
| MemoryClients.StoreInEeprom | thethingsiO-DISCO_F746NG-http/BSP_DISCO_F746NG/stm32746g_discovery_eeprom.c:199-423 | write then read succeeds if and only if every transfer and wait of both goes well; then the data comes back and every byte outside the range is unchanged |
| Qspi.Driver.EnableWrites | thethingsiO-DISCO_F746NG-http/BSP_DISCO_F746NG/stm32746g_discovery_qspi.c:699-737 | a successful return means the write-enable latch is set |
| Qspi.Driver.AwaitReady | thethingsiO-DISCO_F746NG-http/BSP_DISCO_F746NG/stm32746g_discovery_qspi.c:745-774 | a successful return means no operation is in progress |
| Qspi.Driver.RoomInPage | thethingsiO-DISCO_F746NG-http/BSP_DISCO_F746NG/stm32746g_discovery_qspi.c:233-240 | counting up in pages finds the room left in the first page |
| FlashJob.SendingStep | thethingsiO-DISCO_F746NG-http/BSP_DISCO_F746NG/stm32746g_discovery_qspi.c:263-298 | one more page takes a write from one page boundary to the next, from a ready or a busy start |
| FlashJob.LastWait | thethingsiO-DISCO_F746NG-http/BSP_DISCO_F746NG/stm32746g_discovery_qspi.c:263-298 | when only the last wait fails, all pages are programmed and the device is still busy |
| Qspi.Driver.WriteChunk | thethingsiO-DISCO_F746NG-http/BSP_DISCO_F746NG/stm32746g_discovery_qspi.c:265-292 | one pass of the page loop is exactly the composition enable, wait, program, wait when all five steps go well; with the last one lost the operation is left in progress; otherwise the command had no effect or its whole effect |
| Qspi.Driver.Write | thethingsiO-DISCO_F746NG-http/BSP_DISCO_F746NG/stm32746g_discovery_qspi.c:228-301 | succeeds if and only if every step goes well. Then every bit to clear is cleared as by one flat program, the program commands are exactly the plan and the device is ready; from a ready device no command is ignored, from a busy one exactly the first page is. On failure a page-bounded prefix is programmed; if only the last wait is lost, everything is and the device is left busy |
| Qspi.Driver.EraseOne | thethingsiO-DISCO_F746NG-http/BSP_DISCO_F746NG/stm32746g_discovery_qspi.c:308-344 | on success the block of that address is erased and the device is ready, unless it was busy at the start: then the memory is unchanged and the command was ignored |
| Qspi.Driver.Read | thethingsiO-DISCO_F746NG-http/BSP_DISCO_F746NG/stm32746g_discovery_qspi.c:188-220 | a successful read returns the stored bytes; from a busy device, whatever the lines carry |
| Qspi.Driver.Run | thethingsiO-DISCO_F746NG-http/BSP_DISCO_F746NG/stm32746g_discovery_qspi.c:228-344 | over any run of writes and erases, failing calls included, every call does what its contract says for the state it finds |
| Qspi.RunUntilFailure | thethingsiO-DISCO_F746NG-http/BSP_DISCO_F746NG/stm32746g_discovery_qspi.c:228-344 | from a ready device no program or erase command is ignored up to and including the first failing call, and the calls before it have the effect of their requests in order |
| Qspi.IgnoredOnlyAfterFailure | thethingsiO-DISCO_F746NG-http/BSP_DISCO_F746NG/stm32746g_discovery_qspi.c:228-344 | in any run a command is ignored only in a call that comes right after a failed one, and at most one in each |
| NorFlash.PageTakenIffReady | thethingsiO-DISCO_F746NG-http/BSP_DISCO_F746NG/stm32746g_discovery_qspi.c:265-298 | the steps of a page write take effect if and only if no operation was in progress at the start; a busy device with its latch set passes every wait and drops the page unreported |
| NorFlash.ProgramReadsBack | thethingsiO-DISCO_F746NG-http/BSP_DISCO_F746NG/stm32746g_discovery_qspi.c:228-301 | written data reads back if and only if no bit has to be set: each byte is covered by the byte already there |
| NorFlash.ErasedBlock | thethingsiO-DISCO_F746NG-http/BSP_DISCO_F746NG/stm32746g_discovery_qspi.c:308-344 | erasing sets the whole aligned block around the address to 0xFF and changes nothing else |
| NorFlash.EraseProgramRead | thethingsiO-DISCO_F746NG-http/BSP_DISCO_F746NG/stm32746g_discovery_qspi.c:188-344 | erasing every block touched, programming and reading gives the data back, and bytes outside the erased blocks are unchanged |
| MemoryClients.StoreInFlash | thethingsiO-DISCO_F746NG-http/BSP_DISCO_F746NG/stm32746g_discovery_qspi.c:188-344 | the three driver calls in sequence succeed if and only if each of their steps goes well (four for a block, five for a page, two to read), and then return exactly the data, for every address, size and list of blocks that covers the range |
| MemoryClients.LoseAPage | thethingsiO-DISCO_F746NG-http/BSP_DISCO_F746NG/stm32746g_discovery_qspi.c:228-344 | a page is lost without a report: after a write whose last wait is lost, the next write returns success and stores all but its first page, whatever is written where |
| MemoryClients.SameChunks | thethingsiO-DISCO_F746NG-http/BSP_DISCO_F746NG/stm32746g_discovery_eeprom.c:281-423 | with the same page size the EEPROM case analysis and the QSPI do-while send one and the same list of page writes, the unique shortest one, and both succeed if and only if two steps for each of its chunks on the one bus and five on the other go well |
| Batcher.Client.AddValue | thethingsiO-DISCO_F746NG-mqtt/main.cpp:26-37 | appends one item to the text and to the pending batch, with a comma exactly between items |
| Batcher.Client.Send | thethingsiO-DISCO_F746NG-mqtt/main.cpp:39-53 | publishes the text of the pending batch as a C string sees it and starts a new batch; nothing is lost from the history |
| Batcher.Client.Run | thethingsiO-DISCO_F746NG-mqtt/main.cpp:26-53 | over any run from the initial text nothing added is lost, repeated or reordered; with clean keys the published payloads decoded, followed by the pending batch, are the full list |
| Batcher.PayloadRoundTrip | thethingsiO-DISCO_F746NG-mqtt/main.cpp:26-53 | a payload decodes to its batch if and only if no key holds a quote or a NUL character (strlen cuts the payload at a NUL) |
| Batcher.PayloadsAreDistinct | thethingsiO-DISCO_F746NG-mqtt/main.cpp:26-53 | payload text determines its batch when keys are clean |
| Batcher.PayloadOfTwo | thethingsiO-DISCO_F746NG-mqtt/main.cpp:26-53 | the text of a batch letter by letter |
| Batcher.QuotedKeysCollide | thethingsiO-DISCO_F746NG-mqtt/main.cpp:29-31 | for any two items there is a single item with a quoted key that has the same payload |
| Batcher.DecodeAllPayloads | thethingsiO-DISCO_F746NG-mqtt/main.cpp:39-53 | decoding all payloads in order gives the concatenation of their batches |
| BatchJson.PayloadIsJson | thethingsiO-DISCO_F746NG-mqtt/main.cpp:26-53 | when no key needs an escape, a payload is the text of a JSON object holding the array of key/value objects |
| Decimal.IntTextReadsBack | thethingsiO-DISCO_F746NG-mqtt/main.cpp:32-34 | the decimal text of any integer reads back as that integer |
| Decimal.IntTextIsShortest | thethingsiO-DISCO_F746NG-mqtt/main.cpp:32-34 | and is the shortest such text: a minus sign exactly for a negative number, a leading zero for zero alone |
| SocketSelect.Select.Set | thethingsiO-DISCO_F746NG-http/NetworkAPI/select.cpp:98-123 | registers a socket at the end of the list or lists of the mode unless it is there already; no duplicates ever arise |
| SocketSelect.Select.Unset | thethingsiO-DISCO_F746NG-http/NetworkAPI/select.cpp:125-154 | removes the socket from the list or lists of the mode, keeping the order of the others |
| SocketSelect.Select.Wait | thethingsiO-DISCO_F746NG-http/NetworkAPI/select.cpp:36-89 | rewinds both cursors; what the get functions will return is the open ready sockets of each list in order; the first argument of select() is one more than the largest descriptor (or 1) |
| SocketSelect.Select.GetReadable | thethingsiO-DISCO_F746NG-http/NetworkAPI/select.cpp:179-200 | returns the first socket at or after the cursor that is open and whose descriptor is in the set, and moves past it, or null when there is none, without disturbing the write side |
| SocketSelect.Select.GetWritable | thethingsiO-DISCO_F746NG-http/NetworkAPI/select.cpp:156-177 | the same for the write list |
| SocketSelect.Select.DrainReads | thethingsiO-DISCO_F746NG-http/NetworkAPI/select.cpp:179-200 | repeated calls return every pending socket once, in order, then null for ever |
| SocketSelect.Select.Serve | thethingsiO-DISCO_F746NG-http/NetworkAPI/select.cpp:36-200 | after a wait each side yields exactly the sockets of its list that are open (handle not -1) and whose handle is in the set reported ready, in list order, each once |
| SocketSelect.ReadyMembers | thethingsiO-DISCO_F746NG-http/NetworkAPI/select.cpp:156-200 | the sockets yielded are exactly the listed ones with a handle that is not -1 and is in the set, and distinct when the list is |
| SocketSelect.ReadyInOrder | thethingsiO-DISCO_F746NG-http/NetworkAPI/select.cpp:156-200 | and they keep the order of the list |
| SocketSelect.WithoutCuts | thethingsiO-DISCO_F746NG-http/NetworkAPI/select.cpp:125-154 | erasing the entry found removes the socket from a list without duplicates and leaves no duplicates |
| SocketSelect.Select.InReadList | thethingsiO-DISCO_F746NG-http/NetworkAPI/select.cpp:215-226 | the search finds the socket or reports the end exactly when it is not listed |
| Touch.Controller.DetectTouch | thethingsiO-DISCO_F746NG-http/BSP_DISCO_F746NG/ft5336.c:224-246 | stores and returns the touch count, an impossible count being zero, and resets the hidden index |
| Touch.Controller.GetXY | thethingsiO-DISCO_F746NG-http/BSP_DISCO_F746NG/ft5336.c:256-369 | reads the coordinates of the point at the hidden index and moves it on; past the last point nothing changes |
| Touch.FingerIsReported | thethingsiO-DISCO_F746NG-http/BSP_DISCO_F746NG/ft5336.c:256-369 | the registers of a touch with 12-bit coordinates are decoded to exactly those coordinates, weight, area and event, with x and y exchanged |
| Touch.FileHolds | thethingsiO-DISCO_F746NG-http/BSP_DISCO_F746NG/ft5336.c:461-570 | every list of up to five touches has a register file |
| Touch.Controller.GetTouchInfo | thethingsiO-DISCO_F746NG-http/BSP_DISCO_F746NG/ft5336.c:461-570 | weight, area and event of an explicit point, without moving the hidden index; past the touch count the outputs keep their values |
| Touch.Screen.GetState | thethingsiO-DISCO_F746NG-http/BSP_DISCO_F746NG/stm32746g_discovery_ts.c:219-329 | slot i receives point i for every reported point, other slots keep their values, the hidden index ends at the touch count, and the status is an error exactly for an unknown gesture |
| Touch.ReportFingers | thethingsiO-DISCO_F746NG-http/BSP_DISCO_F746NG/stm32746g_discovery_ts.c:219-329 | seen from the panel: for any registers that hold up to five touches slot i gets (y, x), weight, area and event of touch i, each anchor moves exactly when the touch is more than five steps away, and each of the seven gesture codes is reported as its gesture, any other as an error |
| Touch.StaysAnchored | thethingsiO-DISCO_F746NG-http/BSP_DISCO_F746NG/stm32746g_discovery_ts.c:237-288 | an anchor jumps to a sample more than five steps away and otherwise stays; so after every call each anchor is within Manhattan distance five of the latest sample of its slot, hence over any run of calls |

## Left out

- Lcd.Display.DrawLine: coordinates are required to be on the screen and the screen at most 16384 pixels wide and high, because the 16-bit numerator reaches twice the longer side.
- Lcd.Display.DrawCircle: all eight octants are required to be on the screen and the radius to be at least 1; the code checks neither.
- Lcd.Display.FillPolygon: at most 32767 points, because the vertex counter is 16 bits wide.
- TriangleCover.OneSweepSuffices: sufficient for a single triangle, not necessary (LeansOutwardIsNotNeeded); the condition is exact for a triangle taken at every size (SweepSizes.FilledAtEverySize).
- PolygonExtent.FansLieInside: sufficient, not necessary (FacesIsNotNeeded).
- Lcd.Display.DrawEllipse: the floating-point quotient `x/k` is an arbitrary function of x; overflow of the C `int` error term is not modelled. With a radius of zero or less only the loop itself, as a recursion, describes the cursors.
- EllipseGeometry.EllipseInBox: floating-point arithmetic itself is not modelled; its result is taken to be less than half a pixel off for each x the loop reaches.
- Lcd.Display.DisplayStringAt: the text is required to be printable and the buffer to hold its cells; the length-counting loop is the length of the sequence.
- Lcd.Display.LLFillBuffer: the engine is taken to succeed; the driver silently skips the fill when the HAL reports an error.
- The RGB565 pixel format and the two layers: one ARGB8888 layer is modelled; BSP_LCD_ReadPixel, DrawBitmap, DrawRect, colour and layer setters would add only easy members.
- Eeprom.Driver.WriteBuffer: a chunk is stored whole or not at all; a transfer torn in the middle of a page is not modelled. BSP_EEPROM_Init and the callback body are left out.
- Qspi.Driver.Write: an operation that completes by itself between two commands is not modelled. Chip erase, reset, dummy-cycle configuration and memory-mapped mode are left out.
- Batcher.Client.Send: whether the publish succeeds is not modelled, since the code drops the batch either way; message_count does not overflow.
- SocketSelect.Select.Wait: the conversion of the timeout to seconds and microseconds is left out; an iterator is usable only while its list is unchanged since the last wait, as for any C++ vector.
- Touch.Screen.GetState: the registers do not change during one call; the other orientations and the scaling for other controllers are left out, because BSP_TS_Init selects the exchange of x and y and the address that skips them. The parallel arrays of the state are one sequence of slots.
- HAL, clock, GPIO and interrupt set-up, audio, camera, SD, SDRAM, Ethernet, the HTTP client and the main loops: register set-up, pass-through calls and user interface.
