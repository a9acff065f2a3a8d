/** What the object renderers' depth computations share: the rendering
    constants, the map as the renderers see it, and the position-related
    depth of a pixel row. Depths are C# floats; here they are reals. */
module DepthSpace {
  import opened Common

  /** The editor's rendering constants (Constants and ObjectDepthAdjustments)
      that the depth computations read. */
  datatype DepthConstants = DepthConstants(
    cellSizeX: int,
    cellSizeY: int,
    cellHeight: int,
    downwardsDepthRenderSpace: real,
    depthRenderStep: real,
    depthEpsilon: real,
    overlayAdjustment: real,
    terrainAdjustment: real)

  /** The sizes and depth scales are positive. */
  predicate Valid(c: DepthConstants) {
    && c.cellSizeX > 0
    && c.cellSizeY > 0
    && c.cellHeight > 0
    && c.downwardsDepthRenderSpace > 0.0
    && c.depthRenderStep > 0.0
    && c.depthEpsilon > 0.0
  }

  /** A map cell: its coordinates and its height level. */
  datatype MapTile = MapTile(coords: Point, level: int)

  /** The map as the renderers read it: its cells, its height in pixels
      including cell heights, and the projection of a cell to the top-left
      pixel of its isometric diamond (CellMath.CellTopLeftPointFromCellCoords). */
  datatype MapView = MapView(tiles: map<Point, MapTile>, heightInPixelsWithCellHeight: int, topLeftOf: Point -> Point)

  predicate ValidMap(m: MapView) {
    m.heightInPixelsWithCellHeight > 0
  }

  /** Map.GetTile: the cell at `p`, or None (C# null) outside the map. */
  function GetTile(m: MapView, p: Point): Option<MapTile> {
    if p in m.tiles then Some(m.tiles[p]) else None
  }

  /** XNA's Rectangle with its derived Bottom and Right edges. */
  datatype Rectangle = Rectangle(x: int, y: int, width: int, height: int) {
    function Bottom(): int { y + height }
    function Right(): int { x + width }
  }

  /** The position-related depth shared by the renderers: the pixel row
      normalised by the map's height and scaled into the downward depth
      space, plus one depth step per height level. */
  function PositionDepth(c: DepthConstants, m: MapView, pixelY: int, level: int): real
    requires ValidMap(m)
  {
    (pixelY as real / m.heightInPixelsWithCellHeight as real) * c.downwardsDepthRenderSpace
      + level as real * c.depthRenderStep
  }

  /** A lower pixel row never has a smaller depth at the same level, and a
      strictly lower one has a strictly greater depth. */
  lemma PositionDepthRowMonotone(c: DepthConstants, m: MapView, y1: int, y2: int, level: int)
    requires Valid(c) && ValidMap(m)
    requires y1 <= y2
    ensures PositionDepth(c, m, y1, level) <= PositionDepth(c, m, y2, level)
    ensures y1 < y2 ==> PositionDepth(c, m, y1, level) < PositionDepth(c, m, y2, level)
  {
    var h := m.heightInPixelsWithCellHeight as real;
    var gap := (y2 - y1) as real / h;
    assert y2 as real / h == y1 as real / h + gap;
    assert gap >= 0.0;
    assert y1 < y2 ==> gap > 0.0;
    ScaleMonotone(gap, c.downwardsDepthRenderSpace);
  }

  /** A product of a non-negative number and a positive one. */
  lemma ScaleMonotone(x: real, k: real)
    requires x >= 0.0 && k > 0.0
    ensures x * k >= 0.0
    ensures x > 0.0 ==> x * k > 0.0
  {
  }

  /** Scaling by a positive factor keeps the sign. */
  lemma ScaleSign(x: real, k: real)
    requires k > 0.0
    ensures k * x > 0.0 <==> x > 0.0
    ensures k * x == 0.0 <==> x == 0.0
  {
    if x >= 0.0 {
      ScaleMonotone(x, k);
    } else {
      ScaleMonotone(-x, k);
    }
  }

  /** A higher level gives a strictly greater depth even at a pixel row
      no lower than the other one. */
  lemma PositionDepthLevelStrict(c: DepthConstants, m: MapView, y1: int, y2: int, level1: int, level2: int)
    requires Valid(c) && ValidMap(m)
    requires y1 <= y2
    requires level1 < level2
    ensures PositionDepth(c, m, y1, level1) < PositionDepth(c, m, y2, level2)
  {
    PositionDepthRowMonotone(c, m, y1, y2, level1);
    ScaleMonotone((level2 - level1) as real, c.depthRenderStep);
    assert level2 as real * c.depthRenderStep == level1 as real * c.depthRenderStep + (level2 - level1) as real * c.depthRenderStep;
  }
}
