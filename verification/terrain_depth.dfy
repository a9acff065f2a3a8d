/** The terrain renderer's depth key. Terrain objects do not leak into the
    cells below them: the depth comes from the bottom edge of the object's
    southernmost cell, whatever the sprite's drawing bounds. */
module TerrainDepth {
  import opened Common
  import opened DepthSpace
  import opened OverlayDepth

  /** GetDepthFromPosition for a terrain object whose southernmost cell is
      `southernmost` (as found by the base renderer's GetSouthernmostCell,
      which is not part of this model). The depth is that of the pixel row one
      cell below the cell's top-left corner, at the cell's level. The cell's
      coordinates are read without a null check, so a missing cell raises
      NullReferenceException even though the level read before it is guarded. */
  function TerrainDepthFromPosition(c: DepthConstants, m: MapView, southernmost: Option<MapTile>, bounds: Rectangle): (r: Result<real, Exception>)
    requires ValidMap(m)
    ensures r.Failure? <==> southernmost.None?
    ensures r.Success? ==>
      r.value == PositionDepth(c, m, m.topLeftOf(southernmost.value.coords).y + c.cellSizeY, southernmost.value.level)
  {
    var height := match southernmost case None => 0 case Some(cell) => cell.level;
    match southernmost
    case None => Failure(NullReference)
    case Some(cell) =>
      var rowY := m.topLeftOf(cell.coords).y + c.cellSizeY;
      Success((rowY as real / m.heightInPixelsWithCellHeight as real) * c.downwardsDepthRenderSpace
        + height as real * c.depthRenderStep)
  }

  /** The drawing bounds play no part in a terrain object's depth. */
  lemma TerrainDepthIgnoresBounds(c: DepthConstants, m: MapView, southernmost: Option<MapTile>, b1: Rectangle, b2: Rectangle)
    requires ValidMap(m)
    ensures TerrainDepthFromPosition(c, m, southernmost, b1) == TerrainDepthFromPosition(c, m, southernmost, b2)
  {
  }

  /** Of two terrain objects whose southernmost cells project to the same
      pixel row, the one on the higher cell is strictly deeper. */
  lemma TerrainDepthIncreasesWithLevel(c: DepthConstants, m: MapView, cell1: MapTile, cell2: MapTile, bounds: Rectangle)
    requires Valid(c) && ValidMap(m)
    requires m.topLeftOf(cell1.coords).y == m.topLeftOf(cell2.coords).y
    requires cell1.level < cell2.level
    ensures TerrainDepthFromPosition(c, m, Some(cell1), bounds).value < TerrainDepthFromPosition(c, m, Some(cell2), bounds).value
  {
    var y := m.topLeftOf(cell1.coords).y + c.cellSizeY;
    PositionDepthLevelStrict(c, m, y, y, cell1.level, cell2.level);
  }

  /** At the same level, a southernmost cell no higher on the screen never
      gives a smaller depth, and one strictly further down a strictly greater one. */
  lemma TerrainDepthIncreasesDownward(c: DepthConstants, m: MapView, cell1: MapTile, cell2: MapTile, bounds: Rectangle)
    requires Valid(c) && ValidMap(m)
    requires m.topLeftOf(cell1.coords).y <= m.topLeftOf(cell2.coords).y
    requires cell1.level == cell2.level
    ensures TerrainDepthFromPosition(c, m, Some(cell1), bounds).value <= TerrainDepthFromPosition(c, m, Some(cell2), bounds).value
    ensures m.topLeftOf(cell1.coords).y < m.topLeftOf(cell2.coords).y ==>
      TerrainDepthFromPosition(c, m, Some(cell1), bounds).value < TerrainDepthFromPosition(c, m, Some(cell2), bounds).value
  {
    PositionDepthRowMonotone(c, m, m.topLeftOf(cell1.coords).y + c.cellSizeY, m.topLeftOf(cell2.coords).y + c.cellSizeY, cell1.level);
  }

  /** GetDepthAddition: the same terrain bias for every terrain object. */
  function TerrainDepthAddition(c: DepthConstants): (d: real)
    requires Valid(c)
    ensures d > 0.0 <==> c.terrainAdjustment > 0.0
    ensures d == 0.0 <==> c.terrainAdjustment == 0.0
  {
    ScaleSign(c.terrainAdjustment, c.depthEpsilon);
    c.depthEpsilon * c.terrainAdjustment
  }

  /** Terrain objects are biased below ordinary overlays exactly when the
      terrain adjustment is the lower one: both biases are the same positive
      multiple of their adjustments. */
  lemma TerrainBelowOverlayIffAdjustedLower(c: DepthConstants)
    requires Valid(c)
    ensures TerrainDepthAddition(c) < FlatOverlayAddition(c) <==> c.terrainAdjustment < c.overlayAdjustment
  {
    ScaleSign(c.overlayAdjustment - c.terrainAdjustment, c.depthEpsilon);
    assert FlatOverlayAddition(c) - TerrainDepthAddition(c) == c.depthEpsilon * (c.overlayAdjustment - c.terrainAdjustment);
  }
}
