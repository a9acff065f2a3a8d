/** The overlay renderer's depth key: the isometric row below the sprite's
    bottom edge plus the height of the overlay's cell, a per-category bias,
    and a further bias and draw-point lift for high bridges. */
module OverlayDepth {
  import opened Common
  import opened DepthSpace

  datatype Overlay = Overlay(overlayType: OverlayType, position: Point)

  /** The height the bridge deck is drawn at, in levels. */
  const BridgeHeight: int := 4

  /** The leak test compares a remainder of division by CellSizeY with one
      and a half cells; the remainder is always smaller than a whole cell, so
      the test never passes. */
  lemma LeakNeverApplies(c: DepthConstants, dy: int)
    requires Valid(c)
    ensures CsRem(dy, c.cellSizeY) <= (c.cellSizeY * 3) / 2
  {
    assert (c.cellSizeY * 3) / 2 == c.cellSizeY + c.cellSizeY / 2;
  }

  /** The first whole-cell boundary below the bottom edge, before the leak
      test: the cell's top plus one more cell than the truncated quotient. */
  function RowBoundary(c: DepthConstants, topLeft: Point, bottom: int): int
    requires Valid(c)
  {
    topLeft.y + (CsDiv(bottom - topLeft.y, c.cellSizeY) + 1) * c.cellSizeY
  }

  /** The boundary lies one cell minus the truncated remainder below the bottom edge. */
  lemma RowBoundaryOffset(c: DepthConstants, topLeft: Point, bottom: int)
    requires Valid(c)
    ensures RowBoundary(c, topLeft, bottom) == bottom + c.cellSizeY - CsRem(bottom - topLeft.y, c.cellSizeY)
    ensures (RowBoundary(c, topLeft, bottom) - topLeft.y) % c.cellSizeY == 0
  {
    var dy := bottom - topLeft.y;
    var q := CsDiv(dy, c.cellSizeY);
    assert (q + 1) * c.cellSizeY == q * c.cellSizeY + c.cellSizeY;
    MultipleMod(q + 1, c.cellSizeY);
  }

  lemma MultipleMod(k: int, b: int)
    requires b > 0
    ensures (k * b) % b == 0
  {
    var r := (k * b) % b;
    var d := (k * b) / b;
    assert k * b == d * b + r;
    assert (k - d) * b == r;
    if k - d >= 1 {
      MulAtLeast(k - d, b);
      assert false;
    } else if k - d <= -1 {
      MulAtLeast(d - k, b);
      assert false;
    }
  }

  /** The pixel row that selects the object's isometric row: the first
      whole-cell boundary of the object's cell grid strictly below the sprite's
      bottom edge, computed with C#'s truncating division. When the bottom edge
      lies above the cell's top, truncation picks a boundary one cell further down. */
  function OwningRowY(c: DepthConstants, topLeft: Point, bounds: Rectangle): (cellY: int)
    requires Valid(c)
    ensures cellY > bounds.Bottom()
    ensures bounds.Bottom() >= topLeft.y ==> cellY <= bounds.Bottom() + c.cellSizeY
    ensures bounds.Bottom() < topLeft.y ==> bounds.Bottom() + c.cellSizeY <= cellY < bounds.Bottom() + 2 * c.cellSizeY
    ensures (cellY - topLeft.y) % c.cellSizeY == 0
  {
    var dy := bounds.Bottom() - topLeft.y;
    var fraction := CsRem(dy, c.cellSizeY);
    var cellY := RowBoundary(c, topLeft, bounds.Bottom());
    var halfCell := c.cellSizeY / 2;
    LeakNeverApplies(c, dy);
    RowBoundaryOffset(c, topLeft, bounds.Bottom());
    if fraction > (c.cellSizeY * 3) / 2 && (bounds.x < topLeft.x || bounds.Right() > topLeft.x + c.cellSizeX)
    then cellY + halfCell
    else cellY
  }

  /** The owning row never moves up when the sprite's bottom edge moves down. */
  lemma OwningRowMonotone(c: DepthConstants, topLeft: Point, b1: Rectangle, b2: Rectangle)
    requires Valid(c)
    requires b1.Bottom() <= b2.Bottom()
    ensures OwningRowY(c, topLeft, b1) <= OwningRowY(c, topLeft, b2)
  {
    var q1 := CsDiv(b1.Bottom() - topLeft.y, c.cellSizeY);
    var q2 := CsDiv(b2.Bottom() - topLeft.y, c.cellSizeY);
    CsDivMonotone(b1.Bottom() - topLeft.y, b2.Bottom() - topLeft.y, c.cellSizeY);
    if q1 < q2 {
      MulAtLeast(q2 - q1, c.cellSizeY);
      assert (q2 + 1) * c.cellSizeY == (q1 + 1) * c.cellSizeY + (q2 - q1) * c.cellSizeY;
    }
    LeakNeverApplies(c, b1.Bottom() - topLeft.y);
    LeakNeverApplies(c, b2.Bottom() - topLeft.y);
  }

  /** The height level used for an overlay at `p`: the cell's level, or 0 when there is no cell. */
  function LevelAt(m: MapView, p: Point): (level: int)
    ensures p !in m.tiles ==> level == 0
    ensures p in m.tiles ==> level == m.tiles[p].level
  {
    match GetTile(m, p)
    case None => 0
    case Some(tile) => tile.level
  }

  /** The depth of an overlay drawn with bounds `bounds` on a cell of height `level`. */
  function OverlayDepthAtLevel(c: DepthConstants, m: MapView, position: Point, bounds: Rectangle, level: int): real
    requires Valid(c) && ValidMap(m)
  {
    var cellY := OwningRowY(c, m.topLeftOf(position), bounds);
    PositionDepth(c, m, cellY + level * c.cellHeight, level)
  }

  /** GetDepthFromPosition: total over all positions. Its depth is that of a
      pixel row strictly below the sprite's bottom edge, raised by the cell's
      height, and (for a sprite reaching into its cell) at most one cell below it. */
  function OverlayDepthFromPosition(c: DepthConstants, m: MapView, overlay: Overlay, bounds: Rectangle): (d: real)
    requires Valid(c) && ValidMap(m)
    ensures var h := LevelAt(m, overlay.position);
      PositionDepth(c, m, bounds.Bottom() + h * c.cellHeight, h) < d
    ensures var h := LevelAt(m, overlay.position);
      bounds.Bottom() >= m.topLeftOf(overlay.position).y ==>
        d <= PositionDepth(c, m, bounds.Bottom() + c.cellSizeY + h * c.cellHeight, h)
  {
    OverlayDepthBounds(c, m, overlay.position, bounds, LevelAt(m, overlay.position));
    OverlayDepthAtLevel(c, m, overlay.position, bounds, LevelAt(m, overlay.position))
  }

  /** The depth at a level lies strictly below the sprite's bottom row at that
      level, and for a sprite reaching into its cell at most one cell below it. */
  lemma OverlayDepthBounds(c: DepthConstants, m: MapView, position: Point, bounds: Rectangle, h: int)
    requires Valid(c) && ValidMap(m)
    ensures PositionDepth(c, m, bounds.Bottom() + h * c.cellHeight, h) < OverlayDepthAtLevel(c, m, position, bounds, h)
    ensures bounds.Bottom() >= m.topLeftOf(position).y ==>
      OverlayDepthAtLevel(c, m, position, bounds, h) <= PositionDepth(c, m, bounds.Bottom() + c.cellSizeY + h * c.cellHeight, h)
  {
    var cellY := OwningRowY(c, m.topLeftOf(position), bounds);
    PositionDepthRowMonotone(c, m, bounds.Bottom() + h * c.cellHeight, cellY + h * c.cellHeight, h);
    if bounds.Bottom() >= m.topLeftOf(position).y {
      PositionDepthRowMonotone(c, m, cellY + h * c.cellHeight, bounds.Bottom() + c.cellSizeY + h * c.cellHeight, h);
    }
  }

  /** An overlay on a missing cell gets the depth of one on a level-0 cell. */
  lemma MissingCellIsGround(c: DepthConstants, m: MapView, overlay: Overlay, bounds: Rectangle)
    requires Valid(c) && ValidMap(m)
    requires overlay.position !in m.tiles
    ensures OverlayDepthFromPosition(c, m, overlay, bounds) == OverlayDepthAtLevel(c, m, overlay.position, bounds, 0)
  {
  }

  /** A higher cell gives a strictly greater depth, the bounds being equal. */
  lemma OverlayDepthIncreasesWithLevel(c: DepthConstants, m: MapView, position: Point, bounds: Rectangle, level1: int, level2: int)
    requires Valid(c) && ValidMap(m)
    requires level1 < level2
    ensures OverlayDepthAtLevel(c, m, position, bounds, level1) < OverlayDepthAtLevel(c, m, position, bounds, level2)
  {
    var cellY := OwningRowY(c, m.topLeftOf(position), bounds);
    assert level1 * c.cellHeight < level2 * c.cellHeight by {
      assert level2 * c.cellHeight - level1 * c.cellHeight == (level2 - level1) * c.cellHeight;
    }
    PositionDepthLevelStrict(c, m, cellY + level1 * c.cellHeight, cellY + level2 * c.cellHeight, level1, level2);
  }

  /** Moving the sprite's bottom edge down never decreases its depth. */
  lemma OverlayDepthMonotoneInBottom(c: DepthConstants, m: MapView, position: Point, b1: Rectangle, b2: Rectangle, level: int)
    requires Valid(c) && ValidMap(m)
    requires b1.Bottom() <= b2.Bottom()
    ensures OverlayDepthAtLevel(c, m, position, b1, level) <= OverlayDepthAtLevel(c, m, position, b2, level)
  {
    var y1, y2 := OwningRowY(c, m.topLeftOf(position), b1), OwningRowY(c, m.topLeftOf(position), b2);
    OwningRowMonotone(c, m.topLeftOf(position), b1, b2);
    PositionDepthRowMonotone(c, m, y1 + level * c.cellHeight, y2 + level * c.cellHeight, level);
  }

  /** The category bias of an ordinary overlay. */
  function FlatOverlayAddition(c: DepthConstants): real {
    c.depthEpsilon * c.overlayAdjustment
  }

  /** GetDepthAddition. An ordinary overlay gets the overlay bias. A high
      bridge gets that bias plus its deck height, (level + 4) cell heights
      normalised by the map height; this reads the cell's level without a
      null check, so a bridge off the map raises NullReferenceException. */
  function OverlayDepthAddition(c: DepthConstants, m: MapView, overlay: Overlay): (r: Result<real, Exception>)
    requires ValidMap(m)
    ensures overlay.overlayType.highBridgeDirection == NoDirection ==> r.Success? && r.value == FlatOverlayAddition(c)
    ensures r.Failure? <==> overlay.overlayType.highBridgeDirection != NoDirection && overlay.position !in m.tiles
    ensures r.Success? && overlay.overlayType.highBridgeDirection != NoDirection ==>
      r.value - FlatOverlayAddition(c)
        == ((m.tiles[overlay.position].level + BridgeHeight) * c.cellHeight) as real / m.heightInPixelsWithCellHeight as real
  {
    if overlay.overlayType.highBridgeDirection == NoDirection then
      Success(c.depthEpsilon * c.overlayAdjustment)
    else
      match GetTile(m, overlay.position)
      case None => Failure(NullReference)
      case Some(tile) =>
        Success(c.depthEpsilon * c.overlayAdjustment
          + ((tile.level + BridgeHeight) * c.cellHeight) as real / m.heightInPixelsWithCellHeight as real)
  }

  /** A high bridge on a cell of level above -4 is biased strictly above an
      ordinary overlay, so its deck draws over what lies beneath. */
  lemma BridgeAdditionExceedsFlat(c: DepthConstants, m: MapView, overlay: Overlay)
    requires Valid(c) && ValidMap(m)
    requires overlay.overlayType.highBridgeDirection != NoDirection
    requires overlay.position in m.tiles && m.tiles[overlay.position].level > -BridgeHeight
    ensures OverlayDepthAddition(c, m, overlay).Success?
    ensures OverlayDepthAddition(c, m, overlay).value > FlatOverlayAddition(c)
  {
    var lift := (m.tiles[overlay.position].level + BridgeHeight) * c.cellHeight;
    assert lift > 0 by {
      MulPositive(m.tiles[overlay.position].level + BridgeHeight, c.cellHeight);
    }
    assert lift as real / m.heightInPixelsWithCellHeight as real > 0.0;
  }

  lemma MulPositive(a: int, b: int)
    requires a > 0 && b > 0
    ensures a * b > 0
  {
  }

  /** The vertical lift applied to a high bridge's draw point in 3D mode. */
  function BridgeLift(c: DepthConstants, direction: BridgeDirection): int {
    match direction
    case NoDirection => 0
    case EastWest => c.cellHeight + 1
    case NorthSouth => c.cellHeight * 2 + 1
  }

  /** The draw-point shift in Render: in 3D mode a high bridge is drawn
      higher on screen, by one cell height plus a pixel when it runs east-west
      and by two cell heights plus a pixel otherwise; other overlays, and all
      overlays in 2D mode, keep their draw point. */
  function BridgeDrawPoint(c: DepthConstants, is2DMode: bool, overlay: Overlay, drawPoint: Point): (p: Point)
    requires Valid(c)
    ensures p.x == drawPoint.x
    ensures p.y <= drawPoint.y
    ensures p == drawPoint <==> (is2DMode || overlay.overlayType.highBridgeDirection == NoDirection)
    ensures !is2DMode ==> drawPoint.y - p.y == BridgeLift(c, overlay.overlayType.highBridgeDirection)
  {
    if !is2DMode && overlay.overlayType.highBridgeDirection != NoDirection then
      if overlay.overlayType.highBridgeDirection == EastWest then
        Point(drawPoint.x, drawPoint.y - (c.cellHeight + 1))
      else
        Point(drawPoint.x, drawPoint.y - (c.cellHeight * 2 + 1))
    else
      drawPoint
  }
}
