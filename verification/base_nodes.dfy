/** The base-node editing cursor action: finding the node that covers a
    cell, reordering a house's nodes by wrap-around swaps, deleting and
    creating nodes, and the drag that moves a node to another cell. A house's
    base nodes are the buildings its AI rebuilds, in build order. */
module BaseNodes {
  import opened Common

  /** A planned building: the name of its building type and its cell. */
  datatype BaseNode = BaseNode(structureTypeName: string, position: Point)

  /** A house (player) and its base nodes in build order. */
  datatype House = House(name: string, baseNodes: seq<BaseNode>)

  /** A building type as the rules hold it: its name, its foundation size,
      and the cell offsets its art configuration enumerates as its foundation. */
  datatype BuildingType = BuildingType(iniName: string, foundationWidth: nat, foundationHeight: nat, foundationCoords: seq<Point>)

  /** A building standing on a map cell; `owner` is the position of its owner among the map's houses. */
  datatype Structure = Structure(objectType: BuildingType, position: Point, owner: nat)

  /** Rules.BuildingTypes.Find by name: the first building type with that name, or None. */
  function FindBuildingType(types: seq<BuildingType>, name: string): Option<BuildingType> {
    if |types| == 0 then None
    else if types[0].iniName == name then Some(types[0])
    else FindBuildingType(types[1..], name)
  }

  /** The lookup finds a type exactly when one has the name, and then the first such. */
  lemma {:induction false} FindBuildingTypeFirst(types: seq<BuildingType>, name: string)
    ensures FindBuildingType(types, name).None? <==> forall k :: 0 <= k < |types| ==> types[k].iniName != name
    ensures FindBuildingType(types, name).Some? ==>
      exists k :: 0 <= k < |types| && types[k] == FindBuildingType(types, name).value && types[k].iniName == name
        && forall j :: 0 <= j < k ==> types[j].iniName != name
  {
    if |types| > 0 && types[0].iniName != name {
      FindBuildingTypeFirst(types[1..], name);
      assert forall k :: 1 <= k < |types| ==> types[k] == types[1..][k - 1];
      var r := FindBuildingType(types, name);
      if r.Some? {
        var k :| 0 <= k < |types[1..]| && types[1..][k] == r.value && types[1..][k].iniName == name
          && forall j :: 0 <= j < k ==> types[1..][j].iniName != name;
        assert types[k + 1] == r.value && forall j :: 0 <= j < k + 1 ==> types[j].iniName != name;
      }
    }
  }

  /** The foundation of `t` placed at `position` contains `cell`. */
  predicate OnFoundation(t: BuildingType, position: Point, cell: Point) {
    exists k :: 0 <= k < |t.foundationCoords| && t.foundationCoords[k].Plus(position) == cell
  }

  /** The lookup predicate of GetBaseNodeIndexForHouse: a node of an unknown
      building type covers nothing; one whose foundation has a zero side
      covers only its own cell; any other covers its foundation's cells. */
  predicate Covers(types: seq<BuildingType>, node: BaseNode, cell: Point) {
    match FindBuildingType(types, node.structureTypeName)
    case None => false
    case Some(t) =>
      if t.foundationWidth == 0 || t.foundationHeight == 0 then node.position == cell
      else OnFoundation(t, node.position, cell)
  }

  /** List.FindIndex from position `from`: the first node from there on that covers `cell`, or -1. */
  function FindCoveringFrom(types: seq<BuildingType>, nodes: seq<BaseNode>, cell: Point, from: nat): (r: int)
    requires from <= |nodes|
    ensures r == -1 || from <= r < |nodes|
    ensures r == -1 <==> forall j :: from <= j < |nodes| ==> !Covers(types, nodes[j], cell)
    ensures r != -1 ==> Covers(types, nodes[r], cell)
    ensures r != -1 ==> forall j :: from <= j < r ==> !Covers(types, nodes[j], cell)
    decreases |nodes| - from
  {
    if from == |nodes| then -1
    else if Covers(types, nodes[from], cell) then from
    else FindCoveringFrom(types, nodes, cell, from + 1)
  }

  /** GetBaseNodeIndexForHouse: the index of the house's first node that
      covers `cell`, or -1 when none does. */
  function GetBaseNodeIndexForHouse(types: seq<BuildingType>, house: House, cell: Point): (r: int)
    ensures -1 <= r < |house.baseNodes|
    ensures r == -1 <==> forall j :: 0 <= j < |house.baseNodes| ==> !Covers(types, house.baseNodes[j], cell)
    ensures r != -1 ==> Covers(types, house.baseNodes[r], cell)
    ensures r != -1 ==> forall j :: 0 <= j < r ==> !Covers(types, house.baseNodes[j], cell)
  {
    FindCoveringFrom(types, house.baseNodes, cell, 0)
  }

  /** A node designated by the position of its house and its index in that house's list. */
  datatype NodeRef = NodeRef(house: nat, index: nat)

  predicate RefersToNode(houses: seq<House>, r: NodeRef) {
    r.house < |houses| && r.index < |houses[r.house].baseNodes|
  }

  function NodeAt(houses: seq<House>, r: NodeRef): BaseNode
    requires RefersToNode(houses, r)
  {
    houses[r.house].baseNodes[r.index]
  }

  /** The search shared by DeleteBaseNode, the shifts and GetBaseNodeFromCellCoords,
      from house `from` on: the first house with a covering node, and that node's index. */
  function FindBaseNodeFrom(types: seq<BuildingType>, houses: seq<House>, cell: Point, from: nat): (r: Option<NodeRef>)
    requires from <= |houses|
    ensures r.None? <==> forall h :: from <= h < |houses| ==> GetBaseNodeIndexForHouse(types, houses[h], cell) == -1
    ensures r.Some? ==> from <= r.value.house < |houses|
    ensures r.Some? ==> r.value.index == GetBaseNodeIndexForHouse(types, houses[r.value.house], cell) != -1
    ensures r.Some? ==> forall h :: from <= h < r.value.house ==> GetBaseNodeIndexForHouse(types, houses[h], cell) == -1
    decreases |houses| - from
  {
    if from == |houses| then None
    else
      var index := GetBaseNodeIndexForHouse(types, houses[from], cell);
      if index > -1 then Some(NodeRef(from, index))
      else FindBaseNodeFrom(types, houses, cell, from + 1)
  }

  /** GetBaseNodeFromCellCoords: the covering node of the first house, in
      the map's house order, that has one. */
  function FindBaseNode(types: seq<BuildingType>, houses: seq<House>, cell: Point): (r: Option<NodeRef>)
    ensures r.None? <==> forall h, j :: 0 <= h < |houses| && 0 <= j < |houses[h].baseNodes| ==> !Covers(types, houses[h].baseNodes[j], cell)
    ensures r.Some? ==> RefersToNode(houses, r.value) && Covers(types, NodeAt(houses, r.value), cell)
    ensures r.Some? ==> forall j :: 0 <= j < r.value.index ==> !Covers(types, houses[r.value.house].baseNodes[j], cell)
    ensures r.Some? ==> forall h, j :: 0 <= h < r.value.house && 0 <= j < |houses[h].baseNodes| ==> !Covers(types, houses[h].baseNodes[j], cell)
  {
    FindBaseNodeFrom(types, houses, cell, 0)
  }

  /** List.RemoveAt. */
  function RemoveAt<T>(s: seq<T>, i: nat): (r: seq<T>)
    requires i < |s|
    ensures |r| == |s| - 1
    ensures forall j :: 0 <= j < i ==> r[j] == s[j]
    ensures forall j :: i <= j < |r| ==> r[j] == s[j + 1]
    ensures multiset(r) + multiset{s[i]} == multiset(s)
  {
    assert s == s[..i] + [s[i]] + s[i + 1..];
    s[..i] + s[i + 1..]
  }

  /** DeleteBaseNode: removes the node found by the search and nothing else;
      when no house has a covering node nothing changes. */
  function DeleteBaseNode(types: seq<BuildingType>, houses: seq<House>, cell: Point): (r: seq<House>)
    ensures |r| == |houses|
    ensures FindBaseNode(types, houses, cell).None? ==> r == houses
    ensures FindBaseNode(types, houses, cell).Some? ==>
      var loc := FindBaseNode(types, houses, cell).value;
      && (forall h :: 0 <= h < |houses| && h != loc.house ==> r[h] == houses[h])
      && r[loc.house].name == houses[loc.house].name
      && |r[loc.house].baseNodes| == |houses[loc.house].baseNodes| - 1
      && multiset(r[loc.house].baseNodes) + multiset{NodeAt(houses, loc)} == multiset(houses[loc.house].baseNodes)
      && (forall j :: 0 <= j < loc.index ==> r[loc.house].baseNodes[j] == houses[loc.house].baseNodes[j])
      && (forall j :: loc.index <= j < |r[loc.house].baseNodes| ==> r[loc.house].baseNodes[j] == houses[loc.house].baseNodes[j + 1])
  {
    match FindBaseNode(types, houses, cell)
    case None => houses
    case Some(loc) =>
      var house := houses[loc.house];
      houses[loc.house := House(house.name, RemoveAt(house.baseNodes, loc.index))]
  }

  /** List.Swap: exchanges two slots. */
  function Swap<T>(s: seq<T>, i: nat, j: nat): (r: seq<T>)
    requires i < |s| && j < |s|
    ensures |r| == |s|
    ensures r[i] == s[j] && r[j] == s[i]
    ensures forall k :: 0 <= k < |s| && k != i && k != j ==> r[k] == s[k]
    ensures multiset(r) == multiset(s)
  {
    s[i := s[j]][j := s[i]]
  }

  /** The slot a node moves to when shifted earlier: the previous one, or the last from the first. */
  function EarlierIndex(i: nat, n: nat): (e: nat)
    requires i < n
    ensures e < n
  {
    if i == 0 then n - 1 else i - 1
  }

  /** The slot a node moves to when shifted later: the next one, or the first from the last. */
  function LaterIndex(i: nat, n: nat): (l: nat)
    requires i < n
    ensures l < n
  {
    if i == n - 1 then 0 else i + 1
  }

  /** The reordering of ShiftBaseNodeEarlier on one list: the node at `i`
      trades places with the one before it, and the first with the last. */
  function ShiftEarlier<T>(s: seq<T>, i: nat): (r: seq<T>)
    requires i < |s|
    ensures |r| == |s| && multiset(r) == multiset(s)
    ensures r[EarlierIndex(i, |s|)] == s[i] && r[i] == s[EarlierIndex(i, |s|)]
    ensures forall k :: 0 <= k < |s| && k != i && k != EarlierIndex(i, |s|) ==> r[k] == s[k]
  {
    if i == 0 then Swap(s, 0, |s| - 1) else Swap(s, i, i - 1)
  }

  /** The reordering of ShiftBaseNodeLater on one list: the node at `i`
      trades places with the one after it, and the last with the first. */
  function ShiftLater<T>(s: seq<T>, i: nat): (r: seq<T>)
    requires i < |s|
    ensures |r| == |s| && multiset(r) == multiset(s)
    ensures r[LaterIndex(i, |s|)] == s[i] && r[i] == s[LaterIndex(i, |s|)]
    ensures forall k :: 0 <= k < |s| && k != i && k != LaterIndex(i, |s|) ==> r[k] == s[k]
  {
    if i == |s| - 1 then Swap(s, 0, |s| - 1) else Swap(s, i, i + 1)
  }

  /** Shifting a node later from where shifting it earlier put it restores the list. */
  lemma ShiftLaterUndoesEarlier<T>(s: seq<T>, i: nat)
    requires i < |s|
    ensures ShiftLater(ShiftEarlier(s, i), EarlierIndex(i, |s|)) == s
  {
    var t := ShiftLater(ShiftEarlier(s, i), EarlierIndex(i, |s|));
    assert LaterIndex(EarlierIndex(i, |s|), |s|) == i;
    assert forall k :: 0 <= k < |s| ==> t[k] == s[k];
  }

  /** Shifting a node earlier from where shifting it later put it restores the list. */
  lemma ShiftEarlierUndoesLater<T>(s: seq<T>, i: nat)
    requires i < |s|
    ensures ShiftEarlier(ShiftLater(s, i), LaterIndex(i, |s|)) == s
  {
    var t := ShiftEarlier(ShiftLater(s, i), LaterIndex(i, |s|));
    assert EarlierIndex(LaterIndex(i, |s|), |s|) == i;
    assert forall k :: 0 <= k < |s| ==> t[k] == s[k];
  }

  /** Replaces one house's node list. */
  function WithNodes(houses: seq<House>, h: nat, nodes: seq<BaseNode>): (r: seq<House>)
    requires h < |houses|
    ensures |r| == |houses| && r[h] == House(houses[h].name, nodes)
    ensures forall k :: 0 <= k < |houses| && k != h ==> r[k] == houses[k]
  {
    houses[h := House(houses[h].name, nodes)]
  }

  /** ShiftBaseNodeEarlier: reorders the found node's house only. */
  function ShiftBaseNodeEarlier(types: seq<BuildingType>, houses: seq<House>, cell: Point): (r: seq<House>)
    ensures |r| == |houses|
    ensures FindBaseNode(types, houses, cell).None? ==> r == houses
    ensures FindBaseNode(types, houses, cell).Some? ==>
      var loc := FindBaseNode(types, houses, cell).value;
      && (forall h :: 0 <= h < |houses| && h != loc.house ==> r[h] == houses[h])
      && r[loc.house] == House(houses[loc.house].name, ShiftEarlier(houses[loc.house].baseNodes, loc.index))
  {
    match FindBaseNode(types, houses, cell)
    case None => houses
    case Some(loc) => WithNodes(houses, loc.house, ShiftEarlier(houses[loc.house].baseNodes, loc.index))
  }

  /** ShiftBaseNodeLater: reorders the found node's house only. */
  function ShiftBaseNodeLater(types: seq<BuildingType>, houses: seq<House>, cell: Point): (r: seq<House>)
    ensures |r| == |houses|
    ensures FindBaseNode(types, houses, cell).None? ==> r == houses
    ensures FindBaseNode(types, houses, cell).Some? ==>
      var loc := FindBaseNode(types, houses, cell).value;
      && (forall h :: 0 <= h < |houses| && h != loc.house ==> r[h] == houses[h])
      && r[loc.house] == House(houses[loc.house].name, ShiftLater(houses[loc.house].baseNodes, loc.index))
  {
    match FindBaseNode(types, houses, cell)
    case None => houses
    case Some(loc) => WithNodes(houses, loc.house, ShiftLater(houses[loc.house].baseNodes, loc.index))
  }

  /** The foundation cells of a width-by-height rectangle, row by row, as the
      nested loops of CreateBaseNode enumerate them. */
  function FoundationOffsets(width: nat, height: nat): (r: seq<Point>)
    ensures forall p :: p in r <==> 0 <= p.x < width && 0 <= p.y < height
  {
    if height == 0 then []
    else
      var row := seq(width, x => Point(x, height - 1));
      assert forall p :: p in row <==> 0 <= p.x < width && p.y == height - 1 by {
        forall p: Point | 0 <= p.x < width && p.y == height - 1
          ensures p in row
        {
          assert row[p.x] == p;
        }
      }
      FoundationOffsets(width, height - 1) + row
  }

  /** The cells CreateBaseNode checks for existing nodes: the clicked cell when
      the new node's foundation has a zero side, then every cell of the
      building's foundation rectangle. */
  function CellsToCheck(t: BuildingType, position: Point, cell: Point): (r: seq<Point>)
    ensures forall p :: p in r <==>
      || ((t.foundationWidth == 0 || t.foundationHeight == 0) && p == cell)
      || (position.x <= p.x < position.x + t.foundationWidth && position.y <= p.y < position.y + t.foundationHeight)
  {
    var offsets := FoundationOffsets(t.foundationWidth, t.foundationHeight);
    var placed := seq(|offsets|, k requires 0 <= k < |offsets| => position.Plus(offsets[k]));
    assert forall p :: p in placed <==> Point(p.x - position.x, p.y - position.y) in offsets by {
      forall p: Point | Point(p.x - position.x, p.y - position.y) in offsets
        ensures p in placed
      {
        var k :| 0 <= k < |offsets| && offsets[k] == Point(p.x - position.x, p.y - position.y);
        assert placed[k] == p;
      }
    }
    (if t.foundationWidth == 0 || t.foundationHeight == 0 then [cell] else []) + placed
  }

  /** The test of CreateBaseNode's inner loop: an existing node of a known
      building type overlaps when it stands on the clicked cell, or when its
      foundation contains the checked cell `point`. */
  predicate NodeOverlaps(types: seq<BuildingType>, node: BaseNode, cell: Point, point: Point) {
    match FindBuildingType(types, node.structureTypeName)
    case None => false
    case Some(t) => node.position == cell || OnFoundation(t, node.position, point)
  }

  /** Some existing node overlaps some checked cell. */
  predicate AnyOverlap(types: seq<BuildingType>, nodes: seq<BaseNode>, cell: Point, points: seq<Point>) {
    exists q, n :: 0 <= q < |points| && 0 <= n < |nodes| && NodeOverlaps(types, nodes[n], cell, points[q])
  }

  /** The overlap check of CreateBaseNode: every checked cell against every
      node of the owner, stopping at the first overlap. */
  method HasOverlappingNode(types: seq<BuildingType>, nodes: seq<BaseNode>, cell: Point, points: seq<Point>) returns (overlapping: bool)
    ensures overlapping <==> AnyOverlap(types, nodes, cell, points)
  {
    overlapping := false;
    var q := 0;
    while q < |points| && !overlapping
      invariant 0 <= q <= |points|
      invariant !overlapping ==> forall q', n :: 0 <= q' < q && 0 <= n < |nodes| ==> !NodeOverlaps(types, nodes[n], cell, points[q'])
      invariant overlapping ==> AnyOverlap(types, nodes, cell, points)
    {
      var n := 0;
      while n < |nodes| && !overlapping
        invariant 0 <= n <= |nodes|
        invariant !overlapping ==> forall n' :: 0 <= n' < n ==> !NodeOverlaps(types, nodes[n'], cell, points[q])
        invariant overlapping ==> AnyOverlap(types, nodes, cell, points)
      {
        var nodeType := FindBuildingType(types, nodes[n].structureTypeName);
        if nodeType.Some? {
          if nodes[n].position == cell {
            overlapping := true;
          } else if OnFoundation(nodeType.value, nodes[n].position, points[q]) {
            overlapping := true;
          }
        }
        if overlapping {
          assert NodeOverlaps(types, nodes[n], cell, points[q]);
        }
        n := n + 1;
      }
      q := q + 1;
    }
  }

  /** With a foundation listed as its full rectangle, a node's foundation
      covers exactly the cells of that rectangle placed at the node. */
  lemma OnRectangularFoundation(t: BuildingType, position: Point, cell: Point)
    requires t.foundationCoords == FoundationOffsets(t.foundationWidth, t.foundationHeight)
    ensures OnFoundation(t, position, cell) <==>
      position.x <= cell.x < position.x + t.foundationWidth && position.y <= cell.y < position.y + t.foundationHeight
  {
    var offset := Point(cell.x - position.x, cell.y - position.y);
    if offset in t.foundationCoords {
      var k :| 0 <= k < |t.foundationCoords| && t.foundationCoords[k] == offset;
      assert t.foundationCoords[k].Plus(position) == cell;
    }
  }

  /** A node created for a building whose type the rules know and whose
      foundation starts at its own cell overlaps the cells a second click on
      the same cell checks, so clicking twice creates only one node. */
  lemma CreatedNodeOverlaps(types: seq<BuildingType>, nodes: seq<BaseNode>, s: Structure, cell: Point)
    requires FindBuildingType(types, s.objectType.iniName) == Some(s.objectType)
    requires s.objectType.foundationWidth > 0 && s.objectType.foundationHeight > 0
    requires Point(0, 0) in s.objectType.foundationCoords
    ensures AnyOverlap(types, nodes + [BaseNode(s.objectType.iniName, s.position)], cell, CellsToCheck(s.objectType, s.position, cell))
  {
    var all := nodes + [BaseNode(s.objectType.iniName, s.position)];
    var points := CellsToCheck(s.objectType, s.position, cell);
    assert s.position in points;
    var q :| 0 <= q < |points| && points[q] == s.position;
    var k :| 0 <= k < |s.objectType.foundationCoords| && s.objectType.foundationCoords[k] == Point(0, 0);
    assert s.objectType.foundationCoords[k].Plus(s.position) == s.position;
    assert NodeOverlaps(types, all[|nodes|], cell, points[q]);
  }

  /** The structures standing on a cell reference houses of the map. */
  predicate OwnersKnown(houses: seq<House>, structures: seq<Structure>) {
    forall k :: 0 <= k < |structures| ==> structures[k].owner < |houses|
  }

  /** CreateBaseNode on a cell holding `structures`: nothing happens on a
      cell without a building. Otherwise a node for the first building (its
      type's name, its position) is appended to its owner's list unless one of
      the owner's nodes already overlaps the cells checked; the building itself
      is to be removed exactly when Shift is held. */
  method CreateBaseNode(types: seq<BuildingType>, houses: seq<House>, cell: Point, structures: seq<Structure>, shiftHeld: bool)
    returns (result: seq<House>, removeBuildings: bool)
    requires OwnersKnown(houses, structures)
    ensures |structures| == 0 ==> result == houses && !removeBuildings
    ensures |structures| > 0 ==> removeBuildings == shiftHeld
    ensures |structures| > 0 ==>
      var s := structures[0];
      var nodes := houses[s.owner].baseNodes;
      if AnyOverlap(types, nodes, cell, CellsToCheck(s.objectType, s.position, cell)) then result == houses
      else result == WithNodes(houses, s.owner, nodes + [BaseNode(s.objectType.iniName, s.position)])
  {
    if |structures| == 0 {
      return houses, false;
    }
    var structure := structures[0];
    var cellCoordsToCheck := CellsToCheck(structure.objectType, structure.position, cell);
    var owner := structure.owner;
    var overlappingNodes := HasOverlappingNode(types, houses[owner].baseNodes, cell, cellCoordsToCheck);
    result := houses;
    if !overlappingNodes {
      var baseNode := BaseNode(structure.objectType.iniName, structure.position);
      result := WithNodes(houses, owner, houses[owner].baseNodes + [baseNode]);
    }
    removeBuildings := shiftHeld;
  }

  /** The cursor action's drag fields. */
  datatype DragState = DragState(isDragging: bool, dragged: Option<NodeRef>)

  /** The map's houses together with the cursor action's drag state. */
  datatype Editor = Editor(houses: seq<House>, drag: DragState)

  /** The two drag fields agree, and a dragged node is one of the map's nodes. */
  predicate ValidEditor(e: Editor) {
    && (e.drag.isDragging <==> e.drag.dragged.Some?)
    && (e.drag.dragged.Some? ==> RefersToNode(e.houses, e.drag.dragged.value))
  }

  /** StartBaseNodeDrag: the drag holds `node`, and the editor is
      consistent on exactly the maps that have that node. */
  function StartBaseNodeDrag(node: NodeRef): (d: DragState)
    ensures d.dragged == Some(node)
    ensures forall hs :: ValidEditor(Editor(hs, d)) <==> RefersToNode(hs, node)
  {
    DragState(true, Some(node))
  }

  /** StopBaseNodeDrag: no drag, which is consistent with every map. */
  function StopBaseNodeDrag(): (d: DragState)
    ensures !d.isDragging
    ensures forall hs :: ValidEditor(Editor(hs, d))
  {
    DragState(false, None)
  }

  /** LeftDown: with M held and no drag under way, the node under the cursor
      (if any) starts being dragged; without M any drag stops. */
  function LeftDown(types: seq<BuildingType>, e: Editor, cell: Point, mHeld: bool): (r: Editor)
    requires ValidEditor(e)
    ensures ValidEditor(r)
    ensures r.houses == e.houses
    ensures !mHeld ==> !r.drag.isDragging
    ensures mHeld && e.drag.isDragging ==> r == e
    ensures mHeld && !e.drag.isDragging ==> r.drag.dragged == FindBaseNode(types, e.houses, cell)
  {
    if mHeld then
      if !e.drag.isDragging then
        match FindBaseNode(types, e.houses, cell)
        case None => e
        case Some(node) => Editor(e.houses, StartBaseNodeDrag(node))
      else e
    else Editor(e.houses, StopBaseNodeDrag())
  }

  /** LeftUpOnMouseMove: releasing the button after moving ends a drag unless M is held. */
  function LeftUpOnMouseMove(e: Editor, mHeld: bool): (r: Editor)
    requires ValidEditor(e)
    ensures ValidEditor(r)
    ensures r.houses == e.houses
    ensures r.drag.isDragging <==> e.drag.isDragging && mHeld
    ensures r.drag.isDragging ==> r == e
  {
    if e.drag.isDragging && !mHeld then Editor(e.houses, StopBaseNodeDrag()) else e
  }

  /** LeftClick. While dragging, the dragged node moves to the clicked cell and
      the drag ends; no node is created or deleted. Otherwise Ctrl deletes the
      node under the cursor and a plain click creates one from the building
      there. The second result says whether the clicked cell's buildings are
      to be removed. */
  method LeftClick(types: seq<BuildingType>, e: Editor, cell: Point, ctrlHeld: bool, shiftHeld: bool, structures: seq<Structure>)
    returns (r: Editor, removeBuildings: bool)
    requires ValidEditor(e)
    requires OwnersKnown(e.houses, structures)
    ensures ValidEditor(r)
    ensures !r.drag.isDragging
    ensures e.drag.isDragging ==>
      var loc := e.drag.dragged.value;
      && !removeBuildings
      && r.houses == WithNodes(e.houses, loc.house,
           e.houses[loc.house].baseNodes[loc.index := BaseNode(NodeAt(e.houses, loc).structureTypeName, cell)])
    ensures !e.drag.isDragging && ctrlHeld ==> r.houses == DeleteBaseNode(types, e.houses, cell) && !removeBuildings
    ensures !e.drag.isDragging && !ctrlHeld && |structures| == 0 ==> r.houses == e.houses && !removeBuildings
    ensures !e.drag.isDragging && !ctrlHeld && |structures| > 0 ==>
      var s := structures[0];
      var nodes := e.houses[s.owner].baseNodes;
      && removeBuildings == shiftHeld
      && if AnyOverlap(types, nodes, cell, CellsToCheck(s.objectType, s.position, cell)) then r.houses == e.houses
         else r.houses == WithNodes(e.houses, s.owner, nodes + [BaseNode(s.objectType.iniName, s.position)])
  {
    if e.drag.isDragging {
      var loc := e.drag.dragged.value;
      var node := NodeAt(e.houses, loc);
      var nodes := e.houses[loc.house].baseNodes[loc.index := BaseNode(node.structureTypeName, cell)];
      return Editor(WithNodes(e.houses, loc.house, nodes), StopBaseNodeDrag()), false;
    }
    if ctrlHeld {
      r := Editor(DeleteBaseNode(types, e.houses, cell), e.drag);
      removeBuildings := false;
    } else {
      var houses;
      houses, removeBuildings := CreateBaseNode(types, e.houses, cell, structures, shiftHeld);
      r := Editor(houses, e.drag);
    }
  }

  /** The position a node at `index` of house `house` has after the nodes at
      `i` and `j` of house `h` trade places. */
  function AfterSwap(node: NodeRef, h: nat, i: nat, j: nat): NodeRef {
    if node.house != h then node
    else if node.index == i then NodeRef(h, j)
    else if node.index == j then NodeRef(h, i)
    else node
  }

  /** The drag state after a swap: the dragged node is held by reference, so
      the drag follows it to its new slot. */
  function DragAfterSwap(d: DragState, h: nat, i: nat, j: nat): DragState {
    match d.dragged
    case None => d
    case Some(node) => DragState(d.isDragging, Some(AfterSwap(node, h, i, j)))
  }

  /** The keys the cursor action handles. */
  datatype Key = KeyD | KeyE | OtherKey

  /** The swap of slots `i` and `j` of house `h`, applied to an editor: the
      drag keeps holding the node it held. */
  function SwapInEditor(e: Editor, h: nat, i: nat, j: nat, swapped: seq<BaseNode>): (r: Editor)
    requires ValidEditor(e)
    requires h < |e.houses| && i < |e.houses[h].baseNodes| && j < |e.houses[h].baseNodes|
    requires |swapped| == |e.houses[h].baseNodes|
    requires swapped[i] == e.houses[h].baseNodes[j] && swapped[j] == e.houses[h].baseNodes[i]
    requires forall k :: 0 <= k < |swapped| && k != i && k != j ==> swapped[k] == e.houses[h].baseNodes[k]
    ensures ValidEditor(r)
    ensures r.houses == WithNodes(e.houses, h, swapped)
    ensures r.drag.isDragging == e.drag.isDragging
    ensures r.drag.dragged.Some? ==> NodeAt(r.houses, r.drag.dragged.value) == NodeAt(e.houses, e.drag.dragged.value)
  {
    Editor(WithNodes(e.houses, h, swapped), DragAfterSwap(e.drag, h, i, j))
  }

  /** OnKeyPressed: D shifts the node under the cursor later and E earlier,
      outside the map (the cell (-1, -1)) nothing happens. A drag under way
      keeps holding the same node. */
  function OnKeyPressed(types: seq<BuildingType>, e: Editor, cell: Point, key: Key): (r: Editor)
    requires ValidEditor(e)
    ensures ValidEditor(r)
    ensures r.drag.isDragging == e.drag.isDragging
    ensures r.drag.dragged.Some? ==> NodeAt(r.houses, r.drag.dragged.value) == NodeAt(e.houses, e.drag.dragged.value)
    ensures cell == Point(-1, -1) || key == OtherKey ==> r == e
    ensures cell != Point(-1, -1) && key == KeyD ==> r.houses == ShiftBaseNodeLater(types, e.houses, cell)
    ensures cell != Point(-1, -1) && key == KeyE ==> r.houses == ShiftBaseNodeEarlier(types, e.houses, cell)
  {
    if cell == Point(-1, -1) || key == OtherKey then e
    else match FindBaseNode(types, e.houses, cell)
      case None => e
      case Some(loc) =>
        var nodes := e.houses[loc.house].baseNodes;
        if key == KeyD then
          SwapInEditor(e, loc.house, loc.index, LaterIndex(loc.index, |nodes|), ShiftLater(nodes, loc.index))
        else
          SwapInEditor(e, loc.house, loc.index, EarlierIndex(loc.index, |nodes|), ShiftEarlier(nodes, loc.index))
  }
}
