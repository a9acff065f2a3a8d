# WorldAlteringEditor core, modelled in Dafny

This project models six pieces of sequential logic from WorldAlteringEditor, a map editor for isometric strategy games, and proves properties about them:

- **Theater asset catalog** (`TheaterGraphics`, `Textures`, `DecimalFormat`). This is the flat tile list built over all tile sets of a theater. Each tile's file name is the set's prefix, the 1-based tile number formatted "D2" and the theater's extension. The graphics-variation loop probes only the un-suffixed name, because every path through its first iteration breaks. The catalog also holds a sparse terrain-texture array indexed like the terrain-type list, and the constructor that loads both. Palette pixels decode with index 0 as transparent.
- **Overlay depth key** (`DepthSpace`, `OverlayDepth`). The first whole-cell boundary below a sprite's bottom edge is computed with C#'s truncating division. The "leak into the neighbouring row" test can never pass. A missing cell counts as height 0. The depth and its per-category addition are modelled, and so are the bridge deck bias and the bridge draw-point lift.
- **Terrain depth key** (`TerrainDepth`). The depth is taken from the southernmost cell and ignores the drawing bounds. The cell's coordinates are dereferenced without a null check.
- **Type-catalog numbering** (`Rules`). Objects are appended in key order, and the k-th object of a section gets Index k. The texture arrays are looked up by this Index.
- **Base-node editing** (`BaseNodes`). The model covers:
  - finding the first node that covers a cell;
  - moving a node earlier or later by a swap that wraps around;
  - deleting the first match;
  - appending a node only when no existing node overlaps;
  - the drag state machine.
- **Overlay sidebar** (`OverlayList`, `TextSort`). Each overlay type is filed under a category that is found or appended, with "Unspecified" as the default. Each category is re-sorted by text after every addition. A "Collections" category comes first. Preview frames are chosen per entry.

Most C# exceptions are modelled as `Result` failures rather than preconditions: null dereferences, out-of-range indices and missing palettes. Three exceptions are not; the "Left out" lines for OverlayList.InitOverlays and BaseNodes.CreateBaseNode name them. They are an out-of-range overlay texture index, a null cell from Map.GetTile, and a structure owner that is not one of the map's houses. C# `null` is `Option.None`. Depths are C# `float`; here they are `real`, and the constants are positive parameters.

## Model

| member | source | states |
|---|---|---|
| Common.CsDiv | src/TSMapEditor/Rendering/ObjectRenderers/OverlayRenderer.cs:29 | `dy / CellSizeY` truncates toward zero: the remainder left is in [0, b) for a non-negative dividend and in (-b, 0] for a negative one |
| Common.CsRem | src/TSMapEditor/Rendering/ObjectRenderers/OverlayRenderer.cs:30 | `dy % CellSizeY` completes the truncating quotient to the dividend, is strictly inside (-b, b) and carries the dividend's sign |
| Common.CsDivMonotone | src/TSMapEditor/Rendering/ObjectRenderers/OverlayRenderer.cs:29 | the truncating quotient never decreases when the dividend grows, across the sign change too |
| Textures.ToXnaColor | src/Rendering/TheaterGraphics.cs:39 | a palette entry never yields the transparent colour, whatever its RGB, so only index 0 can make a pixel transparent |
| Textures.DecodeIndices | src/Rendering/TheaterGraphics.cs:39 | one colour per pixel index in order; a pixel is transparent exactly when its index is 0, and any other index b gives palette entry b, opaque |
| Textures.DecodeIgnoresEntryZero | src/Rendering/TheaterGraphics.cs:39 | palette entry 0 is never read: palettes that agree on entries 1..255 decode every frame identically |
| Textures.TerrainFrames | src/Rendering/TheaterGraphics.cs:30-42 | the frame loop yields one slot per remaining frame; a slot is empty exactly when the frame has no data, and otherwise holds the container size, the frame's offsets and the frame's decoded pixels |
| Textures.BuildTerrainImage | src/Rendering/TheaterGraphics.cs:28-43 | a TerrainImage has FrameCount slots, null exactly where the frame data is null, each other slot built from its own frame |
| DecimalFormat.FormatD2 | src/Rendering/TheaterGraphics.cs:97 | "D2" yields at least two decimal digits, with a leading zero only as padding |
| DecimalFormat.FormatD2RoundTrip | src/Rendering/TheaterGraphics.cs:97 | parsing the "D2" rendering of n gives n back |
| DecimalFormat.FormatD2Injective | src/Rendering/TheaterGraphics.cs:97 | distinct tile numbers have distinct "D2" renderings |
| TheaterGraphics.TileFileNamesDistinct | src/Rendering/TheaterGraphics.cs:97-104 | two different tiles of one tile set never probe the same file name |
| TheaterGraphics.TileImageOf | src/Rendering/TheaterGraphics.cs:104-127 | the entry recorded for tile i of tile set tsId carries TileSetId tsId and TileIndex i |
| TheaterGraphics.TileImageContents | src/Rendering/TheaterGraphics.cs:106-127 | a missing tile file gives an entry with no images, not an error; a present one gives exactly ImageCount images, the k-th from image k of that file with the theater palette |
| TheaterGraphics.ReadTileVariants | src/Rendering/TheaterGraphics.cs:95-129 | the variation loop probes exactly one name, the un-suffixed one, and records exactly one entry per tile: the lettered-suffix branch never runs |
| TheaterGraphics.ReadTileTextures | src/Rendering/TheaterGraphics.cs:82-132 | the tile list is the tile sets' entries in set order, each set's tiles in index order |
| TheaterGraphics.TileCountIsTotal | src/Rendering/TheaterGraphics.cs:84-131 | TileCount equals the sum of TilesInSet over all tile sets |
| TheaterGraphics.CatalogOrdered | src/Rendering/TheaterGraphics.cs:84-131 | for any entry builder stamped with its key, the entries are in strictly ascending (tile set, tile index) order, with set numbers below the number of sets read |
| TheaterGraphics.AllTilesOrdered | src/Rendering/TheaterGraphics.cs:84-131 | the loaded tile list is strictly ordered by (TileSetId, TileIndex), so no key occurs twice |
| TheaterGraphics.CatalogAt | src/Rendering/TheaterGraphics.cs:84-131 | tile i of set tsId sits at flat position (tiles of the sets before tsId) + i |
| TheaterGraphics.GetTileGraphics | src/Rendering/TheaterGraphics.cs:174-176 | the lookup succeeds exactly for ids in [0, TileCount), returning that entry, and otherwise fails with ArgumentOutOfRange for that id |
| TheaterGraphics.GetTileGraphicsAt | src/Rendering/TheaterGraphics.cs:174-176 | in a loaded catalog the k-th entry is the one for the tile whose flat position is k |
| TheaterGraphics.ReadTerrainObjectTextures | src/Rendering/TheaterGraphics.cs:134-164 | a missing theater palette, then a missing unit palette, raises KeyNotFound with that file's name and leaves the instance unchanged. Otherwise there is one slot per terrain type. A slot is empty exactly when the type's file (Image or INI name, plus the theater extension or ".SHP") is missing. A filled slot is built with the unit palette exactly when the type spawns Tiberium |
| TheaterGraphics.NewTheaterGraphics | src/Rendering/TheaterGraphics.cs:71-80 | construction fails exactly when one of the two palettes is missing, and first on the theater palette; on success the tile list is the full catalog under the theater palette. The terrain array has one slot per terrain type; a slot is empty exactly when the type's file is missing, and otherwise holds that file's frames under the unit palette for a Tiberium spawner and the theater palette for any other type |
| DepthSpace.PositionDepthRowMonotone | src/TSMapEditor/Rendering/ObjectRenderers/OverlayRenderer.cs:48-49 | with positive constants, a lower pixel row never has a smaller depth and a strictly lower one a strictly greater depth |
| DepthSpace.PositionDepthLevelStrict | src/TSMapEditor/Rendering/ObjectRenderers/OverlayRenderer.cs:48-49 | a higher level gives a strictly greater depth, even against a row no lower |
| OverlayDepth.LeakNeverApplies | src/TSMapEditor/Rendering/ObjectRenderers/OverlayRenderer.cs:30-38 | the leak test's remainder never exceeds (3 * CellSizeY) / 2, so the half-cell adjustment is dead code |
| OverlayDepth.RowBoundaryOffset | src/TSMapEditor/Rendering/ObjectRenderers/OverlayRenderer.cs:28-31 | the computed boundary lies one cell minus the truncated remainder below the bottom edge, on the cell's own grid |
| OverlayDepth.OwningRowY | src/TSMapEditor/Rendering/ObjectRenderers/OverlayRenderer.cs:27-38 | the selected row is strictly below the bottom edge and on the cell's grid. It is at most one cell below the edge when the edge is at or below the cell's top, and between one and two cells below when truncation rounds a negative offset up |
| OverlayDepth.OwningRowMonotone | src/TSMapEditor/Rendering/ObjectRenderers/OverlayRenderer.cs:27-38 | moving the bottom edge down never moves the selected row up |
| OverlayDepth.LevelAt | src/TSMapEditor/Rendering/ObjectRenderers/OverlayRenderer.cs:41-46 | the height is the cell's level, or 0 when the map has no cell there |
| OverlayDepth.OverlayDepthFromPosition | src/TSMapEditor/Rendering/ObjectRenderers/OverlayRenderer.cs:24-50 | total over all positions. The depth is above that of the bottom edge raised by the cell's height. For a sprite reaching into its cell it is at most that of one cell lower |
| OverlayDepth.MissingCellIsGround | src/TSMapEditor/Rendering/ObjectRenderers/OverlayRenderer.cs:41-46 | an overlay off the map gets the depth of one on a level-0 cell |
| OverlayDepth.OverlayDepthIncreasesWithLevel | src/TSMapEditor/Rendering/ObjectRenderers/OverlayRenderer.cs:48-49 | with the same bounds, a higher cell gives a strictly greater depth |
| OverlayDepth.OverlayDepthMonotoneInBottom | src/TSMapEditor/Rendering/ObjectRenderers/OverlayRenderer.cs:27-49 | at the same level, a lower bottom edge never gives a smaller depth |
| OverlayDepth.OverlayDepthBounds | src/TSMapEditor/Rendering/ObjectRenderers/OverlayRenderer.cs:24-50 | at any level, the depth is strictly above that of the bottom edge raised by the level, and for a sprite reaching into its cell at most that of one cell lower |
| OverlayDepth.OverlayDepthAddition | src/TSMapEditor/Rendering/ObjectRenderers/OverlayRenderer.cs:52-64 | a non-bridge gets exactly DepthEpsilon * Overlay. A bridge fails exactly when its cell is missing, and otherwise exceeds that by (level + 4) * CellHeight / H |
| OverlayDepth.BridgeAdditionExceedsFlat | src/TSMapEditor/Rendering/ObjectRenderers/OverlayRenderer.cs:60-63 | a bridge on a cell above level -4 is biased strictly above an ordinary overlay |
| OverlayDepth.BridgeDrawPoint | src/TSMapEditor/Rendering/ObjectRenderers/OverlayRenderer.cs:72-82 | x never changes and y never grows. The point is unchanged exactly in 2D mode or for non-bridges. In 3D mode it rises by CellHeight + 1 for east-west bridges and 2 * CellHeight + 1 for others |
| TerrainDepth.TerrainDepthFromPosition | src/TSMapEditor/Rendering/ObjectRenderers/TerrainRenderer.cs:24-39 | fails exactly when there is no southernmost cell (the null check on the level does not protect the coordinate read). Otherwise it is the depth of the row one cell below that cell's top at that cell's level |
| TerrainDepth.TerrainDepthIgnoresBounds | src/TSMapEditor/Rendering/ObjectRenderers/TerrainRenderer.cs:24-39 | the drawing bounds do not affect a terrain object's depth |
| TerrainDepth.TerrainDepthIncreasesWithLevel | src/TSMapEditor/Rendering/ObjectRenderers/TerrainRenderer.cs:37-38 | at the same row, a higher cell gives a strictly greater depth |
| TerrainDepth.TerrainDepthIncreasesDownward | src/TSMapEditor/Rendering/ObjectRenderers/TerrainRenderer.cs:37-38 | at the same level, depth is nondecreasing in the southernmost cell's top y, strictly for a strictly lower cell |
| TerrainDepth.TerrainDepthAddition | src/TSMapEditor/Rendering/ObjectRenderers/TerrainRenderer.cs:41-44 | the one terrain bias, with the sign of the Terrain adjustment |
| TerrainDepth.TerrainBelowOverlayIffAdjustedLower | src/TSMapEditor/Rendering/ObjectRenderers/TerrainRenderer.cs:41-44 | the terrain bias is below an ordinary overlay's bias (OverlayRenderer.cs:54) if and only if the Terrain adjustment is below the Overlay adjustment |
| Rules.GetSectionKeys | src/Models/Rules.cs:48-51 | a missing section gives null; otherwise the section's keys in order |
| Rules.GetStringValue | src/Models/Rules.cs:57 | a value exists exactly when the section holds the key |
| Rules.FirstValue | src/Models/Rules.cs:57 | the value is that of the first line with the key |
| Rules.SectionObjects | src/Models/Rules.cs:55-77 | one object per line of a present section, none for a missing one |
| Rules.InitFromTypeSection | src/Models/Rules.cs:46-79 | the list gains exactly the section's objects, in key order. A missing or empty section leaves it unchanged. The k-th appended object has Index k, whatever the list held before |
| Rules.InitFromINI | src/Models/Rules.cs:23-30 | each of the six sections extends only its own list ("VehicleTypes" the unit types); from empty lists every list is numbered by position |
| Rules.SectionObjectsContents | src/Models/Rules.cs:55-77 | the k-th object is named after the first value of the k-th key and numbered k |
| Rules.FreshCatalogIndexedByPosition | src/Models/Rules.cs:53-77 | filling an empty list numbers every object by its position, as indexing texture arrays by Index needs |
| Rules.AppendedIndexRestartsAtZero | src/Models/Rules.cs:53-77 | appending a non-empty section to a non-empty list breaks Index = position |
| BaseNodes.FindBuildingTypeFirst | src/TSMapEditor/UI/CursorActions/ManageBaseNodesCursorAction.cs:220 | the building-type lookup fails exactly when no type has the name, and otherwise returns the first that does |
| BaseNodes.FindCoveringFrom | src/TSMapEditor/UI/CursorActions/ManageBaseNodesCursorAction.cs:218-235 | the first node from a position on that covers the cell, or -1 exactly when none does |
| BaseNodes.GetBaseNodeIndexForHouse | src/TSMapEditor/UI/CursorActions/ManageBaseNodesCursorAction.cs:216-236 | the first index whose node covers the cell, or -1 exactly when none does. Nodes of unknown type never cover; zero-sided foundations cover only the node's cell; others cover their foundation cells |
| BaseNodes.FindBaseNodeFrom | src/TSMapEditor/UI/CursorActions/ManageBaseNodesCursorAction.cs:303-313 | the first house from a position on with a covering node, and that node's index |
| BaseNodes.FindBaseNode | src/TSMapEditor/UI/CursorActions/ManageBaseNodesCursorAction.cs:301-314 | none exactly when no node of any house covers the cell; otherwise a covering node, the first of the first house that has one |
| BaseNodes.RemoveAt | src/TSMapEditor/UI/CursorActions/ManageBaseNodesCursorAction.cs:247 | removes exactly the element at the index, keeping the others in order |
| BaseNodes.DeleteBaseNode | src/TSMapEditor/UI/CursorActions/ManageBaseNodesCursorAction.cs:238-253 | with no covering node nothing changes. Otherwise only the found house changes, losing exactly the found node with the rest in order |
| BaseNodes.Swap | src/TSMapEditor/UI/CursorActions/ManageBaseNodesCursorAction.cs:265-269 | the two slots trade elements, the others stay, and the multiset is unchanged |
| BaseNodes.ShiftEarlier | src/TSMapEditor/UI/CursorActions/ManageBaseNodesCursorAction.cs:263-270 | a permutation of the same length in which the node trades places with the previous one, the first with the last; no other slot changes |
| BaseNodes.ShiftLater | src/TSMapEditor/UI/CursorActions/ManageBaseNodesCursorAction.cs:286-293 | a permutation of the same length in which the node trades places with the next one, the last with the first; no other slot changes |
| BaseNodes.ShiftLaterUndoesEarlier | src/TSMapEditor/UI/CursorActions/ManageBaseNodesCursorAction.cs:255-299 | shifting later at the node's new index undoes shifting earlier |
| BaseNodes.ShiftEarlierUndoesLater | src/TSMapEditor/UI/CursorActions/ManageBaseNodesCursorAction.cs:255-299 | shifting earlier at the node's new index undoes shifting later |
| BaseNodes.ShiftBaseNodeEarlier | src/TSMapEditor/UI/CursorActions/ManageBaseNodesCursorAction.cs:255-276 | only the first house with a covering node is reordered, by the earlier shift; with none nothing changes |
| BaseNodes.ShiftBaseNodeLater | src/TSMapEditor/UI/CursorActions/ManageBaseNodesCursorAction.cs:278-299 | only the first house with a covering node is reordered, by the later shift; with none nothing changes |
| BaseNodes.FoundationOffsets | src/TSMapEditor/UI/CursorActions/ManageBaseNodesCursorAction.cs:152-158 | the nested loops enumerate exactly the offsets of the width-by-height rectangle |
| BaseNodes.CellsToCheck | src/TSMapEditor/UI/CursorActions/ManageBaseNodesCursorAction.cs:148-158 | the checked cells are the clicked cell when a foundation side is zero, plus exactly the cells of the building's foundation rectangle |
| BaseNodes.HasOverlappingNode | src/TSMapEditor/UI/CursorActions/ManageBaseNodesCursorAction.cs:162-197 | the early-exit double loop reports an overlap exactly when some known-type node stands on the clicked cell or has a foundation cell among the checked ones |
| BaseNodes.OnRectangularFoundation | src/TSMapEditor/UI/CursorActions/ManageBaseNodesCursorAction.cs:181-186 | for a foundation listed as its full rectangle, a node covers exactly that rectangle placed at the node |
| BaseNodes.CreatedNodeOverlaps | src/TSMapEditor/UI/CursorActions/ManageBaseNodesCursorAction.cs:162-205 | once a node is created for a known building, a second click on the same cell finds an overlap and creates nothing |
| BaseNodes.CreateBaseNode | src/TSMapEditor/UI/CursorActions/ManageBaseNodesCursorAction.cs:140-214 | a cell without buildings changes nothing. Otherwise the owner gains a node (the first building's type name and position) exactly when no existing owner node overlaps, and the building is removed exactly when Shift is held |
| BaseNodes.StartBaseNodeDrag | src/TSMapEditor/UI/CursorActions/ManageBaseNodesCursorAction.cs:127-131 | the drag holds the given node, and the two drag fields agree with a map exactly when that map has the node |
| BaseNodes.StopBaseNodeDrag | src/TSMapEditor/UI/CursorActions/ManageBaseNodesCursorAction.cs:133-137 | no drag is on, and the two drag fields agree with every map |
| BaseNodes.LeftDown | src/TSMapEditor/UI/CursorActions/ManageBaseNodesCursorAction.cs:73-92 | keeps "dragging iff a node is held". Without M any drag stops; with M and no drag, the node under the cursor (if any) is taken; nodes never change |
| BaseNodes.LeftUpOnMouseMove | src/TSMapEditor/UI/CursorActions/ManageBaseNodesCursorAction.cs:94-102 | the drag survives exactly when it was on and M is held |
| BaseNodes.LeftClick | src/TSMapEditor/UI/CursorActions/ManageBaseNodesCursorAction.cs:104-125 | afterwards no drag is on. While dragging, the houses are as before except that the dragged node moves to the clicked cell, keeping its type; nothing is created, deleted or removed. Otherwise Ctrl deletes and a plain click creates, as those operations state |
| BaseNodes.SwapInEditor | src/TSMapEditor/UI/CursorActions/ManageBaseNodesCursorAction.cs:265-269 | a swap leaves the drag holding the same node, which the C# field references directly |
| BaseNodes.OnKeyPressed | src/TSMapEditor/UI/CursorActions/ManageBaseNodesCursorAction.cs:56-71 | off the map or for another key nothing changes; D shifts later and E earlier; a drag keeps holding the same node |
| TextSort.Insert | src/UI/Sidebar/OverlayListPanel.cs:186 | inserting into a sorted list gives a sorted permutation of the list plus the element |
| TextSort.Sort | src/UI/Sidebar/OverlayListPanel.cs:186 | OrderBy gives a sorted permutation of its input |
| TextSort.InsertLast | src/UI/Sidebar/OverlayListPanel.cs:186 | an element not below any key goes last, as a stable sort places it |
| TextSort.SortSortedIdentity | src/UI/Sidebar/OverlayListPanel.cs:186 | sorting an already sorted list leaves it unchanged, as a stable sort does |
| TextSort.SortAppended | src/UI/Sidebar/OverlayListPanel.cs:186 | re-sorting a sorted category after adding a node only inserts that node |
| OverlayList.FindCategoryFrom | src/UI/Sidebar/OverlayListPanel.cs:194 | the first category with the name from a position on, or -1 exactly when none has it |
| OverlayList.FindOrMakeCategory | src/UI/Sidebar/OverlayListPanel.cs:192-201 | an existing category of that name is returned, the first one, with the list untouched. Otherwise exactly one empty category of that name is appended. Unique names stay unique |
| OverlayList.CategoryName | src/UI/Sidebar/OverlayListPanel.cs:155-162 | a null or empty editor category files under "Unspecified", any other under itself |
| OverlayList.CollectionPreview | src/UI/Sidebar/OverlayListPanel.cs:132-139 | missing graphics raise NullReference. A single frame raises IndexOutOfRange (index -1). No frames give no texture. Otherwise the frame at Length / 2 - 1 is used |
| OverlayList.FirstFrameFrom | src/UI/Sidebar/OverlayListPanel.cs:171 | the first non-null frame from a position on, or -1 exactly when all are null |
| OverlayList.OverlayPreview | src/UI/Sidebar/OverlayListPanel.cs:164-177 | no texture for missing graphics or all-null frames, otherwise the first non-null frame's texture |
| OverlayList.CollectionNodesFailure | src/UI/Sidebar/OverlayListPanel.cs:127-147 | the collections loop fails exactly when the preview of some collection with overlay types fails |
| OverlayList.CollectionNodesTagged | src/UI/Sidebar/OverlayListPanel.cs:127-147 | each collection node is tagged with a collection that has overlay types, and is named after it |
| OverlayList.CollectionFailurePersists | src/UI/Sidebar/OverlayListPanel.cs:127-147 | the first failing preview aborts the whole loop with its error |
| OverlayList.CollectionNodesComplete | src/UI/Sidebar/OverlayListPanel.cs:127-147 | a successful collections loop yields exactly as many nodes as there are collections with overlay types. The node of the k-th such collection comes after those of the earlier ones. It carries the collection's name, the preview of its first overlay type and the collection itself |
| OverlayList.BuildCollectionNodes | src/UI/Sidebar/OverlayListPanel.cs:122-147 | the loop fails exactly when some collection with overlay types has a failing preview. Otherwise it yields one node per such collection, in the collections' order, each with that collection's name, preview and tag |
| OverlayList.OverlayNode | src/UI/Sidebar/OverlayListPanel.cs:179-184 | the node of overlay type i is tagged with that type |
| OverlayList.PlaceNode | src/UI/Sidebar/OverlayListPanel.cs:152-186 | the node goes into the category of that name, found or appended, which then is sorted and holds its old nodes plus this one. No other category changes. The tree gains exactly this node, and unique names stay unique |
| OverlayList.InitialTree | src/UI/Sidebar/OverlayListPanel.cs:120-148 | before the overlay loop the tree is "Collections" alone with the collection nodes, or empty when there are no collections |
| OverlayList.PlacementKeepsInvariant | src/UI/Sidebar/OverlayListPanel.cs:150-187 | filing one more overlay type keeps the tree's shape invariant |
| OverlayList.PlacementKeepsTags | src/UI/Sidebar/OverlayListPanel.cs:150-187 | every overlay node stays in the category named for its type, and collection nodes stay in the first category, "Collections" |
| OverlayList.PlacementKeepsNames | src/UI/Sidebar/OverlayListPanel.cs:150-187 | names stay unique, "Collections" stays first, and every category is named after "Collections" or a filed type's category |
| OverlayList.PlacementKeepsSorted | src/UI/Sidebar/OverlayListPanel.cs:150-187 | every category holding an overlay node stays sorted by text |
| OverlayList.FileOverlayTypes | src/UI/Sidebar/OverlayListPanel.cs:150-187 | after the loop the tree holds the collection nodes plus exactly one node per overlay type, with the shape invariant |
| OverlayList.InitOverlays | src/UI/Sidebar/OverlayListPanel.cs:118-190 | fails exactly when a collection preview fails, with its error. On success: names are unique; "Collections" is first when there are collections; each overlay node is in its type's category; each category with an overlay node is sorted; the nodes are exactly the collection nodes plus one per overlay type |
| OverlayList.OverlayNodeOnce | src/UI/Sidebar/OverlayListPanel.cs:150-184 | each overlay type's node occurs in the finished tree exactly once |

## Left out

- File access, the TMP/SHP/palette parsers and texture creation on the graphics device are outside this component. Archives are a map from file name to contents, the parsers are function parameters, a texture is its size and pixels, and an MGTMPImage is the data it was built from.
- Console logging in the tile loop is left out.
- TheaterGraphics.NewTheaterGraphics: the Palette constructor is not part of this model. When the theater palette is missing, its data is null, and the constructor is taken to raise `NullPalette`. If it did not, the terrain loader would raise KeyNotFound for the same file, so construction fails either way.
- The tile-variation loop is modelled as written. Its comment names lettered variants (clear00a, clear00b, ...), but every path of the first iteration breaks, so those are never probed.
- TerrainDepth.TerrainDepthFromPosition: the southernmost cell is a parameter. GetSouthernmostCell belongs to the base renderer, which is not part of this model.
- Float rounding of the depth values is not modelled. Depths are reals, and the properties are orderings.
- The cell-to-pixel projection, CellMath.CellTopLeftPointFromCellCoords, is an arbitrary function of the map view.
- TextSort.Sort: the culture-sensitive string comparison of OrderBy is an arbitrary total preorder. The sort is an insertion sort that is stable as OrderBy is, but equality with OrderBy's exact output is not stated beyond that.
- Rules.InitFromINI: the property reading, ReadObjectTypePropertiesFromINI at lines 33-38, and InitArt are initializer calls that are not part of this model.
- Rules.InitFromTypeSection: the reflection step that builds an object from its name, and its InvalidOperationException for a type without a string constructor, are left out. Every catalog type has that constructor. An object is its name and Index.
- IniFile is modelled as each section's lines in file order. Its parser and its handling of duplicate sections are not part of this model.
- Rules.GetSectionKeys and Rules.FirstValue: IniFile's handling of a key repeated within a section is not part of this model. The model lists such a key once per line and reads every occurrence with the value of its first line, so a repeated key yields repeated objects of the same name.
- BaseNodes.CreateBaseNode: the structures of the clicked cell are passed in. Map.GetTile returning null for a cell off the map is not modelled. The owner is a position in the house list, which requires each structure's owner to be one of the map's houses.
- DoForFoundationCoords is not part of this model. The foundation cells are an arbitrary list of offsets per building type. OnRectangularFoundation connects them to the rectangle when the list is the full rectangle.
- The model leaves out:
  - the map's base-node registration (RegisterBaseNode, UnregisterBaseNode);
  - building removal itself (only whether it is requested);
  - map invalidation and refresh points;
  - the base LeftDown, LeftUpOnMouseMove and LeftClick calls.
  These are effects on other components.
- DrawPreview and the other cursor-action properties are drawing only.
- OverlayList.InitOverlays requires one graphics slot per overlay type and requires each collection to reference an existing slot. This holds when the overlay textures are loaded per overlay type and indexed by Index. Otherwise the source raises IndexOutOfRangeException, which is not modelled.
- OverlayList.InitOverlays: adding the categories to the tree view is left out. The result is the category list in order.
- A "Collections" category is guaranteed first only when collections exist. An overlay type whose editor category is "Collections" files under such a category even without collections, so the model does not claim that "Collections" exists only when there are collections.
