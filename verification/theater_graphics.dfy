/** The theater asset catalog: one flat, ordered list of tile graphics over
    all tile sets of the theater, and a sparse array of terrain-object
    graphics indexed like the terrain-type list. File access is a map from
    file name to contents; the palette, TMP and SHP parsers are functions
    supplied by the caller. */
module TheaterGraphics {
  import opened Common
  import opened Textures
  import opened DecimalFormat

  /** A numbered group of tiles sharing one file-name prefix. */
  datatype TileSet = TileSet(setName: string, fileName: string, tilesInSet: nat)

  /** The theater configuration: its tile sets in declaration order, the
      theater's file extension and the names of its two palettes. */
  datatype Theater = Theater(tileSets: seq<TileSet>, fileExtension: string, paletteName: string, unitPaletteName: string)

  /** The art-related properties of a terrain-object type. */
  datatype TerrainType = TerrainType(iniName: string, image: Option<string>, theater: bool, spawnsTiberium: bool)

  /** The loaded archives: file name to contents. A name that is absent is a file LoadFile does not find. */
  type FileSystem = map<string, Bytes>

  /** CCFileManager.LoadFile: the file's contents, or None (C# null) when no archive holds it. */
  function LoadFile(fs: FileSystem, name: string): Option<Bytes> {
    if name in fs then Some(fs[name]) else None
  }

  /** The parsers this component calls but does not define: Palette's
      constructor, TmpFile's image count, and ShpFile's parse. */
  datatype Codecs = Codecs(parsePalette: Bytes -> Palette, tmpImageCount: Bytes -> nat, parseShp: Bytes -> ShpFile)

  /** An MGTMPImage, identified by what it was built from: the TMP file's
      contents, the image's index within it, the palette and the tile set. */
  datatype TmpImage = TmpImage(file: Bytes, imageIndex: int, palette: Palette, tileSetId: nat)

  /** The graphics of one tile: its key (tile set, index within the set) and its images. */
  datatype TileImage = TileImage(tileSetId: nat, tileIndex: nat, tmpImages: seq<TmpImage>)

  /** The exceptions of loading and lookup. `NullPalette` is the one the
      Palette constructor raises when given no data. */
  datatype LoadError =
    | KeyNotFound(message: string)
    | ArgumentOutOfRange(index: int)
    | NullPalette

  /** The state of a TheaterGraphics instance. `terrainObjectTextures` is None
      until the terrain textures have been read. */
  datatype Graphics = Graphics(
    theater: Theater,
    palette: Palette,
    tiles: seq<TileImage>,
    terrainObjectTextures: Option<seq<Option<TerrainImage>>>)

  /** What tile loading reads: the archives, the parsers, the theater palette and the theater. */
  datatype TileSource = TileSource(fs: FileSystem, codecs: Codecs, palette: Palette, theater: Theater)

  /** The number of graphics variations the variant loop allows for ('g' - 'a'). */
  const VariantCount: nat := 6

  /** The suffix letter of variation `v` ('a' for 1, 'b' for 2, ...). */
  function VariantLetter(v: int): char {
    if 1 <= v <= 26 then ('a' as int + (v - 1)) as char else 'a'
  }

  /** The file name of tile `i` of a tile set: the set's prefix, the 1-based
      tile number as "D2", and the theater's extension. */
  function TileFileName(tileSet: TileSet, i: nat, extension: string): string {
    tileSet.fileName + FormatD2(i + 1) + extension
  }

  /** Two tiles of one tile set never share a file name. */
  lemma TileFileNamesDistinct(tileSet: TileSet, i: nat, j: nat, extension: string)
    requires i != j
    ensures TileFileName(tileSet, i, extension) != TileFileName(tileSet, j, extension)
  {
    var prefix := tileSet.fileName;
    var a, b := FormatD2(i + 1), FormatD2(j + 1);
    FormatD2Injective(i + 1, j + 1);
    if |a| == |b| && TileFileName(tileSet, i, extension) == TileFileName(tileSet, j, extension) {
      MiddleOfEqualStrings(prefix, a, b, extension);
    }
  }

  /** Equal strings with the same prefix and suffix have equal middles of the same length. */
  lemma MiddleOfEqualStrings(prefix: string, a: string, b: string, suffix: string)
    requires |a| == |b| && prefix + a + suffix == prefix + b + suffix
    ensures a == b
  {
    assert (prefix + a + suffix)[|prefix|..|prefix| + |a|] == a;
    assert (prefix + b + suffix)[|prefix|..|prefix| + |b|] == b;
  }

  /** The single entry the tile loader records for tile `i` of `tileSet`,
      the tile set numbered `tsId`. */
  function TileImageOf(src: TileSource, tileSet: TileSet, tsId: nat, i: nat): (t: TileImage)
    ensures t.tileSetId == tsId && t.tileIndex == i
  {
    match LoadFile(src.fs, TileFileName(tileSet, i, src.theater.fileExtension))
    case None => TileImage(tsId, i, [])
    case Some(data) => TileImage(tsId, i, seq(src.codecs.tmpImageCount(data), k => TmpImage(data, k, src.palette, tsId)))
  }

  /** A missing tile file gives an entry without images; a present one gives
      exactly ImageCount images, the k-th built from image k of that file
      with the theater palette. */
  lemma TileImageContents(src: TileSource, tileSet: TileSet, tsId: nat, i: nat)
    ensures TileFileName(tileSet, i, src.theater.fileExtension) !in src.fs ==> TileImageOf(src, tileSet, tsId, i).tmpImages == []
    ensures TileFileName(tileSet, i, src.theater.fileExtension) in src.fs ==>
      var data := src.fs[TileFileName(tileSet, i, src.theater.fileExtension)];
      var images := TileImageOf(src, tileSet, tsId, i).tmpImages;
      && |images| == src.codecs.tmpImageCount(data)
      && forall k :: 0 <= k < |images| ==> images[k] == TmpImage(data, k, src.palette, tsId)
  {
  }

  /** The body of the tile loop for tile `i` of tile set `tsId`: the
      graphics-variation loop as written. Every path through its first
      iteration ends in `break`, so it probes the un-suffixed file name only
      and records exactly one entry, with no images when the file is missing. */
  method ReadTileVariants(src: TileSource, tsId: nat, i: nat) returns (entries: seq<TileImage>, probed: seq<string>)
    requires tsId < |src.theater.tileSets|
    ensures probed == [TileFileName(src.theater.tileSets[tsId], i, src.theater.fileExtension)]
    ensures entries == [TileImageOf(src, src.theater.tileSets[tsId], tsId, i)]
  {
    var tileSet := src.theater.tileSets[tsId];
    entries, probed := [], [];
    for v := 0 to VariantCount
      invariant v == 0 && entries == [] && probed == []
    {
      var baseName := tileSet.fileName + FormatD2(i + 1);
      if v > 0 {
        baseName := baseName + [VariantLetter(v)];
      }
      var name := baseName + src.theater.fileExtension;
      probed := probed + [name];
      var data := LoadFile(src.fs, name);
      if data.None? {
        if v == 0 {
          entries := entries + [TileImage(tsId, i, [])];
          break;
        } else {
          break;
        }
      }
      var count := src.codecs.tmpImageCount(data.value);
      var images: seq<TmpImage> := [];
      for img := 0 to count
        invariant |images| == img
        invariant forall k :: 0 <= k < img ==> images[k] == TmpImage(data.value, k, src.palette, tsId)
      {
        images := images + [TmpImage(data.value, img, src.palette, tsId)];
      }
      assert images == TileImageOf(src, tileSet, tsId, i).tmpImages;
      entries := entries + [TileImage(tsId, i, images)];
      break;
    }
  }

  /** The entry builder of a tile source, as a function of (tile set, its number, tile index). */
  function TileEntry(src: TileSource): (TileSet, nat, nat) -> TileImage {
    (s: TileSet, tsId: nat, i: nat) => TileImageOf(src, s, tsId, i)
  }

  /** The entries of the first `n` tiles of one tile set, in tile order. */
  function SetEntries<T>(entry: (TileSet, nat, nat) -> T, tileSet: TileSet, tsId: nat, n: nat): seq<T> {
    if n == 0 then [] else SetEntries(entry, tileSet, tsId, n - 1) + [entry(tileSet, tsId, n - 1)]
  }

  /** The entries of all tiles of the first `k` tile sets, set by set. */
  function CatalogEntries<T>(entry: (TileSet, nat, nat) -> T, sets: seq<TileSet>, k: nat): seq<T>
    requires k <= |sets|
  {
    if k == 0 then []
    else CatalogEntries(entry, sets, k - 1) + SetEntries(entry, sets[k - 1], k - 1, sets[k - 1].tilesInSet)
  }

  /** The whole tile catalog of the theater. */
  function AllTiles(src: TileSource): seq<TileImage> {
    CatalogEntries(TileEntry(src), src.theater.tileSets, |src.theater.tileSets|)
  }

  /** The number of tiles in the first `k` tile sets. */
  function TilesBefore(sets: seq<TileSet>, k: nat): nat
    requires k <= |sets|
  {
    if k == 0 then 0 else TilesBefore(sets, k - 1) + sets[k - 1].tilesInSet
  }

  /** ReadTileTextures: for each tile set in order, for each tile index in
      order, the entries the variation loop records. */
  method ReadTileTextures(src: TileSource) returns (tiles: seq<TileImage>)
    ensures tiles == AllTiles(src)
  {
    var sets := src.theater.tileSets;
    tiles := [];
    for tsId := 0 to |sets|
      invariant tiles == CatalogEntries(TileEntry(src), sets, tsId)
    {
      var tileSet := sets[tsId];
      for i := 0 to tileSet.tilesInSet
        invariant tiles == CatalogEntries(TileEntry(src), sets, tsId) + SetEntries(TileEntry(src), tileSet, tsId, i)
      {
        var entries, _ := ReadTileVariants(src, tsId, i);
        tiles := tiles + entries;
        assert SetEntries(TileEntry(src), tileSet, tsId, i + 1) == SetEntries(TileEntry(src), tileSet, tsId, i) + entries;
      }
      assert CatalogEntries(TileEntry(src), sets, tsId + 1)
        == CatalogEntries(TileEntry(src), sets, tsId) + SetEntries(TileEntry(src), tileSet, tsId, tileSet.tilesInSet);
    }
  }

  lemma {:induction false} SetEntriesAt<T>(entry: (TileSet, nat, nat) -> T, tileSet: TileSet, tsId: nat, n: nat, p: nat)
    requires p < n
    ensures |SetEntries(entry, tileSet, tsId, n)| == n
    ensures SetEntries(entry, tileSet, tsId, n)[p] == entry(tileSet, tsId, p)
  {
    if p < n - 1 {
      SetEntriesAt(entry, tileSet, tsId, n - 1, p);
    } else if n > 1 {
      SetEntriesAt(entry, tileSet, tsId, n - 1, 0);
    }
  }

  lemma {:induction false} SetEntriesLength<T>(entry: (TileSet, nat, nat) -> T, tileSet: TileSet, tsId: nat, n: nat)
    ensures |SetEntries(entry, tileSet, tsId, n)| == n
  {
    if n > 0 {
      SetEntriesAt(entry, tileSet, tsId, n, 0);
    }
  }

  lemma {:induction false} CatalogLength<T>(entry: (TileSet, nat, nat) -> T, sets: seq<TileSet>, k: nat)
    requires k <= |sets|
    ensures |CatalogEntries(entry, sets, k)| == TilesBefore(sets, k)
  {
    if k > 0 {
      CatalogLength(entry, sets, k - 1);
      SetEntriesLength(entry, sets[k - 1], k - 1, sets[k - 1].tilesInSet);
    }
  }

  /** TileCount equals the total of TilesInSet over all tile sets. */
  lemma TileCountIsTotal(src: TileSource)
    ensures |AllTiles(src)| == TilesBefore(src.theater.tileSets, |src.theater.tileSets|)
  {
    CatalogLength(TileEntry(src), src.theater.tileSets, |src.theater.tileSets|);
  }

  lemma {:induction false} TilesBeforeMonotone(sets: seq<TileSet>, j: nat, k: nat)
    requires j <= k <= |sets|
    ensures TilesBefore(sets, j) <= TilesBefore(sets, k)
    decreases k - j
  {
    if j < k {
      TilesBeforeMonotone(sets, j, k - 1);
    }
  }

  /** Tile `i` of tile set `tsId` sits at flat position TilesBefore(tsId) + i
      of the first `k` sets' entries, for any `k` past `tsId`. */
  lemma {:induction false} CatalogAt<T>(entry: (TileSet, nat, nat) -> T, sets: seq<TileSet>, k: nat, tsId: nat, i: nat)
    requires tsId < k <= |sets|
    requires i < sets[tsId].tilesInSet
    ensures TilesBefore(sets, tsId) + i < |CatalogEntries(entry, sets, k)|
    ensures CatalogEntries(entry, sets, k)[TilesBefore(sets, tsId) + i] == entry(sets[tsId], tsId, i)
  {
    var a := CatalogEntries(entry, sets, k - 1);
    var b := SetEntries(entry, sets[k - 1], k - 1, sets[k - 1].tilesInSet);
    CatalogLength(entry, sets, k - 1);
    SetEntriesLength(entry, sets[k - 1], k - 1, sets[k - 1].tilesInSet);
    var p := TilesBefore(sets, tsId) + i;
    if tsId < k - 1 {
      CatalogAt(entry, sets, k - 1, tsId, i);
      assert (a + b)[p] == a[p];
    } else {
      SetEntriesAt(entry, sets[k - 1], k - 1, sets[k - 1].tilesInSet, i);
      assert (a + b)[p] == b[i];
    }
  }

  /** Lexicographic order on (tile set, tile index) keys. */
  predicate KeyBefore(a: (int, int), b: (int, int)) {
    a.0 < b.0 || (a.0 == b.0 && a.1 < b.1)
  }

  /** The entries of the first `k` tile sets are in strictly ascending key
      order, for any entry builder that stamps each entry with its own key. */
  lemma {:induction false} CatalogOrdered<T>(entry: (TileSet, nat, nat) -> T, key: T -> (int, int), sets: seq<TileSet>, k: nat)
    requires k <= |sets|
    requires forall s, t, i :: key(entry(s, t, i)) == (t as int, i as int)
    ensures forall j, l :: 0 <= j < l < |CatalogEntries(entry, sets, k)| ==>
      KeyBefore(key(CatalogEntries(entry, sets, k)[j]), key(CatalogEntries(entry, sets, k)[l]))
    ensures forall p :: 0 <= p < |CatalogEntries(entry, sets, k)| ==> 0 <= key(CatalogEntries(entry, sets, k)[p]).0 < k
  {
    if k > 0 {
      CatalogOrdered(entry, key, sets, k - 1);
      var a := CatalogEntries(entry, sets, k - 1);
      var n := sets[k - 1].tilesInSet;
      var b := SetEntries(entry, sets[k - 1], k - 1, n);
      SetEntriesLength(entry, sets[k - 1], k - 1, n);
      forall q | 0 <= q < |b|
        ensures key(b[q]) == (k - 1, q)
      {
        SetEntriesAt(entry, sets[k - 1], k - 1, n, q);
      }
      var s := a + b;
      forall j, l | 0 <= j < l < |s|
        ensures KeyBefore(key(s[j]), key(s[l]))
      {
        if l < |a| {
          assert s[j] == a[j] && s[l] == a[l];
        } else if j < |a| {
          assert s[j] == a[j] && s[l] == b[l - |a|];
        } else {
          assert s[j] == b[j - |a|] && s[l] == b[l - |a|];
        }
      }
      forall p | 0 <= p < |s|
        ensures 0 <= key(s[p]).0 < k
      {
        if p < |a| {
          assert s[p] == a[p];
        } else {
          assert s[p] == b[p - |a|];
        }
      }
    }
  }

  /** The key (TileSetId, TileIndex) of a tile entry. */
  function TileKey(t: TileImage): (int, int) {
    (t.tileSetId as int, t.tileIndex as int)
  }

  /** The catalog lists the tiles in (tile set, tile index) order, each key once. */
  lemma AllTilesOrdered(src: TileSource)
    ensures forall j, l :: 0 <= j < l < |AllTiles(src)| ==> KeyBefore(TileKey(AllTiles(src)[j]), TileKey(AllTiles(src)[l]))
  {
    CatalogOrdered(TileEntry(src), TileKey, src.theater.tileSets, |src.theater.tileSets|);
  }

  /** TileCount. */
  function TileCount(g: Graphics): nat {
    |g.tiles|
  }

  /** GetTileGraphics: the entry at position `id`; an index outside the list
      raises ArgumentOutOfRangeException. */
  function GetTileGraphics(g: Graphics, id: int): (r: Result<TileImage, LoadError>)
    ensures r.Success? <==> 0 <= id < TileCount(g)
    ensures r.Success? ==> r.value == g.tiles[id]
    ensures r.Failure? ==> r.error == ArgumentOutOfRange(id)
  {
    if 0 <= id < |g.tiles| then Success(g.tiles[id]) else Failure(ArgumentOutOfRange(id))
  }

  /** Looking up the flat position of (tsId, i) in a loaded catalog gives that tile's entry. */
  lemma GetTileGraphicsAt(src: TileSource, g: Graphics, tsId: nat, i: nat)
    requires g.tiles == AllTiles(src)
    requires tsId < |src.theater.tileSets|
    requires i < src.theater.tileSets[tsId].tilesInSet
    ensures GetTileGraphics(g, TilesBefore(src.theater.tileSets, tsId) + i) == Success(TileImageOf(src, src.theater.tileSets[tsId], tsId, i))
  {
    var sets := src.theater.tileSets;
    var p := TilesBefore(sets, tsId) + i;
    CatalogAt(TileEntry(src), sets, |sets|, tsId, i);
    assert g.tiles[p] == TileEntry(src)(sets[tsId], tsId, i);
    assert TileEntry(src)(sets[tsId], tsId, i) == TileImageOf(src, sets[tsId], tsId, i);
  }

  /** The SHP file name of a terrain type: its Image if set, otherwise its
      INI name, followed by the theater's extension for theater-specific
      types and ".SHP" for the others. */
  function TerrainFileName(t: TerrainType, theater: Theater): string {
    var stem := match t.image
      case Some(image) => image
      case None => t.iniName;
    stem + (if t.theater then theater.fileExtension else ".SHP")
  }

  /** The message of the KeyNotFoundException raised for a missing palette. */
  function NotFoundMessage(fileName: string): string {
    fileName + " not found from loaded MIX files!"
  }

  /** The error, if any, that aborts reading terrain textures: the theater
      palette is looked up before the unit palette. */
  function PaletteError(fs: FileSystem, theater: Theater): Option<LoadError> {
    if theater.paletteName !in fs then Some(KeyNotFound(NotFoundMessage(theater.paletteName)))
    else if theater.unitPaletteName !in fs then Some(KeyNotFound(NotFoundMessage(theater.unitPaletteName)))
    else None
  }

  /** The terrain array as ReadTerrainObjectTextures fills it: one slot per
      terrain type, empty exactly when the type's file is missing, and
      otherwise the file's frames drawn with the unit palette if the type
      spawns Tiberium and with the theater palette if not. */
  predicate TerrainSlotsLoaded(fs: FileSystem, codecs: Codecs, theater: Theater, terrainTypes: seq<TerrainType>,
                               slots: seq<Option<TerrainImage>>)
    requires theater.paletteName in fs && theater.unitPaletteName in fs
  {
    && |slots| == |terrainTypes|
    && forall i :: 0 <= i < |terrainTypes| ==>
      var name := TerrainFileName(terrainTypes[i], theater);
      && (slots[i].None? <==> name !in fs)
      && (slots[i].Some? ==> slots[i].value == BuildTerrainImage(codecs.parseShp(fs[name]),
            codecs.parsePalette(fs[if terrainTypes[i].spawnsTiberium then theater.unitPaletteName else theater.paletteName])))
  }

  /** ReadTerrainObjectTextures. When a palette is missing the exception
      leaves the instance as it was. Otherwise the terrain array gets one
      slot per terrain type; a slot is empty exactly when the type's file is
      missing, and otherwise holds the file's frames drawn with the unit
      palette if the type spawns Tiberium and the theater palette if not. */
  method ReadTerrainObjectTextures(g: Graphics, fs: FileSystem, codecs: Codecs, terrainTypes: seq<TerrainType>)
    returns (g': Graphics, error: Option<LoadError>)
    ensures error == PaletteError(fs, g.theater)
    ensures error.Some? ==> g' == g
    ensures error.None? ==>
      && g'.theater == g.theater && g'.palette == g.palette && g'.tiles == g.tiles
      && g'.terrainObjectTextures.Some?
      && TerrainSlotsLoaded(fs, codecs, g.theater, terrainTypes, g'.terrainObjectTextures.value)
  {
    var theater := g.theater;
    var theaterPaletteData := LoadFile(fs, theater.paletteName);
    if theaterPaletteData.None? {
      return g, Some(KeyNotFound(NotFoundMessage(theater.paletteName)));
    }
    var theaterPalette := codecs.parsePalette(theaterPaletteData.value);

    var unitPaletteData := LoadFile(fs, theater.unitPaletteName);
    if unitPaletteData.None? {
      return g, Some(KeyNotFound(NotFoundMessage(theater.unitPaletteName)));
    }
    var unitPalette := codecs.parsePalette(unitPaletteData.value);

    var textures: seq<Option<TerrainImage>> := [];
    var i := 0;
    while i < |terrainTypes|
      invariant 0 <= i <= |terrainTypes|
      invariant |textures| == i
      invariant forall k :: 0 <= k < i ==>
        var name := TerrainFileName(terrainTypes[k], theater);
        && (textures[k].None? <==> name !in fs)
        && (textures[k].Some? ==> textures[k].value == BuildTerrainImage(codecs.parseShp(fs[name]),
              if terrainTypes[k].spawnsTiberium then unitPalette else theaterPalette))
    {
      var shpFileName := match terrainTypes[i].image
        case Some(image) => image
        case None => terrainTypes[i].iniName;
      if terrainTypes[i].theater {
        shpFileName := shpFileName + theater.fileExtension;
      } else {
        shpFileName := shpFileName + ".SHP";
      }

      var data := LoadFile(fs, shpFileName);
      if data.None? {
        textures := textures + [None];
      } else {
        var shpFile := codecs.parseShp(data.value);
        textures := textures + [Some(BuildTerrainImage(shpFile, if terrainTypes[i].spawnsTiberium then unitPalette else theaterPalette))];
      }
      i := i + 1;
    }
    g' := g.(terrainObjectTextures := Some(textures));
    error := None;
  }

  /** The TheaterGraphics constructor: loads the theater palette, reads the
      tile catalog with it, then reads the terrain textures. Construction
      fails exactly when one of the two palettes is missing: a missing theater
      palette already fails in the Palette constructor, before any tile is
      read; a missing unit palette fails in the terrain loader. */
  method NewTheaterGraphics(fs: FileSystem, codecs: Codecs, theater: Theater, terrainTypes: seq<TerrainType>)
    returns (r: Result<Graphics, LoadError>)
    ensures r.Failure? <==> PaletteError(fs, theater).Some?
    ensures theater.paletteName !in fs ==> r == Failure(NullPalette)
    ensures theater.paletteName in fs && r.Failure? ==> r.error == PaletteError(fs, theater).value
    ensures r.Success? ==>
      && r.value.theater == theater
      && r.value.palette == codecs.parsePalette(fs[theater.paletteName])
      && r.value.tiles == AllTiles(TileSource(fs, codecs, r.value.palette, theater))
      && r.value.terrainObjectTextures.Some?
      && TerrainSlotsLoaded(fs, codecs, theater, terrainTypes, r.value.terrainObjectTextures.value)
  {
    var paletteData := LoadFile(fs, theater.paletteName);
    if paletteData.None? {
      return Failure(NullPalette);
    }
    var palette := codecs.parsePalette(paletteData.value);
    var tiles := ReadTileTextures(TileSource(fs, codecs, palette, theater));
    var g := Graphics(theater, palette, tiles, None);
    var g', error := ReadTerrainObjectTextures(g, fs, codecs, terrainTypes);
    if error.Some? {
      return Failure(error.value);
    }
    return Success(g');
  }
}
