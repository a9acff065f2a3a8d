/** Indexed-palette sprite frames and the textures built from them: the
    `TerrainImage` and `PositionedTexture` types of the theater graphics and
    the per-pixel palette lookup in which index 0 is transparent. The SHP
    parser itself is outside this model; its output is the `ShpFile` record. */
module Textures {
  import opened Common

  newtype byte = b: int | 0 <= b < 256

  type Bytes = seq<byte>

  /** One palette entry. */
  datatype Rgb = Rgb(r: byte, g: byte, b: byte)

  /** A drawable colour with straight alpha, as XNA's Color. */
  datatype Color = Color(r: byte, g: byte, b: byte, a: byte)

  /** XNA's Color.Transparent. */
  const Transparent: Color := Color(0, 0, 0, 0)

  /** A game palette: one entry for each of the 256 colour indices. */
  type Palette = s: seq<Rgb> | |s| == 256 witness seq(256, _ => Rgb(0, 0, 0))

  /** A palette entry as a drawable colour: the entry's RGB at full opacity. */
  function ToXnaColor(c: Rgb): (col: Color)
    ensures col != Transparent
    ensures col.a == 255
    ensures col.r == c.r && col.g == c.g && col.b == c.b
  {
    Color(c.r, c.g, c.b, 255)
  }

  /** The colour of one pixel index: 0 is the reserved transparent index. */
  function PixelColor(index: byte, palette: Palette): Color {
    if index == 0 then Transparent else ToXnaColor(palette[index])
  }

  /** Decodes a frame's pixel indices into colours, one colour per index, in order. */
  function DecodeIndices(data: Bytes, palette: Palette): (pixels: seq<Color>)
    ensures |pixels| == |data|
    ensures forall j :: 0 <= j < |data| ==> (pixels[j] == Transparent <==> data[j] == 0)
    ensures forall j :: 0 <= j < |data| && data[j] != 0 ==> pixels[j] == ToXnaColor(palette[data[j]])
    decreases |data|
  {
    if |data| == 0 then []
    else [PixelColor(data[0], palette)] + DecodeIndices(data[1..], palette)
  }

  /** Palette entry 0 is never read: two palettes that agree on indices 1..255
      decode every frame to the same colours. */
  lemma DecodeIgnoresEntryZero(data: Bytes, p: Palette, q: Palette)
    requires p[1..] == q[1..]
    ensures DecodeIndices(data, p) == DecodeIndices(data, q)
  {
    var dp, dq := DecodeIndices(data, p), DecodeIndices(data, q);
    forall j | 0 <= j < |data|
      ensures dp[j] == dq[j]
    {
      if data[j] != 0 {
        assert p[data[j]] == p[1..][data[j] - 1] == q[1..][data[j] - 1] == q[data[j]];
      }
    }
  }

  /** Geometry of one SHP frame together with its uncompressed pixel indices,
      absent when the frame holds no image. */
  datatype ShpFrame = ShpFrame(width: int, height: int, xOffset: int, yOffset: int, data: Option<Bytes>)

  /** A parsed SHP file: the container's canvas size and its frames (FrameCount is |frames|). */
  datatype ShpFile = ShpFile(width: int, height: int, frames: seq<ShpFrame>)

  /** A texture as created on the graphics device: its size and its colours. */
  datatype Texture = Texture(width: int, height: int, pixels: seq<Color>)

  /** A texture placed within its container's canvas. */
  datatype PositionedTexture = PositionedTexture(shapeWidth: int, shapeHeight: int, offsetX: int, offsetY: int, texture: Texture)

  /** The frames of a terrain object's graphics; a slot is None where the frame had no image. */
  datatype TerrainImage = TerrainImage(frames: seq<Option<PositionedTexture>>)

  /** `p` is the texture built for `frame` of `shp` under `palette`: the
      container's size, the frame's own offsets, a texture of the frame's size
      whose colours decode the frame's indices. */
  ghost predicate BuiltFrom(p: PositionedTexture, shp: ShpFile, frame: ShpFrame, palette: Palette)
    requires frame.data.Some?
  {
    && p.shapeWidth == shp.width
    && p.shapeHeight == shp.height
    && p.offsetX == frame.xOffset
    && p.offsetY == frame.yOffset
    && p.texture.width == frame.width
    && p.texture.height == frame.height
    && p.texture.pixels == DecodeIndices(frame.data.value, palette)
  }

  /** The frame loop of the TerrainImage constructor, from frame `from` onwards. */
  function TerrainFrames(shp: ShpFile, palette: Palette, from: nat): (slots: seq<Option<PositionedTexture>>)
    requires from <= |shp.frames|
    ensures |slots| == |shp.frames| - from
    ensures forall k :: 0 <= k < |slots| ==> (slots[k].None? <==> shp.frames[from + k].data.None?)
    ensures forall k :: 0 <= k < |slots| && slots[k].Some? ==> BuiltFrom(slots[k].value, shp, shp.frames[from + k], palette)
    decreases |shp.frames| - from
  {
    if from == |shp.frames| then []
    else
      var frame := shp.frames[from];
      var slot := match frame.data
        case None => None
        case Some(indices) =>
          var texture := Texture(frame.width, frame.height, DecodeIndices(indices, palette));
          Some(PositionedTexture(shp.width, shp.height, frame.xOffset, frame.yOffset, texture));
      [slot] + TerrainFrames(shp, palette, from + 1)
  }

  /** The TerrainImage constructor: one slot per frame of the SHP file. */
  function BuildTerrainImage(shp: ShpFile, palette: Palette): (img: TerrainImage)
    ensures |img.frames| == |shp.frames|
    ensures forall i :: 0 <= i < |shp.frames| ==> (img.frames[i].None? <==> shp.frames[i].data.None?)
    ensures forall i :: 0 <= i < |shp.frames| && img.frames[i].Some? ==> BuiltFrom(img.frames[i].value, shp, shp.frames[i], palette)
  {
    TerrainImage(TerrainFrames(shp, palette, 0))
  }
}
