/** The GBI record layouts and flag encodings (gbi/defines.rs): the two-word
    command record, the light record, the G_MTX parameter bits under both
    microcode encodings, and the geometry-mode bits. */
module Defines {
  import opened Base

  /** One display-list command: exactly the word pair `(w0, w1)`. On the
      32-bit host modelled here each word is 32 bits and a record is 8 bytes. */
  datatype Gfx = Gfx(w0: u32, w1: u32)

  const GFX_SIZE: int := 8

  /** Splitting a record into its two words and rebuilding it is lossless. */
  function GfxWords(cmd: Gfx): (words: seq<u32>)
    ensures |words| == 2
  {
    [cmd.w0, cmd.w1]
  }

  function GfxFromWords(words: seq<u32>): Gfx
    requires |words| == 2
  {
    Gfx(words[0], words[1])
  }

  lemma GfxWordsRoundTrip(cmd: Gfx, words: seq<u32>)
    requires |words| == 2
    ensures GfxFromWords(GfxWords(cmd)) == cmd
    ensures GfxWords(GfxFromWords(words)) == words
  {
  }

  type Bytes3 = s: seq<bv8> | |s| == 3 witness [0, 0, 0]

  /** A light: diffuse colour, its copy and a direction, each followed by a
      padding byte. */
  datatype Light = Light(col: Bytes3, pad1: bv8, colc: Bytes3, pad2: bv8, dir: Bytes3, pad3: bv8)

  const LIGHT_ZERO: Light := Light([0, 0, 0], 0, [0, 0, 0], 0, [0, 0, 0], 0)

  function NewLight(col: Bytes3, colc: Bytes3, dir: Bytes3): (l: Light)
    ensures l.col == col && l.colc == colc && l.dir == dir
    ensures l.pad1 == 0 && l.pad2 == 0 && l.pad3 == 0
  {
    Light(col, 0, colc, 0, dir, 0)
  }

  /** `Light::ZERO` is the light built from all-zero components, so its
      padding is zero too. */
  lemma ZeroLightIsNewOfZeros()
    ensures NewLight([0, 0, 0], [0, 0, 0], [0, 0, 0]) == LIGHT_ZERO
    ensures forall i :: 0 <= i < 3 ==> LIGHT_ZERO.col[i] == 0 && LIGHT_ZERO.colc[i] == 0 && LIGHT_ZERO.dir[i] == 0
  {
  }

  /** The two G_MTX encodings: F3DEX2 microcode, and every other microcode. */
  datatype MtxEncoding = F3dex2Encoding | LegacyEncoding

  const G_MTX_NOPUSH_MUL_MODELVIEW: nat := 0x00

  function MtxPush(e: MtxEncoding): nat {
    if e == F3dex2Encoding then 0x01 else 0x04
  }

  function MtxLoad(e: MtxEncoding): nat {
    0x02
  }

  function MtxProjection(e: MtxEncoding): nat {
    if e == F3dex2Encoding then 0x04 else 0x01
  }

  /** The three G_MTX choices as a parameter byte, and back. The flags are
      distinct bits, so OR-ing the chosen ones is adding them. */
  datatype MtxMode = MtxMode(push: bool, load: bool, projection: bool)

  function EncodeMtx(e: MtxEncoding, mode: MtxMode): nat {
    (if mode.push then MtxPush(e) else 0)
    + (if mode.load then MtxLoad(e) else 0)
    + (if mode.projection then MtxProjection(e) else 0)
  }

  function DecodeMtx(e: MtxEncoding, params: nat): MtxMode {
    MtxMode(HasFlag(params, MtxPush(e)), HasFlag(params, MtxLoad(e)), HasFlag(params, MtxProjection(e)))
  }

  predicate SingleBit(b: bv32) {
    b != 0 && b & (b - 1) == 0
  }

  /** Under either encoding PUSH, LOAD and PROJECTION are distinct single
      bits, so every combination of the three choices survives a round trip
      through the parameter byte; value 0 is no-push, multiply, modelview. */
  lemma MtxEncodingRoundTrip(e: MtxEncoding, mode: MtxMode)
    ensures {MtxPush(e), MtxLoad(e), MtxProjection(e)} == {1, 2, 4}
    ensures DecodeMtx(e, EncodeMtx(e, mode)) == mode
    ensures DecodeMtx(e, G_MTX_NOPUSH_MUL_MODELVIEW) == MtxMode(false, false, false)
  {
  }

  /** The non-F3DEX2 encoding swaps the PUSH and PROJECTION bits and keeps LOAD. */
  lemma LegacySwapsPushAndProjection(mode: MtxMode)
    ensures MtxPush(LegacyEncoding) == MtxProjection(F3dex2Encoding)
    ensures MtxProjection(LegacyEncoding) == MtxPush(F3dex2Encoding)
    ensures MtxLoad(LegacyEncoding) == MtxLoad(F3dex2Encoding)
    ensures EncodeMtx(LegacyEncoding, mode)
         == EncodeMtx(F3dex2Encoding, MtxMode(mode.projection, mode.load, mode.push))
  {
  }

  // Geometry-mode bits.
  const G_ZBUFFER: bv32 := 1 << 0
  const G_SHADE: bv32 := 1 << 2
  const G_CULL_FRONT: bv32 := 1 << 9
  const G_CULL_BACK: bv32 := 1 << 10
  const G_CULL_BOTH: bv32 := G_CULL_FRONT | G_CULL_BACK
  const G_FOG: bv32 := 1 << 16
  const G_LIGHTING: bv32 := 1 << 17
  const G_TEXTURE_GEN: bv32 := 1 << 18
  const G_TEXTURE_GEN_LINEAR: bv32 := 1 << 19
  const G_SHADING_SMOOTH: bv32 := 1 << 21
  const G_CLIPPING: bv32 := 1 << 23

  /** Every named geometry flag except the G_CULL_BOTH combination. */
  const GEOMETRY_FLAGS: seq<bv32> := [G_ZBUFFER, G_SHADE, G_CULL_FRONT, G_CULL_BACK, G_FOG,
                                      G_LIGHTING, G_TEXTURE_GEN, G_TEXTURE_GEN_LINEAR,
                                      G_SHADING_SMOOTH, G_CLIPPING]

  /** The geometry flags are distinct single bits inside the 24-bit field a
      G_GEOMETRYMODE command can clear, and G_CULL_BOTH is exactly the two
      cull bits, 0x600. */
  lemma GeometryFlagsAreDistinctBits()
    ensures G_CULL_BOTH == G_CULL_FRONT | G_CULL_BACK == 0x600
    ensures forall i :: 0 <= i < |GEOMETRY_FLAGS| ==>
      SingleBit(GEOMETRY_FLAGS[i]) && GEOMETRY_FLAGS[i] < 1 << 24
    ensures forall i, j :: 0 <= i < j < |GEOMETRY_FLAGS| ==> GEOMETRY_FLAGS[i] & GEOMETRY_FLAGS[j] == 0
  {
  }
}
