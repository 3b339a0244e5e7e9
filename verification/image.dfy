/** Texture decoding (image.rs): the colour-depth scaling helpers, the
    RGBA5551 unpacker, palette lookups, the eight row-walking `decode_tex_*`
    decoders, the straight RGBA32 copy, palette parsing and the row padding.
    Buffers are byte sequences; the source's `Cursor` reads become bounds
    checks on the source sequence, and an out-of-range write into `dest` (a
    panic in the source) becomes `Err(BufferOverrun)`. Arithmetic follows a
    release build: `u32`/`i32` additions and multiplications wrap. */
module Image {
  import opened Base
  import opened Utils

  datatype Option<T> = None | Some(value: T)

  /** `ImageSize`: bits per texel as a two-bit code. */
  datatype ImageSize = Siz4b | Siz8b | Siz16b | Siz32b

  /** `size as i32`. */
  function SizeValue(size: ImageSize): (v: nat)
    ensures v < 4
  {
    match size
    case Siz4b => 0
    case Siz8b => 1
    case Siz16b => 2
    case Siz32b => 3
  }

  /** `get_bits_per_pixel`: four bits doubled once per size code. */
  function BitsPerPixel(size: ImageSize): (bits: nat)
    ensures bits == 4 * Pow2(SizeValue(size))
  {
    match size
    case Siz4b => 4
    case Siz8b => 8
    case Siz16b => 16
    case Siz32b => 32
  }

  /** `get_tlut_size`: the palette entry count, 16 times larger per size
      code (not 2^bits: 16-bit textures get 0x1000 entries). */
  function TlutSize(size: ImageSize): (n: nat)
    ensures n == Pow2(4 * SizeValue(size) + 4)
  {
    Pow2Values();
    assert Pow2(4) == 0x10;
    match size
    case Siz4b => 0x10
    case Siz8b => 0x100
    case Siz16b => 0x1000
    case Siz32b => 0x1_0000
  }

  /** `TextureLUT`: the palette mode. */
  datatype TextureLut = TtNone | TtRgba16 | TtIa16

  function TlutValue(mode: TextureLut): nat {
    match mode
    case TtNone => 0
    case TtRgba16 => 2
    case TtIa16 => 3
  }

  // ---------------------------------------------------------------------
  // Colour-depth scaling

  /** `scale3to8`: a `u8` multiplication by 0x24, wrapping. */
  function Scale3To8(n: u8): (r: u8)
    ensures n < 8 ==> r == 36 * n <= 252
  {
    (n * 0x24) % 0x100
  }

  /** `scale4to8`: a `u8` multiplication by 0x11, wrapping. */
  function Scale4To8(n: u8): (r: u8)
    ensures n < 16 ==> r == 17 * n
  {
    (n * 0x11) % 0x100
  }

  /** `scale5to8`: a `u16` multiplication by 0xFF (wrapping), a division by
      0x1F and a truncation to `u8`. */
  function Scale5To8(n: u16): (r: u8)
    ensures n < 32 ==> r == n * 0xFF / 0x1F
  {
    var product := (n * 0xFF) % 0x1_0000;
    assert n < 32 ==> product == n * 0xFF && product / 0x1F <= 0xFF;
    (product / 0x1F) % 0x100
  }

  /** The 5-bit scaling maps 0 to 0 and 31 to 255 and is strictly
      increasing on 5-bit inputs, so no two 5-bit values share a colour. */
  lemma Scale5To8Range(m: u16, n: u16)
    requires m < n < 32
    ensures Scale5To8(0) == 0 && Scale5To8(31) == 255
    ensures Scale5To8(m) < Scale5To8(n)
  {
  }

  /** The 8-to-5-bit reduction that undoes the 5-bit scaling. */
  function Reduce8To5(v: u8): nat {
    (v * 0x1F + 254) / 0xFF
  }

  lemma Scale5To8RoundTrip(n: u16)
    requires n < 32
    ensures Reduce8To5(Scale5To8(n)) == n
  {
  }

  /** The 3- and 4-bit scalings are undone by dividing by 36 and 17. */
  lemma NarrowScalesRoundTrip(n: u8)
    ensures n < 8 ==> Scale3To8(n) / 36 == n
    ensures n < 16 ==> Scale4To8(n) / 17 == n && (n == 15 ==> Scale4To8(n) == 255)
  {
  }

  // ---------------------------------------------------------------------
  // Colours and writes

  /** `r5g5b5a1`'s colour: red, green and blue are the scaled 5-bit fields
      at bits 11, 6 and 1, alpha is 0xFF exactly when bit 0 is set. */
  function R5G5B5A1(pixel: u16): (color: seq<u8>)
    ensures |color| == 4
    ensures color[0] == Scale5To8(pixel / 0x800) && color[1] == Scale5To8((pixel / 0x40) % 0x20)
    ensures color[2] == Scale5To8((pixel / 2) % 0x20)
    ensures color[3] == (if pixel % 2 == 1 then 0xFF else 0)
  {
    [Scale5To8(pixel / 0x800), Scale5To8((pixel / 0x40) % 0x20), Scale5To8((pixel / 2) % 0x20),
     if pixel % 2 == 1 then 0xFF else 0]
  }

  /** Repacks an RGBA8888 colour into 5551. */
  function Pack5551(color: seq<u8>): nat
    requires |color| == 4
  {
    Reduce8To5(color[0]) * 0x800 + Reduce8To5(color[1]) * 0x40 + Reduce8To5(color[2]) * 2
      + (if color[3] == 0xFF then 1 else 0)
  }

  /** Unpacking loses nothing: repacking gives back the pixel, so distinct
      pixels unpack to distinct colours. */
  lemma {:induction false} R5G5B5A1RoundTrip(pixel: u16)
    ensures Pack5551(R5G5B5A1(pixel)) == pixel
  {
    var color := R5G5B5A1(pixel);
    Scale5To8RoundTrip(pixel / 0x800);
    Scale5To8RoundTrip((pixel / 0x40) % 0x20);
    Scale5To8RoundTrip((pixel / 2) % 0x20);
    assert Reduce8To5(color[0]) == pixel / 0x800;
    assert Reduce8To5(color[1]) == (pixel / 0x40) % 0x20;
    assert Reduce8To5(color[2]) == (pixel / 2) % 0x20;
    PixelFields(pixel);
  }

  /** A 16-bit pixel is the sum of its 5-5-5-1 fields. */
  lemma PixelFields(pixel: u16)
    ensures pixel == (pixel / 0x800) * 0x800 + ((pixel / 0x40) % 0x20) * 0x40 + ((pixel / 2) % 0x20) * 2 + pixel % 2
  {
    var half := pixel / 2;
    assert pixel == 2 * half + pixel % 2;
    assert half == 0x20 * (half / 0x20) + half % 0x20;
    assert half / 0x20 == pixel / 0x40;
    var high := pixel / 0x40;
    assert high == 0x20 * (high / 0x20) + high % 0x20;
    assert high / 0x20 == pixel / 0x800;
  }

  /** Writes `bytes` into `dest` at `at`; a write past the end panics in
      the source. */
  function WriteBytes(dest: seq<u8>, at: nat, bytes: seq<u8>): (r: Result<seq<u8>>)
    ensures r.Ok? <==> at + |bytes| <= |dest|
    ensures r.Ok? ==> |r.value| == |dest|
    ensures r.Ok? ==> forall i :: 0 <= i < |dest| ==>
      r.value[i] == if at <= i < at + |bytes| then bytes[i - at] else dest[i]
  {
    if at + |bytes| <= |dest| then Ok(dest[..at] + bytes + dest[at + |bytes|..]) else Err(BufferOverrun)
  }

  /** Palette entry `index`: the four bytes at `4 * index` of the table. */
  function TlutColor(table: seq<u8>, index: nat): (r: Result<seq<u8>>)
    ensures r.Ok? <==> 4 * index + 4 <= |table|
    ensures r.Ok? ==> |r.value| == 4 && forall c :: 0 <= c < 4 ==> r.value[c] == table[4 * index + c]
  {
    if 4 * index + 4 <= |table| then Ok(table[4 * index .. 4 * index + 4]) else Err(BufferOverrun)
  }

  /** `copy_tlut_color`: palette entry `index` copied to `dest` at `at`. */
  function CopyTlutColor(dest: seq<u8>, at: nat, table: seq<u8>, index: nat): (r: Result<seq<u8>>)
    ensures r.Ok? <==> 4 * index + 4 <= |table| && at + 4 <= |dest|
    ensures r.Ok? ==> |r.value| == |dest| && forall i :: 0 <= i < |dest| ==>
      r.value[i] == if at <= i < at + 4 then table[4 * index + i - at] else dest[i]
  {
    var color :- TlutColor(table, index);
    WriteBytes(dest, at, color)
  }

  // ---------------------------------------------------------------------
  // The row-walking decoders

  /** The eight `decode_tex_*` functions that walk rows of texels. */
  datatype TexFormat = Rgba16 | Ci4 | Ci8 | Ia4 | Ia8 | Ia16 | I4 | I8

  /** The size each decoder passes to `padding_for_texture`. */
  function FormatSize(f: TexFormat): ImageSize {
    match f
    case Rgba16 => Siz16b
    case Ia16 => Siz16b
    case Ci8 => Siz8b
    case Ia8 => Siz8b
    case I8 => Siz8b
    case Ci4 => Siz4b
    case Ia4 => Siz4b
    case I4 => Siz4b
  }

  /** Source bytes read per step, and the step of `source_index`. */
  function ReadBytes(f: TexFormat): (n: nat)
    ensures n == (if FormatSize(f) == Siz16b then 2 else 1)
  {
    if f == Rgba16 || f == Ia16 then 2 else 1
  }

  /** Destination bytes written per step, and the step of `dest_index`:
      4-bit formats emit two RGBA texels per source byte. */
  function Span(f: TexFormat): (n: nat)
    ensures n == (if FormatSize(f) == Siz4b then 8 else 4)
  {
    if f == Ci4 || f == Ia4 || f == I4 then 8 else 4
  }

  /** Steps per row: `0..width`, or `(0..width).step_by(2)` for 4-bit
      formats, which is `ceil(width / 2)`. */
  function StepsPerRow(f: TexFormat, width: u32): (n: nat)
    ensures FormatSize(f) == Siz4b ==> 2 * n == width || 2 * n == width + 1
    ensures FormatSize(f) != Siz4b ==> n == width
  {
    if FormatSize(f) == Siz4b then (width + 1) / 2 else width
  }

  /** A big-endian read of `width` bytes (1 or 2) at `position`; `None`
      when the read would run past the end, as the source's `Cursor` read
      fails. */
  function ReadUnit(source: seq<u8>, position: nat, width: nat): (r: Option<nat>)
    requires width == 1 || width == 2
    ensures r.Some? <==> position + width <= |source|
    ensures r.Some? && width == 1 ==> r.value == source[position]
    ensures r.Some? && width == 2 ==> r.value == (source[position] as int) * 0x100 + source[position + 1]
    ensures r.Some? ==> r.value < Pow2(8 * width)
  {
    Pow2Values();
    if position + width > |source| then None
    else if width == 1 then Some(source[position] as nat)
    else Some((source[position] as nat) * 0x100 + source[position + 1])
  }

  /** The RGBA bytes one step emits for the unit it read: the channel
      layout of each decoder. */
  function TexelOf(f: TexFormat, unit: nat, tlut: seq<u8>): (r: Result<seq<u8>>)
    requires unit < (if ReadBytes(f) == 2 then 0x1_0000 else 0x100)
    ensures r.Ok? ==> |r.value| == Span(f)
    ensures r.Err? ==> f == Ci4 || f == Ci8
  {
    match f
    case Rgba16 => Ok(R5G5B5A1(unit))
    case Ci4 =>
      var high :- TlutColor(tlut, unit / 16);
      var low :- TlutColor(tlut, unit % 16);
      Ok(high + low)
    case Ci8 => TlutColor(tlut, unit)
    case Ia4 =>
      var i0, a0: u8 := Scale3To8((unit / 32) % 8), if (unit / 16) % 2 == 1 then 0xFF else 0;
      var i1, a1: u8 := Scale3To8((unit / 2) % 8), if unit % 2 == 1 then 0xFF else 0;
      Ok([i0, i0, i0, a0, i1, i1, i1, a1])
    case Ia8 =>
      var i, a := Scale4To8(unit / 16), Scale4To8(unit % 16);
      Ok([i, i, i, a])
    case Ia16 =>
      var i, a: u8 := unit / 0x100, unit % 0x100;
      Ok([i, i, i, a])
    case I4 =>
      var i0, i1 := Scale4To8(unit / 16), Scale4To8(unit % 16);
      Ok([i0, i0, i0, i0, i1, i1, i1, i1])
    case I8 => Ok([unit, unit, unit, unit])
  }

  /** The channel layout of each decoder: RGBA16 unpacks 5551; CI8 copies
      palette entry `unit`; CI4 copies the entries of the high then the low
      nibble; IA4 scales the 3-bit intensity and expands the 1-bit alpha of
      each nibble, high nibble first; IA8 scales the intensity and alpha
      nibbles; IA16 takes the high byte as intensity and the low byte as
      alpha; I4 replicates each scaled nibble, high first, into all four
      channels; I8 replicates the byte. */
  lemma TexelLayouts(f: TexFormat, unit: nat, tlut: seq<u8>)
    requires unit < (if ReadBytes(f) == 2 then 0x1_0000 else 0x100)
    ensures var r := TexelOf(f, unit, tlut);
      && (f == Rgba16 ==> r == Ok(R5G5B5A1(unit)))
      && (f == Ci8 ==> r == TlutColor(tlut, unit))
      && (f == Ci4 ==> (r.Ok? <==> 4 * (unit / 16) + 4 <= |tlut| && 4 * (unit % 16) + 4 <= |tlut|))
      && (f == Ci4 && r.Ok? ==> r.value == TlutColor(tlut, unit / 16).value + TlutColor(tlut, unit % 16).value)
      && (f == Ia4 ==> r == Ok([36 * (unit / 32), 36 * (unit / 32), 36 * (unit / 32), if (unit / 16) % 2 == 1 then 0xFF else 0,
                                36 * ((unit / 2) % 8), 36 * ((unit / 2) % 8), 36 * ((unit / 2) % 8), if unit % 2 == 1 then 0xFF else 0]))
      && (f == Ia8 ==> r == Ok([17 * (unit / 16), 17 * (unit / 16), 17 * (unit / 16), 17 * (unit % 16)]))
      && (f == Ia16 ==> r == Ok([unit / 0x100, unit / 0x100, unit / 0x100, unit % 0x100]))
      && (f == I4 ==> r == Ok([17 * (unit / 16), 17 * (unit / 16), 17 * (unit / 16), 17 * (unit / 16),
                               17 * (unit % 16), 17 * (unit % 16), 17 * (unit % 16), 17 * (unit % 16)]))
      && (f == I8 ==> r == Ok([unit, unit, unit, unit]))
  {
    match f
    case Rgba16 =>
    case Ci8 =>
    case Ci4 =>
    case Ia4 =>
    case Ia8 =>
    case Ia16 =>
    case I4 =>
    case I8 =>
  }

  /** One step of a decoder's inner loop: read at `position`; on success
      write the step's texels at `at`; on a failed read leave `dest` as it
      is, except `ia8`, whose read is unwrapped and panics. */
  function DecodeStep(f: TexFormat, dest: seq<u8>, at: nat, source: seq<u8>, position: nat, tlut: seq<u8>): (r: Result<seq<u8>>)
    ensures r.Ok? ==> |r.value| == |dest|
    ensures r.Ok? ==> forall i :: 0 <= i < |dest| && (i < at || at + Span(f) <= i) ==> r.value[i] == dest[i]
  {
    match ReadUnit(source, position, ReadBytes(f))
    case None => if f == Ia8 then Err(BufferOverrun) else Ok(dest)
    case Some(unit) =>
      var texel :- TexelOf(f, unit, tlut);
      WriteBytes(dest, at, texel)
  }

  /** The inputs a row-walking decoder takes; `tlut` is only read by the
      palette formats. */
  datatype Tile = Tile(format: TexFormat, source: seq<u8>, sourceOffset: u32, width: u32, height: u32,
                       tlut: seq<u8>, line: u32, deinterleave: bool)

  function RowSteps(t: Tile): nat {
    StepsPerRow(t.format, t.width)
  }

  function PadWidth(t: Tile): i32 {
    PaddingForTexture(FormatSize(t.format), t.line, t.width)
  }

  /** `source_index as u32` before step `x` of row `y`: every step adds
      the read width, every finished row adds `pad_width`. The source keeps
      an `i32` that wraps; its reinterpretation as `u32` is this value. */
  function SourceIndex(t: Tile, y: nat, x: nat): u32
    decreases y, x
  {
    if x > 0 then (SourceIndex(t, y, x - 1) + ReadBytes(t.format)) % TWO_32
    else if y > 0 then (SourceIndex(t, y - 1, RowSteps(t)) + PadWidth(t)) % TWO_32
    else 0
  }

  /** `dest_index` before step `x` of row `y`: every step adds the span. */
  function DestIndex(t: Tile, y: nat, x: nat): nat
    decreases y, x
  {
    if x > 0 then DestIndex(t, y, x - 1) + Span(t.format)
    else if y > 0 then DestIndex(t, y - 1, RowSteps(t))
    else 0
  }

  /** `index ^ 4`: flips bit 2. */
  function Xor4(index: u32): u32 {
    if (index / 4) % 2 == 1 then index - 4 else index + 4
  }

  /** `index ^ di`, with `di` 4 on odd rows when de-interleaving, else 0. */
  function Deinterleave(index: u32, y: nat, deinterleave: bool): (r: u32)
    ensures !deinterleave || y % 2 == 0 ==> r == index
    ensures deinterleave && y % 2 == 1 ==> r == Xor4(index)
  {
    if deinterleave && y % 2 == 1 then Xor4(index) else index
  }

  /** The cursor position of step `x` of row `y`. */
  function Position(t: Tile, y: nat, x: nat): u32 {
    (t.sourceOffset + Deinterleave(SourceIndex(t, y, x), y, t.deinterleave)) % TWO_32
  }

  /** Step `x` of row `y` applied to `out`. */
  function StepAt(t: Tile, out: seq<u8>, y: nat, x: nat): (r: Result<seq<u8>>)
    ensures r.Ok? ==> |r.value| == |out|
  {
    DecodeStep(t.format, out, DestIndex(t, y, x), t.source, Position(t, y, x), t.tlut)
  }

  /** The first `x` steps of row `y`, applied in order to `start`. */
  function DecodeColumns(t: Tile, start: seq<u8>, y: nat, x: nat): (r: Result<seq<u8>>)
    ensures r.Ok? ==> |r.value| == |start|
    decreases x
  {
    if x == 0 then Ok(start)
    else
      var before :- DecodeColumns(t, start, y, x - 1);
      StepAt(t, before, y, x - 1)
  }

  /** The first `y` rows, applied in order to `dest`. */
  function DecodeRows(t: Tile, dest: seq<u8>, y: nat): (r: Result<seq<u8>>)
    ensures r.Ok? ==> |r.value| == |dest|
    decreases y
  {
    if y == 0 then Ok(dest)
    else
      var before :- DecodeRows(t, dest, y - 1);
      DecodeColumns(t, before, y - 1, RowSteps(t))
  }

  /** What a row-walking decoder leaves in `dest`. */
  function Decode(t: Tile, dest: seq<u8>): Result<seq<u8>> {
    DecodeRows(t, dest, t.height)
  }

  /** Finishing row `y - 1` adds `pad_width` to the source index and
      nothing to the destination index. */
  lemma RowEndIndices(t: Tile, y: nat)
    requires y > 0
    ensures SourceIndex(t, y, 0) == (SourceIndex(t, y - 1, RowSteps(t)) + PadWidth(t)) % TWO_32
    ensures DestIndex(t, y, 0) == DestIndex(t, y - 1, RowSteps(t))
  {
    RowEndSource(t, y);
    RowEndDest(t, y);
  }

  lemma RowEndSource(t: Tile, y: nat)
    requires y > 0
    ensures SourceIndex(t, y, 0) == (SourceIndex(t, y - 1, RowSteps(t)) + PadWidth(t)) % TWO_32
  {
  }

  lemma RowEndDest(t: Tile, y: nat)
    requires y > 0
    ensures DestIndex(t, y, 0) == DestIndex(t, y - 1, RowSteps(t))
  {
  }

  /** The inner loop of the `decode_tex_*` functions over row `y`, on the
      bytes `rowStart` the earlier rows left: `source_index` grows by the
      read width and `dest_index` by the span per step. Ends with both
      indices at the end of the row, or with the error the decode ends with. */
  method DecodeRow(t: Tile, dest: seq<u8>, rowStart: seq<u8>, y: nat, sourceIndex0: u32, destIndex0: nat)
    returns (r: Result<seq<u8>>, sourceIndex: u32, destIndex: nat)
    requires DecodeRows(t, dest, y) == Ok(rowStart)
    requires sourceIndex0 == SourceIndex(t, y, 0) && destIndex0 == DestIndex(t, y, 0)
    ensures r == DecodeRows(t, dest, y + 1)
    ensures r.Ok? ==> sourceIndex == SourceIndex(t, y, RowSteps(t)) && destIndex == DestIndex(t, y, RowSteps(t))
  {
    var out := rowStart;
    sourceIndex, destIndex := sourceIndex0, destIndex0;
    var x: nat := 0;
    while x < RowSteps(t)
      invariant x <= RowSteps(t)
      invariant sourceIndex == SourceIndex(t, y, x) && destIndex == DestIndex(t, y, x)
      invariant DecodeColumns(t, rowStart, y, x) == Ok(out)
    {
      var position := (t.sourceOffset + Deinterleave(sourceIndex, y, t.deinterleave)) % TWO_32;
      var next := DecodeStep(t.format, out, destIndex, t.source, position, t.tlut);
      ColumnStep(t, rowStart, out, y, x, sourceIndex, destIndex, position);
      if next.Err? {
        ColumnsErrorPersists(t, rowStart, y, x + 1, RowSteps(t));
        return next, sourceIndex, destIndex;
      }
      out := next.value;
      sourceIndex := (sourceIndex + ReadBytes(t.format)) % TWO_32;
      destIndex := destIndex + Span(t.format);
      x := x + 1;
    }
    RowStep(t, dest, rowStart, y);
    return Ok(out), sourceIndex, destIndex;
  }

  /** One pass of the inner loop is the fold's next step: it reads at the
      de-interleaved `source_index` and writes at `dest_index`. */
  lemma ColumnStep(t: Tile, rowStart: seq<u8>, out: seq<u8>, y: nat, x: nat, sourceIndex: u32, destIndex: nat, position: u32)
    requires DecodeColumns(t, rowStart, y, x) == Ok(out)
    requires sourceIndex == SourceIndex(t, y, x) && destIndex == DestIndex(t, y, x)
    requires position == (t.sourceOffset + Deinterleave(sourceIndex, y, t.deinterleave)) % TWO_32
    ensures DecodeColumns(t, rowStart, y, x + 1) == DecodeStep(t.format, out, destIndex, t.source, position, t.tlut)
    ensures (sourceIndex + ReadBytes(t.format)) % TWO_32 == SourceIndex(t, y, x + 1)
    ensures destIndex + Span(t.format) == DestIndex(t, y, x + 1)
  {
    assert position == Position(t, y, x);
    FoldStep(t, rowStart, out, y, x);
    StepAtCursor(t, out, y, x, destIndex, position);
    IndicesStep(t, y, x);
  }

  lemma StepAtCursor(t: Tile, out: seq<u8>, y: nat, x: nat, destIndex: nat, position: u32)
    requires destIndex == DestIndex(t, y, x) && position == Position(t, y, x)
    ensures StepAt(t, out, y, x) == DecodeStep(t.format, out, destIndex, t.source, position, t.tlut)
  {
  }

  lemma FoldStep(t: Tile, rowStart: seq<u8>, out: seq<u8>, y: nat, x: nat)
    requires DecodeColumns(t, rowStart, y, x) == Ok(out)
    ensures DecodeColumns(t, rowStart, y, x + 1) == StepAt(t, out, y, x)
  {
  }

  /** Both indices advance by one step's width within a row. */
  lemma IndicesStep(t: Tile, y: nat, x: nat)
    ensures SourceIndex(t, y, x + 1) == (SourceIndex(t, y, x) + ReadBytes(t.format)) % TWO_32
    ensures DestIndex(t, y, x + 1) == DestIndex(t, y, x) + Span(t.format)
  {
  }

  /** A row's steps after the earlier rows are the fold's next row. */
  lemma RowStep(t: Tile, dest: seq<u8>, rowStart: seq<u8>, y: nat)
    requires DecodeRows(t, dest, y) == Ok(rowStart)
    ensures DecodeRows(t, dest, y + 1) == DecodeColumns(t, rowStart, y, RowSteps(t))
  {
  }

  /** The `decode_tex_*` functions: every row in turn, with `pad_width`
      added to `source_index` after each. */
  method DecodeTexture(t: Tile, dest: seq<u8>) returns (r: Result<seq<u8>>)
    ensures r == Decode(t, dest)
  {
    var padWidth := PadWidth(t);
    var out := dest;
    var destIndex := 0;
    var sourceIndex: u32 := 0;
    var y: nat := 0;
    while y < t.height
      invariant y <= t.height
      invariant sourceIndex == SourceIndex(t, y, 0) && destIndex == DestIndex(t, y, 0)
      invariant DecodeRows(t, dest, y) == Ok(out)
    {
      var row;
      row, sourceIndex, destIndex := DecodeRow(t, dest, out, y, sourceIndex, destIndex);
      if row.Err? {
        RowsErrorPersists(t, dest, y + 1, t.height);
        return row;
      }
      out := row.value;
      sourceIndex := (sourceIndex + padWidth) % TWO_32;
      y := y + 1;
      RowEndIndices(t, y);
    }
    return Ok(out);
  }

  /** A failed step makes the rest of its row fail with its error. */
  lemma {:induction false} ColumnsErrorPersists(t: Tile, start: seq<u8>, y: nat, x: nat, n: nat)
    requires x <= n && DecodeColumns(t, start, y, x).Err?
    ensures DecodeColumns(t, start, y, n) == DecodeColumns(t, start, y, x)
    decreases n
  {
    if n > x {
      ColumnsErrorPersists(t, start, y, x, n - 1);
      ColumnErrorStep(t, start, y, n - 1);
    }
  }

  lemma ColumnErrorStep(t: Tile, start: seq<u8>, y: nat, x: nat)
    requires DecodeColumns(t, start, y, x).Err?
    ensures DecodeColumns(t, start, y, x + 1) == DecodeColumns(t, start, y, x)
  {
  }

  /** A failed row makes the whole decode fail with its error. */
  lemma {:induction false} RowsErrorPersists(t: Tile, dest: seq<u8>, y: nat, n: nat)
    requires y <= n && DecodeRows(t, dest, y).Err?
    ensures DecodeRows(t, dest, n) == DecodeRows(t, dest, y)
    decreases n
  {
    if n > y {
      RowsErrorPersists(t, dest, y, n - 1);
      RowErrorStep(t, dest, n - 1);
    }
  }

  lemma RowErrorStep(t: Tile, dest: seq<u8>, y: nat)
    requires DecodeRows(t, dest, y).Err?
    ensures DecodeRows(t, dest, y + 1) == DecodeRows(t, dest, y)
  {
  }

  // Where the walk writes

  /** `dest_index` never decreases along a row. */
  lemma {:induction false} DestIndexGrowsInRow(t: Tile, y: nat, x: nat, n: nat)
    requires x <= n
    ensures DestIndex(t, y, x) <= DestIndex(t, y, n)
    decreases n
  {
    if n > x {
      DestIndexGrowsInRow(t, y, x, n - 1);
    }
  }

  /** Nor from one row start to a later one. */
  lemma {:induction false} DestIndexGrowsAcrossRows(t: Tile, y: nat, n: nat)
    requires y <= n
    ensures DestIndex(t, y, 0) <= DestIndex(t, n, 0)
    decreases n
  {
    if n > y {
      DestIndexGrowsAcrossRows(t, y, n - 1);
      DestIndexGrowsInRow(t, n - 1, 0, RowSteps(t));
    }
  }

  /** The first `x` steps of row `y` write only between the row's first
      `dest_index` and its `dest_index` after step `x`. */
  lemma {:induction false} ColumnsFrame(t: Tile, start: seq<u8>, y: nat, x: nat)
    requires DecodeColumns(t, start, y, x).Ok?
    ensures forall i :: 0 <= i < |start| && (i < DestIndex(t, y, 0) || DestIndex(t, y, x) <= i) ==>
      DecodeColumns(t, start, y, x).value[i] == start[i]
    decreases x
  {
    if x > 0 {
      assert DecodeColumns(t, start, y, x - 1).Ok?;
      ColumnsFrame(t, start, y, x - 1);
      DestIndexGrowsInRow(t, y, 0, x - 1);
    }
  }

  /** The first `y` rows leave every byte from row `y`'s start on alone. */
  lemma {:induction false} RowsFrame(t: Tile, dest: seq<u8>, y: nat)
    requires DecodeRows(t, dest, y).Ok?
    ensures forall i :: DestIndex(t, y, 0) <= i < |dest| ==> DecodeRows(t, dest, y).value[i] == dest[i]
    decreases y
  {
    if y > 0 {
      RowUnfolds(t, dest, y);
      var before := DecodeRows(t, dest, y - 1).value;
      RowsFrame(t, dest, y - 1);
      ColumnsFrame(t, before, y - 1, RowSteps(t));
      RowEndIndices(t, y);
      DestIndexGrowsAcrossRows(t, y - 1, y);
      KeptTwice(dest, before, DecodeRows(t, dest, y).value, DestIndex(t, y - 1, 0), DestIndex(t, y, 0));
    }
  }

  /** Bytes from `from` on that one pass kept, and that a second pass
      from `to >= from` on kept too, still hold their first value. */
  lemma KeptTwice(first: seq<u8>, middle: seq<u8>, last: seq<u8>, from: nat, to: nat)
    requires from <= to && |middle| == |first| && |last| == |first|
    requires forall i :: from <= i < |first| ==> middle[i] == first[i]
    requires forall i :: 0 <= i < |middle| && to <= i ==> last[i] == middle[i]
    ensures forall i :: to <= i < |first| ==> last[i] == first[i]
  {
  }

  /** Later steps of a row leave the bytes before step `x`'s end alone. */
  lemma {:induction false} LaterColumnsKeep(t: Tile, start: seq<u8>, y: nat, x: nat, n: nat)
    requires x <= n && DecodeColumns(t, start, y, n).Ok?
    ensures DecodeColumns(t, start, y, x).Ok?
    ensures forall i :: 0 <= i < |start| && i < DestIndex(t, y, x) ==>
      DecodeColumns(t, start, y, n).value[i] == DecodeColumns(t, start, y, x).value[i]
    decreases n
  {
    if n > x {
      assert DecodeColumns(t, start, y, n - 1).Ok?;
      LaterColumnsKeep(t, start, y, x, n - 1);
      DestIndexGrowsInRow(t, y, x, n - 1);
    }
  }

  /** Later rows leave the bytes before row `y`'s start alone. */
  lemma {:induction false} LaterRowsKeep(t: Tile, dest: seq<u8>, y: nat, n: nat)
    requires y <= n && DecodeRows(t, dest, n).Ok?
    ensures DecodeRows(t, dest, y).Ok?
    ensures forall i :: 0 <= i < |dest| && i < DestIndex(t, y, 0) ==>
      DecodeRows(t, dest, n).value[i] == DecodeRows(t, dest, y).value[i]
    decreases n
  {
    if n > y {
      var before := DecodeRows(t, dest, n - 1);
      assert before.Ok?;
      LaterRowsKeep(t, dest, y, n - 1);
      ColumnsFrame(t, before.value, n - 1, RowSteps(t));
      DestIndexGrowsAcrossRows(t, y, n - 1);
    }
  }

  /** Where a texel lands: when the read of step `x` of row `y` succeeds,
      the decoded tile holds that step's texels at `DestIndex(t, y, x)`;
      when it fails, those bytes keep what `dest` held. */
  lemma TexelPlacement(t: Tile, dest: seq<u8>, y: nat, x: nat)
    requires Decode(t, dest).Ok?
    requires y < t.height && x < RowSteps(t)
    ensures var out := Decode(t, dest).value;
      var at := DestIndex(t, y, x);
      match ReadUnit(t.source, Position(t, y, x), ReadBytes(t.format))
      case Some(unit) =>
        TexelOf(t.format, unit, t.tlut).Ok? && at + Span(t.format) <= |out| &&
        out[at .. at + Span(t.format)] == TexelOf(t.format, unit, t.tlut).value
      case None =>
        t.format != Ia8 && forall i :: at <= i < at + Span(t.format) && i < |dest| ==> out[i] == dest[i]
  {
    var rowStart := RowSurvives(t, dest, y);
    var before, after := StepSurvives(t, rowStart, y, x);
    StepPlacement(t, dest, y, x, before, after);
  }

  /** Row `y` of a finished decode: the bytes the earlier rows left, which
      still hold `dest` from the row's start on, and whose row-`y` result
      survives below the next row's start. */
  lemma RowSurvives(t: Tile, dest: seq<u8>, y: nat) returns (rowStart: seq<u8>)
    requires Decode(t, dest).Ok? && y < t.height
    ensures DecodeRows(t, dest, y) == Ok(rowStart) && DecodeColumns(t, rowStart, y, RowSteps(t)).Ok?
    ensures forall i :: DestIndex(t, y, 0) <= i < |dest| ==> rowStart[i] == dest[i]
    ensures forall i :: 0 <= i < |dest| && i < DestIndex(t, y + 1, 0) ==>
      Decode(t, dest).value[i] == DecodeColumns(t, rowStart, y, RowSteps(t)).value[i]
  {
    LaterRowsKeep(t, dest, y + 1, t.height);
    RowUnfolds(t, dest, y + 1);
    rowStart := DecodeRows(t, dest, y).value;
    RowsFrame(t, dest, y);
    var full, row := Decode(t, dest).value, DecodeRows(t, dest, y + 1).value;
    assert forall i :: 0 <= i < |dest| && i < DestIndex(t, y + 1, 0) ==> full[i] == row[i];
  }

  /** A successful decode of `y` rows is row `y - 1` run on what the
      first `y - 1` rows left. */
  lemma RowUnfolds(t: Tile, dest: seq<u8>, y: nat)
    requires y > 0 && DecodeRows(t, dest, y).Ok?
    ensures DecodeRows(t, dest, y - 1).Ok? && DecodeColumns(t, DecodeRows(t, dest, y - 1).value, y - 1, RowSteps(t)).Ok?
    ensures DecodeRows(t, dest, y) == DecodeColumns(t, DecodeRows(t, dest, y - 1).value, y - 1, RowSteps(t))
  {
  }

  /** Step `x` of a row whose steps all succeed: its input, which still
      holds `rowStart` from the step's `dest_index` on, and its output,
      which survives to the row's end below the next step's index. */
  lemma StepSurvives(t: Tile, rowStart: seq<u8>, y: nat, x: nat) returns (before: seq<u8>, after: seq<u8>)
    requires x < RowSteps(t) && DecodeColumns(t, rowStart, y, RowSteps(t)).Ok?
    ensures |before| == |rowStart| && StepAt(t, before, y, x) == Ok(after)
    ensures forall i :: DestIndex(t, y, x) <= i < |rowStart| ==> before[i] == rowStart[i]
    ensures forall i :: 0 <= i < |rowStart| && i < DestIndex(t, y, x + 1) ==>
      DecodeColumns(t, rowStart, y, RowSteps(t)).value[i] == after[i]
    ensures DestIndex(t, y, 0) <= DestIndex(t, y, x) && DestIndex(t, y, x + 1) <= DestIndex(t, y + 1, 0)
  {
    LaterColumnsKeep(t, rowStart, y, x + 1, RowSteps(t));
    LaterColumnsKeep(t, rowStart, y, x, x + 1);
    before := DecodeColumns(t, rowStart, y, x).value;
    after := DecodeColumns(t, rowStart, y, x + 1).value;
    ColumnsFrame(t, rowStart, y, x);
    DestIndexGrowsInRow(t, y, 0, x);
    DestIndexGrowsInRow(t, y, x + 1, RowSteps(t));
  }

  /** The facts `TexelPlacement` chains, for one step whose result `after`
      survives into the finished decode and whose input `before` still
      holds `dest`'s bytes from the step's `dest_index` on. */
  lemma StepPlacement(t: Tile, dest: seq<u8>, y: nat, x: nat, before: seq<u8>, after: seq<u8>)
    requires Decode(t, dest).Ok? && |before| == |dest|
    requires StepAt(t, before, y, x) == Ok(after)
    requires forall i :: 0 <= i < |dest| && i < DestIndex(t, y, x + 1) ==> Decode(t, dest).value[i] == after[i]
    requires forall i :: DestIndex(t, y, x) <= i < |dest| ==> before[i] == dest[i]
    ensures var out := Decode(t, dest).value;
      var at := DestIndex(t, y, x);
      match ReadUnit(t.source, Position(t, y, x), ReadBytes(t.format))
      case Some(unit) =>
        TexelOf(t.format, unit, t.tlut).Ok? && at + Span(t.format) <= |out| &&
        out[at .. at + Span(t.format)] == TexelOf(t.format, unit, t.tlut).value
      case None =>
        t.format != Ia8 && forall i :: at <= i < at + Span(t.format) && i < |dest| ==> out[i] == dest[i]
  {
    var at := DestIndex(t, y, x);
    StepAtCursor(t, before, y, x, at, Position(t, y, x));
    IndicesStep(t, y, x);
    PlacedBytes(t.format, dest, before, after, Decode(t, dest).value, at, t.source, Position(t, y, x), t.tlut);
  }

  /** One step's bytes as they survive into `out`: `out` agrees with the
      step's result `after` below the step's end, and the step's input
      `before` agrees with `dest` from `at` on. */
  lemma PlacedBytes(f: TexFormat, dest: seq<u8>, before: seq<u8>, after: seq<u8>, out: seq<u8>, at: nat,
                    source: seq<u8>, position: nat, tlut: seq<u8>)
    requires |before| == |dest| && |out| == |dest|
    requires DecodeStep(f, before, at, source, position, tlut) == Ok(after)
    requires forall i :: 0 <= i < |dest| && i < at + Span(f) ==> out[i] == after[i]
    requires forall i :: at <= i < |dest| ==> before[i] == dest[i]
    ensures match ReadUnit(source, position, ReadBytes(f))
      case Some(unit) =>
        TexelOf(f, unit, tlut).Ok? && at + Span(f) <= |out| && out[at .. at + Span(f)] == TexelOf(f, unit, tlut).value
      case None =>
        f != Ia8 && forall i :: at <= i < at + Span(f) && i < |dest| ==> out[i] == dest[i]
  {
    DecodeStepWrites(f, before, at, source, position, tlut);
    match ReadUnit(source, position, ReadBytes(f))
    case Some(unit) =>
      assert out[at .. at + Span(f)] == after[at .. at + Span(f)];
    case None =>
  }

  /** What one step writes: its texels at `at` when the read succeeds,
      nothing when it fails. */
  lemma DecodeStepWrites(f: TexFormat, dest: seq<u8>, at: nat, source: seq<u8>, position: nat, tlut: seq<u8>)
    requires DecodeStep(f, dest, at, source, position, tlut).Ok?
    ensures var r := DecodeStep(f, dest, at, source, position, tlut).value;
      match ReadUnit(source, position, ReadBytes(f))
      case Some(unit) =>
        TexelOf(f, unit, tlut).Ok? && at + Span(f) <= |dest| && r[at .. at + Span(f)] == TexelOf(f, unit, tlut).value
      case None =>
        f != Ia8 && r == dest
  {
  }

  // Closed forms of the indices

  lemma MulSucc(a: int, b: int)
    ensures (a + 1) * b == a * b + b
  {
  }

  /** The walk writes texel after texel in row-major order: step `x` of
      row `y` writes `span * (y * rowSteps + x)` bytes in. */
  lemma {:induction false} DestIndexClosedForm(t: Tile, y: nat, x: nat)
    ensures DestIndex(t, y, x) == Span(t.format) * (y * RowSteps(t) + x)
    decreases y, x
  {
    if x > 0 {
      DestIndexClosedForm(t, y, x - 1);
    } else if y > 0 {
      DestIndexClosedForm(t, y - 1, RowSteps(t));
      MulSucc(y - 1, RowSteps(t));
    }
  }

  /** With 4-byte texels, texel `(x, y)` sits at `4 * (y * width + x)`. */
  lemma DestIndexRowMajor(t: Tile, y: nat, x: nat)
    requires FormatSize(t.format) != Siz4b
    ensures DestIndex(t, y, x) == 4 * (y * t.width + x)
  {
    DestIndexClosedForm(t, y, x);
  }

  /** `y` rows of `advance` bytes and `x` reads of `step` bytes, modulo 2^32. */
  function Walk(y: nat, x: nat, advance: int, step: nat): u32 {
    (y * advance + x * step) % TWO_32
  }

  /** How far `source_index` moves over one row: the row's reads plus the
      padding. */
  function RowAdvance(t: Tile): int {
    RowSteps(t) * ReadBytes(t.format) + PadWidth(t)
  }

  lemma ModAdd(a: int, b: int)
    ensures (a % TWO_32 + b) % TWO_32 == (a + b) % TWO_32
  {
  }

  /** The source walk in closed form: `y` rows of reads and padding, then
      `x` reads, modulo 2^32. */
  lemma {:induction false} SourceIndexClosedForm(t: Tile, y: nat, x: nat)
    ensures SourceIndex(t, y, x) == Walk(y, x, RowAdvance(t), ReadBytes(t.format))
    decreases y, x
  {
    if x > 0 {
      SourceIndexClosedForm(t, y, x - 1);
      ClosedFormNextStep(t, y, x - 1);
    } else if y > 0 {
      SourceIndexClosedForm(t, y - 1, RowSteps(t));
      ClosedFormNextRow(t, y - 1);
    } else {
      assert Walk(0, 0, RowAdvance(t), ReadBytes(t.format)) == 0;
    }
  }

  lemma ClosedFormNextStep(t: Tile, y: nat, x: nat)
    requires SourceIndex(t, y, x) == Walk(y, x, RowAdvance(t), ReadBytes(t.format))
    ensures SourceIndex(t, y, x + 1) == Walk(y, x + 1, RowAdvance(t), ReadBytes(t.format))
  {
    WalkNextStep(y, x, RowAdvance(t), ReadBytes(t.format));
  }

  lemma ClosedFormNextRow(t: Tile, y: nat)
    requires SourceIndex(t, y, RowSteps(t)) == Walk(y, RowSteps(t), RowAdvance(t), ReadBytes(t.format))
    ensures SourceIndex(t, y + 1, 0) == Walk(y + 1, 0, RowAdvance(t), ReadBytes(t.format))
  {
    WalkNextRow(y, RowAdvance(t), ReadBytes(t.format), RowSteps(t), PadWidth(t));
  }

  /** One more read moves the walk by the read width. */
  lemma WalkNextStep(y: nat, x: nat, advance: int, step: nat)
    ensures (Walk(y, x, advance, step) + step) % TWO_32 == Walk(y, x + 1, advance, step)
  {
    MulSucc(x, step);
    ModAdd(y * advance + x * step, step);
  }

  /** The padding after a full row moves the walk to the next row's start. */
  lemma WalkNextRow(y: nat, advance: int, step: nat, rowSteps: nat, pad: int)
    requires advance == rowSteps * step + pad
    ensures (Walk(y, rowSteps, advance, step) + pad) % TWO_32 == Walk(y + 1, 0, advance, step)
  {
    MulSucc(y, advance);
    ModAdd(y * advance + rowSteps * step, pad);
  }

  /** Without de-interleaving the position is the offset plus the walked
      index; with it, even rows are untouched and odd rows read from the
      other 4-byte half of the same 8-byte group. */
  lemma DeinterleaveSwapsHalves(t: Tile, y: nat, x: nat)
    ensures !t.deinterleave || y % 2 == 0 ==> Position(t, y, x) == (t.sourceOffset + SourceIndex(t, y, x)) % TWO_32
    ensures t.deinterleave && y % 2 == 1 ==>
      var s := SourceIndex(t, y, x);
      var d := Deinterleave(s, y, true);
      d / 8 == s / 8 && (d - s == 4 || s - d == 4) && Xor4(d) == s
  {
    Xor4Halves(SourceIndex(t, y, x));
  }

  /** `index ^ 4` stays in the same 8-byte group, moves by 4, and undoes
      itself. */
  lemma Xor4Halves(s: u32)
    ensures Xor4(s) / 8 == s / 8 && (Xor4(s) - s == 4 || s - Xor4(s) == 4) && Xor4(Xor4(s)) == s
  {
    var q, m := s / 8, s % 8;
    assert s == 8 * q + m;
    if m >= 4 {
      assert s / 4 == 2 * q + 1;
      assert Xor4(s) == 8 * q + (m - 4);
      assert Xor4(s) / 4 == 2 * q;
    } else {
      assert s / 4 == 2 * q;
      assert Xor4(s) == 8 * q + (m + 4);
      assert Xor4(s) / 4 == 2 * q + 1;
    }
  }

  // ---------------------------------------------------------------------
  // RGBA32 and palettes

  /** `decode_tex_rgba32`: copies `source[sourceIndex ..]` into `dest`.
      The end index is computed with wrapping `u32` arithmetic; the copy
      panics unless the range is in bounds and exactly as long as `dest`. */
  function DecodeRgba32(dest: seq<u8>, source: seq<u8>, sourceIndex: u32, width: u32, height: u32): (r: Result<seq<u8>>)
    ensures r.Ok? ==> |r.value| == |dest| && sourceIndex + |dest| <= |source|
    ensures r.Ok? ==> forall i :: 0 <= i < |dest| ==> r.value[i] == source[sourceIndex + i]
  {
    var end := (sourceIndex + (width * height * 4) % TWO_32) % TWO_32;
    if sourceIndex <= end <= |source| && end - sourceIndex == |dest| then Ok(source[sourceIndex .. end])
    else Err(BufferOverrun)
  }

  /** Without wrap-around the copy succeeds exactly when `dest` holds the
      whole tile and the source holds it after `sourceIndex`; texel
      `(x, y)` then takes the four bytes at `4 * (y * width + x)`. */
  lemma Rgba32Copy(dest: seq<u8>, source: seq<u8>, sourceIndex: u32, width: u32, height: u32, y: nat, x: nat)
    requires sourceIndex + width * height * 4 < TWO_32
    ensures DecodeRgba32(dest, source, sourceIndex, width, height).Ok? <==>
      |dest| == width * height * 4 && sourceIndex + |dest| <= |source|
    ensures DecodeRgba32(dest, source, sourceIndex, width, height).Ok? && y < height && x < width ==>
      4 * (y * width + x) + 4 <= |dest| &&
      DecodeRgba32(dest, source, sourceIndex, width, height).value[4 * (y * width + x)] == source[sourceIndex + 4 * (y * width + x)]
  {
    MulMonotone(0, width, height);
    NoWrapEnd(sourceIndex, width * height * 4);
    if y < height && x < width {
      TexelInTile(width, height, y, x);
    }
  }

  /** Away from wrap-around the copy's end is the start plus the length. */
  lemma NoWrapEnd(start: nat, n: nat)
    requires start + n < TWO_32
    ensures (start + n % TWO_32) % TWO_32 == start + n
  {
  }

  /** Texel `(x, y)` of a `width` by `height` tile starts within its bytes. */
  lemma TexelInTile(width: nat, height: nat, y: nat, x: nat)
    requires y < height && x < width
    ensures 4 * (y * width + x) + 4 <= width * height * 4
  {
    MulMonotone(y + 1, height, width);
    MulSucc(y, width);
    assert width * height * 4 == 4 * (height * width);
  }

  /** Where palette entry `i` is read from: `index` advances by two bytes
      per entry, wrapping as a `u32`. */
  function EntryPosition(index: u32, i: nat): u32 {
    (index + 2 * i) % TWO_32
  }

  /** Palette entry `i` as `parse_tlut` reads it, or 0 when it cannot. */
  function TlutEntry(source: seq<u8>, index: u32, i: nat): u16 {
    match ReadUnit(source, EntryPosition(index, i), 2)
    case Some(pixel) => pixel
    case None => 0
  }

  predicate EntryReadable(source: seq<u8>, index: u32, i: nat) {
    EntryPosition(index, i) + 2 <= |source|
  }

  /** `parse_tlut`: only RGBA16 palettes are supported; each of the size's
      entries is read big-endian and unpacked into four bytes of `dest`.
      Returns the new `dest` and the number of source bytes consumed. */
  method ParseTlut(dest: seq<u8>, source: seq<u8>, index: u32, size: ImageSize, mode: TextureLut)
    returns (r: Result<(seq<u8>, nat)>)
    ensures r.Ok? <==> (mode == TtRgba16 && 4 * TlutSize(size) <= |dest| &&
                        forall i :: 0 <= i < TlutSize(size) ==> EntryReadable(source, index, i))
    ensures mode != TtRgba16 ==> r == Err(UnsupportedTlutMode)
    ensures r.Ok? ==> r.value.1 == 2 * TlutSize(size) && |r.value.0| == |dest|
    ensures r.Ok? ==> forall j :: 0 <= j < 4 * TlutSize(size) ==>
      r.value.0[j] == R5G5B5A1(TlutEntry(source, index, j / 4))[j % 4]
    ensures r.Ok? ==> forall j :: 4 * TlutSize(size) <= j < |dest| ==> r.value.0[j] == dest[j]
  {
    if mode != TtRgba16 {
      return Err(UnsupportedTlutMode);
    }
    var tlutSize := TlutSize(size);
    var out := dest;
    var at := index;
    var i := 0;
    while i < tlutSize
      invariant i <= tlutSize
      invariant at == EntryPosition(index, i)
      invariant 4 * i <= |dest| && |out| == |dest|
      invariant forall k :: 0 <= k < i ==> EntryReadable(source, index, k)
      invariant forall j :: 0 <= j < 4 * i ==> out[j] == R5G5B5A1(TlutEntry(source, index, j / 4))[j % 4]
      invariant forall j :: 4 * i <= j < |dest| ==> out[j] == dest[j]
    {
      var pixel := ReadUnit(source, at, 2);
      if pixel.None? {
        assert !EntryReadable(source, index, i);
        return Err(BufferOverrun);
      }
      var written := WriteBytes(out, 4 * i, R5G5B5A1(pixel.value));
      if written.Err? {
        return Err(BufferOverrun);
      }
      EntryWritten(dest, out, written.value, source, index, i, pixel.value);
      out := written.value;
      at := (at + 2) % TWO_32;
      i := i + 1;
    }
    return Ok((out, 2 * tlutSize));
  }

  /** Writing entry `i`'s colour at `4 * i` extends the decoded prefix by
      one entry and leaves the bytes after it alone. */
  lemma EntryWritten(dest: seq<u8>, out: seq<u8>, written: seq<u8>, source: seq<u8>, index: u32, i: nat, pixel: u16)
    requires |out| == |dest| && 4 * i + 4 <= |dest|
    requires ReadUnit(source, EntryPosition(index, i), 2) == Some(pixel)
    requires WriteBytes(out, 4 * i, R5G5B5A1(pixel)) == Ok(written)
    requires forall j :: 0 <= j < 4 * i ==> out[j] == R5G5B5A1(TlutEntry(source, index, j / 4))[j % 4]
    requires forall j :: 4 * i <= j < |dest| ==> out[j] == dest[j]
    ensures |written| == |dest|
    ensures forall j :: 0 <= j < 4 * (i + 1) ==> written[j] == R5G5B5A1(TlutEntry(source, index, j / 4))[j % 4]
    ensures forall j :: 4 * (i + 1) <= j < |dest| ==> written[j] == dest[j]
    ensures EntryReadable(source, index, i)
    ensures (EntryPosition(index, i) + 2) % TWO_32 == EntryPosition(index, i + 1)
  {
    ModAdd(index + 2 * i, 2);
    forall j | 4 * i <= j < 4 * i + 4
      ensures written[j] == R5G5B5A1(TlutEntry(source, index, j / 4))[j % 4]
    {
      assert j / 4 == i && j % 4 == j - 4 * i;
    }
  }

  /** The byte counts `parse_tlut` reports: 32 for 4-bit and 512 for 8-bit
      palettes. */
  lemma TlutByteCounts()
    ensures 2 * TlutSize(Siz4b) == 32 && 2 * TlutSize(Siz8b) == 512
    ensures 2 * TlutSize(Siz16b) == 0x2000 && 2 * TlutSize(Siz32b) == 0x2_0000
  {
  }

  // ---------------------------------------------------------------------
  // Row padding

  /** `(line << (4 - size)) - width` on `i32`, wrapping. */
  function PadTexels(size: ImageSize, line: u32, width: u32): i32 {
    WrapI32(WrapI32(WrapI32(line) * Pow2(4 - SizeValue(size))) - WrapI32(width))
  }

  /** `I32MathExt::ushr`, whose definition is not part of this model:
      assumed to be the logical right shift of the 32-bit pattern. */
  function Ushr(x: i32, n: u32): u32 {
    LogicalShift32(x, n)
  }

  /** `padding_for_texture`: bytes to skip at the end of each row. */
  function PaddingForTexture(size: ImageSize, line: u32, width: u32): (pad: i32)
    ensures line == 0 ==> pad == 0
    ensures size == Siz4b ==> pad >= 0
  {
    if line == 0 then 0
    else
      var texels := PadTexels(size, line, width);
      if size == Siz4b then
        UshrHalves(texels);
        WrapI32(Ushr(texels, 1))
      else WrapI32(texels * Pow2(SizeValue(size) - 1))
  }

  /** A logical shift by one bit leaves a value below 2^31, so it reads
      back as a non-negative `i32`. */
  lemma UshrHalves(x: i32)
    ensures Ushr(x, 1) == AsU32(x) / 2 < TWO_31
  {
    assert Pow2(1) == 2;
  }

  /** Away from wrap-around the padding is the row's texel surplus scaled
      to bytes: `8 line - width` for 8-bit, `2 (4 line - width)` for 16-bit,
      `4 (2 line - width)` for 32-bit, and for 4-bit half of
      `16 line - width`, read as an unsigned 32-bit pattern. */
  lemma PaddingWithoutWrap(size: ImageSize, line: u32, width: u32)
    requires 0 < line < 0x10_0000 && width < 0x10_0000
    ensures size == Siz8b ==> PaddingForTexture(size, line, width) == 8 * line - width
    ensures size == Siz16b ==> PaddingForTexture(size, line, width) == 2 * (4 * line - width)
    ensures size == Siz32b ==> PaddingForTexture(size, line, width) == 4 * (2 * line - width)
    ensures size == Siz4b && 16 * line >= width ==> PaddingForTexture(size, line, width) == (16 * line - width) / 2
    ensures size == Siz4b && 16 * line < width ==> PaddingForTexture(size, line, width) == (TWO_32 + 16 * line - width) / 2
  {
    match size
    case Siz4b => FourBitPadding(line, width);
    case _ => ScaledPadding(size, line, width);
  }

  /** For 4-bit textures, half the surplus read as an unsigned pattern. */
  lemma FourBitPadding(line: u32, width: u32)
    requires 0 < line < 0x10_0000 && width < 0x10_0000
    ensures 16 * line >= width ==> PaddingForTexture(Siz4b, line, width) == (16 * line - width) / 2
    ensures 16 * line < width ==> PaddingForTexture(Siz4b, line, width) == (TWO_32 + 16 * line - width) / 2
  {
    PadTexelsSmall(Siz4b, line, width);
    var texels := PadTexels(Siz4b, line, width);
    UshrHalves(texels);
    assert PaddingForTexture(Siz4b, line, width) == WrapI32(AsU32(texels) / 2);
  }

  /** For wider texels, the surplus times the bytes per texel. */
  lemma ScaledPadding(size: ImageSize, line: u32, width: u32)
    requires 0 < line < 0x10_0000 && width < 0x10_0000
    ensures size == Siz8b ==> PaddingForTexture(size, line, width) == 8 * line - width
    ensures size == Siz16b ==> PaddingForTexture(size, line, width) == 2 * (4 * line - width)
    ensures size == Siz32b ==> PaddingForTexture(size, line, width) == 4 * (2 * line - width)
  {
    PadTexelsSmall(size, line, width);
    var texels := PadTexels(size, line, width);
    match size
    case Siz4b =>
    case Siz8b =>
      assert Pow2(0) == 1;
      assert PaddingForTexture(size, line, width) == WrapI32(texels * 1);
    case Siz16b =>
      assert Pow2(1) == 2;
      assert PaddingForTexture(size, line, width) == WrapI32(texels * 2);
    case Siz32b =>
      assert Pow2(2) == 4;
      assert PaddingForTexture(size, line, width) == WrapI32(texels * 4);
  }

  /** Away from wrap-around the texel surplus is `(line << (4 - size)) - width`. */
  lemma PadTexelsSmall(size: ImageSize, line: u32, width: u32)
    requires line < 0x10_0000 && width < 0x10_0000
    ensures PadTexels(size, line, width) ==
      (if size == Siz4b then 16 else if size == Siz8b then 8 else if size == Siz16b then 4 else 2) * line - width
  {
    assert Pow2(1) == 2 && Pow2(2) == 4 && Pow2(3) == 8 && Pow2(4) == 16;
    SurplusWithoutWrap(line, width, Pow2(4 - SizeValue(size)));
  }

  lemma SurplusWithoutWrap(line: u32, width: u32, k: nat)
    requires line < 0x10_0000 && width < 0x10_0000 && k <= 16
    ensures WrapI32(WrapI32(WrapI32(line) * k) - WrapI32(width)) == k * line - width
  {
    MulMonotone(k, 16, line);
    assert WrapI32(line) == line;
    SmallDifference(line * k, width);
  }

  lemma SmallDifference(product: int, width: u32)
    requires 0 <= product <= 16 * 0x10_0000 && width < 0x10_0000
    ensures WrapI32(WrapI32(product) - WrapI32(width)) == product - width
  {
  }

  /** The values asserted by the padding test. */
  lemma PaddingTestValues()
    ensures PaddingForTexture(Siz8b, 8, 32) == 32
    ensures PaddingForTexture(Siz8b, 4, 64) == -32
  {
    PaddingWithoutWrap(Siz8b, 8, 32);
    PaddingWithoutWrap(Siz8b, 4, 64);
  }
}
