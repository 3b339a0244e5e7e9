# libultra-rdp-rs core in Dafny

A Dafny model of the command-processing core of libultra-rdp-rs. That
library emulates the N64 Reality Co-Processor (RCP) well enough to walk a
game's display lists. The model covers five parts:

- **The display-list interpreter** (`Rcp`, `Gbi`). `process_displaylist`
  reads 8-byte command records and looks each opcode up in the GBI opcode
  table. It then moves by the handler's `GBIResult`: continue, skip,
  step back, jump, call a nested list, or return.
- **The F3DEX2 / F3DZEX2 microcode handlers** (`F3dex2`, `F3dzex2`,
  `Defines`). These are G_DL, G_GEOMETRYMODE, G_VTX, G_MTX, G_TRI1 and
  G_LOAD_UCODE, together with their operand fields and flag encodings.
- **The segment resolver** (`Segment`). It turns segment-relative
  addresses into absolute ones through the 16-entry segment table.
- **The RSP's bookkeeping** (`Rsp`). This covers:
  - the modelview stack;
  - the 16.16 fixed-point matrix layout;
  - the lazy lighting refresh of the vertex command;
  - the trivial clip-rejection mask;
  - the triangle cull decision.
- **The texture helpers** (`Image`, `Rdp`, `Utils`). These are the
  colour-depth scalers, the RGBA5551 unpacker, and the eight row-walking
  `decode_tex_*` decoders. They also include:
  - the RGBA32 copy;
  - palette parsing;
  - the row padding of `padding_for_texture` and `tex_pad_width`;
  - the `ursi*` shift helpers.

Conventions:

- **Machine words.** A machine word is an integer in [0, 2^32). The model
  is of a 32-bit host whose C ABI aligns `long long` to 8 bytes (32-bit
  ARM EABI, for example). So `usize` is a 32-bit word, a `Gfx` record is
  8 bytes, and the `Vertex` union is 24 bytes. An i686 host, which aligns
  `long long` to 4 bytes, would make it 20. Bit fields are written with
  division and remainder. The geometry mode is a `bv32`.
- **Release-build arithmetic.** Additions, multiplications and shifts wrap,
  and shift amounts are taken modulo the width. Casts reinterpret bits.
- **Memory.** Memory is a sequence of 32-bit words addressed by byte. Every
  raw-pointer dereference of the source becomes a bounds-checked read of
  4-byte aligned words that fails with `BadRead`. The 8-byte alignment
  that `Gfx` and `Vertex` records need on the modelled host is not
  checked (see Left out).
- **Panics become errors.** Every panic of the source becomes an `Err` of
  `Base.Error`: an unknown opcode, an index past a fixed table, a failed
  `unwrap`, or an unsupported palette mode.
- **Matrices are terms.** Matrix values are not computed. A matrix is the
  term recording its provenance: zero, decoded fixed-point cells, or a
  product.
- **Fuel.** The interpreter runs on a step budget (`fuel`).

Where the code departs from what its own comments, names and tests
evidently intend, the model follows the code:

- **G_MTX push.** In the code, a push writes the decoded matrix (not a
  copy of the top) into the new slot, and a push at slot 31 indexes past
  the stack. The matrix layout the code reads also differs from its
  evident intent. See Findings. The interpreter runs the code as written
  (`F3dex2.GspMatrix` calls `Rsp.GspMatrixAsWritten`). The corrected
  update is modelled next to it (`Rsp.GspMatrix`, `F3dex2.GspMatrixCorrected`)
  and agrees with it off the two push defects (`Rsp.AsWrittenAgreesOffDefects`).
- **Matrix block size.** The matrix block is 8 integer words followed by 8
  fraction words (64 bytes). That is the block the code indexes into, not
  a 32-word block.
- **G_VTX.** `gsp_vertex` computes each staged vertex in a local copy and
  never stores it back into `vertex_table`. The only lasting effect of
  G_VTX is the lighting refresh.
- **Vertex record.** The source's vertex record has three texture
  coordinate shorts, so its fields take 18 bytes, where a vertex usually
  carries two texture coordinates. The loop reads each vertex's 18-byte view at a 24-byte stride, and
  the model follows that.
- **G_ENDDL.** The interpreter's comment says a list ends at G_ENDDL, but
  no handler is registered for it. `Rcp.F3dex2ListsNeverFinish` shows
  that every run ends in an error.

## Model

| member | source | states |
|---|---|---|
| Base.ReadWords | src/rsp.rs:88-90 | a word read succeeds exactly when the byte address is aligned and the words lie inside memory, and then yields those words |
| Defines.GfxWordsRoundTrip | src/gbi/defines.rs:6-18 | a command record is exactly its two words: splitting and rebuilding is lossless both ways |
| Defines.NewLight | src/gbi/defines.rs:66-79 | `Light::new` keeps the three components and zeroes the three padding bytes |
| Defines.ZeroLightIsNewOfZeros | src/gbi/defines.rs:57-79 | `Light::ZERO` equals `Light::new` of zero components, all bytes zero |
| Defines.MtxEncodingRoundTrip | src/gbi/defines.rs:82-100 | under either encoding PUSH, LOAD and PROJECTION are the bits 1, 2, 4, so every push/load/projection choice survives the parameter byte, and 0 means no-push, multiply, modelview |
| Defines.LegacySwapsPushAndProjection | src/gbi/defines.rs:82-100 | the non-F3DEX2 encoding is the F3DEX2 one with PUSH and PROJECTION exchanged |
| Defines.GeometryFlagsAreDistinctBits | src/gbi/defines.rs:102-114 | the geometry flags are distinct single bits below bit 24, and G_CULL_BOTH is 0x600 |
| Segment.SegmentedAddress | src/rcp.rs:70-84 | even addresses pass through; an odd address with segment id 16 or more fails; a translated address differs from its input only when the address is segment-relative and its segment is mapped |
| Segment.MakeSegmented | src/rcp.rs:71-73 | the built address is odd and carries the segment id in its top byte and the offset below |
| Segment.ResolveMadeAddress | src/rcp.rs:70-84 | resolving segment `id` plus an even offset gives base + offset (mod 2^32) when the segment is mapped, and the address itself when it is not |
| Segment.InitialTableIsIdentity | src/rcp.rs:8-13 | with the all-zero initial table, resolution is the identity on every in-range address and fails on every out-of-range segment id |
| Gbi.NewTable | src/gbi.rs:39-43 | a new GBI has no opcode registered |
| Gbi.Register | src/gbi.rs:55-57 | registering adds exactly the opcode, maps it to the handler, and keeps every other registration |
| Gbi.Opcode | src/gbi.rs:60 | the opcode is the top byte of `w0`, below 256 |
| Gbi.HandleCommand | src/gbi.rs:59-67 | a registered opcode runs its handler; an unregistered one fails with that opcode |
| Gbi.EmptyTableRejectsEverything | src/gbi.rs:59-67 | with nothing registered, every command fails with its opcode |
| F3dzex2.Setup | src/gbi/f3dzex2.rs:8-12 | F3DZEX2's setup registers exactly the F3DEX2 handlers over the table and keeps the rest |
| F3dex2.Setup | src/gbi/f3dex2.rs:61-71 | setup adds exactly the six opcodes, each bound to its handler, and keeps every other registration |
| F3dex2.SetupIdempotent | src/gbi/f3dex2.rs:61-71 | running setup twice gives the same table as once |
| F3dex2.UnregisteredOpcodesFail | src/gbi/f3dex2.rs:61-71 | after setup, every opcode outside the six fails as unknown |
| F3dex2.UnregisteredOpcodes | src/gbi/f3dex2.rs:10-59 | G_ENDDL, G_TEXTURE, G_POPMTX, G_TRI2 and every RDP opcode from G_SETOTHERMODE_L to G_SETCIMG are among the unregistered |
| F3dex2.GspDisplayList | src/gbi/f3dex2.rs:74-88 | G_DL leaves the RSP alone and fails only when its target does not resolve; bit 16 of `w0` clear calls the resolved list, set branches to it |
| F3dex2.UpdateMode | src/gbi/f3dex2.rs:94-95 | every set bit ends up set; every other bit is cleared when the clear mask has it and kept otherwise; a 24-bit clear mask keeps the top byte |
| F3dex2.GspGeometryMode | src/gbi/f3dex2.rs:90-99 | G_GEOMETRYMODE changes only the mode and the change flag; the new mode is `(mode & !clear) \| w1` with `clear` the low 24 bits of `w0`, so every bit of `w1` is set and the top byte is never cleared; it continues |
| F3dex2.ClearBits | src/gbi/f3dex2.rs:91 | the clear mask's value is `get_c0(w0, 0, 24)`, so it has no bit in the top byte |
| F3dex2.SetBits | src/gbi/f3dex2.rs:92 | the set mask's value is `w1` |
| F3dex2.GeometryModeBits | src/gbi/f3dex2.rs:90-99 | bit by bit: a bit of `w1` is set, and any other bit is cleared when the clear mask has it and kept otherwise |
| F3dex2.GeometryModeClearExample | src/gbi/f3dex2.rs:90-99 | with `w0 = 0xD9FFFFFF` and `w1 = 0`, mode 4 becomes 0 |
| Base.BitsOf | src/gbi/f3dex2.rs:91-95 | the bit pattern of a 32-bit word has that word as its value |
| F3dex2.GeometryModeIdempotent | src/gbi/f3dex2.rs:90-99 | applying the same G_GEOMETRYMODE twice is the same as once |
| F3dex2.VertexDest | src/gbi/f3dex2.rs:102-107 | the first slot is the end slot minus the count; when the count exceeds the end the 32-bit subtraction wraps to a huge slot |
| F3dex2.GspVertex | src/gbi/f3dex2.rs:101-110 | G_VTX succeeds exactly when the address resolves and, for a non-zero count, the count fits below the end slot inside the table, every vertex is readable and lighting is usable; a count of 0 or lighting off leaves the RSP as it was, and otherwise the new RSP is exactly one lighting update |
| F3dex2.FlipPush | src/gbi/f3dex2.rs:114 | XOR with PUSH inverts the push bit and keeps LOAD and PROJECTION |
| F3dex2.GspMatrix | src/gbi/f3dex2.rs:112-118 | G_MTX, through `gsp_matrix` as written, succeeds exactly when the address resolves, the 12 words the loop reads are readable, and it is not a modelview push at slot 31; a modelview update pushes exactly when bit 0 of `w0` is clear, and a push leaves the decoded matrix, or its square when multiplying, on top; a projection update leaves the stack alone |
| F3dex2.GspMatrixCorrected | src/gbi/f3dex2.rs:112-118 | G_MTX with the corrected `gsp_matrix` succeeds exactly when the 16 matrix words are readable; a modelview update pushes exactly when bit 0 of `w0` is clear and a slot is free, and keeps the old top below the new one |
| F3dex2.TriangleIds | src/gbi/f3dex2.rs:121-129 | the three halved vertex ids are below 128, so their `u8` conversion never fails |
| F3dex2.GspTriangles1 | src/gbi/f3dex2.rs:120-132 | G_TRI1 fails exactly when a vertex id is past the staging table and otherwise changes nothing |
| F3dex2.GspLoadUcode | src/gbi/f3dex2.rs:134-140 | G_LOAD_UCODE zeroes the fog multiplier and offset and changes nothing else |
| F3dex2.Apply | src/gbi/f3dex2.rs:73-141 | no F3DEX2 handler ever answers Return, Increase or Decrease |
| Rcp.ReadCommand | src/gbi.rs:60 | a command record is read exactly when its two words are readable, and it holds those words |
| Rcp.NextPc | src/rcp.rs:47-63 | after the loop's own step, Continue advances one record, Increase two, Decrease none, and SetAddressWithDecrease lands on the address |
| Rcp.ProcessDisplayList | src/rcp.rs:37-65 | every finished run used at least one step; no budget, no run |
| Rcp.ReturnEndsList | src/rcp.rs:57-59 | a command answering Return ends its list with the handler's RSP |
| Rcp.CallResumesAfterCall | src/rcp.rs:44-46 | a call runs the nested list to its end and then resumes at the record after the call |
| Rcp.CallUnfolds | src/rcp.rs:44-46 | a call whose nested list finished in a given state continues after the call from that state |
| Rcp.NoReturnNoFinish | src/rcp.rs:37-65 | if no handler ever answers Return, every run ends in an error |
| Rcp.MoreFuelSameResult | src/rcp.rs:37-65 | the budget only bounds the run: a run that finishes finishes identically with more fuel |
| Rcp.MoreFuelAfterCall | src/rcp.rs:44-46 | with more fuel, both a call's nested list and the rest of the caller finish as before |
| Rcp.MoreFuelAfterStep | src/rcp.rs:47-63 | with more fuel, a run continuing after a non-call command finishes as before |
| Rcp.SetupGbi | src/gbi.rs:45-53 | with either microcode enabled the six F3DEX2 opcodes are registered; with neither the table is untouched (only the both-features build compiles; see Left out) |
| Rcp.NewRcp | src/rcp.rs:22-28 | a new RCP has a freshly constructed RSP and an empty opcode table |
| Rcp.Initialize | src/rcp.rs:30-32 | initialisation sets up the GBI and leaves the RSP alone |
| Rcp.RunDisplayList | src/rcp.rs:37-65 | running a list never changes the opcode table |
| Rcp.F3dex2NeverReturns | src/gbi/f3dex2.rs:73-141 | whatever the table holds, F3DEX2 dispatch never answers Return |
| Rcp.F3dex2ListsNeverFinish | src/rcp.rs:34-65 | under F3DEX2 or F3DZEX2 a display list never ends normally, initialised or not: only an error stops it |
| Rcp.UninitializedRejectsFirstCommand | src/gbi.rs:59-67 | before `initialize`, the first readable command fails as an unknown opcode |
| Rsp.HalvesInvolution | src/rsp.rs:93-96 | regrouping the 16-bit halves of two words twice gives the words back |
| Rsp.DecodeCells | src/rsp.rs:86-98 | cells 2k and 2k+1 combine the halves of integer word k and fraction word 8+k, as the loop evidently intends |
| Rsp.AsWrittenFractionWord | src/rsp.rs:90 | the fraction word the loop as written reads is always word 10 or 11 |
| Rsp.DecodeCellsAsWritten | src/rsp.rs:86-98 | as written, cells 2k and 2k+1 combine integer word k with fraction word 10 or 11 |
| Rsp.AsWrittenIgnoresFractionWords | src/rsp.rs:88-90 | the as-written result never depends on fraction words 8, 9 and 12 to 15 |
| Rsp.MatrixLayoutRoundTrip | src/rsp.rs:86-98 | the corrected decoding inverts the fixed-point layout in both directions |
| Rsp.AsWrittenZeroes | src/rsp.rs:86-98 | as written, every matrix whose only non-zero value is a fraction in the first cell decodes to zero |
| Rsp.AsWrittenDecodeLosesFractions | src/rsp.rs:90 | as written, the matrix with first value 1/65536 decodes to zero, while the corrected decoding returns it |
| Rsp.NewRsp | src/rsp.rs:57-79 | a new RSP has stack index 0, zero modelview, projection and model-projection matrices, zero vertices, zero lights and coefficients, no geometry flags, no pending change, unit texture scaling and zero fog multiplier and offset |
| Rsp.FreshRspDrawsEverything | src/rsp.rs:57-79 | on a new RSP lighting is off, so the lighting update changes nothing, and no cull bit is set and every staged vertex is inside, so every triangle is drawn |
| Rsp.ApplyMatrixTo | src/rsp.rs:100-125 | corrected update: a projection update touches only the projection; a modelview push moves up one slot when one is free; the new top is the loaded matrix or the old top times it; other slots are kept; the change flag is set |
| Rsp.ApplyMatrixToAsWritten | src/rsp.rs:100-125 | as written, the update fails exactly on a modelview push at slot 31, indexing slot 32; otherwise a projection update touches only the projection; a push moves up one slot and leaves the matrix, or its square when multiplying, on top; without a push the top is replaced or multiplied; every other slot is kept and the change flag is set |
| Rsp.AsWrittenAgreesOffDefects | src/rsp.rs:100-125 | the update as written equals the corrected one on projection updates, updates without a push, and loading pushes below slot 31; a multiplying push below slot 31 agrees exactly when the old top is the new matrix |
| Rsp.GspMatrix | src/rsp.rs:81-126 | the corrected `gsp_matrix` succeeds exactly when the address resolves and 16 words are readable there, and applies their decoded matrix with the corrected update |
| Rsp.GspMatrixAsWritten | src/rsp.rs:81-126 | `gsp_matrix` as written succeeds exactly when the address resolves, the 12 words it reads are readable and it is not a modelview push at slot 31, and then applies the as-written decode with the as-written update |
| Rsp.PushMultiplyComposesTop | src/rsp.rs:110-122 | corrected push-and-multiply keeps the old top in place and puts old top times matrix one slot up |
| Rsp.PushMultiplySquaresDecoded | src/rsp.rs:110-122 | as written, push-and-multiply puts the matrix times itself on top |
| Rsp.PushAtTopIsDropped | src/rsp.rs:110-116 | at slot 31 a push fails as written (index 32), while the corrected update drops it and updates slot 31 |
| Rsp.PushesSaturate | src/rsp.rs:110-116 | n corrected pushes leave the index at min(index + n, 31) and, below saturation, never overwrite the slots at or below the start |
| Rsp.LightingUpdate | src/rsp.rs:175-205 | with lighting off the RSP is unchanged; with it on, 1 to 3 lights are needed, and a pending refresh needs a matrix below the top; the refresh sets the coefficients to those derived from that matrix and the directional lights and clears the flag; nothing else changes |
| Rsp.LightingUpdateIdempotent | src/rsp.rs:175-201 | a second refresh in the same command changes nothing |
| Rsp.VertexLoop | src/rsp.rs:134-294 | the loop succeeds exactly when every vertex is readable, every slot is inside the table and lighting is usable; it ends with one lighting refresh |
| Rsp.GspVertex | src/rsp.rs:128-295 | `gsp_vertex` succeeds under the same conditions; a count of 0 or lighting off leaves the RSP as it was, otherwise the result is exactly one lighting update; the vertex table is never changed |
| Rsp.TransformExamples | src/rsp.rs:139-165 | the identity keeps a vertex in place with w = 1, and the zero matrix, the model-projection matrix's only value, sends every vertex to the origin, whose clip mask is empty |
| Rsp.ClipMask | src/rsp.rs:252-271 | bit by bit, the mask records x < -w, x > w, y < -w, y > w, z < -w, z > w |
| Rsp.ClipMaskOppositePlanes | src/rsp.rs:252-271 | with w >= 0 no vertex is outside both planes of an axis, and the mask is empty exactly inside the view volume |
| Rsp.TriangleDecision | src/rsp.rs:303-338 | a common outside plane culls; with no cull bit exactly that culls; both bits cull everything; with only the front bit a triangle inside every plane is culled exactly when its orientation is negative, and with only the back bit exactly when it is positive; an undecidable face test needs a zero w |
| Rsp.WindingSwapsFrontAndBack | src/rsp.rs:308-338 | front-culling a triangle decides as back-culling its reversed winding |
| Rsp.OrientationExample | src/rsp.rs:313-333 | the screen triangle (0, 0), (1, 0), (0, 1) has negative orientation, so front culling removes it and back culling keeps it; moving one vertex behind the eye flips both |
| Rsp.GspTriangles | src/rsp.rs:297-341 | the decision fails exactly on a vertex id past the 64-entry table and otherwise is the cull decision on the staged vertices |
| Image.SizeValue | src/image.rs:51-56 | the size code is below 4 |
| Image.BitsPerPixel | src/image.rs:59-66 | bits per texel are 4 doubled once per size code |
| Image.TlutSize | src/image.rs:68-75 | the palette entry count is 2^(4 size + 4): 16, 256, 4096, 65536 |
| Image.Scale3To8 | src/image.rs:146-148 | on 3-bit inputs the scaling is 36 n, at most 252 |
| Image.Scale4To8 | src/image.rs:150-152 | on 4-bit inputs the scaling is 17 n |
| Image.Scale5To8 | src/image.rs:154-156 | on 5-bit inputs the scaling is n * 255 / 31 |
| Image.Scale5To8Range | src/image.rs:154-156 | 0 maps to 0, 31 to 255, and the scaling is strictly increasing on 5-bit inputs |
| Image.Scale5To8RoundTrip | src/image.rs:154-156 | the 5-bit scaling is undone by the 8-to-5-bit reduction |
| Image.NarrowScalesRoundTrip | src/image.rs:146-152 | the 3- and 4-bit scalings are undone by dividing by 36 and 17, and 15 scales to 255 |
| Image.R5G5B5A1 | src/image.rs:158-168 | red, green and blue are the scaled 5-bit fields at bits 11, 6 and 1; alpha is 0xFF exactly when bit 0 is set |
| Image.R5G5B5A1RoundTrip | src/image.rs:158-168 | repacking the unpacked colour gives the pixel back |
| Image.TlutColor | src/image.rs:170-175 | a palette entry is read exactly when its four bytes are in the table |
| Image.CopyTlutColor | src/image.rs:170-175 | the copy succeeds exactly when the entry and the four destination bytes exist, writes the entry there and nothing else |
| Image.StepsPerRow | src/image.rs:241 | 4-bit formats take ceil(width / 2) steps per row; the others take width |
| Image.ReadUnit | src/image.rs:195-198 | a big-endian read succeeds exactly when its bytes are in the source, and yields them |
| Image.TexelLayouts | src/image.rs:178-499 | the channel layout of each decoder: 5551 unpacking, palette copies, scaled intensity and alpha nibbles, replicated bytes |
| Image.DecodeStep | src/image.rs:194-203 | one step writes only its own span of the destination |
| Image.DecodeRow | src/image.rs:194-204 | the inner loop gives the row fold's result, and ends with both indices past the row |
| Image.DecodeTexture | src/image.rs:192-207 | the nested loops compute the row-by-row fold, error included |
| Image.ColumnStep | src/image.rs:195-203 | one inner pass reads at the de-interleaved cursor and writes at the destination index, advancing both indices |
| Image.ColumnsFrame | src/image.rs:194-204 | a row's steps write only between its first destination index and the current one |
| Image.RowsFrame | src/image.rs:192-207 | the earlier rows leave every byte from the current row's start on untouched |
| Image.TexelPlacement | src/image.rs:192-207 | in a finished decode, each step's texels sit at its destination index when its read succeeds; otherwise those bytes keep the old contents |
| Image.DestIndexClosedForm | src/image.rs:187-207 | the destination index of step x of row y is span * (y * steps + x) |
| Image.DestIndexRowMajor | src/image.rs:187-207 | for non-4-bit formats, texel (x, y) lands at 4 (y width + x) |
| Image.SourceIndexClosedForm | src/image.rs:188-206 | the source index is y rows of reads and padding plus x reads, modulo 2^32 |
| Image.DeinterleaveSwapsHalves | src/image.rs:193-195 | without de-interleaving the cursor is offset + index; on odd rows with it, the read moves to the other 4-byte half of the same 8-byte group |
| Image.Xor4Halves | src/image.rs:195 | index ^ 4 stays in the same 8-byte group, moves by 4 and undoes itself |
| Image.DecodeRgba32 | src/image.rs:211-221 | a successful copy is the source slice from the start index, as long as the destination |
| Image.Rgba32Copy | src/image.rs:211-221 | away from wrap-around, the copy succeeds exactly when the destination holds the tile and the source holds it after the start; texel (x, y) comes from 4 (y width + x) |
| Image.ParseTlut | src/image.rs:502-526 | only RGBA16 palettes succeed; success needs every entry readable and room for them all; each entry unpacks into four bytes, the rest of the destination is kept, and the count is two bytes per entry |
| Image.TlutByteCounts | src/image.rs:525 | the reported byte count is 32, 512, 0x2000 or 0x20000 |
| Image.PaddingForTexture | src/image.rs:529-543 | a zero line pads nothing, and 4-bit padding is never negative |
| Image.UshrHalves | src/image.rs:539 | the logical shift by one halves the 32-bit pattern and stays below 2^31 |
| Image.PaddingWithoutWrap | src/image.rs:529-543 | away from wrap-around the padding is the texel surplus in bytes; for 4-bit it is half the surplus read as an unsigned pattern |
| Image.PadTexelsSmall | src/image.rs:537 | away from wrap-around the surplus is (line << (4 - size)) - width |
| Image.PaddingTestValues | src/image.rs:574-580 | (8b, 8, 32) pads 32 and (8b, 4, 64) pads -32, as the unit test asserts |
| Rdp.TexPadWidth | src/rdp.rs:6-20 | a zero line pads nothing, and every size but 4-bit pads as `padding_for_texture` does |
| Rdp.FourBitHalves | src/rdp.rs:15-16 | for 4-bit the padding is the surplus halved toward minus infinity, negative exactly when the surplus is |
| Rdp.SignedHalving | src/utils.rs:1-8 | `ursi32(x, 1) as i32` is x halved toward minus infinity |
| Rdp.PaddingHelpersAgree | src/rdp.rs:6-20 | the two padding helpers agree except on 4-bit textures with a negative surplus |
| Rdp.TexPadWidthTestValues | src/rdp.rs:27-33 | (8b, 8, 32) pads 32 and (8b, 4, 64) pads -32, as the unit test asserts |
| Rdp.FourBitHelpersDiffer | src/rdp.rs:14-19 | for a 4-bit row of 1 line and 20 texels, `tex_pad_width` gives -2 and `padding_for_texture` gives 2^31 - 2 |
| Utils.WrapI32 | src/rdp.rs:11-12 | `as i32` keeps the value modulo 2^32 and keeps in-range values unchanged |
| Utils.BeBytesRoundTrip | src/utils.rs:2-5 | the big-endian byte round trip inside the helpers is the identity both ways |
| Utils.Ursi32NonNegative | src/utils.rs:1-8 | for non-negative arguments `ursi32` is the plain right shift, the same as a logical shift |
| Utils.Ursi32Negative | src/utils.rs:1-8 | for negative arguments `ursi32` keeps the sign: 2^32 + floor(x / 2^n), at least 2^31, unlike the logical shift |
| Utils.Ursi32TestValues | src/utils.rs:33-42 | 5 and 9 shifted by 2 give 1 and 2; -5 and -9 give 4294967294 and 4294967293, not the logical-shift values the unit test expects |
| Utils.Ursi16NonNegative | src/utils.rs:10-17 | for non-negative arguments `ursi16` is the plain right shift by the amount modulo 16 |
| Utils.Ursi16Negative | src/utils.rs:10-17 | for negative arguments `ursi16` keeps the sign: 2^16 + floor(x / 2^(n mod 16)), at least 2^15 |
| Utils.Ursi8NonNegative | src/utils.rs:19-26 | for non-negative arguments `ursi8` is the plain right shift by the amount modulo 8 |
| Utils.Ursi8Negative | src/utils.rs:19-26 | for negative arguments `ursi8` keeps the sign: 2^8 + floor(x / 2^(n mod 8)), at least 2^7 |
| Utils.NarrowHelpers | src/utils.rs:10-26 | instances: 5 >> 2 is 1 at both widths, -5 >> 2 keeps the sign, and shift amounts 17 and 9 act as 1 |

## Left out

- WebAssembly glue is not modelled: `FromWasmAbi`, `WasmDescribe`, `get_name` and the wasm-only exports. The enums `ImageFormat`, `TexCM` and `TextFilt` are not modelled either. None of them affects decoding or command processing.
- Floating point is not interpreted: matrix products, lighting coefficients and colours, texture-generation UVs, fog and the perspective divide. Matrices are provenance terms, and vertex positions are reals.
- `get_c0` (gbi/utils.rs) is not part of this model. It is assumed to be `(w >> pos) & (2^width - 1)`.
- `I32MathExt::ushr` is not part of this model. It is assumed to be the logical shift of the 32-bit pattern.
- `U16MathExt::shr` is not part of this model. It only feeds UV values, which are not interpreted.
- The segment table's mutex is replaced by an explicit table value. No modelled code writes the table.
- Rcp.ProcessDisplayList: the source loop and recursion are unbounded. The model runs on a step budget, and exhausting it fails with `OutOfFuel`. `Rcp.MoreFuelSameResult` shows that the budget never changes a finished result.
- Rcp.ProcessDisplayList reads commands through a `fetch` function, so its lemmas hold for any command source. `Rcp.RunDisplayList` instantiates it with word-memory reads.
- Raw pointers become bounds-checked reads of 4-byte aligned words. Undefined behaviour becomes `BadRead`, and debug-build overflow panics are not modelled.
- Base.ReadWords, Rcp.ReadCommand and Rsp.VerticesReadable: only 4-byte alignment is checked. `Gfx` and `Vertex` hold a `long long`, so on the modelled host a record at an address that is 4 mod 8 is misaligned, which is undefined behaviour in the source; the model reads it anyway.
- Rcp.SetupGbi: only the build with both microcode features compiles, because `cfg!` keeps both branches and the f3dzex2 module imports the f3dex2 one. The cases with one feature or none describe builds that do not exist.
- The RDP state is not modelled, because no modelled handler reads or writes it.
- Rsp.TriangleDecision: when a face test divides by a zero `w`, the result is `Undetermined` instead of the IEEE comparison.
- Rsp.GspTriangles and F3dex2.GspTriangles1 produce no draw calls, because the source produces none.
- Rsp.VertexLoop reads each vertex's words but does not decode its fields: positions, normals and colours only feed float results. Memory is word-granular, so the 18-byte read of a vertex needs 5 whole words.
- The 64-bit host is not modelled. There `usize` is 64 bits and a `Gfx` record is 16 bytes. `gbi` and `rsp` are built on every target except wasm32-unknown, so that host is included in the build but left out here.
- Image.DecodeTexture and Image.Decode: `dest_index` is an unbounded natural number (`Image.DestIndex`). In the source it is a 32-bit `usize` that still advances on steps whose read fails and writes nothing. After 2^30 such steps (2^29 for 4-bit formats), it wraps, and a later successful read writes at the wrapped offset. The model fails with `BufferOverrun` there instead. The two agree whenever span × steps per row × rows is at most 2^32, because every index is then below 2^32 (`Image.DestIndexClosedForm`).
- Image: `source_index` is an `i32` that wraps. It is tracked as its `u32` reinterpretation, which is what the cursor position uses.
- Image: the `Cursor` becomes a bounds check on the source bytes. A failed read skips the step, except in `ia8`, which unwraps the read and fails.
- F3dex2.ClearBits: the clear mask is applied to the bit pattern of `get_c0(w0, 0, 24)`, whose value `Base.BitsOf` ties to the field.

## Findings

| source | as written | input that shows it | evidently intended | confidence | as-written member | corrected member |
|---|---|---|---|---|---|---|
| src/rsp.rs:90 | the fraction word index is `8 + 1 * 2 + c / 2`, so every cell pair reads fraction word 10 or 11, whatever the row | the matrix whose first value is 1/65536 and all others zero (word 8 = 0x10000, every other word 0) decodes to the zero matrix | fraction word `8 + r * 2 + c / 2`, the partner of integer word `r * 2 + c / 2` | high; not executed | Rsp.AsWrittenDecodeLosesFractions | Rsp.MatrixLayoutRoundTrip |
| src/rsp.rs:110-116 | the push guard `modelview_index < NUM_MODELVIEW_MATERIALS` admits index 31, and then slot 32 of the 32-entry stack is written | a G_MTX modelview push with the stack at slot 31 | the push is dropped at slot 31 and the top is updated in place | high; not executed | Rsp.PushAtTopIsDropped | Rsp.PushesSaturate |
| src/rsp.rs:113-121 | a push stores the decoded matrix in the new slot, so a following multiply composes the matrix with itself | push-and-multiply by any matrix m leaves m * m on top instead of top * m | the new slot copies the old top before the load or multiply | high; not executed | Rsp.PushMultiplySquaresDecoded | Rsp.PushMultiplyComposesTop |
