/** The F3DEX2 microcode's command handlers (gbi/f3dex2.rs): the opcode
    numbers, the six handlers the microcode registers, and its setup. Every
    handler reads its operands from the two command words; addresses in
    `w1` are segment-relative and are resolved through the segment table,
    and the memory they point into is passed alongside it. */
module F3dex2 {
  import opened Base
  import opened Defines
  import opened Segment
  import opened Rsp
  import opened Gbi

  // DMA opcodes.
  const G_VTX: nat := 0x01
  const G_MODIFYVTX: nat := 0x02
  const G_CULLDL: nat := 0x03
  const G_BRANCH_Z: nat := 0x04
  const G_TRI1: nat := 0x05
  const G_TRI2: nat := 0x06
  const G_QUAD: nat := 0x07
  const G_LINE3D: nat := 0x08

  const G_TEXTURE: nat := 0xD7
  const G_POPMTX: nat := 0xD8
  const G_GEOMETRYMODE: nat := 0xD9
  const G_MTX: nat := 0xDA
  const G_LOAD_UCODE: nat := 0xDD
  const G_DL: nat := 0xDE
  const G_ENDDL: nat := 0xDF

  /** The RDP opcodes run from G_SETOTHERMODE_L up to G_SETCIMG, except for
      0xE1 and 0xF1, which the microcode does not name. */
  const G_SETOTHERMODE_L: nat := 0xE2
  const G_SETCIMG: nat := 0xFF

  /** The opcodes `Setup` registers. */
  const REGISTERED: set<nat> := {G_DL, G_GEOMETRYMODE, G_VTX, G_MTX, G_TRI1, G_LOAD_UCODE}

  /** The memory command operands point into, and the segment table their
      addresses are resolved through. */
  datatype Env = Env(segments: SegmentTable, mem: Memory)

  datatype Handler = DisplayList | GeometryMode | VertexCmd | MatrixCmd | Triangles1 | LoadUcode

  /** Bit 16 of `w0` of G_DL: clear to call the list and come back, set to
      branch to it. */
  const DL_NOPUSH: nat := 0x1_0000

  /** G_DL: resolves the target list's address; a call runs it as a nested
      list, a branch continues at it. */
  function GspDisplayList(env: Env, rsp: RspState, cmd: Gfx): (r: Result<Handled>)
    ensures r.Ok? <==> SegmentedAddress(env.segments, cmd.w1).Ok?
    ensures r.Ok? ==> r.value.rsp == rsp
    ensures r.Ok? ==> r.value.next == (if HasFlag(cmd.w0, DL_NOPUSH) then SetAddressWithDecrease(SegmentedAddress(env.segments, cmd.w1).value)
                                      else Recurse(SegmentedAddress(env.segments, cmd.w1).value))
  {
    Pow2Values();
    var target :- SegmentedAddress(env.segments, cmd.w1);
    if GetC0(cmd.w0, 16, 1) == 0 then Ok(Handled(rsp, Recurse(target)))
    else Ok(Handled(rsp, SetAddressWithDecrease(target)))
  }

  /** The clear mask of G_GEOMETRYMODE: the low 24 bits of `w0`
      (`get_c0(w0, 0, 24)`), as a bit pattern. */
  function ClearBits(cmd: Gfx): (c: bv32)
    ensures c as int == GetC0(cmd.w0, 0, 24)
    ensures c & 0xFF00_0000 == 0
  {
    Pow2Values();
    var c := BitsOf(GetC0(cmd.w0, 0, 24));
    BelowTopByte(c);
    c
  }

  /** A pattern whose value is below 2^24 has no bit of the top byte. */
  lemma BelowTopByte(c: bv32)
    requires c as int < 0x100_0000
    ensures c & 0xFF00_0000 == 0
  {
    assert c < 0x100_0000;
  }

  /** The set mask of G_GEOMETRYMODE: all of `w1`, as a bit pattern. */
  function SetBits(cmd: Gfx): (b: bv32)
    ensures b as int == cmd.w1
  {
    BitsOf(cmd.w1)
  }

  /** `(mode & !clear) | setBits`: every bit of `setBits` ends up set, every other
      bit is cleared when `clear` has it and kept otherwise. */
  function UpdateMode(mode: bv32, clear: bv32, setBits: bv32): (r: bv32)
    ensures r & setBits == setBits
    ensures r & !setBits == mode & !clear & !setBits
    ensures clear & 0xFF00_0000 == 0 ==> r & 0xFF00_0000 & mode == mode & 0xFF00_0000
  {
    var r := (mode & !clear) | setBits;
    SetBitsSet(mode & !clear, setBits);
    OtherBitsCleared(mode, clear, setBits);
    TopByteKept(mode, clear, setBits);
    r
  }

  lemma SetBitsSet(kept: bv32, setBits: bv32)
    ensures (kept | setBits) & setBits == setBits
  {
  }

  lemma OtherBitsCleared(mode: bv32, clear: bv32, setBits: bv32)
    ensures ((mode & !clear) | setBits) & !setBits == mode & !clear & !setBits
  {
  }

  lemma TopByteKept(mode: bv32, clear: bv32, setBits: bv32)
    ensures clear & 0xFF00_0000 == 0 ==> ((mode & !clear) | setBits) & 0xFF00_0000 & mode == mode & 0xFF00_0000
  {
  }

  /** G_GEOMETRYMODE: clears the bits of the 24-bit mask in `w0`, then sets
      the bits of `w1`; the top byte of the mode can be set but never cleared. */
  function GspGeometryMode(rsp: RspState, cmd: Gfx): (r: Handled)
    ensures r.next == Continue
    ensures r.rsp == rsp.(geometryMode := r.rsp.geometryMode, stateChanged := true)
    ensures r.rsp.geometryMode & SetBits(cmd) == SetBits(cmd)
    ensures r.rsp.(geometryMode := rsp.geometryMode, stateChanged := rsp.stateChanged) == rsp && r.rsp.stateChanged
    ensures r.rsp.geometryMode & 0xFF00_0000 & rsp.geometryMode == rsp.geometryMode & 0xFF00_0000
    ensures r.rsp.geometryMode == UpdateMode(rsp.geometryMode, ClearBits(cmd), SetBits(cmd))
  {
    var clear, setBits := ClearBits(cmd), SetBits(cmd);
    var mode := UpdateMode(rsp.geometryMode, clear, setBits);
    Handled(WithMode(rsp, mode), Continue)
  }

  /** G_GEOMETRYMODE bit by bit: a bit of `w1` is set; any other bit is
      cleared when the low 24 bits of `w0` have it and kept otherwise. */
  lemma GeometryModeBits(rsp: RspState, cmd: Gfx)
    ensures GspGeometryMode(rsp, cmd).rsp.geometryMode & SetBits(cmd) == SetBits(cmd)
    ensures GspGeometryMode(rsp, cmd).rsp.geometryMode & !SetBits(cmd) == rsp.geometryMode & !ClearBits(cmd) & !SetBits(cmd)
  {
    ModeBits(rsp.geometryMode, ClearBits(cmd), SetBits(cmd), GspGeometryMode(rsp, cmd).rsp.geometryMode);
  }

  /** `UpdateMode`'s two bit-level facts about a given result. */
  lemma ModeBits(mode: bv32, clear: bv32, setBits: bv32, r: bv32)
    requires r == UpdateMode(mode, clear, setBits)
    ensures r & setBits == setBits
    ensures r & !setBits == mode & !clear & !setBits
  {
  }

  /** Clearing all 24 low bits and setting none turns a mode with only bit
      2 set into the empty mode. */
  lemma GeometryModeClearExample(rsp: RspState)
    requires rsp.geometryMode == 4
    ensures GspGeometryMode(rsp, Gfx(0xD9FF_FFFF, 0)).rsp.geometryMode == 0
  {
    Pow2Values();
    assert GetC0(0xD9FF_FFFF, 0, 24) == 0xFF_FFFF;
    assert ByteBits(0xFF) == 0xFF && ByteBits(0) == 0;
    assert BitsOf(0xFF_FFFF) == Join16(Join8(0, 0xFF), Join8(0xFF, 0xFF)) == 0x00FF_FFFF;
    assert BitsOf(0) == Join16(Join8(0, 0), Join8(0, 0)) == 0;
  }

  /** The RSP with a new geometry mode, marked as changed. */
  function WithMode(rsp: RspState, mode: bv32): (r: RspState)
    ensures r.(geometryMode := rsp.geometryMode, stateChanged := rsp.stateChanged) == rsp
    ensures r.geometryMode == mode && r.stateChanged
  {
    rsp.(geometryMode := mode, stateChanged := true)
  }

  /** Repeating a geometry-mode command changes nothing more. */
  lemma GeometryModeIdempotent(rsp: RspState, cmd: Gfx)
    ensures GspGeometryMode(GspGeometryMode(rsp, cmd).rsp, cmd) == GspGeometryMode(rsp, cmd)
  {
  }

  /** G_VTX's operands: the vertex count in bits 12..19 of `w0`, the end
      slot in bits 1..7; the first slot is the end minus the count, a
      32-bit subtraction that wraps when the count exceeds the end. */
  function VertexCount(cmd: Gfx): nat {
    Pow2Values();
    GetC0(cmd.w0, 12, 8)
  }

  function VertexEnd(cmd: Gfx): nat {
    Pow2Values();
    GetC0(cmd.w0, 1, 7)
  }

  function VertexDest(cmd: Gfx): (dest: nat)
    ensures VertexCount(cmd) <= VertexEnd(cmd) ==> dest + VertexCount(cmd) == VertexEnd(cmd)
    ensures VertexCount(cmd) > VertexEnd(cmd) ==> dest >= TWO_32 - 256
  {
    (VertexEnd(cmd) - VertexCount(cmd)) % TWO_32
  }

  /** G_VTX: stages `count` vertices ending at the end slot. It succeeds
      exactly when the address resolves and, if there are vertices at all,
      the count fits below the end slot, the end slot is inside the staging
      table, every vertex is readable and the lighting state is usable. */
  function GspVertex(env: Env, rsp: RspState, cmd: Gfx): (r: Result<Handled>)
    ensures r.Ok? <==> SegmentedAddress(env.segments, cmd.w1).Ok?
                       && (VertexCount(cmd) == 0
                           || (VertexCount(cmd) <= VertexEnd(cmd) <= NUM_STAGING_VERTICES
                               && VerticesReadable(env.mem, SegmentedAddress(env.segments, cmd.w1).value, VertexCount(cmd))
                               && LightingOk(rsp)))
    ensures r.Ok? ==> r.value.next == Continue
    ensures r.Ok? ==> r.value.rsp.(stateChanged := rsp.stateChanged, coeffs := rsp.coeffs) == rsp
    ensures r.Ok? && VertexCount(cmd) == 0 ==> r.value.rsp == rsp
    ensures r.Ok? && VertexCount(cmd) > 0 ==> Ok(r.value.rsp) == LightingUpdate(rsp)
    ensures r.Ok? && !Lighting(rsp) ==> r.value.rsp == rsp
  {
    var vertices :- SegmentedAddress(env.segments, cmd.w1);
    var staged :- Rsp.GspVertex(env.mem, rsp, vertices, VertexCount(cmd), VertexDest(cmd));
    Ok(Handled(staged, Continue))
  }

  /** F3DEX2 stores the push flag inverted; the handler flips it back:
      `params ^ G_MTX::PUSH` with the other bits kept. */
  function FlipPush(params: nat): (r: nat)
    ensures HasFlag(r, MtxPush(F3dex2Encoding)) <==> !HasFlag(params, MtxPush(F3dex2Encoding))
    ensures HasFlag(r, MtxLoad(F3dex2Encoding)) <==> HasFlag(params, MtxLoad(F3dex2Encoding))
    ensures HasFlag(r, MtxProjection(F3dex2Encoding)) <==> HasFlag(params, MtxProjection(F3dex2Encoding))
  {
    assert MtxPush(F3dex2Encoding) == 1 && MtxLoad(F3dex2Encoding) == 2 && MtxProjection(F3dex2Encoding) == 4;
    if params % 2 == 1 then
      LowBitFlip(params - 1);
      params - 1
    else
      LowBitFlip(params);
      params + 1
  }

  /** Setting bit 0 of an even number leaves its higher bits alone. */
  lemma LowBitFlip(even: nat)
    requires even % 2 == 0
    ensures (even + 1) % 2 == 1
    ensures (even + 1) / 2 == even / 2 && (even + 1) / 4 == even / 4
  {
    DivUnique(even + 1, 2, even / 2, 1);
    DivUnique(even + 1, 4, even / 4, even % 4 + 1);
  }

  function MatrixParams(cmd: Gfx): nat {
    Pow2Values();
    FlipPush(GetC0(cmd.w0, 0, 8))
  }

  /** The parameter byte of `w0` asks for a modelview push: bit 0 clear
      and the projection bit clear. */
  predicate ModelviewPush(cmd: Gfx) {
    !HasFlag(cmd.w0 % 0x100, MtxProjection(F3dex2Encoding)) && !HasFlag(cmd.w0 % 0x100, MtxPush(F3dex2Encoding))
  }

  /** G_MTX: applies the matrix at the address in `w1` with the parameter
      byte of `w0`, through `gsp_matrix` as written. It succeeds exactly when
      the address resolves, the 12 words the loop reads are readable, and it
      is not a modelview push with the stack at its topmost slot. A
      modelview update pushes exactly when bit 0 of `w0` is clear, and then
      the new top is the decoded matrix, or its square when multiplying. */
  function GspMatrix(env: Env, rsp: RspState, cmd: Gfx): (r: Result<Handled>)
    ensures r.Ok? <==> SegmentedAddress(env.segments, cmd.w1).Ok?
                       && ReadWords(env.mem, SegmentedAddress(env.segments, cmd.w1).value, AS_WRITTEN_MATRIX_WORDS).Ok?
                       && !(ModelviewPush(cmd) && rsp.modelviewIndex == NUM_MODELVIEW_MATRICES - 1)
    ensures r.Ok? ==> r.value.next == Continue && r.value.rsp.stateChanged
    ensures r.Ok? && !HasFlag(cmd.w0 % 0x100, MtxProjection(F3dex2Encoding)) ==>
      (r.value.rsp.modelviewIndex == rsp.modelviewIndex + 1 <==> ModelviewPush(cmd))
    ensures r.Ok? && ModelviewPush(cmd) ==>
      var m := Fixed(DecodeCellsAsWritten(ReadWords(env.mem, SegmentedAddress(env.segments, cmd.w1).value, AS_WRITTEN_MATRIX_WORDS).value));
      r.value.rsp.modelview[rsp.modelviewIndex + 1] == (if HasFlag(cmd.w0 % 0x100, MtxLoad(F3dex2Encoding)) then m else Product(m, m))
    ensures r.Ok? && HasFlag(cmd.w0 % 0x100, MtxProjection(F3dex2Encoding)) ==>
      r.value.rsp.modelview == rsp.modelview && r.value.rsp.modelviewIndex == rsp.modelviewIndex
  {
    Pow2Values();
    var after :- Rsp.GspMatrixAsWritten(env.segments, env.mem, rsp, F3dex2Encoding, cmd.w1, MatrixParams(cmd));
    Ok(Handled(after, Continue))
  }

  /** G_MTX with the layout and push evidently intended: it succeeds
      exactly when the 16 matrix words are readable; a modelview update
      pushes exactly when bit 0 of `w0` is clear and a slot is left above
      the top, and a push keeps the old top below the new one. */
  function GspMatrixCorrected(env: Env, rsp: RspState, cmd: Gfx): (r: Result<Handled>)
    ensures r.Ok? <==> SegmentedAddress(env.segments, cmd.w1).Ok?
                       && ReadWords(env.mem, SegmentedAddress(env.segments, cmd.w1).value, MATRIX_WORDS).Ok?
    ensures r.Ok? ==> r.value.next == Continue && r.value.rsp.stateChanged
    ensures r.Ok? && !HasFlag(cmd.w0 % 0x100, MtxProjection(F3dex2Encoding)) ==>
      (r.value.rsp.modelviewIndex == rsp.modelviewIndex + 1
       <==> ModelviewPush(cmd) && rsp.modelviewIndex + 1 < NUM_MODELVIEW_MATRICES)
    ensures r.Ok? && ModelviewPush(cmd) && rsp.modelviewIndex + 1 < NUM_MODELVIEW_MATRICES ==>
      r.value.rsp.modelview[rsp.modelviewIndex] == rsp.modelview[rsp.modelviewIndex]
    ensures r.Ok? && HasFlag(cmd.w0 % 0x100, MtxProjection(F3dex2Encoding)) ==>
      r.value.rsp.modelview == rsp.modelview && r.value.rsp.modelviewIndex == rsp.modelviewIndex
  {
    Pow2Values();
    var after :- Rsp.GspMatrix(env.segments, env.mem, rsp, F3dex2Encoding, cmd.w1, MatrixParams(cmd));
    Ok(Handled(after, Continue))
  }

  /** The vertex ids of G_TRI1: bytes 2, 1 and 0 of `w0`, halved. They fit
      in a byte, so the conversion to `u8` never fails. */
  function TriangleIds(cmd: Gfx): (ids: (nat, nat, nat))
    ensures ids.0 < 128 && ids.1 < 128 && ids.2 < 128
  {
    Pow2Values();
    (GetC0(cmd.w0, 16, 8) / 2, GetC0(cmd.w0, 8, 8) / 2, GetC0(cmd.w0, 0, 8) / 2)
  }

  /** G_TRI1: decides the triangle (the decision produces no output) and
      fails when a vertex id is past the staging table. */
  function GspTriangles1(rsp: RspState, cmd: Gfx): (r: Result<Handled>)
    ensures r.Ok? <==> TriangleIds(cmd).0 < NUM_STAGING_VERTICES && TriangleIds(cmd).1 < NUM_STAGING_VERTICES
                       && TriangleIds(cmd).2 < NUM_STAGING_VERTICES
    ensures r.Ok? ==> r.value == Handled(rsp, Continue)
  {
    var ids := TriangleIds(cmd);
    var _ :- Rsp.GspTriangles(rsp, ids.0, ids.1, ids.2);
    Ok(Handled(rsp, Continue))
  }

  /** G_LOAD_UCODE: resets the fog parameters and nothing else. */
  function GspLoadUcode(rsp: RspState): (r: Handled)
    ensures r.next == Continue
    ensures r.rsp.fogMultiplier == 0 && r.rsp.fogOffset == 0
    ensures r.rsp.(fogMultiplier := rsp.fogMultiplier, fogOffset := rsp.fogOffset) == rsp
  {
    Handled(rsp.(fogMultiplier := 0, fogOffset := 0), Continue)
  }

  /** Runs handler `h` on a command. */
  function Apply(env: Env, h: Handler, rsp: RspState, cmd: Gfx): (r: Result<Handled>)
    ensures r.Ok? ==> r.value.next != Return && r.value.next != Increase && r.value.next != Decrease
  {
    match h
    case DisplayList => GspDisplayList(env, rsp, cmd)
    case GeometryMode => Ok(GspGeometryMode(rsp, cmd))
    case VertexCmd => GspVertex(env, rsp, cmd)
    case MatrixCmd => GspMatrix(env, rsp, cmd)
    case Triangles1 => GspTriangles1(rsp, cmd)
    case LoadUcode => Ok(GspLoadUcode(rsp))
  }

  /** F3DEX2's setup: registers its six handlers, replacing whatever those
      opcodes held and keeping every other registration. */
  function Setup(table: OpcodeTable<Handler>): (r: OpcodeTable<Handler>)
    ensures r.Keys == table.Keys + REGISTERED
    ensures r[G_DL] == DisplayList && r[G_GEOMETRYMODE] == GeometryMode && r[G_VTX] == VertexCmd
    ensures r[G_MTX] == MatrixCmd && r[G_TRI1] == Triangles1 && r[G_LOAD_UCODE] == LoadUcode
    ensures forall o :: o in table && o !in REGISTERED ==> r[o] == table[o]
  {
    var t := Register(table, G_DL, DisplayList);
    var t := Register(t, G_GEOMETRYMODE, GeometryMode);
    var t := Register(t, G_VTX, VertexCmd);
    var t := Register(t, G_MTX, MatrixCmd);
    var t := Register(t, G_TRI1, Triangles1);
    Register(t, G_LOAD_UCODE, LoadUcode)
  }

  /** Running setup twice registers nothing new. */
  lemma SetupIdempotent(table: OpcodeTable<Handler>)
    ensures Setup(Setup(table)) == Setup(table)
  {
  }

  /** On a freshly set up table, every opcode F3DEX2 does not register is
      rejected: the end-of-list command G_ENDDL, every RDP command, and the
      named but unimplemented geometry commands. */
  lemma UnregisteredOpcodesFail(env: Env, rsp: RspState, cmd: Gfx)
    requires Opcode(cmd) !in REGISTERED
    ensures HandleCommand(Setup(NewTable()), (h, r, c) => Apply(env, h, r, c), rsp, cmd) == Err(UnknownOpcode(Opcode(cmd)))
  {
    assert Opcode(cmd) !in Setup(NewTable());
  }

  /** Among the unregistered opcodes: G_ENDDL, G_TEXTURE, G_POPMTX, G_TRI2
      and the whole G_SETOTHERMODE_L ..= G_SETCIMG range. */
  lemma UnregisteredOpcodes()
    ensures G_ENDDL !in REGISTERED && G_TEXTURE !in REGISTERED && G_POPMTX !in REGISTERED && G_TRI2 !in REGISTERED
    ensures forall o :: G_SETOTHERMODE_L <= o <= G_SETCIMG ==> o !in REGISTERED
  {
  }
}
