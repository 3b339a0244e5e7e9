/** The RSP's bookkeeping (rsp.rs): the modelview stack, the 16.16
    fixed-point matrix layout, the vertex command's lighting refresh, the
    trivial clip mask of a transformed vertex, and the triangle cull
    decision.

    Matrix contents are float arithmetic the model does not interpret: a
    matrix is the term that records where it came from (zero, a decoded
    fixed-point array, or the product of two matrices). */
module Rsp {
  import opened Base
  import opened Defines
  import opened Segment

  const NUM_MODELVIEW_MATRICES: nat := 32
  const MAX_LIGHTS: nat := 2
  const NUM_STAGING_VERTICES: nat := 64

  /** The stride of the `Vertex` array: 18 bytes of fields in a union
      aligned like a 64-bit integer, on a host that aligns `long long` to
      8 bytes. */
  const VERTEX_SIZE: nat := 24
  const VERTEX_WORDS: nat := 6

  /** Words the vertex loop reads per vertex: its 18-byte `VertexColor`
      view, rounded up to whole words. */
  const VERTEX_READ_WORDS: nat := 5

  /** Words in a fixed-point matrix: eight of integer halves, then eight of
      fractions. */
  const MATRIX_WORDS: nat := 16

  /** 2^16, the weight of the upper half of a word. */
  const HALF: nat := 0x1_0000

  // ---------------------------------------------------------------------
  // Matrices

  /** A 4x4 matrix by provenance. `Fixed` holds the sixteen 16.16 values in
      the order they are written into the column array, each as the unsigned
      32-bit pattern the source converts to a float. */
  datatype Mat = ZeroMat | Fixed(cells: seq<u32>) | Product(left: Mat, right: Mat)

  type ModelviewStack = s: seq<Mat> | |s| == NUM_MODELVIEW_MATRICES witness seq(32, _ => ZeroMat)
  type StackIndex = i: nat | i < NUM_MODELVIEW_MATRICES

  /** `(a & 0xffff0000) | (b >> 16)`: the upper halves of two words. */
  function HighHalves(a: u32, b: u32): u32 {
    HalfBound(a);
    (a / HALF) * HALF + b / HALF
  }

  /** `(a << 16) | (b & 0xffff)` on 32 bits: the lower halves of two words. */
  function LowHalves(a: u32, b: u32): u32 {
    (a % HALF) * HALF + b % HALF
  }

  lemma HalfBound(a: u32)
    ensures a / HALF < HALF
  {
  }

  lemma SplitPack(hi: nat, lo: nat)
    requires hi < HALF && lo < HALF
    ensures (hi * HALF + lo) / HALF == hi
    ensures (hi * HALF + lo) % HALF == lo
  {
  }

  /** Regrouping the halves of two words twice gives the words back: the
      layout that splits a pair of 16.16 values into an integer word and a
      fraction word is undone by the same regrouping. */
  lemma {:induction false} HalvesInvolution(a: u32, b: u32)
    ensures HighHalves(HighHalves(a, b), LowHalves(a, b)) == a
    ensures LowHalves(HighHalves(a, b), LowHalves(a, b)) == b
  {
    HalfBound(a);
    HalfBound(b);
    SplitPack(a / HALF, b / HALF);
    SplitPack(a % HALF, b % HALF);
  }

  /** Cells `2k` and `2k + 1` are assembled from integer word `k` and
      fraction word `8 + k`. */
  function DecodeCells(words: seq<u32>): (cells: seq<u32>)
    requires |words| == MATRIX_WORDS
    ensures |cells| == 16
    ensures forall k :: 0 <= k < 8 ==>
      cells[2 * k] == HighHalves(words[k], words[8 + k]) && cells[2 * k + 1] == LowHalves(words[k], words[8 + k])
  {
    PairIndices();
    seq(16, i requires 0 <= i < 16 =>
      if i % 2 == 0 then HighHalves(words[i / 2], words[8 + i / 2]) else LowHalves(words[i / 2], words[8 + i / 2]))
  }

  lemma PairIndices()
    ensures forall k :: 0 <= k < 8 ==> (2 * k) % 2 == 0 && (2 * k) / 2 == k && (2 * k + 1) % 2 == 1 && (2 * k + 1) / 2 == k
  {
  }

  /** The fraction word the loop as written reads for integer word `k`:
      it computes `8 + 1 * 2 + c / 2`, so always word 10 or 11, whatever
      the row. */
  function AsWrittenFractionWord(k: nat): (f: nat)
    ensures 10 <= f < 12
  {
    10 + k % 2
  }

  /** The block the loop as written effectively decodes: the integer words,
      then fraction words 10 and 11 four times over. */
  function AsWrittenBlock(words: seq<u32>): (block: seq<u32>)
    requires |words| >= 12
    ensures |block| == MATRIX_WORDS
    ensures forall k :: 0 <= k < 8 ==> block[k] == words[k] && block[8 + k] == words[AsWrittenFractionWord(k)]
  {
    words[..8] + [words[10], words[11], words[10], words[11], words[10], words[11], words[10], words[11]]
  }

  function DecodeCellsAsWritten(words: seq<u32>): (cells: seq<u32>)
    requires |words| >= 12
    ensures |cells| == 16
    ensures forall k :: 0 <= k < 8 ==>
      && cells[2 * k] == HighHalves(words[k], words[AsWrittenFractionWord(k)])
      && cells[2 * k + 1] == LowHalves(words[k], words[AsWrittenFractionWord(k)])
  {
    AsWrittenCells(words);
    DecodeCells(AsWrittenBlock(words))
  }

  lemma AsWrittenCells(words: seq<u32>)
    requires |words| >= 12
    ensures var cells := DecodeCells(AsWrittenBlock(words));
      forall k :: 0 <= k < 8 ==>
        && cells[2 * k] == HighHalves(words[k], words[AsWrittenFractionWord(k)])
        && cells[2 * k + 1] == LowHalves(words[k], words[AsWrittenFractionWord(k)])
  {
    var block := AsWrittenBlock(words);
    var cells := DecodeCells(block);
    forall k | 0 <= k < 8
      ensures cells[2 * k] == HighHalves(words[k], words[AsWrittenFractionWord(k)])
      ensures cells[2 * k + 1] == LowHalves(words[k], words[AsWrittenFractionWord(k)])
    {
      assert block[k] == words[k] && block[8 + k] == words[AsWrittenFractionWord(k)];
    }
  }

  /** The fixed-point layout a game writes: integer halves of cells `2k`
      and `2k + 1` in word `k`, their fractions in word `8 + k`. */
  function EncodeCells(cells: seq<u32>): (words: seq<u32>)
    requires |cells| == 16
    ensures |words| == MATRIX_WORDS
  {
    seq(16, j requires 0 <= j < 16 =>
      if j < 8 then HighHalves(cells[2 * j], cells[2 * j + 1])
      else LowHalves(cells[2 * (j - 8)], cells[2 * (j - 8) + 1]))
  }

  /** Decoding inverts the layout: every matrix survives encoding and
      decoding, and every 16-word block is the encoding of what it decodes to. */
  lemma MatrixLayoutRoundTrip(cells: seq<u32>, words: seq<u32>)
    requires |cells| == 16 && |words| == MATRIX_WORDS
    ensures DecodeCells(EncodeCells(cells)) == cells
    ensures EncodeCells(DecodeCells(words)) == words
  {
    DecodeAfterEncode(cells);
    EncodeAfterDecode(words);
  }

  lemma DecodeAfterEncode(cells: seq<u32>)
    requires |cells| == 16
    ensures DecodeCells(EncodeCells(cells)) == cells
  {
    var d := DecodeCells(EncodeCells(cells));
    forall i | 0 <= i < 16
      ensures d[i] == cells[i]
    {
      DecodedPair(cells, i / 2);
      assert i == 2 * (i / 2) || i == 2 * (i / 2) + 1;
    }
  }

  lemma DecodedPair(cells: seq<u32>, k: nat)
    requires |cells| == 16 && k < 8
    ensures DecodeCells(EncodeCells(cells))[2 * k] == cells[2 * k]
    ensures DecodeCells(EncodeCells(cells))[2 * k + 1] == cells[2 * k + 1]
  {
    var w := EncodeCells(cells);
    HalvesInvolution(cells[2 * k], cells[2 * k + 1]);
    assert w[k] == HighHalves(cells[2 * k], cells[2 * k + 1]);
    assert w[8 + k] == LowHalves(cells[2 * k], cells[2 * k + 1]);
  }

  lemma EncodeAfterDecode(words: seq<u32>)
    requires |words| == MATRIX_WORDS
    ensures EncodeCells(DecodeCells(words)) == words
  {
    var c := DecodeCells(words);
    forall j | 0 <= j < 16
      ensures EncodeCells(c)[j] == words[j]
    {
      var k := if j < 8 then j else j - 8;
      HalvesInvolution(words[k], words[8 + k]);
    }
  }


  /** The layout as written drops information: its result never depends on
      fraction words 8, 9 and 12 to 15. */
  lemma AsWrittenIgnoresFractionWords(w1: seq<u32>, w2: seq<u32>)
    requires |w1| == MATRIX_WORDS && |w2| == MATRIX_WORDS
    requires w1[..8] == w2[..8] && w1[10] == w2[10] && w1[11] == w2[11]
    ensures DecodeCellsAsWritten(w1) == DecodeCellsAsWritten(w2)
  {
    assert AsWrittenBlock(w1) == AsWrittenBlock(w2);
  }

  /** The cells of a matrix whose first value is 1/65536 and all others zero. */
  const SMALLEST_FIRST_CELL: seq<u32> := [1] + seq(15, _ => 0)

  /** A matrix whose first value is a pure fraction and whose other values
      are zero. */
  predicate FractionOnlyFirst(cells: seq<u32>) {
    |cells| == 16 && cells[0] < HALF && forall j :: 1 <= j < 16 ==> cells[j] == 0
  }

  /** So the as-written layout cannot invert the encoding: the matrix whose
      first value is 1/65536 (all else zero) decodes to the zero matrix,
      while the correct layout gives it back. */
  lemma AsWrittenDecodeLosesFractions()
    ensures forall i :: 0 <= i < 16 ==> DecodeCellsAsWritten(EncodeCells(SMALLEST_FIRST_CELL))[i] == 0
    ensures DecodeCells(EncodeCells(SMALLEST_FIRST_CELL)) == SMALLEST_FIRST_CELL && SMALLEST_FIRST_CELL[0] == 1
  {
    AsWrittenZeroes(SMALLEST_FIRST_CELL);
    MatrixLayoutRoundTrip(SMALLEST_FIRST_CELL, EncodeCells(SMALLEST_FIRST_CELL));
  }

  /** Every matrix whose only non-zero value is a fraction in the first
      cell decodes, as written, to the zero matrix. */
  lemma AsWrittenZeroes(cells: seq<u32>)
    requires FractionOnlyFirst(cells)
    ensures forall i :: 0 <= i < 16 ==> DecodeCellsAsWritten(EncodeCells(cells))[i] == 0
  {
    forall i | 0 <= i < 16
      ensures DecodeCellsAsWritten(EncodeCells(cells))[i] == 0
    {
      AsWrittenCellZero(cells, i);
    }
  }

  lemma AsWrittenCellZero(cells: seq<u32>, i: nat)
    requires FractionOnlyFirst(cells) && i < 16
    ensures DecodeCellsAsWritten(EncodeCells(cells))[i] == 0
  {
    var k := i / 2;
    AsWrittenPairZero(cells, k);
    assert i == 2 * k || i == 2 * k + 1;
  }

  lemma AsWrittenPairZero(cells: seq<u32>, k: nat)
    requires FractionOnlyFirst(cells) && k < 8
    ensures var d := DecodeCellsAsWritten(EncodeCells(cells));
      d[2 * k] == 0 && d[2 * k + 1] == 0
  {
    assert HighHalves(0, 0) == 0 && LowHalves(0, 0) == 0;
    FractionOnlyEncoded(cells, k);
    FractionOnlyEncoded(cells, AsWrittenFractionWord(k));
  }

  /** Every word of such a matrix's encoding but the first fraction word
      is zero. */
  lemma FractionOnlyEncoded(cells: seq<u32>, j: nat)
    requires FractionOnlyFirst(cells) && j < 16 && j != 8
    ensures EncodeCells(cells)[j] == 0
  {
    var k := if j < 8 then j else j - 8;
    assert cells[2 * k + 1] == 0;
    if k == 0 {
      assert j == 0;
      assert EncodeCells(cells)[j] == HighHalves(cells[0], 0);
    } else {
      assert cells[2 * k] == 0;
      assert EncodeCells(cells)[j] == if j < 8 then HighHalves(0, 0) else LowHalves(0, 0);
    }
  }

  // ---------------------------------------------------------------------
  // RSP state

  type Bytes4 = s: seq<bv8> | |s| == 4 witness [0, 0, 0, 0]

  datatype Vec4 = Vec4(x: real, y: real, z: real, w: real)

  /** A transformed vertex as the triangle command reads it. */
  datatype StagingVertex = StagingVertex(pos: Vec4, texCoord: (real, real), color: Bytes4, clipRejection: bv8)

  const STAGING_VERTEX_ZERO: StagingVertex := StagingVertex(Vec4(0.0, 0.0, 0.0, 0.0), (0.0, 0.0), [0, 0, 0, 0], 0)

  type VertexTable = s: seq<StagingVertex> | |s| == NUM_STAGING_VERTICES witness seq(64, _ => STAGING_VERTEX_ZERO)
  type LightTable = s: seq<Light> | |s| == MAX_LIGHTS + 1 witness [LIGHT_ZERO, LIGHT_ZERO, LIGHT_ZERO]

  /** The per-light and look-at coefficients: zero, or derived (by float
      arithmetic the model does not interpret) from the matrix below the
      modelview top and the directional lights. */
  datatype CoeffCache = ZeroCoeffs | DerivedFrom(view: Mat, lights: seq<Light>)

  datatype RspState = RspState(
    modelviewIndex: StackIndex,
    modelview: ModelviewStack,
    modelProjection: Mat,
    projection: Mat,
    vertexTable: VertexTable,
    numLights: nat,              // includes the ambient light
    lights: LightTable,
    coeffs: CoeffCache,
    geometryMode: bv32,
    stateChanged: bool,
    textureScaling: (nat, nat),
    fogMultiplier: int,
    fogOffset: int)

  /** The RSP as constructed: empty stack at slot 0, zero matrices, zero
      vertices and lights, no geometry flags, unit texture scaling, no fog.
      `model_projection_matrix` is assigned only here, so it stays the zero
      matrix for every run. */
  function NewRsp(): (rsp: RspState)
    ensures rsp.modelviewIndex == 0 && rsp.numLights == 0 && rsp.geometryMode == 0
    ensures !rsp.stateChanged && rsp.textureScaling == (1, 1)
    ensures rsp.fogMultiplier == 0 && rsp.fogOffset == 0
    ensures rsp.projection == ZeroMat && rsp.modelProjection == ZeroMat
    ensures forall i :: 0 <= i < NUM_MODELVIEW_MATRICES ==> rsp.modelview[i] == ZeroMat
    ensures forall i :: 0 <= i < NUM_STAGING_VERTICES ==> rsp.vertexTable[i] == STAGING_VERTEX_ZERO
    ensures forall i :: 0 <= i <= MAX_LIGHTS ==> rsp.lights[i] == LIGHT_ZERO
    ensures rsp.coeffs == ZeroCoeffs
  {
    RspState(0, seq(32, _ => ZeroMat), ZeroMat, ZeroMat, seq(64, _ => STAGING_VERTEX_ZERO), 0,
             [LIGHT_ZERO, LIGHT_ZERO, LIGHT_ZERO], ZeroCoeffs, 0, false, (1, 1), 0, 0)
  }

  /** A fresh RSP has lighting off, so its lighting update is a no-op, and
      no cull mode and zero staged vertices, so every triangle on it is
      drawn. */
  lemma FreshRspDrawsEverything(id1: nat, id2: nat, id3: nat)
    requires id1 < NUM_STAGING_VERTICES && id2 < NUM_STAGING_VERTICES && id3 < NUM_STAGING_VERTICES
    ensures LightingUpdate(NewRsp()) == Ok(NewRsp())
    ensures GspTriangles(NewRsp(), id1, id2, id3) == Ok(Drawn)
  {
    var rsp := NewRsp();
    assert rsp.geometryMode & G_LIGHTING == 0;
    assert rsp.geometryMode & G_CULL_BOTH == 0;
    assert rsp.vertexTable[id1].clipRejection & rsp.vertexTable[id2].clipRejection & rsp.vertexTable[id3].clipRejection == 0;
  }

  // ---------------------------------------------------------------------
  // G_MTX

  /** The matrix update of `gsp_matrix` with the push evidently intended: a
      push starts a new top that copies the old one, and is dropped when no
      slot is left above the top. A projection update only touches the
      projection matrix. */
  function ApplyMatrixTo(rsp: RspState, e: MtxEncoding, params: nat, m: Mat): (r: RspState)
    ensures r.stateChanged
    ensures HasFlag(params, MtxProjection(e)) ==>
      r == rsp.(projection := if HasFlag(params, MtxLoad(e)) then m else Product(rsp.projection, m), stateChanged := true)
    ensures !HasFlag(params, MtxProjection(e)) ==>
      && r.projection == rsp.projection
      && r.modelviewIndex == (if HasFlag(params, MtxPush(e)) && rsp.modelviewIndex + 1 < NUM_MODELVIEW_MATRICES
                              then rsp.modelviewIndex + 1 else rsp.modelviewIndex)
      && r.modelview[r.modelviewIndex] == (if HasFlag(params, MtxLoad(e)) then m else Product(rsp.modelview[rsp.modelviewIndex], m))
      && (forall i :: 0 <= i < NUM_MODELVIEW_MATRICES && i != r.modelviewIndex ==> r.modelview[i] == rsp.modelview[i])
      && r.(modelview := rsp.modelview, modelviewIndex := rsp.modelviewIndex, stateChanged := rsp.stateChanged) == rsp
  {
    if HasFlag(params, MtxProjection(e)) then
      var p := if HasFlag(params, MtxLoad(e)) then m else Product(rsp.projection, m);
      rsp.(projection := p, stateChanged := true)
    else
      var top := rsp.modelview[rsp.modelviewIndex];
      var idx: StackIndex := if HasFlag(params, MtxPush(e)) && rsp.modelviewIndex < NUM_MODELVIEW_MATRICES - 1
        then rsp.modelviewIndex + 1 else rsp.modelviewIndex;
      var newTop := if HasFlag(params, MtxLoad(e)) then m else Product(top, m);
      rsp.(modelviewIndex := idx, modelview := rsp.modelview[idx := newTop], stateChanged := true)
  }

  /** A modelview push with the stack at its topmost slot. */
  predicate PushPastTop(rsp: RspState, e: MtxEncoding, params: nat) {
    !HasFlag(params, MtxProjection(e)) && HasFlag(params, MtxPush(e)) && rsp.modelviewIndex == NUM_MODELVIEW_MATRICES - 1
  }

  /** The update as written: the push guard admits index 31, so the push
      writes slot 32 past the stack's end; and the pushed slot receives the
      new matrix itself rather than a copy of the old top, so a push
      followed by a multiply stores the matrix times itself. Otherwise a
      projection update touches only the projection, the top is replaced
      or multiplied, every other slot is kept, and the change flag is set. */
  function ApplyMatrixToAsWritten(rsp: RspState, e: MtxEncoding, params: nat, m: Mat): (r: Result<RspState>)
    ensures r.Err? <==> PushPastTop(rsp, e, params)
    ensures r.Err? ==> r.error == IndexOutOfBounds(NUM_MODELVIEW_MATRICES, NUM_MODELVIEW_MATRICES)
    ensures r.Ok? ==> r.value.stateChanged
    ensures HasFlag(params, MtxProjection(e)) ==>
      r == Ok(rsp.(projection := if HasFlag(params, MtxLoad(e)) then m else Product(rsp.projection, m), stateChanged := true))
    ensures r.Ok? && !HasFlag(params, MtxProjection(e)) ==>
      && r.value.projection == rsp.projection
      && r.value.modelviewIndex == (if HasFlag(params, MtxPush(e)) then rsp.modelviewIndex + 1 else rsp.modelviewIndex)
      && r.value.modelview[r.value.modelviewIndex] == (if HasFlag(params, MtxLoad(e)) then m
                                                       else if HasFlag(params, MtxPush(e)) then Product(m, m)
                                                       else Product(rsp.modelview[rsp.modelviewIndex], m))
      && (forall i :: 0 <= i < NUM_MODELVIEW_MATRICES && i != r.value.modelviewIndex ==> r.value.modelview[i] == rsp.modelview[i])
      && r.value.(modelview := rsp.modelview, modelviewIndex := rsp.modelviewIndex, stateChanged := rsp.stateChanged) == rsp
  {
    if HasFlag(params, MtxProjection(e)) then
      var p := if HasFlag(params, MtxLoad(e)) then m else Product(rsp.projection, m);
      Ok(rsp.(projection := p, stateChanged := true))
    else if HasFlag(params, MtxPush(e)) && rsp.modelviewIndex < NUM_MODELVIEW_MATRICES then
      if rsp.modelviewIndex + 1 >= NUM_MODELVIEW_MATRICES then
        Err(IndexOutOfBounds(rsp.modelviewIndex + 1, NUM_MODELVIEW_MATRICES))
      else
        var idx: StackIndex := rsp.modelviewIndex + 1;
        var pushed := rsp.modelview[idx := m];
        var newTop := if HasFlag(params, MtxLoad(e)) then m else Product(pushed[idx], m);
        Ok(rsp.(modelviewIndex := idx, modelview := pushed[idx := newTop], stateChanged := true))
    else
      var idx := rsp.modelviewIndex;
      var newTop := if HasFlag(params, MtxLoad(e)) then m else Product(rsp.modelview[idx], m);
      Ok(rsp.(modelview := rsp.modelview[idx := newTop], stateChanged := true))
  }

  /** The update as written and the corrected one agree on every projection
      update, every update without a push, and every push that loads below
      the topmost slot. A push that multiplies below the topmost slot agrees
      exactly when the old top already is the new matrix. */
  lemma AsWrittenAgreesOffDefects(rsp: RspState, e: MtxEncoding, params: nat, m: Mat)
    ensures HasFlag(params, MtxProjection(e)) || !HasFlag(params, MtxPush(e))
            || (HasFlag(params, MtxLoad(e)) && rsp.modelviewIndex + 1 < NUM_MODELVIEW_MATRICES) ==>
      ApplyMatrixToAsWritten(rsp, e, params, m) == Ok(ApplyMatrixTo(rsp, e, params, m))
    ensures !HasFlag(params, MtxProjection(e)) && HasFlag(params, MtxPush(e)) && !HasFlag(params, MtxLoad(e))
            && rsp.modelviewIndex + 1 < NUM_MODELVIEW_MATRICES ==>
      (ApplyMatrixToAsWritten(rsp, e, params, m) == Ok(ApplyMatrixTo(rsp, e, params, m)) <==> rsp.modelview[rsp.modelviewIndex] == m)
  {
    if !HasFlag(params, MtxProjection(e)) && HasFlag(params, MtxPush(e)) && rsp.modelviewIndex + 1 < NUM_MODELVIEW_MATRICES {
      var idx := rsp.modelviewIndex + 1;
      var top := rsp.modelview[rsp.modelviewIndex];
      if HasFlag(params, MtxLoad(e)) {
        assert rsp.modelview[idx := m][idx := m] == rsp.modelview[idx := m];
      } else {
        var written := ApplyMatrixToAsWritten(rsp, e, params, m).value;
        var intended := ApplyMatrixTo(rsp, e, params, m);
        assert written.modelview[idx] == Product(m, m) && intended.modelview[idx] == Product(top, m);
        if top == m {
          assert written.modelview == intended.modelview;
        }
      }
    }
  }

  /** `gsp_matrix` with the layout and push evidently intended: resolve the
      segment-relative address, read the 16-word fixed-point matrix there
      and apply it with the corrected update. */
  function GspMatrix(table: SegmentTable, mem: Memory, rsp: RspState, e: MtxEncoding, address: u32, params: nat): (r: Result<RspState>)
    ensures r.Ok? <==> SegmentedAddress(table, address).Ok? && ReadWords(mem, SegmentedAddress(table, address).value, MATRIX_WORDS).Ok?
    ensures r.Ok? ==> r.value == ApplyMatrixTo(rsp, e, params, Fixed(DecodeCells(ReadWords(mem, SegmentedAddress(table, address).value, MATRIX_WORDS).value)))
  {
    var lookup :- SegmentedAddress(table, address);
    var words :- ReadWords(mem, lookup, MATRIX_WORDS);
    Ok(ApplyMatrixTo(rsp, e, params, Fixed(DecodeCells(words))))
  }

  /** Words the loop as written reads: integer words 0 to 7 and fraction
      words 10 and 11. */
  const AS_WRITTEN_MATRIX_WORDS: nat := 12

  /** `gsp_matrix` as written: it reads the integer words and the fraction
      words 10 and 11, and applies the as-written stack update. It fails
      exactly when the address does not resolve, those 12 words are not
      readable, or a modelview push finds the stack at its topmost slot. */
  function GspMatrixAsWritten(table: SegmentTable, mem: Memory, rsp: RspState, e: MtxEncoding, address: u32, params: nat): (r: Result<RspState>)
    ensures r.Ok? <==> SegmentedAddress(table, address).Ok?
                       && ReadWords(mem, SegmentedAddress(table, address).value, AS_WRITTEN_MATRIX_WORDS).Ok?
                       && !PushPastTop(rsp, e, params)
    ensures r.Ok? ==> r == ApplyMatrixToAsWritten(rsp, e, params,
      Fixed(DecodeCellsAsWritten(ReadWords(mem, SegmentedAddress(table, address).value, AS_WRITTEN_MATRIX_WORDS).value)))
  {
    var lookup :- SegmentedAddress(table, address);
    var words :- ReadWords(mem, lookup, AS_WRITTEN_MATRIX_WORDS);
    ApplyMatrixToAsWritten(rsp, e, params, Fixed(DecodeCellsAsWritten(words)))
  }

  /** With the push evidently intended, push-and-multiply keeps the old top
      in its slot and composes it with the new matrix one slot up. */
  lemma PushMultiplyComposesTop(rsp: RspState, e: MtxEncoding, m: Mat)
    requires rsp.modelviewIndex + 1 < NUM_MODELVIEW_MATRICES
    ensures ApplyMatrixTo(rsp, e, MtxPush(e), m).modelviewIndex == rsp.modelviewIndex + 1
    ensures ApplyMatrixTo(rsp, e, MtxPush(e), m).modelview[rsp.modelviewIndex + 1]
         == Product(rsp.modelview[rsp.modelviewIndex], m)
    ensures ApplyMatrixTo(rsp, e, MtxPush(e), m).modelview[rsp.modelviewIndex] == rsp.modelview[rsp.modelviewIndex]
  {
  }

  /** As written, push-and-multiply ignores the old top: the new top is the
      decoded matrix times itself. */
  lemma PushMultiplySquaresDecoded(rsp: RspState, e: MtxEncoding, m: Mat)
    requires rsp.modelviewIndex + 1 < NUM_MODELVIEW_MATRICES
    ensures ApplyMatrixToAsWritten(rsp, e, MtxPush(e), m).Ok?
    ensures ApplyMatrixToAsWritten(rsp, e, MtxPush(e), m).value.modelview[rsp.modelviewIndex + 1] == Product(m, m)
  {
  }

  /** As written, a push on the topmost slot indexes past the stack; with
      the evident intent the push is dropped and the top is updated in place. */
  lemma PushAtTopIsDropped(rsp: RspState, e: MtxEncoding, m: Mat)
    requires rsp.modelviewIndex == NUM_MODELVIEW_MATRICES - 1
    ensures ApplyMatrixToAsWritten(rsp, e, MtxPush(e), m) == Err(IndexOutOfBounds(32, 32))
    ensures ApplyMatrixTo(rsp, e, MtxPush(e), m).modelviewIndex == NUM_MODELVIEW_MATRICES - 1
    ensures ApplyMatrixTo(rsp, e, MtxPush(e), m).modelview[NUM_MODELVIEW_MATRICES - 1]
         == Product(rsp.modelview[NUM_MODELVIEW_MATRICES - 1], m)
  {
  }

  /** `n` successive push-and-multiply updates. */
  function Pushes(rsp: RspState, e: MtxEncoding, m: Mat, n: nat): RspState
    decreases n
  {
    if n == 0 then rsp else Pushes(ApplyMatrixTo(rsp, e, MtxPush(e), m), e, m, n - 1)
  }

  /** The stack index only grows under pushes and saturates at the top
      slot: after `n` pushes it is `min(index + n, 31)`, and the slots at
      and below the starting index are never overwritten. */
  lemma {:induction false} PushesSaturate(rsp: RspState, e: MtxEncoding, m: Mat, n: nat)
    decreases n
    ensures Pushes(rsp, e, m, n).modelviewIndex
         == if rsp.modelviewIndex + n < NUM_MODELVIEW_MATRICES then rsp.modelviewIndex + n else NUM_MODELVIEW_MATRICES - 1
    ensures rsp.modelviewIndex + n < NUM_MODELVIEW_MATRICES ==>
      forall i :: 0 <= i <= rsp.modelviewIndex ==> Pushes(rsp, e, m, n).modelview[i] == rsp.modelview[i]
  {
    if n > 0 {
      var next := ApplyMatrixTo(rsp, e, MtxPush(e), m);
      PushesSaturate(next, e, m, n - 1);
    }
  }

  // ---------------------------------------------------------------------
  // G_VTX

  predicate Lighting(rsp: RspState) {
    rsp.geometryMode & G_LIGHTING != 0
  }

  /** When the per-vertex lighting code cannot fail: with lighting on there
      must be one to three lights (the ambient one included), and a pending
      coefficient refresh reads the matrix below the modelview top. */
  predicate LightingOk(rsp: RspState) {
    Lighting(rsp) ==> 1 <= rsp.numLights <= MAX_LIGHTS + 1 && (rsp.stateChanged ==> rsp.modelviewIndex > 0)
  }

  /** The state effect of lighting one vertex: with lighting on and a
      change pending, the coefficients are recomputed from the matrix below
      the top and the directional lights, and the change is cleared. Zero
      lights or more than three index the light tables out of bounds, as
      does a refresh with the stack at slot 0. */
  function LightingUpdate(rsp: RspState): (r: Result<RspState>)
    ensures r.Ok? <==> LightingOk(rsp)
    ensures r.Ok? ==> r.value.(stateChanged := rsp.stateChanged, coeffs := rsp.coeffs) == rsp
    ensures r.Ok? && Lighting(rsp) ==> !r.value.stateChanged
    ensures !Lighting(rsp) ==> r == Ok(rsp)
    ensures !rsp.stateChanged ==> r.Ok? ==> r.value == rsp
    ensures r.Ok? && Lighting(rsp) && rsp.stateChanged ==>
      r.value.coeffs == DerivedFrom(rsp.modelview[rsp.modelviewIndex - 1], rsp.lights[..rsp.numLights - 1])
  {
    if !Lighting(rsp) then
      Ok(rsp)
    else if rsp.numLights == 0 || rsp.numLights > MAX_LIGHTS + 1 then
      Err(InvalidLightState)
    else if rsp.stateChanged then
      if rsp.modelviewIndex == 0 then
        Err(InvalidLightState)
      else
        Ok(rsp.(coeffs := DerivedFrom(rsp.modelview[rsp.modelviewIndex - 1], rsp.lights[..rsp.numLights - 1]),
                stateChanged := false))
    else
      Ok(rsp)
  }

  /** A refresh happens at most once per command: updating again changes
      nothing. */
  lemma LightingUpdateIdempotent(rsp: RspState)
    requires LightingUpdate(rsp).Ok?
    ensures LightingUpdate(LightingUpdate(rsp).value) == LightingUpdate(rsp)
  {
  }

  /** Vertex `i` of the source array is five readable words at
      `vertices + 24 i`; the last one need not be followed by its padding. */
  predicate VerticesReadable(mem: Memory, vertices: int, count: nat) {
    count == 0 || (0 <= vertices && vertices % 4 == 0 && vertices / 4 + VERTEX_WORDS * (count - 1) + VERTEX_READ_WORDS <= |mem|)
  }

  /** Iterations `i .. count` of the vertex loop. Each reads its vertex,
      indexes the staging table at `dest + i` and runs the lighting update.
      The staged vertex the source computes is a copy that is never stored
      back, so the table itself is left as it was. */
  function VertexLoop(mem: Memory, rsp: RspState, vertices: u32, count: nat, dest: nat, i: nat): (r: Result<RspState>)
    requires i <= count
    decreases count - i
    ensures r.Ok? <==> i == count || (VerticesReadable(mem, vertices + VERTEX_SIZE * i, count - i)
                                      && dest + count <= NUM_STAGING_VERTICES && LightingOk(rsp))
    ensures r.Ok? && i < count ==> r == LightingUpdate(rsp)
    ensures i == count ==> r == Ok(rsp)
  {
    if i == count then
      Ok(rsp)
    else
      var words :- ReadWords(mem, vertices + VERTEX_SIZE * i, VERTEX_READ_WORDS);
      if dest + i >= NUM_STAGING_VERTICES then
        Err(IndexOutOfBounds(dest + i, NUM_STAGING_VERTICES))
      else
        var lit :- LightingUpdate(rsp);
        VertexLoop(mem, lit, vertices, count, dest, i + 1)
  }

  /** `RSP::gsp_vertex`: `count` vertices from byte address `vertices`
      staged from slot `dest`. Its only lasting effect is the lighting
      refresh; it fails when a vertex is unreadable, a slot is past the
      table, or the lighting state is unusable. */
  function GspVertex(mem: Memory, rsp: RspState, vertices: u32, count: nat, dest: nat): (r: Result<RspState>)
    ensures r.Ok? <==> count == 0 || (VerticesReadable(mem, vertices, count)
                                      && dest + count <= NUM_STAGING_VERTICES && LightingOk(rsp))
    ensures r.Ok? ==> r.value.(stateChanged := rsp.stateChanged, coeffs := rsp.coeffs) == rsp
    ensures r.Ok? ==> r.value.vertexTable == rsp.vertexTable
    ensures count == 0 ==> r == Ok(rsp)
    ensures r.Ok? && count > 0 ==> r == LightingUpdate(rsp)
    ensures r.Ok? && !Lighting(rsp) ==> r.value == rsp
  {
    VertexLoop(mem, rsp, vertices, count, dest, 0)
  }

  // ---------------------------------------------------------------------
  // Transform and trivial clip rejection

  /** A column-major 4x4 matrix of reals, as the float matrix is laid out. */
  type RealMat4 = s: seq<real> | |s| == 16 witness seq(16, _ => 0.0)

  const REAL_IDENTITY: RealMat4 := [1.0, 0.0, 0.0, 0.0, 0.0, 1.0, 0.0, 0.0, 0.0, 0.0, 1.0, 0.0, 0.0, 0.0, 0.0, 1.0]

  /** Row `row` of column-major `m` dotted with `(x, y, z, 1)`. */
  function RowDot(m: RealMat4, row: nat, x: int, y: int, z: int): real
    requires row < 4
  {
    m[row] * x as real + m[4 + row] * y as real + m[8 + row] * z as real + m[12 + row]
  }

  /** The clip-space position of a vertex position under `m`. */
  function TransformPosition(m: RealMat4, x: int, y: int, z: int): (p: Vec4)
  {
    Vec4(RowDot(m, 0, x, y, z), RowDot(m, 1, x, y, z), RowDot(m, 2, x, y, z), RowDot(m, 3, x, y, z))
  }

  /** The transform is affine in the position: the identity leaves a vertex
      where it is with `w = 1`, and the zero matrix sends every vertex to
      the origin with `w = 0`. The zero matrix is the value of the
      model-projection matrix: `NewRsp` sets it to `ZeroMat`, and no other
      code assigns it (`RspState.modelProjection` is kept by every update
      in this model), so every vertex the loop transforms lands there. */
  lemma TransformExamples(x: int, y: int, z: int)
    ensures TransformPosition(REAL_IDENTITY, x, y, z) == Vec4(x as real, y as real, z as real, 1.0)
    ensures TransformPosition(seq(16, _ => 0.0), x, y, z) == Vec4(0.0, 0.0, 0.0, 0.0)
    ensures ClipMask(Vec4(0.0, 0.0, 0.0, 0.0)) == 0
  {
  }

  /** The trivial-rejection mask: one bit per clip plane the position is
      outside of (x < -w, x > w, y < -w, y > w, z < -w, z > w). */
  function ClipMask(p: Vec4): (mask: bv8)
    ensures mask < 64
    ensures (mask & 1 != 0 <==> p.x < -p.w) && (mask & 2 != 0 <==> p.x > p.w)
    ensures (mask & 4 != 0 <==> p.y < -p.w) && (mask & 8 != 0 <==> p.y > p.w)
    ensures (mask & 16 != 0 <==> p.z < -p.w) && (mask & 32 != 0 <==> p.z > p.w)
  {
    (if p.x < -p.w then 1 else 0) | (if p.x > p.w then 2 else 0)
    | (if p.y < -p.w then 4 else 0) | (if p.y > p.w then 8 else 0)
    | (if p.z < -p.w then 16 else 0) | (if p.z > p.w then 32 else 0)
  }

  /** A position with non-negative `w` is never outside both planes of one
      axis, and a position inside the view volume gets an empty mask. */
  lemma ClipMaskOppositePlanes(p: Vec4)
    ensures p.w >= 0.0 ==> ClipMask(p) & 3 != 3 && ClipMask(p) & 12 != 12 && ClipMask(p) & 48 != 48
    ensures (-p.w <= p.x <= p.w && -p.w <= p.y <= p.w && -p.w <= p.z <= p.w) <==> ClipMask(p) == 0
  {
  }

  // ---------------------------------------------------------------------
  // G_TRI1

  /** What the triangle command decides about a triangle. `Undetermined`
      stands for a face test that divides by a zero `w`: the source then
      compares IEEE infinities or NaNs, which the model does not interpret. */
  datatype CullDecision = Drawn | Culled | Undetermined

  /** Twice the signed screen-space area of the triangle after the
      perspective divide. */
  function CrossZ(v1: Vec4, v2: Vec4, v3: Vec4): real
    requires v1.w != 0.0 && v2.w != 0.0 && v3.w != 0.0
  {
    (v1.x / v1.w - v2.x / v2.w) * (v3.y / v3.w - v2.y / v2.w)
    - (v1.y / v1.w - v2.y / v2.w) * (v3.x / v3.w - v2.x / v2.w)
  }

  /** The face orientation, negated when an odd number of vertices lie
      behind the eye. */
  function Orientation(v1: Vec4, v2: Vec4, v3: Vec4): real
    requires v1.w != 0.0 && v2.w != 0.0 && v3.w != 0.0
  {
    var behind := ((v1.w < 0.0) != (v2.w < 0.0)) != (v3.w < 0.0);
    if behind then -CrossZ(v1, v2, v3) else CrossZ(v1, v2, v3)
  }

  /** The cull decision of `gsp_triangles`: a triangle all of whose
      vertices are outside one common clip plane is culled; otherwise, with
      a cull mode set, both bits cull everything, front culling culls a
      negative orientation and back culling a positive one. */
  function TriangleDecision(mode: bv32, v1: StagingVertex, v2: StagingVertex, v3: StagingVertex): (d: CullDecision)
    ensures v1.clipRejection & v2.clipRejection & v3.clipRejection != 0 ==> d == Culled
    ensures mode & G_CULL_BOTH == 0 ==> (d == Culled <==> v1.clipRejection & v2.clipRejection & v3.clipRejection != 0)
    ensures mode & G_CULL_BOTH == 0 ==> d != Undetermined
    ensures mode & G_CULL_BOTH == G_CULL_BOTH ==> d == Culled
    ensures d == Undetermined ==> v1.pos.w == 0.0 || v2.pos.w == 0.0 || v3.pos.w == 0.0
    ensures mode & G_CULL_BOTH == G_CULL_FRONT && v1.clipRejection & v2.clipRejection & v3.clipRejection == 0
            && v1.pos.w != 0.0 && v2.pos.w != 0.0 && v3.pos.w != 0.0 ==>
      (d == Culled <==> Orientation(v1.pos, v2.pos, v3.pos) < 0.0)
    ensures mode & G_CULL_BOTH == G_CULL_BACK && v1.clipRejection & v2.clipRejection & v3.clipRejection == 0
            && v1.pos.w != 0.0 && v2.pos.w != 0.0 && v3.pos.w != 0.0 ==>
      (d == Culled <==> Orientation(v1.pos, v2.pos, v3.pos) > 0.0)
  {
    assert G_CULL_FRONT != G_CULL_BOTH && G_CULL_BACK != G_CULL_BOTH && G_CULL_FRONT != G_CULL_BACK;
    if v1.clipRejection & v2.clipRejection & v3.clipRejection != 0 then
      Culled
    else if mode & G_CULL_BOTH == 0 then
      Drawn
    else if mode & G_CULL_BOTH == G_CULL_BOTH then
      Culled
    else if v1.pos.w == 0.0 || v2.pos.w == 0.0 || v3.pos.w == 0.0 then
      Undetermined
    else if mode & G_CULL_BOTH == G_CULL_FRONT then
      if Orientation(v1.pos, v2.pos, v3.pos) < 0.0 then Culled else Drawn
    else
      if Orientation(v1.pos, v2.pos, v3.pos) > 0.0 then Culled else Drawn
  }

  /** Reversing the winding swaps front and back: culling front faces of
      (v1, v2, v3) decides exactly as culling back faces of (v3, v2, v1). */
  lemma {:induction false} WindingSwapsFrontAndBack(v1: StagingVertex, v2: StagingVertex, v3: StagingVertex)
    ensures TriangleDecision(G_CULL_FRONT, v1, v2, v3) == TriangleDecision(G_CULL_BACK, v3, v2, v1)
  {
    assert G_CULL_FRONT & G_CULL_BOTH == G_CULL_FRONT;
    assert G_CULL_BACK & G_CULL_BOTH == G_CULL_BACK;
    assert v1.clipRejection & v2.clipRejection & v3.clipRejection == v3.clipRejection & v2.clipRejection & v1.clipRejection;
    if v1.pos.w != 0.0 && v2.pos.w != 0.0 && v3.pos.w != 0.0 {
      assert CrossZ(v3.pos, v2.pos, v1.pos) == -CrossZ(v1.pos, v2.pos, v3.pos);
    }
  }

  /** The triangle (0, 0), (1, 0), (0, 1) in front of the eye has negative
      orientation: front culling removes it and back culling keeps it; the
      same triangle with one vertex behind the eye flips both answers. */
  lemma OrientationExample()
    ensures TriangleDecision(G_CULL_FRONT, Vert(0.0, 0.0, 1.0), Vert(1.0, 0.0, 1.0), Vert(0.0, 1.0, 1.0)) == Culled
    ensures TriangleDecision(G_CULL_BACK, Vert(0.0, 0.0, 1.0), Vert(1.0, 0.0, 1.0), Vert(0.0, 1.0, 1.0)) == Drawn
    ensures TriangleDecision(G_CULL_FRONT, Vert(0.0, 0.0, -1.0), Vert(1.0, 0.0, 1.0), Vert(0.0, 1.0, 1.0)) == Drawn
    ensures TriangleDecision(G_CULL_BACK, Vert(0.0, 0.0, -1.0), Vert(1.0, 0.0, 1.0), Vert(0.0, 1.0, 1.0)) == Culled
  {
    assert G_CULL_FRONT & G_CULL_BOTH == G_CULL_FRONT;
    assert G_CULL_BACK & G_CULL_BOTH == G_CULL_BACK;
    assert CrossZ(Vec4(0.0, 0.0, 0.0, 1.0), Vec4(1.0, 0.0, 0.0, 1.0), Vec4(0.0, 1.0, 0.0, 1.0)) == -1.0;
    assert CrossZ(Vec4(0.0, 0.0, 0.0, -1.0), Vec4(1.0, 0.0, 0.0, 1.0), Vec4(0.0, 1.0, 0.0, 1.0)) == -1.0;
  }

  function Vert(x: real, y: real, w: real): StagingVertex {
    StagingVertex(Vec4(x * w, y * w, 0.0, w), (0.0, 0.0), [0, 0, 0, 0], 0)
  }

  /** `RSP::gsp_triangles`: looks the three vertices up and decides; the
      RSP state is not changed. A vertex id past the staging table fails. */
  function GspTriangles(rsp: RspState, id1: nat, id2: nat, id3: nat): (r: Result<CullDecision>)
    ensures r.Ok? <==> id1 < NUM_STAGING_VERTICES && id2 < NUM_STAGING_VERTICES && id3 < NUM_STAGING_VERTICES
    ensures r.Ok? ==> r.value == TriangleDecision(rsp.geometryMode, rsp.vertexTable[id1], rsp.vertexTable[id2], rsp.vertexTable[id3])
  {
    if id1 >= NUM_STAGING_VERTICES then Err(IndexOutOfBounds(id1, NUM_STAGING_VERTICES))
    else if id2 >= NUM_STAGING_VERTICES then Err(IndexOutOfBounds(id2, NUM_STAGING_VERTICES))
    else if id3 >= NUM_STAGING_VERTICES then Err(IndexOutOfBounds(id3, NUM_STAGING_VERTICES))
    else Ok(TriangleDecision(rsp.geometryMode, rsp.vertexTable[id1], rsp.vertexTable[id2], rsp.vertexTable[id3]))
  }
}
