/** Vocabulary shared by every part of the model: the error-carrying result
    type, the errors the source raises as panics, powers of two, the word
    memory that command lists, matrices and vertices are read from, and the
    GBI field extractor. Machine words are integers in [0, 2^32); a bit
    field `(w >> pos) & mask` is written `(w / 2^pos) % 2^width`. */
module Base {

  /** Every way an operation of the model can fail. The source panics (or
      has undefined behaviour) in each of these situations; the model turns
      them into values. */
  datatype Error =
    | UnknownOpcode(opcode: nat)          // no handler registered for the opcode
    | SegmentOutOfRange(segment: nat)     // segment id indexes past the 16-entry table
    | BadRead(address: int)                // a read outside the memory or misaligned
    | IndexOutOfBounds(index: int, length: nat)  // a fixed-size table indexed past its end
    | InvalidLightState                    // lighting with no lights, too many, or no matrix below the top
    | BufferOverrun                        // a texture buffer read or written past its end
    | UnsupportedTlutMode                  // a palette mode other than RGBA16
    | OutOfFuel                            // the interpreter's step bound was reached

  /** A value or the error that prevented computing it; usable with `:-`. */
  datatype Result<+T> = Ok(value: T) | Err(error: Error) {
    predicate IsFailure() {
      Err?
    }

    function PropagateFailure<U>(): Result<U>
      requires Err?
    {
      Err(error)
    }

    function Extract(): T
      requires Ok?
    {
      value
    }
  }

  function Pow2(n: nat): (r: nat)
    ensures r >= 1
  {
    if n == 0 then 1 else 2 * Pow2(n - 1)
  }

  /** The powers of two the GBI fields use. */
  lemma Pow2Values()
    ensures Pow2(0) == 1 && Pow2(1) == 2 && Pow2(7) == 0x80 && Pow2(8) == 0x100
    ensures Pow2(12) == 0x1000 && Pow2(16) == 0x1_0000 && Pow2(24) == 0x100_0000
  {
    assert Pow2(4) == 16;
    assert Pow2(8) == 0x100;
    assert Pow2(12) == 0x1000;
    assert Pow2(16) == 0x1_0000;
    assert Pow2(20) == 0x10_0000;
  }

  const TWO_32: int := 0x1_0000_0000

  /** A 32-bit machine word (`u32`, and `usize` on the 32-bit host modelled). */
  type u32 = x: int | 0 <= x < TWO_32

  /** The memory every address of a command operand points into: 32-bit
      words, addressed by byte. */
  type Memory = seq<u32>

  /** `count` consecutive words starting at byte address `address`. The
      source dereferences raw pointers here; the model fails instead when
      the address is negative, not word aligned, or runs past the end. */
  function ReadWords(mem: Memory, address: int, count: nat): (r: Result<seq<u32>>)
    ensures r.Ok? <==> 0 <= address && address % 4 == 0 && address / 4 + count <= |mem|
    ensures r.Ok? ==> |r.value| == count
    ensures r.Ok? ==> forall i :: 0 <= i < count ==> r.value[i] == mem[address / 4 + i]
  {
    if 0 <= address && address % 4 == 0 && address / 4 + count <= |mem| then
      Ok(mem[address / 4 .. address / 4 + count])
    else
      Err(BadRead(address))
  }

  /** The GBI field extractor `get_c0(w, pos, width)`: `width` bits of `w`
      starting at bit `pos`. Its definition (gbi/utils.rs) is not part of
      this model; this is the standard extractor it is assumed to be. */
  function GetC0(w: u32, pos: nat, width: nat): nat {
    (w / Pow2(pos)) % Pow2(width)
  }

  /** The bit pattern of a 32-bit word, assembled from its four bytes so
      that its value as a number is the word itself. */
  function BitsOf(w: u32): (b: bv32)
    ensures b as int == w
  {
    var q1 := w / 0x100;
    var q2 := q1 / 0x100;
    var q3 := q2 / 0x100;
    ByteDigits(w, q1, q2, q3);
    var b0, b1, b2, b3 := ByteBits(w % 0x100), ByteBits(q1 % 0x100), ByteBits(q2 % 0x100), ByteBits(q3);
    Join16(Join8(b3, b2), Join8(b1, b0))
  }

  /** The bit pattern of a byte value. */
  function ByteBits(n: int): (b: bv8)
    requires 0 <= n < 0x100
    ensures b as int == n
  {
    n as bv8
  }

  /** Two bytes side by side: `hi` above `lo`. */
  function Join8(hi: bv8, lo: bv8): (r: bv16)
    ensures r as int == hi as int * 0x100 + lo as int
  {
    JoinBytes(hi, lo);
    ((hi as bv16) << 8) | (lo as bv16)
  }

  /** Two halves side by side: `hi` above `lo`. */
  function Join16(hi: bv16, lo: bv16): (r: bv32)
    ensures r as int == hi as int * 0x1_0000 + lo as int
  {
    JoinHalves(hi, lo);
    ((hi as bv32) << 16) | (lo as bv32)
  }

  lemma JoinBytes(hi: bv8, lo: bv8)
    ensures (((hi as bv16) << 8) | (lo as bv16)) as int == hi as int * 0x100 + lo as int
  {
  }

  lemma JoinHalves(hi: bv16, lo: bv16)
    ensures (((hi as bv32) << 16) | (lo as bv32)) as int == hi as int * 0x1_0000 + lo as int
  {
  }

  /** A word is its four base-256 digits. */
  lemma ByteDigits(w: u32, q1: int, q2: int, q3: int)
    requires q1 == w / 0x100 && q2 == q1 / 0x100 && q3 == q2 / 0x100
    ensures 0 <= q3 < 0x100
    ensures w == ((q3 * 0x100 + q2 % 0x100) * 0x100 + q1 % 0x100) * 0x100 + w % 0x100
  {
  }

  /** `x & flag != 0` for a single-bit `flag`. */
  predicate HasFlag(x: nat, flag: nat)
    requires flag > 0
  {
    (x / flag) % 2 == 1
  }

  /** Quotient and remainder are determined by the division equation. */
  lemma DivUnique(u: nat, d: nat, q: nat, r: nat)
    requires 0 <= r < d && u == q * d + r
    ensures u / d == q && u % d == r
  {
    var q', r' := u / d, u % d;
    MulMonotone(q + 1, q', d);
    MulMonotone(q' + 1, q, d);
    assert (q + 1) * d == q * d + d && (q' + 1) * d == q' * d + d;
  }

  lemma MulMonotone(a: int, b: int, d: nat)
    ensures a <= b ==> a * d <= b * d
  {
    assert b * d - a * d == (b - a) * d;
  }
}
