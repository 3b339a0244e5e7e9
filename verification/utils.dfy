/** The shift helpers of utils.rs and the signed-integer vocabulary they
    need. `ursi32`, `ursi16` and `ursi8` round-trip their argument through
    its big-endian bytes and shift the signed value right, then
    reinterpret it as unsigned. Release-build semantics throughout: a shift
    amount is taken modulo the bit width, and casts reinterpret bits. */
module Utils {
  import opened Base

  type u8 = x: int | 0 <= x < 0x100
  type u16 = x: int | 0 <= x < 0x1_0000

  const TWO_31: int := 0x8000_0000
  const TWO_15: int := 0x8000
  const TWO_7: int := 0x80

  type i32 = x: int | -TWO_31 <= x < TWO_31
  type i16 = x: int | -TWO_15 <= x < TWO_15
  type i8 = x: int | -TWO_7 <= x < TWO_7

  /** Reinterprets the low 32 bits of `x` as an `i32` (`as i32`, and the
      result of a wrapping i32 operation). */
  function WrapI32(x: int): (r: i32)
    ensures (r - x) % TWO_32 == 0
    ensures -TWO_31 <= x < TWO_31 ==> r == x
  {
    var m := x % TWO_32;
    if m >= TWO_31 then m - TWO_32 else m
  }

  /** `as u32` of a signed value. */
  function AsU32(x: int): (r: u32)
    ensures 0 <= x < TWO_32 ==> r == x
    ensures -TWO_31 <= x < 0 ==> r == x + TWO_32
  {
    x % TWO_32
  }

  /** `to_be_bytes` of an `i32`: most significant byte first. */
  function BeBytes32(x: i32): (bytes: seq<u8>)
    ensures |bytes| == 4
  {
    var u := AsU32(x);
    [u / 0x100_0000, (u / 0x1_0000) % 0x100, (u / 0x100) % 0x100, u % 0x100]
  }

  /** `i32::from_be_bytes`. */
  function FromBeBytes32(bytes: seq<u8>): i32
    requires |bytes| == 4
  {
    WrapI32(BeValue(bytes))
  }

  /** The unsigned value of four big-endian bytes. */
  function BeValue(bytes: seq<u8>): (v: nat)
    requires |bytes| == 4
    ensures v < TWO_32
  {
    (bytes[0] as int) * 0x100_0000 + (bytes[1] as int) * 0x1_0000 + (bytes[2] as int) * 0x100 + bytes[3] as int
  }

  /** A right shift of a non-negative value never exceeds it. */
  function ShiftRight(u: nat, n: nat): (r: nat)
    ensures r <= u
  {
    var p := Pow2(n);
    DivBound(u, p);
    u / p
  }

  lemma DivBound(u: nat, p: nat)
    requires p >= 1
    ensures 0 <= u / p <= u
  {
    DivUnique(u, p, u / p, u % p);
    MulMonotone(1, p, u / p);
  }

  /** The byte round trip in the helpers is the identity, in both directions. */
  lemma BeBytesRoundTrip(x: i32, bytes: seq<u8>)
    requires |bytes| == 4
    ensures FromBeBytes32(BeBytes32(x)) == x
    ensures BeBytes32(FromBeBytes32(bytes)) == bytes
  {
    var u := AsU32(x);
    BytesOfValue(u);
    assert WrapI32(u) == x;
    var v := BeValue(bytes);
    assert AsU32(WrapI32(v)) == v;
    ValueOfBytes(bytes);
  }

  lemma BytesOfValue(u: u32)
    ensures BeValue([u / 0x100_0000, (u / 0x1_0000) % 0x100, (u / 0x100) % 0x100, u % 0x100]) == u
  {
    var b0, r0 := u / 0x100_0000, u % 0x100_0000;
    var b1, r1 := r0 / 0x1_0000, r0 % 0x1_0000;
    var b2, b3 := r1 / 0x100, r1 % 0x100;
    DivUnique(u, 0x1_0000, b0 * 0x100 + b1, r1);
    DivUnique(b0 * 0x100 + b1, 0x100, b0, b1);
    DivUnique(u, 0x100, b0 * 0x1_0000 + b1 * 0x100 + b2, b3);
    DivUnique(b0 * 0x1_0000 + b1 * 0x100 + b2, 0x100, b0 * 0x100 + b1, b2);
  }

  lemma ValueOfBytes(bytes: seq<u8>)
    requires |bytes| == 4
    ensures var v := BeValue(bytes);
      [v / 0x100_0000, (v / 0x1_0000) % 0x100, (v / 0x100) % 0x100, v % 0x100] == bytes
  {
    var v := BeValue(bytes);
    var low := (bytes[1] as int) * 0x1_0000 + (bytes[2] as int) * 0x100 + bytes[3] as int;
    assert v == (bytes[0] as int) * 0x100_0000 + low;
    assert v / 0x100_0000 == bytes[0];
    assert v / 0x1_0000 == (bytes[0] as int) * 0x100 + bytes[1];
    assert v / 0x100 == (bytes[0] as int) * 0x1_0000 + (bytes[1] as int) * 0x100 + bytes[2];
  }

  /** `ursi32`: the bytes round trip, an arithmetic right shift of the
      signed value, and a reinterpretation as `u32`. */
  function Ursi32(x: i32, n: u32): u32 {
    AsU32(ArithShiftRight(FromBeBytes32(BeBytes32(x)), n % 32))
  }

  /** `>>` on a signed value: the quotient by `2^n` rounded toward minus
      infinity (Dafny's `/` by a positive divisor). */
  function ArithShiftRight(x: int, n: nat): int {
    var p := Pow2(n);
    x / p
  }

  /** `ursi16`, the same at 16 bits. */
  function Ursi16(x: i16, n: u16): u16 {
    var y := x % 0x1_0000;
    var signed := if y >= TWO_15 then y - 0x1_0000 else y;
    (signed / Pow2(n % 16)) % 0x1_0000
  }

  /** `ursi8`, the same at 8 bits. */
  function Ursi8(x: i8, n: u8): u8 {
    var y := x % 0x100;
    var signed := if y >= TWO_7 then y - 0x100 else y;
    (signed / Pow2(n % 8)) % 0x100
  }

  /** The unsigned (logical) right shift the helpers' tests expect. */
  function LogicalShift32(x: i32, n: u32): u32 {
    ShiftRight(AsU32(x), n % 32)
  }

  lemma Pow2Positive(n: nat)
    ensures n >= 1 ==> Pow2(n) >= 2
  {
  }

  /** For a non-negative argument the helper is the plain shift,
      and agrees with the logical shift. */
  lemma Ursi32NonNegative(x: i32, n: u32)
    requires x >= 0 && n < 32
    ensures Ursi32(x, n) == ShiftRight(x, n) == LogicalShift32(x, n)
  {
    BeBytesRoundTrip(x, [0, 0, 0, 0]);
    assert n % 32 == n;
    var q := ShiftRight(x, n);
    assert ArithShiftRight(x, n) == q;
    assert Ursi32(x, n) == AsU32(q);
    assert LogicalShift32(x, n) == q;
  }

  /** For a negative argument the helper keeps the sign: it yields
      `2^32 + floor(x / 2^n)`, at least 2^31, while the logical shift by at
      least one bit yields less than 2^31. The two disagree on every
      negative argument and every shift from 1 to 31. */
  lemma {:induction false} Ursi32Negative(x: i32, n: u32)
    requires x < 0 && 1 <= n < 32
    ensures Ursi32(x, n) == TWO_32 + ArithShiftRight(x, n)
    ensures Ursi32(x, n) >= TWO_31 > LogicalShift32(x, n)
  {
    BeBytesRoundTrip(x, [0, 0, 0, 0]);
    assert n % 32 == n;
    var p := Pow2(n);
    Pow2Positive(n);
    NegativeQuotient(x, p);
    var q := ArithShiftRight(x, n);
    assert q == x / p;
    assert Ursi32(x, n) == AsU32(q) == TWO_32 + q;
    LogicalBound(AsU32(x), p);
    assert LogicalShift32(x, n) == AsU32(x) / p;
  }

  lemma NegativeQuotient(x: int, p: nat)
    requires -TWO_31 <= x < 0 && p >= 1
    ensures -TWO_31 <= x / p < 0
  {
    var q := x / p;
    assert x == q * p + x % p;
    if q < x {
      assert q * p <= q;
    }
  }

  lemma LogicalBound(u: nat, p: nat)
    requires u < TWO_32 && p >= 2
    ensures u / p < TWO_31
  {
    var q := u / p;
    assert u == q * p + u % p;
    assert q * p >= q * 2;
  }

  /** The values the helpers' tests name: 5 and 9 shifted by 2 give 1 and 2
      as the tests expect, but -5 and -9 give 4294967294 and 4294967293,
      not the logical-shift values 1073741822 and 1073741821 the tests
      assert. */
  lemma Ursi32TestValues()
    ensures Ursi32(5, 2) == 1 && Ursi32(9, 2) == 2
    ensures Ursi32(-5, 2) == 4294967294 && Ursi32(-9, 2) == 4294967293
    ensures LogicalShift32(-5, 2) == 1073741822 && LogicalShift32(-9, 2) == 1073741821
  {
    PositiveTestValues();
    NegativeTestValues();
    LogicalTestValues();
  }

  lemma PositiveTestValues()
    ensures Ursi32(5, 2) == 1 && Ursi32(9, 2) == 2
  {
    assert Pow2(2) == 4;
    Ursi32NonNegative(5, 2);
    Ursi32NonNegative(9, 2);
    assert ShiftRight(5, 2) == 5 / 4;
    assert ShiftRight(9, 2) == 9 / 4;
  }

  lemma NegativeTestValues()
    ensures Ursi32(-5, 2) == 4294967294 && Ursi32(-9, 2) == 4294967293
  {
    assert Pow2(2) == 4;
    Ursi32Negative(-5, 2);
    Ursi32Negative(-9, 2);
    assert ArithShiftRight(-5, 2) == -2;
    assert ArithShiftRight(-9, 2) == -3;
  }

  lemma LogicalTestValues()
    ensures LogicalShift32(-5, 2) == 1073741822 && LogicalShift32(-9, 2) == 1073741821
  {
    assert Pow2(2) == 4;
    assert LogicalShift32(-5, 2) == ShiftRight(4294967291, 2) == 4294967291 / 4;
    assert LogicalShift32(-9, 2) == ShiftRight(4294967287, 2) == 4294967287 / 4;
  }

  /** A negative dividend in `[-bound, 0)` keeps its sign and range under
      division rounded toward minus infinity. */
  lemma QuotientKeepsSign(x: int, p: nat, bound: int)
    requires -bound <= x < 0 && p >= 1
    ensures -bound <= x / p < 0
  {
    var q, r := x / p, x % p;
    assert x == q * p + r && 0 <= r < p;
    if q >= 0 {
      MulMonotone(0, q, p);
      assert false;
    }
    if q < x {
      assert (q + 1) * p == q * p + p;
      ScaleNonPositive(q + 1, p);
      assert false;
    }
  }

  lemma ScaleNonPositive(a: int, p: nat)
    requires a <= 0 && p >= 1
    ensures a * p <= a
  {
    MulMonotone(a, 0, p - 1);
    assert a * p == a * (p - 1) + a;
  }

  /** `ursi16` on a non-negative argument is the plain shift by the amount
      modulo 16. */
  lemma Ursi16NonNegative(x: i16, n: u16)
    requires x >= 0
    ensures Ursi16(x, n) == x / Pow2(n % 16)
  {
    DivBound(x, Pow2(n % 16));
  }

  /** `ursi16` on a negative argument keeps the sign: it yields
      `2^16 + floor(x / 2^(n % 16))`, at least 2^15. */
  lemma Ursi16Negative(x: i16, n: u16)
    requires x < 0
    ensures Ursi16(x, n) == 0x1_0000 + x / Pow2(n % 16)
    ensures Ursi16(x, n) >= TWO_15
  {
    assert x % 0x1_0000 == x + 0x1_0000;
    QuotientKeepsSign(x, Pow2(n % 16), TWO_15);
  }

  /** `ursi8` on a non-negative argument is the plain shift by the amount
      modulo 8. */
  lemma Ursi8NonNegative(x: i8, n: u8)
    requires x >= 0
    ensures Ursi8(x, n) == x / Pow2(n % 8)
  {
    DivBound(x, Pow2(n % 8));
  }

  /** `ursi8` on a negative argument keeps the sign: it yields
      `2^8 + floor(x / 2^(n % 8))`, at least 2^7. */
  lemma Ursi8Negative(x: i8, n: u8)
    requires x < 0
    ensures Ursi8(x, n) == 0x100 + x / Pow2(n % 8)
    ensures Ursi8(x, n) >= TWO_7
  {
    assert x % 0x100 == x + 0x100;
    QuotientKeepsSign(x, Pow2(n % 8), TWO_7);
  }

  /** Instances of the 16- and 8-bit helpers: a plain shift for 5, the
      sign kept for -5 and -1, and shift amounts 17 and 9 acting as 1. */
  lemma NarrowHelpers()
    ensures Ursi16(5, 2) == 1 && Ursi16(-5, 2) == 0xFFFE && Ursi16(-1, 17) == 0xFFFF
    ensures Ursi8(5, 2) == 1 && Ursi8(-5, 2) == 0xFE && Ursi8(64, 9) == 32
  {
    Pow2Values();
    assert Pow2(2) == 4;
    assert Ursi16(-5, 2) == (-2) % 0x1_0000;
    assert Ursi16(-1, 17) == (-1) % 0x1_0000;
    assert Ursi8(-5, 2) == (-2) % 0x100;
  }
}
