/** The RDP helper of rdp.rs: `tex_pad_width`, the row padding the texture
    loader skips. It computes the same texel surplus as `padding_for_texture`
    in image.rs but halves it for 4-bit textures with `ursi32`, an
    arithmetic shift, where image.rs uses a logical one. */
module Rdp {
  import opened Base
  import opened Utils
  import opened Image

  /** `tex_pad_width`: zero for a zero line, else the texel surplus
      `(line << (4 - size)) - width` scaled to bytes; for 4-bit textures
      that is half the surplus, rounded toward minus infinity. */
  function TexPadWidth(size: ImageSize, line: u32, width: u32): (pad: i32)
    ensures line == 0 ==> pad == 0
    ensures size != Siz4b ==> pad == PaddingForTexture(size, line, width)
  {
    if line == 0 then 0
    else
      var texels := PadTexels(size, line, width);
      if size == Siz4b then WrapI32(Ursi32(texels, 1))
      else WrapI32(texels * Pow2(SizeValue(size) - 1))
  }

  /** For 4-bit textures the padding is the surplus halved with its sign
      kept: a negative surplus gives a negative padding. */
  lemma FourBitHalves(line: u32, width: u32)
    requires line != 0
    ensures TexPadWidth(Siz4b, line, width) == PadTexels(Siz4b, line, width) / 2
    ensures TexPadWidth(Siz4b, line, width) < 0 <==> PadTexels(Siz4b, line, width) < 0
  {
    SignedHalving(PadTexels(Siz4b, line, width));
  }

  /** `ursi32(x, 1) as i32` is `x` halved toward minus infinity. */
  lemma SignedHalving(x: i32)
    ensures WrapI32(Ursi32(x, 1)) == x / 2
  {
    if x >= 0 {
      NonNegativeHalving(x);
    } else {
      NegativeHalving(x);
    }
  }

  lemma NonNegativeHalving(x: i32)
    requires x >= 0
    ensures WrapI32(Ursi32(x, 1)) == x / 2
  {
    assert Pow2(1) == 2;
    Ursi32NonNegative(x, 1);
    assert Ursi32(x, 1) == ShiftRight(x, 1) == x / 2;
  }

  lemma NegativeHalving(x: i32)
    requires x < 0
    ensures WrapI32(Ursi32(x, 1)) == x / 2
  {
    assert Pow2(1) == 2;
    Ursi32Negative(x, 1);
    NegativeQuotient(x, 2);
    var q := x / 2;
    assert Ursi32(x, 1) == TWO_32 + q;
    assert WrapI32(TWO_32 + q) == q;
  }

  /** The two padding helpers agree on every size but 4-bit; on 4-bit
      textures they agree exactly when the surplus is non-negative, since
      image.rs reads a negative surplus as a large unsigned pattern. */
  lemma PaddingHelpersAgree(size: ImageSize, line: u32, width: u32)
    ensures size != Siz4b || line == 0 ==> TexPadWidth(size, line, width) == PaddingForTexture(size, line, width)
    ensures size == Siz4b && line != 0 ==>
      (TexPadWidth(size, line, width) == PaddingForTexture(size, line, width) <==> PadTexels(size, line, width) >= 0)
  {
    if size == Siz4b && line != 0 {
      var texels := PadTexels(size, line, width);
      FourBitHalves(line, width);
      UshrHalves(texels);
      if texels >= 0 {
        Ursi32NonNegative(texels, 1);
        assert Ushr(texels, 1) == LogicalShift32(texels, 1) == Ursi32(texels, 1);
      } else {
        assert PaddingForTexture(size, line, width) >= 0 > TexPadWidth(size, line, width);
      }
    }
  }

  /** The values asserted by the helper's test. */
  lemma TexPadWidthTestValues()
    ensures TexPadWidth(Siz8b, 8, 32) == 32
    ensures TexPadWidth(Siz8b, 4, 64) == -32
  {
    PaddingTestValues();
  }

  /** A wide 4-bit row, 1 line of 64 bits against 20 texels: the surplus
      is -4, which `tex_pad_width` halves to -2 and `padding_for_texture`
      turns into 2^31 - 2. */
  lemma FourBitHelpersDiffer()
    ensures TexPadWidth(Siz4b, 1, 20) == -2
    ensures PaddingForTexture(Siz4b, 1, 20) == TWO_31 - 2
  {
    PadTexelsSmall(Siz4b, 1, 20);
    FourBitHalves(1, 20);
    PaddingWithoutWrap(Siz4b, 1, 20);
  }
}
