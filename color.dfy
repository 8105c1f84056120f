/**
 * Colour packing shared by both renderers: a 24-bit 0xRRGGBB colour and the
 * 16-bit RGB565 form a 2-byte-per-pixel framebuffer stores.
 */
module Color {

  /** The 8-bit red, green and blue channels of a 0xRRGGBB colour. */
  function Red(c: bv32): bv32 { (c >> 16) & 0xff }
  function Green(c: bv32): bv32 { (c >> 8) & 0xff }
  function Blue(c: bv32): bv32 { c & 0xff }

  /**
   * rgb_888_to_565: the top five bits of red go to bits 15..11, the top six
   * bits of green to bits 10..5 and the top five bits of blue to bits 4..0;
   * the alpha byte and the low bits of each channel are dropped.
   */
  function Rgb888To565(c: bv32): (r: bv16)
    ensures (r >> 11) as bv32 == Red(c) >> 3
    ensures ((r >> 5) & 0x3f) as bv32 == Green(c) >> 2
    ensures (r & 0x1f) as bv32 == Blue(c) >> 3
  {
    ((((c & 0xff0000) >> 8) & 0xf800) |
     (((c & 0x00ff00) >> 5) & 0x07e0) |
     (((c & 0x0000ff) >> 3) & 0x001f)) as bv16
  }

  /**
   * rgb_565_to_888: each channel is moved back to the top of its byte and the
   * low bits are left zero, so packing the result again gives back `c`.
   */
  function Rgb565To888(c: bv16): (r: bv32)
    ensures r < 0x100_0000
    ensures Red(r) & 7 == 0 && Green(r) & 3 == 0 && Blue(r) & 7 == 0
    ensures Red(r) >> 3 == (c >> 11) as bv32
    ensures Green(r) >> 2 == ((c >> 5) & 0x3f) as bv32
    ensures Blue(r) >> 3 == (c & 0x1f) as bv32
  {
    ((c as bv32 & 0x0000f800) << 8) |
    ((c as bv32 & 0x000007e0) << 5) |
    ((c as bv32 & 0x0000001f) << 3)
  }

  /** The alpha byte of a colour has no effect on its 565 value. */
  lemma AlphaIgnored(c: bv32)
    ensures Rgb888To565(c & 0xff_ffff) == Rgb888To565(c)
  {
  }

  /** Packing an unpacked RGB565 colour gives it back. */
  lemma Rgb565RoundTrip(c: bv16)
    ensures Rgb888To565(Rgb565To888(c)) == c
  {
  }
}
