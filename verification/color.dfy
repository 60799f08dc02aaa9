/** Pixel formats a libretro core may declare, and the colour lookup tables
    that turn 16-bit RGB565 and ARGB1555 pixels into 32-bit ARGB8888 words.
    Pixels and words are bit-vectors, as in the source's `u16` and `u32`. */
module Color {
  import opened Wrappers

  /** `libretro_sys::PixelFormat`. */
  datatype PixelFormat = ARGB1555 | ARGB8888 | RGB565

  /** Bytes one source pixel occupies in the given format. */
  function BytesPerPixel(f: PixelFormat): (n: nat)
    ensures n == 2 <==> f != ARGB8888
    ensures n == 4 <==> f == ARGB8888
  {
    match f
    case ARGB1555 => 2
    case RGB565 => 2
    case ARGB8888 => 4
  }

  // ---------------------------------------------------------------------
  // 32-bit ARGB words
  // ---------------------------------------------------------------------

  function Alpha(w: bv32): bv32 { (w >> 24) & 0xFF }
  function Red(w: bv32): bv32 { (w >> 16) & 0xFF }
  function Green(w: bv32): bv32 { (w >> 8) & 0xFF }
  function Blue(w: bv32): bv32 { w & 0xFF }

  /** The word with the four channels from most to least significant byte. */
  function Pack(a: bv32, r: bv32, g: bv32, b: bv32): (w: bv32)
    requires a < 0x100 && r < 0x100 && g < 0x100 && b < 0x100
    ensures Alpha(w) == a && Red(w) == r && Green(w) == g && Blue(w) == b
  {
    (a << 24) | (r << 16) | (g << 8) | b
  }

  /** Every word is the packing of its own channels. */
  lemma PackUnpack(w: bv32)
    ensures w == Pack(Alpha(w), Red(w), Green(w), Blue(w))
  {
  }

  /** The word's bytes in memory order, least significant first
      (`to_ne_bytes` on a little-endian host). */
  function WordBytes(w: bv32): (bs: seq<bv8>)
    ensures |bs| == 4
    ensures bs[0] as bv32 == Blue(w) && bs[1] as bv32 == Green(w)
    ensures bs[2] as bv32 == Red(w) && bs[3] as bv32 == Alpha(w)
  {
    [(w & 0xFF) as bv8, ((w >> 8) & 0xFF) as bv8, ((w >> 16) & 0xFF) as bv8, ((w >> 24) & 0xFF) as bv8]
  }

  /** The word whose memory bytes, least significant first, are `bs`. */
  function WordOf(bs: seq<bv8>): (w: bv32)
    requires |bs| == 4
    ensures Blue(w) == bs[0] as bv32 && Green(w) == bs[1] as bv32
    ensures Red(w) == bs[2] as bv32 && Alpha(w) == bs[3] as bv32
  {
    (bs[0] as bv32) | ((bs[1] as bv32) << 8) | ((bs[2] as bv32) << 16) | ((bs[3] as bv32) << 24)
  }

  /** Reading back the bytes of a word gives the word. */
  lemma WordBytesRoundTrip(w: bv32)
    ensures WordOf(WordBytes(w)) == w
  {
    PackUnpack(w);
  }

  /** `(first as u16) | ((second as u16) << 8)`: two bytes, low byte first,
      as a 16-bit pixel (held in a 32-bit word below 0x1_0000). */
  function LittleEndian16(lo: bv8, hi: bv8): (p: bv32)
    ensures p < 0x1_0000
    ensures (p & 0xFF) as bv8 == lo && (p >> 8) as bv8 == hi
  {
    (lo as bv32) | ((hi as bv32) << 8)
  }

  // ---------------------------------------------------------------------
  // Channel scaling
  // ---------------------------------------------------------------------

  /** `v` is the 8-bit level nearest to `c / 31` of full scale, halves
      rounded up: `v <= 255 * c / 31 + 1/2 < v + 1`. */
  predicate IsNearestLevel5(v: bv32, c: bv32)
    requires c < 32 && v < 0x100
  {
    62 * v <= 510 * c + 31 < 62 * v + 62
  }

  /** The same for a 6-bit channel: nearest to `c / 63` of full scale. */
  predicate IsNearestLevel6(v: bv32, c: bv32)
    requires c < 64 && v < 0x100
  {
    126 * v <= 510 * c + 63 < 126 * v + 126
  }

  /** `(c * 527 + 23) >> 6`: a 5-bit channel widened to 8 bits, keeping
      the channel as its top five bits. */
  function Scale5(c: bv32): (v: bv32)
    requires c < 32
    ensures v < 0x100 && v >> 3 == c
  {
    (c * 527 + 23) >> 6
  }

  /** The widened 5-bit channel is the nearest 8-bit level. */
  lemma Scale5IsNearest(c: bv32)
    requires c < 32
    ensures IsNearestLevel5(Scale5(c), c)
  {
  }

  /** `(c * 259 + 33) >> 6`: a 6-bit channel widened to 8 bits, keeping
      the channel as its top six bits. */
  function Scale6(c: bv32): (v: bv32)
    requires c < 64
    ensures v < 0x100 && v >> 2 == c
  {
    (c * 259 + 33) >> 6
  }

  /** The widened 6-bit channel is the nearest 8-bit level. */
  lemma Scale6IsNearest(c: bv32)
    requires c < 64
    ensures IsNearestLevel6(Scale6(c), c)
  {
  }

  // ---------------------------------------------------------------------
  // The two tables
  // ---------------------------------------------------------------------

  /** Entries of the RGB565 table: one per 16-bit pixel. */
  const RGB565_TABLE_LEN: bv32 := 0x1_0000
  /** Entries of the ARGB1555 table: half of the 16-bit pixels. */
  const ARGB1555_TABLE_LEN: bv32 := 0x8000

  /** Entry `p` of the RGB565 table: opaque, each channel widened. */
  function Rgb565ToArgb8888(p: bv32): (w: bv32)
    requires p < RGB565_TABLE_LEN
    ensures Alpha(w) == 0xFF
    ensures Red(w) == Scale5(p >> 11)
    ensures Green(w) == Scale6((p >> 5) & 0x3F)
    ensures Blue(w) == Scale5(p & 0x1F)
  {
    var r := Scale5((p >> 11) & 0x1F);
    var g := Scale6((p >> 5) & 0x3F);
    var b := Scale5(p & 0x1F);
    0xFF00_0000 | Pack(0, r, g, b)
  }

  /** Every RGB565 entry holds the nearest 8-bit level of each channel. */
  lemma Rgb565Nearest(p: bv32)
    requires p < RGB565_TABLE_LEN
    ensures var w := Rgb565ToArgb8888(p);
      IsNearestLevel5(Red(w), p >> 11) && IsNearestLevel6(Green(w), (p >> 5) & 0x3F)
      && IsNearestLevel5(Blue(w), p & 0x1F)
  {
    Scale5IsNearest(p >> 11);
    Scale6IsNearest((p >> 5) & 0x3F);
    Scale5IsNearest(p & 0x1F);
  }

  /** Entry `p` of the ARGB1555 table, which is built only for `p` below
      0x8000: bit 15 is then always clear, so the alpha byte is always 0. */
  function Argb1555ToArgb8888(p: bv32): (w: bv32)
    requires p < ARGB1555_TABLE_LEN
    ensures Alpha(w) == 0
    ensures Red(w) == Scale5(p >> 10)
    ensures Green(w) == Scale5((p >> 5) & 0x1F)
    ensures Blue(w) == Scale5(p & 0x1F)
  {
    var a := ((p >> 15) & 0x01) * 255;
    var r := Scale5((p >> 10) & 0x1F);
    var g := Scale5((p >> 5) & 0x1F);
    var b := Scale5(p & 0x1F);
    Pack(a, r, g, b)
  }

  /** Every ARGB1555 entry holds the nearest 8-bit level of each channel. */
  lemma Argb1555Nearest(p: bv32)
    requires p < ARGB1555_TABLE_LEN
    ensures var w := Argb1555ToArgb8888(p);
      IsNearestLevel5(Red(w), p >> 10) && IsNearestLevel5(Green(w), (p >> 5) & 0x1F)
      && IsNearestLevel5(Blue(w), p & 0x1F)
  {
    Scale5IsNearest(p >> 10);
    Scale5IsNearest((p >> 5) & 0x1F);
    Scale5IsNearest(p & 0x1F);
  }

  /** Indexing the ARGB1555 table with a 16-bit pixel; `None` is the panic
      of an index past its 0x8000 entries (a pixel with bit 15 set). */
  function LookupArgb1555(p: bv32): (r: Option<bv32>)
    requires p < RGB565_TABLE_LEN
    ensures r.Some? <==> p < ARGB1555_TABLE_LEN
    ensures r.Some? ==> r.value == Argb1555ToArgb8888(p)
  {
    if p < ARGB1555_TABLE_LEN then Some(Argb1555ToArgb8888(p)) else None
  }

  // ---------------------------------------------------------------------
  // Partners: narrowing back, and the extreme values
  // ---------------------------------------------------------------------

  /** Keeping the top 5, 6 and 5 bits of red, green and blue. */
  function Argb8888ToRgb565(w: bv32): bv32 {
    ((Red(w) >> 3) << 11) | ((Green(w) >> 2) << 5) | (Blue(w) >> 3)
  }

  /** Keeping the top 5 bits of red, green and blue. */
  function Argb8888ToArgb1555(w: bv32): bv32 {
    ((Red(w) >> 3) << 10) | ((Green(w) >> 3) << 5) | (Blue(w) >> 3)
  }

  /** The RGB565 table loses no information: narrowing an entry gives the
      pixel back. */
  lemma Rgb565RoundTrip(p: bv32)
    requires p < RGB565_TABLE_LEN
    ensures Argb8888ToRgb565(Rgb565ToArgb8888(p)) == p
  {
  }

  /** The same round trip for the ARGB1555 table over its whole domain. */
  lemma Argb1555RoundTrip(p: bv32)
    requires p < ARGB1555_TABLE_LEN
    ensures Argb8888ToArgb1555(Argb1555ToArgb8888(p)) == p
  {
  }

  /** Distinct RGB565 pixels have distinct table entries. */
  lemma Rgb565Injective(p: bv32, q: bv32)
    requires p < RGB565_TABLE_LEN && q < RGB565_TABLE_LEN
    requires Rgb565ToArgb8888(p) == Rgb565ToArgb8888(q)
    ensures p == q
  {
    Rgb565RoundTrip(p);
    Rgb565RoundTrip(q);
  }

  /** Black stays black and white stays white; RGB565 entries come out
      opaque, ARGB1555 ones transparent. */
  lemma TableExtremes()
    ensures Rgb565ToArgb8888(0) == 0xFF00_0000
    ensures Rgb565ToArgb8888(0xFFFF) == 0xFFFF_FFFF
    ensures Argb1555ToArgb8888(0) == 0
    ensures Argb1555ToArgb8888(0x7FFF) == 0x00FF_FFFF
  {
  }
}
