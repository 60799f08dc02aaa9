/** The per-pixel copy of one frame into the 32-bit ARGB surface: source
    pixels are found by `pitch`, destination pixels are four bytes apart,
    each row stops at the first pixel whose start lies outside either
    buffer, and a read or write past the end of a buffer is a panic. */
module Raster {
  import opened Wrappers
  import opened Color

  /** Everything the copy loop takes besides the two buffers. The pixel
      format and the bytes per source pixel are separate fields: the caller
      keeps them in two places and never checks that they agree. */
  datatype Layout = Layout(format: PixelFormat, bpp: nat, pitch: nat, width: nat, height: nat)

  datatype CopyError =
    | SourceOverrun(needed: nat)   // a source read needs `needed` bytes
    | TableOverrun(pixel: bv32)    // an ARGB1555 pixel with bit 15 set
    | DestOverrun(needed: nat)     // a surface write needs `needed` bytes

  /** Byte offset of pixel (x, y) in the source frame. */
  function SourceIndex(l: Layout, x: nat, y: nat): nat {
    y * l.pitch + x * l.bpp
  }

  /** Byte offset of pixel (x, y) on the surface. */
  function DestIndex(l: Layout, x: nat, y: nat): nat {
    (y * l.width + x) * 4
  }

  /** Pixel (x, y) lies in the frame and both of its start offsets are
      inside their buffers, so the loop converts it. */
  predicate Reached(l: Layout, src: seq<bv8>, dest: seq<bv8>, x: nat, y: nat) {
    x < l.width && y < l.height && SourceIndex(l, x, y) < |src| && DestIndex(l, x, y) < |dest|
  }

  /** The four surface bytes for the source pixel at offset `si`, or the
      panic reading it: two little-endian bytes through a table, or four
      bytes copied as they are. */
  function SourceWord(format: PixelFormat, src: seq<bv8>, si: nat): (r: Result<seq<bv8>, CopyError>)
    requires si < |src|
    ensures r.Ok? ==> |r.value| == 4
    ensures r.Err? && r.error.SourceOverrun? ==> r.error.needed > |src|
  {
    match format
    case RGB565 =>
      if si + 1 >= |src| then Err(SourceOverrun(si + 2))
      else Ok(WordBytes(Rgb565ToArgb8888(LittleEndian16(src[si], src[si + 1]))))
    case ARGB1555 =>
      if si + 1 >= |src| then Err(SourceOverrun(si + 2))
      else
        var p := LittleEndian16(src[si], src[si + 1]);
        (match LookupArgb1555(p)
         case None => Err(TableOverrun(p))
         case Some(w) => Ok(WordBytes(w)))
    case ARGB8888 =>
      if si + 4 > |src| then Err(SourceOverrun(si + 4))
      else Ok(src[si..si + 4])
  }

  /** The copy reads one pixel's worth of bytes: the read succeeds exactly
      when the bytes per pixel of the format fit the source, and for ARGB1555
      the pixel's top bit is clear. */
  lemma SourceWordReadsOnePixel(format: PixelFormat, src: seq<bv8>, si: nat)
    requires si < |src|
    ensures SourceWord(format, src, si).Ok? <==>
      && si + BytesPerPixel(format) <= |src|
      && (format == ARGB1555 && si + 1 < |src| ==> src[si + 1] < 0x80)
  {
  }

  /** The bytes written for a reached pixel, or the panic it causes. */
  function ConvertPixel(l: Layout, src: seq<bv8>, dest: seq<bv8>, x: nat, y: nat): (r: Result<seq<bv8>, CopyError>)
    requires Reached(l, src, dest, x, y)
    ensures r.Ok? ==> |r.value| == 4 && DestIndex(l, x, y) + 4 <= |dest|
  {
    var di := DestIndex(l, x, y);
    match SourceWord(l.format, src, SourceIndex(l, x, y))
    case Err(e) => Err(e)
    case Ok(word) => if di + 4 > |dest| then Err(DestOverrun(di + 4)) else Ok(word)
  }

  /** The surface `out` holds the bytes of reached pixel (x, y). */
  predicate Written(out: seq<bv8>, l: Layout, src: seq<bv8>, dest: seq<bv8>, x: nat, y: nat)
    requires Reached(l, src, dest, x, y)
  {
    var c := ConvertPixel(l, src, dest, x, y);
    c.Ok? && DestIndex(l, x, y) + 4 <= |out| && out[DestIndex(l, x, y)..DestIndex(l, x, y) + 4] == c.value
  }

  /** (xx, yy) comes before (x, y) in row-major order. */
  predicate Before(xx: nat, yy: nat, x: nat, y: nat) {
    yy < y || (yy == y && xx < x)
  }

  /** Surface byte `k` belongs to a reached pixel before (x, y). */
  ghost predicate CoveredBefore(l: Layout, src: seq<bv8>, dest: seq<bv8>, k: nat, x: nat, y: nat) {
    exists xx: nat, yy: nat :: Before(xx, yy, x, y) && Reached(l, src, dest, xx, yy)
      && DestIndex(l, xx, yy) <= k < DestIndex(l, xx, yy) + 4
  }

  /** Surface byte `k` belongs to some reached pixel. */
  ghost predicate Covered(l: Layout, src: seq<bv8>, dest: seq<bv8>, k: nat) {
    CoveredBefore(l, src, dest, k, 0, l.height)
  }

  /** Along a row the source and destination offsets only grow, so once one
      leaves its buffer the rest of the row is not reached either. */
  lemma {:induction false} RowStaysOut(l: Layout, src: seq<bv8>, dest: seq<bv8>, x: nat, xx: nat, y: nat)
    requires x <= xx
    requires SourceIndex(l, x, y) >= |src| || DestIndex(l, x, y) >= |dest|
    ensures !Reached(l, src, dest, xx, y)
  {
    assert x * l.bpp <= xx * l.bpp by {
      var d := xx - x;
      assert xx * l.bpp == x * l.bpp + d * l.bpp;
    }
  }

  /** Pixels of a row-major raster occupy increasing surface offsets. */
  lemma {:induction false} RowMajorOrder(l: Layout, xx: nat, yy: nat, x: nat, y: nat)
    requires xx < l.width && x < l.width
    requires Before(xx, yy, x, y)
    ensures DestIndex(l, xx, yy) + 4 <= DestIndex(l, x, y)
  {
    if yy < y {
      var d := y - yy;
      assert y * l.width == yy * l.width + d * l.width;
      assert d * l.width >= l.width by {
        assert d * l.width == (d - 1) * l.width + l.width;
      }
    }
  }

  /** Reached pixel (x, y) fails and every reached pixel before it converts:
      it is the pixel whose panic ends the copy. */
  ghost predicate FirstFailure(l: Layout, src: seq<bv8>, dest: seq<bv8>, x: nat, y: nat) {
    && Reached(l, src, dest, x, y)
    && ConvertPixel(l, src, dest, x, y).Err?
    && forall xx: nat, yy: nat :: Before(xx, yy, x, y) && Reached(l, src, dest, xx, yy) ==>
         ConvertPixel(l, src, dest, xx, yy).Ok?
  }

  /** The loops of `render_frame` for one frame. `Err` is the panic of the
      first failing pixel in row-major order; `Ok` carries the new surface. */
  method CopyFrame(l: Layout, src: seq<bv8>, dest: seq<bv8>) returns (r: Result<seq<bv8>, CopyError>)
    ensures r.Ok? <==> forall x: nat, y: nat :: Reached(l, src, dest, x, y) ==> ConvertPixel(l, src, dest, x, y).Ok?
    ensures r.Err? ==> exists x: nat, y: nat :: Reached(l, src, dest, x, y) && ConvertPixel(l, src, dest, x, y) == Err(r.error)
    ensures r.Err? ==> exists x: nat, y: nat :: FirstFailure(l, src, dest, x, y) && ConvertPixel(l, src, dest, x, y) == Err(r.error)
    ensures r.Ok? ==> |r.value| == |dest|
    ensures r.Ok? ==> forall x: nat, y: nat :: Reached(l, src, dest, x, y) ==> Written(r.value, l, src, dest, x, y)
    ensures r.Ok? ==> forall k :: 0 <= k < |dest| && !Covered(l, src, dest, k) ==> r.value[k] == dest[k]
  {
    var out := dest;
    var y: nat := 0;
    while y < l.height
      invariant y <= l.height
      invariant |out| == |dest|
      invariant forall xx: nat, yy: nat :: yy < y && Reached(l, src, dest, xx, yy) ==> Written(out, l, src, dest, xx, yy)
      invariant forall k :: 0 <= k < |out| && !CoveredBefore(l, src, dest, k, 0, y) ==> out[k] == dest[k]
    {
      var x: nat := 0;
      while x < l.width
        invariant x <= l.width
        invariant |out| == |dest|
        invariant forall xx: nat, yy: nat :: Before(xx, yy, x, y) && Reached(l, src, dest, xx, yy) ==> Written(out, l, src, dest, xx, yy)
        invariant forall k :: 0 <= k < |out| && !CoveredBefore(l, src, dest, k, x, y) ==> out[k] == dest[k]
      {
        var si := SourceIndex(l, x, y);
        var di := DestIndex(l, x, y);
        if si >= |src| || di >= |dest| {
          forall xx: nat | x <= xx
            ensures !Reached(l, src, dest, xx, y)
          {
            RowStaysOut(l, src, dest, x, xx, y);
          }
          break;
        }
        var c := ConvertPixel(l, src, dest, x, y);
        if c.Err? {
          assert FirstFailure(l, src, dest, x, y);
          return Err(c.error);
        }
        var prev := out;
        out := out[..di] + c.value + out[di + 4..];
        forall xx: nat, yy: nat | Before(xx, yy, x + 1, y) && Reached(l, src, dest, xx, yy)
          ensures Written(out, l, src, dest, xx, yy)
        {
          if Before(xx, yy, x, y) {
            RowMajorOrder(l, xx, yy, x, y);
            assert Written(prev, l, src, dest, xx, yy);
            var dj := DestIndex(l, xx, yy);
            assert out[dj..dj + 4] == prev[dj..dj + 4];
          } else {
            assert xx == x && yy == y;
            assert out[di..di + 4] == c.value;
          }
        }
        forall k | 0 <= k < |out| && !CoveredBefore(l, src, dest, k, x + 1, y)
          ensures out[k] == dest[k]
        {
          assert !(di <= k < di + 4) by {
            assert Before(x, y, x + 1, y);
          }
        }
        x := x + 1;
      }
      assert forall xx: nat, yy: nat :: Before(xx, yy, x, y) ==> Before(xx, yy, 0, y + 1);
      forall k | 0 <= k < |out| && !CoveredBefore(l, src, dest, k, 0, y + 1)
        ensures out[k] == dest[k]
      {
      }
      forall xx: nat, yy: nat | yy < y + 1 && Reached(l, src, dest, xx, yy)
        ensures Written(out, l, src, dest, xx, yy)
      {
        assert Before(xx, yy, x, y) || (yy == y && xx >= x);
      }
      y := y + 1;
    }
    r := Ok(out);
  }

  // ---------------------------------------------------------------------
  // What a copied pixel means, and when the copy cannot panic
  // ---------------------------------------------------------------------

  /** The 16-bit pixel at offset `si`, read low byte first. */
  function SourcePixel16(src: seq<bv8>, si: nat): (p: bv32)
    requires si + 1 < |src|
    ensures p < 0x1_0000
  {
    LittleEndian16(src[si], src[si + 1])
  }

  /** An RGB565 pixel that both buffers hold survives the copy: the copy
      succeeds on it, and narrowing the surface word back to RGB565 gives
      the source pixel. */
  lemma Rgb565PixelRoundTrip(l: Layout, src: seq<bv8>, dest: seq<bv8>, x: nat, y: nat)
    requires l.format == RGB565 && x < l.width && y < l.height
    requires SourceIndex(l, x, y) + 2 <= |src| && DestIndex(l, x, y) + 4 <= |dest|
    ensures Reached(l, src, dest, x, y) && ConvertPixel(l, src, dest, x, y).Ok?
    ensures Argb8888ToRgb565(WordOf(ConvertPixel(l, src, dest, x, y).value)) == SourcePixel16(src, SourceIndex(l, x, y))
  {
    var si := SourceIndex(l, x, y);
    var p := SourcePixel16(src, si);
    WordBytesRoundTrip(Rgb565ToArgb8888(p));
    Rgb565RoundTrip(p);
  }

  /** An ARGB1555 pixel whose top bit is clear survives the copy as far as
      its colour goes. */
  lemma Argb1555PixelRoundTrip(l: Layout, src: seq<bv8>, dest: seq<bv8>, x: nat, y: nat)
    requires l.format == ARGB1555 && x < l.width && y < l.height
    requires SourceIndex(l, x, y) + 2 <= |src| && DestIndex(l, x, y) + 4 <= |dest|
    requires src[SourceIndex(l, x, y) + 1] < 0x80
    ensures Reached(l, src, dest, x, y) && ConvertPixel(l, src, dest, x, y).Ok?
    ensures Argb8888ToArgb1555(WordOf(ConvertPixel(l, src, dest, x, y).value)) == SourcePixel16(src, SourceIndex(l, x, y))
  {
    var si := SourceIndex(l, x, y);
    var p := SourcePixel16(src, si);
    WordBytesRoundTrip(Argb1555ToArgb8888(p));
    Argb1555RoundTrip(p);
  }

  /** A 16-bit ARGB1555 source pixel with its top bit set is an index past
      the table: the copy panics on it. */
  lemma Argb1555TopBitPanics(l: Layout, src: seq<bv8>, dest: seq<bv8>, x: nat, y: nat)
    requires l.format == ARGB1555 && Reached(l, src, dest, x, y)
    requires SourceIndex(l, x, y) + 1 < |src| && src[SourceIndex(l, x, y) + 1] >= 0x80
    ensures ConvertPixel(l, src, dest, x, y) == Err(TableOverrun(SourcePixel16(src, SourceIndex(l, x, y))))
  {
  }

  /** ARGB8888 pixels are copied byte for byte. */
  lemma Argb8888CopiedVerbatim(l: Layout, src: seq<bv8>, dest: seq<bv8>, x: nat, y: nat)
    requires l.format == ARGB8888 && Reached(l, src, dest, x, y)
    requires ConvertPixel(l, src, dest, x, y).Ok?
    ensures SourceIndex(l, x, y) + 4 <= |src|
    ensures ConvertPixel(l, src, dest, x, y).value == src[SourceIndex(l, x, y)..SourceIndex(l, x, y) + 4]
  {
  }

  /** A frame as the core hands it over: the byte count per pixel matches
      the format, rows are `pitch` bytes and hold a full row of pixels, the
      frame is `pitch * height` bytes and the surface `width * height`
      pixels. */
  predicate WellFormed(l: Layout, src: seq<bv8>, dest: seq<bv8>) {
    l.bpp == BytesPerPixel(l.format) && l.width * l.bpp <= l.pitch
    && |src| == l.pitch * l.height && |dest| == l.width * l.height * 4
  }

  /** Row `a` of `n` rows of `b` units ends within the `n * b` units. */
  lemma {:induction false} RowFits(a: nat, b: nat, n: nat)
    requires a < n
    ensures (a + 1) * b <= n * b
  {
    var d := n - (a + 1);
    assert n * b == (a + 1) * b + d * b;
  }

  /** The last source byte of pixel (x, y) lies in a `pitch * height` frame. */
  lemma {:induction false} SourceOffsetFits(pitch: nat, bpp: nat, width: nat, height: nat, x: nat, y: nat)
    requires width * bpp <= pitch && x < width && y < height
    ensures y * pitch + x * bpp + bpp <= pitch * height
  {
    RowFits(x, bpp, width);
    assert x * bpp + bpp == (x + 1) * bpp;
    RowFits(y, pitch, height);
    assert (y + 1) * pitch == y * pitch + pitch;
    assert height * pitch == pitch * height;
  }

  /** The last surface byte of pixel (x, y) lies in a `width * height`
      pixel surface. */
  lemma {:induction false} DestOffsetFits(width: nat, height: nat, x: nat, y: nat)
    requires x < width && y < height
    ensures (y * width + x) * 4 + 4 <= width * height * 4
  {
    RowFits(y, width, height);
    assert (y + 1) * width == y * width + width;
    assert height * width == width * height;
    assert (y * width + x) * 4 + 4 == (y * width + x + 1) * 4;
  }

  /** In a well-formed frame every pixel's source and surface bytes lie
      inside their buffers. */
  lemma {:induction false} WellFormedBounds(l: Layout, src: seq<bv8>, dest: seq<bv8>, x: nat, y: nat)
    requires WellFormed(l, src, dest) && x < l.width && y < l.height
    ensures SourceIndex(l, x, y) + l.bpp <= |src|
    ensures DestIndex(l, x, y) + 4 <= |dest|
  {
    SourceOffsetFits(l.pitch, l.bpp, l.width, l.height, x, y);
    DestOffsetFits(l.width, l.height, x, y);
  }

  /** A well-formed RGB565 or ARGB8888 frame is copied whole: every pixel of
      the frame is reached and converts without a panic. */
  lemma WellFormedFrameCopiesWhole(l: Layout, src: seq<bv8>, dest: seq<bv8>, x: nat, y: nat)
    requires WellFormed(l, src, dest) && l.format != ARGB1555
    requires x < l.width && y < l.height
    ensures Reached(l, src, dest, x, y)
    ensures ConvertPixel(l, src, dest, x, y).Ok?
  {
    WellFormedBounds(l, src, dest, x, y);
  }

  /** The range check looks only at a pixel's first byte: a 16-bit pixel
      whose first byte is the last of the frame is reached, and reading its
      second byte panics. */
  lemma FirstByteCheckLetsOverrunThrough(src: seq<bv8>, dest: seq<bv8>)
    requires |src| == 3 && |dest| == 8
    ensures var l := Layout(RGB565, 2, 3, 2, 1);
      Reached(l, src, dest, 1, 0) && ConvertPixel(l, src, dest, 1, 0) == Err(SourceOverrun(4))
  {
  }

  /** The same for the surface: a pixel whose first surface byte is in range
      but whose last is not panics on the write. */
  lemma SurfaceOverrunOnShortSurface(src: seq<bv8>, dest: seq<bv8>)
    requires |src| == 8 && |dest| == 6
    ensures var l := Layout(ARGB8888, 4, 8, 2, 1);
      Reached(l, src, dest, 1, 0) && ConvertPixel(l, src, dest, 1, 0) == Err(DestOverrun(8))
  {
  }
}
