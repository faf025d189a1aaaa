/**
 * The glyph source of the console: the `noto_sans_mono_bitmap` crate, which
 * the kernel links in.  Its raster widths and bitmaps are parameters of the
 * model (a `Font` value); only `get_raster_height` (kernel/src/display.rs)
 * is the kernel's own code.
 */
module Glyphs {
  import opened Layout

  datatype FontWeight = Light | Regular | Bold

  datatype RasterHeight = Size16 | Size20 | Size24 | Size32

  /** A glyph bitmap: rows of intensities, 0 (background) to 255 (full colour). */
  type Raster = seq<seq<Byte>>

  /** `get_raster_height`: the pixel height of a raster size.  Every size is at
      least as tall as the 16-row glyph that `putc` actually draws. */
  function GetRasterHeight(height: RasterHeight): (px: nat)
    ensures 16 <= px <= 32
    ensures px == 16 <==> height == Size16
  {
    match height
    case Size16 => 16
    case Size20 => 20
    case Size24 => 24
    case Size32 => 32
  }

  /** Rows the glyphs that `putc` draws have (`RasterHeight::Size16`). */
  const GlyphRows: nat := 16

  /** What the kernel uses of the font crate:
      - `rasterWidth`: `get_raster_width(weight, height)`;
      - `glyph`: `get_raster(c, FontWeight::Regular, RasterHeight::Size16)`, the only glyphs drawn;
      - `scale`: one channel multiplied by `intensity / 255.0` in `f32` and truncated to `u8`. */
  datatype Font = Font(
    rasterWidth: (FontWeight, RasterHeight) -> nat,
    glyph: char -> Option<Raster>,
    scale: (Byte, Byte) -> Byte)
  {
    /** Width of the glyphs drawn (`get_raster_width(Regular, Size16)`). */
    function GlyphWidth(): nat
    {
      rasterWidth(Regular, Size16)
    }

    /** What the crate guarantees: a `'?'` glyph exists, every glyph is
        `GlyphRows` rows of `GlyphWidth()` intensities, the drawn size is the
        narrowest of all sizes and weights, and it is at least one pixel wide. */
    predicate Valid()
    {
      && glyph('?').Some?
      && GlyphWidth() >= 1
      && (forall w, h :: GlyphWidth() <= rasterWidth(w, h))
      && (forall c :: glyph(c).Some? ==> IsRaster(glyph(c).value, GlyphRows, GlyphWidth()))
    }

    /** The raster `putc` draws for `c`: its own glyph, or the `'?'` glyph when it has none. */
    function Lookup(c: char): (r: Raster)
      requires Valid()
      ensures IsRaster(r, GlyphRows, GlyphWidth())
      ensures glyph(c).Some? ==> r == glyph(c).value
      ensures glyph(c).None? ==> r == glyph('?').value
    {
      match glyph(c)
      case Some(r) => r
      case None => glyph('?').value
    }
  }

  predicate IsRaster(r: Raster, rows: nat, cols: nat)
  {
    |r| == rows && forall row :: 0 <= row < |r| ==> |r[row]| == cols
  }
}
