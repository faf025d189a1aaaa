/**
 * `Display` of kernel/src/display.rs: a pixel surface over the flat byte
 * buffer of the boot loader's framebuffer.  The pixel write strategy is
 * chosen once, at construction, from the pixel format; the drawing methods
 * are proved against the value-level specifications of module `Layout`.
 *
 * A `panic!` of the source is an `Outcome.Fail`.  Every check of `draw_rect`
 * and `putc` comes before their first write, so a failed call leaves the
 * buffer as it was.
 */
module Framebuffer {
  import opened Layout
  import opened Glyphs

  /** The pixel write strategy `Display::new` selects for a pixel format;
      `None` for a format it panics on. */
  function WriterFor(f: PixelFormat): (w: Option<PixelWriter>)
    ensures w.None? <==> f.Unknown?
  {
    match f
    case Rgb => Some(WriteRgb)
    case Bgr => Some(WriteBgr)
    case U8 => Some(WriteGrey)
    case Unknown(_, _, _) => None
  }

  /** The checks of `draw_rect`, in the order the source makes them.  A rectangle
      passes exactly when it is not inverted and its bottom-right corner lies
      within the framebuffer (an end equal to the width or height is allowed). */
  function RectCheck(info: FrameBufferInfo, topLeft: Point, bottomRight: Point): (r: Outcome)
    ensures r.Pass? <==> topLeft.x <= bottomRight.x <= info.width && topLeft.y <= bottomRight.y <= info.height
    ensures r == Fail(InvertedX) <==> topLeft.x > bottomRight.x
    ensures r == Fail(InvertedY) <==> topLeft.x <= bottomRight.x && topLeft.y > bottomRight.y
  {
    if topLeft.x > bottomRight.x then Fail(InvertedX)
    else if topLeft.y > bottomRight.y then Fail(InvertedY)
    else if Max(topLeft.x, bottomRight.x) > info.width then Fail(XOutOfBounds)
    else if Max(topLeft.y, bottomRight.y) > info.height then Fail(YOutOfBounds)
    else Pass
  }

  function Max(a: nat, b: nat): nat
  {
    if a < b then b else a
  }

  /** The half-open rectangle [topLeft.x, bottomRight.x) x [topLeft.y, bottomRight.y). */
  function RectRegion(topLeft: Point, bottomRight: Point): Region
    requires topLeft.x <= bottomRight.x && topLeft.y <= bottomRight.y
  {
    Region(topLeft, bottomRight.x - topLeft.x, bottomRight.y - topLeft.y)
  }

  /** The check of `putc`: it uses the width and height of the REQUESTED raster
      size, while the glyph drawn is always the Size16 Regular one.  A passing
      check keeps the drawn glyph strictly inside the framebuffer. */
  function GlyphCheck(info: FrameBufferInfo, font: Font, height: RasterHeight, weight: FontWeight, position: Point): (r: Outcome)
    requires font.Valid()
    ensures r.Pass? ==> position.x + font.GlyphWidth() < info.width && position.y + GlyphRows < info.height
    ensures r.Fail? ==> r.fault == GlyphOutOfBounds
  {
    var maxX := position.x + font.rasterWidth(weight, height);
    var maxY := position.y + GetRasterHeight(height);
    if maxX >= info.width || maxY >= info.height then Fail(GlyphOutOfBounds) else Pass
  }

  /** The pixels `putc` paints: the 16-row glyph at `position`. */
  function GlyphRegion(font: Font, position: Point): Region
  {
    Region(position, font.GlyphWidth(), GlyphRows)
  }

  class Display {
    const info: FrameBufferInfo
    /** `draw_pixel_method` */
    const writer: PixelWriter
    /** the font crate the kernel is linked with */
    const font: Font
    /** `fb.buffer_mut()` */
    const buffer: array<Byte>

    ghost predicate Valid()
    {
      && WellFormed(info, buffer.Length)
      && WriterFor(info.pixelFormat) == Some(writer)
      && font.Valid()
    }

    /** `Display::new` for a pixel format it knows. */
    constructor Init(buffer: array<Byte>, info: FrameBufferInfo, font: Font)
      requires WellFormed(info, buffer.Length) && font.Valid() && !info.pixelFormat.Unknown?
      ensures Valid()
      ensures this.buffer == buffer && this.info == info && this.font == font
    {
      this.buffer := buffer;
      this.info := info;
      this.font := font;
      this.writer := WriterFor(info.pixelFormat).value;
    }

    /** `Display::new`: panics on an unknown pixel format. */
    static method New(buffer: array<Byte>, info: FrameBufferInfo, font: Font) returns (r: Result<Display>)
      requires WellFormed(info, buffer.Length) && font.Valid()
      ensures r.Err? <==> info.pixelFormat.Unknown?
      ensures r.Err? ==> r.fault == UnknownPixelFormat
      ensures r.Ok? ==> r.value.Valid() && r.value.buffer == buffer && r.value.info == info && r.value.font == font
      ensures r.Ok? ==> fresh(r.value)
    {
      if info.pixelFormat.Unknown? {
        return Err(UnknownPixelFormat);
      }
      var d := new Display.Init(buffer, info, font);
      return Ok(d);
    }

    /** `draw_pixel`: stores the encoded colour at the first bytes of pixel `p`
        and changes no other byte.  The caller keeps `p` inside the framebuffer. */
    method DrawPixel(color: Color, p: Point)
      requires Valid() && p.x < info.width && p.y < info.height
      modifies buffer
      ensures buffer[..] == WritePixel(old(buffer[..]), PixelPosToReal(info, p), Encode(writer, color))
    {
      var position := PixelPosToReal(info, p);
      PixelInBuffer(info, buffer.Length, p.x, p.y);
      ghost var bytes := Encode(writer, color);
      ghost var expected := WritePixel(buffer[..], position, bytes);
      match writer {
        case WriteRgb =>
          buffer[position] := color.r;
          buffer[position + 1] := color.g;
          buffer[position + 2] := color.b;
        case WriteBgr =>
          buffer[position] := color.b;
          buffer[position + 1] := color.g;
          buffer[position + 2] := color.r;
        case WriteGrey =>
          buffer[position] := Grey(color);
      }
      assert buffer[..] == expected by {
        forall i | 0 <= i < buffer.Length
          ensures buffer[i] == expected[i]
        {
        }
      }
    }

    /** `clear`: paints every pixel of the framebuffer; the rectangle always passes the checks. */
    method Clear(color: Color)
      requires Valid()
      modifies buffer
      ensures buffer[..] == Fill(info, writer, old(buffer[..]), Region(Point(0, 0), info.width, info.height), Solid(color))
    {
      var r := DrawRect(color, Point(0, 0), Point(info.width, info.height));
    }

    /** `draw_rect`: fails, changing nothing, as `RectCheck` says; otherwise
        paints exactly the pixels of the half-open rectangle. */
    method DrawRect(color: Color, topLeft: Point, bottomRight: Point) returns (r: Outcome)
      requires Valid()
      modifies buffer
      ensures r == RectCheck(info, topLeft, bottomRight)
      ensures r.Pass? ==> buffer[..] == Fill(info, writer, old(buffer[..]), RectRegion(topLeft, bottomRight), Solid(color))
      ensures r.Fail? ==> buffer[..] == old(buffer[..])
    {
      r := RectCheck(info, topLeft, bottomRight);
      if r.Fail? {
        return;
      }
      ghost var s := buffer[..];
      ghost var reg := RectRegion(topLeft, bottomRight);
      PaintedNone(info, writer, s, reg, Solid(color));
      for y := topLeft.y to bottomRight.y
        invariant buffer[..] == Painted(info, writer, s, reg, Solid(color), y - topLeft.y, 0)
      {
        for x := topLeft.x to bottomRight.x
          invariant buffer[..] == Painted(info, writer, s, reg, Solid(color), y - topLeft.y, x - topLeft.x)
        {
          ghost var row, col := y - topLeft.y, x - topLeft.x;
          assert reg.origin.x + col == x && reg.origin.y + row == y;
          assert BrushColor(Solid(color), row, col) == color;
          PixelInBuffer(info, buffer.Length, x, y);
          PaintedStep(info, writer, s, reg, Solid(color), row, col);
          DrawPixel(color, Point(x, y));
          assert x + 1 - topLeft.x == col + 1;
        }
        PaintedNextRow(info, writer, s, reg, Solid(color), y - topLeft.y);
      }
    }

    /** `putc`: fails, changing nothing, as `GlyphCheck` says; otherwise paints the
        Size16 Regular glyph of `c` (the `'?'` glyph when `c` has none) at
        `position`, each pixel in `color` shaded by the glyph's intensity there. */
    method Putc(c: char, color: Color, height: RasterHeight, weight: FontWeight, position: Point) returns (r: Outcome)
      requires Valid()
      modifies buffer
      ensures r == GlyphCheck(info, font, height, weight, position)
      ensures r.Pass? ==> buffer[..] == Fill(info, writer, old(buffer[..]), GlyphRegion(font, position),
                                            Shaded(font.Lookup(c), color, font.scale))
      ensures r.Fail? ==> buffer[..] == old(buffer[..])
    {
      r := GlyphCheck(info, font, height, weight, position);
      if r.Fail? {
        return;
      }
      var raster := font.Lookup(c);
      ghost var s := buffer[..];
      ghost var reg := GlyphRegion(font, position);
      ghost var brush := Shaded(raster, color, font.scale);
      PaintedNone(info, writer, s, reg, brush);
      for row := 0 to |raster|
        invariant buffer[..] == Painted(info, writer, s, reg, brush, row, 0)
      {
        for col := 0 to |raster[row]|
          invariant buffer[..] == Painted(info, writer, s, reg, brush, row, col)
        {
          var shaded := Shade(font.scale, color, raster[row][col]);
          assert reg.origin == position;
          assert BrushColor(brush, row, col) == shaded;
          PixelInBuffer(info, buffer.Length, position.x + col, position.y + row);
          PaintedStep(info, writer, s, reg, brush, row, col);
          DrawPixel(shaded, Point(position.x + col, position.y + row));
        }
        PaintedNextRow(info, writer, s, reg, brush, row);
      }
    }

    /** `<[u8]>::copy_within`: memmove of bytes `from..to` to index `dst`. */
    method CopyWithin(from: nat, to: nat, dst: nat)
      requires from <= to <= buffer.Length && dst + (to - from) <= buffer.Length
      modifies buffer
      ensures buffer[..] == Layout.CopyWithin(old(buffer[..]), from, to, dst)
    {
      var chunk := buffer[from..to];
      forall i | 0 <= i < |chunk| {
        buffer[dst + i] := chunk[i];
      }
    }

    /** `copy_rect`: copies the rectangle of `width` by `height` pixels at `src` to
        `dst`, one pixel row after the other.  The caller keeps both rectangles
        within the rows of the framebuffer.  When the destination is not below the
        source, the whole rectangle arrives as it was before the copy. */
    method CopyRect(src: Point, dst: Point, width: nat, height: nat)
      requires Valid() && CopyFits(info, buffer.Length, src, dst, width, height)
      modifies buffer
      ensures buffer[..] == CopyRows(info, old(buffer[..]), src, dst, width, height)
      ensures dst.y <= src.y ==> buffer[..] == MoveRect(info, old(buffer[..]), src, dst, width, height)
    {
      ghost var s := buffer[..];
      for y := 0 to height
        invariant buffer[..] == CopyRows(info, s, src, dst, width, y)
      {
        var srcLineStart := PixelPosToReal(info, Point(src.x, src.y + y));
        var srcLineEnd := PixelPosToReal(info, Point(src.x + width, src.y + y));
        var dstLineStart := PixelPosToReal(info, Point(dst.x, dst.y + y));
        RowCopyBytes(info, buffer[..], src, dst, width, y);
        CopyWithin(srcLineStart, srcLineEnd, dstLineStart);
      }
      if dst.y <= src.y {
        CopyRowsUpward(info, s, src, dst, width, height);
      }
    }
  }
}
