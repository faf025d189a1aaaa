/**
 * Byte layout of the linear framebuffer handed over by the boot loader, and
 * the value-level specifications of what the pixel operations of
 * `kernel/src/display.rs` do to its bytes.
 *
 * A pixel (x, y) starts at byte `stride * bytes_per_pixel * y + x * bytes_per_pixel`
 * (`Display::pixel_pos_to_real`).  Every byte index of the buffer decodes to
 * an `Address`: the pixel row, the pixel column (below `stride`) and the
 * channel (below `bytes_per_pixel`); `PixelPosToReal` and `Decode` are inverse.
 * The specifications of the drawing operations are written over that
 * decoding, one byte at a time.
 */
module Layout {

  /** One byte of the framebuffer (Rust `u8`). */
  newtype Byte = b: int | 0 <= b < 256

  /** (R, G, B) colour. */
  datatype Color = Color(r: Byte, g: Byte, b: Byte)

  /** (x, y) coordinate in pixels or in character cells (Rust `usize`). */
  datatype Point = Point(x: nat, y: nat)

  /** Pixel format reported by the boot loader. */
  datatype PixelFormat = Rgb | Bgr | U8 | Unknown(redPosition: nat, greenPosition: nat, bluePosition: nat)

  /** The loader's description of the framebuffer (`FrameBufferInfo`). */
  datatype FrameBufferInfo = FrameBufferInfo(
    byteLen: nat,
    width: nat,
    height: nat,
    pixelFormat: PixelFormat,
    bytesPerPixel: nat,
    stride: nat)

  /** The per-pixel write strategy chosen once by `Display::new`
      (the closures `draw_pixel_rgb`, `draw_pixel_bgr`, `draw_pixel_grayscale`). */
  datatype PixelWriter = WriteRgb | WriteBgr | WriteGrey

  /** The conditions under which the source panics. */
  datatype Fault =
    | UnknownPixelFormat    // Display::new
    | InvertedX             // draw_rect: top_left.0 > bottom_right.0
    | InvertedY             // draw_rect: top_left.1 > bottom_right.1
    | XOutOfBounds          // draw_rect: an x beyond the framebuffer width
    | YOutOfBounds          // draw_rect: a y beyond the framebuffer height
    | GlyphOutOfBounds      // putc
    | CursorOutOfBounds     // move_cursor
    | LineOutOfRange        // clear_line
    | RemainderByZero       // increment_cursor_pos on a grid of width 0
    | LineUnderflow         // scroll_down on a grid of height 0 (`height - 1`)

  /** The result of an operation that may panic. */
  datatype Outcome = Pass | Fail(fault: Fault)

  /** The result of a constructor that may panic. */
  datatype Result<T> = Ok(value: T) | Err(fault: Fault)

  datatype Option<T> = None | Some(value: T)

  /** What the boot loader guarantees about the framebuffer it hands over:
      `byte_len` is the buffer length, rows of `stride` pixels cover the
      visible `height`, and an RGB or BGR pixel holds at least three bytes. */
  predicate WellFormed(info: FrameBufferInfo, len: nat)
  {
    && info.byteLen == len
    && info.bytesPerPixel >= 1
    && info.stride >= 1
    && info.width <= info.stride
    && RowBytes(info) * info.height <= len
    && (info.pixelFormat.Rgb? || info.pixelFormat.Bgr? ==> info.bytesPerPixel >= 3)
  }

  /** Row pitch in bytes. */
  function RowBytes(info: FrameBufferInfo): nat
  {
    info.stride * info.bytesPerPixel
  }

  /** The byte layout can be decoded: both factors of the row pitch are positive. */
  predicate Decodable(info: FrameBufferInfo)
  {
    info.stride >= 1 && info.bytesPerPixel >= 1
  }

  // ---------------------------------------------------------------------------
  // Arithmetic of the byte layout
  // ---------------------------------------------------------------------------

  lemma MulAtLeast(d: nat, t: int)
    requires t >= 1
    ensures d * t >= d
  {
    assert d * t == d * (t - 1) + d;
  }

  /** Euclidean division is unique: `d * q + r` with `r < d` divides back to `q`, remainder `r`. */
  lemma DivModOfSum(q: nat, r: nat, d: nat)
    requires r < d
    ensures (d * q + r) / d == q && (d * q + r) % d == r
  {
    var n := d * q + r;
    var t := q - n / d;
    assert n == d * (n / d) + n % d;
    assert d * t == n % d - r by {
      assert d * q - d * (n / d) == d * (q - n / d);
    }
    if t >= 1 {
      MulAtLeast(d, t);
    } else if t <= -1 {
      MulAtLeast(d, -t);
    }
  }

  /** A column below `stride` and a channel below `bytes_per_pixel` stay inside one row. */
  lemma WithinRow(info: FrameBufferInfo, x: nat, k: nat)
    requires x < info.stride && k < info.bytesPerPixel
    ensures x * info.bytesPerPixel + k < RowBytes(info)
  {
    MulAtLeast(info.bytesPerPixel, info.stride - x);
    assert info.bytesPerPixel * (info.stride - x) == RowBytes(info) - x * info.bytesPerPixel;
  }

  /** Rows below `last` end at or before the start of row `last`. */
  lemma RowsBelow(info: FrameBufferInfo, y: nat, last: nat)
    requires y < last
    ensures RowBytes(info) * y + RowBytes(info) <= RowBytes(info) * last
  {
    MulAtLeast(RowBytes(info), last - y);
    assert RowBytes(info) * (last - y) == RowBytes(info) * last - RowBytes(info) * y;
  }

  // ---------------------------------------------------------------------------
  // Addresses: which pixel and which channel a byte belongs to
  // ---------------------------------------------------------------------------

  /** A byte of the framebuffer named by its pixel and its channel within the pixel. */
  datatype Address = Address(x: nat, y: nat, channel: nat)

  /** `Display::pixel_pos_to_real`: the index of the first byte of pixel `p`
      (`DecodeOffset` shows that it is the inverse of `Decode`).  The bytes of a
      pixel whose column is below `stride` lie inside the row of its `y`. */
  function PixelPosToReal(info: FrameBufferInfo, p: Point): (i: nat)
    ensures RowBytes(info) * p.y <= i
    ensures p.x < info.stride ==> i + info.bytesPerPixel <= RowBytes(info) * p.y + RowBytes(info)
  {
    if p.x < info.stride && info.bytesPerPixel >= 1 then
      WithinRow(info, p.x, info.bytesPerPixel - 1);
      RowBytes(info) * p.y + p.x * info.bytesPerPixel
    else
      RowBytes(info) * p.y + p.x * info.bytesPerPixel
  }

  /** The byte index of an address. */
  function Offset(info: FrameBufferInfo, a: Address): nat
  {
    PixelPosToReal(info, Point(a.x, a.y)) + a.channel
  }

  /** Pixel row of byte `i`. */
  function ByteRow(info: FrameBufferInfo, i: nat): nat
    requires Decodable(info)
  {
    i / RowBytes(info)
  }

  /** Position of byte `i` within its row. */
  function ByteInRow(info: FrameBufferInfo, i: nat): nat
    requires Decodable(info)
  {
    i % RowBytes(info)
  }

  /** The address of byte `i`. */
  function Decode(info: FrameBufferInfo, i: nat): Address
    requires Decodable(info)
  {
    Address(ByteInRow(info, i) / info.bytesPerPixel, ByteRow(info, i), ByteInRow(info, i) % info.bytesPerPixel)
  }

  /** Every byte index splits into its row and its position in the row. */
  lemma RowSplit(info: FrameBufferInfo, i: nat)
    requires Decodable(info)
    ensures i == RowBytes(info) * ByteRow(info, i) + ByteInRow(info, i)
    ensures ByteInRow(info, i) < RowBytes(info)
  {
  }

  /** Row `y` at position `c < RowBytes` decodes back to `y` and `c`. */
  lemma RowJoin(info: FrameBufferInfo, y: nat, c: nat)
    requires Decodable(info) && c < RowBytes(info)
    ensures ByteRow(info, RowBytes(info) * y + c) == y
    ensures ByteInRow(info, RowBytes(info) * y + c) == c
  {
    DivModOfSum(y, c, RowBytes(info));
  }

  /** Decoding the index of an address gives back the address. */
  lemma DecodeOffset(info: FrameBufferInfo, a: Address)
    requires Decodable(info) && a.x < info.stride && a.channel < info.bytesPerPixel
    ensures Decode(info, Offset(info, a)) == a
  {
    var bpp := info.bytesPerPixel;
    WithinRow(info, a.x, a.channel);
    RowJoin(info, a.y, a.x * bpp + a.channel);
    assert a.x * bpp == bpp * a.x;
    DivModOfSum(a.x, a.channel, bpp);
  }

  /** Every byte index is the index of its own address, and that address
      names a column below the stride and a channel below the pixel size. */
  lemma OffsetDecode(info: FrameBufferInfo, i: nat)
    requires Decodable(info)
    ensures Offset(info, Decode(info, i)) == i
    ensures Decode(info, i).x < info.stride && Decode(info, i).channel < info.bytesPerPixel
  {
    var bpp := info.bytesPerPixel;
    var c := ByteInRow(info, i);
    RowSplit(info, i);
    assert c == bpp * (c / bpp) + c % bpp;
    if c / bpp >= info.stride {
      MulAtLeast(bpp, c / bpp - info.stride + 1);
      assert false;
    }
  }

  /** A pixel inside the framebuffer has all of its bytes inside the buffer. */
  lemma PixelInBuffer(info: FrameBufferInfo, len: nat, x: nat, y: nat)
    requires WellFormed(info, len) && x < info.stride && y < info.height
    ensures PixelPosToReal(info, Point(x, y)) + info.bytesPerPixel <= len
  {
    WithinRow(info, x, info.bytesPerPixel - 1);
    RowsBelow(info, y, info.height);
  }

  // ---------------------------------------------------------------------------
  // Pixel encoding
  // ---------------------------------------------------------------------------

  /** Number of bytes a pixel write touches. */
  function Channels(w: PixelWriter): nat
  {
    if w == WriteGrey then 1 else 3
  }

  /** `draw_pixel_grayscale`: the channel average, computed in `u16` and truncated. */
  function Grey(c: Color): (v: Byte)
    ensures 3 * (v as int) <= c.r as int + c.g as int + c.b as int < 3 * (v as int) + 3
  {
    ((c.r as int + c.g as int + c.b as int) / 3) as Byte
  }

  /** The bytes a pixel write stores, first byte first. */
  function Encode(w: PixelWriter, c: Color): (bytes: seq<Byte>)
    ensures |bytes| == Channels(w)
  {
    match w
    case WriteRgb => [c.r, c.g, c.b]
    case WriteBgr => [c.b, c.g, c.r]
    case WriteGrey => [Grey(c)]
  }

  /** The colour a reader of the pixel format sees in the bytes of one pixel: red
      first for RGB, blue first for BGR, one intensity byte for grey. */
  function Seen(w: PixelWriter, bytes: seq<Byte>): Color
    requires |bytes| == Channels(w)
  {
    match w
    case WriteRgb => Color(bytes[0], bytes[1], bytes[2])
    case WriteBgr => Color(bytes[2], bytes[1], bytes[0])
    case WriteGrey => Color(bytes[0], bytes[0], bytes[0])
  }

  /** The three `draw_pixel` closures store each channel where the pixel format
      expects it: a colour reads back unchanged from an RGB or BGR pixel, and a
      grey pixel reads back as the average. */
  lemma EncodeSeen(w: PixelWriter, c: Color)
    ensures w != WriteGrey ==> Seen(w, Encode(w, c)) == c
    ensures w == WriteGrey ==> Seen(w, Encode(w, c)) == Color(Grey(c), Grey(c), Grey(c))
  {
  }

  /** `s` with `bytes` stored from index `o` on (when they fit; a write that would
      not fit is never made, see `PixelInBuffer`). */
  function WritePixel(s: seq<Byte>, o: nat, bytes: seq<Byte>): (r: seq<Byte>)
    ensures |r| == |s|
    ensures o + |bytes| <= |s| ==>
      forall i :: 0 <= i < |s| ==> r[i] == if o <= i < o + |bytes| then bytes[i - o] else s[i]
  {
    if o + |bytes| <= |s| then s[..o] + bytes + s[o + |bytes|..] else s
  }

  // ---------------------------------------------------------------------------
  // Painting a rectangle of pixels (draw_rect, clear, putc)
  // ---------------------------------------------------------------------------

  /** A rectangle of `cols` by `rows` pixels whose top-left pixel is `origin`. */
  datatype Region = Region(origin: Point, cols: nat, rows: nat)

  /** What colour a painting operation gives the pixel at (`col`, `row`) of its region:
      one colour everywhere (draw_rect), or the colour scaled by the glyph's
      intensity at that pixel (putc; `scale` is the `f32` multiply-and-truncate). */
  datatype Brush =
    | Solid(color: Color)
    | Shaded(raster: seq<seq<Byte>>, color: Color, scale: (Byte, Byte) -> Byte)

  /** The colour `color` shaded by `intensity`, channel by channel. */
  function Shade(scale: (Byte, Byte) -> Byte, color: Color, intensity: Byte): Color
  {
    Color(scale(color.r, intensity), scale(color.g, intensity), scale(color.b, intensity))
  }

  function BrushColor(b: Brush, row: nat, col: nat): Color
  {
    match b
    case Solid(c) => c
    case Shaded(raster, c, scale) =>
      if row < |raster| && col < |raster[row]| then Shade(scale, c, raster[row][col]) else c
  }

  /** Pixel (x, y) lies in the region. */
  predicate InRegion(reg: Region, x: nat, y: nat)
  {
    reg.origin.x <= x < reg.origin.x + reg.cols && reg.origin.y <= y < reg.origin.y + reg.rows
  }

  /** Byte address `a` has been painted once the region is painted row by row,
      left to right, up to (excluding) relative pixel (`doneCol`, `doneRow`). */
  predicate Covered(reg: Region, w: PixelWriter, a: Address, doneRow: nat, doneCol: nat)
  {
    && InRegion(reg, a.x, a.y)
    && a.channel < Channels(w)
    && (a.y - reg.origin.y < doneRow || (a.y - reg.origin.y == doneRow && a.x - reg.origin.x < doneCol))
  }

  /** The buffer `s` after painting the region with `brush` up to relative pixel
      (`doneCol`, `doneRow`) in row-major order. */
  ghost function Painted(info: FrameBufferInfo, w: PixelWriter, s: seq<Byte>, reg: Region, brush: Brush,
                         doneRow: nat, doneCol: nat): seq<Byte>
    requires Decodable(info)
  {
    seq(|s|, i requires 0 <= i < |s| =>
      var a := Decode(info, i);
      if Covered(reg, w, a, doneRow, doneCol)
      then Encode(w, BrushColor(brush, a.y - reg.origin.y, a.x - reg.origin.x))[a.channel]
      else s[i])
  }

  /** The buffer `s` after the whole region is painted. */
  ghost function Fill(info: FrameBufferInfo, w: PixelWriter, s: seq<Byte>, reg: Region, brush: Brush): seq<Byte>
    requires Decodable(info)
  {
    Painted(info, w, s, reg, brush, reg.rows, 0)
  }

  /** Nothing is painted before the first pixel. */
  lemma PaintedNone(info: FrameBufferInfo, w: PixelWriter, s: seq<Byte>, reg: Region, brush: Brush)
    requires Decodable(info)
    ensures Painted(info, w, s, reg, brush, 0, 0) == s
  {
  }

  /** Finishing a row is starting the next one. */
  lemma PaintedNextRow(info: FrameBufferInfo, w: PixelWriter, s: seq<Byte>, reg: Region, brush: Brush, row: nat)
    requires Decodable(info)
    ensures Painted(info, w, s, reg, brush, row, reg.cols) == Painted(info, w, s, reg, brush, row + 1, 0)
  {
  }

  /** Painting one more pixel is one pixel write of the brush colour at that pixel. */
  lemma PaintedStep(info: FrameBufferInfo, w: PixelWriter, s: seq<Byte>, reg: Region, brush: Brush,
                     row: nat, col: nat)
    requires Decodable(info) && Channels(w) <= info.bytesPerPixel
    requires row < reg.rows && col < reg.cols && reg.origin.x + reg.cols <= info.stride
    requires PixelPosToReal(info, Point(reg.origin.x + col, reg.origin.y + row)) + Channels(w) <= |s|
    ensures WritePixel(Painted(info, w, s, reg, brush, row, col),
                       PixelPosToReal(info, Point(reg.origin.x + col, reg.origin.y + row)),
                       Encode(w, BrushColor(brush, row, col)))
            == Painted(info, w, s, reg, brush, row, col + 1)
  {
    var o := PixelPosToReal(info, Point(reg.origin.x + col, reg.origin.y + row));
    var before := Painted(info, w, s, reg, brush, row, col);
    var after := Painted(info, w, s, reg, brush, row, col + 1);
    var written := WritePixel(before, o, Encode(w, BrushColor(brush, row, col)));
    forall i | 0 <= i < |s|
      ensures written[i] == after[i]
    {
      PaintedStepAt(info, w, s, reg, brush, row, col, i);
    }
  }

  /** `PaintedStep` at byte `i`: the byte is in the newly painted pixel exactly
      when the one more pixel changes it. */
  lemma PaintedStepAt(info: FrameBufferInfo, w: PixelWriter, s: seq<Byte>, reg: Region, brush: Brush,
                      row: nat, col: nat, i: nat)
    requires Decodable(info) && Channels(w) <= info.bytesPerPixel
    requires row < reg.rows && col < reg.cols && reg.origin.x + reg.cols <= info.stride
    requires PixelPosToReal(info, Point(reg.origin.x + col, reg.origin.y + row)) + Channels(w) <= |s|
    requires i < |s|
    ensures var o := PixelPosToReal(info, Point(reg.origin.x + col, reg.origin.y + row));
            var bytes := Encode(w, BrushColor(brush, row, col));
            Painted(info, w, s, reg, brush, row, col + 1)[i]
            == if o <= i < o + |bytes| then bytes[i - o] else Painted(info, w, s, reg, brush, row, col)[i]
  {
    var x, y := reg.origin.x + col, reg.origin.y + row;
    var o := PixelPosToReal(info, Point(x, y));
    var a := Decode(info, i);
    OffsetDecode(info, i);
    if o <= i < o + Channels(w) {
      DecodeOffset(info, Address(x, y, i - o));
      assert a == Address(x, y, i - o);
    } else {
      assert a.x != x || a.y != y || a.channel >= Channels(w);
    }
  }

  /** The effect of filling a region, stated on addresses: every channel that
      the writer stores, of every pixel inside the region, holds the brush
      colour's encoding; every other byte (other pixels, and the bytes of a
      pixel beyond the stored channels) keeps its value. */
  lemma FillEffect(info: FrameBufferInfo, w: PixelWriter, s: seq<Byte>, reg: Region, brush: Brush, a: Address)
    requires Decodable(info) && a.x < info.stride && a.channel < info.bytesPerPixel && Offset(info, a) < |s|
    ensures Fill(info, w, s, reg, brush)[Offset(info, a)]
            == if InRegion(reg, a.x, a.y) && a.channel < Channels(w)
               then Encode(w, BrushColor(brush, a.y - reg.origin.y, a.x - reg.origin.x))[a.channel]
               else s[Offset(info, a)]
  {
    DecodeOffset(info, a);
  }

  // ---------------------------------------------------------------------------
  // Copying rows of bytes (copy_rect, copy_within)
  // ---------------------------------------------------------------------------

  /** `<[u8]>::copy_within(from..to, dst)`: memmove of `s[from..to]` to index `dst`. */
  function CopyWithin(s: seq<Byte>, from: nat, to: nat, dst: nat): (r: seq<Byte>)
    requires from <= to <= |s| && dst + (to - from) <= |s|
    ensures |r| == |s|
    ensures forall i :: 0 <= i < |s| ==> r[i] == if dst <= i < dst + (to - from) then s[from + (i - dst)] else s[i]
  {
    s[..dst] + s[from..to] + s[dst + (to - from)..]
  }

  /** The rectangles of `width` by `height` pixels at `src` and `dst` lie within the rows
      of the framebuffer (`copy_rect`'s obligation on its caller). */
  predicate CopyFits(info: FrameBufferInfo, len: nat, src: Point, dst: Point, width: nat, height: nat)
  {
    && src.x + width <= info.stride && dst.x + width <= info.stride
    && src.y + height <= info.height && dst.y + height <= info.height
    && RowBytes(info) * info.height <= len
  }

  /** `copy_rect`: rows 0, 1, ..., `height` - 1 of the rectangle copied one after the other. */
  ghost function CopyRows(info: FrameBufferInfo, s: seq<Byte>, src: Point, dst: Point, width: nat, height: nat): (r: seq<Byte>)
    requires CopyFits(info, |s|, src, dst, width, height)
    ensures |r| == |s|
    decreases height
  {
    if height == 0 then s
    else
      RowCopy(info, CopyRows(info, s, src, dst, width, height - 1), src, dst, width, height - 1)
  }

  /** The bytes of `width` pixels from column `x` of row `y` lie in the buffer. */
  lemma RowSpan(info: FrameBufferInfo, len: nat, x: nat, width: nat, y: nat)
    requires x + width <= info.stride && y < info.height && RowBytes(info) * info.height <= len
    ensures PixelPosToReal(info, Point(x, y)) <= PixelPosToReal(info, Point(x + width, y))
    ensures PixelPosToReal(info, Point(x + width, y)) - PixelPosToReal(info, Point(x, y)) == width * info.bytesPerPixel
    ensures PixelPosToReal(info, Point(x + width, y)) <= len
  {
    var bpp := info.bytesPerPixel;
    assert (x + width) * bpp == x * bpp + width * bpp;
    assert RowBytes(info) - (x + width) * bpp == (info.stride - (x + width)) * bpp;
    RowsBelow(info, y, info.height);
  }

  /** The rectangle at `src` copied to `dst` all at once: each destination byte
      takes the value the corresponding source byte had before the copy. */
  ghost function MoveRect(info: FrameBufferInfo, s: seq<Byte>, src: Point, dst: Point, width: nat, height: nat): seq<Byte>
    requires Decodable(info) && CopyFits(info, |s|, src, dst, width, height)
  {
    var bpp := info.bytesPerPixel;
    seq(|s|, i requires 0 <= i < |s| =>
      var y, c := ByteRow(info, i), ByteInRow(info, i);
      if dst.y <= y < dst.y + height && dst.x * bpp <= c < (dst.x + width) * bpp
      then MovedFrom(info, s, src, dst, width, height, i)
      else s[i])
  }

  /** The byte a destination byte of `MoveRect` is taken from. */
  ghost function MovedFrom(info: FrameBufferInfo, s: seq<Byte>, src: Point, dst: Point, width: nat, height: nat, i: nat): Byte
    requires Decodable(info) && CopyFits(info, |s|, src, dst, width, height)
    requires 0 <= i < |s|
    requires dst.y <= ByteRow(info, i) < dst.y + height
    requires dst.x * info.bytesPerPixel <= ByteInRow(info, i) < (dst.x + width) * info.bytesPerPixel
  {
    var y := ByteRow(info, i) - dst.y;
    var c := ByteInRow(info, i) - dst.x * info.bytesPerPixel;
    assert (dst.x + width) * info.bytesPerPixel == dst.x * info.bytesPerPixel + width * info.bytesPerPixel;
    RowSpan(info, |s|, src.x, width, src.y + y);
    s[PixelPosToReal(info, Point(src.x, src.y + y)) + c]
  }

  /** Byte `c` of the span of `width` pixels from column `x` of row `y` decodes back to row `y`. */
  lemma SpanJoin(info: FrameBufferInfo, len: nat, x: nat, width: nat, y: nat, c: nat)
    requires Decodable(info) && x + width <= info.stride && y < info.height && RowBytes(info) * info.height <= len
    requires c < width * info.bytesPerPixel
    ensures ByteRow(info, PixelPosToReal(info, Point(x, y)) + c) == y
    ensures ByteInRow(info, PixelPosToReal(info, Point(x, y)) + c) == x * info.bytesPerPixel + c
  {
    var bpp := info.bytesPerPixel;
    assert (x + width) * bpp == x * bpp + width * bpp;
    WithinRow(info, x + width - 1, bpp - 1);
    assert (x + width - 1) * bpp == (x + width) * bpp - bpp;
    RowJoin(info, y, x * bpp + c);
  }

  /** Row `y` of the rectangle: `copy_within` of the source row's span onto the destination row's span. */
  ghost function RowCopy(info: FrameBufferInfo, s: seq<Byte>, src: Point, dst: Point, width: nat, y: nat): (r: seq<Byte>)
    requires CopyFits(info, |s|, src, dst, width, y + 1)
    ensures |r| == |s|
  {
    var from := PixelPosToReal(info, Point(src.x, src.y + y));
    var to := PixelPosToReal(info, Point(src.x + width, src.y + y));
    var at := PixelPosToReal(info, Point(dst.x, dst.y + y));
    RowSpan(info, |s|, src.x, width, src.y + y);
    RowSpan(info, |s|, dst.x, width, dst.y + y);
    CopyWithin(s, from, to, at)
  }

  /** `RowCopy` is `copy_within` of the source row's byte span onto the destination row's. */
  lemma RowCopyBytes(info: FrameBufferInfo, s: seq<Byte>, src: Point, dst: Point, width: nat, y: nat)
    requires CopyFits(info, |s|, src, dst, width, y + 1)
    ensures
      var from := PixelPosToReal(info, Point(src.x, src.y + y));
      var to := PixelPosToReal(info, Point(src.x + width, src.y + y));
      var at := PixelPosToReal(info, Point(dst.x, dst.y + y));
      && from <= to <= |s| && at + (to - from) <= |s|
      && RowCopy(info, s, src, dst, width, y) == CopyWithin(s, from, to, at)
  {
    RowSpan(info, |s|, src.x, width, src.y + y);
    RowSpan(info, |s|, dst.x, width, dst.y + y);
  }

  /** A byte inside the destination span of row `h` takes the source byte, which rows 0..`h`-1 did not touch. */
  lemma MoveRectNextRowInSpan(info: FrameBufferInfo, s: seq<Byte>, src: Point, dst: Point, width: nat, h: nat, c: nat)
    requires Decodable(info) && CopyFits(info, |s|, src, dst, width, h + 1)
    requires dst.y <= src.y && c < width * info.bytesPerPixel
    ensures PixelPosToReal(info, Point(dst.x, dst.y + h)) + c < |s|
    ensures RowCopy(info, MoveRect(info, s, src, dst, width, h), src, dst, width, h)[PixelPosToReal(info, Point(dst.x, dst.y + h)) + c]
            == MoveRect(info, s, src, dst, width, h + 1)[PixelPosToReal(info, Point(dst.x, dst.y + h)) + c]
  {
    var prev := MoveRect(info, s, src, dst, width, h);
    assert |prev| == |s|;
    RowCopyInSpan(info, prev, src, dst, width, h, c);
    MoveRectAtSource(info, s, src, dst, width, h, c);
    MoveRectAtDestination(info, s, src, dst, width, h, c);
  }

  /** Byte `c` of the destination span of row `y` takes byte `c` of the source span. */
  lemma RowCopyInSpan(info: FrameBufferInfo, s: seq<Byte>, src: Point, dst: Point, width: nat, y: nat, c: nat)
    requires CopyFits(info, |s|, src, dst, width, y + 1) && c < width * info.bytesPerPixel
    ensures PixelPosToReal(info, Point(dst.x, dst.y + y)) + c < |s|
    ensures PixelPosToReal(info, Point(src.x, src.y + y)) + c < |s|
    ensures RowCopy(info, s, src, dst, width, y)[PixelPosToReal(info, Point(dst.x, dst.y + y)) + c]
            == s[PixelPosToReal(info, Point(src.x, src.y + y)) + c]
  {
    RowCopyBytes(info, s, src, dst, width, y);
    RowSpan(info, |s|, src.x, width, src.y + y);
    RowSpan(info, |s|, dst.x, width, dst.y + y);
  }

  /** Moving rows 0..`h`-1 upward leaves the source span of row `h` as it was. */
  lemma MoveRectAtSource(info: FrameBufferInfo, s: seq<Byte>, src: Point, dst: Point, width: nat, h: nat, c: nat)
    requires Decodable(info) && CopyFits(info, |s|, src, dst, width, h + 1)
    requires dst.y <= src.y && c < width * info.bytesPerPixel
    ensures PixelPosToReal(info, Point(src.x, src.y + h)) + c < |s|
    ensures MoveRect(info, s, src, dst, width, h)[PixelPosToReal(info, Point(src.x, src.y + h)) + c]
            == s[PixelPosToReal(info, Point(src.x, src.y + h)) + c]
  {
    RowSpan(info, |s|, src.x, width, src.y + h);
    SpanJoin(info, |s|, src.x, width, src.y + h, c);
  }

  /** Moving rows 0..`h` puts byte `c` of the source span of row `h` at byte `c`
      of the destination span of row `h`. */
  lemma MoveRectAtDestination(info: FrameBufferInfo, s: seq<Byte>, src: Point, dst: Point, width: nat, h: nat, c: nat)
    requires Decodable(info) && CopyFits(info, |s|, src, dst, width, h + 1)
    requires c < width * info.bytesPerPixel
    ensures PixelPosToReal(info, Point(dst.x, dst.y + h)) + c < |s|
    ensures PixelPosToReal(info, Point(src.x, src.y + h)) + c < |s|
    ensures MoveRect(info, s, src, dst, width, h + 1)[PixelPosToReal(info, Point(dst.x, dst.y + h)) + c]
            == s[PixelPosToReal(info, Point(src.x, src.y + h)) + c]
  {
    var bpp := info.bytesPerPixel;
    var i := PixelPosToReal(info, Point(dst.x, dst.y + h)) + c;
    RowSpan(info, |s|, src.x, width, src.y + h);
    RowSpan(info, |s|, dst.x, width, dst.y + h);
    SpanJoin(info, |s|, dst.x, width, dst.y + h, c);
    assert (dst.x + width) * bpp == dst.x * bpp + width * bpp;
    assert MoveRect(info, s, src, dst, width, h + 1)[i] == MovedFrom(info, s, src, dst, width, h + 1, i);
  }

  /** A byte outside the destination span of row `h` is where rows 0..`h`-1 left it. */
  lemma MoveRectNextRowOutside(info: FrameBufferInfo, s: seq<Byte>, src: Point, dst: Point, width: nat, h: nat, i: nat)
    requires Decodable(info) && CopyFits(info, |s|, src, dst, width, h + 1)
    requires dst.y <= src.y && 0 <= i < |s|
    requires !(PixelPosToReal(info, Point(dst.x, dst.y + h)) <= i < PixelPosToReal(info, Point(dst.x, dst.y + h)) + width * info.bytesPerPixel)
    ensures RowCopy(info, MoveRect(info, s, src, dst, width, h), src, dst, width, h)[i]
            == MoveRect(info, s, src, dst, width, h + 1)[i]
  {
    var prev := MoveRect(info, s, src, dst, width, h);
    assert |prev| == |s|;
    RowCopyOutside(info, prev, src, dst, width, h, i);
    MoveRectOutsideRow(info, s, src, dst, width, h, i);
  }

  /** Copying row `y` changes no byte outside its destination span. */
  lemma RowCopyOutside(info: FrameBufferInfo, s: seq<Byte>, src: Point, dst: Point, width: nat, y: nat, i: nat)
    requires CopyFits(info, |s|, src, dst, width, y + 1) && i < |s|
    requires !(PixelPosToReal(info, Point(dst.x, dst.y + y)) <= i < PixelPosToReal(info, Point(dst.x, dst.y + y)) + width * info.bytesPerPixel)
    ensures RowCopy(info, s, src, dst, width, y)[i] == s[i]
  {
    RowCopyBytes(info, s, src, dst, width, y);
    RowSpan(info, |s|, src.x, width, src.y + y);
  }

  /** A byte outside the destination span of row `h` is the same whether `h` or `h` + 1 rows are moved. */
  lemma MoveRectOutsideRow(info: FrameBufferInfo, s: seq<Byte>, src: Point, dst: Point, width: nat, h: nat, i: nat)
    requires Decodable(info) && CopyFits(info, |s|, src, dst, width, h + 1) && i < |s|
    requires !(PixelPosToReal(info, Point(dst.x, dst.y + h)) <= i < PixelPosToReal(info, Point(dst.x, dst.y + h)) + width * info.bytesPerPixel)
    ensures MoveRect(info, s, src, dst, width, h)[i] == MoveRect(info, s, src, dst, width, h + 1)[i]
  {
    var bpp := info.bytesPerPixel;
    RowSplit(info, i);
    var y, c := ByteRow(info, i), ByteInRow(info, i);
    assert (dst.x + width) * bpp == dst.x * bpp + width * bpp;
    if y == dst.y + h && dst.x * bpp <= c < (dst.x + width) * bpp {
      assert false;
    }
  }

  /** When the destination does not lie below the source (`dst.y <= src.y`), copying
      the rows one after the other reads every source row before overwriting it,
      so `copy_rect` moves the whole rectangle as if at once. */
  lemma {:induction false} CopyRowsUpward(info: FrameBufferInfo, s: seq<Byte>, src: Point, dst: Point, width: nat, height: nat)
    requires Decodable(info) && CopyFits(info, |s|, src, dst, width, height)
    requires dst.y <= src.y
    ensures CopyRows(info, s, src, dst, width, height) == MoveRect(info, s, src, dst, width, height)
    decreases height
  {
    if height == 0 {
      assert MoveRect(info, s, src, dst, width, 0) == s;
    } else {
      var h := height - 1;
      CopyRowsUpward(info, s, src, dst, width, h);
      var prev := MoveRect(info, s, src, dst, width, h);
      var at := PixelPosToReal(info, Point(dst.x, dst.y + h));
      forall i | 0 <= i < |s|
        ensures RowCopy(info, prev, src, dst, width, h)[i] == MoveRect(info, s, src, dst, width, height)[i]
      {
        if at <= i < at + width * info.bytesPerPixel {
          MoveRectNextRowInSpan(info, s, src, dst, width, h, i - at);
        } else {
          MoveRectNextRowOutside(info, s, src, dst, width, h, i);
        }
      }
    }
  }
}
