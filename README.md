# bee_os framebuffer text console, in Dafny

This project models the text console of the bee_os kernel (`kernel/src/display.rs`) and proves properties of the model.

The console has two layers:

- **`Display`** is a pixel surface over the linear framebuffer that the boot loader hands to the kernel. It offers these operations:
  - pixel addressing (`pixel_pos_to_real`) and single-pixel writes in RGB, BGR or greyscale;
  - `clear` and `draw_rect`, which fill rectangles and check their bounds;
  - `putc`, which draws a glyph shaded by its intensities;
  - `copy_rect`, a raw copy of pixel rows.
- **`TextDisplay`** is a grid of 20-pixel-high character cells on top of that surface. It offers these operations:
  - a cursor in cell coordinates, with wrap-around;
  - new lines and scrolling, which moves the pixel rows of every text line up by one line and clears the last line;
  - `write_text`, which splits its text the way Rust's `str::lines` does.

The files and modules:

- `layout.dfy`, module `Layout`, covers the framebuffer's byte layout:
  - `PixelPosToReal` and its inverse `Decode`;
  - the colour encodings;
  - value-level specifications of the operations, written over `seq<Byte>`: `WritePixel`, `Fill`, `CopyWithin`, `CopyRows` (row-by-row copy) and `MoveRect` (simultaneous copy).
- `glyphs.dfy`, module `Glyphs`, covers what the console uses of the font crate: raster sizes, raster widths, glyph lookup with the `'?'` fallback, and intensity scaling. The font itself is a parameter, not part of the model.
- `framebuffer.dfy`, module `Framebuffer`, holds class `Display` over an `array<Byte>`. Each drawing method is proved to compute the value-level specification.
- `console.dfy`, module `Console`, holds class `TextDisplay`. It also defines, as functions on a `Screen` (bytes plus cursor), what each console operation does. `write_text` is modelled as a sequence of steps (`Event`s), one glyph or line break at a time, taken by `Run`. Each method of the class is proved to compute the corresponding function.

A `panic!` in the source becomes `Fail(fault)` (or `Err(fault)`) with one `Fault` per panic site. `draw_rect`, `putc`, `clear_line` and `move_cursor` check everything before their first write, so when they fail the model shows that nothing changed.

The model follows the code wherever it departs from its description:

- `stride` is a number of pixels per row; the code multiplies it by `bytes_per_pixel`.
- The grid width is `stride / raster_width()`, not `width / raster_width()`.
- `putc` checks bounds with the raster size it is asked for (Size20 from the console), but always draws the Size16 Regular glyph. The check is `>=`, so a glyph that ends exactly at the last pixel row or column is refused. `Console.LastRowRejected` shows the result: when the framebuffer height is a multiple of 20, every character written on the last text row panics.
- `move_cursor` accepts the column `width` and the row `height`. From a cursor on row `height`, `increment_cursor_pos` never scrolls and the cursor keeps moving down out of the grid (`Console.MoveCursorPastGrid`). The cursor stays inside the grid only when it starts there (`Console.RunKeepsCursorInGrid`).

## Model

| member | source | states |
|---|---|---|
| `Layout.PixelPosToReal` | kernel/src/display.rs:87-90 | the first byte of pixel (x, y) lies at or after the start of pixel row y, and for a column below the stride all of the pixel's bytes lie before the start of row y + 1 |
| `Layout.DecodeOffset` | kernel/src/display.rs:87-90 | the byte index of pixel (x, y), channel k, decodes back to exactly (x, y, k), for every x below the stride and k below the bytes per pixel |
| `Layout.OffsetDecode` | kernel/src/display.rs:87-90 | every byte index of the buffer is the index of the pixel and channel it decodes to, so pixel addressing covers every byte exactly once |
| `Layout.Grey` | kernel/src/display.rs:66-69 | the grey level is the channel sum divided by 3, truncated: 3v <= r+g+b < 3v+3 |
| `Layout.Encode` | kernel/src/display.rs:54-69 | a pixel write stores three bytes for RGB and BGR and one byte for greyscale |
| `Layout.EncodeSeen` | kernel/src/display.rs:54-69 | the stored bytes, read in the pixel format's channel order (red first for RGB, blue first for BGR), give back the colour written; a grey pixel reads back as the channel average |
| `Layout.WritePixel` | kernel/src/display.rs:54-69 | a pixel write replaces exactly the bytes from the pixel's first byte, one per stored channel, and keeps every other byte |
| `Layout.FillEffect` | kernel/src/display.rs:117-121 | after a region is painted, each stored channel of each pixel inside it holds that channel of the brush colour's encoding; every other byte is unchanged |
| `Layout.CopyWithin` | kernel/src/display.rs:169 | a memmove: the destination range holds the source range as it was before, and every other byte is unchanged |
| `Layout.CopyRowsUpward` | kernel/src/display.rs:158-171 | copying a rectangle one pixel row after another, top to bottom, gives the same result as moving it all at once, whenever the destination is not below the source |
| `Glyphs.GetRasterHeight` | kernel/src/display.rs:174-181 | each raster size is 16 to 32 pixels high, and only Size16 is 16 |
| `Glyphs.Font.Lookup` | kernel/src/display.rs:140-143 | the raster drawn is the character's own Size16 Regular glyph, or the `'?'` glyph when it has none; either way it has 16 rows of glyph-width intensities |
| `Framebuffer.WriterFor` | kernel/src/display.rs:73-78 | a pixel writer is chosen for every pixel format except an unknown one |
| `Framebuffer.RectCheck` | kernel/src/display.rs:104-115 | a rectangle passes exactly when it is not inverted and its bottom-right corner is within the framebuffer; an inverted x is reported before an inverted y |
| `Framebuffer.GlyphCheck` | kernel/src/display.rs:132-138 | a passing check keeps the whole Size16 glyph strictly inside the framebuffer; a failing one is the glyph-bounds panic |
| `Framebuffer.Display.New` | kernel/src/display.rs:53-85 | construction panics exactly on an unknown pixel format; otherwise it is a new, valid display over the given buffer, framebuffer info and font |
| `Framebuffer.Display.DrawPixel` | kernel/src/display.rs:94-97 | the new buffer is the old one with the colour's encoding written at the pixel's byte index and nothing else changed |
| `Framebuffer.Display.Clear` | kernel/src/display.rs:99-101 | every pixel of the framebuffer is painted in the colour |
| `Framebuffer.Display.DrawRect` | kernel/src/display.rs:103-122 | the outcome is `RectCheck`'s; a pass paints exactly the pixels of the half-open rectangle; a failure changes nothing |
| `Framebuffer.Display.Putc` | kernel/src/display.rs:124-156 | the outcome is `GlyphCheck`'s; a pass paints the glyph's pixels in the colour shaded by each intensity; a failure changes nothing |
| `Framebuffer.Display.CopyWithin` | kernel/src/display.rs:169 | the buffer becomes the memmove of the byte range to the destination index |
| `Framebuffer.Display.CopyRect` | kernel/src/display.rs:161-171 | the buffer becomes the row-by-row copy of the rectangle, and when the destination is not below the source, the rectangle as it was before the copy |
| `Console.IncrementStaysInGrid` | kernel/src/display.rs:230-238 | from a cell of the grid the cursor moves one cell forward in reading order and stays in the grid; wrapping raises the row by exactly one; a scroll brings the cursor back to the last row, one line earlier |
| `Console.NewLineStaysInGrid` | kernel/src/display.rs:240-246 | from a cell of the grid a new line goes to column 0 of the next row, or scrolls and stays on the last row |
| `Console.MoveCursorPastGrid` | kernel/src/display.rs:223-238 | a cursor placed on row `height`, which `move_cursor` accepts, wraps to row `height + 1` without scrolling |
| `Console.AfterIncrement` | kernel/src/display.rs:230-238 | advancing the cursor panics exactly when the grid has width 0, with the remainder-by-zero fault |
| `Console.AfterNewLine` | kernel/src/display.rs:240-246 | a new line never panics |
| `Console.Lines` | kernel/src/display.rs:272 | `str::lines` as `write_text` uses it: the text has lines exactly when it is not empty |
| `Console.LinesHaveNoBreak` | kernel/src/display.rs:272 | no line holds a `'\n'` |
| `Console.LinesJoin` | kernel/src/display.rs:272 | for text without `'\r'`, the lines joined by `'\n'`, plus a `'\n'` when the text ends with one, give the text back: splitting loses only the line breaks |
| `Console.WriteEventsPerCharacter` | kernel/src/display.rs:271-290 | for text without `'\r'`, `write_text` draws one glyph for each character other than `'\n'`, in order, and starts exactly one new line for each `'\n'`, including a final one |
| `Console.LineEventsStep` | kernel/src/display.rs:272-284 | the steps still due from line `i` on are that line's glyphs, then a line break only when another line follows (the `peek`), then the later lines |
| `Console.TextDisplay.WriteLine` | kernel/src/display.rs:274-281 | drawing one line's characters takes the screen to `Run` over that line's glyph steps, and a failure is the first panic of that run; the configuration is unchanged |
| `Console.AfterPutc` | kernel/src/display.rs:275-278 | the glyph step at the cursor cell keeps the cursor and the buffer size; when it fails, it is the glyph-bounds panic |
| `Console.PutcAtCursor` | kernel/src/display.rs:275-278 | the glyph step at the cursor fails exactly when the cursor's cell does not end strictly before the right and bottom edges of the framebuffer |
| `Console.PutcCheckAtCell` | kernel/src/display.rs:274-279 | the glyph check at a cell passes exactly when the cell ends strictly before the right and bottom edges of the framebuffer |
| `Console.LastRowRejected` | kernel/src/display.rs:276-279 | when the framebuffer height is a multiple of 20, a character written on the grid's last row fails the glyph check |
| `Console.ShiftedStep` | kernel/src/display.rs:293-297 | one more `copy_line(k, k - 1)` of the scroll loop moves text line k up one line, on top of the lines already moved |
| `Console.LinesMovedShifted` | kernel/src/display.rs:293-297 | the scroll loop's copies, one after the other, give the closed form `Shifted`: the copied span of every pixel row of lines 1 to m sits one text line higher, and every other byte is unchanged |
| `Console.ScrollMovesLines` | kernel/src/display.rs:292-302 | after a scroll, the copied span of each pixel row of each text line k >= 1 sits in the same pixel row of line k - 1 |
| `Console.ScrollClearsLastLine` | kernel/src/display.rs:292-302 | after a scroll, every stored channel of every pixel of the last text line holds the clear colour |
| `Console.RunKeepsCursorInGrid` | kernel/src/display.rs:271-290 | a cursor that starts in a non-empty grid is still in the grid after any sequence of writes and new lines that does not panic |
| `Console.TextDisplay.New` | kernel/src/display.rs:198-213 | construction panics exactly where `Display::new` does; otherwise it is a new console over a new display of the given buffer, framebuffer info and font, holding the given clear and text colours, with the cursor at (0, 0) and a grid of `stride / raster_width()` by `height / 20` |
| `Console.TextDisplay.FromDisplay` | kernel/src/display.rs:198-213 | the console built on a display is valid, with the cursor at (0, 0) and the given colours |
| `Console.TextDisplay.MoveCursor` | kernel/src/display.rs:223-228 | the move is accepted exactly when column <= width and row <= height; a refused move keeps the cursor |
| `Console.TextDisplay.SetClearColor` | kernel/src/display.rs:248-250 | the clear colour becomes the given colour |
| `Console.TextDisplay.SetTextColor` | kernel/src/display.rs:252-254 | the text colour becomes the given colour |
| `Console.TextDisplay.Clear` | kernel/src/display.rs:256-258 | the whole framebuffer is painted in the clear colour |
| `Console.TextDisplay.ClearLine` | kernel/src/display.rs:260-269 | a line outside the grid panics and changes nothing; otherwise its 20 pixel rows are painted in the clear colour across the framebuffer width |
| `Console.TextDisplay.CopyLine` | kernel/src/display.rs:304-309 | the pixel rows of one text line are copied onto another, `raster_width() * width` pixels wide: to a line below the source one pixel row after the other, and to a line not below the source as a simultaneous move (the two agree there, by `Layout.CopyRowsUpward`) |
| `Console.TextDisplay.ShiftLinesUp` | kernel/src/display.rs:293-297 | the loop of `copy_line(line, line - 1)` leaves the buffer as `Shifted` of the old one: every text line from 1 on moved one line up |
| `Console.TextDisplay.ScrollDown` | kernel/src/display.rs:292-302 | the screen becomes `Scrolled`: every line moved up, the last line cleared, and the cursor one row up unless on row 0; a grid without lines panics |
| `Console.TextDisplay.IncrementCursorPos` | kernel/src/display.rs:230-238 | the screen becomes `AfterIncrement` of the old screen, with the same panic |
| `Console.TextDisplay.CursorNewLine` | kernel/src/display.rs:240-246 | the screen becomes `AfterNewLine` of the old screen |
| `Console.TextDisplay.WriteChar` | kernel/src/display.rs:274-280 | one character of `write_text`: the screen becomes the glyph step of the old screen, with the same panic |
| `Console.TextDisplay.WriteText` | kernel/src/display.rs:271-290 | the screen becomes `Run` of the old screen over the steps of the text, and a panic is the first panic of that run |

## Left out

- The `f32` shading of `putc` is the function `Font.scale`, a parameter of the model. Its rounding is not modelled.
- The font crate (`noto_sans_mono_bitmap`) is the parameter `Font`. `Font.Valid` states what the model relies on: a `'?'` glyph exists, every glyph has 16 rows of the Size16 Regular width, and that width is at least 1 and no wider than any other size.
- What the boot loader guarantees about the framebuffer is assumed, as `Layout.WellFormed`. Hardware access, `fb.info()` and `buffer_mut()` are left out; the buffer is an `array<Byte>`.
- `usize` overflow is not modelled, because all integers are unbounded. This covers `cursor.1 += 1`, `position.0 + width`, `line * 20` and the address arithmetic.
- `Console.TextDisplay.WriteText`: after a panic, only the fault is stated, not the state. The kernel halts on a panic.
- `Console.TextDisplay.WriteChar`: after a panic, only the fault is stated, not the state.
- `Console.TextDisplay.IncrementCursorPos`: after a panic, only the fault is stated. It panics before any change.
- `Console.TextDisplay.ScrollDown`: after a panic, only the fault is stated. In the source, `height - 1` underflows on a grid without lines: in a debug build that panics, and in a release build `clear_line` panics on the wrapped value. Both cases are the fault `LineUnderflow`.
- `Framebuffer.Display.DrawPixel`, `Framebuffer.Display.CopyRect` and `Console.TextDisplay.CopyLine` require the bounds that their `unsafe` contracts leave to the caller. What happens out of bounds is not modelled.
- `Framebuffer.Display.CopyWithin` requires the ranges to fit the buffer. The bounds-check panic of `copy_within` is not modelled, because every caller keeps the ranges in the buffer.
- The order in which pixels are written is modelled only as far as the final bytes depend on it.
- `TEXT_DISPLAY` (the spin mutex and its `OnceCell`), `_print`, `_clearscrn`, the `print!`, `println!` and `clearscrn!` macros, and `impl fmt::Write for TextDisplay` are not part of this model. They only forward to `write_text` and `clear`.
- Interrupts, the GDT, the serial port, the kernel's `main` and the host launcher are not part of this model.
