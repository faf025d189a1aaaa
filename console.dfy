/**
 * `TextDisplay` of kernel/src/display.rs: a grid of character cells over a
 * `Display`.  The cursor is kept in cell coordinates; the grid width is
 * derived from the framebuffer's `stride` (not its `width`) and the grid
 * height from its `height`, with cells of `raster_width()` by
 * `raster_height()` = 20 pixels.
 *
 * The value-level model works on a `Screen` (the framebuffer bytes and the
 * cursor) under a `ConsoleConfig` (what stays fixed while text is written).
 * Every operation is a function from a screen to a `Result<Screen>`, an
 * `Err` for a `panic!`; the methods of class `TextDisplay` are proved to
 * compute exactly these functions.
 */
module Console {
  import opened Layout
  import opened Glyphs
  import opened Framebuffer

  /** `TextDisplay::raster_width()`: `get_raster_width(Regular, Size20)`. */
  function CellWidth(font: Font): nat
  {
    font.rasterWidth(Regular, Size20)
  }

  /** `TextDisplay::raster_height()`: `get_raster_height(Size20)`, 20 pixels. */
  const CellHeight: nat := 20

  /** The state the console works on: framebuffer bytes and cursor (column, row). */
  datatype Screen = Screen(pixels: seq<Byte>, cursor: Point)

  /** What stays fixed while text is written. */
  datatype ConsoleConfig = ConsoleConfig(
    info: FrameBufferInfo,
    writer: PixelWriter,
    font: Font,
    width: nat,
    height: nat,
    clearColor: Color,
    textColor: Color)
  {
    /** The framebuffer is as the loader promises and the grid is derived from it
        as `TextDisplay::new` derives it. */
    predicate Valid(len: nat)
    {
      && WellFormed(info, len)
      && WriterFor(info.pixelFormat) == Some(writer)
      && font.Valid()
      && width == info.stride / CellWidth(font)
      && height == info.height / CellHeight
    }
  }

  /** Bytes of one pixel row that `copy_line` moves: `raster_width() * width` pixels. */
  function LineSpan(con: ConsoleConfig): nat
  {
    CellWidth(con.font) * con.width * con.info.bytesPerPixel
  }

  /** The pixels of text line `n`, across the full framebuffer width (`clear_line`). */
  function LineRegion(con: ConsoleConfig, n: nat): Region
  {
    Region(Point(0, n * CellHeight), con.info.width, CellHeight)
  }

  /** The pixel position of cell `c` (`write_text`). */
  function CellOrigin(con: ConsoleConfig, c: Point): Point
  {
    Point(c.x * CellWidth(con.font), c.y * CellHeight)
  }

  // ---------------------------------------------------------------------------
  // Grid arithmetic
  // ---------------------------------------------------------------------------

  lemma CellWidthPositive(font: Font)
    requires font.Valid()
    ensures CellWidth(font) >= font.GlyphWidth() >= 1
  {
    assert font.GlyphWidth() <= font.rasterWidth(Regular, Size20);
  }

  /** The text columns fit in the stride. */
  lemma LineSpanFits(con: ConsoleConfig, len: nat)
    requires con.Valid(len)
    ensures CellWidth(con.font) * con.width <= con.info.stride
    ensures LineSpan(con) <= RowBytes(con.info)
  {
    var rw := CellWidth(con.font);
    CellWidthPositive(con.font);
    assert con.info.stride == rw * (con.info.stride / rw) + con.info.stride % rw;
    assert LineSpan(con) == (rw * con.width) * con.info.bytesPerPixel;
    MulMonotone(rw * con.width, con.info.stride, con.info.bytesPerPixel);
  }

  lemma MulMonotone(a: nat, b: nat, k: nat)
    requires a <= b
    ensures a * k <= b * k
  {
    assert b * k == a * k + (b - a) * k;
  }

  /** The text lines fit in the framebuffer height. */
  lemma LineFits(con: ConsoleConfig, len: nat, n: nat)
    requires con.Valid(len) && n < con.height
    ensures n * CellHeight + CellHeight <= con.info.height
  {
  }

  // ---------------------------------------------------------------------------
  // Cursor arithmetic
  // ---------------------------------------------------------------------------

  /** A cursor move: the cursor it leaves, and whether `scroll_down` follows. */
  datatype CursorStep = CursorStep(cursor: Point, scroll: bool)

  /** `increment_cursor_pos` up to the call of `scroll_down`; `None` for the
      remainder by a zero grid width, which panics. */
  function IncrementCursor(width: nat, height: nat, c: Point): Option<CursorStep>
  {
    if width == 0 then None
    else
      var x := (c.x + 1) % width;
      if x == 0 then Some(CursorStep(Point(0, c.y + 1), c.y + 1 == height))
      else Some(CursorStep(Point(x, c.y), false))
  }

  /** `cursor_new_line` up to the call of `scroll_down`. */
  function NewLineCursor(height: nat, c: Point): CursorStep
  {
    CursorStep(Point(0, c.y + 1), c.y + 1 == height)
  }

  /** `scroll_down`'s update of the cursor: one row up, unless already on row 0. */
  function ScrollCursor(c: Point): Point
  {
    if c.y != 0 then Point(c.x, c.y - 1) else c
  }

  /** Where a cursor step leaves the cursor once its scroll, if any, is done. */
  function Landing(step: CursorStep): Point
  {
    if step.scroll then ScrollCursor(step.cursor) else step.cursor
  }

  predicate InGrid(width: nat, height: nat, c: Point)
  {
    c.x < width && c.y < height
  }

  /** Position of a cell in reading order. */
  function CellIndex(width: nat, c: Point): int
  {
    c.y * width + c.x
  }

  /** From a cell inside the grid, `increment_cursor_pos` stays inside the grid and
      moves exactly one cell forward in reading order; wrapping raises the row by
      exactly one, and when that row is `height` the scroll brings the cursor
      back to row `height - 1`, one line's worth of cells earlier. */
  lemma IncrementStaysInGrid(width: nat, height: nat, c: Point)
    requires InGrid(width, height, c)
    ensures IncrementCursor(width, height, c).Some?
    ensures var step := IncrementCursor(width, height, c).value;
      && InGrid(width, height, Landing(step))
      && (step.cursor.x == 0 ==> step.cursor.y == c.y + 1)
      && (step.scroll ==> Landing(step).y == height - 1)
      && CellIndex(width, Landing(step)) == CellIndex(width, c) + 1 - (if step.scroll then width else 0)
  {
    if c.x + 1 == width {
      assert (c.x + 1) % width == 0;
    } else {
      assert (c.x + 1) % width == c.x + 1;
    }
  }

  /** From a cell inside the grid, `cursor_new_line` moves to column 0 of the next
      row, or (from the last row) scrolls and stays on the last row. */
  lemma NewLineStaysInGrid(width: nat, height: nat, c: Point)
    requires InGrid(width, height, c)
    ensures var step := NewLineCursor(height, c);
      && InGrid(width, height, Landing(step))
      && Landing(step).x == 0
      && CellIndex(width, Landing(step)) == (c.y + 1) * width - (if step.scroll then width else 0)
  {
  }

  /** `move_cursor` uses non-strict bounds: the cell one past the last row is
      accepted, and from there a wrapping `increment_cursor_pos` never scrolls,
      so the cursor keeps going down, below the grid. */
  lemma MoveCursorPastGrid(width: nat, height: nat)
    requires width >= 1
    ensures var step := IncrementCursor(width, height, Point(width - 1, height)).value;
      && !step.scroll && step.cursor == Point(0, height + 1) && !InGrid(width, height, Landing(step))
  {
    assert (width - 1 + 1) % width == 0;
  }

  // ---------------------------------------------------------------------------
  // Screen operations
  // ---------------------------------------------------------------------------

  /** The bytes after `copy_line(k, k - 1)` for k = 1 .. `moved`: every byte of the
      first `moved` text lines within the copied span holds the byte one text
      line further down. */
  ghost function Shifted(con: ConsoleConfig, s: seq<Byte>, moved: nat): seq<Byte>
    requires Decodable(con.info)
  {
    var down := CellHeight * RowBytes(con.info);
    seq(|s|, i requires 0 <= i < |s| =>
      if ByteRow(con.info, i) < moved * CellHeight && ByteInRow(con.info, i) < LineSpan(con) && i + down < |s|
      then s[i + down]
      else s[i])
  }

  /** The bytes after `scroll_down`: every line moved up by one and the last line
      painted with the clear colour. */
  ghost function ScrolledPixels(con: ConsoleConfig, s: seq<Byte>): seq<Byte>
    requires Decodable(con.info) && con.height >= 1
  {
    Fill(con.info, con.writer, Shifted(con, s, con.height - 1), LineRegion(con, con.height - 1), Solid(con.clearColor))
  }

  /** `scroll_down`; a grid without lines panics on `height - 1`. */
  ghost function Scrolled(con: ConsoleConfig, sc: Screen): (r: Result<Screen>)
    requires Decodable(con.info)
    ensures r.Ok? ==> |r.value.pixels| == |sc.pixels|
  {
    if con.height == 0 then Err(LineUnderflow)
    else Ok(Screen(ScrolledPixels(con, sc.pixels), ScrollCursor(sc.cursor)))
  }

  /** A cursor step followed by its scroll, if any. */
  ghost function AfterStep(con: ConsoleConfig, sc: Screen, step: CursorStep): (r: Result<Screen>)
    requires Decodable(con.info)
    ensures r.Ok? ==> |r.value.pixels| == |sc.pixels|
  {
    if step.scroll then Scrolled(con, Screen(sc.pixels, step.cursor))
    else Ok(Screen(sc.pixels, step.cursor))
  }

  /** `increment_cursor_pos`.  It panics only on the remainder by a zero grid
      width: it scrolls only when the grid has the row it just left. */
  ghost function AfterIncrement(con: ConsoleConfig, sc: Screen): (r: Result<Screen>)
    requires Decodable(con.info)
    ensures r.Ok? ==> |r.value.pixels| == |sc.pixels|
    ensures r.Err? <==> con.width == 0
    ensures r.Err? ==> r.fault == RemainderByZero
  {
    match IncrementCursor(con.width, con.height, sc.cursor)
    case None => Err(RemainderByZero)
    case Some(step) => AfterStep(con, sc, step)
  }

  /** `cursor_new_line`.  It never panics: it scrolls only when the grid has the
      row it just left. */
  ghost function AfterNewLine(con: ConsoleConfig, sc: Screen): (r: Result<Screen>)
    requires Decodable(con.info)
    ensures r.Ok? && |r.value.pixels| == |sc.pixels|
  {
    AfterStep(con, sc, NewLineCursor(con.height, sc.cursor))
  }

  /** `putc` of `c` in the text colour at the cursor's cell, with the Size20 Regular bounds check. */
  ghost function AfterPutc(con: ConsoleConfig, sc: Screen, c: char): (r: Result<Screen>)
    requires Decodable(con.info) && con.font.Valid()
    ensures r.Err? ==> r.fault == GlyphOutOfBounds
    ensures r.Ok? ==> |r.value.pixels| == |sc.pixels| && r.value.cursor == sc.cursor
  {
    var at := CellOrigin(con, sc.cursor);
    match GlyphCheck(con.info, con.font, Size20, Regular, at)
    case Fail(f) => Err(f)
    case Pass =>
      Ok(Screen(Fill(con.info, con.writer, sc.pixels, GlyphRegion(con.font, at),
                     Shaded(con.font.Lookup(c), con.textColor, con.font.scale)),
                sc.cursor))
  }

  /** What `write_text` does, one step at a time. */
  datatype Event = Glyph(c: char) | LineBreak

  /** One step of `write_text`: a character is drawn and the cursor advanced; a line
      break is `cursor_new_line`. */
  ghost function AfterEvent(con: ConsoleConfig, sc: Screen, e: Event): (r: Result<Screen>)
    requires Decodable(con.info) && con.font.Valid()
    ensures r.Ok? ==> |r.value.pixels| == |sc.pixels|
  {
    match e
    case Glyph(c) =>
      (match AfterPutc(con, sc, c)
       case Err(f) => Err(f)
       case Ok(drawn) => AfterIncrement(con, drawn))
    case LineBreak => AfterNewLine(con, sc)
  }

  /** The steps run in order; the first panic ends the run. */
  ghost function Run(con: ConsoleConfig, sc: Screen, events: seq<Event>): (r: Result<Screen>)
    requires Decodable(con.info) && con.font.Valid()
    ensures r.Ok? ==> |r.value.pixels| == |sc.pixels|
    decreases |events|
  {
    if events == [] then Ok(sc)
    else
      match AfterEvent(con, sc, events[0])
      case Err(f) => Err(f)
      case Ok(next) => Run(con, next, events[1..])
  }

  /** A run that starts with step `e`. */
  lemma RunCons(con: ConsoleConfig, sc: Screen, e: Event, rest: seq<Event>)
    requires Decodable(con.info) && con.font.Valid()
    ensures AfterEvent(con, sc, e).Err? ==> Run(con, sc, [e] + rest) == Err(AfterEvent(con, sc, e).fault)
    ensures AfterEvent(con, sc, e).Ok? ==> Run(con, sc, [e] + rest) == Run(con, AfterEvent(con, sc, e).value, rest)
  {
    assert ([e] + rest)[0] == e && ([e] + rest)[1..] == rest;
  }

  /** Running `a` and then `b` is running `a + b`; a panic in `a` ends the run. */
  lemma {:induction false} RunAppend(con: ConsoleConfig, sc: Screen, a: seq<Event>, b: seq<Event>)
    requires Decodable(con.info) && con.font.Valid()
    ensures Run(con, sc, a + b)
            == if Run(con, sc, a).Ok? then Run(con, Run(con, sc, a).value, b) else Run(con, sc, a)
    decreases |a|
  {
    if a == [] {
      assert a + b == b;
    } else {
      assert a + b == [a[0]] + (a[1..] + b);
      assert a == [a[0]] + a[1..];
      RunCons(con, sc, a[0], a[1..] + b);
      RunCons(con, sc, a[0], a[1..]);
      if AfterEvent(con, sc, a[0]).Ok? {
        RunAppend(con, AfterEvent(con, sc, a[0]).value, a[1..], b);
      }
    }
  }

  // ---------------------------------------------------------------------------
  // Text to steps: `str::lines` and `write_text`
  // ---------------------------------------------------------------------------

  /** Index of the first `'\n'` in `text`, or `|text|` when there is none. */
  function NewlineIndex(text: string): (k: nat)
    ensures k <= |text|
    ensures k < |text| ==> text[k] == '\n'
    ensures forall j :: 0 <= j < k ==> text[j] != '\n'
  {
    if text == [] then 0
    else if text[0] == '\n' then 0
    else 1 + NewlineIndex(text[1..])
  }

  /** A line that ended in `"\r\n"` loses its `'\r'`. */
  function StripCr(line: string): string
  {
    if |line| > 0 && line[|line| - 1] == '\r' then line[..|line| - 1] else line
  }

  /** `str::lines`: the text split at each `'\n'` (a `"\r\n"` ending counts as one),
      with no empty line after a final line break. */
  function Lines(text: string): (lines: seq<string>)
    ensures lines == [] <==> text == []
    decreases |text|
  {
    if text == [] then []
    else
      var k := NewlineIndex(text);
      if k == |text| then [text]
      else [StripCr(text[..k])] + Lines(text[k + 1..])
  }

  /** The lines joined again, with a `'\n'` between consecutive lines. */
  function JoinLines(lines: seq<string>): string
  {
    if lines == [] then []
    else if |lines| == 1 then lines[0]
    else lines[0] + "\n" + JoinLines(lines[1..])
  }

  /** For text without `'\r'`, `Lines` loses nothing but a final `'\n'`: joining the
      lines and restoring that line break gives the text back. */
  lemma {:induction false} LinesJoin(text: string)
    requires forall j :: 0 <= j < |text| ==> text[j] != '\r'
    ensures JoinLines(Lines(text)) + (if EndsWithNewline(text) then "\n" else "") == text
    decreases |text|
  {
    if text == [] {
      return;
    }
    var k := NewlineIndex(text);
    if k == |text| {
      assert Lines(text) == [text];
      return;
    }
    var line, rest := text[..k], text[k + 1..];
    assert StripCr(line) == line by {
      if k > 0 {
        assert line[k - 1] == text[k - 1];
      }
    }
    LinesAtNewline(text, k);
    SplitAtNewline(text, k);
    if rest == [] {
      return;
    }
    LinesJoin(rest);
    JoinLinesCons(line, Lines(rest));
    EndsWithNewlineSuffix(text, rest);
    ConcatAssocChars(line + "\n", JoinLines(Lines(rest)), if EndsWithNewline(rest) then "\n" else "");
  }

  lemma SplitAtNewline(text: string, k: nat)
    requires k < |text| && text[k] == '\n'
    ensures text == text[..k] + "\n" + text[k + 1..]
  {
    assert text == text[..k] + [text[k]] + text[k + 1..];
  }

  /** A first line break whose line keeps no `'\r'` to strip ends that line as it is. */
  lemma LinesAtNewline(text: string, k: nat)
    requires text != [] && k == NewlineIndex(text) && k < |text|
    requires StripCr(text[..k]) == text[..k]
    ensures Lines(text) == [text[..k]] + Lines(text[k + 1..])
  {
  }
  lemma JoinLinesCons(line: string, lines: seq<string>)
    requires lines != []
    ensures JoinLines([line] + lines) == line + "\n" + JoinLines(lines)
  {
    assert ([line] + lines)[1..] == lines;
  }

  lemma ConcatAssocChars(a: string, b: string, c: string)
    ensures a + b + c == a + (b + c)
  {
  }

  /** A character of a line is drawn as a glyph. */
  function GlyphEvents(line: string): (events: seq<Event>)
    ensures |events| == |line|
    ensures forall j :: 0 <= j < |line| ==> events[j] == Glyph(line[j])
  {
    if line == [] then [] else [Glyph(line[0])] + GlyphEvents(line[1..])
  }

  /** The lines' glyphs with a line break between consecutive lines. */
  function LineEvents(lines: seq<string>): seq<Event>
    decreases |lines|
  {
    if lines == [] then []
    else if |lines| == 1 then GlyphEvents(lines[0])
    else GlyphEvents(lines[0]) + [LineBreak] + LineEvents(lines[1..])
  }

  /** `text` ends with a line break. */
  predicate EndsWithNewline(text: string)
  {
    |text| > 0 && text[|text| - 1] == '\n'
  }

  /** The steps `write_text(text)` takes: the lines, and one more line break when
      the text's last character is `'\n'`. */
  function WriteEvents(text: string): seq<Event>
  {
    LineEvents(Lines(text)) + (if EndsWithNewline(text) then [LineBreak] else [])
  }

  /** Each character on its own: a line break for `'\n'`, a glyph for any other. */
  function CharEvents(text: string): (events: seq<Event>)
    ensures |events| == |text|
    ensures forall j :: 0 <= j < |text| ==> events[j] == if text[j] == '\n' then LineBreak else Glyph(text[j])
  {
    if text == [] then [] else [if text[0] == '\n' then LineBreak else Glyph(text[0])] + CharEvents(text[1..])
  }

  /** No line of `Lines(text)` holds a `'\n'`. */
  lemma {:induction false} LinesHaveNoBreak(text: string)
    ensures forall i :: 0 <= i < |Lines(text)| ==> '\n' !in Lines(text)[i]
    decreases |text|
  {
    if text != [] {
      var k := NewlineIndex(text);
      if k < |text| {
        LinesHaveNoBreak(text[k + 1..]);
        var first := StripCr(text[..k]);
        assert '\n' !in first by {
          assert forall j :: 0 <= j < |first| ==> first[j] == text[j];
        }
      }
    }
  }

  /** For text without `'\r'`, `write_text` draws one glyph per character other than
      `'\n'`, in order, and takes exactly one `cursor_new_line` per `'\n'`, a final
      `'\n'` included. */
  lemma {:induction false} WriteEventsPerCharacter(text: string)
    requires forall j :: 0 <= j < |text| ==> text[j] != '\r'
    ensures WriteEvents(text) == CharEvents(text)
    decreases |text|
  {
    if text == [] {
      return;
    }
    var k := NewlineIndex(text);
    if k == |text| {
      WriteEventsOneLine(text);
      return;
    }
    var line, rest := text[..k], text[k + 1..];
    GlyphsWithoutNewline(line);
    CharEventsAtNewline(text, k);
    WriteEventsAtNewline(text, k);
    WriteEventsPerCharacter(rest);
  }

  /** Text without a line break is one line of glyphs. */
  lemma WriteEventsOneLine(text: string)
    requires text != [] && NewlineIndex(text) == |text|
    ensures WriteEvents(text) == CharEvents(text)
  {
    GlyphsWithoutNewline(text);
    assert Lines(text) == [text];
    assert text[|text| - 1] != '\n';
    assert WriteEvents(text) == GlyphEvents(text) + [];
  }

  lemma CharEventsAtNewline(text: string, k: nat)
    requires k < |text| && text[k] == '\n'
    ensures CharEvents(text) == CharEvents(text[..k]) + [LineBreak] + CharEvents(text[k + 1..])
  {
    var a, b := CharEvents(text[..k]), CharEvents(text[k + 1..]);
    var joined := a + [LineBreak] + b;
    assert |joined| == |text|;
    forall j | 0 <= j < |text|
      ensures CharEvents(text)[j] == joined[j]
    {
      if j < k {
        assert joined[j] == a[j];
      } else if j > k {
        assert joined[j] == b[j - k - 1];
      }
    }
  }

  /** The first line break of the text separates the first line's glyphs from the
      steps of the rest of the text. */
  lemma WriteEventsAtNewline(text: string, k: nat)
    requires text != [] && k == NewlineIndex(text) && k < |text|
    requires StripCr(text[..k]) == text[..k]
    ensures WriteEvents(text) == GlyphEvents(text[..k]) + [LineBreak] + WriteEvents(text[k + 1..])
  {
    var line, rest := text[..k], text[k + 1..];
    LinesAtNewline(text, k);
    if rest == [] {
      WriteEventsFinalNewline(text, line);
    } else {
      LineEventsCons(line, Lines(rest));
      EndsWithNewlineSuffix(text, rest);
      var trail: seq<Event> := if EndsWithNewline(rest) then [LineBreak] else [];
      calc {
        WriteEvents(text);
        LineEvents([line] + Lines(rest)) + trail;
        GlyphEvents(line) + [LineBreak] + LineEvents(Lines(rest)) + trail;
        { ConcatAssoc(GlyphEvents(line) + [LineBreak], LineEvents(Lines(rest)), trail); }
        GlyphEvents(line) + [LineBreak] + WriteEvents(rest);
      }
    }
  }

  /** A text whose only line break is its last character. */
  lemma WriteEventsFinalNewline(text: string, line: string)
    requires text == line + ['\n'] && Lines(text) == [line]
    ensures WriteEvents(text) == GlyphEvents(line) + [LineBreak] + WriteEvents([])
  {
    assert EndsWithNewline(text);
    assert LineEvents([line]) == GlyphEvents(line);
    assert WriteEvents([]) == [];
  }

  lemma LineEventsCons(line: string, more: seq<string>)
    requires more != []
    ensures LineEvents([line] + more) == GlyphEvents(line) + [LineBreak] + LineEvents(more)
  {
    assert ([line] + more)[1..] == more;
  }

  lemma EndsWithNewlineSuffix(text: string, rest: string)
    requires rest != [] && |rest| <= |text| && text[|text| - |rest|..] == rest
    ensures EndsWithNewline(text) == EndsWithNewline(rest)
  {
    assert text[|text| - 1] == rest[|rest| - 1];
  }

  lemma ConcatAssoc(a: seq<Event>, b: seq<Event>, c: seq<Event>)
    ensures a + b + c == a + (b + c)
  {
  }

  /** Text without a line break is drawn glyph by glyph. */
  lemma GlyphsWithoutNewline(line: string)
    requires forall j :: 0 <= j < |line| ==> line[j] != '\n'
    ensures GlyphEvents(line) == CharEvents(line)
  {
  }

  /** The steps of the lines from line `i` on, followed by `tail`: line `i`'s glyphs,
      a line break when another line follows (`write_text`'s `peek`), then the
      later lines and `tail`. */
  lemma LineEventsStep(lines: seq<string>, i: nat, tail: seq<Event>)
    requires i < |lines|
    ensures LineEvents(lines[i..]) + tail
            == GlyphEvents(lines[i]) + ((if i + 1 < |lines| then [LineBreak] else []) + (LineEvents(lines[i + 1..]) + tail))
  {
    assert lines[i..][0] == lines[i];
    assert lines[i..][1..] == lines[i + 1..];
    if i + 1 == |lines| {
      assert lines[i + 1..] == [];
      assert LineEvents(lines[i..]) == GlyphEvents(lines[i]);
    } else {
      var br := [LineBreak];
      assert LineEvents(lines[i..]) == GlyphEvents(lines[i]) + br + LineEvents(lines[i + 1..]);
      ConcatAssoc(GlyphEvents(lines[i]) + br, LineEvents(lines[i + 1..]), tail);
      ConcatAssoc(GlyphEvents(lines[i]), br, LineEvents(lines[i + 1..]) + tail);
    }
  }

  // ---------------------------------------------------------------------------
  // Properties of the screen operations
  // ---------------------------------------------------------------------------

  /** `putc`'s check at a cell passes exactly when the Size20 cell ends strictly
      before the right and bottom edges of the framebuffer (the check is `>=`). */
  lemma PutcCheckAtCell(con: ConsoleConfig, len: nat, c: Point)
    requires con.Valid(len)
    ensures GlyphCheck(con.info, con.font, Size20, Regular, CellOrigin(con, c)).Pass?
            <==> (c.x + 1) * CellWidth(con.font) < con.info.width && (c.y + 1) * CellHeight < con.info.height
  {
  }

  /** The glyph step at the cursor fails exactly when the cursor's Size20 cell does
      not end strictly before the right and bottom edges of the framebuffer. */
  lemma PutcAtCursor(con: ConsoleConfig, sc: Screen, c: char)
    requires Decodable(con.info) && con.font.Valid()
    ensures AfterPutc(con, sc, c).Ok?
            <==> (sc.cursor.x + 1) * CellWidth(con.font) < con.info.width && (sc.cursor.y + 1) * CellHeight < con.info.height
  {
  }

  /** When the framebuffer height is a multiple of the cell height, the last text
      row of the grid is inside the grid but every character written there panics. */
  lemma LastRowRejected(con: ConsoleConfig, len: nat, x: nat)
    requires con.Valid(len) && con.info.height % CellHeight == 0 && con.height >= 1
    ensures x < con.width ==> InGrid(con.width, con.height, Point(x, con.height - 1))
    ensures GlyphCheck(con.info, con.font, Size20, Regular, CellOrigin(con, Point(x, con.height - 1))).Fail?
  {
    PutcCheckAtCell(con, len, Point(x, con.height - 1));
  }

  /** The bytes of text line `k + 1` one line up: the copied span of pixel row `r`
      of line `k + 1` is found in pixel row `r` of line `k`, when nothing of the
      first `moved` lines has been touched yet beyond the span. */
  lemma ShiftedStepAt(con: ConsoleConfig, s: seq<Byte>, m: nat, i: nat)
    requires con.Valid(|s|) && m + 1 < con.height && 0 <= i < |s|
    ensures LineMoved(con, Shifted(con, s, m), m + 1, m)[i] == Shifted(con, s, m + 1)[i]
  {
    var info := con.info;
    var rb := RowBytes(info);
    var w := CellWidth(con.font) * con.width;
    var src, dst := Point(0, (m + 1) * CellHeight), Point(0, m * CellHeight);
    LineSpanFits(con, |s|);
    LineFits(con, |s|, m + 1);
    var prev := Shifted(con, s, m);
    RowSplit(info, i);
    var p, c := ByteRow(info, i), ByteInRow(info, i);
    assert (0 + w) * info.bytesPerPixel == LineSpan(con);
    assert 0 * info.bytesPerPixel == 0;
    if m * CellHeight <= p < m * CellHeight + CellHeight && c < LineSpan(con) {
      var j := PixelPosToReal(info, Point(src.x, src.y + (p - dst.y))) + c;
      assert j == rb * (p + CellHeight) + c;
      assert j == i + CellHeight * rb;
      RowJoin(info, p + CellHeight, c);
      RowsBelow(info, p + CellHeight, info.height);
      assert j < |s|;
      assert prev[j] == s[j];
    }
  }

  /** One more `copy_line(k, k - 1)` of `scroll_down`'s loop. */
  lemma ShiftedStep(con: ConsoleConfig, s: seq<Byte>, m: nat, cur: seq<Byte>)
    requires con.Valid(|s|) && m + 1 < con.height && cur == Shifted(con, s, m)
    ensures con.Valid(|cur|)
    ensures LineMoved(con, cur, m + 1, m) == Shifted(con, s, m + 1)
  {
    LineSpanFits(con, |s|);
    LineFits(con, |s|, m + 1);
    var moved := LineMoved(con, cur, m + 1, m);
    var next := Shifted(con, s, m + 1);
    forall i | 0 <= i < |s|
      ensures moved[i] == next[i]
    {
      ShiftedStepAt(con, s, m, i);
    }
  }

  /** The bytes after the first `m` iterations of `scroll_down`'s loop, each a
      `copy_line(k, k - 1)`. */
  ghost function LinesMoved(con: ConsoleConfig, s: seq<Byte>, m: nat): (r: seq<Byte>)
    requires con.Valid(|s|) && m < con.height
    ensures |r| == |s|
    decreases m
  {
    if m == 0 then s
    else
      var prev := LinesMoved(con, s, m - 1);
      LineMoved(con, prev, m, m - 1)
  }

  /** The loop's `m` copies, one after the other, give the closed form `Shifted`:
      the copied span of every pixel row of lines 1..`m` moved one text line up. */
  lemma {:induction false} LinesMovedShifted(con: ConsoleConfig, s: seq<Byte>, m: nat)
    requires con.Valid(|s|) && m < con.height
    ensures LinesMoved(con, s, m) == Shifted(con, s, m)
    decreases m
  {
    if m == 0 {
      ShiftedNone(con, s);
    } else {
      LinesMovedShifted(con, s, m - 1);
      ShiftedStep(con, s, m - 1, LinesMoved(con, s, m - 1));
    }
  }

  /** `copy_line(src, dst)` on bytes: the copied span of each pixel row of text
      line `src` copied onto text line `dst`, one pixel row after the other. */
  ghost function LineCopied(con: ConsoleConfig, s: seq<Byte>, src: nat, dst: nat): (r: seq<Byte>)
    requires con.Valid(|s|) && src < con.height && dst < con.height
    ensures |r| == |s|
  {
    LineSpanFits(con, |s|);
    LineFits(con, |s|, src);
    LineFits(con, |s|, dst);
    CopyRows(con.info, s, Point(0, src * CellHeight), Point(0, dst * CellHeight), CellWidth(con.font) * con.width, CellHeight)
  }

  /** The same copy as one simultaneous move of the whole line. */
  ghost function LineMoved(con: ConsoleConfig, s: seq<Byte>, src: nat, dst: nat): (r: seq<Byte>)
    requires con.Valid(|s|) && src < con.height && dst < con.height
    ensures |r| == |s|
  {
    LineSpanFits(con, |s|);
    LineFits(con, |s|, src);
    LineFits(con, |s|, dst);
    MoveRect(con.info, s, Point(0, src * CellHeight), Point(0, dst * CellHeight), CellWidth(con.font) * con.width, CellHeight)
  }

  /** Before the first `copy_line`, nothing has moved. */
  lemma ShiftedNone(con: ConsoleConfig, s: seq<Byte>)
    requires Decodable(con.info)
    ensures Shifted(con, s, 0) == s
  {
  }

  /** After `scroll_down`, for each line k in 1 .. `height` - 1, the copied span of
      each of its pixel rows sits in the same pixel row of line k - 1. */
  lemma ScrollMovesLines(con: ConsoleConfig, s: seq<Byte>, k: nat, r: nat, c: nat)
    requires con.Valid(|s|) && 1 <= k < con.height && r < CellHeight && c < LineSpan(con)
    ensures RowBytes(con.info) * (k * CellHeight + r) + c < |s|
    ensures ScrolledPixels(con, s)[RowBytes(con.info) * ((k - 1) * CellHeight + r) + c]
            == s[RowBytes(con.info) * (k * CellHeight + r) + c]
  {
    var info := con.info;
    var rb := RowBytes(info);
    LineSpanFits(con, |s|);
    LineFits(con, |s|, k);
    var p := (k - 1) * CellHeight + r;
    var i := rb * p + c;
    RowsBelow(info, k * CellHeight + r, info.height);
    assert rb * (k * CellHeight + r) + c == i + CellHeight * rb by {
      assert k * CellHeight + r == p + CellHeight;
      assert rb * (p + CellHeight) == rb * p + rb * CellHeight;
    }
    RowJoin(info, p, c);
    // line k - 1 is not the last line, so clearing the last line leaves it alone
    OffsetDecode(info, i);
    var a := Decode(info, i);
    assert a.y == p;
    assert !InRegion(LineRegion(con, con.height - 1), a.x, a.y);
  }

  /** After `scroll_down`, every stored channel of every pixel of the last text line
      holds the clear colour. */
  lemma ScrollClearsLastLine(con: ConsoleConfig, s: seq<Byte>, x: nat, r: nat, k: nat)
    requires con.Valid(|s|) && con.height >= 1 && x < con.info.width && r < CellHeight && k < Channels(con.writer)
    ensures Offset(con.info, Address(x, (con.height - 1) * CellHeight + r, k)) < |s|
    ensures ScrolledPixels(con, s)[Offset(con.info, Address(x, (con.height - 1) * CellHeight + r, k))]
            == Encode(con.writer, con.clearColor)[k]
  {
    var a := Address(x, (con.height - 1) * CellHeight + r, k);
    LineFits(con, |s|, con.height - 1);
    PixelInBuffer(con.info, |s|, x, a.y);
    FillEffect(con.info, con.writer, Shifted(con, s, con.height - 1), LineRegion(con, con.height - 1), Solid(con.clearColor), a);
  }

  /** If the cursor starts inside a grid with at least one cell, every run that does
      not panic leaves it inside the grid. */
  lemma {:induction false} RunKeepsCursorInGrid(con: ConsoleConfig, sc: Screen, events: seq<Event>)
    requires Decodable(con.info) && con.font.Valid()
    requires InGrid(con.width, con.height, sc.cursor)
    requires Run(con, sc, events).Ok?
    ensures InGrid(con.width, con.height, Run(con, sc, events).value.cursor)
    decreases |events|
  {
    if events != [] {
      var next := AfterEvent(con, sc, events[0]).value;
      assert InGrid(con.width, con.height, next.cursor) by {
        match events[0]
        case Glyph(c) =>
          var drawn := AfterPutc(con, sc, c).value;
          IncrementStaysInGrid(con.width, con.height, drawn.cursor);
        case LineBreak =>
          NewLineStaysInGrid(con.width, con.height, sc.cursor);
      }
      RunKeepsCursorInGrid(con, next, events[1..]);
    }
  }

  // ---------------------------------------------------------------------------
  // The text display
  // ---------------------------------------------------------------------------

  class TextDisplay {
    /** column and row of the cursor, in characters */
    var cursor: Point
    /** how many characters fit on a line */
    const width: nat
    /** how many lines fit in the framebuffer */
    const height: nat
    var clearColor: Color
    var textColor: Color
    const display: Display

    ghost predicate Valid()
      reads this
    {
      Config().Valid(display.buffer.Length)
    }

    function Config(): ConsoleConfig
      reads this
    {
      ConsoleConfig(display.info, display.writer, display.font, width, height, clearColor, textColor)
    }

    ghost function State(): Screen
      reads this, display.buffer
    {
      Screen(display.buffer[..], cursor)
    }

    /** `TextDisplay::new` on a display already built. */
    constructor FromDisplay(display: Display, clearColor: Color, textColor: Color)
      requires display.Valid()
      ensures Valid() && this.display == display && cursor == Point(0, 0)
      ensures this.clearColor == clearColor && this.textColor == textColor
    {
      this.display := display;
      this.cursor := Point(0, 0);
      CellWidthPositive(display.font);
      this.width := display.info.stride / CellWidth(display.font);
      this.height := display.info.height / CellHeight;
      this.clearColor := clearColor;
      this.textColor := textColor;
    }

    /** `TextDisplay::new`: panics where `Display::new` does; otherwise a console
        with the cursor home and the grid derived from `stride` and `height`. */
    static method New(buffer: array<Byte>, info: FrameBufferInfo, font: Font, clearColor: Color, textColor: Color)
      returns (r: Result<TextDisplay>)
      requires WellFormed(info, buffer.Length) && font.Valid()
      ensures r.Err? <==> info.pixelFormat.Unknown?
      ensures r.Ok? ==> r.value.Valid() && r.value.display.buffer == buffer && r.value.cursor == Point(0, 0)
      ensures r.Ok? ==> r.value.width == info.stride / CellWidth(font) && r.value.height == info.height / CellHeight
      ensures r.Ok? ==> fresh(r.value) && fresh(r.value.display) && r.value.display.info == info && r.value.display.font == font
      ensures r.Ok? ==> r.value.clearColor == clearColor && r.value.textColor == textColor
    {
      var d := Display.New(buffer, info, font);
      if d.Err? {
        return Err(d.fault);
      }
      var t := new TextDisplay.FromDisplay(d.value, clearColor, textColor);
      return Ok(t);
    }

    /** `move_cursor`: accepts any cell up to and including column `width` and row
        `height` (non-strict bounds). */
    method MoveCursor(position: Point) returns (r: Outcome)
      modifies this`cursor
      ensures r.Pass? <==> position.x <= width && position.y <= height
      ensures r.Pass? ==> cursor == position
      ensures r.Fail? ==> r.fault == CursorOutOfBounds && cursor == old(cursor)
    {
      if position.x > width || position.y > height {
        return Fail(CursorOutOfBounds);
      }
      cursor := position;
      return Pass;
    }

    method SetClearColor(color: Color)
      modifies this`clearColor
      ensures clearColor == color
    {
      clearColor := color;
    }

    method SetTextColor(color: Color)
      modifies this`textColor
      ensures textColor == color
    {
      textColor := color;
    }

    /** `clear`: paints the whole framebuffer with the clear colour. */
    method Clear()
      requires Valid()
      modifies display.buffer
      ensures display.buffer[..] == Fill(display.info, display.writer, old(display.buffer[..]),
                                         Region(Point(0, 0), display.info.width, display.info.height), Solid(clearColor))
    {
      display.Clear(clearColor);
    }

    /** `clear_line`: panics for a line outside the grid; otherwise paints pixel rows
        [line * 20, line * 20 + 20) across the framebuffer width with the clear colour. */
    method ClearLine(line: nat) returns (r: Outcome)
      requires Valid()
      modifies display.buffer
      ensures r.Pass? <==> line < height
      ensures r.Fail? ==> r.fault == LineOutOfRange && display.buffer[..] == old(display.buffer[..])
      ensures r.Pass? ==> display.buffer[..] == Fill(display.info, display.writer, old(display.buffer[..]),
                                                     LineRegion(Config(), line), Solid(clearColor))
    {
      if line >= height {
        return Fail(LineOutOfRange);
      }
      LineFits(Config(), display.buffer.Length, line);
      var minY := line * CellHeight;
      var maxY := minY + CellHeight;
      r := display.DrawRect(clearColor, Point(0, minY), Point(display.info.width, maxY));
    }

    /** `copy_line`: copies the pixel rows of text line `src` onto text line `dst`,
        `raster_width() * width` pixels wide.  The caller names lines of the grid.
        Copying down, the effect is the row-by-row copy; copying up (or onto itself)
        the row-by-row copy is the simultaneous move (`CopyRowsUpward`), stated as such. */
    method CopyLine(src: nat, dst: nat)
      requires Valid() && src < height && dst < height
      modifies display.buffer
      ensures src < dst ==> display.buffer[..] == LineCopied(Config(), old(display.buffer[..]), src, dst)
      ensures dst <= src ==> display.buffer[..] == LineMoved(Config(), old(display.buffer[..]), src, dst)
    {
      LineSpanFits(Config(), display.buffer.Length);
      LineFits(Config(), display.buffer.Length, src);
      LineFits(Config(), display.buffer.Length, dst);
      var srcY := src * CellHeight;
      var dstY := dst * CellHeight;
      display.CopyRect(Point(0, srcY), Point(0, dstY), CellWidth(display.font) * width, CellHeight);
    }

    /** The loop of `scroll_down`: `copy_line(line, line - 1)` for each line from 1 on. */
    method ShiftLinesUp()
      requires Valid() && height >= 1
      modifies display.buffer
      ensures display.buffer[..] == Shifted(Config(), old(display.buffer[..]), height - 1)
    {
      ghost var con := Config();
      ghost var s := display.buffer[..];
      for line := 1 to height
        invariant Config() == con
        invariant display.buffer[..] == LinesMoved(con, s, line - 1)
      {
        CopyLine(line, line - 1);
      }
      LinesMovedShifted(con, s, height - 1);
    }

    /** `scroll_down`: moves every text line up by one, clears the last line and
        moves the cursor one row up unless it is on row 0. */
    method ScrollDown() returns (r: Outcome)
      requires Valid()
      modifies this`cursor, display.buffer
      ensures var expected := Scrolled(old(Config()), old(State()));
        && (r.Pass? <==> expected.Ok?)
        && (r.Pass? ==> State() == expected.value)
        && (r.Fail? ==> r.fault == expected.fault)
    {
      if height == 0 {
        return Fail(LineUnderflow);
      }
      ghost var con := Config();
      ghost var s := display.buffer[..];
      ShiftLinesUp();
      r := ClearLine(height - 1);
      assert display.buffer[..] == ScrolledPixels(con, s);
      if cursor.y != 0 {
        cursor := cursor.(y := cursor.y - 1);
      }
    }

    /** `increment_cursor_pos`: one cell forward, wrapping to the next row and
        scrolling when that row is `height`. */
    method IncrementCursorPos() returns (r: Outcome)
      requires Valid()
      modifies this`cursor, display.buffer
      ensures var expected := AfterIncrement(old(Config()), old(State()));
        && (r.Pass? <==> expected.Ok?)
        && (r.Pass? ==> State() == expected.value)
        && (r.Fail? ==> r.fault == expected.fault)
    {
      if width == 0 {
        return Fail(RemainderByZero);
      }
      cursor := cursor.(x := (cursor.x + 1) % width);
      if cursor.x == 0 {
        cursor := cursor.(y := cursor.y + 1);
        if cursor.y == height {
          r := ScrollDown();
          return;
        }
      }
      return Pass;
    }

    /** `cursor_new_line`: column 0 of the next row, scrolling when that row is `height`. */
    method CursorNewLine()
      requires Valid()
      modifies this`cursor, display.buffer
      ensures State() == AfterNewLine(old(Config()), old(State())).value
    {
      cursor := Point(0, cursor.y + 1);
      if cursor.y == height {
        var scrolled := ScrollDown();
      }
    }

    /** One character of `write_text`: its glyph at the cursor's cell, then one cell forward. */
    method WriteChar(c: char) returns (r: Outcome)
      requires Valid()
      modifies this`cursor, display.buffer
      ensures var expected := AfterEvent(old(Config()), old(State()), Glyph(c));
        && (r.Pass? <==> expected.Ok?)
        && (r.Pass? ==> State() == expected.value)
        && (r.Fail? ==> r.fault == expected.fault)
    {
      var x := cursor.x * CellWidth(display.font);
      var y := cursor.y * CellHeight;
      r := display.Putc(c, textColor, Size20, Regular, Point(x, y));
      if r.Fail? {
        return;
      }
      r := IncrementCursorPos();
    }

    /** The loop of `write_text` over the characters of one line: each glyph drawn
        at the cursor, followed by a cursor advance. */
    method WriteLine(line: string) returns (r: Outcome)
      requires Valid()
      modifies this`cursor, display.buffer
      ensures Config() == old(Config())
      ensures var expected := Run(old(Config()), old(State()), GlyphEvents(line));
        && (r.Pass? <==> expected.Ok?)
        && (r.Pass? ==> State() == expected.value)
        && (r.Fail? ==> r.fault == expected.fault)
    {
      ghost var con := Config();
      ghost var expected := Run(con, State(), GlyphEvents(line));
      assert line[0..] == line;
      for j := 0 to |line|
        invariant Config() == con && Valid()
        invariant Run(con, State(), GlyphEvents(line[j..])) == expected
      {
        assert line[j..] == [line[j]] + line[j + 1..];
        RunCons(con, State(), Glyph(line[j]), GlyphEvents(line[j + 1..]));
        r := WriteChar(line[j]);
        if r.Fail? {
          return;
        }
      }
      assert line[|line|..] == [];
      return Pass;
    }

    /** `write_text`: takes the steps `WriteEvents(text)` until the first panic. */
    method WriteText(text: string) returns (r: Outcome)
      requires Valid()
      modifies this`cursor, display.buffer
      ensures var expected := Run(old(Config()), old(State()), WriteEvents(text));
        && (r.Pass? <==> expected.Ok?)
        && (r.Pass? ==> State() == expected.value)
        && (r.Fail? ==> r.fault == expected.fault)
    {
      ghost var con := Config();
      ghost var expected := Run(con, State(), WriteEvents(text));
      var lines := Lines(text);
      ghost var trail: seq<Event> := if EndsWithNewline(text) then [LineBreak] else [];
      assert lines[0..] == lines;
      var i := 0;
      while i < |lines|
        invariant 0 <= i <= |lines|
        invariant Config() == con && Valid()
        invariant Run(con, State(), LineEvents(lines[i..]) + trail) == expected
      {
        LineEventsStep(lines, i, trail);
        ghost var br: seq<Event> := if i + 1 < |lines| then [LineBreak] else [];
        ghost var later := br + (LineEvents(lines[i + 1..]) + trail);
        RunAppend(con, State(), GlyphEvents(lines[i]), later);
        r := WriteLine(lines[i]);
        if r.Fail? {
          return;
        }
        if i + 1 < |lines| {
          RunCons(con, State(), LineBreak, LineEvents(lines[i + 1..]) + trail);
          CursorNewLine();
        } else {
          assert later == LineEvents(lines[i + 1..]) + trail;
        }
        i := i + 1;
      }
      assert lines[i..] == [];
      if EndsWithNewline(text) {
        RunCons(con, State(), LineBreak, []);
        assert trail == [LineBreak] + [];
        CursorNewLine();
      }
      return Pass;
    }
  }
}
