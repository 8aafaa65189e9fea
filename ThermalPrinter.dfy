/*
 * The printer driver's state and its drawing and printing operations: a
 * 1-bit-per-pixel back buffer (rows of `pitch` bytes, leftmost pixel in the
 * most significant bit), a text cursor, the wrap flag, and the stream of
 * writes and pauses sent to the printer once connected.
 */
module ThermalPrinter {
  import opened Arith
  import opened Bits
  import opened Raster
  import opened RasterDraw
  import opened Protocol
  import opened Glyphs

  /** Complement the first len bytes of a, in place; the rest of a is untouched. */
  method InvertBytes(a: array<bv8>, len: int)
    requires 0 <= len < 256 && len <= a.Length
    modifies a
    ensures a[..] == Inverted(old(a[..len])) + old(a[len..])
  {
    var i := 0;
    while i < len
      invariant 0 <= i <= len
      invariant forall j :: 0 <= j < i ==> a[j] == !old(a[j])
      invariant forall j :: i <= j < a.Length ==> a[j] == old(a[j])
    {
      a[i] := !a[i];
      i := i + 1;
    }
  }

  /** Move the bit cursor one pixel right: shift the mask, and on leaving the byte step to the next one. */
  method NextColumn(x: int, p: int, mask: bv8) returns (p': int, mask': bv8)
    requires mask == Mask(x)
    ensures mask' == Mask(x + 1) && p' == p + ((x + 1) / 8 - x / 8)
  {
    MaskShiftRight(x);
    p', mask' := p, mask >> 1;
    if mask' == 0 {
      mask' := 0x80;
      p' := p + 1;
    }
  }

  /** Move the bit cursor one pixel left: shift the mask, and on leaving the byte step to the previous one. */
  method PreviousColumn(x: int, p: int, mask: bv8) returns (p': int, mask': bv8)
    requires mask == Mask(x)
    ensures mask' == Mask(x - 1) && p' == p + ((x - 1) / 8 - x / 8)
  {
    MaskShiftLeft(x);
    p', mask' := p, mask << 1;
    if mask' == 0 {
      p' := p - 1;
      mask' := 1;
    }
  }

  /** The store both loops make: paint the first pixel still to draw, at byte p under bit mask. */
  method PaintFirst(b: array<bv8>, pitch: int, p: int, mask: bv8, color: bv8, ghost rest: seq<Pixel>)
    requires |rest| > 0 && p == Index(pitch, rest[0]) && 0 <= p < b.Length && mask == Mask(rest[0].x)
    modifies b
    ensures ApplyPixels(b[..], pitch, rest[1..], color != 0) == ApplyPixels(old(b[..]), pitch, rest, color != 0)
  {
    b[p] := PaintByte(b[p], mask, color != 0);
    assert b[..] == PaintPixel(old(b[..]), pitch, rest[0], color != 0);
    ApplyPixelsStep(old(b[..]), pitch, rest, 0, color != 0);
  }

  /**
   * The bookkeeping of one x-major step: the next column, and one row
   * towards the end point when the error term goes negative.
   */
  method AdvanceX(pitch: int, x: int, y: int, error: int, dx: int, dy: int, yinc: int, p: int, mask: bv8)
    returns (y': int, error': int, p': int, mask': bv8)
    requires yinc == 1 || yinc == -1
    requires p == Index(pitch, Pixel(x, y)) && mask == Mask(x)
    ensures p' == Index(pitch, Pixel(x + 1, y')) && mask' == Mask(x + 1)
    ensures error - dy < 0 ==> y' == y + yinc && error' == error - dy + dx
    ensures error - dy >= 0 ==> y' == y && error' == error - dy
  {
    IndexNeighbours(pitch, x, y);
    IndexNeighbours(pitch, x + 1, y);
    p', mask' := NextColumn(x, p, mask);
    y', error' := y, error - dy;
    if error' < 0 {
      error' := error' + dx;
      y' := y' + yinc;
      if yinc > 0 {
        p' := p' + pitch;
      } else {
        p' := p' - pitch;
      }
    }
  }

  /**
   * The bookkeeping of one y-major step: the next row, and one column
   * towards the end point (moving the mask) when the error term goes negative.
   */
  method AdvanceY(pitch: int, x: int, y: int, error: int, dy: int, dx: int, xinc: int, p: int, mask: bv8)
    returns (x': int, error': int, p': int, mask': bv8)
    requires xinc == 1 || xinc == -1
    requires p == Index(pitch, Pixel(x, y)) && mask == Mask(x)
    ensures p' == Index(pitch, Pixel(x', y + 1)) && mask' == Mask(x')
    ensures error - dx < 0 ==> x' == x + xinc && error' == error - dx + dy
    ensures error - dx >= 0 ==> x' == x && error' == error - dx
  {
    IndexNeighbours(pitch, x, y);
    x', p', mask' := x, p + pitch, mask;
    error' := error - dx;
    if error' < 0 {
      error' := error' + dy;
      x' := x' + xinc;
      IndexNeighbours(pitch, x', y + 1);
      if xinc > 0 {
        p', mask' := NextColumn(x' - 1, p', mask');
      } else {
        p', mask' := PreviousColumn(x' + 1, p', mask');
      }
    }
  }

  /** One pass of the x-major loop: paint the first pixel still to draw, then step. */
  method PaintXStep(b: array<bv8>, width: int, height: int, pitch: int, x: int, x2: int, y: int,
                    error: int, dx: int, dy: int, yinc: int, p: int, mask: bv8, color: bv8)
    returns (y': int, error': int, p': int, mask': bv8)
    requires pitch == Pitch(width) && pitch * height <= b.Length
    requires yinc == 1 || yinc == -1
    requires x <= x2 && AllInFrame(width, height, XRun(x, x2, y, error, dx, dy, yinc))
    requires p == Index(pitch, Pixel(x, y)) && mask == Mask(x)
    modifies b
    ensures var rest := XRun(x, x2, y, error, dx, dy, yinc);
      |rest| > 0 && rest[1..] == XRun(x + 1, x2, y', error', dx, dy, yinc) &&
      AllInFrame(width, height, rest[1..]) &&
      ApplyPixels(b[..], pitch, rest[1..], color != 0) == ApplyPixels(old(b[..]), pitch, rest, color != 0)
    ensures p' == Index(pitch, Pixel(x + 1, y')) && mask' == Mask(x + 1)
  {
    ghost var rest := XRun(x, x2, y, error, dx, dy, yinc);
    XRunStep(x, x2, y, error, dx, dy, yinc);
    assert 0 <= p < b.Length by {
      InFrameIndex(width, height, Pixel(x, y));
    }
    PaintFirst(b, pitch, p, mask, color, rest);
    y', error', p', mask' := AdvanceX(pitch, x, y, error, dx, dy, yinc, p, mask);
    XRunNext(x, x2, y, error, dx, dy, yinc, y', error');
  }

  /**
   * The for loop of tpDrawLine's x-major case: from column x to x2, paint
   * the pixel at byte p under bit mask, then step to the next column and,
   * when the error term goes negative, one row by yinc.  Its effect is
   * the x-major run from the loop's starting state.
   */
  method PaintXRun(b: array<bv8>, width: int, height: int, pitch: int, x: int, x2: int, y: int,
                   error: int, dx: int, dy: int, yinc: int, p: int, mask: bv8, color: bv8)
    requires pitch == Pitch(width) && pitch * height <= b.Length
    requires yinc == 1 || yinc == -1
    requires p == Index(pitch, Pixel(x, y)) && mask == Mask(x)
    requires AllInFrame(width, height, XRun(x, x2, y, error, dx, dy, yinc))
    modifies b
    ensures b[..] == ApplyPixels(old(b[..]), pitch, XRun(x, x2, y, error, dx, dy, yinc), color != 0)
  {
    var x, y, error, p, mask := x, y, error, p, mask;
    // the pixels still to draw, the first of them at (x, y)
    ghost var rest := XRun(x, x2, y, error, dx, dy, yinc);
    ghost var target := ApplyPixels(b[..], pitch, rest, color != 0);
    while x <= x2
      invariant rest == XRun(x, x2, y, error, dx, dy, yinc)
      invariant AllInFrame(width, height, rest)
      invariant p == Index(pitch, Pixel(x, y)) && mask == Mask(x)
      invariant target == ApplyPixels(b[..], pitch, rest, color != 0)
    {
      y, error, p, mask := PaintXStep(b, width, height, pitch, x, x2, y, error, dx, dy, yinc, p, mask, color);
      rest := rest[1..];
      x := x + 1;
    }
  }

  /** tpDrawLine's x-major case, on a line already ordered left to right. */
  method DrawXMajor(b: array<bv8>, width: int, height: int, pitch: int, n: Segment, color: bv8)
    requires pitch == Pitch(width) && pitch * height <= b.Length
    requires n.XMajor() && n.x1 < n.x2 && LineAccepted(width, height, n)
    modifies b
    ensures b[..] == DrawnLine(old(b[..]), width, height, n, color != 0)
  {
    var x1, x2 := n.x1, n.x2;
    var dx := x2 - x1;
    var dy := n.y2 - n.y1;
    var error := dx / 2;
    var yinc := 1;
    if dy < 0 {
      dy := -dy;
      yinc := -1;
    }
    XRunIsLine(n);
    LineAllInFrame(n, width, height);
    var p := n.y1 * pitch + x1 / 8;
    var mask := Mask(x1);
    PaintXRun(b, width, height, pitch, x1, x2, n.y1, error, dx, dy, yinc, p, mask, color);
  }

  /** One pass of the y-major loop: paint the first pixel still to draw, then step. */
  method PaintYStep(b: array<bv8>, width: int, height: int, pitch: int, y: int, y2: int, x: int,
                    error: int, dy: int, dx: int, xinc: int, p: int, mask: bv8, color: bv8)
    returns (x': int, error': int, p': int, mask': bv8)
    requires pitch == Pitch(width) && pitch * height <= b.Length
    requires xinc == 1 || xinc == -1
    requires y <= y2 && AllInFrame(width, height, YRun(y, y2, x, error, dy, dx, xinc))
    requires p == Index(pitch, Pixel(x, y)) && mask == Mask(x)
    modifies b
    ensures var rest := YRun(y, y2, x, error, dy, dx, xinc);
      |rest| > 0 && rest[1..] == YRun(y + 1, y2, x', error', dy, dx, xinc) &&
      AllInFrame(width, height, rest[1..]) &&
      ApplyPixels(b[..], pitch, rest[1..], color != 0) == ApplyPixels(old(b[..]), pitch, rest, color != 0)
    ensures p' == Index(pitch, Pixel(x', y + 1)) && mask' == Mask(x')
  {
    ghost var rest := YRun(y, y2, x, error, dy, dx, xinc);
    YRunStep(y, y2, x, error, dy, dx, xinc);
    assert 0 <= p < b.Length by {
      InFrameIndex(width, height, Pixel(x, y));
    }
    PaintFirst(b, pitch, p, mask, color, rest);
    x', error', p', mask' := AdvanceY(pitch, x, y, error, dy, dx, xinc, p, mask);
    YRunNext(y, y2, x, error, dy, dx, xinc, x', error');
  }

  /**
   * The for loop of tpDrawLine's y-major case: from row y to y2, paint
   * the pixel at byte p under bit mask, then step to the next row and,
   * when the error term goes negative, one column by xinc (moving the
   * mask, and the byte when the mask runs out).  Its effect is the y-major
   * run from the loop's starting state.
   */
  method PaintYRun(b: array<bv8>, width: int, height: int, pitch: int, y: int, y2: int, x: int,
                   error: int, dy: int, dx: int, xinc: int, p: int, mask: bv8, color: bv8)
    requires pitch == Pitch(width) && pitch * height <= b.Length
    requires xinc == 1 || xinc == -1
    requires p == Index(pitch, Pixel(x, y)) && mask == Mask(x)
    requires AllInFrame(width, height, YRun(y, y2, x, error, dy, dx, xinc))
    modifies b
    ensures b[..] == ApplyPixels(old(b[..]), pitch, YRun(y, y2, x, error, dy, dx, xinc), color != 0)
  {
    var y, x, error, p, mask := y, x, error, p, mask;
    // the pixels still to draw, the first of them at (x, y)
    ghost var rest := YRun(y, y2, x, error, dy, dx, xinc);
    ghost var target := ApplyPixels(b[..], pitch, rest, color != 0);
    while y <= y2
      invariant rest == YRun(y, y2, x, error, dy, dx, xinc)
      invariant AllInFrame(width, height, rest)
      invariant p == Index(pitch, Pixel(x, y)) && mask == Mask(x)
      invariant target == ApplyPixels(b[..], pitch, rest, color != 0)
    {
      x, error, p, mask := PaintYStep(b, width, height, pitch, y, y2, x, error, dy, dx, xinc, p, mask, color);
      rest := rest[1..];
      y := y + 1;
    }
  }

  /** tpDrawLine's y-major case, on a line already ordered top to bottom. */
  method DrawYMajor(b: array<bv8>, width: int, height: int, pitch: int, n: Segment, color: bv8)
    requires pitch == Pitch(width) && pitch * height <= b.Length
    requires !n.XMajor() && n.y1 <= n.y2 && LineAccepted(width, height, n)
    modifies b
    ensures b[..] == DrawnLine(old(b[..]), width, height, n, color != 0)
  {
    var x1, y1, y2 := n.x1, n.y1, n.y2;
    var p := y1 * pitch + x1 / 8;
    var mask := Mask(x1);
    var dy := y2 - y1;
    var dx := n.x2 - x1;
    var error := dy / 2;
    var xinc := 1;
    if dx < 0 {
      dx := -dx;
      xinc := -1;
    }
    YRunIsLine(n);
    LineAllInFrame(n, width, height);
    PaintYRun(b, width, height, pitch, y1, y2, x1, error, dy, dx, xinc, p, mask, color);
  }

  /** The 8 bytes tpPrintBuffer assembles in ucTemp before the bitmap. */
  method BuildHeader(width: int, height: int) returns (header: array<bv8>)
    requires width >= 0 && height >= 0
    ensures fresh(header) && header[..] == Header(width, height)
  {
    header := new bv8[8];
    header[0], header[1], header[2], header[3] := 0x1d, 0x76, 0x30, 0x30; // GS 'v' '0' '0'
    header[4], header[5] := ByteOf(((width + 7) / 8) % 256), 0;
    header[6], header[7] := ByteOf(height % 256), ByteOf((height / 256) % 256);
  }

  /** memcpy of n glyph bytes from the font table at off into the front of temp. */
  method CopyGlyph(temp: array<bv8>, table: seq<bv8>, off: int, n: int)
    requires 0 <= n <= temp.Length && 0 <= off && off + n <= |table|
    modifies temp
    ensures temp[..n] == table[off..off + n] && temp[n..] == old(temp[n..])
  {
    forall j | 0 <= j < n {
      temp[j] := table[off + j];
    }
  }

  /**
   * The row loop of tpDrawText: for each glyph row, store its byte (or two
   * bytes for the 16x32 font) at d, then move d down one row.
   */
  method StoreGlyph(b: array<bv8>, pitch: int, d: int, f: Font, g: seq<bv8>)
    requires |g| == f.GlyphSize() && StoresWithin(b.Length, RowStores(f, pitch, d, g))
    modifies b
    ensures b[..] == ApplyStores(old(b[..]), RowStores(f, pitch, d, g))
  {
    ghost var target := ApplyStores(b[..], RowStores(f, pitch, d, g));
    var d, j, ty := d, 0, 0;
    while ty < f.Rows()
      invariant 0 <= ty <= f.Rows() && j == ty * f.RowBytes()
      invariant StoresWithin(b.Length, RowStores(f, pitch, d, g[j..]))
      invariant target == ApplyStores(b[..], RowStores(f, pitch, d, g[j..]))
    {
      b[d] := g[j];
      if f.Large? {
        b[d + 1] := g[j + 1];
      }
      d, j, ty := d + pitch, j + f.RowBytes(), ty + 1;
    }
  }

  /**
   * One character of tpDrawText: copy its glyph into the scratch buffer,
   * complement it there when inverting, and store it at the cursor (the
   * 8x8 font from the scratch copy, the 16x32 font from the table itself).
   */
  method DrawGlyph(b: array<bv8>, temp: array<bv8>, pitch: int, f: Font, o: Cursor, ch: char,
                   table: seq<bv8>, invert: bool)
    requires b != temp && temp.Length == 64
    requires TableFits(f, table) && FirstCode <= ch as int < FirstCode + GlyphCount
    requires StoresWithin(b.Length, RowStores(f, pitch, GlyphStart(pitch, o), GlyphBytes(f, table, ch, invert)))
    modifies b, temp
    ensures b[..] == ApplyStores(old(b[..]), RowStores(f, pitch, GlyphStart(pitch, o), GlyphBytes(f, table, ch, invert)))
  {
    var size := f.GlyphSize();
    var off := (ch as int - FirstCode) * size;
    MulMonotone(ch as int - FirstCode, GlyphCount - 1, size);
    CopyGlyph(temp, table, off, size);
    if invert {
      InvertBytes(temp, size);
    }
    var d := o.y * pitch + TruncDiv8(o.x);
    if f.Small? {
      assert temp[..8] == GlyphBytes(f, table, ch, invert);
      StoreGlyph(b, pitch, d, f, temp[..8]);
    } else {
      assert table[off..off + 64] == GlyphBytes(f, table, ch, invert);
      StoreGlyph(b, pitch, d, f, table[off..off + 64]);
    }
  }

  /**
   * One pass of tpDrawText's character loop: draw the first character of msg
   * at c, then advance the cursor, wrapping to column 0 one glyph row down
   * when it reaches the width with wrap on.
   */
  method DrawCharStep(b: array<bv8>, temp: array<bv8>, width: int, height: int, pitch: int, wrap: bool,
                      f: Font, c: Cursor, msg: seq<char>, table: seq<bv8>, invert: bool) returns (c': Cursor)
    requires b != temp && temp.Length == 64
    requires Printable(msg) && TableFits(f, table) && |msg| > 0 && InLoop(f, width, height, c)
    requires StoresWithin(b.Length, TextPlan(f, width, height, wrap, pitch, c, msg, table, invert))
    modifies b, temp
    ensures c' == Advanced(f, width, wrap, c) && Printable(msg[1..])
    ensures EndCursor(f, width, height, wrap, c', |msg| - 1) == EndCursor(f, width, height, wrap, c, |msg|)
    ensures StoresWithin(b.Length, TextPlan(f, width, height, wrap, pitch, c', msg[1..], table, invert))
    ensures ApplyStores(b[..], TextPlan(f, width, height, wrap, pitch, c', msg[1..], table, invert)) ==
      ApplyStores(old(b[..]), TextPlan(f, width, height, wrap, pitch, c, msg, table, invert))
  {
    TextPlanStep(f, width, height, wrap, pitch, c, msg, table, invert);
    ApplyStoresAppend(b[..], RowStores(f, pitch, GlyphStart(pitch, c), GlyphBytes(f, table, msg[0], invert)),
                      TextPlan(f, width, height, wrap, pitch, Advanced(f, width, wrap, c), msg[1..], table, invert));
    DrawGlyph(b, temp, pitch, f, c, msg[0], table, invert);
    c' := AdvanceCursor(f, width, wrap, c);
  }

  /** Move the cursor right one glyph; with wrap on, reaching the width starts the next glyph row at column 0. */
  method AdvanceCursor(f: Font, width: int, wrap: bool, c: Cursor) returns (c': Cursor)
    ensures c' == Advanced(f, width, wrap, c)
  {
    var x, y := c.x + f.Advance(), c.y;
    if x >= width && wrap {
      x, y := 0, y + f.Rows();
    }
    c' := Cursor(x, y);
  }

  /**
   * The character loop of tpDrawText: draw characters from cursor c while the
   * cursor is inside the limits and characters remain; the cursor reached is
   * returned.
   */
  method DrawChars(b: array<bv8>, temp: array<bv8>, width: int, height: int, pitch: int, wrap: bool,
                   f: Font, c: Cursor, msg: seq<char>, table: seq<bv8>, invert: bool) returns (c': Cursor)
    requires b != temp && temp.Length == 64
    requires Printable(msg) && TableFits(f, table)
    requires StoresWithin(b.Length, TextPlan(f, width, height, wrap, pitch, c, msg, table, invert))
    modifies b, temp
    ensures c' == EndCursor(f, width, height, wrap, c, |msg|)
    ensures b[..] == ApplyStores(old(b[..]), TextPlan(f, width, height, wrap, pitch, c, msg, table, invert))
  {
    ghost var target := ApplyStores(b[..], TextPlan(f, width, height, wrap, pitch, c, msg, table, invert));
    c' := c;
    var rest := msg;
    while c'.x < width && |rest| > 0 && c'.y < f.RowLimit(height)
      invariant Printable(rest)
      invariant EndCursor(f, width, height, wrap, c', |rest|) == EndCursor(f, width, height, wrap, c, |msg|)
      invariant StoresWithin(b.Length, TextPlan(f, width, height, wrap, pitch, c', rest, table, invert))
      invariant target == ApplyStores(b[..], TextPlan(f, width, height, wrap, pitch, c', rest, table, invert))
      decreases |rest|
    {
      c' := DrawCharStep(b, temp, width, height, pitch, wrap, f, c', rest, table, invert);
      assert |rest[1..]| == |rest| - 1;
      rest := rest[1..];
    }
    assert rest == [] || !InLoop(f, width, height, c');
    assert EndCursor(f, width, height, wrap, c', |rest|) == c';
    assert TextPlan(f, width, height, wrap, pitch, c', rest, table, invert) == [];
  }

  class Printer {
    var backBuffer: array?<bv8>
    var width: int
    var height: int
    var pitch: int
    var cursorX: int
    var cursorY: int
    var wrap: bool
    var connected: bool
    /** Whether the printer's data characteristic is known; writes go nowhere without it. */
    var characteristic: bool
    /** Everything sent to the printer so far, in order. */
    ghost var log: seq<Event>

    /** The geometry is consistent and the frame fits in the buffer. */
    predicate Valid()
      reads this
    {
      width >= 0 && height >= 0 && pitch == Pitch(width) &&
      (backBuffer != null ==> pitch * height <= backBuffer.Length)
    }

    /** The back buffer's bytes; empty when there is none. */
    ghost function Frame(): seq<bv8>
      reads this`backBuffer, backBuffer
    {
      if backBuffer == null then [] else backBuffer[..]
    }

    constructor ()
      ensures Valid()
      ensures backBuffer == null && width == 0 && height == 0
      ensures cursorX == 0 && cursorY == 0 && !wrap && !connected && !characteristic && log == []
    {
      backBuffer := null;
      width, height, pitch := 0, 0, 0;
      cursorX, cursorY := 0, 0;
      wrap, connected, characteristic := false, false, false;
      log := [];
    }

    /** Adopt a caller-owned buffer of width x height pixels; the pitch is width rounded up to whole bytes. */
    method SetBackBuffer(buffer: array?<bv8>, w: int, h: int)
      requires w >= 0 && h >= 0
      requires buffer != null ==> Pitch(w) * h <= buffer.Length
      modifies this`backBuffer, this`width, this`height, this`pitch
      ensures Valid()
      ensures backBuffer == buffer && width == w && height == h && pitch == Pitch(w)
      ensures 8 * pitch >= w > 8 * (pitch - 1)
    {
      backBuffer := buffer;
      width := w;
      height := h;
      pitch := (w + 7) / 8;
    }

    /** Set every byte of the frame (pitch * height bytes) to v; nothing happens without a buffer. */
    method Fill(v: bv8)
      requires Valid()
      modifies backBuffer
      ensures backBuffer != null ==>
        (forall i :: 0 <= i < pitch * height ==> backBuffer[i] == v) &&
        (forall i :: pitch * height <= i < backBuffer.Length ==> backBuffer[i] == old(backBuffer[i]))
    {
      if backBuffer != null {
        var n := pitch * height;
        forall i | 0 <= i < n {
          backBuffer[i] := v;
        }
      }
    }

    /** Any non-zero argument turns wrapping on. */
    method SetTextWrap(bWrap: int)
      modifies this`wrap
      ensures wrap <==> bWrap != 0
    {
      wrap := bWrap != 0;
    }

    /**
     * Draw msg at (x, y), or at the stored cursor when x or y is -1, in the
     * 8x8 (size 0) or 16x32 (size 1) font; -1 without drawing when the cursor
     * fails the early check or the size is unknown, otherwise 0 with the
     * cursor left after the last character drawn.
     */
    method DrawText(x: int, y: int, msg: seq<char>, fontSize: int, invert: int,
                    smallFont: seq<bv8>, largeFont: seq<bv8>) returns (r: int)
      requires Valid()
      requires Printable(msg) && TableFits(Small, smallFont) && TableFits(Large, largeFont)
      requires var c := StartCursor(x, y, Cursor(cursorX, cursorY));
        TextFont(c, width, height, fontSize).Some? ==>
          var f := TextFont(c, width, height, fontSize).value;
          backBuffer != null &&
          StoresWithin(backBuffer.Length, TextPlan(f, width, height, wrap, pitch, c, msg,
                                                   if f.Small? then smallFont else largeFont, invert != 0))
      modifies this`cursorX, this`cursorY, backBuffer
      ensures var c := StartCursor(x, y, Cursor(old(cursorX), old(cursorY)));
        match TextFont(c, width, height, fontSize)
        case None =>
          r == -1 && Cursor(cursorX, cursorY) == c && (backBuffer != null ==> backBuffer[..] == old(backBuffer[..]))
        case Some(f) =>
          r == 0 && Cursor(cursorX, cursorY) == EndCursor(f, width, height, wrap, c, |msg|) &&
          backBuffer[..] == ApplyStores(old(backBuffer[..]), TextPlan(f, width, height, wrap, pitch, c, msg,
                                                                        if f.Small? then smallFont else largeFont, invert != 0))
    {
      if x != -1 && y != -1 {
        cursorX, cursorY := x, y;
      }
      if cursorX >= width || cursorY >= height - 7 {
        return -1;
      }
      var f: Font;
      if fontSize == FontSmallTag {
        f := Small;
      } else if fontSize == FontLargeTag {
        f := Large;
      } else {
        return -1;
      }
      var table := if f.Small? then smallFont else largeFont;
      var temp := new bv8[64];
      var c := DrawChars(backBuffer, temp, width, height, pitch, wrap, f, Cursor(cursorX, cursorY), msg, table, invert != 0);
      cursorX, cursorY := c.x, c.y;
      return 0;
    }

    /**
     * Set (colour non-zero) or clear one pixel, with no bounds check beyond
     * the buffer's own extent; -1 when there is no buffer.
     */
    method SetPixel(x: int, y: int, color: bv8) returns (r: int)
      requires Valid()
      requires backBuffer != null ==> 0 <= Index(pitch, Pixel(x, y)) < backBuffer.Length
      modifies backBuffer
      ensures backBuffer == null ==> r == -1
      ensures backBuffer != null ==>
        r == 0 && backBuffer[..] == PaintPixel(old(backBuffer[..]), pitch, Pixel(x, y), color != 0)
    {
      if backBuffer == null {
        return -1;
      }
      var d := y * pitch + x / 8;
      var mask := Mask(x);
      backBuffer[d] := PaintByte(backBuffer[d], mask, color != 0);
      return 0;
    }

    /**
     * Draw the line between two pixels: nothing unless both endpoints lie in
     * the frame, otherwise the pixels of LinePixels, set or cleared.
     */
    method DrawLine(x1: int, y1: int, x2: int, y2: int, color: bv8)
      requires Valid()
      requires LineAccepted(width, height, Segment(x1, y1, x2, y2)) ==> backBuffer != null
      modifies backBuffer
      ensures backBuffer != null ==>
        backBuffer[..] == DrawnLine(old(backBuffer[..]), width, height, Segment(x1, y1, x2, y2), color != 0)
    {
      var s := Segment(x1, y1, x2, y2);
      if x1 < 0 || x2 < 0 || y1 < 0 || y2 < 0 || x1 >= width || x2 >= width || y1 >= height || y2 >= height {
        return;
      }
      var dx, dy := x2 - x1, y2 - y1;
      var n: Segment;
      if Abs(dx) > Abs(dy) {
        n := if x2 < x1 then Segment(x2, y2, x1, y1) else s;
        DrawXMajor(backBuffer, width, height, pitch, n, color);
      } else {
        n := if y1 > y2 then Segment(x2, y2, x1, y1) else s;
        DrawYMajor(backBuffer, width, height, pitch, n, color);
      }
      assert n == s.Normalized();
      LineNormalized(s);
    }

    /**
     * Connect to the printer found by a scan.  The radio's answers are
     * parameters: whether the printer's service is found, whether the link is
     * up, and whether the service has the data characteristic.  1 only when
     * all three hold.  A missing service clears the connection flag; a found
     * service on a live link replaces the characteristic, even by none, and
     * leaves an earlier connection flag set.
     */
    method Connect(serviceFound: bool, linkUp: bool, characteristicFound: bool) returns (r: int)
      modifies this`connected, this`characteristic
      ensures r == (if serviceFound && linkUp && characteristicFound then 1 else 0)
      ensures !serviceFound ==> !connected && characteristic == old(characteristic)
      ensures serviceFound && !linkUp ==> connected == old(connected) && characteristic == old(characteristic)
      ensures serviceFound && linkUp ==>
        characteristic == characteristicFound && connected == (characteristicFound || old(connected))
    {
      if serviceFound {
        if linkUp {
          characteristic := characteristicFound;
          if characteristicFound {
            connected := true;
            return 1;
          }
        }
      } else {
        connected := false;
      }
      return 0;
    }

    /** Drop the connection; the characteristic is kept, but nothing is written until a new connection. */
    method Disconnect()
      modifies this`connected
      ensures !connected
    {
      if connected {
        connected := false;
      }
    }

    /** Send bytes to the printer; dropped while not connected or without the data characteristic. */
    method WriteData(data: seq<bv8>)
      modifies this`log
      ensures log == if connected && characteristic then old(log) + [Write(data)] else old(log)
    {
      if !connected || !characteristic {
        return;
      }
      log := log + [Write(data)];
    }

    /** Pause for ms milliseconds between two writes. */
    method Wait(ms: int)
      modifies this`log
      ensures log == old(log) + [Delay(ms)]
    {
      log := log + [Delay(ms)];
    }

    /** Send row y of the buffer b, whose first byte is s, then pause for the printer. */
    method SendRow(b: array<bv8>, pitch: nat, y: nat, s: int)
      requires connected && s == y * pitch && (y + 1) * pitch <= b.Length
      modifies this`log
      ensures log == old(log) + Delivered([Write(FrameRow(b[..], pitch, y)), Delay(RowDelay(pitch))], characteristic)
    {
      MulNeighbours(y, pitch);
      WriteData(b[s..s + pitch]);
      Wait(1 + pitch / 8);
      ghost var row := [Write(FrameRow(b[..], pitch, y)), Delay(RowDelay(pitch))];
      assert row[1..][1..] == [];
      assert Delivered(row[1..], characteristic) == [row[1]] + Delivered(row[1..][1..], characteristic);
    }

    /**
     * The row loop of tpPrintBuffer: rows 0 to rows - 1 of the frame held in
     * b (there is no buffer only when there are no rows), each row's pitch
     * bytes followed by a pause.
     */
    method SendRows(b: array?<bv8>, ghost frame: seq<bv8>, pitch: nat, rows: nat)
      requires connected
      requires b == null ==> rows == 0
      requires b != null ==> frame == b[..]
      requires pitch * rows <= |frame|
      modifies this`log
      ensures log == old(log) + Delivered(RowEvents(frame, pitch, rows), characteristic)
    {
      var s := 0;
      var y := 0;
      while y < rows
        invariant 0 <= y <= rows && s == y * pitch
        invariant connected
        invariant log == old(log) + Delivered(RowEvents(frame, pitch, y), characteristic)
      {
        MulMonotone(y + 1, rows, pitch);
        SendRow(b, pitch, y, s);
        DeliveredAppend(RowEvents(frame, pitch, y), [Write(FrameRow(frame, pitch, y)), Delay(RowDelay(pitch))], characteristic);
        MulNeighbours(y, pitch);
        s := s + pitch;
        y := y + 1;
      }
    }

    /**
     * Send the frame as one raster-bit-image command: the 8-byte header, then
     * each row of pitch bytes followed by a pause; nothing while not
     * connected, and only the pauses while the data characteristic is missing.
     */
    method PrintBuffer()
      requires Valid()
      requires connected && height > 0 ==> backBuffer != null
      modifies this`log
      ensures connected ==> |Frame()| >= pitch * height
      ensures connected ==> log == old(log) + Delivered(PrintLog(Frame(), width, height), characteristic)
      ensures !connected ==> log == old(log)
    {
      if !connected {
        return;
      }
      var header := BuildHeader(width, height);
      WriteData(header[..]);
      SendRows(backBuffer, Frame(), pitch, height);
      PrintDelivered(Frame(), width, height, characteristic);
    }
  }
}
