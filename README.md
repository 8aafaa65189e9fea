# Thermal_Printer: a verified model of the back buffer, drawing and print encoder

This project models the drawing and printing core of the Thermal_Printer
library for BLE thermal receipt printers (`Thermal_Printer.cpp`):

- a caller-owned 1-bit-per-pixel back buffer of `pitch = (width + 7) >> 3` bytes per
  row, leftmost pixel in the most significant bit;
- `tpSetBackBuffer`, `tpFill` and `tpSetTextWrap`;
- `tpSetPixel`;
- the integer (Bresenham) line of `tpDrawLine`, with its incremental byte pointer and bit mask;
- the 8x8 and 16x32 fixed-font text of `tpDrawText`, with its cursor, word wrap and
  inversion, and its helper `InvertBytes`;
- the print encoder `tpPrintBuffer`, which sends the ESC/POS raster bit-image command
  "GS v 0" (`1d 76 30 30 xL xH yL yH`, then the bitmap) through `tpWriteData` one row
  at a time, with a pause after each row.

The driver's file-level state (`pBackBuffer`, `bb_width`, `bb_height`, `bb_pitch`,
`iCursorX`, `iCursorY`, `tp_wrap`, `bConnected`) is the class
`ThermalPrinter.Printer`. Whether `pRemoteCharacteristicData` is set is its
`characteristic` flag. The buffer is an `array<bv8>` that the methods change in
place. Everything sent to the printer is recorded in a ghost `log` of writes and
pauses.

The loops of the source are methods with loop invariants. Each is proved against a
pure specification, and the properties are then proved about that specification:

- **Lines.** `Raster.LinePixels` is a closed-form reference pixel set of the line.
  `tpDrawLine`'s two pointer/mask loops are proved to paint exactly that set, through
  the step-by-step runs `Raster.XRun` and `Raster.YRun`.
- **Text.** `Glyphs.TextPlan` lists every byte store `tpDrawText` makes, in order.
  `Glyphs.ApplyStores` performs the stores, and `Glyphs.EndCursor` gives the cursor
  left behind.
- **Printing.** `Protocol.PrintLog` is the event stream `tpPrintBuffer` produces.
  `Protocol.DecodePrint` is a printer's reading of that stream.

Modules:

- `Bits` covers masks, painting a bit, and complementing bytes.
- `Raster` covers pixel addressing and the reference line.
- `RasterDraw` covers the effect of a line on a frame.
- `Glyphs` covers text layout and glyph stores.
- `Protocol` covers the header and the print stream.
- `ThermalPrinter` holds the imperative code and the `Printer` class.
- `Arith` and `Wrappers` are helpers.

Some behaviours of the code are easy to misread. The model follows the code as
written:

- The early text check (line 124) uses a 7-row margin for both fonts. The 16x32
  character loop (line 155) needs 31 rows, so a 16x32 call can pass the check and
  draw nothing (`Glyphs.LargeFontCheckGap`).
- The 16x32 font stores from the font table, not from the inverted copy
  (lines 157-166), so it ignores the invert flag.
- The stored cursor is used when `x` **or** `y` is -1 (line 116).
- Header byte 5, the width's high byte, is always 0 (line 306).
- A second `tpConnect` that finds the service on a live link but no data
  characteristic clears `pRemoteCharacteristicData` (line 219) and leaves
  `bConnected` set. A print then sends nothing, yet still pauses after every row
  (`Protocol.PrintWithoutCharacteristic`).

Some functions carry no contract of their own and are stated by lemmas:
`Raster.Index` by `InFrameIndex`, `IndexNeighbours` and `IndexInjective`;
`Raster.XRun` and `Raster.YRun` by their `Step`, `Pixel` and `IsLine` lemmas;
`Raster.Step` and `Raster.Steps` by `StepsLast`, `StepClosed` and `StepsClosed`;
`Protocol.Delivered` by the `Delivered*` lemmas;
`Glyphs.GlyphOffset`, the table offset `(ch - 32) * 8` or `* 64` (lines 133 and 157),
by the `ensures` of `Glyphs.GlyphBytes`;
`Glyphs.GlyphStart`, the address `y * pitch + x / 8` (lines 136 and 160), by
`Glyphs.GlyphStartPixel`, `Glyphs.TruncDiv8` and `ThermalPrinter.DrawGlyph`.

## Model

| member | source | states |
|---|---|---|
| Bits.ByteOf | Thermal_Printer.cpp:306-307 | a value 0..255 stored into a byte reads back as the same number |
| Bits.Mask | Thermal_Printer.cpp:189 | the mask `0x80 >> (x & 7)` has exactly one bit set; it is 0x80 exactly at byte-aligned columns and 0x01 exactly at the last column of a byte |
| Bits.MaskIsShift | Thermal_Printer.cpp:189 | the mask table agrees with `0x80 >> (x % 8)` for every x |
| Bits.MaskDisjoint | Thermal_Printer.cpp:189 | two columns' masks share a bit if and only if the columns are congruent mod 8 |
| Bits.MaskShiftRight | Thermal_Printer.cpp:360-363 | `mask >>= 1` gives the next column's mask within the byte; it becomes 0 exactly when leaving the byte, where the next byte's mask is 0x80 |
| Bits.MaskShiftLeft | Thermal_Printer.cpp:420-425 | `mask <<= 1` in 8 bits gives the previous column's mask; it becomes 0 exactly when leaving the byte, where the previous byte's mask is 0x01 |
| Bits.PaintByte | Thermal_Printer.cpp:190-193 | `b \|= m` / `b &= ~m`: the bits of m take the colour, every other bit of b is kept |
| Bits.Inverted | Thermal_Printer.cpp:98-106 | every byte is replaced by its complement (disjoint bits, union 0xff) |
| Bits.InvertedInvolution | Thermal_Printer.cpp:98-106 | inverting twice gives the bytes back |
| ThermalPrinter.InvertBytes | Thermal_Printer.cpp:98-106 | the loop complements the first len bytes in place and leaves the rest of the array untouched |
| Raster.Pitch | Thermal_Printer.cpp:76 | `(width + 7) >> 3` bytes hold width bits, with fewer than 8 bits to spare |
| Raster.PitchIsCeiling | Thermal_Printer.cpp:76 | no smaller whole number of bytes holds width bits |
| Raster.PitchExamples | Thermal_Printer.cpp:68-69 | a 384-pixel row is 48 bytes; 385 pixels need 49 |
| ThermalPrinter.Printer.constructor | Thermal_Printer.cpp:31-40 | initial state: no buffer, cursor (0, 0), wrap off, not connected, no data characteristic, nothing sent |
| ThermalPrinter.Printer.SetBackBuffer | Thermal_Printer.cpp:71-77 | binds the buffer and size, pitch is the ceiling of width / 8, and the cursor, wrap flag and connection are untouched |
| ThermalPrinter.Printer.Fill | Thermal_Printer.cpp:83-87 | every one of the pitch * height frame bytes becomes v and bytes past the frame keep their value; nothing happens without a buffer |
| ThermalPrinter.Printer.SetTextWrap | Thermal_Printer.cpp:91-94 | wrap is on exactly when the argument is non-zero |
| Raster.InFrameIndex | Thermal_Printer.cpp:188 | a pixel inside width x height addresses a byte among the first pitch * height |
| Raster.IndexNeighbours | Thermal_Printer.cpp:360-372 | one pixel right/left moves the byte offset by the change of x >> 3, one row down/up by ±pitch |
| Raster.IndexInjective | Thermal_Printer.cpp:188 | two pixels inside the pitch share a byte only on the same row and byte column |
| Raster.PaintPixel | Thermal_Printer.cpp:188-193 | only bit `Mask(x)` of byte `pitch * y + (x >> 3)` changes and it takes the colour; every other byte is unchanged |
| Raster.PaintPixelEffect | Thermal_Printer.cpp:188-193 | after painting p, pixel p has the colour and every other pixel reads as before |
| ThermalPrinter.Printer.SetPixel | Thermal_Printer.cpp:182-195 | -1 and no change without a buffer; otherwise 0 and the buffer is PaintPixel of the old one |
| Raster.ApplyPixels | Thermal_Printer.cpp:355-428 | painting a pixel sequence keeps the buffer's length |
| Raster.ApplyPixelsStep | Thermal_Printer.cpp:355-402 | painting a run from position k is painting pixel k, then the pixels after it |
| Raster.ApplyPixelsEffect | Thermal_Printer.cpp:355-428 | after painting a pixel sequence, exactly its pixels have the colour and every other pixel is as before |
| Raster.ApplyPixelsElsewhere | Thermal_Printer.cpp:355-428 | a byte no pixel addresses is unchanged |
| Raster.Segment.XMajor | Thermal_Printer.cpp:333 | a line is stepped by columns only when its endpoints differ in x: a vertical line is stepped by rows, a horizontal one by columns |
| Raster.Segment.Normalized | Thermal_Printer.cpp:333-386 | the endpoints are swapped, if needed, so the major coordinate increases; the major axis is unchanged |
| Raster.LinePixels | Thermal_Printer.cpp:333-429 | the reference line has one pixel per major step: \|dx\| + 1 pixels when x-major, \|dy\| + 1 otherwise |
| Raster.Minor | Thermal_Printer.cpp:346-373 | the minor offset after k major steps: always 0 for a flat line, k for a 45-degree diagonal |
| Raster.LineError | Thermal_Printer.cpp:346-373 | the error accumulator after k major steps stays in [0, major) |
| Raster.MinorUnique | Thermal_Printer.cpp:346-373 | the error bracket determines the minor offset uniquely |
| Raster.MinorStep | Thermal_Printer.cpp:365-408 | one loop step: the offset moves by one exactly when `error - minor` goes negative, and then major is added back |
| Raster.MinorEnds | Thermal_Printer.cpp:333-429 | the minor offset starts at 0 and ends at the full minor distance |
| Raster.MinorRange | Thermal_Printer.cpp:333-429 | the minor offset stays between the endpoints' offsets |
| Raster.MinorNearIdeal | Thermal_Printer.cpp:346-391 | each offset is within half a pixel of the exact k * minor / major |
| Raster.LineReversal | Thermal_Printer.cpp:335-386 | the line from (x2, y2) to (x1, y1) has the very same pixels as from (x1, y1) to (x2, y2) |
| Raster.LineNormalized | Thermal_Printer.cpp:335-386 | reordering the endpoints first does not change the line |
| Raster.LineEndpoints | Thermal_Printer.cpp:355-398 | the line starts and ends at the (reordered) endpoints and contains both requested endpoints |
| Raster.LineOnePerStep | Thermal_Printer.cpp:355-398 | x-major: one pixel in each column from min x to max x; y-major: one in each row from min y to max y |
| Raster.XMajorPixelAt | Thermal_Printer.cpp:355-374 | the k-th pixel of a left-to-right x-major line is column x1 + k, with the row moved Minor(k) towards y2 |
| Raster.YMajorPixelAt | Thermal_Printer.cpp:398-428 | the k-th pixel of a top-to-bottom y-major line is row y1 + k, with the column moved Minor(k) towards x2 |
| Raster.LineNearIdeal | Thermal_Printer.cpp:333-429 | every pixel is within half a pixel of the ideal line |
| Raster.XRunStep | Thermal_Printer.cpp:355-374 | one pass of the x-major loop plots (x, y), then continues from the next column with the updated row and error |
| Raster.XRunNext | Thermal_Printer.cpp:365-373 | the x-major run after its first pixel, given the row and error the loop moves to |
| Raster.YRunStep | Thermal_Printer.cpp:398-428 | one pass of the y-major loop plots (x, y), then continues from the next row with the updated column and error |
| Raster.YRunNext | Thermal_Printer.cpp:404-427 | the y-major run after its first pixel, given the column and error the loop moves to |
| Raster.StepsLast | Thermal_Printer.cpp:365-427 | j + 1 loop steps are j steps followed by one more |
| Raster.StepClosed | Thermal_Printer.cpp:365-427 | one loop step from the closed form after k steps gives the closed form after k + 1 |
| Raster.StepsClosed | Thermal_Printer.cpp:346-427 | started with error major >> 1, after j steps the loop's minor coordinate and error equal the closed forms Minor(j) and LineError(j) |
| Raster.XRunPixel | Thermal_Printer.cpp:355-374 | the x-major loop plots one pixel per column, the j-th in the row reached after j steps |
| Raster.YRunPixel | Thermal_Printer.cpp:398-428 | the y-major loop plots one pixel per row, the j-th in the column reached after j steps |
| Raster.XRunIsLine | Thermal_Printer.cpp:345-374 | the x-major loop, started as tpDrawLine starts it, visits exactly the reference line's pixels, in order |
| Raster.YRunIsLine | Thermal_Printer.cpp:388-428 | the y-major loop, started as tpDrawLine starts it, visits exactly the reference line's pixels, in order |
| Raster.LineConnected | Thermal_Printer.cpp:355-428 | consecutive pixels are 8-connected |
| Raster.LineInFrame | Thermal_Printer.cpp:330-331 | a line whose endpoints are in the frame stays in the frame |
| Raster.LineVertical | Thermal_Printer.cpp:376-428 | a vertical line is the column from min y to max y and nothing else |
| Raster.LineHorizontal | Thermal_Printer.cpp:333-374 | a horizontal line is the row from min x to max x and nothing else |
| RasterDraw.LineAccepted | Thermal_Printer.cpp:330-331 | a line is drawn only in a non-empty frame, and both endpoints then address bytes among the first pitch * height |
| RasterDraw.LineAllInFrame | Thermal_Printer.cpp:330-331 | every pixel of an accepted line is in the frame |
| RasterDraw.LineWithin | Thermal_Printer.cpp:330-388 | every pixel of an accepted line addresses a frame byte, and its column lies within the pitch |
| RasterDraw.DrawnLine | Thermal_Printer.cpp:330-331 | a line with an endpoint outside [0, width) x [0, height) leaves the buffer unchanged |
| RasterDraw.DrawnLineEffect | Thermal_Printer.cpp:321-430 | after tpDrawLine every pixel of an accepted line has the colour and every other bit of the frame, padding included, is as before |
| RasterDraw.DrawnLineBeyondFrame | Thermal_Printer.cpp:321-430 | bytes from pitch * height on are never touched |
| RasterDraw.DrawnLineReversal | Thermal_Printer.cpp:335-386 | drawing (x2, y2) -> (x1, y1) gives the same buffer as (x1, y1) -> (x2, y2) |
| RasterDraw.FilledPixels | Thermal_Printer.cpp:83-87 | after a fill with v, pixel (x, y) reads as bit x & 7 of v: all on for 0xff, all off for 0 |
| ThermalPrinter.NextColumn | Thermal_Printer.cpp:360-416 | the pointer/mask pair moves to the pixel one column right |
| ThermalPrinter.PreviousColumn | Thermal_Printer.cpp:420-425 | the pointer/mask pair moves to the pixel one column left |
| ThermalPrinter.PaintFirst | Thermal_Printer.cpp:356-402 | painting through the pointer and mask is painting the next pixel of the run |
| ThermalPrinter.AdvanceX | Thermal_Printer.cpp:360-373 | after one x-major step, p and mask address pixel (x + 1, y'), and y' and the error follow the Bresenham rule |
| ThermalPrinter.AdvanceY | Thermal_Printer.cpp:403-427 | after one y-major step, p and mask address pixel (x', y + 1), and x' and the error follow the Bresenham rule |
| ThermalPrinter.PaintXStep | Thermal_Printer.cpp:355-374 | one pass of the x-major loop paints the first pixel still to draw and leaves the state of the rest of the run |
| ThermalPrinter.PaintXRun | Thermal_Printer.cpp:355-374 | the x-major loop's effect is to paint its run |
| ThermalPrinter.DrawXMajor | Thermal_Printer.cpp:345-374 | tpDrawLine's x-major case leaves exactly DrawnLine of the old buffer |
| ThermalPrinter.PaintYStep | Thermal_Printer.cpp:398-428 | one pass of the y-major loop paints the first pixel still to draw and leaves the state of the rest of the run |
| ThermalPrinter.PaintYRun | Thermal_Printer.cpp:398-428 | the y-major loop's effect is to paint its run |
| ThermalPrinter.DrawYMajor | Thermal_Printer.cpp:388-428 | tpDrawLine's y-major case leaves exactly DrawnLine of the old buffer |
| ThermalPrinter.Printer.DrawLine | Thermal_Printer.cpp:321-430 | the buffer afterwards is DrawnLine of the old one: the reference line painted when both endpoints are in the frame, otherwise unchanged |
| Glyphs.FontOf | Thermal_Printer.cpp:127-177 | only size 0 (8x8) and size 1 (16x32) select a font |
| Glyphs.TextFont | Thermal_Printer.cpp:116-177 | tpDrawText gets past its early check, and returns 0, exactly when the cursor passes that check (x < width, y < height - 7) and the font size is known; it may still draw nothing (`LargeFontCheckGap`, an empty string) |
| Glyphs.StartCursor | Thermal_Printer.cpp:116-123 | the stored cursor when x or y is -1, otherwise (x, y) |
| Glyphs.PreCheck | Thermal_Printer.cpp:124-125 | the early check leaves room for a whole 8x8 glyph above the bottom, implies the 8x8 loop guard and is implied by the 16x32 one |
| Glyphs.InLoop | Thermal_Printer.cpp:130-155 | a character is drawn only with the cursor left of the right edge and above the bottom row (a negative cursor passes); for 16x32 all 32 glyph rows fit above the bottom |
| Glyphs.Advanced | Thermal_Printer.cpp:142-172 | with wrap on, reaching the width moves the cursor to column 0 one glyph row down; otherwise it moves right by one glyph width on the same row; it never moves up |
| ThermalPrinter.AdvanceCursor | Thermal_Printer.cpp:142-172 | the step-by-step cursor update of the source (add the glyph width, then wrap), proved equal to its specification Advanced: right by 8 or 16, or with wrap on back to x = 0 and down 8 or 32 once the width is reached |
| Glyphs.WrapOriginsFrom | Thermal_Printer.cpp:142-172 | with wrap on and a width of m glyphs, starting at glyph column j, character k is drawn at column (j + k) mod m, (j + k) / m glyph rows down |
| Glyphs.WrapOrigins | Thermal_Printer.cpp:142-172 | with wrap on and a width of m glyphs, text from column 0 fills rows of m glyphs: character k is at column k mod m, k / m glyph rows down |
| Glyphs.Origins | Thermal_Printer.cpp:130-155 | at most one glyph per character, each drawn at a cursor that passes the loop guard |
| Glyphs.EndCursor | Thermal_Printer.cpp:130-174 | the cursor left behind is never before the start in reading order, and strictly after it once a character is drawn |
| Glyphs.EndCursorAfterLast | Thermal_Printer.cpp:130-174 | the cursor left behind is the last drawn character's advanced cursor, or the start when nothing is drawn |
| Glyphs.NoWrapOrigins | Thermal_Printer.cpp:142-167 | without wrap, the k-th character is drawn k glyph widths right of the start, on the same row |
| Glyphs.GlyphBytes | Thermal_Printer.cpp:133-164 | the glyph's bytes are table[(c - 32) * size ..][..size], complemented only for the 8x8 font when inverting |
| Glyphs.TruncDiv8 | Thermal_Printer.cpp:136-160 | C's `iCursorX / 8` truncates toward zero, for negative x too |
| Glyphs.GlyphStartPixel | Thermal_Printer.cpp:136-160 | a glyph at a cursor with x >= 0 starts in the byte holding the cursor's pixel; with -8 < x < 0 it starts in the row's first byte |
| Glyphs.RowStores | Thermal_Printer.cpp:137-166 | a glyph makes one store per glyph byte |
| Glyphs.TextStores | Thermal_Printer.cpp:130-174 | every character drawn makes exactly one glyph's worth of stores (8 or 64) |
| Glyphs.SmallRowStoresAt | Thermal_Printer.cpp:137-141 | 8x8 glyph row t is stored at byte d + t * pitch |
| Glyphs.LargeRowStoresAt | Thermal_Printer.cpp:161-166 | byte c of 16x32 glyph row t is stored at byte d + t * pitch + c |
| Glyphs.RowStoresAt | Thermal_Printer.cpp:137-166 | byte c of glyph row t goes to byte d + t * pitch + c, for either font |
| Glyphs.RowStoresValue | Thermal_Printer.cpp:137-166 | store j of a glyph writes glyph byte j |
| Glyphs.RowStoresDistinct | Thermal_Printer.cpp:137-166 | with pitch at least the glyph row width, no two stores of a glyph hit the same byte |
| Glyphs.RowStoresOnly | Thermal_Printer.cpp:137-166 | with pitch at least the glyph row width, store j is the only one to its byte |
| Glyphs.GlyphPlaced | Thermal_Printer.cpp:136-166 | after drawing a glyph, each glyph byte is in the byte its store addresses |
| Glyphs.TextPlan | Thermal_Printer.cpp:127-176 | at most one glyph's stores per character; none for an empty string or a cursor that fails the loop guard |
| Glyphs.TextPlanStep | Thermal_Printer.cpp:130-174 | drawing text whose cursor passes the loop guard is drawing the first glyph at the cursor, then the rest from the advanced cursor |
| Glyphs.StoresWithinAppend | Thermal_Printer.cpp:137-166 | a list of stores stays inside the buffer if and only if both of its parts do |
| Glyphs.ApplyStoresAppend | Thermal_Printer.cpp:130-174 | doing two lists of stores one after the other is doing their concatenation |
| Glyphs.ApplyStores | Thermal_Printer.cpp:137-166 | performing stores keeps the buffer's length |
| Glyphs.ApplyStoresAt | Thermal_Printer.cpp:137-166 | each byte ends with the value of the last store to it, or its old value |
| Glyphs.LastStoredNone | Thermal_Printer.cpp:137-166 | a byte no store addresses keeps its value |
| Glyphs.LastStoredUnique | Thermal_Printer.cpp:137-166 | a byte addressed by exactly one store ends with that store's value |
| Glyphs.StoresWithinAt | Thermal_Printer.cpp:137-166 | every store of a list inside the buffer addresses a byte of it |
| Glyphs.StoresOutside | Thermal_Printer.cpp:137-141 | one store outside the buffer puts the whole list outside |
| Glyphs.Complemented | Thermal_Printer.cpp:135 | the same stores at the same bytes with complemented values |
| Glyphs.ComplementedAppend | Thermal_Printer.cpp:135 | complementing distributes over concatenation |
| Glyphs.RowStoresInverted | Thermal_Printer.cpp:135-141 | storing a complemented glyph makes the plain glyph's stores with complemented values |
| Glyphs.SmallTextInverted | Thermal_Printer.cpp:130-149 | with the 8x8 font, inverted text makes the plain text's stores, same bytes and order, every value complemented |
| Glyphs.LargeTextIgnoresInvert | Thermal_Printer.cpp:157-166 | with the 16x32 font the invert flag changes nothing that is stored |
| Glyphs.LargeFontCheckGap | Thermal_Printer.cpp:124-155 | a 16x32 call with height - 31 <= y < height - 7 passes the early check, draws nothing and leaves the cursor where it was |
| Glyphs.SmallFontOverrun | Thermal_Printer.cpp:124-147 | with wrap on, an 8x8 string starting at the row end 9 to 15 rows above the bottom passes the check but stores past the pitch * height frame bytes |
| ThermalPrinter.CopyGlyph | Thermal_Printer.cpp:134-158 | the memcpy puts the glyph's bytes at the front of the scratch buffer and leaves the rest |
| ThermalPrinter.StoreGlyph | Thermal_Printer.cpp:137-166 | the row loop's effect is exactly the glyph's stores, performed in order |
| ThermalPrinter.DrawGlyph | Thermal_Printer.cpp:132-166 | drawing one character performs exactly its glyph's stores at byte `y * pitch + x / 8` (8x8 from the inverted copy, 16x32 from the table) |
| ThermalPrinter.DrawCharStep | Thermal_Printer.cpp:130-174 | one pass of the character loop draws the first character and advances the cursor, leaving the plan of the rest |
| ThermalPrinter.DrawChars | Thermal_Printer.cpp:130-174 | the character loop performs exactly the text's stores and stops at EndCursor |
| ThermalPrinter.Printer.DrawText | Thermal_Printer.cpp:111-178 | the stored cursor is used when x or y is -1, else (x, y) becomes the cursor; -1 with no drawing when the check fails or the size is unknown; otherwise 0, the buffer gets exactly the text's stores and the cursor is left after the last character |
| Protocol.Header | Thermal_Printer.cpp:304-307 | 8 bytes beginning `1d 76 30 30` |
| Protocol.ParseHeader | Thermal_Printer.cpp:302-303 | a header is recognised exactly when it has 8 bytes and the GS v 0 0 preamble; both sizes are 16-bit |
| Protocol.LittleEndian16 | Thermal_Printer.cpp:307 | the low byte and `>> 8` byte of the height encode it modulo 65536 |
| Protocol.HeaderDecodes | Thermal_Printer.cpp:304-307 | a printer reads the width as pitch mod 256 (high byte hard-wired to 0) and the height mod 65536 |
| Protocol.HeaderRoundTrip | Thermal_Printer.cpp:304-307 | for pitch < 256 and height < 65536 the header decodes back to (pitch, height) |
| Protocol.HeaderWidthTruncated | Thermal_Printer.cpp:306 | for pitch >= 256 (wider than 2040 pixels) the decoded width is wrong |
| Protocol.HeaderExample | Thermal_Printer.cpp:304-307 | a 384 x 200 frame gives `1d 76 30 30 30 00 c8 00` |
| ThermalPrinter.BuildHeader | Thermal_Printer.cpp:304-307 | the bytes assembled in ucTemp are exactly Header(width, height) |
| Protocol.RowDelay | Thermal_Printer.cpp:314 | the pause is 1 ms plus 1 ms per whole 8 bytes of the row |
| Protocol.RowDelayMonotone | Thermal_Printer.cpp:314 | the pause after a row is at least 1 ms and never shrinks as rows get wider |
| Protocol.FrameRow | Thermal_Printer.cpp:313 | row y is the pitch bytes starting at y * pitch |
| Protocol.RowEvents | Thermal_Printer.cpp:311-316 | the row loop produces two events per row |
| Protocol.RowEventsAt | Thermal_Printer.cpp:311-316 | event 2y writes row y, event 2y + 1 is the row pause |
| Protocol.RowEventsLayout | Thermal_Printer.cpp:311-316 | row events alternate: every even position writes row i / 2, every odd position is the pause 1 + pitch / 8 |
| Protocol.PrintLog | Thermal_Printer.cpp:302-316 | the stream has 1 + 2 * height events, starts with the header write, and its writes carry the header then the pitch * height bitmap bytes |
| Protocol.PrintLogLayout | Thermal_Printer.cpp:308-316 | the stream is the header write followed by the row events, 1 + 2 * height events |
| Protocol.AppendEvents | Thermal_Printer.cpp:308-316 | write counts and payloads add up over concatenation |
| Protocol.RowEventsPayload | Thermal_Printer.cpp:310-316 | the row writes are height writes carrying the frame's first pitch * height bytes in order |
| Protocol.Bitmap | Thermal_Printer.cpp:303 | the bitmap is pitch * height bytes |
| Protocol.PrintRoundTrip | Thermal_Printer.cpp:295-317 | the stream has height + 1 writes and a printer decodes it back to the frame's size and its first pitch * height bytes |
| Protocol.DeliveredAppend | Thermal_Printer.cpp:285-316 | what reaches the printer of two streams sent one after the other is what reaches it of each |
| Protocol.DeliveredAll | Thermal_Printer.cpp:285-290 | with the data characteristic known, every event reaches the printer |
| Protocol.DeliveredPausesOnly | Thermal_Printer.cpp:285-290 | without it, no write gets through and every pause remains |
| Protocol.PrintDelivered | Thermal_Printer.cpp:302-316 | a print delivers the header write only with the characteristic known, then the row events as delivered |
| Protocol.RowPauses | Thermal_Printer.cpp:310-316 | without the characteristic, the row loop delivers exactly one pause of 1 + pitch / 8 ms per row |
| Protocol.PrintWithoutCharacteristic | Thermal_Printer.cpp:295-316 | without the characteristic, a print delivers exactly height pauses and nothing else |
| ThermalPrinter.Printer.Connect | Thermal_Printer.cpp:200-234 | 1 exactly when the service, the link and the characteristic are all found; a missing service clears the connection flag; a found service on a live link sets the characteristic to what was found, and sets the flag only when it is found, leaving an earlier flag set otherwise |
| ThermalPrinter.Printer.Disconnect | Thermal_Printer.cpp:236-243 | the connection flag is cleared |
| ThermalPrinter.Printer.WriteData | Thermal_Printer.cpp:285-290 | a write is appended to the log when connected with the data characteristic known, and dropped otherwise |
| ThermalPrinter.Printer.Wait | Thermal_Printer.cpp:314 | a pause is appended to the log |
| ThermalPrinter.Printer.SendRow | Thermal_Printer.cpp:313-315 | one pass of the row loop logs row y's bytes if the characteristic is known, then its pause in any case |
| ThermalPrinter.Printer.SendRows | Thermal_Printer.cpp:310-316 | the row loop logs exactly the delivered row events of the frame, top to bottom |
| ThermalPrinter.Printer.PrintBuffer | Thermal_Printer.cpp:295-317 | nothing is sent when not connected; otherwise exactly PrintLog as delivered: the header and each row followed by its pause with the characteristic known, only the pauses without it |

## Left out

- BLE discovery and the radio side of connection (`tpScan`, the advertised-device callback, `createClient`, `connect`, `getService`, `getCharacteristic`) are I/O through the vendor BLE library. `Printer.Connect` takes their answers as parameters. `tpScan` also clears `bConnected` (line 263); scanning is not modelled, and `Printer.Disconnect` gives the same flag change.
- ThermalPrinter.Printer.Disconnect: `pClient` is not modelled. It is set (line 202) before `bConnected` can become 1, so the model takes it as non-null whenever the flag is set.
- `writeValue` is a foreign call. A write is an event in the ghost log. The characteristic is modelled only by whether it is known, not as a pointer.
- `delay` is recorded as a pause event with its length in milliseconds, not as time passing.
- `Serial` logging, the UUID constants and the scan state are left out.
- The font tables `ucFont` and `ucBigFont` are external assets. They are parameters (`seq<bv8>`) holding at least 96 glyphs (codes 32..127) of 8 or 64 bytes.
- `Thermal_Printer.h` is not part of this model. `FONT_SMALL` is taken as 0 and `FONT_LARGE` as 1.
- 32-bit `int` overflow of coordinates, `pitch * height` and the cursor is not modelled. Integers are unbounded.
- The NUL-terminated string is a `seq<char>`: its end is the terminator. The source reads past its font tables for characters below 32 or above 127. `Printer.DrawText` requires every character in 32..127 (`Printable`).
- ThermalPrinter.Printer.DrawText: the source does not check for a missing buffer, and the 8x8 loop can store past the frame after a wrap (`SmallFontOverrun`). Both would be memory errors in the source. Instead, a call that passes the early check with a known font size requires a buffer, even when it then stores nothing (an empty string, or the `LargeFontCheckGap` band), and requires every store of the plan to be inside it (`StoresWithin`). Stores past the pitch * height frame bytes but inside the array are modelled.
- ThermalPrinter.Printer.DrawLine: the source does not check for a missing buffer. The model requires one when both endpoints are in the frame.
- ThermalPrinter.Printer.PrintBuffer: the source does not check for a missing buffer. The model requires one when connected and the height is positive.
- ThermalPrinter.Printer.SetPixel: the source has no bounds check. It requires the addressed byte to be inside the buffer.
- ThermalPrinter.Printer.PrintBuffer: models tpWriteData reading `pitch` bytes per row from the buffer. It requires the buffer to hold `pitch * height` bytes.
- ThermalPrinter.DrawGlyph: `InvertBytes` on the 16x32 path complements a scratch copy that is never read. `DrawGlyph` performs that inversion but stores from the table, as the source does.
- Misaligned text positions are modelled as written: a glyph row goes to byte `x / 8` (truncated toward zero), whatever the bit offset of x.
