/**
 * Text layout of tpDrawText: where each character's glyph goes, which bytes
 * it stores, and where the cursor ends up.
 *
 * The two glyph tables are external assets: one glyph per character code
 * 32..127, 8 bytes per glyph for the 8x8 font and 64 bytes (2 per row, 32
 * rows) for the 16x32 font.  Their contents are parameters here.
 */
module Glyphs {
  import opened Wrappers
  import opened Arith
  import opened Bits
  import Raster

  /** The font size tags accepted by tpDrawText. */
  const FontSmallTag: int := 0
  const FontLargeTag: int := 1

  /** Glyph tables start at code 32 and hold one glyph for each of the 96 codes 32..127. */
  const FirstCode: int := 32
  const GlyphCount: int := 96

  datatype Font = Small | Large
  {
    /** Pixels the cursor moves right per character. */
    function Advance(): int
    {
      if Small? then 8 else 16
    }

    /** Pixel rows of a glyph; also how far a wrap moves the cursor down. */
    function Rows(): int
    {
      if Small? then 8 else 32
    }

    /** Bytes a glyph covers in each pixel row. */
    function RowBytes(): int
    {
      if Small? then 1 else 2
    }

    /** Bytes per glyph in its table. */
    function GlyphSize(): (n: int)
      ensures n == Rows() * RowBytes() && Advance() == 8 * RowBytes()
    {
      if Small? then 8 else 64
    }

    /** The character loop runs while the cursor row is below this bound. */
    function RowLimit(height: int): int
    {
      if Small? then height else height - 31
    }
  }

  function FontOf(size: int): (f: Option<Font>)
    ensures f.Some? <==> size == FontSmallTag || size == FontLargeTag
  {
    if size == FontSmallTag then Some(Small)
    else if size == FontLargeTag then Some(Large)
    else None
  }

  datatype Cursor = Cursor(x: int, y: int)

  /** The position tpDrawText draws from: the stored cursor if x or y is -1, else (x, y). */
  function StartCursor(x: int, y: int, current: Cursor): (c: Cursor)
    ensures c == current || c == Cursor(x, y)
    ensures x == -1 || y == -1 ==> c == current
    ensures x != -1 && y != -1 ==> c == Cursor(x, y)
  {
    if x == -1 || y == -1 then current else Cursor(x, y)
  }

  /**
   * The early check of tpDrawText; it uses the 8x8 font's margin of 7 rows
   * for both fonts: it leaves room for the first 8x8 glyph, implies the 8x8
   * loop guard, and is implied by the 16x32 one.
   */
  predicate PreCheck(c: Cursor, width: int, height: int): (ok: bool)
    ensures ok ==> c.y + Small.Rows() <= height
    ensures ok ==> InLoop(Small, width, height, c)
    ensures InLoop(Large, width, height, c) ==> ok
  {
    c.x < width && c.y < height - 7
  }

  /** Cursor after one character: right by the glyph width, and with wrap on back to column 0 one glyph row down once it reaches the width. */
  function Advanced(f: Font, width: int, wrap: bool, c: Cursor): (c': Cursor)
    ensures c'.y >= c.y
    ensures wrap && c.x + f.Advance() >= width ==> c'.x == 0 && c'.y == c.y + f.Rows()
    ensures !(wrap && c.x + f.Advance() >= width) ==> c'.x == c.x + f.Advance() && c'.y == c.y
  {
    var x := c.x + f.Advance();
    if x >= width && wrap then Cursor(0, c.y + f.Rows()) else Cursor(x, c.y)
  }

  /**
   * The loop guard of tpDrawText's character loop, apart from the end of the
   * string: the cursor is inside the frame, and with the 16x32 font all 32
   * glyph rows fit above the bottom (the 8x8 guard gives no such room).
   */
  predicate InLoop(f: Font, width: int, height: int, c: Cursor): (ok: bool)
    ensures ok ==> c.x < width && c.y < height
    ensures f.Large? && ok ==> c.y + f.Rows() <= height
  {
    c.x < width && c.y < f.RowLimit(height)
  }

  /** Cursor positions at which the first n characters are drawn, until the guard fails. */
  function Origins(f: Font, width: int, height: int, wrap: bool, c: Cursor, n: nat): (os: seq<Cursor>)
    ensures |os| <= n
    ensures forall k :: 0 <= k < |os| ==> InLoop(f, width, height, os[k])
    decreases n
  {
    if n == 0 || !InLoop(f, width, height, c) then []
    else [c] + Origins(f, width, height, wrap, Advanced(f, width, wrap, c), n - 1)
  }

  /**
   * The cursor left behind after drawing up to n characters from c: never
   * before c in reading order, and strictly after it once a character is
   * drawn.
   */
  function EndCursor(f: Font, width: int, height: int, wrap: bool, c: Cursor, n: nat): (e: Cursor)
    ensures e.y > c.y || (e.y == c.y && e.x >= c.x)
    ensures n > 0 && InLoop(f, width, height, c) ==> e.y > c.y || (e.y == c.y && e.x > c.x)
    decreases n
  {
    if n == 0 || !InLoop(f, width, height, c) then c
    else EndCursor(f, width, height, wrap, Advanced(f, width, wrap, c), n - 1)
  }

  predicate Printable(msg: seq<char>)
  {
    forall i :: 0 <= i < |msg| ==> FirstCode <= msg[i] as int < FirstCode + GlyphCount
  }

  predicate TableFits(f: Font, table: seq<bv8>)
  {
    |table| >= GlyphCount * f.GlyphSize()
  }

  /** Offset of character ch's glyph in font f's table: (ch - 32) * glyph size. */
  function GlyphOffset(f: Font, ch: char): int
  {
    (ch as int - FirstCode) * f.GlyphSize()
  }

  /**
   * The bytes tpDrawText copies for ch: the glyph, complemented when
   * inverting with the 8x8 font.  The 16x32 path complements a scratch copy
   * but stores from the table itself, so its bytes never depend on invert.
   */
  function GlyphBytes(f: Font, table: seq<bv8>, ch: char, invert: bool): (g: seq<bv8>)
    requires TableFits(f, table) && FirstCode <= ch as int < FirstCode + GlyphCount
    ensures |g| == f.GlyphSize()
    ensures forall j :: 0 <= j < |g| ==>
      g[j] == if f.Small? && invert then !table[GlyphOffset(f, ch) + j] else table[GlyphOffset(f, ch) + j]
  {
    var off := GlyphOffset(f, ch);
    MulMonotone(ch as int - FirstCode, GlyphCount - 1, f.GlyphSize());
    var raw := table[off .. off + f.GlyphSize()];
    if f.Small? && invert then Inverted(raw) else raw
  }

  /** C's `x / 8` on an int, which truncates toward zero (a column of -3 gives byte 0). */
  function TruncDiv8(x: int): (q: int)
    ensures x >= 0 ==> 0 <= x - 8 * q < 8
    ensures x < 0 ==> -8 < x - 8 * q <= 0
  {
    if x >= 0 then x / 8 else -((-x) / 8)
  }

  /** Buffer offset of the top-left byte of a glyph drawn at o: row o.y, byte o.x / 8. */
  function GlyphStart(pitch: int, o: Cursor): int
  {
    o.y * pitch + TruncDiv8(o.x)
  }

  /**
   * A glyph drawn at a cursor right of column 0 starts in the byte holding
   * the cursor's pixel; a cursor less than 8 columns left of it starts in the
   * row's first byte, because the column is truncated toward zero.
   */
  lemma GlyphStartPixel(pitch: int, o: Cursor)
    ensures o.x >= 0 ==> GlyphStart(pitch, o) == Raster.Index(pitch, Raster.Pixel(o.x, o.y))
    ensures -8 < o.x < 0 ==> GlyphStart(pitch, o) == o.y * pitch
  {
  }

  /** One byte store into the back buffer. */
  datatype Store = Store(index: int, value: bv8)

  /**
   * The stores of glyph rows g from byte d on, in the order tpDrawText makes
   * them: row by row, the row's one byte (8x8 font) or two bytes (16x32
   * font), rows `pitch` bytes apart.
   */
  function RowStores(f: Font, pitch: int, d: int, g: seq<bv8>): (ws: seq<Store>)
    requires |g| % f.RowBytes() == 0
    ensures |ws| == |g|
    decreases |g|
  {
    if |g| == 0 then []
    else if f.Small? then [Store(d, g[0])] + RowStores(f, pitch, d + pitch, g[1..])
    else [Store(d, g[0]), Store(d + 1, g[1])] + RowStores(f, pitch, d + pitch, g[2..])
  }

  /** With the 8x8 font, glyph row t goes to byte d + t * pitch. */
  lemma {:induction false} SmallRowStoresAt(pitch: int, d: int, g: seq<bv8>, t: nat)
    requires t < |g|
    ensures RowStores(Small, pitch, d, g)[t] == Store(d + t * pitch, g[t])
    decreases t
  {
    var ws, tail := RowStores(Small, pitch, d, g), RowStores(Small, pitch, d + pitch, g[1..]);
    assert ws == [Store(d, g[0])] + tail;
    if t > 0 {
      SmallRowStoresAt(pitch, d + pitch, g[1..], t - 1);
      assert d + pitch + (t - 1) * pitch == d + t * pitch by { MulNeighbours(t - 1, pitch); }
      assert ws[t] == tail[t - 1] && g[t] == g[1..][t - 1];
    }
  }

  /** With the 16x32 font, byte c of glyph row t goes to byte d + t * pitch + c. */
  lemma {:induction false} LargeRowStoresAt(pitch: int, d: int, g: seq<bv8>, t: nat, c: nat)
    requires |g| % 2 == 0 && c < 2 && 2 * t + c < |g|
    ensures RowStores(Large, pitch, d, g)[2 * t + c] == Store(d + t * pitch + c, g[2 * t + c])
    decreases t
  {
    var ws, tail := RowStores(Large, pitch, d, g), RowStores(Large, pitch, d + pitch, g[2..]);
    assert ws == [Store(d, g[0]), Store(d + 1, g[1])] + tail;
    if t > 0 {
      LargeRowStoresAt(pitch, d + pitch, g[2..], t - 1, c);
      assert d + pitch + (t - 1) * pitch == d + t * pitch by { MulNeighbours(t - 1, pitch); }
      assert ws[2 * t + c] == tail[2 * (t - 1) + c] && g[2 * t + c] == g[2..][2 * (t - 1) + c];
    }
  }

  /** Byte c of glyph row t goes to byte d + t * pitch + c. */
  lemma RowStoresAt(f: Font, pitch: int, d: int, g: seq<bv8>, t: nat, c: nat)
    requires |g| % f.RowBytes() == 0 && c < f.RowBytes() && t * f.RowBytes() + c < |g|
    ensures RowStores(f, pitch, d, g)[t * f.RowBytes() + c] == Store(d + t * pitch + c, g[t * f.RowBytes() + c])
  {
    if f.Small? {
      SmallRowStoresAt(pitch, d, g, t);
    } else {
      LargeRowStoresAt(pitch, d, g, t, c);
    }
  }

  /** The stores of a whole string: each character's glyph at its origin, in order. */
  function TextStores(f: Font, pitch: int, os: seq<Cursor>, msg: seq<char>, table: seq<bv8>, invert: bool): (ws: seq<Store>)
    requires |os| <= |msg| && Printable(msg) && TableFits(f, table)
    ensures |ws| == |os| * f.GlyphSize()
    decreases |os|
  {
    if os == [] then []
    else
      RowStores(f, pitch, GlyphStart(pitch, os[0]), GlyphBytes(f, table, msg[0], invert))
        + TextStores(f, pitch, os[1..], msg[1..], table, invert)
  }

  /**
   * Every store of tpDrawText for msg in font f from cursor c: one glyph per
   * character at most, and none when the string is empty or the cursor fails
   * the loop guard.
   */
  function TextPlan(f: Font, width: int, height: int, wrap: bool, pitch: int, c: Cursor,
                    msg: seq<char>, table: seq<bv8>, invert: bool): (ws: seq<Store>)
    requires Printable(msg) && TableFits(f, table)
    ensures |ws| <= |msg| * f.GlyphSize()
    ensures msg == [] || !InLoop(f, width, height, c) ==> ws == []
  {
    TextStores(f, pitch, Origins(f, width, height, wrap, c, |msg|), msg, table, invert)
  }

  /** Drawing text that passes the loop guard is drawing its first glyph, then the rest from the advanced cursor. */
  lemma TextPlanStep(f: Font, width: int, height: int, wrap: bool, pitch: int, c: Cursor,
                     msg: seq<char>, table: seq<bv8>, invert: bool)
    requires Printable(msg) && TableFits(f, table) && |msg| > 0 && InLoop(f, width, height, c)
    ensures Printable(msg[1..])
    ensures TextPlan(f, width, height, wrap, pitch, c, msg, table, invert) ==
      RowStores(f, pitch, GlyphStart(pitch, c), GlyphBytes(f, table, msg[0], invert)) +
      TextPlan(f, width, height, wrap, pitch, Advanced(f, width, wrap, c), msg[1..], table, invert)
  {
    var os := Origins(f, width, height, wrap, c, |msg|);
    assert os == [c] + Origins(f, width, height, wrap, Advanced(f, width, wrap, c), |msg| - 1);
    assert os[1..] == Origins(f, width, height, wrap, Advanced(f, width, wrap, c), |msg[1..]|);
  }

  /** The font tpDrawText draws with, or None when it returns -1 without drawing. */
  function TextFont(c: Cursor, width: int, height: int, size: int): (f: Option<Font>)
    ensures f.Some? <==> PreCheck(c, width, height) && FontOf(size).Some?
  {
    if PreCheck(c, width, height) then FontOf(size) else None
  }

  /** All stores address bytes 0 .. n - 1. */
  predicate StoresWithin(n: int, ws: seq<Store>)
    decreases |ws|
  {
    ws == [] || (0 <= ws[0].index < n && StoresWithin(n, ws[1..]))
  }

  lemma {:induction false} StoresWithinAppend(n: int, ws: seq<Store>, ws': seq<Store>)
    ensures StoresWithin(n, ws + ws') <==> StoresWithin(n, ws) && StoresWithin(n, ws')
    decreases |ws|
  {
    if ws != [] {
      assert (ws + ws')[1..] == ws[1..] + ws';
      StoresWithinAppend(n, ws[1..], ws');
    } else {
      assert ws + ws' == ws';
    }
  }

  /** Perform the stores in order. */
  function ApplyStores(b: seq<bv8>, ws: seq<Store>): (r: seq<bv8>)
    requires StoresWithin(|b|, ws)
    ensures |r| == |b|
    decreases |ws|
  {
    if ws == [] then b else ApplyStores(b[ws[0].index := ws[0].value], ws[1..])
  }

  /** Performing ws then ws' is performing ws + ws'. */
  lemma {:induction false} ApplyStoresAppend(b: seq<bv8>, ws: seq<Store>, ws': seq<Store>)
    requires StoresWithin(|b|, ws + ws')
    ensures StoresWithin(|b|, ws) && StoresWithin(|b|, ws')
    ensures ApplyStores(b, ws + ws') == ApplyStores(ApplyStores(b, ws), ws')
    decreases |ws|
  {
    StoresWithinAppend(|b|, ws, ws');
    if ws != [] {
      assert (ws + ws')[1..] == ws[1..] + ws';
      ApplyStoresAppend(b[ws[0].index := ws[0].value], ws[1..], ws');
    } else {
      assert ws + ws' == ws';
    }
  }

  /** Byte-wise reference: the value of the last store to index i, or the old byte if none. */
  function LastStored(before: bv8, ws: seq<Store>, i: int): bv8
    decreases |ws|
  {
    if ws == [] then before
    else LastStored(if ws[0].index == i then ws[0].value else before, ws[1..], i)
  }

  lemma {:induction false} ApplyStoresAt(b: seq<bv8>, ws: seq<Store>, i: int)
    requires StoresWithin(|b|, ws) && 0 <= i < |b|
    ensures ApplyStores(b, ws)[i] == LastStored(b[i], ws, i)
    decreases |ws|
  {
    if ws != [] {
      ApplyStoresAt(b[ws[0].index := ws[0].value], ws[1..], i);
    }
  }

  /** A byte that no store addresses keeps its value. */
  lemma {:induction false} LastStoredNone(before: bv8, ws: seq<Store>, i: int)
    requires forall j :: 0 <= j < |ws| ==> ws[j].index != i
    ensures LastStored(before, ws, i) == before
    decreases |ws|
  {
    if ws != [] {
      LastStoredNone(before, ws[1..], i);
    }
  }

  /** A byte addressed by exactly one store ends with that store's value. */
  lemma {:induction false} LastStoredUnique(before: bv8, ws: seq<Store>, i: int, j: int)
    requires 0 <= j < |ws| && ws[j].index == i
    requires forall j' :: 0 <= j' < |ws| && j' != j ==> ws[j'].index != i
    ensures LastStored(before, ws, i) == ws[j].value
    decreases |ws|
  {
    if j == 0 {
      LastStoredNone(ws[0].value, ws[1..], i);
    } else {
      LastStoredUnique(before, ws[1..], i, j - 1);
    }
  }

  /**
   * A glyph drawn on its own: each of its bytes ends up at the byte its store
   * addresses (RowStoresAt says which), provided rows do not overlap (a row
   * is at least as long as a glyph row).
   */
  lemma GlyphPlaced(f: Font, pitch: int, d: int, g: seq<bv8>, b: seq<bv8>, j: nat)
    requires |g| % f.RowBytes() == 0 && pitch >= f.RowBytes() && j < |g|
    requires StoresWithin(|b|, RowStores(f, pitch, d, g))
    ensures var i := RowStores(f, pitch, d, g)[j].index;
      0 <= i < |b| && ApplyStores(b, RowStores(f, pitch, d, g))[i] == g[j]
  {
    var ws := RowStores(f, pitch, d, g);
    StoresWithinAt(|b|, ws, j);
    var i := ws[j].index;
    RowStoresValue(f, pitch, d, g, j);
    RowStoresOnly(f, pitch, d, g, j);
    ApplyStoresAt(b, ws, i);
    LastStoredUnique(b[i], ws, i, j);
  }

  /** Store j of a glyph writes glyph byte j. */
  lemma RowStoresValue(f: Font, pitch: int, d: int, g: seq<bv8>, j: nat)
    requires |g| % f.RowBytes() == 0 && j < |g|
    ensures RowStores(f, pitch, d, g)[j].value == g[j]
  {
    var w := f.RowBytes();
    assert j == (j / w) * w + j % w;
    RowStoresAt(f, pitch, d, g, j / w, j % w);
  }

  /** When rows do not overlap, store j of a glyph is the only one to its byte. */
  lemma RowStoresOnly(f: Font, pitch: int, d: int, g: seq<bv8>, j: nat)
    requires |g| % f.RowBytes() == 0 && pitch >= f.RowBytes() && j < |g|
    ensures var ws := RowStores(f, pitch, d, g);
      forall j' :: 0 <= j' < |ws| && j' != j ==> ws[j'].index != ws[j].index
  {
    var ws := RowStores(f, pitch, d, g);
    forall j' | 0 <= j' < |ws| && j' != j
      ensures ws[j'].index != ws[j].index
    {
      RowStoresDistinct(f, pitch, d, g, j, j');
    }
  }

  /** When rows do not overlap, no two stores of a glyph address the same byte. */
  lemma RowStoresDistinct(f: Font, pitch: int, d: int, g: seq<bv8>, j: nat, j': nat)
    requires |g| % f.RowBytes() == 0 && pitch >= f.RowBytes() && j < |g| && j' < |g| && j != j'
    ensures RowStores(f, pitch, d, g)[j].index != RowStores(f, pitch, d, g)[j'].index
  {
    var w := f.RowBytes();
    var t, c, t', c' := j / w, j % w, j' / w, j' % w;
    assert j == t * w + c && j' == t' * w + c';
    RowStoresAt(f, pitch, d, g, t, c);
    RowStoresAt(f, pitch, d, g, t', c');
    if RowStores(f, pitch, d, g)[j].index == RowStores(f, pitch, d, g)[j'].index {
      RowMajorInjective(pitch, t, c, t', c');
    }
  }

  /** Every store of a sequence within n addresses a byte below n. */
  lemma {:induction false} StoresWithinAt(n: int, ws: seq<Store>, j: nat)
    requires StoresWithin(n, ws) && j < |ws|
    ensures 0 <= ws[j].index < n
    decreases j
  {
    if j > 0 {
      StoresWithinAt(n, ws[1..], j - 1);
    }
  }

  /** The same stores with every value complemented. */
  function Complemented(ws: seq<Store>): (r: seq<Store>)
    ensures |r| == |ws|
    ensures forall j :: 0 <= j < |ws| ==> r[j].index == ws[j].index && r[j].value == !ws[j].value
    decreases |ws|
  {
    if ws == [] then [] else [Store(ws[0].index, !ws[0].value)] + Complemented(ws[1..])
  }

  lemma {:induction false} ComplementedAppend(ws: seq<Store>, ws': seq<Store>)
    ensures Complemented(ws + ws') == Complemented(ws) + Complemented(ws')
    decreases |ws|
  {
    if ws == [] {
      assert ws + ws' == ws';
    } else {
      assert (ws + ws')[1..] == ws[1..] + ws';
      ComplementedAppend(ws[1..], ws');
    }
  }

  /** Storing complemented glyph bytes makes the same stores with complemented values. */
  lemma RowStoresInverted(f: Font, pitch: int, d: int, g: seq<bv8>)
    requires |g| % f.RowBytes() == 0
    ensures RowStores(f, pitch, d, Inverted(g)) == Complemented(RowStores(f, pitch, d, g))
  {
    var w, ig := f.RowBytes(), Inverted(g);
    var r, r' := RowStores(f, pitch, d, ig), Complemented(RowStores(f, pitch, d, g));
    forall j | 0 <= j < |g|
      ensures r[j] == r'[j]
    {
      var t, c := j / w, j % w;
      assert j == t * w + c;
      RowStoresAt(f, pitch, d, g, t, c);
      RowStoresAt(f, pitch, d, ig, t, c);
    }
  }

  /**
   * With the 8x8 font, inverting makes exactly the stores of the plain text,
   * at the same bytes and in the same order, with every value complemented.
   */
  lemma {:induction false} SmallTextInverted(pitch: int, os: seq<Cursor>, msg: seq<char>, table: seq<bv8>)
    requires |os| <= |msg| && Printable(msg) && TableFits(Small, table)
    ensures TextStores(Small, pitch, os, msg, table, true) == Complemented(TextStores(Small, pitch, os, msg, table, false))
    decreases |os|
  {
    if os != [] {
      var d := GlyphStart(pitch, os[0]);
      var plain := GlyphBytes(Small, table, msg[0], false);
      assert GlyphBytes(Small, table, msg[0], true) == Inverted(plain);
      RowStoresInverted(Small, pitch, d, plain);
      SmallTextInverted(pitch, os[1..], msg[1..], table);
      ComplementedAppend(RowStores(Small, pitch, d, plain), TextStores(Small, pitch, os[1..], msg[1..], table, false));
    }
  }

  /** With the 16x32 font the invert flag changes nothing that is stored. */
  lemma {:induction false} LargeTextIgnoresInvert(pitch: int, os: seq<Cursor>, msg: seq<char>, table: seq<bv8>)
    requires |os| <= |msg| && Printable(msg) && TableFits(Large, table)
    ensures TextStores(Large, pitch, os, msg, table, true) == TextStores(Large, pitch, os, msg, table, false)
    decreases |os|
  {
    if os != [] {
      assert GlyphBytes(Large, table, msg[0], true) == GlyphBytes(Large, table, msg[0], false);
      LargeTextIgnoresInvert(pitch, os[1..], msg[1..], table);
    }
  }

  /** The cursor left behind is the one the last character drawn advanced to, or the start if none was drawn. */
  lemma {:induction false} EndCursorAfterLast(f: Font, width: int, height: int, wrap: bool, c: Cursor, n: nat)
    ensures var os := Origins(f, width, height, wrap, c, n);
      EndCursor(f, width, height, wrap, c, n) == if os == [] then c else Advanced(f, width, wrap, os[|os| - 1])
    decreases n
  {
    if n > 0 && InLoop(f, width, height, c) {
      var c1 := Advanced(f, width, wrap, c);
      EndCursorAfterLast(f, width, height, wrap, c1, n - 1);
      var os1 := Origins(f, width, height, wrap, c1, n - 1);
      assert Origins(f, width, height, wrap, c, n) == [c] + os1;
    }
  }

  /** Without wrap, the k-th character is drawn k glyph widths right of the start, on the same row. */
  lemma {:induction false} NoWrapOrigins(f: Font, width: int, height: int, c: Cursor, n: nat, k: nat)
    requires k < |Origins(f, width, height, false, c, n)|
    ensures Origins(f, width, height, false, c, n)[k] == Cursor(c.x + k * f.Advance(), c.y)
    decreases n
  {
    if k > 0 {
      var c1 := Advanced(f, width, false, c);
      NoWrapOrigins(f, width, height, c1, n - 1, k - 1);
      MulNeighbours(k - 1, f.Advance());
    }
  }

  /**
   * With wrap on and a width of m whole glyphs, characters are laid out in
   * glyph rows of m: the k-th character drawn from glyph column j sits in
   * column (j + k) % m of glyph row (j + k) / m below the start.
   */
  lemma {:induction false} WrapOriginsFrom(f: Font, width: int, height: int, c: Cursor, n: nat, m: int, j: int, k: nat)
    requires m >= 1 && width == m * f.Advance() && 0 <= j < m && c.x == j * f.Advance()
    requires k < |Origins(f, width, height, true, c, n)|
    ensures Origins(f, width, height, true, c, n)[k] ==
      Cursor(((j + k) % m) * f.Advance(), c.y + ((j + k) / m) * f.Rows())
    decreases n
  {
    var a, r := f.Advance(), f.Rows();
    if k == 0 {
      DivModUnique(j, m, 0, j);
      assert Origins(f, width, height, true, c, n)[0] == c;
      assert ((j + 0) / m) * r == 0;
      assert Origins(f, width, height, true, c, n)[k] == Cursor(((j + k) % m) * a, c.y + ((j + k) / m) * r);
    } else if j + 1 < m {
      MulNeighbours(j, a);
      MulMonotone(j + 1, m - 1, a);
      MulNeighbours(m - 1, a);
      var c1 := Cursor((j + 1) * a, c.y);
      assert Advanced(f, width, true, c) == c1;
      assert Origins(f, width, height, true, c, n)[k] == Origins(f, width, height, true, c1, n - 1)[k - 1];
      WrapOriginsFrom(f, width, height, c1, n - 1, m, j + 1, k - 1);
      assert (j + 1) + (k - 1) == j + k;
      assert Origins(f, width, height, true, c, n)[k] == Cursor(((j + k) % m) * a, c.y + ((j + k) / m) * r);
    } else {
      var q, s := (k - 1) / m, (k - 1) % m;
      assert (j + k) / m == q + 1 && (j + k) % m == s by {
        assert j + k == (k - 1) + m;
        DivAddDivisor(k - 1, m);
      }
      assert c.y + (q + 1) * r == (c.y + r) + q * r by {
        MulNeighbours(q, r);
      }
      MulNeighbours(j, a);
      var c1 := Cursor(0, c.y + r);
      assert Advanced(f, width, true, c) == c1;
      assert Origins(f, width, height, true, c, n)[k] == Origins(f, width, height, true, c1, n - 1)[k - 1];
      WrapOriginsFrom(f, width, height, c1, n - 1, m, 0, k - 1);
      assert Origins(f, width, height, true, c, n)[k] == Cursor(((j + k) % m) * a, c.y + ((j + k) / m) * r);
    }
  }

  /**
   * With wrap on and a width of m whole glyphs, text started at column 0
   * fills glyph rows of m characters: the k-th character sits at column
   * k % m of glyph row k / m.
   */
  lemma WrapOrigins(f: Font, width: int, height: int, c: Cursor, n: nat, m: int, k: nat)
    requires m >= 1 && width == m * f.Advance() && c.x == 0
    requires k < |Origins(f, width, height, true, c, n)|
    ensures Origins(f, width, height, true, c, n)[k] == Cursor((k % m) * f.Advance(), c.y + (k / m) * f.Rows())
  {
    WrapOriginsFrom(f, width, height, c, n, m, 0, k);
  }

  /**
   * The early check leaves 7 rows below the cursor for either font, but the
   * 16x32 loop needs 31: from rows height - 31 to height - 8 a large-font call
   * passes the check and then draws nothing, leaving the cursor where it was.
   */
  lemma LargeFontCheckGap(c: Cursor, width: int, height: int, msg: seq<char>, wrap: bool)
    requires c.x < width && height - 31 <= c.y < height - 7
    ensures TextFont(c, width, height, FontLargeTag) == Some(Large)
    ensures Origins(Large, width, height, wrap, c, |msg|) == []
    ensures EndCursor(Large, width, height, wrap, c, |msg|) == c
  {
  }

  /** A store outside [0, n) makes the whole list leave the buffer. */
  lemma {:induction false} StoresOutside(n: int, ws: seq<Store>, j: nat)
    requires j < |ws| && !(0 <= ws[j].index < n)
    ensures !StoresWithin(n, ws)
    decreases j
  {
    if j > 0 {
      StoresOutside(n, ws[1..], j - 1);
    }
  }

  /**
   * The 8x8 loop tests only the cursor row against the height, not the
   * glyph's last row.  With wrap on, a character at the end of a text row
   * that starts 9 to 15 rows above the bottom passes the early check, and the
   * next character wraps 8 rows down and writes its lower rows past the
   * pitch * height bytes of the frame.
   */
  lemma SmallFontOverrun(width: int, height: int, pitch: int, c: Cursor, msg: seq<char>, table: seq<bv8>)
    requires 0 < width && pitch >= 0 && width - 8 <= c.x < width && 0 <= c.y && height - 16 < c.y < height - 8
    requires |msg| >= 2 && Printable(msg) && TableFits(Small, table)
    ensures PreCheck(c, width, height)
    ensures !StoresWithin(pitch * height, TextPlan(Small, width, height, true, pitch, c, msg, table, false))
  {
    var c' := Cursor(0, c.y + 8);
    var g := GlyphBytes(Small, table, msg[1], false);
    var d := GlyphStart(pitch, c');
    var w1 := RowStores(Small, pitch, d, g);
    assert w1[7].index >= pitch * height by {
      SmallRowStoresAt(pitch, d, g, 7);
      assert d == (c.y + 8) * pitch;
      MulAdd(c.y + 8, 7, pitch);
      MulMonotone(height, c.y + 15, pitch);
    }
    assert Advanced(Small, width, true, c) == c';
    TextPlanStep(Small, width, height, true, pitch, c, msg, table, false);
    TextPlanStep(Small, width, height, true, pitch, c', msg[1..], table, false);
    assert msg[1..][0] == msg[1];
    var w0 := RowStores(Small, pitch, GlyphStart(pitch, c), GlyphBytes(Small, table, msg[0], false));
    var rest := TextPlan(Small, width, height, true, pitch, Advanced(Small, width, true, c'), msg[1..][1..], table, false);
    var plan := TextPlan(Small, width, height, true, pitch, c, msg, table, false);
    assert plan == w0 + (w1 + rest);
    StoresOutside(pitch * height, w1, 7);
    StoresWithinAppend(pitch * height, w1, rest);
    StoresWithinAppend(pitch * height, w0, w1 + rest);
  }
}
