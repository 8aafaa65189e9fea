/**
 * The print encoder's output: the ESC/POS raster bit-image command
 * "GS v 0" (0x1d 'v' '0' m xL xH yL yH, then the bitmap), sent as one
 * header write followed by one write per pixel row, each row followed by a
 * pause so that the printer's small receive buffer is not flooded.
 */
module Protocol {
  import opened Wrappers
  import opened Arith
  import opened Bits
  import Raster

  /** 0x1d 'v' '0' '0': raster bit image in normal (unscaled) mode. */
  const Preamble: seq<bv8> := [0x1d, 0x76, 0x30, 0x30]

  /**
   * The 8 header bytes tpPrintBuffer sends.  Byte 4 is the row width in
   * bytes cut to 8 bits and byte 5 is always 0; bytes 6 and 7 are the height,
   * low byte first.
   */
  function Header(width: int, height: int): (h: seq<bv8>)
    requires width >= 0 && height >= 0
    ensures |h| == 8 && h[..4] == Preamble
  {
    Preamble + [ByteOf(Raster.Pitch(width) % 256), 0, ByteOf(height % 256), ByteOf((height / 256) % 256)]
  }

  /** What a printer reads from a raster header: bytes per row and number of rows. */
  datatype RasterHeader = RasterHeader(rowBytes: int, rows: int)

  /** Decode a raster bit-image header; both sizes are little-endian 16-bit. */
  function ParseHeader(h: seq<bv8>): (r: Option<RasterHeader>)
    ensures r.Some? <==> |h| == 8 && h[..4] == Preamble
    ensures r.Some? ==> 0 <= r.value.rowBytes < 65536 && 0 <= r.value.rows < 65536
  {
    if |h| == 8 && h[..4] == Preamble then
      Some(RasterHeader(h[4] as int + 256 * h[5] as int, h[6] as int + 256 * h[7] as int))
    else None
  }

  /** Two bytes, low first, hold a non-negative number modulo 65536. */
  lemma LittleEndian16(n: int)
    requires n >= 0
    ensures n % 256 + 256 * ((n / 256) % 256) == n % 65536
  {
    var a, r0 := n / 256, n % 256;
    var q, r1 := a / 256, a % 256;
    assert n == 65536 * q + (256 * r1 + r0);
    DivModUnique(n, 65536, q, 256 * r1 + r0);
  }

  /** What the printer reads from the header tpPrintBuffer sends: the row width modulo 256 and the height modulo 65536. */
  lemma HeaderDecodes(width: int, height: int)
    requires width >= 0 && height >= 0
    ensures ParseHeader(Header(width, height)) == Some(RasterHeader(Raster.Pitch(width) % 256, height % 65536))
  {
    var h := Header(width, height);
    LittleEndian16(height);
    assert h[4] as int == Raster.Pitch(width) % 256 && h[5] as int == 0;
    assert h[6] as int == height % 256 && h[7] as int == (height / 256) % 256;
  }

  /** For a printer at most 2040 pixels wide and 65535 rows tall the header round-trips. */
  lemma HeaderRoundTrip(width: int, height: int)
    requires width >= 0 && 0 <= height < 65536 && Raster.Pitch(width) < 256
    ensures ParseHeader(Header(width, height)) == Some(RasterHeader(Raster.Pitch(width), height))
  {
    HeaderDecodes(width, height);
    DivModUnique(Raster.Pitch(width), 256, 0, Raster.Pitch(width));
    DivModUnique(height, 65536, 0, height);
  }

  /** Wider than 2040 pixels, the hard-wired zero high byte makes the printer read the wrong row width. */
  lemma HeaderWidthTruncated(width: int, height: int)
    requires width >= 0 && height >= 0 && Raster.Pitch(width) >= 256
    ensures ParseHeader(Header(width, height)).value.rowBytes != Raster.Pitch(width)
  {
    HeaderDecodes(width, height);
  }

  /** A 384 x 200 buffer gives 1d 76 30 30 30 00 c8 00. */
  lemma HeaderExample()
    ensures Header(384, 200) == [0x1d, 'v' as bv8, '0' as bv8, '0' as bv8, 48, 0, 200, 0]
  {
    assert ByteOf(48) == 48 && ByteOf(200) == 200 && ByteOf(0) == 0;
    assert Raster.Pitch(384) % 256 == 48 && 200 % 256 == 200 && (200 / 256) % 256 == 0;
  }

  /** What the transport sees: a write of some bytes, or a pause of some milliseconds. */
  datatype Event = Write(data: seq<bv8>) | Delay(ms: int)

  /** The pause after each row, 1 + pitch / 8 milliseconds: one millisecond, plus one for every whole 8 bytes of the row. */
  function RowDelay(pitch: int): (ms: int)
    ensures pitch >= 0 ==> 8 * (ms - 1) <= pitch < 8 * ms
  {
    1 + pitch / 8
  }

  /** The pause is at least 1 ms and never shrinks as rows get wider. */
  lemma RowDelayMonotone(p: int, q: int)
    requires 0 <= p <= q
    ensures 1 <= RowDelay(p) <= RowDelay(q)
  {
  }

  /** Row y of a frame: bytes [y * pitch, (y + 1) * pitch). */
  function FrameRow(frame: seq<bv8>, pitch: nat, y: nat): (row: seq<bv8>)
    requires (y + 1) * pitch <= |frame|
    ensures |row| == pitch
  {
    MulMonotone(y, y + 1, pitch);
    frame[y * pitch .. (y + 1) * pitch]
  }

  /** The transport events for the first `rows` rows: each row's bytes, then its pause. */
  function RowEvents(frame: seq<bv8>, pitch: nat, rows: nat): (es: seq<Event>)
    requires pitch * rows <= |frame|
    ensures |es| == 2 * rows
    decreases rows
  {
    if rows == 0 then []
    else
      MulMonotone(rows - 1, rows, pitch);
      RowEvents(frame, pitch, rows - 1) + [Write(FrameRow(frame, pitch, rows - 1)), Delay(RowDelay(pitch))]
  }

  /**
   * Everything tpPrintBuffer hands to a connected transport: the header
   * write first, a write and a pause per row, and the bytes written are the
   * header followed by the frame's bitmap.
   */
  function PrintLog(frame: seq<bv8>, width: nat, height: nat): (log: seq<Event>)
    requires Raster.Pitch(width) * height <= |frame|
    ensures |log| == 1 + 2 * height && log[0] == Write(Header(width, height))
    ensures Payload(log) == Header(width, height) + frame[..Raster.Pitch(width) * height]
  {
    var hw, rows := [Write(Header(width, height))], RowEvents(frame, Raster.Pitch(width), height);
    RowEventsPayload(frame, Raster.Pitch(width), height);
    AppendEvents(hw, rows);
    assert hw[1..] == [];
    hw + rows
  }

  lemma {:induction false} RowEventsAt(frame: seq<bv8>, pitch: nat, rows: nat, i: nat)
    requires pitch * rows <= |frame| && i < 2 * rows
    ensures (i / 2 + 1) * pitch <= |frame|
    ensures RowEvents(frame, pitch, rows)[i] ==
      if i % 2 == 0 then Write(FrameRow(frame, pitch, i / 2)) else Delay(RowDelay(pitch))
    decreases rows
  {
    MulMonotone(i / 2 + 1, rows, pitch);
    if i < 2 * (rows - 1) {
      MulMonotone(rows - 1, rows, pitch);
      RowEventsAt(frame, pitch, rows - 1, i);
    }
  }

  /** Row events alternate: position i is a write of exactly row i / 2 when i is even, the row pause when odd. */
  lemma RowEventsLayout(frame: seq<bv8>, pitch: nat, rows: nat)
    requires pitch * rows <= |frame|
    ensures var es := RowEvents(frame, pitch, rows);
      forall i :: 0 <= i < |es| ==>
        (i / 2 + 1) * pitch <= |frame| &&
        es[i] == if i % 2 == 0 then Write(FrameRow(frame, pitch, i / 2)) else Delay(RowDelay(pitch))
  {
    forall i | 0 <= i < 2 * rows
      ensures (i / 2 + 1) * pitch <= |frame|
      ensures RowEvents(frame, pitch, rows)[i] ==
        if i % 2 == 0 then Write(FrameRow(frame, pitch, i / 2)) else Delay(RowDelay(pitch))
    {
      RowEventsAt(frame, pitch, rows, i);
    }
  }

  /** The print stream is the header write followed by the row events, rows top to bottom. */
  lemma PrintLogLayout(frame: seq<bv8>, width: nat, height: nat)
    requires Raster.Pitch(width) * height <= |frame|
    ensures var log := PrintLog(frame, width, height);
      |log| == 1 + 2 * height && log[0] == Write(Header(width, height)) &&
      log[1..] == RowEvents(frame, Raster.Pitch(width), height)
  {
    var log := PrintLog(frame, width, height);
    assert log[1..] == RowEvents(frame, Raster.Pitch(width), height);
  }

  /** Number of writes among the events. */
  function WriteCount(es: seq<Event>): nat
  {
    if es == [] then 0 else (if es[0].Write? then 1 else 0) + WriteCount(es[1..])
  }

  /** The bytes written, concatenated in order. */
  function Payload(es: seq<Event>): seq<bv8>
  {
    if es == [] then [] else (if es[0].Write? then es[0].data else []) + Payload(es[1..])
  }

  lemma {:induction false} AppendEvents(a: seq<Event>, b: seq<Event>)
    ensures WriteCount(a + b) == WriteCount(a) + WriteCount(b)
    ensures Payload(a + b) == Payload(a) + Payload(b)
  {
    if a == [] {
      assert a + b == b;
    } else {
      assert (a + b)[1..] == a[1..] + b;
      AppendEvents(a[1..], b);
    }
  }

  /** Row writes carry the frame's first pitch * rows bytes, one write per row. */
  lemma {:induction false} RowEventsPayload(frame: seq<bv8>, pitch: nat, rows: nat)
    requires pitch * rows <= |frame|
    ensures WriteCount(RowEvents(frame, pitch, rows)) == rows
    ensures Payload(RowEvents(frame, pitch, rows)) == frame[..pitch * rows]
    decreases rows
  {
    if rows > 0 {
      var lo, hi := (rows - 1) * pitch, rows * pitch;
      assert lo + pitch == hi && pitch * (rows - 1) == lo && pitch * rows == hi;
      var row := FrameRow(frame, pitch, rows - 1);
      assert row == frame[lo..hi];
      var last := [Write(row), Delay(RowDelay(pitch))];
      RowEventsPayload(frame, pitch, rows - 1);
      AppendEvents(RowEvents(frame, pitch, rows - 1), last);
      assert last[1..][1..] == [];
      assert Payload(last[1..]) == [] + Payload(last[1..][1..]);
      assert WriteCount(last[1..]) == 0 + WriteCount(last[1..][1..]);
      assert Payload(last) == row && WriteCount(last) == 1;
      assert frame[..lo] + frame[lo..hi] == frame[..hi];
    }
  }

  /**
   * What reaches the printer of a stream of events: all of it while the data
   * characteristic is known, otherwise only the pauses, because every write
   * is dropped while the pauses still happen.
   */
  function Delivered(es: seq<Event>, writable: bool): seq<Event>
  {
    if es == [] then []
    else (if es[0].Write? && !writable then [] else [es[0]]) + Delivered(es[1..], writable)
  }

  lemma {:induction false} DeliveredAppend(a: seq<Event>, b: seq<Event>, writable: bool)
    ensures Delivered(a + b, writable) == Delivered(a, writable) + Delivered(b, writable)
  {
    if a == [] {
      assert a + b == b;
    } else {
      var head := if a[0].Write? && !writable then [] else [a[0]];
      assert (a + b)[0] == a[0] && (a + b)[1..] == a[1..] + b;
      DeliveredAppend(a[1..], b, writable);
      assert Delivered(a + b, writable) == head + (Delivered(a[1..], writable) + Delivered(b, writable));
    }
  }

  /** What reaches the printer of a print: the header write if the characteristic is known, then the row events delivered. */
  lemma PrintDelivered(frame: seq<bv8>, width: nat, height: nat, writable: bool)
    requires Raster.Pitch(width) * height <= |frame|
    ensures Delivered(PrintLog(frame, width, height), writable) ==
      (if writable then [Write(Header(width, height))] else []) +
      Delivered(RowEvents(frame, Raster.Pitch(width), height), writable)
  {
    var hw := [Write(Header(width, height))];
    DeliveredAppend(hw, RowEvents(frame, Raster.Pitch(width), height), writable);
    assert hw[1..] == [];
  }

  /** With the characteristic known, every event is delivered as it is. */
  lemma {:induction false} DeliveredAll(es: seq<Event>)
    ensures Delivered(es, true) == es
  {
    if es != [] {
      DeliveredAll(es[1..]);
      assert [es[0]] + es[1..] == es;
    }
  }

  /** Without it, the writes vanish and the pauses remain, in order. */
  lemma {:induction false} DeliveredPausesOnly(es: seq<Event>)
    ensures WriteCount(Delivered(es, false)) == 0
    ensures |Delivered(es, false)| == |es| - WriteCount(es)
  {
    if es != [] {
      DeliveredPausesOnly(es[1..]);
      var head := if es[0].Write? then [] else [es[0]];
      AppendEvents(head, Delivered(es[1..], false));
      if head != [] {
        assert head[1..] == [];
      }
    }
  }

  /**
   * A print to a printer whose data characteristic was lost still pauses
   * after every row, but delivers nothing else: height pauses of
   * RowDelay(pitch) milliseconds.
   */
  lemma {:induction false} PrintWithoutCharacteristic(frame: seq<bv8>, width: nat, height: nat)
    requires Raster.Pitch(width) * height <= |frame|
    ensures var d := Delivered(PrintLog(frame, width, height), false);
      |d| == height && forall i :: 0 <= i < |d| ==> d[i] == Delay(RowDelay(Raster.Pitch(width)))
  {
    var pitch := Raster.Pitch(width);
    var hw := [Write(Header(width, height))];
    DeliveredAppend(hw, RowEvents(frame, pitch, height), false);
    assert Delivered(hw, false) == [] + Delivered(hw[1..], false);
    assert hw[1..] == [];
    RowPauses(frame, pitch, height);
  }

  lemma {:induction false} RowPauses(frame: seq<bv8>, pitch: nat, rows: nat)
    requires pitch * rows <= |frame|
    ensures var d := Delivered(RowEvents(frame, pitch, rows), false);
      |d| == rows && forall i :: 0 <= i < |d| ==> d[i] == Delay(RowDelay(pitch))
    decreases rows
  {
    if rows > 0 {
      MulMonotone(rows - 1, rows, pitch);
      var last := [Write(FrameRow(frame, pitch, rows - 1)), Delay(RowDelay(pitch))];
      RowPauses(frame, pitch, rows - 1);
      DeliveredAppend(RowEvents(frame, pitch, rows - 1), last, false);
      assert last[1..][1..] == [];
      assert Delivered(last[1..], false) == [Delay(RowDelay(pitch))] + Delivered(last[1..][1..], false);
      assert Delivered(last, false) == [] + Delivered(last[1..], false);
    }
  }

  /** The bitmap a frame of the given size holds: its first pitch * height bytes. */
  function Bitmap(frame: seq<bv8>, width: nat, height: nat): (r: seq<bv8>)
    requires Raster.Pitch(width) * height <= |frame|
    ensures |r| == Raster.Pitch(width) * height
  {
    frame[..Raster.Pitch(width) * height]
  }

  /** A printer's reading of a print stream: the header, then the raster bytes. */
  function DecodePrint(es: seq<Event>): Option<(RasterHeader, seq<bv8>)>
  {
    if es != [] && es[0].Write? && ParseHeader(es[0].data).Some? then
      Some((ParseHeader(es[0].data).value, Payload(es[1..])))
    else None
  }

  /**
   * tpPrintBuffer's stream holds height + 1 writes and decodes back to the
   * frame's dimensions and its first pitch * height bytes, whenever the
   * dimensions fit the header (pitch below 256, height below 65536).
   */
  lemma PrintRoundTrip(frame: seq<bv8>, width: nat, height: nat)
    requires Raster.Pitch(width) * height <= |frame|
    requires Raster.Pitch(width) < 256 && height < 65536
    ensures WriteCount(PrintLog(frame, width, height)) == height + 1
    ensures DecodePrint(PrintLog(frame, width, height)) ==
      Some((RasterHeader(Raster.Pitch(width), height), Bitmap(frame, width, height)))
  {
    var pitch := Raster.Pitch(width);
    var log := PrintLog(frame, width, height);
    HeaderRoundTrip(width, height);
    RowEventsPayload(frame, pitch, height);
    AppendEvents([Write(Header(width, height))], RowEvents(frame, pitch, height));
    assert log[1..] == RowEvents(frame, pitch, height);
  }
}
