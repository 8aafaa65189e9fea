/**
 * Pixel addressing in the packed back buffer and the reference pixel set of
 * the integer (Bresenham) line.
 *
 * A back buffer `width` pixels wide has `Pitch(width)` bytes per row; pixel
 * (x, y) lives in byte `y * pitch + x / 8`, bit `Mask(x)`.  Dafny's `/` and
 * `%` round toward minus infinity for a positive divisor, exactly like the
 * arithmetic shift `x >> 3` and the mask `x & 7` on two's-complement ints,
 * so these formulas hold for every integer x.
 */
module Raster {
  import opened Bits
  import opened Arith

  /** Bytes per row, (width + 7) >> 3: enough bytes for width bits, with fewer than 8 bits to spare. */
  function Pitch(width: int): (p: int)
    ensures width >= 0 ==> p >= 0 && 8 * p >= width && 8 * (p - 1) < width
  {
    (width + 7) / 8
  }

  /** No smaller whole number of bytes holds `width` bits. */
  lemma PitchIsCeiling(width: int, q: int)
    requires width >= 0 && 8 * q >= width
    ensures Pitch(width) <= q
  {
  }

  lemma PitchExamples()
    ensures Pitch(384) == 48 && Pitch(385) == 49 && Pitch(0) == 0 && Pitch(1) == 1
  {
  }

  datatype Pixel = Pixel(x: int, y: int)

  /** Byte offset of pixel p: pitch * y + (x >> 3). */
  function Index(pitch: int, p: Pixel): int
  {
    p.y * pitch + p.x / 8
  }

  predicate InFrame(width: int, height: int, p: Pixel)
  {
    0 <= p.x < width && 0 <= p.y < height
  }

  /** A pixel of the frame lies in the first pitch * height bytes. */
  lemma InFrameIndex(width: int, height: int, p: Pixel)
    requires InFrame(width, height, p)
    ensures 0 <= Index(Pitch(width), p) < Pitch(width) * height
  {
    var pitch := Pitch(width);
    assert 0 <= p.x / 8 < pitch;
    MulMonotone(p.y, height - 1, pitch);
    assert p.y * pitch >= 0;
    assert (height - 1) * pitch + pitch == height * pitch;
  }

  /** Moving one pixel right, one row down or one row up, in terms of byte offsets. */
  lemma IndexNeighbours(pitch: int, x: int, y: int)
    ensures Index(pitch, Pixel(x + 1, y)) == Index(pitch, Pixel(x, y)) + ((x + 1) / 8 - x / 8)
    ensures Index(pitch, Pixel(x - 1, y)) == Index(pitch, Pixel(x, y)) + ((x - 1) / 8 - x / 8)
    ensures Index(pitch, Pixel(x, y + 1)) == Index(pitch, Pixel(x, y)) + pitch
    ensures Index(pitch, Pixel(x, y - 1)) == Index(pitch, Pixel(x, y)) - pitch
  {
    MulNeighbours(y, pitch);
  }

  /** Two pixels whose columns lie within the pitch share a byte only on the same row and byte column. */
  lemma IndexInjective(pitch: int, p: Pixel, q: Pixel)
    requires 0 <= p.x < 8 * pitch && 0 <= q.x < 8 * pitch
    requires Index(pitch, p) == Index(pitch, q)
    ensures p.y == q.y && p.x / 8 == q.x / 8
  {
    RowMajorInjective(pitch, p.y, p.x / 8, q.y, q.x / 8);
  }

  /** Whether pixel p is set in buffer b. */
  predicate PixelOn(b: seq<bv8>, pitch: int, p: Pixel)
    requires 0 <= Index(pitch, p) < |b|
  {
    b[Index(pitch, p)] & Mask(p.x) != 0
  }

  /**
   * Set (on) or clear the bit of pixel p, the effect of tpSetPixel: only the
   * addressed bit of the addressed byte changes.
   */
  function PaintPixel(b: seq<bv8>, pitch: int, p: Pixel, on: bool): (r: seq<bv8>)
    requires 0 <= Index(pitch, p) < |b|
    ensures |r| == |b|
    ensures PixelOn(r, pitch, p) == on
    ensures r[Index(pitch, p)] & !Mask(p.x) == b[Index(pitch, p)] & !Mask(p.x)
    ensures forall i :: 0 <= i < |b| && i != Index(pitch, p) ==> r[i] == b[i]
  {
    var i := Index(pitch, p);
    b[i := PaintByte(b[i], Mask(p.x), on)]
  }

  lemma PaintByteOther(b: bv8, m: bv8, m': bv8, on: bool)
    requires m & m' == 0
    ensures PaintByte(b, m, on) & m' == b & m'
  {
  }

  /** Painting p changes the pixel p and no other pixel of the frame. */
  lemma PaintPixelEffect(b: seq<bv8>, pitch: int, p: Pixel, on: bool, q: Pixel)
    requires 0 <= Index(pitch, p) < |b| && 0 <= Index(pitch, q) < |b|
    requires 0 <= p.x < 8 * pitch && 0 <= q.x < 8 * pitch
    ensures PixelOn(PaintPixel(b, pitch, p, on), pitch, q) == if q == p then on else PixelOn(b, pitch, q)
  {
    if Index(pitch, p) == Index(pitch, q) && q != p {
      IndexInjective(pitch, p, q);
      MaskDisjoint(p.x, q.x);
      PaintByteOther(b[Index(pitch, p)], Mask(p.x), Mask(q.x), on);
    }
  }

  predicate PixelsWithin(n: int, pitch: int, ps: seq<Pixel>)
  {
    forall i :: 0 <= i < |ps| ==> 0 <= Index(pitch, ps[i]) < n
  }

  /** Paint the pixels of ps one after another, all with the same colour; a pixel outside b is skipped. */
  function ApplyPixels(b: seq<bv8>, pitch: int, ps: seq<Pixel>, on: bool): (r: seq<bv8>)
    ensures |r| == |b|
    decreases |ps|
  {
    if ps == [] then b
    else
      var b' := if 0 <= Index(pitch, ps[0]) < |b| then PaintPixel(b, pitch, ps[0], on) else b;
      ApplyPixels(b', pitch, ps[1..], on)
  }

  /** Painting ps from position k on is painting ps[k], then the pixels after it. */
  lemma ApplyPixelsStep(b: seq<bv8>, pitch: int, ps: seq<Pixel>, k: int, on: bool)
    requires 0 <= k < |ps| && 0 <= Index(pitch, ps[k]) < |b|
    ensures ApplyPixels(b, pitch, ps[k..], on) == ApplyPixels(PaintPixel(b, pitch, ps[k], on), pitch, ps[k + 1..], on)
  {
    assert ps[k..][1..] == ps[k + 1..];
  }

  /** After painting ps, exactly the pixels of ps have the colour; every other pixel is as before. */
  lemma {:induction false} ApplyPixelsEffect(b: seq<bv8>, pitch: int, ps: seq<Pixel>, on: bool, q: Pixel)
    requires PixelsWithin(|b|, pitch, ps)
    requires forall i :: 0 <= i < |ps| ==> 0 <= ps[i].x < 8 * pitch
    requires 0 <= Index(pitch, q) < |b| && 0 <= q.x < 8 * pitch
    ensures PixelOn(ApplyPixels(b, pitch, ps, on), pitch, q) == if q in ps then on else PixelOn(b, pitch, q)
    decreases |ps|
  {
    if ps != [] {
      var b1 := PaintPixel(b, pitch, ps[0], on);
      ApplyPixelsEffect(b1, pitch, ps[1..], on, q);
      PaintPixelEffect(b, pitch, ps[0], on, q);
      assert q in ps <==> q == ps[0] || q in ps[1..] by {
        assert ps == [ps[0]] + ps[1..];
      }
    }
  }

  /** A byte that no pixel of ps addresses is left unchanged. */
  lemma {:induction false} ApplyPixelsElsewhere(b: seq<bv8>, pitch: int, ps: seq<Pixel>, on: bool, i: int)
    requires 0 <= i < |b|
    requires forall j :: 0 <= j < |ps| ==> Index(pitch, ps[j]) != i
    ensures ApplyPixels(b, pitch, ps, on)[i] == b[i]
    decreases |ps|
  {
    if ps != [] {
      var b' := if 0 <= Index(pitch, ps[0]) < |b| then PaintPixel(b, pitch, ps[0], on) else b;
      ApplyPixelsElsewhere(b', pitch, ps[1..], on, i);
    }
  }

  function Abs(n: int): nat
  {
    if n < 0 then -n else n
  }

  /** The coordinate m steps away from a, in the direction of b. */
  function Toward(a: int, b: int, m: int): int
  {
    if a <= b then a + m else a - m
  }

  /** A line request (x1, y1) -> (x2, y2). */
  datatype Segment = Segment(x1: int, y1: int, x2: int, y2: int)
  {
    function Reversed(): Segment
    {
      Segment(x2, y2, x1, y1)
    }

    /**
     * |dx| > |dy|: one pixel per column; otherwise one pixel per row.  A
     * vertical line is stepped by rows, a horizontal one (of more than one
     * pixel) by columns.
     */
    predicate XMajor(): (b: bool)
      ensures b ==> x1 != x2
      ensures x1 == x2 ==> !b
      ensures y1 == y2 && x1 != x2 ==> b
    {
      Abs(x2 - x1) > Abs(y2 - y1)
    }

    /** The endpoints reordered so that the major coordinate increases. */
    function Normalized(): (n: Segment)
      ensures n == this || n == Reversed()
      ensures n.XMajor() == XMajor()
      ensures XMajor() ==> n.x1 < n.x2
      ensures !XMajor() ==> n.y1 <= n.y2
    {
      if XMajor() then (if x2 < x1 then Reversed() else this)
      else (if y1 > y2 then Reversed() else this)
    }
  }

  /**
   * Minor-axis offset of the k-th pixel of a line whose major axis spans
   * `major` steps and minor axis `minor` steps: the least m with
   * major/2 - k*minor + m*major >= 0, i.e. ceil((k*minor - major/2) / major).
   */
  function Minor(k: int, major: int, minor: int): (m: int)
    ensures major <= 0 || minor == 0 ==> m == 0
    ensures major > 0 && minor == major ==> m == k
  {
    if major <= 0 then 0
    else
      var r := major - major / 2 - 1;
      assert 0 <= r < major;
      assert minor == 0 ==> (k * minor - major / 2 + major - 1) / major == 0 by {
        if minor == 0 {
          DivModUnique(r, major, 0, r);
        }
      }
      assert minor == major ==> (k * minor - major / 2 + major - 1) / major == k by {
        if minor == major {
          DivModUnique(k * minor + r, major, k, r);
        }
      }
      (k * minor - major / 2 + major - 1) / major
  }

  /** The error accumulator of the stepping loop after k major steps; it stays in [0, major). */
  function LineError(k: int, major: int, minor: int): (e: int)
    ensures major > 0 ==> 0 <= e < major
  {
    if major > 0 then
      var n := k * minor - major / 2 + major - 1;
      assert n == major * (n / major) + n % major;
      assert major / 2 - k * minor + Minor(k, major, minor) * major == major - 1 - n % major;
      major / 2 - k * minor + Minor(k, major, minor) * major
    else
      major / 2 - k * minor + Minor(k, major, minor) * major
  }

  /** The accumulator bracket pins the offset down uniquely. */
  lemma MinorUnique(k: int, major: int, minor: int, m: int)
    requires major > 0
    requires 0 <= major / 2 - k * minor + m * major < major
    ensures m == Minor(k, major, minor)
  {
    var q := Minor(k, major, minor);
    assert (m - q) * major == (major / 2 - k * minor + m * major) - LineError(k, major, minor);
    MulBetween(m - q, major);
  }

  /** One major step: the offset advances by one exactly when the accumulator would go negative. */
  lemma MinorStep(k: int, major: int, minor: int)
    requires major > 0 && 0 <= minor <= major
    ensures var e := LineError(k, major, minor) - minor;
      Minor(k + 1, major, minor) == Minor(k, major, minor) + (if e < 0 then 1 else 0) &&
      LineError(k + 1, major, minor) == (if e < 0 then e + major else e)
  {
    var m := Minor(k, major, minor);
    var e := LineError(k, major, minor) - minor;
    if e < 0 {
      assert major / 2 - (k + 1) * minor + (m + 1) * major == e + major;
      MinorUnique(k + 1, major, minor, m + 1);
    } else {
      assert major / 2 - (k + 1) * minor + m * major == e;
      MinorUnique(k + 1, major, minor, m);
    }
  }

  /** The line starts at offset 0 and ends at offset `minor`. */
  lemma MinorEnds(major: int, minor: int)
    requires major > 0
    ensures Minor(0, major, minor) == 0
    ensures Minor(major, major, minor) == minor
  {
    MinorUnique(0, major, minor, 0);
    assert major / 2 - major * minor + minor * major == major / 2;
    MinorUnique(major, major, minor, minor);
  }

  /** Along the line the offset stays between the two endpoints' offsets. */
  lemma MinorRange(k: int, major: int, minor: int)
    requires major > 0 && 0 <= minor <= major && 0 <= k <= major
    ensures 0 <= Minor(k, major, minor) <= minor
  {
    var m := Minor(k, major, minor);
    var e := LineError(k, major, minor);
    assert e == major / 2 - k * minor + m * major && 0 <= e < major;
    MulMonotone(0, k, minor);
    MulMonotone(k, major, minor);
    assert major * minor == minor * major && (minor + 1) * major == minor * major + major;
    if m < 0 {
      MulMonotone(m, -1, major);
    }
    if m > minor {
      MulMonotone(minor + 1, m, major);
    }
  }

  /**
   * The reference pixel sequence of the integer line from (x1, y1) to
   * (x2, y2): endpoints reordered so the major axis increases, then one
   * pixel per major step, the minor coordinate moving towards the far
   * endpoint by Minor(k, ...).
   */
  function LinePixels(s: Segment): (ps: seq<Pixel>)
    ensures |ps| == 1 + if s.XMajor() then Abs(s.x2 - s.x1) else Abs(s.y2 - s.y1)
  {
    var n := s.Normalized();
    if s.XMajor() then
      var major, minor := n.x2 - n.x1, Abs(n.y2 - n.y1);
      seq(major + 1, k => Pixel(n.x1 + k, Toward(n.y1, n.y2, Minor(k, major, minor))))
    else
      var major, minor := n.y2 - n.y1, Abs(n.x2 - n.x1);
      seq(major + 1, k => Pixel(Toward(n.x1, n.x2, Minor(k, major, minor)), n.y1 + k))
  }

  /** Drawing (x2, y2) -> (x1, y1) yields the very same pixels as (x1, y1) -> (x2, y2). */
  lemma LineReversal(s: Segment)
    ensures LinePixels(s.Reversed()) == LinePixels(s)
  {
    var r := s.Reversed();
    assert r.XMajor() == s.XMajor();
    if s.XMajor() {
      assert s.x1 != s.x2;
    } else if s.y1 == s.y2 {
      assert s.x1 == s.x2;
    }
    assert r.Normalized() == s.Normalized();
  }

  /** Normalizing the endpoints first does not change the line. */
  lemma LineNormalized(s: Segment)
    ensures LinePixels(s.Normalized()) == LinePixels(s)
  {
    if s.Normalized() != s {
      LineReversal(s);
    }
  }

  /** The line begins and ends at the requested endpoints, and contains both. */
  lemma LineEndpoints(s: Segment)
    ensures var ps, n := LinePixels(s), s.Normalized();
      ps[0] == Pixel(n.x1, n.y1) && ps[|ps| - 1] == Pixel(n.x2, n.y2) &&
      Pixel(s.x1, s.y1) in ps && Pixel(s.x2, s.y2) in ps
  {
    var ps, n := LinePixels(s), s.Normalized();
    if s.XMajor() {
      MinorEnds(n.x2 - n.x1, Abs(n.y2 - n.y1));
    } else if n.y1 < n.y2 {
      MinorEnds(n.y2 - n.y1, Abs(n.x2 - n.x1));
    } else {
      assert n.x1 == n.x2;
    }
    assert ps[0] == Pixel(n.x1, n.y1);
    assert ps[|ps| - 1] == Pixel(n.x2, n.y2);
  }

  /**
   * Exactly one pixel per major step: an x-major line has one pixel in each
   * column from min(x1, x2) to max(x1, x2), a y-major line one in each row.
   */
  lemma LineOnePerStep(s: Segment)
    ensures s.XMajor() ==> forall k :: 0 <= k < |LinePixels(s)| ==>
      LinePixels(s)[k].x == (if s.x1 < s.x2 then s.x1 else s.x2) + k
    ensures !s.XMajor() ==> forall k :: 0 <= k < |LinePixels(s)| ==>
      LinePixels(s)[k].y == (if s.y1 < s.y2 then s.y1 else s.y2) + k
  {
  }

  /** The k-th pixel of an x-major line drawn left to right: column x1 + k, the row moved Minor(k) towards y2. */
  lemma XMajorPixelAt(s: Segment, k: int)
    requires s.XMajor() && s.x1 < s.x2 && 0 <= k <= s.x2 - s.x1
    ensures LinePixels(s)[k] == Pixel(s.x1 + k, Toward(s.y1, s.y2, Minor(k, s.x2 - s.x1, Abs(s.y2 - s.y1))))
  {
  }

  /** The k-th pixel of a y-major line drawn top to bottom: row y1 + k, the column moved Minor(k) towards x2. */
  lemma YMajorPixelAt(s: Segment, k: int)
    requires !s.XMajor() && s.y1 <= s.y2 && 0 <= k <= s.y2 - s.y1
    ensures LinePixels(s)[k] == Pixel(Toward(s.x1, s.x2, Minor(k, s.y2 - s.y1, Abs(s.x2 - s.x1))), s.y1 + k)
  {
  }

  /** The chosen offset is within half a step of the exact k * minor / major. */
  lemma MinorNearIdeal(k: int, major: int, minor: int)
    requires major > 0
    ensures Abs(2 * (major * Minor(k, major, minor) - k * minor)) <= major
  {
    var e := LineError(k, major, minor);
    assert major * Minor(k, major, minor) - k * minor == e - major / 2;
  }

  /** Each pixel is within half a pixel of the ideal line: |2 * (major * offset - k * minor)| <= major. */
  lemma LineNearIdeal(s: Segment, k: int)
    requires 0 <= k < |LinePixels(s)|
    ensures var ps, n := LinePixels(s), s.Normalized();
      if s.XMajor() then
        Abs(2 * ((n.x2 - n.x1) * Abs(ps[k].y - n.y1) - k * Abs(n.y2 - n.y1))) <= n.x2 - n.x1
      else
        Abs(2 * ((n.y2 - n.y1) * Abs(ps[k].x - n.x1) - k * Abs(n.x2 - n.x1))) <= n.y2 - n.y1
  {
    var ps, n := LinePixels(s), s.Normalized();
    if s.XMajor() {
      var major, minor := n.x2 - n.x1, Abs(n.y2 - n.y1);
      MinorRange(k, major, minor);
      assert Abs(ps[k].y - n.y1) == Minor(k, major, minor);
      MinorNearIdeal(k, major, minor);
    } else if n.y2 > n.y1 {
      var major, minor := n.y2 - n.y1, Abs(n.x2 - n.x1);
      MinorRange(k, major, minor);
      assert Abs(ps[k].x - n.x1) == Minor(k, major, minor);
      MinorNearIdeal(k, major, minor);
    }
  }

  /**
   * The pixels the x-major stepping loop visits from column x to x2: plot
   * (x, y), take dy from the error term, and when it goes negative add dx
   * back and move one row by yinc.
   */
  ghost function XRun(x: int, x2: int, y: int, error: int, dx: int, dy: int, yinc: int): seq<Pixel>
    decreases x2 - x
  {
    if x > x2 then []
    else
      var e := error - dy;
      if e < 0 then [Pixel(x, y)] + XRun(x + 1, x2, y + yinc, e + dx, dx, dy, yinc)
      else [Pixel(x, y)] + XRun(x + 1, x2, y, e, dx, dy, yinc)
  }

  /** The y-major stepping loop: one pixel per row from y to y2, the column moving by xinc. */
  ghost function YRun(y: int, y2: int, x: int, error: int, dy: int, dx: int, xinc: int): seq<Pixel>
    decreases y2 - y
  {
    if y > y2 then []
    else
      var e := error - dx;
      if e < 0 then [Pixel(x, y)] + YRun(y + 1, y2, x + xinc, e + dy, dy, dx, xinc)
      else [Pixel(x, y)] + YRun(y + 1, y2, x, e, dy, dx, xinc)
  }

  /** One step of the x-major run: its first pixel, and the run that follows it. */
  lemma XRunStep(x: int, x2: int, y: int, error: int, dx: int, dy: int, yinc: int)
    requires x <= x2
    ensures var r, e := XRun(x, x2, y, error, dx, dy, yinc), error - dy;
      |r| > 0 && r[0] == Pixel(x, y) &&
      r[1..] == if e < 0 then XRun(x + 1, x2, y + yinc, e + dx, dx, dy, yinc) else XRun(x + 1, x2, y, e, dx, dy, yinc)
  {
  }

  /** The x-major run after its first pixel, given the row and error the loop moves to. */
  lemma XRunNext(x: int, x2: int, y: int, error: int, dx: int, dy: int, yinc: int, y': int, error': int)
    requires x <= x2
    requires error - dy < 0 ==> y' == y + yinc && error' == error - dy + dx
    requires error - dy >= 0 ==> y' == y && error' == error - dy
    ensures XRun(x, x2, y, error, dx, dy, yinc)[1..] == XRun(x + 1, x2, y', error', dx, dy, yinc)
  {
    XRunStep(x, x2, y, error, dx, dy, yinc);
  }

  /** One step of the y-major run: its first pixel, and the run that follows it. */
  lemma YRunStep(y: int, y2: int, x: int, error: int, dy: int, dx: int, xinc: int)
    requires y <= y2
    ensures var r, e := YRun(y, y2, x, error, dy, dx, xinc), error - dx;
      |r| > 0 && r[0] == Pixel(x, y) &&
      r[1..] == if e < 0 then YRun(y + 1, y2, x + xinc, e + dy, dy, dx, xinc) else YRun(y + 1, y2, x, e, dy, dx, xinc)
  {
  }

  /** The y-major run after its first pixel, given the column and error the loop moves to. */
  lemma YRunNext(y: int, y2: int, x: int, error: int, dy: int, dx: int, xinc: int, x': int, error': int)
    requires y <= y2
    requires error - dx < 0 ==> x' == x + xinc && error' == error - dx + dy
    requires error - dx >= 0 ==> x' == x && error' == error - dx
    ensures YRun(y, y2, x, error, dy, dx, xinc)[1..] == YRun(y + 1, y2, x', error', dy, dx, xinc)
  {
    YRunStep(y, y2, x, error, dy, dx, xinc);
  }

  /**
   * One step of either stepping loop on its minor coordinate c: take minor
   * from the error term and, when it goes negative, add major back and move
   * c by inc.
   */
  function Step(c: int, error: int, major: int, minor: int, inc: int): (int, int)
  {
    var e := error - minor;
    if e < 0 then (c + inc, e + major) else (c, e)
  }

  /** The minor coordinate and error term after j steps from (c, error). */
  ghost function Steps(j: nat, c: int, error: int, major: int, minor: int, inc: int): (int, int)
    decreases j
  {
    if j == 0 then (c, error)
    else
      var (c', e') := Step(c, error, major, minor, inc);
      Steps(j - 1, c', e', major, minor, inc)
  }

  /** Taking j + 1 steps is taking j steps and then one more. */
  lemma {:induction false} StepsLast(j: nat, c: int, error: int, major: int, minor: int, inc: int)
    ensures var (c', e') := Steps(j, c, error, major, minor, inc);
      Steps(j + 1, c, error, major, minor, inc) == Step(c', e', major, minor, inc)
    decreases j
  {
    if j > 0 {
      var (c1, e1) := Step(c, error, major, minor, inc);
      StepsLast(j - 1, c1, e1, major, minor, inc);
    }
  }

  /**
   * Started at a with error major / 2 and stepping towards b, the loop is
   * after j steps at the closed-form offset Minor(j) with error LineError(j).
   */
  lemma {:induction false} StepsClosed(j: nat, a: int, b: int, major: int, minor: int)
    requires major > 0 && 0 <= minor <= major
    ensures Steps(j, a, major / 2, major, minor, if a <= b then 1 else -1) ==
      (Toward(a, b, Minor(j, major, minor)), LineError(j, major, minor))
    decreases j
  {
    if j == 0 {
      MinorEnds(major, minor);
    } else {
      StepsClosed(j - 1, a, b, major, minor);
      StepsLast(j - 1, a, major / 2, major, minor, if a <= b then 1 else -1);
      StepClosed(j - 1, a, b, major, minor);
    }
  }

  /** One loop step from the closed form after k steps gives the closed form after k + 1. */
  lemma StepClosed(k: int, a: int, b: int, major: int, minor: int)
    requires major > 0 && 0 <= minor <= major
    ensures Step(Toward(a, b, Minor(k, major, minor)), LineError(k, major, minor), major, minor, if a <= b then 1 else -1) ==
      (Toward(a, b, Minor(k + 1, major, minor)), LineError(k + 1, major, minor))
  {
    MinorStep(k, major, minor);
  }

  /** The x-major run has one pixel per column, the j-th in the row the loop reaches after j steps. */
  lemma {:induction false} XRunPixel(x: int, x2: int, y: int, error: int, dx: int, dy: int, yinc: int, j: nat)
    requires j <= x2 - x
    ensures var r := XRun(x, x2, y, error, dx, dy, yinc);
      |r| == x2 - x + 1 && r[j] == Pixel(x + j, Steps(j, y, error, dx, dy, yinc).0)
    decreases x2 - x
  {
    var (y', e') := Step(y, error, dx, dy, yinc);
    XRunStep(x, x2, y, error, dx, dy, yinc);
    XRunNext(x, x2, y, error, dx, dy, yinc, y', e');
    if x < x2 {
      XRunPixel(x + 1, x2, y', e', dx, dy, yinc, if j > 0 then j - 1 else 0);
    }
  }

  /** The y-major run has one pixel per row, the j-th in the column the loop reaches after j steps. */
  lemma {:induction false} YRunPixel(y: int, y2: int, x: int, error: int, dy: int, dx: int, xinc: int, j: nat)
    requires j <= y2 - y
    ensures var r := YRun(y, y2, x, error, dy, dx, xinc);
      |r| == y2 - y + 1 && r[j] == Pixel(Steps(j, x, error, dy, dx, xinc).0, y + j)
    decreases y2 - y
  {
    var (x', e') := Step(x, error, dy, dx, xinc);
    YRunStep(y, y2, x, error, dy, dx, xinc);
    YRunNext(y, y2, x, error, dy, dx, xinc, x', e');
    if y < y2 {
      YRunPixel(y + 1, y2, x', e', dy, dx, xinc, if j > 0 then j - 1 else 0);
    }
  }

  /** The whole run of the x-major loop, started with error dx / 2, is the reference line. */
  lemma XRunIsLine(s: Segment)
    requires s.XMajor() && s.x1 < s.x2
    ensures XRun(s.x1, s.x2, s.y1, (s.x2 - s.x1) / 2, s.x2 - s.x1, Abs(s.y2 - s.y1),
                 if s.y1 <= s.y2 then 1 else -1) == LinePixels(s)
  {
    var major, minor, yinc := s.x2 - s.x1, Abs(s.y2 - s.y1), if s.y1 <= s.y2 then 1 else -1;
    var r := XRun(s.x1, s.x2, s.y1, major / 2, major, minor, yinc);
    var ps := LinePixels(s);
    XRunPixel(s.x1, s.x2, s.y1, major / 2, major, minor, yinc, 0);
    forall j | 0 <= j < |ps|
      ensures r[j] == ps[j]
    {
      XRunPixel(s.x1, s.x2, s.y1, major / 2, major, minor, yinc, j);
      StepsClosed(j, s.y1, s.y2, major, minor);
      XMajorPixelAt(s, j);
    }
  }

  /** The whole run of the y-major loop, started with error dy / 2, is the reference line. */
  lemma YRunIsLine(s: Segment)
    requires !s.XMajor() && s.y1 <= s.y2
    ensures YRun(s.y1, s.y2, s.x1, (s.y2 - s.y1) / 2, s.y2 - s.y1, Abs(s.x2 - s.x1),
                 if s.x1 <= s.x2 then 1 else -1) == LinePixels(s)
  {
    var major, minor, xinc := s.y2 - s.y1, Abs(s.x2 - s.x1), if s.x1 <= s.x2 then 1 else -1;
    var r := YRun(s.y1, s.y2, s.x1, major / 2, major, minor, xinc);
    var ps := LinePixels(s);
    YRunPixel(s.y1, s.y2, s.x1, major / 2, major, minor, xinc, 0);
    forall j | 0 <= j < |ps|
      ensures r[j] == ps[j]
    {
      YRunPixel(s.y1, s.y2, s.x1, major / 2, major, minor, xinc, j);
      if major > 0 {
        StepsClosed(j, s.x1, s.x2, major, minor);
      }
      YMajorPixelAt(s, j);
    }
  }

  /** Consecutive pixels are 8-connected: each step moves by at most one in each coordinate. */
  lemma LineConnected(s: Segment, k: int)
    requires 0 <= k < |LinePixels(s)| - 1
    ensures var ps := LinePixels(s);
      Abs(ps[k + 1].x - ps[k].x) <= 1 && Abs(ps[k + 1].y - ps[k].y) <= 1
  {
    var n := s.Normalized();
    if s.XMajor() {
      MinorStep(k, n.x2 - n.x1, Abs(n.y2 - n.y1));
    } else {
      MinorStep(k, n.y2 - n.y1, Abs(n.x2 - n.x1));
    }
  }

  /** A line whose endpoints are in the frame stays in the frame. */
  lemma LineInFrame(s: Segment, width: int, height: int)
    requires InFrame(width, height, Pixel(s.x1, s.y1)) && InFrame(width, height, Pixel(s.x2, s.y2))
    ensures forall k :: 0 <= k < |LinePixels(s)| ==> InFrame(width, height, LinePixels(s)[k])
  {
    var ps, n := LinePixels(s), s.Normalized();
    forall k | 0 <= k < |ps| ensures InFrame(width, height, ps[k]) {
      if s.XMajor() {
        MinorRange(k, n.x2 - n.x1, Abs(n.y2 - n.y1));
      } else if n.y2 > n.y1 {
        MinorRange(k, n.y2 - n.y1, Abs(n.x2 - n.x1));
      }
    }
  }

  /** A vertical line is the column x from min(y1, y2) to max(y1, y2) and nothing else. */
  lemma LineVertical(x: int, y1: int, y2: int)
    ensures LinePixels(Segment(x, y1, x, y2)) ==
      seq(Abs(y2 - y1) + 1, k => Pixel(x, (if y1 < y2 then y1 else y2) + k))
  {
    var s := Segment(x, y1, x, y2);
    var ps := LinePixels(s);
    forall k | 0 <= k < |ps| ensures ps[k].x == x {
      if y1 != y2 {
        MinorRange(k, Abs(y2 - y1), 0);
      }
    }
  }

  /** A horizontal line is the row y from min(x1, x2) to max(x1, x2) and nothing else. */
  lemma LineHorizontal(x1: int, x2: int, y: int)
    requires x1 != x2
    ensures LinePixels(Segment(x1, y, x2, y)) ==
      seq(Abs(x2 - x1) + 1, k => Pixel((if x1 < x2 then x1 else x2) + k, y))
  {
    var s := Segment(x1, y, x2, y);
    var ps := LinePixels(s);
    forall k | 0 <= k < |ps| ensures ps[k].y == y {
      MinorRange(k, Abs(x2 - x1), 0);
    }
  }
}

module RasterDraw {
  import opened Bits
  import opened Raster

  /**
   * tpDrawLine draws only when both endpoints lie in [0, width) x [0, height);
   * so only in a non-empty frame, and both endpoints' bytes lie in it.
   */
  predicate LineAccepted(width: int, height: int, s: Segment): (ok: bool)
    ensures ok ==> width > 0 && height > 0
    ensures ok ==> 0 <= Index(Pitch(width), Pixel(s.x1, s.y1)) < Pitch(width) * height
    ensures ok ==> 0 <= Index(Pitch(width), Pixel(s.x2, s.y2)) < Pitch(width) * height
  {
    if InFrame(width, height, Pixel(s.x1, s.y1)) && InFrame(width, height, Pixel(s.x2, s.y2)) then
      InFrameIndex(width, height, Pixel(s.x1, s.y1));
      InFrameIndex(width, height, Pixel(s.x2, s.y2));
      true
    else false
  }

  /** Every pixel of ps lies in the frame, stated pixel by pixel from the front (as the drawing loops consume them). */
  predicate AllInFrame(width: int, height: int, ps: seq<Pixel>)
    decreases |ps|
  {
    ps == [] || (InFrame(width, height, ps[0]) && AllInFrame(width, height, ps[1..]))
  }

  lemma {:induction false} SuffixInFrame(width: int, height: int, ps: seq<Pixel>, k: int)
    requires 0 <= k <= |ps|
    requires forall i :: 0 <= i < |ps| ==> InFrame(width, height, ps[i])
    ensures AllInFrame(width, height, ps[k..])
    decreases |ps| - k
  {
    if k < |ps| {
      SuffixInFrame(width, height, ps, k + 1);
      assert ps[k..][1..] == ps[k + 1..];
    }
  }

  /** An accepted line lies in the frame, pixel by pixel. */
  lemma LineAllInFrame(s: Segment, width: int, height: int)
    requires LineAccepted(width, height, s)
    ensures AllInFrame(width, height, LinePixels(s))
  {
    LineInFrame(s, width, height);
    SuffixInFrame(width, height, LinePixels(s), 0);
    assert LinePixels(s)[0..] == LinePixels(s);
  }

  /** Every pixel of an accepted line addresses a byte of the frame, and its column lies within the pitch. */
  lemma LineWithin(s: Segment, width: int, height: int)
    requires LineAccepted(width, height, s)
    ensures var ps, pitch := LinePixels(s), Pitch(width);
      PixelsWithin(pitch * height, pitch, ps) && forall k :: 0 <= k < |ps| ==> 0 <= ps[k].x < 8 * pitch
  {
    var ps, pitch := LinePixels(s), Pitch(width);
    LineInFrame(s, width, height);
    forall k | 0 <= k < |ps| ensures 0 <= Index(pitch, ps[k]) < pitch * height && 0 <= ps[k].x < 8 * pitch {
      InFrameIndex(width, height, ps[k]);
    }
  }

  /** The frame after tpDrawLine: the line's pixels painted, or the frame unchanged when an endpoint is outside. */
  function DrawnLine(b: seq<bv8>, width: int, height: int, s: Segment, on: bool): (r: seq<bv8>)
    requires Pitch(width) * height <= |b|
    ensures |r| == |b|
    ensures !LineAccepted(width, height, s) ==> r == b
  {
    if LineAccepted(width, height, s) then ApplyPixels(b, Pitch(width), LinePixels(s), on) else b
  }

  /**
   * Drawing a line gives every pixel of the line the colour and leaves every
   * other bit of the frame, padding columns included, as it was.
   */
  lemma DrawnLineEffect(b: seq<bv8>, width: int, height: int, s: Segment, on: bool, q: Pixel)
    requires Pitch(width) * height <= |b|
    requires 0 <= q.x < 8 * Pitch(width) && 0 <= q.y < height
    ensures 0 <= Index(Pitch(width), q) < |b|
    ensures PixelOn(DrawnLine(b, width, height, s, on), Pitch(width), q) ==
      if LineAccepted(width, height, s) && q in LinePixels(s) then on else PixelOn(b, Pitch(width), q)
  {
    var pitch := Pitch(width);
    InFrameIndex(8 * pitch, height, q);
    assert Pitch(8 * pitch) == pitch;
    if LineAccepted(width, height, s) {
      LineWithin(s, width, height);
      ApplyPixelsEffect(b, pitch, LinePixels(s), on, q);
    }
  }

  /** Bytes past the frame (pitch * height and beyond) are never touched. */
  lemma DrawnLineBeyondFrame(b: seq<bv8>, width: int, height: int, s: Segment, on: bool, i: int)
    requires 0 <= Pitch(width) * height <= i < |b|
    ensures DrawnLine(b, width, height, s, on)[i] == b[i]
  {
    if LineAccepted(width, height, s) {
      LineWithin(s, width, height);
      forall j | 0 <= j < |LinePixels(s)| ensures Index(Pitch(width), LinePixels(s)[j]) != i {
      }
      ApplyPixelsElsewhere(b, Pitch(width), LinePixels(s), on, i);
    }
  }

  /** Drawing (x2, y2) -> (x1, y1) leaves the same buffer as (x1, y1) -> (x2, y2). */
  lemma DrawnLineReversal(b: seq<bv8>, width: int, height: int, s: Segment, on: bool)
    requires Pitch(width) * height <= |b|
    ensures DrawnLine(b, width, height, s.Reversed(), on) == DrawnLine(b, width, height, s, on)
  {
    LineReversal(s);
  }

  /** After filling the frame with byte v, pixel (x, y) reads as bit x & 7 of v: all set for 0xff, all clear for 0. */
  lemma FilledPixels(b: seq<bv8>, width: int, height: int, v: bv8, q: Pixel)
    requires Pitch(width) * height <= |b|
    requires forall i :: 0 <= i < Pitch(width) * height ==> b[i] == v
    requires InFrame(width, height, q)
    ensures 0 <= Index(Pitch(width), q) < |b|
    ensures PixelOn(b, Pitch(width), q) == (v & Mask(q.x) != 0)
    ensures v == 0xff ==> PixelOn(b, Pitch(width), q)
    ensures v == 0 ==> !PixelOn(b, Pitch(width), q)
  {
    InFrameIndex(width, height, q);
  }
}
