/** Scroll, line and blit: pixel-by-pixel operations on a frame buffer. */
module Drawing {
  import opened Arith
  import opened Basics
  import opened Pixels
  import opened FrameBuffers

  ghost predicate InPicture(g: Geometry, x: int, y: int) {
    0 <= x < g.width && 0 <= y < g.height
  }

  // ---------- Scroll ----------

  ghost predicate StepFits(size: int, step: int) {
    -size <= step <= size
  }

  /** The pixels a scroll writes: both they and their source are in the picture. */
  ghost predicate Scrolls(g: Geometry, xstep: int, ystep: int, x: int, y: int) {
    InPicture(g, x, y) && InPicture(g, x - xstep, y - ystep)
  }

  /** In the order of the scan, (px, py) comes before (x, y). */
  ghost predicate Before(xstep: int, ystep: int, px: int, py: int, x: int, y: int) {
    || (if ystep < 0 then py < y else py > y)
    || (py == y && (if xstep < 0 then px < x else px > x))
  }

  /** A scan that has reached (x, y): what comes before has moved, the rest is as in a. */
  ghost predicate ScrolledTo(g: Geometry, a: seq<Cell>, b: seq<Cell>, xstep: int, ystep: int, x: int, y: int) {
    && Fits(g, a) && Fits(g, b) && |a| == |b|
    && forall px, py {:trigger Pixel(g, b, px, py)} | OnGrid(g, px, py) ::
         Pixel(g, b, px, py) ==
         if Scrolls(g, xstep, ystep, px, py) && Before(xstep, ystep, px, py, x, y)
         then Pixel(g, a, px - xstep, py - ystep) else Pixel(g, a, px, py)
  }

  /** A move of the whole picture a by (xstep, ystep), as from a copy. */
  ghost predicate Moved(g: Geometry, a: seq<Cell>, b: seq<Cell>, xstep: int, ystep: int) {
    && Fits(g, a) && Fits(g, b) && |a| == |b|
    && forall x, y {:trigger Pixel(g, b, x, y)} | OnGrid(g, x, y) ::
         Pixel(g, b, x, y) ==
         if Scrolls(g, xstep, ystep, x, y) then Pixel(g, a, x - xstep, y - ystep) else Pixel(g, a, x, y)
  }

  lemma StoredColour(g: Geometry, b: seq<Cell>, x: int, y: int)
    requires Fits(g, b) && OnGrid(g, x, y)
    ensures Trunc(g.fmt, Pixel(g, b, x, y)) == Pixel(g, b, x, y)
  {
    hide Index, Slot, Get, Trunc, Cells;
    IndexInBounds(g, x, y);
    TruncOfGet(g.fmt, Slot(g, x, y), b[Index(g, x, y)]);
  }

  /** The heart of the overlap argument: the source of the next pixel has not been written yet,
      so it still has its old colour. */
  lemma ScrollStep(g: Geometry, a: seq<Cell>, b: seq<Cell>, c: seq<Cell>,
                   xstep: int, ystep: int, x: int, y: int, col: Colour)
    requires ScrolledTo(g, a, b, xstep, ystep, x, y)
    requires Scrolls(g, xstep, ystep, x, y) && col == Pixel(g, b, x - xstep, y - ystep)
    requires Painted(g, b, c, iset{(x, y)}, col)
    ensures ScrolledTo(g, a, c, xstep, ystep, if xstep < 0 then x + 1 else x - 1, y)
  {
    hide Pixel, Trunc;
    StoredColour(g, b, x - xstep, y - ystep);
    assert col == Pixel(g, a, x - xstep, y - ystep);
  }

  /** Scroll moves the old picture by (xstep, ystep); what has no source inside it stays. It is
      asked for exactly where its loops end. */
  method Scroll(fb: FrameBuffer, xstep: int, ystep: int)
    requires fb.Valid() && ScrollEnds(fb.g, xstep, ystep)
    modifies fb.buf
    ensures Moved(fb.g, old(fb.buf[..]), fb.buf[..], xstep, ystep)
    ensures exists n: nat :: ScanAfter(fb.g, xstep, ystep, n) == Over
  {
    hide ScrolledTo, Painted, Moved, Cells, Pixel, ScanAfter;
    var g := fb.g;
    ghost var a := fb.buf[..];
    ghost var n: nat := 0;
    var sx, y, xend, yend, dx, dy;
    if xstep < 0 {
      sx, xend, dx := 0, g.width + xstep, 1;
    } else {
      sx, xend, dx := g.width - 1, xstep - 1, -1;
    }
    if ystep < 0 {
      y, yend, dy := 0, g.height + ystep, 1;
    } else {
      y, yend, dy := g.height - 1, ystep - 1, -1;
    }
    ScrollStart(g, a, xstep, ystep, sx, y);
    ScanBegins(g, xstep, ystep);
    while y != yend
      invariant if ystep < 0 then 0 <= y <= yend else yend <= y < g.height
      invariant ScrolledTo(g, a, fb.buf[..], xstep, ystep, sx, y)
      invariant ScanAfter(g, xstep, ystep, n) == ScanRow(g, xstep, ystep, y)
      decreases (yend - y) * dy
    {
      var x := sx;
      while x != xend
        invariant if xstep < 0 then 0 <= x <= xend else xend <= x < g.width
        invariant ScrolledTo(g, a, fb.buf[..], xstep, ystep, x, y)
        invariant ScanAfter(g, xstep, ystep, n) == At(x, y)
        decreases (xend - x) * dx
      {
        ghost var b := fb.buf[..];
        var col := fb.GetPixel(x - xstep, y - ystep);
        fb.SetPixel(x, y, col);
        ScrollStep(g, a, b, fb.buf[..], xstep, ystep, x, y, col);
        ScanGoesOn(g, xstep, ystep, n);
        x, n := x + dx, n + 1;
      }
      ScanGoesOn(g, xstep, ystep, n);
      n := n + 1;
      ScrollRowDone(g, a, fb.buf[..], xstep, ystep, sx, xend, y);
      y := y + dy;
    }
    ScrollDone(g, a, fb.buf[..], xstep, ystep, sx, yend);
  }

  lemma ScrollDone(g: Geometry, a: seq<Cell>, b: seq<Cell>, xstep: int, ystep: int, sx: int, yend: int)
    requires ScrolledTo(g, a, b, xstep, ystep, sx, yend)
    requires yend == if ystep < 0 then g.height + ystep else ystep - 1
    ensures Moved(g, a, b, xstep, ystep)
  {
    hide Pixel;
  }

  lemma ScrollStart(g: Geometry, a: seq<Cell>, xstep: int, ystep: int, x: int, y: int)
    requires Fits(g, a)
    requires x == if xstep < 0 then 0 else g.width - 1
    requires y == if ystep < 0 then 0 else g.height - 1
    ensures ScrolledTo(g, a, a, xstep, ystep, x, y)
  {
    hide Pixel;
  }

  lemma ScrollRowDone(g: Geometry, a: seq<Cell>, b: seq<Cell>, xstep: int, ystep: int, sx: int, xend: int, y: int)
    requires ScrolledTo(g, a, b, xstep, ystep, xend, y)
    requires sx == if xstep < 0 then 0 else g.width - 1
    requires xend == if xstep < 0 then g.width + xstep else xstep - 1
    ensures ScrolledTo(g, a, b, xstep, ystep, sx, if ystep < 0 then y + 1 else y - 1)
  {
    hide Pixel;
  }

  // ---------- Where the loops of scroll end ----------

  /** The nested loops of scroll, one guard after the other: inside a row, or after the last. */
  datatype Scan = At(x: int, y: int) | Over

  function ScanStart(size: int, step: int): int {
    if step < 0 then 0 else size - 1
  }

  function ScanEnd(size: int, step: int): int {
    if step < 0 then size + step else step - 1
  }

  function ScanDir(step: int): int {
    if step < 0 then 1 else -1
  }

  /** The guard of the outer loop. */
  function ScanRow(g: Geometry, xstep: int, ystep: int, y: int): Scan {
    if y == ScanEnd(g.height, ystep) then Over else At(ScanStart(g.width, xstep), y)
  }

  /** The guard of the inner loop. */
  function ScanNext(g: Geometry, xstep: int, ystep: int, s: Scan): Scan {
    match s
    case Over => Over
    case At(x, y) =>
      if x == ScanEnd(g.width, xstep) then ScanRow(g, xstep, ystep, y + ScanDir(ystep))
      else At(x + ScanDir(xstep), y)
  }

  function ScanAfter(g: Geometry, xstep: int, ystep: int, n: nat): Scan {
    if n == 0 then ScanRow(g, xstep, ystep, ScanStart(g.height, ystep))
    else ScanNext(g, xstep, ystep, ScanAfter(g, xstep, ystep, n - 1))
  }

  lemma ScanBegins(g: Geometry, xstep: int, ystep: int)
    ensures ScanAfter(g, xstep, ystep, 0) == ScanRow(g, xstep, ystep, ScanStart(g.height, ystep))
  {
  }

  lemma ScanGoesOn(g: Geometry, xstep: int, ystep: int, n: nat)
    ensures ScanAfter(g, xstep, ystep, n + 1) == ScanNext(g, xstep, ystep, ScanAfter(g, xstep, ystep, n))
  {
  }

  /** The rows must meet their end; and so must the columns, unless there is no row to scan. */
  ghost predicate ScrollEnds(g: Geometry, xstep: int, ystep: int) {
    StepFits(g.height, ystep) && (Abs(ystep) == g.height || StepFits(g.width, xstep))
  }

  /** How far a scan along an axis is from its end. */
  function ScanLeft(size: int, step: int, at: int): int {
    (ScanEnd(size, step) - at) * ScanDir(step)
  }

  lemma {:induction false} RowEnds(g: Geometry, xstep: int, ystep: int, n: nat) returns (m: nat)
    requires ScanAfter(g, xstep, ystep, n).At? && ScanLeft(g.width, xstep, ScanAfter(g, xstep, ystep, n).x) >= 0
    ensures ScanAfter(g, xstep, ystep, m)
            == ScanRow(g, xstep, ystep, ScanAfter(g, xstep, ystep, n).y + ScanDir(ystep))
    decreases ScanLeft(g.width, xstep, ScanAfter(g, xstep, ystep, n).x)
  {
    ScanGoesOn(g, xstep, ystep, n);
    hide ScanAfter;
    if ScanAfter(g, xstep, ystep, n).x == ScanEnd(g.width, xstep) {
      m := n + 1;
    } else {
      m := RowEnds(g, xstep, ystep, n + 1);
    }
  }

  lemma {:induction false} RowsEnd(g: Geometry, xstep: int, ystep: int, y: int, n: nat) returns (m: nat)
    requires StepFits(g.width, xstep)
    requires ScanAfter(g, xstep, ystep, n) == ScanRow(g, xstep, ystep, y) && ScanLeft(g.height, ystep, y) >= 0
    ensures ScanAfter(g, xstep, ystep, m) == Over
    decreases ScanLeft(g.height, ystep, y)
  {
    hide ScanAfter;
    if y == ScanEnd(g.height, ystep) {
      m := n;
    } else {
      m := RowEnds(g, xstep, ystep, n);
      m := RowsEnd(g, xstep, ystep, y + ScanDir(ystep), m);
    }
  }

  /** A step that is too large takes the scan past its end before it begins. */
  lemma {:induction false} ScanNeverMeetsEnd(g: Geometry, xstep: int, ystep: int, n: nat)
    requires !ScrollEnds(g, xstep, ystep)
    ensures var s := ScanAfter(g, xstep, ystep, n);
            s.At? && if StepFits(g.height, ystep)
                     then s.y == ScanStart(g.height, ystep) && ScanLeft(g.width, xstep, s.x) < 0
                     else ScanLeft(g.height, ystep, s.y) < 0
    decreases n
  {
    if n > 0 {
      ScanNeverMeetsEnd(g, xstep, ystep, n - 1);
    }
  }

  /** The loops of scroll end exactly when no step is larger than the picture, or there is no row
      to scan because the vertical step is its height. */
  lemma ScrollScanEnds(g: Geometry, xstep: int, ystep: int)
    ensures (exists n: nat :: ScanAfter(g, xstep, ystep, n) == Over) <==> ScrollEnds(g, xstep, ystep)
  {
    hide ScanAfter;
    ScanBegins(g, xstep, ystep);
    if ScrollEnds(g, xstep, ystep) {
      var m: nat := 0;
      if Abs(ystep) != g.height {
        m := RowsEnd(g, xstep, ystep, ScanStart(g.height, ystep), 0);
      }
      assert ScanAfter(g, xstep, ystep, m) == Over;
    } else {
      forall n: nat ensures ScanAfter(g, xstep, ystep, n) != Over {
        ScanNeverMeetsEnd(g, xstep, ystep, n);
      }
    }
  }

  /** Scrolling one pixel more than the width, in a picture that has a row. */
  lemma ScrollPastTheWidth(g: Geometry, n: nat)
    requires g.height > 0
    ensures ScanAfter(g, g.width + 1, 0, n).At?
  {
    ScanNeverMeetsEnd(g, g.width + 1, 0, n);
  }

  // ---------- Line ----------

  function Abs(n: int): nat { if n < 0 then -n else n }

  function Sign(n: int): int { if n > 0 then 1 else -1 }

  /** The integer nearest to dy * i / dx (halves rounded up): where the ideal line is. */
  ghost function Nearest(dx: nat, dy: nat, i: nat): int {
    if dx == 0 then 0 else (2 * (dy * i) + dx) / (2 * dx)
  }

  ghost function LineLength(x1: int, y1: int, x2: int, y2: int): nat {
    if Abs(y2 - y1) > Abs(x2 - x1) then Abs(y2 - y1) else Abs(x2 - x1)
  }

  /** The i-th pixel of the ideal line: i steps along the longer axis, the nearest row or
      column along the other. */
  ghost function LinePoint(x1: int, y1: int, x2: int, y2: int, i: nat): (int, int) {
    var dx, dy := Abs(x2 - x1), Abs(y2 - y1);
    if dy > dx then (x1 + Sign(x2 - x1) * Nearest(dy, dx, i), y1 + Sign(y2 - y1) * i)
    else (x1 + Sign(x2 - x1) * i, y1 + Sign(y2 - y1) * Nearest(dx, dy, i))
  }

  /** The pixels of the picture that lie on the first n points of the line. */
  ghost function LinePixels(g: Geometry, x1: int, y1: int, x2: int, y2: int, n: nat): Region {
    iset p: (int, int) | InPicture(g, p.0, p.1) && exists i: nat :: i < n && p == LinePoint(x1, y1, x2, y2, i)
  }

  lemma NearestUnique(dx: nat, dy: nat, i: nat, k: int)
    requires dx > 0 && 0 <= 2 * (dy * i) + dx - 2 * dx * k < 2 * dx
    ensures k == Nearest(dx, dy, i)
  {
    QuotientUnique(2 * (dy * i) + dx, 2 * dx, k);
  }

  lemma NearestBounds(dx: nat, dy: nat, i: nat)
    requires dx > 0
    ensures 0 <= 2 * (dy * i) + dx - 2 * dx * Nearest(dx, dy, i) < 2 * dx
  {
    var n, d := 2 * (dy * i) + dx, 2 * dx;
    assert n == n / d * d + n % d;
  }

  /** The Bresenham error bound: the pixel is at most half a pixel off the ideal line. */
  lemma LineIsClose(dx: nat, dy: nat, i: nat)
    requires dx > 0
    ensures 2 * (dy * i) - dx < 2 * dx * Nearest(dx, dy, i) <= 2 * (dy * i) + dx
  {
    NearestBounds(dx, dy, i);
  }

  /** In all octants: twice the area that a point spans with the ideal line is at most its length along
      the longer axis, which is half a pixel off. */
  lemma LineIsStraight(x1: int, y1: int, x2: int, y2: int, i: nat)
    ensures var p := LinePoint(x1, y1, x2, y2, i);
            Abs(2 * ((p.0 - x1) * (y2 - y1) - (p.1 - y1) * (x2 - x1))) <= LineLength(x1, y1, x2, y2)
  {
    var dx, dy, sx, sy := Abs(x2 - x1), Abs(y2 - y1), Sign(x2 - x1), Sign(y2 - y1);
    hide Nearest;
    assert x2 - x1 == sx * dx && y2 - y1 == sy * dy;
    if dy > dx {
      LineIsClose(dy, dx, i);
      Twice(dy, Nearest(dy, dx, i));
      CrossProduct(sx, sy, Nearest(dy, dx, i), i, dx, dy);
      assert dx * i == i * dx;
    } else if dx > 0 {
      LineIsClose(dx, dy, i);
      Twice(dx, Nearest(dx, dy, i));
      CrossProduct(sx, sy, i, Nearest(dx, dy, i), dx, dy);
    }
  }

  lemma Twice(d: nat, n: int)
    ensures 2 * d * n == 2 * (d * n)
  {
  }

  lemma CrossProduct(sx: int, sy: int, p: int, q: int, dx: nat, dy: nat)
    requires (sx == 1 || sx == -1) && (sy == 1 || sy == -1)
    ensures Abs((sx * p) * (sy * dy) - (sy * q) * (sx * dx)) == Abs(dy * p - dx * q)
  {
    var a, b := p * dy, q * dx;
    assert dy * p == a && dx * q == b;
    if sx == 1 {
      assert (sx * p) * (sy * dy) == sy * a && (sy * q) * (sx * dx) == sy * b;
    } else {
      assert (sx * p) * (sy * dy) == -sy * a && (sy * q) * (sx * dx) == -sy * b;
    }
  }

  /** The minor coordinate moves by at most one pixel a step, and never back. */
  lemma NearestStep(dx: nat, dy: nat, i: nat)
    requires dy <= dx
    ensures Nearest(dx, dy, i) <= Nearest(dx, dy, i + 1) <= Nearest(dx, dy, i) + 1
  {
    if dx > 0 {
      NearestBounds(dx, dy, i);
      var k := Nearest(dx, dy, i);
      assert dy * (i + 1) == dy * i + dy;
      if 2 * (dy * (i + 1)) + dx - 2 * dx * k < 2 * dx {
        NearestUnique(dx, dy, i + 1, k);
      } else {
        assert 2 * dx * (k + 1) == 2 * dx * k + 2 * dx;
        NearestUnique(dx, dy, i + 1, k + 1);
      }
    }
  }

  lemma NearestEnds(dx: nat, dy: nat)
    requires dy <= dx
    ensures Nearest(dx, dy, 0) == 0 && Nearest(dx, dy, dx) == dy
  {
    if dx > 0 {
      NearestUnique(dx, dy, 0, 0);
      assert 2 * (dy * dx) == 2 * dx * dy;
      NearestUnique(dx, dy, dx, dy);
    }
  }

  /** The line starts and ends exactly at the two points asked for. */
  lemma LineEnds(x1: int, y1: int, x2: int, y2: int)
    ensures LinePoint(x1, y1, x2, y2, 0) == (x1, y1)
    ensures LinePoint(x1, y1, x2, y2, LineLength(x1, y1, x2, y2)) == (x2, y2)
  {
    hide Nearest;
    var dx, dy := Abs(x2 - x1), Abs(y2 - y1);
    if dy > dx {
      NearestEnds(dy, dx);
    } else {
      NearestEnds(dx, dy);
    }
  }

  /** Consecutive points touch: each is one of the eight neighbours of the one before. */
  lemma LineIsConnected(x1: int, y1: int, x2: int, y2: int, i: nat)
    ensures var p, q := LinePoint(x1, y1, x2, y2, i), LinePoint(x1, y1, x2, y2, i + 1);
            p != q && -1 <= q.0 - p.0 <= 1 && -1 <= q.1 - p.1 <= 1
  {
    hide Nearest;
    var dx, dy := Abs(x2 - x1), Abs(y2 - y1);
    if dy > dx {
      NearestStep(dy, dx, i);
    } else {
      NearestStep(dx, dy, i);
    }
  }

  /** The loop's own state after i steps: k minor steps taken, error term e. */
  ghost predicate Bresenham(dx: nat, dy: nat, i: nat, k: int, e: int) {
    k == Nearest(dx, dy, i) && e == 2 * (dy * i) + 2 * dy - dx - 2 * dx * k
  }

  lemma BresenhamStart(dx: nat, dy: nat)
    requires dy <= dx
    ensures Bresenham(dx, dy, 0, 0, 2 * dy - dx)
  {
    NearestEnds(dx, dy);
  }

  /** The minor steps are over when e is negative again; that is the nearest pixel. */
  lemma BresenhamStep(dx: nat, dy: nat, i: nat, k: int, e: int)
    requires dx > 0 && e == 2 * (dy * i) + 2 * dy - dx - 2 * dx * k && -2 * dx <= e < 0
    ensures Bresenham(dx, dy, i + 1, k, e + 2 * dy)
  {
    assert dy * (i + 1) == dy * i + dy;
    NearestUnique(dx, dy, i + 1, k);
  }

  lemma LineOneMore(g: Geometry, x1: int, y1: int, x2: int, y2: int, n: nat)
    ensures var p := LinePoint(x1, y1, x2, y2, n);
            LinePixels(g, x1, y1, x2, y2, n + 1) ==
            LinePixels(g, x1, y1, x2, y2, n) + (if InPicture(g, p.0, p.1) then iset{p} else iset{})
  {
    hide LinePoint;
    forall p: (int, int) | InPicture(g, p.0, p.1)
      ensures p in LinePixels(g, x1, y1, x2, y2, n + 1) <==>
              p in LinePixels(g, x1, y1, x2, y2, n) || p == LinePoint(x1, y1, x2, y2, n)
    {
      if p == LinePoint(x1, y1, x2, y2, n) {
      } else if p in LinePixels(g, x1, y1, x2, y2, n + 1) {
        var i: nat :| i < n + 1 && p == LinePoint(x1, y1, x2, y2, i);
        assert i < n;
      }
    }
  }

  /** Plot the n-th point of the line if it is in the picture. */
  method Plot(fb: FrameBuffer, x: int, y: int, col: Colour, ghost a: seq<Cell>,
              ghost x1: int, ghost y1: int, ghost x2: int, ghost y2: int, ghost n: nat)
    requires fb.Valid() && (x, y) == LinePoint(x1, y1, x2, y2, n)
    requires Painted(fb.g, a, fb.buf[..], LinePixels(fb.g, x1, y1, x2, y2, n), col)
    modifies fb.buf
    ensures Painted(fb.g, a, fb.buf[..], LinePixels(fb.g, x1, y1, x2, y2, n + 1), col)
  {
    hide Painted, LinePixels, LinePoint;
    ghost var b, r := fb.buf[..], LinePixels(fb.g, x1, y1, x2, y2, n);
    LineOneMore(fb.g, x1, y1, x2, y2, n);
    if 0 <= x < fb.g.width && 0 <= y < fb.g.height {
      fb.SetPixel(x, y, col);
      PaintedTwice(fb.g, a, b, fb.buf[..], r, iset{(x, y)}, col);
    } else {
      assert r + iset{} == r;
    }
  }

  /** Line paints the visible part of the ideal line from (x1, y1) to (x2, y2). */
  method Line(fb: FrameBuffer, x1: int, y1: int, x2: int, y2: int, col: Colour)
    requires fb.Valid()
    modifies fb.buf
    ensures Painted(fb.g, old(fb.buf[..]), fb.buf[..],
                    LinePixels(fb.g, x1, y1, x2, y2, LineLength(x1, y1, x2, y2) + 1), col)
  {
    hide Painted, LinePixels, Nearest, Bresenham;
    ghost var a := fb.buf[..];
    var dx, sx := x2 - x1, 1;
    if !(dx > 0) {
      dx, sx := -dx, -1;
    }
    var dy, sy := y2 - y1, 1;
    if !(dy > 0) {
      dy, sy := -dy, -1;
    }
    var steep := dy > dx;
    var x, y := x1, y1;
    if steep {
      x, y, dx, dy, sx, sy := y, x, dy, dx, sy, sx;
    }
    ghost var mx, my := x, y;
    var e := 2 * dy - dx;
    ghost var k := 0;
    BresenhamStart(dx, dy);
    LineNothing(fb.g, a, x1, y1, x2, y2, col);
    for i := 0 to dx
      invariant Bresenham(dx, dy, i, k, e)
      invariant x == mx + sx * i && y == my + sy * k
      invariant Painted(fb.g, a, fb.buf[..], LinePixels(fb.g, x1, y1, x2, y2, i), col)
    {
      BresenhamState(dx, dy, i, k, e);
      if steep {
        Plot(fb, y, x, col, a, x1, y1, x2, y2, i);
      } else {
        Plot(fb, x, y, col, a, x1, y1, x2, y2, i);
      }
      ghost var plotted := fb.buf[..];
      while e >= 0
        invariant fb.buf[..] == plotted
        invariant y == my + sy * k
        invariant e == 2 * (dy * i) + 2 * dy - dx - 2 * dx * k && -2 * dx <= e
        decreases e
      {
        Distribute(dx, k);
        y := y + sy;
        e := e - 2 * dx;
        k := k + 1;
      }
      BresenhamStep(dx, dy, i, k, e);
      x := x + sx;
      e := e + 2 * dy;
    }
    LineEnds(x1, y1, x2, y2);
    Plot(fb, x2, y2, col, a, x1, y1, x2, y2, dx);
  }

  lemma BresenhamState(dx: nat, dy: nat, i: nat, k: int, e: int)
    requires Bresenham(dx, dy, i, k, e) && dx > 0
    ensures k == Nearest(dx, dy, i) && e == 2 * (dy * i) + 2 * dy - dx - 2 * dx * k && -2 * dx <= e
  {
    NearestBounds(dx, dy, i);
  }

  lemma Distribute(dx: int, k: int)
    ensures 2 * dx * (k + 1) == 2 * dx * k + 2 * dx
  {
  }

  lemma LineNothing(g: Geometry, a: seq<Cell>, x1: int, y1: int, x2: int, y2: int, col: Colour)
    requires Fits(g, a)
    ensures Painted(g, a, a, LinePixels(g, x1, y1, x2, y2, 0), col)
  {
    assert LinePixels(g, x1, y1, x2, y2, 0) == iset{};
    PaintedNothing(g, a, col);
  }

  // ---------- Blit ----------

  /** A colour used as an x position. */
  function Column(col: Colour): nat { col as int }

  /** The colour a source pixel is drawn in: its own, or the palette's entry for it. */
  ghost function Drawn(pg: Geometry, p: Option<seq<Cell>>, col: Colour): Colour
    requires p.Some? ==> Fits(pg, p.value) && OnGrid(pg, Column(col), 0)
  {
    if p.Some? then Pixel(pg, p.value, Column(col), 0) else col
  }

  /** The mp_int_t key compared as uint32_t. */
  function KeyColour(key: int): Colour { (key % 0x1_0000_0000) as Colour }

  /** How many colours a format has. */
  function Colours(f: Format): nat {
    match f
    case MHLSB | MHMSB | MVLSB => 2
    case GS2_HMSB => 4
    case GS4_HMSB => 16
    case GS8 => 256
    case RGB565 => 65536
  }

  lemma ColourInRange(g: Geometry, b: seq<Cell>, x: int, y: int)
    requires Fits(g, b) && OnGrid(g, x, y)
    ensures Column(Pixel(g, b, x, y)) < Colours(g.fmt)
  {
    hide Index, Slot, Get, Colours, Column;
    IndexInBounds(g, x, y);
    GetInRange(g.fmt, Slot(g, x, y), b[Index(g, x, y)]);
  }

  lemma GetInRange(f: Format, slot: nat, cell: Cell)
    ensures Column(Get(f, slot, cell)) < Colours(f)
  {
    GetAtMost(f, slot, cell);
    hide Get;
    FewColours(Get(f, slot, cell));
    ManyColours(Get(f, slot, cell));
  }

  lemma GetAtMost(f: Format, slot: nat, cell: Cell)
    ensures match f
            case MHLSB | MHMSB | MVLSB => Get(f, slot, cell) < 2
            case GS2_HMSB => Get(f, slot, cell) < 4
            case GS4_HMSB => Get(f, slot, cell) < 16
            case GS8 => Get(f, slot, cell) < 256
            case RGB565 => Get(f, slot, cell) < 65536
  {
    hide HasBit;
  }

  lemma FewColours(c: Colour)
    ensures c < 2 ==> Column(c) < 2
    ensures c < 4 ==> Column(c) < 4
    ensures c < 16 ==> Column(c) < 16
  {
  }

  lemma ManyColours(c: Colour)
    ensures c < 256 ==> Column(c) < 256
    ensures c < 65536 ==> Column(c) < 65536
  {
  }

  /** All of them occur, so that a palette cannot do with fewer columns. */
  lemma ColoursOccur(f: Format)
    ensures Column(Get(f, 0, 0xffff)) == Colours(f) - 1
  {
  }

  lemma MinusOneKey()
    ensures Column(KeyColour(-1)) == 0xffff_ffff
  {
    assert -1 % 0x1_0000_0000 == 0xffff_ffff;
  }

  /** The default key, -1, is no colour, so without a key nothing is transparent. */
  lemma DefaultKeyMatchesNothing(g: Geometry, b: seq<Cell>, x: int, y: int)
    requires Fits(g, b) && OnGrid(g, x, y)
    ensures Pixel(g, b, x, y) != KeyColour(-1)
  {
    hide Pixel, KeyColour, Column;
    ColourInRange(g, b, x, y);
    MinusOneKey();
    assert Colours(g.fmt) <= 65536;
  }

  /** The pixels a blit may write: in the target's picture and under the source's. */
  ghost predicate Under(g: Geometry, sg: Geometry, x: int, y: int, px: int, py: int) {
    InPicture(g, px, py) && InPicture(sg, px - x, py - y)
  }

  datatype Sprite = Sprite(g: Geometry, cells: seq<Cell>, pg: Geometry, palette: Option<seq<Cell>>) {
    ghost predicate Ok() {
      && Fits(g, cells)
      && (palette.Some? ==> Fits(pg, palette.value) && pg.height > 0 && Colours(g.fmt) <= pg.stride)
    }

    /** The colour this sprite draws at its pixel (x, y). */
    ghost function At(x: int, y: int): Colour
      requires Ok() && InPicture(g, x, y)
    {
      ColourInRange(g, cells, x, y);
      Drawn(pg, palette, Pixel(g, cells, x, y))
    }
  }

  /** In the order that a blit draws in, (qx, qy) comes before (px, py). */
  ghost predicate Earlier(qx: int, qy: int, px: int, py: int) {
    qy < py || (qy == py && qx < px)
  }

  lemma TruncInRange(f: Format, col: Colour)
    ensures Column(Trunc(f, col)) < Colours(f)
  {
    hide Trunc, Get, Put, Colours, Column;
    PutThenGet(f, 0, 0, col);
    GetInRange(f, 0, Put(f, 0, 0, col));
  }

  /** The colour of (px, py) after a blit at (x, y) onto the picture a. A picture that is drawn on
      itself (own) may have been overwritten where the colour comes from. */
  ghost function Shown(g: Geometry, a: seq<Cell>, s: Sprite, own: bool, x: int, y: int, key: Colour, px: int, py: int): (col: Colour)
    requires s.Ok() && Fits(g, a) && OnGrid(g, px, py) && (own ==> s.g == g && s.cells == a)
    ensures Column(col) < Colours(g.fmt)
    decreases py, px, 1
  {
    ColourInRange(g, a, px, py);
    if Under(g, s.g, x, y, px, py) then
      var col := Source(g, a, s, own, x, y, key, px, py);
      TruncInRange(g.fmt, col);
      if col != key then Trunc(g.fmt, col) else Pixel(g, a, px, py)
    else Pixel(g, a, px, py)
  }

  /** The colour drawn there, which is the sprite's when all that comes before has been drawn. */
  ghost function Source(g: Geometry, a: seq<Cell>, s: Sprite, own: bool, x: int, y: int, key: Colour, px: int, py: int): Colour
    requires s.Ok() && Fits(g, a) && (own ==> s.g == g && s.cells == a) && Under(g, s.g, x, y, px, py)
    decreases py, px, 0
  {
    var qx, qy := px - x, py - y;
    ColourInRange(s.g, s.cells, qx, qy);
    Drawn(s.pg, s.palette,
          if own && Earlier(qx, qy, px, py) then Shown(g, a, s, own, x, y, key, qx, qy) else Pixel(s.g, s.cells, qx, qy))
  }

  /** What comes before (m, n) has been drawn. */
  ghost predicate BlittedTo(g: Geometry, a: seq<Cell>, b: seq<Cell>, s: Sprite, own: bool, x: int, y: int, key: Colour, m: int, n: int)
    requires s.Ok() && (own ==> s.g == g && s.cells == a)
  {
    && Fits(g, a) && Fits(g, b) && |a| == |b|
    && forall px, py {:trigger Pixel(g, b, px, py)} | OnGrid(g, px, py) ::
         Pixel(g, b, px, py) == if Earlier(px, py, m, n) then Shown(g, a, s, own, x, y, key, px, py) else Pixel(g, a, px, py)
  }

  /** All of it has. */
  ghost predicate Blitted(g: Geometry, a: seq<Cell>, b: seq<Cell>, s: Sprite, own: bool, x: int, y: int, key: Colour)
    requires s.Ok() && (own ==> s.g == g && s.cells == a)
  {
    && Fits(g, a) && Fits(g, b) && |a| == |b|
    && forall px, py {:trigger Pixel(g, b, px, py)} | OnGrid(g, px, py) ::
         Pixel(g, b, px, py) == Shown(g, a, s, own, x, y, key, px, py)
  }

  /** Blit draws the sprite as it was, clipped, and leaves everything else. */
  ghost predicate ShowsSprite(g: Geometry, a: seq<Cell>, b: seq<Cell>, s: Sprite, x: int, y: int, key: Colour)
    requires s.Ok()
  {
    && Fits(g, a) && Fits(g, b) && |a| == |b|
    && forall px, py {:trigger Pixel(g, b, px, py)} | OnGrid(g, px, py) ::
         Pixel(g, b, px, py) ==
         if Under(g, s.g, x, y, px, py) && s.At(px - x, py - y) != key
         then Trunc(g.fmt, s.At(px - x, py - y)) else Pixel(g, a, px, py)
  }

  ghost function SpriteOf(source: FrameBuffer, palette: FrameBuffer?): Sprite
    reads source.buf, if palette == null then {} else {palette.buf}
  {
    Sprite(source.g, source.buf[..], if palette == null then source.g else palette.g,
           if palette == null then None else Some(palette.buf[..]))
  }

  method SpritePixel(source: FrameBuffer, palette: FrameBuffer?, x: nat, y: nat) returns (col: Colour)
    requires source.Valid() && InPicture(source.g, x, y)
    requires palette != null ==>
               palette.Valid() && palette.g.height > 0 && Colours(source.g.fmt) <= palette.g.stride
    ensures col == SpriteOf(source, palette).At(x, y)
    ensures var own := Pixel(source.g, source.buf[..], x, y);
            if palette == null then col == own
            else OnGrid(palette.g, Column(own), 0) && col == Pixel(palette.g, palette.buf[..], Column(own), 0)
  {
    hide Pixel, Cells, Colours, Column;
    col := source.GetPixel(x, y);
    if palette != null {
      ColourInRange(source.g, source.buf[..], x, y);
      col := palette.GetPixel(Column(col), 0);
    }
  }

  method Blit(fb: FrameBuffer, source: FrameBuffer, x: int, y: int, key: int, palette: FrameBuffer?)
    requires fb.Valid() && source.Valid()
    // a palette needs one pixel for every colour the source format has
    requires palette != null ==>
               palette.Valid() && palette.g.height > 0 && Colours(source.g.fmt) <= palette.g.stride
    // a picture may be drawn on itself; otherwise the buffers are different objects
    requires source.buf == fb.buf ==> source.g == fb.g
    requires palette != null ==> palette.buf != fb.buf
    modifies fb.buf
    ensures Blitted(fb.g, old(fb.buf[..]), fb.buf[..], old(SpriteOf(source, palette)), source.buf == fb.buf, x, y, KeyColour(key))
    ensures source.buf != fb.buf || ReadsFirst(fb.g, x, y) ==>
              ShowsSprite(fb.g, old(fb.buf[..]), fb.buf[..], old(SpriteOf(source, palette)), x, y, KeyColour(key))
  {
    hide Painted, Blitted, BlittedTo, ShowsSprite, Pixel, Trunc, KeyColour, Cells, Colours, Drawn, Column, ReadsFirst;
    ghost var a, s, own := fb.buf[..], SpriteOf(source, palette), source.buf == fb.buf;
    var k := KeyColour(key);
    if x >= fb.g.width || y >= fb.g.height || -x >= source.g.width || -y >= source.g.height {
      BlitStart(fb.g, a, s, own, x, y, k, 0, 0);
      BlitDone(fb.g, a, a, s, own, x, y, k, 0, 0);
      return;
    }
    var x0, y0 := Max(0, x), Max(0, y);
    var x1, y1 := Max(0, -x), Max(0, -y);
    var x0end, y0end := Min(fb.g.width, x + source.g.width), Min(fb.g.height, y + source.g.height);
    BlitStart(fb.g, a, s, own, x, y, k, x0, y0);
    while y0 < y0end
      invariant Max(0, y) <= y0 <= y0end && y1 == y0 - y
      invariant SpriteOf(source, palette) == if own then s.(cells := fb.buf[..]) else s
      invariant BlittedTo(fb.g, a, fb.buf[..], s, own, x, y, k, x0, y0)
    {
      var cx0, cx1 := x0, x1;
      while cx0 < x0end
        invariant x0 <= cx0 <= x0end && cx1 == cx0 - x
        invariant SpriteOf(source, palette) == if own then s.(cells := fb.buf[..]) else s
        invariant BlittedTo(fb.g, a, fb.buf[..], s, own, x, y, k, cx0, y0)
      {
        ghost var b := fb.buf[..];
        var col := SpritePixel(source, palette, cx1, y1);
        SourceNow(fb.g, a, b, s, own, x, y, k, cx0, y0);
        if col != k {
          fb.SetPixel(cx0, y0, col);
          BlitStep(fb.g, a, b, fb.buf[..], s, own, x, y, k, cx0, y0, col);
        } else {
          BlitSkip(fb.g, a, b, s, own, x, y, k, cx0, y0);
        }
        cx0, cx1 := cx0 + 1, cx1 + 1;
      }
      BlitRowDone(fb.g, a, fb.buf[..], s, own, x, y, k, x0, x0end, y0);
      y0, y1 := y0 + 1, y1 + 1;
    }
    BlitDone(fb.g, a, fb.buf[..], s, own, x, y, k, x0, y0);
  }

  /** When a picture is drawn on itself at (x, y), row by row, no pixel is read after it was
      overwritten: it moves up or to the left, or at least half its size. */
  ghost predicate ReadsFirst(g: Geometry, x: int, y: int) {
    y < 0 || (y == 0 && x <= 0) || 2 * y >= g.height || 2 * x >= g.width || -2 * x >= g.width
  }

  /** That is, no drawn pixel gets its colour from one that was drawn earlier. */
  lemma ReadsFirstExactly(g: Geometry, x: int, y: int)
    ensures ReadsFirst(g, x, y) <==>
              forall px, py | Under(g, g, x, y, px, py) && Under(g, g, x, y, px - x, py - y) :: !Earlier(px - x, py - y, px, py)
  {
    if !ReadsFirst(g, x, y) {
      var px, py := if x >= 0 then 2 * x else 0, 2 * y;
      assert Under(g, g, x, y, px, py) && Under(g, g, x, y, px - x, py - y);
    }
  }

  lemma OutsideShown(g: Geometry, a: seq<Cell>, s: Sprite, own: bool, x: int, y: int, key: Colour)
    requires s.Ok() && Fits(g, a) && (own ==> s.g == g && s.cells == a)
    ensures forall px, py | OnGrid(g, px, py) && !Under(g, s.g, x, y, px, py) ::
              Shown(g, a, s, own, x, y, key, px, py) == Pixel(g, a, px, py)
  {
    hide Pixel, Trunc, Drawn, Column;
  }

  /** The sprite's own pixel is what is shown, unless it was overwritten before it is read. */
  lemma ShownIsSprite(g: Geometry, a: seq<Cell>, s: Sprite, own: bool, x: int, y: int, key: Colour, px: int, py: int)
    requires s.Ok() && Fits(g, a) && (own ==> s.g == g && s.cells == a && ReadsFirst(g, x, y))
    requires Under(g, s.g, x, y, px, py)
    ensures Shown(g, a, s, own, x, y, key, px, py)
            == if s.At(px - x, py - y) != key then Trunc(g.fmt, s.At(px - x, py - y)) else Pixel(g, a, px, py)
  {
    OutsideShown(g, a, s, own, x, y, key);
    hide Pixel, Trunc, Drawn, Column;
  }

  lemma SourceShown(g: Geometry, a: seq<Cell>, s: Sprite, own: bool, x: int, y: int, key: Colour, m: int, n: int)
    requires s.Ok() && Fits(g, a) && (own ==> s.g == g && s.cells == a) && Under(g, s.g, x, y, m, n)
    ensures Shown(g, a, s, own, x, y, key, m, n)
            == var col := Source(g, a, s, own, x, y, key, m, n); if col != key then Trunc(g.fmt, col) else Pixel(g, a, m, n)
  {
    hide Pixel, Trunc, Drawn, Column;
  }

  lemma SourceNow(g: Geometry, a: seq<Cell>, b: seq<Cell>, s: Sprite, own: bool, x: int, y: int, key: Colour, m: int, n: int)
    requires s.Ok() && (own ==> s.g == g && s.cells == a) && BlittedTo(g, a, b, s, own, x, y, key, m, n)
    requires Under(g, s.g, x, y, m, n)
    ensures var now := if own then s.(cells := b) else s;
            now.Ok() && now.At(m - x, n - y) == Source(g, a, s, own, x, y, key, m, n)
  {
    hide Pixel, Trunc, Drawn, Column, Shown;
    if own {
      assert OnGrid(g, m - x, n - y);
    }
  }

  lemma BlitStart(g: Geometry, a: seq<Cell>, s: Sprite, own: bool, x: int, y: int, key: Colour, m: int, n: int)
    requires s.Ok() && Fits(g, a) && (own ==> s.g == g && s.cells == a)
    requires m <= Max(0, x) && n <= Max(0, y)
    ensures BlittedTo(g, a, a, s, own, x, y, key, m, n)
  {
    OutsideShown(g, a, s, own, x, y, key);
    hide Pixel, Trunc, Shown;
  }

  lemma BlitStep(g: Geometry, a: seq<Cell>, b: seq<Cell>, c: seq<Cell>, s: Sprite, own: bool, x: int, y: int, key: Colour, m: int, n: int, col: Colour)
    requires s.Ok() && (own ==> s.g == g && s.cells == a) && BlittedTo(g, a, b, s, own, x, y, key, m, n)
    requires Under(g, s.g, x, y, m, n) && col == Source(g, a, s, own, x, y, key, m, n) != key
    requires Painted(g, b, c, iset{(m, n)}, col)
    ensures BlittedTo(g, a, c, s, own, x, y, key, m + 1, n)
  {
    hide Pixel, Trunc, Drawn, Column, Shown, Source;
    SourceShown(g, a, s, own, x, y, key, m, n);
    forall px, py | OnGrid(g, px, py)
      ensures Pixel(g, c, px, py)
              == if Earlier(px, py, m + 1, n) then Shown(g, a, s, own, x, y, key, px, py) else Pixel(g, a, px, py)
    {
      assert Pixel(g, c, px, py) == if px == m && py == n then Trunc(g.fmt, col) else Pixel(g, b, px, py);
    }
  }

  lemma BlitSkip(g: Geometry, a: seq<Cell>, b: seq<Cell>, s: Sprite, own: bool, x: int, y: int, key: Colour, m: int, n: int)
    requires s.Ok() && (own ==> s.g == g && s.cells == a) && BlittedTo(g, a, b, s, own, x, y, key, m, n)
    requires Under(g, s.g, x, y, m, n) && Source(g, a, s, own, x, y, key, m, n) == key
    ensures BlittedTo(g, a, b, s, own, x, y, key, m + 1, n)
  {
    SourceShown(g, a, s, own, x, y, key, m, n);
    hide Pixel, Trunc, Drawn, Column, Shown, Source;
  }

  lemma BlitRowDone(g: Geometry, a: seq<Cell>, b: seq<Cell>, s: Sprite, own: bool, x: int, y: int, key: Colour, m: int, end: int, n: int)
    requires s.Ok() && (own ==> s.g == g && s.cells == a) && BlittedTo(g, a, b, s, own, x, y, key, end, n)
    requires m == Max(0, x) && end == Min(g.width, x + s.g.width)
    ensures BlittedTo(g, a, b, s, own, x, y, key, m, n + 1)
  {
    OutsideShown(g, a, s, own, x, y, key);
    hide Pixel, Trunc, Drawn, Column, Shown;
  }

  lemma BlitDone(g: Geometry, a: seq<Cell>, b: seq<Cell>, s: Sprite, own: bool, x: int, y: int, key: Colour, m: int, n: int)
    requires s.Ok() && (own ==> s.g == g && s.cells == a) && BlittedTo(g, a, b, s, own, x, y, key, m, n)
    requires m <= Max(0, x)
    requires n >= Min(g.height, y + s.g.height) || x >= g.width || y >= g.height || -x >= s.g.width || -y >= s.g.height
    ensures Blitted(g, a, b, s, own, x, y, key)
    ensures !own || ReadsFirst(g, x, y) ==> ShowsSprite(g, a, b, s, x, y, key)
  {
    OutsideShown(g, a, s, own, x, y, key);
    hide Pixel, Trunc, Drawn, Column, Shown, ReadsFirst;
    if !own || ReadsFirst(g, x, y) {
      BlitShowsSprite(g, a, b, s, own, x, y, key);
    }
  }

  /** Onto another picture, or onto itself when every pixel is read first, a blit draws the sprite
      as it was. */
  lemma BlitShowsSprite(g: Geometry, a: seq<Cell>, b: seq<Cell>, s: Sprite, own: bool, x: int, y: int, key: Colour)
    requires s.Ok() && (own ==> s.g == g && s.cells == a && ReadsFirst(g, x, y)) && Blitted(g, a, b, s, own, x, y, key)
    ensures ShowsSprite(g, a, b, s, x, y, key)
  {
    OutsideShown(g, a, s, own, x, y, key);
    hide Pixel, Trunc, Drawn, Column, Shown, ReadsFirst;
    forall px, py | OnGrid(g, px, py) && Under(g, s.g, x, y, px, py)
      ensures Pixel(g, b, px, py) == if s.At(px - x, py - y) != key then Trunc(g.fmt, s.At(px - x, py - y)) else Pixel(g, a, px, py)
    {
      ShownIsSprite(g, a, s, own, x, y, key, px, py);
    }
  }

  /** Otherwise it may not: a picture drawn on itself one pixel to the right has the colour of its
      first column everywhere. */
  lemma DrawnOnItselfSmears(g: Geometry, a: seq<Cell>, s: Sprite, px: nat, py: nat)
    requires Fits(g, a) && s.Ok() && s.g == g && s.cells == a && s.palette.None? && px < g.width && py < g.height
    ensures Shown(g, a, s, true, 1, 0, KeyColour(-1), px, py) == Pixel(g, a, 0, py)
  {
    hide Pixel, Trunc, Column, KeyColour;
    if px > 0 {
      DrawnOnItselfSmears(g, a, s, px - 1, py);
      StoredColour(g, a, 0, py);
      DefaultKeyMatchesNothing(g, a, 0, py);
    }
  }
}
