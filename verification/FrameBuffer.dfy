/** The drawing operations of `framebuf`: every fast in-place form paints exactly
    the region it should. */
module FrameBuffers {
  import opened Basics
  import opened Pixels

  lemma NoRows(x: int, y: int, w: int)
    ensures Rect(x, y, w, 0) == iset{}
  {
  }

  lemma OneMoreRow(x: int, y: int, w: int, h: nat)
    ensures Rect(x, y, w, h) + Rect(x, y + h, w, 1) == Rect(x, y, w, h + 1)
  {
  }

  lemma OneMorePair(above: Region, x: int, y: int, w: nat)
    ensures above + Rect(x, y, w, 1) + iset{(x + w, y), (x + w + 1, y)} == above + Rect(x, y, w + 2, 1)
  {
  }

  lemma Evens(x: nat, i: nat)
    ensures (x + 2 * i) / 2 == x / 2 + i && (x + 2 * i) % 2 == x % 2
  {
  }

  lemma NextRow(n: nat, y: nat)
    ensures (y + 1) * n == y * n + n
  {
  }

  class FrameBuffer {
    const g: Geometry
    const buf: array<Cell>

    ghost predicate Valid() {
      Aligned(g) && g.width <= g.stride && Cells(g) <= buf.Length
    }

    /** The buffer as a picture. */
    ghost function View(x: int, y: int): Colour
      requires Valid() && OnGrid(g, x, y)
      reads buf
    {
      Pixel(g, buf[..], x, y)
    }

    constructor (buf: array<Cell>, g: Geometry)
      ensures this.buf == buf && this.g == g
    {
      this.buf := buf;
      this.g := g;
    }

    /** framebuf_make_new. Only an unknown format is refused; whether the picture can be drawn on
        depends on the stride asked for, in 16 bits, and on the size of the caller's buffer. */
    static method Make(buf: array<Cell>, width: int, height: int, code: int, stride: Option<int>)
      returns (fb: Option<FrameBuffer>)
      ensures fb.None? <==> code % 0x100 > 6
      ensures fb.Some? ==> fresh(fb.value) && fb.value.buf == buf && FormatOf(code) == Some(fb.value.g.fmt)
      ensures fb.Some? ==> fb.value.g.width == width % FIELD && fb.value.g.height == height % FIELD
      ensures fb.Some? ==>
                var g, unit := fb.value.g, StrideUnit(fb.value.g.fmt);
                var asked := if stride.Some? then stride.value % FIELD else g.width;
                fb.value.Valid() <==>
                  Cells(g) <= buf.Length && (g.width == 0 || RoundUp(g.width, unit) - unit < asked <= FIELD - unit)
    {
      var g := MakeGeometry(width, height, code, stride);
      if g.None? {
        return None;
      }
      MakeGeometryFits(width, height, code, stride);
      hide RoundUp, StrideUnit, Cells;
      var made := new FrameBuffer(buf, g.value);
      fb := Some(made);
    }

    // ---------- Single pixels ----------

    method SetPixel(x: nat, y: nat, col: Colour)
      requires Valid() && OnGrid(g, x, y)
      modifies buf
      ensures Painted(g, old(buf[..]), buf[..], iset{(x, y)}, col)
    {
      hide Index, Slot, Put, Painted;
      ghost var b := buf[..];
      PutPaintsOne(g, b, x, y, col);
      var i := Index(g, x, y);
      buf[i] := Put(g.fmt, Slot(g, x, y), buf[i], col);
      assert buf[..] == b[i := Put(g.fmt, Slot(g, x, y), b[i], col)];
    }

    method GetPixel(x: nat, y: nat) returns (col: Colour)
      requires Valid() && OnGrid(g, x, y)
      ensures col == View(x, y)
    {
      hide Index, Slot, Get;
      IndexInBounds(g, x, y);
      col := Get(g.fmt, Slot(g, x, y), buf[Index(g, x, y)]);
    }

    // ---------- The optimised fill of each format ----------

    /** The one assignment all fills share, `*b = ...`: it paints the pixel whose cell b is. */
    method Store(b: nat, cell: Cell, ghost a: seq<Cell>, ghost r: Region, ghost x: int, ghost y: int, ghost col: Colour)
      requires Valid() && OnGrid(g, x, y) && Painted(g, a, buf[..], r, col)
      requires b == Index(g, x, y) < buf.Length && cell == Put(g.fmt, Slot(g, x, y), buf[b], col)
      modifies buf
      ensures Painted(g, a, buf[..], r + iset{(x, y)}, col)
    {
      hide Painted, Index, Slot, Put;
      ghost var now := buf[..];
      PaintStep(g, a, now, r, x, y, col);
      buf[b] := cell;
      assert buf[..] == now[b := cell];
    }

    /** MHLSB and MHMSB: column by column, one bit in a cell every stride / 8 cells. */
    method MonoHorizFillRect(x: nat, y: nat, w: nat, h: nat, col: Colour)
      requires Valid() && (g.fmt.MHLSB? || g.fmt.MHMSB?)
      requires x + w <= g.stride && y + h <= g.height
      modifies buf
      ensures Painted(g, old(buf[..]), buf[..], Rect(x, y, w, h), col)
    {
      hide Painted, PutBit, Bit, Cells;
      ghost var a := buf[..];
      var advance := g.stride / 8;
      var xx, ww := x, w;
      PaintedNothing(g, a, col);
      assert Rect(x, y, 0, h) == iset{};
      while ww > 0
        invariant 0 <= ww && xx + ww == x + w && x <= xx
        invariant Painted(g, a, buf[..], Rect(x, y, xx - x, h), col)
      {
        ww := ww - 1;
        var b := xx / 8 + y * advance;
        var offset := if g.fmt.MHMSB? then xx % 8 else 7 - xx % 8;
        var hh := h;
        ghost var yy := y;
        ghost var left := Rect(x, y, xx - x, h);
        assert left + Rect(xx, y, 1, 0) == left;
        while hh > 0
          invariant 0 <= hh <= h && yy == y + h - hh
          invariant b == xx / 8 + yy * advance
          invariant Painted(g, a, buf[..], left + Rect(xx, y, 1, yy - y), col)
        {
          PackedIndex(8, g.stride, xx, yy);
          IndexInBounds(g, xx, yy);
          Store(b, PutBit(buf[b], Bit(offset), col != 0), a, left + Rect(xx, y, 1, yy - y), xx, yy, col);
          assert left + Rect(xx, y, 1, yy - y) + iset{(xx, yy)} == left + Rect(xx, y, 1, yy - y + 1);
          NextRow(advance, yy);
          b := b + advance;
          hh, yy := hh - 1, yy + 1;
        }
        assert left + Rect(xx, y, 1, h) == Rect(x, y, xx - x + 1, h);
        xx := xx + 1;
      }
    }

    /** MVLSB: row by row, the same bit of consecutive cells. */
    method MvlsbFillRect(x: nat, y: nat, w: nat, h: nat, col: Colour)
      requires Valid() && g.fmt.MVLSB?
      requires x + w <= g.stride && y + h <= g.height
      modifies buf
      ensures Painted(g, old(buf[..]), buf[..], Rect(x, y, w, h), col)
    {
      hide Painted, PutBit, Bit, Cells;
      ghost var a := buf[..];
      var yy, hh := y, h;
      PaintedNothing(g, a, col);
      assert Rect(x, y, w, 0) == iset{};
      while hh > 0
        invariant 0 <= hh && yy + hh == y + h && y <= yy
        invariant Painted(g, a, buf[..], Rect(x, y, w, yy - y), col)
      {
        hh := hh - 1;
        var b := yy / 8 * g.stride + x;
        var offset := yy % 8;
        ghost var above := Rect(x, y, w, yy - y);
        var ww := w;
        assert above + Rect(x, yy, 0, 1) == above;
        while ww > 0
          invariant 0 <= ww <= w && b == yy / 8 * g.stride + x + (w - ww)
          invariant Painted(g, a, buf[..], above + Rect(x, yy, w - ww, 1), col)
        {
          ghost var xx := x + w - ww;
          IndexInBounds(g, xx, yy);
          Store(b, PutBit(buf[b], Bit(offset), col != 0), a, above + Rect(x, yy, w - ww, 1), xx, yy, col);
          assert above + Rect(x, yy, w - ww, 1) + iset{(xx, yy)} == above + Rect(x, yy, w - ww + 1, 1);
          b := b + 1;
          ww := ww - 1;
        }
        assert above + Rect(x, yy, w, 1) == Rect(x, y, w, yy - y + 1);
        yy := yy + 1;
      }
    }

    /** RGB565: one running pointer, stepped over the rest of the row. */
    method Rgb565FillRect(x: nat, y: nat, w: nat, h: nat, col: Colour)
      requires Valid() && g.fmt.RGB565?
      requires x + w <= g.stride && y + h <= g.height
      modifies buf
      ensures Painted(g, old(buf[..]), buf[..], Rect(x, y, w, h), col)
    {
      hide Painted, Low, Cells;
      ghost var a := buf[..];
      var b := x + y * g.stride;
      var hh := h;
      ghost var yy := y;
      PaintedNothing(g, a, col);
      assert Rect(x, y, w, 0) == iset{};
      while hh > 0
        invariant 0 <= hh <= h && yy == y + h - hh && b == x + yy * g.stride
        invariant Painted(g, a, buf[..], Rect(x, y, w, yy - y), col)
      {
        hh := hh - 1;
        ghost var above := Rect(x, y, w, yy - y);
        var ww := w;
        assert above + Rect(x, yy, 0, 1) == above;
        while ww > 0
          invariant 0 <= ww <= w && b == x + yy * g.stride + (w - ww)
          invariant Painted(g, a, buf[..], above + Rect(x, yy, w - ww, 1), col)
        {
          ghost var xx := x + w - ww;
          IndexInBounds(g, xx, yy);
          Store(b, Low(col), a, above + Rect(x, yy, w - ww, 1), xx, yy, col);
          assert above + Rect(x, yy, w - ww, 1) + iset{(xx, yy)} == above + Rect(x, yy, w - ww + 1, 1);
          b := b + 1;
          ww := ww - 1;
        }
        assert above + Rect(x, yy, w, 1) == Rect(x, y, w, yy - y + 1);
        NextRow(g.stride, yy);
        b := b + (g.stride - w);
        yy := yy + 1;
      }
    }

    /** GS2_HMSB: pixel by pixel, column by column. */
    method Gs2HmsbFillRect(x: nat, y: nat, w: nat, h: nat, col: Colour)
      requires Valid() && g.fmt.GS2_HMSB?
      requires x + w <= g.stride && y + h <= g.height
      modifies buf
      ensures Painted(g, old(buf[..]), buf[..], Rect(x, y, w, h), col)
    {
      hide Painted, Cells;
      ghost var a := buf[..];
      var xx := x;
      PaintedNothing(g, a, col);
      assert Rect(x, y, 0, h) == iset{};
      while xx < x + w
        invariant x <= xx <= x + w
        invariant Painted(g, a, buf[..], Rect(x, y, xx - x, h), col)
      {
        var yy := y;
        ghost var left := Rect(x, y, xx - x, h);
        assert left + Rect(xx, y, 1, 0) == left;
        while yy < y + h
          invariant y <= yy <= y + h
          invariant Painted(g, a, buf[..], left + Rect(xx, y, 1, yy - y), col)
        {
          ghost var now := buf[..];
          SetPixel(xx, yy, col);
          PaintedTwice(g, a, now, buf[..], left + Rect(xx, y, 1, yy - y), iset{(xx, yy)}, col);
          assert left + Rect(xx, y, 1, yy - y) + iset{(xx, yy)} == left + Rect(xx, y, 1, yy - y + 1);
          yy := yy + 1;
        }
        assert left + Rect(xx, y, 1, h) == Rect(x, y, xx - x + 1, h);
        xx := xx + 1;
      }
    }

    /** GS8: memset one row after the other. */
    method Gs8FillRect(x: nat, y: nat, w: nat, h: nat, col: Colour)
      requires Valid() && g.fmt.GS8?
      requires x + w <= g.stride && y + h <= g.height
      modifies buf
      ensures Painted(g, old(buf[..]), buf[..], Rect(x, y, w, h), col)
    {
      hide Painted, LowByte, Cells;
      ghost var a := buf[..];
      var p := x + y * g.stride;
      var hh := h;
      ghost var yy := y;
      PaintedNothing(g, a, col);
      assert Rect(x, y, w, 0) == iset{};
      while hh > 0
        invariant 0 <= hh <= h && yy == y + h - hh && p == x + yy * g.stride
        invariant Painted(g, a, buf[..], Rect(x, y, w, yy - y), col)
      {
        hh := hh - 1;
        ghost var above := Rect(x, y, w, yy - y);
        assert above + Rect(x, yy, 0, 1) == above;
        for i := 0 to w
          invariant Painted(g, a, buf[..], above + Rect(x, yy, i, 1), col)
        {
          IndexInBounds(g, x + i, yy);
          Store(p + i, LowByte(col), a, above + Rect(x, yy, i, 1), x + i, yy, col);
          assert above + Rect(x, yy, i, 1) + iset{(x + i, yy)} == above + Rect(x, yy, i + 1, 1);
        }
        assert above + Rect(x, yy, w, 1) == Rect(x, y, w, yy - y + 1);
        NextRow(g.stride, yy);
        p := p + g.stride;
        yy := yy + 1;
      }
    }

    /** GS4_HMSB: two pixels to a byte. A row may start and end in half a byte, and the
        pointer must still advance by stride / 2 bytes a row in all four parity cases. */
    method Gs4HmsbFillRect(x: nat, y: nat, w: nat, h: nat, col: Colour)
      requires Valid() && g.fmt.GS4_HMSB?
      requires x + w <= g.stride && y + h <= g.height
      modifies buf
      ensures Painted(g, old(buf[..]), buf[..], Rect(x, y, w, h), col)
    {
      hide Painted, Cells, Index, Rect;
      ghost var a := buf[..];
      var pair := (x + y * g.stride) / 2;
      var tillNextLine := (g.stride - w) / 2;
      var hh := h;
      ghost var yy, rowCells := y, g.stride / 2;
      PaintedNothing(g, a, col);
      NoRows(x, y, w);
      PackedIndex(2, g.stride, x, y);
      hide Aligned;
      while hh > 0
        invariant 0 <= hh <= h && yy == y + h - hh && pair == x / 2 + yy * rowCells
        invariant Painted(g, a, buf[..], Rect(x, y, w, yy - y), col)
      {
        hh := hh - 1;
        pair := Gs4Line(x, w, pair, tillNextLine, col, a, Rect(x, y, w, yy - y), yy);
        OneMoreRow(x, y, w, yy - y);
        yy := yy + 1;
      }
    }

    /** One row, and on to the beginning of the next. */
    method Gs4Line(x: nat, w: nat, start: nat, tillNextLine: nat, col: Colour, ghost a: seq<Cell>, ghost above: Region, ghost y: nat)
      returns (pair: nat)
      requires Valid() && g.fmt.GS4_HMSB? && x + w <= g.stride && y < g.height
      requires start == x / 2 + y * (g.stride / 2) && tillNextLine == (g.stride - w) / 2
      requires Painted(g, a, buf[..], above, col)
      modifies buf
      ensures Painted(g, a, buf[..], above + Rect(x, y, w, 1), col)
      ensures pair == x / 2 + (y + 1) * (g.stride / 2)
    {
      hide Painted, Cells, Rect, Aligned;
      pair := Gs4Row(x, w, start, col, a, above, y);
      NextRow(g.stride / 2, y);
      pair := pair + tillNextLine;
    }

    /** One row of a GS4 fill; what is left to add reaches the same column of the next row. */
    method Gs4Row(x: nat, w: nat, start: nat, col: Colour, ghost a: seq<Cell>, ghost above: Region, ghost y: nat)
      returns (pair: nat)
      requires Valid() && g.fmt.GS4_HMSB? && x + w <= g.stride && y < g.height
      requires start == x / 2 + y * (g.stride / 2)
      requires Painted(g, a, buf[..], above, col)
      modifies buf
      ensures Painted(g, a, buf[..], above + Rect(x, y, w, 1), col)
      ensures pair + (g.stride - w) / 2 == start + g.stride / 2
    {
      hide Painted, PutLeft, PutRight, Cells, Index;
      pair := start;
      var oddX := x % 2 == 1;
      var ww := w;
      ghost var xx := x;
      assert above + Rect(x, y, 0, 1) == above;
      if oddX && ww > 0 {
        Gs4Cell(x, y);
        Store(pair, PutRight(buf[pair], col), a, above, x, y, col);
        assert above + iset{(x, y)} == above + Rect(x, y, 1, 1);
        pair := pair + 1;
        ww := ww - 1;
        xx := xx + 1;
      }
      MemSetPairs(pair, ww / 2, col, a, above, x, xx, y);
      pair := pair + ww / 2;
      if ww % 2 == 1 {
        ghost var last := x + w - 1;
        Gs4Cell(last, y);
        Store(pair, PutLeft(buf[pair], col), a, above + Rect(x, y, w - 1, 1), last, y, col);
        assert above + Rect(x, y, w - 1, 1) + iset{(last, y)} == above + Rect(x, y, w, 1);
        if !oddX {
          pair := pair + 1;
        }
      }
    }

    /** The memset in the middle of a GS4 row: n bytes, 2 * n pixels. */
    method MemSetPairs(pair: nat, n: nat, col: Colour,
                       ghost a: seq<Cell>, ghost above: Region, ghost x: nat, ghost xx: nat, ghost y: nat)
      requires Valid() && g.fmt.GS4_HMSB? && x <= xx && xx + 2 * n <= g.stride && y < g.height
      requires n > 0 ==> xx % 2 == 0 && pair == xx / 2 + y * (g.stride / 2)
      requires Painted(g, a, buf[..], above + Rect(x, y, xx - x, 1), col)
      modifies buf
      ensures Painted(g, a, buf[..], above + Rect(x, y, xx - x + 2 * n, 1), col)
    {
      hide Painted, Cells, Rect, Aligned;
      ghost var row := y * (g.stride / 2);
      for i := 0 to n
        invariant Painted(g, a, buf[..], above + Rect(x, y, xx - x + 2 * i, 1), col)
      {
        Evens(xx, i);
        assert pair + i == (xx + 2 * i) / 2 + row;
        FillPair(pair + i, col, a, above + Rect(x, y, xx - x + 2 * i, 1), xx + 2 * i, y);
        OneMorePair(above, x, y, xx - x + 2 * i);
      }
    }

    lemma Gs4Cell(x: nat, y: nat)
      requires Valid() && g.fmt.GS4_HMSB? && OnGrid(g, x, y)
      ensures Index(g, x, y) == x / 2 + y * (g.stride / 2) < buf.Length
    {
      PackedIndex(2, g.stride, x, y);
      IndexInBounds(g, x, y);
    }

    /** One byte of the memset in the middle of a GS4 row. */
    method FillPair(pair: nat, col: Colour, ghost a: seq<Cell>, ghost r: Region, ghost x: nat, ghost y: nat)
      requires Valid() && g.fmt.GS4_HMSB? && OnGrid(g, x, y) && OnGrid(g, x + 1, y) && x % 2 == 0
      requires pair == x / 2 + y * (g.stride / 2)
      requires Painted(g, a, buf[..], r, col)
      modifies buf
      ensures Painted(g, a, buf[..], r + iset{(x, y), (x + 1, y)}, col)
    {
      hide Painted, PutLeft, PutRight, PixelPair, Cells;
      ghost var now := buf[..];
      Gs4Cell(x, y);
      Gs4Cell(x + 1, y);
      PaintStep(g, a, now, r, x, y, col);
      ghost var half := now[pair := PutLeft(now[pair], col)];
      PaintStep(g, a, half, r + iset{(x, y)}, x + 1, y, col);
      PairIsBothHalves(now[pair], col);
      assert r + iset{(x, y)} + iset{(x + 1, y)} == r + iset{(x, y), (x + 1, y)};
      buf[pair] := PixelPair(col);
      assert buf[..] == half[pair := PutRight(half[pair], col)];
    }

    // ---------- Clipping ----------

    method FormatFillRect(x: nat, y: nat, w: nat, h: nat, col: Colour)
      requires Valid() && x + w <= g.stride && y + h <= g.height
      modifies buf
      ensures Painted(g, old(buf[..]), buf[..], Rect(x, y, w, h), col)
    {
      hide Painted, Cells;
      match g.fmt
      case MVLSB => MvlsbFillRect(x, y, w, h, col);
      case RGB565 => Rgb565FillRect(x, y, w, h, col);
      case GS2_HMSB => Gs2HmsbFillRect(x, y, w, h, col);
      case GS4_HMSB => Gs4HmsbFillRect(x, y, w, h, col);
      case GS8 => Gs8FillRect(x, y, w, h, col);
      case MHLSB | MHMSB => MonoHorizFillRect(x, y, w, h, col);
    }

    /** Any rectangle at all may be asked for; the part of it inside the picture is painted. */
    method FillRect(x: int, y: int, w: int, h: int, col: Colour)
      requires Valid()
      modifies buf
      ensures Painted(g, old(buf[..]), buf[..], Rect(x, y, w, h) * Rect(0, 0, g.width, g.height), col)
    {
      hide Painted, Cells;
      ghost var visible := Rect(x, y, w, h) * Rect(0, 0, g.width, g.height);
      if h < 1 || w < 1 || x + w <= 0 || y + h <= 0 || y >= g.height || x >= g.width {
        assert visible == iset{};
        PaintedNothing(g, buf[..], col);
        return;
      }
      var xend := Min(g.width, x + w);
      var yend := Min(g.height, y + h);
      var x0 := Max(x, 0);
      var y0 := Max(y, 0);
      assert visible == Rect(x0, y0, xend - x0, yend - y0);
      FormatFillRect(x0, y0, xend - x0, yend - y0, col);
    }

    method Fill(col: Colour)
      requires Valid()
      modifies buf
      ensures Painted(g, old(buf[..]), buf[..], Rect(0, 0, g.width, g.height), col)
    {
      FormatFillRect(0, 0, g.width, g.height, col);
    }
  }

  function Min(a: int, b: int): int { if a < b then a else b }

  function Max(a: int, b: int): int { if a > b then a else b }
}
