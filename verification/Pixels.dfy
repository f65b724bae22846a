/** How the seven pixel formats of `framebuf` store a colour in a shared buffer,
    and what it means for a buffer to have been painted.
    A cell is one byte of the buffer, or one 16-bit word for RGB565. */
module Pixels {
  import opened Arith
  import opened Basics

  type Cell = bv16
  type Colour = bv32

  datatype Format = MVLSB | RGB565 | GS2_HMSB | GS4_HMSB | GS8 | MHLSB | MHMSB

  datatype Geometry = Geometry(fmt: Format, width: nat, height: nat, stride: nat)

  // ---------- The constructor's arithmetic ----------

  /** The width of the constructor's fields: uint16_t. */
  const FIELD := 0x1_0000

  function FormatOf(code: int): Option<Format> {
    match code % 0x100
    case 0 => Some(MVLSB)
    case 1 => Some(RGB565)
    case 5 => Some(GS2_HMSB)
    case 2 => Some(GS4_HMSB)
    case 6 => Some(GS8)
    case 3 => Some(MHLSB)
    case 4 => Some(MHMSB)
    case _ => None
  }

  /** Strides are rounded so that every row starts on a cell boundary. */
  function StrideUnit(f: Format): (u: nat)
    ensures Share(u)
  {
    match f
    case MHLSB | MHMSB => 8
    case GS2_HMSB => 4
    case GS4_HMSB => 2
    case _ => 1
  }

  function RoundUp(n: nat, unit: nat): nat
    requires unit > 0
  {
    (n + (unit - 1)) / unit * unit
  }

  function MakeGeometry(width: int, height: int, code: int, stride: Option<int>): Option<Geometry> {
    var w, h := width % FIELD, height % FIELD;
    var s := if stride.Some? then stride.value % FIELD else w;
    match FormatOf(code)
    case None => None
    case Some(f) => Some(Geometry(f, w, h, RoundUp(s, StrideUnit(f)) % FIELD))
  }

  ghost predicate Aligned(g: Geometry) {
    g.stride % StrideUnit(g.fmt) == 0
  }

  lemma RoundUpWraps(n: nat, unit: nat)
    requires n < FIELD && Share(unit)
    ensures RoundUp(n, unit) % unit == 0 && n <= RoundUp(n, unit) <= FIELD
    ensures RoundUp(n, unit) % FIELD % unit == 0
  {
    if unit == 2 {
      WrapsBy2(n);
    } else if unit == 4 {
      WrapsBy4(n);
    } else if unit == 8 {
      WrapsBy8(n);
    }
  }

  lemma WrapsBy2(n: nat)
    requires n < FIELD
    ensures var r := (n + 1) / 2 * 2; r % 2 == r % FIELD % 2 == 0 && n <= r <= FIELD
  {
    var r := (n + 1) / 2 * 2;
    assert r <= FIELD;
    if r < FIELD {
      assert r % FIELD == r;
    }
  }

  lemma WrapsBy4(n: nat)
    requires n < FIELD
    ensures var r := (n + 3) / 4 * 4; r % 4 == r % FIELD % 4 == 0 && n <= r <= FIELD
  {
    var r := (n + 3) / 4 * 4;
    assert r <= FIELD;
    if r < FIELD {
      assert r % FIELD == r;
    }
  }

  lemma WrapsBy8(n: nat)
    requires n < FIELD
    ensures var r := (n + 7) / 8 * 8; r % 8 == r % FIELD % 8 == 0 && n <= r <= FIELD
  {
    var r := (n + 7) / 8 * 8;
    assert r <= FIELD;
    if r < FIELD {
      assert r % FIELD == r;
    }
  }

  /** Rounding the stride asked for makes room for the width if it is more than the rounded width
      less one unit; it wraps around 16 bits if it is among the last of them. */
  lemma RoundedRoom(asked: nat, width: nat, unit: nat)
    requires asked < FIELD && Share(unit)
    ensures RoundUp(asked, unit) < FIELD <==> asked <= FIELD - unit
    ensures width <= RoundUp(asked, unit) <==> RoundUp(width, unit) - unit < asked || width == 0
  {
    if unit == 2 {
      RoomBy2(asked, width);
    } else if unit == 4 {
      RoomBy4(asked, width);
    } else if unit == 8 {
      RoomBy8(asked, width);
    }
  }

  lemma RoomBy2(n: nat, w: nat)
    ensures n < FIELD ==> ((n + 1) / 2 * 2 < FIELD <==> n <= FIELD - 2)
    ensures w <= (n + 1) / 2 * 2 <==> (w + 1) / 2 * 2 - 2 < n || w == 0
  {
  }

  lemma RoomBy4(n: nat, w: nat)
    ensures n < FIELD ==> ((n + 3) / 4 * 4 < FIELD <==> n <= FIELD - 4)
    ensures w <= (n + 3) / 4 * 4 <==> (w + 3) / 4 * 4 - 4 < n || w == 0
  {
  }

  lemma RoomBy8(n: nat, w: nat)
    ensures n < FIELD ==> ((n + 7) / 8 * 8 < FIELD <==> n <= FIELD - 8)
    ensures w <= (n + 7) / 8 * 8 <==> (w + 7) / 8 * 8 - 8 < n || w == 0
  {
  }

  /** The constructor always aligns the rows. They hold the declared width exactly when the stride
      asked for, rounded to whole cells, does, and is not so large that its rounding wraps around;
      a stride that is left out is the width. */
  lemma MakeGeometryFits(width: int, height: int, code: int, stride: Option<int>)
    requires MakeGeometry(width, height, code, stride).Some?
    ensures var g := MakeGeometry(width, height, code, stride).value;
            var asked, unit := if stride.Some? then stride.value % FIELD else g.width, StrideUnit(g.fmt);
            && Aligned(g)
            && (g.width <= g.stride <==> g.width == 0 || RoundUp(g.width, unit) - unit < asked <= FIELD - unit)
  {
    var g := MakeGeometry(width, height, code, stride).value;
    var asked, unit := if stride.Some? then stride.value % FIELD else g.width, StrideUnit(g.fmt);
    hide RoundUp, FormatOf, StrideUnit;
    RoundUpWraps(asked, unit);
    RoundedRoom(asked, g.width, unit);
  }

  /** The codes that a caller passes for the formats. */
  lemma FormatCodes()
    ensures FormatOf(0) == Some(MVLSB) && FormatOf(1) == Some(RGB565) && FormatOf(2) == Some(GS4_HMSB)
    ensures FormatOf(3) == Some(MHLSB) && FormatOf(4) == Some(MHMSB) && FormatOf(5) == Some(GS2_HMSB)
    ensures FormatOf(6) == Some(GS8) && forall code | code % 0x100 > 6 :: FormatOf(code) == None
  {
  }

  /** Unless it wraps around, the stride is the one asked for, made up to a multiple of what a cell
      holds side by side. */
  lemma StrideIsRounded(width: int, height: int, code: int, stride: int)
    requires MakeGeometry(width, height, code, Some(stride)).Some? && 0 <= stride <= FIELD - 8
    ensures var g := MakeGeometry(width, height, code, Some(stride)).value;
            match g.fmt
            case MHLSB | MHMSB => g.stride % 8 == 0 && stride <= g.stride < stride + 8
            case GS2_HMSB => g.stride % 4 == 0 && stride <= g.stride < stride + 4
            case GS4_HMSB => g.stride % 2 == 0 && stride <= g.stride < stride + 2
            case MVLSB | GS8 | RGB565 => g.stride == stride
  {
    hide FormatOf, RoundUp;
    assert stride % FIELD == stride;
    RoundsUp(stride, 2);
    RoundsUp(stride, 4);
    RoundsUp(stride, 8);
    assert RoundUp(stride, 1) == stride by { RoundsUp(stride, 1); }
  }

  lemma RoundsUp(n: nat, unit: nat)
    requires Share(unit) && n <= FIELD - 8
    ensures var r := RoundUp(n, unit); r % unit == 0 && n <= r < n + unit && r % FIELD == r
  {
    RoundUpWraps(n, unit);
    DivMod(n + (unit - 1), unit);
    assert RoundUp(n, unit) == n + (unit - 1) - (n + (unit - 1)) % unit;
    hide RoundUp;
    BelowField(RoundUp(n, unit));
  }

  lemma BelowField(r: nat)
    ensures r < FIELD ==> r % FIELD == r
  {
  }

  /** The largest stride wraps around to none at all. */
  lemma LargestStrideIsNone(width: int, height: int)
    ensures MakeGeometry(width, height, 3, Some(65535)) == Some(Geometry(MHLSB, width % FIELD, height % FIELD, 0))
  {
    assert RoundUp(65535, 8) == FIELD;
  }

  // ---------- Where a pixel lives ----------

  /** The cell that holds pixel (x, y). */
  function Index(g: Geometry, x: nat, y: nat): nat {
    match g.fmt
    case MHLSB | MHMSB => (x + y * g.stride) / 8
    case MVLSB => y / 8 * g.stride + x
    case GS2_HMSB => (x + y * g.stride) / 4
    case GS4_HMSB => (x + y * g.stride) / 2
    case RGB565 | GS8 => x + y * g.stride
  }

  /** Which of the pixels of its cell (x, y) is. */
  function Slot(g: Geometry, x: nat, y: nat): (s: nat)
    ensures s < 8
  {
    match g.fmt
    case MHMSB => x % 8
    case MHLSB => 7 - x % 8
    case MVLSB => y % 8
    case GS2_HMSB => x % 4
    case GS4_HMSB => x % 2
    case RGB565 | GS8 => 0
  }

  function Bit(k: nat): Cell {
    match k
    case 0 => 0x01 case 1 => 0x02 case 2 => 0x04 case 3 => 0x08
    case 4 => 0x10 case 5 => 0x20 case 6 => 0x40 case _ => 0x80
  }

  function PutBit(cell: Cell, bit: Cell, on: bool): Cell {
    (cell & !bit) | (if on then bit else 0)
  }

  predicate HasBit(cell: Cell, bit: Cell) {
    cell & bit != 0
  }

  function Low(col: Colour): Cell { (col & 0xffff) as Cell }

  /** The two halves of a GS4 byte: the even pixel is the left one. */
  function PutLeft(cell: Cell, col: Colour): Cell { ((LowByte(col) << 4) & 0xff) | (cell & 0x0f) }

  function PutRight(cell: Cell, col: Colour): Cell { (LowByte(col) & 0x0f) | (cell & 0xf0) }

  /** The byte with the same colour in both halves. */
  function PixelPair(col: Colour): Cell { ((LowByte(col) & 0x0f) << 4) | (LowByte(col) & 0x0f) }

  lemma PairIsBothHalves(cell: Cell, col: Colour)
    ensures PutRight(PutLeft(cell, col), col) == PixelPair(col)
  {
  }

  function LowByte(col: Colour): Cell { Low(col) & 0xff }

  /** The cell after storing a colour in one of its slots. */
  function Put(f: Format, slot: nat, cell: Cell, col: Colour): Cell {
    match f
    case MHLSB | MHMSB | MVLSB =>
      PutBit(cell, Bit(slot), col != 0)
    case GS2_HMSB =>
      var c := Low(col) & 0x3;
      (match slot
       case 0 => c | (cell & 0xfffc)
       case 1 => (c << 2) | (cell & 0xfff3)
       case 2 => (c << 4) | (cell & 0xffcf)
       case _ => (c << 6) | (cell & 0xff3f))
    case GS4_HMSB =>
      if slot == 1 then PutRight(cell, col) else PutLeft(cell, col)
    case GS8 => LowByte(col)
    case RGB565 => Low(col)
  }

  /** The colour stored in one slot of a cell. */
  function Get(f: Format, slot: nat, cell: Cell): Colour {
    match f
    case MHLSB | MHMSB | MVLSB => if HasBit(cell, Bit(slot)) then 1 else 0
    case GS2_HMSB =>
      (match slot
       case 0 => (cell & 0x3) as Colour
       case 1 => ((cell >> 2) & 0x3) as Colour
       case 2 => ((cell >> 4) & 0x3) as Colour
       case _ => ((cell >> 6) & 0x3) as Colour)
    case GS4_HMSB => if slot == 1 then (cell & 0x0f) as Colour else ((cell >> 4) & 0xf) as Colour
    case GS8 => (cell & 0xff) as Colour
    case RGB565 => cell as Colour
  }

  /** What is left of a colour once a format has stored it. */
  function Trunc(f: Format, col: Colour): Colour {
    match f
    case MHLSB | MHMSB | MVLSB => if col != 0 then 1 else 0
    case GS2_HMSB => col & 0x3
    case GS4_HMSB => col & 0xf
    case GS8 => col & 0xff
    case RGB565 => col & 0xffff
  }

  predicate Mono(f: Format) { f.MHLSB? || f.MHMSB? || f.MVLSB? }

  lemma BitsAreDistinct(j: nat, k: nat)
    requires j < 8 && k < 8 && j != k
    ensures Bit(j) & Bit(k) == 0
  {
  }

  lemma PutThenHasBit(cell: Cell, bit: Cell, on: bool)
    requires bit != 0
    ensures HasBit(PutBit(cell, bit, on), bit) == on
  {
    if on {
      assert ((cell & !bit) | bit) & bit == bit;
    }
  }

  lemma PutKeepsMask(cell: Cell, bit: Cell, on: bool, other: Cell)
    requires bit & other == 0
    ensures PutBit(cell, bit, on) & other == cell & other
  {
  }

  lemma SameMaskSameBit(a: Cell, b: Cell, bit: Cell)
    requires a & bit == b & bit
    ensures HasBit(a, bit) == HasBit(b, bit)
  {
  }

  lemma OtherBitKept(cell: Cell, bit: Cell, on: bool, other: Cell)
    requires bit & other == 0
    ensures HasBit(PutBit(cell, bit, on), other) == HasBit(cell, other)
  {
    hide PutBit, HasBit;
    PutKeepsMask(cell, bit, on, other);
    SameMaskSameBit(PutBit(cell, bit, on), cell, other);
  }

  lemma BitsAreBytes(k: nat)
    ensures 0 < Bit(k) <= 0xff
  {
  }

  lemma MonoIsOneBit(f: Format, slot: nat, cell: Cell, col: Colour)
    requires Mono(f)
    ensures Put(f, slot, cell, col) == PutBit(cell, Bit(slot), col != 0)
    ensures Get(f, slot, cell) == if HasBit(cell, Bit(slot)) then 1 else 0
    ensures Trunc(f, col) == if col != 0 then 1 else 0
  {
    hide Bit, PutBit, HasBit;
  }

  lemma PutThenGetMono(f: Format, slot: nat, cell: Cell, col: Colour)
    requires Mono(f)
    ensures Get(f, slot, Put(f, slot, cell, col)) == Trunc(f, col)
  {
    hide Bit, PutBit, HasBit, Put, Get, Trunc;
    BitsAreBytes(slot);
    MonoIsOneBit(f, slot, cell, col);
    MonoIsOneBit(f, slot, Put(f, slot, cell, col), col);
    PutThenHasBit(cell, Bit(slot), col != 0);
  }

  lemma PutThenGetGrey2(slot: nat, cell: Cell, col: Colour)
    ensures Get(GS2_HMSB, slot, Put(GS2_HMSB, slot, cell, col)) == Trunc(GS2_HMSB, col)
  {
  }

  lemma PutThenGetWide(f: Format, slot: nat, cell: Cell, col: Colour)
    requires f.GS4_HMSB? || f.GS8? || f.RGB565?
    ensures Get(f, slot, Put(f, slot, cell, col)) == Trunc(f, col)
  {
  }

  lemma PutThenGet(f: Format, slot: nat, cell: Cell, col: Colour)
    ensures Get(f, slot, Put(f, slot, cell, col)) == Trunc(f, col)
  {
    hide Get, Put, Trunc;
    if Mono(f) {
      PutThenGetMono(f, slot, cell, col);
    } else if f.GS2_HMSB? {
      PutThenGetGrey2(slot, cell, col);
    } else {
      PutThenGetWide(f, slot, cell, col);
    }
  }

  lemma PutLeavesOthersMono(f: Format, slot: nat, other: nat, cell: Cell, col: Colour)
    requires Mono(f) && slot != other && slot < 8 && other < 8
    ensures Get(f, other, Put(f, slot, cell, col)) == Get(f, other, cell)
  {
    hide Bit, PutBit, HasBit, Put, Get;
    BitsAreDistinct(slot, other);
    MonoIsOneBit(f, slot, cell, col);
    MonoIsOneBit(f, other, cell, col);
    MonoIsOneBit(f, other, Put(f, slot, cell, col), col);
    OtherBitKept(cell, Bit(slot), col != 0, Bit(other));
  }

  lemma PutLeavesOthersGrey(f: Format, slot: nat, other: nat, cell: Cell, col: Colour)
    requires !Mono(f) && slot != other && slot < PerCell(f) && other < PerCell(f)
    ensures Get(f, other, Put(f, slot, cell, col)) == Get(f, other, cell)
  {
    hide PutBit, HasBit;
    if f.GS2_HMSB? {
      if slot == 0 {} else if slot == 1 {} else if slot == 2 {} else {}
    } else {
      assert f.GS4_HMSB?;
    }
  }

  lemma PutLeavesOthers(f: Format, slot: nat, other: nat, cell: Cell, col: Colour)
    requires slot != other && slot < PerCell(f) && other < PerCell(f)
    ensures Get(f, other, Put(f, slot, cell, col)) == Get(f, other, cell)
  {
    hide Get, Put;
    if Mono(f) {
      PutLeavesOthersMono(f, slot, other, cell, col);
    } else {
      PutLeavesOthersGrey(f, slot, other, cell, col);
    }
  }

  /** Reading a colour and storing it again loses nothing. */
  lemma TruncOfGet(f: Format, slot: nat, cell: Cell)
    ensures Trunc(f, Get(f, slot, cell)) == Get(f, slot, cell)
  {
    hide HasBit;
    if f.GS2_HMSB? {
      if slot == 0 {} else if slot == 1 {} else if slot == 2 {} else {}
    } else if f.GS4_HMSB? {
      if slot == 1 {} else {}
    } else if f.RGB565? {
      assert (cell as Colour) & 0xffff == cell as Colour;
    }
  }

  function PerCell(f: Format): nat {
    match f
    case MHLSB | MHMSB | MVLSB => 8
    case GS2_HMSB => 4
    case GS4_HMSB => 2
    case RGB565 | GS8 => 1
  }

  /** A byte stays a byte: only RGB565 uses the upper half of a cell. */
  lemma PutKeepsByte(f: Format, slot: nat, cell: Cell, col: Colour)
    requires !f.RGB565? && cell <= 0xff
    ensures Put(f, slot, cell, col) <= 0xff
  {
    if Mono(f) {
      BitsAreBytes(slot);
      MonoIsOneBit(f, slot, cell, col);
      hide Put, Bit;
      PutBitKeepsByte(cell, Bit(slot), col != 0);
    } else {
      GreyKeepsByte(f, slot, cell, col);
    }
  }

  lemma PutBitKeepsByte(cell: Cell, bit: Cell, on: bool)
    requires cell <= 0xff && bit <= 0xff
    ensures PutBit(cell, bit, on) <= 0xff
  {
  }

  lemma GreyKeepsByte(f: Format, slot: nat, cell: Cell, col: Colour)
    requires !Mono(f) && !f.RGB565? && cell <= 0xff
    ensures Put(f, slot, cell, col) <= 0xff
  {
    hide Bit, PutBit;
  }

  // ---------- The layout is injective ----------

  function Cells(g: Geometry): nat {
    if g.fmt.MVLSB? then (g.height + 7) / 8 * g.stride else g.stride * g.height / PerCell(g.fmt)
  }

  lemma Regroup(y: nat, q: nat, k: nat)
    ensures y * (q * k) == y * q * k && q * k * y == y * q * k
  {
  }

  /** The possible numbers of pixels in a cell; the arithmetic below is linear in each. */
  predicate Share(k: nat) { k == 1 || k == 2 || k == 4 || k == 8 }

  lemma ShiftOut(k: nat, a: nat, q: nat)
    requires Share(k)
    ensures (a + q * k) / k == a / k + q && (q * k) / k == q
  {
    if k == 1 {} else if k == 2 {} else if k == 4 {} else {}
  }

  lemma Quotient(k: nat, n: nat)
    requires Share(k) && n % k == 0
    ensures n == n / k * k
  {
    if k == 1 {} else if k == 2 {} else if k == 4 {} else {}
  }

  /** In a row whose length is a multiple of k, k horizontal pixels share a cell. */
  lemma PackedIndex(k: nat, n: nat, x: nat, y: nat)
    requires Share(k) && n % k == 0
    ensures (x + y * n) / k == x / k + y * (n / k)
  {
    Quotient(k, n);
    Regroup(y, n / k, k);
    ShiftOut(k, x, y * (n / k));
  }

  /** The cell column of a pixel stays inside the row; column and remainder fix the pixel. */
  lemma CellColumn(k: nat, n: nat, x: nat, x': nat)
    requires Share(k) && n % k == 0 && x < n
    ensures x / k < n / k
    ensures x / k == x' / k && x % k == x' % k ==> x == x'
  {
    if k == 1 {} else if k == 2 {} else if k == 4 {} else {}
  }

  lemma PackedBound(k: nat, n: nat, x: nat, y: nat, h: nat)
    requires Share(k) && n % k == 0 && x < n && y < h
    ensures (x + y * n) / k < n * h / k
  {
    var q := n / k;
    Quotient(k, n);
    PackedIndex(k, n, x, y);
    CellColumn(k, n, x, x);
    Below(y, h, q);
    Regroup(h, q, k);
    ShiftOut(k, 0, h * q);
  }

  lemma PackedInjective(k: nat, n: nat, x: nat, y: nat, x': nat, y': nat)
    requires Share(k) && n % k == 0 && x < n && x' < n
    requires (x + y * n) / k == (x' + y' * n) / k && x % k == x' % k
    ensures x == x' && y == y'
  {
    PackedIndex(k, n, x, y);
    PackedIndex(k, n, x', y');
    CellColumn(k, n, x, x');
    CellColumn(k, n, x', x);
    RowMajorInjective(n / k, x / k, y, x' / k, y');
  }

  lemma IndexInBounds(g: Geometry, x: nat, y: nat)
    requires Aligned(g) && x < g.stride && y < g.height
    ensures Index(g, x, y) < Cells(g)
  {
    if g.fmt.MVLSB? {
      Below(y / 8, (g.height + 7) / 8, g.stride);
    } else {
      PackedBound(PerCell(g.fmt), g.stride, x, y, g.height);
    }
  }

  lemma SlotBound(g: Geometry, x: nat, y: nat)
    ensures Slot(g, x, y) < PerCell(g.fmt)
  {
  }

  lemma IndexPacked(g: Geometry, x: nat, y: nat)
    requires !g.fmt.MVLSB?
    ensures Index(g, x, y) == (x + y * g.stride) / PerCell(g.fmt)
  {
  }

  lemma SlotPacked(g: Geometry, x: nat, y: nat, x': nat, y': nat)
    requires !g.fmt.MVLSB? && Slot(g, x, y) == Slot(g, x', y')
    ensures x % PerCell(g.fmt) == x' % PerCell(g.fmt)
  {
  }

  /** Two different pixels never share both cell and slot. */
  lemma LayoutInjective(g: Geometry, x: nat, y: nat, x': nat, y': nat)
    requires Aligned(g) && x < g.stride && x' < g.stride
    requires Index(g, x, y) == Index(g, x', y') && Slot(g, x, y) == Slot(g, x', y')
    ensures x == x' && y == y'
  {
    if g.fmt.MVLSB? {
      RowMajorInjective(g.stride, x, y / 8, x', y' / 8);
    } else {
      hide Index, Slot;
      IndexPacked(g, x, y);
      IndexPacked(g, x', y');
      SlotPacked(g, x, y, x', y');
      PackedInjective(PerCell(g.fmt), g.stride, x, y, x', y');
    }
  }

  // ---------- The picture a buffer holds ----------

  ghost predicate Fits(g: Geometry, b: seq<Cell>) {
    Aligned(g) && g.width <= g.stride && Cells(g) <= |b|
  }

  ghost predicate OnGrid(g: Geometry, x: int, y: int) {
    0 <= x < g.stride && 0 <= y < g.height
  }

  /** The simple thing every operation refines: a colour for every (x, y). */
  ghost function Pixel(g: Geometry, b: seq<Cell>, x: int, y: int): Colour
    requires Fits(g, b) && OnGrid(g, x, y)
  {
    IndexInBounds(g, x, y);
    Get(g.fmt, Slot(g, x, y), b[Index(g, x, y)])
  }

  // ---------- What the buffer holds ----------

  /** Digit k of a byte in base 2^width, counted from its low end. */
  function Digit(cell: Cell, width: nat, k: nat): Colour
    requires width <= 4 && width * k <= 8
  {
    ((cell >> (width * k)) & ((1 << width) - 1)) as Colour
  }

  /** The displays that read the buffer find the picture there: the rows of MHLSB as bits from the
      highest on, those of MHMSB from the lowest on, MVLSB in columns of eight pixels from the lowest
      bit on; GS2_HMSB as digits in base 4 from the lowest on, GS4_HMSB as two hexadecimal digits from
      the higher one on; GS8 and RGB565 as whole cells. */
  lemma BufferHolds(g: Geometry, b: seq<Cell>, x: nat, y: nat)
    requires Fits(g, b) && OnGrid(g, x, y)
    ensures Place(g, x, y) < |b|
    ensures var cell, col := b[Place(g, x, y)], Pixel(g, b, x, y);
            match g.fmt
            case MHLSB => col == Digit(cell, 1, 7 - x % 8)
            case MHMSB => col == Digit(cell, 1, x % 8)
            case MVLSB => col == Digit(cell, 1, y % 8)
            case GS2_HMSB => col == Digit(cell, 2, x % 4)
            case GS4_HMSB => col == Digit(cell, 4, 1 - x % 2)
            case GS8 => col == (cell & 0xff) as Colour
            case RGB565 => col == cell as Colour
  {
    IndexInBounds(g, x, y);
    IndexIsPlace(g, x, y);
    hide Cells, Get, Digit, Index, Place;
    var cell := b[Place(g, x, y)];
    match g.fmt
    case MHLSB => BitIsDigit(g.fmt, 7 - x % 8, cell);
    case MHMSB => BitIsDigit(g.fmt, x % 8, cell);
    case MVLSB => BitIsDigit(g.fmt, y % 8, cell);
    case GS2_HMSB => GreyIsDigit(x % 4, cell);
    case GS4_HMSB => GreyIsDigit(x % 2, cell);
    case GS8 => CellIsColour(cell);
    case RGB565 => CellIsColour(cell);
  }

  /** The cells stand in rows, one after the other; those of MVLSB are eight pixels high. */
  function Place(g: Geometry, x: nat, y: nat): nat {
    match g.fmt
    case MHLSB | MHMSB => InRow(y, g.stride / 8, x / 8)
    case MVLSB => InRow(y / 8, g.stride, x)
    case GS2_HMSB => InRow(y, g.stride / 4, x / 4)
    case GS4_HMSB => InRow(y, g.stride / 2, x / 2)
    case GS8 | RGB565 => InRow(y, g.stride, x)
  }

  function InRow(row: nat, length: nat, at: nat): nat { row * length + at }

  lemma IndexIsPlace(g: Geometry, x: nat, y: nat)
    requires Aligned(g)
    ensures Index(g, x, y) == Place(g, x, y)
  {
    match g.fmt
    case MHLSB => PackedIndex(8, g.stride, x, y);
    case MHMSB => PackedIndex(8, g.stride, x, y);
    case GS2_HMSB => PackedIndex(4, g.stride, x, y);
    case GS4_HMSB => PackedIndex(2, g.stride, x, y);
    case _ =>
  }

  lemma BitIsDigit(f: Format, slot: nat, cell: Cell)
    requires Mono(f) && slot < 8
    ensures Get(f, slot, cell) == Digit(cell, 1, slot)
  {
    if slot == 0 {} else if slot == 1 {} else if slot == 2 {} else if slot == 3 {}
    else if slot == 4 {} else if slot == 5 {} else if slot == 6 {} else {}
  }

  lemma GreyIsDigit(slot: nat, cell: Cell)
    ensures slot < 4 ==> Get(GS2_HMSB, slot, cell) == Digit(cell, 2, slot)
    ensures slot < 2 ==> Get(GS4_HMSB, slot, cell) == Digit(cell, 4, 1 - slot)
  {
    if slot == 0 {} else if slot == 1 {} else if slot == 2 {} else if slot == 3 {}
  }

  lemma CellIsColour(cell: Cell)
    ensures Get(GS8, 0, cell) == (cell & 0xff) as Colour && Get(RGB565, 0, cell) == cell as Colour
  {
  }

  /** No more is asked of the buffer than the last row needs. */
  lemma BufferIsUsed(g: Geometry)
    requires Aligned(g) && g.stride > 0 && g.height > 0
    ensures Index(g, g.stride - 1, g.height - 1) == Cells(g) - 1
  {
    if g.fmt.MVLSB? {
      ColumnsLast(g.stride, g.height);
    } else {
      PackedLast(PerCell(g.fmt), g.stride, g.height);
    }
  }

  lemma ColumnsLast(n: nat, h: nat)
    requires h > 0
    ensures (h - 1) / 8 * n + n == (h + 7) / 8 * n
  {
    var q := (h - 1) / 8;
    assert (h + 7) / 8 == q + 1;
    Below(q, q + 1, n);
    assert (q + 1) * n == q * n + n;
  }

  lemma PackedLast(k: nat, n: nat, h: nat)
    requires Share(k) && n % k == 0 && n > 0 && h > 0
    ensures (n - 1 + (h - 1) * n) / k == n * h / k - 1
  {
    var q := n / k;
    hide Share;
    Quotient(k, n);
    PackedIndex(k, n, n - 1, h - 1);
    LastInCell(k, n);
    Regroup(h, q, k);
    ShiftOut(k, 0, h * q);
    assert n * h == 0 + h * q * k;
    assert h * q == (h - 1) * q + q;
  }

  lemma LastInCell(k: nat, n: nat)
    requires Share(k) && n % k == 0 && n > 0
    ensures (n - 1) / k == n / k - 1
  {
    if k == 1 {} else if k == 2 {} else if k == 4 {} else {}
  }

  /** The first pixel of a byte: its highest bit in MHLSB, its lowest in MHMSB. */
  lemma FirstPixel()
    ensures Put(MHLSB, Slot(Geometry(MHLSB, 8, 1, 8), 0, 0), 0, 1) == 0x80
    ensures Put(MHMSB, Slot(Geometry(MHMSB, 8, 1, 8), 0, 0), 0, 1) == 0x01
  {
  }

  /** What a format keeps of a colour: whether it is black, or its low bits. */
  lemma LowBitsAreKept(f: Format, col: Colour)
    ensures Trunc(f, col)
            == match f
               case MHLSB | MHMSB | MVLSB => if col == 0 then 0 else 1
               case GS2_HMSB => col % 4
               case GS4_HMSB => col % 16
               case GS8 => col % 256
               case RGB565 => col % 65536
  {
  }

  type Region = iset<(int, int)>

  ghost function Rect(x: int, y: int, w: int, h: int): Region {
    iset p: (int, int) | x <= p.0 < x + w && y <= p.1 < y + h
  }

  /** b shows colour col (as far as the format can hold it) on the region, and what a showed
      everywhere else, including the padding columns between width and stride. */
  ghost predicate Painted(g: Geometry, a: seq<Cell>, b: seq<Cell>, region: Region, col: Colour) {
    && Fits(g, a) && Fits(g, b) && |a| == |b|
    && forall x, y {:trigger Pixel(g, b, x, y)} | OnGrid(g, x, y) ::
         Pixel(g, b, x, y) == if (x, y) in region then Trunc(g.fmt, col) else Pixel(g, a, x, y)
  }

  lemma PutPaintsOne(g: Geometry, b: seq<Cell>, x: int, y: int, col: Colour)
    requires Fits(g, b) && OnGrid(g, x, y)
    ensures Index(g, x, y) < |b|
    ensures var i := Index(g, x, y);
            Painted(g, b, b[i := Put(g.fmt, Slot(g, x, y), b[i], col)], iset{(x, y)}, col)
  {
    IndexInBounds(g, x, y);
    var i, s := Index(g, x, y), Slot(g, x, y);
    var b' := b[i := Put(g.fmt, s, b[i], col)];
    hide Index, Slot, Get, Put, Trunc, Aligned, Cells;
    forall px, py | OnGrid(g, px, py)
      ensures Pixel(g, b', px, py) == if (px, py) in iset{(x, y)} then Trunc(g.fmt, col) else Pixel(g, b, px, py)
    {
      if (px, py) == (x, y) {
        PutThenGet(g.fmt, s, b[i], col);
      } else {
        var j, t := Index(g, px, py), Slot(g, px, py);
        IndexInBounds(g, px, py);
        if j == i {
          if s == t {
            LayoutInjective(g, x, y, px, py);
          }
          SlotBound(g, x, y);
          SlotBound(g, px, py);
          PutLeavesOthers(g.fmt, s, t, b[i], col);
        }
      }
    }
  }

  lemma PaintedNothing(g: Geometry, b: seq<Cell>, col: Colour)
    requires Fits(g, b)
    ensures Painted(g, b, b, iset{}, col)
  {
  }

  lemma PaintedTwice(g: Geometry, a: seq<Cell>, b: seq<Cell>, c: seq<Cell>, r: Region, s: Region, col: Colour)
    requires Painted(g, a, b, r, col) && Painted(g, b, c, s, col)
    ensures Painted(g, a, c, r + s, col)
  {
    hide Pixel, Trunc;
  }

  /** One more pixel stored, one more pixel painted. */
  lemma PaintStep(g: Geometry, a: seq<Cell>, b: seq<Cell>, r: Region, x: int, y: int, col: Colour)
    requires Painted(g, a, b, r, col) && OnGrid(g, x, y)
    ensures Index(g, x, y) < |b|
    ensures var i := Index(g, x, y);
            Painted(g, a, b[i := Put(g.fmt, Slot(g, x, y), b[i], col)], r + iset{(x, y)}, col)
  {
    hide Index, Slot, Put, Pixel, Trunc;
    PutPaintsOne(g, b, x, y, col);
    var i := Index(g, x, y);
    PaintedTwice(g, a, b, b[i := Put(g.fmt, Slot(g, x, y), b[i], col)], r, iset{(x, y)}, col);
  }
}
