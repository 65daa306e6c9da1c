/*
 * The direct-framebuffer flush callback, `lcd_fb_flush`: clip the area,
 * store the colour buffer into the framebuffer one cell per pixel at the
 * depth the device reports, then ask the device to repaint the area and tell
 * LVGL the buffer is free again.
 */
module FbFlush {
  import opened Surface
  import opened Arith

  /** Width of one framebuffer cell: the `fbp8`, `fbp16` and `fbp32` views of the framebuffer. */
  datatype Depth = Bits8 | Bits16 | Bits32

  /** The view the branches at lines 39, 57 and 75 pick for a bits-per-pixel value, if any. */
  function DepthOf(bpp: int): (d: Option<Depth>)
    ensures d.Some? <==> SupportedBitsPerPixel(bpp)
    ensures d == Some(Bits8) <==> bpp == 8
    ensures d == Some(Bits16) <==> bpp == 16
  {
    if bpp == 8 then Some(Bits8)
    else if bpp == 16 then Some(Bits16)
    else if bpp == 24 || bpp == 32 then Some(Bits32)
    else None
  }

  /**
   * The value a cell holds after `fbpN[location] = color_p->full`: the low
   * byte, the low 16 bits, or the whole 32-bit value.
   */
  function Store(v: Word, d: Depth): (r: Word)
    ensures r <= v
    ensures d == Bits8 ==> r < 0x100 && (v - r) % 0x100 == 0
    ensures d == Bits16 ==> r < 0x1_0000 && (v - r) % 0x1_0000 == 0
    ensures d == Bits32 ==> r == v
  {
    match d
    case Bits8 => v % 0x100
    case Bits16 => v % 0x1_0000
    case Bits32 => v
  }

  /** Column of framebuffer cell `i` on a surface `w` cells wide. */
  function Column(i: int, w: int): int
    requires w > 0
  {
    i % w
  }

  /** Row of framebuffer cell `i` on a surface `w` cells wide. */
  function Row(i: int, w: int): int
    requires w > 0
  {
    i / w
  }

  /** `location = x + y * width` names cell (x, y) and no other. */
  lemma LocationCoordinates(x: int, y: int, w: int)
    requires 0 <= x < w
    ensures Column(x + y * w, w) == x && Row(x + y * w, w) == y
  {
    DivModUnique(x + y * w, w, y, x);
  }

  /** Every cell is the location of its own column and row. */
  lemma CellLocation(i: int, w: int)
    requires w > 0
    ensures i == Column(i, w) + Row(i, w) * w && 0 <= Column(i, w) < w
  {
  }

  /** A pixel on the surface has a location inside a `width * height` framebuffer. */
  lemma LocationInBounds(x: int, y: int, w: int, h: int)
    requires 0 <= x < w && 0 <= y < h
    ensures 0 <= x + y * w < w * h
  {
    assert y * w <= (h - 1) * w;
  }

  /**
   * The colour entry the loops of lines 43-53 store at pixel (x, y): the
   * cursor starts at entry 0 on row act_y1 and advances x2 - act_x1 + 1
   * entries per row (act_x2 - act_x1 + 1 in the inner loop, x2 - act_x2 after it).
   */
  function ReadIndex(a: Area, c: Clip, x: int, y: int): int
    requires c.Visible?
  {
    (y - c.actY1) * (a.x2 - c.actX1 + 1) + (x - c.actX1)
  }

  /** Skipping the x2 - act_x2 clipped entries at the end of a row puts the cursor on the next row. */
  lemma ReadIndexNextRow(a: Area, c: Clip, y: int)
    requires c.Visible?
    ensures ReadIndex(a, c, c.actX2 + 1, y) + (a.x2 - c.actX2) == ReadIndex(a, c, c.actX1, y + 1)
  {
    var stride := a.x2 - c.actX1 + 1;
    assert (y + 1 - c.actY1) * stride == (y - c.actY1) * stride + stride;
  }

  /** Every entry the loops read lies inside the colour buffer LVGL supplies. */
  lemma ReadIndexInBuffer(info: Info, a: Area, x: int, y: int)
    requires ValidInfo(info) && WellFormed(a)
    requires ClipArea(a, info).Visible? && InClip(x, y, ClipArea(a, info))
    ensures 0 <= ReadIndex(a, ClipArea(a, info), x, y) < AreaSize(a)
  {
    var c := ClipArea(a, info);
    var stride, width, height := a.x2 - c.actX1 + 1, a.x2 - a.x1 + 1, a.y2 - a.y1 + 1;
    RowOffsetBound(y - c.actY1, x - c.actX1, stride, width, height);
  }

  /** The value cell (x, y) receives from the colour buffer. */
  function Pixel(info: Info, a: Area, colour: seq<Word>, d: Depth, x: int, y: int): Word
    requires ValidInfo(info) && WellFormed(a) && |colour| >= AreaSize(a)
    requires ClipArea(a, info).Visible? && InClip(x, y, ClipArea(a, info))
  {
    ReadIndexInBuffer(info, a, x, y);
    Store(colour[ReadIndex(a, ClipArea(a, info), x, y)], d)
  }

  /** The framebuffer after every pixel of the clipped rectangle has been stored at depth `d`. */
  function Stored(fb: seq<Word>, info: Info, a: Area, colour: seq<Word>, d: Depth): seq<Word>
    requires ValidInfo(info) && WellFormed(a) && |colour| >= AreaSize(a)
    requires ClipArea(a, info).Visible?
  {
    var c, w := ClipArea(a, info), info.width;
    seq(|fb|, i requires 0 <= i < |fb| =>
      if InClip(Column(i, w), Row(i, w), c) then Pixel(info, a, colour, d, Column(i, w), Row(i, w)) else fb[i])
  }

  /**
   * What `lcd_fb_flush` leaves in the framebuffer: nothing changes for an
   * area off the surface or a depth none of the three branches handles.
   */
  function Flushed(fb: seq<Word>, info: Info, a: Area, colour: seq<Word>): seq<Word>
    requires ValidInfo(info) && WellFormed(a) && |colour| >= AreaSize(a)
  {
    var d := DepthOf(info.bitsPerPixel);
    if ClipArea(a, info).OffScreen? || d.None? then fb else Stored(fb, info, a, colour, d.value)
  }

  /** Rejected areas and unhandled depths leave the framebuffer as it was. */
  lemma FlushedNoChange(fb: seq<Word>, info: Info, a: Area, colour: seq<Word>)
    requires ValidInfo(info) && WellFormed(a) && |colour| >= AreaSize(a)
    requires ClipArea(a, info).OffScreen? || !SupportedBitsPerPixel(info.bitsPerPixel)
    ensures Flushed(fb, info, a, colour) == fb
  {
  }

  /**
   * Inside the clipped rectangle, cell `x + y * width` holds colour entry
   * `ReadIndex` reduced to the cell width (lines 43-89).
   */
  lemma FlushedInside(fb: seq<Word>, info: Info, a: Area, colour: seq<Word>, x: int, y: int)
    requires ValidInfo(info) && WellFormed(a) && |colour| >= AreaSize(a)
    requires |fb| >= info.width * info.height
    requires ClipArea(a, info).Visible? && SupportedBitsPerPixel(info.bitsPerPixel)
    requires InClip(x, y, ClipArea(a, info))
    ensures 0 <= x + y * info.width < |fb| && 0 <= ReadIndex(a, ClipArea(a, info), x, y) < |colour|
    ensures Flushed(fb, info, a, colour)[x + y * info.width]
         == Store(colour[ReadIndex(a, ClipArea(a, info), x, y)], DepthOf(info.bitsPerPixel).value)
  {
    LocationInBounds(x, y, info.width, info.height);
    LocationCoordinates(x, y, info.width);
    ReadIndexInBuffer(info, a, x, y);
  }

  /**
   * Every cell outside the clipped rectangle keeps its value, and so does
   * every cell when the area is rejected or the depth is not handled.
   */
  lemma FlushedOutside(fb: seq<Word>, info: Info, a: Area, colour: seq<Word>, x: int, y: int)
    requires ValidInfo(info) && WellFormed(a) && |colour| >= AreaSize(a)
    requires 0 <= x < info.width && 0 <= y && x + y * info.width < |fb|
    requires ClipArea(a, info).OffScreen? || !SupportedBitsPerPixel(info.bitsPerPixel) ||
             !InClip(x, y, ClipArea(a, info))
    ensures Flushed(fb, info, a, colour)[x + y * info.width] == fb[x + y * info.width]
  {
    LocationCoordinates(x, y, info.width);
  }

  /**
   * The loops read the area's own pixel (row-major over the unclipped
   * width) for every cell exactly when nothing is clipped on the left or at
   * the top: neither clipped columns on the left nor clipped rows at the top
   * are skipped in the colour buffer.
   */
  lemma ReadsOwnPixelsIff(info: Info, a: Area)
    requires ValidInfo(info) && WellFormed(a) && ClipArea(a, info).Visible?
    ensures (forall x, y :: InClip(x, y, ClipArea(a, info)) ==>
               ReadIndex(a, ClipArea(a, info), x, y) == AreaIndex(a, x, y))
        <==> a.x1 >= 0 && a.y1 >= 0
  {
    var c := ClipArea(a, info);
    var width := a.x2 - a.x1 + 1;
    if a.x1 < 0 {
      MulMonotone(0, c.actY1 - a.y1, width);
      assert InClip(0, c.actY1, c) && ReadIndex(a, c, 0, c.actY1) != AreaIndex(a, 0, c.actY1);
    } else if a.y1 < 0 {
      MulMonotone(1, 0 - a.y1, width);
      assert InClip(a.x1, 0, c) && ReadIndex(a, c, a.x1, 0) != AreaIndex(a, a.x1, 0);
    }
  }

  /* ---- Loop progress ---- */

  /** Pixel (col, row) has been stored once the loops have reached row `y`, column `x`. */
  predicate Done(col: int, row: int, c: Clip, y: int, x: int)
    requires c.Visible?
  {
    InSpan(col, c.actX1, c.actX2) && c.actY1 <= row && (row < y || (row == y && col < x))
  }

  /** The framebuffer when the loops stand at row `y`, column `x`. */
  function Partial(fb: seq<Word>, info: Info, a: Area, colour: seq<Word>, d: Depth, y: int, x: int): seq<Word>
    requires ValidInfo(info) && WellFormed(a) && |colour| >= AreaSize(a)
    requires ClipArea(a, info).Visible?
    requires y <= ClipArea(a, info).actY2 + 1
    requires y == ClipArea(a, info).actY2 + 1 ==> x <= ClipArea(a, info).actX1
  {
    var c, w := ClipArea(a, info), info.width;
    seq(|fb|, i requires 0 <= i < |fb| =>
      if Done(Column(i, w), Row(i, w), c, y, x) then Pixel(info, a, colour, d, Column(i, w), Row(i, w)) else fb[i])
  }

  lemma PartialStart(fb: seq<Word>, info: Info, a: Area, colour: seq<Word>, d: Depth)
    requires ValidInfo(info) && WellFormed(a) && |colour| >= AreaSize(a)
    requires ClipArea(a, info).Visible?
    ensures Partial(fb, info, a, colour, d, ClipArea(a, info).actY1, ClipArea(a, info).actX1) == fb
  {
  }

  /** Storing pixel (x, y) at its location moves the loops one column on. */
  lemma PartialStep(fb: seq<Word>, info: Info, a: Area, colour: seq<Word>, d: Depth, y: int, x: int)
    requires ValidInfo(info) && WellFormed(a) && |colour| >= AreaSize(a)
    requires ClipArea(a, info).Visible? && InClip(x, y, ClipArea(a, info))
    requires |fb| >= info.width * info.height
    ensures 0 <= x + y * info.width < |fb|
    ensures Partial(fb, info, a, colour, d, y, x)[x + y * info.width := Pixel(info, a, colour, d, x, y)]
         == Partial(fb, info, a, colour, d, y, x + 1)
  {
    var w := info.width;
    LocationInBounds(x, y, w, info.height);
    LocationCoordinates(x, y, w);
    var before := Partial(fb, info, a, colour, d, y, x);
    var after := Partial(fb, info, a, colour, d, y, x + 1);
    forall i | 0 <= i < |fb|
      ensures before[x + y * w := Pixel(info, a, colour, d, x, y)][i] == after[i]
    {
      CellLocation(i, w);
    }
  }

  /** Finishing a row is starting the next one. */
  lemma PartialNextRow(fb: seq<Word>, info: Info, a: Area, colour: seq<Word>, d: Depth, y: int)
    requires ValidInfo(info) && WellFormed(a) && |colour| >= AreaSize(a)
    requires ClipArea(a, info).Visible?
    requires ClipArea(a, info).actY1 <= y <= ClipArea(a, info).actY2
    ensures Partial(fb, info, a, colour, d, y, ClipArea(a, info).actX2 + 1)
         == Partial(fb, info, a, colour, d, y + 1, ClipArea(a, info).actX1)
  {
  }

  /** After the last row every pixel of the clipped rectangle has been stored. */
  lemma PartialComplete(fb: seq<Word>, info: Info, a: Area, colour: seq<Word>, d: Depth)
    requires ValidInfo(info) && WellFormed(a) && |colour| >= AreaSize(a)
    requires ClipArea(a, info).Visible?
    ensures Partial(fb, info, a, colour, d, ClipArea(a, info).actY2 + 1, ClipArea(a, info).actX1)
         == Stored(fb, info, a, colour, d)
  {
  }

  /**
   * One of the three identical loop nests of lines 43-89, for the cell width
   * `d`: rows act_y1 .. act_y2, columns act_x1 .. act_x2, the cursor `p`
   * standing for `color_p`.
   */
  method StoreRegion(fb: array<Word>, info: Info, a: Area, colour: seq<Word>, d: Depth)
    requires ValidInfo(info) && WellFormed(a) && |colour| >= AreaSize(a)
    requires ClipArea(a, info).Visible?
    requires fb.Length >= info.width * info.height
    modifies fb
    ensures fb[..] == Stored(old(fb[..]), info, a, colour, d)
  {
    var c := ClipArea(a, info);
    PartialStart(fb[..], info, a, colour, d);
    var p := 0;
    var y := c.actY1;
    while y <= c.actY2
      invariant c.actY1 <= y <= c.actY2 + 1
      invariant p == ReadIndex(a, c, c.actX1, y)
      invariant fb[..] == Partial(old(fb[..]), info, a, colour, d, y, c.actX1)
    {
      var x := c.actX1;
      while x <= c.actX2
        invariant c.actX1 <= x <= c.actX2 + 1
        invariant p == ReadIndex(a, c, x, y)
        invariant fb[..] == Partial(old(fb[..]), info, a, colour, d, y, x)
      {
        var location := x + y * info.width;
        PartialStep(old(fb[..]), info, a, colour, d, y, x);
        ReadIndexInBuffer(info, a, x, y);
        ghost var before := fb[..];
        fb[location] := Store(colour[p], d);
        assert fb[..] == before[location := Pixel(info, a, colour, d, x, y)];
        p := p + 1;
        x := x + 1;
      }
      ReadIndexNextRow(a, c, y);
      p := p + (a.x2 - c.actX2);
      PartialNextRow(old(fb[..]), info, a, colour, d, y);
      y := y + 1;
    }
    PartialComplete(old(fb[..]), info, a, colour, d);
  }

  /**
   * `lcd_fb_flush` (lines 9-101) on a surface with a framebuffer `fb`:
   * the framebuffer ends as `Flushed` says, and the calls made are the
   * rect update for the unclipped area then `lv_disp_flush_ready`, or
   * none at all for an area off the surface.
   */
  method Flush(info: Info, fb: array<Word>, a: Area, colour: seq<Word>) returns (calls: seq<Call>)
    requires ValidInfo(info) && WellFormed(a)
    requires fb.Length >= info.width * info.height
    requires |colour| >= AreaSize(a)
    modifies fb
    ensures fb[..] == Flushed(old(fb[..]), info, a, colour)
    ensures ClipArea(a, info).OffScreen? ==> calls == []
    ensures ClipArea(a, info).Visible? ==>
      calls == [RectUpdate(a.x1, a.y1, a.x2 - a.x1 + 1, a.y2 - a.y1 + 1), FlushReady]
  {
    var c := ClipArea(a, info);
    if c.OffScreen? {
      return [];
    }
    if info.bitsPerPixel == 8 {
      StoreRegion(fb, info, a, colour, Bits8);
    } else if info.bitsPerPixel == 16 {
      StoreRegion(fb, info, a, colour, Bits16);
    } else if info.bitsPerPixel == 24 || info.bitsPerPixel == 32 {
      StoreRegion(fb, info, a, colour, Bits32);
    }
    calls := [RectUpdate(a.x1, a.y1, a.x2 - a.x1 + 1, a.y2 - a.y1 + 1)];
    calls := calls + [FlushReady];
  }
}
