/*
 * The display surface as the bridge sees it: the graphic-info record read
 * from the RT-Thread device, the area LVGL asks to flush, the clipping both
 * flush strategies share, the calls a flush makes, and the colour-depth
 * test run at start-up.
 */
module Surface {

  datatype Option<T> = None | Some(value: T)

  /** One packed colour value (`lv_color_t.full`), at most 32 bits wide. */
  type Word = v: int | 0 <= v < 0x1_0000_0000

  /** The part of `struct rt_device_graphic_info` the flush strategies use. */
  datatype Info = Info(width: int, height: int, bitsPerPixel: int)

  /** The device reports a non-empty surface. */
  predicate ValidInfo(info: Info) {
    info.width > 0 && info.height > 0
  }

  /** `lv_area_t`: inclusive corners, possibly off the surface. */
  datatype Area = Area(x1: int, y1: int, x2: int, y2: int)

  /** LVGL hands over areas whose corners are ordered. */
  predicate WellFormed(a: Area) {
    a.x1 <= a.x2 && a.y1 <= a.y2
  }

  /** Number of colour entries LVGL supplies for an area: row-major, unclipped. */
  function AreaSize(a: Area): int {
    (a.x2 - a.x1 + 1) * (a.y2 - a.y1 + 1)
  }

  /** Result of clipping: the area misses the surface, or the clamped bounds `act_x1 .. act_y2`. */
  datatype Clip = OffScreen | Visible(actX1: int, actY1: int, actX2: int, actY2: int)

  /** `lo <= v <= hi`, named so that quantifiers over a coordinate have a trigger. */
  predicate InSpan(v: int, lo: int, hi: int) {
    lo <= v <= hi
  }

  /** Pixel (x, y) of the area lies on the surface. */
  predicate OnSurface(x: int, y: int, info: Info) {
    InSpan(x, 0, info.width - 1) && InSpan(y, 0, info.height - 1)
  }

  /** Pixel (x, y) belongs to the area. */
  predicate InArea(x: int, y: int, a: Area) {
    InSpan(x, a.x1, a.x2) && InSpan(y, a.y1, a.y2)
  }

  /** Pixel (x, y) belongs to the clipped rectangle. */
  predicate InClip(x: int, y: int, c: Clip)
    requires c.Visible?
  {
    InSpan(x, c.actX1, c.actX2) && InSpan(y, c.actY1, c.actY2)
  }

  /**
   * The reject test and the clamping of lines 19-32 (and again 113-126):
   * an area entirely left of, above, right of or below the surface is
   * rejected; otherwise each bound is clamped on its own.  The contract says
   * what the clamped rectangle is: exactly the part of the area that lies on
   * the surface, column by column and row by row.
   */
  function ClipArea(a: Area, info: Info): (c: Clip)
    ensures c.OffScreen? <==>
      a.x2 < 0 || a.y2 < 0 || a.x1 > info.width - 1 || a.y1 > info.height - 1
    ensures c.Visible? ==>
      (forall x :: InSpan(x, c.actX1, c.actX2) <==> InSpan(x, a.x1, a.x2) && InSpan(x, 0, info.width - 1)) &&
      (forall y :: InSpan(y, c.actY1, c.actY2) <==> InSpan(y, a.y1, a.y2) && InSpan(y, 0, info.height - 1))
    ensures c.Visible? ==>
      0 <= c.actX1 && a.x1 <= c.actX1 && c.actX2 <= a.x2 && c.actX2 <= info.width - 1 &&
      0 <= c.actY1 && a.y1 <= c.actY1 && c.actY2 <= a.y2 && c.actY2 <= info.height - 1
    ensures c.Visible? && WellFormed(a) && ValidInfo(info) ==> c.actX1 <= c.actX2 && c.actY1 <= c.actY2
  {
    if a.x2 < 0 || a.y2 < 0 || a.x1 > info.width - 1 || a.y1 > info.height - 1 then
      OffScreen
    else
      Visible(if a.x1 < 0 then 0 else a.x1,
              if a.y1 < 0 then 0 else a.y1,
              if a.x2 > info.width - 1 then info.width - 1 else a.x2,
              if a.y2 > info.height - 1 then info.height - 1 else a.y2)
  }

  /** A well-formed area is rejected exactly when none of its pixels is on the surface. */
  lemma RejectIffDisjoint(a: Area, info: Info)
    requires WellFormed(a) && ValidInfo(info)
    ensures ClipArea(a, info).OffScreen? <==> !exists x, y :: InArea(x, y, a) && OnSurface(x, y, info)
  {
    var c := ClipArea(a, info);
    if c.Visible? {
      assert InArea(c.actX1, c.actY1, a) && OnSurface(c.actX1, c.actY1, info);
    }
  }

  /** Clipping keeps a pixel exactly when it is in the area and on the surface. */
  lemma ClipIsIntersection(a: Area, info: Info, x: int, y: int)
    requires ClipArea(a, info).Visible?
    ensures InClip(x, y, ClipArea(a, info)) <==> InArea(x, y, a) && OnSurface(x, y, info)
  {
  }

  /** Calls a flush makes, in order, outside its framebuffer stores. */
  datatype Call =
    | RectUpdate(x: int, y: int, width: int, height: int)  // rt_device_control(RTGRAPHIC_CTRL_RECT_UPDATE)
    | FlushReady                                           // lv_disp_flush_ready
    | BlitLine(offset: int, x: int, y: int, length: int)   // blit_line(color_p, x, y, size), color_p as an entry offset

  /** Entry offset of the start of row `k` of an area's colour buffer (the unclipped width per row). */
  function RowStart(a: Area, k: int): int {
    k * (a.x2 - a.x1 + 1)
  }

  /** How many colour entries of (x2 - x1 + 1) per row precede row `y` of the area. */
  function AreaIndex(a: Area, x: int, y: int): int {
    (y - a.y1) * (a.x2 - a.x1 + 1) + (x - a.x1)
  }

  /** Which flush callback start-up registers (lines 241-248). */
  datatype Strategy = FramebufferFlush | LineBlitFlush

  /** Why start-up stops: the assertion of lines 210-211 halts, or line 217 returns RT_ERROR. */
  datatype InitError = AssertionHalt | DepthMismatch

  datatype InitResult = Ready(strategy: Strategy) | Failed(error: InitError)

  /** The bits-per-pixel values the assertion at lines 210-211 accepts. */
  predicate SupportedBitsPerPixel(bpp: int) {
    bpp == 8 || bpp == 16 || bpp == 24 || bpp == 32
  }

  /** The error condition at line 213, with `colourDepth` standing for LV_COLOR_DEPTH. */
  predicate DepthMismatchTest(bpp: int, colourDepth: int) {
    bpp != colourDepth && (bpp != 32 && colourDepth != 24)
  }

  /**
   * The decisions of start-up (lines 210-248) once the device has answered:
   * unsupported depths halt it at the assertion (a build with RT_DEBUG), the test of line 213 fails it, and otherwise
   * the framebuffer strategy is chosen exactly when the device exposes a
   * framebuffer.
   */
  function Configure(bpp: int, colourDepth: int, hasFramebuffer: bool): (r: InitResult)
    ensures r.Ready? <==>
      SupportedBitsPerPixel(bpp) && (bpp == colourDepth || bpp == 32 || colourDepth == 24)
    ensures r.Ready? ==> (r.strategy == FramebufferFlush <==> hasFramebuffer)
    ensures !SupportedBitsPerPixel(bpp) ==> r == Failed(AssertionHalt)
  {
    if !SupportedBitsPerPixel(bpp) then Failed(AssertionHalt)
    else if DepthMismatchTest(bpp, colourDepth) then Failed(DepthMismatch)
    else if hasFramebuffer then Ready(FramebufferFlush)
    else Ready(LineBlitFlush)
  }

  /**
   * The test of line 213 as written is looser than "the depths must match":
   * every supported depth starts against a 32-bit surface, and against any
   * supported surface when LVGL's colour depth is 24.
   */
  lemma DepthTestAcceptsAnyOn32BitSurfaceOr24BitBuild(bpp: int, colourDepth: int, hasFramebuffer: bool)
    requires SupportedBitsPerPixel(bpp)
    ensures Configure(32, colourDepth, hasFramebuffer).Ready?
    ensures Configure(bpp, 24, hasFramebuffer).Ready?
  {
  }
}
