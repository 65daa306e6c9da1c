/*
 * The line-primitive flush callback, `lcd_flush`, registered when the device
 * has no framebuffer: clip the area like `lcd_fb_flush`, then hand the
 * device one `blit_line` per visible row.
 */
module LineFlush {
  import opened Surface
  import opened Arith

  /**
   * `lcd_flush` (lines 103-136).  The colour pointer handed to `blit_line`
   * is modelled as an entry offset into the colour buffer: it starts at
   * entry 0 and advances by the unclipped width x2 - x1 + 1 per row.  The
   * k-th call draws row act_y1 + k from column act_x1 for act_x2 - act_x1 + 1
   * pixels; a rejected area draws nothing, and `lv_disp_flush_ready` is
   * never called.
   */
  method Flush(info: Info, a: Area) returns (calls: seq<Call>)
    requires ValidInfo(info) && WellFormed(a)
    ensures ClipArea(a, info).OffScreen? ==> calls == []
    ensures ClipArea(a, info).Visible? ==>
      var c := ClipArea(a, info);
      |calls| == c.actY2 - c.actY1 + 1 &&
      forall k :: 0 <= k < |calls| ==>
        calls[k] == BlitLine(RowStart(a, k), c.actX1, c.actY1 + k, c.actX2 - c.actX1 + 1)
    ensures forall k :: 0 <= k < |calls| ==> calls[k].BlitLine?
  {
    var c := ClipArea(a, info);
    calls := [];
    if c.OffScreen? {
      return;
    }
    var p := 0;
    var y := c.actY1;
    while y <= c.actY2
      invariant c.actY1 <= y <= c.actY2 + 1
      invariant |calls| == y - c.actY1
      invariant p == RowStart(a, |calls|)
      invariant forall k :: 0 <= k < |calls| ==>
        calls[k] == BlitLine(RowStart(a, k), c.actX1, c.actY1 + k, c.actX2 - c.actX1 + 1)
    {
      calls := calls + [BlitLine(p, c.actX1, y, c.actX2 - c.actX1 + 1)];
      p := p + (a.x2 - a.x1 + 1);
      y := y + 1;
    }
  }

  /**
   * The k-th `blit_line` reads entries RowStart(a, k) up to
   * RowStart(a, k) + act_x2 - act_x1 + 1, all inside the colour buffer LVGL
   * supplies.
   */
  lemma BlitWithinBuffer(info: Info, a: Area, k: int)
    requires ValidInfo(info) && WellFormed(a) && ClipArea(a, info).Visible?
    requires 0 <= k <= ClipArea(a, info).actY2 - ClipArea(a, info).actY1
    ensures 0 <= RowStart(a, k)
    ensures RowStart(a, k) + (ClipArea(a, info).actX2 - ClipArea(a, info).actX1 + 1) <= AreaSize(a)
  {
    var c := ClipArea(a, info);
    var width, height := a.x2 - a.x1 + 1, a.y2 - a.y1 + 1;
    RowOffsetBound(k, c.actX2 - c.actX1, width, width, height);
  }

  /**
   * Each `blit_line` starts at the first pixel of its row's visible segment
   * exactly when nothing is clipped on the left or at the top: the offset
   * skips neither the act_x1 - x1 left-clipped entries nor the act_y1 - y1
   * top-clipped rows.
   */
  lemma BlitsReadOwnPixelsIff(info: Info, a: Area)
    requires ValidInfo(info) && WellFormed(a) && ClipArea(a, info).Visible?
    ensures (forall k :: 0 <= k <= ClipArea(a, info).actY2 - ClipArea(a, info).actY1 ==>
               RowStart(a, k) == AreaIndex(a, ClipArea(a, info).actX1, ClipArea(a, info).actY1 + k))
        <==> a.x1 >= 0 && a.y1 >= 0
  {
    var c := ClipArea(a, info);
    var width := a.x2 - a.x1 + 1;
    if a.x1 < 0 || a.y1 < 0 {
      MulMonotone(if a.y1 < 0 then 1 else 0, c.actY1 - a.y1, width);
      assert RowStart(a, 0) != AreaIndex(a, c.actX1, c.actY1 + 0);
    }
  }
}
