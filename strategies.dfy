/*
 * The two flush strategies side by side: both clip the same way, but they
 * advance through the colour buffer by different strides.
 */
module Strategies {
  import opened Surface
  import FbFlush

  /**
   * Row k of the clipped rectangle starts at colour entry
   * k * (x2 - act_x1 + 1) in `lcd_fb_flush` (lines 49 and 52) and at
   * k * (x2 - x1 + 1) in `lcd_flush` (line 134).  The two agree on every row
   * exactly when nothing is clipped on the left or only one row is visible.
   */
  lemma RowStartsAgreeIff(info: Info, a: Area)
    requires ValidInfo(info) && WellFormed(a) && ClipArea(a, info).Visible?
    ensures (forall k :: 0 <= k <= ClipArea(a, info).actY2 - ClipArea(a, info).actY1 ==>
               FbFlush.ReadIndex(a, ClipArea(a, info), ClipArea(a, info).actX1, ClipArea(a, info).actY1 + k) == RowStart(a, k))
        <==> a.x1 >= 0 || ClipArea(a, info).actY1 == ClipArea(a, info).actY2
  {
    var c := ClipArea(a, info);
    if a.x1 < 0 && c.actY1 < c.actY2 {
      assert FbFlush.ReadIndex(a, c, c.actX1, c.actY1 + 1) != RowStart(a, 1);
    } else {
      forall k | 0 <= k <= c.actY2 - c.actY1
        ensures FbFlush.ReadIndex(a, c, c.actX1, c.actY1 + k) == RowStart(a, k)
      {
        if a.x1 >= 0 {
          assert c.actX1 == a.x1;
        } else {
          assert k == 0;
        }
      }
    }
  }
}
