# LittlevGL2RTT display and input bridge, modelled in Dafny

LittlevGL2RTT connects the LVGL GUI engine to an RT-Thread graphics device
and touch driver. This project models the core of `littlevgl2rtt.c`:

- **Clipping** (`Surface.ClipArea`). Both flush callbacks first reject an area
  that lies wholly left of, above, right of or below the screen. Otherwise they
  clamp each bound to `[0, width-1] × [0, height-1]`.
- **Direct-framebuffer flush** (`FbFlush.Flush`, the `lcd_fb_flush` callback).
  The framebuffer is an `array` changed in place. The colour buffer is a
  read-only sequence of 32-bit packed values. Each pixel of the clipped
  rectangle is stored at `x + y * width`, reduced to the cell width that
  `bits_per_pixel` selects: the low 8 bits, the low 16 bits, or the whole
  value for 24 and 32. The method returns the calls it makes after the
  stores: one rect update for the unclipped area, then `lv_disp_flush_ready`.
- **Line-blit flush** (`LineFlush.Flush`, the `lcd_flush` callback). It
  returns the `blit_line` calls it makes, one per visible row. The colour
  pointer is modelled as an entry offset into the colour buffer.
- **Pointer cache** (`Pointer.PointerCache`). A class holding the statics
  `last_x`, `last_y` and `touch_down`. The input driver's reports
  (`SendInputEvent`) change it, and LVGL's `input_read` reads it. A value-level
  transition `Pointer.Next` and its fold `Pointer.Replay` state what a series
  of reports leaves behind.
- **Start-up decisions** (`Surface.Configure`). These are the supported-depth
  assertion, the colour-depth test of line 213, and the choice of flush
  callback.

The model follows the code as written, including two behaviours worth
knowing:

- Neither flush skips colour entries for columns clipped on the left or rows
  clipped at the top. The first visible pixel of each row is read where the
  strategy's cursor stands, and that cursor starts at the area's first entry.
- The framebuffer path advances `x2 - act_x1 + 1` entries per row. The
  line-blit path advances `x2 - x1 + 1`.

So each strategy reads the area's own pixels exactly when `x1 >= 0` and
`y1 >= 0` (`FbFlush.ReadsOwnPixelsIff`, `LineFlush.BlitsReadOwnPixelsIff`).
The two strategies agree on where each row starts exactly when nothing is
clipped on the left, or when only one row is visible
(`Strategies.RowStartsAgreeIff`).

The depth test at line 213 is looser than "the depths must match": it
accepts every 32-bit surface and every build with LVGL colour depth 24
(`Surface.DepthTestAcceptsAnyOn32BitSurfaceOr24BitBuild`).

Preconditions are the ones LVGL and the device guarantee:

- `x1 <= x2` and `y1 <= y2`
- `width, height > 0`
- the framebuffer has at least `width * height` cells
- the colour buffer has at least `(x2-x1+1) * (y2-y1+1)` entries

Files: `surface.dfy` (areas, clipping, calls, start-up decisions),
`arith.dfy` (non-linear integer facts), `fb_flush.dfy`, `line_flush.dfy`,
`strategies.dfy` (the two strategies compared), `pointer.dfy`.

## Model

| member | source | states |
|---|---|---|
| `Surface.ClipArea` | littlevgl2rtt.c:18-32 | rejects exactly when x2 < 0, y2 < 0, x1 > width-1 or y1 > height-1; otherwise the clamped spans are exactly the area's columns and rows that lie on the screen, with 0 <= act_x1 <= act_x2 <= width-1 (likewise y) for an ordered area |
| `Surface.RejectIffDisjoint` | littlevgl2rtt.c:19-26 | an ordered area is rejected exactly when none of its pixels is on the screen |
| `Surface.ClipIsIntersection` | littlevgl2rtt.c:29-32 | a pixel is in the clamped rectangle iff it is in the area and on the screen |
| `Surface.Configure` | littlevgl2rtt.c:210-248 | with the assertion of lines 210-211 halting (a debug build), start-up succeeds iff bits-per-pixel is 8, 16, 24 or 32 and the line-213 test passes (bpp == LV_COLOR_DEPTH, or bpp == 32, or LV_COLOR_DEPTH == 24); the framebuffer callback is chosen iff the device has a framebuffer |
| `Surface.DepthTestAcceptsAnyOn32BitSurfaceOr24BitBuild` | littlevgl2rtt.c:213 | for every supported bits-per-pixel value, start-up passes the depth test on a 32-bit surface whatever LVGL's colour depth, and with LVGL colour depth 24 whatever the surface |
| `FbFlush.DepthOf` | littlevgl2rtt.c:39-75 | a cell width is chosen exactly for 8, 16, 24 and 32 bits per pixel; 8-bit cells exactly for 8, 16-bit cells exactly for 16 |
| `FbFlush.Store` | littlevgl2rtt.c:39-90 | the stored value is below 2^8 (resp. 2^16) and congruent to the colour value modulo 2^8 (resp. 2^16); 32-bit cells store the value unchanged |
| `FbFlush.ReadIndexInBuffer` | littlevgl2rtt.c:43-53 | every colour entry the loops read lies inside the (x2-x1+1)*(y2-y1+1) entries LVGL supplies |
| `FbFlush.ReadIndexNextRow` | littlevgl2rtt.c:49-52 | after a row, skipping x2 - act_x2 entries puts the cursor at the start of the next row, x2 - act_x1 + 1 entries on |
| `FbFlush.StoreRegion` | littlevgl2rtt.c:43-53 | the nested loops leave the framebuffer equal to the old one with every pixel of the clipped rectangle stored at its location |
| `FbFlush.Flush` | littlevgl2rtt.c:9-101 | the framebuffer ends as `Flushed` of the old one; a rejected area makes no call; otherwise the calls are exactly the rect update (x1, y1, x2-x1+1, y2-y1+1) of the unclipped area followed by one flush-ready, whatever the depth |
| `FbFlush.FlushedNoChange` | littlevgl2rtt.c:18-90 | a rejected area or an unhandled bits-per-pixel leaves every cell unchanged |
| `FbFlush.FlushedInside` | littlevgl2rtt.c:43-89 | every pixel (x, y) of the clipped rectangle lands at x + y*width and holds colour entry (y-act_y1)*(x2-act_x1+1) + (x-act_x1) reduced to the cell width |
| `FbFlush.FlushedOutside` | littlevgl2rtt.c:39-90 | every cell outside the clipped rectangle keeps its old value |
| `FbFlush.ReadsOwnPixelsIff` | littlevgl2rtt.c:43-53 | the entry stored at every clipped pixel is that pixel's own row-major entry of the unclipped area iff x1 >= 0 and y1 >= 0 |
| `LineFlush.Flush` | littlevgl2rtt.c:103-136 | a rejected area makes no call; otherwise exactly act_y2-act_y1+1 `blit_line` calls, the k-th with offset k*(x2-x1+1), column act_x1, row act_y1+k and length act_x2-act_x1+1; no call is a rect update or a flush-ready |
| `LineFlush.BlitWithinBuffer` | littlevgl2rtt.c:131-135 | every blitted run, counted in `lv_color_t` entries, lies inside the colour buffer |
| `LineFlush.BlitsReadOwnPixelsIff` | littlevgl2rtt.c:131-135 | every blit starts at its row's own first visible entry iff x1 >= 0 and y1 >= 0 |
| `Strategies.RowStartsAgreeIff` | littlevgl2rtt.c:43-135 | the framebuffer loops and the line blits start every row at the same colour entry iff x1 >= 0 or only one row is visible |
| `Pointer.Next` | littlevgl2rtt.c:162-176 | the position follows DOWN and MOVE reports only; pressed is set by DOWN, cleared by UP and kept by MOVE and any other value |
| `Pointer.ReplaySnoc` | littlevgl2rtt.c:160-177 | replaying one more report applies that report to the replayed cache |
| `Pointer.ReplayKeepsLatest` | littlevgl2rtt.c:160-177 | after any series of reports the cache holds the position of the latest DOWN or MOVE and is pressed iff the latest DOWN or UP is a DOWN |
| `Pointer.OtherIgnored` | littlevgl2rtt.c:162-176 | a report with any other state value changes nothing |
| `Pointer.DownThenUp` | littlevgl2rtt.c:164-171 | DOWN at (x, y) gives (x, y, pressed); a following UP gives (x, y, released) |
| `Pointer.PointerCache.constructor` | littlevgl2rtt.c:138-140 | the cache starts at (0, 0), released |
| `Pointer.PointerCache.SendInputEvent` | littlevgl2rtt.c:160-177 | DOWN sets position and pressed; MOVE sets position and keeps pressed; UP clears pressed and keeps position; other values change nothing |
| `Pointer.PointerCache.InputRead` | littlevgl2rtt.c:142-149 | reports (last_x, last_y), PR iff touch_down, returns false, changes nothing |

## Left out

- The tick thread `lvgl_tick_run` (lines 151-158) is left out. It is a non-terminating scheduling loop whose only work is `lv_tick_inc(1)` and a delay.
- Device discovery, opening and the info query in `littlevgl2rtt_init` are left out. So are the scratch-buffer allocation, LVGL driver registration and thread creation. These are foreign calls; only the decisions are modelled (`Surface.Configure`).
- The message queue created at line 255 is left out. It is never used.
- Logging (`littlevgl2rtt_log_register`, every `rt_kprintf`) is left out. It is output only.
- Concurrency is left out. Reports and reads of the pointer cache are modelled as sequential calls, so the torn reads possible between the input driver and `input_read` are not captured.
- The GPU path is left out. It exists only as a comment at line 8.
- The effects of `rt_device_control` and `blit_line` on the device are left out. Both appear only as `Call` values.
- FbFlush.Flush: its calls and its stores are not placed in one trace. The framebuffer stores are array updates, and the returned calls are made after all of them. The list of calls does not record where each store falls.
- Surface.Configure: models the assertion of lines 210-211 as stopping start-up, as in a build with RT_DEBUG. In a build without it the assertion is absent, and an unsupported bits-per-pixel value then passes whenever the test of line 213 does; that build is not modelled.
- LineFlush.BlitWithinBuffer: assumes the device reads `length` `lv_color_t` entries per `blit_line`. The device's own pixel size, which line 213 lets differ from LVGL's colour depth, is not modelled.
- RectUpdate keeps the unclipped values as unbounded integers. `rt_device_rect_info` belongs to RT-Thread's headers, which are not part of this model, so the narrowing to that record's field widths is not modelled.
- The three reported state values come from `littlevgl2rtt.h`, which is not part of this model. They are the cases `Up`, `Down` and `Move` of `Pointer.Phase`; every other value is `Other`.
- Overflow of the `uint32_t` loop counters and of `location` is not modelled. For a surface whose cells fit in memory, none of them can overflow.
- `FbFlush.Flush` requires an ordered area with a non-empty screen and buffers of the sizes above. The source relies on LVGL and the device for these and does not check them.
