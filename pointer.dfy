/*
 * The pointer-state cache: the statics `last_x`, `last_y` and `touch_down`
 * (lines 138-140), written by `littlevgl2rtt_send_input_event` whenever the
 * touch or mouse driver reports, and read back by LVGL through `input_read`.
 * It keeps the last sample only; nothing is queued.
 */
module Pointer {

  /** `rt_int16_t`, the type of the reported and cached coordinates. */
  type Int16 = v: int | -0x8000 <= v < 0x8000

  /**
   * The `state` argument: LITTLEVGL2RTT_INPUT_UP, _DOWN, _MOVE, or any
   * other value (which the switch ignores).
   */
  datatype Phase = Up | Down | Move | Other

  /** LV_INDEV_STATE_PR and LV_INDEV_STATE_REL. */
  datatype IndevState = Pressed | Released

  /** The fields of `lv_indev_data_t` that `input_read` fills in. */
  datatype IndevData = IndevData(x: Int16, y: Int16, state: IndevState)

  /** What `input_read` hands back: the data and its return value ("no more samples buffered"). */
  datatype ReadResult = ReadResult(data: IndevData, more: bool)

  /** The cache's contents as a value: (last_x, last_y, touch_down). */
  datatype Sample = Sample(x: Int16, y: Int16, down: bool)

  /** One report of the input driver. */
  datatype Event = Event(x: Int16, y: Int16, phase: Phase)

  /**
   * The switch of lines 162-176 on the cache's value: the position follows
   * DOWN and MOVE reports only, and the pressed flag is set by DOWN, cleared
   * by UP and kept otherwise.
   */
  function Next(s: Sample, e: Event): (r: Sample)
    ensures (r.x, r.y) == if e.phase == Down || e.phase == Move then (e.x, e.y) else (s.x, s.y)
    ensures r.down <==> e.phase == Down || (e.phase != Up && s.down)
  {
    match e.phase
    case Up => s.(down := false)
    case Down => Sample(e.x, e.y, true)
    case Move => s.(x := e.x, y := e.y)
    case Other => s
  }

  /** The cache after a sequence of reports, oldest first. */
  function Replay(s: Sample, events: seq<Event>): Sample
    decreases |events|
  {
    if events == [] then s else Replay(Next(s, events[0]), events[1..])
  }

  /** The position of the latest DOWN or MOVE report, or the starting position if there is none. */
  function LastPosition(s: Sample, events: seq<Event>): (Int16, Int16)
    decreases |events|
  {
    if events == [] then (s.x, s.y)
    else
      var e := events[|events| - 1];
      if e.phase == Down || e.phase == Move then (e.x, e.y) else LastPosition(s, events[..|events| - 1])
  }

  /** Whether the latest DOWN or UP report is a DOWN, or the starting flag if there is neither. */
  function LastPressed(s: Sample, events: seq<Event>): bool
    decreases |events|
  {
    if events == [] then s.down
    else
      var e := events[|events| - 1];
      if e.phase == Down then true
      else if e.phase == Up then false
      else LastPressed(s, events[..|events| - 1])
  }

  /** Replaying one more report applies it to the replayed cache. */
  lemma {:induction false} ReplaySnoc(s: Sample, events: seq<Event>, e: Event)
    ensures Replay(s, events + [e]) == Next(Replay(s, events), e)
    decreases |events|
  {
    if events != [] {
      assert (events + [e])[1..] == events[1..] + [e];
      ReplaySnoc(Next(s, events[0]), events[1..], e);
    }
  }

  /**
   * Last write wins: after any sequence of reports the cache holds the
   * position of the latest DOWN or MOVE, and is pressed exactly when the
   * latest DOWN or UP is a DOWN.
   */
  lemma {:induction false} ReplayKeepsLatest(s: Sample, events: seq<Event>)
    ensures (Replay(s, events).x, Replay(s, events).y) == LastPosition(s, events)
    ensures Replay(s, events).down == LastPressed(s, events)
    decreases |events|
  {
    if events != [] {
      var init, e := events[..|events| - 1], events[|events| - 1];
      assert events == init + [e];
      ReplaySnoc(s, init, e);
      ReplayKeepsLatest(s, init);
    }
  }

  /** A report with an unknown state value leaves the cache as it was. */
  lemma OtherIgnored(s: Sample, events: seq<Event>, x: Int16, y: Int16)
    ensures Replay(s, events + [Event(x, y, Other)]) == Replay(s, events)
  {
    ReplaySnoc(s, events, Event(x, y, Other));
  }

  /**
   * UP releases without moving: after DOWN at (x, y) and then any UP, the
   * cache is at (x, y), released.
   */
  lemma {:induction false} DownThenUp(s: Sample, x: Int16, y: Int16, ux: Int16, uy: Int16)
    ensures Replay(s, [Event(x, y, Down)]) == Sample(x, y, true)
    ensures Replay(s, [Event(x, y, Down), Event(ux, uy, Up)]) == Sample(x, y, false)
  {
    ReplaySnoc(s, [Event(x, y, Down)], Event(ux, uy, Up));
    assert [Event(x, y, Down)] + [Event(ux, uy, Up)] == [Event(x, y, Down), Event(ux, uy, Up)];
  }

  /** The three statics, updated in place by the input driver and read by LVGL. */
  class PointerCache {
    var lastX: Int16
    var lastY: Int16
    var touchDown: bool

    /** The statics' initialisers: (0, 0), released. */
    constructor ()
      ensures lastX == 0 && lastY == 0 && !touchDown
    {
      lastX, lastY, touchDown := 0, 0, false;
    }

    /** The cache's contents as a value. */
    function Contents(): Sample
      reads this
    {
      Sample(lastX, lastY, touchDown)
    }

    /**
     * `littlevgl2rtt_send_input_event` (lines 160-177): DOWN stores the
     * position and presses, MOVE stores the position only, UP releases and
     * keeps the position, any other state value changes nothing.
     */
    method SendInputEvent(x: Int16, y: Int16, phase: Phase)
      modifies this
      ensures Contents() == Next(old(Contents()), Event(x, y, phase))
      ensures phase == Down ==> lastX == x && lastY == y && touchDown
      ensures phase == Move ==> lastX == x && lastY == y && touchDown == old(touchDown)
      ensures phase == Up ==> lastX == old(lastX) && lastY == old(lastY) && !touchDown
      ensures phase == Other ==> unchanged(this)
    {
      match phase {
        case Up =>
          touchDown := false;
        case Down =>
          lastX := x;
          lastY := y;
          touchDown := true;
        case Move =>
          lastX := x;
          lastY := y;
        case Other =>
      }
    }

    /**
     * `input_read` (lines 142-149): the cached position, PR exactly when
     * the cache is pressed, and `false` for "no further samples".  Reading
     * changes nothing.
     */
    function InputRead(): (r: ReadResult)
      reads this
      ensures r.data.x == lastX && r.data.y == lastY
      ensures r.data.state == Pressed <==> touchDown
      ensures !r.more
    {
      ReadResult(IndevData(lastX, lastY, if touchDown then Pressed else Released), false)
    }
  }
}
