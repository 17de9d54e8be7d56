/**
 * The tooltip state and hide-timer helpers that every chart repeats.
 *
 * The component holds the tooltip (`visible`, the pointer position and a
 * payload) and the ref `hideTimer`, the handle of at most one pending
 * `window.setTimeout`. The browser side is made explicit: `armed` maps
 * each pending timeout's handle to its delay, `clearTimeout` removes a
 * handle, and `Fire(h)` is the browser running timeout `h`, which happens
 * only while `h` is armed. Handles are issued in increasing order from 1
 * (HTML timers return positive integers), so every handle is a
 * generation number. Wall-clock time and the delays' elapsing are not
 * modelled: a delay is a number carried by the armed timer.
 */
module Tooltip {

  import opened Wrappers

  class TooltipController<P> {
    var visible: bool
    var x: real
    var y: real
    var payload: Option<P>

    /** The ref `hideTimer` (`None` is `null`). */
    var hideTimer: Option<nat>
    /** The browser's pending timeouts of this component: handle to delay in ms. */
    var armed: map<nat, nat>
    /** The handle the next `setTimeout` returns. */
    var nextHandle: nat
    /**
     * Whether `clearHideTimer` tests the handle for truthiness
     * (`if (hideTimer.current)`) rather than `!= null`.
     */
    const truthyCheck: bool

    /** At most one timeout is pending, and it is the one `hideTimer` names. */
    ghost predicate Valid()
      reads this
    {
      && nextHandle >= 1
      && (forall h :: h in armed ==> 1 <= h < nextHandle)
      && (if hideTimer.Some? then armed.Keys == {hideTimer.value} else armed == map[])
    }

    /** The initial state `{ visible: false, x: 0, y: 0 }` with no pending timer. */
    constructor(truthyCheck: bool)
      ensures Valid() && this.truthyCheck == truthyCheck
      ensures !visible && x == 0.0 && y == 0.0 && payload.None?
      ensures hideTimer.None? && armed == map[]
    {
      visible, x, y, payload := false, 0.0, 0.0, None;
      hideTimer, armed, nextHandle := None, map[], 1;
      this.truthyCheck := truthyCheck;
    }

    /**
     * `clearHideTimer`: cancel the pending timeout, if any, and forget it.
     * The truthiness test agrees with `!= null` because no handle is 0.
     */
    method ClearHideTimer()
      requires Valid()
      modifies this
      ensures Valid() && hideTimer.None? && armed == map[]
      ensures visible == old(visible) && x == old(x) && y == old(y) && payload == old(payload)
      ensures nextHandle == old(nextHandle)
    {
      var pending := if truthyCheck then hideTimer.Some? && hideTimer.value != 0 else hideTimer.Some?;
      if pending {
        armed := armed - {hideTimer.value};
        hideTimer := None;
      }
    }

    /** `hideNow`: cancel the pending timeout and hide. */
    method HideNow()
      requires Valid()
      modifies this
      ensures Valid() && !visible && hideTimer.None? && armed == map[]
      ensures x == old(x) && y == old(y) && payload == old(payload) && nextHandle == old(nextHandle)
    {
      ClearHideTimer();
      visible := false;
    }

    /**
     * `scheduleHide(ms)`: cancel the pending timeout, then arm a new one
     * and remember its handle. The new handle is newer than every handle
     * issued before, and it is the only one pending.
     */
    method ScheduleHide(ms: nat) returns (handle: nat)
      requires Valid()
      modifies this
      ensures Valid()
      ensures handle == old(nextHandle) && nextHandle == handle + 1
      ensures hideTimer == Some(handle) && armed == map[handle := ms]
      ensures visible == old(visible) && x == old(x) && y == old(y) && payload == old(payload)
    {
      ClearHideTimer();
      handle := nextHandle;
      nextHandle := nextHandle + 1;
      armed := armed[handle := ms];
      hideTimer := Some(handle);
    }

    /** What every chart's show handler does: show the panel at the pointer, then schedule its hiding. */
    method Show(px: real, py: real, p: P, ms: nat) returns (handle: nat)
      requires Valid()
      modifies this
      ensures Valid()
      ensures visible && x == px && y == py && payload == Some(p)
      ensures handle == old(nextHandle) && hideTimer == Some(handle) && armed == map[handle := ms]
    {
      visible, x, y, payload := true, px, py, Some(p);
      handle := ScheduleHide(ms);
    }

    /**
     * The browser runs timeout `h`. An armed one runs the callback, which
     * hides the tooltip and clears the ref; any other handle (cancelled,
     * already run, or never issued) does nothing at all.
     */
    method Fire(h: nat)
      requires Valid()
      modifies this
      ensures Valid()
      ensures h in old(armed) ==> !visible && hideTimer.None? && armed == map[]
      ensures h in old(armed) ==> x == old(x) && y == old(y) && payload == old(payload)
      ensures h !in old(armed) ==>
        visible == old(visible) && x == old(x) && y == old(y) && payload == old(payload) &&
        hideTimer == old(hideTimer) && armed == old(armed)
      ensures nextHandle == old(nextHandle)
    {
      if h in armed {
        armed := armed - {h};
        visible := false;
        hideTimer := None;
      }
    }
  }

  /**
   * A stale timer never hides a newer tooltip: after a show, the browser
   * running any timeout other than the one that show armed (an earlier
   * show's, a cancelled one, one never issued) leaves the new tooltip
   * visible where it was shown, with its payload and its own timer pending.
   */
  method StaleTimerKeepsNewerTooltip<P>(c: TooltipController<P>, px: real, py: real, p: P, ms: nat, stale: nat)
    requires c.Valid()
    requires stale != c.nextHandle
    modifies c
    ensures c.Valid() && c.visible && c.x == px && c.y == py && c.payload == Some(p)
    ensures c.hideTimer == Some(old(c.nextHandle)) && c.armed == map[old(c.nextHandle) := ms]
  {
    var h := c.Show(px, py, p, ms);
    c.Fire(stale);
  }

  /** After `hideNow` no timeout is left that could later change the tooltip. */
  method HideNowLeavesNothingPending<P>(c: TooltipController<P>, h: nat)
    requires c.Valid()
    modifies c
    ensures c.Valid() && !c.visible && c.hideTimer.None?
  {
    c.HideNow();
    c.Fire(h);
  }
}
