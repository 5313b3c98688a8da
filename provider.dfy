/** The tree data provider: the mutable timer list and the operations the
    view's commands and refreshes call on it. `now` stands for the clock
    reading each operation takes; the refresh signal each mutation fires
    and the follow-up refresh a tick schedules are returned as flags; the
    "finished" messages a tick raises are returned as records. */
module Provider {
  import opened Clock
  import opened TimerStore

  class TreeProvider {
    var timers: seq<Timer>

    constructor ()
      ensures timers == []
    {
      timers := [];
    }

    /** Pushes a new timer starting now; always signals a refresh. */
    method AddTimer(name: string, length: int, now: int) returns (refresh: bool)
      modifies this
      ensures timers == old(timers) + [NewTimer(name, length, now)]
      ensures refresh
    {
      timers := timers + [NewTimer(name, length, now)];
      refresh := true;
    }

    /** Restarts the first timer with that name; signals a refresh only when
        there was one. */
    method ResetTimer(target: string, now: int) returns (refresh: bool)
      modifies this
      ensures timers == ResetFirst(old(timers), target, now)
      ensures refresh <==> exists j | 0 <= j < |old(timers)| :: old(timers)[j].name == target
    {
      var i := 0;
      while i < |timers| && timers[i].name != target
        invariant 0 <= i <= |timers|
        invariant forall j | 0 <= j < i :: timers[j].name != target
      {
        i := i + 1;
      }
      refresh := i < |timers|;
      if refresh {
        ResetFirstMatch(timers, target, now, i);
        timers := timers[i := timers[i].(startTime := now, paused := false)];
      } else {
        ResetNoMatch(timers, target, now);
      }
    }

    /** Restarts every timer, one after another; signals one refresh. */
    method ResetAll(now: int) returns (refresh: bool)
      modifies this
      ensures timers == ResetEvery(old(timers), now)
      ensures refresh
    {
      var i := 0;
      while i < |timers|
        invariant 0 <= i <= |timers| == |old(timers)|
        invariant forall j | 0 <= j < i :: timers[j] == Restarted(old(timers)[j], now)
        invariant forall j | i <= j < |timers| :: timers[j] == old(timers)[j]
      {
        timers := timers[i := timers[i].(startTime := now, paused := false)];
        i := i + 1;
      }
      refresh := true;
    }

    /** Replaces the list by a filtered copy without the timers of that
        name; always signals a refresh. */
    method DeleteTimer(target: string) returns (refresh: bool)
      modifies this
      ensures timers == Delete(old(timers), target)
      ensures refresh
    {
      var kept: seq<Timer> := [];
      var i := 0;
      while i < |timers|
        invariant 0 <= i <= |timers|
        invariant kept == Delete(timers[..i], target)
      {
        assert timers[..i + 1][..i] == timers[..i];
        if timers[i].name != target {
          kept := kept + [timers[i]];
        }
        i := i + 1;
      }
      assert timers[..i] == timers;
      timers := kept;
      refresh := true;
    }

    /** One refresh (getChildren): decides first whether a follow-up refresh
        is due, then recomputes every timer's remaining time, pauses and
        reports the ones that have just run out, and builds one item per
        timer. */
    method GetChildren(now: int) returns (items: seq<Item>, notes: seq<Notification>, reschedule: bool)
      modifies this
      ensures reschedule <==> AnyRunning(old(timers))
      ensures timers == TickAll(old(timers), now)
      ensures notes == Notifications(old(timers), now)
      ensures items == Display(timers)
    {
      reschedule := SomeUnpaused(timers);

      ghost var before := timers;
      items, notes := [], [];
      var i := 0;
      while i < |timers|
        invariant 0 <= i <= |timers| == |before|
        invariant forall j | 0 <= j < i :: timers[j] == Ticked(before[j], now)
        invariant forall j | i <= j < |timers| :: timers[j] == before[j]
        invariant notes == Notifications(before[..i], now)
        invariant |items| == i
        invariant forall j | 0 <= j < i :: items[j] == ItemOf(timers[j])
      {
        assert before[..i + 1][..i] == before[..i];
        var timer, item, raised := RefreshTimer(timers[i], now);
        notes := notes + raised;
        timers := timers[i := timer];
        items := items + [item];
        i := i + 1;
      }
      assert before[..i] == before;
    }
  }

  /** `timers.some((timer) => !timer.paused)`. */
  method SomeUnpaused(ts: seq<Timer>) returns (found: bool)
    ensures found <==> AnyRunning(ts)
  {
    found := false;
    var k := 0;
    while k < |ts| && !found
      invariant 0 <= k <= |ts|
      invariant found ==> AnyRunning(ts)
      invariant !found ==> forall j | 0 <= j < k :: ts[j].paused
    {
      if !ts[k].paused {
        found := true;
      }
      k := k + 1;
    }
  }

  /** The callback the tick maps over the list, for one timer: the timer
      with its remaining time recomputed (and paused if it has just run
      out), its tree item, and the message raised for it, if any. */
  method RefreshTimer(t: Timer, now: int) returns (timer: Timer, item: Item, raised: seq<Notification>)
    ensures timer == Ticked(t, now)
    ensures item == ItemOf(timer)
    ensures raised == if Expires(t, now) then [TimerFinished(t.name)] else []
  {
    timer := t;
    var timeElapsed := now - timer.startTime;
    timer := timer.(timeRemaining := Some(timer.length * 60 * 1000 - timeElapsed));
    raised := [];
    if timer.timeRemaining.value < 0 {
      if !timer.paused {
        raised := [TimerFinished(timer.name)];
        timer := timer.(paused := true);
      }
      item := Item(timer.name, "Finished", timer.name + " Finished");
    } else {
      item := Item(timer.name, MillisToMinutesAndSeconds(timer.timeRemaining.value) + " Remaining", timer.name + " timer");
    }
  }
}
