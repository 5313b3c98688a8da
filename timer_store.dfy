/** The timer list of the tree provider, as values: the record kept per
    timer, the effect of each store operation and of one refresh tick
    stated as functions of the old list, and the properties the provider
    relies on (order kept, nothing else changed, one notification per
    expiry, refresh rescheduling). */
module TimerStore {
  import opened Clock

  datatype Option<T> = None | Some(value: T)

  /** One timer (TimerConfig). `length` is in minutes, `startTime` and
      `timeRemaining` in milliseconds. An unset `paused` reads as false:
      the source only ever tests `!timer.paused`. */
  datatype Timer = Timer(
    name: string,
    length: int,
    startTime: int,
    timeRemaining: Option<int>,
    paused: bool)

  /** What the tree view shows for one timer (TimerItem without its icon
      and collapsible state). */
  datatype Item = Item(caption: string, description: string, tooltip: string)

  /** The non-modal "finished" message raised for one timer, offering the
      single action "Reset Timer". */
  datatype Notification = TimerFinished(name: string)

  // ---------------------------------------------------------------- add

  /** The record pushed by addTimer: start now, nothing computed yet. */
  function NewTimer(name: string, length: int, now: int): Timer
  {
    Timer(name, length, now, None, false)
  }

  // -------------------------------------------------------------- reset

  /** A reset: a new countdown epoch starting now, no longer paused. */
  function Restarted(t: Timer, now: int): Timer
  {
    t.(startTime := now, paused := false)
  }

  /** Index of the first timer called `target` (what `find` returns). */
  function FindFirst(ts: seq<Timer>, target: string): (r: Option<nat>)
    ensures r.Some? ==> r.value < |ts| && ts[r.value].name == target
    ensures r.Some? ==> forall j | 0 <= j < r.value :: ts[j].name != target
    ensures r.None? <==> forall j | 0 <= j < |ts| :: ts[j].name != target
  {
    if ts == [] then None
    else if ts[0].name == target then Some(0)
    else match FindFirst(ts[1..], target)
      case None => None
      case Some(k) => Some(k + 1)
  }

  /** resetTimer: the first timer with that name is restarted, the list is
      otherwise as it was. */
  function ResetFirst(ts: seq<Timer>, target: string, now: int): seq<Timer>
  {
    match FindFirst(ts, target)
    case None => ts
    case Some(k) => ts[k := Restarted(ts[k], now)]
  }

  /** resetAll: every timer restarted. */
  function ResetEvery(ts: seq<Timer>, now: int): seq<Timer>
  {
    seq(|ts|, i requires 0 <= i < |ts| => Restarted(ts[i], now))
  }

  // ------------------------------------------------------------- delete

  /** deleteTimer: the list filtered to the timers whose name differs. */
  function Delete(ts: seq<Timer>, target: string): (r: seq<Timer>)
    ensures |r| <= |ts|
    ensures forall t :: t in r <==> t in ts && t.name != target
  {
    if ts == [] then []
    else
      var init, last := ts[..|ts| - 1], ts[|ts| - 1];
      assert ts == init + [last];
      if last.name == target then Delete(init, target) else Delete(init, target) + [last]
  }

  // --------------------------------------------------------------- tick

  /** length minutes minus the time elapsed since the start, in ms. */
  function Remaining(t: Timer, now: int): int
  {
    t.length * 60 * 1000 - (now - t.startTime)
  }

  /** The expiry transition: remaining time below zero on a timer that
      has not been paused yet. */
  predicate Expires(t: Timer, now: int)
  {
    Remaining(t, now) < 0 && !t.paused
  }

  /** One timer after the tick: remaining time recomputed, paused once it
      has run out. */
  function Ticked(t: Timer, now: int): Timer
  {
    var rem := Remaining(t, now);
    t.(timeRemaining := Some(rem), paused := t.paused || rem < 0)
  }

  function TickAll(ts: seq<Timer>, now: int): seq<Timer>
  {
    seq(|ts|, i requires 0 <= i < |ts| => Ticked(ts[i], now))
  }

  /** Successive ticks at the given times, the last time last. */
  function Ticks(ts: seq<Timer>, times: seq<int>): seq<Timer>
  {
    if times == [] then ts
    else TickAll(Ticks(ts, times[..|times| - 1]), times[|times| - 1])
  }

  /** The notifications one tick emits, in list order. */
  function Notifications(ts: seq<Timer>, now: int): seq<Notification>
  {
    if ts == [] then []
    else
      var init, last := ts[..|ts| - 1], ts[|ts| - 1];
      Notifications(init, now) + (if Expires(last, now) then [TimerFinished(last.name)] else [])
  }

  /** Positions of the timers that make their expiry transition at `now`. */
  function FiringAt(ts: seq<Timer>, now: int): set<nat>
  {
    set i: nat | i < |ts| && Expires(ts[i], now)
  }

  /** `some(timer => !timer.paused)`: whether another refresh is scheduled. */
  predicate AnyRunning(ts: seq<Timer>)
  {
    exists i | 0 <= i < |ts| :: !ts[i].paused
  }

  /** The tree item built from a timer whose remaining time was just set. */
  function ItemOf(t: Timer): (r: Item)
    requires t.timeRemaining.Some?
    ensures r.caption == t.name
    ensures r.description == "Finished" <==> t.timeRemaining.value < 0
    ensures t.timeRemaining.value >= 0 ==>
      r.description == MillisToMinutesAndSeconds(t.timeRemaining.value) + " Remaining"
  {
    var rem := t.timeRemaining.value;
    if rem < 0 then Item(t.name, "Finished", t.name + " Finished")
    else
      var shown := MillisToMinutesAndSeconds(rem) + " Remaining";
      assert |shown| != |"Finished"|;
      Item(t.name, shown, t.name + " timer")
  }

  function Display(ts: seq<Timer>): seq<Item>
    requires forall i | 0 <= i < |ts| :: ts[i].timeRemaining.Some?
  {
    seq(|ts|, i requires 0 <= i < |ts| => ItemOf(ts[i]))
  }

  // ============================================================ lemmas

  /** addTimer appends exactly one new record and keeps the rest. */
  lemma AddEffect(ts: seq<Timer>, name: string, length: int, now: int)
    ensures var r := ts + [NewTimer(name, length, now)];
      && |r| == |ts| + 1 && r[..|ts|] == ts
      && r[|ts|].name == name && r[|ts|].length == length
      && r[|ts|].startTime == now && !r[|ts|].paused
  {
  }

  /** resetTimer on a name that occurs: only its first occurrence changes. */
  lemma ResetFirstMatch(ts: seq<Timer>, target: string, now: int, k: nat)
    requires k < |ts| && ts[k].name == target
    requires forall j | 0 <= j < k :: ts[j].name != target
    ensures var r := ResetFirst(ts, target, now);
      && |r| == |ts|
      && (forall j | 0 <= j < |ts| && j != k :: r[j] == ts[j])
      && r[k].name == ts[k].name && r[k].length == ts[k].length
      && r[k].timeRemaining == ts[k].timeRemaining
      && r[k].startTime == now && !r[k].paused
  {
  }

  /** resetTimer on a name that does not occur leaves the store as it was. */
  lemma ResetNoMatch(ts: seq<Timer>, target: string, now: int)
    requires forall j | 0 <= j < |ts| :: ts[j].name != target
    ensures ResetFirst(ts, target, now) == ts
  {
  }

  /** resetAll keeps length, order, names and lengths, and restarts all. */
  lemma ResetAllEffect(ts: seq<Timer>, now: int)
    ensures var r := ResetEvery(ts, now);
      && |r| == |ts|
      && forall i | 0 <= i < |ts| ::
           && r[i].name == ts[i].name && r[i].length == ts[i].length
           && r[i].timeRemaining == ts[i].timeRemaining
           && r[i].startTime == now && !r[i].paused
  {
  }

  /** resetAll twice at the same time is resetAll once. */
  lemma ResetAllIdempotent(ts: seq<Timer>, now: int)
    ensures ResetEvery(ResetEvery(ts, now), now) == ResetEvery(ts, now)
  {
  }

  /** Filtering distributes over concatenation: order is kept. */
  lemma {:induction false} DeleteAppend(a: seq<Timer>, b: seq<Timer>, target: string)
    ensures Delete(a + b, target) == Delete(a, target) + Delete(b, target)
  {
    if b == [] {
      assert a + b == a;
    } else {
      var init, last := b[..|b| - 1], b[|b| - 1];
      assert (a + b)[..|a + b| - 1] == a + init;
      assert (a + b)[|a + b| - 1] == last;
      DeleteAppend(a, init, target);
    }
  }

  /** A single timer survives the filter exactly when its name differs. */
  lemma DeleteSingle(t: Timer, target: string)
    ensures Delete([t], target) == if t.name == target then [] else [t]
  {
    assert [t][..0] == [];
  }

  /** Deleting a name that no timer has changes nothing. */
  lemma {:induction false} DeleteNoMatch(ts: seq<Timer>, target: string)
    requires forall j | 0 <= j < |ts| :: ts[j].name != target
    ensures Delete(ts, target) == ts
  {
    if ts != [] {
      var init := ts[..|ts| - 1];
      DeleteNoMatch(init, target);
      assert init + [ts[|ts| - 1]] == ts;
    }
  }

  /** Deleting twice is deleting once. */
  lemma DeleteIdempotent(ts: seq<Timer>, target: string)
    ensures Delete(Delete(ts, target), target) == Delete(ts, target)
  {
    var r := Delete(ts, target);
    forall j | 0 <= j < |r| ensures r[j].name != target {
      assert r[j] in r;
    }
    DeleteNoMatch(r, target);
  }

  /** With a unique name, delete removes exactly that one entry. */
  lemma DeleteUnique(ts: seq<Timer>, target: string, k: nat)
    requires k < |ts| && ts[k].name == target
    requires forall j | 0 <= j < |ts| && j != k :: ts[j].name != target
    ensures Delete(ts, target) == ts[..k] + ts[k + 1..]
    ensures |Delete(ts, target)| == |ts| - 1
  {
    var pre, post := ts[..k], ts[k + 1..];
    assert ts == pre + [ts[k]] + post;
    DeleteAppend(pre + [ts[k]], post, target);
    DeleteAppend(pre, [ts[k]], target);
    DeleteSingle(ts[k], target);
    forall j | 0 <= j < |pre| ensures pre[j].name != target {
      assert pre[j] == ts[j];
    }
    forall j | 0 <= j < |post| ensures post[j].name != target {
      assert post[j] == ts[k + 1 + j];
    }
    DeleteNoMatch(pre, target);
    DeleteNoMatch(post, target);
  }

  /** The tick keeps length and order, sets each remaining time, and never
      changes a name, length or start time, nor clears `paused`. */
  lemma TickEffect(ts: seq<Timer>, now: int)
    ensures var r := TickAll(ts, now);
      && |r| == |ts|
      && forall i | 0 <= i < |ts| ::
           && r[i].name == ts[i].name && r[i].length == ts[i].length
           && r[i].startTime == ts[i].startTime
           && r[i].timeRemaining == Some(ts[i].length * 60 * 1000 - (now - ts[i].startTime))
           && (ts[i].paused ==> r[i].paused)
           && (r[i].paused <==> ts[i].paused || Remaining(ts[i], now) < 0)
  {
  }

  /** Notifications of a concatenation are those of each part, in order. */
  lemma {:induction false} NotificationsAppend(a: seq<Timer>, b: seq<Timer>, now: int)
    ensures Notifications(a + b, now) == Notifications(a, now) + Notifications(b, now)
  {
    if b == [] {
      assert a + b == a;
    } else {
      var init := b[..|b| - 1];
      assert (a + b)[..|a + b| - 1] == a + init;
      NotificationsAppend(a, init, now);
    }
  }

  /** The positions firing in a list one longer: those of the shorter list,
      plus the new last one if it fires. */
  lemma FiringAtSnoc(ts: seq<Timer>, now: int)
    requires ts != []
    ensures var m := |ts| - 1;
      FiringAt(ts, now)
        == FiringAt(ts[..m], now) + (if Expires(ts[m], now) then {m} else {})
  {
    var m := |ts| - 1;
    var init := ts[..m];
    forall i: nat | i < m ensures init[i] == ts[i] { }
    assert forall i :: i in FiringAt(ts, now) <==> i in FiringAt(init, now) || (i == m && Expires(ts[m], now));
  }

  /** One notification per timer that makes its expiry transition. */
  lemma {:induction false} NotificationsCount(ts: seq<Timer>, now: int)
    ensures |Notifications(ts, now)| == |FiringAt(ts, now)|
  {
    if ts != [] {
      var m := |ts| - 1;
      NotificationsCount(ts[..m], now);
      FiringAtSnoc(ts, now);
      assert m !in FiringAt(ts[..m], now);
    }
  }

  /** Each notification is named after a timer that made its expiry
      transition, and each such timer has its notification. */
  lemma {:induction false} NotificationsNames(ts: seq<Timer>, now: int)
    ensures forall i | i in FiringAt(ts, now) :: TimerFinished(ts[i].name) in Notifications(ts, now)
    ensures forall n | n in Notifications(ts, now) ::
      exists i | i in FiringAt(ts, now) :: n.name == ts[i].name
  {
    if ts != [] {
      var m := |ts| - 1;
      var init := ts[..m];
      NotificationsNames(init, now);
      FiringAtSnoc(ts, now);
      forall i | i in FiringAt(init, now) ensures init[i] == ts[i] { }
    }
  }

  /** Any run of ticks keeps length and order, never changes a name, length
      or start time, never clears `paused`, and leaves each timer with the
      remaining time of the last tick. */
  lemma {:induction false} TicksKeep(ts: seq<Timer>, times: seq<int>)
    ensures var r := Ticks(ts, times);
      && |r| == |ts|
      && forall i | 0 <= i < |ts| ::
           && r[i].name == ts[i].name && r[i].length == ts[i].length
           && r[i].startTime == ts[i].startTime
           && (ts[i].paused ==> r[i].paused)
           && (ts[i].timeRemaining.Some? ==> r[i].timeRemaining.Some?)
           && (times != [] ==> r[i].timeRemaining == Some(Remaining(ts[i], times[|times| - 1])))
  {
    if times != [] {
      TicksKeep(ts, times[..|times| - 1]);
    }
  }

  /** A timer that fires at one tick is paused by it, so no later tick,
      however many come between, fires it again unless it is reset. */
  lemma NotifyOnce(ts: seq<Timer>, now: int, times: seq<int>, later: int)
    ensures FiringAt(ts, now) !! FiringAt(Ticks(TickAll(ts, now), times), later)
  {
    TicksKeep(TickAll(ts, now), times);
  }

  /** Once a timer has run out, it stays paused, raises nothing and is
      shown as finished after every later run of ticks without a reset. */
  lemma FinishedStaysFinished(ts: seq<Timer>, now: int, times: seq<int>, later: int, i: nat)
    requires i < |ts| && Remaining(ts[i], now) < 0
    requires forall k | 0 <= k < |times| :: now <= times[k]
    ensures var r := Ticks(TickAll(ts, now), times);
      && |r| == |ts|
      && (forall j | 0 <= j < |r| :: r[j].timeRemaining.Some?)
      && r[i].paused
      && !Expires(r[i], later)
      && Display(r)[i].description == "Finished"
  {
    var first := TickAll(ts, now);
    TicksKeep(first, times);
    if times != [] {
      assert now <= times[|times| - 1];
    }
  }

  /** The reschedule decision is taken before the recompute: a timer that
      expires during this tick still causes one more refresh. */
  lemma ExpiryReschedules(ts: seq<Timer>, now: int, i: nat)
    requires i in FiringAt(ts, now)
    ensures AnyRunning(ts)
  {
  }

  /** When every timer is paused the tick raises nothing and leaves every
      timer paused, so the refresh chain stops. */
  lemma AllPausedIsQuiet(ts: seq<Timer>, now: int)
    requires !AnyRunning(ts)
    ensures Notifications(ts, now) == []
    ensures !AnyRunning(TickAll(ts, now))
  {
    NotificationsCount(ts, now);
    assert FiringAt(ts, now) == {};
  }

  /** A reset followed at once by a tick shows the full length again and,
      for a non-negative length, leaves the timer counting down. */
  lemma ResetThenTick(ts: seq<Timer>, target: string, now: int, k: nat)
    requires k < |ts| && ts[k].name == target
    requires forall j | 0 <= j < k :: ts[j].name != target
    ensures var r := TickAll(ResetFirst(ts, target, now), now);
      && r[k].timeRemaining == Some(ts[k].length * 60 * 1000)
      && (ts[k].length >= 0 ==> !r[k].paused)
  {
    ResetFirstMatch(ts, target, now, k);
  }

  /** Between two ticks without a reset the remaining time drops by exactly
      the time that passed. */
  lemma RemainingDecreases(t: Timer, now: int, later: int)
    ensures Remaining(Ticked(t, now), later) == Remaining(t, now) - (later - now)
  {
  }
}
