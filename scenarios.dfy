/** Worked uses of the provider, proved from the operations' contracts
    alone: the formatter's fixed points, one timer running out, two timers
    of which one runs out, and a reset of everything. */
module Scenarios {
  import opened Clock
  import opened TimerStore
  import opened Provider

  /** Zero renders as a zero clock. */
  lemma FormatZero()
    ensures MillisToMinutesAndSeconds(0) == "00:00:00"
  {
    FormatDigits(0);
    assert DigitChar(0) == '0';
  }

  /** One hour, one minute and one second. */
  lemma FormatOneOneOne()
    ensures MillisToMinutesAndSeconds(3661000) == "01:01:01"
  {
    FormatDigits(3661000);
    assert DigitChar(0) == '0' && DigitChar(1) == '1';
  }

  /** A day more than the previous one renders the same: hours wrap at 24. */
  lemma FormatWrapsDays()
    ensures MillisToMinutesAndSeconds(90061000) == "01:01:01"
  {
    SameDisplayIffSameSecondOfDay(90061000, 3661000);
    FormatOneOneOne();
  }

  /** Two minutes. */
  lemma FormatTwoMinutes()
    ensures MillisToMinutesAndSeconds(120000) == "00:02:00"
  {
    FormatDigits(120000);
    assert DigitChar(0) == '0' && DigitChar(2) == '2';
  }

  /** A two-minute timer shows its full length, then after 125 seconds is
      finished, paused and announced once; the next refresh announces
      nothing and schedules no further refresh. */
  method StandUp(t0: int)
  {
    var p := new TreeProvider();
    var _ := p.AddTimer("Stand Up", 2, t0);
    var items, notes, again := p.GetChildren(t0);
    FormatTwoMinutes();
    assert items[0].description == "00:02:00 Remaining";
    assert notes == [] && again;

    items, notes, again := p.GetChildren(t0 + 125000);
    assert items[0].description == "Finished";
    assert p.timers[0].paused;
    assert notes == [TimerFinished("Stand Up")];
    assert again;

    items, notes, again := p.GetChildren(t0 + 126000);
    assert notes == [] && !again;
  }

  /** Timers of one and five minutes: after 61 seconds only the first has
      finished and the refresh keeps rescheduling for the second; a reset
      of both after both have finished restores their full lengths. */
  method TwoTimers(t0: int)
  {
    var p := new TreeProvider();
    var _ := p.AddTimer("A", 1, t0);
    var _ := p.AddTimer("B", 5, t0);
    var a, b := p.timers[0], p.timers[1];
    assert p.timers[..1] == [a] && [a][..0] == [];
    assert Notifications([a], t0 + 61000) == [TimerFinished("A")];
    var items, notes, again := p.GetChildren(t0 + 61000);
    assert items[0].description == "Finished";
    assert items[1].description != "Finished";
    assert notes == [TimerFinished("A")];
    a, b := p.timers[0], p.timers[1];
    assert p.timers[..1] == [a] && [a][..0] == [];
    assert Notifications([a], t0 + 62000) == [];
    items, notes, again := p.GetChildren(t0 + 62000);
    assert again && notes == [];

    a, b := p.timers[0], p.timers[1];
    assert p.timers[..1] == [a] && [a][..0] == [];
    assert Notifications([a], t0 + 301000) == [];
    items, notes, again := p.GetChildren(t0 + 301000);
    assert notes == [TimerFinished("B")];
    assert p.timers[0].paused && p.timers[1].paused;

    var _ := p.ResetAll(t0 + 400000);
    items, notes, again := p.GetChildren(t0 + 400000);
    assert again;
    assert !p.timers[0].paused && !p.timers[1].paused;
    assert p.timers[0].timeRemaining == Some(60000);
    assert p.timers[1].timeRemaining == Some(300000);
  }

  /** Duplicate names are allowed: a reset touches the first of them, a
      delete removes both. */
  method DuplicateNames(t0: int)
  {
    var p := new TreeProvider();
    var _ := p.AddTimer("Tea", 3, t0);
    var _ := p.AddTimer("Tea", 4, t0);
    var _ := p.AddTimer("Walk", 30, t0);
    var found := p.ResetTimer("Tea", t0 + 1000);
    assert found;
    assert p.timers[0].startTime == t0 + 1000 && p.timers[1].startTime == t0;
    found := p.ResetTimer("Nap", t0 + 2000);
    assert !found;
    var tea1, tea2, walk := p.timers[0], p.timers[1], p.timers[2];
    assert p.timers == [tea1, tea2] + [walk] && [tea1, tea2] == [tea1] + [tea2];
    DeleteAppend([tea1, tea2], [walk], "Tea");
    DeleteAppend([tea1], [tea2], "Tea");
    DeleteSingle(tea1, "Tea");
    DeleteSingle(tea2, "Tea");
    DeleteSingle(walk, "Tea");
    var _ := p.DeleteTimer("Tea");
    assert |p.timers| == 1 && p.timers[0].name == "Walk";
  }
}
