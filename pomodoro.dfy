/**
 * The Pomodoro timer: a 25-minute countdown driven by one-second ticks,
 * with Start, Pause and Reset buttons, that asks for the screen to be
 * locked when it reaches zero. The Tk window is reduced to the text the
 * label shows, `root.after` to a count of scheduled ticks and the screen
 * lock to a count of lock requests.
 */
module Pomodoro {
  import opened PyText

  /** 25 * 60 seconds. */
  const SessionLength: nat := 1500

  /** f"{minutes:02}:{seconds:02}" of divmod(t, 60). */
  function Display(t: nat): (s: string)
    ensures |s| >= 5 && s[|s| - 3] == ':'
  {
    Pad2(t / 60) + ":" + Pad2(t % 60)
  }

  /** Below 100 minutes the display is MM:SS and reads back as t. */
  lemma DisplayReadsBack(t: nat)
    requires t < 6000
    ensures |Display(t)| == 5 && Display(t)[2] == ':'
    ensures AllDigits(Display(t)[..2]) && AllDigits(Display(t)[3..])
    ensures DigitsValue(Display(t)[..2]) * 60 + DigitsValue(Display(t)[3..]) == t
    ensures DigitsValue(Display(t)[3..]) < 60
  {
    var s := Display(t);
    assert s[..2] == Pad2(t / 60);
    assert s[3..] == Pad2(t % 60);
  }

  /** Different times up to 100 minutes never show the same text. */
  lemma DisplayInjective(t: nat, u: nat)
    requires t < 6000 && u < 6000 && Display(t) == Display(u)
    ensures t == u
  {
    DisplayReadsBack(t);
    DisplayReadsBack(u);
  }

  lemma DisplayConstants()
    ensures Display(SessionLength) == "25:00"
    ensures Display(0) == "00:00"
  {
    assert NatToString(25) == "25" by {
      assert NatToString(2) == "2";
      assert DigitChar(5) == '5';
    }
    assert NatToString(0) == "0";
  }

  class PomodoroTimer {
    var running: bool
    var paused: bool
    var remainingTime: int
    /** The text of time_var, shown by the label. */
    var display: string
    /** The number of seconds the label currently shows. */
    ghost var shownTime: nat
    /** Calls of update_time that root.after has queued and the event loop has not yet run. */
    var pendingTicks: nat
    /** Calls of lock_screen made so far. */
    var lockRequests: nat

    /**
     * The remaining time stays within one session, a running timer is
     * never paused, and the label shows the remaining time or (right after
     * a tick has counted down) one second more.
     */
    ghost predicate Valid()
      reads this
    {
      && 0 <= remainingTime <= SessionLength
      && !(running && paused)
      && display == Display(shownTime)
      && (shownTime == remainingTime || (remainingTime < SessionLength && shownTime == remainingTime + 1))
    }

    constructor ()
      ensures Valid()
      ensures !running && !paused && remainingTime == SessionLength && display == "25:00"
      ensures pendingTicks == 0 && lockRequests == 0
    {
      DisplayConstants();
      display := "25:00";
      shownTime := SessionLength;
      running := false;
      paused := false;
      remainingTime := 25 * 60;
      pendingTicks := 0;
      lockRequests := 0;
    }

    /** One call of update_time. */
    method UpdateTime()
      requires Valid()
      modifies this
      ensures Valid()
      ensures !old(running) ==>
        running == old(running) && paused == old(paused) && remainingTime == old(remainingTime) &&
        display == old(display) && pendingTicks == old(pendingTicks) && lockRequests == old(lockRequests)
      ensures old(running) && old(remainingTime) > 0 ==>
        display == Display(old(remainingTime)) && remainingTime == old(remainingTime) - 1 &&
        running && paused == old(paused) &&
        pendingTicks == old(pendingTicks) + 1 && lockRequests == old(lockRequests)
      ensures old(running) && old(remainingTime) == 0 ==>
        display == "00:00" && remainingTime == 0 && !running && paused == old(paused) &&
        pendingTicks == old(pendingTicks) && lockRequests == old(lockRequests) + 1
    {
      if running {
        display := Display(remainingTime);
        shownTime := remainingTime;
        if remainingTime > 0 {
          remainingTime := remainingTime - 1;
          pendingTicks := pendingTicks + 1;
        } else {
          DisplayConstants();
          running := false;
          lockRequests := lockRequests + 1;
        }
      }
    }

    /** The event loop runs one of the queued update_time calls. */
    method RunScheduledTick()
      requires Valid() && pendingTicks > 0
      modifies this
      ensures Valid()
      ensures !old(running) ==>
        running == old(running) && paused == old(paused) && remainingTime == old(remainingTime) &&
        display == old(display) && pendingTicks == old(pendingTicks) - 1 && lockRequests == old(lockRequests)
      ensures old(running) && old(remainingTime) > 0 ==>
        display == Display(old(remainingTime)) && remainingTime == old(remainingTime) - 1 &&
        running && paused == old(paused) &&
        pendingTicks == old(pendingTicks) && lockRequests == old(lockRequests)
      ensures old(running) && old(remainingTime) == 0 ==>
        display == "00:00" && remainingTime == 0 && !running && paused == old(paused) &&
        pendingTicks == old(pendingTicks) - 1 && lockRequests == old(lockRequests) + 1
    {
      pendingTicks := pendingTicks - 1;
      UpdateTime();
    }

    /** The Start button: only a stopped timer starts, and it ticks at once. */
    method StartTimer()
      requires Valid()
      modifies this
      ensures Valid()
      ensures old(running) ==>
        running && paused == old(paused) && remainingTime == old(remainingTime) &&
        display == old(display) && pendingTicks == old(pendingTicks) && lockRequests == old(lockRequests)
      ensures !old(running) && old(remainingTime) > 0 ==>
        running && !paused && display == Display(old(remainingTime)) &&
        remainingTime == old(remainingTime) - 1 &&
        pendingTicks == old(pendingTicks) + 1 && lockRequests == old(lockRequests)
      ensures !old(running) && old(remainingTime) == 0 ==>
        !running && !paused && display == "00:00" && remainingTime == 0 &&
        pendingTicks == old(pendingTicks) && lockRequests == old(lockRequests) + 1
    {
      if !running {
        running := true;
        paused := false;
        UpdateTime();
      }
    }

    /** The Pause button: only a running timer pauses; the queued tick is not cancelled. */
    method PauseTimer()
      requires Valid()
      modifies this
      ensures Valid()
      ensures old(running) ==> !running && paused
      ensures !old(running) ==> running == old(running) && paused == old(paused)
      ensures remainingTime == old(remainingTime) && display == old(display)
      ensures pendingTicks == old(pendingTicks) && lockRequests == old(lockRequests)
    {
      if running {
        running := false;
        paused := true;
      }
    }

    /** The Reset button: back to a fresh 25 minutes, whatever the state. */
    method ResetTimer()
      requires Valid()
      modifies this
      ensures Valid()
      ensures !running && !paused && remainingTime == SessionLength && display == "25:00"
      ensures pendingTicks == old(pendingTicks) && lockRequests == old(lockRequests)
    {
      DisplayConstants();
      running := false;
      paused := false;
      remainingTime := 25 * 60;
      display := "25:00";
      shownTime := SessionLength;
    }
  }

  /**
   * Pressing Pause and then Start before the queued tick has run leaves
   * two queued ticks while running, so the countdown then loses two
   * seconds per second.
   */
  method PauseAndRestart() returns (timer: PomodoroTimer)
    ensures timer.Valid() && timer.running && timer.pendingTicks == 2
    ensures timer.remainingTime == SessionLength - 2
  {
    timer := new PomodoroTimer();
    timer.StartTimer();
    timer.PauseTimer();
    timer.StartTimer();
  }

  /**
   * Start and then running every queued tick: 1500 ticks count down to
   * zero, the next one shows "00:00", stops the timer and asks for the lock
   * once, and nothing is left queued.
   */
  method FullSession() returns (timer: PomodoroTimer)
    ensures timer.Valid() && !timer.running && !timer.paused
    ensures timer.remainingTime == 0 && timer.display == "00:00"
    ensures timer.pendingTicks == 0 && timer.lockRequests == 1
  {
    timer := new PomodoroTimer();
    timer.StartTimer();
    while timer.pendingTicks > 0
      invariant timer.Valid() && !timer.paused
      invariant timer.running ==> timer.pendingTicks == 1 && timer.lockRequests == 0
      invariant !timer.running ==> timer.pendingTicks == 0 && timer.remainingTime == 0 &&
                                   timer.display == "00:00" && timer.lockRequests == 1
      decreases timer.remainingTime + timer.pendingTicks
    {
      timer.RunScheduledTick();
    }
  }
}
