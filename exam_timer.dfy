// The countdown of the mock exam (src/components/ExamTimer/ExamTimer.tsx).
// The interval is modelled as explicit calls of `Tick`, one per elapsed
// second; the callbacks a tick fires are returned to the caller, which routes
// them (see MockExamPage.MockExam.OnTick).
module ExamTimerComponent {
  import opened Types
  import opened JsMath

  /** Remaining seconds at or below which the warning ring is shown. */
  const WARNING_SECONDS := 1800
  /** Remaining seconds at or below which the display turns red. */
  const URGENT_SECONDS := 600

  /** The colour the time display (getTimerColor) and the progress bar (getProgressColor) take. */
  datatype Band = Red | Yellow | Green

  function ColorBand(remaining: int): (b: Band)
    ensures b == Red <==> remaining <= URGENT_SECONDS
    ensures b == Yellow <==> URGENT_SECONDS < remaining <= WARNING_SECONDS
    ensures b == Green <==> WARNING_SECONDS < remaining
  {
    if remaining <= URGENT_SECONDS then Red
    else if remaining <= WARNING_SECONDS then Yellow
    else Green
  }

  /** Whether "あと…分で時間切れです" is shown. */
  predicate ShowsUrgentMessage(remaining: int): (shown: bool)
    ensures shown ==> remaining > 0 && ColorBand(remaining) == Red
  {
    remaining <= URGENT_SECONDS && remaining > 0
  }

  /** The urgent message is shown exactly in the red band, except at zero. */
  lemma UrgentMessageInRedBand(remaining: int)
    requires remaining >= 0
    ensures ShowsUrgentMessage(remaining) <==> ColorBand(remaining) == Red && remaining != 0
  {
  }

  /** The remaining time after one tick from `remaining`. */
  function NextRemaining(remaining: int): (next: int)
    ensures next >= 0
    ensures remaining - 1 > 0 ==> next == remaining - 1
    ensures remaining - 1 <= 0 ==> next == 0
  {
    if remaining - 1 <= 0 then 0 else remaining - 1
  }

  /** The remaining time after n ticks. */
  function RemainingAfter(remaining: int, n: nat): int
    decreases n
  {
    if n == 0 then remaining else RemainingAfter(NextRemaining(remaining), n - 1)
  }

  /** How many times onTimeUp is called during n ticks. */
  function TimeUpsAfter(remaining: int, n: nat): nat
    decreases n
  {
    if n == 0 then 0
    else (if remaining - 1 <= 0 then 1 else 0) + TimeUpsAfter(NextRemaining(remaining), n - 1)
  }

  /** The countdown stops at zero: after n ticks, max(remaining - n, 0) seconds are left. */
  lemma {:induction false} RemainingAfterClosedForm(remaining: nat, n: nat)
    ensures RemainingAfter(remaining, n) == Max(remaining - n, 0)
    decreases n
  {
    if n > 0 {
      RemainingAfterClosedForm(NextRemaining(remaining), n - 1);
    }
  }

  /**
   * onTimeUp fires on the tick that reaches zero and on every tick after it:
   * from r seconds, n ticks call it max(0, n - max(r - 1, 0)) times.
   */
  lemma {:induction false} TimeUpsClosedForm(remaining: nat, n: nat)
    ensures TimeUpsAfter(remaining, n) == Max(0, n - Max(remaining - 1, 0))
    decreases n
  {
    if n > 0 {
      TimeUpsClosedForm(NextRemaining(remaining), n - 1);
    }
  }

  /**
   * There is no one-shot guard: a 165-minute countdown calls onTimeUp for the
   * first time on tick 9900, and once more on each tick that follows while the
   * interval lives.
   */
  lemma TimeUpRepeats(extra: nat)
    ensures TimeUpsAfter(165 * 60, 165 * 60 - 1) == 0
    ensures TimeUpsAfter(165 * 60, 165 * 60 + extra) == 1 + extra
  {
    TimeUpsClosedForm(165 * 60, 165 * 60 - 1);
    TimeUpsClosedForm(165 * 60, 165 * 60 + extra);
  }

  class ExamTimer {
    const totalTimeMinutes: int
    const isRunning: bool
    var timeRemaining: int
    var isWarning: bool

    /** The component's initial state: the whole time left, no warning. */
    constructor(totalTimeMinutes: int, isRunning: bool)
      ensures this.totalTimeMinutes == totalTimeMinutes && this.isRunning == isRunning
      ensures timeRemaining == totalTimeMinutes * 60 && !isWarning
    {
      this.totalTimeMinutes := totalTimeMinutes;
      this.isRunning := isRunning;
      timeRemaining := totalTimeMinutes * 60;
      isWarning := false;
    }

    /**
     * One interval callback. The new time is one second less; the warning is
     * set iff it is at most 1800. At or below zero, onTimeUp fires
     * (`timeUp`) and the time stays at zero; otherwise onTimeChange fires with
     * the new, positive time (`changed`). Ticks only happen while running.
     */
    method Tick() returns (timeUp: bool, changed: Option<int>)
      requires isRunning
      modifies this
      ensures isWarning == (old(timeRemaining) - 1 <= WARNING_SECONDS)
      ensures timeRemaining == NextRemaining(old(timeRemaining))
      ensures timeUp <==> old(timeRemaining) - 1 <= 0
      ensures changed == if timeUp then None else Some(timeRemaining)
      ensures changed.Some? ==> changed.value > 0
      ensures isWarning <==> ColorBand(timeRemaining) != Green
    {
      var newTime := timeRemaining - 1;
      isWarning := newTime <= WARNING_SECONDS;
      if newTime <= 0 {
        timeUp, changed := true, None;
        timeRemaining := 0;
      } else {
        timeUp, changed := false, Some(newTime);
        timeRemaining := newTime;
      }
    }
  }
}
