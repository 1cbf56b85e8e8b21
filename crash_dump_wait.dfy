/**
 * The bounded wait that runs when a present fails: poll the crash-dump status
 * every 50 ms until the dump is finished, its collection has failed, or 3 s
 * have elapsed.
 *
 * The vendor's status query and the steady clock are inputs: `status(k)` is the
 * value the k-th status query returns (k = 0 is the query before the loop) and
 * `clock(k)` is the elapsed time, in whole milliseconds, measured after the
 * k-th sleep (`clock(0)` is the start, 0).
 */
module CrashDumpWait {
  import opened Wrappers
  import opened Decimal

  /** GFSDK_Aftermath_CrashDump_Status, in the vendor's declaration order. */
  datatype CrashDumpStatus =
    | NotStarted
    | CollectingData
    | CollectingDataFailed
    | InvokingCallback
    | Finished
    | Unknown

  /** The integer a stream prints for a status. */
  function StatusCode(status: CrashDumpStatus): nat {
    match status
    case NotStarted => 0
    case CollectingData => 1
    case CollectingDataFailed => 2
    case InvokingCallback => 3
    case Finished => 4
    case Unknown => 5
  }

  const TDR_TERMINATION_TIMEOUT_MS: nat := 3000
  const POLL_INTERVAL_MS: nat := 50
  const ERROR_PREFIX: string := "Unexpected crash dump status: "

  /** The statuses that end the wait before the timeout. */
  predicate IsTerminal(status: CrashDumpStatus) {
    status == CollectingDataFailed || status == Finished
  }

  /**
   * What a steady clock read after successive 50 ms sleeps can return: it
   * starts at 0 and every sleep adds at least 50 ms.
   */
  ghost predicate ClockAdvances(clock: nat -> nat) {
    clock(0) == 0 && forall k: nat :: clock(k) + POLL_INTERVAL_MS <= clock(k + 1)
  }

  /** The loop's exit condition after k sleeps (the negation of its guard). */
  predicate ExitsAt(status: nat -> CrashDumpStatus, clock: nat -> nat, k: nat) {
    IsTerminal(status(k)) || clock(k) >= TDR_TERMINATION_TIMEOUT_MS
  }

  /** How the wait ended: sleeps taken, last status, elapsed time, and the message shown, if any. */
  datatype WaitOutcome = WaitOutcome(polls: nat, finalStatus: CrashDumpStatus, elapsedMs: nat, errorMessage: Option<string>)

  /** The message box text shown after the wait, present exactly when the dump did not finish. */
  function ErrorReport(status: CrashDumpStatus): (message: Option<string>)
    ensures message.Some? <==> status != Finished
    ensures message.Some? ==> message.value == ERROR_PREFIX + Digits(StatusCode(status))
  {
    if status != Finished then Some(ERROR_PREFIX + Digits(StatusCode(status))) else None
  }

  /**
   * The outcome of the wait when it has already taken k sleeps without
   * leaving: it leaves at the first exit point from k on.
   */
  function WaitFrom(status: nat -> CrashDumpStatus, clock: nat -> nat, k: nat): (r: WaitOutcome)
    requires ClockAdvances(clock)
    ensures k <= r.polls && ExitsAt(status, clock, r.polls)
    ensures forall j :: k <= j < r.polls ==> !ExitsAt(status, clock, j)
    ensures r.finalStatus == status(r.polls) && r.elapsedMs == clock(r.polls)
    ensures r.errorMessage == ErrorReport(r.finalStatus)
    decreases TDR_TERMINATION_TIMEOUT_MS - clock(k)
  {
    if ExitsAt(status, clock, k) then WaitOutcome(k, status(k), clock(k), ErrorReport(status(k)))
    else WaitFrom(status, clock, k + 1)
  }

  /** The wait loop of the failure path of OnPresent. */
  method AwaitCrashDump(status: nat -> CrashDumpStatus, clock: nat -> nat) returns (r: WaitOutcome)
    requires ClockAdvances(clock)
    ensures r == WaitFrom(status, clock, 0)
  {
    var polls := 0;
    var elapsed := 0;
    var current := status(0);
    while current != CollectingDataFailed && current != Finished && elapsed < TDR_TERMINATION_TIMEOUT_MS
      invariant current == status(polls) && elapsed == clock(polls)
      invariant WaitFrom(status, clock, polls) == WaitFrom(status, clock, 0)
      decreases TDR_TERMINATION_TIMEOUT_MS - elapsed
    {
      // sleep 50 ms, then query the status and read the clock again
      polls := polls + 1;
      current := status(polls);
      elapsed := clock(polls);
    }
    r := WaitOutcome(polls, current, elapsed, ErrorReport(current));
  }

  /** After k sleeps at least 50*k ms have elapsed. */
  lemma {:induction false} ClockLowerBound(clock: nat -> nat, k: nat)
    requires ClockAdvances(clock)
    ensures clock(k) >= POLL_INTERVAL_MS * k
  {
    if k > 0 {
      ClockLowerBound(clock, k - 1);
      assert clock(k - 1) + POLL_INTERVAL_MS <= clock(k);
    }
  }

  /** The wait sleeps at most 3000 / 50 = 60 times, whatever the status source reports. */
  lemma WaitBounded(status: nat -> CrashDumpStatus, clock: nat -> nat)
    requires ClockAdvances(clock)
    ensures WaitFrom(status, clock, 0).polls <= TDR_TERMINATION_TIMEOUT_MS / POLL_INTERVAL_MS
  {
    var r := WaitFrom(status, clock, 0);
    if r.polls > 60 {
      ClockLowerBound(clock, 60);
      assert ExitsAt(status, clock, 60);
    }
  }

  /**
   * The wait leaves no later than the first query that reports a terminal
   * status; in particular it never sleeps when the first query does.
   */
  lemma ExitsByTerminalStatus(status: nat -> CrashDumpStatus, clock: nat -> nat, m: nat)
    requires ClockAdvances(clock)
    requires IsTerminal(status(m))
    ensures WaitFrom(status, clock, 0).polls <= m
    ensures m == 0 ==> WaitFrom(status, clock, 0).polls == 0
  {
    var r := WaitFrom(status, clock, 0);
    if r.polls > m {
      assert ExitsAt(status, clock, m);
    }
  }

  /**
   * When no sleep overruns 50 ms by more than `overrun` ms, the wait ends
   * within the timeout plus one poll interval plus that overrun.
   */
  lemma WaitOvershootBounded(status: nat -> CrashDumpStatus, clock: nat -> nat, overrun: nat)
    requires ClockAdvances(clock)
    requires forall k: nat :: clock(k + 1) <= clock(k) + POLL_INTERVAL_MS + overrun
    ensures WaitFrom(status, clock, 0).elapsedMs < TDR_TERMINATION_TIMEOUT_MS + POLL_INTERVAL_MS + overrun
  {
    var r := WaitFrom(status, clock, 0);
    if r.polls > 0 {
      var j: nat := r.polls - 1;
      assert !ExitsAt(status, clock, j);
      assert clock(j + 1) <= clock(j) + POLL_INTERVAL_MS + overrun;
    }
  }

  /** The error message is shown exactly when the final status is not Finished. */
  lemma ReportsUnlessFinished(status: nat -> CrashDumpStatus, clock: nat -> nat)
    requires ClockAdvances(clock)
    ensures var r := WaitFrom(status, clock, 0);
      (r.errorMessage.Some? <==> r.finalStatus != Finished) &&
      (r.finalStatus != Finished ==> IsTerminal(r.finalStatus) || r.elapsedMs >= TDR_TERMINATION_TIMEOUT_MS)
  {
  }
}
