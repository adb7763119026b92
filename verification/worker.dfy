/**
 * The worker loop of TransferThread, up to the drain: the failure policy that
 * classifies each transfer's return code, and the statistics update that folds
 * it into the session's counters and timestamps.
 *
 * Each iteration is driven by a `Tick`: the code the transfer returned, whether
 * the user had aborted by then, and the clock reading taken by the statistics
 * update. Timestamps are nanosecond counts, 0 meaning "unset"; clock readings are
 * positive.
 */
module Worker {
  import opened Usb

  /** The counters and timestamps a worker keeps. */
  datatype Stats = Stats(
    startTick: nat,
    lastStartTick: nat,
    lastTick: nat,
    lastTransferred: int,
    totalTransferred: int,
    packets: int,
    totalTimeouts: nat,
    runningTimeouts: nat,
    totalErrors: nat,
    runningErrors: nat)

  /** A freshly created session: every counter and timestamp zero. */
  const InitialStats := Stats(0, 0, 0, 0, 0, 0, 0, 0, 0, 0)

  /** The settings the worker reads: the retry limit and when it calls VerifyData. */
  datatype WorkerConfig = WorkerConfig(retry: int, isIn: bool, verify: bool, isLoopTest: bool)

  /** One iteration's inputs. */
  datatype Tick = Tick(ret: int, userAborted: bool, now: nat)

  ghost predicate ClockRunning(ticks: seq<Tick>)
  {
    forall j :: 0 <= j < |ticks| ==> ticks[j].now > 0
  }

  // ---------------------------------------------------------------------------
  // Failure classification
  // ---------------------------------------------------------------------------

  /** The return codes the timeout branch compares against, as written: positive Windows error codes. */
  predicate IsTimeoutLiteral(ret: int)
  {
    ret == ERROR_SEM_TIMEOUT || ret == ERROR_OPERATION_ABORTED || ret == ERROR_CANCELLED
  }

  /**
   * The timeout branch sits under `ret < 0`, where no positive code can match, so
   * it is never taken: a timeout is counted as an ordinary error.
   */
  lemma TimeoutBranchDead(ret: int)
    requires ret < 0
    ensures !IsTimeoutLiteral(ret)
    ensures !IsTimeoutLiteral(-(ERROR_SEM_TIMEOUT as int))
  {
  }

  /** The evidently intended test: the transfer returned a negated timeout code. */
  predicate IsTimeoutNegated(ret: int)
  {
    ret < 0 && IsTimeoutLiteral(-ret)
  }

  /** Exactly the three negated timeout codes are recognised by the corrected test. */
  lemma NegatedTimeoutCodes(ret: int)
    ensures IsTimeoutNegated(ret) <==> ret in {-121, -995, -1223}
  {
  }

  // ---------------------------------------------------------------------------
  // Statistics update
  // ---------------------------------------------------------------------------

  /**
   * The statistics update after every iteration that does not stop. While the
   * start tick is unset it starts the clock and zeroes the byte counters and
   * the packet count, discarding `ret`; afterwards it opens a new instantaneous
   * window if the last one was cleared, stamps the last tick and adds `ret` to
   * both byte counters and one to the packet count. The error counters are
   * untouched.
   */
  function UpdateStatistics(s: Stats, ret: int, now: nat): (t: Stats)
    requires now > 0
    ensures t.lastTick == now
    ensures s.packets >= 0 || s.startTick > 0 ==> t.startTick > 0
    ensures t.totalTimeouts == s.totalTimeouts && t.runningTimeouts == s.runningTimeouts
    ensures t.totalErrors == s.totalErrors && t.runningErrors == s.runningErrors
    ensures s.startTick > 0 ==> t.startTick == s.startTick
  {
    if s.startTick == 0 && s.packets >= 0 then
      s.(startTick := now, lastStartTick := now, lastTick := now,
         lastTransferred := 0, totalTransferred := 0, packets := 0)
    else
      var window := if s.lastStartTick == 0 then s.(lastStartTick := s.lastTick, lastTransferred := 0) else s;
      window.(lastTick := now,
              lastTransferred := window.lastTransferred + ret,
              totalTransferred := window.totalTransferred + ret,
              packets := window.packets + 1)
  }

  /**
   * The first update discards its bytes; every later one adds `ret` to both byte
   * counters (the instantaneous one restarting at 0 when its window was cleared)
   * and counts one packet, so neither total decreases for `ret >= 0`.
   */
  lemma UpdateAccumulates(s: Stats, ret: int, now: nat)
    requires now > 0 && s.packets >= 0
    ensures var t := UpdateStatistics(s, ret, now);
            && (s.startTick == 0 ==> t.totalTransferred == 0 && t.packets == 0 && t.lastTransferred == 0 && t.lastStartTick == now)
            && (s.startTick > 0 ==> t.totalTransferred == s.totalTransferred + ret && t.packets == s.packets + 1)
            && (s.startTick > 0 && s.lastStartTick == 0 ==> t.lastStartTick == s.lastTick && t.lastTransferred == ret)
            && (s.startTick > 0 && s.lastStartTick > 0 ==> t.lastStartTick == s.lastStartTick && t.lastTransferred == s.lastTransferred + ret)
            && (s.startTick > 0 && ret >= 0 ==> t.totalTransferred >= s.totalTransferred && t.packets > s.packets)
  {
  }

  // ---------------------------------------------------------------------------
  // One iteration
  // ---------------------------------------------------------------------------

  datatype StopReason = Aborted | TooManyTimeouts | TooManyErrors

  /**
   * One iteration's outcome: either the loop goes on with new statistics, having
   * absorbed `ret` as `absorbed` bytes and perhaps reset the pipe or checked the
   * data, or it stops, having reset the pipe first when it stops on an error.
   */
  datatype StepResult =
    | Continue(stats: Stats, absorbed: int, resetPipe: bool, verified: bool)
    | Stop(stats: Stats, reason: StopReason, resetPipe: bool)

  /**
   * TransferThread's loop body after the transfer: a negative code under a user
   * abort stops at once; a negative code matching a timeout code counts a timeout
   * and one not matching counts an error and resets the pipe, each stopping once
   * its running count exceeds `retry` and otherwise being absorbed as 0 bytes; a
   * non-negative code clears both running counts and is checked by VerifyData on
   * an IN pipe when verification is on and the test is not a loop test.
   */
  function WorkerStep(cfg: WorkerConfig, s: Stats, t: Tick): (r: StepResult)
    requires t.now > 0
    ensures t.ret < 0 && t.userAborted ==> r == Stop(s, Aborted, false)
    ensures r.Continue? ==> r.absorbed == (if t.ret < 0 then 0 else t.ret) && r.absorbed >= 0
    ensures r.stats.totalTimeouts == s.totalTimeouts && r.stats.runningTimeouts <= s.runningTimeouts
    ensures t.ret < 0 && !t.userAborted ==>
              && r.stats.totalErrors == s.totalErrors + 1
              && r.stats.runningErrors == s.runningErrors + 1
              && (r.Stop? <==> s.runningErrors + 1 > cfg.retry)
              && (r.Stop? ==> r.reason == TooManyErrors)
              && r.resetPipe && (r.Continue? ==> !r.verified)
    ensures t.ret >= 0 ==> && r.Continue? && r.stats.runningErrors == 0 && r.stats.runningTimeouts == 0
                           && r.stats.totalErrors == s.totalErrors && !r.resetPipe
                           && (r.verified <==> cfg.isIn && cfg.verify && !cfg.isLoopTest)
  {
    FailurePolicy(cfg, s, t, IsTimeoutLiteral(t.ret))
  }

  /**
   * The loop body with the timeout test's verdict `timedOut` as a parameter: a
   * negative code under a user abort stops at once; otherwise a negative code
   * counts a timeout when `timedOut` and an error (resetting the pipe) when not,
   * each stopping once its running count exceeds `retry` and otherwise absorbed
   * as 0 bytes; a non-negative code clears both running counts and is checked by
   * VerifyData on an IN pipe when verification is on and the test is not a loop
   * test. Every iteration that does not stop updates the statistics.
   */
  function FailurePolicy(cfg: WorkerConfig, s: Stats, t: Tick, timedOut: bool): (r: StepResult)
    requires t.now > 0
    ensures t.ret < 0 && t.userAborted ==> r == Stop(s, Aborted, false)
    ensures r.Continue? ==> r.absorbed == (if t.ret < 0 then 0 else t.ret) && r.absorbed >= 0
    ensures r.Continue? && (s.packets >= 0 || s.startTick > 0) ==> r.stats.startTick > 0
    ensures t.ret < 0 && !t.userAborted && timedOut ==>
              && r.stats.totalTimeouts == s.totalTimeouts + 1
              && r.stats.runningTimeouts == s.runningTimeouts + 1
              && r.stats.totalErrors == s.totalErrors && r.stats.runningErrors == s.runningErrors
              && (r.Stop? <==> s.runningTimeouts + 1 > cfg.retry)
              && (r.Stop? ==> r.reason == TooManyTimeouts)
              && !r.resetPipe && (r.Continue? ==> !r.verified)
    ensures t.ret < 0 && !t.userAborted && !timedOut ==>
              && r.stats.totalErrors == s.totalErrors + 1
              && r.stats.runningErrors == s.runningErrors + 1
              && r.stats.totalTimeouts == s.totalTimeouts && r.stats.runningTimeouts == s.runningTimeouts
              && (r.Stop? <==> s.runningErrors + 1 > cfg.retry)
              && (r.Stop? ==> r.reason == TooManyErrors)
              && r.resetPipe && (r.Continue? ==> !r.verified)
    ensures t.ret >= 0 ==> && r.Continue? && r.stats.runningErrors == 0 && r.stats.runningTimeouts == 0
                           && r.stats.totalErrors == s.totalErrors && r.stats.totalTimeouts == s.totalTimeouts
                           && !r.resetPipe
                           && (r.verified <==> cfg.isIn && cfg.verify && !cfg.isLoopTest)
  {
    if t.ret < 0 then
      if t.userAborted then Stop(s, Aborted, false)
      else if timedOut then
        var c := s.(totalTimeouts := s.totalTimeouts + 1, runningTimeouts := s.runningTimeouts + 1);
        if c.runningTimeouts > cfg.retry then Stop(c, TooManyTimeouts, false)
        else Continue(UpdateStatistics(c, 0, t.now), 0, false, false)
      else
        var c := s.(totalErrors := s.totalErrors + 1, runningErrors := s.runningErrors + 1);
        if c.runningErrors > cfg.retry then Stop(c, TooManyErrors, true)
        else Continue(UpdateStatistics(c, 0, t.now), 0, true, false)
    else
      var c := s.(runningTimeouts := 0, runningErrors := 0);
      Continue(UpdateStatistics(c, t.ret, t.now), t.ret, false, cfg.isIn && cfg.verify && !cfg.isLoopTest)
  }

  /**
   * The corrected classification: a negated timeout code counts as a timeout and
   * leaves the error counters alone; every other code is classified as written.
   */
  function WorkerStepCorrected(cfg: WorkerConfig, s: Stats, t: Tick): (r: StepResult)
    requires t.now > 0
    ensures IsTimeoutNegated(t.ret) && !t.userAborted ==>
              && r.stats.totalTimeouts == s.totalTimeouts + 1
              && r.stats.totalErrors == s.totalErrors
              && (r.Stop? <==> s.runningTimeouts + 1 > cfg.retry)
    ensures !IsTimeoutNegated(t.ret) ==> r == WorkerStep(cfg, s, t)
  {
    FailurePolicy(cfg, s, t, IsTimeoutNegated(t.ret))
  }

  /** As written, a transfer that timed out is counted as an error; corrected, as a timeout. */
  lemma TimeoutCountedAsError(cfg: WorkerConfig, s: Stats, now: nat)
    requires now > 0
    ensures WorkerStep(cfg, s, Tick(-(ERROR_SEM_TIMEOUT as int), false, now)).stats.totalErrors == s.totalErrors + 1
    ensures WorkerStep(cfg, s, Tick(-(ERROR_SEM_TIMEOUT as int), false, now)).stats.totalTimeouts == s.totalTimeouts
    ensures WorkerStepCorrected(cfg, s, Tick(-(ERROR_SEM_TIMEOUT as int), false, now)).stats.totalTimeouts == s.totalTimeouts + 1
    ensures WorkerStepCorrected(cfg, s, Tick(-(ERROR_SEM_TIMEOUT as int), false, now)).stats.totalErrors == s.totalErrors
  {
  }

  // ---------------------------------------------------------------------------
  // The loop
  // ---------------------------------------------------------------------------

  /** How a run ended: the statistics, how many ticks it consumed, and why it stopped (None: cancelled when the ticks ran out). */
  datatype RunResult = RunResult(stats: Stats, consumed: nat, stopped: bool, reason: StopReason)

  /** The worker loop over the ticks until one stops it or they run out. */
  function RunWorker(cfg: WorkerConfig, s: Stats, ticks: seq<Tick>): (r: RunResult)
    requires ClockRunning(ticks)
    ensures r.consumed <= |ticks|
    ensures !r.stopped ==> r.consumed == |ticks|
    ensures r.stats.totalTimeouts == s.totalTimeouts
    decreases |ticks|
  {
    if ticks == [] then RunResult(s, 0, false, Aborted)
    else
      match WorkerStep(cfg, s, ticks[0])
      case Stop(t, reason, _) => RunResult(t, 1, true, reason)
      case Continue(t, _, _, _) =>
        var rest := RunWorker(cfg, t, ticks[1..]);
        rest.(consumed := rest.consumed + 1)
  }

  /** The bytes a run of iterations adds: each non-negative code, failures contributing 0. */
  function SumAbsorbed(ticks: seq<Tick>): int
  {
    if ticks == [] then 0 else (if ticks[0].ret < 0 then 0 else ticks[0].ret) + SumAbsorbed(ticks[1..])
  }

  /** No tick stops the loop: failures are neither aborted nor too many. */
  ghost predicate NoStop(cfg: WorkerConfig, s: Stats, ticks: seq<Tick>)
    requires ClockRunning(ticks)
  {
    !RunWorker(cfg, s, ticks).stopped
  }

  /**
   * Once the clock is started, a run that is not stopped adds exactly the absorbed
   * bytes to the total and one packet per iteration, absorbed failures included.
   */
  lemma {:induction false} StartedRunTotals(cfg: WorkerConfig, s: Stats, ticks: seq<Tick>)
    requires ClockRunning(ticks) && s.startTick > 0
    requires NoStop(cfg, s, ticks)
    ensures RunWorker(cfg, s, ticks).stats.totalTransferred == s.totalTransferred + SumAbsorbed(ticks)
    ensures RunWorker(cfg, s, ticks).stats.packets == s.packets + |ticks|
    decreases |ticks|
  {
    if ticks != [] {
      var r := WorkerStep(cfg, s, ticks[0]);
      assert r.Continue?;
      StartedRunTotals(cfg, r.stats, ticks[1..]);
    }
  }

  /**
   * From a fresh session, the first iteration's bytes are discarded: after `n`
   * uninterrupted iterations the total is the bytes of iterations 2..n and the
   * packet count is n - 1.
   */
  lemma FirstUpdateDiscarded(cfg: WorkerConfig, ticks: seq<Tick>)
    requires ClockRunning(ticks) && |ticks| >= 1
    requires NoStop(cfg, InitialStats, ticks)
    ensures RunWorker(cfg, InitialStats, ticks).stats.totalTransferred == SumAbsorbed(ticks[1..])
    ensures RunWorker(cfg, InitialStats, ticks).stats.packets == |ticks| - 1
  {
    var r := WorkerStep(cfg, InitialStats, ticks[0]);
    assert r.Continue?;
    StartedRunTotals(cfg, r.stats, ticks[1..]);
  }

  /** A run of `n` equal successful transfers of `len` bytes reports (n - 1) * len bytes. */
  function Uniform(n: nat, len: nat): (ticks: seq<Tick>)
    ensures |ticks| == n && ClockRunning(ticks)
  {
    seq(n, (j: nat) => Tick(len, false, j + 1))
  }

  lemma {:induction false} UniformSum(n: nat, len: nat)
    ensures SumAbsorbed(Uniform(n, len)) == n * len
  {
    if n > 0 {
      assert Uniform(n, len)[1..] == seq(n - 1, (j: nat) => Tick(len, false, j + 2));
      UniformSumFrom(n - 1, len, 2);
    }
  }

  lemma {:induction false} UniformSumFrom(n: nat, len: nat, t0: nat)
    ensures SumAbsorbed(seq(n, (j: nat) => Tick(len, false, j + t0))) == n * len
  {
    if n > 0 {
      assert seq(n, (j: nat) => Tick(len, false, j + t0))[1..] == seq(n - 1, (j: nat) => Tick(len, false, j + (t0 + 1)));
      UniformSumFrom(n - 1, len, t0 + 1);
    }
  }

  /** Iterations that all succeed never stop the loop. */
  lemma {:induction false} SuccessesNeverStop(cfg: WorkerConfig, s: Stats, ticks: seq<Tick>)
    requires ClockRunning(ticks)
    requires forall j :: 0 <= j < |ticks| ==> ticks[j].ret >= 0
    ensures NoStop(cfg, s, ticks)
    decreases |ticks|
  {
    if ticks != [] {
      var r := WorkerStep(cfg, s, ticks[0]);
      SuccessesNeverStop(cfg, r.stats, ticks[1..]);
    }
  }

  /** `n` equal successful transfers of `len` bytes from a fresh session report `n - 1` packets and `(n - 1) * len` bytes. */
  lemma UniformRun(cfg: WorkerConfig, n: nat, len: nat)
    requires n >= 1
    ensures RunWorker(cfg, InitialStats, Uniform(n, len)).stats.totalTransferred == (n - 1) * len
    ensures RunWorker(cfg, InitialStats, Uniform(n, len)).stats.packets == n - 1
  {
    var ticks := Uniform(n, len);
    SuccessesNeverStop(cfg, InitialStats, ticks);
    FirstUpdateDiscarded(cfg, ticks);
    UniformSumFrom(n - 1, len, 2);
    assert ticks[1..] == seq(n - 1, (j: nat) => Tick(len, false, j + 2));
  }

  /** 1000 successful transfers of 512 bytes from a fresh session report 999 packets and 999 * 512 bytes. */
  lemma ThousandTransfersScenario(cfg: WorkerConfig)
    ensures RunWorker(cfg, InitialStats, Uniform(1000, 512)).stats.totalTransferred == 999 * 512
    ensures RunWorker(cfg, InitialStats, Uniform(1000, 512)).stats.packets == 999
  {
    UniformRun(cfg, 1000, 512);
  }

  /**
   * The loop stops for errors only after `retry + 1` consecutive failures, counting
   * the `runningErrors` it started with, and every one of the last `retry + 1`
   * ticks it consumed (all of them, if fewer) failed.
   */
  lemma {:induction false} StopNeedsConsecutiveFailures(cfg: WorkerConfig, s: Stats, ticks: seq<Tick>)
    requires ClockRunning(ticks)
    requires s.runningErrors <= cfg.retry
    ensures var r := RunWorker(cfg, s, ticks);
            r.stopped && r.reason == TooManyErrors ==>
              && r.consumed + s.runningErrors >= cfg.retry + 1
              && forall j :: 0 <= j < r.consumed && j + cfg.retry + 1 >= r.consumed ==> ticks[j].ret < 0
    decreases |ticks|
  {
    if ticks != [] {
      var st := WorkerStep(cfg, s, ticks[0]);
      if st.Continue? {
        StopNeedsConsecutiveFailures(cfg, st.stats, ticks[1..]);
        var r := RunWorker(cfg, s, ticks);
        var r' := RunWorker(cfg, st.stats, ticks[1..]);
        assert r.stopped == r'.stopped && r.reason == r'.reason && r.consumed == r'.consumed + 1;
        if r.stopped && r.reason == TooManyErrors {
          if ticks[0].ret >= 0 {
            assert st.stats.runningErrors == 0;
          } else {
            assert st.stats.runningErrors == s.runningErrors + 1;
          }
          forall j | 0 <= j < r.consumed && j + cfg.retry + 1 >= r.consumed
            ensures ticks[j].ret < 0
          {
            if j > 0 {
              assert ticks[1..][j - 1] == ticks[j];
            }
          }
        }
      }
    }
  }

  /** Conversely, `retry + 1 - runningErrors` consecutive non-aborted failures do stop the loop, at the last of them. */
  lemma {:induction false} ConsecutiveFailuresStop(cfg: WorkerConfig, s: Stats, ticks: seq<Tick>)
    requires ClockRunning(ticks)
    requires 0 <= s.runningErrors <= cfg.retry
    requires |ticks| >= cfg.retry + 1 - s.runningErrors
    requires forall j :: 0 <= j < cfg.retry + 1 - s.runningErrors ==> ticks[j].ret < 0 && !ticks[j].userAborted
    ensures RunWorker(cfg, s, ticks).stopped
    ensures RunWorker(cfg, s, ticks).reason == TooManyErrors
    ensures RunWorker(cfg, s, ticks).consumed == cfg.retry + 1 - s.runningErrors
    decreases |ticks|
  {
    var st := WorkerStep(cfg, s, ticks[0]);
    if st.Continue? {
      ConsecutiveFailuresStop(cfg, st.stats, ticks[1..]);
    }
  }

  // ---------------------------------------------------------------------------
  // The libusb port
  // ---------------------------------------------------------------------------

  /** The libusb port stops after more than this many consecutive errors, whatever the retry setting. */
  const LINUX_ERROR_LIMIT: nat := 5

  /** One iteration's outcome in the libusb port, with how many times it called verifyData. */
  datatype LinuxStep = LinuxStep(stats: Stats, stop: bool, verifyCalls: nat)

  /**
   * transferThread's loop body in the libusb port: no timeout branch and a fixed
   * error limit; verifyData runs once before classification for a positive code
   * and once more on success, both on an IN pipe with a verify buffer; the
   * statistics start the clock while `packets` is 0 and set it to 1.
   */
  function LinuxWorkerStep(isIn: bool, hasVerifyBuffer: bool, s: Stats, t: Tick): (r: LinuxStep)
    requires t.now > 0
    ensures t.ret < 0 && t.userAborted ==> r.stop && r.stats == s
    ensures t.ret < 0 && !t.userAborted ==> r.stats.runningErrors == s.runningErrors + 1 && (r.stop <==> s.runningErrors + 1 > LINUX_ERROR_LIMIT)
    ensures t.ret >= 0 ==> !r.stop && r.stats.runningErrors == 0
    ensures !r.stop && s.packets >= 0 ==> r.stats.packets >= 1
    ensures !r.stop && s.packets == 0 ==> r.stats.packets == 1 && r.stats.totalTransferred == 0
    ensures !r.stop && s.packets != 0 ==> r.stats.packets == s.packets + 1
    ensures r.verifyCalls == (if isIn && hasVerifyBuffer && t.ret > 0 then 2 else if isIn && hasVerifyBuffer && t.ret == 0 then 1 else 0)
  {
    var before := if hasVerifyBuffer && isIn && t.ret > 0 then 1 else 0;
    if t.ret < 0 && t.userAborted then LinuxStep(s, true, before)
    else if t.ret < 0 then
      var c := s.(totalErrors := s.totalErrors + 1, runningErrors := s.runningErrors + 1);
      if c.runningErrors > LINUX_ERROR_LIMIT then LinuxStep(c, true, before)
      else LinuxStep(LinuxStatistics(c, 0, t.now), false, before)
    else
      var c := s.(runningTimeouts := 0, runningErrors := 0);
      var after := if isIn && hasVerifyBuffer then 1 else 0;
      LinuxStep(LinuxStatistics(c, t.ret, t.now), false, before + after)
  }

  /** The libusb port's statistics update, keyed on the packet count instead of the start tick. */
  function LinuxStatistics(s: Stats, ret: int, now: nat): (t: Stats)
    requires now > 0
    ensures t.lastTick == now && t.runningErrors == s.runningErrors && t.totalErrors == s.totalErrors
  {
    if s.packets == 0 then
      s.(startTick := now, lastStartTick := now, lastTick := now,
         lastTransferred := 0, totalTransferred := 0, packets := 1)
    else
      var window := if s.lastStartTick == 0 then s.(lastStartTick := s.lastTick, lastTransferred := 0) else s;
      window.(lastTick := now,
              lastTransferred := window.lastTransferred + ret,
              totalTransferred := window.totalTransferred + ret,
              packets := window.packets + 1)
  }

  /** The libusb worker loop; returns the statistics and how many updates took the initialising branch. */
  function RunLinuxWorker(isIn: bool, hasVerifyBuffer: bool, s: Stats, ticks: seq<Tick>): (r: (Stats, nat))
    requires ClockRunning(ticks)
    ensures s.packets >= 0 ==> r.0.packets >= 0
    decreases |ticks|
  {
    if ticks == [] then (s, 0)
    else
      var st := LinuxWorkerStep(isIn, hasVerifyBuffer, s, ticks[0]);
      if st.stop then (st.stats, 0)
      else
        var rest := RunLinuxWorker(isIn, hasVerifyBuffer, st.stats, ticks[1..]);
        (rest.0, rest.1 + (if s.packets == 0 then 1 else 0))
  }

  /**
   * In the libusb port the initialising branch is taken at most once per run from
   * a non-negative packet count, and never once the count is positive.
   */
  lemma {:induction false} LinuxInitialisesOnce(isIn: bool, hasVerifyBuffer: bool, s: Stats, ticks: seq<Tick>)
    requires ClockRunning(ticks) && s.packets >= 0
    ensures RunLinuxWorker(isIn, hasVerifyBuffer, s, ticks).1 <= 1
    ensures s.packets > 0 ==> RunLinuxWorker(isIn, hasVerifyBuffer, s, ticks).1 == 0
    decreases |ticks|
  {
    if ticks != [] {
      var st := LinuxWorkerStep(isIn, hasVerifyBuffer, s, ticks[0]);
      if !st.stop {
        LinuxInitialisesOnce(isIn, hasVerifyBuffer, st.stats, ticks[1..]);
      }
    }
  }
}
