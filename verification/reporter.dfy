/**
 * The reporting side: the average and instantaneous throughput computed from a
 * worker's counters and timestamps, and ShowRunningStatus, which reads a snapshot
 * of each worker and clears the live worker's instantaneous window after it
 * reports.
 *
 * Throughput is a floating-point quotient in the source; here a rate is kept as
 * the exact pair it is computed from (bytes and whole elapsed seconds), or the
 * marker that the division had a zero divisor.
 */
module Reporter {
  import opened Wrappers
  import opened Worker

  const NANOS_PER_SECOND: nat := 1_000_000_000

  /** A throughput value: zero, `bytes / seconds`, or a division by zero seconds. */
  datatype Rate = Zero | Ratio(bytes: int, seconds: nat) | DivByZero(bytes: int)

  /**
   * The elapsed time between two timestamps in whole seconds, as the source's
   * conversion of the fractional difference to an unsigned integer truncates it.
   */
  function ElapsedSeconds(from: nat, to: nat): (secs: nat)
    requires from < to
    ensures secs * NANOS_PER_SECOND <= to - from < (secs + 1) * NANOS_PER_SECOND
  {
    (to - from) / NANOS_PER_SECOND
  }

  /** The source revision a reporter follows. */
  datatype RateGuards =
    | Unguarded  // uvperf.c: no zero checks after the timestamp test
    | Guarded    // src/transfer.c: zero bytes or zero seconds report 0
    | BytesOnly  // src/transfer_p.c: zero bytes report 0, zero seconds are not checked

  /**
   * GetAverageBytesSec: the total bytes over the whole seconds from the start tick
   * to the last tick, or 0 when the start tick is unset or not strictly before
   * the last tick; the guarded revision also reports 0 for zero bytes or less than
   * one elapsed second, and src/transfer_p.c only for zero bytes.
   */
  function AverageBytesSec(guards: RateGuards, s: Stats): (r: Rate)
    ensures r.Ratio? ==> && s.startTick > 0 && s.startTick < s.lastTick
                         && r.bytes == s.totalTransferred
                         && r.seconds >= 1
                         && r.seconds * NANOS_PER_SECOND <= s.lastTick - s.startTick < (r.seconds + 1) * NANOS_PER_SECOND
  {
    if s.startTick != 0 && s.startTick < s.lastTick then
      var secs := ElapsedSeconds(s.startTick, s.lastTick);
      match guards
      case Unguarded => if secs == 0 then DivByZero(s.totalTransferred) else Ratio(s.totalTransferred, secs)
      case Guarded => if s.totalTransferred == 0 || secs == 0 then Zero else Ratio(s.totalTransferred, secs)
      case BytesOnly =>
        if s.totalTransferred == 0 then Zero
        else if secs == 0 then DivByZero(s.totalTransferred) else Ratio(s.totalTransferred, secs)
    else Zero
  }

  /**
   * The guarded average never divides by zero, and it is 0 exactly when the clock
   * is unset, less than a second has passed since the start tick, or no bytes were
   * counted.
   */
  lemma GuardedAverage(s: Stats)
    ensures !AverageBytesSec(Guarded, s).DivByZero?
    ensures AverageBytesSec(Guarded, s).Zero? <==>
              s.startTick == 0 || s.lastTick < s.startTick + NANOS_PER_SECOND || s.totalTransferred == 0
  {
  }

  /**
   * The unguarded average divides by zero exactly when the start tick is set and
   * the last tick follows it by less than one second, as it does for every report
   * in a session's first second.
   */
  lemma UnguardedAverageDividesByZero(s: Stats)
    ensures AverageBytesSec(Unguarded, s).DivByZero? <==>
              s.startTick > 0 && s.startTick < s.lastTick < s.startTick + NANOS_PER_SECOND
    ensures AverageBytesSec(Unguarded, Stats(1, 1, 2, 512, 512, 1, 0, 0, 0, 0)) == DivByZero(512)
  {
  }

  /**
   * The src/transfer_p.c average reports 0 for a session with no bytes, but still
   * divides by zero when bytes arrived within the first second; so it differs from
   * both other revisions.
   */
  lemma BytesOnlyAverage(s: Stats)
    ensures AverageBytesSec(BytesOnly, s).DivByZero? <==>
              s.startTick > 0 && s.startTick < s.lastTick < s.startTick + NANOS_PER_SECOND && s.totalTransferred != 0
    ensures AverageBytesSec(BytesOnly, s).Zero? <==>
              s.startTick == 0 || s.lastTick <= s.startTick || s.totalTransferred == 0
    ensures AverageBytesSec(BytesOnly, Stats(1, 1, 2, 512, 512, 1, 0, 0, 0, 0)) == DivByZero(512)
    ensures AverageBytesSec(BytesOnly, Stats(1, 1, 2, 0, 0, 1, 0, 0, 0, 0)) == Zero
    ensures AverageBytesSec(Unguarded, Stats(1, 1, 2, 0, 0, 1, 0, 0, 0, 0)) == DivByZero(0)
  {
  }

  /**
   * GetCurrentBytesSec: the instantaneous window's bytes over the whole seconds
   * from its start to the last tick, or 0 when the window is cleared or not
   * strictly before the last tick. No revision guards the divisor.
   */
  function CurrentBytesSec(s: Stats): (r: Rate)
    ensures r.DivByZero? <==> s.lastStartTick > 0 && s.lastStartTick < s.lastTick < s.lastStartTick + NANOS_PER_SECOND
    ensures r.Zero? <==> s.lastStartTick == 0 || s.lastTick <= s.lastStartTick
    ensures r.Ratio? ==> r.bytes == s.lastTransferred && r.seconds >= 1
  {
    if s.lastStartTick != 0 && s.lastStartTick < s.lastTick then
      var secs := ElapsedSeconds(s.lastStartTick, s.lastTick);
      if secs == 0 then DivByZero(s.lastTransferred) else Ratio(s.lastTransferred, secs)
    else Zero
  }

  /** A worker has not produced a usable interval yet: its clock is unset or runs backwards. */
  predicate Synchronizing(s: Stats)
  {
    s.startTick == 0 || s.startTick > s.lastTick
  }

  /** Which present workers' windows hold no bytes: 0 for the read worker, 1 for the write worker. */
  function ZeroWindows(read: Option<Stats>, write: Option<Stats>): set<nat>
  {
    (if read.Some? && read.value.lastTransferred == 0 then {0} else {})
    + (if write.Some? && write.value.lastTransferred == 0 then {1} else {})
  }

  /** A present worker's packet count; an absent one contributes nothing. */
  function PacketsOf(w: Option<Stats>): int
  {
    if w.Some? then w.value.packets else 0
  }

  /** What one status report shows. */
  datatype Report =
    | Syncing
    | Summary(readAverage: Rate, readCurrent: Rate, writeAverage: Rate, writeCurrent: Rate,
              zeroLength: nat, totalPackets: int)

  /** The live workers after a report, and the report. */
  datatype StatusResult = StatusResult(read: Option<Stats>, write: Option<Stats>, report: Report)

  /**
   * ShowRunningStatus with the workers present as `Some`: a synchronizing write
   * worker suppresses the summary and leaves both workers untouched; otherwise
   * each present worker's rates are reported, a window with no bytes counts as a
   * zero-length transfer, and the live worker's instantaneous window is cleared.
   * A synchronizing read worker only logs; its own report still follows.
   */
  function ShowRunningStatus(guards: RateGuards, read: Option<Stats>, write: Option<Stats>): (r: StatusResult)
    ensures write.Some? && Synchronizing(write.value) ==> r == StatusResult(read, write, Syncing)
    ensures !(write.Some? && Synchronizing(write.value)) ==>
              && r.report.Summary?
              && (read.Some? ==> r.read == Some(read.value.(lastStartTick := 0)))
              && (write.Some? ==> r.write == Some(write.value.(lastStartTick := 0)))
              && r.read.None? == read.None? && r.write.None? == write.None?
              && r.report.zeroLength <= 2
              && r.report.readAverage == (if read.Some? then AverageBytesSec(guards, read.value) else Zero)
              && r.report.readCurrent == (if read.Some? then CurrentBytesSec(read.value) else Zero)
              && r.report.writeAverage == (if write.Some? then AverageBytesSec(guards, write.value) else Zero)
              && r.report.writeCurrent == (if write.Some? then CurrentBytesSec(write.value) else Zero)
              && r.report.zeroLength == |ZeroWindows(read, write)|
              && r.report.totalPackets == PacketsOf(read) + PacketsOf(write)
  {
    if write.Some? && Synchronizing(write.value) then StatusResult(read, write, Syncing)
    else
      var readAvg := if read.Some? then AverageBytesSec(guards, read.value) else Zero;
      var readCur := if read.Some? then CurrentBytesSec(read.value) else Zero;
      var writeAvg := if write.Some? then AverageBytesSec(guards, write.value) else Zero;
      var writeCur := if write.Some? then CurrentBytesSec(write.value) else Zero;
      var zlp := (if read.Some? && read.value.lastTransferred == 0 then 1 else 0)
               + (if write.Some? && write.value.lastTransferred == 0 then 1 else 0);
      var packets := (if read.Some? then read.value.packets else 0) + (if write.Some? then write.value.packets else 0);
      StatusResult(
        if read.Some? then Some(read.value.(lastStartTick := 0)) else None,
        if write.Some? then Some(write.value.(lastStartTick := 0)) else None,
        Summary(readAvg, readCur, writeAvg, writeCur, zlp, packets))
  }

  /**
   * After a report clears a started worker's window, the next statistics update
   * opens a new window at the previous last tick holding only that update's bytes,
   * while the session totals keep accumulating.
   */
  lemma ReportRestartsWindow(guards: RateGuards, s: Stats, ret: int, now: nat)
    requires s.startTick > 0 && !Synchronizing(s) && now > 0
    ensures var after := ShowRunningStatus(guards, Some(s), None).read.value;
            var t := UpdateStatistics(after, ret, now);
            && t.lastStartTick == s.lastTick
            && t.lastTransferred == ret
            && t.totalTransferred == s.totalTransferred + ret
            && t.startTick == s.startTick
  {
  }

  /** Between reports, a started worker's window keeps accumulating from where it opened. */
  lemma WindowAccumulates(s: Stats, ret: int, now: nat)
    requires s.startTick > 0 && s.lastStartTick > 0 && now > 0
    ensures UpdateStatistics(s, ret, now).lastStartTick == s.lastStartTick
    ensures UpdateStatistics(s, ret, now).lastTransferred == s.lastTransferred + ret
  {
  }
}
